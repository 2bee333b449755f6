/**
 * The named values of ModuleConstants that the modelled services use.
 * GENERIC_ERROR_MESSAGE is referenced by EngagementServiceImpl but is not declared
 * in ModuleConstants, so it has no entry here (see module Engagement).
 */
module Constants {

  // Auth
  const USER_REGISTERED_SUCCESS: string := "User registered successfully"
  const USER_LOGIN_SUCCESS: string := "User logged in successfully"
  const USERNAME_TAKEN: string := "Username is already taken!"
  const USER_NOT_FOUND: string := "User not found"
  const REFRESH_TOKEN_EXPIRED: string := "Refresh token is expired"
  const ROLE_USER: string := "USER"
  const ROLE_ADMIN: string := "ADMIN"

  // Error messages
  const VIDEO_ALREADY_PRESENT: string := "Video already present with title: "
  const VIDEO_NOT_FOUND: string := "Video not found"
  const VIDEO_DELISTED: string := "Video is delisted."
  const INVALID_DIRECTOR_NAME: string := "Director name cannot be empty."
  const INVALID_SEARCH_PHRASE: string := "Invalid search phrase"
  const VIDEO_DELISTED_SUCCESSFULLY: string := "Video successfully delisted: "

  // Auth header and response keys
  const AUTH_HEADER: string := "Authorization"
  const AUTH_BEARER_PREFIX: string := "Bearer "
  const AUTH_MESSAGE: string := "message"
  const ACCESS_AUTH_TOKEN: string := "accessToken"
  const REFRESH_AUTH_TOKEN: string := "refreshToken"
}
