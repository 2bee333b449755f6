/**
 * The User entity (entity/User.java), the users table behind UserRepository
 * (repository/UserRepository.java) and the lookup of UserDetailsServiceImpl.
 */
module Users {
  import opened Wrappers
  import opened Exceptions

  datatype GrantedAuthority = SimpleGrantedAuthority(authority: string)

  /** A row of the users table; `id` is absent until the row is first saved. */
  datatype User = User(id: Option<nat>, username: string, password: string, role: string)
  {
    /** The user holds exactly one authority: its role. */
    function GetAuthorities(): (r: seq<GrantedAuthority>)
      ensures |r| == 1 && r[0].authority == role
    {
      [SimpleGrantedAuthority(role)]
    }

    // The account-status predicates of UserDetails are constant.
    predicate IsAccountNonExpired() { true }
    predicate IsAccountNonLocked() { true }
    predicate IsCredentialsNonExpired() { true }
    predicate IsEnabled() { true }
  }

  /** Every user is always active: no status predicate can turn an account away. */
  lemma AccountAlwaysActive(u: User)
    ensures u.IsAccountNonExpired() && u.IsAccountNonLocked() && u.IsCredentialsNonExpired() && u.IsEnabled()
  {
  }

  /**
   * The users table, indexed by its unique username column. `nextId` is the next value
   * of the identity column.
   */
  class UserRepository {
    var users: map<string, User>
    var nextId: nat

    /** Usernames are the unique key, and every stored row has a distinct id below nextId. */
    ghost predicate Valid()
      reads this
    {
      && (forall name | name in users :: users[name].username == name)
      && (forall name | name in users :: users[name].id.Some? && users[name].id.value < nextId)
      && (forall a, b | a in users && b in users && a != b :: users[a].id != users[b].id)
    }

    constructor ()
      ensures Valid() && users == map[] && nextId == 0
    {
      users := map[];
      nextId := 0;
    }

    /** findByUsername: the row whose username equals the argument exactly, if any. */
    function FindByUsername(username: string): (r: Option<User>)
      reads this
      requires Valid()
      ensures r.Some? <==> username in users
      ensures r.Some? ==> r.value == users[username] && r.value.username == username
    {
      if username in users then Some(users[username]) else None
    }

    /**
     * save of a new (not yet persisted) user: the row gets the next identity value.
     * A username already present violates the unique constraint and nothing is written.
     */
    method Save(user: User) returns (r: Outcome<User>)
      requires Valid() && user.id.None?
      modifies this
      ensures Valid()
      ensures user.username in old(users) ==>
                r == Thrown(DataIntegrityViolationException) && users == old(users) && nextId == old(nextId)
      ensures user.username !in old(users) ==>
                && r == Returned(user.(id := Some(old(nextId))))
                && users == old(users)[user.username := r.value]
                && nextId == old(nextId) + 1
    {
      if user.username in users {
        return Thrown(DataIntegrityViolationException);
      }
      var saved := user.(id := Some(nextId));
      users := users[user.username := saved];
      nextId := nextId + 1;
      r := Returned(saved);
    }
  }

  /** UserDetailsServiceImpl.loadUserByUsername. */
  function LoadUserByUsername(repo: UserRepository, username: string): (r: Outcome<User>)
    reads repo
    requires repo.Valid()
    ensures r.Returned? <==> username in repo.users
    ensures r.Returned? ==> r.value == repo.users[username] && r.value.username == username
    ensures r.Thrown? ==> r.exception == UsernameNotFoundException("User not found with username: " + username)
  {
    match repo.FindByUsername(username)
    case Some(u) => Returned(u)
    case None => Thrown(UsernameNotFoundException("User not found with username: " + username))
  }
}
