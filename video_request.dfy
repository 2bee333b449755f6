/**
 * VideoRequest (model/request/VideoRequest.java) and its three static mappers, which build
 * fresh entities from a request without touching any existing object.
 */
module VideoRequests {
  import opened Wrappers
  import opened VideoEntities

  datatype VideoRequest = VideoRequest(title: string, synopsis: string, director: string, cast: string,
                                       yearOfRelease: int, genre: string, runningTime: int, content: string)

  /** toVideo: a new video carrying exactly the request's title and content. */
  method ToVideo(videoRequest: VideoRequest) returns (video: Video)
    ensures fresh(video)
    ensures video.title == videoRequest.title && video.content == videoRequest.content
    ensures video.videoId == None && !video.isDelisted
    ensures video.metaData == null && video.engagementStatistics == null
  {
    video := new Video();
    video.SetTitle(videoRequest.title);
    video.SetContent(videoRequest.content);
  }

  /** toVideoMetadata: the six descriptive fields of the request, no id, linked to `video`. */
  method ToVideoMetadata(videoRequest: VideoRequest, video: Video) returns (metaData: VideoMetaData)
    ensures fresh(metaData)
    ensures metaData.id == None && metaData.video == video
    ensures metaData.synopsis == videoRequest.synopsis && metaData.director == videoRequest.director
    ensures metaData.cast == videoRequest.cast && metaData.yearOfRelease == videoRequest.yearOfRelease
    ensures metaData.genre == videoRequest.genre && metaData.runningTime == videoRequest.runningTime
  {
    metaData := new VideoMetaData.Of(None, videoRequest.synopsis, videoRequest.director, videoRequest.cast,
                                     videoRequest.yearOfRelease, videoRequest.genre, videoRequest.runningTime, video);
  }

  /** toEngagementStatistics: zeroed counters linked to `video`. */
  method ToEngagementStatistics(video: Video) returns (engagementStatistics: EngagementStatistics)
    ensures fresh(engagementStatistics)
    ensures engagementStatistics.id == None && engagementStatistics.video == video
    ensures engagementStatistics.impressions == 0 && engagementStatistics.views == 0
  {
    engagementStatistics := new EngagementStatistics();
    engagementStatistics.SetVideo(video);
  }
}
