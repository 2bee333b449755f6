/**
 * VideoResponse (model/response/VideoResponse.java) with its entity mapper, and the
 * VideoDTO field bag (dto/VideoDTO.java) that the listing and streaming calls return.
 */
module VideoResponses {
  import opened Wrappers
  import opened Exceptions
  import opened VideoEntities

  datatype VideoResponse = VideoResponse(title: string, synopsis: string, director: string, cast: string,
                                         yearOfRelease: int, genre: string, runningTime: int, content: string,
                                         isDelisted: bool, impressions: int, views: int)

  /** new VideoResponse(): not delisted and no engagement yet. */
  function DefaultVideoResponse(): (r: VideoResponse)
    ensures !r.isDelisted && r.impressions == 0 && r.views == 0
  {
    VideoResponse("", "", "", "", 0, "", 0, "", false, 0, 0)
  }

  /**
   * videoMapper: the video's own fields, its metadata's descriptive fields and its
   * statistics' counters; a missing metadata or statistics row dereferences null.
   */
  function VideoMapper(video: Video): (r: Outcome<VideoResponse>)
    reads video, video.metaData, video.engagementStatistics
    ensures r.Thrown? <==> video.metaData == null || video.engagementStatistics == null
    ensures r.Thrown? ==> r.exception == NullPointerException
    ensures r.Returned? ==>
              && r.value.title == video.title && r.value.content == video.content
              && r.value.isDelisted == video.isDelisted
              && r.value.synopsis == video.metaData.synopsis && r.value.director == video.metaData.director
              && r.value.cast == video.metaData.cast && r.value.yearOfRelease == video.metaData.yearOfRelease
              && r.value.genre == video.metaData.genre && r.value.runningTime == video.metaData.runningTime
              && r.value.impressions == video.engagementStatistics.impressions
              && r.value.views == video.engagementStatistics.views
  {
    var videoMetaData := video.metaData;
    var engagementStatistics := video.engagementStatistics;
    if videoMetaData == null || engagementStatistics == null then Thrown(NullPointerException)
    else
      Returned(VideoResponse(video.title, videoMetaData.synopsis, videoMetaData.director, videoMetaData.cast,
                             videoMetaData.yearOfRelease, videoMetaData.genre, videoMetaData.runningTime,
                             video.content, video.isDelisted, engagementStatistics.impressions,
                             engagementStatistics.views))
  }

  datatype VideoDTO = VideoDTO(id: Option<nat>, title: string, director: string, cast: string, genre: string, runningTime: int)
}
