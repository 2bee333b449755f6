/**
 * The mutable JPA entities of the catalogue: Video (entity/Video.java), VideoMetaData
 * (entity/VideoMetaData.java) and EngagementStatistics (entity/EngagementStatistics.java).
 * A Java null String is modelled as "", a null Long id as None, a null reference as null.
 * Each setter may change its own field only, which its `modifies` frame states.
 */
module VideoEntities {
  import opened Wrappers

  class Video {
    var videoId: Option<nat>
    var title: string
    var content: string
    var isDelisted: bool
    var metaData: VideoMetaData?
    var engagementStatistics: EngagementStatistics?

    /** new Video(): not delisted, no id, no linked rows. */
    constructor ()
      ensures videoId == None && title == "" && content == "" && !isDelisted
      ensures metaData == null && engagementStatistics == null
    {
      videoId := None;
      title := "";
      content := "";
      isDelisted := false;
      metaData := null;
      engagementStatistics := null;
    }

    method SetTitle(title: string)
      modifies this`title
      ensures this.title == title
    {
      this.title := title;
    }

    method SetContent(content: string)
      modifies this`content
      ensures this.content == content
    {
      this.content := content;
    }

    method SetDelisted(delisted: bool)
      modifies this`isDelisted
      ensures isDelisted == delisted
    {
      isDelisted := delisted;
    }

    /** setMetaData links both ways: the metadata's back-reference becomes this video. */
    method SetMetaData(metaData: VideoMetaData)
      modifies this`metaData, metaData`video
      ensures this.metaData == metaData && metaData.video == this
    {
      this.metaData := metaData;
      metaData.video := this;
    }

    /** setEngagementStatistics sets the forward link only. */
    method SetEngagementStatistics(engagementStatistics: EngagementStatistics?)
      modifies this`engagementStatistics
      ensures this.engagementStatistics == engagementStatistics
    {
      this.engagementStatistics := engagementStatistics;
    }
  }

  class VideoMetaData {
    var id: Option<nat>
    var synopsis: string
    var director: string
    var cast: string
    var yearOfRelease: int
    var genre: string
    var runningTime: int
    var video: Video?

    /** new VideoMetaData(): every field unset. */
    constructor ()
      ensures id == None && synopsis == "" && director == "" && cast == "" && genre == ""
      ensures yearOfRelease == 0 && runningTime == 0 && video == null
    {
      id := None;
      synopsis, director, cast, genre := "", "", "", "";
      yearOfRelease, runningTime := 0, 0;
      video := null;
    }

    /** The all-arguments constructor. */
    constructor Of(id: Option<nat>, synopsis: string, director: string, cast: string, yearOfRelease: int,
                   genre: string, runningTime: int, video: Video?)
      ensures this.id == id && this.synopsis == synopsis && this.director == director && this.cast == cast
      ensures this.yearOfRelease == yearOfRelease && this.genre == genre && this.runningTime == runningTime
      ensures this.video == video
    {
      this.id := id;
      this.synopsis, this.director, this.cast, this.genre := synopsis, director, cast, genre;
      this.yearOfRelease, this.runningTime := yearOfRelease, runningTime;
      this.video := video;
    }

    method SetDirector(director: string)
      modifies this`director
      ensures this.director == director
    {
      this.director := director;
    }

    method SetGenre(genre: string)
      modifies this`genre
      ensures this.genre == genre
    {
      this.genre := genre;
    }

    method SetCast(cast: string)
      modifies this`cast
      ensures this.cast == cast
    {
      this.cast := cast;
    }

    method SetYearOfRelease(yearOfRelease: int)
      modifies this`yearOfRelease
      ensures this.yearOfRelease == yearOfRelease
    {
      this.yearOfRelease := yearOfRelease;
    }

    method SetRunningTime(runningTime: int)
      modifies this`runningTime
      ensures this.runningTime == runningTime
    {
      this.runningTime := runningTime;
    }

    method SetVideo(video: Video?)
      modifies this`video
      ensures this.video == video
    {
      this.video := video;
    }
  }

  class EngagementStatistics {
    var id: Option<nat>
    var impressions: nat
    var views: nat
    var video: Video?

    /** new EngagementStatistics(): both counters start at zero. */
    constructor ()
      ensures id == None && impressions == 0 && views == 0 && video == null
    {
      id := None;
      impressions, views := 0, 0;
      video := null;
    }

    method SetImpressions(impressions: nat)
      modifies this`impressions
      ensures this.impressions == impressions
    {
      this.impressions := impressions;
    }

    method SetViews(views: nat)
      modifies this`views
      ensures this.views == views
    {
      this.views := views;
    }

    method SetVideo(video: Video?)
      modifies this`video
      ensures this.video == video
    {
      this.video := video;
    }
  }
}
