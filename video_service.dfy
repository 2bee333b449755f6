/**
 * VideoServiceImpl (service/impl/VideoServiceImpl.java): publish, edit, delist, load, play,
 * list and the two searches over the catalogue tables. Each @Transactional method that
 * throws after writing rolls the tables back. The copy in service/impl/video/ has the same
 * bodies for publish, edit, delist, list and the searches, and has no load or play; the
 * members here model both.
 *
 * The effect of each state-changing call is stated as a function on the tables (Published,
 * Edited, Delisted, Loaded, Played); the lemmas at the end are about those functions.
 */
module VideoService {
  import opened Wrappers
  import opened Http
  import opened Exceptions
  import opened Constants
  import opened VideoEntities
  import opened VideoRequests
  import opened VideoResponses
  import opened VideoStore

  /** The rows publish writes: a listed video under the next id, its metadata, zeroed counters. */
  function Published(t: Tables, req: VideoRequest): Tables {
    t.Written(t.nextId, VideoRow(req.title, req.content, false),
              Some(MetaDataRow(req.synopsis, req.director, req.cast, req.yearOfRelease, req.genre, req.runningTime)),
              Some(StatsRow(0, 0)))
  }

  /** Edit overwrites five metadata fields; the synopsis is kept, or empty for new metadata. */
  function EditedMetaData(existing: Option<MetaDataRow>, req: VideoRequest): (m: MetaDataRow)
    ensures m.director == req.director && m.genre == req.genre && m.cast == req.cast
    ensures m.yearOfRelease == req.yearOfRelease && m.runningTime == req.runningTime
    ensures m.synopsis == if existing.Some? then existing.value.synopsis else ""
  {
    var base := existing.GetOr(MetaDataRow("", "", "", 0, "", 0));
    base.(director := req.director, genre := req.genre, cast := req.cast,
          yearOfRelease := req.yearOfRelease, runningTime := req.runningTime)
  }

  function MetaDataAt(t: Tables, id: nat): Option<MetaDataRow> {
    if id in t.metaData then Some(t.metaData[id]) else None
  }

  function StatsAt(t: Tables, id: nat): Option<StatsRow> {
    if id in t.stats then Some(t.stats[id]) else None
  }

  /** The rows a successful edit of video `id` leaves. */
  function Edited(t: Tables, id: nat, req: VideoRequest): Tables
    requires id in t.videos
  {
    t.Written(id, t.videos[id].(title := req.title), Some(EditedMetaData(MetaDataAt(t, id), req)), StatsAt(t, id))
  }

  function Delisted(t: Tables, id: nat): Tables
    requires id in t.videos
  {
    t.(videos := t.videos[id := t.videos[id].(isDelisted := true)])
  }

  /** loadVideo here: one more impression; absent statistics are created as one view and one impression. */
  function Loaded(t: Tables, id: nat): Tables {
    t.(stats := t.stats[id := if id in t.stats then t.stats[id].(impressions := t.stats[id].impressions + 1)
                              else StatsRow(1, 1)])
  }

  /** playVideo here: one more view; absent statistics start from zero. */
  function Played(t: Tables, id: nat): Tables {
    var s := StatsAt(t, id).GetOr(StatsRow(0, 0));
    t.(stats := t.stats[id := s.(views := s.views + 1)])
  }

  /** What videoMapper returns for the rows of video `id`. */
  function ResponseOf(t: Tables, id: nat): VideoResponse
    requires id in t.videos && id in t.metaData && id in t.stats
  {
    var v, m, s := t.videos[id], t.metaData[id], t.stats[id];
    VideoResponse(v.title, m.synopsis, m.director, m.cast, m.yearOfRelease, m.genre, m.runningTime,
                  v.content, v.isDelisted, s.impressions, s.views)
  }

  /** The VideoDTO built from video `id` and its metadata. */
  function DtoOf(t: Tables, id: nat): VideoDTO
    requires id in t.videos && id in t.metaData
  {
    var m := t.metaData[id];
    VideoDTO(Some(id), t.videos[id].title, m.director, m.cast, m.genre, m.runningTime)
  }

  /** Maps ids to DTOs, or dereferences null on the first id without metadata. */
  function DtosOf(t: Tables, ids: seq<nat>): (r: Outcome<seq<VideoDTO>>)
    requires forall i | 0 <= i < |ids| :: ids[i] in t.videos
    ensures r.Thrown? <==> exists i | 0 <= i < |ids| :: ids[i] !in t.metaData
    ensures r.Thrown? ==> r.exception == NullPointerException
    ensures r.Returned? ==> |r.value| == |ids| && forall i | 0 <= i < |ids| :: r.value[i] == DtoOf(t, ids[i])
  {
    if exists i | 0 <= i < |ids| :: ids[i] !in t.metaData then Thrown(NullPointerException)
    else Returned(seq(|ids|, i requires 0 <= i < |ids| => DtoOf(t, ids[i])))
  }

  class VideoServiceImpl {
    const db: Database

    constructor (db: Database)
      ensures this.db == db
    {
      this.db := db;
    }

    /**
     * publishVideo: a title already present is refused before anything is saved; otherwise
     * one video is inserted with its metadata and zeroed statistics, and 201 carries it.
     */
    method PublishVideo(videoRequest: VideoRequest) returns (r: Outcome<GenericResponse<VideoResponse>>)
      requires db.Valid()
      modifies db
      ensures db.Valid()
      ensures old(db.tables).TitleTaken(videoRequest.title, None) ==>
                && r == Thrown(VideoAlreadyPresentException(VIDEO_ALREADY_PRESENT + videoRequest.title))
                && db.tables == old(db.tables) && db.log == old(db.log)
      ensures !old(db.tables).TitleTaken(videoRequest.title, None) ==>
                && db.tables == Published(old(db.tables), videoRequest)
                && db.log == old(db.log) + [VideoSaved]
                && r == Returned(Success(ResponseOf(db.tables, old(db.tables.nextId)), Created))
    {
      if db.ExistsByTitle(videoRequest.title) {
        return Thrown(VideoAlreadyPresentException(VIDEO_ALREADY_PRESENT + videoRequest.title));
      }
      var video := ToVideo(videoRequest);
      var videoMetaData := ToVideoMetadata(videoRequest, video);
      video.SetMetaData(videoMetaData);
      var engagementStatistics := ToEngagementStatistics(video);
      video.SetEngagementStatistics(engagementStatistics);
      var _ := db.SaveVideo(video);
      var videoDTO := VideoMapper(video);
      r := Returned(Success(videoDTO.value, Created));
    }

    /**
     * The metadata part of editVideo: the video's metadata, or a new one linked to it when
     * absent, with director, genre, cast, year and running time taken from the request.
     */
    method EditMetaData(video: Video, videoRequest: VideoRequest) returns (metaData: VideoMetaData)
      requires video.metaData != null ==> video.metaData.video == video
      modifies video.metaData
      ensures old(video.metaData) != null ==> metaData == old(video.metaData)
      ensures old(video.metaData) == null ==> fresh(metaData)
      ensures metaData.video == video
      ensures MetaDataRowOf(metaData) ==
                EditedMetaData(if old(video.metaData) == null then None else Some(old(MetaDataRowOf(video.metaData))), videoRequest)
    {
      if video.metaData == null {
        metaData := new VideoMetaData();
        metaData.SetVideo(video);
      } else {
        metaData := video.metaData;
      }
      metaData.SetDirector(videoRequest.director);
      metaData.SetGenre(videoRequest.genre);
      metaData.SetCast(videoRequest.cast);
      metaData.SetYearOfRelease(videoRequest.yearOfRelease);
      metaData.SetRunningTime(videoRequest.runningTime);
    }

    /**
     * The writes of editVideo on the materialised video `id`: title and metadata are set,
     * the metadata is saved, linked, and the video is saved with its cascade.
     */
    method WriteEdit(video: Video, id: nat, videoRequest: VideoRequest) returns (saved: Outcome<()>)
      requires db.Valid() && Materialised(video, id, db.tables)
      modifies db, video, video.metaData
      ensures db.Valid() && db.log == old(db.log) + [MetaDataSaved, VideoSaved]
      ensures video.engagementStatistics == old(video.engagementStatistics)
      ensures video.metaData != null && video.videoId == Some(id)
      ensures VideoRowOf(video) == old(db.tables.videos[id]).(title := videoRequest.title)
      ensures MetaDataRowOf(video.metaData) == EditedMetaData(MetaDataAt(old(db.tables), id), videoRequest)
      ensures saved.Thrown? <==> old(db.tables).TitleTaken(videoRequest.title, Some(id))
      ensures saved.Thrown? ==> saved == Thrown(DataIntegrityViolationException)
      ensures saved.Returned? ==> db.tables == Edited(old(db.tables), id, videoRequest)
    {
      ghost var before := db.tables;
      video.SetTitle(videoRequest.title);
      var metaData := EditMetaData(video, videoRequest);
      assert MetaDataRowOf(metaData) == EditedMetaData(MetaDataAt(before, id), videoRequest);
      ghost var row := MetaDataRowOf(metaData);
      var _ := db.SaveMetaData(metaData);
      ghost var mid := db.tables;
      assert mid == before.(metaData := before.metaData[id := row]);
      video.SetMetaData(metaData);
      assert VideoRowOf(video) == before.videos[id].(title := videoRequest.title);
      assert LinkedMetaDataRow(video) == Some(row);
      assert LinkedStatsRow(video) == StatsAt(before, id);
      saved := db.SaveVideo(video);
      if saved.Returned? {
        assert mid.metaData[id := row] == before.metaData[id := row];
      }
    }

    /**
     * editVideo: a missing id is refused before anything is saved. Otherwise the title and
     * five metadata fields are overwritten (metadata is created when absent) and the rest of
     * the video is kept. The response is built before the transaction commits: a video
     * without statistics fails there, and a title held by another video then fails the
     * unique constraint at commit; both roll back.
     */
    method EditVideo(id: nat, videoRequest: VideoRequest) returns (r: Outcome<GenericResponse<VideoResponse>>)
      requires db.Valid()
      modifies db
      ensures db.Valid()
      ensures id !in old(db.tables.videos) ==>
                && r == Thrown(VideoNotFoundException(VIDEO_NOT_FOUND))
                && db.tables == old(db.tables) && db.log == old(db.log)
      ensures id in old(db.tables.videos) ==>
                && db.log == old(db.log) + [MetaDataSaved, VideoSaved]
                && (id !in old(db.tables.stats) ==> r == Thrown(NullPointerException) && db.tables == old(db.tables))
                && (id in old(db.tables.stats) && old(db.tables).TitleTaken(videoRequest.title, Some(id)) ==>
                      r == Thrown(DataIntegrityViolationException) && db.tables == old(db.tables))
                && (id in old(db.tables.stats) && !old(db.tables).TitleTaken(videoRequest.title, Some(id)) ==>
                      && db.tables == Edited(old(db.tables), id, videoRequest)
                      && r == Returned(Success(ResponseOf(db.tables, id), Ok)))
    {
      var existingVideo := db.FindById(id);
      if existingVideo == null {
        return Thrown(VideoNotFoundException(VIDEO_NOT_FOUND));
      }
      var before := db.tables;
      var saved := WriteEdit(existingVideo, id, videoRequest);
      var videoDTO := VideoMapper(existingVideo);
      if videoDTO.Thrown? {
        db.Rollback(before);
        return Thrown(videoDTO.exception);
      }
      if saved.Thrown? {
        db.Rollback(before);
        return Thrown(saved.exception);
      }
      r := Returned(Success(videoDTO.value, Ok));
    }

    /**
     * delistVideo: a missing id is refused; otherwise the video is marked delisted, and saved
     * only when it was still listed. Delisting twice answers the same.
     */
    method DelistVideo(id: nat) returns (r: Outcome<GenericResponse<string>>)
      requires db.Valid()
      modifies db
      ensures db.Valid()
      ensures id !in old(db.tables.videos) ==>
                && r == Thrown(VideoNotFoundException(VIDEO_NOT_FOUND))
                && db.tables == old(db.tables) && db.log == old(db.log)
      ensures id in old(db.tables.videos) ==>
                && r == Returned(Success(VIDEO_DELISTED_SUCCESSFULLY, Ok))
                && db.tables == Delisted(old(db.tables), id)
                && db.log == old(db.log) + (if old(db.tables.videos[id].isDelisted) then [] else [VideoSaved])
    {
      var video := db.FindById(id);
      if video == null {
        return Thrown(VideoNotFoundException(VIDEO_NOT_FOUND));
      }
      ghost var before := db.tables;
      if !video.isDelisted {
        video.SetDelisted(true);
        OwnTitleFree(before, id);
        assert LinkedMetaDataRow(video) == MetaDataAt(before, id);
        assert LinkedStatsRow(video) == StatsAt(before, id);
        var _ := db.SaveVideo(video);
        KeepChildRows(before, id);
      } else {
        assert before.videos[id := before.videos[id].(isDelisted := true)] == before.videos;
      }
      r := Returned(Success(VIDEO_DELISTED_SUCCESSFULLY, Ok));
    }

    /**
     * The statistics step of loadVideo here: one more impression on the linked statistics,
     * or new statistics at one view and one impression, saved and linked.
     */
    method CountImpression(video: Video, id: nat)
      requires db.Valid() && Materialised(video, id, db.tables)
      modifies db, video`engagementStatistics, video.engagementStatistics
      ensures db.Valid() && db.log == old(db.log) + [StatsSaved]
      ensures db.tables == Loaded(old(db.tables), id)
      ensures video.metaData == old(video.metaData) && VideoRowOf(video) == old(VideoRowOf(video))
      ensures video.metaData != null ==> MetaDataRowOf(video.metaData) == old(MetaDataRowOf(video.metaData))
    {
      var engagementStats := video.engagementStatistics;
      if engagementStats == null {
        engagementStats := new EngagementStatistics();
        engagementStats.SetVideo(video);
        engagementStats.SetViews(1);
        engagementStats.SetImpressions(1);
      } else {
        engagementStats.SetImpressions(engagementStats.impressions + 1);
      }
      var _ := db.SaveStats(engagementStats);
      video.SetEngagementStatistics(engagementStats);
    }

    /**
     * loadVideo (this copy only): a missing or delisted video is refused untouched. Otherwise
     * one impression is counted and the video's DTO returned; a video without metadata
     * dereferences null after the statistics were saved, and the transaction rolls back.
     */
    method LoadVideo(id: nat) returns (r: Outcome<GenericResponse<VideoDTO>>)
      requires db.Valid()
      modifies db
      ensures db.Valid()
      ensures id !in old(db.tables.videos) ==>
                && r == Thrown(VideoNotFoundException(VIDEO_NOT_FOUND))
                && db.tables == old(db.tables) && db.log == old(db.log)
      ensures id in old(db.tables.videos) && old(db.tables.videos[id].isDelisted) ==>
                && r == Thrown(VideoNotFoundException(VIDEO_DELISTED))
                && db.tables == old(db.tables) && db.log == old(db.log)
      ensures id in old(db.tables.videos) && !old(db.tables.videos[id].isDelisted) ==>
                && db.log == old(db.log) + [StatsSaved]
                && (id !in old(db.tables.metaData) ==> r == Thrown(NullPointerException) && db.tables == old(db.tables))
                && (id in old(db.tables.metaData) ==>
                      && db.tables == Loaded(old(db.tables), id)
                      && r == Returned(Success(DtoOf(old(db.tables), id), Ok)))
    {
      var video := db.FindById(id);
      if video == null {
        return Thrown(VideoNotFoundException(VIDEO_NOT_FOUND));
      }
      if video.isDelisted {
        return Thrown(VideoNotFoundException(VIDEO_DELISTED));
      }
      var before := db.tables;
      CountImpression(video, id);
      var metaData := video.metaData;
      if metaData == null {
        db.Rollback(before);
        return Thrown(NullPointerException);
      }
      var videoDTO := VideoDTO(video.videoId, video.title, metaData.director, metaData.cast, metaData.genre, metaData.runningTime);
      r := Returned(Success(videoDTO, Ok));
    }

    /**
     * The statistics step of playVideo here: one more view on the linked statistics, or on
     * new zeroed statistics, saved and linked. The video then mirrors the new tables.
     */
    method CountView(video: Video, id: nat)
      requires db.Valid() && Materialised(video, id, db.tables)
      modifies db, video`engagementStatistics, video.engagementStatistics
      ensures db.Valid() && db.log == old(db.log) + [StatsSaved]
      ensures db.tables == Played(old(db.tables), id)
      ensures Materialised(video, id, db.tables)
    {
      var engagementStats := video.engagementStatistics;
      if engagementStats == null {
        engagementStats := new EngagementStatistics();
        engagementStats.SetVideo(video);
      }
      engagementStats.SetViews(engagementStats.views + 1);
      var _ := db.SaveStats(engagementStats);
      video.SetEngagementStatistics(engagementStats);
    }

    /**
     * playVideo (this copy only): a missing or delisted video is refused untouched; otherwise
     * one view is counted, the video is saved again and its content returned.
     */
    method PlayVideo(id: nat) returns (r: Outcome<GenericResponse<string>>)
      requires db.Valid()
      modifies db
      ensures db.Valid()
      ensures id !in old(db.tables.videos) ==>
                && r == Thrown(VideoNotFoundException(VIDEO_NOT_FOUND))
                && db.tables == old(db.tables) && db.log == old(db.log)
      ensures id in old(db.tables.videos) && old(db.tables.videos[id].isDelisted) ==>
                && r == Thrown(VideoNotFoundException(VIDEO_DELISTED))
                && db.tables == old(db.tables) && db.log == old(db.log)
      ensures id in old(db.tables.videos) && !old(db.tables.videos[id].isDelisted) ==>
                && db.log == old(db.log) + [StatsSaved, VideoSaved]
                && db.tables == Played(old(db.tables), id)
                && r == Returned(Success(old(db.tables.videos[id].content), Ok))
    {
      var video := db.FindById(id);
      if video == null {
        return Thrown(VideoNotFoundException(VIDEO_NOT_FOUND));
      }
      if video.isDelisted {
        return Thrown(VideoNotFoundException(VIDEO_DELISTED));
      }
      CountView(video, id);
      ghost var played := db.tables;
      OwnTitleFree(played, id);
      var _ := db.SaveVideo(video);
      WriteBackMaterialised(video, id, played);
      r := Returned(Success(video.content, Ok));
    }

    /** listAllVideos: the listed videos as DTOs; a listed video without metadata dereferences null. */
    function ListAllVideos(): (r: Outcome<GenericResponse<seq<VideoDTO>>>)
      reads db
      requires db.Valid()
      ensures r.Thrown? <==> exists id | id in db.tables.videos :: !db.tables.videos[id].isDelisted && id !in db.tables.metaData
      ensures r.Thrown? ==> r.exception == NullPointerException
      ensures r.Returned? ==>
                && r.value.IsSuccess() && r.value.statusCode == 200 && r.value.data.Some?
                && var q := db.tables.FindByIsDelistedFalse();
                   && |r.value.data.value| == |q|
                   && forall i | 0 <= i < |q| :: q[i] in db.tables.metaData && r.value.data.value[i] == DtoOf(db.tables, q[i])
      ensures r.Returned? ==>
                && r.value.data.Some?
                && (forall d | d in r.value.data.value ::
                      && d.id.Some? && d.id.value in db.tables.videos && !db.tables.videos[d.id.value].isDelisted
                      && d.id.value in db.tables.metaData && d == DtoOf(db.tables, d.id.value))
                && (forall id | id in db.tables.videos && !db.tables.videos[id].isDelisted ::
                      DtoOf(db.tables, id) in r.value.data.value)
    {
      var ids := db.tables.FindByIsDelistedFalse();
      match DtosOf(db.tables, ids)
      case Thrown(e) => Thrown(e)
      case Returned(dtos) =>
        assert forall id | id in ids :: DtoOf(db.tables, id) in dtos by {
          forall id | id in ids ensures DtoOf(db.tables, id) in dtos {
            var i :| 0 <= i < |ids| && ids[i] == id;
            assert dtos[i] == DtoOf(db.tables, id);
          }
        }
        Returned(Success(dtos, Ok))
    }

    /** searchVideos: a blank director is a bad request; otherwise that director's videos, ignoring case. */
    function SearchVideos(director: string): (r: Outcome<GenericResponse<seq<VideoDTO>>>)
      reads db
      requires db.Valid()
      ensures IsBlank(director) ==> r == Returned(Error(INVALID_DIRECTOR_NAME, BadRequest))
      ensures !IsBlank(director) ==>
                && r.Returned? && r.value.IsSuccess() && r.value.statusCode == 200 && r.value.data.Some?
                && var q := db.tables.FindByDirectorIgnoreCase(director);
                   && |r.value.data.value| == |q|
                   && forall i | 0 <= i < |q| :: q[i] in db.tables.metaData && r.value.data.value[i] == DtoOf(db.tables, q[i])
      ensures !IsBlank(director) ==>
                && r.Returned? && r.value.data.Some?
                && (forall d | d in r.value.data.value ::
                      && d.id.Some? && d.id.value in db.tables.metaData
                      && Lower(d.director) == Lower(director) && d == DtoOf(db.tables, d.id.value))
                && (forall id | id in db.tables.metaData && Lower(db.tables.metaData[id].director) == Lower(director) ::
                      DtoOf(db.tables, id) in r.value.data.value)
    {
      if IsBlank(director) then Returned(Error(INVALID_DIRECTOR_NAME, BadRequest))
      else Returned(Success(DtosOfMetaData(db.tables, db.tables.FindByDirectorIgnoreCase(director)), Ok))
    }

    /** searchVideosBasedOnSearchPhrase: a blank phrase is a bad request; otherwise the keyword matches. */
    function SearchVideosBasedOnSearchPhrase(searchPhrase: string): (r: Outcome<GenericResponse<seq<VideoDTO>>>)
      reads db
      requires db.Valid()
      ensures IsBlank(searchPhrase) ==> r == Returned(Error(INVALID_SEARCH_PHRASE, BadRequest))
      ensures !IsBlank(searchPhrase) ==>
                && r.Returned? && r.value.IsSuccess() && r.value.statusCode == 200 && r.value.data.Some?
                && var q := db.tables.SearchByKeyword(searchPhrase);
                   && |r.value.data.value| == |q|
                   && forall i | 0 <= i < |q| :: q[i] in db.tables.metaData && r.value.data.value[i] == DtoOf(db.tables, q[i])
      ensures !IsBlank(searchPhrase) ==>
                && r.Returned? && r.value.data.Some?
                && (forall d | d in r.value.data.value ::
                      && d.id.Some? && d.id.value in db.tables.metaData
                      && MatchesKeyword(db.tables.metaData[d.id.value], searchPhrase) && d == DtoOf(db.tables, d.id.value))
                && (forall id | id in db.tables.metaData && MatchesKeyword(db.tables.metaData[id], searchPhrase) ::
                      DtoOf(db.tables, id) in r.value.data.value)
    {
      if IsBlank(searchPhrase) then Returned(Error(INVALID_SEARCH_PHRASE, BadRequest))
      else Returned(Success(DtosOfMetaData(db.tables, db.tables.SearchByKeyword(searchPhrase)), Ok))
    }
  }

  /** The DTOs of metadata rows found by a query, in the query's order; each row's video exists. */
  function DtosOfMetaData(t: Tables, ids: seq<nat>): (dtos: seq<VideoDTO>)
    requires t.Valid() && forall i | 0 <= i < |ids| :: ids[i] in t.metaData
    ensures |dtos| == |ids|
    ensures forall i | 0 <= i < |ids| :: dtos[i] == DtoOf(t, ids[i])
    ensures forall id | id in ids :: DtoOf(t, id) in dtos
  {
    var dtos := seq(|ids|, i requires 0 <= i < |ids| => DtoOf(t, ids[i]));
    assert forall id | id in ids :: DtoOf(t, id) in dtos by {
      forall id | id in ids ensures DtoOf(t, id) in dtos {
        var i :| 0 <= i < |ids| && ids[i] == id;
        assert dtos[i] == DtoOf(t, id);
      }
    }
    dtos
  }

  /** Under the unique-title invariant a video's own title never clashes with another video. */
  lemma {:induction false} OwnTitleFree(t: Tables, id: nat)
    requires t.Valid() && id in t.videos
    ensures !t.TitleTaken(t.videos[id].title, Some(id))
  {
  }

  /** Saving a video that mirrors its rows writes those same rows back. */
  lemma {:induction false} WriteBackMaterialised(v: Video, id: nat, t: Tables)
    requires t.Valid() && Materialised(v, id, t)
    ensures t.Written(id, VideoRowOf(v), LinkedMetaDataRow(v), LinkedStatsRow(v)) == t
  {
    KeepChildRows(t, id);
    assert t.videos[id := t.videos[id]] == t.videos;
  }

  /** Writing a video back with the child rows it already has leaves the child tables as they were. */
  lemma {:induction false} KeepChildRows(t: Tables, id: nat)
    ensures (if id in t.metaData then t.metaData[id := t.metaData[id]] else t.metaData) == t.metaData
    ensures (if id in t.stats then t.stats[id := t.stats[id]] else t.stats) == t.stats
  {
  }

  /** Delisting is idempotent: a second delist leaves the tables as the first did. */
  lemma {:induction false} DelistIdempotent(t: Tables, id: nat)
    requires id in t.videos
    ensures id in Delisted(t, id).videos && Delisted(Delisted(t, id), id) == Delisted(t, id)
  {
    var d := Delisted(t, id);
    assert d.videos[id := d.videos[id].(isDelisted := true)] == d.videos;
  }

  /** A delisted video leaves the listing and every other video keeps its place in it. */
  lemma {:induction false} DelistHidesFromListing(t: Tables, id: nat)
    requires t.Valid() && id in t.videos
    ensures Delisted(t, id).Valid()
    ensures id !in Delisted(t, id).FindByIsDelistedFalse()
    ensures forall other | other != id :: other in Delisted(t, id).FindByIsDelistedFalse() <==> other in t.FindByIsDelistedFalse()
  {
    var d := Delisted(t, id);
    forall a, b | a in d.videos && b in d.videos && a != b
      ensures d.videos[a].title != d.videos[b].title
    {
      assert d.videos[a].title == t.videos[a].title && d.videos[b].title == t.videos[b].title;
    }
  }

  /** Publishing a fresh title keeps the tables valid and lists the new video with its request's data and zero counts. */
  lemma {:induction false} PublishedListed(t: Tables, req: VideoRequest)
    requires t.Valid() && !t.TitleTaken(req.title, None)
    ensures Published(t, req).Valid()
    ensures t.nextId !in t.videos && t.nextId in Published(t, req).FindByIsDelistedFalse()
    ensures forall id | id in t.videos :: id in Published(t, req).videos && Published(t, req).videos[id] == t.videos[id]
    ensures var p := Published(t, req);
            && t.nextId in p.metaData && t.nextId in p.stats
            && ResponseOf(p, t.nextId) == VideoResponse(req.title, req.synopsis, req.director, req.cast, req.yearOfRelease,
                                                        req.genre, req.runningTime, req.content, false, 0, 0)
  {
    var p := Published(t, req);
    forall a, b | a in p.videos && b in p.videos && a != b
      ensures p.videos[a].title != p.videos[b].title
    {
      if a == t.nextId {
        assert p.videos[b] == t.videos[b];
      } else if b == t.nextId {
        assert p.videos[a] == t.videos[a];
      }
    }
  }

  /** A successful edit changes only video `id`'s title and metadata: its content, delisted flag and counters stay. */
  lemma {:induction false} EditKeepsFlagAndCounters(t: Tables, id: nat, req: VideoRequest)
    requires id in t.videos
    ensures var e := Edited(t, id, req);
            && e.videos[id] == VideoRow(req.title, t.videos[id].content, t.videos[id].isDelisted)
            && e.stats == t.stats && id in e.metaData
            && (forall other | other != id :: other in e.videos <==> other in t.videos)
            && (forall other | other != id && other in t.videos :: e.videos[other] == t.videos[other])
            && (forall other | other != id :: other in e.metaData <==> other in t.metaData)
  {
    var e := Edited(t, id, req);
    if id in t.stats {
      assert t.stats[id := t.stats[id]] == t.stats;
    }
  }

  /** Loading counts one impression and leaves views alone; a first load starts at one view. */
  lemma {:induction false} LoadCountsImpression(t: Tables, id: nat)
    ensures var l := Loaded(t, id);
            && id in l.stats
            && (id in t.stats ==> l.stats[id] == StatsRow(t.stats[id].impressions + 1, t.stats[id].views))
            && (id !in t.stats ==> l.stats[id] == StatsRow(1, 1))
            && l.videos == t.videos && l.metaData == t.metaData
            && (forall other | other != id :: other in l.stats <==> other in t.stats)
  {
  }

  /** Playing counts one view and leaves impressions alone; absent counters start from zero. */
  lemma {:induction false} PlayCountsView(t: Tables, id: nat)
    ensures var p := Played(t, id);
            && id in p.stats
            && (id in t.stats ==> p.stats[id] == StatsRow(t.stats[id].impressions, t.stats[id].views + 1))
            && (id !in t.stats ==> p.stats[id] == StatsRow(0, 1))
            && p.videos == t.videos && p.metaData == t.metaData
  {
  }
}
