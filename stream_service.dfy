/**
 * DBVideoStreamService (service/impl/streaming/DBVideoStreamService.java): load and play over
 * the catalogue tables, counting impressions and views. Absent statistics start from zero
 * before the increment. `isLoadAndPlayLinked` (property video.stream.loadAndPlayLinked,
 * false unless configured) makes a play count an impression as well.
 */
module StreamService {
  import opened Wrappers
  import opened Http
  import opened Exceptions
  import opened Constants
  import opened VideoEntities
  import opened VideoResponses
  import opened VideoStore
  import opened VideoService

  /** updateImpressionEngagementStatistics: one more impression, counters defaulting to zero. */
  function StreamLoaded(t: Tables, id: nat): Tables {
    var s := StatsAt(t, id).GetOr(StatsRow(0, 0));
    t.(stats := t.stats[id := s.(impressions := s.impressions + 1)])
  }

  /** updateEngagementStatistics: one more view, and one more impression when asked. */
  function StreamPlayed(t: Tables, id: nat, incrementImpression: bool): Tables {
    var s := StatsAt(t, id).GetOr(StatsRow(0, 0));
    t.(stats := t.stats[id := StatsRow(if incrementImpression then s.impressions + 1 else s.impressions, s.views + 1)])
  }

  class DBVideoStreamService {
    const db: Database
    const isLoadAndPlayLinked: bool

    /** The service as configured by default: load and play are counted independently. */
    constructor (db: Database)
      ensures this.db == db && !isLoadAndPlayLinked
    {
      this.db := db;
      isLoadAndPlayLinked := false;
    }

    constructor WithLoadAndPlayLinked(db: Database, isLoadAndPlayLinked: bool)
      ensures this.db == db && this.isLoadAndPlayLinked == isLoadAndPlayLinked
    {
      this.db := db;
      this.isLoadAndPlayLinked := isLoadAndPlayLinked;
    }

    /** fetchVideoById: the materialised video, unless it is missing or delisted. */
    method FetchVideoById(id: nat) returns (r: Outcome<Video>)
      requires db.Valid()
      ensures id !in db.tables.videos ==> r == Thrown(VideoNotFoundException(VIDEO_NOT_FOUND))
      ensures id in db.tables.videos && db.tables.videos[id].isDelisted ==> r == Thrown(VideoNotFoundException(VIDEO_DELISTED))
      ensures id in db.tables.videos && !db.tables.videos[id].isDelisted ==>
                && r.Returned? && fresh(r.value) && Materialised(r.value, id, db.tables)
                && (r.value.engagementStatistics != null ==> fresh(r.value.engagementStatistics))
    {
      var video := db.FindById(id);
      if video == null {
        return Thrown(VideoNotFoundException(VIDEO_NOT_FOUND));
      }
      if video.isDelisted {
        return Thrown(VideoNotFoundException(VIDEO_DELISTED));
      }
      r := Returned(video);
    }

    /** updateEngagementStatistics: the statistics of video `id` are counted, saved once and linked. */
    method UpdateEngagementStatistics(video: Video, ghost id: nat, incrementImpression: bool)
      requires db.Valid() && Materialised(video, id, db.tables)
      modifies db, video`engagementStatistics, video.engagementStatistics
      ensures db.Valid() && db.log == old(db.log) + [StatsSaved]
      ensures db.tables == StreamPlayed(old(db.tables), id, incrementImpression)
      ensures video.content == old(video.content)
    {
      var stats := video.engagementStatistics;
      if stats == null {
        stats := new EngagementStatistics();
        stats.SetVideo(video);
        stats.SetViews(0);
        stats.SetImpressions(0);
      }
      stats.SetViews(stats.views + 1);
      if incrementImpression {
        stats.SetImpressions(stats.impressions + 1);
      }
      var _ := db.SaveStats(stats);
      video.SetEngagementStatistics(stats);
    }

    /** updateImpressionEngagementStatistics: one impression for video `id`, saved once and linked. */
    method UpdateImpressionEngagementStatistics(video: Video, ghost id: nat)
      requires db.Valid() && Materialised(video, id, db.tables)
      modifies db, video`engagementStatistics, video.engagementStatistics
      ensures db.Valid() && db.log == old(db.log) + [StatsSaved]
      ensures db.tables == StreamLoaded(old(db.tables), id)
      ensures video.metaData == old(video.metaData) && VideoRowOf(video) == old(VideoRowOf(video))
      ensures video.metaData != null ==> MetaDataRowOf(video.metaData) == old(MetaDataRowOf(video.metaData))
    {
      var stats := video.engagementStatistics;
      if stats == null {
        stats := new EngagementStatistics();
        stats.SetVideo(video);
        stats.SetViews(0);
        stats.SetImpressions(0);
      }
      stats.SetImpressions(stats.impressions + 1);
      var _ := db.SaveStats(stats);
      video.SetEngagementStatistics(stats);
    }

    /**
     * loadVideo: a missing or delisted video is refused untouched; otherwise one impression
     * is counted and the DTO returned. Without metadata the DTO dereferences null and the
     * transaction rolls the counted impression back.
     */
    method LoadVideo(id: nat) returns (r: Outcome<GenericResponse<VideoDTO>>)
      requires db.Valid()
      modifies db
      ensures db.Valid()
      ensures id !in old(db.tables.videos) ==>
                && r == Thrown(VideoNotFoundException(VIDEO_NOT_FOUND))
                && db.tables == old(db.tables) && db.log == old(db.log)
      ensures id in old(db.tables.videos) && old(db.tables.videos[id].isDelisted) ==>
                && r == Thrown(VideoNotFoundException(VIDEO_DELISTED))
                && db.tables == old(db.tables) && db.log == old(db.log)
      ensures id in old(db.tables.videos) && !old(db.tables.videos[id].isDelisted) ==>
                && db.log == old(db.log) + [StatsSaved]
                && (id !in old(db.tables.metaData) ==> r == Thrown(NullPointerException) && db.tables == old(db.tables))
                && (id in old(db.tables.metaData) ==>
                      && db.tables == StreamLoaded(old(db.tables), id)
                      && r == Returned(Success(DtoOf(old(db.tables), id), Ok)))
    {
      var fetched := FetchVideoById(id);
      if fetched.Thrown? {
        return Thrown(fetched.exception);
      }
      var video := fetched.value;
      var before := db.tables;
      UpdateImpressionEngagementStatistics(video, id);
      var metaData := video.metaData;
      if metaData == null {
        db.Rollback(before);
        return Thrown(NullPointerException);
      }
      var videoDTO := VideoDTO(video.videoId, video.title, metaData.director, metaData.cast, metaData.genre, metaData.runningTime);
      r := Returned(Success(videoDTO, Ok));
    }

    /**
     * playVideo: a missing or delisted video is refused untouched; otherwise one view (and,
     * when load and play are linked, one impression) is counted and the content returned.
     */
    method PlayVideo(id: nat) returns (r: Outcome<GenericResponse<string>>)
      requires db.Valid()
      modifies db
      ensures db.Valid()
      ensures id !in old(db.tables.videos) ==>
                && r == Thrown(VideoNotFoundException(VIDEO_NOT_FOUND))
                && db.tables == old(db.tables) && db.log == old(db.log)
      ensures id in old(db.tables.videos) && old(db.tables.videos[id].isDelisted) ==>
                && r == Thrown(VideoNotFoundException(VIDEO_DELISTED))
                && db.tables == old(db.tables) && db.log == old(db.log)
      ensures id in old(db.tables.videos) && !old(db.tables.videos[id].isDelisted) ==>
                && db.log == old(db.log) + [StatsSaved]
                && db.tables == StreamPlayed(old(db.tables), id, isLoadAndPlayLinked)
                && r == Returned(Success(old(db.tables.videos[id].content), Ok))
    {
      var fetched := FetchVideoById(id);
      if fetched.Thrown? {
        return Thrown(fetched.exception);
      }
      var video := fetched.value;
      UpdateEngagementStatistics(video, id, isLoadAndPlayLinked);
      r := Returned(Success(video.content, Ok));
    }
  }

  /** A stream load counts exactly one impression and no view; nothing but video `id`'s counters changes. */
  lemma {:induction false} StreamLoadCounts(t: Tables, id: nat)
    ensures var l := StreamLoaded(t, id);
            && id in l.stats
            && l.stats[id].impressions == StatsAt(t, id).GetOr(StatsRow(0, 0)).impressions + 1
            && l.stats[id].views == StatsAt(t, id).GetOr(StatsRow(0, 0)).views
            && l.videos == t.videos && l.metaData == t.metaData
            && (forall other | other != id && other in t.stats :: other in l.stats && l.stats[other] == t.stats[other])
  {
  }

  /** A stream play counts exactly one view, and one impression exactly when asked to. */
  lemma {:induction false} StreamPlayCounts(t: Tables, id: nat, incrementImpression: bool)
    ensures var p := StreamPlayed(t, id, incrementImpression);
            var s := StatsAt(t, id).GetOr(StatsRow(0, 0));
            && id in p.stats && p.stats[id].views == s.views + 1
            && (p.stats[id].impressions == s.impressions + 1 <==> incrementImpression)
            && (p.stats[id].impressions == s.impressions <==> !incrementImpression)
            && p.videos == t.videos && p.metaData == t.metaData
  {
  }

  /**
   * With load and play linked, a play counts what a load followed by an unlinked play counts;
   * both orders of an unlinked load and play end at the same counters.
   */
  lemma {:induction false} LinkedPlayIsLoadThenPlay(t: Tables, id: nat)
    ensures StreamPlayed(t, id, true) == StreamPlayed(StreamLoaded(t, id), id, false)
    ensures StreamPlayed(StreamLoaded(t, id), id, false) == StreamLoaded(StreamPlayed(t, id, false), id)
  {
    var l := StreamLoaded(t, id);
    assert StatsAt(l, id) == Some(l.stats[id]);
    var p := StreamPlayed(t, id, false);
    assert StatsAt(p, id) == Some(p.stats[id]);
  }

  /**
   * The two loadVideo bodies agree on a video that has statistics, and disagree on its
   * first load: the catalogue service starts it at one view, the stream service at none.
   */
  lemma {:induction false} LoadCopiesAgreeUnlessFirst(t: Tables, id: nat)
    ensures id in t.stats ==> Loaded(t, id) == StreamLoaded(t, id)
    ensures id !in t.stats ==>
              && Loaded(t, id).stats[id] == StatsRow(1, 1)
              && StreamLoaded(t, id).stats[id] == StatsRow(1, 0)
  {
  }
}
