/**
 * The two read-only engagement services: EngagementServiceImpl (service/impl/) and
 * DBEngagementStrategyServiceImpl (service/impl/engagement/). Both answer with a
 * GenericResponse and never throw: a missing video is a 404, any other failure a 500.
 * They differ on a video without statistics: the first reports zero counts, the second
 * dereferences null and reports a 500.
 */
module Engagement {
  import opened Wrappers
  import opened Http
  import opened Constants
  import opened VideoStore
  import opened VideoService
  import opened StreamService

  datatype EngagementResponse = EngagementResponse(title: string, synopsis: string, director: string,
                                                   impressions: nat, views: nat)

  /** The message DBEngagementStrategyServiceImpl answers any unexpected failure with. */
  const INTERNAL_SERVER_ERROR_MESSAGE := "Internal Server Error"

  /** EngagementResponse from a video's rows and the counters to report. */
  function ResponseFrom(t: Tables, id: nat, counters: StatsRow): EngagementResponse
    requires id in t.videos && id in t.metaData
  {
    EngagementResponse(t.videos[id].title, t.metaData[id].synopsis, t.metaData[id].director,
                       counters.impressions, counters.views)
  }

  class EngagementServiceImpl {
    const db: Database

    constructor (db: Database)
      ensures this.db == db
    {
      this.db := db;
    }

    /**
     * getEngagementStats: 404 for a missing video; absent statistics count as zero; a
     * video without metadata fails inside the try and is answered with the generic error
     * message and 500.
     */
    function GetEngagementStats(id: nat, genericErrorMessage: string): (r: GenericResponse<EngagementResponse>)
      reads db
      ensures r.WellFormed()
      ensures id !in db.tables.videos ==> r == Error(VIDEO_NOT_FOUND, NotFound)
      ensures id in db.tables.videos && id !in db.tables.metaData ==> r == Error(genericErrorMessage, InternalServerError)
      ensures id in db.tables.videos && id in db.tables.metaData ==>
                && r.IsSuccess() && r.statusCode == 200 && r.data.Some?
                && r.data.value.title == db.tables.videos[id].title
                && r.data.value.synopsis == db.tables.metaData[id].synopsis
                && r.data.value.director == db.tables.metaData[id].director
                && (id in db.tables.stats ==>
                      r.data.value.impressions == db.tables.stats[id].impressions && r.data.value.views == db.tables.stats[id].views)
                && (id !in db.tables.stats ==> r.data.value.impressions == 0 && r.data.value.views == 0)
    {
      var t := db.tables;
      if id !in t.videos then Error(VIDEO_NOT_FOUND, NotFound)
      else if id !in t.metaData then Error(genericErrorMessage, InternalServerError)
      else Success(ResponseFrom(t, id, StatsAt(t, id).GetOr(StatsRow(0, 0))), Ok)
    }
  }

  class DBEngagementStrategyServiceImpl {
    const db: Database

    constructor (db: Database)
      ensures this.db == db
    {
      this.db := db;
    }

    /**
     * getEngagementStats: 404 for a missing video; the stored counters exactly when both
     * statistics and metadata exist; otherwise the null dereference is answered with 500.
     */
    function GetEngagementStats(id: nat): (r: GenericResponse<EngagementResponse>)
      reads db
      ensures r.WellFormed()
      ensures id !in db.tables.videos ==> r == Error(VIDEO_NOT_FOUND, NotFound)
      ensures id in db.tables.videos && (id !in db.tables.stats || id !in db.tables.metaData) ==>
                r == Error(INTERNAL_SERVER_ERROR_MESSAGE, InternalServerError)
      ensures r.IsSuccess() <==> id in db.tables.videos && id in db.tables.stats && id in db.tables.metaData
      ensures r.IsSuccess() ==>
                && r.statusCode == 200 && r.data.Some?
                && r.data.value.title == db.tables.videos[id].title
                && r.data.value.synopsis == db.tables.metaData[id].synopsis
                && r.data.value.director == db.tables.metaData[id].director
                && r.data.value.impressions == db.tables.stats[id].impressions
                && r.data.value.views == db.tables.stats[id].views
    {
      var t := db.tables;
      if id !in t.videos then Error(VIDEO_NOT_FOUND, NotFound)
      else if id !in t.stats || id !in t.metaData then Error(INTERNAL_SERVER_ERROR_MESSAGE, InternalServerError)
      else Success(ResponseFrom(t, id, t.stats[id]), Ok)
    }
  }

  /**
   * The two services answer alike whenever the strategy service succeeds, and only the
   * first succeeds on a video that has metadata but no statistics (reporting zero counts).
   */
  lemma {:induction false} ServicesAgreeOnStoredCounters(a: EngagementServiceImpl, b: DBEngagementStrategyServiceImpl,
                                                         id: nat, genericErrorMessage: string)
    requires a.db == b.db
    ensures b.GetEngagementStats(id).IsSuccess() ==> a.GetEngagementStats(id, genericErrorMessage) == b.GetEngagementStats(id)
    ensures id in a.db.tables.videos && id in a.db.tables.metaData && id !in a.db.tables.stats ==>
              && a.GetEngagementStats(id, genericErrorMessage).IsSuccess()
              && !b.GetEngagementStats(id).IsSuccess()
    ensures id !in a.db.tables.videos ==> a.GetEngagementStats(id, genericErrorMessage) == b.GetEngagementStats(id)
  {
    var t := a.db.tables;
    if b.GetEngagementStats(id).IsSuccess() {
      assert StatsAt(t, id) == Some(t.stats[id]);
    }
  }

  /**
   * Counters reported after a stream play: views one above those reported before, and
   * impressions one above exactly when load and play are linked.
   */
  lemma {:induction false} PlayShowsInReport(t: Tables, id: nat, linked: bool)
    requires id in t.videos && id in t.metaData
    ensures var before := StatsAt(t, id).GetOr(StatsRow(0, 0));
            var after := StreamPlayed(t, id, linked);
            && id in after.stats && id in after.videos && id in after.metaData
            && ResponseFrom(after, id, after.stats[id]).views == before.views + 1
            && ResponseFrom(after, id, after.stats[id]).impressions == before.impressions + (if linked then 1 else 0)
            && ResponseFrom(after, id, after.stats[id]).title == ResponseFrom(t, id, before).title
  {
  }
}
