/**
 * The three catalogue tables behind VideoRepository, VideoMetaDataRepository and
 * EngagementStatisticsRepository (the three interfaces under repository/), as one Database object.
 *
 * Rows are values. findById materialises fresh entity objects from the rows, the entity
 * setters change those objects, and a save writes an object back into its row, cascading
 * from a video to its linked metadata and statistics (CascadeType.ALL on Video). The
 * metadata and statistics tables are keyed by the id of the video they belong to: their
 * join column is unique, so a video has at most one row of each. `log` records every save
 * call in order.
 */
module VideoStore {
  import opened Wrappers
  import opened Exceptions
  import opened VideoEntities

  datatype VideoRow = VideoRow(title: string, content: string, isDelisted: bool)
  datatype MetaDataRow = MetaDataRow(synopsis: string, director: string, cast: string, yearOfRelease: int,
                                     genre: string, runningTime: int)
  datatype StatsRow = StatsRow(impressions: nat, views: nat)

  datatype SaveCall = VideoSaved | MetaDataSaved | StatsSaved

  datatype Tables = Tables(videos: map<nat, VideoRow>, metaData: map<nat, MetaDataRow>,
                           stats: map<nat, StatsRow>, nextId: nat)
  {
    /** Ids come from the identity column, child rows belong to a video, titles are unique. */
    ghost predicate Valid() {
      && (forall id | id in videos :: id < nextId)
      && metaData.Keys <= videos.Keys
      && stats.Keys <= videos.Keys
      && (forall a, b | a in videos && b in videos && a != b :: videos[a].title != videos[b].title)
    }

    /** Some video other than `except` has this title. */
    predicate TitleTaken(title: string, except: Option<nat>) {
      exists id | id in videos :: videos[id].title == title && except != Some(id)
    }

    /** In all three tables, every id other than `id` has the same rows here as in `other`. */
    ghost predicate AgreeOutside(other: Tables, id: nat) {
      && (forall k | k != id :: k in videos <==> k in other.videos)
      && (forall k | k != id && k in videos && k in other.videos :: videos[k] == other.videos[k])
      && (forall k | k != id :: k in metaData <==> k in other.metaData)
      && (forall k | k != id && k in metaData && k in other.metaData :: metaData[k] == other.metaData[k])
      && (forall k | k != id :: k in stats <==> k in other.stats)
      && (forall k | k != id && k in stats && k in other.stats :: stats[k] == other.stats[k])
    }

    /**
     * The tables after a video row, and the child rows cascaded with it, are written at `id`:
     * the video row is `row`, each child given replaces that video's child row, and a child
     * not given leaves it as it was. WrittenKeepsOthers says what happens to the other ids.
     */
    function Written(id: nat, row: VideoRow, meta: Option<MetaDataRow>, stat: Option<StatsRow>): (t: Tables)
      ensures id in t.videos && t.videos[id] == row
      ensures meta.Some? ==> id in t.metaData && t.metaData[id] == meta.value
      ensures meta.None? ==> (id in t.metaData <==> id in metaData) && (id in metaData ==> t.metaData[id] == metaData[id])
      ensures stat.Some? ==> id in t.stats && t.stats[id] == stat.value
      ensures stat.None? ==> (id in t.stats <==> id in stats) && (id in stats ==> t.stats[id] == stats[id])
    {
      Tables(videos[id := row],
             if meta.Some? then metaData[id := meta.value] else metaData,
             if stat.Some? then stats[id := stat.value] else stats,
             if id < nextId then nextId else id + 1)
    }

    /** findByIsDelistedFalse: the listed videos, in ascending id order. */
    function FindByIsDelistedFalse(): (ids: seq<nat>)
      requires Valid()
      ensures forall id :: id in ids <==> id in videos && !videos[id].isDelisted
      ensures Ascending(ids)
    {
      Scan(nextId, id => id in videos && !videos[id].isDelisted)
    }

    /** findByDirectorIgnoreCase: LOWER(director) = LOWER(:director). */
    function FindByDirectorIgnoreCase(director: string): (ids: seq<nat>)
      requires Valid()
      ensures forall id :: id in ids <==> id in metaData && Lower(metaData[id].director) == Lower(director)
      ensures Ascending(ids)
    {
      Scan(nextId, id => id in metaData && Lower(metaData[id].director) == Lower(director))
    }

    /** findAll(searchByKeyword(phrase)): the phrase occurs, ignoring case, in director, genre or cast. */
    function SearchByKeyword(searchPhrase: string): (ids: seq<nat>)
      requires Valid()
      ensures forall id :: id in ids <==> id in metaData && MatchesKeyword(metaData[id], searchPhrase)
      ensures Ascending(ids)
    {
      Scan(nextId, id => id in metaData && MatchesKeyword(metaData[id], searchPhrase))
    }
  }

  /**
   * A cascaded save at `id` changes no other id's rows, and writing an existing video or
   * the next one, under a title no other video holds, keeps the tables valid.
   */
  lemma {:induction false} WrittenKeepsOthers(t: Tables, id: nat, row: VideoRow, meta: Option<MetaDataRow>, stat: Option<StatsRow>)
    ensures t.Written(id, row, meta, stat).AgreeOutside(t, id)
    ensures t.Valid() && (id in t.videos || id == t.nextId) && !t.TitleTaken(row.title, Some(id)) ==>
              t.Written(id, row, meta, stat).Valid()
  {
  }

  predicate Ascending(ids: seq<nat>) {
    forall i, j | 0 <= i < j < |ids| :: ids[i] < ids[j]
  }

  /** The ids below `n` that `keep` accepts, in ascending order. */
  function Scan(n: nat, keep: nat -> bool): (ids: seq<nat>)
    ensures forall id: nat :: id in ids <==> id < n && keep(id)
    ensures Ascending(ids)
    decreases n
  {
    if n == 0 then []
    else
      var prefix := Scan(n - 1, keep);
      assert forall i | 0 <= i < |prefix| :: prefix[i] in prefix;
      if keep(n - 1) then prefix + [n - 1] else prefix
  }

  /** SQL LOWER on the ASCII letters. */
  function LowerChar(c: char): char {
    if 'A' <= c <= 'Z' then (c as int + 32) as char else c
  }

  function Lower(s: string): (r: string)
    ensures |r| == |s| && forall i | 0 <= i < |s| :: r[i] == LowerChar(s[i])
  {
    seq(|s|, i requires 0 <= i < |s| => LowerChar(s[i]))
  }

  predicate ContainsSubstring(haystack: string, needle: string) {
    exists i | 0 <= i <= |haystack| :: needle <= haystack[i..]
  }

  /** LOWER(field) LIKE '%' + phrase.toLowerCase() + '%' for director, genre or cast. */
  predicate MatchesKeyword(m: MetaDataRow, searchPhrase: string) {
    var p := Lower(searchPhrase);
    ContainsSubstring(Lower(m.director), p) || ContainsSubstring(Lower(m.genre), p) || ContainsSubstring(Lower(m.cast), p)
  }

  /** StringUtils.isBlank: null, empty, or only characters that String.trim removes. */
  predicate IsBlank(s: string) {
    forall i | 0 <= i < |s| :: s[i] <= ' '
  }

  function VideoRowOf(v: Video): VideoRow
    reads v
  {
    VideoRow(v.title, v.content, v.isDelisted)
  }

  function MetaDataRowOf(m: VideoMetaData): MetaDataRow
    reads m
  {
    MetaDataRow(m.synopsis, m.director, m.cast, m.yearOfRelease, m.genre, m.runningTime)
  }

  function StatsRowOf(s: EngagementStatistics): StatsRow
    reads s
  {
    StatsRow(s.impressions, s.views)
  }

  /** The child rows a save of `v` cascades to: one per non-null link. */
  function LinkedMetaDataRow(v: Video): Option<MetaDataRow>
    reads v, v.metaData
  {
    if v.metaData == null then None else Some(MetaDataRowOf(v.metaData))
  }

  function LinkedStatsRow(v: Video): Option<StatsRow>
    reads v, v.engagementStatistics
  {
    if v.engagementStatistics == null then None else Some(StatsRowOf(v.engagementStatistics))
  }

  /** `v` (and the objects it links to) hold exactly what the tables hold for video `id`. */
  ghost predicate Materialised(v: Video, id: nat, t: Tables)
    reads v, v.metaData, v.engagementStatistics
  {
    && id in t.videos && v.videoId == Some(id) && VideoRowOf(v) == t.videos[id]
    && (v.metaData == null <==> id !in t.metaData)
    && (v.metaData != null ==> MetaDataRowOf(v.metaData) == t.metaData[id] && v.metaData.video == v)
    && (v.engagementStatistics == null <==> id !in t.stats)
    && (v.engagementStatistics != null ==>
          StatsRowOf(v.engagementStatistics) == t.stats[id] && v.engagementStatistics.video == v)
  }

  class Database {
    var tables: Tables
    var log: seq<SaveCall>

    ghost predicate Valid()
      reads this
    {
      tables.Valid()
    }

    constructor ()
      ensures Valid() && tables == Tables(map[], map[], map[], 0) && log == []
    {
      tables := Tables(map[], map[], map[], 0);
      log := [];
    }

    /** existsByTitle: COUNT(v) > 0 over exact title equality. */
    function ExistsByTitle(title: string): (b: bool)
      reads this
      ensures b <==> exists id :: id in tables.videos && tables.videos[id].title == title
    {
      tables.TitleTaken(title, None)
    }

    /** findById: a fresh object graph mirroring the rows of video `id`, or null. */
    method FindById(id: nat) returns (video: Video?)
      requires Valid()
      ensures video == null <==> id !in tables.videos
      ensures video != null ==>
                && fresh(video) && Materialised(video, id, tables)
                && (video.metaData != null ==> fresh(video.metaData))
                && (video.engagementStatistics != null ==> fresh(video.engagementStatistics))
    {
      if id !in tables.videos {
        return null;
      }
      var row := tables.videos[id];
      video := new Video();
      video.videoId := Some(id);
      video.title, video.content, video.isDelisted := row.title, row.content, row.isDelisted;
      if id in tables.metaData {
        var m := tables.metaData[id];
        var metaData := new VideoMetaData.Of(Some(id), m.synopsis, m.director, m.cast, m.yearOfRelease,
                                             m.genre, m.runningTime, video);
        video.metaData := metaData;
      }
      if id in tables.stats {
        var s := tables.stats[id];
        var stats := new EngagementStatistics();
        stats.id, stats.impressions, stats.views, stats.video := Some(id), s.impressions, s.views, video;
        video.engagementStatistics := stats;
      }
    }

    /**
     * save(video): inserts a video without an id under the next identity value, or updates
     * the row of its id, cascading to the linked rows. A title held by another video
     * violates the unique constraint: nothing is written.
     */
    method SaveVideo(video: Video) returns (r: Outcome<()>)
      requires Valid()
      requires video.videoId.Some? ==> video.videoId.value in tables.videos
      modifies this, video`videoId
      ensures Valid() && log == old(log) + [VideoSaved]
      ensures var id := if old(video.videoId).Some? then old(video.videoId).value else old(tables.nextId);
              if old(tables).TitleTaken(video.title, old(video.videoId)) then
                && r == Thrown(DataIntegrityViolationException)
                && tables == old(tables) && video.videoId == old(video.videoId)
              else
                && r == Returned(()) && video.videoId == Some(id)
                && tables == old(tables).Written(id, VideoRowOf(video), LinkedMetaDataRow(video), LinkedStatsRow(video))
    {
      log := log + [VideoSaved];
      if tables.TitleTaken(video.title, video.videoId) {
        return Thrown(DataIntegrityViolationException);
      }
      var id := if video.videoId.Some? then video.videoId.value else tables.nextId;
      tables := tables.Written(id, VideoRowOf(video), LinkedMetaDataRow(video), LinkedStatsRow(video));
      video.videoId := Some(id);
      r := Returned(());
    }

    /** save(metaData): writes the row of the video it links to; a missing video violates the join column. */
    method SaveMetaData(metaData: VideoMetaData) returns (r: Outcome<()>)
      requires Valid()
      modifies this
      ensures Valid() && log == old(log) + [MetaDataSaved]
      ensures if metaData.video == null || metaData.video.videoId.None? || metaData.video.videoId.value !in old(tables.videos) then
                r == Thrown(DataIntegrityViolationException) && tables == old(tables)
              else
                r == Returned(()) && tables == old(tables).(metaData := old(tables.metaData)[metaData.video.videoId.value := MetaDataRowOf(metaData)])
    {
      log := log + [MetaDataSaved];
      if metaData.video == null || metaData.video.videoId.None? || metaData.video.videoId.value !in tables.videos {
        return Thrown(DataIntegrityViolationException);
      }
      tables := tables.(metaData := tables.metaData[metaData.video.videoId.value := MetaDataRowOf(metaData)]);
      r := Returned(());
    }

    /** save(stats): writes the row of the video it links to; a missing video violates the join column. */
    method SaveStats(stats: EngagementStatistics) returns (r: Outcome<()>)
      requires Valid()
      modifies this
      ensures Valid() && log == old(log) + [StatsSaved]
      ensures if stats.video == null || stats.video.videoId.None? || stats.video.videoId.value !in old(tables.videos) then
                r == Thrown(DataIntegrityViolationException) && tables == old(tables)
              else
                r == Returned(()) && tables == old(tables).(stats := old(tables.stats)[stats.video.videoId.value := StatsRowOf(stats)])
    {
      log := log + [StatsSaved];
      if stats.video == null || stats.video.videoId.None? || stats.video.videoId.value !in tables.videos {
        return Thrown(DataIntegrityViolationException);
      }
      tables := tables.(stats := tables.stats[stats.video.videoId.value := StatsRowOf(stats)]);
      r := Returned(());
    }

    /** The rollback of a @Transactional method: the tables return to their state at its start. */
    method Rollback(before: Tables)
      requires before.Valid()
      modifies this`tables
      ensures Valid() && tables == before
    {
      tables := before;
    }
  }
}
