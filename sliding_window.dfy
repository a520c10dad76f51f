/** The sliding-window indexer (proto_sliding_window_cacher_service.py): for each
    project and time period it keeps a head marker (the chain's max height) and a
    tail marker (the lowest height whose block is at most one period older than the
    head block), and advances the tail on every run. */
module SlidingWindow {
  import opened Wrappers
  import opened ZSets
  import opened Stores
  import opened Decimal

  // ---------------------------------------------------------------------------
  // convert_time_period_str_to_timestamp

  /** The length of a time period in seconds: '24h' and '7d' are known, every other
      period string falls back to one hour. */
  function TimePeriodSeconds(period: string): (r: int)
    ensures r == 86400 <==> period == "24h"
    ensures r == 604800 <==> period == "7d"
    ensures r == 3600 <==> period != "24h" && period != "7d"
  {
    if period == "24h" then 24 * 60 * 60
    else if period == "7d" then 7 * 24 * 60 * 60
    else 60 * 60
  }

  // ---------------------------------------------------------------------------
  // find_tail / seek_ahead_tail

  /** The timestamp of the block indexed at height `h`: `get_dag_cid` then
      `get_dag_block`; None when either finds nothing (the block's `['timestamp']`
      then raises). */
  function StampAt(cids: ZSet<Cid>, blocks: map<Cid, DagBlock>, h: int): Option<int>
  {
    var b := BlockAt(blocks, CidAt(cids, h));
    if b.Some? then Some(b.value.timestamp) else None
  }

  /** The block at `h` was read and is more than one period older than the head. */
  predicate TooOld(cids: ZSet<Cid>, blocks: map<Cid, DagBlock>, present: int, periodTs: int, h: int)
  {
    StampAt(cids, blocks, h).Some? && present - StampAt(cids, blocks, h).value > periodTs
  }

  /** The block at `h` was read and lies within one period of the head. */
  predicate InWindow(cids: ZSet<Cid>, blocks: map<Cid, DagBlock>, present: int, periodTs: int, h: int)
  {
    StampAt(cids, blocks, h).Some? && present - StampAt(cids, blocks, h).value <= periodTs
  }

  /** The upward scan from `cur` to just below `head`: the first height whose block is
      within the period, Ok(None) when every block is too old, and the error of the
      first block that cannot be read. */
  function ScanFrom(cids: ZSet<Cid>, blocks: map<Cid, DagBlock>, present: int, periodTs: int, cur: int, head: int)
    : Outcome<Option<int>>
    decreases head - cur
  {
    if cur >= head then Ok(None)
    else
      var s := StampAt(cids, blocks, cur);
      if s.None? then Raised("KeyError")
      else if present - s.value <= periodTs then Ok(Some(cur))
      else ScanFrom(cids, blocks, present, periodTs, cur + 1, head)
  }

  /** The scan is first-match-wins: a found height lies in [cur, head), is within the
      period, and every height before it was read and too old; Ok(None) means every
      height in [cur, head) was read and too old; an error means some height could
      not be read, after heights that were all read and too old. */
  lemma {:induction false} ScanFirst(cids: ZSet<Cid>, blocks: map<Cid, DagBlock>, present: int, periodTs: int,
                                     cur: int, head: int)
    ensures var r := ScanFrom(cids, blocks, present, periodTs, cur, head);
            && (r.Ok? && r.value.Some? ==>
                  && cur <= r.value.value < head
                  && InWindow(cids, blocks, present, periodTs, r.value.value)
                  && forall g :: cur <= g < r.value.value ==> TooOld(cids, blocks, present, periodTs, g))
            && (r.Ok? && r.value.None? ==>
                  forall g :: cur <= g < head ==> TooOld(cids, blocks, present, periodTs, g))
            && (r.Raised? ==>
                  exists g :: cur <= g < head && StampAt(cids, blocks, g).None?
                              && forall f :: cur <= f < g ==> TooOld(cids, blocks, present, periodTs, f))
    decreases head - cur
  {
    if cur < head {
      var s := StampAt(cids, blocks, cur);
      if s.None? {
        assert ScanFrom(cids, blocks, present, periodTs, cur, head) == Raised("KeyError");
        assert forall f :: cur <= f < cur ==> TooOld(cids, blocks, present, periodTs, f);
      } else if present - s.value <= periodTs {
        assert ScanFrom(cids, blocks, present, periodTs, cur, head) == Ok(Some(cur));
        assert InWindow(cids, blocks, present, periodTs, cur);
      } else {
        assert TooOld(cids, blocks, present, periodTs, cur);
        ScanFirst(cids, blocks, present, periodTs, cur + 1, head);
        var r := ScanFrom(cids, blocks, present, periodTs, cur + 1, head);
        assert ScanFrom(cids, blocks, present, periodTs, cur, head) == r;
        if r.Raised? {
          var g :| cur + 1 <= g < head && StampAt(cids, blocks, g).None?
                   && forall f :: cur + 1 <= f < g ==> TooOld(cids, blocks, present, periodTs, f);
          assert forall f :: cur <= f < g ==> TooOld(cids, blocks, present, periodTs, f);
        }
      }
    }
  }

  /** Every height found in the window is found by the scan: if some height in
      [cur, head) is within the period and every height below it was read, the scan
      succeeds with a height no greater than it. */
  lemma {:induction false} ScanFindsWindow(cids: ZSet<Cid>, blocks: map<Cid, DagBlock>, present: int, periodTs: int,
                                           cur: int, head: int, h: int)
    requires cur <= h < head
    requires InWindow(cids, blocks, present, periodTs, h)
    requires forall g :: cur <= g < h ==> StampAt(cids, blocks, g).Some?
    ensures var r := ScanFrom(cids, blocks, present, periodTs, cur, head);
            r.Ok? && r.value.Some? && r.value.value <= h
    decreases h - cur
  {
    if cur < h && TooOld(cids, blocks, present, periodTs, cur) {
      ScanFindsWindow(cids, blocks, present, periodTs, cur + 1, head, h);
    }
  }

  /** What `seek_ahead_tail(head, start)` computes: the head block's timestamp is
      read first (an error if it cannot be), then the scan from `start`. */
  function TailSearch(cids: ZSet<Cid>, blocks: map<Cid, DagBlock>, head: int, start: int, periodTs: int)
    : Outcome<Option<int>>
  {
    var present := StampAt(cids, blocks, head);
    if present.None? then Raised("KeyError")
    else ScanFrom(cids, blocks, present.value, periodTs, start, head)
  }

  /** A tail found from `start` lies in [start, head) and is within one period of the
      head block. */
  lemma TailSearchBounds(cids: ZSet<Cid>, blocks: map<Cid, DagBlock>, head: int, start: int, periodTs: int)
    requires TailSearch(cids, blocks, head, start, periodTs).Ok?
    requires TailSearch(cids, blocks, head, start, periodTs).value.Some?
    ensures var t := TailSearch(cids, blocks, head, start, periodTs).value.value;
            && start <= t < head
            && StampAt(cids, blocks, head).Some? && StampAt(cids, blocks, t).Some?
            && StampAt(cids, blocks, head).value - StampAt(cids, blocks, t).value <= periodTs
  {
    ScanFirst(cids, blocks, StampAt(cids, blocks, head).value, periodTs, start, head);
  }

  /** `seek_ahead_tail`: reads the head block's timestamp, then walks up from the
      stored tail until a block lies within the period. */
  method SeekAheadTail(store: IndexStore, content: ContentStore, head: int, tail: int, projectId: ProjectId, periodTs: int)
    returns (r: Outcome<Option<int>>)
    ensures r == TailSearch(Of(store.dagCids, projectId), content.blocks, head, tail, periodTs)
  {
    var cids := Of(store.dagCids, projectId);
    var headBlock := content.Get(CidAt(cids, head));
    if headBlock.None? {
      return Raised("KeyError");
    }
    var presentTs := headBlock.value.timestamp;
    var currentHeight := tail;
    while currentHeight < head
      invariant ScanFrom(cids, content.blocks, presentTs, periodTs, currentHeight, head)
             == ScanFrom(cids, content.blocks, presentTs, periodTs, tail, head)
      decreases head - currentHeight
    {
      var dagBlock := content.Get(CidAt(cids, currentHeight));
      if dagBlock.None? {
        return Raised("KeyError");
      }
      if presentTs - dagBlock.value.timestamp <= periodTs {
        return Ok(Some(currentHeight));
      }
      currentHeight := currentHeight + 1;
    }
    return Ok(None);
  }

  /** `find_tail`: the same search started at height 1. */
  method FindTail(store: IndexStore, content: ContentStore, head: int, projectId: ProjectId, periodTs: int)
    returns (r: Outcome<Option<int>>)
    ensures r == TailSearch(Of(store.dagCids, projectId), content.blocks, head, 1, periodTs)
  {
    r := SeekAheadTail(store, content, head, 1, projectId, periodTs);
  }

  /** With the head at 100, blocks stamped 60 seconds apart and a day-long window,
      the first height tested, 1, is already the tail. */
  lemma FirstHeightIsTail(cids: ZSet<Cid>, blocks: map<Cid, DagBlock>)
    requires forall h :: 1 <= h <= 100 ==> StampAt(cids, blocks, h) == Some(60 * h)
    ensures TailSearch(cids, blocks, 100, 1, TimePeriodSeconds("24h")) == Ok(Some(1))
  {
    assert StampAt(cids, blocks, 100) == Some(6000);
    assert StampAt(cids, blocks, 1) == Some(60);
  }

  // ---------------------------------------------------------------------------
  // build_primary_index

  /** A marker counts as set when its key holds a non-empty value (`all(markers)`). */
  predicate Present(markers: map<(ProjectId, string), string>, k: (ProjectId, string))
  {
    k in markers && markers[k] != ""
  }

  /** The tail a search result lets `build_primary_index` write: a found height, but
      not 0, which Python's `not tail_marker` reads as failure. */
  function Accepted(found: Outcome<Option<int>>): Option<int>
  {
    if found.Ok? && found.value.Some? && found.value.value != 0 then Some(found.value.value) else None
  }

  /** The (head, tail) markers one run of `build_primary_index` writes, or None when it
      writes nothing: the max height must be present and parse; on a first run (either
      marker unset) the tail is searched from 1, otherwise from the stored tail, which
      must parse; a failed search or a read error writes nothing. */
  function IndexUpdate(blockHeight: map<ProjectId, string>, heads: map<(ProjectId, string), string>,
                       tails: map<(ProjectId, string), string>, cids: ZSet<Cid>, blocks: map<Cid, DagBlock>,
                       projectId: ProjectId, timePeriod: string): Option<(int, int)>
  {
    var k := (projectId, timePeriod);
    var maxHeight := if projectId in blockHeight then ParseInt(blockHeight[projectId]) else None;
    if maxHeight.None? then None
    else
      var periodTs := TimePeriodSeconds(timePeriod);
      var start := if Present(heads, k) && Present(tails, k) then ParseInt(tails[k]) else Some(1);
      if start.None? then None
      else
        var tail := Accepted(TailSearch(cids, blocks, maxHeight.value, start.value, periodTs));
        if tail.None? then None else Some((maxHeight.value, tail.value))
  }

  /** A written head is the parsed max height; the written tail lies below it, within
      one period of the head block; on a first run it is at least 1, and on a later run
      it is at least the stored tail, so the tail never moves backwards. */
  lemma WrittenMarkers(blockHeight: map<ProjectId, string>, heads: map<(ProjectId, string), string>,
                       tails: map<(ProjectId, string), string>, cids: ZSet<Cid>, blocks: map<Cid, DagBlock>,
                       projectId: ProjectId, timePeriod: string, head: int, tail: int)
    requires IndexUpdate(blockHeight, heads, tails, cids, blocks, projectId, timePeriod) == Some((head, tail))
    ensures projectId in blockHeight && ParseInt(blockHeight[projectId]) == Some(head)
    ensures tail < head && tail != 0
    ensures StampAt(cids, blocks, head).Some? && StampAt(cids, blocks, tail).Some?
    ensures StampAt(cids, blocks, head).value - StampAt(cids, blocks, tail).value <= TimePeriodSeconds(timePeriod)
    ensures !(Present(heads, (projectId, timePeriod)) && Present(tails, (projectId, timePeriod))) ==> 1 <= tail
    ensures Present(heads, (projectId, timePeriod)) && Present(tails, (projectId, timePeriod)) ==>
              ParseInt(tails[(projectId, timePeriod)]).Some? && ParseInt(tails[(projectId, timePeriod)]).value <= tail
  {
    var k := (projectId, timePeriod);
    var start := if Present(heads, k) && Present(tails, k) then ParseInt(tails[k]).value else 1;
    TailSearchBounds(cids, blocks, head, start, TimePeriodSeconds(timePeriod));
  }

  /** The markers of a project and period are well formed: when both are set, the
      tail parses to a height of at least 1 below the parsed head. */
  predicate MarkersValid(heads: map<(ProjectId, string), string>, tails: map<(ProjectId, string), string>,
                         k: (ProjectId, string))
  {
    Present(heads, k) && Present(tails, k) ==>
      && ParseInt(heads[k]).Some? && ParseInt(tails[k]).Some?
      && 1 <= ParseInt(tails[k]).value < ParseInt(heads[k]).value
  }

  /** Whenever a run writes markers over well-formed ones, the new markers are
      well formed too: 1 <= tail < head. */
  lemma UpdateKeepsMarkersValid(blockHeight: map<ProjectId, string>, heads: map<(ProjectId, string), string>,
                                tails: map<(ProjectId, string), string>, cids: ZSet<Cid>, blocks: map<Cid, DagBlock>,
                                projectId: ProjectId, timePeriod: string, head: int, tail: int)
    requires MarkersValid(heads, tails, (projectId, timePeriod))
    requires IndexUpdate(blockHeight, heads, tails, cids, blocks, projectId, timePeriod) == Some((head, tail))
    ensures MarkersValid(heads[(projectId, timePeriod) := FormatInt(head)],
                         tails[(projectId, timePeriod) := FormatInt(tail)], (projectId, timePeriod))
  {
    WrittenMarkers(blockHeight, heads, tails, cids, blocks, projectId, timePeriod, head, tail);
    ParseFormat(head);
    ParseFormat(tail);
  }

  /** `build_primary_index` (marker logic): reads the max height, then finds or
      advances the tail and writes both markers, or writes nothing. */
  method BuildPrimaryIndex(store: IndexStore, content: ContentStore, projectId: ProjectId, timePeriod: string)
    modifies store`headMarkers, store`tailMarkers
    ensures var u := IndexUpdate(store.blockHeight, old(store.headMarkers), old(store.tailMarkers),
                                 Of(store.dagCids, projectId), content.blocks, projectId, timePeriod);
            && (u.None? ==> store.headMarkers == old(store.headMarkers) && store.tailMarkers == old(store.tailMarkers))
            && (u.Some? ==>
                  && store.headMarkers == old(store.headMarkers)[(projectId, timePeriod) := FormatInt(u.value.0)]
                  && store.tailMarkers == old(store.tailMarkers)[(projectId, timePeriod) := FormatInt(u.value.1)])
  {
    var k := (projectId, timePeriod);
    if projectId !in store.blockHeight {
      return;
    }
    var maxHeight := ParseInt(store.blockHeight[projectId]);
    if maxHeight.None? {
      return;
    }
    var headMarker := maxHeight.value;
    var timePeriodTs := TimePeriodSeconds(timePeriod);
    var found: Outcome<Option<int>>;
    if !(Present(store.headMarkers, k) && Present(store.tailMarkers, k)) {
      found := FindTail(store, content, headMarker, projectId, timePeriodTs);
    } else {
      var tailMarker := ParseInt(store.tailMarkers[k]);
      if tailMarker.None? {
        return;
      }
      found := SeekAheadTail(store, content, headMarker, tailMarker.value, projectId, timePeriodTs);
    }
    var tail := Accepted(found);
    if tail.None? {
      return;
    }
    store.headMarkers := store.headMarkers[k := FormatInt(headMarker)];
    store.tailMarkers := store.tailMarkers[k := FormatInt(tail.value)];
  }
}
