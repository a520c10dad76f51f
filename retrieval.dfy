/** Range retrieval over a project's chain (utils/retrieval_utils.py): the span
    cache, the container lookup for pruned heights, and the descending block fetch. */
module Retrieval {
  import opened Wrappers
  import opened ZSets
  import opened Stores
  import opened Collecting

  // ---------------------------------------------------------------------------
  // check_intersection

  /** The heights lo..hi, as `check_intersection`'s `set(range(lo, hi + 1))`. */
  function HeightRange(lo: int, hi: int): (s: set<int>)
    ensures forall h :: h in s <==> lo <= h <= hi
    decreases hi - lo
  {
    if hi < lo then {} else HeightRange(lo, hi - 1) + {hi}
  }

  lemma {:induction false} RangeCard(lo: int, hi: int)
    ensures |HeightRange(lo, hi)| == if hi < lo then 0 else hi - lo + 1
    decreases hi - lo
  {
    if hi >= lo {
      assert hi !in HeightRange(lo, hi - 1);
      RangeCard(lo, hi - 1);
    }
  }

  /** The common heights of two ranges form a range. */
  lemma RangeMeet(a0: int, a1: int, b0: int, b1: int)
    ensures HeightRange(a0, a1) * HeightRange(b0, b1)
         == HeightRange(if a0 < b0 then b0 else a0, if a1 < b1 then a1 else b1)
  {
    var meet := HeightRange(if a0 < b0 then b0 else a0, if a1 < b1 then a1 else b1);
    forall h ensures h in HeightRange(a0, a1) * HeightRange(b0, b1) <==> h in meet {
    }
  }

  /** `part` out of `whole`, in percent, computed as `check_intersection` does: the ratio
      first, then times 100. */
  function Percent(part: int, whole: int): real
    requires whole != 0
  {
    (part as real) / (whole as real) * 100.0
  }

  /** A share of at most the whole lies in [0, 100] percent. */
  lemma PercentBound(part: nat, whole: nat)
    requires part <= whole && whole > 0
    ensures 0.0 <= Percent(part, whole) <= 100.0
  {
    var q := (part as real) / (whole as real);
    assert q * (whole as real) == part as real;
    assert q <= 1.0;
  }

  /** How many heights two ranges have in common. */
  function CommonCount(a: (int, int), b: (int, int)): nat
  {
    var lo := if a.0 < b.0 then b.0 else a.0;
    var hi := if a.1 < b.1 then a.1 else b.1;
    if hi < lo then 0 else hi - lo + 1
  }

  /** The cardinalities `check_intersection` divides. */
  lemma IntersectionCounts(a: (int, int), b: (int, int))
    ensures |HeightRange(a.0, a.1) * HeightRange(b.0, b.1)| == CommonCount(a, b)
    ensures |HeightRange(a.0, a.1)| == if a.1 < a.0 then 0 else a.1 - a.0 + 1
    ensures CommonCount(a, b) <= |HeightRange(a.0, a.1)|
  {
    var lo := if a.0 < b.0 then b.0 else a.0;
    var hi := if a.1 < b.1 then a.1 else b.1;
    RangeMeet(a.0, a.1, b.0, b.1);
    RangeCard(lo, hi);
    RangeCard(a.0, a.1);
  }

  /** `check_intersection`: the share, in percent, of the heights of `a` that `b` also
      covers. None stands for the division by zero an empty `a` raises. */
  function CheckIntersection(a: (int, int), b: (int, int)): (r: Option<real>)
    ensures r.None? <==> a.1 < a.0
  {
    var setA := HeightRange(a.0, a.1);
    var setB := HeightRange(b.0, b.1);
    var overlap := setA * setB;
    if |setA| == 0 then None else Some(Percent(|overlap|, |setA|))
  }

  /** The intersection is a percentage. */
  lemma IntersectionBounds(a: (int, int), b: (int, int))
    requires a.0 <= a.1
    ensures 0.0 <= CheckIntersection(a, b).value <= 100.0
  {
    IntersectionCounts(a, b);
    PercentBound(CommonCount(a, b), |HeightRange(a.0, a.1)|);
  }

  /** The intersection as a closed formula: the common-height count over the length of `a`. */
  lemma IntersectionClosedForm(a: (int, int), b: (int, int))
    requires a.0 <= a.1
    ensures CheckIntersection(a, b) == Some(Percent(CommonCount(a, b), a.1 - a.0 + 1))
  {
    IntersectionCounts(a, b);
  }

  /** The measure is relative to the first range, so it is not symmetric. */
  lemma IntersectionAsymmetric()
    ensures CheckIntersection((1, 10), (5, 15)) == Some(60.0)
    ensures CheckIntersection((5, 15), (1, 10)) == Some(600.0 / 11.0)
  {
    IntersectionClosedForm((1, 10), (5, 15));
    IntersectionClosedForm((5, 15), (1, 10));
    assert CommonCount((1, 10), (5, 15)) == 6 && CommonCount((5, 15), (1, 10)) == 6;
  }

  /** A single height is fully covered by `b` exactly when `b` contains it. */
  lemma SingleHeightCovered(h: int, b: (int, int))
    ensures CheckIntersection((h, h), b) == Some(100.0) <==> b.0 <= h <= b.1
  {
    IntersectionClosedForm((h, h), b);
    assert CommonCount((h, h), b) == if b.0 <= h <= b.1 then 1 else 0;
  }

  // ---------------------------------------------------------------------------
  // check_overlap

  /** The range of the span under (projectId, k), when the key holds a decoded span. */
  function SpanBounds(live: map<(ProjectId, SpanId), StoredSpan>, projectId: ProjectId, k: SpanId): Option<(int, int)>
  {
    if (projectId, k) in live && live[(projectId, k)].SpanDoc? then
      Some((live[(projectId, k)].fromHeight, live[(projectId, k)].toHeight))
    else None
  }

  /** The overlap a span contributes to the best-span search; a failed intersection counts as 0. */
  function Overlap(fromHeight: int, toHeight: int, b: (int, int)): real
  {
    CheckIntersection((fromHeight, toHeight), b).GetOr(0.0)
  }

  /** The running best (overlap, index into `keys`) after scanning `keys` in order:
      a span replaces the best only with a strictly greater overlap. */
  function BestSpan(fromHeight: int, toHeight: int, live: map<(ProjectId, SpanId), StoredSpan>,
                    projectId: ProjectId, keys: seq<SpanId>): (r: (real, Option<nat>))
    ensures r.1.Some? ==> r.1.value < |keys|
    decreases |keys|
  {
    if |keys| == 0 then (0.0, None)
    else
      var prev := BestSpan(fromHeight, toHeight, live, projectId, keys[..|keys| - 1]);
      match SpanBounds(live, projectId, keys[|keys| - 1])
      case None => prev
      case Some(b) =>
        var o := Overlap(fromHeight, toHeight, b);
        if o > prev.0 then (o, Some(|keys| - 1)) else prev
  }

  /** The best span has the greatest overlap of all decoded spans, is the first one
      scanned with that overlap, and there is none exactly when every overlap is 0. */
  lemma {:induction false} BestSpanIsFirstMax(fromHeight: int, toHeight: int,
      live: map<(ProjectId, SpanId), StoredSpan>, projectId: ProjectId, keys: seq<SpanId>)
    ensures var (m, idx) := BestSpan(fromHeight, toHeight, live, projectId, keys);
            && m >= 0.0
            && (forall i :: 0 <= i < |keys| && SpanBounds(live, projectId, keys[i]).Some? ==>
                  Overlap(fromHeight, toHeight, SpanBounds(live, projectId, keys[i]).value) <= m)
            && (idx.None? <==> m == 0.0)
            && (idx.Some? ==>
                  && SpanBounds(live, projectId, keys[idx.value]).Some?
                  && Overlap(fromHeight, toHeight, SpanBounds(live, projectId, keys[idx.value]).value) == m
                  && forall j :: 0 <= j < idx.value && SpanBounds(live, projectId, keys[j]).Some? ==>
                       Overlap(fromHeight, toHeight, SpanBounds(live, projectId, keys[j]).value) < m)
    decreases |keys|
  {
    if |keys| > 0 {
      var n := |keys| - 1;
      var prefix := keys[..n];
      BestSpanIsFirstMax(fromHeight, toHeight, live, projectId, prefix);
      assert forall i :: 0 <= i < n ==> keys[i] == prefix[i];
      var prev := BestSpan(fromHeight, toHeight, live, projectId, prefix);
      var sb := SpanBounds(live, projectId, keys[n]);
      if sb.None? {
        assert BestSpan(fromHeight, toHeight, live, projectId, keys) == prev;
      } else {
        var o := Overlap(fromHeight, toHeight, sb.value);
        OverlapNonNegative(fromHeight, toHeight, sb.value);
        if o > prev.0 {
          assert BestSpan(fromHeight, toHeight, live, projectId, keys) == (o, Some(n));
          forall i | 0 <= i < n && SpanBounds(live, projectId, keys[i]).Some?
            ensures Overlap(fromHeight, toHeight, SpanBounds(live, projectId, keys[i]).value) < o
          {
            assert keys[i] == prefix[i];
          }
        } else {
          assert BestSpan(fromHeight, toHeight, live, projectId, keys) == prev;
          forall i | 0 <= i < n && SpanBounds(live, projectId, keys[i]).Some?
            ensures Overlap(fromHeight, toHeight, SpanBounds(live, projectId, keys[i]).value) <= prev.0
          {
            assert keys[i] == prefix[i];
          }
        }
      }
    }
  }

  /** A failed intersection counts as 0, so no overlap is negative. */
  lemma OverlapNonNegative(fromHeight: int, toHeight: int, b: (int, int))
    ensures Overlap(fromHeight, toHeight, b) >= 0.0
  {
    if fromHeight <= toHeight {
      IntersectionBounds((fromHeight, toHeight), b);
    }
  }

  /** Whether the span range `b` fully covers height `h`, as `check_overlap` tests it. */
  predicate Covers(b: (int, int), h: int)
  {
    CheckIntersection((h, h), b) == Some(100.0)
  }

  /** The inner per-height loop: heights cur..to that `b` covers and `spans` lacks
      are mapped to `k`. */
  function AddCovered(spans: map<int, SpanId>, cur: int, toHeight: int, b: (int, int), k: SpanId): map<int, SpanId>
    decreases toHeight - cur
  {
    if cur > toHeight then spans
    else AddCovered(if cur !in spans && Covers(b, cur) then spans[cur := k] else spans, cur + 1, toHeight, b, k)
  }

  lemma {:induction false} AddCoveredContents(spans: map<int, SpanId>, cur: int, toHeight: int, b: (int, int), k: SpanId)
    ensures var r := AddCovered(spans, cur, toHeight, b, k);
            forall h :: (h in r <==> h in spans || (cur <= h <= toHeight && Covers(b, h)))
                     && (h in r ==> r[h] == if h in spans then spans[h] else k)
    decreases toHeight - cur
  {
    if cur <= toHeight {
      var next := if cur !in spans && Covers(b, cur) then spans[cur := k] else spans;
      AddCoveredContents(next, cur + 1, toHeight, b, k);
      var r := AddCovered(next, cur + 1, toHeight, b, k);
      assert AddCovered(spans, cur, toHeight, b, k) == r;
      forall h
        ensures (h in r <==> h in spans || (cur <= h <= toHeight && Covers(b, h)))
             && (h in r ==> r[h] == if h in spans then spans[h] else k)
      {
        if h != cur {
          assert (h in next <==> h in spans) && (h in next ==> next[h] == spans[h]);
        }
      }
    }
  }

  /** The per-height map after scanning `keys` in order. */
  function CoverSpans(fromHeight: int, toHeight: int, live: map<(ProjectId, SpanId), StoredSpan>,
                      projectId: ProjectId, keys: seq<SpanId>): map<int, SpanId>
    decreases |keys|
  {
    if |keys| == 0 then map[]
    else
      var prev := CoverSpans(fromHeight, toHeight, live, projectId, keys[..|keys| - 1]);
      match SpanBounds(live, projectId, keys[|keys| - 1])
      case None => prev
      case Some(b) => AddCovered(prev, fromHeight, toHeight, b, keys[|keys| - 1])
  }

  /** Reference definition: the index of the first decoded span in `keys` that
      covers height `h`. */
  function FirstCover(live: map<(ProjectId, SpanId), StoredSpan>, projectId: ProjectId,
                      keys: seq<SpanId>, h: int): (r: Option<nat>)
    ensures r.Some? ==>
      && r.value < |keys|
      && SpanBounds(live, projectId, keys[r.value]).Some?
      && Covers(SpanBounds(live, projectId, keys[r.value]).value, h)
    ensures forall j :: 0 <= j < |keys| && (r.None? || j < r.value) ==>
      !(SpanBounds(live, projectId, keys[j]).Some? && Covers(SpanBounds(live, projectId, keys[j]).value, h))
    decreases |keys|
  {
    if |keys| == 0 then None
    else
      var n := |keys| - 1;
      var prev := FirstCover(live, projectId, keys[..n], h);
      assert forall j :: 0 <= j < n ==> keys[..n][j] == keys[j];
      if prev.Some? then prev
      else if SpanBounds(live, projectId, keys[n]).Some? && Covers(SpanBounds(live, projectId, keys[n]).value, h) then Some(n)
      else None
  }

  /** Each height of [from, to] is mapped to the first scanned span that contains
      it, no other height is mapped, and a height is never reassigned. */
  lemma {:induction false} CoverSpansFirstWins(fromHeight: int, toHeight: int,
      live: map<(ProjectId, SpanId), StoredSpan>, projectId: ProjectId, keys: seq<SpanId>)
    ensures var spans := CoverSpans(fromHeight, toHeight, live, projectId, keys);
            forall h ::
              && (h in spans <==> fromHeight <= h <= toHeight && FirstCover(live, projectId, keys, h).Some?)
              && (h in spans ==> spans[h] == keys[FirstCover(live, projectId, keys, h).value])
    decreases |keys|
  {
    if |keys| > 0 {
      var n := |keys| - 1;
      var prefix := keys[..n];
      CoverSpansFirstWins(fromHeight, toHeight, live, projectId, prefix);
      assert forall i :: 0 <= i < n ==> prefix[i] == keys[i];
      var prev := CoverSpans(fromHeight, toHeight, live, projectId, prefix);
      var last := SpanBounds(live, projectId, keys[n]);
      if last.Some? {
        AddCoveredContents(prev, fromHeight, toHeight, last.value, keys[n]);
      }
      forall h
        ensures var spans := CoverSpans(fromHeight, toHeight, live, projectId, keys);
                && (h in spans <==> fromHeight <= h <= toHeight && FirstCover(live, projectId, keys, h).Some?)
                && (h in spans ==> spans[h] == keys[FirstCover(live, projectId, keys, h).value])
      {
        var f := FirstCover(live, projectId, prefix, h);
        assert f.Some? ==> FirstCover(live, projectId, keys, h) == f;
      }
    }
  }

  /** The spans in the per-height map contain their heights, within [from, to]. */
  lemma CoverSpansSound(fromHeight: int, toHeight: int,
      live: map<(ProjectId, SpanId), StoredSpan>, projectId: ProjectId, keys: seq<SpanId>, h: int)
    requires h in CoverSpans(fromHeight, toHeight, live, projectId, keys)
    ensures var k := CoverSpans(fromHeight, toHeight, live, projectId, keys)[h];
            && fromHeight <= h <= toHeight
            && k in keys
            && SpanBounds(live, projectId, k).Some?
            && SpanBounds(live, projectId, k).value.0 <= h <= SpanBounds(live, projectId, k).value.1
  {
    CoverSpansFirstWins(fromHeight, toHeight, live, projectId, keys);
    var i := FirstCover(live, projectId, keys, h).value;
    SingleHeightCovered(h, SpanBounds(live, projectId, keys[i]).value);
  }

  /** The per-height loop of `check_overlap`: each height of [from, to] not yet
      assigned and fully covered by `b` is assigned to `spanKey`. */
  method RecordCoveredHeights(spans: map<int, SpanId>, fromHeight: int, toHeight: int, b: (int, int), spanKey: SpanId)
    returns (eachHeightSpans: map<int, SpanId>)
    ensures eachHeightSpans == AddCovered(spans, fromHeight, toHeight, b, spanKey)
  {
    eachHeightSpans := spans;
    var currentHeight := fromHeight;
    while currentHeight <= toHeight
      invariant AddCovered(eachHeightSpans, currentHeight, toHeight, b, spanKey)
             == AddCovered(spans, fromHeight, toHeight, b, spanKey)
      decreases toHeight - currentHeight
    {
      if currentHeight !in eachHeightSpans {
        if CheckIntersection((currentHeight, currentHeight), b) == Some(100.0) {
          eachHeightSpans := eachHeightSpans[currentHeight := spanKey];
        }
      }
      currentHeight := currentHeight + 1;
    }
  }

  /** `check_overlap`: scans the project's live-span keys in `spanKeys` order (the
      order the store lists them), skipping keys whose value is missing or does not
      decode, and returns the best span and the first covering span of each height. */
  method CheckOverlap(store: IndexStore, fromHeight: int, toHeight: int, projectId: ProjectId, spanKeys: seq<SpanId>)
    returns (maxOverlap: real, maxSpanId: Option<SpanId>, eachHeightSpans: map<int, SpanId>)
    ensures var best := BestSpan(fromHeight, toHeight, store.liveSpans, projectId, spanKeys);
            && maxOverlap == best.0
            && maxSpanId == (if best.1.Some? then Some(spanKeys[best.1.value]) else None)
    ensures eachHeightSpans == CoverSpans(fromHeight, toHeight, store.liveSpans, projectId, spanKeys)
  {
    maxOverlap, maxSpanId, eachHeightSpans := 0.0, None, map[];
    var i := 0;
    while i < |spanKeys|
      invariant 0 <= i <= |spanKeys|
      invariant var best := BestSpan(fromHeight, toHeight, store.liveSpans, projectId, spanKeys[..i]);
                && maxOverlap == best.0
                && maxSpanId == (if best.1.Some? then Some(spanKeys[best.1.value]) else None)
      invariant eachHeightSpans == CoverSpans(fromHeight, toHeight, store.liveSpans, projectId, spanKeys[..i])
    {
      var spanKey := spanKeys[i];
      assert spanKeys[..i + 1][..i] == spanKeys[..i];
      var target := SpanBounds(store.liveSpans, projectId, spanKey);
      if target.Some? {
        var overlap := Overlap(fromHeight, toHeight, target.value);
        if overlap > maxOverlap {
          maxOverlap := overlap;
          maxSpanId := Some(spanKey);
        }
        eachHeightSpans := RecordCoveredHeights(eachHeightSpans, fromHeight, toHeight, target.value, spanKey);
      }
      i := i + 1;
    }
    assert spanKeys[..i] == spanKeys;
  }

  // ---------------------------------------------------------------------------
  // fetch_from_span and save_span

  /** What `fetch_from_span` gives back: the blocks of the range, -1 when the stored
      value does not decode, or the exception a missing span or height raises. */
  datatype SpanFetch = Blocks(blocks: seq<DagBlock>) | MinusOne | Failed(reason: string)

  /** The value under a live-span key, None when the key is absent. */
  function LiveSpan(live: map<(ProjectId, SpanId), StoredSpan>, projectId: ProjectId, spanId: SpanId): Option<StoredSpan>
  {
    if (projectId, spanId) in live then Some(live[(projectId, spanId)]) else None
  }

  /** The span holds every height from..to. */
  predicate Holds(dagBlocks: map<int, DagBlock>, fromHeight: int, toHeight: int)
    decreases toHeight - fromHeight
  {
    fromHeight > toHeight || (toHeight in dagBlocks && Holds(dagBlocks, fromHeight, toHeight - 1))
  }

  /** The span's blocks at from..to in ascending height order. */
  function Slice(dagBlocks: map<int, DagBlock>, fromHeight: int, toHeight: int): seq<DagBlock>
    requires Holds(dagBlocks, fromHeight, toHeight)
    decreases toHeight - fromHeight
  {
    if fromHeight > toHeight then [] else Slice(dagBlocks, fromHeight, toHeight - 1) + [dagBlocks[toHeight]]
  }

  /** A span holds a range exactly when it holds each of its heights, and the slice
      lists them in order. */
  lemma {:induction false} SliceContents(dagBlocks: map<int, DagBlock>, fromHeight: int, toHeight: int)
    ensures Holds(dagBlocks, fromHeight, toHeight) <==> forall h :: fromHeight <= h <= toHeight ==> h in dagBlocks
    ensures Holds(dagBlocks, fromHeight, toHeight) ==>
      var s := Slice(dagBlocks, fromHeight, toHeight);
      && |s| == (if toHeight < fromHeight then 0 else toHeight - fromHeight + 1)
      && forall i :: 0 <= i < |s| ==> s[i] == dagBlocks[fromHeight + i]
    decreases toHeight - fromHeight
  {
    if fromHeight <= toHeight {
      SliceContents(dagBlocks, fromHeight, toHeight - 1);
    }
  }

  /** Reference definition of `fetch_from_span`: the span's blocks at from..to when
      it holds all of them; -1 for an undecodable value; the error `fetch_from_span` raises
      on a missing span or height. */
  function SpanSlice(stored: Option<StoredSpan>, fromHeight: int, toHeight: int): SpanFetch
  {
    match stored
    case Some(Unreadable) => MinusOne
    case None => if fromHeight > toHeight then Blocks([]) else Failed("TypeError")
    case Some(SpanDoc(_, _, dagBlocks)) =>
      if Holds(dagBlocks, fromHeight, toHeight) then Blocks(Slice(dagBlocks, fromHeight, toHeight))
      else Failed("KeyError")
  }

  /** `fetch_from_span` for the single height `h`, as `fetch_blocks` calls it. */
  function SpanBlock(stored: Option<StoredSpan>, h: int): SpanFetch
  {
    if stored.None? then Failed("TypeError")
    else if stored.value.Unreadable? then MinusOne
    else if h in stored.value.dagBlocks then Blocks([stored.value.dagBlocks[h]])
    else Failed("KeyError")
  }

  /** The single-height read is `fetch_from_span` with from = to = h. */
  lemma SpanBlockIsSlice(stored: Option<StoredSpan>, h: int)
    ensures SpanBlock(stored, h) == SpanSlice(stored, h, h)
  {
    if stored.Some? && stored.value.SpanDoc? {
      var db := stored.value.dagBlocks;
      assert Holds(db, h, h) <==> h in db;
      if h in db {
        assert Slice(db, h, h) == Slice(db, h, h - 1) + [db[h]];
      }
    }
  }

  /** `fetch_from_span`: reads the span under (projectId, spanId) and collects its
      blocks from `fromHeight` up to `toHeight`. */
  method FetchFromSpan(store: IndexStore, fromHeight: int, toHeight: int, spanId: SpanId, projectId: ProjectId)
    returns (r: SpanFetch)
    ensures r == SpanSlice(LiveSpan(store.liveSpans, projectId, spanId), fromHeight, toHeight)
  {
    var spanData := LiveSpan(store.liveSpans, projectId, spanId);
    if spanData == Some(Unreadable) {
      return MinusOne;
    }
    var currentHeight := fromHeight;
    var blocks: seq<DagBlock> := [];
    while currentHeight <= toHeight
      invariant fromHeight <= toHeight ==> fromHeight <= currentHeight <= toHeight + 1
      invariant toHeight < fromHeight ==> currentHeight == fromHeight
      invariant fromHeight < currentHeight ==>
        && spanData.Some? && spanData.value.SpanDoc?
        && Holds(spanData.value.dagBlocks, fromHeight, currentHeight - 1)
        && blocks == Slice(spanData.value.dagBlocks, fromHeight, currentHeight - 1)
      invariant currentHeight == fromHeight ==> blocks == []
      decreases toHeight - currentHeight
    {
      if spanData.None? {
        return Failed("TypeError");
      }
      var dagBlocks := spanData.value.dagBlocks;
      if currentHeight !in dagBlocks {
        SliceContents(dagBlocks, fromHeight, toHeight);
        return Failed("KeyError");
      }
      blocks := blocks + [dagBlocks[currentHeight]];
      currentHeight := currentHeight + 1;
    }
    if spanData.Some? && spanData.value.SpanDoc? {
      SliceContents(spanData.value.dagBlocks, fromHeight, toHeight);
    }
    return Blocks(blocks);
  }

  /** `save_span`: stores the span document under the id derived from (from, to,
      projectId) alone, without the project id in the document, with an expiry. */
  method SaveSpan(store: IndexStore, fromHeight: int, toHeight: int, projectId: ProjectId,
                  dagBlocks: map<int, DagBlock>, spanExpireTimeout: int)
    modifies store`liveSpans, store`spanTtl
    ensures var key := (projectId, SpanDigest(fromHeight, toHeight, projectId));
            && store.liveSpans == old(store.liveSpans)[key := SpanDoc(fromHeight, toHeight, dagBlocks)]
            && store.spanTtl == old(store.spanTtl)[key := spanExpireTimeout]
  {
    var spanId := SpanDigest(fromHeight, toHeight, projectId);
    var spanData := SpanDoc(fromHeight, toHeight, dagBlocks);
    store.liveSpans := store.liveSpans[(projectId, spanId) := spanData];
    store.spanTtl := store.spanTtl[(projectId, spanId) := spanExpireTimeout];
  }

  /** A saved span reads back: fetching any sub-range it holds from the saved key
      gives the saved blocks in ascending height order. */
  lemma SavedSpanReadsBack(live: map<(ProjectId, SpanId), StoredSpan>, projectId: ProjectId,
      fromHeight: int, toHeight: int, dagBlocks: map<int, DagBlock>, lo: int, hi: int)
    requires lo <= hi && forall h :: lo <= h <= hi ==> h in dagBlocks
    ensures var saved := live[(projectId, SpanDigest(fromHeight, toHeight, projectId)) := SpanDoc(fromHeight, toHeight, dagBlocks)];
            var r := SpanSlice(LiveSpan(saved, projectId, SpanDigest(fromHeight, toHeight, projectId)), lo, hi);
            && r.Blocks? && |r.blocks| == hi - lo + 1
            && forall i :: 0 <= i < |r.blocks| ==> r.blocks[i] == dagBlocks[lo + i]
  {
    SliceContents(dagBlocks, lo, hi);
  }

  /** Once a span is stored under a scanned key, `check_overlap` maps every height
      of the query that the span contains to some span. */
  lemma {:induction false} StoredSpanCovers(fromHeight: int, toHeight: int,
      live: map<(ProjectId, SpanId), StoredSpan>, projectId: ProjectId, keys: seq<SpanId>, i: int, h: int)
    requires 0 <= i < |keys|
    requires SpanBounds(live, projectId, keys[i]).Some?
    requires var b := SpanBounds(live, projectId, keys[i]).value; b.0 <= h <= b.1
    requires fromHeight <= h <= toHeight
    ensures h in CoverSpans(fromHeight, toHeight, live, projectId, keys)
  {
    CoverSpansFirstWins(fromHeight, toHeight, live, projectId, keys);
    SingleHeightCovered(h, SpanBounds(live, projectId, keys[i]).value);
  }

  // ---------------------------------------------------------------------------
  // fetch_blocks

  /** One value of the `fetch_blocks` result: a block read from the content store
      (None when the read found nothing), or what `fetch_from_span` gave back. */
  datatype FetchedBlock = Stored(block: Option<DagBlock>) | FromSpan(fetched: SpanFetch)

  /** The value `fetch_blocks` records for height `h`: from the span when the
      per-height map names one, otherwise from the content store. */
  function FetchEntry(cids: ZSet<Cid>, blocks: map<Cid, DagBlock>, live: map<(ProjectId, SpanId), StoredSpan>,
                      projectId: ProjectId, spans: map<int, SpanId>, h: int): Outcome<FetchedBlock>
  {
    if h !in spans then Ok(Stored(BlockAt(blocks, CidAt(cids, h))))
    else
      var fetched := SpanBlock(LiveSpan(live, projectId, spans[h]), h);
      if fetched.Failed? then Raised(fetched.reason) else Ok(FromSpan(fetched))
  }

  /** What the descending loop visits from `to` down to `lo`: the cid indexed at each
      height, paired with the read made for it. */
  function Visits(cids: ZSet<Cid>, blocks: map<Cid, DagBlock>, live: map<(ProjectId, SpanId), StoredSpan>,
                  projectId: ProjectId, spans: map<int, SpanId>, lo: int, toHeight: int)
    : (r: seq<(Option<Cid>, Outcome<FetchedBlock>)>)
    ensures |r| == if toHeight < lo then 0 else toHeight - lo + 1
    decreases toHeight - lo
  {
    if lo > toHeight then []
    else Visits(cids, blocks, live, projectId, spans, lo + 1, toHeight)
         + [(CidAt(cids, lo), FetchEntry(cids, blocks, live, projectId, spans, lo))]
  }

  /** Visit `i` of from..to is the cid indexed at height to - i. */
  lemma VisitKeyAt(cids: ZSet<Cid>, blocks: map<Cid, DagBlock>, live: map<(ProjectId, SpanId), StoredSpan>,
      projectId: ProjectId, spans: map<int, SpanId>, fromHeight: int, toHeight: int, i: int)
    requires 0 <= i <= toHeight - fromHeight
    ensures Visits(cids, blocks, live, projectId, spans, fromHeight, toHeight)[i].0 == CidAt(cids, toHeight - i)
  {
    VisitsKeys(cids, blocks, live, projectId, spans, fromHeight, toHeight);
  }

  /** Visit `i` of from..to carries the read made for height to - i. */
  lemma VisitReadAt(cids: ZSet<Cid>, blocks: map<Cid, DagBlock>, live: map<(ProjectId, SpanId), StoredSpan>,
      projectId: ProjectId, spans: map<int, SpanId>, fromHeight: int, toHeight: int, i: int)
    requires 0 <= i <= toHeight - fromHeight
    ensures Visits(cids, blocks, live, projectId, spans, fromHeight, toHeight)[i].1
         == FetchEntry(cids, blocks, live, projectId, spans, toHeight - i)
  {
    VisitsReads(cids, blocks, live, projectId, spans, fromHeight, toHeight);
  }

  /** The visits of from..to are those of cur..to followed by those of from..cur-1. */
  lemma {:induction false} VisitsSplit(cids: ZSet<Cid>, blocks: map<Cid, DagBlock>, live: map<(ProjectId, SpanId), StoredSpan>,
      projectId: ProjectId, spans: map<int, SpanId>, fromHeight: int, cur: int, toHeight: int)
    requires fromHeight <= cur <= toHeight + 1
    ensures Visits(cids, blocks, live, projectId, spans, fromHeight, toHeight)
         == Visits(cids, blocks, live, projectId, spans, cur, toHeight) + Visits(cids, blocks, live, projectId, spans, fromHeight, cur - 1)
    decreases cur - fromHeight
  {
    if fromHeight < cur {
      VisitsSplit(cids, blocks, live, projectId, spans, fromHeight + 1, cur, toHeight);
      var upper := Visits(cids, blocks, live, projectId, spans, cur, toHeight);
      var middle := Visits(cids, blocks, live, projectId, spans, fromHeight + 1, cur - 1);
      var last := [(CidAt(cids, fromHeight), FetchEntry(cids, blocks, live, projectId, spans, fromHeight))];
      assert Visits(cids, blocks, live, projectId, spans, fromHeight, cur - 1) == middle + last;
      assert (upper + middle) + last == upper + (middle + last);
    } else {
      assert Visits(cids, blocks, live, projectId, spans, fromHeight, cur - 1) == [];
    }
  }

  /** Visit i is of the cid indexed at height to - i. */
  lemma {:induction false} VisitsKeys(cids: ZSet<Cid>, blocks: map<Cid, DagBlock>, live: map<(ProjectId, SpanId), StoredSpan>,
      projectId: ProjectId, spans: map<int, SpanId>, lo: int, toHeight: int)
    ensures forall i :: 0 <= i < |Visits(cids, blocks, live, projectId, spans, lo, toHeight)| ==>
              Visits(cids, blocks, live, projectId, spans, lo, toHeight)[i].0 == CidAt(cids, toHeight - i)
    decreases toHeight - lo
  {
    if lo <= toHeight {
      VisitsKeys(cids, blocks, live, projectId, spans, lo + 1, toHeight);
      var rest := Visits(cids, blocks, live, projectId, spans, lo + 1, toHeight);
      var last := (CidAt(cids, lo), FetchEntry(cids, blocks, live, projectId, spans, lo));
      assert Visits(cids, blocks, live, projectId, spans, lo, toHeight) == rest + [last];
      forall i | 0 <= i < |rest| + 1
        ensures (rest + [last])[i].0 == CidAt(cids, toHeight - i)
      {
        if i < |rest| {
          assert (rest + [last])[i] == rest[i];
        }
      }
    }
  }

  /** Visit i carries the read made for height to - i. */
  lemma {:induction false} VisitsReads(cids: ZSet<Cid>, blocks: map<Cid, DagBlock>, live: map<(ProjectId, SpanId), StoredSpan>,
      projectId: ProjectId, spans: map<int, SpanId>, lo: int, toHeight: int)
    ensures forall i :: 0 <= i < |Visits(cids, blocks, live, projectId, spans, lo, toHeight)| ==>
              Visits(cids, blocks, live, projectId, spans, lo, toHeight)[i].1 == FetchEntry(cids, blocks, live, projectId, spans, toHeight - i)
    decreases toHeight - lo
  {
    if lo <= toHeight {
      VisitsReads(cids, blocks, live, projectId, spans, lo + 1, toHeight);
      var rest := Visits(cids, blocks, live, projectId, spans, lo + 1, toHeight);
      var last := (CidAt(cids, lo), FetchEntry(cids, blocks, live, projectId, spans, lo));
      assert Visits(cids, blocks, live, projectId, spans, lo, toHeight) == rest + [last];
      forall i | 0 <= i < |rest| + 1
        ensures (rest + [last])[i].1 == FetchEntry(cids, blocks, live, projectId, spans, toHeight - i)
      {
        if i < |rest| {
          assert (rest + [last])[i] == rest[i];
        }
      }
    }
  }

  /** The fetch result by height: it fails exactly when some height's read fails. */
  lemma FetchFails(cids: ZSet<Cid>, blocks: map<Cid, DagBlock>, live: map<(ProjectId, SpanId), StoredSpan>,
      projectId: ProjectId, spans: map<int, SpanId>, fromHeight: int, toHeight: int)
    ensures Collect(Visits(cids, blocks, live, projectId, spans, fromHeight, toHeight)).Ok?
        <==> forall h :: fromHeight <= h <= toHeight ==> FetchEntry(cids, blocks, live, projectId, spans, h).Ok?
  {
    var v := Visits(cids, blocks, live, projectId, spans, fromHeight, toHeight);
    VisitsReads(cids, blocks, live, projectId, spans, fromHeight, toHeight);
    CollectOk(v);
    forall h | fromHeight <= h <= toHeight
      ensures v[toHeight - h].1 == FetchEntry(cids, blocks, live, projectId, spans, h)
    {
    }
  }

  /** A successful fetch has a key for the cid indexed at each height of from..to. */
  lemma FetchKeysPresent(cids: ZSet<Cid>, blocks: map<Cid, DagBlock>, live: map<(ProjectId, SpanId), StoredSpan>,
      projectId: ProjectId, spans: map<int, SpanId>, fromHeight: int, toHeight: int, m: map<Option<Cid>, FetchedBlock>)
    requires Collect(Visits(cids, blocks, live, projectId, spans, fromHeight, toHeight)) == Ok(m)
    ensures forall h :: fromHeight <= h <= toHeight ==> CidAt(cids, h) in m
  {
    var v := Visits(cids, blocks, live, projectId, spans, fromHeight, toHeight);
    VisitsKeys(cids, blocks, live, projectId, spans, fromHeight, toHeight);
    CollectKeys(v, m);
    forall h | fromHeight <= h <= toHeight
      ensures CidAt(cids, h) in m
    {
      assert v[toHeight - h].0 == CidAt(cids, h);
    }
  }

  /** Every key of a successful fetch is the cid indexed at some height of from..to. */
  lemma FetchKeysFromRange(cids: ZSet<Cid>, blocks: map<Cid, DagBlock>, live: map<(ProjectId, SpanId), StoredSpan>,
      projectId: ProjectId, spans: map<int, SpanId>, fromHeight: int, toHeight: int, m: map<Option<Cid>, FetchedBlock>)
    requires Collect(Visits(cids, blocks, live, projectId, spans, fromHeight, toHeight)) == Ok(m)
    ensures forall k :: k in m ==> exists h :: fromHeight <= h <= toHeight && CidAt(cids, h) == k
  {
    var v := Visits(cids, blocks, live, projectId, spans, fromHeight, toHeight);
    VisitsKeys(cids, blocks, live, projectId, spans, fromHeight, toHeight);
    CollectKeys(v, m);
    forall k | k in m
      ensures exists h :: fromHeight <= h <= toHeight && CidAt(cids, h) == k
    {
      var i :| 0 <= i < |v| && v[i].0 == k;
      assert CidAt(cids, toHeight - i) == k;
    }
  }

  /** In a successful fetch, a cid indexed at no lower height of the range holds the
      read made at its height: the descending loop visits the lowest height last. */
  lemma FetchLowestWins(cids: ZSet<Cid>, blocks: map<Cid, DagBlock>, live: map<(ProjectId, SpanId), StoredSpan>,
      projectId: ProjectId, spans: map<int, SpanId>, fromHeight: int, toHeight: int, m: map<Option<Cid>, FetchedBlock>, h: int)
    requires Collect(Visits(cids, blocks, live, projectId, spans, fromHeight, toHeight)) == Ok(m)
    requires fromHeight <= h <= toHeight
    requires forall g :: fromHeight <= g < h ==> CidAt(cids, g) != CidAt(cids, h)
    ensures CidAt(cids, h) in m && Ok(m[CidAt(cids, h)]) == FetchEntry(cids, blocks, live, projectId, spans, h)
  {
    var v := Visits(cids, blocks, live, projectId, spans, fromHeight, toHeight);
    var i := toHeight - h;
    VisitKeyAt(cids, blocks, live, projectId, spans, fromHeight, toHeight, i);
    VisitReadAt(cids, blocks, live, projectId, spans, fromHeight, toHeight, i);
    forall j | i < j < |v|
      ensures v[j].0 != v[i].0
    {
      VisitKeyAt(cids, blocks, live, projectId, spans, fromHeight, toHeight, j);
    }
    CollectLastVisit(v, m, i);
  }


  /** The loop step at height `cur`, with heights above it read into `m`: a raising
      read ends the whole fetch with its error; otherwise its cid is set. */
  lemma FetchStep(cids: ZSet<Cid>, blocks: map<Cid, DagBlock>, live: map<(ProjectId, SpanId), StoredSpan>,
      projectId: ProjectId, spans: map<int, SpanId>, fromHeight: int, cur: int, toHeight: int, m: map<Option<Cid>, FetchedBlock>)
    requires fromHeight <= cur <= toHeight
    requires Collect(Visits(cids, blocks, live, projectId, spans, cur + 1, toHeight)) == Ok(m)
    ensures var read := FetchEntry(cids, blocks, live, projectId, spans, cur);
            && (read.Raised? ==> Collect(Visits(cids, blocks, live, projectId, spans, fromHeight, toHeight)) == Raised(read.reason))
            && (read.Ok? ==> Collect(Visits(cids, blocks, live, projectId, spans, cur, toHeight)) == Ok(m[CidAt(cids, cur) := read.value]))
  {
    var upper := Visits(cids, blocks, live, projectId, spans, cur + 1, toHeight);
    var read := FetchEntry(cids, blocks, live, projectId, spans, cur);
    CollectStep(upper, m, CidAt(cids, cur), read);
    if read.Raised? {
      var visited := Visits(cids, blocks, live, projectId, spans, cur, toHeight);
      VisitsSplit(cids, blocks, live, projectId, spans, fromHeight, cur, toHeight);
      CollectRaisedStays(visited, Visits(cids, blocks, live, projectId, spans, fromHeight, cur - 1));
    }
  }

  /** One iteration of the `fetch_blocks` loop: reads height `h` from the span the
      per-height map names, or else from the content store by its indexed cid. */
  method FetchHeight(store: IndexStore, content: ContentStore, cids: ZSet<Cid>, projectId: ProjectId,
                     spans: map<int, SpanId>, h: int)
    returns (r: Outcome<FetchedBlock>)
    ensures r == FetchEntry(cids, content.blocks, store.liveSpans, projectId, spans, h)
  {
    if h !in spans {
      return Ok(Stored(content.Get(CidAt(cids, h))));
    }
    var fetched := FetchFromSpan(store, h, h, spans[h], projectId);
    SpanBlockIsSlice(LiveSpan(store.liveSpans, projectId, spans[h]), h);
    if fetched.Failed? {
      return Raised(fetched.reason);
    }
    return Ok(FromSpan(fetched));
  }

  /** `fetch_blocks`: runs the overlap check, then visits heights from `to` down to
      `from`, reading each from its covering span or else from the content store. */
  method FetchBlocks(store: IndexStore, content: ContentStore, fromHeight: int, toHeight: int,
                     projectId: ProjectId, spanKeys: seq<SpanId>)
    returns (r: Outcome<map<Option<Cid>, FetchedBlock>>)
    ensures r == Collect(Visits(Of(store.dagCids, projectId), content.blocks, store.liveSpans, projectId,
                                CoverSpans(fromHeight, toHeight, store.liveSpans, projectId, spanKeys), fromHeight, toHeight))
  {
    var _, _, eachHeightSpans := CheckOverlap(store, fromHeight, toHeight, projectId, spanKeys);
    r := FetchDescending(store, content, fromHeight, toHeight, projectId, eachHeightSpans);
  }

  /** The loop of `fetch_blocks`: heights from `to` down to `from`, each read with
      `FetchHeight` and stored under its indexed cid. */
  method FetchDescending(store: IndexStore, content: ContentStore, fromHeight: int, toHeight: int,
                         projectId: ProjectId, eachHeightSpans: map<int, SpanId>)
    returns (r: Outcome<map<Option<Cid>, FetchedBlock>>)
    ensures r == Collect(Visits(Of(store.dagCids, projectId), content.blocks, store.liveSpans, projectId,
                                eachHeightSpans, fromHeight, toHeight))
  {
    var cids := Of(store.dagCids, projectId);
    var currentHeight := toHeight;
    var dagBlocks: map<Option<Cid>, FetchedBlock> := map[];
    while currentHeight >= fromHeight
      invariant currentHeight <= toHeight
      invariant fromHeight <= toHeight ==> fromHeight - 1 <= currentHeight
      invariant toHeight < fromHeight ==> currentHeight == toHeight
      invariant Collect(Visits(cids, content.blocks, store.liveSpans, projectId, eachHeightSpans, currentHeight + 1, toHeight)) == Ok(dagBlocks)
      decreases currentHeight - fromHeight
    {
      var dagCid := CidAt(cids, currentHeight);
      var dagBlock := FetchHeight(store, content, cids, projectId, eachHeightSpans, currentHeight);
      FetchStep(cids, content.blocks, store.liveSpans, projectId, eachHeightSpans, fromHeight, currentHeight, toHeight, dagBlocks);
      if dagBlock.Raised? {
        return Raised(dagBlock.reason);
      }
      dagBlocks := dagBlocks[dagCid := dagBlock.value];
      currentHeight := currentHeight - 1;
    }
    assert Visits(cids, content.blocks, store.liveSpans, projectId, eachHeightSpans, currentHeight + 1, toHeight)
        == Visits(cids, content.blocks, store.liveSpans, projectId, eachHeightSpans, fromHeight, toHeight);
    return Ok(dagBlocks);
  }


  // ---------------------------------------------------------------------------
  // Containers

  /** The containers `get_container_id` considers for height `h`: those created at
      heights within 2 * containerHeight + 1 of it, in Redis order. */
  function ContainerWindow(created: ZSet<ContainerId>, h: int, containerHeight: int): seq<(ContainerId, int)>
  {
    RangeByScore(created, h - containerHeight * 2 - 1, containerHeight * 2 + h + 1)
  }

  /** The container's hash exists and holds decodable bloom filter settings. */
  predicate Readable(data: map<ContainerId, ContainerRecord>, id: ContainerId)
  {
    id in data && data[id].bloomSettings.Some?
  }

  /** The container's bloom filter reports `cid`. */
  predicate Matches(data: map<ContainerId, ContainerRecord>, id: ContainerId, cid: Cid)
  {
    Readable(data, id) && Reports(data[id].bloomSettings.value, cid)
  }

  /** The scan from position i: the index of the first container whose filter reports
      `cid`, None when none does, or the error a container without readable settings
      raises before that. */
  function FirstMatch(targets: seq<(ContainerId, int)>, data: map<ContainerId, ContainerRecord>, cid: Cid, i: nat)
    : (r: Outcome<Option<nat>>)
    requires i <= |targets|
    ensures r.Ok? && r.value.Some? ==>
      && i <= r.value.value < |targets|
      && Matches(data, targets[r.value.value].0, cid)
      && forall j :: i <= j < r.value.value ==> Readable(data, targets[j].0) && !Matches(data, targets[j].0, cid)
    ensures r.Ok? && r.value.None? ==>
      forall j :: i <= j < |targets| ==> Readable(data, targets[j].0) && !Matches(data, targets[j].0, cid)
    ensures r.Raised? ==> exists j :: i <= j < |targets| && !Readable(data, targets[j].0)
    decreases |targets| - i
  {
    if i == |targets| then Ok(None)
    else if !Readable(data, targets[i].0) then Raised("KeyError")
    else if Matches(data, targets[i].0, cid) then Ok(Some(i))
    else FirstMatch(targets, data, cid, i + 1)
  }

  /** Reference definition of `get_container_id`: the first container whose filter
      reports the cid, else the last one scanned, with its fields; None and no
      fields when there is nothing to scan. */
  function ContainerFor(targets: seq<(ContainerId, int)>, data: map<ContainerId, ContainerRecord>, cid: Cid)
    : Outcome<(Option<ContainerId>, map<string, string>)>
  {
    if |targets| == 0 then Ok((None, map[]))
    else
      var first := FirstMatch(targets, data, cid, 0);
      if first.Raised? then Raised(first.reason)
      else
        var chosen := if first.value.Some? then targets[first.value.value].0 else targets[|targets| - 1].0;
        Ok((Some(chosen), data[chosen].fields))
  }

  /** The container chosen lies in the window; there is none only for an empty window;
      and whenever some container in the window reports the cid, the chosen one does. */
  lemma ContainerChoice(created: ZSet<ContainerId>, h: int, containerHeight: int,
      data: map<ContainerId, ContainerRecord>, cid: Cid)
    requires ContainerFor(ContainerWindow(created, h, containerHeight), data, cid).Ok?
    ensures var targets := ContainerWindow(created, h, containerHeight);
            var (id, fields) := ContainerFor(targets, data, cid).value;
            && (id.None? <==> |targets| == 0)
            && (id.Some? ==>
                  && id.value in created
                  && h - containerHeight * 2 - 1 <= created[id.value] <= containerHeight * 2 + h + 1
                  && id.value in data && fields == data[id.value].fields)
            && ((exists j :: 0 <= j < |targets| && Matches(data, targets[j].0, cid)) ==>
                  id.Some? && Matches(data, id.value, cid))
  {
    var targets := ContainerWindow(created, h, containerHeight);
    if |targets| > 0 {
      var first := FirstMatch(targets, data, cid, 0);
      if first.value.None? {
        assert Readable(data, targets[|targets| - 1].0);
      }
    }
  }

  /** `get_container_id`: scans the window in order, reading each container's bloom
      filter, and stops at the first that reports the cid; the loop variable keeps
      the last container scanned. */
  method GetContainerId(store: IndexStore, dagBlockHeight: int, dagCid: Cid, projectId: ProjectId, containerHeight: int)
    returns (r: Outcome<(Option<ContainerId>, map<string, string>)>)
    ensures r == ContainerFor(ContainerWindow(Of(store.containersCreated, projectId), dagBlockHeight, containerHeight),
                              store.containerData, dagCid)
  {
    var targets := ContainerWindow(Of(store.containersCreated, projectId), dagBlockHeight, containerHeight);
    r := ScanContainers(targets, store.containerData, dagCid);
  }

  /** The loop of `get_container_id` over the containers of the window. */
  method ScanContainers(targets: seq<(ContainerId, int)>, data: map<ContainerId, ContainerRecord>, dagCid: Cid)
    returns (r: Outcome<(Option<ContainerId>, map<string, string>)>)
    ensures r == ContainerFor(targets, data, dagCid)
  {
    var containerId: Option<ContainerId> := None;
    var containerData: map<string, string> := map[];
    var i := 0;
    while i < |targets|
      invariant 0 <= i <= |targets|
      invariant forall j :: 0 <= j < i ==> Readable(data, targets[j].0) && !Matches(data, targets[j].0, dagCid)
      invariant FirstMatch(targets, data, dagCid, i) == FirstMatch(targets, data, dagCid, 0)
      invariant i == 0 ==> containerId == None && containerData == map[]
      invariant i > 0 ==> containerId == Some(targets[i - 1].0) && containerData == data[targets[i - 1].0].fields
    {
      var id := targets[i].0;
      if id !in data || data[id].bloomSettings.None? {
        return Raised("KeyError");
      }
      containerId := Some(id);
      containerData := data[id].fields;
      if Reports(data[id].bloomSettings.value, dagCid) {
        return Ok((containerId, containerData));
      }
      i := i + 1;
    }
    return Ok((containerId, containerData));
  }

  /** The cached-container key a container id is checked under; `check_container_cached` formats a
      missing id as the text "None". */
  function CachedKey(id: Option<ContainerId>): ContainerId
  {
    if id.Some? then id.value else "None"
  }

  /** `check_container_cached`: whether the cached-container key exists. */
  predicate CheckContainerCached(cached: set<ContainerId>, id: Option<ContainerId>)
  {
    CachedKey(id) in cached
  }

  /** A chain height needs a container: it is at or below the last pruned height and
      no span covers it. */
  predicate NeedsContainer(h: int, lastPrunedHeight: int, spans: map<int, SpanId>)
  {
    !(h > lastPrunedHeight || h in spans)
  }

  /** How many listed heights need a container. */
  function CountNeeding(entries: seq<(Cid, int)>, lastPrunedHeight: int, spans: map<int, SpanId>): nat
    decreases |entries|
  {
    if |entries| == 0 then 0
    else CountNeeding(entries[..|entries| - 1], lastPrunedHeight, spans)
         + (if NeedsContainer(entries[|entries| - 1].1, lastPrunedHeight, spans) then 1 else 0)
  }

  type Lookup = Option<Outcome<(Option<ContainerId>, map<string, string>, bool)>>
  type Required = seq<map<Option<ContainerId>, map<string, string>>>

  /** What `check_containers` looks up for one (cid, height) entry: nothing for a
      height that needs no container; otherwise the container `get_container_id`
      finds, its fields and whether it is cached, or the error the lookup raises. */
  function ContainerLookup(entry: (Cid, int), created: ZSet<ContainerId>, data: map<ContainerId, ContainerRecord>,
                           cached: set<ContainerId>, spans: map<int, SpanId>, lastPrunedHeight: int, containerHeight: int)
    : Lookup
  {
    if !NeedsContainer(entry.1, lastPrunedHeight, spans) then None
    else
      var found := ContainerFor(ContainerWindow(created, entry.1, containerHeight), data, entry.0);
      if found.Raised? then Some(Raised(found.reason))
      else Some(Ok((found.value.0, found.value.1, CheckContainerCached(cached, found.value.0))))
  }

  /** The lookups for `entries`, in order. */
  function ContainerLookups(entries: seq<(Cid, int)>, created: ZSet<ContainerId>, data: map<ContainerId, ContainerRecord>,
                            cached: set<ContainerId>, spans: map<int, SpanId>, lastPrunedHeight: int, containerHeight: int)
    : (r: seq<Lookup>)
    ensures |r| == |entries|
    decreases |entries|
  {
    if |entries| == 0 then []
    else ContainerLookups(entries[..|entries| - 1], created, data, cached, spans, lastPrunedHeight, containerHeight)
         + [ContainerLookup(entries[|entries| - 1], created, data, cached, spans, lastPrunedHeight, containerHeight)]
  }

  /** Lookup i is the one for entry i. */
  lemma {:induction false} ContainerLookupsAt(entries: seq<(Cid, int)>, created: ZSet<ContainerId>,
      data: map<ContainerId, ContainerRecord>, cached: set<ContainerId>, spans: map<int, SpanId>,
      lastPrunedHeight: int, containerHeight: int, i: int)
    requires 0 <= i < |entries|
    ensures ContainerLookups(entries, created, data, cached, spans, lastPrunedHeight, containerHeight)[i]
         == ContainerLookup(entries[i], created, data, cached, spans, lastPrunedHeight, containerHeight)
    decreases |entries|
  {
    var n := |entries| - 1;
    if i < n {
      ContainerLookupsAt(entries[..n], created, data, cached, spans, lastPrunedHeight, containerHeight, i);
    }
  }

  /** The lookups of a prefix of the entries are a prefix of the lookups. */
  lemma {:induction false} ContainerLookupsPrefix(entries: seq<(Cid, int)>, created: ZSet<ContainerId>,
      data: map<ContainerId, ContainerRecord>, cached: set<ContainerId>, spans: map<int, SpanId>,
      lastPrunedHeight: int, containerHeight: int, k: int)
    requires 0 <= k <= |entries|
    ensures ContainerLookups(entries[..k], created, data, cached, spans, lastPrunedHeight, containerHeight)
         == ContainerLookups(entries, created, data, cached, spans, lastPrunedHeight, containerHeight)[..k]
    decreases |entries|
  {
    if k < |entries| {
      var n := |entries| - 1;
      ContainerLookupsPrefix(entries[..n], created, data, cached, spans, lastPrunedHeight, containerHeight, k);
      assert entries[..n][..k] == entries[..k];
    } else {
      assert entries[..k] == entries;
    }
  }

  /** Exactly the entries whose height needs a container are looked up. */
  lemma {:induction false} LookupsNeeding(entries: seq<(Cid, int)>, created: ZSet<ContainerId>,
      data: map<ContainerId, ContainerRecord>, cached: set<ContainerId>, spans: map<int, SpanId>,
      lastPrunedHeight: int, containerHeight: int)
    ensures Found(ContainerLookups(entries, created, data, cached, spans, lastPrunedHeight, containerHeight))
         == CountNeeding(entries, lastPrunedHeight, spans)
    decreases |entries|
  {
    if |entries| > 0 {
      var n := |entries| - 1;
      LookupsNeeding(entries[..n], created, data, cached, spans, lastPrunedHeight, containerHeight);
      var lookups := ContainerLookups(entries, created, data, cached, spans, lastPrunedHeight, containerHeight);
      assert lookups[..n] == ContainerLookups(entries[..n], created, data, cached, spans, lastPrunedHeight, containerHeight);
    }
  }

  /** One single-container entry per height that needs a container, each entry's
      container recorded in `isCached`, and `isCached` true exactly for the containers
      whose cached key exists. */
  lemma ContainersRequired(entries: seq<(Cid, int)>, created: ZSet<ContainerId>,
      data: map<ContainerId, ContainerRecord>, cached: set<ContainerId>, spans: map<int, SpanId>,
      lastPrunedHeight: int, containerHeight: int, required: Required, isCached: map<Option<ContainerId>, bool>)
    requires Gather(ContainerLookups(entries, created, data, cached, spans, lastPrunedHeight, containerHeight)) == Ok((required, isCached))
    ensures |required| == CountNeeding(entries, lastPrunedHeight, spans)
    ensures forall j :: 0 <= j < |required| ==> |required[j].Keys| == 1 && required[j].Keys <= isCached.Keys
    ensures forall id :: id in isCached ==> (isCached[id] <==> CachedKey(id) in cached)
  {
    var lookups := ContainerLookups(entries, created, data, cached, spans, lastPrunedHeight, containerHeight);
    GatherShape(lookups, required, isCached);
    LookupsNeeding(entries, created, data, cached, spans, lastPrunedHeight, containerHeight);
    forall id | id in isCached
      ensures isCached[id] <==> CachedKey(id) in cached
    {
      var i :| FoundAt(lookups, i, id, isCached[id]);
      ContainerLookupsAt(entries, created, data, cached, spans, lastPrunedHeight, containerHeight, i);
    }
  }

  /** The lookup of one `check_containers` iteration, for the entry (cid, height). */
  method LookupEntry(store: IndexStore, projectId: ProjectId, entry: (Cid, int),
                     lastPrunedHeight: int, eachHeightSpans: map<int, SpanId>, containerHeight: int)
    returns (r: Lookup)
    ensures r == ContainerLookup(entry, Of(store.containersCreated, projectId), store.containerData, store.cachedContainers,
                                 eachHeightSpans, lastPrunedHeight, containerHeight)
  {
    var (dagCid, dagBlockHeight) := entry;
    if dagBlockHeight > lastPrunedHeight || dagBlockHeight in eachHeightSpans {
      return None;
    }
    var found := GetContainerId(store, dagBlockHeight, dagCid, projectId, containerHeight);
    if found.Raised? {
      return Some(Raised(found.reason));
    }
    var (containerId, containerData) := found.value;
    return Some(Ok((containerId, containerData, CheckContainerCached(store.cachedContainers, containerId))));
  }

  /** One iteration of `check_containers`, stated on the lookups: a raised lookup
      decides the whole result, any other extends the prefix's gather by one step. */
  lemma LookupStep(entries: seq<(Cid, int)>, created: ZSet<ContainerId>,
      data: map<ContainerId, ContainerRecord>, cached: set<ContainerId>, spans: map<int, SpanId>,
      lastPrunedHeight: int, containerHeight: int, i: int, acc: (Required, map<Option<ContainerId>, bool>), x: Lookup)
    requires 0 <= i < |entries|
    requires x == ContainerLookup(entries[i], created, data, cached, spans, lastPrunedHeight, containerHeight)
    requires Gather(ContainerLookups(entries[..i], created, data, cached, spans, lastPrunedHeight, containerHeight)) == Ok(acc)
    ensures x.Some? && x.value.Raised? ==>
      Gather(ContainerLookups(entries, created, data, cached, spans, lastPrunedHeight, containerHeight)) == Raised(x.value.reason)
    ensures x.None? ==>
      Gather(ContainerLookups(entries[..i + 1], created, data, cached, spans, lastPrunedHeight, containerHeight)) == Ok(acc)
    ensures x.Some? && x.value.Ok? ==>
      Gather(ContainerLookups(entries[..i + 1], created, data, cached, spans, lastPrunedHeight, containerHeight))
        == Ok((acc.0 + [map[x.value.value.0 := x.value.value.1]], acc.1[x.value.value.0 := x.value.value.2]))
  {
    var all := ContainerLookups(entries, created, data, cached, spans, lastPrunedHeight, containerHeight);
    ContainerLookupsPrefix(entries, created, data, cached, spans, lastPrunedHeight, containerHeight, i);
    ContainerLookupsPrefix(entries, created, data, cached, spans, lastPrunedHeight, containerHeight, i + 1);
    ContainerLookupsAt(entries, created, data, cached, spans, lastPrunedHeight, containerHeight, i);
    GatherAdvance(all, i, acc);
    if x.Some? && x.value.Raised? {
      GatherRaisedPrefix(all, i + 1);
    }
  }

  /** `check_containers`: for each chain cid in [from, to] whose height needs a
      container, looks the container up, appends {id: fields} and records whether
      it is cached. `lastPrunedHeight` is read by the caller. */
  method CheckContainers(store: IndexStore, fromHeight: int, toHeight: int, projectId: ProjectId,
                         lastPrunedHeight: int, eachHeightSpans: map<int, SpanId>, containerHeight: int)
    returns (r: Outcome<(Required, map<Option<ContainerId>, bool>)>)
    ensures r == Gather(ContainerLookups(RangeByScore(Of(store.dagCids, projectId), fromHeight, toHeight),
                                         Of(store.containersCreated, projectId), store.containerData, store.cachedContainers,
                                         eachHeightSpans, lastPrunedHeight, containerHeight))
  {
    var out := RangeByScore(Of(store.dagCids, projectId), fromHeight, toHeight);
    r := LookupAll(store, projectId, out, lastPrunedHeight, eachHeightSpans, containerHeight);
  }

  /** The loop of `check_containers` over the listed (cid, height) entries. */
  method LookupAll(store: IndexStore, projectId: ProjectId, out: seq<(Cid, int)>,
                   lastPrunedHeight: int, eachHeightSpans: map<int, SpanId>, containerHeight: int)
    returns (r: Outcome<(Required, map<Option<ContainerId>, bool>)>)
    ensures r == Gather(ContainerLookups(out, Of(store.containersCreated, projectId), store.containerData, store.cachedContainers,
                                         eachHeightSpans, lastPrunedHeight, containerHeight))
  {
    ghost var created := Of(store.containersCreated, projectId);
    var containersRequired: Required := [];
    var cached: map<Option<ContainerId>, bool> := map[];
    var i := 0;
    while i < |out|
      invariant 0 <= i <= |out|
      invariant Gather(ContainerLookups(out[..i], created, store.containerData, store.cachedContainers,
                                        eachHeightSpans, lastPrunedHeight, containerHeight)) == Ok((containersRequired, cached))
    {
      var found := LookupEntry(store, projectId, out[i], lastPrunedHeight, eachHeightSpans, containerHeight);
      LookupStep(out, created, store.containerData, store.cachedContainers, eachHeightSpans, lastPrunedHeight,
                 containerHeight, i, (containersRequired, cached), found);
      if found.Some? {
        if found.value.Raised? {
          return Raised(found.value.reason);
        }
        var (containerId, containerData, isCached) := found.value.value;
        containersRequired := containersRequired + [map[containerId := containerData]];
        cached := cached[containerId := isCached];
      }
      i := i + 1;
    }
    assert out[..i] == out;
    return Ok((containersRequired, cached));
  }
}
