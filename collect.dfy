/** The dict a loop fills from visited (key, read) pairs, where a read may raise. */
module Collecting {
  import opened Wrappers

  /** The dict a loop builds from visited (key, read) pairs: the first failed read
      ends it with that error, and a later visit overwrites an equal key. */
  function Collect<K, V>(visits: seq<(K, Outcome<V>)>): Outcome<map<K, V>>
    decreases |visits|
  {
    if |visits| == 0 then Ok(map[])
    else
      var prev := Collect(visits[..|visits| - 1]);
      var (k, read) := visits[|visits| - 1];
      if prev.Raised? then prev
      else if read.Raised? then Raised(read.reason)
      else Ok(prev.value[k := read.value])
  }

  /** Collecting succeeds exactly when every read does. */
  lemma {:induction false} CollectOk<K, V>(visits: seq<(K, Outcome<V>)>)
    ensures Collect(visits).Ok? <==> forall i :: 0 <= i < |visits| ==> visits[i].1.Ok?
    decreases |visits|
  {
    if |visits| > 0 {
      var n := |visits| - 1;
      CollectOk(visits[..n]);
      assert forall i :: 0 <= i < n ==> visits[..n][i] == visits[i];
    }
  }

  /** A collected dict has exactly the visited keys. */
  lemma {:induction false} CollectKeys<K, V>(visits: seq<(K, Outcome<V>)>, m: map<K, V>)
    requires Collect(visits) == Ok(m)
    ensures forall i :: 0 <= i < |visits| ==> visits[i].0 in m
    ensures forall k :: k in m ==> exists i :: 0 <= i < |visits| && visits[i].0 == k
    decreases |visits|
  {
    if |visits| > 0 {
      var n := |visits| - 1;
      var prefix := visits[..n];
      var before := Collect(prefix).value;
      CollectKeys(prefix, before);
      assert forall i :: 0 <= i < n ==> prefix[i] == visits[i];
      assert m == before[visits[n].0 := visits[n].1.value];
      forall k | k in m
        ensures exists i :: 0 <= i < |visits| && visits[i].0 == k
      {
        if k != visits[n].0 {
          var i :| 0 <= i < n && prefix[i].0 == k;
          assert visits[i].0 == k;
        }
      }
    }
  }

  /** A key holds the read of its last visit. */
  lemma {:induction false} CollectLastVisit<K, V>(visits: seq<(K, Outcome<V>)>, m: map<K, V>, i: int)
    requires Collect(visits) == Ok(m)
    requires 0 <= i < |visits|
    requires forall j :: i < j < |visits| ==> visits[j].0 != visits[i].0
    ensures visits[i].0 in m && Ok(m[visits[i].0]) == visits[i].1
    decreases |visits|
  {
    var n := |visits| - 1;
    var prefix := visits[..n];
    var before := Collect(prefix).value;
    assert m == before[visits[n].0 := visits[n].1.value];
    if i < n {
      assert prefix[i] == visits[i];
      forall j | i < j < n
        ensures prefix[j].0 != prefix[i].0
      {
        assert prefix[j] == visits[j];
      }
      CollectLastVisit(prefix, before, i);
    }
  }


  /** Once a read has raised, later visits change nothing: the loop has returned. */
  lemma {:induction false} CollectRaisedStays<K, V>(visits: seq<(K, Outcome<V>)>, later: seq<(K, Outcome<V>)>)
    requires Collect(visits).Raised?
    ensures Collect(visits + later) == Collect(visits)
    decreases |later|
  {
    if |later| > 0 {
      var n := |later| - 1;
      CollectRaisedStays(visits, later[..n]);
      assert (visits + later)[..|visits + later| - 1] == visits + later[..n];
    } else {
      assert visits + later == visits;
    }
  }

  /** One more visit after a successful prefix: its read raises, or its key is set. */
  lemma CollectStep<K, V>(visits: seq<(K, Outcome<V>)>, m: map<K, V>, k: K, read: Outcome<V>)
    requires Collect(visits) == Ok(m)
    ensures Collect(visits + [(k, read)]) == if read.Raised? then Raised(read.reason) else Ok(m[k := read.value])
  {
    assert (visits + [(k, read)])[..|visits|] == visits;
  }

  /** The list and dict a loop builds from per-entry lookups: a skipped entry (None)
      changes nothing, the first lookup that raises ends the loop with its error, and
      a found (key, value, flag) appends {key: value} and sets the key's flag. */
  function Gather<K, V>(lookups: seq<Option<Outcome<(K, V, bool)>>>): Outcome<(seq<map<K, V>>, map<K, bool>)>
    decreases |lookups|
  {
    if |lookups| == 0 then Ok(([], map[]))
    else
      var prev := Gather(lookups[..|lookups| - 1]);
      var x := lookups[|lookups| - 1];
      if prev.Raised? || x.None? then prev
      else if x.value.Raised? then Raised(x.value.reason)
      else
        var (k, v, flag) := x.value.value;
        Ok((prev.value.0 + [map[k := v]], prev.value.1[k := flag]))
  }

  /** How many entries were not skipped. */
  function Found<T>(lookups: seq<Option<T>>): nat
    decreases |lookups|
  {
    if |lookups| == 0 then 0
    else Found(lookups[..|lookups| - 1]) + (if lookups[|lookups| - 1].Some? then 1 else 0)
  }

  /** Lookup `i` found `k` with flag `flag`. */
  predicate FoundAt<K(==), V>(lookups: seq<Option<Outcome<(K, V, bool)>>>, i: int, k: K, flag: bool)
  {
    0 <= i < |lookups| && lookups[i].Some? && lookups[i].value.Ok?
    && lookups[i].value.value.0 == k && lookups[i].value.value.2 == flag
  }

  /** What one lookup does to the list and dict built so far. */
  function GatherNext<K, V>(acc: (seq<map<K, V>>, map<K, bool>), x: Option<Outcome<(K, V, bool)>>)
    : Outcome<(seq<map<K, V>>, map<K, bool>)>
  {
    if x.None? then Ok(acc)
    else if x.value.Raised? then Raised(x.value.reason)
    else Ok((acc.0 + [map[x.value.value.0 := x.value.value.1]], acc.1[x.value.value.0 := x.value.value.2]))
  }

  /** One more lookup after a successful prefix. */
  lemma GatherStep<K, V>(lookups: seq<Option<Outcome<(K, V, bool)>>>, acc: (seq<map<K, V>>, map<K, bool>),
                         x: Option<Outcome<(K, V, bool)>>)
    requires Gather(lookups) == Ok(acc)
    ensures Gather(lookups + [x]) == GatherNext(acc, x)
  {
    assert (lookups + [x])[..|lookups|] == lookups;
  }

  /** One step of a loop over all the lookups: the gather of the next prefix. */
  lemma GatherAdvance<K, V>(all: seq<Option<Outcome<(K, V, bool)>>>, i: int, acc: (seq<map<K, V>>, map<K, bool>))
    requires 0 <= i < |all|
    requires Gather(all[..i]) == Ok(acc)
    ensures Gather(all[..i + 1]) == GatherNext(acc, all[i])
  {
    assert all[..i + 1] == all[..i] + [all[i]];
    GatherStep(all[..i], acc, all[i]);
  }

  /** A prefix that raised decides the gather of the whole sequence. */
  lemma GatherRaisedPrefix<K, V>(all: seq<Option<Outcome<(K, V, bool)>>>, n: int)
    requires 0 <= n <= |all|
    requires Gather(all[..n]).Raised?
    ensures Gather(all) == Gather(all[..n])
  {
    GatherRaisedStays(all[..n], all[n..]);
    assert all[..n] + all[n..] == all;
  }

  /** Once a lookup has raised, later entries change nothing. */
  lemma {:induction false} GatherRaisedStays<K, V>(lookups: seq<Option<Outcome<(K, V, bool)>>>,
                                                   later: seq<Option<Outcome<(K, V, bool)>>>)
    requires Gather(lookups).Raised?
    ensures Gather(lookups + later) == Gather(lookups)
    decreases |later|
  {
    if |later| > 0 {
      var n := |later| - 1;
      GatherRaisedStays(lookups, later[..n]);
      assert (lookups + later)[..|lookups + later| - 1] == lookups + later[..n];
    } else {
      assert lookups + later == lookups;
    }
  }

  /** A successful gather appends one single-key dict per entry not skipped, each
      key flagged, and every flag is the one some lookup found for its key. */
  lemma {:induction false} GatherShape<K, V>(lookups: seq<Option<Outcome<(K, V, bool)>>>,
                                             list: seq<map<K, V>>, flags: map<K, bool>)
    requires Gather(lookups) == Ok((list, flags))
    ensures |list| == Found(lookups)
    ensures forall j :: 0 <= j < |list| ==> |list[j].Keys| == 1 && list[j].Keys <= flags.Keys
    ensures forall k :: k in flags ==> exists i :: FoundAt(lookups, i, k, flags[k])
    decreases |lookups|
  {
    if |lookups| > 0 {
      var n := |lookups| - 1;
      var prefix := lookups[..n];
      var prev := Gather(prefix).value;
      GatherShape(prefix, prev.0, prev.1);
      forall i, k, flag | FoundAt(prefix, i, k, flag)
        ensures FoundAt(lookups, i, k, flag)
      {
        assert prefix[i] == lookups[i];
      }
      var x := lookups[n];
      if x.Some? {
        var (k, v, flag) := x.value.value;
        assert list == prev.0 + [map[k := v]];
        forall j | 0 <= j < |list|
          ensures |list[j].Keys| == 1 && list[j].Keys <= flags.Keys
        {
          if j < |prev.0| {
            assert list[j] == prev.0[j];
          } else {
            assert list[j].Keys == {k};
          }
        }
        forall k' | k' in flags
          ensures exists i :: FoundAt(lookups, i, k', flags[k'])
        {
          if k' == k {
            assert FoundAt(lookups, n, k, flag);
          }
        }
      }
    }
  }

  // ---------------------------------------------------------------------------
  // All results of a loop that appends each one and stops at the first error

  /** The values of `results` in order, or the first error among them. */
  function AllOk<T>(results: seq<Outcome<T>>): Outcome<seq<T>>
    decreases |results|
  {
    if |results| == 0 then Ok([])
    else
      var prev := AllOk(results[..|results| - 1]);
      var x := results[|results| - 1];
      if prev.Raised? then prev
      else if x.Raised? then Raised(x.reason)
      else Ok(prev.value + [x.value])
  }

  /** The results succeed exactly when each one does, and then list each value at its
      own position. */
  lemma {:induction false} AllOkShape<T>(results: seq<Outcome<T>>)
    ensures AllOk(results).Ok? <==> forall i :: 0 <= i < |results| ==> results[i].Ok?
    ensures AllOk(results).Ok? ==>
              && |AllOk(results).value| == |results|
              && forall i :: 0 <= i < |results| ==> Ok(AllOk(results).value[i]) == results[i]
    decreases |results|
  {
    if |results| > 0 {
      var n := |results| - 1;
      AllOkShape(results[..n]);
      assert forall i :: 0 <= i < n ==> results[..n][i] == results[i];
    }
  }

  /** Once a prefix has failed, later results change nothing. */
  lemma {:induction false} AllOkRaisedStays<T>(results: seq<Outcome<T>>, later: seq<Outcome<T>>)
    requires AllOk(results).Raised?
    ensures AllOk(results + later) == AllOk(results)
    decreases |later|
  {
    if |later| > 0 {
      var n := |later| - 1;
      AllOkRaisedStays(results, later[..n]);
      assert (results + later)[..|results + later| - 1] == results + later[..n];
    } else {
      assert results + later == results;
    }
  }

  /** One more result after a successful prefix. */
  lemma AllOkStep<T>(results: seq<Outcome<T>>, acc: seq<T>, x: Outcome<T>)
    requires AllOk(results) == Ok(acc)
    ensures AllOk(results + [x]) == if x.Raised? then Raised(x.reason) else Ok(acc + [x.value])
  {
    assert (results + [x])[..|results|] == results;
  }

  /** One step of a loop over all the results: the outcome of the next prefix. */
  lemma AllOkAdvance<T>(all: seq<Outcome<T>>, i: int, acc: seq<T>)
    requires 0 <= i < |all|
    requires AllOk(all[..i]) == Ok(acc)
    ensures AllOk(all[..i + 1]) == if all[i].Raised? then Raised(all[i].reason) else Ok(acc + [all[i].value])
  {
    assert all[..i + 1] == all[..i] + [all[i]];
    AllOkStep(all[..i], acc, all[i]);
  }

  /** A prefix that failed decides the outcome of the whole sequence. */
  lemma AllOkRaisedPrefix<T>(all: seq<Outcome<T>>, n: int)
    requires 0 <= n <= |all|
    requires AllOk(all[..n]).Raised?
    ensures AllOk(all) == AllOk(all[..n])
  {
    AllOkRaisedStays(all[..n], all[n..]);
    assert all[..n] + all[n..] == all;
  }
}
