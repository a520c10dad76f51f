/** The daily-stats snapshotter for trading pairs (v2_pairs_daily_stats_snapshotter.py):
    it compares the latest pair-summary snapshot with the one about 24 hours old,
    contract by contract, and records the result in a pruned sorted set. */
module PairsSnapshotter {
  import opened Wrappers
  import opened ZSets
  import opened Decimal
  import opened Collecting

  // ---------------------------------------------------------------------------
  // get_nearest_v2_pair_summary_snapshot

  function Abs(x: int): nat
  {
    if x < 0 then -x else x
  }

  /** The scan of `get_nearest_v2_pair_summary_snapshot` from entry `i`, with the best
      score and value seen so far: an entry scored exactly `exact` is returned at once;
      otherwise an entry replaces the best only when strictly nearer. */
  function NearestFrom(entries: seq<(string, int)>, exact: int, i: nat, bestScore: int, bestValue: string): string
    requires i <= |entries|
    decreases |entries| - i
  {
    if i == |entries| then bestValue
    else if entries[i].1 == exact then entries[i].0
    else if Abs(entries[i].1 - exact) < Abs(bestScore - exact) then
      NearestFrom(entries, exact, i + 1, entries[i].1, entries[i].0)
    else
      NearestFrom(entries, exact, i + 1, bestScore, bestValue)
  }

  /** The whole scan, started from score 0 and the empty value. */
  function Nearest(entries: seq<(string, int)>, exact: int): string
  {
    NearestFrom(entries, exact, 0, 0, "")
  }

  /** An entry scored exactly `exact` before any other such entry decides the scan. */
  lemma {:induction false} NearestFromExact(entries: seq<(string, int)>, exact: int, i: nat, bestScore: int,
                                            bestValue: string, m: int)
    requires i <= m < |entries|
    requires entries[m].1 == exact
    requires forall j :: i <= j < m ==> entries[j].1 != exact
    ensures NearestFrom(entries, exact, i, bestScore, bestValue) == entries[m].0
    decreases |entries| - i
  {
    if i < m {
      if Abs(entries[i].1 - exact) < Abs(bestScore - exact) {
        NearestFromExact(entries, exact, i + 1, entries[i].1, entries[i].0, m);
      } else {
        NearestFromExact(entries, exact, i + 1, bestScore, bestValue, m);
      }
    }
  }

  /** Entry `k` is the first of least distance to `exact` among entries i.. and is
      strictly nearer than `bestScore`. */
  predicate FirstNearest(entries: seq<(string, int)>, exact: int, i: int, bestScore: int, k: int)
  {
    && 0 <= i <= k < |entries|
    && Abs(entries[k].1 - exact) < Abs(bestScore - exact)
    && (forall j :: i <= j < |entries| ==> Abs(entries[j].1 - exact) >= Abs(entries[k].1 - exact))
    && (forall j :: i <= j < k ==> Abs(entries[j].1 - exact) > Abs(entries[k].1 - exact))
  }

  /** With no exact score ahead, the scan keeps the best so far (k = -1) when no later
      entry is strictly nearer, and otherwise returns entry k, the first of least distance. */
  lemma {:induction false} NearestFromChoice(entries: seq<(string, int)>, exact: int, i: nat, bestScore: int,
                                             bestValue: string) returns (k: int)
    requires i <= |entries|
    requires forall j :: i <= j < |entries| ==> entries[j].1 != exact
    ensures k == -1 ==>
              && NearestFrom(entries, exact, i, bestScore, bestValue) == bestValue
              && forall j :: i <= j < |entries| ==> Abs(entries[j].1 - exact) >= Abs(bestScore - exact)
    ensures k != -1 ==>
              && FirstNearest(entries, exact, i, bestScore, k)
              && NearestFrom(entries, exact, i, bestScore, bestValue) == entries[k].0
    decreases |entries| - i
  {
    if i == |entries| {
      return -1;
    }
    var d := Abs(entries[i].1 - exact);
    if d < Abs(bestScore - exact) {
      var k' := NearestFromChoice(entries, exact, i + 1, entries[i].1, entries[i].0);
      k := if k' == -1 then i else k';
    } else {
      k := NearestFromChoice(entries, exact, i + 1, bestScore, bestValue);
    }
  }

  /** What the scan returns: the first entry scored exactly `exact` if there is one;
      otherwise the first entry of least distance to `exact`, provided that distance is
      below |exact| (the distance of the starting score 0), and the empty value when
      no entry is that near. */
  lemma NearestChoice(entries: seq<(string, int)>, exact: int)
    ensures (exists m :: 0 <= m < |entries| && entries[m].1 == exact) ==>
              exists m :: && 0 <= m < |entries| && entries[m].1 == exact && Nearest(entries, exact) == entries[m].0
                          && forall j :: 0 <= j < m ==> entries[j].1 != exact
    ensures (forall j :: 0 <= j < |entries| ==> entries[j].1 != exact) ==>
              || (Nearest(entries, exact) == "" && forall j :: 0 <= j < |entries| ==> Abs(entries[j].1 - exact) >= Abs(exact))
              || (exists k :: FirstNearest(entries, exact, 0, 0, k) && Nearest(entries, exact) == entries[k].0)
  {
    if exists m :: 0 <= m < |entries| && entries[m].1 == exact {
      var m := FirstExact(entries, exact);
      NearestFromExact(entries, exact, 0, 0, "", m);
    } else {
      var k := NearestFromChoice(entries, exact, 0, 0, "");
    }
  }

  /** The position of the first entry scored exactly `exact`. */
  function FirstExact(entries: seq<(string, int)>, exact: int): (m: int)
    requires exists m :: 0 <= m < |entries| && entries[m].1 == exact
    ensures 0 <= m < |entries| && entries[m].1 == exact
    ensures forall j :: 0 <= j < m ==> entries[j].1 != exact
    decreases |entries|
  {
    if entries[0].1 == exact then 0
    else
      assert exists m :: 0 <= m < |entries[1..]| && entries[1..][m].1 == exact by {
        var m :| 0 <= m < |entries| && entries[m].1 == exact;
        assert entries[1..][m - 1] == entries[m];
      }
      1 + FirstExact(entries[1..], exact)
  }

  /** The scan returns the empty value or the value of one of the entries. */
  lemma {:induction false} NearestIsEntry(entries: seq<(string, int)>, exact: int, i: nat, bestScore: int,
                                          bestValue: string)
    requires i <= |entries|
    ensures var r := NearestFrom(entries, exact, i, bestScore, bestValue);
            r == bestValue || exists k :: i <= k < |entries| && r == entries[k].0
    decreases |entries| - i
  {
    if i < |entries| && entries[i].1 != exact {
      if Abs(entries[i].1 - exact) < Abs(bestScore - exact) {
        NearestIsEntry(entries, exact, i + 1, entries[i].1, entries[i].0);
      } else {
        NearestIsEntry(entries, exact, i + 1, bestScore, bestValue);
      }
    }
  }

  /** `get_nearest_v2_pair_summary_snapshot`. */
  method NearestSnapshot(entries: seq<(string, int)>, exactScore: int) returns (r: string)
    ensures r == Nearest(entries, exactScore)
  {
    var nearestScore := 0;
    var nearestValue := "";
    var i := 0;
    while i < |entries|
      invariant 0 <= i <= |entries|
      invariant NearestFrom(entries, exactScore, i, nearestScore, nearestValue) == Nearest(entries, exactScore)
    {
      var (value, score) := entries[i];
      if score == exactScore {
        return value;
      } else if Abs(score - exactScore) < Abs(nearestScore - exactScore) {
        nearestScore := score;
        nearestValue := value;
      }
      i := i + 1;
    }
    return nearestValue;
  }

  // ---------------------------------------------------------------------------
  // v2_pair_data_unpack

  /** `v2_pair_data_unpack`: drops every "US$" and every ",", then parses an integer;
      None where `int(...)` raises. */
  function Unpack(prop: string): Option<int>
  {
    ParseInt(RemoveAll(RemoveAll(prop, "US$"), ","))
  }

  /** A plain decimal integer unpacks to itself, with or without the "US$" prefix. */
  lemma UnpackFormat(n: int)
    ensures Unpack(FormatInt(n)) == Some(n)
    ensures Unpack("US$" + FormatInt(n)) == Some(n)
  {
    var t := FormatInt(n);
    assert forall i :: 0 <= i < |t| ==> t[i] != 'U' && t[i] != ',' by {
      assert t == (if n < 0 then "-" + NatDigits(-n) else NatDigits(n));
    }
    RemoveAllAbsent(t, "US$");
    RemoveAllAbsent(t, ",");
    RemoveAllPrefix("US$", t);
    ParseFormat(n);
  }

  /** The example of a formatted amount. */
  lemma UnpackExample()
    ensures Unpack("US$1,234") == Some(1234)
  {
    DropCurrencyExample();
    DropCommaExample();
    ParseExample();
  }

  lemma DropCurrencyExample()
    ensures RemoveAll("US$1,234", "US$") == "1,234"
  {
    RemoveAllPrefix("US$", "1,234");
    RemoveAllAbsent("1,234", "US$");
  }

  lemma DropCommaExample()
    ensures RemoveAll("1,234", ",") == "1234"
  {
    assert RemoveAll("1,234", ",") == "1" + RemoveAll(",234", ",");
    RemoveAllPrefix(",", "234");
    RemoveAllAbsent("234", ",");
  }

  lemma ParseExample()
    ensures ParseInt("1234") == Some(1234)
  {
    assert NatDigits(1) == "1";
    assert NatDigits(12) == NatDigits(1) + "2";
    assert NatDigits(123) == NatDigits(12) + "3";
    assert NatDigits(1234) == NatDigits(123) + "4";
    assert FormatInt(1234) == "1234";
    ParseFormat(1234);
  }

  // ---------------------------------------------------------------------------
  // link_contract_objs_of_v2_pairs_snapshot

  /** One pair of a summary snapshot: its contract address, the three amounts as
      display text, and the block it was taken at. */
  datatype PairObj = PairObj(contractAddress: string, volume24h: string, liquidity: string, fees24h: string,
                             blockHeight: int, blockTimestamp: int)

  /** The linked entry of one address: its recent object and, if any, its 24h-old one. */
  datatype Linked = Linked(recent: PairObj, earlier: Option<PairObj>)

  /** The last object with the given address. */
  function LastWith(objs: seq<PairObj>, addr: string): (r: Option<PairObj>)
    decreases |objs|
  {
    if |objs| == 0 then None
    else if objs[|objs| - 1].contractAddress == addr then Some(objs[|objs| - 1])
    else LastWith(objs[..|objs| - 1], addr)
  }

  /** `LastWith` finds an object exactly when one has the address, and it is the last. */
  lemma {:induction false} LastWithIsLast(objs: seq<PairObj>, addr: string)
    ensures LastWith(objs, addr).None? <==> forall i :: 0 <= i < |objs| ==> objs[i].contractAddress != addr
    ensures LastWith(objs, addr).Some? ==>
              exists i :: && 0 <= i < |objs| && objs[i] == LastWith(objs, addr).value && objs[i].contractAddress == addr
                          && forall j :: i < j < |objs| ==> objs[j].contractAddress != addr
    decreases |objs|
  {
    if |objs| > 0 {
      var n := |objs| - 1;
      if objs[n].contractAddress == addr {
        assert LastWith(objs, addr) == Some(objs[n]);
      } else {
        LastWithIsLast(objs[..n], addr);
        assert LastWith(objs, addr) == LastWith(objs[..n], addr);
        assert forall i :: 0 <= i < n ==> objs[..n][i] == objs[i];
        if LastWith(objs[..n], addr).Some? {
          var i :| && 0 <= i < n && objs[..n][i] == LastWith(objs[..n], addr).value
                   && objs[..n][i].contractAddress == addr
                   && forall j :: i < j < n ==> objs[..n][j].contractAddress != addr;
          assert objs[i] == LastWith(objs, addr).value;
        }
      }
    }
  }

  /** The dictionary the nested loops build, over the recent objects in order: each
      recent object replaces the entry of its address and takes the last 24h-old object
      sharing that address. */
  function Link(recent: seq<PairObj>, older: seq<PairObj>): map<string, Linked>
    decreases |recent|
  {
    if |recent| == 0 then map[]
    else
      var obj := recent[|recent| - 1];
      Link(recent[..|recent| - 1], older)[obj.contractAddress := Linked(obj, LastWith(older, obj.contractAddress))]
  }

  /** The linked dictionary's keys are exactly the recent addresses; each holds the last
      recent object with that address, and a 24h-old object exactly when one shares the
      address, then the last such. */
  lemma {:induction false} LinkShape(recent: seq<PairObj>, older: seq<PairObj>)
    ensures forall a :: a in Link(recent, older) <==> exists i :: 0 <= i < |recent| && recent[i].contractAddress == a
    ensures forall a :: a in Link(recent, older) ==>
              Some(Link(recent, older)[a].recent) == LastWith(recent, a) && Link(recent, older)[a].earlier == LastWith(older, a)
  {
    LinkKeys(recent, older);
    LinkValues(recent, older);
  }

  /** The linked dictionary's keys are exactly the recent addresses. */
  lemma {:induction false} LinkKeys(recent: seq<PairObj>, older: seq<PairObj>)
    ensures forall a :: a in Link(recent, older) <==> exists i :: 0 <= i < |recent| && recent[i].contractAddress == a
    decreases |recent|
  {
    if |recent| > 0 {
      var n := |recent| - 1;
      LinkKeys(recent[..n], older);
      assert forall i :: 0 <= i < n ==> recent[..n][i] == recent[i];
    }
  }

  /** Each key holds the last recent object and the last 24h-old object with its address. */
  lemma {:induction false} LinkValues(recent: seq<PairObj>, older: seq<PairObj>)
    ensures forall a :: a in Link(recent, older) ==>
              Some(Link(recent, older)[a].recent) == LastWith(recent, a) && Link(recent, older)[a].earlier == LastWith(older, a)
    decreases |recent|
  {
    if |recent| > 0 {
      var n := |recent| - 1;
      LinkValues(recent[..n], older);
      var prev := Link(recent[..n], older);
      var obj := recent[n];
      assert Link(recent, older) == prev[obj.contractAddress := Linked(obj, LastWith(older, obj.contractAddress))];
      forall a | a in Link(recent, older)
        ensures Some(Link(recent, older)[a].recent) == LastWith(recent, a)
      {
        if a != obj.contractAddress {
          assert LastWith(recent, a) == LastWith(recent[..n], a);
        }
      }
    }
  }

  /** The distinct recent addresses in order of first appearance: the order in which
      the Python dictionary holds its keys. */
  function Addresses(recent: seq<PairObj>): seq<string>
    decreases |recent|
  {
    if |recent| == 0 then []
    else
      var prev := Addresses(recent[..|recent| - 1]);
      var a := recent[|recent| - 1].contractAddress;
      if a in prev then prev else prev + [a]
  }

  /** The key order lists every recent address once and nothing else. */
  lemma {:induction false} AddressesShape(recent: seq<PairObj>)
    ensures forall a :: a in Addresses(recent) <==> exists i :: 0 <= i < |recent| && recent[i].contractAddress == a
    ensures forall i, j :: 0 <= i < j < |Addresses(recent)| ==> Addresses(recent)[i] != Addresses(recent)[j]
    decreases |recent|
  {
    if |recent| > 0 {
      var n := |recent| - 1;
      AddressesShape(recent[..n]);
      assert forall i :: 0 <= i < n ==> recent[..n][i] == recent[i];
    }
  }

  /** `link_contract_objs_of_v2_pairs_snapshot`: the dictionary and its key order. */
  method LinkContracts(recent: seq<PairObj>, older: seq<PairObj>) returns (linked: map<string, Linked>, order: seq<string>)
    ensures linked == Link(recent, older)
    ensures order == Addresses(recent)
  {
    linked := map[];
    order := [];
    var i := 0;
    while i < |recent|
      invariant 0 <= i <= |recent|
      invariant linked == Link(recent[..i], older)
      invariant order == Addresses(recent[..i])
    {
      var newObj := recent[i];
      var addr := newObj.contractAddress;
      assert recent[..i + 1][..i] == recent[..i];
      LinkShape(recent[..i], older);
      AddressesShape(recent[..i]);
      if addr !in linked {
        order := order + [addr];
      }
      linked := linked[addr := Linked(newObj, None)];
      var j := 0;
      while j < |older|
        invariant 0 <= j <= |older|
        invariant linked == Link(recent[..i], older)[addr := Linked(newObj, LastWith(older[..j], addr))]
      {
        assert older[..j + 1][..j] == older[..j];
        if addr == older[j].contractAddress {
          linked := linked[addr := linked[addr].(earlier := Some(older[j]))];
        }
        j := j + 1;
      }
      assert older[..j] == older;
      i := i + 1;
    }
    assert recent[..i] == recent;
  }

  // ---------------------------------------------------------------------------
  // Daily stats of one contract

  /** One daily figure: today's value, the value 24 hours earlier, and the change. */
  datatype Stat = Stat(currentValue: int, previousValue: int, change: real)

  datatype DailyStats = DailyStats(contract: string, volume24: Stat, tvl: Stat, fees24: Stat,
                                   blockHeight: int, blockTimestamp: int)

  /** The percentage change, left at 0 when the earlier value is 0. */
  function Change(current: int, previous: int): real
  {
    if previous != 0 then (current - previous) as real / previous as real * 100.0 else 0.0
  }

  /** The change is the inverse of applying a percentage: the earlier value grown by
      the change gives today's value back; with no earlier value the change is 0. */
  lemma ChangeApplies(current: int, previous: int)
    ensures previous != 0 ==> previous as real + previous as real * Change(current, previous) / 100.0 == current as real
    ensures previous == 0 ==> Change(current, previous) == 0.0
  {
    if previous != 0 {
      var p := previous as real;
      var d := (current - previous) as real;
      calc {
        p + p * Change(current, previous) / 100.0;
        p + p * (d / p * 100.0) / 100.0;
        { assert p * (d / p * 100.0) / 100.0 == p * (d / p); }
        p + p * (d / p);
        { assert p * (d / p) == d; }
        p + d;
      }
    }
  }

  /** The daily stats of one linked contract, in the order
      `v2_pairs_daily_stats_snapshotter` reads the amounts; an amount that does not parse raises ValueError, and a contract with
      no 24h-old object raises KeyError when its 24h-old amount is read. */
  function ContractStats(addr: string, l: Linked): Outcome<DailyStats>
  {
    var volNow := Unpack(l.recent.volume24h);
    if volNow.None? then Raised("ValueError")
    else if l.earlier.None? then Raised("KeyError")
    else
      var volThen := Unpack(l.earlier.value.volume24h);
      var tvlNow := Unpack(l.recent.liquidity);
      var tvlThen := Unpack(l.earlier.value.liquidity);
      var feesNow := Unpack(l.recent.fees24h);
      var feesThen := Unpack(l.earlier.value.fees24h);
      if volThen.None? || tvlNow.None? || tvlThen.None? || feesNow.None? || feesThen.None? then Raised("ValueError")
      else
        Ok(DailyStats(addr,
                      Stat(volNow.value, volThen.value, Change(volNow.value, volThen.value)),
                      Stat(tvlNow.value, tvlThen.value, Change(tvlNow.value, tvlThen.value)),
                      Stat(feesNow.value, feesThen.value, Change(feesNow.value, feesThen.value)),
                      l.recent.blockHeight, l.recent.blockTimestamp))
  }

  /** The stats of a contract come from its recent and 24h-old amounts, each change stays 0
      where the earlier amount is 0, and a contract with no 24h-old object fails. */
  lemma ContractStatsMeaning(addr: string, l: Linked)
    ensures l.earlier.None? ==> ContractStats(addr, l).Raised?
    ensures ContractStats(addr, l).Ok? ==>
              var s := ContractStats(addr, l).value;
              && l.earlier.Some?
              && s.contract == addr
              && s.blockHeight == l.recent.blockHeight && s.blockTimestamp == l.recent.blockTimestamp
              && Unpack(l.recent.volume24h) == Some(s.volume24.currentValue)
              && Unpack(l.earlier.value.volume24h) == Some(s.volume24.previousValue)
              && Unpack(l.recent.liquidity) == Some(s.tvl.currentValue)
              && Unpack(l.earlier.value.liquidity) == Some(s.tvl.previousValue)
              && Unpack(l.recent.fees24h) == Some(s.fees24.currentValue)
              && Unpack(l.earlier.value.fees24h) == Some(s.fees24.previousValue)
              && (s.volume24.previousValue == 0 ==> s.volume24.change == 0.0)
              && (s.tvl.previousValue == 0 ==> s.tvl.change == 0.0)
              && (s.fees24.previousValue == 0 ==> s.fees24.change == 0.0)
              && s.volume24.change == Change(s.volume24.currentValue, s.volume24.previousValue)
              && s.tvl.change == Change(s.tvl.currentValue, s.tvl.previousValue)
              && s.fees24.change == Change(s.fees24.currentValue, s.fees24.previousValue)
  {
  }

  /** The stats of each linked contract, in dictionary order. */
  function StatResults(items: seq<(string, Linked)>): seq<Outcome<DailyStats>>
  {
    seq(|items|, i requires 0 <= i < |items| => ContractStats(items[i].0, items[i].1))
  }

  lemma StatResultsShape(items: seq<(string, Linked)>)
    ensures |StatResults(items)| == |items|
    ensures forall i :: 0 <= i < |items| ==> StatResults(items)[i] == ContractStats(items[i].0, items[i].1)
  {
  }

  /** The stats loop completes exactly when every linked contract's stats do, and
      then lists each contract's stats at its own position. */
  lemma StatsAllOk(items: seq<(string, Linked)>)
    ensures AllOk(StatResults(items)).Ok? <==> forall i :: 0 <= i < |items| ==> ContractStats(items[i].0, items[i].1).Ok?
    ensures AllOk(StatResults(items)).Ok? ==>
              && |AllOk(StatResults(items)).value| == |items|
              && forall i :: 0 <= i < |items| ==> Ok(AllOk(StatResults(items)).value[i]) == ContractStats(items[i].0, items[i].1)
  {
    AllOkShape(StatResults(items));
    StatResultsShape(items);
  }

  /** The dictionary's items in key order. */
  function Items(linked: map<string, Linked>, order: seq<string>): seq<(string, Linked)>
    requires forall a :: a in order ==> a in linked
  {
    seq(|order|, i requires 0 <= i < |order| => (order[i], linked[order[i]]))
  }

  lemma ItemsShape(linked: map<string, Linked>, order: seq<string>)
    requires forall a :: a in order ==> a in linked
    ensures |Items(linked, order)| == |order|
    ensures forall i :: 0 <= i < |order| ==> Items(linked, order)[i] == (order[i], linked[order[i]])
  {
  }

  /** The loop over `linked_contracts_snapshot.items()` appending each contract's
      stats; the first failure aborts the run. */
  method DailyStatsContracts(items: seq<(string, Linked)>) returns (r: Outcome<seq<DailyStats>>)
    ensures r == AllOk(StatResults(items))
  {
    ghost var results := StatResults(items);
    StatResultsShape(items);
    var dailyStatsContracts: seq<DailyStats> := [];
    var i := 0;
    while i < |items|
      invariant 0 <= i <= |items|
      invariant AllOk(results[..i]) == Ok(dailyStatsContracts)
    {
      var (addr, contractObj) := items[i];
      var dailyStats := ContractStats(addr, contractObj);
      assert dailyStats == results[i];
      AllOkAdvance(results, i, dailyStatsContracts);
      if dailyStats.Raised? {
        AllOkRaisedPrefix(results, i + 1);
        return Raised(dailyStats.reason);
      }
      dailyStatsContracts := dailyStatsContracts + [dailyStats.value];
      i := i + 1;
    }
    assert results[..i] == results;
    return Ok(dailyStatsContracts);
  }

  /** The payload of one run from the latest and the 24h-old pair lists: the common
      block height of the first recent pair (a run with no pairs or a zero height
      aborts) and the stats of the linked contracts. */
  function DailyPayload(recent: seq<PairObj>, older: seq<PairObj>): Outcome<(int, seq<DailyStats>)>
  {
    if |recent| == 0 then Raised("IndexError")
    else if recent[0].blockHeight == 0 then Raised("no common block height")
    else
      var linked := Link(recent, older);
      var items := assert forall a :: a in Addresses(recent) ==> a in linked by {
        LinkShape(recent, older);
        AddressesShape(recent);
      }
      Items(linked, Addresses(recent));
      var stats := AllOk(StatResults(items));
      if stats.Raised? then Raised(stats.reason) else Ok((recent[0].blockHeight, stats.value))
  }

  /** A run's payload lists one entry per distinct recent address, in first-appearance
      order, at the first recent pair's non-zero height. */
  lemma DailyPayloadShape(recent: seq<PairObj>, older: seq<PairObj>)
    requires DailyPayload(recent, older).Ok?
    ensures |recent| > 0 && DailyPayload(recent, older).value.0 == recent[0].blockHeight != 0
    ensures |DailyPayload(recent, older).value.1| == |Addresses(recent)|
    ensures forall i :: 0 <= i < |Addresses(recent)| ==> DailyPayload(recent, older).value.1[i].contract == Addresses(recent)[i]
  {
    LinkShape(recent, older);
    AddressesShape(recent);
    var items := Items(Link(recent, older), Addresses(recent));
    var results := StatResults(items);
    ItemsShape(Link(recent, older), Addresses(recent));
    StatResultsShape(items);
    AllOkShape(results);
    forall i | 0 <= i < |Addresses(recent)|
      ensures AllOk(results).value[i].contract == Addresses(recent)[i]
    {
      ContractStatsMeaning(items[i].0, items[i].1);
    }
  }

  /** When every contract's stats succeed, every contract had a 24h-old object. */
  lemma StatsOkNeedsOld(items: seq<(string, Linked)>, k: int)
    requires AllOk(StatResults(items)).Ok?
    requires 0 <= k < |items|
    ensures items[k].1.earlier.Some?
  {
    AllOkShape(StatResults(items));
    StatResultsShape(items);
    ContractStatsMeaning(items[k].0, items[k].1);
  }

  /** Every recent address is a linked key, holding the last 24h-old object with it. */
  lemma RecentLinked(recent: seq<PairObj>, older: seq<PairObj>, i: int)
    requires 0 <= i < |recent|
    ensures recent[i].contractAddress in Link(recent, older)
    ensures Link(recent, older)[recent[i].contractAddress].earlier == LastWith(older, recent[i].contractAddress)
  {
    LinkShape(recent, older);
  }

  /** Every recent address has a place in the key order. */
  lemma RecentOrdered(recent: seq<PairObj>, i: int) returns (k: int)
    requires 0 <= i < |recent|
    ensures 0 <= k < |Addresses(recent)| && Addresses(recent)[k] == recent[i].contractAddress
  {
    AddressesShape(recent);
    assert recent[i].contractAddress in Addresses(recent);
    k :| 0 <= k < |Addresses(recent)| && Addresses(recent)[k] == recent[i].contractAddress;
  }

  /** A successful payload is the height with every contract's stats succeeding. */
  lemma PayloadStatsOk(recent: seq<PairObj>, older: seq<PairObj>)
    requires DailyPayload(recent, older).Ok?
    ensures forall a :: a in Addresses(recent) ==> a in Link(recent, older)
    ensures AllOk(StatResults(Items(Link(recent, older), Addresses(recent)))).Ok?
  {
    LinkShape(recent, older);
    AddressesShape(recent);
  }

  /** A run's payload needs every recent address to have a 24h-old counterpart. */
  lemma DailyPayloadNeedsOld(recent: seq<PairObj>, older: seq<PairObj>, i: int)
    requires DailyPayload(recent, older).Ok?
    requires 0 <= i < |recent|
    ensures exists j :: 0 <= j < |older| && older[j].contractAddress == recent[i].contractAddress
  {
    var a := recent[i].contractAddress;
    var k := RecentOrdered(recent, i);
    RecentLinked(recent, older, i);
    PayloadStatsOk(recent, older);
    var items := Items(Link(recent, older), Addresses(recent));
    ItemsShape(Link(recent, older), Addresses(recent));
    StatsOkNeedsOld(items, k);
    assert LastWith(older, a).Some?;
    LastWithIsLast(older, a);
  }

  // ---------------------------------------------------------------------------
  // The run: height gate and choice of the 24h-old snapshot

  /** The highest-ranked entry of a sorted set (ZREVRANGE 0 0 WITHSCORES). */
  function Latest(z: ZSet<string>): Option<(string, int)>
  {
    if |z| == 0 then None else Some(Listing(z)[|z| - 1])
  }

  /** The latest entry is a member with its score, ranked after every other member. */
  lemma LatestIsLast(z: ZSet<string>)
    ensures Latest(z).None? <==> |z| == 0
    ensures Latest(z).Some? ==>
              var (m, s) := Latest(z).value;
              && m in z && z[m] == s
              && forall k :: k in z && k != m ==> Before((k, z[k]), (m, s))
  {
    if |z| > 0 {
      var l := Listing(z);
      ListingIsListing(z);
      forall k | k in z && k != l[|z| - 1].0
        ensures Before((k, z[k]), l[|z| - 1])
      {
        var j :| 0 <= j < |l| && l[j] == (k, z[k]);
        assert j != |z| - 1;
      }
    }
  }

  /** What one run decides before fetching payloads. */
  datatype RunPlan =
    | InSync                                   // the daily stats are already at the summary's height
    | Abort(reason: string)                    // logged and returned, nothing written
    | Compare(latestCid: string, oldCid: string)

  /** The summary and daily-stats sorted sets are scored by block height, the timestamp
      set by block timestamp; summary members stand for the payload cid they carry.
      The run compares only when the summary is strictly ahead of the daily stats (an
      empty daily-stats set counts as height 0); the 24h-old cid is the entry nearest
      to 24 hours before the latest timestamp within half an hour either way, else the
      oldest timestamp entry. */
  function PlanRun(summary: ZSet<string>, daily: ZSet<string>, stamps: ZSet<string>): RunPlan
  {
    var latest := Latest(summary);
    if latest.None? then Abort("summary zset empty")
    else
      var dailyHeight := if Latest(daily).None? then 0 else Latest(daily).value.1;
      if !(latest.value.1 > dailyHeight) then InSync
      else
        var cid := latest.value.0;
        if cid !in stamps || stamps[cid] == 0 then Abort("no timestamp for the latest summary")
        else
          var oldCid := OldCid(stamps, stamps[cid] - 60 * 60 * 24);
          if oldCid.None? then Abort("timestamp zset empty") else Compare(cid, oldCid.value)
  }

  /** The 24h-old cid for the mark `ts24h`: the entry nearest to it among those scored
      within half an hour either way, else the lowest-ranked entry of the timestamp
      set, and None when that set is empty. */
  function OldCid(stamps: ZSet<string>, ts24h: int): Option<string>
  {
    var near := Nearest(RangeByScore(stamps, ts24h - 60 * 30, ts24h + 60 * 30), ts24h);
    if near != "" then Some(near)
    else if |stamps| == 0 then None
    else Some(Listing(stamps)[0].0)
  }

  /** The 24h-old cid is a member of the timestamp set, and there is one whenever that
      set is not empty. */
  lemma OldCidMember(stamps: ZSet<string>, ts24h: int)
    ensures OldCid(stamps, ts24h).None? <==> |stamps| == 0
    ensures OldCid(stamps, ts24h).Some? ==> OldCid(stamps, ts24h).value in stamps
  {
    var entries := RangeByScore(stamps, ts24h - 1800, ts24h + 1800);
    NearestIsEntry(entries, ts24h, 0, 0, "");
  }

  /** The 24h-old cid is the nearest entry when there is one, else the least member. */
  lemma OldCidChoice(stamps: ZSet<string>, ts24h: int)
    requires |stamps| > 0
    ensures var near := Nearest(RangeByScore(stamps, ts24h - 1800, ts24h + 1800), ts24h);
            OldCid(stamps, ts24h) == Some(if near != "" then near else Least(stamps))
  {
    FirstListedIsLeast(stamps);
  }

  /** The first listed member is the least one. */
  lemma FirstListedIsLeast(z: ZSet<string>)
    requires |z| > 0
    ensures Listing(z)[0].0 == Least(z)
  {
    LeastIsLeast(z);
    ListingIsListing(z);
    var l := Listing(z);
    forall m | m in z && m != l[0].0
      ensures Before(l[0], (m, z[m]))
    {
      var j :| 0 <= j < |l| && l[j] == (m, z[m]);
      assert j != 0;
    }
    assert IsLeast(z, l[0].0);
  }

  /** The height gate: the run compares or aborts on a missing timestamp only when
      the latest summary height is strictly above the latest daily-stats height, and
      it reports being in sync exactly when it is not. */
  lemma PlanGate(summary: ZSet<string>, daily: ZSet<string>, stamps: ZSet<string>)
    ensures PlanRun(summary, daily, stamps) == InSync <==>
              && |summary| > 0
              && Latest(summary).value.1 <= (if |daily| == 0 then 0 else Latest(daily).value.1)
    ensures PlanRun(summary, daily, stamps).Compare? ==>
              && |summary| > 0
              && Latest(summary).value.1 > (if |daily| == 0 then 0 else Latest(daily).value.1)
  {
    LatestIsLast(summary);
    LatestIsLast(daily);
  }

  /** The latest cid compared is the top summary entry and carries a non-zero
      timestamp; the 24h-old one is `OldCid` at 24 hours before that timestamp. */
  lemma PlanCompareCids(summary: ZSet<string>, daily: ZSet<string>, stamps: ZSet<string>, latestCid: string, oldCid: string)
    requires PlanRun(summary, daily, stamps) == Compare(latestCid, oldCid)
    ensures Latest(summary).Some? && latestCid == Latest(summary).value.0
    ensures latestCid in stamps && stamps[latestCid] != 0
    ensures OldCid(stamps, stamps[latestCid] - 86400) == Some(oldCid)
  {
  }

  /** Both cids a run compares are members of the timestamp set. */
  lemma PlanCompareKnown(summary: ZSet<string>, daily: ZSet<string>, stamps: ZSet<string>, latestCid: string, oldCid: string)
    requires PlanRun(summary, daily, stamps) == Compare(latestCid, oldCid)
    ensures latestCid in stamps && oldCid in stamps
  {
    PlanCompareCids(summary, daily, stamps, latestCid, oldCid);
    OldCidMember(stamps, stamps[latestCid] - 86400);
  }

  /** The fallback never aborts a run that got this far: the latest cid has a
      timestamp, so the timestamp set is not empty. */
  lemma PlanNoEmptyFallback(summary: ZSet<string>, daily: ZSet<string>, stamps: ZSet<string>)
    ensures PlanRun(summary, daily, stamps) != Abort("timestamp zset empty")
  {
    PlanFallback(summary, daily, stamps);
    var latest := Latest(summary);
    if latest.Some? && latest.value.0 in stamps {
      OldCidMember(stamps, stamps[latest.value.0] - 86400);
    }
  }

  /** A run reaches the empty-set abort only with a latest cid that has a timestamp and
      no 24h-old cid. */
  lemma PlanFallback(summary: ZSet<string>, daily: ZSet<string>, stamps: ZSet<string>)
    ensures PlanRun(summary, daily, stamps) == Abort("timestamp zset empty") ==>
              && Latest(summary).Some? && Latest(summary).value.0 in stamps
              && OldCid(stamps, stamps[Latest(summary).value.0] - 86400).None?
  {
  }

  // ---------------------------------------------------------------------------
  // Recording and pruning the daily-stats set

  /** The rank range `v2_pairs_daily_stats_snapshotter` removes once the set holds more than 20 entries:
      ranks 0 through -(len - 20) + 1. */
  function PruneAsWritten(z: ZSet<string>): ZSet<string>
  {
    if |z| > 20 then RemRangeByRank(z, 0, -1 * (|z| - 20) + 1) else z
  }

  /** Once the set holds 22 entries or more, the stop rank as written, -(len - 20) + 1,
      read from the end, is rank 21 whatever the length. */
  lemma PruneAsWrittenStop(z: ZSet<string>)
    requires |z| >= 22
    ensures PruneAsWritten(z) == RemRangeByRank(z, 0, 21)
  {
  }

  /** As written, 21 entries lose exactly the lowest-ranked one. */
  lemma PruneAsWritten21(z: ZSet<string>)
    requires |z| == 21
    ensures |PruneAsWritten(z)| == 20
    ensures PruneAsWritten(z) == Prune(z)
  {
    RemLowestRanks(z, 0);
  }

  /** As written, 22 entries lose all of them, and a larger set keeps only len - 22
      where 20 were meant to stay. */
  lemma PruneAsWrittenDropsAll(z: ZSet<string>)
    requires |z| >= 22
    ensures |PruneAsWritten(z)| == |z| - 22
    ensures |z| == 22 ==> PruneAsWritten(z) == map[]
  {
    PruneAsWrittenStop(z);
    RemLowestRanks(z, 21);
  }

  /** Pruning as intended: keep the 20 highest-ranked entries. */
  function Prune(z: ZSet<string>): ZSet<string>
  {
    if |z| > 20 then RemRangeByRank(z, 0, |z| - 21) else z
  }

  /** The intended pruning keeps min(len, 20) entries, all of them ranked above every
      entry it drops, with their scores. */
  lemma PruneKeepsNewest(z: ZSet<string>)
    ensures |Prune(z)| == if |z| > 20 then 20 else |z|
    ensures Prune(z).Keys <= z.Keys && forall k :: k in Prune(z) ==> Prune(z)[k] == z[k]
    ensures forall g, m :: g in z && g !in Prune(z) && m in Prune(z) ==> Before((g, z[g]), (m, z[m]))
  {
    if |z| > 20 {
      RemLowestRanks(z, |z| - 21);
    }
  }

  /** Recording a run: add the new entry at the common block height, then prune. */
  function RecordDaily(daily: ZSet<string>, entry: string, height: int): ZSet<string>
  {
    Prune(Add(daily, entry, height).0)
  }

  /** Recording a run as `v2_pairs_daily_stats_snapshotter` writes it: add the new entry at the common block
      height, then prune with the formula as written. */
  function RecordAsWritten(daily: ZSet<string>, entry: string, height: int): ZSet<string>
  {
    PruneAsWritten(Add(daily, entry, height).0)
  }

  /** From a set of at most 20 entries, as every earlier run's prune leaves it, the step
      as written records exactly what the intended step does, and so stays bounded. */
  lemma RecordAsWrittenAgrees(daily: ZSet<string>, entry: string, height: int)
    requires |daily| <= 20
    ensures RecordAsWritten(daily, entry, height) == RecordDaily(daily, entry, height)
    ensures |RecordAsWritten(daily, entry, height)| <= 20
  {
    var z := Add(daily, entry, height).0;
    assert |z| <= |daily| + 1 by {
      assert z == daily[entry := height];
    }
    if |z| == 21 {
      PruneAsWritten21(z);
    }
    RecordDailyBounded(daily, entry, height);
  }

  /** From a set that already holds 21 entries or more (left, for example, by an earlier
      run that stopped between its add and its prune, or by two overlapping runs), the
      step as written keeps len - 22 of the entries after
      the add: a new entry into 21 empties the set, one into 50 leaves 29. */
  lemma RecordAsWrittenWipes(daily: ZSet<string>, entry: string, height: int)
    requires |daily| >= 21
    requires entry !in daily
    ensures |RecordAsWritten(daily, entry, height)| == |daily| - 21
    ensures |daily| == 21 ==> RecordAsWritten(daily, entry, height) == map[]
    ensures |daily| >= 22 && (forall m :: m in daily ==> daily[m] < height) ==> entry in RecordAsWritten(daily, entry, height)
  {
    var z := Add(daily, entry, height).0;
    assert |z| == |daily| + 1 by {
      assert z == daily[entry := height];
    }
    PruneAsWrittenDropsAll(z);
    if |daily| >= 22 && (forall m :: m in daily ==> daily[m] < height) {
      PruneAsWrittenKeepsTop(z, entry);
    }
  }

  /** The formula as written, on 23 entries or more, keeps the entry scored above all
      others. */
  lemma PruneAsWrittenKeepsTop(z: ZSet<string>, top: string)
    requires |z| >= 23
    requires top in z && forall m :: m in z && m != top ==> z[m] < z[top]
    ensures top in PruneAsWritten(z)
  {
    PruneAsWrittenStop(z);
    RemLowestRanks(z, 21);
    var r := PruneAsWritten(z);
    assert |r| == |z| - 22;
    var m :| m in r;
    assert m == top || Before((m, z[m]), (top, z[top]));
  }

  /** After recording, the set holds at most 20 entries and keeps the new entry unless
      at least 20 others rank above it. */
  lemma RecordDailyBounded(daily: ZSet<string>, entry: string, height: int)
    ensures |RecordDaily(daily, entry, height)| <= 20
    ensures |RecordDaily(daily, entry, height)| == |Add(daily, entry, height).0| || |RecordDaily(daily, entry, height)| == 20
    ensures entry !in RecordDaily(daily, entry, height) ==>
              forall m :: m in RecordDaily(daily, entry, height) ==> Before((entry, height), (m, daily[m]))
  {
    var z := Add(daily, entry, height).0;
    PruneKeepsNewest(z);
  }
}
