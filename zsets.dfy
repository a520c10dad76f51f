/** Redis sorted sets as the core uses them: each member carries one integer score;
    ordered reads list members by ascending score, equal scores by ascending
    member text (byte order, which for UTF-8 text is code-point order). */
module ZSets {

  type ZSet<M> = map<M, int>

  /** The set stored under a key, or the empty set when the key does not exist. */
  function Of<K, M>(m: map<K, ZSet<M>>, k: K): ZSet<M>
  {
    if k in m then m[k] else map[]
  }

  // ---------------------------------------------------------------------------
  // Writes

  /** ZADD of one member; the count is the number of members added (0 when only the
      score of an existing member changed). */
  function Add<M>(z: ZSet<M>, m: M, score: int): (r: (ZSet<M>, nat))
    ensures m in r.0 && r.0[m] == score
    ensures r.0.Keys == z.Keys + {m}
    ensures forall k :: k in z && k != m ==> r.0[k] == z[k]
    ensures r.1 == |r.0| - |z|
  {
    (z[m := score], if m in z then 0 else 1)
  }

  /** ZREM of one member; the count is the number of members removed. */
  function Rem<M>(z: ZSet<M>, m: M): (r: (ZSet<M>, nat))
    ensures r.0.Keys == z.Keys - {m}
    ensures forall k :: k in r.0 ==> r.0[k] == z[k]
    ensures r.1 == |z| - |r.0|
  {
    var rest := map k | k in z && k != m :: z[k];
    assert rest.Keys == z.Keys - {m};
    (rest, if m in z then 1 else 0)
  }

  /** ZREMRANGEBYSCORE lo hi: drops every member scored in [lo, hi]; the count is the
      number of members removed. */
  function RemRangeByScore<M>(z: ZSet<M>, lo: int, hi: int): (r: (ZSet<M>, nat))
    ensures r.0.Keys <= z.Keys
    ensures forall k :: k in z ==> (k in r.0 <==> !(lo <= z[k] <= hi))
    ensures forall k :: k in r.0 ==> r.0[k] == z[k]
    ensures r.1 == |z| - |r.0|
  {
    var rest := map k | k in z && !(lo <= z[k] <= hi) :: z[k];
    assert rest.Keys <= z.Keys;
    SubsetCard(rest.Keys, z.Keys);
    (rest, |z| - |rest|)
  }

  lemma SubsetCard<T>(a: set<T>, b: set<T>)
    requires a <= b
    ensures |a| <= |b|
  {
    assert b == a + (b - a);
  }

  // ---------------------------------------------------------------------------
  // Order

  /** Strict lexicographic order on text. */
  predicate LexLess(a: string, b: string)
  {
    if |a| == 0 then |b| > 0
    else if |b| == 0 then false
    else a[0] < b[0] || (a[0] == b[0] && LexLess(a[1..], b[1..]))
  }

  lemma {:induction false} LexAsymmetric(a: string, b: string)
    ensures !(LexLess(a, b) && LexLess(b, a))
  {
    if |a| > 0 && |b| > 0 && a[0] == b[0] {
      LexAsymmetric(a[1..], b[1..]);
    }
  }

  lemma {:induction false} LexTotal(a: string, b: string)
    ensures a == b || LexLess(a, b) || LexLess(b, a)
  {
    if |a| > 0 && |b| > 0 && a[0] == b[0] {
      LexTotal(a[1..], b[1..]);
      if a[1..] == b[1..] {
        assert a == [a[0]] + a[1..] && b == [b[0]] + b[1..];
      }
    }
  }

  lemma {:induction false} LexTransitive(a: string, b: string, c: string)
    requires LexLess(a, b) && LexLess(b, c)
    ensures LexLess(a, c)
  {
    if |a| > 0 && a[0] == b[0] && b[0] == c[0] {
      LexTransitive(a[1..], b[1..], c[1..]);
    }
  }

  /** Redis order of two (member, score) entries: by score, then by member. */
  predicate Before(x: (string, int), y: (string, int))
  {
    x.1 < y.1 || (x.1 == y.1 && LexLess(x.0, y.0))
  }

  lemma BeforeTransitive(x: (string, int), y: (string, int), w: (string, int))
    requires Before(x, y) && Before(y, w)
    ensures Before(x, w)
  {
    if x.1 == y.1 == w.1 {
      LexTransitive(x.0, y.0, w.0);
    }
  }

  /** `m` is the first member of `z` in Redis order. */
  predicate IsLeast(z: ZSet<string>, m: string)
  {
    m in z && forall k :: k in z && k != m ==> Before((m, z[m]), (k, z[k]))
  }

  lemma {:induction false} LeastExists(z: ZSet<string>)
    requires |z| > 0
    ensures exists m :: IsLeast(z, m)
    decreases |z|
  {
    var k :| k in z;
    var rest := map x | x in z && x != k :: z[x];
    assert rest.Keys == z.Keys - {k};
    if |rest| == 0 {
      assert IsLeast(z, k);
    } else {
      LeastExists(rest);
      var m :| IsLeast(rest, m);
      assert m in z && m != k && rest[m] == z[m];
      forall x | x in z && x != k && x != m
        ensures Before((m, z[m]), (x, z[x]))
      {
        assert x in rest && rest[x] == z[x];
      }
      if Before((k, z[k]), (m, z[m])) {
        forall x | x in z && x != k
          ensures Before((k, z[k]), (x, z[x]))
        {
          if x != m { BeforeTransitive((k, z[k]), (m, z[m]), (x, z[x])); }
        }
        assert IsLeast(z, k);
      } else {
        LexTotal(k, m);
        assert Before((m, z[m]), (k, z[k]));
        assert IsLeast(z, m);
      }
    }
  }

  lemma LeastUnique(z: ZSet<string>)
    ensures forall a, b :: IsLeast(z, a) && IsLeast(z, b) ==> a == b
  {
    forall a, b | IsLeast(z, a) && IsLeast(z, b)
      ensures a == b
    {
      if a != b {
        LexAsymmetric(a, b);
      }
    }
  }

  /** `r` lists exactly the members of `z` with their scores, in Redis order. */
  predicate IsListing(z: ZSet<string>, r: seq<(string, int)>)
  {
    && |r| == |z|
    && (forall i :: 0 <= i < |r| ==> r[i].0 in z && r[i].1 == z[r[i].0])
    && (forall m :: m in z ==> (m, z[m]) in r)
    && (forall i, j :: 0 <= i < j < |r| ==> Before(r[i], r[j]))
  }

  /** Putting the least member in front of a listing of the others lists the whole set. */
  lemma ConsListing(z: ZSet<string>, m: string, rest: ZSet<string>, tail: seq<(string, int)>)
    requires IsLeast(z, m)
    requires rest == z - {m}
    requires IsListing(rest, tail)
    ensures IsListing(z, [(m, z[m])] + tail)
  {
    var r := [(m, z[m])] + tail;
    forall i, j | 0 <= i < j < |r|
      ensures Before(r[i], r[j])
    {
      if i == 0 {
        assert r[j] == tail[j - 1];
        assert r[j].0 in rest;
      } else {
        assert r[i] == tail[i - 1] && r[j] == tail[j - 1];
      }
    }
    forall x | x in z
      ensures (x, z[x]) in r
    {
      if x != m {
        assert x in rest && rest[x] == z[x];
      }
    }
  }

  /** The member of `z` that Redis lists first (`LeastIsLeast` states that it is). */
  function Least(z: ZSet<string>): (m: string)
    requires |z| > 0
    ensures m in z
  {
    assert exists m :: IsLeast(z, m) by {
      LeastExists(z);
    }
    assert forall a, b :: IsLeast(z, a) && IsLeast(z, b) ==> a == b by {
      LeastUnique(z);
    }
    var m :| IsLeast(z, m);
    m
  }

  /** `Least` picks the member that precedes all others, and no other member does. */
  lemma LeastIsLeast(z: ZSet<string>)
    requires |z| > 0
    ensures IsLeast(z, Least(z))
    ensures forall m :: IsLeast(z, m) ==> m == Least(z)
  {
    LeastExists(z);
    LeastUnique(z);
  }

  /** Every member of `z` with its score, in Redis order (ZRANGE 0 -1 WITHSCORES);
      `ListingIsListing` states that it is one. */
  function Listing(z: ZSet<string>): (r: seq<(string, int)>)
    ensures |r| == |z|
    decreases |z|
  {
    if |z| == 0 then []
    else
      var m := Least(z);
      [(m, z[m])] + Listing(z - {m})
  }

  lemma {:induction false} ListingIsListing(z: ZSet<string>)
    ensures IsListing(z, Listing(z))
    decreases |z|
  {
    if |z| > 0 {
      var m := Least(z);
      ListingIsListing(z - {m});
      LeastIsLeast(z);
      ConsListing(z, m, z - {m}, Listing(z - {m}));
    }
  }

  /** The members of `z` scored in [lo, hi]. */
  function Window(z: ZSet<string>, lo: int, hi: int): (w: ZSet<string>)
  {
    map m | m in z && lo <= z[m] <= hi :: z[m]
  }

  /** ZRANGEBYSCORE lo hi WITHSCORES. */
  function RangeByScore(z: ZSet<string>, lo: int, hi: int): (r: seq<(string, int)>)
    ensures forall i :: 0 <= i < |r| ==> r[i].0 in z && r[i].1 == z[r[i].0] && lo <= r[i].1 <= hi
    ensures forall m :: m in z && lo <= z[m] <= hi ==> (m, z[m]) in r
    ensures forall i, j :: 0 <= i < j < |r| ==> Before(r[i], r[j])
  {
    var w := Window(z, lo, hi);
    assert forall m :: m in z && lo <= z[m] <= hi ==> m in w by {
    }
    assert IsListing(w, Listing(w)) by {
      ListingIsListing(w);
    }
    Listing(w)
  }

  /** Members listed in a strictly ordered sequence are pairwise distinct. */
  lemma SortedDistinct(z: ZSet<string>, r: seq<(string, int)>, i: int, j: int)
    requires forall a :: 0 <= a < |r| ==> r[a].0 in z && r[a].1 == z[r[a].0]
    requires forall a, b :: 0 <= a < b < |r| ==> Before(r[a], r[b])
    requires 0 <= i < |r| && 0 <= j < |r| && i != j
    ensures r[i].0 != r[j].0
  {
    if i < j { LexAsymmetric(r[i].0, r[j].0); } else { LexAsymmetric(r[j].0, r[i].0); }
  }

  // ---------------------------------------------------------------------------
  // Removal by rank

  /** The members of a listing. */
  function Members(s: seq<(string, int)>): set<string>
  {
    set i | 0 <= i < |s| :: s[i].0
  }

  /** ZREMRANGEBYRANK start stop, with Redis's reading of negative indexes (counted
      from the end) and its clamping of `stop` to the last rank. */
  function RemRangeByRank(z: ZSet<string>, start: int, stop: int): (r: ZSet<string>)
    ensures r.Keys <= z.Keys
    ensures forall k :: k in r ==> r[k] == z[k]
  {
    var n := |z|;
    var s := if start < 0 then (if n + start < 0 then 0 else n + start) else start;
    var e := if stop < 0 then n + stop else (if stop >= n then n - 1 else stop);
    if s > e || s >= n || e < 0 then z
    else
      DropMembers(z, Members(Listing(z)[s..e + 1]))
  }

  /** `z` without the members in `gone`. */
  function DropMembers(z: ZSet<string>, gone: set<string>): (r: ZSet<string>)
    ensures r.Keys == z.Keys - gone
    ensures forall k :: k in r ==> r[k] == z[k]
  {
    map k | k in z && k !in gone :: z[k]
  }

  /** A listing whose members are pairwise distinct has as many members as entries. */
  lemma {:induction false} MembersCard(s: seq<(string, int)>)
    requires forall i, j :: 0 <= i < j < |s| ==> s[i].0 != s[j].0
    ensures |Members(s)| == |s|
    decreases |s|
  {
    if |s| > 0 {
      var n := |s| - 1;
      MembersCard(s[..n]);
      assert Members(s) == Members(s[..n]) + {s[n].0} by {
        forall x | x in Members(s) ensures x in Members(s[..n]) + {s[n].0} {
          var i :| 0 <= i < |s| && s[i].0 == x;
          if i < n { assert s[..n][i] == s[i]; }
        }
      }
      assert s[n].0 !in Members(s[..n]);
    }
  }

  /** Dropping a set of members the sorted set holds shrinks it by that many. */
  lemma DropCard(z: ZSet<string>, gone: set<string>)
    requires gone <= z.Keys
    ensures |DropMembers(z, gone)| == |z| - |gone|
  {
    var r := DropMembers(z, gone);
    assert r.Keys + gone == z.Keys;
    assert r.Keys !! gone;
  }

  /** Dropping the members of the first k + 1 entries of a listing drops k + 1 members. */
  lemma DropPrefixCard(z: ZSet<string>, l: seq<(string, int)>, k: int)
    requires IsListing(z, l)
    requires 0 <= k < |z|
    ensures |DropMembers(z, Members(l[..k + 1]))| == |z| - (k + 1)
  {
    var slice := l[..k + 1];
    forall i, j | 0 <= i < j < |slice| ensures slice[i].0 != slice[j].0 {
      SortedDistinct(z, l, i, j);
    }
    MembersCard(slice);
    assert Members(slice) <= z.Keys;
    DropCard(z, Members(slice));
  }

  /** Every member dropped with the first k + 1 entries of a listing comes before every
      member kept. */
  lemma DropPrefixOrder(z: ZSet<string>, l: seq<(string, int)>, k: int)
    requires IsListing(z, l)
    requires 0 <= k < |z|
    ensures forall g, m :: g in z && g in Members(l[..k + 1]) && m in z && m !in Members(l[..k + 1]) ==>
              Before((g, z[g]), (m, z[m]))
  {
    var slice := l[..k + 1];
    forall g, m | g in z && g in Members(slice) && m in z && m !in Members(slice)
      ensures Before((g, z[g]), (m, z[m]))
    {
      var i :| 0 <= i < |slice| && slice[i].0 == g;
      var j :| 0 <= j < |l| && l[j] == (m, z[m]);
      assert forall jj :: 0 <= jj < |slice| ==> slice[jj].0 in Members(slice);
      assert forall jj :: 0 <= jj < |slice| ==> slice[jj] == l[jj];
      assert k < j;
      assert l[i] == slice[i];
    }
  }

  /** Removing ranks 0..k drops the members of the first k + 1 listed entries. */
  lemma RemLowestIsDrop(z: ZSet<string>, k: int)
    requires 0 <= k < |z|
    ensures RemRangeByRank(z, 0, k) == DropMembers(z, Members(Listing(z)[0..k + 1]))
  {
  }

  /** Removing ranks 0..k drops exactly the k + 1 lowest-ranked members: every removed
      member comes before every kept one. */
  lemma RemLowestRanks(z: ZSet<string>, k: int)
    requires 0 <= k < |z|
    ensures |RemRangeByRank(z, 0, k)| == |z| - (k + 1)
    ensures forall g, m :: g in z && g !in RemRangeByRank(z, 0, k) && m in RemRangeByRank(z, 0, k) ==>
              Before((g, z[g]), (m, z[m]))
  {
    var l := Listing(z);
    ListingIsListing(z);
    RemLowestIsDrop(z, k);
    assert l[0..k + 1] == l[..k + 1];
    DropPrefixCard(z, l, k);
    DropPrefixOrder(z, l, k);
  }
}
