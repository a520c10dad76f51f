/** The two stores the core runs over: the index store (Redis keys and sorted sets,
    one field per key purpose, each keyed by project id) and the content-addressed
    block store (IPFS). */
module Stores {
  import opened Wrappers
  import opened ZSets

  type ProjectId = string
  type Cid = string
  type ContainerId = string

  /** `data` of a chain block: where its payload lives. */
  datatype PayloadRef = PayloadRef(cid: Cid, kind: string)

  /** One immutable block of a project's audit chain. */
  datatype DagBlock = DagBlock(height: int, prevCid: Option<Cid>, data: PayloadRef, txHash: string, timestamp: int)

  /** The seven fields copied out of a finality signal into a pending entry. */
  datatype EventFields = EventFields(
    txHash: string,
    projectId: ProjectId,
    timestamp: int,
    snapshotCid: string,
    payloadCommitId: string,
    apiKeyHash: string,
    tentativeBlockHeight: int)

  /** A member of a project's pending-transactions sorted set; its score is the
      tentative block height. `lastTouchedBlock` is 0 while the commit is pending,
      -1 once the finality signal has been captured, and the chain height once the
      block is built. */
  datatype PendingTx = PendingTx(txHash: string, requestID: string, lastTouchedBlock: int, eventData: Option<EventFields>)

  /** The id of a span: the hash of (fromHeight, toHeight, projectId). The hash is
      taken to be injective, so the id is modelled by its preimage. */
  datatype SpanId = SpanDigest(fromHeight: int, toHeight: int, projectId: ProjectId)

  /** The value under a live-span key: the decoded JSON document, or text that does
      not decode to a span. */
  datatype StoredSpan = SpanDoc(fromHeight: int, toHeight: int, dagBlocks: map<int, DagBlock>) | Unreadable

  /** A bloom filter rebuilt from a container's published settings, given by the
      cids it answers "present" for (false positives included). */
  datatype BloomFilter = BloomFilter(positives: set<Cid>)

  predicate Reports(f: BloomFilter, cid: Cid) { cid in f.positives }

  /** The hash stored for a container; `bloomSettings` is None when the field is
      absent or does not decode. */
  datatype ContainerRecord = ContainerRecord(bloomSettings: Option<BloomFilter>, fields: map<string, string>)

  class IndexStore {
    /** projectId:{p}:pendingTransactions */
    var pendingTxs: map<ProjectId, ZSet<PendingTx>>
    /** projectId:{p}:discardedTransactions */
    var discardedTxs: map<ProjectId, ZSet<string>>
    /** projectId:{p}:Cids, chain cid -> height */
    var dagCids: map<ProjectId, ZSet<Cid>>
    /** projectId:{p}:lastDagCid */
    var lastDagCid: map<ProjectId, Cid>
    /** projectId:{p}:blockHeight, as decimal text */
    var blockHeight: map<ProjectId, string>
    /** payloadCommit:{id} */
    var payloadCommits: map<string, string>
    /** live span keys and their expiry in seconds */
    var liveSpans: map<(ProjectId, SpanId), StoredSpan>
    var spanTtl: map<(ProjectId, SpanId), int>
    /** containers created per project, container id -> height */
    var containersCreated: map<ProjectId, ZSet<ContainerId>>
    var containerData: map<ContainerId, ContainerRecord>
    /** container ids whose payload is cached */
    var cachedContainers: set<ContainerId>
    /** sliding-window head and tail markers per (project, time period), as decimal text */
    var headMarkers: map<(ProjectId, string), string>
    var tailMarkers: map<(ProjectId, string), string>

    constructor ()
      ensures pendingTxs == map[] && discardedTxs == map[] && dagCids == map[]
      ensures lastDagCid == map[] && blockHeight == map[] && payloadCommits == map[]
      ensures liveSpans == map[] && spanTtl == map[]
      ensures containersCreated == map[] && containerData == map[] && cachedContainers == {}
      ensures headMarkers == map[] && tailMarkers == map[]
    {
      pendingTxs, discardedTxs, dagCids := map[], map[], map[];
      lastDagCid, blockHeight, payloadCommits := map[], map[], map[];
      liveSpans, spanTtl := map[], map[];
      containersCreated, containerData, cachedContainers := map[], map[], {};
      headMarkers, tailMarkers := map[], map[];
    }
  }

  /** `c` is the member of `cids` that ZRANGEBYSCORE height height lists first: among
      the members scored `height`, the least in member order. */
  predicate FirstAt(cids: ZSet<Cid>, height: int, c: Cid)
  {
    c in cids && cids[c] == height && forall d :: d in cids && cids[d] == height && d != c ==> LexLess(c, d)
  }

  /** Some member is listed first at every height that has a member. */
  lemma FirstAtExists(cids: ZSet<Cid>, height: int, c0: Cid)
    requires c0 in cids && cids[c0] == height
    ensures exists c :: c in cids && FirstAt(cids, height, c)
  {
    var w := Window(cids, height, height);
    assert c0 in w;
    LeastExists(w);
    var m :| IsLeast(w, m);
    forall d | d in cids && cids[d] == height && d != m
      ensures LexLess(m, d)
    {
      assert d in w && Before((m, w[m]), (d, w[d]));
    }
    assert FirstAt(cids, height, m);
  }

  /** At most one member is listed first. */
  lemma FirstAtUnique(cids: ZSet<Cid>, height: int)
    ensures forall a, b :: FirstAt(cids, height, a) && FirstAt(cids, height, b) ==> a == b
  {
    forall a, b | FirstAt(cids, height, a) && FirstAt(cids, height, b)
      ensures a == b
    {
      if a != b {
        LexAsymmetric(a, b);
      }
    }
  }

  /** A height where no member is listed first has no member at all. */
  lemma NothingAt(cids: ZSet<Cid>, height: int)
    requires !exists c :: c in cids && FirstAt(cids, height, c)
    ensures forall c :: c in cids ==> cids[c] != height
  {
    forall c | c in cids
      ensures cids[c] != height
    {
      if cids[c] == height {
        FirstAtExists(cids, height, c);
      }
    }
  }

  /** `get_dag_cid`: the first member of the dag-cids set scored exactly `height`
      (ZRANGEBYSCORE height height), or None when no block is indexed there. */
  function CidAt(cids: ZSet<Cid>, height: int): (r: Option<Cid>)
    ensures r.Some? ==> r.value in cids && cids[r.value] == height
    ensures r.None? ==> forall c :: c in cids ==> cids[c] != height
  {
    if exists c :: c in cids && FirstAt(cids, height, c) then
      assert forall a, b :: FirstAt(cids, height, a) && FirstAt(cids, height, b) ==> a == b by {
        FirstAtUnique(cids, height);
      }
      var c :| c in cids && FirstAt(cids, height, c);
      Some(c)
    else
      assert forall c :: c in cids ==> cids[c] != height by {
        NothingAt(cids, height);
      }
      None
  }

  /** The cid found at a height is the first entry ZRANGEBYSCORE lists there. */
  lemma CidAtIsFirstListed(cids: ZSet<Cid>, height: int)
    ensures var hits := RangeByScore(cids, height, height);
            CidAt(cids, height) == if |hits| == 0 then None else Some(hits[0].0)
  {
    var hits := RangeByScore(cids, height, height);
    if |hits| > 0 {
      var first := hits[0].0;
      forall d | d in cids && cids[d] == height && d != first
        ensures LexLess(first, d)
      {
        assert (d, cids[d]) in hits;
        var j :| 0 <= j < |hits| && hits[j] == (d, cids[d]);
        assert j != 0 && Before(hits[0], hits[j]);
      }
      assert FirstAt(cids, height, first);
      FirstAtUnique(cids, height);
    }
  }

  /** The cid found at a height is the member listed first there. */
  lemma CidAtIsFirstAt(cids: ZSet<Cid>, height: int)
    ensures CidAt(cids, height).Some? <==> exists c :: c in cids && FirstAt(cids, height, c)
    ensures forall c :: c in cids && FirstAt(cids, height, c) ==> CidAt(cids, height) == Some(c)
  {
    FirstAtUnique(cids, height);
  }

  /** Indexing a new member at one height changes the cid found at no other height. */
  lemma CidAtOtherHeight(cids: ZSet<Cid>, c: Cid, h: int, k: int)
    requires c !in cids && k != h
    ensures CidAt(cids[c := h], k) == CidAt(cids, k)
  {
    var after := cids[c := h];
    forall x
      ensures FirstAt(after, k, x) <==> FirstAt(cids, k, x)
    {
    }
    CidAtIsFirstAt(cids, k);
    CidAtIsFirstAt(after, k);
  }

  /** Indexing a new member at a height where nothing was indexed makes it the cid found there. */
  lemma CidAtNewHeight(cids: ZSet<Cid>, c: Cid, h: int)
    requires forall d :: d in cids ==> cids[d] != h
    ensures CidAt(cids[c := h], h) == Some(c)
  {
    var after := cids[c := h];
    assert FirstAt(after, h, c);
    CidAtIsFirstAt(after, h);
  }

  /** The block stored under `cid`, if any. */
  function BlockAt(blocks: map<Cid, DagBlock>, cid: Option<Cid>): Option<DagBlock>
  {
    if cid.Some? && cid.value in blocks then Some(blocks[cid.value]) else None
  }

  /** The content-addressed block store: every block sits under the cid computed from
      it, and `cidOf` is injective. */
  class ContentStore {
    const cidOf: DagBlock -> Cid
    var blocks: map<Cid, DagBlock>

    ghost predicate Valid()
      reads this
    {
      && (forall a, b :: cidOf(a) == cidOf(b) ==> a == b)
      && (forall c :: c in blocks ==> cidOf(blocks[c]) == c)
    }

    constructor (cidOf: DagBlock -> Cid)
      requires forall a, b :: cidOf(a) == cidOf(b) ==> a == b
      ensures Valid() && this.cidOf == cidOf && blocks == map[]
    {
      this.cidOf := cidOf;
      blocks := map[];
    }

    /** `get_dag_block`: the block under `cid`, or None (a miss and a timeout look the same). */
    function Get(cid: Option<Cid>): Option<DagBlock>
      reads this
    {
      BlockAt(blocks, cid)
    }

    /** `put_dag_block` with pinning: may fail (None); on success the block is stored
        under its own cid and no stored block changes. */
    method Put(b: DagBlock) returns (r: Option<Cid>)
      requires Valid()
      modifies this`blocks
      ensures Valid()
      ensures r.Some? ==> r.value == cidOf(b) && blocks == old(blocks)[r.value := b]
      ensures r.None? ==> blocks == old(blocks)
      ensures forall c :: c in old(blocks) ==> c in blocks && blocks[c] == old(blocks)[c]
    {
      var stored: bool := *;
      if stored {
        var c := cidOf(b);
        blocks := blocks[c := b];
        r := Some(c);
      } else {
        r := None;
      }
    }
  }
}
