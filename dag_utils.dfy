/** The chain builder and the pending-transaction ledger (utils/dag_utils.py). Each
    operation is a sequence of index-store writes, modelled sequentially: the race
    between two callers touching the same entry is not part of this model. */
module DagUtils {
  import opened Wrappers
  import opened ZSets
  import opened Stores
  import Decimal

  /** The `event_data` of an inbound finality signal. */
  datatype SignalEventData = SignalEventData(
    apiKeyHash: string,
    tentativeBlockHeight: int,
    projectId: ProjectId,
    snapshotCid: string,
    payloadCommitId: string,
    timestamp: int)

  /** An inbound finality signal as the webhook listener hands it over. */
  datatype FinalitySignal = FinalitySignal(txHash: string, requestID: string, eventName: string, eventData: SignalEventData)

  /** The entry that replaces `entry` in a touch: same transaction, new last-touched
      block, and the event data replaced only when some is given. */
  function Touched(entry: PendingTx, touchedAtBlock: int, eventData: Option<EventFields>): PendingTx
  {
    entry.(lastTouchedBlock := touchedAtBlock, eventData := if eventData.Some? then eventData else entry.eventData)
  }

  /** Finalizing an entry whose finality signal was captured keeps the captured event data. */
  lemma TouchLifecycle(entry: PendingTx, fields: EventFields, height: int)
    requires entry.lastTouchedBlock == 0
    ensures var captured := Touched(entry, -1, Some(fields));
            var finalized := Touched(captured, height, None);
            && captured.lastTouchedBlock == -1 && finalized.lastTouchedBlock == height
            && finalized.eventData == Some(fields)
            && finalized.txHash == entry.txHash && finalized.requestID == entry.requestID
  {
  }

  /** `update_pending_tx_block_touch`: removes `entry` from the project's pending set,
      then adds its touched copy at score `tentativeBlockHeight`. A missing old entry
      gives status false but the new entry is still added. */
  method UpdatePendingTxBlockTouch(
    store: IndexStore, entry: PendingTx, touchedAtBlock: int, projectId: ProjectId,
    tentativeBlockHeight: int, eventData: Option<EventFields>)
    returns (status: bool, removed: nat, added: nat)
    modifies store`pendingTxs
    ensures var before := Of(old(store.pendingTxs), projectId);
            var after := Of(store.pendingTxs, projectId);
            var updated := Touched(entry, touchedAtBlock, eventData);
            && updated.txHash == entry.txHash && updated.requestID == entry.requestID
            && updated.lastTouchedBlock == touchedAtBlock
            && updated.eventData == (if eventData.Some? then eventData else entry.eventData)
            && updated in after && after[updated] == tentativeBlockHeight
            && after.Keys == (before.Keys - {entry}) + {updated}
            && (forall k :: k in before && k != entry && k != updated ==> after[k] == before[k])
            && (removed == 1 <==> entry in before) && removed <= 1
            && (added == 1 <==> (updated !in before || updated == entry)) && added <= 1
            && status == (removed == 1 && added == 1)
    ensures projectId in store.pendingTxs
    ensures forall q :: q != projectId ==> Of(store.pendingTxs, q) == Of(old(store.pendingTxs), q)
  {
    var before := Of(store.pendingTxs, projectId);
    var (rest, r1) := Rem(before, entry);
    var updated := Touched(entry, touchedAtBlock, eventData);
    var (after, r2) := Add(rest, updated, tentativeBlockHeight);
    store.pendingTxs := store.pendingTxs[projectId := after];
    removed, added := r1, r2;
    status := removed != 0 && added != 0;
  }

  /** `save_event_data`: copies the seven fields out of the signal and touches the
      entry with last-touched block -1 at the signal's tentative height. */
  method SaveEventData(store: IndexStore, signal: FinalitySignal, entry: PendingTx)
    returns (status: bool, removed: nat, added: nat)
    modifies store`pendingTxs
    ensures var ev := signal.eventData;
            var p := ev.projectId;
            var fields := EventFields(signal.txHash, p, ev.timestamp, ev.snapshotCid,
                                      ev.payloadCommitId, ev.apiKeyHash, ev.tentativeBlockHeight);
            var before := Of(old(store.pendingTxs), p);
            var after := Of(store.pendingTxs, p);
            var updated := entry.(lastTouchedBlock := -1, eventData := Some(fields));
            && updated in after && after[updated] == ev.tentativeBlockHeight
            && after.Keys == (before.Keys - {entry}) + {updated}
            && (forall k :: k in before && k != entry && k != updated ==> after[k] == before[k])
            && status == (entry in before && (updated !in before || updated == entry))
            && (forall q :: q != p ==> Of(store.pendingTxs, q) == Of(old(store.pendingTxs), q))
  {
    var ev := signal.eventData;
    var fields := EventFields(signal.txHash, ev.projectId, ev.timestamp, ev.snapshotCid,
                              ev.payloadCommitId, ev.apiKeyHash, ev.tentativeBlockHeight);
    status, removed, added := UpdatePendingTxBlockTouch(store, entry, -1, fields.projectId, ev.tentativeBlockHeight, Some(fields));
  }

  // ---------------------------------------------------------------------------
  // Chain linkage

  /** Some cid is indexed at height `h`. */
  ghost predicate Occupied(cids: ZSet<Cid>, h: int)
  {
    exists d :: d in cids && cids[d] == h
  }

  /** The block indexed as `c` is stored and sits at its indexed height; above height 1
      it points back to a cid indexed one height below, and to none only when that
      height holds no cid. */
  ghost predicate LinkedAt(cids: ZSet<Cid>, blocks: map<Cid, DagBlock>, c: Cid)
    requires c in cids
  {
    && c in blocks
    && blocks[c].height == cids[c]
    && (cids[c] > 1 ==>
          match blocks[c].prevCid
          case Some(p) => p in cids && cids[p] == cids[c] - 1
          case None => !Occupied(cids, cids[c] - 1))
  }

  /** Every indexed block is linked. */
  ghost predicate ChainLinked(cids: ZSet<Cid>, blocks: map<Cid, DagBlock>)
  {
    forall c {:trigger LinkedAt(cids, blocks, c)} :: c in cids ==> LinkedAt(cids, blocks, c)
  }

  /** Follows `prevCid` from `c`, `steps` times. */
  function Follow(blocks: map<Cid, DagBlock>, c: Option<Cid>, steps: nat): Option<Cid>
    decreases steps
  {
    if steps == 0 then c
    else if c.Some? && c.value in blocks then Follow(blocks, blocks[c.value].prevCid, steps - 1)
    else None
  }

  /** On a linked chain with a cid at every height of [h1, h2), following `prevCid`
      h2 - h1 times from a block indexed at h2 reaches a cid indexed at h1. */
  lemma {:induction false} ChainLinkage(cids: ZSet<Cid>, blocks: map<Cid, DagBlock>, c: Cid, h1: int)
    requires ChainLinked(cids, blocks)
    requires c in cids && 1 <= h1 <= cids[c]
    requires forall h {:trigger Occupied(cids, h)} :: h1 <= h < cids[c] ==> Occupied(cids, h)
    ensures var d := Follow(blocks, Some(c), cids[c] - h1);
            d.Some? && d.value in cids && cids[d.value] == h1
    decreases cids[c] - h1
  {
    var h2 := cids[c];
    if h2 > h1 {
      assert LinkedAt(cids, blocks, c);
      assert Occupied(cids, h2 - 1);
      var p := blocks[c].prevCid.value;
      ChainLinkage(cids, blocks, p, h1);
      assert Follow(blocks, Some(c), h2 - h1) == Follow(blocks, Some(p), h2 - 1 - h1);
    }
  }

  /** When each height holds at most one cid, the cid reached is the one the chain
      builder looks up at h1. */
  lemma ChainLinkageUnique(cids: ZSet<Cid>, blocks: map<Cid, DagBlock>, c: Cid, h1: int)
    requires ChainLinked(cids, blocks)
    requires c in cids && 1 <= h1 <= cids[c]
    requires forall h {:trigger Occupied(cids, h)} :: h1 <= h < cids[c] ==> Occupied(cids, h)
    requires forall a, b :: a in cids && b in cids && cids[a] == cids[b] ==> a == b
    ensures Follow(blocks, Some(c), cids[c] - h1) == CidAt(cids, h1)
  {
    ChainLinkage(cids, blocks, c, h1);
  }

  /** The appended block is linked in the extended index. */
  lemma AppendedLinked(cids: ZSet<Cid>, c: Cid, b: DagBlock, blocks': map<Cid, DagBlock>)
    requires c !in cids && forall d :: d in cids ==> cids[d] < b.height
    requires b.prevCid == CidAt(cids, b.height - 1)
    requires c in blocks' && blocks'[c] == b
    ensures LinkedAt(cids[c := b.height], blocks', c)
  {
    var h := b.height;
    var cids' := cids[c := h];
    if h > 1 && b.prevCid.None? {
      forall e | e in cids'
        ensures cids'[e] != h - 1
      {
        if e != c { assert e in cids; }
      }
    }
  }

  /** A block already linked stays linked when a cid is indexed above it. */
  lemma EarlierStaysLinked(cids: ZSet<Cid>, blocks: map<Cid, DagBlock>, c: Cid, b: DagBlock, d: Cid)
    requires d in cids && LinkedAt(cids, blocks, d)
    requires c !in cids && forall e :: e in cids ==> cids[e] < b.height
    ensures LinkedAt(cids[c := b.height], blocks[c := b], d)
  {
    var cids' := cids[c := b.height];
    if cids[d] > 1 && blocks[d].prevCid.None? {
      forall e | e in cids'
        ensures cids'[e] != cids[d] - 1
      {
        if e != c { assert e in cids; }
      }
    }
  }

  /** Appending a block above every indexed height, linked to the cid looked up one
      height below, keeps the chain linked. */
  lemma AppendKeepsChainLinked(cids: ZSet<Cid>, blocks: map<Cid, DagBlock>, c: Cid, b: DagBlock)
    requires ChainLinked(cids, blocks)
    requires forall d :: d in cids ==> cids[d] < b.height
    requires b.prevCid == CidAt(cids, b.height - 1)
    requires c in blocks ==> blocks[c] == b
    ensures ChainLinked(cids[c := b.height], blocks[c := b])
  {
    forall d | d in cids
      ensures d != c
    {
      assert LinkedAt(cids, blocks, d);
    }
    var cids' := cids[c := b.height];
    forall d | d in cids'
      ensures LinkedAt(cids', blocks[c := b], d)
    {
      if d == c {
        AppendedLinked(cids, c, b, blocks[c := b]);
      } else {
        assert LinkedAt(cids, blocks, d);
        EarlierStaysLinked(cids, blocks, c, b, d);
      }
    }
  }

  /** `create_dag_block`: builds the block at `tentativeBlockHeight` linked to the cid
      indexed one below, stores it, and only when the store accepted it points the
      last-cid key, the dag-cids set and the block-height key at it. None stands for
      the store failure that `create_dag_block` re-raises. */
  method CreateDagBlock(
    store: IndexStore, content: ContentStore, txHash: string, projectId: ProjectId,
    tentativeBlockHeight: int, payloadCid: Cid, timestamp: int)
    returns (r: Option<(Cid, DagBlock)>)
    requires content.Valid()
    modifies store`lastDagCid, store`dagCids, store`blockHeight, content`blocks
    ensures content.Valid()
    ensures forall c :: c in old(content.blocks) ==> c in content.blocks && content.blocks[c] == old(content.blocks)[c]
    ensures r.None? ==>
      && store.lastDagCid == old(store.lastDagCid)
      && store.dagCids == old(store.dagCids)
      && store.blockHeight == old(store.blockHeight)
      && content.blocks == old(content.blocks)
    ensures r.Some? ==>
      var (c, b) := r.value;
      var cids := Of(old(store.dagCids), projectId);
      && b.height == tentativeBlockHeight
      && b.prevCid == CidAt(cids, tentativeBlockHeight - 1)
      && b.data == PayloadRef(payloadCid, "HOT_IPFS")
      && b.txHash == txHash && b.timestamp == timestamp
      && c == content.cidOf(b) && content.blocks == old(content.blocks)[c := b]
      && store.lastDagCid == old(store.lastDagCid)[projectId := c]
      && store.dagCids == old(store.dagCids)[projectId := cids[c := tentativeBlockHeight]]
      && store.blockHeight == old(store.blockHeight)[projectId := Decimal.FormatInt(tentativeBlockHeight)]
  {
    var cids := Of(store.dagCids, projectId);
    var lastDagCid := CidAt(cids, tentativeBlockHeight - 1);
    var dag := DagBlock(tentativeBlockHeight, lastDagCid, PayloadRef(payloadCid, "HOT_IPFS"), txHash, timestamp);
    var put := content.Put(dag);
    if put.None? {
      return None;
    }
    var dagCid := put.value;
    store.lastDagCid := store.lastDagCid[projectId := dagCid];
    store.dagCids := store.dagCids[projectId := Add(cids, dagCid, tentativeBlockHeight).0];
    store.blockHeight := store.blockHeight[projectId := Decimal.FormatInt(tentativeBlockHeight)];
    r := Some((dagCid, dag));
  }

  // ---------------------------------------------------------------------------
  // Discarding

  /** `clear_payload_commit_data`: drops every pending entry scored at the tentative
      height and deletes the payload-commit key. The result repeats the removal count
      twice, as `clear_payload_commit_data` appends it twice. */
  method ClearPayloadCommitData(
    store: IndexStore, projectId: ProjectId, payloadCommitId: string, txHash: string,
    tentativeHeight: int)
    returns (deletionResult: seq<int>)
    modifies store`pendingTxs, store`payloadCommits
    ensures var before := Of(old(store.pendingTxs), projectId);
            var after := Of(store.pendingTxs, projectId);
            && after.Keys <= before.Keys
            && (forall k :: k in before ==> (k in after <==> before[k] != tentativeHeight))
            && (forall k :: k in after ==> after[k] == before[k])
            && |deletionResult| == 3
            && deletionResult[0] == deletionResult[1] == |before| - |after|
            && deletionResult[2] == (if payloadCommitId in old(store.payloadCommits) then 1 else 0)
    ensures forall q :: q != projectId ==> Of(store.pendingTxs, q) == Of(old(store.pendingTxs), q)
    ensures store.payloadCommits == old(store.payloadCommits) - {payloadCommitId}
  {
    var before := Of(store.pendingTxs, projectId);
    var (after, out) := RemRangeByScore(before, tentativeHeight, tentativeHeight);
    store.pendingTxs := store.pendingTxs[projectId := after];
    deletionResult := [out, out];
    var deleted := if payloadCommitId in store.payloadCommits then 1 else 0;
    store.payloadCommits := store.payloadCommits - {payloadCommitId};
    deletionResult := deletionResult + [deleted];
  }

  /** `discard_event`: clears the tentative height and logs the transaction hash in the
      project's discarded set, scored at that height. */
  method DiscardEvent(
    store: IndexStore, projectId: ProjectId, payloadCommitId: string, payloadCid: Cid,
    txHash: string, tentativeBlockHeight: int)
    returns (redisOutput: seq<int>)
    modifies store`pendingTxs, store`payloadCommits, store`discardedTxs
    ensures var before := Of(old(store.pendingTxs), projectId);
            var after := Of(store.pendingTxs, projectId);
            && (forall k :: k in after ==> after[k] != tentativeBlockHeight)
            && (forall k :: k in before && before[k] != tentativeBlockHeight ==> k in after && after[k] == before[k])
            && after.Keys <= before.Keys
            && |redisOutput| == 4
            && redisOutput[0] == redisOutput[1] == |before| - |after|
            && redisOutput[2] == (if payloadCommitId in old(store.payloadCommits) then 1 else 0)
    ensures payloadCommitId !in store.payloadCommits
    ensures store.payloadCommits == old(store.payloadCommits) - {payloadCommitId}
    ensures var discarded := Of(store.discardedTxs, projectId);
            && discarded.Keys == Of(old(store.discardedTxs), projectId).Keys + {txHash}
            && discarded[txHash] == tentativeBlockHeight
            && (forall k :: k in Of(old(store.discardedTxs), projectId) && k != txHash ==>
                  k in discarded && discarded[k] == Of(old(store.discardedTxs), projectId)[k])
    ensures forall q :: q != projectId ==> Of(store.pendingTxs, q) == Of(old(store.pendingTxs), q)
    ensures forall q :: q != projectId ==> Of(store.discardedTxs, q) == Of(old(store.discardedTxs), q)
    ensures |redisOutput| == 4 && redisOutput[3] == (if txHash in Of(old(store.discardedTxs), projectId) then 0 else 1)
  {
    var d := ClearPayloadCommitData(store, projectId, payloadCommitId, txHash, tentativeBlockHeight);
    var (discarded, out) := Add(Of(store.discardedTxs, projectId), txHash, tentativeBlockHeight);
    store.discardedTxs := store.discardedTxs[projectId := discarded];
    redisOutput := d + [out];
  }
}
