/**
 Sequences of buffer-manager calls, interleaved with transactions marking the
 pages they hold pinned as modified. A `Run` applies calls one after another
 to a pool, keeping the state unchanged on a failed pin and skipping the calls
 the model excludes: unpinning a slot that is not pinned, `pinNew` with a
 block that is already held, and marking a slot that is not pinned. The
 lemmas show the invariant holds after any run from the constructor, and
 replay the usual fill, exhaust, free and reuse scenario.
 */
module PoolRuns {
  import opened Options
  import opened Slots
  import opened BufferPool
  import opened PoolLemmas

  datatype Op =
    | PinOp(blk: Block)
    | PinNewOp(newBlk: Block)
    | UnpinOp(slot: nat)
    | FlushAllOp(tx: int)
    | ModifyOp(slot: nat, tx: int)

  /** One call: its effect on a valid pool, or no effect if it fails or is excluded. */
  function Step(p: Pool, op: Op): (q: Pool)
    requires Valid(p)
    ensures Valid(q) && |q.slots| == |p.slots|
    ensures PinnedAssigned(p) ==> PinnedAssigned(q)
    ensures PinnedAssigned(p) && UnassignedClean(p) ==> UnassignedClean(q)
  {
    match op
    case PinOp(blk) =>
      PinKeepsValid(p, blk);
      (match Pin(p, blk)
       case None => p
       case Some(r) => r.0)
    case PinNewOp(newBlk) =>
      if newBlk in p.blockMap then p
      else
        PinNewKeepsValid(p, newBlk);
        (match PinNew(p, newBlk)
         case None => p
         case Some(r) => r.0)
    case UnpinOp(i) =>
      if i < |p.slots| && IsPinned(p.slots[i]) then
        UnpinKeepsValid(p, i);
        Unpin(p, i)
      else p
    case FlushAllOp(tx) =>
      FlushAllKeepsValid(p, tx);
      FlushAll(p, tx)
    case ModifyOp(i, tx) =>
      if i < |p.slots| && IsPinned(p.slots[i]) then
        SetModifiedKeepsValid(p, i, tx);
        p.(slots := p.slots[i := SetModified(p.slots[i], tx)])
      else p
  }

  /** The calls `ops`, in order. */
  function Run(p: Pool, ops: seq<Op>): (q: Pool)
    requires Valid(p)
    ensures Valid(q) && |q.slots| == |p.slots|
    ensures PinnedAssigned(p) ==> PinnedAssigned(q)
    ensures PinnedAssigned(p) && UnassignedClean(p) ==> UnassignedClean(q)
    decreases |ops|
  {
    if |ops| == 0 then p else Run(Step(p, ops[0]), ops[1..])
  }

  lemma {:induction false} RunSnoc(p: Pool, ops: seq<Op>, op: Op)
    requires Valid(p)
    ensures Run(p, ops + [op]) == Step(Run(p, ops), op)
    decreases |ops|
  {
    if |ops| > 0 {
      assert (ops + [op])[1..] == ops[1..] + [op];
      RunSnoc(Step(p, ops[0]), ops[1..], op);
    }
  }

  /**
   After any sequence of calls on a fresh pool of `n` slots, `available()`
   is `n` minus the number of pinned slots.
   */
  lemma AvailableAfterAnyRun(n: nat, ops: seq<Op>)
    ensures var q := Run(Init(n), ops);
      Available(q) == n - CountPinned(q.slots)
  {
    CountsPartition(Run(Init(n), ops).slots);
  }

  /**
   After any sequence of calls on a fresh pool, flushing the map's values
   flushes exactly the slots a scan of the whole pool would.
   */
  lemma FlushAllMatchesPoolScanAfterAnyRun(n: nat, ops: seq<Op>, tx: int)
    ensures FlushAll(Run(Init(n), ops), tx) == FlushPoolScan(Run(Init(n), ops), tx)
  {
  }

  /**
   Runs do reach modified pages: after pinning `b` and marking it modified
   by `tx`, `flushAll(tx)` has work to do and leaves the page clean, while
   flushing any other transaction leaves the pool as it is.
   */
  lemma ModifiedPageIsFlushed(b: Block, tx: int, other: int)
    requires other != tx
    ensures var q := Run(Init(1), [PinOp(b), ModifyOp(0, tx)]);
      IsModifiedBy(q.slots[0], tx)
      && FlushAll(q, tx) != q
      && FlushAll(q, tx).slots[0] == Slot(1, Some(b), None)
      && FlushAll(q, other) == q
  {
    var p1 := Run(Init(1), [PinOp(b)]);
    assert p1.slots[0] == Slot(1, Some(b), None) && b in p1.blockMap by {
      PinMiss(Init(1), b);
      assert [PinOp(b)][1..] == [];
      assert p1 == Run(Step(Init(1), PinOp(b)), []);
    }
    RunSnoc(Init(1), [PinOp(b)], ModifyOp(0, tx));
    assert [PinOp(b)] + [ModifyOp(0, tx)] == [PinOp(b), ModifyOp(0, tx)];
  }

  function PinOps(bs: seq<Block>): (ops: seq<Op>)
    ensures |ops| == |bs| && forall k :: 0 <= k < |bs| ==> ops[k] == PinOp(bs[k])
  {
    seq(|bs|, k requires 0 <= k < |bs| => PinOp(bs[k]))
  }

  lemma PinOpsSnoc(bs: seq<Block>, k: nat)
    requires 0 < k <= |bs|
    ensures PinOps(bs[..k]) == PinOps(bs[..k - 1]) + [PinOp(bs[k - 1])]
  {
  }

  ghost predicate Distinct(bs: seq<Block>) {
    forall j, k :: 0 <= j < k < |bs| ==> bs[j] != bs[k]
  }

  /** The blocks among the first `k` of `bs`. */
  ghost function FirstBlocks(bs: seq<Block>, k: nat): set<Block>
    requires k <= |bs|
  {
    set j | 0 <= j < k :: bs[j]
  }

  /** The first `k` slots hold `bs[..k]` once pinned each, the rest are as constructed. */
  ghost predicate FilledUpTo(p: Pool, bs: seq<Block>, k: nat) {
    && k <= |bs| <= |p.slots|
    && (forall j :: 0 <= j < k ==> p.slots[j] == Slot(1, Some(bs[j]), None))
    && (forall j :: k <= j < |p.slots| ==> p.slots[j] == Unused)
    && p.blockMap.Keys == FirstBlocks(bs, k)
    && (forall j :: 0 <= j < k ==> p.blockMap[bs[j]] == j)
    && p.numAvailable == |p.slots| - k
  }

  lemma FillStep(p: Pool, bs: seq<Block>, k: nat)
    requires Valid(p) && Distinct(bs) && FilledUpTo(p, bs, k) && k < |bs|
    ensures FilledUpTo(Step(p, PinOp(bs[k])), bs, k + 1)
  {
  }

  lemma {:induction false} FillPrefix(n: nat, bs: seq<Block>, k: nat)
    requires Distinct(bs) && |bs| <= n && k <= |bs|
    ensures FilledUpTo(Run(Init(n), PinOps(bs[..k])), bs, k)
  {
    if k == 0 {
      assert PinOps(bs[..0]) == [];
    } else {
      var prev := Run(Init(n), PinOps(bs[..k - 1]));
      FillPrefix(n, bs, k - 1);
      FillStep(prev, bs, k - 1);
      assert Run(Init(n), PinOps(bs[..k])) == Step(prev, PinOp(bs[k - 1])) by {
        PinOpsSnoc(bs, k);
        RunSnoc(Init(n), PinOps(bs[..k - 1]), PinOp(bs[k - 1]));
      }
    }
  }

  /**
   Pinning `n` distinct blocks on a fresh pool of `n` slots fills slot `j`
   with the `j`-th block and leaves nothing available; one more distinct
   block is then refused.
   */
  lemma FillThenExhaust(bs: seq<Block>, extra: Block)
    requires Distinct(bs) && extra !in bs
    ensures var q := Run(Init(|bs|), PinOps(bs));
      && q.blockMap.Keys == (set j | 0 <= j < |bs| :: bs[j])
      && (forall j :: 0 <= j < |bs| ==> bs[j] in q.blockMap && q.blockMap[bs[j]] == j)
      && Available(q) == 0
      && Pin(q, extra).None?
  {
    FillPrefix(|bs|, bs, |bs|);
    assert bs[..|bs|] == bs;
    var q := Run(Init(|bs|), PinOps(bs));
    PinFailsIffExhausted(q, extra);
  }

  /** Freeing slot `k` of a full pool and pinning a new block into it. */
  lemma ReuseFreedSlot(p: Pool, bs: seq<Block>, extra: Block, k: nat)
    requires Valid(p) && Distinct(bs) && FilledUpTo(p, bs, |bs|) && |p.slots| == |bs|
    requires extra !in bs && k < |bs|
    ensures IsPinned(p.slots[k])
    ensures var freed := Unpin(p, k);
      && Valid(freed)
      && Available(freed) == 1
      && Pin(freed, extra).Some?
      && var (q, i) := Pin(freed, extra).value;
      && i == k
      && q.blockMap.Keys == (set j | 0 <= j < |bs| && j != k :: bs[j]) + {extra}
      && q.blockMap[extra] == k
      && (forall j :: 0 <= j < |bs| && j != k ==> bs[j] in q.blockMap && q.blockMap[bs[j]] == j)
      && q.numAvailable == 0
  {
    UnpinKeepsValid(p, k);
    var freed := Unpin(p, k);
    assert freed.slots[k] == Slot(0, Some(bs[k]), None);
    PinMiss(freed, extra);
    var (q, i) := Pin(freed, extra).value;
    assert i == k by {
      assert forall j :: 0 <= j < |bs| && j != k ==> IsPinned(freed.slots[j]);
    }
    assert p.blockMap.Keys - {bs[k]} == (set j | 0 <= j < |bs| && j != k :: bs[j]);
  }

  /**
   On a pool filled with distinct blocks, unpinning slot `k` frees exactly
   one slot, and pinning a further distinct block reuses slot `k`: the key of
   the block it held is retired, the new block is installed, every other
   entry stays, and nothing is available again.
   */
  lemma FreeThenReuse(bs: seq<Block>, extra: Block, k: nat)
    requires Distinct(bs) && extra !in bs && k < |bs|
    ensures var freed := Run(Init(|bs|), PinOps(bs) + [UnpinOp(k)]);
      && Available(freed) == 1
      && Pin(freed, extra).Some?
      && var (q, i) := Pin(freed, extra).value;
      && i == k
      && q.blockMap.Keys == (set j | 0 <= j < |bs| && j != k :: bs[j]) + {extra}
      && q.blockMap[extra] == k
      && (forall j :: 0 <= j < |bs| && j != k ==> bs[j] in q.blockMap && q.blockMap[bs[j]] == j)
      && q.numAvailable == 0
  {
    var n := |bs|;
    var full := Run(Init(n), PinOps(bs));
    assert FilledUpTo(full, bs, n) by {
      FillPrefix(n, bs, n);
      assert bs[..n] == bs;
    }
    assert Run(Init(n), PinOps(bs) + [UnpinOp(k)]) == Unpin(full, k) by {
      RunSnoc(Init(n), PinOps(bs), UnpinOp(k));
    }
    ReuseFreedSlot(full, bs, extra, k);
  }

  lemma FilledMapIsLiteral(bs: seq<Block>, m: map<Block, nat>)
    requires |bs| == 3
    requires m.Keys == (set j | 0 <= j < |bs| :: bs[j])
    requires forall j :: 0 <= j < |bs| ==> bs[j] in m && m[bs[j]] == j
    ensures m == map[bs[0] := 0, bs[1] := 1, bs[2] := 2]
  {
  }

  /**
   The three-slot scenario, first half: pinning B1, B2, B3 fills slots 0, 1
   and 2 in that order, and B4 is then refused.
   */
  lemma ThreeSlotsFill(b1: Block, b2: Block, b3: Block, b4: Block)
    requires Distinct([b1, b2, b3, b4])
    ensures var full := Run(Init(3), PinOps([b1, b2, b3]));
      && full.blockMap == map[b1 := 0, b2 := 1, b3 := 2]
      && Available(full) == 0
      && Pin(full, b4).None?
  {
    var bs := [b1, b2, b3];
    assert Distinct(bs) && b4 !in bs by {
      var all := [b1, b2, b3, b4];
      assert b1 == all[0] && b2 == all[1] && b3 == all[2] && b4 == all[3];
    }
    FillThenExhaust(bs, b4);
    FilledMapIsLiteral(bs, Run(Init(3), PinOps(bs)).blockMap);
  }

  lemma ReusedMapIsLiteral(bs: seq<Block>, b4: Block, m: map<Block, nat>)
    requires |bs| == 3 && Distinct(bs) && b4 !in bs
    requires m.Keys == (set j | 0 <= j < |bs| && j != 1 :: bs[j]) + {b4}
    requires m[b4] == 1
    requires forall j :: 0 <= j < |bs| && j != 1 ==> bs[j] in m && m[bs[j]] == j
    ensures m == map[bs[0] := 0, b4 := 1, bs[2] := 2]
  {
  }

  /**
   The three-slot scenario, second half: after unpinning slot 1 one slot is
   free, and pinning B4 reuses slot 1, retiring B2's entry.
   */
  lemma ThreeSlotsReuse(b1: Block, b2: Block, b3: Block, b4: Block)
    requires Distinct([b1, b2, b3, b4])
    ensures var freed := Run(Init(3), PinOps([b1, b2, b3]) + [UnpinOp(1)]);
      && Available(freed) == 1
      && Pin(freed, b4).Some?
      && Pin(freed, b4).value.1 == 1
      && Pin(freed, b4).value.0.blockMap == map[b1 := 0, b4 := 1, b3 := 2]
      && Pin(freed, b4).value.0.numAvailable == 0
  {
    var bs := [b1, b2, b3];
    assert Distinct(bs) && b4 !in bs by {
      var all := [b1, b2, b3, b4];
      assert b1 == all[0] && b2 == all[1] && b3 == all[2] && b4 == all[3];
    }
    FreeThenReuse(bs, b4, 1);
    var freed := Run(Init(3), PinOps(bs) + [UnpinOp(1)]);
    ReusedMapIsLiteral(bs, b4, Pin(freed, b4).value.0.blockMap);
  }

}
