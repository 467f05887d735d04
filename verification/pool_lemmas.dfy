/**
 Properties of the buffer manager's transitions: what each operation does to
 the slots, the block map and the available counter, and that every
 operation preserves the class invariant `Valid`.
 */
module PoolLemmas {
  import opened Options
  import opened Slots
  import opened BufferPool

  // ---------------------------------------------------------------------
  // Counting
  // ---------------------------------------------------------------------

  /** Replacing one slot changes the unpinned count by that slot's change only. */
  lemma {:induction false} CountUpdate(s: seq<Slot>, i: nat, x: Slot)
    requires i < |s|
    ensures CountUnpinned(s[i := x]) ==
      CountUnpinned(s) - (if IsPinned(s[i]) then 0 else 1) + (if IsPinned(x) then 0 else 1)
  {
    if i > 0 {
      assert s[i := x][1..] == s[1..][i - 1 := x];
      CountUpdate(s[1..], i - 1, x);
    } else {
      assert s[i := x][1..] == s[1..];
    }
  }

  /** Every slot is either pinned or unpinned. */
  lemma {:induction false} CountsPartition(s: seq<Slot>)
    ensures CountUnpinned(s) + CountPinned(s) == |s|
  {
    if |s| > 0 {
      CountsPartition(s[1..]);
    }
  }

  /** The unpinned count is positive exactly when some slot is unpinned. */
  lemma {:induction false} CountPositiveIffSomeUnpinned(s: seq<Slot>)
    ensures CountUnpinned(s) > 0 <==> exists j :: 0 <= j < |s| && !IsPinned(s[j])
  {
    if |s| > 0 {
      CountPositiveIffSomeUnpinned(s[1..]);
      if exists j :: 0 <= j < |s| && !IsPinned(s[j]) {
        var j :| 0 <= j < |s| && !IsPinned(s[j]);
        if j > 0 {
          assert !IsPinned(s[1..][j - 1]);
        }
      }
      if exists j :: 0 <= j < |s[1..]| && !IsPinned(s[1..][j]) {
        var j :| 0 <= j < |s[1..]| && !IsPinned(s[1..][j]);
        assert !IsPinned(s[j + 1]);
      }
    }
  }

  // ---------------------------------------------------------------------
  // Consequences of the invariant
  // ---------------------------------------------------------------------

  /**
   Under the invariant the map is injective, a slot is assigned exactly when
   it is a map value, and the counter lies between 0 and the pool size.
   */
  lemma ValidFacts(p: Pool)
    requires Valid(p)
    ensures Injective(p.blockMap)
    ensures forall j :: 0 <= j < |p.slots| ==> (p.slots[j].blk.Some? <==> IsMapped(p, j))
    ensures 0 <= p.numAvailable <= |p.slots|
  {
  }

  /** Victim selection succeeds exactly when the counter says a slot is free. */
  lemma ChooseSucceedsIffAvailable(p: Pool)
    requires Valid(p)
    ensures ChooseUnpinnedBuffer(p.slots).Some? <==> Available(p) > 0
  {
    CountPositiveIffSomeUnpinned(p.slots);
    if ChooseUnpinnedBuffer(p.slots).Some? {
      assert !IsPinned(p.slots[ChooseUnpinnedBuffer(p.slots).value]);
    }
  }

  /**
   The reverse lookup through the map finds exactly the block the slot
   itself records as assigned.
   */
  lemma ReverseLookupIsSlotBlock(p: Pool, i: nat)
    requires Valid(p) && i < |p.slots|
    ensures Injective(p.blockMap)
    ensures GetExistingBlockForBuffer(p.blockMap, i) == p.slots[i].blk
  {
  }

  /**
   The slot scan that `findExistingBuffer` once used (first slot holding
   `blk`, searching from index `from`).
   */
  function FirstHoldingFrom(slots: seq<Slot>, blk: Block, from: nat): (r: Option<nat>)
    requires from <= |slots|
    ensures r.Some? ==> from <= r.value < |slots| && slots[r.value].blk == Some(blk)
    ensures r.Some? ==> forall j :: from <= j < r.value ==> slots[j].blk != Some(blk)
    ensures r.None? ==> forall j :: from <= j < |slots| ==> slots[j].blk != Some(blk)
    decreases |slots| - from
  {
    if from == |slots| then None
    else if slots[from].blk == Some(blk) then Some(from)
    else FirstHoldingFrom(slots, blk, from + 1)
  }

  /** The map lookup answers exactly as the scan over the slots would. */
  lemma FindExistingMatchesSlotScan(p: Pool, blk: Block)
    requires Valid(p)
    ensures FindExistingBuffer(p, blk) == FirstHoldingFrom(p.slots, blk, 0)
  {
  }

  // ---------------------------------------------------------------------
  // Reassignment of a victim slot
  // ---------------------------------------------------------------------

  /** Loading a block no slot holds into any slot keeps the map and slots consistent. */
  lemma ReassignKeepsMapping(p: Pool, i: nat, blk: Block)
    requires Valid(p) && i < |p.slots| && blk !in p.blockMap
    ensures var q := Reassign(p, i, blk);
      && MapMatchesSlots(q) && SlotsMatchMap(q)
      && CountUnpinned(q.slots) == CountUnpinned(p.slots)
  {
    var q := Reassign(p, i, blk);
    CountUpdate(p.slots, i, Assign(p.slots[i], blk));
    forall j | 0 <= j < |q.slots| && q.slots[j].blk.Some?
      ensures q.slots[j].blk.value in q.blockMap && q.blockMap[q.slots[j].blk.value] == j
    {
      if j != i {
        var b := p.slots[j].blk.value;
        assert b in p.blockMap && p.blockMap[b] == j;
      }
    }
  }

  /** The final pin step keeps the invariant. */
  lemma PinAtKeepsValid(p: Pool, i: nat)
    requires Valid(p) && i < |p.slots|
    ensures Valid(PinAt(p, i))
  {
    CountUpdate(p.slots, i, PinSlot(p.slots[i]));
  }

  // ---------------------------------------------------------------------
  // pin
  // ---------------------------------------------------------------------

  /**
   A hit reuses the slot already holding `blk`: the map is unchanged, that
   slot gains one pin, no other slot changes, and the counter drops by one
   exactly when the slot was unpinned.
   */
  lemma PinHit(p: Pool, blk: Block)
    requires Valid(p) && blk in p.blockMap
    ensures Pin(p, blk).Some?
    ensures var (q, i) := Pin(p, blk).value;
      && i == p.blockMap[blk]
      && q.blockMap == p.blockMap
      && |q.slots| == |p.slots|
      && q.slots[i] == p.slots[i].(pins := p.slots[i].pins + 1)
      && (forall j :: 0 <= j < |p.slots| && j != i ==> q.slots[j] == p.slots[j])
      && q.numAvailable == p.numAvailable - (if IsPinned(p.slots[i]) then 0 else 1)
  {
  }

  /** `pin` fails exactly when `blk` is not held and no slot is available. */
  lemma PinFailsIffExhausted(p: Pool, blk: Block)
    requires Valid(p)
    ensures Pin(p, blk).None? <==> blk !in p.blockMap && Available(p) == 0
  {
    CountPositiveIffSomeUnpinned(p.slots);
  }

  /**
   A miss with a free slot loads `blk` into the lowest-index unpinned slot:
   that slot's old key is gone, `blk` maps to it, every other entry and every
   other slot is untouched, and one fewer slot is available.
   */
  lemma PinMiss(p: Pool, blk: Block)
    requires Valid(p) && blk !in p.blockMap && Available(p) > 0
    ensures Pin(p, blk).Some?
    ensures var (q, i) := Pin(p, blk).value;
      && i < |p.slots| && !IsPinned(p.slots[i])
      && (forall j :: 0 <= j < i ==> IsPinned(p.slots[j]))
      && |q.slots| == |p.slots|
      && q.slots[i] == Slot(1, Some(blk), None)
      && (forall j :: 0 <= j < |p.slots| && j != i ==> q.slots[j] == p.slots[j])
      && (p.slots[i].blk.Some? ==> p.slots[i].blk.value !in q.blockMap)
      && q.blockMap.Keys == p.blockMap.Keys - (if p.slots[i].blk.Some? then {p.slots[i].blk.value} else {}) + {blk}
      && q.blockMap[blk] == i
      && (forall b :: b in q.blockMap && b != blk ==> q.blockMap[b] == p.blockMap[b])
      && q.numAvailable == p.numAvailable - 1
  {
    ChooseSucceedsIffAvailable(p);
    var i := ChooseUnpinnedBuffer(p.slots).value;
    var q := Pin(p, blk).value.0;
    ValidFacts(p);
    if p.slots[i].blk.Some? {
      var prev := p.slots[i].blk.value;
      assert p.blockMap[prev] == i;
      assert prev != blk;
    }
    assert forall b :: b in p.blockMap && p.blockMap[b] == i ==> Some(b) == p.slots[i].blk;
  }

  /** `pin` preserves the invariant. */
  lemma PinKeepsValid(p: Pool, blk: Block)
    requires Valid(p)
    ensures Pin(p, blk).Some? ==> Valid(Pin(p, blk).value.0)
  {
    if blk in p.blockMap {
      PinAtKeepsValid(p, p.blockMap[blk]);
    } else if ChooseUnpinnedBuffer(p.slots).Some? {
      var i := ChooseUnpinnedBuffer(p.slots).value;
      ReassignKeepsMapping(p, i, blk);
      PinAtKeepsValid(Reassign(p, i, blk), i);
    }
  }

  /** Releasing the pin a hit took restores the pool exactly. */
  lemma PinHitThenUnpinRestores(p: Pool, blk: Block)
    requires Valid(p) && blk in p.blockMap
    ensures Pin(p, blk).Some?
    ensures var (q, i) := Pin(p, blk).value;
      i < |q.slots| && IsPinned(q.slots[i]) && Unpin(q, i) == p
  {
  }

  // ---------------------------------------------------------------------
  // pinNew
  // ---------------------------------------------------------------------

  /**
   A successful `pinNew` loads the new block into the lowest-index unpinned
   slot with one pin, removes that slot's old key, adds the new one, leaves
   every other entry and slot alone and decrements the counter by one; it
   fails exactly when no slot is available.
   */
  lemma PinNewResult(p: Pool, newBlk: Block)
    requires Valid(p) && newBlk !in p.blockMap
    ensures PinNew(p, newBlk).None? <==> Available(p) == 0
    ensures PinNew(p, newBlk).Some? ==> var (q, i) := PinNew(p, newBlk).value;
      && i < |p.slots| && !IsPinned(p.slots[i])
      && (forall j :: 0 <= j < i ==> IsPinned(p.slots[j]))
      && |q.slots| == |p.slots|
      && q.slots[i] == Slot(1, Some(newBlk), None)
      && (forall j :: 0 <= j < |p.slots| && j != i ==> q.slots[j] == p.slots[j])
      && q.blockMap.Keys == p.blockMap.Keys - (if p.slots[i].blk.Some? then {p.slots[i].blk.value} else {}) + {newBlk}
      && q.blockMap[newBlk] == i
      && (forall b :: b in q.blockMap && b != newBlk ==> q.blockMap[b] == p.blockMap[b])
      && q.numAvailable == p.numAvailable - 1
  {
    ChooseSucceedsIffAvailable(p);
    ValidFacts(p);
    if PinNew(p, newBlk).Some? {
      var i := ChooseUnpinnedBuffer(p.slots).value;
      if p.slots[i].blk.Some? {
        assert p.blockMap[p.slots[i].blk.value] == i;
      }
      assert forall b :: b in p.blockMap && p.blockMap[b] == i ==> Some(b) == p.slots[i].blk;
    }
  }

  /** `pinNew` preserves the invariant, its unconditional decrement included. */
  lemma PinNewKeepsValid(p: Pool, newBlk: Block)
    requires Valid(p) && newBlk !in p.blockMap
    ensures PinNew(p, newBlk).Some? ==> Valid(PinNew(p, newBlk).value.0)
  {
    if ChooseUnpinnedBuffer(p.slots).Some? {
      var i := ChooseUnpinnedBuffer(p.slots).value;
      ReassignKeepsMapping(p, i, newBlk);
      var q := Reassign(p, i, newBlk);
      CountUpdate(q.slots, i, PinSlot(q.slots[i]));
    }
  }

  // ---------------------------------------------------------------------
  // unpin
  // ---------------------------------------------------------------------

  /** `unpin` preserves the invariant. */
  lemma UnpinKeepsValid(p: Pool, i: nat)
    requires Valid(p) && i < |p.slots| && IsPinned(p.slots[i])
    ensures Valid(Unpin(p, i))
  {
    CountUpdate(p.slots, i, UnpinSlot(p.slots[i]));
  }

  // ---------------------------------------------------------------------
  // flushAll
  // ---------------------------------------------------------------------

  /** `flushAll` preserves the invariant. */
  lemma FlushAllKeepsValid(p: Pool, tx: int)
    requires Valid(p)
    ensures Valid(FlushAll(p, tx))
  {
    var q := FlushAll(p, tx);
    SamePinsSameCount(p.slots, q.slots);
  }

  lemma {:induction false} SamePinsSameCount(s: seq<Slot>, t: seq<Slot>)
    requires |s| == |t|
    requires forall j :: 0 <= j < |s| ==> s[j].pins == t[j].pins
    ensures CountUnpinned(s) == CountUnpinned(t)
  {
    if |s| > 0 {
      SamePinsSameCount(s[1..], t[1..]);
    }
  }

  /** Flushing the same transaction twice does nothing the first did not. */
  lemma FlushAllIdempotent(p: Pool, tx: int)
    ensures FlushAll(FlushAll(p, tx), tx) == FlushAll(p, tx)
  {
  }

  /**
   A transaction marking a page of a pinned slot as modified changes
   nothing the manager keeps: the invariant still holds.
   */
  lemma SetModifiedKeepsValid(p: Pool, i: nat, tx: int)
    requires Valid(p) && i < |p.slots|
    ensures Valid(p.(slots := p.slots[i := SetModified(p.slots[i], tx)]))
  {
    CountUpdate(p.slots, i, SetModified(p.slots[i], tx));
  }

  /** Every pinned slot holds a block. */
  ghost predicate PinnedAssigned(p: Pool) {
    forall j :: 0 <= j < |p.slots| && IsPinned(p.slots[j]) ==> p.slots[j].blk.Some?
  }

  /** No slot outside the map holds a modified page. */
  ghost predicate UnassignedClean(p: Pool) {
    forall j :: 0 <= j < |p.slots| && p.slots[j].blk.None? ==> p.slots[j].modTx.None?
  }

  /** The flush that scans every slot of the pool rather than the map's values. */
  function FlushPoolScan(p: Pool, tx: int): (q: Pool)
    ensures |q.slots| == |p.slots| && q.blockMap == p.blockMap && q.numAvailable == p.numAvailable
    ensures forall j :: 0 <= j < |p.slots| ==> !IsModifiedBy(q.slots[j], tx)
  {
    var slots := seq(|p.slots|, j requires 0 <= j < |p.slots| =>
      if IsModifiedBy(p.slots[j], tx) then Flush(p.slots[j]) else p.slots[j]);
    Pool(slots, p.blockMap, p.numAvailable)
  }

  /**
   Iterating over the map's values flushes the same slots as scanning the
   whole pool, as long as unassigned slots are clean.
   */
  lemma FlushAllMatchesPoolScan(p: Pool, tx: int)
    requires Valid(p) && UnassignedClean(p)
    ensures FlushAll(p, tx) == FlushPoolScan(p, tx)
  {
  }

}
