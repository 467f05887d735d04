/**
 The basic buffer manager as a deterministic state machine. A `Pool` holds a
 fixed sequence of slots, the map from each assigned block to the index of
 the slot holding it, and the counter of unpinned slots. Each public
 operation is a pure transition; a failed `Pin` or `PinNew` (a `null` return
 in Java) is `None`, and the caller keeps the state it had.
 */
module BufferPool {
  import opened Options
  import opened Slots

  datatype Pool = Pool(slots: seq<Slot>, blockMap: map<Block, nat>, numAvailable: int)

  /** Number of unpinned slots. */
  function CountUnpinned(slots: seq<Slot>): (n: nat)
    ensures n <= |slots|
  {
    if |slots| == 0 then 0
    else (if IsPinned(slots[0]) then 0 else 1) + CountUnpinned(slots[1..])
  }

  /** Number of pinned slots. */
  function CountPinned(slots: seq<Slot>): (n: nat)
    ensures n <= |slots|
  {
    if |slots| == 0 then 0
    else (if IsPinned(slots[0]) then 1 else 0) + CountPinned(slots[1..])
  }

  /** No slot is the target of two block keys. */
  ghost predicate Injective(m: map<Block, nat>) {
    forall b1, b2 :: b1 in m && b2 in m && m[b1] == m[b2] ==> b1 == b2
  }

  /** Every key maps to a slot that holds that very block. */
  ghost predicate MapMatchesSlots(p: Pool) {
    forall b :: b in p.blockMap ==> p.blockMap[b] < |p.slots| && p.slots[p.blockMap[b]].blk == Some(b)
  }

  /** Every assigned slot is the target of its own block's key. */
  ghost predicate SlotsMatchMap(p: Pool) {
    forall i :: 0 <= i < |p.slots| && p.slots[i].blk.Some? ==>
      p.slots[i].blk.value in p.blockMap && p.blockMap[p.slots[i].blk.value] == i
  }

  /** The class invariant of the buffer manager. */
  ghost predicate Valid(p: Pool) {
    && MapMatchesSlots(p)
    && SlotsMatchMap(p)
    && p.numAvailable == CountUnpinned(p.slots)
  }

  lemma {:induction false} AllUnusedCount(slots: seq<Slot>)
    requires forall i :: 0 <= i < |slots| ==> slots[i] == Unused
    ensures CountUnpinned(slots) == |slots|
  {
    if |slots| > 0 {
      AllUnusedCount(slots[1..]);
    }
  }

  /** The constructor: `numbuffs` fresh slots, an empty map, all available. */
  function Init(numbuffs: nat): (p: Pool)
    ensures |p.slots| == numbuffs
    ensures forall i :: 0 <= i < numbuffs ==> !IsPinned(p.slots[i]) && p.slots[i].blk == None
    ensures p.blockMap == map[]
    ensures p.numAvailable == numbuffs
    ensures Valid(p)
  {
    var slots := seq(numbuffs, _ => Unused);
    AllUnusedCount(slots);
    Pool(slots, map[], numbuffs)
  }

  /** `available()`: the number of unpinned slots. */
  function Available(p: Pool): (n: int)
    requires Valid(p)
    ensures n == CountUnpinned(p.slots)
    ensures 0 <= n <= |p.slots|
  {
    p.numAvailable
  }

  /** `findExistingBuffer`: the slot already holding `blk`, if any. */
  function FindExistingBuffer(p: Pool, blk: Block): (r: Option<nat>)
    requires Valid(p)
    ensures r.Some? ==> r.value < |p.slots| && p.slots[r.value].blk == Some(blk)
    ensures r.None? ==> forall i :: 0 <= i < |p.slots| ==> p.slots[i].blk != Some(blk)
  {
    if blk in p.blockMap then Some(p.blockMap[blk]) else None
  }

  /** First-fit search for an unpinned slot at index `from` or later. */
  function FirstUnpinnedFrom(slots: seq<Slot>, from: nat): (r: Option<nat>)
    requires from <= |slots|
    ensures r.Some? ==> from <= r.value < |slots| && !IsPinned(slots[r.value])
    ensures r.Some? ==> forall j :: from <= j < r.value ==> IsPinned(slots[j])
    ensures r.None? ==> forall j :: from <= j < |slots| ==> IsPinned(slots[j])
    decreases |slots| - from
  {
    if from == |slots| then None
    else if !IsPinned(slots[from]) then Some(from)
    else FirstUnpinnedFrom(slots, from + 1)
  }

  /** `chooseUnpinnedBuffer`: the lowest-index unpinned slot, if any. */
  function ChooseUnpinnedBuffer(slots: seq<Slot>): (r: Option<nat>)
    ensures r.Some? ==> r.value < |slots| && !IsPinned(slots[r.value])
    ensures r.Some? ==> forall j :: 0 <= j < r.value ==> IsPinned(slots[j])
    ensures r.None? ==> forall j :: 0 <= j < |slots| ==> IsPinned(slots[j])
  {
    FirstUnpinnedFrom(slots, 0)
  }

  /**
   `getExistingBlockForBuffer`: the key whose value is slot `i`, found by
   looking through the map's entries. Injectivity makes the key unique.
   */
  function GetExistingBlockForBuffer(m: map<Block, nat>, i: nat): (r: Option<Block>)
    requires Injective(m)
    ensures r.Some? ==> r.value in m && m[r.value] == i
    ensures r.None? ==> forall b :: b in m ==> m[b] != i
  {
    if i in m.Values then
      var b :| b in m && m[b] == i; Some(b)
    else None
  }

  /**
   `updateMap`: drop the key `oldBlock` and re-key its slot under the block
   that slot now holds.
   */
  function UpdateMap(m: map<Block, nat>, slots: seq<Slot>, oldBlock: Block): (r: map<Block, nat>)
    requires oldBlock in m && m[oldBlock] < |slots| && slots[m[oldBlock]].blk.Some?
    ensures var nb := slots[m[oldBlock]].blk.value;
      && nb in r && r[nb] == m[oldBlock]
      && (oldBlock != nb ==> oldBlock !in r)
      && forall b :: b != oldBlock && b != nb ==> (b in r <==> b in m)
    ensures forall b :: b in r && b != slots[m[oldBlock]].blk.value ==> b in m && r[b] == m[b]
  {
    var i := m[oldBlock];
    (m - {oldBlock})[slots[i].blk.value := i]
  }

  /**
   The reassignment shared by `pin` on a miss and `pinNew`: load `blk` into
   victim slot `i`, then replace the slot's old key (if it had one) by `blk`.
   */
  function Reassign(p: Pool, i: nat, blk: Block): (q: Pool)
    requires Valid(p) && i < |p.slots|
    ensures q.slots == p.slots[i := Assign(p.slots[i], blk)]
    ensures q.numAvailable == p.numAvailable
    ensures blk in q.blockMap && q.blockMap[blk] == i
    ensures forall b :: b != blk ==> (b in q.blockMap <==> b in p.blockMap && p.blockMap[b] != i)
    ensures forall b :: b in q.blockMap && b != blk ==> q.blockMap[b] == p.blockMap[b]
  {
    var slots := p.slots[i := Assign(p.slots[i], blk)];
    assert Injective(p.blockMap) by {
      ValidInjective(p);
    }
    match GetExistingBlockForBuffer(p.blockMap, i)
    case None => Pool(slots, p.blockMap[blk := i], p.numAvailable)
    case Some(oldBlock) => Pool(slots, UpdateMap(p.blockMap, slots, oldBlock), p.numAvailable)
  }

  lemma ValidInjective(p: Pool)
    requires MapMatchesSlots(p)
    ensures Injective(p.blockMap)
  {
  }

  /** The pin step that ends `pin`: one less available if the slot was free. */
  function PinAt(p: Pool, i: nat): (q: Pool)
    requires i < |p.slots|
    ensures |q.slots| == |p.slots| && q.blockMap == p.blockMap
    ensures q.slots[i] == p.slots[i].(pins := p.slots[i].pins + 1)
    ensures forall j :: 0 <= j < |p.slots| && j != i ==> q.slots[j] == p.slots[j]
    ensures q.numAvailable + (if IsPinned(p.slots[i]) then 0 else 1) == p.numAvailable
  {
    var avail := if !IsPinned(p.slots[i]) then p.numAvailable - 1 else p.numAvailable;
    Pool(p.slots[i := PinSlot(p.slots[i])], p.blockMap, avail)
  }

  /**
   `pin(blk)`: reuse the slot already holding `blk`, else load `blk` into the
   first unpinned slot; `None` when `blk` is not held and every slot is pinned.
   */
  function Pin(p: Pool, blk: Block): (r: Option<(Pool, nat)>)
    requires Valid(p)
    ensures r.None? <==> blk !in p.blockMap && forall j :: 0 <= j < |p.slots| ==> IsPinned(p.slots[j])
    ensures r.Some? ==>
      && r.value.1 < |r.value.0.slots| == |p.slots|
      && r.value.0.slots[r.value.1].blk == Some(blk)
      && IsPinned(r.value.0.slots[r.value.1])
      && blk in r.value.0.blockMap && r.value.0.blockMap[blk] == r.value.1
  {
    match FindExistingBuffer(p, blk)
    case Some(i) => Some((PinAt(p, i), i))
    case None =>
      match ChooseUnpinnedBuffer(p.slots)
      case None => None
      case Some(i) => Some((PinAt(Reassign(p, i, blk), i), i))
  }

  /**
   `pinNew`: `newBlk` is the block the file manager has just appended, which
   no slot holds yet. `None` when every slot is pinned.
   */
  function PinNew(p: Pool, newBlk: Block): (r: Option<(Pool, nat)>)
    requires Valid(p) && newBlk !in p.blockMap
    ensures r.None? <==> forall j :: 0 <= j < |p.slots| ==> IsPinned(p.slots[j])
    ensures r.Some? ==>
      && r.value.1 < |r.value.0.slots| == |p.slots|
      && r.value.0.slots[r.value.1].blk == Some(newBlk)
      && r.value.0.slots[r.value.1].pins == 1
      && newBlk in r.value.0.blockMap && r.value.0.blockMap[newBlk] == r.value.1
  {
    match ChooseUnpinnedBuffer(p.slots)
    case None => None
    case Some(i) =>
      var q := Reassign(p, i, newBlk);
      Some((Pool(q.slots[i := PinSlot(q.slots[i])], q.blockMap, q.numAvailable - 1), i))
  }

  /** `unpin`: release one pin on a pinned slot. */
  function Unpin(p: Pool, i: nat): (q: Pool)
    requires i < |p.slots| && IsPinned(p.slots[i])
    ensures |q.slots| == |p.slots| && q.blockMap == p.blockMap
    ensures q.slots[i].pins + 1 == p.slots[i].pins
    ensures q.slots[i].blk == p.slots[i].blk && q.slots[i].modTx == p.slots[i].modTx
    ensures forall j :: 0 <= j < |p.slots| && j != i ==> q.slots[j] == p.slots[j]
    ensures q.numAvailable == p.numAvailable + (if IsPinned(q.slots[i]) then 0 else 1)
  {
    var s := UnpinSlot(p.slots[i]);
    Pool(p.slots[i := s], p.blockMap, if !IsPinned(s) then p.numAvailable + 1 else p.numAvailable)
  }

  /** Whether slot `j` is a value of the block map, i.e. assigned. */
  predicate IsMapped(p: Pool, j: nat) {
    j in p.blockMap.Values
  }

  /** `flushAll(tx)`: write back every assigned slot last modified by `tx`. */
  function FlushAll(p: Pool, tx: int): (q: Pool)
    ensures q.blockMap == p.blockMap && q.numAvailable == p.numAvailable
    ensures |q.slots| == |p.slots|
    ensures forall j :: 0 <= j < |p.slots| ==>
      && q.slots[j].pins == p.slots[j].pins
      && q.slots[j].blk == p.slots[j].blk
      && (q.slots[j] != p.slots[j] ==> IsMapped(p, j) && IsModifiedBy(p.slots[j], tx))
    ensures forall j :: 0 <= j < |p.slots| && IsMapped(p, j) && IsModifiedBy(p.slots[j], tx) ==>
      q.slots[j].modTx == None
    ensures forall j :: 0 <= j < |p.slots| && IsMapped(p, j) ==> !IsModifiedBy(q.slots[j], tx)
  {
    var slots := seq(|p.slots|, j requires 0 <= j < |p.slots| =>
      if IsMapped(p, j) && IsModifiedBy(p.slots[j], tx) then Flush(p.slots[j]) else p.slots[j]);
    Pool(slots, p.blockMap, p.numAvailable)
  }

}
