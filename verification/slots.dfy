/**
 The manager's view of the two collaborators it works with: a disk `Block`
 and a `Buffer`, here called a slot. Only the state the buffer manager reads
 or changes is kept: the pin count, the assigned block and the transaction
 that last modified the slot's page. Page contents, log sequence numbers and
 the disk and log traffic behind assigning and flushing are not modelled.
 */
module Slots {
  import opened Options

  /** A block of a named file; two blocks are equal iff name and number agree. */
  datatype Block = Block(filename: string, blknum: nat)

  /**
   One buffer slot. `modTx` is the transaction that last modified the page,
   `None` when the page is clean.
   */
  datatype Slot = Slot(pins: nat, blk: Option<Block>, modTx: Option<int>)

  /** A freshly constructed buffer: unpinned, unassigned, clean. */
  const Unused: Slot := Slot(0, None, None)

  predicate IsPinned(s: Slot) {
    s.pins > 0
  }

  predicate IsModifiedBy(s: Slot, tx: int) {
    s.modTx == Some(tx)
  }

  /** Take one more pin on the slot. */
  function PinSlot(s: Slot): Slot {
    s.(pins := s.pins + 1)
  }

  /** Release one pin; releasing an unpinned slot is a caller error. */
  function UnpinSlot(s: Slot): Slot
    requires IsPinned(s)
  {
    s.(pins := s.pins - 1)
  }

  /** The mark a transaction leaves on a page it changed (`setModified`). */
  function SetModified(s: Slot, tx: int): Slot {
    s.(modTx := Some(tx))
  }

  /** Write a modified page back: the page becomes clean. */
  function Flush(s: Slot): Slot {
    s.(modTx := None)
  }

  /**
   The effect of both `assignToBlock` and `assignToNew`: the prior page is
   written back and the slot now holds `b`, clean.
   */
  function Assign(s: Slot, b: Block): Slot {
    Flush(s).(blk := Some(b))
  }

}
