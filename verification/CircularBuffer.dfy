/** aesd-circular-buffer.c: the ring updated in place. */
module CircularBuffers {
  import opened Bytes
  import opened Positions
  import opened LineLog
  import opened Ring

  datatype Entry = Entry(buffptr: array?<byte>, size: nat)

  const NO_ENTRY := Entry(null, 0)

  function EntrySizes(es: seq<Entry>): (r: seq<nat>)
    ensures |r| == |es|
  {
    seq(|es|, i requires 0 <= i < |es| => es[i].size)
  }

  function SizeRing(r: Ring<Entry>): Ring<nat> {
    Ring(EntrySizes(r.slots), r.inOffs, r.outOffs, r.full)
  }

  lemma SizeRingAgrees(r: Ring<Entry>)
    requires Inv(r, NO_ENTRY)
    ensures Inv(SizeRing(r), 0) && Logical(SizeRing(r)) == EntrySizes(Logical(r))
  {
  }

  /** One turn of the search: it adds one size, or stops at the slot and offset `pos` has. */
  lemma SearchTurn(r: Ring<Entry>, i: nat, pos: nat)
    requires Inv(r, NO_ENTRY) && i < CAPACITY && Walked(SizeRing(r), i) <= pos
    ensures Walked(SizeRing(r), i + 1) == Walked(SizeRing(r), i) + r.slots[Slot(i + r.inOffs)].size
    ensures Walked(SizeRing(r), i + 1) > pos ==>
              && SlotAt(EntrySizes(Logical(r)), r.outOffs, pos) == Some((Slot(i + r.inOffs), pos - Walked(SizeRing(r), i)))
              && pos < Total(EntrySizes(Logical(r)))
  {
    var sizes := SizeRing(r);
    SizeRingAgrees(r);
    assert Walked(sizes, i + 1) == Walked(sizes, i) + sizes.slots[Slot(i + sizes.inOffs)];
    if Walked(sizes, i + 1) > pos {
      WalkStops(sizes, i, pos);
    }
  }

  lemma SearchRunsOut(r: Ring<Entry>, pos: nat)
    requires Inv(r, NO_ENTRY) && Walked(SizeRing(r), CAPACITY) <= pos
    ensures SlotAt(EntrySizes(Logical(r)), r.outOffs, pos) == None && pos >= Total(EntrySizes(Logical(r)))
  {
    SizeRingAgrees(r);
    WalkRunsOut(SizeRing(r), pos);
  }

  class CircularBuffer {
    const entry: array<Entry>
    var inOffs: nat
    var outOffs: nat
    var full: bool
    /** The static that aesd_circular_buffer_add_entry returns a pointer to. */
    var evictedEntry: Entry

    ghost function View(): Ring<Entry>
      reads `inOffs, `outOffs, `full, entry
    {
      Ring(entry[..], inOffs, outOffs, full)
    }

    ghost predicate Valid()
      reads `inOffs, `outOffs, `full, entry
    {
      Inv(View(), NO_ENTRY)
    }

    ghost function Entries(): seq<Entry>
      requires Valid()
      reads `inOffs, `outOffs, `full, entry
    {
      Logical(View())
    }

    constructor ()
      ensures Valid() && fresh(entry)
      ensures View() == Init(NO_ENTRY)
    {
      entry := new Entry[CAPACITY](_ => NO_ENTRY);
      inOffs, outOffs, full := 0, 0, false;
      evictedEntry := NO_ENTRY;
      new;
      assert entry[..] == Init(NO_ENTRY).slots;
    }

    /** aesd_circular_buffer_init: the memset over the whole struct. */
    method Initialise()
      requires entry.Length == CAPACITY
      modifies this, entry
      ensures Valid() && View() == Init(NO_ENTRY)
    {
      forall i | 0 <= i < entry.Length {
        entry[i] := NO_ENTRY;
      }
      inOffs, outOffs, full := 0, 0, false;
      assert entry[..] == Init(NO_ENTRY).slots;
    }

    /** aesd_circular_buffer_add_entry. `overwritten` stands for the returned pointer being
        &evicted_entry rather than NULL. */
    method AddEntry(e: Entry) returns (overwritten: bool)
      requires Valid()
      modifies this, entry
      ensures Valid()
      ensures View() == Add(old(View()), e)
      ensures Entries() == LastN(old(Entries()) + [e], CAPACITY)
      ensures overwritten <==> |old(Entries())| == CAPACITY
      ensures overwritten ==> evictedEntry == old(Entries())[0]
    {
      AddAppends(View(), e, NO_ENTRY);
      overwritten := false;
      if full {
        evictedEntry := entry[inOffs];
        overwritten := true;
        outOffs := Slot(outOffs + 1);
      }
      entry[inOffs] := e;
      inOffs := Slot(inOffs + 1);
      if inOffs == outOffs {
        full := true;
      }
      assert View() == Add(old(View()), e);
    }

    /** aesd_circular_buffer_find_entry_offset_for_fpos: the slot of the returned entry and
        the offset stored through entry_offset_byte_rtn. The walk starts at in_offs, yet the
        answer is the linear search in logical order. */
    method FindEntryOffsetForFpos(charOffset: nat) returns (found: Option<(nat, nat)>)
      requires Valid()
      ensures found == SlotAt(EntrySizes(Entries()), outOffs, charOffset)
      ensures found == None <==> charOffset >= Total(EntrySizes(Entries()))
    {
      InOffsIsNeverBelowOutOffs(View(), NO_ENTRY);
      var accumulation := 0;
      for i := 0 to CAPACITY
        invariant accumulation == Walked(SizeRing(View()), i) <= charOffset
      {
        var currentElement := Slot(i + inOffs);
        if inOffs < outOffs && inOffs > currentElement {
          // never taken: in_offs is not below out_offs in any reachable state
          assert false;
          return None;
        }
        var currentSize := entry[currentElement].size;
        SearchTurn(View(), i, charOffset);
        if accumulation + currentSize > charOffset {
          return Some((currentElement, charOffset - accumulation));
        }
        accumulation := accumulation + currentSize;
      }
      SearchRunsOut(View(), charOffset);
      return None;
    }

    /** get_total_size (main.c:256-264): slot order, not logical order. */
    method GetTotalSize() returns (size: nat)
      requires Valid()
      ensures size == Total(EntrySizes(Entries()))
    {
      ghost var r := SizeRing(View());
      SizeRingAgrees(View());
      WalkAgreesWithLogicalOrder(r, 0);
      size := 0;
      for i := 0 to CAPACITY
        invariant size == Total(r.slots[..i])
      {
        TotalSnoc(r.slots, i);
        size := size + entry[i].size;
      }
      assert r.slots[..CAPACITY] == r.slots;
    }
  }
}
