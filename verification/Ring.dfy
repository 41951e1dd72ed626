/** The ten-slot ring of aesd-circular-buffer.c as a value: its step, the invariant the
    code relies on but never states, and what a run of additions leaves in it. */
module Ring {
  import opened Bytes
  import opened Positions
  import opened LineLog

  datatype Ring<T> = Ring(slots: seq<T>, inOffs: nat, outOffs: nat, full: bool)

  /** A slot number modulo the capacity: the wrap of every index in the driver. */
  function Slot(i: nat): (r: nat)
    ensures r < CAPACITY
    ensures i < CAPACITY ==> r == i
    ensures CAPACITY <= i < 2 * CAPACITY ==> r == i - CAPACITY
  {
    i % CAPACITY
  }

  function Init<T>(zero: T): Ring<T> {
    Ring(seq(CAPACITY, _ => zero), 0, 0, false)
  }

  /** While the ring is not full it starts at slot 0 and unused slots are zero; once it
      is full the next slot to write is also the oldest. */
  ghost predicate Inv<T>(r: Ring<T>, zero: T) {
    && |r.slots| == CAPACITY
    && r.inOffs < CAPACITY
    && r.outOffs == (if r.full then r.inOffs else 0)
    && (!r.full ==> forall j :: r.inOffs <= j < CAPACITY ==> r.slots[j] == zero)
  }

  /** The stored entries, oldest first. */
  function Logical<T>(r: Ring<T>): seq<T>
    requires r.inOffs <= |r.slots|
  {
    if r.full then r.slots[r.inOffs..] + r.slots[..r.inOffs] else r.slots[..r.inOffs]
  }

  /** One addition, as lines 86-105 of aesd-circular-buffer.c make it. */
  function Add<T>(r: Ring<T>, e: T): Ring<T>
    requires r.inOffs < |r.slots|
  {
    var outOffs := if r.full then Slot(r.outOffs + 1) else r.outOffs;
    var inOffs := Slot(r.inOffs + 1);
    Ring(r.slots[r.inOffs := e], inOffs, outOffs, r.full || inOffs == outOffs)
  }

  /** An addition appends in logical order and drops the oldest of ten. */
  lemma AddAppends<T>(r: Ring<T>, e: T, zero: T)
    requires Inv(r, zero)
    ensures Inv(Add(r, e), zero)
    ensures Logical(Add(r, e)) == LastN(Logical(r) + [e], CAPACITY)
    ensures r.full <==> |Logical(r)| == CAPACITY
    ensures r.full ==> Logical(r)[0] == r.slots[r.inOffs]
  {
    var r' := Add(r, e);
    if r.full {
      if r.inOffs == CAPACITY - 1 {
        assert Logical(r') == r'.slots;
      } else {
        assert r'.slots[r'.inOffs..] == r.slots[r.inOffs..][1..];
        assert r'.slots[..r'.inOffs] == r.slots[..r.inOffs] + [e];
      }
      assert Logical(r') == Logical(r)[1..] + [e];
    } else if r.inOffs == CAPACITY - 1 {
      assert r'.slots == r.slots[..r.inOffs] + [e];
      assert Logical(r') == r'.slots;
    } else {
      assert r'.slots[..r'.inOffs] == r.slots[..r.inOffs] + [e];
    }
  }

  /** Entry number `i` from the oldest sits `i` slots after out_offs, modulo ten. */
  lemma LogicalSlot<T>(r: Ring<T>, zero: T, i: nat)
    requires Inv(r, zero) && i < |Logical(r)|
    ensures Logical(r)[i] == r.slots[Slot(r.outOffs + i)]
  {
  }

  /** Slots past the logical end are zero, so a range check on a slot is a range check on the index. */
  lemma BeyondLogicalIsZero<T>(r: Ring<T>, zero: T, i: nat)
    requires Inv(r, zero) && |Logical(r)| <= i < CAPACITY
    ensures r.slots[Slot(r.outOffs + i)] == zero
  {
  }

  /** in_offs is above out_offs in every ring that is partly filled, and below it in none. */
  lemma InOffsIsNeverBelowOutOffs<T>(r: Ring<T>, zero: T)
    requires Inv(r, zero)
    ensures !(r.inOffs < r.outOffs)
    ensures r.inOffs > r.outOffs <==> !r.full && Logical(r) != []
  {
  }

  // ---- runs ----

  /** The ring after a whole run of additions since initialisation. */
  function After<T>(zero: T, adds: seq<T>): (r: Ring<T>)
    ensures r.inOffs < |r.slots| == CAPACITY
  {
    if adds == [] then Init(zero) else Add(After(zero, adds[..|adds| - 1]), adds[|adds| - 1])
  }

  /** Slot `j` after `n` additions: the latest addition whose number is `j` modulo ten. */
  ghost predicate SlotHolds<T>(zero: T, adds: seq<T>, slot: T, j: nat) {
    if |adds| <= j then slot == zero
    else exists k: nat | k < |adds| :: Slot(k) == j && |adds| - CAPACITY <= k && slot == adds[k]
  }

  lemma SlotOfNext(n: nat)
    ensures Slot(Slot(n) + 1) == Slot(n + 1)
  {
  }

  lemma {:induction false} OffsetsAfter<T>(zero: T, adds: seq<T>)
    ensures var r := After(zero, adds);
            var n := |adds|;
            && r.inOffs == Slot(n)
            && (r.full <==> n >= CAPACITY)
            && r.outOffs == (if n < CAPACITY then 0 else Slot(n))
  {
    if adds == [] {
    } else {
      OffsetsAfter(zero, adds[..|adds| - 1]);
      SlotOfNext(|adds| - 1);
    }
  }

  lemma {:induction false} LogicalAfter<T>(zero: T, adds: seq<T>)
    ensures Inv(After(zero, adds), zero)
    ensures Logical(After(zero, adds)) == LastN(adds, CAPACITY)
  {
    if adds == [] {
    } else {
      var n := |adds| - 1;
      LogicalAfter(zero, adds[..n]);
      AddAppends(After(zero, adds[..n]), adds[n], zero);
      assert adds == adds[..n] + [adds[n]];
      LastNAppend(adds[..n], [adds[n]], CAPACITY);
    }
  }

  lemma {:induction false} SlotsAfter<T>(zero: T, adds: seq<T>, j: nat)
    requires j < CAPACITY
    ensures SlotHolds(zero, adds, After(zero, adds).slots[j], j)
  {
    if adds == [] {
    } else {
      var n := |adds| - 1;
      SlotsAfter(zero, adds[..n], j);
      OffsetsAfter(zero, adds[..n]);
      SlotStep(zero, adds, After(zero, adds[..n]).slots[j], j);
    }
  }

  /** The whole state after `n` additions, in closed form. */
  lemma {:induction false} ClosedForm<T>(zero: T, adds: seq<T>)
    ensures var r := After(zero, adds);
            var n := |adds|;
            && Inv(r, zero)
            && r.inOffs == Slot(n)
            && (r.full <==> n >= CAPACITY)
            && r.outOffs == (if n < CAPACITY then 0 else Slot(n))
            && Logical(r) == LastN(adds, CAPACITY)
            && (forall j :: 0 <= j < CAPACITY ==> SlotHolds(zero, adds, r.slots[j], j))
  {
    OffsetsAfter(zero, adds);
    LogicalAfter(zero, adds);
    forall j | 0 <= j < CAPACITY
      ensures SlotHolds(zero, adds, After(zero, adds).slots[j], j)
    {
      SlotsAfter(zero, adds, j);
    }
  }

  lemma SlotStep<T>(zero: T, adds: seq<T>, slot: T, j: nat)
    requires adds != [] && j < CAPACITY
    requires SlotHolds(zero, adds[..|adds| - 1], slot, j)
    ensures SlotHolds(zero, adds, if j == Slot(|adds| - 1) then adds[|adds| - 1] else slot, j)
  {
  }

  /** Addition number n (n >= 10) evicts addition number n - 10, and earlier ones evict nothing. */
  lemma {:induction false} EvictedIsTenBefore<T>(zero: T, adds: seq<T>)
    ensures var r := After(zero, adds);
            && (r.full <==> |adds| >= CAPACITY)
            && (r.full ==> r.slots[r.inOffs] == adds[|adds| - CAPACITY])
  {
    ClosedForm(zero, adds);
    var r := After(zero, adds);
    AddAppends(r, zero, zero);
  }

  /** A run of additions that produces a given ring. */
  ghost function Producing<T>(r: Ring<T>): seq<T>
    requires r.inOffs <= |r.slots|
  {
    if r.full then r.slots + r.slots[..r.inOffs] else r.slots[..r.inOffs]
  }

  lemma ProducingSlot<T>(r: Ring<T>, zero: T, j: nat)
    requires Inv(r, zero) && j < CAPACITY
    ensures After(zero, Producing(r)).slots[j] == r.slots[j]
  {
    SlotsAfter(zero, Producing(r), j);
  }

  lemma InvIsReachable<T>(r: Ring<T>, zero: T)
    requires Inv(r, zero)
    ensures After(zero, Producing(r)) == r
  {
    forall j | 0 <= j < CAPACITY
      ensures After(zero, Producing(r)).slots[j] == r.slots[j]
    {
      ProducingSlot(r, zero, j);
    }
    OffsetsAfter(zero, Producing(r));
    assert After(zero, Producing(r)).slots == r.slots;
  }

  /** The invariant is exact: a ring satisfies it if and only if some run of additions produces it. */
  lemma InvIsReachability<T>(r: Ring<T>, zero: T)
    ensures Inv(r, zero) <==> exists adds :: After(zero, adds) == r
  {
    if Inv(r, zero) {
      InvIsReachable(r, zero);
    }
    forall adds | After(zero, adds) == r
      ensures Inv(r, zero)
    {
      LogicalAfter(zero, adds);
    }
  }

  // ---- the walk from in_offs ----

  /** The slots in the order lines 48-50 of aesd-circular-buffer.c visit them. */
  function FromIn<T>(r: Ring<T>): seq<T>
    requires r.inOffs <= |r.slots|
  {
    r.slots[r.inOffs..] + r.slots[..r.inOffs]
  }

  /** The sizes the walk has added up before its `i`-th slot. */
  ghost function Walked(r: Ring<nat>, i: nat): nat
    requires |r.slots| == CAPACITY
  {
    if i == 0 then 0 else Walked(r, i - 1) + r.slots[Slot(i - 1 + r.inOffs)]
  }

  lemma {:induction false} WalkedIsTotal(r: Ring<nat>, i: nat)
    requires |r.slots| == CAPACITY && r.inOffs < CAPACITY && i <= CAPACITY
    ensures Walked(r, i) == Total(FromIn(r)[..i])
  {
    if i > 0 {
      WalkedIsTotal(r, i - 1);
      TotalSnoc(FromIn(r), i - 1);
    }
  }

  /** How many unused slots the walk passes before the oldest entry. */
  function Skipped<T>(r: Ring<T>): nat
    requires r.inOffs <= CAPACITY
  {
    if r.full then 0 else CAPACITY - r.inOffs
  }

  /** The walk starts at the write position, the logical order at out_offs; over sizes they
      find the same entry and the same offset at every position. */
  lemma WalkAgreesWithLogicalOrder(r: Ring<nat>, pos: nat)
    requires Inv(r, 0)
    ensures Locate(FromIn(r), pos) ==
            match Locate(Logical(r), pos) case None => None case Some((cmd, off)) => Some((Skipped(r) + cmd, off))
    ensures Total(FromIn(r)) == Total(Logical(r)) == Total(r.slots)
  {
    TotalAppend(r.slots[r.inOffs..], r.slots[..r.inOffs]);
    TotalAppend(r.slots[..r.inOffs], r.slots[r.inOffs..]);
    assert r.slots[..r.inOffs] + r.slots[r.inOffs..] == r.slots;
    if !r.full {
      var empty := r.slots[r.inOffs..];
      LocateSkipsEmpty(empty, Logical(r), pos);
      TotalOfZeros(empty);
    } else {
      assert FromIn(r) == Logical(r);
    }
  }

  /** The slot and offset of flat position `pos` when the oldest entry sits at `outOffs`. */
  function SlotAt(sizes: seq<nat>, outOffs: nat, pos: nat): Option<(nat, nat)> {
    match Locate(sizes, pos)
    case None => None
    case Some((cmd, off)) => Some((Slot(outOffs + cmd), off))
  }

  lemma WalkLocates(r: Ring<nat>, i: nat, pos: nat)
    requires Inv(r, 0) && i < CAPACITY
    requires Walked(r, i) <= pos < Walked(r, i) + r.slots[Slot(i + r.inOffs)]
    ensures Locate(FromIn(r), pos) == Some((i, pos - Walked(r, i)))
  {
    WalkedIsTotal(r, i);
    LocateInvertsPosition(FromIn(r), i, pos - Walked(r, i));
  }

  /** Where the walk stops, the logical search stops: same slot, same offset. */
  lemma WalkStops(r: Ring<nat>, i: nat, pos: nat)
    requires Inv(r, 0) && i < CAPACITY
    requires Walked(r, i) <= pos < Walked(r, i) + r.slots[Slot(i + r.inOffs)]
    ensures SlotAt(Logical(r), r.outOffs, pos) == Some((Slot(i + r.inOffs), pos - Walked(r, i)))
    ensures pos < Total(Logical(r))
  {
    WalkLocates(r, i, pos);
    WalkAgreesWithLogicalOrder(r, pos);
    LocateSound(Logical(r), pos);
  }

  /** A walk that never stops has passed the whole length. */
  lemma WalkRunsOut(r: Ring<nat>, pos: nat)
    requires Inv(r, 0) && Walked(r, CAPACITY) <= pos
    ensures SlotAt(Logical(r), r.outOffs, pos) == None && pos >= Total(Logical(r))
  {
    WalkedIsTotal(r, CAPACITY);
    assert FromIn(r)[..CAPACITY] == FromIn(r);
    WalkAgreesWithLogicalOrder(r, pos);
    LocateSound(Logical(r), pos);
  }

  lemma {:induction false} TotalOfZeros(sizes: seq<nat>)
    requires forall i :: 0 <= i < |sizes| ==> sizes[i] == 0
    ensures Total(sizes) == 0
  {
    if sizes == [] {
    } else {
      TotalOfZeros(sizes[1..]);
    }
  }
}
