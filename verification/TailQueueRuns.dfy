/** All the tail queues of a program at once, under any run of TAILQ macros. */
module TailQueueRuns {
  import opened QueueLinks
  import opened TailQueue

  type Queues = map<Head, seq<Elem>>

  ghost function Members(qs: Queues): set<Elem> {
    set h, e | h in qs && e in qs[h] :: e
  }

  ghost predicate World(qs: Queues)
    reads qs.Keys, Members(qs)
  {
    forall h :: h in qs ==> (forall e :: e in qs[h] ==> e in Members(qs)) && Queue(h, qs[h])
  }

  /** `e` is on no queue. */
  ghost predicate Free(qs: Queues, e: Elem) {
    forall h :: h in qs ==> e !in qs[h]
  }

  lemma WorldIsSeparate(qs: Queues)
    requires World(qs)
    ensures forall g, h, e :: g in qs && h in qs && g != h && e in qs[g] ==> e !in qs[h]
  {
    forall g, h, e | g in qs && h in qs && g != h && e in qs[g]
      ensures e !in qs[h]
    {
      var i :| 0 <= i < |qs[g]| && qs[g][i] == e;
      QueuesAreSeparate(g, qs[g], h, qs[h], i);
    }
  }

  /** One macro call. */
  datatype Op =
    | OpInit(h: Head)
    | OpInsertHead(h: Head, elm: Elem)
    | OpInsertTail(h: Head, elm: Elem)
    | OpInsertAfter(h: Head, listelm: Elem, elm: Elem)
    | OpInsertBefore(h: Head, listelm: Elem, elm: Elem)
    | OpRemove(h: Head, elm: Elem)
    | OpConcat(h: Head, h2: Head)
    | OpSwap(h: Head, h2: Head)

  function IndexOf(s: seq<Elem>, e: Elem): (i: nat)
    requires e in s
    ensures i < |s| && s[i] == e
  {
    if s[0] == e then 0 else 1 + IndexOf(s[1..], e)
  }

  /** What the macro asks of its caller. */
  ghost predicate Legal(qs: Queues, op: Op) {
    && (op.OpInit? || op.h in qs)
    && match op
    case OpInit(_) => true
    case OpInsertHead(_, elm) => Free(qs, elm)
    case OpInsertTail(_, elm) => Free(qs, elm)
    case OpInsertAfter(h, listelm, elm) => Free(qs, elm) && listelm in qs[h]
    case OpInsertBefore(h, listelm, elm) => Free(qs, elm) && listelm in qs[h]
    case OpRemove(h, elm) => elm in qs[h]
    case OpConcat(h, h2) => h2 in qs && h != h2
    case OpSwap(h, h2) => h2 in qs
  }

  /** What the macro means on sequences. */
  ghost function Apply(qs: Queues, op: Op): Queues
    requires Legal(qs, op)
  {
    match op
    case OpInit(h) => qs[h := []]
    case OpInsertHead(h, elm) => qs[h := [elm] + qs[h]]
    case OpInsertTail(h, elm) => qs[h := qs[h] + [elm]]
    case OpInsertAfter(h, listelm, elm) =>
      var i := IndexOf(qs[h], listelm);
      qs[h := qs[h][..i + 1] + [elm] + qs[h][i + 1..]]
    case OpInsertBefore(h, listelm, elm) =>
      var i := IndexOf(qs[h], listelm);
      qs[h := qs[h][..i] + [elm] + qs[h][i..]]
    case OpRemove(h, elm) =>
      var i := IndexOf(qs[h], elm);
      qs[h := qs[h][..i] + qs[h][i + 1..]]
    case OpConcat(h, h2) => qs[h := qs[h] + qs[h2]][h2 := []]
    case OpSwap(h, h2) => qs[h := qs[h2]][h2 := qs[h]]
  }

  // ---- what the meanings amount to ----

  /** The caller's side, written out: which calls are legal. */
  lemma OrdinaryCallsAreLegal(qs: Queues, h: Head, h2: Head, elm: Elem, listelm: Elem)
    requires h in qs && h2 in qs
    ensures (forall g :: g in qs ==> elm !in qs[g]) ==>
              && Legal(qs, OpInsertHead(h, elm)) && Legal(qs, OpInsertTail(h, elm))
              && (listelm in qs[h] ==> Legal(qs, OpInsertAfter(h, listelm, elm)) && Legal(qs, OpInsertBefore(h, listelm, elm)))
    ensures elm in qs[h] ==> Legal(qs, OpRemove(h, elm))
    ensures h != h2 ==> Legal(qs, OpConcat(h, h2))
    ensures Legal(qs, OpSwap(h, h2)) && Legal(qs, OpInit(h))
  {
  }

  predicate IsInsert(op: Op) {
    op.OpInsertHead? || op.OpInsertTail? || op.OpInsertAfter? || op.OpInsertBefore?
  }

  lemma CutOut(s: seq<Elem>, i: nat, e: Elem)
    requires i <= |s| && e !in s
    ensures var s' := s[..i] + [e] + s[i..]; e in s' && IndexOf(s', e) == i && s'[..i] + s'[i + 1..] == s
  {
    var s' := s[..i] + [e] + s[i..];
    assert s'[i] == e && forall k :: 0 <= k < |s| ==> s[k] != e;
    IndexOfIsFirst(s', e, i);
    assert s'[..i] == s[..i] && s'[i + 1..] == s[i..];
  }

  lemma {:induction false} IndexOfIsFirst(s: seq<Elem>, e: Elem, k: nat)
    requires k < |s| && s[k] == e
    ensures IndexOf(s, e) <= k
  {
    if s[0] != e {
      IndexOfIsFirst(s[1..], e, k - 1);
    }
  }

  /** Where an insertion cuts its queue in two. */
  ghost function InsertAt(s: seq<Elem>, op: Op): (i: nat)
    requires IsInsert(op) && (op.OpInsertAfter? || op.OpInsertBefore? ==> op.listelm in s)
    ensures i <= |s|
  {
    match op
    case OpInsertHead(_, _) => 0
    case OpInsertTail(_, _) => |s|
    case OpInsertAfter(_, listelm, _) => IndexOf(s, listelm) + 1
    case OpInsertBefore(_, listelm, _) => IndexOf(s, listelm)
    case _ => 0
  }

  lemma InsertCuts(qs: Queues, op: Op)
    requires Legal(qs, op) && IsInsert(op)
    ensures var s, i := qs[op.h], InsertAt(qs[op.h], op); Apply(qs, op) == qs[op.h := s[..i] + [op.elm] + s[i..]]
  {
    var s := qs[op.h];
    assert [op.elm] + s == s[..0] + [op.elm] + s[0..];
    assert s + [op.elm] == s[..|s|] + [op.elm] + s[|s|..];
  }

  /** Any insertion is undone by removing the element it brought. */
  lemma RemoveUndoesInsert(qs: Queues, op: Op)
    requires Legal(qs, op) && IsInsert(op)
    ensures var qs' := Apply(qs, op);
            Legal(qs', OpRemove(op.h, op.elm)) && Apply(qs', OpRemove(op.h, op.elm)) == qs
  {
    InsertCuts(qs, op);
    CutOut(qs[op.h], InsertAt(qs[op.h], op), op.elm);
  }

  /** `a` stands directly before `b`. */
  ghost predicate Adjacent(s: seq<Elem>, a: Elem, b: Elem) {
    exists i :: 0 <= i < |s| - 1 && s[i] == a && s[i + 1] == b
  }

  /** And the element is where the macro's name says. */
  lemma InsertedWhereNamed(qs: Queues, op: Op)
    requires Legal(qs, op) && IsInsert(op)
    ensures var s := Apply(qs, op)[op.h];
            && s != []
            && (op.OpInsertHead? ==> s[0] == op.elm)
            && (op.OpInsertTail? ==> s[|s| - 1] == op.elm)
            && (op.OpInsertAfter? ==> Adjacent(s, op.listelm, op.elm))
            && (op.OpInsertBefore? ==> Adjacent(s, op.elm, op.listelm))
  {
    var s, i := Apply(qs, op)[op.h], InsertAt(qs[op.h], op);
    InsertCuts(qs, op);
    assert s[i] == op.elm;
    assert op.OpInsertAfter? ==> s[i - 1] == op.listelm && s[i - 1 + 1] == op.elm;
    assert op.OpInsertBefore? ==> s[i + 1] == op.listelm;
  }

  /** Removing takes exactly the element out: put back somewhere, it gives the old queue. */
  lemma RemoveTakesOutOne(qs: Queues, h: Head, elm: Elem)
    requires Legal(qs, OpRemove(h, elm)) && Distinct(qs[h])
    ensures var (s, s') := (qs[h], Apply(qs, OpRemove(h, elm))[h]);
            elm !in s' && exists k :: 0 <= k <= |s'| && s == s'[..k] + [elm] + s'[k..]
  {
    var s, i := qs[h], IndexOf(qs[h], elm);
    var s' := s[..i] + s[i + 1..];
    assert s == s'[..i] + [elm] + s'[i..];
  }

  /** Concatenation leaves the first queue in front, the second behind it, and nothing in the second. */
  lemma ConcatJoins(qs: Queues, h: Head, h2: Head)
    requires Legal(qs, OpConcat(h, h2))
    ensures var qs' := Apply(qs, OpConcat(h, h2));
            && |qs'[h]| == |qs[h]| + |qs[h2]| && qs'[h2] == []
            && qs[h] <= qs'[h] && qs'[h][|qs[h]|..] == qs[h2]
  {
  }

  /** A swap exchanges the contents, and a second one brings them back. */
  lemma SwapIsItsOwnInverse(qs: Queues, h: Head, h2: Head)
    requires Legal(qs, OpSwap(h, h2))
    ensures var qs' := Apply(qs, OpSwap(h, h2));
            && qs'[h] == qs[h2] && qs'[h2] == qs[h]
            && Legal(qs', OpSwap(h, h2)) && Apply(qs', OpSwap(h, h2)) == qs
  {
  }

  /** Initialising empties its queue; and no macro changes a queue it does not name. */
  lemma OnlyNamedQueuesChange(qs: Queues, op: Op, g: Head)
    requires Legal(qs, op)
    ensures var qs' := Apply(qs, op);
            && qs'.Keys == qs.Keys + {op.h}
            && (op.OpInit? ==> qs'[op.h] == [])
            && (g in qs && g != op.h && !(op.OpConcat? && g == op.h2) && !(op.OpSwap? && g == op.h2) ==> qs'[g] == qs[g])
  {
  }

  ghost function Heads(op: Op): set<Head> {
    {op.h} + if op.OpConcat? || op.OpSwap? then {op.h2} else {}
  }

  ghost function ElemsOf(qs: Queues, h: Head): set<Elem> {
    if h in qs then set e | e in qs[h] else {}
  }

  /** The heads the macro names, their elements, and the element it brings. */
  ghost function Footprint(qs: Queues, op: Op): set<object> {
    Heads(op) + ElemsOf(qs, op.h) + match op
      case OpInit(_) => {}
      case OpRemove(_, _) => {}
      case OpConcat(_, h2) => ElemsOf(qs, h2)
      case OpSwap(_, h2) => ElemsOf(qs, h2)
      case _ => {op.elm}
  }

  method ExpandInsert(op: Op, ghost qs: Queues)
    requires IsInsert(op)
    requires Legal(qs, op) && Queue(op.h, qs[op.h])
    modifies Footprint(qs, op)
    ensures Queue(op.h, Apply(qs, op)[op.h])
  {
    ghost var s := qs[op.h];
    assert forall i :: 0 <= i < |s| ==> s[i] in s;
    match op
    case OpInsertHead(h, elm) =>
      InsertHead(h, elm, s);
      assert Apply(qs, op)[h] == [elm] + s;
    case OpInsertTail(h, elm) =>
      InsertTail(h, elm, s);
      assert Apply(qs, op)[h] == s + [elm];
    case OpInsertAfter(h, listelm, elm) =>
      ghost var i := IndexOf(s, listelm);
      InsertAfter(h, listelm, elm, s, i);
      assert Apply(qs, op)[h] == s[..i + 1] + [elm] + s[i + 1..];
    case OpInsertBefore(h, listelm, elm) =>
      ghost var i := IndexOf(s, listelm);
      InsertBefore(listelm, elm, h, s, i);
      assert Apply(qs, op)[h] == s[..i] + [elm] + s[i..];
  }

  method ExpandTwo(op: Op, ghost qs: Queues)
    requires op.OpConcat? || op.OpSwap?
    requires Legal(qs, op) && Queue(op.h, qs[op.h]) && Queue(op.h2, qs[op.h2])
    modifies Footprint(qs, op)
    ensures Queue(op.h, Apply(qs, op)[op.h]) && Queue(op.h2, Apply(qs, op)[op.h2])
  {
    ghost var (s, t) := (qs[op.h], qs[op.h2]);
    assert forall i :: 0 <= i < |s| ==> s[i] in s;
    assert forall i :: 0 <= i < |t| ==> t[i] in t;
    match op
    case OpConcat(h, h2) =>
      Concat(h, h2, s, t);
    case OpSwap(h, h2) =>
      Swap(h, h2, s, t);
  }

  /** The macro's own queues come out as it means them. */
  method Expand(op: Op, ghost qs: Queues)
    requires Legal(qs, op) && forall h :: h in qs && h in Heads(op) ==> Queue(h, qs[h])
    modifies Footprint(qs, op)
    ensures forall h :: h in Heads(op) ==> Queue(h, Apply(qs, op)[h])
  {
    match op
    case OpInit(h) =>
      Init(h);
    case OpRemove(h, elm) =>
      ghost var s := qs[h];
      assert forall i :: 0 <= i < |s| ==> s[i] in s;
      Remove(h, elm, s, IndexOf(s, elm));
    case OpConcat(_, _) =>
      ExpandTwo(op, qs);
    case OpSwap(_, _) =>
      ExpandTwo(op, qs);
    case _ =>
      ExpandInsert(op, qs);
  }

  /** A macro call does to its queues what it means, and to all other queues nothing. */
  method Do(op: Op, ghost qs: Queues)
    requires World(qs) && Legal(qs, op)
    modifies Footprint(qs, op)
    ensures World(Apply(qs, op))
  {
    WorldIsSeparate(qs);
    ghost var qs' := Apply(qs, op);
    Expand(op, qs);
    forall g | g in qs'
      ensures Queue(g, qs'[g])
    {
      if g !in Heads(op) {
        assert qs'[g] == qs[g] && old(Queue(g, qs[g]));
        forall i | 0 <= i < |qs[g]|
          ensures Linked(g, qs[g], i)
        {
          assert qs[g][i] in qs[g] && old(Linked(g, qs[g], i));
        }
      }
    }
  }

  // ---- runs ----

  ghost predicate LegalRun(qs: Queues, ops: seq<Op>)
    decreases |ops|
  {
    ops != [] ==> Legal(qs, ops[0]) && LegalRun(Apply(qs, ops[0]), ops[1..])
  }

  ghost function ApplyAll(qs: Queues, ops: seq<Op>): Queues
    requires LegalRun(qs, ops)
    decreases |ops|
  {
    if ops == [] then qs else ApplyAll(Apply(qs, ops[0]), ops[1..])
  }

  ghost function Footprints(qs: Queues, ops: seq<Op>): set<object>
    requires LegalRun(qs, ops)
    decreases |ops|
  {
    if ops == [] then {} else Footprint(qs, ops[0]) + Footprints(Apply(qs, ops[0]), ops[1..])
  }

  /** Any run of macro calls, on any number of queues, is the same run of sequence operations. */
  method DoAll(ops: seq<Op>, ghost qs: Queues)
    requires World(qs) && LegalRun(qs, ops)
    modifies Footprints(qs, ops)
    ensures World(ApplyAll(qs, ops))
    decreases |ops|
  {
    if |ops| != 0 {
      Do(ops[0], qs);
      DoAll(ops[1..], Apply(qs, ops[0]));
    }
  }

  /** A run of runs is one run. */
  lemma {:induction false} RunsCompose(qs: Queues, xs: seq<Op>, ys: seq<Op>)
    requires LegalRun(qs, xs) && LegalRun(ApplyAll(qs, xs), ys)
    ensures LegalRun(qs, xs + ys) && ApplyAll(qs, xs + ys) == ApplyAll(ApplyAll(qs, xs), ys)
    decreases |xs|
  {
    if xs == [] {
      assert xs + ys == ys;
    } else {
      assert (xs + ys)[0] == xs[0] && (xs + ys)[1..] == xs[1..] + ys;
      RunsCompose(Apply(qs, xs[0]), xs[1..], ys);
    }
  }

  /** The last call of a run does what it means to what the run before it left. */
  lemma LastCallOfRun(qs: Queues, ops: seq<Op>, op: Op)
    requires LegalRun(qs, ops) && Legal(ApplyAll(qs, ops), op)
    ensures LegalRun(qs, ops + [op]) && ApplyAll(qs, ops + [op]) == Apply(ApplyAll(qs, ops), op)
    ensures LegalRun(qs, []) && ApplyAll(qs, []) == qs
  {
    RunsCompose(qs, ops, [op]);
  }

  lemma AdjacentPointers(h: Head, s: seq<Elem>, a: Elem, b: Elem)
    requires Queue(h, s) && Adjacent(s, a, b)
    ensures a.next == b && b.prev == NextLink(a)
  {
    var i :| 0 <= i < |s| - 1 && s[i] == a && s[i + 1] == b;
    assert Linked(h, s, i) && Linked(h, s, i + 1);
  }

  /** In the pointers: what a well-formed world looks like right after an insertion. */
  lemma PointersAfter(qs: Queues, op: Op)
    requires Legal(qs, op) && IsInsert(op) && World(Apply(qs, op))
    ensures op.OpInsertHead? ==> op.h.first == op.elm
    ensures op.OpInsertTail? ==> op.elm.next == null && op.h.last == NextLink(op.elm)
    ensures op.OpInsertAfter? ==> op.listelm.next == op.elm && op.elm.prev == NextLink(op.listelm)
    ensures op.OpInsertBefore? ==> op.elm.next == op.listelm && op.listelm.prev == NextLink(op.elm)
  {
    var s := Apply(qs, op)[op.h];
    InsertedWhereNamed(qs, op);
    assert Queue(op.h, s) && Linked(op.h, s, |s| - 1);
    if op.OpInsertAfter? {
      AdjacentPointers(op.h, s, op.listelm, op.elm);
    } else if op.OpInsertBefore? {
      AdjacentPointers(op.h, s, op.elm, op.listelm);
    }
  }
}
