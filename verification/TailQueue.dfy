/** The TAILQ macros of server/queue.h. A back link is the address of the pointer that
    points at an element: the head's first field, or another element's next field. */
module TailQueue {
  import opened QueueLinks

  type Link = Address<Head, Elem>

  class Elem {
    var next: Elem?  // tqe_next
    var prev: Link   // tqe_prev
  }

  class Head {
    var first: Elem?  // tqh_first
    var last: Link    // tqh_last
  }

  function Target(l: Link): set<object> {
    match l
    case Nowhere => {}
    case HeadLink(h) => {h}
    case NextLink(e) => {e}
  }

  /** `*l`, the pointer stored at an address. */
  function Deref(l: Link): Elem?
    requires !l.Nowhere?
    reads Target(l)
  {
    match l
    case HeadLink(h) => h.first
    case NextLink(e) => e.next
  }

  /** `((struct headname *)l)->tqh_last`: the word after the one at the address. A head is
      laid out {first, last} and an element {next, prev}, so at an element this reads prev. */
  function Second(l: Link): Link
    requires !l.Nowhere?
    reads Target(l)
  {
    match l
    case HeadLink(h) => h.last
    case NextLink(e) => e.prev
  }

  /** `*l = e`. */
  method Store(l: Link, e: Elem?)
    requires !l.Nowhere?
    modifies Target(l)
    ensures l.HeadLink? ==> l.head.first == e && l.head.last == old(l.head.last)
    ensures l.NextLink? ==> l.elem.next == e && l.elem.prev == old(l.elem.prev)
  {
    match l
    case HeadLink(h) => h.first := e;
    case NextLink(x) => x.next := e;
  }

  // ---- what a well-formed queue is ----

  /** Element `i`, or NULL past the end. */
  function At(s: seq<Elem>, i: nat): Elem? {
    if i < |s| then s[i] else null
  }

  /** Element `i` points at the next one, and back at the pointer that points at it. */
  ghost predicate Linked(h: Head, s: seq<Elem>, i: nat)
    requires i < |s|
    reads s[i]
  {
    s[i].next == At(s, i + 1) && s[i].prev == LinkTo(h, s, i)
  }

  /** The queue at `h` holds exactly `s`: next pointers run through it to NULL, every back
      link addresses the pointer to its element, and the head's addresses the final NULL. */
  ghost predicate Queue(h: Head, s: seq<Elem>)
    reads h, s
  {
    && Distinct(s)
    && h.first == At(s, 0)
    && h.last == LinkTo(h, s, |s|)
    && forall i {:trigger Linked(h, s, i)} :: 0 <= i < |s| ==> Linked(h, s, i)
  }

  /** Every address in a well-formed queue dereferences to the element it is for. */
  lemma LinksPoint(h: Head, s: seq<Elem>, i: nat)
    requires Queue(h, s) && i <= |s|
    ensures Deref(LinkTo(h, s, i)) == At(s, i)
  {
    assert i > 0 ==> Linked(h, s, i - 1);
  }

  /** The heap determines the contents: a queue is never two sequences at once. */
  lemma ContentsAreUnique(h: Head, s: seq<Elem>, t: seq<Elem>)
    requires Queue(h, s) && Queue(h, t)
    ensures s == t
  {
    var k := 0;
    while k < |s| && k < |t|
      invariant k <= |s| && k <= |t| && s[..k] == t[..k]
      invariant At(s, k) == At(t, k)
    {
      assert Linked(h, s, k) && Linked(h, t, k);
      assert s[..k + 1] == s[..k] + [s[k]] && t[..k + 1] == t[..k] + [t[k]];
      k := k + 1;
    }
    assert s[..k] == s && t[..k] == t;
  }

  /** Two queues never share an element: an element's back links lead to one head only. */
  lemma {:induction false} QueuesAreSeparate(g: Head, s: seq<Elem>, h: Head, t: seq<Elem>, i: nat)
    requires Queue(g, s) && Queue(h, t) && g != h && i < |s|
    ensures s[i] !in t
  {
    if s[i] in t {
      var j :| 0 <= j < |t| && t[j] == s[i];
      assert Linked(g, s, i) && Linked(h, t, j);
      if i > 0 && j > 0 {
        QueuesAreSeparate(g, s, h, t, i - 1);
      }
      assert false;
    }
  }

  // ---- the macros ----

  /** TAILQ_INIT */
  method Init(h: Head)
    modifies h
    ensures Queue(h, [])
  {
    h.first := null;
    h.last := HeadLink(h);
  }

  /** TAILQ_NEXT */
  function Next(elm: Elem, ghost h: Head, ghost s: seq<Elem>, ghost i: nat): (e: Elem?)
    requires Queue(h, s) && i < |s| && s[i] == elm
    reads h, s
    ensures e == At(s, i + 1)
  {
    assert Linked(h, s, i);
    elm.next
  }

  /** TAILQ_LAST, through the punned second word. */
  function Last(h: Head, ghost s: seq<Elem>): (e: Elem?)
    requires Queue(h, s)
    reads h, s
    ensures e == if s == [] then null else s[|s| - 1]
  {
    assert s != [] ==> Linked(h, s, |s| - 1) && (|s| > 1 ==> Linked(h, s, |s| - 2));
    Deref(Second(h.last))
  }

  /** TAILQ_PREV, through the punned second word. */
  function Prev(elm: Elem, ghost h: Head, ghost s: seq<Elem>, ghost i: nat): (e: Elem?)
    requires Queue(h, s) && i < |s| && s[i] == elm
    reads h, s
    ensures e == if i == 0 then null else s[i - 1]
  {
    assert Linked(h, s, i) && Linked(h, s, |s| - 1);
    assert (i > 0 ==> Linked(h, s, i - 1)) && (i > 1 ==> Linked(h, s, i - 2));
    Deref(Second(elm.prev))
  }

  /** TAILQ_INSERT_HEAD */
  method InsertHead(h: Head, elm: Elem, ghost s: seq<Elem>)
    requires Queue(h, s) && elm !in s
    modifies h, elm, if s == [] then {} else {s[0]}
    ensures Queue(h, [elm] + s)
  {
    elm.next := h.first;
    if elm.next != null {
      h.first.prev := NextLink(elm);
    } else {
      h.last := NextLink(elm);
    }
    h.first := elm;
    elm.prev := HeadLink(h);
    ghost var s' := [elm] + s;
    forall k | 0 <= k < |s'|
      ensures Linked(h, s', k)
    {
      assert k > 0 ==> old(Linked(h, s, k - 1));
    }
    assert Queue(h, s');
  }

  /** TAILQ_INSERT_TAIL */
  method InsertTail(h: Head, elm: Elem, ghost s: seq<Elem>)
    requires Queue(h, s) && elm !in s
    modifies h, elm, if s == [] then {} else {s[|s| - 1]}
    ensures Queue(h, s + [elm])
  {
    elm.next := null;
    elm.prev := h.last;
    Store(h.last, elm);
    h.last := NextLink(elm);
    ghost var s' := s + [elm];
    forall k | 0 <= k < |s'|
      ensures Linked(h, s', k)
    {
      assert k < |s| ==> old(Linked(h, s, k));
    }
    assert Queue(h, s');
  }

  /** TAILQ_INSERT_AFTER */
  method InsertAfter(h: Head, listelm: Elem, elm: Elem, ghost s: seq<Elem>, ghost i: nat)
    requires Queue(h, s) && i < |s| && s[i] == listelm && elm !in s
    modifies h, elm, listelm, if i + 1 < |s| then {s[i + 1]} else {}
    ensures Queue(h, s[..i + 1] + [elm] + s[i + 1..])
  {
    assert Linked(h, s, i);
    elm.next := listelm.next;
    if elm.next != null {
      elm.next.prev := NextLink(elm);
    } else {
      h.last := NextLink(elm);
    }
    listelm.next := elm;
    elm.prev := NextLink(listelm);
    ghost var s' := s[..i + 1] + [elm] + s[i + 1..];
    DistinctInsert(s, i + 1, elm);
    forall k | 0 <= k < |s'|
      ensures Linked(h, s', k)
    {
      assert k != i + 1 ==> old(Linked(h, s, if k <= i then k else k - 1));
    }
    assert Queue(h, s');
  }

  /** TAILQ_INSERT_BEFORE: never sees the head, and writes only the pointer to `listelm`. */
  method InsertBefore(listelm: Elem, elm: Elem, ghost h: Head, ghost s: seq<Elem>, ghost i: nat)
    requires Queue(h, s) && i < |s| && s[i] == listelm && elm !in s
    modifies elm, listelm, Target(LinkTo(h, s, i))
    ensures Queue(h, s[..i] + [elm] + s[i..])
  {
    assert Linked(h, s, i);
    elm.prev := listelm.prev;
    elm.next := listelm;
    Store(listelm.prev, elm);
    listelm.prev := NextLink(elm);
    ghost var s' := s[..i] + [elm] + s[i..];
    DistinctInsert(s, i, elm);
    forall k | 0 <= k < |s'|
      ensures Linked(h, s', k)
    {
      assert k != i ==> old(Linked(h, s, if k < i then k else k - 1));
    }
    assert Queue(h, s');
  }

  /** TAILQ_REMOVE: unlinks without searching; the removed element is then on no queue, and
      keeps its own links. */
  method Remove(h: Head, elm: Elem, ghost s: seq<Elem>, ghost i: nat)
    requires Queue(h, s) && i < |s| && s[i] == elm
    modifies h, Target(LinkTo(h, s, i)), if i + 1 < |s| then {s[i + 1]} else {}
    ensures Queue(h, s[..i] + s[i + 1..])
  {
    assert Linked(h, s, i);
    if elm.next != null {
      elm.next.prev := elm.prev;
    } else {
      h.last := elm.prev;
    }
    Store(elm.prev, elm.next);
    ghost var s' := s[..i] + s[i + 1..];
    forall k | 0 <= k < |s'|
      ensures Linked(h, s', k)
    {
      ghost var was := if k < i then k else k + 1;
      assert s'[k] == s[was] && At(s', k + 1) == At(s, if k + 1 < i then k + 1 else k + 2);
      assert LinkTo(h, s', k) == LinkTo(h, s, if k <= i then k else k + 1);
      assert old(Linked(h, s, was));
    }
    assert Queue(h, s');
  }

  /** TAILQ_CONCAT */
  method Concat(h1: Head, h2: Head, ghost s: seq<Elem>, ghost t: seq<Elem>)
    requires Queue(h1, s) && Queue(h2, t) && h1 != h2
    modifies h1, h2, Target(LinkTo(h1, s, |s|)), if t == [] then {} else {t[0]}
    ensures Queue(h1, s + t) && Queue(h2, [])
  {
    forall i | 0 <= i < |s|
      ensures s[i] !in t
    {
      QueuesAreSeparate(h1, s, h2, t, i);
    }
    if h2.first != null {
      assert Linked(h2, t, 0);
      Store(h1.last, h2.first);
      h2.first.prev := h1.last;
      h1.last := h2.last;
      h2.first := null;
      h2.last := HeadLink(h2);
    }
    ghost var s' := s + t;
    forall k | 0 <= k < |s'|
      ensures Linked(h1, s', k)
    {
      if k < |s| {
        assert old(Linked(h1, s, k));
      } else {
        assert old(Linked(h2, t, k - |s|));
      }
    }
  }

  /** TAILQ_SWAP; a queue may be swapped with itself. */
  method Swap(h1: Head, h2: Head, ghost s: seq<Elem>, ghost t: seq<Elem>)
    requires Queue(h1, s) && Queue(h2, t)
    modifies h1, h2, if s == [] then {} else {s[0]}, if t == [] then {} else {t[0]}
    ensures Queue(h1, t) && Queue(h2, s)
  {
    if h1 == h2 {
      ContentsAreUnique(h1, s, t);
    } else {
      forall i | 0 <= i < |s|
        ensures s[i] !in t
      {
        QueuesAreSeparate(h1, s, h2, t, i);
      }
    }
    var swapFirst := h1.first;
    var swapLast := h1.last;
    h1.first := h2.first;
    h1.last := h2.last;
    h2.first := swapFirst;
    h2.last := swapLast;
    swapFirst := h1.first;
    if swapFirst != null {
      swapFirst.prev := HeadLink(h1);
    } else {
      h1.last := HeadLink(h1);
    }
    swapFirst := h2.first;
    if swapFirst != null {
      swapFirst.prev := HeadLink(h2);
    } else {
      h2.last := HeadLink(h2);
    }
    forall k | 0 <= k < |t|
      ensures Linked(h1, t, k)
    {
      assert old(Linked(h2, t, k));
    }
    forall k | 0 <= k < |s|
      ensures Linked(h2, s, k)
    {
      assert old(Linked(h1, s, k));
    }
  }
}
