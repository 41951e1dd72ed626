/** The LIST macros of server/queue.h: back links as in a tail queue, but no tail address,
    so an element is removed with nothing but the element, and LIST_CONCAT has to walk. */
module ListQueue {
  import opened QueueLinks

  type Link = Address<Head, Elem>

  class Elem {
    var next: Elem?  // le_next
    var prev: Link   // le_prev
  }

  class Head {
    var first: Elem?  // lh_first
  }

  function Target(l: Link): set<object> {
    match l
    case Nowhere => {}
    case HeadLink(h) => {h}
    case NextLink(e) => {e}
  }

  /** `*l = e`. */
  method Store(l: Link, e: Elem?)
    requires !l.Nowhere?
    modifies Target(l)
    ensures l.HeadLink? ==> l.head.first == e
    ensures l.NextLink? ==> l.elem.next == e && l.elem.prev == old(l.elem.prev)
  {
    match l
    case HeadLink(h) => h.first := e;
    case NextLink(x) => x.next := e;
  }

  /** Element `i`, or NULL past the end. */
  function At(s: seq<Elem>, i: nat): Elem? {
    if i < |s| then s[i] else null
  }

  ghost predicate Linked(h: Head, s: seq<Elem>, i: nat)
    requires i < |s|
    reads s[i]
  {
    s[i].next == At(s, i + 1) && s[i].prev == LinkTo(h, s, i)
  }

  /** The list at `h` holds exactly `s`, and every back link addresses the pointer to its element. */
  ghost predicate List(h: Head, s: seq<Elem>)
    reads h, s
  {
    && Distinct(s)
    && h.first == At(s, 0)
    && forall i {:trigger Linked(h, s, i)} :: 0 <= i < |s| ==> Linked(h, s, i)
  }

  /** Two lists never share an element. */
  lemma {:induction false} ListsAreSeparate(g: Head, s: seq<Elem>, h: Head, t: seq<Elem>, i: nat)
    requires List(g, s) && List(h, t) && g != h && i < |s|
    ensures s[i] !in t
  {
    if s[i] in t {
      var j :| 0 <= j < |t| && t[j] == s[i];
      assert Linked(g, s, i) && Linked(h, t, j);
      if i > 0 && j > 0 {
        ListsAreSeparate(g, s, h, t, i - 1);
      }
      assert false;
    }
  }

  /** As far as two readings of one list go, they agree. */
  lemma {:induction false} ReadingsAgree(h: Head, s: seq<Elem>, t: seq<Elem>, i: nat)
    requires List(h, s) && List(h, t) && i <= |s| && i <= |t|
    ensures s[..i] == t[..i] && At(s, i) == At(t, i)
  {
    if i > 0 {
      ReadingsAgree(h, s, t, i - 1);
      assert Linked(h, s, i - 1) && Linked(h, t, i - 1);
      assert s[..i] == s[..i - 1] + [s[i - 1]] && t[..i] == t[..i - 1] + [t[i - 1]];
    }
  }

  /** The heap determines the contents of a list. */
  lemma ContentsAreUnique(h: Head, s: seq<Elem>, t: seq<Elem>)
    requires List(h, s) && List(h, t)
    ensures s == t
  {
    var n := if |s| <= |t| then |s| else |t|;
    ReadingsAgree(h, s, t, n);
    assert s[..n] == s && t[..n] == t;
  }

  /** LIST_PREV: NULL for the first element, found by comparing addresses. */
  function Prev(elm: Elem, h: Head, ghost s: seq<Elem>, ghost i: nat): (e: Elem?)
    requires List(h, s) && i < |s| && s[i] == elm
    reads h, s
    ensures e == if i == 0 then null else s[i - 1]
  {
    assert Linked(h, s, i);
    if elm.prev == HeadLink(h) then null else elm.prev.elem
  }

  /** LIST_INIT */
  method Init(h: Head)
    modifies h
    ensures List(h, [])
  {
    h.first := null;
  }

  /** LIST_INSERT_HEAD */
  method InsertHead(h: Head, elm: Elem, ghost s: seq<Elem>)
    requires List(h, s) && elm !in s
    modifies h, elm, if s == [] then {} else {s[0]}
    ensures List(h, [elm] + s)
  {
    elm.next := h.first;
    if elm.next != null {
      h.first.prev := NextLink(elm);
    }
    h.first := elm;
    elm.prev := HeadLink(h);
    ghost var s' := [elm] + s;
    forall k | 0 <= k < |s'|
      ensures Linked(h, s', k)
    {
      assert k > 0 ==> old(Linked(h, s, k - 1));
    }
  }

  /** LIST_INSERT_AFTER */
  method InsertAfter(listelm: Elem, elm: Elem, ghost h: Head, ghost s: seq<Elem>, ghost i: nat)
    requires List(h, s) && i < |s| && s[i] == listelm && elm !in s
    modifies elm, listelm, if i + 1 < |s| then {s[i + 1]} else {}
    ensures List(h, s[..i + 1] + [elm] + s[i + 1..])
  {
    assert Linked(h, s, i);
    elm.next := listelm.next;
    if elm.next != null {
      listelm.next.prev := NextLink(elm);
    }
    listelm.next := elm;
    elm.prev := NextLink(listelm);
    ghost var s' := s[..i + 1] + [elm] + s[i + 1..];
    DistinctInsert(s, i + 1, elm);
    forall k | 0 <= k < |s'|
      ensures Linked(h, s', k)
    {
      assert k != i + 1 ==> old(Linked(h, s, if k <= i then k else k - 1));
    }
  }

  /** LIST_INSERT_BEFORE */
  method InsertBefore(listelm: Elem, elm: Elem, ghost h: Head, ghost s: seq<Elem>, ghost i: nat)
    requires List(h, s) && i < |s| && s[i] == listelm && elm !in s
    modifies elm, listelm, Target(LinkTo(h, s, i))
    ensures List(h, s[..i] + [elm] + s[i..])
  {
    assert Linked(h, s, i);
    elm.prev := listelm.prev;
    elm.next := listelm;
    Store(listelm.prev, elm);
    listelm.prev := NextLink(elm);
    ghost var s' := s[..i] + [elm] + s[i..];
    DistinctInsert(s, i, elm);
    forall k | 0 <= k < |s'|
      ensures Linked(h, s', k)
    {
      assert k != i ==> old(Linked(h, s, if k < i then k else k - 1));
    }
  }

  /** LIST_REMOVE: needs neither the head nor a search. */
  method Remove(elm: Elem, ghost h: Head, ghost s: seq<Elem>, ghost i: nat)
    requires List(h, s) && i < |s| && s[i] == elm
    modifies Target(LinkTo(h, s, i)), if i + 1 < |s| then {s[i + 1]} else {}
    ensures List(h, s[..i] + s[i + 1..])
  {
    assert Linked(h, s, i);
    if elm.next != null {
      elm.next.prev := elm.prev;
    }
    Store(elm.prev, elm.next);
    ghost var s' := s[..i] + s[i + 1..];
    forall k | 0 <= k < |s'|
      ensures Linked(h, s', k)
    {
      assert old(Linked(h, s, if k < i then k else k + 1));
    }
  }

  /** LIST_CONCAT: walks the first list to its last element. */
  method Concat(h1: Head, h2: Head, ghost s: seq<Elem>, ghost t: seq<Elem>)
    requires List(h1, s) && List(h2, t) && h1 != h2
    modifies h1, h2, Target(LinkTo(h1, s, |s|)), if t == [] then {} else {t[0]}
    ensures List(h1, s + t) && List(h2, [])
  {
    forall i | 0 <= i < |s|
      ensures s[i] !in t
    {
      ListsAreSeparate(h1, s, h2, t, i);
    }
    var curelm := h1.first;
    if curelm == null {
      h1.first := h2.first;
      if h1.first != null {
        h2.first.prev := HeadLink(h1);
        h2.first := null;
      }
    } else if h2.first != null {
      ghost var n := 0;
      assert Linked(h1, s, 0);
      while curelm.next != null
        invariant n < |s| && curelm == s[n] && Linked(h1, s, n)
        decreases |s| - n
      {
        n := n + 1;
        assert Linked(h1, s, n);
        curelm := curelm.next;
      }
      curelm.next := h2.first;
      h2.first.prev := NextLink(curelm);
      h2.first := null;
    }
    ghost var s' := s + t;
    forall k | 0 <= k < |s'|
      ensures Linked(h1, s', k)
    {
      if k < |s| {
        assert old(Linked(h1, s, k));
      } else {
        assert old(Linked(h2, t, k - |s|));
      }
    }
  }

  /** LIST_SWAP; a list may be swapped with itself. */
  method Swap(h1: Head, h2: Head, ghost s: seq<Elem>, ghost t: seq<Elem>)
    requires List(h1, s) && List(h2, t)
    modifies h1, h2, if s == [] then {} else {s[0]}, if t == [] then {} else {t[0]}
    ensures List(h1, t) && List(h2, s)
  {
    if h1 == h2 {
      ContentsAreUnique(h1, s, t);
    } else {
      forall i | 0 <= i < |s|
        ensures s[i] !in t
      {
        ListsAreSeparate(h1, s, h2, t, i);
      }
    }
    var swapTmp := h1.first;
    h1.first := h2.first;
    h2.first := swapTmp;
    swapTmp := h1.first;
    if swapTmp != null {
      swapTmp.prev := HeadLink(h1);
    }
    swapTmp := h2.first;
    if swapTmp != null {
      swapTmp.prev := HeadLink(h2);
    }
    forall k | 0 <= k < |t|
      ensures Linked(h1, t, k)
    {
      assert old(Linked(h2, t, k));
    }
    forall k | 0 <= k < |s|
      ensures Linked(h2, s, k)
    {
      assert old(Linked(h1, s, k));
    }
  }
}
