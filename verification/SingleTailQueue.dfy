/** The STAILQ macros of server/queue.h: forward pointers only, and a head that keeps the
    address of the final NULL. */
module SingleTailQueue {
  import opened QueueLinks

  type Link = Address<Head, Elem>

  class Elem {
    var next: Elem?  // stqe_next
  }

  class Head {
    var first: Elem?  // stqh_first
    var last: Link    // stqh_last
  }

  function Target(l: Link): set<object> {
    match l
    case Nowhere => {}
    case HeadLink(h) => {h}
    case NextLink(e) => {e}
  }

  /** `*l = e`. */
  method Store(l: Link, e: Elem?)
    requires !l.Nowhere?
    modifies Target(l)
    ensures l.HeadLink? ==> l.head.first == e && l.head.last == old(l.head.last)
    ensures l.NextLink? ==> l.elem.next == e
  {
    match l
    case HeadLink(h) => h.first := e;
    case NextLink(x) => x.next := e;
  }

  /** Element `i`, or NULL past the end. */
  function At(s: seq<Elem>, i: nat): Elem? {
    if i < |s| then s[i] else null
  }

  ghost predicate Linked(s: seq<Elem>, i: nat)
    requires i < |s|
    reads s[i]
  {
    s[i].next == At(s, i + 1)
  }

  /** The queue at `h` holds exactly `s`, and the head addresses its final NULL. */
  ghost predicate Queue(h: Head, s: seq<Elem>)
    reads h, s
  {
    && Distinct(s)
    && h.first == At(s, 0)
    && h.last == LinkTo(h, s, |s|)
    && forall i {:trigger Linked(s, i)} :: 0 <= i < |s| ==> Linked(s, i)
  }

  /** With forward pointers only, two queues that share one element share the whole rest of
      it, and so the final element; the tail addresses then name one head or one element. */
  lemma {:induction false} SharedTail(g: Head, s: seq<Elem>, h: Head, t: seq<Elem>, i: nat, j: nat)
    requires Queue(g, s) && Queue(h, t) && i < |s| && j < |t| && s[i] == t[j]
    ensures |s| - i == |t| - j && s[i..] == t[j..]
    ensures g.last == h.last
    decreases |s| - i
  {
    assert Linked(s, i) && Linked(t, j);
    if i + 1 < |s| {
      SharedTail(g, s, h, t, i + 1, j + 1);
      assert s[i..] == [s[i]] + s[i + 1..] && t[j..] == [t[j]] + t[j + 1..];
    }
  }

  /** So two queues share no element exactly when their tail addresses differ. */
  lemma SeparateIffTailsDiffer(g: Head, s: seq<Elem>, h: Head, t: seq<Elem>)
    requires Queue(g, s) && Queue(h, t) && g != h
    ensures g.last != h.last <==> forall i :: 0 <= i < |s| ==> s[i] !in t
  {
    if i :| 0 <= i < |s| && s[i] in t {
      var j :| 0 <= j < |t| && t[j] == s[i];
      SharedTail(g, s, h, t, i, j);
    }
  }

  lemma ContentsAreUnique(h: Head, s: seq<Elem>, t: seq<Elem>)
    requires Queue(h, s) && Queue(h, t)
    ensures s == t
  {
    if s != [] {
      SharedTail(h, s, h, t, 0, 0);
      assert s[0..] == s && t[0..] == t;
    }
  }

  /** STAILQ_LAST, by going back from the tail address to the element that contains it. */
  function Last(h: Head, ghost s: seq<Elem>): (e: Elem?)
    requires Queue(h, s)
    reads h, s
    ensures e == if s == [] then null else s[|s| - 1]
  {
    if h.first == null then null else h.last.elem
  }

  /** STAILQ_INIT */
  method Init(h: Head)
    modifies h
    ensures Queue(h, [])
  {
    h.first := null;
    h.last := HeadLink(h);
  }

  /** STAILQ_INSERT_HEAD */
  method InsertHead(h: Head, elm: Elem, ghost s: seq<Elem>)
    requires Queue(h, s) && elm !in s
    modifies h, elm
    ensures Queue(h, [elm] + s)
  {
    elm.next := h.first;
    if elm.next == null {
      h.last := NextLink(elm);
    }
    h.first := elm;
    ghost var s' := [elm] + s;
    forall k | 0 <= k < |s'|
      ensures Linked(s', k)
    {
      assert k > 0 ==> old(Linked(s, k - 1));
    }
  }

  /** STAILQ_INSERT_TAIL */
  method InsertTail(h: Head, elm: Elem, ghost s: seq<Elem>)
    requires Queue(h, s) && elm !in s
    modifies h, elm, Target(LinkTo(h, s, |s|))
    ensures Queue(h, s + [elm])
  {
    elm.next := null;
    Store(h.last, elm);
    h.last := NextLink(elm);
    ghost var s' := s + [elm];
    forall k | 0 <= k < |s'|
      ensures Linked(s', k)
    {
      assert k < |s| ==> old(Linked(s, k));
    }
  }

  /** STAILQ_INSERT_AFTER */
  method InsertAfter(h: Head, tqelm: Elem, elm: Elem, ghost s: seq<Elem>, ghost i: nat)
    requires Queue(h, s) && i < |s| && s[i] == tqelm && elm !in s
    modifies h, elm, tqelm
    ensures Queue(h, s[..i + 1] + [elm] + s[i + 1..])
  {
    assert Linked(s, i);
    elm.next := tqelm.next;
    if elm.next == null {
      h.last := NextLink(elm);
    }
    tqelm.next := elm;
    ghost var s' := s[..i + 1] + [elm] + s[i + 1..];
    DistinctInsert(s, i + 1, elm);
    forall k | 0 <= k < |s'|
      ensures Linked(s', k)
    {
      assert k != i + 1 ==> old(Linked(s, if k <= i then k else k - 1));
    }
  }

  /** STAILQ_REMOVE_HEAD */
  method RemoveHead(h: Head, ghost s: seq<Elem>)
    requires Queue(h, s) && s != []
    modifies h
    ensures Queue(h, s[1..])
  {
    assert Linked(s, 0);
    h.first := h.first.next;
    if h.first == null {
      h.last := HeadLink(h);
    }
    ghost var s' := s[1..];
    forall k | 0 <= k < |s'|
      ensures Linked(s', k)
    {
      assert old(Linked(s, k + 1));
    }
  }

  /** STAILQ_REMOVE_AFTER; there is an element after `elm`. */
  method RemoveAfter(h: Head, elm: Elem, ghost s: seq<Elem>, ghost i: nat)
    requires Queue(h, s) && i + 1 < |s| && s[i] == elm
    modifies h, elm
    ensures Queue(h, s[..i + 1] + s[i + 2..])
  {
    assert Linked(s, i) && Linked(s, i + 1);
    elm.next := elm.next.next;
    if elm.next == null {
      h.last := NextLink(elm);
    }
    ghost var s' := s[..i + 1] + s[i + 2..];
    forall k | 0 <= k < |s'|
      ensures Linked(s', k)
    {
      assert old(Linked(s, if k <= i then k else k + 1));
    }
  }

  /** STAILQ_REMOVE: searches for the predecessor. */
  method Remove(h: Head, elm: Elem, ghost s: seq<Elem>, ghost i: nat)
    requires Queue(h, s) && i < |s| && s[i] == elm
    modifies h, Target(LinkTo(h, s, i))
    ensures Queue(h, s[..i] + s[i + 1..])
  {
    if h.first == elm {
      RemoveHead(h, s);
      assert s[..0] + s[1..] == s[1..];
    } else {
      var curelm: Elem := h.first;
      ghost var n := 0;
      assert Linked(s, 0);
      while curelm.next != elm
        invariant n < i && curelm == s[n] && Linked(s, n)
        decreases i - n
      {
        n := n + 1;
        assert Linked(s, n);
        curelm := curelm.next;
      }
      RemoveAfter(h, curelm, s, n);
    }
  }

  /** STAILQ_CONCAT, of queues that share no element. */
  method Concat(h1: Head, h2: Head, ghost s: seq<Elem>, ghost t: seq<Elem>)
    requires Queue(h1, s) && Queue(h2, t) && h1 != h2 && h1.last != h2.last
    modifies h1, h2, Target(LinkTo(h1, s, |s|))
    ensures Queue(h1, s + t) && Queue(h2, [])
  {
    SeparateIffTailsDiffer(h1, s, h2, t);
    if h2.first != null {
      Store(h1.last, h2.first);
      h1.last := h2.last;
      h2.first := null;
      h2.last := HeadLink(h2);
    }
    ghost var s' := s + t;
    forall k | 0 <= k < |s'|
      ensures Linked(s', k)
    {
      if k < |s| {
        assert old(Linked(s, k));
      } else {
        assert old(Linked(t, k - |s|));
      }
    }
  }

  /** STAILQ_SWAP; writes no element at all, and may swap a queue with itself. */
  method Swap(h1: Head, h2: Head, ghost s: seq<Elem>, ghost t: seq<Elem>)
    requires Queue(h1, s) && Queue(h2, t)
    modifies h1, h2
    ensures Queue(h1, t) && Queue(h2, s)
  {
    if h1 == h2 {
      ContentsAreUnique(h1, s, t);
    }
    var swapFirst := h1.first;
    var swapLast := h1.last;
    h1.first := h2.first;
    h1.last := h2.last;
    h2.first := swapFirst;
    h2.last := swapLast;
    if h1.first == null {
      h1.last := HeadLink(h1);
    }
    if h2.first == null {
      h2.last := HeadLink(h2);
    }
    forall k | 0 <= k < |t|
      ensures Linked(t, k)
    {
      assert old(Linked(t, k));
    }
    forall k | 0 <= k < |s|
      ensures Linked(s, k)
    {
      assert old(Linked(s, k));
    }
  }
}
