/** What the queue macros of server/queue.h share: addresses of pointers to elements, and
    sequences without repetition. */
module QueueLinks {

  /** The address of a pointer to an element: of a head's first field, or of another
      element's next field. */
  datatype Address<H, E> = Nowhere | HeadLink(head: H) | NextLink(elem: E)

  /** The address of the pointer to element `i`. */
  function LinkTo<H, E>(h: H, s: seq<E>, i: nat): Address<H, E>
    requires i <= |s|
  {
    if i == 0 then HeadLink(h) else NextLink(s[i - 1])
  }

  ghost predicate Distinct<E>(s: seq<E>) {
    forall i, j :: 0 <= i < j < |s| ==> s[i] != s[j]
  }

  lemma DistinctInsert<E>(s: seq<E>, i: nat, x: E)
    requires Distinct(s) && i <= |s| && x !in s
    ensures Distinct(s[..i] + [x] + s[i..])
  {
  }
}
