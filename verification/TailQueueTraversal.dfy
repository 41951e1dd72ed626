/** The TAILQ_FOREACH_SAFE loops. Their body removes some of the elements it visits, and then
    overwrites the links of what it removed, or puts it on a second queue. */
module TailQueueTraversal {
  import opened TailQueue

  /** The elements of `s` that are in `doomed`, or (`inside` off) those that are not, in order. */
  ghost function Part(s: seq<Elem>, doomed: set<Elem>, inside: bool): seq<Elem> {
    if s == [] then []
    else if (s[0] in doomed) == inside then [s[0]] + Part(s[1..], doomed, inside)
    else Part(s[1..], doomed, inside)
  }

  ghost function Elems(s: seq<Elem>): set<Elem> {
    set e | e in s
  }

  ghost function Keep(s: seq<Elem>, doomed: set<Elem>): seq<Elem> {
    Part(s, doomed, false)
  }

  ghost function Dropped(s: seq<Elem>, doomed: set<Elem>): seq<Elem> {
    Part(s, doomed, true)
  }

  lemma {:induction false} PartAppend(s: seq<Elem>, t: seq<Elem>, doomed: set<Elem>, inside: bool)
    ensures Part(s + t, doomed, inside) == Part(s, doomed, inside) + Part(t, doomed, inside)
  {
    if s == [] {
      assert s + t == t;
    } else {
      assert (s + t)[1..] == s[1..] + t && (s + t)[0] == s[0];
      PartAppend(s[1..], t, doomed, inside);
    }
  }

  /** Which elements a part has: exactly those on that side. */
  lemma {:induction false} PartMembers(s: seq<Elem>, doomed: set<Elem>, inside: bool, e: Elem)
    ensures e in Part(s, doomed, inside) <==> e in s && (e in doomed) == inside
  {
    if s == [] {
    } else {
      PartMembers(s[1..], doomed, inside, e);
      assert s == [s[0]] + s[1..];
    }
  }

  /** No element is lost or doubled between the two parts. */
  lemma {:induction false} PartsAreTheWhole(s: seq<Elem>, doomed: set<Elem>)
    ensures multiset(Keep(s, doomed)) + multiset(Dropped(s, doomed)) == multiset(s)
  {
    if s == [] {
    } else {
      PartsAreTheWhole(s[1..], doomed);
      assert s == [s[0]] + s[1..];
    }
  }

  lemma PartOfOne(v: Elem, doomed: set<Elem>, inside: bool)
    ensures Part([v], doomed, inside) == if (v in doomed) == inside then [v] else []
  {
    assert [v][1..] == [];
  }

  /** The queue at `h` holds `kept`; the one at `dest`, if there is one, holds `moved`. */
  ghost predicate Holding(h: Head, dest: Head?, kept: seq<Elem>, moved: seq<Elem>)
    reads h, dest, kept, moved
  {
    Queue(h, kept) && (dest != null ==> dest != h && Queue(dest, moved))
  }

  /** What is on the first queue is not on the second. */
  lemma NoneShared(h: Head, s: seq<Elem>, dest: Head, t: seq<Elem>)
    requires Queue(h, s) && Queue(dest, t) && h != dest
    ensures forall i :: 0 <= i < |s| ==> s[i] !in t
  {
    forall i | 0 <= i < |s|
      ensures s[i] !in t
    {
      QueuesAreSeparate(h, s, dest, t, i);
    }
  }

  /** Take `v` off the queue and overwrite its links, as whatever then happens to its memory may. */
  method Discard(h: Head, v: Elem, ghost s: seq<Elem>, ghost i: nat, ghost dest: Head?, ghost moved: seq<Elem>)
    requires Holding(h, dest, s, moved) && i < |s| && s[i] == v
    modifies h, s
    ensures Holding(h, dest, s[..i] + s[i + 1..], moved)
    ensures dest != null ==> forall k :: 0 <= k < |s| ==> s[k] !in moved
  {
    if dest != null {
      NoneShared(h, s, dest, moved);
    }
    Remove(h, v, s, i);
    v.next, v.prev := *, *;
  }

  /** Put a discarded element on the second queue, at its front or its back. */
  method Requeue(dest: Head, front: bool, v: Elem, ghost moved: seq<Elem>, ghost h: Head, ghost kept: seq<Elem>)
    requires Holding(h, dest, kept, moved) && v !in kept && v !in moved
    modifies dest, v, moved
    ensures Holding(h, dest, kept, if front then [v] + moved else moved + [v])
  {
    NoneShared(h, kept, dest, moved);
    if front {
      InsertHead(dest, v, moved);
    } else {
      InsertTail(dest, v, moved);
    }
  }

  /** A loop body: if the element it stands on is doomed, discard it, and put it at the front
      or the back of `dest` if there is one. */
  method Body(h: Head, dest: Head?, front: bool, v: Elem, doomed: set<Elem>,
              ghost before: seq<Elem>, ghost after: seq<Elem>, ghost moved: seq<Elem>, ghost all: set<Elem>)
    requires Holding(h, dest, before + [v] + after, moved)
    requires Elems(before + [v] + after) <= all && Elems(moved) <= all
    modifies h, dest, all
    ensures var out := Dropped([v], doomed);
            Holding(h, dest, before + Keep([v], doomed) + after, if front then out + moved else moved + out)
  {
    PartOfOne(v, doomed, false);
    PartOfOne(v, doomed, true);
    assert [] + moved == moved == moved + [];
    if v in doomed {
      ghost var now, i := before + [v] + after, |before|;
      assert now[..i] == before && now[i + 1..] == after && before + [] + after == before + after;
      assert now[i] == v;
      Discard(h, v, now, i, dest, moved);
      if dest != null {
        Requeue(dest, front, v, moved, h, before + after);
      }
    }
  }

  lemma Advance(done: seq<Elem>, rest: seq<Elem>, t: seq<Elem>, doomed: set<Elem>)
    requires rest != []
    ensures var v, after := rest[0], rest[1..];
            && Keep(done, doomed) + rest == Keep(done, doomed) + [v] + after
            && done + rest == (done + [v]) + after
            && Keep(done, doomed) + Keep([v], doomed) + after == Keep(done + [v], doomed) + after
            && t + Dropped(done, doomed) + Dropped([v], doomed) == t + Dropped(done + [v], doomed)
  {
    assert rest == [rest[0]] + rest[1..];
    PartAppend(done, [rest[0]], doomed, false);
    PartAppend(done, [rest[0]], doomed, true);
  }

  lemma ElemsAppend(a: seq<Elem>, b: seq<Elem>)
    ensures Elems(a + b) == Elems(a) + Elems(b)
  {
  }

  /** Kept, remaining and moved elements are original ones. */
  lemma AllAreOld(done: seq<Elem>, rest: seq<Elem>, t: seq<Elem>, doomed: set<Elem>)
    ensures var (kept, out) := (Keep(done, doomed), Dropped(done, doomed));
            && Elems(kept + rest) <= Elems(done + rest) && Elems(rest + kept) <= Elems(rest + done)
            && Elems(t + out) <= Elems(done + rest) + Elems(t) && Elems(out + t) <= Elems(rest + done) + Elems(t)
  {
    var (kept, out) := (Keep(done, doomed), Dropped(done, doomed));
    forall e
      ensures e in kept ==> e in done
      ensures e in out ==> e in done
    {
      PartMembers(done, doomed, false, e);
      PartMembers(done, doomed, true, e);
    }
    ElemsAppend(done, rest);
    ElemsAppend(rest, done);
    ElemsAppend(kept, rest);
    ElemsAppend(rest, kept);
    ElemsAppend(t, out);
    ElemsAppend(out, t);
  }

  /** One turn of the forward loop: the successor is read before the body runs. */
  method Turn(h: Head, dest: Head?, v: Elem, doomed: set<Elem>,
              ghost s: seq<Elem>, ghost done: seq<Elem>, ghost rest: seq<Elem>, ghost t: seq<Elem>)
    returns (tvar: Elem?)
    requires s == done + rest && rest != [] && rest[0] == v
    requires Holding(h, dest, Keep(done, doomed) + rest, t + Dropped(done, doomed))
    modifies h, dest, s, t
    ensures s == (done + [v]) + rest[1..] && tvar == (if |rest| > 1 then rest[1] else null)
    ensures Holding(h, dest, Keep(done + [v], doomed) + rest[1..], t + Dropped(done + [v], doomed))
  {
    Advance(done, rest, t, doomed);
    AllAreOld(done, rest, t, doomed);
    tvar := Next(v, h, Keep(done, doomed) + rest, |Keep(done, doomed)|);
    Body(h, dest, false, v, doomed, Keep(done, doomed), rest[1..], t + Dropped(done, doomed), Elems(s) + Elems(t));
  }

  /** TAILQ_FOREACH_SAFE: visits every original element once, in order, and leaves the
      others in order, whatever the body does to the element it stands on; a second queue
      receives the removed ones in order, behind those it had. */
  method ForeachSafe(h: Head, dest: Head?, doomed: set<Elem>, ghost s: seq<Elem>, ghost t: seq<Elem>)
    returns (visited: seq<Elem>)
    requires Holding(h, dest, s, t)
    modifies h, dest, s, t
    ensures visited == s
    ensures Holding(h, dest, Keep(s, doomed), t + Dropped(s, doomed))
  {
    visited := [];
    ghost var rest, kept, out := s, Keep([], doomed), t + Dropped([], doomed);
    var v := h.first;
    assert [] + s == s && t + [] == t;
    while v != null
      invariant s == visited + rest && v == (if rest == [] then null else rest[0])
      invariant kept == Keep(visited, doomed) && out == t + Dropped(visited, doomed)
      invariant Holding(h, dest, kept + rest, out)
      decreases |rest|
    {
      var elm: Elem := v;
      var tvar := Turn(h, dest, elm, doomed, s, visited, rest, t);
      visited, rest := visited + [elm], rest[1..];
      kept, out := Keep(visited, doomed), t + Dropped(visited, doomed);
      v := tvar;
    }
    assert rest == [] && visited + rest == visited && kept + rest == kept;
  }

  lemma Retreat(rest: seq<Elem>, done: seq<Elem>, t: seq<Elem>, doomed: set<Elem>)
    requires rest != []
    ensures var v, before := rest[|rest| - 1], rest[..|rest| - 1];
            && rest + Keep(done, doomed) == before + [v] + Keep(done, doomed)
            && rest + done == before + ([v] + done)
            && before + Keep([v], doomed) + Keep(done, doomed) == before + Keep([v] + done, doomed)
            && Dropped([v], doomed) + (Dropped(done, doomed) + t) == Dropped([v] + done, doomed) + t
  {
    assert rest == rest[..|rest| - 1] + [rest[|rest| - 1]];
    PartAppend([rest[|rest| - 1]], done, doomed, false);
    PartAppend([rest[|rest| - 1]], done, doomed, true);
  }

  /** One turn of the backward loop. */
  method TurnBack(h: Head, dest: Head?, v: Elem, doomed: set<Elem>,
                  ghost s: seq<Elem>, ghost rest: seq<Elem>, ghost done: seq<Elem>, ghost t: seq<Elem>)
    requires s == rest + done && rest != [] && rest[|rest| - 1] == v
    requires Holding(h, dest, rest + Keep(done, doomed), Dropped(done, doomed) + t)
    modifies h, dest, s, t
    ensures s == rest[..|rest| - 1] + ([v] + done)
    ensures Holding(h, dest, rest[..|rest| - 1] + Keep([v] + done, doomed), Dropped([v] + done, doomed) + t)
  {
    Retreat(rest, done, t, doomed);
    AllAreOld(done, rest, t, doomed);
    Body(h, dest, true, v, doomed, rest[..|rest| - 1], Keep(done, doomed), Dropped(done, doomed) + t,
         Elems(s) + Elems(t));
  }

  /** TAILQ_FOREACH_REVERSE_SAFE: the same from the last element to the first, finding each
      predecessor through the punned back link; the second queue receives the removed ones in
      order, before those it had, when the body inserts at its head. */
  method ForeachReverseSafe(h: Head, dest: Head?, doomed: set<Elem>, ghost s: seq<Elem>, ghost t: seq<Elem>)
    returns (visited: seq<Elem>)
    requires Holding(h, dest, s, t)
    modifies h, dest, s, t
    ensures |visited| == |s| && forall i :: 0 <= i < |s| ==> visited[i] == s[|s| - 1 - i]
    ensures Holding(h, dest, Keep(s, doomed), Dropped(s, doomed) + t)
  {
    visited := [];
    ghost var rest: seq<Elem>, done: seq<Elem> := s, [];
    var v := Last(h, s);
    assert s + [] == s && [] + t == t;
    while v != null
      invariant s == rest + done && v == (if rest == [] then null else rest[|rest| - 1])
      invariant Holding(h, dest, rest + Keep(done, doomed), Dropped(done, doomed) + t)
      invariant |visited| == |done| && forall i :: 0 <= i < |visited| ==> visited[i] == s[|s| - 1 - i]
      decreases |rest|
    {
      var elm: Elem := v;
      var tvar := Prev(elm, h, rest + Keep(done, doomed), |rest| - 1);
      TurnBack(h, dest, elm, doomed, s, rest, done, t);
      visited, rest, done := visited + [elm], rest[..|rest| - 1], [elm] + done;
      v := tvar;
    }
    assert rest == [];
    assert rest + done == done && rest + Keep(done, doomed) == Keep(done, doomed);
  }
}
