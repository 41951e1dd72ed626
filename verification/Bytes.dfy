/** Byte strings, and the few sequence operations every other module is stated with. */
module Bytes {

  newtype byte = x: int | 0 <= x < 256

  /** The terminator the driver cuts its input at (main.c:33). */
  const END_CHARACTER: byte := '\n' as byte

  /** The size of the server's socket and file buffer (signal_handler.h:37). */
  const BUFFER_SIZE: nat := 1024

  datatype Option<+T> = None | Some(value: T)

  /** The last `n` elements of `s`, or all of `s` when it is shorter. */
  function LastN<T>(s: seq<T>, n: nat): (r: seq<T>)
    ensures |r| == if |s| <= n then |s| else n
  {
    if |s| <= n then s else s[|s| - n..]
  }

  function Flatten<T>(ss: seq<seq<T>>): seq<T> {
    if ss == [] then [] else ss[0] + Flatten(ss[1..])
  }

  function Sizes<T>(ss: seq<seq<T>>): (r: seq<nat>)
    ensures |r| == |ss|
  {
    seq(|ss|, i requires 0 <= i < |ss| => |ss[i]|)
  }

  function Total(sizes: seq<nat>): nat {
    if sizes == [] then 0 else sizes[0] + Total(sizes[1..])
  }

  lemma {:induction false} FlattenAppend<T>(a: seq<seq<T>>, b: seq<seq<T>>)
    ensures Flatten(a + b) == Flatten(a) + Flatten(b)
  {
    if a == [] {
      assert a + b == b;
    } else {
      assert (a + b)[1..] == a[1..] + b;
      FlattenAppend(a[1..], b);
    }
  }

  lemma {:induction false} TotalAppend(a: seq<nat>, b: seq<nat>)
    ensures Total(a + b) == Total(a) + Total(b)
  {
    if a == [] {
      assert a + b == b;
    } else {
      assert (a + b)[1..] == a[1..] + b;
      TotalAppend(a[1..], b);
    }
  }

  /** Adding one more size at the end: the step of every loop that sums sizes. */
  lemma TotalSnoc(sizes: seq<nat>, i: nat)
    requires i < |sizes|
    ensures Total(sizes[..i + 1]) == Total(sizes[..i]) + sizes[i]
  {
    assert sizes[..i + 1] == sizes[..i] + [sizes[i]];
    TotalAppend(sizes[..i], [sizes[i]]);
    assert Total([sizes[i]]) == sizes[i] + Total([]);
  }

  lemma {:induction false} FlattenLength<T>(ss: seq<seq<T>>)
    ensures |Flatten(ss)| == Total(Sizes(ss))
  {
    if ss == [] {
    } else {
      FlattenLength(ss[1..]);
      assert Sizes(ss)[1..] == Sizes(ss[1..]);
    }
  }

  /** Keeping the last `n` after each of two appends is keeping the last `n` once. */
  lemma LastNAppend<T>(a: seq<T>, b: seq<T>, n: nat)
    ensures LastN(LastN(a, n) + b, n) == LastN(a + b, n)
  {
  }
}
