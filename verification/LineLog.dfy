/** What the device stores, said without rings, blocks or loops: the last ten
    newline-terminated lines of everything written, and the unfinished line after them. */
module LineLog {
  import opened Bytes

  /** AESDCHAR_MAX_WRITE_OPERATIONS_SUPPORTED (aesd-circular-buffer.h:19). */
  const CAPACITY: nat := 10

  datatype Log = Log(lines: seq<seq<byte>>, partial: seq<byte>)

  const EMPTY_LOG := Log([], [])

  /** The log after one more finished line; the oldest of ten falls out. */
  function PushLine(lines: seq<seq<byte>>, line: seq<byte>): seq<seq<byte>> {
    LastN(lines + [line], CAPACITY)
  }

  /** The device as a machine that consumes one byte at a time. */
  function FeedByte(d: Log, c: byte): Log {
    if c == END_CHARACTER
    then Log(PushLine(d.lines, d.partial + [c]), [])
    else Log(d.lines, d.partial + [c])
  }

  function Feed(d: Log, s: seq<byte>): Log {
    if s == [] then d else FeedByte(Feed(d, s[..|s| - 1]), s[|s| - 1])
  }

  ghost predicate NoNewline(s: seq<byte>) {
    forall i :: 0 <= i < |s| ==> s[i] != END_CHARACTER
  }

  /** A finished line: exactly one newline, at its end. */
  ghost predicate IsLine(s: seq<byte>) {
    s != [] && s[|s| - 1] == END_CHARACTER && NoNewline(s[..|s| - 1])
  }

  /** `lines` and `rest` are the way to cut `s` after each of its newlines. */
  ghost predicate IsSplit(s: seq<byte>, lines: seq<seq<byte>>, rest: seq<byte>) {
    && Flatten(lines) + rest == s
    && (forall i :: 0 <= i < |lines| ==> IsLine(lines[i]))
    && NoNewline(rest)
  }

  /** Position `i` of `s` starts a line: it is 0 or just past a newline. */
  ghost predicate AtLineStart(s: seq<byte>, i: nat) {
    i <= |s| && (i == 0 || s[i - 1] == END_CHARACTER)
  }

  // ---- chunking ----

  lemma {:induction false} FeedAppend(d: Log, a: seq<byte>, b: seq<byte>)
    ensures Feed(d, a + b) == Feed(Feed(d, a), b)
  {
    if b == [] {
      assert a + b == a;
    } else {
      var n := |b| - 1;
      assert (a + b)[..|a + b| - 1] == a + b[..n];
      assert (a + b)[|a + b| - 1] == b[n];
      FeedAppend(d, a, b[..n]);
    }
  }

  function FeedAll(d: Log, chunks: seq<seq<byte>>): Log
    decreases |chunks|
  {
    if chunks == [] then d else FeedAll(Feed(d, chunks[0]), chunks[1..])
  }

  lemma {:induction false} FeedAllIsFeed(d: Log, chunks: seq<seq<byte>>)
    ensures FeedAll(d, chunks) == Feed(d, Flatten(chunks))
    decreases |chunks|
  {
    if chunks == [] {
    } else {
      FeedAllIsFeed(Feed(d, chunks[0]), chunks[1..]);
      FeedAppend(d, chunks[0], Flatten(chunks[1..]));
    }
  }

  /** Any two ways to cut the same bytes into writes leave the device in the same state. */
  lemma ChunkingDoesNotMatter(d: Log, xs: seq<seq<byte>>, ys: seq<seq<byte>>)
    requires Flatten(xs) == Flatten(ys)
    ensures FeedAll(d, xs) == FeedAll(d, ys)
  {
    FeedAllIsFeed(d, xs);
    FeedAllIsFeed(d, ys);
  }

  // ---- what one unfinished piece and one finished line do ----

  lemma {:induction false} FeedWithoutNewline(d: Log, s: seq<byte>)
    requires NoNewline(s)
    ensures Feed(d, s) == Log(d.lines, d.partial + s)
  {
    if s == [] {
      assert d.partial + s == d.partial;
    } else {
      FeedWithoutNewline(d, s[..|s| - 1]);
      assert d.partial + s == d.partial + s[..|s| - 1] + [s[|s| - 1]];
    }
  }

  lemma FeedOneLine(d: Log, s: seq<byte>)
    requires IsLine(s)
    ensures Feed(d, s) == Log(PushLine(d.lines, d.partial + s), [])
  {
    FeedWithoutNewline(d, s[..|s| - 1]);
    assert d.partial + s == d.partial + s[..|s| - 1] + [s[|s| - 1]];
  }

  /** Position `end` is the first newline at or after `start`. */
  lemma FeedNextLine(d: Log, s: seq<byte>, start: nat, end: nat)
    requires start <= end < |s| && s[end] == END_CHARACTER && NoNewline(s[start..end])
    ensures var d0 := Feed(d, s[..start]);
            Feed(d, s[..end + 1]) == Log(PushLine(d0.lines, d0.partial + s[start..end + 1]), [])
  {
    assert s[..end + 1] == s[..start] + s[start..end + 1];
    assert s[start..end + 1][..end - start] == s[start..end];
    FeedAppend(d, s[..start], s[start..end + 1]);
    FeedOneLine(Feed(d, s[..start]), s[start..end + 1]);
  }

  lemma FeedUnfinished(d: Log, s: seq<byte>, start: nat, end: nat)
    requires start <= end <= |s| && NoNewline(s[start..end])
    ensures var d0 := Feed(d, s[..start]);
            Feed(d, s[..end]) == Log(d0.lines, d0.partial + s[start..end])
  {
    assert s[..end] == s[..start] + s[start..end];
    FeedAppend(d, s[..start], s[start..end]);
    FeedWithoutNewline(Feed(d, s[..start]), s[start..end]);
  }

  /** When the scan of a buffer is over with `start` at its last line start, the last branch
      of aesd_write (unfinished bytes, and bytes pending) is taken exactly by the buffers
      without a newline that find bytes pending. */
  lemma TailMeetsPendingBytes(d: Log, buf: seq<byte>, start: nat)
    requires buf != [] && AtLineStart(buf, start) && NoNewline(buf[start..])
    ensures start < |buf| && Feed(d, buf[..start]).partial != [] <==> NoNewline(buf) && d.partial != []
  {
    if start == 0 {
      assert buf[start..] == buf && buf[..start] == [];
    } else {
      assert buf[..start][|buf[..start]| - 1] == END_CHARACTER;
    }
  }

  // ---- the content theorem ----

  /** Every byte string can be cut into lines, with as many lines as it has newlines. */
  lemma {:induction false} SplitExists(s: seq<byte>) returns (lines: seq<seq<byte>>, rest: seq<byte>)
    ensures IsSplit(s, lines, rest)
    ensures |lines| == multiset(s)[END_CHARACTER]
  {
    if s == [] {
      lines, rest := [], [];
    } else {
      var n := |s| - 1;
      var ls, r := SplitExists(s[..n]);
      assert s == s[..n] + [s[n]];
      if s[n] == END_CHARACTER {
        lines, rest := ls + [r + [s[n]]], [];
        FlattenAppend(ls, [r + [s[n]]]);
        assert (r + [s[n]])[..|r|] == r;
        assert IsLine(r + [s[n]]);
        assert Flatten([r + [s[n]]]) == r + [s[n]] + Flatten<byte>([]);
        assert Flatten(lines) + rest == Flatten(ls) + r + [s[n]];
      } else {
        lines, rest := ls, r + [s[n]];
        assert Flatten(lines) + rest == Flatten(ls) + r + [s[n]];
      }
    }
  }

  lemma FeedLineThenRest(d: Log, head: seq<byte>, line: seq<byte>, rest: seq<byte>)
    requires IsLine(line) && NoNewline(rest)
    ensures var d0 := Feed(d, head);
            Feed(d, head + line + rest) == Log(PushLine(d0.lines, d0.partial + line), rest)
  {
    FeedAppend(d, head, line);
    FeedOneLine(Feed(d, head), line);
    FeedAppend(d, head + line, rest);
    FeedWithoutNewline(Feed(d, head + line), rest);
    assert [] + rest == rest;
  }

  lemma SplitAtLastLine(s: seq<byte>, lines: seq<seq<byte>>, rest: seq<byte>)
    requires IsSplit(s, lines, rest) && lines != []
    ensures var n := |lines| - 1;
            s == Flatten(lines[..n]) + lines[n] + rest && IsSplit(Flatten(lines[..n]), lines[..n], [])
  {
    var n := |lines| - 1;
    assert lines == lines[..n] + [lines[n]];
    FlattenAppend(lines[..n], [lines[n]]);
    assert Flatten([lines[n]]) == lines[n] + Flatten<byte>([]);
  }

  /** The lines after feeding `lines`: the pending bytes become the front of the first. */
  function Joined(d: Log, lines: seq<seq<byte>>): seq<seq<byte>>
    requires lines != []
  {
    d.lines + [d.partial + lines[0]] + lines[1..]
  }

  /** From any state: feeding `s` finishes the pending line with the first line of `s`,
      pushes the others, and keeps what follows the last newline. */
  lemma {:induction false} FeedSplit(d: Log, s: seq<byte>, lines: seq<seq<byte>>, rest: seq<byte>)
    requires IsSplit(s, lines, rest)
    requires |d.lines| <= CAPACITY
    ensures Feed(d, s) ==
            if lines == [] then Log(d.lines, d.partial + s)
            else Log(LastN(Joined(d, lines), CAPACITY), rest)
    decreases |lines|
  {
    if lines == [] {
      assert s == rest;
      FeedWithoutNewline(d, s);
    } else {
      var n := |lines| - 1;
      var head := Flatten(lines[..n]);
      SplitAtLastLine(s, lines, rest);
      FeedLineThenRest(d, head, lines[n], rest);
      FeedSplit(d, head, lines[..n], []);
      if n == 0 {
        assert Joined(d, lines) == d.lines + [d.partial + lines[0]];
        assert d.partial + [] == d.partial;
      } else {
        assert Joined(d, lines) == Joined(d, lines[..n]) + [lines[n]];
        assert [] + lines[n] == lines[n];
        LastNAppend(Joined(d, lines[..n]), [lines[n]], CAPACITY);
      }
    }
  }

  /** Starting empty, the device holds exactly the last ten lines of all it was fed,
      and exactly the bytes after the last newline. */
  lemma ContentsAreTheLastTenLines(s: seq<byte>, lines: seq<seq<byte>>, rest: seq<byte>)
    requires IsSplit(s, lines, rest)
    ensures Feed(EMPTY_LOG, s) == Log(LastN(lines, CAPACITY), rest)
  {
    FeedSplit(EMPTY_LOG, s, lines, rest);
    if lines == [] {
      assert s == rest;
    } else {
      assert [] + lines[0] == lines[0];
      assert Joined(EMPTY_LOG, lines) == [lines[0]] + lines[1..] == lines;
    }
  }

  /** The cut is unique, so "the lines of s" is well defined. */
  lemma {:induction false} SplitIsUnique(s: seq<byte>, xs: seq<seq<byte>>, x: seq<byte>, ys: seq<seq<byte>>, y: seq<byte>)
    requires IsSplit(s, xs, x) && IsSplit(s, ys, y)
    ensures xs == ys && x == y
    decreases |xs| + |ys|
  {
    if xs == [] && ys == [] {
      assert x == [] + x == s == [] + y == y;
    } else if xs == [] {
      assert s == [] + x == x;
      FirstNewline(s, ys, y);
      assert false;
    } else if ys == [] {
      assert s == [] + y == y;
      FirstNewline(s, xs, x);
      assert false;
    } else {
      FirstNewline(s, xs, x);
      FirstNewline(s, ys, y);
      var a, b := |xs[0]|, |ys[0]|;
      assert a == b;
      assert IsSplit(s[a..], xs[1..], x);
      assert IsSplit(s[b..], ys[1..], y);
      SplitIsUnique(s[a..], xs[1..], x, ys[1..], y);
      assert xs == [xs[0]] + xs[1..] && ys == [ys[0]] + ys[1..];
    }
  }

  /** The first line of a cut ends at the first newline. */
  lemma FirstNewline(s: seq<byte>, lines: seq<seq<byte>>, rest: seq<byte>)
    requires IsSplit(s, lines, rest) && lines != []
    ensures 0 < |lines[0]| <= |s| && lines[0] == s[..|lines[0]|]
    ensures s[|lines[0]| - 1] == END_CHARACTER && NoNewline(s[..|lines[0]| - 1])
    ensures s[|lines[0]|..] == Flatten(lines[1..]) + rest
  {
  }

  // ---- conservation ----

  /** Nothing is lost or reordered: what fell out, what is stored and what is pending
      are, in that order, all the bytes fed; the fallen part is whole lines, the oldest ones. */
  lemma BytesAreConserved(s: seq<byte>, lines: seq<seq<byte>>, rest: seq<byte>)
    requires IsSplit(s, lines, rest)
    ensures var d := Feed(EMPTY_LOG, s);
            && |d.lines| <= |lines|
            && var evicted := Flatten(lines[..|lines| - |d.lines|]);
            && s == evicted + (Flatten(d.lines) + d.partial)
            && |s| == |evicted| + Total(Sizes(d.lines)) + |d.partial|
  {
    ContentsAreTheLastTenLines(s, lines, rest);
    var d := Feed(EMPTY_LOG, s);
    var k := |lines| - |d.lines|;
    assert lines == lines[..k] + d.lines;
    FlattenAppend(lines[..k], d.lines);
    FlattenLength(d.lines);
  }

  /** The same with every number and byte written out. After any bytes with `k` newlines in
      them the device holds as many lines as the smaller of ten and `k`, each with one newline,
      its last byte; pending bytes without a newline; and in that order these are the end of
      what was fed. */
  lemma ContentsInPlainTerms(s: seq<byte>)
    ensures var d, k := Feed(EMPTY_LOG, s), multiset(s)['\n' as byte];
            && |d.lines| == (if k < 10 then k else 10)
            && (forall i :: 0 <= i < |d.lines| ==>
                              var line := d.lines[i];
                              line != [] && line[|line| - 1] == '\n' as byte && '\n' as byte !in line[..|line| - 1])
            && '\n' as byte !in d.partial
            && exists gone :: s == gone + (Flatten(d.lines) + d.partial)
  {
    var lines, rest := SplitExists(s);
    ContentsAreTheLastTenLines(s, lines, rest);
    BytesAreConserved(s, lines, rest);
  }

  /** In every state the device can reach, each stored entry is one whole line. */
  lemma {:induction false} FeedKeepsLines(d: Log, s: seq<byte>)
    requires WellFormed(d)
    ensures WellFormed(Feed(d, s))
  {
    if s == [] {
    } else {
      var n := |s| - 1;
      FeedKeepsLines(d, s[..n]);
      var d0 := Feed(d, s[..n]);
      assert (d0.partial + [s[n]])[..|d0.partial|] == d0.partial;
    }
  }

  ghost predicate WellFormed(d: Log) {
    && |d.lines| <= CAPACITY
    && (forall i :: 0 <= i < |d.lines| ==> IsLine(d.lines[i]))
    && NoNewline(d.partial)
  }
}
