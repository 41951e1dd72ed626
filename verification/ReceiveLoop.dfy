/** The receive loop of connection_handler (socket_core.c:80-83, 101-107, 155-174): what it
    collects, and which reads it takes for a seek command. */
module ReceiveLoop {
  import opened Bytes

  const NULL_TERMINATOR: byte := '\0' as byte

  /** A string constant of the source as the bytes it stands for. */
  function Ascii(text: string): (bs: seq<byte>)
    requires forall i :: 0 <= i < |text| ==> text[i] < 128 as char
    ensures |bs| == |text| && forall i :: 0 <= i < |bs| ==> bs[i] == text[i] as byte
  {
    seq(|text|, i requires 0 <= i < |text| => text[i] as byte)
  }

  const SEEK_KEY: seq<byte> := Ascii("AESDCHAR_IOCSEEKTO:")

  /** The local buffer is zero before the first read. */
  function Zeros(): (b: seq<byte>)
    ensures |b| == BUFFER_SIZE
  {
    seq(BUFFER_SIZE, _ => NULL_TERMINATOR)
  }

  /** A read overwrites the front of the buffer; what earlier reads left behind it stays. */
  function Overwrite(buffer: seq<byte>, chunk: seq<byte>): seq<byte>
    requires |chunk| <= |buffer|
  {
    chunk + buffer[|chunk|..]
  }

  /** The string at the front of the buffer, as strstr sees it. */
  function CString(buffer: seq<byte>): seq<byte> {
    if buffer == [] || buffer[0] == NULL_TERMINATOR then [] else [buffer[0]] + CString(buffer[1..])
  }

  predicate MatchesAt(text: seq<byte>, key: seq<byte>, i: nat) {
    i + |key| <= |text| && text[i..i + |key|] == key
  }

  predicate Contains(text: seq<byte>, key: seq<byte>) {
    exists i | 0 <= i <= |text| :: MatchesAt(text, key, i)
  }

  /** The search finds a key exactly in the texts that have it somewhere. */
  lemma ContainsIsSubstring(text: seq<byte>, key: seq<byte>)
    ensures Contains(text, key) <==> exists a, b :: text == a + key + b
  {
    if Contains(text, key) {
      var i :| 0 <= i <= |text| && MatchesAt(text, key, i);
      assert text == text[..i] + key + text[i + |key|..];
    }
    forall a, b | text == a + key + b
      ensures MatchesAt(text, key, |a|)
    {
    }
  }

  /** Lines 104-106: the buffer has a NUL somewhere, and the key before the first one. */
  predicate SeekRequested(buffer: seq<byte>) {
    NULL_TERMINATOR in buffer && Contains(CString(buffer), SEEK_KEY)
  }

  /** What the loop has heard when it ends: the reads it collected, and the buffer in which
      it recognised a seek command, if it did. */
  datatype Heard = Heard(taken: seq<seq<byte>>, seek: Option<seq<byte>>)

  /** The reads the loop takes from `arrivals`: up to an end of stream or error, up to a seek
      command, or up to the first short one. */
  function Hear(buffer: seq<byte>, arrivals: seq<seq<byte>>): Heard
    requires |buffer| == BUFFER_SIZE && forall i :: 0 <= i < |arrivals| ==> |arrivals[i]| <= BUFFER_SIZE
    decreases |arrivals|
  {
    if arrivals == [] || arrivals[0] == [] then Heard([], None)
    else
      var now := Overwrite(buffer, arrivals[0]);
      if SeekRequested(now) then Heard([], Some(now))
      else if |arrivals[0]| < BUFFER_SIZE then Heard([arrivals[0]], None)
      else
        var later := Hear(now, arrivals[1..]);
        Heard([arrivals[0]] + later.taken, later.seek)
  }

  /** The loop takes a prefix of what arrives: full reads, then at most one short one; and it
      stops only at a short read, at an empty one, at a seek command, or when nothing more arrives. */
  lemma {:induction false} HearsAPrefix(buffer: seq<byte>, arrivals: seq<seq<byte>>)
    requires |buffer| == BUFFER_SIZE && forall i :: 0 <= i < |arrivals| ==> |arrivals[i]| <= BUFFER_SIZE
    ensures var h := Hear(buffer, arrivals);
            var n := |h.taken|;
            && n <= |arrivals| && h.taken == arrivals[..n]
            && (forall i :: 0 <= i < n - 1 ==> |arrivals[i]| == BUFFER_SIZE)
            && (n > 0 ==> arrivals[n - 1] != [])
            && (h.seek == None && n < |arrivals| && arrivals[n] != [] ==> n > 0 && |arrivals[n - 1]| < BUFFER_SIZE)
            && (h.seek.Some? ==> n < |arrivals| && arrivals[n] != [] && SeekRequested(h.seek.value)
                                 && arrivals[n] <= h.seek.value)
    decreases |arrivals|
  {
    if arrivals == [] || arrivals[0] == [] {
    } else {
      var now := Overwrite(buffer, arrivals[0]);
      if !SeekRequested(now) && |arrivals[0]| == BUFFER_SIZE {
        HearsAPrefix(now, arrivals[1..]);
        var n := |Hear(buffer, arrivals).taken|;
        assert arrivals[..n] == [arrivals[0]] + arrivals[1..][..n - 1];
      }
    }
  }

  // ---- which connections are taken for seek commands ----

  lemma {:induction false} CStringOfText(text: seq<byte>, stale: seq<byte>)
    requires NULL_TERMINATOR !in text && (stale == [] || stale[0] == NULL_TERMINATOR)
    ensures CString(text + stale) == text
  {
    if text == [] {
      assert text + stale == stale;
    } else {
      assert (text + stale)[1..] == text[1..] + stale;
      CStringOfText(text[1..], stale);
    }
  }

  /** Once a full read without NULs has replaced the zeros, no later text is a command. */
  lemma {:induction false} NoCommandInFullBuffer(buffer: seq<byte>, arrivals: seq<seq<byte>>)
    requires |buffer| == BUFFER_SIZE && NULL_TERMINATOR !in buffer
    requires forall i :: 0 <= i < |arrivals| ==> |arrivals[i]| <= BUFFER_SIZE && NULL_TERMINATOR !in arrivals[i]
    ensures Hear(buffer, arrivals).seek == None
    decreases |arrivals|
  {
    if arrivals == [] || arrivals[0] == [] {
    } else {
      var now := Overwrite(buffer, arrivals[0]);
      assert NULL_TERMINATOR !in now;
      if |arrivals[0]| == BUFFER_SIZE {
        NoCommandInFullBuffer(now, arrivals[1..]);
      }
    }
  }

  /** A connection that sends text is taken for a seek command if and only if its first read
      is a short one with the key in it. The same command behind a full read is stored. */
  lemma OnlyAShortFirstReadIsACommand(arrivals: seq<seq<byte>>)
    requires forall i :: 0 <= i < |arrivals| ==> |arrivals[i]| <= BUFFER_SIZE && NULL_TERMINATOR !in arrivals[i]
    ensures Hear(Zeros(), arrivals).seek.Some? <==>
            arrivals != [] && 0 < |arrivals[0]| < 1024 && Contains(arrivals[0], SEEK_KEY)
  {
    if arrivals != [] && arrivals[0] != [] {
      var now := Overwrite(Zeros(), arrivals[0]);
      CStringOfText(arrivals[0], Zeros()[|arrivals[0]|..]);
      if |arrivals[0]| == BUFFER_SIZE {
        assert now == arrivals[0];
        NoCommandInFullBuffer(now, arrivals[1..]);
      } else {
        assert now[|arrivals[0]|] == NULL_TERMINATOR;
      }
    }
  }

  /** The first read is short text with the key anywhere in it. */
  ghost predicate SendsCommand(arrivals: seq<seq<byte>>) {
    && arrivals != [] && |arrivals[0]| < 1024 && '\0' as byte !in arrivals[0]
    && exists a, b :: arrivals[0] == a + Ascii("AESDCHAR_IOCSEEKTO:") + b
  }

  /** Such a read ends the loop there and then. */
  lemma CommandIsRecognised(arrivals: seq<seq<byte>>)
    requires forall i :: 0 <= i < |arrivals| ==> |arrivals[i]| <= BUFFER_SIZE
    requires SendsCommand(arrivals)
    ensures Hear(Zeros(), arrivals) == Heard([], Some(Overwrite(Zeros(), arrivals[0])))
  {
    var now := Overwrite(Zeros(), arrivals[0]);
    ContainsIsSubstring(arrivals[0], SEEK_KEY);
    CStringOfText(arrivals[0], Zeros()[|arrivals[0]|..]);
    assert now[|arrivals[0]|] == NULL_TERMINATOR;
  }

  // ---- the loop ----

  /** realloc to a larger size: NULL, or the old bytes in front of arbitrary ones. */
  method Realloc(was: array<byte>, size: nat) returns (b: array?<byte>)
    requires size >= was.Length
    ensures b != null ==> fresh(b) && b.Length == size && b[..was.Length] == was[..]
  {
    var refused: bool := *;
    if refused {
      return null;
    }
    b := new byte[size];
    forall i | 0 <= i < was.Length {
      b[i] := was[i];
    }
  }

  /** One iteration's copy: after at most one doubling the bytes fit with room to spare. NULL
      when that doubling is refused; the source then copies to address NULL + current_count. */
  method Append(toWrite: array<byte>, currentCount: nat, buffer: seq<byte>) returns (grown: array?<byte>, newCount: nat)
    requires currentCount < toWrite.Length && BUFFER_SIZE <= toWrite.Length && |buffer| <= BUFFER_SIZE
    modifies toWrite
    ensures newCount == currentCount + |buffer|
    ensures grown == null ==> toWrite.Length <= newCount
    ensures grown != null ==> newCount < grown.Length && grown[..newCount] == old(toWrite[..currentCount]) + buffer
    ensures grown == null || grown == toWrite || (fresh(grown) && grown.Length == 2 * toWrite.Length <= 2 * newCount)
  {
    var size := toWrite.Length;
    grown, newCount := toWrite, currentCount + |buffer|;
    if size <= newCount {
      size := size * 2;
      grown := Realloc(toWrite, size);
      if grown == null {
        return;
      }
      assert grown[..currentCount] == toWrite[..][..currentCount];
    }
    forall i | 0 <= i < |buffer| {
      grown[currentCount + i] := buffer[i];
    }
    assert grown[..newCount] == grown[..currentCount] + grown[currentCount..newCount];
  }

  datatype Outcome = Message | SeekCommand(buffer: seq<byte>) | NoMemory

  /** For any lengths of the reads: every copy is in bounds with room for one byte more, the
      buffer holds exactly what was read, and it is never more than twice what it needs to be.
      Only a message that fills the first allocation can meet a refused realloc. Short
      text with the key in it, read first, is always a seek command. */
  method Receive(arrivals: seq<seq<byte>>) returns (outcome: Outcome, toWrite: array?<byte>, currentCount: nat)
    requires forall i :: 0 <= i < |arrivals| ==> |arrivals[i]| <= BUFFER_SIZE
    ensures outcome.NoMemory? ==> BUFFER_SIZE <= |Flatten(Hear(Zeros(), arrivals).taken)|
    ensures SendsCommand(arrivals) ==> outcome.SeekCommand?
    ensures outcome.SeekCommand? ==> Hear(Zeros(), arrivals).seek == Some(outcome.buffer)
    ensures outcome.Message? ==>
              && Hear(Zeros(), arrivals).seek == None
              && toWrite != null && currentCount < toWrite.Length
              && toWrite[..currentCount] == Flatten(Hear(Zeros(), arrivals).taken)
              && (toWrite.Length == BUFFER_SIZE || toWrite.Length <= 2 * currentCount)
  {
    var buffer := Zeros();
    var room := new byte[BUFFER_SIZE];
    toWrite, currentCount := room, 0;
    var k := 0;
    ghost var all := Hear(Zeros(), arrivals);
    if SendsCommand(arrivals) {
      CommandIsRecognised(arrivals);
    }
    while k < |arrivals| && |arrivals[k]| > 0
      invariant 0 <= k <= |arrivals| && |buffer| == BUFFER_SIZE
      invariant fresh(room) && toWrite == room
      invariant currentCount < room.Length && BUFFER_SIZE <= room.Length
      invariant room[..currentCount] == Flatten(arrivals[..k])
      invariant room.Length == BUFFER_SIZE || room.Length <= 2 * currentCount
      invariant all == Joined(arrivals[..k], Hear(buffer, arrivals[k..]))
    {
      HearStep(arrivals[..k], buffer, arrivals, k);
      buffer := Overwrite(buffer, arrivals[k]);
      if SeekRequested(buffer) {
        return SeekCommand(buffer), toWrite, currentCount;
      }
      var grown;
      grown, currentCount := Append(room, currentCount, arrivals[k]);
      if grown == null {
        TakenSoFar(arrivals[..k + 1], all);
        return NoMemory, null, currentCount;
      }
      room, toWrite := grown, grown;
      if |arrivals[k]| < BUFFER_SIZE {
        return Message, toWrite, currentCount;
      }
      k := k + 1;
    }
    assert arrivals[..k] + [] == arrivals[..k];
    assert k < |arrivals| ==> arrivals[k..][0] == arrivals[k];
    return Message, toWrite, currentCount;
  }

  function Joined(done: seq<seq<byte>>, later: Heard): Heard {
    Heard(done + later.taken, later.seek)
  }

  lemma TakenSoFar(done: seq<seq<byte>>, all: Heard)
    requires done <= all.taken
    ensures |Flatten(done)| <= |Flatten(all.taken)|
  {
    assert all.taken == done + all.taken[|done|..];
    FlattenAppend(done, all.taken[|done|..]);
  }

  /** What one more read adds to what the loop hears. */
  lemma HearStep(done: seq<seq<byte>>, buffer: seq<byte>, arrivals: seq<seq<byte>>, k: nat)
    requires |buffer| == BUFFER_SIZE && forall i :: 0 <= i < |arrivals| ==> |arrivals[i]| <= BUFFER_SIZE
    requires k < |arrivals| && arrivals[k] != [] && done == arrivals[..k]
    ensures var now, next := Overwrite(buffer, arrivals[k]), arrivals[..k + 1];
            Joined(done, Hear(buffer, arrivals[k..])) ==
            if SeekRequested(now) then Heard(done, Some(now))
            else if |arrivals[k]| < BUFFER_SIZE then Heard(next, None)
            else Joined(next, Hear(now, arrivals[k + 1..]))
    ensures Flatten(arrivals[..k + 1]) == Flatten(done) + arrivals[k]
  {
    assert arrivals[k..][0] == arrivals[k] && arrivals[k..][1..] == arrivals[k + 1..];
    assert arrivals[..k + 1] == done + [arrivals[k]];
    FlattenAppend(done, [arrivals[k]]);
    assert Flatten([arrivals[k]]) == arrivals[k] + Flatten<byte>([]) == arrivals[k];
  }
}
