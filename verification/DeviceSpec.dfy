/** What each system call on the device may answer, as a relation on the abstract log,
    and what follows for whole histories of calls. The class in AesdDevice.dfy and the
    interleaved machine in LockSections.dfy are both proved against it. */
module DeviceSpec {
  import opened Bytes
  import opened LineLog
  import opened Positions

  datatype Errno = ERESTARTSYS | ENOMEM | EFAULT | EINVAL

  datatype Result = Ok(n: nat) | Err(errno: Errno)

  datatype Call =
    | Write(buf: seq<byte>)
    | Read(pos: nat, count: nat)
    | Seek(cmd: nat, off: nat)
    | Size

  /** A finished call: its result, the bytes it delivered to the user, and how many
      bytes of a write's buffer the device took in. */
  datatype Event = Event(call: Call, res: Result, bytes: seq<byte>, took: nat)

  /** A write takes its whole buffer, or fails having taken a prefix that ends where a
      line starts; only a failed allocation can leave a non-empty prefix behind. */
  ghost predicate WriteAnswers(buf: seq<byte>, res: Result, took: nat) {
    match res
    case Ok(n) => n == took == |buf|
    case Err(ENOMEM) => took < |buf| && AtLineStart(buf, took)
    case Err(EINVAL) => false
    case Err(_) => took == 0 < |buf|
  }

  ghost predicate ReadAnswers(lines: seq<seq<byte>>, pos: nat, count: nat, res: Result, bytes: seq<byte>) {
    match res
    case Ok(n) => bytes == ReadBytes(lines, pos, count) && n == |bytes|
    case Err(ERESTARTSYS) => bytes == []
    case Err(EFAULT) => bytes == [] && pos < Total(Sizes(lines))
    case Err(_) => false
  }

  /** A seek succeeds exactly on a stored byte. */
  ghost predicate SeekAnswers(lines: seq<seq<byte>>, cmd: nat, off: nat, res: Result) {
    match res
    case Ok(n) => Inside(Sizes(lines), cmd, off) && n == Position(Sizes(lines), cmd, off)
    case Err(EINVAL) => !Inside(Sizes(lines), cmd, off)
    case Err(errno) => errno == ERESTARTSYS
  }

  /** The size an lseek is bounded by is the length of the flat contents. */
  ghost predicate SizeAnswers(lines: seq<seq<byte>>, res: Result) {
    res == Ok(|Flatten(lines)|) || res == Err(ERESTARTSYS)
  }

  ghost predicate Answers(d: Log, e: Event) {
    match e.call
    case Write(buf) => e.bytes == [] && WriteAnswers(buf, e.res, e.took)
    case Read(pos, count) => e.took == 0 && ReadAnswers(d.lines, pos, count, e.res, e.bytes)
    case Seek(cmd, off) => e.took == 0 && e.bytes == [] && SeekAnswers(d.lines, cmd, off, e.res)
    case Size => e.took == 0 && e.bytes == [] && SizeAnswers(d.lines, e.res)
  }

  function TakenBy(e: Event): seq<byte> {
    if e.call.Write? && e.took <= |e.call.buf| then e.call.buf[..e.took] else []
  }

  // ---- histories ----

  /** The log after a history of whole calls, one after the other. */
  function Replay(d: Log, es: seq<Event>): Log {
    if es == [] then d else Feed(Replay(d, es[..|es| - 1]), TakenBy(es[|es| - 1]))
  }

  /** Every call of the history answered as the device it found allows. */
  ghost predicate Lawful(d: Log, es: seq<Event>) {
    es == [] ||
    (Lawful(d, es[..|es| - 1]) && Answers(Replay(d, es[..|es| - 1]), es[|es| - 1]))
  }

  function Accepted(es: seq<Event>): seq<byte> {
    if es == [] then [] else Accepted(es[..|es| - 1]) + TakenBy(es[|es| - 1])
  }

  /** How many calls of a history answered with an error. */
  function Failures(es: seq<Event>, errno: Errno): nat {
    if es == [] then 0
    else Failures(es[..|es| - 1], errno) + if es[|es| - 1].res == Err(errno) then 1 else 0
  }

  lemma LawfulSnoc(d: Log, es: seq<Event>, e: Event)
    requires Lawful(d, es) && Answers(Replay(d, es), e)
    ensures Lawful(d, es + [e])
    ensures Replay(d, es + [e]) == Feed(Replay(d, es), TakenBy(e))
    ensures Accepted(es + [e]) == Accepted(es) + TakenBy(e)
    ensures forall errno :: Failures(es + [e], errno) == Failures(es, errno) + if e.res == Err(errno) then 1 else 0
  {
    assert (es + [e])[..|es + [e]| - 1] == es;
  }

  /** In a lawful history every single call answered as the device it found allows. */
  lemma {:induction false} LawfulAt(d: Log, es: seq<Event>, i: nat)
    requires Lawful(d, es) && i < |es|
    ensures Answers(Replay(d, es[..i]), es[i])
  {
    if i < |es| - 1 {
      LawfulAt(d, es[..|es| - 1], i);
      assert es[..|es| - 1][..i] == es[..i];
    }
  }

  lemma {:induction false} ReplayIsFeed(d: Log, es: seq<Event>)
    ensures Replay(d, es) == Feed(d, Accepted(es))
  {
    if es == [] {
    } else {
      var n := |es| - 1;
      ReplayIsFeed(d, es[..n]);
      FeedAppend(d, Accepted(es[..n]), TakenBy(es[n]));
    }
  }

  /** After any history, failures included, the device holds the last ten lines of the
      bytes it took and the bytes after their last newline. */
  lemma {:induction false} HistoryKeepsLastTenLines(es: seq<Event>, lines: seq<seq<byte>>, rest: seq<byte>)
    requires IsSplit(Accepted(es), lines, rest)
    ensures Replay(EMPTY_LOG, es) == Log(LastN(lines, CAPACITY), rest)
  {
    ReplayIsFeed(EMPTY_LOG, es);
    ContentsAreTheLastTenLines(Accepted(es), lines, rest);
  }

  function Written(es: seq<Event>): seq<seq<byte>> {
    if es == [] then []
    else Written(es[..|es| - 1]) + if es[|es| - 1].call.Write? then [es[|es| - 1].call.buf] else []
  }

  /** When no write fails, the bytes taken are the written buffers end to end. */
  lemma {:induction false} NoFailureTakesAll(d: Log, es: seq<Event>)
    requires Lawful(d, es)
    requires forall i :: 0 <= i < |es| && es[i].call.Write? ==> es[i].res.Ok?
    ensures Accepted(es) == Flatten(Written(es))
  {
    if es == [] {
    } else {
      var n := |es| - 1;
      NoFailureTakesAll(d, es[..n]);
      if es[n].call.Write? {
        var buf := es[n].call.buf;
        FlattenAppend(Written(es[..n]), [buf]);
        assert Flatten([buf]) == buf + Flatten<byte>([]) == buf;
        assert TakenBy(es[n]) == buf;
      } else {
        assert Written(es) == Written(es[..n]);
      }
    }
  }

  /** Two failure-free histories that wrote the same bytes, cut any way and mixed with any
      reads and seeks, leave the same device. */
  lemma {:induction false} OnlyTheBytesMatter(d: Log, es: seq<Event>, fs: seq<Event>)
    requires Lawful(d, es) && Lawful(d, fs)
    requires forall i :: 0 <= i < |es| && es[i].call.Write? ==> es[i].res.Ok?
    requires forall i :: 0 <= i < |fs| && fs[i].call.Write? ==> fs[i].res.Ok?
    requires Flatten(Written(es)) == Flatten(Written(fs))
    ensures Replay(d, es) == Replay(d, fs)
  {
    NoFailureTakesAll(d, es);
    NoFailureTakesAll(d, fs);
    ReplayIsFeed(d, es);
    ReplayIsFeed(d, fs);
  }

  // ---- failures ----

  /** A failed write leaves the old state, or a state with nothing pending; and writing
      what it did not take then gives the state a successful write would have given. */
  lemma FailedWriteCanBeResumed(d: Log, e: Event)
    requires Answers(d, e) && e.call.Write? && e.res.Err?
    ensures e.took < |e.call.buf|
    ensures e.took == 0 ==> Replay(d, [e]) == d
    ensures e.took > 0 ==> Replay(d, [e]).partial == []
    ensures Feed(Replay(d, [e]), e.call.buf[e.took..]) == Feed(d, e.call.buf)
  {
    var buf := e.call.buf;
    assert [e][..0] == [];
    assert Replay(d, [e]) == Feed(d, buf[..e.took]);
    assert buf == buf[..e.took] + buf[e.took..];
    FeedAppend(d, buf[..e.took], buf[e.took..]);
  }

  // ---- seek, find, read ----

  /** Any two seeks that were not interrupted succeed or fail by their arguments alone: a seek
      succeeds if and only if it names a stored byte, and seeks with equal results are equal. */
  lemma SeeksAreDecidedByTheLines(d: Log, e: Event, f: Event)
    requires Answers(d, e) && e.call.Seek? && e.res != Err(ERESTARTSYS)
    requires Answers(d, f) && f.call.Seek? && f.res != Err(ERESTARTSYS)
    ensures e.res.Ok? <==> Inside(Sizes(d.lines), e.call.cmd, e.call.off)
    ensures e.call == f.call ==> e.res == f.res
    ensures e.res.Ok? && e.res == f.res ==> e.call == f.call
  {
    if e.res.Ok? && e.res == f.res {
      LocateInvertsPosition(Sizes(d.lines), e.call.cmd, e.call.off);
      LocateInvertsPosition(Sizes(d.lines), f.call.cmd, f.call.off);
    }
  }

  /** A successful seek followed by a read returns line `cmd` from byte `off` on. */
  lemma SeekThenRead(d: Log, seek: Event, read: Event)
    requires Answers(d, seek) && seek.call.Seek? && seek.res.Ok?
    requires Answers(d, read) && read.call.Read? && read.res.Ok? && read.call.pos == seek.res.n
    ensures var line := d.lines[seek.call.cmd];
            var off := seek.call.off;
            read.bytes == if off + read.call.count >= |line| then line[off..] else line[off..off + read.call.count]
  {
    LocateInvertsPosition(Sizes(d.lines), seek.call.cmd, seek.call.off);
  }

  /** When a line pushes the oldest of ten out, every surviving byte is found one command
      lower, at the same offset, and lower by exactly the size that fell out. */
  lemma EvictionShiftsPositions(lines: seq<seq<byte>>, line: seq<byte>, cmd: nat, off: nat)
    requires |lines| == CAPACITY && Inside(Sizes(lines), cmd, off) && 0 < cmd
    ensures var now := PushLine(lines, line);
            var pos := Position(Sizes(lines), cmd, off);
            && pos >= |lines[0]|
            && now[cmd - 1] == lines[cmd]
            && Locate(Sizes(now), pos - |lines[0]|) == Some((cmd - 1, off))
            && Position(Sizes(now), cmd - 1, off) == pos - |lines[0]|
  {
    assert PushLine(lines, line) == lines[1..] + [line];
    assert Sizes(PushLine(lines, line)) == Sizes(lines)[1..] + [|line|];
    EvictionShifts(Sizes(lines), |line|, cmd, off);
  }
}
