/** Whole runs of the device: from module load, through any calls with any failures, to unload. */
module Lifecycle {
  import opened Bytes
  import opened LineLog
  import opened Positions
  import opened DeviceSpec
  import opened Kernel
  import opened CircularBuffers
  import opened AesdDevice

  /** The blocks of a device between calls hold, slot by slot in logical order, exactly the
      last ten lines of all bytes it ever took in; the pending block holds what follows the
      last newline, and there is no pending block when nothing does. */
  lemma BlocksHoldTheLastTenLines(dev: AesdDev, lines: seq<seq<byte>>, rest: seq<byte>)
    requires dev.Valid() && IsSplit(dev.accepted, lines, rest)
    ensures var es, kept := dev.cBuffer.Entries(), LastN(lines, CAPACITY);
            && |es| == |kept|
            && (forall i :: 0 <= i < |es| ==> es[i].buffptr != null && es[i].buffptr[..] == kept[i])
            && (if rest == [] then dev.partial == NO_ENTRY
                else dev.partial.buffptr != null && dev.partial.buffptr[..] == rest)
            && |dev.heap.live| == |kept| + if rest == [] then 0 else 1
  {
    ContentsAreTheLastTenLines(dev.accepted, lines, rest);
    dev.OwnsParts({});
    if rest != [] {
      assert [dev.partial][0] == dev.partial && [rest][0] == rest;
    }
    CountBlocks(dev.Held());
  }

  /** Distinct blocks are as many as the entries that own them. */
  lemma {:induction false} CountBlocks(es: seq<Entry>)
    requires Distinct(es) && forall i :: 0 <= i < |es| ==> es[i].buffptr != null
    ensures |BlocksOf(es)| == |es|
  {
    if es == [] {
      assert BlocksOf(es) == {};
    } else {
      BlocksOfTail(es);
      CountBlocks(es[1..]);
      assert es[0].buffptr in BlocksOf(es);
    }
  }

  /** A call a process makes on one of its open files. */
  datatype Request =
    | ToWrite(filp: File, buf: seq<byte>)
    | ToRead(filp: File, count: nat)
    | ToSeek(filp: File, cmd: nat, off: nat)
    | ToSize(filp: File)

  /** The call as the device sees it, given the position the file has when it arrives. */
  function CallOf(r: Request, pos: nat): Call {
    match r
    case ToWrite(_, buf) => Write(buf)
    case ToRead(_, count) => Read(pos, count)
    case ToSeek(_, cmd, off) => Seek(cmd, off)
    case ToSize(_) => Size
  }

  /** Where a call leaves its file position. */
  function PosAfter(pos: nat, e: Event): nat {
    match e.call
    case Read(_, _) => pos + |e.bytes|
    case Seek(_, _) => if e.res.Ok? then e.res.n else pos
    case _ => pos
  }

  /** What a request is due, in its own terms: `d` is the log it found, `pos` and `pos'` the
      positions of its file before and after, `e` what happened. */
  ghost predicate Served(r: Request, d: Log, pos: nat, e: Event, pos': nat) {
    var flat, sizes := Flatten(d.lines), Sizes(d.lines);
    match r
    case ToWrite(_, buf) =>
      && pos' == pos && TakenBy(e) <= buf && e.bytes == []
      && (e.res.Ok? ==> e.res.n == |buf| && TakenBy(e) == buf)
    case ToRead(_, count) =>
      && TakenBy(e) == [] && |e.bytes| <= count && pos' == pos + |e.bytes|
      && (e.bytes != [] ==> pos' <= |flat| && e.bytes == flat[pos..pos'])
      && (e.res.Ok? ==> e.res.n == |e.bytes| && e.bytes == ReadBytes(d.lines, pos, count))
    case ToSeek(_, cmd, off) =>
      && TakenBy(e) == [] && e.bytes == []
      && if e.res == Err(ERESTARTSYS) then pos' == pos
         else if Inside(sizes, cmd, off) then e.res == Ok(pos') && pos' == Position(sizes, cmd, off)
         else e.res == Err(EINVAL) && pos' == pos
    case ToSize(_) =>
      && TakenBy(e) == [] && e.bytes == [] && pos' == pos
      && (e.res == Ok(|flat|) || e.res == Err(ERESTARTSYS))
  }

  lemma AnswerServes(r: Request, d: Log, pos: nat, e: Event)
    requires e.call == CallOf(r, pos) && Answers(d, e)
    ensures Served(r, d, pos, e, PosAfter(pos, e))
  {
    if r.ToRead? && e.bytes != [] {
      ReadIsEmptyOnlyAtTheEnd(d.lines, pos, r.count);
      FlattenLength(d.lines);
      ReadIsSlice(d.lines, pos, r.count);
    }
  }

  method Dispatch(dev: AesdDev, r: Request) returns (ghost e: Event)
    requires dev.Valid()
    modifies dev, dev.cBuffer, dev.cBuffer.entry, dev.heap, dev.lock, r.filp
    ensures dev.Valid()
    ensures e.call == CallOf(r, old(r.filp.fPos)) && Answers(old(dev.log), e)
    ensures dev.log == Feed(old(dev.log), TakenBy(e))
    ensures dev.accepted == old(dev.accepted) + TakenBy(e)
    ensures r.filp.fPos == PosAfter(old(r.filp.fPos), e)
    ensures dev.heap.refused == old(dev.heap.refused) + if e.res == Err(ENOMEM) then 1 else 0
    ensures dev.heap.faults == old(dev.heap.faults) + if e.res == Err(EFAULT) then 1 else 0
    ensures dev.lock.interrupted == old(dev.lock.interrupted) + if e.res == Err(ERESTARTSYS) then 1 else 0
  {
    ghost var pos := r.filp.fPos;
    assert dev.accepted + [] == dev.accepted;
    match r
    case ToWrite(_, buf) =>
      var res, took := dev.Write(buf);
      e := Event(Write(buf), res, [], took);
    case ToRead(filp, count) =>
      var res, bytes := dev.Read(filp, count);
      e := Event(Read(pos, count), res, bytes, 0);
    case ToSeek(filp, cmd, off) =>
      var res := dev.AdjustFileOffset(filp, cmd, off);
      e := Event(Seek(cmd, off), res, [], 0);
    case ToSize(_) =>
      var res := dev.SizeForLseek();
      e := Event(Size, res, [], 0);
  }

  /** One call on the real device is one lawful event, serves its request, and leaves the
      device in its replay; an error is one failure that happened. */
  method Perform(dev: AesdDev, r: Request) returns (ghost e: Event)
    requires dev.Valid()
    modifies dev, dev.cBuffer, dev.cBuffer.entry, dev.heap, dev.lock, r.filp
    ensures dev.Valid()
    ensures e.call == CallOf(r, old(r.filp.fPos)) && Answers(old(dev.log), e)
    ensures Served(r, old(dev.log), old(r.filp.fPos), e, r.filp.fPos)
    ensures dev.log == Feed(old(dev.log), TakenBy(e))
    ensures dev.accepted == old(dev.accepted) + TakenBy(e)
    ensures r.filp.fPos == PosAfter(old(r.filp.fPos), e)
    ensures dev.heap.refused == old(dev.heap.refused) + if e.res == Err(ENOMEM) then 1 else 0
    ensures dev.heap.faults == old(dev.heap.faults) + if e.res == Err(EFAULT) then 1 else 0
    ensures dev.lock.interrupted == old(dev.lock.interrupted) + if e.res == Err(ERESTARTSYS) then 1 else 0
  {
    AnyAnswerServes(r, dev.log, r.filp.fPos);
    e := Dispatch(dev, r);
  }

  lemma AnyAnswerServes(r: Request, d: Log, pos: nat)
    ensures forall e: Event :: e.call == CallOf(r, pos) && Answers(d, e) ==> Served(r, d, pos, e, PosAfter(pos, e))
  {
    forall e: Event | e.call == CallOf(r, pos) && Answers(d, e)
      ensures Served(r, d, pos, e, PosAfter(pos, e))
    {
      AnswerServes(r, d, pos, e);
    }
  }

  // ---- runs ----

  /** The position of file `f` after a history, when it began at `pos`: the calls on `f`
      move it, the calls on other files do not. */
  ghost function PosOf(f: File, pos: nat, rs: seq<Request>, es: seq<Event>): nat
    requires |rs| == |es|
  {
    if rs == [] then pos
    else
      var n := |rs| - 1;
      var before := PosOf(f, pos, rs[..n], es[..n]);
      if rs[n].filp == f then PosAfter(before, es[n]) else before
  }

  /** One event for each request, in order, each made at the position its file then had. */
  ghost predicate Follows(start: map<File, nat>, rs: seq<Request>, es: seq<Event>) {
    && |rs| == |es|
    && forall i :: 0 <= i < |rs| ==>
                     && rs[i].filp in start
                     && es[i].call == CallOf(rs[i], PosOf(rs[i].filp, start[rs[i].filp], rs[..i], es[..i]))
  }

  lemma FollowsSnoc(start: map<File, nat>, rs: seq<Request>, es: seq<Event>, e: Event)
    requires rs != [] && Follows(start, rs[..|rs| - 1], es) && rs[|rs| - 1].filp in start
    requires var r := rs[|rs| - 1];
             e.call == CallOf(r, PosOf(r.filp, start[r.filp], rs[..|rs| - 1], es))
    ensures Follows(start, rs, es + [e])
  {
    var n := |rs| - 1;
    forall i | 0 <= i < |rs|
      ensures && rs[i].filp in start
              && (es + [e])[i].call == CallOf(rs[i], PosOf(rs[i].filp, start[rs[i].filp], rs[..i], (es + [e])[..i]))
    {
      assert (es + [e])[..i] == es[..i];
      if i < n {
        assert rs[..n][i] == rs[i] && rs[..n][..i] == rs[..i];
      } else {
        assert es[..i] == es;
      }
    }
  }

  lemma PosOfSnoc(f: File, pos: nat, rs: seq<Request>, es: seq<Event>, e: Event)
    requires rs != [] && |es| == |rs| - 1
    ensures var before := PosOf(f, pos, rs[..|rs| - 1], es);
            PosOf(f, pos, rs, es + [e]) == if rs[|rs| - 1].filp == f then PosAfter(before, e) else before
  {
    assert (es + [e])[..|rs| - 1] == es;
  }

  /** Every request of the run was served in its own terms, by the log and at the position it found. */
  ghost predicate AllServed(start: map<File, nat>, d: Log, rs: seq<Request>, es: seq<Event>) {
    && |rs| == |es|
    && forall i :: 0 <= i < |rs| ==>
                     var f := rs[i].filp;
                     && f in start
                     && Served(rs[i], Replay(d, es[..i]), PosOf(f, start[f], rs[..i], es[..i]), es[i],
                               PosOf(f, start[f], rs[..i + 1], es[..i + 1]))
  }

  lemma LawfulRunServes(start: map<File, nat>, d: Log, rs: seq<Request>, es: seq<Event>)
    requires Follows(start, rs, es) && Lawful(d, es)
    ensures AllServed(start, d, rs, es)
  {
    forall i | 0 <= i < |rs|
      ensures var f := rs[i].filp;
              Served(rs[i], Replay(d, es[..i]), PosOf(f, start[f], rs[..i], es[..i]), es[i],
                     PosOf(f, start[f], rs[..i + 1], es[..i + 1]))
    {
      var f := rs[i].filp;
      LawfulAt(d, es, i);
      assert rs[..i + 1][..i] == rs[..i] && es[..i + 1][..i] == es[..i];
      AnswerServes(rs[i], Replay(d, es[..i]), PosOf(f, start[f], rs[..i], es[..i]), es[i]);
    }
  }

  /** Every file stands where the calls on it moved it. */
  ghost predicate FilesMoved(files: set<File>, start: map<File, nat>, rs: seq<Request>, es: seq<Event>)
    requires |rs| == |es|
    reads files
  {
    forall f :: f in files ==> f in start && f.fPos == PosOf(f, start[f], rs, es)
  }

  /** One more call at the end of a run. */
  method ServeLast(dev: AesdDev, rs: seq<Request>, ghost files: set<File>, ghost start: map<File, nat>, ghost before: seq<Event>)
    returns (ghost e: Event)
    requires dev.Valid() && rs != [] && rs[|rs| - 1].filp in files
    requires Follows(start, rs[..|rs| - 1], before) && FilesMoved(files, start, rs[..|rs| - 1], before)
    modifies dev, dev.cBuffer, dev.cBuffer.entry, dev.heap, dev.lock, files
    ensures dev.Valid()
    ensures Answers(old(dev.log), e) && dev.log == Feed(old(dev.log), TakenBy(e))
    ensures dev.heap.refused == old(dev.heap.refused) + if e.res == Err(ENOMEM) then 1 else 0
    ensures dev.heap.faults == old(dev.heap.faults) + if e.res == Err(EFAULT) then 1 else 0
    ensures dev.lock.interrupted == old(dev.lock.interrupted) + if e.res == Err(ERESTARTSYS) then 1 else 0
    ensures Follows(start, rs, before + [e]) && FilesMoved(files, start, rs, before + [e])
  {
    var r := rs[|rs| - 1];
    e := Perform(dev, r);
    FollowsSnoc(start, rs, before, e);
    forall f | f in files
      ensures f.fPos == PosOf(f, start[f], rs, before + [e])
    {
      PosOfSnoc(f, start[f], rs, before, e);
      assert f != r.filp ==> f.fPos == old(f.fPos);
    }
  }

  ghost function Where(files: set<File>): map<File, nat>
    reads files
  {
    map f | f in files :: f.fPos
  }

  /** Any sequence of calls on any files is a lawful history, one event per call, each at the
      position its file has then and each what its request is due; it leaves the device in its
      replay and every file where the calls on it moved it. Errors and failures that happened
      are equally many, of each kind. */
  method Serve(dev: AesdDev, rs: seq<Request>, ghost files: set<File>) returns (ghost es: seq<Event>)
    requires dev.Valid() && forall i :: 0 <= i < |rs| ==> rs[i].filp in files
    modifies dev, dev.cBuffer, dev.cBuffer.entry, dev.heap, dev.lock, files
    ensures dev.Valid()
    ensures Lawful(old(dev.log), es) && dev.log == Replay(old(dev.log), es)
    ensures Follows(old(Where(files)), rs, es) && FilesMoved(files, old(Where(files)), rs, es)
    ensures AllServed(old(Where(files)), old(dev.log), rs, es)
    ensures dev.heap.refused == old(dev.heap.refused) + Failures(es, ENOMEM)
    ensures dev.heap.faults == old(dev.heap.faults) + Failures(es, EFAULT)
    ensures dev.lock.interrupted == old(dev.lock.interrupted) + Failures(es, ERESTARTSYS)
  {
    if |rs| == 0 {
      return [];
    }
    ghost var start := Where(files);
    var before := Serve(dev, rs[..|rs| - 1], files);
    var e := ServeLast(dev, rs, files, start, before);
    LawfulSnoc(old(dev.log), before, e);
    es := before + [e];
    LawfulRunServes(start, old(dev.log), rs, es);
  }

  /** Load, serve any calls, unload: the history is lawful, every request got what it is due,
      the files moved as the calls on them say, errors and failures are equally many, and no
      block outlives the module. */
  method LoadServeUnload(rs: seq<Request>, ghost files: set<File>) returns (dev: AesdDev, ghost es: seq<Event>)
    requires forall i :: 0 <= i < |rs| ==> rs[i].filp in files
    modifies files
    ensures Lawful(EMPTY_LOG, es)
    ensures Follows(old(Where(files)), rs, es) && FilesMoved(files, old(Where(files)), rs, es)
    ensures AllServed(old(Where(files)), EMPTY_LOG, rs, es)
    ensures dev.heap.refused == Failures(es, ENOMEM) && dev.heap.faults == Failures(es, EFAULT)
    ensures dev.lock.interrupted == Failures(es, ERESTARTSYS)
    ensures dev.heap.live == {} && !dev.lock.held
  {
    dev := new AesdDev();
    es := Serve(dev, rs, files);
    dev.Cleanup();
  }
}
