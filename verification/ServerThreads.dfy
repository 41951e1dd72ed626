/** Any number of connection threads of the server sharing one open file of the device, and
    so one file position (socket_core.c:101-199). A device call is one move here: the calls of a
    run form a lawful history (DeviceHistoryIsLawful), and lawful histories are what the
    interleaved driver of LockSections.dfy produces. What keeps whole seek-and-forward
    sections apart is file_mutex. */
module ServerThreads {
  import opened Bytes
  import opened LineLog
  import opened Positions
  import opened DeviceSpec
  import opened ServerDrain

  /** What a thread that served a seek command forwarded. `snap` is the device content when
      it took the mutex; `ended` says that its read loop ended with a read of nothing. */
  datatype Outcome = Outcome(cmd: nat, off: nat, snap: Log, ioctl: Result, sent: seq<byte>, ended: bool)

  /** Where a connection thread stands. */
  datatype Pc =
    | Idle
    | WantsSeek(cmd: nat, off: nat)
    | HasSeek(cmd: nat, off: nat, snap: Log)
    | Forwarding(cmd: nat, off: nat, snap: Log, start: nat, sent: seq<byte>)
    | SeekDone(seeked: Outcome)
    | Replied(reply: Outcome)
    | WantsWrite(buf: seq<byte>)
    | HasWrite(buf: seq<byte>)
    | WriteDone

  datatype State = State(dev: Log, fPos: nat, mutex: Option<nat>, pcs: seq<Pc>)

  predicate Holds(pc: Pc) {
    pc.HasSeek? || pc.Forwarding? || pc.SeekDone? || pc.HasWrite? || pc.WriteDone?
  }

  /** pthread_mutex_lock, or nothing at all when `locking` is off. */
  predicate Takes(locking: bool, s: State, s': State, t: nat, pc': Pc)
    requires t < |s.pcs|
  {
    && (locking ==> s.mutex == None)
    && s' == s.(mutex := if locking then Some(t) else None, pcs := s.pcs[t := pc'])
  }

  /** Thread `t` moves. `e` is the device call it makes, when it makes one; for a thread at
      rest `e.call` is the call its connection asks for. */
  ghost predicate Next(locking: bool, s: State, s': State, t: nat, e: Event) {
    && t < |s.pcs|
    && match s.pcs[t]
    case Idle => Receives(s, s', t, e.call)
    case Replied(_) => Receives(s, s', t, e.call)
    case WantsSeek(cmd, off) => Takes(locking, s, s', t, HasSeek(cmd, off, s.dev))
    case WantsWrite(buf) => Takes(locking, s, s', t, HasWrite(buf))
    case HasSeek(cmd, off, snap) =>
      && e.call == Seek(cmd, off) && Answers(s.dev, e)
      && s' == if e.res.Ok?
               then s.(fPos := e.res.n, pcs := s.pcs[t := Forwarding(cmd, off, snap, e.res.n, [])])
               else s.(pcs := s.pcs[t := SeekDone(Outcome(cmd, off, snap, e.res, [], false))])
    case Forwarding(cmd, off, snap, start, sent) =>
      && e.call == Read(s.fPos, BUFFER_SIZE) && Answers(s.dev, e)
      && s' == if e.res.Ok? && e.res.n > 0
               then s.(fPos := s.fPos + e.res.n, pcs := s.pcs[t := Forwarding(cmd, off, snap, start, sent + e.bytes)])
               else s.(pcs := s.pcs[t := SeekDone(Outcome(cmd, off, snap, Ok(start), sent, e.res.Ok?))])
    case HasWrite(buf) =>
      && e.call == Write(buf) && Answers(s.dev, e)
      && s' == s.(dev := Feed(s.dev, TakenBy(e)), pcs := s.pcs[t := WriteDone])
    case SeekDone(o) => s' == s.(mutex := None, pcs := s.pcs[t := Replied(o)])
    case WriteDone => s' == s.(mutex := None, pcs := s.pcs[t := Idle])
  }

  /** A connection brings a seek command or bytes to store. */
  predicate Receives(s: State, s': State, t: nat, call: Call)
    requires t < |s.pcs|
  {
    match call
    case Seek(cmd, off) => s' == s.(pcs := s.pcs[t := WantsSeek(cmd, off)])
    case Write(buf) => s' == s.(pcs := s.pcs[t := WantsWrite(buf)])
    case _ => false
  }

  ghost predicate Start(s: State) {
    s.mutex == None && forall t :: 0 <= t < |s.pcs| ==> s.pcs[t] == Idle
  }

  // ---- what file_mutex guarantees ----

  /** The forwarded bytes are the snapshot's contents from the sought position on: a stretch
      of them, and all of the rest when the loop ended on its own. */
  ghost predicate Meaningful(o: Outcome) {
    match o.ioctl
    case Ok(start) =>
      && Inside(Sizes(o.snap.lines), o.cmd, o.off) && start == Position(Sizes(o.snap.lines), o.cmd, o.off)
      && start + |o.sent| <= |Flatten(o.snap.lines)|
      && o.sent == Flatten(o.snap.lines)[start..start + |o.sent|]
      && (o.ended ==> start + |o.sent| == |Flatten(o.snap.lines)|)
    case Err(_) => o.sent == [] && SeekAnswers(o.snap.lines, o.cmd, o.off, o.ioctl)
  }

  /** What holds of the thread in the critical section: the device is still what it found,
      and the shared position is its own. */
  ghost predicate InOrder(s: State, pc: Pc) {
    match pc
    case HasSeek(_, _, snap) => s.dev == snap
    case Forwarding(cmd, off, snap, start, sent) =>
      s.dev == snap && s.fPos == start + |sent| && Meaningful(Outcome(cmd, off, snap, Ok(start), sent, false))
    case SeekDone(o) => Meaningful(o)
    case Replied(o) => Meaningful(o)
    case _ => true
  }

  /** The mutex is held by exactly the thread that is between its lock and its unlock. */
  ghost predicate Invariant(s: State) {
    && (s.mutex.Some? ==> s.mutex.value < |s.pcs| && Holds(s.pcs[s.mutex.value]))
    && (forall t :: 0 <= t < |s.pcs| && Holds(s.pcs[t]) ==> s.mutex == Some(t))
    && (forall t :: 0 <= t < |s.pcs| ==> InOrder(s, s.pcs[t]))
  }

  lemma SeekStaysMeaningful(s: State, s': State, t: nat, e: Event)
    requires Invariant(s) && Next(true, s, s', t, e) && s.pcs[t].HasSeek?
    ensures InOrder(s', s'.pcs[t])
  {
    if e.res.Ok? {
      SoughtIsInside(s.dev.lines, s.pcs[t].cmd, s.pcs[t].off, e.res);
    }
  }

  /** One more read extends a forwarded stretch, or there is nothing left to forward. */
  lemma NextPieceExtends(lines: seq<seq<byte>>, start: nat, pos: nat)
    requires start <= pos <= |Flatten(lines)|
    ensures var flat, bs := Flatten(lines), ReadBytes(lines, pos, BUFFER_SIZE);
            && pos + |bs| <= |flat| && flat[start..pos] + bs == flat[start..pos + |bs|]
            && (bs == [] ==> pos == |flat|)
  {
    ReadTakesNextPiece(lines, pos, BUFFER_SIZE);
  }

  lemma ForwardStaysMeaningful(s: State, s': State, t: nat, e: Event)
    requires Invariant(s) && Next(true, s, s', t, e) && s.pcs[t].Forwarding?
    ensures InOrder(s', s'.pcs[t])
  {
    assert InOrder(s, s.pcs[t]);
    NextPieceExtends(s.dev.lines, s.pcs[t].start, s.fPos);
  }

  lemma OtherStaysInOrder(s: State, s': State, u: nat)
    requires Invariant(s) && u < |s.pcs| && u < |s'.pcs| && s'.pcs[u] == s.pcs[u]
    requires Holds(s.pcs[u]) ==> s'.dev == s.dev && s'.fPos == s.fPos
    ensures InOrder(s', s'.pcs[u])
  {
    assert InOrder(s, s.pcs[u]);
  }

  lemma MoverStaysInOrder(s: State, s': State, t: nat, e: Event)
    requires Invariant(s) && Next(true, s, s', t, e)
    ensures InOrder(s', s'.pcs[t])
  {
    assert InOrder(s, s.pcs[t]);
    if s.pcs[t].HasSeek? {
      SeekStaysMeaningful(s, s', t, e);
    } else if s.pcs[t].Forwarding? {
      ForwardStaysMeaningful(s, s', t, e);
    }
  }

  /** A move that touches the device or the position is made by the owner of the mutex. */
  lemma NextIsExclusive(s: State, s': State, t: nat, e: Event)
    requires Invariant(s) && Next(true, s, s', t, e)
    ensures |s'.pcs| == |s.pcs| && s'.pcs == s.pcs[t := s'.pcs[t]]
    ensures (s'.dev == s.dev && s'.fPos == s.fPos) || (Holds(s.pcs[t]) && s.mutex == Some(t))
    ensures forall u :: 0 <= u < |s'.pcs| && Holds(s'.pcs[u]) ==> s'.mutex == Some(u)
    ensures s'.mutex.Some? ==> s'.mutex.value < |s'.pcs| && Holds(s'.pcs[s'.mutex.value])
  {
  }

  lemma NextKeepsInvariant(s: State, s': State, t: nat, e: Event)
    requires Invariant(s) && Next(true, s, s', t, e)
    ensures Invariant(s')
  {
    NextIsExclusive(s, s', t, e);
    MoverStaysInOrder(s, s', t, e);
    forall u | 0 <= u < |s'.pcs| && u != t
      ensures InOrder(s', s'.pcs[u])
    {
      OtherStaysInOrder(s, s', u);
    }
  }

  ghost predicate IsRun(locking: bool, run: seq<State>, movers: seq<nat>, events: seq<Event>) {
    && |run| == |movers| + 1 == |events| + 1 && Start(run[0])
    && forall i :: 0 <= i < |movers| ==> Next(locking, run[i], run[i + 1], movers[i], events[i])
  }

  lemma {:induction false} RunKeepsInvariant(run: seq<State>, movers: seq<nat>, events: seq<Event>, i: nat)
    requires IsRun(true, run, movers, events) && i < |run|
    ensures Invariant(run[i])
  {
    if i == 0 {
    } else {
      RunKeepsInvariant(run, movers, events, i - 1);
      assert Next(true, run[i - 1], run[i - 1 + 1], movers[i - 1], events[i - 1]);
      NextKeepsInvariant(run[i - 1], run[i], movers[i - 1], events[i - 1]);
    }
  }

  predicate CallsDevice(pc: Pc) {
    pc.HasSeek? || pc.Forwarding? || pc.HasWrite?
  }

  /** The device calls among the first `n` moves, in the order they were made. */
  function DeviceCalls(run: seq<State>, movers: seq<nat>, events: seq<Event>, n: nat): seq<Event>
    requires n <= |movers| == |events| <= |run|
    requires forall i :: 0 <= i < n ==> movers[i] < |run[i].pcs|
  {
    if n == 0 then []
    else
      DeviceCalls(run, movers, events, n - 1) +
      if CallsDevice(run[n - 1].pcs[movers[n - 1]]) then [events[n - 1]] else []
  }

  lemma MoveOfDevice(locking: bool, s: State, s': State, t: nat, e: Event)
    requires Next(locking, s, s', t, e)
    ensures t < |s.pcs|
    ensures if CallsDevice(s.pcs[t]) then Answers(s.dev, e) && s'.dev == Feed(s.dev, TakenBy(e)) else s'.dev == s.dev
  {
  }

  /** With or without the mutex, the device calls of a run are a lawful history of the device,
      and the device is what that history makes of it. */
  lemma {:induction false} DeviceHistoryIsLawful(
      locking: bool, run: seq<State>, movers: seq<nat>, events: seq<Event>, n: nat)
    requires IsRun(locking, run, movers, events) && n <= |movers|
    ensures forall i :: 0 <= i < n ==> movers[i] < |run[i].pcs|
    ensures Lawful(run[0].dev, DeviceCalls(run, movers, events, n))
    ensures run[n].dev == Replay(run[0].dev, DeviceCalls(run, movers, events, n))
  {
    if n > 0 {
      DeviceHistoryIsLawful(locking, run, movers, events, n - 1);
      var s, s', t, e := run[n - 1], run[n - 1 + 1], movers[n - 1], events[n - 1];
      assert Next(locking, s, s', t, e);
      MoveOfDevice(locking, s, s', t, e);
      HistoryGrows(run[0].dev, DeviceCalls(run, movers, events, n - 1), s.dev, s'.dev, CallsDevice(s.pcs[t]), e);
    }
  }

  lemma HistoryGrows(d: Log, es: seq<Event>, dev: Log, dev': Log, called: bool, e: Event)
    requires Lawful(d, es) && dev == Replay(d, es)
    requires if called then Answers(dev, e) && dev' == Feed(dev, TakenBy(e)) else dev' == dev
    ensures var es' := es + if called then [e] else []; Lawful(d, es') && dev' == Replay(d, es')
  {
    if called {
      LawfulSnoc(d, es, e);
    } else {
      assert es + [] == es;
    }
  }

  predicate AtRest(pc: Pc) {
    pc.Idle? || pc.Replied?
  }

  /** What the connections of thread `t` asked for in the first `n` moves, in order. */
  function Received(run: seq<State>, movers: seq<nat>, events: seq<Event>, t: nat, n: nat): seq<Call>
    requires n <= |movers| == |events| <= |run|
    requires forall i :: 0 <= i < n ==> movers[i] < |run[i].pcs|
  {
    if n == 0 then []
    else
      Received(run, movers, events, t, n - 1) +
      if movers[n - 1] == t && AtRest(run[n - 1].pcs[t]) then [events[n - 1].call] else []
  }

  /** The writes and seeks among the device calls of thread `t`, in order. */
  function Made(run: seq<State>, movers: seq<nat>, events: seq<Event>, t: nat, n: nat): seq<Call>
    requires n <= |movers| == |events| <= |run|
    requires forall i :: 0 <= i < n ==> movers[i] < |run[i].pcs|
  {
    if n == 0 then []
    else
      Made(run, movers, events, t, n - 1) +
      if movers[n - 1] == t && CallsDevice(run[n - 1].pcs[t]) && !events[n - 1].call.Read? then [events[n - 1].call] else []
  }

  function Waiting(pc: Pc): seq<Call> {
    match pc
    case WantsSeek(cmd, off) => [Seek(cmd, off)]
    case HasSeek(cmd, off, _) => [Seek(cmd, off)]
    case WantsWrite(buf) => [Write(buf)]
    case HasWrite(buf) => [Write(buf)]
    case _ => []
  }

  lemma MoveOfRequest(locking: bool, s: State, s': State, u: nat, e: Event, t: nat)
    requires Next(locking, s, s', u, e) && t < |s.pcs|
    ensures |s'.pcs| == |s.pcs|
    ensures if u != t then s'.pcs[t] == s.pcs[t]
            else if AtRest(s.pcs[t]) then Waiting(s.pcs[t]) == [] && Waiting(s'.pcs[t]) == [e.call]
            else if CallsDevice(s.pcs[t]) && !e.call.Read? then Waiting(s.pcs[t]) == [e.call] && Waiting(s'.pcs[t]) == []
            else Waiting(s'.pcs[t]) == Waiting(s.pcs[t])
  {
  }

  /** Each thread hands the device exactly what its connections asked for, each request once
      and in order; at most one is still waiting. */
  lemma {:induction false} RequestsAreHandedOn(
      locking: bool, run: seq<State>, movers: seq<nat>, events: seq<Event>, t: nat, n: nat)
    requires IsRun(locking, run, movers, events) && n <= |movers| && t < |run[0].pcs|
    ensures forall i :: 0 <= i < n ==> movers[i] < |run[i].pcs|
    ensures |run[n].pcs| == |run[0].pcs|
    ensures Made(run, movers, events, t, n) + Waiting(run[n].pcs[t]) == Received(run, movers, events, t, n)
    ensures |Waiting(run[n].pcs[t])| <= 1
  {
    if n > 0 {
      RequestsAreHandedOn(locking, run, movers, events, t, n - 1);
      assert Next(locking, run[n - 1], run[n - 1 + 1], movers[n - 1], events[n - 1]);
      MoveOfRequest(locking, run[n - 1], run[n - 1 + 1], movers[n - 1], events[n - 1], t);
    }
  }

  /** How a thread's forwarding ended, when it has: by a read of nothing, or by a failed one. */
  function CutShort(pc: Pc): bool {
    match pc
    case SeekDone(o) => o.ioctl.Ok? && !o.ended
    case Replied(o) => o.ioctl.Ok? && !o.ended
    case _ => false
  }

  ghost predicate ReadFailed(movers: seq<nat>, events: seq<Event>, k: nat, t: nat) {
    k < |movers| == |events| && movers[k] == t && events[k].call.Read? && events[k].res.Err?
  }

  /** A thread forwards less than all of the rest only because one of its own reads failed. */
  lemma {:induction false} CutShortByAFailure(run: seq<State>, movers: seq<nat>, events: seq<Event>, i: nat, t: nat)
    requires IsRun(true, run, movers, events) && i < |run| && t < |run[i].pcs| && CutShort(run[i].pcs[t])
    ensures exists k :: 0 <= k < i && ReadFailed(movers, events, k, t)
  {
    if i > 0 {
      var s, s', u, e := run[i - 1], run[i], movers[i - 1], events[i - 1];
      assert Next(true, s, run[i - 1 + 1], u, e);
      if u == t && s.pcs[t].Forwarding? {
        assert ReadFailed(movers, events, i - 1, t);
      } else {
        CutShortByAFailure(run, movers, events, i - 1, t);
      }
    }
  }

  /** The command, offset and snapshot a thread carries once it has taken the mutex. */
  function Carried(pc: Pc): Option<(nat, nat, Log)> {
    match pc
    case HasSeek(cmd, off, snap) => Some((cmd, off, snap))
    case Forwarding(cmd, off, snap, _, _) => Some((cmd, off, snap))
    case SeekDone(o) => Some((o.cmd, o.off, o.snap))
    case Replied(o) => Some((o.cmd, o.off, o.snap))
    case _ => None
  }

  /** Move `k` of the run is thread `t` taking the mutex for (cmd, off), and finding `snap`. */
  ghost predicate TookMutex(run: seq<State>, movers: seq<nat>, k: nat, t: nat, cmd: nat, off: nat, snap: Log) {
    && k < |movers| && k + 1 < |run| && movers[k] == t && t < |run[k].pcs|
    && run[k].pcs[t] == WantsSeek(cmd, off) && run[k].mutex == None
    && run[k + 1].mutex == Some(t) && run[k].dev == snap
  }

  lemma {:induction false} SnapshotIsFromTheLock(run: seq<State>, movers: seq<nat>, events: seq<Event>, i: nat, t: nat)
    requires IsRun(true, run, movers, events) && i < |run|
    requires t < |run[i].pcs| && Carried(run[i].pcs[t]).Some?
    ensures var (cmd, off, snap) := Carried(run[i].pcs[t]).value;
            exists k :: 0 <= k < i && TookMutex(run, movers, k, t, cmd, off, snap)
  {
    if i > 0 {
      var s, s', u, e := run[i - 1], run[i], movers[i - 1], events[i - 1];
      assert Next(true, s, run[i - 1 + 1], u, e);
      var (cmd, off, snap) := Carried(s'.pcs[t]).value;
      if u == t && s.pcs[t].WantsSeek? {
        assert TookMutex(run, movers, i - 1, t, cmd, off, snap);
      } else {
        assert Carried(s.pcs[t]) == Carried(s'.pcs[t]);
        SnapshotIsFromTheLock(run, movers, events, i - 1, t);
      }
    }
  }

  /** With any number of threads interleaved in any way, a thread whose ioctl succeeded has
      forwarded a stretch of the contents the device had when it took the mutex, starting at
      the byte it asked for; all of the rest, when its loop was not cut short by an error. */
  lemma ForwardedIsTheSoughtSuffix(run: seq<State>, movers: seq<nat>, events: seq<Event>, i: nat, t: nat)
    requires IsRun(true, run, movers, events) && i < |run| && t < |run[i].pcs|
    requires run[i].pcs[t].Replied? && run[i].pcs[t].reply.ioctl.Ok?
    ensures var o := run[i].pcs[t].reply;
            && (exists k :: 0 <= k < i && TookMutex(run, movers, k, t, o.cmd, o.off, o.snap))
            && Inside(Sizes(o.snap.lines), o.cmd, o.off)
            && var flat, start := Flatten(o.snap.lines), Position(Sizes(o.snap.lines), o.cmd, o.off);
            && start + |o.sent| <= |flat|
            && o.sent == flat[start..start + |o.sent|]
            && (o.ended ==> o.sent == flat[start..])
  {
    RunKeepsInvariant(run, movers, events, i);
    assert InOrder(run[i], run[i].pcs[t]);
    SnapshotIsFromTheLock(run, movers, events, i, t);
  }

  // ---- the mutex is always given back ----

  /** Thread `t` moves alone, through `steps`. */
  ghost predicate OwnMoves(locking: bool, steps: seq<State>, es: seq<Event>, t: nat) {
    && |steps| == |es| + 1
    && forall i :: 0 <= i < |es| ==> Next(locking, steps[i], steps[i + 1], t, es[i])
  }

  lemma MoveBefore(locking: bool, s: State, e: Event, steps: seq<State>, es: seq<Event>, t: nat)
    requires OwnMoves(locking, steps, es, t) && Next(locking, s, steps[0], t, e)
    ensures OwnMoves(locking, [s] + steps, [e] + es, t)
  {
    var all, events := [s] + steps, [e] + es;
    forall i | 0 <= i < |events|
      ensures Next(locking, all[i], all[i + 1], t, events[i])
    {
      if i > 0 {
        assert all[i] == steps[i - 1] && all[i + 1] == steps[i - 1 + 1] && events[i] == es[i - 1];
      }
    }
  }

  lemma MoveAfter(locking: bool, steps: seq<State>, es: seq<Event>, s: State, e: Event, t: nat)
    requires OwnMoves(locking, steps, es, t) && Next(locking, steps[|es|], s, t, e)
    ensures OwnMoves(locking, steps + [s], es + [e], t)
  {
    var all, events := steps + [s], es + [e];
    forall i | 0 <= i < |events|
      ensures Next(locking, all[i], all[i + 1], t, events[i])
    {
      if i < |es| {
        assert all[i] == steps[i] && all[i + 1] == steps[i + 1] && events[i] == es[i];
      }
    }
  }

  /** The read loop of thread `t`, run to its end from wherever the shared position stands. */
  lemma {:induction false} ForwardsToTheEnd(locking: bool, s: State, t: nat, from: nat) returns (steps: seq<State>, es: seq<Event>)
    requires t < |s.pcs| && s.pcs[t].Forwarding?
    requires var flat := Flatten(s.dev.lines); from <= s.fPos <= |flat| && s.pcs[t].sent == flat[from..s.fPos]
    ensures OwnMoves(locking, steps, es, t) && steps[0] == s && |es| <= |Flatten(s.dev.lines)| - s.fPos + 1
    ensures var (pc, flat) := (s.pcs[t], Flatten(s.dev.lines));
            var o := Outcome(pc.cmd, pc.off, pc.snap, Ok(pc.start), flat[from..], true);
            steps[|es|] == s.(fPos := |flat|, pcs := s.pcs[t := SeekDone(o)])
    decreases |Flatten(s.dev.lines)| - s.fPos
  {
    var (pc, flat) := (s.pcs[t], Flatten(s.dev.lines));
    var bs := ReadBytes(s.dev.lines, s.fPos, BUFFER_SIZE);
    var e := Event(Read(s.fPos, BUFFER_SIZE), Ok(|bs|), bs, 0);
    ReadTakesNextPiece(s.dev.lines, s.fPos, BUFFER_SIZE);
    if bs == [] {
      assert flat[from..s.fPos] == flat[from..];
      var o := Outcome(pc.cmd, pc.off, pc.snap, Ok(pc.start), flat[from..], true);
      steps, es := [s, s.(pcs := s.pcs[t := SeekDone(o)])], [e];
    } else {
      var next := s.fPos + |bs|;
      assert flat[from..s.fPos] + bs == flat[from..next];
      var s' := s.(fPos := next, pcs := s.pcs[t := pc.(sent := flat[from..next])]);
      var rest, later := ForwardsToTheEnd(locking, s', t, from);
      MoveBefore(locking, s, e, rest, later, t);
      steps, es := [s] + rest, [e] + later;
      assert s'.pcs[t := rest[|later|].pcs[t]] == s.pcs[t := rest[|later|].pcs[t]];
    }
  }

  /** What a seek command is served when no read fails. */
  function FullService(lines: seq<seq<byte>>, cmd: nat, off: nat, snap: Log): Outcome {
    if Inside(Sizes(lines), cmd, off) then
      var p := Position(Sizes(lines), cmd, off);
      Outcome(cmd, off, snap, Ok(p), if p <= |Flatten(lines)| then Flatten(lines)[p..] else [], true)
    else Outcome(cmd, off, snap, Err(EINVAL), [], false)
  }

  lemma SeekServedInside(s: State, t: nat) returns (steps: seq<State>, es: seq<Event>)
    requires t < |s.pcs| && s.pcs[t].HasSeek? && Inside(Sizes(s.dev.lines), s.pcs[t].cmd, s.pcs[t].off)
    ensures OwnMoves(true, steps, es, t) && steps[0] == s && |es| <= |Flatten(s.dev.lines)| + 2
    ensures var (pc, last) := (s.pcs[t], steps[|es|]);
            last == s.(fPos := last.fPos, pcs := s.pcs[t := SeekDone(FullService(s.dev.lines, pc.cmd, pc.off, pc.snap))])
  {
    var (pc, flat) := (s.pcs[t], Flatten(s.dev.lines));
    var p := Position(Sizes(s.dev.lines), pc.cmd, pc.off);
    SoughtIsInside(s.dev.lines, pc.cmd, pc.off, Ok(p));
    assert flat[p..p] == [];
    var s' := s.(fPos := p, pcs := s.pcs[t := Forwarding(pc.cmd, pc.off, pc.snap, p, [])]);
    var rest, later := ForwardsToTheEnd(true, s', t, p);
    var e := Event(Seek(pc.cmd, pc.off), Ok(p), [], 0);
    MoveBefore(true, s, e, rest, later, t);
    steps, es := [s] + rest, [e] + later;
  }

  /** The owner of the mutex on its own: a seek is served in full, a write stored in full. */
  lemma RequestIsServed(s: State, t: nat) returns (steps: seq<State>, es: seq<Event>)
    requires t < |s.pcs| && (s.pcs[t].HasSeek? || s.pcs[t].HasWrite?)
    ensures OwnMoves(true, steps, es, t) && steps[0] == s && |es| <= |Flatten(s.dev.lines)| + 3
    ensures var (pc, last) := (s.pcs[t], steps[|es|]);
            && last.mutex == None
            && (pc.HasSeek? ==>
                  && last.dev == s.dev
                  && last.pcs == s.pcs[t := Replied(FullService(s.dev.lines, pc.cmd, pc.off, pc.snap))])
            && (pc.HasWrite? ==> last.dev == Feed(s.dev, pc.buf) && last.pcs == s.pcs[t := Idle])
  {
    var pc, idle := s.pcs[t], Event(Size, Err(ERESTARTSYS), [], 0);
    var last;
    if pc.HasWrite? {
      var e := Event(Write(pc.buf), Ok(|pc.buf|), [], |pc.buf|);
      assert pc.buf[..|pc.buf|] == pc.buf;
      steps, es := [s, s.(dev := Feed(s.dev, pc.buf), pcs := s.pcs[t := WriteDone])], [e];
      last := steps[1].(mutex := None, pcs := s.pcs[t := Idle]);
    } else {
      var o := FullService(s.dev.lines, pc.cmd, pc.off, pc.snap);
      if Inside(Sizes(s.dev.lines), pc.cmd, pc.off) {
        steps, es := SeekServedInside(s, t);
      } else {
        steps, es := [s, s.(pcs := s.pcs[t := SeekDone(o)])], [Event(Seek(pc.cmd, pc.off), Err(EINVAL), [], 0)];
      }
      last := steps[|es|].(mutex := None, pcs := s.pcs[t := Replied(o)]);
    }
    MoveAfter(true, steps, es, last, idle, t);
    steps, es := steps + [last], es + [idle];
  }

  /** From every state of every run the owner of the mutex can move on alone, and gives it
      back within as many moves as there are bytes to forward, plus three. */
  lemma OwnerCanFinish(s: State, t: nat) returns (steps: seq<State>, es: seq<Event>)
    requires Invariant(s) && s.mutex == Some(t)
    ensures OwnMoves(true, steps, es, t) && steps[0] == s && |es| <= |Flatten(s.dev.lines)| + 3
    ensures steps[|es|].mutex == None
  {
    var pc, idle := s.pcs[t], Event(Size, Err(ERESTARTSYS), [], 0);
    assert InOrder(s, pc);
    if pc.HasSeek? || pc.HasWrite? {
      steps, es := RequestIsServed(s, t);
    } else {
      if pc.Forwarding? {
        steps, es := ForwardsToTheEnd(true, s, t, pc.start);
      } else {
        steps, es := [s], [];
      }
      var before := steps[|es|];
      var last := before.(mutex := None, pcs := s.pcs[t := if pc.WriteDone? then Idle else Replied(before.pcs[t].seeked)]);
      MoveAfter(true, steps, es, last, idle, t);
      steps, es := steps + [last], es + [idle];
    }
  }

  /** With the mutex free, any thread at rest can be given any request and serve it in full. */
  lemma AnyRequestCanBeServed(s: State, t: nat, call: Call) returns (steps: seq<State>, es: seq<Event>)
    requires Invariant(s) && s.mutex == None && t < |s.pcs| && AtRest(s.pcs[t]) && (call.Seek? || call.Write?)
    ensures OwnMoves(true, steps, es, t) && steps[0] == s && es != [] && es[0].call == call
    ensures var last := steps[|es|];
            && last.mutex == None
            && (call.Seek? ==>
                  last.dev == s.dev && last.pcs == s.pcs[t := Replied(FullService(s.dev.lines, call.cmd, call.off, s.dev))])
            && (call.Write? ==> last.dev == Feed(s.dev, call.buf) && last.pcs == s.pcs[t := Idle])
  {
    var e := Event(call, Err(ERESTARTSYS), [], 0);
    var (wants, has) := if call.Seek? then (WantsSeek(call.cmd, call.off), HasSeek(call.cmd, call.off, s.dev))
                        else (WantsWrite(call.buf), HasWrite(call.buf));
    var s1 := s.(pcs := s.pcs[t := wants]);
    var s2 := s1.(mutex := Some(t), pcs := s.pcs[t := has]);
    var rest, later := RequestIsServed(s2, t);
    MoveBefore(true, s1, e, rest, later, t);
    MoveBefore(true, s, e, [s1] + rest, [e] + later, t);
    steps, es := [s] + ([s1] + rest), [e] + ([e] + later);
  }

  // ---- and why it is needed ----

  /** A run can start with any number of threads on any contents, and go on with any move. */
  lemma RunsBegin(locking: bool, d: Log, fPos: nat, n: nat) returns (s: State)
    ensures s == State(d, fPos, None, seq(n, _ => Idle)) && IsRun(locking, [s], [], [])
  {
    s := State(d, fPos, None, seq(n, _ => Idle));
  }

  lemma Extend(locking: bool, run: seq<State>, movers: seq<nat>, events: seq<Event>, s: State, t: nat, e: Event)
      returns (run': seq<State>, movers': seq<nat>, events': seq<Event>)
    requires IsRun(locking, run, movers, events) && Next(locking, run[|run| - 1], s, t, e)
    ensures IsRun(locking, run', movers', events')
    ensures run' == run + [s] && movers' == movers + [t] && events' == events + [e]
  {
    run', movers', events' := run + [s], movers + [t], events + [e];
    forall i | 0 <= i < |movers'|
      ensures Next(locking, run'[i], run'[i + 1], movers'[i], events'[i])
    {
      if i < |movers| {
        assert Next(locking, run[i], run[i + 1], movers[i], events[i]);
      }
    }
  }

  /** Without the mutex two threads can both be between their lock and their ioctl. */
  lemma BothInside(d: Log, c0: nat, o0: nat, c1: nat, o1: nat)
      returns (run: seq<State>, movers: seq<nat>, events: seq<Event>)
    ensures IsRun(false, run, movers, events)
    ensures run[|run| - 1] == State(d, 0, None, [HasSeek(c0, o0, d), HasSeek(c1, o1, d)])
  {
    var (e0, e1) := (Event(Seek(c0, o0), Err(ERESTARTSYS), [], 0), Event(Seek(c1, o1), Err(ERESTARTSYS), [], 0));
    var (wants0, wants1) := (WantsSeek(c0, o0), WantsSeek(c1, o1));
    var (has0, has1) := (HasSeek(c0, o0, d), HasSeek(c1, o1, d));
    run, movers, events := [State(d, 0, None, [Idle, Idle])], [], [];
    run, movers, events := Extend(false, run, movers, events, State(d, 0, None, [wants0, Idle]), 0, e0);
    run, movers, events := Extend(false, run, movers, events, State(d, 0, None, [wants0, wants1]), 1, e1);
    run, movers, events := Extend(false, run, movers, events, State(d, 0, None, [has0, wants1]), 0, e0);
    run, movers, events := Extend(false, run, movers, events, State(d, 0, None, [has0, has1]), 1, e1);
  }

  /** Two threads at their ioctls make them one after the other; the later one sets the position. */
  lemma BothSeek(d: Log, c0: nat, o0: nat, c1: nat, o1: nat)
      returns (run: seq<State>, movers: seq<nat>, events: seq<Event>)
    requires Inside(Sizes(d.lines), c0, o0) && Inside(Sizes(d.lines), c1, o1)
    ensures IsRun(false, run, movers, events)
    ensures var (p0, p1) := (Position(Sizes(d.lines), c0, o0), Position(Sizes(d.lines), c1, o1));
            run[|run| - 1] == State(d, p1, None, [Forwarding(c0, o0, d, p0, []), Forwarding(c1, o1, d, p1, [])])
  {
    var (p0, p1) := (Position(Sizes(d.lines), c0, o0), Position(Sizes(d.lines), c1, o1));
    var (f0, f1) := (Forwarding(c0, o0, d, p0, []), Forwarding(c1, o1, d, p1, []));
    run, movers, events := BothInside(d, c0, o0, c1, o1);
    run, movers, events := Extend(false, run, movers, events, State(d, p0, None, [f0, HasSeek(c1, o1, d)]), 0,
                                  Event(Seek(c0, o0), Ok(p0), [], 0));
    run, movers, events := Extend(false, run, movers, events, State(d, p1, None, [f0, f1]), 1,
                                  Event(Seek(c1, o1), Ok(p1), [], 0));
  }

  lemma {:induction false} Continue(
      run: seq<State>, movers: seq<nat>, events: seq<Event>, steps: seq<State>, es: seq<Event>, t: nat)
      returns (run': seq<State>, movers': seq<nat>, events': seq<Event>)
    requires IsRun(false, run, movers, events) && OwnMoves(false, steps, es, t) && steps[0] == run[|run| - 1]
    ensures IsRun(false, run', movers', events') && run'[|run'| - 1] == steps[|es|]
    decreases |es|
  {
    run', movers', events' := run, movers, events;
    if es != [] {
      assert Next(false, steps[0], steps[0 + 1], t, es[0]);
      run', movers', events' := Extend(false, run, movers, events, steps[1], t, es[0]);
      forall i | 0 <= i < |es| - 1
        ensures Next(false, steps[1..][i], steps[1..][i + 1], t, es[1..][i])
      {
        assert Next(false, steps[i + 1], steps[i + 1 + 1], t, es[i + 1]);
      }
      run', movers', events' := Continue(run', movers', events', steps[1..], es[1..], t);
    }
  }

  /** Without the mutex, whatever the device holds and whichever two stored bytes two threads
      seek: when the other thread's ioctl falls between a thread's own and its first read, the
      thread forwards the contents from the other thread's byte on and never those from its
      own, and its loop ends as if all were well. */
  lemma WithoutTheMutexForwardingGoesWrong(d: Log, cmd: nat, off: nat, cmd': nat, off': nat)
      returns (run: seq<State>, movers: seq<nat>, events: seq<Event>)
    requires Inside(Sizes(d.lines), cmd, off) && Inside(Sizes(d.lines), cmd', off')
    requires (cmd, off) != (cmd', off')
    ensures IsRun(false, run, movers, events)
    ensures var last, flat := run[|run| - 1], Flatten(d.lines);
            var (p, p') := (Position(Sizes(d.lines), cmd, off), Position(Sizes(d.lines), cmd', off'));
            && p < |flat| && p' < |flat| && |last.pcs| == 2
            && last.pcs[0] == Replied(Outcome(cmd, off, d, Ok(p), flat[p'..], true))
            && flat[p'..] != flat[p..]
  {
    var flat := Flatten(d.lines);
    var (p, p') := (Position(Sizes(d.lines), cmd, off), Position(Sizes(d.lines), cmd', off'));
    SoughtIsInside(d.lines, cmd, off, Ok(p));
    SoughtIsInside(d.lines, cmd', off', Ok(p'));
    LocateInvertsPosition(Sizes(d.lines), cmd, off);
    LocateInvertsPosition(Sizes(d.lines), cmd', off');
    assert |flat[p'..]| != |flat[p..]|;
    run, movers, events := BothSeek(d, cmd, off, cmd', off');
    var other := Forwarding(cmd', off', d, p', []);
    assert flat[p'..p'] == [];
    var steps, es := ForwardsToTheEnd(false, run[|run| - 1], 0, p');
    run, movers, events := Continue(run, movers, events, steps, es, 0);
    var o := Outcome(cmd, off, d, Ok(p), flat[p'..], true);
    run, movers, events := Extend(false, run, movers, events, State(d, |flat|, None, [Replied(o), other]), 0,
                                  Event(Size, Err(ERESTARTSYS), [], 0));
  }
}
