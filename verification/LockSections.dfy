/** Any number of threads inside the driver at once, one store at a time. Between two steps of
    one thread any other thread may run; only dev->lock keeps them apart. */
module LockSections {
  import opened Bytes
  import opened LineLog
  import opened Positions
  import opened Ring
  import opened DeviceSpec
  import opened DeviceSteps

  datatype Pc =
    | Idle
    | Entering(call: Call)
    | InSection(at: Place)
    | Returned(call: Call, res: Result, bytes: seq<byte>)

  /** `order` records who took the lock and for which call; `log` the calls that gave it back.
      `luck` is what the present holder has met since it took the lock, `lucks` what the calls
      of the log met, one by one. */
  datatype State = State(
    sh: Shared, holder: Option<nat>, pcs: seq<Pc>, order: seq<(nat, Call)>, log: seq<Event>, luck: Luck, lucks: seq<Luck>)

  /** Thread `t` takes one step. */
  ghost predicate Next(s: State, s': State, t: nat) {
    && t < |s.pcs|
    && |s'.pcs| == |s.pcs| && s'.pcs == s.pcs[t := s'.pcs[t]]
    && match s.pcs[t]
       case Idle => Enters(s, s', t)
       case Returned(_, _, _) => Enters(s, s', t)
       case Entering(call) =>
         || s' == s.(pcs := s.pcs[t := Returned(call, Err(ERESTARTSYS), [])])
         || (s.holder == None && Acquires(s, s', t, call))
       case InSection(at) => if at.Leaving? then Releases(s, s', t, at) else Works(s, s', t, at)
  }

  /** A thread calls into the driver; an empty write returns before the lock. */
  ghost predicate Enters(s: State, s': State, t: nat)
    requires t < |s.pcs|
  {
    exists call: Call ::
      s' == s.(pcs := s.pcs[t := if call == Write([]) then Returned(call, Ok(0), []) else Entering(call)])
  }

  predicate Acquires(s: State, s': State, t: nat, call: Call)
    requires t < |s.pcs|
  {
    s' == s.(holder := Some(t),
             pcs := s.pcs[t := InSection(FirstStep(call))],
             order := s.order + [(t, call)],
             luck := Fine)
  }

  predicate Releases(s: State, s': State, t: nat, at: Place)
    requires t < |s.pcs| && at.Leaving?
  {
    s' == s.(holder := None,
             pcs := s.pcs[t := Returned(at.call, at.res, at.bytes)],
             log := s.log + [Event(at.call, at.res, at.bytes, at.took)],
             lucks := s.lucks + [s.luck])
  }

  predicate Works(s: State, s': State, t: nat, at: Place)
    requires t < |s.pcs| == |s'.pcs|
  {
    && s'.pcs[t].InSection? && Step(s.sh, at, s'.luck, s'.sh, s'.pcs[t].at)
    && s' == s.(sh := s'.sh, pcs := s'.pcs, luck := s'.luck)
  }

  ghost predicate Start(s: State) {
    && s.sh == Shared(Init(ZERO), ZERO, ZERO) && s.holder == None && s.order == [] && s.log == [] && s.lucks == []
    && forall t :: 0 <= t < |s.pcs| ==> s.pcs[t] == Idle
  }

  // ---- the invariant ----

  /** Entry `i` of the log is the answer to the latest call for which thread `t` took the lock. */
  ghost predicate LatestAnswer(s: State, i: nat, t: nat, call: Call, res: Result, bytes: seq<byte>) {
    && i < |s.log| && i < |s.order| && s.order[i] == (t, call)
    && (forall j :: i < j < |s.order| ==> s.order[j].0 != t)
    && s.log[i].call == call && s.log[i].res == res && s.log[i].bytes == bytes
  }

  /** What a returned call has to show for itself: an early return, or its entry in the log. */
  ghost predicate Justified(s: State, t: nat, call: Call, res: Result, bytes: seq<byte>) {
    || (bytes == [] && res == Err(ERESTARTSYS))
    || (bytes == [] && res == Ok(0) && call == Write([]))
    || exists i :: LatestAnswer(s, i, t, call, res, bytes)
  }

  /** The thread at `pc` is fit to be thread `t` of `s`. */
  ghost predicate Fits(s: State, t: nat, pc: Pc) {
    match pc
    case Idle => true
    case Entering(call) => call != Write([])
    case InSection(_) => s.holder == Some(t)
    case Returned(call, res, bytes) => Justified(s, t, call, res, bytes)
  }

  ghost predicate HolderInvariant(s: State) {
    match s.holder
    case None => |s.order| == |s.log| && Shows(s.sh, Replay(EMPTY_LOG, s.log))
    case Some(t) =>
      && t < |s.pcs| && s.pcs[t].InSection?
      && |s.order| == |s.log| + 1 && s.order[|s.log|] == (t, Serving(s.pcs[t].at))
      && Progress(Replay(EMPTY_LOG, s.log), s.sh, s.pcs[t].at, s.luck)
  }

  ghost predicate LogInvariant(s: State) {
    && Lawful(EMPTY_LOG, s.log)
    && |s.log| <= |s.order|
    && (forall i :: 0 <= i < |s.log| ==> s.log[i].call == s.order[i].1)
    && |s.lucks| == |s.log|
    && (forall i :: 0 <= i < |s.log| ==> GotItsDue(s.log, s.lucks, i))
  }

  /** The result of call `i` is the one it deserves by the log it found and what it met. */
  ghost predicate GotItsDue(log: seq<Event>, lucks: seq<Luck>, i: nat)
    requires i < |log| == |lucks|
  {
    Deserved(Replay(EMPTY_LOG, log[..i]), log[i], lucks[i])
  }

  ghost predicate Invariant(s: State) {
    && LogInvariant(s)
    && HolderInvariant(s)
    && (forall t :: 0 <= t < |s.pcs| ==> Fits(s, t, s.pcs[t]))
  }

  // ---- every step keeps it ----

  /** A thread that did not move still fits: it took the lock no later than before, and its
      answer is where it was. */
  lemma OtherStillFits(s: State, s': State, t: nat, u: nat)
    requires u < |s.pcs| == |s'.pcs| && Fits(s, u, s.pcs[u]) && s'.pcs[u] == s.pcs[u] && u != t
    requires s.log <= s'.log
    requires s'.order == s.order || exists call :: s'.order == s.order + [(t, call)]
    requires s.holder == Some(u) ==> s'.holder == Some(u)
    ensures Fits(s', u, s'.pcs[u])
  {
    var pc := s.pcs[u];
    if pc.Returned? && exists i :: LatestAnswer(s, i, u, pc.call, pc.res, pc.bytes) {
      var i :| LatestAnswer(s, i, u, pc.call, pc.res, pc.bytes);
      assert LatestAnswer(s', i, u, pc.call, pc.res, pc.bytes);
    }
  }

  lemma OthersStillFit(s: State, s': State, t: nat)
    requires Invariant(s) && t < |s.pcs| == |s'.pcs| && s'.pcs == s.pcs[t := s'.pcs[t]]
    requires s.log <= s'.log
    requires s'.order == s.order || exists call :: s'.order == s.order + [(t, call)]
    requires s.holder == None || s.holder == Some(t) || s'.holder == s.holder
    requires Fits(s', t, s'.pcs[t])
    ensures forall u :: 0 <= u < |s'.pcs| ==> Fits(s', u, s'.pcs[u])
  {
    forall u | 0 <= u < |s'.pcs| && u != t
      ensures Fits(s', u, s'.pcs[u])
    {
      OtherStillFits(s, s', t, u);
    }
  }

  lemma FirstStepProgresses(d: Log, sh: Shared, call: Call)
    requires Shows(sh, d) && call != Write([])
    ensures Progress(d, sh, FirstStep(call), Fine) && !FirstStep(call).Leaving? && Serving(FirstStep(call)) == call
  {
  }

  lemma AcquireKeepsInvariant(s: State, s': State, t: nat, call: Call)
    requires Invariant(s) && t < |s.pcs| && s.pcs[t] == Entering(call) && s.holder == None
    requires Acquires(s, s', t, call)
    ensures Invariant(s')
  {
    assert Fits(s, t, s.pcs[t]);
    FirstStepProgresses(Replay(EMPTY_LOG, s.log), s.sh, call);
    OthersStillFit(s, s', t);
  }

  lemma ReleaseKeepsInvariant(s: State, s': State, t: nat, at: Place)
    requires Invariant(s) && t < |s.pcs| && s.pcs[t] == InSection(at) && at.Leaving?
    requires Releases(s, s', t, at)
    ensures Invariant(s')
  {
    assert Fits(s, t, s.pcs[t]);
    var e := Event(at.call, at.res, at.bytes, at.took);
    LawfulSnoc(EMPTY_LOG, s.log, e);
    LogGrows(s.log, s.lucks, e, s.luck);
    assert LatestAnswer(s', |s.log|, t, at.call, at.res, at.bytes);
    OthersStillFit(s, s', t);
  }

  lemma LogGrows(log: seq<Event>, lucks: seq<Luck>, e: Event, luck: Luck)
    requires |log| == |lucks| && forall i :: 0 <= i < |log| ==> GotItsDue(log, lucks, i)
    requires Deserved(Replay(EMPTY_LOG, log), e, luck)
    ensures forall i :: 0 <= i < |log| + 1 ==> GotItsDue(log + [e], lucks + [luck], i)
  {
    forall i | 0 <= i < |log| + 1
      ensures GotItsDue(log + [e], lucks + [luck], i)
    {
      if i < |log| {
        assert GotItsDue(log, lucks, i) && (log + [e])[..i] == log[..i];
      } else {
        assert (log + [e])[..i] == log;
      }
    }
  }

  lemma WorkKeepsInvariant(s: State, s': State, t: nat, at: Place)
    requires Invariant(s) && t < |s.pcs| == |s'.pcs| && s.pcs[t] == InSection(at)
    requires s'.pcs == s.pcs[t := s'.pcs[t]] && Works(s, s', t, at)
    ensures Invariant(s')
  {
    assert Fits(s, t, s.pcs[t]);
    ReplayKeepsLines(s.log);
    StepKeepsProgress(Replay(EMPTY_LOG, s.log), s.sh, at, s'.luck, s'.sh, s'.pcs[t].at);
    OthersStillFit(s, s', t);
  }

  lemma ReplayKeepsLines(es: seq<Event>)
    ensures WellFormed(Replay(EMPTY_LOG, es))
  {
    ReplayIsFeed(EMPTY_LOG, es);
    FeedKeepsLines(EMPTY_LOG, Accepted(es));
  }

  /** A call that enters, is interrupted, or returns before the lock. */
  lemma OutsideKeepsInvariant(s: State, s': State, t: nat)
    requires Invariant(s) && t < |s.pcs| && !s.pcs[t].InSection?
    requires s' == s.(pcs := s'.pcs) && |s'.pcs| == |s.pcs| && s'.pcs == s.pcs[t := s'.pcs[t]]
    requires !s'.pcs[t].InSection? && Fits(s', t, s'.pcs[t])
    ensures Invariant(s')
  {
    OthersStillFit(s, s', t);
  }

  lemma NextKeepsInvariant(s: State, s': State, t: nat)
    requires Invariant(s) && Next(s, s', t)
    ensures Invariant(s')
  {
    match s.pcs[t]
    case Idle => OutsideKeepsInvariant(s, s', t);
    case Returned(_, _, _) => OutsideKeepsInvariant(s, s', t);
    case Entering(call) =>
      if s.holder == None && Acquires(s, s', t, call) {
        AcquireKeepsInvariant(s, s', t, call);
      } else {
        OutsideKeepsInvariant(s, s', t);
      }
    case InSection(at) =>
      if at.Leaving? {
        ReleaseKeepsInvariant(s, s', t, at);
      } else {
        WorkKeepsInvariant(s, s', t, at);
      }
  }

  lemma StartIsGood(s: State)
    requires Start(s)
    ensures Invariant(s)
  {
  }

  // ---- whole runs ----

  /** A run: the states, and which thread moved between each two. */
  ghost predicate IsRun(run: seq<State>, movers: seq<nat>) {
    && |run| == |movers| + 1 && Start(run[0])
    && forall i :: 0 <= i < |movers| ==> Next(run[i], run[i + 1], movers[i])
  }

  /** A run can start with any number of threads, and go on with any step. */
  lemma RunsBegin(n: nat) returns (s: State)
    ensures |s.pcs| == n && IsRun([s], [])
  {
    s := State(Shared(Init(ZERO), ZERO, ZERO), None, seq(n, _ => Idle), [], [], Fine, []);
  }

  lemma RunsGoOn(run: seq<State>, movers: seq<nat>, s: State, t: nat)
    requires IsRun(run, movers) && Next(run[|run| - 1], s, t)
    ensures IsRun(run + [s], movers + [t])
  {
    var (all, ts) := (run + [s], movers + [t]);
    forall i | 0 <= i < |ts|
      ensures Next(all[i], all[i + 1], ts[i])
    {
      if i < |movers| {
        assert Next(run[i], run[i + 1], movers[i]);
      }
    }
  }

  lemma {:induction false} RunKeepsInvariant(run: seq<State>, movers: seq<nat>, i: nat)
    requires IsRun(run, movers) && i < |run|
    ensures Invariant(run[i])
  {
    if i == 0 {
      StartIsGood(run[0]);
    } else {
      RunKeepsInvariant(run, movers, i - 1);
      assert Next(run[i - 1], run[i - 1 + 1], movers[i - 1]);
      NextKeepsInvariant(run[i - 1], run[i], movers[i - 1]);
    }
  }

  /** Serializability. Whatever the interleaving, whenever the lock is free the ring and the
      pending line are those of the finished calls run whole, one after the other, in the
      order in which they took the lock; each of them answered what the log left by the calls
      before it allows, and with the one result it deserves by what it met: an error exactly
      for a refused allocation, a faulting copy or a seek to nowhere; and each value a thread
      was given is the answer of that thread's latest call in that order. */
  lemma Serializable(run: seq<State>, movers: seq<nat>)
    requires IsRun(run, movers)
    ensures var s := run[|run| - 1];
            && |s.log| <= |s.order| <= |s.log| + 1
            && |s.lucks| == |s.log|
            && (forall i :: 0 <= i < |s.log| ==>
                              && s.log[i].call == s.order[i].1
                              && Answers(Replay(EMPTY_LOG, s.log[..i]), s.log[i])
                              && Deserved(Replay(EMPTY_LOG, s.log[..i]), s.log[i], s.lucks[i]))
            && (forall t :: 0 <= t < |s.pcs| && s.pcs[t].Returned? ==>
                              Justified(s, t, s.pcs[t].call, s.pcs[t].res, s.pcs[t].bytes))
            && (s.holder == None ==> |s.log| == |s.order| && Shows(s.sh, Replay(EMPTY_LOG, s.log)))
  {
    var s := run[|run| - 1];
    RunKeepsInvariant(run, movers, |run| - 1);
    forall i | 0 <= i < |s.log|
      ensures Answers(Replay(EMPTY_LOG, s.log[..i]), s.log[i])
      ensures Deserved(Replay(EMPTY_LOG, s.log[..i]), s.log[i], s.lucks[i])
    {
      LawfulAt(EMPTY_LOG, s.log, i);
      assert GotItsDue(s.log, s.lucks, i);
    }
    forall t | 0 <= t < |s.pcs| && s.pcs[t].Returned?
      ensures Justified(s, t, s.pcs[t].call, s.pcs[t].res, s.pcs[t].bytes)
    {
      assert Fits(s, t, s.pcs[t]);
    }
  }

  /** Mutual exclusion, and what it buys in every state of every run: at most one thread is
      inside, everything it is about to access is in bounds and not freed, and unless it is a
      writer it sees the log of whole calls, never a line half stored. */
  lemma InsideIsSafe(run: seq<State>, movers: seq<nat>, i: nat, t: nat)
    requires IsRun(run, movers) && i < |run| && t < |run[i].pcs| && run[i].pcs[t].InSection?
    ensures var (s, at) := (run[i], run[i].pcs[t].at);
            && (forall u :: 0 <= u < |s.pcs| && s.pcs[u].InSection? ==> u == t)
            && Shaped(s.sh, at)
            && (!Serving(at).Write? ==> Shows(s.sh, Replay(EMPTY_LOG, s.log)))
  {
    var (s, at) := (run[i], run[i].pcs[t].at);
    RunKeepsInvariant(run, movers, i);
    assert Fits(s, t, s.pcs[t]);
    forall u | 0 <= u < |s.pcs| && s.pcs[u].InSection?
      ensures u == t
    {
      assert Fits(s, u, s.pcs[u]);
    }
    ReplayKeepsLines(s.log);
    if !at.Leaving? {
      AdvanceKeepsProgress(Replay(EMPTY_LOG, s.log), s.sh, at);
    }
  }

  /** So the unlocked device always holds the last ten lines of all bytes taken in. */
  lemma UnlockedContents(run: seq<State>, movers: seq<nat>, lines: seq<seq<byte>>, rest: seq<byte>)
    requires IsRun(run, movers) && run[|run| - 1].holder == None
    requires IsSplit(Accepted(run[|run| - 1].log), lines, rest)
    ensures Shows(run[|run| - 1].sh, Log(LastN(lines, CAPACITY), rest))
  {
    Serializable(run, movers);
    HistoryKeepsLastTenLines(run[|run| - 1].log, lines, rest);
  }

  /** A thread comes out of a call in one of three ways: with the very answer its section put
      on the log, interrupted before it took the lock, or from an empty write. */
  lemma EveryReturnIsAccountedFor(run: seq<State>, movers: seq<nat>, i: nat)
    requires IsRun(run, movers) && i < |movers|
    requires run[i + 1].pcs[movers[i]].Returned?
    ensures var (s, s', t) := (run[i], run[i + 1], movers[i]);
            var (from, to) := (s.pcs[t], s'.pcs[t]);
            if from.InSection? then
              && from.at.Leaving? && s'.holder == None && |s.order| == |s.log| + 1 && s.order[|s.log|] == (t, to.call)
              && s'.log == s.log + [Event(to.call, to.res, to.bytes, from.at.took)]
            else
              && s'.sh == s.sh && s'.order == s.order && s'.log == s.log && to.bytes == []
              && ((from == Entering(to.call) && to.res == Err(ERESTARTSYS)) || (to.call == Write([]) && to.res == Ok(0)))
  {
    var (s, t) := (run[i], movers[i]);
    RunKeepsInvariant(run, movers, i);
    assert Next(run[i], run[i + 1], movers[i]) && Fits(s, t, s.pcs[t]);
  }

  // ---- the lock is always given back ----

  /** The holder meets nothing on its next step. */
  lemma HolderCanStep(s: State, t: nat) returns (s': State)
    requires Invariant(s) && s.holder == Some(t) && !s.pcs[t].at.Leaving?
    ensures Next(s, s', t) && Invariant(s')
    ensures s'.pcs[t].InSection? && Serving(s'.pcs[t].at) == Serving(s.pcs[t].at)
    ensures s' == s.(sh := s'.sh, pcs := s.pcs[t := s'.pcs[t]])
    ensures StepsLeft(s'.pcs[t].at) < StepsLeft(s.pcs[t].at)
  {
    var at := s.pcs[t].at;
    ReplayKeepsLines(s.log);
    AdvanceKeepsProgress(Replay(EMPTY_LOG, s.log), s.sh, at);
    var (sh', at') := Advance(s.sh, at);
    s' := s.(sh := sh', pcs := s.pcs[t := InSection(at')]);
    EveryStepCounts(s.sh, at, Fine, sh', at');
    NextKeepsInvariant(s, s', t);
  }

  lemma HolderCanLeave(s: State, t: nat) returns (s': State)
    requires Invariant(s) && s.holder == Some(t) && s.pcs[t].at.Leaving?
    ensures Next(s, s', t) && Invariant(s')
    ensures Finished(s, s', t)
  {
    var at := s.pcs[t].at;
    s' := s.(holder := None, pcs := s.pcs[t := Returned(at.call, at.res, at.bytes)],
             log := s.log + [Event(at.call, at.res, at.bytes, at.took)], lucks := s.lucks + [s.luck]);
    NextKeepsInvariant(s, s', t);
  }

  /** Thread `t`, which held the lock in `s`, has finished its call and gone: one more call is
      on the log, which met nothing more than it had met in `s`, and `t` has its answer. */
  ghost predicate Finished(s: State, s': State, t: nat)
    requires t < |s.pcs| && s.pcs[t].InSection?
  {
    && |s'.log| == |s.log| + 1
    && var e := s'.log[|s.log|];
       && s'.log == s.log + [e] && s'.lucks == s.lucks + [s.luck] && e.call == Serving(s.pcs[t].at)
       && s'.pcs == s.pcs[t := Returned(e.call, e.res, e.bytes)] && s'.holder == None && s'.order == s.order
  }

  /** `steps` are states of which each is thread `t`'s next one. */
  ghost predicate OwnSteps(steps: seq<State>, t: nat) {
    forall i :: 0 <= i < |steps| - 1 ==> Next(steps[i], steps[i + 1], t)
  }

  lemma StepBefore(s: State, steps: seq<State>, t: nat)
    requires steps != [] && OwnSteps(steps, t) && Next(s, steps[0], t)
    ensures OwnSteps([s] + steps, t)
  {
    var all := [s] + steps;
    forall i | 0 <= i < |all| - 1
      ensures Next(all[i], all[i + 1], t)
    {
      if i > 0 {
        assert all[i] == steps[i - 1] && all[i + 1] == steps[i - 1 + 1];
      }
    }
  }

  /** No deadlock: from every state of every run, whoever holds the lock can run on alone,
      whatever the others do not do, meet nothing, and give the lock back with its answer
      within its step bound. */
  lemma HolderCanFinish(s: State, t: nat) returns (steps: seq<State>)
    requires Invariant(s) && s.holder == Some(t)
    ensures 0 < |steps| <= StepsLeft(s.pcs[t].at) + 2 && steps[0] == s
    ensures OwnSteps(steps, t)
    ensures Invariant(steps[|steps| - 1]) && Finished(s, steps[|steps| - 1], t)
    decreases StepsLeft(s.pcs[t].at)
  {
    if s.pcs[t].at.Leaving? {
      var s' := HolderCanLeave(s, t);
      return [s, s'];
    }
    var s' := HolderCanStep(s, t);
    var rest := HolderCanFinish(s', t);
    StepBefore(s, rest, t);
    steps := [s] + rest;
  }

  /** A free lock can be taken for any call by any thread that is not in one. */
  lemma AnyCallCanBegin(s: State, t: nat, call: Call) returns (s1: State, s2: State)
    requires Invariant(s) && s.holder == None && t < |s.pcs| && (s.pcs[t].Idle? || s.pcs[t].Returned?)
    requires call != Write([])
    ensures Next(s, s1, t) && Next(s1, s2, t) && Invariant(s2)
    ensures s2.holder == Some(t) && s2.log == s.log && s2.lucks == s.lucks && s2.luck == Fine
    ensures |s2.pcs| == |s.pcs| && s2.pcs[t].InSection? && Serving(s2.pcs[t].at) == call
  {
    s1 := s.(pcs := s.pcs[t := Entering(call)]);
    NextKeepsInvariant(s, s1, t);
    s2 := s1.(holder := Some(t), pcs := s1.pcs[t := InSection(FirstStep(call))],
              order := s1.order + [(t, call)], luck := Fine);
    NextKeepsInvariant(s1, s2, t);
    FirstStepProgresses(Replay(EMPTY_LOG, s.log), s.sh, call);
  }

  /** With the lock free, any thread can make any call, alone and whole, and gets the answer
      of a call that met no failure: success, except of a seek to a byte that is not stored. */
  lemma AnyCallCanBeMade(s: State, t: nat, call: Call) returns (steps: seq<State>)
    requires Invariant(s) && s.holder == None && t < |s.pcs| && (s.pcs[t].Idle? || s.pcs[t].Returned?)
    requires call != Write([])
    ensures steps != [] && steps[0] == s && OwnSteps(steps, t)
    ensures var (last, d) := (steps[|steps| - 1], Replay(EMPTY_LOG, s.log));
            && |last.log| == |s.log| + 1
            && var e := last.log[|s.log|];
            && last.log == s.log + [e] && e.call == call && Answers(d, e)
            && (e.res.Ok? || (call.Seek? && !Positions.Inside(Sizes(d.lines), call.cmd, call.off)))
            && t < |last.pcs| && last.pcs[t] == Returned(call, e.res, e.bytes)
            && last.holder == None && Shows(last.sh, Replay(d, [e]))
  {
    var s1, s2 := AnyCallCanBegin(s, t, call);
    var rest := HolderCanFinish(s2, t);
    StepBefore(s1, rest, t);
    StepBefore(s, [s1] + rest, t);
    steps := [s] + ([s1] + rest);
    var last := rest[|rest| - 1];
    assert steps[|steps| - 1] == last;
    LastEntry(s.log, last.log, last.lucks);
  }

  lemma LastEntry(log: seq<Event>, log': seq<Event>, lucks: seq<Luck>)
    requires |log'| == |log| + 1 && log' == log + [log'[|log|]] && |lucks| == |log'|
    requires Lawful(EMPTY_LOG, log') && GotItsDue(log', lucks, |log|)
    ensures var (d, e) := (Replay(EMPTY_LOG, log), log'[|log|]);
            Answers(d, e) && Deserved(d, e, lucks[|log|]) && Replay(EMPTY_LOG, log') == Replay(d, [e])
  {
    assert log'[..|log'| - 1] == log && log'[..|log|] == log;
    var e := log'[|log|];
    assert [e][..0] == [];
    assert Replay(Replay(EMPTY_LOG, log), []) == Replay(EMPTY_LOG, log);
  }
}
