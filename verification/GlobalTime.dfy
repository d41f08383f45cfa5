/** The global-time protocol: threads share `global_time`, `number_of_threads` and
    `ticked_threads_countdown`, and each thread has its own `global_phase`.

    A global tick is split into the atomic steps between which other threads may run: the unlocked
    comparison, the bump of the own phase, the atomic decrement, the locked reset of the countdown
    and the advance of the clock before the lock is released. Blocking and resuming hold the lock
    from beginning to end and are one step each. Any number of descriptor roots may exist. */
module GlobalTime {
  import opened Sums

  /** Where a thread stands inside `scm_global_tick`. */
  datatype Pc =
    | Idle     // outside the call, or its comparison failed
    | Matched  // saw global_time == global_phase
    | Bumped   // phase bumped and buffers rotated, countdown not yet decremented
    | Last     // its decrement reached zero, lock not yet taken
    | Holding  // holds the lock, countdown reset, time not yet advanced

  /** `ticks` and `lastTick` are history: the number of effective ticks and the time of the last one.
      No step reads them. */
  datatype Thread = Thread(phase: int, blocked: bool, pc: Pc, ticks: nat, lastTick: int)

  datatype State = State(time: int, registered: int, countdown: int, threads: seq<Thread>)

  datatype Step =
    | Create | Resume(t: nat) | Block(t: nat)
    | Compare(t: nat) | Bump(t: nat) | Decrement(t: nat) | Reset(t: nat) | Advance(t: nat)

  const Init := State(0, 0, 1, [])
  const NewThread := Thread(0, true, Idle, 0, -1)

  predicate LockFree(s: State) {
    forall t :: 0 <= t < |s.threads| ==> s.threads[t].pc != Holding
  }

  predicate Enabled(s: State, step: Step) {
    step == Create ||
    (step.t < |s.threads| &&
     var th := s.threads[step.t];
     match step
     case Resume(_) => th.blocked && LockFree(s)
     case Block(_) => !th.blocked && th.pc == Idle && LockFree(s)
     case Compare(_) => !th.blocked && th.pc == Idle
     case Bump(_) => th.pc == Matched
     case Decrement(_) => th.pc == Bumped
     case Reset(_) => th.pc == Last && LockFree(s)
     case Advance(_) => th.pc == Holding)
  }

  function Put(s: State, t: nat, th: Thread): State
    requires t < |s.threads|
  {
    s.(threads := s.threads[t := th])
  }

  function Apply(s: State, step: Step): State
    requires Enabled(s, step)
  {
    match step
    case Create => s.(threads := s.threads + [NewThread])
    case Resume(t) => ApplyResume(s, t)
    case Block(t) => ApplyBlock(s, t)
    case Compare(t) =>
      if s.time == s.threads[t].phase then Put(s, t, s.threads[t].(pc := Matched)) else s
    case Bump(t) =>
      var th := s.threads[t];
      Put(s, t, th.(phase := th.phase + 1, pc := Bumped, ticks := th.ticks + 1, lastTick := s.time))
    case Decrement(t) =>
      var after := if s.countdown == 1 then Last else Idle;
      Put(s, t, s.threads[t].(pc := after)).(countdown := s.countdown - 1)
    case Reset(t) => Put(s, t, s.threads[t].(pc := Holding)).(countdown := s.registered)
    case Advance(t) => Put(s, t, s.threads[t].(pc := Idle)).(time := s.time + 1)
  }

  function ApplyResume(s: State, t: nat): State
    requires t < |s.threads|
  {
    var phase := if s.registered == 0 then s.time else s.time + 1;
    Put(s, t, s.threads[t].(phase := phase, blocked := false)).(registered := s.registered + 1)
  }

  function ApplyBlock(s: State, t: nat): State
    requires t < |s.threads|
  {
    var left := s.registered - 1;
    var out := Put(s, t, s.threads[t].(blocked := true)).(registered := left);
    if s.time != s.threads[t].phase then out
    else if s.countdown != 1 then out.(countdown := s.countdown - 1)
    else out.(countdown := if left == 0 then 1 else left, time := s.time + 1)
  }

  // ---------------------------------------------------------------- counting threads

  function Bit(b: bool): nat { if b then 1 else 0 }

  /** A participant that has not ticked in the period `time`. */
  predicate IsUnticked(time: int, th: Thread) { !th.blocked && th.phase == time && th.pc in {Idle, Matched} }

  function Participant(): Thread -> nat { (th: Thread) => Bit(!th.blocked) }
  function Unticked(time: int): Thread -> nat { (th: Thread) => Bit(IsUnticked(time, th)) }
  function InFlight(): Thread -> nat { (th: Thread) => Bit(th.pc == Bumped) }
  function Closer(): Thread -> nat { (th: Thread) => Bit(th.pc in {Last, Holding}) }

  function Participants(s: State): nat { Sum(s.threads, Participant()) }
  function Pending(s: State): nat { Sum(s.threads, Unticked(s.time)) + Sum(s.threads, InFlight()) }
  function Closers(s: State): nat { Sum(s.threads, Closer()) }

  // ---------------------------------------------------------------- the invariant

  predicate ThreadOk(time: int, th: Thread) {
    && (th.pc != Idle ==> !th.blocked)
    && (!th.blocked ==> th.phase == time || th.phase == time + 1)
    && (th.pc == Matched ==> th.phase == time)
    && (th.pc in {Bumped, Last, Holding} ==> th.phase == time + 1)
    && th.lastTick <= time
    && (!th.blocked ==> th.lastTick < th.phase)
  }

  predicate ThreadsOk(s: State) {
    forall t :: 0 <= t < |s.threads| ==> ThreadOk(s.time, s.threads[t])
  }

  /** Outside the closing window the countdown is exactly the number of ticks still missing. */
  predicate OpenOk(s: State) {
    && (s.registered > 0 ==> s.countdown == Pending(s) && 1 <= s.countdown)
    && (s.registered == 0 ==>
          && s.countdown == 1
          && forall t :: 0 <= t < |s.threads| ==> s.threads[t].lastTick < s.time)
  }

  /** Between the final decrement and the advance nobody is left to tick. */
  predicate ClosingOk(s: State) {
    && Pending(s) == 0
    && forall t :: 0 <= t < |s.threads| ==>
         && (s.threads[t].pc == Last ==> s.countdown == 0)
         && (s.threads[t].pc == Holding ==> s.countdown == s.registered)
  }

  predicate Inv(s: State) {
    && 0 <= s.time
    && s.registered == Participants(s)
    && ThreadsOk(s)
    && Closers(s) <= 1
    && (Closers(s) == 0 ==> OpenOk(s))
    && (Closers(s) == 1 ==> ClosingOk(s))
  }

  // ---------------------------------------------------------------- preservation

  /** How replacing one thread moves the four counts, the clock standing still. */
  lemma PutCounts(s: State, t: nat, th: Thread)
    requires t < |s.threads|
    ensures var s' := Put(s, t, th); var was := s.threads[t];
            && Participants(s') + Bit(!was.blocked) == Participants(s) + Bit(!th.blocked)
            && Sum(s'.threads, Unticked(s.time)) + Bit(IsUnticked(s.time, was))
               == Sum(s.threads, Unticked(s.time)) + Bit(IsUnticked(s.time, th))
            && Sum(s'.threads, InFlight()) + Bit(was.pc == Bumped)
               == Sum(s.threads, InFlight()) + Bit(th.pc == Bumped)
            && Closers(s') + Bit(was.pc in {Last, Holding}) == Closers(s) + Bit(th.pc in {Last, Holding})
  {
    SumUpdate(s.threads, Participant(), t, th);
    SumUpdate(s.threads, Unticked(s.time), t, th);
    SumUpdate(s.threads, InFlight(), t, th);
    SumUpdate(s.threads, Closer(), t, th);
  }

  /** What being in one of the four classes says about the counts. */
  lemma CountsAtLeast(s: State, t: nat)
    requires t < |s.threads|
    ensures Bit(!s.threads[t].blocked) <= Participants(s)
    ensures Bit(IsUnticked(s.time, s.threads[t])) + Bit(s.threads[t].pc == Bumped) <= Pending(s)
    ensures Bit(s.threads[t].pc in {Last, Holding}) <= Closers(s)
  {
    SumAtLeast(s.threads, Participant(), t);
    SumAtLeast(s.threads, Unticked(s.time), t);
    SumAtLeast(s.threads, InFlight(), t);
    SumAtLeast(s.threads, Closer(), t);
  }

  /** There is at most one closing thread. */
  lemma OneCloser(s: State, t: nat, u: nat)
    requires t < |s.threads| && u < |s.threads| && Closers(s) <= 1
    requires s.threads[t].pc in {Last, Holding} && s.threads[u].pc in {Last, Holding}
    ensures t == u
  {
    if t < u { SumAtLeastTwo(s.threads, Closer(), t, u); }
    if u < t { SumAtLeastTwo(s.threads, Closer(), u, t); }
  }

  /** When nobody is pending and nobody closes, the next period finds every participant unticked. */
  lemma NewPeriod(s: State, s': State)
    requires ThreadsOk(s) && Pending(s) == 0
    requires |s'.threads| == |s.threads| && s'.time == s.time + 1
    requires forall t :: 0 <= t < |s.threads| ==>
      var was, now := s.threads[t], s'.threads[t];
      && now.phase == was.phase && now.lastTick == was.lastTick
      && (now.blocked == was.blocked || (now.blocked && was.pc == Idle))
      && (now.pc == was.pc || now.pc == Idle)
      && now.pc !in {Last, Holding}
    ensures Pending(s') == Participants(s') && ThreadsOk(s') && Closers(s') == 0
    ensures forall t :: 0 <= t < |s'.threads| ==> s'.threads[t].lastTick < s'.time
  {
    forall t | 0 <= t < |s.threads|
      ensures Unticked(s'.time)(s'.threads[t]) == Participant()(s'.threads[t])
      ensures InFlight()(s'.threads[t]) == 0 == Closer()(s'.threads[t])
      ensures ThreadOk(s'.time, s'.threads[t])
    {
      CountsAtLeast(s, t);
      assert ThreadOk(s.time, s.threads[t]);
    }
    SumPointwise(s'.threads, Unticked(s'.time), s'.threads, Participant());
    if Sum(s'.threads, InFlight()) > 0 { var i := SumWitness(s'.threads, InFlight()); }
    if Closers(s') > 0 { var i := SumWitness(s'.threads, Closer()); }
  }

  /** Only participants can be pending. */
  lemma PendingNeedsParticipant(s: State)
    requires ThreadsOk(s)
    ensures Participants(s) == 0 ==> Pending(s) == 0
  {
    if Pending(s) > 0 {
      var c;
      if Sum(s.threads, InFlight()) > 0 { c := SumWitness(s.threads, InFlight()); }
      else { c := SumWitness(s.threads, Unticked(s.time)); }
      CountsAtLeast(s, c);
    }
  }

  lemma CreateKeepsInv(s: State)
    requires Inv(s)
    ensures Inv(Apply(s, Create))
  {
    SumAppend(s.threads, Participant(), NewThread);
    SumAppend(s.threads, Unticked(s.time), NewThread);
    SumAppend(s.threads, InFlight(), NewThread);
    SumAppend(s.threads, Closer(), NewThread);
  }

  lemma ResumeKeepsInv(s: State, t: nat)
    requires Inv(s) && Enabled(s, Resume(t))
    ensures Inv(Apply(s, Resume(t)))
  {
    var s' := Apply(s, Resume(t));
    PutCounts(s, t, s'.threads[t]);
    CountsAtLeast(s, t);
    if s.registered == 0 && Closers(s) == 1 {
      var c := SumWitness(s.threads, Closer());
      CountsAtLeast(s, c);
    }
    PendingNeedsParticipant(s);
  }

  lemma BlockKeepsInv(s: State, t: nat)
    requires Inv(s) && Enabled(s, Block(t))
    ensures Inv(Apply(s, Block(t)))
  {
    var s' := Apply(s, Block(t));
    PutCounts(s, t, s'.threads[t]);
    CountsAtLeast(s, t);
    if s.time == s.threads[t].phase && s.countdown == 1 {
      var out := Put(s, t, s'.threads[t]);
      forall u | 0 <= u < |s.threads|
        ensures s.threads[u].pc !in {Last, Holding}
      {
        CountsAtLeast(s, u);
      }
      NewPeriod(out, s');
    } else {
      PendingNeedsParticipant(s');
    }
  }

  lemma TickStepKeepsInv(s: State, step: Step)
    requires Inv(s) && Enabled(s, step)
    requires step.Compare? || step.Bump? || step.Decrement?
    ensures Inv(Apply(s, step))
  {
    var s' := Apply(s, step);
    PutCounts(s, step.t, s'.threads[step.t]);
    CountsAtLeast(s, step.t);
    forall u | 0 <= u < |s.threads| && s.threads[u].pc in {Last, Holding}
      ensures Closers(s) == 1
    {
      CountsAtLeast(s, u);
    }
  }

  lemma ResetKeepsInv(s: State, t: nat)
    requires Inv(s) && Enabled(s, Reset(t))
    ensures Inv(Apply(s, Reset(t)))
  {
    var s' := Apply(s, Reset(t));
    PutCounts(s, t, s'.threads[t]);
    CountsAtLeast(s, t);
    forall u | 0 <= u < |s.threads| && s.threads[u].pc in {Last, Holding}
      ensures u == t
    {
      OneCloser(s, t, u);
    }
  }

  lemma AdvanceKeepsInv(s: State, t: nat)
    requires Inv(s) && Enabled(s, Advance(t))
    ensures Inv(Apply(s, Advance(t)))
  {
    var s' := Apply(s, Advance(t));
    PutCounts(s, t, s'.threads[t]);
    CountsAtLeast(s, t);
    forall u | 0 <= u < |s.threads| && u != t
      ensures s.threads[u].pc !in {Last, Holding}
    {
      if s.threads[u].pc in {Last, Holding} { OneCloser(s, t, u); }
    }
    NewPeriod(s, s');
  }

  lemma StepKeepsInv(s: State, step: Step)
    requires Inv(s) && Enabled(s, step)
    ensures Inv(Apply(s, step))
  {
    match step
    case Create => CreateKeepsInv(s);
    case Resume(t) => ResumeKeepsInv(s, t);
    case Block(t) => BlockKeepsInv(s, t);
    case Reset(t) => ResetKeepsInv(s, t);
    case Advance(t) => AdvanceKeepsInv(s, t);
    case _ => TickStepKeepsInv(s, step);
  }

  // ---------------------------------------------------------------- runs

  predicate Run(s: State, steps: seq<Step>)
    decreases |steps|
  {
    steps == [] || (Enabled(s, steps[0]) && Run(Apply(s, steps[0]), steps[1..]))
  }

  function Exec(s: State, steps: seq<Step>): State
    requires Run(s, steps)
    decreases |steps|
  {
    if steps == [] then s else Exec(Apply(s, steps[0]), steps[1..])
  }

  lemma {:induction false} RunKeepsInv(s: State, steps: seq<Step>)
    requires Inv(s) && Run(s, steps)
    ensures Inv(Exec(s, steps))
    decreases |steps|
  {
    if steps != [] {
      StepKeepsInv(s, steps[0]);
      RunKeepsInv(Apply(s, steps[0]), steps[1..]);
    }
  }

  /** The protocol invariant in every reachable state, in the protocol's own terms: outside the
      closing window the countdown is the number of unticked participants plus the ticks in flight,
      at least 1 when anyone participates and 1 when nobody does; inside it nobody is unticked. */
  lemma ReachableCountdown(steps: seq<Step>)
    requires Run(Init, steps)
    ensures var s := Exec(Init, steps);
            && s.registered == Participants(s)
            && (forall t :: 0 <= t < |s.threads| && !s.threads[t].blocked ==>
                  s.threads[t].phase == s.time || s.threads[t].phase == s.time + 1)
            && Closers(s) <= 1
            && (Closers(s) == 0 && 0 < Participants(s) ==>
                  && s.countdown == Sum(s.threads, Unticked(s.time)) + Sum(s.threads, InFlight())
                  && 1 <= s.countdown)
            && (Participants(s) == 0 ==> s.countdown == 1)
            && (Closers(s) == 1 ==>
                  forall t :: 0 <= t < |s.threads| && !s.threads[t].blocked ==>
                    s.threads[t].phase == s.time + 1 && s.threads[t].pc in {Idle, Last, Holding})
  {
    hide Inv, Run, Exec;
    InitOk();
    RunKeepsInv(Init, steps);
    InvOutside(Exec(Init, steps));
    if Closers(Exec(Init, steps)) == 1 { InvInside(Exec(Init, steps)); }
  }

  lemma InitOk()
    ensures Inv(Init)
  {
  }

  lemma InvOutside(s: State)
    requires Inv(s)
    ensures s.registered == Participants(s) && Closers(s) <= 1
    ensures forall t :: 0 <= t < |s.threads| && !s.threads[t].blocked ==>
      s.threads[t].phase == s.time || s.threads[t].phase == s.time + 1
    ensures Closers(s) == 0 && 0 < Participants(s) ==>
      s.countdown == Sum(s.threads, Unticked(s.time)) + Sum(s.threads, InFlight()) && 1 <= s.countdown
    ensures Participants(s) == 0 ==> s.countdown == 1
  {
    assert forall t :: 0 <= t < |s.threads| ==> ThreadOk(s.time, s.threads[t]);
    if Closers(s) == 1 {
      var c := SumWitness(s.threads, Closer());
      CountsAtLeast(s, c);
    }
  }

  lemma InvInside(s: State)
    requires Inv(s) && Closers(s) == 1
    ensures forall t :: 0 <= t < |s.threads| && !s.threads[t].blocked ==>
      s.threads[t].phase == s.time + 1 && s.threads[t].pc in {Idle, Last, Holding}
  {
    forall t | 0 <= t < |s.threads| && !s.threads[t].blocked
      ensures s.threads[t].phase == s.time + 1 && s.threads[t].pc in {Idle, Last, Holding}
    {
      CountsAtLeast(s, t);
      InvThread(s, t);
    }
  }

  lemma MatchStep(s: State, step: Step, t: nat)
    requires Inv(s) && Enabled(s, step) && t < |s.threads| && s.threads[t].pc == Matched && step != Bump(t)
    ensures var s' := Apply(s, step);
            Inv(s') && t < |s'.threads| && s'.threads[t].pc == Matched && s'.time == s.time == s'.threads[t].phase
  {
    hide Inv, LockFree;
    StepKeepsInv(s, step);
    InvThread(s, t);
    InvThread(Apply(s, step), t);
  }

  /** The unlocked comparison is stable: once a thread saw its phase equal to the clock, the two stay
      equal until the thread itself bumps its phase, whatever the others do. */
  lemma {:induction false} MatchIsStable(s: State, steps: seq<Step>, t: nat)
    requires Inv(s) && Run(s, steps)
    requires t < |s.threads| && s.threads[t].pc == Matched && Bump(t) !in steps
    ensures var s' := Exec(s, steps);
            t < |s'.threads| && s'.threads[t].pc == Matched && s'.time == s.time == s'.threads[t].phase
    decreases |steps|
  {
    assert ThreadOk(s.time, s.threads[t]);
    if steps != [] {
      assert steps[0] in steps;
      MatchStep(s, steps[0], t);
      MatchIsStable(Apply(s, steps[0]), steps[1..], t);
    }
  }

  /** What one step can do to the clock and to one thread's history. */
  lemma OneStep(s: State, step: Step, t: nat)
    requires Inv(s) && Enabled(s, step) && t < |s.threads|
    ensures var s' := Apply(s, step);
            && Inv(s') && t < |s'.threads| && s.time <= s'.time <= s.time + 1
            && var was, now := s.threads[t], s'.threads[t];
            && was.lastTick <= s.time && now.lastTick <= s'.time
            && (!was.blocked ==> was.phase == s.time || was.phase == s.time + 1)
            && (step != Bump(t) ==> now.ticks == was.ticks && now.lastTick == was.lastTick)
            && (step == Bump(t) ==>
                  now.ticks == was.ticks + 1 && now.lastTick == s.time == s'.time && was.lastTick < s.time)
            && (!was.blocked && step != Block(t) ==>
                  !now.blocked && now.ticks - was.ticks == now.phase - was.phase)
  {
    hide Inv, LockFree;
    StepKeepsInv(s, step);
    var s' := Apply(s, step);
    InvThread(s, t);
    InvThread(s', t);
  }

  lemma InvThread(s: State, t: nat)
    requires Inv(s) && t < |s.threads|
    ensures ThreadOk(s.time, s.threads[t])
  {
    hide Pending, Participants, Closers;
  }

  /** The clock never runs ahead of a participant by more than its one outstanding tick, and no root
      ticks twice in a period: after k effective ticks the clock has advanced at least k - 1 times.
      The root may block, resume, terminate and be reused in between. */
  lemma {:induction false} TicksNeedTime(s: State, steps: seq<Step>, t: nat)
    requires Inv(s) && Run(s, steps) && t < |s.threads|
    ensures var s' := Exec(s, steps);
            && t < |s'.threads| && s.time <= s'.time
            && s.threads[t].ticks <= s'.threads[t].ticks
            && s'.threads[t].ticks - s.threads[t].ticks <= s'.time - s.time + 1
  {
    TicksNeedTimeFrom(s, steps, t, s.time, s.threads[t].ticks);
  }

  lemma {:induction false} TicksNeedTimeFrom(s: State, steps: seq<Step>, t: nat, time0: int, ticks0: nat)
    requires Inv(s) && Run(s, steps) && t < |s.threads|
    requires time0 <= s.time && ticks0 <= s.threads[t].ticks
    requires s.threads[t].ticks == ticks0 || s.threads[t].ticks - ticks0 <= s.threads[t].lastTick - time0 + 1
    ensures var s' := Exec(s, steps);
            && t < |s'.threads| && time0 <= s'.time && ticks0 <= s'.threads[t].ticks
            && s'.threads[t].ticks - ticks0 <= s'.time - time0 + 1
    decreases |steps|
  {
    assert ThreadOk(s.time, s.threads[t]);
    if steps != [] {
      OneStep(s, steps[0], t);
      TicksNeedTimeFrom(Apply(s, steps[0]), steps[1..], t, time0, ticks0);
    }
  }

  lemma {:induction false} TimeNeverGoesBack(s: State, steps: seq<Step>)
    requires Run(s, steps)
    ensures s.time <= Exec(s, steps).time
    decreases |steps|
  {
    if steps != [] { TimeNeverGoesBack(Apply(s, steps[0]), steps[1..]); }
  }

  /** Two effective ticks of one root happen at different times. */
  lemma NoDoubleTick(s: State, steps: seq<Step>, t: nat)
    requires Inv(s) && Enabled(s, Bump(t)) && Run(Apply(s, Bump(t)), steps)
    requires Enabled(Exec(Apply(s, Bump(t)), steps), Bump(t))
    ensures s.time < Exec(Apply(s, Bump(t)), steps).time
  {
    var s1 := Apply(s, Bump(t));
    StepKeepsInv(s, Bump(t));
    var s2 := Exec(s1, steps);
    RunKeepsInv(s1, steps);
    LastTickGrows(s1, steps, t);
    assert ThreadOk(s2.time, s2.threads[t]);
  }

  lemma {:induction false} LastTickGrows(s: State, steps: seq<Step>, t: nat)
    requires Inv(s) && Run(s, steps) && t < |s.threads|
    ensures var s' := Exec(s, steps);
            t < |s'.threads| && s.threads[t].lastTick <= s'.threads[t].lastTick
    decreases |steps|
  {
    if steps != [] {
      OneStep(s, steps[0], t);
      LastTickGrows(Apply(s, steps[0]), steps[1..], t);
    }
  }

  /** A thread that participates throughout must tick for the clock to advance: k advances cost it at
      least k - 1 effective ticks. */
  lemma {:induction false} TimeNeedsTicks(s: State, steps: seq<Step>, u: nat)
    requires Inv(s) && Run(s, steps)
    requires u < |s.threads| && !s.threads[u].blocked && Block(u) !in steps
    ensures var s' := Exec(s, steps);
            && u < |s'.threads| && !s'.threads[u].blocked
            && s'.threads[u].ticks - s.threads[u].ticks == s'.threads[u].phase - s.threads[u].phase
            && s'.time - s.time - 1 <= s'.threads[u].ticks - s.threads[u].ticks
    decreases |steps|
  {
    PhaseFollowsTicks(s, steps, u);
    RunKeepsInv(s, steps);
    var s' := Exec(s, steps);
    assert ThreadOk(s.time, s.threads[u]) && ThreadOk(s'.time, s'.threads[u]);
  }

  lemma {:induction false} PhaseFollowsTicks(s: State, steps: seq<Step>, u: nat)
    requires Inv(s) && Run(s, steps)
    requires u < |s.threads| && !s.threads[u].blocked && Block(u) !in steps
    ensures var s' := Exec(s, steps);
            && u < |s'.threads| && !s'.threads[u].blocked
            && s'.threads[u].ticks - s.threads[u].ticks == s'.threads[u].phase - s.threads[u].phase
    decreases |steps|
  {
    if steps != [] {
      assert steps[0] in steps;
      OneStep(s, steps[0], u);
      PhaseFollowsTicks(Apply(s, steps[0]), steps[1..], u);
    }
  }

  predicate FixedParticipants(steps: seq<Step>) {
    forall i :: 0 <= i < |steps| ==> !steps[i].Block? && !steps[i].Resume? && !steps[i].Create?
  }

  /** Progress: once every participant of a fixed set has made and finished a global tick call,
      the clock has advanced. */
  lemma TimeAdvances(s: State, steps: seq<Step>)
    requires Inv(s) && Run(s, steps) && FixedParticipants(steps) && 0 < Participants(s)
    requires forall t :: 0 <= t < |s.threads| && !s.threads[t].blocked ==> Compare(t) in steps
    requires forall t :: 0 <= t < |Exec(s, steps).threads| ==> Exec(s, steps).threads[t].pc == Idle
    ensures s.time < Exec(s, steps).time
  {
    var s' := Exec(s, steps);
    RunKeepsInv(s, steps);
    SameParticipants(s, steps);
    if Closers(s') > 0 { var c := SumWitness(s'.threads, Closer()); }
    if Sum(s'.threads, InFlight()) > 0 { var c := SumWitness(s'.threads, InFlight()); }
    var w := SumWitness(s.threads, Participant());
    TicksNeedTime(s, steps, w);
    if s'.time == s.time {
      SumPointwise(s.threads, Participant(), s'.threads, Participant());
      var u := SumWitness(s'.threads, Unticked(s'.time));
      ComparedIsDone(s, steps, u);
    }
  }

  lemma {:induction false} SameParticipants(s: State, steps: seq<Step>)
    requires Run(s, steps) && FixedParticipants(steps)
    ensures var s' := Exec(s, steps);
            && |s'.threads| == |s.threads|
            && forall t :: 0 <= t < |s.threads| ==> s'.threads[t].blocked == s.threads[t].blocked
    decreases |steps|
  {
    if steps != [] { SameParticipants(Apply(s, steps[0]), steps[1..]); }
  }

  /** While the clock stands still, a thread that compared is ticked or about to tick. */
  predicate Done(s: State, t: nat) {
    t < |s.threads| && !s.threads[t].blocked && (s.threads[t].pc == Matched || s.threads[t].phase == s.time + 1)
  }

  lemma {:induction false} DoneStays(s: State, steps: seq<Step>, t: nat)
    requires Inv(s) && Run(s, steps) && FixedParticipants(steps)
    requires Done(s, t)
    ensures s.time <= Exec(s, steps).time
    ensures Exec(s, steps).time == s.time ==> Done(Exec(s, steps), t)
    decreases |steps|
  {
    hide Inv, LockFree;
    if steps != [] {
      StepKeepsInv(s, steps[0]);
      InvThread(s, t);
      TicksNeedTime(Apply(s, steps[0]), steps[1..], t);
      if Apply(s, steps[0]).time == s.time { DoneStays(Apply(s, steps[0]), steps[1..], t); }
    }
  }

  lemma {:induction false} ComparedIsDone(s: State, steps: seq<Step>, t: nat)
    requires Inv(s) && Run(s, steps) && FixedParticipants(steps)
    requires t < |s.threads| && !s.threads[t].blocked && Compare(t) in steps
    ensures Exec(s, steps).time == s.time ==> Done(Exec(s, steps), t)
    decreases |steps|
  {
    hide Inv, LockFree;
    var s1 := Apply(s, steps[0]);
    StepKeepsInv(s, steps[0]);
    TicksNeedTime(s1, steps[1..], t);
    InvThread(s, t);
    if s1.time == s.time {
      if steps[0] == Compare(t) { DoneStays(s1, steps[1..], t); } else { ComparedIsDone(s1, steps[1..], t); }
    }
  }
}
