/** The protocol code itself, as one thread executes it: blocking, resuming and a global tick change
    the shared variables exactly by the steps of module GlobalTime. A global tick is shown here for a
    thread that is not interrupted; GlobalTime interleaves the same steps arbitrarily. */
module GlobalClock {
  import opened GlobalTime

  class Clock {
    var time: int
    var registered: int
    var countdown: int
    var threads: seq<Thread>

    ghost function State(): GlobalTime.State
      reads this
    {
      GlobalTime.State(time, registered, countdown, threads)
    }

    constructor ()
      ensures State() == Init
    {
      time, registered, countdown, threads := 0, 0, 1, [];
    }

    method NewDescriptorRoot() returns (t: nat)
      modifies this
      ensures t == old(|threads|) && State() == Apply(old(State()), Create)
    {
      t := |threads|;
      threads := threads + [Thread(0, true, Idle, 0, -1)];
    }

    method ScmBlockThread(t: nat)
      requires t < |threads| && threads[t].pc == Idle && LockFree(State())
      modifies this
      ensures State() == if old(threads)[t].blocked then old(State()) else Apply(old(State()), Block(t))
    {
      if threads[t].blocked {
        return;
      }
      registered := registered - 1;
      if time == threads[t].phase {
        countdown := countdown - 1;
        if countdown == 0 {
          if registered == 0 {
            countdown := 1;
          } else {
            countdown := registered;
          }
          time := time + 1;
        }
      }
      threads := threads[t := threads[t].(blocked := true)];
    }

    method ScmResumeThread(t: nat)
      requires t < |threads| && threads[t].pc == Idle && LockFree(State())
      modifies this
      ensures State() == if old(threads)[t].blocked then Apply(old(State()), Resume(t)) else old(State())
    {
      if !threads[t].blocked {
        return;
      }
      if registered == 0 {
        threads := threads[t := threads[t].(phase := time)];
      } else {
        threads := threads[t := threads[t].(phase := time + 1)];
      }
      registered := registered + 1;
      threads := threads[t := threads[t].(blocked := false)];
    }

    /** Returns whether the tick was the thread's first in this period, and the steps it took. */
    method ScmGlobalTick(t: nat) returns (effective: bool, ghost steps: seq<Step>)
      requires t < |threads| && threads[t].pc == Idle && LockFree(State())
      modifies this
      ensures effective <==> !old(threads)[t].blocked && old(time) == old(threads)[t].phase
      ensures Run(old(State()), steps) && State() == Exec(old(State()), steps)
      ensures steps == (if old(threads)[t].blocked then []
                        else if !effective then [Compare(t)]
                        else if old(countdown) != 1 then [Compare(t), Bump(t), Decrement(t)]
                        else [Compare(t), Bump(t), Decrement(t), Reset(t), Advance(t)])
    {
      ghost var s := State();
      effective := false;
      if threads[t].blocked {
        steps := [];
        return;
      }
      if time == threads[t].phase {
        effective := true;
        threads := threads[t := threads[t].(phase := threads[t].phase + 1)];
        threads := threads[t := threads[t].(ticks := threads[t].ticks + 1, lastTick := time)];
        countdown := countdown - 1;
        if countdown == 0 {
          countdown := registered;
          time := time + 1;
        }
        TickSteps(s, t);
        steps := if s.countdown != 1 then [Compare(t), Bump(t), Decrement(t)]
                 else [Compare(t), Bump(t), Decrement(t), Reset(t), Advance(t)];
        assert threads == s.threads[t := Ticked(s, t)];
      } else {
        steps := [Compare(t)];
        OneMore(s, Compare(t), []);
      }
    }
  }

  lemma OneMore(s: GlobalTime.State, step: Step, rest: seq<Step>)
    requires Enabled(s, step) && Run(Apply(s, step), rest)
    ensures Run(s, [step] + rest) && Exec(s, [step] + rest) == Exec(Apply(s, step), rest)
  {
    assert ([step] + rest)[1..] == rest;
  }

  function Ticked(s: GlobalTime.State, t: nat): Thread
    requires t < |s.threads|
  {
    var th := s.threads[t];
    th.(phase := th.phase + 1, ticks := th.ticks + 1, lastTick := s.time)
  }

  /** Reset and advance of the thread whose decrement reached zero. */
  lemma ClosingSteps(s: GlobalTime.State, t: nat)
    requires t < |s.threads| && s.threads[t].pc == Last && LockFree(s)
    ensures Run(s, [Reset(t), Advance(t)])
    ensures Exec(s, [Reset(t), Advance(t)]) ==
            s.(threads := s.threads[t := s.threads[t].(pc := Idle)], countdown := s.registered, time := s.time + 1)
  {
    var s1 := Apply(s, Reset(t));
    OneMore(s1, Advance(t), []);
    OneMore(s, Reset(t), [Advance(t)]);
    assert [Reset(t)] + [Advance(t)] == [Reset(t), Advance(t)];
    assert s1.threads[t := s1.threads[t].(pc := Idle)] == s.threads[t := s.threads[t].(pc := Idle)];
  }

  /** The state after compare, bump and decrement. */
  function Decremented(s: GlobalTime.State, t: nat): GlobalTime.State
    requires t < |s.threads|
  {
    s.(threads := s.threads[t := Ticked(s, t).(pc := if s.countdown == 1 then Last else Idle)],
       countdown := s.countdown - 1)
  }

  lemma OpeningSteps(s: GlobalTime.State, t: nat, rest: seq<Step>)
    requires t < |s.threads| && !s.threads[t].blocked && s.threads[t].pc == Idle && s.threads[t].phase == s.time
    requires Run(Decremented(s, t), rest)
    ensures Run(s, [Compare(t), Bump(t), Decrement(t)] + rest)
    ensures Exec(s, [Compare(t), Bump(t), Decrement(t)] + rest) == Exec(Decremented(s, t), rest)
  {
    var s1 := Apply(s, Compare(t));
    var s2 := Apply(s1, Bump(t));
    assert Apply(s2, Decrement(t)).threads == Decremented(s, t).threads;
    OneMore(s2, Decrement(t), rest);
    OneMore(s1, Bump(t), [Decrement(t)] + rest);
    OneMore(s, Compare(t), [Bump(t)] + ([Decrement(t)] + rest));
    assert [Compare(t)] + ([Bump(t)] + ([Decrement(t)] + rest)) == [Compare(t), Bump(t), Decrement(t)] + rest;
  }

  /** What the steps of an uninterrupted effective tick add up to. */
  lemma TickSteps(s: GlobalTime.State, t: nat)
    requires t < |s.threads| && !s.threads[t].blocked && s.threads[t].pc == Idle && s.threads[t].phase == s.time
    requires LockFree(s)
    ensures var steps := if s.countdown != 1 then [Compare(t), Bump(t), Decrement(t)]
                         else [Compare(t), Bump(t), Decrement(t), Reset(t), Advance(t)];
            && Run(s, steps)
            && Exec(s, steps) ==
               if s.countdown != 1 then s.(threads := s.threads[t := Ticked(s, t)], countdown := s.countdown - 1)
               else s.(threads := s.threads[t := Ticked(s, t)], countdown := s.registered, time := s.time + 1)
  {
    hide Run, Exec, LockFree;
    var opening, s1 := [Compare(t), Bump(t), Decrement(t)], Decremented(s, t);
    if s.countdown != 1 {
      NoSteps(s1);
      OpeningSteps(s, t, []);
      assert opening + [] == opening;
    } else {
      LockStaysFree(s, t);
      ClosingSteps(s1, t);
      OpeningSteps(s, t, [Reset(t), Advance(t)]);
      assert opening + [Reset(t), Advance(t)] == [Compare(t), Bump(t), Decrement(t), Reset(t), Advance(t)];
      assert s1.threads[t := s1.threads[t].(pc := Idle)] == s.threads[t := Ticked(s, t)];
    }
  }

  lemma NoSteps(s: GlobalTime.State)
    ensures Run(s, []) && Exec(s, []) == s
  {
  }

  lemma LockStaysFree(s: GlobalTime.State, t: nat)
    requires t < |s.threads| && LockFree(s)
    ensures LockFree(Decremented(s, t))
  {
  }
}
