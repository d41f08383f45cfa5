/** The guarantee of a global refresh holds over every run from the initial state if and only if the
    extension is below the maximum. For the other direction this module gives a whole run: two threads
    start, the first period passes, an object is allocated and refreshed with the maximal extension,
    and the next tick of the refreshing thread frees it in the same period. */
module MaximalExtension {
  import opened Config
  import opened Rings
  import opened Roots
  import opened Lifetimes
  import opened Guarantees
  import G = GlobalTime

  // ---------------------------------------------------------------- a run from the initial state

  ghost predicate Reaches(steps: seq<Step>, s: State) {
    Run(Lifetimes.Init, steps) && Exec(Lifetimes.Init, steps) == s && Inv(s) && Shaped(s)
  }

  lemma {:induction false} RunAppend(s: State, steps: seq<Step>, step: Step)
    requires Run(s, steps) && Inv(s) && Shaped(Exec(s, steps)) && Enabled(Exec(s, steps), step)
    ensures Run(s, steps + [step])
    ensures Exec(s, steps + [step]) == Apply(Exec(s, steps), step)
    decreases |steps|
  {
    hide Inv, Enabled, Apply;
    if steps == [] {
      StepKeepsShape(s, step);
      assert [step][1..] == [];
    } else {
      StepKeepsShape(s, steps[0]);
      RunAppend(Apply(s, steps[0]), steps[1..], step);
      assert (steps + [step])[1..] == steps[1..] + [step];
    }
  }

  lemma ReachStep(steps: seq<Step>, s: State, step: Step)
    requires Reaches(steps, s) && Enabled(s, step)
    ensures Reaches(steps + [step], Apply(s, step))
  {
    hide Inv, Enabled, Apply;
    InitOk();
    RunAppend(Lifetimes.Init, steps, step);
    StepKeepsShape(s, step);
  }

  /** A step of the protocol that neither creates a root nor rotates a ring changes nothing else. */
  lemma ReachProtocol(steps: seq<Step>, s: State, g: G.Step) returns (s': State)
    requires Reaches(steps, s) && G.Enabled(s.global, g) && !g.Create? && !g.Bump? && s.locals[g.t].doing == Ready
    ensures s' == s.(global := G.Apply(s.global, g)) && Reaches(steps + [Protocol(g)], s')
  {
    hide Reaches, Shaped, G.Apply;
    ReachedShape(steps, s);
    ReachStep(steps, s, Protocol(g));
    s' := Apply(s, Protocol(g));
  }

  lemma ReachedShape(steps: seq<Step>, s: State)
    requires Reaches(steps, s)
    ensures Shaped(s)
  {
  }

  const STARTED: seq<Step> :=
    [Protocol(G.Create), Protocol(G.Create), Protocol(G.Resume(0)), Protocol(G.Resume(1))]

  const FIRST_PERIOD: seq<Step> :=
    [Protocol(G.Compare(0)), Protocol(G.Bump(0)), Protocol(G.Decrement(0)),
     Protocol(G.Reset(0)), Protocol(G.Advance(0))]

  /** No object is allocated, and both threads are between calls with nothing to collect. */
  ghost predicate NoObjects(s: State) {
    && |s.locals| == 2 && s.locals[0].doing == s.locals[1].doing == Ready
    && forall x :: x in s.heap ==> x.Region?
  }

  lemma TwoThreadsStart() returns (s: State)
    ensures Reaches(STARTED, s) && NoObjects(s) && s.locals[0] == NewLocal()
    ensures s.global == G.State(0, 2, 1, [G.Thread(0, false, G.Idle, 0, -1), G.Thread(1, false, G.Idle, 0, -1)])
  {
    hide Reaches, Shaped;
    var create := Protocol(G.Create);
    var s2 := TwoRoots();
    var s3 := ReachProtocol([create] + [create], s2, G.Resume(0));
    s := ReachProtocol([create] + [create] + [Protocol(G.Resume(0))], s3, G.Resume(1));
    assert [create] + [create] + [Protocol(G.Resume(0))] + [Protocol(G.Resume(1))] == STARTED;
  }

  lemma TwoRoots() returns (s: State)
    ensures Reaches([Protocol(G.Create)] + [Protocol(G.Create)], s) && NoObjects(s) && s.locals[0] == NewLocal()
    ensures s.global == G.State(0, 0, 1, [G.NewThread, G.NewThread])
  {
    hide Inv, RootOk;
    InitOk();
    var create := Protocol(G.Create);
    ReachStep([], Lifetimes.Init, create);
    assert [] + [create] == [create];
    var s1 := Apply(Lifetimes.Init, create);
    ReachStep([create], s1, create);
    s := Apply(s1, create);
  }

  lemma FirstPeriodPasses() returns (s: State)
    ensures Reaches(STARTED + FIRST_PERIOD, s) && NoObjects(s)
    ensures Usable(NewLocal(), GLOBAL) && s.locals[0] == Rotate(NewLocal())
    ensures s.global == G.State(1, 2, 2, [G.Thread(1, false, G.Idle, 1, 0), G.Thread(1, false, G.Idle, 0, -1)])
  {
    hide Reaches, Shaped, Rotate, Usable;
    var s0 := TwoThreadsStart();
    NewUsable();
    var s1 := ReachProtocol(STARTED, s0, G.Compare(0));
    var steps := STARTED + [Protocol(G.Compare(0))];
    var s2 := FirstBump(steps, s1);
    steps := steps + [Protocol(G.Bump(0))];
    var s3 := ReachProtocol(steps, s2, G.Decrement(0));
    steps := steps + [Protocol(G.Decrement(0))];
    var s4 := ReachProtocol(steps, s3, G.Reset(0));
    steps := steps + [Protocol(G.Reset(0))];
    s := ReachProtocol(steps, s4, G.Advance(0));
    assert steps + [Protocol(G.Advance(0))] == STARTED + FIRST_PERIOD;
  }

  lemma FirstBump(steps: seq<Step>, s: State) returns (s': State)
    requires Reaches(steps, s) && NoObjects(s) && s.locals[0] == NewLocal() && Usable(NewLocal(), GLOBAL)
    requires |s.global.threads| == 2 && s.global.threads[0].pc == G.Matched
    ensures Reaches(steps + [Protocol(G.Bump(0))], s') && NoObjects(s') && s'.locals[0] == Rotate(NewLocal())
    ensures s'.global == G.Apply(s.global, G.Bump(0))
  {
    hide Inv, RootOk;
    ReachStep(steps, s, Protocol(G.Bump(0)));
    s' := Apply(s, Protocol(G.Bump(0)));
  }

  lemma NewUsable()
    ensures RootOk(NewLocal().root) && Usable(NewLocal(), GLOBAL)
  {
    FreshOk<Target>();
  }

  lemma ObjectAllocated(id: nat, given: nat) returns (s: State)
    ensures Reaches(STARTED + FIRST_PERIOD + [Malloc(id)], s)
    ensures Enabled(s, Refresh(0, Object(id), GLOBAL, given)) && Dc(s.heap, Object(id)) == 0
    ensures AboutToTick(s, 0) && s.global.time == 1
    ensures s.locals[0].root.obj.expired == [] && Due(s.locals[0].root.obj.rings[GLOBAL], 0) == []
  {
    hide Inv, Rotate;
    var s0 := FirstPeriodPasses();
    NothingWaits();
    ReachStep(STARTED + FIRST_PERIOD, s0, Malloc(id));
    s := Apply(s0, Malloc(id));
  }

  /** The run that reaches the premises of `MaximalExtensionFreesEarly`. */
  lemma MaximalRefreshReached(id: nat, given: nat) returns (before: State, s: State)
    ensures Reaches(STARTED + FIRST_PERIOD + [Malloc(id)], before) && before.global == s.global
    ensures Enabled(before, Refresh(0, Object(id), GLOBAL, given)) && Dc(before.heap, Object(id)) == 0
    ensures s == Apply(before, Refresh(0, Object(id), GLOBAL, given)) && Inv(s) && Shaped(s)
    ensures Enabled(s, Place(0)) && s.locals[0].doing == Placing(Object(id), GLOBAL, Expiration(GLOBAL, given))
    ensures Dc(s.heap, Object(id)) == 1 && AboutToTick(s, 0)
    ensures s.locals[0].root.obj.expired == [] && Due(s.locals[0].root.obj.rings[GLOBAL], 0) == []
  {
    hide Inv, RootOk, Due;
    before := ObjectAllocated(id, given);
    StepKeepsShape(before, Refresh(0, Object(id), GLOBAL, given));
    s := Apply(before, Refresh(0, Object(id), GLOBAL, given));
  }

  lemma NothingWaits()
    ensures Usable(NewLocal(), GLOBAL)
    ensures var l := Rotate(NewLocal());
            && Usable(l, GLOBAL) && l.doing == Ready
            && l.root.obj.expired == [] && Due(l.root.obj.rings[GLOBAL], 0) == []
  {
    NewUsable();
    AdvanceKeepsOk(NewLocal().root, GLOBAL);
    AdvanceDue(NewLocal().root.obj.rings[GLOBAL]);
    var r := NewLocal().root.obj.rings[GLOBAL];
    assert Due(r, 0) == [] && Due(r, 1) == [];
  }

  // ---------------------------------------------------------------- exactly when the guarantee holds

  /** A run from the initial state: `before`, then thread `t` refreshes `x` globally, `others` run
      between its counting and its placing, and `after` follows. */
  datatype Story = Story(before: seq<Step>, t: nat, x: Target, others: seq<Step>, after: seq<Step>)

  predicate Asked(given: nat, y: Story) {
    && Run(Lifetimes.Init, y.before)
    && var s := Exec(Lifetimes.Init, y.before);
    && Shaped(s) && Enabled(s, Refresh(y.t, y.x, GLOBAL, given)) && Dc(s.heap, y.x) != INT_MAX
  }

  function Counting(given: nat, y: Story): State
    requires Asked(given, y)
  {
    Apply(Exec(Lifetimes.Init, y.before), Refresh(y.t, y.x, GLOBAL, given))
  }

  predicate Told(given: nat, y: Story) {
    && Asked(given, y) && Run(Counting(given, y), y.others) && Place(y.t) !in y.others
    && var s := Exec(Counting(given, y), y.others);
    && Shaped(s) && Enabled(s, Place(y.t)) && Run(Apply(s, Place(y.t)), y.after)
  }

  function End(given: nat, y: Story): State
    requires Told(given, y)
  {
    Exec(Apply(Exec(Counting(given, y), y.others), Place(y.t)), y.after)
  }

  /** What the documentation promises: e + 2 advances of the global time, and e + 1 effective ticks of
      every thread that takes part throughout, e being the extension after clamping. */
  ghost predicate Lasted(e: nat, g: G.State, g': G.State, y: Story) {
    && g'.time >= g.time + e + 2
    && forall u :: 0 <= u < |g.threads| && !g.threads[u].blocked
                   && Protocol(G.Block(u)) !in y.others && Protocol(G.Block(u)) !in y.after ==>
         u < |g'.threads| && g'.threads[u].ticks >= g.threads[u].ticks + e + 1
  }

  /** In every run, by the time the target is gone the promise has been kept. */
  ghost predicate Honoured(given: nat) {
    forall y: Story :: Told(given, y) && Gone(End(given, y), y.x) ==>
      Lasted(CheckExtension(given), Exec(Lifetimes.Init, y.before).global, End(given, y).global, y)
  }

  /** The library keeps its promise for a global refresh over all runs of all threads if and only if the
      extension is below the maximum. */
  lemma GlobalGuaranteeIff(given: nat)
    ensures Honoured(given) <==> given < MAX_EXTENSION
  {
    hide Gone, Lasted, Enabled, Apply, Shaped;
    if given < MAX_EXTENSION {
      forall y: Story | Told(given, y) && Gone(End(given, y), y.x)
        ensures Lasted(CheckExtension(given), Exec(Lifetimes.Init, y.before).global, End(given, y).global, y)
      {
        BelowMaximum(given, y);
      }
    } else {
      var y := AtMaximum(given);
    }
  }

  lemma BelowMaximum(given: nat, y: Story)
    requires given < MAX_EXTENSION && Told(given, y) && Gone(End(given, y), y.x)
    ensures Lasted(CheckExtension(given), Exec(Lifetimes.Init, y.before).global, End(given, y).global, y)
  {
    hide Inv, Gone, Enabled, Apply;
    InitOk();
    RunKeepsInv(Lifetimes.Init, y.before);
    var s := Exec(Lifetimes.Init, y.before);
    GlobalRefreshLifetime(s, y.t, y.x, given, y.others, y.after);
  }

  lemma AtMaximum(given: nat) returns (y: Story)
    requires given >= MAX_EXTENSION
    ensures Told(given, y) && Gone(End(given, y), y.x)
    ensures End(given, y).global.time == Exec(Lifetimes.Init, y.before).global.time
    ensures !Lasted(CheckExtension(given), Exec(Lifetimes.Init, y.before).global, End(given, y).global, y)
  {
    hide Inv, Enabled, Apply, RootOk, Due;
    var before, s := MaximalRefreshReached(0, given);
    MaximalExtensionFreesEarly(s, 0, Object(0), given);
    y := Story(STARTED + FIRST_PERIOD + [Malloc(0)], 0, Object(0), [], EarlySteps(0));
    assert Counting(given, y) == s && Exec(s, []) == s;
  }
}
