/** How far the incremental cleanup of zombie buffers gets when a thread only ticks its base clock.
    After every tick the thread may collect any number of expired descriptors, so both lazy and
    eager collection are covered. */
module ZombieCleanup {
  import opened Config
  import opened Rings
  import opened Roots

  /** Clocks other than the base clock. */
  const OTHERS: nat := MAX_CLOCKS - 1

  function IdleTick<T>(r: Root<T>, n: nat, m: nat): (r': Root<T>)
    requires RootOk(r)
    ensures RootOk(r')
  {
    TickKeepsOk(r, 0);
    Collect(TickClock(r, 0), n, m)
  }

  /** One tick of clock 0 per entry; the entry says how many descriptors of each kind are collected. */
  function IdleTicks<T>(r: Root<T>, collections: seq<(nat, nat)>): (r': Root<T>)
    requires RootOk(r)
    ensures RootOk(r')
    decreases |collections|
  {
    if collections == [] then r
    else IdleTicks(IdleTick(r, collections[0].0, collections[0].1), collections[1..])
  }

  /** Steps of the round-robin index from `a` to `z`. */
  function Dist(a: nat, z: nat): (d: nat)
    requires 1 <= a < MAX_CLOCKS && 1 <= z < MAX_CLOCKS
    ensures d < OTHERS
  {
    if z >= a then z - a else z + OTHERS - a
  }

  predicate AllZombies<T>(r: Root<T>)
    requires RootOk(r)
  {
    forall c :: 1 <= c < MAX_CLOCKS ==> IsZombie(r, c)
  }

  /** Every buffer from the round-robin index up to and including `z` is a zombie. */
  predicate ZombiesUpTo<T>(r: Root<T>, z: nat)
    requires RootOk(r) && 1 <= z < MAX_CLOCKS
  {
    forall c :: 1 <= c < MAX_CLOCKS && Dist(r.roundRobin, c) <= Dist(r.roundRobin, z) ==> IsZombie(r, c)
  }

  /** How many of the ticks with number d, d + OTHERS, d + 2*OTHERS, ... fall among the first m. */
  function Visits(d: nat, m: int): nat
    requires OTHERS > 0
    decreases if m < 0 then 0 else m
  {
    if m <= d then 0 else 1 + Visits(d, m - OTHERS)
  }

  /** How often m ticks of the base clock rotate buffer `z`. */
  function Cleanings<T>(r: Root<T>, z: nat, m: nat): nat
    requires RootOk(r) && 1 <= z < MAX_CLOCKS
  {
    if AllZombies(r) then Visits(Dist(r.roundRobin, z), m)
    else if ZombiesUpTo(r, z) && Dist(r.roundRobin, z) < m then 1 else 0
  }

  lemma IdleTickEffect<T>(r: Root<T>, n: nat, m: nat, z: nat)
    requires RootOk(r) && 1 <= z < MAX_CLOCKS
    ensures var r' := IdleTick(r, n, m); var rr := r.roundRobin; var hit := IsZombie(r, rr);
            && r'.roundRobin == (if hit then Next(rr) else rr)
            && IsZombie(r', z) == IsZombie(r, z)
            && Used(r'.obj.rings[z]) == Used(r.obj.rings[z])
            && (z == rr && hit ==>
                  && CanAdvance(r, z)
                  && r'.obj.rings[z] == Advance(r.obj.rings[z])
                  && r'.reg.rings[z] == Advance(r.reg.rings[z]))
            && (!(z == rr && hit) ==> r'.obj.rings[z] == r.obj.rings[z] && r'.reg.rings[z] == r.reg.rings[z])
  {
    AdvanceKeepsOk(r, 0);
  }

  lemma {:induction false} VisitsShift(d: nat, m: nat)
    requires d < OTHERS && m > 0
    ensures d > 0 ==> Visits(d, m) == Visits(d - 1, m - 1)
    ensures d == 0 ==> Visits(d, m) == 1 + Visits(OTHERS - 1, m - 1)
    decreases m
  {
    if m > OTHERS { VisitsShift(d, m - OTHERS); }
  }

  lemma {:induction false} AdvanceFirst<T>(r: Ring<T>, n: nat)
    requires Used(r)
    ensures Used(Advance(r)) && AdvanceTimes(Advance(r), n) == AdvanceTimes(r, n + 1)
  {
    if n > 0 { AdvanceFirst(r, n - 1); }
  }

  lemma ZombieKinds<T>(r: Root<T>, r': Root<T>, z: nat)
    requires RootOk(r) && RootOk(r') && 1 <= z < MAX_CLOCKS
    requires forall c :: 1 <= c < MAX_CLOCKS ==> IsZombie(r', c) == IsZombie(r, c)
    requires r'.roundRobin == if IsZombie(r, r.roundRobin) then Next(r.roundRobin) else r.roundRobin
    ensures AllZombies(r') == AllZombies(r)
    ensures z != r.roundRobin && IsZombie(r, r.roundRobin) ==> ZombiesUpTo(r', z) == ZombiesUpTo(r, z)
    ensures z == r.roundRobin && IsZombie(r, z) ==> ZombiesUpTo(r, z) && ZombiesUpTo(r', z) == AllZombies(r)
    ensures !IsZombie(r, r.roundRobin) ==> !ZombiesUpTo(r, z) && !ZombiesUpTo(r', z)
  {
    var rr := r.roundRobin;
    assert Dist(rr, rr) == 0;
    if IsZombie(r, rr) {
      forall c | 1 <= c < MAX_CLOCKS
        ensures Dist(r'.roundRobin, c) == if c == rr then OTHERS - 1 else Dist(rr, c) - 1
      {
      }
      if z != rr {
        assert ZombiesUpTo(r', z) ==> ZombiesUpTo(r, z);
      }
    }
  }

  /** One tick accounts for one cleaning if the index stood on `z`, and leaves the rest to come. */
  lemma CleaningsStep<T>(r: Root<T>, n: nat, m: nat, z: nat, ticks: nat)
    requires RootOk(r) && 1 <= z < MAX_CLOCKS && ticks > 0
    ensures Cleanings(r, z, ticks) ==
            (if z == r.roundRobin && IsZombie(r, z) then 1 else 0) + Cleanings(IdleTick(r, n, m), z, ticks - 1)
  {
    hide IdleTick, Valid, SameIndices, ZombiesUpTo;
    var r1 := IdleTick(r, n, m);
    forall c | 1 <= c < MAX_CLOCKS
      ensures IsZombie(r1, c) == IsZombie(r, c)
    {
      IdleTickEffect(r, n, m, c);
    }
    IdleTickEffect(r, n, m, z);
    ZombieKinds(r, r1, z);
    VisitsShift(Dist(r.roundRobin, z), ticks);
  }

  /** Exactly how often each buffer is rotated: if every other clock is a zombie, once per round;
      otherwise the index stops for good at the first buffer that is no zombie, the buffers it
      passed were rotated once and no other buffer is ever touched. */
  lemma {:induction false} CleanupExact<T>(r: Root<T>, collections: seq<(nat, nat)>, z: nat)
    requires RootOk(r) && 1 <= z < MAX_CLOCKS
    ensures var r' := IdleTicks(r, collections); var k := Cleanings(r, z, |collections|);
            && (k > 0 ==> CanAdvance(r, z))
            && r'.obj.rings[z] == AdvanceTimes(r.obj.rings[z], k)
            && r'.reg.rings[z] == AdvanceTimes(r.reg.rings[z], k)
    decreases |collections|
  {
    hide Cleanings, IdleTick, Valid, SameIndices;
    if collections != [] {
      var n, m := collections[0].0, collections[0].1;
      var r1 := IdleTick(r, n, m);
      CleaningsStep(r, n, m, z, |collections|);
      IdleTickEffect(r, n, m, z);
      var k := Cleanings(r1, z, |collections| - 1);
      CleanupExact(r1, collections[1..], z);
      if z == r.roundRobin && IsZombie(r, z) {
        AdvanceFirst(r.obj.rings[z], k);
        AdvanceFirst(r.reg.rings[z], k);
      }
    } else {
      CleaningsNone(r, z);
    }
  }

  lemma CleaningsNone<T>(r: Root<T>, z: nat)
    requires RootOk(r) && 1 <= z < MAX_CLOCKS
    ensures Cleanings(r, z, 0) == 0
  {
  }

  // ---------------------------------------------------------------- when a zombie gets emptied

  predicate NothingDue<T>(r: Ring<T>, from: nat) {
    forall k :: from <= k < |r.slots| ==> |Due(r, k)| == 0
  }

  lemma {:induction false} AdvanceTimesDue<T>(r: Ring<T>, n: nat, k: nat)
    requires Used(r) && k < |r.slots|
    ensures Due(AdvanceTimes(r, n), k) == if k + n < |r.slots| then Due(r, k + n) else []
  {
    if n > 0 {
      AdvanceDue(AdvanceTimes(r, n - 1));
      if k + 1 < |r.slots| { AdvanceTimesDue(r, n - 1, k + 1); }
    }
  }

  lemma EmptyAfter<T>(r: Ring<T>, n: nat)
    requires Used(r)
    ensures NothingDue(AdvanceTimes(r, n), 0) <==> NothingDue(r, n)
  {
    var r' := AdvanceTimes(r, n);
    forall k | 0 <= k < |r.slots|
      ensures Due(r', k) == if k + n < |r.slots| then Due(r, k + n) else []
    {
      AdvanceTimesDue(r, n, k);
    }
    forall k | n <= k < |r.slots| && NothingDue(r', 0)
      ensures |Due(r, k)| == 0
    {
      assert |Due(r', k - n)| == 0;
    }
  }

  lemma {:induction false} EnoughVisits(d: nat, m: int, rounds: nat)
    requires d < OTHERS && m >= rounds * OTHERS
    ensures Visits(d, m) >= rounds
    decreases rounds
  {
    if rounds > 0 {
      assert rounds * OTHERS == (rounds - 1) * OTHERS + OTHERS;
      Product(rounds, OTHERS);
      EnoughVisits(d, m - OTHERS, rounds - 1);
    }
  }

  /** After (MAX_CLOCKS-1) * (MAX_EXTENSION+1) ticks of the base clock a zombie buffer has been moved
      to the expired lists completely if and only if all other clocks are zombies too, or it held
      nothing, or the index reached it once and everything it held was due at the next advance. */
  lemma CleanedIff<T>(r: Root<T>, collections: seq<(nat, nat)>, z: nat)
    requires RootOk(r) && 1 <= z < MAX_CLOCKS && IsZombie(r, z)
    requires |collections| >= LOCAL_SLOTS * OTHERS
    ensures NothingDue(IdleTicks(r, collections).obj.rings[z], 0) <==>
            || AllZombies(r)
            || NothingDue(r.obj.rings[z], 0)
            || (ZombiesUpTo(r, z) && NothingDue(r.obj.rings[z], 1))
    ensures NothingDue(IdleTicks(r, collections).reg.rings[z], 0) <==>
            || AllZombies(r)
            || NothingDue(r.reg.rings[z], 0)
            || (ZombiesUpTo(r, z) && NothingDue(r.reg.rings[z], 1))
  {
    CleanupExact(r, collections, z);
    var d, k := Dist(r.roundRobin, z), Cleanings(r, z, |collections|);
    Product(LOCAL_SLOTS, OTHERS);
    if AllZombies(r) { EnoughVisits(d, |collections|, LOCAL_SLOTS); }
    EmptyAfter(r.obj.rings[z], k);
    EmptyAfter(r.reg.rings[z], k);
  }

  // ---------------------------------------------------------------- when the cleanup stalls

  /** A tick of a local clock or a global tick, and how many descriptors are collected at its end. */
  datatype Turn =
    | LocalTurn(clock: nat, objects: nat, regions: nat)
    | GlobalTurn(effective: bool, objects: nat, regions: nat)

  predicate CanTurn<T>(r: Root<T>, turn: Turn) {
    RootOk(r) && (turn.LocalTurn? ==> turn.clock < MAX_CLOCKS && Used(r.obj.rings[turn.clock]))
  }

  function TurnOnce<T>(r: Root<T>, turn: Turn): (r': Root<T>)
    requires CanTurn(r, turn)
    ensures RootOk(r')
  {
    match turn
    case LocalTurn(c, n, m) => TickKeepsOk(r, c); Collect(TickClock(r, c), n, m)
    case GlobalTurn(effective, n, m) => GlobalTickKeepsOk(r, effective); Collect(GlobalTick(r, effective), n, m)
  }

  predicate TurnRun<T>(r: Root<T>, turns: seq<Turn>)
    decreases |turns|
  {
    RootOk(r) && (turns == [] || (CanTurn(r, turns[0]) && TurnRun(TurnOnce(r, turns[0]), turns[1..])))
  }

  function AfterTurns<T>(r: Root<T>, turns: seq<Turn>): (r': Root<T>)
    requires TurnRun(r, turns)
    ensures RootOk(r')
    decreases |turns|
  {
    if turns == [] then r else AfterTurns(TurnOnce(r, turns[0]), turns[1..])
  }

  /** None of the turns is a tick of clock `c`. */
  predicate NeverTicked(turns: seq<Turn>, c: nat) {
    forall i :: 0 <= i < |turns| ==> !(turns[i].LocalTurn? && turns[i].clock == c)
  }

  lemma TurnEffect<T>(r: Root<T>, turn: Turn, z: nat)
    requires CanTurn(r, turn) && 1 <= z < MAX_CLOCKS && !IsZombie(r, r.roundRobin)
    requires turn.LocalTurn? ==> turn.clock != r.roundRobin
    ensures var r' := TurnOnce(r, turn);
            && r'.roundRobin == r.roundRobin && !IsZombie(r', r.roundRobin)
            && (!(turn.LocalTurn? && turn.clock == z) ==>
                  r'.obj.rings[z] == r.obj.rings[z] && r'.reg.rings[z] == r.reg.rings[z])
  {
    if turn.LocalTurn? { AdvanceKeepsOk(r, turn.clock); } else { AdvanceKeepsOk(r, GLOBAL); }
  }

  /** While the index rests on a buffer that is registered or was never used, ticks of all clocks but that
      one, and global ticks, leave the index and every buffer that is not ticked itself as they are. */
  lemma {:induction false} CleanupStalls<T>(r: Root<T>, turns: seq<Turn>, z: nat)
    requires TurnRun(r, turns) && 1 <= z < MAX_CLOCKS && !IsZombie(r, r.roundRobin)
    requires NeverTicked(turns, r.roundRobin) && NeverTicked(turns, z)
    ensures var r' := AfterTurns(r, turns);
            && r'.roundRobin == r.roundRobin
            && r'.obj.rings[z] == r.obj.rings[z] && r'.reg.rings[z] == r.reg.rings[z]
    decreases |turns|
  {
    hide TurnOnce;
    if turns != [] {
      assert !(turns[0].LocalTurn? && turns[0].clock == z);
      TurnEffect(r, turns[0], z);
      CleanupStalls(TurnOnce(r, turns[0]), turns[1..], z);
    }
  }

  /** The exception is needed: a tick of the clock the index rests on offers the next buffer for cleaning,
      and if that is a zombie it is rotated and the index moves past it. */
  lemma IndexTickCleans<T>(r: Root<T>)
    requires RootOk(r) && MAX_CLOCKS >= 3 && Used(r.obj.rings[r.roundRobin])
    requires IsZombie(r, Next(r.roundRobin))
    ensures var z := Next(r.roundRobin); var r' := TickClock(r, r.roundRobin);
            && Used(r.reg.rings[z]) && r'.roundRobin == Next(z)
            && r'.obj.rings[z] == Advance(r.obj.rings[z]) && r'.reg.rings[z] == Advance(r.reg.rings[z])
  {
    AdvanceKeepsOk(r, r.roundRobin);
  }

  /** A reachable root whose cleanup stalls: clocks 1 and 2 are registered, a descriptor is placed with
      clock 2, and clock 2 is unregistered. The index rests on clock 1. */
  function StalledRoot<T>(x: T, expiration: nat): (r: Root<T>)
    requires MAX_CLOCKS >= 3
    ensures RootOk(r) && IsZombie(r, 2) && r.roundRobin == 1 && Registered(r, 1)
  {
    var r := TwoRegistered<T>();
    Unregistered(r, x, expiration);
    Roots.UnregisterClock(r.(obj := InsertBank(r.obj, 2, x, expiration)), 2)
  }

  function TwoRegistered<T>(): (r: Root<T>)
    requires MAX_CLOCKS >= 3
    ensures RootOk(r) && r.roundRobin == 1 && Registered(r, 1) && Used(r.obj.rings[2])
  {
    FreshOk<T>();
    RegistrationKeepsOk(FreshRoot<T>(), 1, 0);
    RegistrationKeepsOk(RegisterClockAt(FreshRoot<T>(), 1), 2, 0);
    RegisterClockAt(RegisterClockAt(FreshRoot<T>(), 1), 2)
  }

  lemma Unregistered<T>(r: Root<T>, x: T, expiration: nat)
    requires MAX_CLOCKS >= 3 && RootOk(r) && Registered(r, 1) && Used(r.obj.rings[2])
    ensures var r1 := r.(obj := InsertBank(r.obj, 2, x, expiration));
            && RootOk(r1) && var r2 := Roots.UnregisterClock(r1, 2);
            && RootOk(r2) && IsZombie(r2, 2) && r2.roundRobin == r.roundRobin && Registered(r2, 1)
            && !NothingDue(r2.obj.rings[2], 0)
  {
    var r1 := r.(obj := InsertBank(r.obj, 2, x, expiration));
    var ring := r.obj.rings[2];
    InsertDue(ring, x, expiration);
    assert |Due(r1.obj.rings[2], Wrap(expiration, |ring.slots|))| > 0;
    RegistrationKeepsOk(r1, 1, 2);
  }

  /** From there no run of ticks of the other clocks and global ticks, however long and with any
      collections between them, empties the buffer of clock 2: its descriptor is never expired. */
  lemma StalledForever<T>(x: T, expiration: nat, turns: seq<Turn>)
    requires MAX_CLOCKS >= 3 && TurnRun(StalledRoot(x, expiration), turns)
    requires NeverTicked(turns, 1) && NeverTicked(turns, 2)
    ensures var r := StalledRoot(x, expiration);
            && !NothingDue(AfterTurns(r, turns).obj.rings[2], 0)
            && AfterTurns(r, turns).obj.rings[2] == r.obj.rings[2]
  {
    hide RootOk;
    var r := StalledRoot(x, expiration);
    CleanupStalls(r, turns, 2);
    Unregistered(TwoRegistered<T>(), x, expiration);
  }

  /** Any number of base ticks is such a run. */
  lemma {:induction false} BaseTicksRun<T>(r: Root<T>, collections: seq<(nat, nat)>)
    requires RootOk(r)
    ensures var turns := BaseTurns(collections);
            && TurnRun(r, turns) && AfterTurns(r, turns) == IdleTicks(r, collections)
            && forall c :: 1 <= c < MAX_CLOCKS ==> NeverTicked(turns, c)
    decreases |collections|
  {
    hide RootOk, TickClock, Used, IdleTick, TurnOnce;
    BaseIsUsed(r);
    if collections != [] {
      var turn := LocalTurn(0, collections[0].0, collections[0].1);
      BaseTurn(r, collections[0].0, collections[0].1);
      BaseTicksRun(TurnOnce(r, turn), collections[1..]);
      assert BaseTurns(collections)[1..] == BaseTurns(collections[1..]);
    }
  }

  lemma BaseTurn<T>(r: Root<T>, n: nat, m: nat)
    requires RootOk(r)
    ensures CanTurn(r, LocalTurn(0, n, m)) && TurnOnce(r, LocalTurn(0, n, m)) == IdleTick(r, n, m)
  {
  }

  function BaseTurns(collections: seq<(nat, nat)>): (turns: seq<Turn>)
    ensures |turns| == |collections|
  {
    seq(|collections|, i requires 0 <= i < |collections| => LocalTurn(0, collections[i].0, collections[i].1))
  }

  lemma BaseIsUsed<T>(r: Root<T>)
    requires RootOk(r)
    ensures 0 < |r.obj.rings| && Used(r.obj.rings[0])
  {
  }
}
