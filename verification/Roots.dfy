/** The part of a thread's descriptor root that expires descriptors, as values: the rings of every
    clock, the expired queues, the ages that tell registered clocks from zombies, and the
    round-robin index that picks the zombie to clean. Object and region descriptors live in two
    banks that are always rotated together. */
module Roots {
  import opened Config
  import opened Rings

  /** The rings of one kind of descriptor: one per local clock, then the globally clocked one. */
  datatype Bank<T> = Bank(rings: seq<Ring<T>>, expired: seq<T>)

  const GLOBAL: nat := MAX_CLOCKS

  datatype Root<T> = Root(obj: Bank<T>, reg: Bank<T>, age: seq<int>, currentTime: int,
                          roundRobin: nat, nextClock: nat)

  predicate BankOk<T>(b: Bank<T>) {
    && |b.rings| == MAX_CLOCKS + 1
    && (forall c :: 0 <= c < MAX_CLOCKS ==> Valid(b.rings[c]) && |b.rings[c].slots| in {0, LOCAL_SLOTS})
    && Valid(b.rings[GLOBAL]) && |b.rings[GLOBAL].slots| == GLOBAL_SLOTS
  }

  predicate SameIndices<T>(a: Bank<T>, b: Bank<T>)
    requires |a.rings| == |b.rings|
  {
    forall c :: 0 <= c < |a.rings| ==>
      |a.rings[c].slots| == |b.rings[c].slots| && a.rings[c].cur == b.rings[c].cur
  }

  predicate RootOk<T>(r: Root<T>) {
    && BankOk(r.obj) && BankOk(r.reg) && SameIndices(r.obj, r.reg)
    && |r.age| == MAX_CLOCKS
    && (forall c :: 0 <= c < MAX_CLOCKS ==> r.age[c] <= r.currentTime)
    && (forall c :: 0 <= c < MAX_CLOCKS && r.age[c] == r.currentTime ==> Used(r.obj.rings[c]))
    && r.age[0] == r.currentTime
    && (MAX_CLOCKS > 1 ==> 1 <= r.roundRobin < MAX_CLOCKS && 1 <= r.nextClock < MAX_CLOCKS)
  }

  predicate Registered<T>(r: Root<T>, c: nat)
    requires c < |r.age|
  {
    r.age[c] == r.currentTime
  }

  /** A used buffer of a clock that is not registered any more. */
  predicate IsZombie<T>(r: Root<T>, c: nat)
    requires c < |r.age| && c < |r.obj.rings|
  {
    r.age[c] != r.currentTime && |r.obj.rings[c].slots| != 0
  }

  /** Clocks 1 .. MAX_CLOCKS-1 in cyclic order; the base clock is skipped. */
  function Next(c: nat): (n: nat)
    requires MAX_CLOCKS > 1 && c < MAX_CLOCKS
    ensures 1 <= n < MAX_CLOCKS
  {
    if c + 1 == MAX_CLOCKS then 1 else c + 1
  }

  // ---------------------------------------------------------------- operations

  function AdvanceBank<T>(b: Bank<T>, c: nat): Bank<T>
    requires c < |b.rings| && Used(b.rings[c])
  {
    Bank(b.rings[c := Advance(b.rings[c])], b.expired + Released(b.rings[c]))
  }

  function InsertBank<T>(b: Bank<T>, c: nat, x: T, expiration: nat): Bank<T>
    requires c < |b.rings| && Used(b.rings[c])
  {
    b.(rings := b.rings[c := Insert(b.rings[c], x, expiration)])
  }

  predicate CanAdvance<T>(r: Root<T>, c: nat) {
    c < |r.obj.rings| && c < |r.reg.rings| && Used(r.obj.rings[c]) && Used(r.reg.rings[c])
  }

  function IncrementAndExpire<T>(r: Root<T>, c: nat): Root<T>
    requires CanAdvance(r, c)
  {
    r.(obj := AdvanceBank(r.obj, c), reg := AdvanceBank(r.reg, c))
  }

  /** Rotates buffer `i` and moves the round-robin index on, but only if `i` is a zombie. */
  function CleanZombie<T>(r: Root<T>, i: nat): Root<T>
    requires RootOk(r) && MAX_CLOCKS > 1 && i < MAX_CLOCKS
  {
    if IsZombie(r, i) then IncrementAndExpire(r, i).(roundRobin := Next(i)) else r
  }

  /** The buffer a tick of clock `c` offers for cleaning. */
  function Candidate<T>(r: Root<T>, c: nat): nat
    requires RootOk(r) && MAX_CLOCKS > 1 && c < MAX_CLOCKS
  {
    if r.roundRobin == c then Next(c) else r.roundRobin
  }

  function TickClock<T>(r: Root<T>, c: nat): Root<T>
    requires RootOk(r) && c < MAX_CLOCKS && Used(r.obj.rings[c])
  {
    AdvanceKeepsOk(r, c);
    var r1 := IncrementAndExpire(r, c);
    if MAX_CLOCKS > 1 then CleanZombie(r1, Candidate(r, c)) else r1
  }

  /** A global tick; only the first one of a global period rotates the globally clocked rings. */
  function GlobalTick<T>(r: Root<T>, effective: bool): Root<T>
    requires RootOk(r)
  {
    if effective then AdvanceKeepsOk(r, GLOBAL);
    var r1 := IncrementAndExpire(r, GLOBAL);
    if MAX_CLOCKS > 1 then CleanZombie(r1, r1.roundRobin) else r1
    else if MAX_CLOCKS > 1 then CleanZombie(r, r.roundRobin) else r
  }

  function Drop<T>(b: Bank<T>, n: nat): Bank<T> {
    b.(expired := if n <= |b.expired| then b.expired[n..] else [])
  }

  /** Collects up to `n` object and `m` region descriptors; lazy collection is one of each. */
  function Collect<T>(r: Root<T>, n: nat, m: nat): Root<T> {
    r.(obj := Drop(r.obj, n), reg := Drop(r.reg, m))
  }

  function Activate<T>(r: Ring<T>): Ring<T> {
    if r.slots == [] then Empty(LOCAL_SLOTS) else r
  }

  function RegisterClockAt<T>(r: Root<T>, i: nat): Root<T>
    requires RootOk(r) && 1 <= i < MAX_CLOCKS
  {
    r.(obj := r.obj.(rings := r.obj.rings[i := Activate(r.obj.rings[i])]),
       reg := r.reg.(rings := r.reg.rings[i := Activate(r.reg.rings[i])]),
       age := r.age[i := r.currentTime], nextClock := Next(i))
  }

  /** Clocks 0 and 1 cannot be unregistered. */
  function UnregisterClock<T>(r: Root<T>, c: int): Root<T>
    requires RootOk(r)
  {
    if c <= 1 || c >= MAX_CLOCKS then r else r.(age := r.age[c := r.currentTime - 1])
  }

  function FreshRing<T>(c: int): Ring<T> {
    if c == GLOBAL then Empty(GLOBAL_SLOTS) else if c == 0 then Empty(LOCAL_SLOTS) else Unused()
  }

  function FreshBank<T>(): Bank<T> {
    Bank(seq(MAX_CLOCKS + 1, c => FreshRing(c)), [])
  }

  /** A newly allocated root when its thread has registered. */
  function FreshRoot<T>(): Root<T> {
    Root(FreshBank(), FreshBank(), seq(MAX_CLOCKS, c => if c == 0 then 1 else 0), 1, 1, 1)
  }

  /** A thread takes over the root of a terminated one: all clocks but the base clock become zombies. */
  function Reuse<T>(r: Root<T>): Root<T>
    requires RootOk(r)
  {
    r.(currentTime := r.currentTime + 1, age := r.age[0 := r.currentTime + 1])
  }

  // ---------------------------------------------------------------- the invariant

  /** A new root satisfies the invariant; only clock 0 is registered, every buffer is empty, only those of
      clock 0 and of the global clock have slots, and both searches start at clock 1. */
  lemma FreshOk<T>()
    ensures RootOk(FreshRoot<T>())
    ensures var r := FreshRoot<T>();
            && r.roundRobin == 1 && r.nextClock == 1 && r.currentTime == 1 && r.obj == r.reg && r.obj.expired == []
            && (forall c :: 0 <= c < MAX_CLOCKS ==> (Registered(r, c) <==> c == 0))
            && (forall c :: 0 <= c <= GLOBAL ==>
                  && r.obj.rings[c].cur == 0
                  && |r.obj.rings[c].slots| ==
                     (if c == GLOBAL then MAX_EXTENSION + 2 else if c == 0 then MAX_EXTENSION + 1 else 0)
                  && forall i :: 0 <= i < |r.obj.rings[c].slots| ==> r.obj.rings[c].slots[i] == [])
  {
    var b := FreshBank<T>();
    assert forall c :: 0 <= c <= MAX_CLOCKS ==> b.rings[c] == FreshRing<T>(c);
    assert FreshRoot<T>().age[0] == 1;
  }

  lemma AdvanceKeepsOk<T>(r: Root<T>, c: nat)
    requires RootOk(r) && c <= GLOBAL && Used(r.obj.rings[c])
    ensures CanAdvance(r, c) && RootOk(IncrementAndExpire(r, c))
  {
  }

  lemma TickKeepsOk<T>(r: Root<T>, c: nat)
    requires RootOk(r) && c < MAX_CLOCKS && Used(r.obj.rings[c])
    ensures RootOk(TickClock(r, c))
  {
    AdvanceKeepsOk(r, c);
    var r1 := IncrementAndExpire(r, c);
    if MAX_CLOCKS > 1 { CleanKeepsOk(r1, Candidate(r, c)); }
  }

  lemma CleanKeepsOk<T>(r: Root<T>, i: nat)
    requires RootOk(r) && MAX_CLOCKS > 1 && i < MAX_CLOCKS
    ensures RootOk(CleanZombie(r, i))
  {
    if IsZombie(r, i) { AdvanceKeepsOk(r, i); }
  }

  lemma GlobalTickKeepsOk<T>(r: Root<T>, effective: bool)
    requires RootOk(r)
    ensures RootOk(GlobalTick(r, effective))
  {
    if effective { AdvanceKeepsOk(r, GLOBAL); }
    var r1 := if effective then IncrementAndExpire(r, GLOBAL) else r;
    if MAX_CLOCKS > 1 { CleanKeepsOk(r1, r1.roundRobin); }
  }

  lemma RegistrationKeepsOk<T>(r: Root<T>, i: nat, c: int)
    requires RootOk(r)
    ensures 1 <= i < MAX_CLOCKS ==> RootOk(RegisterClockAt(r, i))
    ensures RootOk(UnregisterClock(r, c))
    ensures RootOk(Reuse(r))
  {
  }

  /** Registering and unregistering a clock change which clocks are registered by exactly that clock;
      clocks 0 and 1 stay registered whatever is unregistered, and a new thread starts with clock 0 only.
      A zombie is a clock with slots that is not registered. */
  lemma RegistrationEffect<T>(r: Root<T>, i: nat, c: int, d: nat)
    requires RootOk(r) && 1 <= i < MAX_CLOCKS && d < MAX_CLOCKS
    ensures Registered(RegisterClockAt(r, i), d) <==> Registered(r, d) || d == i
    ensures Registered(UnregisterClock(r, c), d) <==> Registered(r, d) && (d != c || d <= 1)
    ensures Registered(Reuse(r), d) <==> d == 0
    ensures Used(RegisterClockAt(r, i).obj.rings[i]) && Used(RegisterClockAt(r, i).reg.rings[i])
    ensures IsZombie(r, d) <==> !Registered(r, d) && Used(r.obj.rings[d])
    ensures IsZombie(Reuse(r), d) <==> d != 0 && Used(r.obj.rings[d])
  {
  }

  /** And they change nothing else: a registration moves the search index past the clock and gives its
      buffers slots only if they had none, leaving all other buffers, the queues and the round-robin
      index; unregistering and reusing a root leave everything but ages and time. */
  lemma RegistrationFrame<T>(r: Root<T>, i: nat, c: int, d: nat)
    requires RootOk(r) && 1 <= i < MAX_CLOCKS && d <= GLOBAL
    ensures var r' := RegisterClockAt(r, i);
            && r'.nextClock == (if i + 1 == MAX_CLOCKS then 1 else i + 1)
            && r'.roundRobin == r.roundRobin && r'.currentTime == r.currentTime
            && r'.obj.expired == r.obj.expired && r'.reg.expired == r.reg.expired
            && |r'.obj.rings| == |r'.reg.rings| == MAX_CLOCKS + 1
            && (d != i || Used(r.obj.rings[d]) ==>
                  r'.obj.rings[d] == r.obj.rings[d] && r'.reg.rings[d] == r.reg.rings[d])
            && (d == i && !Used(r.obj.rings[d]) ==>
                  r'.obj.rings[d] == Empty(LOCAL_SLOTS) && r'.reg.rings[d] == Empty(LOCAL_SLOTS))
    ensures UnregisterClock(r, c) == r.(age := UnregisterClock(r, c).age)
    ensures Reuse(r) == r.(age := Reuse(r).age, currentTime := r.currentTime + 1)
  {
  }

  // ---------------------------------------------------------------- which clock is registered next

  /** Clock `c` is the first unregistered one from the search index on, wrapping around to clock 1. */
  predicate IsNextFit<T>(r: Root<T>, c: int)
    requires |r.age| == MAX_CLOCKS
  {
    && 1 <= c < MAX_CLOCKS && !Registered(r, c)
    && (forall d :: 1 <= d < MAX_CLOCKS && r.nextClock <= d && (d < c || c < r.nextClock) ==> Registered(r, d))
    && (c < r.nextClock ==> forall d :: 1 <= d < c ==> Registered(r, d))
  }

  /** There is at most one. */
  lemma NextFitUnique<T>(r: Root<T>, c: nat, d: nat)
    requires |r.age| == MAX_CLOCKS && IsNextFit(r, c) && IsNextFit(r, d)
    ensures c == d
  {
  }

  /** Clocks are handed out in turn: a clock that was registered and then unregistered is returned by the
      very next registration if and only if every other one is registered. */
  lemma NextFitRotates<T>(r: Root<T>, c: nat)
    requires RootOk(r) && 2 <= c < MAX_CLOCKS
    ensures RootOk(RegisterClockAt(r, c)) && RootOk(UnregisterClock(RegisterClockAt(r, c), c))
    ensures IsNextFit(UnregisterClock(RegisterClockAt(r, c), c), c) <==>
            forall d :: 1 <= d < MAX_CLOCKS && d != c ==> Registered(r, d)
  {
    hide BankOk, SameIndices;
    RegistrationKeepsOk(r, c, 0);
    RegistrationKeepsOk(RegisterClockAt(r, c), 1, c);
    var r' := UnregisterClock(RegisterClockAt(r, c), c);
    assert forall d :: 1 <= d < MAX_CLOCKS && d != c ==> Registered(r', d) == Registered(r, d);
    assert r'.nextClock == if c + 1 == MAX_CLOCKS then 1 else c + 1;
  }

  // ---------------------------------------------------------------- which buffers a tick advances

  function AdvanceTimes<T>(r: Ring<T>, n: nat): (r': Ring<T>)
    requires Used(r) || n == 0
    ensures |r'.slots| == |r.slots| && (Used(r) ==> Used(r'))
  {
    if n == 0 then r else Advance(AdvanceTimes(r, n - 1))
  }

  /** How often a tick of clock `c` rotates the buffers of clock `d`. */
  function TickAdvances<T>(r: Root<T>, c: nat, d: nat): nat
    requires RootOk(r) && c < MAX_CLOCKS && d <= GLOBAL
  {
    (if d == c then 1 else 0)
    + (if MAX_CLOCKS > 1 && d == Candidate(r, c) && IsZombie(r, d) then 1 else 0)
  }

  lemma TickAdvancesRings<T>(r: Root<T>, c: nat, d: nat)
    requires RootOk(r) && c < MAX_CLOCKS && Used(r.obj.rings[c]) && d <= GLOBAL
    ensures var n := TickAdvances(r, c, d); var r' := TickClock(r, c);
            && (n > 0 ==> Used(r.obj.rings[d]) && Used(r.reg.rings[d]))
            && r'.obj.rings[d] == AdvanceTimes(r.obj.rings[d], n)
            && r'.reg.rings[d] == AdvanceTimes(r.reg.rings[d], n)
    ensures TickClock(r, c).age == r.age && TickClock(r, c).currentTime == r.currentTime
    ensures TickClock(r, c).nextClock == r.nextClock
  {
    AdvanceKeepsOk(r, c);
    if Used(r.obj.rings[d]) {
      AdvanceFew(r.obj.rings[d]);
      AdvanceFew(r.reg.rings[d]);
    }
  }

  lemma AdvanceFew<T>(r: Ring<T>)
    requires Used(r)
    ensures AdvanceTimes(r, 0) == r && AdvanceTimes(r, 1) == Advance(r)
    ensures Used(Advance(r)) && AdvanceTimes(r, 2) == Advance(Advance(r))
  {
    assert AdvanceTimes(r, 1) == Advance(r);
  }

  /** What a tick of clock `c` does besides rotating its own buffers, in terms of the round-robin index
      alone. It looks at the clock under the index, or at the one after it if it ticks the indexed clock
      itself. If that is a zombie, its buffers are rotated once as well and the index moves past it;
      otherwise nothing else changes. What expires is queued in this order. */
  lemma TickCleans<T>(r: Root<T>, c: nat, d: nat)
    requires RootOk(r) && c < MAX_CLOCKS && Used(r.obj.rings[c]) && MAX_CLOCKS > 1 && d <= GLOBAL
    ensures var r' := TickClock(r, c);
            var z := if r.roundRobin != c then r.roundRobin else if c + 1 < MAX_CLOCKS then c + 1 else 1;
            && RootOk(r') && CanAdvance(r, c)
            && (!(!Registered(r, z) && Used(r.obj.rings[z])) ==>
                  && r'.roundRobin == r.roundRobin
                  && r'.obj.expired == r.obj.expired + Released(r.obj.rings[c])
                  && r'.reg.expired == r.reg.expired + Released(r.reg.rings[c])
                  && (d == c ==>
                        r'.obj.rings[d] == Advance(r.obj.rings[d]) && r'.reg.rings[d] == Advance(r.reg.rings[d]))
                  && (d != c ==> r'.obj.rings[d] == r.obj.rings[d] && r'.reg.rings[d] == r.reg.rings[d]))
            && (!Registered(r, z) && Used(r.obj.rings[z]) && z != c ==>
                  && CanAdvance(r, z)
                  && r'.roundRobin == (if z + 1 < MAX_CLOCKS then z + 1 else 1)
                  && r'.obj.expired == r.obj.expired + Released(r.obj.rings[c]) + Released(r.obj.rings[z])
                  && r'.reg.expired == r.reg.expired + Released(r.reg.rings[c]) + Released(r.reg.rings[z])
                  && (d == c || d == z ==>
                        CanAdvance(r, d)
                        && r'.obj.rings[d] == Advance(r.obj.rings[d]) && r'.reg.rings[d] == Advance(r.reg.rings[d]))
                  && (d != c && d != z ==> r'.obj.rings[d] == r.obj.rings[d] && r'.reg.rings[d] == r.reg.rings[d]))
  {
    hide Advance, Released;
    TickKeepsOk(r, c);
    AdvanceKeepsOk(r, c);
  }

  /** The remaining case, in which the clock to be cleaned is the ticked one itself: with two clocks, a
      tick of clock 1 that is not registered rotates it a second time. */
  lemma TickCleansItself<T>(r: Root<T>, d: nat)
    requires RootOk(r) && MAX_CLOCKS == 2 && Used(r.obj.rings[1]) && !Registered(r, 1) && d <= GLOBAL
    ensures var r' := TickClock(r, 1); var ring := r.obj.rings[1]; var regs := r.reg.rings[1];
            && r'.roundRobin == 1 && Used(regs) && Used(Advance(ring)) && Used(Advance(regs))
            && r'.obj.expired == r.obj.expired + Released(ring) + Released(Advance(ring))
            && r'.reg.expired == r.reg.expired + Released(regs) + Released(Advance(regs))
            && r'.obj.rings[1] == Advance(Advance(ring)) && r'.reg.rings[1] == Advance(Advance(regs))
            && (d != 1 ==> r'.obj.rings[d] == r.obj.rings[d] && r'.reg.rings[d] == r.reg.rings[d])
  {
    AdvanceKeepsOk(r, 1);
  }

  /** The same for a global tick, which rotates the global rings first if it is effective. */
  lemma GlobalTickCleans<T>(r: Root<T>, effective: bool, d: nat)
    requires RootOk(r) && MAX_CLOCKS > 1 && d <= GLOBAL
    ensures var r' := GlobalTick(r, effective); var z := r.roundRobin;
            && CanAdvance(r, GLOBAL) && r'.nextClock == r.nextClock
            && var obj := r.obj.expired + (if effective then Released(r.obj.rings[GLOBAL]) else []);
            var reg := r.reg.expired + (if effective then Released(r.reg.rings[GLOBAL]) else []);
            && (!Registered(r, z) && Used(r.obj.rings[z]) ==>
                  && CanAdvance(r, z)
                  && r'.roundRobin == (if z + 1 < MAX_CLOCKS then z + 1 else 1)
                  && r'.obj.expired == obj + Released(r.obj.rings[z])
                  && r'.reg.expired == reg + Released(r.reg.rings[z]))
            && (!(!Registered(r, z) && Used(r.obj.rings[z])) ==>
                  r'.roundRobin == r.roundRobin && r'.obj.expired == obj && r'.reg.expired == reg)
            && var turned := (d == GLOBAL && effective) || (d == z && !Registered(r, z) && Used(r.obj.rings[z]));
            && (turned ==>
                  && CanAdvance(r, d)
                  && r'.obj.rings[d] == Advance(r.obj.rings[d]) && r'.reg.rings[d] == Advance(r.reg.rings[d]))
            && (!turned ==> r'.obj.rings[d] == r.obj.rings[d] && r'.reg.rings[d] == r.reg.rings[d])
  {
    hide Advance, Released;
    AdvanceKeepsOk(r, GLOBAL);
  }

  /** With at least three clocks a tick rotates its own clock exactly once and at most one other
      buffer, a zombie. No registered clock is advanced by a tick of another one. */
  lemma TickIsolation<T>(r: Root<T>, c: nat, d: nat, e: nat)
    requires RootOk(r) && c < MAX_CLOCKS && Used(r.obj.rings[c]) && MAX_CLOCKS >= 3
    requires d <= GLOBAL && e <= GLOBAL
    ensures TickAdvances(r, c, c) == 1
    ensures d != c ==> TickAdvances(r, c, d) <= 1
    ensures d != c && TickAdvances(r, c, d) == 1 ==> 1 <= d < MAX_CLOCKS && IsZombie(r, d)
    ensures d != c && e != c && TickAdvances(r, c, d) == TickAdvances(r, c, e) == 1 ==> d == e
    ensures d < MAX_CLOCKS && d != c && Registered(r, d) ==>
      TickClock(r, c).obj.rings[d] == r.obj.rings[d] && TickClock(r, c).reg.rings[d] == r.reg.rings[d]
  {
    TickAdvancesRings(r, c, d);
  }

  /** The only configuration in which a tick rotates its own clock twice. */
  lemma DoubleAdvance<T>(r: Root<T>, c: nat)
    requires RootOk(r) && c < MAX_CLOCKS && Used(r.obj.rings[c])
    ensures TickAdvances(r, c, c) == 2 <==> MAX_CLOCKS == 2 && c == 1 && !Registered(r, 1)
  {
  }

  /** A reachable input for it: with two clocks, a thread that takes over a root whose clock 1 was
      registered and ticks that clock without registering it again rotates it twice. */
  lemma DoubleAdvanceReached<T>()
    requires MAX_CLOCKS == 2
    ensures (FreshOk<T>(); var r1 := RegisterClockAt(FreshRoot<T>(), 1);
             && RootOk(r1)
             && var r := Reuse(r1);
             && RootOk(r) && Used(r.obj.rings[1]) && !Registered(r, 1) && TickAdvances(r, 1, 1) == 2
             && TickClock(r, 1).obj.rings[1] == AdvanceTimes(r.obj.rings[1], 2)
             && TickClock(r, 1).reg.rings[1] == AdvanceTimes(r.reg.rings[1], 2))
  {
    FreshOk<T>();
    var r1 := RegisterClockAt(FreshRoot<T>(), 1);
    RegistrationKeepsOk(FreshRoot<T>(), 1, 0);
    RegistrationKeepsOk(r1, 1, 0);
    DoubleAdvance(Reuse(r1), 1);
    TickAdvancesRings(Reuse(r1), 1, 1);
  }

  /** How often a global tick rotates the buffers of clock `d`, GLOBAL for the globally clocked ones. */
  function GlobalTickAdvances<T>(r: Root<T>, effective: bool, d: nat): nat
    requires RootOk(r) && d <= GLOBAL
  {
    if d == GLOBAL then (if effective then 1 else 0)
    else if MAX_CLOCKS > 1 && d == r.roundRobin && IsZombie(r, d) then 1 else 0
  }

  /** A global tick rotates the global rings if it is effective and besides them at most the zombie
      under the round-robin index. */
  lemma GlobalTickAdvancesRings<T>(r: Root<T>, effective: bool, d: nat)
    requires RootOk(r) && d <= GLOBAL
    ensures var r' := GlobalTick(r, effective);
            var n := GlobalTickAdvances(r, effective, d);
            && (n > 0 ==> CanAdvance(r, d))
            && r'.obj.rings[d] == AdvanceTimes(r.obj.rings[d], n)
            && r'.reg.rings[d] == AdvanceTimes(r.reg.rings[d], n)
            && (d < MAX_CLOCKS && Registered(r, d) ==> n == 0)
            && r'.age == r.age && r'.currentTime == r.currentTime
  {
    if effective { AdvanceKeepsOk(r, GLOBAL); }
    if Used(r.obj.rings[d]) {
      AdvanceFew(r.obj.rings[d]);
      AdvanceFew(r.reg.rings[d]);
    }
  }
}
