/** A descriptor buffer as a ring of slots. `cur` is the slot that expires at the next advance.
    Seen from `cur`, slot k holds what will be released by the (k+1)-th advance. */
module Rings {
  import opened Config

  /** The remainder by which the source wraps an index, as repeated subtraction. */
  function Wrap(x: nat, length: nat): (i: nat)
    requires 0 < length
    ensures i < length
  {
    if x < length then x else Wrap(x - length, length)
  }

  lemma {:induction false} WrapIsRemainder(x: nat, length: nat)
    requires 0 < length
    ensures Wrap(x, length) == x % length
  {
    if x >= length {
      WrapIsRemainder(x - length, length);
      RemainderStep(x, length);
    }
  }

  lemma RemainderStep(x: nat, length: nat)
    requires 0 < length <= x
    ensures x % length == (x - length) % length
  {
    var q, q' := x / length, (x - length) / length;
    assert (q' + 1 - q) * length == x % length - (x - length) % length;
    Product(q' + 1 - q, length);
  }

  lemma Product(q: int, length: nat)
    ensures q >= 1 ==> q * length >= length
    ensures q <= -1 ==> q * length <= 0 - length
  {
    if q >= 1 { assert (q - 1) * length >= 0; }
    if q <= -1 { assert (q + 1) * length <= 0; }
  }

  lemma WrapShift(c: nat, k: nat, length: nat)
    requires c < length && k <= length
    ensures Wrap(c + k, length) == if c + k < length then c + k else c + k - length
  {
  }

  lemma {:induction false} WrapFold(c: nat, x: nat, length: nat)
    requires c < length
    ensures Wrap(c + x, length) == Wrap(c + Wrap(x, length), length)
  {
    if x >= length { WrapFold(c, x - length, length); }
  }

  /** Two distances from `c` lead to the same slot exactly when they agree modulo the length. */
  lemma SameSlot(c: nat, k: nat, x: nat, length: nat)
    requires c < length && k < length
    ensures Wrap(c + k, length) == Wrap(c + x, length) <==> k == Wrap(x, length)
  {
    var w := Wrap(x, length);
    WrapFold(c, x, length);
    WrapShift(c, k, length);
    WrapShift(c, w, length);
  }

  datatype Ring<T> = Ring(slots: seq<seq<T>>, cur: nat)

  /** A ring without slots is an unused buffer. */
  predicate Valid<T>(r: Ring<T>) {
    if r.slots == [] then r.cur == 0 else r.cur < |r.slots|
  }

  predicate Used<T>(r: Ring<T>) {
    r.cur < |r.slots|
  }

  function Unused<T>(): Ring<T> { Ring([], 0) }

  function Empty<T>(length: nat): Ring<T> { Ring(seq(length, _ => []), 0) }

  /** The slot released by the (k+1)-th advance from now. */
  function Due<T>(r: Ring<T>, k: nat): seq<T>
    requires k < |r.slots|
  {
    r.slots[Wrap(r.cur + k, |r.slots|)]
  }

  function Insert<T>(r: Ring<T>, x: T, expiration: nat): Ring<T>
    requires Used(r)
  {
    var i := Wrap(r.cur + expiration, |r.slots|);
    r.(slots := r.slots[i := r.slots[i] + [x]])
  }

  function Advance<T>(r: Ring<T>): Ring<T>
    requires Used(r)
  {
    Ring(r.slots[r.cur := []], Wrap(r.cur + 1, |r.slots|))
  }

  function Released<T>(r: Ring<T>): seq<T>
    requires Used(r)
  {
    r.slots[r.cur]
  }

  /** The requested extension, cut off at the largest one allowed. */
  function CheckExtension(given: nat): (e: nat)
    ensures e <= MAX_EXTENSION && e <= given
    ensures given <= MAX_EXTENSION <==> e == given
    ensures given >= MAX_EXTENSION <==> e == MAX_EXTENSION
  {
    if given > MAX_EXTENSION then MAX_EXTENSION else given
  }

  // ---------------------------------------------------------------- the ring seen from `cur`

  lemma InsertDueAt<T>(r: Ring<T>, x: T, expiration: nat, k: nat)
    requires Used(r) && k < |r.slots|
    ensures var r' := Insert(r, x, expiration); var at := Wrap(expiration, |r.slots|);
            Due(r', k) == if k == at then Due(r, k) + [x] else Due(r, k)
  {
    hide Wrap;
    SameSlot(r.cur, k, expiration, |r.slots|);
  }

  lemma InsertDue<T>(r: Ring<T>, x: T, expiration: nat)
    requires Used(r)
    ensures Used(Insert(r, x, expiration)) && |Insert(r, x, expiration).slots| == |r.slots|
    ensures forall k :: 0 <= k < |r.slots| ==>
      Due(Insert(r, x, expiration), k) ==
      if k == Wrap(expiration, |r.slots|) then Due(r, k) + [x] else Due(r, k)
  {
    forall k | 0 <= k < |r.slots|
      ensures Due(Insert(r, x, expiration), k) ==
              if k == Wrap(expiration, |r.slots|) then Due(r, k) + [x] else Due(r, k)
    {
      InsertDueAt(r, x, expiration, k);
    }
  }

  lemma AdvanceDue<T>(r: Ring<T>)
    requires Used(r)
    ensures Used(Advance(r)) && |Advance(r).slots| == |r.slots|
    ensures Released(r) == Due(r, 0)
    ensures forall k :: 0 <= k < |r.slots| ==>
      Due(Advance(r), k) == if k + 1 < |r.slots| then Due(r, k + 1) else []
  {
    var l := |r.slots|;
    forall k | 0 <= k < l
      ensures Due(Advance(r), k) == if k + 1 < l then Due(r, k + 1) else []
    {
      WrapShift(r.cur, 1, l);
      WrapShift(Wrap(r.cur + 1, l), k, l);
      WrapShift(r.cur, k + 1, l);
    }
  }

  // ---------------------------------------------------------------- runs

  datatype Op<T> = Put(x: T, expiration: nat) | Step

  function After<T>(r: Ring<T>, op: Op<T>): Ring<T>
    requires Used(r)
    ensures Used(After(r, op)) && |After(r, op).slots| == |r.slots|
  {
    match op
    case Put(x, e) => Insert(r, x, e)
    case Step => Advance(r)
  }

  /** The batches released by the advances of a run, in order. */
  function Batches<T>(r: Ring<T>, ops: seq<Op<T>>): seq<seq<T>>
    requires Used(r)
    decreases |ops|
  {
    if ops == [] then []
    else (if ops[0].Step? then [Released(r)] else []) + Batches(After(r, ops[0]), ops[1..])
  }

  /** The specification: a clock that counts advances and a map from deadlines to what falls due.
      The deadline of a descriptor is the number of the advance that releases it. */
  datatype Deadlines<T> = Deadlines(now: nat, due: map<nat, seq<T>>)

  function DueAt<T>(d: Deadlines<T>, n: nat): seq<T> { if n in d.due then d.due[n] else [] }

  function DeadlineAfter<T>(d: Deadlines<T>, op: Op<T>, slots: nat): Deadlines<T>
    requires slots > 0
  {
    match op
    case Put(x, e) =>
      var n := d.now + Wrap(e, slots);
      d.(due := d.due[n := DueAt(d, n) + [x]])
    case Step => d.(now := d.now + 1)
  }

  function DeadlineBatches<T>(d: Deadlines<T>, ops: seq<Op<T>>, slots: nat): seq<seq<T>>
    requires slots > 0
    decreases |ops|
  {
    if ops == [] then []
    else (if ops[0].Step? then [DueAt(d, d.now)] else [])
         + DeadlineBatches(DeadlineAfter(d, ops[0], slots), ops[1..], slots)
  }

  ghost predicate Refines<T>(r: Ring<T>, d: Deadlines<T>) {
    && Used(r)
    && (forall k :: 0 <= k < |r.slots| ==> Due(r, k) == DueAt(d, d.now + k))
    && (forall n :: n >= d.now + |r.slots| ==> DueAt(d, n) == [])
  }

  lemma RefinesPut<T>(r: Ring<T>, d: Deadlines<T>, x: T, e: nat)
    requires Refines(r, d)
    ensures Refines(Insert(r, x, e), DeadlineAfter(d, Put(x, e), |r.slots|))
  {
    hide Insert, Due;
    var d' := DeadlineAfter(d, Put(x, e), |r.slots|);
    var at := d.now + Wrap(e, |r.slots|);
    assert forall n :: n != at ==> DueAt(d', n) == DueAt(d, n);
    InsertDue(r, x, e);
  }

  lemma RefinesAfter<T>(r: Ring<T>, d: Deadlines<T>, op: Op<T>)
    requires Refines(r, d)
    ensures Refines(After(r, op), DeadlineAfter(d, op, |r.slots|))
  {
    match op
    case Put(x, e) => RefinesPut(r, d, x, e);
    case Step =>
      AdvanceDue(r);
      var r', d' := Advance(r), DeadlineAfter(d, op, |r.slots|);
      assert forall n :: DueAt(d', n) == DueAt(d, n);
      forall k | 0 <= k < |r.slots|
        ensures Due(r', k) == DueAt(d', d'.now + k)
      {
        if k + 1 < |r.slots| { assert Due(r, k + 1) == DueAt(d, d.now + (k + 1)); }
        else { assert DueAt(d, d.now + |r.slots|) == []; }
      }
  }

  /** The ring refines the deadline map: every run releases the same descriptors at the same
      advances in the same order. */
  lemma {:induction false} RingRefinesDeadlines<T>(r: Ring<T>, d: Deadlines<T>, ops: seq<Op<T>>)
    requires Refines(r, d)
    ensures Batches(r, ops) == DeadlineBatches(d, ops, |r.slots|)
    decreases |ops|
  {
    if ops != [] {
      RefinesAfter(r, d, ops[0]);
      AdvanceDue(r);
      assert Due(r, 0) == DueAt(d, d.now + 0);
      RingRefinesDeadlines(After(r, ops[0]), DeadlineAfter(d, ops[0], |r.slots|), ops[1..]);
    }
  }

  lemma EmptyRefines<T>(length: nat)
    requires length > 0
    ensures Refines(Empty<T>(length), Deadlines(0, map[]))
  {
    var r := Empty<T>(length);
    forall k | 0 <= k < |r.slots| ensures Due(r, k) == [] { }
  }

  /** A buffer that starts empty refines an empty deadline map over its whole life. */
  lemma FreshRingRefines<T>(length: nat, ops: seq<Op<T>>)
    requires length > 0
    ensures Used(Empty<T>(length))
    ensures Batches(Empty<T>(length), ops) == DeadlineBatches(Deadlines(0, map[]), ops, length)
  {
    EmptyRefines<T>(length);
    RingRefinesDeadlines(Empty<T>(length), Deadlines(0, map[]), ops);
  }

  // ---------------------------------------------------------------- when one descriptor is released

  ghost predicate Absent<T>(r: Ring<T>, x: T) {
    forall k :: 0 <= k < |r.slots| ==> x !in Due(r, k)
  }

  ghost predicate NeverPut<T>(ops: seq<Op<T>>, x: T) {
    forall i :: 0 <= i < |ops| && ops[i].Put? ==> ops[i].x != x
  }

  /** `r'` holds one more `x` than `r`, in the slot released by the advance with number `at`. */
  ghost predicate OneMoreAt<T>(r: Ring<T>, r': Ring<T>, x: T, at: int) {
    && Used(r) && Used(r') && |r'.slots| == |r.slots| && at < |r.slots|
    && forall k :: 0 <= k < |r.slots| ==> OneMoreIf(Due(r, k), Due(r', k), x, k == at)
  }

  ghost predicate OneMoreIf<T>(s: seq<T>, s': seq<T>, x: T, more: bool) {
    multiset(s') == multiset(s) + if more then multiset{x} else multiset{}
  }

  /** A descriptor placed with `expiration` is released by exactly one advance, the one with number
      `expiration` modulo the number of slots, counting from 0. Whatever the ring holds and whatever else
      is inserted, the same target included: with it, that advance releases one descriptor of `x` more,
      and every other advance releases what it would have released without it. */
  lemma ReleasedExactly<T>(r: Ring<T>, x: T, expiration: nat, ops: seq<Op<T>>)
    requires Used(r)
    ensures var with, without := Batches(Insert(r, x, expiration), ops), Batches(r, ops);
            && |with| == |without|
            && forall j :: 0 <= j < |with| ==>
                 OneMoreIf(without[j], with[j], x, j == Wrap(expiration, |r.slots|))
  {
    var at := Wrap(expiration, |r.slots|);
    InsertDue(r, x, expiration);
    OneMoreBatches(r, Insert(r, x, expiration), x, at, ops);
  }

  lemma OneMoreAfter<T>(r: Ring<T>, r': Ring<T>, x: T, at: int, op: Op<T>)
    requires OneMoreAt(r, r', x, at)
    ensures OneMoreAt(After(r, op), After(r', op), x, if op.Step? then at - 1 else at)
  {
    hide Due, Insert, Advance, Wrap;
    match op
    case Put(y, e) =>
      InsertDue(r, y, e);
      InsertDue(r', y, e);
      forall k | 0 <= k < |r.slots|
        ensures OneMoreIf(Due(Insert(r, y, e), k), Due(Insert(r', y, e), k), x, k == at)
      {
        assert OneMoreIf(Due(r, k), Due(r', k), x, k == at);
      }
    case Step =>
      AdvanceDue(r);
      AdvanceDue(r');
      forall k | 0 <= k < |r.slots|
        ensures OneMoreIf(Due(Advance(r), k), Due(Advance(r'), k), x, k == at - 1)
      {
        if k + 1 < |r.slots| { assert OneMoreIf(Due(r, k + 1), Due(r', k + 1), x, k + 1 == at); }
      }
  }

  lemma {:induction false} OneMoreBatches<T>(r: Ring<T>, r': Ring<T>, x: T, at: int, ops: seq<Op<T>>)
    requires OneMoreAt(r, r', x, at)
    ensures var with, without := Batches(r', ops), Batches(r, ops);
            |with| == |without| && forall j :: 0 <= j < |with| ==> OneMoreIf(without[j], with[j], x, j == at)
    decreases |ops|
  {
    hide OneMoreIf;
    if ops != [] {
      OneMoreAfter(r, r', x, at, ops[0]);
      var at' := if ops[0].Step? then at - 1 else at;
      OneMoreBatches(After(r, ops[0]), After(r', ops[0]), x, at', ops[1..]);
      if ops[0].Step? {
        var with, without := Batches(After(r', ops[0]), ops[1..]), Batches(After(r, ops[0]), ops[1..]);
        AdvanceDue(r);
        AdvanceDue(r');
        assert Batches(r', ops) == [Due(r', 0)] + with && Batches(r, ops) == [Due(r, 0)] + without;
        forall j | 0 <= j < |with| + 1
          ensures OneMoreIf(([Due(r, 0)] + without)[j], ([Due(r', 0)] + with)[j], x, j == at)
        {
          if j > 0 { assert OneMoreIf(without[j - 1], with[j - 1], x, j - 1 == at'); }
        }
      } else {
        assert Batches(r', ops) == Batches(After(r', ops[0]), ops[1..]);
        assert Batches(r, ops) == Batches(After(r, ops[0]), ops[1..]);
      }
    }
  }

  /** In particular, if nothing else names `x`, it is in that batch and in no other: never earlier and
      never later. */
  lemma ReleasedOnce<T>(r: Ring<T>, x: T, expiration: nat, ops: seq<Op<T>>)
    requires Used(r) && Absent(r, x) && NeverPut(ops, x)
    ensures var batches := Batches(Insert(r, x, expiration), ops);
            forall j :: 0 <= j < |batches| ==> (x in batches[j] <==> j == Wrap(expiration, |r.slots|))
  {
    hide Batches, Absent, NeverPut, Insert, Wrap;
    InsertDue(r, x, expiration);
    ReleasedExactly(r, x, expiration, ops);
    NeverReleased(r, x, ops);
    var with, without := Batches(Insert(r, x, expiration), ops), Batches(r, ops);
    forall j | 0 <= j < |with|
      ensures x in with[j] <==> j == Wrap(expiration, |r.slots|)
    {
      assert OneMoreIf(without[j], with[j], x, j == Wrap(expiration, |r.slots|));
      assert x !in without[j] && (x in with[j] <==> x in multiset(with[j]));
      assert x !in multiset(without[j]);
    }
  }

  lemma {:induction false} NeverReleased<T>(r: Ring<T>, x: T, ops: seq<Op<T>>)
    requires Used(r) && Absent(r, x) && NeverPut(ops, x)
    ensures forall j :: 0 <= j < |Batches(r, ops)| ==> x !in Batches(r, ops)[j]
    decreases |ops|
  {
    if ops != [] {
      var r' := After(r, ops[0]);
      if ops[0].Put? { InsertDue(r, ops[0].x, ops[0].expiration); } else { AdvanceDue(r); }
      NeverReleased(r', x, ops[1..]);
      var rest := Batches(r', ops[1..]);
      if ops[0].Put? {
        assert Batches(r, ops) == rest;
      } else {
        assert Batches(r, ops) == [Due(r, 0)] + rest;
      }
    }
  }

  /** A local refresh with clamped extension e is released by advance number e: the (e+1)-th. */
  lemma LocalRefreshDue(given: nat)
    ensures Wrap(CheckExtension(given), LOCAL_SLOTS) == CheckExtension(given)
  {
  }

  /** A global refresh inserts at extension + 2 into a ring of MAX_EXTENSION + 2 slots. It is released
      by advance number e + 2, the (e+3)-th, if and only if the extension was below the maximum; at
      the maximum the insert wraps to the current slot and the very next advance releases it. */
  lemma GlobalRefreshDue(given: nat)
    ensures var e := CheckExtension(given);
            && (Wrap(e + 2, GLOBAL_SLOTS) == e + 2 <==> given < MAX_EXTENSION)
            && (given >= MAX_EXTENSION ==> Wrap(e + 2, GLOBAL_SLOTS) == 0)
  {
  }
}
