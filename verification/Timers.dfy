/** Deadlines on a wrapping 32-bit millisecond clock: the pair of ordered maps the lookup thread
    keeps, against one queue of unbounded deadlines. */
module Timers {
  import opened Common

  const WRAP := 0x1_0000_0000
  /** The ticks below HALF count as the first half of the clock; a wait is never longer than MAX_SLEEP. */
  const HALF := 0x7fff_ffff
  const MAX_SLEEP := 0x3fff_ffff

  /** What the 32-bit millisecond clock shows at an unbounded time. */
  function Ticks(t: nat): uint32 {
    t % WRAP
  }

  function Epoch(t: nat): nat {
    t / WRAP
  }

  predicate FirstHalf(ticks: uint32) {
    ticks < HALF
  }

  // ---------- wrap detection ----------

  /** The thread's test for a wrapped clock between two polls. */
  predicate WrapSeen(last: nat, now: nat) {
    FirstHalf(Ticks(now)) && !FirstHalf(Ticks(last))
  }

  lemma SplitTime(t: nat)
    ensures t == Epoch(t) * WRAP + Ticks(t)
  {
  }

  lemma EpochIs(t: nat, e: nat, r: nat)
    requires t == e * WRAP + r && r < WRAP
    ensures Epoch(t) == e && Ticks(t) == r
  {
    SplitTime(t);
  }

  /** Polls at most 2^31 - 1 ms apart: the test fires exactly when the clock passed a multiple of
      2^32, and then exactly one. */
  lemma WrapExact(last: nat, now: nat)
    requires last <= now <= last + HALF
    ensures WrapSeen(last, now) <==> Epoch(now) != Epoch(last)
    ensures WrapSeen(last, now) ==> Epoch(now) == Epoch(last) + 1
  {
    SplitTime(last);
    var r := Ticks(last) + (now - last);
    if r < WRAP {
      EpochIs(now, Epoch(last), r);
    } else {
      EpochIs(now, Epoch(last) + 1, r - WRAP);
    }
  }

  ghost predicate ExactUpTo(gap: nat) {
    forall last: nat, now: nat {:trigger WrapSeen(last, now)} ::
      last <= now <= last + gap ==> (WrapSeen(last, now) <==> Epoch(now) != Epoch(last))
  }

  /** 2^31 - 1 is the largest gap for which the test is always right. */
  lemma WrapBoundIsTight(gap: nat)
    ensures ExactUpTo(gap) <==> gap <= 0x7fff_ffff
  {
    if gap <= HALF {
      forall last: nat, now: nat | last <= now <= last + gap
        ensures WrapSeen(last, now) <==> Epoch(now) != Epoch(last)
      {
        WrapExact(last, now);
      }
    } else {
      var last, now := WRAP - 1, WRAP + HALF;
      assert !WrapSeen(last, now) && Epoch(last) == 0 && Epoch(now) == 1;
    }
  }

  /** A sleep of at most MAX_SLEEP leaves 2^30 ms for everything else between two polls. */
  lemma SleepLeavesRoom(last: nat, sleep: nat, rest: nat)
    requires sleep <= 0x3fff_ffff && rest <= 0x4000_0000
    ensures var now := last + sleep + rest; WrapSeen(last, now) <==> Epoch(now) != Epoch(last)
  {
    WrapExact(last, last + sleep + rest);
  }

  // ---------- ordered multimaps ----------

  /** A deadline multimap: ordered by key, equal keys in order of insertion.
      With unbounded keys, the same type is the reference queue. */
  datatype Queue<R> = Nil | Node(key: nat, who: R, next: Queue<R>)

  function Insert<R>(q: Queue<R>, key: nat, r: R): Queue<R> {
    if q.Nil? || key < q.key then Node(key, r, q) else Node(q.key, q.who, Insert(q.next, key, r))
  }

  /** erase(iterator): the stored iterator is the node that holds (key, r). */
  function Erase<R(==)>(q: Queue<R>, key: nat, r: R): Queue<R> {
    if q.Nil? then Nil
    else if q.key == key && q.who == r then q.next
    else Node(q.key, q.who, Erase(q.next, key, r))
  }

  predicate Has<R(==)>(q: Queue<R>, key: nat, r: R) {
    q.Node? && ((q.key == key && q.who == r) || Has(q.next, key, r))
  }

  function Members<R(==)>(q: Queue<R>): set<R> {
    if q.Nil? then {} else {q.who} + Members(q.next)
  }

  predicate AtLeast<R>(q: Queue<R>, low: nat) {
    q.Node? ==> low <= q.key && AtLeast(q.next, low)
  }

  predicate Below<R>(q: Queue<R>, high: nat) {
    q.Node? ==> q.key < high && Below(q.next, high)
  }

  predicate Sorted<R>(q: Queue<R>) {
    q.Node? ==> AtLeast(q.next, q.key) && Sorted(q.next)
  }

  /** Each request stands in a queue once. */
  predicate Once<R(==)>(q: Queue<R>) {
    q.Node? ==> q.who !in Members(q.next) && Once(q.next)
  }

  function Concat<R>(a: Queue<R>, b: Queue<R>): Queue<R> {
    if a.Nil? then b else Node(a.key, a.who, Concat(a.next, b))
  }

  /** The keys of a map of clock epoch e, as unbounded times. */
  function Lift<R>(q: Queue<R>, e: nat): Queue<R> {
    if q.Nil? then Nil else Node(q.key + e * WRAP, q.who, Lift(q.next, e))
  }

  // ---------- laws of ordered maps ----------

  lemma {:induction false} InsertAtLeast<R>(q: Queue<R>, key: nat, r: R, low: nat)
    ensures AtLeast(Insert(q, key, r), low) <==> AtLeast(q, low) && low <= key
    decreases q
  {
    if q.Nil? {
    } else {
      InsertAtLeast(q.next, key, r, low);
    }
  }

  lemma {:induction false} AtLeastTrans<R>(q: Queue<R>, low: nat, lower: nat)
    requires AtLeast(q, low) && lower <= low
    ensures AtLeast(q, lower)
    decreases q
  {
    if q.Nil? {
    } else {
      AtLeastTrans(q.next, low, lower);
    }
  }

  lemma {:induction false} InsertSorted<R>(q: Queue<R>, key: nat, r: R, high: nat)
    requires Sorted(q)
    ensures Sorted(Insert(q, key, r))
    ensures Below(Insert(q, key, r), high) <==> Below(q, high) && key < high
    decreases q
  {
    if q.Nil? {
    } else {
      InsertSorted(q.next, key, r, high);
      InsertAtLeast(q.next, key, r, q.key);
      if key < q.key {
        AtLeastTrans(q.next, q.key, key);
      }
    }
  }

  lemma {:induction false} EraseAtLeast<R>(q: Queue<R>, key: nat, r: R, low: nat)
    requires AtLeast(q, low)
    ensures AtLeast(Erase(q, key, r), low)
    decreases q
  {
    if q.Nil? {
    } else {
      EraseAtLeast(q.next, key, r, low);
    }
  }

  lemma {:induction false} EraseSorted<R>(q: Queue<R>, key: nat, r: R, high: nat)
    requires Sorted(q) && Below(q, high)
    ensures Sorted(Erase(q, key, r)) && Below(Erase(q, key, r), high)
    decreases q
  {
    if q.Nil? {
    } else {
      EraseSorted(q.next, key, r, high);
      EraseAtLeast(q.next, key, r, q.key);
    }
  }

  /** The rollback of a failed insertion undoes it. */
  lemma {:induction false} EraseInsert<R>(q: Queue<R>, key: nat, r: R)
    requires r !in Members(q)
    ensures Erase(Insert(q, key, r), key, r) == q
    decreases q
  {
    if q.Nil? {
    } else {
      EraseInsert(q.next, key, r);
    }
  }

  lemma {:induction false} InsertOnce<R>(q: Queue<R>, key: nat, r: R)
    ensures Members(Insert(q, key, r)) == Members(q) + {r}
    ensures Once(q) && r !in Members(q) ==> Once(Insert(q, key, r))
    decreases q
  {
    if q.Nil? {
    } else {
      InsertOnce(q.next, key, r);
    }
  }

  lemma {:induction false} InsertHas<R>(q: Queue<R>, key: nat, r: R, k: nat, x: R)
    ensures Has(Insert(q, key, r), k, x) <==> Has(q, k, x) || (k == key && x == r)
    decreases q
  {
    if q.Nil? {
    } else {
      InsertHas(q.next, key, r, k, x);
    }
  }

  lemma {:induction false} HasMember<R>(q: Queue<R>, key: nat, r: R)
    requires Has(q, key, r)
    ensures r in Members(q)
    decreases q
  {
    if q.key == key && q.who == r {
    } else {
      HasMember(q.next, key, r);
    }
  }

  lemma {:induction false} HasAtLeast<R>(q: Queue<R>, key: nat, r: R, low: nat)
    requires Has(q, key, r) && AtLeast(q, low)
    ensures low <= key
    decreases q
  {
    if q.key == key && q.who == r {
    } else {
      HasAtLeast(q.next, key, r, low);
    }
  }

  lemma {:induction false} EraseOnce<R>(q: Queue<R>, key: nat, r: R)
    requires Once(q) && Has(q, key, r)
    ensures Once(Erase(q, key, r))
    ensures Members(Erase(q, key, r)) == Members(q) - {r}
    decreases q
  {
    if q.key == key && q.who == r {
    } else {
      HasMember(q.next, key, r);
      EraseOnce(q.next, key, r);
    }
  }

  lemma {:induction false} EraseHas<R>(q: Queue<R>, key: nat, r: R, k: nat, x: R)
    requires Has(q, k, x) && x != r
    ensures Has(Erase(q, key, r), k, x)
    decreases q
  {
    if (q.key == key && q.who == r) || (q.key == k && q.who == x) {
    } else {
      EraseHas(q.next, key, r, k, x);
    }
  }

  // ---------- lifting and concatenation ----------

  lemma {:induction false} LiftInsert<R>(q: Queue<R>, key: nat, r: R, e: nat)
    ensures Lift(Insert(q, key, r), e) == Insert(Lift(q, e), key + e * WRAP, r)
    decreases q
  {
    if q.Nil? {
    } else {
      LiftInsert(q.next, key, r, e);
    }
  }

  lemma {:induction false} LiftErase<R>(q: Queue<R>, key: nat, r: R, e: nat)
    ensures Lift(Erase(q, key, r), e) == Erase(Lift(q, e), key + e * WRAP, r)
    decreases q
  {
    if q.Nil? {
    } else {
      LiftErase(q.next, key, r, e);
    }
  }

  lemma {:induction false} LiftHas<R>(q: Queue<R>, key: nat, r: R, e: nat)
    requires Has(q, key, r)
    ensures Has(Lift(q, e), key + e * WRAP, r)
    decreases q
  {
    if q.key == key && q.who == r {
    } else {
      LiftHas(q.next, key, r, e);
    }
  }

  lemma {:induction false} LiftBounds<R>(q: Queue<R>, e: nat)
    requires Below(q, WRAP)
    ensures AtLeast(Lift(q, e), e * WRAP) && Below(Lift(q, e), (e + 1) * WRAP)
    decreases q
  {
    if q.Nil? {
    } else {
      LiftBounds(q.next, e);
    }
  }

  lemma {:induction false} InsertLeft<R>(a: Queue<R>, b: Queue<R>, key: nat, r: R)
    requires AtLeast(b, key + 1)
    ensures Insert(Concat(a, b), key, r) == Concat(Insert(a, key, r), b)
    decreases a
  {
    if a.Nil? {
    } else {
      InsertLeft(a.next, b, key, r);
    }
  }

  lemma {:induction false} InsertRight<R>(a: Queue<R>, b: Queue<R>, key: nat, r: R)
    requires Below(a, key + 1)
    ensures Insert(Concat(a, b), key, r) == Concat(a, Insert(b, key, r))
    decreases a
  {
    if a.Nil? {
    } else {
      InsertRight(a.next, b, key, r);
    }
  }

  lemma {:induction false} EraseLeft<R>(a: Queue<R>, b: Queue<R>, key: nat, r: R)
    requires Has(a, key, r)
    ensures Erase(Concat(a, b), key, r) == Concat(Erase(a, key, r), b)
    decreases a
  {
    if a.key == key && a.who == r {
    } else {
      EraseLeft(a.next, b, key, r);
    }
  }

  lemma {:induction false} EraseRight<R>(a: Queue<R>, b: Queue<R>, key: nat, r: R)
    requires Below(a, key)
    ensures Erase(Concat(a, b), key, r) == Concat(a, Erase(b, key, r))
    decreases a
  {
    if a.Nil? {
    } else {
      EraseRight(a.next, b, key, r);
    }
  }

  lemma {:induction false} BelowTrans<R>(q: Queue<R>, high: nat, higher: nat)
    requires Below(q, high) && high <= higher
    ensures Below(q, higher)
    decreases q
  {
    if q.Nil? {
    } else {
      BelowTrans(q.next, high, higher);
    }
  }

  function Occurs<R(==)>(q: Queue<R>, key: nat, r: R): nat {
    if q.Nil? then 0 else (if q.key == key && q.who == r then 1 else 0) + Occurs(q.next, key, r)
  }

  lemma {:induction false} OccursInsert<R>(q: Queue<R>, key: nat, r: R, k: nat)
    ensures Occurs(Insert(q, key, r), k, r) == Occurs(q, k, r) + if k == key then 1 else 0
    decreases q
  {
    if q.Nil? {
    } else {
      OccursInsert(q.next, key, r, k);
    }
  }

  lemma {:induction false} OccursConcat<R>(a: Queue<R>, b: Queue<R>, k: nat, r: R)
    ensures Occurs(Concat(a, b), k, r) == Occurs(a, k, r) + Occurs(b, k, r)
    decreases a
  {
    if a.Nil? {
    } else {
      OccursConcat(a.next, b, k, r);
    }
  }

  // ---------- the two maps refine one queue ----------

  /** The deadline map of the current clock epoch and that of the next one. */
  datatype Wheel<R> = Wheel(current: Queue<R>, next: Queue<R>)

  /** timeMap1 holds the deadlines of clock epoch e and timeMap2 those of the next epoch, and
      together they are the single queue q of unbounded deadlines. */
  predicate Refines<R(==)>(w: Wheel<R>, q: Queue<R>, e: nat) {
    && Sorted(w.current) && Below(w.current, WRAP)
    && Sorted(w.next) && Below(w.next, WRAP)
    && q == Concat(Lift(w.current, e), Lift(w.next, e + 1))
  }

  /** resolve's choice of key and map. */
  function Add<R>(w: Wheel<R>, cur: uint32, timeout: uint32, r: R): Wheel<R> {
    var end := (cur + timeout) % WRAP;
    if end < cur then w.(next := Insert(w.next, end, r)) else w.(current := Insert(w.current, end, r))
  }

  /** The 32-bit sum and its overflow test find the deadline's ticks and epoch. */
  lemma DeadlineSplit(now: nat, timeout: uint32)
    ensures var cur, due := Ticks(now), now + timeout;
            var end := (cur + timeout) % WRAP;
            && end == Ticks(due)
            && Epoch(due) == Epoch(now) + if end < cur then 1 else 0
  {
    SplitTime(now);
    var s := Ticks(now) + timeout;
    if s < WRAP {
      EpochIs(now + timeout, Epoch(now), s);
    } else {
      EpochIs(now + timeout, Epoch(now) + 1, s - WRAP);
    }
  }

  lemma AddInEpoch<R>(w: Wheel<R>, q: Queue<R>, e: nat, now: nat, timeout: uint32, r: R)
    requires Refines(w, q, e) && Epoch(now) == e
    ensures Refines(Add(w, Ticks(now), timeout, r), Insert(q, now + timeout, r), e)
  {
    hide Sorted, Below, AtLeast, Insert, Concat, Lift, Ticks, Epoch;
    DeadlineSplit(now, timeout);
    SplitTime(now + timeout);
    var end := Ticks(now + timeout);
    InsertSorted(w.current, end, r, WRAP);
    InsertSorted(w.next, end, r, WRAP);
    LiftBounds(w.current, e);
    LiftBounds(w.next, e + 1);
    if end < Ticks(now) {
      BelowTrans(Lift(w.current, e), (e + 1) * WRAP, now + timeout + 1);
      InsertRight(Lift(w.current, e), Lift(w.next, e + 1), now + timeout, r);
      LiftInsert(w.next, end, r, e + 1);
    } else {
      AtLeastTrans(Lift(w.next, e + 1), (e + 1) * WRAP, now + timeout + 1);
      InsertLeft(Lift(w.current, e), Lift(w.next, e + 1), now + timeout, r);
      LiftInsert(w.current, end, r, e);
    }
  }

  /** A request added while the thread's last poll lies in another clock epoch lands at a wrong
      deadline; adding is right exactly in the epoch of the last poll. */
  lemma AddExact<R>(w: Wheel<R>, q: Queue<R>, e: nat, now: nat, timeout: uint32, r: R)
    requires Refines(w, q, e)
    ensures Refines(Add(w, Ticks(now), timeout, r), Insert(q, now + timeout, r), e) <==> Epoch(now) == e
  {
    hide Sorted, Below, Insert, Concat, Lift, Occurs, Ticks, Epoch;
    if Epoch(now) == e {
      AddInEpoch(w, q, e, now, timeout, r);
    } else {
      DeadlineSplit(now, timeout);
      SplitTime(now + timeout);
      var end, due := Ticks(now + timeout), now + timeout;
      var a, b := Lift(w.current, e), Lift(w.next, e + 1);
      LiftInsert(w.current, end, r, e);
      LiftInsert(w.next, end, r, e + 1);
      OccursInsert(q, due, r, due);
      OccursConcat(a, b, due, r);
      OccursInsert(a, end + e * WRAP, r, due);
      OccursInsert(b, end + (e + 1) * WRAP, r, due);
      OccursConcat(Insert(a, end + e * WRAP, r), b, due, r);
      OccursConcat(a, Insert(b, end + (e + 1) * WRAP, r), due, r);
    }
  }

  /** Erasing a node from its map erases its deadline from the queue. */
  lemma EraseRefines<R>(w: Wheel<R>, q: Queue<R>, e: nat, key: nat, r: R)
    requires Refines(w, q, e)
    ensures Has(w.current, key, r) ==>
              Refines(w.(current := Erase(w.current, key, r)), Erase(q, key + e * WRAP, r), e)
    ensures Has(w.next, key, r) ==>
              Refines(w.(next := Erase(w.next, key, r)), Erase(q, key + (e + 1) * WRAP, r), e)
  {
    hide Sorted, Below, AtLeast, Erase, Has, Concat, Lift;
    EraseSorted(w.current, key, r, WRAP);
    EraseSorted(w.next, key, r, WRAP);
    LiftErase(w.current, key, r, e);
    LiftErase(w.next, key, r, e + 1);
    if Has(w.current, key, r) {
      LiftHas(w.current, key, r, e);
      EraseLeft(Lift(w.current, e), Lift(w.next, e + 1), key + e * WRAP, r);
    }
    LiftBounds(w.current, e);
    BelowTrans(Lift(w.current, e), (e + 1) * WRAP, key + (e + 1) * WRAP);
    EraseRight(Lift(w.current, e), Lift(w.next, e + 1), key + (e + 1) * WRAP, r);
  }

  /** With the current map drained, swapping the maps enters the next epoch. */
  lemma SwapRefines<R>(w: Wheel<R>, q: Queue<R>, e: nat)
    requires Refines(w, q, e) && w.current.Nil?
    ensures Refines(Wheel(w.next, w.current), q, e + 1)
  {
    ConcatNil(Lift(w.next, e + 1));
  }

  lemma {:induction false} ConcatNil<R>(q: Queue<R>)
    ensures Concat(q, Nil) == q
    decreases q
  {
    if q.Nil? {
    } else {
      ConcatNil(q.next);
    }
  }

  // ---------- a whole poll ----------

  /** Everyone in a map, in order. */
  function Everyone<R>(q: Queue<R>): seq<R> {
    if q.Nil? then [] else [q.who] + Everyone(q.next)
  }

  /** Those a poll at the given time finds due, and the queue it leaves. */
  function Due<R>(q: Queue<R>, now: nat): seq<R> {
    if q.Nil? || q.key > now then [] else [q.who] + Due(q.next, now)
  }

  function After<R>(q: Queue<R>, now: nat): Queue<R> {
    if q.Nil? || q.key > now then q else After(q.next, now)
  }

  /** The timer part of one turn of run, with no one interfering: whom it times out, in order. */
  function PollDue<R>(w: Wheel<R>, wrapped: bool, cur: uint32): seq<R> {
    if wrapped then Everyone(w.current) + Due(w.next, cur) else Due(w.current, cur)
  }

  function PollAfter<R>(w: Wheel<R>, wrapped: bool, cur: uint32): Wheel<R> {
    if wrapped then Wheel(After(w.next, cur), Nil) else w.(current := After(w.current, cur))
  }

  lemma {:induction false} DueLift<R>(q: Queue<R>, cur: nat, e: nat)
    ensures Due(Lift(q, e), cur + e * WRAP) == Due(q, cur)
    ensures After(Lift(q, e), cur + e * WRAP) == Lift(After(q, cur), e)
    decreases q
  {
    if q.Nil? {
    } else {
      DueLift(q.next, cur, e);
    }
  }

  lemma {:induction false} DueAcross<R>(a: Queue<R>, b: Queue<R>, now: nat)
    ensures AtLeast(b, now + 1) ==>
              Due(Concat(a, b), now) == Due(a, now) && After(Concat(a, b), now) == Concat(After(a, now), b)
    ensures Below(a, now + 1) ==>
              Due(Concat(a, b), now) == Everyone(a) + Due(b, now) && After(Concat(a, b), now) == After(b, now)
    decreases a
  {
    if a.Nil? {
    } else {
      DueAcross(a.next, b, now);
    }
  }

  lemma {:induction false} EveryoneLift<R>(q: Queue<R>, e: nat)
    ensures Everyone(Lift(q, e)) == Everyone(q)
    decreases q
  {
    if q.Nil? {
    } else {
      EveryoneLift(q.next, e);
    }
  }

  lemma {:induction false} AfterSorted<R>(q: Queue<R>, now: nat, high: nat)
    requires Sorted(q) && Below(q, high)
    ensures Sorted(After(q, now)) && Below(After(q, now), high) && AtLeast(After(q, now), now + 1)
    decreases q
  {
    if q.Nil? {
    } else {
      if q.key > now {
        AtLeastTrans(q.next, q.key, now + 1);
      } else {
        AfterSorted(q.next, now, high);
      }
    }
  }

  /** One poll of the two maps is one poll of the single queue: the same requests time out in the
      same order, namely those whose true deadline has come, and the rest still refine the queue. */
  lemma PollRefines<R>(w: Wheel<R>, q: Queue<R>, last: nat, now: nat)
    requires Refines(w, q, Epoch(last)) && last <= now <= last + HALF
    ensures var wrapped := WrapSeen(last, now);
            && PollDue(w, wrapped, Ticks(now)) == Due(q, now)
            && Refines(PollAfter(w, wrapped, Ticks(now)), After(q, now), Epoch(now))
  {
    hide Sorted, Below, AtLeast, Concat, Lift, Due, After, Everyone, Ticks, Epoch;
    WrapExact(last, now);
    SplitTime(now);
    var e, cur := Epoch(last), Ticks(now);
    var a, b := Lift(w.current, e), Lift(w.next, e + 1);
    AfterSorted(w.current, cur, WRAP);
    AfterSorted(w.next, cur, WRAP);
    LiftBounds(w.current, e);
    LiftBounds(w.next, e + 1);
    DueAcross(a, b, now);
    if WrapSeen(last, now) {
      BelowTrans(a, (e + 1) * WRAP, now + 1);
      DueLift(w.next, cur, e + 1);
      EveryoneLift(w.current, e);
      LiftNil<R>(e + 2);
      ConcatNil(Lift(After(w.next, cur), e + 1));
    } else {
      AtLeastTrans(b, (e + 1) * WRAP, now + 1);
      DueLift(w.current, cur, e);
    }
  }

  lemma LiftNil<R>(e: nat)
    ensures Lift<R>(Nil, e) == Nil && Sorted<R>(Nil) && Below<R>(Nil, WRAP)
  {
  }

  /** The assertion that timeMap1 is not empty before the sleep fails exactly when every remaining
      deadline lies past the next wrap of the clock. */
  lemma CurrentEmpty<R>(w: Wheel<R>, q: Queue<R>, e: nat)
    requires Refines(w, q, e)
    ensures w.current.Nil? <==> AtLeast(q, (e + 1) * WRAP)
  {
    LiftBounds(w.next, e + 1);
  }

  /** And it does fail: one request whose deadline lies past the wrap is enough. */
  lemma LonePastWrap<R>(now: nat, timeout: uint32, r: R)
    requires Ticks(now) + timeout >= WRAP
    ensures var w := Add(Wheel(Nil, Nil), Ticks(now), timeout, r);
            PollAfter(w, false, Ticks(now)).current.Nil? && w.next.Node?
  {
  }

  lemma {:induction false} DueInsert<R>(q: Queue<R>, key: nat, r: R, now: nat)
    ensures key <= now ==> r in Due(Insert(q, key, r), now)
    ensures key > now && r !in Members(q) ==> r !in Due(Insert(q, key, r), now)
    decreases q
  {
    if q.Nil? {
    } else {
      DueInsert(q.next, key, r, now);
      DueMembers(q, now);
    }
  }

  lemma {:induction false} DueMembers<R>(q: Queue<R>, now: nat)
    ensures forall r :: r in Due(q, now) ==> r in Members(q)
    decreases q
  {
    if q.Nil? {
    } else {
      DueMembers(q.next, now);
    }
  }

  lemma {:induction false} EveryoneInsert<R>(q: Queue<R>, key: nat, r: R)
    ensures r in Everyone(Insert(q, key, r))
    decreases q
  {
    if q.Nil? {
    } else {
      EveryoneInsert(q.next, key, r);
    }
  }

  /** When a new request times out at the next poll, whatever the maps hold: if its deadline has come, and also, however
      far its deadline, if it was resolved after the clock wrapped but before that poll. */
  lemma PrematureTimeout<R>(w: Wheel<R>, q: Queue<R>, last: nat, now: nat, poll: nat, timeout: uint32, r: R)
    requires Refines(w, q, Epoch(last)) && r !in Members(q)
    requires last <= now <= poll <= last + HALF
    ensures r in PollDue(Add(w, Ticks(now), timeout, r), WrapSeen(last, poll), Ticks(poll))
            <==> now + timeout <= poll || Epoch(now) != Epoch(last)
  {
    hide Refines, Due, Everyone, Insert, Members, Ticks, Epoch;
    WrapExact(last, poll);
    if Epoch(now) == Epoch(last) {
      hide PollDue, Add;
      AddInEpoch(w, q, Epoch(last), now, timeout, r);
      PollRefines(Add(w, Ticks(now), timeout, r), Insert(q, now + timeout, r), last, poll);
      DueInsert(q, now + timeout, r, poll);
    } else {
      EpochsBetween(last, now, poll);
      var end := (Ticks(now) + timeout) % WRAP;
      EveryoneInsert(w.current, end, r);
      DueInsert(w.next, end, r, Ticks(poll));
    }
  }

  /** Within half a clock cycle at most one wrap lies between. */
  lemma EpochsBetween(last: nat, now: nat, poll: nat)
    requires last <= now <= poll <= last + HALF && Epoch(now) != Epoch(last)
    ensures Epoch(poll) == Epoch(now) && Ticks(now) <= Ticks(poll) && Epoch(poll) != Epoch(last)
  {
    WrapExact(last, now);
    WrapExact(last, poll);
    SplitTime(last);
    SplitTime(now);
    SplitTime(poll);
  }

  /** The sleep before the next poll: positive, and never past the earliest deadline. */
  function Sleep(key: nat, cur: uint32): nat
    requires cur < key
  {
    if key - cur < MAX_SLEEP then key - cur else MAX_SLEEP
  }

  /** It lasts to the head's deadline, or is the longest wait allowed. */
  lemma SleepExactly(key: nat, cur: uint32)
    requires cur < key
    ensures 0 < Sleep(key, cur) <= 0x3fff_ffff && cur + Sleep(key, cur) <= key
    ensures cur + Sleep(key, cur) == key || Sleep(key, cur) == 0x3fff_ffff
  {
  }

  lemma SleepInTime<R>(w: Wheel<R>, q: Queue<R>, now: nat)
    requires Refines(w, q, Epoch(now)) && AtLeast(q, now + 1) && w.current.Node?
    ensures Ticks(now) < w.current.key
    ensures 0 < Sleep(w.current.key, Ticks(now)) <= MAX_SLEEP
    ensures AtLeast(q, now + Sleep(w.current.key, Ticks(now)))
  {
    SplitTime(now);
    LiftBounds(w.current, Epoch(now));
    LiftBounds(w.next, Epoch(now) + 1);
    var key := w.current.key + Epoch(now) * WRAP;
    assert q.key == key;
    LiftSorted(w.current, Epoch(now));
    AtLeastTrans(Lift(w.current.next, Epoch(now)), key, now + Sleep(w.current.key, Ticks(now)));
    AtLeastTrans(Lift(w.next, Epoch(now) + 1), (Epoch(now) + 1) * WRAP, now + Sleep(w.current.key, Ticks(now)));
    AtLeastConcat(Lift(w.current.next, Epoch(now)), Lift(w.next, Epoch(now) + 1),
                  now + Sleep(w.current.key, Ticks(now)));
  }

  lemma {:induction false} AtLeastConcat<R>(a: Queue<R>, b: Queue<R>, low: nat)
    ensures AtLeast(Concat(a, b), low) <==> AtLeast(a, low) && AtLeast(b, low)
    decreases a
  {
    if a.Nil? {
    } else {
      AtLeastConcat(a.next, b, low);
    }
  }

  lemma {:induction false} LiftAtLeast<R>(q: Queue<R>, low: nat, e: nat)
    requires AtLeast(q, low)
    ensures AtLeast(Lift(q, e), low + e * WRAP)
    decreases q
  {
    if q.Nil? {
    } else {
      LiftAtLeast(q.next, low, e);
    }
  }

  lemma LiftSorted<R>(q: Queue<R>, e: nat)
    requires Sorted(q) && q.Node?
    ensures AtLeast(Lift(q.next, e), q.key + e * WRAP)
  {
    LiftAtLeast(q.next, q.key, e);
  }

  lemma OnceKey<R>(q: Queue<R>, key: nat)
    requires q.Node? && Once(q) && Has(q, key, q.who)
    ensures key == q.key
  {
    if q.key != key {
      HasMember(q.next, key, q.who);
    }
  }

  // ---------- what a queue holds ----------

  lemma {:induction false} OnceHas<R>(q: Queue<R>, key: nat, other: nat, r: R)
    requires Once(q) && Has(q, key, r) && Has(q, other, r)
    ensures key == other
    decreases q
  {
    if q.who == r {
      OnceKey(q, key);
      OnceKey(q, other);
    } else {
      OnceHas(q.next, key, other, r);
    }
  }

  lemma {:induction false} HasConcat<R>(a: Queue<R>, b: Queue<R>, key: nat, r: R)
    ensures Has(Concat(a, b), key, r) <==> Has(a, key, r) || Has(b, key, r)
    decreases a
  {
    if a.Nil? {
    } else {
      HasConcat(a.next, b, key, r);
    }
  }

  lemma {:induction false} HasLift<R>(q: Queue<R>, key: nat, r: R, e: nat)
    ensures Has(Lift(q, e), key, r) <==> key >= e * WRAP && Has(q, key - e * WRAP, r)
    decreases q
  {
    if q.Nil? {
    } else {
      HasLift(q.next, key, r, e);
    }
  }

  lemma {:induction false} Earlier<R>(q: Queue<R>, low: nat) returns (key: nat, r: R)
    requires !AtLeast(q, low)
    ensures Has(q, key, r) && key < low
    decreases q
  {
    if q.key < low {
      key, r := q.key, q.who;
    } else {
      key, r := Earlier(q.next, low);
    }
  }

  /** The head of the current map is the head of the queue. */
  lemma HeadRefines<R>(w: Wheel<R>, q: Queue<R>, e: nat)
    requires Refines(w, q, e) && w.current.Node?
    ensures q.Node? && q.key == w.current.key + e * WRAP && q.who == w.current.who
    ensures Erase(q, q.key, q.who) == q.next
  {
  }

  /** Once the head of the current map lies after now, so does everything. */
  lemma AllLater<R>(w: Wheel<R>, q: Queue<R>, e: nat, now: nat)
    requires Refines(w, q, e) && now < (e + 1) * WRAP
    requires w.current.Node? ==> now < w.current.key + e * WRAP
    ensures AtLeast(q, now + 1)
  {
    hide Concat;
    LiftBounds(w.next, e + 1);
    AtLeastTrans(Lift(w.next, e + 1), (e + 1) * WRAP, now + 1);
    if w.current.Node? {
      LiftSorted(w.current, e);
      AtLeastTrans(Lift(w.current.next, e), w.current.key + e * WRAP, now + 1);
    }
    AtLeastConcat(Lift(w.current, e), Lift(w.next, e + 1), now + 1);
  }

  lemma {:induction false} LiftInjective<R>(p: Queue<R>, q: Queue<R>, e: nat)
    requires Lift(p, e) == Lift(q, e)
    ensures p == q
    decreases p
  {
    if p.Nil? {
    } else {
      LiftInjective(p.next, q.next, e);
    }
  }

  lemma {:induction false} SplitOnce<R>(a: Queue<R>, b: Queue<R>, c: Queue<R>, d: Queue<R>, bar: nat)
    requires Concat(a, b) == Concat(c, d)
    requires Below(a, bar) && AtLeast(b, bar) && Below(c, bar) && AtLeast(d, bar)
    ensures a == c && b == d
    decreases a
  {
    if a.Nil? || c.Nil? {
    } else {
      SplitOnce(a.next, b, c.next, d, bar);
    }
  }

  /** A queue is refined by one pair of maps only. */
  lemma RefinesOnce<R>(w: Wheel<R>, x: Wheel<R>, q: Queue<R>, e: nat)
    requires Refines(w, q, e) && Refines(x, q, e)
    ensures w == x
  {
    hide Sorted, Concat, Lift, Below, AtLeast;
    LiftBounds(w.current, e);
    LiftBounds(w.next, e + 1);
    LiftBounds(x.current, e);
    LiftBounds(x.next, e + 1);
    SplitOnce(Lift(w.current, e), Lift(w.next, e + 1), Lift(x.current, e), Lift(x.next, e + 1), (e + 1) * WRAP);
    LiftInjective(w.current, x.current, e);
    LiftInjective(w.next, x.next, e + 1);
  }

  /** A poll of a queue with nothing due changes nothing. */
  lemma NothingDue<R>(q: Queue<R>, now: nat)
    requires AtLeast(q, now + 1)
    ensures Due(q, now) == [] && After(q, now) == q
  {
  }
}
