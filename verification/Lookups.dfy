/** The lookup engine as its callers see it: one map of active requests, one send queue, and a log of
    what happened. The lookup thread's class is proved to follow this machine step by step. */
module Lookups {
  import opened Common
  import Wire

  /** One accepted request. The serial number tells it from every other request of any run; due is
      the true deadline on an unbounded clock; server is where its queries go. */
  datatype Request = Request(serial: nat, name: Name, rtype: uint16, id: uint16, due: nat, server: Ip)

  datatype State = State(
    active: map<Hnr, Request>,
    unsent: seq<Hnr>,
    calling: Option<Request>,
    armed: bool,
    wakes: nat,
    accepted: nat,
    completed: nat,
    cancelled: nat)

  const INITIAL := State(map[], [], None, false, 0, 0, 0, 0)

  /** Begun: the request left every index and its callback runs; Woken: a StartSending message ran. */
  datatype Event =
    | Accepted(h: Hnr, req: Request)
    | Cancelled(h: Hnr, req: Request)
    | Sent(h: Hnr, req: Request, packet: seq<byte>, dest: Ip)
    | Requeued(h: Hnr, req: Request)
    | Begun(h: Hnr, req: Request, result: DnsResult, ip: Ip)
    | Ended
    | Woken
    | Disarmed

  datatype Log = Start | Then(before: Log, e: Event)

  function Without<T(==)>(q: seq<T>, x: T): seq<T> {
    if q == [] then [] else if q[0] == x then q[1..] else [q[0]] + Without(q[1..], x)
  }

  predicate Unused(s: State, id: uint16) {
    forall h :: h in s.active ==> s.active[h].id != id
  }

  predicate IsActive(s: State, h: Hnr, req: Request) {
    h in s.active && s.active[h] == req
  }

  function Drop(s: State, h: Hnr): State {
    s.(active := s.active - {h}, unsent := Without(s.unsent, h))
  }

  /** The step an event takes, if the state allows it. */
  function Step(s: State, e: Event): Option<State> {
    match e
    case Accepted(h, req) =>
      if h !in s.active && Unused(s, req.id) && req.serial == s.accepted && req.rtype == TYPE_AAAA
         && |req.name| <= MAX_NAME
      then Some(s.(active := s.active[h := req], unsent := s.unsent + [h], accepted := s.accepted + 1,
                   wakes := if s.unsent == [] then s.wakes + 1 else s.wakes))
      else None
    case Cancelled(h, req) =>
      if IsActive(s, h, req) then Some(Drop(s, h).(cancelled := s.cancelled + 1)) else None
    case Sent(h, req, packet, dest) =>
      if IsActive(s, h, req) && s.armed && s.unsent != [] && s.unsent[0] == h
         && packet == Wire.Query(req.id, req.name, req.rtype) && dest == req.server
      then Some(s.(unsent := s.unsent[1..])) else None
    case Requeued(h, req) =>
      if IsActive(s, h, req) && h !in s.unsent && req.rtype == TYPE_AAAA
      then Some(s.(active := s.active[h := req.(rtype := TYPE_A)], unsent := s.unsent + [h],
                   armed := s.armed || s.unsent == []))
      else None
    case Begun(h, req, result, ip) =>
      if IsActive(s, h, req) && s.calling.None? && (result == NotFound ==> req.rtype == TYPE_A)
      then Some(Drop(s, h).(calling := Some(req))) else None
    case Ended =>
      if s.calling.Some? then Some(s.(calling := None, completed := s.completed + 1)) else None
    case Woken =>
      if s.wakes > 0 then Some(s.(armed := true, wakes := s.wakes - 1)) else None
    case Disarmed =>
      if s.unsent == [] then Some(s.(armed := false)) else None
  }

  function Replay(log: Log): Option<State> {
    match log
    case Start => Some(INITIAL)
    case Then(before, e) =>
      var s := Replay(before);
      if s.None? then None else Step(s.value, e)
  }

  ghost predicate Reaches(log: Log, s: State) {
    Replay(log) == Some(s)
  }

  // ---------- what every state of every run satisfies ----------

  ghost predicate Distinct(s: State) {
    && (forall h :: h in s.active ==> s.active[h].serial < s.accepted)
    && (forall h, g :: h in s.active && g in s.active && h != g ==>
          s.active[h].serial != s.active[g].serial && s.active[h].id != s.active[g].id)
  }

  ghost predicate Queued(s: State) {
    && NoDup(s.unsent)
    && (forall h :: h in s.unsent ==> h in s.active)
  }

  predicate WellTyped(req: Request) {
    (req.rtype == TYPE_A || req.rtype == TYPE_AAAA) && |req.name| <= MAX_NAME
  }

  ghost predicate Typed(s: State) {
    forall h :: h in s.active ==> WellTyped(s.active[h])
  }

  predicate Wakeful(s: State) {
    s.unsent != [] ==> s.armed || s.wakes > 0
  }

  lemma {:induction false} WithoutOnce<T>(q: seq<T>, x: T)
    requires NoDup(q)
    ensures NoDup(Without(q, x))
    ensures forall y :: y in Without(q, x) <==> y in q && y != x
    ensures x !in q ==> Without(q, x) == q
    decreases |q|
  {
    if q == [] {
    } else {
      assert forall y :: y in q <==> y == q[0] || y in q[1..];
      WithoutOnce(q[1..], x);
      var w := Without(q[1..], x);
      assert q[0] !in q[1..];
      assert forall y :: y in [q[0]] + w <==> y == q[0] || y in w;
    }
  }

  lemma StepDistinct(s: State, e: Event)
    requires Distinct(s) && Step(s, e).Some?
    ensures Distinct(Step(s, e).value)
  {
    hide Without;
  }

  lemma StepQueued(s: State, e: Event)
    requires Queued(s) && Step(s, e).Some?
    ensures Queued(Step(s, e).value)
  {
    hide Without;
    if e.Cancelled? || e.Begun? {
      WithoutOnce(s.unsent, e.h);
    }
  }

  lemma StepTyped(s: State, e: Event)
    requires Typed(s) && Step(s, e).Some?
    ensures Typed(Step(s, e).value)
  {
    hide Without;
  }

  /** Ids and serial numbers tell active requests apart, the send queue holds active requests once
      each, and no wake-up is lost: while anything waits to be sent, the socket is armed for writing
      or a StartSending message is still to run. */
  lemma {:induction false} RunInvariant(log: Log)
    requires Replay(log).Some?
    ensures var s := Replay(log).value; Distinct(s) && Queued(s) && Typed(s) && Wakeful(s)
    decreases log
  {
    if log.Start? {
    } else {
      RunInvariant(log.before);
      var s := Replay(log.before).value;
      StepDistinct(s, log.e);
      StepQueued(s, log.e);
      StepTyped(s, log.e);
      if log.e.Cancelled? || log.e.Begun? {
        WithoutOnce(s.unsent, log.e.h);
        assert Without(s.unsent, log.e.h) != [] ==> Without(s.unsent, log.e.h)[0] in s.unsent;
      }
    }
  }

  // ---------- a write event with nothing to send ----------

  /** The socket is armed for writing though nothing waits: the next write event fails the source's assertion. */
  predicate ArmedIdle(s: State) {
    s.armed && s.unsent == []
  }

  /** How the thread gets there: the last request in the list is sent, after which the writer disarms in the same
      breath, or it is cancelled or ended while it waits, or a StartSending message runs after that. */
  lemma ArmedIdleStep(s: State, e: Event)
    requires Queued(s) && Step(s, e).Some? && !ArmedIdle(s)
    ensures ArmedIdle(Step(s, e).value) <==>
            || (e.Woken? && s.unsent == [])
            || ((e.Sent? || e.Cancelled? || e.Begun?) && s.armed && s.unsent == [e.h])
  {
    hide Unused, Wire.Query;
    if e.Cancelled? || e.Begun? {
      WithoutNone(s.unsent, e.h);
    } else if e.Sent? {
      assert s.unsent == [e.h] + s.unsent[1..];
    }
  }

  lemma WithoutNone<T>(q: seq<T>, x: T)
    ensures Without(q, x) == [] <==> q == [] || q == [x]
  {
    if q != [] && q[0] == x {
      assert q == [x] + q[1..];
    }
  }

  /** One cancel is enough: the socket was armed for a request that is gone before it could be sent. */
  lemma ArmedForNothing(h: Hnr, req: Request)
    requires req.serial == 0 && req.rtype == TYPE_AAAA && |req.name| <= MAX_NAME
    ensures var log := Then(Then(Then(Start, Accepted(h, req)), Woken), Cancelled(h, req));
            Replay(log).Some? && ArmedIdle(Replay(log).value)
  {
    var s1 := State(map[h := req], [h], None, false, 1, 1, 0, 0);
    assert Step(INITIAL, Accepted(h, req)) == Some(s1) by {
      assert INITIAL.active[h := req] == s1.active && INITIAL.unsent + [h] == s1.unsent;
    }
    assert Replay(Start) == Some(INITIAL);
    assert Replay(Then(Then(Start, Accepted(h, req)), Woken)) == Some(s1.(armed := true, wakes := 0));
  }

  // ---------- exactly once ----------

  /** How many times the request with serial number k was ended by a callback or a cancel. */
  function Ends(log: Log, k: nat): nat {
    match log
    case Start => 0
    case Then(before, e) =>
      Ends(before, k) + if (e.Begun? || e.Cancelled?) && e.req.serial == k then 1 else 0
  }

  ghost predicate Live(s: State, k: nat) {
    exists h :: h in s.active && s.active[h].serial == k
  }

  ghost predicate EndsNow(e: Event, k: nat) {
    (e.Begun? || e.Cancelled?) && e.req.serial == k
  }

  lemma StepLive(s: State, e: Event, k: nat)
    requires Distinct(s) && Step(s, e).Some?
    ensures var t := Step(s, e).value;
            && s.accepted <= t.accepted <= s.accepted + 1
            && (EndsNow(e, k) ==> Live(s, k) && k < s.accepted)
            && (Live(t, k) <==> (Live(s, k) || s.accepted == k < t.accepted) && !EndsNow(e, k))
  {
    hide Without, Unused, Wire.Query;
    var t := Step(s, e).value;
    if Live(s, k) && !EndsNow(e, k) {
      var h :| h in s.active && s.active[h].serial == k;
      assert h in t.active && t.active[h].serial == k;
    }
    if Live(t, k) {
      var h :| h in t.active && t.active[h].serial == k;
      assert h in s.active ==> s.active[h].serial == k;
    }
    if e.Accepted? {
      assert e.h in t.active;
    }
  }

  /** Over any run, an accepted request has ended exactly once if it is no longer active, and not at
      all while it is; a request not yet accepted has never ended. */
  lemma {:induction false} EndsOnce(log: Log, k: nat)
    requires Replay(log).Some?
    ensures var s := Replay(log).value; Ends(log, k) == if k < s.accepted && !Live(s, k) then 1 else 0
    decreases log
  {
    hide Step, Live, Distinct, Queued, Typed;
    if log.Start? {
      NothingLive(k);
    } else {
      EndsOnce(log.before, k);
      RunInvariant(log.before);
      StepLive(Replay(log.before).value, log.e, k);
    }
  }

  lemma NothingLive(k: nat)
    ensures !Live(INITIAL, k)
  {
  }

  function Begins(log: Log): nat {
    match log
    case Start => 0
    case Then(before, e) => Begins(before) + if e.Begun? then 1 else 0
  }

  function Cancels(log: Log): nat {
    match log
    case Start => 0
    case Then(before, e) => Cancels(before) + if e.Cancelled? then 1 else 0
  }

  lemma DropSize(m: map<Hnr, Request>, h: Hnr)
    requires h in m
    ensures |m - {h}| == |m| - 1
  {
    assert (m - {h}).Keys == m.Keys - {h};
    assert |m.Keys - {h}| == |m.Keys| - 1;
    assert |m| == |m.Keys| && |m - {h}| == |(m - {h}).Keys|;
  }

  lemma PutSize(m: map<Hnr, Request>, h: Hnr, r: Request)
    ensures |m[h := r]| == if h in m then |m| else |m| + 1
  {
    var n := m[h := r];
    assert n.Keys == m.Keys + {h};
    assert |m| == |m.Keys| && |n| == |n.Keys|;
  }

  function Running(s: State): nat {
    if s.calling.Some? then 1 else 0
  }

  lemma StepSize(s: State, e: Event)
    requires Step(s, e).Some?
    ensures |Step(s, e).value.active| ==
            |s.active| + (if e.Accepted? then 1 else 0) - (if e.Begun? || e.Cancelled? then 1 else 0)
  {
    hide Without, Unused, Wire.Query;
    if e.Accepted? {
      PutSize(s.active, e.h, e.req);
    } else if e.Requeued? {
      PutSize(s.active, e.h, e.req.(rtype := TYPE_A));
    } else if e.Cancelled? {
      DropSize(s.active, e.h);
    } else if e.Begun? {
      DropSize(s.active, e.h);
    }
  }

  lemma StepCounts(s: State, e: Event)
    requires Step(s, e).Some?
    ensures var t := Step(s, e).value;
            && t.accepted == s.accepted + (if e.Accepted? then 1 else 0)
            && t.cancelled == s.cancelled + (if e.Cancelled? then 1 else 0)
            && Running(t) + t.completed == Running(s) + s.completed + (if e.Begun? then 1 else 0)
  {
    hide Without, Unused, Wire.Query, IsActive;
  }

  /** Conservation: accepted = active + in callback + completed + cancelled, where every begun callback
      is running or completed and every successful cancel is counted. */
  lemma {:induction false} Conservation(log: Log)
    requires Replay(log).Some?
    ensures var s := Replay(log).value;
            && s.accepted == |s.active| + Running(s) + s.completed + s.cancelled
            && Begins(log) == Running(s) + s.completed
            && Cancels(log) == s.cancelled
    decreases log
  {
    hide Step;
    if log.Start? {
    } else {
      Conservation(log.before);
      StepSize(Replay(log.before).value, log.e);
      StepCounts(Replay(log.before).value, log.e);
    }
  }

  // ---------- the AAAA-to-A fallback ----------

  function Sends(log: Log, k: nat): nat {
    match log
    case Start => 0
    case Then(before, e) => Sends(before, k) + if e.Sent? && e.req.serial == k then 1 else 0
  }

  function Requeues(log: Log, k: nat): nat {
    match log
    case Start => 0
    case Then(before, e) => Requeues(before, k) + if e.Requeued? && e.req.serial == k then 1 else 0
  }

  /** What an active request still has ahead of it: AAAA to send 3, AAAA sent 2, A to send 1, A sent 0. */
  function Rank(s: State, h: Hnr): nat
    requires h in s.active
  {
    (if s.active[h].rtype == TYPE_AAAA then 2 else 0) + if h in s.unsent then 1 else 0
  }

  /** The rank of one request drops by one with each of its own sends and requeues, and nothing else
      moves it. */
  lemma StepRank(s: State, e: Event, h: Hnr)
    requires Queued(s) && Typed(s) && Step(s, e).Some?
    requires h in s.active && h in Step(s, e).value.active
    ensures Step(s, e).value.active[h].serial == s.active[h].serial
    ensures Rank(s, h) == Rank(Step(s, e).value, h) + if (e.Sent? || e.Requeued?) && e.h == h then 1 else 0
  {
    hide Without, Unused;
    var t := Step(s, e).value;
    match e
    case Begun(g, _, _, _) => WithoutOnce(s.unsent, g);
    case Cancelled(g, _) => WithoutOnce(s.unsent, g);
    case Sent(g, _, _, _) =>
      assert s.unsent == [g] + t.unsent;
      assert forall x :: x in s.unsent <==> x == g || x in t.unsent;
      assert g !in t.unsent;
    case _ =>
  }

  predicate IsSerial(s: State, h: Hnr, k: nat) {
    h in s.active && s.active[h].serial == k
  }

  predicate AsksA(s: State, h: Hnr) {
    h in s.active && s.active[h].rtype == TYPE_A
  }

  /** A send is due at rank 3 or 1 and a requeue at rank 2, and each moves only its own request. */
  lemma FallbackStep(s: State, e: Event, h: Hnr, k: nat)
    requires Distinct(s) && Queued(s) && Typed(s) && Step(s, e).Some? && IsSerial(s, h, k)
    ensures e.Sent? || e.Requeued? ==> (e.h == h <==> e.req.serial == k)
    ensures e.Sent? && e.h == h ==> Rank(s, h) == if AsksA(s, h) then 1 else 3
    ensures e.Requeued? && e.h == h ==> Rank(s, h) == 2 && !AsksA(s, h)
    ensures h in Step(s, e).value.active ==>
              && Rank(s, h) == Rank(Step(s, e).value, h) + (if (e.Sent? || e.Requeued?) && e.h == h then 1 else 0)
              && (AsksA(Step(s, e).value, h) <==> AsksA(s, h) || (e.Requeued? && e.h == h))
  {
    hide Without, Unused, Wire.Query;
    if h in Step(s, e).value.active {
      StepRank(s, e, h);
    }
  }

  /** Where a request of serial number k comes from. */
  lemma SerialStep(s: State, e: Event, h: Hnr, k: nat)
    requires Distinct(s) && Step(s, e).Some? && IsSerial(Step(s, e).value, h, k)
    ensures IsSerial(s, h, k)
            || (e.Accepted? && k == s.accepted && Rank(Step(s, e).value, h) == 3 && !AsksA(Step(s, e).value, h))
  {
    hide Without, Unused, Wire.Query;
  }

  lemma SerialOf(s: State, e: Event, k: nat)
    requires Distinct(s) && Step(s, e).Some?
    ensures s.accepted <= Step(s, e).value.accepted
    ensures (e.Sent? || e.Requeued?) && e.req.serial == k ==> IsSerial(s, e.h, k) && k < s.accepted
  {
  }

  /** Every request is queued at most twice and sent at most twice; while it is active its sends,
      requeues and rank add up to 3, and it asks for A exactly if it was requeued. */
  lemma {:induction false} FallbackBound(log: Log, k: nat)
    requires Replay(log).Some?
    ensures Sends(log, k) <= 1 + Requeues(log, k) <= 2
    ensures forall h :: IsSerial(Replay(log).value, h, k) ==>
              Sends(log, k) + Requeues(log, k) + Rank(Replay(log).value, h) == 3
              && Requeues(log, k) == (if AsksA(Replay(log).value, h) then 1 else 0)
    ensures k >= Replay(log).value.accepted ==> Sends(log, k) == 0 && Requeues(log, k) == 0
    decreases log
  {
    hide Step, Rank, Distinct, Queued, Typed, AsksA;
    if log.Start? {
    } else {
      FallbackBound(log.before, k);
      RunInvariant(log.before);
      var s, e, t := Replay(log.before).value, log.e, Replay(log).value;
      SerialOf(s, e, k);
      if (e.Sent? || e.Requeued?) && e.req.serial == k {
        FallbackStep(s, e, e.h, k);
      }
      forall h | IsSerial(t, h, k)
        ensures Sends(log, k) + Requeues(log, k) + Rank(t, h) == 3
        ensures Requeues(log, k) == if AsksA(t, h) then 1 else 0
      {
        SerialStep(s, e, h, k);
        if IsSerial(s, h, k) {
          FallbackStep(s, e, h, k);
        }
      }
    }
  }

  /** not_found is reported only for a request that was requeued as type A before. */
  lemma NotFoundAfterFallback(log: Log)
    requires Replay(log).Some? && log.Then? && log.e.Begun? && log.e.result == NotFound
    ensures Requeues(log.before, log.e.req.serial) == 1
  {
    FallbackBound(log.before, log.e.req.serial);
    assert IsSerial(Replay(log.before).value, log.e.h, log.e.req.serial);
  }
}
