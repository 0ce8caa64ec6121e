/** Events of the lookup machine as the thread produces them: single steps, stretches of the log, and what a
    received datagram adds to it. */
module Events {
  import opened Common
  import opened Indexes
  import opened Lookups
  import Wire

  // ---------- single steps ----------

  lemma CancelStep(s: State, h: Hnr)
    requires h in s.active
    ensures Step(s, Cancelled(h, s.active[h])) == Some(Drop(s, h).(cancelled := s.cancelled + 1))
  {
  }

  lemma BeginStep(s: State, h: Hnr, result: DnsResult, ip: Ip)
    requires h in s.active && s.calling.None? && (result == NotFound ==> s.active[h].rtype == TYPE_A)
    ensures Step(s, Begun(h, s.active[h], result, ip)) == Some(Drop(s, h).(calling := Some(s.active[h])))
  {
  }

  lemma EndStep(s: State)
    requires s.calling.Some?
    ensures Step(s, Ended) == Some(s.(calling := None, completed := s.completed + 1))
  {
  }

  lemma RequeueStep(s: State, h: Hnr)
    requires h in s.active && h !in s.unsent && s.active[h].rtype == TYPE_AAAA
    ensures Step(s, Requeued(h, s.active[h])) ==
            Some(s.(active := s.active[h := s.active[h].(rtype := TYPE_A)], unsent := s.unsent + [h],
                    armed := s.armed || s.unsent == []))
  {
  }

  lemma SentStep(s: State, h: Hnr, packet: seq<byte>, dest: Ip)
    requires h in s.active && s.armed && s.unsent != [] && s.unsent[0] == h && dest == s.active[h].server
    requires packet == Wire.Query(s.active[h].id, s.active[h].name, s.active[h].rtype)
    ensures Step(s, Sent(h, s.active[h], packet, dest)) == Some(s.(unsent := s.unsent[1..]))
  {
  }

  lemma {:induction false} WithoutLast(q: seq<Hnr>, h: Hnr)
    requires h !in q
    ensures Without(q + [h], h) == q && Without(q, h) == q
    decreases |q|
  {
    if q == [] {
    } else {
      assert (q + [h])[1..] == q[1..] + [h];
      WithoutLast(q[1..], h);
    }
  }

  /** A request dropped right after it turned to type A, queued or not, leaves what dropping it before would. */
  lemma DropRequeued(s: State, h: Hnr)
    requires h in s.active && h !in s.unsent
    ensures var t := s.(active := s.active[h := s.active[h].(rtype := TYPE_A)]);
            Drop(t, h) == Drop(s, h) && Drop(t.(unsent := t.unsent + [h]), h) == Drop(s, h)
  {
    var m := s.active[h := s.active[h].(rtype := TYPE_A)];
    assert m - {h} == s.active - {h};
    WithoutLast(s.unsent, h);
  }

  // ---------- user activity ----------

  /** The allocation that fails in resolve, if any. */
  datatype Fault = NoFault | AtIdMap | AtTimeMap | AtSendList | AtMainMap

  /** What user threads do while the mutex is free. */
  datatype UserOp =
    | DoResolve(h: Hnr, name: Name, timeout: uint32, server: Ip, clock: nat, fault: Fault)
    | DoCancel(h: Hnr)

  /** What one call adds to the log, exiting telling that the thread no longer takes requests: a resolve is accepted
      with its name, deadline and server unless it is refused, a cancel ends the request if there is one. */
  ghost predicate OpDone(op: UserOp, exiting: bool, system: Ip, before: Log, after: Log) {
    && Replay(before).Some?
    && var s := Replay(before).value;
       match op
       case DoResolve(h, name, timeout, server, clock, fault) =>
         if |name| > 253 || h in s.active || exiting || |s.active| == 65536 || fault != NoFault then after == before
         else
           && after.Then? && after.before == before && after.e.Accepted? && after.e.h == h
           && after.e.req == Request(s.accepted, name, 28, after.e.req.id, clock + timeout, ServerOf(server, system))
       case DoCancel(h) =>
         after == if h in s.active then Then(before, Cancelled(h, s.active[h])) else before
  }

  /** What a window of calls adds to the log, one after the other. */
  ghost predicate OpsDone(ops: seq<UserOp>, exiting: bool, system: Ip, before: Log, after: Log) {
    if ops == [] then after == before
    else
      var first, last := ops[..|ops| - 1], ops[|ops| - 1];
      || (OpsDone(first, exiting, system, before, after) && OpDone(last, exiting, system, after, after))
      || (after.Then? && OpsDone(first, exiting, system, before, after.before)
          && OpDone(last, exiting, system, after.before, after))
  }

  lemma OpAdds(op: UserOp, exiting: bool, system: Ip, before: Log, after: Log)
    requires OpDone(op, exiting, system, before, after)
    ensures after == before || (after.Then? && after.before == before)
  {
  }

  lemma OpsSnoc(ops: seq<UserOp>, op: UserOp, exiting: bool, system: Ip, before: Log, middle: Log, after: Log)
    requires OpsDone(ops, exiting, system, before, middle) && OpDone(op, exiting, system, middle, after)
    ensures OpsDone(ops + [op], exiting, system, before, after)
  {
    hide OpDone;
    OpAdds(op, exiting, system, middle, after);
    assert (ops + [op])[..|ops|] == ops;
  }

  function CancelOps(ops: seq<UserOp>): nat {
    if ops == [] then 0 else CancelOps(ops[..|ops| - 1]) + if ops[|ops| - 1].DoCancel? then 1 else 0
  }

  function ResolveOps(ops: seq<UserOp>): nat {
    if ops == [] then 0 else ResolveOps(ops[..|ops| - 1]) + if ops[|ops| - 1].DoResolve? then 1 else 0
  }

  function Admissions(log: Log): nat {
    match log
    case Start => 0
    case Then(before, e) => Admissions(before) + if e.Accepted? then 1 else 0
  }

  lemma {:induction false} AdmissionsCounted(log: Log)
    requires Replay(log).Some?
    ensures Replay(log).value.accepted == Admissions(log)
    decreases log
  {
    if log.Start? {
    } else {
      AdmissionsCounted(log.before);
      StepCounts(Replay(log.before).value, log.e);
    }
  }

  lemma OneOp(op: UserOp, exiting: bool, system: Ip, before: Log, after: Log)
    requires OpDone(op, exiting, system, before, after)
    ensures Stretch(before, after, USERS) && TotalSent(after) == TotalSent(before)
    ensures Cancels(before) <= Cancels(after) <= Cancels(before) + (if op.DoCancel? then 1 else 0)
    ensures Admissions(after) <= Admissions(before) + (if op.DoResolve? && !exiting then 1 else 0)
    ensures Admissions(after) >= Admissions(before)
  {
    hide Replay, ServerOf;
  }

  /** Users cancel no more requests than they call cancel, and none is accepted by a thread that exits. */
  lemma {:induction false} OpsCounts(ops: seq<UserOp>, exiting: bool, system: Ip, before: Log, after: Log)
    requires OpsDone(ops, exiting, system, before, after)
    ensures Stretch(before, after, USERS) && TotalSent(after) == TotalSent(before)
    ensures Cancels(before) <= Cancels(after) <= Cancels(before) + CancelOps(ops)
    ensures Admissions(before) <= Admissions(after) <= Admissions(before) + ResolveOps(ops)
    ensures exiting ==> Admissions(after) == Admissions(before)
    decreases |ops|
  {
    hide OpDone;
    if ops == [] {
    } else {
      var first, last := ops[..|ops| - 1], ops[|ops| - 1];
      var middle := if OpsDone(first, exiting, system, before, after) && OpDone(last, exiting, system, after, after)
                    then after else after.before;
      OpsCounts(first, exiting, system, before, middle);
      OneOp(last, exiting, system, middle, after);
      StretchTrans(before, middle, after, USERS);
    }
  }

  // ---------- callbacks ----------

  /** Who may act during the callbacks of a phase: one window of the script for each callback, in order. */
  datatype Users = Users(script: seq<seq<UserOp>>, exiting: bool, system: Ip)

  function Window(script: seq<seq<UserOp>>): seq<UserOp> {
    if script == [] then [] else script[0]
  }

  function Later(script: seq<seq<UserOp>>): seq<seq<UserOp>> {
    if script == [] then [] else script[1..]
  }

  /** The request ends by a callback with this result and address; meanwhile the users act. */
  ghost predicate CallbackRan(before: Log, h: Hnr, req: Request, result: DnsResult, ip: Ip, u: Users, after: Log) {
    && after.Then? && after.e == Ended
    && OpsDone(Window(u.script), u.exiting, u.system, Then(before, Begun(h, req, result, ip)), after.before)
  }

  function AllCancelOps(script: seq<seq<UserOp>>): nat {
    if script == [] then 0 else CancelOps(script[0]) + AllCancelOps(script[1..])
  }

  function AllResolveOps(script: seq<seq<UserOp>>): nat {
    if script == [] then 0 else ResolveOps(script[0]) + AllResolveOps(script[1..])
  }

  /** Between the logs the users used up the script as far as rest: every cancelled and every accepted request is one of
      their calls. With an empty script nothing was cancelled or accepted. */
  ghost predicate Within(before: Log, script: seq<seq<UserOp>>, after: Log, rest: seq<seq<UserOp>>) {
    && Cancels(before) <= Cancels(after)
    && Cancels(after) + AllCancelOps(rest) <= Cancels(before) + AllCancelOps(script)
    && Admissions(before) <= Admissions(after)
    && Admissions(after) + AllResolveOps(rest) <= Admissions(before) + AllResolveOps(script)
  }

  lemma WithinSelf(log: Log, script: seq<seq<UserOp>>)
    ensures Within(log, script, log, script) && Within(log, script, log, [])
  {
  }

  lemma WithinTrans(a: Log, x: seq<seq<UserOp>>, b: Log, y: seq<seq<UserOp>>, c: Log, z: seq<seq<UserOp>>)
    requires Within(a, x, b, y) && Within(b, y, c, z)
    ensures Within(a, x, c, z) && Within(a, x, c, [])
  {
  }

  lemma {:induction false} ScriptSum(x: seq<seq<UserOp>>, y: seq<seq<UserOp>>)
    ensures AllCancelOps(x + y) == AllCancelOps(x) + AllCancelOps(y)
    ensures AllResolveOps(x + y) == AllResolveOps(x) + AllResolveOps(y)
    decreases |x|
  {
    if x == [] {
      assert x + y == y;
    } else {
      ScriptSum(x[1..], y);
      assert (x + y)[1..] == x[1..] + y;
    }
  }

  lemma WithinBoth(a: Log, x: seq<seq<UserOp>>, b: Log, y: seq<seq<UserOp>>, c: Log)
    requires Within(a, x, b, []) && Within(b, y, c, [])
    ensures Within(a, x + y, c, [])
  {
    ScriptSum(x, y);
  }

  /** What a callback leaves in the log. */
  lemma CallbackCounts(before: Log, h: Hnr, req: Request, result: DnsResult, ip: Ip, u: Users, after: Log)
    requires CallbackRan(before, h, req, result, ip, u, after)
    ensures Stretch(Then(before, Begun(h, req, result, ip)), after, USERS) && TotalSent(after) == TotalSent(before)
    ensures Within(before, u.script, after, Later(u.script))
    ensures u.exiting ==> Admissions(after) == Admissions(before)
    ensures u.script == [] ==> after == Then(Then(before, Begun(h, req, result, ip)), Ended)
  {
    hide OpDone;
    OpsCounts(Window(u.script), u.exiting, u.system, Then(before, Begun(h, req, result, ip)), after.before);
  }

  // ---------- stretches of the log ----------

  /** What may happen in a stretch of the log: user threads always act and callbacks return; callbacks begin with the
      given result and address only, timeouts only for deadlines up to now; queries go out or not, and when they do,
      a request ends only if no server is known for it. */
  datatype Kind = Kind(ends: Option<Report>, now: nat, sends: bool)

  /** What a callback reports. */
  datatype Report = Report(result: DnsResult, ip: Ip)

  const USERS := Kind(None, 0, false)
  const SENDING := Kind(Some(Report(Error, V4(0))), 0, true)
  const FAILING := Kind(Some(Report(Error, NO_IP)), 0, false)

  function Timing(now: nat): Kind {
    Kind(Some(Report(Timeout, V4(0))), now, false)
  }

  predicate Allowed(k: Kind, e: Event) {
    match e
    case Accepted(_, _) => true
    case Cancelled(_, _) => true
    case Ended => true
    case Begun(_, req, result, ip) =>
      && k.ends == Some(Report(result, ip))
      && (result == Timeout ==> req.due <= k.now)
      && (k.sends ==> !req.server.IsValid())
    case Sent(_, _, _, _) => k.sends
    case Disarmed => false
    case Requeued(_, _) => false
    case Woken => false
  }

  lemma ErrorAllowed(h: Hnr, req: Request)
    ensures Allowed(FAILING, Begun(h, req, Error, NO_IP))
    ensures !req.server.IsValid() ==> Allowed(SENDING, Begun(h, req, Error, V4(0)))
  {
  }

  lemma TimeoutAllowed(h: Hnr, req: Request, now: nat)
    requires req.due <= now
    ensures Allowed(Timing(now), Begun(h, req, Timeout, V4(0)))
  {
  }

  predicate Stretch(a: Log, b: Log, k: Kind) {
    b == a || (b.Then? && Allowed(k, b.e) && Stretch(a, b.before, k))
  }

  lemma StretchSelf(log: Log, k: Kind)
    ensures Stretch(log, log, k)
  {
  }

  lemma {:induction false} StretchTrans(a: Log, b: Log, c: Log, k: Kind)
    requires Stretch(a, b, k) && Stretch(b, c, k)
    ensures Stretch(a, c, k)
    decreases c
  {
    if c == b {
    } else {
      StretchTrans(a, b, c.before, k);
    }
  }

  lemma {:induction false} UsersWiden(a: Log, b: Log, k: Kind)
    requires Stretch(a, b, USERS)
    ensures Stretch(a, b, k)
    decreases b
  {
    if b == a {
    } else {
      UsersWiden(a, b.before, k);
    }
  }

  function TotalSent(log: Log): nat {
    match log
    case Start => 0
    case Then(before, e) => TotalSent(before) + if e.Sent? then 1 else 0
  }

  lemma SentStretch(a: Log, script: seq<seq<UserOp>>, e: Event)
    requires e.Sent?
    ensures Stretch(a, Then(a, e), SENDING) && TotalSent(Then(a, e)) == TotalSent(a) + 1
    ensures Within(a, script, Then(a, e), script)
  {
  }

  lemma CallbackStretch(before: Log, h: Hnr, req: Request, result: DnsResult, ip: Ip, u: Users, after: Log, k: Kind)
    requires CallbackRan(before, h, req, result, ip, u, after) && Allowed(k, Begun(h, req, result, ip))
    ensures Stretch(before, after, k)
  {
    hide CallbackRan, Allowed;
    var begun := Then(before, Begun(h, req, result, ip));
    CallbackCounts(before, h, req, result, ip, u, after);
    UsersWiden(begun, after, k);
    assert Stretch(before, begun, k);
    StretchTrans(before, begun, after, k);
  }

  // ---------- failure ----------

  /** All that was active has ended: by a callback with an error, unless the users cancelled it first. */
  ghost predicate FailDone(before: Log, script: seq<seq<UserOp>>, after: Log) {
    && Stretch(before, after, FAILING)
    && Within(before, script, after, [])
    && Admissions(after) == Admissions(before)
    && Replay(before).Some? && Replay(after).Some? && Replay(after).value.active == map[]
    && Begins(after) + Cancels(after) == Begins(before) + Cancels(before) + |Replay(before).value.active|
  }

  lemma FailCounts(before: Log, script: seq<seq<UserOp>>, after: Log)
    requires Replay(before).Some? && Replay(after).Some? && Replay(after).value.active == map[]
    requires Stretch(before, after, FAILING) && Within(before, script, after, [])
    requires Admissions(after) == Admissions(before)
    ensures FailDone(before, script, after)
  {
    hide Replay;
    AdmissionsCounted(before);
    AdmissionsCounted(after);
    Conservation(before);
    Conservation(after);
  }

  // ---------- timeouts ----------

  /** Between two logs, only requests whose deadline has come by now time out. */
  predicate TimeoutsBy(a: Log, b: Log, now: nat) {
    b == a || (b.Then? && (b.e.Begun? && b.e.result == Timeout ==> b.e.req.due <= now) && TimeoutsBy(a, b.before, now))
  }

  lemma {:induction false} TimeoutsTrans(a: Log, b: Log, c: Log, now: nat)
    requires TimeoutsBy(a, b, now) && TimeoutsBy(b, c, now)
    ensures TimeoutsBy(a, c, now)
    decreases c
  {
    if c == b {
    } else {
      TimeoutsTrans(a, b, c.before, now);
    }
  }

  lemma {:induction false} StretchTimeouts(a: Log, b: Log, k: Kind, now: nat)
    requires Stretch(a, b, k) && (k.ends.Some? && k.ends.value.result == Timeout ==> k.now <= now)
    ensures TimeoutsBy(a, b, now)
    decreases b
  {
    if b == a {
    } else {
      StretchTimeouts(a, b.before, k, now);
    }
  }

  // ---------- the order of callbacks ----------

  /** The requests whose callbacks have begun, by serial number and in order. */
  function CallbackOrder(log: Log): seq<nat> {
    match log
    case Start => []
    case Then(before, e) => CallbackOrder(before) + if e.Begun? then [e.req.serial] else []
  }

  // ---------- datagrams ----------

  /** What throws while a request is queued again as type A. */
  datatype RequeueFault = Quiet | AtPush | AtArm

  /** What the thread takes a reply for: one of the results the parser can report. */
  type ParseResult = r: Report | Wire.Reportable(r.result) witness Report(DnsError, NO_IP)

  /** What the answers can say. */
  type AnswerResult = r: Report | Wire.Answerable(r.result) witness Report(DnsError, NO_IP)

  /** A datagram of n bytes in the receive buffer is taken for this active request. */
  predicate IsFor(s: State, h: Hnr, buf: seq<byte>, n: nat)
    requires |buf| == Wire.PACKET
  {
    && n >= 13 && h in s.active && s.active[h].id == Wire.Get16(buf, 0)
    && Wire.Decode(buf, 12, |buf|).host == s.active[h].name
  }

  /** The parser's result, where stray stands for whatever comes of bytes that were not received. */
  function Taken(o: Wire.Parsed, stray: AnswerResult): ParseResult
    requires o.Done? ==> Wire.Reportable(o.result)
  {
    if o.Done? then Report(o.result, o.ip) else stray
  }

  /** A reply that asks for the fallback to type A. */
  predicate NoRecord(req: Request, o: ParseResult) {
    o.result == NotFound && req.rtype == TYPE_AAAA
  }

  /** The fallback of a request that still waits to be sent fails the source's assertion. */
  predicate Premature(s: State, h: Hnr, o: ParseResult)
    requires h in s.active
  {
    NoRecord(s.active[h], o) && h in s.unsent
  }

  /** What the parsed reply of h adds to the log: the fallback to type A, or the end of the request. */
  ghost predicate ReplyEnds(s: State, h: Hnr, o: ParseResult, fault: RequeueFault, u: Users, before: Log, after: Log)
    requires h in s.active
  {
    var req := s.active[h];
    if NoRecord(req, o) then
      if fault == AtPush || (fault == AtArm && s.unsent == [])
      then CallbackRan(before, h, req, Error, NO_IP, u, after)
      else after == Then(before, Requeued(h, req))
    else CallbackRan(before, h, req, o.result, o.ip, u, after)
  }

  /** What a datagram adds to the log: nothing unless it is for an active request, and then for that one only;
      broken tells that the assertion on unsent requests fails. */
  ghost predicate Replied(s: State, buf: seq<byte>, n: nat, stray: AnswerResult, fault: RequeueFault, u: Users,
                          broken: bool, before: Log, after: Log)
    requires |buf| == Wire.PACKET && n <= |buf|
  {
    && ((forall h :: !IsFor(s, h, buf, n)) ==> after == before && !broken)
    && (forall h :: IsFor(s, h, buf, n) ==>
          WellTyped(s.active[h])
          && var o := Taken(Wire.ParseReply(buf[..n], s.active[h].name, s.active[h].rtype), stray);
          && (broken <==> Premature(s, h, o))
          && (broken ==> after == before)
          && (!broken ==> ReplyEnds(s, h, o, fault, u, before, after)))
  }

  lemma NotReplied(s: State, buf: seq<byte>, n: nat, stray: AnswerResult, fault: RequeueFault, u: Users, log: Log)
    requires |buf| == Wire.PACKET && n <= |buf|
    ensures (forall h :: !IsFor(s, h, buf, n)) ==> Replied(s, buf, n, stray, fault, u, false, log, log)
  {
    hide IsFor, ReplyEnds, Wire.ParseReply;
  }

  lemma RepliedTo(s: State, h: Hnr, buf: seq<byte>, n: nat, stray: AnswerResult, fault: RequeueFault, u: Users,
                  broken: bool, before: Log, after: Log)
    requires |buf| == Wire.PACKET && n <= |buf| && IsFor(s, h, buf, n)
    requires forall g :: IsFor(s, g, buf, n) ==> g == h
    requires WellTyped(s.active[h])
    requires var o := Taken(Wire.ParseReply(buf[..n], s.active[h].name, s.active[h].rtype), stray);
             (broken <==> Premature(s, h, o))
             && if broken then after == before else ReplyEnds(s, h, o, fault, u, before, after)
    ensures Replied(s, buf, n, stray, fault, u, broken, before, after)
  {
    hide ReplyEnds, Wire.ParseReply, Taken, Premature;
  }

  lemma ReplyTimeouts(s: State, buf: seq<byte>, n: nat, stray: AnswerResult, fault: RequeueFault, u: Users,
                      broken: bool, before: Log, after: Log, now: nat)
    requires |buf| == Wire.PACKET && n <= |buf| && Replied(s, buf, n, stray, fault, u, broken, before, after)
    ensures TimeoutsBy(before, after, now)
  {
    hide Wire.Decode, Wire.Get16, Wire.ParseReply, ReplyEnds;
    if h :| IsFor(s, h, buf, n) {
      if !broken {
        EndTimeouts(s, h, Taken(Wire.ParseReply(buf[..n], s.active[h].name, s.active[h].rtype), stray), fault, u,
                    before, after, now);
      }
    }
  }

  lemma EndTimeouts(s: State, h: Hnr, o: ParseResult, fault: RequeueFault, u: Users, before: Log, after: Log, now: nat)
    requires h in s.active && ReplyEnds(s, h, o, fault, u, before, after)
    ensures TimeoutsBy(before, after, now)
  {
    hide Stretch, CallbackRan;
    var failed, req := NoRecord(s.active[h], o), s.active[h];
    if after == Then(before, Requeued(h, req)) {
      assert TimeoutsBy(before, after, now);
    } else if failed {
      CallbackTimeouts(before, h, req, Error, NO_IP, u, after, now);
    } else {
      CallbackTimeouts(before, h, req, o.result, o.ip, u, after, now);
    }
  }

  lemma CallbackTimeouts(before: Log, h: Hnr, req: Request, result: DnsResult, ip: Ip, u: Users, after: Log, now: nat)
    requires CallbackRan(before, h, req, result, ip, u, after) && (result == Timeout ==> req.due <= now)
    ensures TimeoutsBy(before, after, now)
  {
    hide CallbackRan, Stretch;
    var begun := Then(before, Begun(h, req, result, ip));
    CallbackCounts(before, h, req, result, ip, u, after);
    StretchTimeouts(begun, after, USERS, now);
    assert TimeoutsBy(before, begun, now);
    TimeoutsTrans(before, begun, after, now);
  }

  /** Codec and engine together: a response that echoes the question of an active request is taken for it, and what it
      adds to the log is decided by its first answer of the requested type: if that carries an address, the request ends
      with it. */
  lemma Answered(s: State, h: Hnr, buf: seq<byte>, n: nat, stray: AnswerResult, fault: RequeueFault, u: Users,
                 broken: bool, before: Log, after: Log, hi: byte, lo: byte, counts: seq<byte>, rs: Wire.Records,
                 ip: Ip)
    requires |buf| == Wire.PACKET && n <= |buf| && h in s.active && WellTyped(s.active[h])
    requires s.active[h].name == [] || Wire.WellFormed(s.active[h].name)
    requires Wire.Responds(buf[..n], s.active[h].id, s.active[h].name, s.active[h].rtype, hi, lo, counts, rs)
    ensures IsFor(s, h, buf, n)
    ensures Replied(s, buf, n, stray, fault, u, broken, before, after) ==>
              var o := Taken(Wire.Reply(rs, s.active[h].rtype), stray);
              (broken <==> Premature(s, h, o)) && (!broken ==> ReplyEnds(s, h, o, fault, u, before, after))
    ensures Replied(s, buf, n, stray, fault, u, broken, before, after) ==>
              var first := Wire.FirstOf(rs, s.active[h].rtype);
              first.Some? && Wire.Carries(first.value.data, ip, s.active[h].rtype) ==>
                !broken && CallbackRan(before, h, s.active[h], Ok, ip, u, after)
  {
    hide Wire.Responds, Wire.WellFormed, Wire.Decode, Wire.ParseReply, Wire.Get16, Wire.Reply, CallbackRan;
    hide Wire.FirstOf, Wire.Carries;
    var req := s.active[h];
    Wire.EndToEnd(buf[..n], req.id, req.name, req.rtype, hi, lo, counts, rs);
    Wire.RespondsWithin(buf, n, req.id, req.name, req.rtype, hi, lo, counts, rs);
    Wire.EndToEnd(buf, req.id, req.name, req.rtype, hi, lo, counts, rs);
    assert IsFor(s, h, buf, n);
    Wire.ReplyExactly(rs, req.rtype, ip);
  }

  /** The datagram says that there is no such record: response code 3, or a response without an error to one question
      that announces no answer. */
  predicate SaysNoRecord(m: seq<byte>) {
    |m| >= 12 && m[2] >= 128 && (m[3] % 16 == 3 || (m[3] % 16 == 0 && m[4..8] == [0, 1, 0, 0]))
  }

  /** Which datagrams start the fallback: for an AAAA request that has been sent, exactly those that say there is no
      record; a server failure, say, ends the request. For a type A request the same datagrams end it with not_found. */
  lemma FallbackExactly(s: State, h: Hnr, buf: seq<byte>, n: nat, stray: AnswerResult, u: Users, broken: bool,
                        before: Log, after: Log)
    requires |buf| == Wire.PACKET && n <= |buf| && IsFor(s, h, buf, n)
    requires Replied(s, buf, n, stray, Quiet, u, broken, before, after)
    ensures broken <==> SaysNoRecord(buf[..n]) && s.active[h].rtype == 28 && h in s.unsent
    ensures !broken ==>
              (after == Then(before, Requeued(h, s.active[h])) <==> SaysNoRecord(buf[..n]) && s.active[h].rtype == 28)
    ensures s.active[h].rtype == 1 && SaysNoRecord(buf[..n]) ==>
              CallbackRan(before, h, s.active[h], NotFound, NO_IP, u, after)
  {
    hide Wire.Decode, Wire.ParseReply, Wire.Get16, OpsDone;
    Wire.NotFoundExactly(buf[..n], s.active[h].name, s.active[h].rtype);
  }
}
