/** The lookup thread: every active request in several indexes at once, updated in place by user
    threads (resolve, cancel) and by the thread's own loop. Each method is proved to keep the indexes
    in agreement and to follow the event machine of Lookups. */
module Engine {
  import opened Common
  import opened Events
  import opened Indexes
  import opened Lookups
  import Ids
  import Timers
  import Wire

  /** What one turn of run finds on the socket; stray is what comes of bytes that were not received, should the
      parser read any. */
  datatype Readable =
    | NotReadable
    | Datagram(buf: seq<byte>, n: nat, stray: AnswerResult, fault: RequeueFault)
    | ReceiveThrows

  /** The receive buffer has 512 bytes. */
  predicate Sized(read: Readable) {
    read.Datagram? ==> |read.buf| == 512 && read.n <= |read.buf|
  }

  datatype Writable = NotWritable | Accepts(packets: nat) | SendThrowsAfter(packets: nat)

  /** The user activity during the callbacks of one turn, phase by phase. */
  datatype Scripts = Scripts(read: seq<seq<UserOp>>, write: seq<seq<UserOp>>, drain: seq<seq<UserOp>>,
                             due: seq<seq<UserOp>>, exit: seq<seq<UserOp>>)

  /** How a turn ends: the thread exits, or it sleeps. RepliedUnsent stands for the failing assertion that a request
      that falls back to type A has been sent, NoDeadline for the one that timeMap1 is not empty. */
  datatype Outcome = Exits | RepliedUnsent | NoDeadline | Sleeps(ms: nat)

  datatype Reply = Started | NameTooLong | InProgress | NewThread | TooManyRequests | NoMemory

  /** Assertions that fail without more ado: nothing was received, and nothing is there to send. The turn goes on as
      it does with assertions off. */
  datatype Slip = NothingReceived | NothingToSend

  /** One round of the loop of run: what the turn meets, what users do during the wait, and whether the wait ends
      because a message arrived. */
  datatype Round = Round(error: bool, read: Readable, write: Writable, clock: nat, scripts: Scripts,
                         waiting: seq<UserOp>, woken: bool)

  /** The log of a turn after reading, after the last query went out, and after writing. */
  datatype TurnLogs = TurnLogs(read: Log, sent: Log, write: Log)

  /** How a round went: the turn's outcome, its logs and the log after it, after the wait and after the messages; and
      whether the thread was told to quit by then. */
  datatype RoundLogs = RoundLogs(out: Outcome, slips: set<Slip>, turn: TurnLogs, turned: Log, waited: Log, end: Log,
                                 quit: bool)

  /** The resolves of a window of user activity happen in the given clock epoch. */
  predicate InEpoch(ops: seq<UserOp>, e: nat) {
    forall i :: 0 <= i < |ops| && ops[i].DoResolve? ==> Timers.Epoch(ops[i].clock) == e
  }

  // ---------- timeouts in order ----------

  ghost function Serials(rs: seq<Resolver>): seq<nat> {
    if rs == [] then [] else [rs[0].serial] + Serials(rs[1..])
  }

  /** Between two logs, a poll at the given time has served a first part of those due in queue p, in order, and q is
      what is left. */
  ghost predicate ServedInOrder(a: Log, p: Timers.Queue<Resolver>, b: Log, q: Timers.Queue<Resolver>, now: nat) {
    && CallbackOrder(a) + Serials(Timers.Due(p, now)) == CallbackOrder(b) + Serials(Timers.Due(q, now))
    && Timers.After(p, now) == Timers.After(q, now)
  }

  lemma HeadServed(a: Log, p: Timers.Queue<Resolver>, now: nat, h: Hnr, req: Request, result: DnsResult, ip: Ip)
    requires p.Node? && p.key <= now && req.serial == p.who.serial
    ensures ServedInOrder(a, p, Then(Then(a, Begun(h, req, result, ip)), Ended), p.next, now)
  {
    var due := Timers.Due(p.next, now);
    assert Timers.Due(p, now) == [p.who] + due;
    assert ([p.who] + due)[1..] == due;
    assert CallbackOrder(a) + [req.serial] + [] == CallbackOrder(a) + [req.serial];
    assert CallbackOrder(a) + ([p.who.serial] + Serials(due)) == CallbackOrder(a) + [p.who.serial] + Serials(due);
  }

  lemma ServedTrans(a: Log, p: Timers.Queue<Resolver>, b: Log, q: Timers.Queue<Resolver>,
                    c: Log, x: Timers.Queue<Resolver>, now: nat)
    requires ServedInOrder(a, p, b, q, now) && ServedInOrder(b, q, c, x, now)
    ensures ServedInOrder(a, p, c, x, now)
  {
  }

  lemma AllServed(a: Log, p: Timers.Queue<Resolver>, b: Log, q: Timers.Queue<Resolver>, now: nat)
    requires ServedInOrder(a, p, b, q, now) && Timers.AtLeast(q, now + 1)
    ensures CallbackOrder(b) == CallbackOrder(a) + Serials(Timers.Due(p, now)) && q == Timers.After(p, now)
  {
    Timers.NothingDue(q, now);
    assert CallbackOrder(b) + [] == CallbackOrder(b);
  }

  // ---------- the thread object ----------

  class LookupThread {
    var resolversMap: map<Hnr, Resolver>
    var idMap: map<uint16, Resolver>
    var resolversByTime1: Timers.Queue<Resolver>
    var resolversByTime2: Timers.Queue<Resolver>
    var timeMap1: MapId
    var timeMap2: MapId
    var sendList: seq<Resolver>
    var queue: seq<Message>
    /** A message taken from the queue whose function has not run yet. */
    var running: Option<Message>
    /** The socket is waited for with the write flag. */
    var armed: bool
    var quitFlag: bool
    var isExiting: bool
    var lastTicksInFirstHalf: bool
    /** The DNS server found by InitDNS. */
    const dns: Ip

    /** The objects the maps own; what the log says; the unbounded deadlines and clock. */
    ghost var requests: set<Resolver>
    ghost var model: State
    ghost var log: Log
    ghost var deadlines: Timers.Queue<Resolver>
    ghost var lastPoll: nat

    /** The indexes agree with each other and with the model. */
    ghost predicate Indexed()
      reads `resolversMap, `idMap, `resolversByTime1, `resolversByTime2, `timeMap1, `timeMap2, `sendList, `queue
      reads `running, `armed, `model, `requests, requests
    {
      var v := ViewOf(requests);
      && timeMap1 != timeMap2
      && Owned(v, resolversMap)
      && IdsAgree(v, idMap)
      && InMap(v, resolversByTime1, First)
      && InMap(v, resolversByTime2, Second)
      && SendsAgree(v, sendList)
      && ActiveAgree(v, model.active, dns)
      && UnsentAgree(sendList, model.unsent)
      && model.armed == armed && model.wakes == Pending(queue, running)
    }

    /** And the model is where the log of events leads. */
    ghost predicate Consistent()
      reads `resolversMap, `idMap, `resolversByTime1, `resolversByTime2, `timeMap1, `timeMap2, `sendList, `queue
      reads `running, `armed, `model, `requests, requests, `log
    {
      Indexed() && Reaches(log, model)
    }

    /** What holds whenever the thread is not inside a user's callback. */
    ghost predicate Valid()
      reads `resolversMap, `idMap, `resolversByTime1, `resolversByTime2, `timeMap1, `timeMap2, `sendList, `queue
      reads `running, `armed, `model, `requests, requests, `log
    {
      Consistent() && model.calling.None?
    }

    function MapAt(which: MapId): Timers.Queue<Resolver>
      reads this`resolversByTime1, this`resolversByTime2
    {
      if which == First then resolversByTime1 else resolversByTime2
    }

    function Wheel(): Timers.Wheel<Resolver>
      reads this`resolversByTime1, this`resolversByTime2, this`timeMap1, this`timeMap2
    {
      Timers.Wheel(MapAt(timeMap1), MapAt(timeMap2))
    }

    /** The two maps are the single queue of unbounded deadlines, timeMap1 for the clock epoch of the
        last poll and timeMap2 for the next. */
    ghost predicate Aligned()
      reads `resolversByTime1, `resolversByTime2, `timeMap1, `timeMap2, `deadlines, `lastPoll, `requests, requests
    {
      && Timers.Refines(Wheel(), deadlines, Timers.Epoch(lastPoll))
      && Spelled(ViewOf(requests), timeMap1, Timers.Epoch(lastPoll))
    }

    ghost predicate Exact()
      reads `resolversByTime1, `resolversByTime2, `timeMap1, `timeMap2, `deadlines, `lastPoll, `requests, requests
      reads `lastTicksInFirstHalf
    {
      Aligned() && lastTicksInFirstHalf == Timers.FirstHalf(Timers.Ticks(lastPoll))
    }

    constructor (dns: Ip)
      ensures Valid() && requests == {} && isExiting && !quitFlag && log == Start && this.dns == dns
      ensures deadlines == Timers.Nil && queue == [] && running == None && !armed
    {
      resolversMap, idMap, sendList, queue := map[], map[], [], [];
      resolversByTime1, resolversByTime2, timeMap1, timeMap2 := Timers.Nil, Timers.Nil, First, Second;
      running, armed, quitFlag, isExiting, lastTicksInFirstHalf := None, false, false, true, false;
      this.dns := dns;
      requests, model, log, deadlines, lastPoll := {}, INITIAL, Start, Timers.Nil, 0;
    }

    /** What ~LookupThread asserts: with no request left, every index is empty. */
    lemma Drained()
      requires Indexed() && resolversMap == map[]
      ensures sendList == [] && resolversByTime1.Nil? && resolversByTime2.Nil? && idMap == map[]
    {
      var v := ViewOf(requests);
      IndexesNonempty(v, sendList, resolversByTime1, resolversByTime2, idMap);
      assert forall r :: r in v ==> r.hnr in resolversMap;
    }

    /** While anything waits to be sent, the socket is armed or a StartSending message is on its way. */
    lemma NoLostWakeup()
      requires Valid()
      ensures sendList != [] ==> armed || StartSending in queue || running == Some(StartSending)
    {
      RunInvariant(log);
    }

    /** Every accepted request is active, ended by a callback, or cancelled; and each ended at most once. */
    lemma Accounted(k: nat)
      requires Valid()
      ensures model.accepted == |resolversMap| + model.completed + model.cancelled
      ensures |idMap| == |resolversMap|
      ensures Ends(log, k) == if k < model.accepted && forall r :: r in requests ==> r.serial != k then 1 else 0
    {
      hide Ends;
      var v := ViewOf(requests);
      IdCount(v, resolversMap, idMap);
      ActiveKeys(v, resolversMap, model.active, dns);
      assert model.active.Keys == resolversMap.Keys;
      assert |model.active| == |model.active.Keys| && |resolversMap| == |resolversMap.Keys|;
      Conservation(log);
      EndsOnce(log, k);
      LiveRequests(k);
    }

    lemma LiveRequests(k: nat)
      requires Indexed()
      ensures Live(model, k) <==> exists r :: r in requests && r.serial == k
    {
      var v := ViewOf(requests);
      ActiveKeys(v, resolversMap, model.active, dns);
      if Live(model, k) {
        var h :| h in model.active && model.active[h].serial == k;
        assert resolversMap[h] in v;
      }
      if r :| r in requests && r.serial == k {
        assert r in v;
      }
    }

    lemma RemoveExact(r: Resolver)
      requires Indexed() && r in requests && Aligned()
      ensures var w := Timers.Wheel(MapWithout(MapAt(timeMap1), timeMap1, r, FieldsOf(r)),
                                    MapWithout(MapAt(timeMap2), timeMap2, r, FieldsOf(r)));
              Timers.Refines(w, Timers.Erase(deadlines, r.due, r), Timers.Epoch(lastPoll))
    {
      hide Timers.Refines, Timers.Erase, Timers.Sorted, Timers.Below, Timers.Once, Timers.Members, Timers.Has;
      hide SendsAgree, ActiveAgree, UnsentAgree, IdsAgree, Owned;
      assert r in ViewOf(requests);
      Timers.EraseRefines(Wheel(), deadlines, Timers.Epoch(lastPoll), r.timeMapIter, r);
    }

    /** Takes the request out of the deadline map it says it stands in. */
    method EraseDeadline(r: Resolver)
      modifies `resolversByTime1, `resolversByTime2
      ensures resolversByTime1 == MapWithout(old(resolversByTime1), First, r, old(FieldsOf(r)))
      ensures resolversByTime2 == MapWithout(old(resolversByTime2), Second, r, old(FieldsOf(r)))
    {
      if r.timeMap == First {
        resolversByTime1 := Timers.Erase(resolversByTime1, r.timeMapIter, r);
      } else {
        resolversByTime2 := Timers.Erase(resolversByTime2, r.timeMapIter, r);
      }
    }

    /** What erasing a request from every index leaves, index by index. */
    lemma RemoveIndexes(r: Resolver)
      requires Indexed() && r in requests
      ensures r.hnr in resolversMap && resolversMap[r.hnr] == r
      ensures ViewOf(requests - {r}) == ViewOf(requests) - {r}
      ensures var v, f := ViewOf(requests) - {r}, FieldsOf(r);
              && Owned(v, resolversMap - {r.hnr})
              && IdsAgree(v, idMap - {f.idIter})
              && InMap(v, MapWithout(resolversByTime1, First, r, f), First)
              && InMap(v, MapWithout(resolversByTime2, Second, r, f), Second)
              && SendsAgree(v, Without(sendList, r))
              && (f.sendIter == None ==> Without(sendList, r) == sendList)
              && (f.sendIter != None ==> f.sendIter == Some(r))
              && ActiveAgree(v, model.active - {r.hnr}, dns)
              && UnsentAgree(Without(sendList, r), Without(model.unsent, r.hnr))
    {
      hide Without, Timers.Erase, InMap, IdsAgree, ActiveAgree, UnsentAgree, SendsAgree;
      var v := ViewOf(requests);
      assert r in v;
      OwnedRemove(v, resolversMap, r);
      IdsRemove(v, idMap, r);
      InMapRemove(v, resolversByTime1, First, r);
      InMapRemove(v, resolversByTime2, Second, r);
      SendsRemove(v, sendList, r);
      ActiveRemove(v, resolversMap, model.active, dns, r);
      UniqueInList(v, resolversMap, sendList, r);
      UnsentRemove(sendList, model.unsent, r);
    }

    /** The erasures of RemoveResolver, field by field. */
    method EraseEntries(x: Resolver)
      modifies `resolversMap, `idMap, `resolversByTime1, `resolversByTime2, `sendList, `requests, `model, `deadlines
      ensures resolversMap == old(resolversMap) - {x.hnr}
      ensures sendList == if x.sendIter == None then old(sendList) else Without(old(sendList), x.sendIter.value)
      ensures resolversByTime1 == MapWithout(old(resolversByTime1), First, x, old(FieldsOf(x)))
      ensures resolversByTime2 == MapWithout(old(resolversByTime2), Second, x, old(FieldsOf(x)))
      ensures idMap == old(idMap) - {x.idIter}
      ensures requests == old(requests) - {x} && model == Drop(old(model), x.hnr)
      ensures deadlines == Timers.Erase(old(deadlines), x.due, x)
    {
      hide Without, Timers.Erase;
      resolversMap := resolversMap - {x.hnr};
      if x.sendIter != None {
        sendList := Without(sendList, x.sendIter.value);
      }
      EraseDeadline(x);
      idMap := idMap - {x.idIter};
      requests, model, deadlines := requests - {x}, Drop(model, x.hnr), Timers.Erase(deadlines, x.due, x);
    }

    method RemoveResolver(h: Hnr) returns (r: Resolver?)
      requires Indexed()
      modifies `resolversMap, `idMap, `resolversByTime1, `resolversByTime2, `sendList, `requests, `model, `deadlines
      ensures Indexed()
      ensures h !in old(resolversMap) ==>
                && r == null && model == old(model) && requests == old(requests)
                && resolversMap == old(resolversMap) && deadlines == old(deadlines)
      ensures h in old(resolversMap) ==>
                && r == old(resolversMap)[h] && requests == old(requests) - {r} && model == Drop(old(model), h)
                && resolversMap == old(resolversMap) - {h} && deadlines == Timers.Erase(old(deadlines), r.due, r)
      ensures old(Aligned()) ==> Aligned()
    {
      hide Without, Timers.Erase, Timers.Refines, Timers.FirstHalf, Timers.Epoch, Timers.Ticks, Pending;
      hide InMap, IdsAgree, SendsAgree, ActiveAgree, UnsentAgree, ViewOf, Owned, Spelled;
      if h !in resolversMap {
        return null;
      }
      var x: Resolver := resolversMap[h];
      r := x;
      OwnerOf(requests, resolversMap, h);
      RemoveIndexes(x);
      if Aligned() {
        RemoveExact(x);
        SpelledRemove(ViewOf(requests), timeMap1, Timers.Epoch(lastPoll), x);
      }
      EraseEntries(x);
    }

    method InsertId(r: Resolver, id: uint16)
      modifies r`id, r`idIter, `idMap
      ensures r.id == r.idIter == id && idMap == old(idMap)[id := r]
    {
      r.id := id;
      idMap := idMap[id := r];
      r.idIter := id;
    }

    method InsertDeadline(r: Resolver, cur: uint32, timeout: uint32)
      modifies r`timeMap, r`timeMapIter, `resolversByTime1, `resolversByTime2
      ensures r.timeMapIter == (cur + timeout) % Timers.WRAP
      ensures r.timeMap == if r.timeMapIter < cur then timeMap2 else timeMap1
      ensures resolversByTime1 == if r.timeMap == First then Timers.Insert(old(resolversByTime1), r.timeMapIter, r)
                                  else old(resolversByTime1)
      ensures resolversByTime2 == if r.timeMap == Second then Timers.Insert(old(resolversByTime2), r.timeMapIter, r)
                                  else old(resolversByTime2)
    {
      hide Timers.Insert;
      var endTime := (cur + timeout) % Timers.WRAP;
      if endTime < cur {
        r.timeMap := timeMap2;
      } else {
        r.timeMap := timeMap1;
      }
      if r.timeMap == First {
        resolversByTime1 := Timers.Insert(resolversByTime1, endTime, r);
      } else {
        resolversByTime2 := Timers.Insert(resolversByTime2, endTime, r);
      }
      r.timeMapIter := endTime;
    }

    /** The last stage: the main map takes the request; a message goes out if the send list was empty. */
    method Commit(r: Resolver, ghost e: Event)
      requires Step(model, e).Some?
      modifies `resolversMap, `queue, `requests, `model, `log, `deadlines
      ensures resolversMap == old(resolversMap)[r.hnr := r]
      ensures queue == if |sendList| == 1 then old(queue) + [StartSending] else old(queue)
      ensures requests == old(requests) + {r} && deadlines == Timers.Insert(old(deadlines), r.due, r)
      ensures log == Then(old(log), e) && Some(model) == Step(old(model), e)
    {
      hide Timers.Insert, Step;
      resolversMap := resolversMap[r.hnr := r];
      if |sendList| == 1 {
        queue := queue + [StartSending];
      }
      requests, deadlines := requests + {r}, Timers.Insert(deadlines, r.due, r);
      log, model := Then(log, e), Step(model, e).value;
    }

    /** The insertions into a deadline map and the send list, with their rollback. */
    method InsertTimeAndSend(r: Resolver, cur: uint32, timeout: uint32, fault: Fault) returns (ok: bool)
      requires r.sendIter == None
      requires r !in Timers.Members(resolversByTime1) && r !in Timers.Members(resolversByTime2)
      modifies r`timeMap, r`timeMapIter, r`sendIter, `resolversByTime1, `resolversByTime2, `sendList
      ensures ok <==> fault == NoFault || fault == AtIdMap
      ensures !ok ==>
                && sendList == old(sendList)
                && resolversByTime1 == old(resolversByTime1) && resolversByTime2 == old(resolversByTime2)
      ensures ok ==>
                var f := NewFields(r, r.id, r.dns, cur, timeout, timeMap1, timeMap2);
                && r.timeMap == f.timeMap && r.timeMapIter == f.timeMapIter && r.sendIter == f.sendIter
                && sendList == old(sendList) + [r]
                && resolversByTime1 == MapWith(old(resolversByTime1), First, r, f)
                && resolversByTime2 == MapWith(old(resolversByTime2), Second, r, f)
    {
      hide Timers.Insert, Timers.Erase, Timers.Members;
      if fault == AtTimeMap {
        return false;
      }
      InsertDeadline(r, cur, timeout);
      if fault == AtSendList {
        Timers.EraseInsert(old(resolversByTime1), r.timeMapIter, r);
        Timers.EraseInsert(old(resolversByTime2), r.timeMapIter, r);
        EraseDeadline(r);
        return false;
      }
      sendList := sendList + [r];
      r.sendIter := Some(r);
      if fault == AtMainMap {
        sendList := sendList[..|sendList| - 1];
        Timers.EraseInsert(old(resolversByTime1), r.timeMapIter, r);
        Timers.EraseInsert(old(resolversByTime2), r.timeMapIter, r);
        EraseDeadline(r);
        return false;
      }
      ok := true;
    }

    /** The insertions of resolve up to the main map, with the rollback of each stage. */
    method InsertIndexes(r: Resolver, id: uint16, cur: uint32, timeout: uint32, fault: Fault) returns (ok: bool)
      requires id !in idMap && r.sendIter == None && r.recordType == TYPE_AAAA
      requires r !in Timers.Members(resolversByTime1) && r !in Timers.Members(resolversByTime2)
      modifies r, `idMap, `resolversByTime1, `resolversByTime2, `sendList
      ensures ok <==> fault == NoFault
      ensures !ok ==>
                && idMap == old(idMap) && sendList == old(sendList)
                && resolversByTime1 == old(resolversByTime1) && resolversByTime2 == old(resolversByTime2)
      ensures ok ==>
                var f := NewFields(r, id, old(r.dns), cur, timeout, timeMap1, timeMap2);
                && FieldsOf(r) == f && idMap == old(idMap)[id := r] && sendList == old(sendList) + [r]
                && resolversByTime1 == MapWith(old(resolversByTime1), First, r, f)
                && resolversByTime2 == MapWith(old(resolversByTime2), Second, r, f)
    {
      hide Timers.Insert, Timers.Members;
      if fault == AtIdMap {
        return false;
      }
      InsertId(r, id);
      ok := InsertTimeAndSend(r, cur, timeout, fault);
      if !ok {
        idMap := idMap - {r.idIter};
      }
    }

    /** All insertions, with the event they amount to. */
    method InsertEntries(r: Resolver, id: uint16, cur: uint32, timeout: uint32, fault: Fault, ghost e: Event)
      returns (ok: bool)
      requires id !in idMap && r.sendIter == None && r.recordType == TYPE_AAAA && Step(model, e).Some?
      requires r !in Timers.Members(resolversByTime1) && r !in Timers.Members(resolversByTime2)
      modifies r, `resolversMap, `idMap, `resolversByTime1, `resolversByTime2, `sendList, `queue
      modifies `requests, `model, `log, `deadlines
      ensures ok <==> fault == NoFault
      ensures !ok ==>
                && resolversMap == old(resolversMap) && idMap == old(idMap) && sendList == old(sendList)
                && resolversByTime1 == old(resolversByTime1) && resolversByTime2 == old(resolversByTime2)
                && queue == old(queue) && requests == old(requests) && model == old(model) && log == old(log)
                && deadlines == old(deadlines)
      ensures ok ==>
                var f := NewFields(r, id, old(r.dns), cur, timeout, timeMap1, timeMap2);
                && FieldsOf(r) == f && idMap == old(idMap)[id := r] && sendList == old(sendList) + [r]
                && resolversByTime1 == MapWith(old(resolversByTime1), First, r, f)
                && resolversByTime2 == MapWith(old(resolversByTime2), Second, r, f)
                && MapAt(timeMap1) == MapWith(old(MapAt(timeMap1)), timeMap1, r, f)
                && MapAt(timeMap2) == MapWith(old(MapAt(timeMap2)), timeMap2, r, f)
                && resolversMap == old(resolversMap)[r.hnr := r]
                && queue == (if old(sendList) == [] then old(queue) + [StartSending] else old(queue))
                && requests == old(requests) + {r} && deadlines == Timers.Insert(old(deadlines), r.due, r)
                && log == Then(old(log), e) && Some(model) == Step(old(model), e)
    {
      hide Timers.Insert, Timers.Members, Step;
      ok := InsertIndexes(r, id, cur, timeout, fault);
      if ok {
        Commit(r, e);
      }
    }

    // ---------- resolve ----------

    method FindFreeId() returns (id: Option<uint16>)
      ensures id.None? <==> |idMap| == Ids.IDS
      ensures id.Some? ==> id.value !in idMap
    {
      id := Ids.FindFreeId(Ids.InOrder(idMap.Keys));
    }

    lemma AddIndexes(r: Resolver, f: Fields)
      requires Indexed() && r !in requests && r.hnr !in resolversMap && f.id !in idMap
      requires f.idIter == f.id && f.timeMapIter < Timers.WRAP && f.sendIter == Some(r)
      ensures r !in sendList && r.hnr !in model.active && Unused(model, f.id)
      ensures r !in Timers.Members(resolversByTime1) && r !in Timers.Members(resolversByTime2)
      ensures var v := ViewOf(requests)[r := f];
              && Owned(v, resolversMap[r.hnr := r])
              && IdsAgree(v, idMap[f.id := r])
              && InMap(v, MapWith(resolversByTime1, First, r, f), First)
              && InMap(v, MapWith(resolversByTime2, Second, r, f), Second)
              && SendsAgree(v, sendList + [r])
              && ActiveAgree(v, model.active[r.hnr := RequestOf(r, f, dns)], dns)
              && UnsentAgree(sendList + [r], model.unsent + [r.hnr])
    {
      hide Timers.Insert, Timers.Members, InMap, IdsAgree, Unused, RequestOf;
      var v := ViewOf(requests);
      OwnedAdd(v, resolversMap, r, f);
      IdsAdd(v, idMap, r, f);
      InMapAdd(v, resolversByTime1, First, r, f);
      InMapAdd(v, resolversByTime2, Second, r, f);
      SendsAdd(v, sendList, r, f);
      ActiveAdd(v, model.active, dns, r, f);
      FreeIdUnused(v, idMap, model, dns, f.id);
    }

    /** Adding keeps the maps exact when the clock is in the epoch of the last poll, and only then. */
    lemma AddExactly(r: Resolver, f: Fields, clock: nat, timeout: uint32)
      requires Indexed() && Aligned() && r.due == clock + timeout
      requires f == NewFields(r, f.id, f.dns, Timers.Ticks(clock), timeout, timeMap1, timeMap2)
      ensures var e := Timers.Epoch(lastPoll);
              && Spelled(ViewOf(requests), timeMap1, e)
              && (Timers.Epoch(clock) == e ==> Spelled(ViewOf(requests)[r := f], timeMap1, e))
              && (Timers.Epoch(clock) == e <==>
                  Timers.Refines(Timers.Wheel(MapWith(MapAt(timeMap1), timeMap1, r, f),
                                              MapWith(MapAt(timeMap2), timeMap2, r, f)),
                                 Timers.Insert(deadlines, r.due, r), e))
    {
      hide Timers.Refines, Timers.Insert, Timers.Ticks, Timers.Epoch, InMap, IdsAgree, SendsAgree, ActiveAgree, Owned;
      var e := Timers.Epoch(lastPoll);
      Timers.AddExact(Wheel(), deadlines, e, clock, timeout, r);
      Timers.DeadlineSplit(clock, timeout);
      Timers.SplitTime(clock + timeout);
    }

    lemma AcceptedStep(r: Resolver, f: Fields)
      requires Indexed() && r !in requests && r.hnr !in model.active && Unused(model, f.id)
      requires f.recordType == TYPE_AAAA && |r.hostName| <= MAX_NAME && r.serial == model.accepted
      ensures var req := RequestOf(r, f, dns);
              var after := Step(model, Accepted(r.hnr, req));
              && after.Some?
              && after.value.active == model.active[r.hnr := req] && after.value.unsent == model.unsent + [r.hnr]
              && after.value.armed == armed && after.value.calling == model.calling
              && after.value.wakes
                 == Pending(if sendList == [] then queue + [StartSending] else queue, running)
    {
    }

    lemma ViewAdd(before: set<Resolver>, r: Resolver)
      ensures ViewOf(before + {r}) == ViewOf(before)[r := FieldsOf(r)]
    {
    }

    /** The insertions keep the indexes in agreement, and the deadlines exact in the right clock epoch only. */
    method Enlist(r: Resolver, id: uint16, timeout: uint32, clock: nat, fault: Fault, ghost f: Fields)
      returns (ok: bool)
      requires Consistent()
      requires r !in requests && r.hnr !in resolversMap && id !in idMap && |r.hostName| <= MAX_NAME
      requires r.serial == model.accepted && r.due == clock + timeout
      requires r.sendIter == None && r.recordType == TYPE_AAAA
      requires f == NewFields(r, id, r.dns, Timers.Ticks(clock), timeout, timeMap1, timeMap2)
      modifies r, `resolversMap, `idMap, `resolversByTime1, `resolversByTime2, `sendList, `queue
      modifies `requests, `model, `log, `deadlines
      ensures ok <==> fault == NoFault
      ensures !ok ==>
                && resolversMap == old(resolversMap) && idMap == old(idMap) && sendList == old(sendList)
                && resolversByTime1 == old(resolversByTime1) && resolversByTime2 == old(resolversByTime2)
                && queue == old(queue) && requests == old(requests) && model == old(model) && log == old(log)
                && deadlines == old(deadlines)
      ensures ok ==> requests == old(requests) + {r} && model.calling == old(model).calling
      ensures ok ==> log == Then(old(log), Accepted(r.hnr, RequestOf(r, f, dns)))
      ensures Consistent()
      ensures old(Aligned()) ==> (Aligned() <==> !ok || Timers.Epoch(clock) == Timers.Epoch(lastPoll))
    {
      hide Timers.Insert, Timers.Refines, Timers.Ticks, Timers.Epoch, Timers.FirstHalf, Timers.Members, Timers.Add;
      hide InMap, IdsAgree, SendsAgree, ActiveAgree, UnsentAgree, Owned, Spelled, Unused, ViewOf, Pending, Step;
      hide MapAt, MapWith, FieldsOf, NewFields, RequestOf;
      AddIndexes(r, f);
      AcceptedStep(r, f);
      if Aligned() {
        AddExactly(r, f, clock, timeout);
      }
      ok := InsertEntries(r, id, Timers.Ticks(clock), timeout, fault, Accepted(r.hnr, RequestOf(r, f, dns)));
      ViewAdd(old(requests), r);
    }

    /** The part of resolve from the choice of an id on. */
    method AddRequest(h: Hnr, name: Name, timeout: uint32, server: Ip, clock: nat, fault: Fault)
      returns (reply: Reply, ghost req: Request)
      requires Consistent()
      requires h !in resolversMap && |name| <= MAX_NAME
      modifies `resolversMap, `idMap, `resolversByTime1, `resolversByTime2, `sendList, `queue
      modifies `requests, `model, `log, `deadlines
      ensures Consistent() && fresh(requests - old(requests))
      ensures reply == if |old(idMap)| == Ids.IDS then TooManyRequests
                       else if fault != NoFault then NoMemory else Started
      ensures reply != Started ==>
                && resolversMap == old(resolversMap) && idMap == old(idMap) && sendList == old(sendList)
                && resolversByTime1 == old(resolversByTime1) && resolversByTime2 == old(resolversByTime2)
                && queue == old(queue) && requests == old(requests) && model == old(model) && log == old(log)
                && deadlines == old(deadlines)
      ensures reply == Started ==>
                && req == Request(old(model).accepted, name, TYPE_AAAA, req.id, clock + timeout, ServerOf(server, dns))
                && log == Then(old(log), Accepted(h, req)) && model.calling == old(model).calling
      ensures old(Aligned()) ==> (Aligned() <==> reply != Started || Timers.Epoch(clock) == Timers.Epoch(lastPoll))
    {
      hide Consistent, Aligned, Timers.Ticks, Timers.Epoch, Step, FieldsOf;
      var r := new Resolver(h, name, server, model.accepted, clock + timeout);
      req := RequestOf(r, FieldsOf(r), dns);
      var id := FindFreeId();
      if id == None {
        reply := TooManyRequests;
        return;
      }
      ghost var f := NewFields(r, id.value, server, Timers.Ticks(clock), timeout, timeMap1, timeMap2);
      req := RequestOf(r, f, dns);
      var ok := Enlist(r, id.value, timeout, clock, fault, f);
      reply := if ok then Started else NoMemory;
    }

    /** dns_resolver::resolve on a running thread. On an exiting thread the request goes to a new one. */
    method Resolve(h: Hnr, name: Name, timeout: uint32, server: Ip, clock: nat, fault: Fault)
      returns (reply: Reply)
      requires Consistent()
      modifies `resolversMap, `idMap, `resolversByTime1, `resolversByTime2, `sendList, `queue
      modifies `requests, `model, `log, `deadlines
      ensures Consistent() && fresh(requests - old(requests)) && model.calling == old(model).calling
      ensures reply == if |name| > 253 then NameTooLong
                       else if h in old(resolversMap) then InProgress
                       else if isExiting then NewThread
                       else if |old(idMap)| == 65536 then TooManyRequests
                       else if fault != NoFault then NoMemory else Started
      ensures reply != Started ==>
                && resolversMap == old(resolversMap) && idMap == old(idMap) && sendList == old(sendList)
                && resolversByTime1 == old(resolversByTime1) && resolversByTime2 == old(resolversByTime2)
                && queue == old(queue) && requests == old(requests) && model == old(model) && log == old(log)
                && deadlines == old(deadlines)
      ensures reply == Started ==>
                && log.Then? && log.before == old(log) && log.e.Accepted? && log.e.h == h
                && log.e.req == Request(old(model).accepted, name, 28, log.e.req.id, clock + timeout,
                                        ServerOf(server, dns))
      ensures old(Aligned()) ==> (Aligned() <==> reply != Started || Timers.Epoch(clock) == Timers.Epoch(lastPoll))
    {
      hide Consistent, Aligned, Timers.Epoch;
      if |name| > MAX_NAME {
        return NameTooLong;
      }
      if h in resolversMap {
        return InProgress;
      }
      if isExiting {
        return NewThread;
      }
      ghost var req;
      reply, req := AddRequest(h, name, timeout, server, clock, fault);
    }

    lemma NoneLeft()
      requires Indexed() && requests == {}
      ensures resolversMap == map[] && idMap == map[]
    {
      NothingOwned(requests, resolversMap);
      Drained();
    }

    lemma EmptyAligned()
      requires Indexed() && requests == {} && deadlines == Timers.Nil
      ensures Aligned()
    {
      NoneLeft();
      Drained();
    }

    /** The tail of resolve that starts the thread. */
    method Launch(clock: nat)
      requires Valid() && Aligned() && lastPoll == clock
      modifies `lastTicksInFirstHalf, `isExiting
      ensures Valid() && Exact() && lastPoll == clock && !isExiting
    {
      hide Consistent, Aligned, Timers.FirstHalf, Timers.Ticks;
      lastTicksInFirstHalf := Timers.FirstHalf(Timers.Ticks(clock));
      isExiting := false;
    }

    /** A thread object without requests is exact whatever the clock shows. */
    ghost method SetClock(clock: nat)
      requires Valid() && requests == {} && deadlines == Timers.Nil
      modifies `lastPoll
      ensures Valid() && lastPoll == clock && Aligned() && resolversMap == map[] && idMap == map[]
    {
      hide Aligned, Indexed;
      lastPoll := clock;
      NoneLeft();
      EmptyAligned();
    }

    /** dns_resolver::resolve with a thread object it has just made: the request starts the thread. */
    method ResolveFirst(h: Hnr, name: Name, timeout: uint32, server: Ip, clock: nat, fault: Fault)
      returns (reply: Reply)
      requires Valid() && requests == {} && deadlines == Timers.Nil && isExiting
      modifies `resolversMap, `idMap, `resolversByTime1, `resolversByTime2, `sendList, `queue
      modifies `requests, `model, `log, `deadlines, `lastPoll, `lastTicksInFirstHalf, `isExiting
      ensures Valid() && fresh(requests)
      ensures reply == if |name| > 253 then NameTooLong else if fault != NoFault then NoMemory else Started
      ensures reply == Started ==>
                && !isExiting && Exact() && lastPoll == clock
                && log.Then? && log.before == old(log) && log.e.Accepted? && log.e.h == h
                && log.e.req == Request(old(model).accepted, name, 28, log.e.req.id, clock + timeout,
                                        ServerOf(server, dns))
      ensures reply != Started ==> requests == {} && deadlines == Timers.Nil && isExiting && log == old(log)
    {
      hide Consistent, Aligned, Exact, Timers.Epoch;
      if |name| > MAX_NAME {
        return NameTooLong;
      }
      SetClock(clock);
      ghost var req;
      reply, req := AddRequest(h, name, timeout, server, clock, fault);
      if reply == Started {
        Launch(clock);
      }
    }

    /** The tail of cancel: stop the thread when nothing is left. */
    method StopIfIdle()
      requires Consistent()
      modifies `quitFlag, `queue
      ensures Consistent() && quitFlag == (old(quitFlag) || resolversMap == map[])
      ensures queue == if resolversMap == map[] then old(queue) + [Nothing] else old(queue)
    {
      hide InMap, IdsAgree, SendsAgree, ActiveAgree, UnsentAgree, Owned, ViewOf, Pending;
      if resolversMap == map[] {
        PendingNothing(queue, running);
        quitFlag := true;
        queue := queue + [Nothing];
      }
    }

    ghost method LogCancel(h: Hnr, before: State)
      requires Indexed() && Reaches(log, before) && h in before.active && model == Drop(before, h)
      modifies `log, `model
      ensures Consistent() && log == Then(old(log), Cancelled(h, before.active[h])) && model.calling == before.calling
    {
      hide InMap, IdsAgree, SendsAgree, ActiveAgree, UnsentAgree, Owned, ViewOf, Pending, Step, Without;
      CancelStep(before, h);
      log, model := Then(log, Cancelled(h, before.active[h])), model.(cancelled := model.cancelled + 1);
    }

    /** dns_resolver::cancel up to the wait for a running callback. */
    method Cancel(h: Hnr) returns (ret: bool)
      requires Consistent()
      modifies `resolversMap, `idMap, `resolversByTime1, `resolversByTime2, `sendList, `queue, `quitFlag
      modifies `requests, `model, `log, `deadlines
      ensures Consistent() && model.calling == old(model).calling && requests <= old(requests)
      ensures ret <==> h in old(resolversMap)
      ensures ret ==> h in old(model).active && log == Then(old(log), Cancelled(h, old(model).active[h]))
      ensures !ret ==> log == old(log) && model == old(model) && requests == old(requests)
      ensures resolversMap == old(resolversMap) - {h}
      ensures quitFlag == (old(quitFlag) || resolversMap == map[])
      ensures queue == if resolversMap == map[] then old(queue) + [Nothing] else old(queue)
      ensures old(Aligned()) ==> Aligned()
    {
      hide InMap, IdsAgree, SendsAgree, ActiveAgree, UnsentAgree, Owned, ViewOf, Pending, Aligned, Step;
      ActiveKeys(ViewOf(requests), resolversMap, model.active, dns);
      var r := RemoveResolver(h);
      ret := r != null;
      if ret {
        LogCancel(h, old(model));
      }
      StopIfIdle();
    }

    // ---------- callbacks ----------

    lemma ActiveCount()
      requires Indexed()
      ensures forall h :: h in resolversMap <==> h in model.active
      ensures |idMap| == |model.active|
    {
      var v := ViewOf(requests);
      IdCount(v, resolversMap, idMap);
      ActiveKeys(v, resolversMap, model.active, dns);
      assert model.active.Keys == resolversMap.Keys;
      assert |model.active| == |model.active.Keys| && |resolversMap| == |resolversMap.Keys|;
    }

    /** One call of a user thread. */
    method RunOp(op: UserOp)
      requires Consistent()
      modifies `resolversMap, `idMap, `resolversByTime1, `resolversByTime2, `sendList, `queue, `quitFlag
      modifies `requests, `model, `log, `deadlines
      ensures Consistent() && fresh(requests - old(requests)) && model.calling == old(model).calling
      ensures OpDone(op, isExiting, dns, old(log), log)
      ensures isExiting ==> requests <= old(requests)
      ensures old(Aligned()) && (op.DoResolve? ==> Timers.Epoch(op.clock) == Timers.Epoch(lastPoll)) ==> Aligned()
    {
      hide Indexed, Aligned, Timers.Epoch, Step;
      ActiveCount();
      match op {
        case DoResolve(h, name, timeout, server, clock, fault) =>
          var _ := Resolve(h, name, timeout, server, clock, fault);
        case DoCancel(h) =>
          var _ := Cancel(h);
      }
    }

    /** A window of user activity: any sequence of resolves and cancels while the mutex is free. */
    method RunUserOps(ops: seq<UserOp>)
      requires Consistent()
      modifies `resolversMap, `idMap, `resolversByTime1, `resolversByTime2, `sendList, `queue, `quitFlag
      modifies `requests, `model, `log, `deadlines
      ensures Consistent() && fresh(requests - old(requests)) && model.calling == old(model).calling
      ensures OpsDone(ops, isExiting, dns, old(log), log)
      ensures isExiting ==> requests <= old(requests)
      ensures ops == [] ==> requests == old(requests) && log == old(log)
      ensures old(Aligned()) && InEpoch(ops, Timers.Epoch(lastPoll)) ==> Aligned()
    {
      hide Consistent, Aligned, Timers.Epoch, OpDone;
      var i := 0;
      assert ops[..0] == [];
      while i < |ops|
        invariant 0 <= i <= |ops|
        invariant Consistent() && fresh(requests - old(requests)) && model.calling == old(model).calling
        invariant OpsDone(ops[..i], isExiting, dns, old(log), log)
        invariant isExiting ==> requests <= old(requests)
        invariant i == 0 ==> requests == old(requests) && log == old(log)
        invariant old(Aligned()) && InEpoch(ops, Timers.Epoch(lastPoll)) ==> Aligned()
        decreases |ops| - i
      {
        ghost var middle := log;
        RunOp(ops[i]);
        OpsSnoc(ops[..i], ops[i], isExiting, dns, old(log), middle, log);
        assert ops[..i + 1] == ops[..i] + [ops[i]];
        i := i + 1;
      }
      assert ops[..i] == ops;
    }

    ghost method LogBegin(h: Hnr, result: DnsResult, ip: Ip, before: State)
      requires Indexed() && Reaches(log, before) && before.calling.None?
      requires h in before.active && model == Drop(before, h)
      requires result == NotFound ==> before.active[h].rtype == TYPE_A
      modifies `log, `model
      ensures Consistent() && model.calling.Some? && log == Then(old(log), Begun(h, before.active[h], result, ip))
    {
      hide InMap, IdsAgree, SendsAgree, ActiveAgree, UnsentAgree, Owned, ViewOf, Pending, Step, Without;
      BeginStep(before, h, result, ip);
      log, model := Then(log, Begun(h, before.active[h], result, ip)), model.(calling := Some(before.active[h]));
    }

    ghost method LogEnd()
      requires Consistent() && model.calling.Some?
      modifies `log, `model
      ensures Valid() && log == Then(old(log), Ended)
    {
      hide InMap, IdsAgree, SendsAgree, ActiveAgree, UnsentAgree, Owned, ViewOf, Pending, Step, Without;
      EndStep(model);
      log, model := Then(log, Ended), model.(calling := None, completed := model.completed + 1);
    }

    /** The callback of a request that left all indexes. While it runs, completedMutex is held and mutex is
        free: the first window of the script happens then. */
    method CallCallback(r: Resolver, result: DnsResult, ip: Ip, script: seq<seq<UserOp>>, ghost before: State)
      returns (rest: seq<seq<UserOp>>)
      requires Indexed() && Reaches(log, before) && before.calling.None?
      requires r.hnr in before.active && model == Drop(before, r.hnr)
      requires result == NotFound ==> before.active[r.hnr].rtype == TYPE_A
      modifies `resolversMap, `idMap, `resolversByTime1, `resolversByTime2, `sendList, `queue, `quitFlag
      modifies `requests, `model, `log, `deadlines
      ensures Valid() && fresh(requests - old(requests))
      ensures CallbackRan(old(log), r.hnr, before.active[r.hnr], result, ip, Users(script, isExiting, dns), log)
      ensures script == [] ==> deadlines == old(deadlines)
      ensures isExiting || script == [] ==> requests <= old(requests)
      ensures rest == Later(script)
      ensures old(Aligned()) && (script != [] ==> InEpoch(script[0], Timers.Epoch(lastPoll))) ==> Aligned()
    {
      hide Indexed, Reaches, Aligned, Timers.Epoch, InEpoch, OpDone;
      LogBegin(r.hnr, result, ip, before);
      rest := [];
      if script != [] {
        RunUserOps(script[0]);
        rest := script[1..];
      }
      LogEnd();
    }

    /** RemoveResolver followed by the callback, as at each place a request completes. */
    method Complete(h: Hnr, result: DnsResult, ip: Ip, script: seq<seq<UserOp>>) returns (rest: seq<seq<UserOp>>)
      requires Valid() && h in resolversMap
      requires h in model.active && (result == NotFound ==> model.active[h].rtype == TYPE_A)
      modifies `resolversMap, `idMap, `resolversByTime1, `resolversByTime2, `sendList, `queue, `quitFlag
      modifies `requests, `model, `log, `deadlines
      ensures Valid() && fresh(requests - old(requests))
      ensures CallbackRan(old(log), h, old(model).active[h], result, ip, Users(script, isExiting, dns), log)
      ensures script == [] ==>
                deadlines == Timers.Erase(old(deadlines), old(resolversMap)[h].due, old(resolversMap)[h])
      ensures isExiting || script == [] ==> requests <= old(requests) - {old(resolversMap)[h]}
      ensures old(resolversMap)[h] in old(requests)
      ensures rest == Later(script)
      ensures old(Aligned()) && (script != [] ==> InEpoch(script[0], Timers.Epoch(lastPoll))) ==> Aligned()
    {
      hide InMap, IdsAgree, SendsAgree, ActiveAgree, UnsentAgree, Owned, ViewOf, Pending;
      hide Step, Without, Aligned, InEpoch, CallbackRan;
      OwnerOf(requests, resolversMap, h);
      var r := RemoveResolver(h);
      rest := CallCallback(r, result, ip, script, old(model));
    }

    // ---------- steps that change one request ----------

    /** A request's fields change except its id and deadline; the other indexes stay. */
    lemma AfterSet(before: View, r: Resolver, e: nat)
      requires ViewOf(requests) == before[r := FieldsOf(r)] && r in before
      requires FieldsOf(r).id == before[r].id && FieldsOf(r).idIter == before[r].idIter
      requires FieldsOf(r).timeMap == before[r].timeMap && FieldsOf(r).timeMapIter == before[r].timeMapIter
      requires Owned(before, resolversMap) && IdsAgree(before, idMap)
      requires InMap(before, resolversByTime1, First) && InMap(before, resolversByTime2, Second)
      ensures var v := ViewOf(requests);
              && Owned(v, resolversMap) && IdsAgree(v, idMap)
              && InMap(v, resolversByTime1, First) && InMap(v, resolversByTime2, Second)
              && (Spelled(v, timeMap1, e) <==> Spelled(before, timeMap1, e))
    {
      hide InMap, IdsAgree, Owned, Spelled, ViewOf, FieldsOf;
      SetFields(before, r, FieldsOf(r), resolversMap, idMap, resolversByTime1, resolversByTime2);
      SetSpelled(before, r, FieldsOf(r), timeMap1, e);
    }

    method WriteType(r: Resolver)
      requires r in requests
      modifies r`recordType, `model
      ensures ViewOf(requests) == old(ViewOf(requests))[r := FieldsOf(r)]
      ensures FieldsOf(r) == old(FieldsOf(r)).(recordType := TYPE_A)
      ensures model == old(model).(active := old(model).active[r.hnr := RequestOf(r, FieldsOf(r), dns)])
    {
      r.recordType := TYPE_A;
      model := model.(active := model.active[r.hnr := RequestOf(r, FieldsOf(r), dns)]);
    }

    /** The request asks for type A from now on. */
    method TurnToA(r: Resolver)
      requires Indexed() && r in requests && r.hnr in model.active
      modifies r`recordType, `model
      ensures Indexed()
      ensures model == old(model).(active := old(model).active[r.hnr := old(model).active[r.hnr].(rtype := TYPE_A)])
      ensures old(Aligned()) ==> Aligned()
    {
      hide InMap, IdsAgree, SendsAgree, ActiveAgree, UnsentAgree, Owned, ViewOf, Pending;
      hide Spelled, FieldsOf, Timers.Refines, Timers.Epoch;
      ghost var v := ViewOf(requests);
      MemberOf(requests, r);
      ActiveKeys(v, resolversMap, model.active, dns);
      WriteType(r);
      AfterSet(v, r, Timers.Epoch(lastPoll));
      SetActive(v, r, FieldsOf(r), resolversMap, old(model).active, dns);
      SetSameIter(v, r, FieldsOf(r), sendList);
    }

    method PushEntry(r: Resolver)
      requires r in requests
      modifies r`sendIter, `sendList, `model
      ensures ViewOf(requests) == old(ViewOf(requests))[r := FieldsOf(r)]
      ensures FieldsOf(r) == old(FieldsOf(r)).(sendIter := Some(r))
      ensures sendList == old(sendList) + [r] && model == old(model).(unsent := old(model).unsent + [r.hnr])
    {
      sendList := sendList + [r];
      r.sendIter := Some(r);
      model := model.(unsent := model.unsent + [r.hnr]);
    }

    /** sendList.push_back of an active request, with its iterator. */
    method PushSend(r: Resolver)
      requires Indexed() && r in requests && r.sendIter == None
      modifies r`sendIter, `sendList, `model
      ensures Indexed() && sendList == old(sendList) + [r]
      ensures model == old(model).(unsent := old(model).unsent + [r.hnr])
      ensures old(Aligned()) ==> Aligned()
    {
      hide InMap, IdsAgree, SendsAgree, ActiveAgree, UnsentAgree, Owned, ViewOf, Pending;
      hide Spelled, FieldsOf, Timers.Refines, Timers.Epoch;
      ghost var v, e := ViewOf(requests), Timers.Epoch(lastPoll);
      FieldsAt(v, r);
      PushEntry(r);
      AfterSet(v, r, e);
      SetActive(v, r, FieldsOf(r), resolversMap, model.active, dns);
      SameRequest(v, r, FieldsOf(r), model.active, dns);
      SetPushed(v, r, FieldsOf(r), old(sendList));
      UnsentPush(old(sendList), old(model).unsent, r);
    }

    lemma FieldsAt(v: View, r: Resolver)
      requires v == ViewOf(requests) && r in requests
      ensures r in v && v[r] == FieldsOf(r)
      ensures v[r].sendIter == r.sendIter && v[r].recordType == r.recordType && v[r].dns == r.dns && v[r].id == r.id
    {
    }

    lemma SameRequest(v: View, r: Resolver, f: Fields, active: map<Hnr, Request>, system: Ip)
      requires r in v && ActiveAgree(v, active, system)
      requires f.recordType == v[r].recordType && f.id == v[r].id
      requires ServerOf(f.dns, system) == ServerOf(v[r].dns, system)
      ensures active[r.hnr := RequestOf(r, f, system)] == active
    {
      SameActive(v, r, active, system);
    }

    method ServerEntry(r: Resolver)
      requires r in requests
      modifies r`dns
      ensures ViewOf(requests) == old(ViewOf(requests))[r := FieldsOf(r)]
      ensures FieldsOf(r) == old(FieldsOf(r)).(dns := ServerOf(old(r.dns), dns))
    {
      if r.dns.GetV4() == 0 {
        r.dns := dns;
      }
    }

    /** The first send fills in the system's server. */
    method ChooseServer(r: Resolver)
      requires Indexed() && r in requests
      modifies r`dns
      ensures Indexed() && r.hnr in model.active && r.dns == model.active[r.hnr].server
      ensures old(Aligned()) ==> Aligned()
    {
      hide InMap, IdsAgree, SendsAgree, ActiveAgree, UnsentAgree, Owned, ViewOf, Pending;
      hide Spelled, FieldsOf, Timers.Refines, Timers.Epoch;
      ghost var v, e := ViewOf(requests), Timers.Epoch(lastPoll);
      FieldsAt(v, r);
      ServerOfActive(v, r, model.active);
      ServerEntry(r);
      FieldsAt(ViewOf(requests), r);
      AfterSet(v, r, e);
      SetActive(v, r, FieldsOf(r), resolversMap, model.active, dns);
      SameRequest(v, r, FieldsOf(r), model.active, dns);
      SetSameIter(v, r, FieldsOf(r), sendList);
    }

    lemma ServerOfActive(v: View, r: Resolver, active: map<Hnr, Request>)
      requires r in v && ActiveAgree(v, active, dns)
      ensures r.hnr in active && active[r.hnr] == RequestOf(r, v[r], dns)
    {
    }

    method PopEntry(r: Resolver)
      requires r in requests && sendList != [] && r == sendList[0]
      modifies r`sendIter, `sendList, `model
      ensures ViewOf(requests) == old(ViewOf(requests))[r := FieldsOf(r)]
      ensures FieldsOf(r) == old(FieldsOf(r)).(sendIter := None)
      ensures sendList == old(sendList)[1..]
      ensures model == if old(model).unsent == [] then old(model) else old(model).(unsent := old(model).unsent[1..])
    {
      r.sendIter := None;
      sendList := sendList[1..];
      model := if model.unsent == [] then model else model.(unsent := model.unsent[1..]);
    }

    /** The front request has been sent. */
    method PopSent(r: Resolver)
      requires Indexed() && r in requests && sendList != [] && r == sendList[0]
      modifies r`sendIter, `sendList, `model
      ensures Indexed() && sendList == old(sendList)[1..]
      ensures old(model).unsent != [] && old(model).unsent[0] == r.hnr
      ensures model == old(model).(unsent := old(model).unsent[1..])
      ensures old(Aligned()) ==> Aligned()
    {
      hide InMap, IdsAgree, SendsAgree, ActiveAgree, UnsentAgree, Owned, ViewOf, Pending;
      hide Spelled, FieldsOf, Timers.Refines, Timers.Epoch;
      ghost var v, e := ViewOf(requests), Timers.Epoch(lastPoll);
      FieldsAt(v, r);
      UnsentPop(sendList, model.unsent);
      PopEntry(r);
      AfterSet(v, r, e);
      SetActive(v, r, FieldsOf(r), resolversMap, model.active, dns);
      SameRequest(v, r, FieldsOf(r), model.active, dns);
      SetPopped(v, r, FieldsOf(r), old(sendList));
    }

    // ---------- a readable socket ----------

    /** The tail of a successful requeue: arm the socket if the request is alone in the list. */
    method ArmAndLog(h: Hnr, ghost before: State)
      requires Indexed() && Reaches(log, before) && h in before.active && h !in before.unsent
      requires before.active[h].rtype == TYPE_AAAA && before.calling.None?
      requires model == before.(active := before.active[h := before.active[h].(rtype := TYPE_A)],
                                unsent := before.unsent + [h])
      modifies `armed, `log, `model
      ensures Valid() && log == Then(old(log), Requeued(h, before.active[h])) && (old(armed) ==> armed)
    {
      hide InMap, IdsAgree, SendsAgree, ActiveAgree, Owned, ViewOf, Pending, Step;
      RequeueStep(before, h);
      if |sendList| == 1 {
        armed := true;
      }
      log := Then(log, Requeued(h, before.active[h]));
      model := model.(armed := before.armed || before.unsent == []);
    }

    /** The request becomes type A and joins the send list; queueing throws at push_back, or at arming the
        socket, which happens only when the request is alone in the list. */
    method QueueAgain(r: Resolver, fault: RequeueFault) returns (failed: bool)
      requires Indexed() && r in requests && r.hnr in model.active && r.sendIter == None
      modifies r`recordType, r`sendIter, `sendList, `model
      ensures Indexed() && (old(Aligned()) ==> Aligned())
      ensures failed <==> fault == AtPush || (fault == AtArm && old(sendList) == [])
      ensures var t := old(model).(active := old(model).active[r.hnr := old(model).active[r.hnr].(rtype := TYPE_A)]);
              model == if fault == AtPush then t else t.(unsent := t.unsent + [r.hnr])
    {
      hide Indexed, Aligned, FieldsOf;
      TurnToA(r);
      failed := fault == AtPush;
      if !failed {
        PushSend(r);
        failed := fault == AtArm && |sendList| == 1;
      }
    }

    /** A request without an AAAA record is asked for again as type A; if queueing throws, it ends in an error. */
    method Fallback(r: Resolver, fault: RequeueFault, script: seq<seq<UserOp>>) returns (rest: seq<seq<UserOp>>)
      requires Valid() && r in requests && r.hnr in resolversMap && resolversMap[r.hnr] == r && r.hnr in model.active
      requires model.active[r.hnr].rtype == TYPE_AAAA && r.hnr !in model.unsent && r.sendIter == None
      modifies r`recordType, r`sendIter, `armed
      modifies `resolversMap, `idMap, `resolversByTime1, `resolversByTime2, `sendList, `queue, `quitFlag
      modifies `requests, `model, `log, `deadlines
      ensures Valid() && fresh(requests - old(requests)) && (old(armed) ==> armed)
      ensures var req := old(model).active[r.hnr];
              if fault == AtPush || (fault == AtArm && old(sendList) == [])
              then CallbackRan(old(log), r.hnr, req, Error, NO_IP, Users(script, isExiting, dns), log)
              else log == Then(old(log), Requeued(r.hnr, req))
      ensures rest == script || rest == Later(script)
      ensures old(Aligned()) && (script != [] ==> InEpoch(script[0], Timers.Epoch(lastPoll))) ==> Aligned()
    {
      hide Indexed, Aligned, Timers.Epoch, InEpoch, Without, Drop, CallbackRan, Replay;
      ghost var before := model;
      DropRequeued(before, r.hnr);
      var failed := QueueAgain(r, fault);
      if failed {
        var x := RemoveResolver(r.hnr);
        rest := CallCallback(r, Error, NO_IP, script, before);
      } else {
        ArmAndLog(r.hnr, before);
        rest := script;
      }
    }

    lemma SameEmptiness()
      requires Indexed()
      ensures sendList == [] <==> model.unsent == []
    {
    }

    /** The parsed reply of an active request ends it, except that a missing AAAA record asks for A. */
    method OnReply(r: Resolver, o: ParseResult, fault: RequeueFault, script: seq<seq<UserOp>>)
      returns (rest: seq<seq<UserOp>>)
      requires Valid() && r in requests && r.hnr in resolversMap && resolversMap[r.hnr] == r && r.hnr in model.active
      requires model.active[r.hnr].rtype == r.recordType && (r.hnr in model.unsent <==> r.sendIter != None)
      requires !Premature(model, r.hnr, o) && WellTyped(model.active[r.hnr])
      modifies r`recordType, r`sendIter, `armed
      modifies `resolversMap, `idMap, `resolversByTime1, `resolversByTime2, `sendList, `queue, `quitFlag
      modifies `requests, `model, `log, `deadlines
      ensures Valid() && fresh(requests - old(requests)) && (old(armed) ==> armed)
      ensures ReplyEnds(old(model), r.hnr, o, fault, Users(script, isExiting, dns), old(log), log)
      ensures rest == script || rest == Later(script)
      ensures old(Aligned()) && (script != [] ==> InEpoch(script[0], Timers.Epoch(lastPoll))) ==> Aligned()
    {
      hide Indexed, Reaches, Aligned, InEpoch, CallbackRan, Timers.Epoch;
      SameEmptiness();
      if o.result == NotFound && r.recordType == TYPE_AAAA {
        rest := Fallback(r, fault, script);
      } else {
        rest := Complete(r.hnr, o.result, o.ip, script);
      }
    }

    lemma ActiveTyped()
      requires Valid()
      ensures forall h :: h in model.active ==> WellTyped(model.active[h])
    {
      RunInvariant(log);
    }

    /** A datagram of n bytes stands in the receive buffer. */
    method OnDatagram(buf: seq<byte>, n: nat, stray: AnswerResult, fault: RequeueFault, script: seq<seq<UserOp>>)
      returns (rest: seq<seq<UserOp>>, broken: bool)
      requires Valid() && |buf| == Wire.PACKET && n <= |buf|
      modifies requests`recordType, requests`sendIter, `armed
      modifies `resolversMap, `idMap, `resolversByTime1, `resolversByTime2, `sendList, `queue, `quitFlag
      modifies `requests, `model, `log, `deadlines
      ensures Valid() && fresh(requests - old(requests)) && (old(armed) ==> armed)
      ensures broken || (forall h :: !IsFor(old(model), h, buf, n)) ==>
                unchanged(this) && unchanged(old(requests)) && rest == script
      ensures Replied(old(model), buf, n, stray, fault, Users(script, isExiting, dns), broken, old(log), log)
      ensures broken ==> resolversMap != map[]
      ensures rest == script || rest == Later(script)
      ensures old(Aligned()) && (script != [] ==> InEpoch(script[0], Timers.Epoch(lastPoll))) ==> Aligned()
    {
      hide InMap, IdsAgree, SendsAgree, ActiveAgree, UnsentAgree, Owned, ViewOf, Pending, Step, Aligned, InEpoch;
      hide Wire.Decode, Wire.ParseReply, Wire.Get16, Replied, ReplyEnds;
      ghost var s, before, u := model, log, Users(script, isExiting, dns);
      NotReplied(s, buf, n, stray, fault, u, before);
      if n < 13 {
        return script, false;
      }
      var id := Wire.Get16(buf, 0);
      ghost var v := ViewOf(requests);
      IdOfActive(v, idMap, resolversMap, model, dns, id);
      if id !in idMap {
        return script, false;
      }
      var r := idMap[id];
      MemberOf(requests, r);
      FieldsAt(v, r);
      UnsentMember(v, resolversMap, sendList, model.unsent, r);
      ActiveTyped();
      var d := Wire.ParseHostName(buf, 12, |buf|);
      if d.host != r.hostName {
        return script, false;
      }
      assert IsFor(model, r.hnr, buf, n);
      var parsed := Wire.ParseReplyFromDNS(buf[..n], r.hostName, r.recordType);
      var o := Taken(parsed, stray);
      if o.result == NotFound && r.recordType == TYPE_AAAA && r.sendIter != None {
        rest, broken := script, true;
      } else {
        rest := OnReply(r, o, fault, script);
        broken := false;
      }
      RepliedTo(s, r.hnr, buf, n, stray, fault, u, broken, before, log);
    }

    // ---------- failure of the socket ----------

    lemma ActiveOf(h: Hnr)
      requires Indexed()
      ensures h in resolversMap <==> h in model.active
      ensures h in resolversMap ==> resolversMap[h] in requests && resolversMap[h].hnr == h
    {
      ActiveKeys(ViewOf(requests), resolversMap, model.active, dns);
      if h in resolversMap {
        OwnerOf(requests, resolversMap, h);
      }
    }

    lemma NoneOwned()
      requires Indexed() && resolversMap == map[]
      ensures requests == {}
    {
      assert forall r :: r in requests ==> r in ViewOf(requests);
    }

    lemma NoneActive()
      requires Valid() && resolversMap == map[]
      ensures Replay(log) == Some(model) && model.active == map[]
    {
      ActiveKeys(ViewOf(requests), resolversMap, model.active, dns);
    }

    /** Every request ends in an error, unless its user cancels it meanwhile. On an exiting thread callbacks add no
        request, so this ends. */
    method RemoveAllResolvers(script: seq<seq<UserOp>>)
      requires Valid() && isExiting
      modifies `resolversMap, `idMap, `resolversByTime1, `resolversByTime2, `sendList, `queue, `quitFlag
      modifies `requests, `model, `log, `deadlines
      ensures Valid() && resolversMap == map[] && requests == {}
      ensures FailDone(old(log), script, log)
    {
      hide Indexed, Stretch, Allowed, InEpoch, Aligned, Within, CallbackRan, FailDone, Replay;
      StretchSelf(log, FAILING);
      WithinSelf(log, script);
      ghost var start := log;
      var w := script;
      while resolversMap != map[]
        invariant Valid() && isExiting && requests <= old(requests)
        invariant Stretch(start, log, FAILING) && Within(start, script, log, w)
        invariant Admissions(log) == Admissions(start)
        decreases requests
      {
        var h :| h in resolversMap;
        ActiveOf(h);
        ghost var before, req, u := log, model.active[h], Users(w, isExiting, dns);
        ErrorAllowed(h, req);
        w := Complete(h, Error, NO_IP, w);
        CallbackStretch(before, h, req, Error, NO_IP, u, log, FAILING);
        CallbackCounts(before, h, req, Error, NO_IP, u, log);
        StretchTrans(start, before, log, FAILING);
        WithinTrans(start, script, before, u.script, log, w);
      }
      NoneOwned();
      NoneActive();
      WithinSelf(log, w);
      WithinTrans(start, script, log, w, log, w);
      FailCounts(start, script, log);
    }

    // ---------- a writable socket ----------

    lemma FrontOf()
      requires Indexed() && sendList != []
      ensures sendList[0] in requests && sendList[0].hnr in resolversMap && resolversMap[sendList[0].hnr] == sendList[0]
      ensures sendList[0].hnr in model.active
    {
      assert sendList[0] in sendList;
      FieldsAt(ViewOf(requests), sendList[0]);
      ActiveOf(sendList[0].hnr);
    }

    lemma QueryOf(r: Resolver)
      requires Valid() && r in requests && r.hnr in model.active
      ensures var req := model.active[r.hnr];
              req.id == r.id && req.name == r.hostName && req.rtype == r.recordType && |r.hostName| <= MAX_NAME
    {
      FieldsAt(ViewOf(requests), r);
      ServerOfActive(ViewOf(requests), r, model.active);
      RunInvariant(log);
    }

    ghost method LogSent(h: Hnr, packet: seq<byte>, dest: Ip, before: State)
      requires Indexed() && Reaches(log, before) && before.calling.None? && armed
      requires before.unsent != [] && before.unsent[0] == h && h in before.active && dest == before.active[h].server
      requires packet == Wire.Query(before.active[h].id, before.active[h].name, before.active[h].rtype)
      requires before.armed == armed && model == before.(unsent := before.unsent[1..])
      modifies `log
      ensures Valid() && log == Then(old(log), Sent(h, before.active[h], packet, dest))
    {
      hide Indexed, Step, Wire.Query;
      SentStep(before, h, packet, dest);
      log := Then(log, Sent(h, before.active[h], packet, dest));
    }

    /** The front request's query goes out, to the server the request asks for. */
    method SendFront(r: Resolver) returns (packet: seq<byte>)
      requires Valid() && armed && sendList != [] && r == sendList[0] && r in requests
      requires r.hnr in model.active && r.dns == model.active[r.hnr].server
      modifies r`sendIter, `sendList, `model, `log
      ensures Valid() && sendList == old(sendList)[1..] && r.hnr in old(model).active
      ensures log == Then(old(log), Sent(r.hnr, old(model).active[r.hnr], packet, r.dns))
      ensures old(Aligned()) ==> Aligned()
    {
      hide Owned, InMap, IdsAgree, SendsAgree, ActiveAgree, UnsentAgree, ViewOf, Pending, Aligned, Step, Wire.Query;
      ghost var before := model;
      FrontOf();
      QueryOf(r);
      var buf, n := Wire.FillQuery(r.id, r.hostName, r.recordType);
      packet := buf[..n];
      PopSent(r);
      LogSent(r.hnr, packet, r.dns, before);
    }

    method Disarm()
      requires Valid() && sendList == []
      modifies `armed, `model, `log
      ensures Valid() && !armed && log == Then(old(log), Disarmed)
    {
      hide Owned, InMap, IdsAgree, SendsAgree, ActiveAgree, ViewOf, Pending;
      armed := false;
      log, model := Then(log, Disarmed), model.(armed := false);
    }

    /** The front request of the send list: sent, or ended in an error when no server is known. The loop
        body of the writer, once the socket is known to accept. */
    method ServeFront(r: Resolver, script: seq<seq<UserOp>>) returns (rest: seq<seq<UserOp>>, sent: nat)
      requires Valid() && armed && sendList != [] && r == sendList[0] && r in requests
      requires r.hnr in resolversMap && resolversMap[r.hnr] == r && r.hnr in model.active
      requires r.dns == model.active[r.hnr].server
      modifies r`sendIter
      modifies `resolversMap, `idMap, `resolversByTime1, `resolversByTime2, `sendList, `queue, `quitFlag
      modifies `requests, `model, `log, `deadlines
      ensures Valid() && fresh(requests - old(requests))
      ensures sent == if r.dns.IsValid() then 1 else 0
      ensures Stretch(old(log), log, SENDING) && TotalSent(log) == TotalSent(old(log)) + sent
      ensures Within(old(log), script, log, rest)
      ensures sent == 1 ==> rest == script && requests == old(requests) && |sendList| < |old(sendList)|
      ensures sent == 1 ==>
                log.Then? && log.before == old(log) && log.e.Sent? && log.e.h == r.hnr && log.e.dest == r.dns
      ensures sent == 0 ==>
                && rest == Later(script)
                && var u := Users(script, isExiting, dns);
                   CallbackRan(old(log), r.hnr, old(model).active[r.hnr], Error, V4(0), u, log)
      ensures sent == 0 && script == [] ==> requests < old(requests)
      ensures old(Aligned()) && (sent == 0 && script != [] ==> InEpoch(script[0], Timers.Epoch(lastPoll))) ==> Aligned()
    {
      hide Indexed, Reaches, Stretch, Allowed, InEpoch, Aligned, Timers.Epoch, Wire.Query, TotalSent, CallbackRan;
      ghost var before, req := log, model.active[r.hnr];
      if r.dns.IsValid() {
        var packet := SendFront(r);
        SentStretch(before, script, Sent(r.hnr, req, packet, r.dns));
        rest, sent := script, 1;
      } else {
        ErrorAllowed(r.hnr, req);
        rest := Complete(r.hnr, Error, V4(0), script);
        sent := 0;
        ghost var u := Users(script, isExiting, dns);
        CallbackStretch(before, r.hnr, req, Error, V4(0), u, log, SENDING);
        CallbackCounts(before, r.hnr, req, Error, V4(0), u, log);
      }
    }

    /** The windows of a script are all in one clock epoch. */
    static predicate AllInEpoch(script: seq<seq<UserOp>>, e: nat) {
      forall i :: 0 <= i < |script| ==> InEpoch(script[i], e)
    }

    /** The send loop: queries go out in queue order until the list is empty or the socket refuses, which it
        does (by returning or by throwing) after capacity more packets. */
    method SendAll(capacity: nat, script: seq<seq<UserOp>>)
      requires Valid() && armed
      modifies requests`sendIter, requests`dns
      modifies `resolversMap, `idMap, `resolversByTime1, `resolversByTime2, `sendList, `queue, `quitFlag
      modifies `requests, `model, `log, `deadlines
      ensures Valid() && fresh(requests - old(requests))
      ensures Stretch(old(log), log, SENDING) && Within(old(log), script, log, [])
      ensures TotalSent(log) <= TotalSent(old(log)) + capacity
      ensures sendList != [] ==> TotalSent(log) == TotalSent(old(log)) + capacity
      ensures old(Aligned()) && AllInEpoch(script, Timers.Epoch(lastPoll)) ==> Aligned()
    {
      hide Indexed, Reaches, Stretch, Allowed, InEpoch, Aligned, Timers.Epoch, Wire.Query, TotalSent, CallbackRan;
      hide Within;
      var rest, sent := script, 0;
      ghost var start, calm := log, Aligned() && AllInEpoch(script, Timers.Epoch(lastPoll));
      StretchSelf(log, SENDING);
      WithinSelf(log, script);
      while sendList != []
        invariant Valid() && armed && fresh(requests - old(requests))
        invariant Stretch(start, log, SENDING) && Within(start, script, log, rest) && Within(start, script, log, [])
        invariant 0 <= sent <= capacity && TotalSent(log) == TotalSent(old(log)) + sent
        invariant calm ==> Aligned() && AllInEpoch(rest, Timers.Epoch(lastPoll))
        decreases |rest|, requests, |sendList|
      {
        var r := sendList[0];
        ghost var before, left := log, rest;
        FrontOf();
        ChooseServer(r);
        if r.dns.IsValid() && sent == capacity {
          break;
        }
        var more;
        rest, more := ServeFront(r, rest);
        sent := sent + more;
        StretchTrans(start, before, log, SENDING);
        WithinTrans(start, script, before, left, log, rest);
      }
    }

    // ---------- the timers ----------

    /** The head of a deadline map is an active request that knows its place. */
    lemma HeadOf(which: MapId)
      requires Indexed() && MapAt(which).Node?
      ensures var r := MapAt(which).who;
              && r in requests && r.hnr in resolversMap && resolversMap[r.hnr] == r && r.hnr in model.active
              && r.timeMap == which && r.timeMapIter == MapAt(which).key
              && model.active[r.hnr].due == r.due && model.active[r.hnr].serial == r.serial
    {
      hide Timers.Has, Timers.Sorted, Timers.Below, Timers.Once;
      var m, v := MapAt(which), ViewOf(requests);
      assert m.who in Timers.Members(m);
      FieldsAt(v, m.who);
      Timers.OnceKey(m, v[m.who].timeMapIter);
      ActiveOf(m.who.hnr);
      ServerOfActive(v, m.who, model.active);
    }

    /** While the maps are exact, the head's true deadline is its key in the epoch of the last poll. */
    lemma HeadDue()
      requires Indexed() && Aligned() && MapAt(timeMap1).Node?
      ensures var r := MapAt(timeMap1).who; r.due == MapAt(timeMap1).key + Timers.Epoch(lastPoll) * Timers.WRAP
    {
      hide Timers.Refines, Timers.Epoch;
      HeadOf(timeMap1);
      FieldsAt(ViewOf(requests), MapAt(timeMap1).who);
    }

    /** And it is the head of the unbounded queue. */
    lemma HeadOfQueue()
      requires Indexed() && Aligned() && MapAt(timeMap1).Node?
      ensures var r := MapAt(timeMap1).who;
              deadlines.Node? && deadlines.key == r.due && deadlines.who == r
              && Timers.Erase(deadlines, r.due, r) == deadlines.next
    {
      hide Timers.Refines, Timers.Erase, Indexed, Spelled;
      HeadDue();
      Timers.HeadRefines(Wheel(), deadlines, Timers.Epoch(lastPoll));
    }

    lemma CurrentBelow()
      requires Indexed() && MapAt(timeMap1).Node?
      ensures MapAt(timeMap1).key < Timers.WRAP
    {
    }

    /** Ends the request at the head of timeMap1 by timeout. */
    method TimeOutHead(script: seq<seq<UserOp>>, ghost now: nat) returns (rest: seq<seq<UserOp>>)
      requires Valid() && MapAt(timeMap1).Node?
      modifies `resolversMap, `idMap, `resolversByTime1, `resolversByTime2, `sendList, `queue, `quitFlag
      modifies `requests, `model, `log, `deadlines
      ensures Valid() && fresh(requests - old(requests))
      ensures rest == Later(script)
      ensures script == [] ==> requests < old(requests)
      ensures Within(old(log), script, log, rest)
      ensures var r := old(MapAt(timeMap1).who);
              r.hnr in old(model).active
              && var u := Users(script, isExiting, dns);
                 CallbackRan(old(log), r.hnr, old(model).active[r.hnr], Timeout, V4(0), u, log)
      ensures old(MapAt(timeMap1).who.due) <= now ==> Stretch(old(log), log, Timing(now))
      ensures script == [] && old(Aligned()) && old(MapAt(timeMap1).who.due) <= now ==>
                ServedInOrder(old(log), old(deadlines), log, deadlines, now)
      ensures old(Aligned()) && (script != [] ==> InEpoch(script[0], Timers.Epoch(lastPoll))) ==> Aligned()
    {
      hide Indexed, Reaches, Stretch, Allowed, InEpoch, Aligned, Timers.Epoch, MapAt, ServedInOrder, Timers.Erase;
      hide CallbackRan, Within;
      var r := MapAt(timeMap1).who;
      HeadOf(timeMap1);
      ghost var before, req, queue0, exact := log, model.active[r.hnr], deadlines, Aligned();
      if exact {
        HeadOfQueue();
      }
      rest := Complete(r.hnr, Timeout, V4(0), script);
      ghost var u := Users(script, isExiting, dns);
      CallbackCounts(before, r.hnr, req, Timeout, V4(0), u, log);
      if r.due <= now {
        TimeoutAllowed(r.hnr, req, now);
        CallbackStretch(before, r.hnr, req, Timeout, V4(0), u, log, Timing(now));
        if exact {
          HeadServed(before, queue0, now, r.hnr, req, Timeout, V4(0));
        }
      }
    }

    /** A clock wrap was seen: everyone in timeMap1 times out. */
    method DrainCurrent(script: seq<seq<UserOp>>, ghost now: nat)
      requires Valid()
      modifies `resolversMap, `idMap, `resolversByTime1, `resolversByTime2, `sendList, `queue, `quitFlag
      modifies `requests, `model, `log, `deadlines
      ensures Valid() && fresh(requests - old(requests)) && MapAt(timeMap1).Nil?
      ensures Within(old(log), script, log, [])
      ensures old(Aligned()) && AllInEpoch(script, Timers.Epoch(lastPoll))
              && (Timers.Epoch(lastPoll) + 1) * Timers.WRAP <= now ==>
                && Aligned() && Stretch(old(log), log, Timing(now))
                && (script == [] ==> ServedInOrder(old(log), old(deadlines), log, deadlines, now))
    {
      hide Indexed, Reaches, Stretch, Allowed, InEpoch, Aligned, Timers.Epoch, MapAt, Timers.Due, Timers.After;
      hide CallbackRan, Within;
      ghost var k := Timing(now);
      ghost var timely := Aligned() && AllInEpoch(script, Timers.Epoch(lastPoll))
                          && (Timers.Epoch(lastPoll) + 1) * Timers.WRAP <= now;
      StretchSelf(log, k);
      WithinSelf(log, script);
      var rest := script;
      while MapAt(timeMap1).Node?
        invariant Valid() && fresh(requests - old(requests)) && (script == [] ==> rest == [])
        invariant Within(old(log), script, log, rest) && Within(old(log), script, log, [])
        invariant timely ==> Aligned() && AllInEpoch(rest, Timers.Epoch(lastPoll)) && Stretch(old(log), log, k)
        invariant timely && script == [] ==> ServedInOrder(old(log), old(deadlines), log, deadlines, now)
        decreases |rest|, requests
      {
        ghost var before, left := log, rest;
        if timely {
          HeadDue();
          CurrentBelow();
        }
        rest := TimeOutHead(rest, now);
        WithinTrans(old(log), script, before, left, log, rest);
        if timely {
          StretchTrans(old(log), before, log, k);
        }
      }
    }

    /** Everyone at the head of timeMap1 whose key has come times out. */
    method TimeOutDue(cur: uint32, script: seq<seq<UserOp>>, ghost now: nat)
      requires Valid() && cur == Timers.Ticks(now)
      modifies `resolversMap, `idMap, `resolversByTime1, `resolversByTime2, `sendList, `queue, `quitFlag
      modifies `requests, `model, `log, `deadlines
      ensures Valid() && fresh(requests - old(requests)) && Within(old(log), script, log, [])
      ensures MapAt(timeMap1).Node? ==> MapAt(timeMap1).key > cur
      ensures old(Aligned()) && AllInEpoch(script, Timers.Epoch(lastPoll))
              && Timers.Epoch(now) == Timers.Epoch(lastPoll) ==>
                && Aligned() && Stretch(old(log), log, Timing(now))
                && Timers.AtLeast(deadlines, now + 1)
                && (script == [] ==> ServedInOrder(old(log), old(deadlines), log, deadlines, now))
    {
      hide Indexed, Reaches, Stretch, Allowed, InEpoch, Aligned, Timers.Epoch, Timers.Ticks, MapAt;
      hide Timers.Due, Timers.After, Timers.AtLeast, CallbackRan, Within;
      ghost var k := Timing(now);
      ghost var timely := Aligned() && AllInEpoch(script, Timers.Epoch(lastPoll))
                          && Timers.Epoch(now) == Timers.Epoch(lastPoll);
      StretchSelf(log, k);
      WithinSelf(log, script);
      Timers.SplitTime(now);
      var rest := script;
      while MapAt(timeMap1).Node?
        invariant Valid() && fresh(requests - old(requests)) && (script == [] ==> rest == [])
        invariant Within(old(log), script, log, rest) && Within(old(log), script, log, [])
        invariant timely ==> Aligned() && AllInEpoch(rest, Timers.Epoch(lastPoll)) && Stretch(old(log), log, k)
        invariant timely && script == [] ==> ServedInOrder(old(log), old(deadlines), log, deadlines, now)
        decreases |rest|, requests
      {
        if MapAt(timeMap1).key > cur {
          break;
        }
        ghost var before, left := log, rest;
        if timely {
          HeadDue();
        }
        rest := TimeOutHead(rest, now);
        WithinTrans(old(log), script, before, left, log, rest);
        if timely {
          StretchTrans(old(log), before, log, k);
        }
      }
      if timely {
        AllLater(now);
      }
    }

    /** Once the head of timeMap1 lies after now, so do all deadlines. */
    lemma AllLater(now: nat)
      requires Aligned() && Timers.Epoch(now) == Timers.Epoch(lastPoll)
      requires MapAt(timeMap1).Node? ==> MapAt(timeMap1).key > Timers.Ticks(now)
      ensures Timers.AtLeast(deadlines, now + 1)
    {
      hide Timers.Refines, Timers.Epoch, Timers.Ticks;
      Timers.SplitTime(now);
      Timers.AllLater(Wheel(), deadlines, Timers.Epoch(now), now);
    }

    /** The unbounded queue holds every active request at its true deadline, and nothing else. */
    lemma DeadlinesAre(key: nat, r: Resolver)
      requires Indexed() && Aligned()
      ensures Timers.Has(deadlines, key, r) <==> r in requests && key == r.due
    {
      hide Timers.Sorted, Timers.Below, Timers.Once, Timers.Members, Timers.Has, Timers.Epoch;
      var e, v := Timers.Epoch(lastPoll), ViewOf(requests);
      var a, b := MapAt(timeMap1), MapAt(timeMap2);
      Timers.HasConcat(Timers.Lift(a, e), Timers.Lift(b, e + 1), key, r);
      Timers.HasLift(a, key, r, e);
      Timers.HasLift(b, key, r, e + 1);
      if key >= e * Timers.WRAP {
        Placed(a, timeMap1, key - e * Timers.WRAP, r);
      }
      if key >= (e + 1) * Timers.WRAP {
        Placed(b, timeMap2, key - (e + 1) * Timers.WRAP, r);
      }
      if r in requests {
        MemberOf(requests, r);
      }
    }

    /** A node of a deadline map is a request that says so. */
    lemma Placed(m: Timers.Queue<Resolver>, which: MapId, key: nat, r: Resolver)
      requires InMap(ViewOf(requests), m, which)
      ensures Timers.Has(m, key, r) <==> r in requests && r.timeMap == which && r.timeMapIter == key
    {
      hide Timers.Sorted, Timers.Below, Timers.Once, Timers.Members, Timers.Has;
      MemberOf(requests, r);
      if Timers.Has(m, key, r) {
        Timers.HasMember(m, key, r);
        Timers.OnceHas(m, key, r.timeMapIter, r);
      }
    }

    /** A bound on the queue is a bound on the deadlines of all active requests. */
    lemma EarliestDue(low: nat)
      requires Indexed() && Aligned()
      ensures Timers.AtLeast(deadlines, low) <==> forall r :: r in requests ==> low <= r.due
    {
      hide Indexed, Aligned, Timers.AtLeast, Timers.Has;
      if Timers.AtLeast(deadlines, low) {
        forall r | r in requests
          ensures low <= r.due
        {
          DeadlinesAre(r.due, r);
          Timers.HasAtLeast(deadlines, r.due, r, low);
        }
      } else {
        var key, r := Timers.Earlier(deadlines, low);
        DeadlinesAre(key, r);
      }
    }

    lemma SwapSpelled()
      requires Indexed() && Aligned() && MapAt(timeMap1).Nil?
      ensures Spelled(ViewOf(requests), timeMap2, Timers.Epoch(lastPoll) + 1)
    {
      hide Timers.Refines, Timers.Epoch, Timers.Sorted, Timers.Below, Timers.Once;
      var v := ViewOf(requests);
      forall r | r in v
        ensures v[r].timeMap == timeMap2
      {
        assert v[r].timeMap == timeMap1 ==> Timers.Has(MapAt(timeMap1), v[r].timeMapIter, r);
      }
    }

    /** The map of the next clock epoch becomes the current one, and the drained map takes its place. */
    method SwapMaps(ghost now: nat)
      requires Valid() && MapAt(timeMap1).Nil?
      modifies `timeMap1, `timeMap2, `lastPoll
      ensures Valid() && lastPoll == now
      ensures old(Aligned()) && Timers.Epoch(now) == Timers.Epoch(old(lastPoll)) + 1 ==> Aligned()
    {
      hide InMap, IdsAgree, SendsAgree, ActiveAgree, UnsentAgree, Owned, ViewOf, Pending;
      hide Spelled, Timers.Refines, Timers.Epoch;
      if Aligned() {
        SwapSpelled();
        Timers.SwapRefines(Wheel(), deadlines, Timers.Epoch(lastPoll));
      }
      timeMap1, timeMap2 := timeMap2, timeMap1;
      lastPoll := now;
    }

    ghost method StayInEpoch(now: nat)
      requires Valid()
      modifies `lastPoll
      ensures Valid() && lastPoll == now
      ensures old(Aligned()) && Timers.Epoch(now) == Timers.Epoch(old(lastPoll)) ==> Aligned()
    {
      hide Indexed, Timers.Refines, Timers.Epoch, Spelled, ViewOf;
      lastPoll := now;
    }

    /** The wrap test, and what follows a wrap. */
    method SwapIfWrapped(clock: nat, script: seq<seq<UserOp>>)
      requires Valid()
      modifies `resolversMap, `idMap, `resolversByTime1, `resolversByTime2, `sendList, `queue, `quitFlag
      modifies `requests, `model, `log, `deadlines, `timeMap1, `timeMap2, `lastPoll, `lastTicksInFirstHalf
      ensures Valid() && fresh(requests - old(requests)) && lastPoll == clock
      ensures lastTicksInFirstHalf == Timers.FirstHalf(Timers.Ticks(clock)) && Within(old(log), script, log, [])
      ensures old(Exact()) && old(lastPoll) <= clock <= old(lastPoll) + Timers.HALF
              && AllInEpoch(script, Timers.Epoch(old(lastPoll))) ==>
                && Aligned() && Stretch(old(log), log, Timing(clock))
                && (script == [] ==> ServedInOrder(old(log), old(deadlines), log, deadlines, clock))
    {
      hide Indexed, Reaches, Stretch, Aligned, Timers.Epoch, Timers.Ticks, Timers.FirstHalf, MapAt, AllInEpoch;
      hide Timers.Due, Timers.After, Within;
      var isFirstHalf := Timers.FirstHalf(Timers.Ticks(clock));
      if Exact() && lastPoll <= clock <= lastPoll + Timers.HALF {
        Timers.WrapExact(lastPoll, clock);
        Timers.SplitTime(clock);
      }
      if isFirstHalf && !lastTicksInFirstHalf {
        DrainCurrent(script, clock);
        SwapMaps(clock);
      } else {
        StretchSelf(log, Timing(clock));
        WithinSelf(log, script);
        StayInEpoch(clock);
      }
      lastTicksInFirstHalf := isFirstHalf;
    }

    /** What Timers says of a poll of the two maps. */
    lemma PollOf(now: nat)
      requires Aligned() && lastPoll <= now <= lastPoll + Timers.HALF
      ensures var wrapped := Timers.WrapSeen(lastPoll, now);
              && Timers.PollDue(Wheel(), wrapped, Timers.Ticks(now)) == Timers.Due(deadlines, now)
              && Timers.Refines(Timers.PollAfter(Wheel(), wrapped, Timers.Ticks(now)), Timers.After(deadlines, now),
                                Timers.Epoch(now))
    {
      hide Timers.Refines, Timers.PollDue, Timers.PollAfter, Spelled, ViewOf;
      Timers.PollRefines(Wheel(), deadlines, lastPoll, now);
    }

    lemma WheelIs(w: Timers.Wheel<Resolver>)
      requires Aligned() && Timers.Refines(w, deadlines, Timers.Epoch(lastPoll))
      ensures Wheel() == w
    {
      hide Timers.Refines, Spelled, ViewOf;
      Timers.RefinesOnce(Wheel(), w, deadlines, Timers.Epoch(lastPoll));
    }

    /** The timer part of one turn: the wrap test, the swap, and the requests that are due. When user threads keep
        still, it is one poll of the two maps as Timers defines it, with the callbacks in the order of the deadlines. */
    method OnTimers(clock: nat, scripts: Scripts)
      requires Valid()
      modifies `resolversMap, `idMap, `resolversByTime1, `resolversByTime2, `sendList, `queue, `quitFlag
      modifies `requests, `model, `log, `deadlines, `timeMap1, `timeMap2, `lastPoll, `lastTicksInFirstHalf
      ensures Valid() && fresh(requests - old(requests)) && lastPoll == clock
      ensures MapAt(timeMap1).Node? ==> MapAt(timeMap1).key > Timers.Ticks(clock)
      ensures Within(old(log), scripts.drain + scripts.due, log, [])
      ensures old(Exact()) && old(lastPoll) <= clock <= old(lastPoll) + Timers.HALF
              && AllInEpoch(scripts.drain, Timers.Epoch(old(lastPoll)))
              && AllInEpoch(scripts.due, Timers.Epoch(clock)) ==>
                && Exact() && Stretch(old(log), log, Timing(clock))
                && (forall r :: r in requests ==> r.due > clock)
                && (scripts.drain == [] && scripts.due == [] ==>
                      var wrapped := Timers.WrapSeen(old(lastPoll), clock);
                      var served := Serials(Timers.PollDue(old(Wheel()), wrapped, Timers.Ticks(clock)));
                      && CallbackOrder(log) == CallbackOrder(old(log)) + served
                      && Wheel() == Timers.PollAfter(old(Wheel()), wrapped, Timers.Ticks(clock)))
    {
      hide Indexed, Reaches, Stretch, Aligned, Timers.Epoch, Timers.Ticks, Timers.FirstHalf, MapAt, AllInEpoch;
      hide Within, ServedInOrder, Timers.AtLeast, Timers.PollDue, Timers.PollAfter, Timers.WrapSeen, Serials;
      ghost var k, last, queue0, log0 := Timing(clock), lastPoll, deadlines, log;
      ghost var timely := Exact() && lastPoll <= clock <= lastPoll + Timers.HALF
                          && AllInEpoch(scripts.drain, Timers.Epoch(lastPoll))
                          && AllInEpoch(scripts.due, Timers.Epoch(clock));
      if timely {
        PollOf(clock);
      }
      SwapIfWrapped(clock, scripts.drain);
      ghost var middle, queue1 := log, deadlines;
      TimeOutDue(Timers.Ticks(clock), scripts.due, clock);
      WithinBoth(log0, scripts.drain, middle, scripts.due, log);
      if timely {
        StretchTrans(log0, middle, log, k);
        EarliestDue(clock + 1);
        if scripts.drain == [] && scripts.due == [] {
          ServedTrans(log0, queue0, middle, queue1, log, deadlines, clock);
          AllServed(log0, queue0, log, deadlines, clock);
          WheelIs(Timers.PollAfter(old(Wheel()), Timers.WrapSeen(last, clock), Timers.Ticks(clock)));
        }
      }
    }

    // ---------- one turn of run ----------

    method Fail(script: seq<seq<UserOp>>)
      requires Valid()
      modifies `resolversMap, `idMap, `resolversByTime1, `resolversByTime2, `sendList, `queue, `quitFlag
      modifies `requests, `model, `log, `deadlines, `isExiting
      ensures Valid() && resolversMap == map[] && requests == {} && isExiting
      ensures FailDone(old(log), script, log)
    {
      hide FailDone;
      isExiting := true;
      RemoveAllResolvers(script);
    }

    /** What the read phase of a turn adds to the log. */
    static ghost predicate ReadDone(s: State, system: Ip, read: Readable, scripts: Scripts, broken: bool, before: Log,
                                    after: Log)
      requires Sized(read)
    {
      match read
      case NotReadable => after == before && !broken
      case Datagram(buf, n, stray, fault) =>
        Replied(s, buf, n, stray, fault, Users(scripts.read, false, system), broken, before, after)
      case ReceiveThrows => FailDone(before, scripts.exit, after) && !broken
    }

    /** The log leads to a state with nothing left to send. */
    static ghost predicate Emptied(log: Log) {
      Replay(log).Some? && Replay(log).value.unsent == []
    }

    /** The socket throws while something is left to send. */
    static ghost predicate WriteFails(write: Writable, sent: Log) {
      write.SendThrowsAfter? && !Emptied(sent)
    }

    /** What the write phase adds: queries in queue order, as many as the socket takes or else all there are, up to the
        log sent; then the socket is disarmed if nothing is left, or every request ends in an error if it throws. */
    static ghost predicate WriteDone(write: Writable, scripts: Scripts, before: Log, sent: Log, after: Log) {
      if write.NotWritable? then sent == before && after == before
      else
        && Stretch(before, sent, SENDING) && Within(before, scripts.write, sent, [])
        && TotalSent(sent) <= TotalSent(before) + write.packets
        && (TotalSent(sent) < TotalSent(before) + write.packets ==> Emptied(sent))
        && if Emptied(sent) then after == Then(sent, Disarmed)
           else if write.SendThrowsAfter? then FailDone(sent, scripts.exit, after)
           else after == sent
    }

    lemma EmptiedNow()
      requires Valid()
      ensures Emptied(log) <==> sendList == []
    {
    }

    method ReadPhase(read: Readable, scripts: Scripts) returns (dead: bool, broken: bool)
      requires Valid() && !isExiting
      requires Sized(read)
      modifies requests`recordType, requests`sendIter, `armed
      modifies `resolversMap, `idMap, `resolversByTime1, `resolversByTime2, `sendList, `queue, `quitFlag
      modifies `requests, `model, `log, `deadlines, `isExiting
      ensures Valid() && fresh(requests - old(requests)) && (old(armed) ==> armed)
      ensures dead <==> read.ReceiveThrows?
      ensures if dead then isExiting && resolversMap == map[] else isExiting == old(isExiting)
      ensures ReadDone(old(model), dns, read, scripts, broken, old(log), log)
      ensures broken ==> resolversMap != map[] && unchanged(this) && unchanged(old(requests))
      ensures !dead && old(Aligned()) && AllInEpoch(scripts.read, Timers.Epoch(lastPoll)) ==> Aligned()
    {
      hide Indexed, Reaches, Aligned, Timers.Epoch, InEpoch, Replied, FailDone;
      dead, broken := false, false;
      match read {
        case NotReadable =>
        case Datagram(buf, n, stray, fault) =>
          var _, b := OnDatagram(buf, n, stray, fault, scripts.read);
          broken := b;
        case ReceiveThrows =>
          Fail(scripts.exit);
          dead := true;
      }
    }

    /** idle: the assertion that there is something to send fails. */
    method WritePhase(write: Writable, scripts: Scripts) returns (dead: bool, idle: bool, ghost sent: Log)
      requires Valid() && (write.NotWritable? || armed)
      modifies requests`sendIter, requests`dns, `armed
      modifies `resolversMap, `idMap, `resolversByTime1, `resolversByTime2, `sendList, `queue, `quitFlag
      modifies `requests, `model, `log, `deadlines, `isExiting
      ensures Valid() && fresh(requests - old(requests))
      ensures if dead then isExiting && resolversMap == map[] else isExiting == old(isExiting)
      ensures !dead && !write.NotWritable? ==> (armed <==> sendList != [])
      ensures dead <==> WriteFails(write, sent)
      ensures idle <==> !write.NotWritable? && Emptied(old(log))
      ensures WriteDone(write, scripts, old(log), sent, log)
      ensures !dead && old(Aligned()) && AllInEpoch(scripts.write, Timers.Epoch(lastPoll)) ==> Aligned()
    {
      hide Indexed, Reaches, Stretch, Aligned, Timers.Epoch, AllInEpoch, TotalSent, Emptied, FailDone, Within;
      dead, idle, sent := false, false, log;
      if write.NotWritable? {
        return;
      }
      EmptiedNow();
      idle := sendList == [];
      SendAll(write.packets, scripts.write);
      sent := log;
      EmptiedNow();
      if sendList == [] {
        Disarm();
      } else if write.SendThrowsAfter? {
        Fail(scripts.exit);
        dead := true;
      }
    }

    /** What exact timers say about the end of a turn. */
    lemma TurnEnds(now: nat)
      requires Valid() && Exact() && lastPoll == now && forall r :: r in requests ==> r.due > now
      ensures MapAt(timeMap1).Nil? <==> forall r :: r in requests ==> r.due >= (Timers.Epoch(now) + 1) * Timers.WRAP
      ensures MapAt(timeMap1).Node? ==>
                MapAt(timeMap1).key > Timers.Ticks(now)
                && var ms := Timers.Sleep(MapAt(timeMap1).key, Timers.Ticks(now));
                && 0 < ms <= 0x3fff_ffff && (forall r :: r in requests ==> now + ms <= r.due)
                && (ms == 0x3fff_ffff || exists r :: r in requests && now + ms == r.due)
    {
      hide Indexed, Aligned, Timers.Epoch, Timers.Ticks, Timers.AtLeast, Timers.Refines;
      Refining();
      EarliestDue(now + 1);
      EarliestDue((Timers.Epoch(now) + 1) * Timers.WRAP);
      Timers.CurrentEmpty(Wheel(), deadlines, Timers.Epoch(now));
      if MapAt(timeMap1).Node? {
        Timers.SleepInTime(Wheel(), deadlines, now);
        EarliestDue(now + Timers.Sleep(MapAt(timeMap1).key, Timers.Ticks(now)));
        Timers.SleepExactly(MapAt(timeMap1).key, Timers.Ticks(now));
        Timers.SplitTime(now);
        HeadOf(timeMap1);
        HeadDue();
        assert MapAt(timeMap1).who in requests;
      }
    }

    lemma Refining()
      requires Aligned()
      ensures Timers.Refines(Wheel(), deadlines, Timers.Epoch(lastPoll))
    {
    }

    /** The hypotheses under which a turn is exact about true deadlines: polls close together, and resolve called
        in the clock epoch of the last poll. */
    static predicate Calm(last: nat, clock: nat, scripts: Scripts) {
      && last <= clock <= last + Timers.HALF
      && AllInEpoch(scripts.read + scripts.write + scripts.drain, Timers.Epoch(last))
      && AllInEpoch(scripts.due, Timers.Epoch(clock))
    }

    /** The timers are exact after a poll: no deadline has passed, timeMap1 is empty iff all lie past the next wrap of
        the clock, and otherwise the sleep is positive and ends at the earliest, unless it is the longest allowed. */
    ghost predicate Punctual(out: Outcome, clock: nat)
      reads `resolversByTime1, `resolversByTime2, `timeMap1, `timeMap2, `deadlines, `lastPoll, `requests, requests
      reads `lastTicksInFirstHalf
    {
      && Exact()
      && (forall r :: r in requests ==> r.due > clock)
      && (out.NoDeadline? <==> forall r :: r in requests ==> r.due >= (Timers.Epoch(clock) + 1) * Timers.WRAP)
      && (out.Sleeps? ==>
            && 0 < out.ms <= 0x3fff_ffff && (forall r :: r in requests ==> clock + out.ms <= r.due)
            && (out.ms == 0x3fff_ffff || exists r :: r in requests && clock + out.ms == r.due))
    }

    lemma PunctualAfter(out: Outcome, now: nat)
      requires Valid() && Exact() && lastPoll == now && (forall r :: r in requests ==> r.due > now)
      requires if MapAt(timeMap1).Nil? then out == NoDeadline
               else MapAt(timeMap1).key > Timers.Ticks(now)
                    && out == Sleeps(Timers.Sleep(MapAt(timeMap1).key, Timers.Ticks(now)))
      ensures Punctual(out, now)
    {
      hide Consistent, Exact, MapAt;
      TurnEnds(now);
    }

    /** The rest of a turn: the timers, the exit when nothing is left, and the sleep. */
    method TimerPhase(clock: nat, scripts: Scripts) returns (out: Outcome)
      requires Valid() && !isExiting
      modifies `resolversMap, `idMap, `resolversByTime1, `resolversByTime2, `sendList, `queue, `quitFlag
      modifies `requests, `model, `log, `deadlines, `timeMap1, `timeMap2, `lastPoll, `lastTicksInFirstHalf, `isExiting
      ensures Valid() && fresh(requests - old(requests)) && lastPoll == clock && !out.RepliedUnsent?
      ensures Within(old(log), scripts.drain + scripts.due, log, [])
      ensures (out.Exits? <==> isExiting) && (out.Exits? <==> resolversMap == map[])
      ensures out.NoDeadline? ==> MapAt(timeMap1).Nil?
      ensures out.Sleeps? ==>
                && MapAt(timeMap1).Node? && MapAt(timeMap1).key > Timers.Ticks(clock)
                && out.ms == Timers.Sleep(MapAt(timeMap1).key, Timers.Ticks(clock))
      ensures old(Exact()) && old(lastPoll) <= clock <= old(lastPoll) + Timers.HALF
              && AllInEpoch(scripts.drain, Timers.Epoch(old(lastPoll)))
              && AllInEpoch(scripts.due, Timers.Epoch(clock)) ==>
                && Exact() && Stretch(old(log), log, Timing(clock))
                && (!out.Exits? ==> Punctual(out, clock))
    {
      hide Consistent, Aligned, Stretch, Timers.Epoch, Timers.Ticks, AllInEpoch, MapAt, Punctual, CallbackOrder;
      hide Timers.PollAfter, Timers.PollDue, Timers.Sleep, Within;
      ghost var last, exact := lastPoll, Exact();
      OnTimers(clock, scripts);
      if resolversMap == map[] {
        isExiting := true;
        return Exits;
      }
      out := if MapAt(timeMap1).Nil? then NoDeadline
             else Sleeps(Timers.Sleep(MapAt(timeMap1).key, Timers.Ticks(clock)));
      if exact && last <= clock <= last + Timers.HALF && AllInEpoch(scripts.drain, Timers.Epoch(last))
         && AllInEpoch(scripts.due, Timers.Epoch(clock)) {
        PunctualAfter(out, clock);
      }
    }

    /** What a turn from state s adds to the log and reports, phase by phase: a failed socket ends every request in an
        error; otherwise the datagram is taken, queries go out, and the timers follow unless the turn ended before. */
    static ghost predicate TurnDone(s: State, system: Ip, x: Round, write: Writable, out: Outcome, slips: set<Slip>,
                                    before: Log, t: TurnLogs, after: Log)
      requires Sized(x.read)
    {
      && (NothingReceived in slips <==> !x.error && x.read.Datagram? && x.read.n == 0)
      && (NothingToSend in slips <==>
            !x.error && !x.read.ReceiveThrows? && !out.RepliedUnsent? && !write.NotWritable? && Emptied(t.read))
      && if x.error then out.Exits? && FailDone(before, x.scripts.exit, after)
         else
           && ReadDone(s, system, x.read, x.scripts, out.RepliedUnsent?, before, t.read)
           && if x.read.ReceiveThrows? then out.Exits? && after == t.read
              else if out.RepliedUnsent? then after == before
              else
                && WriteDone(write, x.scripts, t.read, t.sent, t.write)
                && if WriteFails(write, t.sent) then out.Exits? && after == t.write
                   else Within(t.write, x.scripts.drain + x.scripts.due, after, [])
    }

    /** The timers of a turn end only requests whose deadline has come. */
    static ghost predicate TimersDone(x: Round, write: Writable, out: Outcome, t: TurnLogs, after: Log) {
      x.error || x.read.ReceiveThrows? || out.RepliedUnsent? || WriteFails(write, t.sent)
      || Stretch(t.write, after, Timing(x.clock))
    }

    /** One turn of the loop of run, from taking the mutex to the wait. */
    method Turn(x: Round, write: Writable) returns (out: Outcome, slips: set<Slip>, ghost t: TurnLogs)
      requires Valid() && !isExiting && (write.NotWritable? || armed) && Sized(x.read)
      modifies this, requests
      ensures Valid() && fresh(requests - old(requests)) && running == old(running)
      ensures out.Exits? <==> isExiting
      ensures out.Exits? <==> resolversMap == map[]
      ensures TurnDone(old(model), dns, x, write, out, slips, old(log), t, log)
      ensures out.RepliedUnsent? ==> unchanged(this) && unchanged(old(requests))
      ensures out.NoDeadline? || out.Sleeps? ==> lastPoll == x.clock && (out.NoDeadline? <==> MapAt(timeMap1).Nil?)
      ensures out.Sleeps? ==>
                MapAt(timeMap1).key > Timers.Ticks(x.clock)
                && out.ms == Timers.Sleep(MapAt(timeMap1).key, Timers.Ticks(x.clock))
      ensures old(Exact()) && Calm(old(lastPoll), x.clock, x.scripts) ==>
                && TimersDone(x, write, out, t, log)
                && (out.NoDeadline? || out.Sleeps? ==> Punctual(out, x.clock))
    {
      hide Consistent, Aligned, Stretch, Timers.Epoch, Timers.Ticks, AllInEpoch, FailDone, Within;
      hide MapAt, Timers.Sleep, ReadDone, WriteDone, WriteFails, Punctual, Emptied;
      AllInEpochParts(x.scripts.read, x.scripts.write, x.scripts.drain, Timers.Epoch(lastPoll));
      slips, t := {}, TurnLogs(log, log, log);
      if x.error {
        Fail(x.scripts.exit);
        out := Exits;
        return;
      }
      if x.read.Datagram? && x.read.n == 0 {
        slips := {NothingReceived};
      }
      var dead, broken := ReadPhase(x.read, x.scripts);
      t := TurnLogs(log, log, log);
      if dead {
        ReadThrew(old(model), dns, x.read, x.scripts, broken, old(log), log);
        out := Exits;
        return;
      }
      if broken {
        out := RepliedUnsent;
        return;
      }
      var idle;
      ghost var sent;
      dead, idle, sent := WritePhase(write, x.scripts);
      t := TurnLogs(t.read, sent, log);
      if idle {
        slips := slips + {NothingToSend};
      }
      if dead {
        out := Exits;
        return;
      }
      out := TimerPhase(x.clock, x.scripts);
    }

    static lemma ReadThrew(s: State, system: Ip, read: Readable, scripts: Scripts, broken: bool, before: Log,
                           after: Log)
      requires Sized(read) && read.ReceiveThrows? && ReadDone(s, system, read, scripts, broken, before, after)
      ensures !broken && ReadDone(s, system, read, scripts, false, before, after)
    {
      hide FailDone;
    }

    static lemma AllInEpochParts(a: seq<seq<UserOp>>, b: seq<seq<UserOp>>, c: seq<seq<UserOp>>, e: nat)
      ensures AllInEpoch(a + b + c, e) ==> AllInEpoch(a, e) && AllInEpoch(b, e) && AllInEpoch(c, e)
    {
      hide InEpoch;
      var s := a + b + c;
      if AllInEpoch(s, e) {
        forall i | 0 <= i < |a|
          ensures InEpoch(a[i], e)
        {
          assert s[i] == a[i];
        }
        forall i | 0 <= i < |b|
          ensures InEpoch(b[i], e)
        {
          assert s[|a| + i] == b[i];
        }
        forall i | 0 <= i < |c|
          ensures InEpoch(c[i], e)
        {
          assert s[|a| + |b| + i] == c[i];
        }
      }
    }

    // ---------- messages ----------

    /** The thread takes a message from its queue and runs it later, without the mutex. */
    method TakeMessage()
      requires Valid() && queue != [] && running == None
      modifies `queue, `running
      ensures Valid() && running == Some(old(queue)[0]) && queue == old(queue)[1..]
    {
      hide InMap, IdsAgree, SendsAgree, ActiveAgree, UnsentAgree, Owned, ViewOf;
      assert queue == [queue[0]] + queue[1..];
      running, queue := Some(queue[0]), queue[1..];
    }

    method RunMessage()
      requires Valid() && running != None
      modifies `running, `armed, `model, `log
      ensures Valid() && running == None
      ensures if old(running) == Some(StartSending) then armed && log == Then(old(log), Woken)
              else armed == old(armed) && log == old(log)
    {
      hide InMap, IdsAgree, SendsAgree, ActiveAgree, UnsentAgree, Owned, ViewOf;
      if running == Some(StartSending) {
        armed := true;
        log, model := Then(log, Woken), model.(armed := true, wakes := model.wakes - 1);
      }
      running := None;
    }

    /** No request times out early in a turn. */
    static lemma TurnTimeouts(s: State, system: Ip, x: Round, write: Writable, out: Outcome, slips: set<Slip>,
                              before: Log, t: TurnLogs, after: Log)
      requires Sized(x.read) && TurnDone(s, system, x, write, out, slips, before, t, after)
      requires TimersDone(x, write, out, t, after)
      ensures TimeoutsBy(before, after, x.clock)
    {
      hide Stretch, Replied, Emptied, TotalSent, TimeoutsBy, Within, FailDone;
      SameLog(before, x.clock);
      if x.error {
        FailTimeouts(before, x.scripts.exit, after, x.clock);
      } else if x.read.ReceiveThrows? {
        FailTimeouts(before, x.scripts.exit, after, x.clock);
      } else if !out.RepliedUnsent? {
        if x.read.Datagram? {
          var u := Users(x.scripts.read, false, system);
          ReplyTimeouts(s, x.read.buf, x.read.n, x.read.stray, x.read.fault, u, false, before, t.read, x.clock);
        }
        WriteTimeouts(write, x.scripts, t.read, t.sent, t.write, x.clock);
        TimeoutsTrans(before, t.read, t.write, x.clock);
        if !WriteFails(write, t.sent) {
          StretchTimeouts(t.write, after, Timing(x.clock), x.clock);
          TimeoutsTrans(before, t.write, after, x.clock);
        }
      }
    }

    static lemma FailTimeouts(before: Log, script: seq<seq<UserOp>>, after: Log, now: nat)
      requires FailDone(before, script, after)
      ensures TimeoutsBy(before, after, now)
    {
      hide Stretch, Within, TimeoutsBy;
      StretchTimeouts(before, after, FAILING, now);
    }

    static lemma WriteTimeouts(write: Writable, scripts: Scripts, before: Log, sent: Log, after: Log, now: nat)
      requires WriteDone(write, scripts, before, sent, after)
      ensures TimeoutsBy(before, after, now)
    {
      hide Stretch, Within, FailDone, Emptied;
      SameLog(before, now);
      if !write.NotWritable? {
        StretchTimeouts(before, sent, SENDING, now);
        if !Emptied(sent) && write.SendThrowsAfter? {
          FailTimeouts(sent, scripts.exit, after, now);
          TimeoutsTrans(before, sent, after, now);
        }
      }
    }

    static lemma SameLog(log: Log, now: nat)
      ensures TimeoutsBy(log, log, now)
    {
    }

    /** Only messages that arm the socket ran. */
    static predicate Woke(a: Log, b: Log) {
      b == a || (b.Then? && b.e.Woken? && Woke(a, b.before))
    }

    static lemma {:induction false} WokeTimeouts(a: Log, b: Log, now: nat)
      requires Woke(a, b)
      ensures TimeoutsBy(a, b, now)
      decreases b
    {
      if b == a {
      } else {
        WokeTimeouts(a, b.before, now);
      }
    }

    /** Everything in the queue is run before the next turn. */
    method DrainMessages()
      requires Valid() && running == None
      modifies `queue, `running, `armed, `model, `log
      ensures Valid() && queue == [] && running == None
      ensures old(armed) || StartSending in old(queue) ==> armed
      ensures Woke(old(log), log) && Replay(log).Some? && Replay(log).value.wakes == 0
    {
      hide Consistent, Indexed;
      while queue != []
        invariant Valid() && running == None
        invariant old(armed) || StartSending in old(queue) ==> armed || StartSending in queue
        invariant Woke(old(log), log)
        decreases |queue|
      {
        TakeMessage();
        RunMessage();
      }
      NoneWaiting();
    }

    lemma NoneWaiting()
      requires Valid() && queue == [] && running == None
      ensures Replay(log).Some? && Replay(log).value.wakes == 0
    {
    }

    // ---------- the loop of run ----------

    /** Every round is calm. */
    static predicate CalmRound(x: Round, last: nat) {
      Calm(last, x.clock, x.scripts) && InEpoch(x.waiting, Timers.Epoch(x.clock))
    }

    static predicate CalmRounds(rounds: seq<Round>, last: nat) {
      rounds == [] || (CalmRound(rounds[0], last) && CalmRounds(rounds[1..], rounds[0].clock))
    }

    /** The socket reports writability only while it is armed. */
    static function Offered(x: Round, s: State): Writable {
      if s.armed then x.write else NotWritable
    }

    /** What one round after the given log does, for whatever the round meets: the turn, and if the thread then sleeps,
        the calls of users during the wait and the messages that ended it. */
    static ghost predicate RoundDone(x: Round, system: Ip, before: Log, t: RoundLogs)
      requires Sized(x.read)
    {
      && Replay(before).Some?
      && var s := Replay(before).value;
      && TurnDone(s, system, x, Offered(x, s), t.out, t.slips, before, t.turn, t.turned)
      && if t.out.Sleeps? then
           && OpsDone(x.waiting, false, system, t.turned, t.waited)
           && if x.woken then Woke(t.waited, t.end) && Replay(t.end).Some? && Replay(t.end).value.wakes == 0
              else t.end == t.waited
         else t.waited == t.turned && t.end == t.turned
    }

    /** A turn, the wait with what users do meanwhile, and the messages that ended it; None if the loop goes on. */
    method OneRound(x: Round) returns (out: Option<Outcome>, ghost t: RoundLogs)
      requires Valid() && !isExiting && running == None && Sized(x.read)
      modifies this, requests
      ensures Valid() && fresh(requests - old(requests)) && running == None
      ensures RoundDone(x, dns, old(log), t) && t.end == log && t.quit == quitFlag
      ensures out == if t.out.Sleeps? then None else Some(t.out)
      ensures isExiting <==> out == Some(Exits)
      ensures out == Some(Exits) ==> resolversMap == map[]
      ensures old(Exact()) && CalmRound(x, old(lastPoll)) ==>
                && TimeoutsBy(old(log), log, x.clock)
                && (!isExiting ==> Exact() && (out == None ==> lastPoll == x.clock))
    {
      hide Indexed, Aligned, TurnDone, TimersDone, Calm, InEpoch, Timers.Epoch, MapAt, Timers.Sleep, TimeoutsBy;
      hide Punctual, OpsDone, Woke;
      ghost var start, s, calm := log, model, Exact() && CalmRound(x, lastPoll);
      var write := if armed then x.write else NotWritable;
      ArmedAsModel();
      assert write == Offered(x, s);
      var turn, slips;
      ghost var logs;
      turn, slips, logs := Turn(x, write);
      ghost var turned := log;
      if calm {
        TurnTimeouts(s, dns, x, write, turn, slips, start, logs, log);
        PunctualIsExact(turn, x.clock);
      }
      t := RoundLogs(turn, slips, logs, log, log, log, quitFlag);
      if !turn.Sleeps? {
        return Some(turn), t;
      }
      RunUserOps(x.waiting);
      ghost var waited := log;
      SameLog(log, x.clock);
      if x.woken {
        DrainMessages();
        WokeTimeouts(waited, log, x.clock);
      }
      t := RoundLogs(turn, slips, logs, turned, waited, log, quitFlag);
      OpsTimeouts(x.waiting, false, dns, turned, waited, x.clock);
      if calm {
        TimeoutsTrans(start, turned, waited, x.clock);
        TimeoutsTrans(start, waited, log, x.clock);
      }
      out := None;
    }

    lemma ArmedAsModel()
      requires Valid()
      ensures armed == model.armed && Replay(log) == Some(model)
    {
    }

    static lemma OpsTimeouts(ops: seq<UserOp>, exiting: bool, system: Ip, before: Log, after: Log, now: nat)
      requires OpsDone(ops, exiting, system, before, after)
      ensures TimeoutsBy(before, after, now)
    {
      hide OpsDone, Stretch, TimeoutsBy;
      OpsCounts(ops, exiting, system, before, after);
      StretchTimeouts(before, after, USERS, now);
    }

    lemma PunctualIsExact(out: Outcome, clock: nat)
      ensures Punctual(out, clock) ==> Exact()
    {
      hide Exact;
    }

    /** The log before round i of those traced. */
    static ghost function LogBefore(start: Log, traces: seq<RoundLogs>, i: nat): Log
      requires i <= |traces|
    {
      if i == 0 then start else traces[i - 1].end
    }

    /** Each of the traced rounds is done, one after the other, and the loop went on only while the thread slept and was
        not told to quit. */
    static ghost predicate AllDone(rounds: seq<Round>, system: Ip, start: Log, traces: seq<RoundLogs>)
      requires |traces| <= |rounds| && forall i :: 0 <= i < |rounds| ==> Sized(rounds[i].read)
    {
      && (forall i :: 0 <= i < |traces| ==> RoundDone(rounds[i], system, LogBefore(start, traces, i), traces[i]))
      && (forall i :: 0 <= i < |traces| - 1 ==> traces[i].out.Sleeps? && !traces[i].quit)
    }

    /** In each round, only requests whose deadline has come by its clock time out. */
    static ghost predicate InTime(start: Log, traces: seq<RoundLogs>, rounds: seq<Round>)
      requires |traces| <= |rounds|
    {
      forall i :: 0 <= i < |traces| ==> TimeoutsBy(LogBefore(start, traces, i), traces[i].end, rounds[i].clock)
    }

    static lemma NoneDone(rounds: seq<Round>, system: Ip, start: Log)
      requires forall i :: 0 <= i < |rounds| ==> Sized(rounds[i].read)
      ensures AllDone(rounds, system, start, []) && InTime(start, [], rounds)
    {
    }

    static lemma OneMoreDone(rounds: seq<Round>, system: Ip, start: Log, traces: seq<RoundLogs>, t: RoundLogs)
      requires |traces| < |rounds| && forall i :: 0 <= i < |rounds| ==> Sized(rounds[i].read)
      requires AllDone(rounds, system, start, traces)
      requires RoundDone(rounds[|traces|], system, LogBefore(start, traces, |traces|), t)
      requires traces != [] ==> traces[|traces| - 1].out.Sleeps? && !traces[|traces| - 1].quit
      ensures AllDone(rounds, system, start, traces + [t])
    {
      hide RoundDone;
      var more := traces + [t];
      forall i | 0 <= i < |more|
        ensures RoundDone(rounds[i], system, LogBefore(start, more, i), more[i])
      {
        assert LogBefore(start, more, i) == LogBefore(start, traces, i);
        if i < |traces| {
          assert more[i] == traces[i];
        }
      }
      forall i | 0 <= i < |more| - 1
        ensures more[i].out.Sleeps? && !more[i].quit
      {
        assert more[i] == traces[i];
      }
    }

    static lemma OneMoreInTime(start: Log, traces: seq<RoundLogs>, rounds: seq<Round>, t: RoundLogs)
      requires |traces| < |rounds| && InTime(start, traces, rounds)
      requires TimeoutsBy(LogBefore(start, traces, |traces|), t.end, rounds[|traces|].clock)
      ensures InTime(start, traces + [t], rounds)
    {
      hide TimeoutsBy;
      var more := traces + [t];
      forall i | 0 <= i < |more|
        ensures TimeoutsBy(LogBefore(start, more, i), more[i].end, rounds[i].clock)
      {
        assert LogBefore(start, more, i) == LogBefore(start, traces, i);
        if i < |traces| {
          assert more[i] == traces[i];
        }
      }
    }

    /** The loop of run, for any rounds: each is done, until the thread exits or is told to quit, or until one of the
        assertions fails after which the model does not go on. */
    method Run(rounds: seq<Round>) returns (out: Option<Outcome>, ghost traces: seq<RoundLogs>)
      requires Valid() && !isExiting && running == None
      requires forall i :: 0 <= i < |rounds| ==> Sized(rounds[i].read)
      modifies this, requests
      ensures Valid() && running == None
      ensures |traces| <= |rounds| && log == LogBefore(old(log), traces, |traces|)
      ensures AllDone(rounds, dns, old(log), traces)
      ensures out == if traces == [] || traces[|traces| - 1].out.Sleeps? then None else Some(traces[|traces| - 1].out)
      ensures old(quitFlag) ==> traces == []
      ensures !old(quitFlag) && out == None && |traces| < |rounds| ==> traces != [] && traces[|traces| - 1].quit
      ensures isExiting <==> out == Some(Exits)
      ensures out == Some(Exits) ==> resolversMap == map[]
      ensures old(Exact()) && CalmRounds(rounds, old(lastPoll)) ==>
                InTime(old(log), traces, rounds) && (!isExiting ==> Exact())
    {
      hide Consistent, Exact, CalmRound, Sized, TimeoutsBy, InTime, RoundDone, AllDone;
      ghost var start, calm := log, Exact() && CalmRounds(rounds, lastPoll);
      traces := [];
      NoneDone(rounds, dns, log);
      var i := 0;
      assert rounds[0..] == rounds;
      while i < |rounds| && !quitFlag
        invariant 0 <= i <= |rounds|
        invariant Valid() && running == None && !isExiting && fresh(requests - old(requests))
        invariant |traces| == i && log == LogBefore(start, traces, |traces|) && AllDone(rounds, dns, start, traces)
        invariant traces == [] ==> quitFlag == old(quitFlag)
        invariant traces != [] ==> traces[|traces| - 1].out.Sleeps? && traces[|traces| - 1].quit == quitFlag
        invariant traces != [] ==> !old(quitFlag)
        invariant calm ==> Exact() && CalmRounds(rounds[i..], lastPoll) && InTime(start, traces, rounds)
        decreases |rounds| - i
      {
        assert rounds[i..][1..] == rounds[i + 1..];
        ghost var t;
        out, t := OneRound(rounds[i]);
        OneMoreDone(rounds, dns, start, traces, t);
        if calm {
          OneMoreInTime(start, traces, rounds, t);
        }
        traces := traces + [t];
        if out != None {
          return;
        }
        i := i + 1;
      }
      out := None;
    }

    /** The round's datagram answers the request h is active with after the given log, echoing its question, and the
        first answer of the requested type carries the address. */
    static ghost predicate Answering(x: Round, before: Log, h: Hnr, hi: byte, lo: byte, counts: seq<byte>,
                                     rs: Wire.Records, ip: Ip)
      requires Sized(x.read)
    {
      && !x.error && x.read.Datagram? && Replay(before).Some? && h in Replay(before).value.active
      && var req := Replay(before).value.active[h];
      && WellTyped(req) && (req.name == [] || Wire.WellFormed(req.name))
      && Wire.Responds(x.read.buf[..x.read.n], req.id, req.name, req.rtype, hi, lo, counts, rs)
      && Wire.FirstOf(rs, req.rtype).Some?
      && Wire.Carries(Wire.FirstOf(rs, req.rtype).value.data, ip, req.rtype)
    }

    /** A reply that arrives in a round of the loop ends its request with the address it carries. */
    static lemma RoundAnswers(x: Round, system: Ip, before: Log, t: RoundLogs, h: Hnr, hi: byte, lo: byte,
                              counts: seq<byte>, rs: Wire.Records, ip: Ip)
      requires Sized(x.read)
      ensures RoundDone(x, system, before, t) && Answering(x, before, h, hi, lo, counts, rs, ip) ==>
                && t.out != RepliedUnsent
                && CallbackRan(before, h, Replay(before).value.active[h], Ok, ip, Users(x.scripts.read, false, system),
                               t.turn.read)
    {
      hide Wire.Responds, Wire.WellFormed, Wire.FirstOf, Wire.Carries, CallbackRan, Replied, WriteDone, WriteFails;
      hide OpsDone, Woke, Within, Emptied, Replay;
      if RoundDone(x, system, before, t) && Answering(x, before, h, hi, lo, counts, rs, ip) {
        var s, u, broken := Replay(before).value, Users(x.scripts.read, false, system), t.out.RepliedUnsent?;
        assert Replied(s, x.read.buf, x.read.n, x.read.stray, x.read.fault, u, broken, before, t.turn.read);
        Answered(s, h, x.read.buf, x.read.n, x.read.stray, x.read.fault, u, broken, before, t.turn.read, hi, lo, counts,
                 rs, ip);
      }
    }
  }

  // ---------- the library's thread ----------

  /** The log entry of an accepted resolve. */
  ghost predicate AcceptedAs(log: Log, before: Log, serial: nat, h: Hnr, name: Name, due: nat, server: Ip) {
    && log.Then? && log.before == before && log.e.Accepted? && log.e.h == h
    && log.e.req == Request(serial, name, 28, log.e.req.id, due, server)
  }

  /** dns_resolver::resolve, whatever dns::thread is: none yet, a running thread, or one that exits, which a new one
      replaces. */
  method ResolveOn(current: LookupThread?, system: Ip, h: Hnr, name: Name, timeout: uint32, server: Ip, clock: nat,
                   fault: Fault)
    returns (t: LookupThread?, reply: Reply)
    requires current != null ==> current.Consistent()
    modifies current
    ensures |name| > 253 ==> t == current && reply == NameTooLong && (t != null ==> unchanged(t))
    ensures |name| <= 253 ==> t != null && t.Consistent()
    ensures |name| <= 253 && current != null && (h in old(current.resolversMap) || !old(current.isExiting)) ==>
              && t == current
              && reply == (if h in old(current.resolversMap) then InProgress
                           else if |old(current.idMap)| == 65536 then TooManyRequests
                           else if fault != NoFault then NoMemory else Started)
              && (if reply == Started
                  then AcceptedAs(t.log, old(current.log), old(current.model).accepted, h, name, clock + timeout,
                                  ServerOf(server, t.dns))
                  else t.log == old(current.log) && t.resolversMap == old(current.resolversMap))
    ensures |name| <= 253 && (current == null || (h !in old(current.resolversMap) && old(current.isExiting))) ==>
              && (current != null ==> unchanged(current))
              && fresh(t) && fresh(t.requests) && t.Valid() && t.running == None && t.dns == system && !t.quitFlag
              && reply == (if fault != NoFault then NoMemory else Started)
              && (if reply == Started
                  then t.Exact() && t.lastPoll == clock && !t.isExiting
                       && AcceptedAs(t.log, Start, 0, h, name, clock + timeout, ServerOf(server, system))
                  else t.isExiting && t.log == Start && t.requests == {})
  {
    hide LookupThread.Consistent, LookupThread.Exact;
    t := current;
    if |name| > MAX_NAME {
      return t, NameTooLong;
    }
    if t != null {
      reply := t.Resolve(h, name, timeout, server, clock, fault);
      if reply != NewThread {
        return;
      }
    }
    t := new LookupThread(system);
    NewModel(t);
    reply := t.ResolveFirst(h, name, timeout, server, clock, fault);
  }

  lemma NewModel(t: LookupThread)
    requires t.Valid() && t.log == Start
    ensures t.model == INITIAL
  {
  }

  /** A thread from its first request on, with the deadline its caller asked for: every round is done, in calm rounds
      the timers stay exact and no request times out early, and a thread that exits leaves every index empty. */
  method Lifetime(system: Ip, h: Hnr, name: Name, timeout: uint32, server: Ip, clock: nat, rounds: seq<Round>)
    returns (t: LookupThread, out: Option<Outcome>, ghost accepted: Log, ghost traces: seq<RoundLogs>)
    requires |name| <= 253 && forall i :: 0 <= i < |rounds| ==> Sized(rounds[i].read)
    ensures fresh(t) && t.Valid()
    ensures AcceptedAs(accepted, Start, 0, h, name, clock + timeout, ServerOf(server, system))
    ensures |traces| <= |rounds| && t.log == LookupThread.LogBefore(accepted, traces, |traces|)
    ensures LookupThread.AllDone(rounds, system, accepted, traces)
    ensures out == None && |traces| < |rounds| ==> traces != [] && traces[|traces| - 1].quit
    ensures LookupThread.CalmRounds(rounds, clock) ==>
              LookupThread.InTime(accepted, traces, rounds) && (out != Some(Exits) ==> t.Exact())
    ensures out == Some(Exits) ==>
              && t.sendList == [] && t.resolversByTime1.Nil? && t.resolversByTime2.Nil? && t.idMap == map[]
              && t.resolversMap == map[]
  {
    hide LookupThread.Consistent, LookupThread.Exact, LookupThread.AllDone, LookupThread.InTime;
    var thread, _ := ResolveOn(null, system, h, name, timeout, server, clock, NoFault);
    t := thread;
    accepted := t.log;
    out, traces := t.Run(rounds);
    if out == Some(Exits) {
      DrainedThread(t);
    }
  }

  lemma DrainedThread(t: LookupThread)
    requires t.Valid() && t.resolversMap == map[]
    ensures t.sendList == [] && t.resolversByTime1.Nil? && t.resolversByTime2.Nil? && t.idMap == map[]
  {
    t.Drained();
  }
}
