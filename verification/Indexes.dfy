/** A request object, and the agreement of the containers the lookup thread keeps it in: what each index
    promises, and that adding, removing or changing one request keeps the promise. */
module Indexes {
  import opened Common
  import opened Lookups
  import Timers

  /** Which of the two deadline maps a pointer designates. */
  datatype MapId = First | Second

  datatype Message = StartSending | Nothing

  /** One active request. An iterator is modelled by the contents of the node it points to: timeMapIter is
      the key of the node (timeMapIter, this) in the map timeMap points to, idIter the key of the node in
      idMap, and sendIter the list node's element, or None for end(). */
  class Resolver {
    const hnr: Hnr
    const hostName: Name
    var recordType: uint16
    var timeMap: MapId
    var timeMapIter: nat
    var id: uint16
    var idIter: uint16
    var sendIter: Option<Resolver>
    var dns: Ip
    ghost const serial: nat
    ghost const due: nat

    constructor (h: Hnr, name: Name, server: Ip, ghost serial: nat, ghost due: nat)
      ensures hnr == h && hostName == name && dns == server && recordType == TYPE_AAAA && sendIter == None
      ensures this.serial == serial && this.due == due
    {
      hnr, hostName, dns, recordType := h, name, server, TYPE_AAAA;
      timeMap, timeMapIter, id, idIter, sendIter := First, 0, 0, 0, None;
      this.serial, this.due := serial, due;
    }
  }

  /** The server a query goes to: the system's, when the request's own address has a zero last quad. */
  function ServerOf(own: Ip, system: Ip): Ip {
    if own.GetV4() == 0 then system else own
  }

  /** Which addresses are invalid: all zeros, and the IPv4 address of all zeros; which are IPv4 addresses. */
  lemma InvalidExactly(ip: Ip)
    ensures !ip.IsValid() <==> ip == Ip(0, 0, 0, 0) || ip == Ip(0, 0, 0xffff, 0)
    ensures ip.IsV4() <==> ip == V4(ip.GetV4())
    ensures ip.IsV4() <==> ip == Ip(0, 0, 0xffff, ip.q3)
    ensures ip.GetV4() == ip.q3
  {
  }

  /** The documented rule, that an invalid address is replaced by the system's, is met iff the address does not
      merely end in a zero quad. */
  lemma DocumentedServerExactly(own: Ip, system: Ip)
    ensures ServerOf(own, system) == (if own.IsValid() then own else system)
            <==> own.GetV4() != 0 || !own.IsValid() || own == system
  {
    if own.IsV4() {
      assert own.IsValid() <==> own.GetV4() != 0;
    }
  }

  /** A resolver's mutable fields, and a snapshot of those of all owned resolvers. */
  datatype Fields = Fields(recordType: uint16, timeMap: MapId, timeMapIter: nat, id: uint16, idIter: uint16,
                           sendIter: Option<Resolver>, dns: Ip)

  ghost function FieldsOf(r: Resolver): Fields
    reads r
  {
    Fields(r.recordType, r.timeMap, r.timeMapIter, r.id, r.idIter, r.sendIter, r.dns)
  }

  type View = map<Resolver, Fields>

  ghost function ViewOf(requests: set<Resolver>): View
    reads requests
  {
    map r | r in requests :: FieldsOf(r)
  }

  ghost function RequestOf(r: Resolver, f: Fields, system: Ip): Request {
    Request(r.serial, r.hostName, f.recordType, f.id, r.due, ServerOf(f.dns, system))
  }

  // ---------- agreement of the indexes ----------

  ghost predicate Owned(v: View, resolversMap: map<Hnr, Resolver>) {
    && (forall h :: h in resolversMap ==> resolversMap[h] in v && resolversMap[h].hnr == h)
    && (forall r :: r in v ==> r.hnr in resolversMap && resolversMap[r.hnr] == r)
  }

  ghost predicate IdsAgree(v: View, idMap: map<uint16, Resolver>) {
    && (forall r :: r in v ==> v[r].idIter == v[r].id && v[r].id in idMap && idMap[v[r].id] == r)
    && (forall id :: id in idMap ==> idMap[id] in v && v[idMap[id]].id == id)
  }

  ghost predicate InMap(v: View, m: Timers.Queue<Resolver>, which: MapId) {
    && Timers.Sorted(m) && Timers.Below(m, Timers.WRAP) && Timers.Once(m)
    && (forall r :: r in Timers.Members(m) ==> r in v && v[r].timeMap == which)
    && (forall r :: r in v && v[r].timeMap == which ==> Timers.Has(m, v[r].timeMapIter, r))
  }

  ghost predicate SendsAgree(v: View, sendList: seq<Resolver>) {
    && NoDup(sendList)
    && (forall r :: r in sendList ==> r in v)
    && (forall r :: r in v ==> v[r].sendIter == if r in sendList then Some(r) else None)
  }

  ghost predicate ActiveAgree(v: View, active: map<Hnr, Request>, system: Ip) {
    && (forall r :: r in v ==> r.hnr in active && active[r.hnr] == RequestOf(r, v[r], system))
    && (forall h :: h in active ==> exists r :: r in v && r.hnr == h)
  }

  ghost predicate UnsentAgree(sendList: seq<Resolver>, unsent: seq<Hnr>) {
    |unsent| == |sendList| && forall i :: 0 <= i < |sendList| ==> unsent[i] == sendList[i].hnr
  }

  function Pending(queue: seq<Message>, running: Option<Message>): nat {
    multiset(queue)[StartSending] + if running == Some(StartSending) then 1 else 0
  }

  /** A deadline map after erasing or inserting r, if it is the one r stands in. */
  function MapWithout(m: Timers.Queue<Resolver>, which: MapId, r: Resolver, f: Fields): Timers.Queue<Resolver> {
    if f.timeMap == which then Timers.Erase(m, f.timeMapIter, r) else m
  }

  function MapWith(m: Timers.Queue<Resolver>, which: MapId, r: Resolver, f: Fields): Timers.Queue<Resolver> {
    if f.timeMap == which then Timers.Insert(m, f.timeMapIter, r) else m
  }

  /** The fields resolve gives a new request. */
  function NewFields(r: Resolver, id: uint16, server: Ip, cur: uint32, timeout: uint32, map1: MapId, map2: MapId)
    : (f: Fields)
    ensures f.recordType == TYPE_AAAA && f.id == f.idIter == id && f.sendIter == Some(r) && f.dns == server
    ensures f.timeMapIter < Timers.WRAP
  {
    var end := (cur + timeout) % Timers.WRAP;
    Fields(TYPE_AAAA, if end < cur then map2 else map1, end, id, id, Some(r), server)
  }

  // ---------- removal from each index ----------

  lemma OwnedRemove(v: View, resolversMap: map<Hnr, Resolver>, r: Resolver)
    requires Owned(v, resolversMap) && r in v
    ensures Owned(v - {r}, resolversMap - {r.hnr})
  {
  }

  lemma IdsRemove(v: View, idMap: map<uint16, Resolver>, r: Resolver)
    requires IdsAgree(v, idMap) && r in v
    ensures IdsAgree(v - {r}, idMap - {v[r].idIter})
  {
  }

  lemma InMapRemove(v: View, m: Timers.Queue<Resolver>, which: MapId, r: Resolver)
    requires InMap(v, m, which) && r in v
    ensures InMap(v - {r}, if v[r].timeMap == which then Timers.Erase(m, v[r].timeMapIter, r) else m, which)
  {
    hide Timers.Sorted, Timers.Below, Timers.Once, Timers.Members, Timers.Has, Timers.Erase;
    var key := v[r].timeMapIter;
    if v[r].timeMap == which {
      var m' := Timers.Erase(m, key, r);
      Timers.EraseSorted(m, key, r, Timers.WRAP);
      Timers.EraseOnce(m, key, r);
      forall x | x in v - {r} && v[x].timeMap == which
        ensures Timers.Has(m', v[x].timeMapIter, x)
      {
        Timers.EraseHas(m, key, r, v[x].timeMapIter, x);
      }
    }
  }

  lemma SendsRemove(v: View, sendList: seq<Resolver>, r: Resolver)
    requires SendsAgree(v, sendList) && r in v
    ensures SendsAgree(v - {r}, Without(sendList, r))
    ensures v[r].sendIter == None ==> Without(sendList, r) == sendList
    ensures v[r].sendIter != None ==> v[r].sendIter == Some(r)
  {
    hide Without;
    WithoutOnce(sendList, r);
    var w := Without(sendList, r);
    assert NoDup(w);
    assert forall x :: x in w ==> x in v - {r};
    assert forall x :: x in v - {r} ==> (x in w <==> x in sendList);
  }

  lemma ActiveRemove(v: View, resolversMap: map<Hnr, Resolver>, active: map<Hnr, Request>, system: Ip, r: Resolver)
    requires ActiveAgree(v, active, system) && Owned(v, resolversMap) && r in v
    ensures ActiveAgree(v - {r}, active - {r.hnr}, system)
  {
    hide RequestOf;
    forall h | h in active - {r.hnr}
      ensures exists x :: x in v - {r} && x.hnr == h
    {
      var x :| x in v && x.hnr == h;
      assert x in v - {r};
    }
  }

  lemma {:induction false} UnsentRemove(sendList: seq<Resolver>, unsent: seq<Hnr>, r: Resolver)
    requires UnsentAgree(sendList, unsent)
    requires forall x :: x in sendList && x.hnr == r.hnr ==> x == r
    ensures UnsentAgree(Without(sendList, r), Without(unsent, r.hnr))
    decreases |sendList|
  {
    if sendList == [] || sendList[0] == r {
    } else {
      assert sendList[0] in sendList;
      assert forall x :: x in sendList[1..] ==> x in sendList;
      UnsentRemove(sendList[1..], unsent[1..], r);
    }
  }

  lemma UniqueInList(v: View, resolversMap: map<Hnr, Resolver>, sendList: seq<Resolver>, r: Resolver)
    requires Owned(v, resolversMap) && SendsAgree(v, sendList) && r in v
    ensures forall x :: x in sendList && x.hnr == r.hnr ==> x == r
  {
  }

  lemma IndexesNonempty(v: View, sendList: seq<Resolver>, m1: Timers.Queue<Resolver>, m2: Timers.Queue<Resolver>,
                        idMap: map<uint16, Resolver>)
    requires IdsAgree(v, idMap) && SendsAgree(v, sendList) && InMap(v, m1, First) && InMap(v, m2, Second)
    ensures sendList != [] || m1.Node? || m2.Node? || idMap != map[] ==> v != map[]
  {
    if sendList != [] {
      assert sendList[0] in v;
    } else if m1.Node? {
      assert m1.who in Timers.Members(m1);
    } else if m2.Node? {
      assert m2.who in Timers.Members(m2);
    } else if idMap != map[] {
      var id :| id in idMap;
      assert idMap[id] in v;
    }
  }

  /** As many ids are taken as requests are active. */
  lemma {:induction false} IdCount(v: View, resolversMap: map<Hnr, Resolver>, idMap: map<uint16, Resolver>)
    requires Owned(v, resolversMap) && IdsAgree(v, idMap)
    ensures |idMap| == |resolversMap|
    decreases |v|
  {
    if v == map[] {
      assert resolversMap == map[] && idMap == map[];
    } else {
      var r :| r in v;
      OwnedRemove(v, resolversMap, r);
      IdsRemove(v, idMap, r);
      IdCount(v - {r}, resolversMap - {r.hnr}, idMap - {v[r].idIter});
      OneLess(v, r);
      OneLess(resolversMap, r.hnr);
      OneLess(idMap, v[r].idIter);
    }
  }

  lemma OneLess<K, V>(m: map<K, V>, k: K)
    requires k in m
    ensures |m - {k}| == |m| - 1
  {
    assert (m - {k}).Keys == m.Keys - {k};
    assert |m| == |m.Keys| && |m - {k}| == |(m - {k}).Keys|;
  }

  // ---------- addition to each index ----------

  lemma OwnedAdd(v: View, resolversMap: map<Hnr, Resolver>, r: Resolver, f: Fields)
    requires Owned(v, resolversMap) && r.hnr !in resolversMap
    ensures Owned(v[r := f], resolversMap[r.hnr := r])
  {
  }

  lemma IdsAdd(v: View, idMap: map<uint16, Resolver>, r: Resolver, f: Fields)
    requires IdsAgree(v, idMap) && r !in v && f.id !in idMap && f.idIter == f.id
    ensures IdsAgree(v[r := f], idMap[f.id := r])
  {
  }

  lemma InMapAdd(v: View, m: Timers.Queue<Resolver>, which: MapId, r: Resolver, f: Fields)
    requires InMap(v, m, which) && r !in v && f.timeMapIter < Timers.WRAP
    ensures InMap(v[r := f], if f.timeMap == which then Timers.Insert(m, f.timeMapIter, r) else m, which)
    ensures r !in Timers.Members(m)
  {
    hide Timers.Sorted, Timers.Below, Timers.Once, Timers.Members, Timers.Has, Timers.Insert;
    var key, w := f.timeMapIter, v[r := f];
    if f.timeMap == which {
      Timers.InsertSorted(m, key, r, Timers.WRAP);
      Timers.InsertOnce(m, key, r);
      forall x | x in w && w[x].timeMap == which
        ensures Timers.Has(Timers.Insert(m, key, r), w[x].timeMapIter, x)
      {
        Timers.InsertHas(m, key, r, w[x].timeMapIter, x);
      }
    }
  }

  lemma SendsAdd(v: View, sendList: seq<Resolver>, r: Resolver, f: Fields)
    requires SendsAgree(v, sendList) && r !in sendList && f.sendIter == Some(r)
    ensures SendsAgree(v[r := f], sendList + [r])
  {
    assert forall x :: x in sendList + [r] <==> x in sendList || x == r;
  }

  lemma ActiveAdd(v: View, active: map<Hnr, Request>, system: Ip, r: Resolver, f: Fields)
    requires ActiveAgree(v, active, system) && r !in v && r.hnr !in active
    ensures ActiveAgree(v[r := f], active[r.hnr := RequestOf(r, f, system)], system)
  {
    hide RequestOf;
    var w, a := v[r := f], active[r.hnr := RequestOf(r, f, system)];
    forall h | h in a
      ensures exists x :: x in w && x.hnr == h
    {
      if h == r.hnr {
        assert r in w;
      } else {
        var x :| x in v && x.hnr == h;
        assert x in w;
      }
    }
  }

  lemma FreeIdUnused(v: View, idMap: map<uint16, Resolver>, s: State, system: Ip, id: uint16)
    requires IdsAgree(v, idMap) && ActiveAgree(v, s.active, system) && id !in idMap
    ensures Unused(s, id)
  {
    forall h | h in s.active
      ensures s.active[h].id != id
    {
      var r :| r in v && r.hnr == h;
    }
  }

  lemma ActiveKeys(v: View, resolversMap: map<Hnr, Resolver>, active: map<Hnr, Request>, system: Ip)
    requires Owned(v, resolversMap) && ActiveAgree(v, active, system)
    ensures forall h :: h in active <==> h in resolversMap
    ensures forall r :: r in v ==> active[r.hnr] == RequestOf(r, v[r], system)
  {
    hide RequestOf;
    forall h | h in active
      ensures h in resolversMap
    {
      var r :| r in v && r.hnr == h;
    }
  }

  lemma NothingOwned(requests: set<Resolver>, resolversMap: map<Hnr, Resolver>)
    requires Owned(ViewOf(requests), resolversMap) && requests == {}
    ensures resolversMap == map[]
  {
    assert forall h :: h in resolversMap ==> resolversMap[h] in requests;
  }

  lemma PendingNothing(queue: seq<Message>, running: Option<Message>)
    ensures Pending(queue + [Nothing], running) == Pending(queue, running)
  {
  }

  // ---------- a change to one request's own fields ----------

  lemma SetInMap(v: View, r: Resolver, f: Fields, m: Timers.Queue<Resolver>, which: MapId)
    requires r in v && f.timeMap == v[r].timeMap && f.timeMapIter == v[r].timeMapIter
    requires InMap(v, m, which)
    ensures InMap(v[r := f], m, which)
  {
    hide Timers.Sorted, Timers.Below, Timers.Once, Timers.Members, Timers.Has;
  }

  lemma SetFields(v: View, r: Resolver, f: Fields, resolversMap: map<Hnr, Resolver>, idMap: map<uint16, Resolver>,
                  m1: Timers.Queue<Resolver>, m2: Timers.Queue<Resolver>)
    requires r in v && f.id == v[r].id && f.idIter == v[r].idIter
    requires f.timeMap == v[r].timeMap && f.timeMapIter == v[r].timeMapIter
    requires Owned(v, resolversMap) && IdsAgree(v, idMap) && InMap(v, m1, First) && InMap(v, m2, Second)
    ensures var w := v[r := f];
            Owned(w, resolversMap) && IdsAgree(w, idMap) && InMap(w, m1, First) && InMap(w, m2, Second)
  {
    hide InMap;
    SetInMap(v, r, f, m1, First);
    SetInMap(v, r, f, m2, Second);
  }

  lemma SetActive(v: View, r: Resolver, f: Fields, resolversMap: map<Hnr, Resolver>, active: map<Hnr, Request>,
                  system: Ip)
    requires r in v && Owned(v, resolversMap) && ActiveAgree(v, active, system)
    ensures ActiveAgree(v[r := f], active[r.hnr := RequestOf(r, f, system)], system)
  {
    hide RequestOf;
    var w, a := v[r := f], active[r.hnr := RequestOf(r, f, system)];
    forall h | h in a
      ensures exists x :: x in w && x.hnr == h
    {
      if h == r.hnr {
        assert r in w;
      } else {
        var x :| x in v && x.hnr == h;
        assert x in w;
      }
    }
  }

  lemma SameActive(v: View, r: Resolver, active: map<Hnr, Request>, system: Ip)
    requires r in v && ActiveAgree(v, active, system)
    ensures active[r.hnr := RequestOf(r, v[r], system)] == active
  {
  }

  lemma SetSameIter(v: View, r: Resolver, f: Fields, sendList: seq<Resolver>)
    requires r in v && SendsAgree(v, sendList) && f.sendIter == v[r].sendIter
    ensures SendsAgree(v[r := f], sendList)
  {
  }

  lemma SetPushed(v: View, r: Resolver, f: Fields, sendList: seq<Resolver>)
    requires r in v && SendsAgree(v, sendList) && v[r].sendIter == None && f.sendIter == Some(r)
    ensures SendsAgree(v[r := f], sendList + [r])
  {
    SendsAdd(v, sendList, r, f);
  }

  /** The requeue of a type A fallback keeps the send list in order iff the request was not waiting in it. */
  lemma RequeueExactlyWhenSent(v: View, r: Resolver, f: Fields, sendList: seq<Resolver>)
    requires r in v && SendsAgree(v, sendList) && f.sendIter == Some(r)
    ensures SendsAgree(v[r := f], sendList + [r]) <==> v[r].sendIter == None
  {
    if v[r].sendIter == None {
      SetPushed(v, r, f, sendList);
    } else {
      var i :| 0 <= i < |sendList| && sendList[i] == r;
      assert (sendList + [r])[i] == (sendList + [r])[|sendList|];
    }
  }

  lemma SetPopped(v: View, r: Resolver, f: Fields, sendList: seq<Resolver>)
    requires SendsAgree(v, sendList) && sendList != [] && r == sendList[0] && f.sendIter == None
    ensures SendsAgree(v[r := f], sendList[1..])
  {
    var w, l := v[r := f], sendList[1..];
    assert sendList == [r] + l;
    assert forall x :: x in sendList <==> x == r || x in l;
    assert r !in l;
  }

  lemma SetSpelled(v: View, r: Resolver, f: Fields, current: MapId, e: nat)
    requires r in v && f.timeMap == v[r].timeMap && f.timeMapIter == v[r].timeMapIter
    ensures Spelled(v[r := f], current, e) <==> Spelled(v, current, e)
  {
    var w := v[r := f];
    if Spelled(w, current, e) {
      forall x | x in v
        ensures x.due == v[x].timeMapIter + (e + if v[x].timeMap == current then 0 else 1) * Timers.WRAP
      {
        assert x in w;
      }
    }
  }

  lemma UnsentPush(sendList: seq<Resolver>, unsent: seq<Hnr>, r: Resolver)
    requires UnsentAgree(sendList, unsent)
    ensures UnsentAgree(sendList + [r], unsent + [r.hnr])
  {
  }

  lemma UnsentPop(sendList: seq<Resolver>, unsent: seq<Hnr>)
    requires UnsentAgree(sendList, unsent) && sendList != []
    ensures unsent != [] && unsent[0] == sendList[0].hnr && UnsentAgree(sendList[1..], unsent[1..])
  {
  }

  /** Who waits in the send list, as the model sees it. */
  lemma UnsentMember(v: View, resolversMap: map<Hnr, Resolver>, sendList: seq<Resolver>, unsent: seq<Hnr>, r: Resolver)
    requires Owned(v, resolversMap) && SendsAgree(v, sendList) && UnsentAgree(sendList, unsent) && r in v
    ensures r.hnr in unsent <==> v[r].sendIter != None
  {
    UniqueInList(v, resolversMap, sendList, r);
    if r.hnr in unsent {
      var i :| 0 <= i < |unsent| && unsent[i] == r.hnr;
      assert sendList[i] in sendList;
    }
    if r in sendList {
      var i :| 0 <= i < |sendList| && sendList[i] == r;
      assert unsent[i] == r.hnr;
    }
  }

  lemma IdOfActive(v: View, idMap: map<uint16, Resolver>, resolversMap: map<Hnr, Resolver>, s: State, system: Ip,
                   id: uint16)
    requires Owned(v, resolversMap) && IdsAgree(v, idMap) && ActiveAgree(v, s.active, system)
    ensures forall h :: h in s.active && s.active[h].id == id ==> id in idMap && idMap[id].hnr == h
    ensures id in idMap ==>
              var r := idMap[id];
              r in v && r.hnr in resolversMap && resolversMap[r.hnr] == r
              && r.hnr in s.active && s.active[r.hnr] == RequestOf(r, v[r], system) && s.active[r.hnr].id == id
  {
    forall h | h in s.active && s.active[h].id == id
      ensures id in idMap && idMap[id].hnr == h
    {
      var r :| r in v && r.hnr == h;
    }
  }

  /** Each request's map and key spell its true deadline, current being the map of epoch e. */
  ghost predicate Spelled(v: View, current: MapId, e: nat) {
    forall r :: r in v ==> r.due == v[r].timeMapIter + (e + if v[r].timeMap == current then 0 else 1) * Timers.WRAP
  }

  lemma SpelledRemove(v: View, current: MapId, e: nat, r: Resolver)
    requires Spelled(v, current, e)
    ensures Spelled(v - {r}, current, e)
  {
  }

  lemma OwnerOf(requests: set<Resolver>, resolversMap: map<Hnr, Resolver>, h: Hnr)
    requires Owned(ViewOf(requests), resolversMap) && h in resolversMap
    ensures resolversMap[h] in requests && resolversMap[h].hnr == h
  {
  }

  lemma MemberOf(requests: set<Resolver>, r: Resolver)
    ensures r in ViewOf(requests) <==> r in requests
    ensures r in requests ==> ViewOf(requests)[r] == FieldsOf(r)
  {
  }
}
