/** The three mutexes of the lookup: dns::mutex, the thread's mutex and completedMutex. A small-step model
    with one lookup thread and any number of callers of resolve and cancel, at the grain of single lock
    operations; the callback is one more caller when it re-enters the library. */
module Protocol {
  import opened Common

  /** A caller: a user thread, or the callback the lookup thread is running. */
  datatype Caller = User(u: nat) | Callback

  datatype Owner = Free | TheThread | By(c: Caller)

  /** One accepted request: whose it is, and its number among all requests. */
  datatype Req = Req(h: Hnr, serial: nat)

  /** Entering: quitFlag was not set, about to lock mutex. Removed: about to lock completedMutex. Locked: about to
      unlock mutex. Calling: in the callback. Returned: about to unlock completedMutex. Relocking: about to lock mutex
      again. */
  datatype ThreadPc =
    | Waiting
    | Entering
    | Polling
    | Removed(r: Req)
    | Locked(r: Req)
    | Calling(r: Req)
    | Returned(r: Req)
    | Relocking
    | Exited

  /** Where a caller stands in cancel or resolve. bound is the number of requests that existed when cancel
      removed; over is the number of the request of the same resolver, if any, whose callback was under way then
      although another of its requests was removed. */
  datatype Pc =
    | Idle
    | CancelLocksDns(h: Hnr)
    | CancelLocksMutex(h: Hnr)
    | CancelRemoves(h: Hnr)
    | CancelLocksCompleted(h: Hnr, bound: nat)
    | CancelUnlocksCompleted(h: Hnr, bound: nat)
    | CancelUnlocksMutex(h: Hnr, ret: bool, bound: nat, over: Option<nat>)
    | CancelUnlocksDns(h: Hnr, ret: bool, bound: nat, over: Option<nat>)
    | CancelReturned(h: Hnr, ret: bool, bound: nat, over: Option<nat>)
    | ResolveLocksDns(h: Hnr)
    | ResolveLocksMutex(h: Hnr)
    | ResolveChecks(h: Hnr)
    | ResolveLocksMutexAgain(h: Hnr)
    | ResolveInserts(h: Hnr)
    | ResolveUnlocksDns(h: Hnr)

  datatype State = State(
    thread: ThreadPc,
    pcs: map<Caller, Pc>,
    dns: Owner,
    mutex: Owner,
    completed: Owner,
    active: map<Hnr, nat>,
    next: nat,
    exiting: bool,
    quit: bool)

  const INITIAL := State(Waiting, map[], Free, Free, Free, map[], 0, false, false)

  function PcOf(pcs: map<Caller, Pc>, c: Caller): Pc {
    if c in pcs then pcs[c] else Idle
  }

  /** The request whose callback is running or sure to run. */
  function Pending(s: State): Option<Req> {
    match s.thread
    case Removed(r) => Some(r)
    case Locked(r) => Some(r)
    case Calling(r) => Some(r)
    case _ => None
  }

  predicate PendingFor(s: State, h: Hnr) {
    Pending(s).Some? && Pending(s).value.h == h
  }

  /** ThreadCompletes: the polling thread takes a request out of the indexes; Forget: a caller goes on after
      its cancel returned. */
  datatype Act =
    | ThreadSteps
    | ThreadCompletes(h: Hnr)
    | StartCancel(c: Caller, h: Hnr)
    | StartResolve(c: Caller, h: Hnr)
    | CallerSteps(c: Caller)
    | Forget(c: Caller)

  // ---------- one step ----------

  function Lock(o: Owner, who: Owner, locks: bool, unlocks: bool): Owner {
    if locks then who else if unlocks then Free else o
  }

  predicate ThreadLocksMutex(s: State) {
    s.thread.Entering? || s.thread.Relocking?
  }

  predicate ThreadUnlocksMutex(s: State) {
    s.thread.Polling? || s.thread.Locked?
  }

  /** A callback that is inside a library call cannot return. */
  predicate ThreadReady(s: State) {
    && (ThreadLocksMutex(s) ==> s.mutex == Free)
    && (s.thread.Removed? ==> s.completed == Free)
    && (s.thread.Calling? ==> PcOf(s.pcs, Callback).Idle?)
    && !s.thread.Exited?
  }

  function ThreadNext(s: State): ThreadPc {
    match s.thread
    case Waiting => if s.quit then Exited else Entering
    case Entering => Polling
    case Polling => if s.active == map[] then Exited else Waiting
    case Removed(r) => Locked(r)
    case Locked(r) => Calling(r)
    case Calling(r) => Returned(r)
    case Returned(r) => Relocking
    case Relocking => Polling
    case Exited => Exited
  }

  function ThreadStep(s: State): State {
    s.(thread := ThreadNext(s),
       mutex := Lock(s.mutex, TheThread, ThreadLocksMutex(s), ThreadUnlocksMutex(s)),
       completed := Lock(s.completed, TheThread, s.thread.Removed?, s.thread.Returned?),
       exiting := s.exiting || (s.thread.Polling? && s.active == map[]))
  }

  predicate LocksDns(pc: Pc) {
    pc.CancelLocksDns? || pc.ResolveLocksDns?
  }

  predicate UnlocksDns(pc: Pc) {
    pc.CancelUnlocksDns? || pc.ResolveUnlocksDns?
  }

  predicate LocksMutex(pc: Pc) {
    pc.CancelLocksMutex? || pc.ResolveLocksMutex? || pc.ResolveLocksMutexAgain?
  }

  predicate UnlocksMutex(pc: Pc) {
    pc.CancelUnlocksMutex? || pc.ResolveChecks? || pc.ResolveInserts?
  }

  predicate Ready(s: State, pc: Pc) {
    && (LocksDns(pc) ==> s.dns == Free)
    && (LocksMutex(pc) ==> s.mutex == Free)
    && (pc.CancelLocksCompleted? ==> s.completed == Free)
    && !pc.Idle? && !pc.CancelReturned?
  }

  /** The number of the request of h whose callback is under way. */
  function Over(s: State, h: Hnr): Option<nat> {
    if PendingFor(s, h) then Some(Pending(s).value.serial) else None
  }

  function NextPc(s: State, pc: Pc): Pc {
    match pc
    case Idle => Idle
    case CancelLocksDns(h) => CancelLocksMutex(h)
    case CancelLocksMutex(h) => CancelRemoves(h)
    case CancelRemoves(h) =>
      if h in s.active then CancelUnlocksMutex(h, true, s.next, Over(s, h)) else CancelLocksCompleted(h, s.next)
    case CancelLocksCompleted(h, bound) => CancelUnlocksCompleted(h, bound)
    case CancelUnlocksCompleted(h, bound) => CancelUnlocksMutex(h, false, bound, None)
    case CancelUnlocksMutex(h, ret, bound, over) => CancelUnlocksDns(h, ret, bound, over)
    case CancelUnlocksDns(h, ret, bound, over) => CancelReturned(h, ret, bound, over)
    case CancelReturned(h, ret, bound, over) => pc
    case ResolveLocksDns(h) => ResolveLocksMutex(h)
    case ResolveLocksMutex(h) => ResolveChecks(h)
    case ResolveChecks(h) => if h in s.active || s.exiting then ResolveUnlocksDns(h) else ResolveLocksMutexAgain(h)
    case ResolveLocksMutexAgain(h) => ResolveInserts(h)
    case ResolveInserts(h) => ResolveUnlocksDns(h)
    case ResolveUnlocksDns(h) => Idle
  }

  function ActiveAfter(s: State, pc: Pc): map<Hnr, nat> {
    if pc.CancelRemoves? then s.active - {pc.h}
    else if pc.ResolveInserts? then s.active[pc.h := s.next]
    else s.active
  }

  function CallerStep(s: State, c: Caller): State {
    var pc := PcOf(s.pcs, c);
    s.(pcs := s.pcs[c := NextPc(s, pc)],
       dns := Lock(s.dns, By(c), LocksDns(pc), UnlocksDns(pc)),
       mutex := Lock(s.mutex, By(c), LocksMutex(pc), UnlocksMutex(pc)),
       completed := Lock(s.completed, By(c), pc.CancelLocksCompleted?, pc.CancelUnlocksCompleted?),
       active := ActiveAfter(s, pc),
       next := if pc.ResolveInserts? then s.next + 1 else s.next,
       quit := s.quit || (pc.CancelRemoves? && ActiveAfter(s, pc) == map[]))
  }

  /** A callback may start a call only while it runs. */
  predicate MayStart(s: State, c: Caller) {
    (PcOf(s.pcs, c).Idle? || PcOf(s.pcs, c).CancelReturned?) && (c == Callback ==> s.thread.Calling?)
  }

  function Step(s: State, a: Act): Option<State> {
    match a
    case ThreadSteps => if ThreadReady(s) then Some(ThreadStep(s)) else None
    case ThreadCompletes(h) =>
      if s.thread.Polling? && h in s.active
      then Some(s.(thread := Removed(Req(h, s.active[h])), active := s.active - {h})) else None
    case StartCancel(c, h) => if MayStart(s, c) then Some(s.(pcs := s.pcs[c := CancelLocksDns(h)])) else None
    case StartResolve(c, h) => if MayStart(s, c) then Some(s.(pcs := s.pcs[c := ResolveLocksDns(h)])) else None
    case CallerSteps(c) => if Ready(s, PcOf(s.pcs, c)) then Some(CallerStep(s, c)) else None
    case Forget(c) => if PcOf(s.pcs, c).CancelReturned? then Some(s.(pcs := s.pcs[c := Idle])) else None
  }

  datatype Run = Begin | Did(before: Run, a: Act)

  function Exec(run: Run): Option<State> {
    match run
    case Begin => Some(INITIAL)
    case Did(before, a) =>
      var s := Exec(before);
      if s.None? then None else Step(s.value, a)
  }

  // ---------- who holds what ----------

  predicate HoldsDns(pc: Pc) {
    !pc.Idle? && !pc.CancelLocksDns? && !pc.CancelReturned? && !pc.ResolveLocksDns?
  }

  predicate HoldsMutex(pc: Pc) {
    || pc.CancelRemoves? || pc.CancelLocksCompleted? || pc.CancelUnlocksCompleted? || pc.CancelUnlocksMutex?
    || pc.ResolveChecks? || pc.ResolveInserts?
  }

  predicate HoldsCompleted(pc: Pc) {
    pc.CancelUnlocksCompleted?
  }

  predicate ThreadHoldsMutex(t: ThreadPc) {
    t.Polling? || t.Removed? || t.Locked?
  }

  predicate ThreadHoldsCompleted(t: ThreadPc) {
    t.Locked? || t.Calling? || t.Returned?
  }

  /** Each mutex is held by the one thread whose program counter says so. */
  ghost predicate DnsHeld(s: State) {
    s.dns != TheThread && forall c :: s.dns == By(c) <==> HoldsDns(PcOf(s.pcs, c))
  }

  ghost predicate MutexHeld(s: State) {
    && (s.mutex == TheThread <==> ThreadHoldsMutex(s.thread))
    && (forall c :: s.mutex == By(c) <==> HoldsMutex(PcOf(s.pcs, c)))
  }

  ghost predicate CompletedHeld(s: State) {
    && (s.completed == TheThread <==> ThreadHoldsCompleted(s.thread))
    && (forall c :: s.completed == By(c) <==> HoldsCompleted(PcOf(s.pcs, c)))
  }

  ghost predicate Numbered(s: State) {
    && (forall h :: h in s.active ==> s.active[h] < s.next)
    && (Pending(s).Some? ==> Pending(s).value.serial < s.next)
  }

  ghost predicate Locks(s: State) {
    DnsHeld(s) && MutexHeld(s) && CompletedHeld(s) && Numbered(s)
  }

  function Mover(s: State, a: Act): Caller {
    match a
    case StartCancel(c, _) => c
    case StartResolve(c, _) => c
    case CallerSteps(c) => c
    case Forget(c) => c
    case _ => Callback
  }

  function MoverPc(s: State, a: Act): Pc {
    match a
    case StartCancel(_, h) => CancelLocksDns(h)
    case StartResolve(_, h) => ResolveLocksDns(h)
    case CallerSteps(c) => NextPc(s, PcOf(s.pcs, c))
    case Forget(_) => Idle
    case _ => PcOf(s.pcs, Callback)
  }

  lemma PcsAfter(s: State, a: Act)
    requires Step(s, a).Some?
    ensures forall d :: d != Mover(s, a) ==> PcOf(Step(s, a).value.pcs, d) == PcOf(s.pcs, d)
    ensures PcOf(Step(s, a).value.pcs, Mover(s, a)) == MoverPc(s, a)
  {
    hide Lock, NextPc, ActiveAfter, ThreadNext, LocksDns, LocksMutex, UnlocksDns, UnlocksMutex, Ready, ThreadReady;
  }

  /** A step of a caller changes what it holds by the lock operation it performs. */
  lemma HoldsAfter(s: State, pc: Pc)
    ensures HoldsDns(NextPc(s, pc)) <==> (HoldsDns(pc) || LocksDns(pc)) && !UnlocksDns(pc)
    ensures HoldsMutex(NextPc(s, pc)) <==> (HoldsMutex(pc) || LocksMutex(pc)) && !UnlocksMutex(pc)
    ensures HoldsCompleted(NextPc(s, pc)) <==> pc.CancelLocksCompleted?
    ensures UnlocksDns(pc) ==> HoldsDns(pc)
    ensures UnlocksMutex(pc) ==> HoldsMutex(pc)
    ensures LocksDns(pc) ==> !HoldsDns(pc)
    ensures LocksMutex(pc) ==> !HoldsMutex(pc)
  {
  }

  lemma StepDns(s: State, a: Act)
    requires DnsHeld(s) && Step(s, a).Some?
    ensures DnsHeld(Step(s, a).value)
  {
    hide ActiveAfter, ThreadNext, NextPc, HoldsDns, LocksDns, UnlocksDns, LocksMutex, UnlocksMutex, HoldsMutex;
    hide ThreadReady, ThreadLocksMutex, ThreadUnlocksMutex, PcOf;
    PcsAfter(s, a);
    var c := Mover(s, a);
    HoldsAfter(s, PcOf(s.pcs, c));
    assert s.dns == By(c) <==> HoldsDns(PcOf(s.pcs, c));
    if a.StartCancel? || a.StartResolve? || a.Forget? {
      NotHeldAtRest(s, a);
    }
  }

  lemma NotHeldAtRest(s: State, a: Act)
    requires Step(s, a).Some? && (a.StartCancel? || a.StartResolve? || a.Forget?)
    ensures var before, after := PcOf(s.pcs, Mover(s, a)), MoverPc(s, a);
            && !HoldsDns(before) && !HoldsMutex(before) && !HoldsCompleted(before)
            && !HoldsDns(after) && !HoldsMutex(after) && !HoldsCompleted(after)
  {
  }

  lemma StepMutex(s: State, a: Act)
    requires MutexHeld(s) && Step(s, a).Some?
    ensures MutexHeld(Step(s, a).value)
  {
    hide ActiveAfter, NextPc, HoldsDns, LocksDns, UnlocksDns, LocksMutex, UnlocksMutex, HoldsMutex, PcOf;
    PcsAfter(s, a);
    var c := Mover(s, a);
    HoldsAfter(s, PcOf(s.pcs, c));
    assert s.mutex == By(c) <==> HoldsMutex(PcOf(s.pcs, c));
    if a.StartCancel? || a.StartResolve? || a.Forget? {
      NotHeldAtRest(s, a);
    }
  }

  lemma StepCompleted(s: State, a: Act)
    requires CompletedHeld(s) && Step(s, a).Some?
    ensures CompletedHeld(Step(s, a).value)
  {
    hide ActiveAfter, NextPc, HoldsDns, LocksDns, UnlocksDns, LocksMutex, UnlocksMutex, HoldsMutex, PcOf;
    PcsAfter(s, a);
    var c := Mover(s, a);
    HoldsAfter(s, PcOf(s.pcs, c));
    assert s.completed == By(c) <==> HoldsCompleted(PcOf(s.pcs, c));
    if a.StartCancel? || a.StartResolve? || a.Forget? {
      NotHeldAtRest(s, a);
    }
  }

  lemma StepNumbered(s: State, a: Act)
    requires Numbered(s) && Step(s, a).Some?
    ensures Numbered(Step(s, a).value) && s.next <= Step(s, a).value.next
  {
    hide PcOf;
  }

  lemma {:induction false} RunLocks(run: Run)
    requires Exec(run).Some?
    ensures Locks(Exec(run).value)
    decreases run
  {
    hide Step;
    if run.Begin? {
    } else {
      RunLocks(run.before);
      var s := Exec(run.before).value;
      StepDns(s, run.a);
      StepMutex(s, run.a);
      StepCompleted(s, run.a);
      StepNumbered(s, run.a);
    }
  }

  // ---------- no callback after cancel ----------

  /** No request of h among the first bound is active. */
  predicate NoneActive(s: State, h: Hnr, bound: nat) {
    bound <= s.next && (h in s.active ==> s.active[h] >= bound)
  }

  /** No callback for a request of h among the first bound runs or will run before it is active again. */
  predicate NonePending(s: State, h: Hnr, bound: nat) {
    PendingFor(s, h) ==> Pending(s).value.serial >= bound
  }

  /** The callback that was under way at the removal still is. */
  predicate StillOver(s: State, h: Hnr, over: Option<nat>) {
    over.Some? && Pending(s) == Some(Req(h, over.value))
  }

  predicate QuietUnless(over: Option<nat>, ret: bool, s: State, h: Hnr, bound: nat) {
    && NoneActive(s, h, bound)
    && (over.Some? ==> ret && over.value < bound)
    && (NonePending(s, h, bound) <==> !StillOver(s, h, over))
  }

  /** What a cancel that passed its removal can rely on. */
  predicate Quiet(s: State, pc: Pc) {
    match pc
    case CancelLocksCompleted(h, bound) => NoneActive(s, h, bound)
    case CancelUnlocksCompleted(h, bound) => NoneActive(s, h, bound) && NonePending(s, h, bound)
    case CancelUnlocksMutex(h, ret, bound, over) => QuietUnless(over, ret, s, h, bound)
    case CancelUnlocksDns(h, ret, bound, over) => QuietUnless(over, ret, s, h, bound)
    case CancelReturned(h, ret, bound, over) => QuietUnless(over, ret, s, h, bound)
    case _ => true
  }

  /** Silence lasts: whatever happens next, no old request becomes active or pending again. */
  lemma SilenceLasts(s: State, a: Act, h: Hnr, bound: nat)
    requires Step(s, a).Some? && NoneActive(s, h, bound)
    ensures NoneActive(Step(s, a).value, h, bound)
    ensures NonePending(s, h, bound) ==> NonePending(Step(s, a).value, h, bound)
  {
    hide PcOf, Lock, Ready, NextPc;
  }

  /** A callback under way ends before another one begins. */
  lemma PendingLasts(s: State, a: Act)
    requires Step(s, a).Some? && Pending(s).Some?
    ensures Pending(Step(s, a).value).None? || Pending(Step(s, a).value) == Pending(s)
  {
    hide PcOf, Lock, Ready, NextPc;
  }

  lemma QuietLasts(s: State, a: Act, pc: Pc)
    requires Step(s, a).Some? && Quiet(s, pc)
    ensures Quiet(Step(s, a).value, pc)
  {
    hide Step, NoneActive;
    if pc.CancelLocksCompleted? || pc.CancelUnlocksCompleted? || pc.CancelUnlocksMutex? || pc.CancelUnlocksDns?
       || pc.CancelReturned? {
      SilenceLasts(s, a, pc.h, pc.bound);
      if Pending(s).Some? {
        PendingLasts(s, a);
      }
    }
  }

  lemma NothingPending(s: State, c: Caller)
    requires MutexHeld(s) && CompletedHeld(s) && s.mutex == By(c) && s.completed == Free
    ensures Pending(s).None?
  {
  }

  lemma QuietMover(s: State, a: Act)
    requires Locks(s) && Step(s, a).Some? && Quiet(s, PcOf(s.pcs, Mover(s, a)))
    ensures Quiet(Step(s, a).value, MoverPc(s, a))
  {
    hide PcOf, DnsHeld, CompletedHeld, MutexHeld;
    var c := Mover(s, a);
    var pc := PcOf(s.pcs, c);
    if a.CallerSteps? {
      if pc.CancelLocksCompleted? {
        MutexOf(s, c);
        NothingPending(s, c);
      }
    } else {
      hide Step;
      QuietLasts(s, a, pc);
    }
  }

  lemma MutexOf(s: State, c: Caller)
    requires MutexHeld(s) && HoldsMutex(PcOf(s.pcs, c))
    ensures s.mutex == By(c)
  {
  }

  lemma {:induction false} AllQuiet(run: Run, c: Caller)
    requires Exec(run).Some?
    ensures Quiet(Exec(run).value, PcOf(Exec(run).value.pcs, c))
    decreases run
  {
    hide Step, Quiet, MoverPc, Locks;
    if run.Begin? {
      QuietAtFirst(c);
    } else {
      var s, t := Exec(run.before).value, Exec(run).value;
      RunLocks(run.before);
      AllQuiet(run.before, c);
      PcsAfter(s, run.a);
      if c == Mover(s, run.a) {
        QuietMover(s, run.a);
      } else {
        QuietLasts(s, run.a, PcOf(s.pcs, c));
      }
    }
  }

  lemma QuietAtFirst(c: Caller)
    ensures Quiet(INITIAL, PcOf(INITIAL.pcs, c))
  {
  }

  predicate HasOver(pc: Pc) {
    (pc.CancelUnlocksMutex? || pc.CancelUnlocksDns? || pc.CancelReturned?) && pc.over.Some?
  }

  /** The step accepts a request of a resolver whose callback is under way. */
  predicate Overlaps(s: State, a: Act) {
    a.CallerSteps? && PcOf(s.pcs, a.c).ResolveInserts? && PendingFor(s, PcOf(s.pcs, a.c).h)
  }

  /** No resolver is resolved again while its callback is under way. */
  predicate Separate(run: Run) {
    run.Did? ==> Separate(run.before) && (Exec(run.before).Some? ==> !Overlaps(Exec(run.before).value, run.a))
  }

  predicate PendingInactive(s: State) {
    Pending(s).Some? ==> Pending(s).value.h !in s.active
  }

  lemma SeparateStep(s: State, a: Act)
    requires Step(s, a).Some? && PendingInactive(s) && !Overlaps(s, a)
    ensures PendingInactive(Step(s, a).value)
    ensures HasOver(MoverPc(s, a)) ==> HasOver(PcOf(s.pcs, Mover(s, a)))
  {
    hide PcOf, Lock, Ready;
  }

  lemma {:induction false} SeparateRun(run: Run, c: Caller)
    requires Exec(run).Some? && Separate(run)
    ensures PendingInactive(Exec(run).value) && !HasOver(PcOf(Exec(run).value.pcs, c))
    decreases run
  {
    hide Step, MoverPc, Overlaps, PendingInactive, HasOver;
    if run.Begin? {
      SeparateAtFirst(c);
    } else {
      var s := Exec(run.before).value;
      SeparateRun(run.before, c);
      SeparateRun(run.before, Mover(s, run.a));
      SeparateStep(s, run.a);
      PcsAfter(s, run.a);
    }
  }

  lemma SeparateAtFirst(c: Caller)
    ensures PendingInactive(INITIAL) && !HasOver(PcOf(INITIAL.pcs, c))
  {
  }

  /** In every interleaving: once cancel returned, none of the requests that existed is active; after a false
      return none of their callbacks runs or will run; and after a true return neither, unless the resolver
      was resolved again while its callback was under way. */
  lemma CancelIsQuiet(run: Run, c: Caller)
    requires Exec(run).Some? && PcOf(Exec(run).value.pcs, c).CancelReturned?
    ensures var s, pc := Exec(run).value, PcOf(Exec(run).value.pcs, c);
            && NoneActive(s, pc.h, pc.bound)
            && (!pc.ret || Separate(run) ==> NonePending(s, pc.h, pc.bound))
  {
    hide Exec, Separate, Step, PcOf, NonePending, NoneActive, Pending;
    AllQuiet(run, c);
    if Separate(run) {
      SeparateRun(run, c);
    }
  }

  /** Over every run and for every cancel that returned: an earlier callback is running or sure to run iff it is the
      one that was under way when cancel removed another request of the same resolver. */
  lemma QuietExactly(run: Run, c: Caller)
    requires Exec(run).Some? && PcOf(Exec(run).value.pcs, c).CancelReturned?
    ensures var s, pc := Exec(run).value, PcOf(Exec(run).value.pcs, c);
            && (!NonePending(s, pc.h, pc.bound) <==> pc.over.Some? && Pending(s) == Some(Req(pc.h, pc.over.value)))
            && (pc.over.Some? ==> pc.ret && pc.over.value < pc.bound)
  {
    hide Exec, Step, PcOf, NonePending, NoneActive, Pending;
    AllQuiet(run, c);
  }

  // ---------- no request is lost ----------

  predicate Inserting(pc: Pc) {
    pc.ResolveLocksMutexAgain? || pc.ResolveInserts?
  }

  /** A caller that passed the check of resolve finds its resolver inactive until it inserts. */
  predicate ClearAhead(s: State, c: Caller) {
    Inserting(PcOf(s.pcs, c)) ==> PcOf(s.pcs, c).h !in s.active
  }

  lemma InsertingHoldsDns(s: State, c: Caller, d: Caller)
    requires DnsHeld(s) && Inserting(PcOf(s.pcs, c)) && PcOf(s.pcs, d).ResolveInserts?
    ensures c == d
  {
    hide PcOf;
    assert s.dns == By(c) <==> HoldsDns(PcOf(s.pcs, c));
    assert s.dns == By(d) <==> HoldsDns(PcOf(s.pcs, d));
  }

  lemma ClearStep(s: State, a: Act, c: Caller)
    requires Locks(s) && Step(s, a).Some? && ClearAhead(s, c)
    ensures ClearAhead(Step(s, a).value, c)
  {
    hide PcOf, Lock, MutexHeld, CompletedHeld, Numbered, Ready, ThreadReady, MayStart, DnsHeld;
    PcsAfter(s, a);
    if a.CallerSteps? && PcOf(s.pcs, a.c).ResolveInserts? && Inserting(PcOf(s.pcs, c)) {
      InsertingHoldsDns(s, c, a.c);
    }
  }

  lemma {:induction false} AlwaysClear(run: Run, c: Caller)
    requires Exec(run).Some?
    ensures ClearAhead(Exec(run).value, c)
    decreases run
  {
    hide Step, Locks, ClearAhead;
    if run.Begin? {
      ClearAtFirst(c);
    } else {
      RunLocks(run.before);
      AlwaysClear(run.before, c);
      ClearStep(Exec(run.before).value, run.a, c);
    }
  }

  lemma ClearAtFirst(c: Caller)
    ensures ClearAhead(INITIAL, c)
  {
  }

  /** In every interleaving, although resolve frees the thread's mutex between its check and its insertion: an active
      request stays active, with its number, until its resolver's cancel removes it or the thread takes it up; no other
      resolve replaces it. */
  lemma ActiveLasts(run: Run, a: Act, h: Hnr)
    requires Exec(Did(run, a)).Some? && h in Exec(run).value.active
    requires !(a.CallerSteps? && PcOf(Exec(run).value.pcs, a.c) == CancelRemoves(h)) && a != ThreadCompletes(h)
    ensures h in Exec(Did(run, a)).value.active
    ensures Exec(Did(run, a)).value.active[h] == Exec(run).value.active[h]
  {
    hide PcOf, Lock, Locks, Ready, NextPc;
    if a.CallerSteps? {
      AlwaysClear(run, a.c);
    }
  }

  /** A resolve that finds its resolver active, or the thread exiting, leaves the requests as they are; otherwise it
      goes on to insert. */
  lemma ResolveRefuses(s: State, c: Caller, h: Hnr)
    requires PcOf(s.pcs, c) == ResolveChecks(h)
    ensures Step(s, CallerSteps(c)).Some? && Step(s, CallerSteps(c)).value.active == s.active
    ensures Inserting(PcOf(Step(s, CallerSteps(c)).value.pcs, c)) <==> h !in s.active && !s.exiting
  {
    hide PcOf, Lock;
    PcsAfter(s, CallerSteps(c));
  }

  /** The thread is told to quit exactly by a cancel that leaves nothing active. */
  lemma QuitExactly(s: State, a: Act)
    requires Step(s, a).Some? && !s.quit
    ensures Step(s, a).value.quit <==>
            a.CallerSteps? && PcOf(s.pcs, a.c).CancelRemoves? && Step(s, a).value.active == map[]
  {
    hide PcOf, Lock, NextPc, Ready;
  }

  // ---------- deadlock ----------

  predicate NoReentry(run: Run) {
    run.Did? ==> NoReentry(run.before) && !(run.a.StartCancel? && run.a.c == Callback)
                 && !(run.a.StartResolve? && run.a.c == Callback)
  }

  predicate ThreadBusy(s: State) {
    !s.thread.Waiting? && !s.thread.Exited?
  }

  predicate CallerBusy(s: State, c: Caller) {
    !PcOf(s.pcs, c).Idle? && !PcOf(s.pcs, c).CancelReturned?
  }

  predicate CallerMoves(s: State, c: Caller) {
    Ready(s, PcOf(s.pcs, c))
  }

  /** The thread steps on, or its callback has left the library and is about to return. */
  predicate ThreadMoves(s: State) {
    ThreadReady(s) || (s.thread.Calling? && PcOf(s.pcs, Callback).CancelReturned?)
  }

  /** Someone is inside the library, and no one who is can take a step. */
  ghost predicate Deadlocked(s: State) {
    && (ThreadBusy(s) || exists c :: CallerBusy(s, c))
    && (ThreadBusy(s) ==> !ThreadMoves(s))
    && (forall c :: CallerBusy(s, c) ==> !CallerMoves(s, c))
  }

  lemma {:induction false} CallbackIdle(run: Run)
    requires Exec(run).Some? && NoReentry(run)
    ensures PcOf(Exec(run).value.pcs, Callback).Idle?
    decreases run
  {
    hide Step, NextPc;
    if run.Begin? {
    } else {
      var s, t := Exec(run.before).value, Exec(run).value;
      CallbackIdle(run.before);
      PcsAfter(s, run.a);
      IdleStays(s, run.a);
    }
  }

  lemma IdleStays(s: State, a: Act)
    requires Step(s, a).Some? && PcOf(s.pcs, Callback).Idle?
    requires !(a.StartCancel? && a.c == Callback) && !(a.StartResolve? && a.c == Callback)
    ensures Mover(s, a) == Callback ==> MoverPc(s, a).Idle?
  {
    hide NextPc, Lock;
  }

  lemma CompletedNeedsMutex(s: State)
    requires MutexHeld(s) && CompletedHeld(s)
    ensures s.completed.By? ==> s.mutex == s.completed
  {
    assert s.completed.By? ==> HoldsCompleted(PcOf(s.pcs, s.completed.c));
  }

  /** Whoever holds the thread's mutex can move, or the thread can. */
  lemma MutexHolderMoves(s: State, c: Caller)
    requires Locks(s) && PcOf(s.pcs, Callback).Idle? && s.mutex == By(c)
    ensures CallerBusy(s, c) && (CallerMoves(s, c) || (ThreadBusy(s) && ThreadReady(s)))
  {
    hide DnsHeld, Numbered, PcOf;
    assert HoldsMutex(PcOf(s.pcs, c));
    assert s.completed == By(c) ==> HoldsCompleted(PcOf(s.pcs, c));
    CompletedNeedsMutex(s);
  }

  lemma ThreadNotStuck(s: State)
    requires Locks(s) && PcOf(s.pcs, Callback).Idle? && ThreadBusy(s) && !ThreadReady(s)
    ensures s.mutex.By?
  {
    hide DnsHeld, Numbered, PcOf;
    CompletedNeedsMutex(s);
  }

  lemma CallerNotStuck(s: State, c: Caller) returns (d: Caller)
    requires Locks(s) && PcOf(s.pcs, Callback).Idle? && CallerBusy(s, c) && !CallerMoves(s, c)
    ensures (CallerBusy(s, d) && CallerMoves(s, d)) || s.mutex.By? || ThreadBusy(s)
  {
    hide Numbered;
    d := c;
    if s.dns.By? {
      d := s.dns.c;
      assert HoldsDns(PcOf(s.pcs, d));
      if PcOf(s.pcs, d).CancelLocksCompleted? {
        assert s.mutex == By(d);
      }
    }
    if PcOf(s.pcs, c).CancelLocksCompleted? {
      assert s.mutex == By(c);
    }
  }

  lemma NotDeadlocked(s: State)
    requires Locks(s) && PcOf(s.pcs, Callback).Idle?
    ensures !Deadlocked(s)
  {
    hide Locks, PcOf, ThreadReady, CallerMoves, CallerBusy, ThreadBusy;
    if Deadlocked(s) {
      if ThreadBusy(s) {
        ThreadNotStuck(s);
      } else {
        var c :| CallerBusy(s, c);
        var d := CallerNotStuck(s, c);
      }
      MutexHolderMoves(s, s.mutex.c);
    }
  }

  /** The callback is inside the library only while the thread is inside the callback. */
  predicate InCallback(s: State) {
    !PcOf(s.pcs, Callback).Idle? ==> s.thread.Calling?
  }

  lemma InCallbackStep(s: State, a: Act)
    requires Step(s, a).Some? && InCallback(s)
    ensures s.thread.Calling? && !Step(s, a).value.thread.Calling? ==> Mover(s, a) == Callback && MoverPc(s, a).Idle?
    ensures Mover(s, a) == Callback && !MoverPc(s, a).Idle? ==> Step(s, a).value.thread.Calling?
  {
    hide PcOf, Lock, Ready;
  }

  lemma {:induction false} CallbackInCallback(run: Run)
    requires Exec(run).Some?
    ensures InCallback(Exec(run).value)
    decreases run
  {
    hide Step, NextPc, MoverPc;
    if run.Begin? {
    } else {
      var s := Exec(run.before).value;
      CallbackInCallback(run.before);
      PcsAfter(s, run.a);
      InCallbackStep(s, run.a);
    }
  }

  /** While the callback runs, c waits for it to end, and it waits for c: either c is the callback itself, or the
      callback wants dns::mutex, which c holds. */
  predicate WaitsForCallback(s: State, c: Caller) {
    PcOf(s.pcs, c).CancelLocksCompleted? && (c == Callback || LocksDns(PcOf(s.pcs, Callback)))
  }

  ghost predicate Entangled(s: State) {
    s.thread.Calling? && exists c :: WaitsForCallback(s, c)
  }

  lemma HolderBlocksAll(s: State, c: Caller, d: Caller)
    requires Locks(s) && s.thread.Calling? && PcOf(s.pcs, c).CancelLocksCompleted? && CallerBusy(s, d)
    ensures !CallerMoves(s, d)
  {
    hide PcOf, Numbered;
    assert s.dns == By(c) <==> HoldsDns(PcOf(s.pcs, c));
    assert s.mutex == By(c) <==> HoldsMutex(PcOf(s.pcs, c));
    assert s.dns == By(d) <==> HoldsDns(PcOf(s.pcs, d));
  }

  lemma EntangledIsDeadlocked(s: State)
    requires Locks(s) && Entangled(s)
    ensures Deadlocked(s)
  {
    hide Locks, PcOf, CallerBusy, CallerMoves;
    var c :| WaitsForCallback(s, c);
    forall d | CallerBusy(s, d)
      ensures !CallerMoves(s, d)
    {
      HolderBlocksAll(s, c, d);
    }
  }

  /** Who blocks a callback that is inside the library. */
  lemma CallbackBlockedBy(s: State) returns (c: Caller)
    requires Locks(s) && s.thread.Calling? && CallerBusy(s, Callback) && !CallerMoves(s, Callback)
    ensures PcOf(s.pcs, Callback).CancelLocksCompleted? ==> c == Callback
    ensures !PcOf(s.pcs, Callback).CancelLocksCompleted? ==>
              LocksDns(PcOf(s.pcs, Callback)) && s.dns == By(c) && HoldsDns(PcOf(s.pcs, c))
  {
    hide PcOf, Numbered;
    c := Callback;
    assert s.dns == By(Callback) <==> HoldsDns(PcOf(s.pcs, Callback));
    if LocksDns(PcOf(s.pcs, Callback)) {
      c := s.dns.c;
      assert HoldsDns(PcOf(s.pcs, c));
    } else if LocksMutex(PcOf(s.pcs, Callback)) {
      assert s.mutex.By? ==> HoldsMutex(PcOf(s.pcs, s.mutex.c));
    }
  }

  /** A holder of dns::mutex that cannot move while a callback runs is waiting for the callback. */
  lemma HolderBlocked(s: State, c: Caller)
    requires Locks(s) && s.thread.Calling? && s.dns == By(c) && !CallerMoves(s, c)
    ensures PcOf(s.pcs, c).CancelLocksCompleted?
  {
    hide PcOf, Numbered;
    assert HoldsDns(PcOf(s.pcs, c));
    if LocksMutex(PcOf(s.pcs, c)) {
      assert s.mutex.By? ==> HoldsMutex(PcOf(s.pcs, s.mutex.c)) && HoldsDns(PcOf(s.pcs, s.mutex.c));
    }
  }

  lemma DeadlockedIsEntangled(s: State)
    requires Locks(s) && InCallback(s) && Deadlocked(s)
    ensures Entangled(s)
  {
    hide Locks, PcOf, CallerMoves, Ready;
    if PcOf(s.pcs, Callback).Idle? {
      NotDeadlocked(s);
    } else {
      var c := CallbackBlockedBy(s);
      if c != Callback {
        HolderIsBusy(s, c);
        HolderBlocked(s, c);
      }
      assert WaitsForCallback(s, c);
    }
  }

  lemma HolderIsBusy(s: State, c: Caller)
    requires HoldsDns(PcOf(s.pcs, c))
    ensures CallerBusy(s, c)
  {
  }

  /** In every reachable state: the hand-off is deadlocked iff the thread is in a callback and someone in cancel waits
      for it to end, namely the callback itself, or a caller that holds the mutex the callback asks for. */
  lemma DeadlockExactly(run: Run)
    requires Exec(run).Some?
    ensures Deadlocked(Exec(run).value) <==> Entangled(Exec(run).value)
  {
    hide Exec, Deadlocked, Entangled, Locks;
    RunLocks(run);
    CallbackInCallback(run);
    if Deadlocked(Exec(run).value) {
      DeadlockedIsEntangled(Exec(run).value);
    } else if Entangled(Exec(run).value) {
      EntangledIsDeadlocked(Exec(run).value);
    }
  }

  /** No step undoes it. */
  lemma DeadlockLasts(run: Run, a: Act)
    requires Exec(Did(run, a)).Some? && Deadlocked(Exec(run).value)
    ensures Deadlocked(Exec(Did(run, a)).value)
  {
    hide Deadlocked, Locks, Step;
    RunLocks(run);
    RunLocks(Did(run, a));
    DeadlockExactly(run);
    EntangledStays(Exec(run).value, a);
    DeadlockExactly(Did(run, a));
  }

  lemma EntangledStays(s: State, a: Act)
    requires Locks(s) && Entangled(s) && Step(s, a).Some?
    ensures Entangled(Step(s, a).value)
  {
    hide PcOf, Step, NextPc, ActiveAfter, Lock, Locks;
    var c :| WaitsForCallback(s, c);
    PcsAfter(s, a);
    BlockedStep(s, a, c);
    assert WaitsForCallback(Step(s, a).value, c);
  }

  lemma BlockedStep(s: State, a: Act, c: Caller)
    requires Locks(s) && s.thread.Calling? && WaitsForCallback(s, c) && Step(s, a).Some?
    ensures Step(s, a).value.thread.Calling?
    ensures a.ThreadSteps? || a.ThreadCompletes? || (Mover(s, a) != c && Mover(s, a) != Callback)
  {
    hide PcOf, Numbered, NextPc, ActiveAfter, Lock;
    assert s.dns == By(c) <==> HoldsDns(PcOf(s.pcs, c));
  }

  /** Calls a callback should not make: a cancel with nothing to remove deadlocks, and at its removal no other does. */
  lemma CallbackCancelExactly(run: Run, h: Hnr)
    requires Exec(run).Some? && PcOf(Exec(run).value.pcs, Callback) == CancelRemoves(h)
    ensures var after := Exec(Did(run, CallerSteps(Callback)));
            after.Some? && (Deadlocked(after.value) <==> h !in Exec(run).value.active)
  {
    hide Deadlocked, Locks, Step, InCallback, Entangled;
    var s := Exec(run).value;
    RunLocks(run);
    CallbackInCallback(run);
    RemovalEntangles(s, h);
    DeadlockExactly(Did(run, CallerSteps(Callback)));
  }

  lemma RemovalEntangles(s: State, h: Hnr)
    requires Locks(s) && InCallback(s) && PcOf(s.pcs, Callback) == CancelRemoves(h)
    ensures var t := CallerStep(s, Callback);
            Step(s, CallerSteps(Callback)) == Some(t) && (Entangled(t) <==> h !in s.active)
  {
    hide PcOf, Numbered, ActiveAfter;
    var t := CallerStep(s, Callback);
    PcsAfter(s, CallerSteps(Callback));
    if h in s.active {
      forall c
        ensures !WaitsForCallback(t, c)
      {
        assert s.dns == By(Callback) <==> HoldsDns(PcOf(s.pcs, Callback));
      }
    } else {
      assert WaitsForCallback(t, Callback);
    }
  }

  /** So callbacks that keep out of the library never deadlock. */
  lemma NoReentryNoDeadlock(run: Run)
    requires Exec(run).Some? && NoReentry(run)
    ensures !Deadlocked(Exec(run).value)
  {
    hide Exec, Deadlocked, Locks;
    RunLocks(run);
    CallbackIdle(run);
    NotDeadlocked(Exec(run).value);
  }

  // ---------- concrete runs ----------

  function Put(s: State, c: Caller, pc: Pc, dns: Owner, mutex: Owner): State {
    s.(pcs := s.pcs[c := pc], dns := dns, mutex := mutex)
  }

  /** One step of a caller that takes or frees dns::mutex or the thread's mutex and nothing else. */
  lemma PutStep(run: Run, s: State, c: Caller, pc: Pc, dns: Owner, mutex: Owner)
    requires Exec(run) == Some(Put(s, c, pc, dns, mutex)) && Ready(Put(s, c, pc, dns, mutex), pc)
    requires !pc.CancelRemoves? && !pc.ResolveInserts? && !pc.CancelLocksCompleted? && !pc.CancelUnlocksCompleted?
    ensures Exec(Did(run, CallerSteps(c))) ==
            Some(Put(s, c, NextPc(s, pc), Lock(dns, By(c), LocksDns(pc), UnlocksDns(pc)),
                     Lock(mutex, By(c), LocksMutex(pc), UnlocksMutex(pc))))
  {
    var p, n := Put(s, c, pc, dns, mutex), NextPc(s, pc);
    assert PcOf(p.pcs, c) == pc && NextPc(p, pc) == n;
    assert p.pcs[c := n] == s.pcs[c := n];
  }

  /** resolve(h) by a caller, up to its second wait for the thread's mutex; and to its end. */
  function ResolveHalf(run: Run, c: Caller, h: Hnr): Run {
    Did(Did(Did(Did(run, StartResolve(c, h)), CallerSteps(c)), CallerSteps(c)), CallerSteps(c))
  }

  function ResolveRest(run: Run, c: Caller): Run {
    Did(Did(Did(run, CallerSteps(c)), CallerSteps(c)), CallerSteps(c))
  }

  lemma ResolveHalfState(run: Run, s: State, c: Caller, h: Hnr)
    requires Exec(run) == Some(s) && MayStart(s, c) && s.dns == Free && s.mutex == Free
    requires h !in s.active && !s.exiting
    ensures Exec(ResolveHalf(run, c, h)) == Some(Put(s, c, ResolveLocksMutexAgain(h), By(c), Free))
  {
    hide PcOf;
    var r0 := Did(run, StartResolve(c, h));
    assert s.(pcs := s.pcs[c := ResolveLocksDns(h)]) == Put(s, c, ResolveLocksDns(h), Free, Free);
    PutStep(r0, s, c, ResolveLocksDns(h), Free, Free);
    PutStep(Did(r0, CallerSteps(c)), s, c, ResolveLocksMutex(h), By(c), Free);
    PutStep(Did(Did(r0, CallerSteps(c)), CallerSteps(c)), s, c, ResolveChecks(h), By(c), By(c));
  }

  function WithRequest(s: State, h: Hnr): State {
    s.(active := s.active[h := s.next], next := s.next + 1)
  }

  lemma InsertStep(run: Run, s: State, c: Caller, h: Hnr)
    requires Exec(run) == Some(Put(s, c, ResolveInserts(h), By(c), By(c)))
    ensures Exec(Did(run, CallerSteps(c))) == Some(Put(WithRequest(s, h), c, ResolveUnlocksDns(h), By(c), Free))
  {
    var p := Put(s, c, ResolveInserts(h), By(c), By(c));
    assert PcOf(p.pcs, c) == ResolveInserts(h);
    assert p.pcs[c := ResolveUnlocksDns(h)] == s.pcs[c := ResolveUnlocksDns(h)];
  }

  lemma ResolveRestState(run: Run, s: State, c: Caller, h: Hnr)
    requires Exec(run) == Some(Put(s, c, ResolveLocksMutexAgain(h), By(c), Free))
    ensures Exec(ResolveRest(run, c)) == Some(Put(WithRequest(s, h), c, Idle, Free, Free))
  {
    hide PcOf, Step, Exec, NextPc;
    NextOf(s, c, h);
    PutStep(run, s, c, ResolveLocksMutexAgain(h), By(c), Free);
    InsertStep(Did(run, CallerSteps(c)), s, c, h);
    NextOf(WithRequest(s, h), c, h);
    PutStep(Did(Did(run, CallerSteps(c)), CallerSteps(c)), WithRequest(s, h), c, ResolveUnlocksDns(h), By(c), Free);
  }

  lemma NextOf(s: State, c: Caller, h: Hnr)
    ensures NextPc(s, ResolveLocksMutexAgain(h)) == ResolveInserts(h) && NextPc(s, ResolveUnlocksDns(h)) == Idle
  {
  }

  /** cancel(h) by a caller, up to the removal. */
  function CancelHalf(run: Run, c: Caller, h: Hnr): Run {
    Did(Did(Did(Did(run, StartCancel(c, h)), CallerSteps(c)), CallerSteps(c)), CallerSteps(c))
  }

  function WithoutRequest(s: State, h: Hnr): State {
    s.(active := s.active - {h}, quit := s.quit || s.active - {h} == map[])
  }

  lemma RemoveStep(run: Run, s: State, c: Caller, h: Hnr)
    requires Exec(run) == Some(Put(s, c, CancelRemoves(h), By(c), By(c)))
    ensures Exec(Did(run, CallerSteps(c))) ==
            Some(Put(WithoutRequest(s, h), c, NextPc(s, CancelRemoves(h)), By(c), By(c)))
  {
    var p, n := Put(s, c, CancelRemoves(h), By(c), By(c)), NextPc(s, CancelRemoves(h));
    assert PcOf(p.pcs, c) == CancelRemoves(h) && NextPc(p, CancelRemoves(h)) == n;
    assert p.pcs[c := n] == s.pcs[c := n];
  }

  lemma CancelHalfState(run: Run, s: State, c: Caller, h: Hnr)
    requires Exec(run) == Some(s) && MayStart(s, c) && s.dns == Free && s.mutex == Free
    ensures Exec(CancelHalf(run, c, h)) == Some(Put(WithoutRequest(s, h), c, NextPc(s, CancelRemoves(h)), By(c), By(c)))
  {
    hide PcOf;
    var r0 := Did(run, StartCancel(c, h));
    assert s.(pcs := s.pcs[c := CancelLocksDns(h)]) == Put(s, c, CancelLocksDns(h), Free, Free);
    PutStep(r0, s, c, CancelLocksDns(h), Free, Free);
    PutStep(Did(r0, CallerSteps(c)), s, c, CancelLocksMutex(h), By(c), Free);
    RemoveStep(Did(Did(r0, CallerSteps(c)), CallerSteps(c)), s, c, h);
  }

  /** The run after which the callback of the only request, of resolver 7, is running. */
  function CallbackRun(): Run {
    Served(ResolveRest(ResolveHalf(Begin, User(0), 7), User(0)), 7)
  }

  /** The thread takes up h and goes as far as its callback. */
  function Served(run: Run, h: Hnr): Run {
    Did(Did(Did(Did(Did(run, ThreadSteps), ThreadSteps), ThreadCompletes(h)), ThreadSteps), ThreadSteps)
  }

  function CallbackState(): State {
    State(Calling(Req(7, 0)), map[User(0) := Idle], Free, Free, TheThread, map[], 1, false, false)
  }

  lemma ThreadServes(run: Run, s: State, h: Hnr)
    requires Exec(run) == Some(s) && s.thread == Waiting && !s.quit && s.mutex == Free && s.completed == Free
    requires h in s.active
    ensures Exec(Served(run, h)) ==
            Some(s.(thread := Calling(Req(h, s.active[h])), completed := TheThread, active := s.active - {h}))
  {
    hide PcOf;
    var r0 := Did(run, ThreadSteps);
    assert Exec(r0) == Some(s.(thread := Entering));
    var r1 := Did(r0, ThreadSteps);
    assert Exec(r1) == Some(s.(thread := Polling, mutex := TheThread));
    var r2 := Did(r1, ThreadCompletes(h));
    var t := s.(thread := Removed(Req(h, s.active[h])), mutex := TheThread, active := s.active - {h});
    assert Exec(r2) == Some(t);
    assert Exec(Did(r2, ThreadSteps)) == Some(t.(thread := Locked(Req(h, s.active[h])), completed := TheThread));
  }

  lemma CallbackReached()
    ensures Exec(CallbackRun()) == Some(CallbackState())
  {
    hide Step, NextPc;
    var half := ResolveHalf(Begin, User(0), 7);
    ResolveHalfState(Begin, INITIAL, User(0), 7);
    ResolveRestState(half, INITIAL, User(0), 7);
    var s := Put(WithRequest(INITIAL, 7), User(0), Idle, Free, Free);
    ThreadServes(ResolveRest(half, User(0)), s, 7);
    assert s.active - {7} == map[];
  }

  // ---------- what goes wrong otherwise ----------

  /** The callback calls resolve while another thread is in cancel of a resolver with nothing to cancel. */
  function DeadlockRun(): Run {
    CancelHalf(Did(CallbackRun(), StartResolve(Callback, 9)), User(1), 8)
  }

  lemma ReentryDeadlocks()
    ensures Exec(DeadlockRun()).Some? && Deadlocked(Exec(DeadlockRun()).value)
  {
    hide Step;
    CallbackReached();
    var s := CallbackState().(pcs := map[User(0) := Idle, Callback := ResolveLocksDns(9)]);
    StartedInCallback(CallbackRun(), 9);
    CancelHalfState(Did(CallbackRun(), StartResolve(Callback, 9)), s, User(1), 8);
    var t := Exec(DeadlockRun()).value;
    assert t.pcs == map[User(0) := Idle, Callback := ResolveLocksDns(9), User(1) := CancelLocksCompleted(8, 1)];
    assert t.dns == By(User(1)) && t.completed == TheThread && t.thread == Calling(Req(7, 0));
  }

  lemma StartedInCallback(run: Run, h: Hnr)
    requires Exec(run) == Some(CallbackState())
    ensures Exec(Did(run, StartResolve(Callback, h))) ==
            Some(CallbackState().(pcs := map[User(0) := Idle, Callback := ResolveLocksDns(h)]))
  {
    assert map[User(0) := Idle][Callback := ResolveLocksDns(h)] == map[User(0) := Idle, Callback := ResolveLocksDns(h)];
  }

  lemma StepsDoNotReenter(run: Run, u: nat)
    requires NoReentry(run)
    ensures NoReentry(Did(run, CallerSteps(User(u)))) && NoReentry(CancelRest(run, User(u)))
    ensures NoReentry(ResolveRest(run, User(u)))
  {
    assert NoReentry(Did(Did(run, CallerSteps(User(u))), CallerSteps(User(u))));
  }

  lemma UsersDoNotReenter(run: Run, u: nat, h: Hnr)
    requires NoReentry(run)
    ensures NoReentry(ResolveHalf(run, User(u), h)) && NoReentry(CancelHalf(run, User(u), h))
  {
    StepsDoNotReenter(Did(run, StartResolve(User(u), h)), u);
    StepsDoNotReenter(Did(run, StartCancel(User(u), h)), u);
  }

  /** The two unlocks that end a successful cancel. */
  function CancelRest(run: Run, c: Caller): Run {
    Did(Did(run, CallerSteps(c)), CallerSteps(c))
  }

  lemma CancelRestState(run: Run, s: State, c: Caller, h: Hnr, bound: nat, over: Option<nat>)
    requires Exec(run) == Some(Put(s, c, CancelUnlocksMutex(h, true, bound, over), By(c), By(c)))
    ensures Exec(CancelRest(run, c)) == Some(Put(s, c, CancelReturned(h, true, bound, over), Free, Free))
  {
    hide PcOf, Step, Exec;
    PutStep(run, s, c, CancelUnlocksMutex(h, true, bound, over), By(c), By(c));
    PutStep(Did(run, CallerSteps(c)), s, c, CancelUnlocksDns(h, true, bound, over), By(c), Free);
  }

  /** While the callback of resolver 7 runs, one thread resolves it again and another cancels it. */
  function NoisyRun(): Run {
    CancelRest(CancelHalf(ResolveRest(ResolveHalf(CallbackRun(), User(0), 7), User(0)), User(1), 7), User(1))
  }

  /** cancel returns true while the callback of a request that existed before still runs. */
  lemma NoisyCancel()
    ensures NoReentry(NoisyRun()) && Exec(NoisyRun()).Some?
    ensures var s := Exec(NoisyRun()).value; var pc := PcOf(s.pcs, User(1));
            pc.CancelReturned? && pc.ret && s.thread.Calling? && !NonePending(s, pc.h, pc.bound)
  {
    hide Step, NextPc;
    CallbackReached();
    var s0 := CallbackState();
    var r1 := ResolveHalf(CallbackRun(), User(0), 7);
    ResolveHalfState(CallbackRun(), s0, User(0), 7);
    ResolveRestState(r1, s0, User(0), 7);
    var s1, r2 := Put(WithRequest(s0, 7), User(0), Idle, Free, Free), ResolveRest(r1, User(0));
    CancelHalfState(r2, s1, User(1), 7);
    RemovedBusy(s1);
    CancelRestState(CancelHalf(r2, User(1), 7), WithoutRequest(s1, 7), User(1), 7, 2, Some(0));
    NoReentrySoFar();
  }

  lemma RemovedBusy(s: State)
    requires s.thread == Calling(Req(7, 0)) && 7 in s.active && s.next == 2
    ensures NextPc(s, CancelRemoves(7)) == CancelUnlocksMutex(7, true, 2, Some(0))
  {
  }

  lemma NoReentrySoFar()
    ensures NoReentry(NoisyRun())
  {
    hide CancelRest, ResolveHalf, ResolveRest, CancelHalf;
    UsersDoNotReenter(Begin, 0, 7);
    StepsDoNotReenter(ResolveHalf(Begin, User(0), 7), 0);
    var r := ResolveRest(ResolveHalf(Begin, User(0), 7), User(0));
    ThreadDoesNotReenter(r);
    UsersDoNotReenter(CallbackRun(), 0, 7);
    StepsDoNotReenter(ResolveHalf(CallbackRun(), User(0), 7), 0);
    var q := ResolveRest(ResolveHalf(CallbackRun(), User(0), 7), User(0));
    UsersDoNotReenter(q, 1, 7);
    StepsDoNotReenter(CancelHalf(q, User(1), 7), 1);
  }

  lemma ThreadDoesNotReenter(run: Run)
    requires NoReentry(run)
    ensures NoReentry(Served(run, 7))
  {
    var r := Did(Did(run, ThreadSteps), ThreadSteps);
    assert NoReentry(Did(r, ThreadCompletes(7)));
  }

  // ---------- requests left with a thread that is gone ----------

  predicate Stranded(s: State) {
    s.thread.Exited? && s.active != map[]
  }

  /** An exited thread stays so and calls no one back: only cancel can still end a stranded request. */
  lemma ExitedStays(s: State, a: Act)
    requires s.thread.Exited? && Step(s, a).Some?
    ensures Step(s, a).value.thread.Exited? && Pending(Step(s, a).value).None?
  {
    hide PcOf, Lock, Ready, NextPc;
  }

  /** The two ways to strand a request: the thread leaves on quitFlag while requests are active, or resolve
      inserts into a thread that left after resolve had looked at isExiting. */
  lemma StrandsExactly(s: State, a: Act)
    requires Step(s, a).Some? && !Stranded(s)
    ensures Stranded(Step(s, a).value) <==>
            || (a.ThreadSteps? && s.thread.Waiting? && s.quit && s.active != map[])
            || (a.CallerSteps? && PcOf(s.pcs, a.c).ResolveInserts? && s.thread.Exited?)
  {
    hide PcOf, Lock, Ready, NextPc;
    if a.CallerSteps? && PcOf(s.pcs, a.c).ResolveInserts? {
      assert PcOf(s.pcs, a.c).h in ActiveAfter(s, PcOf(s.pcs, a.c));
    }
  }

  /** A resolver looks at the thread while its last callback runs, and inserts after it exited. */
  function RaceRun(): Run {
    ResolveRest(Left(ResolveHalf(CallbackRun(), User(1), 8)), User(1))
  }

  /** The callback returns and the thread, with nothing active, exits. */
  function Left(run: Run): Run {
    Did(Did(Did(Did(run, ThreadSteps), ThreadSteps), ThreadSteps), ThreadSteps)
  }

  lemma StrandedByRace()
    ensures Exec(RaceRun()).Some? && Stranded(Exec(RaceRun()).value)
  {
    hide Step, NextPc;
    CallbackReached();
    var s0, c := CallbackState(), User(1);
    ResolveHalfState(CallbackRun(), s0, c, 8);
    var r, t := ResolveHalf(CallbackRun(), c, 8), Put(s0, c, ResolveLocksMutexAgain(8), By(c), Free);
    ThreadLeaves(r, t, Req(7, 0));
    var g := s0.(thread := Exited, completed := Free, exiting := true);
    ResolveRestState(Left(r), g, c, 8);
    assert 8 in WithRequest(g, 8).active;
  }

  lemma ThreadLeaves(run: Run, s: State, r: Req)
    requires Exec(run) == Some(s) && s.thread == Calling(r) && s.mutex == Free && s.completed == TheThread
    requires PcOf(s.pcs, Callback) == Idle && s.active == map[]
    ensures Exec(Left(run)) == Some(s.(thread := Exited, completed := Free, exiting := true))
  {
    hide PcOf;
    var r1 := Did(run, ThreadSteps);
    assert Exec(r1) == Some(s.(thread := Returned(r)));
    var r2 := Did(r1, ThreadSteps);
    assert Exec(r2) == Some(s.(thread := Relocking, completed := Free));
    var r3 := Did(r2, ThreadSteps);
    assert Exec(r3) == Some(s.(thread := Polling, completed := Free, mutex := TheThread));
  }

  /** A cancel that empties the map tells the thread to quit, and a request is accepted before it does. */
  function QuitRun(): Run {
    var r := ResolveRest(ResolveHalf(Begin, User(0), 7), User(0));
    var q := CancelRest(CancelHalf(r, User(0), 7), User(0));
    Did(ResolveRest(ResolveHalf(q, User(0), 8), User(0)), ThreadSteps)
  }

  lemma StrandedByCancel()
    ensures Exec(QuitRun()).Some? && Stranded(Exec(QuitRun()).value)
  {
    hide Step, NextPc;
    var c := User(0);
    var r0 := ResolveHalf(Begin, c, 7);
    ResolveHalfState(Begin, INITIAL, c, 7);
    ResolveRestState(r0, INITIAL, c, 7);
    var r, s := ResolveRest(r0, c), Put(WithRequest(INITIAL, 7), c, Idle, Free, Free);
    CancelHalfState(r, s, c, 7);
    RemovedAlone(s);
    CancelRestState(CancelHalf(r, c, 7), WithoutRequest(s, 7), c, 7, 1, None);
    var q := CancelRest(CancelHalf(r, c, 7), c);
    var t := Put(WithoutRequest(s, 7), c, CancelReturned(7, true, 1, None), Free, Free);
    ResolveHalfState(q, t, c, 8);
    ResolveRestState(ResolveHalf(q, c, 8), t, c, 8);
    ThreadQuits(ResolveRest(ResolveHalf(q, c, 8), c));
  }

  lemma RemovedAlone(s: State)
    requires s.thread == Waiting && s.active == map[7 := 0] && s.next == 1
    ensures NextPc(s, CancelRemoves(7)) == CancelUnlocksMutex(7, true, 1, None)
    ensures WithoutRequest(s, 7).quit && WithoutRequest(s, 7).active == map[]
  {
    assert s.active - {7} == map[];
  }

  lemma ThreadQuits(run: Run)
    requires Exec(run).Some?
    requires Exec(run).value.thread == Waiting && Exec(run).value.quit && 8 in Exec(run).value.active
    ensures Exec(Did(run, ThreadSteps)).Some? && Stranded(Exec(Did(run, ThreadSteps)).value)
  {
    hide PcOf, Lock;
  }
}
