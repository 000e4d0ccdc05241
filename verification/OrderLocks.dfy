/**
 The per-order lock table of the payment callbacks: a map from trade numbers to
 reference-counted mutexes, created on demand and deleted by the last user.

 The model interleaves any number of threads at the granularity of the source's
 individual lock, map and counter operations. A run is a schedule: the sequence
 of thread indices that move. Every thread works through its own list of trade
 numbers, bracketing each one with LockOrder and UnlockOrder.
 */
module OrderLocks {

  /** The reference-counted mutex of one trade number. Addresses are indices into the heap. */
  datatype Rcm = Rcm(locked: bool, refCount: int)

  /** Where a thread stands. Each constructor names the operation the thread performs next.
      In `Critical` the address is history only: UnlockOrder looks the mutex up again. */
  datatype Pc =
    | Idle
    | WantCreate(t: string)          // createLock.Lock() in LockOrder
    | Looking(t: string)             // orderLocks.Load
    | Storing(t: string, r: nat)     // orderLocks.Store of a fresh mutex
    | Counting(t: string, r: nat)    // refCount++
    | Leaving(t: string, r: nat)     // createLock.Unlock() in LockOrder
    | Waiting(t: string, r: nat)     // rcm.mu.Lock()
    | Critical(t: string, r: nat)    // LockOrder has returned; next is the Load of UnlockOrder
    | Releasing(t: string, r: nat)   // rcm.mu.Unlock()
    | WantDrop(t: string, r: nat)    // createLock.Lock() in UnlockOrder
    | Dropping(t: string, r: nat)    // refCount--
    | Checking(t: string, r: nat)    // if refCount == 0 delete
    | Finishing(t: string)           // createLock.Unlock() in UnlockOrder
    | Crashed                        // Unlock of an unlocked mutex is a fatal error

  datatype Thread = Thread(pc: Pc, todo: seq<string>)

  datatype State = State(threads: seq<Thread>, createHeld: bool, table: map<string, nat>, heap: seq<Rcm>)

  /** The program before any thread has moved: an empty table, every thread idle. */
  predicate Init(s: State) {
    && !s.createHeld && s.table == map[] && s.heap == []
    && forall i :: 0 <= i < |s.threads| ==> s.threads[i].pc == Idle
  }

  predicate Done(th: Thread) {
    th.pc == Idle && th.todo == []
  }

  /** Thread i is neither finished nor blocked on a mutex. */
  predicate Enabled(s: State, i: nat)
    requires i < |s.threads|
  {
    var th := s.threads[i];
    match th.pc
    case Idle => th.todo != []
    case WantCreate(_) => !s.createHeld
    case WantDrop(_, _) => !s.createHeld
    case Waiting(_, r) => r < |s.heap| && !s.heap[r].locked
    case Crashed => false
    case _ => true
  }

  function MoveTo(s: State, i: nat, pc: Pc): State
    requires i < |s.threads|
  {
    s.(threads := s.threads[i := s.threads[i].(pc := pc)])
  }

  /** One step of thread i. Dangling addresses lead to `Crashed`. */
  function Act(s: State, i: nat): State
    requires i < |s.threads| && Enabled(s, i)
  {
    var th := s.threads[i];
    match th.pc
    case Idle =>
      s.(threads := s.threads[i := Thread(WantCreate(th.todo[0]), th.todo[1..])])
    case WantCreate(t) =>
      MoveTo(s, i, Looking(t)).(createHeld := true)
    case Looking(t) =>
      if t in s.table then MoveTo(s, i, Counting(t, s.table[t]))
      else MoveTo(s, i, Storing(t, |s.heap|)).(heap := s.heap + [Rcm(false, 0)])
    case Storing(t, r) =>
      MoveTo(s, i, Counting(t, r)).(table := s.table[t := r])
    case Counting(t, r) =>
      if r < |s.heap| then MoveTo(s, i, Leaving(t, r)).(heap := AddRef(s.heap, r, 1))
      else MoveTo(s, i, Crashed)
    case Leaving(t, r) =>
      MoveTo(s, i, Waiting(t, r)).(createHeld := false)
    case Waiting(t, r) =>
      MoveTo(s, i, Critical(t, r)).(heap := SetLocked(s.heap, r, true))
    case Critical(t, _) =>
      if t in s.table then MoveTo(s, i, Releasing(t, s.table[t]))
      else MoveTo(s, i, Idle)
    case Releasing(t, r) =>
      if r < |s.heap| && s.heap[r].locked then
        MoveTo(s, i, WantDrop(t, r)).(heap := SetLocked(s.heap, r, false))
      else MoveTo(s, i, Crashed)
    case WantDrop(t, r) =>
      MoveTo(s, i, Dropping(t, r)).(createHeld := true)
    case Dropping(t, r) =>
      if r < |s.heap| then MoveTo(s, i, Checking(t, r)).(heap := AddRef(s.heap, r, -1))
      else MoveTo(s, i, Crashed)
    case Checking(t, r) =>
      if r < |s.heap| && s.heap[r].refCount == 0 then MoveTo(s, i, Finishing(t)).(table := s.table - {t})
      else MoveTo(s, i, Finishing(t))
    case Finishing(t) =>
      MoveTo(s, i, Idle).(createHeld := false)
  }

  function AddRef(heap: seq<Rcm>, r: nat, delta: int): seq<Rcm>
    requires r < |heap|
  {
    heap[r := heap[r].(refCount := heap[r].refCount + delta)]
  }

  function SetLocked(heap: seq<Rcm>, r: nat, locked: bool): seq<Rcm>
    requires r < |heap|
  {
    heap[r := heap[r].(locked := locked)]
  }

  /** A schedule names enabled threads only. */
  predicate Runs(s: State, schedule: seq<nat>)
    decreases |schedule|
  {
    schedule == [] ||
    (schedule[0] < |s.threads| && Enabled(s, schedule[0]) && Runs(Act(s, schedule[0]), schedule[1..]))
  }

  function Exec(s: State, schedule: seq<nat>): State
    requires Runs(s, schedule)
    decreases |schedule|
  {
    if schedule == [] then s else Exec(Act(s, schedule[0]), schedule[1..])
  }

  // ---------------------------------------------------------------- counting threads

  function Bit(b: bool): nat { if b then 1 else 0 }

  function Count(ts: seq<Thread>, f: Pc -> bool): nat {
    if ts == [] then 0 else Bit(f(ts[0].pc)) + Count(ts[1..], f)
  }

  lemma {:induction false} CountUpdate(ts: seq<Thread>, i: nat, th: Thread, f: Pc -> bool)
    requires i < |ts|
    ensures Count(ts[i := th], f) + Bit(f(ts[i].pc)) == Count(ts, f) + Bit(f(th.pc))
  {
    if i == 0 {
      assert ts[0 := th][1..] == ts[1..];
    } else {
      assert ts[i := th][1..] == ts[1..][i - 1 := th];
      CountUpdate(ts[1..], i - 1, th, f);
    }
  }

  lemma {:induction false} CountZero(ts: seq<Thread>, f: Pc -> bool)
    ensures Count(ts, f) == 0 <==> forall i :: 0 <= i < |ts| ==> !f(ts[i].pc)
  {
    if ts != [] {
      CountZero(ts[1..], f);
      assert forall i :: 1 <= i < |ts| ==> ts[i] == ts[1..][i - 1];
      assert forall i :: 0 <= i < |ts[1..]| ==> ts[1..][i] == ts[i + 1];
    }
  }

  lemma {:induction false} CountPair(ts: seq<Thread>, i: nat, j: nat, f: Pc -> bool)
    requires i < j < |ts| && f(ts[i].pc) && f(ts[j].pc)
    ensures Count(ts, f) >= 2
  {
    if i == 0 {
      CountZero(ts[1..], f);
      assert f(ts[1..][j - 1].pc);
    } else {
      CountPair(ts[1..], i - 1, j - 1, f);
    }
  }

  /** The thread holds createLock. */
  predicate InSection(pc: Pc) {
    pc.Looking? || pc.Storing? || pc.Counting? || pc.Leaving? || pc.Dropping? || pc.Checking? || pc.Finishing?
  }

  function Section(): Pc -> bool { (pc: Pc) => InSection(pc) }

  /** The thread has incremented refCount for trade number t and not yet decremented it. */
  predicate Uses(pc: Pc, t: string) {
    && (pc.Leaving? || pc.Waiting? || pc.Critical? || pc.Releasing? || pc.WantDrop? || pc.Dropping?)
    && pc.t == t
  }

  function Using(t: string): Pc -> bool { (pc: Pc) => Uses(pc, t) }

  /** The thread has locked mutex r and not yet unlocked it. */
  predicate Owns(pc: Pc, r: nat) {
    (pc.Critical? || pc.Releasing?) && pc.r == r
  }

  function Owning(r: nat): Pc -> bool { (pc: Pc) => Owns(pc, r) }

  // ---------------------------------------------------------------- the invariant

  /** The thread relies on r being the mutex currently in the table for t. */
  predicate Attached(pc: Pc) {
    pc.Counting? || pc.Leaving? || pc.Waiting? || pc.Critical? || pc.Releasing? || pc.WantDrop? || pc.Dropping? ||
        pc.Checking?
  }

  predicate PcOk(s: State, pc: Pc) {
    && pc != Crashed
    && (Attached(pc) ==> pc.t in s.table && s.table[pc.t] == pc.r)
    && (pc.Storing? ==>
          && pc.t !in s.table && pc.r < |s.heap| && s.heap[pc.r] == Rcm(false, 0)
          && forall t :: t in s.table ==> s.table[t] != pc.r)
  }

  predicate TableOk(s: State) {
    && (forall t :: t in s.table ==> s.table[t] < |s.heap|)
    && (forall t, u :: t in s.table && u in s.table && s.table[t] == s.table[u] ==> t == u)
  }

  /** The thread is between the Store and the increment, or between the decrement and the test. */
  predicate Midway(pc: Pc, t: string) {
    (pc.Counting? || pc.Checking?) && pc.t == t
  }

  function Passing(t: string): Pc -> bool { (pc: Pc) => Midway(pc, t) }

  predicate SectionOk(s: State) {
    Count(s.threads, Section()) == Bit(s.createHeld)
  }

  predicate PcsOk(s: State) {
    forall i :: 0 <= i < |s.threads| ==> PcOk(s, s.threads[i].pc)
  }

  /** Every entry is in use, or a thread inside createLock is about to use or delete it. */
  predicate CountsOk(s: State)
    requires TableOk(s)
  {
    forall t :: t in s.table ==>
      && s.heap[s.table[t]].refCount == Count(s.threads, Using(t))
      && Count(s.threads, Using(t)) + Count(s.threads, Passing(t)) > 0
  }

  predicate OwnersOk(s: State) {
    forall r: nat :: r < |s.heap| ==> Count(s.threads, Owning(r)) == Bit(s.heap[r].locked)
  }

  predicate Inv(s: State) {
    SectionOk(s) && TableOk(s) && PcsOk(s) && CountsOk(s) && OwnersOk(s)
  }

  lemma InitInv(s: State)
    requires Init(s)
    ensures Inv(s)
  {
    CountZero(s.threads, Section());
  }

  /** At most one thread is inside the createLock section. */
  lemma OneInSection(s: State, i: nat)
    requires Inv(s) && i < |s.threads| && InSection(s.threads[i].pc)
    ensures s.createHeld
    ensures forall j :: 0 <= j < |s.threads| && j != i ==> !InSection(s.threads[j].pc)
  {
    CountZero(s.threads, Section());
    forall j | 0 <= j < |s.threads| && j != i
      ensures !InSection(s.threads[j].pc)
    {
      if InSection(s.threads[j].pc) {
        CountPair(s.threads, if i < j then i else j, if i < j then j else i, Section());
      }
    }
  }

  /** A mutex that is not in the table has no owner. */
  lemma Unowned(s: State, r: nat)
    requires Inv(s) && forall t :: t in s.table ==> s.table[t] != r
    ensures Count(s.threads, Owning(r)) == 0
  {
    CountZero(s.threads, Owning(r));
  }

  /** Nobody uses a trade number that is not in the table. */
  lemma Unused(s: State, t: string)
    requires Inv(s) && t !in s.table
    ensures Count(s.threads, Using(t)) == 0
  {
    CountZero(s.threads, Using(t));
  }

  // ---------------------------------------------------------------- every step keeps the invariant

  /** The lock counts follow the thread that moves. */
  lemma OwnersStep(s: State, i: nat, s': State, th: Thread)
    requires i < |s.threads| && s'.threads == s.threads[i := th]
    requires OwnersOk(s) && |s.heap| <= |s'.heap|
    requires forall r: nat :: r < |s.heap| ==>
               Bit(s'.heap[r].locked) + Bit(Owns(s.threads[i].pc, r)) == Bit(s.heap[r].locked) + Bit(Owns(th.pc, r))
    requires forall r: nat :: |s.heap| <= r < |s'.heap| ==>
               !s'.heap[r].locked && Count(s.threads, Owning(r)) == 0 && !Owns(th.pc, r)
    ensures OwnersOk(s')
  {
    forall r: nat | r < |s'.heap|
      ensures Count(s'.threads, Owning(r)) == Bit(s'.heap[r].locked)
    {
      CountUpdate(s.threads, i, th, Owning(r));
    }
  }

  /** The reference counts follow the thread that moves. */
  lemma CountsStep(s: State, i: nat, s': State, th: Thread)
    requires i < |s.threads| && s'.threads == s.threads[i := th]
    requires TableOk(s) && TableOk(s') && CountsOk(s)
    requires forall t :: t in s'.table && t in s.table ==>
               && s'.heap[s'.table[t]].refCount + Bit(Uses(s.threads[i].pc, t)) ==
                   s.heap[s.table[t]].refCount + Bit(Uses(th.pc, t))
               && (Uses(s.threads[i].pc, t) || Midway(s.threads[i].pc, t) ==>
                     Uses(th.pc, t) || Midway(th.pc, t) || s'.heap[s'.table[t]].refCount > 0)
    requires forall t :: t in s'.table && t !in s.table ==>
               s'.heap[s'.table[t]].refCount == Count(s.threads, Using(t)) == 0 && !Uses(th.pc, t) && Midway(th.pc, t)
    ensures CountsOk(s')
  {
    forall t | t in s'.table
      ensures s'.heap[s'.table[t]].refCount == Count(s'.threads, Using(t))
      ensures Count(s'.threads, Using(t)) + Count(s'.threads, Passing(t)) > 0
    {
      CountUpdate(s.threads, i, th, Using(t));
      CountUpdate(s.threads, i, th, Passing(t));
      CountZero(s'.threads, Using(t));
      CountZero(s'.threads, Passing(t));
      assert s'.threads[i] == th;
    }
  }

  lemma SectionStep(s: State, i: nat, s': State, th: Thread)
    requires i < |s.threads| && s'.threads == s.threads[i := th] && SectionOk(s)
    requires Bit(s'.createHeld) + Bit(InSection(s.threads[i].pc)) == Bit(s.createHeld) + Bit(InSection(th.pc))
    ensures SectionOk(s')
  {
    CountUpdate(s.threads, i, th, Section());
  }

  /** A step that leaves the table alone and keeps pending allocations pristine cannot detach another thread. */
  lemma PcsStep(s: State, i: nat, s': State, th: Thread)
    requires i < |s.threads| && s'.threads == s.threads[i := th] && PcsOk(s)
    requires s'.table == s.table && |s'.heap| == |s.heap|
    requires forall r: nat :: r < |s.heap| && s'.heap[r] != s.heap[r] ==> exists t :: t in s.table && s.table[t] == r
    requires PcOk(s', th.pc)
    ensures PcsOk(s')
  {
    forall j | 0 <= j < |s'.threads|
      ensures PcOk(s', s'.threads[j].pc)
    {
      assert j != i ==> PcOk(s, s.threads[j].pc);
    }
  }

  /** Steps that change neither the table nor the heap. */
  lemma LocalStep(s: State, i: nat, th: Thread, held: bool)
    requires Inv(s) && i < |s.threads| && Enabled(s, i)
    requires Act(s, i) == s.(threads := s.threads[i := th], createHeld := held)
    requires PcOk(s, th.pc) && !th.pc.Storing?
    requires Bit(held) + Bit(InSection(s.threads[i].pc)) == Bit(s.createHeld) + Bit(InSection(th.pc))
    requires forall t :: Uses(th.pc, t) == Uses(s.threads[i].pc, t)
    requires forall r :: Owns(th.pc, r) == Owns(s.threads[i].pc, r)
    requires forall t :: !Midway(s.threads[i].pc, t)
    ensures Inv(Act(s, i))
  {
    var s' := Act(s, i);
    SectionStep(s, i, s', th);
    PcsStep(s, i, s', th);
    CountsStep(s, i, s', th);
    OwnersStep(s, i, s', th);
  }

  lemma LockingStep(s: State, i: nat)
    requires Inv(s) && i < |s.threads| && Enabled(s, i)
    requires var pc := s.threads[i].pc; pc.Idle? || pc.WantCreate? || (pc.Looking? && pc.t in s.table) || pc.Leaving?
    ensures Inv(Act(s, i))
  {
    var th := s.threads[i];
    assert PcOk(s, th.pc);
    if InSection(th.pc) { OneInSection(s, i); }
    match th.pc
    case Idle => LocalStep(s, i, Thread(WantCreate(th.todo[0]), th.todo[1..]), s.createHeld);
    case WantCreate(t) => LocalStep(s, i, th.(pc := Looking(t)), true);
    case Looking(t) => LocalStep(s, i, th.(pc := Counting(t, s.table[t])), true);
    case Leaving(t, r) => LocalStep(s, i, th.(pc := Waiting(t, r)), false);
  }

  lemma UnlockingStep(s: State, i: nat)
    requires Inv(s) && i < |s.threads| && Enabled(s, i)
    requires var pc := s.threads[i].pc; pc.Critical? || pc.WantDrop? || pc.Finishing?
    ensures Inv(Act(s, i))
  {
    var th := s.threads[i];
    assert PcOk(s, th.pc);
    if InSection(th.pc) { OneInSection(s, i); }
    match th.pc
    case Critical(t, r) => LocalStep(s, i, th.(pc := Releasing(t, r)), s.createHeld);
    case WantDrop(t, r) => LocalStep(s, i, th.(pc := Dropping(t, r)), true);
    case Finishing(_) => LocalStep(s, i, th.(pc := Idle), false);
  }

  lemma AllocateStep(s: State, i: nat)
    requires Inv(s) && i < |s.threads| && s.threads[i].pc.Looking? && s.threads[i].pc.t !in s.table
    ensures Inv(Act(s, i))
  {
    var s' := Act(s, i);
    var th := s'.threads[i];
    OneInSection(s, i);
    Unowned(s, |s.heap|);
    SectionStep(s, i, s', th);
    CountsStep(s, i, s', th);
    OwnersStep(s, i, s', th);
  }

  lemma StoreStep(s: State, i: nat)
    requires Inv(s) && i < |s.threads| && s.threads[i].pc.Storing?
    ensures Inv(Act(s, i))
  {
    var s' := Act(s, i);
    var th := s'.threads[i];
    assert PcOk(s, s.threads[i].pc);
    OneInSection(s, i);
    Unused(s, s.threads[i].pc.t);
    assert PcsOk(s') by {
      forall j | 0 <= j < |s'.threads|
        ensures PcOk(s', s'.threads[j].pc)
      {
        assert PcOk(s, s.threads[j].pc);
      }
    }
    SectionStep(s, i, s', th);
    CountsStep(s, i, s', th);
    OwnersStep(s, i, s', th);
  }

  lemma CountStep(s: State, i: nat, t: string, r: nat)
    requires Inv(s) && i < |s.threads| && s.threads[i].pc == Counting(t, r)
    ensures r < |s.heap|
    ensures Inv(State(s.threads[i := s.threads[i].(pc := Leaving(t, r))], s.createHeld, s.table, AddRef(s.heap, r, 1)))
  {
    assert PcOk(s, s.threads[i].pc);
    OneInSection(s, i);
    var th := s.threads[i].(pc := Leaving(t, r));
    var s' := State(s.threads[i := th], s.createHeld, s.table, AddRef(s.heap, r, 1));
    SectionStep(s, i, s', th);
    PcsStep(s, i, s', th);
    CountsStep(s, i, s', th);
    OwnersStep(s, i, s', th);
  }

  lemma DropStep(s: State, i: nat, t: string, r: nat)
    requires Inv(s) && i < |s.threads| && s.threads[i].pc == Dropping(t, r)
    ensures r < |s.heap|
    ensures Inv(State(s.threads[i := s.threads[i].(pc := Checking(t, r))], s.createHeld, s.table,
              AddRef(s.heap, r, -1)))
  {
    assert PcOk(s, s.threads[i].pc);
    OneInSection(s, i);
    var th := s.threads[i].(pc := Checking(t, r));
    var s' := State(s.threads[i := th], s.createHeld, s.table, AddRef(s.heap, r, -1));
    SectionStep(s, i, s', th);
    PcsStep(s, i, s', th);
    CountsStep(s, i, s', th);
    OwnersStep(s, i, s', th);
  }

  /** The last user deletes the entry: no thread is attached to it any more. */
  lemma CheckStep(s: State, i: nat)
    requires Inv(s) && i < |s.threads| && s.threads[i].pc.Checking?
    ensures Inv(Act(s, i))
  {
    var s' := Act(s, i);
    var th := s'.threads[i];
    var t := s.threads[i].pc.t;
    OneInSection(s, i);
    CountZero(s.threads, Using(t));
    assert PcsOk(s') by {
      forall j | 0 <= j < |s'.threads|
        ensures PcOk(s', s'.threads[j].pc)
      {
        assert PcOk(s, s.threads[j].pc);
        assert j != i && Attached(s.threads[j].pc) ==> Uses(s.threads[j].pc, s.threads[j].pc.t);
      }
    }
    SectionStep(s, i, s', th);
    CountsStep(s, i, s', th);
    OwnersStep(s, i, s', th);
  }

  lemma AcquireStep(s: State, i: nat)
    requires Inv(s) && i < |s.threads| && Enabled(s, i) && s.threads[i].pc.Waiting?
    ensures Inv(Act(s, i))
  {
    var s' := Act(s, i);
    var th := s'.threads[i];
    assert PcOk(s, s.threads[i].pc);
    SectionStep(s, i, s', th);
    PcsStep(s, i, s', th);
    CountsStep(s, i, s', th);
    OwnersStep(s, i, s', th);
  }

  lemma ReleaseStep(s: State, i: nat, t: string, r: nat)
    requires Inv(s) && i < |s.threads| && s.threads[i].pc == Releasing(t, r)
    ensures r < |s.heap| && s.heap[r].locked
    ensures Inv(State(s.threads[i := s.threads[i].(pc := WantDrop(t, r))], s.createHeld, s.table,
              SetLocked(s.heap, r, false)))
  {
    assert PcOk(s, s.threads[i].pc);
    CountZero(s.threads, Owning(r));
    var th := s.threads[i].(pc := WantDrop(t, r));
    var s' := State(s.threads[i := th], s.createHeld, s.table, SetLocked(s.heap, r, false));
    SectionStep(s, i, s', th);
    PcsStep(s, i, s', th);
    CountsStep(s, i, s', th);
    OwnersStep(s, i, s', th);
  }

  /** Every step of every thread keeps the invariant. */
  lemma StepInv(s: State, i: nat)
    requires Inv(s) && i < |s.threads| && Enabled(s, i)
    ensures Inv(Act(s, i))
  {
    match s.threads[i].pc
    case Looking(t) => if t in s.table { LockingStep(s, i); } else { AllocateStep(s, i); }
    case Storing(_, _) => StoreStep(s, i);
    case Counting(t, r) => CountStep(s, i, t, r);
    case Dropping(t, r) => DropStep(s, i, t, r);
    case Checking(_, _) => CheckStep(s, i);
    case Waiting(_, _) => AcquireStep(s, i);
    case Releasing(t, r) => ReleaseStep(s, i, t, r);
    case Critical(_, _) => UnlockingStep(s, i);
    case WantDrop(_, _) => UnlockingStep(s, i);
    case Finishing(_) => UnlockingStep(s, i);
    case _ => LockingStep(s, i);
  }

  lemma {:induction false} RunInv(s: State, schedule: seq<nat>)
    requires Inv(s) && Runs(s, schedule)
    ensures Inv(Exec(s, schedule))
    decreases |schedule|
  {
    if schedule != [] {
      StepInv(s, schedule[0]);
      RunInv(Act(s, schedule[0]), schedule[1..]);
    }
  }

  // ---------------------------------------------------------------- what every run guarantees

  /** Mutual exclusion: in every interleaving at most one thread is inside LockOrder(t)/UnlockOrder(t),
      although entries are deleted and re-created while other threads wait. */
  lemma MutualExclusion(s0: State, schedule: seq<nat>, i: nat, j: nat)
    requires Init(s0) && Runs(s0, schedule)
    requires i < |Exec(s0, schedule).threads| && j < |Exec(s0, schedule).threads|
    requires Exec(s0, schedule).threads[i].pc.Critical? && Exec(s0, schedule).threads[j].pc.Critical?
    requires Exec(s0, schedule).threads[i].pc.t == Exec(s0, schedule).threads[j].pc.t
    ensures i == j
  {
    InitInv(s0);
    RunInv(s0, schedule);
    var s := Exec(s0, schedule);
    var pc := s.threads[i].pc;
    assert PcOk(s, pc) && PcOk(s, s.threads[j].pc);
    if i < j {
      CountPair(s.threads, i, j, Owning(pc.r));
    } else if j < i {
      CountPair(s.threads, j, i, Owning(pc.r));
    }
  }

  /** Between two createLock sections the table is exact: an entry exists exactly for the trade numbers
      in use, and its refCount is the number of threads using it. */
  lemma TableIsExact(s0: State, schedule: seq<nat>, t: string)
    requires Init(s0) && Runs(s0, schedule)
    ensures var s := Exec(s0, schedule);
            var users := Count(s.threads, Using(t));
            && (users > 0 ==> t in s.table)
            && (t in s.table ==> s.table[t] < |s.heap| && s.heap[s.table[t]].refCount == users)
            && (!s.createHeld && t in s.table ==> users > 0)
  {
    InitInv(s0);
    RunInv(s0, schedule);
    var s := Exec(s0, schedule);
    CountZero(s.threads, Using(t));
    if !s.createHeld {
      CountZero(s.threads, Section());
      CountZero(s.threads, Passing(t));
      assert forall i :: 0 <= i < |s.threads| ==> !InSection(s.threads[i].pc) ==> !Midway(s.threads[i].pc, t);
    }
  }

  /** UnlockOrder always finds the mutex its caller locked, and always finds it locked: the early return
      for a missing entry and the fatal unlock of an unlocked mutex are unreachable. */
  lemma UnlockFindsItsMutex(s0: State, schedule: seq<nat>, i: nat)
    requires Init(s0) && Runs(s0, schedule) && i < |Exec(s0, schedule).threads|
    ensures var s := Exec(s0, schedule);
            var pc := s.threads[i].pc;
            && pc != Crashed
            && (pc.Critical? || pc.Releasing? ==>
                  pc.t in s.table && s.table[pc.t] == pc.r && pc.r < |s.heap| && s.heap[pc.r].locked)
  {
    InitInv(s0);
    RunInv(s0, schedule);
    var s := Exec(s0, schedule);
    var pc := s.threads[i].pc;
    assert PcOk(s, pc);
    if pc.Critical? || pc.Releasing? {
      CountZero(s.threads, Owning(pc.r));
    }
  }

  /** Some unfinished thread can always move. */
  lemma SomeThreadMoves(s: State, u: nat) returns (i: nat)
    requires Inv(s) && u < |s.threads| && !Done(s.threads[u])
    ensures i < |s.threads| && Enabled(s, i)
  {
    i := u;
    assert PcOk(s, s.threads[u].pc);
    CountZero(s.threads, Section());
    if !Enabled(s, u) {
      if s.createHeld {
        i :| 0 <= i < |s.threads| && InSection(s.threads[i].pc);
      } else {
        CountZero(s.threads, Owning(s.threads[u].pc.r));
        i :| 0 <= i < |s.threads| && Owns(s.threads[i].pc, s.threads[u].pc.r);
      }
    }
  }

  /** When every thread has finished, no entry is left behind. */
  lemma QuiescentTableIsEmpty(s0: State, schedule: seq<nat>)
    requires Init(s0) && Runs(s0, schedule)
    requires forall i :: 0 <= i < |Exec(s0, schedule).threads| ==> Exec(s0, schedule).threads[i].pc == Idle
    ensures Exec(s0, schedule).table == map[]
  {
    InitInv(s0);
    RunInv(s0, schedule);
    var s := Exec(s0, schedule);
    if t :| t in s.table {
      CountZero(s.threads, Using(t));
      CountZero(s.threads, Passing(t));
      assert false;
    }
  }

  /** Deadlock freedom: a run that cannot be extended has finished every thread and left the table empty. */
  lemma NoDeadlock(s0: State, schedule: seq<nat>)
    requires Init(s0) && Runs(s0, schedule)
    requires forall i :: 0 <= i < |Exec(s0, schedule).threads| ==> !Enabled(Exec(s0, schedule), i)
    ensures forall i :: 0 <= i < |Exec(s0, schedule).threads| ==> Done(Exec(s0, schedule).threads[i])
    ensures Exec(s0, schedule).table == map[]
  {
    InitInv(s0);
    RunInv(s0, schedule);
    var s := Exec(s0, schedule);
    forall u | 0 <= u < |s.threads|
      ensures Done(s.threads[u])
    {
      if !Done(s.threads[u]) {
        var i := SomeThreadMoves(s, u);
      }
    }
    QuiescentTableIsEmpty(s0, schedule);
  }

  // ---------------------------------------------------------------- every order is entered

  /** The trade number whose critical section the step of thread i enters. */
  function Entry(s: State, i: nat): seq<string>
    requires i < |s.threads| && Enabled(s, i)
  {
    var pc, threads := s.threads[i].pc, Act(s, i).threads;
    if i < |threads| && !pc.Critical? && threads[i].pc.Critical? then [threads[i].pc.t] else []
  }

  /** The trade numbers whose critical sections thread i enters along the run, in order. */
  function Entered(s: State, schedule: seq<nat>, i: nat): seq<string>
    requires Runs(s, schedule)
    decreases |schedule|
  {
    if |schedule| == 0 then []
    else (if schedule[0] == i then Entry(s, i) else []) + Entered(Act(s, schedule[0]), schedule[1..], i)
  }

  /** The trade number that the thread is about to lock. */
  function Acquiring(pc: Pc): seq<string> {
    if pc.WantCreate? || pc.Looking? || pc.Storing? || pc.Counting? || pc.Leaving? || pc.Waiting? then [pc.t] else []
  }

  /** What the thread has not entered yet. */
  function Ahead(th: Thread): seq<string> { Acquiring(th.pc) + th.todo }

  lemma NextOrder(s: State, i: nat)
    requires i < |s.threads| && Enabled(s, i) && s.threads[i].pc.Idle?
    ensures var th, th' := s.threads[i], Act(s, i).threads[i];
            Entry(s, i) == [] && Acquiring(th'.pc) == [th.todo[0]] && th'.todo == th.todo[1..]
  {
  }

  lemma SameOrder(s: State, i: nat)
    requires i < |s.threads| && Enabled(s, i) && !s.threads[i].pc.Idle? && |Act(s, i).threads| == |s.threads|
    requires s.threads[i].pc.Counting? ==> s.threads[i].pc.r < |s.heap|
    ensures var th, th' := s.threads[i], Act(s, i).threads[i];
            th'.todo == th.todo && Acquiring(th.pc) == if |Entry(s, i)| == 0 then Acquiring(th'.pc) else Entry(s, i)
    ensures |Entry(s, i)| > 0 ==> |Acquiring(Act(s, i).threads[i].pc)| == 0
  {
  }

  lemma EntryIsAhead(s: State, i: nat)
    requires i < |s.threads| && Enabled(s, i) && |Act(s, i).threads| == |s.threads|
    requires s.threads[i].pc.Counting? ==> s.threads[i].pc.r < |s.heap|
    ensures Entry(s, i) + Ahead(Act(s, i).threads[i]) == Ahead(s.threads[i])
  {
    if s.threads[i].pc.Idle? { NextOrder(s, i); } else { SameOrder(s, i); }
    Shifted(Entry(s, i), s.threads[i], Act(s, i).threads[i]);
  }

  lemma Shifted(entry: seq<string>, th: Thread, th': Thread)
    requires th.pc.Idle? ==>
               |th.todo| > 0 && entry == [] && Acquiring(th'.pc) == [th.todo[0]] && th'.todo == th.todo[1..]
    requires !th.pc.Idle? ==>
               th'.todo == th.todo && Acquiring(th.pc) == if |entry| == 0 then Acquiring(th'.pc) else entry
    requires |entry| > 0 ==> |Acquiring(th'.pc)| == 0
    ensures entry + Ahead(th') == Ahead(th)
  {
    if th.pc.Idle? {
      assert [th.todo[0]] + th.todo[1..] == th.todo;
    }
  }

  lemma CountingIsSafe(s: State, i: nat)
    requires Inv(s) && i < |s.threads|
    ensures s.threads[i].pc.Counting? ==> s.threads[i].pc.r < |s.heap|
  {
    assert PcOk(s, s.threads[i].pc);
  }

  lemma StepConserves(s: State, k: nat, i: nat)
    requires Inv(s) && k < |s.threads| && Enabled(s, k) && i < |s.threads|
    ensures Inv(Act(s, k)) && |Act(s, k).threads| == |s.threads|
    ensures (if k == i then Entry(s, i) else []) + Ahead(Act(s, k).threads[i]) == Ahead(s.threads[i])
  {
    StepInv(s, k);
    OneThreadMoves(s, k);
    CountingIsSafe(s, k);
    EntryIsAhead(s, k);
    if k != i {
      assert Act(s, k).threads[i] == s.threads[i];
      assert [] + Ahead(s.threads[i]) == Ahead(s.threads[i]);
    }
  }

  lemma Regroup(a: seq<string>, b: seq<string>, c: seq<string>, d: seq<string>, e: seq<string>)
    requires a + d == e && b + c == d
    ensures a + b + c == e
  {
    assert a + b + c == a + (b + c);
  }

  /** In every run the orders a thread has entered and those still ahead of it are its initial list. */
  lemma {:induction false} OrdersAreConserved(s: State, schedule: seq<nat>, i: nat)
    requires Inv(s) && Runs(s, schedule) && i < |s.threads|
    ensures i < |Exec(s, schedule).threads|
    ensures Entered(s, schedule, i) + Ahead(Exec(s, schedule).threads[i]) == Ahead(s.threads[i])
    decreases |schedule|
  {
    if |schedule| == 0 {
      assert [] + Ahead(s.threads[i]) == Ahead(s.threads[i]);
    } else {
      var k := schedule[0];
      var s' := Act(s, k);
      StepConserves(s, k, i);
      OrdersAreConserved(s', schedule[1..], i);
      Regroup(if k == i then Entry(s, i) else [], Entered(s', schedule[1..], i),
              Ahead(Exec(s', schedule[1..]).threads[i]), Ahead(s'.threads[i]), Ahead(s.threads[i]));
    }
  }

  /** Every thread enters the critical section of each of its orders, once and in order, before it is done: a
      run that cannot be extended has entered them all. */
  lemma EveryOrderIsEntered(s0: State, schedule: seq<nat>, i: nat)
    requires Init(s0) && Runs(s0, schedule) && i < |s0.threads|
    requires forall k :: 0 <= k < |Exec(s0, schedule).threads| ==> !Enabled(Exec(s0, schedule), k)
    ensures Entered(s0, schedule, i) == s0.threads[i].todo
  {
    InitInv(s0);
    OrdersAreConserved(s0, schedule, i);
    NoDeadlock(s0, schedule);
    var entered, last := Entered(s0, schedule, i), Exec(s0, schedule).threads[i];
    assert Done(last) && Ahead(last) == [];
    assert entered + [] == entered;
    assert [] + s0.threads[i].todo == s0.threads[i].todo;
  }

  /** Steps a thread still has to take at most. */
  function Remaining(th: Thread): nat {
    13 * |th.todo| +
    match th.pc
    case Idle => 0
    case WantCreate(_) => 12
    case Looking(_) => 11
    case Storing(_, _) => 10
    case Counting(_, _) => 9
    case Leaving(_, _) => 8
    case Waiting(_, _) => 7
    case Critical(_, _) => 6
    case Releasing(_, _) => 5
    case WantDrop(_, _) => 4
    case Dropping(_, _) => 3
    case Checking(_, _) => 2
    case Finishing(_) => 1
    case Crashed => 0
  }

  function Work(ts: seq<Thread>): nat {
    if ts == [] then 0 else Remaining(ts[0]) + Work(ts[1..])
  }

  lemma {:induction false} WorkUpdate(ts: seq<Thread>, i: nat, th: Thread)
    requires i < |ts|
    ensures Work(ts[i := th]) + Remaining(ts[i]) == Work(ts) + Remaining(th)
  {
    if i == 0 {
      assert ts[0 := th][1..] == ts[1..];
    } else {
      assert ts[i := th][1..] == ts[1..][i - 1 := th];
      WorkUpdate(ts[1..], i - 1, th);
    }
  }

  lemma OneThreadMoves(s: State, i: nat)
    requires i < |s.threads| && Enabled(s, i)
    ensures |Act(s, i).threads| == |s.threads|
    ensures Act(s, i).threads == s.threads[i := Act(s, i).threads[i]]
  {
  }

  lemma StepWorks(s: State, i: nat)
    requires i < |s.threads| && Enabled(s, i) && |Act(s, i).threads| == |s.threads|
    ensures Remaining(Act(s, i).threads[i]) < Remaining(s.threads[i])
  {
  }

  /** Termination: whatever the interleaving, a run is no longer than the work the threads start with. */
  lemma {:induction false} RunsAreBounded(s: State, schedule: seq<nat>)
    requires Runs(s, schedule)
    ensures |schedule| + Work(Exec(s, schedule).threads) <= Work(s.threads)
    decreases |schedule|
  {
    if schedule != [] {
      var i := schedule[0];
      var s' := Act(s, i);
      OneThreadMoves(s, i);
      StepWorks(s, i);
      WorkUpdate(s.threads, i, s'.threads[i]);
      RunsAreBounded(s', schedule[1..]);
    }
  }
}
