/**
 The bounded worker pool of the channel health check: a producer, a fixed number
 of workers, a closer and a reducing caller, connected by unbuffered channels,
 with a cancellable context. The `run` callback is an oracle: its result is part
 of the action that returns it.

 A run is a sequence of actions. An unbuffered send and its receive are one
 action; a select whose two branches are both ready may take either.
 */
module WorkerPool {

  /** The counters of one test cycle. */
  datatype Summary = Summary(tested: int, succeeded: int, failed: int, disabled: int, enabled: int)

  const ZERO := Summary(0, 0, 0, 0, 0)

  function Add(a: Summary, b: Summary): Summary {
    Summary(a.tested + b.tested, a.succeeded + b.succeeded, a.failed + b.failed, a.disabled + b.disabled,
        a.enabled + b.enabled)
  }

  const MANUALLY_DISABLED := 2

  /** An element of the slice of channels: nil, or a channel with its status. */
  datatype Slot = NilSlot | Slot(status: int)

  predicate Eligible(slot: Slot) {
    slot.Slot? && slot.status != MANUALLY_DISABLED
  }

  datatype Worker =
    | Selecting                              // in the select over ctx.Done and jobs
    | Received(job: nat)                     // has a job, about to look at ctx.Err
    | Running(job: nat)                      // inside the callback
    | Sending(job: nat, result: Summary)     // results <- result
    | Pausing                                // in the select over ctx.Done and the request interval
    | Exited                                 // workers.Done has been called

  datatype Reducer = Ranging | Reporting | Returned

  /** One completed call of the callback. */
  datatype Call = Call(job: nat, result: Summary)

  /** `slots`, `pause` and the number of workers are fixed for a run. `started`, `calls`, `handled` and
      `reports` record history: the positions handed to the callback, its completed calls, the
      positions whose result was received, and the values passed to the progress reporter. */
  datatype State = State(
    slots: seq<Slot>,
    pause: bool,
    cancelled: bool,
    next: nat,
    jobsClosed: bool,
    workers: seq<Worker>,
    resultsClosed: bool,
    reducer: Reducer,
    summary: Summary,
    processed: nat,
    started: seq<nat>,
    calls: seq<Call>,
    handled: seq<nat>,
    reports: seq<nat>)

  datatype Action =
    | Cancel
    | HandOver(w: nat)                   // producer sends slots[next] to worker w
    | StopProducing                      // producer sees ctx.Done, or runs out of channels
    | ExitIdle(w: nat)                   // worker sees ctx.Done or a closed jobs channel
    | CheckContext(w: nat)               // worker tests ctx.Err and the channel, and may enter the callback
    | Return(w: nat, result: Summary)    // the callback returns
    | Deliver(w: nat)                    // worker sends, caller receives and adds up
    | Resume(w: nat)                     // the request interval has passed
    | ExitPausing(w: nat)                // worker sees ctx.Done during the interval
    | Report                             // caller reports progress unless the context is cancelled
    | CloseResults                       // every worker has called Done
    | Finish                             // the range loop ends and the caller returns

  /** The state once the workers, the producer and the closer have been launched. `report(0, total)` has
      happened. With an empty slice nothing is launched and the caller has already returned. */
  predicate Init(s: State) {
    && (if s.slots == [] then s.workers == [] && s.jobsClosed && s.resultsClosed && s.reducer == Returned
        else 1 <= |s.workers| <= |s.slots| && !s.jobsClosed && !s.resultsClosed && s.reducer == Ranging)
    && (forall w :: 0 <= w < |s.workers| ==> s.workers[w] == Selecting)
    && !s.cancelled && s.next == 0 && s.summary == ZERO && s.processed == 0
    && s.started == [] && s.calls == [] && s.handled == [] && s.reports == [0]
  }

  predicate Enabled(s: State, a: Action) {
    match a
    case Cancel => !s.cancelled
    case HandOver(w) => w < |s.workers| && s.workers[w].Selecting? && !s.jobsClosed && s.next < |s.slots|
    case StopProducing => !s.jobsClosed && (s.cancelled || s.next == |s.slots|)
    case ExitIdle(w) => w < |s.workers| && s.workers[w].Selecting? && (s.cancelled || s.jobsClosed)
    case CheckContext(w) => w < |s.workers| && s.workers[w].Received? && s.workers[w].job < |s.slots|
    case Return(w, _) => w < |s.workers| && s.workers[w].Running?
    case Deliver(w) => w < |s.workers| && s.workers[w].Sending? && s.reducer == Ranging && !s.resultsClosed
    case Resume(w) => w < |s.workers| && s.workers[w].Pausing?
    case ExitPausing(w) => w < |s.workers| && s.workers[w].Pausing? && s.cancelled
    case Report => s.reducer == Reporting
    case CloseResults => !s.resultsClosed && forall w :: 0 <= w < |s.workers| ==> s.workers[w].Exited?
    case Finish => s.resultsClosed && s.reducer == Ranging
  }

  function Put(s: State, w: nat, worker: Worker): State
    requires w < |s.workers|
  {
    s.(workers := s.workers[w := worker])
  }

  function Apply(s: State, a: Action): State
    requires Enabled(s, a)
  {
    match a
    case Cancel => s.(cancelled := true)
    case HandOver(w) => Put(s, w, Received(s.next)).(next := s.next + 1)
    case StopProducing => s.(jobsClosed := true)
    case ExitIdle(w) => Put(s, w, Exited)
    case CheckContext(w) =>
      var job := s.workers[w].job;
      if s.cancelled then Put(s, w, Exited)
      else if Eligible(s.slots[job]) then Put(s, w, Running(job)).(started := s.started + [job])
      else Put(s, w, Sending(job, ZERO))
    case Return(w, result) =>
      var job := s.workers[w].job;
      Put(s, w, Sending(job, result)).(calls := s.calls + [Call(job, result)])
    case Deliver(w) =>
      var worker := s.workers[w];
      Put(s, w, if s.pause then Pausing else Selecting)
        .(summary := Add(s.summary, worker.result), processed := s.processed + 1,
          handled := s.handled + [worker.job], reducer := Reporting)
    case Resume(w) => Put(s, w, Selecting)
    case ExitPausing(w) => Put(s, w, Exited)
    case Report => s.(reducer := Ranging, reports := if s.cancelled then s.reports else s.reports + [s.processed])
    case CloseResults => s.(resultsClosed := true)
    case Finish => s.(reducer := Returned)
  }

  predicate Runs(s: State, actions: seq<Action>)
    decreases |actions|
  {
    |actions| == 0 || (Enabled(s, actions[0]) && Runs(Apply(s, actions[0]), actions[1..]))
  }

  function Exec(s: State, actions: seq<Action>): State
    requires Runs(s, actions)
    decreases |actions|
  {
    if |actions| == 0 then s else Exec(Apply(s, actions[0]), actions[1..])
  }

  predicate Final(s: State) { s.reducer == Returned }

  // ---------------------------------------------------------------- sums

  datatype Counter = Tested | Succeeded | Failed | Disabled | Enabled_

  function Get(s: Summary, c: Counter): int {
    match c
    case Tested => s.tested
    case Succeeded => s.succeeded
    case Failed => s.failed
    case Disabled => s.disabled
    case Enabled_ => s.enabled
  }

  /** One counter added up over the completed calls of the callback. */
  function Total(calls: seq<Call>, c: Counter): int {
    if |calls| == 0 then 0 else Total(calls[..|calls| - 1], c) + Get(calls[|calls| - 1].result, c)
  }

  function Held(worker: Worker, c: Counter): int {
    if worker.Sending? then Get(worker.result, c) else 0
  }

  /** One counter added up over the results computed but not yet received. */
  function Pending(workers: seq<Worker>, c: Counter): int {
    if |workers| == 0 then 0 else Held(workers[0], c) + Pending(workers[1..], c)
  }

  lemma {:induction false} PendingUpdate(workers: seq<Worker>, w: nat, worker: Worker, c: Counter)
    requires w < |workers|
    ensures Pending(workers[w := worker], c) + Held(workers[w], c) == Pending(workers, c) + Held(worker, c)
  {
    if w == 0 {
      assert workers[0 := worker][1..] == workers[1..];
    } else {
      assert workers[w := worker][1..] == workers[1..][w - 1 := worker];
      PendingUpdate(workers[1..], w - 1, worker, c);
    }
  }

  lemma {:induction false} NothingPending(workers: seq<Worker>, c: Counter)
    requires forall w :: 0 <= w < |workers| ==> !workers[w].Sending?
    ensures Pending(workers, c) == 0
  {
    if |workers| != 0 { NothingPending(workers[1..], c); }
  }

  // ---------------------------------------------------------------- the invariant

  predicate NoDup(xs: seq<nat>) {
    forall i, j :: 0 <= i < j < |xs| ==> xs[i] != xs[j]
  }

  function Jobs(calls: seq<Call>): (r: seq<nat>)
    ensures |r| == |calls|
    ensures forall i :: 0 <= i < |r| ==> r[i] == calls[i].job
  {
    seq(|calls|, i requires 0 <= i < |calls| => calls[i].job)
  }

  predicate Busy(worker: Worker) {
    worker.Received? || worker.Running? || worker.Sending?
  }

  predicate WorkerOk(s: State, worker: Worker) {
    && (Busy(worker) ==> worker.job < s.next <= |s.slots| && worker.job !in s.handled)
    && (worker.Received? ==> worker.job !in s.started)
    && (worker.Running? ==> worker.job in s.started && worker.job !in Jobs(s.calls))
    && (worker.Sending? ==>
          if Eligible(s.slots[worker.job]) then worker.job in Jobs(s.calls)
          else worker.result == ZERO)
    && (worker.Exited? ==> s.cancelled || s.jobsClosed)
  }

  predicate WorkersOk(s: State) {
    && (forall w :: 0 <= w < |s.workers| ==> WorkerOk(s, s.workers[w]))
    && (forall v, w :: 0 <= v < w < |s.workers| && Busy(s.workers[v]) && Busy(s.workers[w]) ==>
          s.workers[v].job != s.workers[w].job)
  }

  predicate HistoryOk(s: State) {
    && s.next <= |s.slots|
    && NoDup(s.handled) && NoDup(s.started) && NoDup(Jobs(s.calls))
    && (forall j :: j in s.handled ==> j < s.next && (Eligible(s.slots[j]) ==> j in Jobs(s.calls)))
    && (forall j :: j in s.started ==> j < s.next && Eligible(s.slots[j]))
    && (forall j :: j in Jobs(s.calls) ==> j in s.started)
  }

  predicate HeldBy(s: State, j: nat) {
    exists w :: 0 <= w < |s.workers| && Busy(s.workers[w]) && s.workers[w].job == j
  }

  predicate RunningAt(s: State, j: nat) {
    exists w :: 0 <= w < |s.workers| && s.workers[w] == Running(j)
  }

  /** No position is lost: a started call completes or is still running, and, unless the context was
      cancelled, a position that was handed out is received or still held. */
  predicate NothingLost(s: State) {
    && (forall j :: j in s.started && j !in Jobs(s.calls) ==> RunningAt(s, j))
    && (!s.cancelled ==> forall j: nat :: j < s.next && j !in s.handled ==> HeldBy(s, j))
  }

  predicate ControlOk(s: State) {
    && (s.slots != [] ==> 1 <= |s.workers|)
    && (s.jobsClosed ==> s.cancelled || s.next == |s.slots|)
    && (s.resultsClosed ==> forall w :: 0 <= w < |s.workers| ==> s.workers[w].Exited?)
    && (s.reducer == Returned ==> s.resultsClosed)
  }

  /** The reporter has seen 0, 1, 2, ... without a gap, and up to the latest result unless cancelled. */
  predicate ReportsOk(s: State) {
    && s.processed == |s.handled|
    && (forall i :: 0 <= i < |s.reports| ==> s.reports[i] == i)
    && |s.reports| <= s.processed + 1
    && (s.reducer == Reporting ==> |s.reports| <= s.processed)
    && (!s.cancelled ==> |s.reports| == if s.reducer == Reporting then s.processed else s.processed + 1)
  }

  predicate SumsOk(s: State) {
    forall c :: Get(s.summary, c) + Pending(s.workers, c) == Total(s.calls, c)
  }

  predicate Inv(s: State) {
    WorkersOk(s) && HistoryOk(s) && NothingLost(s) && ControlOk(s) && ReportsOk(s) && SumsOk(s)
  }

  lemma InitInv(s: State)
    requires Init(s)
    ensures Inv(s)
  {
    forall c
      ensures Pending(s.workers, c) == 0
    {
      NothingPending(s.workers, c);
    }
  }

  lemma SumsPut(s: State, w: nat, worker: Worker)
    requires SumsOk(s) && w < |s.workers|
    requires !s.workers[w].Sending? && (worker.Sending? ==> worker.result == ZERO)
    ensures SumsOk(Put(s, w, worker))
  {
    forall c
      ensures Pending(Put(s, w, worker).workers, c) == Pending(s.workers, c)
    {
      PendingUpdate(s.workers, w, worker, c);
    }
  }

  lemma SumsReturn(s: State, w: nat, result: Summary)
    requires SumsOk(s) && Enabled(s, Return(w, result))
    ensures SumsOk(Apply(s, Return(w, result)))
  {
    var s' := Apply(s, Return(w, result));
    forall c
      ensures Get(s'.summary, c) + Pending(s'.workers, c) == Total(s'.calls, c)
    {
      PendingUpdate(s.workers, w, s'.workers[w], c);
      assert s'.calls[..|s'.calls| - 1] == s.calls;
    }
  }

  lemma SumsDeliver(s: State, w: nat)
    requires SumsOk(s) && Enabled(s, Deliver(w))
    ensures SumsOk(Apply(s, Deliver(w)))
  {
    var s' := Apply(s, Deliver(w));
    forall c
      ensures Get(s'.summary, c) + Pending(s'.workers, c) == Total(s'.calls, c)
    {
      PendingUpdate(s.workers, w, s'.workers[w], c);
      assert Get(s'.summary, c) == Get(s.summary, c) + Get(s.workers[w].result, c);
    }
  }

  lemma SumsStep(s: State, a: Action)
    requires SumsOk(s) && Enabled(s, a)
    ensures SumsOk(Apply(s, a))
  {
    match a
    case HandOver(w) => SumsPut(s, w, Received(s.next));
    case ExitIdle(w) => SumsPut(s, w, Exited);
    case CheckContext(w) => SumsPut(s, w, Apply(s, a).workers[w]);
    case Return(w, result) => SumsReturn(s, w, result);
    case Deliver(w) => SumsDeliver(s, w);
    case Resume(w) => SumsPut(s, w, Selecting);
    case ExitPausing(w) => SumsPut(s, w, Exited);
    case _ =>
  }

  lemma ControlStep(s: State, a: Action)
    requires ControlOk(s) && Enabled(s, a)
    ensures ControlOk(Apply(s, a))
  {
    match a
    case Cancel | StopProducing | Report | CloseResults | Finish =>
    case _ => assert !s.workers[a.w].Exited?;
  }

  lemma ReportsStep(s: State, a: Action)
    requires ReportsOk(s) && Enabled(s, a)
    ensures ReportsOk(Apply(s, a))
  {
    match a
    case Report =>
    case Deliver(w) =>
    case _ => assert Apply(s, a).reports == s.reports && Apply(s, a).handled == s.handled;
  }

  lemma WorkersHandOver(s: State, w: nat)
    requires WorkersOk(s) && HistoryOk(s) && Enabled(s, HandOver(w))
    ensures WorkersOk(Apply(s, HandOver(w)))
  {
  }

  lemma WorkersRelease(s: State, w: nat, worker: Worker)
    requires WorkersOk(s) && HistoryOk(s) && w < |s.workers| && (worker.Selecting? || worker.Exited?)
    requires worker.Exited? ==> s.cancelled || s.jobsClosed
    ensures WorkersOk(Put(s, w, worker))
  {
  }

  /** The worker keeps its position while it moves on. */
  lemma WorkersMove(s: State, w: nat, worker: Worker, started: seq<nat>)
    requires WorkersOk(s) && w < |s.workers| && s.workers[w].Received?
    requires worker == Sending(s.workers[w].job, ZERO) || worker == Running(s.workers[w].job)
    requires WorkerOk(s.(started := started), worker)
    requires forall j :: j in started <==> j in s.started || (worker.Running? && j == s.workers[w].job)
    ensures WorkersOk(Put(s, w, worker).(started := started))
  {
    var s' := Put(s, w, worker).(started := started);
    forall v | 0 <= v < |s'.workers|
      ensures WorkerOk(s', s'.workers[v])
    {
      assert WorkerOk(s, s.workers[v]);
    }
  }

  lemma WorkersCheck(s: State, w: nat)
    requires WorkersOk(s) && HistoryOk(s) && Enabled(s, CheckContext(w))
    ensures WorkersOk(Apply(s, CheckContext(w)))
  {
    var job := s.workers[w].job;
    assert WorkerOk(s, s.workers[w]);
    if s.cancelled {
      WorkersRelease(s, w, Exited);
    } else if Eligible(s.slots[job]) {
      WorkersMove(s, w, Running(job), s.started + [job]);
    } else {
      WorkersMove(s, w, Sending(job, ZERO), s.started);
    }
  }

  lemma WorkersReturn(s: State, w: nat, result: Summary)
    requires WorkersOk(s) && HistoryOk(s) && Enabled(s, Return(w, result))
    ensures WorkersOk(Apply(s, Return(w, result)))
  {
    assert WorkerOk(s, s.workers[w]);
    assert Jobs(s.calls + [Call(s.workers[w].job, result)]) == Jobs(s.calls) + [s.workers[w].job];
  }

  lemma WorkersDeliver(s: State, w: nat)
    requires WorkersOk(s) && HistoryOk(s) && Enabled(s, Deliver(w))
    ensures WorkersOk(Apply(s, Deliver(w)))
  {
  }

  lemma WorkersStep(s: State, a: Action)
    requires WorkersOk(s) && HistoryOk(s) && Enabled(s, a)
    ensures WorkersOk(Apply(s, a))
  {
    match a
    case HandOver(w) => WorkersHandOver(s, w);
    case CheckContext(w) => WorkersCheck(s, w);
    case Return(w, result) => WorkersReturn(s, w, result);
    case Deliver(w) => WorkersDeliver(s, w);
    case ExitIdle(w) => WorkersRelease(s, w, Exited);
    case Resume(w) => WorkersRelease(s, w, Selecting);
    case ExitPausing(w) => WorkersRelease(s, w, Exited);
    case _ =>
  }

  lemma HistoryReturn(s: State, w: nat, result: Summary)
    requires WorkersOk(s) && HistoryOk(s) && Enabled(s, Return(w, result))
    ensures HistoryOk(Apply(s, Return(w, result)))
  {
    assert WorkerOk(s, s.workers[w]);
    assert Jobs(s.calls + [Call(s.workers[w].job, result)]) == Jobs(s.calls) + [s.workers[w].job];
  }

  lemma HistoryDeliver(s: State, w: nat)
    requires WorkersOk(s) && HistoryOk(s) && Enabled(s, Deliver(w))
    ensures HistoryOk(Apply(s, Deliver(w)))
  {
    assert WorkerOk(s, s.workers[w]);
  }

  lemma HistoryStep(s: State, a: Action)
    requires WorkersOk(s) && HistoryOk(s) && Enabled(s, a)
    ensures HistoryOk(Apply(s, a))
  {
    match a
    case Return(w, result) => HistoryReturn(s, w, result);
    case Deliver(w) => HistoryDeliver(s, w);
    case CheckContext(w) => assert WorkerOk(s, s.workers[w]);
    case _ =>
  }

  lemma CallsStep(s: State, a: Action)
    requires NothingLost(s) && Enabled(s, a)
    ensures var s' := Apply(s, a); forall j :: j in s'.started && j !in Jobs(s'.calls) ==> RunningAt(s', j)
  {
    var s' := Apply(s, a);
    if a.Return? {
      assert Jobs(s'.calls) == Jobs(s.calls) + [s.workers[a.w].job];
    }
    forall j | j in s'.started && j !in Jobs(s'.calls)
      ensures RunningAt(s', j)
    {
      if j in s.started {
        var w :| 0 <= w < |s.workers| && s.workers[w] == Running(j);
        assert s'.workers[w] == Running(j);
      } else {
        assert s'.workers[a.w] == Running(j);
      }
    }
  }

  /** A busy worker keeps its position until the position is handled. */
  lemma KeepsItsJob(s: State, a: Action, w: int, j: nat)
    requires Enabled(s, a)
    requires 0 <= w < |s.workers| && Busy(s.workers[w]) && s.workers[w].job == j && j !in Apply(s, a).handled
    requires !Apply(s, a).cancelled
    ensures HeldBy(Apply(s, a), j)
  {
    var s' := Apply(s, a);
    assert Busy(s'.workers[w]) && s'.workers[w].job == j;
  }

  lemma HeldStep(s: State, a: Action)
    requires NothingLost(s) && Enabled(s, a)
    ensures var s' := Apply(s, a); !s'.cancelled ==> forall j: nat :: j < s'.next && j !in s'.handled ==> HeldBy(s', j)
  {
    var s' := Apply(s, a);
    forall j: nat | !s'.cancelled && j < s'.next && j !in s'.handled
      ensures HeldBy(s', j)
    {
      if j < s.next {
        assert HeldBy(s, j);
        var w :| 0 <= w < |s.workers| && Busy(s.workers[w]) && s.workers[w].job == j;
        KeepsItsJob(s, a, w, j);
      } else {
        assert Busy(s'.workers[a.w]) && s'.workers[a.w].job == j;
      }
    }
  }

  /** Every action keeps the invariant. */
  lemma StepInv(s: State, a: Action)
    requires Inv(s) && Enabled(s, a)
    ensures Inv(Apply(s, a))
  {
    WorkersStep(s, a);
    HistoryStep(s, a);
    CallsStep(s, a);
    HeldStep(s, a);
    ControlStep(s, a);
    ReportsStep(s, a);
    SumsStep(s, a);
  }

  lemma {:induction false} SlotsAreKept(s: State, actions: seq<Action>)
    requires Runs(s, actions)
    ensures Exec(s, actions).slots == s.slots
    decreases |actions|
  {
    if |actions| > 0 {
      SlotsAreKept(Apply(s, actions[0]), actions[1..]);
    }
  }

  lemma {:induction false} InvOverRun(s: State, actions: seq<Action>)
    requires Inv(s) && Runs(s, actions)
    ensures Inv(Exec(s, actions))
    decreases |actions|
  {
    if |actions| > 0 {
      StepInv(s, actions[0]);
      InvOverRun(Apply(s, actions[0]), actions[1..]);
    }
  }

  lemma RunInv(s: State, actions: seq<Action>)
    requires Inv(s) && Runs(s, actions)
    ensures Inv(Exec(s, actions)) && Exec(s, actions).slots == s.slots
  {
    InvOverRun(s, actions);
    SlotsAreKept(s, actions);
  }

  // ---------------------------------------------------------------- what every run guarantees

  /** Whatever the interleaving and whenever the context is cancelled, each position of the slice enters
      the callback at most once, and only eligible channels do. */
  lemma EachChannelRunsAtMostOnce(s0: State, actions: seq<Action>)
    requires Init(s0) && Runs(s0, actions)
    ensures NoDup(Exec(s0, actions).started)
    ensures forall j :: j in Exec(s0, actions).started ==>
              j < |s0.slots| && s0.slots[j] != NilSlot && s0.slots[j].status != 2
  {
    InitInv(s0);
    RunInv(s0, actions);
  }

  /** After a cancellation no further call is started and no further progress is reported, whatever happens. */
  lemma {:induction false} CancelledStartsNothing(s: State, actions: seq<Action>)
    requires Runs(s, actions) && s.cancelled
    ensures Exec(s, actions).started == s.started && Exec(s, actions).reports == s.reports
    ensures Exec(s, actions).cancelled
    decreases |actions|
  {
    if |actions| > 0 {
      CancelledStartsNothing(Apply(s, actions[0]), actions[1..]);
    }
  }

  /** Conservation: when the pool returns, every call that was started has completed, and each counter of
      the returned summary is exactly its sum over those calls, cancelled or not. */
  lemma SummaryIsTheSumOfAllCalls(s0: State, actions: seq<Action>)
    requires Init(s0) && Runs(s0, actions) && Final(Exec(s0, actions))
    ensures var s := Exec(s0, actions);
            && (forall c :: Get(s.summary, c) == Total(s.calls, c))
            && NoDup(Jobs(s.calls))
            && (forall j :: j in s.started <==> j in Jobs(s.calls))
  {
    InitInv(s0);
    RunInv(s0, actions);
    var s := Exec(s0, actions);
    forall c
      ensures Get(s.summary, c) == Total(s.calls, c)
    {
      NothingPending(s.workers, c);
    }
  }

  function Elements(xs: seq<nat>): set<nat> { set x | x in xs }

  lemma {:induction false} NoDupSize(xs: seq<nat>)
    requires NoDup(xs)
    ensures |Elements(xs)| == |xs|
  {
    if |xs| != 0 {
      var init, last := xs[..|xs| - 1], xs[|xs| - 1];
      NoDupSize(init);
      assert last !in Elements(init);
      assert Elements(xs) == Elements(init) + {last};
    }
  }

  /** The numbers below n. */
  function Below(n: nat): (r: set<nat>)
    ensures |r| == n
    ensures forall x: nat :: x in r <==> x < n
  {
    if n == 0 then {} else Below(n - 1) + {n - 1}
  }

  /** Without cancellation every eligible channel completes exactly one call, every channel is counted,
      and the reporter has seen 0, 1, ..., total in order. */
  lemma UncancelledPoolIsComplete(s0: State, actions: seq<Action>)
    requires Init(s0) && Runs(s0, actions) && Final(Exec(s0, actions)) && !Exec(s0, actions).cancelled
    ensures var s := Exec(s0, actions);
            && NoDup(Jobs(s.calls))
            && (forall j: nat :: j < |s0.slots| ==>
                  (j in Jobs(s.calls) <==> s0.slots[j] != NilSlot && s0.slots[j].status != 2))
            && s.processed == |s0.slots|
            && |s.reports| == |s0.slots| + 1
            && (forall i :: 0 <= i < |s.reports| ==> s.reports[i] == i)
  {
    InitInv(s0);
    RunInv(s0, actions);
    var s := Exec(s0, actions);
    if s.slots != [] { assert WorkerOk(s, s.workers[0]); }
    assert s.next == |s.slots|;
    forall j: nat | j < s.next
      ensures j in s.handled
    {
      assert j in s.handled || HeldBy(s, j);
    }
    NoDupSize(s.handled);
    assert Elements(s.handled) == Below(|s.slots|);
  }

  /** Deadlock freedom: before the pool has returned, an action other than cancellation is possible. */
  lemma SomeActionIsEnabled(s: State) returns (a: Action)
    requires Inv(s) && !Final(s)
    ensures Enabled(s, a) && a != Cancel
  {
    if s.reducer == Reporting {
      a := Report;
    } else if s.resultsClosed {
      a := Finish;
    } else if forall w :: 0 <= w < |s.workers| ==> s.workers[w].Exited? {
      a := CloseResults;
    } else {
      var w: nat :| 0 <= w < |s.workers| && !s.workers[w].Exited?;
      assert WorkerOk(s, s.workers[w]);
      match s.workers[w]
      case Selecting =>
        a := if s.jobsClosed then ExitIdle(w) else if s.next < |s.slots| then HandOver(w) else StopProducing;
      case Received(_) => a := CheckContext(w);
      case Running(_) => a := Return(w, ZERO);
      case Sending(_, _) => a := Deliver(w);
      case Pausing => a := Resume(w);
    }
  }

  function Weight(worker: Worker): nat {
    match worker
    case Selecting => 1
    case Received(_) => 7
    case Running(_) => 6
    case Sending(_, _) => 5
    case Pausing => 2
    case Exited => 0
  }

  function Weights(workers: seq<Worker>): nat {
    if |workers| == 0 then 0 else Weight(workers[0]) + Weights(workers[1..])
  }

  lemma {:induction false} WeightsUpdate(workers: seq<Worker>, w: nat, worker: Worker)
    requires w < |workers|
    ensures Weights(workers[w := worker]) + Weight(workers[w]) == Weights(workers) + Weight(worker)
  {
    if w == 0 {
      assert workers[0 := worker][1..] == workers[1..];
    } else {
      assert workers[w := worker][1..] == workers[1..][w - 1 := worker];
      WeightsUpdate(workers[1..], w - 1, worker);
    }
  }

  function Bit(b: bool): nat { if b then 1 else 0 }

  /** A bound on the number of actions still to come. */
  function Work(s: State): int {
    8 * (|s.slots| - s.next) + Weights(s.workers)
    + Bit(!s.cancelled) + Bit(!s.jobsClosed) + Bit(!s.resultsClosed)
    + (match s.reducer case Ranging => 1 case Reporting => 2 case Returned => 0)
  }

  lemma PutWorks(s: State, w: nat, worker: Worker)
    requires w < |s.workers|
    ensures Work(Put(s, w, worker)) == Work(s) - Weight(s.workers[w]) + Weight(worker)
  {
    WeightsUpdate(s.workers, w, worker);
  }

  lemma HandOverWorks(s: State, w: nat)
    requires Enabled(s, HandOver(w))
    ensures Work(Apply(s, HandOver(w))) < Work(s)
  {
    PutWorks(s, w, Received(s.next));
  }

  lemma CheckWorks(s: State, w: nat)
    requires Enabled(s, CheckContext(w))
    ensures Work(Apply(s, CheckContext(w))) < Work(s)
  {
    PutWorks(s, w, Apply(s, CheckContext(w)).workers[w]);
  }

  lemma DeliverWorks(s: State, w: nat)
    requires Enabled(s, Deliver(w))
    ensures Work(Apply(s, Deliver(w))) < Work(s)
  {
    PutWorks(s, w, if s.pause then Pausing else Selecting);
  }

  lemma StepWorks(s: State, a: Action)
    requires Enabled(s, a)
    ensures Work(Apply(s, a)) < Work(s)
  {
    match a
    case HandOver(w) => HandOverWorks(s, w);
    case ExitIdle(w) => PutWorks(s, w, Exited);
    case CheckContext(w) => CheckWorks(s, w);
    case Return(w, result) => PutWorks(s, w, Sending(s.workers[w].job, result));
    case Deliver(w) => DeliverWorks(s, w);
    case Resume(w) => PutWorks(s, w, Selecting);
    case ExitPausing(w) => PutWorks(s, w, Exited);
    case _ =>
  }

  /** Termination: provided the callback returns, no run is longer than the initial work. */
  lemma {:induction false} RunsAreBounded(s: State, actions: seq<Action>)
    requires Inv(s) && Runs(s, actions)
    ensures |actions| <= Work(s)
    decreases |actions|
  {
    if actions != [] {
      StepInv(s, actions[0]);
      StepWorks(s, actions[0]);
      RunsAreBounded(Apply(s, actions[0]), actions[1..]);
    }
  }

  /** A run that cannot be extended, except perhaps by a cancellation, has closed the results channel,
      ended every worker and returned. */
  lemma MaximalRunsReturn(s0: State, actions: seq<Action>)
    requires Init(s0) && Runs(s0, actions)
    requires forall a :: Enabled(Exec(s0, actions), a) ==> a == Cancel
    ensures var s := Exec(s0, actions);
            Final(s) && s.resultsClosed && forall w :: 0 <= w < |s.workers| ==> s.workers[w].Exited?
  {
    InitInv(s0);
    RunInv(s0, actions);
    if !Final(Exec(s0, actions)) {
      var a := SomeActionIsEnabled(Exec(s0, actions));
    }
  }

  // ---------------------------------------------------------------- the health check behind the callback

  /** What one test of a channel found. `slow` says the response time exceeded the disabling threshold. */
  datatype Probe = Probe(
    cancelled: bool, apiError: bool, bannable: bool, autoDisable: bool, slow: bool,
    allowDisable: bool, channelEnabled: bool, localError: bool, recoverable: bool)

  function HealthCheck(p: Probe): Summary {
    if p.cancelled then ZERO
    else
      var banned := p.apiError && p.bannable;
      var tooSlow := p.autoDisable && !banned && p.slow;
      var failed := p.apiError || tooSlow;
      Summary(1,
              Bit(!failed),
              Bit(failed),
              Bit(p.allowDisable && p.channelEnabled && (banned || tooSlow)),
              Bit(!p.localError && !p.channelEnabled && p.recoverable))
  }

  ghost predicate FromHealthCheck(result: Summary) {
    exists p :: result == HealthCheck(p)
  }

  /** Every test succeeded or failed, and changed the channel's state at most once. */
  predicate Consistent(s: Summary) {
    && s.tested == s.succeeded + s.failed
    && 0 <= s.succeeded && 0 <= s.failed && 0 <= s.disabled && 0 <= s.enabled
    && s.disabled <= s.failed
    && s.disabled + s.enabled <= s.tested
  }

  lemma {:induction false} TotalIsConsistent(calls: seq<Call>)
    requires forall k :: 0 <= k < |calls| ==> FromHealthCheck(calls[k].result)
    ensures Consistent(Summary(Total(calls, Tested), Total(calls, Succeeded), Total(calls, Failed),
              Total(calls, Disabled), Total(calls, Enabled_)))
    ensures Total(calls, Tested) <= |calls|
  {
    if |calls| != 0 {
      TotalIsConsistent(calls[..|calls| - 1]);
      assert FromHealthCheck(calls[|calls| - 1].result);
    }
  }

  /** The summary of a whole test cycle is consistent, and tests no more channels than were started. */
  lemma CycleSummaryIsConsistent(s0: State, actions: seq<Action>)
    requires Init(s0) && Runs(s0, actions) && Final(Exec(s0, actions))
    requires forall k :: 0 <= k < |Exec(s0, actions).calls| ==> FromHealthCheck(Exec(s0, actions).calls[k].result)
    ensures Consistent(Exec(s0, actions).summary)
    ensures Exec(s0, actions).summary.tested <= |Exec(s0, actions).calls|
  {
    SummaryIsTheSumOfAllCalls(s0, actions);
    var s := Exec(s0, actions);
    TotalIsConsistent(s.calls);
    assert Get(s.summary, Tested) == Total(s.calls, Tested);
    assert Get(s.summary, Succeeded) == Total(s.calls, Succeeded);
    assert Get(s.summary, Failed) == Total(s.calls, Failed);
    assert Get(s.summary, Disabled) == Total(s.calls, Disabled);
    assert Get(s.summary, Enabled_) == Total(s.calls, Enabled_);
  }

  // ---------------------------------------------------------------- what the counters count

  /** The conditions on what a test found, by counter. */
  predicate CountedIn(p: Probe, c: Counter) {
    && !p.cancelled
    && match c
       case Tested => true
       case Succeeded => !p.apiError && !(p.slow && p.autoDisable)
       case Failed => p.apiError || (p.slow && p.autoDisable)
       case Disabled =>
         p.channelEnabled && p.allowDisable && ((p.apiError && p.bannable) || (p.slow && p.autoDisable))
       case Enabled_ => !p.channelEnabled && p.recoverable && !p.localError
  }

  function CountProbes(probes: seq<Probe>, c: Counter): nat {
    if |probes| == 0 then 0
    else CountProbes(probes[..|probes| - 1], c) + if CountedIn(probes[|probes| - 1], c) then 1 else 0
  }

  /** The calls returned what the health check made of the probes. */
  predicate Probed(calls: seq<Call>, probes: seq<Probe>) {
    |calls| == |probes| && forall k :: 0 <= k < |calls| ==> calls[k].result == HealthCheck(probes[k])
  }

  lemma {:induction false} TotalCountsProbes(calls: seq<Call>, probes: seq<Probe>, c: Counter)
    requires Probed(calls, probes)
    ensures Total(calls, c) == CountProbes(probes, c)
  {
    if |calls| > 0 {
      var n := |calls| - 1;
      TotalCountsProbes(calls[..n], probes[..n], c);
      assert calls[n].result == HealthCheck(probes[n]);
    }
  }

  /** Each counter of a whole test cycle is the number of tests that meet its condition. */
  lemma CycleSummaryCountsProbes(s0: State, actions: seq<Action>, probes: seq<Probe>, c: Counter)
    requires Init(s0) && Runs(s0, actions) && Final(Exec(s0, actions)) && Probed(Exec(s0, actions).calls, probes)
    ensures Get(Exec(s0, actions).summary, c) == CountProbes(probes, c)
  {
    SummaryIsTheSumOfAllCalls(s0, actions);
    TotalCountsProbes(Exec(s0, actions).calls, probes, c);
  }
}
