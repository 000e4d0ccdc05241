/**
 The in-memory sliding-window rate limiter: per key a bounded queue of the
 latest accepted request times, and a background sweeper that drops idle keys.

 The limiter is compared with a naive one that remembers every accepted request
 and accepts exactly when fewer than the limit were accepted in the last
 `duration` seconds. Times are whole seconds; the clock is an input.
 */
module RateLimiter {

  type Store = map<string, seq<int>>

  /** The store and the answer of one call of Request. */
  datatype Outcome = Outcome(store: Store, ok: bool)

  predicate NonEmptyQueues(store: Store) {
    forall key :: key in store ==> store[key] != []
  }

  /** The effect of Request on the store, as the source computes it. */
  function Request(store: Store, key: string, maxRequestNum: nat, duration: int, now: int): Outcome
    requires NonEmptyQueues(store)
  {
    if key !in store then Outcome(store[key := [now]], true)
    else
      var queue := store[key];
      if |queue| < maxRequestNum then Outcome(store[key := queue + [now]], true)
      else if now - queue[0] >= duration then Outcome(store[key := queue[1..] + [now]], true)
      else Outcome(store, false)
  }

  predicate Expired(queue: seq<int>, now: int, expiration: int) {
    |queue| == 0 || now - queue[|queue| - 1] > expiration
  }

  /** The store after one pass of the sweeper. */
  function Swept(store: Store, now: int, expiration: int): Store {
    map key | key in store && !Expired(store[key], now, expiration) :: store[key]
  }

  class InMemoryRateLimiter {
    var store: Store
    const expiration: int   // expirationDuration in whole seconds

    predicate Valid()
      reads this
    {
      NonEmptyQueues(store)
    }

    constructor (expiration: int)
      ensures Valid() && store == map[] && this.expiration == expiration
    {
      store := map[];
      this.expiration := expiration;
    }

    method Ask(key: string, maxRequestNum: nat, duration: int, now: int) returns (ok: bool)
      requires Valid()
      modifies this
      ensures Valid()
      ensures Outcome(store, ok) == Request(old(store), key, maxRequestNum, duration, now)
    {
      if key in store {
        var queue := store[key];
        if |queue| < maxRequestNum {
          store := store[key := queue + [now]];
          return true;
        } else {
          if now - queue[0] >= duration {
            queue := queue[1..];
            store := store[key := queue + [now]];
            return true;
          } else {
            return false;
          }
        }
      } else {
        store := store[key := []];
        store := store[key := store[key] + [now]];
        assert store[key] == [now];
      }
      return true;
    }

    /** One pass of the sweeper: it visits the keys in any order and deletes while it iterates. */
    method ClearExpiredItems(now: int)
      requires Valid()
      modifies this
      ensures Valid()
      ensures store == Swept(old(store), now, expiration)
    {
      var todo := store.Keys;
      while todo != {}
        invariant todo <= old(store).Keys
        invariant store == map key | key in old(store) &&
                    (key in todo || !Expired(old(store)[key], now, expiration)) :: old(store)[key]
        decreases |todo|
      {
        var key :| key in todo;
        var queue := store[key];
        var size := |queue|;
        if size == 0 || now - queue[size - 1] > expiration {
          store := store - {key};
        }
        todo := todo - {key};
      }
    }
  }

  // ---------------------------------------------------------------- the naive limiter

  datatype Limit = Limit(maxRequestNum: nat, duration: int)

  /** The first request of a key is always accepted, so a limit of zero acts as a limit of one. */
  function Effective(limit: Limit): nat {
    if limit.maxRequestNum < 1 then 1 else limit.maxRequestNum
  }

  function Bit(b: bool): nat { if b then 1 else 0 }

  /** How many of the times lie in the last `duration` seconds. */
  function InWindow(times: seq<int>, now: int, duration: int): nat {
    if |times| == 0 then 0
    else InWindow(times[..|times| - 1], now, duration) + Bit(now - times[|times| - 1] < duration)
  }

  function Past(history: Store, key: string): seq<int> {
    if key in history then history[key] else []
  }

  /** The naive limiter keeps every accepted request for ever. */
  function NaiveRequest(history: Store, key: string, limit: Limit, now: int): Outcome {
    if InWindow(Past(history, key), now, limit.duration) < Effective(limit)
    then Outcome(history[key := Past(history, key) + [now]], true)
    else Outcome(history, false)
  }

  // ---------------------------------------------------------------- runs of both limiters

  datatype Event = Ask(key: string, now: int) | Sweep(now: int)

  /** The store of the real limiter, the requests it accepted, the history of the naive limiter, the time of
      the last event, and whether the two have always given the same answer. */
  datatype World = World(store: Store, accepted: Store, history: Store, now: int, agreed: bool)

  const START := World(map[], map[], map[], 0, true)

  function Step(w: World, e: Event, limits: string -> Limit, expiration: int): World
    requires NonEmptyQueues(w.store)
  {
    match e
    case Ask(key, now) =>
      var actual := Request(w.store, key, limits(key).maxRequestNum, limits(key).duration, now);
      var naive := NaiveRequest(w.history, key, limits(key), now);
      var accepted := if actual.ok then w.accepted[key := Past(w.accepted, key) + [now]] else w.accepted;
      World(actual.store, accepted, naive.store, now, w.agreed && actual.ok == naive.ok)
    case Sweep(now) => w.(store := Swept(w.store, now, expiration), now := now)
  }

  function Play(w: World, events: seq<Event>, limits: string -> Limit, expiration: int): (r: World)
    requires NonEmptyQueues(w.store)
    ensures NonEmptyQueues(r.store)
    decreases |events|
  {
    if events == [] then w else Play(Step(w, events[0], limits, expiration), events[1..], limits, expiration)
  }

  /** The clock never goes back. */
  predicate Ordered(now: int, events: seq<Event>)
    decreases |events|
  {
    events == [] || (now <= events[0].now && Ordered(events[0].now, events[1..]))
  }

  predicate HasSweep(events: seq<Event>) {
    exists i :: 0 <= i < |events| && events[i].Sweep?
  }

  /** The sweeper keeps a key for at least as long as its window. One second more than the expiration is
      allowed, because the sweeper deletes strictly later than the expiration. */
  ghost predicate Covered(limits: string -> Limit, expiration: int) {
    forall key :: limits(key).duration <= expiration + 1
  }

  // ---------------------------------------------------------------- windows

  lemma {:induction false} WindowAtMost(times: seq<int>, k: nat, now: int, duration: int)
    requires k <= |times| && forall i :: 0 <= i < k ==> now - times[i] >= duration
    ensures InWindow(times, now, duration) <= |times| - k
  {
    if |times| == 0 {
    } else if k == |times| {
      WindowAtMost(times[..k - 1], k - 1, now, duration);
    } else {
      WindowAtMost(times[..|times| - 1], k, now, duration);
    }
  }

  lemma {:induction false} WindowAtLeast(times: seq<int>, k: nat, now: int, duration: int)
    requires k <= |times| && forall i :: k <= i < |times| ==> now - times[i] < duration
    ensures InWindow(times, now, duration) >= |times| - k
  {
    if k < |times| {
      WindowAtLeast(times[..|times| - 1], k, now, duration);
    }
  }

  // ---------------------------------------------------------------- refinement

  predicate Sorted(times: seq<int>) {
    forall i, j :: 0 <= i < j < |times| ==> times[i] <= times[j]
  }

  /** The queue is the tail of the history, and what it has forgotten no longer matters. */
  predicate Related(present: bool, queue: seq<int>, past: seq<int>, limit: Limit, now: int) {
    && (present ==> queue != [])
    && Sorted(past) && (forall i :: 0 <= i < |past| ==> past[i] <= now)
    && |queue| <= Effective(limit) && |queue| <= |past| && queue == past[|past| - |queue|..]
    && (|queue| < Effective(limit) ==> forall i :: 0 <= i < |past| - |queue| ==> now - past[i] >= limit.duration)
  }

  ghost predicate AllRelated(w: World, limits: string -> Limit) {
    && NonEmptyQueues(w.store)
    && forall key :: Related(key in w.store, Past(w.store, key), Past(w.history, key), limits(key), w.now)
  }

  /** Related limiters give the same answer. */
  lemma SameAnswer(w: World, key: string, limits: string -> Limit, now: int)
    requires AllRelated(w, limits) && w.now <= now
    ensures Request(w.store, key, limits(key).maxRequestNum, limits(key).duration, now).ok
         == NaiveRequest(w.history, key, limits(key), now).ok
  {
    var queue, past, limit := Past(w.store, key), Past(w.history, key), limits(key);
    assert Related(key in w.store, queue, past, limit, w.now);
    var dropped := |past| - |queue|;
    if |queue| < Effective(limit) {
      WindowAtMost(past, dropped, now, limit.duration);
    } else if now - queue[0] >= limit.duration {
      assert queue[0] == past[dropped];
      WindowAtMost(past, dropped + 1, now, limit.duration);
    } else {
      assert forall i :: 0 <= i < |queue| ==> queue[i] == past[dropped + i];
      WindowAtLeast(past, dropped, now, limit.duration);
    }
  }

  /** Accepting and refusing both keep one key related. */
  lemma OneKeyStaysRelated(present: bool, queue: seq<int>, past: seq<int>, limit: Limit, then_: int, now: int)
    requires Related(present, queue, past, limit, then_) && then_ <= now
    ensures Related(present, queue, past, limit, now)
    ensures |queue| < Effective(limit) ==> Related(true, queue + [now], past + [now], limit, now)
    ensures |queue| == Effective(limit) ==> Related(true, queue[1..] + [now], past + [now], limit, now)
  {
    var dropped := |past| - |queue|;
    assert (past + [now])[dropped..] == queue + [now];
    if |queue| == Effective(limit) {
      assert (past + [now])[dropped + 1..] == queue[1..] + [now];
    }
  }

  lemma AskRelatesItsKey(w: World, key: string, limits: string -> Limit, expiration: int, now: int)
    requires AllRelated(w, limits) && w.now <= now
    ensures var w' := Step(w, Ask(key, now), limits, expiration);
            Related(key in w'.store, Past(w'.store, key), Past(w'.history, key), limits(key), now)
  {
    var queue, past, limit := Past(w.store, key), Past(w.history, key), limits(key);
    var w' := Step(w, Ask(key, now), limits, expiration);
    SameAnswer(w, key, limits, now);
    OneKeyStaysRelated(key in w.store, queue, past, limit, w.now, now);
    if NaiveRequest(w.history, key, limit, now).ok {
      assert Past(w'.history, key) == past + [now];
      assert Past(w'.store, key) == (if |queue| < Effective(limit) then queue else queue[1..]) + [now];
    }
  }

  lemma AskLeavesOtherKeys(w: World, key: string, limits: string -> Limit, expiration: int, now: int, other: string)
    requires NonEmptyQueues(w.store) && other != key
    ensures var w' := Step(w, Ask(key, now), limits, expiration);
            && (other in w'.store <==> other in w.store)
            && Past(w'.store, other) == Past(w.store, other) && Past(w'.history, other) == Past(w.history, other)
  {
  }

  lemma AskKeepsOtherKeys(w: World, key: string, limits: string -> Limit, expiration: int, now: int, other: string)
    requires AllRelated(w, limits) && w.now <= now && other != key
    ensures var w' := Step(w, Ask(key, now), limits, expiration);
            Related(other in w'.store, Past(w'.store, other), Past(w'.history, other), limits(other), now)
  {
    AskLeavesOtherKeys(w, key, limits, expiration, now, other);
    OneKeyStaysRelated(other in w.store, Past(w.store, other), Past(w.history, other), limits(other), w.now, now);
  }

  lemma AskKeepsRelated(w: World, key: string, limits: string -> Limit, expiration: int, now: int)
    requires AllRelated(w, limits) && w.now <= now
    ensures AllRelated(Step(w, Ask(key, now), limits, expiration), limits)
  {
    var w' := Step(w, Ask(key, now), limits, expiration);
    forall k
      ensures Related(k in w'.store, Past(w'.store, k), Past(w'.history, k), limits(k), w'.now)
    {
      if k == key {
        AskRelatesItsKey(w, key, limits, expiration, now);
      } else {
        AskKeepsOtherKeys(w, key, limits, expiration, now, k);
      }
    }
  }

  lemma SweepKeepsRelated(w: World, limits: string -> Limit, expiration: int, now: int)
    requires AllRelated(w, limits) && w.now <= now && Covered(limits, expiration)
    ensures AllRelated(Step(w, Sweep(now), limits, expiration), limits)
  {
    var w' := Step(w, Sweep(now), limits, expiration);
    forall k
      ensures Related(k in w'.store, Past(w'.store, k), Past(w'.history, k), limits(k), now)
    {
      assert Related(k in w.store, Past(w.store, k), Past(w.history, k), limits(k), w.now);
      assert limits(k).duration <= expiration + 1;
    }
  }

  lemma {:induction false} PlayKeepsRelated(w: World, events: seq<Event>, limits: string -> Limit, expiration: int)
    requires AllRelated(w, limits) && w.agreed && Ordered(w.now, events)
    requires HasSweep(events) ==> Covered(limits, expiration)
    requires w.accepted == w.history
    ensures Play(w, events, limits, expiration).agreed
    ensures Play(w, events, limits, expiration).accepted == Play(w, events, limits, expiration).history
    decreases |events|
  {
    if events != [] {
      match events[0] {
        case Ask(key, now) =>
          SameAnswer(w, key, limits, now);
          AskKeepsRelated(w, key, limits, expiration, now);
        case Sweep(now) =>
          SweepKeepsRelated(w, limits, expiration, now);
      }
      assert forall i :: 0 <= i < |events[1..]| ==> events[1..][i] == events[i + 1];
      PlayKeepsRelated(Step(w, events[0], limits, expiration), events[1..], limits, expiration);
    }
  }

  /** Refinement: on every run with a non-decreasing clock, with the sweeper interleaved anywhere, the
      bounded queue answers every request as the limiter that remembers everything. */
  lemma AgreesWithNaiveLimiter(events: seq<Event>, limits: string -> Limit, expiration: int)
    requires Ordered(0, events)
    requires HasSweep(events) ==> Covered(limits, expiration)
    ensures Play(START, events, limits, expiration).agreed
  {
    PlayKeepsRelated(START, events, limits, expiration);
  }

  // ---------------------------------------------------------------- no window exceeds the limit

  /** How many of the times lie in the `duration` seconds from `start` on. */
  function Between(times: seq<int>, start: int, duration: int): nat {
    if |times| == 0 then 0
    else Between(times[..|times| - 1], start, duration) + Bit(start <= times[|times| - 1] < start + duration)
  }

  /** More than `n` accepted requests in a row take at least `duration` seconds. */
  predicate Spaced(times: seq<int>, n: nat, duration: int) {
    Sorted(times) && forall i, j :: 0 <= i && i + n <= j < |times| ==> times[j] - times[i] >= duration
  }

  lemma {:induction false} BetweenAtMost(times: seq<int>, k: nat, start: int, duration: int)
    requires k <= |times| && forall i :: 0 <= i < k ==> times[i] < start
    ensures Between(times, start, duration) <= |times| - k
  {
    if |times| == 0 {
    } else if k == |times| {
      BetweenAtMost(times[..k - 1], k - 1, start, duration);
    } else {
      BetweenAtMost(times[..|times| - 1], k, start, duration);
    }
  }

  lemma {:induction false} SpacedWindows(times: seq<int>, n: nat, start: int, duration: int)
    requires Spaced(times, n, duration)
    ensures Between(times, start, duration) <= n
  {
    if |times| <= n {
      BetweenAtMost(times, 0, start, duration);
    } else {
      var last := |times| - 1;
      if start <= times[last] < start + duration {
        assert times[last] - times[last - n] >= duration;
        BetweenAtMost(times, last - n + 1, start, duration);
      } else {
        SpacedWindows(times[..last], n, start, duration);
      }
    }
  }

  predicate Tracked(past: seq<int>, limit: Limit, now: int) {
    Spaced(past, Effective(limit), limit.duration) && forall i :: 0 <= i < |past| ==> past[i] <= now
  }

  /** If fewer than n times are in the window, the n-th latest one is not. */
  lemma RoomMeansOld(past: seq<int>, n: nat, now: int, duration: int)
    requires Sorted(past) && 1 <= n <= |past| && InWindow(past, now, duration) < n
    ensures now - past[|past| - n] >= duration
  {
    if now - past[|past| - n] < duration {
      WindowAtLeast(past, |past| - n, now, duration);
    }
  }

  /** A time far enough behind the n-th latest one can be added. */
  lemma SpacedStays(past: seq<int>, n: nat, duration: int, now: int)
    requires Spaced(past, n, duration) && 1 <= n && forall i :: 0 <= i < |past| ==> past[i] <= now
    requires n <= |past| ==> now - past[|past| - n] >= duration
    ensures Spaced(past + [now], n, duration)
  {
    var times := past + [now];
    forall i, j | 0 <= i && i + n <= j < |times|
      ensures times[j] - times[i] >= duration
    {
      if j == |past| { assert past[i] <= past[|past| - n]; }
    }
  }

  lemma AcceptStaysTracked(past: seq<int>, limit: Limit, then_: int, now: int)
    requires Tracked(past, limit, then_) && then_ <= now && InWindow(past, now, limit.duration) < Effective(limit)
    ensures Tracked(past + [now], limit, now)
  {
    var n := Effective(limit);
    if n <= |past| { RoomMeansOld(past, n, now, limit.duration); }
    SpacedStays(past, n, limit.duration, now);
  }

  lemma StepStaysTracked(w: World, e: Event, limits: string -> Limit, expiration: int, key: string)
    requires NonEmptyQueues(w.store) && w.now <= e.now && Tracked(Past(w.history, key), limits(key), w.now)
    ensures Tracked(Past(Step(w, e, limits, expiration).history, key), limits(key), e.now)
  {
    var past := Past(w.history, key);
    if e.Ask? && e.key == key && InWindow(past, e.now, limits(key).duration) < Effective(limits(key)) {
      AcceptStaysTracked(past, limits(key), w.now, e.now);
    }
  }

  lemma {:induction false} PlayStaysTracked(w: World, events: seq<Event>, limits: string -> Limit, expiration: int,
      key: string)
    requires NonEmptyQueues(w.store) && Ordered(w.now, events) && Tracked(Past(w.history, key), limits(key), w.now)
    ensures Spaced(Past(Play(w, events, limits, expiration).history, key), Effective(limits(key)), limits(key).duration)
    decreases |events|
  {
    if events != [] {
      StepStaysTracked(w, events[0], limits, expiration, key);
      PlayStaysTracked(Step(w, events[0], limits, expiration), events[1..], limits, expiration, key);
    }
  }

  /** In every run no window of `duration` seconds holds more accepted requests of a key than its limit. */
  lemma NoWindowExceedsTheLimit(events: seq<Event>, limits: string -> Limit, expiration: int, key: string, start: int)
    requires Ordered(0, events)
    requires HasSweep(events) ==> Covered(limits, expiration)
    ensures Between(Past(Play(START, events, limits, expiration).accepted, key), start,
              limits(key).duration) <= Effective(limits(key))
  {
    PlayKeepsRelated(START, events, limits, expiration);
    PlayStaysTracked(START, events, limits, expiration, key);
    SpacedWindows(Past(Play(START, events, limits, expiration).history, key), Effective(limits(key)), start,
        limits(key).duration);
  }

  // ---------------------------------------------------------------- exactly when the sweeper is harmless

  /** `n` requests of one key at time zero. */
  function Burst(n: nat): (r: seq<Event>)
    ensures |r| == n && forall i :: 0 <= i < n ==> r[i] == Ask("k", 0)
  {
    seq(n, _ => Ask("k", 0))
  }

  function Zeros(n: nat): (r: seq<int>)
    ensures |r| == n && forall i :: 0 <= i < n ==> r[i] == 0
  {
    seq(n, _ => 0)
  }

  function Everywhere(limit: Limit): string -> Limit { (_: string) => limit }

  /** Fill the window, let the sweeper pass as early as it may delete the key, and ask once more. */
  function Breaker(limit: Limit, expiration: int): seq<Event> {
    Burst(Effective(limit)) + [Sweep(expiration + 1), Ask("k", expiration + 1)]
  }

  /** Both limiters after n accepted requests at time zero. */
  function Filled(n: nat): World {
    var store: Store := if n == 0 then map[] else map["k" := Zeros(n)];
    World(store, store, store, 0, true)
  }

  lemma OneMoreAccepted(limits: string -> Limit, expiration: int, n: nat)
    requires n < Effective(limits("k")) && limits("k").duration > 0
    ensures Step(Filled(n), Ask("k", 0), limits, expiration) == Filled(n + 1)
  {
    var past := Past(Filled(n).history, "k");
    WindowAtMost(past, 0, 0, limits("k").duration);
    assert past + [0] == Zeros(n + 1) && (n == 0 ==> [0] == Zeros(1));
    assert Filled(n).store["k" := Zeros(n + 1)] == map["k" := Zeros(n + 1)];
  }

  lemma {:induction false} PlayAppend(w: World, events: seq<Event>, e: Event, limits: string -> Limit, expiration: int)
    requires NonEmptyQueues(w.store)
    ensures Play(w, events + [e], limits, expiration) ==
              Step(Play(w, events, limits, expiration), e, limits, expiration)
    decreases |events|
  {
    if events == [] {
      assert [] + [e] == [e] && [e][1..] == [];
      assert Play(Step(w, e, limits, expiration), [], limits, expiration) == Step(w, e, limits, expiration);
    } else {
      assert (events + [e])[1..] == events[1..] + [e];
      PlayAppend(Step(w, events[0], limits, expiration), events[1..], e, limits, expiration);
    }
  }

  lemma {:induction false} BurstFills(limits: string -> Limit, expiration: int, n: nat)
    requires n <= Effective(limits("k")) && limits("k").duration > 0
    ensures Play(START, Burst(n), limits, expiration) == Filled(n)
  {
    if n > 0 {
      assert Burst(n) == Burst(n - 1) + [Ask("k", 0)];
      BurstFills(limits, expiration, n - 1);
      PlayAppend(START, Burst(n - 1), Ask("k", 0), limits, expiration);
      OneMoreAccepted(limits, expiration, n - 1);
    }
  }

  lemma {:induction false} BurstOrdered(n: nat, tail: seq<Event>)
    requires Ordered(0, tail)
    ensures Ordered(0, Burst(n) + tail)
  {
    var events := Burst(n) + tail;
    if n == 0 {
      assert events == tail;
    } else {
      assert events[0] == Ask("k", 0) && events[1..] == Burst(n - 1) + tail;
      BurstOrdered(n - 1, tail);
    }
  }

  /** When the window outlasts the sweeper, the two limiters part: the real one forgets a full window. */
  lemma SweeperForgetsTooEarly(limit: Limit, expiration: nat)
    requires limit.duration > expiration + 1
    ensures Ordered(0, Breaker(limit, expiration))
    ensures !Play(START, Breaker(limit, expiration), Everywhere(limit), expiration).agreed
  {
    var limits, n, late := Everywhere(limit), Effective(limit), expiration + 1;
    var burst, sweep, ask := Burst(n), Sweep(late), Ask("k", late);
    BurstOrdered(n, [sweep, ask]);
    BurstFills(limits, expiration, n);
    assert Breaker(limit, expiration) == (burst + [sweep]) + [ask];
    PlayAppend(START, burst, sweep, limits, expiration);
    PlayAppend(START, burst + [sweep], ask, limits, expiration);
    var swept := Play(START, burst + [sweep], limits, expiration);
    assert swept == Filled(n).(store := map[], now := late);
    WindowAtLeast(Zeros(n), 0, late, limit.duration);
  }

  /** For one limit on every key, the limiter with a running sweeper agrees with the naive one on all runs
      exactly when the window is at most one second longer than the expiration. */
  lemma SweeperIsHarmlessIffCovered(limit: Limit, expiration: nat)
    ensures (forall events :: Ordered(0, events) ==> Play(START, events, Everywhere(limit), expiration).agreed)
            <==> limit.duration <= expiration + 1
  {
    if limit.duration <= expiration + 1 {
      forall events | Ordered(0, events)
        ensures Play(START, events, Everywhere(limit), expiration).agreed
      {
        AgreesWithNaiveLimiter(events, Everywhere(limit), expiration);
      }
    } else {
      SweeperForgetsTooEarly(limit, expiration);
    }
  }
}
