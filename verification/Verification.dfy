/**
 Verification codes that expire: a map from purpose and key to the last code sent,
 swept for expired entries when it grows. Clock readings are parameters, in
 nanoseconds, and do not decrease.
 */
module Verification {

  const EMAIL_VERIFICATION := "v"
  const PASSWORD_RESET := "r"
  const MAX_SIZE := 10
  const VALID_MINUTES := 10
  const NANOSECONDS := 1_000_000_000

  datatype Value = Value(code: string, time: int)

  type Codes = map<string, Value>

  /** Whole seconds since the code was sent, compared with the validity in seconds. */
  predicate Expired(v: Value, now: int) { (now - v.time) / NANOSECONDS >= VALID_MINUTES * 60 }

  function Sweep(codes: Codes, now: int): Codes {
    map slot | slot in codes && !Expired(codes[slot], now) :: codes[slot]
  }

  /** A registration reads the clock once for the code and once more for a sweep. */
  datatype Event =
    | Registered(purpose: string, key: string, code: string, time: int, sweepTime: int)
    | Deleted(purpose: string, key: string)

  function Slot(e: Event): string { e.purpose + e.key }

  function Stored(codes: Codes, e: Event): Codes
    requires e.Registered?
  {
    codes[Slot(e) := Value(e.code, e.time)]
  }

  function Next(codes: Codes, e: Event): Codes {
    if e.Deleted? then codes - {Slot(e)}
    else if |Stored(codes, e)| > MAX_SIZE then Sweep(Stored(codes, e), e.sweepTime)
    else Stored(codes, e)
  }

  predicate Accepts(codes: Codes, purpose: string, key: string, code: string, now: int) {
    purpose + key in codes && !Expired(codes[purpose + key], now) && codes[purpose + key].code == code
  }

  class VerificationMap {
    var codes: Codes

    constructor ()
      ensures codes == map[]
    {
      codes := map[];
    }

    method RegisterVerificationCodeWithKey(key: string, code: string, purpose: string, now: int, sweepTime: int)
      modifies this
      ensures codes == Next(old(codes), Registered(purpose, key, code, now, sweepTime))
    {
      codes := codes[purpose + key := Value(code, now)];
      if |codes| > MAX_SIZE {
        RemoveExpiredPairs(sweepTime);
      }
    }

    method VerifyCodeWithKey(key: string, code: string, purpose: string, now: int) returns (ok: bool)
      ensures ok == Accepts(codes, purpose, key, code, now)
    {
      if purpose + key !in codes || Expired(codes[purpose + key], now) { return false; }
      return code == codes[purpose + key].code;
    }

    method DeleteKey(key: string, purpose: string)
      modifies this
      ensures codes == Next(old(codes), Deleted(purpose, key))
    {
      codes := codes - {purpose + key};
    }

    /** Visits the keys in any order. */
    method RemoveExpiredPairs(now: int)
      modifies this
      ensures codes == Sweep(old(codes), now)
    {
      var pending := codes.Keys;
      while pending != {}
        invariant pending <= codes.Keys
        invariant forall slot :: slot in codes ==> slot in old(codes) && codes[slot] == old(codes)[slot]
        invariant forall slot :: slot in old(codes) && slot !in pending ==>
                    (slot in codes <==> !Expired(old(codes)[slot], now))
        decreases |pending|
      {
        var slot :| slot in pending;
        pending := pending - {slot};
        if Expired(codes[slot], now) {
          codes := codes - {slot};
        }
      }
    }
  }

  // ---------------------------------------------------------------- histories

  function Last(history: seq<Event>): Event
    requires |history| > 0
  {
    history[|history| - 1]
  }

  function Before(history: seq<Event>): seq<Event>
    requires |history| > 0
  {
    history[..|history| - 1]
  }

  /** The map after a history that starts with the empty map. */
  function After(history: seq<Event>): Codes {
    if |history| == 0 then map[] else Next(After(Before(history)), Last(history))
  }

  /** The clock readings of the history do not decrease and do not exceed `now`. */
  predicate InOrder(history: seq<Event>, now: int) {
    |history| > 0 ==>
      match Last(history)
      case Registered(_, _, _, time, sweepTime) => time <= sweepTime <= now && InOrder(Before(history), time)
      case Deleted(_, _) => InOrder(Before(history), now)
  }

  datatype Option<T> = None | Some(value: T)

  function Outcome(e: Event): Option<Value> { if e.Registered? then Some(Value(e.code, e.time)) else None }

  /** The latest registration for a purpose and a key, if it has not been deleted since. */
  function Latest(history: seq<Event>, purpose: string, key: string): Option<Value> {
    if |history| == 0 then None
    else if Last(history).purpose == purpose && Last(history).key == key then Outcome(Last(history))
    else Latest(Before(history), purpose, key)
  }

  /** The registered code is less than ten minutes old. */
  predicate HistoryAccepts(history: seq<Event>, purpose: string, key: string, code: string, now: int) {
    var v := Latest(history, purpose, key);
    v.Some? && v.value.code == code && now - v.value.time < 600 * 1_000_000_000
  }

  /** The same by slot, that is by purpose and key run together. */
  function LatestInSlot(history: seq<Event>, slot: string): Option<Value> {
    if |history| == 0 then None
    else if Slot(Last(history)) == slot then Outcome(Last(history))
    else LatestInSlot(Before(history), slot)
  }

  /** Codes live for ten minutes to the nanosecond, although whole seconds are compared. */
  lemma ExpiresAfterTenMinutes(v: Value, now: int)
    ensures Expired(v, now) <==> now - v.time >= 600 * 1_000_000_000
  {
  }

  /** The map holds the latest registration of a slot, unless a sweep has removed it as expired. */
  lemma {:induction false} MapReflectsHistory(history: seq<Event>, now: int, slot: string)
    requires InOrder(history, now)
    ensures slot in After(history) ==> LatestInSlot(history, slot) == Some(After(history)[slot])
    ensures slot !in After(history) ==>
              LatestInSlot(history, slot).None? || Expired(LatestInSlot(history, slot).value, now)
    decreases |history|
  {
    if |history| > 0 {
      var e := Last(history);
      MapReflectsHistory(Before(history), if e.Registered? then e.time else now, slot);
    }
  }

  // ---------------------------------------------------------------- purposes

  ghost predicate Confusable(p: string, q: string) { exists k: string, l: string :: p + k == q + l }

  /** Two purposes can name the same slot if and only if one of them begins with the other. */
  lemma ConfusableIff(p: string, q: string)
    ensures Confusable(p, q) <==> p <= q || q <= p
  {
    if p <= q {
      assert p + q[|p|..] == q + [];
    } else if q <= p {
      assert p + [] == q + p[|q|..];
    } else {
      forall k: string, l: string ensures p + k != q + l {
        if p + k == q + l {
          PrefixesNest(p, q, p + k);
        }
      }
    }
  }

  lemma PrefixesNest(p: string, q: string, s: string)
    requires p <= s && q <= s
    ensures p <= q || q <= p
  {
    assert p == s[..|p|] && q == s[..|q|];
  }

  /** Every other purpose of the history cannot be confused with this one. */
  predicate Distinguished(history: seq<Event>, purpose: string) {
    forall e :: e in history ==> e.purpose == purpose || !(e.purpose <= purpose || purpose <= e.purpose)
  }

  lemma SameSlotSamePair(e: Event, purpose: string, key: string)
    requires e.purpose == purpose || !(e.purpose <= purpose || purpose <= e.purpose)
    ensures Slot(e) == purpose + key <==> e.purpose == purpose && e.key == key
  {
    if Slot(e) == purpose + key {
      PrefixesNest(e.purpose, purpose, Slot(e));
      assert e.key == Slot(e)[|purpose|..] == key;
    }
  }

  lemma {:induction false} SlotsTellPurposesApart(history: seq<Event>, purpose: string, key: string)
    requires Distinguished(history, purpose)
    ensures LatestInSlot(history, purpose + key) == Latest(history, purpose, key)
    decreases |history|
  {
    if |history| > 0 {
      assert Last(history) in history;
      SameSlotSamePair(Last(history), purpose, key);
      SlotsTellPurposesApart(Before(history), purpose, key);
    }
  }

  // ---------------------------------------------------------------- what a caller sees

  /**
   A code is accepted if and only if the latest undeleted registration for the same
   purpose and key has that code and is less than ten minutes old.
   */
  lemma VerifyFollowsHistory(history: seq<Event>, purpose: string, key: string, code: string, now: int)
    requires InOrder(history, now) && Distinguished(history, purpose)
    ensures Accepts(After(history), purpose, key, code, now) <==> HistoryAccepts(history, purpose, key, code, now)
  {
    MapReflectsHistory(history, now, purpose + key);
    SlotsTellPurposesApart(history, purpose, key);
    var v := Latest(history, purpose, key);
    if v.Some? { ExpiresAfterTenMinutes(v.value, now); }
  }

  /** The two purposes in use need no side condition. */
  lemma PurposesInUseAreDistinguished(history: seq<Event>, purpose: string)
    requires forall e :: e in history ==> e.purpose in {EMAIL_VERIFICATION, PASSWORD_RESET}
    requires purpose in {EMAIL_VERIFICATION, PASSWORD_RESET}
    ensures Distinguished(history, purpose)
  {
    assert EMAIL_VERIFICATION[0] != PASSWORD_RESET[0];
  }

  /** The map without any sweep. */
  function Unswept(history: seq<Event>): Codes {
    if |history| == 0 then map[]
    else if Last(history).Deleted? then Unswept(Before(history)) - {Slot(Last(history))}
    else Stored(Unswept(Before(history)), Last(history))
  }

  lemma {:induction false} UnsweptHoldsTheLatest(history: seq<Event>, slot: string)
    ensures LatestInSlot(history, slot) ==
            if slot in Unswept(history) then Some(Unswept(history)[slot]) else None
    decreases |history|
  {
    if |history| > 0 {
      UnsweptHoldsTheLatest(Before(history), slot);
    }
  }

  /** Sweeping is never observable, whatever the purposes. */
  lemma SweepsAreUnobservable(history: seq<Event>, purpose: string, key: string, code: string, now: int)
    requires InOrder(history, now)
    ensures Accepts(After(history), purpose, key, code, now) <==> Accepts(Unswept(history), purpose, key, code, now)
  {
    MapReflectsHistory(history, now, purpose + key);
    UnsweptHoldsTheLatest(history, purpose + key);
  }
}
