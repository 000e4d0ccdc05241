/**
 The administration of multi-key channels: a list of keys stored as text, and
 three maps indexed by key position that hold status, disabling time and reason.
 Deleting keys renumbers the positions, and saving re-derives the key count from
 the stored text.

 Nil maps read like empty ones, so a map models both. Texts are in newline format.
 */
module MultiKey {
  import opened KeyText

  const ENABLED := 1
  const MANUALLY_DISABLED := 2
  const AUTO_DISABLED := 3

  /** The stored part of a channel. */
  datatype Info = Info(key: string, size: int, status: map<int, int>, time: map<int, int>, reason: map<int, string>)

  function Keys(info: Info): seq<string> { GetKeys(info.key) }

  /** The status the rest of the system sees. */
  function StatusAt(info: Info, i: int): int {
    if i in info.status then info.status[i] else ENABLED
  }

  /** Channel.Update: the key count comes from the text, status entries beyond it go, and an empty text
      leaves the stored text as it was. */
  function Saved(old_: Info, key: string, status: map<int, int>, time: map<int, int>, reason: map<int, string>): Info {
    var text := if key != "" then key else old_.key;
    var size := |GetKeys(text)|;
    Info(text, size, Below(status, size), time, reason)
  }

  /** The entries of positions below n. */
  function Below<V>(m: map<int, V>, n: int): map<int, V> { map i | i in m && i < n :: m[i] }

  // ---------------------------------------------------------------- renumbering

  /** The positions below n that are kept, in order. */
  function Survivors(n: nat, kept: int -> bool): (r: seq<int>)
    ensures forall j :: 0 <= j < |r| ==> 0 <= r[j] < n
  {
    if n == 0 then [] else if kept(n - 1) then Survivors(n - 1, kept) + [n - 1] else Survivors(n - 1, kept)
  }

  /** The survivors are exactly the kept positions. */
  lemma {:induction false} SurvivorsAreTheKept(n: nat, kept: int -> bool)
    ensures forall i :: i in Survivors(n, kept) <==> 0 <= i < n && kept(i)
  {
    if n > 0 {
      SurvivorsAreTheKept(n - 1, kept);
    }
  }

  /** The survivors are in increasing order. */
  lemma {:induction false} SurvivorsIncrease(n: nat, kept: int -> bool)
    ensures forall j, k :: 0 <= j < k < |Survivors(n, kept)| ==> Survivors(n, kept)[j] < Survivors(n, kept)[k]
  {
    if n > 0 {
      SurvivorsIncrease(n - 1, kept);
    }
  }

  /** Every position survives if and only if every position is kept. */
  lemma {:induction false} SurvivorsCount(n: nat, kept: int -> bool)
    ensures |Survivors(n, kept)| <= n
    ensures |Survivors(n, kept)| == n <==> forall i :: 0 <= i < n ==> kept(i)
  {
    if n > 0 {
      SurvivorsCount(n - 1, kept);
    }
  }

  function Pick(keys: seq<string>, positions: seq<int>): (r: seq<string>)
    requires forall j :: 0 <= j < |positions| ==> 0 <= positions[j] < |keys|
    ensures |r| == |positions|
    ensures forall j :: 0 <= j < |r| ==> r[j] == keys[positions[j]]
  {
    if |positions| == 0 then []
    else Pick(keys, positions[..|positions| - 1]) + [keys[positions[|positions| - 1]]]
  }

  function Put<V>(m: map<int, V>, j: int, from: map<int, V>, i: int): map<int, V> {
    if i in from then m[j := from[i]] else m
  }

  /** A positional map after the positions have been renumbered 0, 1, 2, ... */
  function Renumbered<V>(m: map<int, V>, positions: seq<int>): map<int, V> {
    if |positions| == 0 then map[]
    else Put(Renumbered(m, positions[..|positions| - 1]), |positions| - 1, m, positions[|positions| - 1])
  }

  /** Renumbering moves the entry of positions[j] to j and keeps nothing else. */
  lemma {:induction false} RenumberedAt<V>(m: map<int, V>, positions: seq<int>, j: int)
    ensures j in Renumbered(m, positions) <==> 0 <= j < |positions| && positions[j] in m
    ensures j in Renumbered(m, positions) ==> Renumbered(m, positions)[j] == m[positions[j]]
  {
    if |positions| != 0 {
      RenumberedAt(m, positions[..|positions| - 1], j);
    }
  }

  function NonEnabled(status: map<int, int>): map<int, int> {
    map i | i in status && status[i] != ENABLED :: status[i]
  }

  /** The entries of positions that are not enabled. */
  function OfDisabled<V>(m: map<int, V>, status: map<int, int>): map<int, V> {
    map i | i in m && i in status && status[i] != ENABLED :: m[i]
  }

  // ---------------------------------------------------------------- the actions

  datatype Option<+T> = None | Some(value: T)

  datatype Action =
    | DisableKey(index: Option<int>)
    | EnableKey(index: Option<int>)
    | EnableAll
    | DisableAll
    | DeleteKey(index: Option<int>)
    | DeleteDisabled

  predicate InRange(info: Info, index: Option<int>) {
    index.Some? && 0 <= index.value < info.size
  }

  function KeptByDelete(index: int): int -> bool { (i: int) => i != index }

  function NotAutoDisabled(info: Info): int -> bool { NotAutoIn(info.status) }

  /** Every position below n that was enabled becomes manually disabled. */
  function DisabledBelow(info: Info, n: int): map<int, int> {
    if n <= 0 then info.status
    else if StatusAt(info, n - 1) == ENABLED then DisabledBelow(info, n - 1)[n - 1 := MANUALLY_DISABLED]
    else DisabledBelow(info, n - 1)
  }

  lemma {:induction false} DisabledBelowAt(info: Info, n: int, i: int)
    ensures var turned := 0 <= i < n && StatusAt(info, i) == ENABLED;
            && (i in DisabledBelow(info, n) <==> i in info.status || turned)
            && (i in DisabledBelow(info, n) ==>
                  DisabledBelow(info, n)[i] == if turned then MANUALLY_DISABLED else info.status[i])
    decreases n
  {
    if n > 0 { DisabledBelowAt(info, n - 1, i); }
  }

  /** Whether a position below n is enabled. */
  predicate SomeEnabled(info: Info, n: int) {
    n > 0 && (StatusAt(info, n - 1) == ENABLED || SomeEnabled(info, n - 1))
  }

  predicate Deletes(a: Action) { a.DeleteDisabled? || (a.DeleteKey? && a.index.Some?) }

  /** The positions a deletion keeps. */
  function Left(info: Info, a: Action): (r: seq<int>)
    requires Deletes(a)
    ensures forall j :: 0 <= j < |r| ==> 0 <= r[j] < |Keys(info)|
  {
    if a.DeleteKey? then Survivors(|Keys(info)|, KeptByDelete(a.index.value))
    else Survivors(|Keys(info)|, NotAutoDisabled(info))
  }

  /** The keys a deletion keeps. */
  function Remaining(info: Info, a: Action): seq<string>
    requires Deletes(a)
  {
    Pick(Keys(info), Left(info, a))
  }

  /** delete_key copies the entries of every key it keeps, delete_disabled_keys those of disabled keys. */
  function Copied<V>(m: map<int, V>, info: Info, a: Action): map<int, V> {
    if a.DeleteKey? then m else OfDisabled(m, info.status)
  }

  /** A key list with its positional maps. */
  datatype Part = Part(keys: seq<string>, status: map<int, int>, time: map<int, int>, reason: map<int, string>)

  function Restricted(p: Part, positions: seq<int>): Part
    requires forall j :: 0 <= j < |positions| ==> 0 <= positions[j] < |p.keys|
  {
    Part(Pick(p.keys, positions), Renumbered(p.status, positions), Renumbered(p.time, positions),
        Renumbered(p.reason, positions))
  }

  /** The keys with the entries that a deletion copies. */
  function Selected(info: Info, a: Action): Part {
    Part(Keys(info), NonEnabled(info.status), Copied(info.time, info, a), Copied(info.reason, info, a))
  }

  /** The stored state after an accepted action. */
  function Applied(info: Info, a: Action): Info
    requires Accepted(info, a)
  {
    match a
    case DisableKey(index) =>
      Saved(info, info.key, info.status[index.value := MANUALLY_DISABLED], info.time, info.reason)
    case EnableKey(index) =>
      Saved(info, info.key, info.status - {index.value}, info.time - {index.value}, info.reason - {index.value})
    case EnableAll =>
      Saved(info, info.key, map[], map[], map[])
    case DisableAll =>
      Saved(info, info.key, DisabledBelow(info, info.size), info.time, info.reason)
    case _ =>
      var p := Restricted(Selected(info, a), Left(info, a));
      Saved(info, Join(p.keys), p.status, p.time, p.reason)
  }

  /** Whether the action is carried out. */
  predicate Accepted(info: Info, a: Action) {
    match a
    case DisableKey(index) => InRange(info, index)
    case EnableKey(index) => InRange(info, index)
    case EnableAll => true
    case DisableAll => SomeEnabled(info, info.size)
    case DeleteKey(index) => InRange(info, index) && |Left(info, a)| > 0
    case DeleteDisabled => |Left(info, a)| < |Keys(info)|
  }

  function Step(info: Info, a: Action): Info {
    if Accepted(info, a) then Applied(info, a) else info
  }

  // ---------------------------------------------------------------- the handler

  lemma OneMorePart(p: Part, positions: seq<int>, i: int)
    requires 0 <= i < |p.keys| && forall j :: 0 <= j < |positions| ==> 0 <= positions[j] < |p.keys|
    ensures forall j :: 0 <= j < |positions + [i]| ==> 0 <= (positions + [i])[j] < |p.keys|
    ensures var old_, n := Restricted(p, positions), |positions|;
            Restricted(p, positions + [i])
            == Part(old_.keys + [p.keys[i]], Put(old_.status, n, p.status, i), Put(old_.time, n, p.time, i),
                Put(old_.reason, n, p.reason, i))
  {
    assert (positions + [i])[..|positions|] == positions;
  }

  /** The loop of delete_key. */
  method WithoutKey(keys: seq<string>, statusList: map<int, int>, disabledTime: map<int, int>,
      disabledReason: map<int, string>, keyIndex: int)
    returns (remainingKeys: seq<string>, newStatusList: map<int, int>, newDisabledTime: map<int, int>,
        newDisabledReason: map<int, string>)
    ensures Part(remainingKeys, newStatusList, newDisabledTime, newDisabledReason)
         == Restricted(Part(keys, NonEnabled(statusList), disabledTime, disabledReason),
             Survivors(|keys|, KeptByDelete(keyIndex)))
  {
    remainingKeys, newStatusList, newDisabledTime, newDisabledReason := [], map[], map[], map[];
    var newIndex := 0;
    ghost var p := Part(keys, NonEnabled(statusList), disabledTime, disabledReason);
    ghost var left := [];
    for i := 0 to |keys|
      invariant left == Survivors(i, KeptByDelete(keyIndex)) && newIndex == |left|
      invariant Part(remainingKeys, newStatusList, newDisabledTime, newDisabledReason) == Restricted(p, left)
    {
      if i == keyIndex { continue; }
      OneMorePart(p, left, i);
      remainingKeys := remainingKeys + [keys[i]];
      if i in statusList && statusList[i] != ENABLED {
        newStatusList := newStatusList[newIndex := statusList[i]];
      }
      if i in disabledTime {
        newDisabledTime := newDisabledTime[newIndex := disabledTime[i]];
      }
      if i in disabledReason {
        newDisabledReason := newDisabledReason[newIndex := disabledReason[i]];
      }
      newIndex := newIndex + 1;
      left := left + [i];
    }
  }

  function NotAutoIn(statusList: map<int, int>): int -> bool {
    (i: int) => (if i in statusList then statusList[i] else ENABLED) != AUTO_DISABLED
  }

  /** p has the keys, and the entries of the disabled ones. */
  ghost predicate OfDisabledKeys(p: Part, keys: seq<string>, status: map<int, int>, time: map<int, int>,
                                 reason: map<int, string>)
  {
    && p.keys == keys
    && forall i {:trigger i in p.status} {:trigger i in p.time} {:trigger i in p.reason} ::
         var disabled := i in status && status[i] != ENABLED;
         && (i in p.status <==> disabled) && (i in p.status ==> p.status[i] == status[i])
         && (i in p.time <==> disabled && i in time) && (i in p.time ==> p.time[i] == time[i])
         && (i in p.reason <==> disabled && i in reason) && (i in p.reason ==> p.reason[i] == reason[i])
  }

  /** One round of the loop: the entries are copied only if the key is disabled. */
  lemma OneMoreDisabled(p: Part, keys: seq<string>, status: map<int, int>, time: map<int, int>,
                        reason: map<int, string>, left: seq<int>, i: int, s: int)
    requires OfDisabledKeys(p, keys, status, time, reason)
    requires 0 <= i < |keys| && forall j :: 0 <= j < |left| ==> 0 <= left[j] < |keys|
    requires s == if i in status then status[i] else ENABLED
    ensures forall j :: 0 <= j < |left + [i]| ==> 0 <= (left + [i])[j] < |keys|
    ensures var old_, n := Restricted(p, left), |left|;
            Restricted(p, left + [i]) ==
              if s == ENABLED then old_.(keys := old_.keys + [keys[i]])
              else Part(old_.keys + [keys[i]], old_.status[n := s], Put(old_.time, n, time, i),
                  Put(old_.reason, n, reason, i))
  {
    OneMorePart(p, left, i);
  }

  /** What the loop of delete_disabled_keys has gathered after n keys. */
  function Gathered(keys: seq<string>, status: map<int, int>, time: map<int, int>, reason: map<int, string>,
      n: nat): Part
    requires n <= |keys|
  {
    if n == 0 then Part([], map[], map[], map[])
    else
      var i, old_ := n - 1, Gathered(keys, status, time, reason, n - 1);
      var s, next := if i in status then status[i] else ENABLED, |old_.keys|;
      if s == AUTO_DISABLED then old_
      else if s == ENABLED then old_.(keys := old_.keys + [keys[i]])
      else Part(old_.keys + [keys[i]], old_.status[next := s], Put(old_.time, next, time, i),
          Put(old_.reason, next, reason, i))
  }

  lemma {:induction false} GatheredAre(p: Part, keys: seq<string>, status: map<int, int>, time: map<int, int>,
                                       reason: map<int, string>, n: nat)
    requires n <= |keys| && OfDisabledKeys(p, keys, status, time, reason)
    ensures Gathered(keys, status, time, reason, n) == Restricted(p, Survivors(n, NotAutoIn(status)))
  {
    if n > 0 {
      var i, kept := n - 1, NotAutoIn(status);
      var s := if i in status then status[i] else ENABLED;
      GatheredAre(p, keys, status, time, reason, i);
      if s == AUTO_DISABLED {
        assert Survivors(n, kept) == Survivors(i, kept);
      } else {
        assert Survivors(n, kept) == Survivors(i, kept) + [i];
        OneMoreDisabled(p, keys, status, time, reason, Survivors(i, kept), i, s);
      }
    }
  }

  /** The loop of delete_disabled_keys. */
  method WithoutAutoDisabled(keys: seq<string>, statusList: map<int, int>, disabledTime: map<int, int>,
                             disabledReason: map<int, string>)
    returns (remainingKeys: seq<string>, newStatusList: map<int, int>, newDisabledTime: map<int, int>,
             newDisabledReason: map<int, string>, deletedCount: nat)
    ensures deletedCount == |keys| - |remainingKeys|
    ensures forall p :: OfDisabledKeys(p, keys, statusList, disabledTime, disabledReason) ==>
              Part(remainingKeys, newStatusList, newDisabledTime, newDisabledReason)
              == Restricted(p, Survivors(|keys|, NotAutoIn(statusList)))
  {
    remainingKeys, newStatusList, newDisabledTime, newDisabledReason, deletedCount := [], map[], map[], map[], 0;
    var newIndex := 0;
    for i := 0 to |keys|
      invariant newIndex == |remainingKeys| && deletedCount == i - newIndex
      invariant Part(remainingKeys, newStatusList, newDisabledTime, newDisabledReason)
             == Gathered(keys, statusList, disabledTime, disabledReason, i)
    {
      var status := ENABLED;
      if i in statusList {
        status := statusList[i];
      }
      if status == AUTO_DISABLED {
        deletedCount := deletedCount + 1;
      } else {
        remainingKeys := remainingKeys + [keys[i]];
        if status != ENABLED {
          newStatusList := newStatusList[newIndex := status];
          if i in disabledTime {
            newDisabledTime := newDisabledTime[newIndex := disabledTime[i]];
          }
          if i in disabledReason {
            newDisabledReason := newDisabledReason[newIndex := disabledReason[i]];
          }
        }
        newIndex := newIndex + 1;
      }
    }
    forall p | OfDisabledKeys(p, keys, statusList, disabledTime, disabledReason)
      ensures Part(remainingKeys, newStatusList, newDisabledTime, newDisabledReason)
           == Restricted(p, Survivors(|keys|, NotAutoIn(statusList)))
    {
      GatheredAre(p, keys, statusList, disabledTime, disabledReason, |keys|);
    }
  }

  lemma SelectedOfDisabled(info: Info)
    ensures OfDisabledKeys(Selected(info, DeleteDisabled), Keys(info), info.status, info.time, info.reason)
  {
  }

  /** Saving what the loop gathered is the action. */
  lemma DeleteDisabledSaves(info: Info, p: Part)
    requires p == Restricted(Selected(info, DeleteDisabled), Left(info, DeleteDisabled))
    ensures Accepted(info, DeleteDisabled) <==> |p.keys| < |Keys(info)|
    ensures Accepted(info, DeleteDisabled) ==>
              Applied(info, DeleteDisabled) == Saved(info, Join(p.keys), p.status, p.time, p.reason)
  {
  }

  class Channel {
    var key: string
    var multiKeySize: int
    var multiKeyStatusList: map<int, int>
    var multiKeyDisabledTime: map<int, int>
    var multiKeyDisabledReason: map<int, string>

    function Stored(): Info
      reads this
    {
      Info(key, multiKeySize, multiKeyStatusList, multiKeyDisabledTime, multiKeyDisabledReason)
    }

    method Update(newKey: string, status: map<int, int>, time: map<int, int>, reason: map<int, string>)
      modifies this
      ensures Stored() == Saved(old(Stored()), newKey, status, time, reason)
    {
      var keyStr := key;
      if newKey != "" {
        keyStr := newKey;
      }
      var keys := GetKeys(keyStr);
      multiKeySize := |keys|;
      multiKeyStatusList := Below(status, |keys|);
      multiKeyDisabledTime := time;
      multiKeyDisabledReason := reason;
      key := keyStr;
    }

    method DisableKeyAt(index: Option<int>) returns (ok: bool)
      modifies this
      ensures ok == Accepted(old(Stored()), DisableKey(index)) && Stored() == Step(old(Stored()), DisableKey(index))
    {
      if index.None? || index.value < 0 || index.value >= multiKeySize { return false; }
      Update(key, multiKeyStatusList[index.value := MANUALLY_DISABLED], multiKeyDisabledTime, multiKeyDisabledReason);
      return true;
    }

    method EnableKeyAt(index: Option<int>) returns (ok: bool)
      modifies this
      ensures ok == Accepted(old(Stored()), EnableKey(index)) && Stored() == Step(old(Stored()), EnableKey(index))
    {
      if index.None? || index.value < 0 || index.value >= multiKeySize { return false; }
      var i := index.value;
      Update(key, multiKeyStatusList - {i}, multiKeyDisabledTime - {i}, multiKeyDisabledReason - {i});
      return true;
    }

    method EnableAllKeys() returns (enabledCount: nat)
      modifies this
      ensures enabledCount == |old(multiKeyStatusList)| && Stored() == Step(old(Stored()), EnableAll)
    {
      enabledCount := |multiKeyStatusList|;
      Update(key, map[], map[], map[]);
    }

    method DisableAllKeys() returns (ok: bool)
      modifies this
      ensures ok == Accepted(old(Stored()), DisableAll) && Stored() == Step(old(Stored()), DisableAll)
    {
      ghost var info := Stored();
      var status := multiKeyStatusList;
      var disabledCount := 0;
      var n := if multiKeySize < 0 then 0 else multiKeySize;
      for i := 0 to n
        invariant Stored() == info && status == DisabledBelow(info, i)
        invariant disabledCount >= 0 && (disabledCount > 0 <==> SomeEnabled(info, i))
      {
        DisabledBelowAt(info, i, i);
        var s := if i in status then status[i] else ENABLED;
        if s == ENABLED {
          status := status[i := MANUALLY_DISABLED];
          disabledCount := disabledCount + 1;
        }
      }
      if disabledCount == 0 { return false; }
      Update(key, status, multiKeyDisabledTime, multiKeyDisabledReason);
      return true;
    }

    method DeleteKeyAt(index: Option<int>) returns (ok: bool)
      modifies this
      ensures ok == Accepted(old(Stored()), DeleteKey(index)) && Stored() == Step(old(Stored()), DeleteKey(index))
    {
      if index.None? || index.value < 0 || index.value >= multiKeySize { return false; }
      var remainingKeys, newStatusList, newDisabledTime, newDisabledReason :=
        WithoutKey(GetKeys(key), multiKeyStatusList, multiKeyDisabledTime, multiKeyDisabledReason, index.value);
      if |remainingKeys| == 0 { return false; }
      Update(Join(remainingKeys), newStatusList, newDisabledTime, newDisabledReason);
      return true;
    }

    method DeleteDisabledKeys() returns (deletedCount: nat)
      modifies this
      ensures deletedCount > 0 <==> Accepted(old(Stored()), DeleteDisabled)
      ensures Stored() == Step(old(Stored()), DeleteDisabled)
    {
      var remainingKeys, newStatusList, newDisabledTime, newDisabledReason, count :=
        WithoutAutoDisabled(GetKeys(key), multiKeyStatusList, multiKeyDisabledTime, multiKeyDisabledReason);
      deletedCount := count;
      ghost var info := Stored();
      SelectedOfDisabled(info);
      DeleteDisabledSaves(info, Part(remainingKeys, newStatusList, newDisabledTime, newDisabledReason));
      if deletedCount == 0 { return; }
      Update(Join(remainingKeys), newStatusList, newDisabledTime, newDisabledReason);
    }
  }

  // ---------------------------------------------------------------- what a deletion stores

  /** The list after a deletion: nothing but one empty key, or nothing at all, is not stored, and
      otherwise the empty keys at the ends of what remains are lost. */
  function StoredKeys(info: Info, a: Action): seq<string>
    requires Deletes(a)
  {
    var part := Remaining(info, a);
    if |part| == 0 || part == [""] then Keys(info) else if |Strip(part)| == 0 then [""] else Strip(part)
  }

  lemma RemainingAreKeys(info: Info, a: Action)
    requires Deletes(a)
    ensures NoNewlines(Remaining(info, a))
    ensures forall k :: k in Remaining(info, a) ==> k in Keys(info)
  {
    var keys, part := Keys(info), Remaining(info, a);
    forall j | 0 <= j < |part|
      ensures part[j] in keys && '\n' !in part[j]
    {
      assert keys[Left(info, a)[j]] in keys;
    }
  }

  lemma KeysAfterDeletion(info: Info, a: Action)
    requires Deletes(a) && Accepted(info, a)
    ensures Keys(Applied(info, a)) == StoredKeys(info, a) && Applied(info, a).size == |StoredKeys(info, a)|
  {
    var part := Remaining(info, a);
    RemainingAreKeys(info, a);
    if |part| > 0 {
      JoinEnds(part);
      StorageStrips(part);
    }
  }

  /** What remains is stored whole exactly when neither end of it is empty or nothing was deleted. */
  lemma StoredWholeIff(info: Info, a: Action)
    requires Deletes(a) && Accepted(info, a)
    ensures StoredKeys(info, a) == Remaining(info, a) <==>
              NonEmptyEnds(Remaining(info, a)) || Remaining(info, a) == Keys(info)
    ensures |StoredKeys(info, a)| > 0
  {
    var part := Remaining(info, a);
    RemainingAreKeys(info, a);
    StripParts(part);
    StoredKeysHaveEnds(info.key);
  }

  // ---------------------------------------------------------------- a deletion preserves meaning, exactly when

  function Lookup<V>(m: map<int, V>, i: int): Option<V> {
    if i in m then Some(m[i]) else None
  }

  /** Position j now is what position i was before. */
  predicate Carries(after: Info, j: int, before: Info, i: int) {
    && StatusAt(after, j) == StatusAt(before, i)
    && Lookup(after.time, j) == Lookup(before.time, i)
    && Lookup(after.reason, j) == Lookup(before.reason, i)
  }

  /** Where the key now at position j was before key k went away. */
  function Origin(j: int, k: int): int { if j < k then j else j + 1 }

  function Without(keys: seq<string>, k: nat): seq<string> {
    if k < |keys| then keys[..k] + keys[k + 1..] else keys
  }

  lemma {:induction false} SurvivorsOfDelete(n: nat, k: int)
    requires 0 <= k
    ensures var left := Survivors(n, KeptByDelete(k));
            && |left| == (if k < n then n - 1 else n)
            && forall j :: 0 <= j < |left| ==> left[j] == Origin(j, k)
  {
    if n > 0 { SurvivorsOfDelete(n - 1, k); }
  }

  lemma PickIs(keys: seq<string>, left: seq<int>, rest: seq<string>)
    requires |left| == |rest| && forall j :: 0 <= j < |left| ==> 0 <= left[j] < |keys| && keys[left[j]] == rest[j]
    ensures Pick(keys, left) == rest
  {
  }

  lemma WithoutAt(keys: seq<string>, k: nat, j: nat)
    requires j < |Without(keys, k)|
    ensures Origin(j, k) < |keys| && Without(keys, k)[j] == keys[Origin(j, k)]
  {
  }

  lemma PickAllButOne(keys: seq<string>, k: nat)
    ensures Pick(keys, Survivors(|keys|, KeptByDelete(k))) == Without(keys, k)
  {
    var left, rest := Survivors(|keys|, KeptByDelete(k)), Without(keys, k);
    SurvivorsOfDelete(|keys|, k);
    forall j: nat | j < |left|
      ensures keys[left[j]] == rest[j]
    {
      WithoutAt(keys, k, j);
    }
    PickIs(keys, left, rest);
  }

  /** The renumbered maps give every survivor that is still there its status and its copied entries. */
  lemma EntriesFollow(info: Info, a: Action, j: nat)
    requires Deletes(a) && Accepted(info, a) && j < |Left(info, a)| && j < |StoredKeys(info, a)|
    ensures var after, i := Applied(info, a), Left(info, a)[j];
            && StatusAt(after, j) == StatusAt(info, i)
            && Lookup(after.time, j) == Lookup(Copied(info.time, info, a), i)
            && Lookup(after.reason, j) == Lookup(Copied(info.reason, info, a), i)
  {
    var left := Left(info, a);
    KeysAfterDeletion(info, a);
    RenumberedAt(NonEnabled(info.status), left, j);
    RenumberedAt(Copied(info.time, info, a), left, j);
    RenumberedAt(Copied(info.reason, info, a), left, j);
  }

  /** delete_key, for every list: the others keep their order, status, time and reason if and only if no
      key was at the position or neither end of what remains is empty. The list never becomes empty. */
  lemma DeleteKeyKeepsTheOthersIff(info: Info, k: nat)
    requires Accepted(info, DeleteKey(Some(k)))
    ensures var after, part := Applied(info, DeleteKey(Some(k))), Without(Keys(info), k);
            && |Keys(after)| > 0
            && ((Keys(after) == part && forall j :: 0 <= j < |part| ==> Carries(after, j, info, Origin(j, k)))
                <==> k >= |Keys(info)| || NonEmptyEnds(part))
  {
    var a, part := DeleteKey(Some(k)), Without(Keys(info), k);
    PickAllButOne(Keys(info), k);
    SurvivorsOfDelete(|Keys(info)|, k);
    StoredWholeIff(info, a);
    KeysAfterDeletion(info, a);
    if StoredKeys(info, a) == part {
      forall j: nat | j < |part|
        ensures Carries(Applied(info, a), j, info, Origin(j, k))
      {
        EntriesFollow(info, a, j);
      }
    }
  }

  /** delete_disabled_keys, for every list: the keys that are not auto-disabled keep their order and status,
      and their time and reason if disabled, if and only if some remain and neither end of them is empty. */
  lemma DeleteDisabledKeepsTheOthersIff(info: Info)
    requires Accepted(info, DeleteDisabled)
    ensures var after, left := Applied(info, DeleteDisabled), Left(info, DeleteDisabled);
            var part := Pick(Keys(info), left);
            (&& Keys(after) == part
             && forall j :: 0 <= j < |left| ==>
                  && StatusAt(after, j) == StatusAt(info, left[j])
                  && (StatusAt(info, left[j]) != ENABLED ==> Carries(after, j, info, left[j])))
            <==> NonEmptyEnds(part)
  {
    var a, left := DeleteDisabled, Left(info, DeleteDisabled);
    StoredWholeIff(info, a);
    KeysAfterDeletion(info, a);
    if StoredKeys(info, a) == Remaining(info, a) {
      forall j: nat | j < |left|
        ensures StatusAt(Applied(info, a), j) == StatusAt(info, left[j])
        ensures StatusAt(info, left[j]) != ENABLED ==> Carries(Applied(info, a), j, info, left[j])
      {
        EntriesFollow(info, a, j);
      }
    }
  }

  /** delete_disabled_keys is refused exactly when no key is auto-disabled. */
  lemma DeleteDisabledAcceptedIff(info: Info)
    ensures Accepted(info, DeleteDisabled) <==>
              exists i :: 0 <= i < |Keys(info)| && StatusAt(info, i) == AUTO_DISABLED
  {
    SurvivorsCount(|Keys(info)|, NotAutoDisabled(info));
    assert forall i :: NotAutoDisabled(info)(i) <==> StatusAt(info, i) != AUTO_DISABLED;
  }

  lemma NoneAutoDisabled(info: Info, j: int)
    requires Accepted(info, DeleteDisabled)
    ensures StatusAt(Applied(info, DeleteDisabled), j) != AUTO_DISABLED
  {
    var left := Left(info, DeleteDisabled);
    SurvivorsAreTheKept(|Keys(info)|, NotAutoDisabled(info));
    RenumberedAt(NonEnabled(info.status), left, j);
    if 0 <= j < |left| {
      assert left[j] in left;
      assert NotAutoDisabled(info)(left[j]);
    }
  }

  /** delete_disabled_keys leaves no position auto-disabled, and takes keys away if and only if more than
      nothing or one empty key remains. When every key is auto-disabled all of them stay and become enabled. */
  lemma DeleteDisabledRemovesThemIffOthersRemain(info: Info)
    requires Accepted(info, DeleteDisabled)
    ensures var after, part := Applied(info, DeleteDisabled), Remaining(info, DeleteDisabled);
            && (forall i :: StatusAt(after, i) != AUTO_DISABLED)
            && (Keys(after) != Keys(info) <==> |part| > 0 && part != [""])
            && (|part| == 0 ==> forall i :: StatusAt(after, i) == ENABLED)
  {
    var a := DeleteDisabled;
    KeysAfterDeletion(info, a);
    RemainingAreKeys(info, a);
    StripParts(Remaining(info, a));
    forall i
      ensures StatusAt(Applied(info, a), i) != AUTO_DISABLED
    {
      NoneAutoDisabled(info, i);
    }
    if |Remaining(info, a)| > 0 && |Strip(Remaining(info, a))| == 0 {
      StoredKeysHaveEnds(info.key);
    }
  }

  /** The keys and the deletions of the next three lemmas. */
  lemma LosesItsFirstKeys(info: Info, a: Action)
    requires Keys(info) == ["a", "", "b"] && Deletes(a) && Accepted(info, a) && Left(info, a) == [1, 2]
    ensures Keys(Applied(info, a)) == ["b"]
  {
    assert Remaining(info, a) == ["", "b"];
    assert ["", "b"][1..] == ["b"];
    assert DropLeading(["", "b"]) == DropLeading(["b"]) == ["b"];
    assert Strip(["", "b"]) == ["b"];
    KeysAfterDeletion(info, a);
  }

  lemma FirstOfThree(info: Info)
    requires info.size == |Keys(info)| == 3
    ensures Accepted(info, DeleteKey(Some(0))) && Left(info, DeleteKey(Some(0))) == [1, 2]
  {
    SurvivorsOfDelete(3, 0);
  }

  /** One such loss: the second of the remaining keys is stored as the first, without its status. */
  lemma EmptyKeyLosesAStatus(info: Info)
    requires info.size == 3 && Keys(info) == ["a", "", "b"] && info.status == map[2 := MANUALLY_DISABLED]
    ensures Accepted(info, DeleteKey(Some(0)))
    ensures Keys(Applied(info, DeleteKey(Some(0)))) == ["b"] &&
              StatusAt(Applied(info, DeleteKey(Some(0))), 0) == ENABLED
  {
    var a := DeleteKey(Some(0));
    FirstOfThree(info);
    LosesItsFirstKeys(info, a);
    EntriesFollow(info, a, 0);
  }

  lemma TwoOfThree(kept: int -> bool)
    requires !kept(0) && kept(1) && kept(2)
    ensures Survivors(3, kept) == [1, 2]
  {
    assert Survivors(1, kept) == [] && Survivors(2, kept) == [1];
  }

  /** The same with delete_disabled_keys. */
  lemma DeleteDisabledLosesAStatus(info: Info)
    requires info.size == 3 && Keys(info) == ["a", "", "b"]
    requires info.status == map[0 := AUTO_DISABLED, 2 := MANUALLY_DISABLED]
    ensures Accepted(info, DeleteDisabled)
    ensures Keys(Applied(info, DeleteDisabled)) == ["b"] && StatusAt(Applied(info, DeleteDisabled), 0) == ENABLED
  {
    var a := DeleteDisabled;
    TwoOfThree(NotAutoDisabled(info));
    LosesItsFirstKeys(info, a);
    EntriesFollow(info, a, 0);
  }

  // ---------------------------------------------------------------- what every run keeps

  predicate Positions<V>(m: map<int, V>, n: int) {
    forall i :: i in m ==> 0 <= i < n
  }

  predicate KnownStatus(s: int) {
    s == ENABLED || s == MANUALLY_DISABLED || s == AUTO_DISABLED
  }

  /** The count matches the text, and the statuses are known ones of existing positions. */
  predicate Sound(info: Info) {
    && info.size == |Keys(info)|
    && Positions(info.status, info.size)
    && (forall i :: i in info.status ==> KnownStatus(info.status[i]))
  }

  /** Times and reasons speak of existing positions only. */
  predicate EntriesInRange(info: Info) {
    Positions(info.time, info.size) && Positions(info.reason, info.size)
  }

  predicate WellFormed(info: Info) { Sound(info) && EntriesInRange(info) }

  /** Administrator actions, and the relay disabling a failing key or enabling one that works again. */
  datatype Event = Admin(action: Action) | AutoDisable(index: int, now: int, why: string) | AutoEnable(index: int)

  function React(info: Info, e: Event): Info {
    match e
    case Admin(a) => Step(info, a)
    case AutoDisable(i, now, why) =>
      if 0 <= i < |Keys(info)| then
        info.(status := info.status[i := AUTO_DISABLED], time := info.time[i := now], reason := info.reason[i := why])
      else info
    case AutoEnable(i) => if 0 <= i < |Keys(info)| then info.(status := info.status - {i}) else info
  }

  function Replay(info: Info, events: seq<Event>): Info
    decreases |events|
  {
    if |events| == 0 then info else Replay(React(info, events[0]), events[1..])
  }

  /** What the relay changes: one position, and for a key that works again only its status. */
  lemma RelayChangesOneKey(info: Info, e: Event, i: int)
    requires !e.Admin? && 0 <= e.index < |Keys(info)|
    ensures React(info, e).key == info.key && React(info, e).size == info.size
    ensures i != e.index ==> Carries(React(info, e), i, info, i)
    ensures StatusAt(React(info, e), e.index) == if e.AutoDisable? then AUTO_DISABLED else ENABLED
    ensures Lookup(React(info, e).time, e.index) == if e.AutoDisable? then Some(e.now) else Lookup(info.time, e.index)
    ensures Lookup(React(info, e).reason, e.index) ==
              if e.AutoDisable? then Some(e.why) else Lookup(info.reason, e.index)
  {
  }

  lemma StepKeepsSound(info: Info, a: Action)
    requires Sound(info)
    ensures Sound(Step(info, a))
  {
    if Accepted(info, a) && a.DisableAll? {
      forall i | i in DisabledBelow(info, info.size)
        ensures 0 <= i < info.size && KnownStatus(DisabledBelow(info, info.size)[i])
      {
        DisabledBelowAt(info, info.size, i);
      }
    }
    if Accepted(info, a) && Deletes(a) {
      var status := Renumbered(NonEnabled(info.status), Left(info, a));
      forall j | j in status
        ensures 0 <= j && KnownStatus(status[j])
      {
        RenumberedAt(NonEnabled(info.status), Left(info, a), j);
      }
    }
  }

  /** Whole runs, for every list of keys: whatever the administrators and the relay do, the key count stays
      the number of stored keys and the statuses stay known ones of existing positions. */
  lemma {:induction false} RunsStaySound(info: Info, events: seq<Event>)
    requires Sound(info)
    ensures Sound(Replay(info, events))
    decreases |events|
  {
    if |events| > 0 {
      if events[0].Admin? { StepKeepsSound(info, events[0].action); }
      RunsStaySound(React(info, events[0]), events[1..]);
    }
  }

  /** No key that a deletion keeps behind the last stored position has a time or a reason to copy. */
  predicate Spares(info: Info, a: Action) {
    Deletes(a) && Accepted(info, a) ==>
      forall j :: |StoredKeys(info, a)| <= j < |Left(info, a)| ==>
        Left(info, a)[j] !in Copied(info.time, info, a) && Left(info, a)[j] !in Copied(info.reason, info, a)
  }

  lemma RenumberedInRangeIff<V>(m: map<int, V>, left: seq<int>, n: nat)
    ensures Positions(Renumbered(m, left), n) <==> forall j :: n <= j < |left| ==> left[j] !in m
  {
    forall j: int
      ensures j in Renumbered(m, left) <==> 0 <= j < |left| && left[j] in m
    {
      RenumberedAt(m, left, j);
    }
  }

  lemma StepKeepsRangesIff(info: Info, a: Action)
    requires WellFormed(info)
    ensures EntriesInRange(Step(info, a)) <==> Spares(info, a)
  {
    if Accepted(info, a) && Deletes(a) {
      KeysAfterDeletion(info, a);
      RenumberedInRangeIff(Copied(info.time, info, a), Left(info, a), |StoredKeys(info, a)|);
      RenumberedInRangeIff(Copied(info.reason, info, a), Left(info, a), |StoredKeys(info, a)|);
    }
  }

  /** Times and reasons are in range at every moment of the run. */
  predicate AlwaysInRange(info: Info, events: seq<Event>)
    decreases |events|
  {
    EntriesInRange(info) && (|events| > 0 ==> AlwaysInRange(React(info, events[0]), events[1..]))
  }

  predicate AlwaysSpares(info: Info, events: seq<Event>)
    decreases |events|
  {
    |events| > 0 ==>
      (events[0].Admin? ==> Spares(info, events[0].action)) && AlwaysSpares(React(info, events[0]), events[1..])
  }

  /** Over every run all times and reasons stay within range if and only if every deletion spares them. */
  lemma {:induction false} RangesStayIff(info: Info, events: seq<Event>)
    requires WellFormed(info)
    ensures AlwaysInRange(info, events) <==> AlwaysSpares(info, events)
    decreases |events|
  {
    if |events| > 0 {
      var next := React(info, events[0]);
      RunsStaySound(info, events[..1]);
      if events[0].Admin? {
        StepKeepsSound(info, events[0].action);
        StepKeepsRangesIff(info, events[0].action);
      }
      if EntriesInRange(next) {
        RangesStayIff(next, events[1..]);
      }
    }
  }

  /** A deletion spares all entries when what remains has no empty end. */
  lemma NonEmptyEndsSpare(info: Info, a: Action)
    requires Deletes(a) && Accepted(info, a) && (|Remaining(info, a)| == 0 || NonEmptyEnds(Remaining(info, a)))
    ensures Spares(info, a)
  {
    if |Remaining(info, a)| > 0 { StoredWholeIff(info, a); }
  }

  predicate NoEmptyKeys(info: Info) { forall k :: k in Keys(info) ==> k != "" }

  lemma StepKeepsWellFormed(info: Info, a: Action)
    requires WellFormed(info) && NoEmptyKeys(info)
    ensures WellFormed(Step(info, a)) && NoEmptyKeys(Step(info, a))
  {
    StepKeepsSound(info, a);
    if Accepted(info, a) && Deletes(a) {
      RemainingAreKeys(info, a);
      var part := Remaining(info, a);
      if |part| > 0 {
        assert part[0] in part && part[|part| - 1] in part;
        StoredWholeIff(info, a);
      }
      NonEmptyEndsSpare(info, a);
      KeysAfterDeletion(info, a);
    }
    StepKeepsRangesIff(info, a);
  }

  /** In particular they do in every run from a list without empty keys. */
  lemma {:induction false} RunsStayWellFormed(info: Info, events: seq<Event>)
    requires WellFormed(info) && NoEmptyKeys(info)
    ensures WellFormed(Replay(info, events)) && NoEmptyKeys(Replay(info, events))
    decreases |events|
  {
    if |events| > 0 {
      if events[0].Admin? { StepKeepsWellFormed(info, events[0].action); }
      RunsStayWellFormed(React(info, events[0]), events[1..]);
    }
  }

  lemma TimesAfterDeletion(info: Info, a: Action, j: int)
    requires Deletes(a) && Accepted(info, a) && 0 <= j < |Left(info, a)|
    ensures j in Step(info, a).time <==> Left(info, a)[j] in Copied(info.time, info, a)
  {
    RenumberedAt(Copied(info.time, info, a), Left(info, a), j);
  }

  /** With an empty key they need not: a time is left behind at a position that no longer exists. */
  lemma TimeLeavesTheRange(info: Info)
    requires info.size == 3 && Keys(info) == ["a", "", "b"] && info.time == map[2 := 7]
    ensures var after := Step(info, DeleteKey(Some(0))); after.size == 1 && 1 in after.time
  {
    var a := DeleteKey(Some(0));
    FirstOfThree(info);
    LosesItsFirstKeys(info, a);
    KeysAfterDeletion(info, a);
    TimesAfterDeletion(info, a, 1);
  }

  // ---------------------------------------------------------------- the other actions

  /** What each of the other accepted actions makes of every position's status, time and reason. */
  lemma StatusAfter(info: Info, a: Action, i: int)
    requires info.size == |Keys(info)| && Accepted(info, a) && !a.DeleteKey? && !a.DeleteDisabled? && 0 <= i < info.size
    ensures Keys(Applied(info, a)) == Keys(info)
    ensures StatusAt(Applied(info, a), i) ==
              match a
              case DisableKey(index) => if i == index.value then MANUALLY_DISABLED else StatusAt(info, i)
              case EnableKey(index) => if i == index.value then ENABLED else StatusAt(info, i)
              case EnableAll => ENABLED
              case DisableAll => if StatusAt(info, i) == ENABLED then MANUALLY_DISABLED else StatusAt(info, i)
              case _ => 0
    ensures var cleared := a.EnableAll? || (a.EnableKey? && i == a.index.value);
            && Lookup(Applied(info, a).time, i) == (if cleared then None else Lookup(info.time, i))
            && Lookup(Applied(info, a).reason, i) == (if cleared then None else Lookup(info.reason, i))
  {
    if a.DisableAll? { DisabledBelowAt(info, info.size, i); }
  }

  lemma ForgetsOne<V>(m: map<int, V>, k: int, v: V, n: int)
    ensures Below(Below(m[k := v], n) - {k}, n) == Below(m[k := v] - {k}, n) == Below(m - {k}, n)
    ensures m[k := v] - {k} == m - {k}
    ensures k !in m ==> m - {k} == m
  {
  }

  /** Enabling a key forgets how it was disabled, by an administrator or by the relay. */
  lemma EnablingUndoesDisabling(info: Info, k: int, now: int, why: string)
    requires info.size == |Keys(info)| && 0 <= k < info.size
    ensures var enabled := Step(info, EnableKey(Some(k)));
            && Step(Step(info, DisableKey(Some(k))), EnableKey(Some(k))) == enabled
            && Step(React(info, AutoDisable(k, now, why)), EnableKey(Some(k))) == enabled
  {
    ForgetsOne(info.status, k, MANUALLY_DISABLED, info.size);
    ForgetsOne(info.status, k, AUTO_DISABLED, info.size);
    ForgetsOne(info.time, k, now, info.size);
    ForgetsOne(info.reason, k, why, info.size);
  }

  /** Enabling a key that was not disabled changes nothing. */
  lemma EnablingAnEnabledKey(info: Info, k: int)
    requires Sound(info) && 0 <= k < info.size && k !in info.status && k !in info.time && k !in info.reason
    ensures Step(info, EnableKey(Some(k))) == info
  {
    ForgetsOne(info.status, k, ENABLED, info.size);
    ForgetsOne(info.time, k, 0, info.size);
    ForgetsOne(info.reason, k, "", info.size);
    assert Below(info.status, info.size) == info.status;
  }

  function CountOf(info: Info, n: nat, code: int): nat {
    if n == 0 then 0 else CountOf(info, n - 1, code) + if StatusAt(info, n - 1) == code then 1 else 0
  }

  /** The statistics of get_key_status. */
  method CountStatuses(info: Info) returns (enabledCount: nat, manualDisabledCount: nat, autoDisabledCount: nat)
    ensures enabledCount == CountOf(info, |Keys(info)|, ENABLED)
    ensures manualDisabledCount == CountOf(info, |Keys(info)|, MANUALLY_DISABLED)
    ensures autoDisabledCount == CountOf(info, |Keys(info)|, AUTO_DISABLED)
  {
    var keys := GetKeys(info.key);
    enabledCount, manualDisabledCount, autoDisabledCount := 0, 0, 0;
    for i := 0 to |keys|
      invariant enabledCount == CountOf(info, i, ENABLED)
      invariant manualDisabledCount == CountOf(info, i, MANUALLY_DISABLED)
      invariant autoDisabledCount == CountOf(info, i, AUTO_DISABLED)
    {
      var status := ENABLED;
      if i in info.status { status := info.status[i]; }
      if status == ENABLED {
        enabledCount := enabledCount + 1;
      } else if status == MANUALLY_DISABLED {
        manualDisabledCount := manualDisabledCount + 1;
      } else if status == AUTO_DISABLED {
        autoDisabledCount := autoDisabledCount + 1;
      }
    }
  }

  function WithStatus(info: Info, n: nat, code: int): set<int> { set i | 0 <= i < n && StatusAt(info, i) == code }

  lemma OneMorePosition(info: Info, n: nat, code: int)
    ensures WithStatus(info, n + 1, code) ==
              if StatusAt(info, n) == code then WithStatus(info, n, code) + {n} else WithStatus(info, n, code)
    ensures n !in WithStatus(info, n, code)
  {
  }

  /** A count is the number of positions with that status. */
  lemma {:induction false} CountsPositions(info: Info, n: nat, code: int)
    ensures CountOf(info, n, code) == |WithStatus(info, n, code)|
  {
    if n > 0 {
      CountsPositions(info, n - 1, code);
      OneMorePosition(info, n - 1, code);
    }
  }

  /** The three counts add up to the number of keys exactly when every status is a known one. */
  lemma {:induction false} CountsAddUp(info: Info, n: nat)
    ensures CountOf(info, n, ENABLED) + CountOf(info, n, MANUALLY_DISABLED) + CountOf(info, n, AUTO_DISABLED) <= n
    ensures CountOf(info, n, ENABLED) + CountOf(info, n, MANUALLY_DISABLED) + CountOf(info, n, AUTO_DISABLED) == n
            <==> forall i :: 0 <= i < n ==> KnownStatus(StatusAt(info, i))
  {
    if n > 0 { CountsAddUp(info, n - 1); }
  }
}
