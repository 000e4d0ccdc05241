/**
 Appending keys to a multi-key channel in newline format: the new lines are
 trimmed, blank ones dropped, duplicates of existing or earlier keys skipped, and
 the rest joined behind the existing keys.
 */
module KeyAppend {
  import opened KeyText
  import MultiKey

  /** unicode.IsSpace. */
  predicate IsSpace(c: char) {
    var n := c as int;
    9 <= n <= 13 || n == 0x20 || n == 0x85 || n == 0xA0 || n == 0x1680 || 0x2000 <= n <= 0x200A
    || n == 0x2028 || n == 0x2029 || n == 0x202F || n == 0x205F || n == 0x3000
  }

  function TrimSpace(s: string): (r: string)
    ensures |r| <= |s|
    ensures forall c :: c in r ==> c in s
    ensures r == "" || (!IsSpace(r[0]) && !IsSpace(r[|r| - 1]))
  {
    if |s| > 0 && IsSpace(s[0]) then TrimSpace(s[1..])
    else if |s| > 0 && IsSpace(s[|s| - 1]) then TrimSpace(s[..|s| - 1])
    else s
  }

  /** Trimmed lines, without the blank ones. */
  function Wanted(lines: seq<string>): seq<string> {
    if |lines| == 0 then []
    else
      var init, last := Wanted(lines[..|lines| - 1]), TrimSpace(lines[|lines| - 1]);
      if last != "" then init + [last] else init
  }

  function Known(keys: seq<string>): set<string> {
    set k | k in keys && TrimSpace(k) != "" :: TrimSpace(k)
  }

  /** The keys that have not been seen, each once, in order. */
  function Fresh(seen: set<string>, keys: seq<string>): seq<string>
    decreases |keys|
  {
    if |keys| == 0 then []
    else if keys[0] in seen then Fresh(seen, keys[1..])
    else [keys[0]] + Fresh(seen + {keys[0]}, keys[1..])
  }

  function Appended(existing: seq<string>, lines: seq<string>): seq<string> {
    existing + Fresh(Known(existing), Wanted(lines))
  }

  /** The text stored after an append to newline format. An empty stored text is simply replaced. */
  function AppendedText(origin: string, input: string): string {
    if origin == "" then input else Join(Appended(GetKeys(origin), Split(input)))
  }

  /** Such a text is tried as a JSON array first. */
  predicate Bracketed(text: string) { |TrimSpace(text)| > 0 && TrimSpace(text)[0] == '[' }

  /** The keys of any stored text; `parsed` is what the JSON decoder makes of it. */
  function ReadKeys(text: string, parsed: MultiKey.Option<seq<string>>): seq<string> {
    if text != "" && Bracketed(text) && parsed.Some? then parsed.value else GetKeys(text)
  }

  /** The keys that an append takes for the existing ones. */
  function SeenKeys(text: string, parsed: MultiKey.Option<seq<string>>): seq<string> {
    if !Bracketed(text) then GetKeys(text) else if parsed.Some? then parsed.value else []
  }

  /** An append sees the keys of the stored text unless that begins like a JSON array and is none. Then all
      its keys are lost. */
  lemma AppendSeesTheKeysIff(text: string, parsed: MultiKey.Option<seq<string>>)
    requires text != ""
    ensures SeenKeys(text, parsed) == ReadKeys(text, parsed) <==> !(Bracketed(text) && parsed.None?)
    ensures Bracketed(text) && parsed.None? ==> SeenKeys(text, parsed) == [] && |ReadKeys(text, parsed)| >= 1
  {
    StoredKeysHaveEnds(text);
  }

  lemma {:induction false} TrimmedStaysTrimmed(s: string)
    requires s == "" || (!IsSpace(s[0]) && !IsSpace(s[|s| - 1]))
    ensures TrimSpace(s) == s
  {
  }

  lemma {:induction false} WantedKeys(lines: seq<string>)
    ensures forall k :: k in Wanted(lines) <==> k != "" && exists l :: l in lines && TrimSpace(l) == k
  {
    if |lines| != 0 {
      var init, last := lines[..|lines| - 1], lines[|lines| - 1];
      WantedKeys(init);
      assert lines == init + [last];
      forall k
        ensures k in Wanted(lines) <==> k != "" && exists l :: l in lines && TrimSpace(l) == k
      {
        if k != "" && TrimSpace(last) == k {
          assert last in lines;
        }
        if l :| l in init && TrimSpace(l) == k {
          assert l in lines;
        }
      }
    }
  }

  lemma WantedAreTrimmed(lines: seq<string>)
    ensures forall k :: k in Wanted(lines) ==> k != "" && TrimSpace(k) == k
  {
    WantedKeys(lines);
    forall k | k in Wanted(lines)
      ensures TrimSpace(k) == k
    {
      var l :| l in lines && TrimSpace(l) == k;
      TrimmedStaysTrimmed(k);
    }
  }

  method TrimLines(lines: seq<string>) returns (newKeys: seq<string>)
    ensures newKeys == Wanted(lines)
  {
    newKeys := [];
    for i := 0 to |lines|
      invariant newKeys == Wanted(lines[..i])
    {
      var key := TrimSpace(lines[i]);
      if key != "" {
        newKeys := newKeys + [key];
      }
      assert lines[..i + 1][..i] == lines[..i];
    }
    assert lines[..|lines|] == lines;
  }

  method CollectSeen(existing: seq<string>) returns (seen: set<string>)
    ensures seen == Known(existing)
  {
    seen := {};
    for i := 0 to |existing|
      invariant seen == Known(existing[..i])
    {
      var normalized := TrimSpace(existing[i]);
      assert existing[..i + 1] == existing[..i] + [existing[i]];
      if normalized == "" { continue; }
      seen := seen + {normalized};
    }
    assert existing[..|existing|] == existing;
  }

  method SkipSeen(known: set<string>, newKeys: seq<string>) returns (deduped: seq<string>)
    requires forall k :: k in newKeys ==> k != "" && TrimSpace(k) == k
    ensures deduped == Fresh(known, newKeys)
  {
    var seen := known;
    deduped := [];
    for i := 0 to |newKeys|
      invariant deduped + Fresh(seen, newKeys[i..]) == Fresh(known, newKeys)
    {
      assert newKeys[i] in newKeys;
      var normalized := TrimSpace(newKeys[i]);
      assert newKeys[i..][0] == normalized && newKeys[i..][1..] == newKeys[i + 1..];
      if normalized == "" || normalized in seen { continue; }
      seen := seen + {normalized};
      deduped := deduped + [normalized];
    }
  }

  /** The append branch of UpdateChannel. `parsed` is what the JSON decoder makes of the stored text. */
  method AppendKeys(origin: string, input: string, parsed: MultiKey.Option<seq<string>>) returns (text: string)
    ensures text == if origin == "" then input else Join(Appended(SeenKeys(origin, parsed), Split(input)))
    ensures !Bracketed(origin) ==> text == AppendedText(origin, input)
  {
    if origin == "" { return input; }
    var existing := [];
    if Bracketed(origin) {
      if parsed.Some? { existing := parsed.value; }
    } else {
      existing := Split(Trim(origin));
    }
    var newKeys := TrimLines(Split(input));
    var seen := CollectSeen(existing);
    WantedAreTrimmed(Split(input));
    var deduped := SkipSeen(seen, newKeys);
    text := Join(existing + deduped);
  }

  // ---------------------------------------------------------------- what an append means

  predicate NoDup(keys: seq<string>) {
    forall i, j :: 0 <= i < j < |keys| ==> keys[i] != keys[j]
  }

  lemma {:induction false} FreshKeys(seen: set<string>, keys: seq<string>)
    ensures NoDup(Fresh(seen, keys))
    ensures forall k :: k in Fresh(seen, keys) <==> k in keys && k !in seen
    decreases |keys|
  {
    if |keys| != 0 {
      assert keys == [keys[0]] + keys[1..];
      FreshKeys(if keys[0] in seen then seen else seen + {keys[0]}, keys[1..]);
    }
  }

  lemma AppendedKeys(existing: seq<string>, lines: seq<string>)
    ensures var result := Appended(existing, lines);
            var added := result[|existing|..];
            && existing <= result
            && NoDup(added)
            && forall k :: k in added <==>
                 k != "" && (exists l :: l in lines && TrimSpace(l) == k) &&
                     !(exists e :: e in existing && TrimSpace(e) == k)
  {
    var added := Fresh(Known(existing), Wanted(lines));
    assert Appended(existing, lines)[|existing|..] == added;
    FreshKeys(Known(existing), Wanted(lines));
    WantedKeys(lines);
  }

  // ---------------------------------------------------------------- what trimming removes

  predicate Blank(s: string) { forall c :: c in s ==> IsSpace(c) }

  /** Neither end is blank. */
  predicate Tidy(k: string) { |k| == 0 || (!IsSpace(k[0]) && !IsSpace(k[|k| - 1])) }

  /** The line is the key with nothing but blanks around it. */
  ghost predicate Pads(line: string, k: string) {
    Tidy(k) && exists a: string, b: string :: Blank(a) && Blank(b) && line == a + k + b
  }

  /** The blanks of ASCII. */
  lemma AsciiBlanks(c: char)
    requires c as int < 128
    ensures IsSpace(c) <==> c == ' ' || c == '\t' || c == '\n' || c == '\r' || c as int == 11 || c as int == 12
  {
  }

  lemma BlankBoth(a: string, b: string)
    requires Blank(a) && Blank(b)
    ensures Blank(a + b)
  {
  }

  lemma BlankParts(s: string)
    requires Blank(s) && |s| > 0
    ensures IsSpace(s[0]) && IsSpace(s[|s| - 1]) && Blank(s[1..]) && Blank(s[..|s| - 1])
  {
  }

  /** Trimming removes blanks from the ends and nothing else. */
  lemma {:induction false} TrimRemovesBlanks(s: string) returns (a: string, b: string)
    ensures Blank(a) && Blank(b) && s == a + TrimSpace(s) + b
  {
    if |s| > 0 && IsSpace(s[0]) {
      var x, y := TrimRemovesBlanks(s[1..]);
      BlankBoth([s[0]], x);
      a, b := [s[0]] + x, y;
      assert s == [s[0]] + (x + TrimSpace(s[1..]) + y);
    } else if |s| > 0 && IsSpace(s[|s| - 1]) {
      var x, y := TrimRemovesBlanks(s[..|s| - 1]);
      BlankBoth(y, [s[|s| - 1]]);
      a, b := x, y + [s[|s| - 1]];
      assert s == x + TrimSpace(s[..|s| - 1]) + y + [s[|s| - 1]];
    } else {
      a, b := "", "";
      assert TrimSpace(s) == s;
    }
  }

  lemma {:induction false} TrimLeading(a: string, rest: string)
    requires Blank(a)
    ensures TrimSpace(a + rest) == TrimSpace(rest)
  {
    if |a| == 0 {
      assert a + rest == rest;
    } else {
      BlankParts(a);
      TrimLeading(a[1..], rest);
      assert (a + rest)[1..] == a[1..] + rest;
    }
  }

  lemma {:induction false} TrimTrailing(k: string, b: string)
    requires Blank(b) && Tidy(k) && |k| > 0
    ensures TrimSpace(k + b) == k
    decreases |b|
  {
    if |b| == 0 {
      assert k + b == k;
    } else {
      BlankParts(b);
      TrimTrailing(k, b[..|b| - 1]);
      assert (k + b)[..|k + b| - 1] == k + b[..|b| - 1];
    }
  }

  /** And it removes all of them. */
  lemma TrimUndoesPadding(a: string, k: string, b: string)
    requires Blank(a) && Blank(b) && Tidy(k)
    ensures TrimSpace(a + k + b) == k
  {
    if |k| == 0 {
      BlankBoth(a, b);
      assert a + k + b == (a + b) + "";
      TrimLeading(a + b, "");
    } else {
      assert a + k + b == a + (k + b);
      TrimLeading(a, k + b);
      TrimTrailing(k, b);
    }
  }

  lemma PadsIff(line: string, k: string)
    ensures Pads(line, k) <==> TrimSpace(line) == k
  {
    var a, b := TrimRemovesBlanks(line);
    if x: string, y: string :| Blank(x) && Blank(y) && Tidy(k) && line == x + k + y {
      TrimUndoesPadding(x, k, y);
    }
  }

  /** Each key of the new lines, without the blanks around it, ends up exactly once behind the existing keys,
      unless it is one of these without the blanks around it; nothing else is added. */
  lemma AppendAddsEachNewKeyOnce(existing: seq<string>, lines: seq<string>)
    ensures var result := Appended(existing, lines);
            var added := result[|existing|..];
            && existing <= result
            && NoDup(added)
            && forall k :: k in added <==>
                 k != "" && (exists l :: l in lines && Pads(l, k)) && !(exists e :: e in existing && Pads(e, k))
  {
    AppendedKeys(existing, lines);
    forall l, k
      ensures Pads(l, k) <==> TrimSpace(l) == k
    {
      PadsIff(l, k);
    }
  }

  // ---------------------------------------------------------------- new keys keep their order

  function Elements(keys: seq<string>): set<string> { set k | k in keys }

  lemma {:induction false} WantedOfBoth(a: seq<string>, b: seq<string>)
    ensures Wanted(a + b) == Wanted(a) + Wanted(b)
    decreases |b|
  {
    if |b| == 0 {
      assert a + b == a && Wanted(a) + [] == Wanted(a);
    } else {
      var init := b[..|b| - 1];
      WantedOfBoth(a, init);
      assert (a + b)[..|a + b| - 1] == a + init && (a + b)[|a + b| - 1] == b[|b| - 1];
    }
  }

  lemma {:induction false} FreshOfBoth(seen: set<string>, a: seq<string>, b: seq<string>)
    ensures Fresh(seen, a + b) == Fresh(seen, a) + Fresh(seen + Elements(a), b)
    decreases |a|
  {
    if |a| == 0 {
      assert a + b == b && seen + Elements(a) == seen;
    } else {
      var next := if a[0] in seen then seen else seen + {a[0]};
      assert (a + b)[1..] == a[1..] + b;
      FreshOfBoth(next, a[1..], b);
      assert next + Elements(a[1..]) == seen + Elements(a);
    }
  }

  lemma KnownAfter(existing: seq<string>, wanted: seq<string>)
    requires forall k :: k in wanted ==> k != "" && TrimSpace(k) == k
    ensures Known(existing + Fresh(Known(existing), wanted)) == Known(existing) + Elements(wanted)
  {
    var seen := Known(existing);
    FreshKeys(seen, wanted);
    forall k
      ensures k in Known(existing + Fresh(seen, wanted)) <==> k in seen || k in Elements(wanted)
    {
      if k in wanted && k !in seen {
        assert k in existing + Fresh(seen, wanted);
      }
    }
  }

  /** Appending in two goes is the same as appending once. */
  lemma AppendInTwoGoes(existing: seq<string>, first: seq<string>, second: seq<string>)
    ensures Appended(Appended(existing, first), second) == Appended(existing, first + second)
  {
    var seen := Known(existing);
    WantedAreTrimmed(first);
    WantedOfBoth(first, second);
    FreshOfBoth(seen, Wanted(first), Wanted(second));
    KnownAfter(existing, Wanted(first));
  }

  /** One line adds its key at the end, or nothing. */
  lemma AppendOneLine(existing: seq<string>, line: string, k: string)
    requires Pads(line, k)
    ensures Appended(existing, [line]) ==
              if k == "" || exists e :: e in existing && Pads(e, k) then existing else existing + [k]
  {
    PadsIff(line, k);
    assert Wanted([line][..0]) == [];
    forall e
      ensures Pads(e, k) <==> TrimSpace(e) == k
    {
      PadsIff(e, k);
    }
    if k != "" {
      assert Wanted([line]) == [k];
      assert k in Known(existing) <==> exists e :: e in existing && TrimSpace(e) == k;
      assert Fresh(Known(existing), [k]) == if k in Known(existing) then [] else [k];
    }
  }

  /** Among tidy keys a new one is added without the blanks around it. */
  lemma AppendPaddedKey(existing: seq<string>, a: string, k: string, b: string)
    requires Blank(a) && Blank(b) && Tidy(k) && k != "" && k !in existing
    requires forall e :: e in existing ==> Tidy(e)
    ensures Appended(existing, [a + k + b]) == existing + [k]
  {
    forall e | e in existing
      ensures !Pads(e, k)
    {
      assert e == "" + e + "";
      TrimUndoesPadding("", e, "");
      PadsIff(e, k);
    }
    AppendOneLine(existing, a + k + b, k);
  }

  lemma AppendNoNewlines(origin: string, input: string)
    requires origin != ""
    ensures NoNewlines(Appended(GetKeys(origin), Split(input)))
  {
    var existing, lines := GetKeys(origin), Split(input);
    var all := Appended(existing, lines);
    AppendedKeys(existing, lines);
    forall i | 0 <= i < |all|
      ensures '\n' !in all[i]
    {
      if i < |existing| {
        assert all[i] in existing;
      } else {
        assert all[i] in all[|existing|..];
        var l :| l in lines && TrimSpace(l) == all[i];
      }
    }
  }

  lemma EndsOfBoth(existing: seq<string>, added: seq<string>)
    requires existing == [""] || NonEmptyEnds(existing)
    requires forall k :: k in added ==> k != ""
    ensures NonEmptyEnds(existing + added) <==> existing != [""]
  {
    if |added| > 0 {
      assert (existing + added)[0] == existing[0];
      assert (existing + added)[|existing + added| - 1] == added[|added| - 1];
      assert added[|added| - 1] in added;
    } else {
      assert existing + added == existing;
    }
  }

  lemma AppendedEnds(existing: seq<string>, lines: seq<string>)
    requires existing == [""] || NonEmptyEnds(existing)
    ensures NonEmptyEnds(Appended(existing, lines)) <==> existing != [""]
  {
    var added := Fresh(Known(existing), Wanted(lines));
    FreshKeys(Known(existing), Wanted(lines));
    WantedKeys(lines);
    EndsOfBoth(existing, added);
  }

  /** The text of an append reads back as the existing keys followed by the new ones, exactly unless the
      stored text was nothing but newlines. */
  lemma AppendIsStored(origin: string, input: string)
    requires origin != "" && AppendedText(origin, input) != ""
    ensures GetKeys(AppendedText(origin, input)) == Appended(GetKeys(origin), Split(input)) <==> GetKeys(origin) != [""]
  {
    var existing, lines := GetKeys(origin), Split(input);
    StoredKeysHaveEnds(origin);
    AppendedEnds(existing, lines);
    AppendNoNewlines(origin, input);
    KeysSurviveStorage(Appended(existing, lines));
  }

  /** What the channel becomes when the text of an append is saved. */
  function AppendedTo(info: MultiKey.Info, input: string): MultiKey.Info {
    MultiKey.Saved(info, AppendedText(info.key, input), info.status, info.time, info.reason)
  }

  lemma KeysAfterAppend(info: MultiKey.Info, input: string)
    requires info.key != ""
    ensures var after, all := AppendedTo(info, input), Appended(MultiKey.Keys(info), Split(input));
            && (MultiKey.Keys(after) == all <==> MultiKey.Keys(info) != [""] || all == [""])
            && |MultiKey.Keys(after)| >= (if MultiKey.Keys(info) == [""] then 1 else |MultiKey.Keys(info)|)
  {
    var existing := GetKeys(info.key);
    var all := Appended(existing, Split(input));
    AppendAddsEachNewKeyOnce(existing, Split(input));
    StoredKeysHaveEnds(info.key);
    AppendNoNewlines(info.key, input);
    JoinEnds(all);
    if AppendedText(info.key, input) != "" {
      AppendIsStored(info.key, input);
      StoredKeysHaveEnds(AppendedText(info.key, input));
    }
  }

  /** Appending to any channel keeps it well-formed. The existing keys keep their positions, statuses, times
      and reasons and the new ones are enabled, if and only if the stored text has more than newlines or
      nothing is added. */
  lemma AppendKeepsTheExistingIff(info: MultiKey.Info, input: string)
    requires MultiKey.WellFormed(info) && info.key != ""
    ensures MultiKey.WellFormed(AppendedTo(info, input))
    ensures var after, all := AppendedTo(info, input), Appended(MultiKey.Keys(info), Split(input));
            (&& MultiKey.Keys(after) == all
             && (forall i :: 0 <= i < info.size ==> MultiKey.Carries(after, i, info, i))
             && (forall i :: info.size <= i < after.size ==> MultiKey.StatusAt(after, i) == MultiKey.ENABLED))
            <==> MultiKey.Keys(info) != [""] || all == [""]
  {
    KeysAfterAppend(info, input);
  }
}
