/**
 The text form of a multi-key channel: keys separated by newlines. Splitting trims
 newlines at both ends of the text first, so joining and splitting are inverse
 exactly for key lists whose first and last key are not empty.

 A text that begins with '[' is tried as a JSON array first; this module is about
 texts that do not.
 */
module KeyText {

  /** strings.Split(s, "\n"). */
  function Split(s: string): (r: seq<string>)
    ensures |r| >= 1
    ensures forall k :: k in r ==> '\n' !in k
  {
    if |s| == 0 then [""]
    else
      var rest := Split(s[1..]);
      if s[0] == '\n' then [""] + rest
      else
        assert rest[0] in rest;
        [[s[0]] + rest[0]] + rest[1..]
  }

  /** strings.Join(keys, "\n"). */
  function Join(keys: seq<string>): string {
    if |keys| == 0 then ""
    else if |keys| == 1 then keys[0]
    else keys[0] + "\n" + Join(keys[1..])
  }

  function TrimLeft(s: string): string {
    if |s| > 0 && s[0] == '\n' then TrimLeft(s[1..]) else s
  }

  function TrimRight(s: string): string {
    if |s| > 0 && s[|s| - 1] == '\n' then TrimRight(s[..|s| - 1]) else s
  }

  /** strings.Trim(s, "\n"). */
  function Trim(s: string): string {
    TrimRight(TrimLeft(s))
  }

  /** The keys of a channel in newline format. */
  function GetKeys(text: string): seq<string> {
    if text == "" then [] else Split(Trim(text))
  }

  // ---------------------------------------------------------------- splitting what was joined

  lemma {:induction false} SplitFirst(k: string, rest: string)
    requires '\n' !in k
    ensures Split(k) == [k]
    ensures Split(k + "\n" + rest) == [k] + Split(rest)
  {
    var s := k + "\n" + rest;
    if k == "" {
      assert s[1..] == rest;
    } else {
      SplitFirst(k[1..], rest);
      assert s[1..] == k[1..] + "\n" + rest;
      assert [k[0]] + k[1..] == k;
    }
  }

  predicate NoNewlines(keys: seq<string>) {
    forall i :: 0 <= i < |keys| ==> '\n' !in keys[i]
  }

  lemma {:induction false} SplitOfJoin(keys: seq<string>)
    requires |keys| >= 1 && NoNewlines(keys)
    ensures Split(Join(keys)) == keys
  {
    if |keys| == 1 {
      SplitFirst(keys[0], "");
    } else {
      SplitOfJoin(keys[1..]);
      SplitFirst(keys[0], Join(keys[1..]));
    }
  }

  /** Where the text of a key list begins and ends. */
  lemma {:induction false} JoinEnds(keys: seq<string>)
    requires |keys| >= 1 && NoNewlines(keys)
    ensures Join(keys) == "" <==> keys == [""]
    ensures |keys| >= 2 || keys[0] != "" ==>
              && |Join(keys)| > 0
              && (Join(keys)[0] == '\n' <==> keys[0] == "")
              && (Join(keys)[|Join(keys)| - 1] == '\n' <==> keys[|keys| - 1] == "")
  {
    if |keys| >= 2 {
      var rest := keys[1..];
      JoinEnds(rest);
      var tail := Join(rest);
      assert Join(keys) == keys[0] + "\n" + tail;
      assert rest[|rest| - 1] == keys[|keys| - 1];
      if tail != "" {
        assert Join(keys)[|Join(keys)| - 1] == tail[|tail| - 1];
      }
    }
  }

  predicate NonEmptyEnds(keys: seq<string>) {
    |keys| > 0 && keys[0] != "" && keys[|keys| - 1] != ""
  }

  // ---------------------------------------------------------------- trimming loses empty keys at the ends

  function DropLeading(keys: seq<string>): seq<string> {
    if |keys| > 0 && keys[0] == "" then DropLeading(keys[1..]) else keys
  }

  function DropTrailing(keys: seq<string>): seq<string> {
    if |keys| > 0 && keys[|keys| - 1] == "" then DropTrailing(keys[..|keys| - 1]) else keys
  }

  /** The keys without the empty ones at both ends. */
  function Strip(keys: seq<string>): seq<string> { DropTrailing(DropLeading(keys)) }

  lemma {:induction false} JoinLast(keys: seq<string>, k: string)
    requires |keys| >= 1
    ensures Join(keys + [k]) == Join(keys) + "\n" + k
  {
    if |keys| > 1 {
      assert (keys + [k])[1..] == keys[1..] + [k];
      JoinLast(keys[1..], k);
    }
  }

  lemma {:induction false} TrimLeftOfJoin(keys: seq<string>)
    requires NoNewlines(keys)
    ensures TrimLeft(Join(keys)) == Join(DropLeading(keys))
  {
    if |keys| > 0 && keys[0] == "" {
      TrimLeftOfJoin(keys[1..]);
      if |keys| > 1 {
        assert Join(keys)[1..] == Join(keys[1..]);
      }
    } else if |keys| > 0 {
      JoinEnds(keys);
    }
  }

  lemma {:induction false} TrimRightOfJoin(keys: seq<string>)
    requires NoNewlines(keys)
    ensures TrimRight(Join(keys)) == Join(DropTrailing(keys))
    decreases |keys|
  {
    if |keys| > 0 && keys[|keys| - 1] == "" {
      var init := keys[..|keys| - 1];
      TrimRightOfJoin(init);
      if |keys| > 1 {
        assert keys == init + [""];
        JoinLast(init, "");
        assert Join(keys)[..|Join(keys)| - 1] == Join(init);
      }
    } else if |keys| > 0 {
      JoinEnds(keys);
    }
  }

  lemma {:induction false} DropLeadingParts(keys: seq<string>)
    ensures |DropLeading(keys)| <= |keys| && forall k :: k in DropLeading(keys) ==> k in keys
    ensures |DropLeading(keys)| == |keys| <==> |keys| == 0 || keys[0] != ""
    ensures |DropLeading(keys)| > 0 ==> DropLeading(keys)[|DropLeading(keys)| - 1] == keys[|keys| - 1]
  {
    if |keys| > 0 && keys[0] == "" { DropLeadingParts(keys[1..]); }
  }

  lemma {:induction false} DropTrailingParts(keys: seq<string>)
    ensures |DropTrailing(keys)| <= |keys| && forall k :: k in DropTrailing(keys) ==> k in keys
    ensures |DropTrailing(keys)| == |keys| <==> |keys| == 0 || keys[|keys| - 1] != ""
    decreases |keys|
  {
    if |keys| > 0 && keys[|keys| - 1] == "" { DropTrailingParts(keys[..|keys| - 1]); }
  }

  lemma StripParts(keys: seq<string>)
    requires NoNewlines(keys)
    ensures |Strip(keys)| <= |keys| && NoNewlines(Strip(keys))
    ensures Strip(keys) == keys <==> |keys| == 0 || NonEmptyEnds(keys)
  {
    DropLeadingParts(keys);
    DropTrailingParts(DropLeading(keys));
    forall i | 0 <= i < |Strip(keys)| ensures '\n' !in Strip(keys)[i] {
      assert Strip(keys)[i] in keys;
    }
  }

  /** What storing makes of a list of newline-free keys: empty keys at its ends are lost, and a list of
      nothing but empty keys comes back as one empty key, or as none if it was a single one. */
  lemma StorageStrips(keys: seq<string>)
    requires |keys| >= 1 && NoNewlines(keys)
    ensures GetKeys(Join(keys)) == if keys == [""] then [] else if |Strip(keys)| == 0 then [""] else Strip(keys)
  {
    JoinEnds(keys);
    TrimLeftOfJoin(keys);
    DropLeadingParts(keys);
    forall i | 0 <= i < |DropLeading(keys)| ensures '\n' !in DropLeading(keys)[i] {
      assert DropLeading(keys)[i] in keys;
    }
    TrimRightOfJoin(DropLeading(keys));
    StripParts(keys);
    if |Strip(keys)| > 0 { SplitOfJoin(Strip(keys)); }
  }

  /** Round trip: a non-empty list of newline-free keys survives being stored as text exactly when neither
      its first nor its last key is empty. */
  lemma KeysSurviveStorage(keys: seq<string>)
    requires |keys| >= 1 && NoNewlines(keys)
    ensures GetKeys(Join(keys)) == keys <==> NonEmptyEnds(keys)
  {
    StorageStrips(keys);
    StripParts(keys);
  }

  lemma {:induction false} TrimRightEnds(s: string)
    ensures TrimRight(s) == "" || TrimRight(s)[|TrimRight(s)| - 1] != '\n'
    ensures TrimRight(s) <= s
    decreases |s|
  {
    if |s| > 0 && s[|s| - 1] == '\n' { TrimRightEnds(s[..|s| - 1]); }
  }

  lemma {:induction false} TrimLeftEnds(s: string)
    ensures TrimLeft(s) == "" || TrimLeft(s)[0] != '\n'
  {
    if |s| > 0 && s[0] == '\n' { TrimLeftEnds(s[1..]); }
  }

  lemma TrimEnds(s: string)
    ensures Trim(s) == "" || (Trim(s)[0] != '\n' && Trim(s)[|Trim(s)| - 1] != '\n')
  {
    TrimLeftEnds(s);
    TrimRightEnds(TrimLeft(s));
  }

  lemma {:induction false} JoinOfSplit(s: string)
    ensures Join(Split(s)) == s
  {
    if |s| != 0 {
      var rest := Split(s[1..]);
      JoinOfSplit(s[1..]);
      assert Split(s)[1..] == if s[0] == '\n' then rest else rest[1..];
    }
  }

  /** What is read from a text has no empty key at either end, unless the text is nothing but newlines. */
  lemma StoredKeysHaveEnds(text: string)
    requires text != ""
    ensures var keys := GetKeys(text);
            |keys| >= 1 && NoNewlines(keys) && (keys == [""] || NonEmptyEnds(keys))
  {
    var keys := GetKeys(text);
    TrimEnds(text);
    JoinOfSplit(Trim(text));
    assert forall i :: 0 <= i < |keys| ==> keys[i] in keys;
    JoinEnds(keys);
  }
}
