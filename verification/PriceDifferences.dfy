/**
 The price-difference builder of the upstream ratio sync. For every model and
 pricing field it compares the local value with the value of every upstream
 channel, then drops channels that never differ, and with them the entries that
 have become uninformative.

 A data set maps pricing fields to models to values. A field that is missing, or
 holds something other than a map, is an absent row. Floats are real numbers.
 */
module PriceDifferences {

  /** `Int` stands for the integer kinds that only the numeric fields convert to floats. */
  datatype Value = Null | Num(x: real) | Int(n: int) | Str(s: string)

  const SAME := Str("same")

  type Table = map<string, map<string, Value>>

  datatype Upstream = Upstream(name: string, data: Table)

  datatype Item = Item(current: Value, upstreams: map<string, Value>, confidence: map<string, bool>)

  type Row = map<string, Item>

  const EPSILON := 0.000000001

  function NearlyEqual(a: real, b: real): bool {
    if a > b then a - b < EPSILON else b - a < EPSILON
  }

  function ValuesEqual(a: Value, b: Value): bool {
    if a.Num? && b.Num? then NearlyEqual(a.x, b.x) else a == b
  }

  const NUMERIC: seq<string> := [
    "model_ratio", "completion_ratio", "cache_ratio", "create_cache_ratio",
    "image_ratio", "audio_ratio", "audio_completion_ratio", "model_price"]

  const FIELDS: seq<string> := NUMERIC + ["billing_mode", "billing_expr"]

  function Normalize(field: string, v: Value): Value {
    if field in NUMERIC && v.Int? then Num(v.n as real) else v
  }

  predicate Present(t: Table, f: string, m: string) {
    f in t && m in t[f]
  }

  /** The normalised value, or nil when there is none. */
  function At(t: Table, f: string, m: string): Value {
    if Present(t, f, m) then Normalize(f, t[f][m]) else Null
  }

  function ModelsOf(fields: seq<string>, t: Table): set<string> {
    set f, m | f in fields && f in t && m in t[f] :: m
  }

  function AllModels(fields: seq<string>, local: Table, channels: seq<Upstream>): set<string> {
    ModelsOf(fields, local) + set c, m | c in channels && m in ModelsOf(fields, c.data) :: m
  }

  // ---------------------------------------------------------------- first phase: compare

  /** What the comparison records for one channel: its value, "same", or nil. */
  function Mark(local: Table, c: Upstream, f: string, m: string): Value {
    var ours, theirs := At(local, f, m), At(c.data, f, m);
    if Present(c.data, f, m) && ValuesEqual(ours, theirs) then SAME
    else if theirs == Null && ours == Null then SAME
    else theirs
  }

  function Marks(local: Table, channels: seq<Upstream>, f: string, m: string): map<string, Value> {
    if |channels| == 0 then map[]
    else
      var last := channels[|channels| - 1];
      Marks(local, channels[..|channels| - 1], f, m)[last.name := Mark(local, last, f, m)]
  }

  function Confidences(channels: seq<Upstream>): map<string, bool> {
    if |channels| == 0 then map[] else Confidences(channels[..|channels| - 1])[channels[|channels| - 1].name := true]
  }

  /** The channel makes the entry worth recording. */
  predicate Contradicts(local: Table, c: Upstream, f: string, m: string) {
    Present(c.data, f, m) && (At(local, f, m) == Null || !ValuesEqual(At(local, f, m), At(c.data, f, m)))
  }

  predicate Included(local: Table, channels: seq<Upstream>, f: string, m: string) {
    exists c :: c in channels && Contradicts(local, c, f, m)
  }

  function FullItem(local: Table, channels: seq<Upstream>, f: string, m: string): Item {
    Item(At(local, f, m), Marks(local, channels, f, m), Confidences(channels))
  }

  function FullRow(fields: seq<string>, local: Table, channels: seq<Upstream>, m: string): Row {
    map f | f in fields && Included(local, channels, f, m) :: FullItem(local, channels, f, m)
  }

  function FullTable(fields: seq<string>, local: Table, channels: seq<Upstream>, models: set<string>)
    : map<string, Row>
  {
    map m | m in models && FullRow(fields, local, channels, m) != map[] :: FullRow(fields, local, channels, m)
  }

  // ---------------------------------------------------------------- second and third phase: prune

  predicate Informative(v: Value) { v != Null && v != SAME }

  function ActiveInItem(item: Item): set<string> {
    set n | n in item.upstreams && Informative(item.upstreams[n])
  }

  function ActiveInRow(row: Row): set<string> {
    set f, n | f in row && n in ActiveInItem(row[f]) :: n
  }

  function Active(table: map<string, Row>): set<string> {
    set m, n | m in table && n in ActiveInRow(table[m]) :: n
  }

  function Pruned(item: Item, active: set<string>): Item {
    item.(upstreams := map n | n in item.upstreams && n in active :: item.upstreams[n],
          confidence := map n | n in item.confidence && n in active :: item.confidence[n])
  }

  /** Some channel that is left says something other than "same". */
  predicate WorthKeeping(item: Item) {
    exists n :: n in item.upstreams && item.upstreams[n] != SAME
  }

  function PrunedRow(row: Row, active: set<string>): Row {
    map f | f in row && WorthKeeping(Pruned(row[f], active)) :: Pruned(row[f], active)
  }

  function PrunedTable(table: map<string, Row>, active: set<string>): map<string, Row> {
    map m | m in table && PrunedRow(table[m], active) != map[] :: PrunedRow(table[m], active)
  }

  /** The three phases in sequence. */
  function Build(fields: seq<string>, local: Table, channels: seq<Upstream>): map<string, Row> {
    var table := FullTable(fields, local, channels, AllModels(fields, local, channels));
    PrunedTable(table, Active(table))
  }

  // ---------------------------------------------------------------- the loops of the source

  method CollectModels(fields: seq<string>, local: Table, channels: seq<Upstream>) returns (models: set<string>)
    ensures models == AllModels(fields, local, channels)
  {
    models := ModelsOf(fields, local);
    for i := 0 to |channels|
      invariant models == AllModels(fields, local, channels[..i])
    {
      models := models + ModelsOf(fields, channels[i].data);
      assert channels[..i + 1] == channels[..i] + [channels[i]];
    }
    assert channels[..|channels|] == channels;
  }

  predicate AnyPresent(channels: seq<Upstream>, f: string, m: string) {
    exists c :: c in channels && Present(c.data, f, m)
  }

  lemma OneMoreChannel(local: Table, channels: seq<Upstream>, i: nat, f: string, m: string)
    requires i < |channels|
    ensures AnyPresent(channels[..i + 1], f, m) == (AnyPresent(channels[..i], f, m) || Present(channels[i].data, f, m))
    ensures Included(local, channels[..i + 1], f, m) ==
              (Included(local, channels[..i], f, m) || Contradicts(local, channels[i], f, m))
    ensures Marks(local, channels[..i + 1], f, m) ==
              Marks(local, channels[..i], f, m)[channels[i].name := Mark(local, channels[i], f, m)]
    ensures Confidences(channels[..i + 1]) == Confidences(channels[..i])[channels[i].name := true]
  {
    assert channels[..i + 1] == channels[..i] + [channels[i]];
    assert channels[..i + 1][..i] == channels[..i];
  }

  /** The body of the loop over channels. */
  method CompareChannel(local: Table, localValue: Value, channel: Upstream, m: string, f: string)
    returns (upstreamValue: Value, present: bool, differs: bool)
    requires localValue == At(local, f, m)
    ensures upstreamValue == Mark(local, channel, f, m)
    ensures present == Present(channel.data, f, m)
    ensures localValue != Null ==> differs == Contradicts(local, channel, f, m)
  {
    upstreamValue, present, differs := Null, false, false;
    if Present(channel.data, f, m) {
      upstreamValue := Normalize(f, channel.data[f][m]);
      present := true;
      if localValue != Null && !ValuesEqual(localValue, upstreamValue) {
        differs := true;
      } else if ValuesEqual(localValue, upstreamValue) {
        upstreamValue := SAME;
      }
    }
    if upstreamValue == Null && localValue == Null {
      upstreamValue := SAME;
    }
    if localValue == Null && upstreamValue != Null && upstreamValue != SAME {
      differs := true;
    }
  }

  method CompareField(local: Table, channels: seq<Upstream>, confidenceMap: map<string, map<string, bool>>, m: string,
      f: string)
    returns (shouldInclude: bool, item: Item)
    requires forall c :: c in channels ==>
               c.name in confidenceMap && m in confidenceMap[c.name] && confidenceMap[c.name][m]
    ensures shouldInclude == Included(local, channels, f, m)
    ensures item == FullItem(local, channels, f, m)
  {
    var localValue := Null;
    if Present(local, f, m) {
      localValue := Normalize(f, local[f][m]);
    }
    var upstreamValues: map<string, Value> := map[];
    var confidenceValues: map<string, bool> := map[];
    var hasUpstreamValue, hasDifference := false, false;
    for i := 0 to |channels|
      invariant upstreamValues == Marks(local, channels[..i], f, m)
      invariant confidenceValues == Confidences(channels[..i])
      invariant hasUpstreamValue == AnyPresent(channels[..i], f, m)
      invariant localValue != Null ==> hasDifference == Included(local, channels[..i], f, m)
    {
      var channel := channels[i];
      var upstreamValue, present, differs := CompareChannel(local, localValue, channel, m, f);
      hasUpstreamValue := hasUpstreamValue || present;
      hasDifference := hasDifference || differs;
      upstreamValues := upstreamValues[channel.name := upstreamValue];
      confidenceValues := confidenceValues[channel.name := confidenceMap[channel.name][m]];
      OneMoreChannel(local, channels, i, f, m);
    }
    assert channels[..|channels|] == channels;
    assert localValue == Null ==> AnyPresent(channels, f, m) == Included(local, channels, f, m);
    shouldInclude := if localValue != Null then hasDifference else hasUpstreamValue;
    item := Item(localValue, upstreamValues, confidenceValues);
  }

  lemma OneMoreField(fields: seq<string>, i: nat, local: Table, channels: seq<Upstream>, m: string)
    requires i < |fields|
    ensures var f := fields[i];
            FullRow(fields[..i + 1], local, channels, m)
            == if Included(local, channels, f, m) then
                FullRow(fields[..i], local, channels, m)[f := FullItem(local, channels, f, m)]
               else FullRow(fields[..i], local, channels, m)
  {
    assert forall f :: f in fields[..i + 1] <==> f in fields[..i] || f == fields[i];
  }

  method CompareModel(fields: seq<string>, local: Table, channels: seq<Upstream>,
      confidenceMap: map<string, map<string, bool>>, m: string)
    returns (row: Row)
    requires forall c :: c in channels ==>
               c.name in confidenceMap && m in confidenceMap[c.name] && confidenceMap[c.name][m]
    ensures row == FullRow(fields, local, channels, m)
  {
    row := map[];
    for i := 0 to |fields|
      invariant row == FullRow(fields[..i], local, channels, m)
    {
      var shouldInclude, item := CompareField(local, channels, confidenceMap, m, fields[i]);
      OneMoreField(fields, i, local, channels, m);
      if shouldInclude {
        row := row[fields[i] := item];
      }
    }
    assert fields[..|fields|] == fields;
  }

  /** The part of a map whose keys have been visited. */
  predicate Building<V(==)>(target: map<string, V>, todo: set<string>, current: map<string, V>) {
    current.Keys == target.Keys - todo && forall k :: k in current ==> current[k] == target[k]
  }

  /** A map on its way from `source` to `target`: the keys still to visit are as they were. */
  predicate Halfway<V(==)>(source: map<string, V>, target: map<string, V>, todo: set<string>, current: map<string, V>) {
    && todo <= source.Keys
    && current.Keys == todo + (target.Keys - todo)
    && forall k :: k in current ==> current[k] == if k in todo then source[k] else target[k]
  }

  method BuildConfidence(channels: seq<Upstream>, allModels: set<string>)
      returns (confidenceMap: map<string, map<string, bool>>)
    ensures forall c, m :: c in channels && m in allModels ==>
              c.name in confidenceMap && m in confidenceMap[c.name] && confidenceMap[c.name][m]
  {
    confidenceMap := map[];
    for i := 0 to |channels|
      invariant forall c :: c in channels[..i] ==> c.name in confidenceMap
      invariant forall n :: n in confidenceMap ==> confidenceMap[n] == map m | m in allModels :: true
    {
      confidenceMap := confidenceMap[channels[i].name := map m | m in allModels :: true];
    }
    assert channels[..|channels|] == channels;
  }

  lemma AllBuilt<V>(target: map<string, V>, current: map<string, V>)
    requires Building(target, {}, current)
    ensures current == target
  {
  }

  lemma BuildKey<V>(target: map<string, V>, todo: set<string>, current: map<string, V>, k: string)
    requires Building(target, todo, current)
    ensures Building(target, todo - {k}, if k in target then current[k := target[k]] else current)
  {
  }

  lemma FullTableAt(fields: seq<string>, local: Table, channels: seq<Upstream>, models: set<string>, m: string)
    requires m in models
    ensures var table, row := FullTable(fields, local, channels, models), FullRow(fields, local, channels, m);
            && (m in table <==> row != map[])
            && (m in table ==> table[m] == row)
  {
  }

  method CompareAll(fields: seq<string>, local: Table, channels: seq<Upstream>, allModels: set<string>)
    returns (differences: map<string, Row>)
    ensures differences == FullTable(fields, local, channels, allModels)
  {
    var confidenceMap := BuildConfidence(channels, allModels);
    differences := map[];
    var models := allModels;
    ghost var target := FullTable(fields, local, channels, allModels);
    while models != {}
      invariant models <= allModels
      invariant Building(target, models, differences)
      decreases models
    {
      var m :| m in models;
      var row := CompareModel(fields, local, channels, confidenceMap, m);
      FullTableAt(fields, local, channels, allModels, m);
      BuildKey(target, models, differences, m);
      if row != map[] {
        differences := differences[m := row];
      }
      models := models - {m};
    }
    AllBuilt(target, differences);
  }

  method FindActiveInRow(row: Row) returns (found: set<string>)
    ensures found == ActiveInRow(row)
  {
    found := {};
    var fields := row.Keys;
    while fields != {}
      invariant fields <= row.Keys
      invariant found == set f, n | f in row && f !in fields && n in ActiveInItem(row[f]) :: n
      decreases fields
    {
      var f :| f in fields;
      found := found + ActiveInItem(row[f]);
      fields := fields - {f};
    }
  }

  method FindActive(table: map<string, Row>) returns (active: set<string>)
    ensures active == Active(table)
  {
    active := {};
    var models := table.Keys;
    while models != {}
      invariant models <= table.Keys
      invariant active == set m, n | m in table && m !in models && n in ActiveInRow(table[m]) :: n
      decreases models
    {
      var m :| m in models;
      var found := FindActiveInRow(table[m]);
      active := active + found;
      models := models - {m};
    }
  }

  lemma VisitKey<V>(source: map<string, V>, target: map<string, V>, todo: set<string>, current: map<string, V>,
      k: string)
    requires Halfway(source, target, todo, current) && k in todo
    ensures Halfway(source, target, todo - {k}, if k in target then current[k := target[k]] else current - {k})
  {
  }

  lemma AllVisited<V>(source: map<string, V>, target: map<string, V>, current: map<string, V>)
    requires Halfway(source, target, {}, current)
    ensures current == target
  {
  }

  /** Deletes entries from the row while it visits them in any order. */
  method PruneRow(row: Row, active: set<string>) returns (ratioMap: Row)
    ensures ratioMap == PrunedRow(row, active)
  {
    ratioMap := row;
    var fields := row.Keys;
    ghost var target := PrunedRow(row, active);
    while fields != {}
      invariant Halfway(row, target, fields, ratioMap)
      decreases fields
    {
      var f :| f in fields;
      VisitKey(row, target, fields, ratioMap, f);
      var item := Pruned(ratioMap[f], active);
      if WorthKeeping(item) {
        ratioMap := ratioMap[f := item];
      } else {
        ratioMap := ratioMap - {f};
      }
      fields := fields - {f};
    }
    AllVisited(row, target, ratioMap);
  }

  method PruneAll(table: map<string, Row>, active: set<string>) returns (differences: map<string, Row>)
    ensures differences == PrunedTable(table, active)
  {
    differences := table;
    var models := table.Keys;
    ghost var target := PrunedTable(table, active);
    while models != {}
      invariant Halfway(table, target, models, differences)
      decreases models
    {
      var m :| m in models;
      VisitKey(table, target, models, differences, m);
      var ratioMap := PruneRow(differences[m], active);
      if ratioMap == map[] {
        differences := differences - {m};
      } else {
        differences := differences[m := ratioMap];
      }
      models := models - {m};
    }
    AllVisited(table, target, differences);
  }

  /** The whole builder. Models, fields and channels are visited in any order; the result is one function of the
      input. */
  method BuildDifferences(local: Table, channels: seq<Upstream>) returns (differences: map<string, Row>)
    ensures differences == Build(FIELDS, local, channels)
  {
    var allModels := CollectModels(FIELDS, local, channels);
    differences := CompareAll(FIELDS, local, channels, allModels);
    var channelHasDiff := FindActive(differences);
    differences := PruneAll(differences, channelHasDiff);
  }

  // ---------------------------------------------------------------- what the result means

  predicate DistinctNames(channels: seq<Upstream>) {
    forall i, j :: 0 <= i < j < |channels| ==> channels[i].name != channels[j].name
  }

  function Names(channels: seq<Upstream>): set<string> {
    set c | c in channels :: c.name
  }

  lemma {:induction false} MarkedNames(local: Table, channels: seq<Upstream>, f: string, m: string)
    ensures Marks(local, channels, f, m).Keys == Names(channels)
    ensures Confidences(channels).Keys == Names(channels)
    ensures forall n :: n in Confidences(channels) ==> Confidences(channels)[n]
  {
    if |channels| != 0 {
      var init, last := channels[..|channels| - 1], channels[|channels| - 1];
      MarkedNames(local, init, f, m);
      assert channels == init + [last];
      assert Names(channels) == Names(init) + {last.name};
    }
  }

  lemma {:induction false} MarkedValue(local: Table, channels: seq<Upstream>, i: nat, f: string, m: string)
    requires DistinctNames(channels) && i < |channels|
    ensures channels[i].name in Marks(local, channels, f, m)
    ensures Marks(local, channels, f, m)[channels[i].name] == Mark(local, channels[i], f, m)
  {
    if i < |channels| - 1 {
      MarkedValue(local, channels[..|channels| - 1], i, f, m);
    }
  }

  /** The comparison records one mark for every channel and nothing else. */
  lemma MarksAt(local: Table, channels: seq<Upstream>, f: string, m: string)
    requires DistinctNames(channels)
    ensures forall c :: c in channels ==>
              c.name in Marks(local, channels, f, m) && Marks(local, channels, f, m)[c.name] == Mark(local, c, f, m)
    ensures forall n :: n in Marks(local, channels, f, m) ==> exists c :: c in channels && c.name == n
    ensures Confidences(channels).Keys == Marks(local, channels, f, m).Keys
    ensures forall n :: n in Confidences(channels) ==> Confidences(channels)[n]
  {
    MarkedNames(local, channels, f, m);
    forall c | c in channels
      ensures c.name in Marks(local, channels, f, m) && Marks(local, channels, f, m)[c.name] == Mark(local, c, f, m)
    {
      var i :| 0 <= i < |channels| && channels[i] == c;
      MarkedValue(local, channels, i, f, m);
    }
    forall n | n in Marks(local, channels, f, m)
      ensures exists c :: c in channels && c.name == n
    {
      assert n in Names(channels);
    }
  }

  /** The channel says something of its own about some model and field. */
  ghost predicate EverDiffers(fields: seq<string>, local: Table, c: Upstream) {
    exists f, m :: f in fields && Informative(Mark(local, c, f, m))
  }

  lemma InformativeMarks(local: Table, c: Upstream, f: string, m: string)
    requires Informative(Mark(local, c, f, m))
    ensures Contradicts(local, c, f, m)
  {
  }

  lemma IncludedModels(fields: seq<string>, local: Table, channels: seq<Upstream>, f: string, m: string)
    requires f in fields && Included(local, channels, f, m)
    ensures m in AllModels(fields, local, channels)
    ensures f in FullRow(fields, local, channels, m)
  {
    var c :| c in channels && Contradicts(local, c, f, m);
    assert m in ModelsOf(fields, c.data);
  }

  /** The channels that survive the pruning are exactly those that ever differ. */
  lemma ActiveIsEverDiffers(fields: seq<string>, local: Table, channels: seq<Upstream>, c: Upstream)
    requires DistinctNames(channels) && c in channels
    ensures c.name in Active(FullTable(fields, local, channels, AllModels(fields, local, channels))) <==>
              EverDiffers(fields, local, c)
  {
    var table := FullTable(fields, local, channels, AllModels(fields, local, channels));
    if c.name in Active(table) {
      var m :| m in table && c.name in ActiveInRow(table[m]);
      var f :| f in table[m] && c.name in ActiveInItem(table[m][f]);
      MarksAt(local, channels, f, m);
      assert Informative(Mark(local, c, f, m));
    }
    if EverDiffers(fields, local, c) {
      var f, m :| f in fields && Informative(Mark(local, c, f, m));
      InformativeMarks(local, c, f, m);
      IncludedModels(fields, local, channels, f, m);
      MarksAt(local, channels, f, m);
      assert m in table && c.name in ActiveInItem(table[m][f]);
      assert c.name in ActiveInRow(table[m]);
    }
  }

  /** Exactness, for any input with distinct channel names: which entries are kept, and what they list. */
  lemma EntryIsExact(fields: seq<string>, local: Table, channels: seq<Upstream>, m: string, f: string)
    requires DistinctNames(channels)
    ensures var result := Build(fields, local, channels);
            (m in result && f in result[m]) <==>
              (f in fields && Included(local, channels, f, m)
               && exists c :: c in channels && EverDiffers(fields, local, c) && Mark(local, c, f, m) != SAME)
    ensures var result := Build(fields, local, channels);
            m in result && f in result[m] ==>
              var item := result[m][f];
              && item.current == At(local, f, m)
              && (forall c :: c in channels ==> (c.name in item.upstreams <==> EverDiffers(fields, local, c)))
              && (forall c :: c in channels && c.name in item.upstreams ==>
                  item.upstreams[c.name] == Mark(local, c, f, m))
              && (forall n :: n in item.upstreams ==> exists c :: c in channels && c.name == n)
              && item.confidence.Keys == item.upstreams.Keys
              && (forall n :: n in item.confidence ==> item.confidence[n])
  {
    var models := AllModels(fields, local, channels);
    var table := FullTable(fields, local, channels, models);
    var active := Active(table);
    var result := Build(fields, local, channels);
    MarksAt(local, channels, f, m);
    forall c | c in channels
      ensures c.name in active <==> EverDiffers(fields, local, c)
    {
      ActiveIsEverDiffers(fields, local, channels, c);
    }
    if f in fields && Included(local, channels, f, m) {
      IncludedModels(fields, local, channels, f, m);
      KeptEntry(local, channels, fields, active, m, f);
    }
  }

  /** Whether the pruning keeps an entry of the full table. */
  lemma KeptEntry(local: Table, channels: seq<Upstream>, fields: seq<string>, active: set<string>, m: string, f: string)
    requires DistinctNames(channels) && m in AllModels(fields, local, channels) &&
               f in FullRow(fields, local, channels, m)
    ensures var result := PrunedTable(FullTable(fields, local, channels, AllModels(fields, local, channels)), active);
            && ((m in result && f in result[m]) <==>
                exists c :: c in channels && c.name in active && Mark(local, c, f, m) != SAME)
            && (m in result && f in result[m] ==> result[m][f] == Pruned(FullItem(local, channels, f, m), active))
  {
    MarksAt(local, channels, f, m);
    var table := FullTable(fields, local, channels, AllModels(fields, local, channels));
    FullTableAt(fields, local, channels, AllModels(fields, local, channels), m);
    var item := Pruned(FullItem(local, channels, f, m), active);
    if WorthKeeping(item) {
      var n :| n in item.upstreams && item.upstreams[n] != SAME;
      var c :| c in channels && c.name == n;
    }
    if c :| c in channels && c.name in active && Mark(local, c, f, m) != SAME {
      assert c.name in item.upstreams && item.upstreams[c.name] != SAME;
    }
    assert f in PrunedRow(table[m], active) <==> WorthKeeping(item);
  }

  /** The upstream has a value, and the local side lacks one or has another. */
  predicate TrulyDiffers(local: Table, c: Upstream, f: string, m: string) {
    Present(c.data, f, m) && (!Present(local, f, m) || !ValuesEqual(At(local, f, m), At(c.data, f, m)))
  }

  /** No value is null, and no upstream value is the word the builder uses as its own mark. */
  ghost predicate Clean(local: Table, channels: seq<Upstream>) {
    && (forall f, m :: Present(local, f, m) ==> At(local, f, m) != Null)
    && (forall c, f, m :: c in channels && Present(c.data, f, m) ==> Informative(At(c.data, f, m)))
  }

  /** On clean input an entry is reported iff some channel truly differs there; it lists exactly the channels
      that truly differ somewhere, each with its own value, "same", or nil when only the local side has one. */
  lemma CleanInputIsExact(fields: seq<string>, local: Table, channels: seq<Upstream>, m: string, f: string)
    requires DistinctNames(channels) && Clean(local, channels)
    ensures var result := Build(fields, local, channels);
            (m in result && f in result[m]) <==>
                (f in fields && exists c :: c in channels && TrulyDiffers(local, c, f, m))
    ensures var result := Build(fields, local, channels);
            m in result && f in result[m] ==>
              forall c :: c in channels ==>
                && (c.name in result[m][f].upstreams <==> exists g, k :: g in fields && TrulyDiffers(local, c, g, k))
                && (c.name in result[m][f].upstreams ==>
                      result[m][f].upstreams[c.name] ==
                        if TrulyDiffers(local, c, f, m) then At(c.data, f, m)
                        else if Present(c.data, f, m) || !Present(local, f, m) then SAME
                        else Null)
  {
    EntryIsExact(fields, local, channels, m, f);
    forall c, g, k | c in channels
      ensures TrulyDiffers(local, c, g, k) <==> Informative(Mark(local, c, g, k))
      ensures TrulyDiffers(local, c, g, k) <==> Contradicts(local, c, g, k)
    {
      assert Present(local, g, k) ==> At(local, g, k) != Null;
    }
    if c :| f in fields && c in channels && TrulyDiffers(local, c, f, m) {
      assert EverDiffers(fields, local, c) && Mark(local, c, f, m) != SAME;
    }
  }

  /** On any input with distinct channel names a reported entry has a true difference, and a true difference
      is reported if and only if a channel that is not pruned has something other than "same" there. */
  lemma TrueDifferenceIsReportedIff(fields: seq<string>, local: Table, channels: seq<Upstream>, m: string, f: string)
    requires DistinctNames(channels)
    ensures var result := Build(fields, local, channels);
            m in result && f in result[m] ==> exists c :: c in channels && TrulyDiffers(local, c, f, m)
    ensures var result := Build(fields, local, channels);
            f in fields && (exists c :: c in channels && TrulyDiffers(local, c, f, m)) ==>
              (m in result && f in result[m] <==>
                 exists c :: c in channels && EverDiffers(fields, local, c) && Mark(local, c, f, m) != SAME)
  {
    EntryIsExact(fields, local, channels, m, f);
    if c :| c in channels && TrulyDiffers(local, c, f, m) {
      assert Contradicts(local, c, f, m);
    }
    if c :| c in channels && Contradicts(local, c, f, m) && At(local, f, m) != Null {
      assert TrulyDiffers(local, c, f, m);
    }
    if c :| c in channels && Mark(local, c, f, m) != SAME && At(local, f, m) == Null {
      assert TrulyDiffers(local, c, f, m);
    }
  }

  /** So a channel that really sends the word "same", or a null and nothing else of its own, hides its
      difference unless another one is to be seen there. */
  lemma UncleanValuesAreHidden(fields: seq<string>, local: Table, channels: seq<Upstream>, m: string, f: string)
    requires DistinctNames(channels)
    requires forall c :: c in channels ==>
               Mark(local, c, f, m) == SAME || (Mark(local, c, f, m) == Null && !EverDiffers(fields, local, c))
    ensures var result := Build(fields, local, channels); !(m in result && f in result[m])
  {
    EntryIsExact(fields, local, channels, m, f);
  }

  /** One such input: a true difference that is not reported. */
  lemma HiddenDifference(c: Upstream)
    requires c.data == map["billing_mode" := map["m" := SAME]]
    ensures TrulyDiffers(map[], c, "billing_mode", "m") && "billing_mode" in FIELDS
    ensures "m" !in Build(FIELDS, map[], [c])
  {
    var result := Build(FIELDS, map[], [c]);
    assert FIELDS[8] == "billing_mode";
    forall f, m
      ensures !(m in result && f in result[m])
    {
      assert At(c.data, f, m) == Null || At(c.data, f, m) == SAME;
      UncleanValuesAreHidden(FIELDS, map[], [c], m, f);
    }
    if "m" in result { RowsAreNotEmpty(FIELDS, map[], [c], "m"); }
  }

  lemma RowsAreNotEmpty(fields: seq<string>, local: Table, channels: seq<Upstream>, m: string)
    requires m in Build(fields, local, channels)
    ensures exists f :: f in Build(fields, local, channels)[m]
  {
  }

  // ---------------------------------------------------------------- which prices count as different

  /** Numbers are numbers; whole numbers are prices except in the two text fields. */
  predicate IsPrice(f: string, v: Value) { v.Num? || (v.Int? && f != "billing_mode" && f != "billing_expr") }

  function PriceOf(v: Value): real
    requires v.Num? || v.Int?
  {
    if v.Num? then v.x else v.n as real
  }

  /** Prices differ by at least a billionth, anything else by not being the same. */
  predicate PricesDiffer(f: string, u: Value, v: Value) {
    if IsPrice(f, u) && IsPrice(f, v) then
      PriceOf(u) - PriceOf(v) >= 0.000000001 || PriceOf(v) - PriceOf(u) >= 0.000000001
    else u != v
  }

  /** How a value is shown: a price as a number. */
  function Shown(f: string, v: Value): Value { if IsPrice(f, v) then Num(PriceOf(v)) else v }

  /** The fields that are compared. */
  predicate IsSyncField(f: string) {
    || f == "model_ratio" || f == "completion_ratio" || f == "cache_ratio" || f == "create_cache_ratio"
    || f == "image_ratio" || f == "audio_ratio" || f == "audio_completion_ratio" || f == "model_price"
    || f == "billing_mode" || f == "billing_expr"
  }

  lemma SyncFields(f: string)
    ensures f in FIELDS <==> IsSyncField(f)
  {
    assert f in FIELDS <==> f in NUMERIC || f in ["billing_mode", "billing_expr"];
  }

  lemma FieldsOfNumbers(f: string)
    requires f in FIELDS
    ensures f in NUMERIC <==> f != "billing_mode" && f != "billing_expr"
  {
    assert "billing_mode" !in NUMERIC && "billing_expr" !in NUMERIC;
  }

  lemma DifferIff(f: string, u: Value, v: Value)
    requires f in FIELDS
    ensures !ValuesEqual(Normalize(f, u), Normalize(f, v)) <==> PricesDiffer(f, u, v)
    ensures Normalize(f, v) == Shown(f, v)
  {
    FieldsOfNumbers(f);
  }

  /** No stored value is null, and no upstream sends the word "same". */
  ghost predicate PlainValues(local: Table, channels: seq<Upstream>) {
    && (forall f, m :: Present(local, f, m) ==> local[f][m] != Null)
    && (forall c, f, m :: c in channels && Present(c.data, f, m) ==>
          c.data[f][m] != Null && c.data[f][m] != Str("same"))
  }

  predicate Shows(result: map<string, Row>, m: string, f: string, name: string, v: Value) {
    m in result && f in result[m] && name in result[m][f].upstreams && result[m][f].upstreams[name] == v
  }

  lemma PlainIsClean(local: Table, channels: seq<Upstream>)
    requires PlainValues(local, channels)
    ensures Clean(local, channels)
  {
    assert forall d, g, k :: d in channels && Present(d.data, g, k) ==> Informative(At(d.data, g, k));
  }

  lemma CurrentIsLocal(local: Table, channels: seq<Upstream>, m: string, f: string)
    requires DistinctNames(channels) && f in FIELDS
    ensures var result := Build(FIELDS, local, channels);
            m in result && f in result[m] ==>
              result[m][f].current == if Present(local, f, m) then Shown(f, local[f][m]) else Null
  {
    EntryIsExact(FIELDS, local, channels, m, f);
    if Present(local, f, m) { DifferIff(f, local[f][m], local[f][m]); }
  }

  /** A channel's value is reported if and only if the local side has none or a different one, where prices
      are different from a billionth on; next to it stands the local value. */
  lemma PriceIsReportedIff(local: Table, channels: seq<Upstream>, c: Upstream, m: string, f: string)
    requires DistinctNames(channels) && PlainValues(local, channels) && c in channels
    requires IsSyncField(f) && Present(c.data, f, m)
    ensures var result, v := Build(FIELDS, local, channels), Shown(f, c.data[f][m]);
            && (Shows(result, m, f, c.name, v) <==>
                  !Present(local, f, m) || PricesDiffer(f, local[f][m], c.data[f][m]))
            && (Shows(result, m, f, c.name, v) ==>
                  result[m][f].current == if Present(local, f, m) then Shown(f, local[f][m]) else Null)
  {
    SyncFields(f);
    PlainIsClean(local, channels);
    CurrentIsLocal(local, channels, m, f);
    DifferIff(f, c.data[f][m], c.data[f][m]);
    if Present(local, f, m) { DifferIff(f, local[f][m], c.data[f][m]); }
    ReportedIff(local, channels, c, m, f);
  }

  lemma ReportedIff(local: Table, channels: seq<Upstream>, c: Upstream, m: string, f: string)
    requires DistinctNames(channels) && Clean(local, channels) && c in channels && f in FIELDS && Present(c.data, f, m)
    ensures Shows(Build(FIELDS, local, channels), m, f, c.name, At(c.data, f, m)) <==> TrulyDiffers(local, c, f, m)
  {
    CleanInputIsExact(FIELDS, local, channels, m, f);
    assert At(c.data, f, m) != SAME && At(c.data, f, m) != Null;
  }

  lemma SameEntry(local: Table, a: seq<Upstream>, b: seq<Upstream>, f: string, m: string)
    requires DistinctNames(a) && DistinctNames(b) && forall c :: c in a <==> c in b
    ensures Included(local, a, f, m) == Included(local, b, f, m)
    ensures FullItem(local, a, f, m) == FullItem(local, b, f, m)
  {
    MarksAt(local, a, f, m);
    MarksAt(local, b, f, m);
    assert Marks(local, a, f, m).Keys == Marks(local, b, f, m).Keys;
    assert Marks(local, a, f, m) == Marks(local, b, f, m);
    assert Confidences(a) == Confidences(b);
  }

  lemma SameRow(fields: seq<string>, local: Table, a: seq<Upstream>, b: seq<Upstream>, m: string)
    requires DistinctNames(a) && DistinctNames(b) && forall c :: c in a <==> c in b
    ensures FullRow(fields, local, a, m) == FullRow(fields, local, b, m)
  {
    forall f
      ensures Included(local, a, f, m) == Included(local, b, f, m)
      ensures FullItem(local, a, f, m) == FullItem(local, b, f, m)
    {
      SameEntry(local, a, b, f, m);
    }
  }

  lemma SameModels(fields: seq<string>, local: Table, a: seq<Upstream>, b: seq<Upstream>)
    requires forall c :: c in a <==> c in b
    ensures AllModels(fields, local, a) == AllModels(fields, local, b)
  {
  }

  lemma SameTable(fields: seq<string>, local: Table, a: seq<Upstream>, b: seq<Upstream>, models: set<string>)
    requires forall m :: FullRow(fields, local, a, m) == FullRow(fields, local, b, m)
    ensures FullTable(fields, local, a, models) == FullTable(fields, local, b, models)
  {
  }

  /** The channels arrive in whatever order their requests finish: the result does not depend on it. */
  lemma ArrivalOrderIsIrrelevant(fields: seq<string>, local: Table, a: seq<Upstream>, b: seq<Upstream>)
    requires DistinctNames(a) && DistinctNames(b) && forall c :: c in a <==> c in b
    ensures Build(fields, local, a) == Build(fields, local, b)
  {
    forall m
      ensures FullRow(fields, local, a, m) == FullRow(fields, local, b, m)
    {
      SameRow(fields, local, a, b, m);
    }
    SameModels(fields, local, a, b);
    SameTable(fields, local, a, b, AllModels(fields, local, a));
  }
}
