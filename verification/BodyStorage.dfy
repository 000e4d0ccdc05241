/**
 Request-body storage: a memory backend over a byte slice and a disk backend over
 a temporary file, both behind one interface, and the usage counters that their
 creation and closing maintain.

 File operations do not fail, read buffers are not empty, and a read of a file
 returns as many bytes as are left and fit.
 */
module BodyStorage {
  import opened MachineInt

  type Byte = b: int | 0 <= b < 256
  type BufferSize = n: int | 0 < n witness 1

  // ---------------------------------------------------------------- the abstract store

  datatype Store = Store(content: seq<Byte>, cursor: nat, closed: bool)

  datatype Whence = FromStart | FromCurrent | FromEnd

  datatype Op = Read(n: BufferSize) | Seek(offset: int, whence: Whence) | Bytes | NewReader | Close

  /** What a caller gets back. `Opened` is a new reader, described by what it reads from its start. */
  datatype Answer =
    | Data(bytes: seq<Byte>)
    | Position(cursor: nat)
    | Opened(content: seq<Byte>)
    | Closed
    | EndOfFile
    | ErrStorageClosed
    | ErrNegativeSeek

  datatype Reply = Reply(store: Store, answer: Answer)

  function Min(a: int, b: int): int { if a < b then a else b }

  function Base(s: Store, whence: Whence): nat {
    match whence
    case FromStart => 0
    case FromCurrent => s.cursor
    case FromEnd => |s.content|
  }

  function Act(s: Store, op: Op): Reply {
    if op == Close then Reply(s.(closed := true), Closed)
    else if s.closed then Reply(s, ErrStorageClosed)
    else
      match op
      case Read(n) =>
        if s.cursor >= |s.content| then Reply(s, EndOfFile)
        else
          var end := Min(s.cursor + n, |s.content|);
          Reply(s.(cursor := end), Data(s.content[s.cursor..end]))
      case Seek(offset, whence) =>
        var target := Base(s, whence) + offset;
        if target < 0 then Reply(s, ErrNegativeSeek) else Reply(s.(cursor := target), Position(target))
      case Bytes => Reply(s, Data(s.content))
      case NewReader => Reply(s, Opened(s.content))
  }

  function Answers(s: Store, ops: seq<Op>): seq<Answer>
    decreases |ops|
  {
    if |ops| == 0 then [] else [Act(s, ops[0]).answer] + Answers(Act(s, ops[0]).store, ops[1..])
  }

  function After(s: Store, ops: seq<Op>): Store
    decreases |ops|
  {
    if |ops| == 0 then s else After(Act(s, ops[0]).store, ops[1..])
  }

  // ---------------------------------------------------------------- what a caller of the store sees

  predicate OnlyReads(ops: seq<Op>) { forall op :: op in ops ==> op.Read? }

  function Requested(ops: seq<Op>): nat
    requires OnlyReads(ops)
  {
    if |ops| == 0 then 0 else (assert ops[0] in ops; ops[0].n) + Requested(ops[1..])
  }

  /** The bytes of all answers in sequence. */
  function Gathered(answers: seq<Answer>): seq<Byte> {
    if |answers| == 0 then [] else BytesOf(answers[0]) + Gathered(answers[1..])
  }

  function BytesOf(answer: Answer): seq<Byte> { if answer.Data? then answer.bytes else [] }

  lemma ReadStep(s: Store, n: BufferSize)
    requires !s.closed && s.cursor <= |s.content|
    ensures var end := Min(s.cursor + n, |s.content|);
            Act(s, Read(n)).store == s.(cursor := end) && BytesOf(Act(s, Read(n)).answer) == s.content[s.cursor..end]
  {
  }

  lemma SlicesJoin(s: seq<Byte>, i: nat, j: nat, k: nat)
    requires i <= j <= k <= |s|
    ensures s[i..j] + s[j..k] == s[i..k]
  {
  }

  /** Reads of any sizes together give the content from the cursor on, as far as was asked for. */
  lemma {:induction false} ReadsGiveTheContent(s: Store, ops: seq<Op>)
    requires !s.closed && OnlyReads(ops) && s.cursor <= |s.content|
    ensures var end := Min(s.cursor + Requested(ops), |s.content|);
            Gathered(Answers(s, ops)) == s.content[s.cursor..end] && After(s, ops) == s.(cursor := end)
    decreases |ops|
  {
    if |ops| > 0 {
      assert ops[0] in ops;
      var next := Act(s, ops[0]);
      ReadStep(s, ops[0].n);
      ReadsGiveTheContent(next.store, ops[1..]);
      GatheredMore(next.answer, Answers(next.store, ops[1..]));
      SlicesJoin(s.content, s.cursor, next.store.cursor, Min(s.cursor + Requested(ops), |s.content|));
    }
  }

  lemma GatheredMore(answer: Answer, answers: seq<Answer>)
    ensures Gathered([answer] + answers) == BytesOf(answer) + Gathered(answers)
  {
    assert ([answer] + answers)[1..] == answers;
  }

  /** Seeking back from the end and reading enough gives the tail. */
  lemma SeekFromEndReadsTheTail(s: Store, k: int, n: BufferSize)
    requires !s.closed && 0 < k <= |s.content| && k <= n
    ensures var sought := Act(s, Seek(-k, FromEnd));
            && sought.answer == Position(|s.content| - k)
            && Act(sought.store, Read(n)).answer == Data(s.content[|s.content| - k..])
  {
  }

  /** Seeks from the start and from the current position add up; going before the start is refused and moves nothing. */
  lemma SeeksAddUp(s: Store, a: nat, b: int)
    requires !s.closed
    ensures var sought := Act(s, Seek(a, FromStart));
            && sought.answer == Position(a) && sought.store == s.(cursor := a)
            && Act(sought.store, Seek(b, FromCurrent)) ==
                 if a + b < 0 then Reply(sought.store, ErrNegativeSeek) else Act(s, Seek(a + b, FromStart))
  {
  }

  /** The whole content is there at any time, and asking for it moves nothing. */
  lemma ContentIsThere(s: Store, op: Op)
    requires !s.closed && (op == Bytes || op == NewReader)
    ensures Act(s, op).store == s
    ensures Act(s, op).answer == if op == Bytes then Data(s.content) else Opened(s.content)
  {
  }

  // ---------------------------------------------------------------- the usage counters

  datatype Stats = Stats(diskFiles: int, diskBytes: int, memoryBuffers: int, memoryBytes: int)

  function IncrementDisk(s: Stats, size: int): Stats {
    s.(diskFiles := s.diskFiles + 1, diskBytes := s.diskBytes + size)
  }

  function NotNegative(n: int): int { if n < 0 then 0 else n }

  function DecrementDisk(s: Stats, size: int): Stats {
    s.(diskFiles := NotNegative(s.diskFiles - 1), diskBytes := NotNegative(s.diskBytes - size))
  }

  function IncrementMemory(s: Stats, size: int): Stats {
    s.(memoryBuffers := s.memoryBuffers + 1, memoryBytes := s.memoryBytes + size)
  }

  function DecrementMemory(s: Stats, size: int): Stats {
    s.(memoryBuffers := s.memoryBuffers - 1, memoryBytes := s.memoryBytes - size)
  }

  class DiskCacheStats {
    var activeDiskFiles: int
    var currentDiskUsageBytes: int
    var activeMemoryBuffers: int
    var currentMemoryUsageBytes: int

    function Value(): Stats
      reads this
    {
      Stats(activeDiskFiles, currentDiskUsageBytes, activeMemoryBuffers, currentMemoryUsageBytes)
    }

    constructor ()
      ensures Value() == Stats(0, 0, 0, 0)
    {
      activeDiskFiles, currentDiskUsageBytes, activeMemoryBuffers, currentMemoryUsageBytes := 0, 0, 0, 0;
    }

    method IncrementDiskFiles(size: int)
      modifies this
      ensures Value() == IncrementDisk(old(Value()), size)
    {
      activeDiskFiles := activeDiskFiles + 1;
      currentDiskUsageBytes := currentDiskUsageBytes + size;
    }

    method DecrementDiskFiles(size: int)
      modifies this
      ensures Value() == DecrementDisk(old(Value()), size)
    {
      activeDiskFiles := activeDiskFiles - 1;
      if activeDiskFiles < 0 { activeDiskFiles := 0; }
      currentDiskUsageBytes := currentDiskUsageBytes - size;
      if currentDiskUsageBytes < 0 { currentDiskUsageBytes := 0; }
    }

    method IncrementMemoryBuffers(size: int)
      modifies this
      ensures Value() == IncrementMemory(old(Value()), size)
    {
      activeMemoryBuffers := activeMemoryBuffers + 1;
      currentMemoryUsageBytes := currentMemoryUsageBytes + size;
    }

    method DecrementMemoryBuffers(size: int)
      modifies this
      ensures Value() == DecrementMemory(old(Value()), size)
    {
      activeMemoryBuffers := activeMemoryBuffers - 1;
      currentMemoryUsageBytes := currentMemoryUsageBytes - size;
    }
  }

  // ---------------------------------------------------------------- byte cursors

  /** An open file or a bytes.Reader: immutable bytes and a position of its own. */
  class Handle {
    const bytes: seq<Byte>
    var pos: nat

    constructor (bytes: seq<Byte>)
      ensures this.bytes == bytes && pos == 0
    {
      this.bytes := bytes;
      pos := 0;
    }

    method ReadSome(n: nat) returns (data: seq<Byte>, eof: bool)
      modifies this
      ensures eof == (old(pos) >= |bytes|)
      ensures eof ==> data == [] && pos == old(pos)
      ensures !eof ==> pos == Min(old(pos) + n, |bytes|) && data == bytes[old(pos)..pos]
    {
      if pos >= |bytes| { return [], true; }
      var end := Min(pos + n, |bytes|);
      data := bytes[pos..end];
      pos := end;
      eof := false;
    }

    method SeekTo(offset: int, whence: Whence) returns (answer: Answer)
      modifies this
      ensures var target := Base(Store(bytes, old(pos), false), whence) + offset;
              if target < 0 then answer == ErrNegativeSeek && pos == old(pos)
              else answer == Position(target) && pos == target
    {
      var start := 0;
      match whence {
        case FromStart => start := 0;
        case FromCurrent => start := pos;
        case FromEnd => start := |bytes|;
      }
      if start + offset < 0 { return ErrNegativeSeek; }
      pos := start + offset;
      return Position(pos);
    }

    /** io.ReadFull: reads until the buffer is full or the file ends. */
    method ReadFull(n: nat) returns (data: seq<Byte>)
      requires pos + n <= |bytes|
      modifies this
      ensures data == bytes[old(pos)..old(pos) + n] && pos == old(pos) + n
    {
      data := [];
      while |data| < n
        invariant |data| <= n && pos == old(pos) + |data|
        invariant data == bytes[old(pos)..pos]
        decreases n - |data|
      {
        var more, eof := ReadSome(n - |data|);
        data := data + more;
      }
    }
  }

  // ---------------------------------------------------------------- the backends

  class MemoryStorage {
    const data: seq<Byte>
    const size: int
    const reader: Handle
    var closed: bool

    ghost predicate Valid()
      reads this, reader
    {
      reader.bytes == data && size == |data|
    }

    function Abstract(): Store
      reads this, reader
    {
      Store(data, reader.pos, closed)
    }

    constructor (data: seq<Byte>, stats: DiskCacheStats)
      modifies stats
      ensures Valid() && fresh(reader) && Abstract() == Store(data, 0, false)
      ensures stats.Value() == IncrementMemory(old(stats.Value()), |data|)
    {
      this.data := data;
      size := |data|;
      reader := new Handle(data);
      closed := false;
      new;
      stats.IncrementMemoryBuffers(size);
    }

    method Read(n: BufferSize) returns (answer: Answer)
      requires Valid()
      modifies reader
      ensures Valid() && Reply(Abstract(), answer) == Act(old(Abstract()), Op.Read(n))
    {
      if closed { return ErrStorageClosed; }
      var bytes, eof := reader.ReadSome(n);
      answer := if eof then EndOfFile else Data(bytes);
    }

    method Seek(offset: int, whence: Whence) returns (answer: Answer)
      requires Valid()
      modifies reader
      ensures Valid() && Reply(Abstract(), answer) == Act(old(Abstract()), Op.Seek(offset, whence))
    {
      if closed { return ErrStorageClosed; }
      answer := reader.SeekTo(offset, whence);
    }

    method Bytes() returns (answer: Answer)
      requires Valid()
      ensures Reply(Abstract(), answer) == Act(Abstract(), Op.Bytes)
    {
      answer := if closed then ErrStorageClosed else Data(data);
    }

    /** A reader with a cursor of its own, or nothing once the storage is closed. */
    method NewReader() returns (copy: Handle?)
      requires Valid()
      ensures (copy == null) == closed
      ensures copy != null ==> fresh(copy) && copy.bytes == data && copy.pos == 0
    {
      if closed { return null; }
      copy := new Handle(data);
    }

    method Close(stats: DiskCacheStats)
      requires Valid()
      modifies this, stats
      ensures Valid() && Abstract() == Act(old(Abstract()), Op.Close).store
      ensures stats.Value() == if old(closed) then old(stats.Value()) else DecrementMemory(old(stats.Value()), |data|)
    {
      if !closed {
        closed := true;
        stats.DecrementMemoryBuffers(size);
      }
    }

    method Perform(op: Op, stats: DiskCacheStats) returns (answer: Answer)
      requires Valid()
      modifies this, reader, stats
      ensures Valid() && Reply(Abstract(), answer) == Act(old(Abstract()), op)
      ensures stats.Value() ==
                if op == Op.Close && !old(closed) then DecrementMemory(old(stats.Value()), |data|)
                    else old(stats.Value())
    {
      match op {
        case Read(n) => answer := Read(n);
        case Seek(offset, whence) => answer := Seek(offset, whence);
        case Bytes => answer := Bytes();
        case NewReader =>
          var copy := NewReader();
          answer := if copy == null then ErrStorageClosed else Opened(copy.bytes);
        case Close =>
          Close(stats);
          answer := Closed;
      }
    }
  }

  class DiskStorage {
    const file: Handle
    const size: int
    var closed: bool

    ghost predicate Valid()
      reads this, file
    {
      size == |file.bytes|
    }

    function Abstract(): Store
      reads this, file
    {
      Store(file.bytes, file.pos, closed)
    }

    constructor (data: seq<Byte>, stats: DiskCacheStats)
      modifies stats
      ensures Valid() && fresh(file) && Abstract() == Store(data, 0, false)
      ensures stats.Value() == IncrementDisk(old(stats.Value()), |data|)
    {
      file := new Handle(data);
      size := |data|;
      closed := false;
      new;
      stats.IncrementDiskFiles(size);
    }

    method Read(n: BufferSize) returns (answer: Answer)
      requires Valid()
      modifies file
      ensures Valid() && Reply(Abstract(), answer) == Act(old(Abstract()), Op.Read(n))
    {
      if closed { return ErrStorageClosed; }
      var bytes, eof := file.ReadSome(n);
      answer := if eof then EndOfFile else Data(bytes);
    }

    method Seek(offset: int, whence: Whence) returns (answer: Answer)
      requires Valid()
      modifies file
      ensures Valid() && Reply(Abstract(), answer) == Act(old(Abstract()), Op.Seek(offset, whence))
    {
      if closed { return ErrStorageClosed; }
      answer := file.SeekTo(offset, whence);
    }

    /** The whole file: remember the position, rewind, read everything, go back. */
    method Bytes() returns (answer: Answer)
      requires Valid()
      modifies file
      ensures Valid() && Reply(Abstract(), answer) == Act(old(Abstract()), Op.Bytes)
    {
      if closed { return ErrStorageClosed; }
      var currentPos := file.SeekTo(0, FromCurrent);
      var start := file.SeekTo(0, FromStart);
      var data := file.ReadFull(size);
      var back := file.SeekTo(currentPos.cursor, FromStart);
      assert data == file.bytes;
      answer := Data(data);
    }

    /** A second descriptor over the same file, or nothing once the storage is closed. */
    method NewReader() returns (copy: Handle?)
      requires Valid()
      ensures (copy == null) == closed
      ensures copy != null ==> fresh(copy) && copy.bytes == file.bytes && copy.pos == 0
    {
      if closed { return null; }
      copy := new Handle(file.bytes);
    }

    method Close(stats: DiskCacheStats)
      requires Valid()
      modifies this, stats
      ensures Valid() && Abstract() == Act(old(Abstract()), Op.Close).store
      ensures stats.Value() == if old(closed) then old(stats.Value())
                else DecrementDisk(old(stats.Value()), |file.bytes|)
    {
      if !closed {
        closed := true;
        stats.DecrementDiskFiles(size);
      }
    }

    method Perform(op: Op, stats: DiskCacheStats) returns (answer: Answer)
      requires Valid()
      modifies this, file, stats
      ensures Valid() && Reply(Abstract(), answer) == Act(old(Abstract()), op)
      ensures stats.Value() ==
                if op == Op.Close && !old(closed) then DecrementDisk(old(stats.Value()), |file.bytes|)
                    else old(stats.Value())
    {
      match op {
        case Read(n) => answer := Read(n);
        case Seek(offset, whence) => answer := Seek(offset, whence);
        case Bytes => answer := Bytes();
        case NewReader =>
          var copy := NewReader();
          answer := if copy == null then ErrStorageClosed else Opened(copy.bytes);
        case Close =>
          Close(stats);
          answer := Closed;
      }
    }
  }

  /** The counters after one storage of each kind went from `was` to `now` closed. */
  function BothClosed(s: Stats, was: bool, now: bool, size: int): Stats {
    if now && !was then DecrementDisk(DecrementMemory(s, size), size) else s
  }

  /** For every sequence of operations both backends give the answers of the abstract store. */
  method PerformOnBoth(m: MemoryStorage, d: DiskStorage, ops: seq<Op>, stats: DiskCacheStats)
    returns (fromMemory: seq<Answer>, fromDisk: seq<Answer>)
    requires m.Valid() && d.Valid() && m.Abstract() == d.Abstract() && m.reader != d.file
    modifies m, m.reader, d, d.file, stats
    ensures m.Valid() && d.Valid()
    ensures fromMemory == fromDisk == Answers(old(m.Abstract()), ops)
    ensures m.Abstract() == d.Abstract() == After(old(m.Abstract()), ops)
    ensures stats.Value() == BothClosed(old(stats.Value()), old(m.closed), m.closed, |m.data|)
  {
    fromMemory, fromDisk := [], [];
    ghost var start, before := m.Abstract(), stats.Value();
    for i := 0 to |ops|
      invariant m.Valid() && d.Valid() && m.Abstract() == d.Abstract() && (start.closed ==> m.closed)
      invariant stats.Value() == BothClosed(before, start.closed, m.closed, |m.data|)
      invariant fromMemory == fromDisk
      invariant fromMemory + Answers(m.Abstract(), ops[i..]) == Answers(start, ops)
      invariant After(m.Abstract(), ops[i..]) == After(start, ops)
    {
      assert ops[i..][0] == ops[i] && ops[i..][1..] == ops[i + 1..];
      var a := m.Perform(ops[i], stats);
      var b := d.Perform(ops[i], stats);
      fromMemory := fromMemory + [a];
      fromDisk := fromDisk + [b];
    }
  }

  /**
   Readers are independent: one opened before any further operations, closing
   included, still replays the whole content, and reading it to the end leaves both
   storages as they were.
   */
  method ReplayAfterUse(m: MemoryStorage, d: DiskStorage, ops: seq<Op>, stats: DiskCacheStats)
    returns (fromMemory: seq<Byte>, fromDisk: seq<Byte>)
    requires m.Valid() && d.Valid() && m.Abstract() == d.Abstract() && m.reader != d.file && !m.closed
    modifies m, m.reader, d, d.file, stats
    ensures fromMemory == fromDisk == m.data
    ensures m.Abstract() == d.Abstract() == After(old(m.Abstract()), ops)
  {
    var a := m.NewReader();
    var b := d.NewReader();
    var x, y := PerformOnBoth(m, d, ops, stats);
    fromMemory := a.ReadFull(|a.bytes|);
    fromDisk := b.ReadFull(|b.bytes|);
  }

  /** Operations never change the content, and nothing but an error follows a close. */
  lemma {:induction false} ContentIsKept(s: Store, ops: seq<Op>)
    ensures After(s, ops).content == s.content
    ensures s.closed ==> After(s, ops) == s
    ensures s.closed ==> forall a :: a in Answers(s, ops) ==> a == Closed || a == ErrStorageClosed
    decreases |ops|
  {
    if |ops| > 0 {
      ContentIsKept(Act(s, ops[0]).store, ops[1..]);
    }
  }

  // ---------------------------------------------------------------- creation

  datatype Config = Config(enabled: bool, threshold: int, maxSize: int)

  predicate Available(c: Config, s: Stats, size: int) { c.enabled && Wrap(s.diskBytes + size) <= c.maxSize }

  predicate FitsDisk(c: Config, s: Stats, size: int) { c.enabled && size >= c.threshold && Available(c, s, size) }

  /** Whether a body of `size` bytes, announced as `contentLength`, goes to disk. */
  predicate ChoosesDisk(c: Config, s: Stats, contentLength: int, size: int) {
    (contentLength > 0 && FitsDisk(c, s, contentLength)) || FitsDisk(c, s, size)
  }

  /** With disk caching on and room left, a body goes to disk if and only if it or its announced length reaches
      the threshold. */
  lemma DiskFromTheThresholdOn(c: Config, s: Stats, contentLength: int, size: nat)
    requires c.enabled && 0 <= s.diskBytes && s.diskBytes + size <= c.maxSize <= MAX_INT64
    requires contentLength > 0 ==> s.diskBytes + contentLength <= c.maxSize
    ensures ChoosesDisk(c, s, contentLength, size) <==>
              size >= c.threshold || (contentLength > 0 && contentLength >= c.threshold)
  {
    WrapIsExact(s.diskBytes + size);
    if contentLength > 0 { WrapIsExact(s.diskBytes + contentLength); }
  }

  /** With disk caching off, or without room for it, it stays in memory. */
  lemma MemoryWithoutRoom(c: Config, s: Stats, contentLength: int, size: nat)
    requires 0 <= s.diskBytes && s.diskBytes + size <= MAX_INT64 && s.diskBytes + contentLength <= MAX_INT64
    requires c.enabled ==> s.diskBytes + size > c.maxSize
    requires c.enabled && contentLength > 0 ==> s.diskBytes + contentLength > c.maxSize
    ensures !ChoosesDisk(c, s, contentLength, size)
  {
    WrapIsExact(s.diskBytes + size);
    if contentLength > 0 { WrapIsExact(s.diskBytes + contentLength); }
  }

  datatype Storage = InMemory(memory: MemoryStorage) | OnDisk(disk: DiskStorage)

  datatype Created = Stored(storage: Storage) | ErrRequestBodyTooLarge

  /** The new storage holds `data`, is open at its start and is counted where it lives. */
  twostate predicate Holds(new s: Storage, data: seq<Byte>, stats: DiskCacheStats)
    reads stats, match s { case InMemory(m) => {m, m.reader} case OnDisk(d) => {d, d.file} }
  {
    match s
    case InMemory(m) =>
      fresh(m) && m.Valid() && m.Abstract() == Store(data, 0, false) &&
      stats.Value() == IncrementMemory(old(stats.Value()), |data|)
    case OnDisk(d) =>
      fresh(d) && d.Valid() && d.Abstract() == Store(data, 0, false) &&
      stats.Value() == IncrementDisk(old(stats.Value()), |data|)
  }

  method CreateBodyStorage(data: seq<Byte>, c: Config, stats: DiskCacheStats) returns (s: Storage)
    modifies stats
    ensures s.OnDisk? == FitsDisk(c, old(stats.Value()), |data|)
    ensures Holds(s, data, stats)
  {
    if c.enabled && |data| >= c.threshold && Available(c, stats.Value(), |data|) {
      var d := new DiskStorage(data, stats);
      return OnDisk(d);
    }
    var m := new MemoryStorage(data, stats);
    return InMemory(m);
  }

  /** What io.LimitReader lets through. */
  function Limited(stream: seq<Byte>, limit: int): seq<Byte> {
    if limit <= 0 then [] else stream[..Min(limit, |stream|)]
  }

  function Received(stream: seq<Byte>, maxBytes: int): seq<Byte> { Limited(stream, Wrap(maxBytes + 1)) }

  method CreateBodyStorageFromReader(stream: seq<Byte>, contentLength: int, maxBytes: int, c: Config,
      stats: DiskCacheStats)
    returns (r: Created)
    modifies stats
    ensures r.ErrRequestBodyTooLarge? == (|Received(stream, maxBytes)| > maxBytes)
    ensures r.ErrRequestBodyTooLarge? ==> stats.Value() == old(stats.Value())
    ensures r.Stored? ==> Holds(r.storage, Received(stream, maxBytes), stats)
    ensures r.Stored? ==>
      r.storage.OnDisk? == ChoosesDisk(c, old(stats.Value()), contentLength, |Received(stream, maxBytes)|)
  {
    if c.enabled && contentLength > 0 && contentLength >= c.threshold && Available(c, stats.Value(), contentLength) {
      var written := Limited(stream, Wrap(maxBytes + 1));
      if |written| > maxBytes { return ErrRequestBodyTooLarge; }
      var d := new DiskStorage(written, stats);
      return Stored(OnDisk(d));
    }
    var data := Limited(stream, Wrap(maxBytes + 1));
    if |data| > maxBytes { return ErrRequestBodyTooLarge; }
    var s := CreateBodyStorage(data, c, stats);
    return Stored(s);
  }

  /**
   Creation refuses exactly the streams longer than `maxBytes` and stores every other
   stream whole, if and only if the limit plus one does not overflow or there is
   nothing to read.
   */
  lemma CreationIsExactIff(stream: seq<Byte>, maxBytes: int)
    requires -MAX_INT64 - 1 <= maxBytes <= MAX_INT64
    ensures ((|Received(stream, maxBytes)| > maxBytes <==> |stream| > maxBytes) &&
             (|stream| <= maxBytes ==> Received(stream, maxBytes) == stream))
            <==> (maxBytes < MAX_INT64 || stream == [])
  {
    if maxBytes == MAX_INT64 {
      assert Received(stream, maxBytes) == [];
    } else {
      assert Wrap(maxBytes + 1) == maxBytes + 1;
    }
  }

  // ---------------------------------------------------------------- usage accounting

  /** `Unlinked` is an open storage whose file a cleanup has removed. */
  datatype Status = Open | Unlinked | Released

  datatype Entry = Entry(disk: bool, size: nat, status: Status)

  datatype Pool = Pool(entries: seq<Entry>, stats: Stats)

  /** A cleanup walks the cache directory: it removes files of storages, and leftovers that no storage owns. */
  datatype Action =
    | Create(contentLength: int, size: nat)
    | CloseAt(i: nat)
    | CleanupAt(i: nat)
    | CleanupLeftover(size: nat)

  function Increment(s: Stats, e: Entry): Stats {
    if e.disk then IncrementDisk(s, e.size) else IncrementMemory(s, e.size)
  }

  function Decrement(s: Stats, e: Entry): Stats {
    if e.disk then DecrementDisk(s, e.size) else DecrementMemory(s, e.size)
  }

  /** Whether a cleanup of entry `i` finds a file to remove. */
  predicate Removable(p: Pool, i: nat) { i < |p.entries| && p.entries[i].disk && p.entries[i].status == Open }

  predicate Closable(p: Pool, i: nat) { i < |p.entries| && p.entries[i].status != Released }

  function SetStatus(p: Pool, i: nat, status: Status): seq<Entry>
    requires i < |p.entries|
  {
    p.entries[i := p.entries[i].(status := status)]
  }

  function Apply(p: Pool, c: Config, a: Action): Pool {
    match a
    case Create(contentLength, size) =>
      var e := Entry(ChoosesDisk(c, p.stats, contentLength, size), size, Open);
      Pool(p.entries + [e], Increment(p.stats, e))
    case CloseAt(i) =>
      if Closable(p, i) then Pool(SetStatus(p, i, Released), Decrement(p.stats, p.entries[i])) else p
    case CleanupAt(i) =>
      if Removable(p, i) then Pool(SetStatus(p, i, Unlinked), Decrement(p.stats, p.entries[i])) else p
    case CleanupLeftover(size) => p.(stats := DecrementDisk(p.stats, size))
  }

  function Run(p: Pool, c: Config, actions: seq<Action>): Pool
    decreases |actions|
  {
    if |actions| == 0 then p else Run(Apply(p, c, actions[0]), c, actions[1..])
  }

  function Counts(e: Entry, disk: bool): nat { if e.disk == disk && e.status != Released then 1 else 0 }

  function OpenCount(entries: seq<Entry>, disk: bool): nat {
    if |entries| == 0 then 0 else Counts(entries[0], disk) + OpenCount(entries[1..], disk)
  }

  function Weighs(e: Entry, disk: bool): nat { if e.disk == disk && e.status != Released then e.size else 0 }

  function OpenBytes(entries: seq<Entry>, disk: bool): nat {
    if |entries| == 0 then 0 else Weighs(entries[0], disk) + OpenBytes(entries[1..], disk)
  }

  /** The counters equal the number and the total size of the open storages. */
  predicate Accounted(p: Pool) {
    p.stats == Stats(OpenCount(p.entries, true), OpenBytes(p.entries, true),
                     OpenCount(p.entries, false), OpenBytes(p.entries, false))
  }

  predicate AlwaysAccounted(p: Pool, c: Config, actions: seq<Action>)
    decreases |actions|
  {
    Accounted(p) && (|actions| > 0 ==> AlwaysAccounted(Apply(p, c, actions[0]), c, actions[1..]))
  }

  /** Whether the action is a cleanup that removes a file. */
  predicate RemovesFile(p: Pool, a: Action) { (a.CleanupAt? && Removable(p, a.i)) || a.CleanupLeftover? }

  /** No cleanup of the run removes a file while a disk storage is open. */
  predicate Undisturbed(p: Pool, c: Config, actions: seq<Action>)
    decreases |actions|
  {
    |actions| > 0 ==>
      !(RemovesFile(p, actions[0]) && OpenCount(p.entries, true) > 0) &&
      Undisturbed(Apply(p, c, actions[0]), c, actions[1..])
  }

  /** Whether the action takes a disk file of this size out of the counters. */
  predicate Subtracts(p: Pool, a: Action, size: nat) {
    match a
    case Create(_, _) => false
    case CloseAt(i) => Closable(p, i) && p.entries[i].disk && p.entries[i].size == size
    case CleanupAt(i) => Removable(p, i) && p.entries[i].size == size
    case CleanupLeftover(n) => n == size
  }

  /** The action does not take a disk counter below zero. */
  ghost predicate Covered(p: Pool, a: Action) {
    forall size :: Subtracts(p, a, size) ==> p.stats.diskFiles >= 1 && p.stats.diskBytes >= size
  }

  /** No decrement of the run would take a disk counter below zero. */
  ghost predicate ClampsIdle(p: Pool, c: Config, actions: seq<Action>)
    decreases |actions|
  {
    |actions| > 0 ==> Covered(p, actions[0]) && ClampsIdle(Apply(p, c, actions[0]), c, actions[1..])
  }

  lemma {:induction false} OpenAppend(entries: seq<Entry>, e: Entry, disk: bool)
    ensures OpenCount(entries + [e], disk) == OpenCount(entries, disk) + Counts(e, disk)
    ensures OpenBytes(entries + [e], disk) == OpenBytes(entries, disk) + Weighs(e, disk)
  {
    if |entries| > 0 {
      assert (entries + [e])[1..] == entries[1..] + [e];
      OpenAppend(entries[1..], e, disk);
    }
  }

  lemma {:induction false} OpenUpdate(entries: seq<Entry>, i: nat, e: Entry, disk: bool)
    requires i < |entries|
    ensures OpenCount(entries[i := e], disk) == OpenCount(entries, disk) - Counts(entries[i], disk) + Counts(e, disk)
    ensures OpenBytes(entries[i := e], disk) == OpenBytes(entries, disk) - Weighs(entries[i], disk) + Weighs(e, disk)
  {
    if i == 0 {
      assert entries[i := e][1..] == entries[1..];
    } else {
      assert entries[i := e][1..] == entries[1..][i - 1 := e];
      OpenUpdate(entries[1..], i - 1, e, disk);
    }
  }

  /** An open storage is part of the totals, so closing it cannot go below zero. */
  lemma {:induction false} OpenAtLeast(entries: seq<Entry>, i: nat, disk: bool)
    requires i < |entries|
    ensures OpenCount(entries, disk) >= Counts(entries[i], disk)
    ensures OpenBytes(entries, disk) >= Weighs(entries[i], disk)
  {
    if i > 0 {
      OpenAtLeast(entries[1..], i - 1, disk);
    }
  }

  lemma CreateAccounted(p: Pool, c: Config, a: Action)
    requires Accounted(p) && a.Create?
    ensures Accounted(Apply(p, c, a))
  {
    var e := Entry(ChoosesDisk(c, p.stats, a.contentLength, a.size), a.size, Open);
    OpenAppend(p.entries, e, true);
    OpenAppend(p.entries, e, false);
  }

  lemma CloseAccounted(p: Pool, c: Config, i: nat)
    requires Accounted(p)
    ensures Accounted(Apply(p, c, CloseAt(i)))
    ensures Closable(p, i) && p.entries[i].disk ==> p.stats.diskFiles >= 1 && p.stats.diskBytes >= p.entries[i].size
  {
    if Closable(p, i) {
      var e := p.entries[i].(status := Released);
      OpenUpdate(p.entries, i, e, true);
      OpenUpdate(p.entries, i, e, false);
      OpenAtLeast(p.entries, i, true);
    }
  }

  /** Removing the file of an open storage takes it out of the counters too early. */
  lemma CleanupUnaccounted(p: Pool, c: Config, i: nat)
    requires Accounted(p) && Removable(p, i)
    ensures !Accounted(Apply(p, c, CleanupAt(i)))
  {
    OpenUpdate(p.entries, i, p.entries[i].(status := Unlinked), true);
    OpenAtLeast(p.entries, i, true);
  }

  lemma {:induction false} NoFilesNoBytes(entries: seq<Entry>, disk: bool)
    requires OpenCount(entries, disk) == 0
    ensures OpenBytes(entries, disk) == 0
  {
    if |entries| > 0 { NoFilesNoBytes(entries[1..], disk); }
  }

  /** Removing a leftover is harmless exactly when no disk storage is open, and then only the clamps make it so. */
  lemma LeftoverAccountedIff(p: Pool, c: Config, size: nat)
    requires Accounted(p)
    ensures Accounted(Apply(p, c, CleanupLeftover(size))) <==> OpenCount(p.entries, true) == 0
    ensures OpenCount(p.entries, true) == 0 ==> !Covered(p, CleanupLeftover(size))
  {
    if OpenCount(p.entries, true) == 0 {
      NoFilesNoBytes(p.entries, true);
      assert Subtracts(p, CleanupLeftover(size), size);
    }
  }

  lemma StepAccountedIff(p: Pool, c: Config, a: Action)
    requires Accounted(p)
    ensures Accounted(Apply(p, c, a)) <==> !(RemovesFile(p, a) && OpenCount(p.entries, true) > 0)
  {
    match a
    case Create(_, _) => CreateAccounted(p, c, a);
    case CloseAt(i) => CloseAccounted(p, c, i);
    case CleanupAt(i) =>
      if Removable(p, i) {
        CleanupUnaccounted(p, c, i);
        OpenAtLeast(p.entries, i, true);
      }
    case CleanupLeftover(size) => LeftoverAccountedIff(p, c, size);
  }

  /**
   Over every run of creations, possibly repeated closes and cleanups the counters
   equal the open storages at every moment if and only if no cleanup removes a file,
   whoever owns it, while a disk storage is open.
   */
  lemma {:induction false} UsageIsExactIff(p: Pool, c: Config, actions: seq<Action>)
    requires Accounted(p)
    ensures AlwaysAccounted(p, c, actions) <==> Undisturbed(p, c, actions)
    decreases |actions|
  {
    if |actions| > 0 {
      var next := Apply(p, c, actions[0]);
      StepAccountedIff(p, c, actions[0]);
      if Accounted(next) {
        UsageIsExactIff(next, c, actions[1..]);
      } else {
        assert !AlwaysAccounted(next, c, actions[1..]);
      }
    }
  }

  predicate NoLeftovers(actions: seq<Action>) { forall a :: a in actions ==> !a.CleanupLeftover? }

  lemma CoveredIff(p: Pool, c: Config, a: Action)
    requires Accounted(p) && !(RemovesFile(p, a) && OpenCount(p.entries, true) > 0)
    ensures Covered(p, a) <==> !a.CleanupLeftover?
  {
    match a
    case Create(_, _) =>
    case CloseAt(i) => CloseAccounted(p, c, i);
    case CleanupAt(i) => if Removable(p, i) { OpenAtLeast(p.entries, i, true); }
    case CleanupLeftover(size) => LeftoverAccountedIff(p, c, size);
  }

  /** While the counters are exact, the clamps fire if and only if a leftover is removed. */
  lemma {:induction false} ClampsFireIff(p: Pool, c: Config, actions: seq<Action>)
    requires Accounted(p) && Undisturbed(p, c, actions)
    ensures ClampsIdle(p, c, actions) <==> NoLeftovers(actions)
    decreases |actions|
  {
    if |actions| > 0 {
      StepAccountedIff(p, c, actions[0]);
      CoveredIff(p, c, actions[0]);
      ClampsFireIff(Apply(p, c, actions[0]), c, actions[1..]);
      assert actions == [actions[0]] + actions[1..];
    }
  }

  /** In particular they never fire in a run without cleanups. */
  lemma {:induction false} ClampsNeverFire(p: Pool, c: Config, actions: seq<Action>)
    requires Accounted(p) && forall a :: a in actions ==> a.Create? || a.CloseAt?
    ensures Undisturbed(p, c, actions) && ClampsIdle(p, c, actions)
    decreases |actions|
  {
    if |actions| > 0 {
      assert actions[0] in actions;
      StepAccountedIff(p, c, actions[0]);
      CoveredIff(p, c, actions[0]);
      ClampsNeverFire(Apply(p, c, actions[0]), c, actions[1..]);
    }
  }

  /** A leftover removed while one disk storage is open takes that storage out of the counters. */
  lemma LeftoverHidesAnOpenStorage(c: Config, p: Pool, e: Entry, size: nat)
    requires p.entries == [e] && e.disk && e.status == Open && Accounted(p)
    ensures var after := Apply(p, c, CleanupLeftover(size));
            OpenCount(after.entries, true) == 1 && after.stats.diskFiles == 0
  {
    assert OpenCount([e], true) == 1;
  }

  predicate AllReleased(entries: seq<Entry>) { forall e :: e in entries ==> e.status == Released }

  lemma {:induction false} ReleasedWeighNothing(entries: seq<Entry>, disk: bool)
    requires AllReleased(entries)
    ensures OpenCount(entries, disk) == OpenBytes(entries, disk) == 0
  {
    if |entries| > 0 {
      assert entries[0] in entries;
      ReleasedWeighNothing(entries[1..], disk);
    }
  }

  lemma {:induction false} RunAccounted(p: Pool, c: Config, actions: seq<Action>)
    requires AlwaysAccounted(p, c, actions)
    ensures Accounted(Run(p, c, actions))
    decreases |actions|
  {
    if |actions| > 0 {
      RunAccounted(Apply(p, c, actions[0]), c, actions[1..]);
    }
  }

  /** Once every storage is closed the counters are all back at zero. */
  lemma ClosingAllReturnsToZero(c: Config, actions: seq<Action>)
    requires var start := Pool([], Stats(0, 0, 0, 0));
             Undisturbed(start, c, actions) && AllReleased(Run(start, c, actions).entries)
    ensures Run(Pool([], Stats(0, 0, 0, 0)), c, actions).stats == Stats(0, 0, 0, 0)
  {
    var start := Pool([], Stats(0, 0, 0, 0));
    UsageIsExactIff(start, c, actions);
    RunAccounted(start, c, actions);
    ReleasedWeighNothing(Run(start, c, actions).entries, true);
    ReleasedWeighNothing(Run(start, c, actions).entries, false);
  }

  /** Cleaning one of two open files and then closing it decrements twice: the other file is no longer counted. */
  lemma CleanedFileIsSubtractedTwice(c: Config, p: Pool, a: Entry, b: Entry)
    requires p.entries == [a, b] && Accounted(p) && Removable(p, 0) && Removable(p, 1)
    ensures var after := Apply(Apply(p, c, CleanupAt(0)), c, CloseAt(0));
            after.entries[1].status == Open && after.stats.diskFiles == 0 &&
            after.stats.diskBytes == NotNegative(b.size - a.size)
  {
    assert [a, b][1..] == [b];
    assert OpenCount([b], true) == 1 && OpenBytes([b], true) == b.size;
  }

  // ---------------------------------------------------------------- the runs are runs of real storages

  function Parts(s: Storage): set<object> {
    match s
    case InMemory(m) => {m, m.reader}
    case OnDisk(d) => {d, d.file}
  }

  /** The storage object and the state of its file are what the entry says. */
  ghost predicate Mirrors(s: Storage, linked: bool, e: Entry)
    reads Parts(s)
  {
    match s
    case InMemory(m) =>
      m.Valid() && !e.disk && |m.data| == e.size && e.status != Unlinked && (m.closed <==> e.status == Released)
    case OnDisk(d) =>
      d.Valid() && e.disk && |d.file.bytes| == e.size && (d.closed <==> e.status == Released) &&
      (linked <==> e.status == Open)
  }

  function Identity(s: Storage): object {
    match s
    case InMemory(m) => m
    case OnDisk(d) => d
  }

  /** Closes a storage, which also removes the file of an open one. */
  method CloseStorage(s: Storage, wasLinked: bool, stats: DiskCacheStats, ghost e: Entry) returns (linked: bool)
    requires Mirrors(s, wasLinked, e)
    modifies Identity(s), stats
    ensures Mirrors(s, linked, e.(status := Released))
    ensures stats.Value() == if e.status == Released then old(stats.Value()) else Decrement(old(stats.Value()), e)
  {
    match s {
      case InMemory(m) => m.Close(stats);
      case OnDisk(d) => d.Close(stats);
    }
    linked := false;
  }

  /** Removes the file of a storage if it is still there, as the periodic cleanup does. */
  method CleanupStorage(s: Storage, wasLinked: bool, stats: DiskCacheStats, ghost e: Entry) returns (linked: bool)
    requires Mirrors(s, wasLinked, e)
    modifies stats
    ensures var removes := e.disk && e.status == Open;
            && Mirrors(s, linked, if removes then e.(status := Unlinked) else e)
            && stats.Value() == if removes then Decrement(old(stats.Value()), e) else old(stats.Value())
  {
    linked := wasLinked;
    if s.OnDisk? && wasLinked {
      stats.DecrementDiskFiles(s.disk.size);
      linked := false;
    }
  }

  /** The storages are distinct and are those of the pool. */
  ghost predicate Reflects(storages: seq<Storage>, linked: seq<bool>, entries: seq<Entry>)
    reads set i, o | 0 <= i < |storages| && o in Parts(storages[i]) :: o
  {
    && |storages| == |linked| == |entries|
    && (forall i :: 0 <= i < |storages| ==> Mirrors(storages[i], linked[i], entries[i]))
    && (forall i, j :: 0 <= i < j < |storages| ==> Identity(storages[i]) != Identity(storages[j]))
  }

  method CloseOne(storages: seq<Storage>, linked: seq<bool>, i: nat, c: Config, stats: DiskCacheStats, ghost p: Pool)
    returns (after: seq<bool>)
    requires Reflects(storages, linked, p.entries) && stats.Value() == p.stats
    modifies stats, if i < |storages| then {Identity(storages[i])} else {}
    ensures Reflects(storages, after, Apply(p, c, CloseAt(i)).entries) && stats.Value() == Apply(p, c, CloseAt(i)).stats
  {
    after := linked;
    if i < |storages| {
      var left := CloseStorage(storages[i], linked[i], stats, p.entries[i]);
      after := linked[i := left];
    }
  }

  method CleanupOne(storages: seq<Storage>, linked: seq<bool>, i: nat, c: Config, stats: DiskCacheStats, ghost p: Pool)
    returns (after: seq<bool>)
    requires Reflects(storages, linked, p.entries) && stats.Value() == p.stats
    modifies stats
    ensures Reflects(storages, after, Apply(p, c, CleanupAt(i)).entries) &&
              stats.Value() == Apply(p, c, CleanupAt(i)).stats
  {
    after := linked;
    if i < |storages| {
      var left := CleanupStorage(storages[i], linked[i], stats, p.entries[i]);
      after := linked[i := left];
    }
  }

  /** Creates a storage for a body that is announced as `contentLength`. */
  method CreateStorage(body: seq<Byte>, contentLength: int, c: Config, stats: DiskCacheStats) returns (s: Storage)
    requires |body| < MAX_INT64
    modifies stats
    ensures fresh(Identity(s))
    ensures var e := Entry(ChoosesDisk(c, old(stats.Value()), contentLength, |body|), |body|, Open);
            Mirrors(s, s.OnDisk?, e) && stats.Value() == Increment(old(stats.Value()), e)
  {
    CreationIsExactIff(body, |body|);
    var r := CreateBodyStorageFromReader(body, contentLength, |body|, c, stats);
    s := r.storage;
  }

  method CreateOne(storages: seq<Storage>, linked: seq<bool>, body: seq<Byte>, contentLength: int, c: Config,
                   stats: DiskCacheStats, ghost p: Pool)
    returns (more: seq<Storage>, after: seq<bool>)
    requires Reflects(storages, linked, p.entries) && stats.Value() == p.stats && |body| < MAX_INT64
    modifies stats
    ensures Reflects(more, after, Apply(p, c, Create(contentLength, |body|)).entries)
    ensures stats.Value() == Apply(p, c, Create(contentLength, |body|)).stats
    ensures |more| == |storages| + 1 && more[..|storages|] == storages && fresh(Identity(more[|storages|]))
  {
    var storage := CreateStorage(body, contentLength, c, stats);
    more, after := storages + [storage], linked + [storage.OnDisk?];
  }

  /** Creating, closing and cleaning real storages in any order, and removing leftovers, takes the counters
      through the run of the pool. */
  method Serve(c: Config, actions: seq<Action>, stats: DiskCacheStats)
      returns (storages: seq<Storage>, linked: seq<bool>)
    requires forall i :: 0 <= i < |actions| && actions[i].Create? ==> actions[i].size < MAX_INT64
    modifies stats
    ensures var p := Run(Pool([], old(stats.Value())), c, actions);
            stats.Value() == p.stats && Reflects(storages, linked, p.entries)
  {
    storages, linked := [], [];
    ghost var p := Pool([], stats.Value());
    for k := 0 to |actions|
      invariant Run(p, c, actions[k..]) == Run(Pool([], old(stats.Value())), c, actions)
      invariant stats.Value() == p.stats && Reflects(storages, linked, p.entries)
      invariant forall i :: 0 <= i < |storages| ==> fresh(Identity(storages[i]))
    {
      assert actions[k..][0] == actions[k] && actions[k..][1..] == actions[k + 1..];
      match actions[k] {
        case Create(contentLength, size) =>
          storages, linked := CreateOne(storages, linked, seq(size, _ => 0), contentLength, c, stats, p);
        case CloseAt(i) =>
          linked := CloseOne(storages, linked, i, c, stats, p);
        case CleanupAt(i) =>
          linked := CleanupOne(storages, linked, i, c, stats, p);
        case CleanupLeftover(size) =>
          stats.DecrementDiskFiles(size);
      }
      p := Apply(p, c, actions[k]);
    }
  }

  // ---------------------------------------------------------------- the disk budget

  /** Every creation announces at least its size, and adding it to the usage does not overflow. */
  predicate Announced(c: Config, actions: seq<Action>) {
    forall i :: 0 <= i < |actions| && actions[i].Create? ==> WellAnnounced(c, actions[i])
  }

  predicate WellAnnounced(c: Config, a: Action)
    requires a.Create?
  {
    (a.contentLength > 0 ==> a.size <= a.contentLength) &&
    a.size <= MAX_INT64 - c.maxSize && a.contentLength <= MAX_INT64 - c.maxSize
  }

  predicate WithinBudget(p: Pool, c: Config) { 0 <= p.stats.diskBytes <= c.maxSize }

  lemma CreateKeepsBudget(p: Pool, c: Config, a: Action)
    requires WithinBudget(p, c) && a.Create? && WellAnnounced(c, a)
    ensures WithinBudget(Apply(p, c, a), c)
  {
    WrapIsExact(p.stats.diskBytes + a.size);
    if a.contentLength > 0 {
      WrapIsExact(p.stats.diskBytes + a.contentLength);
    }
  }

  /** Whatever is closed or cleaned, the usage counter stays between zero and the maximum. */
  lemma {:induction false} CounterStaysInBudget(p: Pool, c: Config, actions: seq<Action>)
    requires WithinBudget(p, c) && Announced(c, actions)
    ensures WithinBudget(Run(p, c, actions), c)
    decreases |actions|
  {
    if |actions| > 0 {
      if actions[0].Create? { CreateKeepsBudget(p, c, actions[0]); }
      CounterStaysInBudget(Apply(p, c, actions[0]), c, actions[1..]);
    }
  }

  /** Bodies no longer than announced never take the open files over the configured maximum. */
  lemma DiskBudgetIsKept(p: Pool, c: Config, actions: seq<Action>)
    requires Accounted(p) && WithinBudget(p, c) && Announced(c, actions) && Undisturbed(p, c, actions)
    ensures OpenBytes(Run(p, c, actions).entries, true) <= c.maxSize
  {
    UsageIsExactIff(p, c, actions);
    RunAccounted(p, c, actions);
    CounterStaysInBudget(p, c, actions);
  }
}
