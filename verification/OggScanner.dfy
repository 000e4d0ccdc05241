/**
 The duration of an Opus file: a scan over the pages of its Ogg container for the
 largest granule position. The page layout is section 6 of RFC 3533.
 */
module OggScanner {
  import opened MachineInt

  type Byte = b: int | 0 <= b < 256

  const HEADER_SIZE := 27
  const SAMPLE_RATE := 48000.0
  /** The capture pattern "OggS". */
  const CAPTURE: seq<Byte> := [0x4F, 0x67, 0x67, 0x53]

  function Max(a: int, b: int): int { if a < b then b else a }

  function Sum(s: seq<Byte>): nat { if |s| == 0 then 0 else s[0] + Sum(s[1..]) }

  // ---------------------------------------------------------------- little-endian int64

  function Unsigned(s: seq<Byte>): nat { if |s| == 0 then 0 else s[0] + 256 * Unsigned(s[1..]) }

  /** The conversion of a uint64 to an int64. */
  function Signed(n: nat): int { if n > MAX_INT64 then n - TWO_64 else n }

  function Power(width: nat): nat { if width == 0 then 1 else 256 * Power(width - 1) }

  function LittleEndian(n: nat, width: nat): seq<Byte>
    decreases width
  {
    if width == 0 then [] else [n % 256] + LittleEndian(n / 256, width - 1)
  }

  lemma {:induction false} UnsignedOfLittleEndian(n: nat, width: nat)
    requires n < Power(width)
    ensures |LittleEndian(n, width)| == width && Unsigned(LittleEndian(n, width)) == n
    decreases width
  {
    if width > 0 {
      UnsignedOfLittleEndian(n / 256, width - 1);
      assert LittleEndian(n, width)[1..] == LittleEndian(n / 256, width - 1);
    }
  }

  // ---------------------------------------------------------------- the scan

  predicate CaptureAt(s: seq<Byte>, pos: nat) { pos + 4 <= |s| && s[pos..pos + 4] == CAPTURE }

  predicate HeaderAt(s: seq<Byte>, pos: nat) { pos + HEADER_SIZE <= |s| }

  function GranuleAt(s: seq<Byte>, pos: nat): int
    requires HeaderAt(s, pos)
  {
    Signed(Unsigned(s[pos + 6..pos + 14]))
  }

  function TableEnd(s: seq<Byte>, pos: nat): nat
    requires HeaderAt(s, pos)
  {
    pos + HEADER_SIZE + s[pos + 26]
  }

  function PageEnd(s: seq<Byte>, pos: nat): nat
    requires HeaderAt(s, pos) && TableEnd(s, pos) <= |s|
  {
    TableEnd(s, pos) + Sum(s[pos + HEADER_SIZE..TableEnd(s, pos)])
  }

  /** The largest granule position the scan finds from `pos` on, not less than `best`. */
  function Scan(s: seq<Byte>, pos: nat, best: int): int
    decreases |s| - pos
  {
    if !HeaderAt(s, pos) then best
    else if !CaptureAt(s, pos) then Scan(s, pos + 1, best)
    else
      var found := Max(best, GranuleAt(s, pos));
      if TableEnd(s, pos) > |s| then found else Scan(s, PageEnd(s, pos), found)
  }

  lemma SliceOfSlice(s: seq<Byte>, base: nat, end: nat, i: nat, j: nat)
    requires base <= end <= |s| && i <= j <= end - base
    ensures s[base..end][i..j] == s[base + i..base + j]
  {
    forall k | 0 <= k < j - i ensures s[base..end][i..j][k] == s[base + i..base + j][k] {
      assert s[base..end][i + k] == s[base + i + k];
    }
  }

  /** What the 27 bytes read at `pos` say about the page there. */
  lemma BufferReads(s: seq<Byte>, pos: nat, buf: seq<Byte>)
    requires HeaderAt(s, pos) && buf == s[pos..pos + HEADER_SIZE]
    ensures (buf[0..4] == CAPTURE) == CaptureAt(s, pos)
    ensures Signed(Unsigned(buf[6..14])) == GranuleAt(s, pos)
    ensures pos + HEADER_SIZE + buf[26] == TableEnd(s, pos)
  {
    SliceOfSlice(s, pos, pos + HEADER_SIZE, 0, 4);
    SliceOfSlice(s, pos, pos + HEADER_SIZE, 6, 14);
  }

  method AddUp(table: seq<Byte>) returns (total: nat)
    ensures total == Sum(table)
  {
    total := 0;
    for i := 0 to |table|
      invariant total + Sum(table[i..]) == Sum(table)
    {
      assert table[i..][1..] == table[i + 1..];
      total := total + table[i];
    }
  }

  /** Ends on every input: each round leaves fewer bytes unread, the one that seeks back included. */
  method OpusDuration(bytes: seq<Byte>) returns (totalGranulePos: int, duration: real)
    ensures totalGranulePos == Scan(bytes, 0, 0)
    ensures duration * 48000.0 == totalGranulePos as real
  {
    var pos := 0;
    totalGranulePos := 0;
    while true
      invariant 0 <= pos
      invariant Scan(bytes, pos, totalGranulePos) == Scan(bytes, 0, 0)
      decreases |bytes| - pos
    {
      ghost var start, before := pos, totalGranulePos;
      if pos >= |bytes| { break; }
      var end := if pos + HEADER_SIZE <= |bytes| then pos + HEADER_SIZE else |bytes|;
      var buf := bytes[pos..end];
      if |buf| < HEADER_SIZE { break; }
      BufferReads(bytes, pos, buf);
      pos := end;
      if buf[0..4] != CAPTURE {
        pos := pos - 26;
        continue;
      }
      var granulePos := Signed(Unsigned(buf[6..14]));
      if granulePos > totalGranulePos {
        totalGranulePos := granulePos;
      }
      var numSegments := buf[26];
      assert totalGranulePos == Max(before, GranuleAt(bytes, start));
      if pos + numSegments > |bytes| { break; }
      var segmentTable := bytes[pos..pos + numSegments];
      pos := pos + numSegments;
      var pageSize := AddUp(segmentTable);
      pos := pos + pageSize;
      assert pos == PageEnd(bytes, start);
    }
    duration := totalGranulePos as real / SAMPLE_RATE;
  }

  // ---------------------------------------------------------------- bytes before a position do not matter

  lemma FieldsShift(a: seq<Byte>, b: seq<Byte>, pos: nat)
    requires HeaderAt(b, pos)
    ensures CaptureAt(a + b, |a| + pos) == CaptureAt(b, pos)
    ensures GranuleAt(a + b, |a| + pos) == GranuleAt(b, pos)
    ensures TableEnd(a + b, |a| + pos) == |a| + TableEnd(b, pos)
  {
    assert (a + b)[|a| + pos..|a| + pos + 4] == b[pos..pos + 4];
    assert (a + b)[|a| + pos + 6..|a| + pos + 14] == b[pos + 6..pos + 14];
  }

  lemma PageEndShifts(a: seq<Byte>, b: seq<Byte>, pos: nat)
    requires HeaderAt(b, pos) && TableEnd(b, pos) <= |b|
    ensures TableEnd(a + b, |a| + pos) <= |a + b| && PageEnd(a + b, |a| + pos) == |a| + PageEnd(b, pos)
  {
    var end := TableEnd(b, pos);
    assert (a + b)[|a| + pos + HEADER_SIZE..|a| + end] == b[pos + HEADER_SIZE..end];
  }

  lemma {:induction false} ScanShifts(a: seq<Byte>, b: seq<Byte>, pos: nat, best: int)
    ensures Scan(a + b, |a| + pos, best) == Scan(b, pos, best)
    decreases |b| - pos
  {
    if HeaderAt(b, pos) {
      FieldsShift(a, b, pos);
      if !CaptureAt(b, pos) {
        ScanShifts(a, b, pos + 1, best);
      } else if TableEnd(b, pos) <= |b| {
        PageEndShifts(a, b, pos);
        ScanShifts(a, b, PageEnd(b, pos), Max(best, GranuleAt(b, pos)));
      }
    }
  }

  // ---------------------------------------------------------------- well-formed pages

  /** `flags` is the version and the header type, `ids` the serial number, the page number and the checksum. */
  datatype Page = Page(flags: seq<Byte>, granule: seq<Byte>, ids: seq<Byte>, segments: seq<Byte>, body: seq<Byte>)

  predicate WellFormed(p: Page) {
    |p.flags| == 2 && |p.granule| == 8 && |p.ids| == 12 && |p.segments| < 256 && |p.body| == Sum(p.segments)
  }

  function GranuleOf(p: Page): int { Signed(Unsigned(p.granule)) }

  /** A page that carries the eight bytes of an int64 has it as its granule position, a negative one included. */
  lemma GranuleReadsBack(p: Page, granule: int)
    requires WellFormed(p) && -MAX_INT64 - 1 <= granule <= MAX_INT64
    requires p.granule == LittleEndian(if granule < 0 then granule + TWO_64 else granule, |p.granule|)
    ensures GranuleOf(p) == granule
  {
    assert Power(8) == TWO_64;
    UnsignedOfLittleEndian(if granule < 0 then granule + TWO_64 else granule, |p.granule|);
  }

  function Header(p: Page): seq<Byte>
    requires WellFormed(p)
  {
    CAPTURE + p.flags + p.granule + p.ids + [|p.segments|]
  }

  function Encode(p: Page): seq<Byte>
    requires WellFormed(p)
  {
    Header(p) + p.segments + p.body
  }

  predicate AllWellFormed(pages: seq<Page>) { forall p :: p in pages ==> WellFormed(p) }

  function EncodeAll(pages: seq<Page>): seq<Byte>
    requires AllWellFormed(pages)
  {
    if |pages| == 0 then [] else Encode(pages[0]) + EncodeAll(pages[1..])
  }

  function Largest(pages: seq<Page>, best: int): int {
    if |pages| == 0 then best else Largest(pages[1..], Max(best, GranuleOf(pages[0])))
  }

  /** `Largest` is the maximum of its start and the granule positions of the pages. */
  lemma {:induction false} LargestIsTheMaximum(pages: seq<Page>, best: int)
    ensures Largest(pages, best) >= best
    ensures forall p :: p in pages ==> GranuleOf(p) <= Largest(pages, best)
    ensures Largest(pages, best) == best || exists p :: p in pages && GranuleOf(p) == Largest(pages, best)
  {
    if |pages| > 0 {
      LargestIsTheMaximum(pages[1..], Max(best, GranuleOf(pages[0])));
    }
  }

  lemma HeaderReads(p: Page)
    requires WellFormed(p)
    ensures |Header(p)| == HEADER_SIZE && Header(p)[0..4] == CAPTURE
    ensures Header(p)[6..14] == p.granule && Header(p)[26] == |p.segments|
  {
  }

  /** What is read at the start of bytes that begin with the header of `p`. */
  lemma HeaderReadsBack(p: Page, s: seq<Byte>)
    requires WellFormed(p) && Header(p) <= s
    ensures HeaderAt(s, 0) && CaptureAt(s, 0) && GranuleAt(s, 0) == GranuleOf(p)
    ensures TableEnd(s, 0) == HEADER_SIZE + |p.segments|
  {
    HeaderReads(p);
    var h := Header(p);
    assert s[0..4] == h[0..4];
    assert s[6..14] == h[6..14];
    assert s[26] == h[26];
  }

  lemma TableReadsBack(p: Page, s: seq<Byte>)
    requires WellFormed(p) && Header(p) + p.segments <= s
    ensures HeaderAt(s, 0) && TableEnd(s, 0) <= |s| && PageEnd(s, 0) == |Encode(p)|
  {
    HeaderReads(p);
    assert Header(p) <= s;
    HeaderReadsBack(p, s);
    assert s[HEADER_SIZE..HEADER_SIZE + |p.segments|] == p.segments;
  }

  /** The scan reads one page and continues right behind it. */
  lemma ScanPage(p: Page, rest: seq<Byte>, best: int)
    requires WellFormed(p)
    ensures Scan(Encode(p) + rest, 0, best) == Scan(rest, 0, Max(best, GranuleOf(p)))
  {
    var s := Encode(p) + rest;
    assert Header(p) <= s && Header(p) + p.segments <= s;
    HeaderReadsBack(p, s);
    TableReadsBack(p, s);
    ScanShifts(Encode(p), rest, 0, Max(best, GranuleOf(p)));
  }

  lemma {:induction false} ScanPages(pages: seq<Page>, rest: seq<Byte>, best: int)
    requires AllWellFormed(pages)
    ensures Scan(EncodeAll(pages) + rest, 0, best) == Scan(rest, 0, Largest(pages, best))
    decreases |pages|
  {
    if |pages| == 0 {
      assert EncodeAll(pages) + rest == rest;
    } else {
      var others := EncodeAll(pages[1..]) + rest;
      assert EncodeAll(pages) + rest == Encode(pages[0]) + others;
      assert pages[0] in pages;
      ScanPage(pages[0], others, best);
      ScanPages(pages[1..], rest, Max(best, GranuleOf(pages[0])));
    }
  }

  /** A page cut off anywhere behind its header is still counted. */
  lemma ScanCutPage(p: Page, cut: seq<Byte>, best: int)
    requires WellFormed(p) && Header(p) <= cut <= Encode(p)
    ensures Scan(cut, 0, best) == Max(best, GranuleOf(p))
  {
    HeaderReadsBack(p, cut);
    if TableEnd(cut, 0) <= |cut| {
      HeaderReads(p);
      assert Header(p) + p.segments <= cut;
      TableReadsBack(p, cut);
    }
  }

  // ---------------------------------------------------------------- bytes around the pages

  predicate NoCapture(s: seq<Byte>, begin: nat, end: nat) { forall i :: begin <= i < end ==> !CaptureAt(s, i) }

  /** Bytes at which no page begins are skipped one by one. */
  lemma {:induction false} ScanSkips(s: seq<Byte>, begin: nat, end: nat, best: int)
    requires begin <= end && HeaderAt(s, end) && NoCapture(s, begin, end)
    ensures Scan(s, begin, best) == Scan(s, end, best)
    decreases end - begin
  {
    if begin < end {
      assert !CaptureAt(s, begin);
      ScanSkips(s, begin + 1, end, best);
    }
  }

  lemma ScanBehindPrefix(prefix: seq<Byte>, rest: seq<Byte>, best: int)
    requires HeaderAt(rest, 0) && NoCapture(prefix + rest, 0, |prefix|)
    ensures Scan(prefix + rest, 0, best) == Scan(rest, 0, best)
  {
    ScanSkips(prefix + rest, 0, |prefix|, best);
    ScanShifts(prefix, rest, 0, best);
  }

  /** Where no page begins nothing is found. */
  lemma {:induction false} ScanFindsNothing(s: seq<Byte>, pos: nat, best: int)
    requires NoCapture(s, pos, |s|)
    ensures Scan(s, pos, best) == best
    decreases |s| - pos
  {
    if HeaderAt(s, pos) {
      assert !CaptureAt(s, pos);
      ScanFindsNothing(s, pos + 1, best);
    }
  }

  /**
   On pages behind a prefix in which no page begins, and before a tail in which none
   begins, the scan finds the largest granule position, or zero when none is positive.
   */
  lemma ScanFindsTheLargestGranule(prefix: seq<Byte>, pages: seq<Page>, tail: seq<Byte>)
    requires AllWellFormed(pages)
    requires var file := prefix + (EncodeAll(pages) + tail);
             NoCapture(file, 0, if |pages| == 0 then |file| else |prefix|) && NoCapture(tail, 0, |tail|)
    ensures Scan(prefix + (EncodeAll(pages) + tail), 0, 0) == Largest(pages, 0)
  {
    var rest := EncodeAll(pages) + tail;
    if |pages| == 0 {
      ScanFindsNothing(prefix + rest, 0, 0);
    } else {
      assert pages[0] in pages;
      HeaderReads(pages[0]);
      ScanBehindPrefix(prefix, rest, 0);
      ScanPages(pages, tail, 0);
      ScanFindsNothing(tail, 0, Largest(pages, 0));
    }
  }

  /** The same when the last page is cut off behind its header. */
  lemma ScanFindsTheLargestOfACutFile(prefix: seq<Byte>, pages: seq<Page>, last: Page, cut: seq<Byte>)
    requires AllWellFormed(pages) && WellFormed(last) && Header(last) <= cut <= Encode(last)
    requires NoCapture(prefix + (EncodeAll(pages) + cut), 0, |prefix|)
    ensures Scan(prefix + (EncodeAll(pages) + cut), 0, 0) == Max(Largest(pages, 0), GranuleOf(last))
  {
    HeaderReads(last);
    ScanBehindPrefix(prefix, EncodeAll(pages) + cut, 0);
    ScanPages(pages, cut, 0);
    ScanCutPage(last, cut, Largest(pages, 0));
  }
}
