/** The text index `hamcall.idx`: parsing, printing, and the two-pass search by callsign. */
module IdxText {
  import opened Ascii
  import opened Sorting

  const MAX_U64: nat := 0xffff_ffff_ffff_ffff
  const U32_LIMIT: nat := 0x1_0000_0000
  const U16_LIMIT: nat := 0x1_0000

  /** One line of the index. */
  datatype Entry = Entry(key: Bytes, datOffset: nat)

  /** One row of the parsed table: where the key lies in the file, and the offset. */
  datatype IndexEntry = IndexEntry(keyStart: nat, keyLen: nat, lineStart: nat, datOffset: nat)

  // ---- lines -------------------------------------------------------------

  /** The position of the next CR LF at or after `pos`. */
  function LineEnd(buf: Bytes, pos: nat): (r: Option<nat>)
    requires pos <= |buf|
    ensures r.Some? ==> pos <= r.value && r.value + 2 <= |buf| && buf[r.value] == CR && buf[r.value + 1] == LF
    decreases |buf| - pos
  {
    if pos + 2 > |buf| then None
    else if buf[pos] == CR && buf[pos + 1] == LF then Some(pos)
    else LineEnd(buf, pos + 1)
  }

  /** Where the trailing run of digits starts. */
  function DigitStart(t: Bytes): (n: nat)
    ensures n <= |t|
    ensures forall i | n <= i < |t| :: IsDigit(t[i])
    ensures n > 0 ==> !IsDigit(t[n - 1])
  {
    if t != [] && IsDigit(t[|t| - 1]) then DigitStart(t[..|t| - 1]) else |t|
  }

  /** A key, spaces, and a decimal offset that fits 64 bits. */
  function ParsedLine(line: Bytes): Option<Entry> {
    var t := TrimEnd(line, {SPACE});
    var d := DigitStart(t);
    if d == |t| || d == 0 || t[d - 1] != SPACE then None
    else
      var k := KeepCount(t[..d], {SPACE});
      if k == 0 || DecimalValue(t[d..]) > MAX_U64 then None
      else Some(Entry(t[..k], DecimalValue(t[d..])))
  }

  /** The entries of the lines from `pos` on; an unterminated tail is not a line. */
  function ParsedFrom(buf: Bytes, pos: nat): seq<Entry>
    requires pos <= |buf|
    decreases |buf| - pos
  {
    match LineEnd(buf, pos)
    case None => []
    case Some(end) => Listed(ParsedLine(buf[pos..end])) + ParsedFrom(buf, end + 2)
  }

  function IndexRow(lineStart: nat, e: Option<Entry>): Option<IndexEntry> {
    if e.None? || lineStart >= U32_LIMIT || |e.value.key| >= U16_LIMIT then None
    else Some(IndexEntry(lineStart, |e.value.key|, lineStart, e.value.datOffset))
  }

  function TableFrom(buf: Bytes, pos: nat): seq<IndexEntry>
    requires pos <= |buf|
    decreases |buf| - pos
  {
    match LineEnd(buf, pos)
    case None => []
    case Some(end) =>
      Listed(IndexRow(pos, ParsedLine(buf[pos..end]))) + TableFrom(buf, end + 2)
  }

  /** Where the lines start, an unterminated last one included. */
  function LineStarts(buf: Bytes, pos: nat): seq<nat>
    requires pos <= |buf|
    decreases |buf| - pos
  {
    if pos == |buf| then []
    else
      match LineEnd(buf, pos)
      case None => [pos]
      case Some(end) => [pos] + LineStarts(buf, end + 2)
  }

  function LineCount(buf: Bytes, pos: nat): nat
    requires pos <= |buf|
    decreases |buf| - pos
  {
    match LineEnd(buf, pos)
    case None => 0
    case Some(end) => 1 + LineCount(buf, end + 2)
  }

  // ---- the line parsers ----------------------------------------------------

  method TrimAsciiTrailingSpaces(line: Bytes) returns (r: Bytes)
    ensures r == TrimEnd(line, {SPACE})
  {
    var end := WalkSpaces(line, |line|);
    assert line[..|line|] == line;
    return line[..end];
  }

  method ParseDecimalU64(bytes: Bytes) returns (r: Option<nat>)
    ensures r == if AllDigits(bytes) && DecimalValue(bytes) <= 0xffff_ffff_ffff_ffff
                 then Some(DecimalValue(bytes)) else None
  {
    var out := 0;
    for i := 0 to |bytes|
      invariant AllDigits(bytes[..i]) && out == DecimalValue(bytes[..i]) <= MAX_U64
    {
      if !IsDigit(bytes[i]) {
        return None;
      }
      assert bytes[..i + 1][..i] == bytes[..i];
      var next := out * 10 + (bytes[i] - 0x30);
      assert next == DecimalValue(bytes[..i + 1]);
      if out * 10 > MAX_U64 || next > MAX_U64 {
        if AllDigits(bytes) {
          DecimalPrefix(bytes, i + 1);
        }
        return None;
      }
      out := next;
    }
    assert bytes[..|bytes|] == bytes;
    return Some(out);
  }

  /** Walk back over the trailing digits. */
  method WalkDigits(t: Bytes) returns (i: nat)
    ensures i == DigitStart(t)
  {
    i := |t|;
    while i > 0 && IsDigit(t[i - 1])
      invariant i <= |t|
      invariant DigitStart(t[..i]) == DigitStart(t)
    {
      assert t[..i][..i - 1] == t[..i - 1];
      i := i - 1;
    }
    assert DigitStart(t[..i]) == i;
  }

  /** Walk back over the spaces in front of `from`. */
  method WalkSpaces(t: Bytes, from: nat) returns (i: nat)
    requires from <= |t|
    ensures i == KeepCount(t[..from], {SPACE})
  {
    i := from;
    while i > 0 && t[i - 1] == SPACE
      invariant i <= from
      invariant KeepCount(t[..i], {SPACE}) == KeepCount(t[..from], {SPACE})
    {
      assert t[..i][..i - 1] == t[..i - 1];
      i := i - 1;
    }
    assert KeepCount(t[..i], {SPACE}) == i;
  }

  /** Walk back over the digits and then over the separating spaces. */
  method SplitTrimmed(trimmed: Bytes) returns (digitStart: nat, keyEnd: nat)
    ensures digitStart == DigitStart(trimmed)
    ensures keyEnd == if digitStart == |trimmed| || digitStart == 0 || trimmed[digitStart - 1] != SPACE then 0
                      else KeepCount(trimmed[..digitStart], {SPACE})
  {
    hide DigitStart, KeepCount;
    digitStart := WalkDigits(trimmed);
    if digitStart == |trimmed| || digitStart == 0 || trimmed[digitStart - 1] != SPACE {
      return digitStart, 0;
    }
    keyEnd := WalkSpaces(trimmed, digitStart);
  }

  method ParseLine(line: Bytes) returns (r: Option<Entry>)
    ensures r == ParsedLine(line)
  {
    hide DecimalValue, KeepCount, DigitStart, ParseUnsigned;
    var trimmed := TrimAsciiTrailingSpaces(line);
    var digitStart, keyEnd := SplitTrimmed(trimmed);
    if keyEnd == 0 {
      return None;
    }
    var value := ParseUnsigned(trimmed[digitStart..], MAX_U64);
    PlainDigits(trimmed[digitStart..]);
    if value.None? {
      return None;
    }
    return Some(Entry(trimmed[..keyEnd], value.value));
  }

  lemma PlainDigits(s: Bytes)
    requires AllDigits(s) && s != []
    ensures ParseUnsigned(s, MAX_U64) == if DecimalValue(s) <= MAX_U64 then Some(DecimalValue(s)) else None
  {
    assert IsDigit(s[0]);
  }

  method ParseIndexLine(lineStart: nat, line: Bytes) returns (r: Option<IndexEntry>)
    ensures r == IndexRow(lineStart, ParsedLine(line))
  {
    hide DecimalValue, KeepCount, DigitStart;
    var trimmed := TrimAsciiTrailingSpaces(line);
    var digitStart, keyEnd := SplitTrimmed(trimmed);
    if keyEnd == 0 {
      return None;
    }
    var datOffset := ParseDecimalU64(trimmed[digitStart..]);
    if datOffset.None? || lineStart >= U32_LIMIT || keyEnd >= U16_LIMIT {
      return None;
    }
    return Some(IndexEntry(lineStart, keyEnd, lineStart, datOffset.value));
  }

  // ---- the two readers of a file ---------------------------------------------

  class TextIdxIter {
    const buf: Bytes
    var pos: nat

    ghost predicate Valid()
      reads this
    {
      pos <= |buf|
    }

    /** The entries the iterator still has to yield. */
    ghost function Remaining(): seq<Entry>
      requires Valid()
      reads this
    {
      ParsedFrom(buf, pos)
    }

    constructor (buf: Bytes)
      ensures Valid() && this.buf == buf && Remaining() == ParsedFrom(buf, 0)
    {
      this.buf := buf;
      this.pos := 0;
    }

    /** Yield the next entry, skipping lines that do not parse. */
    method Next() returns (r: Option<Entry>)
      requires Valid()
      modifies this
      ensures Valid() && old(pos) <= pos
      ensures r.Some? ==> old(Remaining()) == [r.value] + Remaining() && old(pos) < pos
      ensures r.None? ==> old(Remaining()) == [] && Remaining() == []
    {
      hide ParsedFrom, TableFrom, LineCount, ParsedLine, LineEnd, IndexRow;
      while pos < |buf|
        invariant Valid() && old(pos) <= pos && Remaining() == old(Remaining())
        decreases |buf| - pos
      {
        LineStep(buf, pos);
        var lineEnd := LineEnd(buf, pos);
        if lineEnd.None? {
          return None;
        }
        var line := buf[pos..lineEnd.value];
        pos := lineEnd.value + 2;
        var entry := ParseLine(line);
        if entry.Some? {
          return entry;
        }
      }
      NoMoreLines(buf);
      return None;
    }
  }

  /** Every sampled line among the first `n` starts within 32 bits. */
  ghost predicate SamplesFit(starts: seq<nat>, n: nat, stride: nat)
    requires stride >= 1 && n <= |starts|
  {
    forall i | 0 <= i < n && i % stride == 0 :: starts[i] < 0x1_0000_0000
  }

  /** `directory` samples every `stride`-th of the first `n` line starts. */
  ghost predicate Samples(directory: seq<nat>, starts: seq<nat>, n: nat, stride: nat)
    requires stride >= 1 && n <= |starts|
  {
    && (forall i | 0 <= i < |directory| :: i * stride < n && directory[i] == starts[i * stride])
    && n <= |directory| * stride < n + stride
  }

  /** One pass over the file: the parsed table, the line count and the sampled line starts. */
  method BuildIndex(mmap: Bytes, stride: nat)
    returns (r: Option<(seq<nat>, nat, seq<IndexEntry>)>)
    requires stride >= 1
    ensures r.None? <==> LineCount(mmap, 0) == 0
                         || !SamplesFit(LineStarts(mmap, 0), |LineStarts(mmap, 0)|, stride)
    ensures r.Some? ==>
              && Samples(r.value.0, LineStarts(mmap, 0), |LineStarts(mmap, 0)|, stride)
              && r.value.1 == LineCount(mmap, 0)
              && r.value.2 == TableFrom(mmap, 0)
  {
    hide ParsedLine, IndexRow, LineStarts, LineEnd, LineCount, TableFrom, Sampled, IndexSoFar;
    var directory: seq<nat> := [];
    var entries: seq<IndexEntry> := [];
    var lineCount, pos := 0, 0;
    ghost var starts := LineStarts(mmap, 0);
    NothingSampled(starts, stride);
    NothingIndexed(mmap);
    while pos < |mmap|
      invariant 0 <= pos <= |mmap|
      invariant IndexSoFar(mmap, pos, lineCount, entries)
      invariant lineCount <= |starts| && starts[lineCount..] == LineStarts(mmap, pos)
      invariant Sampled(directory, starts, lineCount, stride)
      decreases |mmap| - pos
    {
      StartsHere(mmap, pos, starts, lineCount);
      var sampled := SampleLine(directory, lineCount, pos, stride, starts);
      if sampled.None? {
        return None;
      }
      directory := sampled.value;
      var lineEnd := LineEnd(mmap, pos);
      if lineEnd.None? {
        IndexDone(mmap, pos, lineCount, entries);
        SampledAll(directory, starts, stride);
        return if lineCount == 0 then None else Some((directory, lineCount, entries));
      }
      var entry := ParseIndexLine(pos, mmap[pos..lineEnd.value]);
      IndexOneMore(mmap, pos, lineCount, entries);
      entries := entries + Listed(entry);
      pos := lineEnd.value + 2;
      lineCount := lineCount + 1;
    }
    NoMoreStarts(mmap, starts, lineCount);
    IndexDone(mmap, pos, lineCount, entries);
    SampledAll(directory, starts, stride);
    return if lineCount == 0 then None else Some((directory, lineCount, entries));
  }

  /** The lines before `pos` are counted and their rows collected. */
  ghost predicate IndexSoFar(buf: Bytes, pos: nat, lineCount: nat, entries: seq<IndexEntry>)
    requires pos <= |buf|
  {
    lineCount + LineCount(buf, pos) == LineCount(buf, 0) && entries + TableFrom(buf, pos) == TableFrom(buf, 0)
  }

  lemma NothingIndexed(buf: Bytes)
    ensures IndexSoFar(buf, 0, 0, [])
  {
    hide LineCount, TableFrom;
  }

  lemma IndexOneMore(buf: Bytes, pos: nat, lineCount: nat, entries: seq<IndexEntry>)
    requires pos <= |buf| && IndexSoFar(buf, pos, lineCount, entries) && LineEnd(buf, pos).Some?
    ensures var end := LineEnd(buf, pos).value;
            IndexSoFar(buf, end + 2, lineCount + 1, entries + Listed(IndexRow(pos, ParsedLine(buf[pos..end]))))
  {
    hide LineCount, TableFrom, LineEnd, ParsedLine, IndexRow, ParsedFrom;
    LineStep(buf, pos);
  }

  lemma IndexDone(buf: Bytes, pos: nat, lineCount: nat, entries: seq<IndexEntry>)
    requires pos <= |buf| && IndexSoFar(buf, pos, lineCount, entries)
    ensures pos == |buf| || LineEnd(buf, pos).None? ==> lineCount == LineCount(buf, 0) && entries == TableFrom(buf, 0)
  {
    hide LineCount, TableFrom, LineEnd, ParsedLine, IndexRow, ParsedFrom;
    LineStep(buf, pos);
    NoMoreLines(buf);
  }

  /** The directory holds every `stride`-th of the first `n` line starts, and they fit. */
  ghost predicate Sampled(directory: seq<nat>, starts: seq<nat>, n: nat, stride: nat)
    requires stride >= 1 && n <= |starts|
  {
    Samples(directory, starts, n, stride) && SamplesFit(starts, n, stride)
  }

  lemma SampledAll(directory: seq<nat>, starts: seq<nat>, stride: nat)
    requires stride >= 1
    ensures Sampled(directory, starts, |starts|, stride)
            ==> Samples(directory, starts, |starts|, stride) && SamplesFit(starts, |starts|, stride)
  {
  }

  /** Every `stride`-th line start goes into the directory, unless it does not fit. */
  method SampleLine(directory: seq<nat>, lineCount: nat, pos: nat, stride: nat, ghost starts: seq<nat>)
    returns (r: Option<seq<nat>>)
    requires stride >= 1 && lineCount < |starts| && starts[lineCount] == pos
    requires Sampled(directory, starts, lineCount, stride)
    ensures r.None? ==> !SamplesFit(starts, |starts|, stride)
    ensures r.Some? ==> Sampled(r.value, starts, lineCount + 1, stride)
  {
    hide Samples, SamplesFit;
    if lineCount % stride == 0 {
      if pos >= U32_LIMIT {
        SampleOverflows(starts, lineCount, stride);
        return None;
      }
      SampleTaken(directory, starts, lineCount, stride);
      return Some(directory + [pos]);
    }
    SampleSkipped(directory, starts, lineCount, stride);
    return Some(directory);
  }

  lemma LineStep(buf: Bytes, pos: nat)
    requires pos <= |buf|
    ensures var end := LineEnd(buf, pos);
            if end.None? then LineCount(buf, pos) == 0 && TableFrom(buf, pos) == [] && ParsedFrom(buf, pos) == []
            else
              var line := ParsedLine(buf[pos..end.value]);
              var row := IndexRow(pos, line);
              && LineCount(buf, pos) == 1 + LineCount(buf, end.value + 2)
              && TableFrom(buf, pos) == Listed(row) + TableFrom(buf, end.value + 2)
              && ParsedFrom(buf, pos) == Listed(line) + ParsedFrom(buf, end.value + 2)
  {
  }

  lemma NoMoreLines(buf: Bytes)
    ensures LineCount(buf, |buf|) == 0 && TableFrom(buf, |buf|) == [] && ParsedFrom(buf, |buf|) == []
  {
  }

  lemma StartsHere(buf: Bytes, pos: nat, starts: seq<nat>, n: nat)
    requires pos < |buf| && n <= |starts| && starts[n..] == LineStarts(buf, pos)
    ensures n < |starts| && starts[n] == pos
    ensures starts[n + 1..] == if LineEnd(buf, pos).None? then [] else LineStarts(buf, LineEnd(buf, pos).value + 2)
    ensures LineEnd(buf, pos).None? ==> n + 1 == |starts|
  {
    assert starts[n..][1..] == starts[n + 1..];
  }

  lemma NoMoreStarts(buf: Bytes, starts: seq<nat>, n: nat)
    requires n <= |starts| && starts[n..] == LineStarts(buf, |buf|)
    ensures n == |starts|
  {
  }

  lemma NothingSampled(starts: seq<nat>, stride: nat)
    requires stride >= 1
    ensures Sampled([], starts, 0, stride)
  {
  }

  lemma SampleOverflows(starts: seq<nat>, n: nat, stride: nat)
    requires stride >= 1 && n < |starts| && n % stride == 0 && starts[n] >= U32_LIMIT
    ensures !SamplesFit(starts, |starts|, stride)
  {
  }

  lemma MulLe(a: nat, b: nat, s: nat)
    requires a <= b
    ensures a * s <= b * s
  {
  }

  lemma SampleTaken(directory: seq<nat>, starts: seq<nat>, n: nat, stride: nat)
    requires stride >= 1 && n < |starts| && n % stride == 0 && starts[n] < U32_LIMIT
    requires Samples(directory, starts, n, stride) && SamplesFit(starts, n, stride)
    ensures Samples(directory + [starts[n]], starts, n + 1, stride) && SamplesFit(starts, n + 1, stride)
  {
    var k := n / stride;
    assert n == k * stride;
    if |directory| < k {
      MulLe(|directory| + 1, k, stride);
    } else {
      MulLe(k, |directory|, stride);
    }
    assert |directory| == k;
  }

  lemma SampleSkipped(directory: seq<nat>, starts: seq<nat>, n: nat, stride: nat)
    requires stride >= 1 && n < |starts| && n % stride != 0
    requires Samples(directory, starts, n, stride) && SamplesFit(starts, n, stride)
    ensures Samples(directory, starts, n + 1, stride) && SamplesFit(starts, n + 1, stride)
  {
    FitsOneMore(starts, n, stride);
    hide SamplesFit;
    NotMultiple(n, |directory|, stride);
  }

  lemma NotMultiple(n: nat, d: nat, stride: nat)
    requires stride >= 1 && n % stride != 0
    ensures d * stride != n
  {
    var k := n / stride;
    assert n == k * stride + n % stride;
    if d <= k {
      MulLe(d, k, stride);
    } else {
      MulLe(k + 1, d, stride);
    }
  }

  lemma FitsOneMore(starts: seq<nat>, n: nat, stride: nat)
    requires stride >= 1 && n < |starts| && n % stride != 0 && SamplesFit(starts, n, stride)
    ensures SamplesFit(starts, n + 1, stride)
  {
  }

  // ---- the table and the iterator agree -----------------------------------------

  predicate RowInFile(buf: Bytes, row: IndexEntry) { row.keyStart + row.keyLen <= |buf| }

  /** What a table row stands for. */
  function RowEntry(buf: Bytes, row: IndexEntry): Entry
    requires RowInFile(buf, row)
  {
    Entry(buf[row.keyStart..row.keyStart + row.keyLen], row.datOffset)
  }

  predicate TableInFile(buf: Bytes, table: seq<IndexEntry>) {
    forall i | 0 <= i < |table| :: RowInFile(buf, table[i])
  }

  function View(buf: Bytes, table: seq<IndexEntry>): (es: seq<Entry>)
    requires TableInFile(buf, table)
    ensures |es| == |table|
    ensures forall i | 0 <= i < |es| :: es[i] == RowEntry(buf, table[i])
  {
    seq(|table|, i requires 0 <= i < |table| => RowEntry(buf, table[i]))
  }

  predicate ShortKey(e: Entry) { |e.key| < 0x1_0000 }

  lemma RowOfLine(buf: Bytes, pos: nat, end: nat)
    requires pos <= end <= |buf| && pos < U32_LIMIT
    ensures var e := ParsedLine(buf[pos..end]);
            && (IndexRow(pos, e).Some? <==> e.Some? && ShortKey(e.value))
            && (IndexRow(pos, e).Some? ==> RowInFile(buf, IndexRow(pos, e).value)
                                           && RowEntry(buf, IndexRow(pos, e).value) == e.value)
  {
    hide DigitStart, DecimalValue;
    var line := buf[pos..end];
    var e := ParsedLine(line);
    if e.Some? {
      assert e.value.key == line[..|e.value.key|];
      assert buf[pos..pos + |e.value.key|] == line[..|e.value.key|];
    }
  }

  /** In a file below 4 GiB the table rows are exactly the iterator's entries with 16-bit key lengths. */
  lemma {:induction false} TableIsIterator(buf: Bytes, pos: nat)
    requires pos <= |buf| <= 0x1_0000_0000
    ensures TableInFile(buf, TableFrom(buf, pos))
    ensures View(buf, TableFrom(buf, pos)) == Filter(ShortKey, ParsedFrom(buf, pos))
    decreases |buf| - pos
  {
    hide ParsedLine, IndexRow, ShortKey, RowInFile, Filter, LineEnd, TableFrom, ParsedFrom;
    var end := LineEnd(buf, pos);
    LineStep(buf, pos);
    if end.Some? {
      TableIsIterator(buf, end.value + 2);
      RowOfLine(buf, pos, end.value);
      var e := ParsedLine(buf[pos..end.value]);
      var row := IndexRow(pos, e);
      var rest := TableFrom(buf, end.value + 2);
      if e.Some? {
        FilterCons(ShortKey, e.value, ParsedFrom(buf, end.value + 2));
        assert ParsedFrom(buf, pos) == [e.value] + ParsedFrom(buf, end.value + 2);
      } else {
        assert ParsedFrom(buf, pos) == ParsedFrom(buf, end.value + 2);
      }
      if row.Some? {
        assert TableFrom(buf, pos) == [row.value] + rest;
        assert View(buf, TableFrom(buf, pos)) == [RowEntry(buf, row.value)] + View(buf, rest);
      } else {
        assert TableFrom(buf, pos) == rest;
      }
    } else {
      assert Filter(ShortKey, []) == [] by { FilterAll(ShortKey, []); }
    }
  }

  lemma {:induction false} FilterAll(p: Entry -> bool, es: seq<Entry>)
    requires forall i | 0 <= i < |es| :: p(es[i])
    ensures Filter(p, es) == es
  {
    if es != [] {
      FilterAll(p, es[1..]);
      assert es == [es[0]] + es[1..];
    }
  }

  /** The table and the iterator agree entry by entry exactly when every key fits 16 bits. */
  lemma ReadersAgree(buf: Bytes)
    requires |buf| <= 0x1_0000_0000
    ensures TableInFile(buf, TableFrom(buf, 0))
    ensures View(buf, TableFrom(buf, 0)) == ParsedFrom(buf, 0)
            <==> forall i | 0 <= i < |ParsedFrom(buf, 0)| :: ShortKey(ParsedFrom(buf, 0)[i])
  {
    TableIsIterator(buf, 0);
    var es := ParsedFrom(buf, 0);
    if forall i | 0 <= i < |es| :: ShortKey(es[i]) {
      FilterAll(ShortKey, es);
    }
  }

  // ---- printing ---------------------------------------------------------------------

  function PrintedLine(e: Entry, padding: nat): Bytes {
    e.key + Spaces(padding) + Decimal(e.datOffset) + [SPACE]
  }

  /** The documented line format: key, padding, offset, one space, CR LF. */
  function PrintedFile(lines: seq<(Entry, nat)>): Bytes {
    if lines == [] then []
    else PrintedLine(lines[0].0, lines[0].1) + [CR, LF] + PrintedFile(lines[1..])
  }

  predicate Printable(e: Entry) {
    && e.key != [] && e.key[|e.key| - 1] != SPACE && CR !in e.key
    && e.datOffset <= 0xffff_ffff_ffff_ffff
  }

  predicate PrintableLines(lines: seq<(Entry, nat)>) {
    forall i | 0 <= i < |lines| :: Printable(lines[i].0) && lines[i].1 >= 1
  }

  function EntriesOf(lines: seq<(Entry, nat)>): (es: seq<Entry>)
    ensures |es| == |lines|
  {
    seq(|lines|, i requires 0 <= i < |lines| => lines[i].0)
  }

  lemma {:induction false} DigitStartUnique(t: Bytes, n: nat)
    requires n <= |t|
    requires forall i | n <= i < |t| :: IsDigit(t[i])
    requires n > 0 ==> !IsDigit(t[n - 1])
    ensures DigitStart(t) == n
  {
  }

  lemma {:induction false} LineEndUnique(buf: Bytes, pos: nat, end: nat)
    requires pos <= end && end + 2 <= |buf|
    requires forall i | pos <= i < end :: buf[i] != CR
    requires buf[end] == CR && buf[end + 1] == LF
    ensures LineEnd(buf, pos) == Some(end)
    decreases end - pos
  {
    if pos < end {
      LineEndUnique(buf, pos + 1, end);
    }
  }

  lemma PrintedLineParses(e: Entry, padding: nat)
    requires Printable(e) && padding >= 1
    ensures ParsedLine(PrintedLine(e, padding)) == Some(e)
  {
    hide DecimalValue, Decimal, KeepCount, DigitStart, AllDigits;
    var digits := Decimal(e.datOffset);
    var head := e.key + Spaces(padding);
    var t := head + digits;
    DigitsBehind(head, digits);
    DropSpaces(t, 1);
    assert PrintedLine(e, padding) == t + Spaces(1);
    DropSpaces(e.key, padding);
    assert t[..|head|] == head && t[|head|..] == digits && t[..|e.key|] == e.key;
    DecimalRoundTrip(e.datOffset);
  }

  /** `line` is the key up to `k`, spaces up to `d`, digits up to `m`, and spaces. */
  ghost predicate LineShape(line: Bytes, e: Entry, k: nat, d: nat, m: nat) {
    && 0 < k < d < m <= |line|
    && line[..k] == e.key && line[k - 1] as char != ' '
    && (forall i | k <= i < d :: line[i] as char == ' ')
    && (forall i | d <= i < m :: '0' <= line[i] as char <= '9')
    && (forall i | m <= i < |line| :: line[i] as char == ' ')
    && AllDigits(line[d..m]) && DecimalValue(line[d..m]) == e.datOffset <= 0xffff_ffff_ffff_ffff
  }

  /** Exactly these lines are entries. */
  lemma LineIsEntry(line: Bytes, e: Entry)
    ensures ParsedLine(line) == Some(e) <==> exists k, d, m :: LineShape(line, e, k, d, m)
  {
    hide DecimalValue, LineShape, KeepCount, DigitStart, ParsedLine;
    if ParsedLine(line) == Some(e) {
      EntryShape(line, e);
    }
    if k, d, m :| LineShape(line, e, k, d, m) {
      ShapeIsEntry(line, e, k, d, m);
    }
  }

  lemma EntryShape(line: Bytes, e: Entry)
    requires ParsedLine(line) == Some(e)
    ensures var m := KeepCount(line, {SPACE});
            var d := DigitStart(line[..m]);
            LineShape(line, e, KeepCount(line[..d], {SPACE}), d, m)
  {
    hide DecimalValue, KeepCount, DigitStart;
    var m := KeepCount(line, {SPACE});
    var t := line[..m];
    var d := DigitStart(t);
    assert t[..d] == line[..d] && t[d..] == line[d..m];
    assert t[..KeepCount(line[..d], {SPACE})] == line[..KeepCount(line[..d], {SPACE})];
    assert forall i | d <= i < m :: t[i] == line[i];
  }

  lemma ShapeIsEntry(line: Bytes, e: Entry, k: nat, d: nat, m: nat)
    requires LineShape(line, e, k, d, m)
    ensures ParsedLine(line) == Some(e)
  {
    hide DecimalValue, KeepCount, DigitStart;
    var t := line[..m];
    KeepUnique(line, {SPACE}, m);
    DigitStartUnique(t, d);
    KeepUnique(t[..d], {SPACE}, k);
    assert t[d..] == line[d..m] && t[..k] == line[..k];
  }

  lemma DropSpaces(s: Bytes, n: nat)
    requires s != [] && s[|s| - 1] != SPACE
    ensures KeepCount(s + Spaces(n), {SPACE}) == |s|
    ensures TrimEnd(s + Spaces(n), {SPACE}) == s
  {
    KeepUnique(s + Spaces(n), {SPACE}, |s|);
  }

  lemma DigitsBehind(head: Bytes, digits: Bytes)
    requires head != [] && head[|head| - 1] == SPACE && digits != [] && AllDigits(digits)
    ensures DigitStart(head + digits) == |head|
    ensures (head + digits)[|head + digits| - 1] != SPACE
  {
    var t := head + digits;
    assert forall i | 0 <= i < |digits| :: t[|head| + i] == digits[i] && IsDigit(digits[i]);
    forall i | |head| <= i < |t| ensures IsDigit(t[i]) {
      assert t[i] == digits[i - |head|];
    }
    DigitStartUnique(t, |head|);
  }

  lemma NoCarriageReturn(e: Entry, padding: nat)
    requires Printable(e)
    ensures CR !in PrintedLine(e, padding)
  {
    hide Decimal;
    var digits := Decimal(e.datOffset);
    assert forall i | 0 <= i < |digits| :: IsDigit(digits[i]);
  }

  lemma {:induction false} PrintedParses(head: Bytes, lines: seq<(Entry, nat)>)
    requires PrintableLines(lines)
    ensures ParsedFrom(head + PrintedFile(lines), |head|) == EntriesOf(lines)
    decreases |lines|
  {
    hide PrintedLine, PrintedFile, Printable, ParsedFrom, EntriesOf;
    PrintedFileStep(head, lines);
    if lines == [] {
      NoMoreLines(head);
    } else {
      var (e, padding) := lines[0];
      var line := PrintedLine(e, padding);
      PrintedLineParses(e, padding);
      NoCarriageReturn(e, padding);
      OneMoreLine(head, line, e, PrintedFile(lines[1..]));
      PrintedParses(head + line + [CR, LF], lines[1..]);
    }
  }

  lemma PrintedFileStep(head: Bytes, lines: seq<(Entry, nat)>)
    ensures lines == [] ==> head + PrintedFile(lines) == head && EntriesOf(lines) == []
    ensures lines != [] ==>
              && head + PrintedFile(lines)
                 == head + PrintedLine(lines[0].0, lines[0].1) + [CR, LF] + PrintedFile(lines[1..])
              && EntriesOf(lines) == [lines[0].0] + EntriesOf(lines[1..])
  {
    hide PrintedLine;
  }

  lemma OneMoreLine(head: Bytes, line: Bytes, e: Entry, tail: Bytes)
    requires CR !in line && ParsedLine(line) == Some(e)
    ensures var next := head + line + [CR, LF];
            ParsedFrom(next + tail, |head|) == [e] + ParsedFrom(next + tail, |next|)
  {
    hide ParsedLine, ParsedFrom, LineEnd;
    LineInside(head, line, tail);
    LineStep(head + line + [CR, LF] + tail, |head|);
  }

  /** A line without CR, in the middle of a file, is read as that line. */
  lemma LineInside(head: Bytes, line: Bytes, tail: Bytes)
    requires CR !in line
    ensures var buf := head + line + [CR, LF] + tail;
            && LineEnd(buf, |head|) == Some(|head| + |line|)
            && buf[|head|..|head| + |line|] == line
            && |head| + |line| + 2 == |head + line + [CR, LF]|
  {
    hide LineEnd;
    var buf := head + line + [CR, LF] + tail;
    forall i | |head| <= i < |head| + |line| ensures buf[i] != CR {
      assert buf[i] == line[i - |head|];
    }
    LineEndUnique(buf, |head|, |head| + |line|);
  }

  /** Printing and parsing undo each other: both readers return the printed list. */
  lemma PrintedRoundTrip(lines: seq<(Entry, nat)>)
    requires PrintableLines(lines)
    ensures ParsedFrom(PrintedFile(lines), 0) == EntriesOf(lines)
    ensures |PrintedFile(lines)| <= 0x1_0000_0000 && (forall i | 0 <= i < |lines| :: ShortKey(lines[i].0)) ==>
              && TableInFile(PrintedFile(lines), TableFrom(PrintedFile(lines), 0))
              && View(PrintedFile(lines), TableFrom(PrintedFile(lines), 0)) == EntriesOf(lines)
  {
    hide ParsedFrom, TableFrom, PrintedFile, ShortKey, PrintableLines;
    PrintedParses([], lines);
    assert [] + PrintedFile(lines) == PrintedFile(lines);
    if |PrintedFile(lines)| <= 0x1_0000_0000 {
      ReadersAgree(PrintedFile(lines));
    }
  }
}
