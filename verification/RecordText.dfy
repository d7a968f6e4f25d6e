/** The tagged record layout, printed; the segment parser reads it back. */
module RecordText {
  import opened Ascii
  import opened Snapshots
  import opened Records
  import Interests

  /** Callsigns, one of them in lower case too, and an interest code for the examples. */
  const K1AA: Bytes := [0x4b, 0x31, 0x41, 0x41]
  const LOWER: Bytes := [0x6b, 0x31, 0x61, 0x61]
  const W1AA: Bytes := [0x57, 0x31, 0x41, 0x41]
  const CODE: Bytes := [0x30, 0x30, 0x31, 0x30]

  lemma CodeIsDigits()
    ensures AllDigits(CODE) && CODE[..4] == CODE && CODE[4..] == []
  {
    assert IsDigit(CODE[0]) && IsDigit(CODE[1]) && IsDigit(CODE[2]) && IsDigit(CODE[3]);
  }

  lemma CodeIsOne()
    ensures Interests.Codes(CODE) == [CODE]
  {
    hide AllDigits;
    CodeIsDigits();
    assert Interests.Codes(CODE[4..]) == [];
  }

  /** `CALL` or `CALL:YYYY`. */
  function KeyText(call: Bytes, vintage: Option<nat>): Bytes {
    call + (if vintage.Some? then [COLON] + Decimal(vintage.value) else [])
  }

  function FieldsText(fields: seq<(Byte, Bytes)>): Bytes {
    if fields == [] then [] else [fields[0].0] + fields[0].1 + FieldsText(fields[1..])
  }

  function RecordBytes(call: Bytes, vintage: Option<nat>, fields: seq<(Byte, Bytes)>): Bytes {
    [MARK] + KeyText(call, vintage) + FieldsText(fields)
  }

  predicate PrintableCall(call: Bytes) { 1 <= |call| <= 12 && AllCallBytes(call) }

  predicate PrintableFields(fields: seq<(Byte, Bytes)>) {
    forall i | 0 <= i < |fields| ::
      && IsTag(fields[i].0)
      && fields[i].1 != [] && AllPrintable(fields[i].1) && Trimmed(fields[i].1, {SPACE})
  }

  /** The tags applied from first to last. */
  function AppliedTags(s: Snapshot, fields: seq<(Byte, Bytes)>): Snapshot
    decreases |fields|
  {
    if fields == [] then s
    else AppliedTags(ApplyTag(s, fields[0].0, fields[0].1), fields[1..])
  }

  /** The last value given for a field. */
  function LastValue(fields: seq<(Byte, Bytes)>, f: Field): Option<Bytes> {
    if fields == [] then None
    else if LastValue(fields[1..], f).Some? then LastValue(fields[1..], f)
    else if FieldOf(fields[0].0) == Some(f) then Some(fields[0].1)
    else None
  }

  lemma {:induction false} LastValueWins(s: Snapshot, fields: seq<(Byte, Bytes)>, f: Field)
    ensures Get(AppliedTags(s, fields).text, f)
            == if LastValue(fields, f).Some? then LastValue(fields, f) else Get(s.text, f)
    decreases |fields|
  {
    hide FieldOf;
    if fields != [] {
      LastValueWins(ApplyTag(s, fields[0].0, fields[0].1), fields[1..], f);
    }
  }

  /** The last value given for a tag that no field stands for. */
  function LastRaw(fields: seq<(Byte, Bytes)>, tag: Byte): Option<Bytes> {
    if fields == [] then None
    else if LastRaw(fields[1..], tag).Some? then LastRaw(fields[1..], tag)
    else if fields[0].0 == tag && FieldOf(tag).None? then Some(fields[0].1)
    else None
  }

  /** Tags without a field are not dropped: each keeps its last value. */
  lemma {:induction false} LastRawWins(s: Snapshot, fields: seq<(Byte, Bytes)>, tag: Byte)
    ensures LastRaw(fields, tag).Some? ==> tag in AppliedTags(s, fields).rawTags
                                           && AppliedTags(s, fields).rawTags[tag] == LastRaw(fields, tag).value
    ensures LastRaw(fields, tag).None? ==>
              (tag in AppliedTags(s, fields).rawTags <==> tag in s.rawTags)
              && (tag in s.rawTags ==> AppliedTags(s, fields).rawTags[tag] == s.rawTags[tag])
    decreases |fields|
  {
    hide FieldOf;
    if fields != [] {
      LastRawWins(ApplyTag(s, fields[0].0, fields[0].1), fields[1..], tag);
    }
  }

  lemma {:induction false} ValueEndUnique(body: Bytes, i: nat, n: nat)
    requires i <= n <= |body|
    requires forall k | i <= k < n :: !IsMarkOrTag(body[k])
    requires n < |body| ==> IsMarkOrTag(body[n])
    ensures ValueEnd(body, i) == n
  {
  }

  lemma CleanIsIdentity(s: Bytes)
    requires AllPrintable(s) && Trimmed(s, {SPACE})
    ensures CleanAscii(s) == Some(s)
  {
    if s != [] {
      assert IsPrintable(s[0]) && IsPrintable(s[|s| - 1]);
    }
    TrimIdentity(s, BLANK);
  }

  /** One tagged value in the middle of a body is read back and the reader stops behind it. */
  lemma OneField(head: Bytes, tag: Byte, value: Bytes, tail: Bytes)
    requires IsTag(tag) && AllPrintable(value) && Trimmed(value, {SPACE})
    requires tail != [] ==> IsTag(tail[0])
    ensures var body, i := head + [tag] + value + tail, |head|;
            && body[i] == tag
            && ValueEnd(body, i + 1) == i + 1 + |value|
            && body[i + 1..i + 1 + |value|] == value
            && CleanAscii(value) == Some(value)
  {
    hide CleanAscii;
    var body, i := head + [tag] + value + tail, |head|;
    forall k | i + 1 <= k < i + 1 + |value| ensures !IsMarkOrTag(body[k]) {
      assert body[k] == value[k - i - 1] && IsPrintable(value[k - i - 1]);
    }
    ValueEndUnique(body, i + 1, i + 1 + |value|);
    CleanIsIdentity(value);
  }

  lemma {:induction false} FieldsRoundTrip(s: Snapshot, head: Bytes, fields: seq<(Byte, Bytes)>)
    requires PrintableFields(fields)
    ensures ApplyFields(s, head + FieldsText(fields), |head|) == AppliedTags(s, fields)
    decreases |fields|
  {
    hide ApplyTag, CleanAscii;
    if fields != [] {
      var (tag, value) := fields[0];
      var rest := fields[1..];
      var next := head + [tag] + value;
      assert head + FieldsText(fields) == next + FieldsText(rest);
      assert rest != [] ==> IsTag(rest[0].0);
      OneField(head, tag, value, FieldsText(rest));
      FieldsRoundTrip(ApplyTag(s, tag, value), next, rest);
    }
  }

  lemma PrintableJoin(a: Bytes, b: Bytes)
    requires AllPrintable(a) && AllPrintable(b)
    ensures AllPrintable(a + b)
  {
  }

  lemma CallPrintable(call: Bytes)
    requires AllCallBytes(call)
    ensures AllPrintable(call) && COLON !in call && SPACE !in call
  {
  }

  lemma DigitsPrintable(s: Bytes)
    requires AllDigits(s)
    ensures AllPrintable(s) && SPACE !in s
  {
  }

  lemma ColonPrintable()
    ensures AllPrintable([COLON])
  {
  }

  lemma KeyTextShape(call: Bytes, vintage: Option<nat>)
    requires PrintableCall(call)
    ensures var key := KeyText(call, vintage);
            && key != [] && key[0] != COLON && AllPrintable(key) && Trimmed(key, {SPACE})
            && Before(key, COLON) == call && IndexOf(key, COLON) == |call|
  {
    hide AllPrintable, IsPrintable, IsCallByte, Decimal;
    CallPrintable(call);
    if vintage.Some? {
      var digits := Decimal(vintage.value);
      DigitsPrintable(digits);
      ColonPrintable();
      PrintableJoin([COLON], digits);
      PrintableJoin(call, [COLON] + digits);
      BeforeOfJoin(call, COLON, [COLON] + digits);
    } else {
      assert KeyText(call, vintage) == call;
      BeforeOfJoin(call, COLON, []);
      assert call + [] == call;
    }
  }

  lemma KeyTextSplits(call: Bytes, vintage: Option<nat>)
    requires PrintableCall(call)
    requires vintage.Some? ==> vintage.value <= 65535
    ensures LooksLikeKey(KeyText(call, vintage))
    ensures SplitKey(KeyText(call, vintage)) == Some((call, vintage))
  {
    hide AllPrintable, Decimal, DecimalValue;
    var key := KeyText(call, vintage);
    KeyTextShape(call, vintage);
    if vintage.Some? {
      var digits := Decimal(vintage.value);
      assert key[|call|] == COLON && key[|call| + 1..] == digits;
      assert IsDigit(digits[0]);
      DecimalRoundTrip(vintage.value);
    } else {
      CallPrintable(call);
      assert key == call;
    }
  }

  lemma PrintedBody(key: Bytes, fields: seq<(Byte, Bytes)>)
    requires AllPrintable(key) && PrintableFields(fields)
    ensures KeyEnd(key + FieldsText(fields)) == |key|
  {
    var body := key + FieldsText(fields);
    assert fields != [] ==> IsTag(fields[0].0);
    forall i | 0 <= i < |key| ensures !IsTag(body[i]) {
      assert body[i] == key[i] && IsPrintable(key[i]);
    }
    FirstTagUnique(body, 0, |key|);
  }

  /** Parsing undoes printing: a printed record comes back with its call, its vintage and, for each
      field, the last value printed for it, before country and interest data are attached. */
  lemma PrintedRecordParses(call: Bytes, vintage: Option<nat>, fields: seq<(Byte, Bytes)>, ctx: Context)
    requires PrintableCall(call) && PrintableFields(fields)
    requires vintage.Some? ==> vintage.value <= 65535
    ensures ParsedSegment(RecordBytes(call, vintage, fields), ctx)
            == Some(Enrich(AppliedTags(NewSnapshot(call, vintage, ctx.source), fields), ctx))
  {
    hide Enrich, LooksLikeKey, SplitKey, KeyText, FieldsText, CleanAscii, ApplyFields, PrintableFields;
    var key := KeyText(call, vintage);
    var body := key + FieldsText(fields);
    assert Body(RecordBytes(call, vintage, fields)) == body;
    KeyTextShape(call, vintage);
    KeyTextSplits(call, vintage);
    PrintedBody(key, fields);
    assert body[..|key|] == key;
    CleanIsIdentity(key);
    FieldsRoundTrip(NewSnapshot(call, vintage, ctx.source), key, fields);
  }

  lemma {:induction false} FieldsHaveNoMark(fields: seq<(Byte, Bytes)>)
    requires PrintableFields(fields)
    ensures forall k | 0 <= k < |FieldsText(fields)| :: FieldsText(fields)[k] != MARK
  {
    if fields != [] {
      FieldsHaveNoMark(fields[1..]);
      var (tag, value) := fields[0];
      assert IsTag(tag);
      assert forall k | 0 <= k < |value| :: IsPrintable(value[k]);
    }
  }

  /** A printed record is a single segment, so a file of printed records is parsed record by record. */
  lemma PrintedRecordFollows(call: Bytes, vintage: Option<nat>, fields: seq<(Byte, Bytes)>, rest: Bytes, ctx: Context)
    requires PrintableCall(call) && PrintableFields(fields)
    requires vintage.Some? ==> vintage.value <= 65535
    requires rest != [] ==> rest[0] == MARK
    ensures Parsed(Segments(RecordBytes(call, vintage, fields) + rest), ctx)
            == [Enrich(AppliedTags(NewSnapshot(call, vintage, ctx.source), fields), ctx)] + Parsed(Segments(rest), ctx)
  {
    hide ParsedSegment, Enrich, RecordBytes, SegmentsFrom, Parsed;
    var r := RecordBytes(call, vintage, fields);
    NoMarkInside(call, vintage, fields);
    NextMarkUnique(r + rest, 1, |r|);
    SegmentsStep(r + rest, 0);
    assert (r + rest)[0..|r|] == r;
    SegmentsShift(r + rest, rest, |r|, 0);
    PrintedRecordParses(call, vintage, fields, ctx);
    ParsedCons(r, Segments(rest), ctx);
  }

  lemma NoMarkInside(call: Bytes, vintage: Option<nat>, fields: seq<(Byte, Bytes)>)
    requires PrintableCall(call) && PrintableFields(fields)
    ensures RecordBytes(call, vintage, fields) != []
    ensures forall k | 1 <= k < |RecordBytes(call, vintage, fields)| :: RecordBytes(call, vintage, fields)[k] != MARK
  {
    hide KeyText, FieldsText, PrintableFields;
    var key, text := KeyText(call, vintage), FieldsText(fields);
    KeyTextShape(call, vintage);
    FieldsHaveNoMark(fields);
    var r := RecordBytes(call, vintage, fields);
    forall k | 1 <= k < |r| ensures r[k] != MARK {
      if k <= |key| {
        assert r[k] == key[k - 1] && IsPrintable(key[k - 1]);
      } else {
        assert r[k] == text[k - 1 - |key|];
      }
    }
  }

  lemma {:induction false} NextMarkShift(e: Bytes, d: Bytes, m: nat, from: nat)
    requires |e| == m + |d| && forall k | 0 <= k < |d| :: e[m + k] == d[k]
    requires from <= |d|
    ensures NextMark(e, m + from) == m + NextMark(d, from)
    decreases |d| - from
  {
    if from < |d| {
      assert e[m + from] == d[from];
      if d[from] != MARK {
        NextMarkShift(e, d, m, from + 1);
      }
    }
  }

  /** Segments do not depend on what lies before them. */
  lemma {:induction false} SegmentsShift(e: Bytes, d: Bytes, m: nat, start: nat)
    requires |e| == m + |d| && forall k | 0 <= k < |d| :: e[m + k] == d[k]
    requires start <= |d|
    ensures SegmentsFrom(e, m + start) == SegmentsFrom(d, start)
    decreases |d| - start
  {
    hide NextMark, SegmentsFrom, CompleteFrom;
    SegmentsStep(d, start);
    SegmentsStep(e, m + start);
    if start < |d| {
      var next := NextMark(d, start + 1);
      NextMarkShift(e, d, m, start + 1);
      SameSlice(e, d, m, start, next);
      SegmentsShift(e, d, m, next);
    }
  }

  lemma SameSlice(e: Bytes, d: Bytes, m: nat, lo: nat, hi: nat)
    requires |e| == m + |d| && forall k | 0 <= k < |d| :: e[m + k] == d[k]
    requires lo <= hi <= |d|
    ensures e[m + lo..m + hi] == d[lo..hi]
  {
    forall k | 0 <= k < hi - lo ensures e[m + lo..m + hi][k] == d[lo..hi][k] {
      assert e[m + (lo + k)] == d[lo + k];
    }
  }
}
