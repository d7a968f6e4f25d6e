/** The streaming search and the record parser read interest codes alike. */
module InterestAgreement {
  import opened Ascii
  import opened Snapshots
  import opened Records
  import opened RecordText
  import opened InterestSearch
  import opened Publication
  import opened Utf8
  import Callsigns
  import Cipher
  import Framing
  import Interests

  // ---- a record as a key and raw fields ------------------------------------------------

  predicate NoMarkOrTag(s: Bytes) { forall i | 0 <= i < |s| :: !IsMarkOrTag(s[i]) }

  predicate RawFieldsOnly(fields: seq<(Byte, Bytes)>) {
    forall i | 0 <= i < |fields| :: IsTag(fields[i].0) && NoMarkOrTag(fields[i].1)
  }

  /** The tagged values of `body` from `i` on, as they stand. */
  function RawFields(body: Bytes, i: nat): (fields: seq<(Byte, Bytes)>)
    requires i <= |body|
    ensures RawFieldsOnly(fields)
    decreases |body| - i
  {
    if i == |body| then []
    else if !IsTag(body[i]) then RawFields(body, i + 1)
    else
      var end := ValueEnd(body, i + 1);
      [(body[i], body[i + 1..end])] + RawFields(body, end)
  }

  /** The fields the parser applies: those that clean to non-empty text. */
  function CleanFields(fields: seq<(Byte, Bytes)>): seq<(Byte, Bytes)> {
    if fields == [] then []
    else
      var value := CleanAscii(fields[0].1);
      (if value.Some? && value.value != [] then [(fields[0].0, value.value)] else []) + CleanFields(fields[1..])
  }

  /** A record is its key followed by its fields: nothing else is in it. */
  lemma {:induction false} RecordIsFields(body: Bytes, i: nat)
    requires i <= |body| && (i < |body| ==> IsTag(body[i])) && forall k | i <= k < |body| :: body[k] != MARK
    ensures FieldsText(RawFields(body, i)) == body[i..]
    decreases |body| - i
  {
    hide IsTag, IsMarkOrTag, FieldsText;
    MarkOrTag();
    if i == |body| {
      NothingGiven();
    } else {
      var end := ValueEnd(body, i + 1);
      RecordIsFields(body, end);
      TextCons(body[i], body[i + 1..end], RawFields(body, end));
      assert body[i..] == [body[i]] + body[i + 1..end] + body[end..];
    }
  }

  lemma TextCons(tag: Byte, value: Bytes, rest: seq<(Byte, Bytes)>)
    ensures FieldsText([(tag, value)] + rest) == [tag] + value + FieldsText(rest)
  {
    assert ([(tag, value)] + rest)[1..] == rest;
  }

  lemma AppliedCons(s: Snapshot, tag: Byte, value: Bytes, rest: seq<(Byte, Bytes)>)
    ensures AppliedTags(s, [(tag, value)] + rest) == AppliedTags(ApplyTag(s, tag, value), rest)
  {
    assert ([(tag, value)] + rest)[1..] == rest;
  }

  lemma CleanCons(tag: Byte, value: Bytes, rest: seq<(Byte, Bytes)>)
    ensures CleanFields([(tag, value)] + rest)
            == (if CleanAscii(value).Some? && CleanAscii(value).value != []
                then [(tag, CleanAscii(value).value)] else [])
               + CleanFields(rest)
  {
    assert ([(tag, value)] + rest)[1..] == rest;
  }

  /** The parser applies exactly the fields that clean to non-empty text. */
  lemma {:induction false} ParserApplies(s: Snapshot, body: Bytes, i: nat)
    requires i <= |body|
    ensures ApplyFields(s, body, i) == AppliedTags(s, CleanFields(RawFields(body, i)))
    decreases |body| - i
  {
    hide ApplyTag, CleanAscii, CleanFields, AppliedTags;
    if i == |body| {
      NothingApplied(s);
    } else if !IsTag(body[i]) {
      ParserApplies(s, body, i + 1);
    } else {
      var end := ValueEnd(body, i + 1);
      var raw := body[i + 1..end];
      var value := CleanAscii(raw);
      var rest := RawFields(body, end);
      CleanCons(body[i], raw, rest);
      if value.Some? && value.value != [] {
        ParserApplies(ApplyTag(s, body[i], value.value), body, end);
        AppliedCons(s, body[i], value.value, CleanFields(rest));
      } else {
        ParserApplies(s, body, end);
        assert [] + CleanFields(rest) == CleanFields(rest);
      }
    }
  }

  lemma NothingApplied(s: Snapshot)
    ensures AppliedTags(s, CleanFields([])) == s
  {
  }

  // ---- what the scanner has seen of a record ---------------------------------------------

  lemma ReadByte(r: Bytes, b: Byte)
    requires r != [] && LastTag(r) > 0 && FirstTag(r, 1) < |r| && !IsMarkOrTag(b)
    ensures var s := r + [b];
            && FirstTag(s, 1) < |s| && KeyPart(s) == KeyPart(r) && LastTag(s) == LastTag(r)
            && InterestPart(s) == if r[LastTag(r)] == INTEREST_TAG then InterestPart(r) + [b] else InterestPart(r)
  {
    hide FirstTag, LastTag, KeyPart, InterestPart;
    NextByte(r, b);
  }

  /** Behind a tag, plain bytes extend the interest value when that tag is the interest tag,
      and change nothing else. */
  lemma {:induction false} ReadValue(r: Bytes, value: Bytes)
    requires r != [] && LastTag(r) > 0 && FirstTag(r, 1) < |r| && NoMarkOrTag(value)
    ensures var s := r + value;
            && KeyPart(s) == KeyPart(r)
            && InterestPart(s) == if r[LastTag(r)] == INTEREST_TAG then InterestPart(r) + value else InterestPart(r)
    decreases |value|
  {
    hide FirstTag, LastTag, KeyPart, InterestPart, IsMarkOrTag;
    if value == [] {
      assert r + value == r && InterestPart(r) + value == InterestPart(r);
    } else {
      var b, rest := value[0], value[1..];
      ReadByte(r, b);
      ReadValue(r + [b], rest);
      assert r + value == (r + [b]) + rest;
      assert (r + [b])[LastTag(r)] == r[LastTag(r)];
      assert (InterestPart(r) + [b]) + rest == InterestPart(r) + value;
    }
  }

  /** One tagged value: an interest field replaces the interest value, any other leaves it. */
  lemma ReadField(r: Bytes, tag: Byte, value: Bytes)
    requires r != [] && IsTag(tag) && NoMarkOrTag(value)
    ensures var s := r + [tag] + value;
            && KeyPart(s) == KeyPart(r)
            && InterestPart(s) == if tag == INTEREST_TAG then value else InterestPart(r)
  {
    hide FirstTag, LastTag, KeyPart, InterestPart, NoMarkOrTag;
    NextByte(r, tag);
    ReadValue(r + [tag], value);
    assert (r + [tag])[|r|] == tag;
    assert [] + value == value;
  }

  lemma {:induction false} FieldsSnoc(fields: seq<(Byte, Bytes)>, tag: Byte, value: Bytes)
    ensures FieldsText(fields + [(tag, value)]) == FieldsText(fields) + [tag] + value
    decreases |fields|
  {
    hide FieldsText;
    var more := fields + [(tag, value)];
    NothingGiven();
    if fields == [] {
      assert more == [(tag, value)] + [];
      TextCons(tag, value, []);
    } else {
      var (t, v) := fields[0];
      FieldsSnoc(fields[1..], tag, value);
      assert fields == [(t, v)] + fields[1..] && more == [(t, v)] + (fields[1..] + [(tag, value)]);
      TextCons(t, v, fields[1..]);
      TextCons(t, v, fields[1..] + [(tag, value)]);
    }
  }

  lemma {:induction false} LastValueSnoc(fields: seq<(Byte, Bytes)>, tag: Byte, value: Bytes, f: Field)
    ensures LastValue(fields + [(tag, value)], f)
            == if FieldOf(tag) == Some(f) then Some(value) else LastValue(fields, f)
    decreases |fields|
  {
    hide FieldOf;
    var more := fields + [(tag, value)];
    if fields == [] {
      assert more[1..] == [];
    } else {
      LastValueSnoc(fields[1..], tag, value, f);
      assert more[1..] == fields[1..] + [(tag, value)];
    }
  }

  lemma InterestTagOnly(tag: Byte)
    ensures FieldOf(tag) == Some(InterestCodesRaw) <==> tag == INTEREST_TAG
  {
  }

  function InterestValue(fields: seq<(Byte, Bytes)>): Bytes {
    if LastValue(fields, InterestCodesRaw).Some? then LastValue(fields, InterestCodesRaw).value else []
  }

  lemma BareKey(key: Bytes)
    requires NoMarkOrTag(key)
    ensures KeyPart([MARK] + key) == key && InterestPart([MARK] + key) == []
  {
    var r := [MARK] + key;
    forall k | 1 <= k < |r| ensures !IsTag(r[k]) && r[k] != INTEREST_TAG {
      assert r[k] == key[k - 1] && !IsMarkOrTag(key[k - 1]);
    }
    FirstTagUnique(r, 1, |r|);
  }

  /** On any record the scanner holds its key and the value of its last interest field, as they stand. */
  lemma {:induction false} ScannerReads(key: Bytes, fields: seq<(Byte, Bytes)>)
    requires NoMarkOrTag(key) && RawFieldsOnly(fields)
    ensures var r := [MARK] + key + FieldsText(fields);
            KeyPart(r) == key && InterestPart(r) == InterestValue(fields)
    decreases |fields|
  {
    hide FieldsText, LastValue, KeyPart, InterestPart, FieldOf, NoMarkOrTag;
    if fields == [] {
      BareKey(key);
      NothingGiven();
      assert [MARK] + key + [] == [MARK] + key;
    } else {
      var init := fields[..|fields| - 1];
      var (tag, value) := fields[|fields| - 1];
      ScannerReads(key, init);
      assert fields == init + [(tag, value)];
      FieldsSnoc(init, tag, value);
      LastValueSnoc(init, tag, value, InterestCodesRaw);
      InterestTagOnly(tag);
      var r := [MARK] + key + FieldsText(init);
      ReadField(r, tag, value);
      assert [MARK] + key + FieldsText(fields) == r + [tag] + value;
    }
  }

  lemma NothingGiven()
    ensures InterestValue([]) == [] && FieldsText([]) == []
  {
  }

  lemma KeyIsTrimmed(key: Bytes)
    requires AllPrintable(key) && Trimmed(key, {SPACE})
    ensures Trim(key, BLANK) == key
  {
    CleanIsIdentity(key);
  }

  lemma {:induction false} ValueIsPrinted(fields: seq<(Byte, Bytes)>, f: Field)
    requires PrintableFields(fields) && LastValue(fields, f).Some?
    ensures AllPrintable(LastValue(fields, f).value) && Trimmed(LastValue(fields, f).value, {SPACE})
    decreases |fields|
  {
    hide FieldOf, AllPrintable, Trimmed;
    if LastValue(fields[1..], f).Some? {
      ValueIsPrinted(fields[1..], f);
    }
  }

  lemma {:induction false} TagsKeepCodes(s: Snapshot, fields: seq<(Byte, Bytes)>)
    ensures AppliedTags(s, fields).interestCodes == s.interestCodes
    decreases |fields|
  {
    hide FieldOf;
    if fields != [] {
      TagsKeepCodes(ApplyTag(s, fields[0].0, fields[0].1), fields[1..]);
    }
  }

  lemma CountryKeepsInterests(s: Snapshot, ctx: Context)
    ensures var t := ApplyCountry(s, ctx.countries);
            t.interestCodes == s.interestCodes && Get(t.text, InterestCodesRaw) == Get(s.text, InterestCodesRaw)
  {
  }

  // ---- search and parser on any record ------------------------------------------------------

  function KeyOfRecord(r: Bytes): Bytes
    requires IsFramed(r)
  {
    r[1..][..KeyEnd(r[1..])]
  }

  function FieldsOfRecord(r: Bytes): (fields: seq<(Byte, Bytes)>)
    requires IsFramed(r)
    ensures RawFieldsOnly(fields)
  {
    RawFields(r[1..], KeyEnd(r[1..]))
  }

  lemma BodyHasNoMark(r: Bytes)
    requires IsFramed(r)
    ensures forall k | 0 <= k < |r[1..]| :: r[1..][k] != MARK
  {
    forall k | 0 <= k < |r[1..]| ensures r[1..][k] != MARK {
      assert r[1..][k] == r[k + 1];
    }
  }

  lemma KeyIsPlain(r: Bytes)
    requires IsFramed(r)
    ensures NoMarkOrTag(KeyOfRecord(r))
  {
    hide FirstTag, IsTag, IsMarkOrTag, IsFramed;
    BodyHasNoMark(r);
    MarkOrTag();
  }

  lemma RecordSplits(r: Bytes)
    requires IsFramed(r)
    ensures NoMarkOrTag(KeyOfRecord(r))
    ensures r == [MARK] + KeyOfRecord(r) + FieldsText(FieldsOfRecord(r))
  {
    hide FieldsText, RawFields, IsTag, NoMarkOrTag, FirstTag;
    var body := r[1..];
    KeyIsPlain(r);
    BodyHasNoMark(r);
    RecordIsFields(body, KeyEnd(body));
    assert body == body[..KeyEnd(body)] + body[KeyEnd(body)..];
    assert r == [MARK] + body;
  }

  lemma MarkOrTag()
    ensures forall b: Byte :: IsMarkOrTag(b) <==> b == MARK || IsTag(b)
  {
  }

  /** The scanner's match for a record and a code, from the record's own key and last interest field. */
  lemma HitReads(r: Bytes, target: Bytes)
    requires IsFramed(r)
    ensures Hit(r, target)
            == if target in CodesRead(InterestValue(FieldsOfRecord(r))) then RecordKey(KeyOfRecord(r)) else None
  {
    hide RecordKey, KeyPart, InterestPart, CodesRead, FieldsText, FieldsOfRecord, InterestValue, KeyOfRecord;
    RecordSplits(r);
    ScannerReads(KeyOfRecord(r), FieldsOfRecord(r));
  }

  /** The codes the parser attaches are those of the last interest field that cleans to non-empty text. */
  lemma ParserReads(r: Bytes, ctx: Context)
    requires IsFramed(r) && ParsedSegment(r, ctx).Some?
    ensures ParsedSegment(r, ctx).value.interestCodes == Interests.Codes(InterestValue(CleanFields(FieldsOfRecord(r))))
  {
    hide AppliedTags, LastValue, ApplyCountry, Interests.ResolveRaw, FullKey, LooksLikeKey, SplitKey, CleanFields,
      RawFields;
    var body := r[1..];
    var parts := SplitKey(FullKey(body, ctx.defaultKey).value).value;
    var bare := NewSnapshot(parts.0, parts.1, ctx.source);
    var fields := CleanFields(FieldsOfRecord(r));
    ParserApplies(bare, body, KeyEnd(body));
    var s := AppliedTags(bare, fields);
    TagsKeepCodes(bare, fields);
    LastValueWins(bare, fields, InterestCodesRaw);
    CountryKeepsInterests(s, ctx);
  }

  /** A record that parses under its own key is found under the call and vintage it parses to. */
  lemma SameKeyRead(r: Bytes, ctx: Context)
    requires IsFramed(r) && ParsedSegment(r, ctx).Some? && !SuffixKey(r)
    ensures var s := ParsedSegment(r, ctx).value; RecordKey(KeyOfRecord(r)) == Some(Match(s.callsign, s.vintage))
  {
    hide Before, IndexOf, ParseUnsigned, Trim, Callsigns.Normalize, Enrich, ApplyFields, RecordKey;
    ParsedCall(r, ctx);
    RecordKeyIsRaw(KeyOfRecord(r));
    var key := Trim(KeyOfRecord(r), BLANK);
    var s := ParsedSegment(r, ctx).value;
    assert FullKey(Body(r), ctx.defaultKey) == Some(key);
    if COLON !in key {
      NoColonBefore(key);
    }
    Callsigns.NormalizeFixpoint(s.callsign);
  }

  /** A suffix record is never found: on its own its key names no call. */
  lemma SuffixKeyUnsearched(r: Bytes, target: Bytes)
    requires IsFramed(r) && SuffixKey(r)
    ensures Hit(r, target) == None
  {
    hide Trim, CodesRead, InterestValue, FieldsOfRecord, ParseUnsigned, RecordKey;
    HitReads(r, target);
    RecordKeyIsRaw(KeyOfRecord(r));
    var key := Trim(KeyOfRecord(r), BLANK);
    assert IndexOf(key, COLON) == 0;
    NothingNormal(Before(key, COLON));
  }

  lemma NothingNormal(s: Bytes)
    requires s == []
    ensures Callsigns.Normalize(s) == None
  {
  }

  predicate SameCodes(a: seq<Bytes>, b: seq<Bytes>) {
    (forall i | 0 <= i < |a| :: a[i] in b) && (forall i | 0 <= i < |b| :: b[i] in a)
  }

  /** There is no interest field, or the last one cleans to non-empty text; failing that, the bytes the
      scanner keeps happen to spell the codes of the last field that does. */
  predicate SearchAgrees(fields: seq<(Byte, Bytes)>) {
    || LastValue(fields, InterestCodesRaw).None?
    || (var v := CleanAscii(InterestValue(fields)); v.Some? && v.value != [])
    || SameCodes(CodesRead(InterestValue(fields)), Interests.Codes(InterestValue(CleanFields(fields))))
  }

  lemma {:induction false} CleanLast(fields: seq<(Byte, Bytes)>, f: Field)
    ensures LastValue(fields, f).None? ==> LastValue(CleanFields(fields), f).None?
    ensures LastValue(fields, f).Some? ==>
              var v := CleanAscii(LastValue(fields, f).value);
              v.Some? && v.value != [] ==> LastValue(CleanFields(fields), f) == v
    decreases |fields|
  {
    hide FieldOf, CleanAscii;
    if fields != [] {
      CleanLast(fields[1..], f);
      var value := CleanAscii(fields[0].1);
      var rest := CleanFields(fields[1..]);
      if value.Some? && value.value != [] {
        assert ([(fields[0].0, value.value)] + rest)[1..] == rest;
      } else {
        assert CleanFields(fields) == rest;
      }
    }
  }

  /** A record with a clean last interest field, or none, has the same codes for both readers. */
  lemma CleanCodes(fields: seq<(Byte, Bytes)>)
    requires LastValue(fields, InterestCodesRaw).None?
             || (CleanAscii(InterestValue(fields)).Some? && CleanAscii(InterestValue(fields)).value != [])
    ensures TrimmedText(InterestValue(fields)) == InterestValue(CleanFields(fields))
  {
    hide LastValue, CleanFields, Trim, AllPrintable, Lossy;
    CleanLast(fields, InterestCodesRaw);
    if LastValue(fields, InterestCodesRaw).None? {
      NothingTrimmed();
    } else {
      PrintableStays(Trim(InterestValue(fields), BLANK));
    }
  }

  lemma PrintableStays(s: Bytes)
    requires AllPrintable(s)
    ensures Lossy(s) == s
  {
    forall i | 0 <= i < |s| ensures s[i] < 0x80 {
      assert IsPrintable(s[i]);
    }
    AsciiStays(s);
  }

  /** Search and parser agree on a record: the scanner reports its call and vintage for exactly the codes
      that the parsed snapshot carries. */
  ghost predicate Agree(r: Bytes, s: Snapshot)
    requires IsFramed(r)
  {
    forall target :: Hit(r, target) == if target in s.interestCodes then Some(Match(s.callsign, s.vintage)) else None
  }

  /** Over all framed records that parse under their own key, the two agree if and only if the last interest
      field is absent, cleans to non-empty text, or spells the same codes anyway. */
  lemma SearchAgreesExactly(r: Bytes, ctx: Context)
    requires IsFramed(r) && ParsedSegment(r, ctx).Some? && !SuffixKey(r)
    ensures Agree(r, ParsedSegment(r, ctx).value) <==> SearchAgrees(FieldsOfRecord(r))
  {
    hide ParsedSegment, Hit, RecordKey, Interests.Codes, InterestValue, FieldsOfRecord, KeyOfRecord, CleanFields,
      TrimmedText, LastValue, CleanAscii, SuffixKey;
    var s, fields := ParsedSegment(r, ctx).value, FieldsOfRecord(r);
    var found, parsed := CodesRead(InterestValue(fields)), Interests.Codes(InterestValue(CleanFields(fields)));
    SameKeyRead(r, ctx);
    ParserReads(r, ctx);
    forall target ensures Hit(r, target) == if target in found then Some(Match(s.callsign, s.vintage)) else None {
      HitReads(r, target);
    }
    if SearchAgrees(fields) && !SameCodes(found, parsed) {
      CleanCodes(fields);
    }
    if Agree(r, s) {
      forall i | 0 <= i < |found| ensures found[i] in parsed {
        assert Hit(r, found[i]).Some?;
      }
      forall i | 0 <= i < |parsed| ensures parsed[i] in found {
        assert Hit(r, parsed[i]).Some?;
      }
    }
  }

  /** What the scanner reports and the parser refuses: exactly the calls that are not 1 to 12 upper-case
      callsign bytes as they stand. */
  lemma RefusedExactly(r: Bytes, ctx: Context)
    requires IsFramed(r) && RecordKey(KeyOfRecord(r)).Some?
    ensures ParsedSegment(r, ctx).Some? <==> LooksLikeKey(RecordKey(KeyOfRecord(r)).value.callsign)
  {
    hide Enrich, ApplyFields, Trim, ParseUnsigned, Callsigns.Normalize, IndexOf, RecordKey;
    RecordKeyIsRaw(KeyOfRecord(r));
    var key := Trim(KeyOfRecord(r), BLANK);
    var call := Before(key, COLON);
    NothingNormal([]);
    if COLON !in key {
      NoColonBefore(key);
    }
    NoColonBefore(call);
    if LooksLikeKey(call) {
      CallThenYear(key);
    }
  }

  lemma NumberPrintable(s: Bytes, limit: nat)
    requires ParseUnsigned(s, limit).Some?
    ensures AllPrintable(s)
  {
    hide DecimalValue;
    if |s| > 1 && s[0] == PLUS {
      DigitsPrintable(s[1..]);
      assert s == [PLUS] + s[1..];
    } else {
      DigitsPrintable(s);
    }
  }

  lemma PrintableParts(call: Bytes, year: Bytes)
    requires AllPrintable(call) && AllPrintable(year)
    ensures AllPrintable(call + ([COLON] + year))
  {
    hide AllPrintable;
    ColonPrintable();
    PrintableJoin([COLON], year);
    PrintableJoin(call, [COLON] + year);
  }

  /** A call of callsign bytes followed by nothing or by a colon and a number is printable text. */
  lemma CallThenYear(key: Bytes)
    requires COLON in key ==> ParseUnsigned(key[IndexOf(key, COLON) + 1..], 65535).Some?
    requires AllCallBytes(Before(key, COLON)) && Before(key, COLON) != []
    ensures AllPrintable(key) && key != [] && key[0] != COLON
  {
    hide ParseUnsigned, AllPrintable, AllCallBytes, IndexOf;
    var n, call := IndexOf(key, COLON), Before(key, COLON);
    CallPrintable(call);
    if n < |key| {
      NumberPrintable(key[n + 1..], 65535);
      PrintableParts(call, key[n + 1..]);
      SplitAt(key, n);
    } else {
      assert key == call;
    }
  }

  lemma SplitAt(key: Bytes, n: nat)
    requires n < |key|
    ensures key == key[..n] + ([key[n]] + key[n + 1..])
  {
  }

  // ---- printed records, and files -----------------------------------------------------------------

  lemma PrintedKeyIsRecordKey(call: Bytes, vintage: Option<nat>)
    requires PrintableCall(call) && (vintage.Some? ==> vintage.value <= 65535)
    ensures RecordKey(KeyText(call, vintage)) == Some(Match(call, vintage))
  {
    hide KeyText, Before, IndexOf, ParseUnsigned, Trim, Callsigns.Normalize, RecordKey;
    var key := KeyText(call, vintage);
    RecordKeyIsRaw(key);
    KeyTextShape(call, vintage);
    KeyTextSplits(call, vintage);
    Callsigns.NormalizeFixpoint(call);
    KeyIsTrimmed(key);
    if COLON !in key {
      NoColonBefore(key);
    }
  }

  lemma PrintedCodes(call: Bytes, vintage: Option<nat>, fields: seq<(Byte, Bytes)>, ctx: Context)
    ensures Printed(call, vintage, fields, ctx).interestCodes == Interests.Codes(InterestValue(fields))
  {
    hide AppliedTags, LastValue, ApplyCountry, Interests.ResolveRaw;
    var bare := NewSnapshot(call, vintage, ctx.source);
    var s := AppliedTags(bare, fields);
    TagsKeepCodes(bare, fields);
    LastValueWins(bare, fields, InterestCodesRaw);
    CountryKeepsInterests(s, ctx);
  }

  lemma PrintedAreRaw(call: Bytes, vintage: Option<nat>, fields: seq<(Byte, Bytes)>)
    requires PrintableCall(call) && PrintableFields(fields)
    ensures NoMarkOrTag(KeyText(call, vintage)) && RawFieldsOnly(fields)
  {
    hide KeyText, PrintableCall;
    KeyTextShape(call, vintage);
    PrintableIsPlain(KeyText(call, vintage));
    forall i | 0 <= i < |fields| ensures IsTag(fields[i].0) && NoMarkOrTag(fields[i].1) {
      PrintableIsPlain(fields[i].1);
    }
  }

  lemma PrintableIsPlain(s: Bytes)
    requires AllPrintable(s)
    ensures NoMarkOrTag(s)
  {
    assert forall i | 0 <= i < |s| :: IsPrintable(s[i]);
  }

  /** Printed records meet the condition: on them search and lookup agree. */
  lemma SearchAgreesWithParser(call: Bytes, vintage: Option<nat>, fields: seq<(Byte, Bytes)>, ctx: Context,
                               target: Bytes)
    requires PrintableCall(call) && PrintableFields(fields) && (vintage.Some? ==> vintage.value <= 65535)
    ensures RecordBytes(call, vintage, fields) != []
    ensures Hit(RecordBytes(call, vintage, fields), target)
            == if target in Printed(call, vintage, fields, ctx).interestCodes then Some(Match(call, vintage)) else None
  {
    hide KeyText, FieldsText, Printed, LastValue, KeyPart, InterestPart, RecordKey, Interests.Codes, AllPrintable,
      Trimmed,
      RawFieldsOnly, NoMarkOrTag;
    PrintedAreRaw(call, vintage, fields);
    ScannerReads(KeyText(call, vintage), fields);
    PrintedKeyIsRecordKey(call, vintage);
    PrintedCodes(call, vintage, fields, ctx);
    if LastValue(fields, InterestCodesRaw).Some? {
      ValueIsPrinted(fields, InterestCodesRaw);
      KeyIsTrimmed(InterestValue(fields));
      PrintableStays(InterestValue(fields));
    } else {
      NothingTrimmed();
    }
  }

  // ---- where they disagree ---------------------------------------------------------------------

  /** `K1AA` with the code 0010, and then an empty interest field. */
  const EMPTY_LAST: Bytes := [MARK, 0x4b, 0x31, 0x41, 0x41, INTEREST_TAG, 0x30, 0x30, 0x31, 0x30, INTEREST_TAG]

  /** `k1aa` with the code 0010. */
  const LOWER_CALL: Bytes := [MARK, 0x6b, 0x31, 0x61, 0x61, INTEREST_TAG, 0x30, 0x30, 0x31, 0x30]

  /** `K1AA` with a byte that is no text in front of the code 0010. */
  const HIGH_BYTE: Bytes := [MARK, 0x4b, 0x31, 0x41, 0x41, INTEREST_TAG, 0x80, 0x30, 0x30, 0x30, 0x31, 0x30]

  lemma NothingTrimmed()
    ensures Trim([], BLANK) == [] && TrimmedText([]) == []
  {
    LossyNothing();
  }

  /** End to end: a printed record, encoded anywhere in a file, makes the scan of that file report its
      call and vintage for every code the parsed snapshot carries. */
  lemma EncodedRecordIsFound(before: Bytes, call: Bytes, vintage: Option<nat>, fields: seq<(Byte, Bytes)>, after: Bytes,
                             ctx: Context, target: Bytes)
    requires PrintableCall(call) && PrintableFields(fields) && (vintage.Some? ==> vintage.value <= 65535)
    requires after != [] ==> after[0] == MARK
    requires target in Printed(call, vintage, fields, ctx).interestCodes
    ensures var dat := Cipher.DecodeAt(0, before + RecordBytes(call, vintage, fields) + after);
            Match(call, vintage) in HitsFrom(dat, Framing.SentinelFrom(dat, 0), target)
  {
    hide RecordBytes, PrintableCall, PrintableFields, Printed, Hit, HitsFrom, Cipher.DecodeByte, Framing.IsSentinel;
    var r := RecordBytes(call, vintage, fields);
    var dat := Cipher.DecodeAt(0, before + r + after);
    EncodedRecordFramed(before, call, vintage, fields, after);
    SearchAgreesWithParser(call, vintage, fields, ctx, target);
    assert RecordHit(dat, |before|, |before| + |r|, target) == Some(Match(call, vintage));
    HitsAreRecordHits(dat, target, Match(call, vintage));
  }

  lemma EmptyLastFields()
    ensures IsFramed(EMPTY_LAST) && KeyOfRecord(EMPTY_LAST) == K1AA
    ensures FieldsOfRecord(EMPTY_LAST) == [(INTEREST_TAG, CODE), (INTEREST_TAG, [])]
  {
    var body := EMPTY_LAST[1..];
    FirstTagUnique(body, 0, 4);
    assert body[..4] == K1AA;
    ValueEndUnique(body, 5, 9);
    ValueEndUnique(body, 10, 10);
    assert body[5..9] == CODE && body[10..10] == [];
    assert RawFields(body, 10) == [];
    assert RawFields(body, 9) == [(INTEREST_TAG, [])] + RawFields(body, 10);
    assert RawFields(body, 4) == [(INTEREST_TAG, CODE)] + RawFields(body, 9);
  }

  /** An empty last field: the parser skips it and keeps the code of the one before, the scanner clears its
      value and reports nothing. */
  lemma EmptyLastDisagrees(ctx: Context)
    ensures IsFramed(EMPTY_LAST) && ParsedSegment(EMPTY_LAST, ctx).Some?
    ensures CODE in ParsedSegment(EMPTY_LAST, ctx).value.interestCodes
    ensures Hit(EMPTY_LAST, CODE) == None
  {
    hide Enrich, ApplyFields, FieldsOfRecord, KeyOfRecord, RecordKey, LastValue, CleanFields;
    EmptyLastFields();
    ShortKeyParses(EMPTY_LAST, ctx);
    ParserReads(EMPTY_LAST, ctx);
    HitReads(EMPTY_LAST, CODE);
    LastOfTwo();
    NothingTrimmed();
  }

  lemma CodeIsRead()
    ensures Interests.Codes(CODE) == [CODE]
    ensures CleanAscii(CODE) == Some(CODE) && TrimmedText(CODE) == CODE
  {
    hide AllDigits, AllPrintable, Interests.Codes, Trim, Lossy;
    CodeIsOne();
    CodeIsDigits();
    DigitsPrintable(CODE);
    assert CODE[0] != SPACE && CODE[|CODE| - 1] != SPACE;
    CleanIsIdentity(CODE);
    PrintableStays(CODE);
  }

  lemma LastInterestValue(fields: seq<(Byte, Bytes)>, value: Bytes)
    ensures InterestValue(fields + [(INTEREST_TAG, value)]) == value
  {
    hide LastValue;
    LastValueSnoc(fields, INTEREST_TAG, value, InterestCodesRaw);
  }

  lemma LastOfTwo()
    ensures InterestValue([(INTEREST_TAG, CODE), (INTEREST_TAG, [])]) == []
    ensures InterestValue(CleanFields([(INTEREST_TAG, CODE), (INTEREST_TAG, [])])) == CODE
    ensures CODE in Interests.Codes(CODE)
  {
    hide LastValue, CleanFields, InterestValue, CleanAscii, TrimmedText, Interests.Codes;
    var first: seq<(Byte, Bytes)> := [(INTEREST_TAG, CODE)];
    var last: seq<(Byte, Bytes)> := [(INTEREST_TAG, [])];
    CodeIsRead();
    LastInterestValue(first, []);
    assert first + last == [(INTEREST_TAG, CODE), (INTEREST_TAG, [])];
    CleanCons(INTEREST_TAG, CODE, last);
    CleanCons(INTEREST_TAG, [], []);
    NothingClean();
    LastInterestValue([], CODE);
    assert [] + first == first;
    assert CleanFields(first + last) == first;
  }

  lemma NothingClean()
    ensures CleanFields([]) == [] && CleanAscii([]) == Some([])
    ensures CleanFields([(INTEREST_TAG, [])]) == []
  {
    var last: seq<(Byte, Bytes)> := [(INTEREST_TAG, [])];
    assert last[1..] == [];
  }

  lemma ShortKeyParses(r: Bytes, ctx: Context)
    requires IsFramed(r) && KeyOfRecord(r) == K1AA
    ensures ParsedSegment(r, ctx).Some?
  {
    hide Enrich, ApplyFields, CleanAscii;
    assert IsPrintable(K1AA[0]) && IsPrintable(K1AA[1]) && IsPrintable(K1AA[2]) && IsPrintable(K1AA[3]);
    CleanIsIdentity(K1AA);
    NoColonBefore(K1AA);
  }

  lemma LowerFields()
    ensures IsFramed(LOWER_CALL) && KeyOfRecord(LOWER_CALL) == LOWER
    ensures FieldsOfRecord(LOWER_CALL) == [(INTEREST_TAG, CODE)]
  {
    var body := LOWER_CALL[1..];
    FirstTagUnique(body, 0, 4);
    assert body[..4] == LOWER;
    ValueEndUnique(body, 5, 9);
    assert body[5..9] == CODE;
    assert RawFields(body, 9) == [];
    assert RawFields(body, 4) == [(INTEREST_TAG, CODE)] + RawFields(body, 9);
  }

  /** A call in lower case: the scanner reports it as written, the parser refuses the record. */
  lemma LowerCallDisagrees(ctx: Context)
    ensures IsFramed(LOWER_CALL) && ParsedSegment(LOWER_CALL, ctx).None?
    ensures Hit(LOWER_CALL, CODE) == Some(Match(LOWER, None))
  {
    hide ParsedSegment, FieldsOfRecord, KeyOfRecord, LastValue, Interests.Codes, Callsigns.Normalize;
    LowerFields();
    LowerIsKey();
    RefusedExactly(LOWER_CALL, ctx);
    HitReads(LOWER_CALL, CODE);
    OneCode();
  }

  lemma LowerIsKey()
    ensures RecordKey(LOWER) == Some(Match(LOWER, None)) && !LooksLikeKey(LOWER)
  {
    hide Trim, Callsigns.Normalize, Before, ParseUnsigned, IndexOf, RecordKey;
    RecordKeyIsRaw(LOWER);
    TrimIdentity(LOWER, BLANK);
    LowerNormal();
    NoColonBefore(LOWER);
    assert !IsCallByte(LOWER[0]);
  }

  lemma LowerNormal()
    ensures Callsigns.Normalize(LOWER) == Some(K1AA)
  {
    hide Trim;
    TrimIdentity(LOWER, WHITESPACE);
    assert Upper(LOWER) == K1AA;
    assert IsCallByte(K1AA[0]) && IsCallByte(K1AA[1]) && IsCallByte(K1AA[2]) && IsCallByte(K1AA[3]);
  }

  lemma OneCode()
    ensures CODE in CodesRead(InterestValue([(INTEREST_TAG, CODE)]))
  {
    hide LastValue, InterestValue, Interests.Codes, TrimmedText;
    CodeIsRead();
    LastInterestValue([], CODE);
    var fields: seq<(Byte, Bytes)> := [(INTEREST_TAG, CODE)];
    assert [] + fields == fields;
  }

  const ZERO_CODE: Bytes := [0x30, 0x30, 0x30, 0x31, 0x30]
  const HIGH_VALUE: Bytes := [0x80, 0x30, 0x30, 0x30, 0x31, 0x30]

  lemma HighFields()
    ensures IsFramed(HIGH_BYTE) && KeyOfRecord(HIGH_BYTE) == K1AA
    ensures FieldsOfRecord(HIGH_BYTE) == [(INTEREST_TAG, HIGH_VALUE)]
  {
    var body := HIGH_BYTE[1..];
    FirstTagUnique(body, 0, 4);
    assert body[..4] == K1AA;
    ValueEndUnique(body, 5, 11);
    assert body[5..11] == HIGH_VALUE;
    assert RawFields(body, 11) == [];
    assert RawFields(body, 4) == [(INTEREST_TAG, HIGH_VALUE)] + RawFields(body, 11);
  }

  lemma HighText()
    ensures TrimmedText(HIGH_VALUE) == REPLACEMENT + ZERO_CODE
  {
    hide Trim, Lossy;
    TrimIdentity(HIGH_VALUE, BLANK);
    assert HIGH_VALUE[1..] == ZERO_CODE;
    assert Step(HIGH_VALUE) == 1 && !Whole(HIGH_VALUE);
    LossyStep(HIGH_VALUE);
    PrintableStays(ZERO_CODE);
  }

  lemma HighIsRefused()
    ensures CleanAscii(HIGH_VALUE) == None
  {
    hide Trim;
    TrimIdentity(HIGH_VALUE, BLANK);
    assert !IsPrintable(HIGH_VALUE[0]);
  }

  lemma HighIsRead()
    ensures CodesRead(HIGH_VALUE) == [CODE]
    ensures CleanFields([(INTEREST_TAG, HIGH_VALUE)]) == []
  {
    hide Interests.Codes, CleanFields, TrimmedText, CleanAscii;
    HighText();
    CodeIsRead();
    HighChunks();
    HighIsRefused();
    CleanCons(INTEREST_TAG, HIGH_VALUE, []);
    NothingClean();
    var fields: seq<(Byte, Bytes)> := [(INTEREST_TAG, HIGH_VALUE)];
    assert fields + [] == fields;
  }

  lemma HighChunks()
    ensures Interests.Codes(REPLACEMENT + ZERO_CODE) == Interests.Codes(CODE)
  {
    var text := REPLACEMENT + ZERO_CODE;
    assert |text| == 8 && text[4..] == CODE;
    assert text[..4][0] == 0xef;
  }

  /** A byte that is no text: the scanner turns it into three, which moves the codes behind it by two places and
      makes one of them readable; the parser refuses the field. */
  lemma HighByteDisagrees(ctx: Context)
    ensures IsFramed(HIGH_BYTE) && ParsedSegment(HIGH_BYTE, ctx).Some?
    ensures ParsedSegment(HIGH_BYTE, ctx).value.interestCodes == []
    ensures Hit(HIGH_BYTE, CODE) == Some(Match(K1AA, None))
  {
    hide Enrich, ApplyFields, FieldsOfRecord, KeyOfRecord, RecordKey, LastValue, CleanFields, InterestValue, CodesRead;
    HighFields();
    ShortKeyParses(HIGH_BYTE, ctx);
    ParserReads(HIGH_BYTE, ctx);
    HitReads(HIGH_BYTE, CODE);
    HighIsRead();
    LastInterestValue([], HIGH_VALUE);
    assert [] + [(INTEREST_TAG, HIGH_VALUE)] == [(INTEREST_TAG, HIGH_VALUE)];
    NothingGiven();
    NoCodes();
    K1AAIsKey();
  }

  lemma NoCodes()
    ensures Interests.Codes([]) == []
  {
  }

  lemma K1AAIsKey()
    ensures RecordKey(K1AA) == Some(Match(K1AA, None))
  {
    hide RecordKey;
    assert IsCallByte(K1AA[0]) && IsCallByte(K1AA[1]) && IsCallByte(K1AA[2]) && IsCallByte(K1AA[3]);
    assert KeyText(K1AA, None) == K1AA + [] == K1AA;
    PrintedKeyIsRecordKey(K1AA, None);
  }
}
