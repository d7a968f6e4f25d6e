/** Parser for decoded DAT records: sentinel-separated segments of a key and tagged values. */
module Records {
  import opened Ascii
  import opened Snapshots
  import opened Sorting
  import opened Country
  import Interests
  import Cipher
  import Framing

  const MARK: Byte := 0xb5

  predicate IsTag(b: Byte) { 0xb6 <= b <= 0xdf }
  predicate IsMarkOrTag(b: Byte) { 0xb5 <= b <= 0xdf }

  datatype Context = Context(
    defaultKey: Option<Bytes>,
    source: Source,
    countries: Option<CountryTable>,
    interests: Option<Interests.Catalog>)

  predicate IndexedContext(ctx: Context) {
    ctx.countries.Some? ==> Indexed(ctx.countries.value)
  }

  // ---- segments ------------------------------------------------------------

  /** The first 0xb5 at or after `from`, or the length. */
  function NextMark(d: Bytes, from: nat): (n: nat)
    requires from <= |d|
    ensures from <= n <= |d|
    ensures forall k | from <= k < n :: d[k] != MARK
    ensures n < |d| ==> d[n] == MARK
    decreases |d| - from
  {
    if from == |d| || d[from] == MARK then from else NextMark(d, from + 1)
  }

  /** Cut `d[start..]` in front of every 0xb5 after its first byte. */
  function SegmentsFrom(d: Bytes, start: nat): seq<Bytes>
    requires start <= |d|
    decreases |d| - start
  {
    if start == |d| then []
    else
      var next := NextMark(d, start + 1);
      [d[start..next]] + SegmentsFrom(d, next)
  }

  function Segments(d: Bytes): seq<Bytes> { SegmentsFrom(d, 0) }

  /** The segments that a later 0xb5 closes. */
  function CompleteFrom(d: Bytes, start: nat): seq<Bytes>
    requires start <= |d|
    decreases |d| - start
  {
    if start == |d| then []
    else
      var next := NextMark(d, start + 1);
      if next == |d| then [] else [d[start..next]] + CompleteFrom(d, next)
  }

  function CompleteSegments(d: Bytes): seq<Bytes> { CompleteFrom(d, 0) }

  // ---- one segment -----------------------------------------------------------

  function Body(segment: Bytes): Bytes {
    if segment != [] && segment[0] == MARK then segment[1..] else segment
  }

  /** The first tag at or after `from`, or the end of the record. */
  function FirstTag(r: Bytes, from: nat): (n: nat)
    requires from <= |r|
    ensures from <= n <= |r|
    ensures forall k | from <= k < n :: !IsTag(r[k])
    ensures n < |r| ==> IsTag(r[n])
    decreases |r| - from
  {
    if from == |r| || IsTag(r[from]) then from else FirstTag(r, from + 1)
  }

  /** Where the key ends: the first tag byte. */
  function KeyEnd(body: Bytes): (n: nat)
    ensures n <= |body|
    ensures forall i | 0 <= i < n :: !IsTag(body[i])
    ensures n < |body| ==> IsTag(body[n])
  {
    FirstTag(body, 0)
  }

  lemma FirstTagUnique(r: Bytes, from: nat, n: nat)
    requires from <= n <= |r|
    requires forall k | from <= k < n :: !IsTag(r[k])
    requires n < |r| ==> IsTag(r[n])
    ensures FirstTag(r, from) == n
  {
  }

  /** Where a value that starts at `i` ends: the next 0xb5 or tag byte. */
  function ValueEnd(body: Bytes, i: nat): (n: nat)
    requires i <= |body|
    ensures i <= n <= |body|
    ensures forall k | i <= k < n :: !IsMarkOrTag(body[k])
    ensures n < |body| ==> IsMarkOrTag(body[n])
    decreases |body| - i
  {
    if i == |body| || IsMarkOrTag(body[i]) then i else ValueEnd(body, i + 1)
  }

  /** Trimmed text, unless something in it is not printable. */
  function CleanAscii(s: Bytes): Option<Bytes> {
    var t := Trim(s, BLANK);
    if AllPrintable(t) then Some(t) else None
  }

  /** What counts as blank and what as text, byte by byte: NUL and the five ASCII blanks are trimmed away, the
      characters from `!` to `~` are kept, and anything else makes the text unreadable. */
  lemma CleanByte(b: Byte)
    ensures CleanAscii([b])
            == if b in {0x00, 0x09, 0x0a, 0x0c, 0x0d, 0x20} then Some([])
               else if '!' <= b as char <= '~' then Some([b])
               else None
  {
    var s := [b];
    assert s[1..] == [] && s[..0] == [] && s[..1] == s && s[0..] == s;
    assert LeadCount([], BLANK) == 0 && KeepCount([], BLANK) == 0;
  }

  predicate LooksLikeKey(key: Bytes) {
    var call := Before(key, COLON);
    call != [] && |call| <= 12 && AllCallBytes(call)
  }

  function SplitKey(key: Bytes): Option<(Bytes, Option<nat>)> {
    if COLON in key then
      match ParseUnsigned(key[IndexOf(key, COLON) + 1..], 65535)
      case Some(year) => Some((Before(key, COLON), Some(year)))
      case None => None
    else Some((key, None))
  }

  /** The key text, a leading `:` completed with the call of the default key. */
  function FullKey(body: Bytes, defaultKey: Option<Bytes>): Option<Bytes> {
    match CleanAscii(body[..KeyEnd(body)])
    case None => None
    case Some(key) =>
      if key != [] && key[0] == COLON then
        if defaultKey.None? then None
        else
          match CleanAscii(defaultKey.value)
          case None => None
          case Some(default) => Some(Before(default, COLON) + key)
      else Some(key)
  }

  /** The field a tag byte fills; the rest go to the raw tags. */
  function FieldOf(tag: Byte): Option<Field> {
    match tag
    case 0xb6 => Some(LicenseClass)
    case 0xb7 => Some(RecordCode)
    case 0xb8 => Some(FirstName)
    case 0xb9 => Some(MiddleName)
    case 0xba => Some(LastName)
    case 0xbb => Some(Suffix)
    case 0xbc => Some(Address)
    case 0xbd => Some(Address)
    case 0xbe => Some(Address)
    case 0xbf => Some(City)
    case 0xc0 => Some(StateOrProvince)
    case 0xc1 => Some(PostalCode)
    case 0xc2 => Some(BirthDate)
    case 0xc3 => Some(FirstIssued)
    case 0xc4 => Some(Expires)
    case 0xc5 => Some(LastChanged)
    case 0xc6 => Some(County)
    case 0xc7 => Some(GmtOffset)
    case 0xc8 => Some(Latitude)
    case 0xc9 => Some(Longitude)
    case 0xca => Some(Grid)
    case 0xcb => Some(AreaCode)
    case 0xcc => Some(PreviousCall)
    case 0xcd => Some(PreviousClass)
    case 0xce => Some(FccTransactionType)
    case 0xcf => Some(Email)
    case 0xd0 => Some(Qsl)
    case 0xd1 => Some(Field.Country)
    case 0xd2 => Some(Url)
    case 0xd4 => Some(FaxNumber)
    case 0xd5 => Some(InterestCodesRaw)
    case 0xd7 => Some(LicenseId)
    case 0xd9 => Some(Frn)
    case 0xda => Some(Iota)
    case 0xde => Some(NumericId)
    case _ => None
  }

  function ApplyTag(s: Snapshot, tag: Byte, value: Bytes): Snapshot {
    match FieldOf(tag)
    case Some(f) => s.(text := s.text[f := value])
    case None => s.(rawTags := s.rawTags[tag := value])
  }

  /** Apply the tagged values of `body` from `i` on. */
  function ApplyFields(s: Snapshot, body: Bytes, i: nat): Snapshot
    requires i <= |body|
    decreases |body| - i
  {
    if i == |body| then s
    else if !IsTag(body[i]) then ApplyFields(s, body, i + 1)
    else
      var end := ValueEnd(body, i + 1);
      var value := CleanAscii(body[i + 1..end]);
      ApplyFields(if value.Some? && value.value != [] then ApplyTag(s, body[i], value.value) else s, body, end)
  }

  function JurisdictionOf(text: map<Field, Bytes>): Jurisdiction {
    match Get(text, Field.Country)
    case Some(name) =>
      if name == Text("United States") || name == Text("UNITED STATES") then UnitedStates
      else if name == Text("Canada") || name == Text("CANADA") then Canada
      else International
    case None =>
      if StateOrProvince in text && PostalCode in text then UnitedStates else Unknown
  }

  function ApplyCountry(s: Snapshot, countries: Option<CountryTable>): Snapshot {
    var found := if Field.Country !in s.text && countries.Some? then CountryOf(countries.value, s.callsign) else None;
    if found.Some? then
      s.(text := s.text[Field.Country := found.value.name], jurisdiction := found.value.jurisdiction)
    else if s.jurisdiction == Unknown then s.(jurisdiction := JurisdictionOf(s.text))
    else s
  }

  function ApplyInterests(s: Snapshot, interests: Option<Interests.Catalog>): Snapshot {
    if InterestCodesRaw !in s.text then s
    else
      var raw := s.text[InterestCodesRaw];
      var t := s.(interestCodes := Interests.Codes(raw));
      if interests.Some? then t.(interests := Interests.ResolveRaw(interests.value, raw)) else t
  }

  function Enrich(s: Snapshot, ctx: Context): Snapshot {
    ApplyInterests(ApplyCountry(s, ctx.countries), ctx.interests)
  }

  /** The key starts with a colon: its call comes from the default key. */
  predicate SuffixKey(segment: Bytes) {
    var key := Trim(Body(segment)[..KeyEnd(Body(segment))], BLANK);
    key != [] && key[0] == COLON
  }

  /** The call and the vintage a segment is read under. */
  function KeyRead(segment: Bytes, ctx: Context): Option<(Bytes, Option<nat>)> {
    var body := Body(segment);
    if body == [] then None
    else
      match FullKey(body, ctx.defaultKey)
      case None => None
      case Some(key) => if LooksLikeKey(key) then SplitKey(key) else None
  }

  function ParsedSegment(segment: Bytes, ctx: Context): Option<Snapshot> {
    match KeyRead(segment, ctx)
    case None => None
    case Some(parts) =>
      var body := Body(segment);
      Some(Enrich(ApplyFields(NewSnapshot(parts.0, parts.1, ctx.source), body, KeyEnd(body)), ctx))
  }

  /** The cheap test on the raw key, made before a segment is parsed. */
  predicate SegmentMatches(segment: Bytes, defaultKey: Option<Bytes>, callsign: Bytes) {
    var body := Body(segment);
    if body == [] then false
    else
      var key := Trim(body[..KeyEnd(body)], BLANK);
      if !AllPrintable(key) then false
      else if key != [] && key[0] == COLON then
        |key| > 1 && defaultKey.Some?
        && EqIgnoreCase(Before(Trim(defaultKey.value, BLANK), COLON), callsign)
      else EqIgnoreCase(Before(key, COLON), callsign)
  }

  // ---- the parsers ---------------------------------------------------------

  function Parsed(segments: seq<Bytes>, ctx: Context): seq<Snapshot> {
    if segments == [] then []
    else Listed(ParsedSegment(segments[0], ctx)) + Parsed(segments[1..], ctx)
  }

  function Matched(segments: seq<Bytes>, callsign: Bytes, ctx: Context): seq<Snapshot> {
    if segments == [] then []
    else MatchedSegment(segments[0], callsign, ctx) + Matched(segments[1..], callsign, ctx)
  }

  function MatchedSegment(segment: Bytes, callsign: Bytes, ctx: Context): seq<Snapshot> {
    if SegmentMatches(segment, ctx.defaultKey, callsign) then Listed(ParsedSegment(segment, ctx)) else []
  }

  lemma SegmentsStep(d: Bytes, start: nat)
    requires start <= |d|
    ensures start == |d| ==> SegmentsFrom(d, start) == []
    ensures start < |d| ==>
              var next := NextMark(d, start + 1);
              SegmentsFrom(d, start) == [d[start..next]] + SegmentsFrom(d, next)
  {
    hide NextMark;
  }

  lemma CompleteStep(d: Bytes, start: nat)
    requires start <= |d|
    ensures start == |d| ==> CompleteFrom(d, start) == []
    ensures start < |d| && NextMark(d, start + 1) == |d| ==> CompleteFrom(d, start) == []
    ensures start < |d| && NextMark(d, start + 1) < |d| ==>
              var next := NextMark(d, start + 1);
              CompleteFrom(d, start) == [d[start..next]] + CompleteFrom(d, next)
  {
    hide NextMark;
  }

  lemma ParsedCons(segment: Bytes, rest: seq<Bytes>, ctx: Context)
    ensures Parsed([segment] + rest, ctx) == Listed(ParsedSegment(segment, ctx)) + Parsed(rest, ctx)
  {
    assert ([segment] + rest)[1..] == rest;
  }

  lemma ParsedNone(ctx: Context)
    ensures Parsed([], ctx) == []
  {
  }

  lemma MatchedNone(callsign: Bytes, ctx: Context)
    ensures Matched([], callsign, ctx) == []
  {
  }

  lemma MatchedCons(segment: Bytes, rest: seq<Bytes>, callsign: Bytes, ctx: Context)
    ensures Matched([segment] + rest, callsign, ctx)
            == MatchedSegment(segment, callsign, ctx) + Matched(rest, callsign, ctx)
  {
    assert ([segment] + rest)[1..] == rest;
  }

  method ParseSegment(input: Bytes, ctx: Context) returns (r: Option<Snapshot>)
    requires IndexedContext(ctx)
    ensures r == ParsedSegment(input, ctx)
  {
    hide CleanAscii, Enrich, LooksLikeKey, SplitKey, Before;
    var segment := input;
    if segment != [] && segment[0] == 0xb5 {
      segment := segment[1..];
    }
    if segment == [] {
      return None;
    }
    var keyEnd := KeyEnd(segment);
    var cleaned := CleanAscii(segment[..keyEnd]);
    if cleaned.None? {
      return None;
    }
    var key := cleaned.value;
    if key != [] && key[0] == COLON {
      if ctx.defaultKey.None? {
        return None;
      }
      var default := CleanAscii(ctx.defaultKey.value);
      if default.None? {
        return None;
      }
      key := Before(default.value, COLON) + key;
    }
    if !LooksLikeKey(key) {
      return None;
    }
    var parts := SplitKey(key);
    if parts.None? {
      return None;
    }
    var snapshot := NewSnapshot(parts.value.0, parts.value.1, ctx.source);
    snapshot := ParseFields(snapshot, segment, keyEnd);
    snapshot := EnrichSnapshot(snapshot, ctx);
    return Some(snapshot);
  }

  method ParseFields(bare: Snapshot, segment: Bytes, keyEnd: nat) returns (snapshot: Snapshot)
    requires keyEnd <= |segment|
    ensures snapshot == ApplyFields(bare, segment, keyEnd)
  {
    hide CleanAscii, ApplyTag;
    snapshot := bare;
    var i: nat := keyEnd;
    while i < |segment|
      invariant i <= |segment|
      invariant ApplyFields(snapshot, segment, i) == ApplyFields(bare, segment, keyEnd)
    {
      var tag := segment[i];
      if !(0xb6 <= tag <= 0xdf) {
        i := i + 1;
        continue;
      }
      i := i + 1;
      var valueStart := i;
      while i < |segment| && !(0xb5 <= segment[i] <= 0xdf)
        invariant valueStart <= i <= |segment|
        invariant ValueEnd(segment, i) == ValueEnd(segment, valueStart)
      {
        i := i + 1;
      }
      var value := CleanAscii(segment[valueStart..i]);
      if value.None? || value.value == [] {
        continue;
      }
      snapshot := ApplyTag(snapshot, tag, value.value);
    }
  }

  method EnrichSnapshot(s: Snapshot, ctx: Context) returns (r: Snapshot)
    requires IndexedContext(ctx)
    ensures r == Enrich(s, ctx)
  {
    r := s;
    var country: Option<CountryMatch> := None;
    if Field.Country !in r.text && ctx.countries.Some? {
      country := LookupInfo(ctx.countries.value, r.callsign);
    }
    if country.Some? {
      r := r.(text := r.text[Field.Country := country.value.name], jurisdiction := country.value.jurisdiction);
    } else if r.jurisdiction == Unknown {
      r := r.(jurisdiction := JurisdictionOf(r.text));
    }
    r := ApplyInterests(r, ctx.interests);
  }

  method ParseIfMatching(segment: Bytes, callsign: Bytes, ctx: Context) returns (out: seq<Snapshot>)
    requires IndexedContext(ctx)
    ensures out == MatchedSegment(segment, callsign, ctx)
  {
    out := [];
    if SegmentMatches(segment, ctx.defaultKey, callsign) {
      var snapshot := ParseSegment(segment, ctx);
      if snapshot.Some? {
        out := [snapshot.value];
      }
    }
  }

  /** Parse every segment. */
  method ParseSnapshots(decoded: Bytes, ctx: Context) returns (out: seq<Snapshot>)
    requires IndexedContext(ctx)
    ensures out == Parsed(Segments(decoded), ctx)
  {
    hide ParsedSegment, Parsed, NextMark, SegmentsFrom, CompleteFrom;
    out := [];
    var start := 0;
    ParsedNone(ctx);
    while start < |decoded|
      invariant 0 <= start <= |decoded|
      invariant out + Parsed(SegmentsFrom(decoded, start), ctx) == Parsed(Segments(decoded), ctx)
    {
      var next := NextMark(decoded, start + (if decoded[start] == 0xb5 then 1 else 0));
      SearchStart(decoded, start);
      SegmentsStep(decoded, start);
      ParsedCons(decoded[start..next], SegmentsFrom(decoded, next), ctx);
      var snapshot := ParseSegment(decoded[start..next], ctx);
      ghost var before := out;
      if snapshot.Some? {
        out := out + [snapshot.value];
      }
      assert out == before + Listed(snapshot);
      start := next;
    }
    SegmentsStep(decoded, |decoded|);
  }

  /** Parse only the segments whose key names `callsign`. */
  method ParseMatchingSnapshots(decoded: Bytes, callsign: Bytes, ctx: Context) returns (out: seq<Snapshot>)
    requires IndexedContext(ctx)
    ensures out == Matched(Segments(decoded), callsign, ctx)
  {
    hide MatchedSegment, Matched, NextMark, SegmentsFrom, CompleteFrom;
    out := [];
    var start := 0;
    MatchedNone(callsign, ctx);
    while start < |decoded|
      invariant 0 <= start <= |decoded|
      invariant out + Matched(SegmentsFrom(decoded, start), callsign, ctx) == Matched(Segments(decoded), callsign, ctx)
    {
      var next := NextMark(decoded, start + (if decoded[start] == 0xb5 then 1 else 0));
      SearchStart(decoded, start);
      SegmentsStep(decoded, start);
      MatchedCons(decoded[start..next], SegmentsFrom(decoded, next), callsign, ctx);
      var found := ParseIfMatching(decoded[start..next], callsign, ctx);
      out := out + found;
      start := next;
    }
    SegmentsStep(decoded, |decoded|);
  }

  /** Parse only matching segments that are known to be complete. */
  method ParseCompleteMatchingSnapshots(decoded: Bytes, callsign: Bytes, ctx: Context)
    returns (out: seq<Snapshot>)
    requires IndexedContext(ctx)
    ensures out == Matched(CompleteSegments(decoded), callsign, ctx)
  {
    hide MatchedSegment, Matched, NextMark, SegmentsFrom, CompleteFrom;
    out := [];
    var start := 0;
    MatchedNone(callsign, ctx);
    CompleteStep(decoded, |decoded|);
    while start < |decoded|
      invariant 0 <= start <= |decoded|
      invariant out + Matched(CompleteFrom(decoded, start), callsign, ctx)
             == Matched(CompleteSegments(decoded), callsign, ctx)
    {
      var searchStart := start + (if decoded[start] == 0xb5 then 1 else 0);
      var next := NextMark(decoded, searchStart);
      SearchStart(decoded, start);
      CompleteStep(decoded, start);
      if next == |decoded| {
        return;
      }
      var segment := decoded[start..next];
      MatchedCons(segment, CompleteFrom(decoded, next), callsign, ctx);
      var found := ParseIfMatching(segment, callsign, ctx);
      out := out + found;
      start := next;
    }
  }

  // ---- properties: segmentation ---------------------------------------------

  lemma {:induction false} NextMarkUnique(d: Bytes, from: nat, n: nat)
    requires from <= n <= |d|
    requires forall k | from <= k < n :: d[k] != MARK
    requires n < |d| ==> d[n] == MARK
    ensures NextMark(d, from) == n
  {
  }

  /** The loops skip a leading 0xb5 only when there is one; either way they progress. */
  lemma SearchStart(d: Bytes, start: nat)
    requires start < |d|
    ensures NextMark(d, start + (if d[start] == MARK then 1 else 0)) == NextMark(d, start + 1)
  {
  }

  /** Cutting loses nothing. */
  lemma {:induction false} SegmentsTile(d: Bytes, start: nat)
    requires start <= |d|
    ensures Flatten(SegmentsFrom(d, start)) == d[start..]
    decreases |d| - start
  {
    if start < |d| {
      var next := NextMark(d, start + 1);
      SegmentsTile(d, next);
      assert SegmentsFrom(d, start)[1..] == SegmentsFrom(d, next);
      assert d[start..] == d[start..next] + d[next..];
    }
  }

  /** The position of the last 0xb5, or zero. */
  function LastMark(d: Bytes): (n: nat)
    ensures n <= |d|
    ensures forall k | n < k < |d| :: d[k] != MARK
    ensures 0 < n ==> n < |d| && d[n] == MARK
  {
    if d == [] then 0
    else if d[|d| - 1] == MARK then |d| - 1
    else LastMark(d[..|d| - 1])
  }

  lemma {:induction false} CutFrom(d: Bytes, start: nat)
    requires start <= LastMark(d)
    ensures CompleteFrom(d, start) == SegmentsFrom(d[..LastMark(d)], start)
    decreases |d| - start
  {
    var last := LastMark(d);
    if start < last {
      var next := NextMark(d, start + 1);
      assert next <= last;
      NextMarkUnique(d[..last], start + 1, next);
      CutFrom(d, next);
      assert d[..last][start..next] == d[start..next];
    }
  }

  /** The complete segments are the segments of the input cut at its last sentinel. */
  lemma CompleteIsCut(d: Bytes)
    ensures CompleteSegments(d) == Segments(d[..LastMark(d)])
  {
    CutFrom(d, 0);
  }

  lemma {:induction false} GrowsFrom(d: Bytes, more: Bytes, start: nat)
    requires start <= |d|
    ensures CompleteFrom(d, start) <= CompleteFrom(d + more, start)
    ensures CompleteFrom(d, start) <= SegmentsFrom(d + more, start)
    decreases |d| - start
  {
    if start < |d| {
      var next, e := NextMark(d, start + 1), d + more;
      if next < |d| {
        NextMarkUnique(e, start + 1, next);
        GrowsFrom(d, more, next);
        assert e[start..next] == d[start..next];
      }
    }
  }

  /** A longer window keeps every complete segment of a shorter one, in place. */
  lemma CompleteGrows(d: Bytes, more: Bytes)
    ensures CompleteSegments(d) <= CompleteSegments(d + more)
    ensures CompleteSegments(d) <= Segments(d + more)
  {
    GrowsFrom(d, more, 0);
  }

  lemma {:induction false} MatchedPrefix(a: seq<Bytes>, b: seq<Bytes>, callsign: Bytes, ctx: Context)
    requires a <= b
    ensures Matched(a, callsign, ctx) <= Matched(b, callsign, ctx)
  {
    hide MatchedSegment;
    if a != [] {
      MatchedPrefix(a[1..], b[1..], callsign, ctx);
    }
  }

  /** Growing a window never changes an earlier answer: what a short window reports completely is a
      prefix of what every longer one reports, completely or not. */
  lemma WindowGrows(d: Bytes, more: Bytes, callsign: Bytes, ctx: Context)
    ensures Matched(CompleteSegments(d), callsign, ctx) <= Matched(CompleteSegments(d + more), callsign, ctx)
    ensures Matched(CompleteSegments(d), callsign, ctx) <= Matched(Segments(d + more), callsign, ctx)
  {
    CompleteGrows(d, more);
    MatchedPrefix(CompleteSegments(d), CompleteSegments(d + more), callsign, ctx);
    MatchedPrefix(CompleteSegments(d), Segments(d + more), callsign, ctx);
  }

  /** A decoded record as the framing scan finds it: a sentinel, and no other one. */
  predicate IsFramed(r: Bytes) { r != [] && r[0] == MARK && forall k | 1 <= k < |r| :: r[k] != MARK }

  /** A framed record, decoded, is one segment: the framing scan and the parser cut alike. */
  lemma RecordIsOneSegment(dat: Bytes, start: nat, end: nat)
    requires Framing.IsRecord(dat, start, end)
    ensures Segments(Cipher.DecodeAt(start, dat[start..end])) == [Cipher.DecodeAt(start, dat[start..end])]
  {
    var d := Cipher.DecodeAt(start, dat[start..end]);
    forall k | 1 <= k < |d| ensures d[k] != MARK {
      assert !Framing.IsSentinel(dat, start + k);
    }
    NextMarkUnique(d, 1, |d|);
    assert d[0..|d|] == d && SegmentsFrom(d, |d|) == [];
  }

  // ---- properties: filtering -------------------------------------------------

  lemma EnrichKeepsKey(s: Snapshot, ctx: Context)
    ensures var t := Enrich(s, ctx);
            t.callsign == s.callsign && t.vintage == s.vintage && t.sources == s.sources
  {
  }

  lemma ParsedCall(segment: Bytes, ctx: Context)
    requires ParsedSegment(segment, ctx).Some?
    ensures FullKey(Body(segment), ctx.defaultKey).Some?
    ensures var key := FullKey(Body(segment), ctx.defaultKey).value;
            var s := ParsedSegment(segment, ctx).value;
            && LooksLikeKey(key) && SplitKey(key) == Some((s.callsign, s.vintage))
            && s.callsign == Before(key, COLON) && s.sources == [ctx.source]
  {
    hide Enrich;
    var key := FullKey(Body(segment), ctx.defaultKey).value;
    var parts := SplitKey(key).value;
    var bare := NewSnapshot(parts.0, parts.1, ctx.source);
    FieldsKeepKey(bare, Body(segment), KeyEnd(Body(segment)));
    EnrichKeepsKey(ApplyFields(bare, Body(segment), KeyEnd(Body(segment))), ctx);
    if COLON !in key {
      assert IndexOf(key, COLON) == |key|;
    }
  }

  lemma {:induction false} FieldsKeepKey(s: Snapshot, body: Bytes, i: nat)
    requires i <= |body|
    ensures ApplyFields(s, body, i).callsign == s.callsign
    ensures ApplyFields(s, body, i).vintage == s.vintage
    ensures ApplyFields(s, body, i).sources == s.sources
    ensures ApplyFields(s, body, i).interestCodes == s.interestCodes
    decreases |body| - i
  {
    if i < |body| {
      if !IsTag(body[i]) {
        FieldsKeepKey(s, body, i + 1);
      } else {
        var end := ValueEnd(body, i + 1);
        var value := CleanAscii(body[i + 1..end]);
        FieldsKeepKey(if value.Some? && value.value != [] then ApplyTag(s, body[i], value.value) else s, body, end);
      }
    }
  }

  lemma {:induction false} FieldsProper(s: Snapshot, body: Bytes, i: nat)
    requires i <= |body| && ProperText(s.text)
    ensures ProperText(ApplyFields(s, body, i).text)
    decreases |body| - i
  {
    if i < |body| {
      if !IsTag(body[i]) {
        FieldsProper(s, body, i + 1);
      } else {
        var end := ValueEnd(body, i + 1);
        var value := CleanAscii(body[i + 1..end]);
        FieldsProper(if value.Some? && value.value != [] then ApplyTag(s, body[i], value.value) else s, body, end);
      }
    }
  }

  /** Enrichment only adds. It leaves every recorded text alone. The country table's match for the call is
      taken over, name and jurisdiction, exactly when the record has no country; otherwise a known
      jurisdiction stays, and an unknown one follows the recorded country, or a state with a postal code. The
      codes are those of the recorded interest text. */
  lemma EnrichOnlyAdds(s: Snapshot, ctx: Context, f: Field)
    ensures f != Field.Country || f in s.text ==> Get(Enrich(s, ctx).text, f) == Get(s.text, f)
    ensures Field.Country !in s.text ==>
              (Field.Country in Enrich(s, ctx).text
               <==> ctx.countries.Some? && CountryOf(ctx.countries.value, s.callsign).Some?)
    ensures Field.Country !in s.text && Field.Country in Enrich(s, ctx).text ==>
              var found := CountryOf(ctx.countries.value, s.callsign).value;
              Enrich(s, ctx).text[Field.Country] == found.name && Enrich(s, ctx).jurisdiction == found.jurisdiction
    ensures Field.Country in s.text || Field.Country !in Enrich(s, ctx).text ==>
              s.jurisdiction != Unknown ==> Enrich(s, ctx).jurisdiction == s.jurisdiction
    ensures s.jurisdiction == Unknown && (Field.Country in s.text || Field.Country !in Enrich(s, ctx).text) ==>
              Enrich(s, ctx).jurisdiction
              == if Field.Country in s.text then
                   if s.text[Field.Country] in {Text("United States"), Text("UNITED STATES")} then UnitedStates
                   else if s.text[Field.Country] in {Text("Canada"), Text("CANADA")} then Canada
                   else International
                 else if StateOrProvince in s.text && PostalCode in s.text then UnitedStates
                 else Unknown
    ensures Enrich(s, ctx).interestCodes
            == if InterestCodesRaw in s.text then Interests.Codes(s.text[InterestCodesRaw]) else s.interestCodes
  {
    hide CountryOf, Interests.Codes, Interests.ResolveRaw, Text;
  }

  /** A segment is parsed exactly when its key, completed, names a call of 1 to 12 callsign bytes with nothing
      behind it or a colon and a 16-bit number; and then it has that call and that number. */
  lemma ParsedExactly(segment: Bytes, ctx: Context)
    ensures ParsedSegment(segment, ctx).Some?
            <==> && Body(segment) != [] && FullKey(Body(segment), ctx.defaultKey).Some?
                 && var key := FullKey(Body(segment), ctx.defaultKey).value;
                    && 1 <= |Before(key, COLON)| <= 12 && AllCallBytes(Before(key, COLON))
                    && (COLON in key ==> ParseUnsigned(key[|Before(key, COLON)| + 1..], 65535).Some?)
    ensures ParsedSegment(segment, ctx).Some? ==>
              var key, x := FullKey(Body(segment), ctx.defaultKey).value, ParsedSegment(segment, ctx).value;
              && x.callsign == Before(key, COLON)
              && x.vintage == if COLON in key then ParseUnsigned(key[|x.callsign| + 1..], 65535) else None
  {
    hide Enrich, ApplyFields, FullKey, ParseUnsigned;
    if ParsedSegment(segment, ctx).Some? {
      ParsedCall(segment, ctx);
    }
  }

  lemma ParsedProper(segment: Bytes, ctx: Context)
    requires ParsedSegment(segment, ctx).Some?
    ensures ProperText(ParsedSegment(segment, ctx).value.text)
  {
    hide Enrich, FullKey, LooksLikeKey, SplitKey, ApplyFields;
    var body := Body(segment);
    var parts := SplitKey(FullKey(body, ctx.defaultKey).value).value;
    var bare := NewSnapshot(parts.0, parts.1, ctx.source);
    FieldsProper(bare, body, KeyEnd(body));
    var s := ApplyFields(bare, body, KeyEnd(body));
    forall f | f in Enrich(s, ctx).text && f != Field.Country ensures Enrich(s, ctx).text[f] != [] {
      EnrichOnlyAdds(s, ctx, f);
      assert Get(Enrich(s, ctx).text, f) == Get(s.text, f);
    }
  }

  lemma ParsedCodes(segment: Bytes, ctx: Context)
    requires ParsedSegment(segment, ctx).Some?
    ensures Interests.CodesFit(ParsedSegment(segment, ctx).value)
  {
    hide Enrich, KeyRead, ApplyFields, Interests.Codes;
    var (call, vintage) := KeyRead(segment, ctx).value;
    var body := Body(segment);
    var bare := NewSnapshot(call, vintage, ctx.source);
    FieldsKeepKey(bare, body, KeyEnd(body));
    var s := ApplyFields(bare, body, KeyEnd(body));
    EnrichOnlyAdds(s, ctx, InterestCodesRaw);
    assert Get(Enrich(s, ctx).text, InterestCodesRaw) == Get(s.text, InterestCodesRaw);
  }

  /** Every parsed snapshot has a normalised call of at most 12 bytes, and the codes of its own interest text. */
  lemma ParsedShape(segment: Bytes, ctx: Context)
    requires ParsedSegment(segment, ctx).Some?
    ensures var s := ParsedSegment(segment, ctx).value;
            && s.callsign != [] && |s.callsign| <= 12 && AllCallBytes(s.callsign)
            && s.sources == [ctx.source]
            && (s.vintage.Some? ==> s.vintage.value <= 65535)
            && ProperText(s.text) && Interests.CodesFit(s)
  {
    hide ParsedSegment, FullKey, ProperText, Interests.CodesFit;
    ParsedCodes(segment, ctx);
    ParsedCall(segment, ctx);
    ParsedProper(segment, ctx);
  }

  /** On a segment that parses, the raw-key test decides exactly whether its call is the one asked for. */
  lemma MatchIsCallTest(segment: Bytes, callsign: Bytes, ctx: Context)
    requires ParsedSegment(segment, ctx).Some?
    ensures SegmentMatches(segment, ctx.defaultKey, callsign)
            <==> EqIgnoreCase(ParsedSegment(segment, ctx).value.callsign, callsign)
  {
    hide ParsedSegment, Trim, AllPrintable, EqIgnoreCase, LooksLikeKey, SplitKey, Before, FirstTag;
    ParsedCall(segment, ctx);
    var body := Body(segment);
    var key := Trim(body[..KeyEnd(body)], BLANK);
    KeyIsGiven(segment, ctx);
    if key != [] && key[0] == COLON {
      var call := Before(Trim(ctx.defaultKey.value, BLANK), COLON);
      SuffixHasYear(call, key);
      BeforeOfJoin(call, COLON, key);
    }
  }

  lemma KeyIsGiven(segment: Bytes, ctx: Context)
    requires ParsedSegment(segment, ctx).Some?
    ensures Body(segment) != []
    ensures var key := Trim(Body(segment)[..KeyEnd(Body(segment))], BLANK);
            && AllPrintable(key)
            && (key != [] && key[0] == COLON ==> ctx.defaultKey.Some?)
  {
    hide Trim, AllPrintable, LooksLikeKey, SplitKey, Before, FirstTag, Enrich, ApplyFields;
  }

  lemma SuffixHasYear(call: Bytes, key: Bytes)
    requires COLON !in call && key != [] && key[0] == COLON && SplitKey(call + key).Some?
    ensures |key| > 1
  {
    hide Before;
    BeforeOfJoin(call, COLON, key);
    assert (call + key)[|call|] == COLON;
    assert (call + key)[|call| + 1..] == key[1..];
  }

  lemma MatchedSegmentFilters(segment: Bytes, callsign: Bytes, ctx: Context)
    ensures MatchedSegment(segment, callsign, ctx)
            == var s := ParsedSegment(segment, ctx);
               if s.Some? && EqIgnoreCase(s.value.callsign, callsign) then [s.value] else []
  {
    if ParsedSegment(segment, ctx).Some? {
      MatchIsCallTest(segment, callsign, ctx);
    }
  }

  /** The filtered parser is the full parser followed by a filter. */
  lemma {:induction false} FilteredParser(segments: seq<Bytes>, callsign: Bytes, ctx: Context)
    ensures Matched(segments, callsign, ctx)
            == Filter((s: Snapshot) => EqIgnoreCase(s.callsign, callsign), Parsed(segments, ctx))
  {
    hide ParsedSegment, MatchedSegment;
    var p := (s: Snapshot) => EqIgnoreCase(s.callsign, callsign);
    if segments != [] {
      FilteredParser(segments[1..], callsign, ctx);
      MatchedSegmentFilters(segments[0], callsign, ctx);
      var s, rest := ParsedSegment(segments[0], ctx), Parsed(segments[1..], ctx);
      if s.Some? {
        FilterCons(p, s.value, rest);
      } else {
        assert Parsed(segments, ctx) == rest;
      }
    }
  }

  lemma {:induction false} ParsedMembers(segments: seq<Bytes>, ctx: Context, s: Snapshot)
    ensures s in Parsed(segments, ctx)
            <==> exists i :: 0 <= i < |segments| && ParsedSegment(segments[i], ctx) == Some(s)
  {
    hide ParsedSegment;
    if segments != [] {
      ParsedMembers(segments[1..], ctx, s);
      forall i | 0 <= i < |segments[1..]| ensures segments[1..][i] == segments[i + 1] {}
      if i :| 0 <= i < |segments| && ParsedSegment(segments[i], ctx) == Some(s) {
        if i > 0 {
          assert segments[1..][i - 1] == segments[i];
        }
      }
    }
  }
}
