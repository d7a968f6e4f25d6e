/** When the rest of a record, cut off at its front, parses to what the whole record parses to. */
module Heads {
  import opened Ascii
  import opened Snapshots
  import opened Records
  import opened RecordText
  import opened Lookup
  import opened Pieces
  import Cipher
  import Framing
  import IdxSearch
  import IdxText

  // ---- fields behind a cut -----------------------------------------------------------------

  lemma {:induction false} SkipToTag(s: Snapshot, body: Bytes, i: nat)
    requires i <= |body|
    ensures ApplyFields(s, body, i) == ApplyFields(s, body, FirstTag(body, i))
    decreases |body| - i
  {
    hide CleanAscii, ApplyTag;
    if i < |body| && !IsTag(body[i]) {
      SkipToTag(s, body, i + 1);
    }
  }

  lemma {:induction false} ValueEndBehind(body: Bytes, m: nat, i: nat)
    requires m + i <= |body|
    ensures ValueEnd(body, m + i) == m + ValueEnd(body[m..], i)
    decreases |body| - m - i
  {
    if m + i < |body| && !IsMarkOrTag(body[m + i]) {
      ValueEndBehind(body, m, i + 1);
    }
  }

  lemma {:induction false} FieldsBehind(s: Snapshot, body: Bytes, m: nat, i: nat)
    requires m + i <= |body|
    ensures ApplyFields(s, body[m..], i) == ApplyFields(s, body, m + i)
    decreases |body| - m - i
  {
    hide CleanAscii, ApplyTag;
    var rest := body[m..];
    if i < |rest| {
      if !IsTag(rest[i]) {
        FieldsBehind(s, body, m, i + 1);
      } else {
        var end := ValueEnd(rest, i + 1);
        ValueEndBehind(body, m, i + 1);
        assert rest[i + 1..end] == body[m + i + 1..m + end];
        var value := CleanAscii(rest[i + 1..end]);
        FieldsBehind(if value.Some? && value.value != [] then ApplyTag(s, rest[i], value.value) else s, body, m, end);
      }
    }
  }

  lemma KeyEndBehind(body: Bytes, m: nat)
    requires m <= |body|
    ensures KeyEnd(body[m..]) == FirstTag(body, m) - m
  {
    FirstTagUnique(body[m..], 0, FirstTag(body, m) - m);
  }

  // ---- heads -------------------------------------------------------------------------------

  /** Skipping the fields in front of the cut at `i` changes nothing. */
  predicate SameFields(r: Bytes, i: nat, ctx: Context)
    requires 1 <= i <= |Body(r)| + 1
  {
    KeyRead(r, ctx).Some? ==>
      var (call, vintage) := KeyRead(r, ctx).value;
      var bare := NewSnapshot(call, vintage, ctx.source);
      var body := Body(r);
      Enrich(ApplyFields(bare, body, FirstTag(body, i - 1)), ctx) == Enrich(ApplyFields(bare, body, KeyEnd(body)), ctx)
  }

  /** The rest of a record from its `i`-th byte on parses like the record if and only if it reads the same call
      and vintage and the fields in front of the cut do not matter. A cut inside the key leaves all fields, so
      there call and vintage decide; and a cut right behind the sentinel leaves everything. */
  lemma HeadReads(r: Bytes, i: nat, ctx: Context)
    requires IsFramed(r) && 1 <= i < |r|
    ensures ParsedSegment(r[i..], ctx) == ParsedSegment(r, ctx)
            <==> KeyRead(r[i..], ctx) == KeyRead(r, ctx) && SameFields(r, i, ctx)
    ensures i <= 1 + KeyEnd(Body(r)) ==> SameFields(r, i, ctx)
    ensures i == 1 ==> ParsedSegment(r[i..], ctx) == ParsedSegment(r, ctx)
  {
    hide Enrich, FullKey, LooksLikeKey, SplitKey, ApplyFields, CleanAscii;
    var body, head := Body(r), r[i..];
    assert Body(head) == head == body[i - 1..];
    KeyEndBehind(body, i - 1);
    if i <= 1 + KeyEnd(body) {
      FirstTagUnique(body, i - 1, KeyEnd(body));
    }
    if KeyRead(r, ctx).Some? {
      var (call, vintage) := KeyRead(r, ctx).value;
      FieldsBehind(NewSnapshot(call, vintage, ctx.source), body, i - 1, KeyEnd(head));
      ReadingKept(r, ctx);
      ReadingKept(head, ctx);
    }
  }

  lemma BehindSentinel(r: Bytes, ctx: Context)
    requires IsFramed(r) && |r| > 1
    ensures ParsedSegment(r[1..], ctx) == ParsedSegment(r, ctx)
  {
    hide ParsedSegment, SameFields;
    HeadReads(r, 1, ctx);
  }

  lemma ReadingKept(segment: Bytes, ctx: Context)
    ensures KeyRead(segment, ctx).Some? <==> ParsedSegment(segment, ctx).Some?
    ensures KeyRead(segment, ctx).Some? ==>
              var x := ParsedSegment(segment, ctx).value;
              KeyRead(segment, ctx) == Some((x.callsign, x.vintage))
  {
    hide Enrich, FullKey, LooksLikeKey, SplitKey, ApplyFields;
    if KeyRead(segment, ctx).Some? {
      var (call, vintage) := KeyRead(segment, ctx).value;
      var bare, body := NewSnapshot(call, vintage, ctx.source), Body(segment);
      FieldsKeepKey(bare, body, KeyEnd(body));
      EnrichKeepsKey(ApplyFields(bare, body, KeyEnd(body)), ctx);
    }
  }

  // ---- heads from the colon on ----------------------------------------------------------------

  /** Where the first colon of a record is, counted behind the sentinel. */
  function ColonAt(r: Bytes): nat { IndexOf(Body(r), COLON) }

  /** The record names its call and its vintage: its key has a colon, and not in front. */
  predicate HasCallAndColon(r: Bytes) {
    ColonAt(r) < KeyEnd(Body(r)) && Trim(Body(r)[..KeyEnd(Body(r))], BLANK) != [] && !SuffixKey(r)
  }

  /** The call that completes a key with a leading colon. */
  function DefaultCall(ctx: Context): Option<Bytes> {
    if ctx.defaultKey.None? then None
    else
      match CleanAscii(ctx.defaultKey.value)
      case None => None
      case Some(default) => Some(Before(default, COLON))
  }

  lemma TrimIs(s: Bytes, ws: set<Byte>, a: nat, z: nat)
    requires a < z <= |s| && s[a] !in ws && s[z - 1] !in ws
    requires (forall i | 0 <= i < a :: s[i] in ws) && (forall i | z <= i < |s| :: s[i] in ws)
    ensures LeadCount(s, ws) == a && Trim(s, ws) == s[a..z]
  {
    hide LeadCount, KeepCount;
    assert LeadCount(s, ws) == a;
    var rest := s[a..];
    forall i | z - a <= i < |rest| ensures rest[i] in ws {
      assert rest[i] == s[a + i];
    }
    KeepUnique(rest, ws, z - a);
    assert rest[..z - a] == s[a..z];
  }

  /** What `Trim` keeps from `j` on. */
  function Kept(s: Bytes, ws: set<Byte>, j: nat): (k: nat)
    requires j <= |s|
    ensures j + k <= |s|
  {
    KeepCount(s[j..], ws)
  }

  lemma KeptFrom(s: Bytes, ws: set<Byte>, j: nat)
    requires j < |s| && s[j] !in ws
    ensures 0 < Kept(s, ws, j) && s[j + Kept(s, ws, j) - 1] !in ws
    ensures forall i | j + Kept(s, ws, j) <= i < |s| :: s[i] in ws
  {
    hide KeepCount;
    var rest := s[j..];
    forall i | j <= i < |s| ensures rest[i - j] == s[i] {}
  }

  lemma TrimSplit(s: Bytes, ws: set<Byte>, j: nat)
    requires j < |s| && s[j] !in ws
    ensures LeadCount(s, ws) <= j && Trim(s, ws) == s[LeadCount(s, ws)..j] + Trim(s[j..], ws)
    ensures Trim(s[j..], ws) != [] && Trim(s[j..], ws)[0] == s[j]
    ensures |Trim(s[j..], ws)| <= |s| - j && Trim(s[j..], ws) == s[j..j + |Trim(s[j..], ws)|]
  {
    hide LeadCount, KeepCount, Trim, Kept;
    var a, z := LeadCount(s, ws), j + Kept(s, ws, j);
    KeptFrom(s, ws, j);
    TrimIs(s, ws, a, z);
    TrimRest(s, ws, j, z);
    assert s[a..z] == s[a..j] + s[j..z];
  }

  lemma TrimRest(s: Bytes, ws: set<Byte>, j: nat, z: nat)
    requires j < z <= |s| && s[j] !in ws && s[z - 1] !in ws && forall i | z <= i < |s| :: s[i] in ws
    ensures Trim(s[j..], ws) == s[j..z]
  {
    hide LeadCount, KeepCount, Trim;
    var rest := s[j..];
    forall i | j <= i < |s| ensures rest[i - j] == s[i] {}
    TrimIs(rest, ws, 0, z - j);
    assert rest[0..z - j] == s[j..z];
  }

  /** The trimmed key `s`, split at its first colon. */
  lemma KeyParts(s: Bytes, j: nat)
    requires j < |s| && s[j] == COLON && forall i | 0 <= i < j :: s[i] != COLON
    requires Trim(s, BLANK) != [] && Trim(s, BLANK)[0] != COLON
    ensures LeadCount(s, BLANK) <= j
    ensures var call, t := s[LeadCount(s, BLANK)..j], Trim(s[j..], BLANK);
            && Trim(s, BLANK) == call + t && call != [] && COLON !in call && t != [] && t[0] == COLON
            && (AllPrintable(call + t) ==> AllPrintable(t))
  {
    hide Trim, LeadCount;
    TrimSplit(s, BLANK, j);
    var call, t := s[LeadCount(s, BLANK)..j], Trim(s[j..], BLANK);
    assert call == [] ==> call + t == t;
    forall i | 0 <= i < |t| && AllPrintable(call + t) ensures IsPrintable(t[i]) {
      assert (call + t)[|call| + i] == t[i];
    }
  }

  lemma KeyBehind(body: Bytes, j: nat)
    requires j <= KeyEnd(body)
    ensures KeyEnd(body[j..]) == KeyEnd(body) - j
    ensures body[j..][..KeyEnd(body[j..])] == body[..KeyEnd(body)][j..]
  {
    hide FirstTag;
    KeyEndBehind(body, j);
    FirstTagUnique(body, j, KeyEnd(body));
  }

  lemma ColonKeys(r: Bytes, ctx: Context) returns (call: Bytes, t: Bytes)
    requires IsFramed(r) && HasCallAndColon(r) && KeyRead(r, ctx).Some?
    ensures ColonAt(r) + 1 < |r| && Body(r[ColonAt(r) + 1..]) == r[ColonAt(r) + 1..]
    ensures COLON !in call && t != [] && t[0] == COLON
    ensures FullKey(Body(r), ctx.defaultKey) == Some(call + t)
    ensures FullKey(r[ColonAt(r) + 1..], ctx.defaultKey)
            == match DefaultCall(ctx) case None => None case Some(default) => Some(default + t)
  {
    hide LooksLikeKey, SplitKey, Before, Trim, AllPrintable, LeadCount, IndexOf, KeyEnd, FullKey;
    var body, j := Body(r), ColonAt(r);
    var s, head := body[..KeyEnd(body)], r[j + 1..];
    assert head == body[j..];
    KeyBehind(body, j);
    KeyParts(s, j);
    call, t := s[LeadCount(s, BLANK)..j], Trim(s[j..], BLANK);
    FullKeys(body, head, call, t, ctx);
  }

  lemma FullKeys(body: Bytes, head: Bytes, call: Bytes, t: Bytes, ctx: Context)
    requires Trim(body[..KeyEnd(body)], BLANK) == call + t && Trim(head[..KeyEnd(head)], BLANK) == t
    requires call != [] && COLON !in call && t != [] && t[0] == COLON
    requires FullKey(body, ctx.defaultKey).Some? && (AllPrintable(call + t) ==> AllPrintable(t))
    ensures FullKey(body, ctx.defaultKey) == Some(call + t)
    ensures FullKey(head, ctx.defaultKey)
            == match DefaultCall(ctx) case None => None case Some(default) => Some(default + t)
  {
    hide Before, Trim, AllPrintable, KeyEnd;
    assert (call + t)[0] == call[0];
  }

  /** A key that starts with its colon reads the same vintage under any call it is completed with. */
  lemma CompletedKey(call: Bytes, t: Bytes)
    requires COLON !in call && t != [] && t[0] == COLON
    ensures Before(call + t, COLON) == call
    ensures SplitKey(call + t)
            == match ParseUnsigned(t[1..], 65535) case None => None case Some(year) => Some((call, Some(year)))
  {
    hide ParseUnsigned, Before;
    BeforeOfJoin(call, COLON, t);
    assert (call + t)[|call|] == COLON && (call + t)[|call| + 1..] == t[1..];
  }

  /** The rest of such a record from its colon on, as an index entry points at it, parses like the record if
      and only if the index key completes it with the record's own call; and it is read under whatever call
      the index key gives, when that is one. */
  lemma HeadAtColon(r: Bytes, ctx: Context)
    requires IsFramed(r) && HasCallAndColon(r) && ParsedSegment(r, ctx).Some?
    ensures ColonAt(r) + 1 < |r|
    ensures ParsedSegment(r[ColonAt(r) + 1..], ctx) == ParsedSegment(r, ctx)
            <==> DefaultCall(ctx) == Some(ParsedSegment(r, ctx).value.callsign)
    ensures DefaultCall(ctx).Some? && LooksLikeKey(DefaultCall(ctx).value) ==>
              var x := ParsedSegment(r[ColonAt(r) + 1..], ctx);
              x.Some? && x.value.callsign == DefaultCall(ctx).value
    ensures ParsedSegment(r, ctx).value.vintage.Some?
  {
    hide FullKey, ParsedSegment, SplitKey, DefaultCall, SameFields, HasCallAndColon, Before, AllCallBytes;
    ReadingKept(r, ctx);
    var call, t := ColonKeys(r, ctx);
    var head := r[ColonAt(r) + 1..];
    CompletedKey(call, t);
    HeadReads(r, ColonAt(r) + 1, ctx);
    ColonInKey(r);
    if DefaultCall(ctx).Some? {
      DefaultHasNoColon(ctx);
      CompletedKey(DefaultCall(ctx).value, t);
      NoColonBefore(DefaultCall(ctx).value);
      ReadingKept(head, ctx);
    }
  }

  lemma ColonInKey(r: Bytes)
    requires HasCallAndColon(r)
    ensures ColonAt(r) < KeyEnd(Body(r))
  {
  }

  lemma DefaultHasNoColon(ctx: Context)
    requires DefaultCall(ctx).Some?
    ensures COLON !in DefaultCall(ctx).value
  {
  }

  // ---- heads of index slices ------------------------------------------------------------------

  /** A stretch that starts inside a record and covers its end starts with the rest of that record. */
  lemma RestOfRecord(dat: Bytes, from: nat, end: nat, r: Span)
    requires Framing.IsRecord(dat, r.start, r.end) && r.start <= from < r.end <= end <= |dat|
    ensures FirstCut(dat, from, end) == Span(from, r.end)
    ensures InFile(dat, r) && Plain(dat, Span(from, r.end)) == Plain(dat, r)[from - r.start..]
    ensures Framing.RecordAt(dat, from) == Some((r.start, r.end))
  {
    hide Framing.IsSentinel, Cipher.DecodeAt;
    Framing.RecordAtExact(dat, from, r.start, r.end);
    PlainSlice(dat, r.start, from, r.end, r.end);
    assert dat[r.start..r.end][from - r.start..] == dat[from..r.end];
  }

  lemma RecordFramed(dat: Bytes, r: Span)
    requires Framing.IsRecord(dat, r.start, r.end)
    ensures InFile(dat, r) && IsFramed(Plain(dat, r))
  {
    hide Cipher.DecodeByte, Framing.IsSentinel;
    forall k | 0 <= k < r.end - r.start ensures Plain(dat, r)[k] == MARK <==> k == 0 {
      MarksAreSentinels(dat, r.start, r.end, k);
    }
  }

  /** The head of a slice that starts at the colon of a record and covers its end. */
  lemma ColonHead(s: Shard, ctx: Context, from: nat, end: nat, r: Span)
    requires Framing.IsRecord(s.dat, r.start, r.end) && r.end <= end <= |s.dat|
    requires HasCallAndColon(Plain(s.dat, r)) && ParsedSegment(Plain(s.dat, r), ctx).Some?
    requires from == r.start + 1 + ColonAt(Plain(s.dat, r))
    ensures r.start < from < r.end && FirstCut(s.dat, from, end) == Span(from, r.end)
    ensures !Framing.IsSentinel(s.dat, from)
    ensures ReadsRecord(s, ctx, FirstCut(s.dat, from, end))
            <==> DefaultCall(ctx) == Some(ParsedSegment(Plain(s.dat, r), ctx).value.callsign)
    ensures DefaultCall(ctx).Some? && LooksLikeKey(DefaultCall(ctx).value) ==>
              var x := ParsedSegment(Plain(s.dat, Span(from, r.end)), ctx);
              x.Some? && x.value.callsign == DefaultCall(ctx).value
  {
    hide ParsedSegment, HasCallAndColon, DefaultCall, Plain, Framing.IsSentinel, Framing.RecordAt, FirstCut, ColonAt;
    RecordFramed(s.dat, r);
    HeadAtColon(Plain(s.dat, r), ctx);
    PlainLength(s.dat, r);
    RestOfRecord(s.dat, from, end, r);
  }

  lemma PlainLength(dat: Bytes, r: Span)
    requires InFile(dat, r)
    ensures |Plain(dat, r)| == r.end - r.start
  {
  }

  lemma CallByteKept(b: Byte)
    requires IsCallByte(b)
    ensures b !in BLANK && b != COLON
  {
  }

  /** A printable key that names a call completes with that call. */
  lemma NamedDefault(s: Shard, e: IdxText.Entry, q: Bytes)
    requires IdxSearch.NamesCall(e, q) && q != [] && AllCallBytes(q) && AllPrintable(Trim(e.key, BLANK))
    ensures DefaultCall(IdxContext(s, e.key)) == Some(q)
  {
    hide Before, Trim, AllPrintable, IdxSearch.NamesCall;
    NameIsPrefix(e, q);
    TrimmedName(e.key, q);
  }

  lemma TrimmedName(key: Bytes, q: Bytes)
    requires q != [] && AllCallBytes(q) && COLON !in q
    requires |q| <= |key| && key[..|q|] == q && (|q| < |key| ==> key[|q|] == COLON)
    ensures Before(Trim(key, BLANK), COLON) == q
  {
    hide Before, Trim, LeadCount, IsCallByte;
    var n := |q| - 1;
    assert key[n] == q[n] && key[0] == q[0];
    CallByteKept(q[n]);
    CallByteKept(q[0]);
    TrimSplit(key, BLANK, n);
    var rest := Trim(key[n..], BLANK);
    assert LeadCount(key, BLANK) == 0;
    assert Trim(key, BLANK) == q + rest[1..];
    BeforeOfJoin(q, COLON, rest[1..]);
  }

  lemma NameIsPrefix(e: IdxText.Entry, q: Bytes)
    requires IdxSearch.NamesCall(e, q) && AllCallBytes(q)
    ensures |q| <= |e.key| && e.key[..|q|] == q && (|q| < |e.key| ==> e.key[|q|] == COLON) && COLON !in q
  {
  }

  // ---- slices from colon to colon ---------------------------------------------------------------

  /** What lies in front of the colon of a record reads as its call, undated and without fields. */
  lemma TailToColon(r: Bytes, ctx: Context)
    requires IsFramed(r) && HasCallAndColon(r) && ParsedSegment(r, ctx).Some?
    ensures 1 + ColonAt(r) <= |r|
    ensures var x := ParsedSegment(r[..1 + ColonAt(r)], ctx);
            x.Some? && x.value.callsign == ParsedSegment(r, ctx).value.callsign && x.value.vintage.None?
  {
    hide Enrich, ApplyFields, LooksLikeKey, SplitKey, CleanAscii, FullKey;
    var tail := r[..1 + ColonAt(r)];
    ReadingKept(r, ctx);
    TailKey(r, ctx);
    assert ParsedSegment(r, ctx).value.callsign == KeyRead(r, ctx).value.0;
    ReadingKept(tail, ctx);
  }

  /** The call of a record with a colon, as it stands in the key. */
  function OwnCall(r: Bytes): Bytes
    requires LeadCount(Body(r)[..KeyEnd(Body(r))], BLANK) <= ColonAt(r) <= KeyEnd(Body(r))
  {
    var s := Body(r)[..KeyEnd(Body(r))];
    s[LeadCount(s, BLANK)..ColonAt(r)]
  }

  lemma CallIsOwn(r: Bytes, ctx: Context)
    requires HasCallAndColon(r) && KeyRead(r, ctx).Some?
    ensures LeadCount(Body(r)[..KeyEnd(Body(r))], BLANK) < ColonAt(r)
    ensures OwnCall(r) == KeyRead(r, ctx).value.0 && PrintableCall(OwnCall(r))
  {
    hide Before, Trim, LeadCount, IndexOf, KeyEnd, AllCallBytes, ParseUnsigned;
    var body, j := Body(r), ColonAt(r);
    var s := body[..KeyEnd(body)];
    KeyParts(s, j);
    var call, t := s[LeadCount(s, BLANK)..j], Trim(s[j..], BLANK);
    assert (call + t)[0] == call[0];
    assert FullKey(body, ctx.defaultKey) == Some(call + t);
    CompletedKey(call, t);
  }

  lemma CallAlone(segment: Bytes, call: Bytes, ctx: Context)
    requires Body(segment) != [] && CleanAscii(Body(segment)[..KeyEnd(Body(segment))]) == Some(call)
    requires PrintableCall(call)
    ensures KeyRead(segment, ctx) == Some((call, None))
  {
    hide CleanAscii, KeyEnd, Before;
    assert IsCallByte(call[0]);
    CallPrintable(call);
    NoColonBefore(call);
  }

  lemma TailBody(r: Bytes, j: nat)
    requires IsFramed(r) && j <= KeyEnd(Body(r))
    ensures 1 + j <= |r|
    ensures Body(r[..1 + j]) == Body(r)[..j] == Body(r)[..KeyEnd(Body(r))][..j] && KeyEnd(Body(r)[..j]) == j
    ensures Body(r)[..j][..j] == Body(r)[..j]
  {
    hide KeyEnd;
    KeyEndInside(Body(r), j);
  }

  lemma TailKey(r: Bytes, ctx: Context)
    requires IsFramed(r) && HasCallAndColon(r) && KeyRead(r, ctx).Some?
    ensures KeyRead(r[..1 + ColonAt(r)], ctx) == Some((KeyRead(r, ctx).value.0, None))
  {
    hide KeyRead, Trim, AllPrintable, LeadCount, IndexOf, KeyEnd, PrintableCall, HasCallAndColon, Body, IsFramed;
    var body, j := Body(r), ColonAt(r);
    ColonInKey(r);
    var s := body[..KeyEnd(body)];
    TailBody(r, j);
    CallIsOwn(r, ctx);
    CallIsTrimmed(s, LeadCount(s, BLANK), j);
    CallAlone(r[..1 + j], OwnCall(r), ctx);
  }

  lemma KeyEndInside(body: Bytes, j: nat)
    requires j <= KeyEnd(body)
    ensures KeyEnd(body[..j]) == j
  {
    FirstTagUnique(body[..j], 0, j);
  }

  lemma TrimFront(s: Bytes, ws: set<Byte>, a: nat, j: nat)
    requires a < j <= |s| && a == LeadCount(s, ws) && s[a] !in ws && s[j - 1] !in ws
    ensures Trim(s[..j], ws) == s[a..j]
  {
    hide Trim, LeadCount;
    var front := s[..j];
    forall i | 0 <= i < a ensures front[i] in ws {
      assert front[i] == s[i];
    }
    TrimIs(front, ws, a, j);
    assert front[a..j] == s[a..j];
  }

  lemma CallEnds(call: Bytes)
    requires PrintableCall(call)
    ensures call != [] && AllPrintable(call) && call[0] != COLON
    ensures call[0] !in BLANK && call[|call| - 1] !in BLANK
  {
    hide IsCallByte;
    CallPrintable(call);
    CallByteKept(call[0]);
    CallByteKept(call[|call| - 1]);
  }

  /** Blanks, and then call bytes up to the end. */
  lemma CallIsTrimmed(s: Bytes, a: nat, j: nat)
    requires a < j <= |s| && PrintableCall(s[a..j]) && a == LeadCount(s, BLANK)
    ensures Trim(s[..j], BLANK) == s[a..j] && AllPrintable(s[a..j]) && s[a..j][0] != COLON
  {
    hide Trim, LeadCount, AllPrintable, PrintableCall;
    CallEnds(s[a..j]);
    assert s[a] == s[a..j][0] && s[j - 1] == s[a..j][j - a - 1];
    TrimFront(s, BLANK, a, j);
  }

  lemma ColonTail(s: Shard, ctx: Context, from: nat, end: nat, r: Span)
    requires Framing.IsRecord(s.dat, r.start, r.end) && from <= r.start && end <= |s.dat|
    requires HasCallAndColon(Plain(s.dat, r)) && ParsedSegment(Plain(s.dat, r), ctx).Some?
    requires end == r.start + 1 + ColonAt(Plain(s.dat, r))
    ensures r.start < end < r.end && LastCut(s.dat, from, end) == Span(r.start, end) && !Framing.IsSentinel(s.dat, end)
    ensures !ReadsRecord(s, ctx, LastCut(s.dat, from, end))
    ensures var x := ParsedSegment(Plain(s.dat, Span(r.start, end)), ctx);
            x.Some? && x.value.callsign == ParsedSegment(Plain(s.dat, r), ctx).value.callsign
  {
    hide ParsedSegment, HasCallAndColon, Plain, Framing.IsSentinel, Framing.RecordAt, ColonAt;
    var plain := Plain(s.dat, r);
    RecordFramed(s.dat, r);
    PlainLength(s.dat, r);
    HeadAtColon(plain, ctx);
    TailToColon(plain, ctx);
    PlainOfFront(s.dat, r, end);
    Framing.RecordAtExact(s.dat, r.start, r.start, r.end);
  }

  lemma PlainOfFront(dat: Bytes, r: Span, end: nat)
    requires InFile(dat, r) && r.start <= end <= r.end
    ensures Plain(dat, Span(r.start, end)) == Plain(dat, r)[..end - r.start]
  {
    hide Cipher.DecodeAt;
    PlainSlice(dat, r.start, r.start, end, r.end);
  }

  /** The record names a call and a vintage, whichever index key it is read under. */
  ghost predicate Dated(s: Shard, ctx: Context, r: Span) {
    && Framing.IsRecord(s.dat, r.start, r.end)
    && HasCallAndColon(Plain(s.dat, r)) && ParsedSegment(Plain(s.dat, r), ctx).Some?
  }

  ghost function CallOf(s: Shard, ctx: Context, r: Span): Bytes
    requires Dated(s, ctx, r)
  {
    ParsedSegment(Plain(s.dat, r), ctx).value.callsign
  }

  function Colon(s: Shard, r: Span): nat
    requires InFile(s.dat, r)
  {
    r.start + 1 + ColonAt(Plain(s.dat, r))
  }

  lemma SpeaksItsCall(s: Shard, q: Bytes, ctx: Context, p: Span)
    requires InFile(s.dat, p) && AllCallBytes(q) && ParsedSegment(Plain(s.dat, p), ctx).Some?
    ensures Speaks(s, q, ctx, p) <==> ParsedSegment(Plain(s.dat, p), ctx).value.callsign == q
  {
    hide ParsedSegment, Plain, MatchedSegment, AllCallBytes;
    MatchedSegmentFilters(Plain(s.dat, p), q, ctx);
    ParsedShape(Plain(s.dat, p), ctx);
    UpperIsIdentity(q);
    UpperIsIdentity(ParsedSegment(Plain(s.dat, p), ctx).value.callsign);
  }

  /** An index whose offsets are the colons of dated records reads an entry's slice right, so that all it answers
      is what whole records say, if and only if the record it points at has the call of the key and the next
      one has not: what the slice holds of that one, its call, would be read as an undated record. */
  lemma ColonToColon(s: Shard, q: Bytes, e: IdxText.Entry, r: Span, next: Span)
    requires IdxSearch.Valid(s.idx) && IdxSearch.NamesCall(e, q) && AllPrintable(Trim(e.key, BLANK))
    requires PrintableCall(q)
    requires Dated(s, IdxContext(s, e.key), r) && Dated(s, IdxContext(s, e.key), next) && r.end <= next.start
    requires IdxSearch.RawSlice(IdxSearch.Rows(s.idx), |s.dat|, e) == Some((Colon(s, r), Colon(s, next)))
    ensures AllRead(s, IdxContext(s, e.key), EntrySpans(s, q, e))
            <==> CallOf(s, IdxContext(s, e.key), r) == q && CallOf(s, IdxContext(s, e.key), next) != q
  {
    hide ParsedSegment, Plain, HasCallAndColon, DefaultCall, Speaks, ReadsRecord, FirstCut, LastCut, AllRead,
      EntrySpans, ColonAt, IdxSearch.RawSlice, IdxSearch.NamesCall, AllCallBytes, AllPrintable, Framing.IsSentinel;
    var ctx, from, end := IdxContext(s, e.key), Colon(s, r), Colon(s, next);
    EntryReadsRecords(s, q, e);
    NamedDefault(s, e, q);
    QueryLooksLikeKey(q);
    ColonHead(s, ctx, from, end, r);
    ColonTail(s, ctx, from, end, next);
    SpeaksItsCall(s, q, ctx, Span(from, r.end));
    SpeaksItsCall(s, q, ctx, Span(next.start, end));
  }

  lemma QueryLooksLikeKey(q: Bytes)
    requires PrintableCall(q)
    ensures LooksLikeKey(q)
  {
    CallPrintable(q);
    NoColonBefore(q);
  }
}
