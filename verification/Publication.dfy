/** From a printed record, encoded into the DAT and posted in the HCI, to the report of a lookup. */
module Publication {
  import opened Ascii
  import opened Snapshots
  import opened Records
  import opened RecordText
  import opened Lookup
  import opened LookupTheorems
  import opened Merging
  import opened IdxSearch
  import Cipher
  import Framing
  import Hci
  import HciKeys
  import HciText

  /** Encoding is decoding: in an encoded file the sentinels are the plain 0xb5 bytes. */
  lemma SentinelsOfPlain(plain: Bytes, i: nat)
    requires i < |plain|
    ensures Framing.IsSentinel(Cipher.DecodeAt(0, plain), i) <==> plain[i] == MARK
  {
    hide Cipher.DecodeByte;
    Cipher.DecodeAtInvolution(0, plain);
    assert Cipher.DecodeAt(0, Cipher.DecodeAt(0, plain))[i] == plain[i];
  }

  /** A plain record, encoded anywhere in a file, is framed as a record and decodes to itself. */
  lemma EncodedFramed(before: Bytes, r: Bytes, after: Bytes)
    requires IsFramed(r) && (after != [] ==> after[0] == MARK)
    ensures var dat, end := Cipher.DecodeAt(0, before + r + after), |before| + |r|;
            && Framing.IsRecord(dat, |before|, end)
            && Cipher.DecodeAt(|before|, dat[|before|..end]) == r
  {
    hide Cipher.DecodeByte, Framing.IsSentinel;
    var plain, end := before + r + after, |before| + |r|;
    var dat := Cipher.DecodeAt(0, plain);
    forall k | |before| <= k < end ensures Framing.IsSentinel(dat, k) <==> k == |before| {
      assert plain[k] == r[k - |before|];
      SentinelsOfPlain(plain, k);
    }
    if end < |dat| {
      SentinelsOfPlain(plain, end);
    }
    Cipher.DecodeAtInvolution(0, plain);
    Cipher.DecodeSlice(0, dat, |before|, end);
    assert plain[|before|..end] == r;
  }

  /** So is every printed record. */
  lemma EncodedRecordFramed(before: Bytes, call: Bytes, vintage: Option<nat>, fields: seq<(Byte, Bytes)>, after: Bytes)
    requires PrintableCall(call) && PrintableFields(fields)
    requires after != [] ==> after[0] == MARK
    ensures var r := RecordBytes(call, vintage, fields);
            var dat, end := Cipher.DecodeAt(0, before + r + after), |before| + |r|;
            && Framing.IsRecord(dat, |before|, end)
            && Cipher.DecodeAt(|before|, dat[|before|..end]) == r
  {
    hide RecordBytes, PrintableCall, PrintableFields, Cipher.DecodeByte, Framing.IsSentinel;
    NoMarkInside(call, vintage, fields);
    RecordStart(call, vintage, fields);
    EncodedFramed(before, RecordBytes(call, vintage, fields), after);
  }

  lemma RecordStart(call: Bytes, vintage: Option<nat>, fields: seq<(Byte, Bytes)>)
    ensures RecordBytes(call, vintage, fields) != [] && RecordBytes(call, vintage, fields)[0] == MARK
  {
  }

  lemma {:induction false} TagsKeepKey(s: Snapshot, fields: seq<(Byte, Bytes)>)
    ensures AppliedTags(s, fields).callsign == s.callsign && AppliedTags(s, fields).vintage == s.vintage
    decreases |fields|
  {
    hide FieldOf;
    if fields != [] {
      TagsKeepKey(ApplyTag(s, fields[0].0, fields[0].1), fields[1..]);
    }
  }

  /** What a printed record parses to. */
  function Printed(call: Bytes, vintage: Option<nat>, fields: seq<(Byte, Bytes)>, ctx: Context): Snapshot {
    Enrich(AppliedTags(NewSnapshot(call, vintage, ctx.source), fields), ctx)
  }

  lemma PrintedValues(call: Bytes, vintage: Option<nat>, fields: seq<(Byte, Bytes)>, ctx: Context, f: Field)
    ensures Printed(call, vintage, fields, ctx).callsign == call
    ensures Printed(call, vintage, fields, ctx).vintage == vintage
    ensures LastValue(fields, f).Some? ==> Get(Printed(call, vintage, fields, ctx).text, f) == LastValue(fields, f)
  {
    hide Enrich, LastValue, AppliedTags;
    var bare := NewSnapshot(call, vintage, ctx.source);
    TagsKeepKey(bare, fields);
    EnrichKeepsKey(AppliedTags(bare, fields), ctx);
    LastValueWins(bare, fields, f);
    EnrichOnlyAdds(AppliedTags(bare, fields), ctx, f);
  }

  lemma {:induction false} LastValueNonEmpty(fields: seq<(Byte, Bytes)>, f: Field)
    requires PrintableFields(fields) && LastValue(fields, f).Some?
    ensures LastValue(fields, f).value != []
    decreases |fields|
  {
    hide FieldOf;
    if LastValue(fields[1..], f).Some? {
      LastValueNonEmpty(fields[1..], f);
    }
  }

  /** The record is in the book: encoded in its DAT at `at`, with a posting of the call's key family
      somewhere inside it. */
  ghost predicate Published(s: Shard, call: Bytes, vintage: Option<nat>, fields: seq<(Byte, Bytes)>, at: nat,
                            offset: nat) {
    var end := at + |RecordBytes(call, vintage, fields)|;
    && s.hci.Some? && FamilyPostsAt(s.hci.value, call, offset)
    && at <= offset < end <= |s.dat|
    && (exists before, after :: |before| == at && (after != [] ==> after[0] == MARK)
          && s.dat == Cipher.DecodeAt(0, before + RecordBytes(call, vintage, fields) + after))
  }

  /** `x` is among the parts, and no part in front of it has a text for `f`. */
  ghost predicate NothingEarlier(parts: seq<Snapshot>, x: Snapshot, f: Field) {
    exists k :: 0 <= k < |parts| && parts[k] == x && forall j | 0 <= j < k :: !NonEmpty(Get(parts[j].text, f))
  }

  lemma FirstHolder(m: Snapshot, parts: seq<Snapshot>, x: Snapshot, f: Field)
    requires TakesFirst(m, parts) && NothingEarlier(parts, x, f) && f != LastName && NonEmpty(Get(x.text, f))
    ensures Get(m.text, f) == Get(x.text, f)
  {
    hide NonEmpty, Get, FirstText;
    var k :| 0 <= k < |parts| && parts[k] == x && forall j | 0 <= j < k :: !NonEmpty(Get(parts[j].text, f));
    FirstTextAt(parts, k, f);
    TextIsNonEmpty(parts, f);
    assert FirstText(parts, f).Some? by { NonEmptyIsSome(Get(x.text, f)); }
  }

  /** `m` has a value for every given field: the given value itself when nothing that arrives before `x`
      has the field. */
  ghost predicate Shows(m: Snapshot, parts: seq<Snapshot>, x: Snapshot, fields: seq<(Byte, Bytes)>) {
    forall f | LastValue(fields, f).Some? ::
      && NonEmpty(Get(m.text, f))
      && (f != LastName && NothingEarlier(parts, x, f) ==> Get(m.text, f) == LastValue(fields, f))
  }

  lemma KeptIsShown(m: Snapshot, parts: seq<Snapshot>, call: Bytes, vintage: Option<nat>, fields: seq<(Byte, Bytes)>,
                    ctx: Context)
    requires PrintableFields(fields) && Keeps(m, Printed(call, vintage, fields, ctx)) && TakesFirst(m, parts)
    ensures Shows(m, parts, Printed(call, vintage, fields, ctx), fields)
  {
    hide TakesFirst, NothingEarlier, PrintableFields, LastValue, NonEmpty, Get, Printed;
    var x := Printed(call, vintage, fields, ctx);
    forall f | LastValue(fields, f).Some?
      ensures NonEmpty(Get(m.text, f))
      ensures f != LastName && NothingEarlier(parts, x, f) ==> Get(m.text, f) == LastValue(fields, f)
    {
      PrintedValues(call, vintage, fields, ctx, f);
      LastValueNonEmpty(fields, f);
      NonEmptyValue(Get(x.text, f));
      if f != LastName && NothingEarlier(parts, x, f) {
        FirstHolder(m, parts, x, f);
      }
    }
  }

  /** A published record is framed at its place, and the framed bytes parse to it. */
  lemma PublishedIsFramed(s: Shard, call: Bytes, vintage: Option<nat>, fields: seq<(Byte, Bytes)>, at: nat, offset: nat)
    requires PrintableCall(call) && PrintableFields(fields) && (vintage.Some? ==> vintage.value <= 65535)
    requires Published(s, call, vintage, fields, at, offset)
    ensures var end := at + |RecordBytes(call, vintage, fields)|;
            && s.hci.Some? && FamilyPostsAt(s.hci.value, call, offset)
            && Framing.IsRecord(s.dat, at, end) && at <= offset < end
            && ParsedSegment(Cipher.DecodeAt(at, s.dat[at..end]), HciContext(s))
               == Some(Printed(call, vintage, fields, HciContext(s)))
  {
    hide RecordBytes, PrintableFields, PrintableCall, ParsedSegment, FamilyPostsAt, Framing.IsRecord, Printed,
      Cipher.DecodeAt;
    var r := RecordBytes(call, vintage, fields);
    var before, after :| |before| == at && (after != [] ==> after[0] == MARK)
                         && s.dat == Cipher.DecodeAt(0, before + r + after);
    EncodedRecordFramed(before, call, vintage, fields, after);
    PrintedRecordParses(call, vintage, fields, HciContext(s));
    PrintedIs(call, vintage, fields, HciContext(s));
  }

  /** A published record is reported by a lookup of its call: the report has a record of its vintage,
      names the HCI source, and shows the fields the record gives. */
  lemma PublishedRecordIsReported(db: CallBook, call: Bytes, vintage: Option<nat>, fields: seq<(Byte, Bytes)>,
                                  at: nat, offset: nat)
    requires OpenedBook(db) && db.v2.Some? && KeysStrictlyAscend(Rows(db.v2.value.idx))
    requires PrintableCall(call) && PrintableFields(fields) && (vintage.Some? ==> vintage.value <= 65535)
    requires Published(db.v2.value, call, vintage, fields, at, offset)
    ensures exists m :: Reports(ReportFor(db, call), m) && m.vintage == vintage && HamCallHci in m.sources
                        && Shows(m, Parts(db, call, vintage), PrintedAt(db, call, vintage, fields), fields)
  {
    hide Published, TakesFirst, Shows, Parts, RecordBytes, PrintableFields, Reports, ReportFor, ParsedSegment,
      KeysAscend,
      KeysStrictlyAscend, Hci.Built, FamilyPostsAt, Framing.IsRecord, Printed, Cipher.DecodeAt;
    var s := db.v2.value;
    var x := Printed(call, vintage, fields, HciContext(s));
    PublishedIsFramed(s, call, vintage, fields, at, offset);
    PrintedValues(call, vintage, fields, HciContext(s), LastName);
    PostedRecordIsReported(db, call, offset, at, at + |RecordBytes(call, vintage, fields)|, x);
    var parts := Parts(db, call, vintage);
    var m :| Reports(ReportFor(db, call), m) && Keeps(m, x) && HamCallHci in m.sources && TakesFirst(m, parts);
    KeptIsShown(m, parts, call, vintage, fields, HciContext(s));
  }

  /** What a printed record in the DAT of `db` parses to. */
  function PrintedAt(db: CallBook, call: Bytes, vintage: Option<nat>, fields: seq<(Byte, Bytes)>): Snapshot
    requires db.v2.Some?
  {
    Printed(call, vintage, fields, Context(None, HamCallHci, db.v2.value.countries, db.v2.value.interests))
  }

  lemma PrintedIs(call: Bytes, vintage: Option<nat>, fields: seq<(Byte, Bytes)>, ctx: Context)
    ensures Printed(call, vintage, fields, ctx)
            == Enrich(AppliedTags(NewSnapshot(call, vintage, ctx.source), fields), ctx)
  {
  }

  lemma NonEmptyValue(v: Option<Bytes>)
    requires v.Some? && v.value != []
    ensures NonEmpty(v)
  {
  }

  /** In a written inverted file the offsets a lookup visits are exactly those written under a key of the
      query's family. */
  lemma WrittenPosts(h: Hci.HciFile, es: seq<HciText.Entry>, q: Bytes, o: nat)
    requires HciText.AllWritable(0, es) && HciText.Holds(h, es)
    ensures FamilyPostsAt(h, q, o)
            <==> exists i, p ::
                   0 <= i < |es| && HciKeys.InFamily(q, es[i].key) && p in es[i].postings && p.datOffset == o
  {
    hide HciText.AllWritable, HciText.Holds, HciText.Writable, HciKeys.InFamily, Hci.RecordPostings;
    WrittenReach(h, es);
    if i: nat, p: Hci.Posting :| i < Hci.Reachable(h) && HciKeys.FamilyRecordHas(h, q, i, p) && p.datOffset == o {
      WrittenRecord(h, es, q, i, p);
      assert HciKeys.InFamily(q, es[i].key) && p in es[i].postings;
    }
    if i, p :| 0 <= i < |es| && HciKeys.InFamily(q, es[i].key) && p in es[i].postings && p.datOffset == o {
      WrittenRecord(h, es, q, i, p);
      assert HciKeys.FamilyRecordHas(h, q, i, p);
    }
  }

  lemma WrittenReach(h: Hci.HciFile, es: seq<HciText.Entry>)
    requires HciText.AllWritable(0, es) && HciText.Holds(h, es)
    ensures Hci.Reachable(h) == |es|
  {
    hide HciText.TableBytes, HciText.DatBytes, HciText.Writable, HciText.StartOf;
    HciText.TableLength(0, es);
    HciText.StartsGrow(0, es);
  }

  lemma WrittenRecord(h: Hci.HciFile, es: seq<HciText.Entry>, q: Bytes, i: nat, p: Hci.Posting)
    requires HciText.AllWritable(0, es) && HciText.Holds(h, es) && i < |es|
    ensures HciKeys.FamilyRecordHas(h, q, i, p) <==> HciKeys.InFamily(q, es[i].key) && p in es[i].postings
  {
    hide HciKeys.InFamily, Hci.Raw, Hci.Header, Hci.Postings, HciText.TableBytes, HciText.DatBytes, HciText.EntryBytes,
      HciText.StartOf, HciText.Writable, AllPrintable;
    HciText.RawReads(es, i);
    HciText.EntryReads(HciText.StartOf(0, es, i), es[i]);
    HciText.RecordPostingsRead(h, es, es[i].key, i);
  }
}
