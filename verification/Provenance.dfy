/** Reported data traced back to records of the DAT and rows of the catalog. */
module Provenance {
  import opened Ascii
  import opened Snapshots
  import opened Records
  import opened Merging
  import opened IdxSearch
  import opened Lookup
  import opened LookupTheorems
  import opened Pieces
  import Cipher
  import Framing
  import Hci
  import IdxText

  /** `x` is what the piece `p` of the DAT parses to, and it is the query's. */
  predicate Reads(s: Shard, q: Bytes, ctx: Context, p: Span, x: Snapshot) {
    InFile(s.dat, p) && ParsedSegment(Plain(s.dat, p), ctx) == Some(x) && EqIgnoreCase(x.callsign, q)
  }

  lemma {:induction false} MatchedMember(segments: seq<Bytes>, q: Bytes, ctx: Context, x: Snapshot)
    requires x in Matched(segments, q, ctx)
    ensures exists i :: 0 <= i < |segments| && ParsedSegment(segments[i], ctx) == Some(x) && EqIgnoreCase(x.callsign, q)
  {
    hide ParsedSegment, MatchedSegment, EqIgnoreCase;
    if x in MatchedSegment(segments[0], q, ctx) {
      MatchedSegmentFilters(segments[0], q, ctx);
    } else {
      MatchedMember(segments[1..], q, ctx, x);
      var i :| 0 <= i < |segments[1..]| && ParsedSegment(segments[1..][i], ctx) == Some(x);
      assert segments[1..][i] == segments[i + 1];
    }
  }

  lemma {:induction false} MemberMatched(segments: seq<Bytes>, q: Bytes, ctx: Context, i: nat, x: Snapshot)
    requires i < |segments| && ParsedSegment(segments[i], ctx) == Some(x) && EqIgnoreCase(x.callsign, q)
    ensures x in Matched(segments, q, ctx)
  {
    hide ParsedSegment, MatchedSegment, EqIgnoreCase;
    if i == 0 {
      MatchedSegmentFilters(segments[0], q, ctx);
    } else {
      MemberMatched(segments[1..], q, ctx, i - 1, x);
    }
  }

  lemma SpanOf(s: Shard, q: Bytes, ctx: Context, ps: seq<Span>, x: Snapshot)
    requires AllInFile(s.dat, ps) && x in Matched(Plains(s.dat, ps), q, ctx)
    ensures exists p :: p in ps && Reads(s, q, ctx, p, x)
  {
    hide ParsedSegment, Plain, Matched, EqIgnoreCase;
    MatchedMember(Plains(s.dat, ps), q, ctx, x);
    var i :| 0 <= i < |ps| && ParsedSegment(Plains(s.dat, ps)[i], ctx) == Some(x);
    assert Reads(s, q, ctx, ps[i], x);
  }

  // ---- always: pieces ----------------------------------------------------------------------

  /** Read from a piece near an offset that the query's key family posts. */
  ghost predicate ReadFromPosting(s: Shard, q: Bytes, x: Snapshot) {
    s.hci.Some? && exists o: nat, p ::
      FamilyPostsAt(s.hci.value, q, o) && Piece(s.dat, o, p) && Reads(s, q, HciContext(s), p, x)
  }

  /** Read from a piece of the slice of an index entry that names the query. */
  ghost predicate ReadFromEntry(s: Shard, q: Bytes, x: Snapshot)
    requires Valid(s.idx)
  {
    exists e, p :: e in Rows(s.idx) && NamesCall(e, q) && PieceOf(s, e, p) && Reads(s, q, IdxContext(s, e.key), p, x)
  }

  /** The pieces of an entry's slice: its records, and what it holds of the records it starts and ends in. */
  predicate PieceOf(s: Shard, e: IdxText.Entry, p: Span)
    requires Valid(s.idx)
    ensures PieceOf(s, e, p) ==> InFile(s.dat, p)
  {
    var slice := RawSlice(Rows(s.idx), |s.dat|, e);
    slice.Some? && Between(s.dat, slice.value.0, slice.value.1, p)
  }

  lemma PostingIsRead(s: Shard, q: Bytes, o: nat, x: Snapshot)
    requires x in PostingSnapshots(s, q, o)
    ensures o < |s.dat|
    ensures exists p :: p in PostingSpans(s, q, o) && Piece(s.dat, o, p) && Reads(s, q, HciContext(s), p, x)
  {
    hide PostingSnapshots, PostingSpans, Matched, Plains, Piece, Reads, Speaks;
    SpansAnswer(s, q, o);
    SpanOf(s, q, HciContext(s), PostingSpans(s, q, o), x);
    var p :| p in PostingSpans(s, q, o) && Reads(s, q, HciContext(s), p, x);
    PostingPieces(s, q, o, p);
  }

  lemma EntryIsRead(s: Shard, q: Bytes, e: IdxText.Entry, x: Snapshot)
    requires Valid(s.idx) && x in EntrySnapshots(s, q, e)
    ensures exists p :: p in EntrySpans(s, q, e) && PieceOf(s, e, p) && Reads(s, q, IdxContext(s, e.key), p, x)
  {
    hide EntrySnapshots, EntrySpans, Matched, Plains, Reads, Speaks;
    EntrySpansAnswer(s, q, e);
    SpanOf(s, q, IdxContext(s, e.key), EntrySpans(s, q, e), x);
    var p :| p in EntrySpans(s, q, e) && Reads(s, q, IdxContext(s, e.key), p, x);
    EntrySpanIsPiece(s, q, e, p);
  }

  lemma EntrySpanIsPiece(s: Shard, q: Bytes, e: IdxText.Entry, p: Span)
    requires Valid(s.idx) && p in EntrySpans(s, q, e)
    ensures PieceOf(s, e, p)
  {
    hide Speaks, Speaking, Cuts, RawSlice, Between;
    var slice := RawSlice(Rows(s.idx), |s.dat|, e).value;
    SpeakingInFile(s, q, IdxContext(s, e.key), Cuts(s.dat, slice.0, slice.1), p);
    SpeakingMembers(s, q, IdxContext(s, e.key), Cuts(s.dat, slice.0, slice.1), p);
    CutsExact(s.dat, slice.0, slice.1, p);
  }

  lemma PieceAnswersEntry(s: Shard, q: Bytes, e: IdxText.Entry, p: Span, x: Snapshot)
    requires Valid(s.idx) && PieceOf(s, e, p)
    requires ParsedSegment(Plain(s.dat, p), IdxContext(s, e.key)) == Some(x) && x.callsign == q
    ensures x in EntrySnapshots(s, q, e)
  {
    hide ParsedSegment, Between, RawSlice, Cuts, Plain, SegmentsFrom, Matched, Cipher.DecodeAt;
    var slice := RawSlice(Rows(s.idx), |s.dat|, e).value;
    var cuts := Cuts(s.dat, slice.0, slice.1);
    CutsAreSegments(s.dat, slice.0, slice.1);
    CutsExact(s.dat, slice.0, slice.1, p);
    var i :| 0 <= i < |cuts| && cuts[i] == p;
    MemberMatched(Plains(s.dat, cuts), q, IdxContext(s, e.key), i, x);
  }

  /** Whatever is held for a query is the catalog's row or read from a piece of the DAT that an index points
      to. */
  lemma HeldIsRead(db: CallBook, q: Bytes, x: Snapshot)
    requires OpenedBook(db) && Held(db, q, x)
    ensures || UsCurrent(db, q) == Some(x)
            || (db.v2.Some? && (ReadFromPosting(db.v2.value, q, x) || ReadFromEntry(db.v2.value, q, x)))
  {
    hide UsCurrent, EntrySnapshots, PostingSnapshots, PostingSpans, EntrySpans, FamilyPostsAt, Reads, Piece, PieceOf,
      NamesCall, KeysAscend, Hci.Built;
    if UsCurrent(db, q) != Some(x) {
      var s := db.v2.value;
      if e :| e in Rows(s.idx) && NamesCall(e, q) && x in EntrySnapshots(s, q, e) {
        EntryIsRead(s, q, e, x);
      } else {
        var o: nat :| FamilyPostsAt(s.hci.value, q, o) && x in PostingSnapshots(s, q, o);
        PostingIsRead(s, q, o, x);
      }
    }
  }

  // ---- records, unless something reads astray -------------------------------------------------

  /** Every entry and every posting of the query reads only what the records it reads from parse to. */
  ghost predicate NothingStrayFor(s: Shard, q: Bytes)
    requires Valid(s.idx)
  {
    && (forall e | e in Rows(s.idx) && NamesCall(e, q) :: EntryReads(s, q, e))
    && (s.hci.Some? ==> forall o: nat | o < |s.dat| && FamilyPostsAt(s.hci.value, q, o) :: PostingReads(s, q, o))
  }

  /** A whole record that parses to `x`, which is the query's. */
  ghost predicate OnRecord(s: Shard, q: Bytes, ctx: Context, r: Span, x: Snapshot) {
    Framing.IsRecord(s.dat, r.start, r.end) && Reads(s, q, ctx, r, x)
  }

  /** A record around the offset, or starting within 8192 bytes of it. */
  predicate Near(offset: nat, r: Span) { r.start <= offset < r.end || offset <= r.start < offset + LAST_WINDOW }

  /** A piece of the entry's slice lies in the record and reads as it. */
  predicate ReadBy(s: Shard, e: IdxText.Entry, r: Span, p: Span)
    requires Valid(s.idx)
  {
    PieceOf(s, e, p) && r.start <= p.start < r.end && ReadsRecord(s, IdxContext(s, e.key), p)
  }

  /** A whole record near an offset that the query's key family posts. */
  ghost predicate RecordedPosting(s: Shard, q: Bytes, x: Snapshot) {
    s.hci.Some? && exists o: nat, r ::
      FamilyPostsAt(s.hci.value, q, o) && Near(o, r) && OnRecord(s, q, HciContext(s), r, x)
  }

  /** A whole record that the slice of an entry naming the query reads. */
  ghost predicate RecordedEntry(s: Shard, q: Bytes, x: Snapshot)
    requires Valid(s.idx)
  {
    exists e, r, p ::
      e in Rows(s.idx) && NamesCall(e, q) && ReadBy(s, e, r, p) && OnRecord(s, q, IdxContext(s, e.key), r, x)
  }

  ghost predicate Recorded(db: CallBook, q: Bytes, x: Snapshot)
    requires db.v2.Some? ==> Valid(db.v2.value.idx)
  {
    || UsCurrent(db, q) == Some(x)
    || (db.v2.Some? && (RecordedPosting(db.v2.value, q, x) || RecordedEntry(db.v2.value, q, x)))
  }

  /** A piece that reads as the record around its start leads to that record. */
  lemma RecordBehind(s: Shard, q: Bytes, ctx: Context, p: Span, x: Snapshot) returns (r: Span)
    requires ReadsRecord(s, ctx, p) && Reads(s, q, ctx, p, x)
    ensures r.start <= p.start < r.end && OnRecord(s, q, ctx, r, x)
    ensures Framing.IsRecord(s.dat, p.start, p.end) ==> r == p
  {
    hide ParsedSegment, EqIgnoreCase, Framing.IsSentinel, Plain;
    var found := Framing.RecordAt(s.dat, p.start).value;
    r := Span(found.0, found.1);
    if Framing.IsRecord(s.dat, p.start, p.end) {
      Framing.RecordUnique(s.dat, p.start, p.start, p.end, r.start, r.end);
    }
  }

  lemma PostingRecorded(s: Shard, q: Bytes, o: nat, x: Snapshot)
    requires x in PostingSnapshots(s, q, o) && o < |s.dat| && PostingReads(s, q, o)
    ensures exists r :: Near(o, r) && OnRecord(s, q, HciContext(s), r, x)
  {
    hide PostingSnapshots, PostingSpans, PostingReads, Reads, ReadsRecord, OnRecord, Framing.IsRecord,
      Framing.IsSentinel;
    PostingIsRead(s, q, o, x);
    PostingReadsRecords(s, q, o);
    var p :| p in PostingSpans(s, q, o) && Piece(s.dat, o, p) && Reads(s, q, HciContext(s), p, x);
    var r := RecordBehind(s, q, HciContext(s), p, x);
    assert Near(o, r);
  }

  lemma EntryRecorded(s: Shard, q: Bytes, e: IdxText.Entry, x: Snapshot)
    requires Valid(s.idx) && x in EntrySnapshots(s, q, e) && EntryReads(s, q, e)
    ensures exists r, p :: ReadBy(s, e, r, p) && OnRecord(s, q, IdxContext(s, e.key), r, x)
  {
    hide EntrySnapshots, EntrySpans, EntryReads, Reads, ReadsRecord, OnRecord, PieceOf;
    EntryIsRead(s, q, e, x);
    EntryReadsRecords(s, q, e);
    var p :| p in EntrySpans(s, q, e) && PieceOf(s, e, p) && Reads(s, q, IdxContext(s, e.key), p, x);
    var r := RecordBehind(s, q, IdxContext(s, e.key), p, x);
    assert ReadBy(s, e, r, p);
  }

  lemma HeldIsRecorded(db: CallBook, q: Bytes, x: Snapshot)
    requires OpenedBook(db) && Held(db, q, x)
    requires db.v2.Some? ==> NothingStrayFor(db.v2.value, q)
    ensures Recorded(db, q, x)
  {
    hide UsCurrent, EntrySnapshots, PostingSnapshots, FamilyPostsAt, Near, ReadBy, OnRecord,
      NamesCall, KeysAscend, Hci.Built, EntryReads, PostingReads;
    if UsCurrent(db, q) != Some(x) {
      var s := db.v2.value;
      if e :| e in Rows(s.idx) && NamesCall(e, q) && x in EntrySnapshots(s, q, e) {
        EntryRecorded(s, q, e, x);
      } else {
        var o: nat :| FamilyPostsAt(s.hci.value, q, o) && x in PostingSnapshots(s, q, o);
        PostingIsRead(s, q, o, x);
        PostingRecorded(s, q, o, x);
      }
    }
  }

  /** Nothing is invented, down to the file: unless something reads astray for the query, every text of a
      reported record is, unchanged, what one whole DAT record or the catalog row has for its vintage, and
      every source it names has such a record. */
  lemma ReportedFromRecords(db: CallBook, q: Bytes, m: Snapshot, f: Field, src: Source)
    requires OpenedBook(db) && IsQuery(q) && Reports(ReportFor(db, q), m)
    requires db.v2.Some? ==> KeysStrictlyAscend(Rows(db.v2.value.idx)) && NothingStrayFor(db.v2.value, q)
    ensures exists x :: Recorded(db, q, x) && x.vintage == m.vintage && Get(x.text, f) == Get(m.text, f)
    ensures src in m.sources ==> exists x :: Recorded(db, q, x) && x.vintage == m.vintage && src in x.sources
  {
    hide Recorded, Held, NothingStrayFor, ReportFor, Reports, Get, KeysAscend, KeysStrictlyAscend, Hci.Built, IsQuery;
    NothingInvented(db, q, m, f, src);
    var x :| Held(db, q, x) && x.vintage == m.vintage && Get(x.text, f) == Get(m.text, f);
    HeldIsRecorded(db, q, x);
    if src in m.sources {
      var y :| Held(db, q, y) && y.vintage == m.vintage && src in y.sources;
      HeldIsRecorded(db, q, y);
    }
  }
}
