/** Which stretches of the DAT an answer is read from: whole records, or pieces of them. */
module Pieces {
  import opened Ascii
  import opened Snapshots
  import opened Records
  import opened Cipher
  import opened Framing
  import opened Lookup
  import IdxSearch
  import IdxText

  /** A stretch `[start, end)` of the DAT. */
  datatype Span = Span(start: nat, end: nat)

  predicate InFile(dat: Bytes, p: Span) { p.start <= p.end <= |dat| }

  predicate AllInFile(dat: Bytes, ps: seq<Span>) { forall i | 0 <= i < |ps| :: InFile(dat, ps[i]) }

  /** The decoded bytes of a stretch. */
  function Plain(dat: Bytes, p: Span): Bytes
    requires InFile(dat, p)
  {
    DecodeAt(p.start, dat[p.start..p.end])
  }

  function Plains(dat: Bytes, ps: seq<Span>): (r: seq<Bytes>)
    requires AllInFile(dat, ps)
    ensures |r| == |ps| && forall i | 0 <= i < |r| :: r[i] == Plain(dat, ps[i])
  {
    seq(|ps|, i requires 0 <= i < |ps| => Plain(dat, ps[i]))
  }

  // ---- cutting a stretch of the file at its sentinels ------------------------------------

  /** Where the piece that starts at `from` ends: at the next sentinel, or at `end`. */
  function CutEnd(dat: Bytes, from: nat, end: nat): (n: nat)
    requires from < end <= |dat|
    ensures from < n <= end
    ensures forall k | from < k < n :: !IsSentinel(dat, k)
    ensures n < end ==> IsSentinel(dat, n)
  {
    Min(SentinelFrom(dat, from + 1), end)
  }

  /** The pieces of `[from, end)`. */
  function Cuts(dat: Bytes, from: nat, end: nat): (ps: seq<Span>)
    requires from <= end <= |dat|
    ensures AllInFile(dat, ps)
    decreases end - from
  {
    if from == end then []
    else
      var n := CutEnd(dat, from, end);
      [Span(from, n)] + Cuts(dat, n, end)
  }

  /** The pieces of `[from, end)` that a sentinel inside it closes. */
  function ClosedCuts(dat: Bytes, from: nat, end: nat): (ps: seq<Span>)
    requires from <= end <= |dat|
    ensures AllInFile(dat, ps)
    decreases end - from
  {
    if from == end then []
    else
      var n := CutEnd(dat, from, end);
      if n == end then [] else [Span(from, n)] + ClosedCuts(dat, n, end)
  }

  lemma PlainsCons(dat: Bytes, p: Span, ps: seq<Span>)
    requires InFile(dat, p) && AllInFile(dat, ps)
    ensures Plains(dat, [p] + ps) == [Plain(dat, p)] + Plains(dat, ps)
  {
    hide Plain;
  }

  lemma SubSlice(dat: Bytes, base: nat, lo: nat, hi: nat, end: nat)
    requires base <= lo <= hi <= end <= |dat|
    ensures dat[base..end][lo - base..hi - base] == dat[lo..hi]
  {
    var a, b := dat[base..end][lo - base..hi - base], dat[lo..hi];
    forall k | 0 <= k < hi - lo ensures a[k] == b[k] {
      assert dat[base..end][lo - base + k] == dat[lo + k];
    }
  }

  /** In a decoded stretch the marks are the file's sentinels. */
  lemma MarksAreSentinels(dat: Bytes, base: nat, end: nat, j: nat)
    requires base <= end <= |dat| && j < end - base
    ensures DecodeAt(base, dat[base..end])[j] == MARK <==> IsSentinel(dat, base + j)
  {
    hide DecodeByte;
  }

  lemma PlainSlice(dat: Bytes, base: nat, lo: nat, hi: nat, end: nat)
    requires base <= lo <= hi <= end <= |dat|
    ensures DecodeAt(base, dat[base..end])[lo - base..hi - base] == Plain(dat, Span(lo, hi))
  {
    hide DecodeAt;
    DecodeSlice(base, dat[base..end], lo - base, hi - base);
    SubSlice(dat, base, lo, hi, end);
    assert base + (lo - base) == lo;
  }

  /** The parser's next cut is the file's next cut. */
  lemma SameMark(dat: Bytes, base: nat, from: nat, end: nat)
    requires base <= from < end <= |dat|
    ensures NextMark(DecodeAt(base, dat[base..end]), from - base + 1) == CutEnd(dat, from, end) - base
  {
    hide DecodeAt, CutEnd, IsSentinel, NextMark;
    var d, n := DecodeAt(base, dat[base..end]), CutEnd(dat, from, end);
    forall j | from - base + 1 <= j < n - base ensures d[j] != MARK {
      MarksAreSentinels(dat, base, end, j);
    }
    if n < end {
      MarksAreSentinels(dat, base, end, n - base);
    }
    NextMarkUnique(d, from - base + 1, n - base);
  }

  lemma SameCut(dat: Bytes, base: nat, from: nat, end: nat)
    requires base <= from < end <= |dat|
    ensures var d, n := DecodeAt(base, dat[base..end]), CutEnd(dat, from, end);
            && NextMark(d, from - base + 1) == n - base
            && d[from - base..n - base] == Plain(dat, Span(from, n))
  {
    hide DecodeAt, CutEnd, Plain, NextMark;
    SameMark(dat, base, from, end);
    PlainSlice(dat, base, from, CutEnd(dat, from, end), end);
  }

  /** One more segment in front, one more piece in front. */
  lemma CutInFront(dat: Bytes, d: Bytes, base: nat, from: nat, n: nat, end: nat)
    requires base <= from < end <= |dat| && d == DecodeAt(base, dat[base..end]) && n == CutEnd(dat, from, end)
    requires SegmentsFrom(d, n - base) == Plains(dat, Cuts(dat, n, end))
    ensures SegmentsFrom(d, from - base) == Plains(dat, Cuts(dat, from, end))
  {
    hide NextMark, DecodeAt, Plain, Plains, CutEnd, IsSentinel, SegmentsFrom, Cuts, ClosedCuts;
    CutsStep(dat, from, end);
    SegmentsStep(d, from - base);
    SameCut(dat, base, from, end);
    PlainsCons(dat, Span(from, n), Cuts(dat, n, end));
  }

  lemma {:induction false} CutSegments(dat: Bytes, d: Bytes, base: nat, from: nat, end: nat)
    requires base <= from <= end <= |dat| && d == DecodeAt(base, dat[base..end])
    ensures SegmentsFrom(d, from - base) == Plains(dat, Cuts(dat, from, end))
    decreases end - from
  {
    hide NextMark, DecodeAt, Plain, Plains, CutEnd, IsSentinel, SegmentsFrom, Cuts, ClosedCuts;
    if from == end {
      CutsStep(dat, from, end);
      SegmentsStep(d, from - base);
      NoPlains(dat);
    } else {
      var n := CutEnd(dat, from, end);
      CutSegments(dat, d, base, n, end);
      CutInFront(dat, d, base, from, n, end);
    }
  }

  lemma {:induction false} ClosedSegments(dat: Bytes, d: Bytes, base: nat, from: nat, end: nat)
    requires base <= from <= end <= |dat| && d == DecodeAt(base, dat[base..end])
    ensures CompleteFrom(d, from - base) == Plains(dat, ClosedCuts(dat, from, end))
    decreases end - from
  {
    hide NextMark, DecodeAt, Plain, Plains, CutEnd, IsSentinel, CompleteFrom, Cuts, ClosedCuts;
    CutsStep(dat, from, end);
    CompleteStep(d, from - base);
    NoPlains(dat);
    if from < end {
      var n := CutEnd(dat, from, end);
      SameCut(dat, base, from, end);
      if n < end {
        ClosedSegments(dat, d, base, n, end);
        PlainsCons(dat, Span(from, n), ClosedCuts(dat, n, end));
      }
    }
  }

  /** The segments of a decoded stretch are the decoded pieces of the file. */
  lemma CutsAreSegments(dat: Bytes, base: nat, end: nat)
    requires base <= end <= |dat|
    ensures Segments(DecodeAt(base, dat[base..end])) == Plains(dat, Cuts(dat, base, end))
    ensures CompleteSegments(DecodeAt(base, dat[base..end])) == Plains(dat, ClosedCuts(dat, base, end))
  {
    hide DecodeAt, Plains, SegmentsFrom, CompleteFrom, Cuts, ClosedCuts;
    CutSegments(dat, DecodeAt(base, dat[base..end]), base, base, end);
    ClosedSegments(dat, DecodeAt(base, dat[base..end]), base, base, end);
  }

  lemma CutsStep(dat: Bytes, from: nat, end: nat)
    requires from <= end <= |dat|
    ensures from == end ==> Cuts(dat, from, end) == [] && ClosedCuts(dat, from, end) == []
    ensures from < end ==>
              var n := CutEnd(dat, from, end);
              && Cuts(dat, from, end) == [Span(from, n)] + Cuts(dat, n, end)
              && ClosedCuts(dat, from, end) == if n == end then [] else [Span(from, n)] + ClosedCuts(dat, n, end)
  {
    hide CutEnd;
  }

  lemma NoPlains(dat: Bytes)
    ensures Plains(dat, []) == []
  {
  }

  /** Where the last piece of `[from, end)` starts. */
  function TailStart(dat: Bytes, from: nat, end: nat): (t: nat)
    requires from < end <= |dat|
    ensures from <= t < end
    ensures t == from || IsSentinel(dat, t)
    ensures forall k | t < k < end :: !IsSentinel(dat, k)
    decreases end - from
  {
    var n := CutEnd(dat, from, end);
    if n == end then from else TailStart(dat, n, end)
  }

  /** What a piece of `[from, end)` looks like, and which pieces there are. */
  lemma {:induction false} CutShape(dat: Bytes, from: nat, end: nat, p: Span)
    requires from < end <= |dat|
    ensures Cuts(dat, from, end) != [] && Cuts(dat, from, end)[0] == Span(from, CutEnd(dat, from, end))
    ensures Cuts(dat, from, end) == ClosedCuts(dat, from, end) + [Span(TailStart(dat, from, end), end)]
    ensures p in Cuts(dat, from, end) ==>
              && from <= p.start < p.end <= end
              && (p.start == from || IsSentinel(dat, p.start))
              && (p.end == end || IsSentinel(dat, p.end))
              && (forall k | p.start < k < p.end :: !IsSentinel(dat, k))
    ensures p in ClosedCuts(dat, from, end) ==> p.end < end
    decreases end - from
  {
    hide IsSentinel, CutEnd;
    var n := CutEnd(dat, from, end);
    if n < end {
      CutShape(dat, n, end, p);
    } else {
      assert Cuts(dat, n, end) == [];
    }
  }

  // ---- the pieces that answer ------------------------------------------------------------------

  /** The piece parses to a snapshot of the query. */
  predicate Speaks(s: Shard, q: Bytes, ctx: Context, p: Span)
    requires InFile(s.dat, p)
  {
    MatchedSegment(Plain(s.dat, p), q, ctx) != []
  }

  function Speaking(s: Shard, q: Bytes, ctx: Context, ps: seq<Span>): (r: seq<Span>)
    requires AllInFile(s.dat, ps)
    ensures AllInFile(s.dat, r)
  {
    if ps == [] then []
    else (if Speaks(s, q, ctx, ps[0]) then [ps[0]] else []) + Speaking(s, q, ctx, ps[1..])
  }

  lemma {:induction false} SpeakingMembers(s: Shard, q: Bytes, ctx: Context, ps: seq<Span>, p: Span)
    requires AllInFile(s.dat, ps) && InFile(s.dat, p)
    ensures p in Speaking(s, q, ctx, ps) <==> p in ps && Speaks(s, q, ctx, p)
  {
    hide Speaks;
    if ps != [] {
      SpeakingMembers(s, q, ctx, ps[1..], p);
      assert ps == [ps[0]] + ps[1..];
    }
  }

  lemma {:induction false} SpeakingAnswers(s: Shard, q: Bytes, ctx: Context, ps: seq<Span>)
    requires AllInFile(s.dat, ps)
    ensures Matched(Plains(s.dat, ps), q, ctx) == Matched(Plains(s.dat, Speaking(s, q, ctx, ps)), q, ctx)
    ensures Matched(Plains(s.dat, ps), q, ctx) == [] <==> Speaking(s, q, ctx, ps) == []
  {
    hide MatchedSegment, Plain, Matched;
    if ps == [] {
      NothingMatched(q, ctx);
    } else {
      var rest := Speaking(s, q, ctx, ps[1..]);
      SpeakingAnswers(s, q, ctx, ps[1..]);
      assert ps == [ps[0]] + ps[1..];
      assert Speaking(s, q, ctx, ps) == if Speaks(s, q, ctx, ps[0]) then [ps[0]] + rest else rest;
      PlainsCons(s.dat, ps[0], ps[1..]);
      MatchedCons(Plain(s.dat, ps[0]), Plains(s.dat, ps[1..]), q, ctx);
      PlainsCons(s.dat, ps[0], rest);
      MatchedCons(Plain(s.dat, ps[0]), Plains(s.dat, rest), q, ctx);
    }
  }

  lemma NothingMatched(q: Bytes, ctx: Context)
    ensures Matched([], q, ctx) == []
  {
  }

  function RecordSpans(dat: Bytes, offset: nat): (ps: seq<Span>)
    ensures AllInFile(dat, ps)
  {
    match RecordAt(dat, offset)
    case None => []
    case Some(r) => [Span(r.0, r.1)]
  }

  function WindowEnd(dat: Bytes, offset: nat, size: nat): (e: nat)
    requires offset <= |dat|
    ensures offset <= e <= |dat|
  {
    Min(offset + size, |dat|)
  }

  function WindowSpans(s: Shard, q: Bytes, offset: nat, sizes: seq<nat>): (ps: seq<Span>)
    requires offset < |s.dat|
    ensures AllInFile(s.dat, ps)
  {
    if sizes == [] then Speaking(s, q, HciContext(s), Cuts(s.dat, offset, WindowEnd(s.dat, offset, LAST_WINDOW)))
    else
      var found := Speaking(s, q, HciContext(s), ClosedCuts(s.dat, offset, WindowEnd(s.dat, offset, sizes[0])));
      if found != [] then found else WindowSpans(s, q, offset, sizes[1..])
  }

  /** The pieces an HCI posting's answer is read from. */
  function PostingSpans(s: Shard, q: Bytes, offset: nat): (ps: seq<Span>)
    requires offset < |s.dat|
    ensures AllInFile(s.dat, ps)
  {
    var found := Speaking(s, q, HciContext(s), RecordSpans(s.dat, offset));
    if found != [] then found else WindowSpans(s, q, offset, WINDOWS)
  }

  lemma {:induction false} WindowSpansAnswer(s: Shard, q: Bytes, offset: nat, sizes: seq<nat>)
    requires offset < |s.dat|
    ensures WindowSnapshots(s, q, offset, sizes)
            == Matched(Plains(s.dat, WindowSpans(s, q, offset, sizes)), q, HciContext(s))
  {
    hide Plains, Matched, Cuts, ClosedCuts, DecodeAt, SegmentsFrom, CompleteFrom, Speaking;
    var ctx := HciContext(s);
    var end := WindowEnd(s.dat, offset, if sizes == [] then LAST_WINDOW else sizes[0]);
    CutsAreSegments(s.dat, offset, end);
    if sizes == [] {
      SpeakingAnswers(s, q, ctx, Cuts(s.dat, offset, end));
    } else {
      SpeakingAnswers(s, q, ctx, ClosedCuts(s.dat, offset, end));
      WindowSpansAnswer(s, q, offset, sizes[1..]);
    }
  }

  lemma RecordSpanSegments(dat: Bytes, offset: nat)
    ensures Segments(PostingRecord(dat, offset)) == Plains(dat, RecordSpans(dat, offset))
  {
    hide DecodeByte, IsSentinel;
    var r := RecordAt(dat, offset);
    if r.Some? {
      RecordIsOneSegment(dat, r.value.0, r.value.1);
    }
  }

  /** An answer is what its pieces parse to, piece by piece; past the end of the file there is none. */
  lemma SpansAnswer(s: Shard, q: Bytes, offset: nat)
    ensures offset < |s.dat| ==>
              PostingSnapshots(s, q, offset) == Matched(Plains(s.dat, PostingSpans(s, q, offset)), q, HciContext(s))
    ensures offset >= |s.dat| ==> PostingSnapshots(s, q, offset) == []
  {
    hide Plains, Matched, WindowSpans, WindowSnapshots, RecordSpans, PostingRecord, Segments, Speaking;
    RecordSpanSegments(s.dat, offset);
    if offset < |s.dat| {
      SpeakingAnswers(s, q, HciContext(s), RecordSpans(s.dat, offset));
      WindowSpansAnswer(s, q, offset, WINDOWS);
    } else {
      NothingBeyond(s, q, offset);
    }
  }

  lemma NothingBeyond(s: Shard, q: Bytes, offset: nat)
    requires offset >= |s.dat|
    ensures Matched(Segments(PostingRecord(s.dat, offset)), q, HciContext(s)) == []
    ensures WindowSnapshots(s, q, offset, WINDOWS) == []
  {
    hide MatchedSegment;
    assert RecordAt(s.dat, offset).None?;
    assert WINDOWS[1..][1..][1..] == [];
    NothingInWindows(s, q, offset, WINDOWS);
  }

  lemma {:induction false} NothingInWindows(s: Shard, q: Bytes, offset: nat, sizes: seq<nat>)
    requires offset >= |s.dat|
    ensures WindowSnapshots(s, q, offset, sizes) == []
  {
    hide MatchedSegment;
    if sizes != [] {
      NothingInWindows(s, q, offset, sizes[1..]);
    }
  }

  // ---- when all of them are as they should be -------------------------------------------------

  predicate RecordSpeaks(s: Shard, q: Bytes, offset: nat) {
    Speaking(s, q, HciContext(s), RecordSpans(s.dat, offset)) != []
  }

  function FirstCut(dat: Bytes, from: nat, end: nat): (p: Span)
    requires from < end <= |dat|
    ensures InFile(dat, p)
  {
    Span(from, CutEnd(dat, from, end))
  }

  function LastCut(dat: Bytes, from: nat, end: nat): (p: Span)
    requires from < end <= |dat|
    ensures InFile(dat, p)
  {
    Span(TailStart(dat, from, end), end)
  }

  /** The stretch starts inside a record, and the rest of that record alone parses to the query. */
  predicate CutAtStart(s: Shard, q: Bytes, ctx: Context, from: nat, end: nat)
    requires from < end <= |s.dat|
  {
    !IsSentinel(s.dat, from) && Speaks(s, q, ctx, FirstCut(s.dat, from, end))
  }

  /** The stretch ends inside a record, and what it holds of that record alone parses to the query. */
  predicate CutAtEnd(s: Shard, q: Bytes, ctx: Context, from: nat, end: nat)
    requires from < end <= |s.dat|
  {
    end < |s.dat| && !IsSentinel(s.dat, end) && Speaks(s, q, ctx, LastCut(s.dat, from, end))
  }

  /** The last window behind an offset starts with a cut record. */
  predicate HeadCut(s: Shard, q: Bytes, offset: nat)
    requires offset < |s.dat|
  {
    CutAtStart(s, q, HciContext(s), offset, WindowEnd(s.dat, offset, LAST_WINDOW))
  }

  /** The last window behind an offset ends with a cut record. */
  predicate TailCut(s: Shard, q: Bytes, offset: nat)
    requires offset < |s.dat|
  {
    CutAtEnd(s, q, HciContext(s), offset, WindowEnd(s.dat, offset, LAST_WINDOW))
  }

  predicate EarlyAnswer(s: Shard, q: Bytes, offset: nat, sizes: seq<nat>)
    requires offset < |s.dat|
  {
    sizes != []
    && (|| Speaking(s, q, HciContext(s), ClosedCuts(s.dat, offset, WindowEnd(s.dat, offset, sizes[0]))) != []
        || EarlyAnswer(s, q, offset, sizes[1..]))
  }

  lemma CutIsRecord(dat: Bytes, from: nat, end: nat, p: Span)
    requires from < end <= |dat| && p in Cuts(dat, from, end)
    ensures IsRecord(dat, p.start, p.end)
            <==> (p.start != from || IsSentinel(dat, from)) && (p.end != end || end == |dat| || IsSentinel(dat, end))
    ensures p.start == from ==> p.end == CutEnd(dat, from, end)
    ensures p.end == end ==> p.start == TailStart(dat, from, end)
  {
    hide Cuts, IsSentinel, CutEnd, TailStart;
    CutShape(dat, from, end, p);
  }

  /** A window that closes its first piece closes it where every longer window does. */
  lemma SameHead(dat: Bytes, from: nat, a: nat, b: nat)
    requires from < a <= b <= |dat| && ClosedCuts(dat, from, a) != []
    ensures Span(from, CutEnd(dat, from, b)) in ClosedCuts(dat, from, a)
  {
    hide IsSentinel;
    assert ClosedCuts(dat, from, a)[0] == Span(from, CutEnd(dat, from, a));
  }

  lemma ClosedIsCut(dat: Bytes, from: nat, end: nat, p: Span)
    requires from < end <= |dat| && p in ClosedCuts(dat, from, end)
    ensures p in Cuts(dat, from, end) && p.end != end
  {
    hide Cuts, ClosedCuts, IsSentinel, CutEnd, TailStart;
    CutShape(dat, from, end, p);
  }

  /** A property that every whole record has. */
  ghost predicate OfRecords(dat: Bytes, good: Span -> bool) {
    forall p: Span | InFile(dat, p) && IsRecord(dat, p.start, p.end) :: good(p)
  }

  ghost predicate All(good: Span -> bool, ps: seq<Span>) { forall p | p in ps :: good(p) }

  /** Only the two ends of a stretch can be anything but whole records: a property of records holds of all
      pieces that answer exactly when it holds of the ends that are cut and answer. */
  lemma CutsAll(s: Shard, q: Bytes, ctx: Context, from: nat, end: nat, good: Span -> bool)
    requires from < end <= |s.dat| && OfRecords(s.dat, good)
    ensures All(good, Speaking(s, q, ctx, Cuts(s.dat, from, end)))
            <==> && (CutAtStart(s, q, ctx, from, end) ==> good(FirstCut(s.dat, from, end)))
                 && (CutAtEnd(s, q, ctx, from, end) ==> good(LastCut(s.dat, from, end)))
  {
    hide Cuts, IsSentinel, CutEnd, TailStart, Speaks, Speaking, IsRecord;
    var cuts := Cuts(s.dat, from, end);
    var head, tail := FirstCut(s.dat, from, end), LastCut(s.dat, from, end);
    CutShape(s.dat, from, end, head);
    CutIsRecord(s.dat, from, end, head);
    CutIsRecord(s.dat, from, end, tail);
    SpeakingMembers(s, q, ctx, cuts, head);
    SpeakingMembers(s, q, ctx, cuts, tail);
    forall p | p in Speaking(s, q, ctx, cuts)
      ensures || good(p)
              || (p == head && CutAtStart(s, q, ctx, from, end))
              || (p == tail && CutAtEnd(s, q, ctx, from, end))
    {
      SpeakingInFile(s, q, ctx, cuts, p);
      SpeakingMembers(s, q, ctx, cuts, p);
      CutIsRecord(s.dat, from, end, p);
    }
  }

  lemma SpeakingInFile(s: Shard, q: Bytes, ctx: Context, ps: seq<Span>, p: Span)
    requires AllInFile(s.dat, ps) && p in Speaking(s, q, ctx, ps)
    ensures InFile(s.dat, p)
  {
    hide Speaking;
  }

  lemma EarlyWindowAll(s: Shard, q: Bytes, offset: nat, size: nat, good: Span -> bool)
    requires offset < |s.dat| && 0 < size <= LAST_WINDOW && OfRecords(s.dat, good)
    requires Speaking(s, q, HciContext(s), ClosedCuts(s.dat, offset, WindowEnd(s.dat, offset, size))) != []
    ensures All(good, Speaking(s, q, HciContext(s), ClosedCuts(s.dat, offset, WindowEnd(s.dat, offset, size))))
            <==> (HeadCut(s, q, offset) ==> good(FirstCut(s.dat, offset, WindowEnd(s.dat, offset, LAST_WINDOW))))
  {
    hide Cuts, ClosedCuts, IsSentinel, CutEnd, TailStart, Speaks, Speaking, IsRecord;
    var ctx, end := HciContext(s), WindowEnd(s.dat, offset, size);
    var closed := ClosedCuts(s.dat, offset, end);
    var head := FirstCut(s.dat, offset, WindowEnd(s.dat, offset, LAST_WINDOW));
    SpeakingOfNothing(s, q, ctx, closed);
    SameHead(s.dat, offset, end, WindowEnd(s.dat, offset, LAST_WINDOW));
    ClosedIsCut(s.dat, offset, end, head);
    CutIsRecord(s.dat, offset, end, head);
    SpeakingMembers(s, q, ctx, closed, head);
    forall p | p in Speaking(s, q, ctx, closed) ensures good(p) || (p == head && HeadCut(s, q, offset)) {
      SpeakingInFile(s, q, ctx, closed, p);
      SpeakingMembers(s, q, ctx, closed, p);
      ClosedIsCut(s.dat, offset, end, p);
      CutIsRecord(s.dat, offset, end, p);
    }
  }

  lemma SpeakingOfNothing(s: Shard, q: Bytes, ctx: Context, ps: seq<Span>)
    requires AllInFile(s.dat, ps)
    ensures ps == [] ==> Speaking(s, q, ctx, ps) == []
  {
  }

  /** The ends of the last window that answer have the property; the tail counts only when no early window
      of `sizes` answers. */
  ghost predicate EndsAre(good: Span -> bool, s: Shard, q: Bytes, offset: nat, sizes: seq<nat>)
    requires offset < |s.dat|
  {
    var end := WindowEnd(s.dat, offset, LAST_WINDOW);
    && (HeadCut(s, q, offset) ==> good(FirstCut(s.dat, offset, end)))
    && (TailCut(s, q, offset) ==> EarlyAnswer(s, q, offset, sizes) || good(LastCut(s.dat, offset, end)))
  }

  lemma {:induction false} WindowsAll(s: Shard, q: Bytes, offset: nat, sizes: seq<nat>, good: Span -> bool)
    requires offset < |s.dat| && (forall i | 0 <= i < |sizes| :: 0 < sizes[i] <= LAST_WINDOW) && OfRecords(s.dat, good)
    ensures All(good, WindowSpans(s, q, offset, sizes)) <==> EndsAre(good, s, q, offset, sizes)
  {
    hide CutAtStart, CutAtEnd, All, Speaking, ClosedCuts, Cuts, OfRecords;
    if sizes == [] {
      CutsAll(s, q, HciContext(s), offset, WindowEnd(s.dat, offset, LAST_WINDOW), good);
    } else if Speaking(s, q, HciContext(s), ClosedCuts(s.dat, offset, WindowEnd(s.dat, offset, sizes[0]))) != [] {
      EarlyWindowAll(s, q, offset, sizes[0], good);
    } else {
      WindowsAll(s, q, offset, sizes[1..], good);
    }
  }

  lemma PostingAll(s: Shard, q: Bytes, offset: nat, good: Span -> bool)
    requires offset < |s.dat| && OfRecords(s.dat, good)
    ensures All(good, PostingSpans(s, q, offset))
            <==> RecordSpeaks(s, q, offset) || EndsAre(good, s, q, offset, WINDOWS)
  {
    hide EndsAre, IsRecord, RecordAt, WindowSpans, Speaks, Speaking;
    WindowsAll(s, q, offset, WINDOWS, good);
    if RecordSpeaks(s, q, offset) {
      forall p | p in PostingSpans(s, q, offset) ensures good(p) {
        SpeakingInFile(s, q, HciContext(s), RecordSpans(s.dat, offset), p);
        SpeakingMembers(s, q, HciContext(s), RecordSpans(s.dat, offset), p);
      }
    }
  }

  // ---- whole records -----------------------------------------------------------------------------

  ghost predicate Whole(dat: Bytes, p: Span) { IsRecord(dat, p.start, p.end) }

  ghost predicate AllWhole(dat: Bytes, ps: seq<Span>) { forall p | p in ps :: Whole(dat, p) }

  lemma CutIsNotWhole(s: Shard, q: Bytes, ctx: Context, from: nat, end: nat)
    requires from < end <= |s.dat|
    ensures CutAtStart(s, q, ctx, from, end) ==> !Whole(s.dat, FirstCut(s.dat, from, end))
    ensures CutAtEnd(s, q, ctx, from, end) ==> !Whole(s.dat, LastCut(s.dat, from, end))
  {
    hide IsSentinel, CutEnd, TailStart, Speaks;
  }

  /** The posted record itself parses to the query, or neither end of what the windows see is a cut record
      that does. The tail counts only when no early window answers. */
  predicate PostingUncut(s: Shard, q: Bytes, offset: nat)
    requires offset < |s.dat|
  {
    || RecordSpeaks(s, q, offset)
    || (!HeadCut(s, q, offset) && (EarlyAnswer(s, q, offset, WINDOWS) || !TailCut(s, q, offset)))
  }

  /** Exactly then every piece of the answer is a whole record. */
  lemma PostingWhole(s: Shard, q: Bytes, offset: nat)
    requires offset < |s.dat|
    ensures AllWhole(s.dat, PostingSpans(s, q, offset)) <==> PostingUncut(s, q, offset)
  {
    hide CutAtStart, CutAtEnd, EarlyAnswer, IsRecord, PostingSpans, RecordSpeaks, FirstCut, LastCut;
    var whole := (p: Span) => Whole(s.dat, p);
    CutIsNotWhole(s, q, HciContext(s), offset, WindowEnd(s.dat, offset, LAST_WINDOW));
    PostingAll(s, q, offset, whole);
    assert AllWhole(s.dat, PostingSpans(s, q, offset)) <==> All(whole, PostingSpans(s, q, offset));
  }

  // ---- a posting at a record start -----------------------------------------------------------------

  /** From a sentinel on, the closed pieces of a stretch are the records that end inside it. */
  lemma {:induction false} ClosedAreRecords(dat: Bytes, from: nat, end: nat, p: Span)
    requires from < end <= |dat| && IsSentinel(dat, from)
    ensures p in ClosedCuts(dat, from, end) <==> IsRecord(dat, p.start, p.end) && from <= p.start && p.end < end
    decreases end - from
  {
    hide IsSentinel, CutEnd, Cuts, ClosedCuts;
    CutsStep(dat, from, end);
    var n := CutEnd(dat, from, end);
    if n < end {
      ClosedAreRecords(dat, n, end, p);
    }
  }

  /** A record of the query starts at `offset` or behind it, and ends in front of `end`. */
  ghost predicate RecordBefore(s: Shard, q: Bytes, offset: nat, end: nat) {
    exists p: Span :: InFile(s.dat, p) && RecordOf(s, q, offset, end, p)
  }

  ghost predicate RecordOf(s: Shard, q: Bytes, offset: nat, end: nat, p: Span)
    requires InFile(s.dat, p)
  {
    IsRecord(s.dat, p.start, p.end) && offset <= p.start && p.end < end && Speaks(s, q, HciContext(s), p)
  }

  lemma ClosedSpeaking(s: Shard, q: Bytes, offset: nat, end: nat, p: Span)
    requires offset < end <= |s.dat| && IsSentinel(s.dat, offset)
    ensures p in Speaking(s, q, HciContext(s), ClosedCuts(s.dat, offset, end))
            <==> InFile(s.dat, p) && RecordOf(s, q, offset, end, p)
  {
    hide IsSentinel, ClosedCuts, Speaking, Speaks, IsRecord;
    var closed := ClosedCuts(s.dat, offset, end);
    ClosedAreRecords(s.dat, offset, end, p);
    if p in Speaking(s, q, HciContext(s), closed) {
      SpeakingInFile(s, q, HciContext(s), closed, p);
    }
    if InFile(s.dat, p) {
      SpeakingMembers(s, q, HciContext(s), closed, p);
    }
  }

  lemma ClosedAnswers(s: Shard, q: Bytes, offset: nat, end: nat)
    requires offset < end <= |s.dat| && IsSentinel(s.dat, offset)
    ensures Speaking(s, q, HciContext(s), ClosedCuts(s.dat, offset, end)) != [] <==> RecordBefore(s, q, offset, end)
  {
    hide IsSentinel, ClosedCuts, Speaking, RecordOf;
    var found := Speaking(s, q, HciContext(s), ClosedCuts(s.dat, offset, end));
    if found != [] {
      ClosedSpeaking(s, q, offset, end, found[0]);
    }
    if RecordBefore(s, q, offset, end) {
      var p: Span :| InFile(s.dat, p) && RecordOf(s, q, offset, end, p);
      ClosedSpeaking(s, q, offset, end, p);
    }
  }

  /** The records of the query that end within 1024 bytes are the answer of a posting whose own record is not of the
      query; if there are none, those within 2048, then 4096; failing that, the pieces of 8192 bytes. */
  lemma SentinelPosting(s: Shard, q: Bytes, offset: nat, p: Span)
    requires offset < |s.dat| && IsSentinel(s.dat, offset) && InFile(s.dat, p)
    ensures var n := |s.dat|;
            p in PostingSpans(s, q, offset)
            <==> if RecordSpeaks(s, q, offset) then p.start == offset && IsRecord(s.dat, offset, p.end)
                 else if RecordBefore(s, q, offset, Min(offset + 1024, n))
                   then RecordOf(s, q, offset, Min(offset + 1024, n), p)
                 else if RecordBefore(s, q, offset, Min(offset + 2048, n))
                   then RecordOf(s, q, offset, Min(offset + 2048, n), p)
                 else if RecordBefore(s, q, offset, Min(offset + 4096, n))
                   then RecordOf(s, q, offset, Min(offset + 4096, n), p)
                 else p in Cuts(s.dat, offset, Min(offset + 8192, n)) && Speaks(s, q, HciContext(s), p)
  {
    hide IsSentinel, Cuts, ClosedCuts, Speaking, Speaks, RecordOf, IsRecord, RecordBefore, RecordAt;
    var n := |s.dat|;
    ClosedSpeaking(s, q, offset, Min(offset + 1024, n), p);
    ClosedAnswers(s, q, offset, Min(offset + 1024, n));
    ClosedSpeaking(s, q, offset, Min(offset + 2048, n), p);
    ClosedAnswers(s, q, offset, Min(offset + 2048, n));
    ClosedSpeaking(s, q, offset, Min(offset + 4096, n), p);
    ClosedAnswers(s, q, offset, Min(offset + 4096, n));
    SpeakingMembers(s, q, HciContext(s), Cuts(s.dat, offset, Min(offset + 8192, n)), p);
    RecordSpansAtSentinel(s, q, offset, p);
    WindowSpansUnfold(s, q, offset);
  }

  lemma WindowSpansUnfold(s: Shard, q: Bytes, offset: nat)
    requires offset < |s.dat|
    ensures var closed := (size: nat) =>
              Speaking(s, q, HciContext(s), ClosedCuts(s.dat, offset, Min(offset + size, |s.dat|)));
            WindowSpans(s, q, offset, WINDOWS)
            == if closed(1024) != [] then closed(1024) else if closed(2048) != [] then closed(2048)
               else if closed(4096) != [] then closed(4096)
               else Speaking(s, q, HciContext(s), Cuts(s.dat, offset, Min(offset + 8192, |s.dat|)))
  {
    hide WindowSpans, Cuts, ClosedCuts, Speaking;
    var none: seq<nat> := [];
    assert WINDOWS == [1024] + [2048, 4096] && [2048, 4096] == [2048] + [4096] && [4096] == [4096] + none;
    WindowsStep(s, q, offset, 1024, [2048, 4096]);
    WindowsStep(s, q, offset, 2048, [4096]);
    WindowsStep(s, q, offset, 4096, []);
  }

  lemma WindowsStep(s: Shard, q: Bytes, offset: nat, size: nat, rest: seq<nat>)
    requires offset < |s.dat|
    ensures var found := Speaking(s, q, HciContext(s), ClosedCuts(s.dat, offset, Min(offset + size, |s.dat|)));
            && WindowSpans(s, q, offset, [size] + rest)
               == (if found != [] then found else WindowSpans(s, q, offset, rest))
            && (EarlyAnswer(s, q, offset, [size] + rest) <==> found != [] || EarlyAnswer(s, q, offset, rest))
    ensures WindowSpans(s, q, offset, [])
            == Speaking(s, q, HciContext(s), Cuts(s.dat, offset, Min(offset + 8192, |s.dat|)))
    ensures !EarlyAnswer(s, q, offset, [])
  {
    hide Cuts, ClosedCuts, Speaking;
    assert ([size] + rest)[1..] == rest;
  }

  lemma RecordSpansAtSentinel(s: Shard, q: Bytes, offset: nat, p: Span)
    requires offset < |s.dat| && IsSentinel(s.dat, offset) && InFile(s.dat, p)
    ensures p in RecordSpans(s.dat, offset) <==> p.start == offset && IsRecord(s.dat, offset, p.end)
    ensures RecordSpeaks(s, q, offset) ==>
              Speaking(s, q, HciContext(s), RecordSpans(s.dat, offset)) == RecordSpans(s.dat, offset)
  {
    hide Speaks;
  }

  /** Such an answer consists of whole records if and only if the posted record is one of the query, another that
      starts there or behind ends within 4096 bytes, or the piece at the end of the last window is a whole record or
      not of the query. */
  lemma SentinelPostingWhole(s: Shard, q: Bytes, offset: nat)
    requires offset < |s.dat| && IsSentinel(s.dat, offset)
    ensures AllWhole(s.dat, PostingSpans(s, q, offset))
            <==> || RecordSpeaks(s, q, offset)
                 || RecordBefore(s, q, offset, offset + 4096)
                 || offset + 8192 >= |s.dat|
                 || IsSentinel(s.dat, offset + 8192)
                 || !Speaks(s, q, HciContext(s), LastCut(s.dat, offset, offset + 8192))
  {
    hide EarlyAnswer, IsSentinel, PostingSpans, RecordSpeaks, AllWhole, Speaks, FirstCut, LastCut, RecordBefore;
    PostingWhole(s, q, offset);
    if offset + 8192 < |s.dat| {
      EarlyAtSentinel(s, q, offset);
    }
  }

  lemma EarlyAtSentinel(s: Shard, q: Bytes, offset: nat)
    requires offset + 4096 <= |s.dat| && IsSentinel(s.dat, offset)
    ensures EarlyAnswer(s, q, offset, WINDOWS) <==> RecordBefore(s, q, offset, offset + 4096)
  {
    hide EarlyAnswer, WindowSpans, IsSentinel, ClosedCuts, Cuts, Speaking, Speaks, IsRecord, RecordBefore;
    ClosedAnswers(s, q, offset, offset + 1024);
    ClosedAnswers(s, q, offset, offset + 2048);
    ClosedAnswers(s, q, offset, offset + 4096);
    BeforeGrows(s, q, offset, offset + 1024, offset + 4096);
    BeforeGrows(s, q, offset, offset + 2048, offset + 4096);
    var none: seq<nat> := [];
    assert WINDOWS == [1024] + [2048, 4096] && [2048, 4096] == [2048] + [4096] && [4096] == [4096] + none;
    WindowsStep(s, q, offset, 1024, [2048, 4096]);
    WindowsStep(s, q, offset, 2048, [4096]);
    WindowsStep(s, q, offset, 4096, []);
  }

  lemma BeforeGrows(s: Shard, q: Bytes, offset: nat, a: nat, b: nat)
    requires a <= b
    ensures RecordBefore(s, q, offset, a) ==> RecordBefore(s, q, offset, b)
  {
    hide Speaks, IsRecord;
    if RecordBefore(s, q, offset, a) {
      var p: Span :| InFile(s.dat, p) && RecordOf(s, q, offset, a, p);
      assert RecordOf(s, q, offset, b, p);
    }
  }

  /** A piece that an answer may be read from: a record around the offset or starting within 8192 bytes of
      it, the rest of a record the offset lies in, or the start of a record the last window ends in. */
  ghost predicate Piece(dat: Bytes, offset: nat, p: Span) {
    || (IsRecord(dat, p.start, p.end) && (p.start <= offset < p.end || offset <= p.start < offset + LAST_WINDOW))
    || (p.start == offset < |dat| && !IsSentinel(dat, offset))
    || (offset <= p.start < p.end == offset + LAST_WINDOW < |dat| && !IsSentinel(dat, offset + LAST_WINDOW))
  }

  lemma CutIsPiece(dat: Bytes, offset: nat, size: nat, p: Span)
    requires offset < |dat| && 0 < size <= LAST_WINDOW
    requires var end := WindowEnd(dat, offset, size);
             p in ClosedCuts(dat, offset, end) || (size == LAST_WINDOW && p in Cuts(dat, offset, end))
    ensures Piece(dat, offset, p)
  {
    hide Cuts, ClosedCuts, IsSentinel, CutEnd, TailStart;
    var end := WindowEnd(dat, offset, size);
    CutShape(dat, offset, end, p);
    if p in ClosedCuts(dat, offset, end) {
      ClosedIsCut(dat, offset, end, p);
    }
    CutIsRecord(dat, offset, end, p);
  }

  lemma {:induction false} WindowPieces(s: Shard, q: Bytes, offset: nat, sizes: seq<nat>, p: Span)
    requires offset < |s.dat| && forall i | 0 <= i < |sizes| :: 0 < sizes[i] <= LAST_WINDOW
    requires p in WindowSpans(s, q, offset, sizes)
    ensures InFile(s.dat, p) && Speaks(s, q, HciContext(s), p) && Piece(s.dat, offset, p)
  {
    hide Cuts, ClosedCuts, Speaks, Speaking, Piece;
    var size := if sizes == [] then LAST_WINDOW else sizes[0];
    var end := WindowEnd(s.dat, offset, size);
    var ps := if sizes == [] then Cuts(s.dat, offset, end) else ClosedCuts(s.dat, offset, end);
    if p in Speaking(s, q, HciContext(s), ps) {
      SpeakingMembers(s, q, HciContext(s), ps, p);
      CutIsPiece(s.dat, offset, size, p);
    } else {
      WindowPieces(s, q, offset, sizes[1..], p);
    }
  }

  /** Whatever a posting yields is read from such a piece. */
  lemma PostingPieces(s: Shard, q: Bytes, offset: nat, p: Span)
    requires offset < |s.dat| && p in PostingSpans(s, q, offset)
    ensures InFile(s.dat, p) && Speaks(s, q, HciContext(s), p) && Piece(s.dat, offset, p)
  {
    hide WindowSpans, Speaks, Speaking, IsRecord, RecordAt;
    var ps := RecordSpans(s.dat, offset);
    if p in Speaking(s, q, HciContext(s), ps) {
      SpeakingMembers(s, q, HciContext(s), ps, p);
    } else {
      WindowPieces(s, q, offset, WINDOWS, p);
    }
  }

  /** A stretch inside `[from, end)` between two of its sentinels or ends. */
  predicate Between(dat: Bytes, from: nat, end: nat, p: Span)
    requires end <= |dat|
  {
    && from <= p.start < p.end <= end
    && (p.start == from || IsSentinel(dat, p.start)) && (p.end == end || IsSentinel(dat, p.end))
    && forall k | p.start < k < p.end :: !IsSentinel(dat, k)
  }

  /** The pieces are exactly these. */
  lemma {:induction false} CutsExact(dat: Bytes, from: nat, end: nat, p: Span)
    requires from <= end <= |dat|
    ensures p in Cuts(dat, from, end) <==> Between(dat, from, end, p)
    decreases end - from
  {
    hide IsSentinel, CutEnd;
    if from < end {
      var n := CutEnd(dat, from, end);
      CutShape(dat, from, end, p);
      if Between(dat, from, end, p) && from < p.start {
        CutsExact(dat, n, end, p);
      }
    }
  }

  // ---- index slices ----------------------------------------------------------------------------

  /** The pieces an index entry's answer is read from. */
  function EntrySpans(s: Shard, q: Bytes, e: IdxText.Entry): (ps: seq<Span>)
    requires IdxSearch.Valid(s.idx)
    ensures AllInFile(s.dat, ps)
  {
    match IdxSearch.RawSlice(IdxSearch.Rows(s.idx), |s.dat|, e)
    case None => []
    case Some(slice) => Speaking(s, q, IdxContext(s, e.key), Cuts(s.dat, slice.0, slice.1))
  }

  lemma EntrySpansAnswer(s: Shard, q: Bytes, e: IdxText.Entry)
    requires IdxSearch.Valid(s.idx)
    ensures EntrySnapshots(s, q, e) == Matched(Plains(s.dat, EntrySpans(s, q, e)), q, IdxContext(s, e.key))
  {
    hide Plains, Matched, Cuts, DecodeAt, SegmentsFrom, Speaking, IdxSearch.RawSlice;
    var slice := IdxSearch.RawSlice(IdxSearch.Rows(s.idx), |s.dat|, e);
    if slice.Some? {
      CutsAreSegments(s.dat, slice.value.0, slice.value.1);
      SpeakingAnswers(s, q, IdxContext(s, e.key), Cuts(s.dat, slice.value.0, slice.value.1));
    } else {
      NothingMatched(q, IdxContext(s, e.key));
    }
  }

  /** Neither end of the entry's slice is a cut record that answers. */
  predicate EntryUncut(s: Shard, q: Bytes, e: IdxText.Entry)
    requires IdxSearch.Valid(s.idx)
  {
    var slice := IdxSearch.RawSlice(IdxSearch.Rows(s.idx), |s.dat|, e);
    slice.Some? && slice.value.0 < slice.value.1 ==>
      && !CutAtStart(s, q, IdxContext(s, e.key), slice.value.0, slice.value.1)
      && !CutAtEnd(s, q, IdxContext(s, e.key), slice.value.0, slice.value.1)
  }

  lemma EntryAll(s: Shard, q: Bytes, e: IdxText.Entry, good: Span -> bool)
    requires IdxSearch.Valid(s.idx) && OfRecords(s.dat, good)
    ensures All(good, EntrySpans(s, q, e)) <==> SliceEndsAre(good, s, q, e)
  {
    hide CutAtStart, CutAtEnd, All, OfRecords, Speaking, IdxSearch.RawSlice;
    var slice := IdxSearch.RawSlice(IdxSearch.Rows(s.idx), |s.dat|, e);
    if slice.Some? && slice.value.0 < slice.value.1 {
      CutsAll(s, q, IdxContext(s, e.key), slice.value.0, slice.value.1, good);
    } else {
      NothingCut(s, q, e);
      NothingBad(good);
    }
  }

  /** The ends of the entry's slice that are cut and answer have the property. */
  ghost predicate SliceEndsAre(good: Span -> bool, s: Shard, q: Bytes, e: IdxText.Entry)
    requires IdxSearch.Valid(s.idx)
  {
    var slice := IdxSearch.RawSlice(IdxSearch.Rows(s.idx), |s.dat|, e);
    slice.Some? && slice.value.0 < slice.value.1 ==>
      var (from, end) := slice.value;
      && (CutAtStart(s, q, IdxContext(s, e.key), from, end) ==> good(FirstCut(s.dat, from, end)))
      && (CutAtEnd(s, q, IdxContext(s, e.key), from, end) ==> good(LastCut(s.dat, from, end)))
  }

  lemma NothingBad(good: Span -> bool)
    ensures All(good, [])
  {
  }

  lemma NothingCut(s: Shard, q: Bytes, e: IdxText.Entry)
    requires IdxSearch.Valid(s.idx)
    ensures var slice := IdxSearch.RawSlice(IdxSearch.Rows(s.idx), |s.dat|, e);
            slice.None? || slice.value.0 == slice.value.1 ==> EntrySpans(s, q, e) == []
  {
    hide Speaks, IdxSearch.RawSlice;
  }

  lemma EntryWhole(s: Shard, q: Bytes, e: IdxText.Entry)
    requires IdxSearch.Valid(s.idx)
    ensures AllWhole(s.dat, EntrySpans(s, q, e)) <==> EntryUncut(s, q, e)
  {
    hide CutAtStart, CutAtEnd, FirstCut, LastCut, EntrySpans, IsRecord, IdxSearch.RawSlice;
    var whole := (p: Span) => Whole(s.dat, p);
    EntryAll(s, q, e, whole);
    assert AllWhole(s.dat, EntrySpans(s, q, e)) <==> All(whole, EntrySpans(s, q, e));
    var slice := IdxSearch.RawSlice(IdxSearch.Rows(s.idx), |s.dat|, e);
    if slice.Some? && slice.value.0 < slice.value.1 {
      CutIsNotWhole(s, q, IdxContext(s, e.key), slice.value.0, slice.value.1);
    }
  }

  // ---- pieces that read as the record they lie in ---------------------------------------------------

  /** The piece parses to what the whole record around its start parses to. */
  predicate ReadsRecord(s: Shard, ctx: Context, p: Span) {
    && InFile(s.dat, p)
    && var r := RecordAt(s.dat, p.start);
       r.Some? && ParsedSegment(Plain(s.dat, p), ctx) == ParsedSegment(Plain(s.dat, Span(r.value.0, r.value.1)), ctx)
  }

  ghost predicate AllRead(s: Shard, ctx: Context, ps: seq<Span>) { forall p | p in ps :: ReadsRecord(s, ctx, p) }

  lemma RecordReadsItself(s: Shard, ctx: Context, p: Span)
    requires InFile(s.dat, p) && IsRecord(s.dat, p.start, p.end)
    ensures ReadsRecord(s, ctx, p)
  {
    hide ParsedSegment, IsSentinel, RecordAt;
    RecordAtExact(s.dat, p.start, p.start, p.end);
  }

  lemma ReadingIsOfRecords(s: Shard, ctx: Context)
    ensures OfRecords(s.dat, (p: Span) => ReadsRecord(s, ctx, p))
  {
    hide ReadsRecord, IsRecord;
    forall p: Span | InFile(s.dat, p) && IsRecord(s.dat, p.start, p.end) ensures ReadsRecord(s, ctx, p) {
      RecordReadsItself(s, ctx, p);
    }
  }

  /** The posted record answers, or the ends of what the windows see read as the records they lie in. */
  predicate PostingReads(s: Shard, q: Bytes, offset: nat)
    requires offset < |s.dat|
  {
    var ctx, end := HciContext(s), WindowEnd(s.dat, offset, LAST_WINDOW);
    || RecordSpeaks(s, q, offset)
    || (&& (HeadCut(s, q, offset) ==> ReadsRecord(s, ctx, FirstCut(s.dat, offset, end)))
        && (TailCut(s, q, offset) ==>
              EarlyAnswer(s, q, offset, WINDOWS) || ReadsRecord(s, ctx, LastCut(s.dat, offset, end))))
  }

  /** Exactly then every piece of a posting's answer parses to what the record it lies in parses to. */
  lemma PostingReadsRecords(s: Shard, q: Bytes, offset: nat)
    requires offset < |s.dat|
    ensures AllRead(s, HciContext(s), PostingSpans(s, q, offset)) <==> PostingReads(s, q, offset)
  {
    hide CutAtStart, CutAtEnd, EarlyAnswer, ReadsRecord, PostingSpans, RecordSpeaks, FirstCut, LastCut, OfRecords;
    var asRecord := (p: Span) => ReadsRecord(s, HciContext(s), p);
    ReadingIsOfRecords(s, HciContext(s));
    PostingAll(s, q, offset, asRecord);
    assert AllRead(s, HciContext(s), PostingSpans(s, q, offset)) <==> All(asRecord, PostingSpans(s, q, offset));
  }

  /** The ends of the entry's slice read as the records they lie in, where they are cut and answer. */
  predicate EntryReads(s: Shard, q: Bytes, e: IdxText.Entry)
    requires IdxSearch.Valid(s.idx)
  {
    var slice := IdxSearch.RawSlice(IdxSearch.Rows(s.idx), |s.dat|, e);
    slice.Some? && slice.value.0 < slice.value.1 ==>
      var (from, end) := slice.value;
      var ctx := IdxContext(s, e.key);
      && (CutAtStart(s, q, ctx, from, end) ==> ReadsRecord(s, ctx, FirstCut(s.dat, from, end)))
      && (CutAtEnd(s, q, ctx, from, end) ==> ReadsRecord(s, ctx, LastCut(s.dat, from, end)))
  }

  /** Exactly then every piece of an entry's answer parses to what the record it lies in parses to. */
  lemma EntryReadsRecords(s: Shard, q: Bytes, e: IdxText.Entry)
    requires IdxSearch.Valid(s.idx)
    ensures AllRead(s, IdxContext(s, e.key), EntrySpans(s, q, e)) <==> EntryReads(s, q, e)
  {
    hide CutAtStart, CutAtEnd, FirstCut, LastCut, EntrySpans, ReadsRecord, IdxSearch.RawSlice, OfRecords;
    var ctx := IdxContext(s, e.key);
    var asRecord := (p: Span) => ReadsRecord(s, ctx, p);
    ReadingIsOfRecords(s, ctx);
    EntryAll(s, q, e, asRecord);
    assert AllRead(s, ctx, EntrySpans(s, q, e)) <==> All(asRecord, EntrySpans(s, q, e));
  }
}
