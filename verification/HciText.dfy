/** Writing an inverted file: keys, posting lists and the offset table; the index reads it back. */
module HciText {
  import opened Ascii
  import opened Hci
  import Cipher

  /** One record before encoding: its key, its postings, and the closing byte. */
  datatype Entry = Entry(key: Bytes, postings: seq<Posting>, last: Byte)

  predicate Writable(e: Entry) {
    && e.key != [] && |e.key| < 100 && AllPrintable(e.key)
    && forall i | 0 <= i < |e.postings| :: e.postings[i].datOffset < MAX_ORDINAL
  }

  function Size(e: Entry): nat { |e.key| + 1 + 5 * |e.postings| + 1 }

  /** Where the entry with number `i` starts when the first one starts at `at`. */
  function StartOf(at: nat, es: seq<Entry>, i: nat): (s: nat)
    requires i <= |es|
    ensures at <= s
    decreases |es|
  {
    if i == 0 then at else StartOf(at + Size(es[0]), es[1..], i - 1)
  }

  /** Everything can be written, and the whole file fits 32-bit offsets. */
  ghost predicate AllWritable(at: nat, es: seq<Entry>) {
    && (forall i | 0 <= i < |es| :: Writable(es[i]))
    && StartOf(at, es, |es|) <= MAX_ORDINAL
  }

  /** The header is encoded by absolute offset; postings and the closing byte are plain. */
  function EntryBytes(at: nat, e: Entry): (b: Bytes)
    requires Writable(e)
  {
    Cipher.DecodeAt(at, e.key + [0xb5]) + PostingBytes(e.postings) + [e.last]
  }

  function DatBytes(at: nat, es: seq<Entry>): Bytes
    requires forall i | 0 <= i < |es| :: Writable(es[i])
    decreases |es|
  {
    if es == [] then [] else EntryBytes(at, es[0]) + DatBytes(at + Size(es[0]), es[1..])
  }

  function TableBytes(at: nat, es: seq<Entry>): Bytes
    requires AllWritable(at, es)
    decreases |es|
  {
    if es == [] then []
    else
      StartAdvances(at, es);
      Be32Bytes(at) + TableBytes(at + Size(es[0]), es[1..])
  }

  lemma StartAdvances(at: nat, es: seq<Entry>)
    requires AllWritable(at, es) && es != []
    ensures at < MAX_ORDINAL && AllWritable(at + Size(es[0]), es[1..])
  {
    hide Writable;
    assert StartOf(at, es, |es|) == StartOf(at + Size(es[0]), es[1..], |es| - 1);
  }

  lemma {:induction false} PostingBytesLength(ps: seq<Posting>)
    requires forall i | 0 <= i < |ps| :: ps[i].datOffset < MAX_ORDINAL
    ensures |PostingBytes(ps)| == 5 * |ps|
  {
    hide Be32Bytes;
    if ps != [] {
      PostingBytesLength(ps[1..]);
    }
  }

  lemma EntryLength(at: nat, e: Entry)
    requires Writable(e)
    ensures |EntryBytes(at, e)| == Size(e)
  {
    PostingBytesLength(e.postings);
  }

  // ---- the offset table ------------------------------------------------------------

  lemma {:induction false} TableLength(at: nat, es: seq<Entry>)
    requires AllWritable(at, es)
    ensures |TableBytes(at, es)| == 4 * |es|
    decreases |es|
  {
    hide AllWritable, Be32Bytes, Size;
    if es != [] {
      StartAdvances(at, es);
      TableLength(at + Size(es[0]), es[1..]);
    }
  }

  lemma OffsetBehind(first: Bytes, rest: Bytes, i: nat)
    requires |first| == 4
    ensures Offset(first + rest, i + 1) == Offset(rest, i)
    ensures Offset(first + rest, 0) == Some(Be32(first))
  {
    var table := first + rest;
    assert table[0..4] == first;
    if 4 * i + 4 <= |rest| {
      assert table[4 * (i + 1)..4 * (i + 1) + 4] == rest[4 * i..4 * i + 4];
    }
  }

  /** The table holds the start of every entry, and no more. */
  lemma {:induction false} TableReads(at: nat, es: seq<Entry>, i: nat)
    requires AllWritable(at, es)
    ensures Offset(TableBytes(at, es), i) == if i < |es| then Some(StartOf(at, es, i)) else None
    decreases |es|
  {
    hide AllWritable, Be32Bytes, Be32, Offset, Size;
    if es == [] {
      NoOffset(i);
    } else {
      StartAdvances(at, es);
      var rest := TableBytes(at + Size(es[0]), es[1..]);
      Be32RoundTrip(at);
      if i == 0 {
        OffsetBehind(Be32Bytes(at), rest, 0);
      } else {
        OffsetBehind(Be32Bytes(at), rest, i - 1);
        TableReads(at + Size(es[0]), es[1..], i - 1);
      }
    }
  }

  lemma NoOffset(i: nat)
    ensures Offset([], i) == None
  {
  }

  // ---- the records -------------------------------------------------------------------

  lemma DatStep(at: nat, es: seq<Entry>)
    requires es != [] && forall k | 0 <= k < |es| :: Writable(es[k])
    ensures DatBytes(at, es) == EntryBytes(at, es[0]) + DatBytes(at + Size(es[0]), es[1..])
    ensures |EntryBytes(at, es[0])| == Size(es[0])
  {
    hide Writable, EntryBytes, Size;
    EntryLength(at, es[0]);
  }

  lemma {:induction false} DatLength(at: nat, es: seq<Entry>)
    requires forall k | 0 <= k < |es| :: Writable(es[k])
    ensures at + |DatBytes(at, es)| == StartOf(at, es, |es|)
    decreases |es|
  {
    hide Writable, EntryBytes, Size;
    if es != [] {
      DatStep(at, es);
      DatLength(at + Size(es[0]), es[1..]);
    }
  }

  lemma {:induction false} StartsInside(at: nat, es: seq<Entry>, i: nat)
    requires i < |es|
    ensures StartOf(at, es, i + 1) == StartOf(at, es, i) + Size(es[i])
    ensures StartOf(at, es, i + 1) <= StartOf(at, es, |es|)
    decreases |es|
  {
    hide Size;
    if i > 0 {
      StartsInside(at + Size(es[0]), es[1..], i - 1);
    } else {
      assert StartOf(at + Size(es[0]), es[1..], 0) == at + Size(es[0]);
    }
  }

  lemma {:induction false} DatReads(at: nat, es: seq<Entry>, i: nat)
    requires i < |es| && forall k | 0 <= k < |es| :: Writable(es[k])
    ensures var lo, n := StartOf(at, es, i) - at, Size(es[i]);
            && 0 <= lo && lo + n <= |DatBytes(at, es)|
            && DatBytes(at, es)[lo..lo + n] == EntryBytes(StartOf(at, es, i), es[i])
    decreases |es|
  {
    hide Writable, EntryBytes, Size, DatBytes;
    DatStep(at, es);
    var first, next := EntryBytes(at, es[0]), at + Size(es[0]);
    var rest := DatBytes(next, es[1..]);
    if i == 0 {
      assert (first + rest)[0..|first|] == first;
    } else {
      DatReads(next, es[1..], i - 1);
      SliceBehind(first, rest, StartOf(next, es[1..], i - 1) - next, Size(es[i]));
    }
  }

  lemma SliceBehind(first: Bytes, rest: Bytes, lo: nat, n: nat)
    requires lo + n <= |rest|
    ensures (first + rest)[|first| + lo..|first| + lo + n] == rest[lo..lo + n]
  {
  }

  /** Cutting the file at the table's offsets gives back every entry's bytes. */
  lemma RawReads(es: seq<Entry>, i: nat)
    requires AllWritable(0, es)
    ensures Raw(TableBytes(0, es), DatBytes(0, es), i)
            == if i < |es| then Some(RawRecord(StartOf(0, es, i), EntryBytes(StartOf(0, es, i), es[i]))) else None
  {
    hide TableBytes, DatBytes, EntryBytes, Offset, StartOf, Writable;
    TableReads(0, es, i);
    TableReads(0, es, i + 1);
    if i < |es| {
      DatLength(0, es);
      DatReads(0, es, i);
      StartsInside(0, es, i);
    }
  }

  /** An encoded header is decoded to its key, and the postings behind it are the entry's. */
  lemma EntryReads(at: nat, e: Entry)
    requires Writable(e)
    ensures Header(RawRecord(at, EntryBytes(at, e))) == Some(e.key)
    ensures Postings(EntryBytes(at, e)[|e.key| + 1..]) == e.postings
  {
    hide AllPrintable, Cipher.DecodeByte, PostingBytes, Postings, Header;
    var plain := e.key + [0xb5];
    var raw := RawRecord(at, EntryBytes(at, e));
    Cipher.DecodeAtInvolution(at, plain);
    forall i | 0 <= i < |plain| ensures Decoded(raw, i) == plain[i] {
      assert raw.bytes[i] == Cipher.DecodeAt(at, plain)[i];
      assert Cipher.DecodeAt(at, Cipher.DecodeAt(at, plain))[i] == plain[i];
    }
    assert forall i | 0 <= i < |e.key| :: Decoded(raw, i) == e.key[i];
    HeaderIffMatch(raw, e.key);
    PostingsRoundTrip(e.postings, e.last);
    assert raw.bytes[|e.key| + 1..] == PostingBytes(e.postings) + [e.last];
  }

  // ---- the index over it ----------------------------------------------------------------

  /** The postings of the first `n` entries keyed `key`. */
  function PostingsOf(es: seq<Entry>, key: Bytes, n: nat): seq<Posting>
    requires n <= |es|
  {
    if n == 0 then []
    else PostingsOf(es, key, n - 1) + (if es[n - 1].key == key then es[n - 1].postings else [])
  }

  ghost predicate Holds(h: HciFile, es: seq<Entry>)
    requires AllWritable(0, es)
  {
    h.index == TableBytes(0, es) && h.dat == DatBytes(0, es)
  }

  lemma RecordPostingsRead(h: HciFile, es: seq<Entry>, key: Bytes, i: nat)
    requires AllWritable(0, es) && Holds(h, es) && i < |es|
    ensures RecordPostings(h, key, i) == if es[i].key == key then es[i].postings else []
  {
    hide Raw, Header, Postings, TableBytes, DatBytes, EntryBytes, Size, AllPrintable;
    RawReads(es, i);
    EntryReads(StartOf(0, es, i), es[i]);
  }

  lemma {:induction false} ScanReads(h: HciFile, es: seq<Entry>, key: Bytes, n: nat)
    requires AllWritable(0, es) && Holds(h, es) && n <= |es|
    ensures ScanPostings(h, key, n) == PostingsOf(es, key, n)
  {
    hide RecordPostings, Holds, AllWritable;
    if n > 0 {
      ScanReads(h, es, key, n - 1);
      RecordPostingsRead(h, es, key, n - 1);
    }
  }

  lemma {:induction false} StartsGrow(at: nat, es: seq<Entry>)
    ensures at + |es| <= StartOf(at, es, |es|)
    decreases |es|
  {
    if es != [] {
      StartsGrow(at + Size(es[0]), es[1..]);
    }
  }

  /** A written inverted file answers every key with exactly the posting lists written for it, in the
      order they were written. */
  lemma WrittenIndexAnswers(h: HciFile, es: seq<Entry>, key: Bytes)
    requires AllWritable(0, es) && Holds(h, es)
    ensures ScanPostings(h, key, Reachable(h)) == PostingsOf(es, key, |es|)
  {
    hide ScanPostings, TableBytes, DatBytes, Writable, PostingsOf, StartOf;
    TableLength(0, es);
    StartsGrow(0, es);
    ScanReads(h, es, key, |es|);
  }
}
