/** A printed `counts.dat` is read back slot by slot. */
module CountsText {
  import opened Ascii
  import opened Cipher
  import opened Counts
  import Country

  /** A row of the table: a key of up to 15 bytes, the count, the day it was taken, and the status. */
  datatype Row = Row(key: Bytes, count: nat, day: Option<nat>, status: Byte)

  predicate PrintableRow(r: Row) {
    && 1 <= |r.key| <= 15 && Trimmed(r.key, BLANK)
    && r.count < 10_000_000
    && (r.day.Some? ==> r.day.value < 100_000_000)
  }

  predicate PrintableRows(rows: seq<Row>) { forall i | 0 <= i < |rows| :: PrintableRow(rows[i]) }

  function Padded(t: Bytes, n: nat): (c: Bytes)
    requires |t| <= n
    ensures |c| == n
  {
    t + Spaces(n - |t|)
  }

  function Power(k: nat): nat { if k == 0 then 1 else 10 * Power(k - 1) }

  lemma {:induction false} WidthOf(n: nat, k: nat)
    requires k > 0 && n < Power(k)
    ensures |Decimal(n)| <= k
  {
    if n >= 10 {
      assert k > 1 by {
        assert Power(0) == 1;
      }
      assert n / 10 < Power(k - 1);
      WidthOf(n / 10, k - 1);
    }
  }

  lemma DecimalWidth(n: nat)
    ensures n < 10_000_000 ==> |Decimal(n)| <= 7
    ensures n < 100_000_000 ==> |Decimal(n)| <= 8
  {
    hide Decimal;
    assert Power(3) == 1000 && Power(5) == 100_000 && Power(7) == 10_000_000 && Power(8) == 100_000_000;
    if n < 10_000_000 {
      WidthOf(n, 7);
    } else if n < 100_000_000 {
      WidthOf(n, 8);
    }
  }

  function CountText(count: nat): (c: Bytes)
    requires count < 10_000_000
    ensures |c| == 7
  {
    DecimalWidth(count);
    Padded(Decimal(count), 7)
  }

  function DayText(day: Option<nat>): (c: Bytes)
    requires day.Some? ==> day.value < 100_000_000
    ensures |c| == 8
  {
    match day
    case None => Spaces(8)
    case Some(d) =>
      DecimalWidth(d);
      Padded(Decimal(d), 8)
  }

  /** 15 bytes of key, 7 of count, 8 of day, the status, and a line end. */
  function RowText(r: Row): (s: Slot)
    requires PrintableRow(r)
  {
    Padded(r.key, 15) + CountText(r.count) + DayText(r.day) + [r.status, CR, LF]
  }

  /** What a reader makes of the row: a day outside 1990 to 2100, and a status that is blank or not printable, are
      left out. */
  function RecordOf(r: Row): CountRecord {
    CountRecord(r.key, r.count,
                if r.day.Some? && 19900101 <= r.day.value <= 21000101 then r.day else None,
                if ' ' < r.status as char <= '~' then Some(r.status) else None)
  }

  lemma PaddedTrims(t: Bytes, n: nat)
    requires Trimmed(t, BLANK) && |t| <= n
    ensures Trim(Padded(t, n), BLANK) == t
  {
    hide Trim;
    if t == [] {
      TrimNothing(Padded(t, n), BLANK);
    } else {
      TrimAround([], t, Spaces(n - |t|), BLANK);
      assert [] + t + Spaces(n - |t|) == Padded(t, n);
    }
  }

  lemma NumberColumn(v: nat, n: nat)
    requires |Decimal(v)| <= n
    ensures ParseUnsigned(Trim(Padded(Decimal(v), n), BLANK), MAX_U32) == if v <= 0xffff_ffff then Some(v) else None
  {
    hide Trim, Decimal, ParseUnsigned, DecimalValue;
    var d := Decimal(v);
    assert IsDigit(d[0]) && IsDigit(d[|d| - 1]);
    PaddedTrims(d, n);
    NumberRead(v, MAX_U32);
  }

  lemma DayColumn(day: Option<nat>)
    requires day.Some? ==> day.value < 100_000_000
    ensures ParseUnsigned(Trim(DayText(day), BLANK), MAX_U32) == day
  {
    hide Trim, Decimal, ParseUnsigned, DecimalValue, Padded;
    if day.Some? {
      DecimalWidth(day.value);
      NumberColumn(day.value, 8);
    } else {
      TrimNothing(DayText(day), BLANK);
      NumberRead(0, MAX_U32);
    }
  }

  /** A printed slot gives its row back. */
  lemma SlotReadBack(r: Row)
    requires PrintableRow(r)
    ensures Trim(RowText(r)[..15], BLANK) == r.key
    ensures ParsedRecord(RowText(r)) == Some(RecordOf(r))
  {
    hide Trim, Decimal, ParseUnsigned, DecimalValue, Padded, DayText, CountText;
    var s := RowText(r);
    assert s[..15] == Padded(r.key, 15);
    assert s[15..22] == CountText(r.count);
    assert s[22..30] == DayText(r.day);
    assert s[30] == r.status;
    PaddedTrims(r.key, 15);
    DayColumn(r.day);
    CountColumn(r.count);
  }

  lemma CountColumn(count: nat)
    requires count < 10_000_000
    ensures ParseUnsigned(Trim(CountText(count), BLANK), MAX_U32) == Some(count)
  {
    hide Trim, Decimal, ParseUnsigned, DecimalValue, Padded;
    DecimalWidth(count);
    NumberColumn(count, 7);
  }

  // ---- a whole file ----------------------------------------------------------------------------

  function Repeated(b: Byte, n: nat): (s: Bytes)
    ensures |s| == n
  {
    seq(n, _ => b)
  }

  /** A slot with one byte all through its key. */
  function MarkSlot(c: char): (s: Slot)
    requires c as int < 128
  {
    Repeated(c as int, 15) + Spaces(18)
  }

  /** A blank slot, one that is not read, exclamation marks, the rows, and small `z`. */
  function TableSlots(unread: Slot, rows: seq<Row>): (slots: seq<Slot>)
    requires PrintableRows(rows)
    ensures |slots| == |rows| + 4
    ensures slots[0] == Spaces(33) && slots[2] == MarkSlot('!') && slots[|rows| + 3] == MarkSlot('z')
    ensures forall i | 0 <= i < |rows| :: slots[3 + i] == RowText(rows[i])
  {
    hide RowText, MarkSlot;
    [Spaces(33), unread, MarkSlot('!')]
    + seq(|rows|, i requires 0 <= i < |rows| => RowText(rows[i]))
    + [MarkSlot('z')]
  }

  /** `data` is the encoded file of these slots. */
  predicate Encodes(data: Bytes, slots: seq<Slot>) {
    && |data| == 33 * |slots|
    && forall i | 0 <= i < |slots| :: DecodeAt(33 * i, data[33 * i..33 * i + 33]) == slots[i]
  }

  lemma SlotsRead(data: Bytes, slots: seq<Slot>, i: nat)
    requires Encodes(data, slots)
    ensures SlotCount(data) == |slots|
    ensures SlotAt(data, i) == if i < |slots| then Some(slots[i]) else None
  {
    hide DecodeAt;
  }

  predicate Ascending(rows: seq<Row>) {
    forall i, j | 0 <= i < j < |rows| :: Lt(rows[i].key, rows[j].key)
  }

  lemma BlankKey(data: Bytes, slots: seq<Slot>)
    requires Encodes(data, slots) && slots != [] && slots[0] == Spaces(33)
    ensures KeyAt(data, 0) == None
  {
    hide Trim, SlotAt, Encodes;
    SlotsRead(data, slots, 0);
    TrimNothing(slots[0][..15], BLANK);
  }

  lemma MarkKey(data: Bytes, slots: seq<Slot>, i: nat, c: char)
    requires Encodes(data, slots) && i < |slots| && (c == '!' || c == 'z') && slots[i] == MarkSlot(c)
    ensures KeyAt(data, i) == Some(Repeated(c as int, 15))
  {
    hide Trim, SlotAt, Encodes;
    SlotsRead(data, slots, i);
    assert slots[i][..15] == Repeated(c as int, 15);
    TrimIdentity(slots[i][..15], BLANK);
  }

  lemma RowKey(data: Bytes, slots: seq<Slot>, i: nat, r: Row)
    requires Encodes(data, slots) && i < |slots| && PrintableRow(r) && slots[i] == RowText(r)
    ensures KeyAt(data, i) == Some(r.key) && RecordAt(data, i) == Some(RecordOf(r))
  {
    hide Trim, SlotAt, Encodes, RowText, ParsedRecord;
    SlotsRead(data, slots, i);
    SlotReadBack(r);
  }

  /** The rows of a printed file are its searchable slots, and each is read back. */
  lemma TableRead(data: Bytes, unread: Slot, rows: seq<Row>)
    requires PrintableRows(rows) && Encodes(data, TableSlots(unread, rows))
    ensures SearchableRange(data) == (3, 3 + |rows|)
    ensures forall i | 0 <= i < |rows| ::
              KeyAt(data, 3 + i) == Some(rows[i].key) && RecordAt(data, 3 + i) == Some(RecordOf(rows[i]))
  {
    hide Encodes, TableSlots, KeyAt, RecordAt, RowText, MarkSlot, SlotAt;
    var slots := TableSlots(unread, rows);
    SlotsRead(data, slots, 0);
    BlankKey(data, slots);
    MarkKey(data, slots, 2, '!');
    MarkKey(data, slots, |rows| + 3, 'z');
    forall i | 0 <= i < |rows|
      ensures KeyAt(data, 3 + i) == Some(rows[i].key) && RecordAt(data, 3 + i) == Some(RecordOf(rows[i]))
    {
      RowKey(data, slots, 3 + i, rows[i]);
    }
  }

  /** The search of a printed file whose keys ascend can find one slot only, the row of the call it is asked for, and
      finds none for any other call. */
  lemma TableAnswers(data: Bytes, unread: Slot, rows: seq<Row>, callsign: Bytes)
    requires PrintableRows(rows) && Encodes(data, TableSlots(unread, rows)) && Ascending(rows)
    ensures KeysSorted(KeyColumn(data)) && AllParse(data) && |KeyColumn(data)| == |rows|
    ensures forall i | 0 <= i < |rows| ::
              KeyColumn(data)[i] == Some(Country.NormalCall(callsign))
              <==> rows[i].key == Country.NormalCall(callsign)
    ensures RecordsFrom(data, 3, 3 + |rows|) == RecordsOf(rows)
  {
    hide Encodes, TableSlots, KeyAt, RecordAt, SearchableRange, Country.NormalCall, Le, RecordsFrom;
    TableRead(data, unread, rows);
    TableIterates(data, rows, 0);
    assert rows[0..] == rows;
  }

  function RecordsOf(rows: seq<Row>): (rs: seq<CountRecord>)
    ensures |rs| == |rows| && forall i | 0 <= i < |rs| :: rs[i] == RecordOf(rows[i])
  {
    seq(|rows|, i requires 0 <= i < |rows| => RecordOf(rows[i]))
  }

  lemma {:induction false} TableIterates(data: Bytes, rows: seq<Row>, n: nat)
    requires n <= |rows|
    requires forall i | 0 <= i < |rows| :: RecordAt(data, 3 + i) == Some(RecordOf(rows[i]))
    ensures RecordsFrom(data, 3 + n, 3 + |rows|) == RecordsOf(rows[n..])
    decreases |rows| - n
  {
    hide RecordAt, RecordsFrom, RecordOf;
    RecordsStep(data, 3 + n, 3 + |rows|);
    if n < |rows| {
      TableIterates(data, rows, n + 1);
      assert rows[n..] == [rows[n]] + rows[n + 1..];
    }
  }
}
