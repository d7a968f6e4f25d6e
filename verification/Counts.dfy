/** The encoded `counts.dat`: fixed 33-byte slots searched by binary search. */
module Counts {
  import opened Ascii
  import opened Cipher
  import Country

  const RECORD_LEN: nat := 33
  const KEY_LEN: nat := 15
  const COUNT_END: nat := 22
  const DATE_END: nat := 30
  const MAX_U32: nat := 0xffff_ffff

  datatype CountRecord = CountRecord(key: Bytes, count: nat, updated: Option<nat>, status: Option<Byte>)

  type Slot = s: Bytes | |s| == 33 witness seq(33, _ => 0)

  function SlotCount(data: Bytes): nat { |data| / RECORD_LEN }

  /** A decoded slot. */
  function SlotAt(data: Bytes, i: nat): Option<Slot> {
    if i >= SlotCount(data) then None
    else Some(DecodeAt(i * RECORD_LEN, data[i * RECORD_LEN..i * RECORD_LEN + RECORD_LEN]))
  }

  /** A slot's key; a blank slot has none. */
  function KeyAt(data: Bytes, i: nat): (r: Option<Bytes>)
    ensures r.Some? ==> r.value != [] && i < SlotCount(data)
  {
    match SlotAt(data, i)
    case None => None
    case Some(slot) =>
      var key := Trim(slot[..KEY_LEN], BLANK);
      if key == [] then None else Some(key)
  }

  function ParsedRecord(slot: Slot): (r: Option<CountRecord>)
    ensures r.Some? ==> r.value.key == Trim(slot[..KEY_LEN], BLANK) && r.value.key != []
  {
    var key := Trim(slot[..KEY_LEN], BLANK);
    var count := ParseUnsigned(Trim(slot[KEY_LEN..COUNT_END], BLANK), MAX_U32);
    if key == [] || count.None? then None
    else
      var date := ParseUnsigned(Trim(slot[COUNT_END..DATE_END], BLANK), MAX_U32);
      var updated := if date.Some? && 19900101 <= date.value <= 21000101 then date else None;
      var status := if 0x21 <= slot[DATE_END] <= 0x7e then Some(slot[DATE_END]) else None;
      Some(CountRecord(key, count.value, updated, status))
  }

  function RecordAt(data: Bytes, i: nat): Option<CountRecord> {
    match SlotAt(data, i)
    case None => None
    case Some(slot) => ParsedRecord(slot)
  }

  predicate RepeatedKey(key: Option<Bytes>, b: Byte) {
    key.Some? && key.value != [] && forall i | 0 <= i < |key.value| :: key.value[i] == b
  }

  /** A blank slot, a stray one, a row of `!`, the table, and a row of `z`. */
  predicate HasPrologueAndSentinels(data: Bytes) {
    && SlotCount(data) >= 4
    && KeyAt(data, 0).None?
    && RepeatedKey(KeyAt(data, 2), 0x21)
    && RepeatedKey(KeyAt(data, SlotCount(data) - 1), 0x7a)
  }

  function SearchableRange(data: Bytes): (r: (nat, nat))
    ensures r.0 <= r.1 <= SlotCount(data)
  {
    if HasPrologueAndSentinels(data) then (3, SlotCount(data) - 1) else (0, SlotCount(data))
  }

  /** The keys of the searchable slots, in file order. */
  function KeyColumn(data: Bytes): seq<Option<Bytes>> {
    KeysOf(data, SearchableRange(data).0, SearchableRange(data).1)
  }

  function KeysOf(data: Bytes, low: nat, high: nat): (keys: seq<Option<Bytes>>)
    requires low <= high
    ensures |keys| == high - low
    ensures forall i | 0 <= i < |keys| :: keys[i] == KeyAt(data, low + i)
  {
    seq(high - low, i requires 0 <= i < high - low => KeyAt(data, low + i))
  }

  /** Blank slots come first and keys never go backwards. */
  ghost predicate KeysSorted(keys: seq<Option<Bytes>>) {
    forall i, j | 0 <= i < j < |keys| && keys[i].Some? :: keys[j].Some? && Le(keys[i].value, keys[j].value)
  }

  /** Every searchable slot is blank or parses. */
  ghost predicate AllParse(data: Bytes) {
    forall i | 0 <= i < |KeyColumn(data)| && KeyColumn(data)[i].Some? ::
      RecordAt(data, SearchableRange(data).0 + i).Some?
  }

  method DecodedSlot(data: Bytes, index: nat) returns (r: Option<Slot>)
    ensures r == SlotAt(data, index)
  {
    hide DecodeByte;
    if index >= SlotCount(data) {
      return None;
    }
    var start := index * RECORD_LEN;
    var raw := data[start..start + RECORD_LEN];
    var out := new Byte[RECORD_LEN](_ => 0);
    for i := 0 to RECORD_LEN
      invariant forall k | 0 <= k < i :: out[k] == DecodeByte(start + k, raw[k])
    {
      out[i] := DecodeByte(start + i, raw[i]);
    }
    assert out[..] == DecodeAt(start, raw);
    return Some(out[..]);
  }

  method DecodedKey(data: Bytes, index: nat) returns (r: Option<Bytes>)
    ensures r == KeyAt(data, index)
  {
    hide SlotAt;
    var slot := DecodedSlot(data, index);
    if slot.None? {
      return None;
    }
    var key := Trim(slot.value[..KEY_LEN], BLANK);
    return if key == [] then None else Some(key);
  }

  method Record(data: Bytes, index: nat) returns (r: Option<CountRecord>)
    ensures r == RecordAt(data, index)
  {
    hide SlotAt, ParsedRecord;
    var slot := DecodedSlot(data, index);
    if slot.None? {
      return None;
    }
    r := ParsedRecord(slot.value);
  }

  /** Binary search; a blank slot counts as smaller than every key. */
  method Lookup(data: Bytes, callsign: Bytes) returns (r: Option<CountRecord>)
    ensures r.Some? ==>
              exists i :: 0 <= i < |KeyColumn(data)| && KeyColumn(data)[i] == Some(Country.NormalCall(callsign))
                          && RecordAt(data, SearchableRange(data).0 + i) == r
    ensures KeysSorted(KeyColumn(data)) && AllParse(data)
            ==> (r.Some? <==> Some(Country.NormalCall(callsign)) in KeyColumn(data))
  {
    hide KeyAt, RecordAt, SearchableRange, Country.NormalCall, KeysOf, Le, KeysSorted;
    var key := Country.NormalCall(callsign);
    ghost var keys := KeyColumn(data);
    var (first, last) := SearchableRange(data);
    if key == [] {
      NoEmptyKey(data);
      return None;
    }
    var low, high := first, last;
    while low < high
      invariant first <= low <= high <= last
      invariant KeysSorted(keys) ==> Some(key) !in keys[..low - first] && Some(key) !in keys[high - first..]
    {
      var mid := low + (high - low) / 2;
      var recordKey := DecodedKey(data, mid);
      assert recordKey == keys[mid - first];
      if recordKey.None? {
        BlankProbe(keys, key, mid - first);
        low := mid + 1;
        continue;
      }
      if recordKey.value == key {
        assert keys[mid - first] == Some(key);
        r := Record(data, mid);
        return;
      }
      KeyProbe(keys, key, mid - first);
      if Le(recordKey.value, key) {
        low := mid + 1;
      } else {
        high := mid;
      }
    }
    Halves(keys, key, low - first);
    return None;
  }

  lemma Halves(keys: seq<Option<Bytes>>, key: Bytes, n: nat)
    requires n <= |keys|
    ensures Some(key) !in keys[..n] && Some(key) !in keys[n..] ==> Some(key) !in keys
  {
    assert keys == keys[..n] + keys[n..];
  }

  lemma NoEmptyKey(data: Bytes)
    ensures Some([]) !in KeyColumn(data)
  {
    hide SearchableRange, SlotAt;
  }

  /** A blank probe rules out everything up to it. */
  lemma BlankProbe(keys: seq<Option<Bytes>>, key: Bytes, mid: nat)
    requires mid < |keys| && keys[mid].None?
    ensures KeysSorted(keys) ==> Some(key) !in keys[..mid + 1]
  {
  }

  /** Any other probe rules out its own half. */
  lemma KeyProbe(keys: seq<Option<Bytes>>, key: Bytes, mid: nat)
    requires mid < |keys| && keys[mid].Some? && keys[mid].value != key
    ensures KeysSorted(keys) && Le(keys[mid].value, key) ==> Some(key) !in keys[..mid + 1]
    ensures KeysSorted(keys) && !Le(keys[mid].value, key) ==> Some(key) !in keys[mid..]
  {
    hide Le;
    var probe := keys[mid].value;
    if KeysSorted(keys) && Le(probe, key) {
      forall i | 0 <= i <= mid ensures keys[i] != Some(key) {
        if keys[i] == Some(key) && i < mid {
          LeAntisymmetric(probe, key);
        }
      }
    }
  }

  // ---- iteration ------------------------------------------------------------------

  /** The parseable records of the slots from `next` to `end`. */
  function RecordsFrom(data: Bytes, next: nat, end: nat): seq<CountRecord>
    requires next <= end
    decreases end - next
  {
    if next == end then []
    else
      var r := RecordAt(data, next);
      (if r.Some? then [r.value] else []) + RecordsFrom(data, next + 1, end)
  }

  class LookupCountIter {
    const data: Bytes
    const end: nat
    var next: nat

    ghost predicate Valid()
      reads this
    {
      next <= end
    }

    ghost function Remaining(): seq<CountRecord>
      requires Valid()
      reads this
    {
      RecordsFrom(data, next, end)
    }

    constructor (data: Bytes)
      ensures Valid()
      ensures Remaining() == RecordsFrom(data, SearchableRange(data).0, SearchableRange(data).1)
    {
      this.data := data;
      this.next := SearchableRange(data).0;
      this.end := SearchableRange(data).1;
    }

    method Next() returns (r: Option<CountRecord>)
      requires Valid()
      modifies this
      ensures Valid()
      ensures r.Some? ==> old(Remaining()) == [r.value] + Remaining()
      ensures r.None? ==> old(Remaining()) == [] && Remaining() == []
    {
      hide RecordAt;
      while next < end
        invariant Valid() && Remaining() == old(Remaining())
      {
        var index := next;
        next := next + 1;
        var record := Record(data, index);
        if record.Some? {
          return record;
        }
      }
      return None;
    }
  }

  lemma {:induction false} RecordsFromMembers(data: Bytes, next: nat, end: nat, r: CountRecord)
    requires next <= end
    ensures r in RecordsFrom(data, next, end) <==> exists i :: next <= i < end && RecordAt(data, i) == Some(r)
    decreases end - next
  {
    hide RecordAt, RecordsFrom;
    RecordsStep(data, next, end);
    if next < end {
      RecordsFromMembers(data, next + 1, end, r);
    }
  }

  lemma RecordsStep(data: Bytes, next: nat, end: nat)
    requires next <= end
    ensures RecordsFrom(data, next, end)
            == if next == end then [] else Listed(RecordAt(data, next)) + RecordsFrom(data, next + 1, end)
  {
    hide RecordAt;
  }

  lemma RecordHasKey(data: Bytes, i: nat)
    ensures RecordAt(data, i).Some? ==> KeyAt(data, i) == Some(RecordAt(data, i).value.key)
  {
    hide SlotAt;
  }

  /** Whatever binary search can find on a sorted table, iteration lists, and conversely. */
  lemma SearchAndIterationAgree(data: Bytes, key: Bytes)
    requires AllParse(data)
    ensures Some(key) in KeyColumn(data) <==>
              exists r :: r in RecordsFrom(data, SearchableRange(data).0, SearchableRange(data).1) && r.key == key
  {
    hide KeyAt, RecordAt, SearchableRange, KeysOf, RecordsFrom;
    var (low, high) := SearchableRange(data);
    var keys := KeyColumn(data);
    if Some(key) in keys {
      var i :| 0 <= i < |keys| && keys[i] == Some(key);
      var r := RecordAt(data, low + i).value;
      RecordHasKey(data, low + i);
      RecordsFromMembers(data, low, high, r);
      assert r.key == key;
    }
    if r :| r in RecordsFrom(data, low, high) && r.key == key {
      RecordsFromMembers(data, low, high, r);
      var i :| low <= i < high && RecordAt(data, i) == Some(r);
      RecordHasKey(data, i);
      assert keys[i - low] == Some(key);
    }
  }
}
