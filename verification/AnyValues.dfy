/** Records whose values are any bytes at all: which of them are read, and as what. */
module AnyValues {
  import opened Ascii
  import opened Snapshots
  import opened Records
  import opened RecordText

  /** Any values between tags, as long as no byte of them is a tag or a sentinel itself. */
  predicate Separated(fields: seq<(Byte, Bytes)>) {
    forall i | 0 <= i < |fields| ::
      0xb6 <= fields[i].0 <= 0xdf && forall b | b in fields[i].1 :: !(0xb5 <= b <= 0xdf)
  }

  /** The values that are read: trimmed of blanks and NUL, not empty, and printable all through. */
  function Readable(fields: seq<(Byte, Bytes)>): seq<(Byte, Bytes)> {
    if fields == [] then []
    else
      var t := Trim(fields[0].1, {0, 9, 10, 12, 13, 32});
      (if t != [] && forall i | 0 <= i < |t| :: ' ' <= t[i] as char <= '~' then [(fields[0].0, t)] else [])
      + Readable(fields[1..])
  }

  /** What one value is cleaned to: nothing, or itself without blanks around it. */
  lemma Cleaned(value: Bytes)
    ensures var t := Trim(value, {0, 9, 10, 12, 13, 32});
            CleanAscii(value) == if forall i | 0 <= i < |t| :: ' ' <= t[i] as char <= '~' then Some(t) else None
  {
    hide Trim;
    assert BLANK == {0, 9, 10, 12, 13, 32};
  }

  lemma OneValue(head: Bytes, tag: Byte, value: Bytes, tail: Bytes)
    requires 0xb6 <= tag <= 0xdf && forall b | b in value :: !(0xb5 <= b <= 0xdf)
    requires tail != [] ==> 0xb6 <= tail[0] <= 0xdf
    ensures var body, i := head + [tag] + value + tail, |head|;
            && body[i] == tag && IsTag(body[i])
            && ValueEnd(body, i + 1) == i + 1 + |value|
            && body[i + 1..i + 1 + |value|] == value
  {
    var body, i := head + [tag] + value + tail, |head|;
    forall k | i + 1 <= k < i + 1 + |value| ensures !IsMarkOrTag(body[k]) {
      assert body[k] == value[k - i - 1] && value[k - i - 1] in value;
    }
    ValueEndUnique(body, i + 1, i + 1 + |value|);
  }

  lemma {:induction false} ValuesRead(s: Snapshot, head: Bytes, fields: seq<(Byte, Bytes)>)
    requires Separated(fields)
    ensures ApplyFields(s, head + FieldsText(fields), |head|) == AppliedTags(s, Readable(fields))
    decreases |fields|
  {
    hide ApplyTag, CleanAscii, ApplyFields, IsTag, FieldsText, Readable, AppliedTags;
    if fields == [] {
      NothingRead(s, head);
    } else {
      var (tag, value) := fields[0];
      var c := CleanAscii(value);
      FirstValue(s, head, fields);
      ValuesRead(if c.Some? && c.value != [] then ApplyTag(s, tag, c.value) else s, head + [tag] + value, fields[1..]);
      ReadableStep(s, fields);
    }
  }

  lemma NothingRead(s: Snapshot, head: Bytes)
    ensures ApplyFields(s, head + FieldsText([]), |head|) == s == AppliedTags(s, Readable([]))
  {
    assert head + [] == head;
  }

  lemma FirstValue(s: Snapshot, head: Bytes, fields: seq<(Byte, Bytes)>)
    requires Separated(fields) && fields != []
    ensures var (tag, value) := fields[0];
            var c, next := CleanAscii(value), head + [tag] + value;
            ApplyFields(s, head + FieldsText(fields), |head|)
            == ApplyFields(if c.Some? && c.value != [] then ApplyTag(s, tag, c.value) else s,
                           next + FieldsText(fields[1..]), |next|)
  {
    hide ApplyTag, CleanAscii, ApplyFields;
    var (tag, value) := fields[0];
    var rest := fields[1..];
    assert head + FieldsText(fields) == head + [tag] + value + FieldsText(rest);
    assert rest != [] ==> FieldsText(rest)[0] == rest[0].0;
    OneValue(head, tag, value, FieldsText(rest));
    OneRead(s, head + FieldsText(fields), |head|, tag, value);
  }

  lemma OneRead(s: Snapshot, body: Bytes, i: nat, tag: Byte, value: Bytes)
    requires i < |body| && body[i] == tag && IsTag(tag)
    requires var end := i + 1 + |value|;
             end <= |body| && ValueEnd(body, i + 1) == end && body[i + 1..end] == value
    ensures var c := CleanAscii(value);
            ApplyFields(s, body, i)
            == ApplyFields(if c.Some? && c.value != [] then ApplyTag(s, tag, c.value) else s, body, i + 1 + |value|)
  {
    hide CleanAscii, ApplyTag, ValueEnd;
  }

  lemma ReadableStep(s: Snapshot, fields: seq<(Byte, Bytes)>)
    requires fields != []
    ensures var c := CleanAscii(fields[0].1);
            AppliedTags(s, Readable(fields))
            == AppliedTags(if c.Some? && c.value != [] then ApplyTag(s, fields[0].0, c.value) else s,
                           Readable(fields[1..]))
  {
    hide CleanAscii, Trim, ApplyTag;
    Cleaned(fields[0].1);
    var rest := Readable(fields[1..]);
    var t := Trim(fields[0].1, {0, 9, 10, 12, 13, 32});
    assert ([(fields[0].0, t)] + rest)[1..] == rest;
    assert [] + rest == rest;
  }

  lemma SeparatedBody(key: Bytes, fields: seq<(Byte, Bytes)>)
    requires AllPrintable(key) && Separated(fields)
    ensures KeyEnd(key + FieldsText(fields)) == |key|
  {
    var body := key + FieldsText(fields);
    assert fields != [] ==> IsTag(fields[0].0);
    forall i | 0 <= i < |key| ensures !IsTag(body[i]) {
      assert body[i] == key[i] && IsPrintable(key[i]);
    }
    FirstTagUnique(body, 0, |key|);
  }

  /** A record is read whatever its values are: each value between two tags counts, trimmed, if it is printable, and is
      passed over otherwise. */
  lemma AnyRecordParses(call: Bytes, vintage: Option<nat>, fields: seq<(Byte, Bytes)>, ctx: Context)
    requires PrintableCall(call) && Separated(fields) && (vintage.Some? ==> vintage.value <= 65535)
    ensures ParsedSegment(RecordBytes(call, vintage, fields), ctx)
            == Some(Enrich(AppliedTags(NewSnapshot(call, vintage, ctx.source), Readable(fields)), ctx))
  {
    hide Enrich, LooksLikeKey, SplitKey, KeyText, FieldsText, CleanAscii, ApplyFields, Separated, Readable;
    var key := KeyText(call, vintage);
    var body := key + FieldsText(fields);
    assert Body(RecordBytes(call, vintage, fields)) == body;
    KeyTextShape(call, vintage);
    KeyTextSplits(call, vintage);
    SeparatedBody(key, fields);
    assert body[..|key|] == key;
    CleanIsIdentity(key);
    ValuesRead(NewSnapshot(call, vintage, ctx.source), key, fields);
  }
}
