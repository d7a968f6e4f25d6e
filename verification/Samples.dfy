/** A small encoded file, byte by byte, and what it says. */
module Samples {
  import opened Ascii
  import opened Snapshots
  import opened Records
  import opened RecordText
  import opened Stations
  import opened Publication
  import Cipher
  import opened CipherSamples
  import Framing

  const K1A: Bytes := Text("K1A")
  const RAY: seq<(Byte, Bytes)> := [(0xb8, Text("AL")), (0xba, Text("RAY"))]

  lemma RayText()
    ensures RecordBytes(K1A, None, RAY)
            == [0xb5, 0x4b, 0x31, 0x41, 0xb8, 0x41, 0x4c, 0xba, 0x52, 0x41, 0x59]
  {
    assert K1A == [0x4b, 0x31, 0x41] && Text("AL") == [0x41, 0x4c];
    assert Text("RAY") == [0x52, 0x41, 0x59];
    assert RAY[1..] == [RAY[1]] && RAY[1..][1..] == [];
    assert FieldsText(RAY[1..]) == [0xba] + Text("RAY") + [];
    assert FieldsText(RAY) == [0xb8] + Text("AL") + FieldsText(RAY[1..]);
    assert KeyText(K1A, None) == K1A + [];
  }

  lemma RayPrintable()
    ensures PrintableCall(K1A) && PrintableFields(RAY)
    ensures LastValue(RAY, FirstName) == Some(Text("AL")) && LastValue(RAY, LastName) == Some(Text("RAY"))
  {
    assert RAY[1..] == [RAY[1]] && RAY[1..][1..] == [];
    LastOfTwo(FirstName);
    LastOfTwo(LastName);
  }

  lemma LastOfTwo(f: Field)
    ensures LastValue(RAY, f) == if FieldOf(0xba) == Some(f) then Some(Text("RAY"))
                                   else if FieldOf(0xb8) == Some(f) then Some(Text("AL"))
                                   else None
  {
    hide FieldOf;
    assert RAY[1..] == [RAY[1]] && RAY[1..][1..] == [];
    assert LastValue(RAY[1..][1..], f) == None;
  }

  lemma RayFramed()
    ensures Framing.IsRecord(RAY_FILE, 0, 11)
  {
    hide Cipher.DecodeByte;
    RayDecodes();
    var d := Cipher.DecodeAt(0, RAY_FILE);
    assert forall k | 0 <= k < 11 :: d[k] == Cipher.DecodeByte(k, RAY_FILE[k]);
  }

  predicate IsRay(s: Snapshot) {
    && s.callsign == Text("K1A") && s.vintage == None
    && Get(s.text, FirstName) == Some(Text("AL")) && Get(s.text, LastName) == Some(Text("RAY"))
  }

  /** The file is one record, and the parser reads `K1A`, AL and RAY in it. */
  lemma RayIsRead(offset: nat, ctx: Context)
    requires offset < 11
    ensures Framing.RecordAt(RAY_FILE, offset) == Some((0, 11))
    ensures var s := ParsedSegment(Cipher.DecodeAt(0, RAY_FILE), ctx); s.Some? && IsRay(s.value)
  {
    hide Cipher.DecodeAt, Framing.IsRecord, Framing.RecordAt, ParsedSegment, Enrich, AppliedTags, IsRay;
    RayFramed();
    RayText();
    Framing.RecordAtExact(RAY_FILE, offset, 0, 11);
    RayDecodes();
    RayPrintable();
    PrintedRecordParses(K1A, None, RAY, ctx);
    RayPrinted(ctx);
  }

  lemma RayPrinted(ctx: Context)
    ensures IsRay(Printed(K1A, None, RAY, ctx))
  {
    hide Enrich, AppliedTags, LastValue;
    RayPrintable();
    PrintedText(K1A, None, RAY, ctx, FirstName);
    PrintedText(K1A, None, RAY, ctx, LastName);
    PrintedValues(K1A, None, RAY, ctx, FirstName);
  }
}
