/** Owned lookup records and the in-place merge that fills their gaps. */
module Snapshots {
  import opened Ascii
  import Sorting

  datatype Source = UsCsv | HamCallDatIdx | HamCallHci
  datatype Jurisdiction = UnitedStates | Canada | International | Unknown

  /** The optional text fields of a snapshot. */
  datatype Field =
    | LicenseClass | RecordCode | FirstName | MiddleName | LastName | Suffix
    | Address | City | StateOrProvince | PostalCode | County | Country
    | BirthDate | FirstIssued | Expires | LastChanged | GmtOffset
    | Latitude | Longitude | Grid | AreaCode | PreviousCall | PreviousClass
    | FccTransactionType | Email | Qsl | Url | FaxNumber | Iota
    | InterestCodesRaw | LicenseId | Frn | NumericId

  datatype Interest = Interest(code: Bytes, category: Bytes, title: Bytes)

  /** The value of one snapshot; a field that is `None` is not in `text`. */
  datatype Snapshot = Snapshot(
    callsign: Bytes,
    vintage: Option<nat>,
    sources: seq<Source>,
    jurisdiction: Jurisdiction,
    text: map<Field, Bytes>,
    interestCodes: seq<Bytes>,
    interests: seq<Interest>,
    rawTags: map<Byte, Bytes>)

  function NewSnapshot(callsign: Bytes, vintage: Option<nat>, source: Source): Snapshot {
    Snapshot(callsign, vintage, [source], Unknown, map[], [], [], map[])
  }

  function Get(text: map<Field, Bytes>, f: Field): Option<Bytes> {
    if f in text then Some(text[f]) else None
  }

  /** A text that is present is not empty, unless a country rule gives it: what every reader of the files produces. */
  predicate ProperText(text: map<Field, Bytes>) { forall f | f in text && f != Country :: text[f] != [] }

  predicate NonEmpty(v: Option<Bytes>) { v.Some? && v.value != [] }

  /** `fill`: an empty string counts as missing. */
  function Filled(dst: Option<Bytes>, src: Option<Bytes>): Option<Bytes> {
    if NonEmpty(dst) then dst else src
  }

  /** `b` brings a split name and the merged record has a first name. */
  predicate NameFollowsSplit(a: map<Field, Bytes>, b: map<Field, Bytes>) {
    (FirstName in b || MiddleName in b) && Filled(Get(a, FirstName), Get(b, FirstName)).Some?
  }

  /** A last name follows the split name it belongs to, even over an existing one. */
  function MergedField(a: map<Field, Bytes>, b: map<Field, Bytes>, f: Field): Option<Bytes> {
    if f == LastName && NameFollowsSplit(a, b) then
      if LastName in b then Get(b, LastName) else Get(a, LastName)
    else Filled(Get(a, f), Get(b, f))
  }

  function MergedText(a: map<Field, Bytes>, b: map<Field, Bytes>): (t: map<Field, Bytes>)
    ensures forall f :: Get(t, f) == MergedField(a, b, f)
  {
    map f | f in a.Keys + b.Keys && MergedField(a, b, f).Some? :: MergedField(a, b, f).value
  }

  function Rank(s: Source): nat {
    match s
    case UsCsv => 0
    case HamCallDatIdx => 1
    case HamCallHci => 2
  }

  predicate SourceLe(a: Source, b: Source) { Rank(a) <= Rank(b) }

  function AddMissing(a: seq<Source>, b: seq<Source>): seq<Source> {
    if b == [] then a
    else
      var r := AddMissing(a, b[..|b| - 1]);
      if b[|b| - 1] in r then r else r + [b[|b| - 1]]
  }

  function MergedSources(a: seq<Source>, b: seq<Source>): seq<Source> {
    Sorting.Sort(SourceLe, AddMissing(a, b))
  }

  /** What `merge_missing_from` leaves in the receiver. */
  function Merge(a: Snapshot, b: Snapshot): Snapshot {
    Snapshot(
      a.callsign,
      a.vintage,
      MergedSources(a.sources, b.sources),
      if a.jurisdiction == Unknown then b.jurisdiction else a.jurisdiction,
      MergedText(a.text, b.text),
      if a.interestCodes == [] then b.interestCodes else a.interestCodes,
      if a.interests == [] then b.interests else a.interests,
      a.rawTags + b.rawTags)
  }

  /** A snapshot that the merge updates in place. */
  class CallSnapshot {
    const callsign: Bytes
    const vintage: Option<nat>
    var sources: seq<Source>
    var jurisdiction: Jurisdiction
    var text: map<Field, Bytes>
    var interestCodes: seq<Bytes>
    var interests: seq<Interest>
    var rawTags: map<Byte, Bytes>

    function Value(): Snapshot
      reads this
    {
      Snapshot(callsign, vintage, sources, jurisdiction, text, interestCodes, interests, rawTags)
    }

    constructor (s: Snapshot)
      ensures Value() == s
    {
      callsign, vintage, sources, jurisdiction := s.callsign, s.vintage, s.sources, s.jurisdiction;
      text, interestCodes, interests, rawTags := s.text, s.interestCodes, s.interests, s.rawTags;
    }

    method MergeSources(other: seq<Source>)
      modifies this`sources
      ensures sources == MergedSources(old(sources), other)
    {
      for i := 0 to |other|
        invariant sources == AddMissing(old(sources), other[..i])
      {
        assert other[..i + 1][..i] == other[..i];
        if other[i] !in sources {
          sources := sources + [other[i]];
        }
      }
      assert other[..|other|] == other;
      sources := Sorting.Sort(SourceLe, sources);
    }

    /** Fill what is missing from `other`, keeping what is there. */
    method MergeMissingFrom(other: Snapshot)
      modifies this
      ensures Value() == Merge(old(Value()), other)
    {
      MergeSources(other.sources);
      if jurisdiction == Unknown {
        jurisdiction := other.jurisdiction;
      }
      text := FillText(text, other.text);
      if interestCodes == [] {
        interestCodes := other.interestCodes;
      }
      if interests == [] {
        interests := other.interests;
      }
      rawTags := rawTags + other.rawTags;
    }
  }

  // The groups in which the merge visits the text fields, in order.
  predicate InHead(f: Field) { f.LicenseClass? || f.RecordCode? || f.FirstName? || f.MiddleName? }

  predicate InAddress(f: Field) {
    || f.Suffix? || f.Address? || f.City?
    || f.StateOrProvince? || f.PostalCode? || f.County?
  }

  predicate InDates(f: Field) {
    || f.Country? || f.BirthDate? || f.FirstIssued?
    || f.Expires? || f.LastChanged? || f.GmtOffset?
  }

  predicate InPlace(f: Field) {
    || f.Latitude? || f.Longitude? || f.Grid?
    || f.AreaCode? || f.PreviousCall? || f.PreviousClass?
  }

  predicate InContact(f: Field) {
    || f.FccTransactionType? || f.Email? || f.Qsl?
    || f.Url? || f.FaxNumber? || f.Iota?
  }

  predicate InIds(f: Field) {
    || f.InterestCodesRaw? || f.LicenseId? || f.Frn?
    || f.NumericId?
  }

  method FillHead(text: map<Field, Bytes>, other: map<Field, Bytes>) returns (t: map<Field, Bytes>)
    ensures forall g :: Get(t, g) == if InHead(g) then Filled(Get(text, g), Get(other, g)) else Get(text, g)
  {
    hide Get, Filled;
    t := Fill(text, other, LicenseClass);
    t := Fill(t, other, RecordCode);
    t := Fill(t, other, FirstName);
    t := Fill(t, other, MiddleName);
  }

  /** The last name, once the first name of `text` is merged. */
  function NextLastName(text: map<Field, Bytes>, other: map<Field, Bytes>): Option<Bytes> {
    if (FirstName in other || MiddleName in other) && FirstName in text then
      if LastName in other then Get(other, LastName) else Get(text, LastName)
    else Filled(Get(text, LastName), Get(other, LastName))
  }

  method FillLastName(text: map<Field, Bytes>, other: map<Field, Bytes>) returns (t: map<Field, Bytes>)
    ensures forall g :: Get(t, g) == if g == LastName then NextLastName(text, other) else Get(text, g)
  {
    t := text;
    var otherHasSplitName := FirstName in other || MiddleName in other;
    if otherHasSplitName && FirstName in text {
      if LastName in other {
        t := t[LastName := other[LastName]];
      }
    } else {
      t := Fill(t, other, LastName);
    }
  }

  method FillAddress(text: map<Field, Bytes>, other: map<Field, Bytes>) returns (t: map<Field, Bytes>)
    ensures forall g :: Get(t, g) == if InAddress(g) then Filled(Get(text, g), Get(other, g)) else Get(text, g)
  {
    hide Get, Filled;
    t := Fill(text, other, Suffix);
    t := Fill(t, other, Address);
    t := Fill(t, other, City);
    t := Fill(t, other, StateOrProvince);
    t := Fill(t, other, PostalCode);
    t := Fill(t, other, County);
  }

  method FillDates(text: map<Field, Bytes>, other: map<Field, Bytes>) returns (t: map<Field, Bytes>)
    ensures forall g :: Get(t, g) == if InDates(g) then Filled(Get(text, g), Get(other, g)) else Get(text, g)
  {
    hide Get, Filled;
    t := Fill(text, other, Country);
    t := Fill(t, other, BirthDate);
    t := Fill(t, other, FirstIssued);
    t := Fill(t, other, Expires);
    t := Fill(t, other, LastChanged);
    t := Fill(t, other, GmtOffset);
  }

  method FillPlace(text: map<Field, Bytes>, other: map<Field, Bytes>) returns (t: map<Field, Bytes>)
    ensures forall g :: Get(t, g) == if InPlace(g) then Filled(Get(text, g), Get(other, g)) else Get(text, g)
  {
    hide Get, Filled;
    t := Fill(text, other, Latitude);
    t := Fill(t, other, Longitude);
    t := Fill(t, other, Grid);
    t := Fill(t, other, AreaCode);
    t := Fill(t, other, PreviousCall);
    t := Fill(t, other, PreviousClass);
  }

  method FillContact(text: map<Field, Bytes>, other: map<Field, Bytes>) returns (t: map<Field, Bytes>)
    ensures forall g :: Get(t, g) == if InContact(g) then Filled(Get(text, g), Get(other, g)) else Get(text, g)
  {
    hide Get, Filled;
    t := Fill(text, other, FccTransactionType);
    t := Fill(t, other, Email);
    t := Fill(t, other, Qsl);
    t := Fill(t, other, Url);
    t := Fill(t, other, FaxNumber);
    t := Fill(t, other, Iota);
  }

  method FillIds(text: map<Field, Bytes>, other: map<Field, Bytes>) returns (t: map<Field, Bytes>)
    ensures forall g :: Get(t, g) == if InIds(g) then Filled(Get(text, g), Get(other, g)) else Get(text, g)
  {
    hide Get, Filled;
    t := Fill(text, other, InterestCodesRaw);
    t := Fill(t, other, LicenseId);
    t := Fill(t, other, Frn);
    t := Fill(t, other, NumericId);
  }

  method FillText(text: map<Field, Bytes>, other: map<Field, Bytes>) returns (t: map<Field, Bytes>)
    ensures t == MergedText(text, other)
  {
    hide Get, Filled, MergedField, NextLastName;
    var head := FillHead(text, other);
    var named := FillLastName(head, other);
    var address := FillAddress(named, other);
    var dates := FillDates(address, other);
    var place := FillPlace(dates, other);
    var contact := FillContact(place, other);
    t := FillIds(contact, other);
    LastNameOrder(text, other, head);
    forall f ensures Get(t, f) == MergedField(text, other, f) {
      GroupsCover(text, other, f, [Get(head, f), Get(named, f), Get(address, f), Get(dates, f),
                                   Get(place, f), Get(contact, f), Get(t, f)]);
    }
    SameText(t, MergedText(text, other));
  }

  /** Every field is in exactly one group, so merging group by group merges every field once. */
  lemma GroupsCover(text: map<Field, Bytes>, other: map<Field, Bytes>, f: Field, v: seq<Option<Bytes>>)
    requires |v| == 7
    requires v[0] == if InHead(f) then Filled(Get(text, f), Get(other, f)) else Get(text, f)
    requires v[1] == if f == LastName then MergedField(text, other, f) else v[0]
    requires v[2] == if InAddress(f) then Filled(v[1], Get(other, f)) else v[1]
    requires v[3] == if InDates(f) then Filled(v[2], Get(other, f)) else v[2]
    requires v[4] == if InPlace(f) then Filled(v[3], Get(other, f)) else v[3]
    requires v[5] == if InContact(f) then Filled(v[4], Get(other, f)) else v[4]
    requires v[6] == if InIds(f) then Filled(v[5], Get(other, f)) else v[5]
    ensures v[6] == MergedField(text, other, f)
  {
  }

  lemma LastNameOrder(text: map<Field, Bytes>, other: map<Field, Bytes>, head: map<Field, Bytes>)
    requires Get(head, FirstName) == Filled(Get(text, FirstName), Get(other, FirstName))
    requires Get(head, LastName) == Get(text, LastName)
    ensures NextLastName(head, other) == MergedField(text, other, LastName)
  {
  }

  /** `fill` for one field. */
  method Fill(text: map<Field, Bytes>, other: map<Field, Bytes>, f: Field) returns (t: map<Field, Bytes>)
    ensures forall g :: Get(t, g) == if g == f then Filled(Get(text, f), Get(other, f)) else Get(text, g)
  {
    t := if NonEmpty(Get(text, f)) then text
         else if f in other then text[f := other[f]]
         else text - {f};
  }

  lemma SameText(a: map<Field, Bytes>, b: map<Field, Bytes>)
    requires forall f :: Get(a, f) == Get(b, f)
    ensures a == b
  {
    forall f ensures f in a <==> f in b {
      assert Get(a, f) == Get(b, f);
    }
    assert a.Keys == b.Keys;
    forall f | f in a ensures a[f] == b[f] {
      assert Get(a, f) == Get(b, f);
    }
  }

  // ---- properties --------------------------------------------------------

  lemma {:induction false} AddMissingMeaning(a: seq<Source>, b: seq<Source>)
    ensures forall s :: s in AddMissing(a, b) <==> s in a || s in b
    ensures Distinct(a) ==> Distinct(AddMissing(a, b))
  {
    if b != [] {
      AddMissingMeaning(a, b[..|b| - 1]);
      assert b == b[..|b| - 1] + [b[|b| - 1]];
    }
  }

  lemma {:induction false} NothingMissing(a: seq<Source>, b: seq<Source>)
    requires forall s :: s in b ==> s in a
    ensures AddMissing(a, b) == a
  {
    if b != [] {
      NothingMissing(a, b[..|b| - 1]);
    }
  }

  lemma {:induction false} SortOfSorted(s: seq<Source>)
    requires Sorting.SortedBy(SourceLe, s)
    ensures Sorting.Sort(SourceLe, s) == s
  {
    if s != [] {
      SortOfSorted(s[1..]);
    }
  }

  /** Merged sources are the union, sorted; duplicate-free when the receiver's were. */
  lemma MergedSourcesUnion(a: seq<Source>, b: seq<Source>)
    ensures forall s :: s in MergedSources(a, b) <==> s in a || s in b
    ensures Sorting.SortedBy(SourceLe, MergedSources(a, b))
    ensures Distinct(a) ==> Sorting.AscendingBy(SourceLe, MergedSources(a, b))
  {
    var u, r := AddMissing(a, b), MergedSources(a, b);
    AddMissingMeaning(a, b);
    Sorting.SortSorts(SourceLe, u);
    Sorting.SortMembers(SourceLe, u);
    if Distinct(a) {
      Sorting.SameMultisetDistinct(u, r);
      forall i, j | 0 <= i < j < |r| ensures !SourceLe(r[j], r[i]) {
        assert r[i] != r[j];
      }
    }
  }

  /** Identity, and every non-empty text except the last name, survives any merge. */
  lemma MergeKeeps(a: Snapshot, b: Snapshot, f: Field)
    ensures Merge(a, b).callsign == a.callsign && Merge(a, b).vintage == a.vintage
    ensures NonEmpty(Get(a.text, f)) && f != LastName ==> Get(Merge(a, b).text, f) == Get(a.text, f)
    ensures !NonEmpty(Get(a.text, f)) && f != LastName ==> Get(Merge(a, b).text, f) == Get(b.text, f)
    ensures forall t :: t in b.rawTags ==> t in Merge(a, b).rawTags && Merge(a, b).rawTags[t] == b.rawTags[t]
  {
    assert Get(MergedText(a.text, b.text), f) == MergedField(a.text, b.text, f);
  }

  /** Text by text: what the receiver has and is not empty stays, anything else is what arrives. */
  lemma MergeFills(a: Snapshot, b: Snapshot, f: Field)
    ensures var t := Merge(a, b).text;
            f != LastName ==>
              if f in a.text && a.text[f] != [] then f in t && t[f] == a.text[f]
              else (f in t <==> f in b.text) && (f in b.text ==> t[f] == b.text[f])
  {
    assert Get(MergedText(a.text, b.text), f) == MergedField(a.text, b.text, f);
  }

  /** The last name: with a first or middle name arriving, and a first name after the merge, it is the one that
      arrives with them, if any. Otherwise it is filled like other texts. */
  lemma MergedLastName(a: Snapshot, b: Snapshot)
    ensures var t := Merge(a, b).text;
            var split := (FirstName in b.text || MiddleName in b.text) && FirstName in t;
            if LastName in a.text && (if split then LastName !in b.text else a.text[LastName] != [])
            then LastName in t && t[LastName] == a.text[LastName]
            else (LastName in t <==> LastName in b.text) && (LastName in b.text ==> t[LastName] == b.text[LastName])
  {
    assert Get(MergedText(a.text, b.text), LastName) == MergedField(a.text, b.text, LastName);
    assert Get(MergedText(a.text, b.text), FirstName) == MergedField(a.text, b.text, FirstName);
  }

  /** Those of the three sources that are wanted, in the order of a report. */
  function Sources(catalog: bool, index: bool, inverted: bool): seq<Source> {
    (if catalog then [UsCsv] else []) + (if index then [HamCallDatIdx] else [])
    + (if inverted then [HamCallHci] else [])
  }

  lemma SourcesAscend(catalog: bool, index: bool, inverted: bool)
    ensures Sorting.AscendingBy(SourceLe, Sources(catalog, index, inverted))
    ensures forall s :: s in Sources(catalog, index, inverted) <==>
                          match s case UsCsv => catalog case HamCallDatIdx => index case HamCallHci => inverted
  {
  }

  lemma MergedSourcesListed(a: seq<Source>, b: seq<Source>)
    requires Distinct(a)
    ensures var all := a + b;
            MergedSources(a, b) == Sources(UsCsv in all, HamCallDatIdx in all, HamCallHci in all)
  {
    hide MergedSources, Sources, SourceLe;
    var all := a + b;
    MergedSourcesUnion(a, b);
    SourcesAscend(UsCsv in all, HamCallDatIdx in all, HamCallHci in all);
    var listed := Sources(UsCsv in all, HamCallDatIdx in all, HamCallHci in all);
    Sorting.AscendingUnique(SourceLe, MergedSources(a, b), listed);
  }

  /** The other members: sources in the order catalog, index, inverted file; the receiver's jurisdiction, codes and
      interests unless it has none; and the arriving value of every raw tag that arrives. */
  lemma MergedRest(a: Snapshot, b: Snapshot)
    ensures var m, all := Merge(a, b), a.sources + b.sources;
            && (Distinct(a.sources) ==>
                  m.sources == Sources(UsCsv in all, HamCallDatIdx in all, HamCallHci in all))
            && m.jurisdiction == (if a.jurisdiction != Unknown then a.jurisdiction else b.jurisdiction)
            && m.interestCodes == (if a.interestCodes != [] then a.interestCodes else b.interestCodes)
            && m.interests == (if a.interests != [] then a.interests else b.interests)
            && m.rawTags.Keys == a.rawTags.Keys + b.rawTags.Keys
            && forall t | t in m.rawTags :: m.rawTags[t] == if t in b.rawTags then b.rawTags[t] else a.rawTags[t]
  {
    hide MergedSources, MergedText, Sources;
    if Distinct(a.sources) {
      MergedSourcesListed(a.sources, b.sources);
    }
  }

  /** A last name is replaced exactly when a split name arrives together with another last name
      and the merged record has a first name. */
  lemma LastNameReplaced(a: Snapshot, b: Snapshot)
    requires LastName in a.text && a.text[LastName] != []
    ensures Get(Merge(a, b).text, LastName) != Get(a.text, LastName)
            <==> && LastName in b.text && b.text[LastName] != a.text[LastName]
                 && (FirstName in b.text || (MiddleName in b.text && FirstName in a.text && a.text[FirstName] != []))
  {
    assert Get(MergedText(a.text, b.text), LastName) == MergedField(a.text, b.text, LastName);
  }

  lemma FieldAbsorbs(a: map<Field, Bytes>, b: map<Field, Bytes>, m: map<Field, Bytes>, f: Field)
    requires Get(m, f) == MergedField(a, b, f) && Get(m, FirstName) == MergedField(a, b, FirstName)
    ensures MergedField(m, b, f) == Get(m, f)
  {
  }

  /** Merging the same record a second time changes nothing. */
  lemma MergeAbsorbs(a: Snapshot, b: Snapshot)
    ensures Merge(Merge(a, b), b) == Merge(a, b)
  {
    hide MergedSources, MergedText;
    var m := Merge(a, b);
    SourcesAbsorb(a.sources, b.sources);
    TextAbsorbs(a.text, b.text);
    assert m.rawTags + b.rawTags == m.rawTags;
  }

  lemma SourcesAbsorb(a: seq<Source>, b: seq<Source>)
    ensures MergedSources(MergedSources(a, b), b) == MergedSources(a, b)
  {
    var m := MergedSources(a, b);
    MergedSourcesUnion(a, b);
    NothingMissing(m, b);
    SortOfSorted(m);
  }

  lemma TextAbsorbs(a: map<Field, Bytes>, b: map<Field, Bytes>)
    ensures MergedText(MergedText(a, b), b) == MergedText(a, b)
  {
    hide MergedField, Get;
    var m := MergedText(a, b);
    forall f ensures Get(MergedText(m, b), f) == Get(m, f) {
      FieldAbsorbs(a, b, m, f);
    }
    SameText(MergedText(m, b), m);
  }

  /** A snapshot merged with itself is itself, exactly when its sources are sorted. */
  lemma SelfMerge(a: Snapshot)
    ensures Merge(a, a) == a <==> Sorting.SortedBy(SourceLe, a.sources)
  {
    MergedSourcesUnion(a.sources, a.sources);
    NothingMissing(a.sources, a.sources);
    forall f ensures Get(MergedText(a.text, a.text), f) == Get(a.text, f) {
      assert Get(MergedText(a.text, a.text), f) == MergedField(a.text, a.text, f);
    }
    SameText(MergedText(a.text, a.text), a.text);
    assert a.rawTags + a.rawTags == a.rawTags;
    if Sorting.SortedBy(SourceLe, a.sources) {
      SortOfSorted(a.sources);
    }
  }
}
