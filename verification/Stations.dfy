/** A station record with its documented fields, printed under their tag bytes and read back by name. */
module Stations {
  import opened Ascii
  import opened Snapshots
  import opened Records
  import opened RecordText
  import opened Publication
  import Country
  import Interests

  /** The values of one record, by name; `raw..` are the tags of the layout that have none. */
  datatype Station = Station(
    licenseClass: Option<Bytes>, recordCode: Option<Bytes>, firstName: Option<Bytes>,
    middleName: Option<Bytes>, lastName: Option<Bytes>, suffix: Option<Bytes>, address1: Option<Bytes>,
    address2: Option<Bytes>, address3: Option<Bytes>, city: Option<Bytes>, stateOrProvince: Option<Bytes>,
    postalCode: Option<Bytes>, birthDate: Option<Bytes>, firstIssued: Option<Bytes>, expires: Option<Bytes>,
    lastChanged: Option<Bytes>, county: Option<Bytes>, gmtOffset: Option<Bytes>, latitude: Option<Bytes>,
    longitude: Option<Bytes>, grid: Option<Bytes>, areaCode: Option<Bytes>, previousCall: Option<Bytes>,
    previousClass: Option<Bytes>, fccTransactionType: Option<Bytes>, email: Option<Bytes>, qsl: Option<Bytes>,
    country: Option<Bytes>, url: Option<Bytes>, rawD3: Option<Bytes>, faxNumber: Option<Bytes>,
    interestCodes: Option<Bytes>, rawD6: Option<Bytes>, licenseId: Option<Bytes>, rawD8: Option<Bytes>,
    frn: Option<Bytes>, iota: Option<Bytes>, rawDB: Option<Bytes>, rawDC: Option<Bytes>, rawDD: Option<Bytes>,
    numericId: Option<Bytes>, rawDF: Option<Bytes>)

  /** The record layout: the value that stands under a tag byte. */
  function ValueUnder(st: Station, tag: Byte): Option<Bytes> {
    match tag
    case 0xb6 => st.licenseClass
    case 0xb7 => st.recordCode
    case 0xb8 => st.firstName
    case 0xb9 => st.middleName
    case 0xba => st.lastName
    case 0xbb => st.suffix
    case 0xbc => st.address1
    case 0xbd => st.address2
    case 0xbe => st.address3
    case 0xbf => st.city
    case 0xc0 => st.stateOrProvince
    case 0xc1 => st.postalCode
    case 0xc2 => st.birthDate
    case 0xc3 => st.firstIssued
    case 0xc4 => st.expires
    case 0xc5 => st.lastChanged
    case 0xc6 => st.county
    case 0xc7 => st.gmtOffset
    case 0xc8 => st.latitude
    case 0xc9 => st.longitude
    case 0xca => st.grid
    case 0xcb => st.areaCode
    case 0xcc => st.previousCall
    case 0xcd => st.previousClass
    case 0xce => st.fccTransactionType
    case 0xcf => st.email
    case 0xd0 => st.qsl
    case 0xd1 => st.country
    case 0xd2 => st.url
    case 0xd3 => st.rawD3
    case 0xd4 => st.faxNumber
    case 0xd5 => st.interestCodes
    case 0xd6 => st.rawD6
    case 0xd7 => st.licenseId
    case 0xd8 => st.rawD8
    case 0xd9 => st.frn
    case 0xda => st.iota
    case 0xdb => st.rawDB
    case 0xdc => st.rawDC
    case 0xdd => st.rawDD
    case 0xde => st.numericId
    case 0xdf => st.rawDF
    case _ => None
  }

  /** The values that are given, from one tag on, in the order of the tags. */
  function FieldsFrom(st: Station, tag: Byte): seq<(Byte, Bytes)>
    decreases 0xe0 - tag
  {
    if tag >= 0xe0 then []
    else
      var v := ValueUnder(st, tag);
      (if v.Some? then [(tag, v.value)] else []) + FieldsFrom(st, tag + 1)
  }

  /** The record of a station, as the documented layout writes it. */
  function StationBytes(call: Bytes, vintage: Option<nat>, st: Station): Bytes {
    RecordBytes(call, vintage, FieldsFrom(st, 0xb6))
  }

  predicate PrintableStation(st: Station) {
    forall tag: Byte | ValueUnder(st, tag).Some? ::
      var v := ValueUnder(st, tag).value;
      v != [] && AllPrintable(v) && Trimmed(v, {SPACE})
  }

  // ---- what comes back ----------------------------------------------------------------------

  /** The last address line that is given. */
  function LastLine(st: Station): Option<Bytes> {
    if st.address3.Some? then st.address3 else if st.address2.Some? then st.address2 else st.address1
  }

  predicate ShowsPerson(text: map<Field, Bytes>, st: Station) {
    && Get(text, LicenseClass) == st.licenseClass
    && Get(text, RecordCode) == st.recordCode
    && Get(text, FirstName) == st.firstName
    && Get(text, MiddleName) == st.middleName
    && Get(text, LastName) == st.lastName
    && Get(text, Suffix) == st.suffix
  }

  predicate ShowsPlace(text: map<Field, Bytes>, st: Station) {
    && Get(text, City) == st.city
    && Get(text, StateOrProvince) == st.stateOrProvince
    && Get(text, PostalCode) == st.postalCode
    && Get(text, County) == st.county
    && Get(text, GmtOffset) == st.gmtOffset
  }

  predicate ShowsDates(text: map<Field, Bytes>, st: Station) {
    && Get(text, BirthDate) == st.birthDate
    && Get(text, FirstIssued) == st.firstIssued
    && Get(text, Expires) == st.expires
    && Get(text, LastChanged) == st.lastChanged
  }

  predicate ShowsWhere(text: map<Field, Bytes>, st: Station) {
    && Get(text, Latitude) == st.latitude
    && Get(text, Longitude) == st.longitude
    && Get(text, Grid) == st.grid
    && Get(text, AreaCode) == st.areaCode
  }

  predicate ShowsPrevious(text: map<Field, Bytes>, st: Station) {
    && Get(text, PreviousCall) == st.previousCall
    && Get(text, PreviousClass) == st.previousClass
    && Get(text, FccTransactionType) == st.fccTransactionType
  }

  predicate ShowsContact(text: map<Field, Bytes>, st: Station) {
    && Get(text, Email) == st.email
    && Get(text, Qsl) == st.qsl
    && Get(text, Url) == st.url
    && Get(text, FaxNumber) == st.faxNumber
    && Get(text, InterestCodesRaw) == st.interestCodes
  }

  predicate ShowsIds(text: map<Field, Bytes>, st: Station) {
    && Get(text, LicenseId) == st.licenseId
    && Get(text, Frn) == st.frn
    && Get(text, Iota) == st.iota
    && Get(text, NumericId) == st.numericId
  }

  /** Every named field but the country, which enrichment may add; the address is its last line. */
  predicate ShowsStation(text: map<Field, Bytes>, st: Station) {
    && ShowsPerson(text, st)
    && ShowsPlace(text, st)
    && ShowsDates(text, st)
    && ShowsWhere(text, st)
    && ShowsPrevious(text, st)
    && ShowsContact(text, st)
    && ShowsIds(text, st)
    && Get(text, Address) == LastLine(st)
  }

  function RawValue(raw: map<Byte, Bytes>, t: Byte): Option<Bytes> { if t in raw then Some(raw[t]) else None }

  /** The raw tags are those without a name, each with its value, and no others. */
  predicate ShowsRaw(raw: map<Byte, Bytes>, st: Station) {
    && RawValue(raw, 0xd3) == st.rawD3
    && RawValue(raw, 0xd6) == st.rawD6
    && RawValue(raw, 0xd8) == st.rawD8
    && RawValue(raw, 0xdb) == st.rawDB
    && RawValue(raw, 0xdc) == st.rawDC
    && RawValue(raw, 0xdd) == st.rawDD
    && RawValue(raw, 0xdf) == st.rawDF
    && forall t | t in raw :: t in {0xd3, 0xd6, 0xd8, 0xdb, 0xdc, 0xdd, 0xdf}
  }

  // ---- reading the layout -------------------------------------------------------------------

  /** The tag byte of a field; the address has three, of which this is the first. */
  function TagOf(f: Field): Byte {
    match f
    case LicenseClass => 0xb6
    case RecordCode => 0xb7
    case FirstName => 0xb8
    case MiddleName => 0xb9
    case LastName => 0xba
    case Suffix => 0xbb
    case City => 0xbf
    case StateOrProvince => 0xc0
    case PostalCode => 0xc1
    case BirthDate => 0xc2
    case FirstIssued => 0xc3
    case Expires => 0xc4
    case LastChanged => 0xc5
    case County => 0xc6
    case GmtOffset => 0xc7
    case Latitude => 0xc8
    case Longitude => 0xc9
    case Grid => 0xca
    case AreaCode => 0xcb
    case PreviousCall => 0xcc
    case PreviousClass => 0xcd
    case FccTransactionType => 0xce
    case Email => 0xcf
    case Qsl => 0xd0
    case Url => 0xd2
    case FaxNumber => 0xd4
    case InterestCodesRaw => 0xd5
    case LicenseId => 0xd7
    case Frn => 0xd9
    case Iota => 0xda
    case NumericId => 0xde
    case Address => 0xbc
    case Country => 0xd1
  }

  lemma TagOfField(b: Byte)
    ensures FieldOf(b).Some? && FieldOf(b) != Some(Address) ==> TagOf(FieldOf(b).value) == b
  {
  }

  lemma FieldsStep(st: Station, tag: Byte)
    ensures tag >= 0xe0 ==> FieldsFrom(st, tag) == []
    ensures tag < 0xe0 ==>
              FieldsFrom(st, tag)
              == (if ValueUnder(st, tag).Some? then [(tag, ValueUnder(st, tag).value)] else [])
                 + FieldsFrom(st, tag + 1)
  {
    hide ValueUnder;
  }

  lemma LastValueCons(tag: Byte, value: Bytes, rest: seq<(Byte, Bytes)>, f: Field)
    ensures LastValue([(tag, value)] + rest, f)
            == if LastValue(rest, f).Some? then LastValue(rest, f)
               else if FieldOf(tag) == Some(f) then Some(value) else None
  {
    hide FieldOf;
    assert ([(tag, value)] + rest)[1..] == rest;
  }

  lemma {:induction false} LastFrom(st: Station, tag: Byte, f: Field, k: Byte)
    requires tag <= 0xe0 && (ValueUnder(st, k).Some? ==> FieldOf(k) == Some(f))
    requires forall b: Byte | b != k && FieldOf(b) == Some(f) :: b < k || ValueUnder(st, b).None?
    requires ValueUnder(st, k).None? ==> forall b: Byte | FieldOf(b) == Some(f) :: ValueUnder(st, b).None?
    ensures tag <= k < 0xe0 ==> LastValue(FieldsFrom(st, tag), f) == ValueUnder(st, k)
    ensures tag > k ==> LastValue(FieldsFrom(st, tag), f) == None
    decreases 0xe0 - tag
  {
    hide FieldOf, ValueUnder, LastValue, FieldsFrom;
    FieldsStep(st, tag);
    NoValue(f);
    if tag < 0xe0 {
      LastFrom(st, tag + 1, f, k);
      if ValueUnder(st, tag).Some? {
        LastValueCons(tag, ValueUnder(st, tag).value, FieldsFrom(st, tag + 1), f);
      } else {
        assert [] + FieldsFrom(st, tag + 1) == FieldsFrom(st, tag + 1);
      }
    }
  }

  lemma NoValue(f: Field)
    ensures LastValue([], f) == None
  {
  }

  /** A field with one tag has the value given under it. */
  lemma OneTag(st: Station, f: Field, tag: Byte)
    requires FieldOf(tag) == Some(f) && f != Address && 0xb6 <= tag < 0xe0
    ensures LastValue(FieldsFrom(st, 0xb6), f) == ValueUnder(st, tag)
  {
    hide FieldOf, ValueUnder, LastValue, FieldsFrom;
    forall b: Byte ensures FieldOf(b) == Some(f) <==> b == tag {
      TagOfField(b);
      TagOfField(tag);
    }
    LastFrom(st, 0xb6, f, tag);
  }

  /** Three tags stand for the address; the last line that is given stays. */
  lemma AddressLines(st: Station)
    ensures LastValue(FieldsFrom(st, 0xb6), Address) == LastLine(st)
  {
    hide LastValue, FieldsFrom;
    forall b: Byte ensures FieldOf(b) == Some(Address) <==> 0xbc <= b <= 0xbe {}
    var last := if st.address3.Some? then 0xbe else if st.address2.Some? then 0xbd else 0xbc;
    AddressValues(st);
    hide FieldOf, ValueUnder;
    LastFrom(st, 0xb6, Address, last);
  }

  lemma AddressValues(st: Station)
    ensures ValueUnder(st, 0xbc) == st.address1 && ValueUnder(st, 0xbd) == st.address2
    ensures ValueUnder(st, 0xbe) == st.address3
  {
  }

  /** The texts are the last values given for the fields. */
  ghost predicate LastValues(text: map<Field, Bytes>, st: Station) {
    forall f | f != Field.Country :: Get(text, f) == LastValue(FieldsFrom(st, 0xb6), f)
  }

  lemma TextUnder(st: Station, text: map<Field, Bytes>, f: Field, tag: Byte)
    requires LastValues(text, st)
    requires FieldOf(tag) == Some(f) && f != Address && f != Field.Country && 0xb6 <= tag < 0xe0
    ensures Get(text, f) == ValueUnder(st, tag)
  {
    hide FieldOf, ValueUnder, LastValue, FieldsFrom, Get;
    OneTag(st, f, tag);
  }

  lemma ShowsPersonTags(st: Station)
    ensures FieldOf(0xb6) == Some(LicenseClass) && ValueUnder(st, 0xb6) == st.licenseClass
    ensures FieldOf(0xb7) == Some(RecordCode) && ValueUnder(st, 0xb7) == st.recordCode
    ensures FieldOf(0xb8) == Some(FirstName) && ValueUnder(st, 0xb8) == st.firstName
    ensures FieldOf(0xb9) == Some(MiddleName) && ValueUnder(st, 0xb9) == st.middleName
    ensures FieldOf(0xba) == Some(LastName) && ValueUnder(st, 0xba) == st.lastName
    ensures FieldOf(0xbb) == Some(Suffix) && ValueUnder(st, 0xbb) == st.suffix
  {
  }

  lemma ShowsPersonRead(st: Station, text: map<Field, Bytes>)
    requires LastValues(text, st)
    ensures ShowsPerson(text, st)
  {
    hide LastValues, Get, FieldOf, ValueUnder;
    ShowsPersonTags(st);
    TextUnder(st, text, LicenseClass, 0xb6);
    TextUnder(st, text, RecordCode, 0xb7);
    TextUnder(st, text, FirstName, 0xb8);
    TextUnder(st, text, MiddleName, 0xb9);
    TextUnder(st, text, LastName, 0xba);
    TextUnder(st, text, Suffix, 0xbb);
  }

  lemma ShowsPlaceTags(st: Station)
    ensures FieldOf(0xbf) == Some(City) && ValueUnder(st, 0xbf) == st.city
    ensures FieldOf(0xc0) == Some(StateOrProvince) && ValueUnder(st, 0xc0) == st.stateOrProvince
    ensures FieldOf(0xc1) == Some(PostalCode) && ValueUnder(st, 0xc1) == st.postalCode
    ensures FieldOf(0xc6) == Some(County) && ValueUnder(st, 0xc6) == st.county
    ensures FieldOf(0xc7) == Some(GmtOffset) && ValueUnder(st, 0xc7) == st.gmtOffset
  {
  }

  lemma ShowsPlaceRead(st: Station, text: map<Field, Bytes>)
    requires LastValues(text, st)
    ensures ShowsPlace(text, st)
  {
    hide LastValues, Get, FieldOf, ValueUnder;
    ShowsPlaceTags(st);
    TextUnder(st, text, City, 0xbf);
    TextUnder(st, text, StateOrProvince, 0xc0);
    TextUnder(st, text, PostalCode, 0xc1);
    TextUnder(st, text, County, 0xc6);
    TextUnder(st, text, GmtOffset, 0xc7);
  }

  lemma ShowsDatesTags(st: Station)
    ensures FieldOf(0xc2) == Some(BirthDate) && ValueUnder(st, 0xc2) == st.birthDate
    ensures FieldOf(0xc3) == Some(FirstIssued) && ValueUnder(st, 0xc3) == st.firstIssued
    ensures FieldOf(0xc4) == Some(Expires) && ValueUnder(st, 0xc4) == st.expires
    ensures FieldOf(0xc5) == Some(LastChanged) && ValueUnder(st, 0xc5) == st.lastChanged
  {
  }

  lemma ShowsDatesRead(st: Station, text: map<Field, Bytes>)
    requires LastValues(text, st)
    ensures ShowsDates(text, st)
  {
    hide LastValues, Get, FieldOf, ValueUnder;
    ShowsDatesTags(st);
    TextUnder(st, text, BirthDate, 0xc2);
    TextUnder(st, text, FirstIssued, 0xc3);
    TextUnder(st, text, Expires, 0xc4);
    TextUnder(st, text, LastChanged, 0xc5);
  }

  lemma ShowsWhereTags(st: Station)
    ensures FieldOf(0xc8) == Some(Latitude) && ValueUnder(st, 0xc8) == st.latitude
    ensures FieldOf(0xc9) == Some(Longitude) && ValueUnder(st, 0xc9) == st.longitude
    ensures FieldOf(0xca) == Some(Grid) && ValueUnder(st, 0xca) == st.grid
    ensures FieldOf(0xcb) == Some(AreaCode) && ValueUnder(st, 0xcb) == st.areaCode
  {
  }

  lemma ShowsWhereRead(st: Station, text: map<Field, Bytes>)
    requires LastValues(text, st)
    ensures ShowsWhere(text, st)
  {
    hide LastValues, Get, FieldOf, ValueUnder;
    ShowsWhereTags(st);
    TextUnder(st, text, Latitude, 0xc8);
    TextUnder(st, text, Longitude, 0xc9);
    TextUnder(st, text, Grid, 0xca);
    TextUnder(st, text, AreaCode, 0xcb);
  }

  lemma ShowsPreviousTags(st: Station)
    ensures FieldOf(0xcc) == Some(PreviousCall) && ValueUnder(st, 0xcc) == st.previousCall
    ensures FieldOf(0xcd) == Some(PreviousClass) && ValueUnder(st, 0xcd) == st.previousClass
    ensures FieldOf(0xce) == Some(FccTransactionType) && ValueUnder(st, 0xce) == st.fccTransactionType
  {
  }

  lemma ShowsPreviousRead(st: Station, text: map<Field, Bytes>)
    requires LastValues(text, st)
    ensures ShowsPrevious(text, st)
  {
    hide LastValues, Get, FieldOf, ValueUnder;
    ShowsPreviousTags(st);
    TextUnder(st, text, PreviousCall, 0xcc);
    TextUnder(st, text, PreviousClass, 0xcd);
    TextUnder(st, text, FccTransactionType, 0xce);
  }

  lemma ShowsContactTags(st: Station)
    ensures FieldOf(0xcf) == Some(Email) && ValueUnder(st, 0xcf) == st.email
    ensures FieldOf(0xd0) == Some(Qsl) && ValueUnder(st, 0xd0) == st.qsl
    ensures FieldOf(0xd2) == Some(Url) && ValueUnder(st, 0xd2) == st.url
    ensures FieldOf(0xd4) == Some(FaxNumber) && ValueUnder(st, 0xd4) == st.faxNumber
    ensures FieldOf(0xd5) == Some(InterestCodesRaw) && ValueUnder(st, 0xd5) == st.interestCodes
  {
  }

  lemma ShowsContactRead(st: Station, text: map<Field, Bytes>)
    requires LastValues(text, st)
    ensures ShowsContact(text, st)
  {
    hide LastValues, Get, FieldOf, ValueUnder;
    ShowsContactTags(st);
    TextUnder(st, text, Email, 0xcf);
    TextUnder(st, text, Qsl, 0xd0);
    TextUnder(st, text, Url, 0xd2);
    TextUnder(st, text, FaxNumber, 0xd4);
    TextUnder(st, text, InterestCodesRaw, 0xd5);
  }

  lemma ShowsIdsTags(st: Station)
    ensures FieldOf(0xd7) == Some(LicenseId) && ValueUnder(st, 0xd7) == st.licenseId
    ensures FieldOf(0xd9) == Some(Frn) && ValueUnder(st, 0xd9) == st.frn
    ensures FieldOf(0xda) == Some(Iota) && ValueUnder(st, 0xda) == st.iota
    ensures FieldOf(0xde) == Some(NumericId) && ValueUnder(st, 0xde) == st.numericId
  {
  }

  lemma ShowsIdsRead(st: Station, text: map<Field, Bytes>)
    requires LastValues(text, st)
    ensures ShowsIds(text, st)
  {
    hide LastValues, Get, FieldOf, ValueUnder;
    ShowsIdsTags(st);
    TextUnder(st, text, LicenseId, 0xd7);
    TextUnder(st, text, Frn, 0xd9);
    TextUnder(st, text, Iota, 0xda);
    TextUnder(st, text, NumericId, 0xde);
  }

  // ---- tags without a name -----------------------------------------------------------------------

  const UNNAMED: set<Byte> := {0xd3, 0xd6, 0xd8, 0xdb, 0xdc, 0xdd, 0xdf}

  lemma UnnamedTags(t: Byte)
    ensures t in UNNAMED <==> 0xb6 <= t < 0xe0 && FieldOf(t).None?
  {
  }

  lemma LastRawCons(tag: Byte, value: Bytes, rest: seq<(Byte, Bytes)>, t: Byte)
    ensures LastRaw([(tag, value)] + rest, t)
            == if LastRaw(rest, t).Some? then LastRaw(rest, t)
               else if tag == t && FieldOf(tag).None? then Some(value) else None
  {
    hide FieldOf;
    assert ([(tag, value)] + rest)[1..] == rest;
  }

  lemma {:induction false} RawFrom(st: Station, tag: Byte, t: Byte)
    requires tag <= 0xe0
    ensures LastRaw(FieldsFrom(st, tag), t)
            == if tag <= t < 0xe0 && FieldOf(t).None? then ValueUnder(st, t) else None
    decreases 0xe0 - tag
  {
    hide FieldOf, ValueUnder, LastRaw, FieldsFrom;
    FieldsStep(st, tag);
    NoRaw(t);
    if tag < 0xe0 {
      RawFrom(st, tag + 1, t);
      if ValueUnder(st, tag).Some? {
        LastRawCons(tag, ValueUnder(st, tag).value, FieldsFrom(st, tag + 1), t);
      } else {
        assert [] + FieldsFrom(st, tag + 1) == FieldsFrom(st, tag + 1);
      }
    }
  }

  lemma NoRaw(t: Byte)
    ensures LastRaw([], t) == None
  {
  }

  lemma RawRead(st: Station, raw: map<Byte, Bytes>)
    requires forall t: Byte :: RawValue(raw, t) == if t in UNNAMED then ValueUnder(st, t) else None
    ensures ShowsRaw(raw, st)
  {
    hide RawValue;
    forall t | t in raw ensures t in UNNAMED {
      RawIsThere(raw, t);
    }
  }

  lemma RawIsThere(raw: map<Byte, Bytes>, t: Byte)
    requires t in raw
    ensures RawValue(raw, t).Some?
  {
  }

  // ---- the round trip -----------------------------------------------------------------------------

  lemma {:induction false} StationFields(st: Station, tag: Byte)
    requires PrintableStation(st) && 0xb6 <= tag <= 0xe0
    ensures PrintableFields(FieldsFrom(st, tag))
    decreases 0xe0 - tag
  {
    hide ValueUnder, FieldsFrom, AllPrintable, Trimmed;
    FieldsStep(st, tag);
    if tag < 0xe0 {
      StationFields(st, tag + 1);
    }
  }

  lemma EnrichKeepsRaw(s: Snapshot, ctx: Context)
    ensures Enrich(s, ctx).rawTags == s.rawTags
  {
    hide Country.CountryOf, JurisdictionOf, Interests.Codes, Interests.ResolveRaw;
  }

  /** What a printed record has for a field, country aside, is the last value given for it. */
  lemma PrintedText(call: Bytes, vintage: Option<nat>, fields: seq<(Byte, Bytes)>, ctx: Context, f: Field)
    requires f != Field.Country
    ensures Get(Printed(call, vintage, fields, ctx).text, f) == LastValue(fields, f)
  {
    hide Enrich, LastValue, AppliedTags;
    var bare := NewSnapshot(call, vintage, ctx.source);
    LastValueWins(bare, fields, f);
    EnrichOnlyAdds(AppliedTags(bare, fields), ctx, f);
  }

  lemma PrintedCountry(call: Bytes, vintage: Option<nat>, fields: seq<(Byte, Bytes)>, ctx: Context)
    ensures var x, given := Printed(call, vintage, fields, ctx), LastValue(fields, Field.Country);
            && (given.Some? ==> Get(x.text, Field.Country) == given)
            && (given.None? && ctx.countries.None? ==> Field.Country !in x.text)
            && (given.None? && ctx.countries.Some? ==>
                  Get(x.text, Field.Country)
                  == match Country.CountryOf(ctx.countries.value, call) case None => None case Some(c) => Some(c.name))
  {
    hide Enrich, LastValue, AppliedTags, Country.CountryOf;
    var bare := NewSnapshot(call, vintage, ctx.source);
    var s := AppliedTags(bare, fields);
    TagsKeepKey(bare, fields);
    LastValueWins(bare, fields, Field.Country);
    EnrichOnlyAdds(s, ctx, Field.Country);
  }

  lemma PrintedRaw(call: Bytes, vintage: Option<nat>, fields: seq<(Byte, Bytes)>, ctx: Context, t: Byte)
    ensures var raw := Printed(call, vintage, fields, ctx).rawTags;
            && (t in raw <==> LastRaw(fields, t).Some?)
            && (t in raw ==> raw[t] == LastRaw(fields, t).value)
  {
    hide Enrich, LastRaw, AppliedTags;
    var bare := NewSnapshot(call, vintage, ctx.source);
    LastRawWins(bare, fields, t);
    EnrichKeepsRaw(AppliedTags(bare, fields), ctx);
  }

  lemma StationTexts(call: Bytes, vintage: Option<nat>, st: Station, ctx: Context)
    ensures ShowsStation(Printed(call, vintage, FieldsFrom(st, 0xb6), ctx).text, st)
  {
    hide Printed, FieldsFrom, LastValue, Get, ShowsPerson, ShowsPlace, ShowsDates, ShowsWhere, ShowsPrevious,
      ShowsContact, ShowsIds;
    var text := Printed(call, vintage, FieldsFrom(st, 0xb6), ctx).text;
    forall f | f != Field.Country ensures Get(text, f) == LastValue(FieldsFrom(st, 0xb6), f) {
      PrintedText(call, vintage, FieldsFrom(st, 0xb6), ctx, f);
    }
    AddressLines(st);
    AllRead(st, text);
  }

  lemma AllRead(st: Station, text: map<Field, Bytes>)
    requires LastValues(text, st) && Get(text, Address) == LastLine(st)
    ensures ShowsStation(text, st)
  {
    hide LastValues, Get, ShowsPerson, ShowsPlace, ShowsDates, ShowsWhere, ShowsPrevious, ShowsContact, ShowsIds;
    ShowsPersonRead(st, text);
    ShowsPlaceRead(st, text);
    ShowsDatesRead(st, text);
    ShowsWhereRead(st, text);
    ShowsPreviousRead(st, text);
    ShowsContactRead(st, text);
    ShowsIdsRead(st, text);
  }

  lemma StationRaw(call: Bytes, vintage: Option<nat>, st: Station, ctx: Context)
    ensures ShowsRaw(Printed(call, vintage, FieldsFrom(st, 0xb6), ctx).rawTags, st)
  {
    hide Printed, FieldsFrom, LastRaw, ShowsRaw, FieldOf, ValueUnder;
    var raw := Printed(call, vintage, FieldsFrom(st, 0xb6), ctx).rawTags;
    forall t: Byte ensures RawValue(raw, t) == if t in UNNAMED then ValueUnder(st, t) else None {
      PrintedRaw(call, vintage, FieldsFrom(st, 0xb6), ctx, t);
      RawFrom(st, 0xb6, t);
      UnnamedTags(t);
    }
    RawRead(st, raw);
  }

  lemma StationCountry(st: Station)
    ensures LastValue(FieldsFrom(st, 0xb6), Field.Country) == st.country
  {
    hide FieldsFrom, LastValue;
    OneTag(st, Field.Country, 0xd1);
  }

  /** A station record, printed as documented, is read back: its call and vintage, every named field, the last of
      its address lines, its unnamed tags; and its country, or that of the call when the record names none. */
  lemma StationReadBack(call: Bytes, vintage: Option<nat>, st: Station, ctx: Context)
    requires PrintableCall(call) && PrintableStation(st) && (vintage.Some? ==> vintage.value <= 65535)
    ensures var x := ParsedSegment(StationBytes(call, vintage, st), ctx);
            && x.Some? && x.value.callsign == call && x.value.vintage == vintage && x.value.sources == [ctx.source]
            && ShowsStation(x.value.text, st) && ShowsRaw(x.value.rawTags, st)
            && (st.country.Some? ==> Get(x.value.text, Field.Country) == st.country)
            && (st.country.None? && ctx.countries.None? ==> Field.Country !in x.value.text)
            && (st.country.None? && ctx.countries.Some? ==>
                  Get(x.value.text, Field.Country)
                  == match Country.CountryOf(ctx.countries.value, call) case None => None case Some(c) => Some(c.name))
  {
    hide PrintableStation, PrintableCall, FieldsFrom, ValueUnder, RecordBytes, ParsedSegment, Printed, AppliedTags,
      Enrich, LastValue, ShowsStation, ShowsRaw, Country.CountryOf, Get;
    var fields := FieldsFrom(st, 0xb6);
    StationFields(st, 0xb6);
    PrintedRecordParses(call, vintage, fields, ctx);
    PrintedIs(call, vintage, fields, ctx);
    PrintedValues(call, vintage, fields, ctx, Address);
    ParsedShape(StationBytes(call, vintage, st), ctx);
    StationTexts(call, vintage, st, ctx);
    StationRaw(call, vintage, st, ctx);
    StationCountry(st);
    PrintedCountry(call, vintage, fields, ctx);
  }

  lemma {:induction false} AppliedKeepsRest(s: Snapshot, fields: seq<(Byte, Bytes)>)
    ensures var t := AppliedTags(s, fields);
            && t.callsign == s.callsign && t.jurisdiction == s.jurisdiction
            && t.interestCodes == s.interestCodes && t.interests == s.interests
    decreases |fields|
  {
    hide FieldOf;
    if fields != [] {
      AppliedKeepsRest(ApplyTag(s, fields[0].0, fields[0].1), fields[1..]);
    }
  }

  /** What a country name says, or the lack of one. */
  function JurisdictionOf(country: Option<Bytes>, addressed: bool): Jurisdiction {
    if country.None? then if addressed then UnitedStates else Unknown
    else if country.value in {Text("United States"), Text("UNITED STATES")} then UnitedStates
    else if country.value in {Text("Canada"), Text("CANADA")} then Canada
    else International
  }

  lemma EnrichedRest(s: Snapshot, ctx: Context)
    requires s.jurisdiction == Unknown && s.interestCodes == [] && s.interests == []
    ensures var x, country, raw := Enrich(s, ctx), Get(s.text, Field.Country), Get(s.text, InterestCodesRaw);
            var found := if ctx.countries.Some? then Country.CountryOf(ctx.countries.value, s.callsign) else None;
            && x.jurisdiction
               == (if country.None? && found.Some? then found.value.jurisdiction
                   else JurisdictionOf(country, StateOrProvince in s.text && PostalCode in s.text))
            && x.interestCodes == (if raw.Some? then Interests.Codes(raw.value) else [])
            && x.interests == (if raw.Some? && ctx.interests.Some?
                               then Interests.Known(ctx.interests.value, Interests.Codes(raw.value)) else [])
  {
    hide Country.CountryOf, Interests.Codes, Interests.Known, Text;
  }

  /** The rest of it: the jurisdiction of its country, of the call's, or of an address with state and postal code; the
      codes of its interest text, and what the catalog has for them. */
  lemma StationRest(call: Bytes, vintage: Option<nat>, st: Station, ctx: Context)
    requires PrintableCall(call) && PrintableStation(st) && (vintage.Some? ==> vintage.value <= 65535)
    ensures var x := ParsedSegment(StationBytes(call, vintage, st), ctx);
            var found := if ctx.countries.Some? then Country.CountryOf(ctx.countries.value, call) else None;
            && x.Some?
            && x.value.jurisdiction
               == (if st.country.None? && found.Some? then found.value.jurisdiction
                   else JurisdictionOf(st.country, st.stateOrProvince.Some? && st.postalCode.Some?))
            && x.value.interestCodes == (if st.interestCodes.Some? then Interests.Codes(st.interestCodes.value) else [])
            && x.value.interests == (if st.interestCodes.Some? && ctx.interests.Some?
                                     then Interests.Known(ctx.interests.value, Interests.Codes(st.interestCodes.value))
                                     else [])
  {
    hide PrintableStation, PrintableCall, FieldsFrom, RecordBytes, ParsedSegment, AppliedTags, ValueUnder,
      Enrich, LastValue, Country.CountryOf, JurisdictionOf, Interests.Codes, Interests.Known;
    var fields := FieldsFrom(st, 0xb6);
    var bare := NewSnapshot(call, vintage, ctx.source);
    StationFields(st, 0xb6);
    PrintedRecordParses(call, vintage, fields, ctx);
    AppliedKeepsRest(bare, fields);
    StationKeys(st, bare);
    EnrichedRest(AppliedTags(bare, fields), ctx);
  }

  lemma KeyTags(st: Station)
    ensures FieldOf(0xd1) == Some(Field.Country) && ValueUnder(st, 0xd1) == st.country
    ensures FieldOf(0xd5) == Some(InterestCodesRaw) && ValueUnder(st, 0xd5) == st.interestCodes
    ensures FieldOf(0xc0) == Some(StateOrProvince) && ValueUnder(st, 0xc0) == st.stateOrProvince
    ensures FieldOf(0xc1) == Some(PostalCode) && ValueUnder(st, 0xc1) == st.postalCode
  {
  }

  lemma StationKeys(st: Station, bare: Snapshot)
    requires bare.text == map[]
    ensures var t := AppliedTags(bare, FieldsFrom(st, 0xb6)).text;
            && Get(t, Field.Country) == st.country && Get(t, InterestCodesRaw) == st.interestCodes
            && Get(t, StateOrProvince) == st.stateOrProvince && Get(t, PostalCode) == st.postalCode
  {
    hide FieldsFrom, LastValue, AppliedTags, FieldOf, ValueUnder;
    var fields := FieldsFrom(st, 0xb6);
    KeyTags(st);
    OneTag(st, Field.Country, 0xd1);
    OneTag(st, InterestCodesRaw, 0xd5);
    OneTag(st, StateOrProvince, 0xc0);
    OneTag(st, PostalCode, 0xc1);
    LastValueWins(bare, fields, Field.Country);
    LastValueWins(bare, fields, InterestCodesRaw);
    LastValueWins(bare, fields, StateOrProvince);
    LastValueWins(bare, fields, PostalCode);
  }
}
