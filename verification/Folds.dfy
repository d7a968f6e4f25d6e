/** What merging a group of snapshots leaves of everything but the plain texts. */
module Folds {
  import opened Ascii
  import opened Snapshots
  import opened Merging
  import Interests
  import RecordText

  // ---- the first that says something ----------------------------------------------------------

  /** The first element that is not `none`. */
  function FirstOther<T(==)>(xs: seq<T>, none: T): (x: T)
    ensures x == none ==> forall i | 0 <= i < |xs| :: xs[i] == none
    ensures x != none ==> exists i :: 0 <= i < |xs| && xs[i] == x && forall j | 0 <= j < i :: xs[j] == none
  {
    if xs == [] then none
    else if xs[0] != none then xs[0]
    else
      var x := FirstOther(xs[1..], none);
      assert forall i | 0 < i < |xs| :: xs[i] == xs[1..][i - 1];
      assert x != none ==>
          exists i :: 0 <= i < |xs| && xs[i] == x && forall j | 0 <= j < i :: xs[j] == none by {
        if x != none {
          var i :| 0 <= i < |xs[1..]| && xs[1..][i] == x && forall j | 0 <= j < i :: xs[1..][j] == none;
          assert xs[i + 1] == x;
        }
      }
      x
  }

  function Each<T>(ss: seq<Snapshot>, get: Snapshot -> T): (xs: seq<T>)
    ensures |xs| == |ss|
    ensures forall i | 0 <= i < |xs| :: xs[i] == get(ss[i])
  {
    seq(|ss|, i requires 0 <= i < |ss| => get(ss[i]))
  }

  lemma {:induction false} FirstOtherSnoc<T>(xs: seq<T>, x: T, none: T)
    ensures FirstOther(xs + [x], none) == if FirstOther(xs, none) != none then FirstOther(xs, none) else x
  {
    if xs == [] {
      assert [x][1..] == [];
    } else {
      FirstOtherSnoc(xs[1..], x, none);
      assert (xs + [x])[1..] == xs[1..] + [x];
    }
  }

  /** What a merge fills only while it is missing is, in a fold, what the first member that has it says. */
  lemma {:induction false} FoldTakesFirstOf<T>(ss: seq<Snapshot>, get: Snapshot -> T, none: T)
    requires ss != []
    requires forall a, b :: get(Merge(a, b)) == if get(a) == none then get(b) else get(a)
    ensures get(FoldMerge(ss)) == FirstOther(Each(ss, get), none)
  {
    hide Merge;
    var init, last := ss[..|ss| - 1], ss[|ss| - 1];
    assert ss == init + [last];
    if init == [] {
      FoldOne(last);
      assert Each(ss, get) == [get(last)];
      FirstOtherSnoc([], get(last), none);
      assert [] + [get(last)] == [get(last)];
    } else {
      FoldTakesFirstOf(init, get, none);
      FoldMergeSnoc(init, last);
      assert Each(ss, get) == Each(init, get) + [get(last)];
      FirstOtherSnoc(Each(init, get), get(last), none);
    }
  }

  const JURISDICTION := (s: Snapshot) => s.jurisdiction
  const CODES := (s: Snapshot) => s.interestCodes
  const INTERESTS := (s: Snapshot) => s.interests

  /** The jurisdiction of a fold is the first known one, its interest codes the first that are not empty, and so
      its interests, each on its own. */
  lemma FoldFirsts(ss: seq<Snapshot>)
    requires ss != []
    ensures FoldMerge(ss).jurisdiction == FirstOther(Each(ss, JURISDICTION), Unknown)
    ensures FoldMerge(ss).interestCodes == FirstOther(Each(ss, CODES), [])
    ensures FoldMerge(ss).interests == FirstOther(Each(ss, INTERESTS), [])
  {
    hide FoldMerge, MergedText, MergedSources;
    FoldTakesFirstOf(ss, JURISDICTION, Unknown);
    FoldTakesFirstOf(ss, CODES, []);
    FoldTakesFirstOf(ss, INTERESTS, []);
  }

  // ---- the last that is given -------------------------------------------------------------------

  /** A raw tag of a fold is the last one given for it. */
  lemma {:induction false} FoldRawTag(ss: seq<Snapshot>, t: Byte)
    requires ss != []
    ensures t in FoldMerge(ss).rawTags <==> exists k :: 0 <= k < |ss| && t in ss[k].rawTags
    ensures forall k | 0 <= k < |ss| && t in ss[k].rawTags && (forall j | k < j < |ss| :: t !in ss[j].rawTags) ::
              t in FoldMerge(ss).rawTags && FoldMerge(ss).rawTags[t] == ss[k].rawTags[t]
  {
    hide Merge, FoldMerge;
    var init, last := ss[..|ss| - 1], ss[|ss| - 1];
    assert ss == init + [last];
    if init == [] {
      FoldOne(last);
    } else {
      FoldRawTag(init, t);
      FoldMergeSnoc(init, last);
      MergedTags(FoldMerge(init), last, t);
      assert forall k | 0 <= k < |init| :: init[k] == ss[k];
      forall k | 0 <= k < |ss| && t in ss[k].rawTags && forall j | k < j < |ss| :: t !in ss[j].rawTags
        ensures t in FoldMerge(ss).rawTags && FoldMerge(ss).rawTags[t] == ss[k].rawTags[t]
      {
        if k < |init| {
          assert init[k].rawTags[t] == FoldMerge(init).rawTags[t];
        }
      }
    }
  }

  lemma MergedTags(a: Snapshot, b: Snapshot, t: Byte)
    ensures var m := Merge(a, b).rawTags;
            && (t in m <==> t in a.rawTags || t in b.rawTags)
            && (t in b.rawTags ==> m[t] == b.rawTags[t])
            && (t !in b.rawTags && t in a.rawTags ==> m[t] == a.rawTags[t])
  {
    hide MergedText, MergedSources;
  }

  // ---- the last name ----------------------------------------------------------------------------

  ghost predicate AllProper(ss: seq<Snapshot>) { forall k | 0 <= k < |ss| :: ProperText(ss[k].text) }

  /** The snapshot brings a last name with a split name, and by then there is a first name. */
  ghost predicate Overrides(ss: seq<Snapshot>, k: nat) {
    && k < |ss|
    && LastName in ss[k].text && (FirstName in ss[k].text || MiddleName in ss[k].text)
    && exists j :: 0 <= j <= k && FirstName in ss[j].text
  }

  /** The last snapshot below `n` that does. */
  ghost function LastOverride(ss: seq<Snapshot>, n: nat): (k: Option<nat>)
    requires n <= |ss|
    ensures k.Some? ==> k.value < n && Overrides(ss, k.value)
    ensures forall j | (if k.Some? then k.value + 1 else 0) <= j < n :: !Overrides(ss, j)
  {
    if n == 0 then None else if Overrides(ss, n - 1) then Some(n - 1) else LastOverride(ss, n - 1)
  }

  lemma OverridesPrefix(ss: seq<Snapshot>, n: nat, k: nat)
    requires k < n <= |ss|
    ensures Overrides(ss[..n], k) <==> Overrides(ss, k)
  {
    assert forall j | 0 <= j < n :: ss[..n][j] == ss[j];
  }

  lemma {:induction false} LastOverridePrefix(ss: seq<Snapshot>, n: nat, m: nat)
    requires m <= n <= |ss|
    ensures LastOverride(ss[..n], m) == LastOverride(ss, m)
  {
    hide Overrides;
    if m > 0 {
      OverridesPrefix(ss, n, m - 1);
      LastOverridePrefix(ss, n, m - 1);
    }
  }

  lemma FoldIsProper(ss: seq<Snapshot>, f: Field)
    requires ss != [] && AllProper(ss) && f != Country
    ensures f in FoldMerge(ss).text ==> FoldMerge(ss).text[f] != []
  {
    hide FoldMerge;
    FoldInventsNothing(ss, f);
    var i :| 0 <= i < |ss| && Get(ss[i].text, f) == Get(FoldMerge(ss).text, f);
    assert ProperText(ss[i].text);
  }

  lemma FoldHas(ss: seq<Snapshot>, f: Field)
    requires ss != [] && AllProper(ss) && f != Country
    ensures f in FoldMerge(ss).text <==> exists j :: 0 <= j < |ss| && f in ss[j].text
  {
    hide FoldMerge, ProperText;
    FoldInventsNothing(ss, f);
    var i :| 0 <= i < |ss| && Get(ss[i].text, f) == Get(FoldMerge(ss).text, f);
    if j :| 0 <= j < |ss| && f in ss[j].text {
      ProperField(ss[j].text, f);
      FoldFills(ss, j, f);
    }
  }

  lemma ProperField(text: map<Field, Bytes>, f: Field)
    requires ProperText(text) && f in text && f != Country
    ensures NonEmpty(Get(text, f))
  {
  }

  /** One more arrival: a split name that comes with a last name replaces it, any other last name only fills. */
  lemma NextName(a: Snapshot, b: Snapshot)
    requires FirstName in a.text ==> a.text[FirstName] != []
    requires LastName in a.text ==> a.text[LastName] != []
    ensures Get(Merge(a, b).text, LastName)
            == if LastName in b.text && (FirstName in b.text || MiddleName in b.text)
                  && (FirstName in a.text || FirstName in b.text)
               then Get(b.text, LastName)
               else if LastName in a.text then Get(a.text, LastName) else Get(b.text, LastName)
  {
    assert Get(MergedText(a.text, b.text), LastName) == MergedField(a.text, b.text, LastName);
  }

  /** The last name of a fold is that of the last arrival that brings one with a split name, once there is a first
      name; without such an arrival it is the first one. */
  lemma {:induction false} FoldLastName(ss: seq<Snapshot>)
    requires ss != [] && AllProper(ss)
    ensures Get(FoldMerge(ss).text, LastName)
            == match LastOverride(ss, |ss|)
               case Some(k) => Get(ss[k].text, LastName)
               case None => FirstText(ss, LastName)
  {
    hide FoldMerge, Merge, FirstText, ProperText, LastOverride, NonEmpty;
    var n := |ss| - 1;
    var init, last := ss[..n], ss[n];
    assert ss == init + [last];
    FirstTextSnoc(init, last, LastName);
    OverrideStep(ss, n);
    ProperName(last.text);
    if init == [] {
      OneName(ss, last);
    } else {
      var a := FoldMerge(init);
      FoldLastName(init);
      FoldMergeSnoc(init, last);
      FoldIsProper(init, FirstName);
      FoldIsProper(init, LastName);
      FoldHas(init, FirstName);
      NextName(a, last);
      FirstNameSoFar(ss, n);
      LastOverridePrefix(ss, n, n);
      NameOfPrefix(ss, n);
    }
  }

  lemma ProperName(text: map<Field, Bytes>)
    requires ProperText(text)
    ensures LastName in text <==> NonEmpty(Get(text, LastName))
  {
  }

  lemma OverrideStep(ss: seq<Snapshot>, n: nat)
    requires n < |ss|
    ensures LastOverride(ss, n + 1) == if Overrides(ss, n) then Some(n) else LastOverride(ss, n)
  {
    hide Overrides;
  }

  lemma OneName(ss: seq<Snapshot>, s: Snapshot)
    requires ss == [s] && ProperText(s.text)
    ensures Get(FoldMerge(ss).text, LastName)
            == match LastOverride(ss, 1) case Some(k) => Get(ss[k].text, LastName) case None => FirstText(ss, LastName)
  {
    FoldOne(s);
    assert ss[1..] == [];
  }

  lemma FirstNameSoFar(ss: seq<Snapshot>, n: nat)
    requires n < |ss|
    ensures (exists j :: 0 <= j <= n && FirstName in ss[j].text)
            <==> (exists j :: 0 <= j < n && FirstName in ss[..n][j].text) || FirstName in ss[n].text
  {
    assert forall j | 0 <= j < n :: ss[..n][j] == ss[j];
  }

  /** A name that is there is kept by every prefix rule. */
  lemma NameOfPrefix(ss: seq<Snapshot>, n: nat)
    requires n < |ss| && AllProper(ss)
    ensures LastOverride(ss, n).Some? ==>
              NonEmpty(Get(ss[LastOverride(ss, n).value].text, LastName))
              && ss[..n][LastOverride(ss, n).value] == ss[LastOverride(ss, n).value]
    ensures FirstText(ss[..n], LastName).Some? ==> NonEmpty(FirstText(ss[..n], LastName))
  {
    hide ProperText;
    TextIsNonEmpty(ss[..n], LastName);
    if LastOverride(ss, n).Some? {
      ProperName(ss[LastOverride(ss, n).value].text);
    }
  }

  // ---- codes and their text -----------------------------------------------------------------------

  lemma TextOfFold(ss: seq<Snapshot>, f: Field)
    requires ss != [] && AllProper(ss) && f != LastName && f != Country
    ensures Get(FoldMerge(ss).text, f) == FirstText(ss, f)
  {
    hide FoldMerge, ProperText;
    FoldFirstText(ss, f);
    FoldIsProper(ss, f);
  }

  /** The first text, and nothing before it. */
  lemma {:induction false} FirstTextOf(ss: seq<Snapshot>, f: Field) returns (k: nat)
    requires FirstText(ss, f).Some?
    ensures k < |ss| && Get(ss[k].text, f) == FirstText(ss, f) && NonEmpty(FirstText(ss, f))
    ensures forall j | 0 <= j < k :: !NonEmpty(Get(ss[j].text, f))
  {
    hide NonEmpty, Get;
    if NonEmpty(Get(ss[0].text, f)) {
      k := 0;
    } else {
      k := FirstTextOf(ss[1..], f);
      assert forall j | 0 < j <= k :: ss[1..][j - 1] == ss[j];
      k := k + 1;
    }
  }

  lemma {:induction false} NoFirstText(ss: seq<Snapshot>, f: Field)
    requires FirstText(ss, f).None?
    ensures forall j | 0 <= j < |ss| :: !NonEmpty(Get(ss[j].text, f))
  {
    if ss != [] {
      NoFirstText(ss[1..], f);
      forall j | 0 <= j < |ss| ensures !NonEmpty(Get(ss[j].text, f)) {
        if j > 0 {
          assert ss[1..][j - 1] == ss[j];
        }
      }
    }
  }

  lemma SilentCodes(s: Snapshot)
    requires ProperText(s.text) && Interests.CodesFit(s) && !NonEmpty(Get(s.text, InterestCodesRaw))
    ensures s.interestCodes == []
  {
  }

  lemma CodesBehindText(ss: seq<Snapshot>)
    requires ss != [] && AllProper(ss) && forall k | 0 <= k < |ss| :: Interests.CodesFit(ss[k])
    ensures var t := FirstText(ss, InterestCodesRaw);
            && (t.None? ==> FirstOther(Each(ss, CODES), []) == [])
            && (t.Some? && Interests.Codes(t.value) != [] ==>
                  FirstOther(Each(ss, CODES), []) == Interests.Codes(t.value))
  {
    hide ProperText, NonEmpty, Interests.CodesFit;
    var t, codes := FirstText(ss, InterestCodesRaw), Each(ss, CODES);
    if t.None? {
      NoFirstText(ss, InterestCodesRaw);
      forall j | 0 <= j < |ss| ensures codes[j] == [] {
        SilentCodes(ss[j]);
      }
    } else if Interests.Codes(t.value) != [] {
      var k := FirstTextOf(ss, InterestCodesRaw);
      forall j | 0 <= j < k ensures codes[j] == [] {
        SilentCodes(ss[j]);
      }
      FittingCodes(ss[k], t.value);
      FirstOtherAt(codes, k, []);
    }
  }

  lemma FittingCodes(s: Snapshot, raw: Bytes)
    requires Interests.CodesFit(s) && Get(s.text, InterestCodesRaw) == Some(raw)
    ensures s.interestCodes == Interests.Codes(raw)
  {
  }

  lemma FirstOtherAt<T>(xs: seq<T>, k: nat, none: T)
    requires k < |xs| && xs[k] != none && forall j | 0 <= j < k :: xs[j] == none
    ensures FirstOther(xs, none) == xs[k]
  {
    var i :| 0 <= i < |xs| && xs[i] == FirstOther(xs, none) && forall j | 0 <= j < i :: xs[j] == none;
  }

  /** The codes of a fold are those of its interest text if and only if that text, the first one, has codes, or
      nothing that was merged has any. */
  lemma CodesFitExactly(ss: seq<Snapshot>)
    requires ss != [] && AllProper(ss) && forall k | 0 <= k < |ss| :: Interests.CodesFit(ss[k])
    ensures Interests.CodesFit(FoldMerge(ss))
            <==> var t := FirstText(ss, InterestCodesRaw);
                 || (t.Some? && Interests.Codes(t.value) != [])
                 || forall k | 0 <= k < |ss| :: ss[k].interestCodes == []
  {
    hide FoldMerge, ProperText, FirstText, Interests.Codes;
    FoldFirsts(ss);
    TextOfFold(ss, InterestCodesRaw);
    CodesBehindText(ss);
    assert forall k | 0 <= k < |ss| :: Each(ss, CODES)[k] == ss[k].interestCodes;
  }

  /** `abc`, and the code 0010. */
  const ABC: Bytes := [0x61, 0x62, 0x63]
  const WITHOUT: Snapshot := NewSnapshot(RecordText.K1AA, None, HamCallHci).(text := map[InterestCodesRaw := ABC])
  const WITH: Snapshot := NewSnapshot(RecordText.K1AA, None, HamCallHci).(
    text := map[InterestCodesRaw := RecordText.CODE], interestCodes := [RecordText.CODE])

  lemma ExamplesFit()
    ensures Interests.CodesFit(WITHOUT) && Interests.CodesFit(WITH) && Interests.Codes(ABC) == []
  {
    hide AllDigits;
    RecordText.CodeIsOne();
  }

  /** A text without a code, and then one with: the first text stays, and gets the code of the second. */
  lemma CodesOfAnother()
    ensures Interests.CodesFit(WITHOUT) && Interests.CodesFit(WITH)
    ensures Get(FoldMerge([WITHOUT, WITH]).text, InterestCodesRaw) == Some(ABC)
    ensures FoldMerge([WITHOUT, WITH]).interestCodes == [RecordText.CODE]
    ensures !Interests.CodesFit(FoldMerge([WITHOUT, WITH]))
  {
    hide Interests.Codes, MergedSources, FoldMerge;
    ExamplesFit();
    FoldOne(WITHOUT);
    FoldMergeSnoc([WITHOUT], WITH);
    assert [WITHOUT] + [WITH] == [WITHOUT, WITH];
    MergeKeeps(WITHOUT, WITH, InterestCodesRaw);
    assert Get(WITHOUT.text, InterestCodesRaw) == Some(ABC);
  }
}
