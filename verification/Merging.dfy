/** Collecting snapshots: one current record, and one history record per callsign and vintage. */
module Merging {
  import opened Ascii
  import opened Snapshots
  import opened Sorting

  datatype Acc = Acc(current: Option<Snapshot>, history: seq<Snapshot>)

  predicate SameKey(a: Snapshot, b: Snapshot) { a.callsign == b.callsign && a.vintage == b.vintage }

  /** Where the first history record with the arrival's key is, or the length. */
  function FindKey(history: seq<Snapshot>, s: Snapshot): (i: nat)
    ensures i <= |history|
    ensures forall j | 0 <= j < i :: !SameKey(history[j], s)
    ensures i < |history| ==> SameKey(history[i], s)
  {
    if history == [] || SameKey(history[0], s) then 0 else 1 + FindKey(history[1..], s)
  }

  function MergeIn(history: seq<Snapshot>, s: Snapshot): (h: seq<Snapshot>) {
    var i := FindKey(history, s);
    if i < |history| then history[i := Merge(history[i], s)] else history + [s]
  }

  function MergeStep(acc: Acc, s: Snapshot): Acc {
    if s.vintage.None? then
      acc.(current := Some(if acc.current.Some? then Merge(acc.current.value, s) else s))
    else acc.(history := MergeIn(acc.history, s))
  }

  /** The arrivals, merged one after the other. */
  function MergeAll(acc: Acc, arrivals: seq<Snapshot>): Acc {
    if arrivals == [] then acc
    else MergeStep(MergeAll(acc, arrivals[..|arrivals| - 1]), arrivals[|arrivals| - 1])
  }

  // ---- the merge, in place -----------------------------------------------------------

  /** The records under construction are separate objects. */
  ghost predicate Separate(current: CallSnapshot?, history: seq<CallSnapshot>) {
    && (forall i, j | 0 <= i < j < |history| :: history[i] != history[j])
    && (current != null ==> current !in history)
  }

  ghost function Values(history: seq<CallSnapshot>): (v: seq<Snapshot>)
    reads history
    ensures |v| == |history|
    ensures forall i | 0 <= i < |v| :: v[i] == history[i].Value()
  {
    seq(|history|, i requires 0 <= i < |history| reads history => history[i].Value())
  }

  ghost function AccOf(current: CallSnapshot?, history: seq<CallSnapshot>): Acc
    reads current, history
  {
    Acc(if current == null then None else Some(current.Value()), Values(history))
  }

  method MergeSnapshot(current: CallSnapshot?, history: seq<CallSnapshot>, snapshot: Snapshot)
    returns (current': CallSnapshot?, history': seq<CallSnapshot>)
    requires Separate(current, history)
    modifies current, history
    ensures Separate(current', history')
    ensures AccOf(current', history') == MergeStep(old(AccOf(current, history)), snapshot)
    ensures current' != null ==> current' == current || fresh(current')
    ensures forall i | 0 <= i < |history'| :: history'[i] in history || fresh(history'[i])
  {
    hide Merge, FindKey;
    current', history' := current, history;
    if snapshot.vintage.None? {
      if current != null {
        current.MergeMissingFrom(snapshot);
      } else {
        current' := new CallSnapshot(snapshot);
      }
      assert Values(history') == old(Values(history));
      return;
    }
    ghost var values := Values(history);
    var i := FindInHistory(history, snapshot);
    if i < |history| {
      history[i].MergeMissingFrom(snapshot);
      assert Values(history) == values[i := Merge(values[i], snapshot)];
    } else {
      var added := new CallSnapshot(snapshot);
      history' := history + [added];
      assert Values(history') == values + [snapshot];
    }
  }

  method FindInHistory(history: seq<CallSnapshot>, snapshot: Snapshot) returns (i: nat)
    ensures i == FindKey(Values(history), snapshot)
  {
    i := 0;
    while i < |history| && !(history[i].callsign == snapshot.callsign && history[i].vintage == snapshot.vintage)
      invariant i <= |history|
      invariant forall j | 0 <= j < i :: !SameKey(Values(history)[j], snapshot)
    {
      assert !SameKey(Values(history)[i], snapshot);
      i := i + 1;
    }
    FindKeyUnique(Values(history), snapshot, i);
  }

  lemma FindKeyUnique(history: seq<Snapshot>, s: Snapshot, i: nat)
    requires i <= |history|
    requires forall j | 0 <= j < i :: !SameKey(history[j], s)
    requires i < |history| ==> SameKey(history[i], s)
    ensures FindKey(history, s) == i
  {
  }

  // ---- grouping by key, then folding -----------------------------------------------------

  datatype Key = Key(callsign: Bytes, vintage: Option<nat>)

  function KeyOf(s: Snapshot): Key { Key(s.callsign, s.vintage) }

  function Dated(arrivals: seq<Snapshot>): seq<Snapshot> { Filter((s: Snapshot) => s.vintage.Some?, arrivals) }

  function Keys(ss: seq<Snapshot>): (ks: seq<Key>)
    ensures |ks| == |ss|
    ensures forall i | 0 <= i < |ks| :: ks[i] == KeyOf(ss[i])
  {
    seq(|ss|, i requires 0 <= i < |ss| => KeyOf(ss[i]))
  }

  /** The arrivals with one key, in order. */
  function Group(arrivals: seq<Snapshot>, k: Key): seq<Snapshot> {
    Filter((s: Snapshot) => KeyOf(s) == k, arrivals)
  }

  /** Merge a non-empty list from left to right. */
  function FoldMerge(ss: seq<Snapshot>): Snapshot
    requires ss != []
  {
    if |ss| == 1 then ss[0] else Merge(FoldMerge(ss[..|ss| - 1]), ss[|ss| - 1])
  }

  function FoldCurrent(start: Option<Snapshot>, ss: seq<Snapshot>): Option<Snapshot> {
    if start.Some? then Some(FoldMerge([start.value] + ss))
    else if ss == [] then None
    else Some(FoldMerge(ss))
  }

  lemma FoldMergeSnoc(ss: seq<Snapshot>, s: Snapshot)
    requires ss != []
    ensures FoldMerge(ss + [s]) == Merge(FoldMerge(ss), s)
  {
    hide Merge;
    assert (ss + [s])[..|ss|] == ss;
  }

  lemma {:induction false} FoldKeepsKey(ss: seq<Snapshot>, k: Key)
    requires ss != [] && KeyOf(ss[0]) == k
    ensures KeyOf(FoldMerge(ss)) == k
  {
    if |ss| > 1 {
      FoldKeepsKey(ss[..|ss| - 1], k);
    }
  }

  lemma GroupSnoc(arrivals: seq<Snapshot>, s: Snapshot, k: Key)
    ensures Group(arrivals + [s], k) == if KeyOf(s) == k then Group(arrivals, k) + [s] else Group(arrivals, k)
  {
    var p := (x: Snapshot) => KeyOf(x) == k;
    FilterAppend(p, arrivals, [s]);
    FilterCons(p, s, []);
    assert [s] + [] == [s];
  }

  lemma DatedSnoc(arrivals: seq<Snapshot>, s: Snapshot)
    ensures Dated(arrivals + [s]) == if s.vintage.Some? then Dated(arrivals) + [s] else Dated(arrivals)
  {
    var p := (x: Snapshot) => x.vintage.Some?;
    FilterAppend(p, arrivals, [s]);
    FilterCons(p, s, []);
    assert [s] + [] == [s];
  }

  function HistoryKeys(arrivals: seq<Snapshot>): seq<Key> { Dedup(Keys(Dated(arrivals))) }

  lemma HistoryKeysSnoc(arrivals: seq<Snapshot>, s: Snapshot)
    ensures HistoryKeys(arrivals + [s])
            == if s.vintage.Some? && KeyOf(s) !in HistoryKeys(arrivals)
               then HistoryKeys(arrivals) + [KeyOf(s)] else HistoryKeys(arrivals)
  {
    DatedSnoc(arrivals, s);
    if s.vintage.Some? {
      var ks := Keys(Dated(arrivals));
      assert Keys(Dated(arrivals) + [s]) == ks + [KeyOf(s)];
      assert (ks + [KeyOf(s)])[..|ks|] == ks;
    }
  }

  /** The history after some arrivals: per key, in order of first arrival, the fold of its group. */
  ghost predicate Grouped(arrivals: seq<Snapshot>, history: seq<Snapshot>) {
    var ks := HistoryKeys(arrivals);
    && |history| == |ks|
    && (forall i | 0 <= i < |ks| :: Group(arrivals, ks[i]) != [] && history[i] == FoldMerge(Group(arrivals, ks[i])))
    && (forall i | 0 <= i < |ks| :: KeyOf(history[i]) == ks[i])
  }

  lemma NewGroup(arrivals: seq<Snapshot>, k: Key)
    requires k.vintage.Some? && k !in HistoryKeys(arrivals)
    ensures Group(arrivals, k) == []
  {
    var p := (s: Snapshot) => KeyOf(s) == k;
    var g := Group(arrivals, k);
    if g != [] {
      FilterMembers(p, arrivals);
      assert g[0] in g;
      FilterMembers((s: Snapshot) => s.vintage.Some?, arrivals);
      assert g[0] in Dated(arrivals);
      var i :| 0 <= i < |Dated(arrivals)| && Dated(arrivals)[i] == g[0];
      assert Keys(Dated(arrivals))[i] == k;
      DedupMeaning(Keys(Dated(arrivals)));
      assert false;
    }
  }

  lemma KeyIsDated(arrivals: seq<Snapshot>, k: Key)
    requires k in HistoryKeys(arrivals)
    ensures k.vintage.Some?
  {
    DedupMeaning(Keys(Dated(arrivals)));
    var i :| 0 <= i < |Keys(Dated(arrivals))| && Keys(Dated(arrivals))[i] == k;
    assert Dated(arrivals)[i].vintage.Some?;
  }

  /** One more arrival keeps the history grouped. */
  lemma GroupedStep(arrivals: seq<Snapshot>, history: seq<Snapshot>, s: Snapshot)
    requires Grouped(arrivals, history) && s.vintage.Some?
    ensures Grouped(arrivals + [s], MergeIn(history, s))
  {
    hide Merge, Dedup, Group, FoldMerge, HistoryKeys, FindKey;
    var ks, k, more := HistoryKeys(arrivals), KeyOf(s), arrivals + [s];
    HistoryKeysSnoc(arrivals, s);
    KeyListDistinct(arrivals);
    var at, next := FindKey(history, s), MergeIn(history, s);
    forall i | 0 <= i < |ks| ensures SameKey(history[i], s) <==> ks[i] == k {
      assert KeyOf(history[i]) == ks[i];
    }
    forall i | 0 <= i < |ks| && ks[i] != k ensures Group(more, ks[i]) == Group(arrivals, ks[i]) {
      GroupSnoc(arrivals, s, ks[i]);
    }
    GroupSnoc(arrivals, s, k);
    if k in ks {
      var i :| 0 <= i < |ks| && ks[i] == k;
      assert at == i && next == history[i := Merge(history[i], s)];
      FoldMergeSnoc(Group(arrivals, k), s);
      MergeKeepsKey(history[i], s);
    } else {
      assert at == |history| && next == history + [s];
      NewGroup(arrivals, k);
      FoldOne(s);
      assert [] + [s] == [s];
    }
  }

  lemma KeyListDistinct(arrivals: seq<Snapshot>)
    ensures Distinct(HistoryKeys(arrivals))
  {
    DedupMeaning(Keys(Dated(arrivals)));
  }

  /** No two history records share callsign and vintage, whatever arrives. */
  lemma HistoryKeysDistinct(current: Option<Snapshot>, arrivals: seq<Snapshot>)
    ensures Distinct(Keys(MergeAll(Acc(current, []), arrivals).history))
  {
    hide MergeAll, HistoryKeys, Group, FoldMerge;
    HistoryIsGroupedFold(current, arrivals);
    KeyListDistinct(arrivals);
    assert Keys(MergeAll(Acc(current, []), arrivals).history) == HistoryKeys(arrivals);
  }

  lemma MergeKeepsKey(a: Snapshot, b: Snapshot)
    ensures KeyOf(Merge(a, b)) == KeyOf(a)
  {
  }

  lemma FoldOne(s: Snapshot)
    ensures FoldMerge([s]) == s
  {
  }

  lemma UndatedGroups(arrivals: seq<Snapshot>, history: seq<Snapshot>, s: Snapshot)
    requires Grouped(arrivals, history) && s.vintage.None?
    ensures Grouped(arrivals + [s], history)
  {
    hide Group, FoldMerge, HistoryKeys;
    HistoryKeysSnoc(arrivals, s);
    var ks := HistoryKeys(arrivals);
    forall i | 0 <= i < |ks| ensures Group(arrivals + [s], ks[i]) == Group(arrivals, ks[i]) {
      GroupSnoc(arrivals, s, ks[i]);
      KeyIsDated(arrivals, ks[i]);
    }
  }

  /** Snapshot merging is grouping by callsign and vintage followed by a left fold of each group. */
  lemma {:induction false} HistoryIsGroupedFold(current: Option<Snapshot>, arrivals: seq<Snapshot>)
    ensures Grouped(arrivals, MergeAll(Acc(current, []), arrivals).history)
  {
    hide Grouped, MergeIn;
    if arrivals == [] {
      NothingGrouped();
    } else {
      var before, s := arrivals[..|arrivals| - 1], arrivals[|arrivals| - 1];
      HistoryIsGroupedFold(current, before);
      var history := MergeAll(Acc(current, []), before).history;
      assert arrivals == before + [s];
      if s.vintage.Some? {
        GroupedStep(before, history, s);
      } else {
        UndatedGroups(before, history, s);
      }
    }
  }

  lemma NothingGrouped()
    ensures Grouped([], [])
  {
  }

  /** The current record is the fold of the undated arrivals onto the one it started with. */
  lemma {:induction false} CurrentIsFold(current: Option<Snapshot>, arrivals: seq<Snapshot>)
    ensures MergeAll(Acc(current, []), arrivals).current
            == FoldCurrent(current, Filter((s: Snapshot) => s.vintage.None?, arrivals))
  {
    hide Merge, MergeIn, FoldMerge, Filter;
    var p := (s: Snapshot) => s.vintage.None?;
    if arrivals == [] {
      FilterEmpty(p);
      if current.Some? {
        FoldOne(current.value);
        assert [current.value] + [] == [current.value];
      }
    } else {
      var before, s := arrivals[..|arrivals| - 1], arrivals[|arrivals| - 1];
      CurrentIsFold(current, before);
      assert arrivals == before + [s];
      FilterSnoc(p, before, s);
      if p(s) {
        var undated := Filter(p, before);
        if current.Some? {
          FoldMergeSnoc([current.value] + undated, s);
          assert [current.value] + (undated + [s]) == [current.value] + undated + [s];
        } else if undated != [] {
          FoldMergeSnoc(undated, s);
        } else {
          FoldOne(s);
          assert undated + [s] == [s];
        }
      }
    }
  }

  lemma FilterEmpty(p: Snapshot -> bool)
    ensures Filter(p, []) == []
  {
  }

  lemma FilterSnoc(p: Snapshot -> bool, ss: seq<Snapshot>, s: Snapshot)
    ensures Filter(p, ss + [s]) == if p(s) then Filter(p, ss) + [s] else Filter(p, ss)
  {
    FilterAppend(p, ss, [s]);
    FilterCons(p, s, []);
    assert [s] + [] == [s];
  }

  // ---- what a fold keeps ---------------------------------------------------------------------

  /** The sources of a group are the union of its members' sources, strictly ascending. */
  lemma {:induction false} FoldSources(ss: seq<Snapshot>, x: Source)
    requires ss != []
    requires forall i | 0 <= i < |ss| :: AscendingBy(SourceLe, ss[i].sources)
    ensures x in FoldMerge(ss).sources <==> exists i :: 0 <= i < |ss| && x in ss[i].sources
    ensures AscendingBy(SourceLe, FoldMerge(ss).sources)
  {
    hide MergedSources, MergedText;
    if |ss| > 1 {
      var init, last := ss[..|ss| - 1], ss[|ss| - 1];
      FoldSources(init, x);
      var a := FoldMerge(init).sources;
      AscendingDistinct(a);
      MergedSourcesUnion(a, last.sources);
      if i :| 0 <= i < |ss| && x in ss[i].sources {
        assert i < |init| ==> init[i] == ss[i];
      }
    }
  }

  lemma AscendingDistinct(s: seq<Source>)
    requires AscendingBy(SourceLe, s)
    ensures Distinct(s)
  {
  }

  /** Once a group has a non-empty value for a field other than the last name, later arrivals keep it. */
  lemma {:induction false} FoldKeepsField(ss: seq<Snapshot>, n: nat, f: Field)
    requires 1 <= n <= |ss| && f != LastName
    requires NonEmpty(Get(FoldMerge(ss[..n]).text, f))
    ensures Get(FoldMerge(ss).text, f) == Get(FoldMerge(ss[..n]).text, f)
    decreases |ss|
  {
    hide Merge, Get;
    if n == |ss| {
      assert ss[..n] == ss;
    } else {
      var init := ss[..|ss| - 1];
      assert init[..n] == ss[..n];
      FoldKeepsField(init, n, f);
      MergeKeeps(FoldMerge(init), ss[|ss| - 1], f);
    }
  }

  /** No group member's text is lost: where one has a non-empty value, so has the fold. */
  lemma FoldFills(ss: seq<Snapshot>, i: nat, f: Field)
    requires forall k | 0 <= k < |ss| :: ProperText(ss[k].text)
    requires i < |ss| && NonEmpty(Get(ss[i].text, f))
    ensures NonEmpty(Get(FoldMerge(ss).text, f))
  {
    hide FoldMerge, Get, ProperText;
    if f == LastName {
      FoldFillsName(ss, i);
    } else {
      FoldFillsOther(ss, i, f);
    }
  }

  /** A last name can be replaced, but only by another one. */
  lemma {:induction false} FoldFillsName(ss: seq<Snapshot>, i: nat)
    requires forall k | 0 <= k < |ss| :: ProperText(ss[k].text)
    requires i < |ss| && NonEmpty(Get(ss[i].text, LastName))
    ensures NonEmpty(Get(FoldMerge(ss).text, LastName))
  {
    hide Merge, Get, ProperText;
    if |ss| == 1 {
      FoldOne(ss[0]);
      assert ss == [ss[0]];
    } else {
      var init, last := ss[..|ss| - 1], ss[|ss| - 1];
      if i < |init| {
        FoldFillsName(init, i);
      }
      NameStays(FoldMerge(init), last);
    }
  }

  lemma NameStays(a: Snapshot, b: Snapshot)
    requires ProperText(b.text)
    requires NonEmpty(Get(a.text, LastName)) || NonEmpty(Get(b.text, LastName))
    ensures NonEmpty(Get(Merge(a, b).text, LastName))
  {
    assert Get(MergedText(a.text, b.text), LastName) == MergedField(a.text, b.text, LastName);
  }

  lemma FoldFillsOther(ss: seq<Snapshot>, i: nat, f: Field)
    requires i < |ss| && f != LastName && NonEmpty(Get(ss[i].text, f))
    ensures NonEmpty(Get(FoldMerge(ss).text, f))
  {
    hide Merge, Get;
    var init := ss[..i + 1];
    if i == 0 {
      FoldOne(ss[0]);
      assert init == [ss[0]];
    } else {
      assert init == ss[..i] + [ss[i]];
      FoldMergeSnoc(ss[..i], ss[i]);
      MergeKeeps(FoldMerge(ss[..i]), ss[i], f);
    }
    FoldKeepsField(ss, i + 1, f);
  }

  /** The first non-empty text that arrives for `f`. */
  function FirstText(ss: seq<Snapshot>, f: Field): Option<Bytes> {
    if ss == [] then None
    else if NonEmpty(Get(ss[0].text, f)) then Get(ss[0].text, f)
    else FirstText(ss[1..], f)
  }

  lemma {:induction false} FirstTextSnoc(ss: seq<Snapshot>, s: Snapshot, f: Field)
    ensures FirstText(ss + [s], f)
            == if FirstText(ss, f).Some? then FirstText(ss, f)
               else if NonEmpty(Get(s.text, f)) then Get(s.text, f) else None
  {
    hide NonEmpty, Get;
    var more := ss + [s];
    if ss == [] {
      assert more[1..] == [];
    } else {
      FirstTextSnoc(ss[1..], s, f);
      assert more[0] == ss[0] && more[1..] == ss[1..] + [s];
      assert FirstText(more, f) == if NonEmpty(Get(ss[0].text, f)) then Get(ss[0].text, f) else FirstText(more[1..], f);
      if NonEmpty(Get(ss[0].text, f)) {
        NonEmptyIsSome(Get(ss[0].text, f));
      }
    }
  }

  lemma NonEmptyIsSome(v: Option<Bytes>)
    requires NonEmpty(v)
    ensures v.Some?
  {
  }

  lemma {:induction false} FirstTextAt(ss: seq<Snapshot>, k: nat, f: Field)
    requires k < |ss| && NonEmpty(Get(ss[k].text, f))
    requires forall j | 0 <= j < k :: !NonEmpty(Get(ss[j].text, f))
    ensures FirstText(ss, f) == Get(ss[k].text, f)
  {
    hide NonEmpty, Get;
    if k > 0 {
      FirstTextAt(ss[1..], k - 1, f);
    }
  }

  /** The text a fold has for any field but the last name is the first non-empty one that arrived. */
  lemma {:induction false} FoldFirstText(ss: seq<Snapshot>, f: Field)
    requires ss != [] && f != LastName
    ensures FirstText(ss, f).Some? ==> Get(FoldMerge(ss).text, f) == FirstText(ss, f)
    ensures FirstText(ss, f).None? ==> !NonEmpty(Get(FoldMerge(ss).text, f))
  {
    hide Merge, FirstText, FoldMerge, Get;
    var init, last := ss[..|ss| - 1], ss[|ss| - 1];
    assert ss == init + [last];
    FirstTextSnoc(init, last, f);
    if init == [] {
      assert ss == [last];
      FoldOne(last);
      NoText(f);
    } else {
      var a := FoldMerge(init);
      FoldFirstText(init, f);
      FoldMergeSnoc(init, last);
      MergeKeeps(a, last, f);
      TextIsNonEmpty(init, f);
      assert FoldMerge(ss) == Merge(a, last);
    }
  }

  lemma NoText(f: Field)
    ensures FirstText([], f) == None
  {
  }

  lemma {:induction false} TextIsNonEmpty(ss: seq<Snapshot>, f: Field)
    ensures FirstText(ss, f).Some? ==> NonEmpty(FirstText(ss, f))
  {
    if ss != [] {
      TextIsNonEmpty(ss[1..], f);
    }
  }

  /** Every text of a fold is the text of one of its members, unchanged. */
  lemma {:induction false} FoldInventsNothing(ss: seq<Snapshot>, f: Field)
    requires ss != []
    ensures exists i :: 0 <= i < |ss| && Get(ss[i].text, f) == Get(FoldMerge(ss).text, f)
  {
    hide Merge, Get;
    if |ss| == 1 {
      FoldOne(ss[0]);
      assert ss == [ss[0]];
    } else {
      var init, last := ss[..|ss| - 1], ss[|ss| - 1];
      FoldInventsNothing(init, f);
      MergeChooses(FoldMerge(init), last, f);
      var i :| 0 <= i < |init| && Get(init[i].text, f) == Get(FoldMerge(init).text, f);
      assert init[i] == ss[i];
    }
  }

  lemma MergeChooses(a: Snapshot, b: Snapshot, f: Field)
    ensures Get(Merge(a, b).text, f) == Get(a.text, f) || Get(Merge(a, b).text, f) == Get(b.text, f)
  {
    assert Get(MergedText(a.text, b.text), f) == MergedField(a.text, b.text, f);
  }
}
