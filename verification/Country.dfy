/** Country rules: longest-prefix matching through a 128-slot first-byte index. */
module Country {
  import opened Ascii
  import opened Sorting
  import Snapshots

  datatype CountryMatch = CountryMatch(name: Bytes, code: Option<Bytes>, jurisdiction: Snapshots.Jurisdiction)

  /** One rule: every call whose head lies between `start` and `end`. */
  datatype CountryRule = CountryRule(start: Bytes, end: Bytes, country: CountryMatch)

  datatype CountryTable = CountryTable(rules: seq<CountryRule>, firstByteIndex: seq<seq<nat>>)

  /** What the line parser lets through: both bounds non-empty; the index needs them ASCII. */
  predicate ParsedRule(r: CountryRule) {
    && r.start != [] && r.end != []
    && (forall i | 0 <= i < |r.start| :: r.start[i] < 128)
    && (forall i | 0 <= i < |r.end| :: r.end[i] < 128)
  }

  predicate ParsedRules(rules: seq<CountryRule>) {
    forall i | 0 <= i < |rules| :: ParsedRule(rules[i])
  }

  /** Longer starts first, then starts in byte order; rules with the same start keep file order. */
  predicate RuleLe(a: CountryRule, b: CountryRule) {
    |a.start| > |b.start| || (|a.start| == |b.start| && Le(a.start, b.start))
  }

  predicate PrefixRangeMatches(call: Bytes, start: Bytes, end: Bytes) {
    if start == end then StartsWith(call, start)
    else
      var width := Min(Max(|start|, |end|), |call|);
      var head := call[..width];
      Le(start[..Min(|start|, width)], head) && Le(head, end[..Min(|end|, width)])
  }

  predicate RuleMatches(call: Bytes, r: CountryRule) { PrefixRangeMatches(call, r.start, r.end) }

  /** The bytes a matching call can start with. */
  predicate FirstByteInRange(r: CountryRule, b: Byte)
    requires r.start != [] && r.end != []
  {
    Min(r.start[0], r.end[0]) <= b <= Max(r.start[0], r.end[0])
  }

  /** The first `n` rules that a call starting with `b` can match, as rule numbers. */
  function Bucket(rules: seq<CountryRule>, n: nat, b: Byte): (r: seq<nat>)
    requires n <= |rules| && ParsedRules(rules)
    ensures forall i | 0 <= i < |r| :: r[i] < n
  {
    if n == 0 then []
    else Bucket(rules, n - 1, b) + (if FirstByteInRange(rules[n - 1], b) then [n - 1] else [])
  }

  predicate Indexed(t: CountryTable) {
    && ParsedRules(t.rules)
    && |t.firstByteIndex| == 128
    && forall b: Byte | b < 128 :: t.firstByteIndex[b] == Bucket(t.rules, |t.rules|, b)
  }

  /** The simple search: the first rule that matches. */
  function FirstMatch(rules: seq<CountryRule>, call: Bytes): (r: Option<CountryRule>)
    ensures r.Some? ==> r.value in rules && RuleMatches(call, r.value)
    ensures r.None? <==> forall i | 0 <= i < |rules| :: !RuleMatches(call, rules[i])
  {
    if rules == [] then None
    else if RuleMatches(call, rules[0]) then Some(rules[0])
    else FirstMatch(rules[1..], call)
  }

  function NormalCall(callsign: Bytes): Bytes { Upper(Trim(callsign, STR_SPACE)) }

  /** What `lookup` answers for a callsign. */
  function CountryOf(t: CountryTable, callsign: Bytes): Option<CountryMatch> {
    match FirstMatch(t.rules, NormalCall(callsign))
    case Some(r) => Some(r.country)
    case None => None
  }

  // ---- building and searching ---------------------------------------------

  method BuildFirstByteIndex(rules: seq<CountryRule>) returns (index: seq<seq<nat>>)
    requires ParsedRules(rules)
    ensures |index| == 128
    ensures forall b: Byte | b < 128 :: index[b] == Bucket(rules, |rules|, b)
  {
    index := seq(128, _ => []);
    for ruleIndex := 0 to |rules|
      invariant |index| == 128
      invariant forall b: Byte | b < 128 :: index[b] == Bucket(rules, ruleIndex, b)
    {
      var rule := rules[ruleIndex];
      assert ParsedRule(rule);
      var low, high := Min(rule.start[0], rule.end[0]), Max(rule.start[0], rule.end[0]);
      ghost var before := index;
      for byte := low to high + 1
        invariant |index| == 128
        invariant forall b: Byte | b < 128 ::
                    index[b] == if low <= b < byte then before[b] + [ruleIndex] else before[b]
      {
        index := index[byte := index[byte] + [ruleIndex]];
      }
    }
  }

  /** Rules with longer starts come first, and among equally long ones those that sort first. */
  ghost predicate ByLength(rules: seq<CountryRule>) {
    forall i, j | 0 <= i < j < |rules| ::
      || |rules[i].start| > |rules[j].start|
      || (|rules[i].start| == |rules[j].start| && Le(rules[i].start, rules[j].start))
  }

  /** Sort the parsed rules by priority and index them. */
  method Build(parsed: seq<CountryRule>) returns (t: CountryTable)
    requires ParsedRules(parsed)
    ensures t.rules == Sort(RuleLe, parsed)
    ensures ByLength(t.rules) && multiset(t.rules) == multiset(parsed)
    ensures Indexed(t)
  {
    var rules := Sort(RuleLe, parsed);
    SortedByLength(parsed);
    SortMembers(RuleLe, parsed);
    forall i | 0 <= i < |rules| ensures ParsedRule(rules[i]) {
      assert rules[i] in parsed;
    }
    var index := BuildFirstByteIndex(rules);
    t := CountryTable(rules, index);
  }

  method LookupInfo(t: CountryTable, callsign: Bytes) returns (r: Option<CountryMatch>)
    requires Indexed(t)
    ensures r == CountryOf(t, callsign)
  {
    var call := NormalCall(callsign);
    if call != [] && call[0] < 128 {
      var candidates := t.firstByteIndex[call[0]];
      for k := 0 to |candidates|
        invariant forall j | 0 <= j < k :: !RuleMatches(call, t.rules[candidates[j]])
      {
        var rule := t.rules[candidates[k]];
        if PrefixRangeMatches(call, rule.start, rule.end) {
          BucketFirst(t.rules, |t.rules|, call, k);
          return Some(rule.country);
        }
      }
      BucketNone(t.rules, |t.rules|, call);
      return None;
    }
    r := LookupLinear(t, callsign);
  }

  method LookupLinear(t: CountryTable, callsign: Bytes) returns (r: Option<CountryMatch>)
    ensures r == CountryOf(t, callsign)
  {
    var call := NormalCall(callsign);
    for i := 0 to |t.rules|
      invariant FirstMatch(t.rules, call) == FirstMatch(t.rules[i..], call)
    {
      var rule := t.rules[i];
      if PrefixRangeMatches(call, rule.start, rule.end) {
        return Some(rule.country);
      }
      assert t.rules[i..][1..] == t.rules[i + 1..];
    }
    return None;
  }

  // ---- properties --------------------------------------------------------

  /** A call that matches starts with a byte of the rule's bucket range. */
  lemma MatchFirstByte(r: CountryRule, call: Bytes)
    requires ParsedRule(r) && call != [] && RuleMatches(call, r)
    ensures FirstByteInRange(r, call[0])
  {
    if r.start == r.end {
      assert call[0] == call[..|r.start|][0] == r.start[0];
    } else {
      var width := Min(Max(|r.start|, |r.end|), |call|);
      assert call[..width][0] == call[0];
      assert r.start[..Min(|r.start|, width)][0] == r.start[0];
      assert r.end[..Min(|r.end|, width)][0] == r.end[0];
    }
  }

  lemma {:induction false} BucketHas(rules: seq<CountryRule>, n: nat, b: Byte, i: nat)
    requires n <= |rules| && ParsedRules(rules)
    ensures i in Bucket(rules, n, b) <==> i < n && FirstByteInRange(rules[i], b)
  {
    if n > 0 {
      BucketHas(rules, n - 1, b, i);
    }
  }

  lemma {:induction false} BucketAscends(rules: seq<CountryRule>, n: nat, b: Byte)
    requires n <= |rules| && ParsedRules(rules)
    ensures forall j, k | 0 <= j < k < |Bucket(rules, n, b)| :: Bucket(rules, n, b)[j] < Bucket(rules, n, b)[k]
  {
    if n > 0 {
      BucketAscends(rules, n - 1, b);
    }
  }

  lemma {:induction false} FirstMatchAt(rules: seq<CountryRule>, call: Bytes, i: nat)
    requires i < |rules| && RuleMatches(call, rules[i])
    requires forall j | 0 <= j < i :: !RuleMatches(call, rules[j])
    ensures FirstMatch(rules, call) == Some(rules[i])
  {
    if i > 0 {
      assert !RuleMatches(call, rules[0]);
      FirstMatchAt(rules[1..], call, i - 1);
    }
  }

  lemma BucketSkips(rules: seq<CountryRule>, n: nat, call: Bytes, k: nat, i: nat)
    requires n == |rules| && ParsedRules(rules) && call != []
    requires k < |Bucket(rules, n, call[0])| && i < Bucket(rules, n, call[0])[k]
    requires forall j | 0 <= j < k :: !RuleMatches(call, rules[Bucket(rules, n, call[0])[j]])
    ensures !RuleMatches(call, rules[i])
  {
    var bucket := Bucket(rules, n, call[0]);
    BucketHas(rules, n, call[0], i);
    if i in bucket {
      var j :| 0 <= j < |bucket| && bucket[j] == i;
      BucketAscends(rules, n, call[0]);
      assert j < k;
    } else if RuleMatches(call, rules[i]) {
      MatchFirstByte(rules[i], call);
    }
  }

  /** The first candidate that matches is the first rule that matches. */
  lemma BucketFirst(rules: seq<CountryRule>, n: nat, call: Bytes, k: nat)
    requires n == |rules| && ParsedRules(rules) && call != []
    requires k < |Bucket(rules, n, call[0])|
    requires RuleMatches(call, rules[Bucket(rules, n, call[0])[k]])
    requires forall j | 0 <= j < k :: !RuleMatches(call, rules[Bucket(rules, n, call[0])[j]])
    ensures FirstMatch(rules, call) == Some(rules[Bucket(rules, n, call[0])[k]])
  {
    var bucket := Bucket(rules, n, call[0]);
    forall i | 0 <= i < bucket[k] ensures !RuleMatches(call, rules[i]) {
      BucketSkips(rules, n, call, k, i);
    }
    FirstMatchAt(rules, call, bucket[k]);
  }

  lemma BucketNone(rules: seq<CountryRule>, n: nat, call: Bytes)
    requires n == |rules| && ParsedRules(rules) && call != []
    requires forall j | 0 <= j < |Bucket(rules, n, call[0])| :: !RuleMatches(call, rules[Bucket(rules, n, call[0])[j]])
    ensures FirstMatch(rules, call) == None
  {
    forall i | 0 <= i < n ensures !RuleMatches(call, rules[i]) {
      if RuleMatches(call, rules[i]) {
        MatchFirstByte(rules[i], call);
        BucketHas(rules, n, call[0], i);
      }
    }
  }

  /** A range rule with bounds of equal length matches an interval of calls: every call that starts with
      either bound, and every long enough call between two matching ones. */
  lemma RangeIsInterval(start: Bytes, end: Bytes, x: Bytes, y: Bytes, z: Bytes)
    requires |start| == |end| && Le(start, end)
    ensures StartsWith(y, start) || StartsWith(y, end) ==> PrefixRangeMatches(y, start, end)
    ensures |start| <= |x| && |start| <= |y| && |start| <= |z| && Le(x, y) && Le(y, z)
            && PrefixRangeMatches(x, start, end) && PrefixRangeMatches(z, start, end)
            ==> PrefixRangeMatches(y, start, end)
  {
    hide Le;
    var n := |start|;
    LeReflexive(start);
    LeReflexive(end);
    assert start[..n] == start && end[..n] == end;
    if n <= |x| && n <= |y| && n <= |z| && Le(x, y) && Le(y, z)
       && PrefixRangeMatches(x, start, end) && PrefixRangeMatches(z, start, end) {
      LePrefix(x, y, n);
      LePrefix(y, z, n);
      LeTransitive(start, x[..n], y[..n]);
      LeTransitive(y[..n], z[..n], end);
      if start == end {
        LeAntisymmetric(start, y[..n]);
      }
    }
  }

  lemma RuleOrder()
    ensures TotalPreorder(RuleLe)
  {
    forall x, y ensures RuleLe(x, y) || RuleLe(y, x) {
      LeTotal(x.start, y.start);
    }
    forall x, y, z | RuleLe(x, y) && RuleLe(y, z) ensures RuleLe(x, z) {
      if |x.start| == |y.start| == |z.start| {
        LeTransitive(x.start, y.start, z.start);
      }
    }
  }

  lemma SortedByLength(parsed: seq<CountryRule>)
    ensures ByLength(Sort(RuleLe, parsed))
  {
    hide Le;
    RuleOrder();
    SortSorts(RuleLe, parsed);
    var rules := Sort(RuleLe, parsed);
    assert forall i, j | 0 <= i < j < |rules| :: RuleLe(rules[i], rules[j]);
  }

  /** In the sorted rules the first match has the best start of all matching rules. */
  lemma {:induction false} FirstMatchBest(rules: seq<CountryRule>, call: Bytes, other: CountryRule)
    requires SortedBy(RuleLe, rules)
    requires other in rules && RuleMatches(call, other)
    ensures FirstMatch(rules, call).Some? && RuleLe(FirstMatch(rules, call).value, other)
  {
    if RuleMatches(call, rules[0]) {
      var k :| 0 <= k < |rules| && rules[k] == other;
      RuleOrder();
    } else {
      FirstMatchBest(rules[1..], call, other);
    }
  }

  lemma FirstMatchCons(r: CountryRule, rest: seq<CountryRule>, call: Bytes)
    ensures FirstMatch([r] + rest, call) == if RuleMatches(call, r) then Some(r) else FirstMatch(rest, call)
  {
    assert ([r] + rest)[1..] == rest;
  }

  lemma {:induction false} FirstMatchFiltered(rules: seq<CountryRule>, call: Bytes, p: CountryRule -> bool)
    requires FirstMatch(rules, call).Some? && p(FirstMatch(rules, call).value)
    ensures FirstMatch(Filter(p, rules), call) == FirstMatch(rules, call)
  {
    var first, rest := rules[0], Filter(p, rules[1..]);
    assert Filter(p, rules) == if p(first) then [first] + rest else rest;
    FirstMatchCons(first, rest, call);
    if !RuleMatches(call, first) {
      FirstMatchFiltered(rules[1..], call, p);
    }
  }

  /** The rule chosen for a call: its start is the longest of all matching rules, ties broken by
      byte order of the starts, and among rules with that very start by file order. */
  lemma ChosenRule(parsed: seq<CountryRule>, call: Bytes, other: CountryRule)
    ensures FirstMatch(Sort(RuleLe, parsed), call).None? <==> FirstMatch(parsed, call).None?
    ensures other in parsed && RuleMatches(call, other) ==>
              var best := FirstMatch(Sort(RuleLe, parsed), call);
              && best.Some? && best.value in parsed && RuleMatches(call, best.value)
              && |best.value.start| >= |other.start|
              && (|best.value.start| == |other.start| ==> Le(best.value.start, other.start))
              && FirstMatch(Filter((r: CountryRule) => r.start == best.value.start, parsed), call) == best
  {
    var rules := Sort(RuleLe, parsed);
    RuleOrder();
    SortSorts(RuleLe, parsed);
    SortMembers(RuleLe, parsed);
    var best := FirstMatch(rules, call);
    if best.Some? {
      assert best.value in parsed;
      var p := (r: CountryRule) => r.start == best.value.start;
      FirstMatchFiltered(rules, call, p);
      forall x, y | p(x) && p(y) ensures RuleLe(x, y) {
        LeReflexive(x.start);
      }
      SortStable(RuleLe, p, parsed);
    } else {
      forall i | 0 <= i < |parsed| ensures !RuleMatches(call, parsed[i]) {
        assert parsed[i] in rules;
      }
    }
    if other in parsed && RuleMatches(call, other) {
      FirstMatchBest(rules, call, other);
    }
  }

  /** What a built table answers for a callsign: nothing when no rule matches its normal form, otherwise the country
      of a matching rule with the longest start, the one that sorts first among equally long starts, and the first
      in file order among rules with that start. */
  lemma CountryChosen(t: CountryTable, parsed: seq<CountryRule>, callsign: Bytes) returns (best: Option<CountryRule>)
    requires t.rules == Sort(RuleLe, parsed)
    ensures best.None? <==> forall r | r in parsed :: !RuleMatches(NormalCall(callsign), r)
    ensures CountryOf(t, callsign) == match best case None => None case Some(r) => Some(r.country)
    ensures best.Some? ==>
              && best.value in parsed && RuleMatches(NormalCall(callsign), best.value)
              && (forall r | r in parsed && RuleMatches(NormalCall(callsign), r) ::
                    && |best.value.start| >= |r.start|
                    && (|best.value.start| == |r.start| ==> Le(best.value.start, r.start)))
              && FirstMatch(Filter((r: CountryRule) => r.start == best.value.start, parsed), NormalCall(callsign))
                 == best
  {
    hide Le, Sort, FirstMatch, Filter, NormalCall, RuleMatches;
    var call := NormalCall(callsign);
    best := FirstMatch(t.rules, call);
    forall r | r in parsed && RuleMatches(call, r)
      ensures best.Some? && |best.value.start| >= |r.start|
      ensures |best.value.start| == |r.start| ==> Le(best.value.start, r.start)
    {
      ChosenRule(parsed, call, r);
    }
    if best.Some? {
      SortMembers(RuleLe, parsed);
      ChosenRule(parsed, call, best.value);
    }
  }

  /** A rule with different bounds, in full: the call sorts no earlier than the start, as far as the call goes; and
      as far as call and end both go, it sorts before the end, or equals it with nothing behind that still counts,
      which is when the call is no longer than the end or the start is not. */
  lemma RangeExact(call: Bytes, start: Bytes, end: Bytes)
    requires start != end
    ensures var e := Min(|end|, |call|);
            PrefixRangeMatches(call, start, end)
            <==> && Le(start[..Min(|start|, |call|)], call)
                 && Le(call[..e], end[..e])
                 && (call[..e] == end[..e] ==> |call| <= |end| || |start| <= |end|)
  {
    hide Le;
    var width := Min(Max(|start|, |end|), |call|);
    var head, low := call[..width], start[..Min(|start|, |call|)];
    var e := Min(|end|, |call|);
    assert Min(|start|, width) == Min(|start|, |call|) && Min(|end|, width) == e;
    CutKeepsOrder(low, call, width);
    assert head[..e] == call[..e];
    LongerThanEnd(head, end[..e], e);
  }

  /** Comparing with a bound needs no more bytes than the bound has. */
  lemma {:induction false} CutKeepsOrder(low: Bytes, call: Bytes, width: nat)
    requires |low| <= width <= |call|
    ensures Le(low, call[..width]) <==> Le(low, call)
  {
    if low != [] && low[0] == call[0] {
      CutKeepsOrder(low[1..], call[1..], width - 1);
      assert call[..width][1..] == call[1..][..width - 1];
    }
  }

  /** A text is no later than a bound it is longer than only if it differs from it earlier. */
  lemma {:induction false} LongerThanEnd(head: Bytes, end: Bytes, e: nat)
    requires e == |end| <= |head|
    ensures Le(head, end) <==> Le(head[..e], end) && (head[..e] == end ==> |head| == e)
  {
    if e > 0 && head[0] == end[0] {
      LongerThanEnd(head[1..], end[1..], e - 1);
      assert head[..e] == [head[0]] + head[1..][..e - 1] && end == [end[0]] + end[1..];
      assert head[..e][1..] == head[1..][..e - 1];
    }
  }

  const K: Bytes := [0x4b]
  const KH6: Bytes := [0x4b, 0x48, 0x36]
  const KH6AA: Bytes := [0x4b, 0x48, 0x36, 0x41, 0x41]

  /** With rules for `K` and for `KH6`, `KH6AA` is in Hawaii: the longer start wins, wherever its rule stands. */
  lemma HawaiiFirst(t: CountryTable, parsed: seq<CountryRule>, mainland: CountryMatch, hawaii: CountryMatch)
    requires t.rules == Sort(RuleLe, parsed)
    requires forall r :: r in parsed <==> r == CountryRule(K, K, mainland) || r == CountryRule(KH6, KH6, hawaii)
    ensures CountryOf(t, KH6AA) == Some(hawaii)
  {
    hide RuleLe, Sort, NormalCall, CountryOf, Filter, FirstMatch;
    var kh6 := CountryRule(KH6, KH6, hawaii);
    NormalizedCall(KH6AA);
    assert KH6AA[..3] == KH6;
    var best := CountryChosen(t, parsed, KH6AA);
    assert kh6 in parsed && RuleMatches(KH6AA, kh6);
  }

  lemma NormalizedCall(call: Bytes)
    requires AllCallBytes(call)
    ensures NormalCall(call) == call
  {
    TrimCall(call, STR_SPACE);
    UpperIsIdentity(call);
  }
}
