/** The inverse direction of the version-list codec: `find_range` and
    `contract_protocol_list`, which print a set of versions as the shortest
    comma-separated list of single versions and "lo-hi" ranges. */
module Contraction {
  import opened Wrappers
  import opened Strings
  import opened Decimal
  import opened VersionList

  /** Length of the run of consecutive integers that starts `s`. */
  function RunLength(s: seq<nat>): (k: nat)
    requires s != []
    ensures 1 <= k <= |s|
    ensures forall i :: 0 <= i < k ==> s[i] == s[0] + i
    ensures k < |s| ==> s[k] != s[0] + k
    decreases |s|
  {
    if |s| == 1 || s[1] != s[0] + 1 then 1 else 1 + RunLength(s[1..])
  }

  /** What `find_range` answers: whether the list starts with at least two
      consecutive integers, and the last integer of that run (the first
      element when there is no run, 0 for the empty list). */
  function RangeAtStart(s: seq<nat>): (r: (bool, nat))
    ensures s == [] ==> r == (false, 0)
    ensures s != [] ==> (r.0 <==> |s| >= 2 && s[1] == s[0] + 1)
    ensures s != [] ==> s[0] <= r.1 && r.1 - s[0] < |s|
    ensures s != [] ==> s[..r.1 - s[0] + 1] == Interval(s[0], r.1)
    ensures s != [] && r.1 - s[0] + 1 < |s| ==> s[r.1 - s[0] + 1] != r.1 + 1
  {
    if s == [] then (false, 0)
    else
      var k := RunLength(s);
      assert s[..k] == Interval(s[0], s[k - 1]);
      (k > 1, s[k - 1])
  }

  /** `find_range`: walks the list while each element is one more than the
      previous one. */
  method FindRange(list: seq<nat>) returns (hasRange: bool, end: nat)
    ensures (hasRange, end) == RangeAtStart(list)
  {
    if |list| == 0 {
      return false, 0;
    }
    end := list[0];
    hasRange := false;
    var i := 1;
    while i < |list|
      invariant 1 <= i <= |list|
      invariant forall j :: 0 <= j < i ==> list[j] == list[0] + j
      invariant end == list[i - 1]
      invariant hasRange == (i > 1)
    {
      var n := list[i];
      if n != end + 1 {
        break;
      }
      hasRange := true;
      end := n;
      i := i + 1;
    }
    assert RunLength(list) == i;
  }

  /** The answers the unit tests of `find_range` pin down. */
  lemma FindRangeExamples()
    ensures RangeAtStart([]) == (false, 0)
    ensures RangeAtStart([1]) == (false, 1)
    ensures RangeAtStart([1, 2]) == (true, 2)
    ensures RangeAtStart([1, 2, 3]) == (true, 3)
    ensures RangeAtStart([1, 2, 3, 5]) == (true, 3)
  {
    assert RunLength([2]) == 1;
    assert [1, 2][1..] == [2];
    assert RunLength([3]) == 1;
    assert [2, 3][1..] == [3] && [1, 2, 3][1..] == [2, 3];
    assert RunLength([3, 5]) == 1;
    assert [2, 3, 5][1..] == [3, 5] && [1, 2, 3, 5][1..] == [2, 3, 5];
  }

  /** `Vec::retain(|&x| x > bound)`: the elements above `bound`, in order. */
  function KeepAbove(s: seq<nat>, bound: nat): (r: seq<nat>)
    ensures forall x :: x in r <==> x in s && x > bound
    ensures |r| <= |s|
    decreases |s|
  {
    if s == [] then []
    else
      assert s == [s[0]] + s[1..];
      (if s[0] > bound then [s[0]] else []) + KeepAbove(s[1..], bound)
  }

  /** In an ascending list, keeping the elements above a bound cuts off the
      prefix at or below it. */
  lemma {:induction false} KeepAboveAscending(t: seq<nat>, bound: nat, m: nat)
    requires m <= |t|
    requires forall j :: 0 <= j < m ==> t[j] <= bound
    requires forall j :: m <= j < |t| ==> t[j] > bound
    ensures KeepAbove(t, bound) == t[m..]
    decreases |t|
  {
    if t != [] {
      if m == 0 {
        KeepAboveAscending(t[1..], bound, 0);
        assert t == [t[0]] + t[1..];
      } else {
        KeepAboveAscending(t[1..], bound, m - 1);
        assert t[1..][m - 1..] == t[m..];
      }
    }
  }

  /** The piece `contract_protocol_list` emits for the run that starts
      `s`: "lo-hi" for a run of two or more, else the single version. */
  function SpanText(s: seq<nat>): (t: string)
    requires s != []
    ensures t != "" && ',' !in t
  {
    var k := RunLength(s);
    DecimalHasNoSeparator(s[0], ',');
    DecimalHasNoSeparator(s[k - 1], ',');
    if k > 1 then ToDecimal(s[0]) + "-" + ToDecimal(s[k - 1]) else ToDecimal(s[0])
  }

  /** The pieces `contract_protocol_list` emits for an ascending list, one
      per run. */
  function Spans(s: seq<nat>): (r: seq<string>)
    ensures |r| == 0 <==> s == []
    ensures forall i :: 0 <= i < |r| ==> r[i] != "" && ',' !in r[i]
    decreases |s|
  {
    if s == [] then [] else [SpanText(s)] + Spans(s[RunLength(s)..])
  }

  /** The versions each piece of `Spans(s)` stands for: the runs of `s`. */
  function Runs(s: seq<nat>): (r: seq<seq<nat>>)
    decreases |s|
  {
    if s == [] then [] else [s[..RunLength(s)]] + Runs(s[RunLength(s)..])
  }

  /** The comma-separated text `contract_protocol_list` returns for the
      versions of an ascending list. */
  function ContractText(s: seq<nat>): (t: string)
    ensures t == "" <==> s == []
  {
    Join(Spans(s), ',')
  }

  lemma {:induction false} FlattenCons(b: seq<nat>, bs: seq<seq<nat>>)
    ensures Flatten([b] + bs) == b + Flatten(bs)
    decreases |bs|
  {
    if bs != [] {
      var init := bs[..|bs| - 1];
      FlattenCons(b, init);
      assert ([b] + bs)[..|bs|] == [b] + init;
    } else {
      assert [b][..0] == bs;
    }
  }

  /** The runs laid end to end give the list back. */
  lemma {:induction false} RunsFlatten(s: seq<nat>)
    ensures Flatten(Runs(s)) == s
    decreases |s|
  {
    if s != [] {
      var k := RunLength(s);
      RunsFlatten(s[k..]);
      FlattenCons(s[..k], Runs(s[k..]));
      assert s == s[..k] + s[k..];
    }
  }

  /** The first piece parses back to the first run. */
  lemma SpanParses(s: seq<nat>)
    requires s != []
    requires StrictlyAscending(s) && AllU32(s)
    ensures PieceValues(SpanText(s)) == Ok(s[..RunLength(s)])
  {
    if RunLength(s) > 1 {
      RunParses(s);
    } else {
      SingleParses(s);
    }
  }

  lemma RunParses(s: seq<nat>)
    requires s != [] && RunLength(s) > 1 && AllU32(s)
    ensures PieceValues(SpanText(s)) == Ok(s[..RunLength(s)])
  {
    var k := RunLength(s);
    var first, last := s[0], s[k - 1];
    assert first < U32_LIMIT && last < U32_LIMIT;
    SpanTextOfRun(s);
    PieceOfRange(first, last);
    RunIsInterval(s, k);
  }

  lemma SingleParses(s: seq<nat>)
    requires s != [] && RunLength(s) == 1 && AllU32(s)
    ensures PieceValues(SpanText(s)) == Ok(s[..RunLength(s)])
  {
    var first := s[0];
    assert first < U32_LIMIT;
    SpanTextOfSingle(s);
    PieceOfNumber(first);
    assert s[..1] == [first];
  }

  /** A run of consecutive integers is the interval from its first to its
      last element. */
  lemma RunIsInterval(s: seq<nat>, k: nat)
    requires 1 <= k <= |s|
    requires forall i :: 0 <= i < k ==> s[i] == s[0] + i
    ensures s[..k] == Interval(s[0], s[k - 1])
  {
    var run, interval := s[..k], Interval(s[0], s[k - 1]);
    assert |run| == |interval|;
    forall i | 0 <= i < k ensures run[i] == interval[i] {
    }
  }

  lemma {:induction false} RunsMatchSpans(s: seq<nat>)
    ensures |Runs(s)| == |Spans(s)|
    decreases |s|
  {
    if s != [] {
      RunsMatchSpans(s[RunLength(s)..]);
    }
  }

  /** Each printed piece parses back to its run. */
  lemma {:induction false} SpansParse(s: seq<nat>)
    requires StrictlyAscending(s) && AllU32(s)
    ensures |Runs(s)| == |Spans(s)|
    ensures forall i :: 0 <= i < |Spans(s)| ==> PieceValues(Spans(s)[i]) == Ok(Runs(s)[i])
    decreases |s|
  {
    if s != [] {
      var k := RunLength(s);
      var rest := s[k..];
      assert StrictlyAscending(rest) && AllU32(rest);
      SpansParse(rest);
      SpanParses(s);
      RunsMatchSpans(s);
      forall i | 0 <= i < |Spans(s)| ensures PieceValues(Spans(s)[i]) == Ok(Runs(s)[i]) {
        if i > 0 {
          assert Spans(s)[i] == Spans(rest)[i - 1];
          assert Runs(s)[i] == Runs(rest)[i - 1];
        }
      }
    }
  }

  /** Printing a non-empty ascending list of at most 500 `u32` versions and
      parsing the text with `get_versions` gives the list back. */
  lemma ContractRoundTrip(s: seq<nat>)
    requires StrictlyAscending(s) && AllU32(s)
    requires 1 <= |s| <= MAX_PROTOCOLS_TO_EXPAND
    ensures Versions(ContractText(s)) == Ok(s)
  {
    SpansParse(s);
    RunsFlatten(s);
    VersionsAscending(Spans(s), Runs(s));
  }

  /** The least element of a non-empty set of naturals. */
  ghost function Minimum(S: set<nat>): (m: nat)
    requires S != {}
    ensures m in S && forall y :: y in S ==> m <= y
    decreases |S|
  {
    var x :| x in S;
    var others := S - {x};
    if others == {} then
      assert forall y :: y in S ==> y == x by {
        forall y | y in S ensures y == x {
          assert y !in others;
        }
      }
      x
    else
      var least := Minimum(others);
      assert forall y :: y in S ==> y == x || y in others;
      if x < least then x else least
  }

  lemma Prepend(m: nat, rest: seq<nat>)
    requires StrictlyAscending(rest)
    requires forall j :: 0 <= j < |rest| ==> m < rest[j]
    ensures StrictlyAscending([m] + rest)
  {
  }

  /** The elements of a set in ascending order: what draining a `HashSet`
      into a vector and sorting it yields, whatever order the drain takes. */
  ghost function Ascending(S: set<nat>): (r: seq<nat>)
    ensures StrictlyAscending(r)
    ensures forall x :: x in r <==> x in S
    ensures multiset(r) == multiset(S)
    decreases |S|
  {
    if S == {} then
      assert forall x :: x !in S;
      assert multiset(S) == multiset{};
      []
    else
      var m := Minimum(S);
      var rest := Ascending(S - {m});
      AscendingCons(S, m, rest);
      [m] + rest
  }

  /** The least element of `S` in front of the rest of `S` in ascending
      order is all of `S` in ascending order. */
  lemma AscendingCons(S: set<nat>, m: nat, rest: seq<nat>)
    requires m in S && forall y :: y in S ==> m <= y
    requires StrictlyAscending(rest)
    requires forall x :: x in rest <==> x in S - {m}
    requires multiset(rest) == multiset(S - {m})
    ensures StrictlyAscending([m] + rest)
    ensures forall x :: x in [m] + rest <==> x in S
    ensures multiset([m] + rest) == multiset(S)
  {
    forall j | 0 <= j < |rest| ensures m < rest[j] {
      assert rest[j] in S - {m};
    }
    Prepend(m, rest);
    assert S == {m} + (S - {m});
  }

  /** Two strictly ascending lists with the same elements are the same list. */
  lemma {:induction false} StrictUnique(a: seq<nat>, b: seq<nat>)
    requires StrictlyAscending(a) && StrictlyAscending(b)
    requires forall x :: x in a <==> x in b
    ensures a == b
    decreases |a|
  {
    if a == [] {
      FirstIsMember(b);
    } else {
      StrictSameHead(a, b);
      StrictUnique(a[1..], b[1..]);
      assert a == [a[0]] + a[1..] && b == [b[0]] + b[1..];
    }
  }

  /** Two strictly ascending lists with the same elements start alike, and
      what follows their heads has the same elements again. */
  lemma StrictSameHead(a: seq<nat>, b: seq<nat>)
    requires StrictlyAscending(a) && StrictlyAscending(b) && a != []
    requires forall x :: x in a <==> x in b
    ensures b != [] && a[0] == b[0]
    ensures StrictlyAscending(a[1..]) && StrictlyAscending(b[1..])
    ensures forall x :: x in a[1..] <==> x in b[1..]
  {
    assert a[0] in b;
    assert b[0] in a;
    var i :| 0 <= i < |b| && b[i] == a[0];
    var j :| 0 <= j < |a| && a[j] == b[0];
    assert a[0] == b[0];
    forall x | x in a[1..] ensures x in b[1..] {
      var p :| 1 <= p < |a| && a[p] == x;
      assert x in a && x in b;
      var q :| 0 <= q < |b| && b[q] == x;
      assert b[1..][q - 1] == x;
    }
    forall x | x in b[1..] ensures x in a[1..] {
      var q :| 1 <= q < |b| && b[q] == x;
      assert x in b && x in a;
      var p :| 0 <= p < |a| && a[p] == x;
      assert a[1..][p - 1] == x;
    }
  }

  lemma FirstIsMember(s: seq<nat>)
    ensures s == [] || s[0] in s
  {
  }

  /** A strictly ascending list is the only ascending arrangement of its
      elements. */
  lemma AscendingUnique(S: set<nat>, s: seq<nat>)
    requires StrictlyAscending(s)
    requires forall x :: x in s <==> x in S
    ensures s == Ascending(S)
  {
    StrictUnique(s, Ascending(S));
  }

  lemma HeadIsLeast(a: seq<nat>, x: nat)
    requires Sorted(a) && x in multiset(a)
    ensures a[0] <= x
  {
    assert x in a;
    var j :| 0 <= j < |a| && a[j] == x;
  }

  lemma SortedTail(a: seq<nat>)
    requires a != []
    ensures multiset(a[1..]) == multiset(a) - multiset{a[0]}
    ensures Sorted(a) ==> Sorted(a[1..])
  {
    assert a == [a[0]] + a[1..];
  }

  /** Two sorted lists with the same elements, counted with multiplicity,
      are the same list. */
  lemma {:induction false} SortedUnique(a: seq<nat>, b: seq<nat>)
    requires Sorted(a) && Sorted(b)
    requires multiset(a) == multiset(b)
    ensures a == b
    decreases |a|
  {
    if a != [] {
      SameHead(a, b);
      SortedUnique(a[1..], b[1..]);
      assert a == [a[0]] + a[1..];
      assert b == [b[0]] + b[1..];
    } else {
      assert |b| == |multiset(b)| == 0;
    }
  }

  /** Two sorted lists with the same elements start alike, and what
      follows their heads has the same elements again. */
  lemma SameHead(a: seq<nat>, b: seq<nat>)
    requires Sorted(a) && Sorted(b) && a != []
    requires multiset(a) == multiset(b)
    ensures b != [] && a[0] == b[0]
    ensures Sorted(a[1..]) && Sorted(b[1..])
    ensures multiset(a[1..]) == multiset(b[1..])
  {
    assert a[0] in multiset(b);
    assert b != [];
    HeadIsLeast(a, b[0]);
    HeadIsLeast(b, a[0]);
    SortedTail(a);
    SortedTail(b);
  }

  /** `HashSet::drain` collected into a vector: every element once, in an
      order the set does not promise. */
  method Drain(S: set<nat>) returns (drained: seq<nat>)
    ensures multiset(drained) == multiset(S)
  {
    var rest := S;
    drained := [];
    while rest != {}
      invariant multiset(drained) + multiset(rest) == multiset(S)
      decreases |rest|
    {
      var x :| x in rest;
      drained := drained + [x];
      assert multiset(rest) == multiset(rest - {x}) + multiset{x} by {
        assert rest == (rest - {x}) + {x};
      }
      rest := rest - {x};
    }
  }

  /** Sorting the drained elements gives the set in ascending order,
      whichever order the drain produced. */
  lemma SortDrained(S: set<nat>, drained: seq<nat>)
    requires multiset(drained) == multiset(S)
    ensures Sort(drained) == Ascending(S)
  {
    var a := Ascending(S);
    assert Sorted(a) by {
      forall i, j | 0 <= i < j < |a| ensures a[i] <= a[j] {
      }
    }
    SortedUnique(Sort(drained), a);
  }

  /** `contract_protocol_list`: drains the set into a vector, sorts it, then
      repeatedly asks `find_range` about the front, emits a range or a
      single version, and drops the versions emitted. */
  method ContractProtocolList(S: set<nat>) returns (r: string)
    ensures r == ContractText(Ascending(S))
  {
    var drained := Drain(S);
    var supported := Sort(drained);
    SortDrained(S, drained);

    var output: seq<string> := [];
    ghost var all := supported;
    while |supported| != 0
      invariant StrictlyAscending(supported)
      invariant output + Spans(supported) == Spans(all)
      decreases |supported|
    {
      var hasRange, end := FindRange(supported);
      ContractStep(supported, hasRange, end);
      ghost var before := supported;
      ghost var done := output;
      var current := supported[0];
      ghost var piece := if hasRange then ToDecimal(current) + "-" + ToDecimal(end) else ToDecimal(current);
      supported := supported[1..];
      if hasRange {
        output := output + [ToDecimal(current) + "-" + ToDecimal(end)];
        supported := KeepAbove(supported, end);
      } else {
        output := output + [ToDecimal(current)];
      }
      ghost var tail := Spans(supported);
      assert output == done + [piece];
      assert Spans(before) == [piece] + tail;
      AppendAssociates(done, [piece], tail);
    }
    assert Spans(supported) == [];
    assert output + [] == output;
    assert output == Spans(all);
    return Join(output, ',');
  }

  /** One round of the loop in `contract_protocol_list`: the piece it emits
      is the first of `Spans`, and what it keeps is still ascending and
      yields the remaining pieces. */
  lemma ContractStep(s: seq<nat>, hasRange: bool, end: nat)
    requires s != [] && StrictlyAscending(s)
    requires (hasRange, end) == RangeAtStart(s)
    ensures var next := if hasRange then KeepAbove(s[1..], end) else s[1..];
      StrictlyAscending(next) &&
      Spans(s) == [if hasRange then ToDecimal(s[0]) + "-" + ToDecimal(end) else ToDecimal(s[0])] + Spans(next)
  {
    var k := RunLength(s);
    if hasRange {
      KeepAboveAscending(s[1..], end, k - 1);
      assert s[1..][k - 1..] == s[k..];
    }
  }

  /** The set's versions come back from the text, in ascending order. */
  lemma ContractSetRoundTrip(S: set<nat>)
    requires forall x :: x in S ==> x < U32_LIMIT
    requires 1 <= |S| <= MAX_PROTOCOLS_TO_EXPAND
    ensures Versions(ContractText(Ascending(S))) == Ok(Ascending(S))
  {
    var s := Ascending(S);
    assert |s| == |S| by {
      assert |multiset(s)| == |multiset(S)|;
    }
    assert AllU32(s) by {
      forall i | 0 <= i < |s| ensures s[i] < U32_LIMIT {
        assert s[i] in S;
      }
    }
    ContractRoundTrip(s);
  }

  /** The unit tests of `contract_protocol_list`. */
  lemma ContractEmpty()
    ensures ContractText(Ascending({})) == ""
  {
  }

  lemma ContractSingle()
    ensures ContractText(Ascending({1})) == "1"
  {
    AscendingUnique({1}, [1]);
    assert ToDecimal(1) == "1";
    assert Spans([1]) == ["1"];
  }

  lemma SpanTextOfRun(s: seq<nat>)
    requires s != [] && RunLength(s) > 1
    ensures SpanText(s) == ToDecimal(s[0]) + "-" + ToDecimal(s[RunLength(s) - 1])
  {
  }

  lemma SpanTextOfSingle(s: seq<nat>)
    requires s != [] && RunLength(s) == 1
    ensures SpanText(s) == ToDecimal(s[0])
  {
  }

  lemma ContractPair()
    ensures ContractText(Ascending({1, 2})) == "1-2"
  {
    AscendingUnique({1, 2}, [1, 2]);
    ContractPairList();
  }

  lemma ContractPairList()
    ensures ContractText([1, 2]) == "1-2"
  {
    SpansPair();
    assert Join(["1-2"], ',') == "1-2";
  }

  lemma SpansPair()
    ensures Spans([1, 2]) == ["1-2"]
  {
    assert RunLength([1, 2]) == 2 by {
      assert [1, 2][1..] == [2];
    }
    SpanTextOfRun([1, 2]);
    assert ToDecimal(1) + "-" + ToDecimal(2) == "1-2";
    assert [1, 2][2..] == [];
  }

  lemma ContractGap()
    ensures ContractText(Ascending({1, 3})) == "1,3"
  {
    AscendingUnique({1, 3}, [1, 3]);
    ContractGapList();
  }

  lemma ContractGapList()
    ensures ContractText([1, 3]) == "1,3"
  {
    SpansGap();
    assert Join(["1", "3"], ',') == "1,3";
  }

  lemma SpansGap()
    ensures Spans([1, 3]) == ["1", "3"]
  {
    SpansThree();
    assert RunLength([1, 3]) == 1;
    SpanTextOfSingle([1, 3]);
    assert ToDecimal(1) == "1";
    assert [1, 3][1..] == [3];
  }

  lemma SpansThree()
    ensures Spans([3]) == ["3"]
  {
    SpanTextOfSingle([3]);
    assert ToDecimal(3) == "3";
    assert [3][1..] == [];
  }

  lemma ContractFour()
    ensures ContractText(Ascending({1, 2, 3, 4})) == "1-4"
  {
    AscendingUnique({1, 2, 3, 4}, [1, 2, 3, 4]);
    ContractFourList();
  }

  lemma ContractFourList()
    ensures ContractText([1, 2, 3, 4]) == "1-4"
  {
    SpansFour();
    assert Join(["1-4"], ',') == "1-4";
  }

  lemma SpansFour()
    ensures Spans([1, 2, 3, 4]) == ["1-4"]
  {
    assert RunLength([1, 2, 3, 4]) == 4 by {
      assert [1, 2, 3, 4][1..] == [2, 3, 4];
      assert [2, 3, 4][1..] == [3, 4];
      assert [3, 4][1..] == [4];
    }
    SpanTextOfRun([1, 2, 3, 4]);
    assert ToDecimal(1) + "-" + ToDecimal(4) == "1-4";
    assert [1, 2, 3, 4][4..] == [];
  }

  lemma ContractMixed()
    ensures ContractText(Ascending({1, 3, 5, 6, 7})) == "1,3,5-7"
  {
    AscendingUnique({1, 3, 5, 6, 7}, [1, 3, 5, 6, 7]);
    ContractMixedList();
  }

  lemma ContractMixedList()
    ensures ContractText([1, 3, 5, 6, 7]) == "1,3,5-7"
  {
    SpansMixed();
    assert Join(["1", "3", "5-7"], ',') == "1,3,5-7";
  }

  lemma SpansMixed()
    ensures Spans([1, 3, 5, 6, 7]) == ["1", "3", "5-7"]
  {
    SpansThreeToSeven();
    SpansLoneThen(1, [3, 5, 6, 7]);
    assert ToDecimal(1) == "1";
  }

  lemma SpansThreeToSeven()
    ensures Spans([3, 5, 6, 7]) == ["3", "5-7"]
  {
    SpansFiveToSeven();
    SpansLoneThen(3, [5, 6, 7]);
    assert ToDecimal(3) == "3";
  }

  /** A value not followed by its successor is a piece of its own. */
  lemma SpansLoneThen(x: nat, rest: seq<nat>)
    requires rest != [] && rest[0] != x + 1
    ensures Spans([x] + rest) == [ToDecimal(x)] + Spans(rest)
  {
    var s := [x] + rest;
    assert RunLength(s) == 1;
    assert s[1..] == rest;
  }

  lemma SpansFiveToSeven()
    ensures Spans([5, 6, 7]) == ["5-7"]
  {
    assert RunLength([5, 6, 7]) == 3 by {
      assert [5, 6, 7][1..] == [6, 7];
      assert [6, 7][1..] == [7];
    }
    SpanTextOfRun([5, 6, 7]);
    assert ToDecimal(5) + "-" + ToDecimal(7) == "5-7";
    assert [5, 6, 7][3..] == [];
  }

  lemma ContractRangeAndOutlier()
    ensures ContractText(Ascending({1, 2, 3, 500})) == "1-3,500"
  {
    AscendingUnique({1, 2, 3, 500}, [1, 2, 3, 500]);
    ContractRangeAndOutlierList();
  }

  lemma DecimalFiveHundred()
    ensures ToDecimal(500) == "500"
  {
    assert DigitChar(0) == '0' && DigitChar(5) == '5';
    assert ToDecimal(5) == "5";
    assert ToDecimal(50) == ToDecimal(5) + "0";
    assert ToDecimal(500) == ToDecimal(50) + "0";
  }

  lemma ContractRangeAndOutlierList()
    ensures ContractText([1, 2, 3, 500]) == "1-3,500"
  {
    SpansRangeAndOutlier();
    assert Join(["1-3", "500"], ',') == "1-3,500";
  }

  lemma SpansRangeAndOutlier()
    ensures Spans([1, 2, 3, 500]) == ["1-3", "500"]
  {
    SpansFiveHundred();
    assert RunLength([1, 2, 3, 500]) == 3 by {
      assert [1, 2, 3, 500][1..] == [2, 3, 500];
      assert [2, 3, 500][1..] == [3, 500];
    }
    SpanTextOfRun([1, 2, 3, 500]);
    assert ToDecimal(1) + "-" + ToDecimal(3) == "1-3";
    assert [1, 2, 3, 500][3..] == [500];
  }

  lemma SpansFiveHundred()
    ensures Spans([500]) == ["500"]
  {
    SpanTextOfSingle([500]);
    DecimalFiveHundred();
    assert [500][1..] == [];
  }
}
