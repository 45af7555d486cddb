/** The version-list codec of lib.rs: `expand_version_range` and
    `get_versions`, which turn text such as "1-3,5" into the sorted list of
    version numbers it names. */
module VersionList {
  import opened Wrappers
  import opened Strings
  import opened Decimal

  /** Largest number of versions `get_versions` is willing to hold. */
  const MAX_PROTOCOLS_TO_EXPAND: nat := 500

  predicate Sorted(s: seq<nat>)
  {
    forall i, j :: 0 <= i < j < |s| ==> s[i] <= s[j]
  }

  predicate StrictlyAscending(s: seq<nat>)
  {
    forall i, j :: 0 <= i < j < |s| ==> s[i] < s[j]
  }

  /** Every element is a `u32`. */
  predicate AllU32(s: seq<nat>)
  {
    forall i :: 0 <= i < |s| ==> s[i] < U32_LIMIT
  }

  /** `(lo...hi).collect()`: the integers from `lo` to `hi` inclusive, in
      ascending order; empty when `lo > hi`. */
  function Interval(lo: nat, hi: nat): (r: seq<nat>)
    ensures |r| == if lo <= hi then hi - lo + 1 else 0
    ensures forall i :: 0 <= i < |r| ==> r[i] == lo + i
    decreases if lo <= hi then hi - lo + 1 else 0
  {
    if lo > hi then [] else [lo] + Interval(lo + 1, hi)
  }

  /** `expand_version_range`: "lo-hi" to the versions from lo to hi. The
      text before the first '-' is the lower bound and the text between the
      first and second '-' the upper bound; anything after a second '-' is
      ignored, and an inverted range is empty rather than an error. */
  function ExpandVersionRange(range: string): (r: Result<seq<nat>>)
    ensures range == "" ==> r == Err(EmptyRange)
    ensures r.Ok? ==> '-' in range
    ensures r.Ok? ==> AllU32(r.value)
    ensures r.Ok? ==> forall i :: 0 <= i < |r.value| ==> r.value[i] == r.value[0] + i
  {
    if range == "" then Err(EmptyRange)
    else
      var parts := Split(range, '-');
      match ParseU32(parts[0])
      case None => Err(RangeLowerBound)
      case Some(lower) =>
        if |parts| < 2 then Err(RangeUpperBound)
        else
          match ParseU32(parts[1])
          case None => Err(RangeUpperBound)
          case Some(higher) => Ok(Interval(lower, higher))
  }

  /** "lo-hi" expands to exactly the versions lo..=hi. */
  lemma ExpandRangeText(lo: nat, hi: nat)
    requires lo < U32_LIMIT && hi < U32_LIMIT
    ensures ExpandVersionRange(ToDecimal(lo) + "-" + ToDecimal(hi)) == Ok(Interval(lo, hi))
  {
    var a, b := ToDecimal(lo), ToDecimal(hi);
    var text := a + "-" + b;
    DecimalHasNoSeparator(lo, '-');
    DecimalHasNoSeparator(hi, '-');
    assert text == a + ['-'] + b;
    SplitTwo(a, '-', b);
    var parts := Split(text, '-');
    assert parts == [a, b];
    ParseToDecimal(lo);
    ParseToDecimal(hi);
    assert ParseU32(parts[0]) == Some(lo);
    assert ParseU32(parts[1]) == Some(hi);
  }

  /** Text after a second '-' is ignored: "lo-hi-more" expands like "lo-hi". */
  lemma ExpandRangeIgnoresExtra(lo: nat, hi: nat, more: string)
    requires lo < U32_LIMIT && hi < U32_LIMIT
    ensures ExpandVersionRange(ToDecimal(lo) + "-" + ToDecimal(hi) + "-" + more) == Ok(Interval(lo, hi))
  {
    var a, b := ToDecimal(lo), ToDecimal(hi);
    var text := a + "-" + b + "-" + more;
    DecimalHasNoSeparator(lo, '-');
    DecimalHasNoSeparator(hi, '-');
    assert text == a + ['-'] + (b + ['-'] + more);
    SplitTwoMore(a, '-', b, more);
    var parts := Split(text, '-');
    assert |parts| >= 2 && parts[0] == a && parts[1] == b;
    ParseToDecimal(lo);
    ParseToDecimal(hi);
    assert ParseU32(parts[0]) == Some(lo);
    assert ParseU32(parts[1]) == Some(hi);
  }

  /** The expansions the source's unit tests pin down, and the quirks of an
      inverted range and of trailing range text. */
  lemma ExpandOneToTwo()
    ensures ExpandVersionRange("1-2") == Ok([1, 2])
  {
    ExpandRangeText(1, 2);
    assert ToDecimal(1) + "-" + ToDecimal(2) == "1-2";
    assert Interval(1, 2) == [1, 2];
  }

  lemma ExpandOneToFour()
    ensures ExpandVersionRange("1-4") == Ok([1, 2, 3, 4])
  {
    ExpandRangeText(1, 4);
    assert ToDecimal(1) + "-" + ToDecimal(4) == "1-4";
    assert Interval(1, 4) == [1, 2, 3, 4];
  }

  lemma ExpandInverted()
    ensures ExpandVersionRange("5-3") == Ok([])
  {
    ExpandRangeText(5, 3);
    assert ToDecimal(5) + "-" + ToDecimal(3) == "5-3";
  }

  lemma ExpandTrailingText()
    ensures ExpandVersionRange("1-3-9") == Ok([1, 2, 3])
  {
    ExpandRangeIgnoresExtra(1, 3, "9");
    assert ToDecimal(1) + "-" + ToDecimal(3) + "-" + "9" == "1-3-9";
    assert Interval(1, 3) == [1, 2, 3];
  }

  /** The error cases of the unit tests: empty text and a lower bound that
      is not a number ... */
  lemma ExpandVersionRangeErrors()
    ensures ExpandVersionRange("") == Err(EmptyRange)
    ensures ExpandVersionRange("a") == Err(RangeLowerBound)
    ensures ExpandVersionRange("-3") == Err(RangeLowerBound)
  {
    assert Split("a", '-') == ["a"];
    SplitTwo("", '-', "3");
    assert "" + ['-'] + "3" == "-3";
  }

  /** ... and a missing or non-numeric upper bound. */
  lemma ExpandVersionRangeUpperErrors()
    ensures ExpandVersionRange("3") == Err(RangeUpperBound)
    ensures ExpandVersionRange("1-a") == Err(RangeUpperBound)
  {
    assert Split("3", '-') == ["3"];
    assert ParseU32("3") == Some(3) by { assert DigitsValue("3") == 3; }
    SplitTwo("1", '-', "a");
    assert "1" + ['-'] + "a" == "1-a";
    assert ParseU32("1") == Some(1) by { assert DigitsValue("1") == 1; }
  }

  /** No element equals its right neighbour. */
  predicate NoAdjacentDuplicates(s: seq<nat>)
  {
    forall i :: 0 <= i < |s| - 1 ==> s[i] != s[i + 1]
  }

  /** `Vec::dedup`: removes each element equal to the one before it, so only
      consecutive repetitions disappear. */
  function Dedup(s: seq<nat>): (r: seq<nat>)
    ensures |r| <= |s|
    ensures s != [] ==> r != [] && r[0] == s[0]
    ensures forall x :: x in r <==> x in s
    ensures NoAdjacentDuplicates(r)
    ensures NoAdjacentDuplicates(s) ==> r == s
    decreases |s|
  {
    if |s| <= 1 then s
    else if s[0] == s[1] then
      var r := Dedup(s[1..]);
      assert forall x :: x in s <==> x in s[1..] by {
        assert s == [s[0]] + s[1..];
      }
      r
    else
      var tail := Dedup(s[1..]);
      assert s == [s[0]] + s[1..];
      [s[0]] + tail
  }

  /** The list reversed; building a list by inserting each element at the
      front reverses it. */
  function Reverse(s: seq<nat>): (r: seq<nat>)
    ensures |r| == |s|
    ensures forall i :: 0 <= i < |s| ==> r[i] == s[|s| - 1 - i]
    decreases |s|
  {
    if s == [] then [] else [s[|s| - 1]] + Reverse(s[..|s| - 1])
  }

  function Insert(x: nat, s: seq<nat>): (r: seq<nat>)
    ensures multiset(r) == multiset(s) + multiset{x}
    ensures |r| == |s| + 1
    decreases |s|
  {
    if s == [] || x <= s[0] then [x] + s
    else
      assert s == [s[0]] + s[1..];
      [s[0]] + Insert(x, s[1..])
  }

  /** Inserting into a sorted list keeps it sorted. */
  lemma {:induction false} InsertSorted(x: nat, s: seq<nat>)
    requires Sorted(s)
    ensures Sorted(Insert(x, s))
    ensures Insert(x, s)[0] == x || Insert(x, s)[0] == s[0]
    decreases |s|
  {
    if s != [] && x > s[0] {
      var t := Insert(x, s[1..]);
      InsertSorted(x, s[1..]);
      assert forall j :: 0 <= j < |t| ==> s[0] <= t[0] <= t[j];
      assert Insert(x, s) == [s[0]] + t;
    }
  }

  /** `Vec::sort`: the ascending rearrangement of `s`. */
  function Sort(s: seq<nat>): (r: seq<nat>)
    ensures Sorted(r)
    ensures multiset(r) == multiset(s)
    ensures |r| == |s|
    decreases |s|
  {
    if s == [] then []
    else
      assert s == [s[0]] + s[1..];
      InsertSorted(s[0], Sort(s[1..]));
      Insert(s[0], Sort(s[1..]))
  }

  lemma {:induction false} InsertAbove(x: nat, s: seq<nat>)
    requires forall i :: 0 <= i < |s| ==> s[i] < x
    ensures Insert(x, s) == s + [x]
    decreases |s|
  {
    if s != [] {
      InsertAbove(x, s[1..]);
      assert s == [s[0]] + s[1..];
    }
  }

  /** Sorting a strictly descending list gives its reverse. */
  lemma {:induction false} SortReversed(s: seq<nat>)
    requires StrictlyAscending(s)
    ensures Sort(Reverse(s)) == s
    decreases |s|
  {
    if s != [] {
      var init, last := s[..|s| - 1], s[|s| - 1];
      assert s == init + [last];
      SortReversed(init);
      InsertAbove(last, init);
      SortOfReverseSnoc(init, last);
    }
  }

  /** Reversing a list with one more element at the end puts it in front. */
  lemma ReverseSnoc(s: seq<nat>, x: nat)
    ensures Reverse(s + [x]) == [x] + Reverse(s)
  {
    assert (s + [x])[..|s|] == s;
  }

  /** One turn of `versions.insert(0, p)` over a range keeps the running
      list equal to the range so far, reversed, in front of the old list. */
  lemma PrependStep(range: seq<nat>, j: nat, vs: seq<nat>, versions: seq<nat>)
    requires j < |range| && vs == Reverse(range[..j]) + versions
    ensures [range[j]] + vs == Reverse(range[..j + 1]) + versions
  {
    assert range[..j + 1] == range[..j] + [range[j]];
    ReverseSnoc(range[..j], range[j]);
  }

  lemma SortOfReverseSnoc(init: seq<nat>, last: nat)
    ensures Sort(Reverse(init + [last])) == Insert(last, Sort(Reverse(init)))
  {
    ReverseSnoc(init, last);
    assert ([last] + Reverse(init))[1..] == Reverse(init);
  }

  /** The values one comma-separated piece contributes, in the order the
      source produces them: a range if the piece holds '-', else one `u32`. */
  function PieceValues(piece: string): (r: Result<seq<nat>>)
    ensures r.Ok? ==> AllU32(r.value)
  {
    if '-' in piece then ExpandVersionRange(piece)
    else
      match ParseU32(piece)
      case None => Err(InvalidEntry)
      case Some(v) => Ok([v])
  }

  /** What each piece of a comma-separated list yields on its own. */
  function PieceResults(pieces: seq<string>): (rs: seq<Result<seq<nat>>>)
    ensures |rs| == |pieces|
    ensures forall i :: 0 <= i < |pieces| ==> rs[i] == PieceValues(pieces[i])
    ensures forall i :: 0 <= i < |rs| ==> rs[i].Ok? ==> AllU32(rs[i].value)
  {
    seq(|pieces|, i requires 0 <= i < |pieces| => PieceValues(pieces[i]))
  }

  /** Every successful piece holds only `u32` values. */
  predicate AllResultsU32(results: seq<Result<seq<nat>>>)
  {
    forall i :: 0 <= i < |results| ==> results[i].Ok? ==> AllU32(results[i].value)
  }

  /** `v` is among the values of some successful piece. */
  ghost predicate Listed(results: seq<Result<seq<nat>>>, v: nat)
  {
    exists i :: 0 <= i < |results| && results[i].Ok? && v in results[i].value
  }

  /** One round of the loop in `get_versions`: insert the piece's values at
      the front one by one, `dedup`, then enforce the cap. */
  function AddPiece(versions: seq<nat>, piece: Result<seq<nat>>): (r: Result<seq<nat>>)
    ensures r.Ok? ==> |r.value| <= MAX_PROTOCOLS_TO_EXPAND
    ensures r.Ok? && AllU32(versions) && (piece.Ok? ==> AllU32(piece.value)) ==> AllU32(r.value)
  {
    match piece
    case Err(e) => Err(e)
    case Ok(vs) => MergePiece(versions, vs)
  }

  /** The successful case of `AddPiece`: the piece's values `vs` go in front,
      last value first, before `dedup` and the cap. */
  function MergePiece(versions: seq<nat>, vs: seq<nat>): (r: Result<seq<nat>>)
    ensures r.Ok? ==> |r.value| <= MAX_PROTOCOLS_TO_EXPAND
    ensures r.Ok? && AllU32(versions) && AllU32(vs) ==> AllU32(r.value)
  {
    var front := Reverse(vs) + versions;
    var merged := Dedup(front);
    assert AllU32(versions) && AllU32(vs) ==> AllU32(merged) by {
      if AllU32(versions) && AllU32(vs) {
        forall i | 0 <= i < |merged| ensures merged[i] < U32_LIMIT {
          assert merged[i] in front;
          var j :| 0 <= j < |front| && front[j] == merged[i];
          if j < |vs| { assert front[j] == vs[|vs| - 1 - j]; }
          else { assert front[j] == versions[j - |vs|]; }
        }
      }
    }
    if |merged| > MAX_PROTOCOLS_TO_EXPAND then Err(TooManyVersions) else Ok(merged)
  }

  /** The running list after the loop of `get_versions` has consumed the
      pieces (given by what each yields), or the first error it stops at. */
  function Collect(results: seq<Result<seq<nat>>>): (r: Result<seq<nat>>)
    ensures r.Ok? ==> |r.value| <= MAX_PROTOCOLS_TO_EXPAND
    ensures r.Ok? && AllResultsU32(results) ==> AllU32(r.value)
    decreases |results|
  {
    if results == [] then Ok([])
    else
      match Collect(results[..|results| - 1])
      case Err(e) => Err(e)
      case Ok(acc) => AddPiece(acc, results[|results| - 1])
  }

  /** Once a prefix of the pieces fails, the whole loop fails the same way. */
  lemma {:induction false} CollectStops(results: seq<Result<seq<nat>>>, k: nat)
    requires k <= |results|
    requires Collect(results[..k]).Err?
    ensures Collect(results) == Collect(results[..k])
    decreases |results| - k
  {
    if k < |results| {
      var next := results[..k + 1];
      assert next[..k] == results[..k];
      CollectStops(results, k + 1);
    } else {
      assert results[..k] == results;
    }
  }

  /** A value is in the running list after a piece iff it was before or
      the piece names it. */
  lemma AddPieceMembers(versions: seq<nat>, piece: Result<seq<nat>>)
    requires AddPiece(versions, piece).Ok?
    ensures piece.Ok?
    ensures forall v :: v in AddPiece(versions, piece).value <==> v in versions || v in piece.value
  {
    var vs := piece.value;
    forall v ensures v in Reverse(vs) <==> v in vs {
      if v in vs {
        var i :| 0 <= i < |vs| && vs[i] == v;
        assert Reverse(vs)[|vs| - 1 - i] == v;
      }
    }
  }

  lemma ListedSnoc(results: seq<Result<seq<nat>>>, v: nat)
    requires results != []
    ensures Listed(results, v) <==>
              (Listed(results[..|results| - 1], v) ||
               (results[|results| - 1].Ok? && v in results[|results| - 1].value))
  {
    var init := results[..|results| - 1];
    if Listed(results, v) {
      var i :| 0 <= i < |results| && results[i].Ok? && v in results[i].value;
      if i < |init| { assert results[i] == init[i]; }
    }
    if Listed(init, v) {
      var i :| 0 <= i < |init| && init[i].Ok? && v in init[i].value;
      assert results[i] == init[i];
    }
  }

  /** One more piece keeps the running list equal to the values named so
      far. */
  lemma ListedStep(results: seq<Result<seq<nat>>>, acc: seq<nat>)
    requires results != []
    requires forall i :: 0 <= i < |results| - 1 ==> results[i].Ok?
    requires forall v :: v in acc <==> Listed(results[..|results| - 1], v)
    requires AddPiece(acc, results[|results| - 1]).Ok?
    ensures forall i :: 0 <= i < |results| ==> results[i].Ok?
    ensures forall v :: v in AddPiece(acc, results[|results| - 1]).value <==> Listed(results, v)
  {
    AddPieceMembers(acc, results[|results| - 1]);
    forall v ensures v in AddPiece(acc, results[|results| - 1]).value <==> Listed(results, v) {
      ListedSnoc(results, v);
    }
  }

  /** On success every piece parsed, and the running list holds exactly the
      values the pieces name: `dedup` drops repetitions, never a value. */
  lemma {:induction false} CollectListed(results: seq<Result<seq<nat>>>)
    requires Collect(results).Ok?
    ensures forall i :: 0 <= i < |results| ==> results[i].Ok?
    ensures forall v :: v in Collect(results).value <==> Listed(results, v)
    decreases |results|
  {
    if results != [] {
      var init := results[..|results| - 1];
      var last := results[|results| - 1];
      CollectListed(init);
      var acc := Collect(init).value;
      assert Collect(results) == AddPiece(acc, last);
      ListedStep(results, acc);
    }
  }

  /** `get_versions` as a function of its text: the versions it returns, or
      the error it stops at. */
  function Versions(text: string): (r: Result<seq<nat>>)
    ensures text == "" ==> r == Err(EmptyVersionString)
    ensures r.Ok? ==> Sorted(r.value) && |r.value| <= MAX_PROTOCOLS_TO_EXPAND && AllU32(r.value)
  {
    if text == "" then Err(EmptyVersionString)
    else
      match Collect(PieceResults(Split(text, ',')))
      case Err(e) => Err(e)
      case Ok(acc) =>
        var r := Sort(acc);
        assert AllU32(r) by {
          forall i | 0 <= i < |r| ensures r[i] < U32_LIMIT {
            assert multiset(r)[r[i]] > 0;
            assert r[i] in acc;
          }
        }
        Ok(r)
  }

  /** A successful parse names exactly the values of its comma-separated
      pieces, and every piece parsed. */
  lemma VersionsListed(text: string)
    requires Versions(text).Ok?
    ensures forall i :: 0 <= i < |Split(text, ',')| ==> PieceValues(Split(text, ',')[i]).Ok?
    ensures forall v :: v in Versions(text).value <==> Listed(PieceResults(Split(text, ',')), v)
  {
    var results := PieceResults(Split(text, ','));
    var acc := Collect(results).value;
    CollectListed(results);
    forall v ensures v in Versions(text).value <==> v in acc {
      assert v in Versions(text).value <==> multiset(Versions(text).value)[v] > 0;
      assert v in acc <==> multiset(acc)[v] > 0;
    }
  }

  /** The blocks of values laid end to end. */
  function Flatten(blocks: seq<seq<nat>>): (r: seq<nat>)
    ensures blocks == [] ==> r == []
    decreases |blocks|
  {
    if blocks == [] then [] else Flatten(blocks[..|blocks| - 1]) + blocks[|blocks| - 1]
  }

  /** Every piece succeeds, with the given values. */
  function Oks(blocks: seq<seq<nat>>): (rs: seq<Result<seq<nat>>>)
    ensures |rs| == |blocks|
    ensures forall i :: 0 <= i < |rs| ==> rs[i] == Ok(blocks[i])
  {
    seq(|blocks|, i requires 0 <= i < |blocks| => Ok(blocks[i]))
  }

  lemma ReverseConcat(a: seq<nat>, b: seq<nat>)
    ensures Reverse(a + b) == Reverse(b) + Reverse(a)
  {
    var l, r := Reverse(a + b), Reverse(b) + Reverse(a);
    forall i | 0 <= i < |l| ensures l[i] == r[i] {
      if i < |b| { assert l[i] == (a + b)[|a| + |b| - 1 - i]; }
    }
  }

  /** A strictly descending list has no adjacent duplicates. */
  lemma ReverseAscendingNoDuplicates(s: seq<nat>)
    requires StrictlyAscending(s)
    ensures NoAdjacentDuplicates(Reverse(s))
  {
    var r := Reverse(s);
    forall i | 0 <= i < |r| - 1 ensures r[i] != r[i + 1] {
      assert r[i] == s[|s| - 1 - i] && r[i + 1] == s[|s| - 2 - i];
    }
  }

  lemma FlattenPrefixLength(blocks: seq<seq<nat>>)
    requires blocks != []
    ensures |Flatten(blocks[..|blocks| - 1])| <= |Flatten(blocks)|
    ensures Flatten(blocks) == Flatten(blocks[..|blocks| - 1]) + blocks[|blocks| - 1]
  {
  }

  /** When the pieces, in order, name strictly ascending values, the loop of
      `get_versions` never merges or drops anything: it holds all of them,
      newest first, so that the final sort restores their order. */
  lemma {:induction false} CollectAscending(blocks: seq<seq<nat>>)
    requires StrictlyAscending(Flatten(blocks))
    requires |Flatten(blocks)| <= MAX_PROTOCOLS_TO_EXPAND
    ensures Collect(Oks(blocks)) == Ok(Reverse(Flatten(blocks)))
    decreases |blocks|
  {
    if blocks != [] {
      var init := blocks[..|blocks| - 1];
      var last := blocks[|blocks| - 1];
      FlattenPrefixLength(blocks);
      var f := Flatten(init);
      assert StrictlyAscending(f) by {
        forall i, j | 0 <= i < j < |f| ensures f[i] < f[j] {
          assert f[i] == Flatten(blocks)[i] && f[j] == Flatten(blocks)[j];
        }
      }
      CollectAscending(init);
      assert Oks(blocks) == Oks(init) + [Ok(last)];
      CollectStep(Oks(init), Reverse(f), Ok(last));
      assert Flatten(blocks) == f + last;
      ReverseConcat(f, last);
      ReverseAscendingNoDuplicates(Flatten(blocks));
      assert MergePiece(Reverse(f), last) == Ok(Reverse(Flatten(blocks)));
    }
  }

  /** A piece that is the decimal text of a `u32` names just that value. */
  lemma PieceOfNumber(n: nat)
    requires n < U32_LIMIT
    ensures PieceValues(ToDecimal(n)) == Ok([n])
  {
    DecimalHasNoSeparator(n, '-');
    ParseToDecimal(n);
  }

  /** A piece "lo-hi" names lo..=hi. */
  lemma PieceOfRange(lo: nat, hi: nat)
    requires lo < U32_LIMIT && hi < U32_LIMIT
    ensures PieceValues(ToDecimal(lo) + "-" + ToDecimal(hi)) == Ok(Interval(lo, hi))
  {
    ExpandRangeText(lo, hi);
    assert (ToDecimal(lo) + "-" + ToDecimal(hi))[|ToDecimal(lo)|] == '-';
  }

  lemma JoinNonEmpty(pieces: seq<string>, sep: char)
    requires |pieces| >= 1 && pieces[0] != ""
    ensures Join(pieces, sep) != ""
  {
  }

  /** Text whose comma-separated pieces name strictly ascending values
      (at most 500 of them) parses to exactly those values. */
  lemma VersionsAscending(pieces: seq<string>, blocks: seq<seq<nat>>)
    requires |pieces| == |blocks| >= 1
    requires forall i :: 0 <= i < |pieces| ==> ',' !in pieces[i]
    requires forall i :: 0 <= i < |pieces| ==> PieceValues(pieces[i]) == Ok(blocks[i])
    requires StrictlyAscending(Flatten(blocks))
    requires |Flatten(blocks)| <= MAX_PROTOCOLS_TO_EXPAND
    ensures Versions(Join(pieces, ',')) == Ok(Flatten(blocks))
  {
    assert pieces[0] != "" by {
      assert PieceValues("") == Err(InvalidEntry);
    }
    JoinNonEmpty(pieces, ',');
    SplitJoin(pieces, ',');
    assert PieceResults(pieces) == Oks(blocks);
    CollectAscending(blocks);
    SortReversed(Flatten(blocks));
  }

  /** A single range of at most 500 values parses to that range; one more
      value and the cap refuses it. */
  lemma RangeWithinCap(lo: nat, hi: nat)
    requires lo <= hi < U32_LIMIT
    requires hi - lo < MAX_PROTOCOLS_TO_EXPAND
    ensures Versions(ToDecimal(lo) + "-" + ToDecimal(hi)) == Ok(Interval(lo, hi))
  {
    var piece := ToDecimal(lo) + "-" + ToDecimal(hi);
    PieceOfRange(lo, hi);
    DecimalHasNoSeparator(lo, ',');
    DecimalHasNoSeparator(hi, ',');
    assert Flatten([Interval(lo, hi)]) == Interval(lo, hi);
    VersionsAscending([piece], [Interval(lo, hi)]);
  }

  lemma RangeOverCap(lo: nat, hi: nat)
    requires lo <= hi < U32_LIMIT
    requires hi - lo >= MAX_PROTOCOLS_TO_EXPAND
    ensures Versions(ToDecimal(lo) + "-" + ToDecimal(hi)) == Err(TooManyVersions)
  {
    var piece := ToDecimal(lo) + "-" + ToDecimal(hi);
    PieceOfRange(lo, hi);
    DecimalHasNoSeparator(lo, ',');
    DecimalHasNoSeparator(hi, ',');
    assert Split(piece, ',') == [piece];
    assert PieceResults([piece]) == [Ok(Interval(lo, hi))];
    CollectOverCap(Interval(lo, hi));
  }

  /** Collecting a single piece that names more than 500 distinct values
      fails. */
  lemma CollectOverCap(vs: seq<nat>)
    requires StrictlyAscending(vs)
    requires |vs| > MAX_PROTOCOLS_TO_EXPAND
    ensures Collect([Ok(vs)]) == Err(TooManyVersions)
  {
    CollectOne(Ok(vs));
    ReverseAscendingNoDuplicates(vs);
    assert Reverse(vs) + [] == Reverse(vs);
  }

  lemma CollectOne(r: Result<seq<nat>>)
    ensures Collect([r]) == AddPiece([], r)
  {
    var empty: seq<Result<seq<nat>>> := [];
    assert [r][..0] == empty;
  }

  /** One more piece after a successful prefix. */
  lemma CollectStep(results: seq<Result<seq<nat>>>, acc: seq<nat>, r: Result<seq<nat>>)
    requires Collect(results) == Ok(acc)
    ensures Collect(results + [r]) == AddPiece(acc, r)
  {
    assert (results + [r])[..|results|] == results;
  }

  /** A single decimal number parses to itself. */
  lemma VersionsOfNumber(n: nat)
    requires n < U32_LIMIT
    ensures Versions(ToDecimal(n)) == Ok([n])
  {
    PieceOfNumber(n);
    DecimalHasNoSeparator(n, ',');
    assert Flatten([[n]]) == [n];
    VersionsAscending([ToDecimal(n)], [[n]]);
  }

  /** The unit tests of `get_versions`. */
  lemma VersionsOfOne()
    ensures Versions("1") == Ok([1])
  {
    PieceOfNumber(1);
    assert ToDecimal(1) == "1";
    assert Flatten([[1]]) == [1];
    VersionsAscending(["1"], [[1]]);
  }

  lemma VersionsOfOneTwo()
    ensures Versions("1,2") == Ok([1, 2])
  {
    PieceOfNumber(1);
    PieceOfNumber(2);
    assert ToDecimal(1) == "1" && ToDecimal(2) == "2";
    assert Flatten([[1], [2]]) == [1, 2] by {
      assert [[1], [2]][..1] == [[1]];
    }
    assert Join(["1", "2"], ',') == "1,2";
    VersionsAscending(["1", "2"], [[1], [2]]);
  }

  lemma VersionsOfOneTwoThree()
    ensures Versions("1,2,3") == Ok([1, 2, 3])
  {
    PieceOfNumber(1);
    PieceOfNumber(2);
    PieceOfNumber(3);
    SmallDecimals();
    var blocks := [[1], [2], [3]];
    FlattenOneTwoThree();
    assert Join(["1", "2", "3"], ',') == "1,2,3";
    VersionsAscending(["1", "2", "3"], blocks);
  }

  lemma SmallDecimals()
    ensures ToDecimal(1) == "1" && ToDecimal(2) == "2" && ToDecimal(3) == "3"
    ensures ToDecimal(4) == "4" && ToDecimal(5) == "5"
  {
  }

  lemma FlattenOneTwoThree()
    ensures Flatten([[1], [2], [3]]) == [1, 2, 3]
  {
    var blocks := [[1], [2], [3]];
    assert blocks[..2] == [[1], [2]];
    assert blocks[..2][..1] == [[1]];
  }

  lemma VersionsOfRange()
    ensures Versions("1-3") == Ok([1, 2, 3])
  {
    RangeWithinCap(1, 3);
    RangeOneToThree();
  }

  lemma RangeOneToThree()
    ensures ToDecimal(1) + "-" + ToDecimal(3) == "1-3"
    ensures Interval(1, 3) == [1, 2, 3]
  {
    SmallDecimals();
  }

  lemma VersionsOfRangeThenOne()
    ensures Versions("1-3,5") == Ok([1, 2, 3, 5])
  {
    PieceOfRange(1, 3);
    PieceOfNumber(5);
    RangeOneToThree();
    SmallDecimals();
    RangeThenOneParts();
    VersionsAscending(["1-3", "5"], [[1, 2, 3], [5]]);
  }

  lemma RangeThenOneParts()
    ensures Flatten([[1, 2, 3], [5]]) == [1, 2, 3, 5]
    ensures Join(["1-3", "5"], ',') == "1-3,5"
  {
    var blocks := [[1, 2, 3], [5]];
    assert blocks[..1] == [[1, 2, 3]];
  }

  /** A number followed by a range above it, as in "1,3-5": the number,
      then the range, in ascending order. */
  lemma VersionsOfNumberThenRange(n: nat, lo: nat, hi: nat)
    requires n < lo <= hi < U32_LIMIT && hi - lo + 2 <= MAX_PROTOCOLS_TO_EXPAND
    ensures Versions(ToDecimal(n) + [','] + (ToDecimal(lo) + "-" + ToDecimal(hi))) == Ok([n] + Interval(lo, hi))
  {
    PieceOfNumber(n);
    PieceOfRange(lo, hi);
    DecimalHasNoSeparator(n, ',');
    DecimalHasNoSeparator(lo, ',');
    DecimalHasNoSeparator(hi, ',');
    var range := Interval(lo, hi);
    var all := [n] + range;
    assert StrictlyAscending(all) by {
      forall i, j | 0 <= i < j < |all| ensures all[i] < all[j] {
        assert all[j] == lo + (j - 1);
        if i > 0 { assert all[i] == lo + (i - 1); }
      }
    }
    VersionsOfTwoPieces(ToDecimal(n), ToDecimal(lo) + "-" + ToDecimal(hi), [n], range);
  }

  /** Two comma-separated pieces whose values ascend across both. */
  lemma VersionsOfTwoPieces(a: string, b: string, x: seq<nat>, y: seq<nat>)
    requires ',' !in a && ',' !in b
    requires PieceValues(a) == Ok(x) && PieceValues(b) == Ok(y)
    requires StrictlyAscending(x + y) && |x + y| <= MAX_PROTOCOLS_TO_EXPAND
    ensures Versions(a + [','] + b) == Ok(x + y)
  {
    var blocks := [x, y];
    assert Flatten(blocks) == x + y by {
      assert blocks[..1] == [x];
      assert Flatten([x]) == x;
    }
    assert Join([a, b], ',') == a + [','] + b;
    VersionsAscending([a, b], blocks);
  }

  /** Text made of comma-free pieces parses as the fold over those pieces. */
  lemma VersionsOfJoin(pieces: seq<string>)
    requires |pieces| >= 1 && pieces[0] != ""
    requires forall i :: 0 <= i < |pieces| ==> ',' !in pieces[i]
    ensures Versions(Join(pieces, ',')) ==
      match Collect(PieceResults(pieces))
      case Err(e) => Err(e)
      case Ok(acc) => Ok(Sort(acc))
  {
    JoinNonEmpty(pieces, ',');
    SplitJoin(pieces, ',');
  }

  /** `dedup` only removes neighbours: a repeated value that is not
      repeated back to back survives, so "1,2,1" yields [1, 1, 2], while
      "1,1" yields [1]. */
  lemma VersionsKeepsDistantRepeat()
    ensures Versions("1,2,1") == Ok([1, 1, 2])
  {
    PieceOfNumber(1);
    PieceOfNumber(2);
    assert ToDecimal(1) == "1" && ToDecimal(2) == "2";
    var pieces := ["1", "2", "1"];
    assert Join(pieces, ',') == "1,2,1";
    VersionsOfJoin(pieces);
    assert PieceResults(pieces) == [Ok([1]), Ok([2]), Ok([1])];
    CollectDistantRepeat();
    SortDistantRepeat();
  }

  lemma SortOfTwoOne()
    ensures Sort([2, 1]) == [1, 2]
  {
    assert [2, 1][1..] == [1];
    assert Sort([1]) == [1];
    assert Insert(2, [1]) == [1, 2];
  }

  lemma SortDistantRepeat()
    ensures Sort([1, 2, 1]) == [1, 1, 2]
  {
    SortOfTwoOne();
    assert [1, 2, 1][1..] == [2, 1];
    assert Insert(1, [1, 2]) == [1, 1, 2];
  }

  lemma CollectDistantRepeat()
    ensures Collect([Ok([1]), Ok([2]), Ok([1])]) == Ok([1, 2, 1])
  {
    CollectOne(Ok([1]));
    assert Collect([Ok([1])]) == Ok([1]) by {
      assert Reverse([1]) + [] == [1];
    }
    CollectStep([Ok([1])], [1], Ok([2]));
    assert [Ok([1])] + [Ok([2])] == [Ok([1]), Ok([2])];
    assert Collect([Ok([1]), Ok([2])]) == Ok([2, 1]) by {
      assert Reverse([2]) == [2];
      assert Dedup([2, 1]) == [2, 1];
    }
    CollectStep([Ok([1]), Ok([2])], [2, 1], Ok([1]));
    assert [Ok([1]), Ok([2])] + [Ok([1])] == [Ok([1]), Ok([2]), Ok([1])];
    assert Reverse([1]) == [1];
    assert Dedup([1, 2, 1]) == [1, 2, 1];
  }

  lemma VersionsDropsAdjacentRepeat()
    ensures Versions("1,1") == Ok([1])
  {
    PieceOfNumber(1);
    assert ToDecimal(1) == "1";
    var pieces := ["1", "1"];
    assert Join(pieces, ',') == "1,1";
    VersionsOfJoin(pieces);
    assert PieceResults(pieces) == [Ok([1]), Ok([1])];
    CollectAdjacentRepeat();
    assert Sort([1]) == [1];
  }

  lemma CollectAdjacentRepeat()
    ensures Collect([Ok([1]), Ok([1])]) == Ok([1])
  {
    CollectOne(Ok([1]));
    assert Collect([Ok([1])]) == Ok([1]) by {
      assert Reverse([1]) + [] == [1];
    }
    CollectStep([Ok([1])], [1], Ok([1]));
    assert [Ok([1])] + [Ok([1])] == [Ok([1]), Ok([1])];
    assert Reverse([1]) == [1];
    assert Dedup([1, 1]) == [1];
  }

  /** One round of the loop in `get_versions`: the piece's values are
      inserted at the front of the running list one at a time, consecutive
      duplicates are removed, and more than 500 values is an error. */
  method PushPiece(versions: seq<nat>, piece: string) returns (r: Result<seq<nat>>)
    ensures r == AddPiece(versions, PieceValues(piece))
  {
    var vs := versions;
    ghost var values: seq<nat>;
    if '-' in piece {
      var expanded := ExpandVersionRange(piece);
      if expanded.Err? {
        return Err(expanded.error);
      }
      var range := expanded.value;
      var j := 0;
      while j < |range|
        invariant 0 <= j <= |range|
        invariant vs == Reverse(range[..j]) + versions
      {
        PrependStep(range, j, vs, versions);
        vs := [range[j]] + vs;
        j := j + 1;
      }
      assert range[..j] == range;
      values := range;
    } else {
      var parsed := ParseU32(piece);
      if parsed.None? {
        return Err(InvalidEntry);
      }
      vs := [parsed.value] + vs;
      values := [parsed.value];
      assert vs == Reverse(values) + versions;
    }
    assert PieceValues(piece) == Ok(values);
    vs := Dedup(vs);
    if |vs| > MAX_PROTOCOLS_TO_EXPAND {
      return Err(TooManyVersions);
    }
    return Ok(vs);
  }

  /** What `get_versions` returns for non-empty text, in terms of the fold. */
  lemma VersionsOfCollect(text: string)
    requires text != ""
    ensures Collect(PieceResults(Split(text, ','))).Err? ==>
      Versions(text) == Collect(PieceResults(Split(text, ',')))
    ensures Collect(PieceResults(Split(text, ','))).Ok? ==>
      Versions(text) == Ok(Sort(Collect(PieceResults(Split(text, ','))).value))
  {
  }

  /** `get_versions`: splits on ',', adds each piece's values to the running
      list, stops at the first error, and finally sorts. */
  method GetVersions(text: string) returns (r: Result<seq<nat>>)
    ensures r == Versions(text)
  {
    if text == "" {
      return Err(EmptyVersionString);
    }
    var versions: seq<nat> := [];
    var pieces := Split(text, ',');
    ghost var results := PieceResults(pieces);
    var i := 0;
    while i < |pieces|
      invariant 0 <= i <= |pieces|
      invariant Collect(results[..i]) == Ok(versions)
    {
      var next := PushPiece(versions, pieces[i]);
      CollectPrefixStep(results, i, versions);
      if next.Err? {
        CollectStops(results, i + 1);
        VersionsOfCollect(text);
        return Err(next.error);
      }
      versions := next.value;
      i := i + 1;
    }
    assert results[..i] == results;
    VersionsOfCollect(text);
    return Ok(Sort(versions));
  }

  /** The loop of `get_versions` extends its prefix by one piece. */
  lemma CollectPrefixStep(results: seq<Result<seq<nat>>>, i: nat, versions: seq<nat>)
    requires i < |results| && Collect(results[..i]) == Ok(versions)
    ensures Collect(results[..i + 1]) == AddPiece(versions, results[i])
  {
    assert results[..i + 1] == results[..i] + [results[i]];
    CollectStep(results[..i], versions, results[i]);
  }
}
