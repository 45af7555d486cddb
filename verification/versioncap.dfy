/** The cap of `get_versions` over a whole list: however the values are
    spread over the comma-separated pieces, more than 500 distinct values
    make the parse fail with `TooManyVersions`. */
module VersionCap {
  import opened Wrappers
  import opened Strings
  import opened Decimal
  import opened VersionList

  /** "5-3" expands to nothing, so `get_versions` accepts it with an empty
      list. */
  lemma InvertedVersions()
    ensures Versions("5-3") == Ok([])
  {
    ExpandInverted();
    assert Split("5-3", ',') == ["5-3"];
  }

  /** The distinct values the successful pieces name. */
  ghost function Named(results: seq<Result<seq<nat>>>): (S: set<nat>)
    ensures forall v :: v in S <==> Listed(results, v)
  {
    set i, v | 0 <= i < |results| && results[i].Ok? && v in results[i].value :: v
  }

  /** When every piece parses, the only error the loop can stop at is the
      cap. */
  lemma {:induction false} CollectOnlyCapFails(results: seq<Result<seq<nat>>>)
    requires forall i :: 0 <= i < |results| ==> results[i].Ok?
    ensures Collect(results).Err? ==> Collect(results) == Err(TooManyVersions)
    decreases |results|
  {
    if results != [] {
      var init := results[..|results| - 1];
      assert forall i :: 0 <= i < |init| ==> init[i] == results[i];
      CollectOnlyCapFails(init);
    }
  }

  /** The distinct values of a list; there are at most as many as it has
      elements. */
  ghost function Elems(s: seq<nat>): (r: set<nat>)
    ensures forall v :: v in r <==> v in s
    ensures |r| <= |s|
  {
    if s == [] then {}
    else
      var rest := Elems(s[1..]);
      assert forall v :: v in s <==> v == s[0] || v in s[1..];
      assert |rest + {s[0]}| <= |rest| + 1 by { assert |{s[0]}| == 1; }
      rest + {s[0]}
  }

  /** The cap: pieces that all parse but name more than 500 distinct values
      between them make the loop fail with `TooManyVersions`. */
  lemma CollectOverCapAnywhere(results: seq<Result<seq<nat>>>)
    requires forall i :: 0 <= i < |results| ==> results[i].Ok?
    requires |Named(results)| > MAX_PROTOCOLS_TO_EXPAND
    ensures Collect(results) == Err(TooManyVersions)
  {
    CollectOnlyCapFails(results);
    if Collect(results).Ok? {
      var acc := Collect(results).value;
      CollectListed(results);
      SubsetSize(Named(results), Elems(acc));
    }
  }

  lemma {:induction false} SubsetSize(A: set<nat>, B: set<nat>)
    requires A <= B
    ensures |A| <= |B|
    decreases |A|
  {
    if A != {} {
      var x :| x in A;
      SubsetSize(A - {x}, B - {x});
    }
  }

  /** `get_versions` fails with `TooManyVersions` whenever its pieces all
      parse and name more than 500 distinct values, however the values
      are spread over the pieces. */
  lemma VersionsOverCap(text: string)
    requires forall i :: 0 <= i < |Split(text, ',')| ==> PieceValues(Split(text, ',')[i]).Ok?
    requires |Named(PieceResults(Split(text, ',')))| > MAX_PROTOCOLS_TO_EXPAND
    ensures Versions(text) == Err(TooManyVersions)
  {
    var results := PieceResults(Split(text, ','));
    CollectOverCapAnywhere(results);
  }

  /** A strictly ascending list has as many distinct values as elements. */
  lemma {:induction false} ElemsAscending(s: seq<nat>)
    requires StrictlyAscending(s)
    ensures |Elems(s)| == |s|
  {
    if s != [] {
      ElemsAscending(s[1..]);
      assert s[0] !in Elems(s[1..]);
    }
  }

  /** A range followed by one more number can pass the cap together even
      when each piece stays within it: "1-500,501" fails. */
  lemma VersionsOverCapTwoPieces(lo: nat, hi: nat, n: nat)
    requires lo <= hi < n < U32_LIMIT
    requires hi - lo + 2 > MAX_PROTOCOLS_TO_EXPAND
    ensures Versions(ToDecimal(lo) + "-" + ToDecimal(hi) + [','] + ToDecimal(n)) == Err(TooManyVersions)
  {
    var a, b := ToDecimal(lo) + "-" + ToDecimal(hi), ToDecimal(n);
    PieceOfRange(lo, hi);
    PieceOfNumber(n);
    DecimalHasNoSeparator(lo, ',');
    DecimalHasNoSeparator(hi, ',');
    DecimalHasNoSeparator(n, ',');
    SplitTwo(a, ',', b);
    assert PieceResults([a, b]) == [Ok(Interval(lo, hi)), Ok([n])];
    NamedRangeThenNumber(lo, hi, n);
    VersionsOverCap(a + [','] + b);
  }

  /** A range and a number above it name one value more than the range. */
  lemma NamedRangeThenNumber(lo: nat, hi: nat, n: nat)
    requires lo <= hi < n
    ensures |Named([Ok(Interval(lo, hi)), Ok([n])])| == hi - lo + 2
  {
    var results := [Ok(Interval(lo, hi)), Ok([n])];
    var all := Interval(lo, hi) + [n];
    assert StrictlyAscending(all);
    ElemsAscending(all);
    assert Named(results) == Elems(all) by {
      forall v ensures v in Named(results) <==> v in all {
        assert Listed(results, v) ==> v in results[0].value || v in results[1].value;
        if v == n { assert results[1].Ok? && v in results[1].value; }
        else if v in Interval(lo, hi) { assert results[0].Ok? && v in results[0].value; }
      }
    }
  }

  lemma VersionsOverCapExample()
    ensures Versions("1-500,501") == Err(TooManyVersions)
  {
    VersionsOverCapTwoPieces(1, 500, 501);
    assert ToDecimal(1) + "-" + ToDecimal(500) + [','] + ToDecimal(501) == "1-500,501";
  }
}
