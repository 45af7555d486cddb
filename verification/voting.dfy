/** Protocol voting: directory authorities pool the protocol lists relays
    advertise and keep, per protocol, the versions listed at least a
    threshold number of times (`parse_protocols_with_duplicates`,
    `compute_vote`, `write_vote_to_string`). */
module Voting {
  import opened Wrappers
  import opened Strings
  import opened Decimal
  import opened VersionList
  import opened Contraction
  import opened Protocols

  /** The whitespace-separated entries of every vote, in order: the
      `flat_map(split_whitespace)` that opens
      `parse_protocols_with_duplicates`. */
  function Tokens(protos: seq<string>): (r: seq<string>)
    ensures forall i :: 0 <= i < |r| ==> IsToken(r[i])
  {
    if protos == [] then [] else SplitWhitespace(protos[0]) + Tokens(protos[1..])
  }

  /** A run of non-whitespace characters ends at the first whitespace
      character, whatever follows it. */
  lemma {:induction false} TokenLengthExtend(a: string, rest: string)
    requires rest != [] && IsWhitespace(rest[0])
    ensures TokenLength(a + rest) == TokenLength(a)
    decreases |a|
  {
    if a != [] && !IsWhitespace(a[0]) {
      assert (a + rest)[1..] == a[1..] + rest;
      TokenLengthExtend(a[1..], rest);
    }
  }

  /** The tokens of two texts with a space between them are the tokens of
      the first followed by those of the second. */
  lemma {:induction false} SplitWhitespaceAppend(a: string, b: string)
    ensures SplitWhitespace(a + " " + b) == SplitWhitespace(a) + SplitWhitespace(b)
    decreases |a|
  {
    var s := a + " " + b;
    if a == [] {
      assert s[1..] == b;
    } else if IsWhitespace(a[0]) {
      assert s[1..] == a[1..] + " " + b;
      SplitWhitespaceAppend(a[1..], b);
    } else {
      var n := TokenLength(a);
      assert s == a + (" " + b);
      TokenLengthExtend(a, " " + b);
      assert s[..n] == a[..n];
      assert s[n..] == a[n..] + " " + b;
      SplitWhitespaceAppend(a[n..], b);
    }
  }

  /** Flattening the votes' entries is splitting the votes, joined by
      spaces, on whitespace. */
  lemma {:induction false} TokensOfJoin(protos: seq<string>)
    ensures Tokens(protos) == SplitWhitespace(Join(protos, ' '))
    decreases |protos|
  {
    if |protos| == 1 {
      assert Tokens(protos) == SplitWhitespace(protos[0]) + Tokens([]);
    } else if |protos| > 1 {
      TokensOfJoin(protos[1..]);
      assert Join(protos, ' ') == protos[0] + " " + Join(protos[1..], ' ');
      SplitWhitespaceAppend(protos[0], Join(protos[1..], ' '));
    }
  }

  /** One entry as `parse_protocols_with_duplicates` reads it: the name
      before the first '=' (any text, not only a known protocol) and the
      versions after it; None for an entry it skips, one without '=' or
      whose versions do not parse. */
  function VoteEntry(token: string): (r: Option<(string, seq<nat>)>)
    ensures '=' !in token ==> r.None?
    ensures r.Some? ==>
      '=' !in r.value.0 && exists vers :: token == r.value.0 + "=" + vers && Versions(vers) == Ok(r.value.1)
  {
    match SplitOnce(token, '=')
    case (_, None) => None
    case (name, Some(vers)) =>
      match Versions(vers)
      case Err(_) => None
      case Ok(vs) =>
        assert token == name + "=" + vers;
        Some((name, vs))
  }

  /** An entry "name=vers" is kept exactly when its versions parse. */
  lemma VoteEntryOf(name: string, vers: string)
    requires '=' !in name
    ensures VoteEntry(name + "=" + vers) ==
      if Versions(vers).Ok? then Some((name, Versions(vers).value)) else None
  {
    assert name + "=" + vers == name + ['='] + vers;
    SplitOnceAt(name, '=', vers);
  }

  /** One round of the loop: a new name starts a list, a repeated name has
      its list extended. */
  function AddEntry(m: map<string, seq<nat>>, entry: Option<(string, seq<nat>)>): map<string, seq<nat>>
  {
    match entry
    case None => m
    case Some((name, vers)) => if name in m then m[name := m[name] + vers] else m[name := vers]
  }

  /** The entries of a list of tokens, as `parse_protocols_with_duplicates`
      reads them. */
  function VoteEntries(tokens: seq<string>): (r: seq<Option<(string, seq<nat>)>>)
    ensures |r| == |tokens|
    ensures forall i :: 0 <= i < |tokens| ==> r[i] == VoteEntry(tokens[i])
  {
    seq(|tokens|, i requires 0 <= i < |tokens| => VoteEntry(tokens[i]))
  }

  /** The map `parse_protocols_with_duplicates` builds from the entries it
      read, in order. */
  function Pool(entries: seq<Option<(string, seq<nat>)>>): map<string, seq<nat>>
    decreases |entries|
  {
    if entries == [] then map[]
    else AddEntry(Pool(entries[..|entries| - 1]), entries[|entries| - 1])
  }

  function Tally(tokens: seq<string>): map<string, seq<nat>>
  {
    Pool(VoteEntries(tokens))
  }

  /** Some kept entry names `name`. */
  ghost predicate Named(entries: seq<Option<(string, seq<nat>)>>, name: string)
  {
    exists i :: 0 <= i < |entries| && entries[i].Some? && entries[i].value.0 == name
  }

  /** The versions the kept entries naming `name` list, in entry order,
      repeats included. */
  function ListedFor(entries: seq<Option<(string, seq<nat>)>>, name: string): seq<nat>
    decreases |entries|
  {
    if entries == [] then []
    else
      var last := entries[|entries| - 1];
      ListedFor(entries[..|entries| - 1], name) +
        (if last.Some? && last.value.0 == name then last.value.1 else [])
  }

  /** The pool has a key for each name some kept entry uses, and under it
      every version those entries list, in order and with repeats. */
  lemma {:induction false} PoolByName(entries: seq<Option<(string, seq<nat>)>>)
    ensures forall name :: name in Pool(entries) <==> Named(entries, name)
    ensures forall name :: name in Pool(entries) ==> Pool(entries)[name] == ListedFor(entries, name)
    decreases |entries|
  {
    if entries != [] {
      var init := entries[..|entries| - 1];
      var last := entries[|entries| - 1];
      PoolByName(init);
      assert Pool(entries) == AddEntry(Pool(init), last);
      forall name ensures name in Pool(entries) <==> Named(entries, name) {
        NamedSnoc(entries, name);
      }
      forall name | name in Pool(entries) ensures Pool(entries)[name] == ListedFor(entries, name) {
        assert ListedFor(entries, name) ==
          ListedFor(init, name) + (if last.Some? && last.value.0 == name then last.value.1 else []);
        if name !in Pool(init) {
          ListedForUnnamed(init, name);
        }
      }
    }
  }

  /** A name is used by some kept entry exactly when it is used by one
      before the last or by the last. */
  lemma NamedSnoc(entries: seq<Option<(string, seq<nat>)>>, name: string)
    requires entries != []
    ensures var last := entries[|entries| - 1];
      Named(entries, name) <==>
      (Named(entries[..|entries| - 1], name) || (last.Some? && last.value.0 == name))
  {
    var init := entries[..|entries| - 1];
    if Named(init, name) {
      var i :| 0 <= i < |init| && init[i].Some? && init[i].value.0 == name;
      assert entries[i] == init[i];
    }
  }

  /** No kept entry names `name`: nothing is listed for it. */
  lemma {:induction false} ListedForUnnamed(entries: seq<Option<(string, seq<nat>)>>, name: string)
    requires !Named(entries, name)
    ensures ListedFor(entries, name) == []
    decreases |entries|
  {
    if entries != [] {
      NamedSnoc(entries, name);
      ListedForUnnamed(entries[..|entries| - 1], name);
    }
  }

  /** The tally of a list of tokens, by name: the names of the kept
      entries, each with every version its entries list. */
  lemma TallyByName(tokens: seq<string>)
    ensures forall name :: name in Tally(tokens) <==>
      exists i :: 0 <= i < |tokens| && VoteEntry(tokens[i]).Some? && VoteEntry(tokens[i]).value.0 == name
    ensures forall name :: name in Tally(tokens) ==> Tally(tokens)[name] == ListedFor(VoteEntries(tokens), name)
  {
    var entries := VoteEntries(tokens);
    PoolByName(entries);
    forall name ensures Named(entries, name) <==>
      exists i :: 0 <= i < |tokens| && VoteEntry(tokens[i]).Some? && VoteEntry(tokens[i]).value.0 == name
    {
      if Named(entries, name) {
        var i :| 0 <= i < |entries| && entries[i].Some? && entries[i].value.0 == name;
        assert VoteEntry(tokens[i]) == entries[i];
      }
    }
  }

  /** `parse_protocols_with_duplicates`: pools the entries of all votes,
      skipping malformed ones, into one list of versions per name. */
  method ParseProtocolsWithDuplicates(protocols: seq<string>) returns (r: Result<map<string, seq<nat>>>)
    ensures r == Ok(Tally(Tokens(protocols)))
  {
    var unified := Tokens(protocols);
    ghost var entries := VoteEntries(unified);
    var uniques: map<string, seq<nat>> := map[];
    var i := 0;
    while i < |unified|
      invariant 0 <= i <= |unified|
      invariant uniques == Pool(entries[..i])
    {
      assert entries[..i + 1][..i] == entries[..i];
      assert Pool(entries[..i + 1]) == AddEntry(uniques, VoteEntry(unified[i]));
      var (proto, rest) := SplitOnce(unified[i], '=');
      if rest.Some? {
        var vers := GetVersions(rest.value);
        if vers.Ok? {
          if proto in uniques {
            uniques := uniques[proto := uniques[proto] + vers.value];
          } else {
            uniques := uniques[proto := vers.value];
          }
        }
      }
      i := i + 1;
    }
    assert entries[..i] == entries;
    return Ok(uniques);
  }

  /** `versions.iter().filter(|&y| *version == *y).count()`: how often `v`
      occurs. */
  function Count(vs: seq<nat>, v: nat): (n: nat)
    ensures n == multiset(vs)[v]
    ensures n <= |vs|
  {
    if vs == [] then 0
    else
      assert vs == [vs[0]] + vs[1..];
      (if vs[0] == v then 1 else 0) + Count(vs[1..], v)
  }

  /** Number of values of a 64-bit `usize`. */
  const USIZE_LIMIT: nat := 0x1_0000_0000_0000_0000

  /** `threshold as usize` for an `i32` threshold on a 64-bit target: a
      negative threshold wraps to a huge bound. */
  function UsizeOf(threshold: int): (u: nat)
    requires -0x8000_0000 <= threshold < 0x8000_0000
  {
    if threshold >= 0 then threshold else USIZE_LIMIT + threshold
  }

  /** The versions `compute_vote` keeps for one protocol. */
  function Survivors(vs: seq<nat>, bound: nat): (S: set<nat>)
  {
    set v | v in vs && Count(vs, v) >= bound
  }

  /** The versions a list names, as a set. */
  function Elements(vs: seq<nat>): set<nat>
  {
    set v | v in vs
  }

  /** A threshold of 0 or 1 keeps every version listed. */
  lemma LowThresholdKeepsAll(vs: seq<nat>, threshold: int)
    requires 0 <= threshold <= 1
    ensures Survivors(vs, UsizeOf(threshold)) == Elements(vs)
    ensures Survivors(vs, UsizeOf(threshold)) != {} <==> vs != []
  {
    forall v | v in vs ensures Count(vs, v) >= 1 {
      assert multiset(vs)[v] > 0;
    }
    if vs != [] {
      assert vs[0] in Survivors(vs, UsizeOf(threshold));
    }
  }

  /** A negative threshold wraps to a bound no count reaches, so nothing
      is kept (for lists shorter than the wrapped bound, which every list
      held in memory is). */
  lemma NegativeThresholdKeepsNone(vs: seq<nat>, threshold: int)
    requires -0x8000_0000 <= threshold < 0
    requires |vs| < USIZE_LIMIT - 0x8000_0000
    ensures Survivors(vs, UsizeOf(threshold)) == {}
  {
  }

  /** The loop over one protocol's versions in `compute_vote`: a version
      not yet kept is kept when it is counted often enough. */
  method MeetsThreshold(versions: seq<nat>, bound: nat) returns (meets: set<nat>)
    ensures meets == Survivors(versions, bound)
  {
    meets := {};
    for i := 0 to |versions|
      invariant forall v :: v in meets <==> v in versions[..i] && Count(versions, v) >= bound
    {
      assert versions[..i + 1] == versions[..i] + [versions[i]];
      var version := versions[i];
      if version !in meets {
        if Count(versions, version) >= bound {
          meets := meets + {version};
        }
      }
    }
    assert versions[..|versions|] == versions;
  }

  /** What the vote says about one protocol's pooled versions: the
      contracted list of the versions that survive. */
  ghost function Contracted(vs: seq<nat>, bound: nat): string
  {
    ContractText(Ascending(Survivors(vs, bound)))
  }

  /** The contracted list for every pooled protocol. */
  ghost function Verdicts(tally: map<string, seq<nat>>, bound: nat): map<string, string>
  {
    map k | k in tally :: Contracted(tally[k], bound)
  }

  /** The entries among `done` whose contracted list is not empty: what
      `final_output` holds once the protocols in `done` have been seen. */
  function NonEmpty(verdicts: map<string, string>, done: set<string>): map<string, string>
  {
    map k | k in done && k in verdicts && verdicts[k] != "" :: verdicts[k]
  }

  /** The vote before it is written out. */
  ghost function VoteMap(tally: map<string, seq<nat>>, bound: nat): map<string, string>
  {
    NonEmpty(Verdicts(tally, bound), tally.Keys)
  }

  /** Seeing one more protocol adds its entry when its list is not
      empty. */
  lemma NonEmptyStep(verdicts: map<string, string>, done: set<string>, k: string,
                     output: map<string, string>, contracted: string)
    requires k in verdicts && k !in done && contracted == verdicts[k]
    requires output == NonEmpty(verdicts, done)
    ensures NonEmpty(verdicts, done + {k}) == if contracted != "" then output[k := contracted] else output
  {
  }

  /** The vote keeps exactly the protocols with a surviving version, each
      with the contracted list of its survivors. */
  lemma VoteMapKeeps(tally: map<string, seq<nat>>, bound: nat)
    ensures forall k :: k in VoteMap(tally, bound) <==> k in tally && Survivors(tally[k], bound) != {}
    ensures forall k :: k in VoteMap(tally, bound) ==>
      VoteMap(tally, bound)[k] == ContractText(Ascending(Survivors(tally[k], bound)))
  {
    forall k | k in tally {
      ContractNothing(Survivors(tally[k], bound));
    }
  }

  /** A set contracts to the empty text exactly when it is empty. */
  lemma ContractNothing(S: set<nat>)
    ensures ContractText(Ascending(S)) == "" <==> S == {}
  {
    if S != {} {
      var x :| x in S;
      assert x in Ascending(S);
    }
  }

  /** The names in a vote written out in order, without repeats. */
  predicate KeysAscending(keys: seq<string>)
  {
    forall i, j :: 0 <= i < j < |keys| ==> LexLess(keys[i], keys[j])
  }

  predicate Distinct(keys: seq<string>)
  {
    forall i, j :: 0 <= i < j < |keys| ==> keys[i] != keys[j]
  }

  /** Insertion of one name into a sorted list of names. */
  function InsertKey(k: string, keys: seq<string>): (r: seq<string>)
    ensures |r| == |keys| + 1
    ensures forall x :: x in r <==> x == k || x in keys
  {
    if keys == [] then [k]
    else if LexLess(k, keys[0]) then [k] + keys
    else [keys[0]] + InsertKey(k, keys[1..])
  }

  lemma {:induction false} InsertKeyAscending(k: string, keys: seq<string>)
    requires KeysAscending(keys) && k !in keys
    ensures KeysAscending(InsertKey(k, keys))
    decreases |keys|
  {
    if keys != [] {
      if LexLess(k, keys[0]) {
        forall j | 0 < j < |keys| + 1 ensures LexLess(k, ([k] + keys)[j]) {
          if j > 1 {
            LexLessTransitive(k, keys[0], keys[j - 1]);
          }
        }
      } else {
        LexLessTotal(k, keys[0]);
        assert k !in keys[1..] && KeysAscending(keys[1..]);
        InsertKeyAscending(k, keys[1..]);
        var r := InsertKey(k, keys);
        assert r == [keys[0]] + InsertKey(k, keys[1..]);
        forall j | 0 < j < |r| ensures LexLess(keys[0], r[j]) {
          assert r[j] in InsertKey(k, keys[1..]);
          if r[j] != k {
            var m :| 0 <= m < |keys[1..]| && keys[1..][m] == r[j];
            assert keys[m + 1] == r[j];
          }
        }
      }
    }
  }

  /** `keys.sort()` on names that are all different. */
  function SortKeys(keys: seq<string>): (r: seq<string>)
    ensures |r| == |keys|
    ensures forall x :: x in r <==> x in keys
  {
    if keys == [] then [] else InsertKey(keys[0], SortKeys(keys[1..]))
  }

  lemma {:induction false} SortKeysAscending(keys: seq<string>)
    requires Distinct(keys)
    ensures KeysAscending(SortKeys(keys))
    decreases |keys|
  {
    if keys != [] {
      assert Distinct(keys[1..]);
      SortKeysAscending(keys[1..]);
      assert keys[0] !in keys[1..];
      InsertKeyAscending(keys[0], SortKeys(keys[1..]));
    }
  }

  /** Two ascending lists of the same names are the same list. */
  lemma {:induction false} KeysUnique(a: seq<string>, b: seq<string>)
    requires KeysAscending(a) && KeysAscending(b)
    requires forall x :: x in a <==> x in b
    ensures a == b
    decreases |a|
  {
    if a != [] {
      assert a[0] in a;
    }
    if b != [] {
      assert b[0] in b;
    }
    if a != [] && b != [] {
      if a[0] != b[0] {
        assert b[0] in a;
        assert a[0] in b;
        var i :| 0 <= i < |a| && a[i] == b[0];
        var j :| 0 <= j < |b| && b[j] == a[0];
        LexLessTransitive(a[0], b[0], a[0]);
        LexLessIrreflexive(a[0]);
        assert false;
      }
      forall x ensures x in a[1..] <==> x in b[1..] {
        if x in a[1..] {
          var i :| 1 <= i < |a| && a[i] == x;
          assert LexLess(a[0], x);
          LexLessIrreflexive(x);
          assert x in b;
        }
        if x in b[1..] {
          var j :| 1 <= j < |b| && b[j] == x;
          assert LexLess(b[0], x);
          LexLessIrreflexive(x);
          assert x in a;
        }
      }
      KeysUnique(a[1..], b[1..]);
    }
  }

  /** The names of a set in some order, each once. */
  ghost function Enumerate(S: set<string>): (r: seq<string>)
    ensures Distinct(r)
    ensures forall x :: x in r <==> x in S
    decreases |S|
  {
    if S == {} then []
    else
      var x :| x in S;
      [x] + Enumerate(S - {x})
  }

  /** The names of a vote in the order `write_vote_to_string` writes
      them. */
  ghost function KeysInOrder(vote: map<string, string>): (keys: seq<string>)
    ensures KeysAscending(keys)
    ensures forall x :: x in keys <==> x in vote
  {
    SortKeysAscending(Enumerate(vote.Keys));
    SortKeys(Enumerate(vote.Keys))
  }

  /** "name=versions" for each of `keys`. */
  function Entries(vote: map<string, string>, keys: seq<string>): (r: seq<string>)
    requires forall k :: k in keys ==> k in vote
    ensures |r| == |keys|
  {
    seq(|keys|, i requires 0 <= i < |keys| => keys[i] + "=" + vote[keys[i]])
  }

  /** One more name adds its entry at the end. */
  lemma EntriesSnoc(vote: map<string, string>, keys: seq<string>, i: nat)
    requires i < |keys| && forall k :: k in keys ==> k in vote
    ensures Entries(vote, keys[..i + 1]) == Entries(vote, keys[..i]) + [keys[i] + "=" + vote[keys[i]]]
  {
    var prefix, longer := keys[..i], keys[..i + 1];
    assert forall j :: 0 <= j < i ==> longer[j] == prefix[j];
  }

  /** The text `write_vote_to_string` produces. */
  ghost function VoteText(vote: map<string, string>): string
  {
    Join(Entries(vote, KeysInOrder(vote)), ' ')
  }

  /** The vote's names gathered from the map, each once, in an order the
      map does not promise. */
  method CollectKeys(vote: map<string, string>) returns (keys: seq<string>)
    ensures Distinct(keys)
    ensures forall x :: x in keys <==> x in vote
  {
    var rest := vote.Keys;
    keys := [];
    while rest != {}
      invariant rest <= vote.Keys
      invariant Distinct(keys)
      invariant forall x :: x in keys <==> x in vote && x !in rest
      decreases |rest|
    {
      var k :| k in rest;
      keys := keys + [k];
      rest := rest - {k};
    }
  }

  /** `write_vote_to_string`: the entries "name=versions", names in
      ascending order, separated by single spaces. */
  method WriteVoteToString(vote: map<string, string>) returns (r: string)
    ensures r == VoteText(vote)
  {
    var collected := CollectKeys(vote);
    var keys := SortKeys(collected);
    SortKeysAscending(collected);
    KeysUnique(keys, KeysInOrder(vote));
    var output: seq<string> := [];
    for i := 0 to |keys|
      invariant output == Entries(vote, keys[..i])
    {
      EntriesSnoc(vote, keys, i);
      output := output + [keys[i] + "=" + vote[keys[i]]];
    }
    assert keys[..|keys|] == keys;
    r := Join(output, ' ');
  }

  /** Reading the written vote back: one entry per name, in ascending
      order of names, each splitting at its first '=' into the name and
      its versions. */
  lemma VoteTextReadsBack(vote: map<string, string>)
    requires forall k :: k in vote ==> '=' !in k && (forall j :: 0 <= j < |k| ==> !IsWhitespace(k[j]))
    requires forall k :: k in vote ==> IsToken(vote[k])
    ensures var entries := SplitWhitespace(VoteText(vote));
      var keys := KeysInOrder(vote);
      && |entries| == |vote|
      && |keys| == |vote|
      && forall i :: 0 <= i < |entries| ==> SplitOnce(entries[i], '=') == (keys[i], Some(vote[keys[i]]))
  {
    var keys := KeysInOrder(vote);
    KeysCount(vote, keys);
    EntriesReadBack(vote, keys);
  }

  lemma EntriesReadBack(vote: map<string, string>, keys: seq<string>)
    requires forall k :: k in keys ==> k in vote
    requires forall k :: k in vote ==> '=' !in k && (forall j :: 0 <= j < |k| ==> !IsWhitespace(k[j]))
    requires forall k :: k in vote ==> IsToken(vote[k])
    ensures SplitWhitespace(Join(Entries(vote, keys), ' ')) == Entries(vote, keys)
    ensures forall i :: 0 <= i < |keys| ==> SplitOnce(Entries(vote, keys)[i], '=') == (keys[i], Some(vote[keys[i]]))
  {
    var entries := Entries(vote, keys);
    forall i | 0 <= i < |entries|
      ensures IsToken(entries[i]) && SplitOnce(entries[i], '=') == (keys[i], Some(vote[keys[i]]))
    {
      var k := keys[i];
      assert k in vote;
      assert entries[i] == k + ['='] + vote[k];
      SplitOnceAt(k, '=', vote[k]);
    }
    SplitWhitespaceJoin(entries);
  }

  /** A list of distinct names, one per key of the map, has the map's size. */
  lemma KeysCount(vote: map<string, string>, keys: seq<string>)
    requires KeysAscending(keys)
    requires forall x :: x in keys <==> x in vote
    ensures |keys| == |vote|
  {
    assert Distinct(keys) by {
      forall i, j | 0 <= i < j < |keys| ensures keys[i] != keys[j] {
        LexLessIrreflexive(keys[i]);
      }
    }
    DistinctSize(keys, vote.Keys);
  }

  lemma {:induction false} DistinctSize(keys: seq<string>, S: set<string>)
    requires Distinct(keys)
    requires forall x :: x in keys <==> x in S
    ensures |keys| == |S|
    decreases |keys|
  {
    if keys != [] {
      var rest := keys[1..];
      assert Distinct(rest);
      assert forall x :: x in rest <==> x in S - {keys[0]} by {
        forall x ensures x in rest <==> x in S - {keys[0]} {
          if x in rest {
            var j :| 0 <= j < |rest| && rest[j] == x;
            assert keys[j + 1] == x;
          }
          if x in S - {keys[0]} {
            assert x in keys;
            var j :| 0 <= j < |keys| && keys[j] == x;
            assert rest[j - 1] == x;
          }
        }
      }
      DistinctSize(rest, S - {keys[0]});
    } else {
      assert forall x :: x !in S;
      assert S == {};
    }
  }

  /** `compute_vote`: nothing for no votes; otherwise every protocol with
      a version listed at least `threshold` times, written out. */
  ghost function Vote(protos: seq<string>, threshold: int): string
    requires -0x8000_0000 <= threshold < 0x8000_0000
  {
    if protos == [] then ""
    else VoteText(VoteMap(Tally(Tokens(protos)), UsizeOf(threshold)))
  }

  /** With a positive bound, the survivors are the versions that occur at
      least `bound` times. */
  lemma SurvivorsCount(vs: seq<nat>, bound: nat)
    requires bound > 0
    ensures forall v :: v in Survivors(vs, bound) <==> multiset(vs)[v] >= bound
  {
  }

  /** Which names the vote keeps: those for which some version occurs, among
      all kept entries for the name (across votes and within each), at least
      `bound` times; each with the contracted list of those versions. */
  lemma VoteCountsOccurrences(tokens: seq<string>, name: string, bound: nat)
    requires bound > 0
    ensures name in VoteMap(Tally(tokens), bound) <==>
      exists v :: multiset(ListedFor(VoteEntries(tokens), name))[v] >= bound
    ensures name in VoteMap(Tally(tokens), bound) ==>
      VoteMap(Tally(tokens), bound)[name] == ContractText(Ascending(Survivors(ListedFor(VoteEntries(tokens), name), bound)))
  {
    var tally := Tally(tokens);
    var listed := ListedFor(VoteEntries(tokens), name);
    TallyByName(tokens);
    VoteMapKeeps(tally, bound);
    SurvivorsCount(listed, bound);
    if name !in tally {
      PoolByName(VoteEntries(tokens));
      ListedForUnnamed(VoteEntries(tokens), name);
      assert listed == [];
    } else {
      assert tally[name] == listed;
    }
  }

  /** An empty vote is written as the empty text. */
  lemma VoteTextEmpty()
    ensures VoteText(map[]) == ""
  {
    KeysCount(map[], KeysInOrder(map[]));
  }

  /** A negative threshold votes for nothing (as long as no protocol is
      listed anywhere near 2^64 times). */
  lemma NegativeThresholdVotesNothing(protos: seq<string>, threshold: int)
    requires -0x8000_0000 <= threshold < 0
    requires forall k :: k in Tally(Tokens(protos)) ==> |Tally(Tokens(protos))[k]| < USIZE_LIMIT - 0x8000_0000
    ensures Vote(protos, threshold) == ""
  {
    if protos != [] {
      var tally := Tally(Tokens(protos));
      var bound := UsizeOf(threshold);
      VoteMapKeeps(tally, bound);
      forall k | k in tally ensures Survivors(tally[k], bound) == {} {
        NegativeThresholdKeepsNone(tally[k], threshold);
      }
      assert VoteMap(tally, bound) == map[];
      VoteTextEmpty();
    }
  }

  /** A threshold of 0 or 1 votes for every version some vote lists: each
      pooled protocol with at least one version, with all of them. */
  lemma LowThresholdVotesAll(tally: map<string, seq<nat>>, threshold: int)
    requires 0 <= threshold <= 1
    ensures forall k :: k in VoteMap(tally, UsizeOf(threshold)) <==> k in tally && tally[k] != []
    ensures forall k :: k in VoteMap(tally, UsizeOf(threshold)) ==>
      VoteMap(tally, UsizeOf(threshold))[k] == ContractText(Ascending(Elements(tally[k])))
  {
    var bound := UsizeOf(threshold);
    VoteMapKeeps(tally, bound);
    forall k | k in tally
      ensures Survivors(tally[k], bound) == Elements(tally[k])
      ensures Survivors(tally[k], bound) != {} <==> tally[k] != []
    {
      LowThresholdKeepsAll(tally[k], threshold);
    }
  }

  /** `compute_vote`: pools the votes, keeps for each protocol the
      versions that meet the threshold, contracts them, drops protocols
      left with none, and writes the result. */
  method ComputeVote(protos: seq<string>, threshold: int) returns (r: string)
    requires -0x8000_0000 <= threshold < 0x8000_0000
    ensures protos == [] ==> r == ""
    ensures r == Vote(protos, threshold)
  {
    if protos == [] {
      return "";
    }
    var parsed := ParseProtocolsWithDuplicates(protos);
    var protocols := parsed.value;
    var finalOutput := SelectVersions(protocols, UsizeOf(threshold));
    r := WriteVoteToString(finalOutput);
  }

  /** The loop of `compute_vote` over the pooled protocols, taken in
      whatever order the map yields them. */
  method SelectVersions(protocols: map<string, seq<nat>>, bound: nat) returns (finalOutput: map<string, string>)
    ensures finalOutput == VoteMap(protocols, bound)
  {
    ghost var verdicts := Verdicts(protocols, bound);
    ghost var done: set<string> := {};
    finalOutput := map[];
    var remaining := protocols.Keys;
    while remaining != {}
      invariant remaining <= protocols.Keys && done !! remaining
      invariant forall k :: k in protocols ==> k in done || k in remaining
      invariant finalOutput == NonEmpty(verdicts, done)
      decreases |remaining|
    {
      var protocol :| protocol in remaining;
      var meetsThreshold := MeetsThreshold(protocols[protocol], bound);
      var contracted := ContractProtocolList(meetsThreshold);
      assert contracted == verdicts[protocol];
      NonEmptyStep(verdicts, done, protocol, finalOutput, contracted);
      if contracted != "" {
        finalOutput := finalOutput[protocol := contracted];
      }
      done := done + {protocol};
      remaining := remaining - {protocol};
    }
    assert done >= protocols.Keys;
    assert NonEmpty(verdicts, done) == NonEmpty(verdicts, protocols.Keys);
  }

  /** The example in the documentation of `compute_vote`, for any
      protocol name: of "name=3-4" and "name=3", with threshold 2, only
      version 3 is kept. */
  lemma ComputeVoteExample(name: string)
    requires IsToken(name) && '=' !in name
    ensures Vote([name + "=" + "3-4", name + "=" + "3"], 2) == name + "=" + "3"
  {
    var pooled := map[name := [3, 4] + [3]];
    ExampleTally(name);
    ExampleSurvivors([3, 4] + [3]);
    ContractThree();
    ExampleVoteMap(name, [3, 4] + [3]);
    ExampleText(name);
    VoteByStages([name + "=" + "3-4", name + "=" + "3"], 2, pooled, map[name := "3"], name + "=" + "3");
  }

  /** The vote, stage by stage. */
  lemma VoteByStages(protos: seq<string>, threshold: int, pooled: map<string, seq<nat>>,
                     decided: map<string, string>, text: string)
    requires -0x8000_0000 <= threshold < 0x8000_0000
    requires protos != [] && Tally(Tokens(protos)) == pooled
    requires VoteMap(pooled, UsizeOf(threshold)) == decided && VoteText(decided) == text
    ensures Vote(protos, threshold) == text
  {
  }

  lemma ExampleTally(name: string)
    requires IsToken(name) && '=' !in name
    ensures Tally(Tokens([name + "=" + "3-4", name + "=" + "3"])) == map[name := [3, 4] + [3]]
  {
    ExampleTokens(name);
    ExampleEntry(name, "3-4", [3, 4]);
    ExampleEntry(name, "3", [3]);
    TallyOfTwo(Tokens([name + "=" + "3-4", name + "=" + "3"]), name + "=" + "3-4", name + "=" + "3", name, [3, 4], [3]);
  }

  /** Two kept entries for the same name pool into one list. */
  lemma TallyOfTwo(tokens: seq<string>, a: string, b: string, name: string, first: seq<nat>, second: seq<nat>)
    requires tokens == [a, b]
    requires VoteEntry(a) == Some((name, first)) && VoteEntry(b) == Some((name, second))
    ensures Tally(tokens) == map[name := first + second]
  {
    EntriesTwo(a, b);
    PoolTwo(name, first, second);
  }

  lemma ExampleTokens(name: string)
    requires IsToken(name)
    ensures Tokens([name + "=" + "3-4", name + "=" + "3"]) == [name + "=" + "3-4", name + "=" + "3"]
  {
    var a, b := name + "=" + "3-4", name + "=" + "3";
    assert IsToken(a) && IsToken(b);
    SplitWhitespaceJoin([a]);
    SplitWhitespaceJoin([b]);
    assert Tokens([a, b]) == SplitWhitespace(a) + Tokens([b]);
    assert Tokens([b]) == SplitWhitespace(b) + Tokens([]);
  }

  lemma ExampleEntry(name: string, vers: string, vs: seq<nat>)
    requires '=' !in name
    requires (vers == "3-4" && vs == [3, 4]) || (vers == "3" && vs == [3])
    ensures VoteEntry(name + "=" + vers) == Some((name, vs))
  {
    if vers == "3-4" {
      VersionsOfThreeToFour();
    } else {
      VersionsOfNumber(3);
      assert ToDecimal(3) == "3";
    }
    VoteEntryOf(name, vers);
  }

  lemma EntriesTwo(a: string, b: string)
    ensures VoteEntries([a, b]) == [VoteEntry(a), VoteEntry(b)]
  {
  }

  lemma PoolTwo(name: string, first: seq<nat>, second: seq<nat>)
    ensures Pool([Some((name, first)), Some((name, second))]) == map[name := first + second]
  {
    var entries := [Some((name, first)), Some((name, second))];
    var head := entries[..1];
    assert Pool(head) == map[name := first] by {
      assert head[..|head| - 1] == [];
    }
  }

  lemma ExampleVoteMap(name: string, vs: seq<nat>)
    requires Survivors(vs, 2) == {3}
    requires ContractText(Ascending({3})) == "3"
    ensures VoteMap(map[name := vs], UsizeOf(2)) == map[name := "3"]
  {
    assert UsizeOf(2) == 2;
    VoteMapSingle(name, vs, 2);
  }

  /** A tally of one protocol whose versions survive votes exactly that
      protocol, with its survivors contracted. */
  lemma VoteMapSingle(name: string, vs: seq<nat>, bound: nat)
    requires Survivors(vs, bound) != {}
    ensures VoteMap(map[name := vs], bound) == map[name := ContractText(Ascending(Survivors(vs, bound)))]
  {
    ContractNothing(Survivors(vs, bound));
    VerdictsSingle(name, vs, bound);
    NonEmptySingle(name, Contracted(vs, bound));
  }

  lemma VerdictsSingle(name: string, vs: seq<nat>, bound: nat)
    ensures VoteMap(map[name := vs], bound) == NonEmpty(map[name := Contracted(vs, bound)], {name})
  {
    var tally := map[name := vs];
    assert tally.Keys == {name};
    assert Verdicts(tally, bound) == map[name := Contracted(vs, bound)];
  }

  lemma NonEmptySingle(name: string, verdict: string)
    requires verdict != ""
    ensures NonEmpty(map[name := verdict], {name}) == map[name := verdict]
  {
  }

  lemma ExampleSurvivors(vs: seq<nat>)
    requires vs == [3, 4, 3]
    ensures Survivors(vs, 2) == {3}
  {
    assert Count(vs, 3) == 2;
    assert Count(vs, 4) == 1;
  }

  lemma ContractThree()
    ensures ContractText(Ascending({3})) == "3"
  {
    AscendingUnique({3}, [3]);
    assert ToDecimal(3) == "3";
    assert Spans([3]) == ["3"];
  }

  lemma ExampleText(name: string)
    ensures VoteText(map[name := "3"]) == name + "=" + "3"
  {
    var vote := map[name := "3"];
    var keys := KeysInOrder(vote);
    KeysUnique(keys, [name]);
    assert Entries(vote, [name]) == [name + "=" + "3"];
  }

  /** Occurrences are counted, not reporters: one vote that lists version
      3 twice meets a threshold of 2 on its own. */
  lemma SameReportCountsTwice(name: string)
    requires IsToken(name) && '=' !in name
    ensures Vote([(name + "=" + "3") + " " + (name + "=" + "3")], 2) == name + "=" + "3"
  {
    var entry := name + "=" + "3";
    var pooled := map[name := [3] + [3]];
    RepeatedTally(name, entry);
    ExampleSurvivorsTwice([3] + [3]);
    ContractThree();
    ExampleVoteMap(name, [3] + [3]);
    ExampleText(name);
    VoteByStages([entry + " " + entry], 2, pooled, map[name := "3"], entry);
  }

  lemma RepeatedTally(name: string, entry: string)
    requires IsToken(name) && '=' !in name && entry == name + "=" + "3"
    ensures Tally(Tokens([entry + " " + entry])) == map[name := [3] + [3]]
  {
    assert IsToken(entry);
    SplitWhitespaceJoin([entry]);
    SplitWhitespaceAppend(entry, entry);
    assert Tokens([entry + " " + entry]) == SplitWhitespace(entry + " " + entry) + Tokens([]);
    ExampleEntry(name, "3", [3]);
    TallyOfTwo(Tokens([entry + " " + entry]), entry, entry, name, [3], [3]);
  }

  lemma ExampleSurvivorsTwice(vs: seq<nat>)
    requires vs == [3, 3]
    ensures Survivors(vs, 2) == {3}
  {
    assert Count(vs, 3) == 2;
  }
}
