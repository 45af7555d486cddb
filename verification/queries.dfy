/** Questions asked of protocol lists: whether every entry of a list is one
    this Tor supports (`contains_only_ssupported_protocols`, `all_supported`),
    whether a list names a given protocol version
    (`protover_string_supports_protocol`) and whether this Tor supports one
    (`is_supported_here`). */
module Queries {
  import opened Wrappers
  import opened Strings
  import opened Decimal
  import opened VersionList
  import opened VersionCap
  import opened Protocols

  /** The outcome of code that indexes a `HashMap` with `map[&key]`: a value,
      or a panic when the key is missing. */
  datatype Outcome<+T> = Value(value: T) | Panic

  /** `vers.retain(|x| !have.contains(x))`: the versions not in `have`, in
      their original order. */
  function Unsupported(vers: seq<nat>, have: seq<nat>): (r: seq<nat>)
    ensures forall x :: x in r <==> x in vers && x !in have
    ensures |r| <= |vers|
  {
    if vers == [] then []
    else if vers[0] in have then Unsupported(vers[1..], have)
    else [vers[0]] + Unsupported(vers[1..], have)
  }

  /** An entry this Tor supports: it parses, and each version it lists is
      one supported here for its protocol. */
  predicate EntrySupported(entry: string)
  {
    match GetProtoAndVers(entry)
    case Err(_) => false
    case Ok((p, vers)) => forall v :: v in vers ==> v in SupportedVersions(p)
  }

  /** `contains_only_ssupported_protocols`. */
  method ContainsOnlySupported(entry: string) returns (r: bool)
    ensures r == EntrySupported(entry)
  {
    var parsed := GetProtoAndVers(entry);
    if parsed.Err? {
      return false;
    }
    var (name, vers) := parsed.value;
    var currentlySupported := TorSupported();
    if currentlySupported.Err? {
      return false;
    }
    var have := currentlySupported.value[name];
    assert have == SupportedVersions(name);
    var kept := Unsupported(vers, have);
    assert kept == [] <==> forall v :: v in vers ==> v in have by {
      if kept != [] {
        assert kept[0] in kept;
      }
    }
    assert EntrySupported(entry) <==> forall v :: v in vers ==> v in SupportedVersions(name);
    r := kept == [];
  }

  /** For an entry written as "Name=versions": supported exactly when the
      version list parses and names only versions supported for that
      protocol. */
  lemma EntrySupportedOf(p: Proto, vers: string)
    ensures EntrySupported(Name(p) + "=" + vers) <==>
      Versions(vers).Ok? && forall v :: v in Versions(vers).value ==> v in SupportedVersions(p)
  {
    GetProtoAndVersOf(p, vers);
  }

  /** The entries `contains_only_ssupported_protocols` rejects, in order. */
  function UnsupportedEntries(entries: seq<string>): (r: seq<string>)
    ensures forall t :: t in r <==> t in entries && !EntrySupported(t)
    ensures |r| <= |entries|
    ensures (forall i :: 0 <= i < |entries| ==> IsToken(entries[i])) ==>
      forall i :: 0 <= i < |r| ==> IsToken(r[i])
  {
    if entries == [] then []
    else if EntrySupported(entries[0]) then UnsupportedEntries(entries[1..])
    else [entries[0]] + UnsupportedEntries(entries[1..])
  }

  /** `all_supported`: whether every whitespace-separated entry is
      supported, and the rejected entries joined by single spaces. The
      second part is empty exactly when the first is true, and splitting
      it on whitespace gives back the rejected entries. */
  method AllSupported(protocols: string) returns (isSupported: bool, unsupportedText: string)
    ensures isSupported <==> forall t :: t in SplitWhitespace(protocols) ==> EntrySupported(t)
    ensures isSupported <==> unsupportedText == ""
    ensures unsupportedText == Join(UnsupportedEntries(SplitWhitespace(protocols)), ' ')
    ensures SplitWhitespace(unsupportedText) == UnsupportedEntries(SplitWhitespace(protocols))
  {
    var entries := SplitWhitespace(protocols);
    var unsupported: seq<string> := [];
    var i := 0;
    while i < |entries|
      invariant 0 <= i <= |entries|
      invariant unsupported + UnsupportedEntries(entries[i..]) == UnsupportedEntries(entries)
    {
      var ok := ContainsOnlySupported(entries[i]);
      FilterStep(entries, i, unsupported);
      if !ok {
        unsupported := unsupported + [entries[i]];
      }
      i := i + 1;
    }
    assert entries[i..] == [];
    assert unsupported == UnsupportedEntries(entries);
    UnsupportedJoined(entries);
    isSupported := unsupported == [];
    unsupportedText := Join(unsupported, ' ');
  }

  /** The loop of `all_supported` keeps the rejected entries seen so far
      in front of those still to come. */
  lemma FilterStep(entries: seq<string>, i: nat, before: seq<string>)
    requires i < |entries|
    requires before + UnsupportedEntries(entries[i..]) == UnsupportedEntries(entries)
    ensures var kept := if EntrySupported(entries[i]) then before else before + [entries[i]];
      kept + UnsupportedEntries(entries[i + 1..]) == UnsupportedEntries(entries)
  {
    UnsupportedEntriesStep(entries, i);
    var head := if EntrySupported(entries[i]) then [] else [entries[i]];
    AppendAssociates(before, head, UnsupportedEntries(entries[i + 1..]));
    assert before + head == if EntrySupported(entries[i]) then before else before + [entries[i]];
  }

  /** The rejected tokens, joined by spaces, read back as themselves; the
      text is empty exactly when no token is rejected. */
  lemma UnsupportedJoined(entries: seq<string>)
    requires forall i :: 0 <= i < |entries| ==> IsToken(entries[i])
    ensures UnsupportedEntries(entries) == [] <==> forall t :: t in entries ==> EntrySupported(t)
    ensures UnsupportedEntries(entries) == [] <==> Join(UnsupportedEntries(entries), ' ') == ""
    ensures SplitWhitespace(Join(UnsupportedEntries(entries), ' ')) == UnsupportedEntries(entries)
  {
    var unsupported := UnsupportedEntries(entries);
    SplitWhitespaceJoin(unsupported);
    if unsupported != [] {
      JoinFirst(unsupported, ' ');
      assert unsupported[0] in unsupported;
    }
  }

  /** One step of the filter. */
  lemma UnsupportedEntriesStep(entries: seq<string>, i: nat)
    requires i < |entries|
    ensures UnsupportedEntries(entries[i..]) ==
      (if EntrySupported(entries[i]) then [] else [entries[i]]) + UnsupportedEntries(entries[i + 1..])
  {
    assert entries[i..][1..] == entries[i + 1..];
  }

  /** A joined list starts with its first piece. */
  lemma JoinFirst(pieces: seq<string>, sep: char)
    requires |pieces| >= 1
    ensures |Join(pieces, sep)| >= |pieces[0]|
    ensures Join(pieces, sep)[..|pieces[0]|] == pieces[0]
  {
  }

  /** `protover_string_supports_protocol`: false when the list does not
      parse; otherwise whether the versions the list gives the protocol
      include `vers`, and a panic when the list does not name the
      protocol at all. */
  function ProtoverStringSupportsProtocol(list: string, proto: Proto, vers: nat): (r: Outcome<bool>)
    ensures ParseProtocolsFromString(list).Err? ==> r == Value(false)
  {
    match ParseProtocolsFromString(list)
    case Err(_) => Value(false)
    case Ok(supported) =>
      if proto in supported then Value(vers in supported[proto]) else Panic
  }

  /** Every space-separated entry of the list parses. */
  predicate EntriesParse(list: string)
  {
    var results := EntryResults(Split(list, ' '));
    forall i :: 0 <= i < |results| ==> results[i].Ok?
  }

  /** When every entry of the list parses, the outcome is a panic exactly
      when no entry names the protocol ... */
  lemma SupportsProtocolPanics(list: string, proto: Proto, vers: nat)
    requires EntriesParse(list)
    ensures var results := EntryResults(Split(list, ' '));
      ProtoverStringSupportsProtocol(list, proto, vers) == Panic <==>
      forall i :: 0 <= i < |results| ==> results[i].value.0 != proto
  {
    var results := EntryResults(Split(list, ' '));
    BuildMapAllOk(results);
    BuildMapLastWins(results);
    SupportsProtocolOfMap(list, results, proto, vers);
  }

  /** The answer read off the parsed map. */
  lemma SupportsProtocolOfMap(list: string, results: seq<Result<(Proto, seq<nat>)>>, proto: Proto, vers: nat)
    requires results == EntryResults(Split(list, ' ')) && BuildMap(results).Ok?
    ensures var m := BuildMap(results).value;
      ProtoverStringSupportsProtocol(list, proto, vers) == if proto in m then Value(vers in m[proto]) else Panic
  {
    assert ParseProtocolsFromString(list) == BuildMap(results);
  }

  /** ... and otherwise decided by the last entry that names it. */
  lemma SupportsProtocolLastEntry(list: string, proto: Proto, vers: nat, k: nat)
    requires EntriesParse(list)
    requires var results := EntryResults(Split(list, ' '));
      && k < |results| && results[k].value.0 == proto
      && (forall j :: k < j < |results| ==> results[j].value.0 != proto)
    ensures var results := EntryResults(Split(list, ' '));
      ProtoverStringSupportsProtocol(list, proto, vers) == Value(vers in results[k].value.1)
  {
    var results := EntryResults(Split(list, ' '));
    BuildMapAllOk(results);
    BuildMapLastWins(results);
    SupportsProtocolOfMap(list, results, proto, vers);
  }

  /** A list whose only entry has an empty version list does not parse, so
      it supports nothing, even for the protocol it names. */
  lemma SupportsProtocolBadList(p: Proto, vers: nat)
    ensures ProtoverStringSupportsProtocol(Name(p) + "=", p, vers) == Value(false)
  {
    GetProtoAndVersOf(p, "");
    var entry := Name(p) + "=";
    assert entry == Name(p) + "=" + "";
    assert ' ' !in entry by {
      assert forall j :: 0 <= j < |Name(p)| ==> !IsWhitespace(Name(p)[j]);
    }
    assert Split(entry, ' ') == [entry];
    var results := EntryResults([entry]);
    BuildMapFirstError(results, 0);
  }

  /** The list is parsed strictly: one entry that does not parse (an
      unknown name, no '=', bad versions, or the empty entry a double space
      leaves) makes the answer false for every protocol. */
  lemma SupportsProtocolStrict(list: string, proto: Proto, vers: nat, k: nat)
    requires k < |Split(list, ' ')| && GetProtoAndVers(Split(list, ' ')[k]).Err?
    ensures ProtoverStringSupportsProtocol(list, proto, vers) == Value(false)
  {
    BuildMapAnyError(EntryResults(Split(list, ' ')), k);
  }

  /** Two entries separated by two spaces: the empty entry between them
      does not parse. */
  lemma SupportsProtocolDoubleSpace(a: string, b: string, proto: Proto, vers: nat)
    requires ' ' !in a
    ensures ProtoverStringSupportsProtocol(a + "  " + b, proto, vers) == Value(false)
  {
    var empty: string := [];
    var rest := empty + [' '] + b;
    var text := a + [' '] + rest;
    assert text == a + "  " + b;
    SplitAtFirst(a, ' ', rest);
    SplitAtFirst(empty, ' ', b);
    assert Split(text, ' ')[1] == empty;
    assert GetProtoAndVers(empty).Err?;
    SupportsProtocolStrict(text, proto, vers, 1);
  }

  /** `is_supported_here`: whether this Tor supports version `vers` of
      protocol `proto`. */
  method IsSupportedHere(proto: Proto, vers: nat) returns (r: bool)
    ensures r <==> vers in SupportedVersions(proto)
  {
    var currentlySupported := TorSupported();
    if currentlySupported.Err? {
      return false;
    }
    r := vers in currentlySupported.value[proto];
  }

  /** The unit tests of `contains_only_ssupported_protocols`: an entry
      without '=' or with an empty version list is refused. */
  lemma EntrySupportedRejectsMalformed()
    ensures !EntrySupported("")
    ensures !EntrySupported(Name(Cons) + "=")
  {
    assert GetProtoAndVers("").Err?;
    EntrySupportedOf(Cons, "");
    assert Name(Cons) + "=" == Name(Cons) + "=" + "";
  }

  /** An entry that lists a version not supported for its protocol is
      refused. */
  lemma EntryRefused(p: Proto, vers: string, v: nat)
    requires Versions(vers).Ok? && v in Versions(vers).value
    requires v !in SupportedVersions(p)
    ensures !EntrySupported(Name(p) + "=" + vers)
  {
    EntrySupportedOf(p, vers);
  }

  lemma VersionsOfZero()
    ensures Versions("0") == Ok([0])
  {
    VersionsOfNumber(0);
    assert ToDecimal(0) == "0";
  }

  lemma VersionsOfFive()
    ensures Versions("5") == Ok([5])
  {
    VersionsOfNumber(5);
    assert ToDecimal(5) == "5";
  }

  lemma VersionsOfOneToFive()
    ensures Versions("1-5").Ok? && 5 in Versions("1-5").value
  {
    RangeWithinCap(1, 5);
    OneToFiveSpelled();
    FiveInOneToFive();
  }

  lemma FiveInOneToFive()
    ensures 5 in Interval(1, 5)
  {
    assert Interval(1, 5) == [1, 2, 3, 4, 5];
  }

  lemma OneToFiveSpelled()
    ensures ToDecimal(1) + "-" + ToDecimal(5) == "1-5"
  {
    assert ToDecimal(1) == "1" && ToDecimal(5) == "5";
  }

  /** More of the unit tests of `contains_only_ssupported_protocols`, with
      the entry written as protocol name, '=' and version list. */
  lemma EntrySupportedConsOne()
    ensures EntrySupported(Name(Cons) + "=" + "1")
  {
    VersionsOfOne();
    EntrySupportedOf(Cons, "1");
  }

  lemma EntrySupportedConsOneTwo()
    ensures EntrySupported(Name(Cons) + "=" + "1,2")
  {
    VersionsOfOneTwo();
    EntrySupportedOf(Cons, "1,2");
  }

  lemma EntrySupportedConsRange()
    ensures EntrySupported(Name(Cons) + "=" + "1-2")
  {
    VersionsOfOneToTwo();
    EntrySupportedOf(Cons, "1-2");
  }

  lemma EntrySupportedConsZero()
    ensures !EntrySupported(Name(Cons) + "=" + "0")
  {
    VersionsOfZero();
    EntryRefused(Cons, "0", 0);
  }

  lemma EntrySupportedConsFive()
    ensures !EntrySupported(Name(Cons) + "=" + "5")
  {
    VersionsOfFive();
    EntryRefused(Cons, "5", 5);
  }

  lemma EntrySupportedConsRangePastTwo()
    ensures !EntrySupported(Name(Cons) + "=" + "1-5")
  {
    VersionsOfOneToFive();
    EntryRefused(Cons, "1-5", 5);
  }

  /** An inverted range names no version, so "Cons=5-3" is vacuously
      supported. */
  lemma ConsInvertedSupported()
    ensures EntrySupported(Name(Cons) + "=" + "5-3")
  {
    InvertedVersions();
    EntrySupportedOf(Cons, "5-3");
  }

  /** The examples in the documentation of `is_supported_here`. */
  lemma IsSupportedHereExamples()
    ensures 1 in SupportedVersions(Link)
    ensures 5 !in SupportedVersions(Link)
  {
  }

  /** A single token splits on whitespace into itself. */
  lemma SingleToken(t: string)
    requires IsToken(t)
    ensures SplitWhitespace(t) == [t]
  {
    SplitWhitespaceJoin([t]);
  }

  /** Filtering a single entry. */
  lemma UnsupportedSingle(e: string)
    ensures UnsupportedEntries([e]) == if EntrySupported(e) then [] else [e]
  {
  }

  /** The first example in the documentation of `all_supported`:
      "Link=1" is supported, so nothing is rejected and the rejected text
      is empty. */
  lemma AllSupportedLinkOne()
    ensures UnsupportedEntries(SplitWhitespace(Name(Link) + "=" + "1")) == []
    ensures Join(UnsupportedEntries(SplitWhitespace(Name(Link) + "=" + "1")), ' ') == ""
  {
    var entry := Name(Link) + "=" + "1";
    SingleToken(entry);
    LinkOneSupported();
    UnsupportedSingle(entry);
  }

  /** The first case of the test of `all_supported`: "Cons=1" is
      accepted with an empty text. */
  lemma AllSupportedConsOne()
    ensures UnsupportedEntries(SplitWhitespace(Name(Cons) + "=" + "1")) == []
    ensures Join(UnsupportedEntries(SplitWhitespace(Name(Cons) + "=" + "1")), ' ') == ""
  {
    var entry := Name(Cons) + "=" + "1";
    SingleToken(entry);
    EntrySupportedConsOne();
    UnsupportedSingle(entry);
  }

  lemma LinkOneSupported()
    ensures EntrySupported(Name(Link) + "=" + "1")
  {
    LinkOneParses();
    IsSupportedHereExamples();
  }

  lemma LinkOneParses()
    ensures GetProtoAndVers(Name(Link) + "=" + "1") == Ok((Link, [1]))
  {
    VersionsOfOne();
    SupportedEntry(Link, "1", [1]);
  }

  /** The second example: "Link=5-6" is refused and comes back as the
      rejected text. */
  lemma AllSupportedLinkFiveSix()
    ensures UnsupportedEntries(SplitWhitespace(Name(Link) + "=" + "5-6")) == [Name(Link) + "=" + "5-6"]
    ensures Join(UnsupportedEntries(SplitWhitespace(Name(Link) + "=" + "5-6")), ' ') == Name(Link) + "=" + "5-6"
  {
    var entry := Name(Link) + "=" + "5-6";
    SingleToken(entry);
    LinkFiveSixRefused();
    UnsupportedSingle(entry);
  }

  lemma LinkFiveSixRefused()
    ensures !EntrySupported(Name(Link) + "=" + "5-6")
  {
    LinkFiveSixParses();
    IsSupportedHereExamples();
  }

  lemma LinkFiveSixParses()
    ensures GetProtoAndVers(Name(Link) + "=" + "5-6") == Ok((Link, [5, 6]))
  {
    VersionsOfFiveToSix();
    SupportedEntry(Link, "5-6", [5, 6]);
  }

  lemma VersionsOfFiveToSix()
    ensures Versions("5-6") == Ok([5, 6])
  {
    RangeWithinCap(5, 6);
    FiveToSixSpelled();
  }

  lemma FiveToSixSpelled()
    ensures ToDecimal(5) + "-" + ToDecimal(6) == "5-6"
    ensures Interval(5, 6) == [5, 6]
  {
    assert ToDecimal(5) == "5" && ToDecimal(6) == "6";
  }

  /** The disabled unit test of `all_supported`, "Cons=1 Wombat=9", for
      any name that is not a protocol in place of "Wombat": only the entry
      with the unknown name is rejected. */
  lemma AllSupportedConsUnknown(name: string)
    requires IsToken(name) && '=' !in name
    requires forall p :: Name(p) != name
    ensures var text := (Name(Cons) + "=" + "1") + " " + (name + "=" + "9");
      && UnsupportedEntries(SplitWhitespace(text)) == [name + "=" + "9"]
      && Join(UnsupportedEntries(SplitWhitespace(text)), ' ') == name + "=" + "9"
  {
    var cons, unknown := Name(Cons) + "=" + "1", name + "=" + "9";
    TwoTokens(cons, unknown);
    EntrySupportedConsOne();
    UnknownRefused(name);
    UnsupportedPair(cons, unknown);
  }

  /** Two tokens with a space between them split back into the two. */
  lemma TwoTokens(a: string, b: string)
    requires IsToken(a) && IsToken(b)
    ensures SplitWhitespace(a + " " + b) == [a, b]
  {
    assert Join([a, b], ' ') == a + " " + b;
    SplitWhitespaceJoin([a, b]);
  }

  /** Filtering two entries, the first supported and the second not. */
  lemma UnsupportedPair(a: string, b: string)
    requires EntrySupported(a) && !EntrySupported(b)
    ensures UnsupportedEntries([a, b]) == [b]
  {
    assert [a, b][1..] == [b];
  }

  /** An entry whose name is not a protocol is refused. */
  lemma UnknownRefused(name: string)
    requires '=' !in name
    requires forall p :: Name(p) != name
    ensures !EntrySupported(name + "=" + "9")
  {
    VersionsOfNumber(9);
    assert ToDecimal(9) == "9";
    GetProtoAndVersUnknown(name, "9");
  }

  /** "Wombat", the name in that test, is not a protocol. */
  lemma WombatUnknown()
    ensures IsToken("Wombat") && '=' !in "Wombat"
    ensures forall p :: Name(p) != "Wombat"
  {
  }

  /** The example in the documentation of
      `protover_string_supports_protocol`: "Link=3-4 Cons=1" supports
      version 1 of Cons. */
  lemma SupportsProtocolExample()
    ensures ProtoverStringSupportsProtocol((Name(Link) + "=" + "3-4") + " " + (Name(Cons) + "=" + "1"), Cons, 1) == Value(true)
  {
    LinkThreeFourParses();
    ConsOneParses();
    ExampleEntriesSpaceFree();
    SupportsProtocolSecondEntry(Name(Link) + "=" + "3-4", Name(Cons) + "=" + "1", Cons, [1], 1);
  }

  lemma ExampleEntriesSpaceFree()
    ensures ' ' !in Name(Link) + "=" + "3-4" && ' ' !in Name(Cons) + "=" + "1"
  {
  }

  /** A list of two entries that both parse, asked about the protocol the
      second one names. */
  lemma SupportsProtocolSecondEntry(a: string, b: string, q: Proto, ws: seq<nat>, vers: nat)
    requires ' ' !in a && ' ' !in b
    requires GetProtoAndVers(a).Ok? && GetProtoAndVers(b) == Ok((q, ws))
    ensures ProtoverStringSupportsProtocol(a + " " + b, q, vers) == Value(vers in ws)
  {
    TwoEntryResults(a, b);
    SupportsProtocolTwoResults(a + " " + b, GetProtoAndVers(a), q, ws, vers);
  }

  /** The same, stated on the parsed entries alone. */
  lemma SupportsProtocolTwoResults(list: string, ra: Result<(Proto, seq<nat>)>, q: Proto, ws: seq<nat>, vers: nat)
    requires EntryResults(Split(list, ' ')) == [ra, Ok((q, ws))] && ra.Ok?
    ensures ProtoverStringSupportsProtocol(list, q, vers) == Value(vers in ws)
  {
    assert EntriesParse(list);
    SupportsProtocolLastEntry(list, q, vers, 1);
  }

  /** The parsed entries of a two-entry list. */
  lemma TwoEntryResults(a: string, b: string)
    requires ' ' !in a && ' ' !in b
    ensures EntryResults(Split(a + " " + b, ' ')) == [GetProtoAndVers(a), GetProtoAndVers(b)]
  {
    ExampleListSplit(a, b);
  }

  lemma ExampleListSplit(a: string, b: string)
    requires ' ' !in a && ' ' !in b
    ensures Split(a + " " + b, ' ') == [a, b]
  {
    assert a + " " + b == a + [' '] + b;
    SplitTwo(a, ' ', b);
  }

  lemma LinkThreeFourParses()
    ensures GetProtoAndVers(Name(Link) + "=" + "3-4") == Ok((Link, [3, 4]))
  {
    VersionsOfThreeToFour();
    SupportedEntry(Link, "3-4", [3, 4]);
  }

  lemma ConsOneParses()
    ensures GetProtoAndVers(Name(Cons) + "=" + "1") == Ok((Cons, [1]))
  {
    VersionsOfOne();
    SupportedEntry(Cons, "1", [1]);
  }

  /** The texts of those examples, spelled out. */
  lemma ExamplesSpelled()
    ensures Name(Link) + "=" + "1" == "Link=1"
    ensures Name(Cons) + "=" + "1" == "Cons=1"
    ensures Name(Link) + "=" + "5-6" == "Link=5-6"
    ensures (Name(Cons) + "=" + "1") + " " + ("Wombat" + "=" + "9") == "Cons=1 Wombat=9"
    ensures (Name(Link) + "=" + "3-4") + " " + (Name(Cons) + "=" + "1") == "Link=3-4 Cons=1"
  {
  }
}
