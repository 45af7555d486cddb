/** Subprotocol names and protocol entries: `Proto` with its `Display` and
    `FromStr`, `get_proto_and_vers` for one "Name=versions" entry,
    `parse_protocols` for a list of entries, and the table of protocols
    this Tor supports. */
module Protocols {
  import opened Wrappers
  import opened Strings
  import opened Decimal
  import opened VersionList
  import opened Contraction

  /** The subprotocols of Tor. */
  datatype Proto =
    | Cons | Desc | DirCache | HSDir | HSIntro | HSRend | Link | LinkAuth | Microdesc | Relay

  /** `Display for Proto`: the variant's own name. */
  function Name(p: Proto): (s: string)
    ensures IsToken(s) && '=' !in s && ',' !in s
  {
    match p
    case Cons => "Cons"
    case Desc => "Desc"
    case DirCache => "DirCache"
    case HSDir => "HSDir"
    case HSIntro => "HSIntro"
    case HSRend => "HSRend"
    case Link => "Link"
    case LinkAuth => "LinkAuth"
    case Microdesc => "Microdesc"
    case Relay => "Relay"
  }

  /** `FromStr for Proto`: exactly the ten names, case-sensitive. */
  function FromStr(s: string): (r: Result<Proto>)
    ensures forall p :: r == Ok(p) <==> Name(p) == s
    ensures r.Err? ==> r.error == UnknownProtocol
  {
    if s == "Cons" then Ok(Cons)
    else if s == "Desc" then Ok(Desc)
    else if s == "DirCache" then Ok(DirCache)
    else if s == "HSDir" then Ok(HSDir)
    else if s == "HSIntro" then Ok(HSIntro)
    else if s == "HSRend" then Ok(HSRend)
    else if s == "Link" then Ok(Link)
    else if s == "LinkAuth" then Ok(LinkAuth)
    else if s == "Microdesc" then Ok(Microdesc)
    else if s == "Relay" then Ok(Relay)
    else Err(UnknownProtocol)
  }

  /** `get_proto_and_vers`: the text before the first '=' names the
      protocol and the rest is its version list. The versions are parsed
      before the name, so a bad version list is reported even when the
      name is unknown too. */
  function GetProtoAndVers(entry: string): (r: Result<(Proto, seq<nat>)>)
    ensures '=' !in entry ==> r == Err(InvalidProtoverEntry)
    ensures r.Ok? ==> exists vers :: entry == Name(r.value.0) + "=" + vers && Versions(vers) == Ok(r.value.1)
  {
    var (name, rest) := SplitOnce(entry, '=');
    match rest
    case None => Err(InvalidProtoverEntry)
    case Some(vers) =>
      match Versions(vers)
      case Err(e) => Err(e)
      case Ok(versions) =>
        match FromStr(name)
        case Err(e) => Err(e)
        case Ok(p) =>
          assert entry == Name(p) + "=" + vers;
          Ok((p, versions))
  }

  /** An entry "Name=versions" yields its protocol and whatever the version
      list parses to, error included. */
  lemma GetProtoAndVersOf(p: Proto, vers: string)
    ensures GetProtoAndVers(Name(p) + "=" + vers) ==
      match Versions(vers)
      case Err(e) => Err(e)
      case Ok(vs) => Ok((p, vs))
  {
    assert Name(p) + "=" + vers == Name(p) + ['='] + vers;
    SplitOnceAt(Name(p), '=', vers);
  }

  /** An entry whose protocol name is unknown fails, unless its version list
      fails first. */
  lemma GetProtoAndVersUnknown(name: string, vers: string)
    requires '=' !in name
    requires forall p :: Name(p) != name
    ensures GetProtoAndVers(name + "=" + vers) ==
      match Versions(vers)
      case Err(e) => Err(e)
      case Ok(_) => Err(UnknownProtocol)
  {
    assert name + "=" + vers == name + ['='] + vers;
    SplitOnceAt(name, '=', vers);
  }

  /** What each entry of a list parses to on its own. */
  function EntryResults(entries: seq<string>): (rs: seq<Result<(Proto, seq<nat>)>>)
    ensures |rs| == |entries|
    ensures forall i :: 0 <= i < |entries| ==> rs[i] == GetProtoAndVers(entries[i])
  {
    seq(|entries|, i requires 0 <= i < |entries| => GetProtoAndVers(entries[i]))
  }

  /** The map the loop of `parse_protocols` builds from the parsed entries:
      each entry inserts its protocol, replacing an earlier entry for the
      same protocol; the first failing entry ends the loop with its error. */
  function BuildMap(results: seq<Result<(Proto, seq<nat>)>>): (r: Result<map<Proto, seq<nat>>>)
    ensures r.Err? ==> exists i :: 0 <= i < |results| && results[i] == Err(r.error)
    decreases |results|
  {
    if results == [] then Ok(map[])
    else
      var init := results[..|results| - 1];
      match BuildMap(init)
      case Err(e) =>
        var i :| 0 <= i < |init| && init[i] == Err(e);
        assert results[i] == Err(e);
        Err(e)
      case Ok(m) =>
        match results[|results| - 1]
        case Err(e) => Err(e)
        case Ok((p, vs)) => Ok(m[p := vs])
  }

  /** The result of `parse_protocols` for a list of entries. */
  function ProtocolMap(entries: seq<string>): Result<map<Proto, seq<nat>>>
  {
    BuildMap(EntryResults(entries))
  }

  /** Once a prefix of the entries fails, the whole loop fails the same way. */
  lemma {:induction false} BuildMapStops(results: seq<Result<(Proto, seq<nat>)>>, k: nat)
    requires k <= |results|
    requires BuildMap(results[..k]).Err?
    ensures BuildMap(results) == BuildMap(results[..k])
    decreases |results| - k
  {
    if k < |results| {
      var next := results[..k + 1];
      assert next[..k] == results[..k];
      BuildMapStops(results, k + 1);
    } else {
      assert results[..k] == results;
    }
  }

  /** The first failing entry decides the error. */
  lemma BuildMapFirstError(results: seq<Result<(Proto, seq<nat>)>>, k: nat)
    requires k < |results| && results[k].Err?
    requires forall i :: 0 <= i < k ==> results[i].Ok?
    ensures BuildMap(results) == Err(results[k].error)
  {
    BuildMapAllOk(results[..k]);
    assert results[..k + 1][..k] == results[..k];
    BuildMapStops(results, k + 1);
  }

  /** Any failing entry makes the whole loop fail. */
  lemma {:induction false} BuildMapAnyError(results: seq<Result<(Proto, seq<nat>)>>, k: nat)
    requires k < |results| && results[k].Err?
    ensures BuildMap(results).Err?
    decreases |results|
  {
    var n := |results| - 1;
    var init := results[..n];
    if k < n {
      assert init[k] == results[k];
      BuildMapAnyError(init, k);
    }
  }

  /** When every entry parses, the loop succeeds. */
  lemma {:induction false} BuildMapAllOk(results: seq<Result<(Proto, seq<nat>)>>)
    requires forall i :: 0 <= i < |results| ==> results[i].Ok?
    ensures BuildMap(results).Ok?
    decreases |results|
  {
    if results != [] {
      BuildMapAllOk(results[..|results| - 1]);
    }
  }

  /** On success, a protocol is in the map iff some entry names it, and its
      versions are those of the last entry that names it. */
  lemma {:induction false} BuildMapLastWins(results: seq<Result<(Proto, seq<nat>)>>)
    requires BuildMap(results).Ok?
    ensures forall i :: 0 <= i < |results| ==> results[i].Ok?
    ensures forall p :: p in BuildMap(results).value <==>
      exists i :: 0 <= i < |results| && results[i].value.0 == p
    ensures forall i :: 0 <= i < |results| ==>
      (forall j :: i < j < |results| ==> results[j].value.0 != results[i].value.0) ==>
        BuildMap(results).value[results[i].value.0] == results[i].value.1
    decreases |results|
  {
    if results != [] {
      var n := |results| - 1;
      var init := results[..n];
      BuildMapLastWins(init);
      var m := BuildMap(results).value;
      forall i | 0 <= i < |results| ensures results[i].Ok? {
        if i < n { assert results[i] == init[i]; }
      }
      forall p ensures p in m <==> exists i :: 0 <= i < |results| && results[i].value.0 == p {
        if p in m && p != results[n].value.0 {
          var i :| 0 <= i < |init| && init[i].value.0 == p;
          assert results[i] == init[i];
        }
        if exists i :: 0 <= i < |results| && results[i].value.0 == p {
          var i :| 0 <= i < |results| && results[i].value.0 == p;
          if i < n { assert init[i] == results[i]; }
        }
      }
      forall i | 0 <= i < |results| && (forall j :: i < j < |results| ==> results[j].value.0 != results[i].value.0)
        ensures m[results[i].value.0] == results[i].value.1
      {
        if i < n {
          assert init[i] == results[i];
          forall j | i < j < |init| ensures init[j].value.0 != init[i].value.0 {
            assert init[j] == results[j];
          }
        }
      }
    }
  }

  /** `parse_protocols_from_string`: entries are separated by single
      spaces, so the empty text is one empty entry and fails. */
  function ParseProtocolsFromString(text: string): (r: Result<map<Proto, seq<nat>>>)
    ensures text == "" ==> r == Err(InvalidProtoverEntry)
  {
    ProtocolMap(Split(text, ' '))
  }

  /** A space-separated list fails to parse exactly when one of its
      entries does ... */
  lemma ParseProtocolsFromStringFails(text: string)
    ensures ParseProtocolsFromString(text).Err? <==>
      exists i :: 0 <= i < |Split(text, ' ')| && GetProtoAndVers(Split(text, ' ')[i]).Err?
  {
    assert ParseProtocolsFromString(text) == ProtocolMap(Split(text, ' '));
    ProtocolMapFails(Split(text, ' '));
  }

  /** `parse_protocols` fails exactly when one of the entries does. */
  lemma ProtocolMapFails(entries: seq<string>)
    ensures ProtocolMap(entries).Err? <==> exists i :: 0 <= i < |entries| && GetProtoAndVers(entries[i]).Err?
  {
    var results := EntryResults(entries);
    BuildMapFails(results);
    if exists i :: 0 <= i < |entries| && GetProtoAndVers(entries[i]).Err? {
      var i :| 0 <= i < |entries| && GetProtoAndVers(entries[i]).Err?;
      assert results[i].Err?;
    } else {
      assert forall i :: 0 <= i < |results| ==> results[i].Ok?;
    }
  }

  /** The loop of `parse_protocols` fails exactly when one entry does. */
  lemma BuildMapFails(results: seq<Result<(Proto, seq<nat>)>>)
    ensures BuildMap(results).Err? <==> exists i :: 0 <= i < |results| && results[i].Err?
  {
    if exists i :: 0 <= i < |results| && results[i].Err? {
      var i :| 0 <= i < |results| && results[i].Err?;
      BuildMapAnyError(results, i);
    } else {
      BuildMapAllOk(results);
    }
  }

  /** ... and then with the error of the first such entry. */
  lemma ParseProtocolsFromStringFirstError(text: string, k: nat)
    requires k < |Split(text, ' ')| && GetProtoAndVers(Split(text, ' ')[k]).Err?
    requires forall i :: 0 <= i < k ==> GetProtoAndVers(Split(text, ' ')[i]).Ok?
    ensures ParseProtocolsFromString(text) == Err(GetProtoAndVers(Split(text, ' ')[k]).error)
  {
    var results := EntryResults(Split(text, ' '));
    assert ParseProtocolsFromString(text) == BuildMap(results);
    BuildMapFirstError(results, k);
  }

  /** `parse_protocols`: parses the entries in order, inserting each into
      the map and returning the first error met. */
  method ParseProtocols(entries: seq<string>) returns (r: Result<map<Proto, seq<nat>>>)
    ensures r == ProtocolMap(entries)
  {
    var parsed: map<Proto, seq<nat>> := map[];
    ghost var results := EntryResults(entries);
    var i := 0;
    while i < |entries|
      invariant 0 <= i <= |entries|
      invariant BuildMap(results[..i]) == Ok(parsed)
    {
      assert results[..i + 1][..i] == results[..i];
      var entry := GetProtoAndVers(entries[i]);
      if entry.Err? {
        BuildMapStops(results, i + 1);
        return Err(entry.error);
      }
      var (name, version) := entry.value;
      parsed := parsed[name := version];
      i := i + 1;
    }
    assert results[..i] == results;
    return Ok(parsed);
  }

  /** The protocols and versions this Tor supports, as advertised. */
  const SUPPORTED_PROTOCOLS: seq<string> := [
    "Cons=1-2",
    "Desc=1-2",
    "DirCache=1-2",
    "HSDir=1-2",
    "HSIntro=3-4",
    "HSRend=1-2",
    "Link=1-4",
    "LinkAuth=1,3",
    "Microdesc=1-2",
    "Relay=1-2"
  ]

  /** `get_supported_protocols`: the entries joined by single spaces. */
  function GetSupportedProtocols(): (s: string)
    ensures SplitWhitespace(s) == SUPPORTED_PROTOCOLS
    ensures Split(s, ' ') == SUPPORTED_PROTOCOLS
  {
    var entries := SUPPORTED_PROTOCOLS;
    SupportedTokensLow();
    SupportedTokensHigh();
    SplitWhitespaceJoin(entries);
    SplitJoin(entries, ' ');
    Join(entries, ' ')
  }

  /** The supported entries hold no whitespace. */
  lemma SupportedTokensLow()
    ensures forall i :: 0 <= i < 5 ==> IsToken(SUPPORTED_PROTOCOLS[i]) && ' ' !in SUPPORTED_PROTOCOLS[i]
  {
  }

  lemma SupportedTokensHigh()
    ensures forall i :: 5 <= i < 10 ==> IsToken(SUPPORTED_PROTOCOLS[i]) && ' ' !in SUPPORTED_PROTOCOLS[i]
  {
  }

  /** What the supported entries parse to: the versions of each protocol
      this Tor supports. */
  function SupportedVersions(p: Proto): seq<nat>
  {
    match p
    case Cons => [1, 2]
    case Desc => [1, 2]
    case DirCache => [1, 2]
    case HSDir => [1, 2]
    case HSIntro => [3, 4]
    case HSRend => [1, 2]
    case Link => [1, 2, 3, 4]
    case LinkAuth => [1, 3]
    case Microdesc => [1, 2]
    case Relay => [1, 2]
  }

  /** An entry written from a protocol and a contracted version list parses
      back to that protocol and list. */
  lemma EntryRoundTrip(p: Proto, vs: seq<nat>)
    requires StrictlyAscending(vs) && AllU32(vs)
    requires 1 <= |vs| <= MAX_PROTOCOLS_TO_EXPAND
    ensures GetProtoAndVers(Name(p) + "=" + ContractText(vs)) == Ok((p, vs))
  {
    ContractRoundTrip(vs);
    GetProtoAndVersOf(p, ContractText(vs));
  }

  /** The version lists that appear among the supported entries. */
  lemma VersionsOfOneToTwo()
    ensures Versions("1-2") == Ok([1, 2])
  {
    RangeWithinCap(1, 2);
    OneToTwoSpelled();
  }

  lemma OneToTwoSpelled()
    ensures ToDecimal(1) + "-" + ToDecimal(2) == "1-2"
    ensures Interval(1, 2) == [1, 2]
  {
    assert ToDecimal(1) == "1" && ToDecimal(2) == "2";
  }

  lemma VersionsOfThreeToFour()
    ensures Versions("3-4") == Ok([3, 4])
  {
    RangeWithinCap(3, 4);
    ThreeToFourSpelled();
  }

  lemma ThreeToFourSpelled()
    ensures ToDecimal(3) + "-" + ToDecimal(4) == "3-4"
    ensures Interval(3, 4) == [3, 4]
  {
    assert ToDecimal(3) == "3" && ToDecimal(4) == "4";
  }

  lemma VersionsOfOneToFour()
    ensures Versions("1-4") == Ok([1, 2, 3, 4])
  {
    RangeWithinCap(1, 4);
    OneToFourSpelled();
  }

  lemma OneToFourSpelled()
    ensures ToDecimal(1) + "-" + ToDecimal(4) == "1-4"
    ensures Interval(1, 4) == [1, 2, 3, 4]
  {
    assert ToDecimal(1) == "1" && ToDecimal(4) == "4";
  }

  lemma VersionsOfOneThree()
    ensures Versions("1,3") == Ok([1, 3])
  {
    PieceOfNumber(1);
    PieceOfNumber(3);
    assert ToDecimal(1) == "1" && ToDecimal(3) == "3";
    assert Flatten([[1], [3]]) == [1, 3] by {
      assert [[1], [3]][..1] == [[1]];
    }
    assert Join(["1", "3"], ',') == "1,3";
    VersionsAscending(["1", "3"], [[1], [3]]);
  }

  /** One supported entry, "Name=versions", parses to its protocol and the
      versions its list names. */
  lemma SupportedEntry(p: Proto, vers: string, vs: seq<nat>)
    requires Versions(vers) == Ok(vs)
    ensures GetProtoAndVers(Name(p) + "=" + vers) == Ok((p, vs))
  {
    GetProtoAndVersOf(p, vers);
  }

  /** The supported entries taken apart: protocol, version list, and what
      the list names. */
  const SUPPORTED_NAMES: seq<Proto> :=
    [Cons, Desc, DirCache, HSDir, HSIntro, HSRend, Link, LinkAuth, Microdesc, Relay]
  const SUPPORTED_LISTS: seq<string> :=
    ["1-2", "1-2", "1-2", "1-2", "3-4", "1-2", "1-4", "1,3", "1-2", "1-2"]
  const SUPPORTED_VALUES: seq<seq<nat>> :=
    [[1, 2], [1, 2], [1, 2], [1, 2], [3, 4], [1, 2], [1, 2, 3, 4], [1, 3], [1, 2], [1, 2]]

  lemma SupportedSpelled()
    ensures |SUPPORTED_PROTOCOLS| == |SUPPORTED_NAMES| == |SUPPORTED_LISTS| == |SUPPORTED_VALUES| == 10
    ensures forall i :: 0 <= i < 10 ==>
      SUPPORTED_PROTOCOLS[i] == Name(SUPPORTED_NAMES[i]) + "=" + SUPPORTED_LISTS[i]
  {
    SupportedSpelledLow();
    SupportedSpelledHigh();
  }

  lemma SupportedSpelledLow()
    ensures forall i :: 0 <= i < 5 ==>
      SUPPORTED_PROTOCOLS[i] == Name(SUPPORTED_NAMES[i]) + "=" + SUPPORTED_LISTS[i]
  {
  }

  lemma SupportedSpelledHigh()
    ensures forall i :: 5 <= i < 10 ==>
      SUPPORTED_PROTOCOLS[i] == Name(SUPPORTED_NAMES[i]) + "=" + SUPPORTED_LISTS[i]
  {
  }

  lemma SupportedListsParse()
    ensures forall i :: 0 <= i < 10 ==> Versions(SUPPORTED_LISTS[i]) == Ok(SUPPORTED_VALUES[i])
  {
    forall i | 0 <= i < 10 ensures Versions(SUPPORTED_LISTS[i]) == Ok(SUPPORTED_VALUES[i]) {
      if i == 4 {
        assert SUPPORTED_LISTS[i] == "3-4" && SUPPORTED_VALUES[i] == [3, 4];
        VersionsOfThreeToFour();
      } else if i == 6 {
        assert SUPPORTED_LISTS[i] == "1-4" && SUPPORTED_VALUES[i] == [1, 2, 3, 4];
        VersionsOfOneToFour();
      } else if i == 7 {
        assert SUPPORTED_LISTS[i] == "1,3" && SUPPORTED_VALUES[i] == [1, 3];
        VersionsOfOneThree();
      } else {
        assert SUPPORTED_LISTS[i] == "1-2" && SUPPORTED_VALUES[i] == [1, 2];
        VersionsOfOneToTwo();
      }
    }
  }

  /** Each supported entry parses on its own to its protocol and values. */
  lemma SupportedEntriesParse()
    ensures forall i :: 0 <= i < 10 ==>
      EntryResults(SUPPORTED_PROTOCOLS)[i] == Ok((SUPPORTED_NAMES[i], SUPPORTED_VALUES[i]))
  {
    SupportedSpelled();
    SupportedListsParse();
    forall i | 0 <= i < 10
      ensures EntryResults(SUPPORTED_PROTOCOLS)[i] == Ok((SUPPORTED_NAMES[i], SUPPORTED_VALUES[i]))
    {
      SupportedEntry(SUPPORTED_NAMES[i], SUPPORTED_LISTS[i], SUPPORTED_VALUES[i]);
    }
  }

  /** Entries that all parse, each to a different protocol, build the map
      from each protocol to its versions. */
  lemma BuildMapDistinct(results: seq<Result<(Proto, seq<nat>)>>, names: seq<Proto>, values: seq<seq<nat>>)
    requires |results| == |names| == |values|
    requires forall i :: 0 <= i < |results| ==> results[i] == Ok((names[i], values[i]))
    requires forall i, j :: 0 <= i < j < |names| ==> names[i] != names[j]
    ensures BuildMap(results).Ok?
    ensures forall i :: 0 <= i < |names| ==>
      names[i] in BuildMap(results).value && BuildMap(results).value[names[i]] == values[i]
    ensures forall p :: p in BuildMap(results).value ==> p in names
  {
    BuildMapAllOk(results);
    BuildMapLastWins(results);
    var m := BuildMap(results).value;
    forall p | p in m ensures p in names {
      var i :| 0 <= i < |results| && results[i].value.0 == p;
    }
  }

  /** The names of the supported entries: every protocol, once each, with
      the versions listed for it. */
  lemma SupportedNames()
    ensures forall i, j :: 0 <= i < j < 10 ==> SUPPORTED_NAMES[i] != SUPPORTED_NAMES[j]
    ensures forall i :: 0 <= i < 10 ==> SUPPORTED_VALUES[i] == SupportedVersions(SUPPORTED_NAMES[i])
    ensures forall p :: p in SUPPORTED_NAMES
  {
    forall p ensures p in SUPPORTED_NAMES {
      var i := match p
        case Cons => 0 case Desc => 1 case DirCache => 2 case HSDir => 3
        case HSIntro => 4 case HSRend => 5 case Link => 6 case LinkAuth => 7
        case Microdesc => 8 case Relay => 9;
      assert SUPPORTED_NAMES[i] == p;
    }
  }

  /** The supported entries parse without error and name every protocol
      once, each with the versions listed for it above. */
  lemma TorSupportedTable()
    ensures ProtocolMap(SUPPORTED_PROTOCOLS).Ok?
    ensures forall p ::
      p in ProtocolMap(SUPPORTED_PROTOCOLS).value &&
      ProtocolMap(SUPPORTED_PROTOCOLS).value[p] == SupportedVersions(p)
  {
    var results := EntryResults(SUPPORTED_PROTOCOLS);
    SupportedEntriesParse();
    SupportedNames();
    BuildMapDistinct(results, SUPPORTED_NAMES, SUPPORTED_VALUES);
    TableCoversAll(BuildMap(results).value, SUPPORTED_NAMES, SUPPORTED_VALUES);
  }

  /** A map that holds each listed protocol with its supported versions,
      when the list names every protocol, holds every protocol so. */
  lemma TableCoversAll(m: map<Proto, seq<nat>>, names: seq<Proto>, values: seq<seq<nat>>)
    requires |names| == |values|
    requires forall p :: p in names
    requires forall i :: 0 <= i < |names| ==> names[i] in m && m[names[i]] == values[i]
    requires forall i :: 0 <= i < |names| ==> values[i] == SupportedVersions(names[i])
    ensures forall p :: p in m && m[p] == SupportedVersions(p)
  {
    forall p ensures p in m && m[p] == SupportedVersions(p) {
      assert p in names;
      var i :| 0 <= i < |names| && names[i] == p;
    }
  }

  /** `tor_supported`: `parse_protocols` over the supported entries, which
      gives every protocol with the versions listed for it above. */
  method TorSupported() returns (r: Result<map<Proto, seq<nat>>>)
    ensures r.Ok?
    ensures forall p :: p in r.value && r.value[p] == SupportedVersions(p)
  {
    r := ParseProtocols(SUPPORTED_PROTOCOLS);
    TorSupportedTable();
  }

  /** The advertised string reads back, entry by entry, as the supported
      protocols. */
  lemma ParseSupportedString()
    ensures ParseProtocolsFromString(GetSupportedProtocols()) == ProtocolMap(SUPPORTED_PROTOCOLS)
  {
  }
}
