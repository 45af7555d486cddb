# protover: Tor's subprotocol versioning, modelled in Dafny

Starting with 0.2.9.3-alpha, Tor gives each part of its protocol (`Cons`,
`Desc`, `DirCache`, `HSDir`, `HSIntro`, `HSRend`, `Link`, `LinkAuth`,
`Microdesc`, `Relay`) its own version numbers. A relay advertises lists
such as `Link=1-4 LinkAuth=1,3`. Clients check those lists against what
they need. Directory authorities vote on the lists: they pool the
relays' entries and keep every version listed at least `threshold`
times. This project models the Rust implementation of that subsystem,
`src/rust/protover/lib.rs`, and proves properties of the model.

The modules follow the source:

- `Wrappers`: `Option`, `Result`, and one `Error` per distinct error
  string of the source, with its exact text.
- `Strings`: the parts of Rust's `str` API the code uses. These are
  `split`, `splitn(2, _)`, `split_whitespace` (with the Unicode
  White_Space set), `join`, and `String` ordering. Split/join round
  trips are proved here.
- `Decimal`: `u32::from_str` (an optional leading `+`, then digits, then
  a 32-bit bound) and `u32::to_string`.
- `VersionList`: `expand_version_range` and `get_versions`. The method
  `GetVersions` keeps the source's loop: insert at the front, `dedup`,
  the 500-version cap, then `sort`. It is proved equal to the function
  `Versions`. That function is the fold `Collect` over the
  comma-separated pieces.
- `VersionCap`: the 500-version cap of `get_versions` over a whole list,
  however the values are spread over its pieces, and the empty list an
  inverted range such as "5-3" yields.
- `Contraction`: `find_range` and `contract_protocol_list`, the inverse
  direction. They are proved to round-trip with `Versions`.
- `Protocols`: `Proto` with `Display`/`FromStr`, `get_proto_and_vers`,
  `parse_protocols` (the last entry for a protocol wins), the supported
  table, `get_supported_protocols` and `tor_supported`.
- `Queries`: `contains_only_ssupported_protocols`, `all_supported`,
  `protover_string_supports_protocol` and `is_supported_here`. The
  `HashMap` index that panics on a missing key is modelled as `Panic`.
- `Voting`: `parse_protocols_with_duplicates`, the threshold loop of
  `compute_vote`, `compute_vote` itself and `write_vote_to_string`.
- `Legacy`: `compute_for_old_tor`. The C comparison
  `tor_version_as_new_as` is a parameter.

Each imperative Rust function is a `method` whose loop is proved against
a specification function. The properties are lemmas about those
functions.

## Model

| member | source | states |
|---|---|---|
| Wrappers.Message | src/rust/protover/lib.rs:128-277 | every error has a non-empty message text, one per distinct error string of the source |
| Wrappers.MessagesDistinct | src/rust/protover/lib.rs:128-277 | different errors have different texts |
| Strings.JoinSplit | src/rust/protover/lib.rs:115 | joining the pieces of `split(sep)` with `sep` restores the text |
| Strings.SplitJoin | src/rust/protover/lib.rs:115 | splitting a join of separator-free pieces gives the pieces back |
| Strings.SplitOnce | src/rust/protover/lib.rs:161-171 | `splitn(2, sep)`: the head has no separator; there is a tail iff the text has a separator; head, separator and tail rebuild the text |
| Strings.SplitWhitespaceJoin | src/rust/protover/lib.rs:214-221 | whitespace-free tokens joined by single spaces split back into the same tokens |
| Strings.LexLessTotal | src/rust/protover/lib.rs:443-444 | `String` ordering, used by `keys.sort()`, is total on different strings (with LexLessIrreflexive and LexLessTransitive: a strict total order) |
| Decimal.ParseToDecimal | src/rust/protover/lib.rs:143 | printing a `u32` and parsing it back with `u32::from_str` gives the number |
| Decimal.ParseU32Examples | src/rust/protover/lib.rs:143 | `from_str` accepts "7", "+7" and "007" as 7; it refuses "", "+" and "-7" |
| Decimal.ParseU32Overflow | src/rust/protover/lib.rs:143 | a value past `u32::MAX` is refused, with or without '+' |
| Decimal.ParseU32Plus | src/rust/protover/lib.rs:143 | a leading '+' is accepted in front of any `u32` |
| VersionList.ExpandVersionRange | src/rust/protover/lib.rs:253-277 | empty text is `EmptyRange`; success needs a '-'; the result is consecutive `u32`s from the lower bound |
| VersionList.ExpandRangeText | src/rust/protover/lib.rs:253-277 | "lo-hi" expands to exactly lo..=hi, and to nothing when lo > hi |
| VersionList.ExpandRangeIgnoresExtra | src/rust/protover/lib.rs:258-276 | text after a second '-' is ignored |
| VersionList.ExpandOneToTwo | src/rust/protover/lib.rs:568 | "1-2" expands to [1, 2] |
| VersionList.ExpandOneToFour | src/rust/protover/lib.rs:569 | "1-4" expands to [1, 2, 3, 4] |
| VersionList.ExpandInverted | src/rust/protover/lib.rs:276 | an inverted range "5-3" expands to the empty list, not an error |
| VersionList.ExpandTrailingText | src/rust/protover/lib.rs:258-276 | "1-3-9" expands like "1-3" |
| VersionList.ExpandVersionRangeErrors | src/rust/protover/lib.rs:254-266 | "" is `EmptyRange`; "a" and "-3" fail on the lower bound |
| VersionList.ExpandVersionRangeUpperErrors | src/rust/protover/lib.rs:268-274 | "3" (no upper part) and "1-a" fail on the upper bound |
| VersionList.Dedup | src/rust/protover/lib.rs:146 | `Vec::dedup` keeps the same elements and the first one; no two neighbours are equal; a list without equal neighbours is unchanged |
| VersionList.Sort | src/rust/protover/lib.rs:154 | `Vec::sort` returns a sorted permutation of its input |
| VersionList.SortReversed | src/rust/protover/lib.rs:137-154 | sorting the reverse of a strictly ascending list gives the list |
| VersionList.PieceResults | src/rust/protover/lib.rs:135-145 | each comma-separated piece yields its own values, all `u32`s |
| VersionList.AddPiece | src/rust/protover/lib.rs:136-150 | one loop round never leaves more than 500 versions, and keeps all values `u32` |
| VersionList.Collect | src/rust/protover/lib.rs:135-151 | the running list after the loop has at most 500 versions, all `u32` |
| VersionList.CollectStops | src/rust/protover/lib.rs:137-150 | the first failing piece ends the loop with that error |
| VersionList.AddPieceMembers | src/rust/protover/lib.rs:136-146 | after one round, a value is in the list iff it was before or the piece names it |
| VersionList.CollectListed | src/rust/protover/lib.rs:135-151 | on success every piece parsed, and the list holds exactly the values some piece names |
| VersionList.Versions | src/rust/protover/lib.rs:128-156 | "" is `EmptyVersionString`; a success is sorted, has at most 500 entries, all `u32` |
| VersionList.VersionsListed | src/rust/protover/lib.rs:128-156 | a successful parse holds exactly the values of its comma-separated pieces |
| VersionList.CollectAscending | src/rust/protover/lib.rs:135-151 | pieces naming strictly ascending values, 500 at most, leave their concatenation reversed |
| VersionList.VersionsAscending | src/rust/protover/lib.rs:128-156 | text whose pieces name strictly ascending values parses to their concatenation |
| VersionList.RangeWithinCap | src/rust/protover/lib.rs:148-150 | one range of at most 500 values parses to that range |
| VersionList.RangeOverCap | src/rust/protover/lib.rs:148-150 | a range of 501 or more values is `TooManyVersions` |
| VersionList.VersionsOfNumber | src/rust/protover/lib.rs:140-144 | the decimal text of a `u32` parses to that one value |
| VersionList.VersionsOfOne | src/rust/protover/lib.rs:516 | "1" parses to [1] |
| VersionList.VersionsOfOneTwo | src/rust/protover/lib.rs:517 | "1,2" parses to [1, 2] |
| VersionList.VersionsOfOneTwoThree | src/rust/protover/lib.rs:518 | "1,2,3" parses to [1, 2, 3] |
| VersionList.VersionsOfRange | src/rust/protover/lib.rs:519 | "1-3" parses to [1, 2, 3] |
| VersionList.VersionsOfRangeThenOne | src/rust/protover/lib.rs:520 | "1-3,5" parses to [1, 2, 3, 5] |
| VersionList.VersionsOfNumberThenRange | src/rust/protover/lib.rs:521 | "n,lo-hi" with n < lo parses to [n] followed by lo..=hi, as "1,3-5" gives [1, 3, 4, 5] |
| VersionList.VersionsOfJoin | src/rust/protover/lib.rs:128-156 | text made of comma-free pieces parses as the fold over those pieces |
| VersionList.VersionsKeepsDistantRepeat | src/rust/protover/lib.rs:146 | `dedup` drops only neighbours: "1,2,1" keeps both 1s |
| VersionList.VersionsDropsAdjacentRepeat | src/rust/protover/lib.rs:146 | "1,1" parses to [1] |
| VersionList.PushPiece | src/rust/protover/lib.rs:136-150 | the loop body's inserts at the front, then dedup and the cap, compute `AddPiece` |
| VersionList.GetVersions | src/rust/protover/lib.rs:128-156 | the loop of `get_versions` returns exactly `Versions(text)` |
| VersionCap.InvertedVersions | src/rust/protover/lib.rs:135-139 | "5-3" names no version, so `get_versions` returns `Ok` of the empty list |
| VersionCap.CollectOnlyCapFails | src/rust/protover/lib.rs:135-151 | when every piece parses, the only error the loop can stop at is `TooManyVersions` |
| VersionCap.CollectOverCapAnywhere | src/rust/protover/lib.rs:146-150 | pieces that all parse but name more than 500 distinct values make the loop fail with `TooManyVersions` |
| VersionCap.VersionsOverCap | src/rust/protover/lib.rs:128-156 | `get_versions` fails with `TooManyVersions` whenever every piece parses and the pieces name more than 500 distinct values |
| VersionCap.VersionsOverCapTwoPieces | src/rust/protover/lib.rs:146-150 | a range and a number above it that together name more than 500 values fail, though each piece alone fits |
| VersionCap.VersionsOverCapExample | src/rust/protover/lib.rs:146-150 | "1-500,501" fails with `TooManyVersions` |
| Contraction.RangeAtStart | src/rust/protover/lib.rs:284-308 | `(false, 0)` for []; a range iff the second element follows the first; the end closes the leading run of consecutive values |
| Contraction.FindRange | src/rust/protover/lib.rs:284-308 | the peeking loop of `find_range` returns `RangeAtStart(list)` |
| Contraction.FindRangeExamples | src/rust/protover/lib.rs:556-560 | the answers for [], [1], [1,2], [1,2,3] and [1,2,3,5] |
| Contraction.KeepAbove | src/rust/protover/lib.rs:327 | `retain(x > end)` keeps exactly the elements above the bound |
| Contraction.KeepAboveAscending | src/rust/protover/lib.rs:327 | on a sorted list, `retain` cuts off a prefix |
| Contraction.Spans | src/rust/protover/lib.rs:317-331 | one non-empty, comma-free piece per run; no pieces for an empty list |
| Contraction.ContractText | src/rust/protover/lib.rs:333 | the text is empty iff the list is |
| Contraction.RunsFlatten | src/rust/protover/lib.rs:317-331 | the runs laid end to end give the list back |
| Contraction.SpansParse | src/rust/protover/lib.rs:322-329 | each emitted piece ("a-b" or "a") parses back to its run |
| Contraction.ContractRoundTrip | src/rust/protover/lib.rs:310-334 | `get_versions` of the contracted text of 1 to 500 ascending `u32`s gives them back |
| Contraction.Ascending | src/rust/protover/lib.rs:311-313 | drain plus sort: the set's elements, once each, strictly ascending |
| Contraction.StrictUnique | src/rust/protover/lib.rs:313 | two strictly ascending lists with the same elements are equal |
| Contraction.SortedUnique | src/rust/protover/lib.rs:313 | two sorted lists with the same multiset are equal |
| Contraction.Drain | src/rust/protover/lib.rs:311-312 | `drain().collect()` yields each element of the set once, in an unspecified order |
| Contraction.SortDrained | src/rust/protover/lib.rs:313 | sorting any drained order gives the ascending list of the set |
| Contraction.ContractProtocolList | src/rust/protover/lib.rs:310-334 | the loop of `contract_protocol_list` returns `ContractText(Ascending(S))` |
| Contraction.ContractStep | src/rust/protover/lib.rs:318-330 | one loop round emits the first span and leaves the rest of the list |
| Contraction.ContractSetRoundTrip | src/rust/protover/lib.rs:310-334 | a set of 1 to 500 `u32`s comes back from its text in ascending order |
| Contraction.ContractEmpty | src/rust/protover/lib.rs:587 | {} contracts to "" |
| Contraction.ContractSingle | src/rust/protover/lib.rs:590 | {1} contracts to "1" |
| Contraction.ContractPair | src/rust/protover/lib.rs:593 | {1,2} contracts to "1-2" |
| Contraction.ContractGap | src/rust/protover/lib.rs:600 | {1,3} contracts to "1,3" |
| Contraction.ContractFour | src/rust/protover/lib.rs:609 | {1,2,3,4} contracts to "1-4" |
| Contraction.ContractMixed | src/rust/protover/lib.rs:619-622 | {1,3,5,6,7} contracts to "1,3,5-7" |
| Contraction.ContractRangeAndOutlier | src/rust/protover/lib.rs:631-634 | {1,2,3,500} contracts to "1-3,500" |
| Protocols.Name | src/rust/protover/lib.rs:54-58 | `Display` writes a non-empty name without whitespace, '=' or ',' |
| Protocols.FromStr | src/rust/protover/lib.rs:60-78 | parses exactly the ten names, case-sensitive, inverse to `Name`; anything else is `UnknownProtocol` |
| Protocols.GetProtoAndVers | src/rust/protover/lib.rs:158-177 | no '=' is `InvalidProtoverEntry`; a success is "Name=vers" with vers parsing to the versions |
| Protocols.GetProtoAndVersOf | src/rust/protover/lib.rs:158-177 | "Name=vers" yields the protocol with whatever `get_versions(vers)` returns, error included |
| Protocols.GetProtoAndVersUnknown | src/rust/protover/lib.rs:173-174 | an unknown name fails with `UnknownProtocol`, unless the version list fails first |
| Protocols.BuildMap | src/rust/protover/lib.rs:103-107 | an error of the loop is the error of one of the entries |
| Protocols.BuildMapStops | src/rust/protover/lib.rs:104 | `?` ends the loop at the first failing entry |
| Protocols.BuildMapFirstError | src/rust/protover/lib.rs:104 | the first failing entry decides the error |
| Protocols.BuildMapAnyError | src/rust/protover/lib.rs:104 | any failing entry makes `parse_protocols` fail |
| Protocols.BuildMapAllOk | src/rust/protover/lib.rs:103-107 | when every entry parses, the loop succeeds |
| Protocols.BuildMapLastWins | src/rust/protover/lib.rs:105 | the map holds exactly the named protocols, each with the versions of the last entry naming it |
| Protocols.ParseProtocols | src/rust/protover/lib.rs:98-108 | the loop of `parse_protocols` returns `ProtocolMap(entries)` |
| Protocols.BuildMapFails | src/rust/protover/lib.rs:103-107 | the loop fails iff some entry's result is an error |
| Protocols.ProtocolMapFails | src/rust/protover/lib.rs:98-108 | `parse_protocols` fails iff some entry fails `get_proto_and_vers` |
| Protocols.ParseProtocolsFromString | src/rust/protover/lib.rs:111-118 | splitting on single spaces makes "" one empty entry, which fails with `InvalidProtoverEntry` |
| Protocols.ParseProtocolsFromStringFails | src/rust/protover/lib.rs:111-118 | the text fails to parse iff one of its space-separated entries fails |
| Protocols.ParseProtocolsFromStringFirstError | src/rust/protover/lib.rs:111-118 | the error is that of the first failing entry |
| Protocols.GetSupportedProtocols | src/rust/protover/lib.rs:94-96 | the advertised string splits, on spaces or whitespace, back into the ten entries |
| Protocols.EntryRoundTrip | src/rust/protover/lib.rs:158-177 | "Name=" plus a contracted list parses back to the protocol and the list |
| Protocols.SupportedListsParse | src/rust/protover/lib.rs:81-92 | each supported version list parses to its values |
| Protocols.SupportedEntriesParse | src/rust/protover/lib.rs:81-92 | each supported entry parses to its protocol and values |
| Protocols.BuildMapDistinct | src/rust/protover/lib.rs:103-107 | entries naming different protocols build the map of exactly those |
| Protocols.SupportedNames | src/rust/protover/lib.rs:81-92 | the table names every protocol exactly once |
| Protocols.TorSupportedTable | src/rust/protover/lib.rs:122-124 | the table parses, with every protocol mapped to its supported versions |
| Protocols.TorSupported | src/rust/protover/lib.rs:122-124 | `tor_supported` never fails and maps every protocol to its supported versions |
| Protocols.ParseSupportedString | src/rust/protover/lib.rs:94-118 | the advertised string parses like the table itself |
| Queries.Unsupported | src/rust/protover/lib.rs:193 | `retain` keeps exactly the versions not in the supported list |
| Queries.ContainsOnlySupported | src/rust/protover/lib.rs:182-195 | the method returns `EntrySupported(entry)` |
| Queries.EntrySupportedOf | src/rust/protover/lib.rs:182-195 | "Name=vers" is supported iff vers parses and every version is supported for Name |
| Queries.UnsupportedEntries | src/rust/protover/lib.rs:215-218 | the filter keeps exactly the rejected entries, in order |
| Queries.AllSupported | src/rust/protover/lib.rs:214-221 | true iff every entry is supported iff the text is empty; the text is the rejected entries, in order, joined by single spaces, and reads back as them |
| Queries.UnsupportedJoined | src/rust/protover/lib.rs:220 | the rejected entries, joined, read back as themselves, and are empty iff all entries are supported |
| Queries.ProtoverStringSupportsProtocol | src/rust/protover/lib.rs:234-247 | a list that fails to parse gives false |
| Queries.SupportsProtocolPanics | src/rust/protover/lib.rs:234-247 | when every entry parses, the call panics iff no entry names the protocol |
| Queries.SupportsProtocolLastEntry | src/rust/protover/lib.rs:234-247 | otherwise, the answer is whether the last entry naming the protocol lists `vers` |
| Queries.SupportsProtocolBadList | src/rust/protover/lib.rs:241-244 | "Name=" does not parse, so the answer is false |
| Queries.SupportsProtocolStrict | src/rust/protover/lib.rs:241-244 | one unparsable space-separated entry makes the answer false |
| Queries.SupportsProtocolDoubleSpace | src/rust/protover/lib.rs:115 | two spaces make an empty entry, so the answer is false |
| Queries.SupportsProtocolSecondEntry | src/rust/protover/lib.rs:234-247 | in a list of two parsable entries, the answer for the second entry's protocol is whether it lists `vers` |
| Queries.SupportsProtocolExample | src/rust/protover/lib.rs:231-232 | "Link=3-4 Cons=1" supports version 1 of Cons |
| Queries.AllSupportedLinkOne | src/rust/protover/lib.rs:207-208 | "Link=1" rejects nothing, so `all_supported` gives (true, "") |
| Queries.AllSupportedLinkFiveSix | src/rust/protover/lib.rs:210-212 | "Link=5-6" is rejected whole, so `all_supported` gives (false, "Link=5-6") |
| Queries.AllSupportedConsOne | src/rust/protover/lib.rs:547 | "Cons=1" rejects nothing, so `all_supported` gives (true, "") |
| Queries.AllSupportedConsUnknown | src/rust/protover/lib.rs:548-549 | "Cons=1 X=9", for a name X no protocol has, rejects only "X=9", which is the text returned |
| Queries.WombatUnknown | src/rust/protover/lib.rs:548-549 | "Wombat" is one token without '=' and is no protocol's name |
| Queries.ExamplesSpelled | src/rust/protover/lib.rs:207-232 | the entries the example lemmas build from `Name` spell "Link=1", "Cons=1", "Link=5-6", "Cons=1 Wombat=9" and "Link=3-4 Cons=1" |
| Queries.IsSupportedHere | src/rust/protover/lib.rs:466-475 | true iff `vers` is a supported version of the protocol |
| Queries.EntrySupportedRejectsMalformed | src/rust/protover/lib.rs:528-529 | "" and "Cons=" are not supported |
| Queries.EntryRefused | src/rust/protover/lib.rs:193-194 | an entry listing any unsupported version is refused |
| Queries.EntrySupportedConsOne | src/rust/protover/lib.rs:530 | "Cons=1" is supported |
| Queries.EntrySupportedConsOneTwo | src/rust/protover/lib.rs:538 | "Cons=1,2" is supported |
| Queries.EntrySupportedConsRange | src/rust/protover/lib.rs:539 | "Cons=1-2" is supported |
| Queries.EntrySupportedConsZero | src/rust/protover/lib.rs:531 | "Cons=0" is refused |
| Queries.EntrySupportedConsFive | src/rust/protover/lib.rs:533 | "Cons=5" is refused |
| Queries.EntrySupportedConsRangePastTwo | src/rust/protover/lib.rs:534 | "Cons=1-5" is refused |
| Queries.ConsInvertedSupported | src/rust/protover/lib.rs:182-195 | "Cons=5-3" names no version, so it is vacuously supported |
| Queries.IsSupportedHereExamples | src/rust/protover/lib.rs:460-464 | Link 1 is supported and Link 5 is not |
| Voting.Tokens | src/rust/protover/lib.rs:339-342 | every pooled token is non-empty and holds no whitespace |
| Voting.TokensOfJoin | src/rust/protover/lib.rs:339-342 | the flattened tokens of all votes are the tokens of the votes joined by spaces |
| Voting.VoteEntry | src/rust/protover/lib.rs:347-362 | no '=' means the entry is skipped; a kept entry is "name=vers" with vers parsing to the versions |
| Voting.VoteEntryOf | src/rust/protover/lib.rs:347-362 | "name=vers" is kept iff vers parses; any name is accepted |
| Voting.PoolByName | src/rust/protover/lib.rs:364-370 | the pool has a key per name some kept entry uses, holding all that name's versions in entry order |
| Voting.TallyByName | src/rust/protover/lib.rs:336-374 | the same, stated for a list of tokens |
| Voting.ParseProtocolsWithDuplicates | src/rust/protover/lib.rs:336-374 | the loop returns `Ok` of the tally of all votes' tokens |
| Voting.Count | src/rust/protover/lib.rs:421 | the filter-count is the number of occurrences |
| Voting.LowThresholdKeepsAll | src/rust/protover/lib.rs:421-422 | a threshold of 0 or 1 keeps every listed version |
| Voting.NegativeThresholdKeepsNone | src/rust/protover/lib.rs:422 | a negative threshold wraps to a huge `usize`, so nothing is kept |
| Voting.MeetsThreshold | src/rust/protover/lib.rs:416-427 | the loop keeps exactly the versions occurring at least `bound` times |
| Voting.VoteMapKeeps | src/rust/protover/lib.rs:415-435 | the vote keeps exactly the protocols with a surviving version, each with their contracted list |
| Voting.VoteMapSingle | src/rust/protover/lib.rs:415-435 | a tally of one protocol with surviving versions votes for that protocol alone, with its contracted survivors |
| Voting.ContractNothing | src/rust/protover/lib.rs:431-432 | a set contracts to "" iff it is empty |
| Voting.SortKeysAscending | src/rust/protover/lib.rs:443-444 | sorting distinct names makes them strictly ascending |
| Voting.KeysUnique | src/rust/protover/lib.rs:444 | two ascending lists of the same names are equal |
| Voting.CollectKeys | src/rust/protover/lib.rs:443 | `keys().collect()` yields each key once |
| Voting.WriteVoteToString | src/rust/protover/lib.rs:442-451 | the loop returns `VoteText(vote)`: "name=versions" entries, names ascending, joined by spaces |
| Voting.VoteTextReadsBack | src/rust/protover/lib.rs:442-451 | the written vote reads back as one entry per name, in ascending order, each splitting at '=' into name and versions |
| Voting.KeysCount | src/rust/protover/lib.rs:443-450 | the written vote has one entry per key of the map |
| Voting.SurvivorsCount | src/rust/protover/lib.rs:421-424 | with a positive bound, the survivors are the versions occurring at least `bound` times |
| Voting.VoteCountsOccurrences | src/rust/protover/lib.rs:397-438 | a name is voted iff some version occurs `bound` times among all its entries, counting repeats within one vote; it gets the contracted survivors |
| Voting.VoteTextEmpty | src/rust/protover/lib.rs:442-451 | an empty vote is written as "" |
| Voting.NegativeThresholdVotesNothing | src/rust/protover/lib.rs:422 | a negative threshold votes for nothing |
| Voting.LowThresholdVotesAll | src/rust/protover/lib.rs:421-433 | a threshold of 0 or 1 votes for every version any vote lists |
| Voting.ComputeVote | src/rust/protover/lib.rs:397-438 | "" for no votes; otherwise the pooled, thresholded, contracted and written vote |
| Voting.SelectVersions | src/rust/protover/lib.rs:415-435 | the loop over pooled protocols builds `VoteMap` |
| Voting.ComputeVoteExample | src/rust/protover/lib.rs:393-395 | votes "X=3-4" and "X=3" at threshold 2 give "X=3", for any name X |
| Voting.SameReportCountsTwice | src/rust/protover/lib.rs:419-422 | one vote listing "X=3" twice reaches threshold 2 on its own |
| Legacy.ComputeForOldTor | src/rust/protover/lib.rs:479-506 | one of the three lists or ""; "" for any version that advertises its own protocols, or is older than all three releases |
| Legacy.ComputeForOldTorBrackets | src/rust/protover/lib.rs:479-506 | for an ordered comparison, each list goes to exactly the versions from its release up to the next |
| Legacy.DistinctLists | src/rust/protover/lib.rs:488-503 | the three lists differ from each other and from "" |

## Left out

- `ffi.rs`, the C glue `protover_rust.c`, `smartlist.rs` and the headers `protover.h` and `versions.h` are not part of this model.
- `tor_version_as_new_as` is C code, reached through `external`. `Legacy.ComputeForOldTor` takes it as a parameter. `Legacy.ComputeForOldTorBrackets` assumes only that it orders the four release strings.
- Legacy.DistinctLists: the three legacy lists are kept as text. The model does not prove they parse, because the source never parses them.
- Allocation and the performance behaviour of large inputs (the 500-version cap is modelled, memory use is not).
- `HashMap` and `HashSet` iteration order: `Contraction.Drain` and `Voting.CollectKeys` may return any order that holds each element once. `Voting.SelectVersions` visits the protocols in an unspecified order. Every result is proved independent of that order.
- Voting.ParseProtocolsWithDuplicates: always returns `Ok`, as the source does. Its error arm in `compute_vote` is therefore unreachable and not modelled.
- Voting.NegativeThresholdKeepsNone: assumes a protocol lists fewer than 2^64 - 2^31 versions. With a 64-bit `usize`, a negative `i32` threshold becomes at least that count.
- Voting.NegativeThresholdVotesNothing: has the same bound on each pooled list.
- `usize` is taken as 64 bits wide. On a 32-bit target `threshold as usize` wraps differently.
- `find_range` adds `range_end + 1` in `u32`, which could overflow at `u32::MAX`. Contraction.FindRange uses unbounded integers, so at 4294967295 it does not model the debug-build panic or the release-build wrap.
- `Voting.Vote`, `Voting.VoteMap`, `Voting.VoteText` and `Contraction.Ascending` are ghost specification functions. The compiled path goes through the methods that are proved equal to them.
- Voting.ComputeVoteExample, Voting.SameReportCountsTwice: stated for any protocol name X, not only the literal "Link" of the documentation example.
- VersionList.VersionsOfNumberThenRange: states the unit test "1,3-5" for every n < lo <= hi instead of the literal text.
- Decimal.ParseU32Overflow: states the refusal of overflowing text for every value past `u32::MAX`, not for a literal such as "4294967296".
- The examples in the documentation of `all_supported` and `protover_string_supports_protocol`, and the commented-out `test_all_supported`, are stated with entries built as `Name(p) + "=" + versions`; `Queries.ExamplesSpelled` shows that these are the literal texts. The `all_supported` examples are stated on `UnsupportedEntries`, whose joined text is what `Queries.AllSupported` returns. `Queries.AllSupportedConsUnknown` is stated for any unknown name, and `Queries.WombatUnknown` shows that "Wombat" is one.
- Queries.ProtoverStringSupportsProtocol: its own contract covers only the parse-failure case. The other cases are stated in `Queries.SupportsProtocolPanics` and `Queries.SupportsProtocolLastEntry`, under the condition that every entry parses.
