/** `compute_for_old_tor`: the protocol lists directory authorities assume
    for relays whose Tor version predates protocol advertisement. The
    version comparison is Tor's C function `tor_version_as_new_as`, which
    this model takes as a parameter. */
module Legacy {
  /** The first Tor version that put "proto" entries in its descriptors. */
  const FIRST_TOR_VERSION_TO_ADVERTISE_PROTOCOLS: string := "0.2.9.3-alpha"

  /** The protocols of Tor 0.2.9.1-alpha up to 0.2.9.3-alpha. */
  const PROTOCOLS_SINCE_0_2_9_1: string :=
    "Cons=1-2 Desc=1-2 DirCache=1 HSDir=1 HSIntro=3 HSRend=1-2 Link=1-4 LinkAuth=1 Microdesc=1-2 Relay=1-2"

  /** The protocols of Tor 0.2.7.5 up to 0.2.9.1-alpha. */
  const PROTOCOLS_SINCE_0_2_7_5: string :=
    "Cons=1-2 Desc=1-2 DirCache=1 HSDir=1 HSIntro=3 HSRend=1 Link=1-4 LinkAuth=1 Microdesc=1-2 Relay=1-2"

  /** The protocols of Tor 0.2.4.19 up to 0.2.7.5. */
  const PROTOCOLS_SINCE_0_2_4_19: string :=
    "Cons=1 Desc=1 DirCache=1 HSDir=1 HSIntro=3 HSRend=1 Link=1-4 LinkAuth=1 Microdesc=1 Relay=1-2"

  /** `compute_for_old_tor`: nothing for a version that advertises its own
      protocols; otherwise the list of the newest of the three known
      releases the version is as new as; nothing for anything older.
      `asNewAs(version, other)` is `tor_version_as_new_as`. */
  function ComputeForOldTor(version: string, asNewAs: (string, string) -> bool): (r: string)
    ensures r in {"", PROTOCOLS_SINCE_0_2_9_1, PROTOCOLS_SINCE_0_2_7_5, PROTOCOLS_SINCE_0_2_4_19}
    ensures asNewAs(version, FIRST_TOR_VERSION_TO_ADVERTISE_PROTOCOLS) ==> r == ""
    ensures r == "" <==>
      asNewAs(version, FIRST_TOR_VERSION_TO_ADVERTISE_PROTOCOLS) ||
      (!asNewAs(version, "0.2.9.1-alpha") && !asNewAs(version, "0.2.7.5") && !asNewAs(version, "0.2.4.19"))
  {
    if asNewAs(version, FIRST_TOR_VERSION_TO_ADVERTISE_PROTOCOLS) then ""
    else if asNewAs(version, "0.2.9.1-alpha") then PROTOCOLS_SINCE_0_2_9_1
    else if asNewAs(version, "0.2.7.5") then PROTOCOLS_SINCE_0_2_7_5
    else if asNewAs(version, "0.2.4.19") then PROTOCOLS_SINCE_0_2_4_19
    else ""
  }

  /** A comparison that agrees with the order of the four releases: a
      version as new as a later release is as new as every earlier one. */
  ghost predicate Ordered(asNewAs: (string, string) -> bool)
  {
    forall v: string ::
      && (asNewAs(v, FIRST_TOR_VERSION_TO_ADVERTISE_PROTOCOLS) ==> asNewAs(v, "0.2.9.1-alpha"))
      && (asNewAs(v, "0.2.9.1-alpha") ==> asNewAs(v, "0.2.7.5"))
      && (asNewAs(v, "0.2.7.5") ==> asNewAs(v, "0.2.4.19"))
  }

  /** With such a comparison, each list goes exactly to the versions from
      its release up to (not including) the next one. */
  lemma ComputeForOldTorBrackets(version: string, asNewAs: (string, string) -> bool)
    requires Ordered(asNewAs)
    ensures ComputeForOldTor(version, asNewAs) == PROTOCOLS_SINCE_0_2_9_1 <==>
      asNewAs(version, "0.2.9.1-alpha") && !asNewAs(version, FIRST_TOR_VERSION_TO_ADVERTISE_PROTOCOLS)
    ensures ComputeForOldTor(version, asNewAs) == PROTOCOLS_SINCE_0_2_7_5 <==>
      asNewAs(version, "0.2.7.5") && !asNewAs(version, "0.2.9.1-alpha")
    ensures ComputeForOldTor(version, asNewAs) == PROTOCOLS_SINCE_0_2_4_19 <==>
      asNewAs(version, "0.2.4.19") && !asNewAs(version, "0.2.7.5")
    ensures ComputeForOldTor(version, asNewAs) == "" <==>
      asNewAs(version, FIRST_TOR_VERSION_TO_ADVERTISE_PROTOCOLS) || !asNewAs(version, "0.2.4.19")
  {
    DistinctLists();
  }

  /** The three lists and the empty text are four different answers. */
  lemma DistinctLists()
    ensures PROTOCOLS_SINCE_0_2_9_1 != PROTOCOLS_SINCE_0_2_7_5
    ensures PROTOCOLS_SINCE_0_2_9_1 != PROTOCOLS_SINCE_0_2_4_19
    ensures PROTOCOLS_SINCE_0_2_7_5 != PROTOCOLS_SINCE_0_2_4_19
    ensures PROTOCOLS_SINCE_0_2_9_1 != "" && PROTOCOLS_SINCE_0_2_7_5 != "" && PROTOCOLS_SINCE_0_2_4_19 != ""
  {
    assert |PROTOCOLS_SINCE_0_2_9_1| == 101;
    assert |PROTOCOLS_SINCE_0_2_7_5| == 99;
    assert |PROTOCOLS_SINCE_0_2_4_19| == 93;
  }
}
