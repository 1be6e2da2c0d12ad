/**
 * The validators of the corosync.conf option sections: the udp/udpu and knet
 * transport options (with knet compression and crypto), the totem section and
 * the quorum section on creation and on update.
 *
 * None of these checks can be forced: names are strictly allow-listed and the
 * values are enumerations or numbers.
 */
module CorosyncOptions {
  import opened Wrappers
  import opened Validate
  import opened CorosyncConstants

  const IpVersions: seq<string> := ["ipv4", "ipv6"]

  /** The udp/udpu transport check and the validity it decides. */
  const UdpTransportAllowed: seq<string> := ["ip_version", "netmtu"]

  function UdpTransportValidators(): (validators: seq<Validator>)
    ensures |validators| == 2 && forall k :: 0 <= k < 2 ==> NeverForceable(validators[k])
  {
    [ValueIn("ip_version", IpVersions, NotForceable), ValuePositiveInteger("netmtu", NotForceable)]
  }

  predicate UdpTransportValid(fw: Framework, o: Options) {
    NamesAllowed(o, UdpTransportAllowed)
    && ValueSatisfies(o, "ip_version", x => x in IpVersions)
    && ValueSatisfies(o, "netmtu", x => IsIntegerAtLeast(fw, x, 1))
  }

  /**
   * Options of the udp/udpu transport: nothing is reported exactly when the
   * options are valid, and every report is an error that cannot be forced.
   */
  function CreateTransportUdp(fw: Framework, o: Options): (reports: seq<Report>)
    ensures reports == [] <==> UdpTransportValid(fw, o)
    ensures AllSatisfy(reports, UnforcedOptionReport)
  {
    var validators := UdpTransportValidators();
    var values := RunCollection(fw, o, validators);
    var names := NamesIn(UdpTransportAllowed, Keys(o), "udp/udpu transport", NotForceable, []);
    assert values == [] <==> Accepts(fw, validators[0], o) && Accepts(fw, validators[1], o) by {
      RunCollectionAccepts(fw, o, validators);
      assert AcceptsAll(fw, validators, o) <==> Accepts(fw, validators[0], o) && Accepts(fw, validators[1], o);
    }
    NamesInReportsExactly(UdpTransportAllowed, Keys(o), "udp/udpu transport", NotForceable, []);
    SectionUnforced(fw, o, validators, UdpTransportAllowed, "udp/udpu transport", []);
    values + names
  }


  const KnetGenericAllowed: seq<string> := ["ip_version", "knet_pmtud_interval", "link_mode"]
  const KnetLinkModes: seq<string> := ["active", "passive", "rr"]
  const CompressionAllowed: seq<string> := ["level", "model", "threshold"]
  const CryptoAllowed: seq<string> := ["cipher", "hash", "model"]
  const CryptoCiphers: seq<string> := ["none", "aes256", "aes192", "aes128", "3des"]
  const CryptoHashes: seq<string> := ["none", "md5", "sha1", "sha256", "sha384", "sha512"]
  const CryptoModels: seq<string> := ["nss", "openssl"]

  function KnetGenericValidators(): (validators: seq<Validator>)
    ensures |validators| == 3 && forall k :: 0 <= k < 3 ==> NeverForceable(validators[k])
  {
    [ ValueIn("ip_version", IpVersions, NotForceable),
      ValueNonnegativeInteger("knet_pmtud_interval", NotForceable),
      ValueIn("link_mode", KnetLinkModes, NotForceable) ]
  }

  function CompressionValidators(): (validators: seq<Validator>)
    ensures |validators| == 3 && forall k :: 0 <= k < 3 ==> NeverForceable(validators[k])
  {
    [ ValueNotEmpty("level", "a compression level e.g. 0..9", "level"),
      ValueNotEmpty("model", "a compression model e.g. zlib, lz4 or bzip2", "model"),
      ValueNonnegativeInteger("threshold", NotForceable) ]
  }

  function CryptoValidators(): (validators: seq<Validator>)
    ensures |validators| == 3 && forall k :: 0 <= k < 3 ==> NeverForceable(validators[k])
  {
    [ ValueIn("cipher", CryptoCiphers, NotForceable),
      ValueIn("hash", CryptoHashes, NotForceable),
      ValueIn("model", CryptoModels, NotForceable) ]
  }

  /**
   * Encryption without authentication: the cipher in effect (default aes256)
   * is not "none" while the hash in effect (default sha1) is "none".
   */
  predicate CipherWithoutHash(crypto: Options) {
    GetOr(crypto, "cipher", "aes256") != "none" && GetOr(crypto, "hash", "sha1") == "none"
  }

  /**
   * A section check of three unforceable validators reports nothing exactly
   * when each of the three accepts and every name is allowed, and reports
   * only unforceable option reports.
   */
  lemma SectionOfThree(fw: Framework, o: Options, validators: seq<Validator>, allowed: seq<string>, optionType: string)
    requires |validators| == 3 && forall k :: 0 <= k < 3 ==> NeverForceable(validators[k])
    ensures RunCollection(fw, o, validators) + NamesIn(allowed, Keys(o), optionType, NotForceable, []) == [] <==>
      Accepts(fw, validators[0], o) && Accepts(fw, validators[1], o) && Accepts(fw, validators[2], o) && NamesAllowed(o, allowed)
    ensures AllSatisfy(RunCollection(fw, o, validators) + NamesIn(allowed, Keys(o), optionType, NotForceable, []), UnforcedOptionReport)
  {
    SectionUnforced(fw, o, validators, allowed, optionType, []);
    SectionAccepts(fw, o, validators, allowed, optionType, NotForceable, []);
    assert AcceptsAll(fw, validators, o) <==>
        Accepts(fw, validators[0], o) && Accepts(fw, validators[1], o) && Accepts(fw, validators[2], o) by {
      if Accepts(fw, validators[0], o) && Accepts(fw, validators[1], o) && Accepts(fw, validators[2], o) {
        forall k | 0 <= k < 3 ensures Accepts(fw, validators[k], o) {
          if k == 0 {} else if k == 1 {} else {}
        }
      }
    }
  }

  predicate KnetGenericValid(fw: Framework, generic: Options) {
    NamesAllowed(generic, KnetGenericAllowed)
    && ValueSatisfies(generic, "ip_version", x => x in IpVersions)
    && ValueSatisfies(generic, "knet_pmtud_interval", x => IsIntegerAtLeast(fw, x, 0))
    && ValueSatisfies(generic, "link_mode", x => x in KnetLinkModes)
  }

  /** The generic knet options: rejections only, none exactly when valid. */
  function KnetGenericChecks(fw: Framework, generic: Options): (reports: seq<Report>)
    ensures reports == [] <==> KnetGenericValid(fw, generic)
    ensures AllSatisfy(reports, UnforcedOptionReport)
  {
    var validators := KnetGenericValidators();
    SectionOfThree(fw, generic, validators, KnetGenericAllowed, "transport");
    RunCollection(fw, generic, validators) + NamesIn(KnetGenericAllowed, Keys(generic), "transport", NotForceable, [])
  }

  predicate CompressionValid(fw: Framework, compression: Options) {
    NamesAllowed(compression, CompressionAllowed)
    && Get(compression, "level") != Some("")
    && Get(compression, "model") != Some("")
    && ValueSatisfies(compression, "threshold", x => IsIntegerAtLeast(fw, x, 0))
  }

  /** The knet compression options: rejections only, none exactly when valid. */
  function CompressionChecks(fw: Framework, compression: Options): (reports: seq<Report>)
    ensures reports == [] <==> CompressionValid(fw, compression)
    ensures AllSatisfy(reports, UnforcedOptionReport)
  {
    var validators := CompressionValidators();
    SectionOfThree(fw, compression, validators, CompressionAllowed, "compression");
    RunCollection(fw, compression, validators) + NamesIn(CompressionAllowed, Keys(compression), "compression", NotForceable, [])
  }

  predicate CryptoValid(crypto: Options) {
    NamesAllowed(crypto, CryptoAllowed)
    && ValueSatisfies(crypto, "cipher", x => x in CryptoCiphers)
    && ValueSatisfies(crypto, "hash", x => x in CryptoHashes)
    && ValueSatisfies(crypto, "model", x => x in CryptoModels)
  }

  /** The knet crypto options, before the cipher-and-hash rule: rejections only, none exactly when valid. */
  function CryptoChecks(fw: Framework, crypto: Options): (reports: seq<Report>)
    ensures reports == [] <==> CryptoValid(crypto)
    ensures AllSatisfy(reports, UnforcedOptionReport)
  {
    var validators := CryptoValidators();
    SectionOfThree(fw, crypto, validators, CryptoAllowed, "crypto");
    RunCollection(fw, crypto, validators) + NamesIn(CryptoAllowed, Keys(crypto), "crypto", NotForceable, [])
  }

  /** The three knet sections checked one after the other: rejections only, none exactly when all three are valid. */
  function KnetSectionChecks(fw: Framework, generic: Options, compression: Options, crypto: Options): (reports: seq<Report>)
    ensures reports == [] <==> KnetGenericValid(fw, generic) && CompressionValid(fw, compression) && CryptoValid(crypto)
    ensures AllSatisfy(reports, UnforcedOptionReport)
  {
    var g := KnetGenericChecks(fw, generic);
    var z := CompressionChecks(fw, compression);
    var y := CryptoChecks(fw, crypto);
    AllSatisfyAppend(g, z, UnforcedOptionReport);
    AllSatisfyAppend(g + z, y, UnforcedOptionReport);
    g + z + y
  }

  /** The rule that a crypto cipher needs a crypto hash. */
  function CipherRule(crypto: Options): (reports: seq<Report>)
    ensures reports == [] <==> !CipherWithoutHash(crypto)
    ensures AllSatisfy(reports, Unforced)
  {
    if CipherWithoutHash(crypto) then [Report(CorosyncCryptoCipherRequiresCryptoHash, Error, None)] else []
  }

  /**
   * Options of the knet transport, its compression and its crypto: nothing is
   * reported exactly when all three are valid and the crypto does not encrypt
   * without a hash; every report is an error that cannot be forced.
   */
  function CreateTransportKnet(fw: Framework, generic: Options, compression: Options, crypto: Options): (reports: seq<Report>)
    ensures reports == [] <==>
      KnetGenericValid(fw, generic) && CompressionValid(fw, compression) && CryptoValid(crypto) && !CipherWithoutHash(crypto)
    ensures AllSatisfy(reports, Unforced)
  {
    var checks := KnetSectionChecks(fw, generic, compression, crypto);
    var rule := CipherRule(crypto);
    assert AllSatisfy(checks, Unforced) by {
      assert forall r :: UnforcedOptionReport(r) ==> Unforced(r);
    }
    AllSatisfyAppend(checks, rule, Unforced);
    checks + rule
  }

  /**
   * The cipher-requires-hash report appears once exactly when the crypto
   * options encrypt without authenticating, and never otherwise.
   */
  lemma CreateTransportKnetCipherRequiresHash(fw: Framework, generic: Options, compression: Options, crypto: Options)
    ensures Count(CreateTransportKnet(fw, generic, compression, crypto), (c: Code) => c.CorosyncCryptoCipherRequiresCryptoHash?)
      == if CipherWithoutHash(crypto) then 1 else 0
  {
    var p := (c: Code) => c.CorosyncCryptoCipherRequiresCryptoHash?;
    var checks := KnetSectionChecks(fw, generic, compression, crypto);
    CountZero(checks, p);
    CountAppend(checks, CipherRule(crypto), p);
    CountOptional(CipherWithoutHash(crypto), Report(CorosyncCryptoCipherRequiresCryptoHash, Error, None), p);
  }

  /** The totem options: each is a non-negative integer. */
  const TotemAllowed: seq<string> := [
    "consensus", "downcheck", "fail_recv_const", "heartbeat_failures_allowed",
    "hold", "join", "max_messages", "max_network_delay", "merge",
    "miss_count_const", "send_join", "seqno_unchanged_const", "token",
    "token_coefficient", "token_retransmit",
    "token_retransmits_before_loss_const", "window_size"]

  function TotemValidators(): (validators: seq<Validator>)
    ensures |validators| == |TotemAllowed|
    ensures forall k :: 0 <= k < |validators| ==> validators[k] == ValueNonnegativeInteger(TotemAllowed[k], NotForceable)
  {
    seq(|TotemAllowed|, k requires 0 <= k < |TotemAllowed| => ValueNonnegativeInteger(TotemAllowed[k], NotForceable))
  }

  /** The totem validators all accept exactly when every totem option is absent or a non-negative integer. */
  lemma TotemAcceptsAll(fw: Framework, o: Options)
    ensures AcceptsAll(fw, TotemValidators(), o) <==>
      forall n :: n in TotemAllowed ==> ValueSatisfies(o, n, x => IsIntegerAtLeast(fw, x, 0))
  {
    var validators := TotemValidators();
    if AcceptsAll(fw, validators, o) {
      forall n | n in TotemAllowed ensures ValueSatisfies(o, n, x => IsIntegerAtLeast(fw, x, 0)) {
        var k :| 0 <= k < |TotemAllowed| && TotemAllowed[k] == n;
        assert Accepts(fw, validators[k], o);
      }
    }
    if forall n :: n in TotemAllowed ==> ValueSatisfies(o, n, x => IsIntegerAtLeast(fw, x, 0)) {
      forall k | 0 <= k < |validators| ensures Accepts(fw, validators[k], o) {
        assert TotemAllowed[k] in TotemAllowed;
      }
    }
  }

  /**
   * The totem section: nothing is reported exactly when every name is a
   * totem option and every value a non-negative integer; no report can be forced.
   */
  function CreateTotem(fw: Framework, o: Options): (reports: seq<Report>)
    ensures reports == [] <==>
      NamesAllowed(o, TotemAllowed) && forall n :: n in TotemAllowed ==> ValueSatisfies(o, n, x => IsIntegerAtLeast(fw, x, 0))
    ensures AllSatisfy(reports, UnforcedOptionReport)
  {
    var validators := TotemValidators();
    SectionAccepts(fw, o, validators, TotemAllowed, "totem", NotForceable, []);
    TotemAcceptsAll(fw, o);
    SectionUnforced(fw, o, validators, TotemAllowed, "totem", []);
    RunCollection(fw, o, validators) + NamesIn(TotemAllowed, Keys(o), "totem", NotForceable, [])
  }


  const QuorumBool: seq<string> := ["0", "1"]

  /** The quorum option checks, each wrapped to let an empty value through when `allowEmptyValues`. */
  function QuorumValidators(allowEmptyValues: bool): (validators: seq<Validator>)
    ensures |validators| == 4
    ensures forall k, c :: 0 <= k < 4 && Yields(validators[k], c) ==> c.InvalidOptionValue?
  {
    var plain := [
      ValueIn("auto_tie_breaker", QuorumBool, NotForceable),
      ValueIn("last_man_standing", QuorumBool, NotForceable),
      ValuePositiveInteger("last_man_standing_window", NotForceable),
      ValueIn("wait_for_all", QuorumBool, NotForceable)];
    if !allowEmptyValues then plain
    else seq(4, k requires 0 <= k < 4 => ValueEmptyOrValid(plain[k].name, plain[k]))
  }

  /** The report listing, in input order, the options that cannot be used with a quorum device. */
  function QdeviceIncompatible(c: Constants, o: Options, hasQdevice: bool): seq<Report> {
    var incompatible := Among(Keys(o), c.quorumOptionsIncompatibleWithQdevice);
    if hasQdevice && |incompatible| > 0 then [Report(CorosyncOptionsIncompatibleWithQdevice(incompatible), Error, None)]
    else []
  }

  function ValidateQuorumOptions(fw: Framework, c: Constants, o: Options, hasQdevice: bool, allowEmptyValues: bool): seq<Report> {
    RunCollection(fw, o, QuorumValidators(allowEmptyValues))
    + NamesIn(c.quorumOptions, Keys(o), "quorum", NotForceable, [])
    + QdeviceIncompatible(c, o, hasQdevice)
  }

  /** Quorum options on creation: empty values are checked, and the window depends on last_man_standing. */
  function CreateQuorumOptions(fw: Framework, c: Constants, o: Options, hasQdevice: bool): seq<Report> {
    ValidateQuorumOptions(fw, c, o, hasQdevice, false)
    + RunCollection(fw, o, [DependsOnOption("last_man_standing_window", "last_man_standing")])
  }

  /** Quorum options on update: an empty value removes an option and is not checked. */
  function UpdateQuorumOptions(fw: Framework, c: Constants, o: Options, hasQdevice: bool): seq<Report> {
    ValidateQuorumOptions(fw, c, o, hasQdevice, true)
  }

  /** The quorum value checks and the name check never report incompatibility with a quorum device. */
  lemma QuorumChecksNotIncompatible(fw: Framework, c: Constants, o: Options, allowEmptyValues: bool)
    ensures Count(RunCollection(fw, o, QuorumValidators(allowEmptyValues)) + NamesIn(c.quorumOptions, Keys(o), "quorum", NotForceable, []),
      (x: Code) => x.CorosyncOptionsIncompatibleWithQdevice?) == 0
  {
    var p := (x: Code) => x.CorosyncOptionsIncompatibleWithQdevice?;
    var a := RunCollection(fw, o, QuorumValidators(allowEmptyValues));
    var b := NamesIn(c.quorumOptions, Keys(o), "quorum", NotForceable, []);
    RunCollectionNever(fw, o, QuorumValidators(allowEmptyValues), p);
    NamesInNever(c.quorumOptions, Keys(o), "quorum", NotForceable, [], p);
    CountAppend(a, b, p);
  }

  /**
   * With a quorum device, the incompatible options that are set are reported
   * exactly once; without one, never.
   */
  lemma QuorumIncompatibleWithQdevice(fw: Framework, c: Constants, o: Options, hasQdevice: bool, allowEmptyValues: bool)
    ensures Count(ValidateQuorumOptions(fw, c, o, hasQdevice, allowEmptyValues), (x: Code) => x.CorosyncOptionsIncompatibleWithQdevice?)
      == if hasQdevice && exists n :: n in Keys(o) && n in c.quorumOptionsIncompatibleWithQdevice then 1 else 0
  {
    var p := (x: Code) => x.CorosyncOptionsIncompatibleWithQdevice?;
    var a := RunCollection(fw, o, QuorumValidators(allowEmptyValues));
    var b := NamesIn(c.quorumOptions, Keys(o), "quorum", NotForceable, []);
    var d := QdeviceIncompatible(c, o, hasQdevice);
    var incompatible := Among(Keys(o), c.quorumOptionsIncompatibleWithQdevice);
    assert Count(a + b, p) == 0 by {
      QuorumChecksNotIncompatible(fw, c, o, allowEmptyValues);
    }
    assert Count(d, p) == if hasQdevice && exists n :: n in Keys(o) && n in c.quorumOptionsIncompatibleWithQdevice then 1 else 0 by {
      assert (exists n :: n in Keys(o) && n in c.quorumOptionsIncompatibleWithQdevice) <==> |incompatible| > 0 by {
        if exists n :: n in Keys(o) && n in c.quorumOptionsIncompatibleWithQdevice {
          var n :| n in Keys(o) && n in c.quorumOptionsIncompatibleWithQdevice;
          assert n in incompatible;
        }
        if |incompatible| > 0 {
          assert incompatible[0] in incompatible;
        }
      }
      CountOptional(hasQdevice && |incompatible| > 0, Report(CorosyncOptionsIncompatibleWithQdevice(incompatible), Error, None), p);
    }
    CountAppend(a + b, d, p);
  }

  /** The incompatibility report, when there is one, lists the incompatible options that are set, in input order. */
  lemma QuorumIncompatibleListed(fw: Framework, c: Constants, o: Options, hasQdevice: bool, allowEmptyValues: bool)
    ensures AllSatisfy(ValidateQuorumOptions(fw, c, o, hasQdevice, allowEmptyValues),
      (r: Report) => r.code.CorosyncOptionsIncompatibleWithQdevice? ==> r.code.incompatibleNames == Among(Keys(o), c.quorumOptionsIncompatibleWithQdevice))
  {
    var p := (x: Code) => x.CorosyncOptionsIncompatibleWithQdevice?;
    var q := (r: Report) => r.code.CorosyncOptionsIncompatibleWithQdevice? ==> r.code.incompatibleNames == Among(Keys(o), c.quorumOptionsIncompatibleWithQdevice);
    var ab := RunCollection(fw, o, QuorumValidators(allowEmptyValues)) + NamesIn(c.quorumOptions, Keys(o), "quorum", NotForceable, []);
    var d := QdeviceIncompatible(c, o, hasQdevice);
    assert AllSatisfy(ab, q) by {
      QuorumChecksNotIncompatible(fw, c, o, allowEmptyValues);
      CountZero(ab, p);
    }
    AllSatisfyAppend(ab, d, q);
  }

  /** Creation reports one missing prerequisite exactly when the window is set without last_man_standing. */
  lemma CreateQuorumDependencyCount(fw: Framework, c: Constants, o: Options, hasQdevice: bool)
    ensures Count(CreateQuorumOptions(fw, c, o, hasQdevice), (x: Code) => x.PrerequisiteOptionIsMissing?)
      == if Has(o, "last_man_standing_window") && !Has(o, "last_man_standing") then 1 else 0
  {
    var p := (x: Code) => x.PrerequisiteOptionIsMissing?;
    var deps := [DependsOnOption("last_man_standing_window", "last_man_standing")];
    var a := RunCollection(fw, o, QuorumValidators(false));
    var b := NamesIn(c.quorumOptions, Keys(o), "quorum", NotForceable, []);
    var d := QdeviceIncompatible(c, o, hasQdevice);
    var e := RunCollection(fw, o, deps);
    var missing := Has(o, "last_man_standing_window") && !Has(o, "last_man_standing");
    assert Count(a, p) == 0 by { RunCollectionNever(fw, o, QuorumValidators(false), p); }
    assert Count(b, p) == 0 by { NamesInNever(c.quorumOptions, Keys(o), "quorum", NotForceable, [], p); }
    assert Count(d, p) == 0;
    assert Count(e, p) == if missing then 1 else 0 by {
      assert deps[1..] == [];
      assert e == Apply(fw, deps[0], o) + RunCollection(fw, o, []);
      CountOptional(missing, Report(PrerequisiteOptionIsMissing("last_man_standing_window", "last_man_standing"), Error, None), p);
    }
    CountAppend(a, b, p);
    CountAppend(a + b, d, p);
    CountAppend(a + b + d, e, p);
  }


  /** The missing-prerequisite report, when there is one, comes last. */
  lemma CreateQuorumDependencyLast(fw: Framework, c: Constants, o: Options, hasQdevice: bool)
    ensures Has(o, "last_man_standing_window") && !Has(o, "last_man_standing") ==>
      var reports := CreateQuorumOptions(fw, c, o, hasQdevice);
      |reports| > 0 && reports[|reports| - 1] == Report(PrerequisiteOptionIsMissing("last_man_standing_window", "last_man_standing"), Error, None)
  {
    if Has(o, "last_man_standing_window") && !Has(o, "last_man_standing") {
      var deps := [DependsOnOption("last_man_standing_window", "last_man_standing")];
      var missing := Report(PrerequisiteOptionIsMissing("last_man_standing_window", "last_man_standing"), Error, None);
      var checks := ValidateQuorumOptions(fw, c, o, hasQdevice, false);
      assert RunCollection(fw, o, deps) == [missing] by {
        assert deps[1..] == [];
        assert RunCollection(fw, o, deps) == Apply(fw, deps[0], o) + RunCollection(fw, o, deps[1..]);
      }
      assert CreateQuorumOptions(fw, c, o, hasQdevice) == checks + [missing];
    }
  }


  /** Update never reports the window's dependency on last_man_standing. */
  lemma UpdateQuorumNoDependency(fw: Framework, c: Constants, o: Options, hasQdevice: bool)
    ensures Count(UpdateQuorumOptions(fw, c, o, hasQdevice), (x: Code) => x.PrerequisiteOptionIsMissing?) == 0
  {
    var p := (x: Code) => x.PrerequisiteOptionIsMissing?;
    var a := RunCollection(fw, o, QuorumValidators(true));
    var b := NamesIn(c.quorumOptions, Keys(o), "quorum", NotForceable, []);
    var d := QdeviceIncompatible(c, o, hasQdevice);
    assert Count(a + b, p) == 0 by {
      RunCollectionNever(fw, o, QuorumValidators(true), p);
      NamesInNever(c.quorumOptions, Keys(o), "quorum", NotForceable, [], p);
      CountAppend(a, b, p);
    }
    assert Count(d, p) == 0 by {
      CountOptional(d != [], Report(CorosyncOptionsIncompatibleWithQdevice(Among(Keys(o), c.quorumOptionsIncompatibleWithQdevice)), Error, None), p);
    }
    CountAppend(a + b, d, p);
  }

  /** Update never rejects an empty value. */
  lemma UpdateQuorumAcceptsEmptyValues(fw: Framework, c: Constants, o: Options, hasQdevice: bool)
    ensures forall r :: r in UpdateQuorumOptions(fw, c, o, hasQdevice) && r.code.InvalidOptionValue? ==> r.code.value != ""
  {
    var validators := QuorumValidators(true);
    var p := (r: Report) => r.code.InvalidOptionValue? ==> r.code.value != "";
    forall k | 0 <= k < |validators| ensures AllSatisfy(Apply(fw, validators[k], o), p) {
    }
    RunCollectionEvery(fw, o, validators, p);
  }

  /** Creation rejects an empty value of a boolean quorum option. */
  lemma CreateQuorumRejectsEmptyValues(fw: Framework, c: Constants, o: Options, hasQdevice: bool, name: string)
    requires name in ["auto_tie_breaker", "last_man_standing", "wait_for_all"]
    requires Get(o, name) == Some("")
    ensures Report(InvalidOptionValue(name, "", Values(QuorumBool)), Error, None) in CreateQuorumOptions(fw, c, o, hasQdevice)
  {
    var validators := QuorumValidators(false);
    var k := if name == "auto_tie_breaker" then 0 else if name == "last_man_standing" then 1 else 3;
    var r := Report(InvalidOptionValue(name, "", Values(QuorumBool)), Error, None);
    var a := RunCollection(fw, o, validators);
    assert r in a by {
      assert r in Apply(fw, validators[k], o) by {
        assert validators[k] == ValueIn(name, QuorumBool, NotForceable);
        assert "" !in QuorumBool;
      }
      RunCollectionIncludes(fw, o, validators, k);
    }
    var b := NamesIn(c.quorumOptions, Keys(o), "quorum", NotForceable, []);
    var d := QdeviceIncompatible(c, o, hasQdevice);
    var e := RunCollection(fw, o, [DependsOnOption("last_man_standing_window", "last_man_standing")]);
    assert r in a + b + d + e;
  }
}
