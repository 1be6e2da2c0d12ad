/**
 * Validation of adding and updating a quorum device (config_validators.py):
 * the options of the "net" model, the generic quorum device options and the
 * heuristics options, whose `exec_NAME` entries are checked against the
 * exec-name expression (a field of `Constants`).
 *
 * The pure option sections are functions; the helpers the source writes as
 * loops that append (the generic names check, the split of the heuristics
 * options, the exec-name check, the collection of the exec value checks) are
 * methods proved against the functions that specify them, and so are the
 * entry points that call them.
 */
module CorosyncQdevice {
  import opened Wrappers
  import opened Strings
  import opened Validate
  import opened CorosyncConstants

  const NetRequiredOptions: seq<string> := ["algorithm", "host"]
  const NetOptionalOptions: seq<string> := ["connect_timeout", "force_ip_version", "port", "tie_breaker"]
  const ModelOptionType := "quorum device model"
  const GenericOptionType := "quorum device"
  const GenericAllowed: seq<string> := ["sync_timeout", "timeout"]
  const HeuristicsOptionType := "heuristics"
  const HeuristicsAllowed: seq<string> := ["interval", "mode", "sync_timeout", "timeout"]
  const HeuristicsModes: seq<string> := ["off", "on", "sync"]
  const IpVersions: seq<string> := ["0", "4", "6"]
  const ConnectTimeoutMin := 1000
  const ConnectTimeoutMax := 2 * 60 * 1000
  const HostDescription := "a qdevice host address"
  const ExecValueDescription := "a command to be run"
  const ExecNameRule := "exec_NAME cannot contain '.:{}#' and whitespace characters"

  /** The quorum device a user asks to add or update. */
  datatype Device = Device(model: string, modelOptions: Options, genericOptions: Options, heuristicsOptions: Options)

  /** Bad values and names are forceable by FORCE_OPTIONS. */
  function ExtraValues(force: bool): Forcing {
    Forceable(ForceOptions, force)
  }

  /**
   * A section's value validators keyed by option name, as the source's
   * dictionaries hold them: taken as they are on add, each wrapped so that an
   * empty value (which removes the option) passes on update.
   */
  function Validators(named: seq<(string, Validator)>, allowEmptyValues: bool): (validators: seq<Validator>)
    ensures |validators| == |named|
    ensures forall k :: 0 <= k < |named| ==>
      validators[k] == if allowEmptyValues then ValueEmptyOrValid(named[k].0, named[k].1) else named[k].1
  {
    if allowEmptyValues then seq(|named|, k requires 0 <= k < |named| => ValueEmptyOrValid(named[k].0, named[k].1))
    else seq(|named|, k requires 0 <= k < |named| => named[k].1)
  }

  /**
   * A section's value validators report nothing exactly when each keyed check
   * accepts the map, or, on update, when its option is absent or empty.
   */
  lemma ValidatorsAccept(fw: Framework, named: seq<(string, Validator)>, allowEmptyValues: bool, o: Options)
    ensures RunCollection(fw, o, Validators(named, allowEmptyValues)) == [] <==>
      forall k :: 0 <= k < |named| ==>
        (allowEmptyValues && (Get(o, named[k].0).None? || Get(o, named[k].0) == Some(""))) || Accepts(fw, named[k].1, o)
  {
    RunCollectionAccepts(fw, o, Validators(named, allowEmptyValues));
  }

  /** Every validator of a keyed list is a value check of the option it is keyed by, forceable by `f`. */
  predicate KeyedValueChecks(named: seq<(string, Validator)>, f: Forcing) {
    forall k :: 0 <= k < |named| ==>
      ValueCheck(named[k].1) && named[k].1.name == named[k].0 && ForcingWithin(named[k].1, f)
  }

  // ---------------------------------------------------------------------
  // The net model
  // ---------------------------------------------------------------------

  function NetValueValidators(nodeIds: seq<string>, force: bool): seq<(string, Validator)> {
    var f := ExtraValues(force);
    [("connect_timeout", ValueIntegerInRange("connect_timeout", ConnectTimeoutMin, ConnectTimeoutMax, f)),
     ("force_ip_version", ValueIn("force_ip_version", IpVersions, f)),
     ("port", ValuePortNumber("port", f)),
     ("tie_breaker", ValueIn("tie_breaker", ["lowest", "highest"] + nodeIds, f))]
  }

  /** The net model's validators: host and algorithm, then the optional options. */
  function NetValidators(nodeIds: seq<string>, allowEmptyValues: bool, force: bool): seq<Validator> {
    [ValueNotEmpty("host", HostDescription, "host"), QdeviceNetAlgorithm(ExtraValues(force))]
      + Validators(NetValueValidators(nodeIds, force), allowEmptyValues)
  }

  function NetAllowed(): seq<string> {
    NetRequiredOptions + NetOptionalOptions
  }

  function NetAddValidators(nodeIds: seq<string>, force: bool): seq<Validator> {
    [IsRequired("algorithm", ModelOptionType), IsRequired("host", ModelOptionType)] + NetValidators(nodeIds, false, force)
  }

  function NetNames(o: Options, force: bool): seq<Report> {
    NamesIn(NetAllowed(), Keys(o), ModelOptionType, ExtraValues(force), [])
  }

  /** The value checks of every section are keyed by their own option and forceable by FORCE_OPTIONS. */
  lemma ValueValidatorsKeyed(nodeIds: seq<string>, force: bool)
    ensures KeyedValueChecks(NetValueValidators(nodeIds, force), ExtraValues(force))
    ensures KeyedValueChecks(GenericValueValidators(force), ExtraValues(force))
    ensures KeyedValueChecks(HeuristicsValueValidators(force), ExtraValues(force))
  {
  }

  lemma ValidatorsForcing(named: seq<(string, Validator)>, allowEmptyValues: bool, f: Forcing)
    requires KeyedValueChecks(named, f)
    ensures forall k :: 0 <= k < |named| ==> ForcingWithin(Validators(named, allowEmptyValues)[k], f)
  {
  }

  /** Every check of the net model is forceable by FORCE_OPTIONS, if at all. */
  lemma NetValidatorsForcing(nodeIds: seq<string>, allowEmptyValues: bool, force: bool)
    ensures forall k :: 0 <= k < |NetValidators(nodeIds, allowEmptyValues, force)| ==>
      ForcingWithin(NetValidators(nodeIds, allowEmptyValues, force)[k], ExtraValues(force))
    ensures forall k :: 0 <= k < |NetAddValidators(nodeIds, force)| ==>
      ForcingWithin(NetAddValidators(nodeIds, force)[k], ExtraValues(force))
  {
    ValueValidatorsKeyed(nodeIds, force);
    ValidatorsForcing(NetValueValidators(nodeIds, force), allowEmptyValues, ExtraValues(force));
    ValidatorsForcing(NetValueValidators(nodeIds, force), false, ExtraValues(force));
  }

  /** The net model's options on add: both required options present, every value and name valid. */
  function AddModelNetReports(fw: Framework, o: Options, nodeIds: seq<string>, force: bool): seq<Report> {
    RunCollection(fw, o, NetAddValidators(nodeIds, force)) + NetNames(o, force)
  }

  /** The net model's options on update: nothing is required and an empty optional value passes. */
  function UpdateModelNetReports(fw: Framework, o: Options, nodeIds: seq<string>, force: bool): seq<Report> {
    RunCollection(fw, o, NetValidators(nodeIds, true, force)) + NetNames(o, force)
  }

  /** The values of the net model's options are acceptable, stated on the options. */
  predicate NetValuesValid(fw: Framework, o: Options, nodeIds: seq<string>) {
    Get(o, "host") != Some("")
    && (Get(o, "algorithm").None? || Get(o, "algorithm").value in QdeviceNetAlgorithms)
    && NetOptionalValuesValid(fw, o, nodeIds)
  }

  predicate NetOptionalValuesValid(fw: Framework, o: Options, nodeIds: seq<string>) {
    (Get(o, "connect_timeout").None? || IsIntegerIn(fw, Get(o, "connect_timeout").value, ConnectTimeoutMin, ConnectTimeoutMax))
    && (Get(o, "force_ip_version").None? || Get(o, "force_ip_version").value in IpVersions)
    && (Get(o, "port").None? || fw.isPortNumber(Get(o, "port").value))
    && (Get(o, "tie_breaker").None? || Get(o, "tie_breaker").value in ["lowest", "highest"] + nodeIds)
  }

  /** The optional options' checks accept exactly the acceptable values. */
  lemma NetValueValidatorsAccept(fw: Framework, o: Options, nodeIds: seq<string>, force: bool)
    ensures AcceptsAll(fw, Validators(NetValueValidators(nodeIds, force), false), o) <==> NetOptionalValuesValid(fw, o, nodeIds)
  {
    var f := ExtraValues(force);
    var timeout := ValueIntegerInRange("connect_timeout", ConnectTimeoutMin, ConnectTimeoutMax, f);
    var version := ValueIn("force_ip_version", IpVersions, f);
    var port := ValuePortNumber("port", f);
    var tieBreaker := ValueIn("tie_breaker", ["lowest", "highest"] + nodeIds, f);
    assert Validators(NetValueValidators(nodeIds, force), false) == [timeout, version] + [port, tieBreaker];
    AcceptsAllAppend(fw, [timeout, version], [port, tieBreaker], o);
    AcceptsAllPair(fw, timeout, version, o);
    AcceptsAllPair(fw, port, tieBreaker, o);
    AcceptsIntegerInRange(fw, "connect_timeout", ConnectTimeoutMin, ConnectTimeoutMax, f, o);
    AcceptsValueIn(fw, "force_ip_version", IpVersions, f, o);
    AcceptsPortNumber(fw, "port", f, o);
    AcceptsValueIn(fw, "tie_breaker", ["lowest", "highest"] + nodeIds, f, o);
  }

  lemma NetAddValidatorsAccept(fw: Framework, o: Options, nodeIds: seq<string>, force: bool)
    ensures AcceptsAll(fw, NetAddValidators(nodeIds, force), o) <==>
      Has(o, "algorithm") && Has(o, "host") && NetValuesValid(fw, o, nodeIds)
  {
    var algorithm := IsRequired("algorithm", ModelOptionType);
    var host := IsRequired("host", ModelOptionType);
    var hostNotEmpty := ValueNotEmpty("host", HostDescription, "host");
    var algorithmValue := QdeviceNetAlgorithm(ExtraValues(force));
    var optional := Validators(NetValueValidators(nodeIds, force), false);
    assert NetAddValidators(nodeIds, force) == [algorithm, host] + ([hostNotEmpty, algorithmValue] + optional);
    AcceptsAllAppend(fw, [algorithm, host], [hostNotEmpty, algorithmValue] + optional, o);
    AcceptsAllAppend(fw, [hostNotEmpty, algorithmValue], optional, o);
    AcceptsAllPair(fw, algorithm, host, o);
    AcceptsAllPair(fw, hostNotEmpty, algorithmValue, o);
    AcceptsNetAlgorithm(fw, ExtraValues(force), o);
    NetValueValidatorsAccept(fw, o, nodeIds, force);
  }

  /**
   * Adding a net model reports nothing exactly when "algorithm" and "host"
   * are given, every value is acceptable and every name is a net option.
   */
  lemma NetAddAccepts(fw: Framework, o: Options, nodeIds: seq<string>, force: bool)
    ensures AddModelNetReports(fw, o, nodeIds, force) == [] <==>
      Has(o, "algorithm") && Has(o, "host") && NetValuesValid(fw, o, nodeIds) && NamesAllowed(o, NetAllowed())
  {
    SectionAccepts(fw, o, NetAddValidators(nodeIds, force), NetAllowed(), ModelOptionType, ExtraValues(force), []);
    NetAddValidatorsAccept(fw, o, nodeIds, force);
  }

  /** Updating a net model never asks for a missing option. */
  lemma NetUpdateRequiresNothing(fw: Framework, o: Options, nodeIds: seq<string>, force: bool)
    ensures Count(UpdateModelNetReports(fw, o, nodeIds, force), (x: Code) => x.RequiredOptionIsMissing?) == 0
  {
    var p := (x: Code) => x.RequiredOptionIsMissing?;
    var validators := NetValidators(nodeIds, true, force);
    var named := NetValueValidators(nodeIds, force);
    ValueValidatorsKeyed(nodeIds, force);
    var first := [ValueNotEmpty("host", HostDescription, "host"), QdeviceNetAlgorithm(ExtraValues(force))];
    assert validators == first + Validators(named, true);
    forall k, c | 0 <= k < |validators| && Yields(validators[k], c) ensures !p(c) {
      if k < 2 {
        assert validators[k] == first[k];
        assert c.InvalidOptionValue?;
      } else {
        assert validators[k] == Validators(named, true)[k - 2] == ValueEmptyOrValid(named[k - 2].0, named[k - 2].1);
        assert ValueCheck(named[k - 2].1);
        assert Yields(named[k - 2].1, c);
        assert c.InvalidOptionValue?;
      }
    }
    RunCollectionNever(fw, o, validators, p);
    NamesInNever(NetAllowed(), Keys(o), ModelOptionType, ExtraValues(force), [], p);
    CountAppend(RunCollection(fw, o, validators), NetNames(o, force), p);
  }

  /** A report that does not reject an empty value, or rejects that of one of `names`. */
  predicate EmptyRejectedOnlyFor(r: Report, names: seq<string>) {
    r.code.InvalidOptionValue? && r.code.value == "" ==> r.code.name in names
  }

  predicate NoEmptyRejected(r: Report) {
    EmptyRejectedOnlyFor(r, [])
  }

  predicate EmptyRejectedOnlyForHostOrAlgorithm(r: Report) {
    EmptyRejectedOnlyFor(r, NetRequiredOptions)
  }

  /** Update wraps every value check: an empty value passes, so it can only be an empty host or algorithm that is rejected. */
  lemma NetUpdateEmptyValues(fw: Framework, o: Options, nodeIds: seq<string>, force: bool)
    ensures AllSatisfy(UpdateModelNetReports(fw, o, nodeIds, force), EmptyRejectedOnlyForHostOrAlgorithm)
  {
    var validators := NetValidators(nodeIds, true, force);
    var named := NetValueValidators(nodeIds, force);
    forall k | 0 <= k < |validators| ensures AllSatisfy(Apply(fw, validators[k], o), EmptyRejectedOnlyForHostOrAlgorithm) {
      if k >= 2 {
        assert validators[k] == ValueEmptyOrValid(named[k - 2].1.name, named[k - 2].1);
        ValueCheckReports(fw, named[k - 2].1, o, true);
      }
    }
    RunCollectionEvery(fw, o, validators, EmptyRejectedOnlyForHostOrAlgorithm);
    AllSatisfyAppend(RunCollection(fw, o, validators), NetNames(o, force), EmptyRejectedOnlyForHostOrAlgorithm);
  }

  /** An empty host is rejected on update as on add, and the report cannot be forced. */
  lemma NetUpdateEmptyHost(fw: Framework, o: Options, nodeIds: seq<string>, force: bool)
    requires Get(o, "host") == Some("")
    ensures Report(InvalidOptionValue("host", "", Description(HostDescription)), Error, None)
      in UpdateModelNetReports(fw, o, nodeIds, force)
  {
    RunCollectionIncludes(fw, o, NetValidators(nodeIds, true, force), 0);
  }

  // ---------------------------------------------------------------------
  // Generic options
  // ---------------------------------------------------------------------

  function GenericValueValidators(force: bool): seq<(string, Validator)> {
    [("sync_timeout", ValuePositiveInteger("sync_timeout", ExtraValues(force))),
     ("timeout", ValuePositiveInteger("timeout", ExtraValues(force)))]
  }

  /** The report on "model" among the generic options, whatever the forcing. */
  function ModelInGenericReport(): Report {
    Report(InvalidOptions(["model"], GenericAllowed, GenericOptionType, []), Error, None)
  }

  /** The names that are neither generic options nor "model", in order. */
  function UnknownGenericNames(names: seq<string>): seq<string> {
    if |names| == 0 then []
    else
      var name := names[|names| - 1];
      UnknownGenericNames(names[..|names| - 1]) + if name !in GenericAllowed && name != "model" then [name] else []
  }

  lemma {:induction false} UnknownGenericNamesMembers(names: seq<string>)
    ensures forall n :: n in UnknownGenericNames(names) <==> n in names && n !in GenericAllowed && n != "model"
  {
    if |names| > 0 {
      UnknownGenericNamesMembers(names[..|names| - 1]);
      assert names == names[..|names| - 1] + [names[|names| - 1]];
    }
  }

  /** Whether "model" is among the names, scanned as the check scans them. */
  function ModelGiven(names: seq<string>): bool {
    if |names| == 0 then false else ModelGiven(names[..|names| - 1]) || names[|names| - 1] == "model"
  }

  lemma {:induction false} ModelGivenMeans(names: seq<string>)
    ensures ModelGiven(names) <==> "model" in names
  {
    if |names| > 0 {
      ModelGivenMeans(names[..|names| - 1]);
      assert names == names[..|names| - 1] + [names[|names| - 1]];
    }
  }

  /**
   * The generic names check. "model" is a generic option in corosync.conf
   * but is passed separately, so it gets a report of its own that cannot be
   * forced; any other unknown name goes in one forceable report.
   */
  function GenericNamesReports(names: seq<string>, force: bool): seq<Report> {
    var invalid := UnknownGenericNames(names);
    (if "model" in names then [ModelInGenericReport()] else [])
      + (if |invalid| == 0 then [] else [Problem(InvalidOptions(invalid, GenericAllowed, GenericOptionType, []), ExtraValues(force))])
  }

  method ValidateGenericOptionsNames(o: Options, force: bool) returns (reports: seq<Report>)
    ensures reports == GenericNamesReports(Keys(o), force)
  {
    var names := Keys(o);
    var modelFound := false;
    var invalid: seq<string> := [];
    var i := 0;
    while i < |names|
      invariant 0 <= i <= |names|
      invariant modelFound == ModelGiven(names[..i])
      invariant invalid == UnknownGenericNames(names[..i])
    {
      var name := names[i];
      assert names[..i + 1][..i] == names[..i];
      if name !in GenericAllowed {
        if name == "model" {
          modelFound := true;
        } else {
          invalid := invalid + [name];
        }
      }
      i := i + 1;
    }
    assert names[..|names|] == names;
    ModelGivenMeans(names);
    var modelReport: seq<Report> := [];
    if modelFound {
      modelReport := [ModelInGenericReport()];
    }
    var invalidReport: seq<Report> := [];
    if |invalid| > 0 {
      invalidReport := [Problem(InvalidOptions(invalid, GenericAllowed, GenericOptionType, []), ExtraValues(force))];
    }
    reports := modelReport + invalidReport;
  }

  /** The generic options' reports; `allowEmptyValues` on update. */
  function GenericReports(fw: Framework, o: Options, allowEmptyValues: bool, force: bool): seq<Report> {
    RunCollection(fw, o, Validators(GenericValueValidators(force), allowEmptyValues)) + GenericNamesReports(Keys(o), force)
  }

  method AddGenericOptions(fw: Framework, o: Options, force: bool) returns (reports: seq<Report>)
    ensures reports == GenericReports(fw, o, false, force)
  {
    reports := RunCollection(fw, o, Validators(GenericValueValidators(force), false));
    var names := ValidateGenericOptionsNames(o, force);
    reports := reports + names;
  }

  method UpdateGenericOptions(fw: Framework, o: Options, force: bool) returns (reports: seq<Report>)
    ensures reports == GenericReports(fw, o, true, force)
  {
    reports := RunCollection(fw, o, Validators(GenericValueValidators(force), true));
    var names := ValidateGenericOptionsNames(o, force);
    reports := reports + names;
  }

  /**
   * "model" among the generic names is reported, as an error nobody can
   * force, exactly when it is there; the other report never names it and
   * names exactly the other unknown names.
   */
  lemma GenericModelReported(names: seq<string>, force: bool)
    ensures ModelInGenericReport() in GenericNamesReports(names, force) <==> "model" in names
    ensures forall r :: r in GenericNamesReports(names, force) && r != ModelInGenericReport() ==>
      r == Problem(r.code, ExtraValues(force)) && r.code.InvalidOptions? &&
      forall n :: n in r.code.names <==> n in names && n !in GenericAllowed && n != "model"
  {
    var invalid := UnknownGenericNames(names);
    UnknownGenericNamesMembers(names);
    assert "model" !in invalid;
    if |invalid| > 0 {
      assert invalid != ["model"];
    }
  }

  /** The generic names check reports nothing exactly when every name is a generic option. */
  lemma GenericNamesAccept(names: seq<string>, force: bool)
    ensures GenericNamesReports(names, force) == [] <==> forall n :: n in names ==> n in GenericAllowed
  {
    var invalid := UnknownGenericNames(names);
    UnknownGenericNamesMembers(names);
    if "model" !in names && |invalid| == 0 {
      forall n | n in names ensures n in GenericAllowed {
        assert n !in invalid;
      }
    }
    if |invalid| > 0 {
      assert invalid[0] in names && invalid[0] !in GenericAllowed;
    }
  }

  // ---------------------------------------------------------------------
  // Heuristics options
  // ---------------------------------------------------------------------

  predicate IsExecOption(name: string) {
    StartsWith(name, "exec_")
  }

  /** The heuristics options whose name starts with "exec_" (`exec`) or does not, in order. */
  function SplitPart(o: Options, exec: bool): Options {
    if |o| == 0 then [] else (if IsExecOption(o[0].0) == exec then [o[0]] else []) + SplitPart(o[1..], exec)
  }

  lemma {:induction false} SplitPartSnoc(o: Options, p: (string, string), exec: bool)
    ensures SplitPart(o + [p], exec) == SplitPart(o, exec) + (if IsExecOption(p.0) == exec then [p] else [])
  {
    if |o| > 0 {
      assert (o + [p])[1..] == o[1..] + [p];
      SplitPartSnoc(o[1..], p, exec);
    } else {
      assert o + [p] == [p];
    }
  }

  /**
   * Each option lands in exactly one part, under the same value: looking a
   * name up in its own part finds what it finds in the whole map, in the
   * other part it finds nothing.
   */
  lemma {:induction false} SplitPartLookup(o: Options, exec: bool, name: string)
    ensures Get(SplitPart(o, exec), name) == if IsExecOption(name) == exec then Get(o, name) else None
  {
    if |o| > 0 {
      SplitPartLookup(o[1..], exec, name);
      if IsExecOption(o[0].0) == exec {
        assert SplitPart(o, exec) == [o[0]] + SplitPart(o[1..], exec);
        assert SplitPart(o, exec)[1..] == SplitPart(o[1..], exec);
      } else {
        assert SplitPart(o, exec) == SplitPart(o[1..], exec);
      }
    }
  }

  method SplitHeuristicsExecOptions(o: Options) returns (nonexec: Options, exec: Options)
    ensures nonexec == SplitPart(o, false) && exec == SplitPart(o, true)
  {
    nonexec, exec := [], [];
    var i := 0;
    while i < |o|
      invariant 0 <= i <= |o|
      invariant nonexec == SplitPart(o[..i], false) && exec == SplitPart(o[..i], true)
    {
      assert o[..i + 1] == o[..i] + [o[i]];
      SplitPartSnoc(o[..i], o[i], false);
      SplitPartSnoc(o[..i], o[i], true);
      if IsExecOption(o[i].0) {
        exec := exec + [o[i]];
      } else {
        nonexec := nonexec + [o[i]];
      }
      i := i + 1;
    }
    assert o[..|o|] == o;
  }

  /** The exec names the exec-name expression accepts (`valid`) or rejects, in order. */
  function ExecNamesWhere(c: Constants, names: seq<string>, valid: bool): (r: seq<string>)
    ensures forall n :: n in r <==> n in names && c.isHeuristicsExecName(n) == valid
  {
    if |names| == 0 then []
    else (if c.isHeuristicsExecName(names[0]) == valid then [names[0]] else []) + ExecNamesWhere(c, names[1..], valid)
  }

  lemma {:induction false} ExecNamesWhereSnoc(c: Constants, names: seq<string>, x: string, valid: bool)
    ensures ExecNamesWhere(c, names + [x], valid) ==
      ExecNamesWhere(c, names, valid) + (if c.isHeuristicsExecName(x) == valid then [x] else [])
  {
    if |names| > 0 {
      assert (names + [x])[1..] == names[1..] + [x];
      ExecNamesWhereSnoc(c, names[1..], x, valid);
    } else {
      assert names + [x] == [x];
    }
  }

  /**
   * The exec-name check: the names the expression rejects go in one error
   * that no force can turn into a warning, since a crafted name could set
   * arbitrary corosync.conf settings.
   */
  function ExecNameReports(c: Constants, names: seq<string>): (reports: seq<Report>)
    ensures AllSatisfy(reports, Unforced)
  {
    var invalid := ExecNamesWhere(c, names, false);
    if |invalid| == 0 then [] else [Report(InvalidUserdefinedOptions(invalid, ExecNameRule, HeuristicsOptionType), Error, None)]
  }

  method ValidateHeuristicsExecOptionNames(c: Constants, exec: Options) returns (reports: seq<Report>, valid: seq<string>)
    ensures reports == ExecNameReports(c, Keys(exec))
    ensures valid == ExecNamesWhere(c, Keys(exec), true)
  {
    valid := [];
    var invalid: seq<string> := [];
    var i := 0;
    while i < |exec|
      invariant 0 <= i <= |exec|
      invariant valid == ExecNamesWhere(c, Keys(exec[..i]), true)
      invariant invalid == ExecNamesWhere(c, Keys(exec[..i]), false)
    {
      var name := exec[i].0;
      assert exec[..i + 1] == exec[..i] + [exec[i]];
      KeysSnoc(exec[..i], exec[i]);
      ExecNamesWhereSnoc(c, Keys(exec[..i]), name, true);
      ExecNamesWhereSnoc(c, Keys(exec[..i]), name, false);
      if c.isHeuristicsExecName(name) {
        valid := valid + [name];
      } else {
        invalid := invalid + [name];
      }
      i := i + 1;
    }
    assert exec[..|exec|] == exec;
    reports := [];
    if |invalid| > 0 {
      reports := [Report(InvalidUserdefinedOptions(invalid, ExecNameRule, HeuristicsOptionType), Error, None)];
    }
  }

  function HeuristicsValueValidators(force: bool): seq<(string, Validator)> {
    var f := ExtraValues(force);
    [("mode", ValueIn("mode", HeuristicsModes, f)),
     ("interval", ValuePositiveInteger("interval", f)),
     ("sync_timeout", ValuePositiveInteger("sync_timeout", f)),
     ("timeout", ValuePositiveInteger("timeout", f))]
  }

  /** On add, the value of every exec option with a valid name must be a non-empty command. */
  function ExecValueValidators(names: seq<string>): (validators: seq<Validator>)
    ensures |validators| == |names|
    ensures forall k :: 0 <= k < |names| ==> validators[k] == ValueNotEmpty(names[k], ExecValueDescription, names[k])
  {
    seq(|names|, k requires 0 <= k < |names| => ValueNotEmpty(names[k], ExecValueDescription, names[k]))
  }

  /** The exec value checks report nothing exactly when no listed exec option is set to an empty command. */
  lemma ExecValuesAccept(fw: Framework, names: seq<string>, o: Options)
    ensures RunCollection(fw, o, ExecValueValidators(names)) == [] <==> forall k :: 0 <= k < |names| ==> Get(o, names[k]) != Some("")
  {
    RunCollectionAccepts(fw, o, ExecValueValidators(names));
  }

  function HeuristicsNonexecNames(nonexec: Options, force: bool): seq<Report> {
    NamesIn(HeuristicsAllowed, Keys(nonexec), HeuristicsOptionType, ExtraValues(force), ["exec_NAME"])
  }

  function AddHeuristicsValidators(c: Constants, o: Options, force: bool): seq<Validator> {
    Validators(HeuristicsValueValidators(force), false) + ExecValueValidators(ExecNamesWhere(c, Keys(SplitPart(o, true)), true))
  }

  /** The heuristics options on add: values, the other names, then the exec names. */
  function AddHeuristicsReports(fw: Framework, c: Constants, o: Options, force: bool): seq<Report> {
    RunCollection(fw, o, AddHeuristicsValidators(c, o, force))
      + HeuristicsNonexecNames(SplitPart(o, false), force)
      + ExecNameReports(c, Keys(SplitPart(o, true)))
  }

  /** The heuristics options on update: the exec values are not checked and empty values pass. */
  function UpdateHeuristicsReports(fw: Framework, c: Constants, o: Options, force: bool): seq<Report> {
    RunCollection(fw, o, Validators(HeuristicsValueValidators(force), true))
      + HeuristicsNonexecNames(SplitPart(o, false), force)
      + ExecNameReports(c, Keys(SplitPart(o, true)))
  }

  /** Appends a non-empty-value check for each of the exec names, in order. */
  method AppendExecValueValidators(validators: seq<Validator>, names: seq<string>) returns (result: seq<Validator>)
    ensures result == validators + ExecValueValidators(names)
  {
    result := validators;
    var i := 0;
    while i < |names|
      invariant 0 <= i <= |names|
      invariant result == validators + ExecValueValidators(names[..i])
    {
      assert ExecValueValidators(names[..i + 1]) ==
        ExecValueValidators(names[..i]) + [ValueNotEmpty(names[i], ExecValueDescription, names[i])];
      result := result + [ValueNotEmpty(names[i], ExecValueDescription, names[i])];
      i := i + 1;
    }
    assert names[..|names|] == names;
  }

  method AddHeuristicsOptions(fw: Framework, c: Constants, o: Options, force: bool) returns (reports: seq<Report>)
    ensures reports == AddHeuristicsReports(fw, c, o, force)
  {
    var nonexec, exec := SplitHeuristicsExecOptions(o);
    var execReports, valid := ValidateHeuristicsExecOptionNames(c, exec);
    var validators := AppendExecValueValidators(Validators(HeuristicsValueValidators(force), false), valid);
    reports := RunCollection(fw, o, validators) + HeuristicsNonexecNames(nonexec, force) + execReports;
  }

  method UpdateHeuristicsOptions(fw: Framework, c: Constants, o: Options, force: bool) returns (reports: seq<Report>)
    ensures reports == UpdateHeuristicsReports(fw, c, o, force)
  {
    var nonexec, exec := SplitHeuristicsExecOptions(o);
    var validators := Validators(HeuristicsValueValidators(force), true);
    // The values of valid exec options are not checked: empty removes the option.
    var execReports, _ := ValidateHeuristicsExecOptionNames(c, exec);
    reports := RunCollection(fw, o, validators) + HeuristicsNonexecNames(nonexec, force) + execReports;
  }

  /** Some exec option's name is rejected by the exec-name expression. */
  predicate HasBadExecName(c: Constants, o: Options) {
    exists n :: n in Keys(o) && IsExecOption(n) && !c.isHeuristicsExecName(n)
  }

  predicate IsExecNameReport(x: Code) {
    x.InvalidUserdefinedOptions?
  }

  /** The names of a part are the names of the map that belong in it. */
  lemma SplitPartKeys(o: Options, exec: bool)
    ensures forall n :: n in Keys(SplitPart(o, exec)) <==> n in Keys(o) && IsExecOption(n) == exec
  {
    forall n ensures n in Keys(SplitPart(o, exec)) <==> n in Keys(o) && IsExecOption(n) == exec {
      SplitPartLookup(o, exec, n);
    }
  }

  /** The names of the exec-name check's report. */
  function RejectedExecNames(c: Constants, o: Options): (names: seq<string>)
    ensures forall n :: n in names <==> n in Keys(o) && IsExecOption(n) && !c.isHeuristicsExecName(n)
  {
    SplitPartKeys(o, true);
    ExecNamesWhere(c, Keys(SplitPart(o, true)), false)
  }

  /** The exec-name check yields one report exactly when an exec name is bad. */
  lemma ExecNameReportsCount(c: Constants, o: Options)
    ensures Count(ExecNameReports(c, Keys(SplitPart(o, true))), IsExecNameReport) == if HasBadExecName(c, o) then 1 else 0
  {
    var invalid := RejectedExecNames(c, o);
    assert HasBadExecName(c, o) <==> |invalid| > 0 by {
      if HasBadExecName(c, o) {
        var n :| n in Keys(o) && IsExecOption(n) && !c.isHeuristicsExecName(n);
        assert n in invalid;
      }
      if |invalid| > 0 {
        assert invalid[0] in invalid;
      }
    }
    CountOptional(|invalid| > 0, Report(InvalidUserdefinedOptions(invalid, ExecNameRule, HeuristicsOptionType), Error, None), IsExecNameReport);
  }

  /** The value and non-exec name checks of the heuristics section never yield an exec-name report. */
  lemma HeuristicsChecksNoExecNameReport(fw: Framework, o: Options, validators: seq<Validator>, force: bool)
    ensures Count(RunCollection(fw, o, validators) + HeuristicsNonexecNames(SplitPart(o, false), force), IsExecNameReport) == 0
  {
    forall k, x | 0 <= k < |validators| && Yields(validators[k], x) ensures !IsExecNameReport(x) {
      YieldsOptionReport(validators[k], x);
    }
    RunCollectionNever(fw, o, validators, IsExecNameReport);
    NamesInNever(HeuristicsAllowed, Keys(SplitPart(o, false)), HeuristicsOptionType, ExtraValues(force), ["exec_NAME"], IsExecNameReport);
    CountAppend(RunCollection(fw, o, validators), HeuristicsNonexecNames(SplitPart(o, false), force), IsExecNameReport);
  }

  /**
   * On add and on update alike, bad exec names give exactly one exec-name
   * report, an error that cannot be forced whatever `force` is, naming
   * exactly the exec options the exec-name expression rejects.
   */
  lemma HeuristicsExecNamesNeverForceable(fw: Framework, c: Constants, o: Options, force: bool, update: bool)
    ensures var reports := if update then UpdateHeuristicsReports(fw, c, o, force) else AddHeuristicsReports(fw, c, o, force);
      Count(reports, IsExecNameReport) == (if HasBadExecName(c, o) then 1 else 0) &&
      forall r :: r in reports && r.code.InvalidUserdefinedOptions? ==>
        r == Report(InvalidUserdefinedOptions(RejectedExecNames(c, o), ExecNameRule, HeuristicsOptionType), Error, None)
  {
    var validators := if update then Validators(HeuristicsValueValidators(force), true) else AddHeuristicsValidators(c, o, force);
    var checks := RunCollection(fw, o, validators) + HeuristicsNonexecNames(SplitPart(o, false), force);
    var execReports := ExecNameReports(c, Keys(SplitPart(o, true)));
    HeuristicsChecksNoExecNameReport(fw, o, validators, force);
    ExecNameReportsCount(c, o);
    CountAppend(checks, execReports, IsExecNameReport);
    CountZero(checks, IsExecNameReport);
    forall r: Report | r in checks + execReports && r.code.InvalidUserdefinedOptions?
      ensures r == Report(InvalidUserdefinedOptions(RejectedExecNames(c, o), ExecNameRule, HeuristicsOptionType), Error, None)
    {
      assert r !in checks;
    }
  }

  /** A valid exec name is one of the names whose values the add checks. */
  lemma ValidExecNameChecked(c: Constants, o: Options, name: string)
    requires IsExecOption(name) && c.isHeuristicsExecName(name) && name in Keys(o)
    ensures name in ExecNamesWhere(c, Keys(SplitPart(o, true)), true)
  {
    SplitPartKeys(o, true);
  }

  /** The non-empty check appended for an exec name rejects its empty value. */
  lemma ExecValueRejected(fw: Framework, o: Options, base: seq<Validator>, names: seq<string>, j: nat)
    requires j < |names| && Get(o, names[j]) == Some("")
    ensures Report(InvalidOptionValue(names[j], "", Description(ExecValueDescription)), Error, None)
      in RunCollection(fw, o, base + ExecValueValidators(names))
  {
    var validators := base + ExecValueValidators(names);
    assert validators[|base| + j] == ValueNotEmpty(names[j], ExecValueDescription, names[j]);
    RunCollectionIncludes(fw, o, validators, |base| + j);
  }

  /** On add, a valid exec option with an empty command is rejected, and no force helps. */
  lemma AddRejectsEmptyExec(fw: Framework, c: Constants, o: Options, force: bool, name: string)
    requires IsExecOption(name) && c.isHeuristicsExecName(name) && Get(o, name) == Some("")
    ensures Report(InvalidOptionValue(name, "", Description(ExecValueDescription)), Error, None) in AddHeuristicsReports(fw, c, o, force)
  {
    var valid := ExecNamesWhere(c, Keys(SplitPart(o, true)), true);
    ValidExecNameChecked(c, o, name);
    var j :| 0 <= j < |valid| && valid[j] == name;
    ExecValueRejected(fw, o, Validators(HeuristicsValueValidators(force), false), valid, j);
  }

  /** A report that rejects no value, or a non-empty value of one of the four non-exec options. */
  predicate NonexecValueRejection(r: Report) {
    r.code.InvalidOptionValue? ==> r.code.name in HeuristicsAllowed && r.code.value != ""
  }

  lemma UpdateHeuristicsChecks(fw: Framework, o: Options, force: bool)
    ensures AllSatisfy(RunCollection(fw, o, Validators(HeuristicsValueValidators(force), true)), NonexecValueRejection)
  {
    var named := HeuristicsValueValidators(force);
    var validators := Validators(named, true);
    ValueValidatorsKeyed([], force);
    forall k | 0 <= k < |validators| ensures AllSatisfy(Apply(fw, validators[k], o), NonexecValueRejection) {
      ValueCheckReports(fw, named[k].1, o, true);
    }
    RunCollectionEvery(fw, o, validators, NonexecValueRejection);
  }

  /** On update, only the four non-exec options have their values checked, and never an empty value. */
  lemma UpdateHeuristicsValues(fw: Framework, c: Constants, o: Options, force: bool)
    ensures forall r :: r in UpdateHeuristicsReports(fw, c, o, force) && r.code.InvalidOptionValue? ==>
      r.code.name in HeuristicsAllowed && r.code.value != ""
  {
    var checks := RunCollection(fw, o, Validators(HeuristicsValueValidators(force), true));
    var names := HeuristicsNonexecNames(SplitPart(o, false), force);
    var execReports := ExecNameReports(c, Keys(SplitPart(o, true)));
    UpdateHeuristicsChecks(fw, o, force);
    AllSatisfyAppend(checks + names, execReports, NonexecValueRejection);
    AllSatisfyAppend(checks, names, NonexecValueRejection);
    forall r | r in checks + names + execReports ensures NonexecValueRejection(r) {
      var i :| 0 <= i < |checks + names + execReports| && (checks + names + execReports)[i] == r;
    }
  }

  // ---------------------------------------------------------------------
  // Adding and updating a quorum device
  // ---------------------------------------------------------------------

  /** An unknown model on add: one report, forceable by FORCE_QDEVICE_MODEL. */
  function UnknownModelReports(fw: Framework, model: string, forceModel: bool): seq<Report> {
    RunCollection(fw, [("model", model)], [ValueIn("model", ["net"], Forceable(ForceQdeviceModel, forceModel))])
  }

  function AddQuorumDeviceReports(fw: Framework, c: Constants, d: Device, nodeIds: seq<string>, forceModel: bool, forceOptions: bool): seq<Report> {
    (if d.model == "net" then AddModelNetReports(fw, d.modelOptions, nodeIds, forceOptions)
     else UnknownModelReports(fw, d.model, forceModel))
      + GenericReports(fw, d.genericOptions, false, forceOptions)
      + AddHeuristicsReports(fw, c, d.heuristicsOptions, forceOptions)
  }

  /** On update the model is not validated: an unknown model's options are ignored. */
  function UpdateQuorumDeviceReports(fw: Framework, c: Constants, d: Device, nodeIds: seq<string>, forceOptions: bool): seq<Report> {
    (if d.model == "net" then UpdateModelNetReports(fw, d.modelOptions, nodeIds, forceOptions) else [])
      + GenericReports(fw, d.genericOptions, true, forceOptions)
      + UpdateHeuristicsReports(fw, c, d.heuristicsOptions, forceOptions)
  }

  method AddQuorumDevice(fw: Framework, c: Constants, d: Device, nodeIds: seq<string>, forceModel: bool, forceOptions: bool)
    returns (reports: seq<Report>)
    ensures reports == AddQuorumDeviceReports(fw, c, d, nodeIds, forceModel, forceOptions)
  {
    if d.model == "net" {
      reports := AddModelNetReports(fw, d.modelOptions, nodeIds, forceOptions);
    } else {
      reports := UnknownModelReports(fw, d.model, forceModel);
    }
    var generic := AddGenericOptions(fw, d.genericOptions, forceOptions);
    var heuristics := AddHeuristicsOptions(fw, c, d.heuristicsOptions, forceOptions);
    reports := reports + generic + heuristics;
  }

  method UpdateQuorumDevice(fw: Framework, c: Constants, d: Device, nodeIds: seq<string>, forceOptions: bool)
    returns (reports: seq<Report>)
    ensures reports == UpdateQuorumDeviceReports(fw, c, d, nodeIds, forceOptions)
  {
    reports := [];
    if d.model == "net" {
      reports := UpdateModelNetReports(fw, d.modelOptions, nodeIds, forceOptions);
    }
    var generic := UpdateGenericOptions(fw, d.genericOptions, forceOptions);
    var heuristics := UpdateHeuristicsOptions(fw, c, d.heuristicsOptions, forceOptions);
    reports := reports + generic + heuristics;
  }

  lemma UnknownModelReport(fw: Framework, model: string, forceModel: bool)
    requires model != "net"
    ensures UnknownModelReports(fw, model, forceModel) ==
      [Report(InvalidOptionValue("model", model, Values(["net"])),
              if forceModel then Warning else Error,
              if forceModel then None else Some(ForceQdeviceModel))]
  {
    var o := [("model", model)];
    var validators := [ValueIn("model", ["net"], Forceable(ForceQdeviceModel, forceModel))];
    assert Get(o, "model") == Some(model);
    ValueInForcing(fw, o, "model", ["net"], ForceQdeviceModel, forceModel);
    assert validators[1..] == [];
    assert RunCollection(fw, o, validators) == Apply(fw, validators[0], o) + RunCollection(fw, o, []);
  }

  /**
   * Adding an unknown model yields exactly one model report before the
   * generic and heuristics reports: a warning when the model is forced, else
   * an error carrying FORCE_QDEVICE_MODEL.
   */
  lemma AddUnknownModel(fw: Framework, c: Constants, d: Device, nodeIds: seq<string>, forceModel: bool, forceOptions: bool)
    requires d.model != "net"
    ensures AddQuorumDeviceReports(fw, c, d, nodeIds, forceModel, forceOptions) ==
      [Report(InvalidOptionValue("model", d.model, Values(["net"])),
              if forceModel then Warning else Error,
              if forceModel then None else Some(ForceQdeviceModel))]
      + GenericReports(fw, d.genericOptions, false, forceOptions)
      + AddHeuristicsReports(fw, c, d.heuristicsOptions, forceOptions)
  {
    UnknownModelReport(fw, d.model, forceModel);
  }

  /** The net model's reports, on add or update, are what FORCE_OPTIONS accounts for. */
  lemma NetRespects(fw: Framework, o: Options, nodeIds: seq<string>, force: bool, update: bool)
    ensures AllRespect(if update then UpdateModelNetReports(fw, o, nodeIds, force) else AddModelNetReports(fw, o, nodeIds, force), ExtraValues(force))
  {
    var validators := if update then NetValidators(nodeIds, true, force) else NetAddValidators(nodeIds, force);
    NetValidatorsForcing(nodeIds, true, force);
    RunCollectionRespects(fw, o, validators, ExtraValues(force));
    AllRespectAppend(RunCollection(fw, o, validators), NetNames(o, force), ExtraValues(force));
  }

  /** The generic reports are what FORCE_OPTIONS accounts for; the "model" report is an error nobody can force. */
  lemma GenericRespects(fw: Framework, o: Options, allowEmptyValues: bool, force: bool)
    ensures AllRespect(GenericReports(fw, o, allowEmptyValues, force), ExtraValues(force))
  {
    var named := GenericValueValidators(force);
    ValueValidatorsKeyed([], force);
    ValidatorsForcing(named, allowEmptyValues, ExtraValues(force));
    RunCollectionRespects(fw, o, Validators(named, allowEmptyValues), ExtraValues(force));
    AllRespectAppend(RunCollection(fw, o, Validators(named, allowEmptyValues)), GenericNamesReports(Keys(o), force), ExtraValues(force));
  }

  /** Every heuristics check on add is forceable by FORCE_OPTIONS, if at all. */
  lemma AddHeuristicsForcing(c: Constants, o: Options, force: bool)
    ensures forall k :: 0 <= k < |AddHeuristicsValidators(c, o, force)| ==>
      ForcingWithin(AddHeuristicsValidators(c, o, force)[k], ExtraValues(force))
  {
    var f := ExtraValues(force);
    var named := HeuristicsValueValidators(force);
    var validators := AddHeuristicsValidators(c, o, force);
    var execNames := ExecNamesWhere(c, Keys(SplitPart(o, true)), true);
    ValueValidatorsKeyed([], force);
    ValidatorsForcing(named, false, f);
    forall k | 0 <= k < |validators| ensures ForcingWithin(validators[k], f) {
      if k >= |named| {
        assert validators[k] == ExecValueValidators(execNames)[k - |named|];
      }
    }
  }

  /** The heuristics reports are what FORCE_OPTIONS accounts for; the exec-name report is an error nobody can force. */
  lemma HeuristicsRespects(fw: Framework, c: Constants, o: Options, force: bool, update: bool)
    ensures AllRespect(if update then UpdateHeuristicsReports(fw, c, o, force) else AddHeuristicsReports(fw, c, o, force), ExtraValues(force))
  {
    var f := ExtraValues(force);
    var named := HeuristicsValueValidators(force);
    var validators := if update then Validators(named, true) else AddHeuristicsValidators(c, o, force);
    if update {
      ValueValidatorsKeyed([], force);
      ValidatorsForcing(named, true, f);
    } else {
      AddHeuristicsForcing(c, o, force);
    }
    RunCollectionRespects(fw, o, validators, f);
    var names := HeuristicsNonexecNames(SplitPart(o, false), force);
    var execReports := ExecNameReports(c, Keys(SplitPart(o, true)));
    AllRespectAppend(RunCollection(fw, o, validators), names, f);
    AllRespectAppend(RunCollection(fw, o, validators) + names, execReports, f);
  }

  /**
   * What FORCE_OPTIONS promises for a net device: when it is given, no report
   * asks for a force token (forceable problems are warnings); when it is not,
   * no report is a warning and the only token asked for is FORCE_OPTIONS.
   */
  lemma NetDeviceForceOptions(fw: Framework, c: Constants, d: Device, nodeIds: seq<string>, forceModel: bool, forceOptions: bool, update: bool)
    requires d.model == "net"
    ensures forall r :: r in (if update then UpdateQuorumDeviceReports(fw, c, d, nodeIds, forceOptions)
                              else AddQuorumDeviceReports(fw, c, d, nodeIds, forceModel, forceOptions)) ==>
      (forceOptions ==> r.force == None) &&
      (!forceOptions ==> r.severity == Error && (r.force == None || r.force == Some(ForceOptions)))
  {
    var f := ExtraValues(forceOptions);
    var model := if update then UpdateModelNetReports(fw, d.modelOptions, nodeIds, forceOptions)
                 else AddModelNetReports(fw, d.modelOptions, nodeIds, forceOptions);
    NetRespects(fw, d.modelOptions, nodeIds, forceOptions, update);
    GenericRespects(fw, d.genericOptions, update, forceOptions);
    HeuristicsRespects(fw, c, d.heuristicsOptions, forceOptions, update);
    var generic := GenericReports(fw, d.genericOptions, update, forceOptions);
    var heuristics := if update then UpdateHeuristicsReports(fw, c, d.heuristicsOptions, forceOptions)
                      else AddHeuristicsReports(fw, c, d.heuristicsOptions, forceOptions);
    AllRespectAppend(model, generic, f);
    AllRespectAppend(model + generic, heuristics, f);
    AllRespectForceable(model + generic + heuristics, ForceOptions, forceOptions);
  }
}
