/**
 * The option validation framework the corosync validators are built on.
 *
 * An option map is the ordered list of (name, value) pairs of a dictionary.
 * Each validator looks at the whole map, is a no-op when its target option is
 * absent (except for "is required"), and yields report items. A collection of
 * validators is run in order and the reports are concatenated.
 *
 * The framework's syntax checks (integer parsing, IP address literals, port
 * numbers) are not part of this model: they are the fields of `Framework`,
 * supplied by the caller.
 */
module Validate {
  import opened Wrappers

  type Options = seq<(string, string)>

  /** The option names, in the map's order. */
  function Keys(o: Options): (names: seq<string>)
    ensures |names| == |o|
    ensures forall i :: 0 <= i < |o| ==> names[i] == o[i].0
  {
    if |o| == 0 then [] else [o[0].0] + Keys(o[1..])
  }

  lemma {:induction false} KeysSnoc(o: Options, p: (string, string))
    ensures Keys(o + [p]) == Keys(o) + [p.0]
  {
    if |o| > 0 {
      assert (o + [p])[1..] == o[1..] + [p];
      KeysSnoc(o[1..], p);
    } else {
      assert o + [p] == [p];
    }
  }

  /** The value stored under `name` (dictionary lookup). */
  function Get(o: Options, name: string): (v: Option<string>)
    ensures v.Some? <==> name in Keys(o)
    ensures v.Some? ==> (name, v.value) in o
  {
    if |o| == 0 then None
    else if o[0].0 == name then Some(o[0].1)
    else Get(o[1..], name)
  }

  predicate Has(o: Options, name: string) {
    name in Keys(o)
  }

  /** The value of `name`, or `default` when it is absent. */
  function GetOr(o: Options, name: string, default: string): string {
    if Get(o, name).Some? then Get(o, name).value else default
  }

  /** Every option name is one of `allowed`. */
  predicate NamesAllowed(o: Options, allowed: seq<string>) {
    forall n :: n in Keys(o) ==> n in allowed
  }

  /** The names of `names` that are not in `allowed`, in their original order. */
  function NotIn(names: seq<string>, allowed: seq<string>): (r: seq<string>)
    ensures forall n :: n in r <==> n in names && n !in allowed
    ensures |r| <= |names|
  {
    if |names| == 0 then []
    else (if names[0] in allowed then [] else [names[0]]) + NotIn(names[1..], allowed)
  }

  /** Filtering one more name appends it unless it is allowed. */
  lemma {:induction false} NotInSnoc(names: seq<string>, x: string, allowed: seq<string>)
    ensures NotIn(names + [x], allowed) == NotIn(names, allowed) + (if x in allowed then [] else [x])
  {
    if |names| > 0 {
      assert (names + [x])[1..] == names[1..] + [x];
      NotInSnoc(names[1..], x, allowed);
    } else {
      assert names + [x] == [x];
    }
  }

  /** The names of `names` that are in `wanted`, in their original order. */
  function Among(names: seq<string>, wanted: seq<string>): (r: seq<string>)
    ensures forall n :: n in r <==> n in names && n in wanted
    ensures |r| <= |names|
  {
    if |names| == 0 then []
    else (if names[0] in wanted then [names[0]] else []) + Among(names[1..], wanted)
  }

  /** The values occurring more than once in `s`. */
  function Duplicates(s: seq<string>): (d: set<string>)
    ensures forall x :: x in d <==> multiset(s)[x] > 1
  {
    var counts := multiset(s);
    set x | x in counts && counts[x] > 1
  }

  /** Two positions holding the same value make it a duplicate. */
  lemma DuplicatePositions(s: seq<string>, j: nat, k: nat)
    requires j < k < |s| && s[j] == s[k]
    ensures s[j] in Duplicates(s)
  {
    assert s == s[..j] + [s[j]] + s[j + 1..k] + [s[k]] + s[k + 1..];
    assert multiset(s) == multiset(s[..j]) + multiset{s[j]} + multiset(s[j + 1..k]) + multiset{s[k]} + multiset(s[k + 1..]);
  }

  /** A value that is a duplicate occurs at two positions. */
  lemma DuplicateHasPositions(s: seq<string>, x: string)
    requires x in Duplicates(s)
    ensures exists j, k :: 0 <= j < k < |s| && s[j] == x && s[k] == x
  {
    var j :| 0 <= j < |s| && s[j] == x;
    var rest := s[..j] + s[j + 1..];
    assert s == s[..j] + [s[j]] + s[j + 1..];
    assert multiset(s) == multiset(rest) + multiset{x};
    assert x in multiset(rest);
    var m :| 0 <= m < |rest| && rest[m] == x;
    if m < j {
      assert s[m] == x;
    } else {
      assert s[m + 1] == x;
    }
  }

  datatype Severity = Error | Warning

  /** The tokens a user passes to turn a forceable error into a warning. */
  datatype ForceCode = ForceOptions | ForceQdeviceModel | ForceNodeAddressesUnresolvable

  /**
   * How a validator reports a violation: never forceable, or forceable by
   * `code`, in which case `forced` says whether the user has already forced it.
   */
  datatype Forcing = NotForceable | Forceable(code: ForceCode, forced: bool)

  /** What a rejected value should have been. */
  datatype Allowed =
    | Values(values: seq<string>)
    | Description(text: string)
    | IntegerRange(low: int, high: int)
    | NonnegativeInteger
    | PositiveInteger
    | PortNumber
    | IpAddress

  /** The kind of a report item together with its payload. */
  datatype Code =
    | RequiredOptionIsMissing(names: seq<string>, optionType: string)
    | InvalidOptionValue(name: string, value: string, allowed: Allowed)
    | InvalidOptions(names: seq<string>, allowedNames: seq<string>, optionType: string, patterns: seq<string>)
    | InvalidUserdefinedOptions(userdefinedNames: seq<string>, allowedDescription: string, optionType: string)
    | PrerequisiteOptionIsMissing(option: string, prerequisite: string)
    | CorosyncBadNodeAddressesCount(actual: nat, min: nat, max: nat, nodeName: Option<string>, nodeIndex: nat)
    | NodeAddressesUnresolvable(addresses: set<string>)
    | CorosyncNodeNameDuplication(duplicateNames: set<string>)
    | CorosyncNodeAddressDuplication(duplicateAddresses: set<string>)
    | CorosyncNodeAddressCountMismatch(counts: map<string, nat>)
    | CorosyncIpVersionMismatchInLinks(links: seq<nat>)
    | CorosyncEnabledBroadcastDisallowsMcastaddr
    | CorosyncTooManyLinks(actual: nat, max: nat, transport: string)
    | CorosyncLinkNumberDuplication(numbers: set<string>)
    | CorosyncCryptoCipherRequiresCryptoHash
    | CorosyncOptionsIncompatibleWithQdevice(incompatibleNames: seq<string>)

  /** A report item: its kind and payload, its severity and the token that would force it. */
  datatype Report = Report(code: Code, severity: Severity, force: Option<ForceCode>)

  /** An error that cannot be forced. */
  predicate Unforced(r: Report) {
    r.severity == Error && r.force == None
  }

  /**
   * The forcing rule: a forced violation is a warning with no force token, an
   * unforced forceable one an error carrying its token, any other an error.
   */
  function Problem(code: Code, forcing: Forcing): (r: Report)
    ensures r.code == code
    ensures r.severity == Warning <==> forcing.Forceable? && forcing.forced
    ensures r.force.Some? <==> forcing.Forceable? && !forcing.forced
    ensures r.force.Some? ==> r.force.value == forcing.code
  {
    match forcing
    case NotForceable => Report(code, Error, None)
    case Forceable(token, forced) =>
      if forced then Report(code, Warning, None) else Report(code, Error, Some(token))
  }

  /** The syntax checks of the framework, supplied by the caller. */
  datatype Framework = Framework(
    parseInteger: string -> Option<int>,
    isIpv4Address: string -> bool,
    isIpv6Address: string -> bool,
    isPortNumber: string -> bool)

  const QdeviceNetAlgorithms: seq<string> := ["ffsplit", "lms"]

  /** The validators the corosync validators use. */
  datatype Validator =
    | IsRequired(name: string, optionType: string)
    | ValueNotEmpty(name: string, description: string, reportName: string)
    | ValueIn(name: string, allowed: seq<string>, forcing: Forcing)
    | ValueIntegerInRange(name: string, low: int, high: int, forcing: Forcing)
    | ValueNonnegativeInteger(name: string, forcing: Forcing)
    | ValuePositiveInteger(name: string, forcing: Forcing)
    | ValuePortNumber(name: string, forcing: Forcing)
    | ValueIpAddress(name: string)
    | DependsOnOption(name: string, prerequisite: string)
    | ValueEmptyOrValid(name: string, inner: Validator)
      /** The "algorithm" check of the net quorum device model (config_validators.py). */
    | QdeviceNetAlgorithm(forcing: Forcing)

  /** A value rejected by a value validator. */
  function Rejected(name: string, value: string, allowed: Allowed, forcing: Forcing): seq<Report>
  {
    [Problem(InvalidOptionValue(name, value, allowed), forcing)]
  }

  predicate IsIntegerIn(fw: Framework, value: string, low: int, high: int) {
    fw.parseInteger(value).Some? && low <= fw.parseInteger(value).value <= high
  }

  predicate IsIntegerAtLeast(fw: Framework, value: string, low: int) {
    fw.parseInteger(value).Some? && low <= fw.parseInteger(value).value
  }

  /** The reports one validator yields for an option map. */
  function Apply(fw: Framework, v: Validator, o: Options): seq<Report>
  {
    match v
    case IsRequired(name, optionType) =>
      if Has(o, name) then [] else [Report(RequiredOptionIsMissing([name], optionType), Error, None)]
    case ValueNotEmpty(name, description, reportName) =>
      if Get(o, name) == Some("") then [Report(InvalidOptionValue(reportName, "", Description(description)), Error, None)]
      else []
    case ValueIn(name, allowed, forcing) =>
      var value := Get(o, name);
      if value.None? || value.value in allowed then [] else Rejected(name, value.value, Values(allowed), forcing)
    case ValueIntegerInRange(name, low, high, forcing) =>
      var value := Get(o, name);
      if value.None? || IsIntegerIn(fw, value.value, low, high) then []
      else Rejected(name, value.value, IntegerRange(low, high), forcing)
    case ValueNonnegativeInteger(name, forcing) =>
      var value := Get(o, name);
      if value.None? || IsIntegerAtLeast(fw, value.value, 0) then []
      else Rejected(name, value.value, NonnegativeInteger, forcing)
    case ValuePositiveInteger(name, forcing) =>
      var value := Get(o, name);
      if value.None? || IsIntegerAtLeast(fw, value.value, 1) then []
      else Rejected(name, value.value, PositiveInteger, forcing)
    case ValuePortNumber(name, forcing) =>
      var value := Get(o, name);
      if value.None? || fw.isPortNumber(value.value) then [] else Rejected(name, value.value, PortNumber, forcing)
    case ValueIpAddress(name) =>
      var value := Get(o, name);
      if value.None? || fw.isIpv4Address(value.value) || fw.isIpv6Address(value.value) then []
      else Rejected(name, value.value, IpAddress, NotForceable)
    case DependsOnOption(name, prerequisite) =>
      if Has(o, name) && !Has(o, prerequisite) then [Report(PrerequisiteOptionIsMissing(name, prerequisite), Error, None)]
      else []
    case ValueEmptyOrValid(name, inner) =>
      var value := Get(o, name);
      if value.None? || value.value == "" then [] else Apply(fw, inner, o)
    case QdeviceNetAlgorithm(forcing) =>
      var value := Get(o, "algorithm");
      if value.None? then []
      else if value.value == "" then [Report(InvalidOptionValue("algorithm", "", Values(QdeviceNetAlgorithms)), Error, None)]
      else if value.value in QdeviceNetAlgorithms then []
      else Rejected("algorithm", value.value, Values(QdeviceNetAlgorithms), forcing)
  }

  /** Runs the validators in order and concatenates their reports. */
  function RunCollection(fw: Framework, o: Options, validators: seq<Validator>): seq<Report>
  {
    if |validators| == 0 then []
    else Apply(fw, validators[0], o) + RunCollection(fw, o, validators[1..])
  }

  /**
   * Checks option names against an allowed list: one report listing every name
   * outside the list, in input order; `patterns` only describe extra allowed names.
   */
  function NamesIn(allowed: seq<string>, names: seq<string>, optionType: string, forcing: Forcing, patterns: seq<string>): seq<Report>
  {
    var invalid := NotIn(names, allowed);
    if |invalid| == 0 then [] else [Problem(InvalidOptions(invalid, allowed, optionType, patterns), forcing)]
  }

  /** The number of reports whose code satisfies `p`. */
  function Count(reports: seq<Report>, p: Code -> bool): nat
  {
    if |reports| == 0 then 0
    else (if p(reports[0].code) then 1 else 0) + Count(reports[1..], p)
  }

  lemma {:induction false} CountAppend(a: seq<Report>, b: seq<Report>, p: Code -> bool)
    ensures Count(a + b, p) == Count(a, p) + Count(b, p)
  {
    if |a| > 0 {
      assert (a + b)[1..] == a[1..] + b;
      CountAppend(a[1..], b, p);
    } else {
      assert a + b == b;
    }
  }

  /** `Count` is zero exactly when no report satisfies `p`. */
  lemma {:induction false} CountZero(reports: seq<Report>, p: Code -> bool)
    ensures Count(reports, p) == 0 <==> forall i :: 0 <= i < |reports| ==> !p(reports[i].code)
  {
    if |reports| > 0 {
      CountZero(reports[1..], p);
      assert forall i :: 1 <= i < |reports| ==> reports[i] == reports[1..][i - 1];
    }
  }

  /** Running a concatenation of validator lists concatenates their reports. */
  lemma {:induction false} RunCollectionAppend(fw: Framework, o: Options, a: seq<Validator>, b: seq<Validator>)
    ensures RunCollection(fw, o, a + b) == RunCollection(fw, o, a) + RunCollection(fw, o, b)
  {
    if |a| > 0 {
      assert (a + b)[1..] == a[1..] + b;
      RunCollectionAppend(fw, o, a[1..], b);
    } else {
      assert a + b == b;
    }
  }

  /** The report kinds a validator can yield. */
  predicate Yields(v: Validator, c: Code)
  {
    match v
    case IsRequired(_, _) => c.RequiredOptionIsMissing?
    case DependsOnOption(_, _) => c.PrerequisiteOptionIsMissing?
    case ValueEmptyOrValid(_, inner) => Yields(inner, c)
    case _ => c.InvalidOptionValue?
  }

  /** A validator with no forcing parameter, or with one that is not forceable. */
  predicate NeverForceable(v: Validator)
  {
    match v
    case ValueIn(_, _, f) => f.NotForceable?
    case ValueIntegerInRange(_, _, _, f) => f.NotForceable?
    case ValueNonnegativeInteger(_, f) => f.NotForceable?
    case ValuePositiveInteger(_, f) => f.NotForceable?
    case ValuePortNumber(_, f) => f.NotForceable?
    case ValueEmptyOrValid(_, inner) => NeverForceable(inner)
    case QdeviceNetAlgorithm(f) => f.NotForceable?
    case _ => true
  }

  /** Every report a validator yields is of a kind it can yield; non-forceable ones only yield errors. */
  lemma {:induction false} ApplyYields(fw: Framework, v: Validator, o: Options)
    ensures forall i :: 0 <= i < |Apply(fw, v, o)| ==> Yields(v, Apply(fw, v, o)[i].code)
    ensures NeverForceable(v) ==>
      forall i :: 0 <= i < |Apply(fw, v, o)| ==> Apply(fw, v, o)[i].severity == Error && Apply(fw, v, o)[i].force == None
  {
    match v
    case ValueEmptyOrValid(name, inner) => ApplyYields(fw, inner, o);
    case _ =>
  }

  /** A collection none of whose validators can yield a kind of report yields no report of that kind. */
  lemma {:induction false} RunCollectionNever(fw: Framework, o: Options, validators: seq<Validator>, p: Code -> bool)
    requires forall k, c :: 0 <= k < |validators| && Yields(validators[k], c) ==> !p(c)
    ensures Count(RunCollection(fw, o, validators), p) == 0
  {
    if |validators| > 0 {
      var head := Apply(fw, validators[0], o);
      ApplyYields(fw, validators[0], o);
      CountZero(head, p);
      RunCollectionNever(fw, o, validators[1..], p);
      CountAppend(head, RunCollection(fw, o, validators[1..]), p);
    }
  }

  predicate AllSatisfy(reports: seq<Report>, p: Report -> bool) {
    forall i :: 0 <= i < |reports| ==> p(reports[i])
  }

  lemma AllSatisfyAppend(a: seq<Report>, b: seq<Report>, p: Report -> bool)
    ensures AllSatisfy(a + b, p) <==> AllSatisfy(a, p) && AllSatisfy(b, p)
  {
    if AllSatisfy(a, p) && AllSatisfy(b, p) {
      forall i | 0 <= i < |a + b| ensures p((a + b)[i]) {
        if i >= |a| { assert (a + b)[i] == b[i - |a|]; }
      }
    }
    if AllSatisfy(a + b, p) {
      forall i | 0 <= i < |a| ensures p(a[i]) {
        assert (a + b)[i] == a[i];
      }
      forall i | 0 <= i < |b| ensures p(b[i]) {
        assert (a + b)[|a| + i] == b[i];
      }
    }
  }

  /** Every report of a validator in a collection is a report of the collection. */
  lemma {:induction false} RunCollectionIncludes(fw: Framework, o: Options, validators: seq<Validator>, k: nat)
    requires k < |validators|
    ensures forall r :: r in Apply(fw, validators[k], o) ==> r in RunCollection(fw, o, validators)
  {
    if k > 0 {
      RunCollectionIncludes(fw, o, validators[1..], k - 1);
    }
  }

  lemma AllSatisfyWeaken(reports: seq<Report>, p: Report -> bool, q: Report -> bool)
    requires AllSatisfy(reports, p)
    requires forall r :: p(r) ==> q(r)
    ensures AllSatisfy(reports, q)
  {
  }

  /** An optional single report counts once exactly when it is there and of the kind counted. */
  lemma CountOptional(present: bool, r: Report, p: Code -> bool)
    ensures Count(if present then [r] else [], p) == if present && p(r.code) then 1 else 0
  {
    if present {
      CountSingle(r, p);
    }
  }

  /** A property every validator's reports have is a property of the collection's reports. */
  lemma {:induction false} RunCollectionEvery(fw: Framework, o: Options, validators: seq<Validator>, p: Report -> bool)
    requires forall k :: 0 <= k < |validators| ==> AllSatisfy(Apply(fw, validators[k], o), p)
    ensures AllSatisfy(RunCollection(fw, o, validators), p)
  {
    if |validators| > 0 {
      assert AllSatisfy(Apply(fw, validators[0], o), p);
      RunCollectionEvery(fw, o, validators[1..], p);
      var all := RunCollection(fw, o, validators);
      assert all == Apply(fw, validators[0], o) + RunCollection(fw, o, validators[1..]);
    }
  }

  /** A names check yields no report of a kind other than the invalid-names kind. */
  lemma NamesInNever(allowed: seq<string>, names: seq<string>, optionType: string, forcing: Forcing, patterns: seq<string>, p: Code -> bool)
    requires forall c: Code :: c.InvalidOptions? ==> !p(c)
    ensures Count(NamesIn(allowed, names, optionType, forcing, patterns), p) == 0
  {
  }

  /** The option `name` is absent or its value satisfies `p`. */
  predicate ValueSatisfies(o: Options, name: string, p: string -> bool) {
    Get(o, name).None? || p(Get(o, name).value)
  }

  /** When a validator is satisfied, stated on the option map rather than on its reports. */
  predicate Accepts(fw: Framework, v: Validator, o: Options)
  {
    match v
    case IsRequired(name, _) => Has(o, name)
    case ValueNotEmpty(name, _, _) => Get(o, name) != Some("")
    case ValueIn(name, allowed, _) => ValueSatisfies(o, name, x => x in allowed)
    case ValueIntegerInRange(name, low, high, _) => ValueSatisfies(o, name, x => IsIntegerIn(fw, x, low, high))
    case ValueNonnegativeInteger(name, _) => ValueSatisfies(o, name, x => IsIntegerAtLeast(fw, x, 0))
    case ValuePositiveInteger(name, _) => ValueSatisfies(o, name, x => IsIntegerAtLeast(fw, x, 1))
    case ValuePortNumber(name, _) => ValueSatisfies(o, name, fw.isPortNumber)
    case ValueIpAddress(name) => ValueSatisfies(o, name, x => fw.isIpv4Address(x) || fw.isIpv6Address(x))
    case DependsOnOption(name, prerequisite) => Has(o, name) ==> Has(o, prerequisite)
    case ValueEmptyOrValid(name, inner) => Get(o, name).None? || Get(o, name) == Some("") || Accepts(fw, inner, o)
    case QdeviceNetAlgorithm(_) => ValueSatisfies(o, "algorithm", x => x in QdeviceNetAlgorithms)
  }

  /** A validator yields no report exactly when it accepts the map. */
  lemma {:induction false} ApplyAccepts(fw: Framework, v: Validator, o: Options)
    ensures Apply(fw, v, o) == [] <==> Accepts(fw, v, o)
  {
    match v
    case ValueEmptyOrValid(name, inner) => ApplyAccepts(fw, inner, o);
    case _ =>
  }

  predicate AcceptsAll(fw: Framework, validators: seq<Validator>, o: Options) {
    forall k :: 0 <= k < |validators| ==> Accepts(fw, validators[k], o)
  }

  lemma AcceptsAllAppend(fw: Framework, a: seq<Validator>, b: seq<Validator>, o: Options)
    ensures AcceptsAll(fw, a + b, o) <==> AcceptsAll(fw, a, o) && AcceptsAll(fw, b, o)
  {
    if AcceptsAll(fw, a + b, o) {
      forall k | 0 <= k < |a| ensures Accepts(fw, a[k], o) {
        assert (a + b)[k] == a[k];
      }
      forall k | 0 <= k < |b| ensures Accepts(fw, b[k], o) {
        assert (a + b)[|a| + k] == b[k];
      }
    }
    if AcceptsAll(fw, a, o) && AcceptsAll(fw, b, o) {
      forall k | 0 <= k < |a + b| ensures Accepts(fw, (a + b)[k], o) {
        if k >= |a| {
          assert (a + b)[k] == b[k - |a|];
        }
      }
    }
  }

  /** What the value checks accept, stated without the predicate arguments of `ValueSatisfies`. */
  lemma AcceptsValueIn(fw: Framework, name: string, allowed: seq<string>, f: Forcing, o: Options)
    ensures Accepts(fw, ValueIn(name, allowed, f), o) <==> Get(o, name).None? || Get(o, name).value in allowed
  {
  }

  lemma AcceptsIntegerInRange(fw: Framework, name: string, low: int, high: int, f: Forcing, o: Options)
    ensures Accepts(fw, ValueIntegerInRange(name, low, high, f), o) <==>
      Get(o, name).None? || IsIntegerIn(fw, Get(o, name).value, low, high)
  {
  }

  lemma AcceptsPositiveInteger(fw: Framework, name: string, f: Forcing, o: Options)
    ensures Accepts(fw, ValuePositiveInteger(name, f), o) <==> Get(o, name).None? || IsIntegerAtLeast(fw, Get(o, name).value, 1)
  {
  }

  lemma AcceptsPortNumber(fw: Framework, name: string, f: Forcing, o: Options)
    ensures Accepts(fw, ValuePortNumber(name, f), o) <==> Get(o, name).None? || fw.isPortNumber(Get(o, name).value)
  {
  }

  lemma AcceptsNetAlgorithm(fw: Framework, f: Forcing, o: Options)
    ensures Accepts(fw, QdeviceNetAlgorithm(f), o) <==>
      Get(o, "algorithm").None? || Get(o, "algorithm").value in QdeviceNetAlgorithms
  {
  }

  lemma AcceptsAllPair(fw: Framework, v: Validator, w: Validator, o: Options)
    ensures AcceptsAll(fw, [v, w], o) <==> Accepts(fw, v, o) && Accepts(fw, w, o)
  {
    var pair := [v, w];
    assert pair[0] == v && pair[1] == w;
    if Accepts(fw, v, o) && Accepts(fw, w, o) {
      forall k | 0 <= k < 2 ensures Accepts(fw, pair[k], o) {
        if k == 1 {
          assert pair[k] == w;
        }
      }
    }
  }

  /** A collection yields no report exactly when every validator in it accepts the map. */
  lemma {:induction false} RunCollectionAccepts(fw: Framework, o: Options, validators: seq<Validator>)
    ensures RunCollection(fw, o, validators) == [] <==> AcceptsAll(fw, validators, o)
  {
    if |validators| > 0 {
      ApplyAccepts(fw, validators[0], o);
      RunCollectionAccepts(fw, o, validators[1..]);
      assert forall k :: 1 <= k < |validators| ==> validators[k] == validators[1..][k - 1];
    }
  }

  /**
   * A section check (its value validators, then its names check) reports
   * nothing exactly when every validator accepts and every name is allowed.
   */
  lemma SectionAccepts(fw: Framework, o: Options, validators: seq<Validator>, allowed: seq<string>, optionType: string, forcing: Forcing, patterns: seq<string>)
    ensures RunCollection(fw, o, validators) + NamesIn(allowed, Keys(o), optionType, forcing, patterns) == [] <==>
      AcceptsAll(fw, validators, o) && forall n :: n in Keys(o) ==> n in allowed
  {
    RunCollectionAccepts(fw, o, validators);
    NamesInReportsExactly(allowed, Keys(o), optionType, forcing, patterns);
  }

  /** A report of a missing, rejected or unmet option, or of rejected names, that cannot be forced. */
  predicate UnforcedOptionReport(r: Report) {
    Unforced(r) &&
    (r.code.RequiredOptionIsMissing? || r.code.InvalidOptionValue? || r.code.PrerequisiteOptionIsMissing? || r.code.InvalidOptions?)
  }

  /** A collection none of whose validators can be forced yields only unforceable option reports. */
  lemma CollectionUnforced(fw: Framework, o: Options, validators: seq<Validator>)
    requires forall k :: 0 <= k < |validators| ==> NeverForceable(validators[k])
    ensures AllSatisfy(RunCollection(fw, o, validators), UnforcedOptionReport)
  {
    forall k | 0 <= k < |validators| ensures AllSatisfy(Apply(fw, validators[k], o), UnforcedOptionReport) {
      ApplyYields(fw, validators[k], o);
      forall i | 0 <= i < |Apply(fw, validators[k], o)| ensures UnforcedOptionReport(Apply(fw, validators[k], o)[i]) {
        YieldsOptionReport(validators[k], Apply(fw, validators[k], o)[i].code);
      }
    }
    RunCollectionEvery(fw, o, validators, UnforcedOptionReport);
  }

  /** A section check none of whose parts can be forced yields only unforceable option reports. */
  lemma SectionUnforced(fw: Framework, o: Options, validators: seq<Validator>, allowed: seq<string>, optionType: string, patterns: seq<string>)
    requires forall k :: 0 <= k < |validators| ==> NeverForceable(validators[k])
    ensures AllSatisfy(RunCollection(fw, o, validators) + NamesIn(allowed, Keys(o), optionType, NotForceable, patterns), UnforcedOptionReport)
  {
    CollectionUnforced(fw, o, validators);
    AllSatisfyAppend(RunCollection(fw, o, validators), NamesIn(allowed, Keys(o), optionType, NotForceable, patterns), UnforcedOptionReport);
  }

  /** A report kind that option checks never yield. */
  ghost predicate NotAnOptionReport(p: Code -> bool) {
    forall x: Code :: p(x) ==> !(x.RequiredOptionIsMissing? || x.InvalidOptionValue? || x.PrerequisiteOptionIsMissing? || x.InvalidOptions?)
  }

  /** Option checks contribute nothing to the count of a kind they never yield. */
  lemma CountAfterOptionReports(checks: seq<Report>, rest: seq<Report>, p: Code -> bool)
    requires AllSatisfy(checks, UnforcedOptionReport)
    requires NotAnOptionReport(p)
    ensures Count(checks + rest, p) == Count(rest, p)
  {
    CountZero(checks, p);
    CountAppend(checks, rest, p);
  }

  lemma CountSingle(r: Report, p: Code -> bool)
    ensures Count([r], p) == if p(r.code) then 1 else 0
  {
    assert [r][1..] == [];
  }

  /** Validators only yield reports about options. */
  lemma {:induction false} YieldsOptionReport(v: Validator, c: Code)
    requires Yields(v, c)
    ensures c.RequiredOptionIsMissing? || c.InvalidOptionValue? || c.PrerequisiteOptionIsMissing?
  {
    if v.ValueEmptyOrValid? {
      YieldsOptionReport(v.inner, c);
    }
  }

  /** A collection of validators none of which is forceable yields errors that cannot be forced. */
  lemma {:induction false} RunCollectionNeverForceable(fw: Framework, o: Options, validators: seq<Validator>)
    requires forall k :: 0 <= k < |validators| ==> NeverForceable(validators[k])
    ensures forall i :: 0 <= i < |RunCollection(fw, o, validators)| ==>
      RunCollection(fw, o, validators)[i].severity == Error && RunCollection(fw, o, validators)[i].force == None
  {
    if |validators| > 0 {
      ApplyYields(fw, validators[0], o);
      RunCollectionNeverForceable(fw, o, validators[1..]);
    }
  }

  /**
   * A value outside the allowed set yields exactly one report listing the set:
   * a warning with no force token when already forced, else an error carrying the token.
   */
  lemma ValueInForcing(fw: Framework, o: Options, name: string, allowed: seq<string>, token: ForceCode, forced: bool)
    requires Get(o, name).Some? && Get(o, name).value !in allowed
    ensures Apply(fw, ValueIn(name, allowed, Forceable(token, forced)), o) ==
      [Report(InvalidOptionValue(name, Get(o, name).value, Values(allowed)),
              if forced then Warning else Error,
              if forced then None else Some(token))]
  {
  }

  /** An empty value passes the empty-or-valid wrapper whatever the wrapped validator is. */
  lemma EmptyValueAccepted(fw: Framework, o: Options, name: string, inner: Validator)
    requires Get(o, name) == Some("")
    ensures Apply(fw, ValueEmptyOrValid(name, inner), o) == []
  {
  }

  /** Exactly the names outside the allowed list are reported, all in one report. */
  lemma NamesInReportsExactly(allowed: seq<string>, names: seq<string>, optionType: string, forcing: Forcing, patterns: seq<string>)
    ensures |NamesIn(allowed, names, optionType, forcing, patterns)| <= 1
    ensures NamesIn(allowed, names, optionType, forcing, patterns) == [] <==> forall n :: n in names ==> n in allowed
    ensures forall r :: r in NamesIn(allowed, names, optionType, forcing, patterns) ==>
      r.code.InvalidOptions? && forall n :: n in r.code.names <==> n in names && n !in allowed
  {
    var invalid := NotIn(names, allowed);
    if |invalid| > 0 {
      assert invalid[0] in names && invalid[0] !in allowed;
    }
  }

  /** Every forceable parameter inside `v` is `f`. */
  predicate ForcingWithin(v: Validator, f: Forcing)
  {
    match v
    case ValueIn(_, _, g) => g.NotForceable? || g == f
    case ValueIntegerInRange(_, _, _, g) => g.NotForceable? || g == f
    case ValueNonnegativeInteger(_, g) => g.NotForceable? || g == f
    case ValuePositiveInteger(_, g) => g.NotForceable? || g == f
    case ValuePortNumber(_, g) => g.NotForceable? || g == f
    case ValueEmptyOrValid(_, inner) => ForcingWithin(inner, f)
    case QdeviceNetAlgorithm(g) => g.NotForceable? || g == f
    case _ => true
  }

  /** A report the forcing `f` accounts for: an error nobody can force, or what `f` makes of a violation. */
  predicate Respects(r: Report, f: Forcing) {
    Unforced(r) || r == Problem(r.code, f)
  }

  predicate AllRespect(reports: seq<Report>, f: Forcing) {
    forall i :: 0 <= i < |reports| ==> Respects(reports[i], f)
  }

  lemma AllRespectAppend(a: seq<Report>, b: seq<Report>, f: Forcing)
    requires AllRespect(a, f) && AllRespect(b, f)
    ensures AllRespect(a + b, f)
  {
    forall i | 0 <= i < |a + b| ensures Respects((a + b)[i], f) {
      if i >= |a| {
        assert (a + b)[i] == b[i - |a|];
      }
    }
  }

  /** A validator whose forcing parameters are all `f` yields only reports `f` accounts for. */
  /**
   * What a forceable token promises of reports that respect it: once forced,
   * none asks for a token; unforced, none is a warning and the only token
   * asked for is that one.
   */
  lemma AllRespectForceable(reports: seq<Report>, code: ForceCode, forced: bool)
    requires AllRespect(reports, Forceable(code, forced))
    ensures forall r :: r in reports ==>
      (forced ==> r.force == None) && (!forced ==> r.severity == Error && (r.force == None || r.force == Some(code)))
  {
    forall r | r in reports
      ensures (forced ==> r.force == None) && (!forced ==> r.severity == Error && (r.force == None || r.force == Some(code)))
    {
      var i :| 0 <= i < |reports| && reports[i] == r;
      assert Respects(reports[i], Forceable(code, forced));
    }
  }

  lemma {:induction false} ApplyRespects(fw: Framework, v: Validator, o: Options, f: Forcing)
    requires ForcingWithin(v, f)
    ensures AllRespect(Apply(fw, v, o), f)
  {
    match v
    case ValueEmptyOrValid(name, inner) => ApplyRespects(fw, inner, o, f);
    case _ =>
  }

  /** The same for a collection of such validators. */
  lemma {:induction false} RunCollectionRespects(fw: Framework, o: Options, validators: seq<Validator>, f: Forcing)
    requires forall k :: 0 <= k < |validators| ==> ForcingWithin(validators[k], f)
    ensures AllRespect(RunCollection(fw, o, validators), f)
  {
    if |validators| > 0 {
      ApplyRespects(fw, validators[0], o, f);
      RunCollectionRespects(fw, o, validators[1..], f);
      AllRespectAppend(Apply(fw, validators[0], o), RunCollection(fw, o, validators[1..]), f);
    }
  }

  /** A value check on one option: it yields nothing but a rejection of that option's value. */
  predicate ValueCheck(v: Validator) {
    v.ValueIn? || v.ValueIntegerInRange? || v.ValueNonnegativeInteger? || v.ValuePositiveInteger? ||
    v.ValuePortNumber? || v.ValueIpAddress?
  }

  /** Reports of a rejected value of `name`, never of an empty one when `nonEmpty`. */
  predicate RejectsValueOf(r: Report, name: string, nonEmpty: bool) {
    r.code.InvalidOptionValue? && r.code.name == name && (nonEmpty ==> r.code.value != "")
  }

  /**
   * A value check rejects only the value of its own option; wrapped in the
   * empty-or-valid wrapper under that option's name, never an empty value.
   */
  lemma ValueCheckReports(fw: Framework, v: Validator, o: Options, wrapped: bool)
    requires ValueCheck(v)
    ensures forall r :: r in Apply(fw, if wrapped then ValueEmptyOrValid(v.name, v) else v, o) ==>
      RejectsValueOf(r, v.name, wrapped)
  {
  }
}
