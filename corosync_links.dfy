/**
 * The validators of the link (interface) lists given when a cluster is
 * created: udp/udpu accepts a single link whose options are checked, knet
 * several links each checked on its own, with their link numbers unique.
 */
module CorosyncLinks {
  import opened Wrappers
  import opened Validate
  import opened CorosyncConstants

  const UdpLinkAllowed: seq<string> := ["bindnetaddr", "broadcast", "mcastaddr", "mcastport", "ttl"]

  function UdpLinkValidators(): seq<Validator> {
    [ ValueIpAddress("bindnetaddr"),
      ValueIn("broadcast", ["0", "1"], NotForceable),
      ValueIpAddress("mcastaddr"),
      ValuePortNumber("mcastport", NotForceable),
      ValueIntegerInRange("ttl", 0, 255, NotForceable) ]
  }

  /** Broadcast (default off) is switched on while a multicast address is given. */
  predicate BroadcastWithMcastaddr(link: Options) {
    GetOr(link, "broadcast", "0") == "1" && Has(link, "mcastaddr")
  }

  function TooManyLinks(count: nat, max: nat, transport: string): seq<Report> {
    if count > max then [Report(CorosyncTooManyLinks(count, max, transport), Error, None)] else []
  }

  /**
   * The udp/udpu link list: nothing for an empty list; otherwise the options
   * of the first link only, the broadcast and multicast contradiction, and
   * a list longer than the udp maximum.
   */
  function CreateLinkListUdp(fw: Framework, c: Constants, links: seq<Options>): seq<Report>
  {
    if |links| == 0 then []
    else
      var link := links[0];
      UdpFirstLinkChecks(fw, link)
      + (if BroadcastWithMcastaddr(link) then [Report(CorosyncEnabledBroadcastDisallowsMcastaddr, Error, None)] else [])
      + TooManyLinks(|links|, c.linksUdpMax, "udp/udpu")
  }

  /** Links after the first are counted but never looked at. */
  lemma UdpOnlyFirstLinkValidated(fw: Framework, c: Constants, links: seq<Options>, others: seq<Options>)
    requires |links| == |others| && |links| > 0 && links[0] == others[0]
    ensures CreateLinkListUdp(fw, c, links) == CreateLinkListUdp(fw, c, others)
  {
  }

  /** The checks of the first link's options, none of which can be forced. */
  function UdpFirstLinkChecks(fw: Framework, link: Options): (reports: seq<Report>)
    ensures AllSatisfy(reports, UnforcedOptionReport)
  {
    SectionUnforced(fw, link, UdpLinkValidators(), UdpLinkAllowed, "link", []);
    RunCollection(fw, link, UdpLinkValidators()) + NamesIn(UdpLinkAllowed, Keys(link), "link", NotForceable, [])
  }

  /** The broadcast and multicast contradiction is reported once when the first link has it, and never otherwise. */
  lemma UdpBroadcastContradiction(fw: Framework, c: Constants, links: seq<Options>)
    ensures Count(CreateLinkListUdp(fw, c, links), (x: Code) => x.CorosyncEnabledBroadcastDisallowsMcastaddr?)
      == if |links| > 0 && BroadcastWithMcastaddr(links[0]) then 1 else 0
  {
    if |links| > 0 {
      var p := (x: Code) => x.CorosyncEnabledBroadcastDisallowsMcastaddr?;
      var broadcast: seq<Report> := if BroadcastWithMcastaddr(links[0]) then [Report(CorosyncEnabledBroadcastDisallowsMcastaddr, Error, None)] else [];
      var tooMany := TooManyLinks(|links|, c.linksUdpMax, "udp/udpu");
      assert CreateLinkListUdp(fw, c, links) == UdpFirstLinkChecks(fw, links[0]) + (broadcast + tooMany);
      CountAfterOptionReports(UdpFirstLinkChecks(fw, links[0]), broadcast + tooMany, p);
      CountAppend(broadcast, tooMany, p);
      if |broadcast| > 0 { CountSingle(broadcast[0], p); }
      if |tooMany| > 0 { CountSingle(tooMany[0], p); }
    }
  }

  /** A list longer than the udp maximum is reported once, with its length, and a shorter one never. */
  lemma UdpTooManyLinks(fw: Framework, c: Constants, links: seq<Options>)
    ensures Count(CreateLinkListUdp(fw, c, links), (x: Code) => x.CorosyncTooManyLinks?)
      == if |links| > c.linksUdpMax then 1 else 0
    ensures AllSatisfy(CreateLinkListUdp(fw, c, links),
      (r: Report) => r.code.CorosyncTooManyLinks? ==> r.code == CorosyncTooManyLinks(|links|, c.linksUdpMax, "udp/udpu"))
  {
    if |links| > 0 {
      var p := (x: Code) => x.CorosyncTooManyLinks?;
      var q := (r: Report) => r.code.CorosyncTooManyLinks? ==> r.code == CorosyncTooManyLinks(|links|, c.linksUdpMax, "udp/udpu");
      var checks := UdpFirstLinkChecks(fw, links[0]);
      var broadcast: seq<Report> := if BroadcastWithMcastaddr(links[0]) then [Report(CorosyncEnabledBroadcastDisallowsMcastaddr, Error, None)] else [];
      var tooMany := TooManyLinks(|links|, c.linksUdpMax, "udp/udpu");
      assert CreateLinkListUdp(fw, c, links) == checks + (broadcast + tooMany);
      CountAfterOptionReports(checks, broadcast + tooMany, p);
      CountAppend(broadcast, tooMany, p);
      if |broadcast| > 0 { CountSingle(broadcast[0], p); }
      if |tooMany| > 0 { CountSingle(tooMany[0], p); }
      AllSatisfyWeaken(checks, UnforcedOptionReport, q);
      AllSatisfyAppend(checks, broadcast + tooMany, q);
    } else {
      assert c.linksUdpMax >= 0;
    }
  }

  /** No udp/udpu link report can be forced. */
  lemma UdpLinkListUnforced(fw: Framework, c: Constants, links: seq<Options>)
    ensures AllSatisfy(CreateLinkListUdp(fw, c, links), Unforced)
  {
    if |links| > 0 {
      var checks := UdpFirstLinkChecks(fw, links[0]);
      var broadcast: seq<Report> := if BroadcastWithMcastaddr(links[0]) then [Report(CorosyncEnabledBroadcastDisallowsMcastaddr, Error, None)] else [];
      var tooMany := TooManyLinks(|links|, c.linksUdpMax, "udp/udpu");
      assert CreateLinkListUdp(fw, c, links) == checks + broadcast + tooMany;
      AllSatisfyAppend(checks, broadcast, Unforced);
      AllSatisfyAppend(checks + broadcast, tooMany, Unforced);
    }
  }

  predicate UdpLinkValid(fw: Framework, link: Options) {
    NamesAllowed(link, UdpLinkAllowed)
    && ValueSatisfies(link, "bindnetaddr", x => fw.isIpv4Address(x) || fw.isIpv6Address(x))
    && ValueSatisfies(link, "broadcast", x => x in ["0", "1"])
    && ValueSatisfies(link, "mcastaddr", x => fw.isIpv4Address(x) || fw.isIpv6Address(x))
    && ValueSatisfies(link, "mcastport", fw.isPortNumber)
    && ValueSatisfies(link, "ttl", x => IsIntegerIn(fw, x, 0, 255))
    && !BroadcastWithMcastaddr(link)
  }

  /** A udp/udpu link list is accepted exactly when it is empty, or short enough with a valid first link. */
  lemma UdpLinkListAccepts(fw: Framework, c: Constants, links: seq<Options>)
    ensures CreateLinkListUdp(fw, c, links) == [] <==>
      |links| == 0 || (|links| <= c.linksUdpMax && UdpLinkValid(fw, links[0]))
  {
    if |links| > 0 {
      var link := links[0];
      var validators := UdpLinkValidators();
      SectionAccepts(fw, link, validators, UdpLinkAllowed, "link", NotForceable, []);
      if UdpLinkValid(fw, link) {
        forall k | 0 <= k < 5 ensures Accepts(fw, validators[k], link) {
          if k == 0 {} else if k == 1 {} else if k == 2 {} else if k == 3 {} else {}
        }
      }
      if AcceptsAll(fw, validators, link) {
        assert Accepts(fw, validators[0], link) && Accepts(fw, validators[1], link) && Accepts(fw, validators[2], link)
          && Accepts(fw, validators[3], link) && Accepts(fw, validators[4], link);
      }
    }
  }

  const KnetLinkAllowed: seq<string> := [
    "ip_version", "linknumber", "link_priority", "mcastport", "ping_interval",
    "ping_precision", "ping_timeout", "pong_count", "transport"]

  /** The requested highest link number, clamped to the link numbers knet has. */
  function ClampLinkNumber(c: Constants, maxLinkNumber: int): (n: int)
    ensures 0 <= n
    ensures c.linksKnetMax >= 1 ==> n <= c.linksKnetMax - 1
    ensures 0 <= maxLinkNumber < c.linksKnetMax ==> n == maxLinkNumber
    ensures maxLinkNumber < 0 ==> n == 0
    ensures c.linksKnetMax >= 1 && maxLinkNumber >= c.linksKnetMax ==> n == c.linksKnetMax - 1
  {
    var capped := if c.linksKnetMax - 1 < maxLinkNumber then c.linksKnetMax - 1 else maxLinkNumber;
    if capped < 0 then 0 else capped
  }

  function KnetLinkValidators(maxLinkNumber: int): seq<Validator> {
    [ ValueIn("ip_version", ["ipv4", "ipv6"], NotForceable),
      ValueIntegerInRange("linknumber", 0, maxLinkNumber, NotForceable),
      ValueIntegerInRange("link_priority", 0, 255, NotForceable),
      ValuePortNumber("mcastport", NotForceable),
      ValueNonnegativeInteger("ping_interval", NotForceable),
      ValueNonnegativeInteger("ping_precision", NotForceable),
      ValueNonnegativeInteger("ping_timeout", NotForceable),
      DependsOnOption("ping_interval", "ping_timeout"),
      DependsOnOption("ping_timeout", "ping_interval"),
      ValueNonnegativeInteger("pong_count", NotForceable),
      ValueIn("transport", ["sctp", "udp"], NotForceable) ]
  }

  /** The checks of one knet link, given the clamped highest link number. */
  function KnetLinkChecks(fw: Framework, link: Options, linkNumberLimit: int): (reports: seq<Report>)
    ensures AllSatisfy(reports, UnforcedOptionReport)
  {
    var validators := KnetLinkValidators(linkNumberLimit);
    SectionUnforced(fw, link, validators, KnetLinkAllowed, "link", []);
    RunCollection(fw, link, validators) + NamesIn(KnetLinkAllowed, Keys(link), "link", NotForceable, [])
  }

  /** The checks of every link, in link order. */
  function EachKnetLink(fw: Framework, links: seq<Options>, linkNumberLimit: int): (reports: seq<Report>)
  {
    if |links| == 0 then []
    else EachKnetLink(fw, links[..|links| - 1], linkNumberLimit) + KnetLinkChecks(fw, links[|links| - 1], linkNumberLimit)
  }

  lemma {:induction false} EachKnetLinkUnforced(fw: Framework, links: seq<Options>, linkNumberLimit: int)
    ensures AllSatisfy(EachKnetLink(fw, links, linkNumberLimit), UnforcedOptionReport)
  {
    if |links| > 0 {
      EachKnetLinkUnforced(fw, links[..|links| - 1], linkNumberLimit);
      AllSatisfyAppend(EachKnetLink(fw, links[..|links| - 1], linkNumberLimit), KnetLinkChecks(fw, links[|links| - 1], linkNumberLimit), UnforcedOptionReport);
    }
  }

  /** The raw `linknumber` values of the links that set one, in link order. */
  function LinkNumbers(links: seq<Options>): seq<string>
  {
    if |links| == 0 then []
    else
      var init := LinkNumbers(links[..|links| - 1]);
      match Get(links[|links| - 1], "linknumber")
      case Some(n) => init + [n]
      case None => init
  }

  /** A link number is listed exactly when some link sets it. */
  lemma {:induction false} LinkNumbersMembership(links: seq<Options>, n: string)
    ensures n in LinkNumbers(links) <==> exists k :: 0 <= k < |links| && Get(links[k], "linknumber") == Some(n)
  {
    if |links| > 0 {
      var init := links[..|links| - 1];
      LinkNumbersMembership(init, n);
      assert forall k :: 0 <= k < |init| ==> init[k] == links[k];
      if n in LinkNumbers(links) && n !in LinkNumbers(init) {
        assert Get(links[|links| - 1], "linknumber") == Some(n);
      }
    }
  }

  /** The link numbers, compared as strings, that more than one link uses. */
  function DuplicateLinkNumbers(links: seq<Options>): set<string> {
    Duplicates(LinkNumbers(links))
  }

  /**
   * The knet link list: nothing for an empty list; otherwise every link's
   * checks in order, one report of the link numbers used more than once, and
   * a list longer than the knet maximum.
   */
  function KnetLinkListReports(fw: Framework, c: Constants, links: seq<Options>, maxLinkNumber: int): seq<Report>
  {
    if |links| == 0 then []
    else EachKnetLink(fw, links, ClampLinkNumber(c, maxLinkNumber)) + KnetListWide(c, links)
  }

  /** The reports about a knet link list as a whole: link numbers used more than once, too many links. */
  function KnetListWide(c: Constants, links: seq<Options>): seq<Report>
  {
    var duplicates := DuplicateLinkNumbers(links);
    (if |duplicates| > 0 then [Report(CorosyncLinkNumberDuplication(duplicates), Error, None)] else [])
    + TooManyLinks(|links|, c.linksKnetMax, "knet")
  }

  /** Some link number is used more than once exactly when the duplicate set is not empty. */
  lemma DuplicatesExist(links: seq<Options>)
    ensures |DuplicateLinkNumbers(links)| > 0 <==> exists n :: multiset(LinkNumbers(links))[n] > 1
  {
    var duplicates := DuplicateLinkNumbers(links);
    if exists n :: multiset(LinkNumbers(links))[n] > 1 {
      var n :| multiset(LinkNumbers(links))[n] > 1;
      assert n in duplicates;
    }
    if |duplicates| > 0 {
      var n :| n in duplicates;
      assert multiset(LinkNumbers(links))[n] > 1;
    }
  }

  lemma KnetListWideDuplication(c: Constants, links: seq<Options>)
    ensures Count(KnetListWide(c, links), (x: Code) => x.CorosyncLinkNumberDuplication?)
      == if exists n :: multiset(LinkNumbers(links))[n] > 1 then 1 else 0
    ensures AllSatisfy(KnetListWide(c, links),
      (r: Report) => r.code.CorosyncLinkNumberDuplication? ==> r.code.numbers == DuplicateLinkNumbers(links))
    ensures AllSatisfy(KnetListWide(c, links), Unforced)
  {
    var p := (x: Code) => x.CorosyncLinkNumberDuplication?;
    var duplicates := DuplicateLinkNumbers(links);
    var dup: seq<Report> := if |duplicates| > 0 then [Report(CorosyncLinkNumberDuplication(duplicates), Error, None)] else [];
    var tooMany := TooManyLinks(|links|, c.linksKnetMax, "knet");
    DuplicatesExist(links);
    CountAppend(dup, tooMany, p);
    if |dup| > 0 { CountSingle(dup[0], p); }
    if |tooMany| > 0 { CountSingle(tooMany[0], p); }
  }

  lemma KnetListWideTooMany(c: Constants, links: seq<Options>)
    ensures Count(KnetListWide(c, links), (x: Code) => x.CorosyncTooManyLinks?)
      == if |links| > c.linksKnetMax then 1 else 0
    ensures AllSatisfy(KnetListWide(c, links),
      (r: Report) => r.code.CorosyncTooManyLinks? ==> r.code == CorosyncTooManyLinks(|links|, c.linksKnetMax, "knet"))
  {
    var q := (x: Code) => x.CorosyncTooManyLinks?;
    var duplicates := DuplicateLinkNumbers(links);
    var dup: seq<Report> := if |duplicates| > 0 then [Report(CorosyncLinkNumberDuplication(duplicates), Error, None)] else [];
    var tooMany := TooManyLinks(|links|, c.linksKnetMax, "knet");
    CountAppend(dup, tooMany, q);
    if |dup| > 0 { CountSingle(dup[0], q); }
    if |tooMany| > 0 { CountSingle(tooMany[0], q); }
  }

  /** Checks each link in turn, counting the link numbers the links set. */
  method CheckEachKnetLink(fw: Framework, links: seq<Options>, limit: int) returns (reports: seq<Report>, used: multiset<string>)
    ensures reports == EachKnetLink(fw, links, limit)
    ensures used == multiset(LinkNumbers(links))
  {
    reports := [];
    used := multiset{};
    var i := 0;
    while i < |links|
      invariant 0 <= i <= |links|
      invariant reports == EachKnetLink(fw, links[..i], limit)
      invariant used == multiset(LinkNumbers(links[..i]))
    {
      ghost var prefix := links[..i + 1];
      assert prefix[..i] == links[..i] && prefix[i] == links[i];
      var link := links[i];
      var number := Get(link, "linknumber");
      if number.Some? {
        used := used + multiset{number.value};
      }
      assert used == multiset(LinkNumbers(prefix));
      reports := reports + KnetLinkChecks(fw, link, limit);
      assert reports == EachKnetLink(fw, prefix, limit);
      i := i + 1;
    }
    assert links[..|links|] == links;
  }

  /** Validates the knet link list, counting the link numbers as it goes. */
  method CreateLinkListKnet(fw: Framework, c: Constants, links: seq<Options>, maxLinkNumber: int) returns (reports: seq<Report>)
    ensures reports == KnetLinkListReports(fw, c, links, maxLinkNumber)
  {
    if |links| == 0 {
      return [];
    }
    var used;
    reports, used := CheckEachKnetLink(fw, links, ClampLinkNumber(c, maxLinkNumber));
    var duplicates := set n | n in used && used[n] > 1;
    var listWide: seq<Report> := [];
    if |duplicates| > 0 {
      listWide := [Report(CorosyncLinkNumberDuplication(duplicates), Error, None)];
    }
    if |links| > c.linksKnetMax {
      listWide := listWide + [Report(CorosyncTooManyLinks(|links|, c.linksKnetMax, "knet"), Error, None)];
    }
    assert listWide == KnetListWide(c, links);
    reports := reports + listWide;
  }

  /**
   * Link numbers used by more than one link are reported exactly once, in a
   * report naming exactly those numbers.
   */
  lemma KnetLinkNumberDuplication(fw: Framework, c: Constants, links: seq<Options>, maxLinkNumber: int)
    ensures Count(KnetLinkListReports(fw, c, links, maxLinkNumber), (x: Code) => x.CorosyncLinkNumberDuplication?)
      == if exists n :: multiset(LinkNumbers(links))[n] > 1 then 1 else 0
    ensures AllSatisfy(KnetLinkListReports(fw, c, links, maxLinkNumber),
      (r: Report) => r.code.CorosyncLinkNumberDuplication? ==> r.code.numbers == DuplicateLinkNumbers(links))
  {
    var q := (r: Report) => r.code.CorosyncLinkNumberDuplication? ==> r.code.numbers == DuplicateLinkNumbers(links);
    KnetListWideDuplication(c, links);
    if |links| > 0 {
      var checks := EachKnetLink(fw, links, ClampLinkNumber(c, maxLinkNumber));
      EachKnetLinkUnforced(fw, links, ClampLinkNumber(c, maxLinkNumber));
      CountAfterOptionReports(checks, KnetListWide(c, links), (x: Code) => x.CorosyncLinkNumberDuplication?);
      AllSatisfyWeaken(checks, UnforcedOptionReport, q);
      AllSatisfyAppend(checks, KnetListWide(c, links), q);
    } else {
      assert LinkNumbers(links) == [];
    }
  }

  /** A list longer than the knet maximum is reported exactly once, with its length. */
  lemma KnetTooManyLinks(fw: Framework, c: Constants, links: seq<Options>, maxLinkNumber: int)
    ensures Count(KnetLinkListReports(fw, c, links, maxLinkNumber), (x: Code) => x.CorosyncTooManyLinks?)
      == if |links| > c.linksKnetMax then 1 else 0
    ensures AllSatisfy(KnetLinkListReports(fw, c, links, maxLinkNumber),
      (r: Report) => r.code.CorosyncTooManyLinks? ==> r.code == CorosyncTooManyLinks(|links|, c.linksKnetMax, "knet"))
  {
    var q := (r: Report) => r.code.CorosyncTooManyLinks? ==> r.code == CorosyncTooManyLinks(|links|, c.linksKnetMax, "knet");
    KnetListWideTooMany(c, links);
    if |links| > 0 {
      var checks := EachKnetLink(fw, links, ClampLinkNumber(c, maxLinkNumber));
      EachKnetLinkUnforced(fw, links, ClampLinkNumber(c, maxLinkNumber));
      CountAfterOptionReports(checks, KnetListWide(c, links), (x: Code) => x.CorosyncTooManyLinks?);
      AllSatisfyWeaken(checks, UnforcedOptionReport, q);
      AllSatisfyAppend(checks, KnetListWide(c, links), q);
    } else {
      assert c.linksKnetMax >= 0;
    }
  }

  /** No knet link report can be forced. */
  lemma KnetLinkListUnforced(fw: Framework, c: Constants, links: seq<Options>, maxLinkNumber: int)
    ensures AllSatisfy(KnetLinkListReports(fw, c, links, maxLinkNumber), Unforced)
  {
    if |links| > 0 {
      var checks := EachKnetLink(fw, links, ClampLinkNumber(c, maxLinkNumber));
      EachKnetLinkUnforced(fw, links, ClampLinkNumber(c, maxLinkNumber));
      KnetListWideDuplication(c, links);
      AllSatisfyWeaken(checks, UnforcedOptionReport, Unforced);
      AllSatisfyAppend(checks, KnetListWide(c, links), Unforced);
    }
  }

  /** An empty knet link list is not validated at all. */
  lemma KnetEmptyLinkList(fw: Framework, c: Constants, maxLinkNumber: int)
    ensures KnetLinkListReports(fw, c, [], maxLinkNumber) == []
  {
  }
}
