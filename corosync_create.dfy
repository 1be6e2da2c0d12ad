/**
 * Validation of the input of `pcs cluster setup`: the cluster name, the
 * transport and the node list of a new minimal corosync.conf.
 */
module CorosyncCreate {
  import opened Wrappers
  import opened Strings
  import opened Validate
  import opened CorosyncConstants

  /** A node of the new cluster: its name, if given, and its addresses (one per link). */
  datatype Node = Node(name: Option<string>, addrs: seq<string>)

  /** The kind of an address: an IP literal, a name that resolves, or a name that does not. */
  datatype AddressType = IPv4 | IPv6 | Fqdn | Unresolvable

  /** The option map the node-name validators see. */
  function NodeOptions(node: Node): Options {
    if node.name.Some? then [("name", node.name.value)] else []
  }

  /** A name that can identify the node: present and not empty. */
  predicate NameUsable(node: Node) {
    node.name.Some? && node.name.value != ""
  }

  /**
   * The type of an address; `resolves` stands for the resolver lookup
   * that decides between a resolvable name and an unresolvable one.
   */
  function Classify(fw: Framework, resolves: string -> bool, addr: string): (t: AddressType)
    ensures t == IPv4 <==> fw.isIpv4Address(addr)
    ensures t == IPv6 <==> !fw.isIpv4Address(addr) && fw.isIpv6Address(addr)
    ensures t == Unresolvable <==> !fw.isIpv4Address(addr) && !fw.isIpv6Address(addr) && !resolves(addr)
  {
    if fw.isIpv4Address(addr) then IPv4
    else if fw.isIpv6Address(addr) then IPv6
    else if resolves(addr) then Fqdn
    else Unresolvable
  }

  /*
   * The cluster-wide checks.
   */

  function ClusterValidators(c: Constants): seq<Validator> {
    [ValueNotEmpty("name", "a cluster name", "cluster name"), ValueIn("transport", c.transportsAll, NotForceable)]
  }

  function ClusterChecks(fw: Framework, c: Constants, clusterName: string, transport: string): seq<Report> {
    RunCollection(fw, [("name", clusterName), ("transport", transport)], ClusterValidators(c))
  }

  /** The cluster name and transport are accepted iff the name is not empty and the transport is known. */
  lemma ClusterChecksAccept(fw: Framework, c: Constants, clusterName: string, transport: string)
    ensures ClusterChecks(fw, c, clusterName, transport) == [] <==> clusterName != "" && transport in c.transportsAll
    ensures AllSatisfy(ClusterChecks(fw, c, clusterName, transport), UnforcedOptionReport)
  {
    var o := [("name", clusterName), ("transport", transport)];
    RunCollectionAccepts(fw, o, ClusterValidators(c));
    CollectionUnforced(fw, o, ClusterValidators(c));
    assert Get(o, "name") == Some(clusterName);
    assert Get(o, "transport") == Some(transport);
    assert AcceptsAll(fw, ClusterValidators(c), o) <==>
      Accepts(fw, ClusterValidators(c)[0], o) && Accepts(fw, ClusterValidators(c)[1], o);
  }

  /*
   * The checks of one node.
   */

  function NameValidators(index: nat): seq<Validator> {
    [IsRequired("name", "node " + NatToString(index)),
     ValueNotEmpty("name", "a non-empty string", "node " + NatToString(index) + " name")]
  }

  /** The name checks of the node at 1-based position `index`. */
  function NameChecks(fw: Framework, node: Node, index: nat): seq<Report> {
    RunCollection(fw, NodeOptions(node), NameValidators(index))
  }

  /** A node's name is accepted iff it is present and not empty; the checks cannot be forced. */
  lemma NameChecksAccept(fw: Framework, node: Node, index: nat)
    ensures NameChecks(fw, node, index) == [] <==> NameUsable(node)
    ensures AllSatisfy(NameChecks(fw, node, index), UnforcedOptionReport)
  {
    var o := NodeOptions(node);
    RunCollectionAccepts(fw, o, NameValidators(index));
    CollectionUnforced(fw, o, NameValidators(index));
    assert AcceptsAll(fw, NameValidators(index), o) <==>
      Accepts(fw, NameValidators(index)[0], o) && Accepts(fw, NameValidators(index)[1], o);
    if node.name.Some? {
      assert Get(o, "name") == Some(node.name.value);
    }
  }

  /** The allowed number of addresses per node for a transport, if the transport is known to have a bound. */
  function AddressBounds(c: Constants, transport: string): (bounds: Option<(nat, nat)>)
    ensures bounds.Some? <==> transport in c.transportsKnet + c.transportsUdp
  {
    if transport in c.transportsKnet then Some((c.linksKnetMin, c.linksKnetMax))
    else if transport in c.transportsUdp then Some((c.linksUdpMin, c.linksUdpMax))
    else None
  }

  predicate OutOfRange(c: Constants, node: Node, transport: string) {
    var bounds := AddressBounds(c, transport);
    bounds.Some? && (|node.addrs| < bounds.value.0 || |node.addrs| > bounds.value.1)
  }

  function BadCountReport(c: Constants, node: Node, index: nat, transport: string): Report
    requires AddressBounds(c, transport).Some?
  {
    var bounds := AddressBounds(c, transport).value;
    Report(CorosyncBadNodeAddressesCount(|node.addrs|, bounds.0, bounds.1, node.name, index), Error, None)
  }

  function BadCount(c: Constants, node: Node, index: nat, transport: string): seq<Report> {
    if OutOfRange(c, node, transport) then [BadCountReport(c, node, index, transport)] else []
  }

  function NodeReports(fw: Framework, c: Constants, node: Node, index: nat, transport: string): seq<Report> {
    NameChecks(fw, node, index) + BadCount(c, node, index, transport)
  }

  /** The reports of every node checked on its own, nodes numbered from 1. */
  function EachNode(fw: Framework, c: Constants, nodes: seq<Node>, transport: string): seq<Report> {
    if |nodes| == 0 then []
    else EachNode(fw, c, nodes[..|nodes| - 1], transport) + NodeReports(fw, c, nodes[|nodes| - 1], |nodes|, transport)
  }

  /** A report of the per-node checks: an unforceable name report or an address-count report. */
  predicate NodeCheckReport(r: Report) {
    UnforcedOptionReport(r) || (Unforced(r) && r.code.CorosyncBadNodeAddressesCount?)
  }

  /**
   * The checks of one node yield only unforceable reports, at most one of them
   * about the address count: it is there exactly when the count is out of
   * bounds; all the others are about the name, and there are none exactly
   * when the name is usable.
   */
  lemma NodeReportsShape(fw: Framework, c: Constants, node: Node, index: nat, transport: string)
    ensures AllSatisfy(NodeReports(fw, c, node, index, transport), NodeCheckReport)
    ensures AllSatisfy(NodeReports(fw, c, node, index, transport), (r: Report) => r.code.CorosyncBadNodeAddressesCount?) <==> NameUsable(node)
    ensures forall r :: r in NodeReports(fw, c, node, index, transport) && r.code.CorosyncBadNodeAddressesCount? ==>
      OutOfRange(c, node, transport) && r == BadCountReport(c, node, index, transport)
    ensures OutOfRange(c, node, transport) ==> BadCountReport(c, node, index, transport) in NodeReports(fw, c, node, index, transport)
  {
    var p := (r: Report) => r.code.CorosyncBadNodeAddressesCount?;
    var names := NameChecks(fw, node, index);
    var bad := BadCount(c, node, index, transport);
    NameChecksAccept(fw, node, index);
    AllSatisfyWeaken(names, UnforcedOptionReport, NodeCheckReport);
    AllSatisfyAppend(names, bad, NodeCheckReport);
    AllSatisfyAppend(names, bad, p);
    assert AllSatisfy(names, p) <==> names == [] by {
      if names != [] {
        assert UnforcedOptionReport(names[0]);
      }
    }
    assert forall r :: r in names ==> !r.code.CorosyncBadNodeAddressesCount? by {
      forall r | r in names ensures !r.code.CorosyncBadNodeAddressesCount? {
        var i :| 0 <= i < |names| && names[i] == r;
        assert UnforcedOptionReport(names[i]);
      }
    }
  }

  /** The per-node checks yield only unforceable name reports and address-count reports. */
  lemma {:induction false} EachNodeKinds(fw: Framework, c: Constants, nodes: seq<Node>, transport: string)
    ensures AllSatisfy(EachNode(fw, c, nodes, transport), NodeCheckReport)
  {
    if |nodes| > 0 {
      var init := nodes[..|nodes| - 1];
      var last := nodes[|nodes| - 1];
      EachNodeKinds(fw, c, init, transport);
      NodeReportsShape(fw, c, last, |nodes|, transport);
      AllSatisfyAppend(EachNode(fw, c, init, transport), NodeReports(fw, c, last, |nodes|, transport), NodeCheckReport);
    }
  }

  /**
   * Every address-count report of the per-node checks is about a node whose
   * number of addresses is outside the transport's bounds, and carries that
   * node's 1-based position.
   */
  lemma {:induction false} EachNodeBadCounts(fw: Framework, c: Constants, nodes: seq<Node>, transport: string)
    ensures forall r :: r in EachNode(fw, c, nodes, transport) && r.code.CorosyncBadNodeAddressesCount? ==>
      1 <= r.code.nodeIndex <= |nodes| && OutOfRange(c, nodes[r.code.nodeIndex - 1], transport) &&
      r == BadCountReport(c, nodes[r.code.nodeIndex - 1], r.code.nodeIndex, transport)
  {
    if |nodes| > 0 {
      var init := nodes[..|nodes| - 1];
      var last := nodes[|nodes| - 1];
      var head := EachNode(fw, c, init, transport);
      var tail := NodeReports(fw, c, last, |nodes|, transport);
      EachNodeBadCounts(fw, c, init, transport);
      NodeReportsShape(fw, c, last, |nodes|, transport);
      assert EachNode(fw, c, nodes, transport) == head + tail;
      forall r: Report | r in head + tail && r.code.CorosyncBadNodeAddressesCount?
        ensures 1 <= r.code.nodeIndex <= |nodes| && OutOfRange(c, nodes[r.code.nodeIndex - 1], transport) &&
          r == BadCountReport(c, nodes[r.code.nodeIndex - 1], r.code.nodeIndex, transport)
      {
        if r in head {
          assert init[r.code.nodeIndex - 1] == nodes[r.code.nodeIndex - 1];
        } else {
          assert BadCountReport(c, last, |nodes|, transport).code.nodeIndex == |nodes|;
        }
      }
    }
  }

  /** Every node whose number of addresses is outside the bounds gets its address-count report. */
  lemma {:induction false} EachNodeBadCountsReported(fw: Framework, c: Constants, nodes: seq<Node>, transport: string)
    ensures forall j :: 0 <= j < |nodes| && OutOfRange(c, nodes[j], transport) ==>
      BadCountReport(c, nodes[j], j + 1, transport) in EachNode(fw, c, nodes, transport)
  {
    if |nodes| > 0 {
      var init := nodes[..|nodes| - 1];
      var last := nodes[|nodes| - 1];
      var head := EachNode(fw, c, init, transport);
      var tail := NodeReports(fw, c, last, |nodes|, transport);
      EachNodeBadCountsReported(fw, c, init, transport);
      NodeReportsShape(fw, c, last, |nodes|, transport);
      assert EachNode(fw, c, nodes, transport) == head + tail;
      forall j | 0 <= j < |nodes| && OutOfRange(c, nodes[j], transport)
        ensures BadCountReport(c, nodes[j], j + 1, transport) in head + tail
      {
        if j < |init| {
          assert init[j] == nodes[j];
        }
      }
    }
  }

  /** The per-node checks report nothing about names iff every node has a usable name. */
  lemma {:induction false} EachNodeNames(fw: Framework, c: Constants, nodes: seq<Node>, transport: string)
    ensures AllSatisfy(EachNode(fw, c, nodes, transport), (r: Report) => r.code.CorosyncBadNodeAddressesCount?) <==>
      forall j :: 0 <= j < |nodes| ==> NameUsable(nodes[j])
  {
    if |nodes| > 0 {
      var init := nodes[..|nodes| - 1];
      var last := nodes[|nodes| - 1];
      var p := (r: Report) => r.code.CorosyncBadNodeAddressesCount?;
      var head := EachNode(fw, c, init, transport);
      var tail := NodeReports(fw, c, last, |nodes|, transport);
      EachNodeNames(fw, c, init, transport);
      assert AllSatisfy(tail, p) <==> NameUsable(last) by {
        NodeReportsShape(fw, c, last, |nodes|, transport);
      }
      assert EachNode(fw, c, nodes, transport) == head + tail;
      AllSatisfyAppend(head, tail, p);
      assert (forall j :: 0 <= j < |nodes| ==> NameUsable(nodes[j])) <==>
        (forall j :: 0 <= j < |init| ==> NameUsable(init[j])) && NameUsable(last) by {
        assert forall i :: 0 <= i < |init| ==> init[i] == nodes[i];
      }
    }
  }

  /*
   * Addresses and their types.
   */

  /** Every address of every node, in node order. */
  function AllAddresses(nodes: seq<Node>): seq<string> {
    if |nodes| == 0 then [] else AllAddresses(nodes[..|nodes| - 1]) + nodes[|nodes| - 1].addrs
  }

  lemma {:induction false} AllAddressesMembership(nodes: seq<Node>, a: string)
    ensures a in AllAddresses(nodes) <==> exists j :: 0 <= j < |nodes| && a in nodes[j].addrs
  {
    if |nodes| > 0 {
      var init := nodes[..|nodes| - 1];
      AllAddressesMembership(init, a);
      assert forall j :: 0 <= j < |init| ==> init[j] == nodes[j];
      if exists j :: 0 <= j < |nodes| && a in nodes[j].addrs {
        var j :| 0 <= j < |nodes| && a in nodes[j].addrs;
        if j < |init| {
          assert a in init[j].addrs;
        }
      }
    }
  }

  function Types(fw: Framework, resolves: string -> bool, addrs: seq<string>): seq<AddressType> {
    seq(|addrs|, k requires 0 <= k < |addrs| => Classify(fw, resolves, addrs[k]))
  }

  /** The types of each node's addresses, one row per node. */
  function TypesPerNode(fw: Framework, resolves: string -> bool, nodes: seq<Node>): seq<seq<AddressType>> {
    seq(|nodes|, j requires 0 <= j < |nodes| => Types(fw, resolves, nodes[j].addrs))
  }

  /** The type of each of the given addresses. */
  function TypeMap(fw: Framework, resolves: string -> bool, addrs: seq<string>): map<string, AddressType> {
    map a | a in addrs :: Classify(fw, resolves, a)
  }

  lemma TypeMapAppend(fw: Framework, resolves: string -> bool, addrs: seq<string>, a: string)
    ensures TypeMap(fw, resolves, addrs + [a]) == TypeMap(fw, resolves, addrs)[a := Classify(fw, resolves, a)]
    ensures a in addrs ==> TypeMap(fw, resolves, addrs + [a]) == TypeMap(fw, resolves, addrs)
  {
    var m := TypeMap(fw, resolves, addrs + [a]);
    assert m.Keys == TypeMap(fw, resolves, addrs).Keys + {a};
  }

  lemma TypesPerNodeStep(fw: Framework, resolves: string -> bool, nodes: seq<Node>)
    requires |nodes| > 0
    ensures TypesPerNode(fw, resolves, nodes) ==
      TypesPerNode(fw, resolves, nodes[..|nodes| - 1]) + [Types(fw, resolves, nodes[|nodes| - 1].addrs)]
  {
    var init := nodes[..|nodes| - 1];
    assert forall j :: 0 <= j < |init| ==> TypesPerNode(fw, resolves, nodes)[j] == TypesPerNode(fw, resolves, init)[j];
  }

  function UnresolvableAddresses(fw: Framework, resolves: string -> bool, nodes: seq<Node>): set<string> {
    set a | a in AllAddresses(nodes) && Classify(fw, resolves, a) == Unresolvable
  }

  /** One report listing the addresses that do not resolve: an error unless forced, then a warning. */
  function UnresolvableReports(fw: Framework, resolves: string -> bool, nodes: seq<Node>, force: bool): (reports: seq<Report>)
    ensures reports == [] <==> UnresolvableAddresses(fw, resolves, nodes) == {}
    ensures AllSatisfy(reports, UnforcedOrUnresolvable)
  {
    var unresolvable := UnresolvableAddresses(fw, resolves, nodes);
    if unresolvable != {} then
      [Problem(NodeAddressesUnresolvable(unresolvable), Forceable(ForceNodeAddressesUnresolvable, force))]
    else []
  }

  /*
   * Duplicated names and addresses.
   */

  /** The usable node names, in node order. */
  function UsableNames(nodes: seq<Node>): seq<string> {
    if |nodes| == 0 then []
    else
      var last := nodes[|nodes| - 1];
      UsableNames(nodes[..|nodes| - 1]) + if NameUsable(last) then [last.name.value] else []
  }

  lemma {:induction false} UsableNamesMembership(nodes: seq<Node>, n: string)
    ensures n in UsableNames(nodes) <==> n != "" && Named(nodes, n)
  {
    if |nodes| > 0 {
      UsableNamesMembership(nodes[..|nodes| - 1], n);
      UsableNamesStep(nodes, n);
      NamedStep(nodes, n);
    }
  }

  /** Some node carries the name `n`. */
  predicate Named(nodes: seq<Node>, n: string) {
    exists j :: 0 <= j < |nodes| && nodes[j].name == Some(n)
  }

  /** Two distinct nodes carry the name `n`. */
  predicate NamedTwice(nodes: seq<Node>, n: string) {
    exists j, k :: 0 <= j < k < |nodes| && nodes[j].name == Some(n) && nodes[k].name == Some(n)
  }

  lemma NamedStep(nodes: seq<Node>, n: string)
    requires |nodes| > 0
    ensures Named(nodes, n) <==> Named(nodes[..|nodes| - 1], n) || nodes[|nodes| - 1].name == Some(n)
    ensures NamedTwice(nodes, n) <==>
      NamedTwice(nodes[..|nodes| - 1], n) || (nodes[|nodes| - 1].name == Some(n) && Named(nodes[..|nodes| - 1], n))
  {
    var init := nodes[..|nodes| - 1];
    assert forall j :: 0 <= j < |init| ==> init[j] == nodes[j];
    if Named(nodes, n) {
      var j :| 0 <= j < |nodes| && nodes[j].name == Some(n);
      if j < |init| {
        assert init[j].name == Some(n);
      }
    }
    if NamedTwice(nodes, n) {
      var j, k :| 0 <= j < k < |nodes| && nodes[j].name == Some(n) && nodes[k].name == Some(n);
      if k < |init| {
        assert init[j].name == Some(n) && init[k].name == Some(n);
      } else {
        assert init[j].name == Some(n);
      }
    }
    if nodes[|nodes| - 1].name == Some(n) && Named(init, n) {
      var j :| 0 <= j < |init| && init[j].name == Some(n);
      assert nodes[j].name == Some(n);
    }
  }

  /** The number of usable names equal to `n` grows by one with each node carrying it. */
  lemma UsableNamesStep(nodes: seq<Node>, n: string)
    requires |nodes| > 0
    ensures multiset(UsableNames(nodes))[n] ==
      multiset(UsableNames(nodes[..|nodes| - 1]))[n] + if n != "" && nodes[|nodes| - 1].name == Some(n) then 1 else 0
  {
    var last := nodes[|nodes| - 1];
    var extra := if NameUsable(last) then [last.name.value] else [];
    assert UsableNames(nodes) == UsableNames(nodes[..|nodes| - 1]) + extra;
    assert multiset(UsableNames(nodes)) == multiset(UsableNames(nodes[..|nodes| - 1])) + multiset(extra);
  }

  /** A name is a duplicate iff it is not empty and two distinct nodes carry it. */
  lemma {:induction false} NameDuplicatesMeaning(nodes: seq<Node>, n: string)
    ensures n in Duplicates(UsableNames(nodes)) <==> n != "" && NamedTwice(nodes, n)
  {
    if |nodes| > 0 {
      var init := nodes[..|nodes| - 1];
      NameDuplicatesMeaning(init, n);
      UsableNamesMembership(init, n);
      UsableNamesStep(nodes, n);
      NamedStep(nodes, n);
    }
  }

  function NameDuplicationReports(nodes: seq<Node>): (reports: seq<Report>)
    ensures reports == [] <==> Duplicates(UsableNames(nodes)) == {}
    ensures AllSatisfy(reports, Unforced)
  {
    var duplicates := Duplicates(UsableNames(nodes));
    if duplicates != {} then [Report(CorosyncNodeNameDuplication(duplicates), Error, None)] else []
  }

  function AddressDuplicationReports(nodes: seq<Node>): (reports: seq<Report>)
    ensures reports == [] <==> Duplicates(AllAddresses(nodes)) == {}
    ensures AllSatisfy(reports, Unforced)
  {
    var duplicates := Duplicates(AllAddresses(nodes));
    if duplicates != {} then [Report(CorosyncNodeAddressDuplication(duplicates), Error, None)] else []
  }

  /** Whether node names can identify nodes in reports: every node has a usable name and no two share one. */
  predicate AllNamesUsable(nodes: seq<Node>) {
    (forall j :: 0 <= j < |nodes| ==> NameUsable(nodes[j])) && Duplicates(UsableNames(nodes)) == {}
  }

  /*
   * The same number of addresses on every node.
   */

  /** The number of addresses of each named node; a later node with the same name overrides an earlier one. */
  function AddressCounts(nodes: seq<Node>): map<string, nat> {
    if |nodes| == 0 then map[]
    else
      var last := nodes[|nodes| - 1];
      var init := AddressCounts(nodes[..|nodes| - 1]);
      if last.name.Some? then init[last.name.value := |last.addrs|] else init
  }

  lemma {:induction false} AddressCountsKeys(nodes: seq<Node>, n: string)
    ensures n in AddressCounts(nodes) <==> Named(nodes, n)
  {
    if |nodes| > 0 {
      AddressCountsKeys(nodes[..|nodes| - 1], n);
      NamedStep(nodes, n);
    }
  }

  function AddressCountsOf(nodes: seq<Node>): set<nat> {
    set j | 0 <= j < |nodes| :: |nodes[j].addrs|
  }

  /** Updating a map at a new key adds exactly the new value to its values. */
  lemma UpdateValues(m: map<string, nat>, k: string, v: nat)
    requires k !in m
    ensures m[k := v].Values == m.Values + {v}
  {
    forall x | x in m[k := v].Values ensures x in m.Values + {v} {
      var key :| key in m[k := v] && m[k := v][key] == x;
      if key != k {
        assert key in m && m[key] == x;
      }
    }
    forall x | x in m.Values ensures x in m[k := v].Values {
      var key :| key in m && m[key] == x;
      assert m[k := v][key] == x;
    }
    assert m[k := v][k] == v;
  }

  lemma AddressCountsOfStep(nodes: seq<Node>)
    requires |nodes| > 0
    ensures AddressCountsOf(nodes) == AddressCountsOf(nodes[..|nodes| - 1]) + {|nodes[|nodes| - 1].addrs|}
  {
    var init := nodes[..|nodes| - 1];
    forall v | v in AddressCountsOf(nodes) ensures v in AddressCountsOf(init) + {|nodes[|nodes| - 1].addrs|} {
      var j :| 0 <= j < |nodes| && v == |nodes[j].addrs|;
      if j < |init| {
        assert v == |init[j].addrs|;
      }
    }
    forall v | v in AddressCountsOf(init) ensures v in AddressCountsOf(nodes) {
      var j :| 0 <= j < |init| && v == |init[j].addrs|;
      assert v == |nodes[j].addrs|;
    }
    assert |nodes[|nodes| - 1].addrs| in AddressCountsOf(nodes);
  }

  /** Removing the last node keeps names identifying nodes, and the last name is not among the others. */
  lemma AllNamesUsableStep(nodes: seq<Node>)
    requires |nodes| > 0 && AllNamesUsable(nodes)
    ensures AllNamesUsable(nodes[..|nodes| - 1])
    ensures !Named(nodes[..|nodes| - 1], nodes[|nodes| - 1].name.value)
  {
    var init := nodes[..|nodes| - 1];
    var n := nodes[|nodes| - 1].name.value;
    assert forall j :: 0 <= j < |init| ==> init[j] == nodes[j];
    forall x | x in multiset(UsableNames(init)) ensures multiset(UsableNames(init))[x] <= 1 {
      UsableNamesStep(nodes, x);
      assert x !in Duplicates(UsableNames(nodes));
    }
    if Named(init, n) {
      UsableNamesMembership(init, n);
      UsableNamesStep(nodes, n);
    }
  }

  /** When names identify nodes, the counts recorded are exactly the nodes' address counts. */
  lemma {:induction false} AddressCountsValues(nodes: seq<Node>)
    requires AllNamesUsable(nodes)
    ensures AddressCounts(nodes).Values == AddressCountsOf(nodes)
  {
    if |nodes| > 0 {
      var init := nodes[..|nodes| - 1];
      var last := nodes[|nodes| - 1];
      AllNamesUsableStep(nodes);
      AddressCountsValues(init);
      AddressCountsKeys(init, last.name.value);
      UpdateValues(AddressCounts(init), last.name.value, |last.addrs|);
      AddressCountsOfStep(nodes);
    }
  }

  /** A set has more than one element iff it holds two different ones. */
  lemma MoreThanOne(s: set<nat>)
    ensures |s| > 1 <==> exists x, y :: x in s && y in s && x != y
  {
    if |s| > 1 {
      var x :| x in s;
      assert |s - {x}| == |s| - 1;
      var y :| y in s - {x};
    }
    if exists x, y :: x in s && y in s && x != y {
      var x, y :| x in s && y in s && x != y;
      assert |s - {x}| == |s| - 1;
      assert y in s - {x};
    }
  }

  /** The condition of the count-mismatch report: identifiable nodes, not udp, differing address counts. */
  predicate CountMismatch(c: Constants, nodes: seq<Node>, transport: string) {
    AllNamesUsable(nodes) && transport !in c.transportsUdp && |AddressCounts(nodes).Values| > 1
  }

  /** The count-mismatch report, listing each node's number of addresses, when its condition holds. */
  function CountMismatchReports(c: Constants, nodes: seq<Node>, transport: string): (reports: seq<Report>)
    ensures reports == [] <==> !CountMismatch(c, nodes, transport)
    ensures AllSatisfy(reports, Unforced)
  {
    if CountMismatch(c, nodes, transport) then
      [Report(CorosyncNodeAddressCountMismatch(AddressCounts(nodes)), Error, None)]
    else []
  }

  /** Two nodes differ in their number of addresses. */
  predicate DifferentCounts(nodes: seq<Node>) {
    exists j, k :: 0 <= j < |nodes| && 0 <= k < |nodes| && |nodes[j].addrs| != |nodes[k].addrs|
  }

  /** The mismatch condition holds iff names identify nodes, the transport is not udp and two nodes differ in their number of addresses. */
  lemma CountMismatchMeaning(c: Constants, nodes: seq<Node>, transport: string)
    ensures CountMismatch(c, nodes, transport) <==>
      AllNamesUsable(nodes) && transport !in c.transportsUdp && DifferentCounts(nodes)
  {
    if AllNamesUsable(nodes) {
      AddressCountsValues(nodes);
      MoreThanOne(AddressCountsOf(nodes));
      if DifferentCounts(nodes) {
        var j, k :| 0 <= j < |nodes| && 0 <= k < |nodes| && |nodes[j].addrs| != |nodes[k].addrs|;
        assert |nodes[j].addrs| in AddressCountsOf(nodes) && |nodes[k].addrs| in AddressCountsOf(nodes);
      }
    }
  }

  /*
   * IPv4 and IPv6 mixed in one link.
   */

  /** The length of the longest row: the number of columns `zip_longest` produces. */
  function MaxLength(rows: seq<seq<AddressType>>): nat {
    if |rows| == 0 then 0
    else
      var init := MaxLength(rows[..|rows| - 1]);
      if |rows[|rows| - 1]| > init then |rows[|rows| - 1]| else init
  }

  /** Every row fits in the columns, and a longest row fills them. */
  lemma {:induction false} MaxLengthBounds(rows: seq<seq<AddressType>>)
    ensures forall j :: 0 <= j < |rows| ==> |rows[j]| <= MaxLength(rows)
    ensures MaxLength(rows) > 0 ==> exists j :: 0 <= j < |rows| && |rows[j]| == MaxLength(rows)
  {
    if |rows| > 0 {
      MaxLengthBounds(rows[..|rows| - 1]);
      assert forall j :: 0 <= j < |rows| - 1 ==> rows[j] == rows[..|rows| - 1][j];
    }
  }

  /** Some row has an address of type `t` at position `link`. */
  predicate HasType(rows: seq<seq<AddressType>>, link: nat, t: AddressType) {
    exists j :: 0 <= j < |rows| && link < |rows[j]| && rows[j][link] == t
  }

  predicate Mixed(rows: seq<seq<AddressType>>, link: nat) {
    HasType(rows, link, IPv4) && HasType(rows, link, IPv6)
  }

  /** The links, among the first `n`, whose column holds both an IPv4 and an IPv6 address, in increasing order. */
  function MismatchLinks(rows: seq<seq<AddressType>>, n: nat): seq<nat> {
    if n == 0 then [] else MismatchLinks(rows, n - 1) + if Mixed(rows, n - 1) then [n - 1] else []
  }

  /** A link is listed iff it is among the first `n` and its column is mixed. */
  lemma {:induction false} MismatchLinksMeaning(rows: seq<seq<AddressType>>, n: nat)
    ensures forall link: nat :: link in MismatchLinks(rows, n) <==> link < n && Mixed(rows, link)
  {
    if n > 0 {
      MismatchLinksMeaning(rows, n - 1);
    }
  }

  /** The listed links are in strictly increasing order. */
  lemma {:induction false} MismatchLinksIncreasing(rows: seq<seq<AddressType>>, n: nat)
    ensures forall i, k :: 0 <= i < k < |MismatchLinks(rows, n)| ==> MismatchLinks(rows, n)[i] < MismatchLinks(rows, n)[k]
  {
    if n > 0 {
      var prev := MismatchLinks(rows, n - 1);
      MismatchLinksIncreasing(rows, n - 1);
      assert forall i :: 0 <= i < |prev| ==> prev[i] < n - 1 by {
        MismatchLinksMeaning(rows, n - 1);
        assert forall i :: 0 <= i < |prev| ==> prev[i] in prev;
      }
    }
  }

  function IpMismatchLinks(fw: Framework, resolves: string -> bool, nodes: seq<Node>): seq<nat> {
    var rows := TypesPerNode(fw, resolves, nodes);
    MismatchLinks(rows, MaxLength(rows))
  }

  /** On link `link` (0-based), one node's address is IPv4 and another's is IPv6. */
  predicate MixedAt(fw: Framework, resolves: string -> bool, nodes: seq<Node>, link: nat) {
    exists j, k :: 0 <= j < |nodes| && 0 <= k < |nodes| &&
      link < |nodes[j].addrs| && link < |nodes[k].addrs| &&
      Classify(fw, resolves, nodes[j].addrs[link]) == IPv4 && Classify(fw, resolves, nodes[k].addrs[link]) == IPv6
  }

  lemma MixedRows(fw: Framework, resolves: string -> bool, nodes: seq<Node>, link: nat)
    ensures Mixed(TypesPerNode(fw, resolves, nodes), link) ==> MixedAt(fw, resolves, nodes, link)
  {
    var rows := TypesPerNode(fw, resolves, nodes);
    if Mixed(rows, link) {
      var j :| 0 <= j < |rows| && link < |rows[j]| && rows[j][link] == IPv4;
      var k :| 0 <= k < |rows| && link < |rows[k]| && rows[k][link] == IPv6;
      assert link < |nodes[j].addrs| && Classify(fw, resolves, nodes[j].addrs[link]) == IPv4;
      assert link < |nodes[k].addrs| && Classify(fw, resolves, nodes[k].addrs[link]) == IPv6;
    }
  }

  lemma MixedNodes(fw: Framework, resolves: string -> bool, nodes: seq<Node>, link: nat)
    ensures MixedAt(fw, resolves, nodes, link) ==> Mixed(TypesPerNode(fw, resolves, nodes), link)
  {
    var rows := TypesPerNode(fw, resolves, nodes);
    if MixedAt(fw, resolves, nodes, link) {
      var j, k :| 0 <= j < |nodes| && 0 <= k < |nodes| &&
        link < |nodes[j].addrs| && link < |nodes[k].addrs| &&
        Classify(fw, resolves, nodes[j].addrs[link]) == IPv4 && Classify(fw, resolves, nodes[k].addrs[link]) == IPv6;
      assert rows[j][link] == IPv4 && rows[k][link] == IPv6;
    }
  }

  /**
   * A link (0-based) is reported iff one node's address on it is IPv4 and
   * another's is IPv6; nodes with fewer addresses, and names, never count.
   */
  lemma IpMismatchMeaning(fw: Framework, resolves: string -> bool, nodes: seq<Node>, link: nat)
    ensures link in IpMismatchLinks(fw, resolves, nodes) <==> MixedAt(fw, resolves, nodes, link)
  {
    var rows := TypesPerNode(fw, resolves, nodes);
    assert link in IpMismatchLinks(fw, resolves, nodes) <==> Mixed(rows, link) by {
      MismatchLinksMeaning(rows, MaxLength(rows));
      MaxLengthBounds(rows);
    }
    MixedRows(fw, resolves, nodes, link);
    MixedNodes(fw, resolves, nodes, link);
  }

  /** The mismatched links are listed in increasing order. */
  lemma IpMismatchIncreasing(fw: Framework, resolves: string -> bool, nodes: seq<Node>)
    ensures forall i, k :: 0 <= i < k < |IpMismatchLinks(fw, resolves, nodes)| ==>
      IpMismatchLinks(fw, resolves, nodes)[i] < IpMismatchLinks(fw, resolves, nodes)[k]
  {
    var rows := TypesPerNode(fw, resolves, nodes);
    MismatchLinksIncreasing(rows, MaxLength(rows));
  }

  function IpMismatchReports(fw: Framework, resolves: string -> bool, nodes: seq<Node>): (reports: seq<Report>)
    ensures reports == [] <==> IpMismatchLinks(fw, resolves, nodes) == []
    ensures AllSatisfy(reports, Unforced)
  {
    var links := IpMismatchLinks(fw, resolves, nodes);
    if |links| > 0 then [Report(CorosyncIpVersionMismatchInLinks(links), Error, None)] else []
  }

  /*
   * The whole validation.
   */

  /** The node-list-wide checks, as intended: the count-mismatch report is among them. */
  function ListWide(fw: Framework, c: Constants, resolves: string -> bool, nodes: seq<Node>, transport: string, force: bool): seq<Report> {
    UnresolvableReports(fw, resolves, nodes, force) + NameDuplicationReports(nodes) + AddressDuplicationReports(nodes) +
    CountMismatchReports(c, nodes, transport) + IpMismatchReports(fw, resolves, nodes)
  }

  /** The node-list-wide checks as written in config_validators.py: the count-mismatch report is built and dropped. */
  function ListWideAsWritten(fw: Framework, resolves: string -> bool, nodes: seq<Node>, force: bool): seq<Report> {
    UnresolvableReports(fw, resolves, nodes, force) + NameDuplicationReports(nodes) + AddressDuplicationReports(nodes) +
    IpMismatchReports(fw, resolves, nodes)
  }

  /** The reports of validating a new cluster's name, transport and nodes. */
  function CreateReports(fw: Framework, c: Constants, resolves: string -> bool, clusterName: string, nodes: seq<Node>, transport: string, force: bool): seq<Report> {
    ClusterChecks(fw, c, clusterName, transport) + EachNode(fw, c, nodes, transport) + ListWide(fw, c, resolves, nodes, transport, force)
  }

  function CreateReportsAsWritten(fw: Framework, c: Constants, resolves: string -> bool, clusterName: string, nodes: seq<Node>, transport: string, force: bool): seq<Report> {
    ClusterChecks(fw, c, clusterName, transport) + EachNode(fw, c, nodes, transport) + ListWideAsWritten(fw, resolves, nodes, force)
  }

  /** Whether a new cluster passes validation: what `CreateReports` checks, stated on the input. */
  predicate CreateValid(fw: Framework, c: Constants, resolves: string -> bool, clusterName: string, nodes: seq<Node>, transport: string) {
    clusterName != "" && transport in c.transportsAll &&
    (forall j :: 0 <= j < |nodes| ==> NameUsable(nodes[j]) && !OutOfRange(c, nodes[j], transport)) &&
    UnresolvableAddresses(fw, resolves, nodes) == {} &&
    Duplicates(UsableNames(nodes)) == {} &&
    Duplicates(AllAddresses(nodes)) == {} &&
    !CountMismatch(c, nodes, transport) &&
    IpMismatchLinks(fw, resolves, nodes) == []
  }

  /** The per-node checks report nothing iff every node has a usable name and an allowed number of addresses. */
  lemma EachNodeEmpty(fw: Framework, c: Constants, nodes: seq<Node>, transport: string)
    ensures EachNode(fw, c, nodes, transport) == [] <==>
      forall j :: 0 <= j < |nodes| ==> NameUsable(nodes[j]) && !OutOfRange(c, nodes[j], transport)
  {
    var each := EachNode(fw, c, nodes, transport);
    EachNodeNames(fw, c, nodes, transport);
    if forall j :: 0 <= j < |nodes| ==> NameUsable(nodes[j]) && !OutOfRange(c, nodes[j], transport) {
      if each != [] {
        var r := each[0];
        assert r.code.CorosyncBadNodeAddressesCount?;
        assert r in each;
        EachNodeBadCounts(fw, c, nodes, transport);
      }
    } else {
      EachNodeBadCountsReported(fw, c, nodes, transport);
    }
  }

  /** A new cluster is reported on iff it is not valid. */
  lemma CreateAccepts(fw: Framework, c: Constants, resolves: string -> bool, clusterName: string, nodes: seq<Node>, transport: string, force: bool)
    ensures CreateReports(fw, c, resolves, clusterName, nodes, transport, force) == [] <==>
      CreateValid(fw, c, resolves, clusterName, nodes, transport)
  {
    ClusterChecksAccept(fw, c, clusterName, transport);
    EachNodeEmpty(fw, c, nodes, transport);
  }

  /** Per-node reports are none of the kinds the list-wide checks report. */
  ghost predicate ListWideKind(p: Code -> bool) {
    forall x: Code :: p(x) ==>
      !(x.RequiredOptionIsMissing? || x.InvalidOptionValue? || x.PrerequisiteOptionIsMissing? || x.InvalidOptions? ||
        x.CorosyncBadNodeAddressesCount?)
  }

  /** The cluster and per-node checks contribute nothing to the count of a list-wide kind. */
  lemma CountListWide(fw: Framework, c: Constants, clusterName: string, nodes: seq<Node>, transport: string, wide: seq<Report>, p: Code -> bool)
    requires ListWideKind(p)
    ensures Count(ClusterChecks(fw, c, clusterName, transport) + EachNode(fw, c, nodes, transport) + wide, p) == Count(wide, p)
  {
    var front := ClusterChecks(fw, c, clusterName, transport) + EachNode(fw, c, nodes, transport);
    ClusterChecksAccept(fw, c, clusterName, transport);
    EachNodeKinds(fw, c, nodes, transport);
    AllSatisfyWeaken(ClusterChecks(fw, c, clusterName, transport), UnforcedOptionReport, NodeCheckReport);
    AllSatisfyAppend(ClusterChecks(fw, c, clusterName, transport), EachNode(fw, c, nodes, transport), NodeCheckReport);
    CountZero(front, p);
    CountAppend(front, wide, p);
  }

  /** Counting over five consecutive parts. */
  lemma CountFive(u: seq<Report>, n: seq<Report>, a: seq<Report>, m: seq<Report>, i: seq<Report>, p: Code -> bool)
    ensures Count(u + n + a + m + i, p) == Count(u, p) + Count(n, p) + Count(a, p) + Count(m, p) + Count(i, p)
  {
    CountAppend(u, n, p);
    CountAppend(u + n, a, p);
    CountAppend(u + n + a, m, p);
    CountAppend(u + n + a + m, i, p);
  }

  /** Membership in five consecutive parts. */
  lemma MemberFive(u: seq<Report>, n: seq<Report>, a: seq<Report>, m: seq<Report>, i: seq<Report>, x: Report)
    ensures x in u + n + a + m + i <==> x in u || x in n || x in a || x in m || x in i
  {
  }

  /** Each list-wide part holds at most one report, of its own kind. */
  lemma AllSatisfyFive(u: seq<Report>, n: seq<Report>, a: seq<Report>, m: seq<Report>, i: seq<Report>, p: Report -> bool)
    requires AllSatisfy(u, p) && AllSatisfy(n, p) && AllSatisfy(a, p) && AllSatisfy(m, p) && AllSatisfy(i, p)
    ensures AllSatisfy(u + n + a + m + i, p)
  {
    AllSatisfyAppend(u, n, p);
    AllSatisfyAppend(u + n, a, p);
    AllSatisfyAppend(u + n + a, m, p);
    AllSatisfyAppend(u + n + a + m, i, p);
  }

  lemma ListWideParts(fw: Framework, c: Constants, resolves: string -> bool, nodes: seq<Node>, transport: string, force: bool, p: Code -> bool)
    ensures Count(UnresolvableReports(fw, resolves, nodes, force), p) ==
      if UnresolvableAddresses(fw, resolves, nodes) != {} && p(NodeAddressesUnresolvable(UnresolvableAddresses(fw, resolves, nodes))) then 1 else 0
    ensures Count(NameDuplicationReports(nodes), p) ==
      if Duplicates(UsableNames(nodes)) != {} && p(CorosyncNodeNameDuplication(Duplicates(UsableNames(nodes)))) then 1 else 0
    ensures Count(AddressDuplicationReports(nodes), p) ==
      if Duplicates(AllAddresses(nodes)) != {} && p(CorosyncNodeAddressDuplication(Duplicates(AllAddresses(nodes)))) then 1 else 0
    ensures Count(CountMismatchReports(c, nodes, transport), p) ==
      if CountMismatch(c, nodes, transport) && p(CorosyncNodeAddressCountMismatch(AddressCounts(nodes))) then 1 else 0
    ensures Count(IpMismatchReports(fw, resolves, nodes), p) ==
      if IpMismatchLinks(fw, resolves, nodes) != [] && p(CorosyncIpVersionMismatchInLinks(IpMismatchLinks(fw, resolves, nodes))) then 1 else 0
  {
    var unresolvable := UnresolvableAddresses(fw, resolves, nodes);
    CountOptional(unresolvable != {}, Problem(NodeAddressesUnresolvable(unresolvable), Forceable(ForceNodeAddressesUnresolvable, force)), p);
    var names := Duplicates(UsableNames(nodes));
    CountOptional(names != {}, Report(CorosyncNodeNameDuplication(names), Error, None), p);
    var addrs := Duplicates(AllAddresses(nodes));
    CountOptional(addrs != {}, Report(CorosyncNodeAddressDuplication(addrs), Error, None), p);
    CountOptional(CountMismatch(c, nodes, transport), Report(CorosyncNodeAddressCountMismatch(AddressCounts(nodes)), Error, None), p);
    var links := IpMismatchLinks(fw, resolves, nodes);
    CountOptional(|links| > 0, Report(CorosyncIpVersionMismatchInLinks(links), Error, None), p);
  }

  /** Counting over the list-wide reports, part by part. */
  lemma ListWideCount(fw: Framework, c: Constants, resolves: string -> bool, nodes: seq<Node>, transport: string, force: bool, p: Code -> bool)
    ensures Count(ListWide(fw, c, resolves, nodes, transport, force), p) ==
      Count(UnresolvableReports(fw, resolves, nodes, force), p) + Count(NameDuplicationReports(nodes), p) +
      Count(AddressDuplicationReports(nodes), p) + Count(CountMismatchReports(c, nodes, transport), p) +
      Count(IpMismatchReports(fw, resolves, nodes), p)
  {
    CountFive(UnresolvableReports(fw, resolves, nodes, force), NameDuplicationReports(nodes),
              AddressDuplicationReports(nodes), CountMismatchReports(c, nodes, transport), IpMismatchReports(fw, resolves, nodes), p);
  }

  /** The whole validation holds as many reports of a list-wide kind as the list-wide checks do. */
  lemma CreateCount(fw: Framework, c: Constants, resolves: string -> bool, clusterName: string, nodes: seq<Node>, transport: string, force: bool, p: Code -> bool)
    requires ListWideKind(p)
    ensures Count(CreateReports(fw, c, resolves, clusterName, nodes, transport, force), p) ==
      Count(ListWide(fw, c, resolves, nodes, transport, force), p)
  {
    CountListWide(fw, c, clusterName, nodes, transport, ListWide(fw, c, resolves, nodes, transport, force), p);
  }

  /** A report the per-node checks cannot yield is in the whole validation iff it is among the list-wide reports. */
  lemma CreateMember(fw: Framework, c: Constants, resolves: string -> bool, clusterName: string, nodes: seq<Node>, transport: string, force: bool, x: Report)
    requires !NodeCheckReport(x)
    ensures x in CreateReports(fw, c, resolves, clusterName, nodes, transport, force) <==> x in ListWide(fw, c, resolves, nodes, transport, force)
  {
    var front := ClusterChecks(fw, c, clusterName, transport) + EachNode(fw, c, nodes, transport);
    ClusterChecksAccept(fw, c, clusterName, transport);
    EachNodeKinds(fw, c, nodes, transport);
    AllSatisfyWeaken(ClusterChecks(fw, c, clusterName, transport), UnforcedOptionReport, NodeCheckReport);
    AllSatisfyAppend(ClusterChecks(fw, c, clusterName, transport), EachNode(fw, c, nodes, transport), NodeCheckReport);
    assert x !in front;
  }

  /** Membership over the list-wide reports, part by part. */
  lemma ListWideMember(fw: Framework, c: Constants, resolves: string -> bool, nodes: seq<Node>, transport: string, force: bool, x: Report)
    ensures x in ListWide(fw, c, resolves, nodes, transport, force) <==>
      x in UnresolvableReports(fw, resolves, nodes, force) || x in NameDuplicationReports(nodes) ||
      x in AddressDuplicationReports(nodes) || x in CountMismatchReports(c, nodes, transport) ||
      x in IpMismatchReports(fw, resolves, nodes)
  {
    MemberFive(UnresolvableReports(fw, resolves, nodes, force), NameDuplicationReports(nodes),
               AddressDuplicationReports(nodes), CountMismatchReports(c, nodes, transport), IpMismatchReports(fw, resolves, nodes), x);
  }

  /**
   * Unresolvable addresses are reported once, all in one report: an error
   * carrying its force token, or a warning when forced.
   */
  lemma ListWideUnresolvableCount(fw: Framework, c: Constants, resolves: string -> bool, nodes: seq<Node>, transport: string, force: bool)
    ensures Count(ListWide(fw, c, resolves, nodes, transport, force), (x: Code) => x.NodeAddressesUnresolvable?) ==
      if UnresolvableAddresses(fw, resolves, nodes) != {} then 1 else 0
  {
    var p := (x: Code) => x.NodeAddressesUnresolvable?;
    ListWideCount(fw, c, resolves, nodes, transport, force, p);
    ListWideParts(fw, c, resolves, nodes, transport, force, p);
  }

  /** The report itself: present exactly when its condition holds. */
  lemma ListWideUnresolvableReported(fw: Framework, c: Constants, resolves: string -> bool, nodes: seq<Node>, transport: string, force: bool)
    ensures Report(NodeAddressesUnresolvable(UnresolvableAddresses(fw, resolves, nodes)),
                   if force then Warning else Error,
                   if force then None else Some(ForceNodeAddressesUnresolvable))
            in ListWide(fw, c, resolves, nodes, transport, force) <==>
      UnresolvableAddresses(fw, resolves, nodes) != {}
  {
    var x := Report(NodeAddressesUnresolvable(UnresolvableAddresses(fw, resolves, nodes)),
                   if force then Warning else Error,
                   if force then None else Some(ForceNodeAddressesUnresolvable));
    ListWideMember(fw, c, resolves, nodes, transport, force, x);
    assert x in UnresolvableReports(fw, resolves, nodes, force) <==> UnresolvableAddresses(fw, resolves, nodes) != {} by {}
    assert x !in NameDuplicationReports(nodes) by {}
    assert x !in AddressDuplicationReports(nodes) by {}
    assert x !in CountMismatchReports(c, nodes, transport) by {}
    assert x !in IpMismatchReports(fw, resolves, nodes) by {}
  }

  /** Names carried by two nodes are reported once, all in one unforceable report. */
  lemma ListWideNameDuplicationCount(fw: Framework, c: Constants, resolves: string -> bool, nodes: seq<Node>, transport: string, force: bool)
    ensures Count(ListWide(fw, c, resolves, nodes, transport, force), (x: Code) => x.CorosyncNodeNameDuplication?) ==
      if Duplicates(UsableNames(nodes)) != {} then 1 else 0
  {
    var p := (x: Code) => x.CorosyncNodeNameDuplication?;
    ListWideCount(fw, c, resolves, nodes, transport, force, p);
    ListWideParts(fw, c, resolves, nodes, transport, force, p);
  }

  /** The report itself: present exactly when its condition holds. */
  lemma ListWideNameDuplicationReported(fw: Framework, c: Constants, resolves: string -> bool, nodes: seq<Node>, transport: string, force: bool)
    ensures Report(CorosyncNodeNameDuplication(Duplicates(UsableNames(nodes))), Error, None)
            in ListWide(fw, c, resolves, nodes, transport, force) <==>
      Duplicates(UsableNames(nodes)) != {}
  {
    var x := Report(CorosyncNodeNameDuplication(Duplicates(UsableNames(nodes))), Error, None);
    ListWideMember(fw, c, resolves, nodes, transport, force, x);
    assert x !in UnresolvableReports(fw, resolves, nodes, force) by {}
    assert x in NameDuplicationReports(nodes) <==> Duplicates(UsableNames(nodes)) != {} by {}
    assert x !in AddressDuplicationReports(nodes) by {}
    assert x !in CountMismatchReports(c, nodes, transport) by {}
    assert x !in IpMismatchReports(fw, resolves, nodes) by {}
  }

  /** Addresses used more than once in the whole node list are reported once, all in one unforceable report. */
  lemma ListWideAddressDuplicationCount(fw: Framework, c: Constants, resolves: string -> bool, nodes: seq<Node>, transport: string, force: bool)
    ensures Count(ListWide(fw, c, resolves, nodes, transport, force), (x: Code) => x.CorosyncNodeAddressDuplication?) ==
      if Duplicates(AllAddresses(nodes)) != {} then 1 else 0
  {
    var p := (x: Code) => x.CorosyncNodeAddressDuplication?;
    ListWideCount(fw, c, resolves, nodes, transport, force, p);
    ListWideParts(fw, c, resolves, nodes, transport, force, p);
  }

  /** The report itself: present exactly when its condition holds. */
  lemma ListWideAddressDuplicationReported(fw: Framework, c: Constants, resolves: string -> bool, nodes: seq<Node>, transport: string, force: bool)
    ensures Report(CorosyncNodeAddressDuplication(Duplicates(AllAddresses(nodes))), Error, None)
            in ListWide(fw, c, resolves, nodes, transport, force) <==>
      Duplicates(AllAddresses(nodes)) != {}
  {
    var x := Report(CorosyncNodeAddressDuplication(Duplicates(AllAddresses(nodes))), Error, None);
    ListWideMember(fw, c, resolves, nodes, transport, force, x);
    assert x !in UnresolvableReports(fw, resolves, nodes, force) by {}
    assert x !in NameDuplicationReports(nodes) by {}
    assert x in AddressDuplicationReports(nodes) <==> Duplicates(AllAddresses(nodes)) != {} by {}
    assert x !in CountMismatchReports(c, nodes, transport) by {}
    assert x !in IpMismatchReports(fw, resolves, nodes) by {}
  }

  /** Links mixing IPv4 and IPv6 addresses are reported once, all in one unforceable report. */
  lemma ListWideIpMismatchCount(fw: Framework, c: Constants, resolves: string -> bool, nodes: seq<Node>, transport: string, force: bool)
    ensures Count(ListWide(fw, c, resolves, nodes, transport, force), (x: Code) => x.CorosyncIpVersionMismatchInLinks?) ==
      if IpMismatchLinks(fw, resolves, nodes) != [] then 1 else 0
  {
    var p := (x: Code) => x.CorosyncIpVersionMismatchInLinks?;
    ListWideCount(fw, c, resolves, nodes, transport, force, p);
    ListWideParts(fw, c, resolves, nodes, transport, force, p);
  }

  /** The report itself: present exactly when its condition holds. */
  lemma ListWideIpMismatchReported(fw: Framework, c: Constants, resolves: string -> bool, nodes: seq<Node>, transport: string, force: bool)
    ensures Report(CorosyncIpVersionMismatchInLinks(IpMismatchLinks(fw, resolves, nodes)), Error, None)
            in ListWide(fw, c, resolves, nodes, transport, force) <==>
      IpMismatchLinks(fw, resolves, nodes) != []
  {
    var x := Report(CorosyncIpVersionMismatchInLinks(IpMismatchLinks(fw, resolves, nodes)), Error, None);
    ListWideMember(fw, c, resolves, nodes, transport, force, x);
    assert x !in UnresolvableReports(fw, resolves, nodes, force) by {}
    assert x !in NameDuplicationReports(nodes) by {}
    assert x !in AddressDuplicationReports(nodes) by {}
    assert x !in CountMismatchReports(c, nodes, transport) by {}
    assert x in IpMismatchReports(fw, resolves, nodes) <==> IpMismatchLinks(fw, resolves, nodes) != [] by {}
  }

  /**
   * As intended, differing numbers of addresses are reported once, listing
   * each node's count, iff names identify nodes, the transport is not udp and
   * two nodes differ.
   */
  lemma ListWideCountMismatchCount(fw: Framework, c: Constants, resolves: string -> bool, nodes: seq<Node>, transport: string, force: bool)
    ensures Count(ListWide(fw, c, resolves, nodes, transport, force), (x: Code) => x.CorosyncNodeAddressCountMismatch?) ==
      if AllNamesUsable(nodes) && transport !in c.transportsUdp && DifferentCounts(nodes) then 1 else 0
  {
    var p := (x: Code) => x.CorosyncNodeAddressCountMismatch?;
    ListWideCount(fw, c, resolves, nodes, transport, force, p);
    ListWideParts(fw, c, resolves, nodes, transport, force, p);
    CountMismatchMeaning(c, nodes, transport);
  }

  /** The report itself: present exactly when its condition holds. */
  lemma ListWideCountMismatchReported(fw: Framework, c: Constants, resolves: string -> bool, nodes: seq<Node>, transport: string, force: bool)
    ensures Report(CorosyncNodeAddressCountMismatch(AddressCounts(nodes)), Error, None)
            in ListWide(fw, c, resolves, nodes, transport, force) <==>
      CountMismatch(c, nodes, transport)
  {
    var x := Report(CorosyncNodeAddressCountMismatch(AddressCounts(nodes)), Error, None);
    ListWideMember(fw, c, resolves, nodes, transport, force, x);
    assert x !in UnresolvableReports(fw, resolves, nodes, force) by {}
    assert x !in NameDuplicationReports(nodes) by {}
    assert x !in AddressDuplicationReports(nodes) by {}
    assert x in CountMismatchReports(c, nodes, transport) <==> CountMismatch(c, nodes, transport) by {}
    assert x !in IpMismatchReports(fw, resolves, nodes) by {}
  }

  /** None of the list-wide checks as written is about the address counts. */
  lemma AsWrittenListWideCount(fw: Framework, resolves: string -> bool, nodes: seq<Node>, force: bool)
    ensures Count(ListWideAsWritten(fw, resolves, nodes, force), (x: Code) => x.CorosyncNodeAddressCountMismatch?) == 0
  {
    var p := (x: Code) => x.CorosyncNodeAddressCountMismatch?;
    var u := UnresolvableReports(fw, resolves, nodes, force);
    var n := NameDuplicationReports(nodes);
    var a := AddressDuplicationReports(nodes);
    var i := IpMismatchReports(fw, resolves, nodes);
    assert Count(u, p) == 0 by {
      var unresolvable := UnresolvableAddresses(fw, resolves, nodes);
      CountOptional(unresolvable != {}, Problem(NodeAddressesUnresolvable(unresolvable), Forceable(ForceNodeAddressesUnresolvable, force)), p);
    }
    assert Count(n, p) == 0 by {
      var names := Duplicates(UsableNames(nodes));
      CountOptional(names != {}, Report(CorosyncNodeNameDuplication(names), Error, None), p);
    }
    assert Count(a, p) == 0 by {
      var addrs := Duplicates(AllAddresses(nodes));
      CountOptional(addrs != {}, Report(CorosyncNodeAddressDuplication(addrs), Error, None), p);
    }
    assert Count(i, p) == 0 by {
      var links := IpMismatchLinks(fw, resolves, nodes);
      CountOptional(|links| > 0, Report(CorosyncIpVersionMismatchInLinks(links), Error, None), p);
    }
    CountAppend(u, n, p);
    CountAppend(u + n, a, p);
    CountAppend(u + n + a, i, p);
  }

  /** As written, no input ever yields the count-mismatch report. */
  lemma AsWrittenDropsCountMismatch(fw: Framework, c: Constants, resolves: string -> bool, clusterName: string, nodes: seq<Node>, transport: string, force: bool)
    ensures Count(CreateReportsAsWritten(fw, c, resolves, clusterName, nodes, transport, force), (x: Code) => x.CorosyncNodeAddressCountMismatch?) == 0
  {
    var p := (x: Code) => x.CorosyncNodeAddressCountMismatch?;
    var wide := ListWideAsWritten(fw, resolves, nodes, force);
    assert Count(CreateReportsAsWritten(fw, c, resolves, clusterName, nodes, transport, force), p) == Count(wide, p) by {
      CountListWide(fw, c, clusterName, nodes, transport, wide, p);
    }
    assert Count(wide, p) == 0 by {
      AsWrittenListWideCount(fw, resolves, nodes, force);
    }
  }

  /**
   * The discrepancy on one input: two nodes "a" and "b" with one and two
   * addresses on a transport other than udp; the intended checks report the
   * mismatch, the written ones do not.
   */
  lemma CountMismatchCounterexample(fw: Framework, c: Constants, resolves: string -> bool, clusterName: string, nodes: seq<Node>, transport: string)
    requires nodes == [Node(Some("a"), ["10.0.0.1"]), Node(Some("b"), ["10.0.0.2", "10.0.1.2"])]
    requires transport !in c.transportsUdp
    ensures Count(CreateReports(fw, c, resolves, clusterName, nodes, transport, false), (x: Code) => x.CorosyncNodeAddressCountMismatch?) == 1
    ensures Count(CreateReportsAsWritten(fw, c, resolves, clusterName, nodes, transport, false), (x: Code) => x.CorosyncNodeAddressCountMismatch?) == 0
  {
    var p := (x: Code) => x.CorosyncNodeAddressCountMismatch?;
    assert Count(CreateReports(fw, c, resolves, clusterName, nodes, transport, false), p) == 1 by {
      assert AllNamesUsable(nodes) by {
        forall n ensures n !in Duplicates(UsableNames(nodes)) {
          NameDuplicatesMeaning(nodes, n);
        }
      }
      assert DifferentCounts(nodes) by {
        assert |nodes[0].addrs| != |nodes[1].addrs|;
      }
      assert Count(ListWide(fw, c, resolves, nodes, transport, false), p) == 1 by {
        ListWideCountMismatchCount(fw, c, resolves, nodes, transport, false);
      }
      CreateCount(fw, c, resolves, clusterName, nodes, transport, false, p);
    }
    AsWrittenDropsCountMismatch(fw, c, resolves, clusterName, nodes, transport, false);
  }

  /** A report that cannot be forced, or the unresolvable-address report. */
  predicate UnforcedOrUnresolvable(r: Report) {
    Unforced(r) || r.code.NodeAddressesUnresolvable?
  }

  lemma ListWideForcing(fw: Framework, c: Constants, resolves: string -> bool, nodes: seq<Node>, transport: string, force: bool)
    ensures AllSatisfy(ListWide(fw, c, resolves, nodes, transport, force), UnforcedOrUnresolvable)
  {
    var u := UnresolvableReports(fw, resolves, nodes, force);
    var n := NameDuplicationReports(nodes);
    var a := AddressDuplicationReports(nodes);
    var m := CountMismatchReports(c, nodes, transport);
    var i := IpMismatchReports(fw, resolves, nodes);
    AllSatisfyWeaken(n, Unforced, UnforcedOrUnresolvable);
    AllSatisfyWeaken(a, Unforced, UnforcedOrUnresolvable);
    AllSatisfyWeaken(m, Unforced, UnforcedOrUnresolvable);
    AllSatisfyWeaken(i, Unforced, UnforcedOrUnresolvable);
    AllSatisfyFive(u, n, a, m, i, UnforcedOrUnresolvable);
  }

  /** Only the unresolvable-address report can ever be forced; every other report is an unforceable error. */
  lemma CreateForcing(fw: Framework, c: Constants, resolves: string -> bool, clusterName: string, nodes: seq<Node>, transport: string, force: bool)
    ensures AllSatisfy(CreateReports(fw, c, resolves, clusterName, nodes, transport, force), UnforcedOrUnresolvable)
  {
    var cluster := ClusterChecks(fw, c, clusterName, transport);
    var each := EachNode(fw, c, nodes, transport);
    ClusterChecksAccept(fw, c, clusterName, transport);
    EachNodeKinds(fw, c, nodes, transport);
    AllSatisfyWeaken(cluster, UnforcedOptionReport, UnforcedOrUnresolvable);
    AllSatisfyWeaken(each, NodeCheckReport, UnforcedOrUnresolvable);
    AllSatisfyAppend(cluster, each, UnforcedOrUnresolvable);
    ListWideForcing(fw, c, resolves, nodes, transport, force);
    AllSatisfyAppend(cluster + each, ListWide(fw, c, resolves, nodes, transport, force), UnforcedOrUnresolvable);
  }

  /*
   * The validation as the source performs it, step by step.
   */

  /**
   * Counts and types the addresses of one node, looking each type up in the
   * types found so far and classifying only unseen addresses.
   */
  method ClassifyNodeAddresses(fw: Framework, resolves: string -> bool, addrs: seq<string>,
                               counts0: multiset<string>, known0: map<string, AddressType>, ghost seen: seq<string>)
    returns (counts: multiset<string>, known: map<string, AddressType>, types: seq<AddressType>)
    requires known0 == TypeMap(fw, resolves, seen)
    ensures counts == counts0 + multiset(addrs)
    ensures known == TypeMap(fw, resolves, seen + addrs)
    ensures types == Types(fw, resolves, addrs)
  {
    counts, known, types := counts0, known0, [];
    for k := 0 to |addrs|
      invariant counts == counts0 + multiset(addrs[..k])
      invariant known == TypeMap(fw, resolves, seen + addrs[..k])
      invariant types == Types(fw, resolves, addrs[..k])
    {
      var addr := addrs[k];
      assert addrs[..k + 1] == addrs[..k] + [addr];
      assert seen + addrs[..k + 1] == (seen + addrs[..k]) + [addr];
      TypeMapAppend(fw, resolves, seen + addrs[..k], addr);
      counts := counts + multiset{addr};
      if addr !in known {
        known := known[addr := Classify(fw, resolves, addr)];
      }
      types := types + [known[addr]];
    }
    assert addrs[..|addrs|] == addrs;
  }

  /** The number of addresses of each node, keyed by node name. */
  method NodeAddressCounts(nodes: seq<Node>) returns (counts: map<string, nat>)
    requires forall j :: 0 <= j < |nodes| ==> nodes[j].name.Some?
    ensures counts == AddressCounts(nodes)
  {
    counts := map[];
    for i := 0 to |nodes|
      invariant counts == AddressCounts(nodes[..i])
    {
      assert nodes[..i + 1][..i] == nodes[..i];
      counts := counts[nodes[i].name.value := |nodes[i].addrs|];
    }
    assert nodes[..|nodes|] == nodes;
  }

  /** The links whose column (over all nodes, shorter rows padded) mixes IPv4 and IPv6. */
  method LinksIpMismatch(rows: seq<seq<AddressType>>) returns (links: seq<nat>)
    ensures links == MismatchLinks(rows, MaxLength(rows))
  {
    links := [];
    for link := 0 to MaxLength(rows)
      invariant links == MismatchLinks(rows, link)
    {
      if Mixed(rows, link) {
        links := links + [link];
      }
    }
  }

  /** The checks of one node on its own: its name, then its number of addresses for the transport. */
  method CheckNode(fw: Framework, c: Constants, node: Node, index: nat, transport: string)
    returns (reports: seq<Report>, usable: bool)
    ensures reports == NodeReports(fw, c, node, index, transport)
    ensures usable == NameUsable(node)
  {
    reports := NameChecks(fw, node, index);
    usable := !(node.name.None? || node.name.value == "");
    var addrCount := |node.addrs|;
    if transport in c.transportsKnet + c.transportsUdp {
      var minCount, maxCount;
      if transport in c.transportsKnet {
        minCount, maxCount := c.linksKnetMin, c.linksKnetMax;
      } else {
        minCount, maxCount := c.linksUdpMin, c.linksUdpMax;
      }
      if addrCount < minCount || addrCount > maxCount {
        reports := reports + [Report(CorosyncBadNodeAddressesCount(addrCount, minCount, maxCount, node.name, index), Error, None)];
      }
    }
  }

  lemma PrefixStep(nodes: seq<Node>, i: nat)
    requires i < |nodes|
    ensures nodes[..i + 1] == nodes[..i] + [nodes[i]]
  {
  }

  lemma EachNodeStep(fw: Framework, c: Constants, prefix: seq<Node>, node: Node, transport: string)
    ensures EachNode(fw, c, prefix + [node], transport) == EachNode(fw, c, prefix, transport) + NodeReports(fw, c, node, |prefix| + 1, transport)
  {
    assert (prefix + [node])[..|prefix|] == prefix;
  }

  /** What the per-node pass has gathered about `prefix`, the nodes seen so far. */
  ghost predicate Gathered(fw: Framework, resolves: string -> bool, prefix: seq<Node>,
                           allNamesUsable: bool, namesCount: multiset<string>, addrsCount: multiset<string>,
                           addrsType: map<string, AddressType>, typesPerNode: seq<seq<AddressType>>)
  {
    (allNamesUsable <==> forall j :: 0 <= j < |prefix| ==> NameUsable(prefix[j])) &&
    namesCount == multiset(UsableNames(prefix)) &&
    addrsCount == multiset(AllAddresses(prefix)) &&
    addrsType == TypeMap(fw, resolves, AllAddresses(prefix)) &&
    typesPerNode == TypesPerNode(fw, resolves, prefix)
  }

  /** Gathering one more node keeps what has been gathered up to date. */
  lemma GatheredStep(fw: Framework, resolves: string -> bool, prefix: seq<Node>, node: Node,
                     allNamesUsable: bool, namesCount: multiset<string>, addrsCount: multiset<string>,
                     addrsType: map<string, AddressType>, typesPerNode: seq<seq<AddressType>>,
                     usable: bool, addrsCount': multiset<string>, addrsType': map<string, AddressType>, nodeTypes: seq<AddressType>)
    requires usable == NameUsable(node)
    requires Gathered(fw, resolves, prefix, allNamesUsable, namesCount, addrsCount, addrsType, typesPerNode)
    requires addrsCount' == addrsCount + multiset(node.addrs)
    requires addrsType' == TypeMap(fw, resolves, AllAddresses(prefix) + node.addrs)
    requires nodeTypes == Types(fw, resolves, node.addrs)
    ensures Gathered(fw, resolves, prefix + [node], allNamesUsable && usable,
                     if usable then namesCount + multiset{node.name.value} else namesCount,
                     addrsCount', addrsType', typesPerNode + [nodeTypes])
  {
    var next := prefix + [node];
    assert next[..|next| - 1] == prefix;
    assert AllAddresses(next) == AllAddresses(prefix) + node.addrs;
    TypesPerNodeStep(fw, resolves, next);
  }

  /**
   * One node of the per-node pass: its own checks, then what it adds to the
   * usable names, the addresses and the address types.
   */
  method VisitNode(fw: Framework, c: Constants, resolves: string -> bool, node: Node, index: nat, transport: string,
                   ghost seen: seq<Node>, allNamesUsable: bool, namesCount: multiset<string>, addrsCount: multiset<string>,
                   addrsType: map<string, AddressType>, typesPerNode: seq<seq<AddressType>>)
    returns (nodeReports: seq<Report>, allNamesUsable': bool, namesCount': multiset<string>, addrsCount': multiset<string>,
             addrsType': map<string, AddressType>, typesPerNode': seq<seq<AddressType>>)
    requires Gathered(fw, resolves, seen, allNamesUsable, namesCount, addrsCount, addrsType, typesPerNode)
    ensures nodeReports == NodeReports(fw, c, node, index, transport)
    ensures Gathered(fw, resolves, seen + [node], allNamesUsable', namesCount', addrsCount', addrsType', typesPerNode')
  {
    var usable;
    nodeReports, usable := CheckNode(fw, c, node, index, transport);
    var nodeTypes;
    addrsCount', addrsType', nodeTypes := ClassifyNodeAddresses(fw, resolves, node.addrs, addrsCount, addrsType, AllAddresses(seen));
    GatheredStep(fw, resolves, seen, node, allNamesUsable, namesCount, addrsCount, addrsType, typesPerNode,
                 usable, addrsCount', addrsType', nodeTypes);
    allNamesUsable' := allNamesUsable && usable;
    namesCount' := if usable then namesCount + multiset{node.name.value} else namesCount;
    typesPerNode' := typesPerNode + [nodeTypes];
  }

  /**
   * The per-node pass: each node's name and number of addresses are checked,
   * while usable names, addresses and address types are gathered for the
   * list-wide checks.
   */
  method CheckEachNode(fw: Framework, c: Constants, resolves: string -> bool, nodes: seq<Node>, transport: string)
    returns (reports: seq<Report>, allNamesUsable: bool, namesCount: multiset<string>, addrsCount: multiset<string>,
             addrsType: map<string, AddressType>, typesPerNode: seq<seq<AddressType>>)
    ensures reports == EachNode(fw, c, nodes, transport)
    ensures Gathered(fw, resolves, nodes, allNamesUsable, namesCount, addrsCount, addrsType, typesPerNode)
  {
    reports, allNamesUsable, namesCount, addrsCount, addrsType, typesPerNode := [], true, multiset{}, multiset{}, map[], [];
    ghost var seen: seq<Node> := [];
    for i := 0 to |nodes|
      invariant seen == nodes[..i]
      invariant reports == EachNode(fw, c, seen, transport)
      invariant Gathered(fw, resolves, seen, allNamesUsable, namesCount, addrsCount, addrsType, typesPerNode)
    {
      var nodeReports;
      nodeReports, allNamesUsable, namesCount, addrsCount, addrsType, typesPerNode :=
        VisitNode(fw, c, resolves, nodes[i], i + 1, transport, seen, allNamesUsable, namesCount, addrsCount, addrsType, typesPerNode);
      reports := reports + nodeReports;
      PrefixStep(nodes, i);
      EachNodeStep(fw, c, seen, nodes[i], transport);
      seen := seen + [nodes[i]];
    }
    assert nodes[..|nodes|] == nodes;
  }

  /** The unresolvable-address check, from the types recorded for every address. */
  method CheckUnresolvable(addrsType: map<string, AddressType>, forceUnresolvable: bool,
                           ghost fw: Framework, ghost resolves: string -> bool, ghost nodes: seq<Node>)
    returns (reports: seq<Report>)
    requires addrsType == TypeMap(fw, resolves, AllAddresses(nodes))
    ensures reports == UnresolvableReports(fw, resolves, nodes, forceUnresolvable)
  {
    var unresolvable := set a | a in addrsType && addrsType[a] == Unresolvable;
    assert unresolvable == UnresolvableAddresses(fw, resolves, nodes);
    reports := [];
    if unresolvable != {} {
      var severity := Error;
      var forceable := Some(ForceNodeAddressesUnresolvable);
      if forceUnresolvable {
        severity := Warning;
        forceable := None;
      }
      reports := [Report(NodeAddressesUnresolvable(unresolvable), severity, forceable)];
    }
  }

  /** The duplicate-name check, from the multiset of usable names; also says whether it found any. */
  method CheckNameDuplication(namesCount: multiset<string>, ghost nodes: seq<Node>)
    returns (reports: seq<Report>, found: bool)
    requires namesCount == multiset(UsableNames(nodes))
    ensures reports == NameDuplicationReports(nodes)
    ensures found <==> Duplicates(UsableNames(nodes)) != {}
  {
    var nonUnique := set n | n in namesCount && namesCount[n] > 1;
    assert nonUnique == Duplicates(UsableNames(nodes));
    found := nonUnique != {};
    reports := if found then [Report(CorosyncNodeNameDuplication(nonUnique), Error, None)] else [];
  }

  /** The duplicate-address check, from the multiset of all addresses. */
  method CheckAddressDuplication(addrsCount: multiset<string>, ghost nodes: seq<Node>)
    returns (reports: seq<Report>)
    requires addrsCount == multiset(AllAddresses(nodes))
    ensures reports == AddressDuplicationReports(nodes)
  {
    var nonUnique := set a | a in addrsCount && addrsCount[a] > 1;
    assert nonUnique == Duplicates(AllAddresses(nodes));
    reports := if nonUnique != {} then [Report(CorosyncNodeAddressDuplication(nonUnique), Error, None)] else [];
  }

  /** The address-count check, run only when names identify nodes, as intended. */
  method CheckCountMismatch(c: Constants, nodes: seq<Node>, transport: string, allNamesUsable: bool)
    returns (reports: seq<Report>)
    requires allNamesUsable == AllNamesUsable(nodes)
    ensures reports == CountMismatchReports(c, nodes, transport)
  {
    reports := [];
    if allNamesUsable {
      var counts := NodeAddressCounts(nodes);
      if transport !in c.transportsUdp && |counts.Values| > 1 {
        reports := [Report(CorosyncNodeAddressCountMismatch(counts), Error, None)];
      }
    }
  }

  /** The IP-version check, from the address types of every node. */
  method CheckIpMismatch(typesPerNode: seq<seq<AddressType>>, ghost fw: Framework, ghost resolves: string -> bool, ghost nodes: seq<Node>)
    returns (reports: seq<Report>)
    requires typesPerNode == TypesPerNode(fw, resolves, nodes)
    ensures reports == IpMismatchReports(fw, resolves, nodes)
  {
    var links := LinksIpMismatch(typesPerNode);
    reports := if |links| > 0 then [Report(CorosyncIpVersionMismatchInLinks(links), Error, None)] else [];
  }

  /**
   * The list-wide pass, from what the per-node pass gathered: unresolvable
   * addresses, duplicate names, duplicate addresses, differing address
   * counts and links mixing IP versions, in that order.
   */
  method CheckNodeList(c: Constants, nodes: seq<Node>, transport: string, forceUnresolvable: bool,
                       allNamesUsable0: bool, namesCount: multiset<string>, addrsCount: multiset<string>,
                       addrsType: map<string, AddressType>, typesPerNode: seq<seq<AddressType>>,
                       ghost fw: Framework, ghost resolves: string -> bool)
    returns (reports: seq<Report>)
    requires Gathered(fw, resolves, nodes, allNamesUsable0, namesCount, addrsCount, addrsType, typesPerNode)
    ensures reports == ListWide(fw, c, resolves, nodes, transport, forceUnresolvable)
  {
    reports := CheckUnresolvable(addrsType, forceUnresolvable, fw, resolves, nodes);
    var names, duplicateNames := CheckNameDuplication(namesCount, nodes);
    reports := reports + names;
    var allNamesUsable := allNamesUsable0 && !duplicateNames;
    var addrs := CheckAddressDuplication(addrsCount, nodes);
    reports := reports + addrs;
    var counts := CheckCountMismatch(c, nodes, transport, allNamesUsable);
    reports := reports + counts;
    var links := CheckIpMismatch(typesPerNode, fw, resolves, nodes);
    reports := reports + links;
  }

  /**
   * Validates a new cluster: its name and transport, each node on its own,
   * then the node list as a whole. `resolves` is the resolver lookup;
   * `forceUnresolvable` turns the unresolvable-address error into a warning.
   */
  method Create(fw: Framework, c: Constants, resolves: string -> bool, clusterName: string, nodes: seq<Node>,
                transport: string, forceUnresolvable: bool)
    returns (reports: seq<Report>)
    ensures reports == CreateReports(fw, c, resolves, clusterName, nodes, transport, forceUnresolvable)
  {
    var each, allNamesUsable, namesCount, addrsCount, addrsType, typesPerNode := CheckEachNode(fw, c, resolves, nodes, transport);
    var wide := CheckNodeList(c, nodes, transport, forceUnresolvable, allNamesUsable, namesCount, addrsCount, addrsType, typesPerNode, fw, resolves);
    reports := ClusterChecks(fw, c, clusterName, transport) + each + wide;
  }
}
