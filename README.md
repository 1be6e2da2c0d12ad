# pcs core, modelled in Dafny

This project models four parts of pcs, the Pacemaker/Corosync configuration tool:

- **Corosync configuration validators** (`pcs/lib/corosync/config_validators.py`). These check the input of
  `pcs cluster setup` and of the quorum and quorum-device commands. They cover:
  - the cluster name, the transport and the node list;
  - udp/udpu and knet link lists;
  - transport, compression, crypto and totem options;
  - quorum options;
  - quorum-device generic, heuristics and `net`-model options.

  The result is an ordered list of report items. Each item has a code with its payload, a severity (error or
  warning) and an optional force token. The validators build on a small option-validation framework. It is
  modelled as module `Validate`:
  - value checks, names checks and the empty-or-valid wrapper;
  - running a collection of checks as ordered concatenation;
  - the forcing rule: a forced violation is a warning with no token, an unforced forceable one an error that
    carries its token.
- **The constraint builder** (`pcs/lib/cib/constraint/constraint.py`). It:
  - resolves resource ids against a CIB tree with clone and master wrappers;
  - checks option names and supplies a constraint id;
  - proposes ids;
  - detects duplicate set constraints;
  - appends a new set constraint to the constraint section (class `Constraint.ConstraintSection`).
- **Fencing-level bookkeeping** (`pcs/stonith.py`). It covers:
  - adding a fencing level, including the level-string check, the leading-zero strip and the duplicate check;
  - removing a device from every level, with empty levels and an empty topology removed;
  - clearing levels;
  - the grouped and sorted `pcs stonith level` listing;
  - the `provides=unfencing` meta rewrite of `pcs stonith create`.

  The fencing topology is a field of class `Stonith.Cib`: absent, or a sequence of levels.
- **Qnetd output parsers** (`pcs/lib/corosync/qdevice_net.py`): the connected-cluster listing and the certificate
  path printed by the certificate tool.

Loops in the source are methods with loop invariants. Each method is proved equal to a specification function.
Lemmas then prove the properties the source promises about that function: report counts, iff-conditions for
"no report", membership, order, forcing and round trips.

The framework in `pcs/lib/validate.py` and the constants module are not part of this model.
- The framework's syntax checks are the fields of `Validate.Framework`, supplied by the caller: integer
  parsing, IP literals and port numbers.
- The corosync constants are the fields of `CorosyncConstants.Constants`. They include the link bounds, the
  transport lists, the quorum option lists and the exec-name expression.

## Model

| member | source | states |
|---|---|---|
| CorosyncCreate.Classify | pcs/lib/corosync/config_validators.py:163-172 | An IPv4 literal is IPv4, else an IPv6 literal is IPv6, else a name is an FQDN or unresolvable as the resolver says |
| CorosyncCreate.ClusterChecksAccept | pcs/lib/corosync/config_validators.py:31-41 | The cluster name and transport yield no report iff the name is not empty and the transport is a known one |
| CorosyncCreate.NameChecksAccept | pcs/lib/corosync/config_validators.py:51-64 | A node's name checks yield nothing iff the name is present and non-empty; they cannot be forced |
| CorosyncCreate.AddressBounds | pcs/lib/corosync/config_validators.py:72-78 | An address-count bound exists iff the transport is a knet or udp/udpu transport |
| CorosyncCreate.NodeReportsShape | pcs/lib/corosync/config_validators.py:50-92 | One node's checks: only unforceable reports; an address-count report exactly when the count is out of bounds; no name report iff the name is usable |
| CorosyncCreate.EachNodeKinds | pcs/lib/corosync/config_validators.py:50-92 | The per-node pass yields only unforceable name and address-count reports |
| CorosyncCreate.EachNodeBadCounts | pcs/lib/corosync/config_validators.py:79-92 | Every address-count report is about a node whose count is outside the bounds and carries its 1-based position |
| CorosyncCreate.EachNodeBadCountsReported | pcs/lib/corosync/config_validators.py:79-92 | Every node whose address count is outside the bounds gets its report |
| CorosyncCreate.EachNodeNames | pcs/lib/corosync/config_validators.py:51-66 | The per-node pass reports nothing about names iff every node has a present, non-empty name |
| CorosyncCreate.EachNodeEmpty | pcs/lib/corosync/config_validators.py:50-92 | The per-node pass reports nothing iff every name is usable and every address count is within bounds |
| CorosyncCreate.UnresolvableReports | pcs/lib/corosync/config_validators.py:101-117 | The unresolvable addresses go in one report: an error with FORCE_NODE_ADDRESSES_UNRESOLVABLE, or a warning with no token when forced |
| CorosyncCreate.UsableNamesStep | pcs/lib/corosync/config_validators.py:65-70 | Each node with a usable name adds one to that name's count; missing or empty names are not counted |
| CorosyncCreate.NameDuplicatesMeaning | pcs/lib/corosync/config_validators.py:118-120 | A name is a duplicate iff it is not empty and two distinct nodes carry it |
| CorosyncCreate.AddressCountsValues | pcs/lib/corosync/config_validators.py:137-140 | When names identify nodes, the recorded per-name counts are exactly the nodes' address counts |
| CorosyncCreate.AllNamesUsableStep | pcs/lib/corosync/config_validators.py:118-122 | When names identify nodes, they do so for every prefix, and the last name is not among the earlier ones |
| CorosyncCreate.CountMismatchMeaning | pcs/lib/corosync/config_validators.py:137-148 | The mismatch condition holds iff names identify nodes, the transport is not udp/udpu and two nodes differ in address count |
| CorosyncCreate.MismatchLinksMeaning | pcs/lib/corosync/config_validators.py:152-155 | A link is listed iff it is among the padded columns and its column mixes IPv4 and IPv6 |
| CorosyncCreate.MismatchLinksIncreasing | pcs/lib/corosync/config_validators.py:152-155 | The listed links are strictly increasing |
| CorosyncCreate.IpMismatchMeaning | pcs/lib/corosync/config_validators.py:151-159 | Link i (0-based) is reported iff one node's i-th address is IPv4 and another's is IPv6; FQDNs and padding never count |
| CorosyncCreate.IpMismatchIncreasing | pcs/lib/corosync/config_validators.py:151-159 | The mismatched links are reported in increasing order |
| CorosyncCreate.CreateAccepts | pcs/lib/corosync/config_validators.py:22-161 | Corrected: validation of a new cluster reports nothing iff the cluster is valid |
| CorosyncCreate.CreateCount | pcs/lib/corosync/config_validators.py:22-161 | Corrected: the whole validation holds as many reports of a list-wide kind as the list-wide checks produce |
| CorosyncCreate.CreateMember | pcs/lib/corosync/config_validators.py:22-161 | Corrected: a report the per-node checks cannot yield is in the result iff a list-wide check yields it |
| CorosyncCreate.ListWideUnresolvableCount | pcs/lib/corosync/config_validators.py:101-117 | Unresolvable addresses give exactly one report, listing exactly those addresses, with the severity and token the force flag selects |
| CorosyncCreate.ListWideUnresolvableReported | pcs/lib/corosync/config_validators.py:101-117 | That report is present exactly when some address is unresolvable |
| CorosyncCreate.ListWideNameDuplicationCount | pcs/lib/corosync/config_validators.py:118-125 | Names carried by two nodes give exactly one unforceable report listing them |
| CorosyncCreate.ListWideNameDuplicationReported | pcs/lib/corosync/config_validators.py:118-125 | That report is present exactly when some name is duplicated |
| CorosyncCreate.ListWideAddressDuplicationCount | pcs/lib/corosync/config_validators.py:126-132 | Addresses used more than once give exactly one unforceable report listing them |
| CorosyncCreate.ListWideAddressDuplicationReported | pcs/lib/corosync/config_validators.py:126-132 | That report is present exactly when some address is used twice |
| CorosyncCreate.ListWideIpMismatchCount | pcs/lib/corosync/config_validators.py:151-159 | Links mixing IP versions give exactly one unforceable report |
| CorosyncCreate.ListWideIpMismatchReported | pcs/lib/corosync/config_validators.py:151-159 | That report is present exactly when some link mixes IPv4 and IPv6 |
| CorosyncCreate.ListWideCountMismatchCount | pcs/lib/corosync/config_validators.py:137-149 | Corrected: differing address counts give exactly one report, listing each node's count, iff names identify nodes, the transport is not udp and two nodes differ |
| CorosyncCreate.ListWideCountMismatchReported | pcs/lib/corosync/config_validators.py:137-149 | Corrected: that report is present exactly when its condition holds |
| CorosyncCreate.AsWrittenListWideCount | pcs/lib/corosync/config_validators.py:101-159 | None of the list-wide checks as written yields an address-count report |
| CorosyncCreate.AsWrittenDropsCountMismatch | pcs/lib/corosync/config_validators.py:137-149 | As written, no input ever yields the count-mismatch report |
| CorosyncCreate.CountMismatchCounterexample | pcs/lib/corosync/config_validators.py:137-149 | Nodes "a" (one address) and "b" (two addresses) on knet: the intended checks report the mismatch, the written ones do not |
| CorosyncCreate.CreateForcing | pcs/lib/corosync/config_validators.py:22-161 | Only the unresolvable-address report can ever be forced; every other report is an unforceable error |
| CorosyncCreate.ClassifyNodeAddresses | pcs/lib/corosync/config_validators.py:93-99 | Counts each address, classifies only addresses not seen before, and returns the node's types in address order |
| CorosyncCreate.NodeAddressCounts | pcs/lib/corosync/config_validators.py:138-140 | Builds the name-to-address-count map of the nodes |
| CorosyncCreate.LinksIpMismatch | pcs/lib/corosync/config_validators.py:152-155 | Collects the links whose padded column mixes IPv4 and IPv6 |
| CorosyncCreate.CheckNode | pcs/lib/corosync/config_validators.py:51-92 | One node's name and address-count reports, and whether its name is usable |
| CorosyncCreate.VisitNode | pcs/lib/corosync/config_validators.py:50-99 | One iteration of the node loop: the node's reports, and the gathered counts and types kept up to date |
| CorosyncCreate.CheckEachNode | pcs/lib/corosync/config_validators.py:44-99 | The node loop: the per-node reports, with usable names, address counts, types and types per node gathered for the list-wide checks |
| CorosyncCreate.CheckUnresolvable | pcs/lib/corosync/config_validators.py:101-117 | The unresolvable-address report from the recorded address types |
| CorosyncCreate.CheckNameDuplication | pcs/lib/corosync/config_validators.py:118-125 | The duplicate-name report, and whether any name is duplicated |
| CorosyncCreate.CheckAddressDuplication | pcs/lib/corosync/config_validators.py:126-132 | The duplicate-address report |
| CorosyncCreate.CheckCountMismatch | pcs/lib/corosync/config_validators.py:137-149 | Corrected: the count-mismatch report, kept in the result |
| CorosyncCreate.CheckIpMismatch | pcs/lib/corosync/config_validators.py:151-159 | The IP-version mismatch report from the types per node |
| CorosyncCreate.CheckNodeList | pcs/lib/corosync/config_validators.py:101-159 | The list-wide reports, in the source's order |
| CorosyncCreate.Create | pcs/lib/corosync/config_validators.py:22-161 | Corrected: the reports of `create`: cluster checks, then per-node checks, then list-wide checks including the count mismatch |
| CorosyncLinks.UdpOnlyFirstLinkValidated | pcs/lib/corosync/config_validators.py:199-204 | Links after the first never change the udp reports, except through the link count |
| CorosyncLinks.UdpFirstLinkChecks | pcs/lib/corosync/config_validators.py:185-204 | The first link's option checks cannot be forced |
| CorosyncLinks.UdpBroadcastContradiction | pcs/lib/corosync/config_validators.py:205-208 | Broadcast "1" together with mcastaddr gives exactly one contradiction report, and nothing otherwise |
| CorosyncLinks.UdpTooManyLinks | pcs/lib/corosync/config_validators.py:209-217 | A udp list longer than the maximum gives exactly one too-many-links report with its length; a shorter one none |
| CorosyncLinks.UdpLinkListUnforced | pcs/lib/corosync/config_validators.py:174-218 | No udp/udpu link report can be forced |
| CorosyncLinks.UdpLinkListAccepts | pcs/lib/corosync/config_validators.py:180-218 | A udp link list is accepted iff it is empty, or short enough with a valid first link |
| CorosyncLinks.ClampLinkNumber | pcs/lib/corosync/config_validators.py:232-235 | The highest link number is clamped to between 0 and LINKS_KNET_MAX - 1 |
| CorosyncLinks.KnetLinkChecks | pcs/lib/corosync/config_validators.py:247-269 | One knet link's checks cannot be forced |
| CorosyncLinks.LinkNumbersMembership | pcs/lib/corosync/config_validators.py:262-264 | A link number is counted iff some link sets it |
| CorosyncLinks.DuplicatesExist | pcs/lib/corosync/config_validators.py:270-273 | Some link number is used twice iff the duplicate set is not empty |
| CorosyncLinks.CheckEachKnetLink | pcs/lib/corosync/config_validators.py:260-269 | The link loop: each link's checks in order, and the multiset of the link numbers set |
| CorosyncLinks.CreateLinkListKnet | pcs/lib/corosync/config_validators.py:220-286 | The knet link list reports: per-link checks, one duplication report, then too many links |
| CorosyncLinks.KnetLinkNumberDuplication | pcs/lib/corosync/config_validators.py:270-276 | Link numbers, compared as raw strings, used by two links give exactly one report naming exactly them |
| CorosyncLinks.KnetTooManyLinks | pcs/lib/corosync/config_validators.py:277-285 | A list longer than LINKS_KNET_MAX gives exactly one too-many-links report with its length |
| CorosyncLinks.KnetLinkListUnforced | pcs/lib/corosync/config_validators.py:220-286 | No knet link report can be forced |
| CorosyncLinks.KnetEmptyLinkList | pcs/lib/corosync/config_validators.py:227-231 | An empty knet link list yields no reports |
| CorosyncOptions.CreateTransportUdp | pcs/lib/corosync/config_validators.py:288-312 | udp transport options yield nothing iff they are valid; every report is an unforceable error |
| CorosyncOptions.SectionOfThree | pcs/lib/corosync/config_validators.py:363-396 | A section of three unforceable checks plus its names check reports nothing iff each check accepts and every name is allowed |
| CorosyncOptions.KnetGenericChecks | pcs/lib/corosync/config_validators.py:320-373 | Generic knet options yield nothing iff valid, and only unforceable option reports |
| CorosyncOptions.CompressionChecks | pcs/lib/corosync/config_validators.py:330-384 | Compression options yield nothing iff valid, and only unforceable option reports |
| CorosyncOptions.CryptoChecks | pcs/lib/corosync/config_validators.py:346-395 | Crypto options yield nothing iff valid, and only unforceable option reports |
| CorosyncOptions.KnetSectionChecks | pcs/lib/corosync/config_validators.py:363-396 | The three knet sections together yield nothing iff all three are valid |
| CorosyncOptions.CipherRule | pcs/lib/corosync/config_validators.py:397-405 | The cipher rule reports iff the cipher (default aes256) is not none while the hash (default sha1) is none |
| CorosyncOptions.CreateTransportKnet | pcs/lib/corosync/config_validators.py:314-406 | knet transport options yield nothing iff all sections are valid and the crypto does not encrypt without a hash; every report is an unforceable error |
| CorosyncOptions.CreateTransportKnetCipherRequiresHash | pcs/lib/corosync/config_validators.py:397-405 | The cipher-requires-hash report appears exactly once when a cipher is used without a hash, else never |
| CorosyncOptions.TotemAcceptsAll | pcs/lib/corosync/config_validators.py:438-458 | The totem checks accept iff every totem option is absent or a non-negative integer |
| CorosyncOptions.CreateTotem | pcs/lib/corosync/config_validators.py:408-464 | The totem section yields nothing iff every name is a totem option and every value a non-negative integer; nothing can be forced |
| CorosyncOptions.QuorumValidators | pcs/lib/corosync/config_validators.py:527-553 | Four quorum value checks, wrapped to let empty values through when empty values are allowed; they only reject values |
| CorosyncOptions.QuorumChecksNotIncompatible | pcs/lib/corosync/config_validators.py:508-513 | The quorum value and name checks never yield the qdevice-incompatibility report |
| CorosyncOptions.QuorumIncompatibleWithQdevice | pcs/lib/corosync/config_validators.py:514-524 | With a qdevice, set incompatible options give exactly one report; without a qdevice, never |
| CorosyncOptions.QuorumIncompatibleListed | pcs/lib/corosync/config_validators.py:514-524 | That report lists the set incompatible options in input order |
| CorosyncOptions.CreateQuorumDependencyCount | pcs/lib/corosync/config_validators.py:478-489 | Creation reports the missing prerequisite exactly once iff last_man_standing_window is set without last_man_standing |
| CorosyncOptions.CreateQuorumDependencyLast | pcs/lib/corosync/config_validators.py:484-489 | The missing-prerequisite report comes last |
| CorosyncOptions.UpdateQuorumNoDependency | pcs/lib/corosync/config_validators.py:491-505 | Update never reports the window's dependency |
| CorosyncOptions.UpdateQuorumAcceptsEmptyValues | pcs/lib/corosync/config_validators.py:491-553 | Update never rejects an empty value |
| CorosyncOptions.CreateQuorumRejectsEmptyValues | pcs/lib/corosync/config_validators.py:466-549 | Creation rejects an empty value of a boolean quorum option |
| CorosyncQdevice.ValidatorsAccept | pcs/lib/corosync/config_validators.py:806-829 | A section's value checks report nothing iff each keyed check accepts, or, on update, its option is absent or empty |
| CorosyncQdevice.ValueValidatorsKeyed | pcs/lib/corosync/config_validators.py:809-989 | The net, generic and heuristics value checks are keyed by their own option and forceable only by FORCE_OPTIONS |
| CorosyncQdevice.NetValidatorsForcing | pcs/lib/corosync/config_validators.py:962-1010 | Every check of the net model is forceable by FORCE_OPTIONS, if at all |
| CorosyncQdevice.NetValueValidatorsAccept | pcs/lib/corosync/config_validators.py:968-989 | The optional net checks accept exactly the acceptable connect_timeout, force_ip_version, port and tie_breaker values |
| CorosyncQdevice.NetAddValidatorsAccept | pcs/lib/corosync/config_validators.py:752-762 | The add checks accept iff host and algorithm are given and every value is acceptable |
| CorosyncQdevice.NetAddAccepts | pcs/lib/corosync/config_validators.py:740-774 | Adding a net model reports nothing iff algorithm and host are given, every value is acceptable and every name is a net option |
| CorosyncQdevice.NetUpdateRequiresNothing | pcs/lib/corosync/config_validators.py:776-804 | Updating a net model never reports a missing option |
| CorosyncQdevice.NetUpdateEmptyValues | pcs/lib/corosync/config_validators.py:1000-1010 | On update an empty value can only be rejected for host or algorithm |
| CorosyncQdevice.NetUpdateEmptyHost | pcs/lib/corosync/config_validators.py:1000-1003 | An empty host is rejected on update, with an error no force can change |
| CorosyncQdevice.UnknownGenericNamesMembers | pcs/lib/corosync/config_validators.py:844-849 | A name is listed as invalid iff it is given, not allowed and not "model" |
| CorosyncQdevice.ModelGivenMeans | pcs/lib/corosync/config_validators.py:844-847 | The model flag is set iff "model" is among the names |
| CorosyncQdevice.ValidateGenericOptionsNames | pcs/lib/corosync/config_validators.py:831-873 | The generic names loop: the "model" report, then the other invalid names |
| CorosyncQdevice.AddGenericOptions | pcs/lib/corosync/config_validators.py:638-658 | Generic options on add: value checks, then names |
| CorosyncQdevice.UpdateGenericOptions | pcs/lib/corosync/config_validators.py:660-681 | Generic options on update: wrapped value checks, then names |
| CorosyncQdevice.GenericModelReported | pcs/lib/corosync/config_validators.py:850-872 | "model" is reported as an unforceable error iff given; the other report names exactly the other unknown names |
| CorosyncQdevice.GenericNamesAccept | pcs/lib/corosync/config_validators.py:831-873 | The generic names check reports nothing iff every name is sync_timeout or timeout |
| CorosyncQdevice.SplitPartLookup | pcs/lib/corosync/config_validators.py:875-883 | Each option lands in exactly one part under its own value: exec_ names in the exec part, the rest in the other |
| CorosyncQdevice.SplitHeuristicsExecOptions | pcs/lib/corosync/config_validators.py:875-883 | The split loop yields the non-exec and exec parts in input order |
| CorosyncQdevice.SplitPartKeys | pcs/lib/corosync/config_validators.py:875-883 | The names of a part are exactly the map's names of that kind |
| CorosyncQdevice.ExecNamesWhere | pcs/lib/corosync/config_validators.py:927-931 | A name is listed iff it is an exec name the expression accepts (or rejects) |
| CorosyncQdevice.ExecNameReports | pcs/lib/corosync/config_validators.py:932-941 | The exec-name report is an error that cannot be forced |
| CorosyncQdevice.ValidateHeuristicsExecOptionNames | pcs/lib/corosync/config_validators.py:919-942 | The exec-name loop: the rejected-names report and the valid names in order |
| CorosyncQdevice.ExecValuesAccept | pcs/lib/corosync/config_validators.py:697-700 | On add, the exec value checks report nothing iff no valid exec name is set to an empty command |
| CorosyncQdevice.AppendExecValueValidators | pcs/lib/corosync/config_validators.py:697-700 | The append loop adds those checks after the existing ones |
| CorosyncQdevice.AddHeuristicsOptions | pcs/lib/corosync/config_validators.py:683-710 | Heuristics on add: value checks including exec values, then non-exec names, then exec names |
| CorosyncQdevice.UpdateHeuristicsOptions | pcs/lib/corosync/config_validators.py:712-738 | Heuristics on update: wrapped value checks, then non-exec names, then exec names |
| CorosyncQdevice.RejectedExecNames | pcs/lib/corosync/config_validators.py:927-929 | The rejected names are exactly the exec options the expression rejects |
| CorosyncQdevice.ExecNameReportsCount | pcs/lib/corosync/config_validators.py:932-941 | The exec-name check yields one report iff some exec name is bad |
| CorosyncQdevice.HeuristicsChecksNoExecNameReport | pcs/lib/corosync/config_validators.py:701-960 | Value and non-exec name checks never yield an exec-name report |
| CorosyncQdevice.HeuristicsExecNamesNeverForceable | pcs/lib/corosync/config_validators.py:919-942 | On add and update, bad exec names give exactly one unforceable error naming exactly them, whatever the force flag |
| CorosyncQdevice.ValidExecNameChecked | pcs/lib/corosync/config_validators.py:694-700 | A valid exec name given is one whose value add checks |
| CorosyncQdevice.AddRejectsEmptyExec | pcs/lib/corosync/config_validators.py:694-700 | On add, a valid exec option with an empty command is rejected as an unforceable error |
| CorosyncQdevice.UpdateHeuristicsValues | pcs/lib/corosync/config_validators.py:719-728 | On update only the four non-exec options have their values checked, and never an empty one |
| CorosyncQdevice.AddQuorumDevice | pcs/lib/corosync/config_validators.py:555-600 | The model reports (net checks or the unknown-model report), then generic, then heuristics |
| CorosyncQdevice.UpdateQuorumDevice | pcs/lib/corosync/config_validators.py:602-636 | The net checks if the model is net, then generic, then heuristics |
| CorosyncQdevice.UnknownModelReport | pcs/lib/corosync/config_validators.py:581-593 | An unknown model gives one report: a warning when forced, else an error carrying FORCE_QDEVICE_MODEL |
| CorosyncQdevice.AddUnknownModel | pcs/lib/corosync/config_validators.py:579-600 | Adding an unknown model gives that report before the generic and heuristics reports |
| CorosyncQdevice.NetRespects | pcs/lib/corosync/config_validators.py:740-804 | Net-model reports respect FORCE_OPTIONS |
| CorosyncQdevice.GenericRespects | pcs/lib/corosync/config_validators.py:638-872 | Generic reports respect FORCE_OPTIONS; the "model" report is an unforceable error |
| CorosyncQdevice.AddHeuristicsForcing | pcs/lib/corosync/config_validators.py:691-700 | Every heuristics check on add is forceable by FORCE_OPTIONS, if at all |
| CorosyncQdevice.HeuristicsRespects | pcs/lib/corosync/config_validators.py:683-738 | Heuristics reports respect FORCE_OPTIONS; the exec-name report is an unforceable error |
| CorosyncQdevice.NetDeviceForceOptions | pcs/lib/corosync/config_validators.py:555-636 | For a net device, with FORCE_OPTIONS no report asks for a token; without it, no report is a warning and the only token asked for is FORCE_OPTIONS |
| QdeviceNet.ClusterName | pcs/lib/corosync/qdevice_net.py:198-202 | A recognised line is, up to a final newline, `Cluster "NAME":` with NAME non-empty and free of double quotes |
| QdeviceNet.ClusterNameComplete | pcs/lib/corosync/qdevice_net.py:198-202 | Every line of the form `Cluster "NAME":` is recognised with NAME |
| QdeviceNet.ConnectedClusters | pcs/lib/corosync/qdevice_net.py:192-204 | The loop over the lines collects the names of the matching lines in line order |
| QdeviceNet.ClusterNamesWellFormed | pcs/lib/corosync/qdevice_net.py:198 | Every reported name is non-empty and contains no double quote |
| QdeviceNet.ClusterNamesMembership | pcs/lib/corosync/qdevice_net.py:197-203 | A name is reported iff some line is exactly `Cluster "NAME":`; other lines contribute nothing |
| QdeviceNet.NoClustersInEmptyOutput | pcs/lib/corosync/qdevice_net.py:197-203 | Empty output lists no clusters |
| QdeviceNet.CertificatePathShape | pcs/lib/corosync/qdevice_net.py:464 | A line without a newline yields PATH iff it is "Certificate stored in " or "Certificate request stored in " followed by the non-empty PATH |
| QdeviceNet.LastCertificatePathIsLast | pcs/lib/corosync/qdevice_net.py:465-469 | A path is found iff some line matches, and it is the path of a matching line after which none matches |
| QdeviceNet.OutputCertificatePath | pcs/lib/corosync/qdevice_net.py:463-473 | The path of the last matching line, or an error carrying the whole output when none matches |
| Constraint.FindPathIsPath | pcs/lib/cib/constraint/constraint.py:27 | A found element is reached from the root through children |
| Constraint.FindPathComplete | pcs/lib/cib/constraint/constraint.py:27-30 | The id lookup misses iff no element carries the id |
| Constraint.FindValidResourceId | pcs/lib/cib/constraint/constraint.py:26-52 | Resolving an id: the id itself, the enclosing clone's id when repair is allowed, or a failure |
| Constraint.ResolveMissing | pcs/lib/cib/constraint/constraint.py:29-30 | Resolution fails with "does not exist" iff no element carries the id |
| Constraint.ResolveUnchanged | pcs/lib/cib/constraint/constraint.py:32-37 | A clone or master, or a resource outside any clone, resolves to itself whatever the flags |
| Constraint.NearestCloneIs | pcs/lib/cib/constraint/constraint.py:35 | The clone found is the nearest ancestor with a clone tag |
| Constraint.ResolveInClone | pcs/lib/cib/constraint/constraint.py:39-52 | Inside a clone: the clone's id on repair, else its own id when allowed, else the in-master or in-clone failure naming both ids |
| Constraint.ResolveExample | pcs/lib/cib/constraint/constraint.py:39-52 | A resource R inside C-clone under each choice of flags |
| Constraint.ResolveIdsSuccess | pcs/lib/cib/constraint/constraint.py:58-65 | Resolving a set succeeds iff every id resolves, with each id's resolution in order |
| Constraint.ResolveIdsFailure | pcs/lib/cib/constraint/constraint.py:58-65 | A failure is that of the first id that does not resolve |
| Constraint.PrepareSetsMeaning | pcs/lib/cib/constraint/constraint.py:54-65 | One prepared set per requested set, in order, with its options kept and its ids resolved; failures come only from some set |
| Constraint.FirstNotAllowed | pcs/lib/cib/constraint/constraint.py:20-24 | The first name not allowed, if any |
| Constraint.ValidateAttribNames | pcs/lib/cib/constraint/constraint.py:19-24 | Fails on the first option whose name is not allowed, naming the allowed names |
| Constraint.PrepareOptions | pcs/lib/cib/constraint/constraint.py:67-75 | Checks names against the allowed names and "id", copies the options, then creates or validates the id |
| Constraint.PreparedOptionsMeaning | pcs/lib/cib/constraint/constraint.py:67-75 | Fails iff a name is outside the allowed names and "id", or a given id is rejected; otherwise keeps every option and adds the created id when none was given |
| Constraint.CreateId | pcs/lib/cib/constraint/constraint.py:89-94 | The proposed id made unique by the id finder, never a used id |
| Constraint.ProposedIdPrefix | pcs/lib/cib/constraint/constraint.py:90-93 | Every proposal starts with "pcs_" and the type prefix, and each further set extends it |
| Constraint.ProposedIdExample | pcs/lib/cib/constraint/constraint.py:90-93 | The proposal for a colocation of A with B, then C |
| Constraint.DuplicitIsOrdered | pcs/lib/cib/constraint/constraint.py:96-101 | Duplicates need equal ordered lists of ordered id lists; ["A","B"] and ["B","A"] are not duplicates |
| Constraint.DuplicitIndices | pcs/lib/cib/constraint/constraint.py:107-115 | The positions of the other same-tag constraints the relation marks as duplicates, in document order |
| Constraint.CheckIsWithoutDuplication | pcs/lib/cib/constraint/constraint.py:103-123 | Fails iff another same-tag constraint is a duplicate, listing the export of each in document order |
| Constraint.DuplicationReportLists | pcs/lib/cib/constraint/constraint.py:107-123 | The report lists every other duplicate once, in order, and never the constraint itself |
| Constraint.ExportWithSet | pcs/lib/cib/constraint/constraint.py:77-84 | The export carries the constraint's attributes, and its entry k is the export of the k-th resource_set descendant in document order |
| Constraint.DescendantsTagged | pcs/lib/cib/constraint/constraint.py:79-81 | Every collected descendant carries the tag searched for |
| Constraint.SetDescendants | pcs/lib/cib/constraint/constraint.py:79-81 | A constraint with plain resource-set children has exactly those as its resource sets |
| Constraint.CreatedDuplicates | pcs/lib/cib/constraint/constraint.py:96-130 | Two created constraints are duplicates iff their requested id lists are equal, set by set and in order |
| Constraint.ConstraintSection.CreateWithSet | pcs/lib/cib/constraint/constraint.py:125-130 | Appends one constraint with the tag and attributes and one set child per requested set in order; nothing else changes |
| Constraint.CreatedExport | pcs/lib/cib/constraint/constraint.py:77-130 | A new constraint exports its attributes and its sets in request order |
| Stonith.StripZeros | pcs/stonith.py:227 | Stripping leading zeros never lengthens the level, and what is left does not start with '0' |
| Stonith.StripValidLevel | pcs/stonith.py:225-227 | An accepted level strips to a digit string with no leading zero, the same integer value, and a value above 0 |
| Stonith.LevelExampleZeros | pcs/stonith.py:225-227 | "0002" is accepted and stored as "2" |
| Stonith.LevelExampleNewline | pcs/stonith.py:225-227 | "3\n" is accepted, because `$` matches before a final newline, and kept as it is |
| Stonith.LevelExamplesRejected | pcs/stonith.py:225-226 | "000", "", "1a" and "-1" are rejected |
| Stonith.FirstNonStonith | pcs/stonith.py:229-231 | The first device that is not a stonith id, if any: every earlier device is one |
| Stonith.FindNonStonith | pcs/stonith.py:229-231 | The device loop finds that first device |
| Stonith.FindLevel | pcs/stonith.py:243-246 | The level loop finds a level iff one has the same target, index and devices |
| Stonith.AddStoresIndex | pcs/stonith.py:225-253 | A successful add keeps every stored index in stripped form, and the new index has the positive value of the level given |
| Stonith.AddTwice | pcs/stonith.py:243-246 | Adding the same level a second time fails with "already exists" |
| Stonith.Without | pcs/stonith.py:313 | The device list without the device holds exactly the other devices |
| Stonith.WithoutAppend | pcs/stonith.py:313 | Removing the device distributes over concatenation, so order and repeats of the other devices are kept |
| Stonith.WithoutAbsent | pcs/stonith.py:313 | A list that does not hold the device is unchanged |
| Stonith.WithoutExample | pcs/stonith.py:313 | Removing "b" from a, b, a leaves a, a |
| Stonith.LevelWithoutDevice | pcs/stonith.py:311-317 | A level keeps its target, index and id and exactly its other devices in order (the split list without the device), and is unchanged if it does not list the device; it goes only when it listed nothing else |
| Stonith.LevelsWithoutKeeps | pcs/stonith.py:310-312 | A level not listing the device is kept unchanged |
| Stonith.LevelsWithoutDevice | pcs/stonith.py:310-317 | No remaining level lists the removed device |
| Stonith.TopologyRemoved | pcs/stonith.py:306-319 | No level remains iff every level listed only the removed device |
| Stonith.ClearKeeps | pcs/stonith.py:338-340 | A level is kept iff neither its target nor its whole devices string equals the node |
| Stonith.ClearIdempotent | pcs/stonith.py:322-342 | Clearing a node twice is the same as clearing it once |
| Stonith.TargetOrderDistinct | pcs/stonith.py:361-371 | Each target is listed once |
| Stonith.TargetOrderMembers | pcs/stonith.py:361-371 | A target is listed iff some level names it |
| Stonith.GroupedIs | pcs/stonith.py:361-371 | The groups' keys are exactly the targets, each holding its levels' (index, devices) pairs in document order |
| Stonith.InsertNode | pcs/stonith.py:376-377 | Inserting a node keeps the length and the multiset |
| Stonith.SortNodes | pcs/stonith.py:376-377 | Sorting the nodes is a permutation |
| Stonith.SortNodesAscending | pcs/stonith.py:376-377 | Sorted distinct nodes are strictly ascending |
| Stonith.SortByIndexPermutes | pcs/stonith.py:381 | Sorting a node's levels by index is a permutation |
| Stonith.SortByIndexSorted | pcs/stonith.py:381 | A node's levels are ordered by integer index |
| Stonith.SortByIndexStable | pcs/stonith.py:381 | Levels with the same integer index keep their document order, as Python's sort is stable |
| Stonith.ShowGroupsAscending | pcs/stonith.py:376-379 | The listed targets are strictly ascending |
| Stonith.ShowGroupsSound | pcs/stonith.py:376-379 | Every listed target is a target of some level |
| Stonith.ShowGroupsComplete | pcs/stonith.py:376-379 | Every target of a level is listed |
| Stonith.ShowGroupsEntries | pcs/stonith.py:361-382 | Each listed target holds a permutation of its levels, sorted by integer index and stable |
| Stonith.GroupLevels | pcs/stonith.py:361-371 | The grouping loop builds the groups and the order the targets first appear in |
| Stonith.NodeLines | pcs/stonith.py:380-382 | A node's lines: " Node: " and the node, then one line per level sorted by index |
| Stonith.RenderNodes | pcs/stonith.py:379-382 | The rendering loop prints each sorted node's lines in turn |
| Stonith.ShowLevels | pcs/stonith.py:358-382 | The listing is empty with no levels, else the rendering of the sorted groups |
| Stonith.Cib.constructor | pcs/stonith.py:223 | A CIB whose fencing topology is the one given |
| Stonith.Cib.LevelAdd | pcs/stonith.py:222-255 | Errors in the source's order (invalid level, non-stonith device, non-node, existing level) leave the topology as it was; otherwise the topology, created if absent, gets exactly one new level |
| Stonith.Cib.LevelRmDevice | pcs/stonith.py:305-320 | The topology after removing the device from every level, with empty levels and an empty topology removed |
| Stonith.Cib.LevelClearAll | pcs/stonith.py:326-333 | An absent topology stays absent; a present one is emptied |
| Stonith.Cib.LevelClear | pcs/stonith.py:334-340 | An absent topology stays absent; otherwise exactly the levels for the node are removed |
| Stonith.Cib.LevelShow | pcs/stonith.py:358-382 | The listing of the current topology |
| Stonith.WithoutProvides | pcs/stonith.py:176-178 | The meta entries without any `provides=` entry, others in order |
| Stonith.StonithCreateMeta | pcs/stonith.py:174-179 | With metadata for an unfencing agent: every `provides=` entry dropped and `provides=unfencing` appended; otherwise unchanged |
| Stonith.UnfencingMeta | pcs/stonith.py:175-179 | `provides=unfencing` comes last and is the only `provides=` entry, and the rewrite is idempotent |
| Stonith.WithoutProvidesAppend | pcs/stonith.py:176-178 | Dropping `provides=` entries distributes over concatenation, so other entries keep order and repeats |
| Stonith.WithoutProvidesKeeps | pcs/stonith.py:176-178 | Meta entries without any `provides=` entry pass unchanged |
| Strings.JoinSplit | pcs/stonith.py:311-315 | Joining the comma-split fields gives back the devices string |
| Strings.SplitJoin | pcs/stonith.py:311-315 | Splitting a join of comma-free devices gives back the devices |
| Strings.LessTotal | pcs/stonith.py:377 | String order is total |
| Strings.LessTransitive | pcs/stonith.py:377 | String order is transitive |

## Left out

- The resolver lookup in `_get_address_type` (pcs/lib/corosync/config_validators.py:168-172) is network I/O. It is the `resolves` parameter, consulted once per distinct address.
- The option-validation framework in `pcs/lib/validate.py` is not part of this model. Its integer, IP-address and port-number syntax checks are the fields of `Validate.Framework`. `Validate.Apply` models each validator from how the validators use it.
- The values of the corosync constants are not part of this model: link bounds, transport lists, quorum option lists and the exec-name expression. They are the fields of `CorosyncConstants.Constants`.
- Report message text and localisation are left out; a report is its code and payload, severity and force token.
- Dictionaries are ordered lists of (name, value) pairs, as Python's insertion-ordered dicts iterate.
- `export`, `create`, `extract_id_set_list` and `get_resource_id_set_list`, `find_unique_id`, `find_parent` and lxml are foreign code. They are function parameters of the constraint model, or the small element tree of `Constraint`.
- Constraint.FindPath: `resource.find_by_id` is not part of this model. FindPath stands in for it and takes the first element in document order that carries the id, of any tag, the root included. Any restriction of the real lookup to resource tags or to the resources section is not modelled.
- Constraint.PrepareSet: `resource_set.prepare_set` is not part of this model. PrepareSet stands in for it, resolves every id with the given function and keeps the set's options as given. It does not validate the set's options.
- Constraint.CheckIsWithoutDuplication: the element under check is given by its position in the section rather than by object identity.
- Stonith: `utils.is_stonith_resource`, `is_pacemaker_node`, `is_corosync_node` and `find_unique_id` are parameters, and the `--force` flag is a boolean.
- Stonith: `utils.err` exits, reading the CIB and replacing it, and the printing are left out. Errors are returned as values and the listing as lines.
- Stonith.Cib.LevelShow: `int()` on an index is the decimal value of its digits. Signs and surrounding whitespace are not handled, and the `ValueError` for a non-numeric index is not modelled.
- Stonith.Cib.LevelShow: levels are read from the fencing topology only, not from anywhere in the CIB.
- CorosyncLinks.KnetListWide: the duplicated link numbers are reported as a set, while the source builds a list in order of first use (pcs/lib/corosync/config_validators.py:270-273).
- Stonith.Cib.LevelClear: it reads only the levels of the fencing topology, while the source collects every fencing-level element anywhere in the document (pcs/stonith.py:335).
- Stonith.Cib.LevelClearAll: only fencing levels are removed; other children of the topology element are not modelled.
- Stonith.StripZeros: it does not state that the result is a suffix of the input.
- `stonith_level_rm` and `stonith_level_verify` are left out. The second only calls external predicates.
- Command dispatch, usage output, agent listing, metadata parsing, `stonith_fence` and `stonith_confirm` are left out as I/O.
- qdevice_net.py: certificate, service and temporary-file functions are left out as process and filesystem I/O. So is reading the certificate file in `_get_output_certificate`; the model ends at the path.
- `str.splitlines()` is modelled for the line boundaries Python recognises. The regular expressions are written out as predicates on one line.

## Findings

| source | as written | input that shows it | evidently intended | confidence | as-written member | corrected member |
|---|---|---|---|---|---|---|
| pcs/lib/corosync/config_validators.py:137-149 | the count-mismatch report is built and then discarded, because it is never appended to `report_items` | nodes "a" with one address and "b" with two addresses, transport knet | a report listing each node's address count when names identify nodes, the transport is not udp/udpu and two nodes differ | not executed | CorosyncCreate.AsWrittenDropsCountMismatch, CorosyncCreate.CountMismatchCounterexample | CorosyncCreate.ListWideCountMismatchCount, CorosyncCreate.Create |
