/**
 * Fencing-level bookkeeping of the stonith command: the fencing topology of
 * the cluster configuration is an optional element holding fencing levels,
 * each a record of target node, level index and comma-separated devices.
 * Adding, removing a device from every level, clearing and showing levels
 * edit or read that topology; creating a stonith resource whose agent
 * provides unfencing rewrites its meta attributes.
 *
 * The configuration is read and written back around each command, and a
 * command that fails exits before writing; here the topology is a field of
 * `Cib`, and a failing method leaves it as it was. The questions the
 * command asks about the cluster (is this a stonith resource, is this a
 * node, a unique element id) are parameters.
 */
module Stonith {
  import opened Wrappers
  import opened Strings

  /** A fencing level: the `target`, `index`, `devices` and `id` attributes of a fencing-level element. */
  datatype Level = Level(target: string, index: string, devices: string, id: string)

  datatype StonithError =
    | InvalidLevel(level: string)
    | NotAStonithId(device: string)
    | NotANode(node: string)
    | LevelExists(node: string, level: string, devices: string)

  // ---------------------------------------------------------------------
  // Level strings
  // ---------------------------------------------------------------------

  predicate IsDigit(c: char) {
    '0' <= c <= '9'
  }

  /**
   * The text a whole-string pattern `^X$` has to match: Python 2's `$` also
   * matches just before a newline that ends the string, so a final "\n" is
   * left out.
   */
  function Body(s: string): string {
    if |s| > 0 && s[|s| - 1] == '\n' then s[..|s| - 1] else s
  }

  /** The string matches `^\d+$`. */
  predicate DigitsLine(s: string) {
    |Body(s)| > 0 && AllDigits(Body(s))
  }

  /** The string matches `^0+$`. */
  predicate ZerosLine(s: string) {
    |Body(s)| > 0 && AllZeros(Body(s))
  }

  /** A level the add accepts: digits, and not only zeros. */
  predicate ValidLevel(s: string) {
    DigitsLine(s) && !ZerosLine(s)
  }

  /** Python's `s.lstrip('0')`. */
  function StripZeros(s: string): (r: string)
    ensures |r| <= |s|
    ensures |r| > 0 ==> r[0] != '0'
  {
    if |s| > 0 && s[0] == '0' then StripZeros(s[1..]) else s
  }

  function Pow10(n: nat): (r: nat)
    ensures r >= 1
  {
    if n == 0 then 1 else 10 * Pow10(n - 1)
  }

  /** The decimal value of a string of digits. */
  function DigitsValue(s: string): int {
    if |s| == 0 then 0 else ((s[0] as int) - ('0' as int)) * Pow10(|s| - 1) + DigitsValue(s[1..])
  }

  /** The integer a stored level index stands for. */
  function IndexValue(s: string): int {
    DigitsValue(Body(s))
  }

  predicate AllDigits(s: string) {
    forall i :: 0 <= i < |s| ==> IsDigit(s[i])
  }

  predicate AllZeros(s: string) {
    forall i :: 0 <= i < |s| ==> s[i] == '0'
  }

  /**
   * Stripping the leading zeros of a digit string that is not all zeros
   * leaves a digit string that starts with a non-zero digit and has the
   * same value.
   */
  lemma {:induction false} StripDigits(b: string)
    requires |b| > 0 && AllDigits(b) && !AllZeros(b)
    ensures var r := StripZeros(b);
      |r| > 0 && AllDigits(r) && r[0] != '0' && DigitsValue(r) == DigitsValue(b)
  {
    if b[0] == '0' {
      var t := b[1..];
      assert |t| > 0 && !AllZeros(t);
      assert AllDigits(t) by {
        forall i | 0 <= i < |t| ensures IsDigit(t[i]) { assert t[i] == b[i + 1]; }
      }
      assert DigitsValue(b) == DigitsValue(t) by {
        assert (b[0] as int) - ('0' as int) == 0;
      }
      StripDigits(t);
    }
  }

  /** Leading zeros are stripped from the front only, while a non-zero character remains. */
  lemma {:induction false} StripAppend(b: string, tail: string)
    requires !AllZeros(b)
    ensures StripZeros(b + tail) == StripZeros(b) + tail
  {
    if b[0] == '0' {
      assert (b + tail)[1..] == b[1..] + tail;
      StripAppend(b[1..], tail);
    }
  }

  /** A digit string that starts with a non-zero digit stands for a positive number. */
  lemma DigitsValuePositive(s: string)
    requires |s| > 0 && s[0] != '0' && AllDigits(s)
    ensures DigitsValue(s) > 0
  {
    assert AllDigits(s[1..]) by {
      forall i | 0 <= i < |s[1..]| ensures IsDigit(s[1..][i]) { assert s[1..][i] == s[i + 1]; }
    }
    DigitsValueNonnegative(s[1..]);
    var d := (s[0] as int) - ('0' as int);
    assert d >= 1;
    assert d * Pow10(|s| - 1) >= Pow10(|s| - 1);
  }

  lemma {:induction false} DigitsValueNonnegative(s: string)
    requires AllDigits(s)
    ensures DigitsValue(s) >= 0
  {
    if |s| > 0 {
      assert AllDigits(s[1..]) by {
        forall i | 0 <= i < |s[1..]| ensures IsDigit(s[1..][i]) { assert s[1..][i] == s[i + 1]; }
      }
      DigitsValueNonnegative(s[1..]);
      var d := (s[0] as int) - ('0' as int);
      assert d >= 0;
      assert d * Pow10(|s| - 1) >= 0;
    }
  }

  /**
   * Stripping the zeros of an accepted level keeps it a digit string (with
   * the same final newline, if any), now starting with a non-zero digit and
   * standing for the same positive number.
   */
  lemma StripValidLevel(s: string)
    requires ValidLevel(s)
    ensures var r := StripZeros(s);
      DigitsLine(r) && r[0] != '0' && IndexValue(r) == IndexValue(s) && IndexValue(r) > 0
  {
    var b := Body(s);
    assert AllDigits(b) && !AllZeros(b);
    var tail := s[|b|..];
    assert s == b + tail;
    assert tail == [] || tail == "\n";
    StripAppend(b, tail);
    StripDigits(b);
    var sb := StripZeros(b);
    assert StripZeros(s) == sb + tail;
    assert Body(sb + tail) == sb by {
      if tail == [] {
        assert IsDigit(sb[|sb| - 1]);
        assert sb + tail == sb;
      } else {
        assert (sb + tail)[..|sb + tail| - 1] == sb;
      }
    }
    DigitsValuePositive(sb);
  }

  /** Leading zeros go. */
  lemma LevelExampleZeros()
    ensures ValidLevel("0002") && StripZeros("0002") == "2"
  {
    LevelExampleZerosValid();
    LevelExampleZerosStripped();
  }

  lemma LevelExampleZerosValid()
    ensures ValidLevel("0002")
  {
    var s := ['0', '0', '0', '2'];
    assert s == "0002";
    assert Body(s) == s;
    assert !AllZeros(s) by { assert s[3] == '2'; }
    assert AllDigits(s);
  }

  lemma LevelExampleZerosStripped()
    ensures StripZeros("0002") == "2"
  {
    assert "0002"[1..] == "002" && "002"[1..] == "02" && "02"[1..] == "2";
    assert StripZeros("2") == "2";
    assert StripZeros("02") == "2";
    assert StripZeros("002") == "2";
  }

  /** A final newline passes the digits pattern and is kept. */
  lemma LevelExampleNewline()
    ensures ValidLevel("3\n") && StripZeros("3\n") == "3\n"
  {
    var b := Body("3\n");
    assert b == "3" && |b| == 1 && b[0] == '3';
    assert AllDigits(b) && !AllZeros(b);
  }

  /** Only zeros, the empty string, letters and signs are not levels. */
  lemma LevelExamplesRejected()
    ensures !ValidLevel("000") && !ValidLevel("") && !ValidLevel("1a") && !ValidLevel("-1")
  {
    assert Body("000") == "000";
    assert Body("1a") == "1a" && !IsDigit("1a"[1]);
    assert Body("-1") == "-1" && !IsDigit("-1"[0]);
  }

  // ---------------------------------------------------------------------
  // Adding a level
  // ---------------------------------------------------------------------

  /** The first device of the list that is not a stonith resource. */
  function FirstNonStonith(devices: seq<string>, isStonithResource: string -> bool): (r: Option<string>)
    ensures r.None? <==> forall i :: 0 <= i < |devices| ==> isStonithResource(devices[i])
    ensures r.Some? ==> !isStonithResource(r.value)
    ensures r.Some? ==> exists k :: 0 <= k < |devices| && devices[k] == r.value && (forall j :: 0 <= j < k ==> isStonithResource(devices[j]))
  {
    if |devices| == 0 then None
    else if !isStonithResource(devices[0]) then Some(devices[0])
    else FirstNonStonith(devices[1..], isStonithResource)
  }

  /** Some level has this target, index and devices. */
  predicate HasLevel(levels: seq<Level>, node: string, index: string, devices: string) {
    exists i :: 0 <= i < |levels| && levels[i].target == node && levels[i].index == index && levels[i].devices == devices
  }

  /** Walks the devices in order and returns the first that is not a stonith resource. */
  method FindNonStonith(devices: seq<string>, isStonithResource: string -> bool) returns (r: Option<string>)
    ensures r == FirstNonStonith(devices, isStonithResource)
  {
    var i := 0;
    while i < |devices|
      invariant 0 <= i <= |devices|
      invariant FirstNonStonith(devices, isStonithResource) == FirstNonStonith(devices[i..], isStonithResource)
    {
      if !isStonithResource(devices[i]) {
        return Some(devices[i]);
      }
      assert devices[i..][1..] == devices[i + 1..];
      i := i + 1;
    }
    return None;
  }

  /** Looks for a level with this target, index and devices. */
  method FindLevel(levels: seq<Level>, node: string, index: string, devices: string) returns (found: bool)
    ensures found == HasLevel(levels, node, index, devices)
  {
    var j := 0;
    while j < |levels|
      invariant 0 <= j <= |levels|
      invariant !HasLevel(levels[..j], node, index, devices)
    {
      if levels[j].target == node && levels[j].index == index && levels[j].devices == devices {
        assert levels[j] == levels[..j + 1][j];
        return true;
      }
      assert forall k :: 0 <= k < j ==> levels[..j + 1][k] == levels[..j][k];
      j := j + 1;
    }
    assert levels[..j] == levels;
    return false;
  }

  /**
   * Why adding the level would fail, checked in the source's order: the
   * level string, then (unless forced) the devices and the node, then an
   * existing level with the same target, index and devices.
   */
  function AddError(levels: seq<Level>, level: string, node: string, devices: string, force: bool,
                    isStonithResource: string -> bool, isPacemakerNode: string -> bool, isCorosyncNode: string -> bool): Option<StonithError>
  {
    if !ValidLevel(level) then Some(InvalidLevel(level))
    else if !force && FirstNonStonith(Split(devices, ','), isStonithResource).Some? then
      Some(NotAStonithId(FirstNonStonith(Split(devices, ','), isStonithResource).value))
    else if !force && !isPacemakerNode(node) && !isCorosyncNode(node) then Some(NotANode(node))
    else if HasLevel(levels, node, StripZeros(level), devices) then Some(LevelExists(node, StripZeros(level), devices))
    else None
  }

  /** The level the add appends. */
  function NewLevel(level: string, node: string, devices: string, findUniqueId: string -> string): Level {
    var index := StripZeros(level);
    Level(node, index, devices, findUniqueId("fl-" + node + "-" + index))
  }

  /** A stored level index: digits starting with a non-zero one, as the add stores them. */
  predicate StoredIndex(index: string) {
    DigitsLine(index) && index[0] != '0'
  }

  /** Every level's index is as the add stores it. */
  predicate IndexesStored(levels: seq<Level>) {
    forall i :: 0 <= i < |levels| ==> StoredIndex(levels[i].index)
  }

  /** An accepted add appends a level with a stored index that stands for the level's number. */
  lemma AddStoresIndex(levels: seq<Level>, level: string, node: string, devices: string, force: bool,
                       isStonithResource: string -> bool, isPacemakerNode: string -> bool, isCorosyncNode: string -> bool,
                       findUniqueId: string -> string)
    requires AddError(levels, level, node, devices, force, isStonithResource, isPacemakerNode, isCorosyncNode).None?
    requires IndexesStored(levels)
    ensures var added := NewLevel(level, node, devices, findUniqueId);
      IndexesStored(levels + [added]) && IndexValue(added.index) == IndexValue(level) > 0
  {
    StripValidLevel(level);
  }

  /** Adding the level that was just added fails: it now exists. */
  lemma AddTwice(levels: seq<Level>, level: string, node: string, devices: string, force: bool,
                 isStonithResource: string -> bool, isPacemakerNode: string -> bool, isCorosyncNode: string -> bool,
                 findUniqueId: string -> string)
    requires AddError(levels, level, node, devices, force, isStonithResource, isPacemakerNode, isCorosyncNode).None?
    ensures AddError(levels + [NewLevel(level, node, devices, findUniqueId)], level, node, devices, force,
                     isStonithResource, isPacemakerNode, isCorosyncNode) == Some(LevelExists(node, StripZeros(level), devices))
  {
    var all := levels + [NewLevel(level, node, devices, findUniqueId)];
    assert all[|levels|].target == node && all[|levels|].index == StripZeros(level) && all[|levels|].devices == devices;
  }

  // ---------------------------------------------------------------------
  // Removing a device from every level
  // ---------------------------------------------------------------------

  /** The device list without `device`, in order. */
  function Without(list: seq<string>, device: string): (r: seq<string>)
    ensures forall x :: x in r <==> x in list && x != device
  {
    if |list| == 0 then [] else (if list[0] == device then [] else [list[0]]) + Without(list[1..], device)
  }

  /** Filtering a concatenation filters each part and keeps them in order. */
  lemma {:induction false} WithoutAppend(a: seq<string>, b: seq<string>, device: string)
    ensures Without(a + b, device) == Without(a, device) + Without(b, device)
  {
    if |a| == 0 {
      assert a + b == b;
    } else {
      var head := if a[0] == device then [] else [a[0]];
      assert (a + b)[0] == a[0] && (a + b)[1..] == a[1..] + b;
      calc {
        Without(a + b, device);
        head + Without(a[1..] + b, device);
        { WithoutAppend(a[1..], b, device); }
        head + (Without(a[1..], device) + Without(b, device));
        (head + Without(a[1..], device)) + Without(b, device);
      }
    }
  }

  /** A list that does not hold the device passes the filter unchanged. */
  lemma {:induction false} WithoutAbsent(list: seq<string>, device: string)
    requires device !in list
    ensures Without(list, device) == list
  {
    if |list| > 0 {
      WithoutAbsent(list[1..], device);
    }
  }

  /** Removing b from "a,b,a" leaves both a's, in order. */
  lemma WithoutExample()
    ensures Without(["a", "b", "a"], "b") == ["a", "a"]
  {
    assert ["a", "b", "a"][1..] == ["b", "a"];
    assert ["b", "a"][1..] == ["a"];
    assert ["a"][1..] == [];
  }

  /**
   * A level after `device` is removed: untouched when it does not list the
   * device, gone when the device was all it listed, else listing the other
   * devices in order.
   */
  function LevelWithout(l: Level, device: string): Option<Level> {
    var list := Split(l.devices, ',');
    if device !in list then Some(l)
    else if Without(list, device) == [] then None
    else Some(l.(devices := Join(",", Without(list, device))))
  }

  function LevelsWithout(levels: seq<Level>, device: string): seq<Level> {
    if |levels| == 0 then []
    else
      var last := match LevelWithout(levels[|levels| - 1], device) case None => [] case Some(l) => [l];
      LevelsWithout(levels[..|levels| - 1], device) + last
  }

  /** The topology once `device` is removed: absent when no level remains. */
  function TopologyWithout(topology: Option<seq<Level>>, device: string): Option<seq<Level>> {
    match topology
    case None => None
    case Some(levels) => if LevelsWithout(levels, device) == [] then None else Some(LevelsWithout(levels, device))
  }

  /** A level no longer lists the device once it is removed, and keeps every other device. */
  lemma LevelWithoutDevice(l: Level, device: string)
    ensures match LevelWithout(l, device)
      case None => forall x :: x in Split(l.devices, ',') ==> x == device
      case Some(k) => (k.target == l.target && k.index == l.index && k.id == l.id &&
        (device !in Split(l.devices, ',') ==> k == l) &&
        (device in Split(l.devices, ',') ==> Split(k.devices, ',') == Without(Split(l.devices, ','), device)) &&
        forall x :: x in Split(k.devices, ',') <==> x in Split(l.devices, ',') && x != device)
  {
    var list := Split(l.devices, ',');
    var rest := Without(list, device);
    if device in list && rest != [] {
      forall i | 0 <= i < |rest| ensures ',' !in rest[i] {
        assert rest[i] in list;
      }
      SplitJoin(rest, ',');
    }
  }

  /** Every level that does not list the device is kept as it was. */
  lemma {:induction false} LevelsWithoutKeeps(levels: seq<Level>, device: string)
    ensures forall l :: l in levels && device !in Split(l.devices, ',') ==> l in LevelsWithout(levels, device)
  {
    if |levels| > 0 {
      var init := levels[..|levels| - 1];
      LevelsWithoutKeeps(init, device);
      forall l | l in levels && device !in Split(l.devices, ',') ensures l in LevelsWithout(levels, device) {
        if l != levels[|levels| - 1] {
          assert l in init;
        }
      }
    }
  }

  /** Every kept level is a level of the topology with the device gone from its list. */
  lemma {:induction false} LevelsWithoutDevice(levels: seq<Level>, device: string)
    ensures forall k :: k in LevelsWithout(levels, device) ==>
      (exists l :: l in levels && LevelWithout(l, device) == Some(k)) && device !in Split(k.devices, ',')
  {
    if |levels| > 0 {
      var init := levels[..|levels| - 1];
      var last := levels[|levels| - 1];
      LevelsWithoutDevice(init, device);
      LevelWithoutDevice(last, device);
      forall k | k in LevelsWithout(levels, device)
        ensures (exists l :: l in levels && LevelWithout(l, device) == Some(k)) && device !in Split(k.devices, ',')
      {
        if k in LevelsWithout(init, device) {
          var l :| l in init && LevelWithout(l, device) == Some(k);
          assert l in levels;
          LevelWithoutDevice(l, device);
        } else {
          assert LevelWithout(last, device) == Some(k);
        }
      }
    }
  }

  /** The topology goes away exactly when every level listed only the device (or there were none). */
  lemma {:induction false} TopologyRemoved(levels: seq<Level>, device: string)
    ensures LevelsWithout(levels, device) == [] <==> forall i :: 0 <= i < |levels| ==> LevelWithout(levels[i], device).None?
  {
    if |levels| > 0 {
      var init := levels[..|levels| - 1];
      TopologyRemoved(init, device);
      if LevelsWithout(levels, device) == [] {
        assert LevelsWithout(init, device) == [];
        forall i | 0 <= i < |levels| ensures LevelWithout(levels[i], device).None? {
          if i < |levels| - 1 { assert levels[i] == init[i]; }
        }
      }
    }
  }

  // ---------------------------------------------------------------------
  // Clearing levels
  // ---------------------------------------------------------------------

  /** The levels that clearing `node` keeps: those neither targeting it nor with it as their whole device list. */
  function LevelsNotFor(levels: seq<Level>, node: string): seq<Level> {
    if |levels| == 0 then []
    else
      var l := levels[|levels| - 1];
      LevelsNotFor(levels[..|levels| - 1], node) + (if l.target == node || l.devices == node then [] else [l])
  }

  /** Clearing keeps exactly the levels that neither target the node nor list only it. */
  lemma {:induction false} ClearKeeps(levels: seq<Level>, node: string)
    ensures forall l :: l in LevelsNotFor(levels, node) <==> l in levels && l.target != node && l.devices != node
  {
    if |levels| > 0 {
      var init := levels[..|levels| - 1];
      ClearKeeps(init, node);
      assert levels == init + [levels[|levels| - 1]];
    }
  }

  /** Clearing a node twice is clearing it once. */
  lemma {:induction false} ClearIdempotent(levels: seq<Level>, node: string)
    ensures LevelsNotFor(LevelsNotFor(levels, node), node) == LevelsNotFor(levels, node)
  {
    if |levels| > 0 {
      var init := levels[..|levels| - 1];
      var kept := LevelsNotFor(levels, node);
      ClearIdempotent(init, node);
      if kept != LevelsNotFor(init, node) {
        assert kept[..|kept| - 1] == LevelsNotFor(init, node);
      }
    }
  }

  // ---------------------------------------------------------------------
  // Showing levels
  // ---------------------------------------------------------------------

  /** What the listing shows of a level under its node: its index and devices. */
  type Entry = (string, string)

  /** The entries of the levels that target `node`, in order. */
  function Entries(levels: seq<Level>, node: string): seq<Entry> {
    if |levels| == 0 then []
    else
      var l := levels[|levels| - 1];
      Entries(levels[..|levels| - 1], node) + (if l.target == node then [(l.index, l.devices)] else [])
  }

  /** The targets of the levels, each once, in order of first appearance. */
  function TargetOrder(levels: seq<Level>): seq<string> {
    if |levels| == 0 then []
    else
      var order := TargetOrder(levels[..|levels| - 1]);
      var t := levels[|levels| - 1].target;
      if t in order then order else order + [t]
  }

  /** The dictionary from target to entries that the listing fills one level at a time. */
  function Grouped(levels: seq<Level>): map<string, seq<Entry>> {
    if |levels| == 0 then map[]
    else
      var g := Grouped(levels[..|levels| - 1]);
      var l := levels[|levels| - 1];
      if l.target in g then g[l.target := g[l.target] + [(l.index, l.devices)]] else g[l.target := [(l.index, l.devices)]]
  }

  predicate Distinct(xs: seq<string>) {
    forall i, j :: 0 <= i < j < |xs| ==> xs[i] != xs[j]
  }

  /** The targets' order lists each target once. */
  lemma {:induction false} TargetOrderDistinct(levels: seq<Level>)
    ensures Distinct(TargetOrder(levels))
  {
    if |levels| > 0 {
      TargetOrderDistinct(levels[..|levels| - 1]);
    }
  }

  /** The targets' order lists exactly the targets of the levels. */
  lemma {:induction false} TargetOrderMembers(levels: seq<Level>)
    ensures forall n :: n in TargetOrder(levels) <==> exists i :: 0 <= i < |levels| && levels[i].target == n
  {
    if |levels| > 0 {
      var init := levels[..|levels| - 1];
      TargetOrderMembers(init);
      forall n ensures n in TargetOrder(levels) <==> exists i :: 0 <= i < |levels| && levels[i].target == n {
        if n in TargetOrder(init) {
          var i :| 0 <= i < |init| && init[i].target == n;
          assert levels[i] == init[i];
        }
      }
    }
  }

  /**
   * The dictionary has a key for each target in the targets' order, and a
   * target's value is the entries of its levels in order.
   */
  lemma {:induction false} GroupedIs(levels: seq<Level>)
    ensures forall n :: n in Grouped(levels) <==> n in TargetOrder(levels)
    ensures forall n :: n in Grouped(levels) ==> Grouped(levels)[n] == Entries(levels, n)
    ensures forall n :: n !in Grouped(levels) ==> Entries(levels, n) == []
  {
    if |levels| > 0 {
      GroupedIs(levels[..|levels| - 1]);
    }
  }

  /** Inserts `x` before the first name not below it. */
  function InsertNode(sorted: seq<string>, x: string): (r: seq<string>)
    ensures |r| == |sorted| + 1 && (r[0] == x || (|sorted| > 0 && r[0] == sorted[0]))
    ensures multiset(r) == multiset(sorted) + multiset{x}
  {
    if |sorted| == 0 || LessOrEqual(x, sorted[0]) then [x] + sorted
    else
      assert sorted == [sorted[0]] + sorted[1..];
      [sorted[0]] + InsertNode(sorted[1..], x)
  }

  /** The node names in Python's string order (`list.sort()`). */
  function SortNodes(xs: seq<string>): (r: seq<string>)
    ensures multiset(r) == multiset(xs)
  {
    if |xs| == 0 then []
    else
      assert xs == xs[..|xs| - 1] + [xs[|xs| - 1]];
      InsertNode(SortNodes(xs[..|xs| - 1]), xs[|xs| - 1])
  }

  /** Each name is strictly below the next. */
  predicate Ascending(xs: seq<string>) {
    forall i :: 0 <= i < |xs| - 1 ==> Less(xs[i], xs[i + 1])
  }

  lemma {:induction false} InsertNodeAscending(sorted: seq<string>, x: string)
    requires Ascending(sorted) && x !in sorted
    ensures Ascending(InsertNode(sorted, x))
  {
    var r := InsertNode(sorted, x);
    if |sorted| == 0 {
    } else if LessOrEqual(x, sorted[0]) {
      assert x != sorted[0];
      forall i | 0 <= i < |r| - 1 ensures Less(r[i], r[i + 1]) {
        if i > 0 { assert r[i] == sorted[i - 1] && r[i + 1] == sorted[i]; }
      }
    } else {
      LessTotal(x, sorted[0]);
      var rest := sorted[1..];
      assert x !in rest;
      assert Ascending(rest) by {
        forall i | 0 <= i < |rest| - 1 ensures Less(rest[i], rest[i + 1]) {
          assert rest[i] == sorted[i + 1] && rest[i + 1] == sorted[i + 2];
        }
      }
      InsertNodeAscending(rest, x);
      var tail := InsertNode(rest, x);
      assert r == [sorted[0]] + tail;
      forall i | 0 <= i < |r| - 1 ensures Less(r[i], r[i + 1]) {
        if i == 0 {
          assert tail[0] == x || tail[0] == sorted[1];
        } else {
          assert r[i] == tail[i - 1] && r[i + 1] == tail[i];
        }
      }
    }
  }

  /** Sorting distinct names puts each strictly below the next. */
  lemma {:induction false} SortNodesAscending(xs: seq<string>)
    requires Distinct(xs)
    ensures Ascending(SortNodes(xs))
  {
    if |xs| > 0 {
      var init := xs[..|xs| - 1];
      var x := xs[|xs| - 1];
      assert Distinct(init) by {
        forall i, j | 0 <= i < j < |init| ensures init[i] != init[j] {
          assert init[i] == xs[i] && init[j] == xs[j];
        }
      }
      SortNodesAscending(init);
      assert x !in init by {
        forall i | 0 <= i < |init| ensures init[i] != x {
          assert init[i] == xs[i];
        }
      }
      assert x !in multiset(SortNodes(init));
      InsertNodeAscending(SortNodes(init), x);
    }
  }

  /** The number a level index stands for, as `int(index)` reads it. */
  function Key(e: Entry): int {
    IndexValue(e.0)
  }

  /** Inserts `e` after every entry whose key is not above its own. */
  function InsertEntry(sorted: seq<Entry>, e: Entry): (r: seq<Entry>)
    ensures |r| == |sorted| + 1 && (r[0] == e || (|sorted| > 0 && r[0] == sorted[0]))
  {
    if |sorted| == 0 || Key(e) < Key(sorted[0]) then [e] + sorted
    else [sorted[0]] + InsertEntry(sorted[1..], e)
  }

  /** The entries ordered by `int(index)`; Python's sort is stable, and so is this. */
  function SortByIndex(xs: seq<Entry>): seq<Entry> {
    if |xs| == 0 then [] else InsertEntry(SortByIndex(xs[..|xs| - 1]), xs[|xs| - 1])
  }

  lemma {:induction false} InsertEntryPermutes(sorted: seq<Entry>, e: Entry)
    ensures multiset(InsertEntry(sorted, e)) == multiset(sorted) + multiset{e}
  {
    if |sorted| > 0 && Key(e) >= Key(sorted[0]) {
      InsertEntryPermutes(sorted[1..], e);
      assert sorted == [sorted[0]] + sorted[1..];
    }
  }

  /** Sorting by index keeps the same entries, each as often. */
  lemma {:induction false} SortByIndexPermutes(xs: seq<Entry>)
    ensures multiset(SortByIndex(xs)) == multiset(xs)
  {
    if |xs| > 0 {
      var init := xs[..|xs| - 1];
      SortByIndexPermutes(init);
      PermutesStep(init, xs[|xs| - 1]);
      assert init + [xs[|xs| - 1]] == xs;
    }
  }

  lemma PermutesStep(init: seq<Entry>, x: Entry)
    requires multiset(SortByIndex(init)) == multiset(init)
    ensures multiset(SortByIndex(init + [x])) == multiset(init + [x])
  {
    assert (init + [x])[..|init|] == init;
    InsertEntryPermutes(SortByIndex(init), x);
  }

  predicate SortedByKey(xs: seq<Entry>) {
    forall i :: 0 <= i < |xs| - 1 ==> Key(xs[i]) <= Key(xs[i + 1])
  }

  /** The entries with key `k`, in order. */
  function WithKey(xs: seq<Entry>, k: int): seq<Entry> {
    if |xs| == 0 then [] else (if Key(xs[0]) == k then [xs[0]] else []) + WithKey(xs[1..], k)
  }

  lemma {:induction false} WithKeyAppend(a: seq<Entry>, b: seq<Entry>, k: int)
    ensures WithKey(a + b, k) == WithKey(a, k) + WithKey(b, k)
  {
    if |a| > 0 {
      assert (a + b)[0] == a[0] && (a + b)[1..] == a[1..] + b;
      var head := if Key(a[0]) == k then [a[0]] else [];
      assert WithKey(a + b, k) == head + WithKey(a[1..] + b, k);
      WithKeyAppend(a[1..], b, k);
      assert WithKey(a, k) == head + WithKey(a[1..], k);
    } else {
      assert a + b == b;
    }
  }

  lemma {:induction false} WithKeyBelow(xs: seq<Entry>, k: int)
    requires SortedByKey(xs) && |xs| > 0 && k < Key(xs[0])
    ensures WithKey(xs, k) == []
  {
    if |xs| > 1 {
      assert SortedByKey(xs[1..]) by {
        forall i | 0 <= i < |xs| - 2 ensures Key(xs[1..][i]) <= Key(xs[1..][i + 1]) {
          assert xs[1..][i] == xs[i + 1] && xs[1..][i + 1] == xs[i + 2];
        }
      }
      assert Key(xs[0]) <= Key(xs[1]) && xs[1..][0] == xs[1];
      WithKeyBelow(xs[1..], k);
    }
  }

  lemma SortedTail(sorted: seq<Entry>)
    requires SortedByKey(sorted) && |sorted| > 0
    ensures SortedByKey(sorted[1..])
  {
    forall i | 0 <= i < |sorted| - 2 ensures Key(sorted[1..][i]) <= Key(sorted[1..][i + 1]) {
      assert sorted[1..][i] == sorted[i + 1] && sorted[1..][i + 1] == sorted[i + 2];
    }
  }

  lemma {:induction false} InsertEntrySorted(sorted: seq<Entry>, e: Entry)
    requires SortedByKey(sorted)
    ensures SortedByKey(InsertEntry(sorted, e))
  {
    var r := InsertEntry(sorted, e);
    if |sorted| > 0 && Key(e) >= Key(sorted[0]) {
      var rest := sorted[1..];
      SortedTail(sorted);
      InsertEntrySorted(rest, e);
      var tail := InsertEntry(rest, e);
      assert r == [sorted[0]] + tail;
      assert Key(r[0]) <= Key(r[1]) by {
        assert r[1] == tail[0];
        if |rest| > 0 { assert rest[0] == sorted[1]; }
      }
      forall i | 1 <= i < |r| - 1 ensures Key(r[i]) <= Key(r[i + 1]) {
        assert r[i] == tail[i - 1] && r[i + 1] == tail[i];
      }
    }
  }

  lemma WithKeyCons(x: Entry, xs: seq<Entry>, k: int)
    ensures WithKey([x] + xs, k) == (if Key(x) == k then [x] else []) + WithKey(xs, k)
  {
    assert ([x] + xs)[0] == x && ([x] + xs)[1..] == xs;
  }

  lemma {:induction false} InsertEntryWithKey(sorted: seq<Entry>, e: Entry, k: int)
    requires SortedByKey(sorted)
    ensures WithKey(InsertEntry(sorted, e), k) == WithKey(sorted, k) + (if Key(e) == k then [e] else [])
  {
    if |sorted| == 0 {
      WithKeyCons(e, [], k);
    } else if Key(e) < Key(sorted[0]) {
      WithKeyCons(e, sorted, k);
      if Key(e) == k {
        WithKeyBelow(sorted, k);
      }
    } else {
      SortedTail(sorted);
      InsertEntryWithKey(sorted[1..], e, k);
      InsertLaterWithKey(sorted, e, k);
    }
  }

  /** Inserting past the first entry keeps that entry in front. */
  lemma InsertLaterWithKey(sorted: seq<Entry>, e: Entry, k: int)
    requires |sorted| > 0 && Key(e) >= Key(sorted[0])
    requires WithKey(InsertEntry(sorted[1..], e), k) == WithKey(sorted[1..], k) + (if Key(e) == k then [e] else [])
    ensures WithKey(InsertEntry(sorted, e), k) == WithKey(sorted, k) + (if Key(e) == k then [e] else [])
  {
    WithKeyCons(sorted[0], InsertEntry(sorted[1..], e), k);
    WithKeyCons(sorted[0], sorted[1..], k);
    assert [sorted[0]] + sorted[1..] == sorted;
  }

  /**
   * Sorting by index orders the entries by key and keeps, for each key, the
   * entries with that key in their original order.
   */
  lemma {:induction false} SortByIndexStable(xs: seq<Entry>, k: int)
    ensures WithKey(SortByIndex(xs), k) == WithKey(xs, k)
  {
    if |xs| > 0 {
      var init := xs[..|xs| - 1];
      SortByIndexStable(init, k);
      StableStep(init, xs[|xs| - 1], k);
      assert init + [xs[|xs| - 1]] == xs;
    }
  }

  /** Sorting one more entry keeps the entries with key `k` in their order. */
  lemma StableStep(init: seq<Entry>, x: Entry, k: int)
    requires WithKey(SortByIndex(init), k) == WithKey(init, k)
    ensures WithKey(SortByIndex(init + [x]), k) == WithKey(init + [x], k)
  {
    var tail := if Key(x) == k then [x] else [];
    assert (init + [x])[..|init|] == init;
    SortByIndexSorted(init);
    InsertEntryWithKey(SortByIndex(init), x, k);
    WithKeyAppend(init, [x], k);
    assert [x][1..] == [];
    assert WithKey([x], k) == tail;
  }

  /** Sorting by index orders the entries by key. */
  lemma {:induction false} SortByIndexSorted(xs: seq<Entry>)
    ensures SortedByKey(SortByIndex(xs))
  {
    if |xs| > 0 {
      SortByIndexSorted(xs[..|xs| - 1]);
      InsertEntrySorted(SortByIndex(xs[..|xs| - 1]), xs[|xs| - 1]);
    }
  }

  /** The listing: each target once, in order, with its entries sorted by index. */
  function GroupsFor(nodes: seq<string>, levels: seq<Level>): seq<(string, seq<Entry>)> {
    if |nodes| == 0 then []
    else
      var n := nodes[|nodes| - 1];
      GroupsFor(nodes[..|nodes| - 1], levels) + [(n, SortByIndex(Entries(levels, n)))]
  }

  lemma {:induction false} GroupsForIs(nodes: seq<string>, levels: seq<Level>)
    ensures |GroupsFor(nodes, levels)| == |nodes|
    ensures forall i :: 0 <= i < |nodes| ==> GroupsFor(nodes, levels)[i] == (nodes[i], SortByIndex(Entries(levels, nodes[i])))
  {
    if |nodes| > 0 {
      var init := nodes[..|nodes| - 1];
      var shown := GroupsFor(init, levels);
      GroupsForIs(init, levels);
      forall i | 0 <= i < |init| ensures GroupsFor(nodes, levels)[i] == (nodes[i], SortByIndex(Entries(levels, nodes[i]))) {
        assert GroupsFor(nodes, levels)[i] == shown[i] && init[i] == nodes[i];
      }
    }
  }

  function ShowGroups(levels: seq<Level>): seq<(string, seq<Entry>)> {
    GroupsFor(SortNodes(TargetOrder(levels)), levels)
  }

  /** Each target of the listing is strictly below the next. */
  predicate TargetsAscending(g: seq<(string, seq<Entry>)>) {
    forall i :: 0 <= i < |g| - 1 ==> Less(g[i].0, g[i + 1].0)
  }

  /**
   * Under each target are exactly the entries of its levels, sorted by
   * index, with entries of equal index in their configuration order.
   */
  ghost predicate EntriesShown(g: seq<(string, seq<Entry>)>, levels: seq<Level>) {
    forall i :: 0 <= i < |g| ==>
      multiset(g[i].1) == multiset(Entries(levels, g[i].0)) && SortedByKey(g[i].1) &&
      forall k :: WithKey(g[i].1, k) == WithKey(Entries(levels, g[i].0), k)
  }

  /** The listing names the targets in strictly ascending order. */
  lemma ShowGroupsAscending(levels: seq<Level>)
    ensures TargetsAscending(ShowGroups(levels))
  {
    var nodes := SortNodes(TargetOrder(levels));
    var g := ShowGroups(levels);
    TargetOrderDistinct(levels);
    SortNodesAscending(TargetOrder(levels));
    GroupsForIs(nodes, levels);
    forall i | 0 <= i < |g| - 1 ensures Less(g[i].0, g[i + 1].0) {
      assert g[i].0 == nodes[i] && g[i + 1].0 == nodes[i + 1];
    }
  }

  /** A sorted node is a target of some level. */
  lemma SortedNodeIsTarget(levels: seq<Level>, i: int)
    requires 0 <= i < |SortNodes(TargetOrder(levels))|
    ensures exists j :: 0 <= j < |levels| && levels[j].target == SortNodes(TargetOrder(levels))[i]
  {
    var nodes := SortNodes(TargetOrder(levels));
    TargetOrderMembers(levels);
    assert nodes[i] in multiset(nodes);
    assert nodes[i] in TargetOrder(levels);
  }

  /** A target of some level is among the sorted nodes. */
  lemma TargetIsSortedNode(levels: seq<Level>, j: int)
    requires 0 <= j < |levels|
    ensures exists i :: 0 <= i < |SortNodes(TargetOrder(levels))| && SortNodes(TargetOrder(levels))[i] == levels[j].target
  {
    var nodes := SortNodes(TargetOrder(levels));
    TargetOrderMembers(levels);
    assert levels[j].target in TargetOrder(levels);
    assert levels[j].target in multiset(nodes);
  }

  /** The listing names only targets of some level. */
  lemma ShowGroupsSound(levels: seq<Level>)
    ensures forall i :: 0 <= i < |ShowGroups(levels)| ==>
      exists j :: 0 <= j < |levels| && levels[j].target == ShowGroups(levels)[i].0
  {
    var nodes := SortNodes(TargetOrder(levels));
    GroupsForIs(nodes, levels);
    forall i | 0 <= i < |ShowGroups(levels)| ensures exists j :: 0 <= j < |levels| && levels[j].target == ShowGroups(levels)[i].0 {
      SortedNodeIsTarget(levels, i);
    }
  }

  /** The listing names every target of some level. */
  lemma ShowGroupsComplete(levels: seq<Level>)
    ensures forall j :: 0 <= j < |levels| ==>
      exists i :: 0 <= i < |ShowGroups(levels)| && ShowGroups(levels)[i].0 == levels[j].target
  {
    var nodes := SortNodes(TargetOrder(levels));
    GroupsForIs(nodes, levels);
    forall j | 0 <= j < |levels| ensures exists i :: 0 <= i < |ShowGroups(levels)| && ShowGroups(levels)[i].0 == levels[j].target {
      TargetIsSortedNode(levels, j);
      var i :| 0 <= i < |nodes| && nodes[i] == levels[j].target;
      assert ShowGroups(levels)[i].0 == nodes[i];
    }
  }

  /** Under each target the listing shows its levels' entries, sorted stably by index. */
  lemma ShowGroupsEntries(levels: seq<Level>)
    ensures EntriesShown(ShowGroups(levels), levels)
  {
    var nodes := SortNodes(TargetOrder(levels));
    var g := ShowGroups(levels);
    GroupsForIs(nodes, levels);
    forall i | 0 <= i < |g|
      ensures multiset(g[i].1) == multiset(Entries(levels, g[i].0)) && SortedByKey(g[i].1)
      ensures forall k :: WithKey(g[i].1, k) == WithKey(Entries(levels, g[i].0), k)
    {
      forall k ensures WithKey(g[i].1, k) == WithKey(Entries(levels, g[i].0), k) {
        SortByIndexStable(Entries(levels, g[i].0), k);
      }
      SortByIndexSorted(Entries(levels, g[i].0));
      SortByIndexPermutes(Entries(levels, g[i].0));
    }
  }

  /** The two lines headings and entries print as. */
  function LevelLines(entries: seq<Entry>): seq<string> {
    if |entries| == 0 then []
    else
      var e := entries[|entries| - 1];
      LevelLines(entries[..|entries| - 1]) + ["  Level " + e.0 + " - " + e.1]
  }

  function Render(groups: seq<(string, seq<Entry>)>): seq<string> {
    if |groups| == 0 then []
    else
      var g := groups[|groups| - 1];
      Render(groups[..|groups| - 1]) + [" Node: " + g.0] + LevelLines(g.1)
  }

  /** Rendering one more group adds its heading and its sorted entries' lines. */
  lemma RenderStep(nodes: seq<string>, k: int, levels: seq<Level>)
    requires 0 <= k < |nodes|
    ensures Render(GroupsFor(nodes[..k + 1], levels)) ==
      Render(GroupsFor(nodes[..k], levels)) + [" Node: " + nodes[k]] + LevelLines(SortByIndex(Entries(levels, nodes[k])))
  {
    assert nodes[..k + 1][..k] == nodes[..k];
    var shown := GroupsFor(nodes[..k], levels);
    var added := shown + [(nodes[k], SortByIndex(Entries(levels, nodes[k])))];
    assert GroupsFor(nodes[..k + 1], levels) == added;
    assert added[..|shown|] == shown;
  }

  /** Each sorted node is a key of the dictionary, holding that target's entries. */
  lemma SortedNodeIsGroup(levels: seq<Level>, k: int)
    requires 0 <= k < |SortNodes(TargetOrder(levels))|
    ensures var node := SortNodes(TargetOrder(levels))[k];
      node in Grouped(levels) && Grouped(levels)[node] == Entries(levels, node)
  {
    var nodes := SortNodes(TargetOrder(levels));
    GroupedIs(levels);
    assert nodes[k] in multiset(nodes);
  }

  /** Fills the dictionary from target to entries, one level at a time, noting each new target. */
  method GroupLevels(levels: seq<Level>) returns (groups: map<string, seq<Entry>>, order: seq<string>)
    ensures groups == Grouped(levels) && order == TargetOrder(levels)
  {
    groups := map[];
    order := [];
    for i := 0 to |levels|
      invariant groups == Grouped(levels[..i]) && order == TargetOrder(levels[..i])
    {
      assert levels[..i + 1][..i] == levels[..i];
      GroupedIs(levels[..i]);
      var l := levels[i];
      if l.target in groups {
        groups := groups[l.target := groups[l.target] + [(l.index, l.devices)]];
      } else {
        groups := groups[l.target := [(l.index, l.devices)]];
        order := order + [l.target];
      }
    }
    assert levels[..|levels|] == levels;
  }

  /** Prints one target's heading and its levels, sorted by index. */
  method NodeLines(node: string, entries: seq<Entry>) returns (lines: seq<string>)
    ensures lines == [" Node: " + node] + LevelLines(SortByIndex(entries))
  {
    var sorted := SortByIndex(entries);
    lines := [" Node: " + node];
    for j := 0 to |sorted|
      invariant lines == [" Node: " + node] + LevelLines(sorted[..j])
    {
      assert sorted[..j + 1][..j] == sorted[..j];
      lines := lines + ["  Level " + sorted[j].0 + " - " + sorted[j].1];
    }
    assert sorted[..|sorted|] == sorted;
  }

  /** Every node is a key of the dictionary, holding that target's entries. */
  predicate GroupsHold(nodes: seq<string>, groups: map<string, seq<Entry>>, levels: seq<Level>) {
    forall i :: 0 <= i < |nodes| ==> nodes[i] in groups && groups[nodes[i]] == Entries(levels, nodes[i])
  }

  /** The lines of one more node extend the rendering of the nodes before it. */
  lemma RenderNext(nodes: seq<string>, k: int, groups: map<string, seq<Entry>>, levels: seq<Level>)
    requires GroupsHold(nodes, groups, levels) && 0 <= k < |nodes|
    ensures nodes[k] in groups
    ensures Render(GroupsFor(nodes[..k + 1], levels)) ==
      Render(GroupsFor(nodes[..k], levels)) + ([" Node: " + nodes[k]] + LevelLines(SortByIndex(groups[nodes[k]])))
  {
    RenderStep(nodes, k, levels);
  }

  /** Prints each node's heading and levels, in the order given. */
  method RenderNodes(nodes: seq<string>, groups: map<string, seq<Entry>>, levels: seq<Level>) returns (lines: seq<string>)
    requires GroupsHold(nodes, groups, levels)
    ensures lines == Render(GroupsFor(nodes, levels))
  {
    lines := [];
    for k := 0 to |nodes|
      invariant lines == Render(GroupsFor(nodes[..k], levels))
    {
      RenderNext(nodes, k, groups, levels);
      var block := NodeLines(nodes[k], groups[nodes[k]]);
      lines := lines + block;
    }
    assert nodes[..|nodes|] == nodes;
  }

  /** The sorted targets are keys of the dictionary, each holding its entries. */
  lemma SortedNodesHold(levels: seq<Level>)
    ensures GroupsHold(SortNodes(TargetOrder(levels)), Grouped(levels), levels)
  {
    forall k | 0 <= k < |SortNodes(TargetOrder(levels))| {
      SortedNodeIsGroup(levels, k);
    }
  }

  /**
   * The listing of the levels: groups them by target in a dictionary, then
   * prints each target in sorted order followed by its levels sorted by index.
   */
  method ShowLevels(levels: seq<Level>) returns (lines: seq<string>)
    ensures lines == Render(ShowGroups(levels))
  {
    var groups, order := GroupLevels(levels);
    if |order| == 0 {
      return [];
    }
    var nodes := SortNodes(order);
    SortedNodesHold(levels);
    lines := RenderNodes(nodes, groups, levels);
  }

  // ---------------------------------------------------------------------
  // The fencing topology
  // ---------------------------------------------------------------------

  function LevelsOf(topology: Option<seq<Level>>): seq<Level> {
    match topology case None => [] case Some(levels) => levels
  }

  /** The cluster configuration, as far as fencing levels go. */
  class Cib {
    /** The fencing-topology element's levels, or None when there is no such element. */
    var topology: Option<seq<Level>>

    constructor(topology: Option<seq<Level>>)
      ensures this.topology == topology
    {
      this.topology := topology;
    }

    /**
     * Adds a fencing level after checking the level string, the devices and
     * the node (unless forced) and that the same level does not exist; the
     * topology is created first when absent.
     */
    method LevelAdd(level: string, node: string, devices: string, force: bool,
                    isStonithResource: string -> bool, isPacemakerNode: string -> bool, isCorosyncNode: string -> bool,
                    findUniqueId: string -> string)
      returns (error: Option<StonithError>)
      modifies this
      ensures error == AddError(LevelsOf(old(topology)), level, node, devices, force, isStonithResource, isPacemakerNode, isCorosyncNode)
      ensures error.Some? ==> topology == old(topology)
      ensures error.None? ==> topology == Some(LevelsOf(old(topology)) + [NewLevel(level, node, devices, findUniqueId)])
    {
      if !ValidLevel(level) {
        return Some(InvalidLevel(level));
      }
      var index := StripZeros(level);
      if !force {
        var bad := FindNonStonith(Split(devices, ','), isStonithResource);
        if bad.Some? {
          return Some(NotAStonithId(bad.value));
        }
        if !isPacemakerNode(node) && !isCorosyncNode(node) {
          return Some(NotANode(node));
        }
      }
      var levels := LevelsOf(topology);
      var duplicate := FindLevel(levels, node, index, devices);
      if duplicate {
        return Some(LevelExists(node, index, devices));
      }
      topology := Some(levels + [Level(node, index, devices, findUniqueId("fl-" + node + "-" + index))]);
      error := None;
    }

    /**
     * Removes `device` from every level's device list, removing the levels
     * left without devices and then the topology when no level remains.
     */
    method LevelRmDevice(device: string)
      modifies this
      ensures topology == TopologyWithout(old(topology), device)
    {
      if topology.None? {
        return;
      }
      var levels := topology.value;
      var kept: seq<Level> := [];
      var i := 0;
      while i < |levels|
        invariant 0 <= i <= |levels|
        invariant kept == LevelsWithout(levels[..i], device)
      {
        assert levels[..i + 1][..i] == levels[..i];
        var list := Split(levels[i].devices, ',');
        if device in list {
          var rest := Without(list, device);
          if rest != [] {
            kept := kept + [levels[i].(devices := Join(",", rest))];
          }
        } else {
          kept := kept + [levels[i]];
        }
        i := i + 1;
      }
      assert levels[..i] == levels;
      if kept == [] {
        topology := None;
      } else {
        topology := Some(kept);
      }
    }

    /** Removes every level: the topology element stays, empty. */
    method LevelClearAll()
      modifies this
      ensures topology == if old(topology).None? then None else Some([])
    {
      if topology.None? {
        return;
      }
      topology := Some([]);
    }

    /** Removes the levels that target `node` or whose whole device list is `node`. */
    method LevelClear(node: string)
      modifies this
      ensures topology == if old(topology).None? then None else Some(LevelsNotFor(old(topology).value, node))
    {
      if topology.None? {
        return;
      }
      var levels := topology.value;
      if |levels| == 0 {
        return;
      }
      var kept: seq<Level> := [];
      var i := 0;
      while i < |levels|
        invariant 0 <= i <= |levels|
        invariant kept == LevelsNotFor(levels[..i], node)
      {
        assert levels[..i + 1][..i] == levels[..i];
        if !(levels[i].target == node || levels[i].devices == node) {
          kept := kept + [levels[i]];
        }
        i := i + 1;
      }
      assert levels[..i] == levels;
      topology := Some(kept);
    }

    /** Lists the levels of the topology. */
    method LevelShow() returns (lines: seq<string>)
      ensures lines == Render(ShowGroups(LevelsOf(topology)))
    {
      lines := ShowLevels(LevelsOf(topology));
    }
  }

  // ---------------------------------------------------------------------
  // Meta attributes of a new stonith resource
  // ---------------------------------------------------------------------

  const ProvidesUnfencing: string := "provides=unfencing"

  /** The meta entries that do not set `provides`, in order. */
  function WithoutProvides(meta: seq<string>): (r: seq<string>)
    ensures forall x :: x in r <==> x in meta && !StartsWith(x, "provides=")
  {
    if |meta| == 0 then []
    else
      var x := meta[|meta| - 1];
      WithoutProvides(meta[..|meta| - 1]) + (if StartsWith(x, "provides=") then [] else [x])
  }

  /**
   * The meta entries of a new stonith resource: when the agent's metadata
   * is known and says it provides unfencing, every `provides=` entry is
   * replaced by one `provides=unfencing` at the end.
   */
  method StonithCreateMeta(meta: seq<string>, hasMetadata: bool, providesUnfencing: bool) returns (result: seq<string>)
    ensures result == if hasMetadata && providesUnfencing then WithoutProvides(meta) + [ProvidesUnfencing] else meta
  {
    result := meta;
    if hasMetadata && providesUnfencing {
      result := WithoutProvides(result);
      result := result + [ProvidesUnfencing];
    }
  }

  /** After the rewrite `provides=unfencing` is last and the only `provides=` entry, and rewriting again changes nothing. */
  lemma UnfencingMeta(meta: seq<string>)
    ensures var r := WithoutProvides(meta) + [ProvidesUnfencing];
      r[|r| - 1] == ProvidesUnfencing &&
      (forall i :: 0 <= i < |r| - 1 ==> !StartsWith(r[i], "provides=")) &&
      WithoutProvides(r) + [ProvidesUnfencing] == r
  {
    var kept := WithoutProvides(meta);
    var r := kept + [ProvidesUnfencing];
    forall i | 0 <= i < |r| - 1 ensures !StartsWith(r[i], "provides=") {
      assert r[i] in kept;
    }
    assert StartsWith(ProvidesUnfencing, "provides=");
    assert r[..|r| - 1] == kept;
    WithoutProvidesKeeps(kept);
  }

  /** Filtering a concatenation filters each part and keeps them in order. */
  lemma {:induction false} WithoutProvidesAppend(a: seq<string>, b: seq<string>)
    ensures WithoutProvides(a + b) == WithoutProvides(a) + WithoutProvides(b)
    decreases |b|
  {
    if |b| == 0 {
      assert a + b == a;
    } else {
      var init := b[..|b| - 1];
      var x := b[|b| - 1];
      var tail := if StartsWith(x, "provides=") then [] else [x];
      assert (a + b)[..|a + b| - 1] == a + init && (a + b)[|a + b| - 1] == x;
      calc {
        WithoutProvides(a + b);
        WithoutProvides(a + init) + tail;
        { WithoutProvidesAppend(a, init); }
        (WithoutProvides(a) + WithoutProvides(init)) + tail;
        WithoutProvides(a) + (WithoutProvides(init) + tail);
      }
    }
  }

  /** Meta entries without `provides=` pass the filter unchanged. */
  lemma {:induction false} WithoutProvidesKeeps(meta: seq<string>)
    requires forall i :: 0 <= i < |meta| ==> !StartsWith(meta[i], "provides=")
    ensures WithoutProvides(meta) == meta
  {
    if |meta| > 0 {
      WithoutProvidesKeeps(meta[..|meta| - 1]);
      assert meta[..|meta| - 1] + [meta[|meta| - 1]] == meta;
    }
  }
}
