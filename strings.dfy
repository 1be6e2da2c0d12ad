/** String helpers with Python's semantics where the source relies on them. */
module Strings {

  predicate StartsWith(s: string, prefix: string) {
    |prefix| <= |s| && s[..|prefix|] == prefix
  }

  predicate EndsWith(s: string, suffix: string) {
    |suffix| <= |s| && s[|s| - |suffix|..] == suffix
  }

  /** Python's `sep.join(parts)`. */
  function Join(sep: string, parts: seq<string>): string
  {
    if |parts| == 0 then ""
    else if |parts| == 1 then parts[0]
    else Join(sep, parts[..|parts| - 1]) + sep + parts[|parts| - 1]
  }

  /** Python's `s.split(c)` for a one-character separator: never empty, empty fields kept. */
  function Split(s: string, c: char): (parts: seq<string>)
    ensures |parts| >= 1
    ensures forall i :: 0 <= i < |parts| ==> c !in parts[i]
    decreases |s|
  {
    if |s| == 0 then [""]
    else
      var rest := Split(s[..|s| - 1], c);
      if s[|s| - 1] == c then rest + [""]
      else rest[..|rest| - 1] + [rest[|rest| - 1] + [s[|s| - 1]]]
  }

  /** Joining the fields of a split gives back the original text. */
  lemma {:induction false} JoinSplit(s: string, c: char)
    ensures Join([c], Split(s, c)) == s
    decreases |s|
  {
    if |s| > 0 {
      var init := s[..|s| - 1];
      JoinSplit(init, c);
      JoinSplitStep(s, c);
      assert s == init + [s[|s| - 1]];
    }
  }

  /** One more character of text adds that character to the joined fields. */
  lemma JoinSplitStep(s: string, c: char)
    requires |s| > 0
    ensures Join([c], Split(s, c)) == Join([c], Split(s[..|s| - 1], c)) + [s[|s| - 1]]
  {
    var rest := Split(s[..|s| - 1], c);
    if s[|s| - 1] == c {
      assert Split(s, c) == rest + [""];
      JoinNewField(rest, c);
    } else {
      assert Split(s, c) == rest[..|rest| - 1] + [rest[|rest| - 1] + [s[|s| - 1]]];
      JoinLastExtended(rest, c, s[|s| - 1]);
    }
  }

  lemma JoinNewField(parts: seq<string>, c: char)
    requires |parts| >= 1
    ensures Join([c], parts + [""]) == Join([c], parts) + [c]
  {
    assert (parts + [""])[..|parts|] == parts;
  }

  lemma {:induction false} JoinLastExtended(parts: seq<string>, c: char, x: char)
    requires |parts| >= 1
    ensures Join([c], parts[..|parts| - 1] + [parts[|parts| - 1] + [x]]) == Join([c], parts) + [x]
  {
    var q := parts[..|parts| - 1] + [parts[|parts| - 1] + [x]];
    if |parts| == 1 {
    } else {
      assert q[..|q| - 1] == parts[..|parts| - 1];
    }
  }

  /** Splitting a join of fields free of the separator gives back the fields. */
  lemma {:induction false} SplitJoin(parts: seq<string>, c: char)
    requires |parts| >= 1
    requires forall i :: 0 <= i < |parts| ==> c !in parts[i]
    ensures Split(Join([c], parts), c) == parts
    decreases |parts|
  {
    if |parts| == 1 {
      SplitNoSeparator(parts[0], c);
    } else {
      var init := parts[..|parts| - 1];
      var last := parts[|parts| - 1];
      SplitJoin(init, c);
      SplitAppend(Join([c], init) + [c], last, c);
      assert Split(Join([c], init) + [c], c) == init + [""] by {
        assert (Join([c], init) + [c])[..|Join([c], init)|] == Join([c], init);
      }
    }
  }

  lemma {:induction false} SplitNoSeparator(s: string, c: char)
    requires c !in s
    ensures Split(s, c) == [s]
    decreases |s|
  {
    if |s| > 0 {
      SplitNoSeparator(s[..|s| - 1], c);
      assert s[..|s| - 1] + [s[|s| - 1]] == s;
    }
  }

  /** Appending separator-free text to text that ends in a separator adds it as the last field. */
  lemma {:induction false} SplitAppend(a: string, b: string, c: char)
    requires |a| >= 1 && a[|a| - 1] == c
    requires c !in b
    ensures Split(a + b, c) == Split(a, c)[..|Split(a, c)| - 1] + [b]
    decreases |b|
  {
    if |b| == 0 {
      assert a + b == a;
      var r := Split(a[..|a| - 1], c);
      assert Split(a, c) == r + [""];
      assert (r + [""])[..|r|] == r;
    } else {
      var b' := b[..|b| - 1];
      SplitAppend(a, b', c);
      assert (a + b)[..|a + b| - 1] == a + b';
      assert (a + b)[|a + b| - 1] == b[|b| - 1];
      assert b' + [b[|b| - 1]] == b;
    }
  }

  /** Decimal rendering of a natural number, as Python's `str(n)`. */
  function NatToString(n: nat): (s: string)
    ensures |s| >= 1
    ensures forall i :: 0 <= i < |s| ==> '0' <= s[i] <= '9'
  {
    var d := ['0' + (n % 10) as char];
    if n < 10 then d else NatToString(n / 10) + d
  }

  /** Strict lexicographic order on code points (Python's string `<`). */
  predicate Less(a: string, b: string)
  {
    if |a| == 0 then |b| > 0
    else if |b| == 0 then false
    else if a[0] != b[0] then a[0] < b[0]
    else Less(a[1..], b[1..])
  }

  predicate LessOrEqual(a: string, b: string)
  {
    a == b || Less(a, b)
  }

  lemma {:induction false} LessIrreflexive(a: string)
    ensures !Less(a, a)
  {
    if |a| > 0 { LessIrreflexive(a[1..]); }
  }

  lemma {:induction false} LessTotal(a: string, b: string)
    ensures a == b || Less(a, b) || Less(b, a)
  {
    if |a| > 0 && |b| > 0 && a[0] == b[0] {
      LessTotal(a[1..], b[1..]);
      if a[1..] == b[1..] {
        assert a == [a[0]] + a[1..] && b == [b[0]] + b[1..];
      }
    }
  }

  lemma {:induction false} LessTransitive(a: string, b: string, c: string)
    requires Less(a, b) && Less(b, c)
    ensures Less(a, c)
  {
    if |a| > 0 && a[0] == b[0] && b[0] == c[0] {
      LessTransitive(a[1..], b[1..], c[1..]);
    }
  }

  lemma LessAsymmetric(a: string, b: string)
    requires Less(a, b)
    ensures !Less(b, a)
  {
    if Less(b, a) {
      LessTransitive(a, b, a);
      LessIrreflexive(a);
    }
  }

  /** The characters at which Python's `str.splitlines()` ends a line. */
  predicate IsLineBoundary(c: char) {
    c == '\n' || c == '\r' || c == '\U{000B}' || c == '\U{000C}' || c == '\U{001C}' || c == '\U{001D}' || c == '\U{001E}'
    || c == '\U{0085}' || c == '\U{2028}' || c == '\U{2029}'
  }

  /** Python's `s.splitlines()`: "\r\n" is one boundary, and no empty line follows a final boundary. */
  function SplitLines(s: string): (lines: seq<string>)
    ensures forall i :: 0 <= i < |lines| ==> NoLineBoundary(lines[i])
  {
    LinesFrom(s, "")
  }

  predicate NoLineBoundary(line: string) {
    forall k :: 0 <= k < |line| ==> !IsLineBoundary(line[k])
  }

  function LinesFrom(s: string, current: string): (lines: seq<string>)
    requires NoLineBoundary(current)
    ensures forall i :: 0 <= i < |lines| ==> NoLineBoundary(lines[i])
    ensures |s| == 0 && current == "" ==> lines == []
    decreases |s|
  {
    if |s| == 0 then (if current == "" then [] else [current])
    else if IsLineBoundary(s[0]) then
      var rest := if s[0] == '\r' && |s| > 1 && s[1] == '\n' then s[2..] else s[1..];
      [current] + LinesFrom(rest, "")
    else LinesFrom(s[1..], current + [s[0]])
  }
}
