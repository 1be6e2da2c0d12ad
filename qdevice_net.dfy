/**
 * The two line-oriented parsers of the qnetd ("net" model quorum device) helpers:
 * the list of connected clusters printed by the qnetd status tool, and the
 * location of the certificate file printed by the certificate tool.
 */
module QdeviceNet {
  import opened Wrappers
  import opened Strings

  /** The text a regular expression ending in `$` sees: Python's `$` also matches before one final "\n". */
  function BeforeFinalNewline(line: string): string
  {
    if |line| > 0 && line[|line| - 1] == '\n' then line[..|line| - 1] else line
  }

  const ClusterPrefix: string := "Cluster \""
  const ClusterSuffix: string := "\":"

  /**
   * The name captured by `^Cluster "(?P<cluster>[^"]+)":$` in one line, if the line matches.
   */
  function ClusterName(line: string): (name: Option<string>)
    ensures name.Some? ==> |name.value| > 0 && '"' !in name.value
    ensures name.Some? ==> BeforeFinalNewline(line) == ClusterPrefix + name.value + ClusterSuffix
  {
    var body := BeforeFinalNewline(line);
    if |body| >= |ClusterPrefix| + |ClusterSuffix| + 1
       && StartsWith(body, ClusterPrefix) && EndsWith(body, ClusterSuffix)
    then
      var middle := body[|ClusterPrefix|..|body| - |ClusterSuffix|];
      assert body == ClusterPrefix + middle + ClusterSuffix;
      if '"' !in middle then Some(middle) else None
    else None
  }

  /** Every line of the form `Cluster "NAME":` is recognised, with NAME as its name. */
  lemma ClusterNameComplete(name: string)
    requires |name| > 0 && '"' !in name && '\n' !in name
    ensures ClusterName(ClusterPrefix + name + ClusterSuffix) == Some(name)
  {
    var line := ClusterPrefix + name + ClusterSuffix;
    assert BeforeFinalNewline(line) == line;
    assert line[..|ClusterPrefix|] == ClusterPrefix;
    assert line[|line| - |ClusterSuffix|..] == ClusterSuffix;
    assert line[|ClusterPrefix|..|line| - |ClusterSuffix|] == name;
  }

  /** The names of the matching lines, in line order: what the loop of the source collects. */
  function ClusterNames(lines: seq<string>): (names: seq<string>)
    ensures |names| <= |lines|
  {
    if |lines| == 0 then []
    else
      var init := ClusterNames(lines[..|lines| - 1]);
      match ClusterName(lines[|lines| - 1])
      case Some(n) => init + [n]
      case None => init
  }

  /**
   * Connected clusters in the qnetd status listing (`corosync-qnetd-tool -l`):
   * the name of every line that is exactly `Cluster "NAME":`, in line order.
   */
  method ConnectedClusters(statusText: string) returns (clusters: seq<string>)
    ensures clusters == ClusterNames(SplitLines(statusText))
  {
    var lines := SplitLines(statusText);
    clusters := [];
    var i := 0;
    while i < |lines|
      invariant 0 <= i <= |lines|
      invariant clusters == ClusterNames(lines[..i])
    {
      assert lines[..i + 1][..i] == lines[..i];
      var m := ClusterName(lines[i]);
      if m.Some? {
        clusters := clusters + [m.value];
      }
      i := i + 1;
    }
    assert lines[..|lines|] == lines;
  }

  /** Every reported cluster name is non-empty and free of double quotes. */
  lemma {:induction false} ClusterNamesWellFormed(lines: seq<string>)
    ensures forall i :: 0 <= i < |ClusterNames(lines)| ==>
      |ClusterNames(lines)[i]| > 0 && '"' !in ClusterNames(lines)[i]
  {
    if |lines| > 0 {
      ClusterNamesWellFormed(lines[..|lines| - 1]);
    }
  }

  /** A name is reported iff some line is exactly `Cluster "NAME":`; other lines contribute nothing. */
  lemma {:induction false} ClusterNamesMembership(lines: seq<string>, name: string)
    requires forall i :: 0 <= i < |lines| ==> '\n' !in lines[i]
    ensures name in ClusterNames(lines) <==>
      (|name| > 0 && '"' !in name && exists i :: 0 <= i < |lines| && lines[i] == ClusterPrefix + name + ClusterSuffix)
  {
    if |lines| > 0 {
      var init := lines[..|lines| - 1];
      var last := lines[|lines| - 1];
      ClusterNamesMembership(init, name);
      assert BeforeFinalNewline(last) == last;
      if |name| > 0 && '"' !in name && last == ClusterPrefix + name + ClusterSuffix {
        ClusterNameComplete(name);
      }
      if exists i :: 0 <= i < |lines| && lines[i] == ClusterPrefix + name + ClusterSuffix {
        var i :| 0 <= i < |lines| && lines[i] == ClusterPrefix + name + ClusterSuffix;
        if i < |lines| - 1 {
          assert init[i] == lines[i];
        }
      }
      if name in ClusterNames(lines) && name !in ClusterNames(init) {
        assert ClusterName(last) == Some(name);
      }
    }
  }

  /** Empty tool output lists no clusters. */
  lemma NoClustersInEmptyOutput()
    ensures ClusterNames(SplitLines("")) == []
  {
  }

  const CertificatePrefix: string := "Certificate stored in "
  const CertificateRequestPrefix: string := "Certificate request stored in "

  /** The path captured by `^Certificate( request)? stored in (?P<path>.+)$` in one line, if it matches. */
  function CertificatePath(line: string): (path: Option<string>)
    ensures path.Some? ==> |path.value| > 0 && '\n' !in path.value
  {
    var body := BeforeFinalNewline(line);
    var rest :=
      if StartsWith(body, CertificateRequestPrefix) then Some(body[|CertificateRequestPrefix|..])
      else if StartsWith(body, CertificatePrefix) then Some(body[|CertificatePrefix|..])
      else None;
    if rest.Some? && |rest.value| > 0 && '\n' !in rest.value then rest else None
  }

  /** A recognised line is one of the two announcements followed by the path, and each is recognised. */
  lemma CertificatePathShape(line: string, path: string)
    requires '\n' !in line
    ensures CertificatePath(line) == Some(path) <==>
      |path| > 0 && (line == CertificatePrefix + path || line == CertificateRequestPrefix + path)
  {
    assert BeforeFinalNewline(line) == line;
    if line == CertificatePrefix + path {
      assert line[..|CertificatePrefix|] == CertificatePrefix;
      assert line[|CertificatePrefix|..] == path;
      assert !StartsWith(line, CertificateRequestPrefix) by {
        if |CertificateRequestPrefix| <= |line| {
          assert line[12] != CertificateRequestPrefix[12];
        }
      }
    }
    if line == CertificateRequestPrefix + path {
      assert line[..|CertificateRequestPrefix|] == CertificateRequestPrefix;
      assert line[|CertificateRequestPrefix|..] == path;
    }
    if CertificatePath(line) == Some(path) {
      if StartsWith(line, CertificateRequestPrefix) {
        assert line == CertificateRequestPrefix + line[|CertificateRequestPrefix|..];
      } else {
        assert line == CertificatePrefix + line[|CertificatePrefix|..];
      }
    }
  }

  /** What the pattern captures in each line, line by line. */
  function CertificatePaths(lines: seq<string>): (found: seq<Option<string>>)
    ensures |found| == |lines|
    ensures forall i :: 0 <= i < |lines| ==> found[i] == CertificatePath(lines[i])
  {
    seq(|lines|, i requires 0 <= i < |lines| => CertificatePath(lines[i]))
  }

  /** The last capture, which overwrites every earlier one. */
  function LastFound(found: seq<Option<string>>): Option<string>
  {
    if |found| == 0 then None
    else if found[|found| - 1].Some? then found[|found| - 1]
    else LastFound(found[..|found| - 1])
  }

  /** A capture is found iff there is one, and it is one after which nothing is captured. */
  lemma {:induction false} LastFoundIsLast(found: seq<Option<string>>)
    ensures LastFound(found).Some? <==> exists i :: 0 <= i < |found| && found[i].Some?
    ensures LastFound(found).Some? ==>
      exists i :: 0 <= i < |found| && found[i] == LastFound(found) &&
        forall j :: i < j < |found| ==> found[j].None?
  {
    if |found| > 0 {
      var init := found[..|found| - 1];
      LastFoundIsLast(init);
      assert forall i :: 0 <= i < |init| ==> init[i] == found[i];
      if found[|found| - 1].None? && LastFound(init).Some? {
        var i :| 0 <= i < |init| && init[i] == LastFound(init) &&
          forall j :: i < j < |init| ==> init[j].None?;
        assert forall j :: i < j < |found| ==> found[j].None?;
      }
    }
  }

  /** The path of the last matching line. */
  function LastCertificatePath(lines: seq<string>): (path: Option<string>)
  {
    LastFound(CertificatePaths(lines))
  }

  /**
   * A path is found iff some line matches, and the path found is that of a
   * matching line after which no line matches.
   */
  lemma LastCertificatePathIsLast(lines: seq<string>)
    ensures LastCertificatePath(lines).Some? <==> exists i :: 0 <= i < |lines| && CertificatePath(lines[i]).Some?
    ensures LastCertificatePath(lines).Some? ==>
      exists i :: 0 <= i < |lines| && CertificatePath(lines[i]) == LastCertificatePath(lines) &&
        forall j :: i < j < |lines| ==> CertificatePath(lines[j]).None?
  {
    LastFoundIsLast(CertificatePaths(lines));
  }

  /**
   * The certificate file named by the certificate tool's output: the path of the
   * last line matching the pattern, or, when no line matches, an error carrying
   * the whole output.
   */
  method OutputCertificatePath(certToolOutput: string) returns (result: Result<string, string>)
    ensures result.Failure? <==> LastCertificatePath(SplitLines(certToolOutput)).None?
    ensures result.Failure? ==> result.error == certToolOutput
    ensures result.Success? ==> Some(result.value) == LastCertificatePath(SplitLines(certToolOutput))
  {
    var lines := SplitLines(certToolOutput);
    var filename: Option<string> := None;
    var i := 0;
    while i < |lines|
      invariant 0 <= i <= |lines|
      invariant filename == LastFound(CertificatePaths(lines)[..i])
    {
      ghost var found := CertificatePaths(lines);
      assert found[..i + 1][..i] == found[..i];
      var m := CertificatePath(lines[i]);
      if m.Some? {
        filename := m;
      }
      i := i + 1;
    }
    assert CertificatePaths(lines)[..|lines|] == CertificatePaths(lines);
    LastCertificatePathIsLast(lines);
    if filename.None? || filename.value == "" {
      result := Failure(certToolOutput);
    } else {
      result := Success(filename.value);
    }
  }
}
