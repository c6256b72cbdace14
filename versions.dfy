/** The "Dependency Versions" report: one line per package the project
    depends on, with the installed version or a note that it is missing. */
module Versions {
  import opened Wrappers
  import opened Text
  import Html

  /** The installed-package query, `importlib.metadata.version`: `Some(v)`
      when the package is installed at version `v`, `None` when the query
      raises (the package is missing, or the metadata module cannot be
      imported). */
  type Lookup = string -> Option<string>

  /** The packages the report lists, in report order. */
  const Dependencies: seq<string> :=
    ["opencv-python", "numpy", "moviepy", "ultralytics", "supervision", "torch"]

  /** What is printed after a missing package's name. */
  const Missing: string := "Not installed"

  /** The report line for package `dep` whose query answered `version`. */
  function Line(dep: string, version: Option<string>): string
  {
    match version
    case Some(v) => "- " + Html.Escape(dep) + ": " + Html.Escape(v)
    case None => "- " + Html.Escape(dep) + ": " + Missing
  }

  /** The report's lines, one per package in `Dependencies`. */
  function ReportLines(lookup: Lookup): seq<string>
  {
    seq(|Dependencies|, i requires 0 <= i < |Dependencies| => Line(Dependencies[i], lookup(Dependencies[i])))
  }

  /** The report: its lines joined with newlines. */
  function Report(lookup: Lookup): string
  {
    Join(ReportLines(lookup), "\n")
  }

  /** `get_dependency_versions`: queries each package in turn, appends its
      line, and joins the lines with newlines. */
  method GetDependencyVersions(lookup: Lookup) returns (report: string)
    ensures report == Report(lookup)
  {
    var versions: seq<string> := [];
    for i := 0 to |Dependencies|
      invariant |versions| == i
      invariant forall k :: 0 <= k < i ==> versions[k] == Line(Dependencies[k], lookup(Dependencies[k]))
    {
      var dep := Dependencies[i];
      // The `try` branch and the `except` branch are the two cases of `Line`.
      var line := Line(dep, lookup(dep));
      versions := versions + [line];
    }
    assert versions == ReportLines(lookup);
    report := Join(versions, "\n");
  }

  // ---------------------------------------------------------------------
  // Properties of the report

  /** None of the package names holds a character `html.escape` rewrites,
      so each is printed as it is spelled. */
  lemma DependencyNamesPlain()
    ensures forall k :: 0 <= k < |Dependencies| ==> Html.Escape(Dependencies[k]) == Dependencies[k]
  {
    forall k | 0 <= k < |Dependencies|
      ensures Html.Escape(Dependencies[k]) == Dependencies[k]
    {
      var d := Dependencies[k];
      assert forall i :: 0 <= i < |d| ==> 'a' <= d[i] <= 'z' || d[i] == '-';
      Html.EscapeUnchanged(d);
    }
  }

  /** The line of an installed package is `- <name>: <escaped version>`, and
      a reader of the escaped version sees the version the query returned. */
  lemma InstalledLine(lookup: Lookup, k: nat, v: string)
    requires k < |Dependencies| && lookup(Dependencies[k]) == Some(v)
    ensures ReportLines(lookup)[k] == "- " + Dependencies[k] + ": " + Html.Escape(v)
    ensures Html.Unescape(Html.Escape(v)) == v
  {
    DependencyNamesPlain();
    Html.UnescapeEscape(v);
  }

  /** The line of a missing package is `- <name>: Not installed`. */
  lemma MissingLine(lookup: Lookup, k: nat)
    requires k < |Dependencies| && lookup(Dependencies[k]) == None
    ensures ReportLines(lookup)[k] == "- " + Dependencies[k] + ": Not installed"
  {
    DependencyNamesPlain();
  }

  /** A line holds a newline exactly when its version string does. */
  lemma LineNewlines(dep: string, version: Option<string>)
    requires '\n' !in dep
    ensures '\n' in Line(dep, version) <==> version.Some? && '\n' in version.value
  {
    Html.EscapeKeeps(dep, '\n');
    if version.Some? {
      Html.EscapeKeeps(version.value, '\n');
    }
  }

  /** When no version string holds a newline, the report has exactly one line
      per package: splitting it at newlines gives the six lines back, and it
      holds five newlines. */
  lemma ReportSplitsIntoLines(lookup: Lookup)
    requires forall k :: 0 <= k < |Dependencies| && lookup(Dependencies[k]).Some? ==>
      '\n' !in lookup(Dependencies[k]).value
    ensures |ReportLines(lookup)| == 6
    ensures Split(Report(lookup), '\n') == ReportLines(lookup)
    ensures Count(Report(lookup), '\n') == 5
  {
    var lines := ReportLines(lookup);
    forall k | 0 <= k < |lines| ensures '\n' !in lines[k] {
      assert forall i :: 0 <= i < |Dependencies[k]| ==> Dependencies[k][i] != '\n';
      LineNewlines(Dependencies[k], lookup(Dependencies[k]));
    }
    SplitJoin(lines, '\n');
    JoinCount(lines, '\n');
  }

  /** The report holds no raw `<`, `>`, `"` or `'`, whatever the queries
      return: the names have none and the versions are escaped. */
  lemma ReportHasNoMarkup(lookup: Lookup, x: char)
    requires x == '<' || x == '>' || x == '"' || x == '\''
    ensures x !in Report(lookup)
  {
    var lines := ReportLines(lookup);
    forall k | 0 <= k < |lines| ensures x !in lines[k] {
      LineHasNoMarkup(Dependencies[k], lookup(Dependencies[k]), x);
    }
    JoinMembers(lines, "\n", x);
  }

  /** A line holds no raw `<`, `>`, `"` or `'`, whatever name and version it
      is made of. */
  lemma LineHasNoMarkup(dep: string, version: Option<string>, x: char)
    requires x == '<' || x == '>' || x == '"' || x == '\''
    ensures x !in Line(dep, version)
  {
    Html.EscapeRemovesSpecials(dep, x);
    match version
    case Some(v) => Html.EscapeRemovesSpecials(v, x);
    case None =>
  }

  /** The report depends on the queries for the six packages and on nothing
      else the lookup answers. */
  lemma ReportDependsOnListedPackages(l1: Lookup, l2: Lookup)
    requires forall k :: 0 <= k < |Dependencies| ==> l1(Dependencies[k]) == l2(Dependencies[k])
    ensures Report(l1) == Report(l2)
  {
    assert ReportLines(l1) == ReportLines(l2);
  }

  /** Two installations whose queries differ on some listed package give
      different reports, provided no version string holds a newline: the
      report tells every answer apart except a version spelled
      `Not installed`. */
  lemma ReportDistinguishes(l1: Lookup, l2: Lookup, k: nat)
    requires k < |Dependencies|
    requires forall j :: 0 <= j < |Dependencies| && l1(Dependencies[j]).Some? ==> '\n' !in l1(Dependencies[j]).value
    requires forall j :: 0 <= j < |Dependencies| && l2(Dependencies[j]).Some? ==> '\n' !in l2(Dependencies[j]).value
    requires l1(Dependencies[k]) != l2(Dependencies[k])
    requires l1(Dependencies[k]) != Some(Missing) && l2(Dependencies[k]) != Some(Missing)
    ensures Report(l1) != Report(l2)
  {
    ReportSplitsIntoLines(l1);
    ReportSplitsIntoLines(l2);
    if Report(l1) == Report(l2) {
      assert ReportLines(l1)[k] == ReportLines(l2)[k];
      LineInjective(Dependencies[k], l1(Dependencies[k]), l2(Dependencies[k]));
      assert false;
    }
  }

  /** A line determines the answer it was made from, apart from a version
      spelled `Not installed`. */
  lemma LineInjective(dep: string, a: Option<string>, b: Option<string>)
    requires a != Some(Missing) && b != Some(Missing)
    requires Line(dep, a) == Line(dep, b)
    ensures a == b
  {
    var p := "- " + Html.Escape(dep) + ": ";
    var ta := if a.Some? then Html.Escape(a.value) else Missing;
    var tb := if b.Some? then Html.Escape(b.value) else Missing;
    assert Line(dep, a) == p + ta && Line(dep, b) == p + tb;
    assert ta == (p + ta)[|p|..] && tb == (p + tb)[|p|..];
    if a.Some? && b.Some? {
      Html.UnescapeEscape(a.value);
      Html.UnescapeEscape(b.value);
    } else if a.Some? {
      NotInstalledEscapesToItself(a.value);
    } else if b.Some? {
      NotInstalledEscapesToItself(b.value);
    }
  }

  /** Only the version `Not installed` itself is escaped to `Not installed`. */
  lemma NotInstalledEscapesToItself(v: string)
    requires Html.Escape(v) == Missing
    ensures v == Missing
  {
    assert forall i :: 0 <= i < |Missing| ==> !Html.IsSpecial(Missing[i]);
    Html.EscapeUnchanged(Missing);
    Html.UnescapeEscape(v);
    Html.UnescapeEscape(Missing);
  }
}
