/** The generated README: fixed Markdown prose with the dependency report
    placed under its own heading. */
module Readme {
  import opened Text
  import Versions
  import MarkdownEscape

  /** The fixed prose from the title down to the end of the "Limitations"
      section, without its final line break. Its wording is not modelled:
      every property below holds whatever it is. */
  const Opening: string

  /** The fixed prose after the "System Requirements" heading line, down to
      the end of the document. Its wording is not modelled either. */
  const Closing: string

  /** The heading line the report is placed under. */
  const VersionsHeading: string := "## Dependency Versions"

  /** The heading line that follows the report. */
  const RequirementsHeading: string := "## System Requirements"

  /** The document: the opening prose, a blank line, the versions heading,
      the report, a blank line, the next heading and the closing prose. */
  function ReadmeContent(lookup: Versions.Lookup): string
  {
    Opening + "\n\n" + VersionsHeading + "\n" + Versions.Report(lookup) + "\n\n" + RequirementsHeading + "\n" + Closing
  }

  /** `generate_readme` without the file write: the template with the
      report filled in. The content is written as it is, without
      `escape_special_chars`. */
  method GenerateReadme(lookup: Versions.Lookup) returns (content: string)
    ensures content == ReadmeContent(lookup)
  {
    var versions := Versions.GetDependencyVersions(lookup);
    content := Opening + "\n\n" + VersionsHeading + "\n" + versions + "\n\n" + RequirementsHeading + "\n" + Closing;
  }

  /** The text in front of the report and the text after it. */
  function Before(): string
  {
    Opening + "\n\n" + VersionsHeading + "\n"
  }

  function After(): string
  {
    "\n\n" + RequirementsHeading + "\n" + Closing
  }

  /** The document is the report with the same text around it whatever the
      installation: the report sits at a fixed offset, unchanged. */
  lemma ReportInPlace(lookup: Versions.Lookup)
    ensures ReadmeContent(lookup) == Before() + Versions.Report(lookup) + After()
    ensures ReadmeContent(lookup)[|Before()|..|Before()| + |Versions.Report(lookup)|] == Versions.Report(lookup)
  {
  }

  /** Two installations give the same document exactly when they give the
      same report: nothing else in it depends on what is installed. */
  lemma ContentDeterminedByReport(l1: Versions.Lookup, l2: Versions.Lookup)
    ensures ReadmeContent(l1) == ReadmeContent(l2) <==> Versions.Report(l1) == Versions.Report(l2)
  {
    ReportInPlace(l1);
    ReportInPlace(l2);
  }

  /** Two installations whose queries agree on the six listed packages
      write the same document. */
  lemma SameAnswersSameDocument(l1: Versions.Lookup, l2: Versions.Lookup)
    requires forall k :: 0 <= k < |Versions.Dependencies| ==> l1(Versions.Dependencies[k]) == l2(Versions.Dependencies[k])
    ensures ReadmeContent(l1) == ReadmeContent(l2)
  {
    Versions.ReportDependsOnListedPackages(l1, l2);
    ContentDeterminedByReport(l1, l2);
  }

  /** The template's layout regrouped as five pieces separated by single
      line breaks. */
  lemma Regroup(a: string, h1: string, body: string, h2: string, c: string)
    ensures a + "\n\n" + h1 + "\n" + body + "\n\n" + h2 + "\n" + c ==
      a + "\n" + ("" + "\n" + (h1 + "\n" + (body + "\n" + ("" + "\n" + (h2 + "\n" + c)))))
  {
  }

  /** Splitting a blank line and a heading line off the front. */
  lemma SplitBlankAndHeading(h: string, rest: string)
    requires '\n' !in h
    ensures Split("" + "\n" + (h + "\n" + rest), '\n') == ["", h] + Split(rest, '\n')
  {
    var empty: string := "";
    SplitConcat(empty, '\n', h + "\n" + rest);
    SplitConcat(h, '\n', rest);
    SplitNone(h, '\n');
  }

  /** Splitting five pieces joined by line breaks, the middle ones an empty
      line, a heading, a body, an empty line and a heading. */
  lemma SplitSections(a: string, h1: string, body: string, h2: string, c: string)
    requires '\n' !in h1 && '\n' !in h2
    ensures Split(a + "\n" + ("" + "\n" + (h1 + "\n" + (body + "\n" + ("" + "\n" + (h2 + "\n" + c))))), '\n') ==
      Split(a, '\n') + ["", h1] + Split(body, '\n') + ["", h2] + Split(c, '\n')
  {
    var y := "" + "\n" + (h2 + "\n" + c);
    var x := "" + "\n" + (h1 + "\n" + (body + "\n" + y));
    SplitConcat(a, '\n', x);
    SplitBlankAndHeading(h1, body + "\n" + y);
    SplitConcat(body, '\n', y);
    SplitBlankAndHeading(h2, c);
  }

  /** Line by line, when no version string holds a line break: the opening
      prose, a blank line, the versions heading, the six report lines, a
      blank line, the next heading, and the closing prose. */
  lemma ReadmeLines(lookup: Versions.Lookup)
    requires forall k :: 0 <= k < |Versions.Dependencies| && lookup(Versions.Dependencies[k]).Some? ==>
      '\n' !in lookup(Versions.Dependencies[k]).value
    ensures Split(ReadmeContent(lookup), '\n') ==
      Split(Opening, '\n') + ["", VersionsHeading] + Versions.ReportLines(lookup) + ["", RequirementsHeading] + Split(Closing, '\n')
  {
    Regroup(Opening, VersionsHeading, Versions.Report(lookup), RequirementsHeading, Closing);
    SplitSections(Opening, VersionsHeading, Versions.Report(lookup), RequirementsHeading, Closing);
    Versions.ReportSplitsIntoLines(lookup);
  }

  /** Escaping the document for Markdown would change it (its headings begin
      with `#`), so the file holds the unescaped template: the report keeps
      the `html.escape` rendering and nothing more. */
  lemma ContentNotMarkdownEscaped(lookup: Versions.Lookup)
    ensures MarkdownEscape.Escaped(ReadmeContent(lookup)) != ReadmeContent(lookup)
  {
    var doc := ReadmeContent(lookup);
    var i := |Opening| + 2;
    assert doc[i] == '#';
    MarkdownEscape.IsSpecialListed('#');
    MarkdownEscape.EscapedUnchanged(doc);
  }
}
