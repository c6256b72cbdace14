# mdgen: a verified model of the SIFT project's README generator

`mdgen.py` writes the SIFT project's `README.md`. The file is a fixed
Markdown template with one computed part, the "Dependency Versions"
report. That report lists six packages in a fixed order and gives each one
its installed version, or `Not installed` when the version lookup fails.
Package names and versions pass through Python's `html.escape`. The script
also defines `escape_special_chars`, a Markdown escaper that makes 19
whole-string replacements in the insertion order of a dictionary. The
template does not use it.

The model has six modules:

- `Wrappers` (`wrappers.dfy`): the `Option` type.
- `Text` (`text.dfy`): the Python string operations the script relies on,
  and one helper for stating results. The operations are `str.replace`
  with a one-character pattern (`Replace`), a run of such replacements
  (`ApplyFirst`/`ApplyAll`) and `str.join` (`Join`). The script never
  splits a string. `Split`, a split at one character, is there only to
  state the line structure of the report and of the document. The module
  also proves general facts: a replacement run works character by
  character, a replaced character stays gone when no later replacement
  brings it back, and `Split` undoes `Join`.
- `Html` (`html.dfy`): `html.escape` as its five replacements with `&`
  first. `Unescape` is a reader of character references, the way an HTML
  renderer decodes them. It is the inverse that the escapers are checked
  against.
- `Versions` (`versions.dfy`): `get_dependency_versions`. It is a method
  with the source's loop, proved against the specification function
  `Report`.
- `MarkdownEscape` (`markdown.dfy`): `escape_special_chars`. It is a method
  with the source's loop over the table, proved against `Escaped`. The
  module also shows what the table order does, and gives the corrected
  order (see Findings).
- `Readme` (`readme.dfy`): the content `generate_readme` writes, with the
  report placed between the two fixed parts of the template.

The package-metadata query is a parameter, `lookup: string ->
Option<string>`. `Some(v)` means the package is installed at version `v`.
`None` stands for every exception the bare `except` catches.

## Model

| member | source | states |
|---|---|---|
| `Versions.GetDependencyVersions` | mdgen.py:3-18 | The loop over the six names returns the six lines in list order, joined by newlines (`Report`). |
| `Versions.DependencyNamesPlain` | mdgen.py:5-8 | `html.escape` leaves each of the six package names unchanged. |
| `Versions.InstalledLine` | mdgen.py:13-15 | An installed package's line is `- <name>: <escaped version>`, and decoding the escaped version gives back the version the lookup returned. |
| `Versions.MissingLine` | mdgen.py:16-17 | A package whose lookup fails gets the line `- <name>: Not installed`. |
| `Versions.LineNewlines` | mdgen.py:15-17 | A line has a line break exactly when its version string has one. |
| `Versions.ReportSplitsIntoLines` | mdgen.py:9-18 | If no version has a line break, the report has exactly six lines: splitting it at `\n` gives the lines back, and it has five `\n` and none at the end. |
| `Versions.LineHasNoMarkup` | mdgen.py:14-17 | A line has no raw `<`, `>`, `"` or `'`, whatever the name and version text. |
| `Versions.ReportHasNoMarkup` | mdgen.py:14-18 | The report has no raw `<`, `>`, `"` or `'`, whatever the lookup returns. |
| `Versions.ReportDependsOnListedPackages` | mdgen.py:5-13 | Two lookups that agree on the six names give the same report. |
| `Versions.LineInjective` | mdgen.py:15-17 | Equal lines come from equal lookup answers, except for a version spelled `Not installed`. |
| `Versions.NotInstalledEscapesToItself` | mdgen.py:15-17 | The only version `html.escape` turns into `Not installed` is `Not installed` itself. |
| `Versions.ReportDistinguishes` | mdgen.py:10-18 | Lookups that differ on a listed package give different reports, if no version has a line break or is spelled `Not installed`. |
| `Html.EscapeIsCharwise` | mdgen.py:15 | The five ordered replacements of `html.escape` render each character on its own: `&amp;`, `&lt;`, `&gt;`, `&quot;`, `&#x27;`, and any other character as itself. |
| `Html.EscapeRemovesSpecials` | mdgen.py:14-15 | Escaped text has no raw `<`, `>`, `"` or `'`. |
| `Html.EscapeUnchanged` | mdgen.py:15 | `html.escape` leaves a string unchanged exactly when it holds none of the five characters. |
| `Html.EscapeKeeps` | mdgen.py:15 | A character that is not escaped and is not used in any entity is in the escaped text exactly when it is in the input. |
| `Html.UnescapeEscape` | mdgen.py:14-15 | Round trip: decoding the output of `html.escape` gives back its input. |
| `Html.UnescapeDoubleEscaped` | mdgen.py:30-40 | `&&#35;` followed by text without `&` decodes to `&#` followed by that text. |
| `MarkdownEscape.EscapeSpecialChars` | mdgen.py:20-51 | The loop gives the 19 replacements applied left to right in table order, `&` first (`Escaped`). |
| `MarkdownEscape.EscapeOneChar` | mdgen.py:25-49 | Applied to one character, the 19 steps give the reference rendering `EscapedChar`. |
| `MarkdownEscape.EscapedIsCharwise` | mdgen.py:25-49 | `escape_special_chars` rewrites each character independently, by `EscapedChar`. |
| `MarkdownEscape.IsSpecialListed` | mdgen.py:26-44 | The table's keys are exactly the 19 characters listed. |
| `MarkdownEscape.EscapedCharLength` | mdgen.py:26-44 | A character outside the table is rendered as itself, and a key as a longer text. |
| `MarkdownEscape.EscapedUnchanged` | mdgen.py:48-49 | The output equals the input exactly when the input holds no key, and the empty string maps to itself. |
| `MarkdownEscape.EscapedLength` | mdgen.py:48-49 | The output is never shorter than the input. |
| `MarkdownEscape.EscapedNoRawSpecial` | mdgen.py:26-49 | No key other than `&` and `#` survives in the output: each one is removed at its step, and no later replacement text brings it back. |
| `MarkdownEscape.EscapedExamples` | mdgen.py:30-41 | `'` becomes `&&#35;39;` and the backtick becomes `&&#35;96;`: their `#` is escaped again at the `#` step. `+` becomes plain `&#43;`. |
| `MarkdownEscape.EscapedNotIdempotent` | mdgen.py:48-49 | Escaping `+` twice gives `&amp;&#35;43;`, which is not the result of escaping it once. |
| `MarkdownEscape.EscapedReadsBackWrongly` | mdgen.py:30-40 | As written, decoding the output for `'` gives the five characters `&#39;`, not `'`. |
| `MarkdownEscape.FixedIsLookup` | mdgen.py:26-44 | With the `#` entry moved to second place, each character is replaced by its own table entry exactly once. |
| `MarkdownEscape.FixedReadsBack` | mdgen.py:26-49 | Round trip for the corrected order: decoding the output gives back the input. |
| `MarkdownEscape.FixedNoRawSpecial` | mdgen.py:26-49 | The corrected order still leaves no raw key other than `&` and `#`. |
| `Readme.GenerateReadme` | mdgen.py:53-219 | The content is the template with the report filled in (`ReadmeContent`), and `escape_special_chars` is not applied. |
| `Readme.ReportInPlace` | mdgen.py:147-150 | The document is fixed text, then the report unchanged, then fixed text. The report sits at the same offset whatever is installed. |
| `Readme.ContentDeterminedByReport` | mdgen.py:54-219 | Two installations give the same document exactly when they give the same report. |
| `Readme.SameAnswersSameDocument` | mdgen.py:5-18 | Lookups that agree on the six names give the same document. |
| `Readme.ReadmeLines` | mdgen.py:145-151 | Line by line, if no version has a line break: the opening prose, a blank line, `## Dependency Versions`, the six report lines, a blank line, `## System Requirements`, then the closing prose. |
| `Readme.ContentNotMarkdownEscaped` | mdgen.py:221-223 | The written content is not Markdown-escaped: escaping it would change it, because its headings start with `#`. |

## Left out

- Writing `README.md` and the success message (`print`) are file and console
  I/O. `GenerateReadme` returns the content that would be written.
- The `importlib.metadata` query and its import inside the `try` are a
  runtime call into the package registry. They become the `lookup`
  parameter. Every exception the bare `except` catches, including a failed
  import, is `None`.
- How `html.escape` is implemented inside the Python library is not
  modelled. Only its documented mapping is, with its default `quote=True`.
  The same goes for `str.replace`, `str.join` and `str.split`: each is
  modelled by what it does.
- The wording of the template's fixed prose is left out. This is the text
  from the title to the "Limitations" section, and from the "System
  Requirements" list to the end. `Readme.Opening` and `Readme.Closing` are
  constants whose value is left open, so every proved property holds for
  any wording. The `{{`/`}}` doubling in the template is f-string syntax
  for literal braces, not logic.
- `main` and the `__main__` guard only call `generate_readme`.
- `Html.Unescape` knows only the character references that the two escapers
  emit, not the whole HTML entity table. That covers everything the model
  decodes.

## Findings

| source | as written | input that shows it | evidently intended | confidence | as-written member | corrected member |
|---|---|---|---|---|---|---|
| mdgen.py:30-40 | The `#` entry comes after the ten entries whose entities are `&#NN;`, so the `#` step escapes the `#` of those entities again. `'` becomes `&&#35;39;`, and a renderer shows it as the text `&#39;`. | `'` (also the backtick, `*`, `_`, `{`, `}`, `[`, `]`, `(`, `)`) | Each special character is replaced by its own entity once, so the rendered output shows the input. One fix is to run the `#` entry right after `&`. | not executed | `MarkdownEscape.EscapedReadsBackWrongly` | `MarkdownEscape.FixedReadsBack` |

The finding does not affect the generated file, because `generate_readme`
does not call `escape_special_chars` (mdgen.py:221-223).
