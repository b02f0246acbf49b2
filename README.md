# Avro interface documentation generator, modelled in Dafny

This project models `avro/python/docs.py`. That script turns a tree of Avro IDL files into
Markdown documentation. The tree has one `v<version>` directory per interface version; each
holds `.avdl` protocol files and a `schema/` directory of generated `.avsc` files. The script
has three parts:

- **Data.** `Schema`, `Protocol` and `Version` are value records (module `Model`).
- **Scanning.** `Protocol.from_avdl` reads an IDL file line by line. It picks out the `enum`
  and `record` declarations with the pattern `\s*(?:enum|record)\s+([a-zA-Z0-9_]+)\s*{`
  (module `Declarations`, a deterministic scanner for that pattern). It records where each
  schema's `.avsc` file should be, and reports the ones that are absent. `Docs._enumerate`
  globs `v*` under the root and `*.avdl` in each version directory, then builds the
  Version -> Protocol -> Schema tree. The `Docs` class and the scanning loops are in module
  `Render`; their specifications are in `Model`.
- **Rendering.** The Markdown helpers `h1`, `h2`, `h3`, `list_item`, `link`, `to_anchor` and
  `code` are in module `Markdown`. `generate_index` writes `index.md`, with one link per
  version. `generate_versions` writes `version-<v>.md`: an overview of the version's
  protocols and schemas, then one section per protocol holding its IDL text verbatim
  (module `Render`).

Supporting modules:

- `Text`: the character classes of Python's `re` module and greedy runs over them. It also
  holds text-mode reading: universal newlines, and splitting into lines that keep their
  line ending.
- `Paths`: the part of `pathlib` the script uses (`name`, `parent`, `stem`).

The file system is a value (`Model.FileSystem`). It gives each directory's entries in
listing order, each file's contents, and whether a file exists. Every loop of the source is
a `method` with loop invariants. Each method is proved equal to a pure specification
function (`Declared`, `Enumerated`, `IndexPage`, `VersionPage`, …), and the lemmas state
what those functions promise. Output files are returned as `Page(path, text)` values in the
order they are written.

## Model

| member | source | states |
|---|---|---|
| Declarations.ParseSound | avro/python/docs.py:20 | A line the scanner accepts consists of optional whitespace, then `enum` or `record`, at least one whitespace character, a non-empty `[a-zA-Z0-9_]` name, optional whitespace and `{`. The pieces it returns rebuild the line exactly. |
| Declarations.ParseComplete | avro/python/docs.py:20 | Every line of that shape is accepted, and cut into exactly the pieces it was built from. So the captured group is the declared identifier, and the pattern matches if and only if the line has the shape. |
| Declarations.AnchoredAtLineStart | avro/python/docs.py:20 | `re.match` is anchored. A line whose first non-whitespace character cannot start `enum` or `record` declares nothing. |
| Declarations.KeywordNeedsWhitespace | avro/python/docs.py:20 | A keyword not followed by whitespace (e.g. `recordFoo {`) declares nothing, because `\s+` needs at least one character. |
| Declarations.OneNameBeforeBrace | avro/python/docs.py:20 | A name followed by anything other than whitespace and `{` (e.g. `record A B {`) declares nothing. |
| Declarations.MatchTailSound | avro/python/docs.py:20 | The tail after the keyword is matched as whitespace, name, optional whitespace and `{`, and splits the text exactly. |
| Declarations.MatchTailComplete | avro/python/docs.py:20 | Every tail of that shape is matched, with the pieces it was built from. |
| Declarations.MatchTailStops | avro/python/docs.py:20 | A tail whose name is followed by a character other than whitespace or `{` is not matched. |
| Declarations.KeywordSound | avro/python/docs.py:20 | The keyword alternation yields one of the two keywords, and it is a prefix of the text. |
| Declarations.RunSound | avro/python/docs.py:20 | A greedy run (`\s*`, `[a-zA-Z0-9_]+`) splits the text into a prefix of class characters and the rest. |
| Declarations.RunOfSplit | avro/python/docs.py:20 | A greedy run stops exactly at the first character outside its class. |
| Declarations.MatchBraceSound | avro/python/docs.py:20 | `\s*{` consumes whitespace up to a `{`, and splits the text exactly. |
| Declarations.MatchBraceComplete | avro/python/docs.py:20 | Whitespace followed by `{` is always matched, at that brace. |
| Model.FromAvdl | avro/python/docs.py:22-34 | The loop over the file's lines yields `ProtocolOf(fs, path)`: the file's stem, its path, and the schemas declared in the file, in line order. The reported paths are exactly the unresolved schema paths, in order. |
| Model.DeclaredByLine | avro/python/docs.py:26-33 | There is one schema per declaration line, in increasing line order. A line contributes a schema if and only if it matches the pattern. Each schema is named by its line's captured identifier and points at that name's `.avsc` file. |
| Model.DeclaredIsCollected | avro/python/docs.py:26-33 | Scanning line by line equals matching every line first and then collecting the matches in order. |
| Model.DeclaredAppend | avro/python/docs.py:26-33 | The schemas declared in two consecutive blocks of lines are those of the first block followed by those of the second. |
| Model.DeclarationLinesExact | avro/python/docs.py:26-28 | The indices of the matching lines are strictly increasing, and they are exactly the lines that match. |
| Model.CollectByLine | avro/python/docs.py:28-33 | The k-th collected schema carries the k-th captured name and that name's schema path. |
| Model.SchemaPath | avro/python/docs.py:30 | A schema's expected file lies in `<avdl parent>/schema/` and is named `<name>.avsc`. |
| Model.SchemasInSchemaDir | avro/python/docs.py:30 | Every declared schema's path is `<avdl parent>/schema/<name>.avsc`. |
| Model.UnresolvedReportsMissing | avro/python/docs.py:31-32 | A declared schema's path is reported if and only if that file is absent. Nothing else is reported, and there are no more reports than schemas. |
| Model.ScannedLinesAreRawText | avro/python/docs.py:25-26 | The lines the scan reads join back into exactly the text that `raw_text` returns for the same file. |
| Model.RawTextVerbatim | avro/python/docs.py:36-38 | A file with `\n` line endings is returned by `raw_text` exactly as stored. |
| Model.ProtocolLayout | avro/python/docs.py:34 | A protocol built from `<name>.avdl` is named `<name>`, and its schemas sit in the `schema` directory beside the file. |
| Model.StemOfIdlName | avro/python/docs.py:34 | The stem of `<name>.avdl` with a non-empty name is that name. |
| Paths.StemPrefix | avro/python/docs.py:34 | `PurePath.stem` is a prefix of the name. When it differs from the name, it is cut at the last dot and the suffix is non-empty and dot-free. |
| Paths.StemOfExtension | avro/python/docs.py:34 | The stem of `base.ext` (non-empty base, non-empty dot-free extension) is `base`. |
| Paths.LastDotFound | avro/python/docs.py:34 | The last-dot search finds a dot with no dot after it, or reports none. |
| Model.SelectSound | avro/python/docs.py:100-103 | Every globbed path is an entry directly inside the directory whose name matches the pattern. |
| Model.SelectExact | avro/python/docs.py:100-103 | Globbing misses nothing and keeps listing order: the selected paths are exactly the matching entries, one per entry, in the order the directory lists them. |
| Model.VersionComplete | avro/python/docs.py:103-108 | A version holds exactly one protocol per `*.avdl` entry of its directory, in listing order, and nothing else. |
| Model.EnumeratedComplete | avro/python/docs.py:98-108 | `_enumerate` yields exactly one version per `v*` entry of the root, in listing order, and nothing else. |
| Model.VersionLayout | avro/python/docs.py:102-108 | Every protocol of a version directory lies directly in it and is named by its file's stem. Its schemas are expected in `<version dir>/schema/`. |
| Model.EnumeratedLayout | avro/python/docs.py:98-108 | Every enumerated version comes from a `v<version>` directory directly under the root. Every protocol and schema in it follows the layout above. |
| Model.ProtocolsAt | avro/python/docs.py:104-107 | One protocol per IDL file, in glob order, each built by `from_avdl`. |
| Model.VersionsAt | avro/python/docs.py:101-108 | One version per version directory, in glob order, each built from that directory. |
| Render.ScanVersions | avro/python/docs.py:100-108 | The outer loop yields exactly the specified versions, and the missing-schema reports of all of them, in order. |
| Render.ScanVersion | avro/python/docs.py:101-108 | One iteration builds the version of its directory: the name without the leading `v`, the directory, and its protocols. |
| Render.ScanProtocols | avro/python/docs.py:103-107 | The inner loop yields the protocols of the IDL files in order, with their reports in order. |
| Render.Docs.Enumerate | avro/python/docs.py:98-108 | `_enumerate` replaces `versions` with the tree enumerated from the root, and appends the reports of that scan. |
| Render.Docs.constructor | avro/python/docs.py:84-87 | A new generator holds the root path, the enumerated versions, and the reports of that scan. |
| Markdown.HeadingLevels | avro/python/docs.py:48-57 | `h1`, `h2` and `h3` start with exactly 1, 2 and 3 `#`s, and hold the title verbatim. |
| Markdown.HeadingLines | avro/python/docs.py:48-57 | For a one-line title, each heading is the line `#… title` followed by one blank line. |
| Markdown.ListItemIndent | avro/python/docs.py:60-62 | A list item is indented by exactly two spaces per level, followed by `- text` and a line break. Items at different levels differ only in indentation. |
| Markdown.ListItemIsLine | avro/python/docs.py:60-62 | A list item of one-line text is exactly one line. |
| Markdown.Repeat | avro/python/docs.py:61 | `' ' * n` has length `n`, or 0 for negative `n`. |
| Markdown.LinkInjective | avro/python/docs.py:65-66 | A link whose text holds no `]` determines both its text and its URL. |
| Markdown.AnchorChars | avro/python/docs.py:69-70 | An anchor is `#` followed by the text character by character, lower-cased, with spaces replaced by `-`. |
| Markdown.AnchorNormalised | avro/python/docs.py:69-70 | An anchor has no space and no ASCII capital, and no line break if the text has none. Texts equal up to case give the same anchor. |
| Markdown.LowerAt | avro/python/docs.py:70 | Lower-casing keeps the length and maps each character on its own. |
| Markdown.HyphenateSpacesAt | avro/python/docs.py:70 | `replace(" ", "-")` keeps the length and replaces exactly the spaces. |
| Markdown.CodeVerbatim | avro/python/docs.py:73-77 | A code block is a ```` ``` ```` fence with the language tag and a line break, then the text verbatim, then a line break and a closing fence line. |
| Render.Docs.GenerateIndex | avro/python/docs.py:110-115 | The index page is written to `<output dir>/index.md`, and its text is the specified index page. |
| Render.IndexPageLines | avro/python/docs.py:113-115 | The index's lines are the title heading, a blank line, and then exactly one `- [v](version-v.md)` line per version, in order. |
| Render.IndexEntriesLines | avro/python/docs.py:114-115 | The entries are exactly one line per version, each linking to that version's page. |
| Render.IndexEntryLine | avro/python/docs.py:115 | The entry of a version is the one line `- [v](version-v.md)`. |
| Render.Docs.GenerateVersions | avro/python/docs.py:117-137 | One page per version, in order. Each is at `<output dir>/version-<v>.md` and holds the specified version page. |
| Render.WriteVersion | avro/python/docs.py:123-137 | The text written for one version is the title, then `## Overview` with the overview entries, then `## Protocols` with the accumulated body. |
| Render.WriteProtocols | avro/python/docs.py:126-134 | The loop over the protocols writes the overview entries in order, and accumulates the sections in `body` in the same order. |
| Render.WriteOverviewEntry | avro/python/docs.py:127-132 | The overview entry of a protocol is its summary item, followed by its schema items. |
| Render.WriteSchemaItems | avro/python/docs.py:129-132 | The loop over the schemas appends one nested link item per schema, in order, to what has been written. |
| Render.SchemaItemLine | avro/python/docs.py:129-132 | A schema's item is the one indented line `  - [name](<url base>/v<version>/schema/<file>)`. |
| Render.SchemaItemsLines | avro/python/docs.py:129-132 | A protocol's schema items are exactly one line per schema, in order. |
| Render.ProtocolSummaryLine | avro/python/docs.py:127-128 | A protocol's summary is the one line `- [name](#anchor) includes schemas:`. |
| Render.OverviewEntryLines | avro/python/docs.py:127-132 | A protocol's overview entry is its summary line followed by one line per schema. |
| Render.PagePartsAt | avro/python/docs.py:126-134 | The overview and the body of a version page each split at any protocol into the parts for the earlier protocols, that protocol's part, and the parts for the later ones. |
| Render.SectionText | avro/python/docs.py:133-134 | A protocol's section is its `###` heading, then the IDL text verbatim between an `avdl` fence and a closing fence. |
| Render.SchemaUrlOfLayout | avro/python/docs.py:130-131 | For a schema laid out by the scan, the link is `<url base>/<version dir>/schema/<name>.avsc`. |
| Render.SchemaLinksOfEnumerated | avro/python/docs.py:98-108 | Every schema link of an enumerated tree points at that schema's own `.avsc` file under its version directory. |
| Render.Docs.GenerateMarkdown | avro/python/docs.py:139-141 | The index page comes first, then the version pages in order, with URL base `/protocol`. |
| Text.Span | avro/python/docs.py:20 | A greedy run never passes the end of the text, and stops only at a character outside its class. |
| Text.SpanAll | avro/python/docs.py:20 | Every character a greedy run takes is in its class. |
| Text.SpanOfSplit | avro/python/docs.py:20 | A run over class characters followed by a non-class character has exactly that length. |
| Text.SpanStops | avro/python/docs.py:20 | A run never passes a character outside its class. |
| Text.AllExcept | avro/python/docs.py:65-66 | A text without a given character lies entirely in the class of every other character; this is how a link text without `]`, and a line without an inner `\n`, are described. |
| Text.LinesJoin | avro/python/docs.py:26 | The lines a file yields join back into its text. |
| Text.LinesOfLine | avro/python/docs.py:26 | A text of a single line yields exactly that line. |
| Text.LinesAppend | avro/python/docs.py:26 | Text appended after a line break yields its own lines after the earlier ones. |
| Text.LinesSnoc | avro/python/docs.py:26 | Appending one line adds exactly that line. |
| Text.JoinLines | avro/python/docs.py:114-115 | Writing one line per element yields exactly those lines, in order. |
| Text.Universal | avro/python/docs.py:25 | Text-mode reading leaves no carriage return in the text. |
| Text.UniversalKeepsPlainText | avro/python/docs.py:37-38 | Text without carriage returns reads back unchanged. |
| Text.JoinSnoc | avro/python/docs.py:114-115 | Writing one more element appends exactly its text. |
| Text.JoinAppend | avro/python/docs.py:126-134 | Writing two runs of elements one after the other writes their texts one after the other. |
| Text.MapAt | avro/python/docs.py:104-108 | Building one value per element keeps the length, and puts each element's value at its position. |
| Markdown.RepeatAll | avro/python/docs.py:61 | `' ' * n` consists of spaces only. |
| Markdown.TwoLines | avro/python/docs.py:48-57 | A one-line title followed by two line breaks is that line, then a blank line. |
| Declarations.Parse | avro/python/docs.py:20 | `type_re.match(line)`: leading whitespace, keyword, whitespace, name, whitespace and `{`, taken greedily left to right, or no match; characterised by ParseSound and ParseComplete. |
| Declarations.DeclaredName | avro/python/docs.py:27-29 | `match.group(1)` when the line matches, otherwise nothing; characterised by DeclaredByLine. |
| Paths.Name | avro/python/docs.py:102 | `PurePath.name`: the last component of a path (empty for the empty path). |
| Paths.Parent | avro/python/docs.py:30 | `PurePath.parent`: the path without its last component. |
| Paths.Stem | avro/python/docs.py:34 | `PurePath.stem`: the name cut at its last dot unless that dot is first or last; characterised by StemPrefix and StemOfExtension. |
| Model.ReadLines | avro/python/docs.py:25-26 | `for line in f` on a file opened in text mode: the newline-translated text split into lines that keep their `\n`. |
| Model.RawText | avro/python/docs.py:36-38 | `raw_text`: the whole file read in text mode; related to the scan by ScannedLinesAreRawText. |
| Model.Declared | avro/python/docs.py:26-33 | The schemas of the matching lines, in line order; characterised by DeclaredByLine and SchemasInSchemaDir. |
| Model.Unresolved | avro/python/docs.py:31-32 | The schema paths the scan reports as missing, in order; characterised by UnresolvedReportsMissing. |
| Model.ProtocolOf | avro/python/docs.py:22-34 | What `from_avdl` returns: the stem of the file, its path and its declared schemas; FromAvdl is proved equal to it. |
| Model.Select | avro/python/docs.py:100-103 | The matching entries of a directory listing, as paths, in listing order; characterised by SelectSound and SelectExact. |
| Model.Glob | avro/python/docs.py:100-103 | `dir.glob(pattern)` over the directory's listing; characterised by SelectSound and SelectExact. |
| Model.VersionName | avro/python/docs.py:102 | `vdir.name[1:]`: the directory name without its first character. |
| Model.Protocols | avro/python/docs.py:103-107 | One protocol per IDL file, in order; characterised by ProtocolsAt. |
| Model.VersionOf | avro/python/docs.py:101-108 | The version of one directory; characterised by VersionLayout and VersionComplete. |
| Model.Versions | avro/python/docs.py:100-108 | One version per directory, in order; characterised by VersionsAt. |
| Model.Enumerated | avro/python/docs.py:98-108 | The tree `_enumerate` builds from the root; characterised by EnumeratedLayout and EnumeratedComplete. |
| Model.Reports | avro/python/docs.py:31-32 | The missing-schema reports of a whole scan, version by version and protocol by protocol. |
| Markdown.H1 | avro/python/docs.py:48-49 | `# title` followed by a blank line; characterised by HeadingLevels and HeadingLines. |
| Markdown.H2 | avro/python/docs.py:52-53 | `## title` followed by a blank line; characterised by HeadingLevels and HeadingLines. |
| Markdown.H3 | avro/python/docs.py:56-57 | `### title` followed by a blank line; characterised by HeadingLevels and HeadingLines. |
| Markdown.ListItem | avro/python/docs.py:60-62 | Two spaces per indent level, `- `, the text and a line break; characterised by ListItemIndent and ListItemIsLine. |
| Markdown.Link | avro/python/docs.py:65-66 | `[text](url)`; characterised by LinkInjective. |
| Markdown.Lower | avro/python/docs.py:70 | `str.lower()` on ASCII letters; characterised by LowerAt. |
| Markdown.HyphenateSpaces | avro/python/docs.py:70 | `replace(" ", "-")`; characterised by HyphenateSpacesAt. |
| Markdown.ToAnchor | avro/python/docs.py:69-70 | `#` followed by the lower-cased text with spaces turned into `-`; characterised by AnchorChars and AnchorNormalised. |
| Markdown.Code | avro/python/docs.py:73-77 | A fenced code block with a language tag around the text; characterised by CodeVerbatim. |
| Render.IndexEntry | avro/python/docs.py:115 | The list item linking a version to its page; characterised by IndexEntryLine. |
| Render.IndexPage | avro/python/docs.py:110-115 | The text `generate_index` writes; GenerateIndex is proved equal to it and IndexPageLines gives its lines. |
| Render.SchemaUrl | avro/python/docs.py:130-131 | `Path(proto_url_path) / f"v{version}" / "schema" / schema.path.name` as text; characterised by SchemaUrlOfLayout. |
| Render.SchemaItem | avro/python/docs.py:132 | The nested link item of one schema; characterised by SchemaItemLine. |
| Render.ProtocolSummary | avro/python/docs.py:127-128 | The overview item of one protocol; characterised by ProtocolSummaryLine. |
| Render.OverviewEntry | avro/python/docs.py:127-132 | A protocol's summary item followed by its schema items; characterised by OverviewEntryLines. |
| Render.Overview | avro/python/docs.py:126-132 | The overview entries of all protocols, in order; split by PagePartsAt. |
| Render.Section | avro/python/docs.py:133-134 | A protocol's `###` heading and its IDL text in an `avdl` block; characterised by SectionText. |
| Render.Body | avro/python/docs.py:122-134 | The accumulated `body`: the sections of all protocols, in order; split by PagePartsAt. |
| Render.VersionPage | avro/python/docs.py:123-137 | The text `generate_versions` writes for one version; WriteVersion is proved equal to it. |
| Render.VersionPath | avro/python/docs.py:121 | `output_dir / f"version-{version}.md"`. |

## Left out

- Reading and writing files is modelled on values. Reads come from `Model.FileSystem`, a
  total function, so an unreadable file or a failed write (exceptions in the source) is not
  modelled. Writes are the returned `Page` values, so a page left partly written after an
  exception is not modelled either.
- The `print` of a missing schema file is modelled as the list of reported paths
  (`missing`, `reported`); the message text is not modelled.
- The order of `Path.glob` results is the directory's listing order, given as input
  (`FileSystem.children`); the operating system decides it. Case-insensitive matching on
  case-insensitive file systems is not modelled. Symbolic links are not modelled.
- `Path.glob("v*")` also yields plain files whose name starts with `v`. The model lets them
  through, as the source does: a plain file has no entries, so it becomes a version with no
  protocols.
- Text decoding (the platform's default encoding) is not modelled. Files are sequences of
  characters after decoding. Text mode is modelled only for universal newlines (`Text.Universal`).
- Markdown.LowerChar: `str.lower()` is modelled for ASCII letters only; other characters
  are left unchanged, whereas Python also lower-cases non-ASCII letters.
- Render.SchemaUrl: `str(Path(proto_url_path) / …)` is modelled as joining with `/`.
  Path normalisation is not modelled (collapsed double slashes, a version string holding
  `/`, Windows separators).
- The `Docs.generate_*` write order is the order of the returned pages. Within one version
  page, `WriteOverviewEntry` builds a protocol's summary and schema items and then appends
  them, where the source writes them to the file one by one; the written text is the same.
- The command-line drivers that call this module (`avro/python/generate.py`,
  `interface-gen/generate.py`, `interface_gen/toolchain.py`) are not part of this model.
