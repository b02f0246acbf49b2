/** The page renderers of the documentation generator. The pages are specified by pure
    functions over the Version -> Protocol -> Schema tree; the `Docs` class scans the
    protocol root into that tree and writes the pages the way the generator does, one
    `write` (here: one string append) at a time. A written file is returned as a `Page`. */
module Render {
  import opened Text
  import opened Paths
  import opened Markdown
  import opened Model

  /** A file written by the generator: where, and its whole text. */
  datatype Page = Page(path: Path, text: string)

  // ---------------------------------------------------------------- index page

  const IndexTitle := "Interface Specification Versions"

  /** The index item of one version: a link to that version's page. */
  function IndexEntry(v: Version): string {
    ListItem(Link(v.version, "version-" + v.version + ".md"))
  }

  /** The index items of the given versions, in order. */
  function IndexEntries(vs: seq<Version>): string {
    Join(IndexEntry, vs)
  }

  /** The text `generate_index` writes to `index.md`. */
  function IndexPage(vs: seq<Version>): string {
    H1(IndexTitle) + IndexEntries(vs)
  }

  /** A version string without line breaks gives an index item that is one line. */
  lemma IndexEntryLine(v: Version)
    requires '\n' !in v.version
    ensures IndexEntry(v) == "- [" + v.version + "](version-" + v.version + ".md)\n"
    ensures IsLine(IndexEntry(v))
  {
    var t := Link(v.version, "version-" + v.version + ".md");
    assert t == "[" + v.version + "](version-" + v.version + ".md)";
    assert '\n' !in t;
    ListItemIsLine(t, 0);
  }

  /** One line per version, in order. */
  lemma IndexEntriesLines(vs: seq<Version>)
    requires forall v :: v in vs ==> '\n' !in v.version
    ensures EndsLine(IndexEntries(vs))
    ensures |Lines(IndexEntries(vs))| == |vs|
    ensures forall k :: 0 <= k < |vs| ==>
      Lines(IndexEntries(vs))[k] == "- [" + vs[k].version + "](version-" + vs[k].version + ".md)\n"
  {
    forall k | 0 <= k < |vs|
      ensures IsLine(IndexEntry(vs[k]))
      ensures IndexEntry(vs[k]) == "- [" + vs[k].version + "](version-" + vs[k].version + ".md)\n"
    {
      IndexEntryLine(vs[k]);
    }
    JoinLines(IndexEntry, vs);
  }

  /** The index page is the title line, a blank line, then exactly one item per
      version, in order, each linking the version string to `version-<version>.md`. */
  lemma IndexPageLines(vs: seq<Version>)
    requires forall v :: v in vs ==> '\n' !in v.version
    ensures var ls := Lines(IndexPage(vs));
      |ls| == |vs| + 2 &&
      ls[0] == "# " + IndexTitle + "\n" && ls[1] == "\n" &&
      forall k :: 0 <= k < |vs| ==>
        ls[k + 2] == "- [" + vs[k].version + "](version-" + vs[k].version + ".md)\n"
  {
    var entries := Lines(IndexEntries(vs));
    HeadingLines(IndexTitle);
    IndexEntriesLines(vs);
    LinesAppend(H1(IndexTitle), IndexEntries(vs));
    assert Lines(IndexPage(vs)) == ["# " + IndexTitle + "\n", "\n"] + entries;
  }

  // -------------------------------------------------------------- version pages

  /** `Path(proto_url_path) / f"v{version}" / "schema" / schema.path.name`, as text. */
  function SchemaUrl(urlBase: string, version: string, s: Schema): string {
    urlBase + "/v" + version + "/schema/" + Name(s.path)
  }

  /** The nested item of one schema: a link to its published `.avsc` file. */
  function SchemaItem(urlBase: string, version: string, s: Schema): string {
    ListItem(Link(s.name, SchemaUrl(urlBase, version, s)), 1)
  }

  /** The nested items of the given schemas, in order. */
  function SchemaItems(urlBase: string, version: string, schemas: seq<Schema>): string {
    Join((s: Schema) => SchemaItem(urlBase, version, s), schemas)
  }

  /** The top-level overview item of a protocol: a link to its section. */
  function ProtocolSummary(p: Protocol): string {
    ListItem(Link(p.name, ToAnchor(p.name)) + " includes schemas:")
  }

  /** The overview entry of one protocol: its summary, then its schemas. */
  function OverviewEntry(urlBase: string, version: string, p: Protocol): string {
    ProtocolSummary(p) + SchemaItems(urlBase, version, p.schemas)
  }

  /** The overview entries of the given protocols, in order. */
  function Overview(urlBase: string, version: string, ps: seq<Protocol>): string {
    Join((p: Protocol) => OverviewEntry(urlBase, version, p), ps)
  }

  /** The section of one protocol: its heading and its IDL text in a fenced block. */
  function Section(fs: FileSystem, p: Protocol): string {
    H3(p.name) + Code(RawText(fs, p), "avdl")
  }

  /** The sections of the given protocols, in order (the `body` accumulator). */
  function Body(fs: FileSystem, ps: seq<Protocol>): string {
    Join((p: Protocol) => Section(fs, p), ps)
  }

  function VersionTitle(v: Version): string {
    "Interface Specification Version " + v.version
  }

  /** The text `generate_versions` writes for one version: title, overview, then the
      protocol sections. */
  function VersionPage(fs: FileSystem, urlBase: string, v: Version): string {
    H1(VersionTitle(v)) + H2("Overview") + Overview(urlBase, v.version, v.protocols) +
    H2("Protocols") + Body(fs, v.protocols)
  }

  /** `output_dir / f"version-{version}.md"`. */
  function VersionPath(outputDir: Path, v: Version): Path {
    outputDir + ["version-" + v.version + ".md"]
  }

  /** The line of a schema item when its name and link carry no line break. */
  lemma SchemaItemLine(urlBase: string, version: string, s: Schema)
    requires '\n' !in s.name && '\n' !in SchemaUrl(urlBase, version, s)
    ensures SchemaItem(urlBase, version, s) ==
      "  - [" + s.name + "](" + urlBase + "/v" + version + "/schema/" + Name(s.path) + ")\n"
    ensures IsLine(SchemaItem(urlBase, version, s))
  {
    var url := SchemaUrl(urlBase, version, s);
    var t := Link(s.name, url);
    assert t == "[" + s.name + "](" + url + ")";
    assert '\n' !in t;
    ListItemIsLine(t, 1);
    assert Repeat(' ', 2) == "  ";
  }

  /** The summary line of a protocol whose name has no line break. */
  lemma ProtocolSummaryLine(p: Protocol)
    requires '\n' !in p.name
    ensures ProtocolSummary(p) == "- [" + p.name + "](" + ToAnchor(p.name) + ") includes schemas:\n"
    ensures IsLine(ProtocolSummary(p))
  {
    var a := ToAnchor(p.name);
    AnchorNormalised(p.name, p.name);
    var t := Link(p.name, a) + " includes schemas:";
    assert t == "[" + p.name + "](" + a + ") includes schemas:";
    assert '\n' !in t;
    ListItemIsLine(t, 0);
  }

  /** The overview entry of a protocol is one top-level line linking the protocol name
      to its anchor, followed by one nested line per schema, in order, each linking the
      schema name to `<url base>/v<version>/schema/<file name>`. */
  lemma OverviewEntryLines(urlBase: string, version: string, p: Protocol)
    requires '\n' !in p.name
    requires forall s :: s in p.schemas ==> '\n' !in s.name && '\n' !in SchemaUrl(urlBase, version, s)
    ensures EndsLine(OverviewEntry(urlBase, version, p))
    ensures var ls := Lines(OverviewEntry(urlBase, version, p));
      |ls| == |p.schemas| + 1 &&
      ls[0] == "- [" + p.name + "](" + ToAnchor(p.name) + ") includes schemas:\n" &&
      forall k :: 0 <= k < |p.schemas| ==>
        ls[k + 1] == "  - [" + p.schemas[k].name + "](" + urlBase + "/v" + version + "/schema/" +
          Name(p.schemas[k].path) + ")\n"
  {
    var summary := ProtocolSummary(p);
    var items := SchemaItems(urlBase, version, p.schemas);
    SchemaItemsLines(urlBase, version, p.schemas);
    ProtocolSummaryLine(p);
    LinesOfLine(summary);
    LinesAppend(summary, items);
    assert EndsLine(summary + items) by {
      if items != [] {
        assert (summary + items)[|summary + items| - 1] == items[|items| - 1];
      }
    }
  }

  /** One nested line per schema, in order. */
  lemma SchemaItemsLines(urlBase: string, version: string, schemas: seq<Schema>)
    requires forall s :: s in schemas ==> '\n' !in s.name && '\n' !in SchemaUrl(urlBase, version, s)
    ensures EndsLine(SchemaItems(urlBase, version, schemas))
    ensures |Lines(SchemaItems(urlBase, version, schemas))| == |schemas|
    ensures forall k :: 0 <= k < |schemas| ==>
      Lines(SchemaItems(urlBase, version, schemas))[k] ==
        "  - [" + schemas[k].name + "](" + urlBase + "/v" + version + "/schema/" + Name(schemas[k].path) + ")\n"
  {
    var item := (s: Schema) => SchemaItem(urlBase, version, s);
    forall k | 0 <= k < |schemas|
      ensures IsLine(item(schemas[k]))
      ensures item(schemas[k]) ==
        "  - [" + schemas[k].name + "](" + urlBase + "/v" + version + "/schema/" + Name(schemas[k].path) + ")\n"
    {
      SchemaItemLine(urlBase, version, schemas[k]);
    }
    JoinLines(item, schemas);
  }

  /** The overview entry and the section of the protocol at position `k` stand at
      position `k` of the overview and of the body: after those of the protocols before
      it and before those of the protocols after it. */
  lemma PagePartsAt(fs: FileSystem, urlBase: string, version: string, ps: seq<Protocol>, k: nat)
    requires k < |ps|
    ensures Overview(urlBase, version, ps) == Overview(urlBase, version, ps[..k]) +
      OverviewEntry(urlBase, version, ps[k]) + Overview(urlBase, version, ps[k + 1..])
    ensures Body(fs, ps) == Body(fs, ps[..k]) + Section(fs, ps[k]) + Body(fs, ps[k + 1..])
  {
    var entry := (p: Protocol) => OverviewEntry(urlBase, version, p);
    var section := (p: Protocol) => Section(fs, p);
    assert ps == ps[..k + 1] + ps[k + 1..];
    JoinAppend(entry, ps[..k + 1], ps[k + 1..]);
    JoinAppend(section, ps[..k + 1], ps[k + 1..]);
    JoinSnoc(entry, ps, k);
    JoinSnoc(section, ps, k);
  }

  /** The section of a protocol is its `###` heading, then the IDL text verbatim
      between an `avdl` fence and a closing fence. */
  lemma SectionText(fs: FileSystem, p: Protocol)
    ensures var r := Section(fs, p);
      var raw := RawText(fs, p);
      r[..|p.name| + 6] == "### " + p.name + "\n\n" &&
      r[|p.name| + 6..|p.name| + 14] == "```avdl\n" &&
      r[|p.name| + 14..|r| - 5] == raw && r[|r| - 5..] == "\n```\n"
  {
    var h := H3(p.name);
    var c := Code(RawText(fs, p), "avdl");
    CodeVerbatim(RawText(fs, p), "avdl");
    assert Section(fs, p) == h + c;
    assert |h| == |p.name| + 6;
  }

  /** A schema URL names the schema's own file: for a schema laid out as the scan lays
      them out, under a version directory named `v<version>`, the link is
      `<url base>/<version dir>/schema/<name>.avsc`. */
  lemma SchemaUrlOfLayout(urlBase: string, v: Version, s: Schema)
    requires "v" + v.version == Name(v.path)
    requires s.path == v.path + ["schema", s.name + ".avsc"]
    ensures SchemaUrl(urlBase, v.version, s) == urlBase + "/" + Name(v.path) + "/schema/" + s.name + ".avsc"
  {
  }

  /** For a scanned tree, every schema link points at `<url base>/<version dir>/schema/
      <name>.avsc`: the schema's own file, under the version's directory name. */
  lemma SchemaLinksOfEnumerated(fs: FileSystem, root: Path, urlBase: string)
    ensures forall v, p, s :: v in Enumerated(fs, root) && p in v.protocols && s in p.schemas ==>
      SchemaUrl(urlBase, v.version, s) == urlBase + "/" + Name(v.path) + "/schema/" + s.name + ".avsc"
  {
    EnumeratedLayout(fs, root);
    forall v, p, s | v in Enumerated(fs, root) && p in v.protocols && s in p.schemas
      ensures SchemaUrl(urlBase, v.version, s) == urlBase + "/" + Name(v.path) + "/schema/" + s.name + ".avsc"
    {
      SchemaUrlOfLayout(urlBase, v, s);
    }
  }

  // ----------------------------------------------------------------- generator

  /** `Docs`: the protocol root, the tree scanned from it, and the missing-schema
      reports the scans have printed so far. */
  class Docs {
    const rootPath: Path
    var versions: seq<Version>
    var reported: seq<Path>

    /** `Docs.__init__`: scans the root at once. */
    constructor(rootPath: Path, fs: FileSystem)
      ensures this.rootPath == rootPath
      ensures versions == Enumerated(fs, rootPath)
      ensures reported == Reports(fs, versions)
    {
      this.rootPath := rootPath;
      versions := [];
      reported := [];
      new;
      Enumerate(fs);
    }

    /** `Docs._enumerate`: one version per `v*` entry of the root and, inside, one
        protocol per `*.avdl` entry, both in directory order; the previous tree is
        discarded. The missing schema files are reported in scan order. */
    method Enumerate(fs: FileSystem)
      modifies this
      ensures versions == Enumerated(fs, rootPath)
      ensures reported == old(reported) + Reports(fs, versions)
    {
      var vs, printed := ScanVersions(fs, Glob(fs, rootPath, VersionDir));
      versions := vs;
      reported := reported + printed;
    }

    /** `generate_index`: writes the index page into `output_dir`. */
    method GenerateIndex(outputDir: Path) returns (page: Page)
      ensures page == Page(outputDir + ["index.md"], IndexPage(versions))
    {
      var text := H1(IndexTitle);
      for i := 0 to |versions|
        invariant text == H1(IndexTitle) + IndexEntries(versions[..i])
      {
        var ver := versions[i];
        JoinSnoc(IndexEntry, versions, i);
        text := text + ListItem(Link(ver.version, "version-" + ver.version + ".md"));
      }
      assert versions[..|versions|] == versions;
      page := Page(outputDir + ["index.md"], text);
    }

    /** `generate_versions`: writes one page per version, in order. */
    method GenerateVersions(outputDir: Path, urlBase: string, fs: FileSystem) returns (pages: seq<Page>)
      ensures |pages| == |versions|
      ensures forall k :: 0 <= k < |versions| ==>
        pages[k] == Page(VersionPath(outputDir, versions[k]), VersionPage(fs, urlBase, versions[k]))
    {
      pages := [];
      for i := 0 to |versions|
        invariant |pages| == i
        invariant forall k :: 0 <= k < i ==>
          pages[k] == Page(VersionPath(outputDir, versions[k]), VersionPage(fs, urlBase, versions[k]))
      {
        var ver := versions[i];
        var verPath := outputDir + ["version-" + ver.version + ".md"];
        var text := WriteVersion(fs, urlBase, ver);
        pages := pages + [Page(verPath, text)];
      }
    }

    /** `generate_markdown`: the index page, then the version pages, with schema links
        under `/protocol`. */
    method GenerateMarkdown(outputDir: Path, fs: FileSystem) returns (pages: seq<Page>)
      ensures |pages| == |versions| + 1
      ensures pages[0] == Page(outputDir + ["index.md"], IndexPage(versions))
      ensures forall k :: 0 <= k < |versions| ==>
        pages[k + 1] == Page(VersionPath(outputDir, versions[k]), VersionPage(fs, "/protocol", versions[k]))
    {
      var index := GenerateIndex(outputDir);
      var rest := GenerateVersions(outputDir, "/protocol", fs);
      pages := [index] + rest;
    }
  }

  /** The outer loop of `_enumerate`: one version per version directory, in order, and
      the missing schema files reported meanwhile. */
  method ScanVersions(fs: FileSystem, versionDirs: seq<Path>) returns (vs: seq<Version>, printed: seq<Path>)
    ensures vs == Versions(fs, versionDirs)
    ensures printed == Reports(fs, vs)
  {
    vs := [];
    printed := [];
    for i := 0 to |versionDirs|
      invariant vs == Versions(fs, versionDirs[..i])
      invariant printed == Reports(fs, vs)
    {
      var v, missing := ScanVersion(fs, versionDirs[i]);
      assert versionDirs[..i + 1][..i] == versionDirs[..i];
      assert (vs + [v])[..|vs|] == vs;
      printed := printed + missing;
      vs := vs + [v];
    }
    assert versionDirs[..|versionDirs|] == versionDirs;
  }

  /** The body of the `_enumerate` loop for one version directory: one protocol per IDL
      file in it, in directory order, and the missing schema files reported meanwhile. */
  method ScanVersion(fs: FileSystem, vdir: Path) returns (v: Version, missing: seq<Path>)
    ensures v == VersionOf(fs, vdir)
    ensures missing == ProtocolReports(fs, v.protocols)
  {
    var protos;
    protos, missing := ScanProtocols(fs, Glob(fs, vdir, IdlFile));
    v := Version(VersionName(Name(vdir)), vdir, protos);
  }

  /** The inner loop of `_enumerate`: `Protocol.from_avdl` on each IDL file in turn. */
  method ScanProtocols(fs: FileSystem, avdlFiles: seq<Path>) returns (protos: seq<Protocol>, missing: seq<Path>)
    ensures protos == Protocols(fs, avdlFiles)
    ensures missing == ProtocolReports(fs, protos)
  {
    protos := [];
    missing := [];
    for j := 0 to |avdlFiles|
      invariant protos == Protocols(fs, avdlFiles[..j])
      invariant missing == ProtocolReports(fs, protos)
    {
      var protocol, unresolved := FromAvdl(avdlFiles[j], fs);
      assert avdlFiles[..j + 1][..j] == avdlFiles[..j];
      assert (protos + [protocol])[..|protos|] == protos;
      missing := missing + unresolved;
      protos := protos + [protocol];
    }
    assert avdlFiles[..|avdlFiles|] == avdlFiles;
  }

  /** The body of the `generate_versions` loop for one version: the title and the
      overview heading, the overview entries, then the protocols heading and the
      sections that were accumulated in `body` meanwhile. */
  method WriteVersion(fs: FileSystem, urlBase: string, ver: Version) returns (text: string)
    ensures text == VersionPage(fs, urlBase, ver)
  {
    text := H1("Interface Specification Version " + ver.version);
    text := text + H2("Overview");
    var overview, body := WriteProtocols(fs, urlBase, ver.version, ver.protocols);
    text := text + overview;
    text := text + H2("Protocols");
    text := text + body;
  }

  /** The loop over the protocols of a version: each adds its overview entry to what is
      written and its section to `body`. */
  method WriteProtocols(fs: FileSystem, urlBase: string, version: string, ps: seq<Protocol>)
    returns (overview: string, body: string)
    ensures overview == Overview(urlBase, version, ps)
    ensures body == Body(fs, ps)
  {
    overview := "";
    body := "";
    for j := 0 to |ps|
      invariant overview == Overview(urlBase, version, ps[..j])
      invariant body == Body(fs, ps[..j])
    {
      var proto := ps[j];
      var entry := WriteOverviewEntry(urlBase, version, proto);
      JoinSnoc((p: Protocol) => OverviewEntry(urlBase, version, p), ps, j);
      JoinSnoc((p: Protocol) => Section(fs, p), ps, j);
      overview := overview + entry;
      body := body + H3(proto.name);
      body := body + Code(RawText(fs, proto), "avdl");
    }
    assert ps[..|ps|] == ps;
  }

  /** The overview lines of one protocol: the summary item, then the schema items. */
  method WriteOverviewEntry(urlBase: string, version: string, proto: Protocol) returns (entry: string)
    ensures entry == OverviewEntry(urlBase, version, proto)
  {
    var summary := Link(proto.name, ToAnchor(proto.name)) + " includes schemas:";
    entry := ListItem(summary);
    entry := WriteSchemaItems(entry, urlBase, version, proto.schemas);
  }

  /** The innermost loop of `generate_versions`: appends one nested item per schema to
      what has been written so far. */
  method WriteSchemaItems(written: string, urlBase: string, version: string, schemas: seq<Schema>)
    returns (text: string)
    ensures text == written + SchemaItems(urlBase, version, schemas)
  {
    text := written;
    for k := 0 to |schemas|
      invariant text == written + SchemaItems(urlBase, version, schemas[..k])
    {
      var schema := schemas[k];
      var spath := urlBase + "/v" + version + "/schema/" + Name(schema.path);
      var item := ListItem(Link(schema.name, spath), 1);
      assert item == SchemaItem(urlBase, version, schema);
      JoinSnoc((s: Schema) => SchemaItem(urlBase, version, s), schemas, k);
      text := text + item;
    }
    assert schemas[..|schemas|] == schemas;
  }
}
