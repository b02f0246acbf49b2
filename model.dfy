/** The documentation model: a version holds protocols (one per IDL file), a protocol
    holds the schemas its IDL file declares. `FromAvdl` builds a protocol from one IDL
    file; `Enumerated` is the tree that scanning a protocol root directory yields. */
module Model {
  import opened Text
  import opened Paths
  import opened Declarations

  /** One `.avsc` file expected to be generated from a declaration. */
  datatype Schema = Schema(name: string, path: Path)

  /** One `.avdl` file: its stem, its path and its declarations in file order. */
  datatype Protocol = Protocol(name: string, path: Path, schemas: seq<Schema>)

  /** One `v<version>` directory and the protocols found in it. */
  datatype Version = Version(version: string, path: Path, protocols: seq<Protocol>)

  /** The file system as the generator sees it. `children` lists a directory's
      entries in the order the operating system enumerates them (no entries for a
      plain file); `contents` is the text of a file; `present` says whether a file is
      present. */
  datatype FileSystem = FileSystem(
    children: Path -> seq<string>,
    contents: Path -> string,
    present: Path -> bool)

  /** The lines of a file read in text mode. */
  function ReadLines(raw: string): seq<string> {
    Lines(Universal(raw))
  }

  /** `Protocol.raw_text`: the whole IDL file, read in text mode. */
  function RawText(fs: FileSystem, p: Protocol): string {
    Universal(fs.contents(p.path))
  }

  /** The lines the scan reads join back into exactly the text that `raw_text` returns
      for the same file. */
  lemma ScannedLinesAreRawText(fs: FileSystem, avdlPath: Path)
    ensures Concat(ReadLines(fs.contents(avdlPath))) == RawText(fs, ProtocolOf(fs, avdlPath))
  {
    LinesJoin(Universal(fs.contents(avdlPath)));
  }

  /** A file with `\n` line endings is returned by `raw_text` exactly as stored. */
  lemma RawTextVerbatim(fs: FileSystem, p: Protocol)
    requires '\r' !in fs.contents(p.path)
    ensures RawText(fs, p) == fs.contents(p.path)
  {
    UniversalKeepsPlainText(fs.contents(p.path));
  }

  /** `<avdl parent>/schema/<name>.avsc`: where the schema of a declaration is expected. */
  function SchemaPath(avdlPath: Path, name: string): (p: Path)
    ensures Parent(p) == Parent(avdlPath) + ["schema"]
    ensures Name(p) == name + ".avsc"
  {
    Parent(avdlPath) + ["schema", name + ".avsc"]
  }

  /** What matching the declaration pattern against each line reports: the declared
      name, or nothing, line by line. */
  function Scan(lines: seq<string>): seq<Option<string>> {
    seq(|lines|, i requires 0 <= i < |lines| => DeclaredName(lines[i]))
  }

  /** One schema per reported name, in order, duplicates kept. */
  function Collect(avdlPath: Path, names: seq<Option<string>>): seq<Schema> {
    if names == [] then []
    else
      var init := Collect(avdlPath, names[..|names| - 1]);
      match names[|names| - 1]
      case None => init
      case Some(name) => init + [Schema(name, SchemaPath(avdlPath, name))]
  }

  /** The schema a line declares, if any. */
  function SchemaOfLine(avdlPath: Path, line: string): seq<Schema> {
    match DeclaredName(line)
    case None => []
    case Some(name) => [Schema(name, SchemaPath(avdlPath, name))]
  }

  /** The schemas that the lines of an IDL file declare. */
  function Declared(avdlPath: Path, lines: seq<string>): seq<Schema> {
    Join((line: string) => SchemaOfLine(avdlPath, line), lines)
  }

  /** Declaring line by line is collecting the names the scan reports. */
  lemma {:induction false} DeclaredIsCollected(avdlPath: Path, lines: seq<string>)
    ensures Declared(avdlPath, lines) == Collect(avdlPath, Scan(lines))
  {
    if lines != [] {
      var init := lines[..|lines| - 1];
      DeclaredIsCollected(avdlPath, init);
      var names := Scan(lines);
      assert names[..|names| - 1] == Scan(init);
    }
  }

  /** The expected schema files that are not present, in the order they are declared. */
  function Unresolved(schemas: seq<Schema>, fs: FileSystem): seq<Path> {
    if schemas == [] then []
    else
      var init := Unresolved(schemas[..|schemas| - 1], fs);
      var last := schemas[|schemas| - 1];
      if fs.present(last.path) then init else init + [last.path]
  }

  /** The protocol an IDL file describes. */
  function ProtocolOf(fs: FileSystem, avdlPath: Path): Protocol {
    Protocol(Stem(Name(avdlPath)), avdlPath, Declared(avdlPath, ReadLines(fs.contents(avdlPath))))
  }

  /** `Protocol.from_avdl`: scans the IDL file line by line. A declaration line adds its
      schema whether or not the schema file exists; a missing file is only reported
      (returned in `missing`, in the order the source prints them). */
  method FromAvdl(avdlPath: Path, fs: FileSystem) returns (p: Protocol, missing: seq<Path>)
    ensures p == ProtocolOf(fs, avdlPath)
    ensures missing == Unresolved(p.schemas, fs)
  {
    var lines := ReadLines(fs.contents(avdlPath));
    var schemas: seq<Schema> := [];
    missing := [];
    for i := 0 to |lines|
      invariant schemas == Declared(avdlPath, lines[..i])
      invariant missing == Unresolved(schemas, fs)
    {
      var found := DeclaredName(lines[i]);
      JoinSnoc((line: string) => SchemaOfLine(avdlPath, line), lines, i);
      if found.Some? {
        var schemaPath := SchemaPath(avdlPath, found.value);
        if !fs.present(schemaPath) {
          missing := missing + [schemaPath];
        }
        var before := schemas;
        schemas := schemas + [Schema(found.value, schemaPath)];
        assert schemas[..|schemas| - 1] == before;
      }
    }
    assert lines[..|lines|] == lines;
    p := Protocol(Stem(Name(avdlPath)), avdlPath, schemas);
  }

  /** Declarations of consecutive parts of a file follow one another. */
  lemma DeclaredAppend(avdlPath: Path, a: seq<string>, b: seq<string>)
    ensures Declared(avdlPath, a + b) == Declared(avdlPath, a) + Declared(avdlPath, b)
  {
    JoinAppend((line: string) => SchemaOfLine(avdlPath, line), a, b);
  }

  /** The positions of the reported names, in increasing order. */
  function DeclarationLines(names: seq<Option<string>>): seq<nat> {
    if names == [] then []
    else
      var init := DeclarationLines(names[..|names| - 1]);
      if names[|names| - 1].Some? then init + [|names| - 1] else init
  }

  /** The positions are listed in increasing order, and a position is listed if and only
      if a name was reported there. */
  lemma {:induction false} DeclarationLinesExact(names: seq<Option<string>>)
    ensures var idx := DeclarationLines(names);
      (forall k :: 0 <= k < |idx| ==> idx[k] < |names|) &&
      (forall k, m :: 0 <= k < m < |idx| ==> idx[k] < idx[m]) &&
      (forall i :: 0 <= i < |names| ==> (names[i].Some? <==> i in idx))
  {
    if names != [] {
      var n := |names|;
      var init := names[..n - 1];
      DeclarationLinesExact(init);
      var idx0 := DeclarationLines(init);
      var idx := DeclarationLines(names);
      forall i | 0 <= i < n
        ensures names[i].Some? <==> i in idx
      {
        if i < n - 1 {
          assert names[i] == init[i];
        } else {
          assert i !in idx0;
        }
      }
    }
  }

  /** The k-th schema comes from the k-th reported name and points at its `.avsc` file. */
  lemma {:induction false} CollectByLine(avdlPath: Path, names: seq<Option<string>>)
    ensures var idx := DeclarationLines(names); var r := Collect(avdlPath, names);
      |r| == |idx| &&
      forall k :: 0 <= k < |idx| ==>
        (0 <= idx[k] < |names| && names[idx[k]] == Some(r[k].name) &&
         r[k].path == SchemaPath(avdlPath, r[k].name))
  {
    if names != [] {
      var init := names[..|names| - 1];
      CollectByLine(avdlPath, init);
      assert forall i :: 0 <= i < |init| ==> names[i] == init[i];
    }
  }

  /** One schema per declaration line, in file order, duplicates kept: with `idx` the
      numbers of the lines that are declarations, listed in increasing order, the k-th
      schema is named by the identifier on line `idx[k]` and points at that name's
      `.avsc` file. */
  lemma DeclaredByLine(avdlPath: Path, lines: seq<string>)
    ensures var idx := DeclarationLines(Scan(lines)); var r := Declared(avdlPath, lines);
      |r| == |idx| &&
      (forall k, m :: 0 <= k < m < |idx| ==> idx[k] < idx[m]) &&
      (forall i :: 0 <= i < |lines| ==> (DeclaredName(lines[i]).Some? <==> i in idx)) &&
      (forall k :: 0 <= k < |idx| ==>
         (0 <= idx[k] < |lines| && DeclaredName(lines[idx[k]]) == Some(r[k].name) &&
          r[k].path == SchemaPath(avdlPath, r[k].name)))
  {
    DeclaredIsCollected(avdlPath, lines);
    DeclarationLinesExact(Scan(lines));
    CollectByLine(avdlPath, Scan(lines));
  }

  /** Exactly the declared schemas whose file is absent are reported, and nothing else. */
  lemma {:induction false} UnresolvedReportsMissing(schemas: seq<Schema>, fs: FileSystem)
    ensures var r := Unresolved(schemas, fs);
      |r| <= |schemas| &&
      (forall k :: 0 <= k < |schemas| ==> (schemas[k].path in r <==> !fs.present(schemas[k].path))) &&
      (forall q :: q in r ==> !fs.present(q) && exists k :: 0 <= k < |schemas| && schemas[k].path == q)
  {
    if schemas != [] {
      var init := schemas[..|schemas| - 1];
      UnresolvedReportsMissing(init, fs);
      assert forall k :: 0 <= k < |init| ==> schemas[k] == init[k];
    }
  }

  /** The two glob patterns of the scan: `v*` for version directories and `*.avdl`
      for IDL files (a `*` also matches a leading dot, as in `pathlib`). */
  datatype Pattern = VersionDir | IdlFile

  predicate Matches(name: string, pattern: Pattern) {
    match pattern
    case VersionDir => |name| > 0 && name[0] == 'v'
    case IdlFile => |name| >= 5 && name[|name| - 5..] == ".avdl"
  }

  /** The entries of `dir` whose name matches, in the order the directory lists them. */
  function Select(dir: Path, names: seq<string>, pattern: Pattern): seq<Path> {
    if names == [] then []
    else
      var init := Select(dir, names[..|names| - 1], pattern);
      var name := names[|names| - 1];
      if Matches(name, pattern) then init + [dir + [name]] else init
  }

  /** Every selected path is a matching entry directly inside the directory. */
  lemma {:induction false} SelectSound(dir: Path, names: seq<string>, pattern: Pattern)
    ensures forall q :: q in Select(dir, names, pattern) ==>
      |q| > 0 && Parent(q) == dir && Matches(Name(q), pattern)
  {
    if names != [] {
      var name := names[|names| - 1];
      SelectSound(dir, names[..|names| - 1], pattern);
      assert Parent(dir + [name]) == dir;
    }
  }

  /** The positions of the entries that match, in increasing order. */
  function MatchingEntries(names: seq<string>, pattern: Pattern): seq<nat> {
    if names == [] then []
    else
      var init := MatchingEntries(names[..|names| - 1], pattern);
      if Matches(names[|names| - 1], pattern) then init + [|names| - 1] else init
  }

  /** Selection misses nothing and keeps listing order: with `idx` the positions of the
      matching entries in increasing order, the k-th selected path is the entry at
      `idx[k]`, and an entry is selected if and only if its name matches. */
  lemma {:induction false} SelectExact(dir: Path, names: seq<string>, pattern: Pattern)
    ensures var idx := MatchingEntries(names, pattern); var r := Select(dir, names, pattern);
      |r| == |idx| &&
      (forall k :: 0 <= k < |idx| ==> idx[k] < |names| && r[k] == dir + [names[idx[k]]]) &&
      (forall k, m :: 0 <= k < m < |idx| ==> idx[k] < idx[m]) &&
      (forall i :: 0 <= i < |names| ==> (Matches(names[i], pattern) <==> i in idx))
  {
    if names != [] {
      var n := |names|;
      var init := names[..n - 1];
      SelectExact(dir, init, pattern);
      var idx0 := MatchingEntries(init, pattern);
      var idx := MatchingEntries(names, pattern);
      assert forall i :: 0 <= i < n - 1 ==> names[i] == init[i];
      forall i | 0 <= i < n
        ensures Matches(names[i], pattern) <==> i in idx
      {
        if i == n - 1 {
          assert i !in idx0;
        }
      }
    }
  }

  /** `dir.glob(pattern)` for a pattern without directory separators. */
  function Glob(fs: FileSystem, dir: Path, pattern: Pattern): seq<Path> {
    Select(dir, fs.children(dir), pattern)
  }

  /** `name[1:]`: the version string of a version directory. */
  function VersionName(dirName: string): string {
    if dirName == [] then [] else dirName[1..]
  }

  /** One protocol per IDL file, in the order given. */
  function Protocols(fs: FileSystem, avdlFiles: seq<Path>): seq<Protocol> {
    Map((avdlPath: Path) => ProtocolOf(fs, avdlPath), avdlFiles)
  }

  /** The version a directory describes: every IDL file directly in it. */
  function VersionOf(fs: FileSystem, versionDir: Path): Version {
    Version(VersionName(Name(versionDir)), versionDir, Protocols(fs, Glob(fs, versionDir, IdlFile)))
  }

  /** One version per directory, in the order given. */
  function Versions(fs: FileSystem, versionDirs: seq<Path>): seq<Version> {
    Map((versionDir: Path) => VersionOf(fs, versionDir), versionDirs)
  }

  /** `Docs._enumerate`: the tree that scanning the protocol root yields. */
  function Enumerated(fs: FileSystem, root: Path): seq<Version> {
    Versions(fs, Glob(fs, root, VersionDir))
  }

  /** The missing schema files reported while the given protocols are built, in order. */
  function ProtocolReports(fs: FileSystem, protocols: seq<Protocol>): seq<Path> {
    if protocols == [] then []
    else
      ProtocolReports(fs, protocols[..|protocols| - 1]) +
      Unresolved(protocols[|protocols| - 1].schemas, fs)
  }

  /** The missing schema files reported while the given versions are built, in order. */
  function Reports(fs: FileSystem, versions: seq<Version>): seq<Path> {
    if versions == [] then []
    else
      Reports(fs, versions[..|versions| - 1]) +
      ProtocolReports(fs, versions[|versions| - 1].protocols)
  }

  /** One protocol per IDL file, in the order given. */
  lemma ProtocolsAt(fs: FileSystem, avdlFiles: seq<Path>)
    ensures |Protocols(fs, avdlFiles)| == |avdlFiles|
    ensures forall k :: 0 <= k < |avdlFiles| ==> Protocols(fs, avdlFiles)[k] == ProtocolOf(fs, avdlFiles[k])
  {
    MapAt((avdlPath: Path) => ProtocolOf(fs, avdlPath), avdlFiles);
  }

  /** One version per directory, in the order given. */
  lemma VersionsAt(fs: FileSystem, versionDirs: seq<Path>)
    ensures |Versions(fs, versionDirs)| == |versionDirs|
    ensures forall k :: 0 <= k < |versionDirs| ==> Versions(fs, versionDirs)[k] == VersionOf(fs, versionDirs[k])
  {
    MapAt((versionDir: Path) => VersionOf(fs, versionDir), versionDirs);
  }

  /** A protocol is named after its file without `.avdl`, and its schemas are expected
      in the `schema` directory beside the file. */
  lemma ProtocolLayout(fs: FileSystem, avdlPath: Path)
    requires Matches(Name(avdlPath), IdlFile)
    ensures |Name(avdlPath)| > 5 ==> ProtocolOf(fs, avdlPath).name + ".avdl" == Name(avdlPath)
    ensures forall s :: s in ProtocolOf(fs, avdlPath).schemas ==>
      s.path == Parent(avdlPath) + ["schema", s.name + ".avsc"]
  {
    if |Name(avdlPath)| > 5 {
      StemOfIdlName(Name(avdlPath));
    }
    SchemasInSchemaDir(avdlPath, ReadLines(fs.contents(avdlPath)));
  }

  /** An IDL file name longer than the bare suffix has the suffix as its extension. */
  lemma StemOfIdlName(name: string)
    requires Matches(name, IdlFile) && |name| > 5
    ensures Stem(name) + ".avdl" == name
  {
    var base := name[..|name| - 5];
    assert name == base + "." + "avdl";
    StemOfExtension(base, "avdl");
  }

  /** Every protocol of a version lives directly in the version's directory. */
  lemma VersionLayout(fs: FileSystem, versionDir: Path)
    ensures var v := VersionOf(fs, versionDir);
      v.path == versionDir &&
      forall p :: p in v.protocols ==>
        Parent(p.path) == versionDir &&
        (|Name(p.path)| > 5 ==> p.name + ".avdl" == Name(p.path)) &&
        forall s :: s in p.schemas ==> s.path == versionDir + ["schema", s.name + ".avsc"]
  {
    var files := Glob(fs, versionDir, IdlFile);
    var ps := Protocols(fs, files);
    SelectSound(versionDir, fs.children(versionDir), IdlFile);
    ProtocolsAt(fs, files);
    forall p | p in ps
      ensures Parent(p.path) == versionDir
      ensures |Name(p.path)| > 5 ==> p.name + ".avdl" == Name(p.path)
      ensures forall s :: s in p.schemas ==> s.path == versionDir + ["schema", s.name + ".avsc"]
    {
      var j :| 0 <= j < |ps| && ps[j] == p;
      assert files[j] in files;
      ProtocolLayout(fs, files[j]);
    }
  }

  /** The scanned tree is laid out as the directories are: every version lives directly
      under the root and its string is its directory name without the leading `v`; every
      protocol lives directly in its version's directory and is named after its file
      without `.avdl`; every schema is expected at `<version dir>/schema/<name>.avsc`. */
  lemma EnumeratedLayout(fs: FileSystem, root: Path)
    ensures var vs := Enumerated(fs, root);
      forall v :: v in vs ==>
        Parent(v.path) == root && "v" + v.version == Name(v.path) &&
        forall p :: p in v.protocols ==>
          Parent(p.path) == v.path &&
          (|Name(p.path)| > 5 ==> p.name + ".avdl" == Name(p.path)) &&
          forall s :: s in p.schemas ==> s.path == v.path + ["schema", s.name + ".avsc"]
  {
    var dirs := Glob(fs, root, VersionDir);
    var vs := Enumerated(fs, root);
    SelectSound(root, fs.children(root), VersionDir);
    VersionsAt(fs, dirs);
    forall v | v in vs
      ensures Parent(v.path) == root && "v" + v.version == Name(v.path)
      ensures forall p :: p in v.protocols ==>
          Parent(p.path) == v.path &&
          (|Name(p.path)| > 5 ==> p.name + ".avdl" == Name(p.path)) &&
          forall s :: s in p.schemas ==> s.path == v.path + ["schema", s.name + ".avsc"]
    {
      var k :| 0 <= k < |vs| && vs[k] == v;
      assert dirs[k] in dirs;
      assert v == VersionOf(fs, dirs[k]);
      VersionLayout(fs, dirs[k]);
    }
  }

  /** `_enumerate` misses no protocol: a version holds one protocol per `*.avdl` entry of
      its directory, in listing order, and nothing else. */
  lemma VersionComplete(fs: FileSystem, versionDir: Path)
    ensures var names := fs.children(versionDir); var idx := MatchingEntries(names, IdlFile);
      var ps := VersionOf(fs, versionDir).protocols;
      |ps| == |idx| &&
      (forall k :: 0 <= k < |idx| ==>
         idx[k] < |names| && ps[k] == ProtocolOf(fs, versionDir + [names[idx[k]]])) &&
      (forall k, m :: 0 <= k < m < |idx| ==> idx[k] < idx[m]) &&
      (forall i :: 0 <= i < |names| ==> (Matches(names[i], IdlFile) <==> i in idx))
  {
    SelectExact(versionDir, fs.children(versionDir), IdlFile);
    ProtocolsAt(fs, Glob(fs, versionDir, IdlFile));
  }

  /** `_enumerate` misses no version: one version per `v*` entry of the root, in listing
      order, and nothing else. */
  lemma EnumeratedComplete(fs: FileSystem, root: Path)
    ensures var names := fs.children(root); var idx := MatchingEntries(names, VersionDir);
      var vs := Enumerated(fs, root);
      |vs| == |idx| &&
      (forall k :: 0 <= k < |idx| ==>
         idx[k] < |names| && vs[k] == VersionOf(fs, root + [names[idx[k]]])) &&
      (forall k, m :: 0 <= k < m < |idx| ==> idx[k] < idx[m]) &&
      (forall i :: 0 <= i < |names| ==> (Matches(names[i], VersionDir) <==> i in idx))
  {
    SelectExact(root, fs.children(root), VersionDir);
    VersionsAt(fs, Glob(fs, root, VersionDir));
  }

  /** Every schema of an IDL file is expected in the `schema` directory beside it. */
  lemma SchemasInSchemaDir(avdlPath: Path, lines: seq<string>)
    ensures forall s :: s in Declared(avdlPath, lines) ==>
      s.path == Parent(avdlPath) + ["schema", s.name + ".avsc"]
  {
    var r := Declared(avdlPath, lines);
    DeclaredIsCollected(avdlPath, lines);
    CollectByLine(avdlPath, Scan(lines));
    forall s | s in r
      ensures s.path == Parent(avdlPath) + ["schema", s.name + ".avsc"]
    {
      var k :| 0 <= k < |r| && r[k] == s;
    }
  }
}
