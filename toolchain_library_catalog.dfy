/**
 * The toolchain library catalog: `ghc-pkg dump` output is parsed into package records (name,
 * id, import directories), and the records are turned into a name-to-id map and a trie from
 * import-directory path parts to package ids.
 *
 * The dump arrives as lines (running `ghc-pkg` is outside the model); every use of a line
 * strips it first or strips the pieces split off it, so a line's terminator never matters.
 */
module ToolchainLibraryCatalog {
  import opened Wrappers
  import opened PyStr
  import opened PyPath
  import opened PackageTrie

  /** The fixed arguments of the dump: global database only, simple output, expanded `${pkgroot}`. */
  const DumpArgs: seq<string> := ["dump", "--global", "--no-user-package-db", "--simple-output", "--expand-pkgroot"]

  /** `_ghc_pkg_command(ghc_pkg, package_db)`: a package database is added only when one is named. */
  function GhcPkgCommand(ghcPkg: string, packageDb: Option<string>): (r: seq<string>)
    ensures |r| >= 6 && r[0] == ghcPkg && r[1..6] == DumpArgs
    ensures |r| > 6 <==> packageDb.Some? && packageDb.value != ""
    ensures |r| > 6 ==> r[6..] == ["--package-db", packageDb.value]
  {
    [ghcPkg] + DumpArgs + if packageDb.Some? && packageDb.value != "" then ["--package-db", packageDb.value] else []
  }

  /** The command never reads the user's package database, with or without an extra database. */
  lemma CommandSkipsUserDb(ghcPkg: string, packageDb: Option<string>)
    ensures "--no-user-package-db" in GhcPkgCommand(ghcPkg, packageDb)
    ensures "--global" in GhcPkgCommand(ghcPkg, packageDb)
  {
    var r := GhcPkgCommand(ghcPkg, packageDb);
    assert r[3] == DumpArgs[2];
    assert r[2] == DumpArgs[1];
  }

  /**
   * A package record. The source's dictionary holds `name` or `id` only once a value was read
   * for it, and `import-dirs` only once a directory was appended, so an absent list is empty.
   */
  datatype Package = Package(name: Option<string>, id: Option<string>, importDirs: seq<string>)

  /** The empty record `{}`, which is falsy and never emitted. */
  const NoPackage: Package := Package(None, None, [])

  /** The three keys the parser records. */
  datatype Field = NameField | IdField | ImportDirsField

  /** The parser's state: the record being read, `current_key`, and the records emitted so far. */
  datatype ParseState = ParseState(current: Package, key: Option<Field>, done: seq<Package>)

  const Start: ParseState := ParseState(NoPackage, None, [])

  /** The field a key line names; any other key sets `current_key` to `None`. */
  function FieldOf(key: string): Option<Field> {
    if key == "name" then Some(NameField)
    else if key == "id" then Some(IdField)
    else if key == "import-dirs" then Some(ImportDirsField)
    else None
  }

  /** A value read for a field: `name` and `id` are overwritten, `import-dirs` appended to. */
  function Record(p: Package, f: Field, v: string): Package {
    match f
    case NameField => p.(name := Some(v))
    case IdField => p.(id := Some(v))
    case ImportDirsField => p.(importDirs := p.importDirs + [v])
  }

  /** Emit the record when it is not empty. */
  function Flush(done: seq<Package>, p: Package): seq<Package> {
    if p == NoPackage then done else done + [p]
  }

  /** What a line of the dump is, once stripped and split. */
  datatype LineKind =
    | Separator                                   // strips to `---`
    | KeyValue(field: Option<Field>, value: string) // holds a colon: the field it names and the value after it
    | Continuation(text: string)                  // other text, stripped
    | Blank                                       // nothing but whitespace

  /** The tests of the loop body, in order: separator, then colon, then non-blank. */
  function ClassifyLine(line: string): LineKind {
    if Strip(line) == "---" then Separator
    else match IndexOf(line, ':')
      case Some(i) => KeyValue(FieldOf(Strip(line[..i])), Strip(line[i + 1..]))
      case None => if Strip(line) != "" then Continuation(Strip(line)) else Blank
  }

  /**
   * The effect of one line: a separator emits the record but keeps `current_key`; a key line
   * sets `current_key` and records a non-empty value; a continuation is recorded under the
   * current key, if any.
   */
  function Apply(st: ParseState, k: LineKind): ParseState {
    match k
    case Separator => ParseState(NoPackage, st.key, Flush(st.done, st.current))
    case KeyValue(f, v) => ParseState(if f.Some? && v != "" then Record(st.current, f.value, v) else st.current, f, st.done)
    case Continuation(v) => if st.key.Some? then st.(current := Record(st.current, st.key.value, v)) else st
    case Blank => st
  }

  /** The state after the given lines, classified. */
  function Run(st: ParseState, ks: seq<LineKind>): ParseState
    decreases |ks|
  {
    if ks == [] then st
    else
      var n := |ks| - 1;
      Apply(Run(st, ks[..n]), ks[n])
  }

  function LineKinds(lines: seq<string>): seq<LineKind> {
    MapEach(lines, ClassifyLine)
  }

  /** The records `_parse_ghc_pkg_dump` yields, in order. */
  function ParseDump(lines: seq<string>): seq<Package> {
    var st := Run(Start, LineKinds(lines));
    Flush(st.done, st.current)
  }

  /** One more line is one more step. */
  lemma RunSnoc(st: ParseState, ks: seq<LineKind>, k: LineKind)
    ensures Run(st, ks + [k]) == Apply(Run(st, ks), k)
  {
    assert (ks + [k])[..|ks|] == ks;
  }

  /** Reading two runs of lines one after the other. */
  lemma {:induction false} RunAppend(st: ParseState, a: seq<LineKind>, b: seq<LineKind>)
    ensures Run(st, a + b) == Run(Run(st, a), b)
    decreases |b|
  {
    if b == [] {
      assert a + b == a;
    } else {
      var n := |b| - 1;
      PrefixOfConcat(a, b, n);
      RunAppend(st, a, b[..n]);
    }
  }

  /** No record in the list is the empty one. */
  predicate NoEmpty(ps: seq<Package>) {
    forall k :: 0 <= k < |ps| ==> ps[k] != NoPackage
  }

  lemma {:induction false} RunKeepsNoEmpty(st: ParseState, ks: seq<LineKind>)
    requires NoEmpty(st.done)
    ensures NoEmpty(Run(st, ks).done)
    decreases |ks|
  {
    if ks != [] {
      RunKeepsNoEmpty(st, ks[..|ks| - 1]);
    }
  }

  /** An empty record is never emitted, neither at a separator nor at the end of the dump. */
  lemma ParseDumpNoEmpty(lines: seq<string>)
    ensures NoEmpty(ParseDump(lines))
  {
    RunKeepsNoEmpty(Start, LineKinds(lines));
  }

  /** One pass of the loop of `_parse_ghc_pkg_dump`: the effect of one line. */
  method ReadLine(current: Package, currentKey: Option<Field>, packages: seq<Package>, line: string)
    returns (current': Package, currentKey': Option<Field>, packages': seq<Package>)
    ensures ParseState(current', currentKey', packages')
         == Apply(ParseState(current, currentKey, packages), ClassifyLine(line))
  {
    current', currentKey', packages' := current, currentKey, packages;
    if Strip(line) == "---" {
      if current != NoPackage {
        packages' := packages + [current];
      }
      current' := NoPackage;
    } else if ':' in line {
      var colon := IndexOf(line, ':').value;
      var key, value := Strip(line[..colon]), Strip(line[colon + 1..]);
      currentKey' := FieldOf(key);
      if currentKey'.Some? && value != "" {
        current' := Record(current, currentKey'.value, value);
      }
    } else if Strip(line) != "" {
      if currentKey.Some? {
        current' := Record(current, currentKey.value, Strip(line));
      }
    }
  }

  /** `_parse_ghc_pkg_dump(lines)`, the generator's yields collected into a list. */
  method ParseGhcPkgDump(lines: seq<string>) returns (packages: seq<Package>)
    ensures packages == ParseDump(lines)
  {
    ghost var ks := LineKinds(lines);
    var current := NoPackage;
    var currentKey: Option<Field> := None;
    packages := [];
    var i := 0;
    while i < |lines|
      invariant 0 <= i <= |lines|
      invariant ParseState(current, currentKey, packages) == Run(Start, ks[..i])
    {
      PrefixOfPrefix(ks, i);
      MapEachAt(lines, ClassifyLine, i);
      current, currentKey, packages := ReadLine(current, currentKey, packages, lines[i]);
      i := i + 1;
    }
    FullPrefix(ks);
    if current != NoPackage {
      packages := packages + [current];
    }
  }

  /**
   * A line holding a colon splits at the first one: the stripped text before it picks the field
   * (or none), and the stripped text after it is the value. Such a line is never a separator.
   */
  lemma KeyLine(key: string, value: string)
    requires ':' !in key
    ensures ClassifyLine(key + ":" + value) == KeyValue(FieldOf(Strip(key)), Strip(value))
  {
    var line := key + ":" + value;
    IndexOfAt(line, ':', |key|);
    StripKeeps(line, |key|);
    assert Strip(line) != "---";
    assert line[..|key|] == key;
    assert line[|key| + 1..] == value;
  }

  /** An indented line without a colon is a continuation holding the text without its indentation. */
  lemma ContinuationLine(ws: string, v: string)
    requires forall k :: 0 <= k < |ws| ==> IsSpace(ws[k])
    requires v != [] && !IsSpace(v[0]) && !IsSpace(v[|v| - 1]) && ':' !in v && v != "---"
    ensures ClassifyLine(ws + v) == Continuation(v)
  {
    StripLeadingSpace(ws, v);
    assert ':' !in ws + v by {
      forall k | 0 <= k < |ws + v| ensures (ws + v)[k] != ':' {
        if k < |ws| {
          assert IsSpace(ws[k]);
        } else {
          assert (ws + v)[k] == v[k - |ws|];
        }
      }
    }
  }

  /** An empty value still sets `current_key`; an unknown key clears it; neither records anything. */
  lemma KeyWithoutValue(st: ParseState, f: Option<Field>, v: string)
    requires f.None? || v == ""
    ensures Apply(st, KeyValue(f, v)) == st.(key := f)
  {
  }

  /**
   * Because `current_key` survives the separator, a continuation right after `---` becomes a
   * field of the next record: an import directory here.
   */
  lemma ContinuationAfterSeparator(st: ParseState, d: string)
    requires st.key == Some(ImportDirsField)
    ensures Run(st, [Separator, Continuation(d)]).current == Package(None, None, [d])
  {
    var ks := [Separator, Continuation(d)];
    RunSnoc(st, [], Separator);
    RunSnoc(st, [Separator], Continuation(d));
    assert [] + [Separator] == [Separator] && [Separator] + [Continuation(d)] == ks;
    assert [] + [d] == [d];
  }

  /** Text with no whitespace at either end, as `ghc-pkg` writes field values. */
  predicate Clean(v: string) {
    v != [] && !IsSpace(v[0]) && !IsSpace(v[|v| - 1])
  }

  /** An import directory that can stand on a continuation line of its own. */
  predicate DirOk(d: string) {
    Clean(d) && ':' !in d && d != "---"
  }

  /** A record `ghc-pkg` can describe with one line per field and one indented line per directory. */
  predicate Describable(p: Package) {
    && p.name.Some? && Clean(p.name.value)
    && p.id.Some? && Clean(p.id.value)
    && forall k :: 0 <= k < |p.importDirs| ==> DirOk(p.importDirs[k])
  }

  /** The indentation of a continuation line. */
  const Indent: string := "    "

  function IndentLine(d: string): string {
    Indent + d
  }

  /** The indented continuation lines listing `dirs`. */
  function DirLines(dirs: seq<string>): seq<string> {
    MapEach(dirs, IndentLine)
  }

  /** The dump lines of one record, ending with its separator. */
  function Describe(p: Package): seq<string>
    requires p.name.Some? && p.id.Some?
  {
    ["name: " + p.name.value, "id: " + p.id.value, "import-dirs:"] + DirLines(p.importDirs) + ["---"]
  }

  /** The dump of several records. */
  function Dump(ps: seq<Package>): seq<string>
    requires forall k :: 0 <= k < |ps| ==> Describable(ps[k])
    decreases |ps|
  {
    if ps == [] then []
    else
      var n := |ps| - 1;
      assert Describable(ps[n]);
      Dump(ps[..n]) + Describe(ps[n])
  }

  /** A field line `key: value` of a key that is its own stripped text. */
  lemma FieldLine(key: string, v: string)
    requires ':' !in key && Strip(key) == key && Clean(v)
    ensures ClassifyLine(key + ": " + v) == KeyValue(FieldOf(key), v)
  {
    assert key + ": " + v == key + ":" + (" " + v);
    StripLeadingSpace(" ", v);
    KeyLine(key, " " + v);
  }

  function AsContinuation(d: string): LineKind {
    Continuation(d)
  }

  /** One directory's indented line is a continuation holding that directory. */
  lemma IndentedDir(d: string)
    requires DirOk(d)
    ensures ClassifyLine(IndentLine(d)) == AsContinuation(d)
  {
    assert forall k :: 0 <= k < |Indent| ==> IsSpace(Indent[k]);
    ContinuationLine(Indent, d);
  }

  /** The kinds of the continuation lines: one per directory, in order. */
  lemma DirLineKinds(dirs: seq<string>)
    requires forall k :: 0 <= k < |dirs| ==> DirOk(dirs[k])
    ensures LineKinds(DirLines(dirs)) == MapEach(dirs, AsContinuation)
  {
    forall k | 0 <= k < |dirs| ensures ClassifyLine(IndentLine(dirs[k])) == AsContinuation(dirs[k]) {
      IndentedDir(dirs[k]);
    }
    MapEachCompose(dirs, IndentLine, ClassifyLine, AsContinuation);
  }

  /** Continuations under `import-dirs` append the directories in order. */
  lemma {:induction false} ContinuationsAppend(st: ParseState, dirs: seq<string>)
    requires st.key == Some(ImportDirsField)
    ensures Run(st, MapEach(dirs, AsContinuation)) == st.(current := st.current.(importDirs := st.current.importDirs + dirs))
    decreases |dirs|
  {
    if dirs == [] {
      assert st.current.importDirs + dirs == st.current.importDirs;
    } else {
      var n := |dirs| - 1;
      ContinuationsAppend(st, dirs[..n]);
      assert dirs == dirs[..n] + [dirs[n]];
      MapEachSnoc(dirs[..n], dirs[n], AsContinuation);
      ConcatAssoc(st.current.importDirs, dirs[..n], [dirs[n]]);
    }
  }

  /** The `name` line of a record. */
  lemma NameLine(n: string)
    requires Clean(n)
    ensures ClassifyLine("name: " + n) == KeyValue(Some(NameField), n)
  {
    var key := "name";
    assert FieldOf(key) == Some(NameField);
    assert key + ": " == "name: ";
    StripOfStripped(key);
    FieldLine(key, n);
  }

  /** The `id` line of a record. */
  lemma IdLine(i: string)
    requires Clean(i)
    ensures ClassifyLine("id: " + i) == KeyValue(Some(IdField), i)
  {
    var key := "id";
    assert FieldOf(key) == Some(IdField);
    assert key + ": " == "id: ";
    StripOfStripped(key);
    FieldLine(key, i);
  }

  /** The `import-dirs` line of a record, whose directories follow on continuation lines. */
  lemma ImportDirsLine()
    ensures ClassifyLine("import-dirs:") == KeyValue(Some(ImportDirsField), "")
  {
    StripOfStripped("import-dirs");
    StripOfStripped("");
    assert "import-dirs:" == "import-dirs" + ":" + "";
    KeyLine("import-dirs", "");
  }

  lemma SeparatorLine()
    ensures LineKinds(["---"]) == [Separator]
  {
    StripOfStripped("---");
    MapEachSnoc([], "---", ClassifyLine);
    assert [] + ["---"] == ["---"];
  }

  /** The kinds of one described record's lines. */
  lemma DescribeKinds(p: Package)
    requires Describable(p)
    ensures LineKinds(Describe(p))
         == [KeyValue(Some(NameField), p.name.value), KeyValue(Some(IdField), p.id.value), KeyValue(Some(ImportDirsField), "")]
            + MapEach(p.importDirs, AsContinuation) + [Separator]
  {
    var a, b, c := "name: " + p.name.value, "id: " + p.id.value, "import-dirs:";
    var ds := DirLines(p.importDirs);
    NameLine(p.name.value);
    IdLine(p.id.value);
    ImportDirsLine();
    SeparatorLine();
    MapEachThree(a, b, c, ClassifyLine);
    MapEachConcat([a, b, c] + ds, ["---"], ClassifyLine);
    MapEachConcat([a, b, c], ds, ClassifyLine);
    DirLineKinds(p.importDirs);
  }

  /** One described record read from the start of a record: it is emitted as it was. */
  lemma DescribeRead(st: ParseState, p: Package)
    requires st.current == NoPackage && Describable(p)
    ensures Run(st, LineKinds(Describe(p))) == ParseState(NoPackage, Some(ImportDirsField), st.done + [p])
  {
    var head := [KeyValue(Some(NameField), p.name.value), KeyValue(Some(IdField), p.id.value), KeyValue(Some(ImportDirsField), "")];
    var cs := MapEach(p.importDirs, AsContinuation);
    DescribeKinds(p);
    assert Run(st, head) == ParseState(Package(p.name, p.id, []), Some(ImportDirsField), st.done) by {
      RunSnoc(st, [], head[0]);
      RunSnoc(st, [head[0]], head[1]);
      RunSnoc(st, [head[0], head[1]], head[2]);
      assert [] + [head[0]] == [head[0]] && [head[0]] + [head[1]] == [head[0], head[1]];
      assert [head[0], head[1]] + [head[2]] == head;
    }
    RunAppend(st, head, cs);
    ContinuationsAppend(Run(st, head), p.importDirs);
    RunSnoc(st, head + cs, Separator);
    assert [] + p.importDirs == p.importDirs;
  }

  /** The dump of well-formed records parses back to exactly those records, in order. */
  lemma DumpRoundTrip(ps: seq<Package>)
    requires forall k :: 0 <= k < |ps| ==> Describable(ps[k])
    ensures ParseDump(Dump(ps)) == ps
  {
    DumpRun(ps);
  }

  lemma {:induction false} DumpRun(ps: seq<Package>)
    requires forall k :: 0 <= k < |ps| ==> Describable(ps[k])
    ensures Run(Start, LineKinds(Dump(ps))) == ParseState(NoPackage, if ps == [] then None else Some(ImportDirsField), ps)
    decreases |ps|
  {
    if ps != [] {
      var n := |ps| - 1;
      DumpRun(ps[..n]);
      MapEachConcat(Dump(ps[..n]), Describe(ps[n]), ClassifyLine);
      RunAppend(Start, LineKinds(Dump(ps[..n])), LineKinds(Describe(ps[n])));
      DescribeRead(Run(Start, LineKinds(Dump(ps[..n]))), ps[n]);
      FrontAndLast(ps);
    }
  }

  /** The two maps of the catalog: import-directory trie and package name to id. */
  datatype Catalog = Catalog(byImportDirs: Trie, byPackageName: map<string, string>)

  /** The `KeyError` raised for a record without `id` or `name`. */
  datatype CatalogError = MissingField(field: string)

  /** A record with both a name and an id. */
  predicate Complete(p: Package) {
    p.name.Some? && p.id.Some?
  }

  /** Register every import directory of a package, in order, under its id. */
  function InsertAll(t: Trie, dirs: seq<string>, id: string): Trie
    decreases |dirs|
  {
    if dirs == [] then t
    else
      var n := |dirs| - 1;
      Insert(InsertAll(t, dirs[..n], id), Parts(dirs[n]), id)
  }

  /**
   * One package: `package["id"]` is evaluated before `package["name"]`, so a missing id is
   * reported first.
   */
  function AddPackage(c: Catalog, p: Package): Result<Catalog, CatalogError> {
    if p.id.None? then Failure(MissingField("id"))
    else if p.name.None? then Failure(MissingField("name"))
    else Success(Catalog(InsertAll(c.byImportDirs, p.importDirs, p.id.value), c.byPackageName[p.name.value := p.id.value]))
  }

  /** `_construct_package_mappings(packages)` */
  function Construct(ps: seq<Package>): Result<Catalog, CatalogError>
    decreases |ps|
  {
    if ps == [] then Success(Catalog(Empty, map[]))
    else
      var n := |ps| - 1;
      match Construct(ps[..n])
      case Failure(e) => Failure(e)
      case Success(c) => AddPackage(c, ps[n])
  }

  /** Once a prefix has failed, the whole list fails the same way. */
  lemma {:induction false} ConstructFailureSticks(ps: seq<Package>, i: nat)
    requires i <= |ps| && Construct(ps[..i]).Failure?
    ensures Construct(ps) == Construct(ps[..i])
    decreases |ps|
  {
    if i < |ps| {
      var n := |ps| - 1;
      assert ps[..n][..i] == ps[..i];
      ConstructFailureSticks(ps[..n], i);
    } else {
      assert ps[..i] == ps;
    }
  }

  /** The catalog is built exactly when every record has a name and an id. */
  lemma {:induction false} ConstructSucceeds(ps: seq<Package>)
    ensures Construct(ps).Success? <==> forall k :: 0 <= k < |ps| ==> Complete(ps[k])
    decreases |ps|
  {
    if ps != [] {
      var n := |ps| - 1;
      ConstructSucceeds(ps[..n]);
      if Construct(ps).Success? {
        forall k | 0 <= k < |ps| ensures Complete(ps[k]) {
          if k < n {
            assert ps[..n][k] == ps[k];
          }
        }
      }
      if forall k :: 0 <= k < |ps| ==> Complete(ps[k]) {
        assert forall k :: 0 <= k < n ==> Complete(ps[..n][k]);
      }
    }
  }

  /** On failure the error names the first incomplete record's missing field, `id` before `name`. */
  lemma {:induction false} ConstructFailure(ps: seq<Package>)
    requires Construct(ps).Failure?
    ensures exists i ::
      && 0 <= i < |ps| && !Complete(ps[i]) && (forall k :: 0 <= k < i ==> Complete(ps[k]))
      && Construct(ps).error == MissingField(if ps[i].id.None? then "id" else "name")
    decreases |ps|
  {
    var n := |ps| - 1;
    if Construct(ps[..n]).Failure? {
      ConstructFailure(ps[..n]);
      var i :| 0 <= i < n && !Complete(ps[..n][i]) && (forall k :: 0 <= k < i ==> Complete(ps[..n][k]))
        && Construct(ps[..n]).error == MissingField(if ps[..n][i].id.None? then "id" else "name");
      assert ps[..n][i] == ps[i];
      forall k | 0 <= k < i ensures Complete(ps[k]) {
        assert ps[..n][k] == ps[k];
      }
    } else {
      ConstructSucceeds(ps[..n]);
      forall k | 0 <= k < n ensures Complete(ps[k]) {
        assert ps[..n][k] == ps[k];
      }
    }
  }

  /** The name of the last record named `x`, or `None`. */
  function LastIdFor(ps: seq<Package>, x: string): Option<string>
    decreases |ps|
  {
    if ps == [] then None
    else
      var n := |ps| - 1;
      if ps[n].name == Some(x) then ps[n].id else LastIdFor(ps[..n], x)
  }

  /** `by-package-name` holds every name, mapped to the id of the last record with that name. */
  lemma {:induction false} ByPackageName(ps: seq<Package>, x: string)
    requires Construct(ps).Success?
    ensures var m := Construct(ps).value.byPackageName;
      (x in m <==> exists k :: 0 <= k < |ps| && ps[k].name == Some(x))
      && (x in m ==> LastIdFor(ps, x) == Some(m[x]))
    decreases |ps|
  {
    if ps != [] {
      var n := |ps| - 1;
      assert Construct(ps[..n]).Success?;
      ByPackageName(ps[..n], x);
      if exists k :: 0 <= k < n && ps[..n][k].name == Some(x) {
        var k :| 0 <= k < n && ps[..n][k].name == Some(x);
        assert ps[k] == ps[..n][k];
      }
      if k :| 0 <= k < |ps| && ps[k].name == Some(x) {
        if k < n {
          assert ps[..n][k] == ps[k];
        }
      }
    }
  }

  /** The trie entries of a package's import directories: path parts to the package id. */
  function DirEntriesOf(dirs: seq<string>, id: string): seq<(seq<string>, string)>
    decreases |dirs|
  {
    if dirs == [] then []
    else
      var n := |dirs| - 1;
      DirEntriesOf(dirs[..n], id) + [(Parts(dirs[n]), id)]
  }

  /** The trie entries of all packages, in order. */
  function DirEntries(ps: seq<Package>): seq<(seq<string>, string)>
    decreases |ps|
  {
    if ps == [] then []
    else
      var n := |ps| - 1;
      DirEntries(ps[..n]) + match ps[n].id case Some(id) => DirEntriesOf(ps[n].importDirs, id) case None => []
  }

  /** Building entry by entry: one more entry is one more insertion. */
  lemma BuildSnoc(es: seq<(seq<string>, string)>, e: (seq<string>, string))
    ensures Build(es + [e]) == Insert(Build(es), e.0, e.1)
  {
    assert (es + [e])[..|es|] == es;
  }

  lemma {:induction false} InsertAllBuild(es: seq<(seq<string>, string)>, dirs: seq<string>, id: string)
    ensures InsertAll(Build(es), dirs, id) == Build(es + DirEntriesOf(dirs, id))
    decreases |dirs|
  {
    if dirs == [] {
      assert es + [] == es;
    } else {
      var n := |dirs| - 1;
      InsertAllBuild(es, dirs[..n], id);
      BuildSnoc(es + DirEntriesOf(dirs[..n], id), (Parts(dirs[n]), id));
      ConcatAssoc(es, DirEntriesOf(dirs[..n], id), [(Parts(dirs[n]), id)]);
    }
  }

  /**
   * `by-import-dirs` is the trie registering every import directory's path parts under its
   * package's id in order, so each path leads to the id of the last package listing it.
   */
  lemma {:induction false} ByImportDirs(ps: seq<Package>)
    requires Construct(ps).Success?
    ensures Construct(ps).value.byImportDirs == Build(DirEntries(ps))
    decreases |ps|
  {
    if ps != [] {
      var n := |ps| - 1;
      ByImportDirs(ps[..n]);
      InsertAllBuild(DirEntries(ps[..n]), ps[n].importDirs, ps[n].id.value);
    }
  }

  /** Looking up an import directory's parts finds the last package that registered the same parts. */
  lemma ImportDirLookup(ps: seq<Package>, qs: seq<string>)
    requires Construct(ps).Success?
    ensures LeafAt(Construct(ps).value.byImportDirs, qs) == LastRegistered(DirEntries(ps), qs)
  {
    ByImportDirs(ps);
    BuildRegisters(DirEntries(ps), qs);
  }

  /** The inner loops: walk each directory's parts, creating layers, and mark the last with the id. */
  method RegisterImportDirs(t: Trie, dirs: seq<string>, id: string) returns (r: Trie)
    ensures r == InsertAll(t, dirs, id)
  {
    r := t;
    var j := 0;
    while j < |dirs|
      invariant 0 <= j <= |dirs|
      invariant r == InsertAll(t, dirs[..j], id)
    {
      PrefixOfPrefix(dirs, j);
      r := Insert(r, Parts(dirs[j]), id);
      j := j + 1;
    }
    FullPrefix(dirs);
  }

  /** `_construct_package_mappings(packages)`, stopping with the `KeyError` of the first incomplete record. */
  method ConstructPackageMappings(packages: seq<Package>) returns (r: Result<Catalog, CatalogError>)
    ensures r == Construct(packages)
  {
    var byImportDirs := Empty;
    var byPackageName: map<string, string> := map[];
    var i := 0;
    while i < |packages|
      invariant 0 <= i <= |packages|
      invariant Construct(packages[..i]) == Success(Catalog(byImportDirs, byPackageName))
    {
      var p := packages[i];
      PrefixOfPrefix(packages, i);
      if p.id.None? {
        ConstructFailureSticks(packages, i + 1);
        return Failure(MissingField("id"));
      }
      if p.name.None? {
        ConstructFailureSticks(packages, i + 1);
        return Failure(MissingField("name"));
      }
      byPackageName := byPackageName[p.name.value := p.id.value];
      byImportDirs := RegisterImportDirs(byImportDirs, p.importDirs, p.id.value);
      i := i + 1;
    }
    FullPrefix(packages);
    r := Success(Catalog(byImportDirs, byPackageName));
  }
}
