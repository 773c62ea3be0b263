/**
 * The newer Haskell target-metadata resolver. It reads the per-module JSON report that
 * `ghc -M -dep-json` writes and derives from it the Template Haskell modules, the mapping from
 * apparent to actual module names, the intra-package module graph with its `-boot` nodes, and the
 * direct cross-package dependencies.
 *
 * The report is a JSON object iterated in order: a sequence of `(modname, description)` pairs.
 * A field that the tool reads with `.get(field, default)` holds that default when it is absent.
 */
module TargetMetadata {
  import opened Wrappers
  import opened HaskellNames

  /** One entry of `packages`; `pkgdep.get("name")` is `None` when the entry has no name. */
  datatype PackageRef = PackageRef(name: Option<string>, modules: seq<string>)

  /** The fields a module's description shares with its `boot` part. */
  datatype Part = Part(sources: seq<string>, modules: seq<string>, modulesBoot: seq<string>, packages: seq<PackageRef>)

  /** A module's description: `options`, its own fields, and its `boot` part when present and not null. */
  datatype Description = Description(options: seq<string>, main: Part, boot: Option<Part>)

  type Report = seq<(string, Description)>

  /** The report's keys are distinct, as in any JSON object read into a dictionary. */
  predicate DistinctKeys(report: Report) {
    forall i, j :: 0 <= i < j < |report| ==> report[i].0 != report[j].0
  }

  /**
   * No key contains `-`; Haskell module names cannot, so no key collides with another's
   * `-boot` node.
   */
  predicate DashFree(report: Report) {
    forall i :: 0 <= i < |report| ==> '-' !in report[i].0
  }

  // ---------------------------------------------------------------------------------------------
  // Template Haskell

  /** `__TH_EXTENSIONS` */
  const ThExtensions: seq<string> := ["TemplateHaskell", "TemplateHaskellQuotes", "QuasiQuotes"]

  /** `uses_th(opts)`: the `-X` flag of some Template Haskell extension is one of the options. */
  predicate UsesTh(opts: seq<string>) {
    exists ext :: ext in ThExtensions && "-X" + ext in opts
  }

  /** A single option that switches a Template Haskell extension on. */
  predicate IsThFlag(o: string) {
    |o| >= 2 && o[..2] == "-X" && o[2..] in ThExtensions
  }

  /** `uses_th` looks at whole options: it holds exactly when one option is such a flag. */
  lemma UsesThIff(opts: seq<string>)
    ensures UsesTh(opts) <==> exists i :: 0 <= i < |opts| && IsThFlag(opts[i])
  {
    if UsesTh(opts) {
      var ext :| ext in ThExtensions && "-X" + ext in opts;
      var i :| 0 <= i < |opts| && opts[i] == "-X" + ext;
      assert opts[i][..2] == "-X" && opts[i][2..] == ext;
    }
    if i :| 0 <= i < |opts| && IsThFlag(opts[i]) {
      var o := opts[i];
      assert o == "-X" + o[2..];
    }
  }

  /** Each of the three flags alone is enough. */
  lemma EachFlagCounts(opts: seq<string>, ext: string)
    requires ext in ThExtensions && opts == ["-Wall", "-X" + ext]
    ensures UsesTh(opts)
  {
    assert opts[1] == "-X" + ext;
  }

  /** An extension that is switched off, or named without `-X`, does not count. */
  lemma NegatedFlagIgnored(opts: seq<string>)
    requires opts == ["-XNoTemplateHaskell", "TemplateHaskell", "-XTemplateHaskellX"]
    ensures !UsesTh(opts)
  {
    UsesThIff(opts);
    forall i | 0 <= i < |opts| ensures !IsThFlag(opts[i]) {
      if i == 0 {
        assert opts[0][2..][0] == 'N';
      } else if i == 1 {
        assert opts[1][..2][0] == 'T';
      } else {
        assert |opts[2][2..]| == 16;
      }
    }
  }

  /** `determine_th_modules`: the modules whose `options` (default empty) switch Template Haskell on, in report order. */
  function ThModules(report: Report): (r: seq<string>)
    ensures |r| <= |report|
    ensures forall m :: m in r <==> exists i :: 0 <= i < |report| && report[i].0 == m && UsesTh(report[i].1.options)
    decreases |report|
  {
    if report == [] then []
    else
      var n := |report| - 1;
      var r := ThModules(report[..n]) + if UsesTh(report[n].1.options) then [report[n].0] else [];
      assert forall i :: 0 <= i < n ==> report[..n][i] == report[i];
      r
  }

  /** The filter keeps report order: the modules of a concatenation are those of each part in turn. */
  lemma {:induction false} ThModulesConcat(a: Report, b: Report)
    ensures ThModules(a + b) == ThModules(a) + ThModules(b)
    decreases |b|
  {
    if b == [] {
      assert a + b == a;
    } else {
      var n := |b| - 1;
      assert (a + b)[..|a + b| - 1] == a + b[..n];
      ThModulesConcat(a, b[..n]);
    }
  }

  // ---------------------------------------------------------------------------------------------
  // Module mapping

  /** The `RuntimeError`s of `determine_module_mapping`. */
  datatype MappingError =
    | NotOneSource(modname: string, sources: seq<string>)          // not exactly one Haskell source
    | NotOneBootSource(modname: string, bootSources: seq<string>)  // a `boot` part without exactly one boot file

  /** A description the mapping accepts: one Haskell source, and one boot file when there is a `boot` part. */
  predicate WellSourced(d: Description) {
    |HaskellSources(d.main.sources)| == 1
    && (d.boot.Some? ==> |BootSources(d.boot.value.sources)| == 1)
  }

  /** What one module means to the mapping. */
  datatype ModuleSource =
    | Unsourced(error: MappingError)
    | Sourced(modname: string, apparent: string, bootApparent: Option<string>)  // boot name without `-boot`

  /**
   * One module's sources checked, its sources before its boot files, and the apparent names of
   * its one source and its one boot file.
   */
  function Classify(modname: string, d: Description, sourcePrefix: string): ModuleSource {
    var sources := HaskellSources(d.main.sources);
    if |sources| != 1 then Unsourced(NotOneSource(modname, sources))
    else
      var apparent := ApparentModuleName(sourcePrefix, sources[0]);
      match d.boot
      case None => Sourced(modname, apparent, None)
      case Some(b) =>
        var bootSources := BootSources(b.sources);
        if |bootSources| != 1 then Unsourced(NotOneBootSource(modname, bootSources))
        else Sourced(modname, apparent, Some(ApparentModuleName(sourcePrefix, bootSources[0])))
  }

  function Classified(report: Report, sourcePrefix: string): (cs: seq<ModuleSource>)
    ensures |cs| == |report|
    ensures forall i :: 0 <= i < |report| ==> cs[i] == Classify(report[i].0, report[i].1, sourcePrefix)
  {
    seq(|report|, i requires 0 <= i < |report| => Classify(report[i].0, report[i].1, sourcePrefix))
  }

  /**
   * A module is unsourced exactly when it is not well sourced; the error names it, says which
   * part is at fault and lists what the filter found; otherwise it carries its apparent names.
   */
  lemma ClassifyMeans(modname: string, d: Description, sourcePrefix: string)
    ensures Classify(modname, d, sourcePrefix).Sourced? <==> WellSourced(d)
    ensures Classify(modname, d, sourcePrefix).Unsourced? ==>
      var e := Classify(modname, d, sourcePrefix).error;
      e.modname == modname
      && (e.NotOneSource? <==> |HaskellSources(d.main.sources)| != 1)
      && (e.NotOneSource? ==> e.sources == HaskellSources(d.main.sources))
      && (e.NotOneBootSource? ==> d.boot.Some? && e.bootSources == BootSources(d.boot.value.sources))
    ensures Classify(modname, d, sourcePrefix).Sourced? ==>
      var c := Classify(modname, d, sourcePrefix);
      c.modname == modname
      && c.apparent == ApparentModuleName(sourcePrefix, HaskellSources(d.main.sources)[0])
      && (c.bootApparent.Some? <==> d.boot.Some?)
      && (d.boot.Some? ==> c.bootApparent.value == ApparentModuleName(sourcePrefix, BootSources(d.boot.value.sources)[0]))
  {
  }

  /** The mapping after a sourced module: its apparent names written where they differ from its names. */
  function Record(m: map<string, string>, c: ModuleSource): map<string, string>
    requires c.Sourced?
  {
    var m1 := if c.apparent != c.modname then m[c.apparent := c.modname] else m;
    match c.bootApparent
    case None => m1
    case Some(b) => if b + "-boot" != c.modname + "-boot" then m1[b + "-boot" := c.modname + "-boot"] else m1
  }

  /** The mapping after the given modules, or the error of the first module that fails. */
  function MappingFold(cs: seq<ModuleSource>): Result<map<string, string>, MappingError>
    decreases |cs|
  {
    if cs == [] then Success(map[])
    else
      var n := |cs| - 1;
      match MappingFold(cs[..n])
      case Failure(e) => Failure(e)
      case Success(m) =>
        match cs[n]
        case Unsourced(e) => Failure(e)
        case Sourced(_, _, _) => Success(Record(m, cs[n]))
  }

  /** The result of `determine_module_mapping` on a report. */
  function ModuleMapping(report: Report, sourcePrefix: string): Result<map<string, string>, MappingError> {
    MappingFold(Classified(report, sourcePrefix))
  }

  /**
   * What one module writes: its apparent name mapped to its name when the two differ, and its
   * boot file's apparent name mapped to its name, both with `-boot` appended, when those differ.
   */
  predicate WritesEntry(c: ModuleSource, a: string, v: string)
    requires c.Sourced?
  {
    (a == c.apparent && a != c.modname && v == c.modname)
    || (c.bootApparent.Some? && a == c.bootApparent.value + "-boot" && c.bootApparent.value != c.modname
        && v == c.modname + "-boot")
  }

  lemma BootSuffixCancels(a: string, b: string)
    ensures a + "-boot" == b + "-boot" <==> a == b
  {
    if a + "-boot" == b + "-boot" {
      assert |a| == |b|;
      assert forall k :: 0 <= k < |a| ==> a[k] == (a + "-boot")[k];
      assert forall k :: 0 <= k < |b| ==> b[k] == (b + "-boot")[k];
    }
  }

  /** One module adds exactly the keys it writes, each holding a value written for it, and keeps every other entry. */
  lemma RecordAt(m: map<string, string>, c: ModuleSource, a: string)
    requires c.Sourced?
    ensures a in Record(m, c) <==> a in m || exists v :: WritesEntry(c, a, v)
    ensures a in Record(m, c) ==>
      WritesEntry(c, a, Record(m, c)[a]) || (a in m && Record(m, c)[a] == m[a] && forall v :: !WritesEntry(c, a, v))
  {
    var m1 := if c.apparent != c.modname then m[c.apparent := c.modname] else m;
    if c.bootApparent.Some? {
      var b := c.bootApparent.value;
      BootSuffixCancels(b, c.modname);
      if b != c.modname {
        assert Record(m, c) == m1[b + "-boot" := c.modname + "-boot"];
        assert WritesEntry(c, b + "-boot", c.modname + "-boot");
      } else {
        assert Record(m, c) == m1;
      }
    } else {
      assert Record(m, c) == m1;
    }
    if a == c.apparent && a != c.modname {
      assert WritesEntry(c, a, c.modname);
    }
  }

  /** A module whose apparent name is its own name, and that has no `boot` part, changes nothing. */
  lemma SelfNamedRecordsNothing(m: map<string, string>, c: ModuleSource)
    requires c.Sourced? && c.bootApparent.None? && c.apparent == c.modname
    ensures Record(m, c) == m
  {
  }

  /** Once a module has failed, the mapping has failed with its error, whatever follows. */
  lemma {:induction false} MappingFailureSticks(cs: seq<ModuleSource>, j: nat)
    requires j <= |cs| && MappingFold(cs[..j]).Failure?
    ensures MappingFold(cs) == MappingFold(cs[..j])
    decreases |cs| - j
  {
    if j < |cs| {
      assert cs[..j + 1][..j] == cs[..j];
      MappingFailureSticks(cs, j + 1);
    } else {
      assert cs[..j] == cs;
    }
  }

  lemma {:induction false} MappingFoldSucceeds(cs: seq<ModuleSource>)
    ensures MappingFold(cs).Success? <==> forall i :: 0 <= i < |cs| ==> cs[i].Sourced?
    decreases |cs|
  {
    if cs != [] {
      var n := |cs| - 1;
      MappingFoldSucceeds(cs[..n]);
      assert forall i :: 0 <= i < n ==> cs[..n][i] == cs[i];
    }
  }

  /** `determine_module_mapping` succeeds exactly when every module is well sourced. */
  lemma MappingSucceeds(report: Report, sourcePrefix: string)
    ensures ModuleMapping(report, sourcePrefix).Success? <==> forall i :: 0 <= i < |report| ==> WellSourced(report[i].1)
  {
    var cs := Classified(report, sourcePrefix);
    MappingFoldSucceeds(cs);
    forall i | 0 <= i < |report| ensures cs[i].Sourced? <==> WellSourced(report[i].1) {
      ClassifyMeans(report[i].0, report[i].1, sourcePrefix);
    }
  }

  lemma {:induction false} MappingFoldFirstError(cs: seq<ModuleSource>)
    requires MappingFold(cs).Failure?
    ensures exists i :: 0 <= i < |cs| && (forall j :: 0 <= j < i ==> cs[j].Sourced?) && cs[i] == Unsourced(MappingFold(cs).error)
    decreases |cs|
  {
    var n := |cs| - 1;
    var front := cs[..n];
    assert forall i :: 0 <= i < n ==> front[i] == cs[i];
    if MappingFold(front).Failure? {
      MappingFoldFirstError(front);
      var i :| 0 <= i < n && (forall j :: 0 <= j < i ==> front[j].Sourced?) && front[i] == Unsourced(MappingFold(front).error);
      assert cs[i] == Unsourced(MappingFold(cs).error);
    } else {
      MappingFoldSucceeds(front);
      assert cs[n] == Unsourced(MappingFold(cs).error);
    }
  }

  /** A failed mapping carries the error of the first module that is not well sourced. */
  lemma MappingFirstError(report: Report, sourcePrefix: string)
    requires ModuleMapping(report, sourcePrefix).Failure?
    ensures exists i ::
              && 0 <= i < |report|
              && (forall j :: 0 <= j < i ==> WellSourced(report[j].1))
              && !WellSourced(report[i].1)
              && Classify(report[i].0, report[i].1, sourcePrefix) == Unsourced(ModuleMapping(report, sourcePrefix).error)
  {
    var cs := Classified(report, sourcePrefix);
    MappingFoldFirstError(cs);
    var i :| 0 <= i < |cs| && (forall j :: 0 <= j < i ==> cs[j].Sourced?) && cs[i] == Unsourced(MappingFold(cs).error);
    forall j | 0 <= j < i ensures WellSourced(report[j].1) {
      ClassifyMeans(report[j].0, report[j].1, sourcePrefix);
    }
    ClassifyMeans(report[i].0, report[i].1, sourcePrefix);
  }

  /** Some sourced module among `cs` writes `(a, v)`. */
  ghost predicate Writes(cs: seq<ModuleSource>, a: string, v: string) {
    exists i :: 0 <= i < |cs| && cs[i].Sourced? && WritesEntry(cs[i], a, v)
  }

  /**
   * A successful mapping holds exactly the keys some module writes, each with a value some module
   * writes for it.
   */
  lemma {:induction false} MappingEntries(cs: seq<ModuleSource>, a: string)
    requires MappingFold(cs).Success?
    ensures a in MappingFold(cs).value <==> exists v :: Writes(cs, a, v)
    ensures a in MappingFold(cs).value ==> Writes(cs, a, MappingFold(cs).value[a])
    decreases |cs|
  {
    if cs != [] {
      var n := |cs| - 1;
      var m := MappingFold(cs[..n]).value;
      var r := MappingFold(cs).value;
      assert r == Record(m, cs[n]);
      MappingEntries(cs[..n], a);
      RecordAt(m, cs[n], a);
      WritesLast(cs, a);
      if exists v :: Writes(cs, a, v) {
        var v :| Writes(cs, a, v);
        assert Writes(cs[..n], a, v) || WritesEntry(cs[n], a, v);
      }
      if a in r {
        if !WritesEntry(cs[n], a, r[a]) {
          assert Writes(cs[..n], a, m[a]);
        }
        assert Writes(cs, a, r[a]);
      }
    }
  }

  /** The writes of a sequence are those of all but its last module, and the last module's. */
  lemma WritesLast(cs: seq<ModuleSource>, a: string)
    requires cs != []
    ensures forall v :: Writes(cs, a, v) <==>
      Writes(cs[..|cs| - 1], a, v) || (cs[|cs| - 1].Sourced? && WritesEntry(cs[|cs| - 1], a, v))
  {
    var n := |cs| - 1;
    assert forall i :: 0 <= i < n ==> cs[..n][i] == cs[i];
  }

  /** `determine_module_mapping` */
  method DetermineModuleMapping(report: Report, sourcePrefix: string) returns (r: Result<map<string, string>, MappingError>)
    ensures r == ModuleMapping(report, sourcePrefix)
  {
    ghost var cs := Classified(report, sourcePrefix);
    var result: map<string, string> := map[];
    var i := 0;
    while i < |report|
      invariant 0 <= i <= |report|
      invariant MappingFold(cs[..i]) == Success(result)
    {
      assert cs[..i + 1][..i] == cs[..i];
      var c := Classify(report[i].0, report[i].1, sourcePrefix);
      if c.Unsourced? {
        MappingFailureSticks(cs, i + 1);
        return Failure(c.error);
      }
      if c.apparent != c.modname {
        result := result[c.apparent := c.modname];
      }
      if c.bootApparent.Some? {
        var bootModname := c.modname + "-boot";
        var bootApparentName := c.bootApparent.value + "-boot";
        if bootApparentName != bootModname {
          result := result[bootApparentName := bootModname];
        }
      }
      i := i + 1;
    }
    assert cs[..i] == cs;
    return Success(result);
  }

  // ---------------------------------------------------------------------------------------------
  // Module graph

  /** `[dep + "-boot" for dep in xs]` */
  function BootNames(xs: seq<string>): (r: seq<string>)
    ensures |r| == |xs|
    ensures forall i :: 0 <= i < |xs| ==> r[i] == xs[i] + "-boot"
  {
    seq(|xs|, i requires 0 <= i < |xs| => xs[i] + "-boot")
  }

  /** The dependencies of one graph node: `modules`, then every `modules-boot` entry as a `-boot` node. */
  function PartDeps(p: Part): seq<string> {
    p.modules + BootNames(p.modulesBoot)
  }

  /** The graph after the given modules: each sets its own node and, with a `boot` part, its `-boot` node. */
  function GraphFold(report: Report): map<string, seq<string>>
    decreases |report|
  {
    if report == [] then map[]
    else
      var n := |report| - 1;
      var (modname, d) := report[n];
      var g := GraphFold(report[..n])[modname := PartDeps(d.main)];
      if d.boot.Some? then g[modname + "-boot" := PartDeps(d.boot.value)] else g
  }

  /** The nodes of the report's modules. */
  function ModuleNodes(report: Report): set<string> {
    set i | 0 <= i < |report| :: report[i].0
  }

  /** The `-boot` nodes: one per module with a `boot` part. */
  function BootNodes(report: Report): set<string> {
    set i | 0 <= i < |report| && report[i].1.boot.Some? :: report[i].0 + "-boot"
  }

  /** The graph has a node for every module, and a `-boot` node exactly for every module with a `boot` part. */
  lemma {:induction false} GraphKeys(report: Report)
    ensures GraphFold(report).Keys == ModuleNodes(report) + BootNodes(report)
    decreases |report|
  {
    if report != [] {
      var n := |report| - 1;
      var front := report[..n];
      GraphKeys(front);
      assert forall i :: 0 <= i < n ==> front[i] == report[i];
      assert ModuleNodes(report) == ModuleNodes(front) + {report[n].0};
      if report[n].1.boot.Some? {
        assert BootNodes(report) == BootNodes(front) + {report[n].0 + "-boot"};
      } else {
        assert BootNodes(report) == BootNodes(front);
      }
    }
  }

  /** A dash-free name is never a `-boot` node. */
  lemma NotBootNode(a: string, b: string)
    requires '-' !in a
    ensures a != b + "-boot"
  {
  }

  /**
   * With distinct, dash-free keys, a module's node lists its `modules` then its `modules-boot`
   * as `-boot` nodes, and likewise its `-boot` node for its `boot` part.
   */
  lemma {:induction false} GraphValues(report: Report, i: nat)
    requires DistinctKeys(report) && DashFree(report) && i < |report|
    ensures report[i].0 in GraphFold(report)
    ensures report[i].1.boot.Some? ==> report[i].0 + "-boot" in GraphFold(report)
    ensures GraphFold(report)[report[i].0] == PartDeps(report[i].1.main)
    ensures report[i].1.boot.Some? ==> GraphFold(report)[report[i].0 + "-boot"] == PartDeps(report[i].1.boot.value)
    decreases |report|
  {
    var n := |report| - 1;
    var front := report[..n];
    assert forall j :: 0 <= j < n ==> front[j] == report[j];
    GraphKeys(report);
    assert report[i].0 in ModuleNodes(report);
    if report[i].1.boot.Some? {
      assert report[i].0 + "-boot" in BootNodes(report);
    }
    NotBootNode(report[i].0, report[n].0);
    if i < n {
      GraphValues(front, i);
      BootSuffixCancels(report[i].0, report[n].0);
    }
  }

  /** `determine_module_graph` */
  method DetermineModuleGraph(report: Report) returns (moduleDeps: map<string, seq<string>>)
    ensures moduleDeps == GraphFold(report)
  {
    moduleDeps := map[];
    var i := 0;
    while i < |report|
      invariant 0 <= i <= |report|
      invariant moduleDeps == GraphFold(report[..i])
    {
      var (modname, description) := report[i];
      assert report[..i + 1][..i] == report[..i];
      moduleDeps := moduleDeps[modname := description.main.modules + BootNames(description.main.modulesBoot)];
      if description.boot.Some? {
        var bootDescription := description.boot.value;
        moduleDeps := moduleDeps[modname + "-boot" := bootDescription.modules + BootNames(bootDescription.modulesBoot)];
      }
      i := i + 1;
    }
    assert report[..i] == report;
  }

  // ---------------------------------------------------------------------------------------------
  // Package dependencies

  type PackageEntry = map<Option<string>, seq<string>>

  /** `entry[pkgdep.get("name")] = pkgdep.get("modules", [])` for each package in turn. */
  function Assign(entry: PackageEntry, ps: seq<PackageRef>): PackageEntry
    decreases |ps|
  {
    if ps == [] then entry
    else
      var n := |ps| - 1;
      Assign(entry, ps[..n])[ps[n].name := ps[n].modules]
  }

  function GetEntry(deps: map<string, PackageEntry>, k: string): PackageEntry {
    if k in deps then deps[k] else map[]
  }

  /** The update of one node: `setdefault(key, {})` happens only when there is a package to record. */
  function PackageStep(deps: map<string, PackageEntry>, key: string, ps: seq<PackageRef>): map<string, PackageEntry> {
    if ps == [] then deps else deps[key := Assign(GetEntry(deps, key), ps)]
  }

  /** The package dependencies after the given modules. */
  function PackageFold(report: Report): map<string, PackageEntry>
    decreases |report|
  {
    if report == [] then map[]
    else
      var n := |report| - 1;
      var (modname, d) := report[n];
      var deps := PackageStep(PackageFold(report[..n]), modname, d.main.packages);
      if d.boot.Some? then PackageStep(deps, modname + "-boot", d.boot.value.packages) else deps
  }

  /**
   * A package name is a key exactly when it is the existing entry's or some package's; a name
   * listed several times holds the modules of its last listing.
   */
  lemma {:induction false} AssignLastWins(entry: PackageEntry, ps: seq<PackageRef>, k: Option<string>)
    ensures k in Assign(entry, ps) <==> k in entry || exists j :: 0 <= j < |ps| && ps[j].name == k
    ensures forall j :: 0 <= j < |ps| && ps[j].name == k && (forall j' :: j < j' < |ps| ==> ps[j'].name != k) ==>
      Assign(entry, ps)[k] == ps[j].modules
    ensures (forall j :: 0 <= j < |ps| ==> ps[j].name != k) && k in entry ==> Assign(entry, ps)[k] == entry[k]
    decreases |ps|
  {
    if ps != [] {
      var n := |ps| - 1;
      AssignLastWins(entry, ps[..n], k);
      assert forall j :: 0 <= j < n ==> ps[..n][j] == ps[j];
    }
  }

  /** The report entry `e` gives node `k` some package: its own part does, or `k` is its `-boot` node and its `boot` part does. */
  predicate NodeLists(e: (string, Description), k: string) {
    (e.0 == k && e.1.main.packages != [])
    || (k == e.0 + "-boot" && e.1.boot.Some? && e.1.boot.value.packages != [])
  }

  /** Some module of the report gives node `k` a package. */
  ghost predicate ListsPackages(report: Report, k: string) {
    exists i :: 0 <= i < |report| && NodeLists(report[i], k)
  }

  lemma ListsPackagesLast(report: Report, k: string)
    requires report != []
    ensures ListsPackages(report, k) <==> ListsPackages(report[..|report| - 1], k) || NodeLists(report[|report| - 1], k)
  {
    var n := |report| - 1;
    assert forall i :: 0 <= i < n ==> report[..n][i] == report[i];
  }

  /** One node's update adds that node exactly when it has a package, and gives it a non-empty entry. */
  lemma PackageStepAt(deps: map<string, PackageEntry>, key: string, ps: seq<PackageRef>, k: string)
    ensures k in PackageStep(deps, key, ps) <==> k in deps || (k == key && ps != [])
    ensures k in PackageStep(deps, key, ps) && (k in deps ==> deps[k] != map[]) ==> PackageStep(deps, key, ps)[k] != map[]
  {
    if ps != [] && k == key {
      AssignNonEmpty(GetEntry(deps, key), ps);
    }
  }

  lemma PackageFoldLast(report: Report, k: string)
    requires report != []
    ensures var n := |report| - 1;
      var (modname, d) := report[n];
      var deps := PackageStep(PackageFold(report[..n]), modname, d.main.packages);
      PackageFold(report) == if d.boot.Some? then PackageStep(deps, modname + "-boot", d.boot.value.packages) else deps
  {
  }

  /** A node has an entry exactly when some module gives it a package. */
  lemma {:induction false} PackageKeys(report: Report, k: string)
    ensures k in PackageFold(report) <==> ListsPackages(report, k)
    decreases |report|
  {
    if report != [] {
      var n := |report| - 1;
      var (modname, d) := report[n];
      PackageKeys(report[..n], k);
      ListsPackagesLast(report, k);
      var deps := PackageStep(PackageFold(report[..n]), modname, d.main.packages);
      PackageStepAt(PackageFold(report[..n]), modname, d.main.packages, k);
      if d.boot.Some? {
        PackageStepAt(deps, modname + "-boot", d.boot.value.packages, k);
      }
    }
  }

  /** No node gets an empty entry. */
  lemma {:induction false} PackageEntriesNonEmpty(report: Report, k: string)
    ensures k in PackageFold(report) ==> PackageFold(report)[k] != map[]
    decreases |report|
  {
    if report != [] {
      var n := |report| - 1;
      var (modname, d) := report[n];
      PackageEntriesNonEmpty(report[..n], k);
      var deps := PackageStep(PackageFold(report[..n]), modname, d.main.packages);
      PackageStepAt(PackageFold(report[..n]), modname, d.main.packages, k);
      if d.boot.Some? {
        PackageStepAt(deps, modname + "-boot", d.boot.value.packages, k);
      }
    }
  }

  lemma AssignNonEmpty(entry: PackageEntry, ps: seq<PackageRef>)
    requires ps != []
    ensures ps[|ps| - 1].name in Assign(entry, ps)
  {
  }

  /** With distinct, dash-free keys, a module's node holds its own packages, assigned in order. */
  lemma {:induction false} PackageValues(report: Report, i: nat)
    requires DistinctKeys(report) && DashFree(report) && i < |report| && report[i].1.main.packages != []
    ensures report[i].0 in PackageFold(report)
    ensures PackageFold(report)[report[i].0] == Assign(map[], report[i].1.main.packages)
    decreases |report|
  {
    var n := |report| - 1;
    var front := report[..n];
    var (modname, d) := report[n];
    var key := report[i].0;
    var deps := PackageStep(PackageFold(front), modname, d.main.packages);
    PackageStepAt(PackageFold(front), modname, d.main.packages, key);
    if d.boot.Some? {
      PackageStepAt(deps, modname + "-boot", d.boot.value.packages, key);
    }
    NotBootNode(key, modname);
    if i < n {
      assert front[i] == report[i];
      PackageValues(front, i);
    } else {
      PackageKeys(front, key);
      NoEarlierNode(report, key);
    }
  }

  /** And its `-boot` node holds the packages of its `boot` part. */
  lemma {:induction false} BootPackageValues(report: Report, i: nat)
    requires DistinctKeys(report) && DashFree(report) && i < |report|
    requires report[i].1.boot.Some? && report[i].1.boot.value.packages != []
    ensures report[i].0 + "-boot" in PackageFold(report)
    ensures PackageFold(report)[report[i].0 + "-boot"] == Assign(map[], report[i].1.boot.value.packages)
    decreases |report|
  {
    var n := |report| - 1;
    var front := report[..n];
    var (modname, d) := report[n];
    var key := report[i].0;
    var deps := PackageStep(PackageFold(front), modname, d.main.packages);
    PackageStepAt(PackageFold(front), modname, d.main.packages, key + "-boot");
    if d.boot.Some? {
      PackageStepAt(deps, modname + "-boot", d.boot.value.packages, key + "-boot");
    }
    NotBootNode(modname, key);
    if i < n {
      assert front[i] == report[i];
      BootPackageValues(front, i);
      BootSuffixCancels(key, modname);
    } else {
      NotBootNode(key, key);
      PackageKeys(front, key + "-boot");
      NoEarlierBootNode(report, key);
    }
  }

  /** The last module's node gets no package from the modules before it. */
  lemma NoEarlierNode(report: Report, k: string)
    requires DistinctKeys(report) && DashFree(report) && report != [] && k == report[|report| - 1].0
    ensures !ListsPackages(report[..|report| - 1], k)
  {
    var n := |report| - 1;
    forall i | 0 <= i < n ensures !NodeLists(report[..n][i], k) {
      assert report[..n][i] == report[i];
      NotBootNode(k, report[i].0);
    }
  }

  /** Nor does its `-boot` node. */
  lemma NoEarlierBootNode(report: Report, k: string)
    requires DistinctKeys(report) && DashFree(report) && report != [] && k == report[|report| - 1].0
    ensures !ListsPackages(report[..|report| - 1], k + "-boot")
  {
    var n := |report| - 1;
    forall i | 0 <= i < n ensures !NodeLists(report[..n][i], k + "-boot") {
      assert report[..n][i] == report[i];
      NotBootNode(report[i].0, k);
      BootSuffixCancels(k, report[i].0);
    }
  }

  /** The inner loop of `determine_package_deps` for one node. */
  method SetPackages(deps: map<string, PackageEntry>, key: string, ps: seq<PackageRef>) returns (r: map<string, PackageEntry>)
    ensures r == PackageStep(deps, key, ps)
  {
    r := deps;
    var j := 0;
    while j < |ps|
      invariant 0 <= j <= |ps|
      invariant r == if j == 0 then deps else deps[key := Assign(GetEntry(deps, key), ps[..j])]
    {
      var pkgdep := ps[j];
      assert ps[..j + 1][..j] == ps[..j];
      var entry := GetEntry(r, key);
      r := r[key := entry[pkgdep.name := pkgdep.modules]];
      j := j + 1;
    }
    assert ps[..j] == ps;
  }

  /** `determine_package_deps` */
  method DeterminePackageDeps(report: Report) returns (packageDeps: map<string, PackageEntry>)
    ensures packageDeps == PackageFold(report)
  {
    packageDeps := map[];
    var i := 0;
    while i < |report|
      invariant 0 <= i <= |report|
      invariant packageDeps == PackageFold(report[..i])
    {
      var (modname, description) := report[i];
      assert report[..i + 1][..i] == report[..i];
      packageDeps := SetPackages(packageDeps, modname, description.main.packages);
      if description.boot.Some? {
        packageDeps := SetPackages(packageDeps, modname + "-boot", description.boot.value.packages);
      }
      i := i + 1;
    }
    assert report[..i] == report;
  }

  // ---------------------------------------------------------------------------------------------
  // The result

  /** The four fields of the result object. */
  datatype Metadata = Metadata(
    thModules: seq<string>,
    moduleMapping: map<string, string>,
    moduleGraph: map<string, seq<string>>,
    packageDeps: map<string, PackageEntry>)

  /** `obtain_target_metadata`, with the report passed in. */
  method ObtainTargetMetadata(report: Report, sourcePrefix: string) returns (r: Result<Metadata, MappingError>)
    ensures r.Success? <==> forall i :: 0 <= i < |report| ==> WellSourced(report[i].1)
    ensures r.Success? ==>
              && r.value.thModules == ThModules(report)
              && Success(r.value.moduleMapping) == ModuleMapping(report, sourcePrefix)
              && r.value.moduleGraph == GraphFold(report)
              && r.value.packageDeps == PackageFold(report)
    ensures r.Failure? ==> Failure(r.error) == ModuleMapping(report, sourcePrefix)
  {
    var thModules := ThModules(report);
    var moduleMapping := DetermineModuleMapping(report, sourcePrefix);
    MappingSucceeds(report, sourcePrefix);
    if moduleMapping.Failure? {
      return Failure(moduleMapping.error);
    }
    var moduleGraph := DetermineModuleGraph(report);
    var packageDeps := DeterminePackageDeps(report);
    return Success(Metadata(thModules, moduleMapping.value, moduleGraph, packageDeps));
  }
}
