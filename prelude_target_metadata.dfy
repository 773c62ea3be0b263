/**
 * The older Haskell target-metadata resolver: classifying each dependency path that `ghc -M`
 * reports (`parse_module_deps`) and folding the report into the module mapping, the
 * intra-package graph and the cross-package graph (`interpret_ghc_depends`).
 *
 * The report is a JSON object iterated in order; it is a sequence of `(key, values)` pairs here,
 * with distinct keys as in any JSON object read into a dictionary.
 */
module PreludeTargetMetadata {
  import opened Wrappers
  import opened PyStr
  import opened PyPath
  import opened HaskellNames
  import opened PackageTrie
  import Th = DetectThExtension

  /** Where `parse_module_deps` sends one dependency path. */
  datatype DepKind =
    | HaskellSource                            // dropped: a source file, not a module
    | Absolute                                 // dropped: an absolute path (toolchain libraries)
    | External(pkg: string, modname: string)   // a module of a dependency package
    | Internal(modname: string)                // a module of this package

  function Classify(dep: string, t: Trie): DepKind {
    if IsHaskellSrc(dep) then HaskellSource
    else if IsAbs(dep) then Absolute
    else match LookupSpec(dep, t)
      case Some(p) => External(p.0, p.1)
      case None => Internal(SrcToModuleName(dep))
  }

  /** Every dependency classified, in input order. */
  function Kinds(deps: seq<string>, t: Trie): (r: seq<DepKind>)
    ensures |r| == |deps|
  {
    MapEach(deps, d => Classify(d, t))
  }

  /** The `i`-th kind is the classification of the `i`-th dependency. */
  lemma KindsAt(deps: seq<string>, t: Trie, i: nat)
    requires i < |deps|
    ensures Kinds(deps, t)[i] == Classify(deps[i], t)
  {
    MapEachAt(deps, d => Classify(d, t), i);
  }

  function Get<K, V>(m: map<K, seq<V>>, k: K): seq<V> {
    if k in m then m[k] else []
  }

  /** The intra-package modules among the classified dependencies, in input order. */
  function Internals(ks: seq<DepKind>): seq<string>
    decreases |ks|
  {
    if ks == [] then []
    else
      var n := |ks| - 1;
      Internals(ks[..n]) + match ks[n] case Internal(m) => [m] case _ => []
  }

  /** `setdefault(pkgname, []).append(modname)` for every cross-package hit, in input order. */
  function Externals(ks: seq<DepKind>): map<string, seq<string>>
    decreases |ks|
  {
    if ks == [] then map[]
    else
      var n := |ks| - 1;
      var e := Externals(ks[..n]);
      match ks[n]
      case External(p, m) => e[p := Get(e, p) + [m]]
      case _ => e
  }

  /** The modules of package `p` among the classified dependencies, in input order. */
  function ExternalsFor(ks: seq<DepKind>, p: string): seq<string>
    decreases |ks|
  {
    if ks == [] then []
    else
      var n := |ks| - 1;
      ExternalsFor(ks[..n], p) + match ks[n] case External(q, m) => if q == p then [m] else [] case _ => []
  }

  /** The number of dropped dependencies: Haskell sources and absolute paths. */
  function Dropped(ks: seq<DepKind>): nat
    decreases |ks|
  {
    if ks == [] then 0
    else
      var n := |ks| - 1;
      Dropped(ks[..n]) + if ks[n].HaskellSource? || ks[n].Absolute? then 1 else 0
  }

  /** The internal list of `parse_module_deps`. */
  function InternalDeps(deps: seq<string>, t: Trie): seq<string> {
    Internals(Kinds(deps, t))
  }

  /** The external map of `parse_module_deps`. */
  function ExternalDeps(deps: seq<string>, t: Trie): map<string, seq<string>> {
    Externals(Kinds(deps, t))
  }

  ghost function TotalLength(m: map<string, seq<string>>): nat {
    if m == map[] then 0
    else
      var k := PickKey(m);
      |m[k]| + TotalLength(m - {k})
  }

  ghost function PickKey(m: map<string, seq<string>>): (k: string)
    requires m != map[]
    ensures k in m
  {
    var k :| k in m; k
  }

  /**
   * The external map groups the hits by package: a package is a key exactly when it has a hit,
   * and its list is that package's modules in input order.
   */
  lemma {:induction false} ExternalsByPackage(ks: seq<DepKind>, p: string)
    ensures p in Externals(ks) <==> ExternalsFor(ks, p) != []
    ensures p in Externals(ks) ==> Externals(ks)[p] == ExternalsFor(ks, p)
    decreases |ks|
  {
    if ks != [] {
      ExternalsByPackage(ks[..|ks| - 1], p);
    }
  }

  /** Every dependency is dropped, or lands in exactly one place: the internal list or one package's list. */
  lemma {:induction false} ParsePartitions(ks: seq<DepKind>)
    ensures |Internals(ks)| + TotalLength(Externals(ks)) + Dropped(ks) == |ks|
    decreases |ks|
  {
    if ks != [] {
      var n := |ks| - 1;
      ParsePartitions(ks[..n]);
      match ks[n]
      case External(p, m) =>
        var e := Externals(ks[..n]);
        TotalLengthUpdate(e, p, Get(e, p) + [m]);
      case _ =>
    }
  }

  lemma {:induction false} TotalLengthRemove(m: map<string, seq<string>>, k: string)
    requires k in m
    ensures TotalLength(m) == |m[k]| + TotalLength(m - {k})
    decreases |m|
  {
    var j := PickKey(m);
    if j != k {
      var m' := m - {j};
      TotalLengthRemove(m', k);
      TotalLengthRemove(m - {k}, j);
      assert m' - {k} == (m - {k}) - {j};
    }
  }

  lemma TotalLengthUpdate(m: map<string, seq<string>>, k: string, v: seq<string>)
    ensures TotalLength(m[k := v]) == TotalLength(m) - |Get(m, k)| + |v|
  {
    TotalLengthRemove(m[k := v], k);
    assert m[k := v] - {k} == m - {k};
    if k in m {
      TotalLengthRemove(m, k);
    } else {
      assert m - {k} == m;
    }
  }

  /** A dependency's place in the result follows its classification. */
  lemma {:induction false} ParsePlaces(ks: seq<DepKind>, i: nat)
    requires i < |ks|
    ensures ks[i].Internal? ==> ks[i].modname in Internals(ks)
    ensures ks[i].External? ==> ks[i].pkg in Externals(ks) && ks[i].modname in Externals(ks)[ks[i].pkg]
    decreases |ks|
  {
    var n := |ks| - 1;
    if i < n {
      assert ks[..n][i] == ks[i];
      ParsePlaces(ks[..n], i);
      if ks[i].External? {
        ExternalsByPackage(ks[..n], ks[i].pkg);
      }
    }
  }

  /** For the dependencies themselves: an intra-package module is listed, a hit is under its package. */
  lemma ParseModuleDepsPlaces(deps: seq<string>, t: Trie, i: nat)
    requires i < |deps|
    ensures var c := Classify(deps[i], t);
      && (c.Internal? ==> c.modname in InternalDeps(deps, t))
      && (c.External? ==> c.pkg in ExternalDeps(deps, t) && c.modname in ExternalDeps(deps, t)[c.pkg])
  {
    ParsePlaces(Kinds(deps, t), i);
    KindsAt(deps, t, i);
  }

  /** One iteration of `parse_module_deps`: where the dependency goes. */
  method ParseDependency(dep: string, prefixes: Trie) returns (k: DepKind)
    ensures k == Classify(dep, prefixes)
  {
    if IsHaskellSrc(dep) {
      return HaskellSource;
    }
    if IsAbs(dep) {
      return Absolute;
    }
    var pkgdep := LookupPackageDep(dep, prefixes);
    if pkgdep.Some? {
      var (pkgname, modname) := pkgdep.value;
      return External(pkgname, modname);
    }
    return Internal(SrcToModuleName(dep));
  }

  /** `parse_module_deps`: classify every dependency in order. */
  method ParseModuleDeps(moduleDeps: seq<string>, prefixes: Trie) returns (internal: seq<string>, external: map<string, seq<string>>)
    ensures internal == InternalDeps(moduleDeps, prefixes)
    ensures external == ExternalDeps(moduleDeps, prefixes)
  {
    internal, external := [], map[];
    ghost var ks := Kinds(moduleDeps, prefixes);
    var i := 0;
    while i < |moduleDeps|
      invariant 0 <= i <= |moduleDeps|
      invariant internal == Internals(ks[..i])
      invariant external == Externals(ks[..i])
    {
      assert ks[..i + 1][..i] == ks[..i];
      var kind := ParseDependency(moduleDeps[i], prefixes);
      KindsAt(moduleDeps, prefixes, i);
      i := i + 1;
      match kind
      case External(pkgname, modname) =>
        external := external[pkgname := Get(external, pkgname) + [modname]];
      case Internal(modname) =>
        internal := internal + [modname];
      case _ =>
    }
    assert ks[..i] == ks;
  }

  /** The three dictionaries `interpret_ghc_depends` returns. */
  datatype Interpretation = Interpretation(
    mapping: map<string, string>,
    graph: map<string, seq<string>>,
    extgraph: map<string, map<string, seq<string>>>)

  /** The assertion that an object file has exactly one Haskell source failed. */
  datatype InterpretError = MultipleSources(key: string, sources: seq<string>)

  /** Pointwise `setdefault(pkg, []).extend(mods)` of `ext` into `entry`. */
  function ExtendAll(entry: map<string, seq<string>>, ext: map<string, seq<string>>): (r: map<string, seq<string>>)
    ensures r.Keys == entry.Keys + ext.Keys
    ensures forall p :: p in r ==> r[p] == Get(entry, p) + Get(ext, p)
  {
    map p | p in entry.Keys + ext.Keys :: Get(entry, p) + Get(ext, p)
  }

  function GetMap(m: map<string, map<string, seq<string>>>, k: string): map<string, seq<string>> {
    if k in m then m[k] else map[]
  }

  /** `[strip_prefix_("./", v) for v in vs]` */
  function StripDotSlash(vs: seq<string>): (r: seq<string>)
    ensures |r| == |vs|
  {
    MapEach(vs, v => StripPrefixOr("./", v))
  }

  /** Each dependency loses its leading `./`, and only that. */
  lemma StripDotSlashAt(vs: seq<string>, i: nat)
    requires i < |vs|
    ensures StripDotSlash(vs)[i] == StripPrefixOr("./", vs[i])
  {
    MapEachAt(vs, v => StripPrefixOr("./", v), i);
  }

  /** One report entry with the leading `./` removed from its key and from each dependency. */
  function NormalizeEntry(item: (string, seq<string>)): (string, seq<string>) {
    (StripPrefixOr("./", item.0), StripDotSlash(item.1))
  }

  /**
   * The report with the leading `./` that `-outputdir .` leaves removed from every key and every
   * dependency; the folds below read the entries in this form.
   */
  function Normalize(items: seq<(string, seq<string>)>): (r: seq<(string, seq<string>)>)
    ensures |r| == |items|
  {
    MapEach(items, NormalizeEntry)
  }

  /** The `i`-th entry read by the folds is the `i`-th report entry, normalised. */
  lemma NormalizeAt(items: seq<(string, seq<string>)>, i: nat)
    requires i < |items|
    ensures Normalize(items)[i] == (StripPrefixOr("./", items[i].0), StripDotSlash(items[i].1))
  {
    MapEachAt(items, NormalizeEntry, i);
  }

  /** What one entry contributes to the mapping. */
  datatype ObjectSource =
    | Unmapped                                   // not an object file, or no Haskell source
    | Ambiguous(key: string, sources: seq<string>)  // an object file with several Haskell sources
    | Maps(apparent: string, modname: string)    // an object file and its one Haskell source

  /** Classify one (stripped) entry for the mapping. */
  function ObjectMapping(k: string, vs: seq<string>, sourcePrefix: string): ObjectSource {
    var sources := HaskellSources(vs);
    if SplitExt(k).1 != ".o" || sources == [] then Unmapped
    else if |sources| != 1 then Ambiguous(k, sources)
    else Maps(ApparentModuleName(sourcePrefix, sources[0]), SrcToModuleName(k))
  }

  /** Every entry classified for the mapping, in report order. */
  function ObjectMappings(entries: seq<(string, seq<string>)>, sourcePrefix: string): (r: seq<ObjectSource>)
    ensures |r| == |entries|
  {
    MapEach(entries, (e: (string, seq<string>)) => ObjectMapping(e.0, e.1, sourcePrefix))
  }

  /** The `i`-th classification is that of the `i`-th entry. */
  lemma ObjectMappingsAt(entries: seq<(string, seq<string>)>, sourcePrefix: string, i: nat)
    requires i < |entries|
    ensures ObjectMappings(entries, sourcePrefix)[i] == ObjectMapping(entries[i].0, entries[i].1, sourcePrefix)
  {
    MapEachAt(entries, (e: (string, seq<string>)) => ObjectMapping(e.0, e.1, sourcePrefix), i);
  }

  /** The graph update of one entry: `graph.setdefault(module_name, []).extend(intdeps)`. */
  function GraphStep(graph: map<string, seq<string>>, k: string, vs: seq<string>, t: Trie): map<string, seq<string>> {
    var m := SrcToModuleName(k);
    graph[m := Get(graph, m) + InternalDeps(vs, t)]
  }

  /** The cross-package update of one entry; a module gets an entry only with some hit. */
  function ExtStep(extgraph: map<string, map<string, seq<string>>>, k: string, vs: seq<string>, t: Trie)
    : map<string, map<string, seq<string>>>
  {
    var m := SrcToModuleName(k);
    var extdeps := ExternalDeps(vs, t);
    if extdeps == map[] then extgraph else extgraph[m := ExtendAll(GetMap(extgraph, m), extdeps)]
  }

  /**
   * The mapping update of one entry: an object file must have exactly one Haskell source, whose
   * apparent name is recorded when it differs from the key's module name.
   */
  function MappingStep(mapping: map<string, string>, c: ObjectSource): Result<map<string, string>, InterpretError> {
    match c
    case Unmapped => Success(mapping)
    case Ambiguous(k, sources) => Failure(MultipleSources(k, sources))
    case Maps(hs, m) => Success(if hs != m then mapping[hs := m] else mapping)
  }

  function GraphFold(items: seq<(string, seq<string>)>, t: Trie): map<string, seq<string>>
    decreases |items|
  {
    if items == [] then map[]
    else
      var n := |items| - 1;
      GraphStep(GraphFold(items[..n], t), items[n].0, items[n].1, t)
  }

  function ExtFold(items: seq<(string, seq<string>)>, t: Trie): map<string, map<string, seq<string>>>
    decreases |items|
  {
    if items == [] then map[]
    else
      var n := |items| - 1;
      ExtStep(ExtFold(items[..n], t), items[n].0, items[n].1, t)
  }

  function MappingFold(cs: seq<ObjectSource>): Result<map<string, string>, InterpretError>
    decreases |cs|
  {
    if cs == [] then Success(map[])
    else
      var n := |cs| - 1;
      match MappingFold(cs[..n])
      case Failure(e) => Failure(e)
      case Success(mp) => MappingStep(mp, cs[n])
  }

  /**
   * `interpret_ghc_depends`: the three dictionaries are updated together in one pass over the
   * report; only the mapping update can fail, and a failure discards everything.
   */
  function Interpret(items: seq<(string, seq<string>)>, sourcePrefix: string, t: Trie): Result<Interpretation, InterpretError> {
    var entries := Normalize(items);
    match MappingFold(ObjectMappings(entries, sourcePrefix))
    case Failure(e) => Failure(e)
    case Success(mp) => Success(Interpretation(mp, GraphFold(entries, t), ExtFold(entries, t)))
  }

  /** `extgraph.setdefault(module_name, {})` then `.setdefault(pkg, []).extend(mods)` for each package. */
  method ExtendEntry(entry: map<string, seq<string>>, extdeps: map<string, seq<string>>) returns (r: map<string, seq<string>>)
    ensures r == ExtendAll(entry, extdeps)
  {
    r := entry;
    var remaining := extdeps.Keys;
    while remaining != {}
      invariant remaining <= extdeps.Keys
      invariant r.Keys == entry.Keys + (extdeps.Keys - remaining)
      invariant forall p :: p in r ==> r[p] == Get(entry, p) + (if p in remaining then [] else Get(extdeps, p))
      decreases remaining
    {
      var p :| p in remaining;
      r := r[p := Get(r, p) + extdeps[p]];
      remaining := remaining - {p};
    }
  }

  /** The graph updates of one entry of `interpret_ghc_depends`. */
  method AddModuleDeps(graph: map<string, seq<string>>, extgraph: map<string, map<string, seq<string>>>,
                       moduleName: string, vs: seq<string>, prefixes: Trie)
    returns (graph': map<string, seq<string>>, extgraph': map<string, map<string, seq<string>>>)
    ensures graph' == graph[moduleName := Get(graph, moduleName) + InternalDeps(vs, prefixes)]
    ensures var extdeps := ExternalDeps(vs, prefixes);
      extgraph' == if extdeps == map[] then extgraph else extgraph[moduleName := ExtendAll(GetMap(extgraph, moduleName), extdeps)]
  {
    var intdeps, extdeps := ParseModuleDeps(vs, prefixes);
    graph' := graph[moduleName := Get(graph, moduleName) + intdeps];
    extgraph' := extgraph;
    if extdeps != map[] {
      var entry := ExtendEntry(GetMap(extgraph, moduleName), extdeps);
      extgraph' := extgraph[moduleName := entry];
    }
  }

  /** The first failing entry decides the failure: later entries are not looked at. */
  lemma {:induction false} MappingFailureSticks(cs: seq<ObjectSource>, j: nat)
    requires j <= |cs| && MappingFold(cs[..j]).Failure?
    ensures MappingFold(cs) == MappingFold(cs[..j])
    decreases |cs|
  {
    if j < |cs| {
      var n := |cs| - 1;
      assert cs[..n][..j] == cs[..j];
      MappingFailureSticks(cs[..n], j);
    } else {
      assert cs[..j] == cs;
    }
  }

  /** The mapping update of one entry of `interpret_ghc_depends`, whose key names `moduleName`. */
  method RecordObject(mapping: map<string, string>, k: string, moduleName: string, vs: seq<string>, sourcePrefix: string)
    returns (r: Result<map<string, string>, InterpretError>)
    requires moduleName == SrcToModuleName(k)
    ensures r == MappingStep(mapping, ObjectMapping(k, vs, sourcePrefix))
  {
    ghost var c := ObjectMapping(k, vs, sourcePrefix);
    var ext := SplitExt(k).1;
    if ext != ".o" {
      assert c == Unmapped;
      return Success(mapping);
    }
    var sources := HaskellSources(vs);
    if sources == [] {
      assert c == Unmapped;
      return Success(mapping);
    }
    if |sources| != 1 {
      assert c == Ambiguous(k, sources);
      return Failure(MultipleSources(k, sources));
    }
    var hsModuleName := ApparentModuleName(sourcePrefix, sources[0]);
    assert c == Maps(hsModuleName, moduleName);
    if hsModuleName != moduleName {
      return Success(mapping[hsModuleName := moduleName]);
    }
    return Success(mapping);
  }

  /** One iteration of `interpret_ghc_depends`: the graph updates, then the mapping update. */
  method InterpretEntry(mapping: map<string, string>, graph: map<string, seq<string>>,
                        extgraph: map<string, map<string, seq<string>>>,
                        item: (string, seq<string>), sourcePrefix: string, prefixes: Trie)
    returns (step: Result<map<string, string>, InterpretError>, graph': map<string, seq<string>>,
             extgraph': map<string, map<string, seq<string>>>)
    ensures var e := NormalizeEntry(item);
      && graph' == GraphStep(graph, e.0, e.1, prefixes)
      && extgraph' == ExtStep(extgraph, e.0, e.1, prefixes)
      && step == MappingStep(mapping, ObjectMapping(e.0, e.1, sourcePrefix))
  {
    var (k0, vs0) := item;
    var k := StripPrefixOr("./", k0);
    var vs := StripDotSlash(vs0);
    var moduleName := SrcToModuleName(k);
    graph', extgraph' := AddModuleDeps(graph, extgraph, moduleName, vs, prefixes);
    step := RecordObject(mapping, k, moduleName, vs, sourcePrefix);
  }

  /** `interpret_ghc_depends` */
  method InterpretGhcDepends(ghcDepends: seq<(string, seq<string>)>, sourcePrefix: string, prefixes: Trie)
    returns (r: Result<Interpretation, InterpretError>)
    ensures r == Interpret(ghcDepends, sourcePrefix, prefixes)
  {
    var mapping: map<string, string> := map[];
    var graph: map<string, seq<string>> := map[];
    var extgraph: map<string, map<string, seq<string>>> := map[];
    ghost var entries := Normalize(ghcDepends);
    ghost var objects := ObjectMappings(entries, sourcePrefix);
    var i := 0;
    while i < |ghcDepends|
      invariant 0 <= i <= |ghcDepends|
      invariant MappingFold(objects[..i]) == Success(mapping)
      invariant graph == GraphFold(entries[..i], prefixes)
      invariant extgraph == ExtFold(entries[..i], prefixes)
    {
      PrefixOfPrefix(entries, i);
      PrefixOfPrefix(objects, i);
      MapEachAt(ghcDepends, NormalizeEntry, i);
      ObjectMappingsAt(entries, sourcePrefix, i);
      var step;
      step, graph, extgraph := InterpretEntry(mapping, graph, extgraph, ghcDepends[i], sourcePrefix, prefixes);
      i := i + 1;
      if step.Failure? {
        MappingFailureSticks(objects, i);
        return Failure(step.error);
      }
      mapping := step.value;
    }
    FullPrefix(entries);
    FullPrefix(objects);
    return Success(Interpretation(mapping, graph, extgraph));
  }

  /** The concatenated intra-package dependencies of every report key naming `m`, in report order. */
  function GraphFor(items: seq<(string, seq<string>)>, m: string, t: Trie): seq<string>
    decreases |items|
  {
    if items == [] then []
    else
      var n := |items| - 1;
      GraphFor(items[..n], m, t) + if SrcToModuleName(items[n].0) == m then InternalDeps(items[n].1, t) else []
  }

  /** The modules named by the report's keys. */
  function KeyModules(items: seq<(string, seq<string>)>): set<string>
    decreases |items|
  {
    if items == [] then {}
    else
      var n := |items| - 1;
      KeyModules(items[..n]) + {SrcToModuleName(items[n].0)}
  }

  /** A module is a key module exactly when some key names it. */
  lemma {:induction false} KeyModulesMembers(items: seq<(string, seq<string>)>, x: string)
    ensures x in KeyModules(items) <==> exists i :: 0 <= i < |items| && SrcToModuleName(items[i].0) == x
    decreases |items|
  {
    if items != [] {
      var n := |items| - 1;
      var pre := items[..n];
      KeyModulesMembers(pre, x);
      if x == SrcToModuleName(items[n].0) {
        assert x in KeyModules(items);
      } else if x in KeyModules(pre) {
        var i :| 0 <= i < n && SrcToModuleName(pre[i].0) == x;
        assert pre[i] == items[i];
      } else {
        assert x !in KeyModules(items);
        forall i | 0 <= i < |items| ensures SrcToModuleName(items[i].0) != x {
          if i < n {
            assert pre[i] == items[i];
          }
        }
      }
    }
  }

  /** The interpretation fails exactly when some object-file key lists more than one Haskell source. */
  lemma InterpretFails(items: seq<(string, seq<string>)>, sourcePrefix: string, t: Trie)
    ensures var entries := Normalize(items);
      Interpret(items, sourcePrefix, t).Failure? <==>
      exists i :: 0 <= i < |entries| && ObjectMapping(entries[i].0, entries[i].1, sourcePrefix).Ambiguous?
  {
    var entries := Normalize(items);
    var cs := ObjectMappings(entries, sourcePrefix);
    MappingFails(cs);
    forall i | 0 <= i < |cs| ensures cs[i] == ObjectMapping(entries[i].0, entries[i].1, sourcePrefix) {
      ObjectMappingsAt(entries, sourcePrefix, i);
    }
    if exists i :: 0 <= i < |cs| && cs[i].Ambiguous? {
      var i :| 0 <= i < |cs| && cs[i].Ambiguous?;
      assert ObjectMapping(entries[i].0, entries[i].1, sourcePrefix).Ambiguous?;
    }
  }

  /** `ObjectMapping` reports an ambiguity exactly for an object file with several Haskell sources. */
  lemma AmbiguousObject(k: string, vs: seq<string>, sourcePrefix: string)
    ensures ObjectMapping(k, vs, sourcePrefix).Ambiguous? <==> SplitExt(k).1 == ".o" && |HaskellSources(vs)| > 1
  {
  }

  lemma {:induction false} MappingFails(cs: seq<ObjectSource>)
    ensures MappingFold(cs).Failure? <==> exists i :: 0 <= i < |cs| && cs[i].Ambiguous?
    decreases |cs|
  {
    if cs != [] {
      var n := |cs| - 1;
      MappingFails(cs[..n]);
      if exists i :: 0 <= i < n && cs[..n][i].Ambiguous? {
        var i :| 0 <= i < n && cs[..n][i].Ambiguous?;
        assert cs[..n][i] == cs[i];
      }
      if exists i :: 0 <= i < |cs| && cs[i].Ambiguous? {
        var i :| 0 <= i < |cs| && cs[i].Ambiguous?;
        if i < n {
          assert cs[..n][i] == cs[i];
        }
      }
    }
  }

  /**
   * Every key contributes a graph entry (even one with no dependencies) and nothing else does;
   * each entry lists the intra-package dependencies of the keys naming that module, in report order.
   */
  lemma {:induction false} GraphEntries(items: seq<(string, seq<string>)>, t: Trie)
    ensures GraphFold(items, t).Keys == KeyModules(items)
    ensures forall m :: m in GraphFold(items, t) ==> GraphFold(items, t)[m] == GraphFor(items, m, t)
    decreases |items|
  {
    if items != [] {
      var n := |items| - 1;
      GraphEntries(items[..n], t);
      var m := SrcToModuleName(items[n].0);
      if m !in GraphFold(items[..n], t) {
        GraphForAbsent(items[..n], m, t);
      }
    }
  }

  lemma {:induction false} GraphForAbsent(items: seq<(string, seq<string>)>, m: string, t: Trie)
    requires m !in KeyModules(items)
    ensures GraphFor(items, m, t) == []
    decreases |items|
  {
    if items != [] {
      GraphForAbsent(items[..|items| - 1], m, t);
    }
  }

  /** Only modules of the graph have cross-package entries, and each has at least one package. */
  lemma {:induction false} ExtGraphWithinGraph(items: seq<(string, seq<string>)>, t: Trie)
    ensures ExtFold(items, t).Keys <= KeyModules(items)
    ensures forall m :: m in ExtFold(items, t) ==> ExtFold(items, t)[m] != map[]
    decreases |items|
  {
    if items != [] {
      var n := |items| - 1;
      ExtGraphWithinGraph(items[..n], t);
    }
  }

  /**
   * On success every mapping entry comes from an object-file key with exactly one Haskell source:
   * it maps that source's apparent module name to the key's module name, and the two differ.
   */
  lemma InterpretMapping(items: seq<(string, seq<string>)>, sourcePrefix: string, t: Trie, a: string)
    requires Interpret(items, sourcePrefix, t).Success?
    requires a in Interpret(items, sourcePrefix, t).value.mapping
    ensures var entries := Normalize(items);
      var b := Interpret(items, sourcePrefix, t).value.mapping[a];
      a != b && exists i :: 0 <= i < |entries| && ObjectMapping(entries[i].0, entries[i].1, sourcePrefix) == Maps(a, b)
  {
    var entries := Normalize(items);
    var cs := ObjectMappings(entries, sourcePrefix);
    MappingSources(cs, a);
    var i :| 0 <= i < |cs| && cs[i] == Maps(a, MappingFold(cs).value[a]);
    ObjectMappingsAt(entries, sourcePrefix, i);
  }

  lemma {:induction false} MappingSources(cs: seq<ObjectSource>, a: string)
    requires MappingFold(cs).Success? && a in MappingFold(cs).value
    ensures var b := MappingFold(cs).value[a];
      a != b && exists i :: 0 <= i < |cs| && cs[i] == Maps(a, b)
    decreases |cs|
  {
    var n := |cs| - 1;
    var acc := MappingFold(cs[..n]).value;
    var b := MappingFold(cs).value[a];
    if cs[n] == Maps(a, b) && a != b {
    } else {
      assert a in acc && acc[a] == b;
      MappingSources(cs[..n], a);
      var i :| 0 <= i < n && cs[..n][i] == Maps(a, b);
      assert cs[..n][i] == cs[i];
    }
  }

  /**
   * The module names `determine_th_modules` reports: the apparent module name of each source
   * file, in argument order, whose lines carry a Template Haskell pragma. The prelude's own
   * `uses_th` tests the same pattern as the stand-alone detector.
   */
  function ThModuleNames(sources: seq<(string, seq<string>)>, sourcePrefix: string): seq<string> {
    MapEach(Th.Selected(sources), (s: string) => ApparentModuleName(sourcePrefix, s))
  }

  /** A name is reported exactly when some Template Haskell source has it as its apparent module name. */
  lemma ThModuleNamesMembers(sources: seq<(string, seq<string>)>, sourcePrefix: string, m: string)
    ensures m in ThModuleNames(sources, sourcePrefix)
        <==> exists i :: 0 <= i < |sources| && Th.UsesTh(sources[i].1) && ApparentModuleName(sourcePrefix, sources[i].0) == m
  {
    var f := (s: string) => ApparentModuleName(sourcePrefix, s);
    var sel := Th.Selected(sources);
    var r := ThModuleNames(sources, sourcePrefix);
    if m in r {
      var j :| 0 <= j < |r| && r[j] == m;
      MapEachAt(sel, f, j);
      Th.SelectedMembers(sources, sel[j]);
      var i :| 0 <= i < |sources| && sources[i].0 == sel[j] && Th.UsesTh(sources[i].1);
    }
    if i :| 0 <= i < |sources| && Th.UsesTh(sources[i].1) && ApparentModuleName(sourcePrefix, sources[i].0) == m {
      Th.SelectedMembers(sources, sources[i].0);
      var j :| 0 <= j < |sel| && sel[j] == sources[i].0;
      MapEachAt(sel, f, j);
      assert r[j] == m;
    }
  }

  /** `determine_th_modules(sources, source_prefix)`, with each source given by its path and its lines. */
  method DetermineThModules(sources: seq<(string, seq<string>)>, sourcePrefix: string) returns (result: seq<string>)
    ensures result == ThModuleNames(sources, sourcePrefix)
  {
    ghost var f := (s: string) => ApparentModuleName(sourcePrefix, s);
    result := [];
    var i := 0;
    while i < |sources|
      invariant 0 <= i <= |sources|
      invariant result == MapEach(Th.Selected(sources[..i]), f)
    {
      var (fname, lines) := sources[i];
      Th.SelectByStep(sources, Th.UsesTh, i);
      if Th.UsesTh(lines) {
        var moduleName := SrcToModuleName(LStripChar(StripPrefixOr(sourcePrefix, fname), '/'));
        MapEachSnoc(Th.Selected(sources[..i]), fname, f);
        result := result + [moduleName];
      } else {
        assert Th.Selected(sources[..i]) + [] == Th.Selected(sources[..i]);
      }
      i := i + 1;
    }
    FullPrefix(sources);
  }

  /** A value `json.dump` cannot encode by itself: a set of strings, listed in Python's iteration order, or another object. */
  datatype Unencodable = StringSet(elems: seq<string>) | OtherObject(typeName: string)

  /** The `TypeError` that ends the dump. */
  datatype EncodeError = TypeError(message: string)

  /** `json_default_handler(o)`: a set is written as its sorted list; anything else is an error. */
  function JsonDefaultHandler(o: Unencodable): (r: Result<seq<string>, EncodeError>)
    ensures r.Success? <==> o.StringSet?
    ensures r.Success? ==> IsSorted(r.value) && multiset(r.value) == multiset(o.elems)
    ensures r.Failure? ==> r.error == TypeError("Object of type " + o.typeName + " is not JSON serializable")
  {
    match o
    case StringSet(elems) => Success(SortStrings(elems))
    case OtherObject(typeName) => Failure(TypeError("Object of type " + typeName + " is not JSON serializable"))
  }

  /** The list written for a set does not depend on the order in which Python happens to iterate it. */
  lemma JsonDefaultOrderFree(a: seq<string>, b: seq<string>)
    requires multiset(a) == multiset(b)
    ensures JsonDefaultHandler(StringSet(a)) == JsonDefaultHandler(StringSet(b))
  {
    SortedUnique(SortStrings(a), SortStrings(b));
  }
}
