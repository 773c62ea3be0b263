/**
 * How the older Haskell resolver puts its result together (`obtain_target_metadata`): the
 * dependency metadata files are read into a dictionary keyed by package name
 * (`load_dependencies_metadata`), the trie of their output prefixes is built, the `ghc -M` report
 * is interpreted and the transitive table is computed.
 *
 * Reading files, running the compiler and writing JSON are not part of this model: the source
 * files come with their lines, the report and the metadata files come parsed, and the
 * topological sorter is the parameter `sort`.
 */
module PreludeResult {
  import opened Wrappers
  import opened PyStr
  import opened PyPath
  import opened PackageTrie
  import P = PreludeTargetMetadata
  import T = TransitiveDeps

  /** The fields of a dependency's metadata file that the resolver reads. */
  datatype DependencyMetadata = DependencyMetadata(pkgname: string, outputPrefix: string, transitiveDeps: T.Closures)

  /** A Python dictionary as its items in iteration order. */
  type Items<V> = seq<(string, V)>

  predicate DistinctKeys<V>(d: Items<V>) {
    forall i, j :: 0 <= i < j < |d| ==> d[i].0 != d[j].0
  }

  /** The value stored under `k`. */
  function Lookup<V>(d: Items<V>, k: string): (r: Option<V>)
    ensures r.Some? <==> exists i :: 0 <= i < |d| && d[i].0 == k
    decreases |d|
  {
    if d == [] then None
    else if d[0].0 == k then Some(d[0].1)
    else
      var r := Lookup(d[1..], k);
      assert forall i :: 0 < i < |d| ==> d[i] == d[1..][i - 1];
      assert r.Some? ==> exists i :: 0 <= i < |d[1..]| && d[1..][i].0 == k;
      r
  }

  /** `d[k] = v`: a key already present keeps its place and takes the new value; a new key goes last. */
  function Assign<V>(d: Items<V>, k: string, v: V): (r: Items<V>)
    ensures |r| == |d| || |r| == |d| + 1
    decreases |d|
  {
    if d == [] then [(k, v)]
    else if d[0].0 == k then [(k, v)] + d[1..]
    else [d[0]] + Assign(d[1..], k, v)
  }

  lemma {:induction false} AssignLookup<V>(d: Items<V>, k: string, v: V, q: string)
    ensures Lookup(Assign(d, k, v), q) == if q == k then Some(v) else Lookup(d, q)
    decreases |d|
  {
    if d != [] && d[0].0 != k {
      AssignLookup(d[1..], k, v, q);
      assert Assign(d, k, v)[1..] == Assign(d[1..], k, v);
    }
  }

  /** Assigning a key already present changes no key and no position, only that value. */
  lemma {:induction false} AssignPresent<V>(d: Items<V>, k: string, v: V, i: nat)
    requires DistinctKeys(d) && i < |d| && d[i].0 == k
    ensures |Assign(d, k, v)| == |d|
    ensures Assign(d, k, v)[i] == (k, v)
    ensures forall j :: 0 <= j < |d| && j != i ==> Assign(d, k, v)[j] == d[j]
    decreases |d|
  {
    if d[0].0 != k {
      assert i > 0;
      AssignPresent(d[1..], k, v, i - 1);
    }
  }

  /** Assigning a new key appends it. */
  lemma {:induction false} AssignAbsent<V>(d: Items<V>, k: string, v: V)
    requires forall i :: 0 <= i < |d| ==> d[i].0 != k
    ensures Assign(d, k, v) == d + [(k, v)]
    decreases |d|
  {
    if d != [] {
      AssignAbsent(d[1..], k, v);
      assert [d[0]] + (d[1..] + [(k, v)]) == d + [(k, v)];
    }
  }

  lemma AssignDistinct<V>(d: Items<V>, k: string, v: V)
    requires DistinctKeys(d)
    ensures DistinctKeys(Assign(d, k, v))
  {
    if i :| 0 <= i < |d| && d[i].0 == k {
      AssignPresent(d, k, v, i);
    } else {
      AssignAbsent(d, k, v);
    }
  }

  /** The dictionary `load_dependencies_metadata` builds from the metadata files in order. */
  function Loaded(mds: seq<DependencyMetadata>): Items<DependencyMetadata>
    decreases |mds|
  {
    if mds == [] then []
    else
      var last := mds[|mds| - 1];
      Assign(Loaded(mds[..|mds| - 1]), last.pkgname, last)
  }

  lemma {:induction false} LoadedDistinct(mds: seq<DependencyMetadata>)
    ensures DistinctKeys(Loaded(mds))
    decreases |mds|
  {
    if mds != [] {
      var last := mds[|mds| - 1];
      LoadedDistinct(mds[..|mds| - 1]);
      AssignDistinct(Loaded(mds[..|mds| - 1]), last.pkgname, last);
    }
  }

  /** The index of the last metadata file naming package `p`. */
  function LastNamed(mds: seq<DependencyMetadata>, p: string): (r: Option<nat>)
    ensures r.Some? ==> r.value < |mds| && mds[r.value].pkgname == p
                        && forall j :: r.value < j < |mds| ==> mds[j].pkgname != p
    ensures r.None? ==> forall j :: 0 <= j < |mds| ==> mds[j].pkgname != p
    decreases |mds|
  {
    if mds == [] then None
    else if mds[|mds| - 1].pkgname == p then Some(|mds| - 1)
    else LastNamed(mds[..|mds| - 1], p)
  }

  /**
   * A package name is stored exactly when some metadata file names it, and then with the
   * metadata of the last file that does.
   */
  lemma {:induction false} LoadedLast(mds: seq<DependencyMetadata>, p: string)
    ensures Lookup(Loaded(mds), p) == match LastNamed(mds, p)
                                      case None => None
                                      case Some(i) => Some(mds[i])
    decreases |mds|
  {
    if mds != [] {
      var front := mds[..|mds| - 1];
      var last := mds[|mds| - 1];
      AssignLookup(Loaded(front), last.pkgname, last, p);
      if last.pkgname != p {
        LoadedLast(front, p);
        if LastNamed(front, p).Some? {
          assert mds[LastNamed(front, p).value] == front[LastNamed(front, p).value];
        }
      }
    }
  }

  /** The first time a package name appears fixes its place in the dictionary. */
  lemma LoadedKeepsFirstPlace(mds: seq<DependencyMetadata>, md: DependencyMetadata)
    requires exists i :: 0 <= i < |mds| && mds[i].pkgname == md.pkgname
    ensures |Loaded(mds + [md])| == |Loaded(mds)|
    ensures forall j :: 0 <= j < |Loaded(mds)| ==>
              Loaded(mds + [md])[j].0 == Loaded(mds)[j].0
  {
    var d := Loaded(mds);
    assert (mds + [md])[..|mds|] == mds;
    LoadedDistinct(mds);
    LoadedLast(mds, md.pkgname);
    var i :| 0 <= i < |d| && d[i].0 == md.pkgname;
    AssignPresent(d, md.pkgname, md, i);
  }

  /** `load_dependencies_metadata`: `result[md["pkgname"]] = md` for each file in order. */
  method LoadDependenciesMetadata(mds: seq<DependencyMetadata>) returns (result: Items<DependencyMetadata>)
    ensures result == Loaded(mds)
  {
    result := [];
    var i := 0;
    while i < |mds|
      invariant 0 <= i <= |mds|
      invariant result == Loaded(mds[..i])
    {
      assert mds[..i + 1][..i] == mds[..i];
      result := Assign(result, mds[i].pkgname, mds[i]);
      i := i + 1;
    }
    assert mds[..i] == mds;
  }

  /** The `(pkgname, output_prefix)` pairs `calc_package_prefixes` registers, in dictionary order. */
  function Prefixes(d: Items<DependencyMetadata>): (r: seq<(string, string)>)
    ensures |r| == |d|
    ensures forall i :: 0 <= i < |d| ==> r[i] == (d[i].0, d[i].1.outputPrefix)
  {
    seq(|d|, i requires 0 <= i < |d| => (d[i].0, d[i].1.outputPrefix))
  }

  function KeysOf<V>(d: Items<V>): set<string> {
    set i | 0 <= i < |d| :: d[i].0
  }

  /** `deps_md[pkg]["transitive_deps"]` for every loaded package. */
  function UpstreamOf(d: Items<DependencyMetadata>): (r: T.Upstream)
    ensures r.Keys == KeysOf(d)
    ensures forall p :: p in r ==> Lookup(d, p).Some? && r[p] == Lookup(d, p).value.transitiveDeps
  {
    map p | p in KeysOf(d) :: LookupAt(d, p).transitiveDeps
  }

  /**
   * The transitive table a package contributes is the one recorded by the last metadata file
   * naming it, and packages no file names contribute nothing.
   */
  lemma UpstreamLast(mds: seq<DependencyMetadata>, p: string)
    ensures p in UpstreamOf(Loaded(mds)) <==> LastNamed(mds, p).Some?
    ensures LastNamed(mds, p).Some? ==>
              UpstreamOf(Loaded(mds))[p] == mds[LastNamed(mds, p).value].transitiveDeps
  {
    var d := Loaded(mds);
    LoadedLast(mds, p);
    if Lookup(d, p).Some? {
      var i :| 0 <= i < |d| && d[i].0 == p;
      assert p in KeysOf(d);
    }
  }

  function LookupAt<V>(d: Items<V>, p: string): (v: V)
    requires p in KeysOf(d)
    ensures Lookup(d, p) == Some(v)
  {
    assert exists i :: 0 <= i < |d| && d[i].0 == p;
    Lookup(d, p).value
  }

  /** The result object of the older resolver. */
  datatype Metadata = Metadata(
    pkgname: string,
    outputPrefix: string,
    thModules: seq<string>,
    moduleMapping: map<string, string>,
    moduleGraph: map<string, seq<string>>,
    transitiveDeps: T.Table)

  datatype Error =
    | Interpretation(failed: P.InterpretError)    // the one-source assertion of `interpret_ghc_depends`
    | Closure(reason: T.ClosureError)             // a `KeyError` or the sorter's `CycleError`

  /** `sort` stands for `graphlib.TopologicalSorter(graph).static_order()`. */
  ghost predicate IsSorter(sort: map<string, seq<string>> -> Option<seq<string>>) {
    && (forall g :: sort(g).Some? ==> T.IsTopoOrder(g, sort(g).value))
    && (forall g :: sort(g).None? ==> !T.Sortable(g))
  }

  /**
   * `obtain_target_metadata`. `sources` pairs each `--source` file with its lines, `ghcDepends`
   * is the report of `ghc -M` and `dependencyMetadata` the `--dependency-metadata` files in order.
   */
  method ObtainTargetMetadata(pkgname: string, outputName: string, sources: seq<(string, seq<string>)>,
                              sourcePrefix: string, ghcDepends: seq<(string, seq<string>)>,
                              dependencyMetadata: seq<DependencyMetadata>,
                              sort: map<string, seq<string>> -> Option<seq<string>>)
    returns (r: Result<Metadata, Error>)
    requires IsSorter(sort)
    ensures var deps := Loaded(dependencyMetadata);
            var interp := P.Interpret(ghcDepends, sourcePrefix, Build(PrefixEntries(Prefixes(deps))));
            && (r.Success? <==>
                  (&& interp.Success?
                   && T.Phase1Ok(interp.value.graph, interp.value.extgraph, UpstreamOf(deps))
                   && sort(interp.value.graph).Some? && T.Closed(interp.value.graph)))
            && (interp.Failure? ==> r == Failure(Interpretation(interp.error)))
            && (r.Success? ==>
                  && r.value.pkgname == pkgname
                  && r.value.outputPrefix == Dirname(outputName)
                  && r.value.thModules == P.ThModuleNames(sources, sourcePrefix)
                  && r.value.moduleMapping == interp.value.mapping
                  && r.value.moduleGraph == interp.value.graph
                  && T.IsClosure(pkgname, interp.value.graph,
                                 T.Phase1Table(interp.value.graph, interp.value.extgraph, UpstreamOf(deps)),
                                 r.value.transitiveDeps))
            && (r.Failure? && r.error.Closure? && r.error.reason.Cycle? ==> !T.Sortable(interp.value.graph))
  {
    var outputPrefix := Dirname(outputName);
    var thModules := P.DetermineThModules(sources, sourcePrefix);
    var depsMd := LoadDependenciesMetadata(dependencyMetadata);
    var packagePrefixes := CalcPackagePrefixes(Prefixes(depsMd));
    var interp := P.InterpretGhcDepends(ghcDepends, sourcePrefix, packagePrefixes);
    if interp.Failure? {
      return Failure(Interpretation(interp.error));
    }
    var graph := interp.value.graph;
    var transitive := T.CalcTransitiveDeps(pkgname, graph, interp.value.extgraph, UpstreamOf(depsMd), sort(graph));
    if transitive.Failure? {
      return Failure(Closure(transitive.error));
    }
    return Success(Metadata(pkgname, outputPrefix, thModules, interp.value.mapping, graph, transitive.value));
  }
}
