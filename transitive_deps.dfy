/**
 * `calc_transitive_deps` of the older Haskell resolver: the table that maps every module of the
 * package to the modules of other packages (and, for intra-package dependencies, of its own
 * package) that it needs anywhere below it.
 *
 * The first phase gives each module its direct cross-package dependencies together with the
 * upstream closure each of them already records in its package's metadata. The second phase
 * walks a topological order of the module graph and folds every dependency's row into its
 * dependents. The order comes from `graphlib.TopologicalSorter`, which is not part of this model:
 * it is passed in as `order`, promised to be a topological order of the graph when there is one,
 * and `None` exactly when the graph has no topological order (a cycle).
 */
module TransitiveDeps {
  import opened Wrappers
  import opened PyStr

  /** A row of the table: package name to the set of its modules. */
  type Entry = map<string, set<string>>
  type Table = map<string, Entry>

  /** A dependency package's `transitive_deps`: its modules to their package-to-modules lists. */
  type Closures = map<string, map<string, seq<string>>>

  /** Every dependency package's recorded `transitive_deps`, by package name. */
  type Upstream = map<string, Closures>

  datatype ClosureError =
    | UnknownModule(modname: string)                  // a `KeyError` on the result table or the graph
    | MissingUpstream(pkg: string, modname: string)   // a `KeyError` reading a dependency's metadata
    | Cycle                                           // the sorter's `CycleError`

  /** The modules a row lists under package `p`, none when it has no such key. */
  function GetSet(e: Entry, p: string): set<string> {
    if p in e then e[p] else {}
  }

  function GetEntry(t: Table, m: string): Entry {
    if m in t then t[m] else map[]
  }

  /** Rows with the same packages and the same modules under each are equal. */
  lemma EntryEq(a: Entry, b: Entry)
    requires forall p :: p in a <==> p in b
    requires forall p :: GetSet(a, p) == GetSet(b, p)
    ensures a == b
  {
    assert a.Keys == b.Keys;
    forall p | p in a ensures a[p] == b[p] {
      assert GetSet(a, p) == GetSet(b, p);
    }
  }

  /** Package-wise union: `setdefault(pkg, set()).update(mods)` for every package of `b`. */
  function Merge(a: Entry, b: Entry): Entry {
    map p | p in a.Keys + b.Keys :: GetSet(a, p) + GetSet(b, p)
  }

  lemma MergeAt(a: Entry, b: Entry, p: string)
    ensures p in Merge(a, b) <==> p in a || p in b
    ensures GetSet(Merge(a, b), p) == GetSet(a, p) + GetSet(b, p)
  {
  }

  /** `a` is contained in `b`, package by package. */
  predicate Sub(a: Entry, b: Entry) {
    forall p :: p in a ==> p in b && GetSet(a, p) <= GetSet(b, p)
  }

  lemma MergeSub(a: Entry, b: Entry)
    ensures Sub(a, Merge(a, b)) && Sub(b, Merge(a, b))
  {
    forall p ensures p in Merge(a, b) <==> p in a || p in b
      ensures GetSet(Merge(a, b), p) == GetSet(a, p) + GetSet(b, p)
    {
      MergeAt(a, b, p);
    }
  }

  lemma SubTransitive(a: Entry, b: Entry, c: Entry)
    requires Sub(a, b) && Sub(b, c)
    ensures Sub(a, c)
  {
  }

  lemma MergeAssocAt(a: Entry, b: Entry, c: Entry, p: string)
    ensures p in Merge(Merge(a, b), c) <==> p in Merge(a, Merge(b, c))
    ensures GetSet(Merge(Merge(a, b), c), p) == GetSet(Merge(a, Merge(b, c)), p)
  {
    MergeAt(a, b, p);
    MergeAt(b, c, p);
    MergeAt(Merge(a, b), c, p);
    MergeAt(a, Merge(b, c), p);
  }

  lemma MergeAssoc(a: Entry, b: Entry, c: Entry)
    ensures Merge(Merge(a, b), c) == Merge(a, Merge(b, c))
  {
    forall p ensures p in Merge(Merge(a, b), c) <==> p in Merge(a, Merge(b, c))
      ensures GetSet(Merge(Merge(a, b), c), p) == GetSet(Merge(a, Merge(b, c)), p)
    {
      MergeAssocAt(a, b, c, p);
    }
    EntryEq(Merge(Merge(a, b), c), Merge(a, Merge(b, c)));
  }

  lemma MergeSwapAt(a: Entry, b: Entry, c: Entry, p: string)
    ensures p in Merge(Merge(a, b), c) <==> p in Merge(Merge(a, c), b)
    ensures GetSet(Merge(Merge(a, b), c), p) == GetSet(Merge(Merge(a, c), b), p)
  {
    MergeAt(a, b, p);
    MergeAt(a, c, p);
    MergeAt(Merge(a, b), c, p);
    MergeAt(Merge(a, c), b, p);
  }

  lemma MergeSwap(a: Entry, b: Entry, c: Entry)
    ensures Merge(Merge(a, b), c) == Merge(Merge(a, c), b)
  {
    forall p ensures p in Merge(Merge(a, b), c) <==> p in Merge(Merge(a, c), b)
      ensures GetSet(Merge(Merge(a, b), c), p) == GetSet(Merge(Merge(a, c), b), p)
    {
      MergeSwapAt(a, b, c, p);
    }
    EntryEq(Merge(Merge(a, b), c), Merge(Merge(a, c), b));
  }

  /** `e.setdefault(p, set()).update(s)` merges the one-package row `{p: s}`. */
  lemma SetDefaultUpdate(e: Entry, p: string, s: set<string>)
    ensures e[p := GetSet(e, p) + s] == Merge(e, map[p := s])
  {
    forall q ensures q in e[p := GetSet(e, p) + s] <==> q in Merge(e, map[p := s])
      ensures GetSet(e[p := GetSet(e, p) + s], q) == GetSet(Merge(e, map[p := s]), q)
    {
      MergeAt(e, map[p := s], q);
    }
    EntryEq(e[p := GetSet(e, p) + s], Merge(e, map[p := s]));
  }

  /** Merge `other` into `e` one package at a time (the innermost loops of both phases). */
  method MergeInto(e: Entry, other: Entry) returns (r: Entry)
    ensures r == Merge(e, other)
  {
    r := e;
    var remaining := other.Keys;
    while remaining != {}
      invariant remaining <= other.Keys
      invariant forall p :: p in r <==> p in e || (p in other && p !in remaining)
      invariant forall p :: GetSet(r, p) == GetSet(e, p) + (if p in other && p !in remaining then other[p] else {})
      decreases remaining
    {
      var p :| p in remaining;
      r := r[p := GetSet(r, p) + other[p]];
      remaining := remaining - {p};
    }
    IsMerge(e, other, r);
  }

  /** A row holding the packages and modules of `a` and `b`, and nothing else, is their merge. */
  lemma IsMerge(a: Entry, b: Entry, r: Entry)
    requires forall p :: p in r <==> p in a || p in b
    requires forall p :: GetSet(r, p) == GetSet(a, p) + GetSet(b, p)
    ensures r == Merge(a, b)
  {
    forall p ensures p in Merge(a, b) <==> p in a || p in b
      ensures GetSet(Merge(a, b), p) == GetSet(a, p) + GetSet(b, p)
    {
      MergeAt(a, b, p);
    }
    EntryEq(r, Merge(a, b));
  }

  /** `{pkg: set(mods) for pkg, mods in td.items()}` */
  function ToSets(td: map<string, seq<string>>): (r: Entry)
    ensures forall p :: p in r <==> p in td
    ensures forall p, x :: x in GetSet(r, p) <==> p in td && x in td[p]
  {
    map p | p in td :: set x | x in td[p]
  }

  // ---------------------------------------------------------------------------------------------
  // Phase 1: direct cross-package dependencies and their upstream closures.

  /** The metadata of package `c.0` records a closure for its module `c.1`. */
  predicate Available(up: Upstream, c: (string, string)) {
    c.0 in up && c.1 in up[c.0]
  }

  /** The `(package, module)` pairs listed for packages in `ps`. */
  function PairsIn(dp: map<string, seq<string>>, ps: set<string>): set<(string, string)> {
    set p, x | p in ps && p in dp && x in dp[p] :: (p, x)
  }

  function Pairs(dp: map<string, seq<string>>): set<(string, string)> {
    PairsIn(dp, dp.Keys)
  }

  /** Every listed dependency module has a recorded closure. */
  predicate UpstreamComplete(dp: map<string, seq<string>>, up: Upstream) {
    forall p, x :: p in dp && x in dp[p] ==> Available(up, (p, x))
  }

  /** The listed modules of the packages in `ps`. */
  function Listed(dp: map<string, seq<string>>, ps: set<string>): Entry {
    map p | p in ps && p in dp :: set x | x in dp[p]
  }

  lemma ListedAt(dp: map<string, seq<string>>, ps: set<string>, p: string)
    ensures p in Listed(dp, ps) <==> p in ps && p in dp
    ensures forall x :: x in GetSet(Listed(dp, ps), p) <==> p in ps && p in dp && x in dp[p]
  {
  }

  /** The union of the closures recorded for the pairs in `cs` (those that have one). */
  function Inherited(up: Upstream, cs: set<(string, string)>): Entry {
    var keys := set c, q | c in cs && Available(up, c) && q in up[c.0][c.1] :: q;
    map q | q in keys :: set c, y | c in cs && Available(up, c) && q in up[c.0][c.1] && y in up[c.0][c.1][q] :: y
  }

  /** Package `q` occurs in the recorded closure of pair `c`. */
  predicate Records(up: Upstream, c: (string, string), q: string) {
    Available(up, c) && q in up[c.0][c.1]
  }

  lemma InheritedAt(up: Upstream, cs: set<(string, string)>, q: string)
    ensures q in Inherited(up, cs) <==> exists c :: c in cs && Records(up, c, q)
  {
    if exists c :: c in cs && Records(up, c, q) {
      var c :| c in cs && Records(up, c, q);
      assert q in Inherited(up, cs);
    }
  }

  lemma InheritedModuleAt(up: Upstream, cs: set<(string, string)>, q: string, y: string)
    ensures y in GetSet(Inherited(up, cs), q) <==> exists c :: c in cs && Records(up, c, q) && y in up[c.0][c.1][q]
  {
    InheritedAt(up, cs, q);
  }

  /** The first-phase row of a module whose cross-package dependencies are `dp`. */
  function Direct(dp: map<string, seq<string>>, up: Upstream): Entry {
    Merge(Listed(dp, dp.Keys), Inherited(up, Pairs(dp)))
  }

  /**
   * What the first-phase row holds: every listed package with its listed modules, and every
   * package and module of a listed module's recorded closure; and nothing else.
   */
  lemma DirectContents(dp: map<string, seq<string>>, up: Upstream, q: string, y: string)
    ensures q in Direct(dp, up) <==> q in dp || exists p, x :: p in dp && x in dp[p] && Records(up, (p, x), q)
    ensures y in GetSet(Direct(dp, up), q) <==>
              (q in dp && y in dp[q])
              || exists p, x :: p in dp && x in dp[p] && Records(up, (p, x), q) && y in up[p][x][q]
  {
    MergeAt(Listed(dp, dp.Keys), Inherited(up, Pairs(dp)), q);
    ListedAt(dp, dp.Keys, q);
    InheritedAt(up, Pairs(dp), q);
    InheritedModuleAt(up, Pairs(dp), q, y);
    if exists p, x :: p in dp && x in dp[p] && Records(up, (p, x), q) {
      var p, x :| p in dp && x in dp[p] && Records(up, (p, x), q);
      assert (p, x) in Pairs(dp);
    }
    if exists p, x :: p in dp && x in dp[p] && Records(up, (p, x), q) && y in up[p][x][q] {
      var p, x :| p in dp && x in dp[p] && Records(up, (p, x), q) && y in up[p][x][q];
      assert (p, x) in Pairs(dp);
    }
  }

  lemma ListedAdd(dp: map<string, seq<string>>, ps: set<string>, p: string)
    requires p in dp
    ensures Listed(dp, ps + {p}) == Merge(Listed(dp, ps), map[p := set x | x in dp[p]])
  {
    var l, r := Listed(dp, ps + {p}), Merge(Listed(dp, ps), map[p := set x | x in dp[p]]);
    forall q ensures q in l <==> q in r ensures GetSet(l, q) == GetSet(r, q) {
      MergeAt(Listed(dp, ps), map[p := set x | x in dp[p]], q);
      ListedAt(dp, ps, q);
      ListedAt(dp, ps + {p}, q);
    }
    EntryEq(l, r);
  }

  lemma InheritedAddKey(up: Upstream, cs: set<(string, string)>, c: (string, string), q: string)
    requires Available(up, c)
    ensures q in Inherited(up, cs + {c}) <==> q in Inherited(up, cs) || q in up[c.0][c.1]
  {
    InheritedAt(up, cs, q);
    InheritedAt(up, cs + {c}, q);
    if q in up[c.0][c.1] {
      assert Records(up, c, q);
    }
  }

  lemma InheritedAddModule(up: Upstream, cs: set<(string, string)>, c: (string, string), q: string, y: string)
    requires Available(up, c)
    ensures y in GetSet(Inherited(up, cs + {c}), q) <==>
              y in GetSet(Inherited(up, cs), q) || (q in up[c.0][c.1] && y in up[c.0][c.1][q])
  {
    InheritedModuleAt(up, cs, q, y);
    InheritedModuleAt(up, cs + {c}, q, y);
    if q in up[c.0][c.1] && y in up[c.0][c.1][q] {
      assert Records(up, c, q);
    }
  }

  lemma InheritedAddAt(up: Upstream, cs: set<(string, string)>, c: (string, string), q: string)
    requires Available(up, c)
    ensures q in Inherited(up, cs + {c}) <==> q in Merge(Inherited(up, cs), ToSets(up[c.0][c.1]))
    ensures GetSet(Inherited(up, cs + {c}), q) == GetSet(Merge(Inherited(up, cs), ToSets(up[c.0][c.1])), q)
  {
    MergeAt(Inherited(up, cs), ToSets(up[c.0][c.1]), q);
    InheritedAddKey(up, cs, c, q);
    forall y ensures y in GetSet(Inherited(up, cs + {c}), q) <==> y in GetSet(Merge(Inherited(up, cs), ToSets(up[c.0][c.1])), q) {
      InheritedAddModule(up, cs, c, q, y);
    }
  }

  lemma InheritedAdd(up: Upstream, cs: set<(string, string)>, c: (string, string))
    requires Available(up, c)
    ensures Inherited(up, cs + {c}) == Merge(Inherited(up, cs), ToSets(up[c.0][c.1]))
  {
    var l, r := Inherited(up, cs + {c}), Merge(Inherited(up, cs), ToSets(up[c.0][c.1]));
    forall q ensures q in l <==> q in r ensures GetSet(l, q) == GetSet(r, q) {
      InheritedAddAt(up, cs, c, q);
    }
    EntryEq(l, r);
  }

  lemma PairsInAdd(dp: map<string, seq<string>>, ps: set<string>, p: string)
    requires p in dp
    ensures PairsIn(dp, ps + {p}) == PairsIn(dp, ps) + Prefix(p, dp[p], |dp[p]|)
  {
    var lhs, rhs := PairsIn(dp, ps + {p}), PairsIn(dp, ps) + Prefix(p, dp[p], |dp[p]|);
    forall c | c in lhs ensures c in rhs {
      if c.0 == p && c.0 !in ps {
        var k :| 0 <= k < |dp[p]| && dp[p][k] == c.1;
        assert c == (p, dp[p][k]);
      }
    }
  }

  /** The pairs of the first `j` modules listed for `p`. */
  function Prefix(p: string, mods: seq<string>, j: nat): set<(string, string)>
    requires j <= |mods|
  {
    set k | 0 <= k < j :: (p, mods[k])
  }

  lemma PrefixNext(p: string, mods: seq<string>, j: nat)
    requires j < |mods|
    ensures Prefix(p, mods, j + 1) == Prefix(p, mods, j) + {(p, mods[j])}
  {
  }

  /** The row built so far: the listed modules of the packages `ps` and the closures of the pairs `cs`. */
  function Partial(dp: map<string, seq<string>>, up: Upstream, ps: set<string>, cs: set<(string, string)>): Entry {
    Merge(Listed(dp, ps), Inherited(up, cs))
  }

  lemma PartialStart(dp: map<string, seq<string>>, up: Upstream)
    ensures map[] == Partial(dp, up, {}, PairsIn(dp, {}))
  {
    var none: Entry := map[];
    assert PairsIn(dp, {}) == {};
    forall p ensures p in none <==> p in Partial(dp, up, {}, {})
      ensures GetSet(none, p) == GetSet(Partial(dp, up, {}, {}), p)
    {
      MergeAt(Listed(dp, {}), Inherited(up, {}), p);
      InheritedAt(up, {}, p);
    }
    EntryEq(none, Partial(dp, up, {}, {}));
  }

  /** `setdefault(dep_pkg, set()).update(dep_pkg_mods)` adds the package's listed modules. */
  lemma PartialOwn(dp: map<string, seq<string>>, up: Upstream, ps: set<string>, cs: set<(string, string)>, p: string, e: Entry)
    requires p in dp && e == Partial(dp, up, ps, cs)
    ensures e[p := GetSet(e, p) + set x | x in dp[p]] == Partial(dp, up, ps + {p}, cs)
  {
    SetDefaultUpdate(e, p, set x | x in dp[p]);
    MergeSwap(Listed(dp, ps), Inherited(up, cs), map[p := set x | x in dp[p]]);
    ListedAdd(dp, ps, p);
  }

  /** Merging a listed module's recorded closure adds its pair. */
  lemma PartialInherit(dp: map<string, seq<string>>, up: Upstream, ps: set<string>, cs: set<(string, string)>, c: (string, string), e: Entry)
    requires Available(up, c) && e == Partial(dp, up, ps, cs)
    ensures Merge(e, ToSets(up[c.0][c.1])) == Partial(dp, up, ps, cs + {c})
  {
    InheritedAdd(up, cs, c);
    MergeAssoc(Listed(dp, ps), Inherited(up, cs), ToSets(up[c.0][c.1]));
  }

  /** The first `j` modules listed for `p` all have recorded closures. */
  predicate AllAvailable(up: Upstream, p: string, mods: seq<string>, j: nat)
    requires j <= |mods|
  {
    j == 0 || (AllAvailable(up, p, mods, j - 1) && Available(up, (p, mods[j - 1])))
  }

  lemma {:induction false} AllAvailableMeans(up: Upstream, p: string, mods: seq<string>, j: nat)
    requires j <= |mods|
    ensures AllAvailable(up, p, mods, j) <==> forall k :: 0 <= k < j ==> Available(up, (p, mods[k]))
  {
    if j > 0 {
      AllAvailableMeans(up, p, mods, j - 1);
    }
  }

  /** `e` with the recorded closures of the first `j` modules listed for `p` merged in, in order. */
  function InheritFrom(e: Entry, up: Upstream, p: string, mods: seq<string>, j: nat): Entry
    requires j <= |mods| && AllAvailable(up, p, mods, j)
  {
    if j == 0 then e else Merge(InheritFrom(e, up, p, mods, j - 1), ToSets(up[p][mods[j - 1]]))
  }

  lemma {:induction false} InheritFromPartial(dp: map<string, seq<string>>, up: Upstream, ps: set<string>, cs: set<(string, string)>,
                                              p: string, e: Entry, j: nat)
    requires p in dp && j <= |dp[p]| && AllAvailable(up, p, dp[p], j)
    requires e == Partial(dp, up, ps, cs)
    ensures InheritFrom(e, up, p, dp[p], j) == Partial(dp, up, ps, cs + Prefix(p, dp[p], j))
  {
    if j == 0 {
      assert Prefix(p, dp[p], 0) == {};
      assert cs + {} == cs;
    } else {
      InheritFromPartial(dp, up, ps, cs, p, e, j - 1);
      PartialInherit(dp, up, ps, cs + Prefix(p, dp[p], j - 1), (p, dp[p][j - 1]), InheritFrom(e, up, p, dp[p], j - 1));
      PrefixNext(p, dp[p], j - 1);
      assert cs + Prefix(p, dp[p], j - 1) + {(p, dp[p][j - 1])} == cs + Prefix(p, dp[p], j);
    }
  }

  /**
   * The inner loop of the first phase for package `p`: merge the closure recorded for each of its
   * listed modules, stopping at the first one its metadata lacks.
   */
  method InheritPackage(up: Upstream, p: string, mods: seq<string>, e: Entry) returns (r: Result<Entry, ClosureError>)
    ensures r.Success? <==> AllAvailable(up, p, mods, |mods|)
    ensures r.Success? ==> AllAvailable(up, p, mods, |mods|) && r.value == InheritFrom(e, up, p, mods, |mods|)
    ensures r.Failure? ==> r.error.MissingUpstream? && r.error.pkg == p && r.error.modname in mods && !Available(up, (p, r.error.modname))
  {
    var acc := e;
    var j := 0;
    while j < |mods|
      invariant 0 <= j <= |mods| && AllAvailable(up, p, mods, j)
      invariant acc == InheritFrom(e, up, p, mods, j)
    {
      var depPkgMod := mods[j];
      if !(p in up && depPkgMod in up[p]) {
        AllAvailableMeans(up, p, mods, |mods|);
        return Failure(MissingUpstream(p, depPkgMod));
      }
      var transitiveDeps := up[p][depPkgMod];
      acc := MergeInto(acc, ToSets(transitiveDeps));
      j := j + 1;
    }
    return Success(acc);
  }

  /**
   * The first phase for one module: for each dependency package, its listed modules, then the
   * closure recorded for each of them in that package's metadata.
   */
  method DirectEntry(dp: map<string, seq<string>>, up: Upstream) returns (r: Result<Entry, ClosureError>)
    ensures r.Success? <==> UpstreamComplete(dp, up)
    ensures r.Success? ==> r.value == Direct(dp, up)
    ensures r.Failure? ==>
              r.error.MissingUpstream? && r.error.pkg in dp && r.error.modname in dp[r.error.pkg]
              && !Available(up, (r.error.pkg, r.error.modname))
  {
    var e: Entry := map[];
    var remaining := dp.Keys;
    ghost var done: set<string> := {};
    PartialStart(dp, up);
    while remaining != {}
      invariant remaining <= dp.Keys && done == dp.Keys - remaining
      invariant e == Partial(dp, up, done, PairsIn(dp, done))
      invariant forall p, x :: p in done && x in dp[p] ==> Available(up, (p, x))
      decreases remaining
    {
      var depPkg :| depPkg in remaining;
      var added := AddPackage(dp, up, done, depPkg, e);
      if added.Failure? {
        return Failure(added.error);
      }
      e := added.value;
      done := done + {depPkg};
      remaining := remaining - {depPkg};
    }
    assert done == dp.Keys;
    return Success(e);
  }

  /** One round of the outer loop of the first phase: package `p`'s listed modules, then their closures. */
  method AddPackage(dp: map<string, seq<string>>, up: Upstream, ghost done: set<string>, p: string, e: Entry)
    returns (r: Result<Entry, ClosureError>)
    requires p in dp && e == Partial(dp, up, done, PairsIn(dp, done))
    ensures r.Success? ==> r.value == Partial(dp, up, done + {p}, PairsIn(dp, done + {p}))
    ensures r.Success? ==> forall x :: x in dp[p] ==> Available(up, (p, x))
    ensures r.Failure? ==> r.error.MissingUpstream? && r.error.pkg == p && r.error.modname in dp[p] && !Available(up, (p, r.error.modname))
  {
    var listed := e[p := GetSet(e, p) + set x | x in dp[p]];
    r := InheritPackage(up, p, dp[p], listed);
    if r.Success? {
      PackageStep(dp, up, done, p, e, r.value);
    }
  }

  /** One round of the outer loop of the first phase adds package `p` and all its pairs. */
  lemma PackageStep(dp: map<string, seq<string>>, up: Upstream, done: set<string>, p: string, e: Entry, e': Entry)
    requires p in dp && e == Partial(dp, up, done, PairsIn(dp, done))
    requires AllAvailable(up, p, dp[p], |dp[p]|)
    requires e' == InheritFrom(e[p := GetSet(e, p) + set x | x in dp[p]], up, p, dp[p], |dp[p]|)
    ensures e' == Partial(dp, up, done + {p}, PairsIn(dp, done + {p}))
    ensures forall x :: x in dp[p] ==> Available(up, (p, x))
  {
    PartialOwn(dp, up, done, PairsIn(dp, done), p, e);
    InheritFromPartial(dp, up, done + {p}, PairsIn(dp, done), p, e[p := GetSet(e, p) + set x | x in dp[p]], |dp[p]|);
    PairsInAdd(dp, done, p);
    AllAvailableMeans(up, p, dp[p], |dp[p]|);
  }

  /** The first phase succeeds for module `m`: it is a graph module if it has dependency packages, and every listed module has a recorded closure. */
  predicate RowOk(graph: map<string, seq<string>>, pd: map<string, map<string, seq<string>>>, up: Upstream, m: string)
    requires m in pd
  {
    (pd[m] != map[] ==> m in graph) && UpstreamComplete(pd[m], up)
  }

  /** The first phase succeeds. */
  predicate Phase1Ok(graph: map<string, seq<string>>, pd: map<string, map<string, seq<string>>>, up: Upstream) {
    forall m :: m in pd ==> RowOk(graph, pd, up, m)
  }

  /** The first-phase row of module `m`. */
  function Phase1Row(pd: map<string, map<string, seq<string>>>, up: Upstream, m: string): Entry {
    if m in pd then Direct(pd[m], up) else map[]
  }

  /** The table after the first phase: one row per graph module. */
  function Phase1Table(graph: map<string, seq<string>>, pd: map<string, map<string, seq<string>>>, up: Upstream): (r: Table)
    ensures r.Keys == graph.Keys
  {
    map m | m in graph :: Phase1Row(pd, up, m)
  }

  lemma DirectOfNothing(up: Upstream)
    ensures Direct(map[], up) == map[]
  {
    var none: Entry := map[];
    forall p ensures p in Direct(map[], up) <==> p in none
      ensures GetSet(Direct(map[], up), p) == GetSet(none, p)
    {
      DirectContents(map[], up, p, "");
      forall y ensures y !in GetSet(Direct(map[], up), p) {
        DirectContents(map[], up, p, y);
      }
    }
    EntryEq(Direct(map[], up), none);
  }

  /** The table part-way through the first phase: the modules in `remaining` still have empty rows. */
  function PartialTable(graph: map<string, seq<string>>, pd: map<string, map<string, seq<string>>>, up: Upstream, remaining: set<string>): Table {
    map m | m in graph :: if m in remaining then map[] else Phase1Row(pd, up, m)
  }

  lemma PartialTableStep(graph: map<string, seq<string>>, pd: map<string, map<string, seq<string>>>, up: Upstream,
                         remaining: set<string>, modname: string, t: Table)
    requires t == PartialTable(graph, pd, up, remaining) && modname in graph
    ensures t[modname := Phase1Row(pd, up, modname)] == PartialTable(graph, pd, up, remaining - {modname})
  {
  }

  lemma PartialTableSkip(graph: map<string, seq<string>>, pd: map<string, map<string, seq<string>>>, up: Upstream,
                         remaining: set<string>, modname: string, t: Table)
    requires t == PartialTable(graph, pd, up, remaining) && Phase1Row(pd, up, modname) == map[]
    ensures t == PartialTable(graph, pd, up, remaining - {modname})
  {
  }

  /** `result = {m: {} for m in module_graph}`, then the loop over `package_deps`. */
  method DirectTable(graph: map<string, seq<string>>, pd: map<string, map<string, seq<string>>>, up: Upstream)
    returns (r: Result<Table, ClosureError>)
    ensures r.Success? <==> Phase1Ok(graph, pd, up)
    ensures r.Success? ==> r.value == Phase1Table(graph, pd, up)
    ensures r.Failure? ==> match r.error
      case UnknownModule(m) => m in pd && pd[m] != map[] && m !in graph
      case MissingUpstream(p, x) => exists m :: m in pd && p in pd[m] && x in pd[m][p] && !Available(up, (p, x))
      case Cycle => false
  {
    var result: Table := map m | m in graph :: map[];
    var remaining := pd.Keys;
    assert result == PartialTable(graph, pd, up, remaining);
    while remaining != {}
      invariant remaining <= pd.Keys
      invariant result == PartialTable(graph, pd, up, remaining)
      invariant forall m :: m in pd && m !in remaining ==> RowOk(graph, pd, up, m)
      decreases remaining
    {
      var modname :| modname in remaining;
      var depPkgs := pd[modname];
      if depPkgs == map[] {
        DirectOfNothing(up);
        PartialTableSkip(graph, pd, up, remaining, modname, result);
      } else {
        if modname !in result {
          return Failure(UnknownModule(modname));
        }
        var e := DirectEntry(depPkgs, up);
        if e.Failure? {
          return Failure(e.error);
        }
        PartialTableStep(graph, pd, up, remaining, modname, result);
        result := result[modname := e.value];
      }
      remaining := remaining - {modname};
    }
    assert result == Phase1Table(graph, pd, up);
    return Success(result);
  }

  // ---------------------------------------------------------------------------------------------
  // Phase 2: propagation along a topological order.

  /** Every module of the graph and every module it depends on. */
  function Nodes(graph: map<string, seq<string>>): set<string> {
    graph.Keys + set m, d | m in graph && d in graph[m] :: d
  }

  /** Every dependency is itself a module of the graph. */
  predicate Closed(graph: map<string, seq<string>>) {
    forall m, d :: m in graph && d in graph[m] ==> d in graph
  }

  predicate Distinct(o: seq<string>) {
    forall i, j :: 0 <= i < j < |o| ==> o[i] != o[j]
  }

  /** `o` lists every node once, each after all the modules it depends on. */
  predicate IsTopoOrder(graph: map<string, seq<string>>, o: seq<string>) {
    Distinct(o)
    && (forall i :: 0 <= i < |o| ==> o[i] in Nodes(graph))
    && (forall x :: x in Nodes(graph) ==> x in o)
    && (forall i, d :: 0 <= i < |o| && o[i] in graph && d in graph[o[i]] ==> d in o[..i])
  }

  ghost predicate Sortable(graph: map<string, seq<string>>) {
    exists o :: IsTopoOrder(graph, o)
  }

  /** `{pkgname: set(dep_mods)}` when there are intra-package dependencies. */
  function OwnEntry(pkgname: string, deps: seq<string>): Entry {
    if deps == [] then map[] else map[pkgname := set d | d in deps]
  }

  /** The rows of `deps`, merged in order. */
  function MergeRows(t: Table, deps: seq<string>): Entry
    decreases |deps|
  {
    if deps == [] then map[]
    else
      var n := |deps| - 1;
      Merge(MergeRows(t, deps[..n]), GetEntry(t, deps[n]))
  }

  /** The equation every row of the final table satisfies. */
  function Row(pkgname: string, graph: map<string, seq<string>>, base: Table, t: Table, m: string): Entry
    requires m in graph
  {
    Merge(Merge(GetEntry(base, m), OwnEntry(pkgname, graph[m])), MergeRows(t, graph[m]))
  }

  /**
   * `t` is a transitive table over `base`: it has a row per module, and each row is its base row,
   * plus the package's own name for its intra-package dependencies, plus the rows of those
   * dependencies.
   */
  predicate IsClosure(pkgname: string, graph: map<string, seq<string>>, base: Table, t: Table) {
    t.Keys == graph.Keys && forall m :: m in graph ==> t[m] == Row(pkgname, graph, base, t, m)
  }

  lemma {:induction false} MergeRowsFrame(t1: Table, t2: Table, deps: seq<string>)
    requires forall k :: 0 <= k < |deps| ==> GetEntry(t1, deps[k]) == GetEntry(t2, deps[k])
    ensures MergeRows(t1, deps) == MergeRows(t2, deps)
    decreases |deps|
  {
    if deps != [] {
      MergeRowsFrame(t1, t2, deps[..|deps| - 1]);
    }
  }

  lemma {:induction false} MergeRowsContains(t: Table, deps: seq<string>, k: nat)
    requires k < |deps|
    ensures Sub(GetEntry(t, deps[k]), MergeRows(t, deps))
    decreases |deps|
  {
    var n := |deps| - 1;
    MergeSub(MergeRows(t, deps[..n]), GetEntry(t, deps[n]));
    if k < n {
      MergeRowsContains(t, deps[..n], k);
      SubTransitive(GetEntry(t, deps[k]), MergeRows(t, deps[..n]), MergeRows(t, deps));
    }
  }

  lemma OwnUpdate(e: Entry, pkgname: string, deps: seq<string>)
    requires deps != []
    ensures e[pkgname := GetSet(e, pkgname) + set d | d in deps] == Merge(e, OwnEntry(pkgname, deps))
  {
    SetDefaultUpdate(e, pkgname, set d | d in deps);
  }

  lemma MergeNothing(e: Entry)
    ensures Merge(e, map[]) == e
  {
    forall p ensures p in Merge(e, map[]) <==> p in e ensures GetSet(Merge(e, map[]), p) == GetSet(e, p) {
      MergeAt(e, map[], p);
    }
    EntryEq(Merge(e, map[]), e);
  }

  /**
   * The body of the second phase for one module: the package's own name for its intra-package
   * dependencies, then the rows of those dependencies.
   */
  method ModuleRow(pkgname: string, depMods: seq<string>, e0: Entry, t: Table) returns (e: Entry)
    requires forall k :: 0 <= k < |depMods| ==> depMods[k] in t
    ensures e == Merge(Merge(e0, OwnEntry(pkgname, depMods)), MergeRows(t, depMods))
  {
    e := e0;
    if depMods != [] {
      OwnUpdate(e, pkgname, depMods);
      e := e[pkgname := GetSet(e, pkgname) + set d | d in depMods];
    } else {
      MergeNothing(e0);
    }
    e := MergeDepRows(e, depMods, t);
  }

  /** The loop of the second phase over one module's dependencies: each dependency's row merged in. */
  method MergeDepRows(start: Entry, depMods: seq<string>, t: Table) returns (e: Entry)
    requires forall k :: 0 <= k < |depMods| ==> depMods[k] in t
    ensures e == Merge(start, MergeRows(t, depMods))
  {
    e := start;
    MergeNothing(start);
    var j := 0;
    while j < |depMods|
      invariant 0 <= j <= |depMods|
      invariant e == Merge(start, MergeRows(t, depMods[..j]))
    {
      var depMod := depMods[j];
      PrefixOfPrefix(depMods, j);
      MergeAssoc(start, MergeRows(t, depMods[..j]), t[depMod]);
      e := MergeInto(e, t[depMod]);
      j := j + 1;
    }
    FullPrefix(depMods);
  }

  /**
   * The state of the second phase after the first `i` modules of the order: they are graph
   * modules whose rows satisfy the closure equation, and every other row is still its base row.
   */
  ghost predicate Progress(pkgname: string, graph: map<string, seq<string>>, base: Table, o: seq<string>, i: nat, t: Table)
    requires i <= |o|
  {
    t.Keys == graph.Keys == base.Keys
    && (forall k :: 0 <= k < i ==> o[k] in graph)
    && (forall m :: m in graph && m !in o[..i] ==> t[m] == base[m])
    && (forall k :: 0 <= k < i ==> t[o[k]] == Row(pkgname, graph, base, t, o[k]))
  }

  lemma ProgressStart(pkgname: string, graph: map<string, seq<string>>, base: Table, o: seq<string>)
    requires base.Keys == graph.Keys
    ensures Progress(pkgname, graph, base, o, 0, base)
  {
  }

  /** Before module `o[i]` is processed, the rows of its dependencies are final. */
  lemma ProgressDeps(pkgname: string, graph: map<string, seq<string>>, base: Table, o: seq<string>, i: nat, t: Table)
    requires IsTopoOrder(graph, o) && i < |o| && o[i] in graph && Progress(pkgname, graph, base, o, i, t)
    ensures forall k :: 0 <= k < |graph[o[i]]| ==> graph[o[i]][k] in t
    ensures o[i] in t && t[o[i]] == GetEntry(base, o[i])
  {
    forall k | 0 <= k < |graph[o[i]]| ensures graph[o[i]][k] in t {
      var d := graph[o[i]][k];
      assert d in o[..i];
      var n :| 0 <= n < i && o[n] == d;
    }
    assert o[i] !in o[..i];
  }

  lemma ProgressStep(pkgname: string, graph: map<string, seq<string>>, base: Table, o: seq<string>, i: nat, t: Table, e: Entry)
    requires IsTopoOrder(graph, o) && i < |o| && o[i] in graph && Progress(pkgname, graph, base, o, i, t)
    requires e == Merge(Merge(t[o[i]], OwnEntry(pkgname, graph[o[i]])), MergeRows(t, graph[o[i]]))
    ensures Progress(pkgname, graph, base, o, i + 1, t[o[i] := e])
  {
    ProgressDeps(pkgname, graph, base, o, i, t);
    var t' := t[o[i] := e];
    assert t'.Keys == graph.Keys;
    BaseRowsAfterStep(graph, base, o, i, t, e);
    assert e == Row(pkgname, graph, base, t, o[i]);
    RowsAfterStep(pkgname, graph, base, o, i, t, e);
  }

  /** After replacing the row of `o[i]`, the rows of `o[..i + 1]` all satisfy the closure equation. */
  lemma RowsAfterStep(pkgname: string, graph: map<string, seq<string>>, base: Table, o: seq<string>, i: nat, t: Table, e: Entry)
    requires IsTopoOrder(graph, o) && i < |o| && o[i] in graph && t.Keys == graph.Keys
    requires forall k :: 0 <= k < i ==> o[k] in graph
    requires forall k :: 0 <= k < i ==> t[o[k]] == Row(pkgname, graph, base, t, o[k])
    requires e == Row(pkgname, graph, base, t, o[i])
    ensures forall k :: 0 <= k < i + 1 ==> t[o[i] := e][o[k]] == Row(pkgname, graph, base, t[o[i] := e], o[k])
  {
    forall k | 0 <= k < i + 1 ensures t[o[i] := e][o[k]] == Row(pkgname, graph, base, t[o[i] := e], o[k]) {
      RowAfterStep(pkgname, graph, base, o, i, t, e, k);
    }
  }

  /** Replacing the row of `o[i]` leaves every module after it in the order with its base row. */
  lemma BaseRowsAfterStep(graph: map<string, seq<string>>, base: Table, o: seq<string>, i: nat, t: Table, e: Entry)
    requires i < |o| && t.Keys == graph.Keys && base.Keys == graph.Keys
    requires forall m :: m in t && m !in o[..i] ==> t[m] == base[m]
    ensures forall m :: m in t && m !in o[..i + 1] ==> t[o[i] := e][m] == base[m]
  {
    forall m | m in t && m !in o[..i + 1] ensures t[o[i] := e][m] == base[m] {
      NotInLongerPrefix(o, i, m);
    }
  }

  /** Replacing the row of `o[i]` keeps every earlier row and the new row satisfying the closure equation. */
  lemma RowAfterStep(pkgname: string, graph: map<string, seq<string>>, base: Table, o: seq<string>, i: nat, t: Table, e: Entry, k: nat)
    requires IsTopoOrder(graph, o) && k <= i < |o| && o[k] in graph && o[k] in t && o[i] in graph
    requires k < i ==> t[o[k]] == Row(pkgname, graph, base, t, o[k])
    requires e == Row(pkgname, graph, base, t, o[i])
    ensures t[o[i] := e][o[k]] == Row(pkgname, graph, base, t[o[i] := e], o[k])
  {
    RowUnchanged(pkgname, graph, base, o, i, t, e, k);
    if k < i {
      assert o[k] != o[i];
    }
  }

  lemma NotInLongerPrefix(o: seq<string>, i: nat, m: string)
    requires i < |o| && m !in o[..i + 1]
    ensures m != o[i] && m !in o[..i]
  {
    assert o[..i + 1][i] == o[i];
    assert forall j :: 0 <= j < i ==> o[..i][j] == o[..i + 1][j];
  }

  /** Updating the row of `o[i]` leaves the closure equation of every module up to `o[i]` as it was. */
  lemma RowUnchanged(pkgname: string, graph: map<string, seq<string>>, base: Table, o: seq<string>, i: nat, t: Table, e: Entry, k: nat)
    requires IsTopoOrder(graph, o) && k <= i < |o| && o[k] in graph
    ensures Row(pkgname, graph, base, t[o[i] := e], o[k]) == Row(pkgname, graph, base, t, o[k])
  {
    var deps := graph[o[k]];
    forall n | 0 <= n < |deps| ensures GetEntry(t, deps[n]) == GetEntry(t[o[i] := e], deps[n]) {
      assert deps[n] in o[..k];
      var j :| 0 <= j < k && o[j] == deps[n];
    }
    MergeRowsFrame(t, t[o[i] := e], deps);
  }

  /** After the whole order, every graph module satisfies the closure equation. */
  lemma ProgressDone(pkgname: string, graph: map<string, seq<string>>, base: Table, o: seq<string>, t: Table)
    requires IsTopoOrder(graph, o) && Progress(pkgname, graph, base, o, |o|, t)
    ensures Closed(graph) && IsClosure(pkgname, graph, base, t)
  {
    forall m, d | m in graph && d in graph[m] ensures d in graph {
      assert d in Nodes(graph);
      var k :| 0 <= k < |o| && o[k] == d;
    }
    forall m | m in graph ensures t[m] == Row(pkgname, graph, base, t, m) {
      assert m in Nodes(graph);
      var k :| 0 <= k < |o| && o[k] == m;
    }
  }

  /** A node of the graph that is not one of its modules makes the graph not closed. */
  lemma NotClosed(graph: map<string, seq<string>>, x: string)
    requires x in Nodes(graph) && x !in graph
    ensures !Closed(graph)
  {
    var m, d :| m in graph && d in graph[m] && d == x;
  }

  /**
   * The second phase: for each module in the order, add the package's own name for its direct
   * intra-package dependencies and merge in the rows of those dependencies.
   */
  method Propagate(pkgname: string, graph: map<string, seq<string>>, base: Table, order: Option<seq<string>>)
    returns (r: Result<Table, ClosureError>)
    requires base.Keys == graph.Keys
    requires order.Some? ==> IsTopoOrder(graph, order.value)
    requires order.None? ==> !Sortable(graph)
    ensures r.Success? <==> order.Some? && Closed(graph)
    ensures r.Success? ==> IsClosure(pkgname, graph, base, r.value)
    ensures r.Failure? ==>
              (r.error == Cycle && order.None?)
              || (r.error.UnknownModule? && r.error.modname in Nodes(graph) && r.error.modname !in graph)
  {
    if order.None? {
      return Failure(Cycle);
    }
    var o := order.value;
    var result := base;
    var i := 0;
    ProgressStart(pkgname, graph, base, o);
    while i < |o|
      invariant 0 <= i <= |o| && Progress(pkgname, graph, base, o, i, result)
    {
      var modname := o[i];
      if modname !in graph {
        NotClosed(graph, modname);
        return Failure(UnknownModule(modname));
      }
      ProgressDeps(pkgname, graph, base, o, i, result);
      var e := ModuleRow(pkgname, graph[modname], result[modname], result);
      ProgressStep(pkgname, graph, base, o, i, result, e);
      result := result[modname := e];
      i := i + 1;
    }
    ProgressDone(pkgname, graph, base, o, result);
    return Success(result);
  }

  /** `calc_transitive_deps` */
  method CalcTransitiveDeps(pkgname: string, graph: map<string, seq<string>>, pd: map<string, map<string, seq<string>>>,
                            up: Upstream, order: Option<seq<string>>)
    returns (r: Result<Table, ClosureError>)
    requires order.Some? ==> IsTopoOrder(graph, order.value)
    requires order.None? ==> !Sortable(graph)
    ensures r.Success? <==> Phase1Ok(graph, pd, up) && order.Some? && Closed(graph)
    ensures r.Success? ==> IsClosure(pkgname, graph, Phase1Table(graph, pd, up), r.value)
    ensures r.Failure? && r.error.Cycle? ==> !Sortable(graph)
  {
    var base := DirectTable(graph, pd, up);
    if base.Failure? {
      return Failure(base.error);
    }
    r := Propagate(pkgname, graph, base.value, order);
  }

  // ---------------------------------------------------------------------------------------------
  // Properties of the table.

  /** Each row contains its first-phase row: the direct cross-package modules and their closures. */
  lemma ClosureContainsBase(pkgname: string, graph: map<string, seq<string>>, base: Table, t: Table, m: string)
    requires IsClosure(pkgname, graph, base, t) && m in graph
    ensures Sub(GetEntry(base, m), t[m])
  {
    var a := Merge(GetEntry(base, m), OwnEntry(pkgname, graph[m]));
    MergeSub(GetEntry(base, m), OwnEntry(pkgname, graph[m]));
    MergeSub(a, MergeRows(t, graph[m]));
    SubTransitive(GetEntry(base, m), a, t[m]);
  }

  /** A module with intra-package dependencies lists them under the package's own name. */
  lemma ClosureOwnPackage(pkgname: string, graph: map<string, seq<string>>, base: Table, t: Table, m: string)
    requires IsClosure(pkgname, graph, base, t) && m in graph && graph[m] != []
    ensures pkgname in t[m] && forall k :: 0 <= k < |graph[m]| ==> graph[m][k] in t[m][pkgname]
  {
    var a := Merge(GetEntry(base, m), OwnEntry(pkgname, graph[m]));
    MergeSub(GetEntry(base, m), OwnEntry(pkgname, graph[m]));
    MergeSub(a, MergeRows(t, graph[m]));
    SubTransitive(OwnEntry(pkgname, graph[m]), a, t[m]);
  }

  /** Each row contains the row of every intra-package dependency. */
  lemma ClosureContainsDeps(pkgname: string, graph: map<string, seq<string>>, base: Table, t: Table, m: string, k: nat)
    requires IsClosure(pkgname, graph, base, t) && m in graph && k < |graph[m]|
    ensures Sub(GetEntry(t, graph[m][k]), t[m])
  {
    var a := Merge(GetEntry(base, m), OwnEntry(pkgname, graph[m]));
    MergeRowsContains(t, graph[m], k);
    MergeSub(a, MergeRows(t, graph[m]));
    SubTransitive(GetEntry(t, graph[m][k]), MergeRows(t, graph[m]), t[m]);
  }

  /** `path` follows dependency edges of the graph. */
  predicate IsPath(graph: map<string, seq<string>>, path: seq<string>) {
    |path| >= 1 && forall i :: 0 <= i < |path| - 1 ==> path[i] in graph && path[i + 1] in graph[path[i]]
  }

  /** Rows are transitive: a module's row contains the row of every module it reaches. */
  lemma {:induction false} ClosureContainsReachable(pkgname: string, graph: map<string, seq<string>>, base: Table, t: Table, path: seq<string>)
    requires IsClosure(pkgname, graph, base, t) && IsPath(graph, path)
    ensures Sub(GetEntry(t, path[|path| - 1]), GetEntry(t, path[0]))
    decreases |path|
  {
    if |path| > 1 {
      var rest := path[1..];
      assert IsPath(graph, rest) by {
        forall i | 0 <= i < |rest| - 1 ensures rest[i] in graph && rest[i + 1] in graph[rest[i]] {
          assert rest[i] == path[i + 1] && rest[i + 1] == path[i + 2];
        }
      }
      ClosureContainsReachable(pkgname, graph, base, t, rest);
      var k :| 0 <= k < |graph[path[0]]| && graph[path[0]][k] == path[1];
      ClosureContainsDeps(pkgname, graph, base, t, path[0], k);
      SubTransitive(GetEntry(t, path[|path| - 1]), GetEntry(t, path[1]), GetEntry(t, path[0]));
    }
  }

  /**
   * The table does not depend on which topological order the sorter picks: over a graph with a
   * topological order, two transitive tables over the same first-phase rows are equal.
   */
  lemma ClosureUnique(pkgname: string, graph: map<string, seq<string>>, base: Table, t1: Table, t2: Table, o: seq<string>)
    requires IsTopoOrder(graph, o) && Closed(graph)
    requires IsClosure(pkgname, graph, base, t1) && IsClosure(pkgname, graph, base, t2)
    ensures t1 == t2
  {
    ClosureAgreesUpTo(pkgname, graph, base, t1, t2, o, |o|);
    AgreeAlongOrder(graph, o, t1, t2);
  }

  /** Two tables over the graph's modules that agree at every position of a topological order are equal. */
  lemma AgreeAlongOrder(graph: map<string, seq<string>>, o: seq<string>, t1: Table, t2: Table)
    requires IsTopoOrder(graph, o) && t1.Keys == graph.Keys && t2.Keys == graph.Keys
    requires forall k :: 0 <= k < |o| ==> GetEntry(t1, o[k]) == GetEntry(t2, o[k])
    ensures t1 == t2
  {
    forall m | m in t1 ensures t1[m] == t2[m] {
      assert m in Nodes(graph);
      var k :| 0 <= k < |o| && o[k] == m;
      assert GetEntry(t1, o[k]) == GetEntry(t2, o[k]);
    }
    MapExt(t1, t2);
  }

  lemma {:induction false} ClosureAgreesUpTo(pkgname: string, graph: map<string, seq<string>>, base: Table, t1: Table, t2: Table, o: seq<string>, n: nat)
    requires IsTopoOrder(graph, o) && Closed(graph) && n <= |o|
    requires IsClosure(pkgname, graph, base, t1) && IsClosure(pkgname, graph, base, t2)
    ensures forall k :: 0 <= k < n ==> GetEntry(t1, o[k]) == GetEntry(t2, o[k])
    decreases n
  {
    if n > 0 {
      ClosureAgreesUpTo(pkgname, graph, base, t1, t2, o, n - 1);
      var m := o[n - 1];
      if m in graph {
        var deps := graph[m];
        forall j | 0 <= j < |deps| ensures GetEntry(t1, deps[j]) == GetEntry(t2, deps[j]) {
          assert deps[j] in o[..n - 1];
        }
        MergeRowsFrame(t1, t2, deps);
      }
    }
  }

  /** Along a path, each step goes to a module earlier in any topological order. */
  lemma {:induction false} PathGoesBack(graph: map<string, seq<string>>, o: seq<string>, path: seq<string>, i: nat)
    requires IsTopoOrder(graph, o) && IsPath(graph, path) && |path| >= 2
    requires i < |o| && o[i] == path[0]
    ensures exists j :: 0 <= j < i && o[j] == path[|path| - 1]
    decreases |path|
  {
    assert path[1] in o[..i];
    var j :| 0 <= j < i && o[j] == path[1];
    if |path| > 2 {
      var rest := path[1..];
      assert IsPath(graph, rest) by {
        forall k | 0 <= k < |rest| - 1 ensures rest[k] in graph && rest[k + 1] in graph[rest[k]] {
          assert rest[k] == path[k + 1] && rest[k + 1] == path[k + 2];
        }
      }
      PathGoesBack(graph, o, rest, j);
    }
  }

  /** A graph with a cycle has no topological order, so the sorter fails on it. */
  lemma CycleNotSortable(graph: map<string, seq<string>>, path: seq<string>)
    requires IsPath(graph, path) && |path| >= 2 && path[0] == path[|path| - 1]
    ensures !Sortable(graph)
  {
    if Sortable(graph) {
      var o :| IsTopoOrder(graph, o);
      assert path[0] in Nodes(graph);
      var i :| 0 <= i < |o| && o[i] == path[0];
      PathGoesBack(graph, o, path, i);
    }
  }

  /** `n` can be reached from `m` along dependency edges (in no steps when they are equal). */
  ghost predicate Reaches(graph: map<string, seq<string>>, m: string, n: string) {
    exists path :: IsPath(graph, path) && path[0] == m && path[|path| - 1] == n
  }

  lemma ReachesSelf(graph: map<string, seq<string>>, m: string)
    ensures Reaches(graph, m, m)
  {
    assert IsPath(graph, [m]);
  }

  lemma ReachesStep(graph: map<string, seq<string>>, m: string, k: nat, n: string)
    requires m in graph && k < |graph[m]| && Reaches(graph, graph[m][k], n)
    ensures Reaches(graph, m, n)
  {
    var path :| IsPath(graph, path) && path[0] == graph[m][k] && path[|path| - 1] == n;
    var path' := [m] + path;
    forall i | 0 <= i < |path'| - 1 ensures path'[i] in graph && path'[i + 1] in graph[path'[i]] {
      if i > 0 {
        assert path'[i] == path[i - 1] && path'[i + 1] == path[i];
      }
    }
    assert IsPath(graph, path');
  }

  /** Where a module listed in a row can come from: a reached module's first-phase row, or its intra-package edges. */
  ghost predicate ModuleOrigin(pkgname: string, graph: map<string, seq<string>>, base: Table, m: string, p: string, x: string) {
    exists n :: Reaches(graph, m, n) && n in graph && (x in GetSet(GetEntry(base, n), p) || (p == pkgname && x in graph[n]))
  }

  /** Where a package key of a row can come from. */
  ghost predicate PackageOrigin(pkgname: string, graph: map<string, seq<string>>, base: Table, m: string, p: string) {
    exists n :: Reaches(graph, m, n) && n in graph && (p in GetEntry(base, n) || (p == pkgname && graph[n] != []))
  }

  lemma {:induction false} MergeRowsFrom(t: Table, deps: seq<string>, p: string, x: string)
    ensures p in MergeRows(t, deps) ==> exists k :: 0 <= k < |deps| && p in GetEntry(t, deps[k])
    ensures x in GetSet(MergeRows(t, deps), p) ==> exists k :: 0 <= k < |deps| && x in GetSet(GetEntry(t, deps[k]), p)
    decreases |deps|
  {
    if deps != [] {
      var n := |deps| - 1;
      MergeRowsFrom(t, deps[..n], p, x);
      MergeAt(MergeRows(t, deps[..n]), GetEntry(t, deps[n]), p);
      if p in MergeRows(t, deps[..n]) {
        var k :| 0 <= k < n && p in GetEntry(t, deps[..n][k]);
        assert deps[..n][k] == deps[k];
      }
      if x in GetSet(MergeRows(t, deps[..n]), p) {
        var k :| 0 <= k < n && x in GetSet(GetEntry(t, deps[..n][k]), p);
        assert deps[..n][k] == deps[k];
      }
    }
  }

  /** The three parts of a row: its first-phase row, the package's own name, and its dependencies' rows. */
  lemma RowAt(pkgname: string, graph: map<string, seq<string>>, base: Table, t: Table, m: string, p: string)
    requires m in graph
    ensures p in Row(pkgname, graph, base, t, m) <==>
              p in GetEntry(base, m) || p in OwnEntry(pkgname, graph[m]) || p in MergeRows(t, graph[m])
    ensures GetSet(Row(pkgname, graph, base, t, m), p) ==
              GetSet(GetEntry(base, m), p) + GetSet(OwnEntry(pkgname, graph[m]), p) + GetSet(MergeRows(t, graph[m]), p)
  {
    MergeAt(GetEntry(base, m), OwnEntry(pkgname, graph[m]), p);
    MergeAt(Merge(GetEntry(base, m), OwnEntry(pkgname, graph[m])), MergeRows(t, graph[m]), p);
  }

  lemma PackageOriginStep(pkgname: string, graph: map<string, seq<string>>, base: Table, m: string, k: nat, p: string)
    requires m in graph && k < |graph[m]| && PackageOrigin(pkgname, graph, base, graph[m][k], p)
    ensures PackageOrigin(pkgname, graph, base, m, p)
  {
    var n :| Reaches(graph, graph[m][k], n) && n in graph && (p in GetEntry(base, n) || (p == pkgname && graph[n] != []));
    ReachesStep(graph, m, k, n);
  }

  lemma ModuleOriginStep(pkgname: string, graph: map<string, seq<string>>, base: Table, m: string, k: nat, p: string, x: string)
    requires m in graph && k < |graph[m]| && ModuleOrigin(pkgname, graph, base, graph[m][k], p, x)
    ensures ModuleOrigin(pkgname, graph, base, m, p, x)
  {
    var n :| Reaches(graph, graph[m][k], n) && n in graph && (x in GetSet(GetEntry(base, n), p) || (p == pkgname && x in graph[n]));
    ReachesStep(graph, m, k, n);
  }

  /** A dependency of `o[i]` comes earlier in the order. */
  lemma DepEarlier(graph: map<string, seq<string>>, o: seq<string>, i: nat, k: nat) returns (j: nat)
    requires IsTopoOrder(graph, o) && i < |o| && o[i] in graph && k < |graph[o[i]]|
    ensures j < i && o[j] == graph[o[i]][k]
  {
    assert graph[o[i]][k] in o[..i];
    j :| 0 <= j < i && o[..i][j] == graph[o[i]][k];
  }

  lemma {:induction false} PackageOriginAt(pkgname: string, graph: map<string, seq<string>>, base: Table, t: Table, o: seq<string>,
                                           i: nat, p: string)
    requires IsTopoOrder(graph, o) && IsClosure(pkgname, graph, base, t) && i < |o|
    ensures p in GetEntry(t, o[i]) ==> PackageOrigin(pkgname, graph, base, o[i], p)
    decreases i
  {
    var m := o[i];
    if m in graph && p in GetEntry(t, m) {
      RowAt(pkgname, graph, base, t, m, p);
      ReachesSelf(graph, m);
      MergeRowsFrom(t, graph[m], p, "");
      if p in MergeRows(t, graph[m]) {
        var k :| 0 <= k < |graph[m]| && p in GetEntry(t, graph[m][k]);
        var j := DepEarlier(graph, o, i, k);
        PackageOriginAt(pkgname, graph, base, t, o, j, p);
        PackageOriginStep(pkgname, graph, base, m, k, p);
      }
    }
  }

  lemma {:induction false} ModuleOriginAt(pkgname: string, graph: map<string, seq<string>>, base: Table, t: Table, o: seq<string>,
                                          i: nat, p: string, x: string)
    requires IsTopoOrder(graph, o) && IsClosure(pkgname, graph, base, t) && i < |o|
    ensures x in GetSet(GetEntry(t, o[i]), p) ==> ModuleOrigin(pkgname, graph, base, o[i], p, x)
    decreases i
  {
    var m := o[i];
    if m in graph && x in GetSet(GetEntry(t, m), p) {
      RowAt(pkgname, graph, base, t, m, p);
      ReachesSelf(graph, m);
      MergeRowsFrom(t, graph[m], p, x);
      if x in GetSet(MergeRows(t, graph[m]), p) {
        var k :| 0 <= k < |graph[m]| && x in GetSet(GetEntry(t, graph[m][k]), p);
        var j := DepEarlier(graph, o, i, k);
        ModuleOriginAt(pkgname, graph, base, t, o, j, p, x);
        ModuleOriginStep(pkgname, graph, base, m, k, p, x);
      }
    }
  }

  /**
   * The rows hold nothing else: every package and module in a module's row comes from the
   * first-phase row of a module it reaches, or names the package itself for an intra-package
   * dependency of a module it reaches.
   */
  lemma ClosureOrigin(pkgname: string, graph: map<string, seq<string>>, base: Table, t: Table, o: seq<string>, m: string, p: string, x: string)
    requires IsTopoOrder(graph, o) && IsClosure(pkgname, graph, base, t) && m in graph
    ensures p in t[m] ==> PackageOrigin(pkgname, graph, base, m, p)
    ensures x in GetSet(t[m], p) ==> ModuleOrigin(pkgname, graph, base, m, p, x)
  {
    assert m in Nodes(graph);
    var i :| 0 <= i < |o| && o[i] == m;
    PackageOriginAt(pkgname, graph, base, t, o, i, p);
    ModuleOriginAt(pkgname, graph, base, t, o, i, p, x);
  }

  /** And every package that can come into a row is in it: with `ClosureOrigin`, a characterisation of the keys. */
  lemma ClosureHasPackages(pkgname: string, graph: map<string, seq<string>>, base: Table, t: Table, m: string, p: string)
    requires IsClosure(pkgname, graph, base, t) && m in graph && PackageOrigin(pkgname, graph, base, m, p)
    ensures p in t[m]
  {
    var n :| Reaches(graph, m, n) && n in graph && (p in GetEntry(base, n) || (p == pkgname && graph[n] != []));
    if p in GetEntry(base, n) {
      BaseReached(pkgname, graph, base, t, m, n);
    } else {
      OwnReached(pkgname, graph, base, t, m, n);
    }
  }

  /** And every module that can come into a row is in it: with `ClosureOrigin`, a characterisation of the modules. */
  lemma ClosureHasModules(pkgname: string, graph: map<string, seq<string>>, base: Table, t: Table, m: string, p: string, x: string)
    requires IsClosure(pkgname, graph, base, t) && m in graph && ModuleOrigin(pkgname, graph, base, m, p, x)
    ensures x in GetSet(t[m], p)
  {
    var n :| Reaches(graph, m, n) && n in graph && (x in GetSet(GetEntry(base, n), p) || (p == pkgname && x in graph[n]));
    ModuleReached(pkgname, graph, base, t, m, n, p, x);
  }

  lemma ModuleReached(pkgname: string, graph: map<string, seq<string>>, base: Table, t: Table, m: string, n: string, p: string, x: string)
    requires IsClosure(pkgname, graph, base, t) && m in graph && n in graph && Reaches(graph, m, n)
    requires x in GetSet(GetEntry(base, n), p) || (p == pkgname && x in graph[n])
    ensures x in GetSet(t[m], p)
  {
    if x in GetSet(GetEntry(base, n), p) {
      BaseReached(pkgname, graph, base, t, m, n);
      assert p in GetEntry(base, n);
    } else {
      OwnReached(pkgname, graph, base, t, m, n);
    }
  }

  /** The first-phase row of a reached module is part of the row. */
  lemma BaseReached(pkgname: string, graph: map<string, seq<string>>, base: Table, t: Table, m: string, n: string)
    requires IsClosure(pkgname, graph, base, t) && m in graph && n in graph && Reaches(graph, m, n)
    ensures Sub(GetEntry(base, n), t[m])
  {
    var path :| IsPath(graph, path) && path[0] == m && path[|path| - 1] == n;
    ClosureContainsReachable(pkgname, graph, base, t, path);
    ClosureContainsBase(pkgname, graph, base, t, n);
    SubTransitive(GetEntry(base, n), t[n], t[m]);
  }

  /** So are the intra-package dependencies of a reached module, under the package's own name. */
  lemma OwnReached(pkgname: string, graph: map<string, seq<string>>, base: Table, t: Table, m: string, n: string)
    requires IsClosure(pkgname, graph, base, t) && m in graph && n in graph && Reaches(graph, m, n) && graph[n] != []
    ensures pkgname in t[m] && forall y :: y in graph[n] ==> y in GetSet(t[m], pkgname)
  {
    var path :| IsPath(graph, path) && path[0] == m && path[|path| - 1] == n;
    ClosureContainsReachable(pkgname, graph, base, t, path);
    ClosureOwnPackage(pkgname, graph, base, t, n);
    forall y | y in graph[n] ensures y in GetSet(t[m], pkgname) {
      var k :| 0 <= k < |graph[n]| && graph[n][k] == y;
    }
  }

  /** The smallest cycle: `X` and `Y` depending on each other. */
  lemma TwoCycleNotSortable(graph: map<string, seq<string>>)
    requires graph == map["X" := ["Y"], "Y" := ["X"]]
    ensures !Sortable(graph)
  {
    assert IsPath(graph, ["X", "Y", "X"]);
    CycleNotSortable(graph, ["X", "Y", "X"]);
  }

  /** A module depending on itself. */
  lemma SelfLoopNotSortable(graph: map<string, seq<string>>, m: string)
    requires m in graph && m in graph[m]
    ensures !Sortable(graph)
  {
    assert IsPath(graph, [m, m]);
    CycleNotSortable(graph, [m, m]);
  }
}
