/**
 * The trie of package output prefixes: `calc_package_prefixes` registers each dependency's
 * output directory, split into path parts, and `lookup_package_dep` walks an interface file's
 * path through it until it meets the first registered package.
 *
 * A layer of the source's nested dictionaries maps path parts to sub-layers and may hold the
 * package name under the marker key `//pkgname`; a path part never contains `/` (and the roots
 * are `/` and `//`), so the marker is kept apart here as the `leaf` field.
 */
module PackageTrie {
  import opened Wrappers
  import opened PyStr
  import opened PyPath
  import opened HaskellNames

  datatype Trie = Trie(children: map<string, Trie>, leaf: Option<string>)

  const Empty: Trie := Trie(map[], None)

  /** `layer.setdefault(part, {})`, read-only: the sub-layer for `part`, or an empty one. */
  function Child(t: Trie, part: string): Trie {
    if part in t.children then t.children[part] else Empty
  }

  /** Walk `parts` down from `t`, creating missing layers, and mark the last layer with `id`. */
  function Insert(t: Trie, parts: seq<string>, id: string): Trie
    decreases |parts|
  {
    if parts == [] then t.(leaf := Some(id))
    else t.(children := t.children[parts[0] := Insert(Child(t, parts[0]), parts[1..], id)])
  }

  /** The layer reached from `t` along `parts`, when every step exists. */
  function Descend(t: Trie, parts: seq<string>): Option<Trie>
    decreases |parts|
  {
    if parts == [] then Some(t)
    else if parts[0] in t.children then Descend(t.children[parts[0]], parts[1..])
    else None
  }

  /** The package registered exactly at `parts`. */
  function LeafAt(t: Trie, parts: seq<string>): Option<string> {
    match Descend(t, parts)
    case None => None
    case Some(n) => n.leaf
  }

  lemma {:induction false} DescendEmpty(parts: seq<string>)
    ensures Descend(Empty, parts).Some? <==> parts == []
    ensures LeafAt(Empty, parts).None?
  {
  }

  /**
   * Inserting `ps` marks exactly `ps` with `id`, leaves every other registration alone, and adds
   * exactly the prefixes of `ps` to the layers that exist.
   */
  lemma {:induction false} InsertDescend(t: Trie, ps: seq<string>, id: string, qs: seq<string>)
    ensures LeafAt(Insert(t, ps, id), qs) == if qs == ps then Some(id) else LeafAt(t, qs)
    ensures Descend(Insert(t, ps, id), qs).Some? <==> Descend(t, qs).Some? || qs <= ps
    decreases |ps|
  {
    var t' := Insert(t, ps, id);
    if ps == [] || qs == [] {
    } else if qs[0] == ps[0] {
      var c := Child(t, ps[0]);
      InsertDescend(c, ps[1..], id, qs[1..]);
      assert Descend(t', qs) == Descend(Insert(c, ps[1..], id), qs[1..]);
      if ps[0] !in t.children {
        DescendEmpty(qs[1..]);
      }
      assert qs == ps <==> qs[1..] == ps[1..];
      assert qs <= ps <==> qs[1..] <= ps[1..];
    } else {
      assert qs[0] in t'.children <==> qs[0] in t.children;
      assert !(qs <= ps);
    }
  }

  /** The trie after registering each `(parts, package)` entry in order (`calc_package_prefixes`). */
  function Build(entries: seq<(seq<string>, string)>): Trie
    decreases |entries|
  {
    if entries == [] then Empty
    else
      var n := |entries| - 1;
      Insert(Build(entries[..n]), entries[n].0, entries[n].1)
  }

  /** The package of the last entry registering exactly `ps`: the later registration wins. */
  function LastRegistered(entries: seq<(seq<string>, string)>, ps: seq<string>): (r: Option<string>)
    ensures r.Some? ==> exists i :: 0 <= i < |entries| && entries[i] == (ps, r.value)
    decreases |entries|
  {
    if entries == [] then None
    else
      var n := |entries| - 1;
      if entries[n].0 == ps then Some(entries[n].1) else LastRegistered(entries[..n], ps)
  }

  /** `qs` leads along (a prefix of) some registered path. */
  predicate OnRegisteredPath(entries: seq<(seq<string>, string)>, qs: seq<string>) {
    exists i :: 0 <= i < |entries| && qs <= entries[i].0
  }

  /**
   * The built trie registers at each path the last package registered there, and its layers are
   * exactly the prefixes of registered paths.
   */
  lemma {:induction false} BuildRegisters(entries: seq<(seq<string>, string)>, qs: seq<string>)
    ensures LeafAt(Build(entries), qs) == LastRegistered(entries, qs)
    ensures Descend(Build(entries), qs).Some? <==> qs == [] || OnRegisteredPath(entries, qs)
    decreases |entries|
  {
    if entries == [] {
      DescendEmpty(qs);
    } else {
      var n := |entries| - 1;
      BuildRegisters(entries[..n], qs);
      InsertDescend(Build(entries[..n]), entries[n].0, entries[n].1, qs);
      if OnRegisteredPath(entries, qs) {
        var i :| 0 <= i < |entries| && qs <= entries[i].0;
        if i < n {
          assert entries[..n][i] == entries[i];
        }
      }
      if OnRegisteredPath(entries[..n], qs) {
        var i :| 0 <= i < n && qs <= entries[..n][i].0;
        assert entries[..n][i] == entries[i];
      }
    }
  }

  /** Each dependency `(pkgname, output_prefix)` as a trie entry. */
  function PrefixEntries(deps: seq<(string, string)>): (r: seq<(seq<string>, string)>)
    ensures |r| == |deps|
    ensures forall i :: 0 <= i < |deps| ==> r[i] == (Parts(deps[i].1), deps[i].0)
  {
    seq(|deps|, i requires 0 <= i < |deps| => (Parts(deps[i].1), deps[i].0))
  }

  /** `calc_package_prefixes`: register each dependency's output prefix under its name. */
  method CalcPackagePrefixes(deps: seq<(string, string)>) returns (t: Trie)
    ensures t == Build(PrefixEntries(deps))
  {
    t := Empty;
    var i := 0;
    while i < |deps|
      invariant 0 <= i <= |deps|
      invariant t == Build(PrefixEntries(deps)[..i])
    {
      var (pkgname, outputPrefix) := deps[i];
      assert PrefixEntries(deps)[..i + 1][..i] == PrefixEntries(deps)[..i];
      t := Insert(t, Parts(outputPrefix), pkgname);
      i := i + 1;
    }
    assert PrefixEntries(deps)[..i] == PrefixEntries(deps);
  }

  /**
   * The first layer strictly below `t` along `parts` that carries a package, with the offset of
   * the part leading to it; the walk gives up at the first part with no layer.
   */
  function FirstLeaf(t: Trie, parts: seq<string>): Option<(string, nat)>
    decreases |parts|
  {
    if parts == [] || parts[0] !in t.children then None
    else
      var next := t.children[parts[0]];
      if next.leaf.Some? then Some((next.leaf.value, 0))
      else Shift(FirstLeaf(next, parts[1..]), 1)
  }

  function Shift(o: Option<(string, nat)>, d: nat): Option<(string, nat)> {
    match o
    case None => None
    case Some(p) => Some((p.0, p.1 + d))
  }

  /** `n` is registered at `parts[..k + 1]`, and no shorter non-empty prefix of `parts` is registered. */
  predicate IsFirstLeaf(t: Trie, parts: seq<string>, n: string, k: nat) {
    k < |parts| && LeafAt(t, parts[..k + 1]) == Some(n)
    && forall j :: 0 < j <= k ==> LeafAt(t, parts[..j]).None?
  }

  /** No non-empty prefix of `parts` is registered. */
  predicate NoLeafOn(t: Trie, parts: seq<string>) {
    forall j :: 0 < j <= |parts| ==> LeafAt(t, parts[..j]).None?
  }

  lemma {:induction false} LeafAtStep(t: Trie, parts: seq<string>, j: nat)
    requires 0 < j <= |parts| && parts[0] in t.children
    ensures LeafAt(t, parts[..j]) == LeafAt(t.children[parts[0]], parts[1..][..j - 1])
  {
    assert parts[..j][0] == parts[0];
    assert parts[..j][1..] == parts[1..][..j - 1];
  }

  /** The walk finds the shortest registered non-empty prefix of the path, or reports that there is none. */
  lemma {:induction false} FirstLeafIsShortest(t: Trie, parts: seq<string>)
    ensures FirstLeaf(t, parts).Some? ==>
      IsFirstLeaf(t, parts, FirstLeaf(t, parts).value.0, FirstLeaf(t, parts).value.1)
    ensures FirstLeaf(t, parts).None? ==> NoLeafOn(t, parts)
    decreases |parts|
  {
    if parts == [] {
    } else if parts[0] !in t.children {
      forall j | 0 < j <= |parts| ensures LeafAt(t, parts[..j]).None? {
        assert parts[..j][0] == parts[0];
      }
    } else {
      var next := t.children[parts[0]];
      LeafAtStep(t, parts, 1);
      if next.leaf.None? {
        FirstLeafIsShortest(next, parts[1..]);
        forall j | 0 < j <= |parts| ensures LeafAt(t, parts[..j]) == LeafAt(next, parts[1..][..j - 1]) {
          LeafAtStep(t, parts, j);
        }
        match FirstLeaf(next, parts[1..])
        case None =>
          forall j | 0 < j <= |parts| ensures LeafAt(t, parts[..j]).None? {
            if j > 1 {
              assert LeafAt(next, parts[1..][..j - 1]).None?;
            }
          }
        case Some(p) =>
          forall j | 0 < j <= p.1 + 1 ensures LeafAt(t, parts[..j]).None? {
            if j > 1 {
              assert LeafAt(next, parts[1..][..j - 1]).None?;
            }
          }
      }
    }
  }

  /** `parts[n:]`, empty when `n` is past the end. */
  function Drop(s: seq<string>, n: nat): (r: seq<string>)
    ensures n <= |s| ==> s[..n] + r == s
    ensures n > |s| ==> r == []
  {
    if n <= |s| then s[n..] else []
  }

  /**
   * What `lookup_package_dep` returns: the package of the first registered prefix of the path's
   * parts and the module named by the parts after the one following that prefix.
   */
  function LookupSpec(moduleDep: string, t: Trie): Option<(string, string)> {
    var parts := Parts(moduleDep);
    match FirstLeaf(t, parts)
    case None => None
    case Some(p) => Some((p.0, SrcToModuleName(Join("/", Drop(parts, p.1 + 2)))))
  }

  /**
   * The loop of `lookup_package_dep`: descend one part at a time and stop at the first node
   * that names a package, giving that package and the index of the part that reached it.
   */
  method WalkTrie(parts: seq<string>, prefixes: Trie) returns (r: Option<(string, nat)>)
    ensures r == FirstLeaf(prefixes, parts)
  {
    var layer := prefixes;
    var offset := 0;
    while offset < |parts|
      invariant 0 <= offset <= |parts|
      invariant FirstLeaf(prefixes, parts) == Shift(FirstLeaf(layer, parts[offset..]), offset)
      decreases |parts| - offset
    {
      assert parts[offset..][0] == parts[offset];
      if parts[offset] !in layer.children {
        return None;
      }
      layer := layer.children[parts[offset]];
      if layer.leaf.Some? {
        return Some((layer.leaf.value, offset));
      }
      assert parts[offset..][1..] == parts[offset + 1..];
      offset := offset + 1;
    }
    return None;
  }

  /** `lookup_package_dep`: walk the path's parts through the trie. */
  method LookupPackageDep(moduleDep: string, prefixes: Trie) returns (r: Option<(string, string)>)
    ensures r == LookupSpec(moduleDep, prefixes)
  {
    var parts := Parts(moduleDep);
    var hit := WalkTrie(parts, prefixes);
    if hit.None? {
      return None;
    }
    var (pkgname, offset) := hit.value;
    return Some((pkgname, SrcToModuleName(Join("/", Drop(parts, offset + 2)))));
  }

  /** A path running through a registered prefix, with no shorter registered prefix, reaches it. */
  lemma {:induction false} FirstLeafOfPrefix(t: Trie, ps: seq<string>, n: string, rest: seq<string>)
    requires |ps| >= 1 && LeafAt(t, ps) == Some(n)
    requires forall j :: 0 < j < |ps| ==> LeafAt(t, ps[..j]).None?
    ensures FirstLeaf(t, ps + rest) == Some((n, |ps| - 1))
  {
    var parts := ps + rest;
    FirstLeafIsShortest(t, parts);
    assert parts[..|ps|] == ps;
    forall j | 0 < j < |ps| ensures parts[..j] == ps[..j] {}
  }

  lemma ComponentOnly(dir: string)
    requires dir != "" && dir != "." && forall k :: 0 <= k < |dir| ==> dir[k] != '/'
    ensures Parts(dir) == [dir]
  {
    assert dir[0] != '/';
    assert SplitOn(dir, '/') == [dir];
    assert [dir][1..] == [];
    assert KeepComponents([dir]) == [dir] + KeepComponents([]);
  }

  /**
   * The interface file `<prefix>/<dir>/<rel>` of a package registered at `prefix` (with no package
   * registered above it) resolves to that package and the module `<rel>` names.
   */
  lemma LookupBelowPrefix(t: Trie, prefix: string, n: string, dir: string, rel: string)
    requires prefix != "" && !IsAbs(prefix) && !IsAbs(rel)
    requires dir != "" && dir != "." && forall k :: 0 <= k < |dir| ==> dir[k] != '/'
    requires |Parts(prefix)| >= 1 && LeafAt(t, Parts(prefix)) == Some(n)
    requires forall j :: 0 < j < |Parts(prefix)| ==> LeafAt(t, Parts(prefix)[..j]).None?
    ensures LookupSpec(prefix + "/" + dir + "/" + rel, t) == Some((n, SrcToModuleName(Join("/", Parts(rel)))))
  {
    var ps := Parts(prefix);
    PartsOfInterfaceFile(prefix, dir, rel);
    var parts := ps + ([dir] + Parts(rel));
    FirstLeafOfPrefix(t, ps, n, [dir] + Parts(rel));
    assert Drop(parts, |ps| + 1) == Parts(rel);
  }

  /** The parts of `<prefix>/<dir>/<rel>`: the prefix's, then `dir`, then the relative path's. */
  lemma PartsOfInterfaceFile(prefix: string, dir: string, rel: string)
    requires prefix != "" && !IsAbs(prefix) && !IsAbs(rel)
    requires dir != "" && dir != "." && forall k :: 0 <= k < |dir| ==> dir[k] != '/'
    ensures Parts(prefix + "/" + dir + "/" + rel) == Parts(prefix) + ([dir] + Parts(rel))
  {
    assert prefix + "/" + dir + "/" + rel == prefix + "/" + (dir + "/" + rel);
    assert (dir + "/" + rel)[0] == dir[0];
    PartsConcat(prefix, dir + "/" + rel);
    PartsConcat(dir, rel);
    ComponentOnly(dir);
  }

  /**
   * After `calc_package_prefixes`, an interface file below the output prefix of the last
   * dependency registering that prefix resolves to that dependency, provided no dependency is
   * registered at a shorter non-empty prefix of it.
   */
  lemma RegisteredDependencyResolves(deps: seq<(string, string)>, i: nat, dir: string, rel: string)
    requires i < |deps| && deps[i].1 != "" && !IsAbs(deps[i].1) && !IsAbs(rel)
    requires |Parts(deps[i].1)| >= 1
    requires dir != "" && dir != "." && forall k :: 0 <= k < |dir| ==> dir[k] != '/'
    requires forall j :: i < j < |deps| ==> Parts(deps[j].1) != Parts(deps[i].1)
    requires forall j, k :: 0 <= j < |deps| && 0 < k < |Parts(deps[i].1)| ==> Parts(deps[j].1) != Parts(deps[i].1)[..k]
    ensures LookupSpec(deps[i].1 + "/" + dir + "/" + rel, Build(PrefixEntries(deps)))
         == Some((deps[i].0, SrcToModuleName(Join("/", Parts(rel)))))
  {
    var entries := PrefixEntries(deps);
    var ps := Parts(deps[i].1);
    BuildRegisters(entries, ps);
    LastRegisteredIs(entries, i);
    forall k | 0 < k < |ps| ensures LeafAt(Build(entries), ps[..k]).None? {
      BuildRegisters(entries, ps[..k]);
      Unregistered(entries, ps[..k]);
    }
    LookupBelowPrefix(Build(entries), deps[i].1, deps[i].0, dir, rel);
  }

  lemma {:induction false} LastRegisteredIs(entries: seq<(seq<string>, string)>, i: nat)
    requires i < |entries|
    requires forall j :: i < j < |entries| ==> entries[j].0 != entries[i].0
    ensures LastRegistered(entries, entries[i].0) == Some(entries[i].1)
    decreases |entries|
  {
    var n := |entries| - 1;
    if i < n {
      assert entries[..n][i] == entries[i];
      LastRegisteredIs(entries[..n], i);
    }
  }

  lemma {:induction false} Unregistered(entries: seq<(seq<string>, string)>, ps: seq<string>)
    requires forall j :: 0 <= j < |entries| ==> entries[j].0 != ps
    ensures LastRegistered(entries, ps).None?
    decreases |entries|
  {
    if entries != [] {
      var n := |entries| - 1;
      Unregistered(entries[..n], ps);
    }
  }

  /** A package registered at the empty prefix (the root layer) is never found by a lookup. */
  lemma RootRegistrationIgnored(t: Trie, id: string, parts: seq<string>)
    ensures FirstLeaf(Insert(t, [], id), parts) == FirstLeaf(t, parts)
  {
  }
}
