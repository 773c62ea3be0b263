/**
 * Module names derived from paths, shared by both generations of the Haskell target-metadata
 * tool: `src_to_module_name`, `is_haskell_src`, `is_haskell_boot`, `strip_prefix`,
 * `strip_prefix_` and the "apparent" module name of a source below the source prefix.
 */
module HaskellNames {
  import opened Wrappers
  import opened PyStr
  import opened PyPath

  /** `HASKELL_EXTENSIONS` */
  const HaskellExtensions: seq<string> := [".hs", ".lhs", ".hsc", ".chs", ".x", ".y"]

  /** `HASKELL_BOOT_EXTENSIONS` */
  const HaskellBootExtensions: seq<string> := [".hs-boot", ".lhs-boot"]

  /** `src_to_module_name(x)`: the path without its extension, with every `/` turned into `.`. */
  function SrcToModuleName(x: string): string {
    ReplaceChar(SplitExt(x).0, '/', '.')
  }

  /** A module name is as long as the path without its extension and holds no `/`. */
  lemma ModuleNameShape(x: string)
    ensures |SrcToModuleName(x)| == |SplitExt(x).0|
    ensures '/' !in SrcToModuleName(x)
  {
    var r := SrcToModuleName(x);
    forall i | 0 <= i < |r| ensures r[i] != '/' {
    }
  }

  /** `is_haskell_src(x)` */
  predicate IsHaskellSrc(x: string) {
    SplitExt(x).1 in HaskellExtensions
  }

  /** `is_haskell_boot(x)` */
  predicate IsHaskellBoot(x: string) {
    SplitExt(x).1 in HaskellBootExtensions
  }

  /** `list(filter(is_haskell_src, vs))` */
  function HaskellSources(vs: seq<string>): seq<string>
    decreases |vs|
  {
    if vs == [] then []
    else (if IsHaskellSrc(vs[0]) then [vs[0]] else []) + HaskellSources(vs[1..])
  }

  /** `list(filter(is_haskell_boot, vs))` */
  function BootSources(vs: seq<string>): seq<string>
    decreases |vs|
  {
    if vs == [] then []
    else (if IsHaskellBoot(vs[0]) then [vs[0]] else []) + BootSources(vs[1..])
  }

  /** The source filter keeps exactly the Haskell sources among `vs`. */
  lemma {:induction false} HaskellSourcesMembers(vs: seq<string>)
    ensures forall x :: x in HaskellSources(vs) <==> x in vs && IsHaskellSrc(x)
    ensures |HaskellSources(vs)| <= |vs|
    decreases |vs|
  {
    if vs != [] {
      HaskellSourcesMembers(vs[1..]);
      assert vs == [vs[0]] + vs[1..];
    }
  }

  /** The boot filter keeps exactly the Haskell boot files among `vs`. */
  lemma {:induction false} BootSourcesMembers(vs: seq<string>)
    ensures forall x :: x in BootSources(vs) <==> x in vs && IsHaskellBoot(x)
    ensures |BootSources(vs)| <= |vs|
    decreases |vs|
  {
    if vs != [] {
      BootSourcesMembers(vs[1..]);
      assert vs == [vs[0]] + vs[1..];
    }
  }

  /** No boot file survives the source filter and no source the boot filter. */
  lemma FiltersDisjoint(vs: seq<string>)
    ensures forall x :: x in HaskellSources(vs) ==> x !in BootSources(vs)
  {
    HaskellSourcesMembers(vs);
    BootSourcesMembers(vs);
    forall x | x in HaskellSources(vs) ensures x !in BootSources(vs) {
      SourceAndBootDisjoint(x);
    }
  }

  /** `strip_prefix(prefix, s)`: `s` without `prefix`, or `None` when `s` does not start with it. */
  function StripPrefix(prefix: string, s: string): (r: Option<string>)
    ensures r.Some? <==> prefix <= s
    ensures r.Some? ==> prefix + r.value == s
  {
    if prefix <= s then Some(s[|prefix|..]) else None
  }

  /** `strip_prefix_(prefix, s)`: `s` without `prefix`, or `s` itself when it does not start with it. */
  function StripPrefixOr(prefix: string, s: string): (r: string)
    ensures prefix <= s ==> prefix + r == s
    ensures !(prefix <= s) ==> r == s
  {
    match StripPrefix(prefix, s)
    case None => s
    case Some(t) => t
  }

  /**
   * The module name a source file's path implies:
   * `src_to_module_name(strip_prefix_(source_prefix, src).lstrip("/"))`.
   */
  function ApparentModuleName(sourcePrefix: string, src: string): string {
    SrcToModuleName(LStripChar(StripPrefixOr(sourcePrefix, src), '/'))
  }

  /** A well-formed extension: a dot, then characters that are neither `.` nor `/`. */
  predicate IsExtension(e: string) {
    e != [] && e[0] == '.'
    && (forall k :: 0 <= k < |e| ==> e[k] != '/')
    && (forall k :: 1 <= k < |e| ==> e[k] != '.')
  }

  /** A module path whose last character is neither `/` nor `.`, so an appended extension is its own. */
  predicate IsStem(b: string) {
    b != [] && b[|b| - 1] != '/' && b[|b| - 1] != '.'
  }

  /** `Foo/Util` + `.o` names the module `Foo.Util`: the extension is dropped, directories become dots. */
  lemma ModuleNameOfFile(b: string, e: string)
    requires IsStem(b) && IsExtension(e)
    ensures SrcToModuleName(b + e) == ReplaceChar(b, '/', '.')
  {
    SplitExtOfAppend(b, e);
  }

  /** The example in the tool's comments: `Foo/Util.o` is the module `Foo.Util`. */
  lemma ModuleNameExample(p: string)
    requires p == "Foo/Util.o"
    ensures SrcToModuleName(p) == "Foo.Util"
  {
    NamedAs(p, "Foo/Util", ".o", "Foo.Util");
  }

  /** A concrete `b + e` names `m` when `m` is `b` with its slashes turned into dots. */
  lemma NamedAs(p: string, b: string, e: string, m: string)
    requires p == b + e && IsStem(b) && IsExtension(e)
    requires |b| == |m|
    requires forall i :: 0 <= i < |b| ==> m[i] == (if b[i] == '/' then '.' else b[i])
    ensures SrcToModuleName(p) == m
  {
    ModuleNameOfFile(b, e);
    assert ReplaceChar(b, '/', '.') == m;
  }

  /** A file counts as a Haskell source exactly when its extension is one of the six listed. */
  lemma HaskellSrcOfFile(b: string, e: string)
    requires IsStem(b) && IsExtension(e)
    ensures IsHaskellSrc(b + e) <==> e in HaskellExtensions
    ensures IsHaskellBoot(b + e) <==> e in HaskellBootExtensions
  {
    SplitExtOfAppend(b, e);
  }

  /** No path is both a Haskell source and a Haskell boot file. */
  lemma SourceAndBootDisjoint(x: string)
    ensures !(IsHaskellSrc(x) && IsHaskellBoot(x))
  {
    if IsHaskellSrc(x) {
      var e := SplitExt(x).1;
      assert e in HaskellExtensions;
      assert |e| <= 4;
    }
  }

  /** Module names are not injective on paths: `Foo/Bar.hs` and `Foo.Bar.hs` both name `Foo.Bar`. */
  lemma ModuleNameNotInjective(p1: string, p2: string)
    requires p1 == "Foo/Bar.hs" && p2 == "Foo.Bar.hs"
    ensures p1 != p2 && SrcToModuleName(p1) == SrcToModuleName(p2) == "Foo.Bar"
  {
    assert p1[3] != p2[3];
    NamedAs(p1, "Foo/Bar", ".hs", "Foo.Bar");
    NamedAs(p2, "Foo.Bar", ".hs", "Foo.Bar");
  }

  /** Nor on extensions: `A.hs` and `A.lhs` both name `A`. */
  lemma ModuleNameIgnoresExtension(p1: string, p2: string)
    requires p1 == "A.hs" && p2 == "A.lhs"
    ensures p1 != p2 && SrcToModuleName(p1) == SrcToModuleName(p2) == "A"
  {
    assert |p1| != |p2|;
    NamedAs(p1, "A", ".hs", "A");
    NamedAs(p2, "A", ".lhs", "A");
  }

  /**
   * On paths without dots in their directory and base names, sharing an extension, the module
   * name determines the path.
   */
  lemma ModuleNameInjectiveWithoutDots(b1: string, b2: string, e: string)
    requires IsStem(b1) && IsStem(b2) && IsExtension(e)
    requires forall k :: 0 <= k < |b1| ==> b1[k] != '.'
    requires forall k :: 0 <= k < |b2| ==> b2[k] != '.'
    requires SrcToModuleName(b1 + e) == SrcToModuleName(b2 + e)
    ensures b1 == b2
  {
    ModuleNameOfFile(b1, e);
    ModuleNameOfFile(b2, e);
    var r1, r2 := ReplaceChar(b1, '/', '.'), ReplaceChar(b2, '/', '.');
    assert |b1| == |b2|;
    forall k | 0 <= k < |b1| ensures b1[k] == b2[k] {
      assert r1[k] == r2[k];
    }
  }

  /** A source below the source prefix is named by its path relative to the prefix. */
  lemma ApparentNameBelowPrefix(prefix: string, rel: string)
    requires rel == [] || rel[0] != '/'
    ensures ApparentModuleName(prefix, prefix + "/" + rel) == SrcToModuleName(rel)
  {
    var s := prefix + "/" + rel;
    assert prefix <= s;
    assert StripPrefixOr(prefix, s) == "/" + rel;
    var t := LStripChar("/" + rel, '/');
    assert TrimStart(("/" + rel)[1..], x => x == '/') == t;
    assert ("/" + rel)[1..] == rel;
  }
}
