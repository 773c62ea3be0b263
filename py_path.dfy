/**
 * POSIX path handling from Python's standard library, written out on strings:
 * `os.path.splitext`, `os.path.isabs`, `os.path.dirname` and `pathlib.PurePosixPath(p).parts`.
 */
module PyPath {
  import opened Wrappers
  import opened PyStr

  /** The index of the last occurrence of `c`, as `s.rfind(c)` when it is not -1. */
  function LastIndexOf(s: string, c: char): (r: Option<nat>)
    ensures r.Some? ==> r.value < |s|
    decreases |s|
  {
    if |s| == 0 then None
    else if s[|s| - 1] == c then Some(|s| - 1)
    else LastIndexOf(s[..|s| - 1], c)
  }

  /** The search finds nothing exactly when `c` is absent, and otherwise an occurrence with none after it. */
  lemma {:induction false} LastIndexOfSpec(s: string, c: char)
    ensures LastIndexOf(s, c).None? <==> c !in s
    ensures LastIndexOf(s, c).Some? ==>
      var i := LastIndexOf(s, c).value;
      s[i] == c && c !in s[i + 1..]
    decreases |s|
  {
    if |s| > 0 && s[|s| - 1] != c {
      var t := s[..|s| - 1];
      LastIndexOfSpec(t, c);
      assert s == t + [s[|s| - 1]];
      var r := LastIndexOf(t, c);
      if r.Some? {
        assert s[r.value + 1..] == t[r.value + 1..] + [s[|s| - 1]];
      }
    }
  }

  /** `s.rfind(c)`: -1 when `c` does not occur. */
  function RFind(s: string, c: char): (r: int)
    ensures -1 <= r < |s|
  {
    match LastIndexOf(s, c)
    case None => -1
    case Some(i) => i
  }

  /** `s.rfind(c)` is an occurrence of `c` (or -1), and `c` does not occur after it. */
  lemma RFindSpec(s: string, c: char)
    ensures var r := RFind(s, c);
      && (r >= 0 ==> s[r] == c)
      && (forall k :: r < k < |s| ==> s[k] != c)
  {
    LastIndexOfSpec(s, c);
    var r := RFind(s, c);
    if r >= 0 {
      assert forall k :: r < k < |s| ==> s[k] in s[r + 1..];
    }
  }

  /**
   * `os.path.splitext(p)`: the extension runs from the last `.` of the final path component to
   * the end, unless that component holds nothing but dots before it (a "hidden" file name).
   */
  function SplitExt(p: string): (string, string) {
    var sepIndex := RFind(p, '/');
    var dotIndex := RFind(p, '.');
    if dotIndex > sepIndex && NonDotBetween(p, sepIndex, dotIndex) then
      (p[..dotIndex], p[dotIndex..])
    else
      (p, "")
  }

  /**
   * The two halves put back together give the path; a non-empty extension is a dot followed by
   * neither dots nor slashes, and the final component has a non-dot character before it.
   */
  lemma SplitExtParts(p: string)
    ensures var r := SplitExt(p);
      && r.0 + r.1 == p
      && (r.1 == [] || r.1[0] == '.')
      && (forall k :: 0 <= k < |r.1| ==> r.1[k] != '/')
      && (forall k :: 1 <= k < |r.1| ==> r.1[k] != '.')
      && (r.1 != [] ==> NonDotBetween(p, RFind(p, '/'), |r.0|))
  {
    RFindSpec(p, '/');
    RFindSpec(p, '.');
  }

  /** Some character strictly between positions `lo` and `hi` of `p` is not a dot. */
  predicate NonDotBetween(p: string, lo: int, hi: int)
    requires -1 <= lo && hi <= |p|
  {
    exists k :: lo < k < hi && p[k] != '.'
  }

  /** Appending `.ext` to a name that ends in an ordinary character makes `.ext` its extension. */
  lemma SplitExtOfAppend(base: string, ext: string)
    requires base != [] && base[|base| - 1] != '/' && base[|base| - 1] != '.'
    requires ext != [] && ext[0] == '.'
    requires forall k :: 0 <= k < |ext| ==> ext[k] != '/'
    requires forall k :: 1 <= k < |ext| ==> ext[k] != '.'
    ensures SplitExt(base + ext) == (base, ext)
  {
    var p := base + ext;
    RFindSpec(p, '/');
    RFindSpec(p, '.');
    assert p[|base|] == '.';
    assert forall k :: |base| < k < |p| ==> p[k] == ext[k - |base|];
    assert RFind(p, '.') == |base|;
    var s := RFind(p, '/');
    assert p[|base| - 1] != '/';
    assert s < |base| - 1;
    assert NonDotBetween(p, s, |base|) by {
      assert p[|base| - 1] != '.';
    }
    assert p[..|base|] == base;
  }

  /** `os.path.isabs(p)` on POSIX. */
  predicate IsAbs(p: string) {
    |p| > 0 && p[0] == '/'
  }

  /** `os.path.dirname(p)`: everything before the last `/`, trailing slashes dropped unless all slashes. */
  function Dirname(p: string): (r: string)
    ensures |r| <= |p| && r == p[..|r|]
    ensures '/' !in p ==> r == ""
  {
    RFindSpec(p, '/');
    var i := RFind(p, '/') + 1;
    var head := p[..i];
    if head != [] && exists k :: 0 <= k < |head| && head[k] != '/' then TrimEnd(head, x => x == '/') else head
  }

  /** The components of a relative path: the pieces between slashes, without empty ones and `.`. */
  function Components(rel: string): seq<string> {
    KeepComponents(SplitOn(rel, '/'))
  }

  function KeepComponents(pieces: seq<string>): seq<string>
    decreases |pieces|
  {
    if pieces == [] then []
    else
      var rest := KeepComponents(pieces[1..]);
      if pieces[0] == "" || pieces[0] == "." then rest else [pieces[0]] + rest
  }

  /** Every entry is a proper path component: not empty, not `.`, and without a slash. */
  predicate ProperComponents(r: seq<string>) {
    forall i :: 0 <= i < |r| ==> r[i] != "" && r[i] != "." && '/' !in r[i]
  }

  /** A kept component is never empty or `.`, and holds no slash when the pieces hold none. */
  lemma {:induction false} KeepComponentsSpec(pieces: seq<string>)
    requires forall i :: 0 <= i < |pieces| ==> '/' !in pieces[i]
    ensures ProperComponents(KeepComponents(pieces))
    decreases |pieces|
  {
    if pieces != [] {
      KeepComponentsSpec(pieces[1..]);
      var rest := KeepComponents(pieces[1..]);
      if pieces[0] != "" && pieces[0] != "." {
        assert '/' !in pieces[0];
        var r := [pieces[0]] + rest;
        forall i | 0 <= i < |r| ensures r[i] != "" && r[i] != "." && '/' !in r[i] {
          if i > 0 {
            assert r[i] == rest[i - 1];
          }
        }
      }
    }
  }

  /** The components of a path are non-empty, not `.`, and free of slashes. */
  lemma ComponentsSpec(rel: string)
    ensures ProperComponents(Components(rel))
  {
    var pieces := SplitOn(rel, '/');
    SplitOnSpec(rel, '/');
    KeepComponentsSpec(pieces);
  }

  /**
   * `PurePosixPath(p).parts`: a root (`/`, or `//` for exactly two leading slashes) followed by
   * the components of the rest of the path.
   */
  function Parts(p: string): (r: seq<string>)
    ensures IsAbs(p) ==> |r| > 0 && (r[0] == "/" || r[0] == "//")
  {
    if !IsAbs(p) then Components(p)
    else if |p| >= 2 && p[1] == '/' && !(|p| >= 3 && p[2] == '/') then ["//"] + Components(p[2..])
    else ["/"] + Components(p[1..])
  }

  /** After the root, every part is a proper component. */
  lemma PartsSpec(p: string)
    ensures ProperComponents(if IsAbs(p) then Parts(p)[1..] else Parts(p))
  {
    if !IsAbs(p) {
      ComponentsSpec(p);
    } else if |p| >= 2 && p[1] == '/' && !(|p| >= 3 && p[2] == '/') {
      ComponentsSpec(p[2..]);
    } else {
      ComponentsSpec(p[1..]);
    }
  }

  lemma {:induction false} SplitOnAppend(a: string, b: string, c: char)
    requires c !in a
    ensures SplitOn(a + [c] + b, c) == [a] + SplitOn(b, c)
  {
    var s := a + [c] + b;
    assert s[|a|] == c && s[..|a|] == a && s[|a| + 1..] == b;
    assert IndexOf(s, c) == Some(|a|) by {
      var r := IndexOf(s, c);
      assert c in s;
    }
  }

  lemma {:induction false} SplitOnConcat(a: string, b: string, c: char)
    ensures SplitOn(a + [c] + b, c) == SplitOn(a, c) + SplitOn(b, c)
    decreases |a|
  {
    match IndexOf(a, c)
    case None =>
      SplitOnAppend(a, b, c);
    case Some(i) =>
      var a1, a2 := a[..i], a[i + 1..];
      CutAt(a, i, b, c);
      SplitOnAppend(a1, a2 + [c] + b, c);
      SplitOnAppend(a1, a2, c);
      SplitOnConcat(a2, b, c);
      ConcatAssoc([a1], SplitOn(a2, c), SplitOn(b, c));
  }

  lemma ConcatAssoc<T>(x: seq<T>, y: seq<T>, z: seq<T>)
    ensures x + (y + z) == (x + y) + z
  {
  }

  lemma CutAt(a: string, i: nat, b: string, c: char)
    requires i < |a| && a[i] == c
    ensures a == a[..i] + [c] + a[i + 1..]
    ensures a + [c] + b == a[..i] + [c] + (a[i + 1..] + [c] + b)
  {
    assert a == a[..i] + [c] + a[i + 1..];
  }

  lemma {:induction false} KeepComponentsConcat(x: seq<string>, y: seq<string>)
    ensures KeepComponents(x + y) == KeepComponents(x) + KeepComponents(y)
    decreases |x|
  {
    if x != [] {
      assert (x + y)[1..] == x[1..] + y;
      KeepComponentsConcat(x[1..], y);
    } else {
      assert x + y == y;
    }
  }

  /** Joining two relative paths with `/` concatenates their components. */
  lemma ComponentsConcat(a: string, b: string)
    ensures Components(a + "/" + b) == Components(a) + Components(b)
  {
    SplitOnConcat(a, b, '/');
    KeepComponentsConcat(SplitOn(a, '/'), SplitOn(b, '/'));
  }

  /** A relative path with a further relative tail: its parts are the prefix's parts, then the tail's. */
  lemma PartsConcat(a: string, b: string)
    requires a != "" && !IsAbs(a) && !IsAbs(b)
    ensures Parts(a + "/" + b) == Parts(a) + Parts(b)
  {
    assert (a + "/" + b)[0] == a[0];
    ComponentsConcat(a, b);
  }
}
