/**
 * The Python `str` and `list` built-ins the tools rely on, written out on `seq<char>`:
 * `isspace`, `strip`/`lstrip`/`rstrip`, `startswith`/`endswith`, `in`, `split`, `join`,
 * `str.replace` of one character, and `sorted` under Python's code-point ordering.
 */
module PyStr {
  import opened Wrappers

  /** Python's `str.isspace()` for one character. */
  predicate IsSpace(c: char) {
    var n := c as int;
    n == 0x20 || 0x09 <= n <= 0x0d || 0x1c <= n <= 0x1f || n == 0x85 || n == 0xa0
    || n == 0x1680 || 0x2000 <= n <= 0x200a || n == 0x2028 || n == 0x2029
    || n == 0x202f || n == 0x205f || n == 0x3000
  }

  /** `s.endswith(suffix)` */
  predicate EndsWith(s: string, suffix: string) {
    |suffix| <= |s| && s[|s| - |suffix|..] == suffix
  }

  /** `sub in s` for strings: `sub` occurs in `s` at some position. */
  predicate Contains(s: string, sub: string)
    decreases |s|
  {
    sub <= s || (|s| > 0 && Contains(s[1..], sub))
  }

  lemma {:induction false} ContainsAt(s: string, sub: string, i: nat)
    requires i + |sub| <= |s| && s[i..i + |sub|] == sub
    ensures Contains(s, sub)
    decreases i
  {
    if i == 0 {
      assert sub <= s;
    } else {
      assert s[1..][i - 1..i - 1 + |sub|] == sub;
      ContainsAt(s[1..], sub, i - 1);
    }
  }

  /** Drops the leading characters satisfying `drop` (`lstrip`). */
  function TrimStart(s: string, drop: char -> bool): (r: string)
    ensures |r| <= |s| && r == s[|s| - |r|..]
    decreases |s|
  {
    if |s| > 0 && drop(s[0]) then TrimStart(s[1..], drop) else s
  }

  /** Characters dropped from the front stop at the first one `drop` rejects. */
  lemma {:induction false} TrimStartLeading(w: string, s: string, drop: char -> bool)
    requires forall i :: 0 <= i < |w| ==> drop(w[i])
    requires s == [] || !drop(s[0])
    ensures TrimStart(w + s, drop) == s
    decreases |w|
  {
    if w == [] {
      assert w + s == s;
    } else {
      TailOfConcat(w, s);
      TrimStartLeading(w[1..], s, drop);
    }
  }

  /** Everything dropped from the front satisfies `drop`, and what is left does not start with such a character. */
  lemma {:induction false} TrimStartSpec(s: string, drop: char -> bool)
    ensures var r := TrimStart(s, drop);
      && (forall i :: 0 <= i < |s| - |r| ==> drop(s[i]))
      && (r == [] || !drop(r[0]))
    decreases |s|
  {
    if |s| > 0 && drop(s[0]) {
      TrimStartSpec(s[1..], drop);
      var r := TrimStart(s, drop);
      forall i | 0 <= i < |s| - |r| ensures drop(s[i]) {
        if i > 0 {
          assert s[i] == s[1..][i - 1];
        }
      }
    }
  }

  /** Drops the trailing characters satisfying `drop` (`rstrip`). */
  function TrimEnd(s: string, drop: char -> bool): (r: string)
    ensures |r| <= |s| && r == s[..|r|]
    decreases |s|
  {
    if |s| > 0 && drop(s[|s| - 1]) then TrimEnd(s[..|s| - 1], drop) else s
  }

  /** Characters dropped from the back stop at the last one `drop` rejects. */
  lemma {:induction false} TrimEndTrailing(s: string, w: string, drop: char -> bool)
    requires forall i :: 0 <= i < |w| ==> drop(w[i])
    requires s == [] || !drop(s[|s| - 1])
    ensures TrimEnd(s + w, drop) == s
    decreases |w|
  {
    if w == [] {
      assert s + w == s;
    } else {
      var n := |w| - 1;
      assert (s + w)[..|s + w| - 1] == s + w[..n];
      TrimEndTrailing(s, w[..n], drop);
    }
  }

  /** Everything dropped from the back satisfies `drop`, and what is left does not end with such a character. */
  lemma {:induction false} TrimEndSpec(s: string, drop: char -> bool)
    ensures var r := TrimEnd(s, drop);
      && (forall i :: |r| <= i < |s| ==> drop(s[i]))
      && (r == [] || !drop(r[|r| - 1]))
    decreases |s|
  {
    if |s| > 0 && drop(s[|s| - 1]) {
      TrimEndSpec(s[..|s| - 1], drop);
      var r := TrimEnd(s, drop);
      forall i | |r| <= i < |s| ensures drop(s[i]) {
        if i < |s| - 1 {
          assert s[i] == s[..|s| - 1][i];
        }
      }
    }
  }

  /** `s.strip()`: leading and trailing whitespace removed. */
  function Strip(s: string): string {
    TrimEnd(TrimStart(s, IsSpace), IsSpace)
  }

  /** `s.rstrip()` */
  function RStrip(s: string): string {
    TrimEnd(s, IsSpace)
  }

  /** `s.strip(chars)`, the characters to remove given as a predicate. */
  function StripChars(s: string, drop: char -> bool): string {
    TrimEnd(TrimStart(s, drop), drop)
  }

  /** `s.lstrip(c)` for a one-character argument. */
  function LStripChar(s: string, c: char): string {
    TrimStart(s, x => x == c)
  }

  /** A string with no surrounding whitespace is its own `strip()`. */
  lemma StripOfStripped(s: string)
    requires s == [] || (!IsSpace(s[0]) && !IsSpace(s[|s| - 1]))
    ensures Strip(s) == s
  {
  }

  /** `strip()` removes only whitespace, so every other character stays. */
  lemma StripKeeps(s: string, i: nat)
    requires i < |s| && !IsSpace(s[i])
    ensures s[i] in Strip(s)
  {
    var a := TrimStart(s, IsSpace);
    TrimStartSpec(s, IsSpace);
    var m := |s| - |a|;
    assert a[i - m] == s[i];
    var b := TrimEnd(a, IsSpace);
    TrimEndSpec(a, IsSpace);
    assert b[i - m] == s[i];
  }

  /** Whitespace in front of a stripped, non-empty string is removed by `strip()`. */
  lemma {:induction false} StripLeadingSpace(w: string, s: string)
    requires forall i :: 0 <= i < |w| ==> IsSpace(w[i])
    requires s != [] && !IsSpace(s[0]) && !IsSpace(s[|s| - 1])
    ensures Strip(w + s) == s
    decreases |w|
  {
    if w == [] {
      assert w + s == s;
    } else {
      assert (w + s)[1..] == w[1..] + s;
      StripLeadingSpace(w[1..], s);
    }
  }

  /** The index of the first occurrence of `c`, as `s.find(c)` when it is not -1. */
  function IndexOf(s: string, c: char): (r: Option<nat>)
    ensures r.None? <==> c !in s
    ensures r.Some? ==> r.value < |s| && s[r.value] == c && c !in s[..r.value]
    decreases |s|
  {
    if |s| == 0 then None
    else if s[0] == c then Some(0)
    else match IndexOf(s[1..], c)
      case None => None
      case Some(i) => Some(i + 1)
  }

  /** `i` is the first occurrence of `c` when `c` is there and nowhere before it. */
  lemma IndexOfAt(s: string, c: char, i: nat)
    requires i < |s| && s[i] == c && c !in s[..i]
    ensures IndexOf(s, c) == Some(i)
  {
    assert c in s;
  }

  /** `sub` occurs in `s` starting at index `j`. */
  predicate OccursAt(s: string, sub: string, j: nat) {
    j + |sub| <= |s| && s[j..j + |sub|] == sub
  }

  /** `[f(x) for x in xs]` */
  function MapEach<A, B>(xs: seq<A>, f: A -> B): (r: seq<B>)
    ensures |r| == |xs|
    decreases |xs|
  {
    if xs == [] then []
    else
      var n := |xs| - 1;
      MapEach(xs[..n], f) + [f(xs[n])]
  }

  /** The `i`-th result is `f` of the `i`-th element. */
  lemma {:induction false} MapEachAt<A, B>(xs: seq<A>, f: A -> B, i: nat)
    requires i < |xs|
    ensures MapEach(xs, f)[i] == f(xs[i])
    decreases |xs|
  {
    var n := |xs| - 1;
    if i < n {
      MapEachAt(xs[..n], f, i);
    }
  }

  /** Mapping one more element appends its image. */
  lemma MapEachSnoc<A, B>(xs: seq<A>, x: A, f: A -> B)
    ensures MapEach(xs + [x], f) == MapEach(xs, f) + [f(x)]
  {
    assert (xs + [x])[..|xs|] == xs;
  }

  /** Mapping a concatenation maps each part. */
  lemma {:induction false} MapEachConcat<A, B>(xs: seq<A>, ys: seq<A>, f: A -> B)
    ensures MapEach(xs + ys, f) == MapEach(xs, f) + MapEach(ys, f)
    decreases |ys|
  {
    if ys == [] {
      assert xs + ys == xs;
    } else {
      var n := |ys| - 1;
      assert xs + ys == (xs + ys[..n]) + [ys[n]];
      assert ys == ys[..n] + [ys[n]];
      MapEachSnoc(xs + ys[..n], ys[n], f);
      MapEachSnoc(ys[..n], ys[n], f);
      MapEachConcat(xs, ys[..n], f);
    }
  }

  /** Mapping twice is mapping once with the composite, where the two agree on every element. */
  lemma {:induction false} MapEachCompose<A, B, C>(xs: seq<A>, f: A -> B, g: B -> C, h: A -> C)
    requires forall k :: 0 <= k < |xs| ==> g(f(xs[k])) == h(xs[k])
    ensures MapEach(MapEach(xs, f), g) == MapEach(xs, h)
    decreases |xs|
  {
    if xs != [] {
      var n := |xs| - 1;
      MapEachCompose(xs[..n], f, g, h);
    }
  }

  /** Mapping a list of three. */
  lemma MapEachThree<A, B>(a: A, b: A, c: A, f: A -> B)
    ensures MapEach([a, b, c], f) == [f(a), f(b), f(c)]
  {
    MapEachSnoc([a, b], c, f);
    MapEachSnoc([a], b, f);
    MapEachSnoc([], a, f);
    assert [] + [a] == [a] && [a] + [b] == [a, b] && [a, b] + [c] == [a, b, c];
  }

  /** Mapping a prefix gives the prefix of the mapped list. */
  lemma {:induction false} MapEachPrefix<A, B>(xs: seq<A>, f: A -> B, i: nat)
    requires i <= |xs|
    ensures MapEach(xs[..i], f) == MapEach(xs, f)[..i]
    decreases |xs|
  {
    if i < |xs| {
      var n := |xs| - 1;
      assert xs[..n][..i] == xs[..i];
      MapEachPrefix(xs[..n], f, i);
    } else {
      assert xs[..i] == xs;
    }
  }

  /** Two dictionaries with the same keys and the same value at every key are equal. */
  lemma MapExt<K, V>(a: map<K, V>, b: map<K, V>)
    requires a.Keys == b.Keys
    requires forall k :: k in a ==> a[k] == b[k]
    ensures a == b
  {
  }

  /** Cutting a list to `i + 1` elements and then to `i` is cutting it to `i`. */
  lemma PrefixOfPrefix<T>(s: seq<T>, i: nat)
    requires i < |s|
    ensures s[..i + 1][..i] == s[..i]
  {
  }

  /** Dropping the head of a concatenation drops the head of its first part. */
  lemma TailOfConcat<T>(a: seq<T>, b: seq<T>)
    requires a != []
    ensures (a + b)[1..] == a[1..] + b
  {
  }

  /** Cutting a concatenation inside its second part. */
  lemma PrefixOfConcat<T>(a: seq<T>, b: seq<T>, n: nat)
    requires n < |b|
    ensures (a + b)[..|a| + n] == a + b[..n]
    ensures (a + b)[|a| + n] == b[n]
  {
  }

  /** A non-empty list is its front followed by its last element. */
  lemma FrontAndLast<T>(s: seq<T>)
    requires s != []
    ensures s[..|s| - 1] + [s[|s| - 1]] == s
  {
  }

  /** The prefix as long as the list is the list. */
  lemma FullPrefix<T>(s: seq<T>)
    ensures s[..|s|] == s
  {
  }

  lemma SliceOfTail(s: string, j: nat, n: nat)
    requires 0 < j && j + n <= |s|
    ensures s[j..j + n] == s[1..][j - 1..j - 1 + n]
  {
    var a, b := s[j..j + n], s[1..][j - 1..j - 1 + n];
    assert |a| == |b|;
    forall k | 0 <= k < n ensures a[k] == b[k] {
      assert a[k] == s[j + k];
      assert b[k] == s[1..][j - 1 + k];
    }
  }

  /** The index of the first occurrence of the non-empty `sub`, as `s.find(sub)`. */
  function Find(s: string, sub: string): (r: Option<nat>)
    requires |sub| > 0
    ensures r.Some? ==> OccursAt(s, sub, r.value)
    ensures r.Some? ==> forall j: nat :: j < r.value ==> !OccursAt(s, sub, j)
    ensures r.None? ==> forall j: nat :: !OccursAt(s, sub, j)
    decreases |s|
  {
    if |s| < |sub| then None
    else if sub <= s then Some(0)
    else
      var r := Find(s[1..], sub);
      assert forall j: nat :: 0 < j ==> (OccursAt(s, sub, j) <==> OccursAt(s[1..], sub, j - 1)) by {
        forall j: nat | 0 < j ensures OccursAt(s, sub, j) <==> OccursAt(s[1..], sub, j - 1) {
          if j + |sub| <= |s| {
            SliceOfTail(s, j, |sub|);
          }
        }
      }
      match r
      case None => None
      case Some(i) => Some(i + 1)
  }

  /** `sep.join(parts)` */
  function Join(sep: string, parts: seq<string>): string
    decreases |parts|
  {
    if |parts| == 0 then ""
    else if |parts| == 1 then parts[0]
    else parts[0] + sep + Join(sep, parts[1..])
  }

  /** `s.split(c)` for a one-character separator. */
  function SplitOn(s: string, c: char): (r: seq<string>)
    ensures |r| >= 1
    decreases |s|
  {
    match IndexOf(s, c)
    case None => [s]
    case Some(i) => [s[..i]] + SplitOn(s[i + 1..], c)
  }

  /** No piece holds the separator, and joining the pieces with it gives back the string. */
  lemma {:induction false} SplitOnSpec(s: string, c: char)
    ensures forall i :: 0 <= i < |SplitOn(s, c)| ==> c !in SplitOn(s, c)[i]
    ensures Join([c], SplitOn(s, c)) == s
    decreases |s|
  {
    match IndexOf(s, c)
    case None =>
    case Some(i) =>
      SplitOnSpec(s[i + 1..], c);
      assert s == s[..i] + [c] + s[i + 1..];
      var r := SplitOn(s, c);
      forall j | 0 <= j < |r| ensures c !in r[j] {
        if j > 0 {
          assert r[j] == SplitOn(s[i + 1..], c)[j - 1];
        }
      }
  }

  /** `s.split(sep)` for a non-empty separator string (non-overlapping, left to right). */
  function SplitSep(s: string, sep: string): (r: seq<string>)
    requires |sep| > 0
    ensures |r| >= 1
    ensures Join(sep, r) == s
    decreases |s|
  {
    match Find(s, sep)
    case None => [s]
    case Some(i) =>
      assert s == s[..i] + sep + s[i + |sep|..];
      [s[..i]] + SplitSep(s[i + |sep|..], sep)
  }

  /** The length of the run of non-whitespace characters that starts `s`. */
  function WordLength(s: string): (n: nat)
    ensures n <= |s| && (n == |s| || IsSpace(s[n]))
    ensures forall k :: 0 <= k < n ==> !IsSpace(s[k])
    decreases |s|
  {
    if |s| == 0 || IsSpace(s[0]) then 0 else 1 + WordLength(s[1..])
  }

  /** `s.split()` with no argument: the maximal runs of non-whitespace characters. */
  function Words(s: string): (r: seq<string>)
    ensures forall i :: 0 <= i < |r| ==> |r[i]| > 0
    ensures forall i, k :: 0 <= i < |r| && 0 <= k < |r[i]| ==> !IsSpace(r[i][k])
    decreases |s|
  {
    if s == [] then []
    else if IsSpace(s[0]) then Words(s[1..])
    else
      var n := WordLength(s);
      [s[..n]] + Words(s[n..])
  }

  /** `s.replace(a, b)` for one-character arguments. */
  function ReplaceChar(s: string, a: char, b: char): (r: string)
    ensures |r| == |s|
    ensures forall i :: 0 <= i < |s| ==> r[i] == (if s[i] == a then b else s[i])
  {
    seq(|s|, i requires 0 <= i < |s| => if s[i] == a then b else s[i])
  }

  /** Python's `<=` on `str`: lexicographic by code point, a proper prefix first. */
  predicate LessEq(a: string, b: string)
    decreases |a|
  {
    if |a| == 0 then true
    else if |b| == 0 then false
    else if a[0] != b[0] then a[0] < b[0]
    else LessEq(a[1..], b[1..])
  }

  lemma LessEqReflexive(a: string)
    ensures LessEq(a, a)
    decreases |a|
  {
    if |a| > 0 {
      LessEqReflexive(a[1..]);
    }
  }

  lemma LessEqTotal(a: string, b: string)
    ensures LessEq(a, b) || LessEq(b, a)
    decreases |a|
  {
    if |a| > 0 && |b| > 0 && a[0] == b[0] {
      LessEqTotal(a[1..], b[1..]);
    }
  }

  lemma LessEqTransitive(a: string, b: string, c: string)
    requires LessEq(a, b) && LessEq(b, c)
    ensures LessEq(a, c)
    decreases |a|
  {
    if |a| > 0 && |b| > 0 && |c| > 0 && a[0] == b[0] == c[0] {
      LessEqTransitive(a[1..], b[1..], c[1..]);
    }
  }

  lemma LessEqAntisymmetric(a: string, b: string)
    requires LessEq(a, b) && LessEq(b, a)
    ensures a == b
    decreases |a|
  {
    if |a| > 0 && |b| > 0 {
      LessEqAntisymmetric(a[1..], b[1..]);
      assert a == [a[0]] + a[1..] && b == [b[0]] + b[1..];
    }
  }

  predicate IsSorted(s: seq<string>) {
    forall i, j :: 0 <= i < j < |s| ==> LessEq(s[i], s[j])
  }

  /** A sorted list stays sorted with a lower bound of all its elements in front. */
  lemma SortedCons(a: string, t: seq<string>)
    requires IsSorted(t)
    requires forall y :: y in multiset(t) ==> LessEq(a, y)
    ensures IsSorted([a] + t)
  {
    forall i, j | 0 <= i < j < |[a] + t| ensures LessEq(([a] + t)[i], ([a] + t)[j]) {
      assert t[j - 1] in multiset(t);
    }
  }

  /** The head of a sorted list is a lower bound of it with an element above the head added. */
  lemma HeadBoundsInsert(x: string, s: seq<string>, t: seq<string>)
    requires IsSorted(s) && s != [] && LessEq(s[0], x)
    requires multiset(t) == multiset(s[1..]) + multiset{x}
    ensures forall y :: y in multiset(t) ==> LessEq(s[0], y)
  {
    forall y | y in multiset(t) ensures LessEq(s[0], y) {
      if y != x {
        assert y in multiset(s[1..]);
        var j :| 0 <= j < |s[1..]| && s[1..][j] == y;
        assert s[j + 1] == y;
      }
    }
  }

  /** Puts `x` into the sorted `s` in front of the first element above it. */
  function InsertSorted(x: string, s: seq<string>): (r: seq<string>)
    requires IsSorted(s)
    ensures IsSorted(r)
    ensures multiset(r) == multiset(s) + multiset{x}
    decreases |s|
  {
    if s == [] then [x]
    else if LessEq(x, s[0]) then
      assert forall y :: y in multiset(s) ==> LessEq(x, y) by {
        forall y | y in multiset(s) ensures LessEq(x, y) {
          var j :| 0 <= j < |s| && s[j] == y;
          if j > 0 { LessEqTransitive(x, s[0], s[j]); }
        }
      }
      SortedCons(x, s);
      [x] + s
    else
      LessEqTotal(x, s[0]);
      var t := InsertSorted(x, s[1..]);
      assert s == [s[0]] + s[1..];
      HeadBoundsInsert(x, s, t);
      SortedCons(s[0], t);
      [s[0]] + t
  }

  /** Python's `sorted(xs)` on a list of strings. */
  function SortStrings(xs: seq<string>): (r: seq<string>)
    ensures IsSorted(r)
    ensures multiset(r) == multiset(xs)
    decreases |xs|
  {
    if xs == [] then []
    else
      assert xs == [xs[0]] + xs[1..];
      InsertSorted(xs[0], SortStrings(xs[1..]))
  }

  lemma HeadIsLeast(s: seq<string>, x: string)
    requires IsSorted(s) && x in multiset(s)
    ensures |s| > 0 && LessEq(s[0], x)
  {
    var i :| 0 <= i < |s| && s[i] == x;
    if i == 0 {
      LessEqReflexive(x);
    }
  }

  /** Two sorted lists with the same elements are equal: `sorted` has one answer. */
  lemma {:induction false} SortedUnique(a: seq<string>, b: seq<string>)
    requires IsSorted(a) && IsSorted(b) && multiset(a) == multiset(b)
    ensures a == b
    decreases |a|
  {
    assert |a| == |multiset(a)| == |multiset(b)| == |b|;
    if |a| > 0 {
      SameHead(a, b);
      TailMultiset(a);
      TailMultiset(b);
      TailSorted(a);
      TailSorted(b);
      SortedUnique(a[1..], b[1..]);
      SameHeadAndTail(a, b);
    }
  }

  lemma SameHead(a: seq<string>, b: seq<string>)
    requires |a| > 0 && IsSorted(a) && IsSorted(b) && multiset(a) == multiset(b)
    ensures |b| > 0 && a[0] == b[0]
  {
    assert a[0] in multiset(b);
    HeadIsLeast(b, a[0]);
    assert b[0] in multiset(a);
    HeadIsLeast(a, b[0]);
    LessEqAntisymmetric(a[0], b[0]);
  }

  lemma SameHeadAndTail<T>(a: seq<T>, b: seq<T>)
    requires |a| > 0 && |b| > 0 && a[0] == b[0] && a[1..] == b[1..]
    ensures a == b
  {
    assert a == [a[0]] + a[1..] && b == [b[0]] + b[1..];
  }

  lemma TailMultiset(s: seq<string>)
    requires |s| > 0
    ensures multiset(s[1..]) == multiset(s) - multiset{s[0]}
  {
    assert s == [s[0]] + s[1..];
  }

  lemma TailSorted(s: seq<string>)
    requires |s| > 0 && IsSorted(s)
    ensures IsSorted(s[1..])
  {
    forall i, j | 0 <= i < j < |s| - 1 ensures LessEq(s[1..][i], s[1..][j]) {
      assert s[1..][i] == s[i + 1] && s[1..][j] == s[j + 1];
    }
  }
}
