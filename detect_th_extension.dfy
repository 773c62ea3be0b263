/**
 * Template Haskell detection by language pragma: a source line uses Template Haskell when,
 * after optional leading whitespace, it starts with `{-# LANGUAGE X #-}` for X one of
 * `TemplateHaskell`, `TemplateHaskellQuotes` or `QuasiQuotes`; a module uses it when one of its
 * lines does. The detector writes the paths of such modules, one per line, in argument order.
 *
 * A file is given by its path and its lines; opening and reading it is outside the model.
 */
module DetectThExtension {
  import opened Wrappers
  import opened PyStr
  import opened PyPath

  /** The three alternatives of the pattern, in the order the pattern lists them. */
  const ThPragmaExtensions: seq<string> := ["TemplateHaskell", "TemplateHaskellQuotes", "QuasiQuotes"]

  /** The pragma text for one extension: `{-# LANGUAGE ext #-}`. */
  function Pragma(ext: string): string {
    "{-# LANGUAGE " + ext + " #-}"
  }

  /** `s` starts with the pragma of one of the three extensions. */
  predicate StartsWithPragma(s: string) {
    exists ext :: ext in ThPragmaExtensions && Pragma(ext) <= s
  }

  /** `th_regex.match(line)`: the pattern is anchored at the start only, so text may follow the pragma. */
  predicate IsThPragma(line: string) {
    StartsWithPragma(TrimStart(line, IsSpace))
  }

  /**
   * The pattern read literally: some number `k` of leading whitespace characters (`^\s*`),
   * then the pragma.
   */
  predicate RegexMatches(line: string) {
    exists k :: 0 <= k <= |line| && (forall j :: 0 <= j < k ==> IsSpace(line[j])) && StartsWithPragma(line[k..])
  }

  /** A pragma starts with `{`, which is not whitespace. */
  lemma PragmaStartsWithBrace(s: string)
    requires StartsWithPragma(s)
    ensures |s| > 0 && s[0] == '{' && !IsSpace(s[0])
  {
    var ext :| ext in ThPragmaExtensions && Pragma(ext) <= s;
    assert Pragma(ext)[0] == '{';
  }

  /**
   * Since `{` is not whitespace, `\s*` can only match the whole leading run of whitespace: the
   * literal reading of the pattern and "strip, then look for the pragma" agree on every line.
   */
  lemma RegexReading(line: string)
    ensures RegexMatches(line) <==> IsThPragma(line)
  {
    var r := TrimStart(line, IsSpace);
    var m := |line| - |r|;
    TrimStartSpec(line, IsSpace);
    assert line[m..] == r;
    if IsThPragma(line) {
      assert forall j :: 0 <= j < m ==> IsSpace(line[j]);
      assert 0 <= m <= |line| && StartsWithPragma(line[m..]);
    }
    if RegexMatches(line) {
      var k :| 0 <= k <= |line| && (forall j :: 0 <= j < k ==> IsSpace(line[j])) && StartsWithPragma(line[k..]);
      PragmaStartsWithBrace(line[k..]);
      assert m == k;
    }
  }

  /** `uses_th(filename)`: the lines are searched in order and the search stops at the first match. */
  function UsesTh(lines: seq<string>): bool
    decreases |lines|
  {
    if lines == [] then false
    else if IsThPragma(lines[0]) then true
    else UsesTh(lines[1..])
  }

  /** A module uses Template Haskell exactly when one of its lines matches. */
  lemma {:induction false} UsesThIff(lines: seq<string>)
    ensures UsesTh(lines) <==> exists i :: 0 <= i < |lines| && IsThPragma(lines[i])
    decreases |lines|
  {
    if lines != [] {
      UsesThIff(lines[1..]);
      if !IsThPragma(lines[0]) {
        if i :| 0 <= i < |lines| && IsThPragma(lines[i]) {
          assert lines[1..][i - 1] == lines[i];
        }
        if i :| 0 <= i < |lines| - 1 && IsThPragma(lines[1..][i]) {
          assert lines[i + 1] == lines[1..][i];
        }
      }
    }
  }

  /** Nothing after the first matching line is looked at. */
  lemma {:induction false} UsesThStopsAtMatch(lines: seq<string>, rest: seq<string>)
    requires lines != [] && IsThPragma(lines[|lines| - 1])
    ensures UsesTh(lines + rest)
    decreases |lines|
  {
    if !IsThPragma(lines[0]) {
      assert |lines| > 1;
      TailOfConcat(lines, rest);
      UsesThStopsAtMatch(lines[1..], rest);
    }
  }

  /**
   * Any indentation before the pragma is skipped and any text may follow it: a line that is
   * whitespace, then the pragma of a listed extension, then anything, matches.
   */
  lemma PragmaLineMatches(ws: string, ext: string, tail: string)
    requires forall i :: 0 <= i < |ws| ==> IsSpace(ws[i])
    requires ext in ThPragmaExtensions
    ensures IsThPragma(ws + Pragma(ext) + tail)
  {
    var p := Pragma(ext) + tail;
    assert p[0] == '{';
    TrimStartLeading(ws, p, IsSpace);
    assert ws + Pragma(ext) + tail == ws + p;
    assert Pragma(ext) <= p;
  }

  /** A line starting with `{` matches only when none of the three pragmas differs from it at the given points. */
  lemma NoPragmaWhere(s: string, i: nat, j: nat, k: nat)
    requires s != [] && s[0] == '{'
    requires i < |s| && i < |Pragma(ThPragmaExtensions[0])| && s[i] != Pragma(ThPragmaExtensions[0])[i]
    requires j < |s| && j < |Pragma(ThPragmaExtensions[1])| && s[j] != Pragma(ThPragmaExtensions[1])[j]
    requires k < |s| && k < |Pragma(ThPragmaExtensions[2])| && s[k] != Pragma(ThPragmaExtensions[2])[k]
    ensures !IsThPragma(s)
  {
    assert TrimStart(s, IsSpace) == s by {
      TrimStartLeading("", s, IsSpace);
      assert "" + s == s;
    }
    forall ext | ext in ThPragmaExtensions ensures !(Pragma(ext) <= s) {
      if ext == ThPragmaExtensions[0] {
        assert s[i] != Pragma(ext)[i];
      } else if ext == ThPragmaExtensions[1] {
        assert s[j] != Pragma(ext)[j];
      } else {
        assert s[k] != Pragma(ext)[k];
      }
    }
  }

  /** A pragma naming several extensions does not match, even when all of them are listed ones. */
  lemma SeveralExtensionsDoNotMatch(line: string)
    requires line == Pragma("TemplateHaskell, QuasiQuotes")
    ensures !IsThPragma(line)
  {
    assert line[0] == '{';
    assert line[13] == 'T';
    assert line[28] == ',';
    NoPragmaWhere(line, 28, 28, 13);
  }

  /** A pragma for some other extension does not match. */
  lemma UnlistedExtensionDoesNotMatch(line: string)
    requires line == "{-# LANGUAGE DeriveGeneric #-}"
    ensures !IsThPragma(line)
  {
    assert line[0] == '{' && line[13] == 'D';
    NoPragmaWhere(line, 13, 13, 13);
  }

  /** The keyword is matched as written: a lower-case `language` pragma is not recognised. */
  lemma LowerCaseKeywordDoesNotMatch(line: string)
    requires line == "{-# language TemplateHaskell #-}"
    ensures !IsThPragma(line)
  {
    assert line[0] == '{' && line[4] == 'l';
    NoPragmaWhere(line, 4, 4, 4);
  }

  /** The paths, in order, of the files whose lines satisfy `keep`. */
  function SelectBy(modules: seq<(string, seq<string>)>, keep: seq<string> -> bool): seq<string>
    decreases |modules|
  {
    if modules == [] then []
    else
      var n := |modules| - 1;
      SelectBy(modules[..n], keep) + if keep(modules[n].1) then [modules[n].0] else []
  }

  /** One more file extends the selection by its path exactly when it is kept. */
  lemma SelectByStep(modules: seq<(string, seq<string>)>, keep: seq<string> -> bool, i: nat)
    requires i < |modules|
    ensures SelectBy(modules[..i + 1], keep)
         == SelectBy(modules[..i], keep) + if keep(modules[i].1) then [modules[i].0] else []
  {
    PrefixOfPrefix(modules, i);
  }

  /** A path is selected exactly when one of the files it names is kept. */
  lemma {:induction false} SelectByMembers(modules: seq<(string, seq<string>)>, keep: seq<string> -> bool, x: string)
    ensures x in SelectBy(modules, keep) <==> exists i :: 0 <= i < |modules| && modules[i].0 == x && keep(modules[i].1)
    decreases |modules|
  {
    if modules != [] {
      var n := |modules| - 1;
      var pre := modules[..n];
      SelectByMembers(pre, keep, x);
      if x in SelectBy(pre, keep) {
        var i :| 0 <= i < n && pre[i].0 == x && keep(pre[i].1);
        assert modules[i] == pre[i];
      } else if modules[n].0 == x && keep(modules[n].1) {
      } else {
        assert x !in SelectBy(modules, keep);
        forall i | 0 <= i < |modules| ensures !(modules[i].0 == x && keep(modules[i].1)) {
          if i < n {
            assert modules[i] == pre[i];
          }
        }
      }
    }
  }

  /** The selection keeps argument order: selecting from two runs of arguments concatenates the selections. */
  lemma {:induction false} SelectByConcat(a: seq<(string, seq<string>)>, b: seq<(string, seq<string>)>, keep: seq<string> -> bool)
    ensures SelectBy(a + b, keep) == SelectBy(a, keep) + SelectBy(b, keep)
    decreases |b|
  {
    if b == [] {
      assert a + b == a;
    } else {
      var n := |b| - 1;
      PrefixOfConcat(a, b, n);
      SelectByConcat(a, b[..n], keep);
      ConcatAssoc(SelectBy(a, keep), SelectBy(b[..n], keep), if keep(b[n].1) then [b[n].0] else []);
    }
  }

  /** The modules, in argument order, whose lines use Template Haskell. */
  function Selected(modules: seq<(string, seq<string>)>): seq<string> {
    SelectBy(modules, UsesTh)
  }

  /** A module path is written exactly when one of the named files uses Template Haskell. */
  lemma SelectedMembers(modules: seq<(string, seq<string>)>, x: string)
    ensures x in Selected(modules) <==> exists i :: 0 <= i < |modules| && modules[i].0 == x && UsesTh(modules[i].1)
  {
    SelectByMembers(modules, UsesTh, x);
  }

  /** The selection keeps argument order. */
  lemma SelectedConcat(a: seq<(string, seq<string>)>, b: seq<(string, seq<string>)>)
    ensures Selected(a + b) == Selected(a) + Selected(b)
  {
    SelectByConcat(a, b, UsesTh);
  }

  /** Each name followed by a newline. */
  function Lines(names: seq<string>): string
    decreases |names|
  {
    if names == [] then "" else names[0] + "\n" + Lines(names[1..])
  }

  lemma {:induction false} LinesSnoc(names: seq<string>, x: string)
    ensures Lines(names + [x]) == Lines(names) + x + "\n"
    decreases |names|
  {
    if names == [] {
      assert [] + [x] == [x];
    } else {
      assert (names + [x])[1..] == names[1..] + [x];
      LinesSnoc(names[1..], x);
    }
  }

  /** Splitting the written text at newlines gives back the names, then the empty text after the last newline. */
  lemma {:induction false} LinesSplit(names: seq<string>)
    requires forall i :: 0 <= i < |names| ==> '\n' !in names[i]
    ensures SplitOn(Lines(names), '\n') == names + [""]
    decreases |names|
  {
    if names == [] {
      assert IndexOf("", '\n') == None;
    } else {
      LinesSplit(names[1..]);
      SplitOnAppend(names[0], Lines(names[1..]), '\n');
      assert names[0] + "\n" + Lines(names[1..]) == names[0] + ['\n'] + Lines(names[1..]);
      assert [names[0]] + (names[1..] + [""]) == names + [""];
    }
  }

  /** What `main` writes to the output file. */
  function ThOutput(modules: seq<(string, seq<string>)>): string {
    Lines(Selected(modules))
  }

  /**
   * Reading the output back line by line gives exactly the modules that use Template Haskell, in
   * argument order, provided no path holds a newline.
   */
  lemma ThOutputLines(modules: seq<(string, seq<string>)>)
    requires forall i :: 0 <= i < |modules| ==> '\n' !in modules[i].0
    ensures SplitOn(ThOutput(modules), '\n') == Selected(modules) + [""]
  {
    var s := Selected(modules);
    forall i | 0 <= i < |s| ensures '\n' !in s[i] {
      SelectedMembers(modules, s[i]);
    }
    LinesSplit(s);
  }

  /** The loop of `main`: for each module, in order, write its path and a newline when it uses Template Haskell. */
  method WriteThModules(modules: seq<(string, seq<string>)>) returns (output: string)
    ensures output == ThOutput(modules)
  {
    output := "";
    var i := 0;
    while i < |modules|
      invariant 0 <= i <= |modules|
      invariant output == Lines(Selected(modules[..i]))
    {
      var (path, lines) := modules[i];
      SelectByStep(modules, UsesTh, i);
      if UsesTh(lines) {
        LinesSnoc(Selected(modules[..i]), path);
        output := output + path + "\n";
      } else {
        assert Selected(modules[..i]) + [] == Selected(modules[..i]);
      }
      i := i + 1;
    }
    FullPrefix(modules);
  }
}
