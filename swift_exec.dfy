/**
 * The pure logic of the Swift compiler wrapper: separating the wrapper's own `-Xwrapper`
 * arguments from the driver's, collecting the first-party module names whose prefixes are
 * removed from `.swiftinterface` text, rewriting the compiler's dependency file into sorted
 * relative paths, and building the output file map that skips incremental outputs.
 *
 * Files the wrapper reads are passed in as values: argument files and the swift-files list as
 * their lines in a map from path to lines, module maps as their decoded entries, the
 * dependency file as its lines, and the working directory as a string.
 */
module SwiftExec {
  import opened Wrappers
  import opened PyStr
  import opened PyPath

  /** The exceptions the wrapper's code raises, by Python class. */
  datatype Error =
    | RuntimeError(message: string)
    | ValueError(message: string)
    | IndexError
    | KeyError(key: string)
    | UsageError                     // argparse rejects the wrapper arguments and exits with status 2
    | UnboundLocalError(name: string)
    | FileNotFoundError(path: string)
    | Exception(message: string)

  // ---------------------------------------------------------------------------------------------
  // Driver and wrapper arguments
  // ---------------------------------------------------------------------------------------------

  const Xwrapper: string := "-Xwrapper"
  const MissingWrapperArgument: string := "Missing argument to -Xwrapper"

  /** One unit of the command line: a driver argument, or the value of a `-Xwrapper` pair. */
  datatype Piece = DriverArg(arg: string) | WrapperArg(arg: string)

  /** Pieces a command line can be read as: no driver argument is itself `-Xwrapper`. */
  predicate ValidPieces(ps: seq<Piece>) {
    forall k :: 0 <= k < |ps| ==> ps[k] != DriverArg(Xwrapper)
  }

  function PieceArgs(p: Piece): seq<string> {
    match p
    case DriverArg(a) => [a]
    case WrapperArg(x) => [Xwrapper, x]
  }

  /** The command line the pieces spell out. */
  function Flatten(ps: seq<Piece>): seq<string>
    decreases |ps|
  {
    if ps == [] then [] else PieceArgs(ps[0]) + Flatten(ps[1..])
  }

  function Prepend(done: seq<Piece>, r: Result<seq<Piece>, Error>): Result<seq<Piece>, Error> {
    match r
    case Success(ps) => Success(done + ps)
    case Failure(e) => Failure(e)
  }

  /**
   * How the loop of `_parse_wrapper_args` reads the arguments, front to back: `-Xwrapper`
   * takes the next argument whatever it is, and a final `-Xwrapper` has none to take.
   */
  function Pieces(args: seq<string>): Result<seq<Piece>, Error>
    decreases |args|
  {
    if args == [] then Success([])
    else if args[0] == Xwrapper then
      if |args| == 1 then Failure(RuntimeError(MissingWrapperArgument))
      else Prepend([WrapperArg(args[1])], Pieces(args[2..]))
    else Prepend([DriverArg(args[0])], Pieces(args[1..]))
  }

  /** The driver arguments among the pieces, in order. */
  function Drivers(ps: seq<Piece>): seq<string>
    decreases |ps|
  {
    if ps == [] then []
    else
      var n := |ps| - 1;
      Drivers(ps[..n]) + if ps[n].DriverArg? then [ps[n].arg] else []
  }

  /** The wrapper arguments among the pieces, in order. */
  function WrapperValues(ps: seq<Piece>): seq<string>
    decreases |ps|
  {
    if ps == [] then []
    else
      var n := |ps| - 1;
      WrapperValues(ps[..n]) + if ps[n].WrapperArg? then [ps[n].arg] else []
  }

  /** `driver_args` and `wrapper_args` as the loop of `_parse_wrapper_args` leaves them. */
  function SplitArgs(args: seq<string>): Result<(seq<string>, seq<string>), Error> {
    match Pieces(args)
    case Success(ps) => Success((Drivers(ps), WrapperValues(ps)))
    case Failure(e) => Failure(e)
  }

  lemma PrependAssoc(a: seq<Piece>, b: seq<Piece>, r: Result<seq<Piece>, Error>)
    ensures Prepend(a, Prepend(b, r)) == Prepend(a + b, r)
  {
    if r.Success? {
      ConcatAssoc(a, b, r.value);
    }
  }

  /** A successful reading spells out exactly the arguments, in order: nothing lost or repeated. */
  lemma {:induction false} PiecesSpellArgs(args: seq<string>)
    requires Pieces(args).Success?
    ensures ValidPieces(Pieces(args).value)
    ensures Flatten(Pieces(args).value) == args
    decreases |args|
  {
    if args != [] {
      var k := if args[0] == Xwrapper then 2 else 1;
      PiecesSpellArgs(args[k..]);
      var ps := Pieces(args).value;
      assert ps[1..] == Pieces(args[k..]).value;
      assert args == args[..k] + args[k..];
    }
  }

  /** Any valid pieces are read back as exactly those pieces: the reading is unique. */
  lemma {:induction false} PiecesOfFlatten(ps: seq<Piece>)
    requires ValidPieces(ps)
    ensures Pieces(Flatten(ps)) == Success(ps)
    decreases |ps|
  {
    if ps != [] {
      var args := Flatten(ps);
      PiecesOfFlatten(ps[1..]);
      var k := |PieceArgs(ps[0])|;
      assert args[k..] == Flatten(ps[1..]);
      assert [ps[0]] + ps[1..] == ps;
    }
  }

  /** A `-Xwrapper` after any complete command line has no argument to take. */
  lemma {:induction false} TrailingXwrapperFails(ps: seq<Piece>)
    requires ValidPieces(ps)
    ensures Pieces(Flatten(ps) + [Xwrapper]) == Failure(RuntimeError(MissingWrapperArgument))
    decreases |ps|
  {
    if ps != [] {
      var args := Flatten(ps) + [Xwrapper];
      var k := |PieceArgs(ps[0])|;
      assert args[k..] == Flatten(ps[1..]) + [Xwrapper];
      TrailingXwrapperFails(ps[1..]);
    }
  }

  /** The reading fails only that way: a complete command line followed by a lone `-Xwrapper`. */
  lemma {:induction false} FailureIsTrailingXwrapper(args: seq<string>)
    requires Pieces(args).Failure?
    ensures Pieces(args).error == RuntimeError(MissingWrapperArgument)
    ensures exists ps :: ValidPieces(ps) && args == Flatten(ps) + [Xwrapper]
    decreases |args|
  {
    if args[0] == Xwrapper && |args| == 1 {
      assert args == Flatten([]) + [Xwrapper];
    } else {
      var k := if args[0] == Xwrapper then 2 else 1;
      FailureIsTrailingXwrapper(args[k..]);
      var qs :| ValidPieces(qs) && args[k..] == Flatten(qs) + [Xwrapper];
      var p := if k == 2 then WrapperArg(args[1]) else DriverArg(args[0]);
      var ps := [p] + qs;
      assert ps[1..] == qs;
      assert PieceArgs(p) == args[..k];
      assert args == args[..k] + args[k..];
      assert args == Flatten(ps) + [Xwrapper];
    }
  }

  /** The loop of `_parse_wrapper_args` (lines 150-163). */
  method SplitWrapperArgs(allargs: seq<string>) returns (r: Result<(seq<string>, seq<string>), Error>)
    ensures r == SplitArgs(allargs)
  {
    var driverArgs: seq<string> := [];
    var wrapperArgs: seq<string> := [];
    ghost var done: seq<Piece> := [];
    var i := 0;
    assert allargs[i..] == allargs;
    if Pieces(allargs).Success? {
      assert done + Pieces(allargs).value == Pieces(allargs).value;
    }
    while i < |allargs|
      invariant 0 <= i <= |allargs|
      invariant Pieces(allargs) == Prepend(done, Pieces(allargs[i..]))
      invariant driverArgs == Drivers(done) && wrapperArgs == WrapperValues(done)
    {
      var arg := allargs[i];
      ghost var prev := done;
      if arg == Xwrapper {
        if i == |allargs| - 1 {
          return Failure(RuntimeError(MissingWrapperArgument));
        }
        assert allargs[i..][2..] == allargs[i + 2..];
        PrependAssoc(done, [WrapperArg(allargs[i + 1])], Pieces(allargs[i + 2..]));
        wrapperArgs := wrapperArgs + [allargs[i + 1]];
        done := done + [WrapperArg(allargs[i + 1])];
        i := i + 2;
      } else {
        assert allargs[i..][1..] == allargs[i + 1..];
        PrependAssoc(done, [DriverArg(arg)], Pieces(allargs[i + 1..]));
        driverArgs := driverArgs + [arg];
        done := done + [DriverArg(arg)];
        i := i + 1;
      }
      assert done[..|done| - 1] == prev;
    }
    assert done + [] == done;
    return Success((driverArgs, wrapperArgs));
  }

  /** The options `_parse_wrapper_args` declares for the wrapper arguments (lines 165-189). */
  datatype WrapperOptions = WrapperOptions(
    ignoreErrors: bool,
    jsonErrorOutputPath: Option<string>,
    removeModulePrefixes: bool,
    serializedDiagnosticsToJson: Option<string>,
    skipIncrementalOutputs: bool)

  /** No wrapper argument given: flags off, paths unset. */
  const Defaults: WrapperOptions := WrapperOptions(false, None, false, None, false)

  const IgnoreErrors: string := "-ignore-errors"
  const JsonErrorOutputPath: string := "-json-error-output-path"
  const RemoveModulePrefixes: string := "-remove-module-prefixes"
  const SerializedDiagnosticsToJson: string := "-serialized-diagnostics-to-json"
  const SkipIncrementalOutputs: string := "-skip-incremental-outputs"

  /** A token argparse reads as an option string, so it cannot be an option's value. */
  predicate LooksLikeOption(s: string) {
    |s| > 1 && s[0] == '-' && ' ' !in s
  }

  /**
   * `parser.parse_args(wrapper_args)` for options written out in full: a flag sets its field, a
   * path option takes the next token (a later one wins), and anything else, or a path option
   * without a value, is a usage error.
   */
  function ParseOptions(ws: seq<string>, o: WrapperOptions): Result<WrapperOptions, Error>
    decreases |ws|
  {
    if ws == [] then Success(o)
    else if ws[0] == IgnoreErrors then ParseOptions(ws[1..], o.(ignoreErrors := true))
    else if ws[0] == RemoveModulePrefixes then ParseOptions(ws[1..], o.(removeModulePrefixes := true))
    else if ws[0] == SkipIncrementalOutputs then ParseOptions(ws[1..], o.(skipIncrementalOutputs := true))
    else if ws[0] == JsonErrorOutputPath || ws[0] == SerializedDiagnosticsToJson then
      if |ws| == 1 || LooksLikeOption(ws[1]) then Failure(UsageError)
      else if ws[0] == JsonErrorOutputPath then ParseOptions(ws[2..], o.(jsonErrorOutputPath := Some(ws[1])))
      else ParseOptions(ws[2..], o.(serializedDiagnosticsToJson := Some(ws[1])))
    else Failure(UsageError)
  }

  /** Parsing two runs of wrapper arguments one after the other. */
  lemma {:induction false} ParseAppend(a: seq<string>, b: seq<string>, o: WrapperOptions)
    requires ParseOptions(a, o).Success?
    ensures ParseOptions(a + b, o) == ParseOptions(b, ParseOptions(a, o).value)
    decreases |a|
  {
    if a == [] {
      assert a + b == b;
    } else {
      var o' := if a[0] == IgnoreErrors then o.(ignoreErrors := true)
        else if a[0] == RemoveModulePrefixes then o.(removeModulePrefixes := true)
        else if a[0] == SkipIncrementalOutputs then o.(skipIncrementalOutputs := true)
        else if a[0] == JsonErrorOutputPath then o.(jsonErrorOutputPath := Some(a[1]))
        else o.(serializedDiagnosticsToJson := Some(a[1]));
      var k := if a[0] == JsonErrorOutputPath || a[0] == SerializedDiagnosticsToJson then 2 else 1;
      assert (a + b)[0] == a[0];
      assert k == 2 ==> (a + b)[1] == a[1];
      assert (a + b)[k..] == a[k..] + b;
      ParseAppend(a[k..], b, o');
    }
  }

  /** The tokens that set a flag. */
  function FlagArgs(on: bool, name: string): seq<string> {
    if on then [name] else []
  }

  /** The tokens that set a path option. */
  function PathArgs(value: Option<string>, name: string): seq<string> {
    if value.Some? then [name, value.value] else []
  }

  /** Wrapper arguments that ask for exactly the options `o`. */
  function OptionArgs(o: WrapperOptions): seq<string> {
    FlagArgs(o.ignoreErrors, IgnoreErrors)
    + PathArgs(o.jsonErrorOutputPath, JsonErrorOutputPath)
    + FlagArgs(o.removeModulePrefixes, RemoveModulePrefixes)
    + PathArgs(o.serializedDiagnosticsToJson, SerializedDiagnosticsToJson)
    + FlagArgs(o.skipIncrementalOutputs, SkipIncrementalOutputs)
  }

  /** Path values argparse accepts as values. */
  predicate PlainValues(o: WrapperOptions) {
    && (o.jsonErrorOutputPath.Some? ==> !LooksLikeOption(o.jsonErrorOutputPath.value))
    && (o.serializedDiagnosticsToJson.Some? ==> !LooksLikeOption(o.serializedDiagnosticsToJson.value))
  }

  /** Asking for options gives exactly those options. */
  lemma OptionsRoundTrip(o: WrapperOptions)
    requires PlainValues(o)
    ensures ParseOptions(OptionArgs(o), Defaults) == Success(o)
  {
    var a1 := FlagArgs(o.ignoreErrors, IgnoreErrors);
    var a2 := PathArgs(o.jsonErrorOutputPath, JsonErrorOutputPath);
    var a3 := FlagArgs(o.removeModulePrefixes, RemoveModulePrefixes);
    var a4 := PathArgs(o.serializedDiagnosticsToJson, SerializedDiagnosticsToJson);
    var a5 := FlagArgs(o.skipIncrementalOutputs, SkipIncrementalOutputs);
    var o1 := Defaults.(ignoreErrors := o.ignoreErrors);
    var o2 := o1.(jsonErrorOutputPath := o.jsonErrorOutputPath);
    var o3 := o2.(removeModulePrefixes := o.removeModulePrefixes);
    var o4 := o3.(serializedDiagnosticsToJson := o.serializedDiagnosticsToJson);
    assert ParseOptions(a1, Defaults) == Success(o1);
    assert ParseOptions(a2, o1) == Success(o2);
    assert ParseOptions(a3, o2) == Success(o3);
    assert ParseOptions(a4, o3) == Success(o4);
    assert ParseOptions(a5, o4) == Success(o);
    ParseAppend(a1, a2, Defaults);
    ParseAppend(a1 + a2, a3, Defaults);
    ParseAppend(a1 + a2 + a3, a4, Defaults);
    ParseAppend(a1 + a2 + a3 + a4, a5, Defaults);
  }

  const JsonNeedsTransformer: string :=
    "-json-error-output-path requires -serialized-diagnostics-to-json to transform the serialized diagnostics."

  /** Python truthiness of an optional string: set and not empty. */
  predicate Truthy(v: Option<string>) {
    v.Some? && v.value != ""
  }

  /** A JSON error output needs the transformer that produces it. */
  predicate Consistent(o: WrapperOptions) {
    Truthy(o.jsonErrorOutputPath) ==> Truthy(o.serializedDiagnosticsToJson)
  }

  /** `_parse_wrapper_args(allargs)`: the driver arguments and the parsed wrapper options. */
  function WrapperArgs(allargs: seq<string>): Result<(seq<string>, WrapperOptions), Error> {
    var split :- SplitArgs(allargs);
    var o :- ParseOptions(split.1, Defaults);
    if !Consistent(o) then Failure(RuntimeError(JsonNeedsTransformer)) else Success((split.0, o))
  }

  /**
   * Any command line made of driver arguments and `-Xwrapper` pairs, in any interleaving, gives
   * back its driver arguments in order and the options its wrapper values ask for.
   */
  lemma WrapperArgsOfPieces(ps: seq<Piece>, o: WrapperOptions)
    requires ValidPieces(ps) && ParseOptions(WrapperValues(ps), Defaults) == Success(o)
    ensures Consistent(o) ==> WrapperArgs(Flatten(ps)) == Success((Drivers(ps), o))
    ensures !Consistent(o) ==> WrapperArgs(Flatten(ps)) == Failure(RuntimeError(JsonNeedsTransformer))
  {
    PiecesOfFlatten(ps);
  }

  /** `_parse_wrapper_args` (lines 147-199). */
  method ParseWrapperArgs(allargs: seq<string>) returns (r: Result<(seq<string>, WrapperOptions), Error>)
    ensures r == WrapperArgs(allargs)
  {
    var split := SplitWrapperArgs(allargs);
    if split.Failure? {
      return Failure(split.error);
    }
    var (driverArgs, wrapperArgs) := split.value;
    var parsed := ParseOptions(wrapperArgs, Defaults);
    if parsed.Failure? {
      return Failure(parsed.error);
    }
    var o := parsed.value;
    if Truthy(o.jsonErrorOutputPath) && !Truthy(o.serializedDiagnosticsToJson) {
      return Failure(RuntimeError(JsonNeedsTransformer));
    }
    return Success((driverArgs, o));
  }

  // ---------------------------------------------------------------------------------------------
  // First-party modules
  // ---------------------------------------------------------------------------------------------

  /** `args.index(x)`: the first position holding `x`. */
  function Index(args: seq<string>, x: string): (r: Option<nat>)
    ensures r.Some? ==> r.value < |args| && args[r.value] == x && x !in args[..r.value]
    ensures r.None? ==> x !in args
    decreases |args|
  {
    if args == [] then None
    else if args[0] == x then Some(0)
    else match Index(args[1..], x)
      case None => None
      case Some(i) =>
        assert args[..i + 1] == [args[0]] + args[1..][..i];
        Some(i + 1)
  }

  /** The message of the `ValueError` raised by `list.index`. */
  function NotInList(x: string): string {
    "'" + x + "' is not in list"
  }

  /** `args[args.index(flag) + 1]`: the argument after the first `flag`. */
  function ArgAfter(args: seq<string>, flag: string): Result<string, Error> {
    match Index(args, flag)
    case None => Failure(ValueError(NotInList(flag)))
    case Some(i) => if i + 1 < |args| then Success(args[i + 1]) else Failure(IndexError)
  }

  /** The three shapes of an argument list around its first `flag`, and what each gives. */
  lemma ArgAfterCases(pre: seq<string>, flag: string, v: string, post: seq<string>)
    requires flag !in pre
    ensures ArgAfter(pre + [flag, v] + post, flag) == Success(v)
    ensures ArgAfter(pre + [flag], flag) == Failure(IndexError)
    ensures ArgAfter(pre, flag) == Failure(ValueError(NotInList(flag)))
  {
    IndexAt(pre + [flag, v] + post, flag, |pre|);
    IndexAt(pre + [flag], flag, |pre|);
  }

  lemma IndexAt(args: seq<string>, x: string, i: nat)
    requires i < |args| && args[i] == x && x !in args[..i]
    ensures Index(args, x) == Some(i)
  {
    assert x in args;
  }

  /**
   * `_expand_args(command)`: the lines of the first `@` argument file, each `rstrip`ped, or
   * nothing when there is none.
   */
  function ExpandArgs(command: seq<string>, files: map<string, seq<string>>): Result<seq<string>, Error>
    decreases |command|
  {
    if command == [] then Success([])
    else if "@" <= command[0] then
      var path := command[0][1..];
      if path in files then Success(MapEach(files[path], RStrip)) else Failure(FileNotFoundError(path))
    else ExpandArgs(command[1..], files)
  }

  /** The first `@` argument is the one expanded; the arguments after it are not looked at. */
  lemma {:induction false} ExpandArgsFirst(pre: seq<string>, arg: string, post: seq<string>, files: map<string, seq<string>>)
    requires forall k :: 0 <= k < |pre| ==> !("@" <= pre[k])
    requires "@" <= arg && arg[1..] in files
    ensures ExpandArgs(pre + [arg] + post, files) == Success(MapEach(files[arg[1..]], RStrip))
    decreases |pre|
  {
    if pre != [] {
      assert (pre + [arg] + post)[1..] == pre[1..] + [arg] + post;
      ExpandArgsFirst(pre[1..], arg, post, files);
    }
  }

  /** Without an argument file there are no arguments to look in. */
  lemma {:induction false} ExpandArgsNone(command: seq<string>, files: map<string, seq<string>>)
    requires forall k :: 0 <= k < |command| ==> !("@" <= command[k])
    ensures ExpandArgs(command, files) == Success([])
    decreases |command|
  {
    if command != [] {
      ExpandArgsNone(command[1..], files);
    }
  }

  const ModuleMapFlag: string := "-explicit-swift-module-map-file"
  const Xfrontend: string := "-Xfrontend"

  /**
   * The path `_get_modulemap(args)` opens: the argument after the first one starting with the
   * module-map flag, or the one after that when an `-Xfrontend` comes between; stripped.
   */
  function ModuleMapPath(args: seq<string>): Result<Option<string>, Error>
    decreases |args|
  {
    if args == [] then Success(None)
    else if ModuleMapFlag <= args[0] then
      if |args| < 2 then Failure(IndexError)
      else if Xfrontend <= args[1] then
        if |args| < 3 then Failure(IndexError) else Success(Some(Strip(args[2])))
      else Success(Some(Strip(args[1])))
    else ModuleMapPath(args[1..])
  }

  /** One entry of an explicit module map, as the fields the wrapper reads. */
  datatype ModuleMapEntry = ModuleMapEntry(moduleName: Option<string>, modulePath: Option<string>, clangModulePath: Option<string>)

  /** `entry.get(key, "")` */
  function OrEmpty(v: Option<string>): string {
    if v.Some? then v.value else ""
  }

  const SdkDeps: string := "sdk_deps"

  /** Neither of the entry's module paths lies under `sdk_deps`. */
  predicate FirstParty(e: ModuleMapEntry) {
    !Contains(OrEmpty(e.clangModulePath), SdkDeps) && !Contains(OrEmpty(e.modulePath), SdkDeps)
  }

  /** The names the loop of `_get_modules` adds; `entry["moduleName"]` raises for a first-party entry without one. */
  function FirstPartyNames(es: seq<ModuleMapEntry>): Result<set<string>, Error>
    decreases |es|
  {
    if es == [] then Success({})
    else
      var n := |es| - 1;
      var names :- FirstPartyNames(es[..n]);
      if !FirstParty(es[n]) then Success(names)
      else if es[n].moduleName.None? then Failure(KeyError("moduleName"))
      else Success(names + {es[n].moduleName.value})
  }

  /** The loop succeeds exactly when every first-party entry is named. */
  lemma {:induction false} FirstPartyNamesSucceed(es: seq<ModuleMapEntry>)
    ensures FirstPartyNames(es).Success?
        <==> forall i :: 0 <= i < |es| && FirstParty(es[i]) ==> es[i].moduleName.Some?
    decreases |es|
  {
    if es != [] {
      var n := |es| - 1;
      FirstPartyNamesSucceed(es[..n]);
      assert forall i :: 0 <= i < n ==> es[..n][i] == es[i];
    }
  }

  /** The names collected are exactly those of the first-party entries. */
  lemma {:induction false} FirstPartyNamesHeld(es: seq<ModuleMapEntry>)
    requires FirstPartyNames(es).Success?
    ensures forall m :: (m in FirstPartyNames(es).value
                         <==> exists i :: 0 <= i < |es| && FirstParty(es[i]) && es[i].moduleName == Some(m))
    decreases |es|
  {
    if es != [] {
      var n := |es| - 1;
      FirstPartyNamesHeld(es[..n]);
      assert forall i :: 0 <= i < n ==> es[..n][i] == es[i];
      var s := FirstPartyNames(es).value;
      forall m | m in s ensures exists i :: 0 <= i < |es| && FirstParty(es[i]) && es[i].moduleName == Some(m) {
        if m !in FirstPartyNames(es[..n]).value {
          assert FirstParty(es[n]) && es[n].moduleName == Some(m);
        }
      }
    }
  }

  /** Every first-party entry must be named; the names are exactly those of the first-party entries. */
  lemma FirstPartyNamesSpec(es: seq<ModuleMapEntry>)
    ensures FirstPartyNames(es).Success?
        <==> forall i :: 0 <= i < |es| && FirstParty(es[i]) ==> es[i].moduleName.Some?
    ensures FirstPartyNames(es).Success? ==>
      forall m :: m in FirstPartyNames(es).value
        <==> exists i :: 0 <= i < |es| && FirstParty(es[i]) && es[i].moduleName == Some(m)
  {
    FirstPartyNamesSucceed(es);
    if FirstPartyNames(es).Success? {
      FirstPartyNamesHeld(es);
    }
  }

  /** The modules `_get_modules(command)` collects: the module's own name and the first-party names. */
  function Modules(command: seq<string>, files: map<string, seq<string>>, maps: map<string, seq<ModuleMapEntry>>)
    : Result<set<string>, Error>
  {
    var args :- ExpandArgs(command, files);
    var name :- ArgAfter(args, "-module-name");
    var mapPath :- ModuleMapPath(args);
    if mapPath.None? then Success({name})
    else if mapPath.value !in maps then Failure(FileNotFoundError(mapPath.value))
    else
      var names :- FirstPartyNames(maps[mapPath.value]);
      Success({name} + names)
  }

  /**
   * What `_get_modules` returns: the `-module-name` value, and the name of every first-party
   * entry of the module map when the arguments name one.
   */
  lemma ModulesMembers(command: seq<string>, files: map<string, seq<string>>, maps: map<string, seq<ModuleMapEntry>>, m: string)
    requires Modules(command, files, maps).Success?
    ensures var args := ExpandArgs(command, files).value;
            var mapPath := ModuleMapPath(args).value;
            m in Modules(command, files, maps).value <==>
              || m == ArgAfter(args, "-module-name").value
              || (&& mapPath.Some?
                  && exists i :: 0 <= i < |maps[mapPath.value]| && FirstParty(maps[mapPath.value][i])
                                 && maps[mapPath.value][i].moduleName == Some(m))
  {
    var mapPath := ModuleMapPath(ExpandArgs(command, files).value).value;
    if mapPath.Some? {
      FirstPartyNamesSpec(maps[mapPath.value]);
    }
  }

  /** `_get_modules(command)` (lines 44-65). */
  method GetModules(command: seq<string>, files: map<string, seq<string>>, maps: map<string, seq<ModuleMapEntry>>)
    returns (r: Result<set<string>, Error>)
    ensures r == Modules(command, files, maps)
  {
    var args :- ExpandArgs(command, files);
    var name :- ArgAfter(args, "-module-name");
    var modules := {name};
    var mapPath :- ModuleMapPath(args);
    if mapPath.None? {
      return Success(modules);
    }
    if mapPath.value !in maps {
      return Failure(FileNotFoundError(mapPath.value));
    }
    var modulemap := maps[mapPath.value];
    var i := 0;
    while i < |modulemap|
      invariant 0 <= i <= |modulemap|
      invariant FirstPartyNames(modulemap[..i]).Success?
      invariant modules == {name} + FirstPartyNames(modulemap[..i]).value
    {
      var entry := modulemap[i];
      assert modulemap[..i + 1][..i] == modulemap[..i];
      if !FirstParty(entry) {
      } else if entry.moduleName.None? {
        assert FirstPartyNames(modulemap[..i + 1]) == Failure(KeyError("moduleName"));
        FirstPartyNamesSticks(modulemap, i + 1);
        return Failure(KeyError("moduleName"));
      } else {
        modules := modules + {entry.moduleName.value};
      }
      i := i + 1;
    }
    assert modulemap[..i] == modulemap;
    return Success(modules);
  }

  /** A failure in the first entries is the failure of the whole map. */
  lemma {:induction false} FirstPartyNamesSticks(es: seq<ModuleMapEntry>, i: nat)
    requires i <= |es| && FirstPartyNames(es[..i]).Failure?
    ensures FirstPartyNames(es) == FirstPartyNames(es[..i])
    decreases |es| - i
  {
    if i < |es| {
      PrefixOfPrefix(es, i);
      FirstPartyNamesSticks(es, i + 1);
    } else {
      assert es[..i] == es;
    }
  }

  // ---------------------------------------------------------------------------------------------
  // Module prefixes in `.swiftinterface` text
  // ---------------------------------------------------------------------------------------------

  /** `\w` on ASCII text: letters, digits and the underscore. */
  predicate IsWordChar(c: char) {
    'a' <= c <= 'z' || 'A' <= c <= 'Z' || '0' <= c <= '9' || c == '_'
  }

  /** `[\w.]` */
  predicate IsWordOrDot(c: char) {
    IsWordChar(c) || c == '.'
  }

  /** The length of the longest run of characters satisfying `p` that starts `s`. */
  function RunLength(s: string, p: char -> bool): (n: nat)
    ensures n <= |s|
    decreases |s|
  {
    if s != [] && p(s[0]) then 1 + RunLength(s[1..], p) else 0
  }

  /** A run that is followed by a character outside it has exactly its own length. */
  lemma {:induction false} RunLengthOf(x: string, y: string, p: char -> bool)
    requires forall k :: 0 <= k < |x| ==> p(x[k])
    requires y == [] || !p(y[0])
    ensures RunLength(x + y, p) == |x|
    decreases |x|
  {
    if x == [] {
      assert x + y == y;
    } else {
      TailOfConcat(x, y);
      RunLengthOf(x[1..], y, p);
    }
  }

  /**
   * Where `(\w+)\.([\w.]+)` matches at the start of `s`, the lengths of its two groups: both
   * repetitions are greedy, and giving back word characters never exposes a dot.
   */
  function MatchAt(s: string): (r: Option<(nat, nat)>)
    ensures r.Some? ==> 0 < r.value.0 && r.value.0 + 1 + r.value.1 <= |s| && s[r.value.0] == '.'
  {
    var w := RunLength(s, IsWordChar);
    if 0 < w < |s| && s[w] == '.' then
      var d := RunLength(s[w + 1..], IsWordOrDot);
      if d > 0 then Some((w, d)) else None
    else None
  }

  /** A qualified name followed by a character that cannot extend it is matched as a whole. */
  lemma MatchQualified(a: string, b: string, tail: string)
    requires a != [] && forall k :: 0 <= k < |a| ==> IsWordChar(a[k])
    requires b != [] && forall k :: 0 <= k < |b| ==> IsWordOrDot(b[k])
    requires tail == [] || !IsWordOrDot(tail[0])
    ensures MatchAt(a + "." + b + tail) == Some((|a|, |b|))
  {
    var s := a + "." + b + tail;
    assert s == a + ("." + b + tail);
    RunLengthOf(a, "." + b + tail, IsWordChar);
    assert s[|a| + 1..] == b + tail;
    RunLengthOf(b, tail, IsWordOrDot);
  }

  /** `replace_module_prefixes` for a match whose groups are `prefix` and `rest`. */
  function ReplaceModulePrefix(modules: set<string>, prefix: string, rest: string): string {
    if prefix in modules then rest else prefix + "." + rest
  }

  /** The match `A.B` is rewritten to `B` exactly when `A` is a module; otherwise it stays `A.B`. */
  lemma ReplaceModulePrefixRule(modules: set<string>, prefix: string, rest: string)
    ensures ReplaceModulePrefix(modules, prefix, rest) == rest <==> prefix in modules
    ensures prefix !in modules ==> ReplaceModulePrefix(modules, prefix, rest) == prefix + "." + rest
  {
    if prefix !in modules {
      assert |prefix + "." + rest| > |rest|;
    }
  }

  /**
   * One step of the scan: the replacement of a match at the start and the text after it, or
   * the first character copied and the rest.
   */
  function Step(modules: set<string>, s: string): (r: (string, string))
    requires s != []
    ensures |r.1| < |s| && |r.0| + |r.1| <= |s|
    ensures modules == {} ==> r.0 + r.1 == s
  {
    match MatchAt(s)
    case Some((w, d)) =>
      assert s == s[..w] + "." + s[w + 1..w + 1 + d] + s[w + 1 + d..];
      (ReplaceModulePrefix(modules, s[..w], s[w + 1..w + 1 + d]), s[w + 1 + d..])
    case None =>
      assert s == [s[0]] + s[1..];
      ([s[0]], s[1..])
  }

  /** `pattern.sub(replace_module_prefixes, text)`: each match, left to right, replaced. */
  function StripModulePrefixes(modules: set<string>, s: string): string
    decreases |s|
  {
    if s == [] then []
    else
      var step := Step(modules, s);
      step.0 + StripModulePrefixes(modules, step.1)
  }

  /** A qualified name standing at the start is rewritten by the rule, and the scan goes on after it. */
  lemma QualifiedNameRewritten(modules: set<string>, a: string, b: string, tail: string)
    requires a != [] && forall k :: 0 <= k < |a| ==> IsWordChar(a[k])
    requires b != [] && forall k :: 0 <= k < |b| ==> IsWordOrDot(b[k])
    requires tail == [] || !IsWordOrDot(tail[0])
    ensures StripModulePrefixes(modules, a + "." + b + tail)
         == ReplaceModulePrefix(modules, a, b) + StripModulePrefixes(modules, tail)
  {
    var s := a + "." + b + tail;
    MatchQualified(a, b, tail);
    assert s[..|a|] == a;
    assert s[|a| + 1..|a| + 1 + |b|] == b;
    assert s[|a| + 1 + |b|..] == tail;
  }

  /** Without modules to remove the text stays as it is. */
  lemma {:induction false} NoModulesNoChange(s: string)
    ensures StripModulePrefixes({}, s) == s
    decreases |s|
  {
    if s != [] {
      NoModulesNoChange(Step({}, s).1);
    }
  }

  /** The rewrite only removes text. */
  lemma {:induction false} StripModulePrefixesShrinks(modules: set<string>, s: string)
    ensures |StripModulePrefixes(modules, s)| <= |s|
    decreases |s|
  {
    if s != [] {
      StripModulePrefixesShrinks(modules, Step(modules, s).1);
    }
  }

  /**
   * `_remove_swiftinterface_module_prefixes(command)`: the new text of the interface file named
   * by `-emit-module-interface-path`.
   */
  function RewrittenInterface(command: seq<string>, files: map<string, seq<string>>,
                              maps: map<string, seq<ModuleMapEntry>>, texts: map<string, string>)
    : Result<string, Error>
  {
    var interfacePath :- ArgAfter(command, "-emit-module-interface-path");
    var modules :- Modules(command, files, maps);
    if interfacePath !in texts then Failure(FileNotFoundError(interfacePath))
    else Success(StripModulePrefixes(modules, texts[interfacePath]))
  }

  /**
   * The interface file is rewritten exactly when the interface path, the modules and the file
   * are all found, and then by the prefix rule over those modules, never growing; otherwise the
   * error is the first of `command.index`, `_get_modules` and `open` that fails.
   */
  lemma RewrittenInterfaceOf(command: seq<string>, files: map<string, seq<string>>,
                             maps: map<string, seq<ModuleMapEntry>>, texts: map<string, string>)
    ensures var r := RewrittenInterface(command, files, maps, texts);
            var path := ArgAfter(command, "-emit-module-interface-path");
            var modules := Modules(command, files, maps);
            && (r.Success? <==> path.Success? && modules.Success? && path.value in texts)
            && (r.Success? ==>
                  && r.value == StripModulePrefixes(modules.value, texts[path.value])
                  && |r.value| <= |texts[path.value]|)
            && (path.Failure? ==> r == Failure(path.error))
            && (path.Success? && modules.Failure? ==> r == Failure(modules.error))
            && (path.Success? && modules.Success? && path.value !in texts ==>
                  r == Failure(FileNotFoundError(path.value)))
  {
    var path := ArgAfter(command, "-emit-module-interface-path");
    var modules := Modules(command, files, maps);
    if path.Success? && modules.Success? && path.value in texts {
      StripModulePrefixesShrinks(modules.value, texts[path.value]);
    }
  }

  // ---------------------------------------------------------------------------------------------
  // The dependency file
  // ---------------------------------------------------------------------------------------------

  const DepSeparator: string := " : "

  /** `output, inputs = line.split(" : ")`: exactly one separator, or the unpacking raises. */
  function SplitRule(line: string): Result<(string, string), Error> {
    var parts := SplitSep(line, DepSeparator);
    if |parts| == 2 then Success((parts[0], parts[1]))
    else if |parts| < 2 then Failure(ValueError("not enough values to unpack (expected 2, got 1)"))
    else Failure(ValueError("too many values to unpack (expected 2)"))
  }

  /** The supplementary outputs whose inputs are tracked: the `.swiftmodule` and the object file. */
  predicate Tracked(output: string) {
    EndsWith(output, ".swiftmodule") || EndsWith(output, ".o")
  }

  /**
   * The inputs text of the first rule with a tracked output; when there is none, `dependencies`
   * is never bound and reading it raises.
   */
  function TrackedInputs(lines: seq<string>): Result<string, Error>
    decreases |lines|
  {
    if lines == [] then Failure(UnboundLocalError("dependencies"))
    else
      var rule :- SplitRule(lines[0]);
      if Tracked(rule.0) then Success(rule.1) else TrackedInputs(lines[1..])
  }

  /** Well-formed rules for untracked outputs are passed over, and reading stops at the first tracked one. */
  lemma {:induction false} TrackedInputsFirst(pre: seq<string>, line: string, post: seq<string>, output: string, inputs: string)
    requires forall k :: 0 <= k < |pre| ==> SplitRule(pre[k]).Success? && !Tracked(SplitRule(pre[k]).value.0)
    requires SplitRule(line) == Success((output, inputs)) && Tracked(output)
    ensures TrackedInputs(pre + [line] + post) == Success(inputs)
    decreases |pre|
  {
    if pre != [] {
      assert (pre + [line] + post)[1..] == pre[1..] + [line] + post;
      TrackedInputsFirst(pre[1..], line, post, output, inputs);
    }
  }

  /** The loop over the dependency file with its `break` (lines 95-105). */
  method FindTrackedInputs(lines: seq<string>) returns (r: Result<string, Error>)
    ensures r == TrackedInputs(lines)
  {
    var i := 0;
    while i < |lines|
      invariant 0 <= i <= |lines|
      invariant TrackedInputs(lines) == TrackedInputs(lines[i..])
    {
      assert lines[i..][1..] == lines[i + 1..];
      var rule := SplitRule(lines[i]);
      if rule.Failure? {
        return Failure(rule.error);
      }
      var (output, inputs) := rule.value;
      if Tracked(output) {
        return Success(inputs);
      }
      i := i + 1;
    }
    return Failure(UnboundLocalError("dependencies"));
  }

  /**
   * How the rewrite treats one dependency path, as written: anything starting with the working
   * directory's text loses it and one more character, other absolute paths are dropped, relative
   * paths are kept.
   */
  function RelativizeAsWritten(cwd: string, path: string): Option<string> {
    if cwd <= path then Some(if |cwd| + 1 <= |path| then path[|cwd| + 1..] else "")
    else if "/" <= path then None
    else Some(path)
  }

  /**
   * The rule as written: a path starting with the working directory's text is kept with that
   * text and the one character after it removed (the working directory itself becomes the empty
   * path); any other absolute path is dropped and any other relative path is kept unchanged.
   */
  lemma RelativizeAsWrittenSpec(cwd: string, path: string)
    ensures cwd <= path && |path| > |cwd| ==>
      RelativizeAsWritten(cwd, path).Some?
      && cwd + [path[|cwd|]] + RelativizeAsWritten(cwd, path).value == path
    ensures RelativizeAsWritten(cwd, cwd) == Some("")
    ensures !(cwd <= path) && IsAbs(path) ==> RelativizeAsWritten(cwd, path) == None
    ensures !(cwd <= path) && !IsAbs(path) ==> RelativizeAsWritten(cwd, path) == Some(path)
  {
    if cwd <= path && |path| > |cwd| {
      assert path == path[..|cwd|] + [path[|cwd|]] + path[|cwd| + 1..];
    }
    assert cwd <= cwd;
  }

  /** The relativisation the rewrite means: only paths inside the working directory lose it. */
  function Relativize(cwd: string, path: string): Option<string> {
    if cwd + "/" <= path then Some(path[|cwd| + 1..])
    else if "/" <= path then None
    else Some(path)
  }

  /**
   * A kept path names the same file as before: below the working directory, or relative
   * already. Relative paths are kept as they are, and absolute ones outside are dropped.
   */
  lemma RelativizeSpec(cwd: string, path: string)
    requires IsAbs(cwd)
    ensures Relativize(cwd, path).Some? ==>
      var r := Relativize(cwd, path).value;
      cwd + "/" + r == path || (r == path && !IsAbs(path))
    ensures !IsAbs(path) ==> Relativize(cwd, path) == Some(path)
    ensures IsAbs(path) && !(cwd + "/" <= path) ==> Relativize(cwd, path) == None
  {
    if cwd + "/" <= path {
      assert path == (cwd + "/") + path[|cwd| + 1..];
    }
  }

  /** A path below the working directory is made relative to it. */
  lemma RelativizeBelow(cwd: string, r: string)
    ensures Relativize(cwd, cwd + "/" + r) == Some(r)
  {
    var path := cwd + "/" + r;
    assert cwd + "/" <= path;
    assert path[|cwd| + 1..] == r;
  }

  /** Below the working directory the written rule does what the intended one does. */
  lemma RelativizeAsWrittenBelow(cwd: string, r: string)
    ensures RelativizeAsWritten(cwd, cwd + "/" + r) == Some(r)
  {
    var path := cwd + "/" + r;
    assert path[..|cwd|] == cwd;
    assert path[|cwd| + 1..] == r;
  }

  /** The two agree on every path that does not merely start with the working directory's text. */
  lemma RelativizeAgrees(cwd: string, path: string)
    requires !(cwd <= path) || cwd + "/" <= path
    ensures RelativizeAsWritten(cwd, path) == Relativize(cwd, path)
  {
    if cwd + "/" <= path {
      assert cwd <= path by {
        assert path[..|cwd|] == (cwd + "/")[..|cwd|];
      }
    }
  }

  /**
   * And they differ on every path that does: a sibling directory sharing the working
   * directory's name as a prefix, or the working directory itself.
   */
  lemma RelativizeDiffers(cwd: string, path: string)
    requires cwd != "" && cwd <= path && !(cwd + "/" <= path)
    ensures RelativizeAsWritten(cwd, path) != Relativize(cwd, path)
  {
    var w := RelativizeAsWritten(cwd, path);
    assert |w.value| < |path|;
  }

  /** A sibling directory sharing the working directory's name as a prefix keeps an absolute path. */
  lemma SiblingDirectoryAsWritten()
    ensures RelativizeAsWritten("/a/b", "/a/bc/x") == Some("/x")
    ensures "/a/b" + "/" + "/x" != "/a/bc/x"
  {
    var cwd, path := "/a/b", "/a/bc/x";
    assert cwd == path[..4];
    assert path[5..] == "/x";
    assert ("/a/b" + "/" + "/x")[4] != path[4];
  }

  /** The working directory itself is written to the new file as an empty line. */
  lemma WorkingDirectoryAsWritten()
    ensures RelativizeAsWritten("/a/b", "/a/b") == Some("")
  {
  }

  /** With `/` as the working directory the first letter of every absolute path is cut off. */
  lemma RootDirectoryAsWritten()
    ensures RelativizeAsWritten("/", "/usr/lib") == Some("sr/lib")
  {
    var path := "/usr/lib";
    assert "/" == path[..1];
    assert path[2..] == "sr/lib";
  }

  /** The corrected rule drops that path, since it lies outside the working directory. */
  lemma SiblingDirectoryCorrected()
    ensures Relativize("/a/b", "/a/bc/x") == None
  {
    var cwd, path := "/a/b", "/a/bc/x";
    assert (cwd + "/")[4] != path[4];
  }

  function KeptOne(cwd: string, path: string): seq<string> {
    match RelativizeAsWritten(cwd, path)
    case Some(r) => [r]
    case None => []
  }

  /** `relative_paths`: the kept dependency paths, in order. */
  function Kept(cwd: string, deps: seq<string>): seq<string>
    decreases |deps|
  {
    if deps == [] then []
    else
      var n := |deps| - 1;
      Kept(cwd, deps[..n]) + KeptOne(cwd, deps[n])
  }

  /** Exactly the paths the written rule keeps are listed. */
  lemma {:induction false} KeptMembers(cwd: string, deps: seq<string>, x: string)
    ensures x in Kept(cwd, deps) <==> exists i :: 0 <= i < |deps| && RelativizeAsWritten(cwd, deps[i]) == Some(x)
    decreases |deps|
  {
    if deps != [] {
      var n := |deps| - 1;
      KeptMembers(cwd, deps[..n], x);
      assert forall i :: 0 <= i < n ==> deps[..n][i] == deps[i];
    }
  }

  /**
   * When no dependency merely starts with the working directory's text, the list written is
   * exactly the list of dependencies the intended rule keeps.
   */
  lemma KeptAsIntended(cwd: string, deps: seq<string>, x: string)
    requires forall i :: 0 <= i < |deps| ==> !(cwd <= deps[i]) || cwd + "/" <= deps[i]
    ensures x in Kept(cwd, deps) <==> exists i :: 0 <= i < |deps| && Relativize(cwd, deps[i]) == Some(x)
  {
    KeptMembers(cwd, deps, x);
    forall i | 0 <= i < |deps| ensures RelativizeAsWritten(cwd, deps[i]) == Relativize(cwd, deps[i]) {
      RelativizeAgrees(cwd, deps[i]);
    }
  }

  /** The loop of `_rewrite_dependency_file` over the dependencies (lines 108-120). */
  method RelativePaths(cwd: string, deps: seq<string>) returns (relativePaths: seq<string>)
    ensures relativePaths == Kept(cwd, deps)
  {
    relativePaths := [];
    var i := 0;
    while i < |deps|
      invariant 0 <= i <= |deps|
      invariant relativePaths == Kept(cwd, deps[..i])
    {
      var path := deps[i];
      assert deps[..i + 1][..i] == deps[..i];
      if cwd <= path {
        relativePaths := relativePaths + [if |cwd| + 1 <= |path| then path[|cwd| + 1..] else ""];
      } else if "/" <= path {
      } else {
        relativePaths := relativePaths + [path];
      }
      i := i + 1;
    }
    assert deps[..i] == deps;
  }

  /** The new dependency file: the kept paths sorted, one per line, each line ended. */
  function DependencyFile(cwd: string, deps: seq<string>): string {
    Join("\n", SortStrings(Kept(cwd, deps))) + "\n"
  }

  /**
   * `_rewrite_dependency_file`: the first tracked rule's inputs, split into words by `tokenize`
   * (`shlex.split`), rewritten.
   */
  function RewrittenDependencies(lines: seq<string>, cwd: string, tokenize: string -> seq<string>): Result<string, Error> {
    match TrackedInputs(lines)
    case Success(inputs) => Success(DependencyFile(cwd, tokenize(inputs)))
    case Failure(e) => Failure(e)
  }

  method RewriteDependencyFile(lines: seq<string>, cwd: string, tokenize: string -> seq<string>)
    returns (r: Result<string, Error>)
    ensures r == RewrittenDependencies(lines, cwd, tokenize)
  {
    var found := FindTrackedInputs(lines);
    if found.Failure? {
      return Failure(found.error);
    }
    var relativePaths := RelativePaths(cwd, tokenize(found.value));
    return Success(Join("\n", SortStrings(relativePaths)) + "\n");
  }

  /** Splitting at a first separator after `a`. */
  lemma SplitOnFirst(a: string, rest: string, more: seq<string>, c: char)
    requires c !in a
    requires SplitOn(rest, c) == more + [""]
    ensures SplitOn(a + [c] + rest, c) == [a] + more + [""]
  {
    var s := a + [c] + rest;
    assert s[..|a|] == a;
    IndexOfAt(s, c, |a|);
    assert s[|a| + 1..] == rest;
  }

  lemma JoinEnded(xs: seq<string>, c: char)
    requires |xs| > 1
    ensures Join([c], xs) + [c] == xs[0] + [c] + (Join([c], xs[1..]) + [c])
  {
  }

  /** Pieces joined with a separator and ended by one split back into the pieces and an empty last piece. */
  lemma {:induction false} JoinedLinesSplit(xs: seq<string>, c: char)
    requires xs != [] && forall i :: 0 <= i < |xs| ==> c !in xs[i]
    ensures SplitOn(Join([c], xs) + [c], c) == xs + [""]
    decreases |xs|
  {
    if |xs| == 1 {
      assert Join([c], xs) + [c] == xs[0] + [c] + "";
      SplitOnFirst(xs[0], "", [], c);
    } else {
      var tail := xs[1..];
      JoinedLinesSplit(tail, c);
      JoinEnded(xs, c);
      SplitOnFirst(xs[0], Join([c], tail) + [c], tail, c);
      assert [xs[0]] + tail == xs;
    }
  }

  /** A kept path is a piece of the dependency path, so it holds no character the path lacks. */
  lemma RelativizePiece(cwd: string, path: string, c: char)
    requires RelativizeAsWritten(cwd, path).Some? && c in RelativizeAsWritten(cwd, path).value
    ensures c in path
  {
    var r := RelativizeAsWritten(cwd, path).value;
    var k :| 0 <= k < |r| && r[k] == c;
    if cwd <= path {
      assert path[|cwd| + 1 + k] == c;
    }
  }

  /**
   * Read back line by line, the new dependency file lists the kept paths in sorted order and
   * nothing else; with none kept it is a single empty line.
   */
  lemma DependencyFileLines(cwd: string, deps: seq<string>)
    requires forall i :: 0 <= i < |deps| ==> '\n' !in deps[i]
    ensures Kept(cwd, deps) != [] ==> SplitOn(DependencyFile(cwd, deps), '\n') == SortStrings(Kept(cwd, deps)) + [""]
    ensures Kept(cwd, deps) == [] ==> DependencyFile(cwd, deps) == "\n"
  {
    var kept := Kept(cwd, deps);
    var sorted := SortStrings(kept);
    if kept != [] {
      forall i | 0 <= i < |sorted| ensures '\n' !in sorted[i] {
        var x := sorted[i];
        assert x in multiset(sorted);
        assert x in kept;
        KeptMembers(cwd, deps, x);
        var j :| 0 <= j < |deps| && RelativizeAsWritten(cwd, deps[j]) == Some(x);
        if '\n' in x {
          RelativizePiece(cwd, deps[j], '\n');
        }
      }
      assert |sorted| == |multiset(kept)|;
      JoinedLinesSplit(sorted, '\n');
    }
  }

  // ---------------------------------------------------------------------------------------------
  // The output file map that skips incremental outputs
  // ---------------------------------------------------------------------------------------------

  const SwiftFilesArgsfile: string := ".swift_files"

  /** The first argument naming the swift-files argument file. */
  function SwiftFilesArg(command: seq<string>): (r: Option<string>)
    ensures r.Some? ==> r.value in command && EndsWith(r.value, SwiftFilesArgsfile)
    decreases |command|
  {
    if command == [] then None
    else if EndsWith(command[0], SwiftFilesArgsfile) then Some(command[0])
    else SwiftFilesArg(command[1..])
  }

  predicate IsDoubleQuote(c: char) {
    c == '"'
  }

  predicate IsSingleQuote(c: char) {
    c == '\''
  }

  /** `line.rstrip().strip('"').strip("'")` */
  function CleanSwiftFileLine(line: string): string {
    StripChars(StripChars(RStrip(line), IsDoubleQuote), IsSingleQuote)
  }

  /** A file name as the argument file lists it: not blank at its end and not quoted itself. */
  predicate PlainName(w: string) {
    w != [] && !IsSpace(w[|w| - 1])
    && !IsDoubleQuote(w[0]) && !IsDoubleQuote(w[|w| - 1])
    && !IsSingleQuote(w[0]) && !IsSingleQuote(w[|w| - 1])
  }

  lemma StripCharsOfPlain(w: string, drop: char -> bool)
    requires w != [] && !drop(w[0]) && !drop(w[|w| - 1])
    ensures StripChars(w, drop) == w
  {
  }

  /** A name, quoted with either quote character or not at all, is read back without the quotes or the line end. */
  lemma CleanQuotedLine(q: string, w: string, ws: string)
    requires q == "" || q == "\"" || q == "'"
    requires PlainName(w)
    requires forall k :: 0 <= k < |ws| ==> IsSpace(ws[k])
    ensures CleanSwiftFileLine(q + w + q + ws) == w
  {
    var quoted := q + w + q;
    assert quoted[|quoted| - 1] == if q == "" then w[|w| - 1] else q[0];
    TrimEndTrailing(quoted, ws, IsSpace);
    if q == "\"" {
      assert quoted == q + (w + q);
      TrimStartLeading(q, w + q, IsDoubleQuote);
      TrimEndTrailing(w, q, IsDoubleQuote);
      StripCharsOfPlain(w, IsSingleQuote);
    } else if q == "'" {
      assert quoted == q + (w + q);
      StripCharsOfPlain(quoted, IsDoubleQuote);
      TrimStartLeading(q, w + q, IsSingleQuote);
      TrimEndTrailing(w, q, IsSingleQuote);
    } else {
      assert quoted == w;
      StripCharsOfPlain(w, IsDoubleQuote);
      StripCharsOfPlain(w, IsSingleQuote);
    }
  }

  /**
   * `_get_swift_files_to_compile(command)`: the cleaned lines of the swift-files argument file,
   * named without its leading `@`.
   */
  function SwiftFilesToCompile(command: seq<string>, files: map<string, seq<string>>): Result<seq<string>, Error> {
    match SwiftFilesArg(command)
    case None => Failure(Exception("No " + SwiftFilesArgsfile + " found!"))
    case Some(arg) =>
      var path := arg[1..];
      if path in files then Success(MapEach(files[path], CleanSwiftFileLine)) else Failure(FileNotFoundError(path))
  }

  /** An entry of the output file map. */
  datatype OutputEntry = OutputEntry(object: Option<string>, swiftDependencies: string)

  /** `swift_file.split("/")[-1]` */
  function BaseName(path: string): string {
    var pieces := SplitOn(path, '/');
    pieces[|pieces| - 1]
  }

  const Incremental: string := "/__swift_incremental__/"

  /** The module-level entry: only the build record. */
  function ModuleEntry(outputDir: string): OutputEntry {
    OutputEntry(None, outputDir + Incremental + "swiftdeps/module-build-record.priors")
  }

  /** A swift file's entry: its object and its dependency record, both named after its base name. */
  function FileEntry(outputDir: string, swiftFile: string): OutputEntry {
    var name := BaseName(swiftFile);
    OutputEntry(Some(outputDir + Incremental + "objects/" + name + ".o"), outputDir + Incremental + "swiftdeps/" + name + ".swiftdeps")
  }

  /** `output_file_map_content` after the loop over `swift_files`. */
  function IncrementalMap(outputDir: string, swiftFiles: seq<string>): map<string, OutputEntry>
    decreases |swiftFiles|
  {
    if swiftFiles == [] then map["" := ModuleEntry(outputDir)]
    else
      var n := |swiftFiles| - 1;
      IncrementalMap(outputDir, swiftFiles[..n])[swiftFiles[n] := FileEntry(outputDir, swiftFiles[n])]
  }

  /**
   * The map holds the module entry under `""` and one entry per swift file, named after the
   * file's base name; a swift file listed as `""` replaces the module entry.
   */
  lemma {:induction false} IncrementalMapSpec(outputDir: string, swiftFiles: seq<string>)
    ensures forall k :: k in IncrementalMap(outputDir, swiftFiles) <==> k == "" || k in swiftFiles
    ensures forall i :: 0 <= i < |swiftFiles| ==>
      IncrementalMap(outputDir, swiftFiles)[swiftFiles[i]] == FileEntry(outputDir, swiftFiles[i])
    ensures "" !in swiftFiles ==> IncrementalMap(outputDir, swiftFiles)[""] == ModuleEntry(outputDir)
    decreases |swiftFiles|
  {
    if swiftFiles != [] {
      var n := |swiftFiles| - 1;
      IncrementalMapSpec(outputDir, swiftFiles[..n]);
      assert swiftFiles == swiftFiles[..n] + [swiftFiles[n]];
    }
  }

  /** The loop of `_process_skip_incremental_outputs` (lines 312-331). */
  method BuildIncrementalMap(outputDir: string, swiftFiles: seq<string>) returns (content: map<string, OutputEntry>)
    ensures content == IncrementalMap(outputDir, swiftFiles)
  {
    content := map["" := OutputEntry(None, outputDir + Incremental + "swiftdeps/module-build-record.priors")];
    var i := 0;
    while i < |swiftFiles|
      invariant 0 <= i <= |swiftFiles|
      invariant content == IncrementalMap(outputDir, swiftFiles[..i])
    {
      var swiftFile := swiftFiles[i];
      var fileName := BaseName(swiftFile);
      var outputArtifact := outputDir + Incremental + "objects/" + fileName + ".o";
      var swiftdepsArtifact := outputDir + Incremental + "swiftdeps/" + fileName + ".swiftdeps";
      assert swiftFiles[..i + 1][..i] == swiftFiles[..i];
      content := content[swiftFile := OutputEntry(Some(outputArtifact), swiftdepsArtifact)];
      i := i + 1;
    }
    assert swiftFiles[..i] == swiftFiles;
  }

  /**
   * `_process_skip_incremental_outputs(command)`: the content written over the output file map,
   * whose directory's parent holds the incremental outputs.
   */
  function ProcessSkipIncrementalOutputs(command: seq<string>, files: map<string, seq<string>>): Result<map<string, OutputEntry>, Error> {
    var outputFileMap :- ArgAfter(command, "-output-file-map");
    var outputDir := Dirname(Dirname(outputFileMap));
    var swiftFiles :- SwiftFilesToCompile(command, files);
    Success(IncrementalMap(outputDir, swiftFiles))
  }

  /** The last piece of a path whose file name holds no `/` is that file name. */
  lemma BaseNameOf(dir: string, name: string)
    requires '/' !in name
    ensures BaseName(dir + "/" + name) == name
    ensures BaseName(name) == name
  {
    assert IndexOf(name, '/').None?;
    assert SplitOn(name, '/') == [name];
    SplitOnConcat(dir, name, '/');
    assert dir + "/" + name == dir + ['/'] + name;
  }

  /**
   * The map `_process_skip_incremental_outputs` writes: the module entry under `""` and an entry
   * for every swift file, all below the parent of the output file map's directory.
   */
  lemma SkipIncrementalOutputsMap(command: seq<string>, files: map<string, seq<string>>)
    requires ProcessSkipIncrementalOutputs(command, files).Success?
    ensures var outputDir := Dirname(Dirname(ArgAfter(command, "-output-file-map").value));
            var swiftFiles := SwiftFilesToCompile(command, files).value;
            var content := ProcessSkipIncrementalOutputs(command, files).value;
            && (forall k :: k in content <==> k == "" || k in swiftFiles)
            && (forall i :: 0 <= i < |swiftFiles| ==> content[swiftFiles[i]] == FileEntry(outputDir, swiftFiles[i]))
            && ("" !in swiftFiles ==> content[""] == ModuleEntry(outputDir))
  {
    IncrementalMapSpec(Dirname(Dirname(ArgAfter(command, "-output-file-map").value)), SwiftFilesToCompile(command, files).value);
  }
}
