# Haskell target metadata, toolchain catalog and Swift wrapper logic in Dafny

This project models the build-rule helper scripts of a Buck2 prelude that turn compiler output
into build metadata, and proves properties of the model.

- **Older Haskell resolver** (`PreludeTargetMetadata`, `PackageTrie`, `TransitiveDeps`, `PreludeResult`).
  - Module names come from source paths.
  - A trie of the dependency packages' output prefixes is built; its leaves are the `//pkgname` sentinel.
  - Every path that `ghc -M` reports is classified as a dropped source or absolute path, a cross-package module (a trie hit) or an intra-package module.
  - The report is folded into the module mapping, the intra-package graph and the cross-package graph.
  - A transitive table is built in two phases. First, every module's direct cross-package modules, with the closures their packages record. Second, a fold along a topological order of the graph.
- **Newer Haskell resolver** (`TargetMetadata`). It reads a structured per-module report and produces:
  - the Template Haskell modules, from their `-X` options;
  - the apparent-to-actual module mapping, which checks for exactly one source and one boot source, and names boot nodes with `-boot`;
  - the intra-package graph, boot nodes included;
  - the direct package dependencies.
- **Toolchain library catalog** (`ToolchainLibraryCatalog`).
  - The `ghc-pkg dump` command line.
  - The line-by-line record parser as a state machine over line kinds.
  - The package-name map and the import-directory trie, whose leaves are the `//pkgid` sentinel.
- **Template Haskell pragma detector** (`DetectThExtension`). The pragma test written out as a predicate on a line, the early-exit search over a file's lines, and the output of one module per line.
- **Swift compiler wrapper** (`SwiftExec`).
  - Splitting `-Xwrapper` arguments from driver arguments, and the wrapper's own options with their consistency check.
  - The module names whose prefixes are removed from interface files, and the prefix-replacement rule.
  - The dependency-file rewrite: picking the tracked line, shortening paths that start with the working directory (as the code does it, beside the intended rule), sorting, and the newline-joined output.
  - The output file map for skipping incremental outputs, and the cleanup of swift-file argument lines.

Shared modules:
- `Wrappers` holds `Option` and `Result`.
- `PyStr` holds the Python string and list built-ins the scripts use: `strip`, `split`, `startswith`, `in`, code-point string order and `sorted`.
- `PyPath` holds `os.path.splitext`, `os.path.dirname`, `os.path.isabs` and `PurePosixPath.parts`.
- `HaskellNames` holds the path-to-module-name functions that both resolvers share.

Modelling choices:
- **Dictionaries.** A dictionary the source iterates in insertion order (a `ghc -M` report, the dependency metadata) is a sequence of `(key, value)` pairs. `PreludeResult.Assign` models assignment into such a dictionary, where a key keeps the place of its first insertion. A dictionary that is only looked up or produced is a Dafny `map`.
- **Nested-dictionary tries.** These are a `Trie` datatype whose sentinel key is a separate `leaf` field. A path component never contains `/`, so it can never equal the sentinel.
- **Imperative source.** Loops that fill lists and dictionaries become `method`s with loop invariants. Each such method is proved equal to a recursive specification function, and the properties are lemmas about those functions.

## Model

| member | source | states |
|---|---|---|
| HaskellNames.ModuleNameShape | prelude/haskell/tools/generate_target_metadata.py:272-274 | a module name is as long as its path without the extension and contains no `/` |
| HaskellNames.ModuleNameOfFile | prelude/haskell/tools/generate_target_metadata.py:272-274 | `src_to_module_name(b + e)` for a stem `b` and extension `e` drops `e` and turns each `/` of `b` into `.` |
| HaskellNames.ModuleNameExample | prelude/haskell/tools/generate_target_metadata.py:272-274 | `Foo/Util.o` is named `Foo.Util` |
| HaskellNames.NamedAs | haskell/tools/generate_target_metadata.py:243-245 | a path `b + e` is named by the string that equals `b` with `/` read as `.`, position by position |
| HaskellNames.ModuleNameNotInjective | haskell/tools/generate_target_metadata.py:243-245 | `Foo/Bar.hs` and `Foo.Bar.hs` get the same module name `Foo.Bar`: the naming is not injective |
| HaskellNames.ModuleNameIgnoresExtension | haskell/tools/generate_target_metadata.py:243-245 | `A.hs` and `A.lhs` both name `A` |
| HaskellNames.ModuleNameInjectiveWithoutDots | haskell/tools/generate_target_metadata.py:243-245 | two stems without dots and with equal extensions that give the same name are equal |
| HaskellNames.HaskellSourcesMembers | haskell/tools/generate_target_metadata.py:248-250 | `filter(is_haskell_src, vs)` keeps exactly the Haskell sources of `vs` and is no longer than `vs` |
| HaskellNames.BootSourcesMembers | haskell/tools/generate_target_metadata.py:253-255 | `filter(is_haskell_boot, vs)` keeps exactly the boot sources of `vs` |
| HaskellNames.HaskellSrcOfFile | haskell/tools/generate_target_metadata.py:248-271 | a file is a Haskell source iff its extension is one of `.hs .lhs .hsc .chs .x .y`, and a boot source iff it is `.hs-boot` or `.lhs-boot` |
| HaskellNames.SourceAndBootDisjoint | haskell/tools/generate_target_metadata.py:258-271 | no file is both a Haskell source and a boot source |
| HaskellNames.FiltersDisjoint | haskell/tools/generate_target_metadata.py:248-255 | the source and boot filters of one list share no element |
| HaskellNames.StripPrefix | prelude/haskell/tools/generate_target_metadata.py:301-305 | `strip_prefix` gives a value iff `s` starts with the prefix, and the prefix followed by that value is `s` again |
| HaskellNames.StripPrefixOr | prelude/haskell/tools/generate_target_metadata.py:292-298 | `strip_prefix_` gives the rest `t` with `prefix + t == s` when `s` starts with the prefix, and `s` unchanged otherwise |
| HaskellNames.ApparentNameBelowPrefix | haskell/tools/generate_target_metadata.py:145 | a source `prefix/rel` is apparently named by `rel` alone |
| PyPath.SplitExtParts | prelude/haskell/tools/generate_target_metadata.py:273 | `os.path.splitext` splits a path into root and extension; the extension is empty or a dot followed by neither `/` nor `.` |
| PyPath.SplitExtOfAppend | prelude/haskell/tools/generate_target_metadata.py:273 | a stem followed by a well-formed extension splits back into exactly those two |
| PyPath.PartsSpec | prelude/haskell/tools/generate_target_metadata.py:165 | `Path.parts` after the root are non-empty components other than `.` without `/` |
| PyPath.PartsConcat | prelude/haskell/tools/generate_target_metadata.py:179 | the parts of `a/b` for relative `a` and `b` are the parts of `a` followed by those of `b` |
| PyPath.Dirname | prelude/haskell/tools/generate_target_metadata.py:84 | `os.path.dirname` gives a prefix of the path, and the empty string for a path without `/` |
| PackageTrie.DescendEmpty | prelude/haskell/tools/generate_target_metadata.py:161 | the empty trie has only its root layer and no leaf |
| PackageTrie.InsertDescend | prelude/haskell/tools/generate_target_metadata.py:164-167 | registering a path sets the leaf at that path only and adds exactly the layers along it |
| PackageTrie.LastRegistered | prelude/haskell/tools/generate_target_metadata.py:162-167 | the package registered last at a path is one of the registered entries for that path |
| PackageTrie.BuildRegisters | prelude/haskell/tools/generate_target_metadata.py:155-168 | the built trie holds at each path the last package registered there, and its layers are exactly the prefixes of registered paths |
| PackageTrie.LastRegisteredIs | prelude/haskell/tools/generate_target_metadata.py:167 | a path registered again later is overwritten: the last registration wins |
| PackageTrie.Unregistered | prelude/haskell/tools/generate_target_metadata.py:162-167 | a path never registered has no leaf |
| PackageTrie.CalcPackagePrefixes | prelude/haskell/tools/generate_target_metadata.py:155-168 | the loop builds the trie of all dependencies' output prefixes, each dependency registered under the parts of its output prefix (`PrefixEntries`) |
| PackageTrie.FirstLeafIsShortest | prelude/haskell/tools/generate_target_metadata.py:179-185 | the walk stops at the shortest non-empty registered prefix of the path, or finds none when no prefix is registered |
| PackageTrie.LeafAtStep | prelude/haskell/tools/generate_target_metadata.py:180 | descending one layer looks up the rest of the path in the child |
| PackageTrie.Drop | prelude/haskell/tools/generate_target_metadata.py:184 | `parts[n:]` is what follows the first `n` parts, which put back in front give `parts` again; it is empty when `n` is past the end |
| PackageTrie.WalkTrie | prelude/haskell/tools/generate_target_metadata.py:178-185 | the loop of `lookup_package_dep` returns the first package met and the offset where it was met |
| PackageTrie.LookupPackageDep | prelude/haskell/tools/generate_target_metadata.py:171-185 | `lookup_package_dep` gives the first package on the path and the module named by the parts after the next one |
| PackageTrie.FirstLeafOfPrefix | prelude/haskell/tools/generate_target_metadata.py:183-185 | a registered prefix with no registered shorter prefix is where the walk stops, whatever follows |
| PackageTrie.LookupBelowPrefix | prelude/haskell/tools/generate_target_metadata.py:171-185 | `prefix/dir/rel` looks up to the prefix's package and the module named by `rel`: exactly one component after the prefix is skipped |
| PackageTrie.PartsOfInterfaceFile | prelude/haskell/tools/generate_target_metadata.py:177 | the parts of `prefix/dir/rel` are the prefix's parts, `dir`, then the parts of `rel` |
| PackageTrie.ComponentOnly | prelude/haskell/tools/generate_target_metadata.py:177 | a single component is its own only part |
| PackageTrie.RegisteredDependencyResolves | prelude/haskell/tools/generate_target_metadata.py:155-186 | trie round trip: a path below a dependency's output prefix resolves to that package and the module below the skipped directory |
| PackageTrie.RootRegistrationIgnored | prelude/haskell/tools/generate_target_metadata.py:179-185 | a package registered at the empty prefix is never found, because the leaf is checked only after descending |
| PreludeTargetMetadata.Kinds | prelude/haskell/tools/generate_target_metadata.py:232 | one classification per dependency path |
| PreludeTargetMetadata.KindsAt | prelude/haskell/tools/generate_target_metadata.py:232-244 | each path is classified as a source (dropped), absolute (dropped), a trie hit (external) or otherwise internal, in that order of tests |
| PreludeTargetMetadata.ParsePartitions | prelude/haskell/tools/generate_target_metadata.py:228-246 | every classified path goes to exactly one of the internal list, the external map or the dropped ones |
| PreludeTargetMetadata.ParseModuleDepsPlaces | prelude/haskell/tools/generate_target_metadata.py:239-244 | an internal path's module is in the internal list, and an external one's module is listed under its package |
| PreludeTargetMetadata.ParsePlaces | prelude/haskell/tools/generate_target_metadata.py:239-244 | the same placement for any list of classified paths |
| PreludeTargetMetadata.ExternalsByPackage | prelude/haskell/tools/generate_target_metadata.py:241 | a package is a key of the external map iff some path hits it, and its list is those modules in input order |
| PreludeTargetMetadata.TotalLengthRemove | prelude/haskell/tools/generate_target_metadata.py:241 | the total number of listed modules counts each package's list once |
| PreludeTargetMetadata.TotalLengthUpdate | prelude/haskell/tools/generate_target_metadata.py:241 | replacing one package's list changes the total by the difference in length |
| PreludeTargetMetadata.PickKey | prelude/haskell/tools/generate_target_metadata.py:202 | the key picked from a non-empty map is one of its keys |
| PreludeTargetMetadata.ParseDependency | prelude/haskell/tools/generate_target_metadata.py:233-244 | one step of the loop classifies one path as the specification does |
| PreludeTargetMetadata.ParseModuleDeps | prelude/haskell/tools/generate_target_metadata.py:228-246 | `parse_module_deps` returns the internal list and external map of the classification |
| PreludeTargetMetadata.ExtendEntry | prelude/haskell/tools/generate_target_metadata.py:202-203 | the inner loop appends each package's new modules to its old list in the module's cross-package entry (`ExtendAll`) |
| PreludeTargetMetadata.StripDotSlash | prelude/haskell/tools/generate_target_metadata.py:196 | stripping `./` keeps the number of values |
| PreludeTargetMetadata.StripDotSlashAt | prelude/haskell/tools/generate_target_metadata.py:196 | each value loses a leading `./` and nothing else |
| PreludeTargetMetadata.Normalize | prelude/haskell/tools/generate_target_metadata.py:195-196 | normalising keeps the number of report entries |
| PreludeTargetMetadata.NormalizeAt | prelude/haskell/tools/generate_target_metadata.py:195-196 | each key and each value loses a leading `./` |
| PreludeTargetMetadata.ObjectMappings | prelude/haskell/tools/generate_target_metadata.py:205-223 | one mapping decision per report entry |
| PreludeTargetMetadata.ObjectMappingsAt | prelude/haskell/tools/generate_target_metadata.py:205-223 | each entry's decision is taken from its own key and values alone |
| PreludeTargetMetadata.AmbiguousObject | prelude/haskell/tools/generate_target_metadata.py:205-215 | an entry fails the assertion iff its key is a `.o` file and it has more than one Haskell source |
| PreludeTargetMetadata.MappingFails | prelude/haskell/tools/generate_target_metadata.py:215 | the mapping fold fails iff some entry has more than one source |
| PreludeTargetMetadata.MappingFailureSticks | prelude/haskell/tools/generate_target_metadata.py:215 | once the assertion fails, later entries do not change the outcome |
| PreludeTargetMetadata.MappingSources | prelude/haskell/tools/generate_target_metadata.py:219-223 | every mapping entry `a -> b` has `a != b` and comes from an object file whose source is apparently named `a` |
| PreludeTargetMetadata.InterpretMapping | prelude/haskell/tools/generate_target_metadata.py:205-223 | every entry of the interpreted mapping comes from a single-source object file whose apparent name differs from its module name |
| PreludeTargetMetadata.InterpretFails | prelude/haskell/tools/generate_target_metadata.py:188-225 | interpretation fails iff some normalised entry is an object file with several sources |
| PreludeTargetMetadata.KeyModulesMembers | prelude/haskell/tools/generate_target_metadata.py:198 | the report's modules are exactly the module names of its keys |
| PreludeTargetMetadata.GraphEntries | prelude/haskell/tools/generate_target_metadata.py:201 | every key contributes a graph entry, even without dependencies, and each entry gathers all internal dependencies listed under that module |
| PreludeTargetMetadata.GraphForAbsent | prelude/haskell/tools/generate_target_metadata.py:201 | a module that is no key gathers no dependencies |
| PreludeTargetMetadata.ExtGraphWithinGraph | prelude/haskell/tools/generate_target_metadata.py:202-203 | the cross-package graph has only graph modules as keys and no empty entry |
| PreludeTargetMetadata.AddModuleDeps | prelude/haskell/tools/generate_target_metadata.py:199-203 | one report entry extends the graph and, when it has external dependencies, the cross-package graph |
| PreludeTargetMetadata.RecordObject | prelude/haskell/tools/generate_target_metadata.py:205-223 | the object-file part of one entry makes the mapping decision of the specification |
| PreludeTargetMetadata.InterpretEntry | prelude/haskell/tools/generate_target_metadata.py:194-223 | one iteration of the loop: normalise, then extend the graphs and the mapping |
| PreludeTargetMetadata.InterpretGhcDepends | prelude/haskell/tools/generate_target_metadata.py:188-225 | `interpret_ghc_depends` is the fold of the whole report |
| PreludeTargetMetadata.ThModuleNamesMembers | prelude/haskell/tools/generate_target_metadata.py:103-112 | the Template Haskell modules are exactly the apparent names of the sources that use it |
| PreludeTargetMetadata.DetermineThModules | prelude/haskell/tools/generate_target_metadata.py:103-112 | the loop lists those names in source order |
| PreludeTargetMetadata.JsonDefaultHandler | prelude/haskell/tools/generate_target_metadata.py:77-80 | a set is encoded as its sorted elements; any other object raises `TypeError` with the type's name |
| PreludeTargetMetadata.JsonDefaultOrderFree | haskell/tools/generate_target_metadata.py:91-94 | the encoding of a set does not depend on the order its elements are held in |
| PreludeResult.Lookup | prelude/haskell/tools/generate_target_metadata.py:257 | a dictionary lookup finds a value iff the key is present |
| PreludeResult.Assign | prelude/haskell/tools/generate_target_metadata.py:150 | assigning into a dictionary adds at most one item |
| PreludeResult.AssignLookup | prelude/haskell/tools/generate_target_metadata.py:150 | after `d[k] = v`, looking up `k` gives `v` and every other key is unchanged |
| PreludeResult.AssignPresent | prelude/haskell/tools/generate_target_metadata.py:150 | assigning to a present key replaces its value in place and moves nothing |
| PreludeResult.AssignAbsent | prelude/haskell/tools/generate_target_metadata.py:150 | assigning a new key appends it |
| PreludeResult.AssignDistinct | prelude/haskell/tools/generate_target_metadata.py:150 | assignment keeps keys distinct |
| PreludeResult.LoadedDistinct | prelude/haskell/tools/generate_target_metadata.py:144-152 | the loaded metadata holds each package name once |
| PreludeResult.LastNamed | prelude/haskell/tools/generate_target_metadata.py:147-150 | the last metadata file naming a package, or none when no file names it |
| PreludeResult.LoadedLast | prelude/haskell/tools/generate_target_metadata.py:144-152 | a package is loaded iff some file names it, with the metadata of the last such file |
| PreludeResult.LoadedKeepsFirstPlace | prelude/haskell/tools/generate_target_metadata.py:150 | a repeated package name keeps its first place in iteration order |
| PreludeResult.LoadDependenciesMetadata | prelude/haskell/tools/generate_target_metadata.py:144-152 | the loop computes the loaded dictionary |
| PreludeResult.LookupAt | prelude/haskell/tools/generate_target_metadata.py:257 | a present key is found with its value |
| PreludeResult.UpstreamLast | prelude/haskell/tools/generate_target_metadata.py:144-152 | a package has recorded closures (`UpstreamOf`) iff some metadata file names it, and they are those of the last file naming it |
| PreludeResult.ObtainTargetMetadata | prelude/haskell/tools/generate_target_metadata.py:83-100 | the result. It succeeds iff the report interprets, every upstream module is recorded and the graph is sorted and closed. It then holds the package name, the output directory, the Template Haskell modules, the mapping, the graph and a transitive closure over the first-phase table. A failed interpretation is reported as such, and a cycle only for an unsortable graph |
| TransitiveDeps.MergeAt | prelude/haskell/tools/generate_target_metadata.py:254 | merging rows is package-wise union of module sets |
| TransitiveDeps.MergeSub | prelude/haskell/tools/generate_target_metadata.py:254 | a merge contains both rows it merges |
| TransitiveDeps.MergeAssoc | prelude/haskell/tools/generate_target_metadata.py:254-267 | merging is associative |
| TransitiveDeps.MergeSwap | prelude/haskell/tools/generate_target_metadata.py:254-267 | the order of two merges does not matter |
| TransitiveDeps.SetDefaultUpdate | prelude/haskell/tools/generate_target_metadata.py:254 | `setdefault(p, set()).update(s)` is a merge with `{p: s}` |
| TransitiveDeps.MergeInto | prelude/haskell/tools/generate_target_metadata.py:266-267 | the loop over a dependency's row merges that row into the current one |
| TransitiveDeps.ListedAt | prelude/haskell/tools/generate_target_metadata.py:254 | the modules listed directly under each package |
| TransitiveDeps.InheritedAt | prelude/haskell/tools/generate_target_metadata.py:256-259 | a package is inherited iff some direct cross-package module records it in its closure |
| TransitiveDeps.InheritedModuleAt | prelude/haskell/tools/generate_target_metadata.py:256-259 | a module is inherited under a package iff some direct module's recorded closure lists it there |
| TransitiveDeps.DirectContents | prelude/haskell/tools/generate_target_metadata.py:250-259 | a first-phase row is each direct cross-package module together with the closure its package records for it |
| TransitiveDeps.InheritPackage | prelude/haskell/tools/generate_target_metadata.py:256-259 | the loop over one package's modules merges their recorded closures, or fails with the first module its package does not record |
| TransitiveDeps.DirectEntry | prelude/haskell/tools/generate_target_metadata.py:253-259 | one module's first-phase row, or the missing upstream record |
| TransitiveDeps.AddPackage | prelude/haskell/tools/generate_target_metadata.py:254-259 | one package's step of the first phase |
| TransitiveDeps.PackageStep | prelude/haskell/tools/generate_target_metadata.py:254-259 | that step extends the partial row by the package's modules and their closures |
| TransitiveDeps.InheritFromPartial | prelude/haskell/tools/generate_target_metadata.py:256-259 | inheriting modules one by one builds the partial row |
| TransitiveDeps.AllAvailableMeans | prelude/haskell/tools/generate_target_metadata.py:257 | every module read so far is recorded by its package |
| TransitiveDeps.Phase1Table | prelude/haskell/tools/generate_target_metadata.py:250 | the table has one key per module-graph key |
| TransitiveDeps.DirectOfNothing | prelude/haskell/tools/generate_target_metadata.py:250 | a module without cross-package dependencies starts empty |
| TransitiveDeps.PartialTableStep | prelude/haskell/tools/generate_target_metadata.py:252-254 | filling one module's row moves the partial table one module on |
| TransitiveDeps.DirectTable | prelude/haskell/tools/generate_target_metadata.py:250-259 | the first phase succeeds iff every module with packages is in the graph and every module read is recorded upstream; it then gives the first-phase table |
| TransitiveDeps.OwnUpdate | prelude/haskell/tools/generate_target_metadata.py:263-264 | the own-package update is a merge of `{pkgname: deps}` |
| TransitiveDeps.MergeRowsContains | prelude/haskell/tools/generate_target_metadata.py:265-267 | the merged rows of the dependencies contain each dependency's row |
| TransitiveDeps.MergeRowsFrame | prelude/haskell/tools/generate_target_metadata.py:265-267 | merged rows depend only on the dependencies' rows |
| TransitiveDeps.ModuleRow | prelude/haskell/tools/generate_target_metadata.py:262-267 | one module's second-phase row: its first-phase row, its own package's modules, and its dependencies' rows |
| TransitiveDeps.MergeDepRows | prelude/haskell/tools/generate_target_metadata.py:265-267 | the loop over dependencies merges their rows |
| TransitiveDeps.ProgressDeps | prelude/haskell/tools/generate_target_metadata.py:261-266 | in topological order, every dependency's row is final when a module is processed |
| TransitiveDeps.ProgressStep | prelude/haskell/tools/generate_target_metadata.py:261-267 | processing one module keeps the table a closure on the processed prefix of the order |
| TransitiveDeps.ProgressDone | prelude/haskell/tools/generate_target_metadata.py:261-269 | after the whole order the table is the closure |
| TransitiveDeps.NotClosed | prelude/haskell/tools/generate_target_metadata.py:262 | a dependency that is no graph key means the graph is not closed |
| TransitiveDeps.Propagate | prelude/haskell/tools/generate_target_metadata.py:261-267 | the second phase succeeds iff there is an order and the graph is closed. On success it gives the closure; otherwise the failure is a cycle or a dependency that is no key, which raises `KeyError` |
| TransitiveDeps.CalcTransitiveDeps | prelude/haskell/tools/generate_target_metadata.py:249-269 | `calc_transitive_deps` succeeds iff the first phase succeeds and the graph is sortable and closed; it then gives the closure over the first-phase table, and a cyclic graph raises |
| TransitiveDeps.ClosureContainsBase | prelude/haskell/tools/generate_target_metadata.py:250-259 | each row contains its first-phase row |
| TransitiveDeps.ClosureOwnPackage | prelude/haskell/tools/generate_target_metadata.py:263-264 | a module with intra-package dependencies lists them under its own package name |
| TransitiveDeps.ClosureContainsDeps | prelude/haskell/tools/generate_target_metadata.py:265-267 | each row is a superset of the row of every intra-package dependency |
| TransitiveDeps.ClosureContainsReachable | prelude/haskell/tools/generate_target_metadata.py:261-267 | each row contains the row of every module reachable from it |
| TransitiveDeps.ClosureUnique | prelude/haskell/tools/generate_target_metadata.py:261 | the closure is unique, so the result does not depend on which topological order the sorter picks |
| TransitiveDeps.AgreeAlongOrder | prelude/haskell/tools/generate_target_metadata.py:261 | tables agreeing on every module of the order are equal |
| TransitiveDeps.ClosureAgreesUpTo | prelude/haskell/tools/generate_target_metadata.py:261-267 | two closures agree on every prefix of the order |
| TransitiveDeps.PathGoesBack | prelude/haskell/tools/generate_target_metadata.py:261 | along a path the end comes earlier in a topological order than the start |
| TransitiveDeps.CycleNotSortable | prelude/haskell/tools/generate_target_metadata.py:261 | a graph with a cycle has no topological order |
| TransitiveDeps.TwoCycleNotSortable | prelude/haskell/tools/generate_target_metadata.py:261 | `X -> Y -> X` has no topological order |
| TransitiveDeps.SelfLoopNotSortable | prelude/haskell/tools/generate_target_metadata.py:261 | a self-dependent module has no topological order |
| TransitiveDeps.ReachesStep | prelude/haskell/tools/generate_target_metadata.py:265 | what a dependency reaches, the module reaches |
| TransitiveDeps.ClosureOrigin | prelude/haskell/tools/generate_target_metadata.py:249-269 | everything in a row comes from a reachable module's first-phase row or own dependencies: nothing is invented |
| TransitiveDeps.ClosureHasPackages | prelude/haskell/tools/generate_target_metadata.py:249-269 | every package with such an origin is in the row |
| TransitiveDeps.ClosureHasModules | prelude/haskell/tools/generate_target_metadata.py:249-269 | every module with such an origin is in the row: nothing inherited is lost |
| TransitiveDeps.ModuleReached | prelude/haskell/tools/generate_target_metadata.py:261-267 | a module listed by any reachable module is in the row |
| TransitiveDeps.BaseReached | prelude/haskell/tools/generate_target_metadata.py:261-267 | the first-phase row of any reachable module is contained in the row |
| TransitiveDeps.OwnReached | prelude/haskell/tools/generate_target_metadata.py:263-267 | the own-package modules of any reachable module are listed under the package name |
| TargetMetadata.UsesThIff | haskell/tools/generate_target_metadata.py:128-133 | `uses_th(opts)` holds iff some option is exactly `-X` followed by one of the three extensions |
| TargetMetadata.EachFlagCounts | haskell/tools/generate_target_metadata.py:128-133 | each of the three flags alone enables Template Haskell |
| TargetMetadata.NegatedFlagIgnored | haskell/tools/generate_target_metadata.py:133 | `-XNoTemplateHaskell`, a bare extension name and a longer flag do not count: membership is exact |
| TargetMetadata.ThModules | haskell/tools/generate_target_metadata.py:120-125 | the Template Haskell modules are exactly the report's modules whose options use it |
| TargetMetadata.ThModulesConcat | haskell/tools/generate_target_metadata.py:120-125 | the list keeps report order |
| TargetMetadata.ClassifyMeans | haskell/tools/generate_target_metadata.py:140-158 | an entry passes iff it has exactly one Haskell source and, with a boot part, exactly one boot source; otherwise the error names the module and the sources found (each entry's check is `Classified`) |
| TargetMetadata.BootSuffixCancels | haskell/tools/generate_target_metadata.py:152-161 | appending `-boot` to both names keeps them equal or different |
| TargetMetadata.RecordAt | haskell/tools/generate_target_metadata.py:147-161 | a key is in the mapping after one entry iff it was before or the entry writes it |
| TargetMetadata.SelfNamedRecordsNothing | haskell/tools/generate_target_metadata.py:147-148 | a module whose apparent name is its name adds no mapping entry |
| TargetMetadata.MappingFailureSticks | haskell/tools/generate_target_metadata.py:142-143 | the first failed entry ends the fold |
| TargetMetadata.MappingFoldSucceeds | haskell/tools/generate_target_metadata.py:136-163 | the fold succeeds iff every entry passes |
| TargetMetadata.MappingSucceeds | haskell/tools/generate_target_metadata.py:140-156 | `determine_module_mapping` succeeds iff every module has one source and each boot part one boot source |
| TargetMetadata.MappingFoldFirstError | haskell/tools/generate_target_metadata.py:142-156 | a failure is the error of the first failing entry |
| TargetMetadata.MappingFirstError | haskell/tools/generate_target_metadata.py:142-156 | the `RuntimeError` raised is the one of the first badly sourced module of the report |
| TargetMetadata.MappingEntries | haskell/tools/generate_target_metadata.py:145-161 | a mapping key is present iff some entry writes it, and its value is one that some entry writes |
| TargetMetadata.WritesLast | haskell/tools/generate_target_metadata.py:147-161 | the writes of a report are the earlier writes plus the last entry's |
| TargetMetadata.DetermineModuleMapping | haskell/tools/generate_target_metadata.py:136-163 | the loop computes the mapping fold |
| TargetMetadata.GraphKeys | haskell/tools/generate_target_metadata.py:166-181 | the graph has a key for every module, and a `-boot` key exactly for the modules with a boot part |
| TargetMetadata.NotBootNode | haskell/tools/generate_target_metadata.py:176 | a module name without `-` is never a boot node |
| TargetMetadata.GraphValues | haskell/tools/generate_target_metadata.py:169-179 | each node's value is its `modules` followed by its `modules-boot` with `-boot` appended (`BootNames`) |
| TargetMetadata.DetermineModuleGraph | haskell/tools/generate_target_metadata.py:166-181 | the loop computes the graph fold |
| TargetMetadata.AssignLastWins | haskell/tools/generate_target_metadata.py:188-190 | a repeated package name keeps the modules of its last listing |
| TargetMetadata.ListsPackagesLast | haskell/tools/generate_target_metadata.py:187-196 | a node lists packages iff an earlier entry or the last one does |
| TargetMetadata.PackageStepAt | haskell/tools/generate_target_metadata.py:188-190 | one node's packages add its key iff it lists some |
| TargetMetadata.PackageFoldLast | haskell/tools/generate_target_metadata.py:187-196 | the last entry sets its main node, then its boot node |
| TargetMetadata.PackageKeys | haskell/tools/generate_target_metadata.py:184-198 | a node is a key iff it or its boot part lists a package |
| TargetMetadata.PackageEntriesNonEmpty | haskell/tools/generate_target_metadata.py:184-198 | no key has an empty entry |
| TargetMetadata.AssignNonEmpty | haskell/tools/generate_target_metadata.py:190 | the last listed package is in the entry |
| TargetMetadata.PackageValues | haskell/tools/generate_target_metadata.py:188-190 | a module's entry maps each listed package to its modules, the last listing winning |
| TargetMetadata.BootPackageValues | haskell/tools/generate_target_metadata.py:194-196 | a boot node's entry is built from the boot part's packages |
| TargetMetadata.NoEarlierNode | haskell/tools/generate_target_metadata.py:187 | with distinct module names, no earlier entry writes the last module's node |
| TargetMetadata.NoEarlierBootNode | haskell/tools/generate_target_metadata.py:192-196 | nor its boot node |
| TargetMetadata.SetPackages | haskell/tools/generate_target_metadata.py:188-190 | the loop over one node's packages |
| TargetMetadata.DeterminePackageDeps | haskell/tools/generate_target_metadata.py:184-198 | the loop computes the package fold |
| TargetMetadata.ObtainTargetMetadata | haskell/tools/generate_target_metadata.py:103-112 | the result's four fields, `th_modules`, `module_mapping`, `module_graph` and `package_deps`: it succeeds iff every module is well sourced, and fails with the mapping's error |
| DetectThExtension.PragmaStartsWithBrace | prelude/haskell/tools/detect_th_extension.py:11 | every pragma starts with `{`, which is not whitespace |
| DetectThExtension.RegexReading | prelude/haskell/tools/detect_th_extension.py:11 | the pattern matches iff after leading whitespace the line starts with one of the three pragmas |
| DetectThExtension.UsesThIff | prelude/haskell/tools/detect_th_extension.py:14-21 | `uses_th` holds iff some line matches, and is false when none does |
| DetectThExtension.UsesThStopsAtMatch | prelude/haskell/tools/detect_th_extension.py:17-19 | the search stops at the first matching line, whatever follows |
| DetectThExtension.PragmaLineMatches | prelude/haskell/tools/detect_th_extension.py:11-18 | an indented pragma followed by any text matches: only the start is anchored |
| DetectThExtension.NoPragmaWhere | prelude/haskell/tools/detect_th_extension.py:11 | a line differing from each pragma at some position does not match |
| DetectThExtension.SeveralExtensionsDoNotMatch | prelude/haskell/tools/detect_th_extension.py:11 | a pragma listing several extensions does not match |
| DetectThExtension.UnlistedExtensionDoesNotMatch | prelude/haskell/tools/detect_th_extension.py:11 | a pragma with another extension does not match |
| DetectThExtension.LowerCaseKeywordDoesNotMatch | prelude/haskell/tools/detect_th_extension.py:11 | the keyword is case sensitive |
| DetectThExtension.SelectByMembers | prelude/haskell/tools/detect_th_extension.py:38-40 | the selected modules are exactly those whose lines pass the test |
| DetectThExtension.SelectByConcat | prelude/haskell/tools/detect_th_extension.py:38-40 | selection keeps argument order |
| DetectThExtension.SelectByStep | prelude/haskell/tools/detect_th_extension.py:38-40 | one more module adds it at the end iff it passes |
| DetectThExtension.SelectedMembers | prelude/haskell/tools/detect_th_extension.py:38-40 | the written modules are exactly those that use Template Haskell |
| DetectThExtension.SelectedConcat | prelude/haskell/tools/detect_th_extension.py:38-40 | in argument order |
| DetectThExtension.LinesSnoc | prelude/haskell/tools/detect_th_extension.py:40 | each module is written followed by a newline |
| DetectThExtension.LinesSplit | prelude/haskell/tools/detect_th_extension.py:40 | the output splits at newlines into the names and a final empty piece |
| DetectThExtension.ThOutputLines | prelude/haskell/tools/detect_th_extension.py:37-40 | the output is exactly the selected module names, one per line |
| DetectThExtension.WriteThModules | prelude/haskell/tools/detect_th_extension.py:37-40 | the loop writes that output |
| ToolchainLibraryCatalog.GhcPkgCommand | haskell/tools/generate_toolchain_library_catalog.py:44-52 | the command is the tool and the fixed five arguments, plus `--package-db X` exactly when a non-empty package db is given |
| ToolchainLibraryCatalog.CommandSkipsUserDb | haskell/tools/generate_toolchain_library_catalog.py:48-49 | the command always reads the global database and never the user's |
| ToolchainLibraryCatalog.RunSnoc | haskell/tools/generate_toolchain_library_catalog.py:59 | the machine reads one line after another |
| ToolchainLibraryCatalog.RunAppend | haskell/tools/generate_toolchain_library_catalog.py:59 | reading two blocks of lines is reading one then the other |
| ToolchainLibraryCatalog.RunKeepsNoEmpty | haskell/tools/generate_toolchain_library_catalog.py:60-64 | no empty record is ever emitted at a separator |
| ToolchainLibraryCatalog.ParseDumpNoEmpty | haskell/tools/generate_toolchain_library_catalog.py:60-89 | empty records are never emitted, neither at separators nor at the end |
| ToolchainLibraryCatalog.ReadLine | haskell/tools/generate_toolchain_library_catalog.py:60-86 | the loop body moves the state as the machine does for that line |
| ToolchainLibraryCatalog.ParseGhcPkgDump | haskell/tools/generate_toolchain_library_catalog.py:55-89 | the generator yields the records of the machine, the last one flushed at the end |
| ToolchainLibraryCatalog.KeyLine | haskell/tools/generate_toolchain_library_catalog.py:65-66 | a line with a `:` splits at the first `:` with both sides stripped |
| ToolchainLibraryCatalog.KeyWithoutValue | haskell/tools/generate_toolchain_library_catalog.py:68-81 | an empty value or an unknown key records nothing but sets the current key, to none for an unknown key |
| ToolchainLibraryCatalog.ContinuationLine | haskell/tools/generate_toolchain_library_catalog.py:82 | an indented line without `:` is a continuation carrying its stripped text |
| ToolchainLibraryCatalog.ContinuationAfterSeparator | haskell/tools/generate_toolchain_library_catalog.py:60-86 | the current key survives a separator: a continuation right after `---` starts a record with that import dir |
| ToolchainLibraryCatalog.FieldLine | haskell/tools/generate_toolchain_library_catalog.py:65-79 | `key: value` for a clean value classifies as that field and value |
| ToolchainLibraryCatalog.NameLine | haskell/tools/generate_toolchain_library_catalog.py:68-71 | `name: n` sets the name field |
| ToolchainLibraryCatalog.IdLine | haskell/tools/generate_toolchain_library_catalog.py:72-75 | `id: i` sets the id field |
| ToolchainLibraryCatalog.ImportDirsLine | haskell/tools/generate_toolchain_library_catalog.py:76-79 | `import-dirs:` only selects the key |
| ToolchainLibraryCatalog.SeparatorLine | haskell/tools/generate_toolchain_library_catalog.py:60 | `---` is a separator |
| ToolchainLibraryCatalog.IndentedDir | haskell/tools/generate_toolchain_library_catalog.py:82-86 | an indented directory is a continuation |
| ToolchainLibraryCatalog.DirLineKinds | haskell/tools/generate_toolchain_library_catalog.py:82-86 | indented directory lines are continuations, in order |
| ToolchainLibraryCatalog.ContinuationsAppend | haskell/tools/generate_toolchain_library_catalog.py:85-86 | continuations under `import-dirs` append to the record's directories, keeping order |
| ToolchainLibraryCatalog.DescribeKinds | haskell/tools/generate_toolchain_library_catalog.py:65-86 | a record's dump lines classify as its name, id, import-dirs key, directories and a separator |
| ToolchainLibraryCatalog.DescribeRead | haskell/tools/generate_toolchain_library_catalog.py:55-89 | reading one record's lines emits exactly that record |
| ToolchainLibraryCatalog.DumpRun | haskell/tools/generate_toolchain_library_catalog.py:55-89 | reading the dump of several records emits them all in order |
| ToolchainLibraryCatalog.DumpRoundTrip | haskell/tools/generate_toolchain_library_catalog.py:55-89 | parsing the dump of records gives those records back |
| ToolchainLibraryCatalog.ConstructFailureSticks | haskell/tools/generate_toolchain_library_catalog.py:99 | the first package missing a field ends the construction |
| ToolchainLibraryCatalog.ConstructSucceeds | haskell/tools/generate_toolchain_library_catalog.py:98-106 | construction succeeds iff every package has a name and an id |
| ToolchainLibraryCatalog.ConstructFailure | haskell/tools/generate_toolchain_library_catalog.py:99 | the error is that of the first incomplete package, naming `id` before `name` because the value is evaluated first |
| ToolchainLibraryCatalog.ByPackageName | haskell/tools/generate_toolchain_library_catalog.py:99 | the name map has exactly the packages' names, each with the id of the last package of that name |
| ToolchainLibraryCatalog.BuildSnoc | haskell/tools/generate_toolchain_library_catalog.py:100-106 | registering one more directory inserts its parts |
| ToolchainLibraryCatalog.InsertAllBuild | haskell/tools/generate_toolchain_library_catalog.py:100-106 | registering a package's directories extends the trie's entries by them |
| ToolchainLibraryCatalog.ByImportDirs | haskell/tools/generate_toolchain_library_catalog.py:98-106 | the import-dir trie is built from every package's directories in order |
| ToolchainLibraryCatalog.ImportDirLookup | haskell/tools/generate_toolchain_library_catalog.py:100-106 | the node at a directory's parts holds the id of the last package listing it |
| ToolchainLibraryCatalog.RegisterImportDirs | haskell/tools/generate_toolchain_library_catalog.py:100-106 | the inner loops register each directory's parts |
| ToolchainLibraryCatalog.ConstructPackageMappings | haskell/tools/generate_toolchain_library_catalog.py:92-108 | the loop computes the construction |
| SwiftExec.PiecesSpellArgs | apple/tools/swift_exec.py:150-163 | a successful split reads the arguments as driver arguments and `-Xwrapper X` pairs, losing and duplicating nothing |
| SwiftExec.PiecesOfFlatten | apple/tools/swift_exec.py:150-163 | any sequence of such pieces splits back into itself |
| SwiftExec.TrailingXwrapperFails | apple/tools/swift_exec.py:155-157 | a final `-Xwrapper` raises `RuntimeError("Missing argument to -Xwrapper")` |
| SwiftExec.FailureIsTrailingXwrapper | apple/tools/swift_exec.py:155-157 | and that is the only way the split fails |
| SwiftExec.PrependAssoc | apple/tools/swift_exec.py:159-162 | appending pieces in two steps is appending them at once |
| SwiftExec.SplitWrapperArgs | apple/tools/swift_exec.py:150-163 | the `while` loop computes the split |
| SwiftExec.ParseAppend | apple/tools/swift_exec.py:189 | the options are read left to right |
| SwiftExec.OptionsRoundTrip | apple/tools/swift_exec.py:165-189 | every combination of the five options, spelled out, parses back to itself |
| SwiftExec.WrapperArgsOfPieces | apple/tools/swift_exec.py:147-199 | the result is the driver arguments and the options, or the `RuntimeError` when `-json-error-output-path` is set without `-serialized-diagnostics-to-json` |
| SwiftExec.ParseWrapperArgs | apple/tools/swift_exec.py:147-199 | `_parse_wrapper_args` |
| SwiftExec.Index | apple/tools/swift_exec.py:45 | `list.index` gives the first position of the value, or nothing when it is absent |
| SwiftExec.IndexAt | apple/tools/swift_exec.py:45 | the first occurrence is the one found |
| SwiftExec.ArgAfterCases | apple/tools/swift_exec.py:44-45 | the argument after the flag, `IndexError` for a final flag and `ValueError` for a missing one |
| SwiftExec.ExpandArgsFirst | apple/tools/swift_exec.py:21-25 | the first `@` argument's file is read, each line right-stripped |
| SwiftExec.ExpandArgsNone | apple/tools/swift_exec.py:27 | without an `@` argument there are no arguments |
| SwiftExec.FirstPartyNamesSpec | apple/tools/swift_exec.py:56-63 | the names are exactly those of entries with neither path under `sdk_deps`, and an unnamed such entry raises `KeyError` |
| SwiftExec.FirstPartyNamesSucceed | apple/tools/swift_exec.py:56-63 | the loop succeeds iff every first-party entry has a `moduleName` |
| SwiftExec.FirstPartyNamesHeld | apple/tools/swift_exec.py:56-63 | the names collected are exactly those of the first-party entries |
| SwiftExec.FirstPartyNamesSticks | apple/tools/swift_exec.py:63 | the first `KeyError` ends the loop |
| SwiftExec.ModulesMembers | apple/tools/swift_exec.py:48-65 | the modules are the `-module-name` value and the first-party names of the module map, when there is one |
| SwiftExec.GetModules | apple/tools/swift_exec.py:48-65 | the loop adds those names |
| SwiftExec.RunLength | apple/tools/swift_exec.py:71 | a greedy run is no longer than the text |
| SwiftExec.RunLengthOf | apple/tools/swift_exec.py:71 | a greedy run stops at the first character outside the class |
| SwiftExec.MatchAt | apple/tools/swift_exec.py:71 | a match is a word, a dot and word-or-dot characters within the text |
| SwiftExec.MatchQualified | apple/tools/swift_exec.py:71 | `A.B` followed by a non-word character matches with groups `A` and `B` |
| SwiftExec.ReplaceModulePrefixRule | apple/tools/swift_exec.py:73-77 | a match is replaced by its second group iff the first is a module, and kept otherwise |
| SwiftExec.Step | apple/tools/swift_exec.py:82 | each step of the substitution consumes text, and changes nothing without modules |
| SwiftExec.QualifiedNameRewritten | apple/tools/swift_exec.py:71-82 | in the whole text, `A.B` is rewritten by the rule and scanning goes on after it |
| SwiftExec.NoModulesNoChange | apple/tools/swift_exec.py:82 | without modules the interface is unchanged |
| SwiftExec.StripModulePrefixesShrinks | apple/tools/swift_exec.py:82 | the rewrite never lengthens the interface |
| SwiftExec.RewrittenInterfaceOf | apple/tools/swift_exec.py:66-83 | the interface is rewritten iff the `-emit-module-interface-path` value, the modules and the file are all found, then by the prefix rule over exactly those modules and never longer; otherwise the error of the flag lookup, then of `_get_modules`, then `FileNotFoundError` |
| SwiftExec.TrackedInputsFirst | apple/tools/swift_exec.py:95-105 | the inputs used are those of the first line whose output ends in `.swiftmodule` or `.o` |
| SwiftExec.FindTrackedInputs | apple/tools/swift_exec.py:95-105 | the loop with `break` finds them |
| SwiftExec.RelativizeSpec | apple/tools/swift_exec.py:110-120 | the intended rule `Relativize`: a kept path is the dependency below `cwd/` with that prefix removed, or a relative path kept as it is; absolute paths outside `cwd/` are dropped |
| SwiftExec.RelativizeBelow | apple/tools/swift_exec.py:111-115 | `cwd/r` becomes `r` |
| SwiftExec.RelativizeAsWrittenSpec | apple/tools/swift_exec.py:110-120 | the rule as written: a path starting with `cwd`'s text loses that text and the one character after it, `cwd` itself becomes the empty path, other absolute paths are dropped and other relative paths are kept |
| SwiftExec.RelativizeAsWrittenBelow | apple/tools/swift_exec.py:111-115 | as written, `cwd/r` also becomes `r` |
| SwiftExec.RelativizeAgrees | apple/tools/swift_exec.py:111-120 | the intended rule agrees with the written one on every path that does not start with `cwd` without `cwd/` |
| SwiftExec.RelativizeDiffers | apple/tools/swift_exec.py:111-116 | and the two differ on every path that starts with `cwd` but not with `cwd/`: sibling directories and `cwd` itself |
| SwiftExec.SiblingDirectoryAsWritten | apple/tools/swift_exec.py:111-115 | with `cwd` `/a/b` the written test turns `/a/bc/x` into `/x`, a path that is not below `cwd` |
| SwiftExec.WorkingDirectoryAsWritten | apple/tools/swift_exec.py:111-115 | a dependency equal to `cwd` is written as an empty line |
| SwiftExec.RootDirectoryAsWritten | apple/tools/swift_exec.py:111-115 | with `cwd` `/` the written test turns `/usr/lib` into `sr/lib` |
| SwiftExec.SiblingDirectoryCorrected | apple/tools/swift_exec.py:111-116 | the corrected test drops it like any other absolute path outside `cwd` |
| SwiftExec.KeptMembers | apple/tools/swift_exec.py:109-120 | the kept paths are exactly the dependencies the rule as written keeps, each as that rule rewrites it |
| SwiftExec.KeptAsIntended | apple/tools/swift_exec.py:109-120 | when no dependency merely starts with `cwd`'s text, the kept paths are exactly those of the intended rule |
| SwiftExec.RelativePaths | apple/tools/swift_exec.py:109-120 | the loop, with the `startswith(cwd)` test of the source, builds the kept paths in order |
| SwiftExec.RewriteDependencyFile | apple/tools/swift_exec.py:95-124 | the dependency file's new content: the tracked line's tokenised inputs rewritten by the rule as written, or the error of finding that line |
| SwiftExec.JoinedLinesSplit | apple/tools/swift_exec.py:123-124 | lines joined by newlines and ended by one split back into the lines |
| SwiftExec.RelativizePiece | apple/tools/swift_exec.py:115 | a path kept by the rule as written contains no character the dependency did not |
| SwiftExec.DependencyFileLines | apple/tools/swift_exec.py:122-124 | read back line by line, the new file is the kept paths (as the code keeps them) in sorted order and nothing else, ending with one newline; with none kept it is a lone newline |
| SwiftExec.SwiftFilesArg | apple/tools/swift_exec.py:340-341 | the argument found is one of the command's and ends in `.swift_files` |
| SwiftExec.StripCharsOfPlain | apple/tools/swift_exec.py:345 | stripping characters from a word that neither starts nor ends with them keeps it |
| SwiftExec.CleanQuotedLine | apple/tools/swift_exec.py:344-347 | a swift-file line, unquoted or in double or single quotes, with trailing whitespace, is cleaned to the bare file name |
| SwiftExec.BaseNameOf | apple/tools/swift_exec.py:323 | the file name after the last `/` is the base name |
| SwiftExec.IncrementalMapSpec | apple/tools/swift_exec.py:312-331 | the map has the `""` module entry and one entry per swift file, both named after the file's base name; a swift file listed as `""` replaces the module entry |
| SwiftExec.BuildIncrementalMap | apple/tools/swift_exec.py:312-331 | the loop builds that map |
| SwiftExec.SkipIncrementalOutputsMap | apple/tools/swift_exec.py:308-336 | the map written is that one, below the parent of the output file map's directory |
| PyStr.SortStrings | apple/tools/swift_exec.py:123 | `sorted` gives a sorted permutation of its input |
| PyStr.SortedUnique | apple/tools/swift_exec.py:123 | two sorted permutations of the same list are equal, so the output does not depend on input order |
| PyStr.SplitOnSpec | apple/tools/swift_exec.py:323 | `split` gives pieces without the separator that join back to the string |

## Left out

- Files, processes and the network are not modelled. This covers `open`, `json.load`, `json.dump`, `subprocess`, `argparse` in the Haskell scripts, `main`, environment variables and stderr output. Their contents are passed in instead:
  - source files come as their lines;
  - `ghc -M` reports and metadata files come parsed into datatypes;
  - the `@` argument files and module maps of the Swift wrapper come as maps from path to lines or entries;
  - the result is a value rather than written JSON. `indent` and `sort_keys` affect formatting only.
- JSON-level shape errors are not modelled. A parsed report has the fields the scripts read, with `.get` defaults already applied. So a missing `pkgname`, `output_prefix` or `transitive_deps` key in a dependency's metadata is not modelled. The one exception is a missing `name` or `id` in `_construct_package_mappings`, which is.
- `graphlib.TopologicalSorter` is the `sort`/`order` parameter. It is promised to give a topological order of the graph when there is one, and none exactly when there is a cycle. The library itself is not modelled, and neither is which order it picks. `TransitiveDeps.ClosureUnique` shows that the result does not depend on the order.
- Regular expressions are written out as predicates. The pragma pattern is `DetectThExtension.RegexMatches`, and the prefix pattern is `SwiftExec.MatchAt`. `\w` is taken as ASCII letters, digits and `_`; Python's `\w` also accepts other Unicode letters and digits. `\s` is modelled exactly: `PyStr.IsSpace` is the set of characters for which `str.isspace` holds, the same set Python's `\s` matches in a `str` pattern.
- `shlex.split` of the dependency inputs is the `tokenize` parameter of `SwiftExec.RewrittenDependencies`.
- `SwiftExec.ParseOptions` models `argparse` on the five wrapper options only as exact tokens. It leaves out:
  - unique-prefix abbreviations;
  - `-opt=value` spellings;
  - negative-number values;
  - `--`;
  - `-h`/`--help`.

  An unknown token, or a value option without a value, is a usage error.
- The rest of the Swift wrapper's `main` is not modelled:
  - the module cache path;
  - the `-file-prefix-map` and `-coverage-prefix-map` arguments;
  - running the compiler;
  - the JSON diagnostics conversion;
  - the `could not write` check;
  - exit codes.

  `_get_output_file_map` and `_get_serialized_diagnostics_path` only read files and raise. `_rewrite_dependency_file` reading `output_file_map[""]["dependencies"]` is I/O too; the dependency lines are passed in.
- `SwiftExec.RewrittenDependencies`: the message printed to stderr for a dropped absolute path is not modelled.
- TransitiveDeps.DirectTable: a failing first phase reports one module that is not in the graph or one missing upstream record, but not necessarily the first in `package_deps` order. The source visits `package_deps.items()` and each entry's `dep_pkgs.items()` in insertion order (prelude/haskell/tools/generate_target_metadata.py:252-257). The model keeps `package_deps` as a map and picks the next module (and, in `TransitiveDeps.DirectEntry`, the next package) by choice. A successful first phase is unaffected, because its result is a union that does not depend on order.
- The older resolver's `uses_th` returns `None`, not `False`, for a file without a match. The model uses `false`; both are falsy where the result is used.
- The older resolver's `obtain_target_metadata` goes through `determine_th_modules`, which reads files. It and `run_ghc_depends` are given their results as inputs.
- The newer resolver's `run_ghc_depends`, `load_toolchain_packages` and `--bin-path` handling are I/O, so they are left out.
- `TargetMetadata.ObtainTargetMetadata` takes the report as input, whether it comes from the compiler or from a build plan.

### Behaviours of the code worth knowing

- The package trie lookup stops at the first, that is the shortest, registered prefix along the path, not the longest (`PackageTrie.FirstLeafIsShortest`).
- A prefix registered at the empty path is never found (`PackageTrie.RootRegistrationIgnored`).
- The older resolver drops absolute dependency paths without an error (`PreludeTargetMetadata.KindsAt`).
- Every module's row of the transitive table lists its intra-package dependencies under the package's own name (`TransitiveDeps.ClosureOwnPackage`).
- Module naming is not injective: `HaskellNames.ModuleNameNotInjective` exhibits two paths with the same name, and `HaskellNames.ModuleNameInjectiveWithoutDots` says when it is injective.
- In the catalog parser, the current key is not reset at a separator. A continuation line right after `---` therefore lands in the new record (`ToolchainLibraryCatalog.ContinuationAfterSeparator`).

## Findings

| source | as written | input that shows it | evidently intended | confidence | as-written member | corrected member |
|---|---|---|---|---|---|---|
| apple/tools/swift_exec.py:111-115 | `path.startswith(cwd)` then `path[len(cwd) + 1:]` | `cwd` = `/a/b`, dependency `/a/bc/x`: kept as `/x`, an absolute path outside `cwd` and not a suffix of the dependency below `cwd` | only paths below `cwd + "/"` are shortened; other absolute paths are dropped | not executed | SwiftExec.SiblingDirectoryAsWritten | SwiftExec.SiblingDirectoryCorrected |

The dependency-file model follows the code. `SwiftExec.Kept`, `SwiftExec.RelativePaths` and `SwiftExec.DependencyFile` use the rule as written, `SwiftExec.RelativizeAsWritten`, and `SwiftExec.RelativizeAsWrittenSpec` states that rule for every path. The same test also writes a dependency equal to `cwd` as an empty line (`SwiftExec.WorkingDirectoryAsWritten`), and with `cwd` `/` it cuts the first letter off every absolute path (`SwiftExec.RootDirectoryAsWritten`).

The intended rule is `SwiftExec.Relativize`, and its meaning is `SwiftExec.RelativizeSpec`. `SwiftExec.RelativizeAgrees` and `SwiftExec.RelativizeDiffers` show that the two rules differ exactly on paths that start with `cwd` but not with `cwd/`. `SwiftExec.KeptAsIntended` carries this to the whole list: without such paths, the code keeps exactly what the intended rule keeps.
