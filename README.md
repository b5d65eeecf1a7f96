# cmake-refactor listeners, modelled in Dafny

This project models the dependency-graph core of `cmake_refactor/listeners.py`. That is the part of
cmake-refactor that reads CMake build files and rewrites their `target_link_libraries` calls so that
every target links its dependencies with the right scope. The core has three parts.

- **The target registry** (`Targets`). One `TargetNode` per name ever mentioned, held in the
  `Registry` class. Its `nodes` map is shared by both listeners, like the `targets` dictionary.
  - `EnsureTarget` is `ensure_target`: it returns the existing node or creates one.
  - Nodes refer to each other by registered name. `WellFormed` is the invariant that every name a
    node mentions has a node of its own.
- **The declaration pass** (`InputPass.InputListener`, which is `TargetInputListener`). It handles:
  - add-target statements: errors, `ALIAS`, `OBJECT`/`INTERFACE`, files, directory;
  - `target_sources`;
  - `target_link_libraries`, through the regex filter and the scope state machine of
    `handle_link_args`;
  - the header-to-target map.
- **The reconciliation and rewrite pass** (`UpdatePass.UpdateListener`, which is
  `UpdateTargetsListener.exitModify_target`). It works in four steps:
  1. the promotion rule builds the public and private lists;
  2. the lists are deduplicated and sorted with in-tree `velox*` names first;
  3. the fallback applies, or the fatal error is raised, and the target's own name is removed;
  4. the arguments are rendered as text, and the statement is edited through a token rewriter
     (`Rewriter.TokenRewriter`).

Every state-changing method (`EnsureTarget`, `ExitAddTarget`, `AddTargetSources`, `AddLinkedTargets`,
`ExitModifyTarget`, `ReplaceRange`, …) is specified by a pure *effect* function. That function
returns the new registry, header map or token sequence, plus a `Status`. What the source promises is
proved about these effect functions as lemmas. A raised exception (`raise`, an `IndexError` on
`args[0]`, a `KeyError` on the header map) becomes `Status.Failed(error)`. The partial state left
behind at that point is stated exactly.

The supporting modules model the Python the core relies on:
- `Seqs`: comprehensions, `set`, `list.remove`, `" ".join`;
- `Order`: `sorted` on strings and `sort_targets`;
- `Paths`: `str.replace`, `str.removeprefix`, POSIX `os.path.dirname`/`join`/`splitext`;
- `Args`: `get_args`, `clean_target_args`, the link-argument regex, the scope walk, `sort_files`.

Where the documented design and the code differ, the model follows the code:
- **Redefinition** (listeners.py:166-169). A second defining statement overwrites the target's
  directory. The `Warning` at line 167 is constructed but never raised. See `AddTargetDefines`.
- **Empty names** (listeners.py:32-33). `ensure_target` fails on an empty name, because the node
  constructor raises. See `NewNode` and `Registry.EnsureTarget`.
- **Command name** (listeners.py:291). `UpdateTargetsListener.exitModify_target` does not look at
  the command, so it also fires on `target_sources` statements. `UpdateListener.ExitModifyTarget`
  takes any statement.
- **Aliased list** (listeners.py:306-307). `public_targets` aliases the node's observed public list,
  so `extend` grows that list in place. This happens on the failure path too. See
  `UpdateFailureKeepsTokens`.
- **Header-map reset** (listeners.py:213-216). The membership test uses the unstripped header name,
  while the key is stripped of `repo_root`. So a header that starts with a non-empty root and whose
  full name is not a key has its stripped entry reset to `[]` before the append, and keeps only the
  latest target (`RecordHeaderResets`). A header outside the root is its own key and accumulates
  normally. A header whose full name is a key but whose stripped name is not raises
  `MissingHeaderKey`. With the default empty root every entry accumulates and nothing raises
  (`RecordHeaderAccumulates`, `RecordHeadersEmptyRoot`).
- **List-directory files** (listeners.py:202). `${CMAKE_CURRENT_LIST_DIR}/` is replaced by the
  directory without a trailing `/`, so the file name gets glued to the directory name. When the
  directory contains a `/` the file is dropped; a directory without a `/` yields a wrong name instead
  (that case is not stated as a lemma). See
  `ListDirFilesDropped`.
- **Target named by a variable** (listeners.py:144-164). The name is taken before the arguments are
  cleaned, but the files are attributed to the first cleaned argument. In
  `add_library(${PROJECT_NAME} a.cpp b.cpp)` cleaning removes the name, so `a.cpp` becomes a target
  holding `b.cpp`, and `${PROJECT_NAME}` gets only its kind and directory. See
  `AddTargetNameCleanedAway`.
- **`list.remove`** (listeners.py:343-348). It drops only the first occurrence. A fallback list that
  names the target twice therefore still links the target to itself. See
  `FallbackKeepsSecondSelfLink`.

## Model

| member | source | states |
|---|---|---|
| Seqs.Filter | cmake_refactor/listeners.py:243-247 | a list comprehension with a condition keeps exactly the elements that pass, in order (a subsequence), and all of them when all pass |
| Seqs.FilterCount | cmake_refactor/listeners.py:223-229 | a filter keeps each passing element as often as it occurs and drops every other |
| Seqs.Dedup | cmake_refactor/listeners.py:327-328 | the list as a set: each element of the input exactly once, nothing else |
| Seqs.SameSetSameMultiset | cmake_refactor/listeners.py:327-328 | two duplicate-free lists with the same elements are permutations of each other, so any set enumeration is a permutation of `Dedup` |
| Seqs.FirstIndex | cmake_refactor/listeners.py:345 | the index `list.remove` acts on: an occurrence of `x` with no occurrence before it |
| Seqs.RemoveFirst | cmake_refactor/listeners.py:343-348 | `if x in s: s.remove(x)` removes exactly the first occurrence of `x` (the result is `s` without the element at `FirstIndex(s, x)`), so the multiset loses one `x` and the order is kept; nothing changes when `x` is absent |
| Seqs.RemoveFirstDistinct | cmake_refactor/listeners.py:343-348 | on a duplicate-free list, the removal takes out exactly `x`, and the rest stays duplicate-free |
| Seqs.JoinSpace | cmake_refactor/listeners.py:350-354 | `" ".join(words)` starts with the first word and ends with the last |
| Seqs.JoinSpaceSeparators | cmake_refactor/listeners.py:350-354 | words without spaces are joined with exactly one space between neighbours |
| Seqs.JoinSpaceAppend | cmake_refactor/listeners.py:350-352 | `" ".join(a + b)` is the join of `a`, a space, and the join of `b` |
| Order.Leq | cmake_refactor/listeners.py:303 | Python's string order: code point by code point, a prefix before any longer string |
| Order.LeqTotal | cmake_refactor/listeners.py:303 | Python's string order compares any two strings |
| Order.LeqAntisymmetric | cmake_refactor/listeners.py:303 | two strings ordered both ways are equal |
| Order.LeqTransitive | cmake_refactor/listeners.py:303 | Python's string order is transitive |
| Order.Sort | cmake_refactor/listeners.py:303 | `sorted(s)` is sorted and a permutation of `s` |
| Order.SortedUnique | cmake_refactor/listeners.py:303 | there is only one sorted permutation of a list, so `sorted` is determined by the multiset of its input |
| Order.SortTargets | cmake_refactor/listeners.py:298-303 | `sort_targets` returns a permutation of its input with every `velox*` name before every other name, each group sorted |
| Order.SortTargetsDeterministic | cmake_refactor/listeners.py:298-303 | the output of `sort_targets` depends only on the multiset of its input |
| Order.SetEnumerationIrrelevant | cmake_refactor/listeners.py:327-328 | `sort_targets([*set(names)])` is the same for every enumeration order of the set, and it has no duplicates |
| Order.DistinctPermutation | cmake_refactor/listeners.py:327-328 | sorting a deduplicated list keeps it free of duplicates |
| Paths.RemovePrefix | cmake_refactor/listeners.py:214 | `removeprefix` strips the prefix when it is there, and otherwise returns the string unchanged |
| Paths.ReplaceAll | cmake_refactor/listeners.py:202 | `str.replace` leaves a string in which the pattern occurs nowhere unchanged (in particular one shorter than the pattern), and a string that starts with the pattern then starts with the replacement |
| Paths.LastIndexOf | cmake_refactor/listeners.py:203 | `rfind`: the index of the last occurrence, with no occurrence after it, or -1 exactly when there is none |
| Paths.RStripSlashes | cmake_refactor/listeners.py:203 | `rstrip("/")` leaves a prefix that does not end in `/`, and everything it removed is `/`; it leaves nothing only for an all-slash string |
| Paths.DirnameEmptyIff | cmake_refactor/listeners.py:203 | `not os.path.dirname(f)` holds exactly when `f` has no `/` |
| Paths.Dirname | cmake_refactor/listeners.py:203 | `os.path.dirname` is a prefix of the path that ends in no `/` unless it is all slashes |
| Paths.Join | cmake_refactor/listeners.py:203 | `os.path.join(a, b)` is `b` when `b` is absolute, and otherwise starts with `a` and ends with `b` |
| Paths.Extension | cmake_refactor/listeners.py:226 | the `splitext` extension is empty, or a suffix of the path that starts with its only `.` and holds no `/`; a path without `.` has none |
| Paths.ExtensionLastDot | cmake_refactor/listeners.py:226 | the extension starts at the last dot: `a.tar.gz` has `.gz` |
| Paths.ExtensionLeadingDot | cmake_refactor/listeners.py:229 | leading dots do not start an extension: `.bashrc` has none |
| Targets.ListIfNone | cmake_refactor/listeners.py:15-19 | `None` becomes the empty list, and a given list is returned as is |
| Targets.NewNode | cmake_refactor/listeners.py:22-51 | creating a node fails exactly for an empty name; otherwise it has the given name, kind, alias, directory and files, and no links, includes or flags |
| Targets.FreshNode | cmake_refactor/listeners.py:100 | `TargetNode(name)` has the name, empty lists, no alias, no directory, and is neither an interface, an object library nor linked |
| Targets.Ensured | cmake_refactor/listeners.py:97-103 | after `ensure_target`, the name is a key; a name already registered leaves the registry unchanged; a new name gets a fresh node; no other entry changes; the invariant is kept |
| Targets.EnsureAll | cmake_refactor/listeners.py:277-281 | after `ensure_target` on each name in turn, every old entry is unchanged, every name is a key (when none is empty), every new key is one of the names and holds a fresh node, and the invariant is kept |
| Targets.UpdateKeepsWellFormed | cmake_refactor/listeners.py:193-196 | replacing a node by one whose references are all registered keeps the registry invariant |
| Targets.Registry.constructor | cmake_refactor/listeners.py:92-95 | the listeners share the given registry |
| Targets.Registry.EnsureTarget | cmake_refactor/listeners.py:97-103 | an empty name fails and changes nothing; otherwise the registry becomes `Ensured` and the result is the node under the name (the existing node when there was one) |
| Args.GetArgs | cmake_refactor/listeners.py:105-111 | one argument per token; no argument keeps a `"`; an argument without a quote is unchanged; each argument holds every other character exactly as often as its token does |
| Args.GetArgsKeepsOrder | cmake_refactor/listeners.py:111 | removing the quotes keeps every other character in order; with the counts of `GetArgs`, each argument is its token with exactly the quotes taken out |
| Args.CleanTargetArgs | cmake_refactor/listeners.py:232-248 | a subsequence of the input holding exactly the arguments that are not one of the eight no-op keywords, not entirely a generator expression and not entirely a variable; each kept argument occurs as often as in the input, each dropped one not at all |
| Args.KeptTargetArg | cmake_refactor/listeners.py:232-248 | an argument survives `clean_target_args` when it is none of the eight keywords and neither pattern matches it |
| Args.IsVariable | cmake_refactor/listeners.py:245-247 | `^\$\{.*\}$`: the whole argument (up to one final newline) is one `${…}` reference without a newline inside |
| Args.IsGenexpr | cmake_refactor/listeners.py:245-247 | `^\$<.*>$`: the whole argument (up to one final newline) is one `$<…>` expression without a newline inside |
| Args.TargetArgPatternExamples | cmake_refactor/listeners.py:232-247 | `$` also matches before one final newline, so `${x}\n` is a variable but `$<a>\n\n` is no generator expression; `${x}/a.cpp` is kept, `STATIC` dropped |
| Args.CleanTargetArgsExample | tests/test_listeners.py:9-19 | `${var}` and `$<if:$<nested genexpr>>` are dropped, and `${CMAKE_CURRENT_LIST_DIR}/file.h` is kept |
| Args.LinkItems | cmake_refactor/listeners.py:262-263 | a subsequence of the link arguments holding exactly those the regex does not reject, each kept one as often as in the input |
| Args.LinkItemVariables | cmake_refactor/listeners.py:258-263 | a bare `${var}` is kept, and text before or after a variable reference makes an item rejected |
| Args.BareVariableValid | cmake_refactor/listeners.py:262 | the regex does not match a bare `${var}` |
| Args.PrefixedVariableInvalid | cmake_refactor/listeners.py:262 | the regex matches text followed by a `${…}` that ends the item |
| Args.SuffixedVariableInvalid | cmake_refactor/listeners.py:262 | the regex matches a leading `${…}` followed by more text |
| Args.ScopeAfter | cmake_refactor/listeners.py:277-281 | the scope in force after a list of items: `PUBLIC` when it holds no keyword, and `PRIVATE` or `INTERFACE` only when that keyword occurs |
| Args.Selected | cmake_refactor/listeners.py:277-281 | the items one scope collects never outnumber the items; without keywords, the public scope collects them all and the others nothing |
| Args.SelectedMembers | cmake_refactor/listeners.py:277-281 | a scope list holds only items given, and never a scope keyword |
| Args.SelectedPartition | cmake_refactor/listeners.py:277-281 | every non-keyword item lands in exactly one of the three scope lists, as often as it occurs |
| Args.SelectedLast | cmake_refactor/listeners.py:277-281 | reading one more item adds it to the list of the scope in force, unless it is a keyword |
| Args.SelectedAppendPlain | cmake_refactor/listeners.py:277-281 | items without a keyword among them keep the scope and all join the list of the scope in force |
| Args.SelectedAppendKeyword | cmake_refactor/listeners.py:278-279 | a keyword switches the scope to its own, and is never added to a list |
| Args.SortFiles | cmake_refactor/listeners.py:218-230 | `sort_files` returns given files only, sources in the first list and headers in the second, and never more files than given |
| Args.SortFilesPartition | cmake_refactor/listeners.py:218-230 | `sort_files` splits the files into sources and headers, each in input order, with exactly the files of that kind, each as often as given; no file is in both |
| Args.SourceNotHeader | cmake_refactor/listeners.py:226-229 | no extension counts as both a source and a header |
| InputPass.AttributedFiles | cmake_refactor/listeners.py:202-203 | file attribution never produces more files than it is given |
| InputPass.AttributedPlainFiles | cmake_refactor/listeners.py:202-203 | for arguments without variables, exactly the names without a `/` are kept, in order, each joined onto the build file's directory |
| InputPass.ListDirFilesDropped | cmake_refactor/listeners.py:202-203 | a file named through `${CMAKE_CURRENT_LIST_DIR}/` is never attributed when the directory contains a `/` |
| InputPass.AddSources | cmake_refactor/listeners.py:208-209 | appending the files to the target keeps the keys and the registry invariant |
| InputPass.RecordHeaders | cmake_refactor/listeners.py:211-216 | the header loop keeps every key of the map, and raises only `KeyError` for a key that is then absent from the map |
| InputPass.RecordHeadersEndWithTarget | cmake_refactor/listeners.py:211-216 | when recording succeeds, the entry of every attributed header ends with the target, and entries that already did still do |
| InputPass.RecordHeadersFrame | cmake_refactor/listeners.py:211-216 | keys no header maps to are neither added nor changed |
| InputPass.RecordHeaderAccumulates | cmake_refactor/listeners.py:211-216 | with an empty repository root, the entry keeps its earlier owners and gains the target |
| InputPass.RecordHeaderResets | cmake_refactor/listeners.py:213-216 | with a non-empty root, the entry of a header that starts with the root and is not already a key under its full name ends up holding only the latest target |
| InputPass.RecordHeadersEmptyRoot | cmake_refactor/listeners.py:211-216 | with the default empty root, recording never raises, and every header's own name becomes a key whose entry ends with the target |
| InputPass.SourcesEffect | cmake_refactor/listeners.py:198-216 | `add_target_sources` registers the target (and nothing else) and keeps the registry invariant |
| InputPass.SourcesEffectAppends | cmake_refactor/listeners.py:198-216 | the target's source and header lists grow only by appending the attributed sources and headers (plus the paired headers); every other node is unchanged |
| InputPass.LinkEffect | cmake_refactor/listeners.py:184-196 | a link statement keeps the registry invariant |
| InputPass.RecordLinks | cmake_refactor/listeners.py:192-196 | the walk fails exactly when an item is an empty name; on success the target is `Linked` with the items' scopes and every linked name is registered; every new key is a linked name holding a fresh node, and no other node changes |
| InputPass.LinkedRefs | cmake_refactor/listeners.py:193-195 | recording links only adds references to non-keyword items |
| InputPass.LinkEffectFirstOnly | cmake_refactor/listeners.py:187-190 | a statement for an already linked target changes nothing |
| InputPass.LinkEffectRecordsScopes | cmake_refactor/listeners.py:184-196 | a first link statement appends each item, in order, to the declared list of its scope and marks the target linked; the keys afterwards are exactly the old keys, the target and the linked names, each new linked name holds a fresh node, and no other node changes |
| InputPass.LinkEffectThenIgnored | cmake_refactor/listeners.py:184-196 | after a successful link statement, any later statement for the same target changes nothing |
| InputPass.NamesStep | cmake_refactor/listeners.py:277-281 | reading one item adds it to the names to register exactly when it is not a keyword |
| InputPass.NoScopeLists | cmake_refactor/listeners.py:269-275 | before the walk, all three scope lists are empty |
| InputPass.ScopeStep | cmake_refactor/listeners.py:277-281 | one step of the walk: a keyword switches the scope; any other item joins the list of the scope in force |
| InputPass.AddTargetEffect | cmake_refactor/listeners.py:121-169 | an add-target statement keeps the registry invariant |
| InputPass.DefineEffect | cmake_refactor/listeners.py:147-169 | after cleaning, the statement keeps the target registered and the registry invariant |
| InputPass.KindAndFilesEffect | cmake_refactor/listeners.py:157-169 | the defining branch keeps the target registered and the registry invariant |
| InputPass.PlacedKeepsWellFormed | cmake_refactor/listeners.py:169 | recording the directory keeps the registry invariant |
| InputPass.WithKind | cmake_refactor/listeners.py:157-162 | the kind keyword changes no references and no names |
| InputPass.FileArgs | cmake_refactor/listeners.py:157-162 | `del args[1]` removes exactly a kind keyword at position 1, and keeps the name first |
| InputPass.AddTargetRejects | cmake_refactor/listeners.py:138-142 | no arguments, or any compound argument, raises the matching error and changes nothing |
| InputPass.AddTargetAlias | cmake_refactor/listeners.py:144-155 | the ALIAS form registers both names, sets only the alias, records no files, directory or headers, and touches no other node |
| InputPass.DefineAlias | cmake_refactor/listeners.py:152-155 | after cleaning, the ALIAS form changes only the alias of the target and registers the other name |
| InputPass.AddTargetDirectory | cmake_refactor/listeners.py:143-169 | the directory is recorded only by a defining statement with files whose files were attributed without raising; after an error, a single-argument statement or an alias, the target keeps the directory it had |
| InputPass.KindAndFilesDirectory | cmake_refactor/listeners.py:164-169 | when `add_target_sources` raises, the target's directory is not set |
| InputPass.AddTargetNameCleanedAway | cmake_refactor/listeners.py:144-169 | when cleaning removes the name (`add_library(${PROJECT_NAME} a.cpp b.cpp)`), the first kept argument becomes a target of its own holding the remaining files, and the named target gets only its kind and its directory; no other node changes |
| InputPass.KindAndFilesOtherTarget | cmake_refactor/listeners.py:157-169 | the same at the level of the kind-and-files branch: `FilesWentToOther` holds |
| InputPass.AddTargetDefines | cmake_refactor/listeners.py:144-169 | a defining statement sets the kind of an OBJECT/INTERFACE keyword, appends the attributed files, sets the directory (overwriting an earlier one), adds no references and touches no other node |
| InputPass.WithKindFields | cmake_refactor/listeners.py:157-162 | `OBJECT` sets the object-library flag and `INTERFACE` the interface flag, and nothing else changes |
| InputPass.DefineWithFiles | cmake_refactor/listeners.py:157-169 | a successful definition with files gives the node its kind, files and directory, and leaves every other node as it was |
| InputPass.InputListener.constructor | cmake_refactor/listeners.py:115-119 | the listener holds the registry, the header map and the repository root |
| InputPass.InputListener.ExitAddTarget | cmake_refactor/listeners.py:121-169 | `exitAdd_target` keeps the registry invariant and has exactly the effect `AddTargetEffect` |
| InputPass.InputListener.DefineTarget | cmake_refactor/listeners.py:147-169 | the rest of `exitAdd_target` has exactly the effect `DefineEffect` |
| InputPass.InputListener.DefineKindAndFiles | cmake_refactor/listeners.py:157-169 | the defining branch has exactly the effect `KindAndFilesEffect` |
| InputPass.InputListener.ExitModifyTarget | cmake_refactor/listeners.py:171-182 | a link statement has the effect `LinkEffect` and leaves the header map alone; a `target_sources` statement has the effect `SourcesEffect` on its cleaned arguments; any other command changes nothing |
| InputPass.InputListener.AddLinkedTargets | cmake_refactor/listeners.py:184-196 | `add_linked_targets` has exactly the effect `LinkEffect` |
| InputPass.InputListener.AddTargetSources | cmake_refactor/listeners.py:198-216 | `add_target_sources` has exactly the effect `SourcesEffect` |
| InputPass.InputListener.RecordHeaderTargets | cmake_refactor/listeners.py:211-216 | the header loop leaves the map and status that `RecordHeaders` specifies |
| InputPass.InputListener.HandleLinkArgs | cmake_refactor/listeners.py:250-283 | every non-keyword kept item is registered; the call fails exactly when one is an empty name; otherwise the three lists are the scope lists of the kept items |
| InputPass.InputListener.WalkLinkItems | cmake_refactor/listeners.py:269-283 | the scope walk registers every non-keyword item in turn, fails exactly at an empty name, and otherwise returns each scope's items in order |
| UpdatePass.Candidates | cmake_refactor/listeners.py:327-328 | the deduplicated, sorted candidate lists hold exactly the public and the private candidates, each once |
| UpdatePass.PromotedPublic | cmake_refactor/listeners.py:307-316 | the kept declared public dependencies are those that are object libraries, interfaces or `${` names, or all of them for an interface target |
| UpdatePass.PromotedPrivate | cmake_refactor/listeners.py:320-326 | the kept declared private dependencies are exactly those that are object libraries, interfaces or `${` names |
| UpdatePass.ExtendedPublic | cmake_refactor/listeners.py:306-316 | the public candidates are the observed public dependencies and the kept declared public ones |
| UpdatePass.PrivateCandidates | cmake_refactor/listeners.py:317-326 | the private candidates are the observed private dependencies not already public, and the kept declared private ones |
| UpdatePass.Settle | cmake_refactor/listeners.py:332-348 | the fatal error is raised exactly for a non-interface target with no candidates and no declared public or private dependency |
| UpdatePass.Reconcile | cmake_refactor/listeners.py:305-348 | reconciliation fails only with the no-targets error for this target |
| UpdatePass.SortedDedupEmpty | cmake_refactor/listeners.py:327-335 | a deduplicated and sorted list is empty exactly when its input is |
| UpdatePass.UsesFallbackIff | cmake_refactor/listeners.py:332-335 | the fallback condition holds exactly when both sorted lists are empty for a non-interface target |
| UpdatePass.ReconcileFailsIff | cmake_refactor/listeners.py:332-341 | reconciliation fails exactly for a non-interface target with no observed or declared public or private dependency |
| UpdatePass.TargetsSucceed | cmake_refactor/listeners.py:332-341 | an interface target, or one with any dependency, is reconciled without error |
| UpdatePass.CandidatesNonEmpty | cmake_refactor/listeners.py:306-328 | an observed dependency always yields a candidate |
| UpdatePass.NoTargetsFails | cmake_refactor/listeners.py:339-341 | a non-interface target without any dependency raises |
| UpdatePass.SortedMembers | cmake_refactor/listeners.py:298-303 | `sort_targets` keeps exactly the names it is given |
| UpdatePass.ReconciledShape | cmake_refactor/listeners.py:327-348 | after dedup, sort and self-removal, each name other than the target occurs exactly once, `velox*` names first, each group sorted |
| UpdatePass.ReconcileLists | cmake_refactor/listeners.py:305-348 | outside the fallback, the public list is exactly the public candidates and the private list exactly the private candidates, minus the target itself, without duplicates, `velox*` first |
| UpdatePass.ReconcileFallback | cmake_refactor/listeners.py:332-345 | the fallback links the declared public then private names publicly, in declaration order, minus the first occurrence of the target, and nothing privately |
| UpdatePass.ReconcileNoPrivateSelfLink | cmake_refactor/listeners.py:347-348 | the private list never names the target itself |
| UpdatePass.FallbackKeepsSecondSelfLink | cmake_refactor/listeners.py:343-345 | a target declared twice as its own dependency still links to itself after the fallback |
| UpdatePass.Render | cmake_refactor/listeners.py:350-354 | the rewritten text is at least the target's name |
| UpdatePass.RenderLinks | cmake_refactor/listeners.py:350-354 | the text rendered from the reconciled lists is at least the target's name |
| UpdatePass.RenderStartsWithName | cmake_refactor/listeners.py:350-354 | the rewritten text starts with the target's name, in both the scoped and the interface form |
| UpdatePass.SectionJoin | cmake_refactor/listeners.py:350-352 | appending a section's words to the rendered words appends the section's text |
| UpdatePass.RenderJoinsWords | cmake_refactor/listeners.py:350-352 | a non-interface rendering is its words joined by single spaces |
| UpdatePass.RenderInterfaceJoinsWords | cmake_refactor/listeners.py:353-354 | an interface rendering is its words joined by single spaces, plus a trailing space when there is no dependency |
| UpdatePass.InterfaceJoin | cmake_refactor/listeners.py:354 | `name INTERFACE ` followed by the join is the join of the words, plus a space when the list is empty |
| UpdatePass.SortTargetsEmpty | cmake_refactor/listeners.py:354 | `sort_targets` returns the empty list exactly for the empty list |
| UpdatePass.ScopeSection | cmake_refactor/listeners.py:350-352 | read back by the scope walk, a keyword followed by plain names puts exactly those names in that keyword's scope |
| UpdatePass.RenderRoundTripScope | cmake_refactor/listeners.py:350-352 | read back, each scope of a rendered non-interface statement holds exactly its reconciled list |
| UpdatePass.PublicSection | cmake_refactor/listeners.py:350 | read back, the public section holds exactly the public list |
| UpdatePass.PrivateSection | cmake_refactor/listeners.py:351 | read back, the private section adds exactly the private list |
| UpdatePass.RenderRoundTrip | cmake_refactor/listeners.py:350-352 | a rewritten non-interface statement, read by the declaration pass's scope walk, declares exactly the reconciled public and private lists and nothing as interface |
| UpdatePass.RenderRoundTripInterface | cmake_refactor/listeners.py:353-354 | a rewritten interface statement, read back, declares the sorted union as interface and nothing public or private |
| UpdatePass.SortedPlain | cmake_refactor/listeners.py:354 | sorting brings in no scope keyword |
| UpdatePass.InterfaceSection | cmake_refactor/listeners.py:354 | read back, `INTERFACE` followed by plain names declares exactly those names as interface |
| UpdatePass.ReprexIoLinksUtilPrivately | tests/test_io.py:116-132 | in the reproduction example, with the state the test observes assumed (`io` observes `util` as a private dependency and no public one, declares `util` PUBLIC and nothing PRIVATE, and `util` is a node without links), `io` links `util` privately and nothing publicly; the test itself asserts only the first list elements and `"PRIVATE util"` |
| UpdatePass.ReprexSettle | tests/test_io.py:116-132 | in the example, self-removal and the fallback leave `io`'s candidates unchanged |
| UpdatePass.ReprexLinkCandidates | tests/test_io.py:116-132 | in the example, `io`'s candidates are no public names and `util` as private |
| UpdatePass.ReprexCandidates | tests/test_io.py:116-117 | the declared public `util` is not promoted, and the observed private `util` stays private |
| UpdatePass.ReprexSortedUtil | tests/test_io.py:116-132 | dedup and `sort_targets` leave `["util"]` as it is |
| UpdatePass.ReprexRender | tests/test_io.py:130-132 | the rewritten text is `io PRIVATE util` |
| UpdatePass.Extended | cmake_refactor/listeners.py:306-316 | extending the observed public list adds no reference the node did not already have |
| UpdatePass.ExtendedRefs | cmake_refactor/listeners.py:306-316 | the extended public list mentions only names the node already refers to |
| UpdatePass.ExtendedWellFormed | cmake_refactor/listeners.py:306-356 | extending the public list in place, and marking the target linked, keep the registry invariant |
| UpdatePass.FirstLinkEffect | cmake_refactor/listeners.py:305-356 | the first link statement of a defined target keeps the registry invariant |
| UpdatePass.LaterLinkTokens | cmake_refactor/listeners.py:357-366 | a later statement keeps its number of tokens |
| UpdatePass.UpdateEffect | cmake_refactor/listeners.py:291-366 | `exitModify_target` of the rewrite pass keeps the registry invariant |
| UpdatePass.UpdateSkipsUndefined | cmake_refactor/listeners.py:292-296 | a target without a known directory is only registered; its statement is not edited |
| UpdatePass.UpdateRewritesFirst | cmake_refactor/listeners.py:305-356 | the first statement of a defined target becomes the text before its arguments, the rendered lists, and the text from its closing token on; the target is marked linked with its public list extended |
| UpdatePass.FirstLinkRewrites | cmake_refactor/listeners.py:329-356 | a successful first statement keeps the text around its arguments and replaces them with the rendering |
| UpdatePass.RewrittenText | cmake_refactor/listeners.py:329-355 | replacing the arguments keeps the text up to and including `(` and from `)` on |
| UpdatePass.UpdateFailureKeepsTokens | cmake_refactor/listeners.py:305-341 | when reconciliation raises, nothing is rewritten and the target stays unlinked, but its public list has already been extended |
| UpdatePass.UpdateLaterStatement | cmake_refactor/listeners.py:357-366 | a later statement of a linked target changes no node; it is left alone when it names a scope keyword, and otherwise gets `INTERFACE ` or `PUBLIC ` inserted after token `start + 3` (for `target_link_libraries(foo)` that is the closing `)`) |
| UpdatePass.UpdateListener.constructor | cmake_refactor/listeners.py:287-289 | the listener holds the registry and the rewriter |
| UpdatePass.UpdateListener.ExitModifyTarget | cmake_refactor/listeners.py:291-366 | the registry, the tokens and the status are exactly those of `UpdateEffect`, and the registry invariant is kept |
| UpdatePass.UpdateListener.RewriteFirst | cmake_refactor/listeners.py:305-356 | the first link statement has exactly the effect `FirstLinkEffect` |
| Rewriter.Replaced | cmake_refactor/listeners.py:355 | `replaceRange` keeps the number of tokens |
| Rewriter.Inserted | cmake_refactor/listeners.py:363-366 | `insertAfter` keeps the number of tokens |
| Rewriter.TextAppend | cmake_refactor/listeners.py:355 | the text of two token runs is the concatenation of their texts |
| Rewriter.ReplacedText | cmake_refactor/listeners.py:355 | after a range replacement, the text is the text before the range, the new text, and the text after it |
| Rewriter.InsertedText | cmake_refactor/listeners.py:363-366 | after an insertion, the text is the text up to and including the token, the new text, and the rest |
| Rewriter.TokenRewriter.constructor | cmake_refactor/listeners.py:289 | the rewriter starts from the file's tokens |
| Rewriter.TokenRewriter.ReplaceRange | cmake_refactor/listeners.py:355 | the tokens become `Replaced` of the old tokens |
| Rewriter.TokenRewriter.InsertAfter | cmake_refactor/listeners.py:363-366 | the tokens become `Inserted` of the old tokens |

## Left out

- `SyntaxErrorListener` (listeners.py:85-89): ANTLR error reporting, outside the dependency logic.
- The ANTLR parse context is not modelled. A statement is a `Statement`: the argument texts, the
  number of compound arguments, the build file's name, and the start and stop token indices.
  `Spans` states the token layout that the rewrite assumes of a parsed statement. The grammar is
  not part of this model, so this layout is an assumption, not a proved property.
- `TokenStreamRewriter` internals are not modelled. A `replaceRange` puts the new text in the first
  token of the range and empties the rest. An `insertAfter` appends to the token's text. This is
  how ANTLR renders the non-overlapping edits the listener makes.
- `glob(cml_path + "/*.h*")` and `io.has_matching_src` (listeners.py:205-207): file-system access and
  a helper outside the core. Their result is the `paired` parameter.
- The `io` module is not part of this model: include scanning, header mapping, file discovery and
  walking. The observed `public_targets`/`private_targets` are inputs to reconciliation.
- `os.path` is modelled as POSIX string functions on `string` (`Paths`), not on the file system.
- `TargetNode.__str__`, the `print` at listeners.py:340 and the `Warning(...)` constructions at lines
  167 and 265 are left out: output only, and the warnings are never raised.
- Lower-casing the command name is not modelled. The command is the `ModifyCommand` datatype
  instead.
- Object identity is replaced by names. Two nodes are the same node exactly when they are
  registered under the same name.
- Set enumeration order is not modelled. `[*set(...)]` is `Dedup`, and `SetEnumerationIrrelevant`
  shows that the sorted result is the same for every enumeration.
- A raised exception is a `Status` or `Result` value. What a caller does after it is outside the
  core.
- The `in_if` field of `TargetInputListener` (listeners.py:117) is never read, so it is left out.
- InputPass.AttributedFiles: its ensures states only a length bound. Its exact content is proved
  for arguments without variables (`AttributedPlainFiles`) and for list-directory arguments
  (`ListDirFilesDropped`), but not for other arguments that contain a variable.
- UpdatePass.Reconcile: its own ensures states only the error. Its results are stated in
  `ReconcileFailsIff`, `ReconcileLists` and `ReconcileFallback`.
