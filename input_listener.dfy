/** The declaration pass (`TargetInputListener`): reads add-target, target_sources and
    target_link_libraries statements and records sources, headers, kinds, aliases and the
    declared link scopes in the shared registry. */
module InputPass {
  import opened Outcomes
  import opened Seqs
  import opened Paths
  import opened Args
  import opened Targets

  const ListDirPrefix: string := "${CMAKE_CURRENT_LIST_DIR}/"

  /** The file arguments `add_target_sources` keeps: after the list-directory variable is
      replaced, only names without a directory part, each joined onto `cmlPath`. */
  function AttributedFiles(files: seq<string>, cmlPath: string): (r: seq<string>)
    ensures |r| <= |files|
  {
    var replaced := seq(|files|, i requires 0 <= i < |files| => ReplaceAll(files[i], ListDirPrefix, cmlPath));
    var local := Filter(replaced, f => Dirname(f) == "");
    seq(|local|, i requires 0 <= i < |local| => Join(cmlPath, local[i]))
  }

  lemma {:induction false} ReplaceAllWithoutFirstChar(s: string, pattern: string, replacement: string)
    requires pattern != "" && pattern[0] !in s
    ensures ReplaceAll(s, pattern, replacement) == s
    decreases |s|
  {
    if |s| >= |pattern| {
      assert s[..|pattern|][0] == s[0];
      assert s[0] in s;
      ReplaceAllWithoutFirstChar(s[1..], pattern, replacement);
      assert s == [s[0]] + s[1..];
    }
  }

  /** For arguments without variables, `add_target_sources` keeps exactly the bare file
      names, in order, each joined onto the directory of the build file. */
  lemma AttributedPlainFiles(files: seq<string>, cmlPath: string)
    requires forall f :: f in files ==> '$' !in f
    ensures AttributedFiles(files, cmlPath)
         == var bare := Filter(files, f => '/' !in f); seq(|bare|, i requires 0 <= i < |bare| => Join(cmlPath, bare[i]))
  {
    var replaced := seq(|files|, i requires 0 <= i < |files| => ReplaceAll(files[i], ListDirPrefix, cmlPath));
    assert replaced == files by {
      forall i | 0 <= i < |files| ensures replaced[i] == files[i] {
        assert files[i] in files;
        ReplaceAllWithoutFirstChar(files[i], ListDirPrefix, cmlPath);
      }
    }
    forall f ensures (Dirname(f) == "") == ('/' !in f) { DirnameEmptyIff(f); }
    FilterSamePredicate(files, f => Dirname(f) == "", f => '/' !in f);
  }

  lemma {:induction false} FilterSamePredicate<T(!new)>(s: seq<T>, p: T -> bool, q: T -> bool)
    requires forall x :: p(x) == q(x)
    ensures Filter(s, p) == Filter(s, q)
  {
    if s != [] { FilterSamePredicate(s[1..], p, q); }
  }

  /** When the build file's directory contains a `/` (any absolute path does), a file named
      through `${CMAKE_CURRENT_LIST_DIR}/` is never attributed: the substitution leaves a
      directory part in the name, and such names are dropped. */
  lemma ListDirFilesDropped(f: string, cmlPath: string)
    requires StartsWith(f, ListDirPrefix) && '/' in cmlPath
    ensures AttributedFiles([f], cmlPath) == []
  {
    var g := ReplaceAll(f, ListDirPrefix, cmlPath);
    assert StartsWith(g, cmlPath);
    var k :| 0 <= k < |cmlPath| && cmlPath[k] == '/';
    assert g[k] == '/';
    DirnameEmptyIff(g);
    var replaced := seq(1, i requires 0 <= i < 1 => ReplaceAll([f][i], ListDirPrefix, cmlPath));
    assert replaced == [g];
    assert Filter([g], f => Dirname(f) == "") == [] by {
      assert [g][1..] == [];
    }
  }

  /** The sources and headers `add_target_sources` attributes for `args` (target name first);
      `paired` stands for the headers found beside the build file that match a source. */
  function FilesOf(args: seq<string>, cmlPath: string, paired: seq<string>): (r: (seq<string>, seq<string>))
    requires |args| > 0
  {
    var sorted := SortFiles(AttributedFiles(args[1..], cmlPath));
    (sorted.0, sorted.1 + paired)
  }

  /** The node `name` with `sources` and `headers` appended to its lists. */
  function AddSources(nodes: map<string, TargetNode>, name: string, sources: seq<string>, headers: seq<string>)
    : (r: map<string, TargetNode>)
    requires name in nodes
    ensures r.Keys == nodes.Keys
    ensures WellFormed(nodes) ==> WellFormed(r)
  {
    nodes[name := nodes[name].(headers := nodes[name].headers + headers, sources := nodes[name].sources + sources)]
  }

  /** The header map after each of `headers` was recorded against `target`: the entry under the
      header's name (with `root` removed) is reset to `[]` when the unstripped name is not a key,
      then `target` is appended to it; appending to an absent entry raises. */
  function RecordHeaders(hm: map<string, seq<string>>, headers: seq<string>, root: string, target: string)
    : (r: (map<string, seq<string>>, Status))
    ensures hm.Keys <= r.0.Keys
    ensures r.1.Failed? ==> r.1.error.MissingHeaderKey? && r.1.error.key !in r.0
    decreases |headers|
  {
    if headers == [] then (hm, Done)
    else
      var h := headers[0];
      var key := RemovePrefix(h, root);
      var reset := if h !in hm then hm[key := []] else hm;
      if key !in reset then (reset, Failed(MissingHeaderKey(key)))
      else RecordHeaders(reset[key := reset[key] + [target]], headers[1..], root, target)
  }

  predicate EndsWith(entry: seq<string>, target: string) {
    |entry| > 0 && entry[|entry| - 1] == target
  }

  /** Once recorded, the entry of every attributed header ends with the target; entries that
      already ended with it keep doing so. */
  lemma {:induction false} RecordHeadersEndWithTarget(hm: map<string, seq<string>>, headers: seq<string>,
                                                      root: string, target: string, done: set<string>)
    requires forall k :: k in done ==> k in hm && EndsWith(hm[k], target)
    requires RecordHeaders(hm, headers, root, target).1 == Done
    ensures var m := RecordHeaders(hm, headers, root, target).0;
      && (forall k :: k in done ==> k in m && EndsWith(m[k], target))
      && (forall h :: h in headers ==> RemovePrefix(h, root) in m && EndsWith(m[RemovePrefix(h, root)], target))
    decreases |headers|
  {
    if headers != [] {
      var h := headers[0];
      var key := RemovePrefix(h, root);
      var reset := if h !in hm then hm[key := []] else hm;
      var next := reset[key := reset[key] + [target]];
      RecordHeadersEndWithTarget(next, headers[1..], root, target, done + {key});
      assert forall x :: x in headers ==> x == h || x in headers[1..] by {
        assert headers == [h] + headers[1..];
      }
    }
  }

  /** With the default empty root, recording never raises, and afterwards every header's own
      name is a key whose entry ends with the target. */
  lemma RecordHeadersEmptyRoot(hm: map<string, seq<string>>, headers: seq<string>, target: string)
    ensures RecordHeaders(hm, headers, "", target).1 == Done
    ensures var m := RecordHeaders(hm, headers, "", target).0;
      forall h :: h in headers ==> h in m && EndsWith(m[h], target)
  {
    RecordHeadersEmptyRootDone(hm, headers, target);
    RecordHeadersEndWithTarget(hm, headers, "", target, {});
    forall h | h in headers ensures RemovePrefix(h, "") == h {
      assert StartsWith(h, "");
    }
  }

  lemma {:induction false} RecordHeadersEmptyRootDone(hm: map<string, seq<string>>, headers: seq<string>, target: string)
    ensures RecordHeaders(hm, headers, "", target).1 == Done
    decreases |headers|
  {
    if headers != [] {
      var h := headers[0];
      assert StartsWith(h, "");
      assert RemovePrefix(h, "") == h;
      var reset := if h !in hm then hm[h := []] else hm;
      RecordHeadersEmptyRootDone(reset[h := reset[h] + [target]], headers[1..], target);
    }
  }

  /** Entries of keys no header maps to are left alone, and no other key appears. */
  lemma {:induction false} RecordHeadersFrame(hm: map<string, seq<string>>, headers: seq<string>,
                                              root: string, target: string, k: string)
    requires forall h :: h in headers ==> RemovePrefix(h, root) != k
    ensures var m := RecordHeaders(hm, headers, root, target).0;
      (k in m <==> k in hm) && (k in hm ==> m[k] == hm[k])
    decreases |headers|
  {
    if headers != [] {
      var h := headers[0];
      var key := RemovePrefix(h, root);
      var reset := if h !in hm then hm[key := []] else hm;
      if key in reset {
        assert headers[0] in headers;
        RecordHeadersFrame(reset[key := reset[key] + [target]], headers[1..], root, target, k);
      }
    }
  }

  /** With an empty repository root the entry grows by one: earlier owners are kept. */
  lemma RecordHeaderAccumulates(hm: map<string, seq<string>>, h: string, target: string)
    ensures RecordHeaders(hm, [h], "", target)
         == (hm[h := (if h in hm then hm[h] else []) + [target]], Done)
  {
    assert StartsWith(h, "") && "" + h == h;
    assert RemovePrefix(h, "") == h;
    var reset := if h !in hm then hm[h := []] else hm;
    assert h in reset;
    var next := reset[h := reset[h] + [target]];
    assert [h][1..] == [];
    assert RecordHeaders(next, [], "", target) == (next, Done);
    assert next == hm[h := (if h in hm then hm[h] else []) + [target]];
  }

  /** The membership test looks up the unstripped name: for a header under a non-empty root
      whose full name is not a key, the stripped entry is reset and keeps only the latest
      target. */
  lemma RecordHeaderResets(hm: map<string, seq<string>>, h: string, root: string, target: string)
    requires StartsWith(h, root) && root != "" && h !in hm
    ensures RecordHeaders(hm, [h], root, target).1 == Done
    ensures var key := RemovePrefix(h, root); var m := RecordHeaders(hm, [h], root, target).0;
      key in m && m[key] == [target]
  {
    var key := RemovePrefix(h, root);
    var next := hm[key := []][key := [target]];
    assert [h][1..] == [];
    assert [] + [target] == [target];
    assert RecordHeaders(next, [], root, target) == (next, Done);
  }

  /** Effect of `add_target_sources(args, cml_path)` on the registry and the header map. */
  function SourcesEffect(nodes: map<string, TargetNode>, hm: Option<map<string, seq<string>>>, root: string,
                         args: seq<string>, cmlPath: string, paired: seq<string>)
    : (r: (map<string, TargetNode>, Option<map<string, seq<string>>>, Status))
    ensures |args| > 0 && args[0] != "" ==> r.0.Keys == nodes.Keys + {args[0]}
    ensures |args| > 0 && args[0] != "" ==> (WellFormed(nodes) ==> WellFormed(r.0))
  {
    if |args| == 0 then (nodes, hm, Failed(MissingArgument))
    else if args[0] == "" then (nodes, hm, Failed(MissingName))
    else
      var files := FilesOf(args, cmlPath, paired);
      var updated := AddSources(Ensured(nodes, args[0]), args[0], files.0, files.1);
      match hm
      case None => (updated, None, Done)
      case Some(m) =>
        var recorded := RecordHeaders(m, files.1, root, args[0]);
        (updated, Some(recorded.0), recorded.1)
  }

  /** `add_target_sources` only appends: every node keeps its files as a prefix, and the
      target gains exactly the attributed sources and headers. */
  lemma SourcesEffectAppends(nodes: map<string, TargetNode>, hm: Option<map<string, seq<string>>>, root: string,
                             args: seq<string>, cmlPath: string, paired: seq<string>)
    requires WellFormed(nodes) && |args| > 0 && args[0] != ""
    ensures var after := SourcesEffect(nodes, hm, root, args, cmlPath, paired).0;
      && WellFormed(after)
      && after.Keys == nodes.Keys + {args[0]}
      && (forall k :: k in nodes && k != args[0] ==> after[k] == nodes[k])
      && after[args[0]].sources == Ensured(nodes, args[0])[args[0]].sources + FilesOf(args, cmlPath, paired).0
      && after[args[0]].headers == Ensured(nodes, args[0])[args[0]].headers + FilesOf(args, cmlPath, paired).1
      && (forall f :: f in FilesOf(args, cmlPath, paired).0 ==> IsSourceFile(f))
      && (forall f :: f in FilesOf(args, cmlPath, paired).1 ==> IsHeaderFile(f) || f in paired)
  {
  }

  /** Effect of a `target_link_libraries` statement on the registry (`add_linked_targets`). */
  function LinkEffect(nodes: map<string, TargetNode>, args: seq<string>): (r: (map<string, TargetNode>, Status))
    ensures WellFormed(nodes) ==> WellFormed(r.0)
  {
    if |args| == 0 then (nodes, Failed(MissingArgument))
    else if args[0] == "" then (nodes, Failed(MissingName))
    else
      var name := args[0];
      var named := Ensured(nodes, name);
      if named[name].wasLinked then (named, Done)
      else RecordLinks(named, name, LinkItems(args[1..]))
  }

  /** The registry after the kept link `items` of target `name` were walked and recorded. */
  function RecordLinks(nodes: map<string, TargetNode>, name: string, items: seq<string>)
    : (r: (map<string, TargetNode>, Status))
    requires name in nodes
    ensures name in r.0 && nodes.Keys <= r.0.Keys
    ensures WellFormed(nodes) ==> WellFormed(r.0)
    ensures r.1 == if "" in NonKeywords(items) then Failed(MissingName) else Done
    ensures r.1 == Done ==> r.0[name] == Linked(nodes[name], items)
    ensures r.1 == Done ==> forall x :: x in NonKeywords(items) ==> x in r.0
    ensures forall k :: k in r.0 && k !in nodes ==> k in NonKeywords(items) && k != "" && r.0[k] == FreshNode(k)
    ensures forall k :: k in nodes && k != name ==> r.0[k] == nodes[k]
  {
    var resolved := EnsureAll(nodes, NonKeywords(items));
    if "" in NonKeywords(items) then (resolved, Failed(MissingName))
    else
      var linked := Linked(resolved[name], items);
      assert WellFormed(nodes) ==> WellFormed(resolved[name := linked]) by {
        if WellFormed(nodes) {
          LinkedRefs(resolved[name], items);
          UpdateKeepsWellFormed(resolved, name, linked);
        }
      }
      (resolved[name := linked], Done)
  }

  /** The node after its first link statement: each scope list extended by the items of that
      scope, and marked as linked. */
  function Linked(node: TargetNode, items: seq<string>): TargetNode {
    node.(ppublicTargets := node.ppublicTargets + Selected(items, Public),
          pprivateTargets := node.pprivateTargets + Selected(items, Private),
          interfaceTargets := node.interfaceTargets + Selected(items, Interface),
          wasLinked := true)
  }

  /** Recording links only adds references to non-keyword items. */
  lemma LinkedRefs(node: TargetNode, items: seq<string>)
    ensures forall x :: x in Refs(Linked(node, items)) ==> x in Refs(node) || x in NonKeywords(items)
  {
    SelectedMembers(items, Public);
    SelectedMembers(items, Private);
    SelectedMembers(items, Interface);
    var linked := Linked(node, items);
    forall x | x in Refs(linked) && x !in Refs(node) ensures x in NonKeywords(items) {
      assert x in Selected(items, Public) || x in Selected(items, Private) || x in Selected(items, Interface);
    }
  }

  /** Only the first link statement of a target is recorded: once it was linked, later
      statements change nothing. */
  lemma LinkEffectFirstOnly(nodes: map<string, TargetNode>, args: seq<string>)
    requires WellFormed(nodes)
    requires |args| > 0 && args[0] in nodes && nodes[args[0]].wasLinked
    ensures LinkEffect(nodes, args) == (nodes, Done)
  {
  }

  /** A successful first link statement appends each item, once and in order, to the list of
      the scope it stands in, materialises every linked name, and touches no other node. */
  lemma LinkEffectRecordsScopes(nodes: map<string, TargetNode>, args: seq<string>)
    requires WellFormed(nodes)
    requires |args| > 0 && args[0] != "" && !(args[0] in nodes && nodes[args[0]].wasLinked)
    requires LinkEffect(nodes, args).1 == Done
    ensures var after := LinkEffect(nodes, args).0;
      var items := LinkItems(args[1..]);
      var before := Ensured(nodes, args[0])[args[0]];
      && after[args[0]].wasLinked
      && after[args[0]].ppublicTargets == before.ppublicTargets + Selected(items, Public)
      && after[args[0]].pprivateTargets == before.pprivateTargets + Selected(items, Private)
      && after[args[0]].interfaceTargets == before.interfaceTargets + Selected(items, Interface)
      && (forall x :: x in after <==> x in nodes || x == args[0] || x in NonKeywords(items))
      && (forall k :: k in nodes && k != args[0] ==> after[k] == nodes[k])
      && (forall k :: k in after && k !in nodes && k != args[0] ==> after[k] == FreshNode(k))
  {
  }

  /** Once a statement linked a target successfully, any later statement for it is ignored. */
  lemma LinkEffectThenIgnored(nodes: map<string, TargetNode>, first: seq<string>, later: seq<string>)
    requires WellFormed(nodes)
    requires |first| > 0 && LinkEffect(nodes, first).1 == Done
    requires |later| > 0 && later[0] == first[0]
    ensures LinkEffect(LinkEffect(nodes, first).0, later) == (LinkEffect(nodes, first).0, Done)
  {
  }

  /** One step of the scope walk: what reading `items[i]` adds to the materialised names. */
  lemma NamesStep(items: seq<string>, i: nat)
    requires i < |items|
    ensures var item := items[i];
      var plain := if IsScopeKeyword(item) then [] else [item];
      && NonKeywords(items[..i + 1]) == NonKeywords(items[..i]) + plain
      && NonKeywords(items[i..]) == plain + NonKeywords(items[i + 1..])
  {
    var item := items[i];
    assert items[..i + 1] == items[..i] + [item];
    assert items[i..] == [item] + items[i + 1..];
    FilterAppend(items[..i], [item], IsPlainItem);
    FilterAppend([item], items[i + 1..], IsPlainItem);
    assert [item][1..] == [];
  }

  /** `scoped` holds, under each scope, the items of `items` that fall under it. */
  predicate ScopeLists(scoped: map<Scope, seq<string>>, items: seq<string>) {
    forall sc: Scope :: sc in scoped && scoped[sc] == Selected(items, sc)
  }

  /** Before the walk, every scope list is empty. */
  lemma NoScopeLists(items: seq<string>)
    ensures ScopeLists(map[Public := [], Private := [], Interface := []], items[..0])
  {
    var none: map<Scope, seq<string>> := map[Public := [], Private := [], Interface := []];
    assert items[..0] == [];
    forall sc: Scope ensures sc in none {
      match sc
      case Public =>
      case Private =>
      case Interface =>
    }
  }

  /** One step of the scope walk: a keyword switches the scope, any other item joins the list
      of the scope in force. */
  lemma ScopeStep(items: seq<string>, i: nat, scope: Scope, scoped: map<Scope, seq<string>>)
    requires i < |items| && scope == ScopeAfter(items[..i])
    requires ScopeLists(scoped, items[..i])
    ensures var item := items[i];
      var kw := IsScopeKeyword(item);
      && ScopeAfter(items[..i + 1]) == (if kw then ScopeOf(item) else scope)
      && ScopeLists(if kw then scoped else scoped[scope := scoped[scope] + [item]], items[..i + 1])
  {
    assert items[..i + 1][..i] == items[..i];
  }

  /** Effect of an add-target statement (`exitAdd_target`) on the registry and header map. */
  function AddTargetEffect(nodes: map<string, TargetNode>, hm: Option<map<string, seq<string>>>, root: string,
                           stmt: Statement, paired: seq<string>)
    : (r: (map<string, TargetNode>, Option<map<string, seq<string>>>, Status))
    ensures WellFormed(nodes) ==> WellFormed(r.0)
  {
    var args := GetArgs(stmt.args);
    if |args| == 0 then (nodes, hm, Failed(NoArguments))
    else if stmt.compoundCount > 0 then (nodes, hm, Failed(CompoundArgument))
    else if args[0] == "" then (nodes, hm, Failed(MissingName))
    else DefineEffect(Ensured(nodes, args[0]), hm, root, args[0], CleanTargetArgs(args), Dirname(stmt.fileName), paired)
  }

  /** The rest of `exitAdd_target` once the target `name` exists and the arguments were
      cleaned to `cleaned`; `cmlPath` is the directory of the build file. */
  function DefineEffect(nodes: map<string, TargetNode>, hm: Option<map<string, seq<string>>>, root: string,
                        name: string, cleaned: seq<string>, cmlPath: string, paired: seq<string>)
    : (r: (map<string, TargetNode>, Option<map<string, seq<string>>>, Status))
    requires name in nodes
    ensures name in r.0 && nodes.Keys <= r.0.Keys
    ensures WellFormed(nodes) ==> WellFormed(r.0)
  {
    if |cleaned| == 1 then (nodes, hm, Done)
    else if |cleaned| == 3 && cleaned[1] == "ALIAS" then
      if cleaned[2] == "" then (nodes, hm, Failed(MissingName))
      else
        var withOther := Ensured(nodes, cleaned[2]);
        var aliased := withOther[name].(aliasFor := Some(cleaned[2]));
        assert WellFormed(nodes) ==> WellFormed(withOther[name := aliased]) by {
          if WellFormed(nodes) {
            assert forall x :: x in Refs(aliased) ==> x in Refs(withOther[name]) || x == cleaned[2];
            UpdateKeepsWellFormed(withOther, name, aliased);
          }
        }
        (withOther[name := aliased], hm, Done)
    else if |cleaned| == 0 then (nodes, hm, Failed(MissingArgument))
    else KindAndFilesEffect(nodes, hm, root, name, cleaned, cmlPath, paired)
  }

  /** The defining branch of `exitAdd_target`: the kind keyword, the files, then the directory. */
  function KindAndFilesEffect(nodes: map<string, TargetNode>, hm: Option<map<string, seq<string>>>, root: string,
                              name: string, cleaned: seq<string>, cmlPath: string, paired: seq<string>)
    : (r: (map<string, TargetNode>, Option<map<string, seq<string>>>, Status))
    requires name in nodes && |cleaned| >= 2
    ensures name in r.0 && nodes.Keys <= r.0.Keys
    ensures WellFormed(nodes) ==> WellFormed(r.0)
  {
    var kinded := WithKind(nodes, name, cleaned[1]);
    var added := SourcesEffect(kinded, hm, root, FileArgs(cleaned), cmlPath, paired);
    if added.2.Failed? then added
    else
      PlacedKeepsWellFormed(nodes, added.0, name, cmlPath);
      (added.0[name := added.0[name].(cmlPath := Some(cmlPath))], added.1, Done)
  }

  /** Recording the directory of a registered target keeps the registry well formed. */
  lemma PlacedKeepsWellFormed(nodes: map<string, TargetNode>, added: map<string, TargetNode>, name: string, cmlPath: string)
    requires name in added && (WellFormed(nodes) ==> WellFormed(added))
    ensures WellFormed(nodes) ==> WellFormed(added[name := added[name].(cmlPath := Some(cmlPath))])
  {
    if WellFormed(nodes) {
      UpdateKeepsWellFormed(added, name, added[name].(cmlPath := Some(cmlPath)));
    }
  }

  /** `KindAndFilesEffect` step by step. */
  lemma KindAndFilesParts(nodes: map<string, TargetNode>, hm: Option<map<string, seq<string>>>, root: string,
                          name: string, cleaned: seq<string>, cmlPath: string, paired: seq<string>)
    requires name in nodes && |cleaned| >= 2
    ensures var added := SourcesEffect(WithKind(nodes, name, cleaned[1]), hm, root, FileArgs(cleaned), cmlPath, paired);
      var r := KindAndFilesEffect(nodes, hm, root, name, cleaned, cmlPath, paired);
      && (added.2.Failed? ==> r == added)
      && (!added.2.Failed? ==> r == (added.0[name := added.0[name].(cmlPath := Some(cmlPath))], added.1, Done))
  {
  }

  /** `OBJECT` or `INTERFACE` right after the name sets the node's kind. */
  function WithKind(nodes: map<string, TargetNode>, name: string, keyword: string): (r: map<string, TargetNode>)
    requires name in nodes
    ensures r.Keys == nodes.Keys
    ensures forall k :: k in nodes ==> Refs(r[k]) == Refs(nodes[k]) && r[k].name == nodes[k].name
    ensures WellFormed(nodes) ==> WellFormed(r)
  {
    if keyword == "OBJECT" then nodes[name := nodes[name].(isObjectLib := true)]
    else if keyword == "INTERFACE" then nodes[name := nodes[name].(isInterface := true)]
    else nodes
  }

  /** The cleaned arguments with a kind keyword at position 1 deleted (`del args[1]`). */
  function FileArgs(cleaned: seq<string>): (r: seq<string>)
    requires |cleaned| >= 2
    ensures |r| > 0 && r[0] == cleaned[0]
    ensures cleaned[1] in ["OBJECT", "INTERFACE"] ==> r == [cleaned[0]] + cleaned[2..]
    ensures cleaned[1] !in ["OBJECT", "INTERFACE"] ==> r == cleaned
  {
    if cleaned[1] == "OBJECT" || cleaned[1] == "INTERFACE" then [cleaned[0]] + cleaned[2..] else cleaned
  }

  /** An add-target statement without arguments, or with a bracketed argument, raises and
      changes nothing. */
  lemma AddTargetRejects(nodes: map<string, TargetNode>, hm: Option<map<string, seq<string>>>, root: string,
                         stmt: Statement, paired: seq<string>)
    requires |stmt.args| == 0 || stmt.compoundCount > 0
    ensures AddTargetEffect(nodes, hm, root, stmt, paired) ==
      (nodes, hm, Failed(if |stmt.args| == 0 then NoArguments else CompoundArgument))
  {
  }

  /** `add_library(name ALIAS other)` makes `name` an alias of a (possibly new) node `other`
      and records nothing else: no files, no directory, no header-map entries. */
  lemma AddTargetAlias(nodes: map<string, TargetNode>, hm: Option<map<string, seq<string>>>, root: string,
                       stmt: Statement, paired: seq<string>)
    requires stmt.compoundCount == 0
    requires var args := GetArgs(stmt.args); var cleaned := CleanTargetArgs(args);
      |args| > 0 && args[0] != "" && |cleaned| == 3 && cleaned[1] == "ALIAS" && cleaned[2] != ""
    ensures var args := GetArgs(stmt.args); var cleaned := CleanTargetArgs(args);
      var name := args[0];
      var r := AddTargetEffect(nodes, hm, root, stmt, paired);
      && r.2 == Done && r.1 == hm
      && r.0.Keys == nodes.Keys + {name, cleaned[2]}
      && r.0[name] == Ensured(nodes, name)[name].(aliasFor := Some(cleaned[2]))
      && (forall k :: k in nodes && k != name ==> r.0[k] == nodes[k])
  {
    var args := GetArgs(stmt.args);
    DefineAlias(Ensured(nodes, args[0]), hm, root, args[0], CleanTargetArgs(args), Dirname(stmt.fileName), paired);
  }

  lemma DefineAlias(nodes: map<string, TargetNode>, hm: Option<map<string, seq<string>>>, root: string,
                    name: string, cleaned: seq<string>, cmlPath: string, paired: seq<string>)
    requires name in nodes
    requires |cleaned| == 3 && cleaned[1] == "ALIAS" && cleaned[2] != ""
    ensures var r := DefineEffect(nodes, hm, root, name, cleaned, cmlPath, paired);
      && r.2 == Done && r.1 == hm
      && r.0.Keys == nodes.Keys + {cleaned[2]}
      && r.0[name] == nodes[name].(aliasFor := Some(cleaned[2]))
      && (forall k :: k in nodes && k != name ==> r.0[k] == nodes[k])
  {
  }

  /** A defining statement with files sets the kind given by an `OBJECT`/`INTERFACE` keyword,
      attributes the remaining files, and sets the directory, overwriting any earlier one. */
  lemma AddTargetDefines(nodes: map<string, TargetNode>, hm: Option<map<string, seq<string>>>, root: string,
                         stmt: Statement, paired: seq<string>)
    requires WellFormed(nodes)
    requires stmt.compoundCount == 0
    requires var args := GetArgs(stmt.args); var cleaned := CleanTargetArgs(args);
      && |args| > 0 && args[0] != "" && |cleaned| >= 2 && cleaned[0] == args[0]
      && !(|cleaned| == 3 && cleaned[1] == "ALIAS")
    requires AddTargetEffect(nodes, hm, root, stmt, paired).2 == Done
    ensures var args := GetArgs(stmt.args); var cleaned := CleanTargetArgs(args);
      var name := args[0];
      var after := AddTargetEffect(nodes, hm, root, stmt, paired).0;
      var before := Ensured(nodes, name)[name];
      var files := FilesOf(FileArgs(cleaned), Dirname(stmt.fileName), paired);
      && after.Keys == nodes.Keys + {name}
      && after[name].cmlPath == Some(Dirname(stmt.fileName))
      && after[name].isObjectLib == (before.isObjectLib || cleaned[1] == "OBJECT")
      && after[name].isInterface == (before.isInterface || cleaned[1] == "INTERFACE")
      && after[name].sources == before.sources + files.0
      && after[name].headers == before.headers + files.1
      && Refs(after[name]) == Refs(before)
      && (forall k :: k in nodes && k != name ==> after[k] == nodes[k])
  {
    var args := GetArgs(stmt.args);
    var name, cleaned, cmlPath := args[0], CleanTargetArgs(args), Dirname(stmt.fileName);
    var ensured := Ensured(nodes, name);
    assert AddTargetEffect(nodes, hm, root, stmt, paired) == DefineEffect(ensured, hm, root, name, cleaned, cmlPath, paired);
    DefineIsKindAndFiles(ensured, hm, root, name, cleaned, cmlPath, paired);
    DefineWithFiles(ensured, hm, root, name, cleaned, cmlPath, paired);
    WithKindFields(ensured, name, cleaned[1]);
  }

  lemma WithKindFields(nodes: map<string, TargetNode>, name: string, keyword: string)
    requires name in nodes
    ensures WithKind(nodes, name, keyword)[name]
         == nodes[name].(isObjectLib := nodes[name].isObjectLib || keyword == "OBJECT",
                         isInterface := nodes[name].isInterface || keyword == "INTERFACE")
  {
  }

  /** A definition with files gives the target its kind, appends its files and records its
      directory, and leaves every other node as it was. */
  lemma DefineWithFiles(nodes: map<string, TargetNode>, hm: Option<map<string, seq<string>>>, root: string,
                        name: string, cleaned: seq<string>, cmlPath: string, paired: seq<string>)
    requires name in nodes
    requires |cleaned| >= 2 && cleaned[0] == name
    requires KindAndFilesEffect(nodes, hm, root, name, cleaned, cmlPath, paired).2 == Done
    ensures var after := KindAndFilesEffect(nodes, hm, root, name, cleaned, cmlPath, paired).0;
      var files := FilesOf(FileArgs(cleaned), cmlPath, paired);
      && after.Keys == nodes.Keys
      && after[name] == WithKind(nodes, name, cleaned[1])[name].(sources := nodes[name].sources + files.0,
                                                                headers := nodes[name].headers + files.1,
                                                                cmlPath := Some(cmlPath))
      && (forall k :: k in nodes && k != name ==> after[k] == nodes[k])
  {
    var kinded := WithKind(nodes, name, cleaned[1]);
    var fileArgs := FileArgs(cleaned);
    KindAndFilesParts(nodes, hm, root, name, cleaned, cmlPath, paired);
    WithKindFields(nodes, name, cleaned[1]);
    assert fileArgs[0] == name;
    SourcesOfKnownTarget(kinded, hm, root, fileArgs, cmlPath, paired);
  }

  /** Past the alias form, a definition with arguments is the kind-and-files branch. */
  lemma DefineIsKindAndFiles(nodes: map<string, TargetNode>, hm: Option<map<string, seq<string>>>, root: string,
                             name: string, cleaned: seq<string>, cmlPath: string, paired: seq<string>)
    requires name in nodes
    requires |cleaned| >= 2 && !(|cleaned| == 3 && cleaned[1] == "ALIAS")
    ensures DefineEffect(nodes, hm, root, name, cleaned, cmlPath, paired)
         == KindAndFilesEffect(nodes, hm, root, name, cleaned, cmlPath, paired)
  {
  }

  /** For a target already in the registry, `add_target_sources` only appends its files. */
  lemma SourcesOfKnownTarget(nodes: map<string, TargetNode>, hm: Option<map<string, seq<string>>>, root: string,
                             args: seq<string>, cmlPath: string, paired: seq<string>)
    requires |args| > 0 && args[0] != "" && args[0] in nodes
    ensures SourcesEffect(nodes, hm, root, args, cmlPath, paired).0
         == AddSources(nodes, args[0], FilesOf(args, cmlPath, paired).0, FilesOf(args, cmlPath, paired).1)
  {
  }

  /** The directory is recorded last: when attributing the files raises, the target keeps
      the directory it had before the statement. */
  lemma KindAndFilesDirectory(nodes: map<string, TargetNode>, hm: Option<map<string, seq<string>>>, root: string,
                              name: string, cleaned: seq<string>, cmlPath: string, paired: seq<string>)
    requires name in nodes && |cleaned| >= 2
    ensures var r := KindAndFilesEffect(nodes, hm, root, name, cleaned, cmlPath, paired);
      r.0[name].cmlPath == if r.2 == Done then Some(cmlPath) else nodes[name].cmlPath
  {
    var kinded := WithKind(nodes, name, cleaned[1]);
    var fileArgs := FileArgs(cleaned);
    var added := SourcesEffect(kinded, hm, root, fileArgs, cmlPath, paired);
    KindAndFilesParts(nodes, hm, root, name, cleaned, cmlPath, paired);
    WithKindFields(nodes, name, cleaned[1]);
    if fileArgs[0] != "" {
      var files := FilesOf(fileArgs, cmlPath, paired);
      var ensured := Ensured(kinded, fileArgs[0]);
      assert added.0 == AddSources(ensured, fileArgs[0], files.0, files.1);
      assert added.0[name].cmlPath == kinded[name].cmlPath;
    }
  }

  /** An add-target statement records the directory of its build file only when it defines
      the target with files and the files were attributed without raising; otherwise the
      target keeps the directory it had. */
  lemma AddTargetDirectory(nodes: map<string, TargetNode>, hm: Option<map<string, seq<string>>>, root: string,
                           stmt: Statement, paired: seq<string>)
    requires stmt.compoundCount == 0
    requires var args := GetArgs(stmt.args); |args| > 0 && args[0] != ""
    ensures var args := GetArgs(stmt.args); var cleaned := CleanTargetArgs(args);
      var r := AddTargetEffect(nodes, hm, root, stmt, paired);
      && args[0] in r.0
      && r.0[args[0]].cmlPath
         == if r.2 == Done && |cleaned| >= 2 && !(|cleaned| == 3 && cleaned[1] == "ALIAS")
            then Some(Dirname(stmt.fileName))
            else Ensured(nodes, args[0])[args[0]].cmlPath
  {
    var args := GetArgs(stmt.args);
    var name, cleaned, cmlPath := args[0], CleanTargetArgs(args), Dirname(stmt.fileName);
    var ensured := Ensured(nodes, name);
    assert AddTargetEffect(nodes, hm, root, stmt, paired) == DefineEffect(ensured, hm, root, name, cleaned, cmlPath, paired);
    DefineDirectory(ensured, hm, root, name, cleaned, cmlPath, paired);
  }

  lemma DefineDirectory(nodes: map<string, TargetNode>, hm: Option<map<string, seq<string>>>, root: string,
                        name: string, cleaned: seq<string>, cmlPath: string, paired: seq<string>)
    requires name in nodes
    ensures var r := DefineEffect(nodes, hm, root, name, cleaned, cmlPath, paired);
      && name in r.0
      && r.0[name].cmlPath
         == if r.2 == Done && |cleaned| >= 2 && !(|cleaned| == 3 && cleaned[1] == "ALIAS")
            then Some(cmlPath)
            else nodes[name].cmlPath
  {
    var isAlias := |cleaned| == 3 && cleaned[1] == "ALIAS";
    if isAlias && cleaned[2] != "" {
      DefineAlias(nodes, hm, root, name, cleaned, cmlPath, paired);
    } else if |cleaned| >= 2 && !isAlias {
      DefineIsKindAndFiles(nodes, hm, root, name, cleaned, cmlPath, paired);
      KindAndFilesDirectory(nodes, hm, root, name, cleaned, cmlPath, paired);
    }
  }

  /** The outcome of a definition whose first kept argument `other` is not the target's name:
      `name` gets only the kind `keyword` selects and the directory, `other` is registered if
      it was not and receives the files, and no other node changes. */
  predicate FilesWentToOther(before: map<string, TargetNode>, after: map<string, TargetNode>, name: string,
                             keyword: string, other: string, sources: seq<string>, headers: seq<string>,
                             cmlPath: string)
    requires name in before
  {
    && other != "" && other != name
    && after.Keys == before.Keys + {other}
    && after[name] == before[name].(isObjectLib := before[name].isObjectLib || keyword == "OBJECT",
                                    isInterface := before[name].isInterface || keyword == "INTERFACE",
                                    cmlPath := Some(cmlPath))
    && after[other] == Ensured(before, other)[other].(sources := Ensured(before, other)[other].sources + sources,
                                                      headers := Ensured(before, other)[other].headers + headers)
    && (forall k :: k in before && k != name && k != other ==> after[k] == before[k])
  }

  /** When cleaning removed the name (a target named by a variable), the first kept argument
      is taken for a target of its own: it is registered and receives the files, while the
      named target gets only its kind and its directory. */
  lemma KindAndFilesOtherTarget(nodes: map<string, TargetNode>, hm: Option<map<string, seq<string>>>, root: string,
                                name: string, cleaned: seq<string>, cmlPath: string, paired: seq<string>)
    requires name in nodes
    requires |cleaned| >= 2 && cleaned[0] != name
    requires KindAndFilesEffect(nodes, hm, root, name, cleaned, cmlPath, paired).2 == Done
    ensures var files := FilesOf(FileArgs(cleaned), cmlPath, paired);
      FilesWentToOther(nodes, KindAndFilesEffect(nodes, hm, root, name, cleaned, cmlPath, paired).0,
                       name, cleaned[1], cleaned[0], files.0, files.1, cmlPath)
  {
    var files := FilesOf(FileArgs(cleaned), cmlPath, paired);
    KindAndFilesOtherShape(nodes, hm, root, name, cleaned, cmlPath, paired);
    OtherTargetFields(nodes, name, cleaned[1], cleaned[0], files.0, files.1, cmlPath);
  }

  lemma KindAndFilesOtherShape(nodes: map<string, TargetNode>, hm: Option<map<string, seq<string>>>, root: string,
                               name: string, cleaned: seq<string>, cmlPath: string, paired: seq<string>)
    requires name in nodes
    requires |cleaned| >= 2 && cleaned[0] != name
    requires KindAndFilesEffect(nodes, hm, root, name, cleaned, cmlPath, paired).2 == Done
    ensures cleaned[0] != ""
    ensures var files := FilesOf(FileArgs(cleaned), cmlPath, paired);
      var added := AddSources(Ensured(WithKind(nodes, name, cleaned[1]), cleaned[0]), cleaned[0], files.0, files.1);
      KindAndFilesEffect(nodes, hm, root, name, cleaned, cmlPath, paired).0
        == added[name := added[name].(cmlPath := Some(cmlPath))]
  {
    var kinded := WithKind(nodes, name, cleaned[1]);
    var fileArgs := FileArgs(cleaned);
    KindAndFilesParts(nodes, hm, root, name, cleaned, cmlPath, paired);
    assert fileArgs[0] == cleaned[0];
    assert SourcesEffect(kinded, hm, root, fileArgs, cmlPath, paired).2 == Done;
  }

  lemma OtherTargetFields(nodes: map<string, TargetNode>, name: string, keyword: string, other: string,
                          sources: seq<string>, headers: seq<string>, cmlPath: string)
    requires name in nodes && other != "" && other != name
    ensures var added := AddSources(Ensured(WithKind(nodes, name, keyword), other), other, sources, headers);
      FilesWentToOther(nodes, added[name := added[name].(cmlPath := Some(cmlPath))],
                       name, keyword, other, sources, headers, cmlPath)
  {
    OtherTargetNodes(nodes, name, keyword, other, sources, headers);
    OtherTargetRest(nodes, name, keyword, other, sources, headers);
  }

  lemma OtherTargetNodes(nodes: map<string, TargetNode>, name: string, keyword: string, other: string,
                         sources: seq<string>, headers: seq<string>)
    requires name in nodes && other != "" && other != name
    ensures var added := AddSources(Ensured(WithKind(nodes, name, keyword), other), other, sources, headers);
      && added[name] == nodes[name].(isObjectLib := nodes[name].isObjectLib || keyword == "OBJECT",
                                     isInterface := nodes[name].isInterface || keyword == "INTERFACE")
      && added[other] == Ensured(nodes, other)[other].(sources := Ensured(nodes, other)[other].sources + sources,
                                                       headers := Ensured(nodes, other)[other].headers + headers)
  {
    var kinded := WithKind(nodes, name, keyword);
    WithKindFields(nodes, name, keyword);
    var grown := Ensured(kinded, other);
    assert grown[other] == Ensured(nodes, other)[other];
  }

  lemma OtherTargetRest(nodes: map<string, TargetNode>, name: string, keyword: string, other: string,
                        sources: seq<string>, headers: seq<string>)
    requires name in nodes && other != "" && other != name
    ensures var added := AddSources(Ensured(WithKind(nodes, name, keyword), other), other, sources, headers);
      && added.Keys == nodes.Keys + {other}
      && (forall k :: k in nodes && k != name && k != other ==> added[k] == nodes[k])
  {
    var kinded := WithKind(nodes, name, keyword);
    assert forall k :: k in nodes && k != name ==> kinded[k] == nodes[k];
    var grown := Ensured(kinded, other);
    assert grown.Keys == nodes.Keys + {other};
  }

  /** `add_library(${PROJECT_NAME} a.cpp b.cpp)`: the cleaned arguments start with `a.cpp`,
      so `a.cpp` becomes a target holding the remaining files, and the named target is
      registered with its kind and directory but without files. */
  lemma AddTargetNameCleanedAway(nodes: map<string, TargetNode>, hm: Option<map<string, seq<string>>>, root: string,
                                 stmt: Statement, paired: seq<string>)
    requires stmt.compoundCount == 0
    requires var args := GetArgs(stmt.args); var cleaned := CleanTargetArgs(args);
      && |args| > 0 && args[0] != "" && |cleaned| >= 2 && cleaned[0] != args[0]
      && !(|cleaned| == 3 && cleaned[1] == "ALIAS")
    requires AddTargetEffect(nodes, hm, root, stmt, paired).2 == Done
    ensures var args := GetArgs(stmt.args); var cleaned := CleanTargetArgs(args);
      var files := FilesOf(FileArgs(cleaned), Dirname(stmt.fileName), paired);
      FilesWentToOther(Ensured(nodes, args[0]), AddTargetEffect(nodes, hm, root, stmt, paired).0,
                       args[0], cleaned[1], cleaned[0], files.0, files.1, Dirname(stmt.fileName))
  {
    var args := GetArgs(stmt.args);
    var name, cleaned, cmlPath := args[0], CleanTargetArgs(args), Dirname(stmt.fileName);
    var ensured := Ensured(nodes, name);
    assert AddTargetEffect(nodes, hm, root, stmt, paired) == DefineEffect(ensured, hm, root, name, cleaned, cmlPath, paired);
    DefineIsKindAndFiles(ensured, hm, root, name, cleaned, cmlPath, paired);
    KindAndFilesOtherTarget(ensured, hm, root, name, cleaned, cmlPath, paired);
  }

  /** `TargetInputListener`: the declaration pass over one build file. */
  class InputListener {
    const registry: Registry
    var headerTargetMap: Option<map<string, seq<string>>>
    const repoRoot: string

    ghost predicate Valid()
      reads this, registry
    {
      registry.Valid()
    }

    constructor (registry: Registry, headerTargetMap: Option<map<string, seq<string>>>, repoRoot: string)
      ensures this.registry == registry && this.headerTargetMap == headerTargetMap && this.repoRoot == repoRoot
    {
      this.registry := registry;
      this.headerTargetMap := headerTargetMap;
      this.repoRoot := repoRoot;
    }

    /** `exitAdd_target` */
    method ExitAddTarget(stmt: Statement, paired: seq<string>) returns (st: Status)
      requires Valid()
      modifies registry, this
      ensures Valid()
      ensures (registry.nodes, headerTargetMap, st)
           == AddTargetEffect(old(registry.nodes), old(headerTargetMap), repoRoot, stmt, paired)
    {
      var args := GetArgs(stmt.args);
      if |args| == 0 {
        return Failed(NoArguments);
      }
      if stmt.compoundCount > 0 {
        return Failed(CompoundArgument);
      }
      var cmlPath := Dirname(stmt.fileName);
      var name := args[0];
      var target := registry.EnsureTarget(name);
      if target.Err? {
        return Failed(target.error);
      }
      st := DefineTarget(name, CleanTargetArgs(args), cmlPath, paired);
    }

    /** The rest of `exitAdd_target`, once `name` exists and its arguments were cleaned. */
    method DefineTarget(name: string, args: seq<string>, cmlPath: string, paired: seq<string>) returns (st: Status)
      requires Valid() && name in registry.nodes
      modifies registry, this
      ensures Valid()
      ensures (registry.nodes, headerTargetMap, st)
           == DefineEffect(old(registry.nodes), old(headerTargetMap), repoRoot, name, args, cmlPath, paired)
    {
      if |args| == 1 {
        return Done;
      }
      if |args| == 3 && args[1] == "ALIAS" {
        var other := registry.EnsureTarget(args[2]);
        if other.Err? {
          return Failed(other.error);
        }
        var aliased := registry.nodes[name].(aliasFor := Some(args[2]));
        UpdateKeepsWellFormed(registry.nodes, name, aliased);
        registry.nodes := registry.nodes[name := aliased];
        return Done;
      }
      if |args| == 0 {
        return Failed(MissingArgument);
      }
      st := DefineKindAndFiles(name, args, cmlPath, paired);
    }

    /** The defining branch of `exitAdd_target`. */
    method DefineKindAndFiles(name: string, args: seq<string>, cmlPath: string, paired: seq<string>) returns (st: Status)
      requires Valid() && name in registry.nodes && |args| >= 2
      modifies registry, this
      ensures Valid()
      ensures (registry.nodes, headerTargetMap, st)
           == KindAndFilesEffect(old(registry.nodes), old(headerTargetMap), repoRoot, name, args, cmlPath, paired)
    {
      ghost var nodes, hm, cleaned := registry.nodes, headerTargetMap, args;
      var args := args;
      var node := registry.nodes[name];
      if args[1] == "OBJECT" {
        registry.nodes := registry.nodes[name := node.(isObjectLib := true)];
        args := [args[0]] + args[2..];
      } else if args[1] == "INTERFACE" {
        registry.nodes := registry.nodes[name := node.(isInterface := true)];
        args := [args[0]] + args[2..];
      }
      assert registry.nodes == WithKind(nodes, name, cleaned[1]) && args == FileArgs(cleaned);
      st := AddTargetSources(args, cmlPath, paired);
      KindAndFilesParts(nodes, hm, repoRoot, name, cleaned, cmlPath, paired);
      if st.Failed? {
        return;
      }
      var placed := registry.nodes[name].(cmlPath := Some(cmlPath));
      registry.nodes := registry.nodes[name := placed];
    }

    /** `exitModify_target`: a link statement records its scopes, a sources statement its files. */
    method ExitModifyTarget(cmd: ModifyCommand, stmt: Statement, paired: seq<string>) returns (st: Status)
      requires Valid()
      modifies registry, this
      ensures Valid()
      ensures cmd == TargetLinkLibraries ==>
        (registry.nodes, st) == LinkEffect(old(registry.nodes), GetArgs(stmt.args))
        && headerTargetMap == old(headerTargetMap)
      ensures cmd == TargetSources ==>
        (registry.nodes, headerTargetMap, st)
        == SourcesEffect(old(registry.nodes), old(headerTargetMap), repoRoot,
                         CleanTargetArgs(GetArgs(stmt.args)), Dirname(stmt.fileName), paired)
      ensures cmd == OtherCommand ==>
        registry.nodes == old(registry.nodes) && headerTargetMap == old(headerTargetMap) && st == Done
    {
      var args := GetArgs(stmt.args);
      st := Done;
      if cmd == TargetLinkLibraries {
        st := AddLinkedTargets(args);
      }
      if cmd == TargetSources {
        args := CleanTargetArgs(args);
        var cmlPath := Dirname(stmt.fileName);
        st := AddTargetSources(args, cmlPath, paired);
      }
    }

    /** `add_linked_targets` */
    method AddLinkedTargets(args: seq<string>) returns (st: Status)
      requires Valid()
      modifies registry
      ensures Valid()
      ensures (registry.nodes, st) == LinkEffect(old(registry.nodes), args)
    {
      if |args| == 0 {
        return Failed(MissingArgument);
      }
      var name := args[0];
      var target := registry.EnsureTarget(name);
      if target.Err? {
        return Failed(target.error);
      }
      if target.value.wasLinked {
        return Done;
      }
      var scoped;
      st, scoped := HandleLinkArgs(args[1..]);
      if st.Failed? {
        return;
      }
      var node := registry.nodes[name];
      assert node == Ensured(old(registry.nodes), name)[name];
      registry.nodes := registry.nodes[name := node.(ppublicTargets := node.ppublicTargets + scoped[Public],
                                                      pprivateTargets := node.pprivateTargets + scoped[Private],
                                                      interfaceTargets := node.interfaceTargets + scoped[Interface],
                                                      wasLinked := true)];
      LinkEffectRecordsScopes(old(registry.nodes), args);
    }

    /** `add_target_sources` */
    method AddTargetSources(args: seq<string>, cmlPath: string, paired: seq<string>) returns (st: Status)
      requires Valid()
      modifies registry, this
      ensures Valid()
      ensures (registry.nodes, headerTargetMap, st)
           == SourcesEffect(old(registry.nodes), old(headerTargetMap), repoRoot, args, cmlPath, paired)
    {
      if |args| == 0 {
        return Failed(MissingArgument);
      }
      var name := args[0];
      var target := registry.EnsureTarget(name);
      if target.Err? {
        return Failed(target.error);
      }
      var files := AttributedFiles(args[1..], cmlPath);
      var sorted := SortFiles(files);
      var sources, headers := sorted.0, sorted.1 + paired;
      var node := registry.nodes[name];
      UpdateKeepsWellFormed(registry.nodes, name, node.(headers := node.headers + headers, sources := node.sources + sources));
      registry.nodes := registry.nodes[name := node.(headers := node.headers + headers,
                                                      sources := node.sources + sources)];
      st := Done;
      if headerTargetMap.Some? {
        st := RecordHeaderTargets(headers, name);
      }
    }

    /** The header-map loop of `add_target_sources`: records `target` for each header. */
    method RecordHeaderTargets(headers: seq<string>, target: string) returns (st: Status)
      requires headerTargetMap.Some?
      modifies this
      ensures headerTargetMap.Some?
      ensures (headerTargetMap.value, st) == RecordHeaders(old(headerTargetMap).value, headers, repoRoot, target)
    {
      var hm := headerTargetMap.value;
      var i := 0;
      while i < |headers|
        invariant 0 <= i <= |headers|
        invariant RecordHeaders(hm, headers[i..], repoRoot, target)
               == RecordHeaders(old(headerTargetMap).value, headers, repoRoot, target)
      {
        var h := headers[i];
        var key := RemovePrefix(h, repoRoot);
        assert headers[i..][0] == h && headers[i..][1..] == headers[i + 1..];
        if h !in hm {
          hm := hm[key := []];
        }
        if key !in hm {
          headerTargetMap := Some(hm);
          return Failed(MissingHeaderKey(key));
        }
        hm := hm[key := hm[key] + [target]];
        i := i + 1;
      }
      headerTargetMap := Some(hm);
      return Done;
    }

    /** `handle_link_args`: drops generator expressions and glued variable names, then walks the
        rest with the current scope (initially public), materialising and collecting each item. */
    method HandleLinkArgs(args: seq<string>) returns (st: Status, scoped: map<Scope, seq<string>>)
      requires Valid()
      modifies registry
      ensures Valid()
      ensures registry.nodes == EnsureAll(old(registry.nodes), NonKeywords(LinkItems(args)))
      ensures st == if "" in NonKeywords(LinkItems(args)) then Failed(MissingName) else Done
      ensures st == Done ==> ScopeLists(scoped, LinkItems(args))
    {
      var items := LinkItems(args);
      st, scoped := WalkLinkItems(items);
    }

    /** The scope walk of `handle_link_args` over the items it kept. */
    method WalkLinkItems(items: seq<string>) returns (st: Status, scoped: map<Scope, seq<string>>)
      requires Valid()
      modifies registry
      ensures Valid()
      ensures registry.nodes == EnsureAll(old(registry.nodes), NonKeywords(items))
      ensures st == if "" in NonKeywords(items) then Failed(MissingName) else Done
      ensures st == Done ==> ScopeLists(scoped, items)
    {
      scoped := map[Public := [], Private := [], Interface := []];
      var scope := Public;
      var i := 0;
      NoScopeLists(items);
      while i < |items|
        invariant 0 <= i <= |items|
        invariant registry.Valid()
        invariant EnsureAll(registry.nodes, NonKeywords(items[i..])) == EnsureAll(old(registry.nodes), NonKeywords(items))
        invariant "" !in NonKeywords(items[..i])
        invariant scope == ScopeAfter(items[..i])
        invariant ScopeLists(scoped, items[..i])
      {
        var item := items[i];
        NamesStep(items, i);
        ScopeStep(items, i, scope, scoped);
        if IsScopeKeyword(item) {
          scope := ScopeOf(item);
        } else {
          var target := registry.EnsureTarget(item);
          if target.Err? {
            assert item in NonKeywords(items) by { assert item in items; }
            return Failed(target.error), scoped;
          }
          scoped := scoped[scope := scoped[scope] + [item]];
        }
        i := i + 1;
      }
      assert items[..i] == items;
      st := Done;
    }
  }
}
