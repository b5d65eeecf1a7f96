/** The reconciliation and rewrite pass (`UpdateTargetsListener`): for each link statement
    of a target with a known directory, the observed and declared dependencies are reconciled
    into a public and a private list, and the statement's arguments are rewritten. */
module UpdatePass {
  import opened Outcomes
  import opened Seqs
  import opened Paths
  import opened Order
  import opened Args
  import opened Targets
  import opened Rewriter

  /** A declared dependency that is always kept: an object library, an interface, or a name
      that is a variable reference. */
  predicate Promotable(nodes: map<string, TargetNode>, t: string) {
    (t in nodes && (nodes[t].isObjectLib || nodes[t].isInterface)) || StartsWith(t, "${")
  }

  /** Declared public dependencies kept (all of them for an interface target). */
  function PromotedPublic(nodes: map<string, TargetNode>, node: TargetNode): (r: seq<string>)
    ensures forall x :: x in r <==> x in node.ppublicTargets && (node.isInterface || Promotable(nodes, x))
  {
    Filter(node.ppublicTargets, t => node.isInterface || Promotable(nodes, t))
  }

  /** Declared private dependencies kept. */
  function PromotedPrivate(nodes: map<string, TargetNode>, node: TargetNode): (r: seq<string>)
    ensures forall x :: x in r <==> x in node.pprivateTargets && Promotable(nodes, x)
  {
    Filter(node.pprivateTargets, t => Promotable(nodes, t))
  }

  /** The node's observed public list after it was extended in place. */
  function ExtendedPublic(nodes: map<string, TargetNode>, node: TargetNode): (r: seq<string>)
    ensures forall x :: x in r <==> x in node.publicTargets || x in PromotedPublic(nodes, node)
  {
    node.publicTargets + PromotedPublic(nodes, node)
  }

  /** Observed private dependencies that are not public, then the kept declared private ones. */
  function PrivateCandidates(nodes: map<string, TargetNode>, node: TargetNode): (r: seq<string>)
    ensures forall x :: x in r <==>
      (x in node.privateTargets && x !in ExtendedPublic(nodes, node)) || x in PromotedPrivate(nodes, node)
  {
    var ext := ExtendedPublic(nodes, node);
    Filter(node.privateTargets, t => t !in ext) + PromotedPrivate(nodes, node)
  }

  /** The two lists a link statement is rewritten with. */
  datatype Links = Links(publicNames: seq<string>, privateNames: seq<string>)

  /** The public and private lists before the fallback: deduplicated and sorted. */
  function Candidates(nodes: map<string, TargetNode>, node: TargetNode): (r: Links)
    ensures forall x :: x in r.publicNames <==> x in ExtendedPublic(nodes, node)
    ensures forall x :: x in r.privateNames <==> x in PrivateCandidates(nodes, node)
    ensures Distinct(r.publicNames) && Distinct(r.privateNames)
  {
    var pub := Dedup(ExtendedPublic(nodes, node));
    var priv := Dedup(PrivateCandidates(nodes, node));
    DistinctPermutation(pub, SortTargets(pub));
    DistinctPermutation(priv, SortTargets(priv));
    SortedMembers(pub);
    SortedMembers(priv);
    Links(SortTargets(pub), SortTargets(priv))
  }

  /** The fallback for a non-interface target left without candidates, then the removal of
      the target's own name. */
  function Settle(node: TargetNode, candidates: Links): (r: Result<Links>)
    ensures r.Err? ==> r.error == NoLinkTargets(node.name)
    ensures r.Err? <==> !node.isInterface && candidates == Links([], [])
                        && node.ppublicTargets == [] && node.pprivateTargets == []
  {
    var pub := candidates.publicNames;
    var priv := candidates.privateNames;
    if |pub| + |priv| == 0 && !node.isInterface then
      var fallback := node.ppublicTargets + node.pprivateTargets;
      if |fallback| == 0 then Err(NoLinkTargets(node.name))
      else Ok(Links(RemoveFirst(fallback, node.name), RemoveFirst(priv, node.name)))
    else Ok(Links(RemoveFirst(pub, node.name), RemoveFirst(priv, node.name)))
  }

  /** The reconciliation of the rewrite pass, up to rendering. */
  function Reconcile(nodes: map<string, TargetNode>, node: TargetNode): (r: Result<Links>)
    ensures r.Err? ==> r.error == NoLinkTargets(node.name)
  {
    Settle(node, Candidates(nodes, node))
  }

  /** Both reconciled lists came out empty for a non-interface target. */
  predicate UsesFallback(nodes: map<string, TargetNode>, node: TargetNode) {
    !node.isInterface && ExtendedPublic(nodes, node) == [] && PrivateCandidates(nodes, node) == []
  }

  lemma SortedDedupEmpty(s: seq<string>)
    ensures SortTargets(Dedup(s)) == [] <==> s == []
  {
    assert |SortTargets(Dedup(s))| == |multiset(SortTargets(Dedup(s)))| == |multiset(Dedup(s))| == |Dedup(s)|;
  }

  /** The fallback is taken exactly when both reconciled lists are empty. */
  lemma UsesFallbackIff(nodes: map<string, TargetNode>, node: TargetNode)
    ensures UsesFallback(nodes, node) <==>
      !node.isInterface
      && |SortTargets(Dedup(ExtendedPublic(nodes, node)))| + |SortTargets(Dedup(PrivateCandidates(nodes, node)))| == 0
  {
    SortedDedupEmpty(ExtendedPublic(nodes, node));
    SortedDedupEmpty(PrivateCandidates(nodes, node));
  }

  /** Reconciliation fails exactly for a non-interface target without any dependency,
      observed or declared. */
  lemma ReconcileFailsIff(nodes: map<string, TargetNode>, node: TargetNode)
    ensures Reconcile(nodes, node).Err? <==>
      !node.isInterface && node.publicTargets == [] && node.privateTargets == []
      && node.ppublicTargets == [] && node.pprivateTargets == []
  {
    if !node.isInterface && node.publicTargets == [] && node.privateTargets == []
       && node.ppublicTargets == [] && node.pprivateTargets == [] {
      NoTargetsFails(nodes, node);
    } else {
      TargetsSucceed(nodes, node);
    }
  }

  lemma TargetsSucceed(nodes: map<string, TargetNode>, node: TargetNode)
    requires node.isInterface || node.publicTargets != [] || node.privateTargets != []
          || node.ppublicTargets != [] || node.pprivateTargets != []
    ensures Reconcile(nodes, node).Ok?
  {
    assert Reconcile(nodes, node) == Settle(node, Candidates(nodes, node));
    if node.publicTargets != [] || node.privateTargets != [] {
      CandidatesNonEmpty(nodes, node);
    }
  }

  lemma CandidatesNonEmpty(nodes: map<string, TargetNode>, node: TargetNode)
    requires node.publicTargets != [] || node.privateTargets != []
    ensures Candidates(nodes, node) != Links([], [])
  {
    var ext := ExtendedPublic(nodes, node);
    SortedDedupEmpty(ext);
    SortedDedupEmpty(PrivateCandidates(nodes, node));
    if node.publicTargets != [] {
      assert node.publicTargets[0] in ext;
    } else {
      var x := node.privateTargets[0];
      assert x in ext || x in PrivateCandidates(nodes, node);
    }
  }

  lemma NoTargetsFails(nodes: map<string, TargetNode>, node: TargetNode)
    requires !node.isInterface && node.publicTargets == [] && node.privateTargets == []
    requires node.ppublicTargets == [] && node.pprivateTargets == []
    ensures Reconcile(nodes, node).Err?
  {
    UsesFallbackIff(nodes, node);
    assert PromotedPublic(nodes, node) == [] && PromotedPrivate(nodes, node) == [];
    assert ExtendedPublic(nodes, node) == [];
    assert PrivateCandidates(nodes, node) == [];
  }

  lemma SortedMembers(s: seq<string>)
    ensures forall x :: x in SortTargets(s) <==> x in s
  {
    forall x ensures x in SortTargets(s) <==> x in s {
      assert x in SortTargets(s) <==> x in multiset(SortTargets(s));
      assert x in s <==> x in multiset(s);
    }
  }

  /** Deduplicated, sorted, then the target's own name removed once: each name of `s` other
      than `name` occurs exactly once, in-tree names first, each group sorted. */
  lemma ReconciledShape(s: seq<string>, name: string)
    ensures var r := RemoveFirst(SortTargets(Dedup(s)), name);
      && (forall x :: x in r <==> x in s && x != name)
      && Distinct(r) && VeloxFirst(r)
  {
    var d := Dedup(s);
    var sorted := SortTargets(d);
    DistinctPermutation(d, sorted);
    SortedMembers(d);
    RemoveFirstDistinct(sorted, name);
    SubseqPairwise(RemoveFirst(sorted, name), sorted, Before);
  }

  /** Outside the fallback, the public list names each kept public dependency once, the
      private list each private candidate once, neither names the target itself, and both
      list in-tree targets first, each group sorted. */
  lemma ReconcileLists(nodes: map<string, TargetNode>, node: TargetNode)
    requires !UsesFallback(nodes, node)
    ensures Reconcile(nodes, node).Ok?
    ensures var links := Reconcile(nodes, node).value;
      && (forall x :: x in links.publicNames <==> x != node.name && x in ExtendedPublic(nodes, node))
      && (forall x :: x in links.privateNames <==> x != node.name && x in PrivateCandidates(nodes, node))
      && Distinct(links.publicNames) && Distinct(links.privateNames)
      && VeloxFirst(links.publicNames) && VeloxFirst(links.privateNames)
  {
    UsesFallbackIff(nodes, node);
    var pub := SortTargets(Dedup(ExtendedPublic(nodes, node)));
    var priv := SortTargets(Dedup(PrivateCandidates(nodes, node)));
    assert Reconcile(nodes, node) == Ok(Links(RemoveFirst(pub, node.name), RemoveFirst(priv, node.name)));
    ReconciledShape(ExtendedPublic(nodes, node), node.name);
    ReconciledShape(PrivateCandidates(nodes, node), node.name);
  }

  /** The fallback links every declared dependency publicly, in declaration order, with the
      first occurrence of the target itself removed, and links nothing privately. */
  lemma ReconcileFallback(nodes: map<string, TargetNode>, node: TargetNode)
    requires UsesFallback(nodes, node) && node.ppublicTargets + node.pprivateTargets != []
    ensures Reconcile(nodes, node)
         == Ok(Links(RemoveFirst(node.ppublicTargets + node.pprivateTargets, node.name), []))
  {
    UsesFallbackIff(nodes, node);
    var c := Candidates(nodes, node);
    assert |c.publicNames| + |c.privateNames| == 0;
    assert c.privateNames == [];
    var empty: seq<string> := [];
    assert RemoveFirst(empty, node.name) == [];
  }

  /** The reconciled private list never names the target itself. */
  lemma ReconcileNoPrivateSelfLink(nodes: map<string, TargetNode>, node: TargetNode)
    requires Reconcile(nodes, node).Ok?
    ensures node.name !in Reconcile(nodes, node).value.privateNames
  {
    if UsesFallback(nodes, node) {
      UsesFallbackIff(nodes, node);
      SortedDedupEmpty(PrivateCandidates(nodes, node));
    } else {
      ReconcileLists(nodes, node);
    }
  }

  /** In the fallback a target declared twice as its own dependency still links to itself:
      only the first occurrence is removed. */
  lemma FallbackKeepsSecondSelfLink()
    ensures var node := FreshNode("a").(ppublicTargets := ["a", "a"]);
      Reconcile(map["a" := node], node) == Ok(Links(["a"], []))
  {
    var node := FreshNode("a").(ppublicTargets := ["a", "a"]);
    var nodes := map["a" := node];
    assert !Promotable(nodes, "a") by {
      assert !StartsWith("a", "${");
    }
    assert PromotedPublic(nodes, node) == [] by {
      assert ["a", "a"][1..] == ["a"] && ["a"][1..] == [];
    }
    assert PrivateCandidates(nodes, node) == [];
    ReconcileFallback(nodes, node);
    assert ["a", "a"] + [] == ["a", "a"];
  }

  /** The argument text a statement is rewritten with. */
  function RenderLinks(name: string, isInterface: bool, links: Links): (r: string)
    ensures |name| <= |r|
  {
    Render(name, isInterface, links.publicNames, links.privateNames)
  }

  /** The argument text of a rewritten statement: the target's name, then either `INTERFACE`
      and all names, or a `PUBLIC` and a `PRIVATE` section for the lists that are not empty. */
  function Render(name: string, isInterface: bool, pub: seq<string>, priv: seq<string>): (r: string)
    ensures |name| <= |r|
  {
    if isInterface then InterfaceText(name, pub + priv) else ScopedText(name, pub, priv)
  }

  /** The rewritten text starts with the target's own name. */
  lemma RenderStartsWithName(name: string, isInterface: bool, pub: seq<string>, priv: seq<string>)
    ensures var r := Render(name, isInterface, pub, priv);
      |name| <= |r| && r[..|name|] == name
  {
    if isInterface {
      var names := JoinSpace(SortTargets(pub + priv));
      AppendAssoc(name, " INTERFACE", " ");
      AppendAssoc(name, " INTERFACE" + " ", names);
      PrefixOfAppend(name, " INTERFACE" + " " + names);
    } else {
      AppendAssoc(name, Section("PUBLIC", pub), Section("PRIVATE", priv));
      PrefixOfAppend(name, Section("PUBLIC", pub) + Section("PRIVATE", priv));
    }
  }

  function InterfaceText(name: string, names: seq<string>): string {
    name + " INTERFACE" + " " + JoinSpace(SortTargets(names))
  }

  function ScopedText(name: string, pub: seq<string>, priv: seq<string>): string {
    name + Section("PUBLIC", pub) + Section("PRIVATE", priv)
  }

  /** One scope of a non-interface rendering: the keyword and the names, each after a space;
      nothing when there are no names. */
  function Section(keyword: string, names: seq<string>): string {
    if names != [] then " " + keyword + " " + JoinSpace(names) else ""
  }

  /** The words of `Section(keyword, names)`. */
  function SectionWords(keyword: string, names: seq<string>): seq<string> {
    if names != [] then [keyword] + names else []
  }

  /** The words of the rendered text, in order. */
  function RenderedWords(name: string, isInterface: bool, pub: seq<string>, priv: seq<string>): seq<string> {
    if isInterface then [name, "INTERFACE"] + SortTargets(pub + priv)
    else [name] + SectionWords("PUBLIC", pub) + SectionWords("PRIVATE", priv)
  }

  /** Appending a section's words appends its text. */
  lemma SectionJoin(front: seq<string>, keyword: string, names: seq<string>)
    requires front != []
    ensures JoinSpace(front + SectionWords(keyword, names)) == JoinSpace(front) + Section(keyword, names)
  {
    var f := JoinSpace(front);
    if names != [] {
      var j := JoinSpace(names);
      JoinSpaceAppend([keyword], names);
      JoinSpaceAppend(front, [keyword] + names);
      assert JoinSpace([keyword]) == keyword;
      AppendAssoc(f + " ", keyword + " ", j);
      AppendAssoc(f, " ", keyword + " ");
      AppendAssoc(" ", keyword, " ");
      AppendAssoc(f, " " + keyword + " ", j);
    } else {
      assert front + [] == front;
    }
  }

  /** A non-interface rendering is its words joined by single spaces. */
  lemma RenderJoinsWords(name: string, pub: seq<string>, priv: seq<string>)
    ensures Render(name, false, pub, priv) == JoinSpace(RenderedWords(name, false, pub, priv))
  {
    var p := SectionWords("PUBLIC", pub);
    assert JoinSpace([name]) == name;
    SectionJoin([name], "PUBLIC", pub);
    SectionJoin([name] + p, "PRIVATE", priv);
  }

  /** An interface rendering is its words joined by single spaces, with a trailing space
      when there is no dependency. */
  lemma RenderInterfaceJoinsWords(name: string, pub: seq<string>, priv: seq<string>)
    ensures Render(name, true, pub, priv)
         == JoinSpace(RenderedWords(name, true, pub, priv)) + (if pub + priv == [] then " " else "")
  {
    var sorted := SortTargets(pub + priv);
    assert Render(name, true, pub, priv) == name + " INTERFACE" + " " + JoinSpace(sorted);
    assert RenderedWords(name, true, pub, priv) == [name, "INTERFACE"] + sorted;
    SortTargetsEmpty(pub + priv);
    InterfaceJoin(name, sorted);
  }

  lemma InterfaceJoin(name: string, sorted: seq<string>)
    ensures name + " INTERFACE" + " " + JoinSpace(sorted)
         == JoinSpace([name, "INTERFACE"] + sorted) + (if sorted == [] then " " else "")
  {
    var head := [name, "INTERFACE"];
    var prefix := name + " INTERFACE";
    assert JoinSpace(head) == prefix by {
      assert head[1..] == ["INTERFACE"];
    }
    if sorted == [] {
      assert head + sorted == head;
      assert prefix + " " + JoinSpace(sorted) == prefix + " ";
    } else {
      JoinSpaceAppend(head, sorted);
    }
  }

  lemma SortTargetsEmpty(s: seq<string>)
    ensures SortTargets(s) == [] <==> s == []
  {
    assert |SortTargets(s)| == |multiset(SortTargets(s))| == |multiset(s)| == |s|;
  }

  /** Items made of a scope keyword and plain names fall in that keyword's scope. */
  lemma ScopeSection(prefix: seq<string>, keyword: string, names: seq<string>, sc: Scope)
    requires IsScopeKeyword(keyword)
    requires forall x :: x in names ==> !IsScopeKeyword(x)
    ensures ScopeAfter(prefix + ([keyword] + names)) == ScopeOf(keyword)
    ensures Selected(prefix + ([keyword] + names), sc)
         == Selected(prefix, sc) + (if ScopeOf(keyword) == sc then names else [])
  {
    SelectedAppendKeyword(prefix, keyword, sc);
    SelectedAppendPlain(prefix + [keyword], names, sc);
    AppendAssoc(prefix, [keyword], names);
  }


  lemma RenderRoundTripScope(name: string, pub: seq<string>, priv: seq<string>, sc: Scope)
    requires forall x :: x in pub + priv ==> !IsScopeKeyword(x)
    ensures Selected(RenderedWords(name, false, pub, priv)[1..], sc)
         == (if sc == Public then pub else if sc == Private then priv else [])
  {
    var p := SectionWords("PUBLIC", pub);
    assert RenderedWords(name, false, pub, priv)[1..] == p + SectionWords("PRIVATE", priv);
    PublicSection(pub, sc);
    PrivateSection(p, priv, sc);
  }

  lemma PublicSection(pub: seq<string>, sc: Scope)
    requires forall x :: x in pub ==> !IsScopeKeyword(x)
    ensures Selected(SectionWords("PUBLIC", pub), sc) == (if sc == Public then pub else [])
  {
    if pub != [] {
      var none: seq<string> := [];
      ScopeSection(none, "PUBLIC", pub, sc);
      assert none + (["PUBLIC"] + pub) == SectionWords("PUBLIC", pub);
    }
  }

  lemma PrivateSection(p: seq<string>, priv: seq<string>, sc: Scope)
    requires forall x :: x in priv ==> !IsScopeKeyword(x)
    ensures Selected(p + SectionWords("PRIVATE", priv), sc) == Selected(p, sc) + (if sc == Private then priv else [])
  {
    if priv != [] {
      ScopeSection(p, "PRIVATE", priv, sc);
    } else {
      assert p + [] == p;
    }
  }

  /** Read back by the scope walk of the declaration pass, a rewritten non-interface
      statement declares exactly the reconciled public and private lists. */
  lemma RenderRoundTrip(name: string, pub: seq<string>, priv: seq<string>)
    requires forall x :: x in pub + priv ==> !IsScopeKeyword(x)
    ensures var items := RenderedWords(name, false, pub, priv)[1..];
      && Selected(items, Public) == pub
      && Selected(items, Private) == priv
      && Selected(items, Interface) == []
  {
    RenderRoundTripScope(name, pub, priv, Public);
    RenderRoundTripScope(name, pub, priv, Private);
    RenderRoundTripScope(name, pub, priv, Interface);
  }

  /** Read back, a rewritten interface statement declares every reconciled dependency with
      the interface scope and nothing else. */
  lemma RenderRoundTripInterface(name: string, pub: seq<string>, priv: seq<string>)
    requires forall x :: x in pub + priv ==> !IsScopeKeyword(x)
    ensures var items := RenderedWords(name, true, pub, priv)[1..];
      && Selected(items, Interface) == SortTargets(pub + priv)
      && Selected(items, Public) == []
      && Selected(items, Private) == []
  {
    var sorted := SortTargets(pub + priv);
    assert RenderedWords(name, true, pub, priv) == [name, "INTERFACE"] + sorted;
    DropFirst(name, "INTERFACE", sorted);
    SortedPlain(pub + priv);
    InterfaceSection(sorted);
  }

  lemma SortedPlain(s: seq<string>)
    requires forall x :: x in s ==> !IsScopeKeyword(x)
    ensures forall x :: x in SortTargets(s) ==> !IsScopeKeyword(x)
  {
    SortedMembers(s);
  }

  lemma InterfaceSection(names: seq<string>)
    requires forall x :: x in names ==> !IsScopeKeyword(x)
    ensures Selected(["INTERFACE"] + names, Interface) == names
    ensures Selected(["INTERFACE"] + names, Public) == []
    ensures Selected(["INTERFACE"] + names, Private) == []
  {
    var none: seq<string> := [];
    assert none + (["INTERFACE"] + names) == ["INTERFACE"] + names;
    ScopeSection(none, "INTERFACE", names, Interface);
    ScopeSection(none, "INTERFACE", names, Public);
    ScopeSection(none, "INTERFACE", names, Private);
  }

  /** The `io` target of the repository's reproduction example: observed private dependency
      `util`, declared public dependency `util`, `util` an ordinary library. */
  function ReprexIo(): TargetNode {
    FreshNode("io").(privateTargets := ["util"], ppublicTargets := ["util"])
  }

  function ReprexNodes(): map<string, TargetNode> {
    map["io" := ReprexIo(), "util" := FreshNode("util")]
  }

  /** In the reproduction example `io` links `util` privately and nothing publicly. */
  lemma ReprexIoLinksUtilPrivately()
    ensures Reconcile(ReprexNodes(), ReprexIo()) == Ok(Links([], ["util"]))
  {
    ReprexLinkCandidates();
    ReprexSettle();
  }

  lemma ReprexSettle()
    ensures Settle(ReprexIo(), Links([], ["util"])) == Ok(Links([], ["util"]))
  {
    var util: seq<string> := ["util"];
    assert "io" != "util";
    assert "io" !in util;
  }

  lemma ReprexLinkCandidates()
    ensures Candidates(ReprexNodes(), ReprexIo()) == Links([], ["util"])
  {
    var none: seq<string> := [];
    ReprexCandidates();
    ReprexSortedUtil();
    assert Dedup(none) == none;
    assert SortTargets(none) == none;
  }

  lemma ReprexCandidates()
    ensures ExtendedPublic(ReprexNodes(), ReprexIo()) == []
    ensures PrivateCandidates(ReprexNodes(), ReprexIo()) == ["util"]
  {
    var io := ReprexIo();
    var nodes := ReprexNodes();
    var util: seq<string> := ["util"];
    var none: seq<string> := [];
    assert !Promotable(nodes, "util") by {
      assert "util"[..2][0] == 'u';
    }
    assert PromotedPublic(nodes, io) == none by {
      assert util[1..] == none;
    }
    assert PromotedPrivate(nodes, io) == none;
    assert ExtendedPublic(nodes, io) == none;
    assert Filter(util, t => t !in none) == util;
  }

  lemma ReprexSortedUtil()
    ensures SortTargets(Dedup(["util"])) == ["util"]
  {
    var util: seq<string> := ["util"];
    assert Dedup(util) == util by {
      assert util[..0] == [];
    }
    assert !IsVelox("util");
    assert util[1..] == [];
    assert Filter(util, IsVelox) == [];
    assert Filter(util, IsExternal) == util;
    assert Sort(util) == util;
  }

  /** The rewritten arguments of the reproduction example. */
  lemma ReprexRender()
    ensures Render("io", false, [], ["util"]) == "io PRIVATE util"
  {
    assert JoinSpace(["util"]) == "util";
  }

  /** The token layout the rewrite assumes of a parsed statement (the grammar is not part of
      this model): `(` follows the command, the arguments follow `(`, and a statement with
      arguments ends at least three tokens after its command. */
  predicate Spans(stmt: Statement, tokenCount: nat) {
    stmt.start + 2 <= stmt.stop < tokenCount && (|stmt.args| > 0 ==> stmt.start + 3 <= stmt.stop)
  }

  predicate HasScopeKeyword(args: seq<string>) {
    "INTERFACE" in args || "PUBLIC" in args || "PRIVATE" in args
  }

  /** The node with its observed public list extended by the kept declared ones. */
  function Extended(nodes: map<string, TargetNode>, node: TargetNode): (r: TargetNode)
    ensures forall x :: x in Refs(r) ==> x in Refs(node)
  {
    ExtendedRefs(nodes, node);
    node.(publicTargets := ExtendedPublic(nodes, node))
  }

  lemma ExtendedRefs(nodes: map<string, TargetNode>, node: TargetNode)
    ensures forall x :: x in Refs(node.(publicTargets := ExtendedPublic(nodes, node))) ==> x in Refs(node)
  {
    var r := node.(publicTargets := ExtendedPublic(nodes, node));
    assert forall x :: x in r.publicTargets ==> x in Refs(node);
  }

  lemma ExtendedWellFormed(nodes: map<string, TargetNode>, name: string)
    requires name in nodes
    ensures var extended := Extended(nodes, nodes[name]);
      WellFormed(nodes) ==>
        && WellFormed(nodes[name := extended])
        && WellFormed(nodes[name := extended.(wasLinked := true)])
  {
    if WellFormed(nodes) {
      var extended := Extended(nodes, nodes[name]);
      Targets.UpdateKeepsWellFormed(nodes, name, extended);
      Targets.UpdateKeepsWellFormed(nodes, name, extended.(wasLinked := true));
    }
  }

  /** Effect of the first link statement of a defined target named `name`: its observed
      public list is extended, then the statement is rewritten unless reconciliation fails. */
  function FirstLinkEffect(nodes: map<string, TargetNode>, tokens: seq<string>, stmt: Statement, name: string,
                           reconciled: Result<Links>)
    : (r: (map<string, TargetNode>, seq<string>, Status))
    requires Spans(stmt, |tokens|) && |stmt.args| > 0 && name in nodes
    ensures WellFormed(nodes) ==> WellFormed(r.0)
  {
    var node := nodes[name];
    var extended := Extended(nodes, node);
    ExtendedWellFormed(nodes, name);
    match reconciled
    case Err(e) => (nodes[name := extended], tokens, Failed(e))
    case Ok(links) =>
      (nodes[name := extended.(wasLinked := true)],
       Replaced(tokens, stmt.start + 2, stmt.stop - 1, RenderLinks(name, node.isInterface, links)),
       Done)
  }

  /** The three parts of `FirstLinkEffect`, one by one. */
  lemma FirstLinkEffectParts(nodes: map<string, TargetNode>, tokens: seq<string>, stmt: Statement, name: string,
                             reconciled: Result<Links>)
    requires Spans(stmt, |tokens|) && |stmt.args| > 0 && name in nodes
    ensures var r := FirstLinkEffect(nodes, tokens, stmt, name, reconciled);
      var extended := Extended(nodes, nodes[name]);
      && (reconciled.Err? ==> r == (nodes[name := extended], tokens, Failed(reconciled.error)))
      && (reconciled.Ok? ==>
            && r.0 == nodes[name := extended][name := extended.(wasLinked := true)]
            && r.0 == nodes[name := extended.(wasLinked := true)]
            && r.1 == Replaced(tokens, stmt.start + 2, stmt.stop - 1,
                               RenderLinks(name, nodes[name].isInterface, reconciled.value))
            && r.2 == Done)
  {
    var extended := Extended(nodes, nodes[name]);
    assert nodes[name := extended][name := extended.(wasLinked := true)] == nodes[name := extended.(wasLinked := true)];
  }

  /** The tokens after a later link statement of a linked target: without a scope keyword of
      its own the statement gets the one the first statement was rewritten with. */
  function LaterLinkTokens(tokens: seq<string>, stmt: Statement, args: seq<string>, isInterface: bool): (r: seq<string>)
    requires Spans(stmt, |tokens|) && |stmt.args| > 0
    ensures |r| == |tokens|
  {
    if HasScopeKeyword(args) then tokens
    else Inserted(tokens, stmt.start + 3, if isInterface then "INTERFACE " else "PUBLIC ")
  }

  /** Effect of `exitModify_target` of the rewrite pass on the registry and the tokens. */
  function UpdateEffect(nodes: map<string, TargetNode>, tokens: seq<string>, stmt: Statement)
    : (r: (map<string, TargetNode>, seq<string>, Status))
    requires Spans(stmt, |tokens|)
    ensures WellFormed(nodes) ==> WellFormed(r.0)
  {
    var args := GetArgs(stmt.args);
    if |args| == 0 then (nodes, tokens, Failed(MissingArgument))
    else if args[0] == "" then (nodes, tokens, Failed(MissingName))
    else
      var name := args[0];
      var named := Ensured(nodes, name);
      var node := named[name];
      if node.cmlPath.None? || node.cmlPath.value == "" then (named, tokens, Done)
      else if !node.wasLinked then FirstLinkEffect(named, tokens, stmt, name, Reconcile(named, node))
      else (named, LaterLinkTokens(tokens, stmt, args, node.isInterface), Done)
  }

  /** A target whose defining build file is unknown gets no edit. */
  lemma UpdateSkipsUndefined(nodes: map<string, TargetNode>, tokens: seq<string>, stmt: Statement)
    requires Spans(stmt, |tokens|)
    requires var args := GetArgs(stmt.args);
      |args| > 0 && args[0] != "" && !(args[0] in nodes && nodes[args[0]].cmlPath.Some? && nodes[args[0]].cmlPath.value != "")
    ensures var r := UpdateEffect(nodes, tokens, stmt);
      r.1 == tokens && r.2 == Done && r.0 == Ensured(nodes, GetArgs(stmt.args)[0])
  {
  }

  /** The first statement of a defined target is rewritten: the text between `(` and `)` is
      replaced by the rendered lists, everything else in the file stays, and the target is
      marked linked with its observed public list extended. */
  lemma UpdateRewritesFirst(nodes: map<string, TargetNode>, tokens: seq<string>, stmt: Statement)
    requires Spans(stmt, |tokens|)
    requires var args := GetArgs(stmt.args);
      && |args| > 0 && args[0] in nodes && args[0] != ""
      && nodes[args[0]].cmlPath.Some? && nodes[args[0]].cmlPath.value != ""
      && !nodes[args[0]].wasLinked
      && Reconcile(nodes, nodes[args[0]]).Ok?
    ensures var args := GetArgs(stmt.args);
      var node := nodes[args[0]];
      var links := Reconcile(nodes, node).value;
      var r := UpdateEffect(nodes, tokens, stmt);
      && r.2 == Done
      && Text(r.1) == Text(tokens[..stmt.start + 2])
                      + Render(args[0], node.isInterface, links.publicNames, links.privateNames)
                      + Text(tokens[stmt.stop..])
      && r.0 == nodes[args[0] := node.(publicTargets := ExtendedPublic(nodes, node), wasLinked := true)]
  {
    var args := GetArgs(stmt.args);
    var node := nodes[args[0]];
    assert UpdateEffect(nodes, tokens, stmt) == FirstLinkEffect(nodes, tokens, stmt, args[0], Reconcile(nodes, node));
    FirstLinkRewrites(nodes, tokens, stmt, args[0], Reconcile(nodes, node).value);
  }

  lemma FirstLinkRewrites(nodes: map<string, TargetNode>, tokens: seq<string>, stmt: Statement, name: string, links: Links)
    requires Spans(stmt, |tokens|) && |stmt.args| > 0 && name in nodes
    ensures var node := nodes[name];
      var r := FirstLinkEffect(nodes, tokens, stmt, name, Ok(links));
      && r.2 == Done
      && Text(r.1) == Text(tokens[..stmt.start + 2]) + RenderLinks(name, node.isInterface, links) + Text(tokens[stmt.stop..])
      && r.0 == nodes[name := node.(publicTargets := ExtendedPublic(nodes, node), wasLinked := true)]
  {
    FirstLinkEffectParts(nodes, tokens, stmt, name, Ok(links));
    RewrittenText(tokens, stmt, RenderLinks(name, nodes[name].isInterface, links));
  }

  /** Replacing the arguments of a statement keeps the text around them. */
  lemma RewrittenText(tokens: seq<string>, stmt: Statement, text: string)
    requires Spans(stmt, |tokens|) && |stmt.args| > 0
    ensures Text(Replaced(tokens, stmt.start + 2, stmt.stop - 1, text))
         == Text(tokens[..stmt.start + 2]) + text + Text(tokens[stmt.stop..])
  {
    ReplacedText(tokens, stmt.start + 2, stmt.stop - 1, text);
  }

  /** When reconciliation fails nothing is rewritten and the target stays unlinked, but its
      observed public list has already been extended. */
  lemma UpdateFailureKeepsTokens(nodes: map<string, TargetNode>, tokens: seq<string>, stmt: Statement)
    requires WellFormed(nodes) && Spans(stmt, |tokens|)
    requires var args := GetArgs(stmt.args);
      && |args| > 0 && args[0] in nodes && args[0] != ""
      && nodes[args[0]].cmlPath.Some? && nodes[args[0]].cmlPath.value != ""
      && !nodes[args[0]].wasLinked
      && Reconcile(nodes, nodes[args[0]]).Err?
    ensures var args := GetArgs(stmt.args);
      var node := nodes[args[0]];
      var r := UpdateEffect(nodes, tokens, stmt);
      && r.2 == Failed(NoLinkTargets(args[0]))
      && r.1 == tokens
      && r.0 == nodes[args[0] := node.(publicTargets := ExtendedPublic(nodes, node))]
      && !r.0[args[0]].wasLinked
  {
    var name := GetArgs(stmt.args)[0];
    assert Ensured(nodes, name) == nodes;
    var reconciled := Reconcile(nodes, nodes[name]);
    assert UpdateEffect(nodes, tokens, stmt) == FirstLinkEffect(nodes, tokens, stmt, name, reconciled);
  }

  /** A later statement of a linked target only gains the scope keyword of its first one, right
      after its first argument, and only when it names no scope keyword itself. */
  lemma UpdateLaterStatement(nodes: map<string, TargetNode>, tokens: seq<string>, stmt: Statement)
    requires Spans(stmt, |tokens|)
    requires var args := GetArgs(stmt.args);
      && |args| > 0 && args[0] in nodes && args[0] != ""
      && nodes[args[0]].cmlPath.Some? && nodes[args[0]].cmlPath.value != ""
      && nodes[args[0]].wasLinked
    ensures var args := GetArgs(stmt.args);
      var keyword := if nodes[args[0]].isInterface then "INTERFACE " else "PUBLIC ";
      var r := UpdateEffect(nodes, tokens, stmt);
      && r.0 == nodes && r.2 == Done
      && (HasScopeKeyword(args) ==> r.1 == tokens)
      && (!HasScopeKeyword(args) ==>
            Text(r.1) == Text(tokens[..stmt.start + 4]) + keyword + Text(tokens[stmt.start + 4..]))
  {
    var args := GetArgs(stmt.args);
    var keyword := if nodes[args[0]].isInterface then "INTERFACE " else "PUBLIC ";
    assert Ensured(nodes, args[0]) == nodes;
    assert UpdateEffect(nodes, tokens, stmt) == (nodes, LaterLinkTokens(tokens, stmt, args, nodes[args[0]].isInterface), Done);
    InsertedText(tokens, stmt.start + 3, keyword);
  }

  /** `UpdateTargetsListener`: the rewrite pass over one build file. */
  class UpdateListener {
    const registry: Registry
    const rewriter: TokenRewriter

    ghost predicate Valid()
      reads this, registry
    {
      registry.Valid()
    }

    constructor (registry: Registry, rewriter: TokenRewriter)
      ensures this.registry == registry && this.rewriter == rewriter
    {
      this.registry := registry;
      this.rewriter := rewriter;
    }

    /** `exitModify_target` */
    method ExitModifyTarget(stmt: Statement) returns (st: Status)
      requires Valid() && Spans(stmt, rewriter.tokens.Length)
      modifies registry, rewriter.tokens
      ensures Valid()
      ensures (registry.nodes, rewriter.tokens[..], st)
           == UpdateEffect(old(registry.nodes), old(rewriter.tokens[..]), stmt)
    {
      var args := GetArgs(stmt.args);
      if |args| == 0 {
        return Failed(MissingArgument);
      }
      var target := registry.EnsureTarget(args[0]);
      if target.Err? {
        return Failed(target.error);
      }
      var node := target.value;
      if node.cmlPath.None? || node.cmlPath.value == "" {
        return Done;
      }
      if !node.wasLinked {
        st := RewriteFirst(stmt, args[0], Reconcile(registry.nodes, node));
      } else {
        if !HasScopeKeyword(args) {
          rewriter.InsertAfter(stmt.start + 3, if node.isInterface then "INTERFACE " else "PUBLIC ");
        }
        st := Done;
      }
    }

    /** The first link statement of a defined target. */
    method RewriteFirst(stmt: Statement, name: string, reconciled: Result<Links>) returns (st: Status)
      requires Spans(stmt, rewriter.tokens.Length) && |stmt.args| > 0 && name in registry.nodes
      modifies registry, rewriter.tokens
      ensures (registry.nodes, rewriter.tokens[..], st)
           == FirstLinkEffect(old(registry.nodes), old(rewriter.tokens[..]), stmt, name, reconciled)
    {
      ghost var nodes, tokens := registry.nodes, rewriter.tokens[..];
      var node := registry.nodes[name];
      // the public list is the node's own observed list, extended in place
      var extended := Extended(registry.nodes, node);
      registry.nodes := registry.nodes[name := extended];
      if reconciled.Err? {
        FirstLinkEffectParts(nodes, tokens, stmt, name, reconciled);
        return Failed(reconciled.error);
      }
      var text := RenderLinks(name, node.isInterface, reconciled.value);
      rewriter.ReplaceRange(stmt.start + 2, stmt.stop - 1, text);
      registry.nodes := registry.nodes[name := extended.(wasLinked := true)];
      FirstLinkEffectParts(nodes, tokens, stmt, name, reconciled);
      st := Done;
    }
  }
}
