/** The dependency graph: one `TargetNode` per name ever mentioned, kept in a registry
    that creates nodes on first mention so that targets can be used before they are defined. */
module Targets {
  import opened Outcomes
  import opened Seqs

  /** One target. Python holds references to other nodes; here a dependency is the name
      under which that node is registered, and the registry maps the name back to it. */
  datatype TargetNode = TargetNode(
    name: string,
    headers: seq<string>,
    cppIncludes: seq<string>,
    hIncludes: seq<string>,
    sources: seq<string>,
    publicTargets: seq<string>,     // observed: needed by the target's headers
    privateTargets: seq<string>,    // observed: needed by its sources only
    ppublicTargets: seq<string>,    // declared PUBLIC in its first link statement
    pprivateTargets: seq<string>,   // declared PRIVATE there
    interfaceTargets: seq<string>,  // declared INTERFACE there
    isInterface: bool,
    aliasFor: Option<string>,
    cmlPath: Option<string>,        // directory of the defining build file
    isObjectLib: bool,
    wasLinked: bool)

  /** `list_if_none`: an absent list is a new empty one. */
  function ListIfNone(arg: Option<seq<string>>): (r: seq<string>)
    ensures arg.None? ==> r == []
    ensures arg.Some? ==> r == arg.value
  {
    match arg
    case None => []
    case Some(list) => list
  }

  /** `TargetNode(name, headers, sources, is_interface, alias_for, cml_path)`. */
  function NewNode(name: string, headers: Option<seq<string>>, sources: Option<seq<string>>,
                   isInterface: bool, aliasFor: Option<string>, cmlPath: Option<string>): (r: Result<TargetNode>)
    ensures r.Err? <==> name == ""
    ensures r.Err? ==> r.error == MissingName
    ensures r.Ok? ==> r.value.name == name && r.value.isInterface == isInterface
                      && r.value.aliasFor == aliasFor && r.value.cmlPath == cmlPath
                      && r.value.headers == ListIfNone(headers) && r.value.sources == ListIfNone(sources)
    ensures r.Ok? ==> NoLinks(r.value) && !r.value.isObjectLib && !r.value.wasLinked
  {
    if name == "" then Err(MissingName)
    else Ok(TargetNode(name, ListIfNone(headers), [], [], ListIfNone(sources), [], [], [], [], [],
                       isInterface, aliasFor, cmlPath, false, false))
  }

  /** No dependency of any kind, observed or declared, and no includes recorded. */
  predicate NoLinks(n: TargetNode) {
    n.cppIncludes == [] && n.hIncludes == [] && n.publicTargets == [] && n.privateTargets == []
    && n.ppublicTargets == [] && n.pprivateTargets == [] && n.interfaceTargets == []
  }

  /** The node `ensure_target` creates for a name it has not seen: `TargetNode(name)`. */
  function FreshNode(name: string): (n: TargetNode)
    requires name != ""
    ensures n.name == name && NoLinks(n) && n.headers == [] && n.sources == []
    ensures !n.isInterface && !n.isObjectLib && !n.wasLinked && n.aliasFor.None? && n.cmlPath.None?
  {
    NewNode(name, None, None, false, None, None).value
  }

  /** Every name a node refers to. */
  function Refs(n: TargetNode): seq<string> {
    n.publicTargets + n.privateTargets + n.ppublicTargets + n.pprivateTargets + n.interfaceTargets
    + (if n.aliasFor.Some? then [n.aliasFor.value] else [])
  }

  /** Registry invariant: nodes are filed under their own non-empty names, and every
      name a node mentions has a node of its own (forward references were materialised). */
  predicate WellFormed(nodes: map<string, TargetNode>) {
    forall k :: k in nodes ==>
      && k != ""
      && nodes[k].name == k
      && (forall x :: x in Refs(nodes[k]) ==> x in nodes)
  }

  /** The registry after `ensure_target(name)` succeeded. */
  function Ensured(nodes: map<string, TargetNode>, name: string): (r: map<string, TargetNode>)
    requires name != ""
    ensures name in r && r.Keys == nodes.Keys + {name}
    ensures name in nodes ==> r == nodes
    ensures name !in nodes ==> r[name] == FreshNode(name)
    ensures forall k :: k in nodes ==> r[k] == nodes[k]
    ensures WellFormed(nodes) ==> WellFormed(r)
  {
    if name in nodes then nodes else nodes[name := FreshNode(name)]
  }

  /** The registry after `ensure_target` was called on each of `names` in turn; an empty
      name raises, so the registry stays as it was when that name was reached. */
  function EnsureAll(nodes: map<string, TargetNode>, names: seq<string>): (r: map<string, TargetNode>)
    ensures nodes.Keys <= r.Keys
    ensures forall k :: k in nodes ==> r[k] == nodes[k]
    ensures "" !in names ==> forall x :: x in names ==> x in r
    ensures forall k :: k in r && k !in nodes ==> k in names && k != "" && r[k] == FreshNode(k)
    ensures WellFormed(nodes) ==> WellFormed(r)
    decreases |names|
  {
    if names == [] || names[0] == "" then nodes
    else
      HeadTailMembers(names);
      EnsureAll(Ensured(nodes, names[0]), names[1..])
  }

  /** Replacing a node by one under the same name whose references all exist keeps the
      registry well formed. */
  lemma UpdateKeepsWellFormed(nodes: map<string, TargetNode>, name: string, node: TargetNode)
    requires WellFormed(nodes) && name in nodes && node.name == name
    requires forall x :: x in Refs(node) ==> x in nodes
    ensures WellFormed(nodes[name := node])
  {
  }

  /** The `targets` dictionary shared by both listeners, with `ensure_target`. */
  class Registry {
    var nodes: map<string, TargetNode>

    ghost predicate Valid()
      reads this
    {
      WellFormed(nodes)
    }

    constructor (targets: map<string, TargetNode>)
      requires WellFormed(targets)
      ensures Valid() && nodes == targets
    {
      nodes := targets;
    }

    /** `ensure_target`: the node registered under `name`, created first if there is none. */
    method EnsureTarget(name: string) returns (r: Result<TargetNode>)
      requires Valid()
      modifies this
      ensures Valid()
      ensures name == "" ==> r == Err(MissingName) && nodes == old(nodes)
      ensures name != "" ==> nodes == Ensured(old(nodes), name) && r == Ok(nodes[name])
      ensures name in old(nodes) ==> nodes == old(nodes) && r == Ok(old(nodes)[name])
    {
      var existing := if name in nodes then Some(nodes[name]) else None;
      if existing.None? {
        var created := NewNode(name, None, None, false, None, None);
        if created.Err? {
          return created;
        }
        nodes := nodes[name := created.value];
        return created;
      }
      return Ok(existing.value);
    }
  }
}
