/**
 * The graph encoder of src/atom_tree_to_graph.rs.  `AtomTreeCompiler` walks
 * the binary-`Or` atom trees of the restrictions, grows the node arena with
 * a NOT or OR gadget per operator and one node per seed variable, forces
 * each restricted root to its constant, and finally connects every node to
 * the basis node of each colour its whitelist forbids.
 *
 * A panic (`expect`, `todo!`, `panic!`, the panics of `Label::not` and
 * `Label::or`) is a `None` result; the arena is then of no further interest.
 */
module GraphEncoder {
  import opened Wrappers
  import opened Labels
  import opened GraphArena
  import Tokens
  import BinaryTree
  import BinaryForce
  import BinaryRoot
  import IndexRemoval

  type Tree = BinaryTree.Tree

  /** Every whitelist only holds real colours. */
  predicate WhitelistsBounded(nodes: seq<Node>)
  {
    forall i :: 0 <= i < |nodes| ==> nodes[i].whitelist <= AllLabelSet
  }

  /** The basis node that carries colour `l`, once `compile` has made the three. */
  function BasisOf(l: Label): nat
  {
    match l
    case True => 0
    case False => 1
    case _ => 2
  }

  /** Nodes 0, 1 and 2 are the `True`, `False` and `Neutral` basis nodes, each whitelisted to its colour. */
  predicate BasisReady(nodes: seq<Node>)
  {
    |nodes| >= 3 &&
    nodes[0].colour == True && nodes[0].whitelist == {True} &&
    nodes[1].colour == False && nodes[1].whitelist == {False} &&
    nodes[2].colour == Neutral && nodes[2].whitelist == {Neutral}
  }

  /** Node `i` is adjacent to the basis node of every colour its whitelist forbids. */
  predicate CompletedAt(nodes: seq<Node>, i: nat)
    requires i < |nodes|
  {
    forall l :: l in AllLabelSet && l !in nodes[i].whitelist ==> BasisOf(l) in nodes[i].connections
  }

  predicate Complete(nodes: seq<Node>)
  {
    forall i :: 0 <= i < |nodes| ==> CompletedAt(nodes, i)
  }

  /** A colouring with three colours that differs across every edge; whitelists play no part. */
  predicate EdgeProper(nodes: seq<Node>, c: seq<Label>)
  {
    |c| == |nodes| &&
    (forall i :: 0 <= i < |nodes| ==> c[i] in AllLabelSet) &&
    (forall i, j :: 0 <= i < |nodes| && 0 <= j < |nodes| && j in nodes[i].connections ==> c[i] != c[j])
  }

  /**
   * Once every node is completed, the whitelists are carried by edges alone:
   * a colouring respects all whitelists and edges exactly when it is a plain
   * 3-colouring of the graph that gives the basis nodes their own colours.
   */
  lemma CompletedColouring(nodes: seq<Node>, c: seq<Label>)
    requires BasisReady(nodes) && Complete(nodes) && WhitelistsBounded(nodes)
    ensures Proper(nodes, c) <==> (EdgeProper(nodes, c) && c[0] == True && c[1] == False && c[2] == Neutral)
  {
    if EdgeProper(nodes, c) && c[0] == True && c[1] == False && c[2] == Neutral {
      forall i | 0 <= i < |nodes| ensures c[i] in nodes[i].whitelist {
        // the basis node of c[i] carries the same colour, so it is not a neighbour
        var b := BasisOf(c[i]);
        assert c[b] == c[i];
        assert b !in nodes[i].connections;
        assert CompletedAt(nodes, i);
      }
    }
    if Proper(nodes, c) {
      assert c[0] in nodes[0].whitelist && c[1] in nodes[1].whitelist && c[2] in nodes[2].whitelist;
      forall i | 0 <= i < |nodes| ensures c[i] in AllLabelSet {
        assert c[i] in nodes[i].whitelist;
      }
    }
  }

  /** `Label::ALL_LABELS` without the colours in `whitelist`, in declared order. */
  function MissingLabels(whitelist: set<Label>): (r: seq<Label>)
    ensures forall l :: l in r <==> l in AllLabelSet && l !in whitelist
    ensures forall k :: 0 <= k < |r| ==> r[k] != Null
  {
    (if True in whitelist then [] else [True]) +
    (if False in whitelist then [] else [False]) +
    (if Neutral in whitelist then [] else [Neutral])
  }

  /** The nodes `t`, `f`, `u` that carry `True`, `False`, `Neutral`, one per label of `labels`; `Null` has none. */
  function BasisTargets(labels: seq<Label>, t: nat, f: nat, u: nat): (r: seq<nat>)
    ensures forall k :: 0 <= k < |r| ==> r[k] == t || r[k] == f || r[k] == u
  {
    if labels == [] then []
    else
      var init := BasisTargets(labels[..|labels| - 1], t, f, u);
      match labels[|labels| - 1]
      case True => init + [t]
      case False => init + [f]
      case Neutral => init + [u]
      case Null => init
  }

  /** The basis node `BasisTargets` gives for one label. */
  function LabelTarget(l: Label, t: nat, f: nat, u: nat): (r: seq<nat>)
    ensures l == Null <==> r == []
  {
    match l
    case True => [t]
    case False => [f]
    case Neutral => [u]
    case Null => []
  }

  lemma BasisTargetsSnoc(labels: seq<Label>, k: nat, t: nat, f: nat, u: nat)
    requires k < |labels|
    ensures BasisTargets(labels[..k + 1], t, f, u) == BasisTargets(labels[..k], t, f, u) + LabelTarget(labels[k], t, f, u)
  {
    assert labels[..k + 1][..k] == labels[..k];
    if labels[k] == Null {
      assert BasisTargets(labels[..k], t, f, u) + [] == BasisTargets(labels[..k], t, f, u);
    }
  }

  /**
   * What a compilation step may do to the compiler's state: the arena only
   * grows, whitelists change only at nodes the step created or at nodes of
   * variables compiled before, variable nodes stay put and new ones are new
   * or old variable nodes, and definitions are only taken away, by the
   * variables that got a node.
   */
  predicate Advances(nodes0: seq<Node>, maps0: map<nat, nat>, defs0: map<nat, Tree>,
                     nodes1: seq<Node>, maps1: map<nat, nat>, defs1: map<nat, Tree>)
  {
    Grows(nodes0, nodes1) &&
    (forall i :: 0 <= i < |nodes0| && i !in maps0.Values ==> nodes1[i].whitelist == nodes0[i].whitelist) &&
    (forall id :: id in maps0 ==> id in maps1 && maps1[id] == maps0[id]) &&
    (forall id :: id in maps1 && id !in maps0 ==> id in defs0 && id !in defs1) &&
    (forall v :: v in maps1.Values ==> v in maps0.Values || |nodes0| <= v) &&
    defs1.Keys <= defs0.Keys && (forall id :: id in defs1 ==> defs1[id] == defs0[id])
  }

  lemma AdvancesTrans(nodes0: seq<Node>, maps0: map<nat, nat>, defs0: map<nat, Tree>,
                      nodes1: seq<Node>, maps1: map<nat, nat>, defs1: map<nat, Tree>,
                      nodes2: seq<Node>, maps2: map<nat, nat>, defs2: map<nat, Tree>)
    requires Advances(nodes0, maps0, defs0, nodes1, maps1, defs1)
    requires Advances(nodes1, maps1, defs1, nodes2, maps2, defs2)
    ensures Advances(nodes0, maps0, defs0, nodes2, maps2, defs2)
  {
    GrowsTrans(nodes0, nodes1, nodes2);
    forall i | 0 <= i < |nodes0| && i !in maps0.Values
      ensures nodes2[i].whitelist == nodes0[i].whitelist
    {
      assert i !in maps1.Values;
    }
    forall v | v in maps2.Values ensures v in maps0.Values || |nodes0| <= v {
      assert v in maps1.Values || |nodes1| <= v;
    }
  }

  lemma AdvancesRefl(nodes0: seq<Node>, maps0: map<nat, nat>, defs0: map<nat, Tree>)
    ensures Advances(nodes0, maps0, defs0, nodes0, maps0, defs0)
  {
  }

  lemma FewerDefinitions(defs0: map<nat, Tree>, defs1: map<nat, Tree>)
    requires defs1.Keys <= defs0.Keys
    ensures |defs1| <= |defs0|
  {
    BinaryRoot.SubsetSize(defs1.Keys, defs0.Keys);
  }

  lemma AdvancesFewer(nodes0: seq<Node>, maps0: map<nat, nat>, defs0: map<nat, Tree>,
                      nodes1: seq<Node>, maps1: map<nat, nat>, defs1: map<nat, Tree>)
    requires Advances(nodes0, maps0, defs0, nodes1, maps1, defs1)
    ensures |nodes0| <= |nodes1| && |defs1| <= |defs0|
  {
    FewerDefinitions(defs0, defs1);
  }

  /** A step that only forces whitelists of nodes made since `nodes0`, or of variable nodes, keeps `Advances`. */
  lemma AdvancesForced(nodes0: seq<Node>, maps0: map<nat, nat>, defs0: map<nat, Tree>,
                       nodes1: seq<Node>, maps1: map<nat, nat>, defs1: map<nat, Tree>,
                       nodes2: seq<Node>, forced: set<nat>)
    requires Advances(nodes0, maps0, defs0, nodes1, maps1, defs1) && Grows(nodes1, nodes2)
    requires forall i :: 0 <= i < |nodes1| && i !in forced ==> nodes2[i].whitelist == nodes1[i].whitelist
    requires forall s :: s in forced ==> |nodes0| <= s || s in maps0.Values
    ensures Advances(nodes0, maps0, defs0, nodes2, maps1, defs1)
  {
    GrowsTrans(nodes0, nodes1, nodes2);
  }

  /** A gadget over the nodes `a` and `b`, each new or a variable node, keeps `Advances`. */
  lemma AdvancesPair(nodes0: seq<Node>, maps0: map<nat, nat>, defs0: map<nat, Tree>,
                     nodes1: seq<Node>, maps1: map<nat, nat>, defs1: map<nat, Tree>,
                     nodes2: seq<Node>, a: nat, b: nat)
    requires Advances(nodes0, maps0, defs0, nodes1, maps1, defs1) && Grows(nodes1, nodes2)
    requires forall i :: 0 <= i < |nodes1| && i != a && i != b ==> nodes2[i].whitelist == nodes1[i].whitelist
    requires (a in maps0.Values || |nodes0| <= a) && (b in maps0.Values || |nodes0| <= b)
    ensures Advances(nodes0, maps0, defs0, nodes2, maps1, defs1)
  {
    AdvancesForced(nodes0, maps0, defs0, nodes1, maps1, defs1, nodes2, {a, b});
  }

  /** Binding variable `id`, whose definition the step consumed, to a new or already bound node keeps `Advances`. */
  lemma AdvancesBind(nodes0: seq<Node>, maps0: map<nat, nat>, defs0: map<nat, Tree>,
                     nodes1: seq<Node>, maps1: map<nat, nat>, defs1: map<nat, Tree>, id: nat, v: nat)
    requires id in defs0 && id !in maps0 && (v in maps0.Values || |nodes0| <= v)
    requires Advances(nodes0, maps0, defs0 - {id}, nodes1, maps1, defs1)
    ensures Advances(nodes0, maps0, defs0, nodes1, maps1[id := v], defs1)
  {
    var m := maps1[id := v];
    forall w | w in m.Values ensures w in maps0.Values || |nodes0| <= w {
      var k :| k in m && m[k] == w;
      if k != id {
        assert maps1[k] == w;
      }
    }
  }

  lemma RemoveShrinks(defs: map<nat, Tree>, id: nat)
    requires id in defs
    ensures |defs - {id}| < |defs|
  {
    assert (defs - {id}).Keys == defs.Keys - {id};
  }

  /** `l` is among `labels` and is a colour, so its basis node is among the targets. */
  lemma {:induction false} BasisTargetsHas(labels: seq<Label>, t: nat, f: nat, u: nat, l: Label)
    requires l in labels && l != Null
    ensures (match l case True => t case False => f case _ => u) in BasisTargets(labels, t, f, u)
  {
    var init := labels[..|labels| - 1];
    if labels[|labels| - 1] != l {
      assert l in init by {
        var k :| 0 <= k < |labels| && labels[k] == l;
        assert init[k] == l;
      }
      BasisTargetsHas(init, t, f, u, l);
    }
  }

  /**
   * `connect_with_whitelist` on node `v`, with the basis nodes at 0, 1, 2:
   * afterwards `v` is completed, and every colour, whitelist and earlier
   * edge is kept.
   */
  lemma CompletesNode(nodes: seq<Node>, v: nat)
    requires v < |nodes| && 3 <= |nodes|
    ensures var r := ConnectAll(nodes, v, BasisTargets(MissingLabels(nodes[v].whitelist), 0, 1, 2));
      |r| == |nodes| && CompletedAt(r, v) && Grows(nodes, r) &&
      (forall j :: 0 <= j < |nodes| ==> r[j].whitelist == nodes[j].whitelist)
  {
    var missing := MissingLabels(nodes[v].whitelist);
    var targets := BasisTargets(missing, 0, 1, 2);
    var r := ConnectAll(nodes, v, targets);
    ConnectAllKeeps(nodes, v, targets);
    forall j | 0 <= j < |nodes| ensures r[j].whitelist == nodes[j].whitelist {
      ConnectAllFixes(nodes, v, targets, j);
    }
    forall l | l in AllLabelSet && l !in r[v].whitelist ensures BasisOf(l) in r[v].connections {
      BasisTargetsHas(missing, 0, 1, 2, l);
      var k :| 0 <= k < |targets| && targets[k] == BasisOf(l);
    }
  }

  /** The compiler: the atom tree it consumes and the arena it builds. */
  /**
   * Every action is a restriction whose node, `roots[k]`, is past the basis
   * nodes and whitelisted to at most the colour the restriction requires.
   */
  predicate Restricted(nodes: seq<Node>, actions: seq<BinaryForce.Action>, roots: seq<nat>)
  {
    |roots| == |actions| &&
    forall k :: 0 <= k < |roots| ==>
      actions[k].1.Restriction? && 3 <= roots[k] < |nodes| &&
      nodes[roots[k]].whitelist <= {FromAtom(actions[k].1.atom)}
  }

  lemma RestrictedGrows(nodes0: seq<Node>, nodes1: seq<Node>, actions: seq<BinaryForce.Action>, roots: seq<nat>)
    requires Restricted(nodes0, actions, roots) && Grows(nodes0, nodes1)
    ensures Restricted(nodes1, actions, roots)
  {
  }

  lemma CompletedAtGrows(nodes0: seq<Node>, nodes1: seq<Node>, i: nat)
    requires i < |nodes0| && CompletedAt(nodes0, i) && Grows(nodes0, nodes1)
    requires nodes1[i].whitelist == nodes0[i].whitelist
    ensures CompletedAt(nodes1, i)
  {
    forall l | l in AllLabelSet && l !in nodes1[i].whitelist ensures BasisOf(l) in nodes1[i].connections {
      Kept(nodes0[i].connections, nodes1[i].connections, BasisOf(l));
    }
  }

  /** `connect_with_whitelist` on node `i` completes it and keeps the nodes before it complete. */
  lemma CompletionStep(nodes: seq<Node>, i: nat)
    requires i < |nodes| && 3 <= |nodes|
    requires forall j :: 0 <= j < i ==> CompletedAt(nodes, j)
    ensures var r := ConnectAll(nodes, i, BasisTargets(MissingLabels(nodes[i].whitelist), 0, 1, 2));
      |r| == |nodes| && Grows(nodes, r) &&
      (forall j :: 0 <= j < |nodes| ==> r[j].colour == nodes[j].colour && r[j].whitelist == nodes[j].whitelist) &&
      (forall j :: 0 <= j <= i ==> CompletedAt(r, j))
  {
    var r := ConnectAll(nodes, i, BasisTargets(MissingLabels(nodes[i].whitelist), 0, 1, 2));
    CompletesNode(nodes, i);
    forall j | 0 <= j < i ensures CompletedAt(r, j) {
      CompletedAtGrows(nodes, r, j);
    }
  }

  /** The loop of `compile` that completes the nodes, one turn: stated against the arena before the loop. */
  lemma CompletionInvariant(n0: seq<Node>, before: seq<Node>, i: nat)
    requires i < |before| && 3 <= |before| && |before| == |n0|
    requires forall j :: 0 <= j < |before| ==> before[j].colour == n0[j].colour && before[j].whitelist == n0[j].whitelist
    requires forall j :: 0 <= j < i ==> CompletedAt(before, j)
    ensures var r := ConnectAll(before, i, BasisTargets(MissingLabels(before[i].whitelist), 0, 1, 2));
      |r| == |n0| &&
      (forall j :: 0 <= j < |r| ==> r[j].colour == n0[j].colour && r[j].whitelist == n0[j].whitelist) &&
      (forall j :: 0 <= j < i + 1 ==> CompletedAt(r, j))
  {
    CompletionStep(before, i);
  }

  /**
   * The point of the encoding: in a compiled arena, a three-colouring that
   * differs across every edge and gives the basis nodes their own colours
   * puts on every restricted node the colour its restriction asks for.
   */
  lemma SolutionMeetsRestrictions(nodes: seq<Node>, actions: seq<BinaryForce.Action>, roots: seq<nat>, c: seq<Label>)
    requires BasisReady(nodes) && Complete(nodes) && WhitelistsBounded(nodes) && Restricted(nodes, actions, roots)
    requires EdgeProper(nodes, c) && c[0] == True && c[1] == False && c[2] == Neutral
    ensures forall k :: 0 <= k < |roots| ==> c[roots[k]] == FromAtom(actions[k].1.atom)
  {
    CompletedColouring(nodes, c);
  }

  /** The last gate of the OR gadget, as the compiler makes it: a fresh node, then its three links in order. */
  lemma OutputGateIs(n0: seq<Node>, a: nat, b: nat, g: OrLabels)
    requires a < |n0| && b < |n0|
    ensures var s4, n := OrStage(n0, a, b, g, 4), |n0|;
      OrStage(n0, a, b, g, 5) ==
        Connected(Connected(Connected(Fresh(s4, g.output, BoolLabels), n + 4, n + 3), n + 4, n + 1), n + 4, n + 2)
  {
    var s4, n := OrStage(n0, a, b, g, 4), |n0|;
    GateThree(s4, g.output, BoolLabels, n + 3, n + 1, n + 2);
    OrStageStep(n0, a, b, g, 4);
  }

  /** What the OR gadget's arena `h` and output `out` are known to satisfy. */
  lemma OrBuiltFacts(nodes: seq<Node>, a: nat, b: nat, h: seq<Node>, out: nat)
    requires a < |nodes| && b < |nodes| && OrBuilt(nodes, a, b) == Some((h, out))
    ensures out == |nodes| + 4 && |h| == |nodes| + 5 && Grows(nodes, h)
    ensures forall i :: 0 <= i < |nodes| && i != a && i != b ==> h[i].whitelist == nodes[i].whitelist
    ensures OrEdges(h, a, b, |nodes|)
    ensures out == |h| - 1 && h[out].whitelist <= Elements(BoolLabels)
    ensures Symmetric(nodes) ==> Symmetric(h)
  {
    OrBuiltShape(nodes, a, b);
    OrBuiltGadget(nodes, a, b, h, out);
  }

  class AtomTreeCompiler {
    var trueNode: nat
    var falseNode: nat
    var neutralNode: nat
    var definitions: map<nat, Tree>
    var valueActions: seq<BinaryForce.Action>
    var nodes: seq<Node>
    /** Maps a variable id of the atom tree to its node. */
    var variableMappings: map<nat, nat>

    /** `AtomTreeCompiler::new`: an empty arena over `tree`. */
    constructor (tree: BinaryRoot.AtomRoot)
      ensures trueNode == 0 && falseNode == 0 && neutralNode == 0
      ensures definitions == tree.definitions && valueActions == tree.valueActions
      ensures nodes == [] && variableMappings == map[]
    {
      trueNode, falseNode, neutralNode := 0, 0, 0;
      definitions := tree.definitions;
      valueActions := tree.valueActions;
      nodes := [];
      variableMappings := map[];
    }

    /** The arena is symmetric and whitelisted by real colours, and every variable node exists. */
    predicate Valid()
      reads this
    {
      Symmetric(nodes) && WhitelistsBounded(nodes) &&
      forall id :: id in variableMappings ==> variableMappings[id] < |nodes|
    }

    /** `Node::new`: a node with no edges and every colour allowed; its index. */
    method NewNode(colour: Label) returns (id: nat)
      modifies this`nodes
      ensures nodes == Appended(old(nodes), colour) && id == old(|nodes|)
      ensures old(Valid()) ==> Valid()
    {
      AppendedKeeps(nodes, colour);
      nodes := nodes + [Node([], colour, AllLabelSet)];
      id := |nodes| - 1;
    }

    /** `Node::force_whitelist`: the whitelist of `v` becomes its members that are also requested. */
    method ForceWhitelist(v: nat, requested: seq<Label>)
      requires v < |nodes|
      modifies this`nodes
      ensures nodes == Narrowed(old(nodes), v, requested)
      ensures old(Valid()) ==> Valid()
    {
      var nodeWhitelist := nodes[v].whitelist;
      var union: set<Label> := {};
      for k := 0 to |requested|
        invariant union == nodeWhitelist * Elements(requested[..k])
      {
        assert requested[..k + 1] == requested[..k] + [requested[k]];
        if requested[k] in nodeWhitelist {
          union := union + {requested[k]};
        }
      }
      assert requested[..|requested|] == requested;
      NarrowedKeeps(nodes, v, requested);
      nodes := nodes[v := nodes[v].(whitelist := union)];
    }

    /** `Node::force_bool`. */
    method ForceBool(v: nat)
      requires v < |nodes|
      modifies this`nodes
      ensures nodes == Narrowed(old(nodes), v, BoolLabels)
      ensures old(Valid()) ==> Valid()
    {
      ForceWhitelist(v, [True, False]);
    }

    /** `Node::force_bool_plus_neutral`. */
    method ForceBoolPlusNeutral(v: nat)
      requires v < |nodes|
      modifies this`nodes
      ensures nodes == Narrowed(old(nodes), v, BoolOrNeutral)
      ensures old(Valid()) ==> Valid()
    {
      ForceWhitelist(v, [True, False, Neutral]);
    }

    /** `Node::connect`; the message on equal colours is output only. */
    method Connect(a: nat, b: nat)
      requires a < |nodes| && b < |nodes|
      modifies this`nodes
      ensures nodes == Connected(old(nodes), a, b)
      ensures old(Valid()) ==> Valid()
    {
      ConnectedKeeps(nodes, a, b);
      var na := nodes[a].(connections := nodes[a].connections + [b]);
      nodes := nodes[a := na];
      nodes := nodes[b := nodes[b].(connections := nodes[b].connections + [a])];
    }

    /**
     * `Node::connect_with_whitelist`: `v` is connected to the basis node of
     * each colour missing from its whitelist, in the order of `Label::ALL_LABELS`.
     */
    method ConnectWithWhitelist(v: nat)
      requires v < |nodes| && trueNode < |nodes| && falseNode < |nodes| && neutralNode < |nodes|
      modifies this`nodes
      ensures nodes == ConnectAll(old(nodes), v, BasisTargets(MissingLabels(old(nodes)[v].whitelist), trueNode, falseNode, neutralNode))
      ensures old(Valid()) ==> Valid()
    {
      var missing := MissingLabels(nodes[v].whitelist);
      ghost var n0 := nodes;
      for k := 0 to |missing|
        invariant |nodes| == |n0|
        invariant nodes == ConnectAll(n0, v, BasisTargets(missing[..k], trueNode, falseNode, neutralNode))
        invariant old(Valid()) ==> Valid()
      {
        BasisTargetsSnoc(missing, k, trueNode, falseNode, neutralNode);
        ConnectLabel(n0, v, BasisTargets(missing[..k], trueNode, falseNode, neutralNode), missing[k]);
      }
      assert missing[..|missing|] == missing;
    }

    /** One turn of `connect_with_whitelist`: `v` is connected to the basis node of colour `l`, if it has one. */
    method ConnectLabel(ghost n0: seq<Node>, v: nat, ghost done: seq<nat>, l: Label)
      requires v < |n0| && trueNode < |n0| && falseNode < |n0| && neutralNode < |n0|
      requires forall k :: 0 <= k < |done| ==> done[k] < |n0|
      requires nodes == ConnectAll(n0, v, done)
      modifies this`nodes
      ensures nodes == ConnectAll(n0, v, done + LabelTarget(l, trueNode, falseNode, neutralNode))
      ensures old(Valid()) ==> Valid()
    {
      match l
      case False =>
        ConnectAllSnoc(n0, v, done, falseNode);
        Connect(v, falseNode);
      case True =>
        ConnectAllSnoc(n0, v, done, trueNode);
        Connect(v, trueNode);
      case Neutral =>
        ConnectAllSnoc(n0, v, done, neutralNode);
        Connect(v, neutralNode);
      case Null =>
        assert done + [] == done;
    }

    /** The NOT gadget (src/atom_tree_to_graph.rs:96-101) over the node `input`. */
    method AddNot(input: nat) returns (r: Option<nat>)
      requires input < |nodes|
      modifies this`nodes
      ensures r.None? <==> NotBuilt(old(nodes), input).None?
      ensures r.Some? ==> (nodes, r.value) == NotBuilt(old(nodes), input).value
      ensures old(Valid()) ==> Valid()
    {
      ForceBool(input);
      var res := Labels.Not(nodes[input].colour);
      if res.None? {
        return None;
      }
      var invertedNode := NewNode(res.value);
      ForceBool(invertedNode);
      return Some(invertedNode);
    }

    /** The OR gadget (src/atom_tree_to_graph.rs:106-159) over the nodes `a` and `b`. */
    method AddOr(a: nat, b: nat) returns (r: Option<nat>)
      requires a < |nodes| && b < |nodes|
      modifies this`nodes
      ensures r.None? <==> OrBuilt(old(nodes), a, b).None?
      ensures r.Some? ==> (nodes, r.value) == OrBuilt(old(nodes), a, b).value
      ensures r.Some? ==> r.value == old(|nodes|) + 4 && |nodes| == old(|nodes|) + 5 && Grows(old(nodes), nodes)
      ensures r.Some? ==> forall i :: 0 <= i < old(|nodes|) && i != a && i != b ==> nodes[i].whitelist == old(nodes)[i].whitelist
      ensures r.Some? ==> OrEdges(nodes, a, b, old(|nodes|))
      ensures r.Some? ==> r.value == |nodes| - 1 && nodes[r.value].whitelist <= Elements(BoolLabels)
      ensures old(Valid()) ==> Valid()
    {
      ghost var before := nodes;
      ForceBool(a);
      ForceBool(b);
      var gadget := OrGadget(nodes[a].colour, nodes[b].colour);
      if gadget.None? {
        return None;
      }
      ghost var n0 := nodes;
      var c1, a1, b1 := OrInputGates(a, b, gadget.value);
      var output := OrOutputGates(n0, a, b, gadget.value, c1, a1, b1);
      assert OrBuilt(before, a, b) == Some((nodes, output));
      OrBuiltFacts(before, a, b, nodes, output);
      return Some(output);
    }

    /** The gates `c_1`, `a_1` and `b_1` of the OR gadget, coloured by `g`. */
    method OrInputGates(a: nat, b: nat, g: OrLabels) returns (c1: nat, a1: nat, b1: nat)
      requires a < |nodes| && b < |nodes|
      modifies this`nodes
      ensures nodes == OrStage(old(nodes), a, b, g, 3)
      ensures c1 == old(|nodes|) && a1 == c1 + 1 && b1 == c1 + 2
      ensures old(Valid()) ==> Valid()
    {
      ghost var n0 := nodes;
      c1 := OrGateC1(n0, a, b, g);
      a1 := OrGateA1(n0, a, b, g);
      b1 := OrGateB1(n0, a, b, g, a1);
    }

    /** Gate `c_1`, linked to both inputs. */
    method OrGateC1(ghost n0: seq<Node>, a: nat, b: nat, g: OrLabels) returns (c1: nat)
      requires a < |n0| && b < |n0| && nodes == n0
      modifies this`nodes
      ensures nodes == OrStage(n0, a, b, g, 1) && c1 == |n0|
      ensures old(Valid()) ==> Valid()
    {
      c1 := NewNode(g.c1);
      ForceBoolPlusNeutral(c1);
      Connect(a, c1);
      Connect(b, c1);
      GateTwo(n0, g.c1, BoolOrNeutral, a, b);
      OrStageStep(n0, a, b, g, 0);
    }

    /** Gate `a_1`, linked to the input `a`. */
    method OrGateA1(ghost n0: seq<Node>, a: nat, b: nat, g: OrLabels) returns (a1: nat)
      requires a < |n0| && b < |n0| && nodes == OrStage(n0, a, b, g, 1)
      modifies this`nodes
      ensures nodes == OrStage(n0, a, b, g, 2) && a1 == |n0| + 1
      ensures old(Valid()) ==> Valid()
    {
      ghost var s1 := nodes;
      a1 := NewNode(g.a1);
      ForceBoolPlusNeutral(a1);
      Connect(a, a1);
      GateOne(s1, g.a1, BoolOrNeutral, a);
      OrStageStep(n0, a, b, g, 1);
    }

    /** Gate `b_1`, linked to the input `b` and to `a_1`. */
    method OrGateB1(ghost n0: seq<Node>, a: nat, b: nat, g: OrLabels, a1: nat) returns (b1: nat)
      requires a < |n0| && b < |n0| && nodes == OrStage(n0, a, b, g, 2) && a1 == |n0| + 1
      modifies this`nodes
      ensures nodes == OrStage(n0, a, b, g, 3) && b1 == |n0| + 2
      ensures old(Valid()) ==> Valid()
    {
      ghost var s2 := nodes;
      b1 := NewNode(g.b1);
      ForceBoolPlusNeutral(b1);
      Connect(b, b1);
      Connect(a1, b1);
      GateTwo(s2, g.b1, BoolOrNeutral, b, a1);
      OrStageStep(n0, a, b, g, 2);
    }

    /** The gates `c_2` and `output` of the OR gadget, after the first three. */
    method OrOutputGates(ghost n0: seq<Node>, a: nat, b: nat, g: OrLabels, c1: nat, a1: nat, b1: nat) returns (output: nat)
      requires a < |n0| && b < |n0| && nodes == OrStage(n0, a, b, g, 3)
      requires c1 == |n0| && a1 == c1 + 1 && b1 == c1 + 2
      modifies this`nodes
      ensures nodes == OrStage(n0, a, b, g, 5) && output == |n0| + 4
      ensures old(Valid()) ==> Valid()
    {
      var c2 := OrGateC2(n0, a, b, g, c1);
      output := OrGateOutput(n0, a, b, g, c2, a1, b1);
    }

    /** Gate `c_2`, linked to `c_1`. */
    method OrGateC2(ghost n0: seq<Node>, a: nat, b: nat, g: OrLabels, c1: nat) returns (c2: nat)
      requires a < |n0| && b < |n0| && nodes == OrStage(n0, a, b, g, 3) && c1 == |n0|
      modifies this`nodes
      ensures nodes == OrStage(n0, a, b, g, 4) && c2 == |n0| + 3
      ensures old(Valid()) ==> Valid()
    {
      ghost var s3 := nodes;
      c2 := NewNode(g.c2);
      ForceWhitelist(c2, [False, Neutral]);
      Connect(c2, c1);
      GateOne(s3, g.c2, FalseOrNeutral, c1);
      OrStageStep(n0, a, b, g, 3);
    }

    /** Gate `output`, linked to `c_2`, `a_1` and `b_1`. */
    method OrGateOutput(ghost n0: seq<Node>, a: nat, b: nat, g: OrLabels, c2: nat, a1: nat, b1: nat) returns (output: nat)
      requires a < |n0| && b < |n0| && nodes == OrStage(n0, a, b, g, 4)
      requires c2 == |n0| + 3 && a1 == |n0| + 1 && b1 == |n0| + 2
      modifies this`nodes
      ensures nodes == OrStage(n0, a, b, g, 5) && output == |n0| + 4
      ensures old(Valid()) ==> Valid()
    {
      ghost var s4 := nodes;
      output := NewNode(g.output);
      ForceBool(output);
      ghost var f := nodes;
      assert f == Fresh(s4, g.output, BoolLabels);
      Connect(output, c2);
      Connect(output, a1);
      Connect(output, b1);
      OutputGateIs(n0, a, b, g);
    }

    /**
     * `compile_tree`: the node that carries the value of `t`.  A variable
     * already compiled is looked up; otherwise its definition is compiled.
     * Seed labels, markers and constants panic.
     */
    method CompileTree(t: Tree) returns (r: Option<nat>)
      requires Valid()
      modifies this`nodes, this`definitions, this`variableMappings
      ensures r.Some? ==> Valid()
      ensures r.Some? ==> Advances(old(nodes), old(variableMappings), old(definitions), nodes, variableMappings, definitions)
      ensures r.Some? ==> r.value < |nodes| && (old(|nodes|) <= r.value || r.value in old(variableMappings).Values)
      ensures t.Variable? && t.id in old(variableMappings) ==> r == Some(old(variableMappings)[t.id]) && nodes == old(nodes)
      ensures t.Variable? && t.id !in old(variableMappings) && t.id !in old(definitions) ==> r.None?
      ensures t.SeedLabel? || t.Marker? || t.Atom? ==> r.None?
      decreases |definitions|, BinaryTree.Size(t), 1
    {
      AdvancesRefl(nodes, variableMappings, definitions);
      match t
      case Variable(id) =>
        if id in variableMappings {
          return Some(variableMappings[id]);
        }
        r := CompileVar(id);
      case Not(x) =>
        r := CompileNot(x);
      case Or(x, y) =>
        r := CompileOr(x, y);
      case _ =>
        return None;
    }

    /** The `Not` arm of `compile_tree`: a NOT gadget over the node of `x`, its output a new node. */
    method CompileNot(x: Tree) returns (r: Option<nat>)
      requires Valid()
      modifies this`nodes, this`definitions, this`variableMappings
      ensures r.Some? ==> Valid()
      ensures r.Some? ==> Advances(old(nodes), old(variableMappings), old(definitions), nodes, variableMappings, definitions)
      ensures r.Some? ==> r.value < |nodes| && (old(|nodes|) <= r.value || r.value in old(variableMappings).Values)
      ensures r.Some? ==> r.value == |nodes| - 1 && nodes[r.value].whitelist == Elements(BoolLabels)
      decreases |definitions|, 1 + BinaryTree.Size(x), 0
    {
      ghost var n0, m0, d0 := nodes, variableMappings, definitions;
      var input := CompileTree(x);
      if input.None? {
        return None;
      }
      ghost var n1 := nodes;
      r := AddNot(input.value);
      if r.Some? {
        AdvancesForced(n0, m0, d0, n1, variableMappings, definitions, nodes, {input.value});
      }
    }

    /** The `Or` arm of `compile_tree`: an OR gadget over the nodes of `x` and `y`, its output a new node. */
    method CompileOr(x: Tree, y: Tree) returns (r: Option<nat>)
      requires Valid()
      modifies this`nodes, this`definitions, this`variableMappings
      ensures r.Some? ==> Valid()
      ensures r.Some? ==> Advances(old(nodes), old(variableMappings), old(definitions), nodes, variableMappings, definitions)
      ensures r.Some? ==> r.value < |nodes| && (old(|nodes|) <= r.value || r.value in old(variableMappings).Values)
      ensures r.Some? ==> r.value == |nodes| - 1 && nodes[r.value].whitelist <= Elements(BoolLabels)
      decreases |definitions|, 1 + BinaryTree.Size(x) + BinaryTree.Size(y), 0
    {
      ghost var n0, m0, d0 := nodes, variableMappings, definitions;
      var ra := CompileTree(x);
      if ra.None? {
        return None;
      }
      ghost var n1, m1, d1 := nodes, variableMappings, definitions;
      AdvancesFewer(n0, m0, d0, n1, m1, d1);
      var rb := CompileTree(y);
      if rb.None? {
        return None;
      }
      AdvancesTrans(n0, m0, d0, n1, m1, d1, nodes, variableMappings, definitions);
      assert rb.value in m1.Values ==> rb.value in m0.Values || |n0| <= rb.value;
      r := JoinOr(n0, m0, d0, ra.value, rb.value);
    }

    /** The OR gadget over the compiled operands `a` and `b`, as the last step of a compilation that began at `n0`. */
    method JoinOr(ghost n0: seq<Node>, ghost m0: map<nat, nat>, ghost d0: map<nat, Tree>, a: nat, b: nat)
      returns (r: Option<nat>)
      requires Valid() && a < |nodes| && b < |nodes|
      requires Advances(n0, m0, d0, nodes, variableMappings, definitions)
      requires (a in m0.Values || |n0| <= a) && (b in m0.Values || |n0| <= b)
      modifies this`nodes
      ensures r.Some? ==> Valid() && Advances(n0, m0, d0, nodes, variableMappings, definitions)
      ensures r.Some? ==> r.value == |nodes| - 1 && |n0| <= r.value && nodes[r.value].whitelist <= Elements(BoolLabels)
    {
      ghost var n2 := nodes;
      assert |n0| <= |n2|;
      r := AddOr(a, b);
      if r.Some? {
        AdvancesPair(n0, m0, d0, n2, variableMappings, definitions, nodes, a, b);
      }
    }

    /**
     * `compile_var`: takes the definition of `id` out of the tree and gives
     * the variable its node: a fresh unwhitelisted node for a seed label, the
     * compiled definition otherwise.  A missing definition (also the case of
     * a variable defined through itself) and a constant definition panic.
     */
    method CompileVar(id: nat) returns (r: Option<nat>)
      requires Valid() && id !in variableMappings
      modifies this`nodes, this`definitions, this`variableMappings
      ensures r.Some? ==> Valid()
      ensures r.Some? ==> Advances(old(nodes), old(variableMappings), old(definitions), nodes, variableMappings, definitions)
      ensures r.Some? ==> r.value < |nodes| && (old(|nodes|) <= r.value || r.value in old(variableMappings).Values)
      ensures r.Some? ==> id in variableMappings && variableMappings[id] == r.value && id !in definitions
      ensures id !in old(definitions) ==> r.None?
      ensures id in old(definitions) && old(definitions)[id].Atom? ==> r.None?
      ensures id in old(definitions) && old(definitions)[id].SeedLabel? ==>
        r == Some(old(|nodes|)) && nodes == Appended(old(nodes), old(definitions)[id].seed)
      decreases |definitions|, 0, 0
    {
      ghost var n0, m0, d0 := nodes, variableMappings, definitions;
      AdvancesRefl(n0, m0, d0);
      if id !in definitions {
        return None;
      }
      var definition := definitions[id];
      RemoveShrinks(definitions, id);
      definitions := definitions - {id};
      match definition
      case SeedLabel(l) =>
        var varNode := BindSeed(m0, d0, id, l);
        return Some(varNode);
      case Atom(_) =>
        return None;
      case Marker(_) =>
        r := CompileTree(definition);
      case _ =>
        r := BindTree(m0, d0, id, definition);
    }

    /** A variable defined by a gate expression is bound to the node its definition compiles to. */
    method BindTree(ghost m0: map<nat, nat>, ghost d0: map<nat, Tree>, id: nat, definition: Tree) returns (r: Option<nat>)
      requires Valid() && id in d0 && id !in m0
      requires variableMappings == m0 && definitions == d0 - {id}
      modifies this`nodes, this`definitions, this`variableMappings
      ensures r.Some? ==> Valid()
      ensures r.Some? ==> Advances(old(nodes), m0, d0, nodes, variableMappings, definitions)
      ensures r.Some? ==> r.value < |nodes| && (old(|nodes|) <= r.value || r.value in m0.Values)
      ensures r.Some? ==> id in variableMappings && variableMappings[id] == r.value && id !in definitions
      decreases |definitions|, BinaryTree.Size(definition) + 1, 0
    {
      ghost var n0 := nodes;
      r := CompileTree(definition);
      if r.Some? {
        AdvancesBind(n0, m0, d0, nodes, variableMappings, definitions, id, r.value);
        variableMappings := variableMappings[id := r.value];
      }
    }
  
    /** A variable defined by a seed label gets a fresh node of that colour and no whitelist. */
    method BindSeed(ghost m0: map<nat, nat>, ghost d0: map<nat, Tree>, id: nat, l: Label) returns (v: nat)
      requires Valid() && id in d0 && id !in m0
      requires variableMappings == m0 && definitions == d0 - {id}
      modifies this`nodes, this`variableMappings
      ensures v == old(|nodes|) && nodes == Appended(old(nodes), l)
      ensures variableMappings == m0[id := v]
      ensures Valid() && Advances(old(nodes), m0, d0, nodes, variableMappings, definitions)
    {
      ghost var n0 := nodes;
      AdvancesRefl(n0, m0, d0 - {id});
      v := NewNode(l);
      AppendedKeeps(n0, l);
      AdvancesForced(n0, m0, d0 - {id}, n0, m0, d0 - {id}, nodes, {});
      variableMappings := variableMappings[id := v];
      AdvancesBind(n0, m0, d0, nodes, m0, d0 - {id}, id, v);
    }
  
    /**
     * `compile`: makes the three basis nodes, compiles the tree of every
     * restriction and narrows its node to the required colour, then joins
     * every node to the basis nodes of the colours outside its whitelist.
     * An output action reaches a `todo!()` in the source; that, like every
     * panic of the compilation, is `None` here.  `roots` are the restricted
     * nodes, one per action.
     */
    method Compile() returns (r: Option<seq<Node>>, ghost roots: seq<nat>)
      requires nodes == [] && variableMappings == map[]
      modifies this
      ensures valueActions == []
      ensures r.Some? ==> r.value == nodes
      ensures r.Some? ==> BasisReady(nodes) && Symmetric(nodes) && WhitelistsBounded(nodes) && Complete(nodes)
      ensures r.Some? ==> Restricted(nodes, old(valueActions), roots)
      ensures (exists k :: 0 <= k < |old(valueActions)| && old(valueActions)[k].1.Output?) ==> r.None?
    {
      MakeBasis();
      var actions := valueActions;
      valueActions := [];
      var ok;
      ok, roots := CompileActions(actions);
      if !ok {
        return None, roots;
      }
      ConnectWhitelists();
      r := Some(nodes);
    }

    /** The basis nodes `T`, `F` and `N` of `compile`, each whitelisted to its own colour. */
    method MakeBasis()
      requires nodes == [] && variableMappings == map[]
      modifies this`nodes, this`trueNode, this`falseNode, this`neutralNode
      ensures Valid() && BasisReady(nodes) && |nodes| == 3
      ensures trueNode == 0 && falseNode == 1 && neutralNode == 2
    {
      assert Valid();
      var t := NewNode(True);
      ForceWhitelist(t, [True]);
      var f := NewNode(False);
      ForceWhitelist(f, [False]);
      var u := NewNode(Neutral);
      ForceWhitelist(u, [Neutral]);
      trueNode, falseNode, neutralNode := t, f, u;
    }

    /**
     * The loop of `compile` over the value actions: each restriction's tree
     * is compiled and its node narrowed to the colour of the restriction.
     */
    method CompileActions(actions: seq<BinaryForce.Action>) returns (ok: bool, ghost roots: seq<nat>)
      requires Valid() && BasisReady(nodes) && |nodes| == 3 && variableMappings == map[]
      requires trueNode == 0 && falseNode == 1 && neutralNode == 2
      modifies this`nodes, this`definitions, this`variableMappings
      ensures ok ==> Valid() && BasisReady(nodes) && Restricted(nodes, actions, roots)
      ensures (exists k :: 0 <= k < |actions| && actions[k].1.Output?) ==> !ok
    {
      roots := [];
      for k := 0 to |actions|
        invariant Valid() && BasisReady(nodes)
        invariant forall v :: v in variableMappings.Values ==> 3 <= v
        invariant Restricted(nodes, actions[..k], roots)
      {
        match actions[k].1
        case Output(_) =>
          return false, roots;
        case Restriction(atom) =>
          var node := CompileRestriction(actions[k].0, atom, actions[..k], roots);
          if node.None? {
            return false, roots;
          }
          assert actions[..k + 1] == actions[..k] + [actions[k]];
          roots := roots + [node.value];
      }
      assert actions[..|actions|] == actions;
      ok := true;
    }

    /** One restriction of `compile`: the tree's node, narrowed to the colour `atom`. */
    method CompileRestriction(t: Tree, atom: Tokens.AtomType, ghost done: seq<BinaryForce.Action>, ghost roots: seq<nat>)
      returns (r: Option<nat>)
      requires Valid() && BasisReady(nodes) && Restricted(nodes, done, roots)
      requires forall v :: v in variableMappings.Values ==> 3 <= v
      modifies this`nodes, this`definitions, this`variableMappings
      ensures r.Some? ==> Valid() && BasisReady(nodes) && Restricted(nodes, done, roots)
      ensures r.Some? ==> forall v :: v in variableMappings.Values ==> 3 <= v
      ensures r.Some? ==> 3 <= r.value < |nodes| && nodes[r.value].whitelist <= {FromAtom(atom)}
    {
      ghost var n0, m0, d0 := nodes, variableMappings, definitions;
      r := CompileTree(t);
      if r.None? {
        return;
      }
      assert Advances(n0, m0, d0, nodes, variableMappings, definitions);
      RestrictedGrows(n0, nodes, done, roots);
      ghost var n1 := nodes;
      ForceWhitelist(r.value, [FromAtom(atom)]);
      NarrowedKeeps(n1, r.value, [FromAtom(atom)]);
      RestrictedGrows(n1, nodes, done, roots);
    }

    /** The last loop of `compile`: `connect_with_whitelist` on every node, which completes the arena. */
    method ConnectWhitelists()
      requires Valid() && BasisReady(nodes)
      requires trueNode == 0 && falseNode == 1 && neutralNode == 2
      modifies this`nodes
      ensures Valid() && |nodes| == old(|nodes|) && Complete(nodes)
      ensures forall j :: 0 <= j < |nodes| ==>
        nodes[j].colour == old(nodes)[j].colour && nodes[j].whitelist == old(nodes)[j].whitelist
    {
      ghost var n0 := nodes;
      for i := 0 to |nodes|
        invariant Valid() && |nodes| == |n0|
        invariant forall j :: 0 <= j < |nodes| ==>
          nodes[j].colour == n0[j].colour && nodes[j].whitelist == n0[j].whitelist
        invariant forall j :: 0 <= j < i ==> CompletedAt(nodes, j)
      {
        ghost var before := nodes;
        ConnectWithWhitelist(i);
        CompletionInvariant(n0, before, i);
      }
    }
  }
}

