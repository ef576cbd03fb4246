/**
 * The node arena of the 3-colouring graph built by src/atom_tree_to_graph.rs:
 * each node has an adjacency list (with repetitions), the colour the
 * compiler intends for it, and a whitelist of colours it may take.  The
 * arena only grows; nodes are named by their index.
 *
 * This module holds the arena updates as functions on values, the colouring
 * a solver looks for, and the NOT and OR gadgets.
 */
module GraphArena {
  import opened Wrappers
  import opened Labels

  datatype Node = Node(connections: seq<nat>, colour: Label, whitelist: set<Label>)

  /** The colours of `Label::ALL_LABELS`, as a set. */
  const AllLabelSet: set<Label> := {True, False, Neutral}

  /** `force_bool` and `force_bool_plus_neutral` request lists, in source order. */
  const BoolLabels: seq<Label> := [True, False]
  const BoolOrNeutral: seq<Label> := [True, False, Neutral]
  /** The list the OR gadget requests for its `c_2` node. */
  const FalseOrNeutral: seq<Label> := [False, Neutral]

  function Elements(ls: seq<Label>): set<Label>
  {
    set l | l in ls
  }

  // ---------------------------------------------------------------------
  // Arena updates
  // ---------------------------------------------------------------------

  /** `Node::new`: one node, no edges, every colour allowed. */
  function Appended(nodes: seq<Node>, colour: Label): (r: seq<Node>)
    ensures |r| == |nodes| + 1 && r[|nodes|] == Node([], colour, AllLabelSet)
    ensures forall i {:trigger r[i]} :: 0 <= i < |nodes| ==> r[i] == nodes[i]
  {
    nodes + [Node([], colour, AllLabelSet)]
  }

  /** `force_whitelist`: the node's whitelist is cut down to the requested colours. */
  function Narrowed(nodes: seq<Node>, v: nat, requested: seq<Label>): (r: seq<Node>)
    requires v < |nodes|
    ensures |r| == |nodes|
    ensures forall i {:trigger r[i]} :: 0 <= i < |r| ==>
      r[i].colour == nodes[i].colour && r[i].connections == nodes[i].connections &&
      r[i].whitelist == if i == v then nodes[i].whitelist * Elements(requested) else nodes[i].whitelist
  {
    nodes[v := nodes[v].(whitelist := nodes[v].whitelist * Elements(requested))]
  }

  /** What `connect(a, b)` appends to the list of node `i`. */
  function Added(i: nat, a: nat, b: nat): seq<nat>
  {
    (if i == a then [b] else []) + (if i == b then [a] else [])
  }

  /** `connect`: `b` goes onto `a`'s list, then `a` onto `b`'s. */
  function Connected(nodes: seq<Node>, a: nat, b: nat): (r: seq<Node>)
    requires a < |nodes| && b < |nodes|
    ensures |r| == |nodes|
  {
    var n1 := nodes[a := nodes[a].(connections := nodes[a].connections + [b])];
    n1[b := n1[b].(connections := n1[b].connections + [a])]
  }

  /** `v` connected to each of `targets`, in order. */
  function ConnectAll(nodes: seq<Node>, v: nat, targets: seq<nat>): (r: seq<Node>)
    requires v < |nodes| && forall k :: 0 <= k < |targets| ==> targets[k] < |nodes|
    ensures |r| == |nodes|
    decreases |targets|
  {
    if targets == [] then nodes
    else Connected(ConnectAll(nodes, v, targets[..|targets| - 1]), v, targets[|targets| - 1])
  }

  /** `Node::new` followed by `force_whitelist` on the new node. */
  function Fresh(nodes: seq<Node>, colour: Label, requested: seq<Label>): (r: seq<Node>)
    ensures |r| == |nodes| + 1
  {
    Narrowed(Appended(nodes, colour), |nodes|, requested)
  }

  /** A gadget node: a fresh node with its whitelist, then linked to each of `links`. */
  function Gate(nodes: seq<Node>, colour: Label, requested: seq<Label>, links: seq<nat>): (r: seq<Node>)
    requires forall k :: 0 <= k < |links| ==> links[k] < |nodes|
    ensures |r| == |nodes| + 1
  {
    ConnectAll(Fresh(nodes, colour, requested), |nodes|, links)
  }

  // ---------------------------------------------------------------------
  // Invariants of the arena
  // ---------------------------------------------------------------------

  /**
   * Adjacency stays inside the arena and is symmetric: `j` occurs in `i`'s
   * list as often as `i` in `j`'s.
   */
  predicate Symmetric(nodes: seq<Node>)
  {
    (forall i, x :: 0 <= i < |nodes| && x in nodes[i].connections ==> x < |nodes|) &&
    (forall i, j :: 0 <= i < |nodes| && 0 <= j < |nodes| ==>
       multiset(nodes[i].connections)[j] == multiset(nodes[j].connections)[i])
  }

  /** `after` extends `before`: same colours, smaller whitelists, longer adjacency lists. */
  predicate Grows(before: seq<Node>, after: seq<Node>)
  {
    |before| <= |after| &&
    forall i :: 0 <= i < |before| ==>
      after[i].colour == before[i].colour && after[i].whitelist <= before[i].whitelist &&
      before[i].connections <= after[i].connections
  }

  lemma GrowsTrans(a: seq<Node>, b: seq<Node>, c: seq<Node>)
    requires Grows(a, b) && Grows(b, c)
    ensures Grows(a, c)
  {
    forall i | 0 <= i < |a| ensures a[i].connections <= c[i].connections {
      assert b[i].connections <= c[i].connections;
    }
  }

  lemma AppendedKeeps(nodes: seq<Node>, colour: Label)
    ensures Grows(nodes, Appended(nodes, colour))
    ensures Symmetric(nodes) ==> Symmetric(Appended(nodes, colour))
  {
    var r := Appended(nodes, colour);
    assert forall i :: 0 <= i < |nodes| ==> r[i] == nodes[i];
    if Symmetric(nodes) {
      forall i, j | 0 <= i < |r| && 0 <= j < |r|
        ensures multiset(r[i].connections)[j] == multiset(r[j].connections)[i]
      {
        if i == |nodes| && j < |nodes| {
          assert i !in nodes[j].connections;
        } else if j == |nodes| && i < |nodes| {
          assert j !in nodes[i].connections;
        }
      }
    }
  }

  lemma NarrowedKeeps(nodes: seq<Node>, v: nat, requested: seq<Label>)
    requires v < |nodes|
    ensures Grows(nodes, Narrowed(nodes, v, requested))
    ensures Symmetric(nodes) ==> Symmetric(Narrowed(nodes, v, requested))
  {
  }

  lemma AddedSymmetric(i: nat, j: nat, a: nat, b: nat)
    ensures multiset(Added(i, a, b))[j] == multiset(Added(j, a, b))[i]
  {
  }

  /** Node `i` after `connect(a, b)`: only its list changes, by what `Added` says. */
  lemma ConnectedAt(nodes: seq<Node>, a: nat, b: nat, i: nat)
    requires a < |nodes| && b < |nodes| && i < |nodes|
    ensures Connected(nodes, a, b)[i] == nodes[i].(connections := nodes[i].connections + Added(i, a, b))
  {
  }

  /** The argument order of `connect` does not matter. */
  lemma ConnectedCommutes(nodes: seq<Node>, a: nat, b: nat)
    requires a < |nodes| && b < |nodes|
    ensures Connected(nodes, a, b) == Connected(nodes, b, a)
  {
    var r, s := Connected(nodes, a, b), Connected(nodes, b, a);
    forall i | 0 <= i < |r| ensures r[i] == s[i] {
      ConnectedAt(nodes, a, b, i);
      ConnectedAt(nodes, b, a, i);
      assert Added(i, a, b) == Added(i, b, a);
    }
  }

  lemma CountAppend(s: seq<nat>, t: seq<nat>, x: nat)
    ensures multiset(s + t)[x] == multiset(s)[x] + multiset(t)[x]
  {
  }

  /** Connecting keeps adjacency symmetric and puts each end on the other's list. */
  lemma ConnectedKeeps(nodes: seq<Node>, a: nat, b: nat)
    requires a < |nodes| && b < |nodes|
    ensures Grows(nodes, Connected(nodes, a, b))
    ensures Symmetric(nodes) ==> Symmetric(Connected(nodes, a, b))
    ensures b in Connected(nodes, a, b)[a].connections && a in Connected(nodes, a, b)[b].connections
  {
    var r := Connected(nodes, a, b);
    forall i | 0 <= i < |nodes|
      ensures r[i].colour == nodes[i].colour && r[i].whitelist == nodes[i].whitelist
      ensures nodes[i].connections <= r[i].connections
    {
      ConnectedAt(nodes, a, b, i);
    }
    ConnectedAt(nodes, a, b, a);
    ConnectedAt(nodes, a, b, b);
    assert r[a].connections == nodes[a].connections + Added(a, a, b);
    assert r[b].connections == nodes[b].connections + Added(b, a, b);
    if Symmetric(nodes) {
      ConnectedClosed(nodes, a, b);
      forall i, j | 0 <= i < |r| && 0 <= j < |r|
        ensures multiset(r[i].connections)[j] == multiset(r[j].connections)[i]
      {
        ConnectedCount(nodes, a, b, i, j);
      }
    }
  }

  lemma ConnectedClosed(nodes: seq<Node>, a: nat, b: nat)
    requires a < |nodes| && b < |nodes| && Symmetric(nodes)
    ensures forall i, x :: 0 <= i < |nodes| && x in Connected(nodes, a, b)[i].connections ==> x < |nodes|
  {
    var r := Connected(nodes, a, b);
    forall i, x | 0 <= i < |r| && x in r[i].connections ensures x < |r| {
      ConnectedAt(nodes, a, b, i);
      assert r[i].connections == nodes[i].connections + Added(i, a, b);
    }
  }

  lemma ConnectedCount(nodes: seq<Node>, a: nat, b: nat, i: nat, j: nat)
    requires a < |nodes| && b < |nodes| && i < |nodes| && j < |nodes| && Symmetric(nodes)
    ensures multiset(Connected(nodes, a, b)[i].connections)[j] == multiset(Connected(nodes, a, b)[j].connections)[i]
  {
    var r := Connected(nodes, a, b);
    ConnectedAt(nodes, a, b, i);
    ConnectedAt(nodes, a, b, j);
    assert r[i].connections == nodes[i].connections + Added(i, a, b);
    assert r[j].connections == nodes[j].connections + Added(j, a, b);
    CountAppend(nodes[i].connections, Added(i, a, b), j);
    CountAppend(nodes[j].connections, Added(j, a, b), i);
    AddedSymmetric(i, j, a, b);
  }

  /** Connecting `v` to all targets links `v` and every target both ways and keeps adjacency symmetric. */
  lemma {:induction false} ConnectAllKeeps(nodes: seq<Node>, v: nat, targets: seq<nat>)
    requires v < |nodes| && forall k :: 0 <= k < |targets| ==> targets[k] < |nodes|
    ensures Grows(nodes, ConnectAll(nodes, v, targets))
    ensures Symmetric(nodes) ==> Symmetric(ConnectAll(nodes, v, targets))
    ensures forall k :: 0 <= k < |targets| ==>
      targets[k] in ConnectAll(nodes, v, targets)[v].connections &&
      v in ConnectAll(nodes, v, targets)[targets[k]].connections
    decreases |targets|
  {
    if targets != [] {
      var init := targets[..|targets| - 1];
      var last := targets[|targets| - 1];
      var mid := ConnectAll(nodes, v, init);
      ConnectAllKeeps(nodes, v, init);
      ConnectedKeeps(mid, v, last);
      var r := Connected(mid, v, last);
      GrowsTrans(nodes, mid, r);
      forall k | 0 <= k < |targets|
        ensures targets[k] in r[v].connections && v in r[targets[k]].connections
      {
        if k < |targets| - 1 {
          assert targets[k] == init[k];
          assert mid[v].connections <= r[v].connections;
          assert mid[targets[k]].connections <= r[targets[k]].connections;
        }
      }
    }
  }

  /** Connecting never changes a node's colour or whitelist. */
  lemma {:induction false} ConnectAllFixes(nodes: seq<Node>, v: nat, targets: seq<nat>, i: nat)
    requires v < |nodes| && (forall k :: 0 <= k < |targets| ==> targets[k] < |nodes|) && i < |nodes|
    ensures var r := ConnectAll(nodes, v, targets);
      r[i].colour == nodes[i].colour && r[i].whitelist == nodes[i].whitelist
    decreases |targets|
  {
    if targets != [] {
      var init := targets[..|targets| - 1];
      ConnectAllFixes(nodes, v, init, i);
      ConnectedAt(ConnectAll(nodes, v, init), v, targets[|targets| - 1], i);
    }
  }

  /** Connecting to one more target is one more `connect`. */
  lemma ConnectAllSnoc(nodes: seq<Node>, v: nat, targets: seq<nat>, x: nat)
    requires v < |nodes| && (forall k :: 0 <= k < |targets| ==> targets[k] < |nodes|) && x < |nodes|
    ensures ConnectAll(nodes, v, targets + [x]) == Connected(ConnectAll(nodes, v, targets), v, x)
  {
    assert (targets + [x])[..|targets|] == targets;
  }

  /** A gadget node leaves an earlier node's colour and whitelist alone and only extends its list. */
  lemma GateOld(nodes: seq<Node>, colour: Label, requested: seq<Label>, links: seq<nat>, i: nat)
    requires (forall k :: 0 <= k < |links| ==> links[k] < |nodes|) && i < |nodes|
    ensures var r := Gate(nodes, colour, requested, links);
      r[i].colour == nodes[i].colour && r[i].whitelist == nodes[i].whitelist &&
      nodes[i].connections <= r[i].connections
  {
    var f := Fresh(nodes, colour, requested);
    assert f[i] == nodes[i];
    ConnectAllKeeps(f, |nodes|, links);
    ConnectAllFixes(f, |nodes|, links, i);
  }

  /** A gadget node carries its colour and whitelist and is linked both ways to each of `links`. */
  lemma GateNew(nodes: seq<Node>, colour: Label, requested: seq<Label>, links: seq<nat>)
    requires forall k :: 0 <= k < |links| ==> links[k] < |nodes|
    ensures var r := Gate(nodes, colour, requested, links);
      r[|nodes|].colour == colour && r[|nodes|].whitelist == AllLabelSet * Elements(requested) &&
      (forall k :: 0 <= k < |links| ==> links[k] in r[|nodes|].connections && |nodes| in r[links[k]].connections)
  {
    ConnectAllKeeps(Fresh(nodes, colour, requested), |nodes|, links);
    ConnectAllFixes(Fresh(nodes, colour, requested), |nodes|, links, |nodes|);
  }

  lemma GateGrows(nodes: seq<Node>, colour: Label, requested: seq<Label>, links: seq<nat>)
    requires forall k :: 0 <= k < |links| ==> links[k] < |nodes|
    ensures Grows(nodes, Gate(nodes, colour, requested, links))
  {
    var f := Fresh(nodes, colour, requested);
    AppendedKeeps(nodes, colour);
    NarrowedKeeps(Appended(nodes, colour), |nodes|, requested);
    GrowsTrans(nodes, Appended(nodes, colour), f);
    ConnectAllKeeps(f, |nodes|, links);
    GrowsTrans(nodes, f, Gate(nodes, colour, requested, links));
  }

  lemma GateSymmetric(nodes: seq<Node>, colour: Label, requested: seq<Label>, links: seq<nat>)
    requires (forall k :: 0 <= k < |links| ==> links[k] < |nodes|) && Symmetric(nodes)
    ensures Symmetric(Gate(nodes, colour, requested, links))
  {
    var f := Fresh(nodes, colour, requested);
    AppendedKeeps(nodes, colour);
    NarrowedKeeps(Appended(nodes, colour), |nodes|, requested);
    ConnectAllKeeps(f, |nodes|, links);
  }

  /** A gadget node with one link is `Node::new`, `force_whitelist`, then one `connect`, in either order of ends. */
  lemma GateOne(nodes: seq<Node>, colour: Label, requested: seq<Label>, x: nat)
    requires x < |nodes|
    ensures var f := Fresh(nodes, colour, requested);
      Gate(nodes, colour, requested, [x]) == Connected(f, x, |nodes|) == Connected(f, |nodes|, x)
  {
    var f := Fresh(nodes, colour, requested);
    assert [x][..0] == [];
    assert ConnectAll(f, |nodes|, []) == f;
    assert ConnectAll(f, |nodes|, [x]) == Connected(f, |nodes|, x);
    ConnectedCommutes(f, x, |nodes|);
  }

  /** A gadget node with two links, the links connected in order. */
  lemma GateTwo(nodes: seq<Node>, colour: Label, requested: seq<Label>, x: nat, y: nat)
    requires x < |nodes| && y < |nodes|
    ensures var f, n := Fresh(nodes, colour, requested), |nodes|;
      Gate(nodes, colour, requested, [x, y]) == Connected(Connected(f, x, n), y, n)
  {
    var f, n := Fresh(nodes, colour, requested), |nodes|;
    assert [x, y][..1] == [x] && [x][..0] == [];
    assert ConnectAll(f, n, []) == f;
    assert ConnectAll(f, n, [x]) == Connected(f, n, x);
    assert ConnectAll(f, n, [x, y]) == Connected(Connected(f, n, x), n, y);
    ConnectedCommutes(f, x, n);
    ConnectedCommutes(Connected(f, n, x), y, n);
  }

  /** A gadget node with three links, the links connected in order. */
  lemma GateThree(nodes: seq<Node>, colour: Label, requested: seq<Label>, x: nat, y: nat, z: nat)
    requires x < |nodes| && y < |nodes| && z < |nodes|
    ensures var f, n := Fresh(nodes, colour, requested), |nodes|;
      Gate(nodes, colour, requested, [x, y, z]) == Connected(Connected(Connected(f, n, x), n, y), n, z)
  {
    var f, n := Fresh(nodes, colour, requested), |nodes|;
    assert [x, y, z][..2] == [x, y] && [x, y][..1] == [x] && [x][..0] == [];
    assert ConnectAll(f, n, []) == f;
    assert ConnectAll(f, n, [x]) == Connected(f, n, x);
    assert ConnectAll(f, n, [x, y]) == Connected(Connected(f, n, x), n, y);
  }

  lemma Kept(s: seq<nat>, t: seq<nat>, x: nat)
    requires x in s && s <= t
    ensures x in t
  {
    assert s == t[..|s|];
  }

  // ---------------------------------------------------------------------
  // Colourings
  // ---------------------------------------------------------------------

  /** A colour per node, taken from its whitelist, different across every edge. */
  predicate Proper(nodes: seq<Node>, c: seq<Label>)
  {
    |c| == |nodes| &&
    (forall i :: 0 <= i < |nodes| ==> c[i] in nodes[i].whitelist) &&
    (forall i, j :: 0 <= i < |nodes| && 0 <= j < |nodes| && j in nodes[i].connections ==> c[i] != c[j])
  }

  // ---------------------------------------------------------------------
  // The OR gadget (src/atom_tree_to_graph.rs:103-160)
  // ---------------------------------------------------------------------

  /** The colours the compiler gives the five nodes of an OR gadget. */
  datatype OrLabels = OrLabels(c1: Label, a1: Label, b1: Label, c2: Label, output: Label)

  /** The nine edges, from input colours `a`, `b`, each join two different colours. */
  predicate OrEdgesDiffer(a: Label, b: Label, g: OrLabels)
  {
    a != g.c1 && b != g.c1 && a != g.a1 && b != g.b1 && g.a1 != g.b1 &&
    g.c2 != g.c1 && g.output != g.c2 && g.output != g.a1 && g.output != g.b1
  }

  /**
   * The label tables of the OR gadget for input colours `a` and `b`; `None`
   * is the panic of `Label::or` on `Neutral`.
   */
  function OrGadget(a: Label, b: Label): (r: Option<OrLabels>)
    ensures r.None? <==> Labels.Or(a, b).None?
    ensures r.Some? ==> r.value.output == Labels.Or(a, b).value
    ensures IsBool(a) && IsBool(b) ==>
      r.Some? && r.value.output == FromBool(a == True || b == True) && OrEdgesDiffer(a, b, r.value) &&
      r.value.c1 in AllLabelSet && r.value.a1 in AllLabelSet && r.value.b1 in AllLabelSet &&
      r.value.c2 in Elements(FalseOrNeutral) && r.value.output in Elements(BoolLabels)
    ensures (a == Null || b == Null) ==> r == Some(OrLabels(Null, Null, Null, Null, Null))
  {
    match Labels.Or(a, b)
    case None => None
    case Some(res) =>
      if res == Neutral then None
      else
        var c1 := match res case Null => Null case False => True case _ => Neutral;
        var a1 := if res == Null then Null else if res == True && b == False then False else Neutral;
        var b1 := if res == Null then Null else if res == True && b == False then Neutral
                  else if res == False then True else False;
        var c2 := match res case False => Neutral case True => False case _ => Null;
        Some(OrLabels(c1, a1, b1, c2, res))
  }

  /**
   * The gadget computes `or`: in every colouring that respects the
   * whitelists and the nine edges, the output is the `or` of the inputs.
   */
  lemma OrGadgetForces(a: Label, b: Label, g: OrLabels)
    requires IsBool(a) && IsBool(b) && IsBool(g.output)
    requires g.c1 in AllLabelSet && g.a1 in AllLabelSet && g.b1 in AllLabelSet
    requires g.c2 == False || g.c2 == Neutral
    requires OrEdgesDiffer(a, b, g)
    ensures g.output == FromBool(a == True || b == True)
  {
    if a == False && b == False {
      // a1 and b1 avoid False and each other, so they are True and Neutral
      assert {g.a1, g.b1} == {True, Neutral};
    } else if a == True && b == True {
      assert g.a1 != True && g.b1 != True;
    } else {
      // one input True, one False: c1 avoids both, so c1 is Neutral and c2 False
      assert g.c1 == Neutral;
    }
  }

  /** The OR gadget's edges and whitelists as they stand in an arena, its first node at `n`. */
  predicate OrEdges(g: seq<Node>, a: nat, b: nat, n: nat)
  {
    a < |g| && b < |g| && n + 5 <= |g| &&
    n in g[a].connections && n in g[b].connections && n + 1 in g[a].connections &&
    n + 2 in g[b].connections && n + 2 in g[n + 1].connections && n in g[n + 3].connections &&
    n + 3 in g[n + 4].connections && n + 1 in g[n + 4].connections && n + 2 in g[n + 4].connections &&
    g[a].whitelist <= Elements(BoolLabels) && g[b].whitelist <= Elements(BoolLabels) &&
    g[n].whitelist <= AllLabelSet && g[n + 1].whitelist <= AllLabelSet && g[n + 2].whitelist <= AllLabelSet &&
    g[n + 3].whitelist <= Elements(FalseOrNeutral) && g[n + 4].whitelist <= Elements(BoolLabels)
  }

  /** The gadget stays in place while the arena grows. */
  lemma OrEdgesPersist(g: seq<Node>, h: seq<Node>, a: nat, b: nat, n: nat)
    requires OrEdges(g, a, b, n) && Grows(g, h)
    ensures OrEdges(h, a, b, n)
  {
    forall i | i in {a, b, n, n + 1, n + 3, n + 4} ensures g[i].connections <= h[i].connections {
    }
  }

  /** Every proper colouring of an arena holding an OR gadget colours its output with the `or` of its inputs. */
  lemma OrEdgesForce(g: seq<Node>, a: nat, b: nat, n: nat, c: seq<Label>)
    requires OrEdges(g, a, b, n) && Proper(g, c)
    ensures c[n + 4] == FromBool(c[a] == True || c[b] == True)
  {
    assert c[a] in g[a].whitelist && c[b] in g[b].whitelist;
    assert c[n] in g[n].whitelist && c[n + 1] in g[n + 1].whitelist && c[n + 2] in g[n + 2].whitelist;
    assert c[n + 3] in g[n + 3].whitelist && c[n + 4] in g[n + 4].whitelist;
    OrGadgetForces(c[a], c[b], OrLabels(c[n], c[n + 1], c[n + 2], c[n + 3], c[n + 4]));
  }

  /** Colour, whitelist request and links of gate `k` of the OR gadget (`c_1`, `a_1`, `b_1`, `c_2`, `output`). */
  function OrColour(g: OrLabels, k: nat): Label
  {
    if k == 0 then g.c1 else if k == 1 then g.a1 else if k == 2 then g.b1 else if k == 3 then g.c2 else g.output
  }

  function OrRequest(k: nat): seq<Label>
  {
    if k == 3 then FalseOrNeutral else if k == 4 then BoolLabels else BoolOrNeutral
  }

  /** The earlier nodes gate `k` is connected to, `n` being the index of `c_1`. */
  function OrLinks(a: nat, b: nat, n: nat, k: nat): (r: seq<nat>)
    requires a < n && b < n
    ensures forall j :: 0 <= j < |r| ==> r[j] < n + k
  {
    if k == 0 then [a, b] else if k == 1 then [a] else if k == 2 then [b, n + 1]
    else if k == 3 then [n] else [n + 3, n + 1, n + 2]
  }

  /** The arena after the first `k` gates of the OR gadget over nodes `a` and `b`, coloured by `g`. */
  function OrStage(n0: seq<Node>, a: nat, b: nat, g: OrLabels, k: nat): (h: seq<Node>)
    requires a < |n0| && b < |n0|
    ensures |h| == |n0| + k
  {
    if k == 0 then n0
    else Gate(OrStage(n0, a, b, g, k - 1), OrColour(g, k - 1), OrRequest(k - 1), OrLinks(a, b, |n0|, k - 1))
  }

  /** The number of nodes the OR gadget adds. */
  const OrGateCount: nat := 5

  /** The arena after the OR gadget over nodes `a`, `b`, and the output node; `None` for a panic. */
  function OrBuilt(nodes: seq<Node>, a: nat, b: nat): (r: Option<(seq<Node>, nat)>)
    requires a < |nodes| && b < |nodes|
  {
    var n0 := Narrowed(Narrowed(nodes, a, BoolLabels), b, BoolLabels);
    match OrGadget(nodes[a].colour, nodes[b].colour)
    case None => None
    case Some(g) => Some((OrStage(n0, a, b, g, OrGateCount), |nodes| + 4))
  }

  /** One more gate. */
  lemma OrStageStep(n0: seq<Node>, a: nat, b: nat, g: OrLabels, k: nat)
    requires a < |n0| && b < |n0|
    ensures OrStage(n0, a, b, g, k + 1) ==
      Gate(OrStage(n0, a, b, g, k), OrColour(g, k), OrRequest(k), OrLinks(a, b, |n0|, k))
  {
  }

  /** Node `i`, once it exists, keeps its colour and whitelist and extends its list through the later gates. */
  lemma {:induction false} OrStageKeeps(n0: seq<Node>, a: nat, b: nat, g: OrLabels, i: nat, k: nat, m: nat)
    requires a < |n0| && b < |n0| && k <= m && i < |n0| + k
    ensures var s, t := OrStage(n0, a, b, g, k), OrStage(n0, a, b, g, m);
      t[i].colour == s[i].colour && t[i].whitelist == s[i].whitelist && s[i].connections <= t[i].connections
    decreases m - k
  {
    if k < m {
      OrStageKeeps(n0, a, b, g, i, k + 1, m);
      GateOld(OrStage(n0, a, b, g, k), OrColour(g, k), OrRequest(k), OrLinks(a, b, |n0|, k), i);
    }
  }

  /** Gate `k` carries its colour and whitelist. */
  lemma OrStageNew(n0: seq<Node>, a: nat, b: nat, g: OrLabels, k: nat)
    requires a < |n0| && b < |n0|
    ensures var h, n := OrStage(n0, a, b, g, k + 1), |n0| + k;
      h[n].colour == OrColour(g, k) && h[n].whitelist == AllLabelSet * Elements(OrRequest(k))
  {
    GateNew(OrStage(n0, a, b, g, k), OrColour(g, k), OrRequest(k), OrLinks(a, b, |n0|, k));
  }

  lemma {:induction false} OrStageGrows(n0: seq<Node>, a: nat, b: nat, g: OrLabels, k: nat)
    requires a < |n0| && b < |n0|
    ensures Grows(n0, OrStage(n0, a, b, g, k))
  {
    if k > 0 {
      OrStageGrows(n0, a, b, g, k - 1);
      var s := OrStage(n0, a, b, g, k - 1);
      GateGrows(s, OrColour(g, k - 1), OrRequest(k - 1), OrLinks(a, b, |n0|, k - 1));
      GrowsTrans(n0, s, OrStage(n0, a, b, g, k));
    }
  }

  lemma {:induction false} OrStageSymmetric(n0: seq<Node>, a: nat, b: nat, g: OrLabels, k: nat)
    requires a < |n0| && b < |n0| && Symmetric(n0)
    ensures Symmetric(OrStage(n0, a, b, g, k))
  {
    if k > 0 {
      OrStageSymmetric(n0, a, b, g, k - 1);
      GateSymmetric(OrStage(n0, a, b, g, k - 1), OrColour(g, k - 1), OrRequest(k - 1), OrLinks(a, b, |n0|, k - 1));
    }
  }

  /** Gate `k`'s node keeps its colour and whitelist through the later gates. */
  lemma OrGateFinal(n0: seq<Node>, a: nat, b: nat, g: OrLabels, k: nat, m: nat)
    requires a < |n0| && b < |n0| && k < m
    ensures var h := OrStage(n0, a, b, g, m);
      h[|n0| + k].colour == OrColour(g, k) && h[|n0| + k].whitelist == AllLabelSet * Elements(OrRequest(k))
  {
    OrStageNew(n0, a, b, g, k);
    OrStageKeeps(n0, a, b, g, |n0| + k, k + 1, m);
  }

  /** The gates colour and whitelist the five new nodes and leave the earlier whitelists alone. */
  lemma OrChainKeeps(n0: seq<Node>, a: nat, b: nat, g: OrLabels)
    requires a < |n0| && b < |n0|
    ensures var n := |n0|;
      var h := OrStage(n0, a, b, g, 5);
      h[n].colour == g.c1 && h[n + 1].colour == g.a1 && h[n + 2].colour == g.b1 &&
      h[n + 3].colour == g.c2 && h[n + 4].colour == g.output &&
      h[n].whitelist == AllLabelSet && h[n + 1].whitelist == AllLabelSet && h[n + 2].whitelist == AllLabelSet &&
      h[n + 3].whitelist == Elements(FalseOrNeutral) && h[n + 4].whitelist == Elements(BoolLabels) &&
      (forall i :: 0 <= i < n ==> h[i].whitelist == n0[i].whitelist)
  {
    assert Elements(BoolOrNeutral) == AllLabelSet;
    assert Elements(BoolLabels) <= AllLabelSet && Elements(FalseOrNeutral) <= AllLabelSet;
    OrGateFinal(n0, a, b, g, 0, 5);
    OrGateFinal(n0, a, b, g, 1, 5);
    OrGateFinal(n0, a, b, g, 2, 5);
    OrGateFinal(n0, a, b, g, 3, 5);
    OrGateFinal(n0, a, b, g, 4, 5);
    forall i | 0 <= i < |n0| ensures OrStage(n0, a, b, g, 5)[i].whitelist == n0[i].whitelist {
      OrStageKeeps(n0, a, b, g, i, 0, 5);
    }
  }

  /** An edge added by gate `k` is still there after the fifth. */
  lemma OrEdgeKept(n0: seq<Node>, a: nat, b: nat, g: OrLabels, k: nat, i: nat, x: nat)
    requires a < |n0| && b < |n0| && k <= 5 && i < |n0| + k && x in OrStage(n0, a, b, g, k)[i].connections
    ensures x in OrStage(n0, a, b, g, 5)[i].connections
  {
    OrStageKeeps(n0, a, b, g, i, k, 5);
    Kept(OrStage(n0, a, b, g, k)[i].connections, OrStage(n0, a, b, g, 5)[i].connections, x);
  }

  /** Each of the nine edges is added by one gate and kept by the later ones. */
  lemma OrChainEdges(n0: seq<Node>, a: nat, b: nat, g: OrLabels)
    requires a < |n0| && b < |n0|
    ensures var n := |n0|;
      var h := OrStage(n0, a, b, g, 5);
      n in h[a].connections && n in h[b].connections && n + 1 in h[a].connections &&
      n + 2 in h[b].connections && n + 2 in h[n + 1].connections && n in h[n + 3].connections &&
      n + 3 in h[n + 4].connections && n + 1 in h[n + 4].connections && n + 2 in h[n + 4].connections
  {
    var n := |n0|;
    GateNew(OrStage(n0, a, b, g, 0), OrColour(g, 0), OrRequest(0), OrLinks(a, b, n, 0));
    assert OrLinks(a, b, n, 0)[0] == a && OrLinks(a, b, n, 0)[1] == b;
    OrEdgeKept(n0, a, b, g, 1, a, n);
    OrEdgeKept(n0, a, b, g, 1, b, n);
    GateNew(OrStage(n0, a, b, g, 1), OrColour(g, 1), OrRequest(1), OrLinks(a, b, n, 1));
    assert OrLinks(a, b, n, 1)[0] == a;
    OrEdgeKept(n0, a, b, g, 2, a, n + 1);
    GateNew(OrStage(n0, a, b, g, 2), OrColour(g, 2), OrRequest(2), OrLinks(a, b, n, 2));
    assert OrLinks(a, b, n, 2)[0] == b && OrLinks(a, b, n, 2)[1] == n + 1;
    OrEdgeKept(n0, a, b, g, 3, b, n + 2);
    OrEdgeKept(n0, a, b, g, 3, n + 1, n + 2);
    GateNew(OrStage(n0, a, b, g, 3), OrColour(g, 3), OrRequest(3), OrLinks(a, b, n, 3));
    assert OrLinks(a, b, n, 3)[0] == n;
    OrEdgeKept(n0, a, b, g, 4, n + 3, n);
    GateNew(OrStage(n0, a, b, g, 4), OrColour(g, 4), OrRequest(4), OrLinks(a, b, n, 4));
    assert OrLinks(a, b, n, 4)[0] == n + 3 && OrLinks(a, b, n, 4)[1] == n + 1 && OrLinks(a, b, n, 4)[2] == n + 2;
  }

  /** The narrowing of both inputs to `{True, False}` that opens the OR gadget. */
  lemma OrInputsNarrowed(nodes: seq<Node>, a: nat, b: nat)
    requires a < |nodes| && b < |nodes|
    ensures var n0 := Narrowed(Narrowed(nodes, a, BoolLabels), b, BoolLabels);
      |n0| == |nodes| && Grows(nodes, n0) && (Symmetric(nodes) ==> Symmetric(n0)) &&
      n0[a].colour == nodes[a].colour && n0[b].colour == nodes[b].colour &&
      n0[a].whitelist <= Elements(BoolLabels) && n0[b].whitelist <= Elements(BoolLabels) &&
      (forall i :: 0 <= i < |nodes| && i != a && i != b ==> n0[i].whitelist == nodes[i].whitelist)
  {
    NarrowedKeeps(nodes, a, BoolLabels);
    NarrowedKeeps(Narrowed(nodes, a, BoolLabels), b, BoolLabels);
    GrowsTrans(nodes, Narrowed(nodes, a, BoolLabels), Narrowed(Narrowed(nodes, a, BoolLabels), b, BoolLabels));
  }

  /** The inputs keep their colours and are narrowed to `{True, False}`. */
  lemma OrInputsColours(nodes: seq<Node>, a: nat, b: nat)
    requires a < |nodes| && b < |nodes|
    ensures var n0 := Narrowed(Narrowed(nodes, a, BoolLabels), b, BoolLabels);
      |n0| == |nodes| &&
      n0[a].colour == nodes[a].colour && n0[b].colour == nodes[b].colour &&
      n0[a].whitelist <= Elements(BoolLabels) && n0[b].whitelist <= Elements(BoolLabels)
  {
  }

  /**
   * The OR gadget adds five nodes, panics exactly when `Label::or` does, and
   * only grows the arena: no colour changes, only the inputs' whitelists
   * shrink, and adjacency stays symmetric.
   */
  lemma OrBuiltShape(nodes: seq<Node>, a: nat, b: nat)
    requires a < |nodes| && b < |nodes|
    ensures OrBuilt(nodes, a, b).None? <==> Labels.Or(nodes[a].colour, nodes[b].colour).None?
    ensures OrBuilt(nodes, a, b).Some? ==>
      var n := |nodes|;
      var (h, out) := OrBuilt(nodes, a, b).value;
      out == n + 4 && |h| == n + 5 && Grows(nodes, h) &&
      (forall i :: 0 <= i < n && i != a && i != b ==> h[i].whitelist == nodes[i].whitelist) &&
      (Symmetric(nodes) ==> Symmetric(h))
  {
    var n0 := Narrowed(Narrowed(nodes, a, BoolLabels), b, BoolLabels);
    OrInputsNarrowed(nodes, a, b);
    if OrGadget(nodes[a].colour, nodes[b].colour).Some? {
      var g := OrGadget(nodes[a].colour, nodes[b].colour).value;
      OrStageGrows(n0, a, b, g, 5);
      if Symmetric(nodes) {
        OrStageSymmetric(n0, a, b, g, 5);
      }
      forall i | 0 <= i < |n0| ensures OrStage(n0, a, b, g, 5)[i].whitelist == n0[i].whitelist {
        OrStageKeeps(n0, a, b, g, i, 0, 5);
      }
      GrowsTrans(nodes, n0, OrStage(n0, a, b, g, 5));
    }
  }

  /**
   * The OR gadget in the arena: its nine edges and whitelists, and its five
   * nodes coloured by the label tables, the output with the `or` of the inputs.
   */
  lemma OrBuiltGadget(nodes: seq<Node>, a: nat, b: nat, h: seq<Node>, out: nat)
    requires a < |nodes| && b < |nodes| && OrBuilt(nodes, a, b) == Some((h, out))
    ensures var n, g := |nodes|, OrGadget(nodes[a].colour, nodes[b].colour).value;
      OrEdges(h, a, b, n) &&
      h[n].colour == g.c1 && h[n + 1].colour == g.a1 && h[n + 2].colour == g.b1 &&
      h[n + 3].colour == g.c2 && h[n + 4].colour == g.output
  {
    var n0 := Narrowed(Narrowed(nodes, a, BoolLabels), b, BoolLabels);
    var g := OrGadget(nodes[a].colour, nodes[b].colour).value;
    assert h == OrStage(n0, a, b, g, 5);
    OrInputsColours(nodes, a, b);
    OrStageGadget(n0, a, b, g, |nodes|, h);
  }

  /** The five gates over inputs already narrowed to `{True, False}` make the gadget. */
  lemma OrStageGadget(n0: seq<Node>, a: nat, b: nat, g: OrLabels, n: nat, h: seq<Node>)
    requires a < |n0| && b < |n0| && n0[a].whitelist <= Elements(BoolLabels) && n0[b].whitelist <= Elements(BoolLabels)
    requires n == |n0| && h == OrStage(n0, a, b, g, 5)
    ensures OrEdges(h, a, b, n) &&
      h[n].colour == g.c1 && h[n + 1].colour == g.a1 && h[n + 2].colour == g.b1 &&
      h[n + 3].colour == g.c2 && h[n + 4].colour == g.output
  {
    OrChainKeeps(n0, a, b, g);
    OrChainEdges(n0, a, b, g);
  }

  // ---------------------------------------------------------------------
  // The NOT gadget (src/atom_tree_to_graph.rs:94-102)
  // ---------------------------------------------------------------------

  /**
   * The arena after the NOT gadget over node `input`, and the new node;
   * `None` for the panic of `Label::not` on `Neutral`.  No edge is added.
   */
  function NotBuilt(nodes: seq<Node>, input: nat): (r: Option<(seq<Node>, nat)>)
    requires input < |nodes|
    ensures r.None? <==> nodes[input].colour == Neutral
    ensures r.Some? ==>
      var (h, out) := r.value;
      out == |nodes| && |h| == |nodes| + 1 && Grows(nodes, h) &&
      h[out] == Node([], Labels.Not(nodes[input].colour).value, Elements(BoolLabels)) &&
      h[input].whitelist == nodes[input].whitelist * Elements(BoolLabels) &&
      (forall i :: 0 <= i < |nodes| ==> h[i].connections == nodes[i].connections) &&
      (forall i :: 0 <= i < |nodes| && i != input ==> h[i].whitelist == nodes[i].whitelist)
  {
    var n1 := Narrowed(nodes, input, BoolLabels);
    match Labels.Not(n1[input].colour)
    case None => None
    case Some(res) =>
      var n2 := Appended(n1, res);
      Some((Narrowed(n2, |nodes|, BoolLabels), |nodes|))
  }

  /**
   * As written, the NOT gadget does not tie its output to its input: on a
   * single `True` seed node, colouring both the input and the output `True`
   * is a proper colouring.
   */
  lemma NotGadgetAdmitsEqualColours()
    ensures var seed := [Node([], True, AllLabelSet)];
      NotBuilt(seed, 0).Some? && NotBuilt(seed, 0).value.1 == 1 &&
      Proper(NotBuilt(seed, 0).value.0, [True, True])
  {
    var seed := [Node([], True, AllLabelSet)];
    var h := NotBuilt(seed, 0).value.0;
    assert h[0].connections == [] && h[1].connections == [];
  }

  /** The NOT gadget with the edge between input and output that makes it compute `not`. */
  function CorrectedNotBuilt(nodes: seq<Node>, input: nat): (r: Option<(seq<Node>, nat)>)
    requires input < |nodes|
    ensures r.None? <==> nodes[input].colour == Neutral
    ensures r.Some? ==> r.value.1 == |nodes| && |r.value.0| == |nodes| + 1
  {
    match NotBuilt(nodes, input)
    case None => None
    case Some((h, out)) => Some((Connected(h, input, out), out))
  }

  /**
   * The corrected gadget computes `not`: every proper colouring gives the
   * output the opposite boolean colour of the input, and so does the
   * compiler's intended colour for a boolean input.
   */
  lemma CorrectedNotGadgetForces(nodes: seq<Node>, input: nat, c: seq<Label>)
    requires input < |nodes| && CorrectedNotBuilt(nodes, input).Some?
    requires Proper(CorrectedNotBuilt(nodes, input).value.0, c)
    ensures var out := CorrectedNotBuilt(nodes, input).value.1;
      IsBool(c[input]) && c[out] == FromBool(c[input] == False)
    ensures var (h, out) := CorrectedNotBuilt(nodes, input).value;
      IsBool(nodes[input].colour) ==> h[out].colour != h[input].colour
  {
    var (h, out) := NotBuilt(nodes, input).value;
    var g := Connected(h, input, out);
    assert g[input].whitelist == h[input].whitelist <= Elements(BoolLabels);
    assert g[out].whitelist == Elements(BoolLabels);
    assert c[input] in g[input].whitelist && c[out] in g[out].whitelist;
    assert out in g[input].connections;
  }
}
