/**
 * `AtomTree::outline_common_expressions` (src/compiler/atom_tree.rs:271-293):
 * bottom-up, every subtree that is not a variable is replaced by a
 * variable.  A subtree equal (by the custom equality) to one met before
 * gets that one's id; otherwise the counter is raised and the subtree is
 * recorded under the new id.  The `outlined` hash map is modelled as an
 * association list searched with that equality.
 */
module NaryOutline {
  import Labels
  import opened Wrappers
  import opened NaryTree
  import opened NarySystem

  /** `outlined`: recorded subtrees with their ids, in recording order. */
  type Table = seq<(Tree, nat)>

  datatype Outlined = Outlined(tree: Tree, table: Table, count: nat)
  datatype OutlinedSeq = OutlinedSeq(trees: seq<Tree>, table: Table, count: nat)

  /** `outlined.get(t)`: the id of a recorded subtree equal to `t`. */
  function Lookup(table: Table, t: Tree): (r: Option<nat>)
    ensures r.Some? <==> exists k :: 0 <= k < |table| && Eq(t, table[k].0)
    ensures r.Some? ==> exists k :: 0 <= k < |table| && Eq(t, table[k].0) && table[k].1 == r.value
  {
    if table == [] then None
    else if Eq(t, table[0].0) then Some(table[0].1)
    else
      var r := Lookup(table[1..], t);
      assert forall k :: 1 <= k < |table| ==> table[1..][k - 1] == table[k];
      r
  }

  /** The node (children already outlined) is looked up, or recorded under a fresh id. */
  function Place(n: Tree, table: Table, count: nat): Outlined
  {
    match Lookup(table, n)
    case Some(id) => Outlined(Variable(id), table, count)
    case None => Outlined(Variable(count + 1), table + [(n, count + 1)], count + 1)
  }

  function OutlineTree(t: Tree, table: Table, count: nat): Outlined
    decreases t, 0
  {
    match t
    case Variable(_) => Outlined(t, table, count)
    case Not(a) =>
      var o := OutlineTree(a, table, count);
      Place(Not(o.tree), o.table, o.count)
    case Or(v) =>
      var o := OutlineSeq(v, table, count);
      Place(Or(o.trees), o.table, o.count)
    case _ => Place(t, table, count)
  }

  function OutlineSeq(v: seq<Tree>, table: Table, count: nat): (o: OutlinedSeq)
    ensures |o.trees| == |v|
    decreases v, 1
  {
    if v == [] then OutlinedSeq([], table, count)
    else
      var x := OutlineTree(v[0], table, count);
      var xs := OutlineSeq(v[1..], x.table, x.count);
      OutlinedSeq([x.tree] + xs.trees, xs.table, xs.count)
  }

  // ---------------------------------------------------------------------
  // Shape of the table
  // ---------------------------------------------------------------------

  /** Entry `k` of the table carries id `base + 1 + k`. */
  predicate Numbered(table: Table, base: nat, count: nat)
  {
    count == base + |table| && forall k :: 0 <= k < |table| ==> table[k].1 == base + 1 + k
  }

  /** No two entries are equal: equal subtrees share one id. */
  predicate DistinctKeys(table: Table)
  {
    forall k, m :: 0 <= k < |table| && 0 <= m < |table| && k != m ==> !Eq(table[k].0, table[m].0)
  }

  /** A recorded negation or disjunction has only variables as children. */
  predicate Shallow(t: Tree)
  {
    match t
    case Not(a) => a.Variable?
    case Or(v) => forall i :: 0 <= i < |v| ==> v[i].Variable?
    case _ => true
  }

  predicate WellFormed(table: Table, base: nat, count: nat)
  {
    Numbered(table, base, count) && DistinctKeys(table) &&
    forall k :: 0 <= k < |table| ==> Shallow(table[k].0)
  }

  lemma NotEqSymmetric(a: Tree, b: Tree)
    requires !Eq(a, b)
    ensures !Eq(b, a)
  {
    if Eq(b, a) {
      EqSymmetric(b, a);
    }
  }

  lemma PlaceShape(n: Tree, table: Table, base: nat, count: nat)
    requires WellFormed(table, base, count) && Shallow(n)
    ensures var o := Place(n, table, count);
      WellFormed(o.table, base, o.count) && table <= o.table && o.tree.Variable? && base < o.tree.id <= o.count
  {
    var o := Place(n, table, count);
    if Lookup(table, n).None? {
      forall k, m | 0 <= k < |o.table| && 0 <= m < |o.table| && k != m ensures !Eq(o.table[k].0, o.table[m].0) {
        if m == |table| {
          assert o.table[m].0 == n;
          NotEqSymmetric(n, o.table[k].0);
        } else if k == |table| {
          assert o.table[k].0 == n;
        }
      }
    } else {
      var k :| 0 <= k < |table| && Eq(n, table[k].0) && table[k].1 == o.tree.id;
    }
  }

  /**
   * Every non-variable subtree becomes a variable whose id is above `base`;
   * the table only grows, stays numbered from `base`, keeps distinct keys
   * and records only nodes whose children are variables.
   */
  lemma {:induction false} OutlineShape(t: Tree, table: Table, base: nat, count: nat)
    requires WellFormed(table, base, count)
    ensures var o := OutlineTree(t, table, count);
      WellFormed(o.table, base, o.count) && table <= o.table && o.tree.Variable? &&
      (t.Variable? ==> o.tree == t) && (!t.Variable? ==> base < o.tree.id <= o.count)
    decreases t, 0
  {
    match t
    case Variable(_) =>
    case Not(a) =>
      OutlineShape(a, table, base, count);
      var o := OutlineTree(a, table, count);
      PlaceShape(Not(o.tree), o.table, base, o.count);
    case Or(v) =>
      OutlineSeqShape(v, table, base, count);
      var o := OutlineSeq(v, table, count);
      PlaceShape(Or(o.trees), o.table, base, o.count);
    case _ =>
      PlaceShape(t, table, base, count);
  }

  lemma {:induction false} OutlineSeqShape(v: seq<Tree>, table: Table, base: nat, count: nat)
    requires WellFormed(table, base, count)
    ensures var o := OutlineSeq(v, table, count);
      WellFormed(o.table, base, o.count) && table <= o.table &&
      forall i :: 0 <= i < |v| ==> o.trees[i].Variable?
    decreases v, 1
  {
    if v != [] {
      OutlineShape(v[0], table, base, count);
      var x := OutlineTree(v[0], table, count);
      OutlineSeqShape(v[1..], x.table, base, x.count);
    }
  }

  // ---------------------------------------------------------------------
  // Seeds: the pass never records a bare seed label
  // ---------------------------------------------------------------------

  /** No recorded subtree is a seed label. */
  predicate NoSeedEntries(table: Table)
  {
    forall k :: 0 <= k < |table| ==> !table[k].0.SeedLabel?
  }

  lemma PlaceNoSeedEntries(n: Tree, table: Table, count: nat)
    requires NoSeedEntries(table) && !n.SeedLabel?
    ensures NoSeedEntries(Place(n, table, count).table)
  {
    var o := Place(n, table, count);
    if Lookup(table, n).None? {
      assert forall k :: 0 <= k < |table| ==> o.table[k] == table[k];
    }
  }

  /** Outlining a tree with no seed label inside records no seed label. */
  lemma {:induction false} OutlineNoSeedEntries(t: Tree, table: Table, count: nat)
    requires NoSeedEntries(table) && SeedFree(t)
    ensures NoSeedEntries(OutlineTree(t, table, count).table)
    decreases t, 0
  {
    match t
    case Variable(_) =>
    case Not(a) =>
      OutlineNoSeedEntries(a, table, count);
      var o := OutlineTree(a, table, count);
      PlaceNoSeedEntries(Not(o.tree), o.table, o.count);
    case Or(v) =>
      OutlineSeqNoSeedEntries(v, table, count);
      var o := OutlineSeq(v, table, count);
      PlaceNoSeedEntries(Or(o.trees), o.table, o.count);
    case _ =>
      PlaceNoSeedEntries(t, table, count);
  }

  lemma {:induction false} OutlineSeqNoSeedEntries(v: seq<Tree>, table: Table, count: nat)
    requires NoSeedEntries(table) && forall i :: 0 <= i < |v| ==> SeedFree(v[i])
    ensures NoSeedEntries(OutlineSeq(v, table, count).table)
    decreases v, 1
  {
    if v != [] {
      OutlineNoSeedEntries(v[0], table, count);
      var x := OutlineTree(v[0], table, count);
      OutlineSeqNoSeedEntries(v[1..], x.table, x.count);
    }
  }

  // ---------------------------------------------------------------------
  // Layering: a recorded node refers only to original ids and earlier entries
  // ---------------------------------------------------------------------

  /** Every variable of `t` is at most `n`. */
  predicate VarsAtMost(t: Tree, n: nat)
  {
    forall x :: x in AllVars(t) ==> x <= n
  }

  /** Entry `k` mentions only ids up to `base + k`: original ids and the ids of earlier entries. */
  predicate Layered(table: Table, base: nat)
  {
    forall k :: 0 <= k < |table| ==> VarsAtMost(table[k].0, base + k)
  }

  /** Every tree of the program mentions only ids up to `base`. */
  predicate TreesBelow(defs: map<nat, Tree>, actions: seq<Action>, base: nat)
  {
    (forall id :: id in defs ==> VarsAtMost(defs[id], base)) &&
    (forall i :: 0 <= i < |actions| ==> VarsAtMost(actions[i].0, base))
  }

  lemma PlaceLayered(n: Tree, table: Table, base: nat, count: nat)
    requires WellFormed(table, base, count) && Layered(table, base) && VarsAtMost(n, count)
    ensures Layered(Place(n, table, count).table, base)
  {
    var o := Place(n, table, count);
    if Lookup(table, n).None? {
      assert forall k :: 0 <= k < |table| ==> o.table[k] == table[k];
      assert o.table[|table|].0 == n;
    }
  }

  /**
   * Outlining a tree that mentions only ids up to `count` keeps the table
   * layered, and the variable it returns is at most the new counter.
   */
  lemma {:induction false} OutlineLayered(t: Tree, table: Table, base: nat, count: nat)
    requires WellFormed(table, base, count) && Layered(table, base) && VarsAtMost(t, count)
    ensures var o := OutlineTree(t, table, count);
      Layered(o.table, base) && VarsAtMost(o.tree, o.count)
    decreases t, 0
  {
    OutlineShape(t, table, base, count);
    match t
    case Variable(_) =>
    case Not(a) =>
      assert AllVars(a) == AllVars(t);
      OutlineLayered(a, table, base, count);
      OutlineShape(a, table, base, count);
      var o := OutlineTree(a, table, count);
      PlaceLayered(Not(o.tree), o.table, base, o.count);
    case Or(v) =>
      forall i | 0 <= i < |v| ensures VarsAtMost(v[i], count) {
        assert forall x :: x in AllVars(v[i]) ==> x in AllVars(t);
      }
      OutlineSeqLayered(v, table, base, count);
      OutlineSeqShape(v, table, base, count);
      var o := OutlineSeq(v, table, count);
      assert VarsAtMost(Or(o.trees), o.count) by {
        forall x | x in AllVars(Or(o.trees)) ensures x <= o.count {
          var i :| 0 <= i < |o.trees| && x in AllVars(o.trees[i]);
        }
      }
      PlaceLayered(Or(o.trees), o.table, base, o.count);
    case _ =>
      PlaceLayered(t, table, base, count);
  }

  lemma {:induction false} OutlineSeqLayered(v: seq<Tree>, table: Table, base: nat, count: nat)
    requires WellFormed(table, base, count) && Layered(table, base)
    requires forall i :: 0 <= i < |v| ==> VarsAtMost(v[i], count)
    ensures var o := OutlineSeq(v, table, count);
      Layered(o.table, base) && forall i :: 0 <= i < |v| ==> VarsAtMost(o.trees[i], o.count)
    decreases v, 1
  {
    if v != [] {
      OutlineLayered(v[0], table, base, count);
      OutlineShape(v[0], table, base, count);
      var x := OutlineTree(v[0], table, count);
      var xs := OutlineSeq(v[1..], x.table, x.count);
      OutlineSeqLayered(v[1..], x.table, base, x.count);
      OutlineSeqShape(v[1..], x.table, base, x.count);
      var o := OutlineSeq(v, table, count);
      assert forall i :: 1 <= i < |v| ==> o.trees[i] == xs.trees[i - 1];
    }
  }

  // ---------------------------------------------------------------------
  // Meaning
  // ---------------------------------------------------------------------

  /** Every recorded id holds the value of its recorded subtree. */
  predicate TableHolds(table: Table, env: nat -> bool, seeds: Labels.Label -> bool)
  {
    forall k :: 0 <= k < |table| ==> env(table[k].1) == Eval(table[k].0, env, seeds)
  }

  lemma PlaceSound(n: Tree, table: Table, count: nat, final: Table, env: nat -> bool, seeds: Labels.Label -> bool)
    requires Place(n, table, count).table <= final && TableHolds(final, env, seeds)
    ensures Eval(Place(n, table, count).tree, env, seeds) == Eval(n, env, seeds)
  {
    var o := Place(n, table, count);
    if Lookup(table, n).Some? {
      var k :| 0 <= k < |table| && Eq(n, table[k].0) && table[k].1 == o.tree.id;
      EqSound(n, table[k].0, env, seeds);
      assert final[k] == table[k];
    } else {
      assert final[|table|] == (n, count + 1);
    }
  }

  /**
   * Outlining keeps the meaning of the tree under every assignment that
   * gives each recorded id the value of its subtree (in the final table).
   */
  lemma {:induction false} OutlineSound(t: Tree, table: Table, count: nat, final: Table,
                                        env: nat -> bool, seeds: Labels.Label -> bool)
    requires OutlineTree(t, table, count).table <= final && TableHolds(final, env, seeds)
    ensures Eval(OutlineTree(t, table, count).tree, env, seeds) == Eval(t, env, seeds)
    decreases t, 0
  {
    match t
    case Variable(_) =>
    case Not(a) =>
      var o := OutlineTree(a, table, count);
      PlaceGrows(Not(o.tree), o.table, o.count);
      OutlineSound(a, table, count, final, env, seeds);
      PlaceSound(Not(o.tree), o.table, o.count, final, env, seeds);
    case Or(v) =>
      var o := OutlineSeq(v, table, count);
      PlaceGrows(Or(o.trees), o.table, o.count);
      OutlineSeqSound(v, table, count, final, env, seeds);
      PlaceSound(Or(o.trees), o.table, o.count, final, env, seeds);
    case _ =>
      PlaceSound(t, table, count, final, env, seeds);
  }

  lemma {:induction false} OutlineSeqSound(v: seq<Tree>, table: Table, count: nat, final: Table,
                                           env: nat -> bool, seeds: Labels.Label -> bool)
    requires OutlineSeq(v, table, count).table <= final && TableHolds(final, env, seeds)
    ensures forall i :: 0 <= i < |v| ==> Eval(OutlineSeq(v, table, count).trees[i], env, seeds) == Eval(v[i], env, seeds)
    decreases v, 1
  {
    if v != [] {
      var x := OutlineTree(v[0], table, count);
      OutlineSeqGrows(v[1..], x.table, x.count);
      OutlineSound(v[0], table, count, final, env, seeds);
      OutlineSeqSound(v[1..], x.table, x.count, final, env, seeds);
      var o := OutlineSeq(v, table, count);
      assert forall i :: 1 <= i < |v| ==> o.trees[i] == OutlineSeq(v[1..], x.table, x.count).trees[i - 1];
    }
  }

  lemma PlaceGrows(n: Tree, table: Table, count: nat)
    ensures table <= Place(n, table, count).table
  {
  }

  lemma {:induction false} OutlineGrows(t: Tree, table: Table, count: nat)
    ensures table <= OutlineTree(t, table, count).table
    decreases t, 0
  {
    match t
    case Variable(_) =>
    case Not(a) =>
      OutlineGrows(a, table, count);
    case Or(v) =>
      OutlineSeqGrows(v, table, count);
    case _ =>
  }

  lemma {:induction false} OutlineSeqGrows(v: seq<Tree>, table: Table, count: nat)
    ensures table <= OutlineSeq(v, table, count).table
    decreases v, 1
  {
    if v != [] {
      OutlineGrows(v[0], table, count);
      var x := OutlineTree(v[0], table, count);
      OutlineSeqGrows(v[1..], x.table, x.count);
    }
  }

  // ---------------------------------------------------------------------
  // The pass over the whole program
  // ---------------------------------------------------------------------

  /** The definitions inserted for the table: id `table[k].1` := `table[k].0`. */
  function TableDefs(table: Table): map<nat, Tree>
  {
    if table == [] then map[]
    else TableDefs(table[..|table| - 1])[table[|table| - 1].1 := table[|table| - 1].0]
  }

  lemma {:induction false} TableDefsShape(table: Table, base: nat)
    requires Numbered(table, base, base + |table|)
    ensures forall id :: id in TableDefs(table) <==> base < id <= base + |table|
    ensures forall k :: 0 <= k < |table| ==> TableDefs(table)[table[k].1] == table[k].0
  {
    if table != [] {
      var pre := table[..|table| - 1];
      assert forall k :: 0 <= k < |pre| ==> pre[k] == table[k];
      TableDefsShape(pre, base);
    }
  }

  /** `r` means what `t` means wherever the table's ids hold their subtrees. */
  ghost predicate SameUnder(table: Table, t: Tree, r: Tree)
  {
    forall env: nat -> bool, seeds: Labels.Label -> bool ::
      TableHolds(table, env, seeds) ==> Eval(r, env, seeds) == Eval(t, env, seeds)
  }

  /** What the pass does to one root tree: seed labels are skipped, everything else becomes a variable. */
  ghost predicate Outlines(table: Table, t: Tree, r: Tree)
  {
    (t.SeedLabel? ==> r == t) && (!t.SeedLabel? ==> r.Variable?) && (t.Variable? ==> r == t) &&
    SameUnder(table, t, r)
  }

  lemma OutlinesGrow(table: Table, bigger: Table, t: Tree, r: Tree)
    requires Outlines(table, t, r) && table <= bigger
    ensures Outlines(bigger, t, r)
  {
    forall env: nat -> bool, seeds: Labels.Label -> bool | TableHolds(bigger, env, seeds)
      ensures Eval(r, env, seeds) == Eval(t, env, seeds)
    {
      assert forall k :: 0 <= k < |table| ==> bigger[k] == table[k];
      assert TableHolds(table, env, seeds);
    }
  }

  /** One root tree outlined against the current table. */
  lemma OutlineRoot(t: Tree, table: Table, base: nat, count: nat)
    requires WellFormed(table, base, count) && !t.SeedLabel?
    ensures var o := OutlineTree(t, table, count);
      WellFormed(o.table, base, o.count) && table <= o.table && Outlines(o.table, t, o.tree)
  {
    var o := OutlineTree(t, table, count);
    OutlineShape(t, table, base, count);
    forall env: nat -> bool, seeds: Labels.Label -> bool | TableHolds(o.table, env, seeds)
      ensures Eval(o.tree, env, seeds) == Eval(t, env, seeds)
    {
      OutlineSound(t, table, count, o.table, env, seeds);
    }
  }

  /**
   * Outlining adds no solutions: when the table's ids are fresh (above every
   * existing id), a solution of the outlined program solves the original.
   */
  lemma OutlineAddsNoSolutions(defs: map<nat, Tree>, actions: seq<Action>, table: Table, base: nat,
                               rewritten: map<nat, Tree>, after: seq<Action>,
                               env: nat -> bool, seeds: Labels.Label -> bool)
    requires forall id :: id in defs ==> id <= base
    requires WellFormed(table, base, base + |table|) && NoSeedEntries(table)
    requires rewritten.Keys == defs.Keys && forall id :: id in defs ==> Outlines(table, defs[id], rewritten[id])
    requires |after| == |actions|
    requires forall i :: 0 <= i < |actions| ==> after[i].1 == actions[i].1 && Outlines(table, actions[i].0, after[i].0)
    requires Solves(rewritten + TableDefs(table), after, env, seeds)
    ensures Solves(defs, actions, env, seeds)
  {
    var all := rewritten + TableDefs(table);
    TableDefsShape(table, base);
    forall k | 0 <= k < |table| ensures env(table[k].1) == Eval(table[k].0, env, seeds) {
      assert all[table[k].1] == table[k].0;
    }
    assert TableHolds(table, env, seeds);
    forall id | id in defs && !defs[id].SeedLabel? ensures env(id) == Eval(defs[id], env, seeds) {
      assert id !in TableDefs(table);
      assert all[id] == rewritten[id];
    }
    forall i | 0 <= i < |actions| ensures RestrictionHolds(actions[i], env, seeds) {
      assert RestrictionHolds(after[i], env, seeds);
    }
  }

  /** Variables outside `t` do not matter to its value. */
  lemma {:induction false} EvalAgrees(t: Tree, e1: nat -> bool, e2: nat -> bool, seeds: Labels.Label -> bool)
    requires forall x :: x in AllVars(t) ==> e1(x) == e2(x)
    ensures Eval(t, e1, seeds) == Eval(t, e2, seeds)
  {
    match t
    case Marker(m) =>
      EvalAgrees(m, e1, e2, seeds);
    case Not(a) =>
      EvalAgrees(a, e1, e2, seeds);
    case Or(v) =>
      forall i | 0 <= i < |v| ensures Eval(v[i], e1, seeds) == Eval(v[i], e2, seeds) {
        assert forall x :: x in AllVars(v[i]) ==> x in AllVars(t);
        EvalAgrees(v[i], e1, e2, seeds);
      }
    case _ =>
  }

  /** `env` with the table's ids assigned in recording order, each to the value of its node. */
  ghost function Extend(table: Table, env: nat -> bool, seeds: Labels.Label -> bool): nat -> bool
    decreases |table|
  {
    if table == [] then env
    else
      var pre := Extend(table[..|table| - 1], env, seeds);
      var last := table[|table| - 1];
      (id: nat) => if id == last.1 then Eval(last.0, pre, seeds) else pre(id)
  }

  /** On a layered table, `Extend` keeps the original ids and makes every entry hold. */
  lemma {:induction false} ExtendHolds(table: Table, base: nat, env: nat -> bool, seeds: Labels.Label -> bool)
    requires Numbered(table, base, base + |table|) && Layered(table, base)
    ensures forall id: nat :: id <= base ==> Extend(table, env, seeds)(id) == env(id)
    ensures TableHolds(table, Extend(table, env, seeds), seeds)
    decreases |table|
  {
    if table != [] {
      var pre := table[..|table| - 1];
      assert forall k :: 0 <= k < |pre| ==> pre[k] == table[k];
      ExtendHolds(pre, base, env, seeds);
      var e0 := Extend(pre, env, seeds);
      var e := Extend(table, env, seeds);
      var last := table[|table| - 1];
      assert forall id :: id != last.1 ==> e(id) == e0(id);
      forall k | 0 <= k < |table| ensures e(table[k].1) == Eval(table[k].0, e, seeds) {
        assert VarsAtMost(table[k].0, base + k);
        EvalAgrees(table[k].0, e0, e, seeds);
      }
    }
  }

  /**
   * Outlining loses no solutions: when every tree of the original program
   * mentions only ids up to `base` and the table is layered, a solution of
   * the original program becomes one of the outlined program once each
   * table id is given the value of its node; the original ids keep their
   * values.
   */
  lemma OutlineKeepsSolutions(defs: map<nat, Tree>, actions: seq<Action>, table: Table, base: nat,
                              rewritten: map<nat, Tree>, after: seq<Action>,
                              env: nat -> bool, seeds: Labels.Label -> bool)
    requires forall id :: id in defs ==> id <= base
    requires TreesBelow(defs, actions, base)
    requires WellFormed(table, base, base + |table|) && Layered(table, base)
    requires rewritten.Keys == defs.Keys && forall id :: id in defs ==> Outlines(table, defs[id], rewritten[id])
    requires |after| == |actions|
    requires forall i :: 0 <= i < |actions| ==> after[i].1 == actions[i].1 && Outlines(table, actions[i].0, after[i].0)
    requires Solves(defs, actions, env, seeds)
    ensures forall id: nat :: id <= base ==> Extend(table, env, seeds)(id) == env(id)
    ensures Solves(rewritten + TableDefs(table), after, Extend(table, env, seeds), seeds)
  {
    var e := Extend(table, env, seeds);
    var all := rewritten + TableDefs(table);
    ExtendHolds(table, base, env, seeds);
    TableDefsShape(table, base);
    forall id | id in all && !all[id].SeedLabel? ensures e(id) == Eval(all[id], e, seeds) {
      if id in TableDefs(table) {
        var k: nat := id - base - 1;
        assert table[k].1 == id;
        assert all[id] == table[k].0;
      } else {
        assert all[id] == rewritten[id];
        assert !defs[id].SeedLabel?;
        EvalAgrees(defs[id], env, e, seeds);
      }
    }
    forall i | 0 <= i < |after| ensures RestrictionHolds(after[i], e, seeds) {
      EvalAgrees(actions[i].0, env, e, seeds);
      assert RestrictionHolds(actions[i], env, seeds);
    }
  }
}
