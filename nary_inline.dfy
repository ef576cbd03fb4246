/**
 * `AtomTree::inline_all` and `AtomRoot::inline_all`
 * (src/compiler/atom_tree.rs:21-29,295-316): every variable is replaced by
 * its fully expanded definition, except variables defined as a seed label,
 * which stay.  Expansions are memoised per id.  A variable without a
 * definition panics.
 *
 * The source recurses without bound on a cyclic definition; the model asks
 * for a ranking of the definitions under which every definition only
 * mentions lower-ranked variables.
 */
module NaryInline {
  import Labels
  import opened Wrappers
  import opened NaryTree
  import opened NarySystem

  /** Every definition mentions only defined variables of lower rank. */
  predicate Ranked(defs: map<nat, Tree>, rank: nat -> nat)
  {
    forall id, x :: id in defs && x in AllVars(defs[id]) && x in defs ==> rank(x) < rank(id)
  }

  /** Every defined variable of `t` has rank below `bound`. */
  predicate Below(defs: map<nat, Tree>, t: Tree, rank: nat -> nat, bound: nat)
  {
    forall x :: x in AllVars(t) && x in defs ==> rank(x) < bound
  }

  /** A bound above the rank of every id in `keys`. */
  ghost function RankBound(keys: set<nat>, rank: nat -> nat): (b: nat)
    ensures forall x :: x in keys ==> rank(x) < b
    decreases keys
  {
    if keys == {} then 0
    else
      var x :| x in keys;
      var b := RankBound(keys - {x}, rank);
      if rank(x) < b then b else rank(x) + 1
  }

  /**
   * The fully inlined tree, or `None` when a variable without definition
   * is reached (the source's panic).  Markers are not entered.
   */
  function Expand(defs: map<nat, Tree>, t: Tree, rank: nat -> nat, bound: nat): Option<Tree>
    requires Ranked(defs, rank) && Below(defs, t, rank, bound)
    decreases bound, t
  {
    match t
    case Variable(id) =>
      if id !in defs then None
      else if defs[id].SeedLabel? then Some(t)
      else Expand(defs, defs[id], rank, rank(id))
    case Not(a) =>
      var e := Expand(defs, a, rank, bound);
      if e.Some? then Some(Not(e.value)) else None
    case Or(v) =>
      if forall k :: 0 <= k < |v| ==> Expand(defs, v[k], rank, bound).Some?
      then Some(Or(seq(|v|, k requires 0 <= k < |v| => Expand(defs, v[k], rank, bound).value)))
      else None
    case _ => Some(t)
  }

  /** Every memo entry is the expansion of its id's definition. */
  predicate MemoSound(defs: map<nat, Tree>, memo: map<nat, Tree>, rank: nat -> nat)
    requires Ranked(defs, rank)
  {
    forall id :: id in memo ==>
      id in defs && !defs[id].SeedLabel? && Expand(defs, defs[id], rank, rank(id)) == Some(memo[id])
  }

  // ---------------------------------------------------------------------
  // Properties of the expansion
  // ---------------------------------------------------------------------

  /** Under a solution of the definitions, expanding keeps the meaning. */
  lemma {:induction false} ExpandSound(defs: map<nat, Tree>, t: Tree, rank: nat -> nat, bound: nat,
                                       env: nat -> bool, seeds: Labels.Label -> bool)
    requires Ranked(defs, rank) && Below(defs, t, rank, bound)
    requires DefinitionsHold(defs, env, seeds) && Expand(defs, t, rank, bound).Some?
    ensures Eval(Expand(defs, t, rank, bound).value, env, seeds) == Eval(t, env, seeds)
    decreases bound, t
  {
    match t
    case Variable(id) =>
      if !defs[id].SeedLabel? {
        ExpandSound(defs, defs[id], rank, rank(id), env, seeds);
      }
    case Not(a) =>
      ExpandSound(defs, a, rank, bound, env, seeds);
    case Or(v) =>
      var w := Expand(defs, t, rank, bound).value.args;
      forall k | 0 <= k < |v| ensures Eval(w[k], env, seeds) == Eval(v[k], env, seeds) {
        ExpandSound(defs, v[k], rank, bound, env, seeds);
      }
    case _ =>
  }

  /** In a marker-free program the expansion mentions only seed-defined variables. */
  lemma {:induction false} ExpandOnlySeeds(defs: map<nat, Tree>, t: Tree, rank: nat -> nat, bound: nat)
    requires Ranked(defs, rank) && Below(defs, t, rank, bound)
    requires forall id :: id in defs ==> MarkerFree(defs[id])
    requires MarkerFree(t) && Expand(defs, t, rank, bound).Some?
    ensures MarkerFree(Expand(defs, t, rank, bound).value)
    ensures forall x :: x in AllVars(Expand(defs, t, rank, bound).value) ==> x in defs && defs[x].SeedLabel?
    decreases bound, t
  {
    match t
    case Variable(id) =>
      if !defs[id].SeedLabel? {
        ExpandOnlySeeds(defs, defs[id], rank, rank(id));
      }
    case Not(a) =>
      ExpandOnlySeeds(defs, a, rank, bound);
    case Or(v) =>
      var w := Expand(defs, t, rank, bound).value.args;
      forall k | 0 <= k < |v|
        ensures MarkerFree(w[k]) && forall x :: x in AllVars(w[k]) ==> x in defs && defs[x].SeedLabel?
      {
        ExpandOnlySeeds(defs, v[k], rank, bound);
      }
      forall x | x in AllVars(Or(w)) ensures x in defs && defs[x].SeedLabel? {
        var k :| 0 <= k < |w| && x in AllVars(w[k]);
      }
    case _ =>
  }

  /** The expansion is a seed label exactly when the tree is one. */
  lemma {:induction false} ExpandKeepsSeeds(defs: map<nat, Tree>, t: Tree, rank: nat -> nat, bound: nat)
    requires Ranked(defs, rank) && Below(defs, t, rank, bound) && Expand(defs, t, rank, bound).Some?
    ensures Expand(defs, t, rank, bound).value.SeedLabel? <==> t.SeedLabel?
    decreases bound, t
  {
    if t.Variable? && !defs[t.id].SeedLabel? {
      ExpandKeepsSeeds(defs, defs[t.id], rank, rank(t.id));
    }
  }

  /** Every variable of the tree and of the definitions is defined. */
  predicate Closed(defs: map<nat, Tree>)
  {
    forall id :: id in defs ==> AllVars(defs[id]) <= defs.Keys
  }

  /** In a closed program the expansion never panics. */
  lemma {:induction false} ExpandClosed(defs: map<nat, Tree>, t: Tree, rank: nat -> nat, bound: nat)
    requires Ranked(defs, rank) && Below(defs, t, rank, bound)
    requires Closed(defs) && AllVars(t) <= defs.Keys
    ensures Expand(defs, t, rank, bound).Some?
    decreases bound, t
  {
    match t
    case Variable(id) =>
      if !defs[id].SeedLabel? {
        ExpandClosed(defs, defs[id], rank, rank(id));
      }
    case Not(a) =>
      ExpandClosed(defs, a, rank, bound);
    case Or(v) =>
      forall k | 0 <= k < |v| ensures Expand(defs, v[k], rank, bound).Some? {
        assert AllVars(v[k]) <= AllVars(t);
        ExpandClosed(defs, v[k], rank, bound);
      }
    case _ =>
  }

  /**
   * The assignment in which every non-seed variable takes the value of its
   * expanded definition.
   */
  function Inlined(defs: map<nat, Tree>, rank: nat -> nat, env: nat -> bool, seeds: Labels.Label -> bool): nat -> bool
    requires Ranked(defs, rank)
  {
    (x: nat) =>
      if x in defs && !defs[x].SeedLabel? && Expand(defs, defs[x], rank, rank(x)).Some?
      then Eval(Expand(defs, defs[x], rank, rank(x)).value, env, seeds)
      else env(x)
  }

  /** Evaluating the expansion is evaluating the tree under `Inlined`. */
  lemma {:induction false} ExpandShift(defs: map<nat, Tree>, t: Tree, rank: nat -> nat, bound: nat,
                                       env: nat -> bool, seeds: Labels.Label -> bool)
    requires Ranked(defs, rank) && Below(defs, t, rank, bound)
    requires MarkerFree(t) && Expand(defs, t, rank, bound).Some?
    ensures Eval(Expand(defs, t, rank, bound).value, env, seeds) == Eval(t, Inlined(defs, rank, env, seeds), seeds)
    decreases bound, t
  {
    match t
    case Variable(id) =>
    case Not(a) =>
      ExpandShift(defs, a, rank, bound, env, seeds);
    case Or(v) =>
      var w := Expand(defs, t, rank, bound).value.args;
      forall k | 0 <= k < |v| ensures Eval(w[k], env, seeds) == Eval(v[k], Inlined(defs, rank, env, seeds), seeds) {
        ExpandShift(defs, v[k], rank, bound, env, seeds);
      }
    case _ =>
  }

  // ---------------------------------------------------------------------
  // The memoised walk
  // ---------------------------------------------------------------------

  /**
   * `AtomTree::inline_all` on one tree, threading the memo `new_definitions`.
   * `ok` is false where the source panics.
   */
  method InlineTree(t: Tree, defs: map<nat, Tree>, memo: map<nat, Tree>, ghost rank: nat -> nat, ghost bound: nat)
    returns (ok: bool, r: Tree, memo': map<nat, Tree>)
    requires Ranked(defs, rank) && Below(defs, t, rank, bound) && MemoSound(defs, memo, rank)
    ensures ok == Expand(defs, t, rank, bound).Some?
    ensures ok ==> r == Expand(defs, t, rank, bound).value
    ensures MemoSound(defs, memo', rank) && memo.Keys <= memo'.Keys
    decreases bound, t
  {
    memo' := memo;
    match t {
      case Variable(id) =>
        if id in memo {
          return true, memo[id], memo;
        }
        if id !in defs {
          return false, t, memo;
        }
        var definition := defs[id];
        if definition.SeedLabel? {
          return true, t, memo;
        }
        var e;
        ok, e, memo' := InlineTree(definition, defs, memo, rank, rank(id));
        if !ok {
          return ok, t, memo';
        }
        memo' := memo'[id := e];
        r := e;
      case Not(a) =>
        var e;
        ok, e, memo' := InlineTree(a, defs, memo, rank, bound);
        r := Not(e);
      case Or(v) =>
        var w: seq<Tree> := [];
        var i := 0;
        while i < |v|
          invariant 0 <= i <= |v| && |w| == i
          invariant forall k :: 0 <= k < i ==> Expand(defs, v[k], rank, bound) == Some(w[k])
          invariant MemoSound(defs, memo', rank) && memo.Keys <= memo'.Keys
        {
          assert AllVars(v[i]) <= AllVars(t);
          var e;
          ok, e, memo' := InlineTree(v[i], defs, memo', rank, bound);
          if !ok {
            return ok, t, memo';
          }
          w := w + [e];
          i := i + 1;
        }
        ok, r := true, Or(w);
      case _ =>
        ok, r := true, t;
    }
  }

  // ---------------------------------------------------------------------
  // The pass over the whole program
  // ---------------------------------------------------------------------

  /** The definitions `AtomRoot::inline_all` keeps: the seed labels. */
  function SeedDefs(defs: map<nat, Tree>): map<nat, Tree>
  {
    map id | id in defs && defs[id].SeedLabel? :: defs[id]
  }

  /** The pass does not panic: every tree expands. */
  ghost predicate AllExpand(defs: map<nat, Tree>, actions: seq<Action>, rank: nat -> nat)
    requires Ranked(defs, rank)
  {
    (forall id :: id in defs ==> Expand(defs, defs[id], rank, rank(id)).Some?) &&
    (forall i :: 0 <= i < |actions| ==> Expand(defs, actions[i].0, rank, RankBound(defs.Keys, rank)).Some?)
  }

  ghost function ExpandedActions(defs: map<nat, Tree>, actions: seq<Action>, rank: nat -> nat): seq<Action>
    requires Ranked(defs, rank) && AllExpand(defs, actions, rank)
  {
    seq(|actions|, i requires 0 <= i < |actions| =>
      (Expand(defs, actions[i].0, rank, RankBound(defs.Keys, rank)).value, actions[i].1))
  }

  /** Every solution of the program is a solution after inlining. */
  lemma InlineAllKeepsSolutions(defs: map<nat, Tree>, actions: seq<Action>, rank: nat -> nat,
                                env: nat -> bool, seeds: Labels.Label -> bool)
    requires Ranked(defs, rank) && AllExpand(defs, actions, rank) && Solves(defs, actions, env, seeds)
    ensures Solves(SeedDefs(defs), ExpandedActions(defs, actions, rank), env, seeds)
  {
    var after := ExpandedActions(defs, actions, rank);
    forall i | 0 <= i < |actions| ensures RestrictionHolds(after[i], env, seeds) {
      ExpandSound(defs, actions[i].0, rank, RankBound(defs.Keys, rank), env, seeds);
      assert RestrictionHolds(actions[i], env, seeds);
    }
  }

  /**
   * Every solution after inlining solves the original program once the
   * inlined variables take the values of their expansions.
   */
  lemma InlineAllAddsNoSolutions(defs: map<nat, Tree>, actions: seq<Action>, rank: nat -> nat,
                                 env: nat -> bool, seeds: Labels.Label -> bool)
    requires Ranked(defs, rank) && AllExpand(defs, actions, rank) && ProgramMarkerFree(defs, actions)
    requires Solves(SeedDefs(defs), ExpandedActions(defs, actions, rank), env, seeds)
    ensures Solves(defs, actions, Inlined(defs, rank, env, seeds), seeds)
  {
    var env2 := Inlined(defs, rank, env, seeds);
    forall id | id in defs && !defs[id].SeedLabel? ensures env2(id) == Eval(defs[id], env2, seeds) {
      ExpandShift(defs, defs[id], rank, rank(id), env, seeds);
    }
    var after := ExpandedActions(defs, actions, rank);
    forall i | 0 <= i < |actions| ensures RestrictionHolds(actions[i], env2, seeds) {
      ExpandShift(defs, actions[i].0, rank, RankBound(defs.Keys, rank), env, seeds);
      assert RestrictionHolds(after[i], env, seeds);
    }
  }

  /** In a marker-free program, after inlining only seed-defined variables are mentioned. */
  lemma InlineAllOnlySeeds(defs: map<nat, Tree>, actions: seq<Action>, rank: nat -> nat)
    requires Ranked(defs, rank) && AllExpand(defs, actions, rank) && ProgramMarkerFree(defs, actions)
    ensures forall i, x :: 0 <= i < |actions| && x in AllVars(ExpandedActions(defs, actions, rank)[i].0) ==>
      x in SeedDefs(defs)
  {
    var after := ExpandedActions(defs, actions, rank);
    forall i, x | 0 <= i < |actions| && x in AllVars(after[i].0) ensures x in SeedDefs(defs) {
      ExpandOnlySeeds(defs, actions[i].0, rank, RankBound(defs.Keys, rank));
    }
  }
}
