/**
 * `AtomRoot::remove_links` (src/compiler/atom_tree.rs:119-151): every
 * definition that is just another variable (an alias) or a constant is
 * substituted into all trees and deleted.  The definitions are visited in
 * hash-map order, so which aliases are taken in one round depends on that
 * order; the facts here hold for every order.
 */
module NaryLinks {
  import Tokens
  import Labels
  import opened NaryTree
  import opened NarySystem

  /** A definition `remove_links` may substitute. */
  predicate IsLink(t: Tree)
  {
    t.Variable? || t.Atom?
  }

  /** The ids that recorded aliases point to (`exclude_for_now`). */
  function Targets(subst: map<nat, Tree>): set<nat>
  {
    set id | id in subst && subst[id].Variable? :: subst[id].id
  }

  /**
   * What the scan records, for any visiting order: entries are copies of
   * link definitions; an alias target is never substituted itself (unless
   * the alias is a variable defined as itself); and every link definition
   * left out was blocked, because it is an alias target or because its own
   * target is being substituted.
   */
  predicate LinkSubst(defs: map<nat, Tree>, subst: map<nat, Tree>)
  {
    (forall id :: id in subst ==> id in defs && subst[id] == defs[id] && IsLink(defs[id])) &&
    (forall id :: id in subst && subst[id].Variable? && subst[id].id in subst ==> subst[id].id == id) &&
    (forall id :: id in defs && IsLink(defs[id]) && id !in subst ==>
      id in Targets(subst) || (defs[id].Variable? && defs[id].id in subst))
  }

  function LinkedDefs(defs: map<nat, Tree>, subst: map<nat, Tree>): map<nat, Tree>
  {
    map id | id in defs && id !in subst :: InlineVar(defs[id], subst)
  }

  function LinkedActions(actions: seq<Action>, subst: map<nat, Tree>): seq<Action>
  {
    seq(|actions|, i requires 0 <= i < |actions| => (InlineVar(actions[i].0, subst), actions[i].1))
  }

  /** Nothing is recorded exactly when no definition is a link. */
  lemma LinkSubstEmpty(defs: map<nat, Tree>, subst: map<nat, Tree>)
    requires LinkSubst(defs, subst)
    ensures subst == map[] <==> forall id :: id in defs ==> !IsLink(defs[id])
  {
    if subst == map[] {
      forall id | id in defs ensures !IsLink(defs[id]) {
        assert Targets(subst) == {};
      }
    } else {
      var id :| id in subst;
      assert id in defs && IsLink(defs[id]);
    }
  }

  /** A non-empty substitution strictly shrinks the definitions. */
  lemma LinkedDefsShrink(defs: map<nat, Tree>, subst: map<nat, Tree>)
    requires LinkSubst(defs, subst) && subst != map[]
    ensures |LinkedDefs(defs, subst)| < |defs|
  {
    var id :| id in subst;
    var rest := LinkedDefs(defs, subst).Keys;
    SubsetSize(rest, defs.Keys - {id});
  }

  lemma {:induction false} SubsetSize(a: set<nat>, b: set<nat>)
    requires a <= b
    ensures |a| <= |b|
    decreases |b|
  {
    if a != {} {
      var x :| x in a;
      SubsetSize(a - {x}, b - {x});
    }
  }

  /** The assignment that gives each substituted id the value of its entry. */
  function Extend(env: nat -> bool, subst: map<nat, Tree>, seeds: Labels.Label -> bool): nat -> bool
  {
    (x: nat) => if x in subst then Eval(subst[x], env, seeds) else env(x)
  }

  /** Outside markers, substituting is evaluating under the extended assignment. */
  lemma {:induction false} InlineVarShift(t: Tree, subst: map<nat, Tree>, env: nat -> bool, seeds: Labels.Label -> bool)
    requires MarkerFree(t)
    ensures Eval(InlineVar(t, subst), env, seeds) == Eval(t, Extend(env, subst, seeds), seeds)
  {
    match t
    case Not(a) =>
      InlineVarShift(a, subst, env, seeds);
    case Or(v) =>
      forall i | 0 <= i < |v|
        ensures Eval(InlineVar(v[i], subst), env, seeds) == Eval(v[i], Extend(env, subst, seeds), seeds)
      {
        InlineVarShift(v[i], subst, env, seeds);
      }
      assert forall i :: 0 <= i < |v| ==> InlineVar(t, subst).args[i] == InlineVar(v[i], subst);
    case _ =>
  }

  /** Every solution of the program stays a solution after `remove_links`. */
  lemma LinksKeepSolutions(defs: map<nat, Tree>, actions: seq<Action>, subst: map<nat, Tree>,
                           env: nat -> bool, seeds: Labels.Label -> bool)
    requires LinkSubst(defs, subst) && Solves(defs, actions, env, seeds)
    ensures Solves(LinkedDefs(defs, subst), LinkedActions(actions, subst), env, seeds)
  {
    forall t: Tree ensures Eval(InlineVar(t, subst), env, seeds) == Eval(t, env, seeds) {
      InlineVarEval(t, subst, env, seeds);
    }
  }

  /**
   * Every solution after `remove_links` is a solution before it once the
   * deleted variables are given the values of their links (for a program
   * without markers).
   */
  lemma LinksAddNoSolutions(defs: map<nat, Tree>, actions: seq<Action>, subst: map<nat, Tree>,
                            env: nat -> bool, seeds: Labels.Label -> bool)
    requires LinkSubst(defs, subst) && ProgramMarkerFree(defs, actions)
    requires Solves(LinkedDefs(defs, subst), LinkedActions(actions, subst), env, seeds)
    ensures Solves(defs, actions, Extend(env, subst, seeds), seeds)
  {
    var env2 := Extend(env, subst, seeds);
    forall id | id in defs && !defs[id].SeedLabel? ensures env2(id) == Eval(defs[id], env2, seeds) {
      if id in subst {
        match defs[id]
        case Variable(v) =>
          if v in subst {
            assert v == id;
          }
        case Atom(_) =>
      } else {
        InlineVarSeedRoot(defs[id], subst);
        InlineVarShift(defs[id], subst, env, seeds);
      }
    }
    var after := LinkedActions(actions, subst);
    forall i | 0 <= i < |actions| ensures RestrictionHolds(actions[i], env2, seeds) {
      InlineVarShift(actions[i].0, subst, env, seeds);
      assert RestrictionHolds(after[i], env, seeds);
    }
  }

  /**
   * With markers present, a solution after `remove_links` is a solution
   * before it as long as it also satisfies the deleted definitions:
   * substitution does not enter markers, so what is lost is exactly the tie
   * between a deleted id and its link.
   */
  lemma LinksAddOnlyDeletedFreedom(defs: map<nat, Tree>, actions: seq<Action>, subst: map<nat, Tree>,
                                   env: nat -> bool, seeds: Labels.Label -> bool)
    requires LinkSubst(defs, subst)
    requires Solves(LinkedDefs(defs, subst), LinkedActions(actions, subst), env, seeds)
    requires DefinitionsHold(subst, env, seeds)
    ensures Solves(defs, actions, env, seeds)
  {
    forall t: Tree ensures Eval(InlineVar(t, subst), env, seeds) == Eval(t, env, seeds) {
      InlineVarEval(t, subst, env, seeds);
    }
    var after := LinkedActions(actions, subst);
    forall i | 0 <= i < |actions| ensures RestrictionHolds(actions[i], env, seeds) {
      assert RestrictionHolds(after[i], env, seeds);
    }
  }

  /**
   * The tie can matter: `force` on a marked variable whose definition is
   * the constant false has no solution, but once the definition is deleted
   * the marked variable is free and the restriction can be met.
   */
  lemma MarkedLinkLosesRestriction()
    ensures var defs := map[0 := Atom(Tokens.False)];
      var actions: seq<Action> := [(Marker(Variable(0)), Restriction(Tokens.True))];
      var subst := map[0 := Atom(Tokens.False)];
      LinkSubst(defs, subst) &&
      Solves(LinkedDefs(defs, subst), LinkedActions(actions, subst), (x: nat) => true, (l: Labels.Label) => true) &&
      forall env: nat -> bool, seeds: Labels.Label -> bool :: !Solves(defs, actions, env, seeds)
  {
    var defs := map[0 := Atom(Tokens.False)];
    var actions: seq<Action> := [(Marker(Variable(0)), Restriction(Tokens.True))];
    var subst := map[0 := Atom(Tokens.False)];
    assert LinkedDefs(defs, subst) == map[];
    assert LinkedActions(actions, subst)[0] == actions[0];
    forall env: nat -> bool, seeds: Labels.Label -> bool ensures !Solves(defs, actions, env, seeds) {
      assert RestrictionHolds(actions[0], env, seeds) ==> env(0);
    }
  }

  /**
   * Without markers and without a variable defined as itself, no deleted id
   * is mentioned anywhere afterwards.
   */
  lemma LinksEliminate(defs: map<nat, Tree>, subst: map<nat, Tree>)
    requires LinkSubst(defs, subst)
    requires forall id :: id in defs ==> MarkerFree(defs[id]) && defs[id] != Variable(id)
    ensures forall id :: id in LinkedDefs(defs, subst) ==> AllVars(LinkedDefs(defs, subst)[id]) !! subst.Keys
  {
    assert forall id :: id in subst ==> AllVars(subst[id]) !! subst.Keys && MarkerFree(subst[id]);
    forall id | id in defs && id !in subst ensures AllVars(InlineVar(defs[id], subst)) !! subst.Keys {
      InlineVarEliminates(defs[id], subst);
    }
  }
}
