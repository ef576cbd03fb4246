/**
 * The program held by the binary-`Or` `AtomRoot` (src/atom_tree.rs), what a
 * solution of it is, and `simp_force` (src/atom_tree.rs:22-70) as a
 * specification over it.
 *
 * Unlike the n-ary pass, this one reports a satisfied constant restriction
 * with an info diagnostic, splits a binary `Or` into exactly two
 * restrictions, and leaves the markers it introduced in place: only
 * `finalize_simp` removes them.
 */
module BinaryForce {
  import Tokens
  import Labels
  import Diagnostics
  import opened Wrappers
  import opened BinaryTree
  import IndexRemoval

  /** `ValueAction` of this IR: an output request, or `force tree => constant`. */
  datatype ValueAction = Output(text: string) | Restriction(atom: Tokens.AtomType)

  type Action = (Tree, ValueAction)

  /**
   * Every variable equals its definition, except a variable defined as a
   * seed: that one is an input of the program and takes any value, whatever
   * its label says (the graph encoder gives each seed its own free node).
   */
  predicate DefinitionsHold(defs: map<nat, Tree>, env: nat -> bool, seeds: Labels.Label -> bool)
  {
    forall id :: id in defs && !defs[id].SeedLabel? ==> env(id) == Eval(defs[id], env, seeds)
  }

  predicate RestrictionHolds(a: Action, env: nat -> bool, seeds: Labels.Label -> bool)
  {
    a.1.Restriction? ==> Eval(a.0, env, seeds) == Tokens.ToBool(a.1.atom)
  }

  predicate RestrictionsHold(actions: seq<Action>, env: nat -> bool, seeds: Labels.Label -> bool)
  {
    forall i :: 0 <= i < |actions| ==> RestrictionHolds(actions[i], env, seeds)
  }

  /** `env` (with `seeds` for the seed labels) is a solution of the program. */
  predicate Solves(defs: map<nat, Tree>, actions: seq<Action>, env: nat -> bool, seeds: Labels.Label -> bool)
  {
    DefinitionsHold(defs, env, seeds) && RestrictionsHold(actions, env, seeds)
  }

  /**
   * Seeds stand alone: a seed is only ever a whole definition, never part of
   * a larger tree or of an action tree, which is how a seed variable is
   * defined; it keeps each seed a separate input through the passes.
   */
  predicate SeedsStandAlone(defs: map<nat, Tree>, actions: seq<Action>)
  {
    (forall id :: id in defs ==> defs[id].SeedLabel? || SeedFree(defs[id])) &&
    (forall i :: 0 <= i < |actions| ==> SeedFree(actions[i].0))
  }

  predicate ProgramMarkerFree(defs: map<nat, Tree>, actions: seq<Action>)
  {
    (forall id :: id in defs ==> MarkerFree(defs[id])) &&
    (forall i :: 0 <= i < |actions| ==> MarkerFree(actions[i].0))
  }

  function MapDefs(defs: map<nat, Tree>, f: Tree -> Tree): map<nat, Tree>
  {
    map id | id in defs :: f(defs[id])
  }

  function MapActions(actions: seq<Action>, f: Tree -> Tree): seq<Action>
  {
    seq(|actions|, i requires 0 <= i < |actions| => (f(actions[i].0), actions[i].1))
  }

  lemma RestrictionsHoldAppend(a: seq<Action>, b: seq<Action>, env: nat -> bool, seeds: Labels.Label -> bool)
    ensures RestrictionsHold(a + b, env, seeds) <==> RestrictionsHold(a, env, seeds) && RestrictionsHold(b, env, seeds)
  {
    if RestrictionsHold(a, env, seeds) && RestrictionsHold(b, env, seeds) {
      forall i | 0 <= i < |a + b| ensures RestrictionHolds((a + b)[i], env, seeds) {
        if i >= |a| {
          assert (a + b)[i] == b[i - |a|];
        } else {
          assert (a + b)[i] == a[i];
        }
      }
    }
    if RestrictionsHold(a + b, env, seeds) {
      forall i | 0 <= i < |a| ensures RestrictionHolds(a[i], env, seeds) {
        assert (a + b)[i] == a[i];
      }
      forall i | 0 <= i < |b| ensures RestrictionHolds(b[i], env, seeds) {
        assert (a + b)[|a| + i] == b[i];
      }
    }
  }

  // ---------------------------------------------------------------------
  // The scan
  // ---------------------------------------------------------------------

  const SatisfiedMessage := "Force statement is trivially always successful."
  const UnsolvableMessage := "Force statement makes graph trivially unsolvable."

  /** The action as the scan leaves it in place. */
  function Rewrite(a: Action): Action
  {
    match a.1
    case Output(_) => a
    case Restriction(t) =>
      match a.0
      case Variable(id) => (Marker(Variable(id)), a.1)
      case Not(x) => (x, Restriction(Tokens.Not(t)))
      case _ => a
  }

  predicate IsOrFalse(a: Action)
  {
    a.1.Restriction? && a.0.Or? && a.1.atom == Tokens.False
  }

  /** `force c => c`. */
  predicate Satisfied(a: Action)
  {
    a.1.Restriction? && a.0.Atom? && a.0.atom == a.1.atom
  }

  /** `force c => d` with `c != d`. */
  predicate Contradicted(a: Action)
  {
    a.1.Restriction? && a.0.Atom? && a.0.atom != a.1.atom
  }

  predicate Dropped(a: Action)
  {
    IsOrFalse(a) || Satisfied(a)
  }

  predicate Reported(a: Action)
  {
    a.1.Restriction? && (a.0.Not? || IsOrFalse(a))
  }

  /** The two restrictions appended for `force Or(a, b) => false`. */
  function Split(a: Action): (r: seq<Action>)
    ensures |r| <= 2
  {
    if IsOrFalse(a) then [(a.0.left, Restriction(Tokens.False)), (a.0.right, Restriction(Tokens.False))] else []
  }

  function SplitAll(actions: seq<Action>): seq<Action>
  {
    if actions == [] then [] else SplitAll(actions[..|actions| - 1]) + Split(actions[|actions| - 1])
  }

  /** The diagnostic the scan adds for one action, if any. */
  function Note(a: Action): seq<Diagnostics.Diagnostic>
  {
    if Satisfied(a) then [Diagnostics.Diagnostic(Diagnostics.Info, SatisfiedMessage, None)]
    else if Contradicted(a) then [Diagnostics.Diagnostic(Diagnostics.Warning, UnsolvableMessage, None)]
    else []
  }

  function Notes(actions: seq<Action>): seq<Diagnostics.Diagnostic>
  {
    if actions == [] then [] else Notes(actions[..|actions| - 1]) + Note(actions[|actions| - 1])
  }

  /** `inline_definitions`, keyed by id: the last `force id => c` for each id wins. */
  function ForceSubst(actions: seq<Action>): map<nat, Tree>
  {
    if actions == [] then map[]
    else
      var m := ForceSubst(actions[..|actions| - 1]);
      var a := actions[|actions| - 1];
      if a.1.Restriction? && a.0.Variable? then m[a.0.id := Atom(a.1.atom)] else m
  }

  function Keep(actions: seq<Action>): seq<bool>
  {
    seq(|actions|, i requires 0 <= i < |actions| => !Dropped(actions[i]))
  }

  function Scanned(actions: seq<Action>): seq<Action>
  {
    seq(|actions|, i requires 0 <= i < |actions| => Rewrite(actions[i]))
  }

  /** The actions after `simp_force`: survivors in order, then the split parts, substituted. */
  function ForcedActions(actions: seq<Action>): seq<Action>
  {
    var s := IndexRemoval.Select(Scanned(actions), Keep(actions)) + SplitAll(actions);
    var subst := ForceSubst(actions);
    seq(|s|, i requires 0 <= i < |s| => (InlineVar(s[i].0, subst), s[i].1))
  }

  function ForcedDefs(defs: map<nat, Tree>, actions: seq<Action>): map<nat, Tree>
  {
    map id | id in defs :: InlineVar(defs[id], ForceSubst(actions))
  }

  predicate ForceChanges(actions: seq<Action>)
  {
    exists i :: 0 <= i < |actions| && Reported(actions[i])
  }

  // ---------------------------------------------------------------------
  // Properties
  // ---------------------------------------------------------------------

  lemma ActionEquivalent(a: Action, env: nat -> bool, seeds: Labels.Label -> bool)
    ensures Dropped(a) ==> (RestrictionHolds(a, env, seeds) <==> RestrictionsHold(Split(a), env, seeds))
    ensures !Dropped(a) ==> (RestrictionHolds(a, env, seeds) <==> RestrictionHolds(Rewrite(a), env, seeds))
  {
    if IsOrFalse(a) {
      var parts := Split(a);
      assert RestrictionHolds(parts[0], env, seeds) && RestrictionHolds(parts[1], env, seeds) ==> RestrictionsHold(parts, env, seeds);
    }
  }

  lemma {:induction false} SplitAllMembership(actions: seq<Action>, x: Action)
    ensures x in SplitAll(actions) <==> exists i :: 0 <= i < |actions| && x in Split(actions[i])
  {
    if actions != [] {
      var pre := actions[..|actions| - 1];
      SplitAllMembership(pre, x);
      if exists i :: 0 <= i < |pre| && x in Split(pre[i]) {
        var i :| 0 <= i < |pre| && x in Split(pre[i]);
        assert actions[i] == pre[i];
      }
      if exists i :: 0 <= i < |actions| && x in Split(actions[i]) {
        var i :| 0 <= i < |actions| && x in Split(actions[i]);
        if i < |pre| {
          assert pre[i] == actions[i];
        }
      }
    }
  }

  /** Every entry of the substitution comes from some `force id => c`, with that constant. */
  lemma {:induction false} ForceSubstFrom(actions: seq<Action>, id: nat)
    requires id in ForceSubst(actions)
    ensures exists i :: (0 <= i < |actions| && actions[i].0 == Variable(id) && actions[i].1.Restriction? &&
                         ForceSubst(actions)[id] == Atom(actions[i].1.atom))
  {
    var pre := actions[..|actions| - 1];
    var a := actions[|actions| - 1];
    if !(a.1.Restriction? && a.0 == Variable(id)) {
      ForceSubstFrom(pre, id);
      var i :| 0 <= i < |pre| && pre[i].0 == Variable(id) && pre[i].1.Restriction? &&
        ForceSubst(pre)[id] == Atom(pre[i].1.atom);
      assert actions[i] == pre[i];
    }
  }

  /** Every forced variable has an entry. */
  lemma {:induction false} ForceSubstCovers(actions: seq<Action>, i: nat)
    requires i < |actions| && actions[i].0.Variable? && actions[i].1.Restriction?
    ensures actions[i].0.id in ForceSubst(actions)
  {
    var pre := actions[..|actions| - 1];
    if i < |pre| {
      assert pre[i] == actions[i];
      ForceSubstCovers(pre, i);
    }
  }

  lemma SubstAgrees(actions: seq<Action>, env: nat -> bool, seeds: Labels.Label -> bool)
    requires forall i :: 0 <= i < |actions| && actions[i].0.Variable? ==> RestrictionHolds(actions[i], env, seeds)
    ensures forall id :: id in ForceSubst(actions) ==> Eval(ForceSubst(actions)[id], env, seeds) == env(id)
  {
    forall id | id in ForceSubst(actions) ensures Eval(ForceSubst(actions)[id], env, seeds) == env(id) {
      ForceSubstFrom(actions, id);
    }
  }

  /** Each `force id => c` survives as the same restriction on the marked variable. */
  lemma ForceKeepsVariableRestriction(actions: seq<Action>, i: nat)
    requires i < |actions| && actions[i].0.Variable? && actions[i].1.Restriction?
    ensures (Marker(actions[i].0), actions[i].1) in ForcedActions(actions)
  {
    var a := actions[i];
    var s := IndexRemoval.Select(Scanned(actions), Keep(actions)) + SplitAll(actions);
    IndexRemoval.SelectMembership(Scanned(actions), Keep(actions), Rewrite(a));
    assert Keep(actions)[i] && Scanned(actions)[i] == Rewrite(a);
    assert Rewrite(a) in s;
    var j :| 0 <= j < |s| && s[j] == Rewrite(a);
    assert ForcedActions(actions)[j] == (Marker(a.0), a.1);
  }

  lemma RestrictionsEquivalent(actions: seq<Action>, env: nat -> bool, seeds: Labels.Label -> bool)
    ensures RestrictionsHold(actions, env, seeds) <==>
      RestrictionsHold(IndexRemoval.Select(Scanned(actions), Keep(actions)) + SplitAll(actions), env, seeds)
  {
    var kept := IndexRemoval.Select(Scanned(actions), Keep(actions));
    var split := SplitAll(actions);
    RestrictionsHoldAppend(kept, split, env, seeds);
    if RestrictionsHold(actions, env, seeds) {
      forall j | 0 <= j < |kept| ensures RestrictionHolds(kept[j], env, seeds) {
        IndexRemoval.SelectMembership(Scanned(actions), Keep(actions), kept[j]);
        var i :| 0 <= i < |actions| && Keep(actions)[i] && Scanned(actions)[i] == kept[j];
        ActionEquivalent(actions[i], env, seeds);
      }
      forall j | 0 <= j < |split| ensures RestrictionHolds(split[j], env, seeds) {
        SplitAllMembership(actions, split[j]);
        var i :| 0 <= i < |actions| && split[j] in Split(actions[i]);
        ActionEquivalent(actions[i], env, seeds);
        assert RestrictionsHold(Split(actions[i]), env, seeds);
      }
    }
    if RestrictionsHold(kept + split, env, seeds) {
      forall i | 0 <= i < |actions| ensures RestrictionHolds(actions[i], env, seeds) {
        var a := actions[i];
        ActionEquivalent(a, env, seeds);
        if Dropped(a) {
          forall k | 0 <= k < |Split(a)| ensures RestrictionHolds(Split(a)[k], env, seeds) {
            SplitAllMembership(actions, Split(a)[k]);
          }
        } else {
          assert Keep(actions)[i] && Scanned(actions)[i] == Rewrite(a);
          IndexRemoval.SelectMembership(Scanned(actions), Keep(actions), Rewrite(a));
        }
      }
    }
  }

  /**
   * `simp_force` neither loses nor adds solutions: an assignment solves the
   * program before the pass exactly when it solves the program after it.
   */
  lemma ForcePreservesSolutions(defs: map<nat, Tree>, actions: seq<Action>, env: nat -> bool, seeds: Labels.Label -> bool)
    ensures Solves(defs, actions, env, seeds) <==> Solves(ForcedDefs(defs, actions), ForcedActions(actions), env, seeds)
  {
    var subst := ForceSubst(actions);
    var s := IndexRemoval.Select(Scanned(actions), Keep(actions)) + SplitAll(actions);
    var after := ForcedActions(actions);
    var agrees := forall id :: id in subst ==> Eval(subst[id], env, seeds) == env(id);
    forall id | id in subst ensures !subst[id].SeedLabel? {
      ForceSubstFrom(actions, id);
    }
    forall id | id in defs ensures InlineVar(defs[id], subst).SeedLabel? <==> defs[id].SeedLabel? {
      InlineVarSeedRoot(defs[id], subst);
    }
    if Solves(defs, actions, env, seeds) {
      SubstAgrees(actions, env, seeds);
    }
    if Solves(ForcedDefs(defs, actions), after, env, seeds) {
      forall i | 0 <= i < |actions| && actions[i].0.Variable? ensures RestrictionHolds(actions[i], env, seeds) {
        if actions[i].1.Restriction? {
          ForceKeepsVariableRestriction(actions, i);
          var j :| 0 <= j < |after| && after[j] == (Marker(actions[i].0), actions[i].1);
          assert RestrictionHolds(after[j], env, seeds);
        }
      }
      SubstAgrees(actions, env, seeds);
    }
    if agrees {
      forall id | id in defs ensures Eval(InlineVar(defs[id], subst), env, seeds) == Eval(defs[id], env, seeds) {
        InlineVarEval(defs[id], subst, env, seeds);
      }
      forall j | 0 <= j < |s| ensures RestrictionHolds(after[j], env, seeds) <==> RestrictionHolds(s[j], env, seeds) {
        InlineVarEval(s[j].0, subst, env, seeds);
      }
      RestrictionsEquivalent(actions, env, seeds);
    }
  }

  /**
   * The markers stay: every forced variable is still restricted, as the
   * marked variable, after the pass, and nowhere else in a marker-free
   * definition is it left (each occurrence became its constant).
   */
  lemma ForceEliminatesForcedVariables(defs: map<nat, Tree>, actions: seq<Action>)
    requires forall id :: id in defs ==> MarkerFree(defs[id])
    ensures forall id :: id in ForcedDefs(defs, actions) ==> AllVars(ForcedDefs(defs, actions)[id]) !! ForceSubst(actions).Keys
    ensures forall i :: 0 <= i < |actions| && actions[i].0.Variable? && actions[i].1.Restriction? ==>
      actions[i].0.id in ForceSubst(actions) && (Marker(actions[i].0), actions[i].1) in ForcedActions(actions)
  {
    var subst := ForceSubst(actions);
    forall id | id in subst ensures AllVars(subst[id]) !! subst.Keys {
      ForceSubstFrom(actions, id);
    }
    forall id | id in defs ensures AllVars(InlineVar(defs[id], subst)) !! subst.Keys {
      InlineVarEliminates(defs[id], subst);
    }
    forall i | 0 <= i < |actions| && actions[i].0.Variable? && actions[i].1.Restriction?
      ensures actions[i].0.id in subst && (Marker(actions[i].0), actions[i].1) in ForcedActions(actions)
    {
      ForceSubstCovers(actions, i);
      ForceKeepsVariableRestriction(actions, i);
    }
  }
}
