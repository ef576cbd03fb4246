/**
 * `AtomRoot::simp_force` (src/compiler/atom_tree.rs:31-85), as a
 * specification over the program it rewrites.
 *
 * One scan over the actions edits each restriction in place, collects the
 * positions to delete, the restrictions to append and a substitution
 * `id := constant` for every `force id => constant`.  The deleted positions
 * are then removed, the new restrictions appended, the substitution applied
 * to every tree, and finally every marker stripped.
 */
module NaryForce {
  import Tokens
  import Labels
  import Diagnostics
  import opened Wrappers
  import opened NaryTree
  import opened NarySystem
  import IndexRemoval

  const UnsolvableMessage := "Force statement makes graph trivially unsolvable."

  /** The action as the scan leaves it in place. */
  function Rewrite(a: Action): (r: Action)
  {
    match a.1
    case Output(_, _) => a
    case Restriction(t) =>
      match a.0
      case Variable(id) => (Marker(Variable(id)), a.1)
      case Not(x) => (x, Restriction(Tokens.Not(t)))
      case _ => a
  }

  /** `force Or(s) => false`: replaced by its operands. */
  predicate IsOrFalse(a: Action)
  {
    a.1.Restriction? && a.0.Or? && a.1.atom == Tokens.False
  }

  /** The scan deletes `force Or(s) => false` and `force c => c`. */
  predicate Dropped(a: Action)
  {
    IsOrFalse(a) || (a.1.Restriction? && a.0.Atom? && a.0.atom == a.1.atom)
  }

  /** `force c => d` with `c != d`: kept, with a warning. */
  predicate Contradicted(a: Action)
  {
    a.1.Restriction? && a.0.Atom? && a.0.atom != a.1.atom
  }

  /** The scan sets `changed` for a negation and for a split disjunction. */
  predicate Reported(a: Action)
  {
    a.1.Restriction? && (a.0.Not? || IsOrFalse(a))
  }

  /** The restrictions appended for one action. */
  function Split(a: Action): (r: seq<Action>)
  {
    if IsOrFalse(a) then seq(|a.0.args|, k requires 0 <= k < |a.0.args| => (a.0.args[k], Restriction(Tokens.False)))
    else []
  }

  function SplitAll(actions: seq<Action>): seq<Action>
  {
    if actions == [] then [] else SplitAll(actions[..|actions| - 1]) + Split(actions[|actions| - 1])
  }

  /** One warning per contradicted constant restriction, in order. */
  function Warnings(actions: seq<Action>): seq<Diagnostics.Diagnostic>
  {
    if actions == [] then []
    else
      var last := if Contradicted(actions[|actions| - 1])
        then [Diagnostics.Diagnostic(Diagnostics.Warning, UnsolvableMessage, None)] else [];
      Warnings(actions[..|actions| - 1]) + last
  }

  /** `inline_definitions`: the last `force id => c` for each id wins. */
  function ForceSubst(actions: seq<Action>): map<nat, Tree>
  {
    if actions == [] then map[]
    else
      var m := ForceSubst(actions[..|actions| - 1]);
      var a := actions[|actions| - 1];
      if a.1.Restriction? && a.0.Variable? then m[a.0.id := Atom(a.1.atom)] else m
  }

  function Keep(actions: seq<Action>): seq<bool>
  {
    seq(|actions|, i requires 0 <= i < |actions| => !Dropped(actions[i]))
  }

  function Scanned(actions: seq<Action>): seq<Action>
  {
    seq(|actions|, i requires 0 <= i < |actions| => Rewrite(actions[i]))
  }

  /** The substitution and the marker stripping applied to one tree. */
  function Finish(t: Tree, subst: map<nat, Tree>): Tree
  {
    RemoveMarker(InlineVar(t, subst))
  }

  /** The actions after `simp_force`. */
  function ForcedActions(actions: seq<Action>): seq<Action>
  {
    var s := IndexRemoval.Select(Scanned(actions), Keep(actions)) + SplitAll(actions);
    var subst := ForceSubst(actions);
    seq(|s|, i requires 0 <= i < |s| => (Finish(s[i].0, subst), s[i].1))
  }

  /** The definitions after `simp_force`. */
  function ForcedDefs(defs: map<nat, Tree>, actions: seq<Action>): map<nat, Tree>
  {
    map id | id in defs :: Finish(defs[id], ForceSubst(actions))
  }

  predicate ForceChanges(actions: seq<Action>)
  {
    exists i :: 0 <= i < |actions| && Reported(actions[i])
  }

  // ---------------------------------------------------------------------
  // Per-action facts
  // ---------------------------------------------------------------------

  /** Each action is replaced by an equivalent one, or by its split parts. */
  lemma ActionEquivalent(a: Action, env: nat -> bool, seeds: Labels.Label -> bool)
    ensures Dropped(a) ==> (RestrictionHolds(a, env, seeds) <==> RestrictionsHold(Split(a), env, seeds))
    ensures !Dropped(a) ==> (RestrictionHolds(a, env, seeds) <==> RestrictionHolds(Rewrite(a), env, seeds))
    ensures !IsOrFalse(a) ==> Split(a) == []
  {
    if IsOrFalse(a) {
      var v := a.0.args;
      var parts := Split(a);
      if RestrictionHolds(a, env, seeds) {
        forall k | 0 <= k < |parts| ensures RestrictionHolds(parts[k], env, seeds) {
          assert parts[k].0 == v[k];
        }
      }
      if RestrictionsHold(parts, env, seeds) {
        forall k | 0 <= k < |v| ensures !Eval(v[k], env, seeds) {
          assert RestrictionHolds(parts[k], env, seeds);
        }
      }
    }
  }

  lemma {:induction false} SplitAllMembership(actions: seq<Action>, x: Action)
    ensures x in SplitAll(actions) <==> exists i :: 0 <= i < |actions| && x in Split(actions[i])
  {
    if actions != [] {
      var pre := actions[..|actions| - 1];
      SplitAllMembership(pre, x);
      if exists i :: 0 <= i < |pre| && x in Split(pre[i]) {
        var i :| 0 <= i < |pre| && x in Split(pre[i]);
        assert actions[i] == pre[i];
      }
      if exists i :: 0 <= i < |actions| && x in Split(actions[i]) {
        var i :| 0 <= i < |actions| && x in Split(actions[i]);
        if i < |pre| {
          assert pre[i] == actions[i];
        }
      }
    }
  }

  /** Every entry of the substitution comes from some `force id => c`. */
  lemma {:induction false} ForceSubstFrom(actions: seq<Action>, id: nat)
    requires id in ForceSubst(actions)
    ensures exists i :: 0 <= i < |actions| && actions[i].0 == Variable(id) && actions[i].1.Restriction? && ForceSubst(actions)[id] == Atom(actions[i].1.atom)
  {
    var pre := actions[..|actions| - 1];
    var a := actions[|actions| - 1];
    if !(a.1.Restriction? && a.0 == Variable(id)) {
      ForceSubstFrom(pre, id);
      var i :| 0 <= i < |pre| && pre[i].0 == Variable(id) && pre[i].1.Restriction? &&
        ForceSubst(pre)[id] == Atom(pre[i].1.atom);
      assert actions[i] == pre[i];
    }
  }

  /** Every substitution entry is a constant. */
  lemma {:induction false} ForceSubstConstant(actions: seq<Action>)
    ensures forall id :: id in ForceSubst(actions) ==> ForceSubst(actions)[id].Atom?
  {
    if actions != [] {
      ForceSubstConstant(actions[..|actions| - 1]);
    }
  }

  /** A solution of the restrictions agrees with every substitution entry. */
  lemma SubstAgrees(actions: seq<Action>, env: nat -> bool, seeds: Labels.Label -> bool)
    requires forall i :: 0 <= i < |actions| && actions[i].0.Variable? ==> RestrictionHolds(actions[i], env, seeds)
    ensures forall id :: id in ForceSubst(actions) ==> Eval(ForceSubst(actions)[id], env, seeds) == env(id)
  {
    forall id | id in ForceSubst(actions) ensures Eval(ForceSubst(actions)[id], env, seeds) == env(id) {
      ForceSubstFrom(actions, id);
    }
  }

  /** Under an assignment that agrees with the substitution, finishing keeps the meaning. */
  lemma FinishEval(t: Tree, subst: map<nat, Tree>, env: nat -> bool, seeds: Labels.Label -> bool)
    requires forall id :: id in subst ==> Eval(subst[id], env, seeds) == env(id)
    ensures Eval(Finish(t, subst), env, seeds) == Eval(t, env, seeds)
  {
    RemoveMarkerEval(InlineVar(t, subst), env, seeds);
    InlineVarEval(t, subst, env, seeds);
  }

  // ---------------------------------------------------------------------
  // Properties of the whole pass
  // ---------------------------------------------------------------------

  /** Finishing a definition neither makes nor unmakes a seed, and brings in none. */
  lemma FinishSeedRoot(t: Tree, subst: map<nat, Tree>)
    requires t.SeedLabel? || SeedFree(t)
    requires forall id :: id in subst ==> subst[id].Atom?
    ensures Finish(t, subst).SeedLabel? <==> t.SeedLabel?
    ensures !t.SeedLabel? ==> SeedFree(Finish(t, subst))
  {
    if !t.SeedLabel? {
      InlineVarSeedFree(t, subst);
      RemoveMarkerSeedFree(InlineVar(t, subst));
    }
  }

  /** After `simp_force` seeds still stand alone. */
  lemma ForceKeepsSeedsStandAlone(defs: map<nat, Tree>, actions: seq<Action>)
    requires SeedsStandAlone(defs, actions)
    ensures SeedsStandAlone(ForcedDefs(defs, actions), ForcedActions(actions))
  {
    var subst := ForceSubst(actions);
    ForceSubstConstant(actions);
    forall id | id in defs ensures Finish(defs[id], subst).SeedLabel? || SeedFree(Finish(defs[id], subst)) {
      FinishSeedRoot(defs[id], subst);
    }
    var kept := IndexRemoval.Select(Scanned(actions), Keep(actions));
    var s := kept + SplitAll(actions);
    forall j | 0 <= j < |s| ensures SeedFree(Finish(s[j].0, subst)) {
      if j < |kept| {
        IndexRemoval.SelectMembership(Scanned(actions), Keep(actions), kept[j]);
        var i :| 0 <= i < |actions| && Keep(actions)[i] && Scanned(actions)[i] == kept[j];
        assert SeedFree(actions[i].0);
      } else {
        SplitAllMembership(actions, s[j]);
        var i :| 0 <= i < |actions| && s[j] in Split(actions[i]);
        assert SeedFree(actions[i].0);
        var k :| 0 <= k < |Split(actions[i])| && Split(actions[i])[k] == s[j];
        assert s[j].0 == actions[i].0.args[k];
      }
      FinishSeedRoot(s[j].0, subst);
    }
  }

  /** Each `force id => c` survives as the same restriction on the plain variable. */
  lemma ForceKeepsVariableRestriction(actions: seq<Action>, i: nat)
    requires i < |actions| && actions[i].0.Variable? && actions[i].1.Restriction?
    ensures actions[i] in ForcedActions(actions)
  {
    var a := actions[i];
    var s := IndexRemoval.Select(Scanned(actions), Keep(actions)) + SplitAll(actions);
    IndexRemoval.SelectMembership(Scanned(actions), Keep(actions), Rewrite(a));
    assert Keep(actions)[i] && Scanned(actions)[i] == Rewrite(a);
    assert Rewrite(a) in s;
    var j :| 0 <= j < |s| && s[j] == Rewrite(a);
    var m := Marker(a.0);
    assert Rewrite(a) == (m, a.1);
    assert InlineVar(m, ForceSubst(actions)) == m;
    assert RemoveMarker(m) == a.0;
    assert ForcedActions(actions)[j] == a;
  }

  /** The restrictions that remain are equivalent to the old ones. */
  lemma RestrictionsEquivalent(actions: seq<Action>, env: nat -> bool, seeds: Labels.Label -> bool)
    ensures RestrictionsHold(actions, env, seeds) <==>
      RestrictionsHold(IndexRemoval.Select(Scanned(actions), Keep(actions)) + SplitAll(actions), env, seeds)
  {
    var kept := IndexRemoval.Select(Scanned(actions), Keep(actions));
    var split := SplitAll(actions);
    RestrictionsHoldAppend(kept, split, env, seeds);
    if RestrictionsHold(actions, env, seeds) {
      forall j | 0 <= j < |kept| ensures RestrictionHolds(kept[j], env, seeds) {
        IndexRemoval.SelectMembership(Scanned(actions), Keep(actions), kept[j]);
        var i :| 0 <= i < |actions| && Keep(actions)[i] && Scanned(actions)[i] == kept[j];
        ActionEquivalent(actions[i], env, seeds);
      }
      forall j | 0 <= j < |split| ensures RestrictionHolds(split[j], env, seeds) {
        SplitAllMembership(actions, split[j]);
        var i :| 0 <= i < |actions| && split[j] in Split(actions[i]);
        ActionEquivalent(actions[i], env, seeds);
      }
    }
    if RestrictionsHold(kept + split, env, seeds) {
      forall i | 0 <= i < |actions| ensures RestrictionHolds(actions[i], env, seeds) {
        var a := actions[i];
        ActionEquivalent(a, env, seeds);
        if Dropped(a) {
          forall k | 0 <= k < |Split(a)| ensures RestrictionHolds(Split(a)[k], env, seeds) {
            SplitAllMembership(actions, Split(a)[k]);
          }
        } else {
          assert Keep(actions)[i] && Scanned(actions)[i] == Rewrite(a);
          IndexRemoval.SelectMembership(Scanned(actions), Keep(actions), Rewrite(a));
        }
      }
    }
  }

  /**
   * `simp_force` neither loses nor adds solutions: an assignment solves the
   * program before the pass exactly when it solves the program after it.
   */
  lemma ForcePreservesSolutions(defs: map<nat, Tree>, actions: seq<Action>, env: nat -> bool, seeds: Labels.Label -> bool)
    requires SeedsStandAlone(defs, actions)
    ensures Solves(defs, actions, env, seeds) <==> Solves(ForcedDefs(defs, actions), ForcedActions(actions), env, seeds)
  {
    ForceSubstConstant(actions);
    forall id | id in defs ensures Finish(defs[id], ForceSubst(actions)).SeedLabel? <==> defs[id].SeedLabel? {
      FinishSeedRoot(defs[id], ForceSubst(actions));
    }
    var subst := ForceSubst(actions);
    var s := IndexRemoval.Select(Scanned(actions), Keep(actions)) + SplitAll(actions);
    var after := ForcedActions(actions);
    var agrees := forall id :: id in subst ==> Eval(subst[id], env, seeds) == env(id);
    if Solves(defs, actions, env, seeds) {
      SubstAgrees(actions, env, seeds);
    }
    if Solves(ForcedDefs(defs, actions), after, env, seeds) {
      forall i | 0 <= i < |actions| && actions[i].0.Variable? ensures RestrictionHolds(actions[i], env, seeds) {
        if actions[i].1.Restriction? {
          ForceKeepsVariableRestriction(actions, i);
        }
      }
      SubstAgrees(actions, env, seeds);
    }
    if agrees {
      forall id | id in defs ensures Eval(Finish(defs[id], subst), env, seeds) == Eval(defs[id], env, seeds) {
        FinishEval(defs[id], subst, env, seeds);
      }
      forall j | 0 <= j < |s| ensures RestrictionHolds(after[j], env, seeds) <==> RestrictionHolds(s[j], env, seeds) {
        FinishEval(s[j].0, subst, env, seeds);
      }
      RestrictionsEquivalent(actions, env, seeds);
    }
  }

  /** No marker is left anywhere once the pass returns. */
  lemma ForceLeavesNoMarker(defs: map<nat, Tree>, actions: seq<Action>)
    ensures ProgramMarkerFree(ForcedDefs(defs, actions), ForcedActions(actions))
  {
    var subst := ForceSubst(actions);
    forall id | id in defs ensures MarkerFree(Finish(defs[id], subst)) {
      RemoveMarkerIsMarkerFree(InlineVar(defs[id], subst));
    }
    var s := IndexRemoval.Select(Scanned(actions), Keep(actions)) + SplitAll(actions);
    forall j | 0 <= j < |s| ensures MarkerFree(Finish(s[j].0, subst)) {
      RemoveMarkerIsMarkerFree(InlineVar(s[j].0, subst));
    }
  }

  /** In marker-free definitions no forced variable is left: each became its constant. */
  lemma ForceEliminatesForcedVariables(defs: map<nat, Tree>, actions: seq<Action>)
    requires forall id :: id in defs ==> MarkerFree(defs[id])
    ensures forall id :: id in ForcedDefs(defs, actions) ==> AllVars(ForcedDefs(defs, actions)[id]) !! ForceSubst(actions).Keys
  {
    var subst := ForceSubst(actions);
    ForceSubstConstant(actions);
    forall id | id in defs ensures AllVars(Finish(defs[id], subst)) !! subst.Keys {
      InlineVarEliminates(defs[id], subst);
      RemoveMarkerVars(InlineVar(defs[id], subst));
    }
  }
}
