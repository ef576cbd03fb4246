/**
 * The whole program held by `AtomRoot` (src/compiler/atom_tree.rs): numbered
 * variable definitions and an ordered list of value actions.  `Solves` says
 * when an assignment of the variables is a solution of that program: every
 * variable equals its definition and every restriction forces its tree to
 * its constant.  The passes over `AtomRoot` are proved against it.
 */
module NarySystem {
  import Tokens
  import Labels
  import opened NaryTree

  /** `ValueAction`: an output request, or `force tree => constant`. */
  datatype ValueAction = Output(names: seq<string>, trees: seq<Tree>) | Restriction(atom: Tokens.AtomType)

  type Action = (Tree, ValueAction)

  /**
   * Every variable equals its definition, except a variable defined as a
   * seed: that one is an input of the program and takes any value, whatever
   * its label says (the graph encoder gives each seed its own free node).
   */
  predicate DefinitionsHold(defs: map<nat, Tree>, env: nat -> bool, seeds: Labels.Label -> bool)
  {
    forall id :: id in defs && !defs[id].SeedLabel? ==> env(id) == Eval(defs[id], env, seeds)
  }

  predicate RestrictionHolds(a: Action, env: nat -> bool, seeds: Labels.Label -> bool)
  {
    a.1.Restriction? ==> Eval(a.0, env, seeds) == Tokens.ToBool(a.1.atom)
  }

  predicate RestrictionsHold(actions: seq<Action>, env: nat -> bool, seeds: Labels.Label -> bool)
  {
    forall i :: 0 <= i < |actions| ==> RestrictionHolds(actions[i], env, seeds)
  }

  /** `env` (with `seeds` for the seed labels) is a solution of the program. */
  predicate Solves(defs: map<nat, Tree>, actions: seq<Action>, env: nat -> bool, seeds: Labels.Label -> bool)
  {
    DefinitionsHold(defs, env, seeds) && RestrictionsHold(actions, env, seeds)
  }

  /**
   * Two inputs defined by the same seed label are independent: one may be
   * `true` and the other `false` in the same solution.
   */
  lemma SeedInputsIndependent(l: Labels.Label, seeds: Labels.Label -> bool)
    ensures Solves(map[0 := SeedLabel(l), 1 := SeedLabel(l)], [], (id: nat) => id == 0, seeds)
  {
  }

  /**
   * Seeds stand alone: a seed is only ever a whole definition, never part of
   * a larger tree or of an action tree.  This is how the translator makes
   * them (src/compiler/atom_tree_translate.rs:58-61), and it is what keeps
   * each seed a separate input through the passes.
   */
  predicate SeedsStandAlone(defs: map<nat, Tree>, actions: seq<Action>)
  {
    (forall id :: id in defs ==> defs[id].SeedLabel? || SeedFree(defs[id])) &&
    (forall i :: 0 <= i < |actions| ==> SeedFree(actions[i].0))
  }

  /** No tree of the program contains a marker. */
  predicate ProgramMarkerFree(defs: map<nat, Tree>, actions: seq<Action>)
  {
    (forall id :: id in defs ==> MarkerFree(defs[id])) &&
    (forall i :: 0 <= i < |actions| ==> MarkerFree(actions[i].0))
  }

  /** `f` applied to every definition. */
  function MapDefs(defs: map<nat, Tree>, f: Tree -> Tree): map<nat, Tree>
  {
    map id | id in defs :: f(defs[id])
  }

  /** `f` applied to the tree of every action; the action kinds stay. */
  function MapActions(actions: seq<Action>, f: Tree -> Tree): seq<Action>
  {
    seq(|actions|, i requires 0 <= i < |actions| => (f(actions[i].0), actions[i].1))
  }

  lemma RestrictionsHoldAppend(a: seq<Action>, b: seq<Action>, env: nat -> bool, seeds: Labels.Label -> bool)
    ensures RestrictionsHold(a + b, env, seeds) <==> RestrictionsHold(a, env, seeds) && RestrictionsHold(b, env, seeds)
  {
    if RestrictionsHold(a, env, seeds) && RestrictionsHold(b, env, seeds) {
      forall i | 0 <= i < |a + b| ensures RestrictionHolds((a + b)[i], env, seeds) {
        if i >= |a| {
          assert (a + b)[i] == b[i - |a|];
        } else {
          assert (a + b)[i] == a[i];
        }
      }
    }
    if RestrictionsHold(a + b, env, seeds) {
      forall i | 0 <= i < |a| ensures RestrictionHolds(a[i], env, seeds) {
        assert (a + b)[i] == a[i];
      }
      forall i | 0 <= i < |b| ensures RestrictionHolds(b[i], env, seeds) {
        assert (a + b)[|a| + i] == b[i];
      }
    }
  }
}
