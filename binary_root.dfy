/**
 * The binary-`Or` `AtomRoot` (src/atom_tree.rs:8-183) as a mutable object,
 * and its `remove_links` pass as a specification.  In this IR substitutions
 * are keyed by variable id.
 */
module BinaryRoot {
  import Tokens
  import Labels
  import Diagnostics
  import opened Wrappers
  import opened BinaryTree
  import opened BinaryForce
  import IndexRemoval

  // ---------------------------------------------------------------------
  // `remove_links` (src/atom_tree.rs:89-121)
  // ---------------------------------------------------------------------

  predicate IsLink(t: Tree)
  {
    t.Variable? || t.Atom?
  }

  /** The ids that recorded aliases point to (`exclude_for_now`). */
  function Targets(subst: map<nat, Tree>): set<nat>
  {
    set id | id in subst && subst[id].Variable? :: subst[id].id
  }

  /**
   * What the scan records, for any visiting order: copies of link
   * definitions; no alias target is itself substituted (unless the alias is
   * a variable defined as itself); every link left out was blocked.
   */
  predicate LinkSubst(defs: map<nat, Tree>, subst: map<nat, Tree>)
  {
    (forall id :: id in subst ==> id in defs && subst[id] == defs[id] && IsLink(defs[id])) &&
    (forall id :: (id in subst && subst[id].Variable? && subst[id].id in subst) ==> subst[id].id == id) &&
    (forall id :: (id in defs && IsLink(defs[id]) && id !in subst) ==>
                  (id in Targets(subst) || (defs[id].Variable? && defs[id].id in subst)))
  }

  function LinkedDefs(defs: map<nat, Tree>, subst: map<nat, Tree>): map<nat, Tree>
  {
    map id | id in defs && id !in subst :: InlineVar(defs[id], subst)
  }

  /** Nothing is recorded exactly when no definition is a link. */
  lemma LinkSubstEmpty(defs: map<nat, Tree>, subst: map<nat, Tree>)
    requires LinkSubst(defs, subst)
    ensures subst == map[] <==> forall id :: id in defs ==> !IsLink(defs[id])
  {
    if subst == map[] {
      forall id | id in defs ensures !IsLink(defs[id]) {
        assert Targets(subst) == {};
      }
    } else {
      var id :| id in subst;
      assert id in defs && IsLink(defs[id]);
    }
  }

  lemma {:induction false} SubsetSize(a: set<nat>, b: set<nat>)
    requires a <= b
    ensures |a| <= |b|
    decreases |b|
  {
    if a != {} {
      var x :| x in a;
      SubsetSize(a - {x}, b - {x});
    }
  }

  /** A non-empty substitution strictly shrinks the definitions. */
  lemma LinkedDefsShrink(defs: map<nat, Tree>, subst: map<nat, Tree>)
    requires LinkSubst(defs, subst) && subst != map[]
    ensures |LinkedDefs(defs, subst)| < |defs|
  {
    var id :| id in subst;
    SubsetSize(LinkedDefs(defs, subst).Keys, defs.Keys - {id});
  }

  /** Every solution stays a solution. */
  lemma LinksKeepSolutions(defs: map<nat, Tree>, actions: seq<Action>, subst: map<nat, Tree>,
                           env: nat -> bool, seeds: Labels.Label -> bool)
    requires LinkSubst(defs, subst) && Solves(defs, actions, env, seeds)
    ensures Solves(LinkedDefs(defs, subst), MapActions(actions, t => InlineVar(t, subst)), env, seeds)
  {
    forall t: Tree ensures Eval(InlineVar(t, subst), env, seeds) == Eval(t, env, seeds) {
      InlineVarEval(t, subst, env, seeds);
    }
  }

  /**
   * Every solution after the pass is one before it once the deleted
   * variables get the values of their links (for a program without markers).
   */
  lemma LinksAddNoSolutions(defs: map<nat, Tree>, actions: seq<Action>, subst: map<nat, Tree>,
                            env: nat -> bool, seeds: Labels.Label -> bool)
    requires LinkSubst(defs, subst) && ProgramMarkerFree(defs, actions)
    requires Solves(LinkedDefs(defs, subst), MapActions(actions, t => InlineVar(t, subst)), env, seeds)
    ensures Solves(defs, actions, Extend(env, subst, seeds), seeds)
  {
    var env2 := Extend(env, subst, seeds);
    forall id | id in defs && !defs[id].SeedLabel? ensures env2(id) == Eval(defs[id], env2, seeds) {
      if id in subst {
        match defs[id]
        case Variable(v) =>
          if v in subst {
            assert v == id;
          }
        case Atom(_) =>
      } else {
        InlineVarSeedRoot(defs[id], subst);
        InlineVarShift(defs[id], subst, env, seeds);
      }
    }
    var after := MapActions(actions, t => InlineVar(t, subst));
    forall i | 0 <= i < |actions| ensures RestrictionHolds(actions[i], env2, seeds) {
      InlineVarShift(actions[i].0, subst, env, seeds);
      assert RestrictionHolds(after[i], env, seeds);
    }
  }

  /**
   * With markers present, a solution after `remove_links` is a solution
   * before it as long as it also satisfies the deleted definitions:
   * substitution does not enter markers, so what is lost is exactly the tie
   * between a deleted id and its link.
   */
  lemma LinksAddOnlyDeletedFreedom(defs: map<nat, Tree>, actions: seq<Action>, subst: map<nat, Tree>,
                                   env: nat -> bool, seeds: Labels.Label -> bool)
    requires LinkSubst(defs, subst)
    requires Solves(LinkedDefs(defs, subst), MapActions(actions, t => InlineVar(t, subst)), env, seeds)
    requires DefinitionsHold(subst, env, seeds)
    ensures Solves(defs, actions, env, seeds)
  {
    forall t: Tree ensures Eval(InlineVar(t, subst), env, seeds) == Eval(t, env, seeds) {
      InlineVarEval(t, subst, env, seeds);
    }
    var after := MapActions(actions, t => InlineVar(t, subst));
    forall i | 0 <= i < |actions| ensures RestrictionHolds(actions[i], env, seeds) {
      assert RestrictionHolds(after[i], env, seeds);
    }
  }

  /**
   * The tie can matter: `force` on a marked variable whose definition is
   * the constant false has no solution, but once the definition is deleted
   * the marked variable is free and the restriction can be met.
   */
  lemma MarkedLinkLosesRestriction()
    ensures var defs := map[0 := Atom(Tokens.False)];
      var actions: seq<Action> := [(Marker(Variable(0)), Restriction(Tokens.True))];
      var subst := map[0 := Atom(Tokens.False)];
      LinkSubst(defs, subst) &&
      Solves(LinkedDefs(defs, subst), MapActions(actions, t => InlineVar(t, subst)), (x: nat) => true, (l: Labels.Label) => true) &&
      forall env: nat -> bool, seeds: Labels.Label -> bool :: !Solves(defs, actions, env, seeds)
  {
    var defs := map[0 := Atom(Tokens.False)];
    var actions: seq<Action> := [(Marker(Variable(0)), Restriction(Tokens.True))];
    var subst := map[0 := Atom(Tokens.False)];
    assert LinkedDefs(defs, subst) == map[];
    assert MapActions(actions, t => InlineVar(t, subst))[0] == actions[0];
    forall env: nat -> bool, seeds: Labels.Label -> bool ensures !Solves(defs, actions, env, seeds) {
      assert RestrictionHolds(actions[0], env, seeds) ==> env(0);
    }
  }

  lemma TargetsAdd(subst: map<nat, Tree>, id: nat, t: Tree)
    requires id !in subst
    ensures Targets(subst[id := t]) == Targets(subst) + (if t.Variable? then {t.id} else {})
  {
    var m := subst[id := t];
    if t.Variable? {
      assert m[id] == t;
    }
    forall x | x in Targets(subst) ensures x in Targets(m) {
      var y :| y in subst && subst[y].Variable? && subst[y].id == x;
      assert m[y] == subst[y];
    }
    forall x | x in Targets(m) ensures x in Targets(subst) || (t.Variable? && x == t.id) {
      var y :| y in m && m[y].Variable? && m[y].id == x;
      if y != id {
        assert y in subst && subst[y] == m[y];
      }
    }
  }

  /** The scan of `remove_links` (src/atom_tree.rs:92-107), in any visiting order of the map. */
  method CollectLinks(defs: map<nat, Tree>) returns (inlineDefinitions: map<nat, Tree>)
    ensures LinkSubst(defs, inlineDefinitions)
  {
    inlineDefinitions := map[];
    var excludeForNow: set<nat> := {};
    var todo := defs.Keys;
    while todo != {}
      invariant todo <= defs.Keys
      invariant inlineDefinitions.Keys !! todo && excludeForNow == Targets(inlineDefinitions)
      invariant forall id :: id in inlineDefinitions ==> id in defs && inlineDefinitions[id] == defs[id] && IsLink(defs[id])
      invariant forall id :: (id in inlineDefinitions && inlineDefinitions[id].Variable? &&
                              inlineDefinitions[id].id in inlineDefinitions) ==> inlineDefinitions[id].id == id
      invariant forall id :: (id in defs && id !in todo && IsLink(defs[id]) && id !in inlineDefinitions) ==>
                              (id in Targets(inlineDefinitions) || (defs[id].Variable? && defs[id].id in inlineDefinitions))
      decreases todo
    {
      var id :| id in todo;
      todo := todo - {id};
      if id in excludeForNow {
        continue;
      }
      match defs[id] {
        case Variable(v) =>
          if v !in inlineDefinitions {
            TargetsAdd(inlineDefinitions, id, Variable(v));
            inlineDefinitions := inlineDefinitions[id := Variable(v)];
            excludeForNow := excludeForNow + {v};
          }
        case Atom(a) =>
          TargetsAdd(inlineDefinitions, id, Atom(a));
          inlineDefinitions := inlineDefinitions[id := Atom(a)];
        case _ =>
      }
    }
  }

  // ---------------------------------------------------------------------
  // `simp_force` and `simp_all` plumbing
  // ---------------------------------------------------------------------

  lemma ScanStep(orig: seq<Action>, i: nat)
    requires i < |orig|
    ensures Keep(orig[..i + 1]) == Keep(orig[..i]) + [!Dropped(orig[i])]
    ensures SplitAll(orig[..i + 1]) == SplitAll(orig[..i]) + Split(orig[i])
    ensures ForceSubst(orig[..i + 1]) ==
      if orig[i].1.Restriction? && orig[i].0.Variable?
      then ForceSubst(orig[..i])[orig[i].0.id := Atom(orig[i].1.atom)] else ForceSubst(orig[..i])
    ensures Notes(orig[..i + 1]) == Notes(orig[..i]) + Note(orig[i])
  {
    assert orig[..i + 1][..i] == orig[..i];
  }

  lemma ClearedStep(orig: seq<Action>, i: nat)
    requires i < |orig|
    ensures IndexRemoval.ClearedPositions(Keep(orig[..i + 1])) ==
      IndexRemoval.ClearedPositions(Keep(orig[..i])) + if Dropped(orig[i]) then [i] else []
  {
    ScanStep(orig, i);
    assert Keep(orig[..i + 1])[..i] == Keep(orig[..i]);
  }

  lemma ChangesStep(orig: seq<Action>, i: nat)
    requires i < |orig|
    ensures ForceChanges(orig[..i + 1]) == (ForceChanges(orig[..i]) || Reported(orig[i]))
  {
    if ForceChanges(orig[..i + 1]) && !Reported(orig[i]) {
      var k :| 0 <= k < i + 1 && Reported(orig[..i + 1][k]);
      assert orig[..i][k] == orig[k];
    }
    if ForceChanges(orig[..i]) {
      var k :| 0 <= k < i && Reported(orig[..i][k]);
      assert orig[..i + 1][k] == orig[k];
    }
    if Reported(orig[i]) {
      assert orig[..i + 1][i] == orig[i];
    }
  }

  lemma ScannedStep(orig: seq<Action>, i: nat)
    requires i < |orig|
    ensures (Scanned(orig[..i]) + orig[i..])[i] == orig[i]
    ensures (Scanned(orig[..i]) + orig[i..])[i := Rewrite(orig[i])] == Scanned(orig[..i + 1]) + orig[i + 1..]
  {
  }

  /** The body of the scan of `simp_force` for the action at position `i`. */
  method ScanAction(a: Action, i: nat, compilation: Diagnostics.Compilation, removeIndices: seq<nat>, addItems: seq<Action>,
                    inlineDefinitions: map<nat, Tree>, changedIn: bool)
    returns (a': Action, removeIndices': seq<nat>, addItems': seq<Action>, inlineDefinitions': map<nat, Tree>, changed: bool)
    modifies compilation
    ensures a' == Rewrite(a)
    ensures removeIndices' == removeIndices + if Dropped(a) then [i] else []
    ensures addItems' == addItems + Split(a)
    ensures inlineDefinitions' ==
      if a.1.Restriction? && a.0.Variable? then inlineDefinitions[a.0.id := Atom(a.1.atom)] else inlineDefinitions
    ensures changed == (changedIn || Reported(a))
    ensures compilation.diagnostics == old(compilation.diagnostics) + Note(a)
  {
    a', removeIndices', addItems', inlineDefinitions', changed := a, removeIndices, addItems, inlineDefinitions, changedIn;
    var (value, action) := a;
    if action.Restriction? {
      var t := action.atom;
      match value {
        case Variable(id) =>
          inlineDefinitions' := inlineDefinitions'[id := Atom(t)];
          a' := (Marker(Variable(id)), action);
        case Not(x) =>
          changed := true;
          a' := (x, Restriction(Tokens.Not(t)));
        case Or(x, y) =>
          if t == Tokens.False {
            changed := true;
            removeIndices' := removeIndices' + [i];
            addItems' := addItems' + [(x, Restriction(Tokens.False))];
            addItems' := addItems' + [(y, Restriction(Tokens.False))];
          }
        case Atom(atom) =>
          if atom == t {
            compilation.AddInfo(SatisfiedMessage, None);
            removeIndices' := removeIndices' + [i];
          } else {
            compilation.AddWarning(UnsolvableMessage, None);
          }
        case _ =>
      }
    }
  }

  /** The scan state before the first and after the last action. */
  lemma ScanBounds(actions: seq<Action>)
    ensures actions == Scanned(actions[..0]) + actions[0..]
    ensures [] == IndexRemoval.ClearedPositions(Keep(actions[..0]))
    ensures [] == SplitAll(actions[..0]) && map[] == ForceSubst(actions[..0]) && [] == Notes(actions[..0])
    ensures !ForceChanges(actions[..0])
    ensures Scanned(actions[..|actions|]) + actions[|actions|..] == Scanned(actions)
    ensures actions[..|actions|] == actions
  {
    assert actions[..0] == [];
    assert Keep(actions[..0]) == [];
    assert actions[..|actions|] == actions;
  }

  /** One turn of the scan loop of `simp_force`: the action at position `i`. */
  method ScanNext(actions: seq<Action>, i: nat, compilation: Diagnostics.Compilation, scanned: seq<Action>,
                  removeIndices: seq<nat>, addItems: seq<Action>, inlineDefinitions: map<nat, Tree>, changedIn: bool, changed: bool,
                  ghost base: seq<Diagnostics.Diagnostic>)
    returns (scanned': seq<Action>, removeIndices': seq<nat>, addItems': seq<Action>, inlineDefinitions': map<nat, Tree>, changed': bool)
    requires i < |actions|
    requires scanned == Scanned(actions[..i]) + actions[i..]
    requires removeIndices == IndexRemoval.ClearedPositions(Keep(actions[..i]))
    requires addItems == SplitAll(actions[..i])
    requires inlineDefinitions == ForceSubst(actions[..i])
    requires changed == (changedIn || ForceChanges(actions[..i]))
    requires compilation.diagnostics == base + Notes(actions[..i])
    modifies compilation
    ensures scanned' == Scanned(actions[..i + 1]) + actions[i + 1..]
    ensures removeIndices' == IndexRemoval.ClearedPositions(Keep(actions[..i + 1]))
    ensures addItems' == SplitAll(actions[..i + 1])
    ensures inlineDefinitions' == ForceSubst(actions[..i + 1])
    ensures changed' == (changedIn || ForceChanges(actions[..i + 1]))
    ensures compilation.diagnostics == base + Notes(actions[..i + 1])
  {
    ScanStep(actions, i);
    ClearedStep(actions, i);
    ChangesStep(actions, i);
    ScannedStep(actions, i);
    var a;
    a, removeIndices', addItems', inlineDefinitions', changed' :=
      ScanAction(scanned[i], i, compilation, removeIndices, addItems, inlineDefinitions, changed);
    scanned' := scanned[i := a];
  }

  /** The scan of `simp_force` (src/atom_tree.rs:27-61). */
  method ScanForces(actions: seq<Action>, compilation: Diagnostics.Compilation, changedIn: bool)
    returns (scanned: seq<Action>, removeIndices: seq<nat>, addItems: seq<Action>, inlineDefinitions: map<nat, Tree>, changed: bool)
    modifies compilation
    ensures scanned == Scanned(actions)
    ensures removeIndices == IndexRemoval.ClearedPositions(Keep(actions))
    ensures addItems == SplitAll(actions)
    ensures inlineDefinitions == ForceSubst(actions)
    ensures changed == (changedIn || ForceChanges(actions))
    ensures compilation.diagnostics == old(compilation.diagnostics) + Notes(actions)
  {
    scanned := actions;
    removeIndices, addItems, inlineDefinitions := [], [], map[];
    changed := changedIn;
    var i := 0;
    ScanBounds(actions);
    while i < |scanned|
      invariant 0 <= i <= |scanned| == |actions|
      invariant scanned == Scanned(actions[..i]) + actions[i..]
      invariant removeIndices == IndexRemoval.ClearedPositions(Keep(actions[..i]))
      invariant addItems == SplitAll(actions[..i])
      invariant inlineDefinitions == ForceSubst(actions[..i])
      invariant changed == (changedIn || ForceChanges(actions[..i]))
      invariant compilation.diagnostics == old(compilation.diagnostics) + Notes(actions[..i])
    {
      scanned, removeIndices, addItems, inlineDefinitions, changed :=
        ScanNext(actions, i, compilation, scanned, removeIndices, addItems, inlineDefinitions, changedIn, changed, old(compilation.diagnostics));
      i := i + 1;
    }
  }

  /** The substitution that ends `simp_force`. */
  lemma ForceFinishes(defs: map<nat, Tree>, actions: seq<Action>, f: Tree -> Tree)
    requires forall t :: f(t) == InlineVar(t, ForceSubst(actions))
    ensures MapDefs(defs, f) == ForcedDefs(defs, actions)
    ensures MapActions(IndexRemoval.Select(Scanned(actions), Keep(actions)) + SplitAll(actions), f) == ForcedActions(actions)
  {
  }

  function SimpedDefs(defs: map<nat, Tree>): map<nat, Tree>
  {
    map id | id in defs :: SimpRec(defs[id]).0
  }

  function SimpedActions(actions: seq<Action>): seq<Action>
  {
    seq(|actions|, i requires 0 <= i < |actions| => (SimpRec(actions[i].0).0, actions[i].1))
  }

  predicate SimpReports(defs: map<nat, Tree>, actions: seq<Action>)
  {
    (exists id :: id in defs && SimpRec(defs[id]).1) ||
    (exists i :: 0 <= i < |actions| && SimpRec(actions[i].0).1)
  }

  /** `simp_rec` over every definition, threading the flag. */
  method SimpDefinitions(defs: map<nat, Tree>, changedIn: bool) returns (r: map<nat, Tree>, changed: bool)
    ensures r == SimpedDefs(defs)
    ensures changed == (changedIn || exists id :: id in defs && SimpRec(defs[id]).1)
  {
    r, changed := map[], changedIn;
    var todo := defs.Keys;
    while todo != {}
      invariant todo <= defs.Keys && r.Keys == defs.Keys - todo
      invariant forall id :: id in r ==> r[id] == SimpRec(defs[id]).0
      invariant changed == (changedIn || exists id :: id in r && SimpRec(defs[id]).1)
      decreases todo
    {
      var id :| id in todo;
      var t;
      t, changed := SimpRecursive(defs[id], changed);
      r := r[id := t];
      todo := todo - {id};
    }
  }

  /** `simp_rec` over every action tree, in order. */
  method SimpActionTrees(actions: seq<Action>, changedIn: bool) returns (r: seq<Action>, changed: bool)
    ensures r == SimpedActions(actions)
    ensures changed == (changedIn || exists i :: 0 <= i < |actions| && SimpRec(actions[i].0).1)
  {
    r, changed := [], changedIn;
    var i := 0;
    while i < |actions|
      invariant 0 <= i <= |actions| && |r| == i
      invariant forall k :: 0 <= k < i ==> r[k] == (SimpRec(actions[k].0).0, actions[k].1)
      invariant changed == (changedIn || exists k :: 0 <= k < i && SimpRec(actions[k].0).1)
    {
      var t;
      t, changed := SimpRecursive(actions[i].0, changed);
      assert forall k :: 0 <= k < i ==> (r + [(t, actions[i].1)])[k] == r[k];
      r := r + [(t, actions[i].1)];
      i := i + 1;
    }
  }

  /** `simp_rec` turns no definition into a seed or out of one, and keeps seeds standing alone. */
  lemma SimpKeepsSeedsStandAlone(defs: map<nat, Tree>, actions: seq<Action>)
    requires SeedsStandAlone(defs, actions)
    ensures SeedsStandAlone(SimpedDefs(defs), SimpedActions(actions))
    ensures forall id :: id in defs ==> (SimpRec(defs[id]).0.SeedLabel? <==> defs[id].SeedLabel?)
  {
    forall id | id in defs ensures (SimpRec(defs[id]).0.SeedLabel? <==> defs[id].SeedLabel?) &&
      (defs[id].SeedLabel? || SeedFree(SimpRec(defs[id]).0))
    {
      if !defs[id].SeedLabel? {
        SimpRecSeedFree(defs[id]);
      }
    }
    forall i | 0 <= i < |actions| ensures SeedFree(SimpRec(actions[i].0).0) {
      SimpRecSeedFree(actions[i].0);
    }
  }

  /** `simp_rec` over every tree keeps every solution and adds none. */
  lemma SimpTreesPreserveSolutions(defs: map<nat, Tree>, actions: seq<Action>, env: nat -> bool, seeds: Labels.Label -> bool)
    requires SeedsStandAlone(defs, actions)
    ensures Solves(defs, actions, env, seeds) <==> Solves(SimpedDefs(defs), SimpedActions(actions), env, seeds)
  {
    SimpKeepsSeedsStandAlone(defs, actions);
    forall id | id in defs ensures Eval(SimpRec(defs[id]).0, env, seeds) == Eval(defs[id], env, seeds) {
      SimpRecSound(defs[id], env, seeds);
    }
    var after := SimpedActions(actions);
    forall i | 0 <= i < |actions| ensures RestrictionHolds(after[i], env, seeds) <==> RestrictionHolds(actions[i], env, seeds) {
      SimpRecSound(actions[i].0, env, seeds);
    }
  }

  /** `simp_all` (`simp_rec` everywhere, then `simp_force`) keeps every solution and adds none. */
  lemma SimpAllPreservesSolutions(defs: map<nat, Tree>, actions: seq<Action>, env: nat -> bool, seeds: Labels.Label -> bool)
    requires SeedsStandAlone(defs, actions)
    ensures Solves(defs, actions, env, seeds) <==>
      Solves(ForcedDefs(SimpedDefs(defs), SimpedActions(actions)), ForcedActions(SimpedActions(actions)), env, seeds)
  {
    SimpTreesPreserveSolutions(defs, actions, env, seeds);
    ForcePreservesSolutions(SimpedDefs(defs), SimpedActions(actions), env, seeds);
  }

  /** `finalize_simp` leaves no marker and keeps the solutions. */
  lemma FinalizePreservesSolutions(defs: map<nat, Tree>, actions: seq<Action>, env: nat -> bool, seeds: Labels.Label -> bool)
    requires SeedsStandAlone(defs, actions)
    ensures ProgramMarkerFree(MapDefs(defs, RemoveMarker), MapActions(actions, RemoveMarker))
    ensures Solves(defs, actions, env, seeds) <==> Solves(MapDefs(defs, RemoveMarker), MapActions(actions, RemoveMarker), env, seeds)
  {
    var d, a := MapDefs(defs, RemoveMarker), MapActions(actions, RemoveMarker);
    forall id | id in d ensures Eval(d[id], env, seeds) == Eval(defs[id], env, seeds) && (d[id].SeedLabel? <==> defs[id].SeedLabel?) {
      RemoveMarkerEval(defs[id], env, seeds);
      if !defs[id].SeedLabel? {
        RemoveMarkerSeedFree(defs[id]);
      }
    }
    forall i | 0 <= i < |a| ensures RestrictionHolds(a[i], env, seeds) <==> RestrictionHolds(actions[i], env, seeds) {
      RemoveMarkerEval(actions[i].0, env, seeds);
    }
  }

  class AtomRoot {
    var definitions: map<nat, Tree>
    var variableId: nat
    var valueActions: seq<Action>

    constructor ()
      ensures definitions == map[] && variableId == 0 && valueActions == []
    {
      definitions := map[];
      variableId := 0;
      valueActions := [];
    }

    /** Binds the current counter to `value` and advances the counter. */
    method DefineNewVar(value: Tree) returns (id: nat)
      modifies this
      ensures id == old(variableId) && variableId == old(variableId) + 1
      ensures definitions == old(definitions)[id := value] && valueActions == old(valueActions)
    {
      id := variableId;
      variableId := variableId + 1;
      definitions := definitions[id := value];
    }

    method DefineRestriction(value: Tree, t: Tokens.AtomType)
      modifies this
      ensures valueActions == old(valueActions) + [(value, Restriction(t))]
      ensures definitions == old(definitions) && variableId == old(variableId)
    {
      valueActions := valueActions + [(value, Restriction(t))];
    }

    /** `apply_to_all_trees_mut`: `f` on every definition (in map order) and every action tree. */
    method ApplyToAllTreesMut(f: Tree -> Tree)
      modifies this
      ensures definitions == MapDefs(old(definitions), f)
      ensures valueActions == MapActions(old(valueActions), f)
      ensures variableId == old(variableId)
    {
      var todo := definitions.Keys;
      while todo != {}
        invariant todo <= definitions.Keys && definitions.Keys == old(definitions).Keys
        invariant forall id :: id in definitions ==>
          definitions[id] == if id in todo then old(definitions)[id] else f(old(definitions)[id])
        invariant valueActions == old(valueActions) && variableId == old(variableId)
        decreases todo
      {
        var id :| id in todo;
        definitions := definitions[id := f(definitions[id])];
        todo := todo - {id};
      }
      var i := 0;
      while i < |valueActions|
        invariant 0 <= i <= |valueActions| == |old(valueActions)|
        invariant forall k :: 0 <= k < i ==> valueActions[k] == (f(old(valueActions)[k].0), old(valueActions)[k].1)
        invariant forall k :: i <= k < |valueActions| ==> valueActions[k] == old(valueActions)[k]
        invariant definitions == MapDefs(old(definitions), f)
        invariant variableId == old(variableId)
      {
        valueActions := valueActions[i := (f(valueActions[i].0), valueActions[i].1)];
        i := i + 1;
      }
    }

    /** `simp_force`: `changed` is the caller's flag, raised for a negation or a split. */
    method SimpForce(compilation: Diagnostics.Compilation, changedIn: bool) returns (changed: bool)
      modifies this, compilation
      ensures definitions == ForcedDefs(old(definitions), old(valueActions))
      ensures valueActions == ForcedActions(old(valueActions))
      ensures variableId == old(variableId)
      ensures changed == (changedIn || ForceChanges(old(valueActions)))
      ensures compilation.diagnostics == old(compilation.diagnostics) + Notes(old(valueActions))
    {
      ghost var defs, actions := definitions, valueActions;
      var scanned, removeIndices, addItems, inlineDefinitions;
      scanned, removeIndices, addItems, inlineDefinitions, changed := ScanForces(valueActions, compilation, changedIn);
      var kept := IndexRemoval.RemoveInReverse(scanned, removeIndices, Keep(actions));
      valueActions := kept + addItems;
      ApplyToAllTreesMut(t => InlineVar(t, inlineDefinitions));
      ForceFinishes(defs, actions, t => InlineVar(t, inlineDefinitions));
    }

    /** `simp_all`: `simp_rec` over every tree (`apply_to_all_trees`), then `simp_force`. */
    method SimpAll(compilation: Diagnostics.Compilation) returns (changed: bool)
      modifies this, compilation
      ensures definitions == ForcedDefs(SimpedDefs(old(definitions)), SimpedActions(old(valueActions)))
      ensures valueActions == ForcedActions(SimpedActions(old(valueActions)))
      ensures variableId == old(variableId)
      ensures changed == (SimpReports(old(definitions), old(valueActions)) || ForceChanges(SimpedActions(old(valueActions))))
      ensures compilation.diagnostics == old(compilation.diagnostics) + Notes(SimpedActions(old(valueActions)))
    {
      changed := false;
      definitions, changed := SimpDefinitions(definitions, changed);
      valueActions, changed := SimpActionTrees(valueActions, changed);
      changed := SimpForce(compilation, changed);
    }

    /** `finalize_simp`: strips every marker. */
    method FinalizeSimp()
      modifies this
      ensures definitions == MapDefs(old(definitions), RemoveMarker)
      ensures valueActions == MapActions(old(valueActions), RemoveMarker)
      ensures variableId == old(variableId)
    {
      ApplyToAllTreesMut(t => RemoveMarker(t));
    }

    /**
     * `remove_links`: `subst` is what the scan recorded (it depends on the
     * map's visiting order); the result says whether anything was recorded.
     */
    method RemoveLinks() returns (result: bool, ghost subst: map<nat, Tree>)
      modifies this
      ensures LinkSubst(old(definitions), subst)
      ensures result == (subst != map[])
      ensures result <==> exists id :: id in old(definitions) && IsLink(old(definitions)[id])
      ensures !result ==> definitions == old(definitions) && valueActions == old(valueActions)
      ensures result ==> (definitions == LinkedDefs(old(definitions), subst) &&
                          valueActions == MapActions(old(valueActions), t => InlineVar(t, subst)) &&
                          |definitions| < |old(definitions)|)
      ensures variableId == old(variableId)
    {
      ghost var defs, actions := definitions, valueActions;
      var inlineDefinitions := CollectLinks(definitions);
      subst := inlineDefinitions;
      LinkSubstEmpty(defs, subst);
      if |inlineDefinitions| == 0 {
        return false, subst;
      }
      ApplyToAllTreesMut(t => InlineVar(t, inlineDefinitions));
      definitions := definitions - inlineDefinitions.Keys;
      LinkedDefsShrink(defs, subst);
      result := true;
    }

    /** `inline_vars`: returns at once, reporting no change. */
    method InlineVars() returns (changed: bool)
      ensures !changed
    {
      return false;
    }
  }
}
