/**
 * `AtomRoot` (src/compiler/atom_tree.rs:8-189): the program as a mutable
 * object.  Its passes edit the definition map, the action list and the id
 * counter in place; each is proved against the specification functions of
 * NaryForce, NaryLinks, NaryInline and NaryOutline, whose lemmas say what
 * the pass means for the program's solutions.
 */
module NaryRoot {
  import Tokens
  import Labels
  import Diagnostics
  import opened Wrappers
  import opened NaryTree
  import opened NarySimp
  import opened NarySystem
  import opened NaryForce
  import opened NaryLinks
  import opened NaryInline
  import opened NaryOutline
  import IndexRemoval

  /** The trees after `simp_rec`. */
  function SimpedDefs(defs: map<nat, Tree>): map<nat, Tree>
  {
    map id | id in defs :: SimpRec(defs[id]).0
  }

  function SimpedActions(actions: seq<Action>): seq<Action>
  {
    seq(|actions|, i requires 0 <= i < |actions| => (SimpRec(actions[i].0).0, actions[i].1))
  }

  /** Some `simp_rec` over the program reported a rewrite. */
  predicate SimpReports(defs: map<nat, Tree>, actions: seq<Action>)
  {
    (exists id :: id in defs && SimpRec(defs[id]).1) ||
    (exists i :: 0 <= i < |actions| && SimpRec(actions[i].0).1)
  }

  /** `simp_rec` turns no definition into a seed or out of one, and keeps seeds standing alone. */
  lemma SimpKeepsSeedsStandAlone(defs: map<nat, Tree>, actions: seq<Action>)
    requires SeedsStandAlone(defs, actions)
    ensures SeedsStandAlone(SimpedDefs(defs), SimpedActions(actions))
    ensures forall id :: id in defs ==> (SimpRec(defs[id]).0.SeedLabel? <==> defs[id].SeedLabel?)
  {
    forall id | id in defs ensures (SimpRec(defs[id]).0.SeedLabel? <==> defs[id].SeedLabel?) &&
      (defs[id].SeedLabel? || SeedFree(SimpRec(defs[id]).0))
    {
      if !defs[id].SeedLabel? {
        SimpRecSeedFree(defs[id]);
      }
    }
    forall i | 0 <= i < |actions| ensures SeedFree(SimpRec(actions[i].0).0) {
      SimpRecSeedFree(actions[i].0);
    }
  }

  /** `simp_rec` over every tree keeps every solution and adds none. */
  lemma SimpTreesPreserveSolutions(defs: map<nat, Tree>, actions: seq<Action>, env: nat -> bool, seeds: Labels.Label -> bool)
    requires SeedsStandAlone(defs, actions)
    ensures Solves(defs, actions, env, seeds) <==> Solves(SimpedDefs(defs), SimpedActions(actions), env, seeds)
  {
    SimpKeepsSeedsStandAlone(defs, actions);
    forall id | id in defs ensures Eval(SimpRec(defs[id]).0, env, seeds) == Eval(defs[id], env, seeds) {
      SimpRecSound(defs[id], env, seeds);
    }
    var after := SimpedActions(actions);
    forall i | 0 <= i < |actions| ensures RestrictionHolds(after[i], env, seeds) <==> RestrictionHolds(actions[i], env, seeds) {
      SimpRecSound(actions[i].0, env, seeds);
    }
  }

  /** `simp_all` (`simp_force`, then `simp_rec` everywhere) keeps every solution and adds none. */
  lemma SimpAllPreservesSolutions(defs: map<nat, Tree>, actions: seq<Action>, env: nat -> bool, seeds: Labels.Label -> bool)
    requires SeedsStandAlone(defs, actions)
    ensures Solves(defs, actions, env, seeds) <==>
      Solves(SimpedDefs(ForcedDefs(defs, actions)), SimpedActions(ForcedActions(actions)), env, seeds)
  {
    ForcePreservesSolutions(defs, actions, env, seeds);
    ForceKeepsSeedsStandAlone(defs, actions);
    SimpTreesPreserveSolutions(ForcedDefs(defs, actions), ForcedActions(actions), env, seeds);
  }

  /** After `finalize_simp` no tree holds a marker, and the solutions are the same. */
  lemma FinalizePreservesSolutions(defs: map<nat, Tree>, actions: seq<Action>, env: nat -> bool, seeds: Labels.Label -> bool)
    requires SeedsStandAlone(defs, actions)
    ensures ProgramMarkerFree(MapDefs(defs, RemoveMarker), MapActions(actions, RemoveMarker))
    ensures Solves(defs, actions, env, seeds) <==> Solves(MapDefs(defs, RemoveMarker), MapActions(actions, RemoveMarker), env, seeds)
  {
    var d, a := MapDefs(defs, RemoveMarker), MapActions(actions, RemoveMarker);
    forall id | id in d ensures MarkerFree(d[id]) && Eval(d[id], env, seeds) == Eval(defs[id], env, seeds)
      && (d[id].SeedLabel? <==> defs[id].SeedLabel?)
    {
      RemoveMarkerIsMarkerFree(defs[id]);
      RemoveMarkerEval(defs[id], env, seeds);
      if !defs[id].SeedLabel? {
        RemoveMarkerSeedFree(defs[id]);
      }
    }
    forall i | 0 <= i < |a| ensures MarkerFree(a[i].0) && (RestrictionHolds(a[i], env, seeds) <==> RestrictionHolds(actions[i], env, seeds)) {
      RemoveMarkerIsMarkerFree(actions[i].0);
      RemoveMarkerEval(actions[i].0, env, seeds);
    }
  }

  lemma ScanStep(orig: seq<Action>, i: nat)
    requires i < |orig|
    ensures Keep(orig[..i + 1]) == Keep(orig[..i]) + [!Dropped(orig[i])]
    ensures SplitAll(orig[..i + 1]) == SplitAll(orig[..i]) + Split(orig[i])
    ensures ForceSubst(orig[..i + 1]) ==
      if orig[i].1.Restriction? && orig[i].0.Variable?
      then ForceSubst(orig[..i])[orig[i].0.id := Atom(orig[i].1.atom)] else ForceSubst(orig[..i])
    ensures Warnings(orig[..i + 1]) == Warnings(orig[..i]) +
      if Contradicted(orig[i]) then [Diagnostics.Diagnostic(Diagnostics.Warning, UnsolvableMessage, None)] else []
  {
    assert orig[..i + 1][..i] == orig[..i];
  }

  lemma ClearedStep(orig: seq<Action>, i: nat)
    requires i < |orig|
    ensures IndexRemoval.ClearedPositions(Keep(orig[..i + 1])) ==
      IndexRemoval.ClearedPositions(Keep(orig[..i])) + if Dropped(orig[i]) then [i] else []
  {
    ScanStep(orig, i);
    assert Keep(orig[..i + 1])[..i] == Keep(orig[..i]);
  }

  lemma ChangesStep(orig: seq<Action>, i: nat)
    requires i < |orig|
    ensures ForceChanges(orig[..i + 1]) == (ForceChanges(orig[..i]) || Reported(orig[i]))
  {
    if ForceChanges(orig[..i + 1]) && !Reported(orig[i]) {
      var k :| 0 <= k < i + 1 && Reported(orig[..i + 1][k]);
      assert orig[..i][k] == orig[k];
    }
    if ForceChanges(orig[..i]) {
      var k :| 0 <= k < i && Reported(orig[..i][k]);
      assert orig[..i + 1][k] == orig[k];
    }
    if Reported(orig[i]) {
      assert orig[..i + 1][i] == orig[i];
    }
  }

  lemma ScannedStep(orig: seq<Action>, i: nat)
    requires i < |orig|
    ensures (Scanned(orig[..i]) + orig[i..])[i] == orig[i]
    ensures (Scanned(orig[..i]) + orig[i..])[i := Rewrite(orig[i])] == Scanned(orig[..i + 1]) + orig[i + 1..]
  {
  }

  /** The two `apply_to_all_trees_mut` calls that end `simp_force`. */
  lemma ForceFinishes(defs: map<nat, Tree>, actions: seq<Action>, f: Tree -> Tree, g: Tree -> Tree)
    requires forall t :: f(t) == InlineVar(t, ForceSubst(actions))
    requires forall t :: g(t) == RemoveMarker(t)
    ensures MapDefs(MapDefs(defs, f), g) == ForcedDefs(defs, actions)
    ensures MapActions(MapActions(IndexRemoval.Select(Scanned(actions), Keep(actions)) + SplitAll(actions), f), g)
      == ForcedActions(actions)
  {
  }

  /** The substitution step of `remove_links`. */
  lemma LinksApplied(defs: map<nat, Tree>, actions: seq<Action>, subst: map<nat, Tree>, f: Tree -> Tree)
    requires forall t :: f(t) == InlineVar(t, subst)
    ensures MapDefs(defs, f) - subst.Keys == LinkedDefs(defs, subst)
    ensures MapActions(actions, f) == LinkedActions(actions, subst)
  {
  }

  /** The body of the scan of `simp_force` for the action at position `i`. */
  method ScanAction(a: Action, i: nat, compilation: Diagnostics.Compilation, removeIndices: seq<nat>, addItems: seq<Action>,
                    inlineDefinitions: map<nat, Tree>, changedIn: bool)
    returns (a': Action, removeIndices': seq<nat>, addItems': seq<Action>, inlineDefinitions': map<nat, Tree>, changed: bool)
    modifies compilation
    ensures a' == Rewrite(a)
    ensures removeIndices' == removeIndices + if Dropped(a) then [i] else []
    ensures addItems' == addItems + Split(a)
    ensures inlineDefinitions' ==
      if a.1.Restriction? && a.0.Variable? then inlineDefinitions[a.0.id := Atom(a.1.atom)] else inlineDefinitions
    ensures changed == (changedIn || Reported(a))
    ensures compilation.diagnostics == old(compilation.diagnostics) +
      if Contradicted(a) then [Diagnostics.Diagnostic(Diagnostics.Warning, UnsolvableMessage, None)] else []
  {
    a', removeIndices', addItems', inlineDefinitions', changed := a, removeIndices, addItems, inlineDefinitions, changedIn;
    var (value, action) := a;
    if action.Restriction? {
      var t := action.atom;
      match value {
        case Variable(id) =>
          inlineDefinitions' := inlineDefinitions'[id := Atom(t)];
          a' := (Marker(Variable(id)), action);
        case Not(x) =>
          changed := true;
          a' := (x, Restriction(Tokens.Not(t)));
        case Or(s) =>
          if t == Tokens.False {
            changed := true;
            removeIndices' := removeIndices' + [i];
            ghost var parts := Split(a);
            assert |parts| == |s| && forall k :: 0 <= k < |s| ==> parts[k] == (s[k], Restriction(Tokens.False));
            var k := 0;
            while k < |s|
              invariant 0 <= k <= |s|
              invariant addItems' == addItems + parts[..k]
            {
              assert parts[..k + 1] == parts[..k] + [(s[k], Restriction(Tokens.False))];
              addItems' := addItems' + [(s[k], Restriction(Tokens.False))];
              k := k + 1;
            }
            assert parts[..|s|] == parts;
          }
        case Atom(atom) =>
          if atom == t {
            removeIndices' := removeIndices' + [i];
          } else {
            compilation.AddWarning(UnsolvableMessage, None);
          }
        case _ =>
      }
    }
  }

  /** The scan state before the first and after the last action. */
  lemma ScanBounds(actions: seq<Action>)
    ensures actions == Scanned(actions[..0]) + actions[0..]
    ensures [] == IndexRemoval.ClearedPositions(Keep(actions[..0]))
    ensures [] == SplitAll(actions[..0]) && map[] == ForceSubst(actions[..0]) && [] == Warnings(actions[..0])
    ensures !ForceChanges(actions[..0])
    ensures Scanned(actions[..|actions|]) + actions[|actions|..] == Scanned(actions)
    ensures actions[..|actions|] == actions
  {
    assert actions[..0] == [];
    assert Keep(actions[..0]) == [];
    assert actions[..|actions|] == actions;
  }

  /** One turn of the scan loop of `simp_force`: the action at position `i`. */
  method ScanNext(actions: seq<Action>, i: nat, compilation: Diagnostics.Compilation, scanned: seq<Action>,
                  removeIndices: seq<nat>, addItems: seq<Action>, inlineDefinitions: map<nat, Tree>, changedIn: bool, changed: bool,
                  ghost base: seq<Diagnostics.Diagnostic>)
    returns (scanned': seq<Action>, removeIndices': seq<nat>, addItems': seq<Action>, inlineDefinitions': map<nat, Tree>, changed': bool)
    requires i < |actions|
    requires scanned == Scanned(actions[..i]) + actions[i..]
    requires removeIndices == IndexRemoval.ClearedPositions(Keep(actions[..i]))
    requires addItems == SplitAll(actions[..i])
    requires inlineDefinitions == ForceSubst(actions[..i])
    requires changed == (changedIn || ForceChanges(actions[..i]))
    requires compilation.diagnostics == base + Warnings(actions[..i])
    modifies compilation
    ensures scanned' == Scanned(actions[..i + 1]) + actions[i + 1..]
    ensures removeIndices' == IndexRemoval.ClearedPositions(Keep(actions[..i + 1]))
    ensures addItems' == SplitAll(actions[..i + 1])
    ensures inlineDefinitions' == ForceSubst(actions[..i + 1])
    ensures changed' == (changedIn || ForceChanges(actions[..i + 1]))
    ensures compilation.diagnostics == base + Warnings(actions[..i + 1])
  {
    ScanStep(actions, i);
    ClearedStep(actions, i);
    ChangesStep(actions, i);
    ScannedStep(actions, i);
    var a;
    a, removeIndices', addItems', inlineDefinitions', changed' :=
      ScanAction(scanned[i], i, compilation, removeIndices, addItems, inlineDefinitions, changed);
    scanned' := scanned[i := a];
  }

  /**
   * The scan of `simp_force` (src/compiler/atom_tree.rs:36-74): rewrites
   * each action in place and collects the positions to delete, the
   * restrictions to append and the substitution.
   */
  method ScanForces(actions: seq<Action>, compilation: Diagnostics.Compilation, changedIn: bool)
    returns (scanned: seq<Action>, removeIndices: seq<nat>, addItems: seq<Action>, inlineDefinitions: map<nat, Tree>, changed: bool)
    modifies compilation
    ensures scanned == Scanned(actions)
    ensures removeIndices == IndexRemoval.ClearedPositions(Keep(actions))
    ensures addItems == SplitAll(actions)
    ensures inlineDefinitions == ForceSubst(actions)
    ensures changed == (changedIn || ForceChanges(actions))
    ensures compilation.diagnostics == old(compilation.diagnostics) + Warnings(actions)
  {
    scanned := actions;
    removeIndices, addItems, inlineDefinitions := [], [], map[];
    changed := changedIn;
    var i := 0;
    ScanBounds(actions);
    while i < |scanned|
      invariant 0 <= i <= |scanned| == |actions|
      invariant scanned == Scanned(actions[..i]) + actions[i..]
      invariant removeIndices == IndexRemoval.ClearedPositions(Keep(actions[..i]))
      invariant addItems == SplitAll(actions[..i])
      invariant inlineDefinitions == ForceSubst(actions[..i])
      invariant changed == (changedIn || ForceChanges(actions[..i]))
      invariant compilation.diagnostics == old(compilation.diagnostics) + Warnings(actions[..i])
    {
      scanned, removeIndices, addItems, inlineDefinitions, changed :=
        ScanNext(actions, i, compilation, scanned, removeIndices, addItems, inlineDefinitions, changedIn, changed,
                 old(compilation.diagnostics));
      i := i + 1;
    }
  }

  /** `simp_rec` over every definition, threading the flag (map order does not matter). */
  method SimpDefinitions(defs: map<nat, Tree>, changedIn: bool) returns (r: map<nat, Tree>, changed: bool)
    ensures r == SimpedDefs(defs)
    ensures changed == (changedIn || exists id :: id in defs && SimpRec(defs[id]).1)
  {
    r, changed := map[], changedIn;
    var todo := defs.Keys;
    while todo != {}
      invariant todo <= defs.Keys && r.Keys == defs.Keys - todo
      invariant forall id :: id in r ==> r[id] == SimpRec(defs[id]).0
      invariant changed == (changedIn || exists id :: id in r && SimpRec(defs[id]).1)
      decreases todo
    {
      var id :| id in todo;
      var t;
      t, changed := SimpRecursive(defs[id], changed);
      r := r[id := t];
      todo := todo - {id};
    }
  }

  /** Rewrites against a table stay rewrites against any table that extends it. */
  lemma OutlinedDefsGrow(defs: map<nat, Tree>, r: map<nat, Tree>, table: Table, bigger: Table)
    requires r.Keys == defs.Keys && table <= bigger
    requires forall id :: id in r ==> Outlines(table, defs[id], r[id])
    ensures forall id :: id in r ==> Outlines(bigger, defs[id], r[id])
  {
    forall id | id in r ensures Outlines(bigger, defs[id], r[id]) {
      OutlinesGrow(table, bigger, defs[id], r[id]);
    }
  }

  /** The outlined definitions are inserted into the rewritten ones, in table order. */
  method InsertOutlined(rewritten: map<nat, Tree>, table: Table) returns (defs: map<nat, Tree>)
    ensures defs == rewritten + TableDefs(table)
  {
    defs := rewritten;
    var k := 0;
    while k < |table|
      invariant 0 <= k <= |table|
      invariant defs == rewritten + TableDefs(table[..k])
    {
      assert table[..k + 1][..k] == table[..k];
      defs := defs[table[k].1 := table[k].0];
      k := k + 1;
    }
    assert table[..|table|] == table;
  }

  /** `simp_rec` over every action tree, in order. */
  method SimpActionTrees(actions: seq<Action>, changedIn: bool) returns (r: seq<Action>, changed: bool)
    ensures r == SimpedActions(actions)
    ensures changed == (changedIn || exists i :: 0 <= i < |actions| && SimpRec(actions[i].0).1)
  {
    r, changed := [], changedIn;
    var i := 0;
    assert actions[..0] == [];
    while i < |actions|
      invariant 0 <= i <= |actions|
      invariant r == SimpedActions(actions[..i])
      invariant changed == (changedIn || ActionReports(actions[..i]))
    {
      var t;
      t, changed := SimpRecursive(actions[i].0, changed);
      SimpedActionsSnoc(actions, i);
      ActionReportsSnoc(actions, i);
      r := r + [(t, actions[i].1)];
      i := i + 1;
    }
    assert actions[..i] == actions;
  }

  /** Some action tree's `simp_rec` reported a rewrite. */
  predicate ActionReports(actions: seq<Action>)
  {
    exists i :: 0 <= i < |actions| && SimpRec(actions[i].0).1
  }

  lemma SimpedActionsSnoc(actions: seq<Action>, i: nat)
    requires i < |actions|
    ensures SimpedActions(actions[..i + 1]) == SimpedActions(actions[..i]) + [(SimpRec(actions[i].0).0, actions[i].1)]
  {
  }

  lemma ActionReportsSnoc(actions: seq<Action>, i: nat)
    requires i < |actions|
    ensures ActionReports(actions[..i + 1]) == (ActionReports(actions[..i]) || SimpRec(actions[i].0).1)
  {
    if SimpRec(actions[i].0).1 {
      assert actions[..i + 1][i] == actions[i];
    }
    if ActionReports(actions[..i]) {
      var k :| 0 <= k < i && SimpRec(actions[..i][k].0).1;
      assert actions[..i + 1][k] == actions[..i][k];
    }
    if ActionReports(actions[..i + 1]) {
      var k :| 0 <= k < i + 1 && SimpRec(actions[..i + 1][k].0).1;
      if k < i {
        assert actions[..i][k] == actions[..i + 1][k];
      }
    }
  }

  lemma TargetsAdd(subst: map<nat, Tree>, id: nat, t: Tree)
    requires id !in subst
    ensures Targets(subst[id := t]) == Targets(subst) + (if t.Variable? then {t.id} else {})
  {
    var m := subst[id := t];
    if t.Variable? {
      assert m[id] == t;
    }
    forall x | x in Targets(subst) ensures x in Targets(m) {
      var y :| y in subst && subst[y].Variable? && subst[y].id == x;
      assert m[y] == subst[y];
    }
    forall x | x in Targets(m) ensures x in Targets(subst) || (t.Variable? && x == t.id) {
      var y :| y in m && m[y].Variable? && m[y].id == x;
      if y != id {
        assert y in subst && subst[y] == m[y];
      }
    }
  }

  /**
   * The scan of `remove_links` (src/compiler/atom_tree.rs:120-139), in any
   * visiting order of the map.
   */
  method CollectLinks(defs: map<nat, Tree>) returns (inlineDefinitions: map<nat, Tree>)
    ensures LinkSubst(defs, inlineDefinitions)
  {
    inlineDefinitions := map[];
    var excludeForNow: set<nat> := {};
    var todo := defs.Keys;
    while todo != {}
      invariant todo <= defs.Keys
      invariant inlineDefinitions.Keys !! todo && excludeForNow == Targets(inlineDefinitions)
      invariant forall id :: id in inlineDefinitions ==> id in defs && inlineDefinitions[id] == defs[id] && IsLink(defs[id])
      invariant forall id :: (id in inlineDefinitions && inlineDefinitions[id].Variable? &&
                              inlineDefinitions[id].id in inlineDefinitions) ==> inlineDefinitions[id].id == id
      invariant forall id :: (id in defs && id !in todo && IsLink(defs[id]) && id !in inlineDefinitions) ==>
                              (id in Targets(inlineDefinitions) || (defs[id].Variable? && defs[id].id in inlineDefinitions))
      decreases todo
    {
      var id :| id in todo;
      todo := todo - {id};
      if id in excludeForNow {
        continue;
      }
      match defs[id] {
        case Variable(v) =>
          if v !in inlineDefinitions {
            TargetsAdd(inlineDefinitions, id, Variable(v));
            inlineDefinitions := inlineDefinitions[id := Variable(v)];
            excludeForNow := excludeForNow + {v};
          }
        case Atom(a) =>
          TargetsAdd(inlineDefinitions, id, Atom(a));
          inlineDefinitions := inlineDefinitions[id := Atom(a)];
        case _ =>
      }
    }
  }

  /**
   * The closure of `inline_all` over the definitions: each one expanded
   * against the unchanged copy `defs`, sharing the memo.
   */
  method InlineDefinitions(defs: map<nat, Tree>, memo: map<nat, Tree>, ghost rank: nat -> nat)
    returns (ok: bool, r: map<nat, Tree>, memo': map<nat, Tree>)
    requires Ranked(defs, rank) && MemoSound(defs, memo, rank)
    ensures ok == forall id :: id in defs ==> Expand(defs, defs[id], rank, rank(id)).Some?
    ensures ok ==> r.Keys == defs.Keys && forall id :: id in r ==> Some(r[id]) == Expand(defs, defs[id], rank, rank(id))
    ensures MemoSound(defs, memo', rank)
  {
    r, memo' := map[], memo;
    var todo := defs.Keys;
    while todo != {}
      invariant todo <= defs.Keys && r.Keys == defs.Keys - todo
      invariant forall id :: id in r ==> Some(r[id]) == Expand(defs, defs[id], rank, rank(id))
      invariant MemoSound(defs, memo', rank)
      decreases todo
    {
      var id :| id in todo;
      var e;
      ok, e, memo' := InlineTree(defs[id], defs, memo', rank, rank(id));
      if !ok {
        return;
      }
      r := r[id := e];
      todo := todo - {id};
    }
    ok := true;
  }

  /** The closure of `inline_all` over the action trees. */
  method InlineActions(actions: seq<Action>, defs: map<nat, Tree>, memo: map<nat, Tree>, ghost rank: nat -> nat)
    returns (ok: bool, r: seq<Action>)
    requires Ranked(defs, rank) && MemoSound(defs, memo, rank)
    ensures ok == forall i :: 0 <= i < |actions| ==> Expand(defs, actions[i].0, rank, RankBound(defs.Keys, rank)).Some?
    ensures ok ==> |r| == |actions|
    ensures ok ==> forall i :: 0 <= i < |r| ==>
      r[i].1 == actions[i].1 && Some(r[i].0) == Expand(defs, actions[i].0, rank, RankBound(defs.Keys, rank))
  {
    ghost var bound := RankBound(defs.Keys, rank);
    var memo' := memo;
    r := [];
    var i := 0;
    while i < |actions|
      invariant 0 <= i <= |actions| && |r| == i
      invariant forall k :: 0 <= k < i ==> r[k].1 == actions[k].1 && Some(r[k].0) == Expand(defs, actions[k].0, rank, bound)
      invariant MemoSound(defs, memo', rank)
    {
      var e;
      ok, e, memo' := InlineTree(actions[i].0, defs, memo', rank, bound);
      if !ok {
        return;
      }
      assert forall k :: 0 <= k < i ==> (r + [(e, actions[i].1)])[k] == r[k];
      r := r + [(e, actions[i].1)];
      i := i + 1;
    }
    ok := true;
  }

  /** The seed-label filter that ends `inline_all`. */
  lemma InlinedSeeds(defs: map<nat, Tree>, r: map<nat, Tree>, rank: nat -> nat)
    requires Ranked(defs, rank) && r.Keys == defs.Keys
    requires forall id :: id in r ==> Some(r[id]) == Expand(defs, defs[id], rank, rank(id))
    ensures (map id | id in r && r[id].SeedLabel? :: r[id]) == SeedDefs(defs)
  {
    forall id | id in defs ensures r[id].SeedLabel? <==> defs[id].SeedLabel? {
      ExpandKeepsSeeds(defs, defs[id], rank, rank(id));
    }
  }

  /** The closure of `outline_common_expressions` over the definitions (seed labels skipped). */
  method OutlineDefinitions(defs: map<nat, Tree>, table: Table, ghost base: nat, count: nat)
    returns (r: map<nat, Tree>, table': Table, count': nat)
    requires WellFormed(table, base, count)
    ensures WellFormed(table', base, count') && table <= table'
    ensures r.Keys == defs.Keys && forall id :: id in r ==> Outlines(table', defs[id], r[id])
    ensures Layered(table, base) && TreesBelow(defs, [], base) ==> Layered(table', base)
    ensures NoSeedEntries(table) && SeedsStandAlone(defs, []) ==> NoSeedEntries(table')
  {
    r, table', count' := defs, table, count;
    var todo := defs.Keys;
    while todo != {}
      invariant todo <= defs.Keys && r.Keys == defs.Keys
      invariant WellFormed(table', base, count') && table <= table'
      invariant forall id :: id in todo ==> r[id] == defs[id]
      invariant forall id :: id in r && id !in todo ==> Outlines(table', defs[id], r[id])
      invariant Layered(table, base) && TreesBelow(defs, [], base) ==> Layered(table', base)
      invariant NoSeedEntries(table) && SeedsStandAlone(defs, []) ==> NoSeedEntries(table')
      decreases todo
    {
      var id :| id in todo;
      todo := todo - {id};
      var t := r[id];
      if t.SeedLabel? {
        continue;
      }
      var o := OutlineTree(t, table', count');
      OutlineRoot(t, table', base, count');
      if Layered(table, base) && TreesBelow(defs, [], base) {
        OutlineLayered(t, table', base, count');
      }
      if NoSeedEntries(table) && SeedsStandAlone(defs, []) {
        OutlineNoSeedEntries(t, table', count');
      }
      forall other | other in r && other !in todo && other != id ensures Outlines(o.table, defs[other], r[other]) {
        OutlinesGrow(table', o.table, defs[other], r[other]);
      }
      r := r[id := o.tree];
      table', count' := o.table, o.count;
    }
  }

  /** The closure of `outline_common_expressions` over the action trees. */
  method OutlineActions(actions: seq<Action>, table: Table, ghost base: nat, count: nat)
    returns (r: seq<Action>, table': Table, count': nat)
    requires WellFormed(table, base, count)
    ensures WellFormed(table', base, count') && table <= table'
    ensures |r| == |actions|
    ensures forall i :: 0 <= i < |r| ==> r[i].1 == actions[i].1 && Outlines(table', actions[i].0, r[i].0)
    ensures Layered(table, base) && TreesBelow(map[], actions, base) ==> Layered(table', base)
    ensures NoSeedEntries(table) && SeedsStandAlone(map[], actions) ==> NoSeedEntries(table')
  {
    r, table', count' := [], table, count;
    var i := 0;
    while i < |actions|
      invariant 0 <= i <= |actions| && |r| == i
      invariant WellFormed(table', base, count') && table <= table'
      invariant forall k :: 0 <= k < i ==> r[k].1 == actions[k].1 && Outlines(table', actions[k].0, r[k].0)
      invariant Layered(table, base) && TreesBelow(map[], actions, base) ==> Layered(table', base)
      invariant NoSeedEntries(table) && SeedsStandAlone(map[], actions) ==> NoSeedEntries(table')
    {
      var t := actions[i].0;
      if t.SeedLabel? {
        assert forall k :: 0 <= k < i ==> (r + [actions[i]])[k] == r[k];
        r := r + [actions[i]];
      } else {
        var o := OutlineTree(t, table', count');
        OutlineRoot(t, table', base, count');
        if Layered(table, base) && TreesBelow(map[], actions, base) {
          OutlineLayered(t, table', base, count');
        }
        if NoSeedEntries(table) && SeedsStandAlone(map[], actions) {
          OutlineNoSeedEntries(t, table', count');
        }
        forall k | 0 <= k < i ensures Outlines(o.table, actions[k].0, r[k].0) {
          OutlinesGrow(table', o.table, actions[k].0, r[k].0);
        }
        assert forall k :: 0 <= k < i ==> (r + [(o.tree, actions[i].1)])[k] == r[k];
        r := r + [(o.tree, actions[i].1)];
        table', count' := o.table, o.count;
      }
      i := i + 1;
    }
  }

  class AtomRoot {
    var definitions: map<nat, Tree>
    var variableId: nat
    var valueActions: seq<Action>

    /** `AtomRoot::default()`. */
    constructor ()
      ensures definitions == map[] && variableId == 0 && valueActions == []
    {
      definitions := map[];
      variableId := 0;
      valueActions := [];
    }

    /** Binds the current counter to `value` and advances the counter. */
    method DefineNewVar(value: Tree) returns (id: nat)
      modifies this
      ensures id == old(variableId) && variableId == old(variableId) + 1
      ensures definitions == old(definitions)[id := value] && valueActions == old(valueActions)
    {
      id := variableId;
      variableId := variableId + 1;
      definitions := definitions[id := value];
    }

    method DefineRestriction(value: Tree, t: Tokens.AtomType)
      modifies this
      ensures valueActions == old(valueActions) + [(value, Restriction(t))]
      ensures definitions == old(definitions) && variableId == old(variableId)
    {
      valueActions := valueActions + [(value, Restriction(t))];
    }

    /** `apply_to_all_trees_mut`: `f` on every definition (in map order) and every action tree. */
    method ApplyToAllTreesMut(f: Tree -> Tree)
      modifies this
      ensures definitions == MapDefs(old(definitions), f)
      ensures valueActions == MapActions(old(valueActions), f)
      ensures variableId == old(variableId)
    {
      var todo := definitions.Keys;
      while todo != {}
        invariant todo <= definitions.Keys && definitions.Keys == old(definitions).Keys
        invariant forall id :: id in definitions ==>
          definitions[id] == if id in todo then old(definitions)[id] else f(old(definitions)[id])
        invariant valueActions == old(valueActions) && variableId == old(variableId)
        decreases todo
      {
        var id :| id in todo;
        definitions := definitions[id := f(definitions[id])];
        todo := todo - {id};
      }
      var i := 0;
      while i < |valueActions|
        invariant 0 <= i <= |valueActions| == |old(valueActions)|
        invariant forall k :: 0 <= k < i ==> valueActions[k] == (f(old(valueActions)[k].0), old(valueActions)[k].1)
        invariant forall k :: i <= k < |valueActions| ==> valueActions[k] == old(valueActions)[k]
        invariant definitions == MapDefs(old(definitions), f)
        invariant variableId == old(variableId)
      {
        valueActions := valueActions[i := (f(valueActions[i].0), valueActions[i].1)];
        i := i + 1;
      }
    }

    /** `simp_force`: `changed` is the caller's flag, raised for a negation or a split. */
    method SimpForce(compilation: Diagnostics.Compilation, changedIn: bool) returns (changed: bool)
      modifies this, compilation
      ensures definitions == ForcedDefs(old(definitions), old(valueActions))
      ensures valueActions == ForcedActions(old(valueActions))
      ensures variableId == old(variableId)
      ensures changed == (changedIn || ForceChanges(old(valueActions)))
      ensures compilation.diagnostics == old(compilation.diagnostics) + Warnings(old(valueActions))
    {
      ghost var defs, actions := definitions, valueActions;
      var scanned, removeIndices, addItems, inlineDefinitions;
      scanned, removeIndices, addItems, inlineDefinitions, changed := ScanForces(valueActions, compilation, changedIn);
      var kept := IndexRemoval.RemoveInReverse(scanned, removeIndices, Keep(actions));
      valueActions := kept + addItems;
      ApplyToAllTreesMut(t => InlineVar(t, inlineDefinitions));
      ApplyToAllTreesMut(t => RemoveMarker(t));
      ForceFinishes(defs, actions, t => InlineVar(t, inlineDefinitions), t => RemoveMarker(t));
    }

    /** `simp_all`: `simp_force`, then `simp_rec` over every tree (`apply_to_all_trees`). */
    method SimpAll(compilation: Diagnostics.Compilation) returns (changed: bool)
      modifies this, compilation
      ensures definitions == SimpedDefs(ForcedDefs(old(definitions), old(valueActions)))
      ensures valueActions == SimpedActions(ForcedActions(old(valueActions)))
      ensures variableId == old(variableId)
      ensures changed == (ForceChanges(old(valueActions)) ||
                          SimpReports(ForcedDefs(old(definitions), old(valueActions)), ForcedActions(old(valueActions))))
      ensures compilation.diagnostics == old(compilation.diagnostics) + Warnings(old(valueActions))
    {
      changed := SimpForce(compilation, false);
      definitions, changed := SimpDefinitions(definitions, changed);
      valueActions, changed := SimpActionTrees(valueActions, changed);
    }

    /** `finalize_simp`: strips every marker. */
    method FinalizeSimp()
      modifies this
      ensures definitions == MapDefs(old(definitions), RemoveMarker)
      ensures valueActions == MapActions(old(valueActions), RemoveMarker)
      ensures variableId == old(variableId)
    {
      ApplyToAllTreesMut(t => RemoveMarker(t));
    }

    /**
     * `remove_links`: `subst` is what the scan recorded (it depends on the
     * map's visiting order); the result says whether anything was recorded.
     */
    method RemoveLinks() returns (result: bool, ghost subst: map<nat, Tree>)
      modifies this
      ensures LinkSubst(old(definitions), subst)
      ensures result == (subst != map[])
      ensures result <==> exists id :: id in old(definitions) && IsLink(old(definitions)[id])
      ensures !result ==> definitions == old(definitions) && valueActions == old(valueActions)
      ensures result ==> (definitions == LinkedDefs(old(definitions), subst) &&
                          valueActions == LinkedActions(old(valueActions), subst) &&
                          |definitions| < |old(definitions)|)
      ensures variableId == old(variableId)
    {
      ghost var defs, actions := definitions, valueActions;
      var inlineDefinitions := CollectLinks(definitions);
      subst := inlineDefinitions;
      LinkSubstEmpty(defs, subst);
      if |inlineDefinitions| == 0 {
        return false, subst;
      }
      ApplyToAllTreesMut(t => InlineVar(t, inlineDefinitions));
      definitions := definitions - inlineDefinitions.Keys;
      LinksApplied(defs, actions, subst, t => InlineVar(t, inlineDefinitions));
      LinkedDefsShrink(defs, subst);
      result := true;
    }

    /**
     * `inline_all`; `ok` is false where the source panics on an undefined
     * variable.  `rank` witnesses that the definitions are acyclic.
     */
    method InlineAll(ghost rank: nat -> nat) returns (ok: bool)
      requires Ranked(definitions, rank)
      modifies this
      ensures ok == AllExpand(old(definitions), old(valueActions), rank)
      ensures ok ==> (definitions == SeedDefs(old(definitions)) &&
                      valueActions == ExpandedActions(old(definitions), old(valueActions), rank))
      ensures variableId == old(variableId)
    {
      var newDefinitions: map<nat, Tree> := map[];
      var oldDefinitions := definitions;
      var r;
      ok, r, newDefinitions := InlineDefinitions(oldDefinitions, newDefinitions, rank);
      if !ok {
        return;
      }
      var actions;
      ok, actions := InlineActions(valueActions, oldDefinitions, newDefinitions, rank);
      if !ok {
        return;
      }
      InlinedSeeds(oldDefinitions, r, rank);
      definitions := map id | id in r && r[id].SeedLabel? :: r[id];
      valueActions := actions;
    }

    /**
     * `outline_common_expressions`.  `table` is the final `outlined` map
     * and `rewritten` the definitions before the outlined ones are inserted;
     * both depend on the map's visiting order.
     */
    method OutlineCommonExpressions() returns (ghost table: Table, ghost rewritten: map<nat, Tree>)
      modifies this
      ensures variableId == old(variableId)
      ensures WellFormed(table, old(variableId), old(variableId) + |table|)
      ensures rewritten.Keys == old(definitions).Keys
      ensures forall id :: id in rewritten ==> Outlines(table, old(definitions)[id], rewritten[id])
      ensures |valueActions| == |old(valueActions)|
      ensures forall i :: 0 <= i < |valueActions| ==>
        valueActions[i].1 == old(valueActions)[i].1 && Outlines(table, old(valueActions)[i].0, valueActions[i].0)
      ensures definitions == rewritten + TableDefs(table)
      ensures TreesBelow(old(definitions), old(valueActions), old(variableId)) ==> Layered(table, old(variableId))
      ensures SeedsStandAlone(old(definitions), old(valueActions)) ==> NoSeedEntries(table)
    {
      var outlined: Table := [];
      var varId := variableId;
      var defs;
      defs, outlined, varId := OutlineDefinitions(definitions, outlined, variableId, varId);
      var actions, outlined', varId' := OutlineActions(valueActions, outlined, variableId, varId);
      OutlinedDefsGrow(old(definitions), defs, outlined, outlined');
      rewritten, table := defs, outlined';
      valueActions := actions;
      definitions := InsertOutlined(defs, outlined');
    }
  }
}
