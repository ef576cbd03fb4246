/**
 * The older boolean IR with a binary `Or` (`AtomTree` in src/atom_tree.rs).
 * Equality is the derived structural one, so two markers or two seed
 * labels with equal contents are equal.  This is the shape the graph
 * encoder consumes.
 */
module BinaryTree {
  import Tokens
  import Labels

  datatype Tree =
    | SeedLabel(seed: Labels.Label)
    | Marker(inner: Tree)
    | Variable(id: nat)
    | Atom(atom: Tokens.AtomType)
    | Not(arg: Tree)
    | Or(left: Tree, right: Tree)

  function Size(t: Tree): (n: nat)
    ensures n >= 1
  {
    match t
    case Marker(m) => 1 + Size(m)
    case Not(a) => 1 + Size(a)
    case Or(a, b) => 1 + Size(a) + Size(b)
    case _ => 1
  }

  /** The meaning of a tree: `env` for variables, `seeds` for seed labels; a marker is transparent. */
  function Eval(t: Tree, env: nat -> bool, seeds: Labels.Label -> bool): bool
  {
    match t
    case SeedLabel(l) => seeds(l)
    case Marker(m) => Eval(m, env, seeds)
    case Variable(id) => env(id)
    case Atom(a) => a == Tokens.True
    case Not(a) => !Eval(a, env, seeds)
    case Or(a, b) => Eval(a, env, seeds) || Eval(b, env, seeds)
  }

  predicate MarkerFree(t: Tree)
  {
    match t
    case Marker(_) => false
    case Not(a) => MarkerFree(a)
    case Or(a, b) => MarkerFree(a) && MarkerFree(b)
    case _ => true
  }

  /** The tree contains no seed, inside markers neither. */
  predicate SeedFree(t: Tree)
  {
    match t
    case SeedLabel(_) => false
    case Marker(m) => SeedFree(m)
    case Not(a) => SeedFree(a)
    case Or(a, b) => SeedFree(a) && SeedFree(b)
    case _ => true
  }

  /** The variables a tree mentions outside markers. */
  function AllVars(t: Tree): set<nat>
  {
    match t
    case Variable(id) => {id}
    case Not(a) => AllVars(a)
    case Or(a, b) => AllVars(a) + AllVars(b)
    case _ => {}
  }

  // ---------------------------------------------------------------------
  // `simp`
  // ---------------------------------------------------------------------

  /** One root rewrite, tried in the source's arm order; the flag says whether a rule fired. */
  function Simp(t: Tree): (r: (bool, Tree))
    ensures !r.0 ==> r.1 == t
    ensures t.Not? && t.arg.Not? ==> r == (true, t.arg.arg)
    ensures t.Not? && t.arg.Atom? ==> r == (true, Atom(Tokens.Not(t.arg.atom)))
    ensures t.Or? && (t.left == Atom(Tokens.True) || t.right == Atom(Tokens.True)) ==> r == (true, Atom(Tokens.True))
    ensures t.Or? && t.left == Atom(Tokens.False) ==> r == (true, t.right)
    ensures t.Or? && t.right == Atom(Tokens.False) ==> r == (true, t.left)
    ensures !t.Not? && !t.Or? ==> !r.0
  {
    match t
    case Not(a) =>
      if a.Not? then (true, a.arg)
      else if a.Atom? then (true, Atom(Tokens.Not(a.atom)))
      else (false, t)
    case Or(a, b) =>
      if a.Atom? then (true, if a.atom == Tokens.True then Atom(Tokens.True) else b)
      else if b.Atom? then (true, if b.atom == Tokens.True then Atom(Tokens.True) else a)
      else if a == b then (true, a)
      else if a == Not(b) then (true, Atom(Tokens.True))
      else if Not(a) == b then (true, Atom(Tokens.True))
      else (false, t)
    case _ => (false, t)
  }

  /** `Or(a, a)` becomes `a`, constants included. */
  lemma SimpOrSame(a: Tree)
    ensures Simp(Or(a, a)) == (true, a)
  {
    if a.Atom? {
      assert a == Atom(a.atom);
    }
  }

  /** A disjunction of a tree and its negation becomes `true`. */
  lemma SimpOrComplement(a: Tree, b: Tree)
    requires !a.Atom? && !b.Atom? && (a == Not(b) || Not(a) == b)
    ensures Simp(Or(a, b)) == (true, Atom(Tokens.True))
  {
    assert Size(a) != Size(b);
  }

  /** A reported rewrite strictly shrinks the tree. */
  lemma SimpShrinks(t: Tree)
    ensures Simp(t).0 ==> Size(Simp(t).1) < Size(t)
  {
  }

  /** A rewrite keeps the meaning. */
  lemma SimpSound(t: Tree, env: nat -> bool, seeds: Labels.Label -> bool)
    ensures Eval(Simp(t).1, env, seeds) == Eval(t, env, seeds)
  {
  }

  // ---------------------------------------------------------------------
  // `simp_rec`
  // ---------------------------------------------------------------------

  /** Re-applies `simp` until it reports no rewrite. */
  function SimpLoop(t: Tree): (r: (Tree, bool))
    ensures Size(r.0) <= Size(t)
    decreases Size(t)
  {
    var (c, t2) := Simp(t);
    if !c then (t2, false)
    else SimpShrinks(t); (SimpLoop(t2).0, true)
  }

  /** Children first (markers are not entered), then the rewrite loop at the root. */
  function SimpRec(t: Tree): (r: (Tree, bool))
    ensures Size(r.0) <= Size(t)
    decreases Size(t), 1
  {
    match t
    case Not(a) =>
      var (a2, f) := SimpRec(a);
      var (r, g) := SimpLoop(Not(a2));
      (r, f || g)
    case Or(a, b) =>
      var (a2, f) := SimpRec(a);
      var (b2, g) := SimpRec(b);
      var (r, h) := SimpLoop(Or(a2, b2));
      (r, f || g || h)
    case _ => SimpLoop(t)
  }

  lemma {:induction false} SimpLoopSound(t: Tree, env: nat -> bool, seeds: Labels.Label -> bool)
    ensures Eval(SimpLoop(t).0, env, seeds) == Eval(t, env, seeds)
    decreases Size(t)
  {
    SimpSound(t, env, seeds);
    if Simp(t).0 {
      SimpShrinks(t);
      SimpLoopSound(Simp(t).1, env, seeds);
    }
  }

  /** `simp_rec` keeps the meaning of the tree. */
  lemma {:induction false} SimpRecSound(t: Tree, env: nat -> bool, seeds: Labels.Label -> bool)
    ensures Eval(SimpRec(t).0, env, seeds) == Eval(t, env, seeds)
    decreases Size(t)
  {
    match t
    case Not(a) =>
      SimpRecSound(a, env, seeds);
      SimpLoopSound(Not(SimpRec(a).0), env, seeds);
    case Or(a, b) =>
      SimpRecSound(a, env, seeds);
      SimpRecSound(b, env, seeds);
      SimpLoopSound(Or(SimpRec(a).0, SimpRec(b).0), env, seeds);
    case _ =>
      SimpLoopSound(t, env, seeds);
  }

  /** `simp_rec` builds its result from parts of the tree, so it brings in no seed. */
  lemma {:induction false} SimpLoopSeedFree(t: Tree)
    requires SeedFree(t)
    ensures SeedFree(SimpLoop(t).0)
    decreases Size(t)
  {
    if Simp(t).0 {
      SimpShrinks(t);
      SimpLoopSeedFree(Simp(t).1);
    }
  }

  lemma {:induction false} SimpRecSeedFree(t: Tree)
    requires SeedFree(t)
    ensures SeedFree(SimpRec(t).0)
    decreases Size(t)
  {
    match t
    case Not(a) =>
      SimpRecSeedFree(a);
      SimpLoopSeedFree(Not(SimpRec(a).0));
    case Or(a, b) =>
      SimpRecSeedFree(a);
      SimpRecSeedFree(b);
      SimpLoopSeedFree(Or(SimpRec(a).0, SimpRec(b).0));
    case _ =>
      SimpLoopSeedFree(t);
  }

  /** No rule fires anywhere outside markers. */
  predicate Reduced(t: Tree)
  {
    !Simp(t).0 &&
    match t
    case Not(a) => Reduced(a)
    case Or(a, b) => Reduced(a) && Reduced(b)
    case _ => true
  }

  predicate ChildrenReduced(t: Tree)
  {
    match t
    case Not(a) => Reduced(a)
    case Or(a, b) => Reduced(a) && Reduced(b)
    case _ => true
  }

  /** Over reduced children one root rewrite at most is needed, and its result is reduced. */
  lemma SimpLoopOnce(t: Tree)
    requires ChildrenReduced(t)
    ensures SimpLoop(t) == (Simp(t).1, Simp(t).0)
    ensures Reduced(SimpLoop(t).0)
  {
    if Simp(t).0 {
      var r := Simp(t).1;
      if t.Not? && t.arg.Not? {
        assert Reduced(t.arg);
      }
      assert Reduced(r);
      assert !Simp(r).0;
    }
  }

  /** `simp_rec` always returns a reduced tree. */
  lemma {:induction false} SimpRecReduced(t: Tree)
    ensures Reduced(SimpRec(t).0)
    decreases Size(t)
  {
    match t
    case Not(a) =>
      SimpRecReduced(a);
      SimpLoopOnce(Not(SimpRec(a).0));
    case Or(a, b) =>
      SimpRecReduced(a);
      SimpRecReduced(b);
      SimpLoopOnce(Or(SimpRec(a).0, SimpRec(b).0));
    case _ =>
      SimpLoopOnce(t);
  }

  /** On a reduced tree `simp_rec` changes nothing and reports nothing. */
  lemma {:induction false} ReducedIsFixpoint(t: Tree)
    requires Reduced(t)
    ensures SimpRec(t) == (t, false)
  {
    match t
    case Not(a) =>
      ReducedIsFixpoint(a);
    case Or(a, b) =>
      ReducedIsFixpoint(a);
      ReducedIsFixpoint(b);
    case _ =>
  }

  /** Running `simp_rec` on its own result reports no change. */
  lemma SimpRecIdempotent(t: Tree)
    ensures SimpRec(SimpRec(t).0) == (SimpRec(t).0, false)
  {
    SimpRecReduced(t);
    ReducedIsFixpoint(SimpRec(t).0);
  }

  /** `simp`, as the source's match arms. */
  method SimpStep(t: Tree) returns (simplified: bool, r: Tree)
    ensures (simplified, r) == Simp(t)
  {
    match t {
      case Not(a) =>
        if a.Not? {
          return true, a.arg;
        }
        if a.Atom? {
          return true, Atom(Tokens.Not(a.atom));
        }
      case Or(a, b) =>
        if a.Atom? {
          return true, if a.atom == Tokens.True then Atom(Tokens.True) else b;
        }
        if b.Atom? {
          return true, if b.atom == Tokens.True then Atom(Tokens.True) else a;
        }
        if a == b {
          return true, a;
        }
        if a == Not(b) || Not(a) == b {
          return true, Atom(Tokens.True);
        }
      case _ =>
    }
    return false, t;
  }

  /**
   * `simp_rec` as the source runs it: `changed` is the caller's flag,
   * raised once per reported rewrite.
   */
  method SimpRecursive(t: Tree, changedIn: bool) returns (r: Tree, changed: bool)
    ensures r == SimpRec(t).0
    ensures changed == (changedIn || SimpRec(t).1)
    decreases Size(t)
  {
    changed := changedIn;
    var current: Tree;
    ghost var childFlag: bool;
    match t {
      case Not(a) =>
        var a2;
        a2, changed := SimpRecursive(a, changed);
        current := Not(a2);
        childFlag := SimpRec(a).1;
      case Or(a, b) =>
        var a2, b2;
        a2, changed := SimpRecursive(a, changed);
        b2, changed := SimpRecursive(b, changed);
        current := Or(a2, b2);
        childFlag := SimpRec(a).1 || SimpRec(b).1;
      case _ =>
        current := t;
        childFlag := false;
    }
    var pre := current;
    ghost var loopChanged := false;
    while true
      invariant SimpLoop(current).0 == SimpLoop(pre).0
      invariant SimpLoop(current).1 == (loopChanged || SimpLoop(pre).1)
      invariant changed == (changedIn || childFlag || loopChanged)
      decreases Size(pre)
    {
      var simplified, next := SimpStep(pre);
      if !simplified {
        r := next;
        break;
      }
      SimpShrinks(pre);
      changed := true;
      loopChanged := true;
      pre := next;
    }
  }

  // ---------------------------------------------------------------------
  // `inline_var` and `finalize_simp`
  // ---------------------------------------------------------------------

  /** `inline_var`: each variable with an entry becomes that entry; markers are not entered. */
  function InlineVar(t: Tree, subst: map<nat, Tree>): Tree
  {
    match t
    case Variable(id) => if id in subst then subst[id] else t
    case Not(a) => Not(InlineVar(a, subst))
    case Or(a, b) => Or(InlineVar(a, subst), InlineVar(b, subst))
    case _ => t
  }

  /** Substituting seed-free entries into a seed-free tree brings in no seed. */
  lemma {:induction false} InlineVarSeedFree(t: Tree, subst: map<nat, Tree>)
    requires SeedFree(t) && forall id :: id in subst ==> SeedFree(subst[id])
    ensures SeedFree(InlineVar(t, subst))
  {
    match t
    case Not(a) => InlineVarSeedFree(a, subst);
    case Or(a, b) =>
      InlineVarSeedFree(a, subst);
      InlineVarSeedFree(b, subst);
    case _ =>
  }

  /** Substituting entries that are not seeds neither makes nor unmakes a seed at the root. */
  lemma InlineVarSeedRoot(t: Tree, subst: map<nat, Tree>)
    requires forall id :: id in subst ==> !subst[id].SeedLabel?
    ensures InlineVar(t, subst).SeedLabel? <==> t.SeedLabel?
  {
  }

  /** Where every entry means what its variable means, substituting keeps the meaning. */
  lemma {:induction false} InlineVarEval(t: Tree, subst: map<nat, Tree>, env: nat -> bool, seeds: Labels.Label -> bool)
    requires forall id :: id in subst ==> Eval(subst[id], env, seeds) == env(id)
    ensures Eval(InlineVar(t, subst), env, seeds) == Eval(t, env, seeds)
  {
    match t
    case Not(a) => InlineVarEval(a, subst, env, seeds);
    case Or(a, b) =>
      InlineVarEval(a, subst, env, seeds);
      InlineVarEval(b, subst, env, seeds);
    case _ =>
  }

  /** The assignment that gives each substituted id the value of its entry. */
  function Extend(env: nat -> bool, subst: map<nat, Tree>, seeds: Labels.Label -> bool): nat -> bool
  {
    (x: nat) => if x in subst then Eval(subst[x], env, seeds) else env(x)
  }

  /** Outside markers, substituting is evaluating under the extended assignment. */
  lemma {:induction false} InlineVarShift(t: Tree, subst: map<nat, Tree>, env: nat -> bool, seeds: Labels.Label -> bool)
    requires MarkerFree(t)
    ensures Eval(InlineVar(t, subst), env, seeds) == Eval(t, Extend(env, subst, seeds), seeds)
  {
    match t
    case Not(a) => InlineVarShift(a, subst, env, seeds);
    case Or(a, b) =>
      InlineVarShift(a, subst, env, seeds);
      InlineVarShift(b, subst, env, seeds);
    case _ =>
  }

  /** Without markers, a substitution whose entries avoid its own keys leaves none of them behind. */
  lemma {:induction false} InlineVarEliminates(t: Tree, subst: map<nat, Tree>)
    requires MarkerFree(t)
    requires forall id :: id in subst ==> AllVars(subst[id]) !! subst.Keys
    ensures AllVars(InlineVar(t, subst)) !! subst.Keys
  {
    match t
    case Not(a) => InlineVarEliminates(a, subst);
    case Or(a, b) =>
      InlineVarEliminates(a, subst);
      InlineVarEliminates(b, subst);
    case _ =>
  }

  /** `finalize_simp` on a tree: every marker, nested ones included, replaced by its contents. */
  function RemoveMarker(t: Tree): (r: Tree)
    ensures MarkerFree(r)
  {
    match t
    case Marker(m) => RemoveMarker(m)
    case Not(a) => Not(RemoveMarker(a))
    case Or(a, b) => Or(RemoveMarker(a), RemoveMarker(b))
    case _ => t
  }

  lemma {:induction false} RemoveMarkerEval(t: Tree, env: nat -> bool, seeds: Labels.Label -> bool)
    ensures Eval(RemoveMarker(t), env, seeds) == Eval(t, env, seeds)
  {
    match t
    case Marker(m) => RemoveMarkerEval(m, env, seeds);
    case Not(a) => RemoveMarkerEval(a, env, seeds);
    case Or(a, b) =>
      RemoveMarkerEval(a, env, seeds);
      RemoveMarkerEval(b, env, seeds);
    case _ =>
  }

  /** Stripping markers brings in no seed. */
  lemma {:induction false} RemoveMarkerSeedFree(t: Tree)
    requires SeedFree(t)
    ensures SeedFree(RemoveMarker(t))
  {
    match t
    case Marker(m) => RemoveMarkerSeedFree(m);
    case Not(a) => RemoveMarkerSeedFree(a);
    case Or(a, b) =>
      RemoveMarkerSeedFree(a);
      RemoveMarkerSeedFree(b);
    case _ =>
  }

  lemma {:induction false} RemoveMarkerOfMarkerFree(t: Tree)
    requires MarkerFree(t)
    ensures RemoveMarker(t) == t
  {
    match t
    case Not(a) => RemoveMarkerOfMarkerFree(a);
    case Or(a, b) =>
      RemoveMarkerOfMarkerFree(a);
      RemoveMarkerOfMarkerFree(b);
    case _ =>
  }

  /** `finalize_simp` as the source runs it, overwriting the node with its marker's contents. */
  method FinalizeTree(t: Tree) returns (r: Tree)
    ensures r == RemoveMarker(t)
    decreases Size(t)
  {
    match t {
      case Marker(m) =>
        r := FinalizeTree(m);
      case Not(a) =>
        var a2 := FinalizeTree(a);
        r := Not(a2);
      case Or(a, b) =>
        var a2 := FinalizeTree(a);
        var b2 := FinalizeTree(b);
        r := Or(a2, b2);
      case _ =>
        r := t;
    }
  }
}
