/**
 * The n-ary boolean IR of the compiler (src/compiler/atom_tree.rs): trees,
 * the hand-written equality, and the local rewrite `simp` / `simp_rec`.
 *
 * `Eval` gives each tree its boolean meaning under an assignment of the
 * variables (and of seed labels); it is the reference against which the
 * rewrites are proved sound.
 */
module NaryTree {
  import Labels
  import Tokens

  datatype Tree =
    | SeedLabel(seed: Labels.Label)
    | Marker(inner: Tree)
    | Variable(id: nat)
    | Atom(atom: Tokens.AtomType)
    | Not(arg: Tree)
    | Or(args: seq<Tree>)

  /** A size in which an `Or` node weighs 2, so that every reported rewrite shrinks. */
  function Size(t: Tree): (n: nat)
    ensures n >= 1
  {
    match t
    case Marker(m) => 1 + Size(m)
    case Not(a) => 1 + Size(a)
    case Or(v) => 2 + SizeSeq(v)
    case _ => 1
  }

  function SizeSeq(v: seq<Tree>): nat
  {
    if v == [] then 0 else Size(v[0]) + SizeSeq(v[1..])
  }

  lemma {:induction false} SizeSeqAppend(a: seq<Tree>, b: seq<Tree>)
    ensures SizeSeq(a + b) == SizeSeq(a) + SizeSeq(b)
  {
    if a == [] {
      assert a + b == b;
    } else {
      assert (a + b)[1..] == a[1..] + b;
      SizeSeqAppend(a[1..], b);
    }
  }

  lemma {:induction false} SizeSeqElement(v: seq<Tree>, i: nat)
    requires i < |v|
    ensures Size(v[i]) <= SizeSeq(v)
  {
    if i > 0 {
      SizeSeqElement(v[1..], i - 1);
    }
  }

  // ---------------------------------------------------------------------
  // Equality (`impl PartialEq for AtomTree`)
  // ---------------------------------------------------------------------

  /**
   * The hand-written equality.  Variables, constants and negations compare
   * structurally; two `Or`s are equal when they have the same length and
   * every operand of each has an equal operand in the other (the source
   * compares the two operand hash sets; `EqOrMatchesSetComparison` shows the
   * two agree); `SeedLabel` and markers are equal to nothing.
   */
  predicate Eq(a: Tree, b: Tree)
    decreases a, 0
  {
    match a
    case Variable(x) => b.Variable? && b.id == x
    case Atom(x) => b.Atom? && b.atom == x
    case Not(x) => b.Not? && Eq(x, b.arg)
    case Or(xs) => b.Or? && |xs| == |b.args| && EachMatched(xs, b.args) && EachHit(xs, b.args)
    case _ => false
  }

  /** Every operand in `xs` has an equal operand in `ys`. */
  predicate EachMatched(xs: seq<Tree>, ys: seq<Tree>)
    decreases xs, 2
  {
    forall i :: 0 <= i < |xs| ==> Matched(xs[i], ys)
  }

  predicate Matched(x: Tree, ys: seq<Tree>)
    decreases x, 1
  {
    exists j :: 0 <= j < |ys| && Eq(x, ys[j])
  }

  /** Every operand in `ys` has an equal operand in `xs`. */
  predicate EachHit(xs: seq<Tree>, ys: seq<Tree>)
    decreases xs, 2
  {
    forall j :: 0 <= j < |ys| ==> HitBy(xs, ys[j])
  }

  predicate HitBy(xs: seq<Tree>, y: Tree)
    decreases xs, 1
  {
    exists i :: 0 <= i < |xs| && Eq(xs[i], y)
  }

  /** Seed labels and markers are unequal to everything, themselves included. */
  lemma SeedAndMarkerNeverEqual(a: Tree, b: Tree)
    requires a.SeedLabel? || a.Marker? || b.SeedLabel? || b.Marker?
    ensures !Eq(a, b)
  {
  }

  lemma {:induction false} EqSymmetric(a: Tree, b: Tree)
    ensures Eq(a, b) == Eq(b, a)
  {
    match a
    case Not(x) =>
      if b.Not? {
        EqSymmetric(x, b.arg);
      }
    case Or(xs) =>
      if b.Or? && |xs| == |b.args| {
        var ys := b.args;
        forall i, j | 0 <= i < |xs| && 0 <= j < |ys|
          ensures Eq(xs[i], ys[j]) == Eq(ys[j], xs[i])
        {
          EqSymmetric(xs[i], ys[j]);
        }
        assert EachMatched(xs, ys) == EachHit(ys, xs);
        assert EachHit(xs, ys) == EachMatched(ys, xs);
      }
    case _ =>
  }

  lemma {:induction false} EqTransitive(a: Tree, b: Tree, c: Tree)
    requires Eq(a, b) && Eq(b, c)
    ensures Eq(a, c)
  {
    match a
    case Not(x) =>
      EqTransitive(x, b.arg, c.arg);
    case Or(xs) =>
      var ys, zs := b.args, c.args;
      forall i | 0 <= i < |xs|
        ensures Matched(xs[i], zs)
      {
        assert Matched(xs[i], ys);
        var j :| 0 <= j < |ys| && Eq(xs[i], ys[j]);
        assert Matched(ys[j], zs);
        var k :| 0 <= k < |zs| && Eq(ys[j], zs[k]);
        EqTransitive(xs[i], ys[j], zs[k]);
      }
      forall k | 0 <= k < |zs|
        ensures HitBy(xs, zs[k])
      {
        assert HitBy(ys, zs[k]);
        var j :| 0 <= j < |ys| && Eq(ys[j], zs[k]);
        assert HitBy(xs, ys[j]);
        var i :| 0 <= i < |xs| && Eq(xs[i], ys[j]);
        EqTransitive(xs[i], ys[j], zs[k]);
      }
    case _ =>
  }

  /** Trees without seed labels or markers (reached through `Not`/`Or`). */
  predicate Plain(t: Tree)
  {
    match t
    case SeedLabel(_) => false
    case Marker(_) => false
    case Not(a) => Plain(a)
    case Or(v) => forall i :: 0 <= i < |v| ==> Plain(v[i])
    case _ => true
  }

  /** A tree equals itself exactly when it contains no seed label and no marker. */
  lemma {:induction false} EqReflexiveIffPlain(t: Tree)
    ensures Eq(t, t) <==> Plain(t)
  {
    if Plain(t) {
      PlainIsReflexive(t);
    }
    if Eq(t, t) {
      ReflexiveIsPlain(t);
    }
  }

  lemma {:induction false} PlainIsReflexive(t: Tree)
    requires Plain(t)
    ensures Eq(t, t)
  {
    match t
    case Not(a) =>
      PlainIsReflexive(a);
    case Or(v) =>
      forall i | 0 <= i < |v| ensures Matched(v[i], v) && HitBy(v, v[i]) {
        PlainIsReflexive(v[i]);
      }
    case _ =>
  }

  lemma {:induction false} ReflexiveIsPlain(t: Tree)
    requires Eq(t, t)
    ensures Plain(t)
  {
    match t
    case Not(a) =>
      ReflexiveIsPlain(a);
    case Or(v) =>
      forall i | 0 <= i < |v| ensures Plain(v[i]) {
        assert Matched(v[i], v);
        var j :| 0 <= j < |v| && Eq(v[i], v[j]);
        EqSymmetric(v[i], v[j]);
        EqTransitive(v[i], v[j], v[i]);
        ReflexiveIsPlain(v[i]);
      }
    case _ =>
  }

  /** Reordering the operands of an `Or` of plain trees gives an equal `Or`. */
  lemma OrOrderIndependent(xs: seq<Tree>, ys: seq<Tree>)
    requires multiset(xs) == multiset(ys)
    requires forall i :: 0 <= i < |xs| ==> Plain(xs[i])
    ensures Eq(Or(xs), Or(ys))
  {
    assert |xs| == |multiset(xs)| == |multiset(ys)| == |ys|;
    forall i | 0 <= i < |xs|
      ensures Matched(xs[i], ys)
    {
      assert xs[i] in multiset(ys);
      var j :| 0 <= j < |ys| && ys[j] == xs[i];
      EqReflexiveIffPlain(xs[i]);
    }
    forall j | 0 <= j < |ys|
      ensures HitBy(xs, ys[j])
    {
      assert ys[j] in multiset(xs);
      var i :| 0 <= i < |xs| && xs[i] == ys[j];
      EqReflexiveIffPlain(xs[i]);
    }
  }

  // ---------------------------------------------------------------------
  // Meaning
  // ---------------------------------------------------------------------

  /**
   * The boolean value of a tree when variable `id` has value `env(id)` and a
   * seed carrying label `l` has value `seeds(l)`.  Markers are transparent.
   */
  function Eval(t: Tree, env: nat -> bool, seeds: Labels.Label -> bool): bool
  {
    match t
    case SeedLabel(l) => seeds(l)
    case Marker(m) => Eval(m, env, seeds)
    case Variable(id) => env(id)
    case Atom(a) => a == Tokens.True
    case Not(a) => !Eval(a, env, seeds)
    case Or(v) => exists i :: 0 <= i < |v| && Eval(v[i], env, seeds)
  }

  /** Equal trees have the same meaning. */
  lemma {:induction false} EqSound(a: Tree, b: Tree, env: nat -> bool, seeds: Labels.Label -> bool)
    requires Eq(a, b)
    ensures Eval(a, env, seeds) == Eval(b, env, seeds)
  {
    match a
    case Not(x) =>
      EqSound(x, b.arg, env, seeds);
    case Or(xs) =>
      var ys := b.args;
      if Eval(a, env, seeds) {
        var i :| 0 <= i < |xs| && Eval(xs[i], env, seeds);
        assert Matched(xs[i], ys);
        var j :| 0 <= j < |ys| && Eq(xs[i], ys[j]);
        EqSound(xs[i], ys[j], env, seeds);
      }
      if Eval(b, env, seeds) {
        var j :| 0 <= j < |ys| && Eval(ys[j], env, seeds);
        assert HitBy(xs, ys[j]);
        var i :| 0 <= i < |xs| && Eq(xs[i], ys[j]);
        EqSound(xs[i], ys[j], env, seeds);
      }
    case _ =>
  }

  // ---------------------------------------------------------------------
  // Variables, markers and substitution
  // ---------------------------------------------------------------------

  /** Every variable id occurring in the tree, inside markers too. */
  function AllVars(t: Tree): set<nat>
  {
    match t
    case Variable(id) => {id}
    case Marker(m) => AllVars(m)
    case Not(a) => AllVars(a)
    case Or(v) => set i, x | 0 <= i < |v| && x in AllVars(v[i]) :: x
    case _ => {}
  }

  /** The tree contains no marker. */
  predicate MarkerFree(t: Tree)
  {
    match t
    case Marker(_) => false
    case Not(a) => MarkerFree(a)
    case Or(v) => forall i :: 0 <= i < |v| ==> MarkerFree(v[i])
    case _ => true
  }

  /**
   * `AtomTree::inline_var`: each variable whose id has an entry in `subst`
   * is replaced by that entry (the entry itself is not walked again).
   * Markers are not entered, since a marker is equal to no key.
   */
  function InlineVar(t: Tree, subst: map<nat, Tree>): Tree
  {
    match t
    case Not(a) => Not(InlineVar(a, subst))
    case Or(v) => Or(seq(|v|, i requires 0 <= i < |v| => InlineVar(v[i], subst)))
    case Variable(id) => if id in subst then subst[id] else t
    case _ => t
  }

  /** The tree contains no seed, inside markers neither. */
  predicate SeedFree(t: Tree)
  {
    match t
    case SeedLabel(_) => false
    case Marker(m) => SeedFree(m)
    case Not(a) => SeedFree(a)
    case Or(v) => forall i :: 0 <= i < |v| ==> SeedFree(v[i])
    case _ => true
  }

  /** Substituting seed-free entries into a seed-free tree brings in no seed. */
  lemma {:induction false} InlineVarSeedFree(t: Tree, subst: map<nat, Tree>)
    requires SeedFree(t) && forall id :: id in subst ==> SeedFree(subst[id])
    ensures SeedFree(InlineVar(t, subst))
  {
    match t
    case Not(a) =>
      InlineVarSeedFree(a, subst);
    case Or(v) =>
      forall i | 0 <= i < |v| ensures SeedFree(InlineVar(v[i], subst)) {
        InlineVarSeedFree(v[i], subst);
      }
      assert forall i :: 0 <= i < |v| ==> InlineVar(t, subst).args[i] == InlineVar(v[i], subst);
    case _ =>
  }

  /** Substituting entries that are not seeds neither makes nor unmakes a seed at the root. */
  lemma InlineVarSeedRoot(t: Tree, subst: map<nat, Tree>)
    requires forall id :: id in subst ==> !subst[id].SeedLabel?
    ensures InlineVar(t, subst).SeedLabel? <==> t.SeedLabel?
  {
  }

  /** `AtomTree::remove_marker`: strips every marker, nested ones included. */
  function RemoveMarker(t: Tree): Tree
  {
    match t
    case Marker(m) => RemoveMarker(m)
    case Not(a) => Not(RemoveMarker(a))
    case Or(v) => Or(seq(|v|, i requires 0 <= i < |v| => RemoveMarker(v[i])))
    case _ => t
  }

  /** Stripping markers brings in no seed. */
  lemma {:induction false} RemoveMarkerSeedFree(t: Tree)
    requires SeedFree(t)
    ensures SeedFree(RemoveMarker(t))
  {
    match t
    case Marker(m) =>
      RemoveMarkerSeedFree(m);
    case Not(a) =>
      RemoveMarkerSeedFree(a);
    case Or(v) =>
      forall i | 0 <= i < |v| ensures SeedFree(RemoveMarker(v[i])) {
        RemoveMarkerSeedFree(v[i]);
      }
      assert forall i :: 0 <= i < |v| ==> RemoveMarker(t).args[i] == RemoveMarker(v[i]);
    case _ =>
  }

  lemma {:induction false} RemoveMarkerIsMarkerFree(t: Tree)
    ensures MarkerFree(RemoveMarker(t))
  {
    match t
    case Marker(m) =>
      RemoveMarkerIsMarkerFree(m);
    case Not(a) =>
      RemoveMarkerIsMarkerFree(a);
    case Or(v) =>
      forall i | 0 <= i < |v| ensures MarkerFree(RemoveMarker(v[i])) {
        RemoveMarkerIsMarkerFree(v[i]);
      }
    case _ =>
  }

  lemma {:induction false} RemoveMarkerOfMarkerFree(t: Tree)
    requires MarkerFree(t)
    ensures RemoveMarker(t) == t
  {
    match t
    case Not(a) =>
      RemoveMarkerOfMarkerFree(a);
    case Or(v) =>
      forall i | 0 <= i < |v| ensures RemoveMarker(v[i]) == v[i] {
        RemoveMarkerOfMarkerFree(v[i]);
      }
      assert RemoveMarker(t).args == v;
    case _ =>
  }

  lemma {:induction false} RemoveMarkerEval(t: Tree, env: nat -> bool, seeds: Labels.Label -> bool)
    ensures Eval(RemoveMarker(t), env, seeds) == Eval(t, env, seeds)
  {
    match t
    case Marker(m) =>
      RemoveMarkerEval(m, env, seeds);
    case Not(a) =>
      RemoveMarkerEval(a, env, seeds);
    case Or(v) =>
      forall i | 0 <= i < |v| ensures Eval(RemoveMarker(v[i]), env, seeds) == Eval(v[i], env, seeds) {
        RemoveMarkerEval(v[i], env, seeds);
      }
      assert forall i :: 0 <= i < |v| ==> RemoveMarker(t).args[i] == RemoveMarker(v[i]);
    case _ =>
  }

  lemma {:induction false} RemoveMarkerVars(t: Tree)
    ensures AllVars(RemoveMarker(t)) == AllVars(t)
  {
    match t
    case Marker(m) =>
      RemoveMarkerVars(m);
    case Not(a) =>
      RemoveMarkerVars(a);
    case Or(v) =>
      var w := RemoveMarker(t).args;
      forall i | 0 <= i < |v| ensures AllVars(w[i]) == AllVars(v[i]) {
        RemoveMarkerVars(v[i]);
      }
    case _ =>
  }

  /** Substituting entries that agree with the assignment keeps the meaning. */
  lemma {:induction false} InlineVarEval(t: Tree, subst: map<nat, Tree>, env: nat -> bool, seeds: Labels.Label -> bool)
    requires forall id :: id in subst ==> Eval(subst[id], env, seeds) == env(id)
    ensures Eval(InlineVar(t, subst), env, seeds) == Eval(t, env, seeds)
  {
    match t
    case Not(a) =>
      InlineVarEval(a, subst, env, seeds);
    case Or(v) =>
      forall i | 0 <= i < |v| ensures Eval(InlineVar(v[i], subst), env, seeds) == Eval(v[i], env, seeds) {
        InlineVarEval(v[i], subst, env, seeds);
      }
      assert forall i :: 0 <= i < |v| ==> InlineVar(t, subst).args[i] == InlineVar(v[i], subst);
    case _ =>
  }

  /** The variables mentioned by the entries of a substitution. */
  function SubstVars(subst: map<nat, Tree>): set<nat>
  {
    set id, x | id in subst && x in AllVars(subst[id]) :: x
  }

  /**
   * Outside markers, substitution leaves no substituted id behind, provided
   * no entry mentions a substituted id; inside markers nothing changes.
   */
  lemma {:induction false} InlineVarEliminates(t: Tree, subst: map<nat, Tree>)
    requires MarkerFree(t)
    requires forall id :: id in subst ==> AllVars(subst[id]) !! subst.Keys && MarkerFree(subst[id])
    ensures AllVars(InlineVar(t, subst)) !! subst.Keys
    ensures AllVars(InlineVar(t, subst)) <= AllVars(t) + SubstVars(subst)
    ensures MarkerFree(InlineVar(t, subst))
  {
    match t
    case Not(a) =>
      InlineVarEliminates(a, subst);
    case Or(v) =>
      var w := InlineVar(t, subst).args;
      forall i | 0 <= i < |v|
        ensures AllVars(w[i]) !! subst.Keys && MarkerFree(w[i])
        ensures AllVars(w[i]) <= AllVars(v[i]) + SubstVars(subst)
      {
        InlineVarEliminates(v[i], subst);
      }
      forall x | x in AllVars(Or(w)) ensures x in AllVars(t) + SubstVars(subst) {
        var i :| 0 <= i < |w| && x in AllVars(w[i]);
      }
    case Variable(id) =>
      if id in subst {
        assert forall x :: x in AllVars(subst[id]) ==> x in SubstVars(subst);
      }
    case _ =>
  }
}
