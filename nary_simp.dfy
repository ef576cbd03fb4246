/**
 * Local simplification of the n-ary IR (`AtomTree::simp` and
 * `AtomTree::simp_rec` in src/compiler/atom_tree.rs).
 *
 * `Simp` / `SimpRec` are the specification functions; the methods `SimpStep`
 * and `SimpRecursive` follow the source's loops and are proved to compute
 * them.  The lemmas show that every reported rewrite shrinks the tree (so the
 * fixpoint loop ends), that the rewrites keep the meaning of the tree, and that
 * `SimpRec` reaches a normal form on which it reports no change.
 */
module NarySimp {
  import Labels
  import Tokens
  import opened NaryTree

  // ---------------------------------------------------------------------
  // The operand set of an `Or` (a `HashSet` under the custom equality)
  // ---------------------------------------------------------------------

  /** `HashSet::insert`: an element equal to one already present is not added. */
  function Insert(s: seq<Tree>, x: Tree): seq<Tree>
  {
    if exists y :: y in s && Eq(x, y) then s else s + [x]
  }

  function InsertAll(acc: seq<Tree>, xs: seq<Tree>): seq<Tree>
    decreases |xs|
  {
    if xs == [] then acc else Insert(InsertAll(acc, xs[..|xs| - 1]), xs[|xs| - 1])
  }

  /** The set built by inserting `xs` in order, listed in insertion order. */
  function Dedup(xs: seq<Tree>): seq<Tree>
  {
    InsertAll([], xs)
  }

  /** No two different positions hold equal trees. */
  predicate Distinct(v: seq<Tree>)
  {
    forall i, j :: 0 <= i < |v| && 0 <= j < |v| && i != j ==> !Eq(v[i], v[j])
  }

  /** `x` is in `e`, or something equal to it is. */
  predicate Represented(x: Tree, e: seq<Tree>)
  {
    x in e || exists w :: w in e && Eq(x, w)
  }

  lemma {:induction false} InsertAllAppend(acc: seq<Tree>, a: seq<Tree>, b: seq<Tree>)
    ensures InsertAll(acc, a + b) == InsertAll(InsertAll(acc, a), b)
    decreases |b|
  {
    if b == [] {
      assert a + b == a;
    } else {
      assert (a + b)[..|a + b| - 1] == a + b[..|b| - 1];
      InsertAllAppend(acc, a, b[..|b| - 1]);
    }
  }

  lemma {:induction false} InsertAllFrom(acc: seq<Tree>, xs: seq<Tree>)
    ensures forall z :: z in InsertAll(acc, xs) ==> z in acc || z in xs
    decreases |xs|
  {
    if xs != [] {
      InsertAllFrom(acc, xs[..|xs| - 1]);
    }
  }

  lemma {:induction false} InsertAllCovers(acc: seq<Tree>, xs: seq<Tree>)
    ensures forall z :: z in acc ==> z in InsertAll(acc, xs)
    ensures forall z :: z in xs ==> Represented(z, InsertAll(acc, xs))
    decreases |xs|
  {
    if xs != [] {
      var p := xs[..|xs| - 1];
      InsertAllCovers(acc, p);
      forall z | z in xs
        ensures Represented(z, InsertAll(acc, xs))
      {
        if z in p {
          if exists w :: w in InsertAll(acc, p) && Eq(z, w) {
            var w :| w in InsertAll(acc, p) && Eq(z, w);
            assert w in InsertAll(acc, xs);
          }
        } else {
          assert xs == p + [xs[|xs| - 1]];
          assert z == xs[|xs| - 1];
        }
      }
    }
  }

  lemma InsertKeepsDistinct(s: seq<Tree>, x: Tree)
    requires Distinct(s)
    ensures Distinct(Insert(s, x))
  {
    if !exists y :: y in s && Eq(x, y) {
      var r := s + [x];
      forall i, j | 0 <= i < |r| && 0 <= j < |r| && i != j
        ensures !Eq(r[i], r[j])
      {
        if i == |s| {
          assert r[j] in s;
        } else if j == |s| {
          assert r[i] in s;
          EqSymmetric(r[i], x);
        }
      }
    }
  }

  lemma {:induction false} InsertAllDistinct(acc: seq<Tree>, xs: seq<Tree>)
    requires Distinct(acc)
    ensures Distinct(InsertAll(acc, xs))
    decreases |xs|
  {
    if xs != [] {
      InsertAllDistinct(acc, xs[..|xs| - 1]);
      InsertKeepsDistinct(InsertAll(acc, xs[..|xs| - 1]), xs[|xs| - 1]);
    }
  }

  /** Inserting trees that are already pairwise unequal keeps them all, in order. */
  lemma {:induction false} InsertAllOfDistinct(xs: seq<Tree>)
    requires Distinct(xs)
    ensures Dedup(xs) == xs
    decreases |xs|
  {
    if xs != [] {
      var p := xs[..|xs| - 1];
      var x := xs[|xs| - 1];
      assert Distinct(p) by {
        forall i, j | 0 <= i < |p| && 0 <= j < |p| && i != j ensures !Eq(p[i], p[j]) {
          assert p[i] == xs[i] && p[j] == xs[j];
        }
      }
      InsertAllOfDistinct(p);
      forall y | y in p
        ensures !Eq(x, y)
      {
        var k :| 0 <= k < |p| && p[k] == y;
        assert xs[k] == y && xs[|xs| - 1] == x;
      }
      assert p + [x] == xs;
    }
  }

  lemma {:induction false} InsertAllSize(acc: seq<Tree>, xs: seq<Tree>)
    ensures SizeSeq(InsertAll(acc, xs)) <= SizeSeq(acc) + SizeSeq(xs)
    decreases |xs|
  {
    if xs != [] {
      var p := xs[..|xs| - 1];
      InsertAllSize(acc, p);
      assert xs == p + [xs[|xs| - 1]];
      SizeSeqAppend(p, [xs[|xs| - 1]]);
      SizeSeqAppend(InsertAll(acc, p), [xs[|xs| - 1]]);
    }
  }

  // ---------------------------------------------------------------------
  // `simp`
  // ---------------------------------------------------------------------

  /** What one operand contributes to the operand set: constants nothing, a nested `Or` its operands. */
  function Contribution(f: Tree): seq<Tree>
  {
    match f
    case Atom(_) => []
    case Or(a) => a
    case _ => [f]
  }

  function Candidates(v: seq<Tree>): seq<Tree>
    decreases |v|
  {
    if v == [] then [] else Candidates(v[..|v| - 1]) + Contribution(v[|v| - 1])
  }

  predicate HasTrue(v: seq<Tree>)
  {
    exists i :: 0 <= i < |v| && v[i] == Atom(Tokens.True)
  }

  /** Some operand is itself an `Or`. */
  predicate Spliced(v: seq<Tree>)
  {
    exists i :: 0 <= i < |v| && v[i].Or?
  }

  /**
   * One rewrite step: the flag says whether the source reports a rewrite.
   * For an `Or` with at least two remaining operands the rewritten node is
   * returned even when the flag is false.
   */
  function Simp(t: Tree): (bool, Tree)
  {
    match t
    case Not(a) =>
      if a.Not? then (true, a.arg)
      else if a.Atom? then (true, Atom(Tokens.Not(a.atom)))
      else (false, t)
    case Or(v) =>
      if HasTrue(v) then (true, Atom(Tokens.True))
      else
        var e := Dedup(Candidates(v));
        if |e| == 0 then (true, Atom(Tokens.False))
        else if |e| == 1 then (true, e[0])
        else (Spliced(v), Or(e))
    case _ => (false, t)
  }

  lemma {:induction false} CandidatesMembership(v: seq<Tree>)
    ensures forall x :: x in Candidates(v) <==> exists i :: 0 <= i < |v| && x in Contribution(v[i])
    decreases |v|
  {
    if v != [] {
      var p := v[..|v| - 1];
      CandidatesMembership(p);
      forall x
        ensures x in Candidates(v) <==> exists i :: 0 <= i < |v| && x in Contribution(v[i])
      {
        if x in Contribution(v[|v| - 1]) {
        } else if exists i :: 0 <= i < |v| && x in Contribution(v[i]) {
          var i :| 0 <= i < |v| && x in Contribution(v[i]);
          assert i < |p| && p[i] == v[i];
        }
      }
    }
  }

  /**
   * The operands of a simplified `Or` (no constant-true operand): every
   * operand comes from a non-constant, non-`Or` operand or from the operands
   * of a nested `Or`; each such tree is kept or represented by an equal one;
   * no two kept operands are equal.
   */
  lemma OrOperands(v: seq<Tree>)
    ensures forall x :: x in Dedup(Candidates(v)) ==>
      exists i :: 0 <= i < |v| && ((x == v[i] && !v[i].Atom? && !v[i].Or?) || (v[i].Or? && x in v[i].args))
    ensures forall i :: 0 <= i < |v| && !v[i].Atom? && !v[i].Or? ==> Represented(v[i], Dedup(Candidates(v)))
    ensures forall i, x :: 0 <= i < |v| && v[i].Or? && x in v[i].args ==> Represented(x, Dedup(Candidates(v)))
    ensures Distinct(Dedup(Candidates(v)))
  {
    var c := Candidates(v);
    CandidatesMembership(v);
    InsertAllFrom([], c);
    InsertAllCovers([], c);
    InsertAllDistinct([], c);
    forall x | x in Dedup(c)
      ensures exists i :: 0 <= i < |v| && ((x == v[i] && !v[i].Atom? && !v[i].Or?) || (v[i].Or? && x in v[i].args))
    {
      var i :| 0 <= i < |v| && x in Contribution(v[i]);
      assert (x == v[i] && !v[i].Atom? && !v[i].Or?) || (v[i].Or? && x in v[i].args);
    }
    forall i | 0 <= i < |v| && !v[i].Atom? && !v[i].Or?
      ensures Represented(v[i], Dedup(c))
    {
      assert v[i] in Contribution(v[i]);
    }
    forall i, x | 0 <= i < |v| && v[i].Or? && x in v[i].args
      ensures Represented(x, Dedup(c))
    {
      assert x in Contribution(v[i]);
    }
  }

  lemma {:induction false} CandidatesSize(v: seq<Tree>)
    ensures SizeSeq(Candidates(v)) <= SizeSeq(v)
    ensures Spliced(v) ==> SizeSeq(Candidates(v)) + 2 <= SizeSeq(v)
    decreases |v|
  {
    if v != [] {
      var p, l := v[..|v| - 1], v[|v| - 1];
      CandidatesSize(p);
      assert v == p + [l];
      SizeSeqAppend(p, [l]);
      SizeSeqAppend(Candidates(p), Contribution(l));
      assert SizeSeq(Contribution(l)) + (if l.Or? then 2 else 0) <= Size(l);
      if Spliced(v) && !l.Or? {
        var i :| 0 <= i < |v| && v[i].Or?;
        assert p[i] == v[i];
      }
    }
  }

  /** Every rewrite that `simp` reports makes the tree strictly smaller. */
  lemma SimpShrinks(t: Tree)
    ensures Simp(t).0 ==> Size(Simp(t).1) < Size(t)
  {
    if t.Or? && !HasTrue(t.args) {
      var v := t.args;
      var e := Dedup(Candidates(v));
      CandidatesSize(v);
      InsertAllSize([], Candidates(v));
      if |e| == 1 {
        SizeSeqElement(e, 0);
      }
    }
  }

  lemma EvalCandidates(v: seq<Tree>, env: nat -> bool, seeds: Labels.Label -> bool)
    requires !HasTrue(v)
    ensures Eval(Or(v), env, seeds) <==> exists x :: x in Candidates(v) && Eval(x, env, seeds)
  {
    if Eval(Or(v), env, seeds) {
      CandidatesMembership(v);
      EvalCandidatesForward(v, env, seeds);
    }
    if exists x :: x in Candidates(v) && Eval(x, env, seeds) {
      var x :| x in Candidates(v) && Eval(x, env, seeds);
      EvalCandidatesBackward(v, x, env, seeds);
    }
  }

  lemma EvalCandidatesBackward(v: seq<Tree>, x: Tree, env: nat -> bool, seeds: Labels.Label -> bool)
    requires x in Candidates(v) && Eval(x, env, seeds)
    ensures Eval(Or(v), env, seeds)
  {
    CandidatesMembership(v);
    var i :| 0 <= i < |v| && x in Contribution(v[i]);
    if v[i].Or? {
      var k :| 0 <= k < |v[i].args| && v[i].args[k] == x;
      assert Eval(v[i], env, seeds);
    } else {
      assert x == v[i];
    }
  }

  lemma EvalCandidatesForward(v: seq<Tree>, env: nat -> bool, seeds: Labels.Label -> bool)
    requires !HasTrue(v)
    requires forall x :: x in Candidates(v) <==> exists i :: 0 <= i < |v| && x in Contribution(v[i])
    requires Eval(Or(v), env, seeds)
    ensures exists x :: x in Candidates(v) && Eval(x, env, seeds)
  {
    var i :| 0 <= i < |v| && Eval(v[i], env, seeds);
    assert v[i] != Atom(Tokens.True);
    if v[i].Or? {
      var a := v[i].args;
      var k :| 0 <= k < |a| && Eval(a[k], env, seeds);
      assert a[k] in Contribution(v[i]);
      assert a[k] in Candidates(v);
    } else if !v[i].Atom? {
      assert v[i] in Contribution(v[i]);
      assert v[i] in Candidates(v);
    }
  }

  lemma EvalDedup(xs: seq<Tree>, env: nat -> bool, seeds: Labels.Label -> bool)
    ensures (exists x :: x in xs && Eval(x, env, seeds)) <==> (exists x :: x in Dedup(xs) && Eval(x, env, seeds))
  {
    InsertAllFrom([], xs);
    InsertAllCovers([], xs);
    if exists x :: x in xs && Eval(x, env, seeds) {
      var x :| x in xs && Eval(x, env, seeds);
      if x !in Dedup(xs) {
        var w :| w in Dedup(xs) && Eq(x, w);
        EqSound(x, w, env, seeds);
      }
    }
  }

  lemma EvalSeq(e: seq<Tree>, env: nat -> bool, seeds: Labels.Label -> bool)
    ensures Eval(Or(e), env, seeds) <==> exists x :: x in e && Eval(x, env, seeds)
  {
    if exists x :: x in e && Eval(x, env, seeds) {
      var x :| x in e && Eval(x, env, seeds);
      var i :| 0 <= i < |e| && e[i] == x;
    }
  }

  /** One rewrite step keeps the meaning of the tree. */
  lemma SimpSound(t: Tree, env: nat -> bool, seeds: Labels.Label -> bool)
    ensures Eval(Simp(t).1, env, seeds) == Eval(t, env, seeds)
  {
    if t.Or? {
      var v := t.args;
      if HasTrue(v) {
        var i :| 0 <= i < |v| && v[i] == Atom(Tokens.True);
        assert Eval(v[i], env, seeds);
      } else {
        var e := Dedup(Candidates(v));
        EvalCandidates(v, env, seeds);
        EvalDedup(Candidates(v), env, seeds);
        EvalSeq(e, env, seeds);
        if |e| == 1 {
          assert forall x :: x in e ==> x == e[0];
        }
      }
    }
  }

  lemma CandidatesStep(v: seq<Tree>, i: nat)
    requires i < |v|
    ensures Dedup(Candidates(v[..i + 1])) == InsertAll(Dedup(Candidates(v[..i])), Contribution(v[i]))
    ensures Spliced(v[..i + 1]) == (Spliced(v[..i]) || v[i].Or?)
    ensures HasTrue(v[..i + 1]) == (HasTrue(v[..i]) || v[i] == Atom(Tokens.True))
  {
    CandidatesSnoc(v, i);
    SplicedSnoc(v, i);
    HasTrueSnoc(v, i);
  }

  lemma CandidatesSnoc(v: seq<Tree>, i: nat)
    requires i < |v|
    ensures Dedup(Candidates(v[..i + 1])) == InsertAll(Dedup(Candidates(v[..i])), Contribution(v[i]))
  {
    assert v[..i + 1][..i] == v[..i];
    assert Candidates(v[..i + 1]) == Candidates(v[..i]) + Contribution(v[i]);
    InsertAllAppend([], Candidates(v[..i]), Contribution(v[i]));
  }

  lemma SplicedSnoc(v: seq<Tree>, i: nat)
    requires i < |v|
    ensures Spliced(v[..i + 1]) == (Spliced(v[..i]) || v[i].Or?)
  {
    var w := v[..i + 1];
    assert w[i] == v[i];
    if Spliced(v[..i]) {
      var j :| 0 <= j < i && v[..i][j].Or?;
      assert w[j] == v[..i][j];
    }
    if Spliced(w) {
      var j :| 0 <= j < i + 1 && w[j].Or?;
      if j < i {
        assert v[..i][j] == w[j];
      }
    }
  }

  lemma HasTrueSnoc(v: seq<Tree>, i: nat)
    requires i < |v|
    ensures HasTrue(v[..i + 1]) == (HasTrue(v[..i]) || v[i] == Atom(Tokens.True))
  {
    var w := v[..i + 1];
    assert w[i] == v[i];
    if HasTrue(v[..i]) {
      var j :| 0 <= j < i && v[..i][j] == Atom(Tokens.True);
      assert w[j] == v[..i][j];
    }
    if HasTrue(w) {
      var j :| 0 <= j < i + 1 && w[j] == Atom(Tokens.True);
      if j < i {
        assert v[..i][j] == w[j];
      }
    }
  }

  /** `simp` as the source runs it. */
  method SimpStep(t: Tree) returns (simplified: bool, r: Tree)
    ensures (simplified, r) == Simp(t)
  {
    match t {
      case Not(a) =>
        if a.Not? {
          return true, a.arg;
        } else if a.Atom? {
          return true, Atom(Tokens.Not(a.atom));
        }
        return false, t;
      case Or(v) =>
        simplified, r := SimpOr(v);
      case _ =>
        return false, t;
    }
  }

  /** The operands of a nested `Or`, inserted one by one into the operand set. */
  method InsertOperands(set0: seq<Tree>, a: seq<Tree>) returns (r: seq<Tree>)
    ensures r == InsertAll(set0, a)
  {
    r := set0;
    var k := 0;
    while k < |a|
      invariant 0 <= k <= |a|
      invariant r == InsertAll(set0, a[..k])
    {
      assert a[..k + 1][..k] == a[..k];
      r := Insert(r, a[k]);
      k := k + 1;
    }
    assert a[..k] == a;
  }

  /** The `Or` arm of `simp`: one pass over the operands, filling the operand set. */
  method SimpOr(v: seq<Tree>) returns (simplified: bool, r: Tree)
    ensures (simplified, r) == Simp(Or(v))
  {
    var newV: seq<Tree> := [];
    var changed := false;
    var i := 0;
    assert v[..0] == [];
    while i < |v|
      invariant 0 <= i <= |v|
      invariant !HasTrue(v[..i])
      invariant newV == Dedup(Candidates(v[..i]))
      invariant changed == Spliced(v[..i])
    {
      var stop;
      stop, newV, changed := SimpOrNext(v, i, newV, changed);
      if stop {
        return true, Atom(Tokens.True);
      }
      i := i + 1;
    }
    assert v[..i] == v;
    if |newV| == 0 {
      return true, Atom(Tokens.False);
    }
    if |newV| == 1 {
      return true, newV[0];
    }
    return changed, Or(newV);
  }

  /** One turn of the loop of the `Or` arm: operand `i` stops the pass when it is `True`, and is absorbed otherwise. */
  method SimpOrNext(v: seq<Tree>, i: nat, newV: seq<Tree>, changed: bool) returns (stop: bool, newV': seq<Tree>, changed': bool)
    requires i < |v| && !HasTrue(v[..i]) && newV == Dedup(Candidates(v[..i])) && changed == Spliced(v[..i])
    ensures stop ==> HasTrue(v)
    ensures !stop ==> !HasTrue(v[..i + 1]) && newV' == Dedup(Candidates(v[..i + 1])) && changed' == Spliced(v[..i + 1])
  {
    CandidatesStep(v, i);
    stop, newV', changed' := false, newV, changed;
    var f := v[i];
    match f {
      case Atom(atom) =>
        if atom == Tokens.True {
          assert v[i] == Atom(Tokens.True);
          return true, newV, changed;
        }
        assert newV + [] == newV;
      case Or(a) =>
        newV' := InsertOperands(newV, a);
        changed' := true;
      case _ =>
        newV' := Insert(newV, f);
        assert [f][..0] == [];
    }
  }

  // ---------------------------------------------------------------------
  // `simp_rec`
  // ---------------------------------------------------------------------

  /** Re-applies `simp` until it reports no rewrite; the flag says whether any was reported. */
  function SimpLoop(t: Tree): (Tree, bool)
    decreases Size(t)
  {
    var (c, t2) := Simp(t);
    if !c then (t2, false)
    else SimpShrinks(t); (SimpLoop(t2).0, true)
  }

  /** Children first (markers are not entered), then the rewrite loop at the root. */
  function SimpRec(t: Tree): (Tree, bool)
    decreases Size(t), 1
  {
    match t
    case Not(a) =>
      var (a2, f) := SimpRec(a);
      var (r, g) := SimpLoop(Not(a2));
      (r, f || g)
    case Or(v) =>
      var (w, f) := SimpRecSeq(v);
      var (r, g) := SimpLoop(Or(w));
      (r, f || g)
    case _ => SimpLoop(t)
  }

  function SimpRecSeq(v: seq<Tree>): (seq<Tree>, bool)
    decreases SizeSeq(v), 2
  {
    if v == [] then ([], false)
    else
      var (h, f) := SimpRec(v[0]);
      var (w, g) := SimpRecSeq(v[1..]);
      ([h] + w, f || g)
  }

  lemma {:induction false} SimpRecSeqAt(v: seq<Tree>)
    ensures |SimpRecSeq(v).0| == |v|
    ensures forall k :: 0 <= k < |v| ==> SimpRecSeq(v).0[k] == SimpRec(v[k]).0
    ensures SimpRecSeq(v).1 == exists k :: 0 <= k < |v| && SimpRec(v[k]).1
    decreases |v|
  {
    if v != [] {
      SimpRecSeqAt(v[1..]);
      assert forall k :: 1 <= k < |v| ==> v[1..][k - 1] == v[k];
      if SimpRecSeq(v[1..]).1 {
        var k :| 0 <= k < |v[1..]| && SimpRec(v[1..][k]).1;
        assert SimpRec(v[k + 1]).1;
      }
    }
  }

  lemma {:induction false} SimpLoopSound(t: Tree, env: nat -> bool, seeds: Labels.Label -> bool)
    ensures Eval(SimpLoop(t).0, env, seeds) == Eval(t, env, seeds)
    decreases Size(t)
  {
    SimpSound(t, env, seeds);
    if Simp(t).0 {
      SimpShrinks(t);
      SimpLoopSound(Simp(t).1, env, seeds);
    }
  }

  /** `simp_rec` keeps the meaning of the tree. */
  lemma {:induction false} SimpRecSound(t: Tree, env: nat -> bool, seeds: Labels.Label -> bool)
    ensures Eval(SimpRec(t).0, env, seeds) == Eval(t, env, seeds)
    decreases Size(t)
  {
    match t
    case Not(a) =>
      SimpRecSound(a, env, seeds);
      SimpLoopSound(Not(SimpRec(a).0), env, seeds);
    case Or(v) =>
      var w := SimpRecSeq(v).0;
      SimpRecSeqAt(v);
      forall k | 0 <= k < |v| ensures Eval(w[k], env, seeds) == Eval(v[k], env, seeds) {
        SizeSeqElement(v, k);
        SimpRecSound(v[k], env, seeds);
      }
      SimpLoopSound(Or(w), env, seeds);
    case _ =>
      SimpLoopSound(t, env, seeds);
  }

  /** `simp` builds its result from parts of the tree, so it brings in no seed. */
  lemma SimpSeedFree(t: Tree)
    requires SeedFree(t)
    ensures SeedFree(Simp(t).1)
  {
    if t.Or? && !HasTrue(t.args) {
      var v := t.args;
      var e := Dedup(Candidates(v));
      OrOperands(v);
      forall k | 0 <= k < |e| ensures SeedFree(e[k]) {
        assert e[k] in e;
        var i :| 0 <= i < |v| && ((e[k] == v[i] && !v[i].Atom? && !v[i].Or?) || (v[i].Or? && e[k] in v[i].args));
        assert SeedFree(v[i]);
        if e[k] != v[i] {
          var j :| 0 <= j < |v[i].args| && v[i].args[j] == e[k];
        }
      }
    }
  }

  lemma {:induction false} SimpLoopSeedFree(t: Tree)
    requires SeedFree(t)
    ensures SeedFree(SimpLoop(t).0)
    decreases Size(t)
  {
    SimpSeedFree(t);
    if Simp(t).0 {
      SimpShrinks(t);
      SimpLoopSeedFree(Simp(t).1);
    }
  }

  /** `simp_rec` brings in no seed; a seed on its own is left as it is. */
  lemma {:induction false} SimpRecSeedFree(t: Tree)
    requires SeedFree(t)
    ensures SeedFree(SimpRec(t).0)
    decreases Size(t)
  {
    match t
    case Not(a) =>
      SimpRecSeedFree(a);
      SimpLoopSeedFree(Not(SimpRec(a).0));
    case Or(v) =>
      var w := SimpRecSeq(v).0;
      SimpRecSeqAt(v);
      forall k | 0 <= k < |v| ensures SeedFree(w[k]) {
        SizeSeqElement(v, k);
        SimpRecSeedFree(v[k]);
      }
      SimpLoopSeedFree(Or(w));
    case _ =>
      SimpLoopSeedFree(t);
  }

  /**
   * The normal form `simp_rec` reaches: no double negation, no negated
   * constant, and every `Or` has at least two pairwise unequal operands none
   * of which is a constant or an `Or`.  Markers are not looked into.
   */
  predicate Flat(t: Tree)
  {
    match t
    case Not(a) => Flat(a) && !a.Not? && !a.Atom?
    case Or(v) =>
      |v| >= 2 && Distinct(v) &&
      forall i :: 0 <= i < |v| ==> Flat(v[i]) && !v[i].Or? && !v[i].Atom?
    case _ => true
  }

  predicate ChildrenFlat(t: Tree)
  {
    match t
    case Not(a) => Flat(a)
    case Or(v) => forall i :: 0 <= i < |v| ==> Flat(v[i])
    case _ => true
  }

  lemma SimpKeepsChildrenFlat(t: Tree)
    requires ChildrenFlat(t)
    ensures ChildrenFlat(Simp(t).1)
  {
    if t.Or? && !HasTrue(t.args) {
      var v := t.args;
      var e := Dedup(Candidates(v));
      OrOperands(v);
      forall x | x in e ensures Flat(x) {
        var i :| 0 <= i < |v| && ((x == v[i] && !v[i].Atom? && !v[i].Or?) || (v[i].Or? && x in v[i].args));
        assert Flat(v[i]);
      }
      if |e| == 1 {
        assert e[0] in e;
      }
    } else if t.Not? && t.arg.Not? {
      var a := t.arg.arg;
      assert Flat(a);
      if a.Or? {
        assert forall i :: 0 <= i < |a.args| ==> Flat(a.args[i]);
      }
    }
  }

  lemma SimpUnreportedIsFlat(t: Tree)
    requires ChildrenFlat(t) && !Simp(t).0
    ensures Flat(Simp(t).1)
  {
    if t.Or? {
      var v := t.args;
      var e := Dedup(Candidates(v));
      OrOperands(v);
      forall x | x in e ensures Flat(x) && !x.Or? && !x.Atom? {
        var i :| 0 <= i < |v| && ((x == v[i] && !v[i].Atom? && !v[i].Or?) || (v[i].Or? && x in v[i].args));
        assert Flat(v[i]);
      }
      assert forall k :: 0 <= k < |e| ==> e[k] in e;
    }
  }

  lemma {:induction false} SimpLoopFlat(t: Tree)
    requires ChildrenFlat(t)
    ensures Flat(SimpLoop(t).0)
    decreases Size(t)
  {
    SimpKeepsChildrenFlat(t);
    if Simp(t).0 {
      SimpShrinks(t);
      SimpLoopFlat(Simp(t).1);
    } else {
      SimpUnreportedIsFlat(t);
    }
  }

  /** `simp_rec` always returns a tree in normal form. */
  lemma {:induction false} SimpRecFlat(t: Tree)
    ensures Flat(SimpRec(t).0)
    decreases Size(t)
  {
    match t
    case Not(a) =>
      SimpRecFlat(a);
      SimpLoopFlat(Not(SimpRec(a).0));
    case Or(v) =>
      var w := SimpRecSeq(v).0;
      SimpRecSeqAt(v);
      forall k | 0 <= k < |w| ensures Flat(w[k]) {
        SizeSeqElement(v, k);
        SimpRecFlat(v[k]);
      }
      SimpLoopFlat(Or(w));
    case _ =>
      SimpLoopFlat(t);
  }

  lemma {:induction false} CandidatesOfPlainOperands(v: seq<Tree>)
    requires forall i :: 0 <= i < |v| ==> !v[i].Or? && !v[i].Atom?
    ensures Candidates(v) == v
    decreases |v|
  {
    if v != [] {
      CandidatesOfPlainOperands(v[..|v| - 1]);
      assert v[..|v| - 1] + [v[|v| - 1]] == v;
    }
  }

  /** On a tree in normal form `simp_rec` changes nothing and reports nothing. */
  lemma {:induction false} FlatIsFixpoint(t: Tree)
    requires Flat(t)
    ensures SimpRec(t) == (t, false)
    decreases Size(t)
  {
    match t
    case Not(a) =>
      FlatIsFixpoint(a);
    case Or(v) =>
      SimpRecSeqAt(v);
      forall k | 0 <= k < |v| ensures SimpRec(v[k]) == (v[k], false) {
        SizeSeqElement(v, k);
        FlatIsFixpoint(v[k]);
      }
      assert SimpRecSeq(v).0 == v;
      CandidatesOfPlainOperands(v);
      InsertAllOfDistinct(v);
      assert !HasTrue(v);
    case _ =>
  }

  /** Running `simp_rec` on its own result reports no change. */
  lemma SimpRecIdempotent(t: Tree)
    ensures SimpRec(SimpRec(t).0) == (SimpRec(t).0, false)
  {
    SimpRecFlat(t);
    FlatIsFixpoint(SimpRec(t).0);
  }

  /**
   * `simp_rec` as the source runs it: `changed` is the caller's flag, raised
   * (never lowered) once per reported rewrite.
   */
  method SimpRecursive(t: Tree, changedIn: bool) returns (r: Tree, changed: bool)
    ensures r == SimpRec(t).0
    ensures changed == (changedIn || SimpRec(t).1)
    decreases Size(t), 1
  {
    changed := changedIn;
    var current: Tree;
    ghost var childFlag: bool;
    match t {
      case Not(a) =>
        var a2;
        a2, changed := SimpRecursive(a, changed);
        current := Not(a2);
        childFlag := SimpRec(a).1;
      case Or(v) =>
        var w;
        w, changed := SimpOperands(v, changed);
        current := Or(w);
        childFlag := SimpRecSeq(v).1;
      case _ =>
        current := t;
        childFlag := false;
    }
    assert changed == (changedIn || childFlag);
    r, changed := SimpSettle(current, changed);
  }

  /** `simp_rec` on each operand of an `Or`, in order, threading the flag. */
  method SimpOperands(v: seq<Tree>, changedIn: bool) returns (w: seq<Tree>, changed: bool)
    ensures w == SimpRecSeq(v).0
    ensures changed == (changedIn || SimpRecSeq(v).1)
    decreases SizeSeq(v), 2
  {
    w, changed := [], changedIn;
    var i := 0;
    SimpRecSeqAt(v);
    while i < |v|
      invariant 0 <= i <= |v|
      invariant |w| == i
      invariant forall k :: 0 <= k < i ==> w[k] == SimpRec(v[k]).0
      invariant changed == (changedIn || exists k :: 0 <= k < i && SimpRec(v[k]).1)
    {
      SizeSeqElement(v, i);
      var x;
      x, changed := SimpRecursive(v[i], changed);
      w := w + [x];
      i := i + 1;
    }
  }

  /** The `while simp(..)` loop of `simp_rec`, run on the tree whose children are already simplified. */
  method SimpSettle(t: Tree, changedIn: bool) returns (r: Tree, changed: bool)
    ensures r == SimpLoop(t).0
    ensures changed == (changedIn || SimpLoop(t).1)
  {
    changed := changedIn;
    var pre := t;
    ghost var loopChanged := false;
    while true
      invariant SimpLoop(t).0 == SimpLoop(pre).0
      invariant SimpLoop(t).1 == (loopChanged || SimpLoop(pre).1)
      invariant changed == (changedIn || loopChanged)
      decreases Size(pre)
    {
      var simplified, next := SimpStep(pre);
      if !simplified {
        r := next;
        break;
      }
      SimpShrinks(pre);
      changed := true;
      loopChanged := true;
      pre := next;
    }
  }
}
