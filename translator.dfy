/**
 * The translator's helpers (src/compiler/atom_tree_translate.rs): the
 * condition-stack encodings, restriction emission in `force`, the `super`
 * and atom built-in calls, and the `ValueCollection` accessors and
 * `write_as_var`.  Trees are the binary-`Or` IR the translator builds.
 */
module Translator {
  import Tokens
  import Labels
  import Diagnostics
  import CsvExport
  import opened Wrappers
  import opened BinaryTree
  import opened BinaryForce
  import BinaryRoot

  // ---------------------------------------------------------------------
  // Values (src/compiler/atom_tree_translate.rs:630-649)
  // ---------------------------------------------------------------------

  /** A compile-time value; `Int` is a `usize`, bounded by the operations that make it. */
  datatype SuperValue = String(text: string) | Int(n: nat)

  datatype ValueCollection =
    | Error
    | Array(items: seq<ValueCollection>)
    | SingleVar(id: nat)
    | Single(tree: Tree)
    | Tuple(values: seq<ValueCollection>)
    | Composite(compositeName: string, fields: map<string, ValueCollection>)
    | Super(superValue: SuperValue)

  function Fail<T>(message: string): Diagnostics.Reported<T>
  {
    Diagnostics.Reported(None, [Diagnostics.ErrorAt(message, None)])
  }

  function Ok<T>(v: T): Diagnostics.Reported<T>
  {
    Diagnostics.Reported(Some(v), [])
  }

  // ---------------------------------------------------------------------
  // Accessors (src/compiler/atom_tree_translate.rs:652-761)
  // ---------------------------------------------------------------------

  function GetAsIntOrError(v: ValueCollection): (r: Diagnostics.Reported<nat>)
    ensures r.value.Some? <==> v.Super? && v.superValue.Int?
    ensures r.value.Some? ==> r.value.value == v.superValue.n
    ensures Diagnostics.OneErrorOnFailure(r)
  {
    match v
    case Super(Int(i)) => Ok(i)
    case _ => Fail("Expected super integer value")
  }

  function GetAsArrayOrError(v: ValueCollection): (r: Diagnostics.Reported<seq<ValueCollection>>)
    ensures r.value.Some? <==> v.Array?
    ensures r.value.Some? ==> r.value.value == v.items
    ensures Diagnostics.OneErrorOnFailure(r)
  {
    match v
    case Array(items) => Ok(items)
    case _ => Fail("Expected array value")
  }

  /** A single boolean, possibly wrapped in one-element tuples. */
  predicate SingleLike(v: ValueCollection)
  {
    match v
    case SingleVar(_) => true
    case Single(_) => true
    case Tuple(t) => |t| == 1 && SingleLike(t[0])
    case _ => false
  }

  function GetAsAtomTreeIfSingleOrError(v: ValueCollection): (r: Diagnostics.Reported<Tree>)
    ensures r.value.Some? <==> SingleLike(v)
    ensures Diagnostics.OneErrorOnFailure(r)
  {
    match v
    case SingleVar(id) => Ok(Variable(id))
    case Single(tree) => Ok(tree)
    case Tuple(t) =>
      if |t| == 1 then GetAsAtomTreeIfSingleOrError(t[0]) else Fail("Expected simple boolean value")
    case _ => Fail("Expected simple boolean value")
  }

  /** `v` inside `n` one-element tuples. */
  function Wrapped(v: ValueCollection, n: nat): ValueCollection
  {
    if n == 0 then v else Tuple([Wrapped(v, n - 1)])
  }

  /** Singleton tuples are unwrapped at any depth. */
  lemma {:induction false} UnwrapsSingletons(v: ValueCollection, n: nat)
    ensures GetAsAtomTreeIfSingleOrError(Wrapped(v, n)) == GetAsAtomTreeIfSingleOrError(v)
  {
    if n > 0 {
      UnwrapsSingletons(v, n - 1);
    }
  }

  /** The value a field access would borrow; the borrow itself is not modelled. */
  function AccessIdentifierOrError(v: ValueCollection, accessorName: string): (r: Diagnostics.Reported<ValueCollection>)
    ensures r.value.Some? <==> v.Composite? && accessorName in v.fields
    ensures r.value.Some? ==> r.value.value == v.fields[accessorName]
    ensures Diagnostics.OneErrorOnFailure(r)
  {
    match v
    case Composite(_, fields) =>
      if accessorName in fields then Ok(fields[accessorName])
      else Fail("Field \"" + accessorName + "\" not found in composite type")
    case _ => Fail("Tried to access field \"" + accessorName + "\" on a value that doesn't have fields.")
  }

  function AccessIndexedOrError(v: ValueCollection, idx: nat): (r: Diagnostics.Reported<ValueCollection>)
    ensures r.value.Some? <==> v.Array? && idx < |v.items|
    ensures r.value.Some? ==> r.value.value == v.items[idx]
    ensures Diagnostics.OneErrorOnFailure(r)
  {
    match v
    case Array(items) =>
      if idx < |items| then Ok(items[idx])
      else Fail("Index " + CsvExport.Decimal(idx) + " is out of bounds for array with size " + CsvExport.Decimal(|items|))
    case _ => Fail("Can't index access a value of this type.")
  }

  function AccessIndexOrError(v: ValueCollection, accessorIdx: nat): (r: Diagnostics.Reported<ValueCollection>)
    ensures r.value.Some? <==> v.Tuple? && accessorIdx < |v.values|
    ensures r.value.Some? ==> r.value.value == v.values[accessorIdx]
    ensures Diagnostics.OneErrorOnFailure(r)
  {
    match v
    case Tuple(fields) =>
      if accessorIdx < |fields| then Ok(fields[accessorIdx])
      else Fail("Index " + CsvExport.Decimal(accessorIdx) + " is out of bounds for tuple with size " + CsvExport.Decimal(|fields|))
    case Composite(_, _) => Fail("Indexing composite types not yet implemented")
    case _ => Fail("Can't index access a value of this type.")
  }

  // ---------------------------------------------------------------------
  // `write_as_var` (src/compiler/atom_tree_translate.rs:674-696)
  // ---------------------------------------------------------------------

  /**
   * `r` is `v` with every `Single` (through tuples and composite fields)
   * replaced by a `SingleVar` whose id lies in `[lo, hi)` and is bound to
   * that tree in `defs`; everything else is kept as it is.
   */
  predicate Written(v: ValueCollection, r: ValueCollection, defs: map<nat, Tree>, lo: nat, hi: nat)
  {
    match v
    case Single(tree) => r.SingleVar? && lo <= r.id < hi && r.id in defs && defs[r.id] == tree
    case Tuple(vs) =>
      r.Tuple? && |r.values| == |vs| &&
      forall i :: 0 <= i < |vs| ==> Written(vs[i], r.values[i], defs, lo, hi)
    case Composite(name, fields) =>
      r.Composite? && r.compositeName == name && r.fields.Keys == fields.Keys &&
      forall k :: k in fields ==> Written(fields[k], r.fields[k], defs, lo, hi)
    case _ => r == v
  }

  /** `d1` is `d0` except for ids in `[lo, hi)`. */
  predicate DefsGrow(d0: map<nat, Tree>, d1: map<nat, Tree>, lo: nat, hi: nat)
  {
    (forall id :: id in d0 && !(lo <= id < hi) ==> id in d1 && d1[id] == d0[id]) &&
    (forall id :: id in d1 ==> id in d0 || lo <= id < hi)
  }

  lemma DefsGrowTrans(d0: map<nat, Tree>, d1: map<nat, Tree>, d2: map<nat, Tree>, lo: nat, mid: nat, hi: nat)
    requires lo <= mid <= hi && DefsGrow(d0, d1, lo, mid) && DefsGrow(d1, d2, mid, hi)
    ensures DefsGrow(d0, d2, lo, hi)
  {
  }

  /** Binding more fresh ids, and widening the range, keeps a write valid. */
  lemma {:induction false} WrittenGrows(v: ValueCollection, r: ValueCollection, d1: map<nat, Tree>, d2: map<nat, Tree>,
                                        lo1: nat, lo2: nat, hi1: nat, hi2: nat)
    requires Written(v, r, d1, lo1, hi1) && lo2 <= lo1 && hi1 <= hi2 && DefsGrow(d1, d2, hi1, hi2)
    ensures Written(v, r, d2, lo2, hi2)
    decreases v
  {
    match v
    case Single(_) =>
    case Tuple(vs) =>
      forall i | 0 <= i < |vs| ensures Written(vs[i], r.values[i], d2, lo2, hi2) {
        WrittenGrows(vs[i], r.values[i], d1, d2, lo1, lo2, hi1, hi2);
      }
    case Composite(_, fields) =>
      forall k | k in fields ensures Written(fields[k], r.fields[k], d2, lo2, hi2) {
        WrittenGrows(fields[k], r.fields[k], d1, d2, lo1, lo2, hi1, hi2);
      }
    case _ =>
  }

  /** `ids` holds exactly the ids from `lo` up to, not including, `hi`. */
  ghost predicate Spans(ids: set<nat>, lo: nat, hi: nat)
  {
    forall id :: id in ids <==> lo <= id < hi
  }

  /** The ids that `r` gives to the `Single` leaves of `v`. */
  ghost function LeafIds(v: ValueCollection, r: ValueCollection): set<nat>
  {
    match v
    case Single(_) => if r.SingleVar? then {r.id} else {}
    case Tuple(vs) =>
      if r.Tuple? && |r.values| == |vs| then set i, x | 0 <= i < |vs| && x in LeafIds(vs[i], r.values[i]) :: x else {}
    case Composite(_, fields) =>
      if r.Composite? && r.fields.Keys == fields.Keys then set k, x | k in fields && x in LeafIds(fields[k], r.fields[k]) :: x else {}
    case _ => {}
  }

  /** No two `Single` leaves of `v` share an id in `r`. */
  ghost predicate LeavesApart(v: ValueCollection, r: ValueCollection)
  {
    match v
    case Tuple(vs) =>
      r.Tuple? && |r.values| == |vs| &&
      (forall i :: 0 <= i < |vs| ==> LeavesApart(vs[i], r.values[i])) &&
      forall i, j :: 0 <= i < j < |vs| ==> LeafIds(vs[i], r.values[i]) !! LeafIds(vs[j], r.values[j])
    case Composite(_, fields) =>
      r.Composite? && r.fields.Keys == fields.Keys &&
      (forall k :: k in fields ==> LeavesApart(fields[k], r.fields[k])) &&
      forall k, k' :: k in fields && k' in fields && k != k' ==> LeafIds(fields[k], r.fields[k]) !! LeafIds(fields[k'], r.fields[k'])
    case _ => true
  }

  /**
   * One more tuple element, whose leaves got the ids `[mid, hi)`, after
   * elements whose leaves got `[lo, mid)`: the leaves stay apart and their
   * ids now span `[lo, hi)`.
   */
  lemma TupleIdsStep(vs: seq<ValueCollection>, out: seq<ValueCollection>, w: ValueCollection,
                     ids: set<nat>, lo: nat, mid: nat, hi: nat)
    requires |out| < |vs| && lo <= mid <= hi
    requires forall j :: 0 <= j < |out| ==> LeavesApart(vs[j], out[j])
    requires forall j, j' :: 0 <= j < j' < |out| ==> LeafIds(vs[j], out[j]) !! LeafIds(vs[j'], out[j'])
    requires ids == (set j, x | 0 <= j < |out| && x in LeafIds(vs[j], out[j]) :: x) && Spans(ids, lo, mid)
    requires LeavesApart(vs[|out|], w) && Spans(LeafIds(vs[|out|], w), mid, hi)
    ensures var out' := out + [w];
      (forall j :: 0 <= j < |out'| ==> LeavesApart(vs[j], out'[j])) &&
      (forall j, j' :: 0 <= j < j' < |out'| ==> LeafIds(vs[j], out'[j]) !! LeafIds(vs[j'], out'[j'])) &&
      ids + LeafIds(vs[|out|], w) == (set j, x | 0 <= j < |out'| && x in LeafIds(vs[j], out'[j]) :: x) &&
      Spans(ids + LeafIds(vs[|out|], w), lo, hi)
  {
    var out' := out + [w];
    assert forall j :: 0 <= j < |out| ==> out'[j] == out[j];
    forall j | 0 <= j < |out| ensures LeafIds(vs[j], out'[j]) !! LeafIds(vs[|out|], w) {
      assert LeafIds(vs[j], out[j]) <= ids;
    }
  }

  /** The same step for one more composite field. */
  lemma FieldIdsStep(fields: map<string, ValueCollection>, out: map<string, ValueCollection>, k: string, w: ValueCollection,
                     ids: set<nat>, lo: nat, mid: nat, hi: nat)
    requires out.Keys <= fields.Keys && k in fields && k !in out && lo <= mid <= hi
    requires forall k1 :: k1 in out ==> LeavesApart(fields[k1], out[k1])
    requires forall k1, k2 :: k1 in out && k2 in out && k1 != k2 ==> LeafIds(fields[k1], out[k1]) !! LeafIds(fields[k2], out[k2])
    requires ids == (set k1, x | k1 in out && x in LeafIds(fields[k1], out[k1]) :: x) && Spans(ids, lo, mid)
    requires LeavesApart(fields[k], w) && Spans(LeafIds(fields[k], w), mid, hi)
    ensures var out' := out[k := w];
      (forall k1 :: k1 in out' ==> LeavesApart(fields[k1], out'[k1])) &&
      (forall k1, k2 :: k1 in out' && k2 in out' && k1 != k2 ==> LeafIds(fields[k1], out'[k1]) !! LeafIds(fields[k2], out'[k2])) &&
      ids + LeafIds(fields[k], w) == (set k1, x | k1 in out' && x in LeafIds(fields[k1], out'[k1]) :: x) &&
      Spans(ids + LeafIds(fields[k], w), lo, hi)
  {
    var out' := out[k := w];
    forall k1 | k1 in out ensures LeafIds(fields[k1], out'[k1]) !! LeafIds(fields[k], w) {
      assert LeafIds(fields[k1], out[k1]) <= ids;
    }
  }

  /** The truth of a single boolean value under an assignment. */
  function LeafTruth(v: ValueCollection, env: nat -> bool, seeds: Labels.Label -> bool): bool
  {
    match v
    case Single(t) => Eval(t, env, seeds)
    case SingleVar(id) => env(id)
    case _ => false
  }

  /** `r` has the shape of `v` and every boolean in it has the same truth. */
  predicate Agrees(v: ValueCollection, r: ValueCollection, env: nat -> bool, seeds: Labels.Label -> bool)
  {
    match v
    case Single(_) => r.SingleVar? && LeafTruth(r, env, seeds) == LeafTruth(v, env, seeds)
    case Tuple(vs) =>
      r.Tuple? && |r.values| == |vs| &&
      forall i :: 0 <= i < |vs| ==> Agrees(vs[i], r.values[i], env, seeds)
    case Composite(name, fields) =>
      r.Composite? && r.compositeName == name && r.fields.Keys == fields.Keys &&
      forall k :: k in fields ==> Agrees(fields[k], r.fields[k], env, seeds)
    case _ => r == v
  }

  /**
   * No boolean of the value is a bare seed: the translator only ever holds a
   * seed through the `SingleVar` of the variable it defines
   * (src/compiler/atom_tree_translate.rs:58-61).
   */
  predicate SeedlessLeaves(v: ValueCollection)
  {
    match v
    case Single(tree) => !tree.SeedLabel?
    case Tuple(vs) => forall i :: 0 <= i < |vs| ==> SeedlessLeaves(vs[i])
    case Composite(_, fields) => forall k :: k in fields ==> SeedlessLeaves(fields[k])
    case _ => true
  }

  /** Under any solution of the definitions, writing a value as variables keeps its meaning. */
  lemma {:induction false} WrittenAgrees(v: ValueCollection, r: ValueCollection, defs: map<nat, Tree>, lo: nat, hi: nat,
                                         env: nat -> bool, seeds: Labels.Label -> bool)
    requires Written(v, r, defs, lo, hi) && SeedlessLeaves(v) && DefinitionsHold(defs, env, seeds)
    ensures Agrees(v, r, env, seeds)
    decreases v
  {
    match v
    case Single(_) =>
    case Tuple(vs) =>
      forall i | 0 <= i < |vs| ensures Agrees(vs[i], r.values[i], env, seeds) {
        WrittenAgrees(vs[i], r.values[i], defs, lo, hi, env, seeds);
      }
    case Composite(_, fields) =>
      forall k | k in fields ensures Agrees(fields[k], r.fields[k], env, seeds) {
        WrittenAgrees(fields[k], r.fields[k], defs, lo, hi, env, seeds);
      }
    case _ =>
  }

  // ---------------------------------------------------------------------
  // Condition-stack encodings (src/compiler/atom_tree_translate.rs:77-90,
  // 126-142, 228-234)
  // ---------------------------------------------------------------------

  /** Every condition on the stack holds. */
  predicate AllHold(cs: seq<Tree>, env: nat -> bool, seeds: Labels.Label -> bool)
  {
    forall i :: 0 <= i < |cs| ==> Eval(cs[i], env, seeds)
  }

  lemma AllHoldSnoc(cs: seq<Tree>, env: nat -> bool, seeds: Labels.Label -> bool)
    requires cs != []
    ensures AllHold(cs, env, seeds) == (AllHold(cs[..|cs| - 1], env, seeds) && Eval(cs[|cs| - 1], env, seeds))
  {
    var init := cs[..|cs| - 1];
    assert forall i :: 0 <= i < |init| ==> init[i] == cs[i];
  }

  /** The tree `true_if_all_conditions_are_met` builds, one condition at a time. */
  function AllConditions(cs: seq<Tree>): Tree
    decreases |cs|
  {
    if cs == [] then Atom(Tokens.True)
    else Not(Or(Not(cs[|cs| - 1]), Not(AllConditions(cs[..|cs| - 1]))))
  }

  /** The tree is the conjunction of the conditions (true for an empty stack). */
  lemma {:induction false} AllConditionsEval(cs: seq<Tree>, env: nat -> bool, seeds: Labels.Label -> bool)
    ensures Eval(AllConditions(cs), env, seeds) == AllHold(cs, env, seeds)
    decreases |cs|
  {
    if cs != [] {
      var init := cs[..|cs| - 1];
      var last, rest := cs[|cs| - 1], AllConditions(init);
      AllConditionsEval(init, env, seeds);
      AllHoldSnoc(cs, env, seeds);
      assert Eval(Or(Not(last), Not(rest)), env, seeds) == (!Eval(last, env, seeds) || !Eval(rest, env, seeds));
    }
  }

  /** One step of `mutate_value_to_enforce_at_condition`. */
  function EnforceStep(value: Tree, condition: Tree, t: Tokens.AtomType): Tree
  {
    if t == Tokens.True then Or(value, Not(condition))
    else Not(Or(Not(value), Not(condition)))
  }

  function Enforced(value: Tree, t: Tokens.AtomType, cs: seq<Tree>): Tree
    decreases |cs|
  {
    if cs == [] then value else EnforceStep(Enforced(value, t, cs[..|cs| - 1]), cs[|cs| - 1], t)
  }

  /**
   * Forcing `True` asks for `value` or a failed condition; forcing `False`
   * asks for `value` to be false or a condition to fail, so the tree is
   * `value` and all conditions.
   */
  lemma {:induction false} EnforcedEval(value: Tree, t: Tokens.AtomType, cs: seq<Tree>,
                                        env: nat -> bool, seeds: Labels.Label -> bool)
    ensures t == Tokens.True ==>
      Eval(Enforced(value, t, cs), env, seeds) == (Eval(value, env, seeds) || !AllHold(cs, env, seeds))
    ensures t == Tokens.False ==>
      Eval(Enforced(value, t, cs), env, seeds) == (Eval(value, env, seeds) && AllHold(cs, env, seeds))
    decreases |cs|
  {
    if cs != [] {
      var prev, last := Enforced(value, t, cs[..|cs| - 1]), cs[|cs| - 1];
      EnforcedEval(value, t, cs[..|cs| - 1], env, seeds);
      AllHoldSnoc(cs, env, seeds);
      assert Eval(Or(Not(prev), Not(last)), env, seeds) == (!Eval(prev, env, seeds) || !Eval(last, env, seeds));
    }
  }

  /** A restriction emitted under a failed condition always holds. */
  lemma EnforcedHoldsWhenConditionFails(value: Tree, t: Tokens.AtomType, cs: seq<Tree>,
                                        env: nat -> bool, seeds: Labels.Label -> bool)
    requires !AllHold(cs, env, seeds)
    ensures Eval(Enforced(value, t, cs), env, seeds) == Tokens.ToBool(t)
  {
    EnforcedEval(value, t, cs, env, seeds);
  }

  /** When every condition holds, the emitted restriction is about `value` alone. */
  lemma EnforcedWhenAllHold(value: Tree, t: Tokens.AtomType, cs: seq<Tree>,
                            env: nat -> bool, seeds: Labels.Label -> bool)
    requires AllHold(cs, env, seeds)
    ensures Eval(Enforced(value, t, cs), env, seeds) == Eval(value, env, seeds)
  {
    EnforcedEval(value, t, cs, env, seeds);
  }

  /** `select_if_conditions_met`: a multiplexer built from `Not` and `Or`. */
  function SelectIfConditionsMet(selectIfTrue: Tree, selectIfFalse: Tree, condition: Tree): (r: Tree)
    ensures r.Or? && r.left.Not? && r.right.Not?
  {
    var selectedAtTrue := Not(Or(Not(condition), Not(selectIfTrue)));
    var selectedAtFalse := Not(Or(condition, Not(selectIfFalse)));
    Or(selectedAtTrue, selectedAtFalse)
  }

  lemma SelectEval(selectIfTrue: Tree, selectIfFalse: Tree, condition: Tree, env: nat -> bool, seeds: Labels.Label -> bool)
    ensures Eval(SelectIfConditionsMet(selectIfTrue, selectIfFalse, condition), env, seeds) ==
            if Eval(condition, env, seeds) then Eval(selectIfTrue, env, seeds) else Eval(selectIfFalse, env, seeds)
  {
    var c, t, f := Eval(condition, env, seeds), Eval(selectIfTrue, env, seeds), Eval(selectIfFalse, env, seeds);
    assert Eval(Or(Not(condition), Not(selectIfTrue)), env, seeds) == (!c || !t);
    assert Eval(Or(condition, Not(selectIfFalse)), env, seeds) == (c || !f);
  }

  // ---------------------------------------------------------------------
  // `force` (src/compiler/atom_tree_translate.rs:92-114)
  // ---------------------------------------------------------------------

  const ForceMessage := "Can only force tuple types or single types"

  /** The boolean leaves `force` restricts, in order. */
  function ForceLeaves(v: ValueCollection): seq<Tree>
    decreases v
  {
    match v
    case Single(t) => [t]
    case SingleVar(id) => [Variable(id)]
    case Tuple(vs) => ForceLeavesList(vs)
    case _ => []
  }

  function ForceLeavesList(vs: seq<ValueCollection>): seq<Tree>
    decreases vs
  {
    if vs == [] then [] else ForceLeavesList(vs[..|vs| - 1]) + ForceLeaves(vs[|vs| - 1])
  }

  /** A tuple tree whose every leaf is a single boolean. */
  predicate Forceable(v: ValueCollection)
  {
    match v
    case Single(_) => true
    case SingleVar(_) => true
    case Tuple(vs) => forall i :: 0 <= i < |vs| ==> Forceable(vs[i])
    case _ => false
  }

  /** The errors `force` reports: one per leaf that is neither a tuple nor single. */
  function ForceErrors(v: ValueCollection): (r: seq<Diagnostics.Diagnostic>)
    ensures forall i :: 0 <= i < |r| ==> r[i] == Diagnostics.ErrorAt(ForceMessage, None)
    ensures r == [] <==> Forceable(v)
    decreases v
  {
    match v
    case Single(_) => []
    case SingleVar(_) => []
    case Tuple(vs) => ForceErrorList(vs)
    case _ => [Diagnostics.ErrorAt(ForceMessage, None)]
  }

  function ForceErrorList(vs: seq<ValueCollection>): (r: seq<Diagnostics.Diagnostic>)
    ensures forall i :: 0 <= i < |r| ==> r[i] == Diagnostics.ErrorAt(ForceMessage, None)
    ensures r == [] <==> forall i :: 0 <= i < |vs| ==> Forceable(vs[i])
    decreases vs
  {
    if vs == [] then []
    else
      var init := vs[..|vs| - 1];
      assert forall i :: 0 <= i < |init| ==> init[i] == vs[i];
      ForceErrorList(init) + ForceErrors(vs[|vs| - 1])
  }

  /** One restriction `leaf => t`, enforced at the condition stack, per leaf. */
  function Restrictions(leaves: seq<Tree>, t: Tokens.AtomType, cs: seq<Tree>): (r: seq<Action>)
    ensures |r| == |leaves|
    decreases |leaves|
  {
    if leaves == [] then []
    else Restrictions(leaves[..|leaves| - 1], t, cs) + [(Enforced(leaves[|leaves| - 1], t, cs), Restriction(t))]
  }

  lemma {:induction false} RestrictionsAt(leaves: seq<Tree>, t: Tokens.AtomType, cs: seq<Tree>, k: nat)
    requires k < |leaves|
    ensures Restrictions(leaves, t, cs)[k] == (Enforced(leaves[k], t, cs), Restriction(t))
    decreases |leaves|
  {
    if k < |leaves| - 1 {
      RestrictionsAt(leaves[..|leaves| - 1], t, cs, k);
    }
  }

  lemma {:induction false} RestrictionsAppend(a: seq<Tree>, b: seq<Tree>, t: Tokens.AtomType, cs: seq<Tree>)
    ensures Restrictions(a + b, t, cs) == Restrictions(a, t, cs) + Restrictions(b, t, cs)
    decreases |b|
  {
    if b == [] {
      assert a + b == a;
    } else {
      var init := b[..|b| - 1];
      assert (a + b)[..|a + b| - 1] == a + init;
      RestrictionsAppend(a, init, t, cs);
    }
  }

  /**
   * The restrictions `force` emits hold whenever some condition fails;
   * when all hold they say exactly that every leaf equals `t`.
   */
  lemma RestrictionsMeaning(leaves: seq<Tree>, t: Tokens.AtomType, cs: seq<Tree>,
                            env: nat -> bool, seeds: Labels.Label -> bool)
    ensures RestrictionsHold(Restrictions(leaves, t, cs), env, seeds) ==
            (!AllHold(cs, env, seeds) || forall k :: 0 <= k < |leaves| ==> Eval(leaves[k], env, seeds) == Tokens.ToBool(t))
  {
    var rs := Restrictions(leaves, t, cs);
    forall k | 0 <= k < |leaves|
      ensures RestrictionHolds(rs[k], env, seeds) ==
              (!AllHold(cs, env, seeds) || Eval(leaves[k], env, seeds) == Tokens.ToBool(t))
    {
      RestrictionsAt(leaves, t, cs, k);
      EnforcedEval(leaves[k], t, cs, env, seeds);
    }
  }

  lemma ForceStep(vs: seq<ValueCollection>, i: nat, t: Tokens.AtomType, cs: seq<Tree>)
    requires i < |vs|
    ensures Restrictions(ForceLeavesList(vs[..i + 1]), t, cs) ==
            Restrictions(ForceLeavesList(vs[..i]), t, cs) + Restrictions(ForceLeaves(vs[i]), t, cs)
    ensures ForceErrorList(vs[..i + 1]) == ForceErrorList(vs[..i]) + ForceErrors(vs[i])
  {
    assert vs[..i + 1][..i] == vs[..i];
    RestrictionsAppend(ForceLeavesList(vs[..i]), ForceLeaves(vs[i]), t, cs);
  }

  lemma Assoc<T>(a: seq<T>, b: seq<T>, c: seq<T>)
    ensures (a + b) + c == a + (b + c)
  {
  }

  // ---------------------------------------------------------------------
  // Built-in calls (src/compiler/atom_tree_translate.rs:316-472)
  // ---------------------------------------------------------------------

  /** A tuple application is its items; anything else is a single argument. */
  function Arguments(application: ValueCollection): seq<ValueCollection>
  {
    match application
    case Tuple(t) => t
    case _ => [application]
  }

  /** `wrapping_add`, `wrapping_sub` and `wrapping_mul` on `usize`. */
  function WrappingAdd(a: nat, b: nat): (r: nat)
    ensures r < Tokens.USIZE_MODULUS
  {
    (a + b) % Tokens.USIZE_MODULUS
  }

  function WrappingSub(a: nat, b: nat): (r: nat)
    ensures r < Tokens.USIZE_MODULUS
  {
    (a - b) % Tokens.USIZE_MODULUS
  }

  function WrappingMul(a: nat, b: nat): (r: nat)
    ensures r < Tokens.USIZE_MODULUS
  {
    (a * b) % Tokens.USIZE_MODULUS
  }

  /** Wrapping subtraction undoes wrapping addition, and the other way round. */
  lemma WrappingSubAdd(a: Tokens.Usize, b: Tokens.Usize)
    ensures WrappingSub(WrappingAdd(a, b), b) == a
    ensures WrappingAdd(WrappingSub(a, b), b) == a
  {
    var m := Tokens.USIZE_MODULUS;
    if a + b < m {
      assert WrappingAdd(a, b) == a + b;
    } else {
      assert WrappingAdd(a, b) == a + b - m;
    }
    if a >= b {
      assert WrappingSub(a, b) == a - b;
    } else {
      assert WrappingSub(a, b) == a - b + m;
    }
  }

  /** Without overflow the wrapping operations are the plain ones. */
  lemma WrappingExact(a: nat, b: nat)
    ensures a + b < Tokens.USIZE_MODULUS ==> WrappingAdd(a, b) == a + b
    ensures b <= a < Tokens.USIZE_MODULUS ==> WrappingSub(a, b) == a - b
    ensures a * b < Tokens.USIZE_MODULUS ==> WrappingMul(a, b) == a * b
  {
    var p := a * b;
    if p < Tokens.USIZE_MODULUS {
      assert p % Tokens.USIZE_MODULUS == p;
    }
  }

  /** The `super` functions the translator knows. */
  datatype SuperOp = Add | Sb | Mul | Div | Mod | Eq | Ne | Grt | Grte | Len | Min | Max

  function OpName(op: SuperOp): string
  {
    match op
    case Add => "add"
    case Sb => "sb"
    case Mul => "mul"
    case Div => "div"
    case Mod => "mod"
    case Eq => "eq"
    case Ne => "ne"
    case Grt => "grt"
    case Grte => "grte"
    case Len => "len"
    case Min => "min"
    case Max => "max"
  }

  /** The arm of the `match name.as_str()` a name selects; `None` for the fallback arm. */
  function LookupSuper(name: string): Option<SuperOp>
  {
    if name == "add" then Some(Add)
    else if name == "sb" then Some(Sb)
    else if name == "mul" then Some(Mul)
    else if name == "div" then Some(Div)
    else if name == "mod" then Some(Mod)
    else if name == "eq" then Some(Eq)
    else if name == "ne" then Some(Ne)
    else if name == "grt" then Some(Grt)
    else if name == "grte" then Some(Grte)
    else if name == "len" then Some(Len)
    else if name == "min" then Some(Min)
    else if name == "max" then Some(Max)
    else None
  }

  /** Each arm is selected by its own name and by no other. */
  lemma LookupSuperNames(name: string, op: SuperOp)
    ensures LookupSuper(name) == Some(op) <==> name == OpName(op)
  {
  }

  /** The arity each function demands. */
  function Arity(op: SuperOp): nat
  {
    if op == Len then 1 else 2
  }

  function Boolean(b: bool): ValueCollection
  {
    Single(Atom(if b then Tokens.True else Tokens.False))
  }

  /**
   * The operation on the first argument `a` and the second `b` (`pop`
   * converts the second first).
   */
  function IntOperation(op: SuperOp, a: nat, b: nat): Diagnostics.Reported<ValueCollection>
    requires op != Len
  {
    match op
    case Add => Ok(Super(Int(WrappingAdd(b, a))))
    case Sb => Ok(Super(Int(WrappingSub(a, b))))
    case Mul => Ok(Super(Int(WrappingMul(b, a))))
    case Div => if b == 0 then Fail("Division by zero") else Ok(Super(Int(a / b)))
    case Mod => if b == 0 then Fail("Division by zero") else Ok(Super(Int(a % b)))
    case Eq => Ok(Boolean(b == a))
    case Ne => Ok(Boolean(b != a))
    case Grt => Ok(Boolean(a > b))
    case Grte => Ok(Boolean(a >= b))
    case Min => Ok(Super(Int(if a <= b then a else b)))
    case Max => Ok(Super(Int(if a >= b then a else b)))
  }

  /** One arm of the `super` dispatch, on an already compiled application. */
  function SuperOpCall(op: SuperOp, application: ValueCollection): (r: Diagnostics.Reported<ValueCollection>)
    ensures Diagnostics.OneErrorOnFailure(r)
    ensures |Arguments(application)| != Arity(op) ==> r.value.None?
  {
    var args := Arguments(application);
    if |args| != Arity(op) then
      if op == Len then Fail("Incorrect parameters for len function. Expected 1 integer parameter.")
      else Fail("Incorrect parameters for " + OpName(op) + " function. Expected 2 integer parameters.")
    else if op == Len then
      var a := GetAsArrayOrError(args[0]);
      if a.value.None? then Diagnostics.Reported(None, a.errors) else Ok(Super(Int(|a.value.value|)))
    else
      var second := GetAsIntOrError(args[1]);
      if second.value.None? then Diagnostics.Reported(None, second.errors)
      else
        var first := GetAsIntOrError(args[0]);
        if first.value.None? then Diagnostics.Reported(None, first.errors)
        else IntOperation(op, first.value.value, second.value.value)
  }

  /** `SubLocation::Super(name)`: an unknown name reports one error. */
  function SuperCall(name: string, application: ValueCollection): (r: Diagnostics.Reported<ValueCollection>)
    ensures Diagnostics.OneErrorOnFailure(r)
    ensures LookupSuper(name).None? ==> r == Fail("Unknown super function: " + name)
  {
    match LookupSuper(name)
    case Some(op) => SuperOpCall(op, application)
    case None => Fail("Unknown super function: " + name)
  }

  function Pair(a: nat, b: nat): ValueCollection
  {
    Tuple([Super(Int(a)), Super(Int(b))])
  }

  /** A pair of integers reaches the operation itself, first argument first. */
  lemma PairReachesOperation(op: SuperOp, a: nat, b: nat)
    requires op != Len
    ensures SuperOpCall(op, Pair(a, b)) == IntOperation(op, a, b)
  {
    assert Arguments(Pair(a, b)) == [Super(Int(a)), Super(Int(b))];
  }

  /** `add`, `sb` and `mul` wrap at the `usize` width; `sb` takes the second from the first. */
  lemma SuperArithmetic(a: nat, b: nat)
    ensures SuperOpCall(Add, Pair(a, b)) == Ok(Super(Int((a + b) % Tokens.USIZE_MODULUS)))
    ensures SuperOpCall(Sb, Pair(a, b)) == Ok(Super(Int((a - b) % Tokens.USIZE_MODULUS)))
    ensures SuperOpCall(Mul, Pair(a, b)) == Ok(Super(Int((a * b) % Tokens.USIZE_MODULUS)))
  {
    PairReachesOperation(Add, a, b);
    PairReachesOperation(Sb, a, b);
    PairReachesOperation(Mul, a, b);
    assert b + a == a + b;
    assert b * a == a * b;
  }

  /** `div` and `mod` divide the first by the second and refuse a zero divisor. */
  lemma SuperDivision(a: nat, b: nat)
    ensures b != 0 ==> SuperOpCall(Div, Pair(a, b)) == Ok(Super(Int(a / b)))
    ensures b != 0 ==> SuperOpCall(Mod, Pair(a, b)) == Ok(Super(Int(a % b)))
    ensures b == 0 ==> SuperOpCall(Div, Pair(a, b)) == Fail("Division by zero")
    ensures b == 0 ==> SuperOpCall(Mod, Pair(a, b)) == Fail("Division by zero")
  {
    PairReachesOperation(Div, a, b);
    PairReachesOperation(Mod, a, b);
  }

  /** Comparisons give constant trees, `grt`/`grte` comparing the first against the second. */
  lemma SuperComparison(a: nat, b: nat)
    ensures SuperOpCall(Eq, Pair(a, b)) == Ok(Boolean(a == b))
    ensures SuperOpCall(Ne, Pair(a, b)) == Ok(Boolean(a != b))
    ensures SuperOpCall(Grt, Pair(a, b)) == Ok(Boolean(a > b))
    ensures SuperOpCall(Grte, Pair(a, b)) == Ok(Boolean(a >= b))
  {
    PairReachesOperation(Eq, a, b);
    PairReachesOperation(Ne, a, b);
    PairReachesOperation(Grt, a, b);
    PairReachesOperation(Grte, a, b);
  }

  /** `min` and `max` pick the smaller and the larger argument. */
  lemma SuperMinMax(a: nat, b: nat)
    ensures SuperOpCall(Min, Pair(a, b)).value.Some? && SuperOpCall(Max, Pair(a, b)).value.Some?
    ensures var r := SuperOpCall(Min, Pair(a, b)).value.value;
      r.Super? && r.superValue.Int? && r.superValue.n <= a && r.superValue.n <= b &&
      (r.superValue.n == a || r.superValue.n == b)
    ensures var r := SuperOpCall(Max, Pair(a, b)).value.value;
      r.Super? && r.superValue.Int? && r.superValue.n >= a && r.superValue.n >= b &&
      (r.superValue.n == a || r.superValue.n == b)
  {
    PairReachesOperation(Min, a, b);
    PairReachesOperation(Max, a, b);
  }

  /** `len` counts the items of one array argument, bare or in a one-element tuple. */
  lemma SuperLen(items: seq<ValueCollection>)
    ensures SuperOpCall(Len, Array(items)) == Ok(Super(Int(|items|)))
    ensures SuperOpCall(Len, Tuple([Array(items)])) == Ok(Super(Int(|items|)))
  {
  }

  /** A non-integer argument reports one error; the second argument is checked first. */
  lemma SuperArgumentErrors(op: SuperOp, x: ValueCollection, y: ValueCollection)
    requires op != Len
    ensures !(y.Super? && y.superValue.Int?) ==> SuperOpCall(op, Tuple([x, y])) == Fail("Expected super integer value")
    ensures (y.Super? && y.superValue.Int?) && !(x.Super? && x.superValue.Int?) ==>
            SuperOpCall(op, Tuple([x, y])) == Fail("Expected super integer value")
  {
  }

  /** `AtomSub::Not`: the negation of one boolean. */
  function AtomNotCall(application: ValueCollection): (r: Diagnostics.Reported<ValueCollection>)
    ensures Diagnostics.OneErrorOnFailure(r)
    ensures r.value.Some? <==> SingleLike(application)
  {
    var a := GetAsAtomTreeIfSingleOrError(application);
    if a.value.None? then Diagnostics.Reported(None, a.errors) else Ok(Single(Not(a.value.value)))
  }

  /** `AtomSub::Or`: the disjunction of a pair, the second item converted first. */
  function AtomOrCall(application: ValueCollection): (r: Diagnostics.Reported<ValueCollection>)
    ensures Diagnostics.OneErrorOnFailure(r)
    ensures r.value.Some? <==> application.Tuple? && |application.values| == 2 &&
                               SingleLike(application.values[0]) && SingleLike(application.values[1])
  {
    if application.Tuple? && |application.values| == 2 then
      var a := GetAsAtomTreeIfSingleOrError(application.values[1]);
      if a.value.None? then Diagnostics.Reported(None, a.errors)
      else
        var b := GetAsAtomTreeIfSingleOrError(application.values[0]);
        if b.value.None? then Diagnostics.Reported(None, b.errors)
        else Ok(Single(Or(a.value.value, b.value.value)))
    else Fail("Incorrect parameters for or function. Expected 2 boolean parameter.")
  }

  function AtomCall(sub: Tokens.AtomSub, application: ValueCollection): Diagnostics.Reported<ValueCollection>
  {
    match sub
    case NotSub => AtomNotCall(application)
    case OrSub => AtomOrCall(application)
  }

  /** `not` gives a single boolean that is the negation of its argument. */
  lemma AtomNotEval(application: ValueCollection, env: nat -> bool, seeds: Labels.Label -> bool)
    requires SingleLike(application)
    ensures AtomNotCall(application).value.Some? && AtomNotCall(application).value.value.Single?
    ensures Eval(AtomNotCall(application).value.value.tree, env, seeds) ==
            !Eval(GetAsAtomTreeIfSingleOrError(application).value.value, env, seeds)
  {
  }

  /** `or` gives a single boolean that is the disjunction of its two arguments. */
  lemma AtomOrEval(x: ValueCollection, y: ValueCollection, env: nat -> bool, seeds: Labels.Label -> bool)
    requires SingleLike(x) && SingleLike(y)
    ensures AtomOrCall(Tuple([x, y])).value.Some? && AtomOrCall(Tuple([x, y])).value.value.Single?
    ensures Eval(AtomOrCall(Tuple([x, y])).value.value.tree, env, seeds) ==
            (Eval(GetAsAtomTreeIfSingleOrError(x).value.value, env, seeds) ||
             Eval(GetAsAtomTreeIfSingleOrError(y).value.value, env, seeds))
  {
  }

  // ---------------------------------------------------------------------
  // The translator state (src/compiler/atom_tree_translate.rs:7-13)
  // ---------------------------------------------------------------------

  class AtomTreeTranslator {
    var atomTree: BinaryRoot.AtomRoot
    var compilation: Diagnostics.Compilation
    var conditionStack: seq<Tree>

    constructor (comp: Diagnostics.Compilation)
      ensures compilation == comp && conditionStack == [] && fresh(atomTree)
      ensures atomTree.definitions == map[] && atomTree.variableId == 0 && atomTree.valueActions == []
    {
      compilation := comp;
      atomTree := new BinaryRoot.AtomRoot();
      conditionStack := [];
    }

    method MutateValueToEnforceAtCondition(value: Tree, t: Tokens.AtomType) returns (r: Tree)
      ensures r == Enforced(value, t, conditionStack)
    {
      r := value;
      for i := 0 to |conditionStack|
        invariant r == Enforced(value, t, conditionStack[..i])
      {
        assert conditionStack[..i + 1][..i] == conditionStack[..i];
        r := EnforceStep(r, conditionStack[i], t);
      }
      assert conditionStack[..|conditionStack|] == conditionStack;
    }

    method TrueIfAllConditionsAreMet() returns (cur: Tree)
      ensures cur == AllConditions(conditionStack)
    {
      cur := Atom(Tokens.True);
      for i := 0 to |conditionStack|
        invariant cur == AllConditions(conditionStack[..i])
      {
        assert conditionStack[..i + 1][..i] == conditionStack[..i];
        cur := Not(Or(Not(conditionStack[i]), Not(cur)));
      }
      assert conditionStack[..|conditionStack|] == conditionStack;
    }

    /** Emits one restriction per boolean leaf, in order, and an error per other leaf. */
    method Force(value: ValueCollection, t: Tokens.AtomType)
      modifies atomTree, compilation
      ensures atomTree.valueActions ==
              old(atomTree.valueActions) + Restrictions(ForceLeaves(value), t, conditionStack)
      ensures atomTree.definitions == old(atomTree.definitions) && atomTree.variableId == old(atomTree.variableId)
      ensures compilation.diagnostics == old(compilation.diagnostics) + ForceErrors(value)
      decreases value
    {
      match value {
        case Single(tree) =>
          var v := MutateValueToEnforceAtCondition(tree, t);
          atomTree.DefineRestriction(v, t);
          assert Restrictions(ForceLeaves(value), t, conditionStack) == [(v, Restriction(t))];
        case SingleVar(id) =>
          var v := MutateValueToEnforceAtCondition(Variable(id), t);
          atomTree.DefineRestriction(v, t);
          assert Restrictions(ForceLeaves(value), t, conditionStack) == [(v, Restriction(t))];
        case Tuple(values) =>
          for i := 0 to |values|
            invariant atomTree.valueActions ==
                      old(atomTree.valueActions) + Restrictions(ForceLeavesList(values[..i]), t, conditionStack)
            invariant compilation.diagnostics == old(compilation.diagnostics) + ForceErrorList(values[..i])
            invariant atomTree.definitions == old(atomTree.definitions) && atomTree.variableId == old(atomTree.variableId)
          {
            ForceStep(values, i, t, conditionStack);
            Assoc(old(atomTree.valueActions), Restrictions(ForceLeavesList(values[..i]), t, conditionStack),
                  Restrictions(ForceLeaves(values[i]), t, conditionStack));
            Assoc(old(compilation.diagnostics), ForceErrorList(values[..i]), ForceErrors(values[i]));
            Force(values[i], t);
          }
          assert values[..|values|] == values;
        case _ =>
          compilation.AddError(ForceMessage, None);
          assert Restrictions(ForceLeaves(value), t, conditionStack) == [];
      }
    }

    /**
     * Binds every single boolean of `v` to a fresh variable; composite
     * fields are visited in an unspecified order.
     */
    method WriteAsVar(v: ValueCollection) returns (r: ValueCollection)
      modifies atomTree
      ensures old(atomTree.variableId) <= atomTree.variableId
      ensures Written(v, r, atomTree.definitions, old(atomTree.variableId), atomTree.variableId)
      ensures DefsGrow(old(atomTree.definitions), atomTree.definitions, old(atomTree.variableId), atomTree.variableId)
      ensures atomTree.valueActions == old(atomTree.valueActions)
      ensures LeavesApart(v, r) && Spans(LeafIds(v, r), old(atomTree.variableId), atomTree.variableId)
      decreases v, 2
    {
      match v {
        case Single(tree) =>
          var id := atomTree.DefineNewVar(tree);
          r := SingleVar(id);
        case Tuple(vs) =>
          r := WriteTuple(v, vs);
        case Composite(name, fields) =>
          r := WriteComposite(v, name, fields);
        case _ =>
          r := v;
      }
    }

    /** `write_as_var` on a tuple: the elements in order. */
    method WriteTuple(ghost v: ValueCollection, vs: seq<ValueCollection>) returns (r: ValueCollection)
      requires v == Tuple(vs)
      modifies atomTree
      ensures old(atomTree.variableId) <= atomTree.variableId
      ensures Written(v, r, atomTree.definitions, old(atomTree.variableId), atomTree.variableId)
      ensures DefsGrow(old(atomTree.definitions), atomTree.definitions, old(atomTree.variableId), atomTree.variableId)
      ensures atomTree.valueActions == old(atomTree.valueActions)
      ensures LeavesApart(v, r) && Spans(LeafIds(v, r), old(atomTree.variableId), atomTree.variableId)
      decreases v, 1
    {
      var out: seq<ValueCollection> := [];
      ghost var ids: set<nat> := {};
      for i := 0 to |vs|
        invariant |out| == i && old(atomTree.variableId) <= atomTree.variableId
        invariant forall j :: 0 <= j < i ==>
                    Written(vs[j], out[j], atomTree.definitions, old(atomTree.variableId), atomTree.variableId)
        invariant DefsGrow(old(atomTree.definitions), atomTree.definitions, old(atomTree.variableId), atomTree.variableId)
        invariant atomTree.valueActions == old(atomTree.valueActions)
        invariant forall j :: 0 <= j < i ==> LeavesApart(vs[j], out[j])
        invariant forall j, j' :: 0 <= j < j' < i ==> LeafIds(vs[j], out[j]) !! LeafIds(vs[j'], out[j'])
        invariant ids == (set j, x | 0 <= j < |out| && x in LeafIds(vs[j], out[j]) :: x)
        invariant Spans(ids, old(atomTree.variableId), atomTree.variableId)
      {
        ghost var mid := atomTree.variableId;
        var w := WriteElement(vs[i], out, vs[..i], old(atomTree.variableId), old(atomTree.definitions));
        TupleIdsStep(vs, out, w, ids, old(atomTree.variableId), mid, atomTree.variableId);
        ids := ids + LeafIds(vs[i], w);
        out := out + [w];
      }
      r := Tuple(out);
      assert LeafIds(v, r) == ids by {
        assert r.Tuple? && |r.values| == |vs| && r.values == out;
        forall x | x in ids ensures x in LeafIds(v, r) {
          var j :| 0 <= j < |out| && x in LeafIds(vs[j], out[j]);
        }
        forall x | x in LeafIds(v, r) ensures x in ids {
          var j :| 0 <= j < |vs| && x in LeafIds(vs[j], out[j]);
        }
      }
    }

    /** `write_as_var` on a composite value: the fields in an unspecified order. */
    method WriteComposite(ghost v: ValueCollection, name: string, fields: map<string, ValueCollection>) returns (r: ValueCollection)
      requires v == Composite(name, fields)
      modifies atomTree
      ensures old(atomTree.variableId) <= atomTree.variableId
      ensures Written(v, r, atomTree.definitions, old(atomTree.variableId), atomTree.variableId)
      ensures DefsGrow(old(atomTree.definitions), atomTree.definitions, old(atomTree.variableId), atomTree.variableId)
      ensures atomTree.valueActions == old(atomTree.valueActions)
      ensures LeavesApart(v, r) && Spans(LeafIds(v, r), old(atomTree.variableId), atomTree.variableId)
      decreases v, 1
    {
      var out: map<string, ValueCollection> := map[];
      ghost var ids: set<nat> := {};
      var rest := fields.Keys;
      while rest != {}
        invariant rest <= fields.Keys && out.Keys == fields.Keys - rest
        invariant old(atomTree.variableId) <= atomTree.variableId
        invariant forall k :: k in out ==>
                    Written(fields[k], out[k], atomTree.definitions, old(atomTree.variableId), atomTree.variableId)
        invariant DefsGrow(old(atomTree.definitions), atomTree.definitions, old(atomTree.variableId), atomTree.variableId)
        invariant atomTree.valueActions == old(atomTree.valueActions)
        invariant forall k :: k in out ==> LeavesApart(fields[k], out[k])
        invariant forall k, k' :: k in out && k' in out && k != k' ==> LeafIds(fields[k], out[k]) !! LeafIds(fields[k'], out[k'])
        invariant ids == (set k, x | k in out && x in LeafIds(fields[k], out[k]) :: x)
        invariant Spans(ids, old(atomTree.variableId), atomTree.variableId)
        decreases rest
      {
        var k :| k in rest;
        ghost var mid := atomTree.variableId;
        var w := WriteField(fields[k], out, fields, old(atomTree.variableId), old(atomTree.definitions));
        FieldIdsStep(fields, out, k, w, ids, old(atomTree.variableId), mid, atomTree.variableId);
        ids := ids + LeafIds(fields[k], w);
        out := out[k := w];
        rest := rest - {k};
      }
      r := Composite(name, out);
      assert LeafIds(v, r) == ids;
    }

    /** Writes one tuple element, keeping the elements written before it valid. */
    method WriteElement(e: ValueCollection, ghost done: seq<ValueCollection>, ghost src: seq<ValueCollection>,
                        ghost lo: nat, ghost d0: map<nat, Tree>)
      returns (w: ValueCollection)
      requires |done| == |src| && lo <= atomTree.variableId
      requires forall j :: 0 <= j < |src| ==> Written(src[j], done[j], atomTree.definitions, lo, atomTree.variableId)
      requires DefsGrow(d0, atomTree.definitions, lo, atomTree.variableId)
      modifies atomTree
      ensures lo <= old(atomTree.variableId) <= atomTree.variableId
      ensures Written(e, w, atomTree.definitions, lo, atomTree.variableId)
      ensures forall j :: 0 <= j < |src| ==> Written(src[j], done[j], atomTree.definitions, lo, atomTree.variableId)
      ensures DefsGrow(d0, atomTree.definitions, lo, atomTree.variableId)
      ensures atomTree.valueActions == old(atomTree.valueActions)
      ensures LeavesApart(e, w) && Spans(LeafIds(e, w), old(atomTree.variableId), atomTree.variableId)
      decreases e, 3
    {
      ghost var d1, h1 := atomTree.definitions, atomTree.variableId;
      w := WriteAsVar(e);
      forall j | 0 <= j < |src| ensures Written(src[j], done[j], atomTree.definitions, lo, atomTree.variableId) {
        WrittenGrows(src[j], done[j], d1, atomTree.definitions, lo, lo, h1, atomTree.variableId);
      }
      WrittenGrows(e, w, atomTree.definitions, atomTree.definitions, h1, lo, atomTree.variableId, atomTree.variableId);
      DefsGrowTrans(d0, d1, atomTree.definitions, lo, h1, atomTree.variableId);
    }

    /** Writes one composite field, keeping the fields written before it valid. */
    method WriteField(e: ValueCollection, ghost done: map<string, ValueCollection>, ghost src: map<string, ValueCollection>,
                      ghost lo: nat, ghost d0: map<nat, Tree>)
      returns (w: ValueCollection)
      requires done.Keys <= src.Keys && lo <= atomTree.variableId
      requires forall k :: k in done ==> Written(src[k], done[k], atomTree.definitions, lo, atomTree.variableId)
      requires DefsGrow(d0, atomTree.definitions, lo, atomTree.variableId)
      modifies atomTree
      ensures lo <= old(atomTree.variableId) <= atomTree.variableId
      ensures Written(e, w, atomTree.definitions, lo, atomTree.variableId)
      ensures forall k :: k in done ==> Written(src[k], done[k], atomTree.definitions, lo, atomTree.variableId)
      ensures DefsGrow(d0, atomTree.definitions, lo, atomTree.variableId)
      ensures atomTree.valueActions == old(atomTree.valueActions)
      ensures LeavesApart(e, w) && Spans(LeafIds(e, w), old(atomTree.variableId), atomTree.variableId)
      decreases e, 3
    {
      ghost var d1, h1 := atomTree.definitions, atomTree.variableId;
      w := WriteAsVar(e);
      forall k | k in done ensures Written(src[k], done[k], atomTree.definitions, lo, atomTree.variableId) {
        WrittenGrows(src[k], done[k], d1, atomTree.definitions, lo, lo, h1, atomTree.variableId);
      }
      WrittenGrows(e, w, atomTree.definitions, atomTree.definitions, h1, lo, atomTree.variableId, atomTree.variableId);
      DefsGrowTrans(d0, d1, atomTree.definitions, lo, h1, atomTree.variableId);
    }

    /** `compile_sub_call` for a `super` call: the outcome of `SuperCall`, errors appended. */
    method CompileSuperCall(name: string, application: ValueCollection) returns (r: Option<ValueCollection>)
      modifies compilation
      ensures r == SuperCall(name, application).value
      ensures compilation.diagnostics == old(compilation.diagnostics) + SuperCall(name, application).errors
    {
      var outcome := SuperCall(name, application);
      compilation.AddAll(outcome.errors);
      r := outcome.value;
    }

    /** `compile_sub_call` for an atom call (`not`, `or`). */
    method CompileAtomCall(sub: Tokens.AtomSub, application: ValueCollection) returns (r: Option<ValueCollection>)
      modifies compilation
      ensures r == AtomCall(sub, application).value
      ensures compilation.diagnostics == old(compilation.diagnostics) + AtomCall(sub, application).errors
    {
      var outcome := AtomCall(sub, application);
      compilation.AddAll(outcome.errors);
      r := outcome.value;
    }
  }
}
