/**
 * Node colours of the 3-colouring graph and their boolean operations
 * (`Label` in src/atom_tree_to_graph.rs).  `Null` marks a colour that is not
 * known at compile time; `Neutral` is the third colour.  The operations panic
 * on `Neutral`; `None` stands for that panic.
 */
module Labels {
  import opened Wrappers
  import Tokens

  datatype Label = True | False | Neutral | Null

  /** `Label::ALL_LABELS`, in its declared order. */
  const AllLabels: seq<Label> := [True, False, Neutral]

  predicate IsBool(l: Label) { l == True || l == False }

  function FromBool(b: bool): (l: Label)
    ensures IsBool(l) && (l == True <==> b)
  {
    if b then True else False
  }

  /** `From<AtomType> for Label`. */
  function FromAtom(a: Tokens.AtomType): (l: Label)
    ensures l == FromBool(Tokens.ToBool(a))
  {
    match a
    case True => True
    case False => False
  }

  function Or(a: Label, b: Label): (r: Option<Label>)
    ensures r.None? <==> (a != Null && b != Null && (a == Neutral || b == Neutral))
    ensures r.Some? && (a == Null || b == Null) ==> r.value == Null
    ensures IsBool(a) && IsBool(b) ==> r == Some(FromBool(a == True || b == True))
  {
    if a == Null || b == Null then Some(Null)
    else match (a, b)
      case (True, True) => Some(True)
      case (False, True) => Some(True)
      case (True, False) => Some(True)
      case (False, False) => Some(False)
      case _ => None
  }

  function And(a: Label, b: Label): (r: Option<Label>)
    ensures r.None? <==> (a != Null && b != Null && (a == Neutral || b == Neutral))
    ensures r.Some? && (a == Null || b == Null) ==> r.value == Null
    ensures IsBool(a) && IsBool(b) ==> r == Some(FromBool(a == True && b == True))
  {
    if a == Null || b == Null then Some(Null)
    else match (a, b)
      case (True, True) => Some(True)
      case (False, True) => Some(False)
      case (True, False) => Some(False)
      case (False, False) => Some(False)
      case _ => None
  }

  function Not(a: Label): (r: Option<Label>)
    ensures r.None? <==> a == Neutral
    ensures a == Null ==> r == Some(Null)
    ensures IsBool(a) ==> r == Some(FromBool(a == False))
  {
    match a
    case True => Some(False)
    case False => Some(True)
    case Null => Some(Null)
    case Neutral => None
  }

  /** De Morgan: on every non-`Neutral` label, `and` is `not(or(not a, not b))`. */
  lemma AndIsDeMorgan(a: Label, b: Label)
    requires a != Neutral && b != Neutral
    ensures Not(a).Some? && Not(b).Some?
    ensures Or(Not(a).value, Not(b).value).Some?
    ensures Not(Or(Not(a).value, Not(b).value).value) == And(a, b)
  {
  }
}
