/** The values a node of the formula tree can hold (src/main.rs:30-39), the
    hand-written ordering on them (src/main.rs:56-88) and `has_left`
    (src/main.rs:41-47). */
module Values {

  /** A node value: one of the six operators, or a variable named by one
      character. `PartialEq` is derived, so two values are `==` exactly when
      they are the same constructor with the same character. */
  datatype NodeValue = Not | And | Or | Xor | Impl | Eq | Var(symbol: char)

  /** `std::cmp::Ordering`. */
  datatype Ordering = Less | Equal | Greater

  /** `Ordering::reverse`: what `b.cmp(a)` must be when `a.cmp(b)` is `o`. */
  function Flip(o: Ordering): Ordering {
    match o
    case Less => Greater
    case Equal => Equal
    case Greater => Less
  }

  /** Comparison of two naturals, as `Ord for usize` does it. */
  function CompareNat(x: nat, y: nat): Ordering {
    if x < y then Less else if x == y then Equal else Greater
  }

  /** The tier of a value in the precedence table of the comment at
      src/main.rs:4-8: variables below everything (tier 0), then the rows of
      the table in order, `!` (tier 1), `&`/`V`/`^` (tier 2) and `->`/`<->`
      (tier 3). This is the reference against which `Cmp` is judged. */
  function Tier(v: NodeValue): nat {
    match v
    case Var(_) => 0
    case Not => 1
    case And | Or | Xor => 2
    case Impl | Eq => 3
  }

  /** The number of operands a value takes: none for a variable, one for
      negation, two for the binary connectives. */
  function Arity(v: NodeValue): nat {
    match v
    case Var(_) => 0
    case Not => 1
    case _ => 2
  }

  predicate IsBinary(v: NodeValue) {
    Arity(v) == 2
  }

  /** `NodeValue::cmp`, row by row as written. `Equal` is returned exactly for
      values of the same tier, and away from `Not` the ordering is the order
      of the tiers. The `Not` row and the `Not` column disagree with each
      other; see `NotBreaksAntisymmetry`. */
  function Cmp(a: NodeValue, b: NodeValue): (r: Ordering)
    ensures r == Equal <==> Tier(a) == Tier(b)
    ensures a != Not && b != Not ==> r == CompareNat(Tier(a), Tier(b))
  {
    match a
    case Var(_) =>
      (match b
       case Var(_) => Equal
       case _ => Less)
    case Not =>
      (match b
       case Var(_) => Less
       case Not => Equal
       case _ => Greater)
    case And | Or | Xor =>
      (match b
       case Var(_) | Not => Greater
       case And | Or | Xor => Equal
       case Impl | Eq => Less)
    case Impl | Eq =>
      (match b
       case Var(_) | Not => Greater
       case And | Or | Xor => Greater
       case Impl | Eq => Equal)
  }

  /** `a < b` as Rust evaluates it through `partial_cmp`
      (src/main.rs:50-54): away from `Not`, `a` is in a strictly lower tier
      than `b`; between `Not` and any other value it holds exactly when the
      other value is a variable, in either order; it never holds between
      values of one tier. */
  predicate Below(a: NodeValue, b: NodeValue)
    ensures a != Not && b != Not ==> (Below(a, b) <==> Tier(a) < Tier(b))
    ensures (a == Not) != (b == Not) ==> (Below(a, b) <==> a.Var? || b.Var?)
    ensures Tier(a) == Tier(b) ==> !Below(a, b)
  {
    Cmp(a, b) == Less
  }

  /** Away from `Not`, `cmp` is antisymmetric: swapping the arguments
      reverses the answer. */
  lemma CmpAntisymmetricWithoutNot(a: NodeValue, b: NodeValue)
    requires a != Not && b != Not
    ensures Cmp(a, b) == Flip(Cmp(b, a))
  {
  }

  /** Away from `Not`, `cmp` is transitive for each of `Less`, `Equal` and
      `Greater`. */
  lemma CmpTransitiveWithoutNot(a: NodeValue, b: NodeValue, c: NodeValue, o: Ordering)
    requires a != Not && b != Not && c != Not
    requires Cmp(a, b) == o && Cmp(b, c) == o
    ensures Cmp(a, c) == o
  {
  }

  /** The `Not` row contradicts the other rows: `Not` against a variable is
      `Less` in both directions, and `Not` against a binary operator is
      `Greater` in both directions. */
  lemma NotBreaksAntisymmetry(c: char, op: NodeValue)
    requires IsBinary(op)
    ensures Cmp(Var(c), Not) == Less && Cmp(Not, Var(c)) == Less
    ensures Cmp(Not, op) == Greater && Cmp(op, Not) == Greater
  {
  }

  /** Hence `cmp` is not the total order `Ord` promises: antisymmetry and
      transitivity both fail once `Not` is involved. */
  lemma CmpIsNotAnOrder()
    ensures !(forall a, b :: Cmp(a, b) == Flip(Cmp(b, a)))
    ensures !(forall a, b, c :: Cmp(a, b) == Less && Cmp(b, c) == Less ==> Cmp(a, c) == Less)
  {
    var p := Var('p');
    assert Cmp(p, Not) != Flip(Cmp(Not, p));
    assert Cmp(p, Not) == Less && Cmp(Not, p) == Less && Cmp(p, p) != Less;
  }

  /** `Ord` must agree with the derived `PartialEq`, but `cmp` answers
      `Equal` for distinct values of one tier: any two variables, and any two
      of `&`, `V`, `^`. */
  lemma CmpEqualOnDistinctValues(c: char, d: char)
    ensures Cmp(Var(c), Var(d)) == Equal
    ensures Cmp(And, Or) == Equal && Cmp(Or, Xor) == Equal && Cmp(Impl, Eq) == Equal
    ensures exists a, b :: a != b && Cmp(a, b) == Equal
  {
    assert Var('p') != Var('q') && Cmp(Var('p'), Var('q')) == Equal;
  }

  /** `NodeValue::has_left`: true exactly for the values that take fewer than
      two operands, which are the two tightest tiers. */
  function HasLeft(v: NodeValue): (b: bool)
    ensures b <==> Arity(v) < 2
    ensures b <==> Tier(v) < Tier(And)
  {
    match v
    case Not | Var(_) => true
    case _ => false
  }
}
