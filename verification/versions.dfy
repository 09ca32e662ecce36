/**
 * Version constraints (src/parse/types.rs:107-120, 465-492). The Debian
 * version comparison itself comes from the `deb_version` crate; it is a
 * parameter here, a three-way comparator `compare(candidate, reference)`.
 */
module Versions {

  /** `std::cmp::Ordering`. */
  datatype Ordering = Less | Equal | Greater

  datatype ConstraintOperator = Ge | Eq | Le | Gt | Lt

  datatype Constraint = Constraint(version: string, operator: ConstraintOperator)

  type Comparator = (string, string) -> Ordering

  /** The ordering as the sign of `candidate - reference`. */
  function Sign(o: Ordering): int {
    match o
    case Less => -1
    case Equal => 0
    case Greater => 1
  }

  function Reverse(o: Ordering): Ordering {
    match o
    case Less => Greater
    case Equal => Equal
    case Greater => Less
  }

  /** What each operator means on numbers: `x OP y`. */
  predicate Relates(op: ConstraintOperator, x: int, y: int) {
    match op
    case Ge => x >= y
    case Eq => x == y
    case Le => x <= y
    case Gt => x > y
    case Lt => x < y
  }

  /**
   * `ConstraintOperator::satisfied_by`: the operator holds of an ordering
   * exactly when it holds between the ordering's sign and zero, so that
   * `compare(v, w) OP Equal` reads as `v OP w`.
   */
  function OperatorSatisfiedBy(op: ConstraintOperator, ordering: Ordering): (b: bool)
    ensures b <==> Relates(op, Sign(ordering), 0)
  {
    match op
    case Eq => Equal == ordering
    case Ge => Less != ordering
    case Le => Greater != ordering
    case Lt => Less == ordering
    case Gt => Greater == ordering
  }

  /**
   * On any ordering, exactly one of Lt, Eq and Gt holds; Ge is Gt or Eq and
   * the complement of Lt; Le is Lt or Eq and the complement of Gt.
   */
  lemma OperatorAlgebra(o: Ordering)
    ensures OperatorSatisfiedBy(Eq, o) <==> o == Equal
    ensures OperatorSatisfiedBy(Lt, o) <==> o == Less
    ensures OperatorSatisfiedBy(Gt, o) <==> o == Greater
    ensures OperatorSatisfiedBy(Lt, o) || OperatorSatisfiedBy(Eq, o) || OperatorSatisfiedBy(Gt, o)
    ensures !(OperatorSatisfiedBy(Lt, o) && OperatorSatisfiedBy(Eq, o))
    ensures !(OperatorSatisfiedBy(Lt, o) && OperatorSatisfiedBy(Gt, o))
    ensures !(OperatorSatisfiedBy(Eq, o) && OperatorSatisfiedBy(Gt, o))
    ensures OperatorSatisfiedBy(Ge, o) <==> OperatorSatisfiedBy(Gt, o) || OperatorSatisfiedBy(Eq, o)
    ensures OperatorSatisfiedBy(Le, o) <==> OperatorSatisfiedBy(Lt, o) || OperatorSatisfiedBy(Eq, o)
    ensures OperatorSatisfiedBy(Ge, o) <==> !OperatorSatisfiedBy(Lt, o)
    ensures OperatorSatisfiedBy(Le, o) <==> !OperatorSatisfiedBy(Gt, o)
  {
  }

  /** The operator with its arguments swapped: `x OP y` iff `y Flip(OP) x`. */
  function Flip(op: ConstraintOperator): ConstraintOperator {
    match op
    case Ge => Le
    case Eq => Eq
    case Le => Ge
    case Gt => Lt
    case Lt => Gt
  }

  /** What a sound Debian version comparator promises: a total preorder, read three ways. */
  ghost predicate IsComparator(compare: Comparator) {
    && (forall a :: compare(a, a) == Equal)
    && (forall a, b :: compare(b, a) == Reverse(compare(a, b)))
    && (forall a, b, c :: compare(a, b) != Greater && compare(b, c) != Greater ==> compare(a, c) != Greater)
  }

  /**
   * `Constraint::satisfied_by`: a candidate version satisfies the constraint
   * exactly when `candidate OP version` holds under the comparator.
   */
  function SatisfiedBy(c: Constraint, compare: Comparator, candidate: string): (b: bool)
    ensures b <==> Relates(c.operator, Sign(compare(candidate, c.version)), 0)
  {
    OperatorSatisfiedBy(c.operator, compare(candidate, c.version))
  }

  /**
   * Under a sound comparator, a version satisfies Ge/Le/Eq against itself
   * and never Gt/Lt against itself.
   */
  lemma SelfSatisfaction(compare: Comparator, v: string, op: ConstraintOperator)
    requires IsComparator(compare)
    ensures SatisfiedBy(Constraint(v, op), compare, v) <==> op in {Ge, Le, Eq}
  {
    assert compare(v, v) == Equal;
  }

  /** Swapping candidate and constraint version flips the operator. */
  lemma SwapSides(compare: Comparator, v: string, w: string, op: ConstraintOperator)
    requires IsComparator(compare)
    ensures SatisfiedBy(Constraint(w, op), compare, v) <==> SatisfiedBy(Constraint(v, Flip(op)), compare, w)
  {
    assert compare(w, v) == Reverse(compare(v, w));
  }

  /** A lower bound (Ge) keeps holding as the candidate grows. */
  lemma LowerBoundUpwardClosed(compare: Comparator, c: Constraint, v: string, w: string)
    requires IsComparator(compare)
    requires c.operator == Ge
    requires SatisfiedBy(c, compare, v)
    requires compare(v, w) != Greater
    ensures SatisfiedBy(c, compare, w)
  {
    assert compare(c.version, v) != Greater by {
      assert compare(c.version, v) == Reverse(compare(v, c.version));
    }
    assert compare(c.version, w) != Greater;
    assert compare(w, c.version) == Reverse(compare(c.version, w));
  }

  /**
   * The test of src/parse/types.rs:589-593: with `Gt "1.0"`, "2.0" is accepted
   * and "1.0" rejected, given that the comparator ranks "2.0" above "1.0".
   */
  lemma GreaterThanExample(compare: Comparator)
    requires IsComparator(compare)
    requires compare("2.0", "1.0") == Greater
    ensures SatisfiedBy(Constraint("1.0", Gt), compare, "2.0")
    ensures !SatisfiedBy(Constraint("1.0", Gt), compare, "1.0")
  {
    assert compare("1.0", "1.0") == Equal;
  }
}
