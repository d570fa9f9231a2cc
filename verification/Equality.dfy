/**
 * eq?, eqv? and the depth-bounded equal? against unbounded structural equality.
 */
module Equality {
  import opened Basics
  import opened Terms

  // eq?: the same tagged word.
  predicate Eq(a: Value, b: Value) {
    a == b
  }

  predicate Eqv(a: Value, b: Value) {
    a == b || (a.Str? && b.Str? && a.bytes == b.bytes)
  }

  // Section 6.1 of R5RS: pairs compare recursively, strings by content, the rest by eqv?.
  predicate StructEqual(a: Value, b: Value) {
    if a.Pair? && b.Pair? then StructEqual(a.car, b.car) && StructEqual(a.cdr, b.cdr)
    else Eqv(a, b)
  }

  // Car and cdr links both count.
  function Height(v: Value): nat {
    if v.Pair? then 1 + Max(Height(v.car), Height(v.cdr)) else 0
  }

  function Max(x: nat, y: nat): nat {
    if x < y then y else x
  }

  // What the walk answers when `budget` more nested calls are allowed; None is ERR_EQUAL_DEPTH.
  function BoundedEqual(budget: nat, a: Value, b: Value): Option<bool>
    decreases budget
  {
    if budget == 0 then None
    else if Eqv(a, b) then Some(true)
    else if a.Pair? && b.Pair? then
      match BoundedEqual(budget - 1, a.car, b.car)
      case None => None
      case Some(false) => Some(false)
      case Some(true) => BoundedEqual(budget - 1, a.cdr, b.cdr)
    else Some(false)
  }

  // How deep the walk has to go before it can answer.
  function WalkDepth(a: Value, b: Value): nat {
    if Eqv(a, b) || !a.Pair? || !b.Pair? then 0
    else 1 + Max(WalkDepth(a.car, b.car), if StructEqual(a.car, b.car) then WalkDepth(a.cdr, b.cdr) else 0)
  }

  class Comparer {
    var equalDepth: nat
    var maxEqualDepth: nat

    constructor (max: nat)
      ensures equalDepth == 0 && maxEqualDepth == max
    {
      equalDepth, maxEqualDepth := 0, max;
    }

    // ml_value_equal: the status, and the answer when the status is OK.
    method ValueEqual(a: Value, b: Value) returns (st: Status, equal: bool)
      modifies `equalDepth
      ensures equalDepth == old(equalDepth)
      ensures var budget := if equalDepth < maxEqualDepth then maxEqualDepth - equalDepth else 0;
              match BoundedEqual(budget, a, b)
              case None => st == EqualDepth
              case Some(r) => st == OK && equal == r
      decreases a
    {
      equal := false;
      if equalDepth >= maxEqualDepth {
        return EqualDepth, equal;
      }
      if Eqv(a, b) {
        return OK, true;
      }
      if a.Pair? && b.Pair? {
        equalDepth := equalDepth + 1;
        st, equal := ValueEqual(a.car, b.car);
        if st != OK {
          equalDepth := equalDepth - 1;
          return st, false;
        }
        if !equal {
          equalDepth := equalDepth - 1;
          return OK, false;
        }
        st, equal := ValueEqual(a.cdr, b.cdr);
        equalDepth := equalDepth - 1;
        return st, equal;
      }
      return OK, false;
    }
  }

  lemma {:induction false} StructEqualReflexive(a: Value)
    ensures StructEqual(a, a)
  {
    if a.Pair? {
      StructEqualReflexive(a.car);
      StructEqualReflexive(a.cdr);
    }
  }

  lemma {:induction false} EqvIsStructural(a: Value, b: Value)
    ensures Eqv(a, b) ==> StructEqual(a, b)
  {
    if a == b {
      StructEqualReflexive(a);
    }
  }

  /** The bounded walk answers iff its budget exceeds the depth it needs, and then it answers structurally. */
  lemma {:induction false} BoundedEqualIsExact(budget: nat, a: Value, b: Value)
    ensures BoundedEqual(budget, a, b) == if WalkDepth(a, b) < budget then Some(StructEqual(a, b)) else None
    decreases budget
  {
    EqvIsStructural(a, b);
    if budget > 0 && !Eqv(a, b) && a.Pair? && b.Pair? {
      BoundedEqualIsExact(budget - 1, a.car, b.car);
      BoundedEqualIsExact(budget - 1, a.cdr, b.cdr);
    }
  }

  /** Either tree being lower than the budget is enough for an answer. */
  lemma {:induction false} LowTreesAlwaysCompare(a: Value, b: Value)
    ensures WalkDepth(a, b) <= Height(a) && WalkDepth(a, b) <= Height(b)
  {
    if a.Pair? && b.Pair? {
      LowTreesAlwaysCompare(a.car, b.car);
      LowTreesAlwaysCompare(a.cdr, b.cdr);
    }
  }

  lemma {:induction false} StructEqualSymmetric(a: Value, b: Value)
    ensures StructEqual(a, b) == StructEqual(b, a)
  {
    if a.Pair? && b.Pair? {
      StructEqualSymmetric(a.car, b.car);
      StructEqualSymmetric(a.cdr, b.cdr);
    }
  }

  lemma {:induction false} WalkDepthSymmetric(a: Value, b: Value)
    ensures WalkDepth(a, b) == WalkDepth(b, a)
  {
    if a.Pair? && b.Pair? {
      WalkDepthSymmetric(a.car, b.car);
      WalkDepthSymmetric(a.cdr, b.cdr);
      StructEqualSymmetric(a.car, b.car);
    }
  }

  /** Status and answer do not depend on the order of the arguments. */
  lemma {:induction false} BoundedEqualSymmetric(budget: nat, a: Value, b: Value)
    ensures BoundedEqual(budget, a, b) == BoundedEqual(budget, b, a)
  {
    BoundedEqualIsExact(budget, a, b);
    BoundedEqualIsExact(budget, b, a);
    WalkDepthSymmetric(a, b);
    StructEqualSymmetric(a, b);
  }

  lemma {:induction false} StructEqualTransitive(a: Value, b: Value, c: Value)
    requires StructEqual(a, b) && StructEqual(b, c)
    ensures StructEqual(a, c)
  {
    if a.Pair? && b.Pair? && c.Pair? {
      StructEqualTransitive(a.car, b.car, c.car);
      StructEqualTransitive(a.cdr, b.cdr, c.cdr);
    }
  }

  /** Answers obtained under any budgets compose. */
  lemma BoundedEqualTransitive(m: nat, n: nat, k: nat, a: Value, b: Value, c: Value)
    requires BoundedEqual(m, a, b) == Some(true) && BoundedEqual(n, b, c) == Some(true)
    requires BoundedEqual(k, a, c).Some?
    ensures BoundedEqual(k, a, c) == Some(true)
  {
    BoundedEqualIsExact(m, a, b);
    BoundedEqualIsExact(n, b, c);
    BoundedEqualIsExact(k, a, c);
    StructEqualTransitive(a, b, c);
  }

  // Lists of the same atoms that have no cell in common.
  predicate Copies(a: Value, b: Value) {
    if a.Pair? && b.Pair? then a.id != b.id && !a.car.Pair? && a.car == b.car && Copies(a.cdr, b.cdr)
    else a == Nil && b == Nil
  }

  /** A list and its copy are equal, and finding out takes one nested call for each element and one for the end. */
  lemma {:induction false} CopiesCompare(budget: nat, a: Value, b: Value)
    requires Copies(a, b)
    ensures BoundedEqual(budget, a, b) == if budget > |Elements(a)| then Some(true) else None
    decreases a
  {
    if a.Pair? && budget > 0 {
      CopiesCompare(budget - 1, a.cdr, b.cdr);
    }
  }
}
