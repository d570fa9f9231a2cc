/**
 * The evaluator's values.  Pairs, strings, closures and primitives never change
 * once the reader or the evaluator has built them, so each is a tree that
 * carries its identity `id` (its address); only environment frames are mutable
 * and live in the store.
 */
module Terms {
  import opened Basics

  datatype Option<+T> = None | Some(value: T)

  datatype PrimOp =
    | Add | Sub | Mul | Div | Quotient | Remainder | Modulo
    | NumEq | NumLt | NumGt | NumLe | NumGe
    | Cons | Car | Cdr | List | Length
    | NullP | PairP | NumberP | SymbolP | StringP | ProcedureP | BooleanP
    | EqP | EqvP | EqualP | Not

  datatype Value =
    | Nil
    | True
    | False
    | Eof
    | Undef
    | Fix(n: Fixnum)
    | Sym(idx: nat)
    | Pair(id: nat, car: Value, cdr: Value)
    | Str(id: nat, bytes: seq<Byte>)
    | Closure(id: nat, env: nat, params: Value, body: Value, variadic: bool, arityMin: nat)
    | Prim(id: nat, op: PrimOp)
    | Env(frame: nat)

  // Only #f is false.
  predicate Truthy(v: Value) {
    v != False
  }

  function Bool(b: bool): Value {
    if b then True else False
  }

  // Length of a proper list; None for an improper one.
  function ListLength(v: Value): Option<nat> {
    match v
    case Nil => Some(0)
    case Pair(_, _, cdr) => (match ListLength(cdr) case Some(n) => Some(n + 1) case None => None)
    case _ => None
  }

  lemma SmallLists(v: Value)
    ensures ListLength(v) == Some(0) <==> v == Nil
    ensures ListLength(v) == Some(1) <==> v.Pair? && v.cdr == Nil
    ensures ListLength(v) == Some(2) <==> v.Pair? && v.cdr.Pair? && v.cdr.cdr == Nil
    ensures ListLength(v) == Some(3) <==> v.Pair? && v.cdr.Pair? && v.cdr.cdr.Pair? && v.cdr.cdr.cdr == Nil
    ensures ListLength(v).Some? && ListLength(v).value >= 2 <==> v.Pair? && v.cdr.Pair? && ListLength(v.cdr).Some?
  {
    if v.Pair? && v.cdr.Pair? {
      assert ListLength(v.cdr.cdr) == Some(0) <==> v.cdr.cdr == Nil;
      if v.cdr.cdr.Pair? {
        assert ListLength(v.cdr.cdr.cdr) == Some(0) <==> v.cdr.cdr.cdr == Nil;
      }
    }
  }

  predicate ProperList(v: Value) {
    ListLength(v).Some?
  }

  function Elements(v: Value): (s: seq<Value>)
    ensures ProperList(v) ==> |s| == ListLength(v).value
  {
    if v.Pair? then [v.car] + Elements(v.cdr) else []
  }

  // The loop of proper_list_length: counts cells, then looks at the end.
  method ProperListLength(v: Value) returns (proper: bool, length: nat)
    ensures proper == ProperList(v)
    ensures proper ==> length == ListLength(v).value
  {
    var cur := v;
    length := 0;
    while cur.Pair?
      invariant ProperList(cur) == ProperList(v)
      invariant ProperList(v) ==> ListLength(v).value == length + ListLength(cur).value
      decreases cur
    {
      length := length + 1;
      cur := cur.cdr;
    }
    proper := cur == Nil;
  }
}
