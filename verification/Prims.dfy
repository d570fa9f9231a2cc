/**
 * The store of the evaluator and what each primitive procedure computes on it.
 */
module Prims {
  import opened Basics
  import opened Terms
  import opened Frames
  import Arith
  import Equality

  // Frames, the next unused object identity, and the configured equal? limit.
  datatype Store = Store(frames: seq<Frame>, nextId: nat, maxEqual: nat)

  // The result of an evaluation.  Errors keep the store: effects made before them stay.
  datatype Outcome<+T> =
    | Done(value: T, store: Store)
    | Fail(st: Error, store: Store)
    | OutOfFuel
  {
    predicate IsFailure() {
      !Done?
    }

    function PropagateFailure<U>(): Outcome<U>
      requires IsFailure()
    {
      if Fail? then Fail(st, store) else OutOfFuel
    }

    function Extract(): (T, Store)
      requires Done?
    {
      (value, store)
    }
  }

  function MinArgs(op: PrimOp): nat {
    match op
    case Add | Mul | List => 0
    case Sub | Div | Car | Cdr | Length | NullP | PairP | NumberP | SymbolP | StringP | ProcedureP | BooleanP | Not => 1
    case _ => 2
  }

  // None: variadic.
  function MaxArgs(op: PrimOp): Option<nat> {
    match op
    case Add | Sub | Mul | Div | NumEq | NumLt | NumGt | NumLe | NumGe | List => None
    case Car | Cdr | Length | NullP | PairP | NumberP | SymbolP | StringP | ProcedureP | BooleanP | Not => Some(1)
    case _ => Some(2)
  }

  predicate ArityOk(op: PrimOp, argc: nat) {
    MinArgs(op) <= argc && (MaxArgs(op).Some? ==> argc <= MaxArgs(op).value)
  }

  function Lift(r: Arith.PrimResult, s: Store): Outcome<Value> {
    match r
    case Val(v) => Done(v, s)
    case Err(st) => Fail(st, s)
  }

  // A fresh pair.
  function NewPair(car: Value, cdr: Value, s: Store): Outcome<Value> {
    Done(Pair(s.nextId, car, cdr), s.(nextId := s.nextId + 1))
  }

  // A fresh list of `argv`, allocated from its last cell to its first.
  function NewList(argv: seq<Value>, s: Store): (r: Outcome<Value>)
    ensures r.Done?
  {
    if argv == [] then Done(Nil, s)
    else
      var rest := NewList(argv[1..], s);
      NewPair(argv[0], rest.value, rest.store)
  }

  function LengthSpec(v: Value): Arith.PrimResult {
    match ListLength(v)
    case None => Arith.Err(TypeError)
    case Some(n) => if n <= FIX_MAX then Arith.Val(Fix(n)) else Arith.Err(Overflow)
  }

  function CmpOpOf(op: PrimOp): Arith.CmpOp {
    match op
    case NumEq => Arith.CmpEq
    case NumLt => Arith.CmpLt
    case NumGt => Arith.CmpGt
    case NumLe => Arith.CmpLe
    case _ => Arith.CmpGe
  }

  function EqualSpec(max: nat, a: Value, b: Value): Arith.PrimResult {
    match Equality.BoundedEqual(max, a, b)
    case None => Arith.Err(EqualDepth)
    case Some(r) => Arith.Val(Bool(r))
  }

  // The primitives that only look at their arguments.
  function PurePrim(op: PrimOp, argv: seq<Value>, max: nat): Arith.PrimResult
    requires ArityOk(op, |argv|) && op != Cons && op != List
  {
    match op
    case Add => Arith.AddSpec(argv)
    case Sub => Arith.SubSpec(argv)
    case Mul => Arith.MulSpec(argv)
    case Div => Arith.DivSpec(argv)
    case Quotient => Arith.QuotientSpec(argv[0], argv[1])
    case Remainder =>
      if !argv[0].Fix? || !argv[1].Fix? then Arith.Err(TypeError)
      else if argv[1].n == 0 then Arith.Err(DivZero)
      else Arith.Val(Fix(Arith.RemainderSpec(argv[0].n, argv[1].n)))
    case Modulo =>
      if !argv[0].Fix? || !argv[1].Fix? then Arith.Err(TypeError)
      else if argv[1].n == 0 then Arith.Err(DivZero)
      else Arith.Val(Fix(Arith.ModuloSpec(argv[0].n, argv[1].n)))
    case NumEq | NumLt | NumGt | NumLe | NumGe => Arith.CmpSpec(CmpOpOf(op), argv)
    case Car => if argv[0].Pair? then Arith.Val(argv[0].car) else Arith.Err(TypeError)
    case Cdr => if argv[0].Pair? then Arith.Val(argv[0].cdr) else Arith.Err(TypeError)
    case Length => LengthSpec(argv[0])
    case NullP => Arith.Val(Bool(argv[0] == Nil))
    case PairP => Arith.Val(Bool(argv[0].Pair?))
    case NumberP => Arith.Val(Bool(argv[0].Fix?))
    case SymbolP => Arith.Val(Bool(argv[0].Sym?))
    case StringP => Arith.Val(Bool(argv[0].Str?))
    case ProcedureP => Arith.Val(Bool(argv[0].Closure? || argv[0].Prim?))
    case BooleanP => Arith.Val(Bool(argv[0] == True || argv[0] == False))
    case EqP => Arith.Val(Bool(Equality.Eq(argv[0], argv[1])))
    case EqvP => Arith.Val(Bool(Equality.Eqv(argv[0], argv[1])))
    case EqualP => EqualSpec(max, argv[0], argv[1])
    case Not => Arith.Val(Bool(!Truthy(argv[0])))
  }

  function ApplyPrim(op: PrimOp, argv: seq<Value>, s: Store): Outcome<Value>
    requires ArityOk(op, |argv|)
  {
    if op == Cons then NewPair(argv[0], argv[1], s)
    else if op == List then NewList(argv, s)
    else Lift(PurePrim(op, argv, s.maxEqual), s)
  }
}
