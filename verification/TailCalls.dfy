/**
 * Proper tail recursion (section 3.5 of R5RS) on the program
 *   (define (loop n) (if (= n 0) 'done (loop (- n 1))))
 *   (loop k)
 * whose call needs the same evaluation depth for every k.
 */
module TailCalls {
  import opened Basics
  import opened Terms
  import opened Frames
  import opened Prims
  import opened Semantics
  import opened Derived
  import Arith

  // The symbols the program uses besides the keywords.
  datatype Names = Names(loop: nat, n: nat, eq: nat, minus: nat, done: nat) {
    predicate Distinct() {
      && COND < loop && COND < eq && COND < minus
      && n != loop && n != eq && n != minus
      && loop != eq && loop != minus
    }
  }

  // ------------------------------------------------------------ the program, in any cells

  // (name a)
  predicate IsCall(f: Value, name: nat, a: Value) {
    f.Pair? && f.car == Sym(name) && IsList1(f.cdr, a)
  }

  // (= n 0)
  predicate IsTest(f: Value, x: Names) {
    IsForm2(f, x.eq, Sym(x.n), Fix(0))
  }

  // (loop (- n 1))
  predicate IsAgain(f: Value, x: Names) {
    f.Pair? && f.cdr.Pair? && IsCall(f, x.loop, f.cdr.car) && IsForm2(f.cdr.car, x.minus, Sym(x.n), Fix(1))
  }

  // (if (= n 0) 'done (loop (- n 1)))
  predicate IsBodyForm(f: Value, x: Names) {
    && f.Pair? && f.cdr.Pair? && f.cdr.cdr.Pair? && f.cdr.cdr.cdr.Pair?
    && IsForm3(f, IF, f.cdr.car, f.cdr.cdr.car, f.cdr.cdr.cdr.car)
    && IsTest(f.cdr.car, x)
    && IsCall(f.cdr.cdr.car, QUOTE, Sym(x.done))
    && IsAgain(f.cdr.cdr.cdr.car, x)
  }

  // (define (loop n) (if (= n 0) 'done (loop (- n 1))))
  predicate IsDefinition(f: Value, x: Names) {
    && f.Pair? && f.car == Sym(DEFINE) && f.cdr.Pair?
    && IsCall(f.cdr.car, x.loop, Sym(x.n))
    && f.cdr.cdr.Pair? && f.cdr.cdr.cdr == Nil && IsBodyForm(f.cdr.cdr.car, x)
  }

  // ------------------------------------------------------------ states

  ghost predicate IsPrim(v: Option<Value>, op: PrimOp) {
    v.Some? && v.value.Prim? && v.value.op == op
  }

  ghost predicate IsLoop(v: Option<Value>, x: Names, top: nat) {
    && v.Some? && v.value.Closure? && v.value.env == top
    && IsList1(v.value.params, Sym(x.n))
    && v.value.body.Pair? && v.value.body.cdr == Nil && IsBodyForm(v.value.body.car, x)
    && !v.value.variadic && v.value.arityMin == 1
  }

  // An environment `top` in which `=` and `-` are the primitives.
  ghost predicate HasPrims(x: Names, top: nat, s: Store) {
    && top < |s.frames|
    && IsPrim(Lookup(s.frames, top, x.eq), NumEq)
    && IsPrim(Lookup(s.frames, top, x.minus), Sub)
  }

  // And in which the loop is defined.
  ghost predicate Ready(x: Names, top: nat, s: Store) {
    HasPrims(x, top, s) && IsLoop(Lookup(s.frames, top, x.loop), x, top)
  }

  // The frame of one call of the loop.
  ghost predicate Counting(x: Names, top: nat, e: nat, k: Fixnum, s: Store) {
    && Ready(x, top, s) && top < e < |s.frames|
    && s.frames[e].parent == Some(top)
    && s.frames[e].names == [x.n] && s.frames[e].values == [Fix(k)]
  }

  // Any name but the counter is looked up in `top`.
  lemma PassesThrough(f: Frame, x: Names, top: nat, e: nat, name: nat, s: Store)
    requires top < e < |s.frames| && s.frames[e] == f && f.parent == Some(top) && f.names == [x.n] && name != x.n
    ensures Lookup(s.frames, e, name) == Lookup(s.frames, top, name)
  {
    assert [x.n][1..] == [];
    assert IndexOf([x.n], name) == None;
  }

  lemma CountingLookup(x: Names, top: nat, e: nat, k: Fixnum, s: Store)
    requires x.Distinct() && Counting(x, top, e, k, s)
    ensures Lookup(s.frames, e, x.n) == Some(Fix(k))
    ensures IsPrim(Lookup(s.frames, e, x.eq), NumEq)
    ensures IsPrim(Lookup(s.frames, e, x.minus), Sub)
    ensures IsLoop(Lookup(s.frames, e, x.loop), x, top)
    ensures Ready(x, top, s)
  {
    assert IndexOf([x.n], x.n) == Some(0);
    PassesThrough(s.frames[e], x, top, e, x.eq, s);
    PassesThrough(s.frames[e], x, top, e, x.minus, s);
    PassesThrough(s.frames[e], x, top, e, x.loop, s);
  }

  // A call of a two-argument primitive on arguments that evaluate without effect.
  lemma RunPrimCall(n: nat, l: Limit, f: Value, name: nat, op: PrimOp, a: Value, b: Value, va: Value, vb: Value,
                    env: nat, s: Store)
    requires n >= 1 && l != Finite(0) && COND < name
    requires IsForm2(f, name, a, b) && IsPrim(Lookup(s.frames, env, name), op)
    requires Eval(n, l, a, env, s) == Done(va, s) && Eval(n, l, b, env, s) == Done(vb, s)
    requires ArityOk(op, 2)
    ensures Run(n, l, f, env, s) == ApplyPrim(op, [va, vb], s)
  {
    var p := Lookup(s.frames, env, name).value;
    var args := f.cdr;
    EvalName(n, l, name, p, env, s);
    SmallLists(args);
    ArgsOfTwo(n, l, args, a, b, va, vb, env, s);
    assert Call(n, l, Sym(name), args, env, s) == CallWith(n, l, p, args, env, s) == Apply(n, l, p, [va, vb], s);
  }

  lemma ArgsOfOne(n: nat, l: Limit, args: Value, a: Value, va: Value, env: nat, s: Store)
    requires IsList1(args, a) && Eval(n, l, a, env, s) == Done(va, s)
    ensures Args(n, l, args, env, s) == ArgList(n, l, args, env, s) == Done([va], s)
  {
    SmallLists(args);
    assert ArgList(n, l, Nil, env, s) == Done([], s);
    assert ArgList(n, l, args, env, s) == ArgRest(n, l, va, Nil, env, s);
    assert [va] + [] == [va];
  }

  lemma ArgsOfTwo(n: nat, l: Limit, args: Value, a: Value, b: Value, va: Value, vb: Value, env: nat, s: Store)
    requires IsList2(args, a, b)
    requires Eval(n, l, a, env, s) == Done(va, s) && Eval(n, l, b, env, s) == Done(vb, s)
    ensures Args(n, l, args, env, s) == Done([va, vb], s)
  {
    SmallLists(args);
    ArgsOfOne(n, l, args.cdr, b, vb, env, s);
    assert ArgList(n, l, args, env, s) == ArgRest(n, l, va, args.cdr, env, s);
    assert [va] + [vb] == [va, vb];
  }

  // Numbers and bound names evaluate without effect, and at any depth that is left.
  lemma EvalNumber(n: nat, l: Limit, k: Fixnum, env: nat, s: Store)
    requires n >= 1 && l != Finite(0)
    ensures Eval(n, l, Fix(k), env, s) == Done(Fix(k), s)
  {
    assert Run(n - 1, Deeper(l), Fix(k), env, s) == Done(Fix(k), s);
  }

  lemma EvalName(n: nat, l: Limit, name: nat, v: Value, env: nat, s: Store)
    requires n >= 1 && l != Finite(0) && Lookup(s.frames, env, name) == Some(v)
    ensures Eval(n, l, Sym(name), env, s) == Done(v, s)
  {
    assert Run(n - 1, Deeper(l), Sym(name), env, s) == Done(v, s);
  }

  // (= n 0) at depth one.
  lemma RunTest(x: Names, top: nat, f: Value, e: nat, k: Fixnum, n: nat, s: Store)
    requires x.Distinct() && Counting(x, top, e, k, s) && IsTest(f, x) && n >= 1
    ensures Run(n, Finite(1), f, e, s) == Done(Bool(k == 0), s)
  {
    hide Run, Eval, Counting, Ready, IsLoop;
    CountingLookup(x, top, e, k, s);
    EvalName(n, Finite(1), x.n, Fix(k), e, s);
    EvalNumber(n, Finite(1), 0, e, s);
    RunPrimCall(n, Finite(1), f, x.eq, NumEq, Sym(x.n), Fix(0), Fix(k), Fix(0), e, s);
    var argv := [Fix(k), Fix(0)];
    assert argv[1..] == [Fix(0)] && argv[1..][1..] == [];
    assert Arith.Chain(Arith.CmpEq, k, argv[1..]) == Arith.Val(Bool(k == 0));
  }

  // (- n 1) at depth one.
  lemma RunDecrement(x: Names, top: nat, f: Value, e: nat, k: Fixnum, n: nat, s: Store)
    requires x.Distinct() && Counting(x, top, e, k, s) && IsForm2(f, x.minus, Sym(x.n), Fix(1)) && n >= 1 && k > 0
    ensures Run(n, Finite(1), f, e, s) == Done(Fix(k - 1), s)
  {
    hide Run, Eval, Counting, Ready, IsLoop;
    CountingLookup(x, top, e, k, s);
    EvalName(n, Finite(1), x.n, Fix(k), e, s);
    EvalNumber(n, Finite(1), 1, e, s);
    RunPrimCall(n, Finite(1), f, x.minus, Sub, Sym(x.n), Fix(1), Fix(k), Fix(1), e, s);
    var argv := [Fix(k), Fix(1)];
    assert argv[1..] == [Fix(1)] && argv[1..][1..] == [];
    assert Arith.Fold(Arith.Minus, k, argv[1..]) == Arith.Val(Fix(k - 1));
  }

  // Entering the loop with argument k.
  ghost function Entered(x: Names, top: nat, k: Fixnum, s: Store): Store {
    s.(frames := s.frames + [FrameArrays(Some(top), [x.n], [Fix(k)], 8)])
  }

  lemma EnterLoop(x: Names, top: nat, loop: Value, k: Fixnum, n: nat, l: Limit, s: Store)
    requires x.Distinct() && Ready(x, top, s) && IsLoop(Some(loop), x, top) && n >= 1
    ensures Apply(n, l, loop, [Fix(k)], s) == Run(n - 1, l, loop.body.car, |s.frames|, Entered(x, top, k, s))
  {
    var inner, s1 := |s.frames|, Entered(x, top, k, s);
    BindCounter(x, top, loop, k, s);
    SmallLists(loop.body);
    assert Sequence(n, l, loop.body, inner, s1) == Forms(n, l, loop.body, inner, s1);
    assert Forms(n, l, loop.body, inner, s1) == Tail(n, l, loop.body.car, inner, s1);
    assert Apply(n, l, loop, [Fix(k)], s) == Sequence(n, l, loop.body, inner, s1);
  }

  lemma BindCounter(x: Names, top: nat, loop: Value, k: Fixnum, s: Store)
    requires IsLoop(Some(loop), x, top)
    ensures BindClosure(loop, [Fix(k)], s) == Done(|s.frames|, Entered(x, top, k, s))
  {
    var inner, s0, s1 := |s.frames|, NewFrame(top, s), Entered(x, top, k, s);
    assert [Fix(k)][..1] == [Fix(k)] && [Fix(k)][1..] == [];
    assert DefineIn(EmptyFrame(Some(top)), x.n, Fix(k)) == s1.frames[inner];
    assert s0.frames[inner := s1.frames[inner]] == s1.frames;
    assert DefineVar(inner, x.n, Fix(k), s0) == Done(Undef, s1);
    assert Positional(Nil, [], inner, s1) == Done(Nil, s1);
    assert Positional(loop.params, [Fix(k)], inner, s0) == Done(Nil, s1);
  }

  // The new frame hides nothing of `top`.
  lemma EnteredCounts(x: Names, top: nat, k: Fixnum, s: Store)
    requires Ready(x, top, s)
    ensures Counting(x, top, |s.frames|, k, Entered(x, top, k, s))
  {
    hide IsLoop;
    var s1 := Entered(x, top, k, s);
    forall name ensures Lookup(s1.frames, top, name) == Lookup(s.frames, top, name) {
      HolderAppend(s.frames, s1.frames[|s.frames|], top, name);
    }
  }

  lemma RunLoopCall(x: Names, top: nat, f: Value, arg: Value, e: nat, k: Fixnum, n: nat, l: Limit, s: Store)
    requires x.Distinct() && Ready(x, top, s) && IsLoop(Lookup(s.frames, e, x.loop), x, top) && IsCall(f, x.loop, arg)
    requires n >= 1 && l != Finite(0) && Eval(n, l, arg, e, s) == Done(Fix(k), s)
    ensures var body := Lookup(s.frames, e, x.loop).value.body.car;
      Run(n, l, f, e, s) == Run(n - 1, l, body, |s.frames|, Entered(x, top, k, s))
  {
    var loop := Lookup(s.frames, e, x.loop).value;
    EvalName(n, l, x.loop, loop, e, s);
    ArgsOfOne(n, l, f.cdr, arg, Fix(k), e, s);
    assert Call(n, l, Sym(x.loop), f.cdr, e, s) == CallWith(n, l, loop, f.cdr, e, s);
    EnterLoop(x, top, loop, k, n, l, s);
  }

  // ------------------------------------------------------------ running the body

  // The test decides which branch the body continues with, at the same depth.
  lemma RunBody(x: Names, top: nat, f: Value, e: nat, k: Fixnum, n: nat, s: Store)
    requires x.Distinct() && Counting(x, top, e, k, s) && IsBodyForm(f, x) && n >= 2
    ensures var branch := if k == 0 then f.cdr.cdr.car else f.cdr.cdr.cdr.car;
      Run(n, Finite(2), f, e, s) == Run(n - 1, Finite(2), branch, e, s)
  {
    var test := f.cdr.car;
    RunIf(n, Finite(2), f, test, f.cdr.cdr.car, f.cdr.cdr.cdr.car, e, s);
    RunTest(x, top, test, e, k, n - 1, s);
    assert Eval(n, Finite(2), test, e, s) == Done(Bool(k == 0), s);
  }

  // The tail call re-enters a body with the count decremented, at the same depth.
  lemma RunAgain(x: Names, top: nat, f: Value, e: nat, k: Fixnum, n: nat, s: Store) returns (body: Value)
    requires x.Distinct() && Counting(x, top, e, k, s) && IsAgain(f, x) && k > 0 && n >= 2
    ensures IsBodyForm(body, x)
    ensures Run(n, Finite(2), f, e, s) == Run(n - 1, Finite(2), body, |s.frames|, Entered(x, top, k - 1, s))
    ensures Counting(x, top, |s.frames|, k - 1, Entered(x, top, k - 1, s))
  {
    hide Run, Counting;
    var decrement := f.cdr.car;
    CountingLookup(x, top, e, k, s);
    RunDecrement(x, top, decrement, e, k, n - 1, s);
    assert Eval(n, Finite(2), decrement, e, s) == Done(Fix(k - 1), s);
    RunLoopCall(x, top, f, decrement, e, k - 1, n, Finite(2), s);
    EnteredCounts(x, top, k - 1, s);
    body := Lookup(s.frames, e, x.loop).value.body.car;
  }

  lemma RunFinish(x: Names, f: Value, e: nat, n: nat, l: Limit, s: Store)
    requires IsCall(f, QUOTE, Sym(x.done))
    ensures Run(n, l, f, e, s) == Done(Sym(x.done), s)
  {
    RunForm(n, l, f, QUOTE, e, s);
  }

  // One body, from count k down to the end, inside a depth budget that never shrinks.
  lemma {:induction false} BodyFinishes(x: Names, top: nat, f: Value, e: nat, k: Fixnum, n: nat, s: Store)
    returns (s': Store)
    requires x.Distinct() && Counting(x, top, e, k, s) && IsBodyForm(f, x) && k >= 0 && n >= 2 * k + 4
    ensures Run(n, Finite(2), f, e, s) == Done(Sym(x.done), s')
    decreases k
  {
    hide Run, Counting;
    RunBody(x, top, f, e, k, n, s);
    if k == 0 {
      RunFinish(x, f.cdr.cdr.car, e, n - 1, Finite(2), s);
      s' := s;
    } else {
      var body := RunAgain(x, top, f.cdr.cdr.cdr.car, e, k, n - 1, s);
      s' := BodyFinishes(x, top, body, |s.frames|, k - 1, n - 2, Entered(x, top, k - 1, s));
    }
  }

  /** `(loop k)` finishes under depth limit 3, whatever the non-negative fixnum k. */
  lemma LoopFinishesAtDepthThree(x: Names, top: nat, f: Value, k: Fixnum, s: Store) returns (n: nat, s': Store)
    requires x.Distinct() && Ready(x, top, s) && IsCall(f, x.loop, Fix(k)) && k >= 0
    ensures n == 2 * k + 6 && Eval(n, Finite(3), f, top, s) == Done(Sym(x.done), s')
  {
    hide Run, Counting, IsBodyForm;
    n := 2 * k + 6;
    EvalNumber(n - 1, Finite(2), k, top, s);
    RunLoopCall(x, top, f, Fix(k), top, k, n - 1, Finite(2), s);
    EnteredCounts(x, top, k, s);
    var body := Lookup(s.frames, top, x.loop).value.body.car;
    s' := BodyFinishes(x, top, body, |s.frames|, k, n - 2, Entered(x, top, k, s));
  }

  // ------------------------------------------------------------ smaller limits

  lemma CallFailsAtDepthOne(x: Names, top: nat, f: Value, k: Fixnum, n: nat, s: Store)
    requires x.Distinct() && IsCall(f, x.loop, Fix(k)) && n >= 2
    ensures Eval(n, Finite(1), f, top, s) == Fail(EvalDepth, s)
  {
    assert Eval(n - 1, Finite(0), Sym(x.loop), top, s) == Fail(EvalDepth, s);
    assert Run(n - 1, Finite(0), f, top, s) == Call(n - 1, Finite(0), Sym(x.loop), f.cdr, top, s);
  }

  lemma TestFailsAtDepthZero(x: Names, f: Value, e: nat, n: nat, s: Store)
    requires x.Distinct() && IsTest(f, x) && n >= 1
    ensures Run(n, Finite(0), f, e, s) == Fail(EvalDepth, s)
  {
    assert Eval(n, Finite(0), Sym(x.eq), e, s) == Fail(EvalDepth, s);
    assert Run(n, Finite(0), f, e, s) == Call(n, Finite(0), Sym(x.eq), f.cdr, e, s);
  }

  lemma BodyFailsAtDepthOne(x: Names, body: Value, e: nat, n: nat, s: Store)
    requires x.Distinct() && IsBodyForm(body, x) && n >= 2
    ensures Run(n, Finite(1), body, e, s) == Fail(EvalDepth, s)
  {
    RunIf(n, Finite(1), body, body.cdr.car, body.cdr.cdr.car, body.cdr.cdr.cdr.car, e, s);
    TestFailsAtDepthZero(x, body.cdr.car, e, n - 1, s);
  }

  lemma CallFailsAtDepthTwo(x: Names, top: nat, f: Value, k: Fixnum, n: nat, s: Store)
    requires x.Distinct() && Ready(x, top, s) && IsCall(f, x.loop, Fix(k)) && n >= 4
    ensures Eval(n, Finite(2), f, top, s) == Fail(EvalDepth, Entered(x, top, k, s))
  {
    hide Run;
    EvalNumber(n - 1, Finite(1), k, top, s);
    RunLoopCall(x, top, f, Fix(k), top, k, n - 1, Finite(1), s);
    BodyFailsAtDepthOne(x, Lookup(s.frames, top, x.loop).value.body.car, |s.frames|, n - 2, Entered(x, top, k, s));
  }

  /** Depth 3 is exactly what the loop needs: under any smaller limit every call of it fails, for every k. */
  lemma LoopNeedsDepthThree(x: Names, top: nat, f: Value, k: Fixnum, d: nat, n: nat, s: Store)
    requires x.Distinct() && Ready(x, top, s) && IsCall(f, x.loop, Fix(k)) && d <= 2 && n >= 4
    ensures exists s' :: Eval(n, Finite(d), f, top, s) == Fail(EvalDepth, s')
  {
    if d == 1 {
      CallFailsAtDepthOne(x, top, f, k, n, s);
    } else if d == 2 {
      CallFailsAtDepthTwo(x, top, f, k, n, s);
    }
  }

  // ------------------------------------------------------------ the whole program

  // The closure the definition makes, and the store it leaves.
  ghost function LoopClosure(f: Value, top: nat, s: Store): Value
    requires f.Pair? && f.cdr.Pair? && f.cdr.car.Pair?
  {
    Closure(s.nextId, top, f.cdr.car.cdr, f.cdr.cdr, false, 1)
  }

  ghost function Defined(f: Value, x: Names, top: nat, s: Store): Store
    requires f.Pair? && f.cdr.Pair? && f.cdr.car.Pair? && top < |s.frames|
  {
    Store(Define(s.frames, top, x.loop, LoopClosure(f, top, s)), s.nextId + 1, s.maxEqual)
  }

  lemma RunDefinition(x: Names, f: Value, top: nat, n: nat, l: Limit, s: Store)
    requires IsDefinition(f, x) && top < |s.frames|
    ensures Run(n, l, f, top, s) == Done(Undef, Defined(f, x, top, s))
  {
    RunForm(n, l, f, DEFINE, top, s);
    SmallLists(f.cdr.cdr);
    var params, body := f.cdr.car.cdr, f.cdr.cdr;
    assert Special(n, l, DEFINE, f.cdr, top, s) == DefineForm(n, l, f.cdr, top, s);
    assert DefineForm(n, l, f.cdr, top, s) == DefineProcedure(x.loop, params, body, top, s);
    assert Shape(params.cdr) == Some((0, false)) && Shape(params) == Some((1, false));
  }

  /** Evaluating the definition where `=` and `-` are the primitives makes the loop ready to be called. */
  lemma DefinitionMakesReady(x: Names, f: Value, top: nat, s: Store)
    requires x.Distinct() && IsDefinition(f, x) && HasPrims(x, top, s)
    ensures Ready(x, top, Defined(f, x, top, s))
  {
    var v := LoopClosure(f, top, s);
    DefineAffectsOneName(s.frames, top, x.loop, v, top, x.eq);
    DefineAffectsOneName(s.frames, top, x.loop, v, top, x.minus);
  }

  /**
   * The program: the definition and then the call, each evaluated in `top` under
   * depth limit 3, end with the symbol done for every non-negative fixnum k.
   */
  lemma ProgramFinishesAtDepthThree(x: Names, definition: Value, call: Value, top: nat, k: Fixnum, s: Store)
    returns (n: nat, s1: Store, s2: Store)
    requires x.Distinct() && HasPrims(x, top, s) && k >= 0
    requires IsDefinition(definition, x) && IsCall(call, x.loop, Fix(k))
    ensures Eval(n, Finite(3), definition, top, s) == Done(Undef, s1)
    ensures Eval(n, Finite(3), call, top, s1) == Done(Sym(x.done), s2)
  {
    hide Run, Ready;
    s1 := Defined(definition, x, top, s);
    DefinitionMakesReady(x, definition, top, s);
    n, s2 := LoopFinishesAtDepthThree(x, top, call, k, s1);
    RunDefinition(x, definition, top, n - 1, Finite(2), s);
  }
}
