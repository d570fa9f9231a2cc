/**
 * Space of tail calls on the interpreter itself: the protect stack never gets
 * higher than depth and program width allow, however many turns the loop makes.
 */
module ConstantSpace {
  import opened Basics
  import opened Terms
  import opened Frames
  import opened Prims
  import opened Semantics
  import opened Evaluator
  import Derived
  import TailCalls
  import Width

  lemma {:induction false} SpaceIsLinear(width: nat, max: nat, depth: nat)
    requires depth <= max
    ensures Space(width, max, depth) == (max - depth) * (width + 8)
    decreases max - depth
  {
    if depth < max {
      SpaceIsLinear(width, max, depth + 1);
    }
  }

  // ---------------------------------------------------------------- a width for every store

  lemma {:induction false} WiderCode(w: nat, w': nat, v: Value)
    requires w <= w' && Width.Code(w, v)
    ensures Width.Code(w', v)
  {
    match v
    case Pair(_, car, cdr) =>
      WiderCode(w, w', car);
      WiderCode(w, w', cdr);
    case Closure(_, _, _, body, _, _) =>
      WiderCode(w, w', body);
    case _ =>
  }

  lemma {:induction false} WiderData(w: nat, w': nat, v: Value)
    requires w <= w' && Width.Data(w, v)
    ensures Width.Data(w', v)
  {
    match v
    case Pair(_, car, cdr) =>
      WiderData(w, w', car);
      WiderData(w, w', cdr);
    case Closure(_, _, _, body, _, _) =>
      WiderCode(w, w', body);
    case _ =>
  }

  lemma {:induction false} SomeWidth(v: Value) returns (w: nat)
    ensures Width.Code(w, v)
  {
    w := 0;
    match v
    case Pair(_, car, cdr) =>
      var a := SomeWidth(car);
      var b := SomeWidth(cdr);
      w := a + b + Width.Cells(v);
      WiderCode(a, w, car);
      WiderCode(b, w, cdr);
    case Closure(_, _, _, body, _, _) =>
      w := SomeWidth(body);
    case _ =>
  }

  lemma {:induction false} SomeWidthForAll(vs: seq<Value>) returns (w: nat)
    ensures Width.AllData(w, vs)
  {
    if vs == [] {
      w := 0;
    } else {
      var a := SomeWidth(vs[0]);
      var b := SomeWidthForAll(vs[1..]);
      w := a + b;
      WiderCode(a, w, vs[0]);
      Width.CodeIsData(w, vs[0]);
      forall v | v in vs ensures Width.Data(w, v) {
        if v != vs[0] {
          assert v in vs[1..];
          WiderData(b, w, v);
        }
      }
    }
  }

  // The frames below `e`.
  lemma {:induction false} SomeWidthBelow(frames: seq<Frame>, e: nat) returns (w: nat)
    requires e <= |frames|
    ensures forall i | 0 <= i < e :: Width.AllData(w, frames[i].values)
  {
    if e == 0 {
      w := 0;
    } else {
      var a := SomeWidthForAll(frames[e - 1].values);
      var b := SomeWidthBelow(frames, e - 1);
      w := a + b;
      forall i | 0 <= i < e ensures Width.AllData(w, frames[i].values) {
        forall v | v in frames[i].values ensures Width.Data(w, v) {
          WiderData(if i == e - 1 then a else b, w, v);
        }
      }
    }
  }

  /** Every form and store have a width, so the bound on the protect stack is never empty. */
  lemma EveryStateHasWidth(form: Value, s: Store) returns (w: nat)
    ensures Width.Tidy(w, form, s)
  {
    var a := SomeWidth(form);
    var b := SomeWidthBelow(s.frames, |s.frames|);
    w := a + b;
    WiderCode(a, w, form);
    forall i | 0 <= i < |s.frames| ensures Width.AllData(w, s.frames[i].values) {
      forall v | v in s.frames[i].values ensures Width.Data(w, v) {
        WiderData(b, w, v);
      }
    }
  }

  // ---------------------------------------------------------------- evaluations

  /**
   * Any evaluation, whatever its length and however it ends: the protect stack
   * gets at most d * (width + 8) slots above its height on entry, d being the
   * depth still available.
   */
  method EvalWithin(interpreter: Interpreter, form: Value, env: nat, budget: nat) returns (e: Ending, v: Value)
    requires interpreter.evalDepth <= interpreter.maxEvalDepth
    requires Width.Tidy(interpreter.width, form, interpreter.Snapshot())
    requires interpreter.peak <= interpreter.ceiling
    requires |interpreter.protect| + (interpreter.maxEvalDepth - interpreter.evalDepth) * (interpreter.width + 8)
             <= interpreter.ceiling
    modifies interpreter, interpreter.envs
    ensures interpreter.Balanced() && interpreter.peak <= interpreter.ceiling
    ensures interpreter.Returns(e, v, Eval(budget, old(interpreter.Left()), form, env, old(interpreter.Snapshot())))
  {
    SpaceIsLinear(interpreter.width, interpreter.maxEvalDepth, interpreter.evalDepth);
    e, v := interpreter.MlEval(form, env, budget);
  }

  /**
   * `(loop k)` at depth limit 3: the symbol done, or a refused request, with at
   * most 3 * (width + 8) slots of the protect stack above the entry height in
   * use at any time, for every k.
   */
  method RunLoop(interpreter: Interpreter, x: TailCalls.Names, top: nat, f: Value, k: Fixnum)
    returns (st: Status, v: Value)
    requires interpreter.maxEvalDepth == 3 && interpreter.evalDepth == 0
    requires x.Distinct() && TailCalls.Ready(x, top, interpreter.Snapshot())
    requires TailCalls.IsCall(f, x.loop, Fix(k)) && k >= 0
    requires interpreter.width > 0 && Width.StoreFits(interpreter.width, interpreter.Snapshot())
    requires interpreter.peak <= interpreter.ceiling
    requires |interpreter.protect| + 3 * (interpreter.width + 8) <= interpreter.ceiling
    modifies interpreter, interpreter.envs
    ensures interpreter.Balanced() && interpreter.peak <= interpreter.ceiling
    ensures (st == OK && v == Sym(x.done)) || (st == NoMem && interpreter.refusals > old(interpreter.refusals))
  {
    hide Eval, TailCalls.Ready, Width.StoreFits;
    CallIsNarrow(interpreter.width, f, x.loop, k);
    ghost var n, s := TailCalls.LoopFinishesAtDepthThree(x, top, f, k, interpreter.Snapshot());
    var e;
    e, v := EvalWithin(interpreter, f, top, 2 * k + 6);
    st := e.st;
  }

  lemma CallIsNarrow(w: nat, f: Value, name: nat, k: Fixnum)
    requires w > 0 && TailCalls.IsCall(f, name, Fix(k))
    ensures Width.Code(w, f)
  {
    assert Width.Code(w, f.cdr.car) && Width.Code(w, f.cdr.cdr);
    assert Width.Cells(f.cdr.cdr) == 0;
  }

  // ---------------------------------------------------------------- loops without end

  // `name` is bound, from `e` outwards, to a procedure of no arguments that only
  // calls itself: (define (f) (f)).
  ghost predicate Spins(name: nat, e: nat, s: Store) {
    && COND < name && e < |s.frames|
    && var v := Lookup(s.frames, e, name);
    && v.Some? && IsSpinner(v.value, name)
    && v.value.env < |s.frames| && Lookup(s.frames, v.value.env, name) == v
  }

  ghost predicate IsSpinner(v: Value, name: nat) {
    && v.Closure? && v.params == Nil && !v.variadic && v.arityMin == 0
    && v.body.Pair? && v.body.cdr == Nil && IsSelfCall(v.body.car, name)
  }

  predicate IsSelfCall(f: Value, name: nat) {
    f.Pair? && f.car == Sym(name) && f.cdr == Nil
  }

  // One turn: a new frame, and the same call again in it, one unit of fuel later.
  lemma SpinOnce(name: nat, e: nat, f: Value, n: nat, l: Limit, s: Store) returns (body: Value)
    requires Spins(name, e, s) && IsSelfCall(f, name) && n > 0 && l != Finite(0)
    ensures var s1 := NewFrame(Lookup(s.frames, e, name).value.env, s);
      Spins(name, |s.frames|, s1) && IsSelfCall(body, name) && Run(n, l, f, e, s) == Run(n - 1, l, body, |s.frames|, s1)
  {
    var v := Lookup(s.frames, e, name).value;
    var inner, s1 := |s.frames|, NewFrame(v.env, s);
    body := v.body.car;
    TailCalls.EvalName(n, l, name, v, e, s);
    assert Args(n, l, Nil, e, s) == Done([], s);
    assert Call(n, l, Sym(name), Nil, e, s) == CallWith(n, l, v, Nil, e, s) == Apply(n, l, v, [], s);
    EnterSpinner(v, name, n, l, s);
    Frames.HolderAppend(s.frames, EmptyFrame(Some(v.env)), v.env, name);
  }

  lemma EnterSpinner(v: Value, name: nat, n: nat, l: Limit, s: Store)
    requires IsSpinner(v, name) && n > 0
    ensures Apply(n, l, v, [], s) == Run(n - 1, l, v.body.car, |s.frames|, NewFrame(v.env, s))
  {
    var inner, s1 := |s.frames|, NewFrame(v.env, s);
    var none: seq<Value> := [];
    assert none[..0] == none;
    assert Positional(Nil, [], inner, s1) == Done(Nil, s1);
    assert BindClosure(v, [], s) == Done(inner, s1);
    SmallLists(v.body);
    assert Sequence(n, l, v.body, inner, s1) == Tail(n, l, v.body.car, inner, s1);
  }

  /** `(f)` with `(define (f) (f))` has no outcome, whatever the fuel and at every depth limit above zero. */
  lemma {:induction false} SpinningHasNoOutcome(name: nat, e: nat, f: Value, n: nat, l: Limit, s: Store)
    requires Spins(name, e, s) && IsSelfCall(f, name) && l != Finite(0)
    ensures Run(n, l, f, e, s).OutOfFuel?
    decreases n
  {
    if n > 0 {
      var body := SpinOnce(name, e, f, n, l, s);
      SpinningHasNoOutcome(name, |s.frames|, body, n - 1, l, NewFrame(Lookup(s.frames, e, name).value.env, s));
    }
  }

  /**
   * On the interpreter the same call never returns a value or a Scheme error: it
   * uses up every budget, or a request is refused, and the protect stack stays
   * within the bound of its depth meanwhile.
   */
  method Spin(interpreter: Interpreter, name: nat, env: nat, f: Value, budget: nat) returns (e: Ending)
    requires interpreter.evalDepth + 2 <= interpreter.maxEvalDepth
    requires Spins(name, env, interpreter.Snapshot()) && IsSelfCall(f, name)
    requires Width.StoreFits(interpreter.width, interpreter.Snapshot())
    requires interpreter.peak <= interpreter.ceiling
    requires |interpreter.protect| + (interpreter.maxEvalDepth - interpreter.evalDepth) * (interpreter.width + 8)
             <= interpreter.ceiling
    modifies interpreter, interpreter.envs
    ensures interpreter.Balanced() && interpreter.peak <= interpreter.ceiling
    ensures e == Exhausted || (e == Ended(NoMem) && interpreter.refusals > old(interpreter.refusals))
  {
    SelfCallIsNarrow(interpreter.width, f, name);
    ghost var l := interpreter.Left();
    if budget > 0 {
      SpinningHasNoOutcome(name, env, f, budget - 1, Deeper(l), interpreter.Snapshot());
    }
    assert Eval(budget, l, f, env, interpreter.Snapshot()).OutOfFuel?;
    var v;
    e, v := EvalWithin(interpreter, f, env, budget);
  }

  lemma SelfCallIsNarrow(w: nat, f: Value, name: nat)
    requires IsSelfCall(f, name)
    ensures Width.Code(w, f)
  {
    assert Width.Cells(f.cdr) == 0;
  }
}
