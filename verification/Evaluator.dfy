/**
 * The trampolined evaluator: a loop rewrites the form and environment held in
 * two protect-stack slots for every tail position, and recurses only for
 * nested evaluations.  Each method is proved against the direct evaluator.
 *
 * The argument `n` is a budget for the loop and the recursion: a run that uses
 * it up stops, and does so exactly where the direct evaluator runs out of the
 * same fuel.  Every run of the source that comes to an end is a run with some
 * budget that suffices; what the contracts say holds under every budget.
 */
module Evaluator {
  import opened Basics
  import opened Terms
  import opened Frames
  import opened Prims
  import opened Semantics
  import Arith
  import Equality
  import Width

  // How a handler ends: with a value, with a tail expression for the loop, or with an error.
  datatype SfResult =
    | NotHandled
    | SfValue(v: Value)
    | SfTco(form: Value, env: nat)
    | SfError(st: Error)
    | SfExhausted

  // The result `r`, in the store `s` and with requests refused or not, stands for the outcome `o`.
  ghost predicate StandsFor(r: SfResult, o: Outcome<Value>, n: nat, l: Limit, s: Store, refused: bool) {
    || (r == SfError(NoMem) && refused)
    || (!r.NotHandled? &&
        o == match r
             case SfValue(v) => Done(v, s)
             case SfTco(form, env) => Tail(n, l, form, env, s)
             case SfError(st) => Fail(st, s)
             case _ => OutOfFuel)
  }

  // The status, value and store are those of the outcome `o`, unless a request was refused.
  ghost predicate Agree<T>(st: Status, v: T, o: Outcome<T>, s: Store, refused: bool) {
    (st == NoMem && refused) || o == if st == OK then Done(v, s) else Fail(st, s)
  }

  // How a nested evaluation ends: with a status, or with its budget used up.
  datatype Ending = Ended(st: Status) | Exhausted

  // What a handler makes of a nested evaluation that gave no value.
  function Stopped(e: Ending): SfResult
    requires e != Ended(OK)
  {
    match e
    case Ended(st) => SfError(st)
    case Exhausted => SfExhausted
  }

  class Interpreter {
    const envs: EnvStore
    const maxEvalDepth: nat
    const maxEqual: nat
    var nextId: nat
    var protect: seq<Value>
    var evalDepth: nat
    ghost var refusals: nat    // requests refused, those of `envs` included
    ghost var peak: nat        // the greatest height the protect stack has had
    // Any two numbers, for what is said about `peak`: how long the lists in a
    // program are, and how high the stack may get.
    ghost const width: nat
    ghost const ceiling: nat

    constructor (envs: EnvStore, maxEvalDepth: nat, maxEqual: nat, ghost width: nat, ghost ceiling: nat)
      ensures protect == [] && evalDepth == 0 && nextId == 0 && peak == 0
      ensures this.envs == envs && this.maxEvalDepth == maxEvalDepth && this.maxEqual == maxEqual
      ensures this.width == width && this.ceiling == ceiling
    {
      this.envs, this.maxEvalDepth, this.maxEqual := envs, maxEvalDepth, maxEqual;
      this.width, this.ceiling := width, ceiling;
      nextId, protect, evalDepth, refusals, peak := 0, [], 0, 0, 0;
    }

    function Snapshot(): Store
      reads `nextId, envs`frames
    {
      Store(envs.frames, nextId, maxEqual)
    }

    // The depth that is still available.
    function Left(): Limit
      requires evalDepth <= maxEvalDepth
      reads `evalDepth
    {
      Finite(maxEvalDepth - evalDepth)
    }

    // Agreement up to memory: the one other way to end is that a request was refused meanwhile.
    twostate predicate Yields<T>(st: Status, new v: T, new o: Outcome<T>)
      reads `nextId, `refusals, envs`frames
    {
      Agree(st, v, o, Snapshot(), refusals > old(refusals))
    }

    // The same with a budget: it is used up only where the direct evaluator has no outcome.
    twostate predicate Returns<T>(e: Ending, new v: T, new o: Outcome<T>)
      reads `nextId, `refusals, envs`frames
    {
      if e.Exhausted? then o.OutOfFuel? else Agree(e.st, v, o, Snapshot(), refusals > old(refusals))
    }

    // What is left to do for a handler that stands for the direct evaluation `o`.
    twostate predicate Follows(new r: SfResult, new o: Outcome<Value>, n: nat)
      requires evalDepth <= maxEvalDepth
      reads `nextId, `evalDepth, `refusals, envs`frames
    {
      StandsFor(r, o, n, Left(), Snapshot(), refusals > old(refusals))
    }

    // Protect stack and depth counter are as on entry.
    twostate predicate Balanced()
      reads `protect, `evalDepth, `refusals
    {
      protect == old(protect) && evalDepth == old(evalDepth) && refusals >= old(refusals)
    }

    // ------------------------------------------------------------ space

    ghost predicate NarrowForms(forms: seq<Value>) {
      forall f | f in forms :: Width.Code(width, f)
    }

    // With `slots` slots to spare below the ceiling, the protect stack stays below it.
    twostate predicate Pushes(slots: nat)
      reads `peak, `protect
    {
      peak >= old(peak) && (old(peak) <= ceiling && old(|protect|) + slots <= ceiling ==> peak <= ceiling)
    }

    // The same where code and store are narrow and nested evaluations have their space too.
    twostate predicate Lean(tidy: bool, slots: nat)
      reads `peak, `protect, `evalDepth
    {
      var needed := old(|protect|) + slots + Space(width, maxEvalDepth, evalDepth);
      peak >= old(peak) && (tidy && old(peak) <= ceiling && needed <= ceiling ==> peak <= ceiling)
    }

    // And what is left to the loop is narrow again.
    twostate predicate Frugal(tidy: bool, slots: nat, new r: SfResult)
      reads `peak, `protect, `evalDepth, `nextId, envs`frames
    {
      Lean(tidy, slots) && (tidy && r.SfTco? ==> Width.Tidy(width, r.form, Snapshot()))
    }

    // ------------------------------------------------------------ protect stack

    // The embedder's allocator may refuse.
    method RawAlloc() returns (ok: bool)
      modifies `refusals
      ensures refusals == old(refusals) + if ok then 0 else 1
    {
      if * {
        return true;
      }
      refusals := refusals + 1;
      ok := false;
    }

    // Pushing fails when the stack cannot grow.
    method Protect(v: Value) returns (st: Status)
      modifies `protect, `refusals, `peak
      ensures protect == if st == OK then old(protect) + [v] else old(protect)
      ensures peak == if st == OK && old(|protect|) >= old(peak) then old(|protect|) + 1 else old(peak)
      ensures refusals == old(refusals) + if st == OK then 0 else 1
      ensures st == OK || st == NoMem
    {
      var full := *;
      if full {
        var grown := RawAlloc();
        if !grown {
          return NoMem;
        }
      }
      protect := protect + [v];
      if |protect| > peak {
        peak := |protect|;
      }
      st := OK;
    }

    method Unprotect(n: nat)
      modifies `protect
      ensures protect == if n <= old(|protect|) then old(protect)[..old(|protect|) - n] else []
    {
      var k := if n > |protect| then |protect| else n;
      protect := protect[..|protect| - k];
    }

    method Restore(saved: nat)
      modifies `protect
      ensures protect == if saved < old(|protect|) then old(protect)[..saved] else old(protect)
    {
      if saved < |protect| {
        protect := protect[..saved];
      }
    }

    // ------------------------------------------------------------ frames

    // The operations of `envs` that may ask for memory.
    method AllocFrame(parent: nat) returns (st: Status, e: nat)
      modifies `refusals, envs
      ensures st == OK || st == NoMem
      ensures refusals == old(refusals) + if st == NoMem then 1 else 0
      ensures Snapshot() == if st == OK then NewFrame(parent, old(Snapshot())) else old(Snapshot())
      ensures st == OK ==> e == old(|envs.frames|)
    {
      ghost var before := envs.refusals;
      st, e := envs.AllocEnv(Some(parent));
      refusals := refusals + (envs.refusals - before);
    }

    method DefineInFrame(e: nat, name: nat, v: Value) returns (st: Status)
      modifies `refusals, envs
      ensures refusals >= old(refusals)
      ensures Yields(st, Undef, DefineVar(e, name, v, old(Snapshot())))
    {
      ghost var before := envs.refusals;
      st := envs.EnvDefine(e, name, v);
      refusals := refusals + (envs.refusals - before);
    }

    // ------------------------------------------------------------ entry point and loop

    method MlEval(form: Value, env: nat, n: nat) returns (e: Ending, v: Value)
      requires evalDepth <= maxEvalDepth
      modifies this, envs
      ensures Balanced()
      ensures Lean(Width.Tidy(width, form, old(Snapshot())), 0)
      ensures Returns(e, v, Eval(n, old(Left()), form, env, old(Snapshot())))
      ensures Width.Tidy(width, form, old(Snapshot())) && e == Ended(OK) ==>
        Width.Data(width, v) && Width.StoreFits(width, Snapshot())
      decreases n, 0, 0
    {
      hide Run, Width.Code, Width.StoreFits;
      if n == 0 {
        return Exhausted, Undef;
      }
      if evalDepth >= maxEvalDepth {
        return Ended(EvalDepth), Undef;
      }
      ghost var tidy, l, s := Width.Tidy(width, form, Snapshot()), Left(), Snapshot();
      evalDepth := evalDepth + 1;
      e, v := EvalBody(form, env, n - 1);
      evalDepth := evalDepth - 1;
      if tidy {
        Width.EvalFits(width, n, l, form, env, s);
      }
    }

    method EvalBody(form: Value, env: nat, n: nat) returns (e: Ending, v: Value)
      requires evalDepth <= maxEvalDepth
      modifies this, envs
      ensures Balanced()
      ensures Lean(Width.Tidy(width, form, old(Snapshot())), width + 8)
      ensures Returns(e, v, Run(n, old(Left()), form, env, old(Snapshot())))
      decreases n, 4
    {
      hide Run, Width.Code, Width.Data, Width.StoreFits;
      v := Undef;
      var sp := |protect|;
      var st := Protect(form);
      if st != OK {
        return Ended(st), v;
      }
      st := Protect(Env(env));
      if st != OK {
        Restore(sp);
        return Ended(st), v;
      }
      var k := n;
      while true
        // Constant space: two slots above the entry height, and no depth, at every iteration.
        invariant |protect| == sp + 2 && protect[..sp] == old(protect) && protect[sp + 1].Env?
        invariant evalDepth == old(evalDepth) && refusals >= old(refusals)
        invariant Lean(Width.Tidy(width, form, old(Snapshot())), width + 8)
        invariant Width.Tidy(width, form, old(Snapshot())) ==> Width.Tidy(width, protect[sp], Snapshot())
        invariant 0 <= k <= n
        invariant Run(k, Left(), protect[sp], protect[sp + 1].frame, Snapshot()) ==
                  Run(n, old(Left()), form, env, old(Snapshot()))
        decreases k
      {
        var r := Step(protect[sp], protect[sp + 1].frame, k);
        match r
        case SfValue(value) =>
          Restore(sp);
          return Ended(OK), value;
        case SfTco(newForm, newEnv) =>
          if k == 0 {
            Restore(sp);
            return Exhausted, Undef;
          }
          protect := protect[sp := newForm][sp + 1 := Env(newEnv)];
          k := k - 1;
        case SfError(status) =>
          Restore(sp);
          return Ended(status), Undef;
        case SfExhausted =>
          Restore(sp);
          return Exhausted, Undef;
        case NotHandled =>
          assert false;
      }
    }

    // One iteration of the loop.
    method Step(form: Value, env: nat, n: nat) returns (r: SfResult)
      requires evalDepth <= maxEvalDepth
      modifies this, envs
      ensures Balanced()
      ensures Frugal(Width.Tidy(width, form, old(Snapshot())), width + 6, r)
      ensures Follows(r, Run(n, Left(), form, env, old(Snapshot())), n)
      decreases n, 3
    {
      match form
      case Sym(name) =>
        var st, v := envs.EnvLookup(env, name);
        r := if st == OK then SfValue(v) else SfError(st);
      case Pair(_, head, rest) =>
        if head.Sym? {
          r := HandleSpecial(head.idx, rest, env, n);
          if r != NotHandled {
            return;
          }
        }
        r := CallProcedure(head, rest, env, n);
      case _ =>
        r := SfValue(form);
    }

    method HandleSpecial(head: nat, rest: Value, env: nat, n: nat) returns (r: SfResult)
      requires evalDepth <= maxEvalDepth
      modifies this, envs
      ensures Balanced()
      ensures Frugal(Width.Tidy(width, rest, old(Snapshot())), 4, r)
      ensures head > COND ==> r == NotHandled && Snapshot() == old(Snapshot())
      ensures head <= COND ==> Follows(r, Special(n, Left(), head, rest, env, old(Snapshot())), n)
      decreases n, 2
    {
      if head == QUOTE {
        r := HandleQuote(rest);
      } else if head == IF {
        r := HandleIf(rest, env, n);
      } else if head == DEFINE {
        r := HandleDefine(rest, env, n);
      } else if head == SET {
        r := HandleSetBang(rest, env, n);
      } else if head == LAMBDA {
        r := HandleLambda(rest, env, n);
      } else if head == BEGIN {
        r := BeginTco(rest, env, n);
      } else if head == LET {
        r := HandleLetFamily(rest, env, false, false, n);
      } else if head == LET_STAR {
        r := HandleLetFamily(rest, env, true, false, n);
      } else if head == LETREC {
        r := HandleLetFamily(rest, env, true, true, n);
      } else if head == AND {
        r := HandleAndOr(rest, env, false, n);
      } else if head == OR {
        r := HandleAndOr(rest, env, true, n);
      } else if head == COND {
        r := HandleCond(rest, env, n);
      } else {
        r := NotHandled;
      }
    }

    // ------------------------------------------------------------ special forms

    method HandleQuote(args: Value) returns (r: SfResult)
      ensures match r
              case SfValue(v) => Quote(args, Snapshot()) == Done(v, Snapshot())
              case SfError(st) => Quote(args, Snapshot()) == Fail(st, Snapshot())
              case _ => false
    {
      var proper, length := ProperListLength(args);
      SmallLists(args);
      if !proper || length != 1 {
        return SfError(Syntax);
      }
      r := SfValue(args.car);
    }

    method HandleIf(args: Value, env: nat, n: nat) returns (r: SfResult)
      requires evalDepth <= maxEvalDepth
      modifies this, envs
      ensures Balanced()
      ensures Frugal(Width.Tidy(width, args, old(Snapshot())), 4, r)
      ensures Follows(r, If(n, Left(), args, env, old(Snapshot())), n)
      decreases n, 1
    {
      hide Eval, Width.Code, Width.Data, Width.StoreFits;
      var proper, length := ProperListLength(args);
      SmallLists(args);
      if !proper || (length != 2 && length != 3) {
        return SfError(Syntax);
      }
      var test, rest := args.car, args.cdr;
      Width.CodeParts(width, args);
      Width.CodeParts(width, rest);
      if rest.cdr.Pair? {
        Width.CodeParts(width, rest.cdr);
      }
      SmallLists(rest);
      assert If(n, Left(), args, env, Snapshot()) == Test(n, Left(), test, rest, env, Snapshot());
      var e, v := MlEval(test, env, n);
      if e != Ended(OK) {
        return Stopped(e);
      }
      assert If(n, old(Left()), args, env, old(Snapshot())) == Branch(n, Left(), v, rest, env, Snapshot());
      if Truthy(v) {
        return SfTco(rest.car, env);
      } else if length == 3 {
        return SfTco(rest.cdr.car, env);
      }
      r := SfValue(Undef);
    }

    lemma DefineKeepsNarrow(env: nat, name: nat, v: Value, before: Store)
      requires Width.Data(width, v) && DefineVar(env, name, v, before) == Done(Undef, Snapshot())
      ensures Width.StoreFits(width, before) ==> Width.StoreFits(width, Snapshot())
    {
      if Width.StoreFits(width, before) {
        Width.DefineVarFits(width, env, name, v, before);
      }
    }

    // ml_env_define with the value held on the protect stack meanwhile.
    method DefineProtected(env: nat, name: nat, v: Value) returns (st: Status)
      modifies this, envs
      ensures Balanced()
      ensures Pushes(1)
      ensures Yields(st, Undef, DefineVar(env, name, v, old(Snapshot())))
      ensures st == OK && Width.StoreFits(width, old(Snapshot())) && Width.Data(width, v) ==>
        Width.StoreFits(width, Snapshot())
    {
      var sp := |protect|;
      st := Protect(v);
      if st != OK {
        return;
      }
      ghost var before := Snapshot();
      st := DefineInFrame(env, name, v);
      if st == OK && Width.Data(width, v) {
        DefineKeepsNarrow(env, name, v, before);
      }
      Restore(sp);
    }

    method HandleDefine(args: Value, env: nat, n: nat) returns (r: SfResult)
      requires evalDepth <= maxEvalDepth
      modifies this, envs
      ensures Balanced()
      ensures Frugal(Width.Tidy(width, args, old(Snapshot())), 4, r)
      ensures Follows(r, DefineForm(n, Left(), args, env, old(Snapshot())), n)
      decreases n, 1
    {
      hide Eval, Width.Code, Width.Data, Width.StoreFits;
      var proper, length := ProperListLength(args);
      SmallLists(args);
      if !proper || length < 2 {
        return SfError(Syntax);
      }
      var first, rest := args.car, args.cdr;
      Width.CodeParts(width, args);
      if first.Sym? {
        if length != 2 {
          return SfError(Syntax);
        }
        Width.CodeParts(width, rest);
        r := DefineEvaluated(first.idx, rest.car, env, n);
      } else if first.Pair? {
        if !first.car.Sym? {
          return SfError(Syntax);
        }
        r := DefineClosure(first.car.idx, first.cdr, rest, env, n);
      } else {
        r := SfError(Syntax);
      }
    }

    // (define name init)
    method DefineEvaluated(name: nat, init: Value, env: nat, n: nat) returns (r: SfResult)
      requires evalDepth <= maxEvalDepth
      modifies this, envs
      ensures Balanced()
      ensures Frugal(Width.Tidy(width, init, old(Snapshot())), 1, r) && !r.SfTco?
      ensures Follows(r, DefineValue(n, Left(), name, init, env, old(Snapshot())), n)
      decreases n, 0, 3
    {
      hide Eval, Width.Code, Width.Data, Width.StoreFits;
      var e, v := MlEval(init, env, n);
      if e != Ended(OK) {
        return Stopped(e);
      }
      assert DefineValue(n, old(Left()), name, init, env, old(Snapshot())) == DefineVar(env, name, v, Snapshot());
      var st := DefineProtected(env, name, v);
      r := if st == OK then SfValue(Undef) else SfError(st);
    }

    // (define (name . params) body ...)
    method DefineClosure(name: nat, params: Value, body: Value, env: nat, n: nat) returns (r: SfResult)
      requires evalDepth <= maxEvalDepth && IsBody(body)
      modifies this, envs
      ensures Balanced()
      ensures Pushes(3) && !r.SfTco?
      ensures Follows(r, DefineProcedure(name, params, body, env, old(Snapshot())), n)
    {
      var st, v := MakeClosure(params, body, env);
      if st != OK {
        return SfError(st);
      }
      st := DefineProtected(env, name, v);
      r := if st == OK then SfValue(Undef) else SfError(st);
    }

    method HandleSetBang(args: Value, env: nat, n: nat) returns (r: SfResult)
      requires evalDepth <= maxEvalDepth
      modifies this, envs
      ensures Balanced()
      ensures Frugal(Width.Tidy(width, args, old(Snapshot())), 4, r)
      ensures Follows(r, SetForm(n, Left(), args, env, old(Snapshot())), n)
      decreases n, 1
    {
      hide Eval, Width.Code, Width.Data, Width.StoreFits;
      var proper, length := ProperListLength(args);
      SmallLists(args);
      if !proper || length != 2 || !args.car.Sym? {
        return SfError(Syntax);
      }
      Width.CodeParts(width, args);
      Width.CodeParts(width, args.cdr);
      r := SetEvaluated(args.car.idx, args.cdr.car, env, n);
    }

    // (set! name init)
    method SetEvaluated(name: nat, init: Value, env: nat, n: nat) returns (r: SfResult)
      requires evalDepth <= maxEvalDepth
      modifies this, envs
      ensures Balanced()
      ensures Frugal(Width.Tidy(width, init, old(Snapshot())), 1, r) && !r.SfTco?
      ensures Follows(r, SetValue(n, Left(), name, init, env, old(Snapshot())), n)
      decreases n, 0, 3
    {
      hide Eval, Width.Code, Width.Data, Width.StoreFits;
      var e, v := MlEval(init, env, n);
      if e != Ended(OK) {
        return Stopped(e);
      }
      assert SetValue(n, old(Left()), name, init, env, old(Snapshot())) == SetVar(env, name, v, Snapshot());
      var sp := |protect|;
      var st := Protect(v);
      if st != OK {
        return SfError(st);
      }
      st := envs.EnvSet(env, name, v);
      Restore(sp);
      r := if st == OK then SfValue(Undef) else SfError(st);
    }

    // closure_arity: counts the parameter symbols.
    method ClosureArity(params: Value) returns (st: Status, min: nat, variadic: bool)
      ensures Shape(params).Some? ==> st == OK && Shape(params).value == (min, variadic)
      ensures Shape(params).None? ==> st == Syntax
    {
      var cur := params;
      min, variadic := 0, false;
      while cur.Pair?
        invariant Shape(params).None? <==> Shape(cur).None?
        invariant Shape(params).Some? ==> Shape(params).value == (min + Shape(cur).value.0, Shape(cur).value.1)
        decreases cur
      {
        if !cur.car.Sym? {
          return Syntax, min, variadic;
        }
        min := min + 1;
        cur := cur.cdr;
      }
      st := if cur == Nil || cur.Sym? then OK else Syntax;
      variadic := cur.Sym?;
    }

    method MakeClosure(params: Value, body: Value, env: nat) returns (st: Status, v: Value)
      modifies this
      ensures Balanced()
      ensures Pushes(3)
      ensures Yields(st, v, NewClosure(params, body, env, old(Snapshot())))
      ensures st != OK ==> v == Undef
    {
      v := Undef;
      var min, variadic;
      st, min, variadic := ClosureArity(params);
      if st != OK {
        return;
      }
      st, v := AllocClosure(params, body, env, min, variadic);
    }

    // The closure object, its parts on the protect stack while it is allocated.
    method AllocClosure(params: Value, body: Value, env: nat, min: nat, variadic: bool) returns (st: Status, v: Value)
      modifies `protect, `peak, `refusals, `nextId
      ensures Balanced()
      ensures Pushes(3)
      ensures if st == OK
              then v == Closure(old(nextId), env, params, body, variadic, min) && nextId == old(nextId) + 1
              else st == NoMem && refusals > old(refusals) && v == Undef && nextId == old(nextId)
    {
      v := Undef;
      var sp := |protect|;
      st := Protect(params);
      if st == OK {
        st := Protect(body);
      }
      if st == OK {
        st := Protect(Env(env));
      }
      if st != OK {
        Restore(sp);
        return;
      }
      var granted := RawAlloc();
      if !granted {
        st := NoMem;
      } else {
        v := Closure(nextId, env, params, body, variadic, min);
        nextId := nextId + 1;
      }
      Restore(sp);
    }

    method HandleLambda(args: Value, env: nat, n: nat) returns (r: SfResult)
      requires evalDepth <= maxEvalDepth
      modifies this
      ensures Balanced()
      ensures Pushes(3) && !r.SfTco?
      ensures Follows(r, Lambda(args, env, old(Snapshot())), n)
    {
      var proper, length := ProperListLength(args);
      SmallLists(args);
      if !proper || length < 2 {
        return SfError(Syntax);
      }
      var params, body := args.car, args.cdr;
      if !params.Pair? && params != Nil && !params.Sym? {
        return SfError(Syntax);
      }
      var st, v := MakeClosure(params, body, env);
      r := if st == OK then SfValue(v) else SfError(st);
    }

    // Evaluates every form but the last; the last is left to the loop.
    method BeginTco(forms: Value, env: nat, n: nat) returns (r: SfResult)
      requires evalDepth <= maxEvalDepth
      modifies this, envs
      ensures Balanced()
      ensures Frugal(Width.Tidy(width, forms, old(Snapshot())), 0, r)
      ensures Follows(r, Sequence(n, Left(), forms, env, old(Snapshot())), n)
      decreases n, 1, 0
    {
      hide Eval, Width.Code, Width.Data, Width.StoreFits;
      if forms == Nil {
        return SfValue(Undef);
      }
      var proper, length := ProperListLength(forms);
      if !proper {
        return SfError(Syntax);
      }
      var cur := forms;
      while cur.cdr.Pair?
        invariant cur.Pair? && Balanced()
        invariant Lean(Width.Tidy(width, forms, old(Snapshot())), 0)
        invariant Width.Tidy(width, forms, old(Snapshot())) ==> Width.Tidy(width, cur, Snapshot())
        invariant Forms(n, Left(), cur, env, Snapshot()) == Sequence(n, old(Left()), forms, env, old(Snapshot()))
        decreases cur
      {
        Width.CodeParts(width, cur);
        var e, ignored := MlEval(cur.car, env, n);
        if e != Ended(OK) {
          return Stopped(e);
        }
        cur := cur.cdr;
      }
      Width.CodeParts(width, cur);
      r := SfTco(cur.car, env);
    }

    method HandleAndOr(args: Value, env: nat, isOr: bool, n: nat) returns (r: SfResult)
      requires evalDepth <= maxEvalDepth
      modifies this, envs
      ensures Balanced()
      ensures Frugal(Width.Tidy(width, args, old(Snapshot())), 4, r)
      ensures Follows(r, AndOr(n, Left(), isOr, args, env, old(Snapshot())), n)
      decreases n, 1
    {
      hide Eval, Width.Code, Width.Data, Width.StoreFits;
      if args == Nil {
        return SfValue(if isOr then False else True);
      }
      var proper, length := ProperListLength(args);
      if !proper {
        return SfError(Syntax);
      }
      var cur := args;
      while cur.cdr.Pair?
        invariant cur.Pair? && Balanced()
        invariant Lean(Width.Tidy(width, args, old(Snapshot())), 0)
        invariant Width.Tidy(width, args, old(Snapshot())) ==> Width.Tidy(width, cur, Snapshot())
        invariant Operands(n, Left(), isOr, cur, env, Snapshot()) ==
                AndOr(n, old(Left()), isOr, args, env, old(Snapshot()))
        decreases cur
      {
        Width.CodeParts(width, cur);
        var e, v := MlEval(cur.car, env, n);
        if e != Ended(OK) {
          return Stopped(e);
        }
        if if isOr then Truthy(v) else !Truthy(v) {
          return SfValue(v);
        }
        cur := cur.cdr;
      }
      Width.CodeParts(width, cur);
      r := SfTco(cur.car, env);
    }

    method HandleCond(args: Value, env: nat, n: nat) returns (r: SfResult)
      requires evalDepth <= maxEvalDepth
      modifies this, envs
      ensures Balanced()
      ensures Frugal(Width.Tidy(width, args, old(Snapshot())), 4, r)
      ensures Follows(r, Cond(n, Left(), args, env, old(Snapshot())), n)
      decreases n, 1, 1
    {
      hide Eval, Sequence, Width.Code, Width.Data, Width.StoreFits;
      var proper, length := ProperListLength(args);
      if !proper {
        return SfError(Syntax);
      }
      var cur := args;
      while cur.Pair?
        invariant Balanced()
        invariant Lean(Width.Tidy(width, args, old(Snapshot())), 0)
        invariant Width.Tidy(width, args, old(Snapshot())) ==> Width.Tidy(width, cur, Snapshot())
        invariant Clauses(n, Left(), cur, env, Snapshot()) == Cond(n, old(Left()), args, env, old(Snapshot()))
        decreases cur
      {
        var clause := cur.car;
        Width.CodeParts(width, cur);
        Width.CodeParts(width, clause);
        if !clause.Pair? {
          return SfError(Syntax);
        }
        var test, body := clause.car, clause.cdr;
        if test == Sym(ELSE) {
          r := BeginTco(body, env, n);
          return;
        }
        var e, v := MlEval(test, env, n);
        if e != Ended(OK) {
          return Stopped(e);
        }
        if Truthy(v) {
          if body == Nil {
            return SfValue(v);
          }
          r := BeginTco(body, env, n);
          return;
        }
        cur := cur.cdr;
      }
      r := SfValue(Undef);
    }

    // letrec: every name starts out undefined in the new frame.
    method PredefineLoop(bindings: Value, inner: nat) returns (st: Status)
      requires ProperList(bindings)
      modifies this, envs
      ensures Balanced()
      ensures Pushes(0)
      ensures Yields(st, Undef, Predefine(bindings, inner, old(Snapshot())))
      ensures st == OK && Width.StoreFits(width, old(Snapshot())) ==> Width.StoreFits(width, Snapshot())
    {
      var cur := bindings;
      while cur.Pair?
        invariant Balanced() && Pushes(0)
        invariant Width.StoreFits(width, old(Snapshot())) ==> Width.StoreFits(width, Snapshot())
        invariant Predefine(cur, inner, Snapshot()) == Predefine(bindings, inner, old(Snapshot()))
        decreases cur
      {
        var pair := cur.car;
        if !pair.Pair? || !pair.cdr.Pair? || pair.cdr.cdr != Nil || !pair.car.Sym? {
          return Syntax;
        }
        ghost var before := Snapshot();
        st := DefineInFrame(inner, pair.car.idx, Undef);
        if st != OK {
          return;
        }
        DefineKeepsNarrow(inner, pair.car.idx, Undef, before);
        cur := cur.cdr;
      }
      st := OK;
    }

    method InitsLoop(bindings: Value, initEnv: nat, inner: nat, n: nat) returns (e: Ending)
      requires evalDepth <= maxEvalDepth && ProperList(bindings)
      modifies this, envs
      ensures Balanced()
      ensures Lean(Width.Tidy(width, bindings, old(Snapshot())), 1)
      ensures Returns(e, Undef, Inits(n, Left(), bindings, initEnv, inner, old(Snapshot())))
      ensures e == Ended(OK) && Width.Tidy(width, bindings, old(Snapshot())) ==> Width.StoreFits(width, Snapshot())
      decreases n, 1, 0
    {
      hide Eval, Width.Code, Width.Data, Width.StoreFits;
      var cur := bindings;
      while cur.Pair?
        invariant Balanced()
        invariant Lean(Width.Tidy(width, bindings, old(Snapshot())), 1)
        invariant Width.Tidy(width, bindings, old(Snapshot())) ==> Width.Tidy(width, cur, Snapshot())
        invariant Inits(n, Left(), cur, initEnv, inner, Snapshot()) ==
                Inits(n, Left(), bindings, initEnv, inner, old(Snapshot()))
        decreases cur
      {
        var pair := cur.car;
        if !pair.Pair? || !pair.cdr.Pair? || pair.cdr.cdr != Nil || !pair.car.Sym? {
          return Ended(Syntax);
        }
        Width.CodeParts(width, cur);
        Width.CodeParts(width, pair);
        Width.CodeParts(width, pair.cdr);
        var v;
        e, v := MlEval(pair.cdr.car, initEnv, n);
        if e != Ended(OK) {
          return;
        }
        var st := DefineProtected(inner, pair.car.idx, v);
        if st != OK {
          return Ended(st);
        }
        cur := cur.cdr;
      }
      e := Ended(OK);
    }

    method HandleLetFamily(args: Value, env: nat, starlike: bool, recursive: bool, n: nat) returns (r: SfResult)
      requires evalDepth <= maxEvalDepth && (recursive ==> starlike)
      modifies this, envs
      ensures Balanced()
      ensures Frugal(Width.Tidy(width, args, old(Snapshot())), 4, r)
      ensures Follows(r, Let(n, Left(), KindOf(starlike, recursive), args, env, old(Snapshot())), n)
      decreases n, 1, 3
    {
      var proper, length := ProperListLength(args);
      SmallLists(args);
      if !proper || length < 2 {
        return SfError(Syntax);
      }
      var bindings, body := args.car, args.cdr;
      proper, length := ProperListLength(bindings);
      if !proper {
        return SfError(Syntax);
      }
      var st, inner := AllocFrame(env);
      if st != OK {
        return SfError(st);
      }
      var sp := |protect|;
      st := Protect(Env(inner));
      if st != OK {
        return SfError(st);
      }
      assert Let(n, old(Left()), KindOf(starlike, recursive), args, env, old(Snapshot()))
          == LetBody(n, Left(), KindOf(starlike, recursive), bindings, body, env, inner, Snapshot());
      Width.CodeParts(width, args);
      r := LetInFrame(bindings, body, env, inner, starlike, recursive, n);
      Restore(sp);
    }

    // With the new frame on the protect stack.
    method LetInFrame(bindings: Value, body: Value, env: nat, inner: nat, starlike: bool, recursive: bool, n: nat)
      returns (r: SfResult)
      requires evalDepth <= maxEvalDepth && (recursive ==> starlike) && ProperList(bindings)
      modifies this, envs
      ensures Balanced()
      ensures Frugal(Width.Tidy(width, bindings, old(Snapshot())) && Width.Code(width, body), 1, r)
      ensures Follows(r,
                      LetBody(n, Left(), KindOf(starlike, recursive), bindings, body, env, inner, old(Snapshot())), n)
      decreases n, 1, 2
    {
      hide InitsThenBody, Predefine, Width.Code, Width.StoreFits;
      if recursive {
        var st := PredefineLoop(bindings, inner);
        if st != OK {
          return SfError(st);
        }
      }
      var initEnv := if starlike then inner else if recursive then inner else env;
      assert LetBody(n, old(Left()), KindOf(starlike, recursive), bindings, body, env, inner, old(Snapshot()))
          == InitsThenBody(n, Left(), bindings, body, initEnv, inner, Snapshot());
      r := InitsAndBody(bindings, body, initEnv, inner, n);
    }

    // The initialisers, and the body up to its last form.
    method InitsAndBody(bindings: Value, body: Value, initEnv: nat, inner: nat, n: nat) returns (r: SfResult)
      requires evalDepth <= maxEvalDepth && ProperList(bindings)
      modifies this, envs
      ensures Balanced()
      ensures Frugal(Width.Tidy(width, bindings, old(Snapshot())) && Width.Code(width, body), 1, r)
      ensures Follows(r, InitsThenBody(n, Left(), bindings, body, initEnv, inner, old(Snapshot())), n)
      decreases n, 1, 1
    {
      hide Inits, Sequence, Width.Code, Width.StoreFits;
      var e := InitsLoop(bindings, initEnv, inner, n);
      if e != Ended(OK) {
        return Stopped(e);
      }
      assert InitsThenBody(n, old(Left()), bindings, body, initEnv, inner, old(Snapshot()))
          == Sequence(n, Left(), body, inner, Snapshot());
      r := BeginTco(body, inner, n);
    }

    // ------------------------------------------------------------ procedure calls

    // One argument, its value left on the protect stack.
    method EvalArg(arg: Value, env: nat, n: nat) returns (e: Ending, v: Value)
      requires evalDepth <= maxEvalDepth
      modifies this, envs
      ensures evalDepth == old(evalDepth) && refusals >= old(refusals)
      ensures protect == if e == Ended(OK) then old(protect) + [v] else old(protect)
      ensures Lean(Width.Tidy(width, arg, old(Snapshot())), 1)
      ensures Returns(e, v, Eval(n, old(Left()), arg, env, old(Snapshot())))
      ensures Width.Tidy(width, arg, old(Snapshot())) && e == Ended(OK) ==>
        Width.Data(width, v) && Width.StoreFits(width, Snapshot())
      decreases n, 0, 1
    {
      e, v := MlEval(arg, env, n);
      if e == Ended(OK) {
        var st := Protect(v);
        e := Ended(st);
      }
    }

    // Evaluates the arguments left to right.  On success their values stay on
    // the protect stack for the caller to drop.
    method EvalArgList(args: Value, env: nat, n: nat) returns (e: Ending, values: seq<Value>)
      requires evalDepth <= maxEvalDepth
      modifies this, envs
      ensures evalDepth == old(evalDepth) && refusals >= old(refusals)
      ensures protect == if e == Ended(OK) then old(protect) + values else old(protect)
      ensures Lean(Width.Tidy(width, args, old(Snapshot())) && Width.Cells(args) <= width, width)
      ensures Returns(e, values, Args(n, old(Left()), args, env, old(Snapshot())))
      ensures Width.Tidy(width, args, old(Snapshot())) && e == Ended(OK) ==>
        Width.AllData(width, values) && Width.StoreFits(width, Snapshot())
      ensures e == Ended(OK) ==> |values| == Width.Cells(args)
      decreases n, 1, 0
    {
      values := [];
      var proper, argc := ProperListLength(args);
      if !proper {
        return Ended(Syntax), values;
      }
      Width.LengthIsCells(args);
      if argc == 0 {
        return Ended(OK), values;
      }
      var granted := RawAlloc();
      if !granted {
        return Ended(NoMem), values;
      }
      e, values := ArgLoop(args, argc, env, n);
    }

    method ArgLoop(args: Value, argc: nat, env: nat, n: nat) returns (e: Ending, values: seq<Value>)
      requires evalDepth <= maxEvalDepth && ListLength(args) == Some(argc)
      modifies this, envs
      ensures evalDepth == old(evalDepth) && refusals >= old(refusals)
      ensures protect == if e == Ended(OK) then old(protect) + values else old(protect)
      ensures Lean(Width.Tidy(width, args, old(Snapshot())) && Width.Cells(args) <= width, width)
      ensures Returns(e, values, ArgList(n, old(Left()), args, env, old(Snapshot())))
      ensures Width.Tidy(width, args, old(Snapshot())) && e == Ended(OK) ==>
        Width.AllData(width, values) && Width.StoreFits(width, Snapshot())
      ensures e == Ended(OK) ==> |values| == Width.Cells(args)
      decreases n, 0, 2
    {
      hide Eval, Width.Code, Width.Data, Width.StoreFits;
      values := [];
      var argv := new Value[argc](_ => Undef);
      var i, cur := 0, args;
      Width.LengthIsCells(args);
      PrependNone(ArgList(n, Left(), args, env, Snapshot()));
      assert argv[..i] == [];
      while i < argc
        invariant 0 <= i <= argc && ListLength(cur) == Some(argc - i)
        invariant Lean(Width.Tidy(width, args, old(Snapshot())) && Width.Cells(args) <= width, width)
        invariant Width.Tidy(width, args, old(Snapshot())) ==>
          Width.Tidy(width, cur, Snapshot()) && Width.AllData(width, argv[..i])
        invariant evalDepth == old(evalDepth) && protect == old(protect) + argv[..i] && refusals >= old(refusals)
        invariant Prepend(argv[..i], ArgList(n, Left(), cur, env, Snapshot())) ==
                ArgList(n, old(Left()), args, env, old(Snapshot()))
      {
        ghost var before := argv[..i];
        Width.CodeParts(width, cur);
        PrependStep(n, Left(), before, cur, env, Snapshot());
        var v;
        e, v := EvalArg(cur.car, env, n);
        if e != Ended(OK) {
          Unprotect(i);
          return;
        }
        argv[i] := v;
        assert argv[..i + 1] == before + [v];
        cur := cur.cdr;
        i := i + 1;
      }
      values := argv[..];
      assert argv[..i] == values;
      PrependLast(values, Snapshot());
      e := Ended(OK);
    }

    // Cons up argv[start..] from its last element to its first; the slot `sp`
    // keeps the partial list rooted.
    method BuildList(argv: seq<Value>, start: nat) returns (st: Status, list: Value)
      requires start <= |argv|
      modifies this
      ensures Balanced()
      ensures Pushes(2)
      ensures Yields(st, list, NewList(argv[start..], old(Snapshot())))
    {
      list := Nil;
      var sp := |protect|;
      st := Protect(list);
      if st != OK {
        return;
      }
      var i := |argv|;
      while i > start
        invariant start <= i <= |argv| && protect == old(protect) + [list] && evalDepth == old(evalDepth)
        invariant refusals >= old(refusals) && Pushes(2)
        invariant NewList(argv[i..], old(Snapshot())) == Done(list, Snapshot())
      {
        var elem := argv[i - 1];
        st := Protect(elem);
        if st != OK {
          Restore(sp);
          return;
        }
        var granted := RawAlloc();
        if !granted {
          Unprotect(1);
          Restore(sp);
          return NoMem, list;
        }
        var cell := Pair(nextId, elem, list);
        nextId := nextId + 1;
        Unprotect(1);
        assert argv[i - 1..][1..] == argv[i..];
        list := cell;
        protect := protect[sp := list];
        i := i - 1;
      }
      Restore(sp);
      st := OK;
    }

    method PrimList(argv: seq<Value>) returns (st: Status, list: Value)
      modifies this
      ensures Balanced()
      ensures Pushes(1)
      ensures Yields(st, list, NewList(argv, old(Snapshot())))
    {
      list := Nil;
      var sp := |protect|;
      st := Protect(list);
      if st != OK {
        return;
      }
      var i := |argv|;
      while i > 0
        invariant 0 <= i <= |argv| && protect == old(protect) + [list] && evalDepth == old(evalDepth)
        invariant refusals >= old(refusals) && Pushes(1)
        invariant NewList(argv[i..], old(Snapshot())) == Done(list, Snapshot())
      {
        var granted := RawAlloc();
        if !granted {
          Restore(sp);
          return NoMem, list;
        }
        assert argv[i - 1..][1..] == argv[i..];
        list := Pair(nextId, argv[i - 1], list);
        nextId := nextId + 1;
        protect := protect[sp := list];
        i := i - 1;
      }
      Restore(sp);
      st := OK;
    }

    // Binds the positional parameters in the new frame; returns the rest of the parameter list.
    method BindPositional(params: Value, argv: seq<Value>, inner: nat) returns (st: Status, cur: Value)
      modifies this, envs
      ensures Balanced()
      ensures Pushes(0)
      ensures Yields(st, cur, Positional(params, argv, inner, old(Snapshot())))
    {
      cur := params;
      var i := 0;
      while i < |argv|
        invariant 0 <= i <= |argv| && Balanced() && Pushes(0)
        invariant Positional(cur, argv[i..], inner, Snapshot()) == Positional(params, argv, inner, old(Snapshot()))
      {
        if !cur.Pair? || !cur.car.Sym? {
          return InvalidArg, cur;
        }
        st := DefineInFrame(inner, cur.car.idx, argv[i]);
        if st != OK {
          return;
        }
        assert argv[i..][1..] == argv[i + 1..];
        cur := cur.cdr;
        i := i + 1;
      }
      st := OK;
    }

    method ApplyClosureBind(cl: Value, argv: seq<Value>) returns (st: Status, inner: nat)
      requires cl.Closure?
      modifies this, envs
      ensures Balanced()
      ensures Pushes(3)
      ensures Yields(st, inner, BindClosure(cl, argv, old(Snapshot())))
      ensures st == OK && Width.StoreFits(width, old(Snapshot())) && Width.AllData(width, argv) ==>
        Width.StoreFits(width, Snapshot())
    {
      hide Width.Code, Width.Data, Width.StoreFits;
      ghost var before := Snapshot();
      inner := 0;
      if cl.variadic {
        if |argv| < cl.arityMin {
          return Arity, inner;
        }
      } else {
        if |argv| != cl.arityMin {
          return Arity, inner;
        }
      }
      st, inner := AllocFrame(cl.env);
      if st != OK {
        return;
      }
      var sp := |protect|;
      st := Protect(Env(inner));
      if st != OK {
        return;
      }
      st := BindInFrame(cl, argv, inner);
      Restore(sp);
      if Width.StoreFits(width, before) && Width.AllData(width, argv) {
        Width.BindClosureFits(width, cl, argv, before);
      }
    }

    // With the new frame on the protect stack.
    method BindInFrame(cl: Value, argv: seq<Value>, inner: nat) returns (st: Status)
      requires cl.Closure? && cl.arityMin <= |argv|
      modifies this, envs
      ensures Balanced()
      ensures Pushes(2)
      ensures Yields(st, inner, BindParams(cl, argv, inner, old(Snapshot())))
    {
      var cur;
      st, cur := BindPositional(cl.params, argv[..cl.arityMin], inner);
      if st != OK || !cl.variadic {
        return;
      }
      if !cur.Sym? {
        return Syntax;
      }
      var list;
      st, list := BuildList(argv, cl.arityMin);
      if st != OK {
        return;
      }
      st := DefineInFrame(inner, cur.idx, list);
    }

    method CallPurePrim(op: PrimOp, argv: seq<Value>) returns (r: Arith.PrimResult)
      requires ArityOk(op, |argv|) && op != Cons && op != List
      ensures r == PurePrim(op, argv, maxEqual)
    {
      match op
      case Add => r := Arith.PrimAdd(argv);
      case Sub => r := Arith.PrimSub(argv);
      case Mul => r := Arith.PrimMul(argv);
      case Div => r := Arith.PrimDiv(argv);
      case Quotient => r := Arith.PrimQuotient(argv[0], argv[1]);
      case Remainder => r := Arith.PrimRemainder(argv[0], argv[1]);
      case Modulo => r := Arith.PrimModulo(argv[0], argv[1]);
      case NumEq | NumLt | NumGt | NumLe | NumGe => r := Arith.CmpChain(CmpOpOf(op), argv);
      case Length =>
        var proper, length := ProperListLength(argv[0]);
        r := if !proper then Arith.Err(TypeError)
             else if length > FIX_MAX then Arith.Err(Overflow) else Arith.Val(Fix(length));
      case EqualP =>
        var comparer := new Equality.Comparer(maxEqual);
        var st, equal := comparer.ValueEqual(argv[0], argv[1]);
        r := if st == OK then Arith.Val(Bool(equal)) else Arith.Err(st);
      case Car | Cdr | NullP | PairP | NumberP | SymbolP | StringP | ProcedureP | BooleanP | EqP | EqvP | Not =>
        r := PurePrim(op, argv, maxEqual);
    }

    method CallPrim(op: PrimOp, argv: seq<Value>) returns (st: Status, v: Value)
      requires ArityOk(op, |argv|)
      modifies this
      ensures Balanced()
      ensures Pushes(1)
      ensures Yields(st, v, ApplyPrim(op, argv, old(Snapshot())))
    {
      v := Undef;
      if op == Cons {
        var granted := RawAlloc();
        if !granted {
          return NoMem, v;
        }
        v := Pair(nextId, argv[0], argv[1]);
        nextId := nextId + 1;
        st := OK;
      } else if op == List {
        st, v := PrimList(argv);
      } else {
        var r := CallPurePrim(op, argv);
        match r
        case Val(w) => st, v := OK, w;
        case Err(e) => st := e;
      }
    }

    method CallProcedure(head: Value, rest: Value, env: nat, n: nat) returns (r: SfResult)
      requires evalDepth <= maxEvalDepth
      modifies this, envs
      ensures Balanced()
      ensures Frugal(Width.TidyCall(width, head, rest, old(Snapshot())), width + 4, r)
      ensures Follows(r, Call(n, Left(), head, rest, env, old(Snapshot())), n)
      decreases n, 2, 2
    {
      hide Eval, CallWith, Width.Code, Width.Data, Width.StoreFits;
      ghost var o := Call(n, Left(), head, rest, env, Snapshot());
      var e, proc := MlEval(head, env, n);
      if e != Ended(OK) {
        return Stopped(e);
      }
      r := CallProtected(proc, rest, env, n, o);
    }

    // The evaluated operator stays on the protect stack during the call.
    method CallProtected(proc: Value, rest: Value, env: nat, n: nat, ghost o: Outcome<Value>) returns (r: SfResult)
      requires evalDepth <= maxEvalDepth && o == CallWith(n, Left(), proc, rest, env, Snapshot())
      modifies this, envs
      ensures Balanced()
      ensures Frugal(Width.TidyArgs(width, proc, rest, old(Snapshot())), width + 4, r)
      ensures Follows(r, o, n)
      decreases n, 2, 1
    {
      var spProc := |protect|;
      var st := Protect(proc);
      if st != OK {
        return SfError(st);
      }
      r := CallEvaluated(proc, rest, env, n, o);
      Restore(spProc);
    }

    // The call once its operator has been evaluated and protected.
    method CallEvaluated(proc: Value, rest: Value, env: nat, n: nat, ghost o: Outcome<Value>) returns (r: SfResult)
      requires evalDepth <= maxEvalDepth && o == CallWith(n, Left(), proc, rest, env, Snapshot())
      modifies this, envs
      ensures Balanced()
      ensures Frugal(Width.TidyArgs(width, proc, rest, old(Snapshot())), width + 3, r)
      ensures Follows(r, o, n)
      decreases n, 2, 0
    {
      hide Args, Apply;
      ghost var below := protect;
      var e, argv := EvalArgList(rest, env, n);
      if e != Ended(OK) {
        return Stopped(e);
      }
      r := ApplyProcedure(proc, argv, n, o, below);
    }

    // Applies an evaluated procedure to evaluated arguments, which go off the
    // protect stack after a primitive and before the body of a closure.
    method ApplyProcedure(proc: Value, argv: seq<Value>, n: nat, ghost o: Outcome<Value>, ghost below: seq<Value>)
      returns (r: SfResult)
      requires evalDepth <= maxEvalDepth && protect == below + argv
      requires o == Apply(n, Left(), proc, argv, Snapshot())
      modifies this, envs
      ensures protect == below && evalDepth == old(evalDepth) && refusals >= old(refusals)
      ensures Frugal(Width.TidyApply(width, proc, argv, old(Snapshot())), 3, r)
      ensures Follows(r, o, n)
      decreases n, 1, 1
    {
      match proc
      case Prim(_, op) =>
        r := ApplyPrimitive(op, argv, n);
        Unprotect(|argv|);
      case Closure(_, _, _, body, _, _) =>
        var st, inner := ApplyClosureBind(proc, argv);
        Unprotect(|argv|);
        if st != OK {
          return SfError(st);
        }
        r := BeginTco(body, inner, n);
      case _ =>
        Unprotect(|argv|);
        r := SfError(TypeError);
    }

    method ApplyPrimitive(op: PrimOp, argv: seq<Value>, ghost n: nat) returns (r: SfResult)
      requires evalDepth <= maxEvalDepth
      modifies this
      ensures Balanced()
      ensures Pushes(1) && !r.SfTco?
      ensures Follows(r, if ArityOk(op, |argv|) then ApplyPrim(op, argv, old(Snapshot()))
                         else Fail(Arity, old(Snapshot())), n)
    {
      if |argv| < MinArgs(op) || (MaxArgs(op).Some? && |argv| > MaxArgs(op).value) {
        return SfError(Arity);
      }
      var st, v := CallPrim(op, argv);
      r := if st == OK then SfValue(v) else SfError(st);
    }

    // A form of a source, on the protect stack while it runs.
    method EvalHeld(form: Value, env: nat, n: nat) returns (e: Ending, v: Value)
      requires evalDepth <= maxEvalDepth
      modifies this, envs
      ensures Balanced()
      ensures Lean(Width.Tidy(width, form, old(Snapshot())), 1)
      ensures Width.Tidy(width, form, old(Snapshot())) && e == Ended(OK) ==>
        Width.Data(width, v) && Width.StoreFits(width, Snapshot())
      ensures Returns(e, v, Eval(n, old(Left()), form, env, old(Snapshot())))
    {
      hide Eval, Width.Code, Width.Data, Width.StoreFits;
      v := Undef;
      var sp := |protect|;
      var st := Protect(form);
      if st != OK {
        return Ended(st), v;
      }
      e, v := MlEval(form, env, n);
      Restore(sp);
    }

    /** The evaluations of the read-eval loop: each form protected while it runs, the first error final. */
    method EvalForms(forms: seq<Value>, env: nat, n: nat)
      returns (e: Ending, lastResult: Value, sawForm: bool)
      requires evalDepth <= maxEvalDepth
      modifies this, envs
      ensures Balanced()
      ensures Lean(Width.StoreFits(width, old(Snapshot())) && NarrowForms(forms), 1)
      ensures Returns(e, lastResult, SourceRun(n, old(Left()), forms, env, Undef, old(Snapshot())))
      ensures e == Ended(OK) ==> (sawForm <==> forms != [])
    {
      lastResult, sawForm, e := Undef, false, Ended(OK);
      var i := 0;
      while i < |forms|
        invariant 0 <= i <= |forms| && Balanced() && e == Ended(OK) && (sawForm <==> i > 0)
        invariant Lean(Width.StoreFits(width, old(Snapshot())) && NarrowForms(forms), 1)
        invariant Width.StoreFits(width, old(Snapshot())) && NarrowForms(forms) ==> Width.StoreFits(width, Snapshot())
        invariant SourceRun(n, Left(), forms[i..], env, lastResult, Snapshot()) ==
                  SourceRun(n, old(Left()), forms, env, Undef, old(Snapshot()))
      {
        assert forms[i..][1..] == forms[i + 1..];
        var v;
        e, v := EvalHeld(forms[i], env, n);
        if e != Ended(OK) {
          return;
        }
        lastResult, sawForm, i := v, true, i + 1;
      }
    }
  }

  // A source's forms, in order, in one environment: the last value, or the first error.
  function SourceRun(n: nat, l: Limit, forms: seq<Value>, env: nat, last: Value, s: Store): Outcome<Value>
    decreases |forms|
  {
    if forms == [] then Done(last, s)
    else
      var o := Eval(n, l, forms[0], env, s);
      if o.Done? then SourceRun(n, l, forms[1..], env, o.value, o.store) else o
  }

  // The slots that evaluations nested below depth `depth` can use, with argument lists of at most `width`.
  ghost function Space(width: nat, max: nat, depth: nat): nat
    decreases max - depth
  {
    if depth >= max then 0 else width + 8 + Space(width, max, depth + 1)
  }

  function KindOf(starlike: bool, recursive: bool): LetKind {
    if recursive then Recursive else if starlike then Sequential else Parallel
  }

  // The outcome of an argument list whose first values are already known.
  ghost function Prepend(vs: seq<Value>, o: Outcome<seq<Value>>): Outcome<seq<Value>> {
    if o.Done? then Done(vs + o.value, o.store) else o
  }

  lemma PrependNone(o: Outcome<seq<Value>>)
    ensures Prepend([], o) == o
  {
    if o.Done? {
      assert [] + o.value == o.value;
    }
  }

  lemma PrependLast(vs: seq<Value>, s: Store)
    ensures Prepend(vs, Done([], s)) == Done(vs, s)
  {
    assert vs + [] == vs;
  }

  // One turn of the argument loop.
  lemma PrependStep(n: nat, l: Limit, vs: seq<Value>, args: Value, env: nat, s: Store)
    requires args.Pair?
    ensures Prepend(vs, ArgList(n, l, args, env, s)) ==
            match Eval(n, l, args.car, env, s)
            case Done(v, s1) => Prepend(vs + [v], ArgList(n, l, args.cdr, env, s1))
            case Fail(st, s1) => Fail(st, s1)
            case OutOfFuel => OutOfFuel
  {
    var o := Eval(n, l, args.car, env, s);
    if o.Done? {
      var rest := ArgList(n, l, args.cdr, env, o.store);
      assert ArgList(n, l, args, env, s) == ArgRest(n, l, o.value, args.cdr, env, o.store);
      if rest.Done? {
        assert vs + ([o.value] + rest.value) == (vs + [o.value]) + rest.value;
      }
    }
  }
}
