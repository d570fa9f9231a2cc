/**
 * More fuel, or a higher depth limit, never changes the outcome of a run that
 * had enough of both.
 */
module Stability {
  import opened Basics
  import opened Terms
  import opened Prims
  import opened Semantics

  // Two limits, and whether they are the same one.
  ghost predicate Above(l: Limit, l': Limit, same: bool) {
    && (same ==> l == l')
    && (l'.Unlimited? || (l.Finite? && l.left <= l'.left))
  }

  // The run came to an end, and if the limit is to be raised, not by hitting it.
  ghost predicate Settled<T>(r: Outcome<T>, same: bool) {
    !r.OutOfFuel? && (same || !(r.Fail? && r.st == EvalDepth))
  }

  /** A nested evaluation that settled keeps its outcome under more fuel and a higher limit. */
  lemma {:induction false} EvalStable(n: nat, l: Limit, n': nat, l': Limit, same: bool, form: Value, env: nat, s: Store)
    requires n <= n' && Above(l, l', same) && Settled(Eval(n, l, form, env, s), same)
    ensures Eval(n', l', form, env, s) == Eval(n, l, form, env, s)
    decreases n, 0, form
  {
    if l != Finite(0) {
      RunStable(n - 1, Deeper(l), n' - 1, Deeper(l'), same, form, env, s);
    }
  }

  lemma {:induction false} TailStable(n: nat, l: Limit, n': nat, l': Limit, same: bool, form: Value, env: nat, s: Store)
    requires n <= n' && Above(l, l', same) && Settled(Tail(n, l, form, env, s), same)
    ensures Tail(n', l', form, env, s) == Tail(n, l, form, env, s)
    decreases n, 0, form
  {
    RunStable(n - 1, l, n' - 1, l', same, form, env, s);
  }

  lemma {:induction false} RunStable(n: nat, l: Limit, n': nat, l': Limit, same: bool, form: Value, env: nat, s: Store)
    requires n <= n' && Above(l, l', same) && Settled(Run(n, l, form, env, s), same)
    ensures Run(n', l', form, env, s) == Run(n, l, form, env, s)
    decreases n, 4, form
  {
    if form.Pair? {
      if form.car.Sym? && form.car.idx <= COND {
        SpecialStable(n, l, n', l', same, form.car.idx, form.cdr, env, s);
      } else {
        CallStable(n, l, n', l', same, form.car, form.cdr, env, s);
      }
    }
  }

  lemma {:induction false} SpecialStable(n: nat, l: Limit, n': nat, l': Limit, same: bool, keyword: nat,
                                         args: Value, env: nat, s: Store)
    requires keyword <= COND
    requires n <= n' && Above(l, l', same) && Settled(Special(n, l, keyword, args, env, s), same)
    ensures Special(n', l', keyword, args, env, s) == Special(n, l, keyword, args, env, s)
    decreases n, 3, args
  {
    if keyword == QUOTE || keyword == LAMBDA {
    } else if keyword == IF {
      IfStable(n, l, n', l', same, args, env, s);
    } else if keyword == DEFINE {
      DefineStable(n, l, n', l', same, args, env, s);
    } else if keyword == SET {
      SetStable(n, l, n', l', same, args, env, s);
    } else if keyword == LET {
      LetStable(n, l, n', l', same, Parallel, args, env, s);
    } else if keyword == LET_STAR {
      LetStable(n, l, n', l', same, Sequential, args, env, s);
    } else if keyword == LETREC {
      LetStable(n, l, n', l', same, Recursive, args, env, s);
    } else if keyword == BEGIN {
      SequenceStable(n, l, n', l', same, args, env, s);
    } else if keyword == AND {
      AndOrStable(n, l, n', l', same, false, args, env, s);
    } else if keyword == OR {
      AndOrStable(n, l, n', l', same, true, args, env, s);
    } else {
      CondStable(n, l, n', l', same, args, env, s);
    }
  }

  lemma {:induction false} IfStable(n: nat, l: Limit, n': nat, l': Limit, same: bool, args: Value, env: nat, s: Store)
    requires n <= n' && Above(l, l', same) && Settled(If(n, l, args, env, s), same)
    ensures If(n', l', args, env, s) == If(n, l, args, env, s)
    decreases n, 2, args
  {
    if args.Pair? && args.cdr.Pair? && (args.cdr.cdr == Nil || Single(args.cdr.cdr)) {
      TestStable(n, l, n', l', same, args.car, args.cdr, env, s);
    }
  }

  lemma {:induction false} TestStable(n: nat, l: Limit, n': nat, l': Limit, same: bool, test: Value,
                                      branches: Value, env: nat, s: Store)
    requires branches.Pair?
    requires n <= n' && Above(l, l', same) && Settled(Test(n, l, test, branches, env, s), same)
    ensures Test(n', l', test, branches, env, s) == Test(n, l, test, branches, env, s)
    decreases n, 1, test
  {
    EvalStable(n, l, n', l', same, test, env, s);
    var r := Eval(n, l, test, env, s);
    if r.Done? {
      assert Settled(Branch(n, l, r.value, branches, env, r.store), same);
      if Truthy(r.value) {
        TailStable(n, l, n', l', same, branches.car, env, r.store);
      } else if branches.cdr.Pair? {
        TailStable(n, l, n', l', same, branches.cdr.car, env, r.store);
      }
    }
  }

  lemma {:induction false} DefineStable(n: nat, l: Limit, n': nat, l': Limit, same: bool, args: Value, env: nat,
                                        s: Store)
    requires n <= n' && Above(l, l', same) && Settled(DefineForm(n, l, args, env, s), same)
    ensures DefineForm(n', l', args, env, s) == DefineForm(n, l, args, env, s)
    decreases n, 2, args
  {
    if args.Pair? && args.car.Sym? && Single(args.cdr) {
      assert Settled(DefineValue(n, l, args.car.idx, args.cdr.car, env, s), same);
      EvalStable(n, l, n', l', same, args.cdr.car, env, s);
    }
  }

  lemma {:induction false} SetStable(n: nat, l: Limit, n': nat, l': Limit, same: bool, args: Value, env: nat, s: Store)
    requires n <= n' && Above(l, l', same) && Settled(SetForm(n, l, args, env, s), same)
    ensures SetForm(n', l', args, env, s) == SetForm(n, l, args, env, s)
    decreases n, 2, args
  {
    if args.Pair? && args.car.Sym? && Single(args.cdr) {
      assert Settled(SetValue(n, l, args.car.idx, args.cdr.car, env, s), same);
      EvalStable(n, l, n', l', same, args.cdr.car, env, s);
    }
  }

  lemma {:induction false} SequenceStable(n: nat, l: Limit, n': nat, l': Limit, same: bool, forms: Value, env: nat,
                                          s: Store)
    requires n <= n' && Above(l, l', same) && Settled(Sequence(n, l, forms, env, s), same)
    ensures Sequence(n', l', forms, env, s) == Sequence(n, l, forms, env, s)
    decreases n, 1, forms, 1
  {
    if forms != Nil && ProperList(forms) {
      FormsStable(n, l, n', l', same, forms, env, s);
    }
  }

  lemma {:induction false} FormsStable(n: nat, l: Limit, n': nat, l': Limit, same: bool, forms: Value, env: nat,
                                       s: Store)
    requires forms.Pair?
    requires n <= n' && Above(l, l', same) && Settled(Forms(n, l, forms, env, s), same)
    ensures Forms(n', l', forms, env, s) == Forms(n, l, forms, env, s)
    decreases n, 1, forms, 0
  {
    if forms.cdr.Pair? {
      EvalStable(n, l, n', l', same, forms.car, env, s);
      var r := Eval(n, l, forms.car, env, s);
      if r.Done? {
        FormsStable(n, l, n', l', same, forms.cdr, env, r.store);
      }
    } else {
      TailStable(n, l, n', l', same, forms.car, env, s);
    }
  }

  lemma {:induction false} AndOrStable(n: nat, l: Limit, n': nat, l': Limit, same: bool, isOr: bool, args: Value,
                                       env: nat, s: Store)
    requires n <= n' && Above(l, l', same) && Settled(AndOr(n, l, isOr, args, env, s), same)
    ensures AndOr(n', l', isOr, args, env, s) == AndOr(n, l, isOr, args, env, s)
    decreases n, 2, args, 1
  {
    if args != Nil && ProperList(args) {
      OperandsStable(n, l, n', l', same, isOr, args, env, s);
    }
  }

  lemma {:induction false} OperandsStable(n: nat, l: Limit, n': nat, l': Limit, same: bool, isOr: bool, args: Value,
                                          env: nat, s: Store)
    requires args.Pair?
    requires n <= n' && Above(l, l', same) && Settled(Operands(n, l, isOr, args, env, s), same)
    ensures Operands(n', l', isOr, args, env, s) == Operands(n, l, isOr, args, env, s)
    decreases n, 2, args, 0
  {
    if args.cdr.Pair? {
      EvalStable(n, l, n', l', same, args.car, env, s);
      var r := Eval(n, l, args.car, env, s);
      if r.Done? && Truthy(r.value) != isOr {
        OperandsStable(n, l, n', l', same, isOr, args.cdr, env, r.store);
      }
    } else {
      TailStable(n, l, n', l', same, args.car, env, s);
    }
  }

  lemma {:induction false} CondStable(n: nat, l: Limit, n': nat, l': Limit, same: bool, clauses: Value, env: nat,
                                      s: Store)
    requires n <= n' && Above(l, l', same) && Settled(Cond(n, l, clauses, env, s), same)
    ensures Cond(n', l', clauses, env, s) == Cond(n, l, clauses, env, s)
    decreases n, 2, clauses, 1
  {
    if ProperList(clauses) {
      ClausesStable(n, l, n', l', same, clauses, env, s);
    }
  }

  lemma {:induction false} ClausesStable(n: nat, l: Limit, n': nat, l': Limit, same: bool, clauses: Value, env: nat,
                                         s: Store)
    requires n <= n' && Above(l, l', same) && Settled(Clauses(n, l, clauses, env, s), same)
    ensures Clauses(n', l', clauses, env, s) == Clauses(n, l, clauses, env, s)
    decreases n, 2, clauses, 0
  {
    if clauses.Pair? && clauses.car.Pair? {
      if clauses.car.car == Sym(ELSE) {
        SequenceStable(n, l, n', l', same, clauses.car.cdr, env, s);
      } else {
        EvalStable(n, l, n', l', same, clauses.car.car, env, s);
        var r := Eval(n, l, clauses.car.car, env, s);
        if r.Done? {
          ClauseRestStable(n, l, n', l', same, r.value, clauses, env, r.store);
        }
      }
    }
  }

  lemma {:induction false} ClauseRestStable(n: nat, l: Limit, n': nat, l': Limit, same: bool, v: Value,
                                            clauses: Value, env: nat, s: Store)
    requires clauses.Pair? && clauses.car.Pair?
    requires n <= n' && Above(l, l', same) && Settled(ClauseRest(n, l, v, clauses, env, s), same)
    ensures ClauseRest(n', l', v, clauses, env, s) == ClauseRest(n, l, v, clauses, env, s)
    decreases n, 2, clauses.cdr, 1
  {
    if !Truthy(v) {
      ClausesStable(n, l, n', l', same, clauses.cdr, env, s);
    } else if clauses.car.cdr != Nil {
      SequenceStable(n, l, n', l', same, clauses.car.cdr, env, s);
    }
  }

  lemma {:induction false} LetStable(n: nat, l: Limit, n': nat, l': Limit, same: bool, kind: LetKind, args: Value,
                                     env: nat, s: Store)
    requires n <= n' && Above(l, l', same) && Settled(Let(n, l, kind, args, env, s), same)
    ensures Let(n', l', kind, args, env, s) == Let(n, l, kind, args, env, s)
    decreases n, 2, args
  {
    if args.Pair? && IsBody(args.cdr) && ProperList(args.car) {
      LetBodyStable(n, l, n', l', same, kind, args.car, args.cdr, env, |s.frames|, NewFrame(env, s));
    }
  }

  lemma {:induction false} LetBodyStable(n: nat, l: Limit, n': nat, l': Limit, same: bool, kind: LetKind,
                                         bindings: Value, body: Value,
                                         env: nat, inner: nat, s: Store)
    requires n <= n' && Above(l, l', same) && Settled(LetBody(n, l, kind, bindings, body, env, inner, s), same)
    ensures LetBody(n', l', kind, bindings, body, env, inner, s) == LetBody(n, l, kind, bindings, body, env, inner, s)
    decreases n, 2, bindings, 2
  {
    var r := if kind == Recursive then Predefine(bindings, inner, s) else Done(Undef, s);
    if r.Done? {
      var initEnv := if kind == Parallel then env else inner;
      assert Settled(InitsThenBody(n, l, bindings, body, initEnv, inner, r.store), same);
      InitsStable(n, l, n', l', same, bindings, initEnv, inner, r.store);
      var o := Inits(n, l, bindings, initEnv, inner, r.store);
      if o.Done? {
        SequenceStable(n, l, n', l', same, body, inner, o.store);
      }
    }
  }

  lemma {:induction false} InitsStable(n: nat, l: Limit, n': nat, l': Limit, same: bool, bindings: Value,
                                       initEnv: nat, inner: nat, s: Store)
    requires n <= n' && Above(l, l', same) && Settled(Inits(n, l, bindings, initEnv, inner, s), same)
    ensures Inits(n', l', bindings, initEnv, inner, s) == Inits(n, l, bindings, initEnv, inner, s)
    decreases n, 1, bindings
  {
    if bindings.Pair? && IsBinding(bindings.car) {
      InitStable(n, l, n', l', same, bindings.car, initEnv, inner, s);
      var r := Init(n, l, bindings.car, initEnv, inner, s);
      if r.Done? {
        InitsStable(n, l, n', l', same, bindings.cdr, initEnv, inner, r.store);
      }
    }
  }

  lemma {:induction false} InitStable(n: nat, l: Limit, n': nat, l': Limit, same: bool, b: Value, initEnv: nat,
                                      inner: nat, s: Store)
    requires IsBinding(b)
    requires n <= n' && Above(l, l', same) && Settled(Init(n, l, b, initEnv, inner, s), same)
    ensures Init(n', l', b, initEnv, inner, s) == Init(n, l, b, initEnv, inner, s)
    decreases n, 1, b
  {
    EvalStable(n, l, n', l', same, b.cdr.car, initEnv, s);
  }

  lemma {:induction false} CallStable(n: nat, l: Limit, n': nat, l': Limit, same: bool, head: Value, args: Value,
                                      env: nat, s: Store)
    requires n <= n' && Above(l, l', same) && Settled(Call(n, l, head, args, env, s), same)
    ensures Call(n', l', head, args, env, s) == Call(n, l, head, args, env, s)
    decreases n, 3, args, 1
  {
    hide Eval, CallWith;
    EvalStable(n, l, n', l', same, head, env, s);
    var r := Eval(n, l, head, env, s);
    if r.Done? {
      CallWithStable(n, l, n', l', same, r.value, args, env, r.store);
    }
  }

  lemma {:induction false} CallWithStable(n: nat, l: Limit, n': nat, l': Limit, same: bool, proc: Value,
                                          args: Value, env: nat, s: Store)
    requires n <= n' && Above(l, l', same) && Settled(CallWith(n, l, proc, args, env, s), same)
    ensures CallWith(n', l', proc, args, env, s) == CallWith(n, l, proc, args, env, s)
    decreases n, 3, args, 0
  {
    hide Args, Apply;
    ArgsStable(n, l, n', l', same, args, env, s);
    var r := Args(n, l, args, env, s);
    if r.Done? {
      ApplyStable(n, l, n', l', same, proc, r.value, r.store);
    }
  }

  lemma {:induction false} ArgsStable(n: nat, l: Limit, n': nat, l': Limit, same: bool, args: Value, env: nat, s: Store)
    requires n <= n' && Above(l, l', same) && Settled(Args(n, l, args, env, s), same)
    ensures Args(n', l', args, env, s) == Args(n, l, args, env, s)
    decreases n, 1, args, 1
  {
    if ProperList(args) {
      ArgListStable(n, l, n', l', same, args, env, s);
    }
  }

  lemma {:induction false} ArgListStable(n: nat, l: Limit, n': nat, l': Limit, same: bool, args: Value, env: nat,
                                         s: Store)
    requires n <= n' && Above(l, l', same) && Settled(ArgList(n, l, args, env, s), same)
    ensures ArgList(n', l', args, env, s) == ArgList(n, l, args, env, s)
    decreases n, 1, args, 0
  {
    if args.Pair? {
      EvalStable(n, l, n', l', same, args.car, env, s);
      var r := Eval(n, l, args.car, env, s);
      if r.Done? {
        assert Settled(ArgRest(n, l, r.value, args.cdr, env, r.store), same);
        ArgListStable(n, l, n', l', same, args.cdr, env, r.store);
      }
    }
  }

  lemma {:induction false} ApplyStable(n: nat, l: Limit, n': nat, l': Limit, same: bool, proc: Value,
                                       argv: seq<Value>, s: Store)
    requires n <= n' && Above(l, l', same) && Settled(Apply(n, l, proc, argv, s), same)
    ensures Apply(n', l', proc, argv, s) == Apply(n, l, proc, argv, s)
    decreases n, 2
  {
    if proc.Closure? {
      var r := BindClosure(proc, argv, s);
      if r.Done? {
        SequenceStable(n, l, n', l', same, proc.body, r.value, r.store);
      }
    }
  }

  /** The depth limit only ever cuts a run short: any other outcome is that of every higher limit, and of none. */
  lemma DepthLimitIsTransparent(n: nat, d: nat, d': nat, form: Value, env: nat, s: Store)
    requires d <= d'
    requires Settled(Eval(n, Finite(d), form, env, s), false)
    ensures Eval(n, Finite(d'), form, env, s) == Eval(n, Finite(d), form, env, s)
    ensures Eval(n, Unlimited, form, env, s) == Eval(n, Finite(d), form, env, s)
  {
    EvalStable(n, Finite(d), n, Finite(d'), false, form, env, s);
    EvalStable(n, Finite(d), n, Unlimited, false, form, env, s);
  }

  // The outcome `r` of evaluating `form` in place, with whatever fuel it takes.
  ghost predicate Runs(l: Limit, form: Value, env: nat, s: Store, r: Outcome<Value>) {
    !r.OutOfFuel? && exists n :: Run(n, l, form, env, s) == r
  }

  /** Evaluation is deterministic: at most one outcome, whatever the fuel. */
  lemma RunsIsFunctional(l: Limit, form: Value, env: nat, s: Store, r: Outcome<Value>, r': Outcome<Value>)
    requires Runs(l, form, env, s, r) && Runs(l, form, env, s, r')
    ensures r == r'
  {
    var n :| Run(n, l, form, env, s) == r;
    var n' :| Run(n', l, form, env, s) == r';
    if n <= n' {
      RunStable(n, l, n', l, true, form, env, s);
    } else {
      RunStable(n', l, n, l, true, form, env, s);
    }
  }
}
