/**
 * How long the lists in a program are: evaluation never runs a form that is
 * wider than the forms and closures it started from.
 */
module Width {
  import opened Basics
  import opened Terms
  import opened Frames
  import opened Prims
  import opened Semantics
  import Arith
  import Renaming

  // Cells along cdr.
  function Cells(v: Value): nat {
    if v.Pair? then 1 + Cells(v.cdr) else 0
  }

  // As code: no list in `v`, or in the body of a closure in it, has more than
  // `w` elements after the first.
  predicate Code(w: nat, v: Value) {
    match v
    case Pair(_, car, cdr) => Cells(v) <= w + 1 && Code(w, car) && Code(w, cdr)
    case Closure(_, _, _, body, _, _) => Code(w, body)
    case _ => true
  }

  // As data: lists may be of any length, closures are narrow.
  predicate Data(w: nat, v: Value) {
    match v
    case Pair(_, car, cdr) => Data(w, car) && Data(w, cdr)
    case Closure(_, _, _, body, _, _) => Code(w, body)
    case _ => true
  }

  predicate AllData(w: nat, vs: seq<Value>) {
    forall v | v in vs :: Data(w, v)
  }

  ghost predicate StoreFits(w: nat, s: Store) {
    forall e | 0 <= e < |s.frames| :: AllData(w, s.frames[e].values)
  }

  // A form to evaluate, a call by its parts, and a call whose operator has been evaluated.
  ghost predicate Tidy(w: nat, form: Value, s: Store) {
    Code(w, form) && StoreFits(w, s)
  }

  ghost predicate TidyCall(w: nat, head: Value, rest: Value, s: Store) {
    Code(w, head) && Cells(rest) <= w && Tidy(w, rest, s)
  }

  ghost predicate TidyArgs(w: nat, proc: Value, rest: Value, s: Store) {
    Data(w, proc) && Cells(rest) <= w && Tidy(w, rest, s)
  }

  ghost predicate TidyApply(w: nat, proc: Value, argv: seq<Value>, s: Store) {
    Data(w, proc) && AllData(w, argv) && StoreFits(w, s)
  }

  // What an evaluation leaves: narrow values and a narrow store.
  ghost predicate Fits(w: nat, o: Outcome<Value>) {
    var fits := o.Done? ==> Data(w, o.value) && StoreFits(w, o.store);
    fits
  }

  ghost predicate AllFit(w: nat, o: Outcome<seq<Value>>) {
    var fits := o.Done? ==> AllData(w, o.value) && StoreFits(w, o.store);
    fits
  }

  lemma CodeParts(w: nat, v: Value)
    ensures v.Pair? && Code(w, v) ==> Code(w, v.car) && Code(w, v.cdr) && Cells(v.cdr) <= w
    ensures v.Closure? && Data(w, v) ==> Code(w, v.body)
  {
  }

  lemma {:induction false} CodeIsData(w: nat, v: Value)
    requires Code(w, v)
    ensures Data(w, v)
  {
    if v.Pair? {
      CodeIsData(w, v.car);
      CodeIsData(w, v.cdr);
    }
  }

  lemma {:induction false} LengthIsCells(v: Value)
    ensures ProperList(v) ==> ListLength(v) == Some(Cells(v))
  {
    if v.Pair? {
      LengthIsCells(v.cdr);
    }
  }

  // ---------------------------------------------------------------- the store

  lemma LookupFits(w: nat, s: Store, env: nat, name: nat)
    requires StoreFits(w, s)
    ensures Lookup(s.frames, env, name).Some? ==> Data(w, Lookup(s.frames, env, name).value)
  {
    var h := Holder(s.frames, env, name);
    if h.Some? {
      assert AllData(w, s.frames[h.value].values);
    }
  }

  lemma DefineFits(w: nat, s: Store, env: nat, name: nat, v: Value)
    requires StoreFits(w, s) && Data(w, v) && env < |s.frames|
    ensures StoreFits(w, s.(frames := Define(s.frames, env, name, v)))
  {
    var f, f' := s.frames[env], DefineIn(s.frames[env], name, v);
    assert AllData(w, f.values);
    forall x | x in f'.values ensures Data(w, x) {
      assert x in f.values || x == v;
    }
  }

  lemma DefineVarFits(w: nat, env: nat, name: nat, v: Value, s: Store)
    requires StoreFits(w, s) && Data(w, v)
    ensures Fits(w, DefineVar(env, name, v, s))
  {
    if env < |s.frames| {
      DefineFits(w, s, env, name, v);
    }
  }

  lemma SetVarFits(w: nat, env: nat, name: nat, v: Value, s: Store)
    requires StoreFits(w, s) && Data(w, v)
    ensures Fits(w, SetVar(env, name, v, s))
  {
    var h := Holder(s.frames, env, name);
    if h.Some? {
      DefineFits(w, s, h.value, name, v);
    }
  }

  lemma NewFrameFits(w: nat, parent: nat, s: Store)
    requires StoreFits(w, s)
    ensures StoreFits(w, NewFrame(parent, s))
  {
  }

  lemma NewClosureFits(w: nat, params: Value, body: Value, env: nat, s: Store)
    requires StoreFits(w, s) && Code(w, body)
    ensures Fits(w, NewClosure(params, body, env, s))
  {
  }

  lemma {:induction false} NewListFits(w: nat, argv: seq<Value>, s: Store)
    requires StoreFits(w, s) && AllData(w, argv)
    ensures Fits(w, NewList(argv, s))
  {
    if argv != [] {
      assert AllData(w, argv[1..]);
      NewListFits(w, argv[1..], s);
      var rest := NewList(argv[1..], s);
      assert Data(w, argv[0]) && Data(w, rest.value);
      var v := NewList(argv, s).value;
      assert v == Pair(rest.store.nextId, argv[0], rest.value);
      assert Data(w, v);
    }
  }

  lemma ApplyPrimFits(w: nat, op: PrimOp, argv: seq<Value>, s: Store)
    requires ArityOk(op, |argv|) && StoreFits(w, s) && AllData(w, argv)
    ensures Fits(w, ApplyPrim(op, argv, s))
  {
    if op == Cons {
      assert argv[0] in argv && argv[1] in argv;
    } else if op == List {
      NewListFits(w, argv, s);
    } else {
      PurePrimFits(w, op, argv, s.maxEqual);
    }
  }

  // Only car and cdr return more than a number or a truth value, and what they return is part of a value.
  lemma PurePrimFits(w: nat, op: PrimOp, argv: seq<Value>, max: nat)
    requires ArityOk(op, |argv|) && op != Cons && op != List && AllData(w, argv)
    ensures var r := PurePrim(op, argv, max); r.Val? ==> Data(w, r.v)
  {
    if Renaming.Numeric(op) {
      Renaming.NumericResultIsPlain(op, argv, max);
    } else {
      assert argv[0] in argv;
    }
  }

  // ---------------------------------------------------------------- procedures

  lemma {:induction false} PositionalFits(w: nat, params: Value, argv: seq<Value>, inner: nat, s: Store)
    requires StoreFits(w, s) && AllData(w, argv)
    ensures var o := Positional(params, argv, inner, s); o.Done? ==> StoreFits(w, o.store)
    decreases |argv|
  {
    if argv != [] && params.Pair? && params.car.Sym? {
      DefineVarFits(w, inner, params.car.idx, argv[0], s);
      var o := DefineVar(inner, params.car.idx, argv[0], s);
      if o.Done? {
        PositionalFits(w, params.cdr, argv[1..], inner, o.store);
      }
    }
  }

  lemma BindClosureFits(w: nat, proc: Value, argv: seq<Value>, s: Store)
    requires proc.Closure? && StoreFits(w, s) && AllData(w, argv)
    ensures var o := BindClosure(proc, argv, s); o.Done? ==> StoreFits(w, o.store)
  {
    var k, s0, inner := proc.arityMin, NewFrame(proc.env, s), |s.frames|;
    if k <= |argv| {
      PositionalFits(w, proc.params, argv[..k], inner, s0);
      var o := Positional(proc.params, argv[..k], inner, s0);
      if o.Done? && proc.variadic && o.value.Sym? {
        NewListFits(w, argv[k..], o.store);
        var list := NewList(argv[k..], o.store);
        DefineVarFits(w, inner, o.value.idx, list.value, list.store);
      }
    }
  }

  lemma {:induction false} PredefineFits(w: nat, bindings: Value, inner: nat, s: Store)
    requires StoreFits(w, s)
    ensures Fits(w, Predefine(bindings, inner, s))
    decreases bindings
  {
    if bindings.Pair? && IsBinding(bindings.car) {
      DefineVarFits(w, inner, bindings.car.car.idx, Undef, s);
      var o := DefineVar(inner, bindings.car.car.idx, Undef, s);
      if o.Done? {
        PredefineFits(w, bindings.cdr, inner, o.store);
      }
    }
  }

  // ---------------------------------------------------------------- evaluation

  /** Narrow code over a narrow store gives narrow values and a narrow store. */
  lemma {:induction false} EvalFits(w: nat, n: nat, l: Limit, form: Value, env: nat, s: Store)
    requires Code(w, form) && StoreFits(w, s)
    ensures Fits(w, Eval(n, l, form, env, s))
    decreases n, 0, form
  {
    if n > 0 && l != Finite(0) {
      RunFits(w, n - 1, Deeper(l), form, env, s);
    }
  }

  lemma {:induction false} TailFits(w: nat, n: nat, l: Limit, form: Value, env: nat, s: Store)
    requires Code(w, form) && StoreFits(w, s)
    ensures Fits(w, Tail(n, l, form, env, s))
    decreases n, 0, form
  {
    if n > 0 {
      RunFits(w, n - 1, l, form, env, s);
    }
  }

  lemma {:induction false} RunFits(w: nat, n: nat, l: Limit, form: Value, env: nat, s: Store)
    requires Code(w, form) && StoreFits(w, s)
    ensures Fits(w, Run(n, l, form, env, s))
    decreases n, 4, form
  {
    if form.Sym? {
      LookupFits(w, s, env, form.idx);
    } else if !form.Pair? {
      CodeIsData(w, form);
    } else if form.car.Sym? && form.car.idx <= COND {
      SpecialFits(w, n, l, form.car.idx, form.cdr, env, s);
    } else {
      CallFits(w, n, l, form.car, form.cdr, env, s);
    }
  }

  lemma {:induction false} SpecialFits(w: nat, n: nat, l: Limit, keyword: nat, args: Value, env: nat, s: Store)
    requires keyword <= COND && Code(w, args) && StoreFits(w, s)
    ensures Fits(w, Special(n, l, keyword, args, env, s))
    decreases n, 3, args
  {
    if keyword == QUOTE {
      CodeIsData(w, args);
    } else if keyword == IF {
      IfFits(w, n, l, args, env, s);
    } else if keyword == DEFINE {
      DefineFormFits(w, n, l, args, env, s);
    } else if keyword == LAMBDA {
    } else if keyword == SET {
      SetFormFits(w, n, l, args, env, s);
    } else if keyword == LET {
      LetFits(w, n, l, Parallel, args, env, s);
    } else if keyword == LET_STAR {
      LetFits(w, n, l, Sequential, args, env, s);
    } else if keyword == LETREC {
      LetFits(w, n, l, Recursive, args, env, s);
    } else if keyword == BEGIN {
      SequenceFits(w, n, l, args, env, s);
    } else if keyword == AND {
      AndOrFits(w, n, l, false, args, env, s);
    } else if keyword == OR {
      AndOrFits(w, n, l, true, args, env, s);
    } else {
      CondFits(w, n, l, args, env, s);
    }
  }

  lemma {:induction false} IfFits(w: nat, n: nat, l: Limit, args: Value, env: nat, s: Store)
    requires Code(w, args) && StoreFits(w, s)
    ensures Fits(w, If(n, l, args, env, s))
    decreases n, 2, args
  {
    if args.Pair? && args.cdr.Pair? && (args.cdr.cdr == Nil || Single(args.cdr.cdr)) {
      EvalFits(w, n, l, args.car, env, s);
      var o := Eval(n, l, args.car, env, s);
      if o.Done? {
        BranchFits(w, n, l, o.value, args.cdr, env, o.store);
      }
    }
  }

  lemma {:induction false} BranchFits(w: nat, n: nat, l: Limit, v: Value, branches: Value, env: nat, s: Store)
    requires branches.Pair? && Code(w, branches) && StoreFits(w, s)
    ensures Fits(w, Branch(n, l, v, branches, env, s))
    decreases n, 0, branches
  {
    if Truthy(v) {
      TailFits(w, n, l, branches.car, env, s);
    } else if branches.cdr.Pair? {
      TailFits(w, n, l, branches.cdr.car, env, s);
    }
  }

  lemma {:induction false} DefineFormFits(w: nat, n: nat, l: Limit, args: Value, env: nat, s: Store)
    requires Code(w, args) && StoreFits(w, s)
    ensures Fits(w, DefineForm(n, l, args, env, s))
    decreases n, 2, args
  {
    if args.Pair? && args.car.Sym? && Single(args.cdr) {
      EvalFits(w, n, l, args.cdr.car, env, s);
      var o := Eval(n, l, args.cdr.car, env, s);
      if o.Done? {
        DefineVarFits(w, env, args.car.idx, o.value, o.store);
      }
    } else if args.Pair? && args.car.Pair? && args.car.car.Sym? {
      DefineProcedureFits(w, args.car.car.idx, args.car.cdr, args.cdr, env, s);
    }
  }

  lemma DefineProcedureFits(w: nat, name: nat, params: Value, body: Value, env: nat, s: Store)
    requires Code(w, body) && StoreFits(w, s)
    ensures Fits(w, DefineProcedure(name, params, body, env, s))
  {
    NewClosureFits(w, params, body, env, s);
    var o := NewClosure(params, body, env, s);
    if o.Done? {
      DefineVarFits(w, env, name, o.value, o.store);
    }
  }

  lemma {:induction false} SetFormFits(w: nat, n: nat, l: Limit, args: Value, env: nat, s: Store)
    requires Code(w, args) && StoreFits(w, s)
    ensures Fits(w, SetForm(n, l, args, env, s))
    decreases n, 2, args
  {
    if args.Pair? && args.car.Sym? && Single(args.cdr) {
      EvalFits(w, n, l, args.cdr.car, env, s);
      var o := Eval(n, l, args.cdr.car, env, s);
      if o.Done? {
        SetVarFits(w, env, args.car.idx, o.value, o.store);
      }
    }
  }

  lemma {:induction false} SequenceFits(w: nat, n: nat, l: Limit, forms: Value, env: nat, s: Store)
    requires Code(w, forms) && StoreFits(w, s)
    ensures Fits(w, Sequence(n, l, forms, env, s))
    decreases n, 1, forms, 1
  {
    if forms.Pair? && ProperList(forms) {
      FormsFits(w, n, l, forms, env, s);
    }
  }

  lemma {:induction false} FormsFits(w: nat, n: nat, l: Limit, forms: Value, env: nat, s: Store)
    requires forms.Pair? && Code(w, forms) && StoreFits(w, s)
    ensures Fits(w, Forms(n, l, forms, env, s))
    decreases n, 1, forms, 0
  {
    if forms.cdr.Pair? {
      EvalFits(w, n, l, forms.car, env, s);
      var o := Eval(n, l, forms.car, env, s);
      if o.Done? {
        FormsFits(w, n, l, forms.cdr, env, o.store);
      }
    } else {
      TailFits(w, n, l, forms.car, env, s);
    }
  }

  lemma {:induction false} AndOrFits(w: nat, n: nat, l: Limit, isOr: bool, args: Value, env: nat, s: Store)
    requires Code(w, args) && StoreFits(w, s)
    ensures Fits(w, AndOr(n, l, isOr, args, env, s))
    decreases n, 2, args, 1
  {
    if args.Pair? && ProperList(args) {
      OperandsFits(w, n, l, isOr, args, env, s);
    }
  }

  lemma {:induction false} OperandsFits(w: nat, n: nat, l: Limit, isOr: bool, args: Value, env: nat, s: Store)
    requires args.Pair? && Code(w, args) && StoreFits(w, s)
    ensures Fits(w, Operands(n, l, isOr, args, env, s))
    decreases n, 2, args, 0
  {
    if args.cdr.Pair? {
      EvalFits(w, n, l, args.car, env, s);
      var o := Eval(n, l, args.car, env, s);
      if o.Done? && Truthy(o.value) != isOr {
        OperandsFits(w, n, l, isOr, args.cdr, env, o.store);
      }
    } else {
      TailFits(w, n, l, args.car, env, s);
    }
  }

  lemma {:induction false} CondFits(w: nat, n: nat, l: Limit, clauses: Value, env: nat, s: Store)
    requires Code(w, clauses) && StoreFits(w, s)
    ensures Fits(w, Cond(n, l, clauses, env, s))
    decreases n, 2, clauses, 1
  {
    if ProperList(clauses) {
      ClausesFits(w, n, l, clauses, env, s);
    }
  }

  lemma {:induction false} ClausesFits(w: nat, n: nat, l: Limit, clauses: Value, env: nat, s: Store)
    requires Code(w, clauses) && StoreFits(w, s)
    ensures Fits(w, Clauses(n, l, clauses, env, s))
    decreases n, 2, clauses, 0
  {
    if clauses.Pair? && clauses.car.Pair? {
      if clauses.car.car == Sym(ELSE) {
        SequenceFits(w, n, l, clauses.car.cdr, env, s);
      } else {
        EvalFits(w, n, l, clauses.car.car, env, s);
        var o := Eval(n, l, clauses.car.car, env, s);
        if o.Done? {
          ClauseRestFits(w, n, l, o.value, clauses, env, o.store);
        }
      }
    }
  }

  lemma {:induction false} ClauseRestFits(w: nat, n: nat, l: Limit, v: Value, clauses: Value, env: nat, s: Store)
    requires clauses.Pair? && clauses.car.Pair? && Code(w, clauses) && Data(w, v) && StoreFits(w, s)
    ensures Fits(w, ClauseRest(n, l, v, clauses, env, s))
    decreases n, 2, clauses.cdr, 1
  {
    if !Truthy(v) {
      ClausesFits(w, n, l, clauses.cdr, env, s);
    } else if clauses.car.cdr != Nil {
      SequenceFits(w, n, l, clauses.car.cdr, env, s);
    }
  }

  lemma {:induction false} LetFits(w: nat, n: nat, l: Limit, kind: LetKind, args: Value, env: nat, s: Store)
    requires Code(w, args) && StoreFits(w, s)
    ensures Fits(w, Let(n, l, kind, args, env, s))
    decreases n, 2, args
  {
    if args.Pair? && IsBody(args.cdr) && ProperList(args.car) {
      LetBodyFits(w, n, l, kind, args.car, args.cdr, env, |s.frames|, NewFrame(env, s));
    }
  }

  lemma {:induction false} LetBodyFits(w: nat, n: nat, l: Limit, kind: LetKind, bindings: Value, body: Value, env: nat,
                                       inner: nat, s: Store)
    requires Code(w, bindings) && Code(w, body) && StoreFits(w, s)
    ensures Fits(w, LetBody(n, l, kind, bindings, body, env, inner, s))
    decreases n, 2, bindings, 2
  {
    PredefineFits(w, bindings, inner, s);
    var o := if kind == Recursive then Predefine(bindings, inner, s) else Done(Undef, s);
    if o.Done? {
      InitsThenBodyFits(w, n, l, bindings, body, if kind == Parallel then env else inner, inner, o.store);
    }
  }

  lemma {:induction false} InitsThenBodyFits(w: nat, n: nat, l: Limit, bindings: Value, body: Value, initEnv: nat,
                                             inner: nat, s: Store)
    requires Code(w, bindings) && Code(w, body) && StoreFits(w, s)
    ensures Fits(w, InitsThenBody(n, l, bindings, body, initEnv, inner, s))
    decreases n, 2, bindings, 1
  {
    InitsFits(w, n, l, bindings, initEnv, inner, s);
    var o := Inits(n, l, bindings, initEnv, inner, s);
    if o.Done? {
      SequenceFits(w, n, l, body, inner, o.store);
    }
  }

  lemma {:induction false} InitsFits(w: nat, n: nat, l: Limit, bindings: Value, initEnv: nat, inner: nat, s: Store)
    requires Code(w, bindings) && StoreFits(w, s)
    ensures Fits(w, Inits(n, l, bindings, initEnv, inner, s))
    decreases n, 1, bindings
  {
    if bindings.Pair? && IsBinding(bindings.car) {
      InitFits(w, n, l, bindings.car, initEnv, inner, s);
      var o := Init(n, l, bindings.car, initEnv, inner, s);
      if o.Done? {
        InitsFits(w, n, l, bindings.cdr, initEnv, inner, o.store);
      }
    }
  }

  lemma {:induction false} InitFits(w: nat, n: nat, l: Limit, b: Value, initEnv: nat, inner: nat, s: Store)
    requires IsBinding(b) && Code(w, b) && StoreFits(w, s)
    ensures Fits(w, Init(n, l, b, initEnv, inner, s))
    decreases n, 1, b
  {
    EvalFits(w, n, l, b.cdr.car, initEnv, s);
    var o := Eval(n, l, b.cdr.car, initEnv, s);
    if o.Done? {
      DefineVarFits(w, inner, b.car.idx, o.value, o.store);
    }
  }

  lemma {:induction false} CallFits(w: nat, n: nat, l: Limit, head: Value, args: Value, env: nat, s: Store)
    requires Code(w, head) && Code(w, args) && StoreFits(w, s)
    ensures Fits(w, Call(n, l, head, args, env, s))
    decreases n, 3, args, 1
  {
    hide Eval, CallWith, Code, StoreFits;
    EvalFits(w, n, l, head, env, s);
    var o := Eval(n, l, head, env, s);
    if o.Done? {
      CallWithFits(w, n, l, o.value, args, env, o.store);
    }
  }

  lemma {:induction false} CallWithFits(w: nat, n: nat, l: Limit, proc: Value, args: Value, env: nat, s: Store)
    requires Data(w, proc) && Code(w, args) && StoreFits(w, s)
    ensures Fits(w, CallWith(n, l, proc, args, env, s))
    decreases n, 3, args, 0
  {
    hide Args, Apply, Code, StoreFits, AllData;
    ArgsFits(w, n, l, args, env, s);
    var o := Args(n, l, args, env, s);
    if o.Done? {
      ApplyFits(w, n, l, proc, o.value, o.store);
    }
  }

  lemma {:induction false} ArgsFits(w: nat, n: nat, l: Limit, args: Value, env: nat, s: Store)
    requires Code(w, args) && StoreFits(w, s)
    ensures AllFit(w, Args(n, l, args, env, s))
    decreases n, 1, args, 1
  {
    if ProperList(args) {
      ArgListFits(w, n, l, args, env, s);
    }
  }

  lemma {:induction false} ArgListFits(w: nat, n: nat, l: Limit, args: Value, env: nat, s: Store)
    requires Code(w, args) && StoreFits(w, s)
    ensures AllFit(w, ArgList(n, l, args, env, s))
    decreases n, 1, args, 0
  {
    if args.Pair? {
      EvalFits(w, n, l, args.car, env, s);
      var o := Eval(n, l, args.car, env, s);
      if o.Done? {
        ArgListFits(w, n, l, args.cdr, env, o.store);
        assert ArgList(n, l, args, env, s) == ArgRest(n, l, o.value, args.cdr, env, o.store);
      }
    }
  }

  lemma {:induction false} ApplyFits(w: nat, n: nat, l: Limit, proc: Value, argv: seq<Value>, s: Store)
    requires Data(w, proc) && AllData(w, argv) && StoreFits(w, s)
    ensures Fits(w, Apply(n, l, proc, argv, s))
    decreases n, 2
  {
    if proc.Prim? && ArityOk(proc.op, |argv|) {
      ApplyPrimFits(w, proc.op, argv, s);
    } else if proc.Closure? {
      BindClosureFits(w, proc, argv, s);
      var o := BindClosure(proc, argv, s);
      if o.Done? {
        SequenceFits(w, n, l, proc.body, o.value, o.store);
      }
    }
  }
}
