/**
 * The direct evaluator: every subexpression, tail position or not, is an
 * ordinary recursive call.  `fuel` bounds the recursion so that it is a total
 * function; `limit` counts only the non-tail calls that may still be nested.
 */
module Semantics {
  import opened Basics
  import opened Terms
  import opened Frames
  import opened Prims

  // Interned first, in this order, by state creation.
  const QUOTE: nat := 0
  const IF: nat := 1
  const DEFINE: nat := 2
  const LAMBDA: nat := 3
  const SET: nat := 4
  const LET: nat := 5
  const LET_STAR: nat := 6
  const LETREC: nat := 7
  const BEGIN: nat := 8
  const AND: nat := 9
  const OR: nat := 10
  const COND: nat := 11
  const ELSE: nat := 12

  datatype Limit = Finite(left: nat) | Unlimited

  datatype LetKind = Parallel | Sequential | Recursive

  function Deeper(limit: Limit): Limit
    requires limit != Finite(0)
  {
    if limit.Finite? then Finite(limit.left - 1) else Unlimited
  }

  predicate IsBody(v: Value) {
    v.Pair? && ProperList(v)
  }

  // A nested evaluation: costs one unit of depth.
  function Eval(fuel: nat, limit: Limit, form: Value, env: nat, s: Store): Outcome<Value>
    decreases fuel, 0, form
  {
    if fuel == 0 then OutOfFuel
    else if limit == Finite(0) then Fail(EvalDepth, s)
    else Run(fuel - 1, Deeper(limit), form, env, s)
  }

  // An evaluation in tail position: costs no depth.
  function Tail(fuel: nat, limit: Limit, form: Value, env: nat, s: Store): Outcome<Value>
    decreases fuel, 0, form
  {
    if fuel == 0 then OutOfFuel else Run(fuel - 1, limit, form, env, s)
  }

  function Run(fuel: nat, limit: Limit, form: Value, env: nat, s: Store): Outcome<Value>
    decreases fuel, 4, form
  {
    if form.Sym? then
      match Lookup(s.frames, env, form.idx) case Some(v) => Done(v, s) case None => Fail(Unbound, s)
    else if !form.Pair? then Done(form, s)
    else if form.car.Sym? && form.car.idx <= COND then Special(fuel, limit, form.car.idx, form.cdr, env, s)
    else Call(fuel, limit, form.car, form.cdr, env, s)
  }

  function Special(fuel: nat, limit: Limit, keyword: nat, args: Value, env: nat, s: Store): Outcome<Value>
    requires keyword <= COND
    decreases fuel, 3, args
  {
    if keyword == QUOTE then Quote(args, s)
    else if keyword == IF then If(fuel, limit, args, env, s)
    else if keyword == DEFINE then DefineForm(fuel, limit, args, env, s)
    else if keyword == LAMBDA then Lambda(args, env, s)
    else if keyword == SET then SetForm(fuel, limit, args, env, s)
    else if keyword == LET then Let(fuel, limit, Parallel, args, env, s)
    else if keyword == LET_STAR then Let(fuel, limit, Sequential, args, env, s)
    else if keyword == LETREC then Let(fuel, limit, Recursive, args, env, s)
    else if keyword == BEGIN then Sequence(fuel, limit, args, env, s)
    else if keyword == AND then AndOr(fuel, limit, false, args, env, s)
    else if keyword == OR then AndOr(fuel, limit, true, args, env, s)
    else Cond(fuel, limit, args, env, s)
  }

  // A list of exactly one element.
  predicate Single(v: Value) {
    v.Pair? && v.cdr == Nil
  }

  function Quote(args: Value, s: Store): Outcome<Value> {
    if Single(args) then Done(args.car, s) else Fail(Syntax, s)
  }

  function If(fuel: nat, limit: Limit, args: Value, env: nat, s: Store): Outcome<Value>
    decreases fuel, 2, args
  {
    if args.Pair? && args.cdr.Pair? && (args.cdr.cdr == Nil || Single(args.cdr.cdr)) then
      Test(fuel, limit, args.car, args.cdr, env, s)
    else Fail(Syntax, s)
  }

  // (if test . branches), with one or two branches.
  function Test(fuel: nat, limit: Limit, test: Value, branches: Value, env: nat, s: Store): Outcome<Value>
    requires branches.Pair?
    decreases fuel, 1, test
  {
    var (v, s1) :- Eval(fuel, limit, test, env, s);
    Branch(fuel, limit, v, branches, env, s1)
  }

  function Branch(fuel: nat, limit: Limit, v: Value, branches: Value, env: nat, s: Store): Outcome<Value>
    requires branches.Pair?
    decreases fuel, 0, branches
  {
    if Truthy(v) then Tail(fuel, limit, branches.car, env, s)
    else if branches.cdr.Pair? then Tail(fuel, limit, branches.cdr.car, env, s)
    else Done(Undef, s)
  }

  function DefineVar(env: nat, name: nat, v: Value, s: Store): Outcome<Value> {
    if env < |s.frames| then Done(Undef, s.(frames := Define(s.frames, env, name, v)))
    else Fail(InvalidArg, s)
  }

  function DefineForm(fuel: nat, limit: Limit, args: Value, env: nat, s: Store): Outcome<Value>
    decreases fuel, 2, args
  {
    if !args.Pair? then Fail(Syntax, s)
    else if args.car.Sym? && Single(args.cdr) then DefineValue(fuel, limit, args.car.idx, args.cdr.car, env, s)
    else if args.car.Pair? && args.car.car.Sym? then DefineProcedure(args.car.car.idx, args.car.cdr, args.cdr, env, s)
    else Fail(Syntax, s)
  }

  // (define name init)
  function DefineValue(fuel: nat, limit: Limit, name: nat, init: Value, env: nat, s: Store): Outcome<Value>
    decreases fuel, 1, init
  {
    var (v, s1) :- Eval(fuel, limit, init, env, s);
    DefineVar(env, name, v, s1)
  }

  // (define (name . params) body ...)
  function DefineProcedure(name: nat, params: Value, body: Value, env: nat, s: Store): Outcome<Value> {
    if !IsBody(body) then Fail(Syntax, s)
    else
      var (closure, s1) :- NewClosure(params, body, env, s);
      DefineVar(env, name, closure, s1)
  }

  function SetForm(fuel: nat, limit: Limit, args: Value, env: nat, s: Store): Outcome<Value>
    decreases fuel, 2, args
  {
    if args.Pair? && args.car.Sym? && Single(args.cdr) then SetValue(fuel, limit, args.car.idx, args.cdr.car, env, s)
    else Fail(Syntax, s)
  }

  // (set! name init)
  function SetValue(fuel: nat, limit: Limit, name: nat, init: Value, env: nat, s: Store): Outcome<Value>
    decreases fuel, 1, init
  {
    var (v, s1) :- Eval(fuel, limit, init, env, s);
    SetVar(env, name, v, s1)
  }

  function SetVar(env: nat, name: nat, v: Value, s: Store): Outcome<Value> {
    match Set(s.frames, env, name, v)
    case Some(frames) => Done(Undef, s.(frames := frames))
    case None => Fail(Unbound, s)
  }

  // Required parameters, and whether a rest parameter follows; None when malformed.
  function Shape(params: Value): Option<(nat, bool)> {
    match params
    case Nil => Some((0, false))
    case Sym(_) => Some((0, true))
    case Pair(_, Sym(_), rest) =>
      (match Shape(rest) case Some((n, variadic)) => Some((n + 1, variadic)) case None => None)
    case _ => None
  }

  function NewClosure(params: Value, body: Value, env: nat, s: Store): Outcome<Value> {
    match Shape(params)
    case Some((n, variadic)) =>
      Done(Closure(s.nextId, env, params, body, variadic, n), s.(nextId := s.nextId + 1))
    case None => Fail(Syntax, s)
  }

  function Lambda(args: Value, env: nat, s: Store): Outcome<Value> {
    if args.Pair? && IsBody(args.cdr) then NewClosure(args.car, args.cdr, env, s) else Fail(Syntax, s)
  }

  function Sequence(fuel: nat, limit: Limit, forms: Value, env: nat, s: Store): Outcome<Value>
    decreases fuel, 1, forms, 1
  {
    if forms == Nil then Done(Undef, s)
    else if !ProperList(forms) then Fail(Syntax, s)
    else Forms(fuel, limit, forms, env, s)
  }

  function Forms(fuel: nat, limit: Limit, forms: Value, env: nat, s: Store): Outcome<Value>
    requires forms.Pair?
    decreases fuel, 1, forms, 0
  {
    if forms.cdr.Pair? then
      var (_, s1) :- Eval(fuel, limit, forms.car, env, s);
      Forms(fuel, limit, forms.cdr, env, s1)
    else Tail(fuel, limit, forms.car, env, s)
  }

  function AndOr(fuel: nat, limit: Limit, isOr: bool, args: Value, env: nat, s: Store): Outcome<Value>
    decreases fuel, 2, args, 1
  {
    if args == Nil then Done(Bool(!isOr), s)
    else if !ProperList(args) then Fail(Syntax, s)
    else Operands(fuel, limit, isOr, args, env, s)
  }

  function Operands(fuel: nat, limit: Limit, isOr: bool, args: Value, env: nat, s: Store): Outcome<Value>
    requires args.Pair?
    decreases fuel, 2, args, 0
  {
    if args.cdr.Pair? then
      var (v, s1) :- Eval(fuel, limit, args.car, env, s);
      if Truthy(v) == isOr then Done(v, s1) else Operands(fuel, limit, isOr, args.cdr, env, s1)
    else Tail(fuel, limit, args.car, env, s)
  }

  function Cond(fuel: nat, limit: Limit, clauses: Value, env: nat, s: Store): Outcome<Value>
    decreases fuel, 2, clauses, 1
  {
    if ProperList(clauses) then Clauses(fuel, limit, clauses, env, s) else Fail(Syntax, s)
  }

  function Clauses(fuel: nat, limit: Limit, clauses: Value, env: nat, s: Store): Outcome<Value>
    decreases fuel, 2, clauses, 0
  {
    if !clauses.Pair? then Done(Undef, s)
    else if !clauses.car.Pair? then Fail(Syntax, s)
    else if clauses.car.car == Sym(ELSE) then Sequence(fuel, limit, clauses.car.cdr, env, s)
    else
      var (v, s1) :- Eval(fuel, limit, clauses.car.car, env, s);
      ClauseRest(fuel, limit, v, clauses, env, s1)
  }

  // What follows the test of the first clause.
  function ClauseRest(fuel: nat, limit: Limit, v: Value, clauses: Value, env: nat, s: Store): Outcome<Value>
    requires clauses.Pair? && clauses.car.Pair?
    decreases fuel, 2, clauses.cdr, 1
  {
    if !Truthy(v) then Clauses(fuel, limit, clauses.cdr, env, s)
    else if clauses.car.cdr == Nil then Done(v, s)
    else Sequence(fuel, limit, clauses.car.cdr, env, s)
  }

  function NewFrame(parent: nat, s: Store): Store {
    s.(frames := s.frames + [EmptyFrame(Some(parent))])
  }

  // (name init)
  predicate IsBinding(b: Value) {
    b.Pair? && b.car.Sym? && Single(b.cdr)
  }

  function Let(fuel: nat, limit: Limit, kind: LetKind, args: Value, env: nat, s: Store): Outcome<Value>
    decreases fuel, 2, args
  {
    if args.Pair? && IsBody(args.cdr) && ProperList(args.car) then
      LetBody(fuel, limit, kind, args.car, args.cdr, env, |s.frames|, NewFrame(env, s))
    else Fail(Syntax, s)
  }

  // The let family once the frame `inner` has been allocated.
  function LetBody(fuel: nat, limit: Limit, kind: LetKind, bindings: Value, body: Value, env: nat, inner: nat,
                   s: Store): Outcome<Value>
    decreases fuel, 2, bindings, 2
  {
    var (_, s1) :- if kind == Recursive then Predefine(bindings, inner, s) else Done(Undef, s);
    InitsThenBody(fuel, limit, bindings, body, if kind == Parallel then env else inner, inner, s1)
  }

  function InitsThenBody(fuel: nat, limit: Limit, bindings: Value, body: Value, initEnv: nat, inner: nat,
                         s: Store): Outcome<Value>
    decreases fuel, 2, bindings, 1
  {
    var (_, s1) :- Inits(fuel, limit, bindings, initEnv, inner, s);
    Sequence(fuel, limit, body, inner, s1)
  }

  function Predefine(bindings: Value, inner: nat, s: Store): Outcome<Value> {
    if !bindings.Pair? then Done(Undef, s)
    else if !IsBinding(bindings.car) then Fail(Syntax, s)
    else
      var (_, s1) :- DefineVar(inner, bindings.car.car.idx, Undef, s);
      Predefine(bindings.cdr, inner, s1)
  }

  function Inits(fuel: nat, limit: Limit, bindings: Value, initEnv: nat, inner: nat, s: Store): Outcome<Value>
    decreases fuel, 1, bindings
  {
    if !bindings.Pair? then Done(Undef, s)
    else if !IsBinding(bindings.car) then Fail(Syntax, s)
    else
      var (_, s1) :- Init(fuel, limit, bindings.car, initEnv, inner, s);
      Inits(fuel, limit, bindings.cdr, initEnv, inner, s1)
  }

  function Init(fuel: nat, limit: Limit, b: Value, initEnv: nat, inner: nat, s: Store): Outcome<Value>
    requires IsBinding(b)
    decreases fuel, 1, b
  {
    var (v, s1) :- Eval(fuel, limit, b.cdr.car, initEnv, s);
    DefineVar(inner, b.car.idx, v, s1)
  }

  function Call(fuel: nat, limit: Limit, head: Value, args: Value, env: nat, s: Store): Outcome<Value>
    decreases fuel, 3, args, 1
  {
    var (proc, s1) :- Eval(fuel, limit, head, env, s);
    CallWith(fuel, limit, proc, args, env, s1)
  }

  // A call whose operator has been evaluated.
  function CallWith(fuel: nat, limit: Limit, proc: Value, args: Value, env: nat, s: Store): Outcome<Value>
    decreases fuel, 3, args, 0
  {
    var (argv, s1) :- Args(fuel, limit, args, env, s);
    Apply(fuel, limit, proc, argv, s1)
  }

  function Args(fuel: nat, limit: Limit, args: Value, env: nat, s: Store): Outcome<seq<Value>>
    decreases fuel, 1, args, 1
  {
    if ProperList(args) then ArgList(fuel, limit, args, env, s) else Fail(Syntax, s)
  }

  function ArgList(fuel: nat, limit: Limit, args: Value, env: nat, s: Store): Outcome<seq<Value>>
    decreases fuel, 1, args, 0
  {
    if !args.Pair? then Done([], s)
    else
      var (v, s1) :- Eval(fuel, limit, args.car, env, s);
      ArgRest(fuel, limit, v, args.cdr, env, s1)
  }

  // The arguments after the first, whose value is `v`.
  function ArgRest(fuel: nat, limit: Limit, v: Value, args: Value, env: nat, s: Store): Outcome<seq<Value>>
    decreases fuel, 1, args, 1
  {
    var (vs, s1) :- ArgList(fuel, limit, args, env, s);
    Done([v] + vs, s1)
  }

  function Apply(fuel: nat, limit: Limit, proc: Value, argv: seq<Value>, s: Store): Outcome<Value>
    decreases fuel, 2
  {
    if proc.Prim? then
      if ArityOk(proc.op, |argv|) then ApplyPrim(proc.op, argv, s) else Fail(Arity, s)
    else if proc.Closure? then
      var (inner, s1) :- BindClosure(proc, argv, s);
      Sequence(fuel, limit, proc.body, inner, s1)
    else Fail(TypeError, s)
  }

  // A fresh frame over the closure's environment, with the parameters bound.
  function BindClosure(proc: Value, argv: seq<Value>, s: Store): Outcome<nat>
    requires proc.Closure?
  {
    if |argv| < proc.arityMin || (!proc.variadic && |argv| != proc.arityMin) then Fail(Arity, s)
    else BindParams(proc, argv, |s.frames|, NewFrame(proc.env, s))
  }

  // Parameter binding once the frame `inner` has been allocated.
  function BindParams(proc: Value, argv: seq<Value>, inner: nat, s: Store): Outcome<nat>
    requires proc.Closure? && proc.arityMin <= |argv|
  {
    var (rest, s1) :- Positional(proc.params, argv[..proc.arityMin], inner, s);
    if !proc.variadic then Done(inner, s1)
    else if !rest.Sym? then Fail(Syntax, s1)
    else
      var (list, s2) :- NewList(argv[proc.arityMin..], s1);
      var (_, s3) :- DefineVar(inner, rest.idx, list, s2);
      Done(inner, s3)
  }

  // Binds the leading parameters to `argv`; returns what is left of the parameter list.
  function Positional(params: Value, argv: seq<Value>, inner: nat, s: Store): Outcome<Value>
    decreases |argv|
  {
    if argv == [] then Done(params, s)
    else if params.Pair? && params.car.Sym? then
      var (_, s1) :- DefineVar(inner, params.car.idx, argv[0], s);
      Positional(params.cdr, argv[1..], inner, s1)
    else Fail(InvalidArg, s)
  }
}
