/**
 * What the evaluator's forms and procedures promise their users, one law at a
 * time: assignment, definition and choice, the arity of the procedures, numbers,
 * pairs and types.
 */
module Laws {
  import opened Basics
  import opened Terms
  import opened Frames
  import opened Prims
  import opened Semantics
  import opened Stability
  import opened Derived
  import opened Arith
  import Binding
  import Equality

  // ------------------------------------------------------------ set! and define

  // Only the binding of `name` that `env` sees may differ, and it holds `v`.
  ghost predicate Assigned(s: Store, t: Store, env: nat, name: nat, v: Value) {
    && t.nextId == s.nextId && t.maxEqual == s.maxEqual && |t.frames| == |s.frames|
    && Lookup(t.frames, env, name) == Some(v)
    && forall e, m | m != name || Holder(s.frames, e, m) != Holder(s.frames, env, name) ::
         Lookup(t.frames, e, m) == Lookup(s.frames, e, m)
  }

  /**
   * (set! name init): after the initialiser, the name the environment sees has its
   * value and no other name has changed; a name it does not see is UNBOUND, and
   * nothing is created.
   */
  lemma SetStoresTheValue(n: nat, l: Limit, f: Value, name: nat, init: Value, env: nat, s: Store)
    requires IsForm2(f, SET, Sym(name), init)
    ensures var o, r := Eval(n, l, init, env, s), Run(n, l, f, env, s);
      && (!o.Done? ==> r == o)
      && (o.Done? && Lookup(o.store.frames, env, name).None? ==> r == Fail(Unbound, o.store))
      && (o.Done? && Lookup(o.store.frames, env, name).Some? ==>
            r.Done? && r.value == Undef && Assigned(o.store, r.store, env, name, o.value))
  {
    var o, r := Eval(n, l, init, env, s), Run(n, l, f, env, s);
    RunForm(n, l, f, SET, env, s);
    assert Special(n, l, SET, f.cdr, env, s) == SetValue(n, l, name, init, env, s);
    if o.Done? {
      assert r == SetVar(env, name, o.value, o.store);
      SetAssigns(env, name, o.value, o.store);
    }
  }

  lemma SetAssigns(env: nat, name: nat, v: Value, s: Store)
    ensures var r := SetVar(env, name, v, s);
      if Lookup(s.frames, env, name).Some? then r.Done? && r.value == Undef && Assigned(s, r.store, env, name, v)
      else r == Fail(Unbound, s)
  {
    forall e, m ensures
      && (Set(s.frames, env, name, v).Some? <==> Lookup(s.frames, env, name).Some?)
      && (Set(s.frames, env, name, v).Some? ==>
            Lookup(Set(s.frames, env, name, v).value, e, m) ==
            if m == name && Holder(s.frames, e, m) == Holder(s.frames, env, name) then Some(v)
            else Lookup(s.frames, e, m))
    {
      SetChangesTheVisibleBinding(s.frames, env, name, v, e, m);
    }
  }

  /**
   * (define name init): after the initialiser, the environment itself binds the
   * name to its value; every other name stays as it was, seen from anywhere.
   */
  lemma DefineBindsTheValue(n: nat, l: Limit, f: Value, name: nat, init: Value, env: nat, s: Store)
    requires IsForm2(f, DEFINE, Sym(name), init) && env < |s.frames|
    ensures var o, r := Eval(n, l, init, env, s), Run(n, l, f, env, s);
      && (!o.Done? ==> r == o)
      && (o.Done? && env < |o.store.frames| ==>
            && r.Done? && r.value == Undef && r.store.nextId == o.store.nextId
            && Holder(r.store.frames, env, name) == Some(env)
            && Lookup(r.store.frames, env, name) == Some(o.value)
            && forall e, m | m != name :: Lookup(r.store.frames, e, m) == Lookup(o.store.frames, e, m))
  {
    var o, r := Eval(n, l, init, env, s), Run(n, l, f, env, s);
    RunForm(n, l, f, DEFINE, env, s);
    assert Special(n, l, DEFINE, f.cdr, env, s) == DefineValue(n, l, name, init, env, s);
    if o.Done? && env < |o.store.frames| {
      assert r == DefineVar(env, name, o.value, o.store);
      IndexAfterDefine(o.store.frames[env], name, o.value, name);
      forall e, m ensures m != name ==> Lookup(r.store.frames, e, m) == Lookup(o.store.frames, e, m) {
        DefineAffectsOneName(o.store.frames, env, name, o.value, e, m);
      }
      DefineAffectsOneName(o.store.frames, env, name, o.value, env, name);
    }
  }

  // (define (name . params) . body)
  predicate IsProcedureDefinition(f: Value, name: nat, params: Value, body: Value) {
    && f.Pair? && f.car == Sym(DEFINE) && f.cdr.Pair? && f.cdr.cdr == body
    && f.cdr.car.Pair? && f.cdr.car.car == Sym(name) && f.cdr.car.cdr == params
  }

  // (lambda params . body)
  predicate IsLambda(f: Value, params: Value, body: Value) {
    f.Pair? && f.car == Sym(LAMBDA) && f.cdr.Pair? && f.cdr.car == params && f.cdr.cdr == body
  }

  /**
   * (define (f . params) . body) is (define f (lambda params . body)), whatever
   * the parameters and the body, errors included, if one nested evaluation is allowed.
   */
  lemma DefinitionIsLambda(n: nat, l: Limit, f: Value, g: Value, name: nat, lambda: Value, params: Value, body: Value,
                           env: nat, s: Store)
    requires IsProcedureDefinition(f, name, params, body)
    requires IsForm2(g, DEFINE, Sym(name), lambda) && IsLambda(lambda, params, body)
    requires n >= 1 && l != Finite(0)
    ensures Run(n, l, f, env, s) == Run(n, l, g, env, s)
  {
    RunForm(n, l, f, DEFINE, env, s);
    RunForm(n, l, g, DEFINE, env, s);
    assert Special(n, l, DEFINE, f.cdr, env, s) == DefineForm(n, l, f.cdr, env, s);
    assert Special(n, l, DEFINE, g.cdr, env, s) == DefineForm(n, l, g.cdr, env, s);
    RunForm(n - 1, Deeper(l), lambda, LAMBDA, env, s);
    assert Special(n - 1, Deeper(l), LAMBDA, lambda.cdr, env, s) == Lambda(lambda.cdr, env, s);
    assert Eval(n, l, lambda, env, s) == if IsBody(body) then NewClosure(params, body, env, s) else Fail(Syntax, s);
    assert DefineForm(n, l, f.cdr, env, s) == DefineProcedure(name, params, body, env, s);
    assert DefineForm(n, l, g.cdr, env, s) == DefineValue(n, l, name, lambda, env, s);
  }

  // ------------------------------------------------------------ if

  /**
   * Only #f is false.  A conditional with one branch gives the unspecified value
   * exactly when its test gives #f; with two it then goes on with the second.
   */
  lemma IfChooses(n: nat, l: Limit, f: Value, test: Value, env: nat, s: Store)
    requires f.Pair? && f.car == Sym(IF) && f.cdr.Pair? && f.cdr.car == test
    requires f.cdr.cdr.Pair?
    ensures var o, r := Eval(n, l, test, env, s), Run(n, l, f, env, s);
      && (f.cdr.cdr.cdr == Nil ==>
            if !o.Done? then r == o
            else if o.value == False then r == Done(Undef, o.store)
            else r == Tail(n, l, f.cdr.cdr.car, env, o.store))
      && (f.cdr.cdr.cdr.Pair? && f.cdr.cdr.cdr.cdr == Nil ==>
            if !o.Done? then r == o
            else if o.value == False then r == Tail(n, l, f.cdr.cdr.cdr.car, env, o.store)
            else r == Tail(n, l, f.cdr.cdr.car, env, o.store))
      && (f.cdr.cdr.cdr != Nil && !(f.cdr.cdr.cdr.Pair? && f.cdr.cdr.cdr.cdr == Nil) ==> r == Fail(Syntax, s))
  {
    var o := Eval(n, l, test, env, s);
    RunForm(n, l, f, IF, env, s);
    assert Special(n, l, IF, f.cdr, env, s) == If(n, l, f.cdr, env, s);
    if f.cdr.cdr.cdr == Nil || (f.cdr.cdr.cdr.Pair? && f.cdr.cdr.cdr.cdr == Nil) {
      assert If(n, l, f.cdr, env, s) == Test(n, l, test, f.cdr.cdr, env, s);
      if o.Done? {
        assert Test(n, l, test, f.cdr.cdr, env, s) == Branch(n, l, o.value, f.cdr.cdr, env, o.store);
      }
    }
  }

  /**
   * A symbol is the value of the innermost binding or UNBOUND; any other atom is
   * itself; a quotation is its datum, and an empty sequence unspecified.
   */
  lemma SimpleForms(n: nat, l: Limit, f: Value, datum: Value, env: nat, s: Store)
    ensures f.Sym? && Lookup(s.frames, env, f.idx).Some? ==>
      Run(n, l, f, env, s) == Done(Lookup(s.frames, env, f.idx).value, s)
    ensures f.Sym? && Lookup(s.frames, env, f.idx).None? ==> Run(n, l, f, env, s) == Fail(Unbound, s)
    ensures !f.Sym? && !f.Pair? ==> Run(n, l, f, env, s) == Done(f, s)
    ensures f.Pair? && f.car == Sym(QUOTE) && IsList1(f.cdr, datum) ==> Run(n, l, f, env, s) == Done(datum, s)
    ensures f.Pair? && f.car == Sym(BEGIN) && f.cdr == Nil ==> Run(n, l, f, env, s) == Done(Undef, s)
  {
    if f.Pair? && (f.car == Sym(QUOTE) || f.car == Sym(BEGIN)) {
      RunForm(n, l, f, f.car.idx, env, s);
    }
  }

  // ------------------------------------------------------------ calls

  // The first `k` operands evaluated from the left, each in the store the one before it left.
  ghost predicate Evaluated(n: nat, l: Limit, operands: seq<Value>, env: nat, vs: seq<Value>, ts: seq<Store>, k: nat) {
    && k <= |operands| && k <= |vs| && k < |ts|
    && forall i | 0 <= i < k :: Eval(n, l, operands[i], env, ts[i]) == Done(vs[i], ts[i + 1])
  }

  lemma {:induction false} OperandsInOrder(n: nat, l: Limit, args: Value, env: nat, vs: seq<Value>, ts: seq<Store>,
                                           k: nat)
    requires ProperList(args) && Evaluated(n, l, Elements(args), env, vs, ts, k)
    ensures k == |Elements(args)| ==> ArgList(n, l, args, env, ts[0]) == Done(vs[..k], ts[k])
    ensures k < |Elements(args)| ==>
      var o := Eval(n, l, Elements(args)[k], env, ts[k]);
      !o.Done? ==> ArgList(n, l, args, env, ts[0]) == o.PropagateFailure()
    decreases args
  {
    if args.Pair? && k > 0 {
      EvaluatedTail(n, l, args, env, vs, ts, k);
      OperandsInOrder(n, l, args.cdr, env, vs[1..], ts[1..], k - 1);
      assert [vs[0]] + vs[1..][..k - 1] == vs[..k];
      assert ArgList(n, l, args, env, ts[0]) == ArgRest(n, l, vs[0], args.cdr, env, ts[1]);
    }
  }

  // (head operand ...), and not a special form
  predicate IsCall(f: Value) {
    f.Pair? && !(f.car.Sym? && f.car.idx <= COND)
  }

  /**
   * A call evaluates its operator, then its operands from the left, and then
   * applies; the first failure is the call's, and an improper operand list is a
   * syntax error once the operator has been evaluated.
   */
  lemma CallInOrder(n: nat, l: Limit, f: Value, env: nat, s: Store, vs: seq<Value>, ts: seq<Store>, k: nat)
    requires IsCall(f)
    ensures var o, r := Eval(n, l, f.car, env, s), Run(n, l, f, env, s);
      && (!o.Done? ==> r == o)
      && (o.Done? && !ProperList(f.cdr) ==> r == Fail(Syntax, o.store))
      && (o.Done? && ProperList(f.cdr) && Evaluated(n, l, Elements(f.cdr), env, vs, ts, k) && ts[0] == o.store ==>
            if k == |Elements(f.cdr)| then r == Apply(n, l, o.value, vs[..k], ts[k])
            else
              var e := Eval(n, l, Elements(f.cdr)[k], env, ts[k]);
              !e.Done? ==> r == e)
  {
    var o, r := Eval(n, l, f.car, env, s), Run(n, l, f, env, s);
    assert r == Call(n, l, f.car, f.cdr, env, s);
    if o.Done? {
      assert r == CallWith(n, l, o.value, f.cdr, env, o.store);
      if ProperList(f.cdr) {
        assert Args(n, l, f.cdr, env, o.store) == ArgList(n, l, f.cdr, env, o.store);
        if Evaluated(n, l, Elements(f.cdr), env, vs, ts, k) && ts[0] == o.store {
          OperandsInOrder(n, l, f.cdr, env, vs, ts, k);
        }
      }
    }
  }

  // The rest of the operands, once the first has been evaluated.
  lemma EvaluatedTail(n: nat, l: Limit, args: Value, env: nat, vs: seq<Value>, ts: seq<Store>, k: nat)
    requires args.Pair? && k > 0 && Evaluated(n, l, Elements(args), env, vs, ts, k)
    ensures Elements(args)[0] == args.car && Elements(args)[1..] == Elements(args.cdr)
    ensures Eval(n, l, args.car, env, ts[0]) == Done(vs[0], ts[1])
    ensures Evaluated(n, l, Elements(args.cdr), env, vs[1..], ts[1..], k - 1)
  {
    assert Elements(args) == [args.car] + Elements(args.cdr);
    assert Eval(n, l, Elements(args)[0], env, ts[0]) == Done(vs[0], ts[0 + 1]);
    forall i | 0 <= i < k - 1
      ensures Eval(n, l, Elements(args.cdr)[i], env, ts[1..][i]) == Done(vs[1..][i], ts[1..][i + 1])
    {
      assert Elements(args.cdr)[i] == Elements(args)[i + 1];
    }
  }

  // The k-th element of `list` is next: those before it have been evaluated, the first of them in `s`.
  ghost predicate ReachedAt(n: nat, l: Limit, list: Value, env: nat, vs: seq<Value>, ts: seq<Store>, k: nat, s: Store) {
    ProperList(list) && k < |Elements(list)| && Evaluated(n, l, Elements(list), env, vs, ts, k) && ts[0] == s
  }

  lemma {:induction false} FormsInOrder(n: nat, l: Limit, forms: Value, env: nat, vs: seq<Value>, ts: seq<Store>,
                                        k: nat)
    requires forms.Pair? && ProperList(forms) && k < |Elements(forms)|
    requires Evaluated(n, l, Elements(forms), env, vs, ts, k)
    ensures var r := Forms(n, l, forms, env, ts[0]);
      if k == |Elements(forms)| - 1 then r == Tail(n, l, Elements(forms)[k], env, ts[k])
      else !Eval(n, l, Elements(forms)[k], env, ts[k]).Done? ==> r == Eval(n, l, Elements(forms)[k], env, ts[k])
    decreases forms
  {
    assert Elements(forms) == [forms.car] + Elements(forms.cdr);
    if k > 0 {
      EvaluatedTail(n, l, forms, env, vs, ts, k);
      FormsInOrder(n, l, forms.cdr, env, vs[1..], ts[1..], k - 1);
    }
  }

  /**
   * A body, of a procedure, a let, a cond clause or begin, evaluates its forms in
   * order, each in the store the one before left, and its value is the last one's;
   * the first failure ends it.  An improper list of forms is a syntax error.
   */
  lemma BodyInOrder(n: nat, l: Limit, forms: Value, env: nat, s: Store, vs: seq<Value>, ts: seq<Store>, k: nat)
    ensures var r := Sequence(n, l, forms, env, s);
      && (!ProperList(forms) ==> r == Fail(Syntax, s))
      && (forms == Nil ==> r == Done(Undef, s))
      && (ReachedAt(n, l, forms, env, vs, ts, k, s) ==>
            if k == |Elements(forms)| - 1 then r == Tail(n, l, Elements(forms)[k], env, ts[k])
            else !Eval(n, l, Elements(forms)[k], env, ts[k]).Done? ==> r == Eval(n, l, Elements(forms)[k], env, ts[k]))
    ensures forall f: Value | f.Pair? && f.car == Sym(BEGIN) && f.cdr == forms ::
      Run(n, l, f, env, s) == Sequence(n, l, forms, env, s)
  {
    if ReachedAt(n, l, forms, env, vs, ts, k, s) {
      FormsInOrder(n, l, forms, env, vs, ts, k);
    }
    forall f: Value | f.Pair? && f.car == Sym(BEGIN) && f.cdr == forms
      ensures Run(n, l, f, env, s) == Sequence(n, l, forms, env, s)
    {
      RunForm(n, l, f, BEGIN, env, s);
    }
  }

  // None of the first `k` values decides an `or`, that is true, or an `and`, that is #f.
  ghost predicate Undecided(isOr: bool, vs: seq<Value>, k: nat) {
    k <= |vs| && forall i | 0 <= i < k :: (vs[i] == False) == isOr
  }

  lemma {:induction false} OperandsDecide(n: nat, l: Limit, isOr: bool, args: Value, env: nat, vs: seq<Value>,
                                          ts: seq<Store>, k: nat)
    requires args.Pair? && ProperList(args) && k < |Elements(args)|
    requires Evaluated(n, l, Elements(args), env, vs, ts, k) && Undecided(isOr, vs, k)
    ensures var r := Operands(n, l, isOr, args, env, ts[0]);
      if k == |Elements(args)| - 1 then r == Tail(n, l, Elements(args)[k], env, ts[k])
      else
        var o := Eval(n, l, Elements(args)[k], env, ts[k]);
        !o.Done? || (o.value == False) != isOr ==> r == o
    decreases args
  {
    assert Elements(args) == [args.car] + Elements(args.cdr);
    if k > 0 {
      EvaluatedTail(n, l, args, env, vs, ts, k);
      OperandsDecide(n, l, isOr, args.cdr, env, vs[1..], ts[1..], k - 1);
    }
  }

  /**
   * (and e ...) and (or e ...) evaluate their operands from the left and stop at
   * the first that decides, whose value is the result; the last is in tail
   * position.  (and) is #t, (or) is #f, and an improper operand list an error.
   */
  lemma LogicInOrder(n: nat, l: Limit, f: Value, env: nat, s: Store, vs: seq<Value>, ts: seq<Store>, k: nat)
    requires f.Pair? && (f.car == Sym(AND) || f.car == Sym(OR))
    ensures var r, isOr, args := Run(n, l, f, env, s), f.car == Sym(OR), f.cdr;
      && (!ProperList(args) ==> r == Fail(Syntax, s))
      && (args == Nil ==> r == Done(if isOr then False else True, s))
      && (ReachedAt(n, l, args, env, vs, ts, k, s) && Undecided(isOr, vs, k) ==>
            if k == |Elements(args)| - 1 then r == Tail(n, l, Elements(args)[k], env, ts[k])
            else
              var o := Eval(n, l, Elements(args)[k], env, ts[k]);
              !o.Done? || (o.value == False) != isOr ==> r == o)
  {
    var isOr, args := f.car == Sym(OR), f.cdr;
    RunForm(n, l, f, f.car.idx, env, s);
    assert Run(n, l, f, env, s) == AndOr(n, l, isOr, args, env, s);
    if ReachedAt(n, l, args, env, vs, ts, k, s) && Undecided(isOr, vs, k) {
      OperandsDecide(n, l, isOr, args, env, vs, ts, k);
    }
  }

  // (name init), or ((name . params) . body)
  predicate IsDefinition(args: Value) {
    && args.Pair?
    && if args.car.Pair? then args.car.car.Sym? else args.car.Sym? && args.cdr.Pair? && args.cdr.cdr == Nil
  }

  /** The other syntax errors of the special forms; none of them evaluates anything. */
  lemma MalformedForms(n: nat, l: Limit, f: Value, env: nat, s: Store)
    requires f.Pair?
    ensures f.car == Sym(QUOTE) && !(f.cdr.Pair? && f.cdr.cdr == Nil) ==> Run(n, l, f, env, s) == Fail(Syntax, s)
    ensures f.car == Sym(IF) && !(f.cdr.Pair? && f.cdr.cdr.Pair?) ==> Run(n, l, f, env, s) == Fail(Syntax, s)
    ensures f.car == Sym(SET) && !(f.cdr.Pair? && f.cdr.car.Sym? && f.cdr.cdr.Pair? && f.cdr.cdr.cdr == Nil) ==>
      Run(n, l, f, env, s) == Fail(Syntax, s)
    ensures f.car == Sym(DEFINE) && !IsDefinition(f.cdr) ==> Run(n, l, f, env, s) == Fail(Syntax, s)
    ensures f.car == Sym(LAMBDA) && !f.cdr.Pair? ==> Run(n, l, f, env, s) == Fail(Syntax, s)
    ensures f.car == Sym(COND) && !ProperList(f.cdr) ==> Run(n, l, f, env, s) == Fail(Syntax, s)
  {
    if f.car.Sym? && f.car.idx <= COND {
      RunForm(n, l, f, f.car.idx, env, s);
    }
  }

  // `k` calls of the procedure `name`, one inside the other, around #t
  predicate IsNest(f: Value, name: nat, k: nat) {
    if k == 0 then f == True
    else f.Pair? && f.car == Sym(name) && f.cdr.Pair? && f.cdr.cdr == Nil && IsNest(f.cdr.car, name, k - 1)
  }

  // (not e), once its operator has been evaluated.
  lemma NotInOrder(n: nat, l: Limit, f: Value, p: Value, env: nat, s: Store)
    requires IsCall(f) && f.cdr.Pair? && f.cdr.cdr == Nil && p.Prim? && p.op == Not
    requires Eval(n, l, f.car, env, s) == Done(p, s)
    ensures var o := Eval(n, l, f.cdr.car, env, s);
      Run(n, l, f, env, s) == if o.Done? then Done(Bool(o.value == False), o.store) else o
  {
    var e := f.cdr.car;
    var o := Eval(n, l, e, env, s);
    assert Elements(f.cdr) == [e];
    if o.Done? {
      var ts := [s, o.store];
      assert Evaluated(n, l, [e], env, [o.value], ts, 1);
      CallInOrder(n, l, f, env, s, [o.value], ts, 1);
      assert [o.value][..1] == [o.value];
    } else {
      assert Evaluated(n, l, [e], env, [], [s], 0);
      CallInOrder(n, l, f, env, s, [], [s], 0);
    }
  }

  /** A nest of k calls needs k levels of evaluation depth: with fewer it is an EVAL_DEPTH error. */
  lemma {:induction false} NestNeedsItsDepth(k: nat, n: nat, d: nat, f: Value, name: nat, p: Value, env: nat, s: Store)
    requires IsNest(f, name, k) && name > COND && n >= k
    requires Lookup(s.frames, env, name) == Some(p) && p.Prim? && p.op == Not
    ensures Run(n, Finite(d), f, env, s) == if d >= k then Done(Bool(k % 2 == 0), s) else Fail(EvalDepth, s)
    decreases k
  {
    if k > 0 && d > 0 {
      assert Eval(n, Finite(d), f.car, env, s) == Done(p, s);
      NotInOrder(n, Finite(d), f, p, env, s);
      NestNeedsItsDepth(k - 1, n - 1, d - 1, f.cdr.car, name, p, env, s);
    } else if k > 0 {
      CallInOrder(n, Finite(d), f, env, s, [], [s], 0);
    }
  }

  // ------------------------------------------------------------ procedures

  const ANY_NUMBER: set<PrimOp> := {Add, Mul, List}
  const AT_LEAST_ONE: set<PrimOp> := {Sub, Div}
  const AT_LEAST_TWO: set<PrimOp> := {NumEq, NumLt, NumGt, NumLe, NumGe}
  const EXACTLY_ONE: set<PrimOp> :=
    {Car, Cdr, Length, NullP, PairP, NumberP, SymbolP, StringP, ProcedureP, BooleanP, Not}
  const EXACTLY_TWO: set<PrimOp> := {Cons, Quotient, Remainder, Modulo, EqP, EqvP, EqualP}

  predicate Accepts(op: PrimOp, argc: nat) {
    || op in ANY_NUMBER
    || (op in AT_LEAST_ONE && argc >= 1)
    || (op in AT_LEAST_TWO && argc >= 2)
    || (op in EXACTLY_ONE && argc == 1)
    || (op in EXACTLY_TWO && argc == 2)
  }

  /** A built-in procedure and the wrong number of arguments is an ARITY error; what is no procedure is a TYPE error. */
  lemma PrimitiveArity(n: nat, l: Limit, proc: Value, argv: seq<Value>, s: Store)
    requires !proc.Closure?
    ensures !proc.Prim? ==> Apply(n, l, proc, argv, s) == Fail(TypeError, s)
    ensures proc.Prim? ==> (ArityOk(proc.op, |argv|) <==> Accepts(proc.op, |argv|))
    ensures proc.Prim? ==>
      Apply(n, l, proc, argv, s) == if Accepts(proc.op, |argv|) then ApplyPrim(proc.op, argv, s) else Fail(Arity, s)
  {
    assert proc.Prim? ==> (ArityOk(proc.op, |argv|) <==> Accepts(proc.op, |argv|));
  }

  /** = < > <= >= on numbers: whether the arguments are equal, increasing, decreasing, never fall or never rise. */
  lemma ComparisonLaws(argv: seq<Value>, s: Store)
    requires |argv| >= 2 && AllFix(argv)
    ensures ApplyPrim(NumEq, argv, s) == Done(Bool(AllEqual(argv)), s)
    ensures ApplyPrim(NumLt, argv, s) == Done(Bool(Increasing(argv)), s)
    ensures ApplyPrim(NumGt, argv, s) == Done(Bool(Decreasing(argv)), s)
    ensures ApplyPrim(NumLe, argv, s) == Done(Bool(NeverFalls(argv)), s)
    ensures ApplyPrim(NumGe, argv, s) == Done(Bool(NeverRises(argv)), s)
  {
    hide AllEqual, Increasing, Decreasing, NeverFalls, NeverRises, CmpSpec;
    ComparisonsMean(CmpEq, argv);
    ComparisonsMean(CmpLt, argv);
    ComparisonsMean(CmpGt, argv);
    ComparisonsMean(CmpLe, argv);
    ComparisonsMean(CmpGe, argv);
  }

  /** + and * give the sum and the product of numbers whenever every prefix stays in range, and else an error. */
  lemma ArithmeticLaws(argv: seq<Value>, s: Store)
    ensures var r := ApplyPrim(Add, argv, s);
      if forall k | 0 <= k <= |argv| :: SumsFit(argv, k) then
        AllFix(argv) && FitsFixnum(Sum(argv)) && r == Done(Fix(Sum(argv)), s)
      else r.Fail? && r.store == s
    ensures var r := ApplyPrim(Mul, argv, s);
      if forall k | 0 <= k <= |argv| :: ProductsFit(argv, k) then
        AllFix(argv) && FitsFixnum(Product(argv)) && r == Done(Fix(Product(argv)), s)
      else r.Fail? && r.store == s
  {
    hide SumsFit, ProductsFit;
    AddMeans(argv);
    MulMeans(argv);
  }

  /** - and / of several numbers: the first less the sum of the others, and its quotient by their product, truncated. */
  lemma DifferenceLaws(argv: seq<Value>, s: Store)
    requires |argv| > 1 && argv[0].Fix?
    ensures var r := ApplyPrim(Sub, argv, s);
      if forall k | 0 <= k < |argv| :: DifferencesFit(argv[0].n, argv[1..], k) then
        r.Done? && AllFix(argv[1..]) && IsFix(r.value, argv[0].n - Sum(argv[1..])) && r.store == s
      else r.Fail? && r.store == s
    ensures var r := ApplyPrim(Div, argv, s);
      if forall k | 0 <= k < |argv| :: QuotientsFit(argv[0].n, argv[1..], k) then
        && r.Done? && AllFix(argv[1..]) && Product(argv[1..]) != 0
        && IsFix(r.value, TruncDiv(argv[0].n, Product(argv[1..]))) && r.store == s
      else r.Fail? && r.store == s
  {
    hide DifferencesFit, QuotientsFit;
    SubMeans(argv);
    DivMeans(argv);
  }

  /** With one argument - negates and / takes the reciprocal, which only 1 and -1 have as more than 0. */
  lemma UnaryLaws(a: Fixnum, s: Store)
    ensures var r := ApplyPrim(Sub, [Fix(a)], s);
      if a == FIX_MIN then r == Fail(Overflow, s) else r.Done? && IsFix(r.value, -(a as int)) && r.store == s
    ensures var r := ApplyPrim(Div, [Fix(a)], s);
      r == if a == 0 then Fail(DivZero, s) else if a == 1 || a == -1 then Done(Fix(a), s) else Done(Fix(0), s)
  {
    var argv: seq<Value> := [Fix(a)];
    SubMeans(argv);
    DivMeans(argv);
    assert DivFold(1, argv) == if a == 0 then Err(DivZero) else DivFold(TruncDiv(1, a), argv[1..]);
    if a == FIX_MIN {
      assert Fold(Minus, 0, argv) == Err(Overflow);
    }
    if a != 0 {
      SmallQuotient(a);
    }
  }

  /** quotient, remainder and modulo of fixnums, with their errors. */
  lemma IntegerDivisionLaws(a: Value, b: Value, s: Store)
    ensures var q, r := ApplyPrim(Quotient, [a, b], s), ApplyPrim(Remainder, [a, b], s);
      var m := ApplyPrim(Modulo, [a, b], s);
      if !a.Fix? || !b.Fix? then q == r == m == Fail(TypeError, s)
      else if b.n == 0 then q == r == m == Fail(DivZero, s)
      else
        && (if a.n == FIX_MIN && b.n == -1 then q == Fail(Overflow, s) else q.Done?)
        && r.Done? && r.value.Fix? && m.Done? && m.value.Fix?
        && (q.Done? ==> q.value.Fix? && a.n == b.n * q.value.n + r.value.n)
        && Abs(r.value.n) < Abs(b.n) && Abs(m.value.n) < Abs(b.n)
        && (r.value.n != 0 ==> (r.value.n < 0) == (a.n < 0))
        && (m.value.n != 0 ==> (m.value.n < 0) == (b.n < 0))
        && (exists k :: a.n == b.n * k + m.value.n)
  {
    if a.Fix? && b.Fix? && b.n != 0 {
      DivisionLaws(a.n, b.n);
      DivOverflowsOnlyAtMin(a.n, b.n);
    }
  }

  /** car and cdr undo cons, whose pair is new; of anything but a pair they are TYPE errors. */
  lemma PairLaws(a: Value, b: Value, v: Value, s: Store)
    ensures var o := ApplyPrim(Cons, [a, b], s);
      && o.Done? && o.value.Pair? && o.value.id == s.nextId && o.store == s.(nextId := s.nextId + 1)
      && ApplyPrim(Car, [o.value], o.store) == Done(a, o.store)
      && ApplyPrim(Cdr, [o.value], o.store) == Done(b, o.store)
    ensures !v.Pair? ==> ApplyPrim(Car, [v], s) == ApplyPrim(Cdr, [v], s) == Fail(TypeError, s)
  {
  }

  /** (list x ...) is a new proper list of its arguments, as long as they are many. */
  lemma ListLaws(argv: seq<Value>, v: Value, s: Store)
    ensures var o := ApplyPrim(List, argv, s);
      && o.Done? && Binding.FreshList(o.value, argv, s.nextId)
      && (|argv| <= FIX_MAX ==> ApplyPrim(Length, [o.value], o.store) == Done(Fix(|argv|), o.store))
    ensures !ProperList(v) ==> ApplyPrim(Length, [v], s) == Fail(TypeError, s)
  {
    Binding.ListIsFresh(argv, s);
  }

  /** eq? is identity, eqv? also takes strings with the same bytes, and equal? is structural, within its depth limit. */
  lemma EqualityLaws(a: Value, b: Value, s: Store)
    ensures ApplyPrim(EqP, [a, b], s) == Done(if a == b then True else False, s)
    ensures ApplyPrim(EqvP, [a, b], s) ==
      Done(if a == b || (a.Str? && b.Str? && a.bytes == b.bytes) then True else False, s)
    ensures ApplyPrim(EqualP, [a, b], s) ==
      if Equality.WalkDepth(a, b) < s.maxEqual then Done(if Equality.StructEqual(a, b) then True else False, s)
      else Fail(EqualDepth, s)
  {
    Equality.BoundedEqualIsExact(s.maxEqual, a, b);
  }

  // The type predicates, in the order of section 3.2 of R5RS.
  const TYPES: seq<PrimOp> := [BooleanP, SymbolP, StringP, ProcedureP, PairP, NumberP, NullP]

  // What each of them is about.
  function TypeOf(v: Value): Option<nat> {
    match v
    case True => Some(0)
    case False => Some(0)
    case Sym(_) => Some(1)
    case Str(_, _) => Some(2)
    case Closure(_, _, _, _, _, _) => Some(3)
    case Prim(_, _) => Some(3)
    case Pair(_, _, _) => Some(4)
    case Fix(_) => Some(5)
    case Nil => Some(6)
    case _ => None
  }

  /** No value satisfies two type predicates; only the end of file, the unspecified value and frames satisfy none. */
  lemma TypesAreDisjoint(v: Value, i: nat, s: Store)
    requires i < |TYPES|
    ensures ApplyPrim(TYPES[i], [v], s) == Done(if TypeOf(v) == Some(i) then True else False, s)
    ensures ApplyPrim(Not, [v], s) == Done(if v == False then True else False, s)
  {
  }

  /** A chain that meets something other than a number is false if it broke before, and else a TYPE error. */
  lemma {:induction false} ChainWithStranger(op: CmpOp, argv: seq<Value>, k: nat)
    requires k < |argv| && !argv[k].Fix? && AllFix(argv[..k])
    ensures CmpSpec(op, argv) == if Ordered(op, argv[..k]) then Err(TypeError) else Val(False)
    decreases k
  {
    if k > 1 {
      var rest := argv[1..];
      assert rest[..k - 1] == argv[..k][1..];
      ChainWithStranger(op, rest, k - 1);
      ChainIsPairwise(op, argv[..k]);
      ChainIsPairwise(op, rest[..k - 1]);
      assert argv[..k][0] == argv[0] && argv[..k][1] == argv[1];
    } else if k == 1 {
      assert argv[1..][0] == argv[1];
    }
  }
}
