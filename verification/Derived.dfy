/**
 * Derived expression types against their expansions (section 7.3 of R5RS): the
 * loops for `and`, `or` and `cond` have the same outcome, store and depth use as
 * the nested forms they abbreviate, for chains of any length.
 */
module Derived {
  import opened Basics
  import opened Terms
  import opened Prims
  import opened Semantics
  import opened Stability

  // Shapes of forms.  The identities of their cells are arbitrary: no evaluation
  // of a form looks at them.
  predicate IsForm(f: Value, keyword: nat, args: Value) {
    f.Pair? && f.car == Sym(keyword) && f.cdr == args
  }

  predicate IsList1(v: Value, a: Value) {
    v.Pair? && v.car == a && v.cdr == Nil
  }

  predicate IsList2(v: Value, a: Value, b: Value) {
    v.Pair? && v.car == a && IsList1(v.cdr, b)
  }

  // (keyword a b)
  predicate IsForm2(f: Value, keyword: nat, a: Value, b: Value) {
    f.Pair? && f.car == Sym(keyword) && IsList2(f.cdr, a, b)
  }

  // (keyword a b c)
  predicate IsForm3(f: Value, keyword: nat, a: Value, b: Value, c: Value) {
    f.Pair? && f.car == Sym(keyword) && f.cdr.Pair? && f.cdr.car == a && IsList2(f.cdr.cdr, b, c)
  }

  // The two forms have the same outcomes in place, at every depth.
  ghost predicate Equivalent(l: Limit, f: Value, g: Value, env: nat, s: Store) {
    forall r :: Runs(l, f, env, s, r) <==> Runs(l, g, env, s, r)
  }

  lemma RunForm(n: nat, l: Limit, f: Value, keyword: nat, env: nat, s: Store)
    requires keyword <= COND && f.Pair? && f.car == Sym(keyword)
    ensures Run(n, l, f, env, s) == Special(n, l, keyword, f.cdr, env, s)
  {
  }

  // ------------------------------------------------------------ and

  // `e` is the expansion of `and` over `args`:
  // (and) => #t, (and e) => e, (and e1 e2 ...) => (if e1 (and e2 ...) #f)
  predicate IsAndExpansion(args: Value, e: Value) {
    if !args.Pair? then e == True
    else if !args.cdr.Pair? then e == args.car
    else
      && e.Pair? && e.cdr.Pair? && e.cdr.cdr.Pair?
      && IsForm3(e, IF, args.car, e.cdr.cdr.car, False)
      && IsAndExpansion(args.cdr, e.cdr.cdr.car)
  }

  lemma RunIf(n: nat, l: Limit, f: Value, test: Value, a: Value, b: Value, env: nat, s: Store)
    requires IsForm3(f, IF, test, a, b)
    ensures var o := Eval(n, l, test, env, s);
      Run(n, l, f, env, s) == if o.Done? then Tail(n, l, if Truthy(o.value) then a else b, env, o.store) else o
  {
    var branches := f.cdr.cdr;
    RunForm(n, l, f, IF, env, s);
    assert Special(n, l, IF, f.cdr, env, s) == If(n, l, f.cdr, env, s);
    assert If(n, l, f.cdr, env, s) == Test(n, l, test, branches, env, s);
    var o := Eval(n, l, test, env, s);
    if o.Done? {
      assert Test(n, l, test, branches, env, s) == Branch(n, l, o.value, branches, env, o.store);
    }
  }

  // The loop's outcome is the expansion's, given a little more fuel for the nesting.
  lemma {:induction false} AndToIf(n: nat, l: Limit, args: Value, e: Value, env: nat, s: Store)
    requires args.Pair? && ProperList(args) && IsAndExpansion(args, e)
    requires !Operands(n, l, false, args, env, s).OutOfFuel?
    ensures Run(n + ListLength(args).value, l, e, env, s) == Operands(n, l, false, args, env, s)
    decreases args
  {
    var k := ListLength(args).value;
    if args.cdr.Pair? {
      var rest := e.cdr.cdr.car;
      EvalStable(n, l, n + k, l, true, args.car, env, s);
      RunIf(n + k, l, e, args.car, rest, False, env, s);
      var o := Eval(n, l, args.car, env, s);
      if o.Done? && Truthy(o.value) {
        AndToIf(n, l, args.cdr, rest, env, o.store);
      }
    } else {
      RunStable(n - 1, l, n + k, l, true, args.car, env, s);
    }
  }

  lemma {:induction false} IfToAnd(n: nat, l: Limit, args: Value, e: Value, env: nat, s: Store)
    requires args.Pair? && ProperList(args) && IsAndExpansion(args, e)
    requires !Run(n, l, e, env, s).OutOfFuel?
    ensures Operands(n + 1, l, false, args, env, s) == Run(n, l, e, env, s)
    decreases args
  {
    if args.cdr.Pair? {
      var rest := e.cdr.cdr.car;
      RunIf(n, l, e, args.car, rest, False, env, s);
      EvalStable(n, l, n + 1, l, true, args.car, env, s);
      var o := Eval(n, l, args.car, env, s);
      if o.Done? && Truthy(o.value) {
        IfToAnd(n - 1, l, args.cdr, rest, env, o.store);
        OperandsStable(n, l, n + 1, l, true, false, args.cdr, env, o.store);
      }
    }
  }

  /** `and` over any proper list is the nested `if`, wherever the cells of either form are. */
  lemma AndIsNestedIf(l: Limit, f: Value, args: Value, e: Value, env: nat, s: Store)
    requires IsForm(f, AND, args) && ProperList(args) && IsAndExpansion(args, e)
    ensures Equivalent(l, f, e, env, s)
  {
    forall r ensures Runs(l, f, env, s, r) <==> Runs(l, e, env, s, r) {
      if Runs(l, f, env, s, r) {
        var n: nat :| Run(n, l, f, env, s) == r;
        RunAnd(n, l, f, env, s);
        if args != Nil {
          AndToIf(n, l, args, e, env, s);
        } else {
          assert Run(n, l, True, env, s) == r;
        }
      }
      if Runs(l, e, env, s, r) {
        var n: nat :| Run(n, l, e, env, s) == r;
        RunAnd(n + 1, l, f, env, s);
        if args != Nil {
          IfToAnd(n, l, args, e, env, s);
        }
        assert Run(n + 1, l, f, env, s) == r;
      }
    }
  }

  lemma RunAnd(n: nat, l: Limit, f: Value, env: nat, s: Store)
    requires f.Pair? && f.car == Sym(AND) && ProperList(f.cdr)
    ensures Run(n, l, f, env, s) == if f.cdr == Nil then Done(True, s) else Operands(n, l, false, f.cdr, env, s)
  {
    RunForm(n, l, f, AND, env, s);
    assert Special(n, l, AND, f.cdr, env, s) == AndOr(n, l, false, f.cdr, env, s);
  }

  // ------------------------------------------------------------ cond

  // `e` is the expansion of `cond` over `clauses`, a nest of `if`, `or` and
  // `begin`.  A malformed clause becomes (quote), a syntax error when reached.
  predicate IsCondExpansion(clauses: Value, e: Value) {
    if !clauses.Pair? then IsForm(e, BEGIN, Nil)
    else if !clauses.car.Pair? then IsForm(e, QUOTE, Nil)
    else if clauses.car.car == Sym(ELSE) then IsForm(e, BEGIN, clauses.car.cdr)
    else if clauses.car.cdr == Nil then
      && e.Pair? && e.cdr.Pair? && e.cdr.cdr.Pair?
      && IsForm2(e, OR, clauses.car.car, e.cdr.cdr.car)
      && IsCondExpansion(clauses.cdr, e.cdr.cdr.car)
    else
      && e.Pair? && e.cdr.Pair? && e.cdr.cdr.Pair? && e.cdr.cdr.cdr.Pair?
      && IsForm3(e, IF, clauses.car.car, e.cdr.cdr.car, e.cdr.cdr.cdr.car)
      && IsForm(e.cdr.cdr.car, BEGIN, clauses.car.cdr)
      && IsCondExpansion(clauses.cdr, e.cdr.cdr.cdr.car)
  }

  lemma RunOr(n: nat, l: Limit, f: Value, a: Value, b: Value, env: nat, s: Store)
    requires IsForm2(f, OR, a, b)
    ensures var o := Eval(n, l, a, env, s);
      Run(n, l, f, env, s) == if o.Done? && !Truthy(o.value) then Tail(n, l, b, env, o.store) else o
  {
    var args := f.cdr;
    assert ProperList(args) by {
      SmallLists(args);
    }
    RunForm(n, l, f, OR, env, s);
    assert Special(n, l, OR, args, env, s) == AndOr(n, l, true, args, env, s);
    assert AndOr(n, l, true, args, env, s) == Operands(n, l, true, args, env, s);
    var o := Eval(n, l, a, env, s);
    if o.Done? && !Truthy(o.value) {
      assert Operands(n, l, true, args, env, s) == Operands(n, l, true, args.cdr, env, o.store);
    }
  }

  lemma RunBegin(n: nat, l: Limit, f: Value, forms: Value, env: nat, s: Store)
    requires IsForm(f, BEGIN, forms)
    ensures Run(n, l, f, env, s) == Sequence(n, l, forms, env, s)
  {
  }

  // An empty quotation is a syntax error.
  lemma RunMalformed(n: nat, l: Limit, f: Value, env: nat, s: Store)
    requires IsForm(f, QUOTE, Nil)
    ensures Run(n, l, f, env, s) == Fail(Syntax, s)
  {
  }

  lemma {:induction false} CondToExpansion(n: nat, l: Limit, clauses: Value, e: Value, env: nat, s: Store)
    requires ProperList(clauses) && IsCondExpansion(clauses, e)
    requires !Clauses(n, l, clauses, env, s).OutOfFuel?
    ensures Run(n + 1 + ListLength(clauses).value, l, e, env, s) == Clauses(n, l, clauses, env, s)
    decreases clauses
  {
    var k := n + 1 + ListLength(clauses).value;
    if !clauses.Pair? {
      RunBegin(k, l, e, Nil, env, s);
    } else {
      var clause := clauses.car;
      if !clause.Pair? {
        RunMalformed(k, l, e, env, s);
      } else if clause.car == Sym(ELSE) {
        RunBegin(k, l, e, clause.cdr, env, s);
        SequenceStable(n, l, k, l, true, clause.cdr, env, s);
      } else {
        EvalStable(n, l, k, l, true, clause.car, env, s);
        var o := Eval(n, l, clause.car, env, s);
        if clause.cdr == Nil {
          var rest := e.cdr.cdr.car;
          RunOr(k, l, e, clause.car, rest, env, s);
          if o.Done? && !Truthy(o.value) {
            CondToExpansion(n, l, clauses.cdr, rest, env, o.store);
          }
        } else {
          var begin, rest := e.cdr.cdr.car, e.cdr.cdr.cdr.car;
          RunIf(k, l, e, clause.car, begin, rest, env, s);
          if o.Done? && !Truthy(o.value) {
            CondToExpansion(n, l, clauses.cdr, rest, env, o.store);
          } else if o.Done? {
            RunBegin(k - 1, l, begin, clause.cdr, env, o.store);
            SequenceStable(n, l, k - 1, l, true, clause.cdr, env, o.store);
          }
        }
      }
    }
  }

  lemma {:induction false} ExpansionToCond(n: nat, l: Limit, clauses: Value, e: Value, env: nat, s: Store)
    requires ProperList(clauses) && IsCondExpansion(clauses, e)
    requires !Run(n, l, e, env, s).OutOfFuel?
    ensures Clauses(n, l, clauses, env, s) == Run(n, l, e, env, s)
    decreases clauses
  {
    if !clauses.Pair? {
      RunBegin(n, l, e, Nil, env, s);
    } else {
      var clause := clauses.car;
      if !clause.Pair? {
        RunMalformed(n, l, e, env, s);
      } else if clause.car == Sym(ELSE) {
        RunBegin(n, l, e, clause.cdr, env, s);
      } else if clause.cdr == Nil {
        var rest := e.cdr.cdr.car;
        RunOr(n, l, e, clause.car, rest, env, s);
        var o := Eval(n, l, clause.car, env, s);
        if o.Done? && !Truthy(o.value) {
          ExpansionToCond(n - 1, l, clauses.cdr, rest, env, o.store);
          ClausesStable(n - 1, l, n, l, true, clauses.cdr, env, o.store);
        }
      } else {
        var begin, rest := e.cdr.cdr.car, e.cdr.cdr.cdr.car;
        RunIf(n, l, e, clause.car, begin, rest, env, s);
        var o := Eval(n, l, clause.car, env, s);
        if o.Done? && !Truthy(o.value) {
          ExpansionToCond(n - 1, l, clauses.cdr, rest, env, o.store);
          ClausesStable(n - 1, l, n, l, true, clauses.cdr, env, o.store);
        } else if o.Done? {
          RunBegin(n - 1, l, begin, clause.cdr, env, o.store);
          SequenceStable(n - 1, l, n, l, true, clause.cdr, env, o.store);
        }
      }
    }
  }

  /** `cond` over any proper list of clauses is its nest of `if`, `or` and `begin`, wherever the cells of either are. */
  lemma CondIsExpansion(l: Limit, f: Value, clauses: Value, e: Value, env: nat, s: Store)
    requires IsForm(f, COND, clauses) && ProperList(clauses) && IsCondExpansion(clauses, e)
    ensures Equivalent(l, f, e, env, s)
  {
    forall r ensures Runs(l, f, env, s, r) <==> Runs(l, e, env, s, r) {
      if Runs(l, f, env, s, r) {
        var n: nat :| Run(n, l, f, env, s) == r;
        RunCond(n, l, f, env, s);
        CondToExpansion(n, l, clauses, e, env, s);
      }
      if Runs(l, e, env, s, r) {
        var n: nat :| Run(n, l, e, env, s) == r;
        ExpansionToCond(n, l, clauses, e, env, s);
        RunCond(n, l, f, env, s);
      }
    }
  }

  lemma RunCond(n: nat, l: Limit, f: Value, env: nat, s: Store)
    requires f.Pair? && f.car == Sym(COND) && ProperList(f.cdr)
    ensures Run(n, l, f, env, s) == Clauses(n, l, f.cdr, env, s)
  {
    RunForm(n, l, f, COND, env, s);
    assert Special(n, l, COND, f.cdr, env, s) == Cond(n, l, f.cdr, env, s);
  }

  /** Every list of operands, and every list of clauses, has an expansion. */
  lemma {:induction false} ExpansionsExist(v: Value) returns (conjunction: Value, nest: Value)
    ensures IsAndExpansion(v, conjunction) && IsCondExpansion(v, nest)
    decreases v
  {
    conjunction, nest := True, Pair(0, Sym(BEGIN), Nil);
    if v.Pair? {
      var c, r := ExpansionsExist(v.cdr);
      conjunction := if v.cdr.Pair? then Pair(0, Sym(IF), Pair(1, v.car, Pair(2, c, Pair(3, False, Nil)))) else v.car;
      if !v.car.Pair? {
        nest := Pair(0, Sym(QUOTE), Nil);
      } else if v.car.car == Sym(ELSE) {
        nest := Pair(0, Sym(BEGIN), v.car.cdr);
      } else if v.car.cdr == Nil {
        nest := Pair(0, Sym(OR), Pair(1, v.car.car, Pair(2, r, Nil)));
      } else {
        var begin := Pair(1, Sym(BEGIN), v.car.cdr);
        nest := Pair(0, Sym(IF), Pair(2, v.car.car, Pair(3, begin, Pair(4, r, Nil))));
      }
    }
  }

  // ------------------------------------------------------------ or

  // The operands' stores along a run that has found every earlier operand false.
  ghost predicate AllFalse(n: nat, l: Limit, operands: seq<Value>, env: nat, stores: seq<Store>) {
    && |stores| == |operands| + 1
    && forall i | 0 <= i < |operands| :: Eval(n, l, operands[i], env, stores[i]) == Done(False, stores[i + 1])
  }

  /** `or` evaluates operands left to right, each once, and stops at the first that is not false. */
  lemma {:induction false} OrStopsAtFirstTrue(n: nat, l: Limit, args: Value, env: nat, s: Store)
    returns (k: nat, stores: seq<Store>)
    requires args.Pair? && ProperList(args)
    requires !Operands(n, l, true, args, env, s).OutOfFuel?
    ensures k < |Elements(args)| && AllFalse(n, l, Elements(args)[..k], env, stores) && stores[0] == s
    ensures var e := Elements(args)[k];
      if k == |Elements(args)| - 1 then Operands(n, l, true, args, env, s) == Tail(n, l, e, env, stores[k])
      else && Operands(n, l, true, args, env, s) == Eval(n, l, e, env, stores[k])
           && (Eval(n, l, e, env, stores[k]).Done? ==> Truthy(Eval(n, l, e, env, stores[k]).value))
    decreases args
  {
    k, stores := 0, [s];
    if args.cdr.Pair? {
      var o := Eval(n, l, args.car, env, s);
      if o.Done? && !Truthy(o.value) {
        var k1, stores1 := OrStopsAtFirstTrue(n, l, args.cdr, env, o.store);
        k, stores := k1 + 1, [s] + stores1;
        var es, es1 := Elements(args)[..k], Elements(args.cdr)[..k1];
        forall i | 0 <= i < |es| ensures Eval(n, l, es[i], env, stores[i]) == Done(False, stores[i + 1]) {
          if i > 0 {
            assert es[i] == es1[i - 1];
            assert Eval(n, l, es1[i - 1], env, stores1[i - 1]) == Done(False, stores1[i - 1 + 1]);
          }
        }
      }
    }
  }
}
