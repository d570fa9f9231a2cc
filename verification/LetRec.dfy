/**
 * `letrec` as it is implemented: every name is bound to the unspecified value in
 * one frame, and then every initialiser is evaluated there and bound in turn.
 * That makes it a block of internal definitions,
 * (let () (define x1 (if #f #f)) ... (define x1 e1) ... . body).
 */
module LetRec {
  import opened Basics
  import opened Terms
  import opened Frames
  import opened Prims
  import opened Semantics
  import opened Stability
  import opened Derived
  import opened LetStar

  // (name expression)
  predicate NamesExpression(b: Value) {
    b.Pair? && b.car.Sym? && b.cdr.Pair? && b.cdr.cdr == Nil
  }

  predicate AllBindings(b: Value) {
    b.Pair? ==> NamesExpression(b.car) && AllBindings(b.cdr)
  }

  // (letrec b . body)
  predicate IsLetrec(f: Value, b: Value, body: Value) {
    f.Pair? && f.car == Sym(LETREC) && f.cdr.Pair? && f.cdr.car == b && f.cdr.cdr == body
  }

  // (define name (if #f #f))
  predicate IsPredefinition(d: Value, name: Value) {
    d.Pair? && d.cdr.Pair? && d.cdr.cdr.Pair? && IsForm2(d, DEFINE, name, d.cdr.cdr.car)
    && IsForm2(d.cdr.cdr.car, IF, False, False)
  }

  // A definition of each name as unspecified, followed by `rest`.
  predicate IsPredefined(block: Value, b: Value, rest: Value)
    requires AllBindings(b)
  {
    if b.Pair? then
      block.Pair? && IsPredefinition(block.car, b.car.car) && IsPredefined(block.cdr, b.cdr, rest)
    else block == rest
  }

  // Room for a definition, its initialiser and that one's test.
  predicate Roomy(n: nat, l: Limit) {
    n >= 3 && (l.Finite? ==> l.left >= 3)
  }

  lemma {:induction false} PredefinedIsBody(block: Value, b: Value, rest: Value)
    requires AllBindings(b) && IsPredefined(block, b, rest) && IsBody(rest)
    ensures IsBody(block)
    decreases b
  {
    if b.Pair? {
      PredefinedIsBody(block.cdr, b.cdr, rest);
    }
  }

  lemma RunLetrec(n: nat, l: Limit, f: Value, b: Value, body: Value, env: nat, s: Store)
    requires IsLetrec(f, b, body) && ProperList(b) && IsBody(body)
    ensures Run(n, l, f, env, s) ==
      var inner := |s.frames|;
      var p := Predefine(b, inner, NewFrame(env, s));
      if p.Done? then InitsThenBody(n, l, b, body, inner, inner, p.store) else p
  {
    RunForm(n, l, f, LETREC, env, s);
    assert Special(n, l, LETREC, f.cdr, env, s) == Let(n, l, Recursive, f.cdr, env, s);
    assert Let(n, l, Recursive, f.cdr, env, s)
        == LetBody(n, l, Recursive, b, body, env, |s.frames|, NewFrame(env, s));
  }

  // (if #f #f) is unspecified, and takes two levels of nesting.
  lemma EvalUnspecified(n: nat, l: Limit, e: Value, env: nat, s: Store)
    requires IsForm2(e, IF, False, False)
    ensures n >= 2 && (l.Finite? ==> l.left >= 2) ==> Eval(n, l, e, env, s) == Done(Undef, s)
    ensures Settled(Eval(n, l, e, env, s), false) ==> n >= 2 && (l.Finite? ==> l.left >= 2)
  {
    if n > 0 && l != Finite(0) {
      var m, k := n - 1, Deeper(l);
      RunForm(m, k, e, IF, env, s);
      assert Special(m, k, IF, e.cdr, env, s) == If(m, k, e.cdr, env, s);
      assert If(m, k, e.cdr, env, s) == Test(m, k, False, e.cdr.cdr, env, s);
      if m > 0 && k != Finite(0) {
        assert Eval(m, k, False, env, s) == Done(False, s);
        assert Test(m, k, False, e.cdr.cdr, env, s) == Branch(m, k, False, e.cdr.cdr, env, s);
      } else {
        assert !Settled(Eval(m, k, False, env, s), false);
        assert Test(m, k, False, e.cdr.cdr, env, s) == Eval(m, k, False, env, s);
      }
    }
  }

  lemma EvalPredefinition(n: nat, l: Limit, d: Value, name: nat, inner: nat, s: Store)
    requires IsPredefinition(d, Sym(name))
    ensures Roomy(n, l) ==> Eval(n, l, d, inner, s) == DefineVar(inner, name, Undef, s)
    ensures Settled(Eval(n, l, d, inner, s), false) ==> Roomy(n, l)
  {
    if n > 0 && l != Finite(0) {
      var m, k, e := n - 1, Deeper(l), d.cdr.cdr.car;
      RunForm(m, k, d, DEFINE, inner, s);
      assert Special(m, k, DEFINE, d.cdr, inner, s) == DefineForm(m, k, d.cdr, inner, s);
      assert DefineForm(m, k, d.cdr, inner, s) == DefineValue(m, k, name, e, inner, s);
      EvalUnspecified(m, k, e, inner, s);
    }
  }

  // The definitions of the unspecified values bind the names, and nothing else.
  lemma {:induction false} PredefineAsBlock(n: nat, l: Limit, block: Value, b: Value, rest: Value, inner: nat, s: Store)
    requires AllBindings(b) && IsPredefined(block, b, rest) && IsBody(rest)
    requires inner < |s.frames| && (b.Pair? ==> Roomy(n, l))
    ensures var p := Predefine(b, inner, s);
      p.Done? && Sequence(n, l, block, inner, s) == Sequence(n, l, rest, inner, p.store)
    decreases b
  {
    if b.Pair? {
      PredefinedIsBody(block, b, rest);
      PredefinedIsBody(block.cdr, b.cdr, rest);
      BlockStep(n, l, block, inner, s);
      EvalPredefinition(n, l, block.car, b.car.car.idx, inner, s);
      var o := DefineVar(inner, b.car.car.idx, Undef, s);
      PredefineAsBlock(n, l, block.cdr, b.cdr, rest, inner, o.store);
      assert Predefine(b, inner, s) == Predefine(b.cdr, inner, o.store);
    }
  }

  // A block that ran to its end had the room its first definition takes.
  lemma PredefineHadRoom(n: nat, l: Limit, block: Value, b: Value, rest: Value, inner: nat, s: Store)
    requires AllBindings(b) && b.Pair? && IsPredefined(block, b, rest) && IsBody(rest)
    requires Settled(Sequence(n, l, block, inner, s), false)
    ensures Roomy(n, l)
  {
    PredefinedIsBody(block, b, rest);
    PredefinedIsBody(block.cdr, b.cdr, rest);
    BlockStep(n, l, block, inner, s);
    EvalPredefinition(n, l, block.car, b.car.car.idx, inner, s);
  }

  // The letrec form and the block it is compared with.
  predicate SamePrograms(f: Value, g: Value, b: Value, body: Value, block: Value, defines: Value) {
    && ProperList(b) && AllBindings(b) && IsBody(body)
    && IsDefineBlock(defines, b, body) && IsPredefined(block, b, defines)
    && IsLetrec(f, b, body) && IsBareLet(g, block)
  }

  lemma LetrecRunsAsBlock(l: Limit, l': Limit, same: bool, f: Value, g: Value, b: Value, body: Value, block: Value,
                          defines: Value, env: nat, s: Store, r: Outcome<Value>)
    requires SamePrograms(f, g, b, body, block, defines)
    requires l' != Finite(0) && Deeper(l') == l && Above(l, l', same) && Roomy(3, l')
    requires Runs(l, f, env, s, r) && Settled(r, same)
    ensures Runs(l', g, env, s, r)
  {
    var n: nat :| Run(n, l, f, env, s) == r;
    var inner, s0 := |s.frames|, NewFrame(env, s);
    BlockIsBody(defines, b, body);
    PredefinedIsBody(block, b, defines);
    RunLetrec(n, l, f, b, body, env, s);
    PredefineAsBlock(n + 3, l', block, b, defines, inner, s0);
    var s1 := Predefine(b, inner, s0).store;
    StarToBlock(n, l, l', same, defines, b, body, inner, s1);
    SequenceStable(n + 1, l', n + 3, l', true, defines, inner, s1);
    RunBareLet(n + 3, l', g, block, env, s);
  }

  lemma BlockRunsAsLetrec(l: Limit, same: bool, f: Value, g: Value, b: Value, body: Value, block: Value,
                          defines: Value, env: nat, s: Store, r: Outcome<Value>)
    requires SamePrograms(f, g, b, body, block, defines) && (same ==> l == Unlimited)
    requires Runs(l, g, env, s, r) && Settled(r, same)
    ensures Runs(l, f, env, s, r)
  {
    var m: nat :| Run(m, l, g, env, s) == r;
    var n, inner, s0 := m + 3, |s.frames|, NewFrame(env, s);
    RunStable(m, l, n, l, true, g, env, s);
    BlockIsBody(defines, b, body);
    PredefinedIsBody(block, b, defines);
    RunBareLet(n, l, g, block, env, s);
    if b.Pair? && l.Finite? {
      PredefineHadRoom(n, l, block, b, defines, inner, s0);
    }
    PredefineAsBlock(n, l, block, b, defines, inner, s0);
    BlockToStar(n, l, same, defines, b, body, inner, Predefine(b, inner, s0).store);
    RunLetrec(n, l, f, b, body, env, s);
  }

  /**
   * With unlimited depth, a `letrec` has exactly the outcomes, stores included, of
   * the block that defines every name as unspecified and then as its initialiser:
   * any proper list of bindings, duplicate names and procedures that call one
   * another included.
   */
  lemma LetrecIsInternalDefines(f: Value, g: Value, b: Value, body: Value, block: Value, defines: Value, env: nat,
                                s: Store)
    requires SamePrograms(f, g, b, body, block, defines)
    ensures Equivalent(Unlimited, f, g, env, s)
  {
    forall r ensures Runs(Unlimited, f, env, s, r) <==> Runs(Unlimited, g, env, s, r) {
      if Runs(Unlimited, f, env, s, r) {
        LetrecRunsAsBlock(Unlimited, Unlimited, true, f, g, b, body, block, defines, env, s, r);
      }
      if Runs(Unlimited, g, env, s, r) {
        BlockRunsAsLetrec(Unlimited, true, f, g, b, body, block, defines, env, s, r);
      }
    }
  }

  /**
   * Under a finite limit the definitions cost one level that the bindings do not,
   * and three at least.  Every outcome of the block but EVAL_DEPTH is the letrec's
   * under the same limit, and every such outcome of the letrec is the block's under
   * each higher limit from three on.
   */
  lemma LetrecCostsALevelLess(d: nat, d': nat, f: Value, g: Value, b: Value, body: Value, block: Value,
                              defines: Value, env: nat, s: Store, r: Outcome<Value>)
    requires SamePrograms(f, g, b, body, block, defines) && !(r.Fail? && r.st == EvalDepth)
    ensures Runs(Finite(d), g, env, s, r) ==> Runs(Finite(d), f, env, s, r)
    ensures d < d' && 3 <= d' && Runs(Finite(d), f, env, s, r) ==> Runs(Finite(d'), g, env, s, r)
  {
    if Runs(Finite(d), g, env, s, r) {
      BlockRunsAsLetrec(Finite(d), false, f, g, b, body, block, defines, env, s, r);
    }
    if d < d' && 3 <= d' && Runs(Finite(d), f, env, s, r) {
      var n: nat :| Run(n, Finite(d), f, env, s) == r;
      RunStable(n, Finite(d), n, Finite(d' - 1), false, f, env, s);
      LetrecRunsAsBlock(Finite(d' - 1), Finite(d'), false, f, g, b, body, block, defines, env, s, r);
    }
  }

  // ------------------------------------------------------------ malformed forms

  // `s'` is `s` with one more frame, in which every name is unspecified.
  ghost predicate OnlyPredefined(s: Store, s': Store) {
    && |s'.frames| == |s.frames| + 1 && s'.frames[..|s.frames|] == s.frames
    && (forall v | v in s'.frames[|s.frames|].values :: v == Undef)
    && s'.nextId == s.nextId && s'.maxEqual == s.maxEqual
  }

  lemma StillPredefined(s0: Store, s: Store, name: nat)
    requires OnlyPredefined(s0, s)
    ensures var o := DefineVar(|s0.frames|, name, Undef, s); o.Done? && OnlyPredefined(s0, o.store)
  {
    var inner := |s0.frames|;
    var f, f' := s.frames[inner], DefineIn(s.frames[inner], name, Undef);
    forall v | v in f'.values ensures v == Undef {
      var k :| 0 <= k < |f'.values| && f'.values[k] == v;
      assert k < |f.values| ==> f.values[k] in f.values;
    }
    var t := DefineVar(inner, name, Undef, s).store;
    assert t.frames[..inner] == s.frames[..inner];
  }

  lemma {:induction false} PredefineMalformed(b: Value, s0: Store, s: Store)
    requires ProperList(b) && !AllBindings(b) && OnlyPredefined(s0, s)
    ensures var p := Predefine(b, |s0.frames|, s);
      p.Fail? && p.st == Syntax && OnlyPredefined(s0, p.store)
    decreases b
  {
    if NamesExpression(b.car) {
      var o := DefineVar(|s0.frames|, b.car.car.idx, Undef, s);
      StillPredefined(s0, s, b.car.car.idx);
      PredefineMalformed(b.cdr, s0, o.store);
    }
  }

  /**
   * A malformed binding anywhere in a `letrec` is a syntax error before any
   * initialiser runs: it takes neither fuel nor depth, allocates no object and
   * leaves every frame as it was.
   */
  lemma MalformedLetrec(n: nat, l: Limit, f: Value, b: Value, body: Value, env: nat, s: Store)
    requires IsLetrec(f, b, body) && ProperList(b) && IsBody(body) && !AllBindings(b)
    ensures var r := Run(n, l, f, env, s); r.Fail? && r.st == Syntax && OnlyPredefined(s, r.store)
  {
    RunLetrec(n, l, f, b, body, env, s);
    PredefineMalformed(b, s, NewFrame(env, s));
  }

  /** A let or let* stops at a malformed binding when it comes to it: with the first one nothing has run. */
  lemma MalformedFirstBinding(n: nat, l: Limit, f: Value, keyword: nat, env: nat, s: Store)
    requires f.Pair? && f.car == Sym(keyword) && (keyword == LET || keyword == LET_STAR)
    requires f.cdr.Pair? && ProperList(f.cdr.car) && ProperList(f.cdr.cdr) && f.cdr.cdr != Nil
    requires f.cdr.car.Pair? && !NamesExpression(f.cdr.car.car)
    ensures var r := Run(n, l, f, env, s); r.Fail? && r.st == Syntax && OnlyPredefined(s, r.store)
  {
    var b, s1 := f.cdr.car, NewFrame(env, s);
    var initEnv := if keyword == LET then env else |s.frames|;
    RunForm(n, l, f, keyword, env, s);
    assert Inits(n, l, b, initEnv, |s.frames|, s1) == Fail(Syntax, s1);
    var kind := if keyword == LET then Parallel else Sequential;
    assert Special(n, l, keyword, f.cdr, env, s) == Let(n, l, kind, f.cdr, env, s);
    assert Let(n, l, kind, f.cdr, env, s) == LetBody(n, l, kind, b, f.cdr.cdr, env, |s.frames|, s1);
    assert Run(n, l, f, env, s) == InitsThenBody(n, l, b, f.cdr.cdr, initEnv, |s.frames|, s1);
  }

  /** The binding list must be proper and a body must follow it, or the store stays as it was. */
  lemma MalformedLetForm(n: nat, l: Limit, f: Value, keyword: nat, env: nat, s: Store)
    requires f.Pair? && f.car == Sym(keyword) && LET <= keyword <= LETREC
    requires !f.cdr.Pair? || !ProperList(f.cdr.car) || !ProperList(f.cdr.cdr) || f.cdr.cdr == Nil
    ensures Run(n, l, f, env, s) == Fail(Syntax, s)
  {
    RunForm(n, l, f, keyword, env, s);
  }
}
