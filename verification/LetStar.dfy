/**
 * `let*` as it is implemented: one frame, in which every initialiser is
 * evaluated and bound in turn.  That makes it a block of internal definitions,
 * (let () (define x1 e1) ... . body), with the same outcomes and the same stores.
 */
module LetStar {
  import opened Basics
  import opened Terms
  import opened Prims
  import opened Semantics
  import opened Stability
  import opened Derived

  // `block` is a definition for each binding, followed by `body`.  A malformed
  // binding becomes (quote), a syntax error when reached.
  predicate IsDefineBlock(block: Value, b: Value, body: Value) {
    if b.Pair? then
      && block.Pair?
      && (if IsBinding(b.car) then IsForm2(block.car, DEFINE, b.car.car, b.car.cdr.car)
          else IsForm(block.car, QUOTE, Nil))
      && IsDefineBlock(block.cdr, b.cdr, body)
    else block == body
  }

  // (let* b . body)
  predicate IsLetStar(f: Value, b: Value, body: Value) {
    f.Pair? && f.car == Sym(LET_STAR) && f.cdr.Pair? && f.cdr.car == b && f.cdr.cdr == body
  }

  // (let () . block)
  predicate IsBareLet(f: Value, block: Value) {
    f.Pair? && f.car == Sym(LET) && f.cdr.Pair? && f.cdr.car == Nil && f.cdr.cdr == block
  }

  lemma {:induction false} BlockIsBody(block: Value, b: Value, body: Value)
    requires IsDefineBlock(block, b, body) && IsBody(body)
    ensures IsBody(block)
    decreases b
  {
    if b.Pair? {
      BlockIsBody(block.cdr, b.cdr, body);
    }
  }

  lemma RunLetStar(n: nat, l: Limit, f: Value, b: Value, body: Value, env: nat, s: Store)
    requires IsLetStar(f, b, body) && ProperList(b) && IsBody(body)
    ensures Run(n, l, f, env, s) == InitsThenBody(n, l, b, body, |s.frames|, |s.frames|, NewFrame(env, s))
  {
    RunForm(n, l, f, LET_STAR, env, s);
    assert Special(n, l, LET_STAR, f.cdr, env, s) == Let(n, l, Sequential, f.cdr, env, s);
    assert Let(n, l, Sequential, f.cdr, env, s)
        == LetBody(n, l, Sequential, b, body, env, |s.frames|, NewFrame(env, s));
  }

  lemma RunBareLet(n: nat, l: Limit, f: Value, block: Value, env: nat, s: Store)
    requires IsBareLet(f, block) && IsBody(block)
    ensures Run(n, l, f, env, s) == Sequence(n, l, block, |s.frames|, NewFrame(env, s))
  {
    var inner, s1 := |s.frames|, NewFrame(env, s);
    RunForm(n, l, f, LET, env, s);
    assert Special(n, l, LET, f.cdr, env, s) == Let(n, l, Parallel, f.cdr, env, s);
    assert Let(n, l, Parallel, f.cdr, env, s) == LetBody(n, l, Parallel, Nil, block, env, inner, s1);
    assert LetBody(n, l, Parallel, Nil, block, env, inner, s1)
        == InitsThenBody(n, l, Nil, block, env, inner, s1);
    assert Inits(n, l, Nil, env, inner, s1) == Done(Undef, s1);
  }

  // Evaluating one definition of the block is evaluating and binding one initialiser, one level deeper.
  lemma RunDefine(n: nat, l: Limit, d: Value, b: Value, inner: nat, s: Store)
    requires l != Finite(0) && IsBinding(b) && IsForm2(d, DEFINE, b.car, b.cdr.car)
    ensures Eval(n + 1, l, d, inner, s) == Init(n, Deeper(l), b, inner, inner, s)
  {
    RunForm(n, Deeper(l), d, DEFINE, inner, s);
    assert Special(n, Deeper(l), DEFINE, d.cdr, inner, s) == DefineForm(n, Deeper(l), d.cdr, inner, s);
    assert DefineForm(n, Deeper(l), d.cdr, inner, s)
        == DefineValue(n, Deeper(l), b.car.idx, b.cdr.car, inner, s);
  }

  lemma RunMalformedBinding(n: nat, l: Limit, d: Value, inner: nat, s: Store)
    requires n >= 1 && l != Finite(0) && IsForm(d, QUOTE, Nil)
    ensures Eval(n, l, d, inner, s) == Fail(Syntax, s)
  {
    RunMalformed(n - 1, Deeper(l), d, inner, s);
  }

  // One turn of the let* loop.
  lemma StarStep(n: nat, l: Limit, b: Value, body: Value, inner: nat, s: Store)
    requires b.Pair?
    ensures InitsThenBody(n, l, b, body, inner, inner, s) ==
      if !IsBinding(b.car) then Fail(Syntax, s)
      else
        var o := Init(n, l, b.car, inner, inner, s);
        if o.Done? then InitsThenBody(n, l, b.cdr, body, inner, inner, o.store) else o
  {
    if IsBinding(b.car) {
      var o := Init(n, l, b.car, inner, inner, s);
      if o.Done? {
        assert Inits(n, l, b, inner, inner, s) == Inits(n, l, b.cdr, inner, inner, o.store);
      }
    }
  }

  // One form of a block that is not the last.
  lemma BlockStep(n: nat, l: Limit, block: Value, inner: nat, s: Store)
    requires IsBody(block) && IsBody(block.cdr)
    ensures Sequence(n, l, block, inner, s) ==
      var o := Eval(n, l, block.car, inner, s);
      if o.Done? then Sequence(n, l, block.cdr, inner, o.store) else o
  {
    assert Sequence(n, l, block, inner, s) == Forms(n, l, block, inner, s);
  }

  // The block has one level more: its definitions leave the initialisers what the let* leaves them.
  lemma {:induction false} StarToBlock(n: nat, l: Limit, l': Limit, same: bool, block: Value, b: Value, body: Value,
                                       inner: nat, s: Store)
    requires IsDefineBlock(block, b, body) && IsBody(body)
    requires l' != Finite(0) && Deeper(l') == l && Above(l, l', same)
    requires Settled(InitsThenBody(n, l, b, body, inner, inner, s), same)
    ensures Sequence(n + 1, l', block, inner, s) == InitsThenBody(n, l, b, body, inner, inner, s)
    decreases b
  {
    BlockIsBody(block, b, body);
    if b.Pair? {
      BlockIsBody(block.cdr, b.cdr, body);
      StarStep(n, l, b, body, inner, s);
      BlockStep(n + 1, l', block, inner, s);
      if IsBinding(b.car) {
        RunDefine(n, l', block.car, b.car, inner, s);
        var o := Init(n, l, b.car, inner, inner, s);
        if o.Done? {
          StarToBlock(n, l, l', same, block.cdr, b.cdr, body, inner, o.store);
        }
      } else {
        RunMalformedBinding(n + 1, l', block.car, inner, s);
      }
    } else {
      assert Inits(n, l, b, inner, inner, s) == Done(Undef, s);
      SequenceStable(n, l, n + 1, l', same, body, inner, s);
    }
  }

  // Under one limit the let* has more depth to spare than the block.
  lemma {:induction false} BlockToStar(n: nat, l: Limit, same: bool, block: Value, b: Value, body: Value, inner: nat,
                                       s: Store)
    requires IsDefineBlock(block, b, body) && IsBody(body) && (same ==> l == Unlimited)
    requires Settled(Sequence(n, l, block, inner, s), same)
    ensures InitsThenBody(n, l, b, body, inner, inner, s) == Sequence(n, l, block, inner, s)
    decreases b
  {
    BlockIsBody(block, b, body);
    if b.Pair? {
      BlockIsBody(block.cdr, b.cdr, body);
      StarStep(n, l, b, body, inner, s);
      BlockStep(n, l, block, inner, s);
      assert n >= 1 && l != Finite(0);
      if IsBinding(b.car) {
        RunDefine(n - 1, l, block.car, b.car, inner, s);
        InitStable(n - 1, Deeper(l), n, l, same, b.car, inner, inner, s);
        var o := Init(n, l, b.car, inner, inner, s);
        if o.Done? {
          BlockToStar(n, l, same, block.cdr, b.cdr, body, inner, o.store);
        }
      } else {
        RunMalformedBinding(n, l, block.car, inner, s);
      }
    } else {
      assert Inits(n, l, b, inner, inner, s) == Done(Undef, s);
    }
  }

  /**
   * With unlimited depth, a `let*` has exactly the outcomes, stores included, of the
   * block of internal definitions: any proper list of bindings, duplicate names,
   * malformed bindings and closures over the frame included.
   */
  lemma LetStarIsInternalDefines(f: Value, g: Value, b: Value, body: Value, block: Value, env: nat, s: Store)
    requires ProperList(b) && IsBody(body) && IsDefineBlock(block, b, body)
    requires IsLetStar(f, b, body) && IsBareLet(g, block)
    ensures Equivalent(Unlimited, f, g, env, s)
  {
    forall r ensures Runs(Unlimited, f, env, s, r) <==> Runs(Unlimited, g, env, s, r) {
      if Runs(Unlimited, f, env, s, r) {
        StarRunsAsBlock(Unlimited, Unlimited, true, f, g, b, body, block, env, s, r);
      }
      if Runs(Unlimited, g, env, s, r) {
        BlockRunsAsStar(Unlimited, true, f, g, b, body, block, env, s, r);
      }
    }
  }

  lemma StarRunsAsBlock(l: Limit, l': Limit, same: bool, f: Value, g: Value, b: Value, body: Value, block: Value,
                        env: nat, s: Store, r: Outcome<Value>)
    requires ProperList(b) && IsBody(body) && IsDefineBlock(block, b, body)
    requires IsLetStar(f, b, body) && IsBareLet(g, block)
    requires l' != Finite(0) && Deeper(l') == l && Above(l, l', same)
    requires Runs(l, f, env, s, r) && Settled(r, same)
    ensures Runs(l', g, env, s, r)
  {
    var n: nat :| Run(n, l, f, env, s) == r;
    BlockIsBody(block, b, body);
    RunLetStar(n, l, f, b, body, env, s);
    StarToBlock(n, l, l', same, block, b, body, |s.frames|, NewFrame(env, s));
    RunBareLet(n + 1, l', g, block, env, s);
  }

  lemma BlockRunsAsStar(l: Limit, same: bool, f: Value, g: Value, b: Value, body: Value, block: Value, env: nat,
                        s: Store, r: Outcome<Value>)
    requires ProperList(b) && IsBody(body) && IsDefineBlock(block, b, body)
    requires IsLetStar(f, b, body) && IsBareLet(g, block) && (same ==> l == Unlimited)
    requires Runs(l, g, env, s, r) && Settled(r, same)
    ensures Runs(l, f, env, s, r)
  {
    var n: nat :| Run(n, l, g, env, s) == r;
    BlockIsBody(block, b, body);
    RunBareLet(n, l, g, block, env, s);
    BlockToStar(n, l, same, block, b, body, |s.frames|, NewFrame(env, s));
    RunLetStar(n, l, f, b, body, env, s);
  }

  /**
   * Under a finite limit the definitions cost one level that the bindings do not.
   * Every outcome of the block but EVAL_DEPTH is the let*'s under the same limit,
   * and every such outcome of the let* is the block's with one level more.
   */
  lemma LetStarCostsALevelLess(d: nat, f: Value, g: Value, b: Value, body: Value, block: Value, env: nat, s: Store,
                               r: Outcome<Value>)
    requires ProperList(b) && IsBody(body) && IsDefineBlock(block, b, body)
    requires IsLetStar(f, b, body) && IsBareLet(g, block)
    requires !(r.Fail? && r.st == EvalDepth)
    ensures Runs(Finite(d), g, env, s, r) ==> Runs(Finite(d), f, env, s, r)
    ensures Runs(Finite(d), f, env, s, r) ==> Runs(Finite(d + 1), g, env, s, r)
  {
    if Runs(Finite(d), g, env, s, r) {
      BlockRunsAsStar(Finite(d), false, f, g, b, body, block, env, s, r);
    }
    if Runs(Finite(d), f, env, s, r) {
      StarRunsAsBlock(Finite(d), Finite(d + 1), false, f, g, b, body, block, env, s, r);
    }
  }
}
