/**
 * `let` is the application of a lambda expression (section 4.2.2 of R5RS): same
 * status and value, and stores equal up to a renaming of fresh addresses.
 */
module LetLambda {
  import opened Basics
  import opened Terms
  import opened Frames
  import opened Prims
  import opened Semantics
  import opened Renaming
  import opened Simulation
  import Stability
  import Derived

  // ((x init) ...), duplicates allowed.
  predicate Bindings(b: Value) {
    if b.Pair? then IsBinding(b.car) && Bindings(b.cdr) else b == Nil
  }

  function Count(b: Value): nat {
    if b.Pair? then 1 + Count(b.cdr) else 0
  }

  // `p` lists the names of the bindings `b`: (x ...)
  predicate ListsNames(p: Value, b: Value)
    requires Bindings(b)
  {
    if b.Pair? then p.Pair? && p.car == b.car.car && ListsNames(p.cdr, b.cdr) else p == Nil
  }

  // `a` lists their initialisers: (init ...)
  predicate ListsInits(a: Value, b: Value)
    requires Bindings(b)
  {
    if b.Pair? then a.Pair? && a.car == b.car.cdr.car && ListsInits(a.cdr, b.cdr) else a == Nil
  }

  // (keyword first . body), in any cells
  predicate IsBlock(f: Value, keyword: nat, first: Value, body: Value) {
    f.Pair? && f.car == Sym(keyword) && f.cdr.Pair? && f.cdr.car == first && f.cdr.cdr == body
  }

  // ((lambda (x ...) . body) init ...), in any cells
  predicate IsLetApplication(f: Value, b: Value, body: Value)
    requires Bindings(b)
  {
    && f.Pair? && f.car.Pair? && f.car.cdr.Pair?
    && IsBlock(f.car, LAMBDA, f.car.cdr.car, body)
    && ListsNames(f.car.cdr.car, b)
    && ListsInits(f.cdr, b)
  }

  ghost function IdentityMap(n: nat): (m: map<nat, nat>)
    ensures forall a: nat :: a in m <==> a < n
    ensures forall a | a in m :: m[a] == a
  {
    if n == 0 then map[] else IdentityMap(n - 1)[n - 1 := n - 1]
  }

  // The renaming that leaves every address of `s` alone.
  ghost function Identity(s: Store): Names {
    Names(IdentityMap(|s.frames|), IdentityMap(s.nextId))
  }

  // Everything stored in `s` refers to frames and identities of `s`, and chains are acyclic.
  ghost predicate Scoped(s: Store) {
    SameStore(Identity(s), s, s)
  }

  ghost predicate ScopedValue(v: Value, s: Store) {
    Same(Identity(s), v, v)
  }

  // Equal up to a renaming `r` that leaves the addresses in `base` alone, and up
  // to objects that neither run can reach any more.
  ghost predicate Agree(base: Names, r: Names, o: Outcome<Value>, o': Outcome<Value>) {
    match o
    case Done(v, s) => o'.Done? && Extends(base, r) && Same(r, v, o'.value) && SameStore(r, s, o'.store)
    case Fail(st, s) => o'.Fail? && Extends(base, r) && st == o'.st && SameStore(r, s, o'.store)
    case OutOfFuel => o'.OutOfFuel?
  }

  // ------------------------------------------------------------ binding a frame

  // The frame after defining the names of `b` one by one.
  function DefineAll(f: Frame, b: Value, vs: seq<Value>): Frame
    requires Bindings(b)
    decreases b
  {
    if b.Pair? && vs != [] then DefineAll(DefineIn(f, b.car.car.idx, vs[0]), b.cdr, vs[1..]) else f
  }

  lemma SameDefineIn(r: Names, e: nat, f: Frame, e': nat, f': Frame, name: nat, v: Value, w: Value)
    requires SameFrame(r, e, f, e', f') && Same(r, v, w)
    ensures SameFrame(r, e, DefineIn(f, name, v), e', DefineIn(f', name, w))
  {
  }

  lemma {:induction false} SameDefineAll(r: Names, e: nat, f: Frame, e': nat, f': Frame, b: Value, vs: seq<Value>,
                                         ws: seq<Value>)
    requires Bindings(b) && SameFrame(r, e, f, e', f') && SameAll(r, vs, ws)
    ensures SameFrame(r, e, DefineAll(f, b, vs), e', DefineAll(f', b, ws))
    decreases b
  {
    if b.Pair? && vs != [] {
      assert Same(r, vs[0], ws[0]);
      SameDefineIn(r, e, f, e', f', b.car.car.idx, vs[0], ws[0]);
      var name := b.car.car.idx;
      SameDefineAll(r, e, DefineIn(f, name, vs[0]), e', DefineIn(f', name, ws[0]), b.cdr, vs[1..], ws[1..]);
    }
  }

  // Binding the lambda's parameters defines the same names in the same order.
  lemma {:induction false} PositionalDefinesAll(p: Value, b: Value, ws: seq<Value>, inner: nat, t: Store)
    requires Bindings(b) && ListsNames(p, b) && |ws| == Count(b) && inner < |t.frames|
    ensures Positional(p, ws, inner, t)
         == Done(Nil, t.(frames := t.frames[inner := DefineAll(t.frames[inner], b, ws)]))
    decreases b
  {
    if b.Pair? {
      var t1 := t.(frames := Define(t.frames, inner, b.car.car.idx, ws[0]));
      PositionalDefinesAll(p.cdr, b.cdr, ws[1..], inner, t1);
      assert t1.frames[inner := DefineAll(t1.frames[inner], b.cdr, ws[1..])]
          == t.frames[inner := DefineAll(t.frames[inner], b, ws)];
    } else {
      assert t.frames[inner := t.frames[inner]] == t.frames;
    }
  }

  lemma {:induction false} NamesShape(p: Value, b: Value)
    requires Bindings(b) && ListsNames(p, b)
    ensures Shape(p) == Some((Count(b), false))
    decreases b
  {
    if b.Pair? {
      NamesShape(p.cdr, b.cdr);
    }
  }

  lemma {:induction false} InitsShape(a: Value, b: Value)
    requires Bindings(b) && ListsInits(a, b)
    ensures ProperList(a) && ProperList(b)
    decreases b
  {
    if b.Pair? {
      InitsShape(a.cdr, b.cdr);
    }
  }

  lemma {:induction false} BindingsAreProper(b: Value)
    requires Bindings(b)
    ensures ProperList(b)
  {
    if b.Pair? {
      BindingsAreProper(b.cdr);
    }
  }

  // ------------------------------------------------------------ initialisers against arguments

  // A definition in a frame that the renaming does not mention.
  lemma DefineUnnamed(r: Names, s: Store, t: Store, inner: nat, f: Frame)
    requires SameStore(r, s, t) && inner < |s.frames| && inner !in r.frames
    ensures SameStore(r, s.(frames := s.frames[inner := f]), t)
  {
    var s' := s.(frames := s.frames[inner := f]);
    forall k | k in r.frames ensures SameAt(r, s', t, k) {
      assert SameAt(r, s, t, k);
    }
  }

  // How the initialisers of a let, bound as they are evaluated, relate to the
  // arguments of the call, bound afterwards.
  ghost predicate Tracks(r: Names, r': Names, b: Value, inner: nat, f: Frame, o: Outcome<Value>,
                         a: Outcome<seq<Value>>, vs: seq<Value>)
    requires Bindings(b)
  {
    match o
    case Done(_, s') =>
      && a.Done? && |vs| == Count(b) && SameAll(r', vs, a.value)
      && Extends(r, r') && SameStore(r', s', a.store)
      && inner < |s'.frames| && inner !in r'.frames && s'.frames[inner] == DefineAll(f, b, vs)
    case Fail(st, s') => a.Fail? && st == a.st && Extends(r, r') && SameStore(r', s', a.store)
    case OutOfFuel => a.OutOfFuel?
  }

  lemma {:induction false} InitsTrackArgs(n: nat, l: Limit, r: Names, b: Value, a: Value, env: nat, inner: nat,
                                          s: Store, t: Store)
    returns (r': Names, vs: seq<Value>)
    requires Bindings(b) && ListsInits(a, b) && SameStore(r, s, t) && Same(r, b, b) && Maps(r.frames, env, env)
    requires inner < |s.frames| && inner !in r.frames
    ensures Tracks(r, r', b, inner, s.frames[inner], Inits(n, l, b, env, inner, s), ArgList(n, l, a, env, t), vs)
    decreases b
  {
    r', vs := r, [];
    if b.Pair? {
      var init, name := b.car.cdr.car, b.car.car.idx;
      SameCells(r, b.car, b.car);
      r' := EvalSim(n, l, r, s, t, init, init, env, env);
      var o, o' := Eval(n, l, init, env, s), Eval(n, l, init, env, t);
      if o.Done? {
        var r1, s1, t1 := r', o.store, o'.store;
        var f := s.frames[inner];
        assert s1.frames[inner] == f && inner !in r1.frames;
        var s2 := s1.(frames := Define(s1.frames, inner, name, o.value));
        assert Init(n, l, b.car, env, inner, s) == Done(Undef, s2);
        DefineUnnamed(r1, s1, t1, inner, DefineIn(f, name, o.value));
        SameExtends(r, r1, b.cdr, b.cdr);
        var rest;
        r', rest := InitsTrackArgs(n, l, r1, b.cdr, a.cdr, env, inner, s2, t1);
        vs := [o.value] + rest;
        ExtendsAll(r, r1, r');
        TracksStep(n, l, r, r1, r', b, a, env, inner, f, s, t, o, o', s2, rest);
      } else {
        assert Init(n, l, b.car, env, inner, s) == o == Inits(n, l, b, env, inner, s);
        assert ArgList(n, l, a, env, t) == o'.PropagateFailure<seq<Value>>();
      }
    } else {
      assert ArgList(n, l, a, env, t) == Done([], t);
    }
  }

  lemma ExtendsAll(r: Names, r1: Names, r2: Names)
    ensures Extends(r, r1) && Extends(r1, r2) ==> Extends(r, r2)
  {
    if Extends(r, r1) && Extends(r1, r2) {
      ExtendsTransitive(r, r1, r2);
    }
  }

  lemma TracksStep(n: nat, l: Limit, r: Names, r1: Names, r2: Names, b: Value, a: Value, env: nat, inner: nat, f: Frame,
                   s: Store, t: Store, o: Outcome<Value>, o': Outcome<Value>, s2: Store, rest: seq<Value>)
    requires b.Pair? && Bindings(b) && ListsInits(a, b)
    requires o.Done? && o'.Done? && Extends(r, r1) && Same(r1, o.value, o'.value)
    requires o == Eval(n, l, b.car.cdr.car, env, s) && o' == Eval(n, l, b.car.cdr.car, env, t)
    requires Init(n, l, b.car, env, inner, s) == Done(Undef, s2)
    requires Tracks(r1, r2, b.cdr, inner, DefineIn(f, b.car.car.idx, o.value), Inits(n, l, b.cdr, env, inner, s2),
                    ArgList(n, l, a.cdr, env, o'.store), rest)
    requires Extends(r1, r2) ==> Extends(r, r2)
    ensures Tracks(r, r2, b, inner, f, Inits(n, l, b, env, inner, s), ArgList(n, l, a, env, t), [o.value] + rest)
  {
    var others := ArgList(n, l, a.cdr, env, o'.store);
    assert Inits(n, l, b, env, inner, s) == Inits(n, l, b.cdr, env, inner, s2);
    assert ArgList(n, l, a, env, t) == ArgRest(n, l, o'.value, a.cdr, env, o'.store);
    if others.Done? {
      SameExtends(r1, r2, o.value, o'.value);
      SameAllCons(r2, o.value, o'.value, rest, others.value);
      assert ([o.value] + rest)[1..] == rest;
    }
  }

  // ------------------------------------------------------------ the theorem

  lemma OperatorValue(n: nat, l: Limit, f: Value, b: Value, body: Value, env: nat, t: Store)
    requires n >= 1 && l != Finite(0) && Bindings(b) && IsBody(body) && IsLetApplication(f, b, body)
    ensures Eval(n, l, f.car, env, t)
         == Done(Closure(t.nextId, env, f.car.cdr.car, body, false, Count(b)), t.(nextId := t.nextId + 1))
  {
    NamesShape(f.car.cdr.car, b);
    Derived.RunForm(n - 1, Deeper(l), f.car, LAMBDA, env, t);
  }

  // The let expression as the loop runs it.
  lemma RunLet(n: nat, l: Limit, f: Value, b: Value, body: Value, env: nat, s: Store)
    requires Bindings(b) && IsBody(body) && IsBlock(f, LET, b, body)
    ensures Run(n, l, f, env, s)
         == InitsThenBody(n, l, b, body, env, |s.frames|, NewFrame(env, s))
  {
    BindingsAreProper(b);
    Derived.RunForm(n, l, f, LET, env, s);
    assert Special(n, l, LET, f.cdr, env, s) == Let(n, l, Parallel, f.cdr, env, s);
    assert Let(n, l, Parallel, f.cdr, env, s)
        == LetBody(n, l, Parallel, b, body, env, |s.frames|, NewFrame(env, s));
  }

  // The application, once the arguments have been evaluated.
  lemma RunApplication(n: nat, l: Limit, f: Value, b: Value, body: Value, env: nat, s: Store)
    requires n >= 1 && l != Finite(0) && Bindings(b) && IsBody(body) && IsLetApplication(f, b, body)
    ensures var t := s.(nextId := s.nextId + 1);
      var a := ArgList(n, l, f.cdr, env, t);
      Run(n, l, f, env, s) ==
      (if a.Done? && |a.value| == Count(b) then
         var inner := |a.store.frames|;
         var frame := DefineAll(EmptyFrame(Some(env)), b, a.value);
         Sequence(n, l, body, inner, a.store.(frames := a.store.frames + [frame]))
       else if a.Done? then Fail(Arity, a.store) else a.PropagateFailure<Value>())
  {
    InitsShape(f.cdr, b);
    OperatorValue(n, l, f, b, body, env, s);
    var t := s.(nextId := s.nextId + 1);
    var proc := Closure(s.nextId, env, f.car.cdr.car, body, false, Count(b));
    assert Run(n, l, f, env, s) == CallWith(n, l, proc, f.cdr, env, t);
    var a := ArgList(n, l, f.cdr, env, t);
    assert Args(n, l, f.cdr, env, t) == a;
    if a.Done? {
      assert CallWith(n, l, proc, f.cdr, env, t) == Apply(n, l, proc, a.value, a.store);
      if |a.value| == Count(b) {
        BindApplication(proc, b, a.value, a.store);
      }
    }
  }

  lemma BindApplication(proc: Value, b: Value, ws: seq<Value>, t: Store)
    requires proc.Closure? && Bindings(b) && ListsNames(proc.params, b)
    requires !proc.variadic && proc.arityMin == Count(b) == |ws|
    ensures BindClosure(proc, ws, t) ==
      Done(|t.frames|, t.(frames := t.frames + [DefineAll(EmptyFrame(Some(proc.env)), b, ws)]))
  {
    var inner, t1 := |t.frames|, NewFrame(proc.env, t);
    PositionalDefinesAll(proc.params, b, ws, inner, t1);
    assert ws[..|ws|] == ws;
    var frame := DefineAll(EmptyFrame(Some(proc.env)), b, ws);
    assert t1.frames[inner := DefineAll(t1.frames[inner], b, ws)] == t.frames + [frame];
  }

  lemma {:induction false} ArgCount(n: nat, l: Limit, b: Value, a: Value, env: nat, t: Store)
    requires Bindings(b) && ListsInits(a, b) && ArgList(n, l, a, env, t).Done?
    ensures |ArgList(n, l, a, env, t).value| == Count(b)
    decreases b
  {
    if b.Pair? {
      var o := Eval(n, l, a.car, env, t);
      assert ArgList(n, l, a, env, t) == ArgRest(n, l, o.value, a.cdr, env, o.store);
      ArgCount(n, l, b.cdr, a.cdr, env, o.store);
    }
  }

  // Both bodies start from frames that are copies of each other.
  lemma EnterBodies(r: Names, s: Store, t: Store, b: Value, vs: seq<Value>, ws: seq<Value>, env: nat, inner: nat)
    returns (r': Names)
    requires Bindings(b) && SameStore(r, s, t) && SameAll(r, vs, ws) && Maps(r.frames, env, env) && env < inner
    requires inner < |s.frames| && inner !in r.frames && s.frames[inner] == DefineAll(EmptyFrame(Some(env)), b, vs)
    ensures var t' := t.(frames := t.frames + [DefineAll(EmptyFrame(Some(env)), b, ws)]);
      Extends(r, r') && SameStore(r', s, t') && Maps(r'.frames, inner, |t.frames|)
  {
    var inner' := |t.frames|;
    var t' := t.(frames := t.frames + [DefineAll(EmptyFrame(Some(env)), b, ws)]);
    assert SameAt(r, s, t, env);
    forall k | k in r.frames ensures SameAt(r, s, t', k) && r.frames[k] != inner' {
      assert SameAt(r, s, t, k);
    }
    SameDefineAll(r, inner, EmptyFrame(Some(env)), inner', EmptyFrame(Some(env)), b, vs, ws);
    r' := WithFrame(r, inner, inner');
    NameFrame(r, s, t', inner, inner');
  }

  // With no depth left, the first initialiser fails as the operator does.
  lemma BothTooDeep(n: nat, f: Value, g: Value, b: Value, body: Value, env: nat, s: Store) returns (r: Names)
    requires n >= 1 && b.Pair? && Bindings(b) && IsBody(body) && env < |s.frames| && Scoped(s)
    requires IsBlock(f, LET, b, body) && IsLetApplication(g, b, body)
    ensures Agree(Identity(s), r, Run(n, Finite(0), f, env, s), Run(n, Finite(0), g, env, s))
    ensures Run(n, Finite(0), f, env, s).Fail? && Run(n, Finite(0), f, env, s).st == EvalDepth
  {
    r := Identity(s);
    var inner, s1 := |s.frames|, NewFrame(env, s);
    RunLet(n, Finite(0), f, b, body, env, s);
    assert Init(n, Finite(0), b.car, env, inner, s1) == Fail(EvalDepth, s1);
    assert Inits(n, Finite(0), b, env, inner, s1) == Fail(EvalDepth, s1);
    ApplicationTooDeep(n, g, b, body, env, s);
    forall k | k in r.frames ensures SameAt(r, s1, s, k) {
      assert SameAt(r, s, s, k);
    }
  }

  // Its operator is a nested evaluation.
  lemma ApplicationTooDeep(n: nat, g: Value, b: Value, body: Value, env: nat, s: Store)
    requires n >= 1 && Bindings(b) && IsLetApplication(g, b, body)
    ensures Run(n, Finite(0), g, env, s) == Fail(EvalDepth, s)
  {
    assert Eval(n, Finite(0), g.car, env, s) == Fail(EvalDepth, s);
  }

  /**
   * At depth zero a let without bindings needs no nested evaluation and its
   * application does: `(let () 1)` gives 1, `((lambda () 1))` EVAL_DEPTH.
   */
  lemma EmptyLetAtDepthZero(f: Value, g: Value, body: Value, n: nat, env: nat, s: Store)
    requires IsBlock(f, LET, Nil, body) && IsLetApplication(g, Nil, body) && Derived.IsList1(body, Fix(1))
    requires n >= 1
    ensures Run(n, Finite(0), f, env, s) == Done(Fix(1), NewFrame(env, s))
    ensures Run(n, Finite(0), g, env, s) == Fail(EvalDepth, s)
  {
    SmallLists(body);
    RunLet(n, Finite(0), f, Nil, body, env, s);
    var inner, s1 := |s.frames|, NewFrame(env, s);
    assert Inits(n, Finite(0), Nil, env, inner, s1) == Done(Undef, s1);
    assert Run(n - 1, Finite(0), Fix(1), inner, s1) == Done(Fix(1), s1);
    assert Sequence(n, Finite(0), body, inner, s1) == Forms(n, Finite(0), body, inner, s1)
        == Tail(n, Finite(0), Fix(1), inner, s1);
    ApplicationTooDeep(n, g, Nil, body, env, s);
  }

  /** With the same fuel, a let and the application of its lambda expression agree. */
  lemma LetAgreesWithApplication(n: nat, l: Limit, f: Value, g: Value, b: Value, body: Value, env: nat, s: Store)
    returns (r: Names)
    requires n >= 1 && (l != Finite(0) || b.Pair?) && Bindings(b) && IsBody(body) && env < |s.frames|
    requires IsBlock(f, LET, b, body) && IsLetApplication(g, b, body)
    requires Scoped(s) && ScopedValue(b, s) && ScopedValue(body, s)
    ensures Agree(Identity(s), r, Run(n, l, f, env, s), Run(n, l, g, env, s))
  {
    if l == Finite(0) {
      r := BothTooDeep(n, f, g, b, body, env, s);
      return;
    }
    var r0, inner := Identity(s), |s.frames|;
    var s1, t1 := NewFrame(env, s), s.(nextId := s.nextId + 1);
    StartTogether(s, env);
    var r1, vs := InitsTrackArgs(n, l, r0, b, g.cdr, env, inner, s1, t1);
    var o, a := Inits(n, l, b, env, inner, s1), ArgList(n, l, g.cdr, env, t1);
    RunLet(n, l, f, b, body, env, s);
    RunApplication(n, l, g, b, body, env, s);
    r := r1;
    if o.Done? {
      ArgCount(n, l, b, g.cdr, env, t1);
      assert Maps(r0.frames, env, env);
      var r2 := EnterBodies(r1, o.store, a.store, b, vs, a.value, env, inner);
      ExtendsTransitive(r0, r1, r2);
      SameExtends(r0, r2, body, body);
      var t2 := a.store.(frames := a.store.frames + [DefineAll(EmptyFrame(Some(env)), b, a.value)]);
      r := SequenceSim(n, l, r2, o.store, t2, body, body, inner, |a.store.frames|);
      ExtendsAll(r0, r2, r);
    }
  }

  lemma StartTogether(s: Store, env: nat)
    requires Scoped(s) && env < |s.frames|
    ensures SameStore(Identity(s), NewFrame(env, s), s.(nextId := s.nextId + 1))
    ensures |s.frames| !in Identity(s).frames
  {
    var r := Identity(s);
    forall k | k in r.frames ensures SameAt(r, NewFrame(env, s), s.(nextId := s.nextId + 1), k) {
      assert SameAt(r, s, s, k);
    }
  }

  // Some renaming of addresses that are fresh after `s` makes the two outcomes equal.
  ghost predicate EqualUpToRenaming(s: Store, o: Outcome<Value>, o': Outcome<Value>) {
    exists r :: Agree(Identity(s), r, o, o')
  }

  /**
   * Every outcome of the let is, up to renaming, an outcome of the application under the same depth
   * limit, and the other way round: duplicate names and errors part-way included, wherever the cells
   * of either form are.  Only without depth and without bindings they differ (EmptyLetAtDepthZero).
   */
  lemma LetIsApplication(l: Limit, f: Value, g: Value, b: Value, body: Value, env: nat, s: Store, o: Outcome<Value>)
    requires (l != Finite(0) || b.Pair?) && Bindings(b) && IsBody(body) && env < |s.frames|
    requires IsBlock(f, LET, b, body) && IsLetApplication(g, b, body)
    requires Scoped(s) && ScopedValue(b, s) && ScopedValue(body, s)
    ensures Stability.Runs(l, f, env, s, o) ==>
      exists o' :: Stability.Runs(l, g, env, s, o') && EqualUpToRenaming(s, o, o')
    ensures Stability.Runs(l, g, env, s, o) ==>
      exists o' :: Stability.Runs(l, f, env, s, o') && EqualUpToRenaming(s, o', o)
  {
    hide Run, Scoped, ScopedValue;
    if Stability.Runs(l, f, env, s, o) {
      var n: nat :| Run(n, l, f, env, s) == o;
      Stability.RunStable(n, l, n + 1, l, true, f, env, s);
      var r := LetAgreesWithApplication(n + 1, l, f, g, b, body, env, s);
      var o' := Run(n + 1, l, g, env, s);
      assert Agree(Identity(s), r, o, o');
      assert Stability.Runs(l, g, env, s, o');
    }
    if Stability.Runs(l, g, env, s, o) {
      var n: nat :| Run(n, l, g, env, s) == o;
      Stability.RunStable(n, l, n + 1, l, true, g, env, s);
      var r := LetAgreesWithApplication(n + 1, l, f, g, b, body, env, s);
      var o' := Run(n + 1, l, f, env, s);
      assert Agree(Identity(s), r, o', o);
      assert Stability.Runs(l, f, env, s, o');
    }
  }

  // ------------------------------------------------------------ reachable states stay scoped

  /** Evaluation from a scoped state leaves a scoped state: no dangling reference, frame chains acyclic. */
  lemma EvalKeepsScoped(n: nat, l: Limit, form: Value, env: nat, s: Store)
    requires Scoped(s) && ScopedValue(form, s) && env < |s.frames|
    ensures var o := Eval(n, l, form, env, s);
      (o.Done? ==> Scoped(o.store) && ScopedValue(o.value, o.store)) && (o.Fail? ==> Scoped(o.store))
  {
    var r := EvalSim(n, l, Identity(s), s, s, form, form, env, env);
    var o := Eval(n, l, form, env, s);
    if !o.OutOfFuel? {
      ScopedFromSelf(Identity(s), s, r, o.store);
      if o.Done? {
        SameSelf(r, o.store, o.value, o.value);
      }
    }
  }

  lemma {:induction false} SameSelf(r: Names, s: Store, v: Value, w: Value)
    requires Same(r, v, w) && SameStore(r, s, s)
    ensures ScopedValue(v, s)
    decreases v
  {
    match v
    case Pair(id, car, cdr) =>
      SameSelf(r, s, car, w.car);
      SameSelf(r, s, cdr, w.cdr);
    case Closure(id, env, params, body, variadic, arityMin) =>
      assert SameAt(r, s, s, env);
      SameSelf(r, s, params, w.params);
      SameSelf(r, s, body, w.body);
    case Env(frame) =>
      assert SameAt(r, s, s, frame);
    case _ =>
  }

  lemma ScopedFromSelf(r0: Names, s0: Store, r: Names, s: Store)
    requires r0 == Identity(s0) && Evolves(r0, s0, s0, r, s, s)
    ensures Scoped(s)
  {
    var id := Identity(s);
    forall e | e in id.frames ensures SameAt(id, s, s, e) {
      if e < |s0.frames| {
        assert e in r0.frames && Maps(r.frames, e, r0.frames[e]);
      }
      assert SameAt(r, s, s, e);
      var f, f' := s.frames[e], s.frames[r.frames[e]];
      forall i | 0 <= i < |f.values| ensures Same(id, f.values[i], f.values[i]) {
        SameSelf(r, s, f.values[i], f'.values[i]);
      }
    }
  }
}
