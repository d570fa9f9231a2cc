/**
 * What a procedure call binds: the parameters of a lambda expression, read off
 * its parameter list, and the names its body sees once it is applied.
 */
module Binding {
  import opened Basics
  import opened Terms
  import opened Frames
  import opened Prims
  import opened Semantics
  import Derived

  // `params` is (name ...), (name ... . rest) or rest, in any cells.
  predicate ListsParameters(params: Value, names: seq<nat>, rest: Option<nat>)
    decreases names
  {
    if names == [] then params == (match rest case None => Nil case Some(x) => Sym(x))
    else params.Pair? && params.car == Sym(names[0]) && ListsParameters(params.cdr, names[1..], rest)
  }

  // The closure of a lambda expression with these parameters.
  predicate Takes(proc: Value, names: seq<nat>, rest: Option<nat>) {
    && proc.Closure? && ListsParameters(proc.params, names, rest)
    && proc.arityMin == |names| && proc.variadic == rest.Some?
  }

  predicate Accepts(names: seq<nat>, rest: Option<nat>, argc: nat) {
    argc == |names| || (argc > |names| && rest.Some?)
  }

  // The identities of a list's cells, from its head.
  function Spine(v: Value): seq<nat> {
    if v.Pair? then [v.id] + Spine(v.cdr) else []
  }

  // A list of `argv` in cells that did not exist when `next` was the next unused identity.
  predicate FreshList(v: Value, argv: seq<Value>, next: nat) {
    && ProperList(v) && Elements(v) == argv && |Spine(v)| == |argv|
    && forall i | 0 <= i < |argv| :: Spine(v)[i] == next + |argv| - 1 - i
  }

  // Everything but the bindings of frame `e`.
  ghost predicate SameBut(e: nat, s: Store, t: Store) {
    && |t.frames| == |s.frames| && s.maxEqual == t.maxEqual && s.nextId <= t.nextId
    && forall k | 0 <= k < |s.frames| ::
         t.frames[k].parent == s.frames[k].parent && (k != e ==> t.frames[k] == s.frames[k])
  }

  // From frame `e` each name is bound to its argument, the last one if it is repeated.
  ghost predicate SeesArguments(frames: seq<Frame>, e: nat, names: seq<nat>, rest: Option<nat>, argv: seq<Value>)
    requires |names| <= |argv|
  {
    forall i | 0 <= i < |names| && names[i] !in names[i + 1..] && rest != Some(names[i]) ::
      Lookup(frames, e, names[i]) == Some(argv[i])
  }

  // The store a call leaves its body: a new frame over the closure's environment.
  ghost predicate Entered(proc: Value, names: seq<nat>, rest: Option<nat>, argv: seq<Value>, s: Store, t: Store)
    requires proc.Closure? && |names| <= |argv|
  {
    var e := |s.frames|;
    && |t.frames| == e + 1 && t.frames[..e] == s.frames && t.maxEqual == s.maxEqual
    && t.frames[e].parent == Some(proc.env)
    && SeesArguments(t.frames, e, names, rest, argv)
    && (rest.Some? ==>
          var list := Lookup(t.frames, e, rest.value);
          list.Some? && FreshList(list.value, argv[|names|..], s.nextId))
    && t.nextId == s.nextId + |argv| - |names|
    && forall y | y !in names && rest != Some(y) :: Lookup(t.frames, e, y) == Lookup(s.frames, proc.env, y)
  }

  lemma {:induction false} ParametersShape(params: Value, names: seq<nat>, rest: Option<nat>)
    requires ListsParameters(params, names, rest)
    ensures Shape(params) == Some((|names|, rest.Some?))
    decreases names
  {
    if names != [] {
      ParametersShape(params.cdr, names[1..], rest);
    }
  }

  // A parameter list that has a shape lists some names.
  lemma {:induction false} ShapeLists(params: Value) returns (names: seq<nat>, rest: Option<nat>)
    ensures Shape(params).Some? ==> ListsParameters(params, names, rest)
  {
    names, rest := [], None;
    if params.Sym? {
      rest := Some(params.idx);
    } else if params.Pair? && params.car.Sym? {
      names, rest := ShapeLists(params.cdr);
      if Shape(params).Some? {
        names := [params.car.idx] + names;
        assert names[1..] == names[1..];
      }
    }
  }

  /**
   * A lambda expression is a closure over its environment that takes the listed
   * parameters; without a parameter list, or without a body, it is a syntax error.
   */
  lemma LambdaTakes(n: nat, l: Limit, f: Value, params: Value, body: Value, env: nat, s: Store)
    requires f.Pair? && f.car == Sym(LAMBDA) && f.cdr.Pair? && f.cdr.car == params && f.cdr.cdr == body
    ensures forall names, rest | ListsParameters(params, names, rest) && ProperList(body) && body != Nil ::
      var proc := Closure(s.nextId, env, params, body, rest.Some?, |names|);
      Run(n, l, f, env, s) == Done(proc, s.(nextId := s.nextId + 1)) && Takes(proc, names, rest)
    ensures !ProperList(body) || body == Nil || !(exists names, rest :: ListsParameters(params, names, rest)) ==>
      Run(n, l, f, env, s) == Fail(Syntax, s)
  {
    Derived.RunForm(n, l, f, LAMBDA, env, s);
    assert Run(n, l, f, env, s) == Lambda(f.cdr, env, s);
    forall names, rest | ListsParameters(params, names, rest)
      ensures Shape(params) == Some((|names|, rest.Some?))
    {
      ParametersShape(params, names, rest);
    }
    var names, rest := ShapeLists(params);
  }

  // Binding the leading parameters in turn.
  lemma {:induction false} PositionalBinds(params: Value, names: seq<nat>, rest: Option<nat>, argv: seq<Value>, e: nat,
                                           s: Store)
    requires ListsParameters(params, names, rest) && |argv| == |names| && e < |s.frames|
    ensures var o := Positional(params, argv, e, s);
      && o.Done? && ListsParameters(o.value, [], rest)
      && SameBut(e, s, o.store) && o.store.nextId == s.nextId
      && SeesArguments(o.store.frames, e, names, None, argv)
      && forall y | y !in names :: Lookup(o.store.frames, e, y) == Lookup(s.frames, e, y)
    decreases names
  {
    if names != [] {
      var s1 := DefineVar(e, names[0], argv[0], s).store;
      var o := Positional(params.cdr, argv[1..], e, s1);
      assert Positional(params, argv, e, s) == o;
      PositionalBinds(params.cdr, names[1..], rest, argv[1..], e, s1);
      forall i | 0 <= i < |names| && names[i] !in names[i + 1..]
        ensures Lookup(o.store.frames, e, names[i]) == Some(argv[i])
      {
        DefineAffectsOneName(s.frames, e, names[0], argv[0], e, names[0]);
        if i > 0 {
          assert names[1..][i - 1] == names[i] && argv[1..][i - 1] == argv[i];
          assert names[1..][i - 1 + 1..] == names[i + 1..];
        }
      }
      forall y | y !in names ensures Lookup(o.store.frames, e, y) == Lookup(s.frames, e, y) {
        DefineAffectsOneName(s.frames, e, names[0], argv[0], e, y);
      }
    }
  }

  // A list of values is built in fresh cells, the last cell first.
  lemma {:induction false} ListIsFresh(argv: seq<Value>, s: Store)
    ensures var o := NewList(argv, s);
      o.Done? && FreshList(o.value, argv, s.nextId) && o.store == s.(nextId := s.nextId + |argv|)
  {
    if argv != [] {
      ListIsFresh(argv[1..], s);
      var o := NewList(argv[1..], s);
      var v := NewList(argv, s).value;
      assert v == Pair(o.store.nextId, argv[0], o.value);
      assert Spine(v) == [v.id] + Spine(o.value);
    }
  }

  lemma FreshFrameSees(s: Store, parent: nat, y: nat)
    ensures Lookup(NewFrame(parent, s).frames, |s.frames|, y) == Lookup(s.frames, parent, y)
  {
    if parent < |s.frames| {
      HolderAppend(s.frames, EmptyFrame(Some(parent)), parent, y);
    }
  }

  // The new frame once the leading parameters are bound.
  ghost predicate Started(proc: Value, names: seq<nat>, rest: Option<nat>, argv: seq<Value>, s: Store,
                          p: Outcome<Value>)
    requires |names| <= |argv| && proc.Closure?
  {
    var e := |s.frames|;
    && p.Done? && ListsParameters(p.value, [], rest)
    && SameBut(e, NewFrame(proc.env, s), p.store) && p.store.nextId == s.nextId
    && SeesArguments(p.store.frames, e, names, None, argv)
    && forall y | y !in names :: Lookup(p.store.frames, e, y) == Lookup(s.frames, proc.env, y)
  }

  lemma CallStarts(proc: Value, names: seq<nat>, rest: Option<nat>, argv: seq<Value>, s: Store)
    requires Takes(proc, names, rest) && |names| <= |argv|
    ensures Started(proc, names, rest, argv, s,
                    Positional(proc.params, argv[..|names|], |s.frames|, NewFrame(proc.env, s)))
  {
    PositionalBinds(proc.params, names, rest, argv[..|names|], |s.frames|, NewFrame(proc.env, s));
    forall y ensures Lookup(NewFrame(proc.env, s).frames, |s.frames|, y) == Lookup(s.frames, proc.env, y) {
      FreshFrameSees(s, proc.env, y);
    }
  }

  lemma OlderFramesStay(proc: Value, s: Store, t: Store)
    requires proc.Closure? && SameBut(|s.frames|, NewFrame(proc.env, s), t)
    ensures |t.frames| == |s.frames| + 1 && t.frames[..|s.frames|] == s.frames
    ensures t.frames[|s.frames|].parent == Some(proc.env)
  {
  }

  // The rest parameter is bound last, to a list of the arguments that are left.
  lemma RestIsBound(proc: Value, names: seq<nat>, rest: Option<nat>, argv: seq<Value>, s: Store, p: Outcome<Value>)
    requires proc.Closure? && |names| <= |argv| && rest.Some? && Started(proc, names, rest, argv, s, p)
    ensures var list := NewList(argv[|names|..], p.store);
      Entered(proc, names, rest, argv, s, DefineVar(|s.frames|, rest.value, list.value, list.store).store)
  {
    var e, x := |s.frames|, rest.value;
    ListIsFresh(argv[|names|..], p.store);
    var list := NewList(argv[|names|..], p.store);
    var t := DefineVar(e, x, list.value, list.store).store;
    OlderFramesStay(proc, s, p.store);
    OlderFramesStay(proc, s, t);
    forall y ensures Lookup(t.frames, e, y) == if y == x then Some(list.value) else Lookup(p.store.frames, e, y) {
      DefineAffectsOneName(p.store.frames, e, x, list.value, e, y);
    }
  }

  /**
   * A call with the wrong number of arguments is an ARITY error that changes
   * nothing.  Any other call enters the body in a new frame in which each
   * parameter is its argument and the rest parameter is a new list of the others.
   */
  lemma CallBindsParameters(n: nat, l: Limit, proc: Value, names: seq<nat>, rest: Option<nat>, argv: seq<Value>,
                            s: Store)
    requires Takes(proc, names, rest)
    ensures !Accepts(names, rest, |argv|) ==>
      BindClosure(proc, argv, s) == Fail(Arity, s) && Apply(n, l, proc, argv, s) == Fail(Arity, s)
    ensures Accepts(names, rest, |argv|) ==>
      var o := BindClosure(proc, argv, s);
      && o.Done? && o.value == |s.frames|
      && Entered(proc, names, rest, argv, s, o.store)
      && Apply(n, l, proc, argv, s) == Sequence(n, l, proc.body, |s.frames|, o.store)
  {
    hide Entered, Started;
    if Accepts(names, rest, |argv|) {
      CallEnters(proc, names, rest, argv, s);
    }
  }

  lemma CallEnters(proc: Value, names: seq<nat>, rest: Option<nat>, argv: seq<Value>, s: Store)
    requires Takes(proc, names, rest) && Accepts(names, rest, |argv|)
    ensures var o := BindClosure(proc, argv, s);
      o.Done? && o.value == |s.frames| && Entered(proc, names, rest, argv, s, o.store)
  {
    var e := |s.frames|;
    var p := Positional(proc.params, argv[..|names|], e, NewFrame(proc.env, s));
    CallStarts(proc, names, rest, argv, s);
    if rest.Some? {
      RestIsBound(proc, names, rest, argv, s, p);
      var list := NewList(argv[|names|..], p.store);
      assert BindClosure(proc, argv, s) == Done(e, DefineVar(e, rest.value, list.value, list.store).store);
    } else {
      OlderFramesStay(proc, s, p.store);
      assert BindClosure(proc, argv, s) == Done(e, p.store);
    }
  }
}
