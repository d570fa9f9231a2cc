/**
 * Evaluation does not depend on which addresses are used or on what it cannot
 * reach: runs from renamed copies of a state give renamed copies of the result.
 */
module Simulation {
  import opened Terms
  import opened Frames
  import opened Prims
  import opened Semantics
  import opened Renaming

  lemma Compose(r0: Names, s0: Store, t0: Store, r1: Names, s1: Store, t1: Store, r2: Names, o: Outcome<Value>,
                o': Outcome<Value>)
    requires Evolves(r0, s0, t0, r1, s1, t1) && SameOutcome(r1, s1, t1, r2, o, o')
    ensures SameOutcome(r0, s0, t0, r2, o, o')
  {
    if !o.OutOfFuel? {
      EvolvesTransitive(r0, s0, t0, r1, s1, t1, r2, o.store, o'.store);
    }
  }

  lemma ComposeValues(r0: Names, s0: Store, t0: Store, r1: Names, s1: Store, t1: Store, r2: Names,
                      o: Outcome<seq<Value>>, o': Outcome<seq<Value>>)
    requires Evolves(r0, s0, t0, r1, s1, t1) && SameValues(r1, s1, t1, r2, o, o')
    ensures SameValues(r0, s0, t0, r2, o, o')
  {
    if !o.OutOfFuel? {
      EvolvesTransitive(r0, s0, t0, r1, s1, t1, r2, o.store, o'.store);
    }
  }

  lemma ComposeFrames(r0: Names, s0: Store, t0: Store, r1: Names, s1: Store, t1: Store, r2: Names, o: Outcome<nat>,
                      o': Outcome<nat>)
    requires Evolves(r0, s0, t0, r1, s1, t1) && SameFrames(r1, s1, t1, r2, o, o')
    ensures SameFrames(r0, s0, t0, r2, o, o')
  {
    if !o.OutOfFuel? {
      EvolvesTransitive(r0, s0, t0, r1, s1, t1, r2, o.store, o'.store);
    }
  }

  lemma {:induction false} EvalSim(n: nat, l: Limit, r: Names, s: Store, t: Store, form: Value, form': Value,
                                   env: nat, env': nat)
    returns (r': Names)
    requires SameStore(r, s, t) && Same(r, form, form') && Maps(r.frames, env, env')
    ensures SameOutcome(r, s, t, r', Eval(n, l, form, env, s), Eval(n, l, form', env', t))
    decreases n, 0, form
  {
    if n == 0 || l == Finite(0) {
      EvolvesReflexive(r, s, t);
      r' := r;
    } else {
      r' := RunSim(n - 1, Deeper(l), r, s, t, form, form', env, env');
    }
  }

  lemma {:induction false} TailSim(n: nat, l: Limit, r: Names, s: Store, t: Store, form: Value, form': Value,
                                   env: nat, env': nat)
    returns (r': Names)
    requires SameStore(r, s, t) && Same(r, form, form') && Maps(r.frames, env, env')
    ensures SameOutcome(r, s, t, r', Tail(n, l, form, env, s), Tail(n, l, form', env', t))
    decreases n, 0, form
  {
    hide SameStore, Same;
    if n == 0 {
      r' := r;
    } else {
      r' := RunSim(n - 1, l, r, s, t, form, form', env, env');
    }
  }

  /** The simulation theorem for a form evaluated in place. */
  lemma {:induction false} RunSim(n: nat, l: Limit, r: Names, s: Store, t: Store, form: Value, form': Value,
                                  env: nat, env': nat)
    returns (r': Names)
    requires SameStore(r, s, t) && Same(r, form, form') && Maps(r.frames, env, env')
    ensures SameOutcome(r, s, t, r', Run(n, l, form, env, s), Run(n, l, form', env', t))
    decreases n, 4, form
  {
    SameTop(r, form, form');
    if form.Pair? {
      SameTop(r, form.car, form'.car);
      if form.car.Sym? && form.car.idx <= COND {
        r' := SpecialSim(n, l, r, s, t, form.car.idx, form.cdr, form'.cdr, env, env');
      } else {
        r' := CallSim(n, l, r, s, t, form.car, form'.car, form.cdr, form'.cdr, env, env');
      }
    } else {
      EvolvesReflexive(r, s, t);
      r' := r;
      if form.Sym? {
        SameLookup(r, s, t, env, env', form.idx);
      }
    }
  }

  lemma {:induction false} SpecialSim(n: nat, l: Limit, r: Names, s: Store, t: Store, keyword: nat, args: Value,
                                      args': Value, env: nat, env': nat)
    returns (r': Names)
    requires keyword <= COND
    requires SameStore(r, s, t) && Same(r, args, args') && Maps(r.frames, env, env')
    ensures SameOutcome(r, s, t, r', Special(n, l, keyword, args, env, s), Special(n, l, keyword, args', env', t))
    decreases n, 3, args
  {
    hide SameOutcome, SameStore, Same;
    if keyword == QUOTE {
      QuoteSim(r, s, t, args, args');
      r' := r;
    } else if keyword == IF {
      r' := IfSim(n, l, r, s, t, args, args', env, env');
    } else if keyword == DEFINE {
      r' := DefineSim(n, l, r, s, t, args, args', env, env');
    } else if keyword == LAMBDA {
      r' := LambdaSim(r, s, t, args, args', env, env');
    } else if keyword == SET {
      r' := SetSim(n, l, r, s, t, args, args', env, env');
    } else if keyword == LET {
      r' := LetSim(n, l, r, s, t, Parallel, args, args', env, env');
    } else if keyword == LET_STAR {
      r' := LetSim(n, l, r, s, t, Sequential, args, args', env, env');
    } else if keyword == LETREC {
      r' := LetSim(n, l, r, s, t, Recursive, args, args', env, env');
    } else if keyword == BEGIN {
      r' := SequenceSim(n, l, r, s, t, args, args', env, env');
    } else if keyword == AND {
      r' := AndOrSim(n, l, r, s, t, false, args, args', env, env');
    } else if keyword == OR {
      r' := AndOrSim(n, l, r, s, t, true, args, args', env, env');
    } else {
      r' := CondSim(n, l, r, s, t, args, args', env, env');
    }
  }

  lemma QuoteSim(r: Names, s: Store, t: Store, args: Value, args': Value)
    requires SameStore(r, s, t) && Same(r, args, args')
    ensures SameOutcome(r, s, t, r, Quote(args, s), Quote(args', t))
  {
    EvolvesReflexive(r, s, t);
  }

  lemma {:induction false} IfSim(n: nat, l: Limit, r: Names, s: Store, t: Store, args: Value, args': Value,
                                 env: nat, env': nat)
    returns (r': Names)
    requires SameStore(r, s, t) && Same(r, args, args') && Maps(r.frames, env, env')
    ensures SameOutcome(r, s, t, r', If(n, l, args, env, s), If(n, l, args', env', t))
    decreases n, 2, args
  {
    SameCells(r, args, args');
    if args.Pair? && args.cdr.Pair? && (args.cdr.cdr == Nil || Single(args.cdr.cdr)) {
      r' := TestSim(n, l, r, s, t, args.car, args'.car, args.cdr, args'.cdr, env, env');
    } else {
      EvolvesReflexive(r, s, t);
      r' := r;
    }
  }

  lemma {:induction false} TestSim(n: nat, l: Limit, r: Names, s: Store, t: Store, test: Value, test': Value,
                                   branches: Value, branches': Value, env: nat, env': nat)
    returns (r': Names)
    requires branches.Pair? && branches'.Pair?
    requires SameStore(r, s, t) && Same(r, test, test') && Same(r, branches, branches') && Maps(r.frames, env, env')
    ensures SameOutcome(r, s, t, r', Test(n, l, test, branches, env, s), Test(n, l, test', branches', env', t))
    decreases n, 1, test
  {
    r' := EvalSim(n, l, r, s, t, test, test', env, env');
    var o, o' := Eval(n, l, test, env, s), Eval(n, l, test', env', t);
    if o.Done? {
      var r1 := r';
      SameExtends(r, r1, branches, branches');
      r' := BranchSim(n, l, r1, o.store, o'.store, o.value, o'.value, branches, branches', env, env');
      Compose(r, s, t, r1, o.store, o'.store, r', Test(n, l, test, branches, env, s),
              Test(n, l, test', branches', env', t));
    }
  }

  lemma {:induction false} BranchSim(n: nat, l: Limit, r: Names, s: Store, t: Store, v: Value, v': Value,
                                     branches: Value, branches': Value, env: nat, env': nat)
    returns (r': Names)
    requires branches.Pair? && branches'.Pair?
    requires SameStore(r, s, t) && Same(r, v, v') && Same(r, branches, branches') && Maps(r.frames, env, env')
    ensures SameOutcome(r, s, t, r', Branch(n, l, v, branches, env, s), Branch(n, l, v', branches', env', t))
    decreases n, 0, branches
  {
    SameTop(r, v, v');
    SameCells(r, branches, branches');
    if Truthy(v) {
      r' := TailSim(n, l, r, s, t, branches.car, branches'.car, env, env');
    } else if branches.cdr.Pair? {
      r' := TailSim(n, l, r, s, t, branches.cdr.car, branches'.cdr.car, env, env');
    } else {
      EvolvesReflexive(r, s, t);
      r' := r;
    }
  }

  lemma DefineVarSim(r: Names, s: Store, t: Store, env: nat, env': nat, name: nat, v: Value, w: Value)
    requires SameStore(r, s, t) && Maps(r.frames, env, env') && Same(r, v, w)
    ensures SameOutcome(r, s, t, r, DefineVar(env, name, v, s), DefineVar(env', name, w, t))
    ensures DefineVar(env, name, v, s).Done?
  {
    SameDefine(r, s, t, env, env', name, v, w);
  }

  lemma {:induction false} ShapeSim(r: Names, params: Value, params': Value)
    requires Same(r, params, params')
    ensures Shape(params) == Shape(params')
  {
    if params.Pair? {
      ShapeSim(r, params.cdr, params'.cdr);
    }
  }

  lemma NewClosureSim(r: Names, s: Store, t: Store, params: Value, params': Value, body: Value, body': Value,
                      env: nat, env': nat)
    returns (r': Names)
    requires SameStore(r, s, t) && Same(r, params, params') && Same(r, body, body') && Maps(r.frames, env, env')
    ensures SameOutcome(r, s, t, r', NewClosure(params, body, env, s), NewClosure(params', body', env', t))
  {
    hide SameStore;
    ShapeSim(r, params, params');
    if Shape(params).None? {
      r' := r;
      EvolvesReflexive(r, s, t);
    } else {
      r' := WithId(r, s.nextId, t.nextId);
      SameNewId(r, s, t);
      SameExtends(r, r', params, params');
      SameExtends(r, r', body, body');
    }
  }

  lemma {:induction false} DefineSim(n: nat, l: Limit, r: Names, s: Store, t: Store, args: Value, args': Value,
                                     env: nat, env': nat)
    returns (r': Names)
    requires SameStore(r, s, t) && Same(r, args, args') && Maps(r.frames, env, env')
    ensures SameOutcome(r, s, t, r', DefineForm(n, l, args, env, s), DefineForm(n, l, args', env', t))
    decreases n, 2, args, 1
  {
    SameCells(r, args, args');
    if args.Pair? && args.car.Sym? && Single(args.cdr) {
      r' := DefineValueSim(n, l, r, s, t, args.car.idx, args.cdr.car, args'.cdr.car, env, env');
    } else if args.Pair? && args.car.Pair? {
      SameCells(r, args.car, args'.car);
      if args.car.car.Sym? {
        r' := DefineProcedureSim(r, s, t, args.car.car.idx, args.car.cdr, args'.car.cdr, args.cdr, args'.cdr,
                                 env, env');
      } else {
        EvolvesReflexive(r, s, t);
        r' := r;
      }
    } else {
      EvolvesReflexive(r, s, t);
      r' := r;
    }
  }

  lemma {:induction false} DefineValueSim(n: nat, l: Limit, r: Names, s: Store, t: Store, name: nat, init: Value,
                                          init': Value, env: nat, env': nat)
    returns (r': Names)
    requires SameStore(r, s, t) && Same(r, init, init') && Maps(r.frames, env, env')
    ensures SameOutcome(r, s, t, r', DefineValue(n, l, name, init, env, s), DefineValue(n, l, name, init', env', t))
    decreases n, 1, init
  {
    r' := EvalSim(n, l, r, s, t, init, init', env, env');
    var o, o' := Eval(n, l, init, env, s), Eval(n, l, init', env', t);
    if o.Done? {
      DefineVarSim(r', o.store, o'.store, env, env', name, o.value, o'.value);
      Compose(r, s, t, r', o.store, o'.store, r', DefineValue(n, l, name, init, env, s),
              DefineValue(n, l, name, init', env', t));
    }
  }

  lemma DefineProcedureSim(r: Names, s: Store, t: Store, name: nat, params: Value, params': Value, body: Value,
                           body': Value, env: nat, env': nat)
    returns (r': Names)
    requires SameStore(r, s, t) && Same(r, params, params') && Same(r, body, body') && Maps(r.frames, env, env')
    ensures SameOutcome(r, s, t, r', DefineProcedure(name, params, body, env, s),
                        DefineProcedure(name, params', body', env', t))
  {
    EvolvesReflexive(r, s, t);
    r' := r;
    SameTop(r, body, body');
    SameListLength(r, body, body');
    if IsBody(body) {
      r' := NewClosureSim(r, s, t, params, params', body, body', env, env');
      var o, o' := NewClosure(params, body, env, s), NewClosure(params', body', env', t);
      if o.Done? {
        DefineVarSim(r', o.store, o'.store, env, env', name, o.value, o'.value);
        Compose(r, s, t, r', o.store, o'.store, r', DefineProcedure(name, params, body, env, s),
                DefineProcedure(name, params', body', env', t));
      }
    }
  }

  lemma LambdaSim(r: Names, s: Store, t: Store, args: Value, args': Value, env: nat, env': nat) returns (r': Names)
    requires SameStore(r, s, t) && Same(r, args, args') && Maps(r.frames, env, env')
    ensures SameOutcome(r, s, t, r', Lambda(args, env, s), Lambda(args', env', t))
  {
    EvolvesReflexive(r, s, t);
    r' := r;
    if args.Pair? {
      SameListLength(r, args.cdr, args'.cdr);
      if IsBody(args.cdr) {
        r' := NewClosureSim(r, s, t, args.car, args'.car, args.cdr, args'.cdr, env, env');
      }
    }
  }

  lemma {:induction false} SetSim(n: nat, l: Limit, r: Names, s: Store, t: Store, args: Value, args': Value,
                                  env: nat, env': nat)
    returns (r': Names)
    requires SameStore(r, s, t) && Same(r, args, args') && Maps(r.frames, env, env')
    ensures SameOutcome(r, s, t, r', SetForm(n, l, args, env, s), SetForm(n, l, args', env', t))
    decreases n, 2, args
  {
    SameCells(r, args, args');
    if args.Pair? && args.car.Sym? && Single(args.cdr) {
      r' := SetValueSim(n, l, r, s, t, args.car.idx, args.cdr.car, args'.cdr.car, env, env');
    } else {
      EvolvesReflexive(r, s, t);
      r' := r;
    }
  }

  lemma SetVarSim(r: Names, s: Store, t: Store, env: nat, env': nat, name: nat, v: Value, w: Value)
    requires SameStore(r, s, t) && Maps(r.frames, env, env') && Same(r, v, w)
    ensures SameOutcome(r, s, t, r, SetVar(env, name, v, s), SetVar(env', name, w, t))
  {
    SameHolder(r, s, t, env, env', name);
    var h, h' := Holder(s.frames, env, name), Holder(t.frames, env', name);
    if h.Some? {
      SameDefine(r, s, t, h.value, h'.value, name, v, w);
    } else {
      EvolvesReflexive(r, s, t);
    }
  }

  lemma {:induction false} SetValueSim(n: nat, l: Limit, r: Names, s: Store, t: Store, name: nat, init: Value,
                                       init': Value, env: nat, env': nat)
    returns (r': Names)
    requires SameStore(r, s, t) && Same(r, init, init') && Maps(r.frames, env, env')
    ensures SameOutcome(r, s, t, r', SetValue(n, l, name, init, env, s), SetValue(n, l, name, init', env', t))
    decreases n, 1, init
  {
    r' := EvalSim(n, l, r, s, t, init, init', env, env');
    var o, o' := Eval(n, l, init, env, s), Eval(n, l, init', env', t);
    if o.Done? {
      SetVarSim(r', o.store, o'.store, env, env', name, o.value, o'.value);
      Compose(r, s, t, r', o.store, o'.store, r', SetValue(n, l, name, init, env, s),
              SetValue(n, l, name, init', env', t));
    }
  }

  lemma {:induction false} SequenceSim(n: nat, l: Limit, r: Names, s: Store, t: Store, forms: Value, forms': Value,
                                       env: nat, env': nat)
    returns (r': Names)
    requires SameStore(r, s, t) && Same(r, forms, forms') && Maps(r.frames, env, env')
    ensures SameOutcome(r, s, t, r', Sequence(n, l, forms, env, s), Sequence(n, l, forms', env', t))
    decreases n, 1, forms, 1
  {
    EvolvesReflexive(r, s, t);
    SameListLength(r, forms, forms');
    if forms.Pair? && ProperList(forms) {
      r' := FormsSim(n, l, r, s, t, forms, forms', env, env');
    } else {
      r' := r;
    }
  }

  lemma {:induction false} FormsSim(n: nat, l: Limit, r: Names, s: Store, t: Store, forms: Value, forms': Value,
                                    env: nat, env': nat)
    returns (r': Names)
    requires forms.Pair? && forms'.Pair?
    requires SameStore(r, s, t) && Same(r, forms, forms') && Maps(r.frames, env, env')
    ensures SameOutcome(r, s, t, r', Forms(n, l, forms, env, s), Forms(n, l, forms', env', t))
    decreases n, 1, forms, 0
  {
    if forms.cdr.Pair? {
      var r1 := EvalSim(n, l, r, s, t, forms.car, forms'.car, env, env');
      var o, o' := Eval(n, l, forms.car, env, s), Eval(n, l, forms'.car, env', t);
      r' := r1;
      if o.Done? {
        SameExtends(r, r1, forms.cdr, forms'.cdr);
        r' := FormsSim(n, l, r1, o.store, o'.store, forms.cdr, forms'.cdr, env, env');
        Compose(r, s, t, r1, o.store, o'.store, r', Forms(n, l, forms, env, s), Forms(n, l, forms', env', t));
      }
    } else {
      r' := TailSim(n, l, r, s, t, forms.car, forms'.car, env, env');
    }
  }

  lemma {:induction false} AndOrSim(n: nat, l: Limit, r: Names, s: Store, t: Store, isOr: bool, args: Value,
                                    args': Value, env: nat, env': nat)
    returns (r': Names)
    requires SameStore(r, s, t) && Same(r, args, args') && Maps(r.frames, env, env')
    ensures SameOutcome(r, s, t, r', AndOr(n, l, isOr, args, env, s), AndOr(n, l, isOr, args', env', t))
    decreases n, 2, args, 1
  {
    EvolvesReflexive(r, s, t);
    SameListLength(r, args, args');
    if args.Pair? && ProperList(args) {
      r' := OperandsSim(n, l, r, s, t, isOr, args, args', env, env');
    } else {
      r' := r;
    }
  }

  lemma {:induction false} OperandsSim(n: nat, l: Limit, r: Names, s: Store, t: Store, isOr: bool, args: Value,
                                       args': Value, env: nat, env': nat)
    returns (r': Names)
    requires args.Pair? && args'.Pair?
    requires SameStore(r, s, t) && Same(r, args, args') && Maps(r.frames, env, env')
    ensures SameOutcome(r, s, t, r', Operands(n, l, isOr, args, env, s), Operands(n, l, isOr, args', env', t))
    decreases n, 2, args, 0
  {
    SameCells(r, args, args');
    if args.cdr.Pair? {
      r' := EvalSim(n, l, r, s, t, args.car, args'.car, env, env');
      var o, o' := Eval(n, l, args.car, env, s), Eval(n, l, args'.car, env', t);
      if o.Done? {
        SameTop(r', o.value, o'.value);
        if Truthy(o.value) != isOr {
          var r1 := r';
          SameExtends(r, r1, args.cdr, args'.cdr);
          r' := OperandsSim(n, l, r1, o.store, o'.store, isOr, args.cdr, args'.cdr, env, env');
          Compose(r, s, t, r1, o.store, o'.store, r', Operands(n, l, isOr, args, env, s),
                  Operands(n, l, isOr, args', env', t));
        }
      }
    } else {
      r' := TailSim(n, l, r, s, t, args.car, args'.car, env, env');
    }
  }

  lemma {:induction false} CondSim(n: nat, l: Limit, r: Names, s: Store, t: Store, clauses: Value, clauses': Value,
                                   env: nat, env': nat)
    returns (r': Names)
    requires SameStore(r, s, t) && Same(r, clauses, clauses') && Maps(r.frames, env, env')
    ensures SameOutcome(r, s, t, r', Cond(n, l, clauses, env, s), Cond(n, l, clauses', env', t))
    decreases n, 2, clauses, 1
  {
    SameListLength(r, clauses, clauses');
    if ProperList(clauses) {
      r' := ClausesSim(n, l, r, s, t, clauses, clauses', env, env');
    } else {
      EvolvesReflexive(r, s, t);
      r' := r;
    }
  }

  lemma {:induction false} ClausesSim(n: nat, l: Limit, r: Names, s: Store, t: Store, clauses: Value,
                                      clauses': Value, env: nat, env': nat)
    returns (r': Names)
    requires SameStore(r, s, t) && Same(r, clauses, clauses') && Maps(r.frames, env, env')
    ensures SameOutcome(r, s, t, r', Clauses(n, l, clauses, env, s), Clauses(n, l, clauses', env', t))
    decreases n, 2, clauses, 0
  {
    EvolvesReflexive(r, s, t);
    SameTop(r, clauses, clauses');
    r' := r;
    if clauses.Pair? {
      SameTop(r, clauses.car, clauses'.car);
      if clauses.car.Pair? {
        var test, test' := clauses.car.car, clauses'.car.car;
        SameTop(r, test, test');
        if test == Sym(ELSE) {
          r' := SequenceSim(n, l, r, s, t, clauses.car.cdr, clauses'.car.cdr, env, env');
        } else {
          r' := EvalSim(n, l, r, s, t, test, test', env, env');
          var o, o' := Eval(n, l, test, env, s), Eval(n, l, test', env', t);
          if o.Done? {
            var r1 := r';
            SameTop(r1, o.value, o'.value);
            SameExtends(r, r1, clauses, clauses');
            r' := ClauseRestSim(n, l, r1, o.store, o'.store, o.value, o'.value, clauses, clauses', env, env');
            Compose(r, s, t, r1, o.store, o'.store, r', Clauses(n, l, clauses, env, s),
                    Clauses(n, l, clauses', env', t));
          }
        }
      }
    }
  }

  lemma {:induction false} ClauseRestSim(n: nat, l: Limit, r: Names, s: Store, t: Store, v: Value, v': Value,
                                         clauses: Value, clauses': Value, env: nat, env': nat)
    returns (r': Names)
    requires clauses.Pair? && clauses.car.Pair? && clauses'.Pair? && clauses'.car.Pair?
    requires SameStore(r, s, t) && Same(r, v, v') && Same(r, clauses, clauses') && Maps(r.frames, env, env')
    ensures SameOutcome(r, s, t, r', ClauseRest(n, l, v, clauses, env, s), ClauseRest(n, l, v', clauses', env', t))
    decreases n, 2, clauses.cdr, 1
  {
    SameTop(r, v, v');
    SameTop(r, clauses.car, clauses'.car);
    SameTop(r, clauses.car.cdr, clauses'.car.cdr);
    if !Truthy(v) {
      r' := ClausesSim(n, l, r, s, t, clauses.cdr, clauses'.cdr, env, env');
    } else if clauses.car.cdr == Nil {
      EvolvesReflexive(r, s, t);
      r' := r;
    } else {
      r' := SequenceSim(n, l, r, s, t, clauses.car.cdr, clauses'.car.cdr, env, env');
    }
  }

  lemma {:induction false} LetSim(n: nat, l: Limit, r: Names, s: Store, t: Store, kind: LetKind, args: Value,
                                  args': Value, env: nat, env': nat)
    returns (r': Names)
    requires SameStore(r, s, t) && Same(r, args, args') && Maps(r.frames, env, env')
    ensures SameOutcome(r, s, t, r', Let(n, l, kind, args, env, s), Let(n, l, kind, args', env', t))
    decreases n, 2, args
  {
    LetShapeSim(r, args, args');
    if args.Pair? && IsBody(args.cdr) && ProperList(args.car) {
      var r1 := WithFrame(r, |s.frames|, |t.frames|);
      SameNewFrame(r, s, t, env, env');
      SameExtends(r, r1, args.car, args'.car);
      SameExtends(r, r1, args.cdr, args'.cdr);
      r' := LetBodySim(n, l, r1, NewFrame(env, s), NewFrame(env', t), kind, args.car, args'.car, args.cdr, args'.cdr,
                       env, env', |s.frames|, |t.frames|);
      Compose(r, s, t, r1, NewFrame(env, s), NewFrame(env', t), r', Let(n, l, kind, args, env, s),
              Let(n, l, kind, args', env', t));
    } else {
      EvolvesReflexive(r, s, t);
      r' := r;
    }
  }

  lemma LetShapeSim(r: Names, args: Value, args': Value)
    requires Same(r, args, args')
    ensures args.Pair? == args'.Pair?
    ensures args.Pair? ==> Same(r, args.car, args'.car) && Same(r, args.cdr, args'.cdr)
    ensures args.Pair? ==> IsBody(args.cdr) == IsBody(args'.cdr) && ProperList(args.car) == ProperList(args'.car)
  {
    SameTop(r, args, args');
    if args.Pair? {
      SameTop(r, args.cdr, args'.cdr);
      SameListLength(r, args.car, args'.car);
      SameListLength(r, args.cdr, args'.cdr);
    }
  }

  lemma {:induction false} LetBodySim(n: nat, l: Limit, r: Names, s: Store, t: Store, kind: LetKind,
                                      bindings: Value, bindings': Value,
                                      body: Value, body': Value, env: nat, env': nat, inner: nat, inner': nat)
    returns (r': Names)
    requires SameStore(r, s, t) && Same(r, bindings, bindings') && Same(r, body, body')
    requires Maps(r.frames, env, env') && Maps(r.frames, inner, inner')
    ensures SameOutcome(r, s, t, r', LetBody(n, l, kind, bindings, body, env, inner, s),
                        LetBody(n, l, kind, bindings', body', env', inner', t))
    decreases n, 2, bindings, 2
  {
    EvolvesReflexive(r, s, t);
    var o := if kind == Recursive then Predefine(bindings, inner, s) else Done(Undef, s);
    var o' := if kind == Recursive then Predefine(bindings', inner', t) else Done(Undef, t);
    if kind == Recursive {
      PredefineSim(r, s, t, bindings, bindings', inner, inner');
    }
    r' := r;
    if o.Done? {
      var initEnv, initEnv' := if kind == Parallel then env else inner, if kind == Parallel then env' else inner';
      r' := InitsThenBodySim(n, l, r, o.store, o'.store, bindings, bindings', body, body', initEnv, initEnv',
                             inner, inner');
      Compose(r, s, t, r, o.store, o'.store, r', LetBody(n, l, kind, bindings, body, env, inner, s),
              LetBody(n, l, kind, bindings', body', env', inner', t));
    }
  }

  lemma {:induction false} InitsThenBodySim(n: nat, l: Limit, r: Names, s: Store, t: Store, bindings: Value,
                                            bindings': Value,
                                            body: Value, body': Value, initEnv: nat, initEnv': nat, inner: nat,
                                            inner': nat)
    returns (r': Names)
    requires SameStore(r, s, t) && Same(r, bindings, bindings') && Same(r, body, body')
    requires Maps(r.frames, initEnv, initEnv') && Maps(r.frames, inner, inner')
    ensures SameOutcome(r, s, t, r', InitsThenBody(n, l, bindings, body, initEnv, inner, s),
                        InitsThenBody(n, l, bindings', body', initEnv', inner', t))
    decreases n, 2, bindings, 1
  {
    var r1 := InitsSim(n, l, r, s, t, bindings, bindings', initEnv, initEnv', inner, inner');
    var o, o' := Inits(n, l, bindings, initEnv, inner, s), Inits(n, l, bindings', initEnv', inner', t);
    r' := r1;
    if o.Done? {
      SameExtends(r, r1, body, body');
      r' := SequenceSim(n, l, r1, o.store, o'.store, body, body', inner, inner');
      Compose(r, s, t, r1, o.store, o'.store, r', InitsThenBody(n, l, bindings, body, initEnv, inner, s),
              InitsThenBody(n, l, bindings', body', initEnv', inner', t));
    }
  }

  lemma BindingSim(r: Names, b: Value, b': Value)
    requires Same(r, b, b')
    ensures IsBinding(b) == IsBinding(b')
    ensures IsBinding(b) ==> b.car == b'.car && Same(r, b.cdr.car, b'.cdr.car)
  {
    SameCells(r, b, b');
  }

  lemma {:induction false} PredefineSim(r: Names, s: Store, t: Store, bindings: Value, bindings': Value, inner: nat,
                                        inner': nat)
    requires SameStore(r, s, t) && Same(r, bindings, bindings') && Maps(r.frames, inner, inner')
    ensures SameOutcome(r, s, t, r, Predefine(bindings, inner, s), Predefine(bindings', inner', t))
    decreases bindings
  {
    EvolvesReflexive(r, s, t);
    if bindings.Pair? {
      var b, b' := bindings.car, bindings'.car;
      BindingSim(r, b, b');
      if IsBinding(b) {
        DefineVarSim(r, s, t, inner, inner', b.car.idx, Undef, Undef);
        var o, o' := DefineVar(inner, b.car.idx, Undef, s), DefineVar(inner', b.car.idx, Undef, t);
        PredefineSim(r, o.store, o'.store, bindings.cdr, bindings'.cdr, inner, inner');
        Compose(r, s, t, r, o.store, o'.store, r, Predefine(bindings, inner, s), Predefine(bindings', inner', t));
      }
    }
  }

  lemma {:induction false} InitsSim(n: nat, l: Limit, r: Names, s: Store, t: Store, bindings: Value, bindings': Value,
                                    initEnv: nat, initEnv': nat, inner: nat, inner': nat)
    returns (r': Names)
    requires SameStore(r, s, t) && Same(r, bindings, bindings')
    requires Maps(r.frames, initEnv, initEnv') && Maps(r.frames, inner, inner')
    ensures SameOutcome(r, s, t, r', Inits(n, l, bindings, initEnv, inner, s),
                        Inits(n, l, bindings', initEnv', inner', t))
    decreases n, 1, bindings
  {
    SameTop(r, bindings, bindings');
    if bindings.Pair? {
      BindingSim(r, bindings.car, bindings'.car);
    }
    if bindings.Pair? && IsBinding(bindings.car) {
      r' := InitSim(n, l, r, s, t, bindings.car, bindings'.car, initEnv, initEnv', inner, inner');
      var o, o' := Init(n, l, bindings.car, initEnv, inner, s), Init(n, l, bindings'.car, initEnv', inner', t);
      if o.Done? {
        var r1 := r';
        SameExtends(r, r1, bindings.cdr, bindings'.cdr);
        r' := InitsSim(n, l, r1, o.store, o'.store, bindings.cdr, bindings'.cdr, initEnv, initEnv', inner, inner');
        Compose(r, s, t, r1, o.store, o'.store, r', Inits(n, l, bindings, initEnv, inner, s),
                Inits(n, l, bindings', initEnv', inner', t));
      }
    } else {
      EvolvesReflexive(r, s, t);
      r' := r;
    }
  }

  lemma {:induction false} InitSim(n: nat, l: Limit, r: Names, s: Store, t: Store, b: Value, b': Value,
                                   initEnv: nat, initEnv': nat, inner: nat, inner': nat)
    returns (r': Names)
    requires IsBinding(b) && IsBinding(b') && b.car == b'.car
    requires SameStore(r, s, t) && Same(r, b.cdr.car, b'.cdr.car)
    requires Maps(r.frames, initEnv, initEnv') && Maps(r.frames, inner, inner')
    ensures SameOutcome(r, s, t, r', Init(n, l, b, initEnv, inner, s), Init(n, l, b', initEnv', inner', t))
    decreases n, 1, b
  {
    r' := EvalSim(n, l, r, s, t, b.cdr.car, b'.cdr.car, initEnv, initEnv');
    var o, o' := Eval(n, l, b.cdr.car, initEnv, s), Eval(n, l, b'.cdr.car, initEnv', t);
    if o.Done? {
      DefineVarSim(r', o.store, o'.store, inner, inner', b.car.idx, o.value, o'.value);
      Compose(r, s, t, r', o.store, o'.store, r', Init(n, l, b, initEnv, inner, s),
              Init(n, l, b', initEnv', inner', t));
    }
  }

  lemma CallUnfolds(n: nat, l: Limit, head: Value, args: Value, env: nat, s: Store)
    ensures var o := Eval(n, l, head, env, s);
      Call(n, l, head, args, env, s) == if o.Done? then CallWith(n, l, o.value, args, env, o.store) else o
  {
  }

  lemma {:induction false} CallSim(n: nat, l: Limit, r: Names, s: Store, t: Store, head: Value, head': Value,
                                   args: Value, args': Value, env: nat, env': nat)
    returns (r': Names)
    requires SameStore(r, s, t) && Same(r, head, head') && Same(r, args, args') && Maps(r.frames, env, env')
    ensures SameOutcome(r, s, t, r', Call(n, l, head, args, env, s), Call(n, l, head', args', env', t))
    decreases n, 3, args, 1
  {
    r' := EvalSim(n, l, r, s, t, head, head', env, env');
    var o, o' := Eval(n, l, head, env, s), Eval(n, l, head', env', t);
    CallUnfolds(n, l, head, args, env, s);
    CallUnfolds(n, l, head', args', env', t);
    if o.Done? {
      r' := AfterOperatorSim(n, l, r, s, t, r', o, o', args, args', env, env');
    }
  }

  lemma {:induction false} AfterOperatorSim(n: nat, l: Limit, r: Names, s: Store, t: Store, r1: Names,
                                            o: Outcome<Value>, o': Outcome<Value>,
                                            args: Value, args': Value, env: nat, env': nat)
    returns (r': Names)
    requires o.Done? && SameOutcome(r, s, t, r1, o, o') && Same(r, args, args') && Maps(r.frames, env, env')
    ensures SameOutcome(r, s, t, r', CallWith(n, l, o.value, args, env, o.store),
                        CallWith(n, l, o'.value, args', env', o'.store))
    decreases n, 3, args, 0, 1
  {
    SameExtends(r, r1, args, args');
    r' := CallWithSim(n, l, r1, o.store, o'.store, o.value, o'.value, args, args', env, env');
    Compose(r, s, t, r1, o.store, o'.store, r', CallWith(n, l, o.value, args, env, o.store),
            CallWith(n, l, o'.value, args', env', o'.store));
  }

  lemma {:induction false} CallWithSim(n: nat, l: Limit, r: Names, s: Store, t: Store, proc: Value, proc': Value,
                                       args: Value, args': Value, env: nat, env': nat)
    returns (r': Names)
    requires SameStore(r, s, t) && Same(r, proc, proc') && Same(r, args, args') && Maps(r.frames, env, env')
    ensures SameOutcome(r, s, t, r', CallWith(n, l, proc, args, env, s), CallWith(n, l, proc', args', env', t))
    decreases n, 3, args, 0, 0
  {
    r' := ArgsSim(n, l, r, s, t, args, args', env, env');
    var a, a' := Args(n, l, args, env, s), Args(n, l, args', env', t);
    if a.Done? {
      var r1 := r';
      SameExtends(r, r1, proc, proc');
      r' := ApplySim(n, l, r1, a.store, a'.store, proc, proc', a.value, a'.value);
      Compose(r, s, t, r1, a.store, a'.store, r', CallWith(n, l, proc, args, env, s),
              CallWith(n, l, proc', args', env', t));
    }
  }

  lemma {:induction false} ArgsSim(n: nat, l: Limit, r: Names, s: Store, t: Store, args: Value, args': Value,
                                   env: nat, env': nat)
    returns (r': Names)
    requires SameStore(r, s, t) && Same(r, args, args') && Maps(r.frames, env, env')
    ensures SameValues(r, s, t, r', Args(n, l, args, env, s), Args(n, l, args', env', t))
    decreases n, 1, args, 1
  {
    SameListLength(r, args, args');
    if ProperList(args) {
      r' := ArgListSim(n, l, r, s, t, args, args', env, env');
    } else {
      EvolvesReflexive(r, s, t);
      r' := r;
    }
  }

  lemma {:induction false} ArgListSim(n: nat, l: Limit, r: Names, s: Store, t: Store, args: Value, args': Value,
                                      env: nat, env': nat)
    returns (r': Names)
    requires SameStore(r, s, t) && Same(r, args, args') && Maps(r.frames, env, env')
    ensures SameValues(r, s, t, r', ArgList(n, l, args, env, s), ArgList(n, l, args', env', t))
    decreases n, 1, args, 0
  {
    SameTop(r, args, args');
    if args.Pair? {
      r' := EvalSim(n, l, r, s, t, args.car, args'.car, env, env');
      var o, o' := Eval(n, l, args.car, env, s), Eval(n, l, args'.car, env', t);
      if o.Done? {
        var r1 := r';
        SameExtends(r, r1, args.cdr, args'.cdr);
        r' := ArgRestSim(n, l, r1, o.store, o'.store, o.value, o'.value, args.cdr, args'.cdr, env, env');
        ComposeValues(r, s, t, r1, o.store, o'.store, r', ArgList(n, l, args, env, s), ArgList(n, l, args', env', t));
      }
    } else {
      EvolvesReflexive(r, s, t);
      r' := r;
    }
  }

  lemma {:induction false} ArgRestSim(n: nat, l: Limit, r: Names, s: Store, t: Store, v: Value, v': Value,
                                      args: Value, args': Value, env: nat, env': nat)
    returns (r': Names)
    requires SameStore(r, s, t) && Same(r, v, v') && Same(r, args, args') && Maps(r.frames, env, env')
    ensures SameValues(r, s, t, r', ArgRest(n, l, v, args, env, s), ArgRest(n, l, v', args', env', t))
    decreases n, 1, args, 1
  {
    r' := ArgListSim(n, l, r, s, t, args, args', env, env');
    var a, a' := ArgList(n, l, args, env, s), ArgList(n, l, args', env', t);
    if a.Done? {
      SameExtends(r, r', v, v');
      SameAllCons(r', v, v', a.value, a'.value);
    }
  }

  lemma {:induction false} ApplySim(n: nat, l: Limit, r: Names, s: Store, t: Store, proc: Value, proc': Value,
                                    argv: seq<Value>, argv': seq<Value>)
    returns (r': Names)
    requires SameStore(r, s, t) && Same(r, proc, proc') && SameAll(r, argv, argv')
    ensures SameOutcome(r, s, t, r', Apply(n, l, proc, argv, s), Apply(n, l, proc', argv', t))
    decreases n, 2
  {
    if proc.Prim? && ArityOk(proc.op, |argv|) {
      r' := SameApplyPrim(r, s, t, proc.op, argv, argv');
    } else if proc.Closure? {
      r' := BindClosureSim(r, s, t, proc, proc', argv, argv');
      var o, o' := BindClosure(proc, argv, s), BindClosure(proc', argv', t);
      if o.Done? {
        var r1 := r';
        SameExtends(r, r1, proc.body, proc'.body);
        r' := SequenceSim(n, l, r1, o.store, o'.store, proc.body, proc'.body, o.value, o'.value);
        Compose(r, s, t, r1, o.store, o'.store, r', Apply(n, l, proc, argv, s), Apply(n, l, proc', argv', t));
      }
    } else {
      EvolvesReflexive(r, s, t);
      r' := r;
    }
  }

  lemma {:induction false} PositionalSim(r: Names, s: Store, t: Store, params: Value, params': Value,
                                         argv: seq<Value>, argv': seq<Value>,
                                         inner: nat, inner': nat)
    requires SameStore(r, s, t) && Same(r, params, params') && SameAll(r, argv, argv') && Maps(r.frames, inner, inner')
    ensures SameOutcome(r, s, t, r, Positional(params, argv, inner, s), Positional(params', argv', inner', t))
    decreases |argv|
  {
    EvolvesReflexive(r, s, t);
    if argv != [] && params.Pair? && params.car.Sym? {
      assert Same(r, argv[0], argv'[0]);
      var name := params.car.idx;
      DefineVarSim(r, s, t, inner, inner', name, argv[0], argv'[0]);
      var o, o' := DefineVar(inner, name, argv[0], s), DefineVar(inner', name, argv'[0], t);
      PositionalSim(r, o.store, o'.store, params.cdr, params'.cdr, argv[1..], argv'[1..], inner, inner');
      Compose(r, s, t, r, o.store, o'.store, r, Positional(params, argv, inner, s),
              Positional(params', argv', inner', t));
    }
  }

  lemma BindClosureSim(r: Names, s: Store, t: Store, proc: Value, proc': Value, argv: seq<Value>, argv': seq<Value>)
    returns (r': Names)
    requires SameStore(r, s, t) && proc.Closure? && proc'.Closure? && Same(r, proc, proc') && SameAll(r, argv, argv')
    ensures SameFrames(r, s, t, r', BindClosure(proc, argv, s), BindClosure(proc', argv', t))
  {
    if |argv| < proc.arityMin || (!proc.variadic && |argv| != proc.arityMin) {
      EvolvesReflexive(r, s, t);
      r' := r;
    } else {
      var inner, inner' := |s.frames|, |t.frames|;
      var s0, t0 := NewFrame(proc.env, s), NewFrame(proc'.env, t);
      var r1 := WithFrame(r, inner, inner');
      SameNewFrame(r, s, t, proc.env, proc'.env);
      SameExtends(r, r1, proc.params, proc'.params);
      SameAllExtends(r, r1, argv, argv');
      r' := BindParamsSim(r1, s0, t0, proc, proc', argv, argv', inner, inner');
      ComposeFrames(r, s, t, r1, s0, t0, r', BindParams(proc, argv, inner, s0), BindParams(proc', argv', inner', t0));
    }
  }

  lemma BindParamsSim(r: Names, s: Store, t: Store, proc: Value, proc': Value, argv: seq<Value>, argv': seq<Value>,
                      inner: nat, inner': nat)
    returns (r': Names)
    requires proc.Closure? && proc'.Closure? && proc.arityMin == proc'.arityMin <= |argv| &&
             proc.variadic == proc'.variadic
    requires SameStore(r, s, t) && Same(r, proc.params, proc'.params) && SameAll(r, argv, argv') &&
             Maps(r.frames, inner, inner')
    ensures SameFrames(r, s, t, r', BindParams(proc, argv, inner, s), BindParams(proc', argv', inner', t))
  {
    var k := proc.arityMin;
    SameAllSlices(r, argv, argv', k);
    PositionalSim(r, s, t, proc.params, proc'.params, argv[..k], argv'[..k], inner, inner');
    var o, o' := Positional(proc.params, argv[..k], inner, s), Positional(proc'.params, argv'[..k], inner', t);
    r' := r;
    if o.Done? {
      SameTop(r, o.value, o'.value);
      if proc.variadic && o.value.Sym? {
        r' := BindRestSim(r, o.store, o'.store, o.value.idx, argv[k..], argv'[k..], inner, inner');
        var list, list' := NewList(argv[k..], o.store), NewList(argv'[k..], o'.store);
        EvolvesTransitive(r, s, t, r, o.store, o'.store, r',
                          DefineVar(inner, o.value.idx, list.value, list.store).store,
                          DefineVar(inner', o.value.idx, list'.value, list'.store).store);
      }
    }
  }

  lemma BindRestSim(r: Names, s: Store, t: Store, name: nat, argv: seq<Value>, argv': seq<Value>, inner: nat,
                    inner': nat) returns (r': Names)
    requires SameStore(r, s, t) && SameAll(r, argv, argv') && Maps(r.frames, inner, inner')
    ensures var list, list' := NewList(argv, s), NewList(argv', t);
      var d, d' := DefineVar(inner, name, list.value, list.store), DefineVar(inner', name, list'.value, list'.store);
      d.Done? && d'.Done? && Maps(r'.frames, inner, inner') && Evolves(r, s, t, r', d.store, d'.store)
  {
    r' := SameNewList(r, s, t, argv, argv');
    var list, list' := NewList(argv, s), NewList(argv', t);
    DefineVarSim(r', list.store, list'.store, inner, inner', name, list.value, list'.value);
    EvolvesTransitive(r, s, t, r', list.store, list'.store, r',
                      DefineVar(inner, name, list.value, list.store).store,
                      DefineVar(inner', name, list'.value, list'.store).store);
  }
}
