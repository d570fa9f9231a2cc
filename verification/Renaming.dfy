/**
 * Renamings of frames and object identities, and the relation between two
 * stores in which everything one run can see is a renamed copy of what the
 * other run can see.
 */
module Renaming {
  import opened Basics
  import opened Terms
  import opened Frames
  import opened Prims
  import Arith
  import Equality

  // Frame addresses and object identities of one run, as seen in the other.
  datatype Names = Names(frames: map<nat, nat>, ids: map<nat, nat>)

  ghost predicate Injective(m: map<nat, nat>) {
    forall a, b | a in m && b in m && m[a] == m[b] :: a == b
  }

  ghost predicate Maps(m: map<nat, nat>, a: nat, b: nat) {
    a in m && m[a] == b
  }

  ghost predicate Same(r: Names, v: Value, w: Value) {
    match v
    case Pair(id, car, cdr) => w.Pair? && Maps(r.ids, id, w.id) && Same(r, car, w.car) && Same(r, cdr, w.cdr)
    case Str(id, bytes) => w.Str? && Maps(r.ids, id, w.id) && bytes == w.bytes
    case Closure(id, env, params, body, variadic, arityMin) =>
      && w.Closure? && Maps(r.ids, id, w.id) && Maps(r.frames, env, w.env)
      && Same(r, params, w.params) && Same(r, body, w.body)
      && variadic == w.variadic && arityMin == w.arityMin
    case Prim(id, op) => w.Prim? && Maps(r.ids, id, w.id) && op == w.op
    case Env(frame) => w.Env? && Maps(r.frames, frame, w.frame)
    case _ => v == w
  }

  ghost predicate SameAll(r: Names, vs: seq<Value>, ws: seq<Value>) {
    |vs| == |ws| && forall i | 0 <= i < |vs| :: Same(r, vs[i], ws[i])
  }

  ghost predicate SameFrame(r: Names, e: nat, f: Frame, e': nat, f': Frame) {
    && f.names == f'.names
    && f.capacity == f'.capacity
    && SameAll(r, f.values, f'.values)
    && f.parent.Some? == f'.parent.Some?
    && (f.parent.Some? ==>
          f.parent.value < e && f'.parent.value < e' && Maps(r.frames, f.parent.value, f'.parent.value))
  }

  // Every renamed frame is a renamed copy; what is not renamed is unconstrained.
  ghost predicate SameStore(r: Names, s: Store, t: Store) {
    && Injective(r.frames) && Injective(r.ids)
    && s.maxEqual == t.maxEqual
    && (forall e | e in r.frames :: SameAt(r, s, t, e))
    && (forall i | i in r.ids :: i < s.nextId && r.ids[i] < t.nextId)
  }

  ghost predicate SameAt(r: Names, s: Store, t: Store, e: nat)
    requires e in r.frames
  {
    e < |s.frames| && r.frames[e] < |t.frames| && SameFrame(r, e, s.frames[e], r.frames[e], t.frames[r.frames[e]])
  }

  ghost predicate Extends(r: Names, r': Names) {
    && (forall e | e in r.frames :: Maps(r'.frames, e, r.frames[e]))
    && (forall i | i in r.ids :: Maps(r'.ids, i, r.ids[i]))
  }

  // Only new frames get new names, all of them do, and frames without a name are not touched.
  ghost predicate Evolves(r: Names, s: Store, t: Store, r': Names, s': Store, t': Store) {
    && Extends(r, r')
    && |s.frames| <= |s'.frames| && |t.frames| <= |t'.frames|
    && s.nextId <= s'.nextId && t.nextId <= t'.nextId
    && (forall e | e in r'.frames && e !in r.frames :: |s.frames| <= e && |t.frames| <= r'.frames[e])
    && (forall e | |s.frames| <= e < |s'.frames| :: e in r'.frames)
    && (forall e | 0 <= e < |s.frames| && e !in r.frames :: s'.frames[e] == s.frames[e])
    && (forall e | 0 <= e < |t.frames| && Unnamed(r, e) :: t'.frames[e] == t.frames[e])
    && SameStore(r', s', t')
  }

  ghost predicate Unnamed(r: Names, e: nat) {
    forall k | k in r.frames :: r.frames[k] != e
  }

  lemma ExtendsTransitive(r0: Names, r1: Names, r2: Names)
    requires Extends(r0, r1) && Extends(r1, r2)
    ensures Extends(r0, r2)
  {
    forall e | e in r0.frames ensures Maps(r2.frames, e, r0.frames[e]) {
      assert Maps(r1.frames, e, r0.frames[e]);
    }
    forall i | i in r0.ids ensures Maps(r2.ids, i, r0.ids[i]) {
      assert Maps(r1.ids, i, r0.ids[i]);
    }
  }

  lemma UnnamedStays(r0: Names, r1: Names, s0: Store, t0: Store, s1: Store, t1: Store, e: nat)
    requires Evolves(r0, s0, t0, r1, s1, t1) && e < |t0.frames| && Unnamed(r0, e)
    ensures Unnamed(r1, e)
  {
    forall k | k in r1.frames ensures r1.frames[k] != e {
      if k in r0.frames {
        assert Maps(r1.frames, k, r0.frames[k]);
      }
    }
  }

  lemma EvolvesTransitive(r0: Names, s0: Store, t0: Store, r1: Names, s1: Store, t1: Store, r2: Names, s2: Store,
                          t2: Store)
    requires Evolves(r0, s0, t0, r1, s1, t1) && Evolves(r1, s1, t1, r2, s2, t2)
    ensures Evolves(r0, s0, t0, r2, s2, t2)
  {
    ExtendsTransitive(r0, r1, r2);
    forall e | e in r2.frames && e !in r0.frames ensures |s0.frames| <= e && |t0.frames| <= r2.frames[e] {
      if e in r1.frames {
        assert Maps(r2.frames, e, r1.frames[e]);
      }
    }
    forall e | |s0.frames| <= e < |s2.frames| ensures e in r2.frames {
      if e < |s1.frames| {
        assert Maps(r2.frames, e, r1.frames[e]);
      }
    }
    forall e | 0 <= e < |t0.frames| && Unnamed(r0, e) ensures t2.frames[e] == t0.frames[e] {
      UnnamedStays(r0, r1, s0, t0, s1, t1, e);
    }
  }

  lemma EvolvesReflexive(r: Names, s: Store, t: Store)
    requires SameStore(r, s, t)
    ensures Evolves(r, s, t, r, s, t)
  {
  }

  lemma {:induction false} SameExtends(r: Names, r': Names, v: Value, w: Value)
    requires Same(r, v, w) && Extends(r, r')
    ensures Same(r', v, w)
  {
    match v
    case Pair(id, car, cdr) =>
      SameExtends(r, r', car, w.car);
      SameExtends(r, r', cdr, w.cdr);
    case Closure(id, env, params, body, variadic, arityMin) =>
      SameExtends(r, r', params, w.params);
      SameExtends(r, r', body, w.body);
    case _ =>
  }

  lemma SameAllExtends(r: Names, r': Names, vs: seq<Value>, ws: seq<Value>)
    requires SameAll(r, vs, ws) && Extends(r, r')
    ensures SameAll(r', vs, ws)
  {
    forall i | 0 <= i < |vs| ensures Same(r', vs[i], ws[i]) {
      SameExtends(r, r', vs[i], ws[i]);
    }
  }

  lemma SameAllCons(r: Names, v: Value, w: Value, vs: seq<Value>, ws: seq<Value>)
    requires Same(r, v, w) && SameAll(r, vs, ws)
    ensures SameAll(r, [v] + vs, [w] + ws)
  {
  }

  lemma SameAllSlices(r: Names, vs: seq<Value>, ws: seq<Value>, k: nat)
    requires SameAll(r, vs, ws) && k <= |vs|
    ensures SameAll(r, vs[..k], ws[..k]) && SameAll(r, vs[k..], ws[k..])
  {
  }

  /** Renaming is one to one: related values are identical to each other on one side iff on the other. */
  lemma {:induction false} SameIsInjective(r: Names, v: Value, w: Value, v2: Value, w2: Value)
    requires Injective(r.frames) && Injective(r.ids)
    requires Same(r, v, w) && Same(r, v2, w2)
    ensures v == v2 <==> w == w2
  {
    match v
    case Pair(id, car, cdr) =>
      if v2.Pair? {
        SameIsInjective(r, car, w.car, v2.car, w2.car);
        SameIsInjective(r, cdr, w.cdr, v2.cdr, w2.cdr);
      }
    case Closure(id, env, params, body, variadic, arityMin) =>
      if v2.Closure? {
        SameIsInjective(r, params, w.params, v2.params, w2.params);
        SameIsInjective(r, body, w.body, v2.body, w2.body);
      }
    case _ =>
  }

  // ------------------------------------------------------------ stores

  lemma {:induction false} SameHolder(r: Names, s: Store, t: Store, e: nat, e': nat, name: nat)
    requires SameStore(r, s, t) && Maps(r.frames, e, e')
    ensures var h, h' := Holder(s.frames, e, name), Holder(t.frames, e', name);
      h.Some? == h'.Some? && (h.Some? ==> Maps(r.frames, h.value, h'.value))
    decreases e
  {
    assert SameAt(r, s, t, e);
    var f := s.frames[e];
    if IndexOf(f.names, name).None? && f.parent.Some? {
      SameHolder(r, s, t, f.parent.value, t.frames[e'].parent.value, name);
    }
  }

  lemma SameLookup(r: Names, s: Store, t: Store, e: nat, e': nat, name: nat)
    requires SameStore(r, s, t) && Maps(r.frames, e, e')
    ensures var v, v' := Lookup(s.frames, e, name), Lookup(t.frames, e', name);
      v.Some? == v'.Some? && (v.Some? ==> Same(r, v.value, v'.value))
  {
    SameHolder(r, s, t, e, e', name);
    var h := Holder(s.frames, e, name);
    if h.Some? {
      assert SameAt(r, s, t, h.value);
    }
  }

  lemma SameDefined(r: Names, e: nat, f: Frame, e': nat, f': Frame, name: nat, v: Value, w: Value)
    requires SameFrame(r, e, f, e', f') && Same(r, v, w)
    ensures SameFrame(r, e, DefineIn(f, name, v), e', DefineIn(f', name, w))
  {
  }

  // The store after a definition in a renamed frame.
  lemma SameDefine(r: Names, s: Store, t: Store, e: nat, e': nat, name: nat, v: Value, w: Value)
    requires SameStore(r, s, t) && Maps(r.frames, e, e') && Same(r, v, w)
    ensures e < |s.frames| && e' < |t.frames|
    ensures Evolves(r, s, t, r, s.(frames := Define(s.frames, e, name, v)), t.(frames := Define(t.frames, e', name, w)))
  {
    assert SameAt(r, s, t, e);
    var s' := s.(frames := Define(s.frames, e, name, v));
    var t' := t.(frames := Define(t.frames, e', name, w));
    forall k | k in r.frames ensures SameAt(r, s', t', k) {
      assert SameAt(r, s, t, k);
      if k != e {
        assert r.frames[k] != e';
      } else {
        SameDefined(r, e, s.frames[e], e', t.frames[e'], name, v, w);
      }
    }
  }

  function WithFrame(r: Names, e: nat, e': nat): Names {
    r.(frames := r.frames[e := e'])
  }

  function WithId(r: Names, i: nat, i': nat): Names {
    r.(ids := r.ids[i := i'])
  }

  // Naming the frames e and e', which are renamed copies of each other.
  lemma NameFrame(r: Names, s: Store, t: Store, e: nat, e': nat)
    requires SameStore(r, s, t)
    requires e < |s.frames| && e' < |t.frames| && e !in r.frames && Unnamed(r, e')
    requires SameFrame(r, e, s.frames[e], e', t.frames[e'])
    ensures Extends(r, WithFrame(r, e, e')) && SameStore(WithFrame(r, e, e'), s, t)
  {
    var r' := WithFrame(r, e, e');
    assert Extends(r, r');
    forall k | k in r'.frames ensures SameAt(r', s, t, k) {
      var k' := r'.frames[k];
      if k != e {
        assert SameAt(r, s, t, k);
      }
      SameAllExtends(r, r', s.frames[k].values, t.frames[k'].values);
    }
  }

  // A fresh frame on both sides over related parents.
  lemma SameNewFrame(r: Names, s: Store, t: Store, parent: nat, parent': nat)
    requires SameStore(r, s, t) && Maps(r.frames, parent, parent')
    ensures Evolves(r, s, t, WithFrame(r, |s.frames|, |t.frames|),
                    s.(frames := s.frames + [EmptyFrame(Some(parent))]),
                    t.(frames := t.frames + [EmptyFrame(Some(parent'))]))
  {
    assert SameAt(r, s, t, parent);
    var s' := s.(frames := s.frames + [EmptyFrame(Some(parent))]);
    var t' := t.(frames := t.frames + [EmptyFrame(Some(parent'))]);
    forall k | k in r.frames ensures SameAt(r, s', t', k) {
      assert SameAt(r, s, t, k);
    }
    forall k | k in r.frames ensures k != |s.frames| {
      assert SameAt(r, s, t, k);
    }
    assert Unnamed(r, |t.frames|) by {
      forall k | k in r.frames ensures r.frames[k] != |t.frames| {
        assert SameAt(r, s, t, k);
      }
    }
    NameFrame(r, s', t', |s.frames|, |t.frames|);
  }

  // A fresh identity on both sides.
  lemma SameNewId(r: Names, s: Store, t: Store)
    requires SameStore(r, s, t)
    ensures Evolves(r, s, t, WithId(r, s.nextId, t.nextId), s.(nextId := s.nextId + 1), t.(nextId := t.nextId + 1))
  {
    var r' := WithId(r, s.nextId, t.nextId);
    var s', t' := s.(nextId := s.nextId + 1), t.(nextId := t.nextId + 1);
    assert Extends(r, r');
    forall k | k in r'.frames ensures SameAt(r', s', t', k) {
      assert SameAt(r, s, t, k);
      SameAllExtends(r, r', s.frames[k].values, t.frames[r.frames[k]].values);
    }
  }

  // ------------------------------------------------------------ lists

  // Related values have the same outermost constructor; atoms are equal.
  lemma SameTop(r: Names, v: Value, w: Value)
    requires Same(r, v, w)
    ensures v.Pair? == w.Pair? && (v.Pair? ==> Same(r, v.car, w.car) && Same(r, v.cdr, w.cdr))
    ensures v.Sym? == w.Sym? && (v.Sym? ==> v == w)
    ensures (v == Nil) == (w == Nil)
    ensures Truthy(v) == Truthy(w)
  {
  }

  // The first three cells of two related lists correspond.
  lemma SameCells(r: Names, v: Value, w: Value)
    requires Same(r, v, w)
    ensures v.Pair? == w.Pair?
    ensures v.Pair? ==> SameTops(r, v.car, w.car) && SameTops(r, v.cdr, w.cdr)
    ensures v.Pair? && v.cdr.Pair? ==> SameTops(r, v.cdr.car, w.cdr.car) && SameTops(r, v.cdr.cdr, w.cdr.cdr)
    ensures v.Pair? && v.cdr.Pair? && v.cdr.cdr.Pair? ==>
      SameTops(r, v.cdr.cdr.car, w.cdr.cdr.car) && SameTops(r, v.cdr.cdr.cdr, w.cdr.cdr.cdr)
  {
  }

  ghost predicate SameTops(r: Names, v: Value, w: Value) {
    && Same(r, v, w)
    && v.Pair? == w.Pair? && v.Sym? == w.Sym? && (v.Sym? ==> v == w) && (v == Nil) == (w == Nil)
  }

  lemma {:induction false} SameListLength(r: Names, v: Value, w: Value)
    requires Same(r, v, w)
    ensures ListLength(v) == ListLength(w)
  {
    if v.Pair? {
      SameListLength(r, v.cdr, w.cdr);
    }
  }

  // ------------------------------------------------------------ primitives

  lemma {:induction false} SameFold(r: Names, op: Arith.FoldOp, acc: Fixnum, vs: seq<Value>, ws: seq<Value>)
    requires SameAll(r, vs, ws)
    ensures Arith.Fold(op, acc, vs) == Arith.Fold(op, acc, ws)
    decreases |vs|
  {
    if vs != [] {
      assert Same(r, vs[0], ws[0]);
      if vs[0].Fix? {
        var x := Arith.ApplyOp(op, acc, vs[0].n);
        if FitsFixnum(x) {
          SameFold(r, op, x, vs[1..], ws[1..]);
        }
      }
    }
  }

  lemma {:induction false} SameDivFold(r: Names, acc: Fixnum, vs: seq<Value>, ws: seq<Value>)
    requires SameAll(r, vs, ws)
    ensures Arith.DivFold(acc, vs) == Arith.DivFold(acc, ws)
    decreases |vs|
  {
    if vs != [] {
      assert Same(r, vs[0], ws[0]);
      if vs[0].Fix? && vs[0].n != 0 {
        var q := Arith.TruncDiv(acc, vs[0].n);
        if FitsFixnum(q) {
          SameDivFold(r, q, vs[1..], ws[1..]);
        }
      }
    }
  }

  lemma {:induction false} SameChain(r: Names, op: Arith.CmpOp, prev: int, vs: seq<Value>, ws: seq<Value>)
    requires SameAll(r, vs, ws)
    ensures Arith.Chain(op, prev, vs) == Arith.Chain(op, prev, ws)
    decreases |vs|
  {
    if vs != [] {
      assert Same(r, vs[0], ws[0]);
      if vs[0].Fix? {
        SameChain(r, op, vs[0].n, vs[1..], ws[1..]);
      }
    }
  }

  lemma SameEqv(r: Names, v: Value, w: Value, v2: Value, w2: Value)
    requires Injective(r.frames) && Injective(r.ids) && Same(r, v, w) && Same(r, v2, w2)
    ensures Equality.Eqv(v, v2) == Equality.Eqv(w, w2)
  {
    SameIsInjective(r, v, w, v2, w2);
  }

  lemma {:induction false} SameBoundedEqual(r: Names, budget: nat, v: Value, w: Value, v2: Value, w2: Value)
    requires Injective(r.frames) && Injective(r.ids) && Same(r, v, w) && Same(r, v2, w2)
    ensures Equality.BoundedEqual(budget, v, v2) == Equality.BoundedEqual(budget, w, w2)
    decreases budget
  {
    SameEqv(r, v, w, v2, w2);
    if budget > 0 && v.Pair? && v2.Pair? {
      SameBoundedEqual(r, budget - 1, v.car, w.car, v2.car, w2.car);
      SameBoundedEqual(r, budget - 1, v.cdr, w.cdr, v2.cdr, w2.cdr);
    }
  }

  ghost predicate SameResult(r: Names, a: Arith.PrimResult, b: Arith.PrimResult) {
    if a.Val? then b.Val? && Same(r, a.v, b.v) else a == b
  }

  predicate Numeric(op: PrimOp) {
    op in {Add, Sub, Mul, Div, NumEq, NumLt, NumGt, NumLe, NumGe}
  }

  lemma SameNumeric(r: Names, op: PrimOp, vs: seq<Value>, ws: seq<Value>, max: nat)
    requires SameAll(r, vs, ws) && ArityOk(op, |vs|) && Numeric(op)
    ensures PurePrim(op, vs, max) == PurePrim(op, ws, max)
  {
    if op == Add {
      SameFold(r, Arith.Plus, 0, vs, ws);
    } else if op == Mul {
      SameFold(r, Arith.Times, 1, vs, ws);
    } else {
      assert Same(r, vs[0], ws[0]);
      if op == Sub {
        SameFold(r, Arith.Minus, 0, vs, ws);
        if vs[0].Fix? {
          SameFold(r, Arith.Minus, vs[0].n, vs[1..], ws[1..]);
        }
      } else if op == Div {
        SameDivFold(r, 1, vs, ws);
        if vs[0].Fix? {
          SameDivFold(r, vs[0].n, vs[1..], ws[1..]);
        }
      } else if vs[0].Fix? {
        SameChain(r, CmpOpOf(op), vs[0].n, vs[1..], ws[1..]);
      }
    }
  }

  lemma NumericResultIsPlain(op: PrimOp, vs: seq<Value>, max: nat)
    requires ArityOk(op, |vs|) && Numeric(op)
    ensures var x := PurePrim(op, vs, max); x.Val? ==> x.v.Fix? || x.v == True || x.v == False
  {
    if op == Add {
      Arith.FoldIsExact(Arith.Plus, 0, vs);
    } else if op == Mul {
      Arith.FoldIsExact(Arith.Times, 1, vs);
    } else if vs[0].Fix? {
      if op == Sub {
        Arith.FoldIsExact(Arith.Minus, 0, vs);
        Arith.FoldIsExact(Arith.Minus, vs[0].n, vs[1..]);
      } else if op == Div {
        if Arith.DivSpec(vs).Val? {
          if |vs| == 1 {
            Arith.DivIsByProduct(1, vs);
          } else {
            Arith.DivIsByProduct(vs[0].n, vs[1..]);
          }
        }
      } else {
        ChainIsBoolean(CmpOpOf(op), vs[0].n, vs[1..]);
      }
    }
  }

  lemma {:induction false} ChainIsBoolean(op: Arith.CmpOp, prev: int, vs: seq<Value>)
    ensures var x := Arith.Chain(op, prev, vs); x.Val? ==> x.v == True || x.v == False
    decreases |vs|
  {
    if vs != [] && vs[0].Fix? {
      ChainIsBoolean(op, vs[0].n, vs[1..]);
    }
  }

  lemma SamePurePrim(r: Names, op: PrimOp, vs: seq<Value>, ws: seq<Value>, max: nat)
    requires Injective(r.frames) && Injective(r.ids)
    requires SameAll(r, vs, ws) && ArityOk(op, |vs|) && op != Cons && op != List
    ensures SameResult(r, PurePrim(op, vs, max), PurePrim(op, ws, max))
  {
    if Numeric(op) {
      SameNumeric(r, op, vs, ws, max);
      NumericResultIsPlain(op, vs, max);
    } else {
      assert Same(r, vs[0], ws[0]);
      if |vs| == 2 {
        assert Same(r, vs[1], ws[1]);
        SameEqv(r, vs[0], ws[0], vs[1], ws[1]);
        SameIsInjective(r, vs[0], ws[0], vs[1], ws[1]);
        SameBoundedEqual(r, max, vs[0], ws[0], vs[1], ws[1]);
      } else {
        SameListLength(r, vs[0], ws[0]);
      }
    }
  }

  // ------------------------------------------------------------ outcomes

  ghost predicate SameOutcome(r: Names, s: Store, t: Store, r': Names, o: Outcome<Value>, o': Outcome<Value>) {
    var same := match o
      case Done(v, s') => o'.Done? && Same(r', v, o'.value) && Evolves(r, s, t, r', s', o'.store)
      case Fail(st, s') => o'.Fail? && st == o'.st && Evolves(r, s, t, r', s', o'.store)
      case OutOfFuel => o'.OutOfFuel?;
    same
  }

  ghost predicate SameValues(r: Names, s: Store, t: Store, r': Names, o: Outcome<seq<Value>>, o': Outcome<seq<Value>>) {
    var same := match o
      case Done(vs, s') => o'.Done? && SameAll(r', vs, o'.value) && Evolves(r, s, t, r', s', o'.store)
      case Fail(st, s') => o'.Fail? && st == o'.st && Evolves(r, s, t, r', s', o'.store)
      case OutOfFuel => o'.OutOfFuel?;
    same
  }

  ghost predicate SameFrames(r: Names, s: Store, t: Store, r': Names, o: Outcome<nat>, o': Outcome<nat>) {
    var same := match o
      case Done(e, s') => o'.Done? && Maps(r'.frames, e, o'.value) && Evolves(r, s, t, r', s', o'.store)
      case Fail(st, s') => o'.Fail? && st == o'.st && Evolves(r, s, t, r', s', o'.store)
      case OutOfFuel => o'.OutOfFuel?;
    same
  }

  lemma SameNewPair(r: Names, s: Store, t: Store, car: Value, cdr: Value, car': Value, cdr': Value) returns (r': Names)
    requires SameStore(r, s, t) && Same(r, car, car') && Same(r, cdr, cdr')
    ensures SameOutcome(r, s, t, r', NewPair(car, cdr, s), NewPair(car', cdr', t))
  {
    r' := WithId(r, s.nextId, t.nextId);
    SameNewId(r, s, t);
    SameExtends(r, r', car, car');
    SameExtends(r, r', cdr, cdr');
  }

  lemma {:induction false} SameNewList(r: Names, s: Store, t: Store, vs: seq<Value>, ws: seq<Value>) returns (r': Names)
    requires SameStore(r, s, t) && SameAll(r, vs, ws)
    ensures SameOutcome(r, s, t, r', NewList(vs, s), NewList(ws, t))
    decreases |vs|
  {
    if vs == [] {
      r' := r;
      EvolvesReflexive(r, s, t);
    } else {
      var r1 := SameNewList(r, s, t, vs[1..], ws[1..]);
      var rest, rest' := NewList(vs[1..], s), NewList(ws[1..], t);
      assert Same(r, vs[0], ws[0]);
      SameExtends(r, r1, vs[0], ws[0]);
      r' := SameNewPair(r1, rest.store, rest'.store, vs[0], rest.value, ws[0], rest'.value);
      EvolvesTransitive(r, s, t, r1, rest.store, rest'.store, r', NewList(vs, s).store, NewList(ws, t).store);
    }
  }

  lemma SameApplyPrim(r: Names, s: Store, t: Store, op: PrimOp, vs: seq<Value>, ws: seq<Value>) returns (r': Names)
    requires SameStore(r, s, t) && SameAll(r, vs, ws) && ArityOk(op, |vs|)
    ensures SameOutcome(r, s, t, r', ApplyPrim(op, vs, s), ApplyPrim(op, ws, t))
  {
    if op == Cons {
      assert Same(r, vs[0], ws[0]) && Same(r, vs[1], ws[1]);
      r' := SameNewPair(r, s, t, vs[0], vs[1], ws[0], ws[1]);
    } else if op == List {
      r' := SameNewList(r, s, t, vs, ws);
    } else {
      r' := r;
      SamePurePrim(r, op, vs, ws, s.maxEqual);
      EvolvesReflexive(r, s, t);
    }
  }
}
