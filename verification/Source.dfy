/**
 * Whole sources: forms read from bytes and evaluated one after the other, until
 * the input ends, a read fails or an evaluation fails.
 */
module Source {
  import opened Basics
  import opened Terms
  import opened Prims
  import opened Semantics
  import opened Evaluator
  import opened RoundTrip
  import Gc
  import Grammar
  import Graph
  import Reader
  import Symbols
  import Text
  import Unfolding

  // ---------------------------------------------------------------- forms as code

  // The term for a form that was read: cells and strings get the identities from
  // `id` on, symbols the indices of their names.
  function Loaded(names: Unfolding.Names, d: Text.Datum, id: nat): (r: (Value, nat)) {
    match d
    case Nil => (Terms.Nil, id)
    case True => (Terms.True, id)
    case False => (Terms.False, id)
    case Fix(n) => (Terms.Fix(n), id)
    case Sym(name) => (if name in names then Terms.Sym(Symbols.IndexOf(names, name)) else Undef, id)
    case Str(bytes) => (Terms.Str(id, bytes), id + 1)
    case Pair(car, cdr) =>
      var a := Loaded(names, car, id);
      var b := Loaded(names, cdr, a.1);
      (Terms.Pair(b.1, a.0, b.0), b.1 + 1)
    case Opaque(_) => (Undef, id)
  }

  predicate Known(names: Unfolding.Names, d: Text.Datum) {
    match d
    case Sym(name) => name in names
    case Pair(car, cdr) => Known(names, car) && Known(names, cdr)
    case _ => true
  }

  // The code is the form: the same atoms in the same places.
  predicate SameForm(names: Unfolding.Names, t: Value, d: Text.Datum) {
    match d
    case Nil => t == Terms.Nil
    case True => t == Terms.True
    case False => t == Terms.False
    case Fix(n) => t == Terms.Fix(n)
    case Sym(name) => t.Sym? && t.idx < |names| && names[t.idx] == name
    case Str(bytes) => t.Str? && t.bytes == bytes
    case Pair(car, cdr) => t.Pair? && SameForm(names, t.car, car) && SameForm(names, t.cdr, cdr)
    case Opaque(_) => false
  }

  function Identities(t: Value): seq<nat> {
    match t
    case Pair(id, car, cdr) => Identities(car) + Identities(cdr) + [id]
    case Str(id, _) => [id]
    case _ => []
  }

  ghost predicate Distinct(ids: seq<nat>, from: nat, to: nat) {
    && (forall i | 0 <= i < |ids| :: from <= ids[i] < to)
    && forall i, j | 0 <= i < j < |ids| :: ids[i] != ids[j]
  }

  /** What was read is what is run: the same tree, each cell and string of it new and no two of them the same. */
  lemma {:induction false} LoadedIsTheForm(names: Unfolding.Names, d: Text.Datum, id: nat)
    requires Readable(d) && Known(names, d)
    ensures var (t, id') := Loaded(names, d, id);
      SameForm(names, t, d) && id <= id' && Distinct(Identities(t), id, id')
    decreases d
  {
    match d
    case Sym(name) =>
      assert names[Symbols.IndexOf(names, name)] == name;
    case Pair(car, cdr) =>
      LoadedIsTheForm(names, car, id);
      LoadedIsTheForm(names, cdr, Loaded(names, car, id).1);
    case _ =>
  }

  // Names interned later do not change a form.
  lemma {:induction false} LoadedIsStable(names: Unfolding.Names, more: Unfolding.Names, d: Text.Datum, id: nat)
    requires Known(names, d) && names <= more && Symbols.Unique(more)
    ensures Loaded(more, d, id) == Loaded(names, d, id)
    decreases d
  {
    match d
    case Sym(name) =>
      var i := Symbols.IndexOf(names, name);
      assert more[i] == name;
      Symbols.UniqueIndex(more, i);
    case Pair(car, cdr) =>
      LoadedIsStable(names, more, car, id);
      LoadedIsStable(names, more, cdr, Loaded(names, car, id).1);
    case _ =>
  }

  // From the heap to code.
  method Load(heap: Gc.Heap, v: Graph.Value, id: nat, ghost names: Unfolding.Names, ghost d: Text.Datum)
    returns (t: Value, id': nat)
    requires Unfolding.Builds(heap.Objs(), names, v, d, {}) && Readable(d) && Symbols.Unique(names)
    ensures (t, id') == Loaded(names, d, id) && Known(names, d)
    decreases d
  {
    t, id' := Undef, id;
    match v
    case Nil => t := Terms.Nil;
    case True => t := Terms.True;
    case False => t := Terms.False;
    case Fix(n) => t := Terms.Fix(n);
    case Sym(idx) =>
      Symbols.UniqueIndex(names, idx);
      t := Terms.Sym(idx);
    case Ref(a) =>
      var o := heap.mem[a].obj;
      if o.Str? {
        t, id' := Terms.Str(id, o.bytes), id + 1;
      } else {
        var first, rest;
        first, id' := Load(heap, o.car, id, names, d.car);
        rest, id' := Load(heap, o.cdr, id', names, d.cdr);
        t, id' := Terms.Pair(id', first, rest), id' + 1;
      }
    case _ =>
      assert false;
  }

  // ---------------------------------------------------------------- programs

  // The forms of a program in order, in one environment: the first failure of an
  // evaluation, else the error the input stops with, else the last value.
  function Outcomes(n: nat, l: Limit, names: Unfolding.Names, p: Program, env: nat, last: Value, s: Store):
      Outcome<Value>
    decreases |p.forms|
  {
    if p.forms == [] then if p.Forms? then Done(last, s) else Fail(p.st, s)
    else
      var (t, id) := Loaded(names, p.forms[0], s.nextId);
      var o := Eval(n, l, t, env, s.(nextId := id));
      if o.Done? then Outcomes(n, l, names, p.(forms := p.forms[1..]), env, o.value, o.store) else o
  }

  lemma OutcomesStep(n: nat, l: Limit, names: Unfolding.Names, d: Text.Datum, rest: Program, env: nat,
                     last: Value, s: Store)
    ensures var (t, id) := Loaded(names, d, s.nextId);
            var o := Eval(n, l, t, env, s.(nextId := id));
            Outcomes(n, l, names, AfterForms([d], rest), env, last, s) ==
            if o.Done? then Outcomes(n, l, names, rest, env, o.value, o.store) else o
  {
    var p := AfterForms([d], rest);
    assert p.forms[0] == d && p.(forms := p.forms[1..]) == rest;
  }

  /** An input that stops with an error runs the forms before it as a program of their own, and then fails. */
  lemma {:induction false} FormsRunBeforeTheError(n: nat, l: Limit, names: Unfolding.Names, forms: seq<Text.Datum>,
                                                  st: Error, env: nat, last: Value, s: Store)
    ensures var o := Outcomes(n, l, names, Forms(forms), env, last, s);
            Outcomes(n, l, names, Stopped(forms, st), env, last, s) == if o.Done? then Fail(st, o.store) else o
    decreases |forms|
  {
    hide Eval, Loaded;
    if forms != [] {
      var (t, id) := Loaded(names, forms[0], s.nextId);
      var o := Eval(n, l, t, env, s.(nextId := id));
      if o.Done? {
        FormsRunBeforeTheError(n, l, names, forms[1..], st, env, o.value, o.store);
      }
    }
  }

  // The first `k` forms evaluated in turn, each from the store the one before it left.
  ghost predicate InTurn(n: nat, l: Limit, names: Unfolding.Names, forms: seq<Text.Datum>, env: nat, vs: seq<Value>,
                         ts: seq<Store>, k: nat) {
    && k <= |forms| && k < |vs| && k < |ts|
    && forall i | 0 <= i < k :: EvalRead(n, l, names, forms[i], env, ts[i]) == Done(vs[i + 1], ts[i + 1])
  }

  // One form, its cells numbered from the next unused identity on.
  ghost function EvalRead(n: nat, l: Limit, names: Unfolding.Names, d: Text.Datum, env: nat, s: Store): Outcome<Value> {
    var (t, id) := Loaded(names, d, s.nextId);
    Eval(n, l, t, env, s.(nextId := id))
  }

  /**
   * A program whose forms all end gives the last one's value, or the error its
   * text stops with; otherwise it gives the first failure, with the effects of
   * the forms before it and of none after it.
   */
  lemma {:induction false} OutcomesInTurn(n: nat, l: Limit, names: Unfolding.Names, p: Program, env: nat,
                                          vs: seq<Value>, ts: seq<Store>, k: nat)
    requires InTurn(n, l, names, p.forms, env, vs, ts, k)
    ensures var r := Outcomes(n, l, names, p, env, vs[0], ts[0]);
      if k == |p.forms| then r == if p.Forms? then Done(vs[k], ts[k]) else Fail(p.st, ts[k])
      else
        var o := EvalRead(n, l, names, p.forms[k], env, ts[k]);
        !o.Done? ==> r == o
    decreases k
  {
    if k > 0 {
      var rest := p.(forms := p.forms[1..]);
      assert EvalRead(n, l, names, p.forms[0], env, ts[0]) == Done(vs[0 + 1], ts[0 + 1]);
      assert InTurn(n, l, names, rest.forms, env, vs[1..], ts[1..], k - 1) by {
        forall i | 0 <= i < k - 1
          ensures EvalRead(n, l, names, rest.forms[i], env, ts[1..][i]) == Done(vs[1..][i + 1], ts[1..][i + 1])
        {
          assert rest.forms[i] == p.forms[i + 1];
        }
      }
      OutcomesInTurn(n, l, names, rest, env, vs[1..], ts[1..], k - 1);
    }
  }

  // What is left of a source goes on as the whole did, for the names known now and
  // any that are interned later.
  ghost predicate Continues(n: nat, l: Limit, names: Unfolding.Names, rest: Program, env: nat, last: Value, s: Store,
                            whole: Program, s0: Store) {
    forall more: Unfolding.Names | names <= more && Symbols.Unique(more) ::
      Outcomes(n, l, more, rest, env, last, s) == Outcomes(n, l, more, whole, env, Undef, s0)
  }

  lemma ContinuesAfter(n: nat, l: Limit, names: Unfolding.Names, d: Text.Datum, rest: Program, env: nat, last: Value,
                       s: Store, whole: Program, s0: Store, now: Unfolding.Names)
    requires Continues(n, l, names, AfterForms([d], rest), env, last, s, whole, s0)
    requires names <= now && Known(now, d) && Symbols.Unique(now)
    ensures var (t, id) := Loaded(now, d, s.nextId);
            var o := Eval(n, l, t, env, s.(nextId := id));
            if o.Done? then Continues(n, l, now, rest, env, o.value, o.store, whole, s0)
            else Outcomes(n, l, now, whole, env, Undef, s0) == o
  {
    forall more: Unfolding.Names | now <= more && Symbols.Unique(more)
      ensures Loaded(more, d, s.nextId) == Loaded(now, d, s.nextId)
    {
      LoadedIsStable(now, more, d, s.nextId);
    }
    forall more: Unfolding.Names | now <= more && Symbols.Unique(more)
      ensures Outcomes(n, l, more, AfterForms([d], rest), env, last, s)
           == Outcomes(n, l, more, whole, env, Undef, s0)
    {
      assert names <= more;
    }
    forall more: Unfolding.Names | now <= more && Symbols.Unique(more) {
      OutcomesStep(n, l, more, d, rest, env, last, s);
    }
  }

  // ---------------------------------------------------------------- the read-eval loop

  // Requests refused so far.
  ghost function Refusals(reader: Reader.Reader, interpreter: Interpreter): nat
    reads reader.heap, reader.table, interpreter
  {
    reader.Refusals() + interpreter.refusals
  }

  // The loop's end, as the outcome of the whole source has it.
  ghost predicate Concludes(e: Ending, v: Value, o: Outcome<Value>, s: Store, refused: bool) {
    if e.Exhausted? then o.OutOfFuel? else Agree(e.st, v, o, s, refused)
  }

  // The next form as code, its cells numbered from `id` on.
  method ReadCode(reader: Reader.Reader, id: nat)
    returns (st: Status, done: bool, t: Value, id': nat, ghost d: Text.Datum)
    requires reader.Ready() && reader.depth == 0
    modifies reader`pos, reader`depth, reader.heap, reader.table
    ensures reader.Ready() && reader.Kept(old(reader.Here())) && Symbols.Unique(reader.table.entries)
    ensures var whole := ReadAll(old(reader.Rest()), reader.max);
      && (st == OK && done ==> whole == Forms([]))
      && (st == OK && !done ==>
            && reader.depth == 0 && old(reader.pos) < reader.pos
            && whole == AfterForms([d], ReadAll(reader.Rest(), reader.max))
            && Known(reader.table.entries, d) && (t, id') == Loaded(reader.table.entries, d, id))
      && (st != OK ==> reader.Refused(old(reader.Here()), st) || whole == Stopped([], st))
  {
    t, id' := Undef, id;
    var form;
    st, done, form, d := reader.ReadNext();
    if st == OK && !done {
      Unfolding.BuildsLess(reader.heap.Objs(), reader.table.entries, form, d, old(reader.Here()).Live(), {});
      t, id' := Load(reader.heap, form, id, reader.table.entries, d);
    }
  }

  method EvalCode(interpreter: Interpreter, t: Value, id: nat, env: nat, n: nat) returns (e: Ending, v: Value)
    requires interpreter.evalDepth <= interpreter.maxEvalDepth
    modifies interpreter, interpreter.envs
    ensures interpreter.Balanced()
    ensures Concludes(e, v, Eval(n, interpreter.Left(), t, env, old(interpreter.Snapshot()).(nextId := id)),
                      interpreter.Snapshot(), interpreter.refusals > old(interpreter.refusals))
  {
    hide Eval;
    interpreter.nextId := id;
    e, v := interpreter.EvalHeld(t, env, n);
  }

  // One form: read, made code, evaluated.
  method Turn(reader: Reader.Reader, interpreter: Interpreter, env: nat, n: nat, last: Value, ghost whole: Program,
              ghost s0: Store) returns (e: Ending, done: bool, v: Value)
    requires reader.Ready() && reader.depth == 0 && interpreter.evalDepth <= interpreter.maxEvalDepth
    requires Continues(n, interpreter.Left(), reader.table.entries, ReadAll(reader.Rest(), reader.max), env, last,
                       interpreter.Snapshot(), whole, s0)
    modifies reader`pos, reader`depth, reader.heap, reader.table, interpreter, interpreter.envs
    ensures reader.Ready() && reader.Kept(old(reader.Here())) && interpreter.Balanced()
    ensures e == Ended(OK) ==> (done <==> ReadAll(old(reader.Rest()), reader.max).forms == [])
    ensures e == Ended(OK) && !done ==>
      && reader.depth == 0 && old(reader.pos) < reader.pos
      && Continues(n, interpreter.Left(), reader.table.entries, ReadAll(reader.Rest(), reader.max), env, v,
                   interpreter.Snapshot(), whole, s0)
    ensures e != Ended(OK) || done ==>
      Concludes(e, v, Outcomes(n, interpreter.Left(), reader.table.entries, whole, env, Undef, s0),
                interpreter.Snapshot(), Refusals(reader, interpreter) > old(Refusals(reader, interpreter)))
  {
    hide Eval, Loaded, Known, Gc.Heap.Valid, Outcomes, Continues;
    v := last;
    ghost var names, l, s := reader.table.entries, interpreter.Left(), interpreter.Snapshot();
    var st, t, id;
    ghost var d;
    st, done, t, id, d := ReadCode(reader, interpreter.nextId);
    if st != OK || done {
      EndOutcome(n, l, names, ReadAll(old(reader.Rest()), reader.max), env, last, s, whole, s0, reader.table.entries);
      return Ended(st), done, v;
    }
    ContinuesAfter(n, l, names, d, ReadAll(reader.Rest(), reader.max), env, last, s, whole, s0, reader.table.entries);
    e, v := EvalCode(interpreter, t, id, env, n);
  }

  lemma EndOutcome(n: nat, l: Limit, names: Unfolding.Names, rest: Program, env: nat, last: Value, s: Store,
                   whole: Program, s0: Store, now: Unfolding.Names)
    requires Continues(n, l, names, rest, env, last, s, whole, s0) && names <= now && Symbols.Unique(now)
    ensures rest == Forms([]) ==> Outcomes(n, l, now, whole, env, Undef, s0) == Done(last, s)
    ensures rest.Stopped? && rest.forms == [] ==> Outcomes(n, l, now, whole, env, Undef, s0) == Fail(rest.st, s)
  {
    assert Outcomes(n, l, now, rest, env, last, s) == Outcomes(n, l, now, whole, env, Undef, s0);
  }

  /**
   * The loop of microlisp_eval on the bytes of a source: the forms are read and
   * evaluated in turn, each once those before it have had their effects; the
   * first failing evaluation ends it, and otherwise what the input ends with.
   */
  method EvalSource(reader: Reader.Reader, interpreter: Interpreter, env: nat, n: nat)
    returns (e: Ending, lastResult: Value, sawForm: bool)
    requires reader.Ready() && reader.depth == 0 && interpreter.evalDepth <= interpreter.maxEvalDepth
    modifies reader`pos, reader`depth, reader.heap, reader.table, interpreter, interpreter.envs
    ensures reader.Ready() && reader.Kept(old(reader.Here())) && interpreter.Balanced()
    ensures Concludes(e, lastResult, Outcomes(n, interpreter.Left(), reader.table.entries,
                                              ReadAll(old(reader.Rest()), reader.max), env, Undef,
                                              old(interpreter.Snapshot())),
                      interpreter.Snapshot(), Refusals(reader, interpreter) > old(Refusals(reader, interpreter)))
    ensures e == Ended(OK) ==> (sawForm <==> ReadAll(old(reader.Rest()), reader.max).forms != [])
  {
    ghost var whole, s0, here := ReadAll(reader.Rest(), reader.max), interpreter.Snapshot(), reader.Here();
    lastResult, sawForm, e := Undef, false, Ended(OK);
    var done := false;
    while e == Ended(OK) && !done
      invariant reader.Ready() && reader.Kept(here) && interpreter.Balanced()
      invariant if sawForm then whole.forms != []
                else e == Ended(OK) && !done ==> reader.Rest() == old(reader.Rest())
      invariant e == Ended(OK) && done && !sawForm ==> whole.forms == []
      invariant e == Ended(OK) && !done ==>
        reader.depth == 0 &&
        Continues(n, interpreter.Left(), reader.table.entries, ReadAll(reader.Rest(), reader.max), env, lastResult,
                  interpreter.Snapshot(), whole, s0)
      invariant e != Ended(OK) || done ==>
        Concludes(e, lastResult, Outcomes(n, interpreter.Left(), reader.table.entries, whole, env, Undef, s0),
                  interpreter.Snapshot(), Refusals(reader, interpreter) > old(Refusals(reader, interpreter)))
      decreases !done, e == Ended(OK), |reader.input| - reader.pos
    {
      ghost var mid := reader.Here();
      e, done, lastResult := Turn(reader, interpreter, env, n, lastResult, whole, s0);
      reader.KeptTransitive(here, mid);
      sawForm := sawForm || (e == Ended(OK) && !done);
    }
  }
}
