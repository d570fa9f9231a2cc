/**
 * The tail-recursive program as data in the heap: wherever its cells are, the
 * evaluator sees the forms that `TailCalls` is about.
 */
module Programs {
  import opened Graph
  import opened Unfolding
  import opened RoundTrip
  import opened Representation
  import Basics
  import Prims
  import Semantics
  import Symbols
  import TailCalls
  import Terms
  import Text

  // The symbol with index `i`, as it is spelled.
  function Spelled(names: Names, i: nat): Text.Datum
    requires i < |names|
  {
    Text.Sym(names[i])
  }

  function List1(a: Text.Datum): Text.Datum {
    Text.Pair(a, Text.Nil)
  }

  function List2(a: Text.Datum, b: Text.Datum): Text.Datum {
    Text.Pair(a, List1(b))
  }

  function List3(a: Text.Datum, b: Text.Datum, c: Text.Datum): Text.Datum {
    Text.Pair(a, List2(b, c))
  }

  // The table has the keywords in their places and the symbols of the program.
  predicate Knows(names: Names, x: TailCalls.Names) {
    Semantics.COND < |names| && x.loop < |names| && x.n < |names| && x.eq < |names| && x.minus < |names| &&
    x.done < |names|
  }

  // (if (= n 0) 'done (loop (- n 1)))
  function Body(names: Names, x: TailCalls.Names): Text.Datum
    requires Knows(names, x)
  {
    var n := Spelled(names, x.n);
    Text.Pair(Spelled(names, Semantics.IF),
              List3(List3(Spelled(names, x.eq), n, Text.Fix(0)),
                    List2(Spelled(names, Semantics.QUOTE), Spelled(names, x.done)),
                    List2(Spelled(names, x.loop), List3(Spelled(names, x.minus), n, Text.Fix(1)))))
  }

  // (define (loop n) ...)
  function Definition(names: Names, x: TailCalls.Names): Text.Datum
    requires Knows(names, x)
  {
    List3(Spelled(names, Semantics.DEFINE), List2(Spelled(names, x.loop), Spelled(names, x.n)), Body(names, x))
  }

  // (loop k)
  function Call(names: Names, x: TailCalls.Names, k: Basics.Fixnum): Text.Datum
    requires Knows(names, x)
  {
    List2(Spelled(names, x.loop), Text.Fix(k))
  }

  // `t` is the view of some value that unfolds to the readable tree `d`.
  ghost predicate IsView(g: ObjectMap, names: Names, d: Text.Datum, t: Terms.Value) {
    Readable(d) && exists v :: Builds(g, names, v, d, {}) && t == Term(g, names, v, d)
  }

  // Equal names have equal indices.
  lemma ViewOfSymbol(g: ObjectMap, names: Names, i: nat, t: Terms.Value)
    requires Symbols.Unique(names) && i < |names| && IsView(g, names, Spelled(names, i), t)
    ensures t == Terms.Sym(i)
  {
  }

  lemma ViewOfPair(g: ObjectMap, names: Names, d: Text.Datum, t: Terms.Value)
    requires d.Pair? && IsView(g, names, d, t)
    ensures t.Pair? && IsView(g, names, d.car, t.car) && IsView(g, names, d.cdr, t.cdr)
    ensures d.cdr.Nil? ==> t.cdr == Terms.Nil
  {
    var v :| Builds(g, names, v, d, {}) && t == Term(g, names, v, d);
    assert Builds(g, names, g[v.addr].car, d.car, {}) && Builds(g, names, g[v.addr].cdr, d.cdr, {});
  }

  lemma ViewOfList2(g: ObjectMap, names: Names, i: nat, a: Text.Datum, t: Terms.Value)
    requires Symbols.Unique(names) && i < |names| && IsView(g, names, List2(Spelled(names, i), a), t)
    ensures t.Pair? && t.car == Terms.Sym(i) && t.cdr.Pair? && t.cdr.cdr == Terms.Nil
    ensures IsView(g, names, a, t.cdr.car)
  {
    ViewOfPair(g, names, List2(Spelled(names, i), a), t);
    ViewOfPair(g, names, List1(a), t.cdr);
    ViewOfSymbol(g, names, i, t.car);
  }

  lemma ViewOfList3(g: ObjectMap, names: Names, i: nat, a: Text.Datum, b: Text.Datum, t: Terms.Value)
    requires Symbols.Unique(names) && i < |names| && IsView(g, names, List3(Spelled(names, i), a, b), t)
    ensures t.Pair? && t.car == Terms.Sym(i) && t.cdr.Pair? && t.cdr.cdr.Pair? && t.cdr.cdr.cdr == Terms.Nil
    ensures IsView(g, names, a, t.cdr.car) && IsView(g, names, b, t.cdr.cdr.car)
  {
    ViewOfPair(g, names, List3(Spelled(names, i), a, b), t);
    ViewOfPair(g, names, List2(a, b), t.cdr);
    ViewOfPair(g, names, List1(b), t.cdr.cdr);
    ViewOfSymbol(g, names, i, t.car);
  }

  lemma ViewOfNumber(g: ObjectMap, names: Names, k: Basics.Fixnum, t: Terms.Value)
    requires IsView(g, names, Text.Fix(k), t)
    ensures t == Terms.Fix(k)
  {
  }

  lemma BodyIsSeen(g: ObjectMap, names: Names, x: TailCalls.Names, t: Terms.Value)
    requires Symbols.Unique(names) && Knows(names, x) && IsView(g, names, Body(names, x), t)
    ensures TailCalls.IsBodyForm(t, x)
  {
    var n := Spelled(names, x.n);
    var test := List3(Spelled(names, x.eq), n, Text.Fix(0));
    var finish := List2(Spelled(names, Semantics.QUOTE), Spelled(names, x.done));
    var decrement := List3(Spelled(names, x.minus), n, Text.Fix(1));
    var again := List2(Spelled(names, x.loop), decrement);
    ViewOfPair(g, names, Body(names, x), t);
    ViewOfPair(g, names, List3(test, finish, again), t.cdr);
    ViewOfPair(g, names, List2(finish, again), t.cdr.cdr);
    ViewOfPair(g, names, List1(again), t.cdr.cdr.cdr);
    ViewOfSymbol(g, names, Semantics.IF, t.car);
    TestIsSeen(g, names, x, t.cdr.car);
    ViewOfList2(g, names, Semantics.QUOTE, Spelled(names, x.done), t.cdr.cdr.car);
    ViewOfSymbol(g, names, x.done, t.cdr.cdr.car.cdr.car);
    AgainIsSeen(g, names, x, t.cdr.cdr.cdr.car);
  }

  lemma TestIsSeen(g: ObjectMap, names: Names, x: TailCalls.Names, t: Terms.Value)
    requires Symbols.Unique(names) && Knows(names, x)
    requires IsView(g, names, List3(Spelled(names, x.eq), Spelled(names, x.n), Text.Fix(0)), t)
    ensures TailCalls.IsTest(t, x)
  {
    ViewOfList3(g, names, x.eq, Spelled(names, x.n), Text.Fix(0), t);
    ViewOfSymbol(g, names, x.n, t.cdr.car);
    ViewOfNumber(g, names, 0, t.cdr.cdr.car);
  }

  lemma AgainIsSeen(g: ObjectMap, names: Names, x: TailCalls.Names, t: Terms.Value)
    requires Symbols.Unique(names) && Knows(names, x)
    requires IsView(g, names, List2(Spelled(names, x.loop),
                                    List3(Spelled(names, x.minus), Spelled(names, x.n), Text.Fix(1))), t)
    ensures TailCalls.IsAgain(t, x)
  {
    ViewOfList2(g, names, x.loop, List3(Spelled(names, x.minus), Spelled(names, x.n), Text.Fix(1)), t);
    ViewOfList3(g, names, x.minus, Spelled(names, x.n), Text.Fix(1), t.cdr.car);
    ViewOfSymbol(g, names, x.n, t.cdr.car.cdr.car);
    ViewOfNumber(g, names, 1, t.cdr.car.cdr.cdr.car);
  }

  lemma DefinitionIsSeen(g: ObjectMap, names: Names, x: TailCalls.Names, t: Terms.Value)
    requires Symbols.Unique(names) && Knows(names, x) && IsView(g, names, Definition(names, x), t)
    ensures TailCalls.IsDefinition(t, x)
  {
    ViewOfList3(g, names, Semantics.DEFINE, List2(Spelled(names, x.loop), Spelled(names, x.n)), Body(names, x), t);
    ViewOfList2(g, names, x.loop, Spelled(names, x.n), t.cdr.car);
    ViewOfSymbol(g, names, x.n, t.cdr.car.cdr.car);
    BodyIsSeen(g, names, x, t.cdr.cdr.car);
  }

  /**
   * The program stored anywhere in a heap, as a reader leaves it: evaluating the
   * definition and then the call under depth limit 3 gives the symbol done, for
   * every non-negative fixnum.
   */
  lemma StoredProgramFinishes(g: ObjectMap, names: Names, x: TailCalls.Names, k: Basics.Fixnum, v: Value, w: Value,
                              top: nat, s: Prims.Store)
    returns (n: nat, s1: Prims.Store, s2: Prims.Store)
    requires Symbols.Unique(names) && Knows(names, x) && x.Distinct() && k >= 0
    requires Readable(Definition(names, x)) && Builds(g, names, v, Definition(names, x), {})
    requires Readable(Call(names, x, k)) && Builds(g, names, w, Call(names, x, k), {})
    requires TailCalls.HasPrims(x, top, s)
    ensures Semantics.Eval(n, Semantics.Finite(3), Term(g, names, v, Definition(names, x)), top, s) ==
            Prims.Done(Terms.Undef, s1)
    ensures Semantics.Eval(n, Semantics.Finite(3), Term(g, names, w, Call(names, x, k)), top, s1) ==
            Prims.Done(Terms.Sym(x.done), s2)
  {
    var definition, call := Term(g, names, v, Definition(names, x)), Term(g, names, w, Call(names, x, k));
    DefinitionIsSeen(g, names, x, definition);
    ViewOfList2(g, names, x.loop, Text.Fix(k), call);
    ViewOfNumber(g, names, k, call.cdr.car);
    n, s1, s2 := TailCalls.ProgramFinishesAtDepthThree(x, definition, call, top, k, s);
  }
}
