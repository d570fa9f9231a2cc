/**
 * The evaluator's values as views of heap values: a pair or string carries its
 * address as identity.  Identity is then sameness of tagged words, and `equal?`
 * is sameness of trees.
 */
module Representation {
  import opened Graph
  import opened Unfolding
  import opened RoundTrip
  import Equality
  import Symbols
  import Terms
  import Text

  // The evaluator's view of a value that unfolds to the readable tree `d`.
  ghost function Term(g: ObjectMap, names: Names, v: Value, d: Text.Datum): Terms.Value
    requires Builds(g, names, v, d, {}) && Readable(d)
    decreases d
  {
    match d
    case Nil => Terms.Nil
    case True => Terms.True
    case False => Terms.False
    case Fix(n) => Terms.Fix(n)
    case Sym(_) => Terms.Sym(v.idx)
    case Str(bytes) => Terms.Str(v.addr, bytes)
    case Pair(car, cdr) =>
      Terms.Pair(v.addr, Term(g, names, g[v.addr].car, car), Term(g, names, g[v.addr].cdr, cdr))
  }

  /** In one heap, the views of two values are identical exactly when the tagged words are. */
  lemma {:induction false} IdentityIsSameWord(g: ObjectMap, names: Names, v: Value, d: Text.Datum, w: Value,
                                              d': Text.Datum)
    requires Builds(g, names, v, d, {}) && Readable(d) && Builds(g, names, w, d', {}) && Readable(d')
    ensures Equality.Eq(Term(g, names, v, d), Term(g, names, w, d')) <==> v == w
  {
    if v == w {
      TreeIsUnique(g, names, v, d, d');
    }
  }

  /** `equal?` holds between values, in the same heap or after later changes, exactly when their trees are the same. */
  lemma {:induction false} EqualIsSameTree(g: ObjectMap, names: Names, v: Value, d: Text.Datum,
                                           g': ObjectMap, names': Names, w: Value, d': Text.Datum)
    requires Builds(g, names, v, d, {}) && Readable(d) && Builds(g', names', w, d', {}) && Readable(d')
    requires names <= names' && Symbols.Unique(names')
    ensures Equality.StructEqual(Term(g, names, v, d), Term(g', names', w, d')) <==> d == d'
    decreases d
  {
    if d.Pair? && d'.Pair? {
      EqualIsSameTree(g, names, g[v.addr].car, d.car, g', names', g'[w.addr].car, d'.car);
      EqualIsSameTree(g, names, g[v.addr].cdr, d.cdr, g', names', g'[w.addr].cdr, d'.cdr);
    } else if d.Sym? && d'.Sym? {
      assert names'[v.idx] == d.name;
    }
  }
}
