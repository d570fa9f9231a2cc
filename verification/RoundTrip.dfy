/**
 * Printed text read back: exactly which data survive the trip.
 */
module RoundTrip {
  import opened Basics
  import opened Text
  import opened Grammar

  // A name the reader takes back as a symbol.
  predicate ReadableSymbol(name: Bytes) {
    && name != []
    && (forall i | 0 <= i < |name| :: !IsTerminator(name[i]))
    && name[0] != HASH
    && !IsDigit(name[0])
    && !((name[0] == PLUS || name[0] == MINUS) && |name| > 1 && IsDigit(name[1]))
  }

  // Every leaf has a read syntax.
  predicate Readable(d: Datum) {
    match d
    case Sym(name) => ReadableSymbol(name)
    case Opaque(_) => false
    case Pair(car, cdr) => Readable(car) && Readable(cdr)
    case _ => true
  }

  // The symbol named "." is nowhere an element of a list (it may end an improper one).
  predicate NoDotElement(d: Datum) {
    d.Pair? ==> d.car != Sym([DOT]) && NoDotElement(d.car) && NoDotElement(d.cdr)
  }

  // How many parentheses the printed form nests; the empty list has its own pair.
  function Nesting(d: Datum): (n: nat)
    decreases d, 0
  {
    if d.Nil? then 1
    else if d.Pair? then 1 + Max(Nesting(d.car), TailNesting(d.cdr))
    else 0
  }

  function TailNesting(d: Datum): (n: nat)
    decreases d, 1
  {
    if d.Nil? then 0
    else if d.Pair? then Max(Nesting(d.car), TailNesting(d.cdr))
    else 0
  }

  // ---------------------------------------------------------------- strings

  lemma EscapedByteReads(c: Byte, u: Bytes, bytes: Bytes)
    ensures ReadString(EscapeByte(c) + u, bytes) == ReadString(u, bytes + [c])
  {
    var t := EscapeByte(c) + u;
    assert t[|EscapeByte(c)|..] == u;
    if NeedsEscape(c) {
      assert t[1..][1..] == t[2..];
      if |EscapeByte(c)| == 4 {
        assert t[1..][3..] == t[4..];
        assert HexValue(HexDigit(c / 16)) == c / 16 && HexValue(HexDigit(c % 16)) == c % 16;
      }
      assert ReadChar(t) == Scanned(c, u);
    }
  }

  /** Escaped text reads back as the bytes it was made from, whatever they are. */
  lemma {:induction false} EscapedTextReads(bytes: Bytes, u: Bytes, before: Bytes)
    ensures ReadString(Escape(bytes) + u, before) == ReadString(u, before + bytes)
    decreases |bytes|
  {
    if bytes == [] {
      assert Escape(bytes) + u == u && before + bytes == before;
    } else {
      var prefix, c := bytes[..|bytes| - 1], bytes[|bytes| - 1];
      EscapedTextReads(prefix, EscapeByte(c) + u, before);
      EscapedByteReads(c, u, before + prefix);
      Regroup(Escape(prefix), EscapeByte(c), u);
      Regroup(before, prefix, [c]);
      assert bytes == prefix + [c];
    }
  }

  lemma StringReads(bytes: Bytes, rest: Bytes)
    ensures ReadAtom(QuotedString(bytes) + rest) == Read(Str(bytes), rest)
  {
    var t := QuotedString(bytes) + rest;
    assert t[1..] == Escape(bytes) + ([DOUBLE_QUOTE] + rest);
    EscapedTextReads(bytes, [DOUBLE_QUOTE] + rest, []);
    assert ([DOUBLE_QUOTE] + rest)[1..] == rest;
    assert [] + bytes == bytes;
  }

  // ---------------------------------------------------------------- numbers

  lemma {:induction false} DecimalGrows(digits: Bytes, i: nat)
    requires AllDigits(digits) && i <= |digits|
    ensures 0 <= DecimalValue(digits[..i]) <= DecimalValue(digits)
    decreases |digits|
  {
    if i == |digits| {
      assert digits[..i] == digits;
      if i > 0 {
        DecimalGrows(digits[..i - 1], i - 1);
      }
    } else {
      var prefix := digits[..|digits| - 1];
      DecimalGrows(prefix, i);
      assert prefix[..i] == digits[..i];
    }
  }

  // Scanning from the i-th digit on.
  lemma {:induction false} ScanIsExact(digits: Bytes, i: nat, u: Bytes)
    requires AllDigits(digits) && i <= |digits| && (u == [] || !IsDigit(u[0]))
    requires DecimalValue(digits[..i]) <= INT64_MAX
    ensures ScanDigits(digits[i..] + u, DecimalValue(digits[..i]))
         == if DecimalValue(digits) <= INT64_MAX then Scanned(DecimalValue(digits), u) else Bad(Overflow)
    decreases |digits| - i
  {
    var t := digits[i..] + u;
    DecimalGrows(digits, i);
    if i == |digits| {
      assert digits[..i] == digits && t == u;
    } else {
      assert digits[..i + 1][..i] == digits[..i];
      assert t[1..] == digits[i + 1..] + u;
      DecimalGrows(digits, i + 1);
      if DecimalValue(digits[..i + 1]) <= INT64_MAX {
        ScanIsExact(digits, i + 1, u);
      }
    }
  }

  /** An integer literal denotes its decimal value exactly, or is an error: both classified completely. */
  lemma NumberIsExact(digits: Bytes, u: Bytes, negative: bool)
    requires digits != [] && AllDigits(digits) && (u == [] || !IsDigit(u[0]))
    ensures var n := if negative then -DecimalValue(digits) else DecimalValue(digits);
            ReadNumber(digits + u, negative) ==
            if DecimalValue(digits) > INT64_MAX then Failed(Overflow)
            else if !Terminated(u) then Failed(ReadSyntax)
            else if FitsFixnum(n) then Read(Fix(n), u)
            else Failed(Overflow)
  {
    assert digits[..0] == [] && digits[0..] == digits;
    ScanIsExact(digits, 0, u);
  }

  lemma DecimalReads(n: Fixnum, rest: Bytes)
    requires Terminated(rest)
    ensures ReadAtom(Decimal(n) + rest) == Read(Fix(n), rest)
  {
    var magnitude: int := if n < 0 then 0 - n else n;
    var ds := Digits(magnitude);
    NumberIsExact(ds, rest, n < 0);
    if n < 0 {
      assert (Decimal(n) + rest)[1..] == ds + rest;
    }
  }

  // ---------------------------------------------------------------- atoms

  lemma {:induction false} TokenStops(name: Bytes, rest: Bytes)
    requires (forall i | 0 <= i < |name| :: !IsTerminator(name[i])) && Terminated(rest)
    ensures TokenLength(name + rest) == |name|
  {
    var t, n := name + rest, TokenLength(name + rest);
    assert n < |t| ==> t[n..][0] == t[n];
    assert |name| < |t| ==> t[|name|] == rest[0];
  }

  lemma SymbolReads(name: Bytes, rest: Bytes)
    requires ReadableSymbol(name) && Terminated(rest)
    ensures ReadAtom(name + rest) == Read(Sym(name), rest)
  {
    var t := name + rest;
    TokenStops(name, rest);
    assert t[..|name|] == name && t[|name|..] == rest;
    if |name| == 1 && |t| > 1 {
      assert t[1] == rest[0];
    }
  }

  // A datum the reader handles as one token.
  predicate Leaf(d: Datum) {
    Readable(d) && !d.Nil? && !d.Pair?
  }

  predicate StartsForm(c: Byte) {
    !IsSpace(c) && c != SEMICOLON && c != RPAREN && c != QUOTE_MARK
  }

  // The text of a readable datum starts with a byte that starts a form.
  lemma FirstByte(d: Datum)
    requires Readable(d)
    ensures Write(d) != [] && StartsForm(Write(d)[0])
    ensures Leaf(d) ==> Write(d)[0] != LPAREN
  {
    if d.Fix? {
      var magnitude: int := if d.n < 0 then 0 - d.n else d.n;
      assert AllDigits(Digits(magnitude));
    }
  }

  lemma LeafReads(d: Datum, rest: Bytes, depth: nat, max: nat)
    requires Leaf(d) && Terminated(rest)
    ensures ReadForm(Write(d) + rest, depth, max) == Read(d, rest)
  {
    var t := Write(d) + rest;
    FirstByte(d);
    assert t[0] == Write(d)[0];
    match d
    case True => assert t[1..][1..] == rest;
    case False => assert t[1..][1..] == rest;
    case Fix(n) => DecimalReads(n, rest);
    case Sym(name) => SymbolReads(name, rest);
    case Str(bytes) => StringReads(bytes, rest);
  }

  // ---------------------------------------------------------------- trees

  // What reading back the text of `d` may give: exactly `d` when no list has a
  // "." element, else an error or some datum without one.
  predicate Faithful(r: Reading, d: Datum, rest: Bytes, fits: bool) {
    if NoDotElement(d) then r == if fits then Read(d, rest) else Failed(ReadDepth)
    else r.Failed? || (r.Read? && r.rest == rest && NoDotElement(r.d))
  }

  // An element that is not "." is never taken for the dot of a dotted pair.
  lemma ElementIsNoDot(d: Datum, u: Bytes)
    requires Readable(d) && d != Sym([DOT])
    ensures Write(d) != []
    ensures var t := Write(d) + u; !(t[0] == DOT && |t| > 1 && IsTerminator(t[1]))
  {
    FirstByte(d);
    if d.Fix? && d.n < 0 {
      assert Write(d)[0] == MINUS;
    } else if d.Fix? {
      assert IsDigit(Write(d)[0]);
    } else if d.Sym? && |d.name| == 1 {
      assert d.name == [d.name[0]];
    }
  }

  // ---- one step of the grammar at a time

  lemma OpenParenthesis(v: Bytes, depth: nat, max: nat)
    ensures ReadForm([LPAREN] + v, depth, max)
         == if depth >= max then Failed(ReadDepth) else ReadItems(v, true, depth + 1, max)
  {
    assert ([LPAREN] + v)[1..] == v;
  }

  lemma CloseParenthesis(rest: Bytes, first: bool, depth: nat, max: nat)
    ensures ReadItems([RPAREN] + rest, first, depth, max) == Read(Nil, rest)
  {
    assert ([RPAREN] + rest)[1..] == rest;
  }

  lemma SpaceBeforeForm(v: Bytes, depth: nat, max: nat)
    ensures ReadForm([SPACE] + v, depth, max) == ReadForm(v, depth, max)
  {
    assert ([SPACE] + v)[1..] == v;
  }

  lemma SpaceBeforeItems(v: Bytes, first: bool, depth: nat, max: nat)
    ensures ReadItems([SPACE] + v, first, depth, max) == ReadItems(v, first, depth, max)
  {
    assert ([SPACE] + v)[1..] == v;
    SpaceBeforeForm(v, depth, max);
  }

  lemma DotAmongItems(v: Bytes, first: bool, depth: nat, max: nat)
    requires v != [] && IsTerminator(v[0])
    ensures ReadItems([DOT] + v, first, depth, max) == if first then Failed(ReadSyntax) else ReadDotted(v, depth, max)
  {
    assert ([DOT] + v)[1..] == v;
  }

  function WithFirst(d: Datum, others: Reading): (r: Reading) {
    if others.Read? then Read(Pair(d, others.d), others.rest) else others
  }

  lemma ElementAmongItems(d: Datum, u: Bytes, first: bool, depth: nat, max: nat)
    requires Readable(d) && d != Sym([DOT])
    ensures !ReadForm(Write(d) + u, depth, max).AtEnd?
    ensures var element := ReadForm(Write(d) + u, depth, max);
            ReadItems(Write(d) + u, first, depth, max) ==
            if element.Read? then WithFirst(element.d, ReadItems(element.rest, false, depth, max)) else element
  {
    FirstByte(d);
    ElementIsNoDot(d, u);
    assert SkipSpace(Write(d) + u) == Write(d) + u;
  }

  // ---- the text of trees, regrouped

  lemma NilText(rest: Bytes)
    ensures Write(Nil) + rest == [LPAREN] + ([RPAREN] + rest)
  {
  }

  lemma PairText(d: Datum, rest: Bytes)
    requires d.Pair?
    ensures Write(d) + rest == [LPAREN] + (Write(d.car) + (RenderTail(d.cdr, true) + rest))
  {
    assert Write(d) == [LPAREN] + Write(d.car) + RenderTail(d.cdr, true);
  }

  lemma TailText(d: Datum, rest: Bytes)
    requires d.Pair?
    ensures RenderTail(d, true) + rest == [SPACE] + (Write(d.car) + (RenderTail(d.cdr, true) + rest))
  {
    assert RenderTail(d, true) == [SPACE] + Write(d.car) + RenderTail(d.cdr, true);
  }

  lemma EndText(d: Datum, rest: Bytes)
    requires !d.Nil? && !d.Pair?
    ensures RenderTail(d, true) + rest == [SPACE] + ([DOT] + ([SPACE] + (Write(d) + ([RPAREN] + rest))))
  {
    assert RenderTail(d, true) == [SPACE, DOT, SPACE] + Write(d) + [RPAREN];
  }

  // ---- trees

  predicate IsDot(r: Reading) {
    r.Read? && r.d == Sym([DOT])
  }

  lemma {:induction false} FormReads(d: Datum, rest: Bytes, depth: nat, max: nat)
    requires Readable(d) && Terminated(rest) && depth <= max
    ensures Faithful(ReadForm(Write(d) + rest, depth, max), d, rest, depth + Nesting(d) <= max)
    ensures d != Sym([DOT]) ==> !IsDot(ReadForm(Write(d) + rest, depth, max))
    decreases d, 1
  {
    if d.Nil? {
      NilText(rest);
      OpenParenthesis([RPAREN] + rest, depth, max);
      CloseParenthesis(rest, true, depth + 1, max);
    } else if d.Pair? {
      var v := Write(d.car) + (RenderTail(d.cdr, true) + rest);
      PairText(d, rest);
      OpenParenthesis(v, depth, max);
      if depth < max {
        ItemsRead(d, rest, true, depth + 1, max);
      }
    } else {
      LeafReads(d, rest, depth, max);
    }
  }

  // The items of a list from some element on.
  lemma {:induction false} ItemsRead(d: Datum, rest: Bytes, first: bool, depth: nat, max: nat)
    requires Readable(d) && d.Pair? && Terminated(rest) && depth <= max
    ensures Faithful(ReadItems(Write(d.car) + (RenderTail(d.cdr, true) + rest), first, depth, max), d, rest,
                     depth + TailNesting(d) <= max)
    ensures first ==> !IsDot(ReadItems(Write(d.car) + (RenderTail(d.cdr, true) + rest), first, depth, max))
    decreases d, 0
  {
    var u := RenderTail(d.cdr, true) + rest;
    if d.car == Sym([DOT]) {
      DotAmongItems(u, first, depth, max);
      DotBeforeTail(d.cdr, rest, depth, max);
    } else {
      ElementAmongItems(d.car, u, first, depth, max);
      FormReads(d.car, u, depth, max);
      TailReads(d.cdr, rest, depth, max);
    }
  }

  // The items of a list after its first element.
  lemma {:induction false} TailReads(d: Datum, rest: Bytes, depth: nat, max: nat)
    requires Readable(d) && Terminated(rest) && depth <= max
    ensures Faithful(ReadItems(RenderTail(d, true) + rest, false, depth, max), d, rest, depth + TailNesting(d) <= max)
    decreases d, 1
  {
    if d.Nil? {
      CloseParenthesis(rest, false, depth, max);
    } else if d.Pair? {
      var v := Write(d.car) + (RenderTail(d.cdr, true) + rest);
      TailText(d, rest);
      SpaceBeforeItems(v, false, depth, max);
      ItemsRead(d, rest, false, depth, max);
    } else {
      EndReads(d, rest, depth, max);
    }
  }

  lemma DottedForm(t: Bytes, depth: nat, max: nat)
    requires ReadForm(t, depth, max).Read?
    ensures ReadDotted(t, depth, max) == Closed(ReadForm(t, depth, max).d, ReadForm(t, depth, max).rest)
  {
  }

  // A list that ends in an atom.
  lemma EndReads(d: Datum, rest: Bytes, depth: nat, max: nat)
    requires Leaf(d)
    ensures ReadItems(RenderTail(d, true) + rest, false, depth, max) == Read(d, rest)
  {
    var v := Write(d) + ([RPAREN] + rest);
    EndText(d, rest);
    SpaceBeforeItems([DOT] + ([SPACE] + v), false, depth, max);
    DotAmongItems([SPACE] + v, false, depth, max);
    SpaceBeforeForm(v, depth, max);
    LeafReads(d, [RPAREN] + rest, depth, max);
    DottedForm([SPACE] + v, depth, max);
    assert ([RPAREN] + rest)[1..] == rest;
  }

  // A "." element turns what follows it into a dotted tail, or an error.
  lemma {:induction false} DotBeforeTail(d: Datum, rest: Bytes, depth: nat, max: nat)
    requires Readable(d) && Terminated(rest) && depth <= max
    ensures var r := ReadDotted(RenderTail(d, true) + rest, depth, max);
            r.Failed? || (r.Read? && r.rest == rest && NoDotElement(r.d))
    decreases d, 1
  {
    if d.Nil? {
      assert ReadForm(RenderTail(d, true) + rest, depth, max) == Failed(ReadSyntax);
    } else if d.Pair? {
      DotBeforeElement(d, rest, depth, max);
    } else {
      DotBeforeEnd(d, rest, depth, max);
    }
  }

  lemma {:induction false} DotBeforeElement(d: Datum, rest: Bytes, depth: nat, max: nat)
    requires Readable(d) && d.Pair? && Terminated(rest) && depth <= max
    ensures var r := ReadDotted(RenderTail(d, true) + rest, depth, max);
            r.Failed? || (r.Read? && r.rest == rest && NoDotElement(r.d))
    decreases d, 0
  {
    var u := RenderTail(d.cdr, true) + rest;
    TailText(d, rest);
    SpaceBeforeForm(Write(d.car) + u, depth, max);
    FormReads(d.car, u, depth, max);
    if ReadForm(RenderTail(d, true) + rest, depth, max).Read? {
      DottedForm(RenderTail(d, true) + rest, depth, max);
    }
    TailCloses(d.cdr, rest);
  }

  lemma DotBeforeEnd(d: Datum, rest: Bytes, depth: nat, max: nat)
    requires Leaf(d)
    ensures ReadDotted(RenderTail(d, true) + rest, depth, max) == Failed(ReadSyntax)
  {
    var w := Write(d) + ([RPAREN] + rest);
    EndText(d, rest);
    SpaceBeforeForm([DOT] + ([SPACE] + w), depth, max);
    LeafReads(Sym([DOT]), [SPACE] + w, depth, max);
    DottedForm(RenderTail(d, true) + rest, depth, max);
    FirstByte(d);
    SpaceIsSkipped(w);
  }

  lemma SpaceIsSkipped(w: Bytes)
    requires w != [] && StartsForm(w[0])
    ensures SkipSpace([SPACE] + w) == w
  {
    assert ([SPACE] + w)[1..] == w;
  }

  // Only the empty tail starts with the closing parenthesis.
  lemma TailCloses(d: Datum, rest: Bytes)
    requires Readable(d)
    ensures var u := SkipSpace(RenderTail(d, true) + rest);
            u != [] && (u[0] == RPAREN <==> d.Nil?) && (d.Nil? ==> u[1..] == rest)
  {
    if d.Nil? {
      assert ([RPAREN] + rest)[1..] == rest;
    } else if d.Pair? {
      TailText(d, rest);
      FirstByte(d.car);
      SpaceIsSkipped(Write(d.car) + (RenderTail(d.cdr, true) + rest));
    } else {
      EndText(d, rest);
      SpaceIsSkipped([DOT] + ([SPACE] + (Write(d) + ([RPAREN] + rest))));
    }
  }

  // ---------------------------------------------------------------- what the reader can yield

  lemma AtomIsReadable(t: Bytes)
    requires t != [] && (IsTerminator(t[0]) ==> t[0] == DOUBLE_QUOTE)
    ensures ReadAtom(t).Read? ==> Readable(ReadAtom(t).d)
  {
    var name := t[..TokenLength(t)];
    assert t[0] != DOUBLE_QUOTE ==> name != [] && name[0] == t[0];
    assert |name| > 1 ==> name[1] == t[1];
    assert |name| == 1 && |t| > 1 ==> IsTerminator(t[1..][0]);
  }

  /** Whatever the input, the leaves of what the reader yields have a read syntax. */
  lemma {:induction false} FormIsReadable(t: Bytes, depth: nat, max: nat)
    ensures ReadForm(t, depth, max).Read? ==> Readable(ReadForm(t, depth, max).d)
    decreases |t|, 0
  {
    var u := SkipSpace(t);
    if u != [] {
      if u[0] == LPAREN {
        if depth < max {
          ItemsAreReadable(u[1..], true, depth + 1, max);
        }
      } else if u[0] == QUOTE_MARK {
        FormIsReadable(u[1..], depth, max);
        assert ReadableSymbol(QUOTE_NAME);
      } else if u[0] != RPAREN {
        AtomIsReadable(u);
      }
    }
  }

  lemma {:induction false} ItemsAreReadable(t: Bytes, first: bool, depth: nat, max: nat)
    ensures ReadItems(t, first, depth, max).Read? ==> Readable(ReadItems(t, first, depth, max).d)
    decreases |t|, 1
  {
    var u := SkipSpace(t);
    if u != [] && u[0] != RPAREN {
      if u[0] == DOT && |u| > 1 && IsTerminator(u[1]) {
        FormIsReadable(u[1..], depth, max);
      } else {
        FormIsReadable(t, depth, max);
        var element := ReadForm(t, depth, max);
        if element.Read? {
          ItemsAreReadable(element.rest, false, depth, max);
        }
      }
    }
  }

  // ---------------------------------------------------------------- main results

  /**
   * Printed in write style and followed by anything that ends a token, a datum
   * reads back as itself, leaving exactly what followed, if and only if its
   * leaves have a read syntax, no list has the symbol "." as an element, and
   * its parentheses fit the depth that is left.
   */
  lemma WriteThenRead(d: Datum, rest: Bytes, depth: nat, max: nat)
    requires Terminated(rest) && depth <= max
    ensures ReadForm(Write(d) + rest, depth, max) == Read(d, rest)
       <==> Readable(d) && NoDotElement(d) && depth + Nesting(d) <= max
  {
    if Readable(d) {
      FormReads(d, rest, depth, max);
    } else {
      FormIsReadable(Write(d) + rest, depth, max);
    }
  }

  /** When only the depth is lacking, that is the error reported. */
  lemma TooDeepToRead(d: Datum, rest: Bytes, depth: nat, max: nat)
    requires Terminated(rest) && Readable(d) && NoDotElement(d)
    requires depth <= max < depth + Nesting(d)
    ensures ReadForm(Write(d) + rest, depth, max) == Failed(ReadDepth)
  {
    FormReads(d, rest, depth, max);
  }

  /** A name is printed bare; exactly the readable ones come back as the same symbol. */
  lemma SymbolsRead(name: Bytes, rest: Bytes, depth: nat, max: nat)
    requires Terminated(rest) && depth <= max
    ensures ReadForm(name + rest, depth, max) == Read(Sym(name), rest) <==> ReadableSymbol(name)
  {
    WriteThenRead(Sym(name), rest, depth, max);
    assert Write(Sym(name)) == name;
  }

  // The tail of a list whose last element is ".".
  lemma DotTailText(d: Datum)
    requires d.Pair? && d.car == Sym([DOT]) && d.cdr.Nil?
    ensures RenderTail(d, true) == [SPACE] + ([DOT] + [RPAREN])
  {
    assert Write(d.car) == [DOT];
  }

  lemma DotEndsItems(d: Datum, max: nat)
    requires d.Pair? && d.car == Sym([DOT]) && d.cdr.Nil?
    ensures ReadItems(RenderTail(d, true), false, 1, max) == Failed(ReadSyntax)
  {
    DotTailText(d);
    SpaceBeforeItems([DOT] + [RPAREN], false, 1, max);
    DotAmongItems([RPAREN], false, 1, max);
  }

  lemma PrintedDotFails(d: Datum, max: nat)
    requires max >= 1 && d.Pair? && d.car.Sym? && Readable(d.car) && d.car != Sym([DOT])
    requires d.cdr.Pair? && d.cdr.car == Sym([DOT]) && d.cdr.cdr.Nil?
    ensures ReadForm(Write(d), 0, max) == Failed(ReadSyntax)
  {
    var u := RenderTail(d.cdr, true);
    PairText(d, []);
    assert Write(d) + [] == Write(d) && u + [] == u;
    OpenParenthesis(Write(d.car) + u, 0, max);
    ElementAmongItems(d.car, u, true, 1, max);
    LeafReads(d.car, u, 1, max);
    DotEndsItems(d.cdr, max);
  }

  /** The quotation of "." reads, but its printed form does not. */
  lemma DotDoesNotSurvive(max: nat)
    requires max >= 1
    ensures ReadForm([QUOTE_MARK, DOT], 0, max) == Read(Quoted(Sym([DOT])), [])
    ensures ReadForm(Write(Quoted(Sym([DOT]))), 0, max) == Failed(ReadSyntax)
  {
    LeafReads(Sym([DOT]), [], 0, max);
    assert [QUOTE_MARK, DOT][1..] == [DOT] && Write(Sym([DOT])) + [] == [DOT];
    PrintedDotFails(Quoted(Sym([DOT])), max);
  }

  /**
   * A quoted datum costs no depth to read, but its printed form does: it reads
   * back if and only if there is depth to spare and the datum is not ".".
   */
  lemma QuotationReadsBack(d: Datum, max: nat)
    requires Readable(d) && NoDotElement(d) && Nesting(d) <= max
    ensures ReadForm([QUOTE_MARK] + Write(d), 0, max) == Read(Quoted(d), [])
    ensures ReadForm(Write(Quoted(d)), 0, max) == Read(Quoted(d), []) <==> Nesting(d) < max && d != Sym([DOT])
  {
    assert ([QUOTE_MARK] + Write(d))[1..] == Write(d) + [];
    WriteThenRead(d, [], 0, max);
    QuotedShape(d);
    assert Write(Quoted(d)) + [] == Write(Quoted(d));
    WriteThenRead(Quoted(d), [], 0, max);
  }

  lemma QuotedShape(d: Datum)
    requires Readable(d) && NoDotElement(d)
    ensures Readable(Quoted(d)) && Nesting(Quoted(d)) == 1 + Nesting(d)
    ensures NoDotElement(Quoted(d)) <==> d != Sym([DOT])
  {
    var tail := Pair(d, Nil);
    assert ReadableSymbol(QUOTE_NAME);
    assert TailNesting(tail) == Nesting(d);
    assert NoDotElement(tail) <==> d != Sym([DOT]);
  }

  // ---------------------------------------------------------------- whole inputs

  datatype Program = Forms(forms: seq<Datum>) | Stopped(forms: seq<Datum>, st: Error)

  // The forms of an input, in order, up to its end or the first error.
  function ReadAll(t: Bytes, max: nat): (p: Program)
    decreases |t|
  {
    var r := ReadForm(t, 0, max);
    if r.AtEnd? then Forms([])
    else if r.Failed? then Stopped([], r.st)
    else
      AfterForms([r.d], ReadAll(r.rest, max))
  }

  // A program continued: `forms` first.
  function AfterForms(forms: seq<Datum>, p: Program): Program {
    p.(forms := forms + p.forms)
  }

  lemma FormsAdded(forms: seq<Datum>, d: Datum, p: Program)
    ensures AfterForms(forms, AfterForms([d], p)) == AfterForms(forms + [d], p)
  {
    Regroup(forms, [d], p.forms);
  }

  lemma FormsStart(p: Program)
    ensures AfterForms([], p) == p
  {
    assert [] + p.forms == p.forms;
  }

  lemma FormsEnd(forms: seq<Datum>, st: Error)
    ensures AfterForms(forms, Forms([])) == Forms(forms)
    ensures AfterForms(forms, Stopped([], st)) == Stopped(forms, st)
  {
    assert forms + [] == forms;
  }

  // One form per line.
  function WriteAll(ds: seq<Datum>): (t: Bytes) {
    if ds == [] then [] else Write(ds[0]) + [NEWLINE] + WriteAll(ds[1..])
  }

  /** A sequence of printed forms reads back as that sequence. */
  lemma {:induction false} WriteAllThenReadAll(ds: seq<Datum>, max: nat)
    requires forall d | d in ds :: Readable(d) && NoDotElement(d) && Nesting(d) <= max
    ensures ReadAll(WriteAll(ds), max) == Forms(ds)
    ensures ReadAll([NEWLINE] + WriteAll(ds), max) == Forms(ds)
  {
    NewlineBeforeForms(WriteAll(ds), max);
    if ds != [] {
      WriteAllThenReadAll(ds[1..], max);
      FirstWritten(ds[0], ds[1..], max);
      assert ds == [ds[0]] + ds[1..];
    }
  }

  lemma FirstWritten(d: Datum, ds: seq<Datum>, max: nat)
    requires Readable(d) && NoDotElement(d) && Nesting(d) <= max
    requires ReadAll([NEWLINE] + WriteAll(ds), max) == Forms(ds)
    ensures ReadAll(WriteAll([d] + ds), max) == Forms([d] + ds)
  {
    var rest := [NEWLINE] + WriteAll(ds);
    assert ([d] + ds)[1..] == ds;
    assert WriteAll([d] + ds) == Write(d) + rest;
    WriteThenRead(d, rest, 0, max);
  }

  lemma NewlineBeforeForms(t: Bytes, max: nat)
    ensures ReadAll([NEWLINE] + t, max) == ReadAll(t, max)
  {
    assert ([NEWLINE] + t)[1..] == t;
  }
}
