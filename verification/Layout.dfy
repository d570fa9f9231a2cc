/**
 * The external syntax, stated without the reader: which texts are written forms
 * of a datum, with white space and comments between the tokens.  The reader
 * accepts exactly these.
 */
module Layout {
  import opened Basics
  import opened Text
  import opened Grammar
  import RoundTrip

  // What may stand between two tokens.
  datatype Gap =
    | Nothing
    | Blank(c: Byte, more: Gap)
    | Comment(line: Bytes, more: Gap)

  // A written form: a token, 'form, or a parenthesised list.
  datatype Form =
    | Atom(gap: Gap, token: Bytes, d: Datum)
    | Quote(gap: Gap, form: Form)
    | List(gap: Gap, items: Items)

  // What follows an opening parenthesis, up to and with the closing one.
  datatype Items =
    | Close(gap: Gap)
    | Dotted(gap: Gap, form: Form, close: Gap)
    | Item(form: Form, more: Items)

  // ---------------------------------------------------------------- texts, each followed by `u`

  function GapThen(g: Gap, u: Bytes): Bytes {
    match g
    case Nothing => u
    case Blank(c, more) => [c] + GapThen(more, u)
    case Comment(line, more) => [59] + line + [10] + GapThen(more, u)
  }

  function FormThen(f: Form, u: Bytes): Bytes {
    match f
    case Atom(gap, token, _) => GapThen(gap, token + u)
    case Quote(gap, form) => GapThen(gap, [39] + FormThen(form, u))
    case List(gap, items) => GapThen(gap, [40] + ItemsThen(items, u))
  }

  function ItemsThen(i: Items, u: Bytes): Bytes {
    match i
    case Close(gap) => GapThen(gap, [41] + u)
    case Dotted(gap, form, close) => GapThen(gap, [46] + FormThen(form, GapThen(close, [41] + u)))
    case Item(form, more) => FormThen(form, ItemsThen(more, u))
  }

  // White space is a tab, newline, vertical tab, form feed, return or space; a
  // comment runs from a semicolon to the end of its line.
  predicate IsGap(g: Gap) {
    match g
    case Nothing => true
    case Blank(c, more) => (c == 32 || 9 <= c <= 13) && IsGap(more)
    case Comment(line, more) => 10 !in line && IsGap(more)
  }

  // ---------------------------------------------------------------- tokens

  // The hexadecimal digit `c` has the value `h`.
  predicate IsHex(c: Byte, h: int) {
    || (0 <= h < 10 && c == 48 + h)
    || (10 <= h < 16 && (c == 65 + (h - 10) || c == 97 + (h - 10)))
  }

  // Between its double quotes, `body` spells the string `bytes`.
  predicate SpellsString(body: Bytes, bytes: Bytes) {
    if bytes == [] then body == []
    else if body == [] then false
    else if body[0] != 92 then body[0] != 34 && bytes[0] == body[0] && SpellsString(body[1..], bytes[1..])
    else if |body| >= 2 && body[1] != 120 then
      SimpleEscape(body[1], bytes[0]) && SpellsString(body[2..], bytes[1..])
    else
      |body| >= 4 && IsHex(body[2], bytes[0] / 16) && IsHex(body[3], bytes[0] % 16)
      && SpellsString(body[4..], bytes[1..])
  }

  // Backslash, `c` stands for `b`: \n, \t, \r, \0, \" and \\.
  predicate SimpleEscape(c: Byte, b: Byte) {
    (c == 110 && b == 10) || (c == 116 && b == 9) || (c == 114 && b == 13) || (c == 48 && b == 0)
    || (c == 34 && b == 34) || (c == 92 && b == 92)
  }

  // An optional sign and decimal digits, of value `n`.
  predicate SpellsNumber(token: Bytes, n: int) {
    token != [] &&
    if token[0] == 45 || token[0] == 43 then
      |token| > 1 && AllDigits(token[1..])
      && n == if token[0] == 45 then -DecimalValue(token[1..]) else DecimalValue(token[1..])
    else AllDigits(token) && n == DecimalValue(token)
  }

  predicate Spells(token: Bytes, d: Datum) {
    match d
    case True => token == Ascii("#t")
    case False => token == Ascii("#f")
    case Fix(n) => SpellsNumber(token, n)
    case Sym(name) => token == name && RoundTrip.ReadableSymbol(name)
    case Str(bytes) =>
      && |token| >= 2 && token[0] == token[|token| - 1] == 34
      && SpellsString(token[1..|token| - 1], bytes)
    case _ => false
  }

  // ---------------------------------------------------------------- well-formed layouts

  // Only a string literal ends without looking at what follows it.
  predicate IsForm(f: Form, u: Bytes) {
    match f
    case Atom(gap, token, d) => IsGap(gap) && Spells(token, d) && (d.Str? || Terminated(u))
    case Quote(gap, form) => IsGap(gap) && IsForm(form, u)
    case List(gap, items) => IsGap(gap) && !items.Dotted? && IsItems(items, u)
  }

  // The symbol "." is no list element, and the dot of a dotted list ends as a token does.
  predicate IsItems(i: Items, u: Bytes) {
    match i
    case Close(gap) => IsGap(gap)
    case Dotted(gap, form, close) =>
      var v := GapThen(close, [41] + u);
      IsGap(gap) && IsGap(close) && IsForm(form, v) && FormThen(form, v) != [] && Terminated(FormThen(form, v))
    case Item(form, more) => !IsDot(form) && IsForm(form, ItemsThen(more, u)) && IsItems(more, u)
  }

  predicate IsDot(f: Form) {
    f.Atom? && f.d == Sym([46])
  }

  // What a form denotes; 'form is the list (quote form).
  function DatumOf(f: Form): Datum {
    match f
    case Atom(_, _, d) => d
    case Quote(_, form) => Pair(Sym(Ascii("quote")), Pair(DatumOf(form), Nil))
    case List(_, items) => ItemsDatum(items)
  }

  function ItemsDatum(i: Items): Datum {
    match i
    case Close(_) => Nil
    case Dotted(_, form, _) => DatumOf(form)
    case Item(form, more) => Pair(DatumOf(form), ItemsDatum(more))
  }

  // How many parentheses are open at the deepest place.
  function Levels(f: Form): nat {
    match f
    case Atom(_, _, _) => 0
    case Quote(_, form) => Levels(form)
    case List(_, items) => 1 + ItemsLevels(items)
  }

  function ItemsLevels(i: Items): nat {
    match i
    case Close(_) => 0
    case Dotted(_, form, _) => Levels(form)
    case Item(form, more) => Max(Levels(form), ItemsLevels(more))
  }

  // ---------------------------------------------------------------- character classes

  // The input is over, or goes on with white space, a parenthesis, a comment, a
  // string literal or a quotation mark.
  predicate EndsToken(u: Bytes) {
    u == [] || u[0] == 32 || 9 <= u[0] <= 13 || u[0] in Ascii("();\"'")
  }

  predicate IsNumeral(token: Bytes) {
    forall i | 0 <= i < |token| :: 48 <= token[i] <= 57
  }

  // What is left for symbols: no number, and no hash sign in front.
  predicate IsName(name: Bytes) {
    && name != [] && (forall i | 0 <= i < |name| :: !EndsToken([name[i]]))
    && name[0] != 35 && !IsNumeral([name[0]])
    && (name[0] == 43 || name[0] == 45 ==> |name| == 1 || !IsNumeral([name[1]]))
  }

  /** Where a token may end. */
  lemma TerminatorsEndTokens(u: Bytes)
    ensures Terminated(u) <==> EndsToken(u)
  {
    assert Ascii("();\"'") == [LPAREN, RPAREN, SEMICOLON, DOUBLE_QUOTE, QUOTE_MARK];
  }

  /** Which tokens are numerals, and which are symbols. */
  lemma NamesAreSymbols(token: Bytes)
    ensures AllDigits(token) <==> IsNumeral(token)
    ensures RoundTrip.ReadableSymbol(token) <==> IsName(token)
  {
    forall i | 0 <= i < |token| ensures EndsToken([token[i]]) <==> IsTerminator(token[i]) {
      TerminatorsEndTokens([token[i]]);
    }
    forall i | 0 <= i < |token| ensures IsNumeral([token[i]]) <==> IsDigit(token[i]) {
      assert [token[i]][0] == token[i];
    }
  }

  // ---------------------------------------------------------------- gaps

  lemma {:induction false} CommentIsSkipped(line: Bytes, u: Bytes)
    requires 10 !in line
    ensures SkipLine(line + [10] + u) == [10] + u
    ensures SkipLine(line) == []
  {
    if line == [] {
      assert line + [10] + u == [10] + u;
    } else {
      assert line == [line[0]] + line[1..];
      assert (line + [10] + u)[1..] == line[1..] + [10] + u;
      CommentIsSkipped(line[1..], u);
    }
  }

  lemma {:induction false} GapIsSkipped(g: Gap, u: Bytes)
    requires IsGap(g)
    ensures SkipSpace(GapThen(g, u)) == SkipSpace(u)
    decreases g
  {
    var t := GapThen(g, u);
    match g
    case Nothing =>
    case Blank(c, more) =>
      assert t[1..] == GapThen(more, u);
      GapIsSkipped(more, u);
    case Comment(line, more) =>
      var v := GapThen(more, u);
      assert t[1..] == line + [10] + v;
      CommentIsSkipped(line, v);
      assert ([10] + v)[1..] == v;
      GapIsSkipped(more, u);
  }

  /** Any white space and comments in front of a form change nothing. */
  lemma GapBeforeForm(g: Gap, u: Bytes, depth: nat, max: nat)
    requires IsGap(g)
    ensures ReadForm(GapThen(g, u), depth, max) == ReadForm(u, depth, max)
  {
    GapIsSkipped(g, u);
    SkipFirst(GapThen(g, u), depth, max);
    SkipFirst(u, depth, max);
  }

  lemma GapBeforeItems(g: Gap, u: Bytes, first: bool, depth: nat, max: nat)
    requires IsGap(g)
    ensures ReadItems(GapThen(g, u), first, depth, max) == ReadItems(u, first, depth, max)
  {
    GapIsSkipped(g, u);
    SkipFirst(GapThen(g, u), depth, max);
    SkipFirst(u, depth, max);
  }

  /** A comment ends with its line: what follows it reads as if it stood alone. */
  lemma CommentBeforeForm(line: Bytes, t: Bytes, depth: nat, max: nat)
    requires 10 !in line
    ensures ReadForm([59] + line + [10] + t, depth, max) == ReadForm(t, depth, max)
    ensures ReadForm([59] + line, depth, max) == AtEnd
  {
    GapBeforeForm(Comment(line, Nothing), t, depth, max);
    assert ([59] + line)[1..] == line;
    CommentIsSkipped(line, []);
  }

  /** One byte of white space before a form changes nothing. */
  lemma BlankBeforeForm(c: Byte, t: Bytes, depth: nat, max: nat)
    requires c == 32 || 9 <= c <= 13
    ensures ReadForm([c] + t, depth, max) == ReadForm(t, depth, max)
  {
    GapBeforeForm(Blank(c, Nothing), t, depth, max);
  }

  // ---------------------------------------------------------------- string literals

  lemma HexIsHexValue(c: Byte, h: int)
    requires 0 <= h < 16
    ensures IsHex(c, h) <==> HexValue(c) == h
  {
  }

  // A byte as two hexadecimal digits.
  lemma TwoDigits(h: int, l: int)
    requires 0 <= h < 16 && 0 <= l < 16
    ensures (h * 16 + l) / 16 == h && (h * 16 + l) % 16 == l
  {
  }

  // How many bytes of the body spell its first byte.
  function PieceLength(body: Bytes): (n: nat)
    ensures n >= 1
  {
    if body == [] || body[0] != 92 then 1 else if |body| >= 2 && body[1] == 120 then 4 else 2
  }

  // `t` starts with a piece that spells `b`.
  predicate SpellsByte(t: Bytes, b: Byte) {
    && |t| >= PieceLength(t)
    && if t[0] != 92 then t[0] != 34 && b == t[0]
       else if t[1] != 120 then SimpleEscape(t[1], b)
       else IsHex(t[2], b / 16) && IsHex(t[3], b % 16)
  }

  lemma StringByteByByte(body: Bytes, bytes: Bytes)
    requires bytes != []
    ensures SpellsString(body, bytes) <==>
      SpellsByte(body, bytes[0]) && SpellsString(body[PieceLength(body)..], bytes[1..])
  {
  }

  // What the reader takes for one byte of a string is what spells it.
  lemma CharIsPiece(t: Bytes, b: Byte, u: Bytes)
    ensures ReadChar(t) == Scanned(b, u) && t[0] != 34 <==>
      SpellsByte(t, b) && u == t[PieceLength(t)..]
  {
    if |t| >= 4 && t[0] == 92 && t[1] == 120 {
      HexIsHexValue(t[2], b / 16);
      HexIsHexValue(t[3], b % 16);
      if HexValue(t[2]) >= 0 && HexValue(t[3]) >= 0 {
        TwoDigits(HexValue(t[2]), HexValue(t[3]));
      }
    }
  }

  lemma PieceOfMore(body: Bytes, b: Byte, tail: Bytes)
    requires SpellsByte(body, b)
    ensures SpellsByte(body + tail, b) && PieceLength(body + tail) == PieceLength(body)
    ensures (body + tail)[PieceLength(body)..] == body[PieceLength(body)..] + tail
  {
  }

  lemma {:induction false} SpelledStringReads(body: Bytes, bytes: Bytes, before: Bytes, tail: Bytes)
    requires SpellsString(body, bytes) && tail != [] && tail[0] == 34
    ensures ReadString(body + tail, before) == Read(Str(before + bytes), tail[1..])
    decreases |bytes|
  {
    if bytes == [] {
      assert body + tail == tail && before + bytes == before;
    } else {
      var n, b := PieceLength(body), bytes[0];
      StringByteByByte(body, bytes);
      PieceOfMore(body, b, tail);
      CharIsPiece(body + tail, b, body[n..] + tail);
      SpelledStringReads(body[n..], bytes[1..], before + [b], tail);
      assert before + [b] + bytes[1..] == before + bytes;
    }
  }

  lemma PieceInFront(t: Bytes, b: Byte, body: Bytes, bytes: Bytes)
    requires SpellsByte(t, b) && SpellsString(body, bytes)
    ensures SpellsString(t[..PieceLength(t)] + body, [b] + bytes)
  {
    var n := PieceLength(t);
    var body' := t[..n] + body;
    assert body'[n..] == body && ([b] + bytes)[1..] == bytes;
    assert forall i | 0 <= i < n :: body'[i] == t[i];
    StringByteByByte(body', [b] + bytes);
  }

  lemma PieceOff(t: Bytes, u: Bytes, body: Bytes, rest: Bytes)
    requires |t| >= PieceLength(t) && u == t[PieceLength(t)..] && u == body + [34] + rest
    ensures t == t[..PieceLength(t)] + body + [34] + rest
  {
  }

  lemma {:induction false} ReadStringIsSpelled(t: Bytes, before: Bytes) returns (body: Bytes, bytes: Bytes)
    requires ReadString(t, before).Read?
    ensures var r := ReadString(t, before);
      t == body + [34] + r.rest && r.d == Str(before + bytes) && SpellsString(body, bytes)
    decreases |t|
  {
    body, bytes := [], [];
    var r := ReadString(t, before);
    if t[0] == 34 {
      assert t == [t[0]] + t[1..];
      assert before + bytes == before;
    } else {
      var c := ReadChar(t);
      CharIsPiece(t, c.value, c.rest);
      var body', bytes' := ReadStringIsSpelled(c.rest, before + [c.value]);
      body, bytes := t[..PieceLength(t)] + body', [c.value] + bytes';
      PieceInFront(t, c.value, body', bytes');
      PieceOff(t, c.rest, body', r.rest);
      assert before + [c.value] + bytes' == before + bytes;
    }
  }

  // ---------------------------------------------------------------- other tokens

  lemma Booleans()
    ensures Ascii("#t") == [HASH, LETTER_T] && Ascii("#f") == [HASH, LETTER_F]
  {
  }

  // A token starts a form, and only the symbol "." can be taken for a dot.
  lemma TokenStarts(token: Bytes, d: Datum, u: Bytes)
    requires Spells(token, d)
    ensures token != [] && RoundTrip.StartsForm(token[0]) && token[0] != LPAREN
    ensures var t := token + u; d != Sym([46]) ==> !(t[0] == DOT && |t| > 1 && IsTerminator(t[1]))
    ensures IsTerminator(token[0]) ==> token[0] == 34
  {
    Booleans();
    if d.Sym? && |token| == 1 {
      assert token == [token[0]];
    }
  }

  lemma NumberReads(token: Bytes, n: Fixnum, u: Bytes)
    requires SpellsNumber(token, n) && Terminated(u)
    ensures ReadAtom(token + u) == Read(Fix(n), u)
  {
    var t := token + u;
    if token[0] == MINUS || token[0] == PLUS {
      assert t[1..] == token[1..] + u;
      assert IsDigit(token[1]);
      RoundTrip.NumberIsExact(token[1..], u, token[0] == MINUS);
    } else {
      assert IsDigit(token[0]);
      RoundTrip.NumberIsExact(token, u, false);
    }
  }

  lemma TokenReads(token: Bytes, d: Datum, u: Bytes)
    requires Spells(token, d) && (d.Str? || Terminated(u))
    ensures token != [] && ReadAtom(token + u) == Read(d, u)
  {
    var t := token + u;
    Booleans();
    match d
    case True => assert t[1..][1..] == u;
    case False => assert t[1..][1..] == u;
    case Fix(n) => NumberReads(token, n, u);
    case Sym(name) => RoundTrip.SymbolReads(name, u);
    case Str(bytes) =>
      var body := token[1..|token| - 1];
      assert t[1..] == body + ([34] + u);
      SpelledStringReads(body, bytes, [], [34] + u);
      assert [] + bytes == bytes;
  }

  // How many digits `t` starts with.
  function LeadingDigits(t: Bytes): (k: nat)
    ensures k <= |t| && AllDigits(t[..k]) && (k < |t| ==> !IsDigit(t[k]))
  {
    if t == [] || !IsDigit(t[0]) then 0 else 1 + LeadingDigits(t[1..])
  }

  lemma ReadNumberIsSpelled(t: Bytes, negative: bool) returns (digits: Bytes)
    requires ReadNumber(t, negative).Read?
    ensures var r := ReadNumber(t, negative);
      && digits != [] && AllDigits(digits) && t == digits + r.rest && Terminated(r.rest)
      && r.d.Fix? && r.d.n == if negative then -DecimalValue(digits) else DecimalValue(digits)
  {
    var k := LeadingDigits(t);
    digits := t[..k];
    assert t == digits + t[k..];
    RoundTrip.NumberIsExact(digits, t[k..], negative);
  }

  lemma ReadSymbolIsSpelled(t: Bytes) returns (token: Bytes)
    requires t != [] && !IsTerminator(t[0]) && t[0] != HASH && !IsDigit(t[0])
    requires !((t[0] == PLUS || t[0] == MINUS) && |t| > 1 && IsDigit(t[1]))
    ensures var r := ReadSymbol(t); t == token + r.rest && Spells(token, r.d) && Terminated(r.rest)
  {
    var n := TokenLength(t);
    token := t[..n];
    assert t == token + t[n..];
    assert n >= 1 && token[0] == t[0];
    assert n > 1 ==> token[1] == t[1];
  }

  // Whatever the reader takes for a token is one.
  lemma AtomIsSpelled(t: Bytes) returns (token: Bytes)
    requires t != [] && (IsTerminator(t[0]) ==> t[0] == DOUBLE_QUOTE) && ReadAtom(t).Read?
    ensures var r := ReadAtom(t); t == token + r.rest && Spells(token, r.d) && (r.d.Str? || Terminated(r.rest))
  {
    if t[0] == DOUBLE_QUOTE {
      token := StringTokenIsSpelled(t);
    } else if t[0] == HASH {
      Booleans();
      token := t[..2];
      assert t == token + t[2..] && t[1..][1..] == t[2..];
    } else if IsDigit(t[0]) {
      token := ReadNumberIsSpelled(t, false);
      assert token[0] == t[0];
    } else if (t[0] == PLUS || t[0] == MINUS) && |t| > 1 && IsDigit(t[1]) {
      var digits := ReadNumberIsSpelled(t[1..], t[0] == MINUS);
      token := [t[0]] + digits;
      assert token[1..] == digits;
    } else {
      token := ReadSymbolIsSpelled(t);
    }
  }

  lemma StringTokenIsSpelled(t: Bytes) returns (token: Bytes)
    requires t != [] && t[0] == DOUBLE_QUOTE && ReadAtom(t).Read?
    ensures var r := ReadAtom(t); t == token + r.rest && Spells(token, r.d) && r.d.Str?
  {
    var body, bytes := ReadStringIsSpelled(t[1..], []);
    token := [t[0]] + body + [34];
    assert token[1..|token| - 1] == body;
    assert [] + bytes == bytes;
    assert t == [t[0]] + t[1..];
  }

  // ---------------------------------------------------------------- layouts read

  // What is left of `t` after the gap in front of it.
  lemma GapEnds(g: Gap, u: Bytes)
    requires IsGap(g) && u != [] && !IsSpace(u[0]) && u[0] != SEMICOLON
    ensures SkipSpace(GapThen(g, u)) == u
  {
    GapIsSkipped(g, u);
  }

  // A form starts with a byte that neither blanks nor a closing parenthesis do.
  lemma FormStarts(f: Form, u: Bytes)
    requires IsForm(f, u)
    ensures var v := SkipSpace(FormThen(f, u));
      && v != [] && v[0] != RPAREN
      && (!IsDot(f) ==> !(v[0] == DOT && |v| > 1 && IsTerminator(v[1])))
  {
    match f
    case Atom(gap, token, d) =>
      TokenStarts(token, d, u);
      assert (token + u)[0] == token[0];
      GapEnds(gap, token + u);
    case Quote(gap, form) =>
      GapEnds(gap, [39] + FormThen(form, u));
    case List(gap, items) =>
      GapEnds(gap, [40] + ItemsThen(items, u));
  }

  lemma AtomReads(f: Form, u: Bytes, depth: nat, max: nat)
    requires f.Atom? && IsForm(f, u)
    ensures ReadForm(FormThen(f, u), depth, max) == Read(f.d, u)
  {
    TokenStarts(f.token, f.d, u);
    GapEnds(f.gap, f.token + u);
    TokenReads(f.token, f.d, u);
  }

  function ReadOr(fits: bool, d: Datum, u: Bytes): Reading {
    if fits then Read(d, u) else Failed(ReadDepth)
  }

  /** The text of a layout, with anything that ends its last token after it, reads as what it denotes, if it fits. */
  lemma {:induction false} LayoutReads(f: Form, u: Bytes, depth: nat, max: nat)
    requires IsForm(f, u) && depth <= max
    ensures ReadForm(FormThen(f, u), depth, max) == ReadOr(depth + Levels(f) <= max, DatumOf(f), u)
    decreases f
  {
    match f
    case Atom(gap, token, d) =>
      AtomReads(f, u, depth, max);
    case Quote(gap, form) =>
      GapBeforeForm(gap, [39] + FormThen(form, u), depth, max);
      QuoteThenForm(FormThen(form, u), depth, max);
      LayoutReads(form, u, depth, max);
      QuoteName();
    case List(gap, items) =>
      GapBeforeForm(gap, [LPAREN] + ItemsThen(items, u), depth, max);
      RoundTrip.OpenParenthesis(ItemsThen(items, u), depth, max);
      if depth < max {
        ItemsLayoutReads(items, u, true, depth + 1, max);
      }
  }

  lemma QuoteThenForm(t: Bytes, depth: nat, max: nat)
    ensures var form := ReadForm(t, depth, max);
      !form.AtEnd? ==>
        ReadForm([39] + t, depth, max) == if form.Read? then Read(Quoted(form.d), form.rest) else form
  {
    assert ([39] + t)[1..] == t;
  }

  lemma QuoteName()
    ensures Ascii("quote") == QUOTE_NAME
  {
  }

  lemma {:induction false} ItemsLayoutReads(i: Items, u: Bytes, first: bool, depth: nat, max: nat)
    requires IsItems(i, u) && depth <= max && !(first && i.Dotted?)
    ensures ReadItems(ItemsThen(i, u), first, depth, max)
         == ReadOr(depth + ItemsLevels(i) <= max, ItemsDatum(i), u)
    decreases i
  {
    match i
    case Close(gap) =>
      GapBeforeItems(gap, [RPAREN] + u, first, depth, max);
      RoundTrip.CloseParenthesis(u, first, depth, max);
    case Dotted(gap, form, close) =>
      var v := GapThen(close, [RPAREN] + u);
      GapBeforeItems(gap, [DOT] + FormThen(form, v), first, depth, max);
      RoundTrip.DotAmongItems(FormThen(form, v), first, depth, max);
      LayoutReads(form, v, depth, max);
      GapEnds(close, [RPAREN] + u);
    case Item(form, more) =>
      FormStarts(form, ItemsThen(more, u));
      LayoutReads(form, ItemsThen(more, u), depth, max);
      ItemsLayoutReads(more, u, false, depth, max);
  }

  // ---------------------------------------------------------------- nothing else reads

  // The blanks and comments the reader skips before it finds something.
  lemma {:induction false} SkippedIsGap(t: Bytes) returns (g: Gap)
    requires SkipSpace(t) != []
    ensures IsGap(g) && t == GapThen(g, SkipSpace(t))
    decreases |t|
  {
    g := Nothing;
    if IsSpace(t[0]) {
      var more := SkippedIsGap(t[1..]);
      g := Blank(t[0], more);
    } else if t[0] == SEMICOLON {
      var line := SkippedLine(t[1..]);
      var v := SkipLine(t[1..]);
      var more := SkippedIsGap(v[1..]);
      g := Comment(line, more);
      assert v == [10] + v[1..];
      assert t == [59] + line + [10] + v[1..];
    }
  }

  lemma {:induction false} SkippedLine(t: Bytes) returns (line: Bytes)
    ensures 10 !in line && t == line + SkipLine(t)
    ensures SkipLine(t) == [] || SkipLine(t)[0] == 10
    decreases |t|
  {
    line := [];
    if t != [] && t[0] != NEWLINE {
      var more := SkippedLine(t[1..]);
      line := [t[0]] + more;
    }
  }

  /** Whatever the reader accepts is the text of a layout of the datum it returns. */
  lemma {:induction false} ReadIsLayout(t: Bytes, depth: nat, max: nat) returns (f: Form)
    requires depth <= max && ReadForm(t, depth, max).Read?
    ensures var r := ReadForm(t, depth, max);
      IsForm(f, r.rest) && t == FormThen(f, r.rest) && DatumOf(f) == r.d && depth + Levels(f) <= max
    decreases |t|, 0
  {
    var u := SkipSpace(t);
    var gap := SkippedIsGap(t);
    assert u == [u[0]] + u[1..];
    if u[0] == LPAREN {
      var items := ReadIsItems(u[1..], true, depth + 1, max);
      f := List(gap, items);
    } else if u[0] == QUOTE_MARK {
      var form := ReadIsLayout(u[1..], depth, max);
      f := Quote(gap, form);
      QuoteName();
    } else {
      var token := AtomIsSpelled(u);
      f := Atom(gap, token, ReadAtom(u).d);
    }
  }

  lemma {:induction false} ReadIsItems(t: Bytes, first: bool, depth: nat, max: nat) returns (i: Items)
    requires depth <= max && ReadItems(t, first, depth, max).Read?
    ensures var r := ReadItems(t, first, depth, max);
      && IsItems(i, r.rest) && t == ItemsThen(i, r.rest) && ItemsDatum(i) == r.d
      && depth + ItemsLevels(i) <= max && !(first && i.Dotted?)
    decreases |t|, 1
  {
    var u := SkipSpace(t);
    if u[0] == RPAREN {
      var gap := SkippedIsGap(t);
      i := Close(gap);
      assert u == [41] + u[1..];
    } else if u[0] == DOT && |u| > 1 && IsTerminator(u[1]) {
      i := ReadIsDotted(t, depth, max);
    } else {
      var element := ReadForm(t, depth, max);
      var form := ReadIsLayout(t, depth, max);
      var more := ReadIsItems(element.rest, false, depth, max);
      i := Item(form, more);
      ElementIsNotDot(form, element.rest, u);
    }
  }

  lemma ElementIsNotDot(f: Form, u: Bytes, v: Bytes)
    requires IsForm(f, u) && SkipSpace(FormThen(f, u)) == v && u != []
    requires v != [] && !(v[0] == DOT && |v| > 1 && IsTerminator(v[1]))
    ensures !IsDot(f)
  {
    if IsDot(f) {
      GapEnds(f.gap, f.token + u);
    }
  }

  lemma {:induction false} ReadIsDotted(t: Bytes, depth: nat, max: nat) returns (i: Items)
    requires depth <= max && ReadItems(t, false, depth, max).Read?
    requires var u := SkipSpace(t); |u| > 1 && u[0] == DOT && IsTerminator(u[1])
    ensures var r := ReadItems(t, false, depth, max);
      && i.Dotted? && IsItems(i, r.rest) && t == ItemsThen(i, r.rest) && ItemsDatum(i) == r.d
      && depth + ItemsLevels(i) <= max
    decreases |t|, 0
  {
    var u := SkipSpace(t);
    var gap := SkippedIsGap(t);
    var form := ReadIsLayout(u[1..], depth, max);
    var v := ReadForm(u[1..], depth, max).rest;
    var close := SkippedIsGap(v);
    i := Dotted(gap, form, close);
    assert u == [46] + u[1..];
    assert SkipSpace(v) == [41] + SkipSpace(v)[1..];
  }

  // ---------------------------------------------------------------- main results

  // `f` lays out `d` at the start of `t`, before `rest`.
  predicate LaysOut(f: Form, d: Datum, t: Bytes, rest: Bytes) {
    DatumOf(f) == d && t == FormThen(f, rest) && IsForm(f, rest)
  }

  /**
   * The reader accepts exactly the external syntax: it reads `d` and leaves `rest`
   * if and only if some layout of `d` that fits the depth comes before `rest`.
   */
  lemma ReadsExactlyLayouts(t: Bytes, d: Datum, rest: Bytes, depth: nat, max: nat)
    requires depth <= max
    ensures ReadForm(t, depth, max) == Read(d, rest)
       <==> exists f :: LaysOut(f, d, t, rest) && depth + Levels(f) <= max
  {
    if ReadForm(t, depth, max) == Read(d, rest) {
      var f := ReadIsLayout(t, depth, max);
      assert LaysOut(f, d, t, rest);
    }
    forall f | LaysOut(f, d, t, rest) && depth + Levels(f) <= max
      ensures ReadForm(t, depth, max) == Read(d, rest)
    {
      LayoutReads(f, rest, depth, max);
    }
  }

  /** A layout that needs more parentheses than the depth allows is a READ_DEPTH error. */
  lemma DeepLayoutFails(f: Form, rest: Bytes, depth: nat, max: nat)
    requires IsForm(f, rest) && depth <= max < depth + Levels(f)
    ensures ReadForm(FormThen(f, rest), depth, max) == Failed(ReadDepth)
  {
    LayoutReads(f, rest, depth, max);
  }

  // Nothing but a gap, and perhaps a comment that the end of the input cuts off.
  predicate IsBlank(t: Bytes, g: Gap, line: Bytes) {
    IsGap(g) && 10 !in line && (t == GapThen(g, []) || t == GapThen(g, [59] + line))
  }

  /** The reader sees the end of the input exactly when only white space and comments are left. */
  lemma AtEndExactlyOnGaps(t: Bytes, depth: nat, max: nat)
    ensures ReadForm(t, depth, max) == AtEnd <==> exists g, line :: IsBlank(t, g, line)
  {
    if ReadForm(t, depth, max) == AtEnd {
      var g, line := OnlyGap(t);
      assert IsBlank(t, g, line);
    }
    forall g, line | IsBlank(t, g, line) ensures ReadForm(t, depth, max) == AtEnd {
      GapIsSkipped(g, []);
      GapIsSkipped(g, [59] + line);
      CommentBeforeForm(line, [], depth, max);
    }
  }

  // `u` is what follows all the white space and comments at the start of `t`.
  ghost predicate Skips(t: Bytes, u: Bytes) {
    if u == [] then exists g, line :: IsBlank(t, g, line)
    else u[0] != 32 && !(9 <= u[0] <= 13) && u[0] != 59 && exists g :: IsGap(g) && t == GapThen(g, u)
  }

  lemma SkipSpaceSkips(t: Bytes)
    ensures Skips(t, SkipSpace(t))
  {
    if SkipSpace(t) == [] {
      var g, line := OnlyGap(t);
    } else {
      var g := SkippedIsGap(t);
    }
  }

  lemma {:induction false} OnlyGap(t: Bytes) returns (g: Gap, line: Bytes)
    requires SkipSpace(t) == []
    ensures IsBlank(t, g, line)
    decreases |t|, 1
  {
    g, line := Nothing, [];
    if t != [] && IsSpace(t[0]) {
      var more;
      more, line := OnlyGap(t[1..]);
      g := Blank(t[0], more);
      assert t == [t[0]] + t[1..];
    } else if t != [] {
      g, line := OnlyComment(t);
    }
  }

  lemma {:induction false} OnlyComment(t: Bytes) returns (g: Gap, line: Bytes)
    requires t != [] && t[0] == SEMICOLON && SkipSpace(t) == []
    ensures IsBlank(t, g, line)
    decreases |t|, 0
  {
    var first := SkippedLine(t[1..]);
    var v := SkipLine(t[1..]);
    if v == [] {
      g, line := Nothing, first;
      assert t == [59] + line;
    } else {
      var more;
      more, line := OnlyGap(v[1..]);
      g := Comment(first, more);
      GapAfterLine(t, first, v);
    }
  }

  lemma GapAfterLine(t: Bytes, line: Bytes, v: Bytes)
    requires t != [] && t[0] == 59 && t[1..] == line + v && v != [] && v[0] == 10
    ensures t == [59] + line + [10] + v[1..]
  {
    assert v == [10] + v[1..];
  }

  // ---------------------------------------------------------------- whole inputs and unfinished ones

  // Forms one after another, and then `u`.
  function FormsThen(fs: seq<Form>, u: Bytes): Bytes {
    if fs == [] then u else FormThen(fs[0], FormsThen(fs[1..], u))
  }

  predicate AreForms(fs: seq<Form>, u: Bytes) {
    fs != [] ==> IsForm(fs[0], FormsThen(fs[1..], u)) && AreForms(fs[1..], u)
  }

  function Data(fs: seq<Form>): seq<Datum> {
    seq(|fs|, i requires 0 <= i < |fs| => DatumOf(fs[i]))
  }

  /** A text of forms, whatever stands between and after them, reads as their data in order. */
  lemma {:induction false} ProgramReads(fs: seq<Form>, u: Bytes, g: Gap, line: Bytes, max: nat)
    requires AreForms(fs, u) && IsBlank(u, g, line)
    requires forall i | 0 <= i < |fs| :: Levels(fs[i]) <= max
    ensures RoundTrip.ReadAll(FormsThen(fs, u), max) == RoundTrip.Forms(Data(fs))
    decreases fs
  {
    if fs == [] {
      AtEndExactlyOnGaps(u, 0, max);
    } else {
      LayoutReads(fs[0], FormsThen(fs[1..], u), 0, max);
      ProgramReads(fs[1..], u, g, line, max);
      assert Data(fs) == [DatumOf(fs[0])] + Data(fs[1..]);
    }
  }

  /** A list that the end of the input cuts off is a READ_TRUNCATED error. */
  lemma {:induction false} UnclosedList(fs: seq<Form>, u: Bytes, g: Gap, line: Bytes, depth: nat, max: nat)
    requires AreForms(fs, u) && IsBlank(u, g, line) && depth < max
    requires forall i | 0 <= i < |fs| :: !IsDot(fs[i]) && depth + 1 + Levels(fs[i]) <= max
    ensures ReadForm([40] + FormsThen(fs, u), depth, max) == Failed(ReadTruncated)
  {
    RoundTrip.OpenParenthesis(FormsThen(fs, u), depth, max);
    UnclosedItems(fs, u, g, line, true, depth + 1, max);
  }

  lemma {:induction false} UnclosedItems(fs: seq<Form>, u: Bytes, g: Gap, line: Bytes, first: bool, depth: nat,
                                         max: nat)
    requires AreForms(fs, u) && IsBlank(u, g, line) && depth <= max
    requires forall i | 0 <= i < |fs| :: !IsDot(fs[i]) && depth + Levels(fs[i]) <= max
    ensures ReadItems(FormsThen(fs, u), first, depth, max) == Failed(ReadTruncated)
    decreases fs
  {
    if fs == [] {
      AtEndExactlyOnGaps(u, depth, max);
    } else {
      FormStarts(fs[0], FormsThen(fs[1..], u));
      LayoutReads(fs[0], FormsThen(fs[1..], u), depth, max);
      UnclosedItems(fs[1..], u, g, line, false, depth, max);
    }
  }

  /** So is a string literal without its closing quote. */
  lemma {:induction false} UnclosedString(body: Bytes, bytes: Bytes, before: Bytes)
    requires SpellsString(body, bytes)
    ensures ReadString(body, before) == Failed(ReadTruncated)
    ensures before == [] ==> forall depth, max :: ReadForm([34] + body, depth, max) == Failed(ReadTruncated)
    decreases |bytes|
  {
    if bytes != [] {
      StringByteByByte(body, bytes);
      CharIsPiece(body, bytes[0], body[PieceLength(body)..]);
      UnclosedString(body[PieceLength(body)..], bytes[1..], before + [bytes[0]]);
    }
    assert ([34] + body)[1..] == body;
  }

  /** A closing parenthesis with nothing open, and a dot before the first element, are syntax errors. */
  lemma MisplacedTokens(g: Gap, h: Gap, u: Bytes, depth: nat, max: nat)
    requires IsGap(g) && IsGap(h)
    ensures ReadForm(GapThen(g, [41] + u), depth, max) == Failed(ReadSyntax)
    ensures depth < max && u != [] && Terminated(u) ==>
      ReadForm(GapThen(g, [40] + GapThen(h, [46] + u)), depth, max) == Failed(ReadSyntax)
  {
    GapEnds(g, [41] + u);
    if depth < max && u != [] && Terminated(u) {
      GapBeforeForm(g, [40] + GapThen(h, [46] + u), depth, max);
      RoundTrip.OpenParenthesis(GapThen(h, [46] + u), depth, max);
      GapBeforeItems(h, [46] + u, true, depth + 1, max);
      RoundTrip.DotAmongItems(u, true, depth + 1, max);
    }
  }

  /** A hash sign that starts neither #t nor #f is a syntax error. */
  lemma BadHash(u: Bytes, depth: nat, max: nat)
    requires !(u != [] && (u[0] == 116 || u[0] == 102) && Terminated(u[1..]))
    ensures ReadForm([35] + u, depth, max) == Failed(ReadSyntax)
  {
    assert ([35] + u)[1..] == u;
  }

  predicate IsHexByte(c: Byte) {
    48 <= c <= 57 || 65 <= c <= 70 || 97 <= c <= 102
  }

  // The bytes that may follow a backslash.
  predicate IsEscape(u: Bytes) {
    && u != []
    && (u[0] in Ascii("ntr0\"\\")
        || (u[0] == 120 && |u| >= 3 && IsHexByte(u[1]) && IsHexByte(u[2])))
  }

  /** In a string literal, a backslash that starts no escape is a syntax error, and one at the end READ_TRUNCATED. */
  lemma {:induction false} BadEscape(body: Bytes, bytes: Bytes, u: Bytes, before: Bytes)
    requires SpellsString(body, bytes) && !IsEscape(u)
    ensures ReadString(body + ([92] + u), before) == Failed(if u == [] then ReadTruncated else ReadSyntax)
    decreases |bytes|
  {
    var tail := [92] + u;
    if bytes == [] {
      assert body + tail == tail && tail[1..] == u;
      EscapeBytes();
    } else {
      StringByteByByte(body, bytes);
      PieceOfMore(body, bytes[0], tail);
      CharIsPiece(body + tail, bytes[0], body[PieceLength(body)..] + tail);
      BadEscape(body[PieceLength(body)..], bytes[1..], u, before + [bytes[0]]);
    }
  }

  lemma EscapeBytes()
    ensures Ascii("ntr0\"\\") == [LETTER_N, LETTER_T, LETTER_R, ZERO, DOUBLE_QUOTE, BACKSLASH]
  {
  }

  // Neither a gap nor a closing parenthesis comes first.
  predicate StaysOpen(w: Bytes) {
    w == [] || !(w[0] == 32 || 9 <= w[0] <= 13 || w[0] == 59 || w[0] == 41)
  }

  /** After the dot of a list there must be a form: the end of the input there is a syntax error. */
  lemma NothingAfterDot(v: Bytes, g: Gap, line: Bytes, depth: nat, max: nat)
    requires v != [] && Terminated(v) && IsBlank(v, g, line)
    ensures ReadItems([46] + v, false, depth, max) == Failed(ReadSyntax)
  {
    RoundTrip.DotAmongItems(v, false, depth, max);
    AtEndExactlyOnGaps(v, depth, max);
  }

  /** And after that form there must be the closing parenthesis. */
  lemma TwoFormsAfterDot(f: Form, g: Gap, w: Bytes, depth: nat, max: nat)
    requires var v := FormThen(f, GapThen(g, w)); v != [] && Terminated(v)
    requires IsForm(f, GapThen(g, w)) && IsGap(g) && StaysOpen(w) && depth + Levels(f) <= max
    ensures ReadItems([46] + FormThen(f, GapThen(g, w)), false, depth, max) == Failed(ReadSyntax)
  {
    RoundTrip.DotAmongItems(FormThen(f, GapThen(g, w)), false, depth, max);
    LayoutReads(f, GapThen(g, w), depth, max);
    GapIsSkipped(g, w);
  }
}
