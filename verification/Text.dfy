/**
 * Data as trees, and the text the printer gives them.
 */
module Text {
  import opened Basics

  type Bytes = seq<Byte>

  const TAB: Byte := 9
  const NEWLINE: Byte := 10
  const VERTICAL_TAB: Byte := 11
  const FORM_FEED: Byte := 12
  const RETURN: Byte := 13
  const SPACE: Byte := 32
  const DOUBLE_QUOTE: Byte := 34
  const HASH: Byte := 35
  const QUOTE_MARK: Byte := 39
  const LPAREN: Byte := 40
  const RPAREN: Byte := 41
  const PLUS: Byte := 43
  const MINUS: Byte := 45
  const DOT: Byte := 46
  const ZERO: Byte := 48
  const NINE: Byte := 57
  const SEMICOLON: Byte := 59
  const BACKSLASH: Byte := 92
  const DELETE: Byte := 127
  const LETTER_F: Byte := 102
  const LETTER_N: Byte := 110
  const LETTER_R: Byte := 114
  const LETTER_T: Byte := 116
  const LETTER_X: Byte := 120

  // Values without read syntax.  `Unnamed` is a symbol index the table does not know.
  datatype Kind =
    | EofMark
    | UndefinedMark
    | Primitive(name: Bytes)
    | Procedure
    | Environment
    | Unnamed
    | Unknown

  // A value as the tree it unfolds to.
  datatype Datum =
    | Nil
    | True
    | False
    | Fix(n: Fixnum)
    | Sym(name: Bytes)
    | Str(bytes: Bytes)
    | Pair(car: Datum, cdr: Datum)
    | Opaque(kind: Kind)

  predicate IsSpace(c: Byte) {
    c == SPACE || c == TAB || c == NEWLINE || c == RETURN || c == FORM_FEED || c == VERTICAL_TAB
  }

  predicate IsTerminator(c: Byte) {
    IsSpace(c) || c == LPAREN || c == RPAREN || c == SEMICOLON || c == DOUBLE_QUOTE || c == QUOTE_MARK
  }

  predicate IsDigit(c: Byte) {
    ZERO <= c <= NINE
  }

  // A token that ends here ends properly: the input is over or a terminator follows.
  predicate Terminated(t: Bytes) {
    t == [] || IsTerminator(t[0])
  }

  function AsciiByte(c: char): (b: Byte) {
    if c < 128 as char then c as int else 0
  }

  function Ascii(s: string): (b: Bytes)
    ensures |b| == |s|
  {
    seq(|s|, i requires 0 <= i < |s| => AsciiByte(s[i]))
  }

  // ---------------------------------------------------------------- numbers

  // The number a run of digits denotes.
  function DecimalValue(digits: Bytes): int {
    if digits == [] then 0
    else DecimalValue(digits[..|digits| - 1]) * 10 + (digits[|digits| - 1] - ZERO)
  }

  predicate AllDigits(digits: Bytes) {
    forall i | 0 <= i < |digits| :: IsDigit(digits[i])
  }

  function Digits(n: nat): (ds: Bytes)
    ensures ds != [] && AllDigits(ds) && DecimalValue(ds) == n
  {
    if n < 10 then [ZERO + n] else Digits(n / 10) + [ZERO + n % 10]
  }

  function Decimal(n: int): (t: Bytes) {
    if n < 0 then [MINUS] + Digits(-n) else Digits(n)
  }

  // ---------------------------------------------------------------- strings

  function HexDigit(h: int): (c: Byte)
    requires 0 <= h < 16
  {
    if h < 10 then ZERO + h else 55 + h
  }

  // The bytes the printer never puts inside a string literal as they are.
  predicate NeedsEscape(c: Byte) {
    c == DOUBLE_QUOTE || c == BACKSLASH || c < SPACE || c == DELETE
  }

  function EscapeByte(c: Byte): (t: Bytes) {
    if !NeedsEscape(c) then [c]
    else if c == DOUBLE_QUOTE then [BACKSLASH, DOUBLE_QUOTE]
    else if c == BACKSLASH then [BACKSLASH, BACKSLASH]
    else if c == NEWLINE then [BACKSLASH, LETTER_N]
    else if c == TAB then [BACKSLASH, LETTER_T]
    else if c == RETURN then [BACKSLASH, LETTER_R]
    else if c == 0 then [BACKSLASH, ZERO]
    else [BACKSLASH, LETTER_X, HexDigit(c / 16), HexDigit(c % 16)]
  }

  // Per-byte escaping, concatenated.
  function Escape(bytes: Bytes): (t: Bytes) {
    if bytes == [] then [] else Escape(bytes[..|bytes| - 1]) + EscapeByte(bytes[|bytes| - 1])
  }

  function QuotedString(bytes: Bytes): (t: Bytes) {
    [DOUBLE_QUOTE] + Escape(bytes) + [DOUBLE_QUOTE]
  }

  lemma Regroup<T>(a: seq<T>, b: seq<T>, c: seq<T>)
    ensures a + b + c == a + (b + c)
  {
  }

  // ---------------------------------------------------------------- data

  // The printer formats a primitive's name in a buffer of this size, NUL included.
  const NAME_BUFFER: nat := 128

  function PrimitiveText(name: Bytes): (t: Bytes)
    ensures |t| < NAME_BUFFER
  {
    var t := Ascii("#<procedure:") + name + Ascii(">");
    if |t| < NAME_BUFFER then t else t[..NAME_BUFFER - 1]
  }

  function KindText(kind: Kind): (t: Bytes) {
    match kind
    case EofMark => Ascii("#<eof>")
    case UndefinedMark => Ascii("#<undefined>")
    case Primitive(name) => PrimitiveText(name)
    case Procedure => Ascii("#<procedure>")
    case Environment => Ascii("#<environment>")
    case Unnamed => []
    case Unknown => Ascii("#<unknown>")
  }

  // The text of a datum; `write` selects the read-back style.
  function Render(d: Datum, write: bool): (t: Bytes)
    decreases d, 0
  {
    match d
    case Nil => [LPAREN, RPAREN]
    case True => [HASH, LETTER_T]
    case False => [HASH, LETTER_F]
    case Fix(n) => Decimal(n)
    case Sym(name) => name
    case Str(bytes) => if write then QuotedString(bytes) else bytes
    case Opaque(kind) => KindText(kind)
    case Pair(car, cdr) => [LPAREN] + Render(car, write) + RenderTail(cdr, write)
  }

  // What follows the first element of a list, up to and with the closing parenthesis.
  function RenderTail(d: Datum, write: bool): (t: Bytes)
    ensures t != [] && IsTerminator(t[0])
    decreases d, 1
  {
    if d.Nil? then [RPAREN]
    else if d.Pair? then [SPACE] + Render(d.car, write) + RenderTail(d.cdr, write)
    else [SPACE, DOT, SPACE] + Render(d, write) + [RPAREN]
  }

  function Write(d: Datum): (t: Bytes) {
    Render(d, true)
  }

  // How many nested calls of the printer the datum takes: one more per car, not per cdr.
  function PrintHeight(d: Datum): (h: nat)
    ensures h >= 1
    decreases d, 0
  {
    if d.Pair? then 1 + Max(PrintHeight(d.car), TailHeight(d.cdr)) else 1
  }

  function TailHeight(d: Datum): (h: nat)
    decreases d, 1
  {
    if d.Nil? then 0
    else if d.Pair? then Max(PrintHeight(d.car), TailHeight(d.cdr))
    else PrintHeight(d)
  }

  function Max(a: nat, b: nat): nat {
    if a < b then b else a
  }

  // ---------------------------------------------------------------- what the text looks like

  // The list of `ds` that ends in `end`.
  function ListOf(ds: seq<Datum>, end: Datum): Datum {
    if ds == [] then end else Pair(ds[0], ListOf(ds[1..], end))
  }

  // Texts with a space between any two.
  function Spaced(ts: seq<Bytes>): Bytes {
    if ts == [] then [] else if |ts| == 1 then ts[0] else ts[0] + Ascii(" ") + Spaced(ts[1..])
  }

  function Texts(ds: seq<Datum>, write: bool): seq<Bytes> {
    seq(|ds|, i requires 0 <= i < |ds| => Render(ds[i], write))
  }

  // What closes a list: its end after a dot if it is improper, and a parenthesis.
  function Ending(end: Datum, write: bool): Bytes {
    if end.Nil? then Ascii(")") else Ascii(" . ") + Render(end, write) + Ascii(")")
  }

  // Each text after a space.
  function Preceded(ts: seq<Bytes>): Bytes {
    if ts == [] then [] else Ascii(" ") + Spaced(ts)
  }

  lemma OneMore(t: Bytes, ts: seq<Bytes>)
    ensures Spaced([t] + ts) == t + Preceded(ts)
  {
    assert ([t] + ts)[1..] == ts;
    if ts == [] {
      assert [t] + ts == [t];
    } else {
      Regroup(t, Ascii(" "), Spaced(ts));
    }
  }

  lemma Parenthesis()
    ensures Ascii("(") == [LPAREN] && Ascii(")") == [RPAREN]
    ensures Ascii(" . ") == [SPACE, DOT, SPACE] && Ascii(" ") == [SPACE]
  {
  }

  lemma FirstText(ds: seq<Datum>, write: bool)
    requires ds != []
    ensures Texts(ds, write) == [Render(ds[0], write)] + Texts(ds[1..], write)
  {
  }

  lemma {:induction false} TailIsSpaced(ds: seq<Datum>, end: Datum, write: bool)
    requires !end.Pair?
    ensures RenderTail(ListOf(ds, end), write) == Preceded(Texts(ds, write)) + Ending(end, write)
    decreases ds
  {
    hide Ascii, Texts, Spaced;
    Parenthesis();
    if ds != [] {
      var t, ts := Render(ds[0], write), Texts(ds[1..], write);
      TailIsSpaced(ds[1..], end, write);
      FirstText(ds, write);
      OneMore(t, ts);
      assert RenderTail(ListOf(ds, end), write) == [SPACE] + t + (Preceded(ts) + Ending(end, write));
      Regroup([SPACE] + t, Preceded(ts), Ending(end, write));
      Regroup([SPACE], t, Preceded(ts));
    } else {
      assert Texts(ds, write) == [] by { NoTexts(write); }
      assert [] + Ending(end, write) == Ending(end, write);
    }
  }

  lemma NoTexts(write: bool)
    ensures Texts([], write) == []
  {
  }

  /** A list prints as its elements with spaces between them, in parentheses, and its end after a dot if improper. */
  lemma ListText(ds: seq<Datum>, end: Datum, write: bool)
    requires ds != [] && !end.Pair?
    ensures Render(ListOf(ds, end), write) == Ascii("(") + Spaced(Texts(ds, write)) + Ending(end, write)
  {
    hide Ascii, Texts, Spaced, RenderTail;
    var t, ts := Render(ds[0], write), Texts(ds[1..], write);
    Parenthesis();
    TailIsSpaced(ds[1..], end, write);
    FirstText(ds, write);
    OneMore(t, ts);
    assert Render(ListOf(ds, end), write) == [LPAREN] + t + (Preceded(ts) + Ending(end, write));
    Regroup([LPAREN] + t, Preceded(ts), Ending(end, write));
    Regroup([LPAREN], t, Preceded(ts));
  }

  // The printer goes one call deeper for each element and for an improper end.
  ghost predicate HeightBelow(ds: seq<Datum>, end: Datum, h: nat) {
    && (forall i | 0 <= i < |ds| :: PrintHeight(ds[i]) < h)
    && (!end.Nil? ==> PrintHeight(end) < h)
  }

  lemma {:induction false} TailHeightBelow(ds: seq<Datum>, end: Datum, h: nat)
    requires !end.Pair?
    ensures TailHeight(ListOf(ds, end)) < h <==> h > 0 && HeightBelow(ds, end, h)
    decreases ds
  {
    if ds != [] {
      TailHeightBelow(ds[1..], end, h);
      assert forall i | 1 <= i < |ds| :: ds[i] == ds[1..][i - 1];
    }
  }

  /** An atom takes one call of the printer; a list takes one more than the most that an element or its end takes. */
  lemma HeightOfList(ds: seq<Datum>, end: Datum, h: nat)
    requires !end.Pair?
    ensures ds == [] ==> PrintHeight(end) == 1
    ensures ds != [] ==> (PrintHeight(ListOf(ds, end)) <= h <==> h > 0 && HeightBelow(ds, end, h))
  {
    if ds != [] {
      TailHeightBelow(ds[1..], end, h);
      assert forall i | 1 <= i < |ds| :: ds[i] == ds[1..][i - 1];
    }
  }

  /** The texts of the other data: a decimal number has no sign but minus and no leading zero. */
  lemma AtomTexts(n: Fixnum, name: Bytes, bytes: Bytes, write: bool)
    ensures Render(Nil, write) == Ascii("()")
    ensures Render(True, write) == Ascii("#t") && Render(False, write) == Ascii("#f")
    ensures Render(Sym(name), write) == name && Render(Str(bytes), false) == bytes
    ensures Render(Opaque(Procedure), write) == Ascii("#<procedure>")
    ensures Render(Opaque(EofMark), write) == Ascii("#<eof>")
    ensures Render(Opaque(UndefinedMark), write) == Ascii("#<undefined>")
    ensures Render(Opaque(Environment), write) == Ascii("#<environment>")
    ensures |name| <= 114 ==> Render(Opaque(Primitive(name)), write) == Ascii("#<procedure:") + name + Ascii(">")
    ensures var t := Render(Fix(n), write);
      && t != [] && (t[0] == 45 <==> n < 0)
      && (t[0] == 48 ==> t == Ascii("0"))
      && (n < 0 ==> |t| > 1 && t[1] != 48)
  {
    var magnitude: int := if n < 0 then 0 - n else n;
    NoLeadingZero(magnitude);
  }

  lemma {:induction false} NoLeadingZero(n: nat)
    ensures Digits(n)[0] == 48 <==> n == 0
    ensures n == 0 ==> Digits(n) == Ascii("0")
    decreases n
  {
    if n >= 10 {
      NoLeadingZero(n / 10);
    }
  }

  /** Inside a string literal in write style: how each byte appears. */
  lemma EscapeTable(c: Byte)
    ensures c == 34 ==> EscapeByte(c) == Ascii("\\\"")
    ensures c == 92 ==> EscapeByte(c) == Ascii("\\\\")
    ensures c == 10 ==> EscapeByte(c) == Ascii("\\n")
    ensures c == 9 ==> EscapeByte(c) == Ascii("\\t")
    ensures c == 13 ==> EscapeByte(c) == Ascii("\\r")
    ensures c == 0 ==> EscapeByte(c) == Ascii("\\0")
    ensures c >= 32 && c != 34 && c != 92 && c != 127 ==> EscapeByte(c) == [c]
    ensures (0 < c < 32 && c != 9 && c != 10 && c != 13) || c == 127 ==>
      EscapeByte(c) == Ascii("\\x") + [Ascii("0123456789ABCDEF")[c / 16], Ascii("0123456789ABCDEF")[c % 16]]
  {
    HexDigits(c / 16);
    HexDigits(c % 16);
  }

  lemma HexDigits(h: int)
    requires 0 <= h < 16
    ensures HexDigit(h) == Ascii("0123456789ABCDEF")[h]
  {
  }
}
