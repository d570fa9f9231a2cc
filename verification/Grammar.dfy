/**
 * The reader as a function on the unread input: the grammar that read_form and
 * its helpers accept, with every error case.
 */
module Grammar {
  import opened Basics
  import opened Text

  // The outcome of reading one form: a datum and the unread rest, a clean end
  // of input, or an error.
  datatype Reading =
    | Read(d: Datum, rest: Bytes)
    | AtEnd
    | Failed(st: Error)

  datatype Scan<T> = Scanned(value: T, rest: Bytes) | Bad(st: Error)

  const QUOTE_NAME: Bytes := [113, 117, 111, 116, 101]

  // ---------------------------------------------------------------- blanks

  function SkipLine(t: Bytes): (r: Bytes)
    ensures |r| <= |t|
  {
    if t == [] || t[0] == NEWLINE then t else SkipLine(t[1..])
  }

  // Skips white space and comments.
  function SkipSpace(t: Bytes): (r: Bytes)
    ensures |r| <= |t|
    ensures r == [] || !(IsSpace(r[0]) || r[0] == SEMICOLON)
    decreases |t|
  {
    if t == [] then t
    else if IsSpace(t[0]) then SkipSpace(t[1..])
    else if t[0] == SEMICOLON then SkipSpace(SkipLine(t[1..]))
    else t
  }

  // ---------------------------------------------------------------- atoms

  function HexValue(c: Byte): (h: int)
    ensures -1 <= h < 16
  {
    if IsDigit(c) then c - ZERO
    else if 97 <= c <= 102 then c - 87
    else if 65 <= c <= 70 then c - 55
    else -1
  }

  // The byte an escape stands for; `t` starts after the backslash.
  function ReadEscape(t: Bytes): (s: Scan<Byte>)
    ensures s.Scanned? ==> |s.rest| < |t|
  {
    if t == [] then Bad(ReadTruncated)
    else if t[0] == LETTER_N then Scanned(NEWLINE, t[1..])
    else if t[0] == LETTER_T then Scanned(TAB, t[1..])
    else if t[0] == LETTER_R then Scanned(RETURN, t[1..])
    else if t[0] == ZERO then Scanned(0, t[1..])
    else if t[0] == DOUBLE_QUOTE then Scanned(DOUBLE_QUOTE, t[1..])
    else if t[0] == BACKSLASH then Scanned(BACKSLASH, t[1..])
    else if t[0] == LETTER_X && |t| >= 3 && HexValue(t[1]) >= 0 && HexValue(t[2]) >= 0 then
      Scanned(HexValue(t[1]) * 16 + HexValue(t[2]), t[3..])
    else Bad(ReadSyntax)
  }

  // The next byte of a string literal, escaped or not; `t` does not start at the closing quote.
  function ReadChar(t: Bytes): (s: Scan<Byte>)
    ensures s.Scanned? ==> |s.rest| < |t|
  {
    if t == [] then Bad(ReadTruncated)
    else if t[0] == BACKSLASH then ReadEscape(t[1..])
    else Scanned(t[0], t[1..])
  }

  // A string literal's bytes, the first ones being `bytes` already; `t` starts after them.
  function ReadString(t: Bytes, bytes: Bytes): (r: Reading)
    ensures r.Read? ==> r.d.Str? && |r.rest| < |t|
    ensures !r.AtEnd?
    decreases |t|
  {
    if t != [] && t[0] == DOUBLE_QUOTE then Read(Str(bytes), t[1..])
    else
      var c := ReadChar(t);
      if c.Bad? then Failed(c.st) else ReadString(c.rest, bytes + [c.value])
  }

  // `t` starts after the hash sign.
  function ReadHash(t: Bytes): (r: Reading)
    ensures r.Read? ==> |r.rest| < |t|
  {
    if t != [] && t[0] == LETTER_T && Terminated(t[1..]) then Read(True, t[1..])
    else if t != [] && t[0] == LETTER_F && Terminated(t[1..]) then Read(False, t[1..])
    else Failed(ReadSyntax)
  }

  // Digits are accumulated in 64 bits; overflow ends the scan.
  function ScanDigits(t: Bytes, value: int): (s: Scan<int>)
    ensures s.Scanned? ==> |s.rest| <= |t| && (t != [] && IsDigit(t[0]) ==> |s.rest| < |t|)
    ensures s.Bad? ==> s.st == Overflow
    decreases |t|
  {
    if t == [] || !IsDigit(t[0]) then Scanned(value, t)
    else if !FitsInt64(value * 10) || !FitsInt64(value * 10 + (t[0] - ZERO)) then Bad(Overflow)
    else ScanDigits(t[1..], value * 10 + (t[0] - ZERO))
  }

  // `t` starts after the sign.
  function ReadNumber(t: Bytes, negative: bool): (r: Reading)
    ensures r.Read? ==> r.d.Fix? && |r.rest| < |t|
    ensures !r.AtEnd?
  {
    if t == [] || !IsDigit(t[0]) then Failed(ReadSyntax)
    else
      var s := ScanDigits(t, 0);
      if s.Bad? then Failed(s.st)
      else if !Terminated(s.rest) then Failed(ReadSyntax)
      else
        var n := if negative then -s.value else s.value;
        if FitsFixnum(n) then Read(Fix(n), s.rest) else Failed(Overflow)
  }

  // How far the token at the start of `t` reaches.
  function TokenLength(t: Bytes): (n: nat)
    ensures n <= |t| && Terminated(t[n..])
    ensures forall i | 0 <= i < n :: !IsTerminator(t[i])
  {
    if Terminated(t) then 0 else 1 + TokenLength(t[1..])
  }

  function ReadSymbol(t: Bytes): (r: Reading) {
    var n := TokenLength(t);
    Read(Sym(t[..n]), t[n..])
  }

  // A form that is neither a list nor a quotation; `t` starts at its first byte.
  function ReadAtom(t: Bytes): (r: Reading)
    requires t != [] && (IsTerminator(t[0]) ==> t[0] == DOUBLE_QUOTE)
    ensures r.Read? ==> |r.rest| < |t| && !r.d.Pair?
    ensures !r.AtEnd?
  {
    if t[0] == DOUBLE_QUOTE then ReadString(t[1..], [])
    else if t[0] == HASH then ReadHash(t[1..])
    else if IsDigit(t[0]) then ReadNumber(t, false)
    else if (t[0] == PLUS || t[0] == MINUS) && |t| > 1 && IsDigit(t[1]) then ReadNumber(t[1..], t[0] == MINUS)
    else ReadSymbol(t)
  }

  // ---------------------------------------------------------------- forms

  function Quoted(d: Datum): Datum {
    Pair(Sym(QUOTE_NAME), Pair(d, Nil))
  }

  // One form.  `depth` counts the open parentheses, of which `max` are allowed.
  function ReadForm(t: Bytes, depth: nat, max: nat): (r: Reading)
    ensures r.Read? ==> |r.rest| < |t|
    ensures r.AtEnd? <==> SkipSpace(t) == []
    decreases |t|, 0
  {
    var u := SkipSpace(t);
    if u == [] then AtEnd
    else if u[0] == LPAREN then ReadList(u[1..], depth, max)
    else if u[0] == RPAREN then Failed(ReadSyntax)
    else if u[0] == QUOTE_MARK then ReadQuote(u[1..], depth, max)
    else ReadAtom(u)
  }

  function ReadQuote(t: Bytes, depth: nat, max: nat): (r: Reading)
    ensures r.Read? ==> |r.rest| < |t|
    ensures !r.AtEnd?
    decreases |t|, 1
  {
    var form := ReadForm(t, depth, max);
    if form.Failed? then form
    else if form.AtEnd? then Failed(ReadTruncated)
    else Read(Quoted(form.d), form.rest)
  }

  function ReadList(t: Bytes, depth: nat, max: nat): (r: Reading)
    ensures r.Read? ==> |r.rest| < |t|
    ensures !r.AtEnd?
    decreases |t|, 2
  {
    if depth >= max then Failed(ReadDepth) else ReadItems(t, true, depth + 1, max)
  }

  // The rest of a list; `first` while it has no element yet.
  function ReadItems(t: Bytes, first: bool, depth: nat, max: nat): (r: Reading)
    ensures r.Read? ==> |r.rest| < |t|
    ensures !r.AtEnd?
    decreases |t|, 1
  {
    var u := SkipSpace(t);
    if u == [] then Failed(ReadTruncated)
    else if u[0] == RPAREN then Read(Nil, u[1..])
    else if u[0] == DOT && |u| > 1 && IsTerminator(u[1]) then
      if first then Failed(ReadSyntax) else ReadDotted(u[1..], depth, max)
    else
      var element := ReadForm(t, depth, max);
      if element.Failed? then element
      else
        var others := ReadItems(element.rest, false, depth, max);
        if others.Failed? then others
        else Read(Pair(element.d, others.d), others.rest)
  }

  // What follows a dot: one form and the closing parenthesis.
  function ReadDotted(t: Bytes, depth: nat, max: nat): (r: Reading)
    ensures r.Read? ==> |r.rest| < |t|
    ensures !r.AtEnd?
    decreases |t|, 1
  {
    var form := ReadForm(t, depth, max);
    if form.Failed? then form
    else if form.AtEnd? then Failed(ReadSyntax)
    else Closed(form.d, form.rest)
  }

  // The closing parenthesis, after which `d` is the result.
  function Closed(d: Datum, t: Bytes): (r: Reading)
    ensures r.Read? ==> r.d == d && |r.rest| < |t|
    ensures r.Failed? ==> r.st == ReadSyntax
    ensures !r.AtEnd?
  {
    var u := SkipSpace(t);
    if u == [] || u[0] != RPAREN then Failed(ReadSyntax) else Read(d, u[1..])
  }

  // Skipping blanks first changes nothing.
  lemma SkipFirst(t: Bytes, depth: nat, max: nat)
    ensures SkipSpace(SkipSpace(t)) == SkipSpace(t)
    ensures ReadForm(SkipSpace(t), depth, max) == ReadForm(t, depth, max)
    ensures forall first :: ReadItems(SkipSpace(t), first, depth, max) == ReadItems(t, first, depth, max)
  {
  }
}
