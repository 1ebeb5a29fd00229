/** What the lexer reads, on the whole text: which token comes next at a
    position, and which line and column a position has. */
module LexSpec {
  import opened Chars

  /** The characters that the lexer is for. */
  predicate Plain(text: string) {
    forall i :: 0 <= i < |text| ==> 0 < text[i] as int < 128
  }

  /** How far ahead of the current position the lexer can look. */
  const WINDOW: nat := 256

  datatype Peeked = Char(c: char) | Eof | Overflow

  function PeekAt(text: string, pos: nat, k: nat): (r: Peeked) {
    if k >= WINDOW then Overflow
    else if pos + k < |text| then Char(text[pos + k])
    else Eof
  }

  datatype Kind = Alnum | Hex | Literal | Number | Symbol
  datatype Fault = InvalidHex | UnterminatedLiteral

  /** What reading a token gives, and the position after it.  A literal that is
      not closed within the window is not read. */
  datatype Lexed =
    | Token(kind: Kind, str: string, next: nat)
    | End(next: nat)
    | Error(fault: Fault, next: nat)
    | TooLong

  predicate InLiteral(c: char) { c != '"' }

  /** Whether the character `k` ahead is there and of some sort. */
  predicate Ahead(text: string, pos: nat, k: nat, p: char -> bool) {
    PeekAt(text, pos, k).Char? && p(PeekAt(text, pos, k).c)
  }

  predicate AheadIs(text: string, pos: nat, k: nat, c: char) {
    PeekAt(text, pos, k) == Char(c)
  }

  /** How far characters of some sort go on, from `k` ahead. */
  function Run(text: string, pos: nat, k: nat, p: char -> bool): (e: nat)
    ensures k <= e && (k <= WINDOW ==> e <= WINDOW)
    ensures k < e ==> pos + e <= |text|
    ensures forall i :: k <= i < e ==> Ahead(text, pos, i, p)
    ensures !Ahead(text, pos, e, p)
    decreases WINDOW - k
  {
    if Ahead(text, pos, k, p) then Run(text, pos, k + 1, p) else k
  }

  /** The position of the end of the line. */
  function LineEnd(text: string, pos: nat): (e: nat)
    requires pos <= |text|
    ensures pos <= e <= |text|
    decreases |text| - pos
  {
    if pos < |text| && text[pos] != '\n' then LineEnd(text, pos + 1) else pos
  }

  /** The position of the next token, after blanks, comments and line ends. */
  function SkipBlank(text: string, pos: nat): (e: nat)
    requires pos <= |text|
    ensures pos <= e <= |text|
    decreases |text| - pos
  {
    if pos == |text| then pos
    else if text[pos] == ' ' || text[pos] == '\t' || text[pos] == '\n' then SkipBlank(text, pos + 1)
    else if text[pos] == '#' then SkipBlank(text, LineEnd(text, pos + 1))
    else pos
  }

  /** Digits, if there are any. */
  function Digits(text: string, pos: nat, k: nat): (e: nat)
    ensures k <= e
  {
    if Ahead(text, pos, k, IsDigit) then Run(text, pos, k + 1, IsDigit) else k
  }

  /** A sign, digits, a point and digits; a number if there are digits at all. */
  function Mantissa(text: string, pos: nat): (r: (bool, nat))
  {
    var i0 := if AheadIs(text, pos, 0, '-') || AheadIs(text, pos, 0, '+') then 1 else 0;
    var i1 := Digits(text, pos, i0);
    var i2 := if AheadIs(text, pos, i1, '.') then i1 + 1 else i1;
    var i3 := Digits(text, pos, i2);
    (i0 < i1 || i2 < i3, i3)
  }

  /** An exponent, if there is a whole one. */
  function Exponent(text: string, pos: nat, i: nat): (r: nat) {
    if AheadIs(text, pos, i, 'e') || AheadIs(text, pos, i, 'E') then
      var j := if AheadIs(text, pos, i + 1, '+') || AheadIs(text, pos, i + 1, '-') then i + 2 else i + 1;
      if Ahead(text, pos, j, IsDigit) then Run(text, pos, j, IsDigit) else i
    else i
  }

  function Taken(kind: Kind, text: string, pos: nat, len: nat): (r: Lexed)
    requires pos + len <= |text|
  {
    Token(kind, text[pos..pos + len], pos + len)
  }

  /** The literal after an opening quote. */
  function LiteralAt(text: string, pos: nat): (l: Lexed)
    requires pos <= |text|
    ensures !l.TooLong? ==> pos <= l.next <= |text|
  {
    var len := Run(text, pos, 0, InLiteral);
    if PeekAt(text, pos, len) == Eof then Error(UnterminatedLiteral, pos)
    else if len == WINDOW then TooLong
    else Token(Literal, text[pos..pos + len], pos + len + 1)
  }

  /** The token that starts with a zero and an x. */
  function HexAt(text: string, pos: nat): (l: Lexed)
    requires pos + 2 <= |text|
    ensures !l.TooLong? ==> pos < l.next <= |text|
  {
    if Ahead(text, pos, 2, IsHexDigit) then Taken(Hex, text, pos, Run(text, pos, 3, IsHexDigit))
    else Error(InvalidHex, pos + 2)
  }

  /** The token that starts at a position. */
  function TokenAt(text: string, pos: nat): (l: Lexed)
    requires pos < |text|
    ensures !l.TooLong? ==> pos < l.next <= |text|
  {
    var c := text[pos];
    if c == '_' || IsLetter(c) then Taken(Alnum, text, pos, Run(text, pos, 1, IsIdent))
    else if c == '"' then LiteralAt(text, pos + 1)
    else if c == '0' && AheadIs(text, pos, 1, 'x') then HexAt(text, pos)
    else
      var m := Mantissa(text, pos);
      if m.0 then Taken(Number, text, pos, Exponent(text, pos, m.1)) else Taken(Symbol, text, pos, 1)
  }

  /** The next token from a position on. */
  function Lex(text: string, pos: nat): (l: Lexed)
    requires pos <= |text|
    ensures !l.TooLong? ==> pos <= l.next <= |text| && (l.Token? ==> pos < l.next)
  {
    var start := SkipBlank(text, pos);
    if start == |text| then End(start) else TokenAt(text, start)
  }

  // ----- Lines and columns -----

  /** The line of the position after a text. */
  function Line(s: string): (r: nat) {
    if s == [] then 1 else Line(s[..|s| - 1]) + if s[|s| - 1] == '\n' then 1 else 0
  }

  /** The column of the position after a text. */
  function Column(s: string): (r: nat) {
    if s == [] then 1
    else if s[|s| - 1] == '\n' then 1
    else Column(s[..|s| - 1]) + 1
  }

  /** The line is one more than the number of newlines before the position. */
  lemma {:induction false} LineCounts(s: string)
    ensures Line(s) == 1 + multiset(s)['\n']
  {
    if s != [] {
      LineCounts(s[..|s| - 1]);
      assert s == s[..|s| - 1] + [s[|s| - 1]];
    }
  }

  /** The column counts the characters from the last newline on. */
  lemma {:induction false} ColumnCounts(s: string, k: nat)
    requires k <= |s| && (k > 0 ==> s[k - 1] == '\n') && '\n' !in s[k..]
    ensures Column(s) == 1 + |s| - k
  {
    if k < |s| {
      var t := s[..|s| - 1];
      assert s[k..][|s| - 1 - k] == s[|s| - 1];
      assert t[k..] == s[k..|s| - 1] && s[k..] == t[k..] + [s[|s| - 1]];
      ColumnCounts(t, k);
    }
  }
}
