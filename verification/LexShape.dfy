/** Tokens by their characters alone: which text makes each sort of token, and
    where the next token of a text starts. */
module LexShape {
  import opened Chars
  import opened LexSpec

  // ----- Forms of text -----

  predicate AllDigits(s: string, from: nat, to: nat)
    requires to <= |s|
  {
    forall j :: from <= j < to ==> IsDigit(s[j])
  }

  predicate IsWord(s: string) {
    s != "" && (s[0] == '_' || IsLetter(s[0])) && forall i :: 0 <= i < |s| ==> IsIdent(s[i])
  }

  /** A zero, an x and at least one hexadecimal digit. */
  predicate IsHex(s: string) {
    |s| > 2 && s[0] == '0' && s[1] == 'x' && forall i :: 2 <= i < |s| ==> IsHexDigit(s[i])
  }

  /** An e, a sign or none, and at least one digit. */
  predicate IsExponent(s: string, d: nat)
    requires d < |s|
  {
    var f := if d + 1 < |s| && IsSign(s[d + 1]) then d + 2 else d + 1;
    (s[d] == 'e' || s[d] == 'E') && f < |s| && AllDigits(s, f, |s|)
  }

  /** A sign up to `a`, digits up to `b`, a point up to `c` and digits up to `d`,
      each of them optional but for one digit, and an exponent or nothing. */
  predicate HasCuts(s: string, a: nat, b: nat, c: nat, d: nat) {
    && a <= 1 && a <= b <= c <= d <= |s|
    && (a == 1 ==> IsSign(s[0]))
    && AllDigits(s, a, b)
    && (c == b || (c == b + 1 && s[b] == '.'))
    && AllDigits(s, c, d)
    && (a < b || c < d)
    && (d < |s| ==> IsExponent(s, d))
  }

  ghost predicate IsNumber(s: string) {
    exists a, b, c, d :: HasCuts(s, a, b, c, d)
  }

  /** What the lexer can see from a position. */
  function Window(text: string, pos: nat): (w: string)
    requires pos <= |text|
  {
    text[pos..if |text| - pos < WINDOW then |text| else pos + WINDOW]
  }

  predicate Longest(w: string, s: string, form: string -> bool) {
    s <= w && form(s) && forall n :: |s| < n <= |w| ==> !form(w[..n])
  }

  predicate None(w: string, form: string -> bool) {
    forall n :: 0 <= n <= |w| ==> !form(w[..n])
  }

  /** What a token is at its position. */
  ghost predicate IsTokenAt(text: string, pos: nat, l: Lexed)
    requires pos < |text|
  {
    var w := Window(text, pos);
    match l
    case Token(Alnum, str, next) => Longest(w, str, IsWord) && next == pos + |str|
    case Token(Hex, str, next) => Longest(w, str, IsHex) && next == pos + |str|
    case Token(Number, str, next) => !("0x" <= w) && Longest(w, str, IsNumber) && next == pos + |str|
    case Token(Literal, str, next) =>
      |str| < WINDOW && '"' !in str && next == pos + |str| + 2 <= |text| && text[pos..next] == "\"" + str + "\""
    case Token(Symbol, str, next) =>
      && str == [text[pos]] && next == pos + 1
      && text[pos] != '"' && !IsWord(str) && !("0x" <= w) && None(w, IsNumber)
    case Error(InvalidHex, next) => next == pos + 2 && "0x" <= w && None(w, IsHex)
    case Error(UnterminatedLiteral, next) =>
      text[pos] == '"' && next == pos + 1 && '"' !in text[next..] && |text| < next + WINDOW
    case TooLong => text[pos] == '"' && pos + 1 + WINDOW <= |text| && '"' !in text[pos + 1..pos + 1 + WINDOW]
    case End(_) => false
  }

  predicate IsSpace(c: char) { c == ' ' || c == '\t' || c == '\n' }

  /** Behind a number sign of its line. */
  ghost predicate InComment(text: string, pos: nat, k: nat) {
    exists h :: pos <= h <= k < |text| && text[h] == '#' && '\n' !in text[h..k + 1]
  }

  ghost predicate IsSkipped(text: string, pos: nat, k: nat)
    requires k < |text|
  {
    IsSpace(text[k]) || InComment(text, pos, k)
  }

  /** The first position that is neither white space nor in a comment. */
  ghost predicate IsStart(text: string, pos: nat, start: nat) {
    && pos <= start <= |text|
    && (forall k :: pos <= k < start ==> IsSkipped(text, pos, k))
    && (start < |text| ==> !IsSkipped(text, pos, start))
  }

  /** The next token of a text. */
  ghost predicate IsNext(text: string, pos: nat, l: Lexed) {
    exists start: nat ::
      IsStart(text, pos, start) && if start < |text| then IsTokenAt(text, start, l) else l == End(start)
  }

  // ----- The window -----

  lemma Seen(text: string, pos: nat)
    requires pos <= |text|
    ensures forall k: nat :: PeekAt(text, pos, k).Char? <==> k < |Window(text, pos)|
    ensures forall k: nat :: k < |Window(text, pos)| ==> PeekAt(text, pos, k).c == Window(text, pos)[k]
  {
  }

  /** A run ends at the first character of another sort. */
  lemma RunMeans(text: string, pos: nat, k: nat, p: char -> bool)
    requires pos <= |text| && k <= |Window(text, pos)|
    ensures
      var w, e := Window(text, pos), Run(text, pos, k, p);
      k <= e <= |w| && (forall i :: k <= i < e ==> p(w[i])) && (e < |w| ==> !p(w[e]))
  {
    hide Run, Window, PeekAt;
    var w, e := Window(text, pos), Run(text, pos, k, p);
    Seen(text, pos);
    if e > k { assert Ahead(text, pos, e - 1, p); }
    forall i | k <= i < e ensures i < |w| && p(w[i]) { assert Ahead(text, pos, i, p); }
    assert !Ahead(text, pos, e, p);
  }

  lemma TakenIs(text: string, pos: nat, len: nat)
    requires pos <= |text| && len <= |Window(text, pos)|
    ensures pos + len <= |text| && text[pos..pos + len] == Window(text, pos)[..len]
  {
  }

  /** When a form holds of a start exactly if all from `k` on are of some sort, the run is the longest one. */
  lemma RunIsLongest(text: string, pos: nat, k: nat, p: char -> bool, form: string -> bool, s: string)
    requires pos <= |text| && k <= |Window(text, pos)|
    requires forall n :: 0 <= n <= |Window(text, pos)| ==>
      (form(Window(text, pos)[..n]) <==> n >= k && forall i :: k <= i < n ==> p(Window(text, pos)[i]))
    ensures Longest(Window(text, pos), s, form) <==> s == Window(text, pos)[..Run(text, pos, k, p)]
  {
    hide Run, Window;
    var w, e := Window(text, pos), Run(text, pos, k, p);
    RunMeans(text, pos, k, p);
    assert form(w[..e]);
    if Longest(w, s, form) {
      assert s == w[..|s|];
    }
    if s == w[..e] {
      forall n | e < n <= |w| ensures !form(w[..n]) { assert !p(w[e]); }
    }
  }

  lemma LongestForm(w: string, s: string, form: string -> bool)
    ensures Longest(w, s, form) ==> form(s) && |s| <= |w| && s == w[..|s|]
  {
  }

  lemma AlnumExactly(text: string, pos: nat, str: string, next: nat)
    requires pos < |text|
    ensures TokenAt(text, pos) == Token(Alnum, str, next) <==> IsTokenAt(text, pos, Token(Alnum, str, next))
  {
    hide Run, Mantissa, Exponent, Longest;
    var w := Window(text, pos);
    assert w[0] == text[pos];
    LongestForm(w, str, IsWord);
    if text[pos] == '_' || IsLetter(text[pos]) {
      RunIsLongest(text, pos, 1, IsIdent, IsWord, str);
      RunMeans(text, pos, 1, IsIdent);
      TakenIs(text, pos, Run(text, pos, 1, IsIdent));
    }
  }

  /** A zero and an x are seen at a position. */
  lemma HexStart(text: string, pos: nat)
    requires pos < |text|
    ensures "0x" <= Window(text, pos) <==> text[pos] == '0' && AheadIs(text, pos, 1, 'x')
  {
    var w := Window(text, pos);
    assert w[0] == text[pos];
    Seen(text, pos);
    if |w| >= 2 { assert w[..2] == [w[0], w[1]]; }
  }

  lemma NoHex(w: string)
    ensures None(w, IsHex) <==> !("0x" <= w && |w| > 2 && IsHexDigit(w[2]))
  {
    if None(w, IsHex) && |w| > 2 {
      assert w[..3] == [w[0], w[1], w[2]];
      assert !IsHex(w[..3]);
    }
    if "0x" <= w { assert w[0] == "0x"[0] && w[1] == "0x"[1]; }
  }

  lemma HexForm(w: string, n: nat)
    requires "0x" <= w && |w| > 2 && IsHexDigit(w[2]) && n <= |w|
    ensures IsHex(w[..n]) <==> n >= 3 && forall i :: 3 <= i < n ==> IsHexDigit(w[i])
  {
    assert w[0] == "0x"[0] && w[1] == "0x"[1];
    if IsHex(w[..n]) {
      forall i | 3 <= i < n ensures IsHexDigit(w[i]) { assert w[..n][i] == w[i]; }
    }
  }

  lemma HexExactly(text: string, pos: nat, str: string, next: nat)
    requires pos < |text|
    ensures TokenAt(text, pos) == Token(Hex, str, next) <==> IsTokenAt(text, pos, Token(Hex, str, next))
    ensures TokenAt(text, pos) == Error(InvalidHex, next) <==> IsTokenAt(text, pos, Error(InvalidHex, next))
  {
    hide Run, Mantissa, Exponent, Longest, None, IsHex, Window;
    var w := Window(text, pos);
    Seen(text, pos);
    HexStart(text, pos);
    NoHex(w);
    LongestForm(w, str, IsHex);
    if "0x" <= w && |w| > 2 && IsHexDigit(w[2]) {
      forall n | 0 <= n <= |w| ensures IsHex(w[..n]) <==> n >= 3 && forall i :: 3 <= i < n ==> IsHexDigit(w[i]) {
        HexForm(w, n);
      }
      RunIsLongest(text, pos, 3, IsHexDigit, IsHex, str);
      RunMeans(text, pos, 3, IsHexDigit);
      TakenIs(text, pos, Run(text, pos, 3, IsHexDigit));
    } else if Longest(w, str, IsHex) {
      HexPrefix(w, |str|);
    }
  }

  lemma HexPrefix(w: string, n: nat)
    requires n <= |w| && IsHex(w[..n])
    ensures "0x" <= w && |w| > 2 && IsHexDigit(w[2])
  {
    assert w[..2] == [w[..n][0], w[..n][1]];
  }

  /** The run of a literal ends at the first quote, or where nothing more can be seen. */
  lemma LiteralRun(text: string, pos: nat)
    requires pos <= |text|
    ensures
      var len := Run(text, pos, 0, InLiteral);
      && len <= WINDOW && pos + len <= |text| && '"' !in text[pos..pos + len]
      && (len < WINDOW && pos + len < |text| ==> text[pos + len] == '"')
  {
    hide Run;
    RunMeans(text, pos, 0, InLiteral);
    var w, len := Window(text, pos), Run(text, pos, 0, InLiteral);
    assert forall i :: 0 <= i < |w| ==> w[i] == text[pos + i];
  }

  lemma QuoteIn(text: string, pos: nat, len: nat, n: nat)
    requires pos + len <= |text| && pos + n < |text| && text[pos + n] == '"'
    ensures n < len ==> '"' in text[pos..pos + len]
  {
    if n < len { assert text[pos..pos + len][n] == '"'; }
  }

  /** There is only one place where a text without quotes ends. */
  lemma QuoteAt(text: string, pos: nat, len: nat, n: nat)
    requires pos + len <= |text| && pos + n <= |text|
    requires '"' !in text[pos..pos + len] && '"' !in text[pos..pos + n]
    requires pos + n < |text| && text[pos + n] == '"'
    ensures len <= n
  {
    QuoteIn(text, pos, len, n);
  }

  lemma QuotedText(text: string, pos: nat, str: string)
    requires pos + |str| + 2 <= |text|
    ensures text[pos..pos + |str| + 2] == "\"" + str + "\"" <==>
      text[pos] == '"' && text[pos + 1..pos + 1 + |str|] == str && text[pos + 1 + |str|] == '"'
  {
    var t := text[pos..pos + |str| + 2];
    assert forall i :: 0 <= i < |t| ==> t[i] == text[pos + i];
    assert t[1..|str| + 1] == text[pos + 1..pos + 1 + |str|];
    var q := "\"" + str + "\"";
    assert q[0] == '"' && q[1..|str| + 1] == str && q[|str| + 1] == '"';
    assert t == [t[0]] + t[1..|str| + 1] + [t[|str| + 1]];
  }

  lemma LiteralExactly(text: string, pos: nat, str: string, next: nat)
    requires pos < |text|
    ensures TokenAt(text, pos) == Token(Literal, str, next) <==> IsTokenAt(text, pos, Token(Literal, str, next))
  {
    hide Run, Mantissa, Exponent, HexAt;
    OnlyAtQuote(text, pos);
    if text[pos] == '"' {
      LiteralRun(text, pos + 1);
      if next == pos + |str| + 2 <= |text| { QuotedText(text, pos, str); }
      if IsTokenAt(text, pos, Token(Literal, str, next)) {
        var len := Run(text, pos + 1, 0, InLiteral);
        QuoteAt(text, pos + 1, len, |str|);
        assert len < WINDOW;
        QuoteAt(text, pos + 1, |str|, len);
      }
    } else if next == pos + |str| + 2 <= |text| {
      QuotedText(text, pos, str);
    }
  }

  /** Only a quote starts a literal, or fails to. */
  lemma OnlyAtQuote(text: string, pos: nat)
    requires pos < |text|
    ensures
      var l := TokenAt(text, pos);
      text[pos] == '"' <==>
        l.TooLong? || (l.Token? && l.kind == Literal) || (l.Error? && l.fault == UnterminatedLiteral)
  {
    hide Run, Mantissa, Exponent;
  }

  lemma UnterminatedExactly(text: string, pos: nat, next: nat)
    requires pos < |text|
    ensures TokenAt(text, pos) == Error(UnterminatedLiteral, next) <==>
      IsTokenAt(text, pos, Error(UnterminatedLiteral, next))
    ensures TokenAt(text, pos) == TooLong <==> IsTokenAt(text, pos, TooLong)
  {
    hide Run, Mantissa, Exponent, HexAt;
    OnlyAtQuote(text, pos);
    if text[pos] == '"' {
      LiteralRun(text, pos + 1);
      var len := Run(text, pos + 1, 0, InLiteral);
      assert text[pos + 1..] == text[pos + 1..|text|];
      if len < WINDOW && pos + 1 + len < |text| {
        assert text[pos + 1..][len] == '"';
        if pos + 1 + WINDOW <= |text| { assert text[pos + 1..pos + 1 + WINDOW][len] == '"'; }
      }
    }
  }

  // ----- Numbers -----

  /** Digits go on as far as possible. */
  lemma DigitsMean(text: string, pos: nat, k: nat)
    requires pos <= |text| && k <= |Window(text, pos)|
    ensures
      var w, e := Window(text, pos), Digits(text, pos, k);
      k <= e <= |w| && AllDigits(w, k, e) && (e < |w| ==> !IsDigit(w[e]))
  {
    hide Run, Window, PeekAt;
    Seen(text, pos);
    if k < |Window(text, pos)| { RunMeans(text, pos, k + 1, IsDigit); }
  }

  /** The sign, the digits, the point and the digits that are read. */
  lemma MantissaMeans(text: string, pos: nat) returns (a: nat, b: nat, c: nat)
    requires pos < |text|
    ensures
      var w, d := Window(text, pos), Mantissa(text, pos).1;
      && a <= 1 && a <= b <= c <= d <= |w| && w != ""
      && (a == 1 <==> IsSign(w[0]))
      && AllDigits(w, a, b) && (b < |w| ==> !IsDigit(w[b]))
      && c == (if b < |w| && w[b] == '.' then b + 1 else b)
      && AllDigits(w, c, d) && (d < |w| ==> !IsDigit(w[d]))
      && (Mantissa(text, pos).0 <==> a < b || c < d)
  {
    hide Run, PeekAt, Digits;
    var w := Window(text, pos);
    Seen(text, pos);
    a := if IsSign(w[0]) then 1 else 0;
    DigitsMean(text, pos, a);
    b := Digits(text, pos, a);
    c := if b < |w| && w[b] == '.' then b + 1 else b;
    DigitsMean(text, pos, c);
  }

  /** Where an exponent's digits start, if it has any. */
  function ExponentDigits(w: string, d: nat): (f: nat) {
    if d + 1 < |w| && IsSign(w[d + 1]) then d + 2 else d + 1
  }

  /** A whole exponent, as far as its digits go, or nothing. */
  lemma ExponentMeans(text: string, pos: nat, d: nat)
    requires pos <= |text| && d <= |Window(text, pos)|
    ensures
      var w, e := Window(text, pos), Exponent(text, pos, d);
      var f := ExponentDigits(w, d);
      if d < |w| && (w[d] == 'e' || w[d] == 'E') && f < |w| && IsDigit(w[f])
      then f < e <= |w| && AllDigits(w, f, e) && (e < |w| ==> !IsDigit(w[e]))
      else e == d
  {
    hide Run, Window, PeekAt;
    var w := Window(text, pos);
    Seen(text, pos);
    var f := ExponentDigits(w, d);
    if f < |w| { RunMeans(text, pos, f, IsDigit); }
  }

  /** How many characters from a position on make a number, if any do. */
  ghost function NumberLength(text: string, pos: nat): (n: nat) {
    Exponent(text, pos, Mantissa(text, pos).1)
  }

  lemma CutsOfStart(w: string, n: nat, a: nat, b: nat, c: nat, d: nat)
    requires d <= n <= |w| && a <= 1 && a <= b <= c <= d && (a == 1 ==> IsSign(w[0]))
    requires AllDigits(w, a, b) && (c == b || (c == b + 1 && w[b] == '.')) && AllDigits(w, c, d) && (a < b || c < d)
    requires d < n ==> IsExponent(w[..n], d)
    ensures IsNumber(w[..n])
  {
    assert HasCuts(w[..n], a, b, c, d);
  }

  lemma NumberIsOne(text: string, pos: nat)
    requires pos < |text| && Mantissa(text, pos).0
    ensures NumberLength(text, pos) <= |Window(text, pos)| && IsNumber(Window(text, pos)[..NumberLength(text, pos)])
  {
    hide Run, Window, Mantissa, Exponent, IsNumber;
    var w, d, n := Window(text, pos), Mantissa(text, pos).1, NumberLength(text, pos);
    var a, b, c := MantissaMeans(text, pos);
    ExponentMeans(text, pos, d);
    CutsOfStart(w, n, a, b, c, d);
  }

  /** No longer start of the window is a number. */
  lemma NumberIsLongest(text: string, pos: nat, n: nat)
    requires pos < |text| && n <= |Window(text, pos)| && IsNumber(Window(text, pos)[..n])
    ensures Mantissa(text, pos).0 && n <= NumberLength(text, pos)
  {
    hide Run, Window, Mantissa, Exponent;
    var w, d, s := Window(text, pos), Mantissa(text, pos).1, Window(text, pos)[..n];
    var a, b, c := MantissaMeans(text, pos);
    ExponentMeans(text, pos, d);
    assert forall k :: 0 <= k < n ==> s[k] == w[k];
    var a', b', c', d' :| HasCuts(s, a', b', c', d');
    SameMantissa(w, n, a, b, c, d, a', b', c', d');
  }

  lemma SameMantissa(w: string, n: nat, a: nat, b: nat, c: nat, d: nat, a': nat, b': nat, c': nat, d': nat)
    requires n <= |w| && HasCuts(w[..n], a', b', c', d')
    requires a <= 1 && a <= b <= c <= d <= |w| && w != "" && (a == 1 <==> IsSign(w[0]))
    requires AllDigits(w, a, b) && (b < |w| ==> !IsDigit(w[b]))
    requires c == (if b < |w| && w[b] == '.' then b + 1 else b)
    requires AllDigits(w, c, d) && (d < |w| ==> !IsDigit(w[d]))
    ensures (a < b || c < d) && d' <= d && (d' < n ==> d' == d)
  {
  }

  lemma NumberStarts(w: string, n: nat)
    requires n <= |w| && IsNumber(w[..n])
    ensures w != "" && (IsSign(w[0]) || IsDigit(w[0]) || w[0] == '.')
  {
    var a, b, c, d :| HasCuts(w[..n], a, b, c, d);
    assert w[..n][0] == w[0];
  }

  /** The longest number is as long as the one that is read. */
  lemma LongestNumber(text: string, pos: nat, s: string)
    requires pos < |text|
    ensures
      var w := Window(text, pos);
      Longest(w, s, IsNumber) <==>
        Mantissa(text, pos).0 && NumberLength(text, pos) <= |w| && s == w[..NumberLength(text, pos)]
  {
    hide Window, Mantissa, Exponent, IsNumber, NumberLength;
    var w, n := Window(text, pos), NumberLength(text, pos);
    if Mantissa(text, pos).0 {
      NumberIsOne(text, pos);
      forall m | n < m <= |w| ensures !IsNumber(w[..m]) {
        if IsNumber(w[..m]) { NumberIsLongest(text, pos, m); }
      }
    }
    if Longest(w, s, IsNumber) {
      assert s == w[..|s|];
      NumberIsLongest(text, pos, |s|);
    }
  }

  lemma NoNumber(text: string, pos: nat)
    requires pos < |text|
    ensures None(Window(text, pos), IsNumber) <==> !Mantissa(text, pos).0
  {
    hide Window, Mantissa, Exponent, IsNumber, NumberLength;
    var w := Window(text, pos);
    if Mantissa(text, pos).0 { NumberIsOne(text, pos); }
    forall n | 0 <= n <= |w| && IsNumber(w[..n]) ensures Mantissa(text, pos).0 { NumberIsLongest(text, pos, n); }
  }

  lemma NumberExactly(text: string, pos: nat, str: string, next: nat)
    requires pos < |text|
    ensures TokenAt(text, pos) == Token(Number, str, next) <==> IsTokenAt(text, pos, Token(Number, str, next))
  {
    hide Run, Mantissa, Exponent, Longest, IsNumber, PeekAt;
    var w := Window(text, pos);
    assert w[0] == text[pos];
    HexStart(text, pos);
    LongestNumber(text, pos, str);
    if Mantissa(text, pos).0 {
      NumberIsOne(text, pos);
      NumberStarts(w, NumberLength(text, pos));
      TakenIs(text, pos, NumberLength(text, pos));
    }
  }

  lemma SymbolExactly(text: string, pos: nat, str: string, next: nat)
    requires pos < |text|
    ensures TokenAt(text, pos) == Token(Symbol, str, next) <==> IsTokenAt(text, pos, Token(Symbol, str, next))
  {
    hide Run, Mantissa, Exponent, None, IsNumber, PeekAt;
    HexStart(text, pos);
    NoNumber(text, pos);
    assert text[pos..pos + 1] == [text[pos]];
  }

  /** The token that is read at a position is what its characters say, and nothing else is. */
  lemma TokenExactly(text: string, pos: nat, l: Lexed)
    requires pos < |text|
    ensures TokenAt(text, pos) == l <==> IsTokenAt(text, pos, l)
  {
    hide TokenAt, IsTokenAt;
    match l
    case Token(Alnum, str, next) => AlnumExactly(text, pos, str, next);
    case Token(Hex, str, next) => HexExactly(text, pos, str, next);
    case Token(Number, str, next) => NumberExactly(text, pos, str, next);
    case Token(Literal, str, next) => LiteralExactly(text, pos, str, next);
    case Token(Symbol, str, next) => SymbolExactly(text, pos, str, next);
    case Error(InvalidHex, next) => HexExactly(text, pos, "", next);
    case Error(UnterminatedLiteral, next) => UnterminatedExactly(text, pos, next);
    case TooLong => UnterminatedExactly(text, pos, 0);
    case End(_) => NoEnd(text, pos, l);
  }

  lemma NoEnd(text: string, pos: nat, l: Lexed)
    requires pos < |text| && l.End?
    ensures TokenAt(text, pos) != l && !IsTokenAt(text, pos, l)
  {
    hide Run, Mantissa, Exponent;
  }

  // ----- Where a token starts -----

  lemma CharIn(text: string, lo: nat, hi: nat, i: nat)
    requires lo <= i < hi <= |text|
    ensures text[i] in text[lo..hi]
  {
    assert text[lo..hi][i - lo] == text[i];
  }

  lemma CommentGoesOn(text: string, pos: nat, from: nat, k: nat)
    requires pos <= from <= k < |text|
    requires '#' !in text[pos..from] || text[from] == '\n'
    ensures InComment(text, pos, k) <==> InComment(text, from, k)
  {
    if h :| pos <= h <= k < |text| && text[h] == '#' && '\n' !in text[h..k + 1] {
      if h < from {
        if text[from] == '\n' { CharIn(text, h, k + 1, from); } else { CharIn(text, pos, from, h); }
        assert false;
      }
    }
    if h :| from <= h <= k < |text| && text[h] == '#' && '\n' !in text[h..k + 1] {
      assert pos <= h;
    }
  }

  lemma {:induction false} LineEndMeans(text: string, pos: nat)
    requires pos <= |text|
    ensures
      var e := LineEnd(text, pos);
      '\n' !in text[pos..e] && (e < |text| ==> text[e] == '\n')
    decreases |text| - pos
  {
    if pos < |text| && text[pos] != '\n' {
      LineEndMeans(text, pos + 1);
      assert text[pos..LineEnd(text, pos)] == [text[pos]] + text[pos + 1..LineEnd(text, pos)];
    }
  }

  /** Skipping goes on from a later position. */
  lemma SkippedFrom(text: string, pos: nat, from: nat, e: nat)
    requires pos < from <= e <= |text| && IsStart(text, from, e)
    requires forall k :: pos <= k < from ==> IsSkipped(text, pos, k)
    requires '#' !in text[pos..from] || (from < |text| ==> text[from] == '\n')
    ensures IsStart(text, pos, e)
  {
    hide InComment;
    forall k | from <= k < |text| ensures IsSkipped(text, pos, k) <==> IsSkipped(text, from, k) {
      CommentGoesOn(text, pos, from, k);
    }
  }

  lemma CommentSkipped(text: string, pos: nat)
    requires pos < |text| && text[pos] == '#'
    ensures forall k :: pos <= k < LineEnd(text, pos + 1) ==> InComment(text, pos, k)
  {
    LineEndMeans(text, pos + 1);
    var e := LineEnd(text, pos + 1);
    forall k | pos <= k < e ensures InComment(text, pos, k) {
      assert text[pos..k + 1] == [text[pos]] + text[pos + 1..e][..k - pos];
    }
  }

  lemma StartHere(text: string, pos: nat)
    requires pos <= |text| && (pos < |text| ==> !IsSpace(text[pos]) && text[pos] != '#')
    ensures IsStart(text, pos, pos)
  {
  }

  lemma {:induction false} SkipIsStart(text: string, pos: nat)
    requires pos <= |text|
    ensures IsStart(text, pos, SkipBlank(text, pos))
    decreases |text| - pos
  {
    hide IsStart, InComment, LineEnd;
    if pos < |text| && IsSpace(text[pos]) {
      SkipIsStart(text, pos + 1);
      SkippedFrom(text, pos, pos + 1, SkipBlank(text, pos));
    } else if pos < |text| && text[pos] == '#' {
      var from := LineEnd(text, pos + 1);
      CommentSkipped(text, pos);
      LineEndMeans(text, pos + 1);
      SkipIsStart(text, from);
      SkippedFrom(text, pos, from, SkipBlank(text, pos));
    } else {
      StartHere(text, pos);
    }
  }

  /** There is only one place where the next token can start. */
  lemma StartExactly(text: string, pos: nat, start: nat)
    requires pos <= |text|
    ensures start == SkipBlank(text, pos) <==> IsStart(text, pos, start)
  {
    hide SkipBlank, IsSkipped;
    SkipIsStart(text, pos);
  }

  /** The next token is what the characters of the text say, and nothing else is. */
  lemma NextExactly(text: string, pos: nat, l: Lexed)
    requires pos <= |text|
    ensures Lex(text, pos) == l <==> IsNext(text, pos, l)
  {
    hide TokenAt, IsTokenAt, IsStart, SkipBlank;
    var start := SkipBlank(text, pos);
    StartExactly(text, pos, start);
    if start < |text| { TokenExactly(text, start, l); }
    if IsNext(text, pos, l) {
      var s: nat :| IsStart(text, pos, s) && if s < |text| then IsTokenAt(text, s, l) else l == End(s);
      StartExactly(text, pos, s);
    }
  }
}
