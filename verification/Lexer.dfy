/** The lexer: a ring buffer over a source of characters, with lookahead. */
module Lexer {
  import opened Chars
  import opened LexShape
  import opened LexSpec

  /** A source that gives fewer characters than asked for only at its end. */
  class Source {
    const text: string
    var pos: nat

    constructor (text: string)
      ensures this.text == text && pos == 0
    {
      this.text := text;
      pos := 0;
    }

    /** Copies the next characters to the start of `dst`. */
    method Read(dst: array<char>, max: nat) returns (len: nat)
      requires pos <= |text| && max <= dst.Length
      modifies `pos, dst
      ensures len == (if |text| - old(pos) < max then |text| - old(pos) else max)
      ensures pos == old(pos) + len
      ensures forall i :: 0 <= i < len ==> dst[i] == text[old(pos) + i]
    {
      len := |text| - pos;
      len := if len < max then len else max;
      forall i | 0 <= i < len { dst[i] := text[pos + i]; }
      pos := pos + len;
    }
  }

  class Lexer {
    const source: Source
    const buf: array<char>
    var ofs: nat
    var bufEnd: nat
    var bufEnded: bool
    var lineNo: nat
    var colNo: nat

    /** The buffer holds the text from the current position on, as far as it was read. */
    ghost predicate Buffered()
      reads this, source, buf
    {
      && buf.Length == WINDOW
      && ofs <= bufEnd <= |source.text| && bufEnd <= ofs + WINDOW && source.pos == bufEnd
      && (bufEnded ==> bufEnd == |source.text|)
      && (forall i :: ofs <= i < bufEnd ==> buf[i % WINDOW] == source.text[i])
    }

    ghost predicate Valid()
      reads this, source, buf
    {
      && Buffered() && Plain(source.text)
      && lineNo == Line(source.text[..ofs]) && colNo == Column(source.text[..ofs])
    }

    constructor (source: Source)
      requires source.pos == 0 && Plain(source.text)
      ensures Valid() && this.source == source && ofs == 0 && fresh(buf)
    {
      this.source := source;
      buf := new char[WINDOW];
      ofs, bufEnd, bufEnded := 0, 0, false;
      lineNo, colNo := 1, 1;
    }

    /** Copies characters read behind those in the ring, around its end if need be. */
    method Fill(chars: array<char>, len: nat)
      requires buf.Length == WINDOW && chars.Length == WINDOW && chars != buf && 1 <= len <= WINDOW
      modifies buf
      ensures forall j :: 0 <= j < WINDOW ==>
        buf[j] == if bufEnd % WINDOW <= j < bufEnd % WINDOW + len then chars[j - bufEnd % WINDOW]
                  else if j + WINDOW < bufEnd % WINDOW + len then chars[j + WINDOW - bufEnd % WINDOW]
                  else old(buf[j])
    {
      var first := bufEnd % WINDOW;
      var last := (bufEnd + len - 1) % WINDOW;
      RingForward(bufEnd, len - 1);
      if first > last {
        var len1 := WINDOW - first;
        forall i | 0 <= i < len1 { buf[first + i] := chars[i]; }
        forall i | 0 <= i < len - len1 { buf[i] := chars[len1 + i]; }
      } else {
        forall i | 0 <= i < len { buf[first + i] := chars[i]; }
      }
    }

    /** Reads as many characters as the ring has room for. */
    method Refill() returns (ret: nat)
      requires Buffered() && !bufEnded && bufEnd < ofs + WINDOW
      modifies `bufEnd, `bufEnded, buf, source
      ensures Buffered() && bufEnd == old(bufEnd) + ret
      ensures ret == 0 ==> bufEnd == |source.text|
    {
      var chars := new char[WINDOW];
      var len := WINDOW - (bufEnd - ofs);
      ret := source.Read(chars, len);
      if 0 == ret {
        return;
      }
      Fill(chars, len);
      forall i | ofs <= i < bufEnd + ret ensures buf[i % WINDOW] == source.text[i] {
        if i < bufEnd { RingBack(bufEnd, i); } else { RingForward(bufEnd, i - bufEnd); }
      }
      bufEnd := bufEnd + ret;
      if ret < len {
        bufEnded := true;
      }
    }

    /** A character ahead, from the ring, which is filled up when it does not reach that far. */
    method Peek(k: nat) returns (p: Peeked)
      requires Valid() && (k < WINDOW ==> ofs + k <= bufEnd || bufEnded)
      modifies `bufEnd, `bufEnded, buf, source
      ensures Valid() && p == PeekAt(source.text, ofs, k) && (p == Overflow <==> k >= 256)
      ensures p.Char? ==> ofs + k < bufEnd
      ensures bufEnd >= old(bufEnd)
    {
      if WINDOW <= k {
        return Overflow;
      }
      var at := ofs + k;
      if at >= bufEnd {
        if bufEnded {
          return Eof;
        }
        var ret := Refill();
        if 0 == ret {
          return Eof;
        }
      }
      p := Char(buf[at % WINDOW]);
    }

    /** Goes past a character that was looked at. */
    method Pass(c: char)
      requires Valid() && ofs < bufEnd && c == source.text[ofs]
      modifies `ofs, `lineNo, `colNo
      ensures Valid() && ofs == old(ofs) + 1
    {
      NextPlace(source.text, ofs);
      ofs := ofs + 1;
      if c == '\n' {
        lineNo := lineNo + 1;
        colNo := 1;
      } else {
        colNo := colNo + 1;
      }
    }

    /** Takes characters that are all in the buffer. */
    method Extract(len: nat) returns (str: string)
      requires Valid() && ofs + len <= bufEnd
      modifies `ofs, `lineNo, `colNo, `bufEnd, `bufEnded, buf, source
      ensures Valid() && ofs == old(ofs) + len && ofs <= bufEnd && bufEnd >= old(bufEnd)
      ensures str == source.text[old(ofs)..old(ofs) + len]
    {
      hide Line, Column, Plain;
      ghost var start := ofs;
      str := "";
      var i := 0;
      while len > i
        invariant 0 <= i <= len && Valid() && ofs == start + i && start + len <= bufEnd && bufEnd >= old(bufEnd)
        invariant str == source.text[start..ofs]
      {
        var p := Peek(0);
        str := str + [p.c];
        Pass(p.c);
        i := i + 1;
      }
    }

    /** How far characters of some sort go on. */
    method Scan(k: nat, sort: char -> bool) returns (e: nat)
      requires Valid() && k <= WINDOW && ofs + k <= bufEnd
      modifies `bufEnd, `bufEnded, buf, source
      ensures Valid() && e == Run(source.text, ofs, k, sort) && ofs + e <= bufEnd && bufEnd >= old(bufEnd)
    {
      e := k;
      while true
        invariant k <= e <= WINDOW && Valid() && ofs + e <= bufEnd && bufEnd >= old(bufEnd)
        invariant Run(source.text, ofs, e, sort) == Run(source.text, ofs, k, sort)
        decreases WINDOW - e
      {
        var p := Peek(e);
        if !p.Char? || !sort(p.c) {
          break;
        }
        e := e + 1;
      }
    }

    /** Skips blanks, comments and line ends, and looks at what comes then. */
    method SkipBlanks() returns (p: Peeked)
      requires Valid()
      modifies `ofs, `lineNo, `colNo, `bufEnd, `bufEnded, buf, source
      ensures Valid() && ofs == SkipBlank(source.text, old(ofs)) && ofs >= old(ofs)
      ensures IsStart(source.text, old(ofs), ofs)
      ensures p == PeekAt(source.text, ofs, 0) && (p.Char? ==> ofs < bufEnd)
    {
      hide Line, Column, Plain, IsStart;
      ghost var end := SkipBlank(source.text, ofs);
      StartExactly(source.text, ofs, end);
      while true
        invariant Valid() && SkipBlank(source.text, ofs) == end && ofs >= old(ofs)
        decreases |source.text| - ofs
      {
        p := SkipSpaces(end);
        if p == Char('#') {
          p := SkipComment();
        }
        if p == Eof {
          return;
        }
        if p != Char('\n') {
          break;
        }
        Pass('\n');
      }
    }

    method SkipSpaces(ghost end: nat) returns (p: Peeked)
      requires Valid() && SkipBlank(source.text, ofs) == end
      modifies `ofs, `lineNo, `colNo, `bufEnd, `bufEnded, buf, source
      ensures Valid() && SkipBlank(source.text, ofs) == end && ofs >= old(ofs)
      ensures p == PeekAt(source.text, ofs, 0) && (p.Char? ==> ofs < bufEnd)
      ensures p != Char(' ') && p != Char('\t')
    {
      hide Line, Column, Plain;
      while true
        invariant Valid() && SkipBlank(source.text, ofs) == end && ofs >= old(ofs)
        decreases |source.text| - ofs
      {
        p := Peek(0);
        if p != Char(' ') && p != Char('\t') {
          break;
        }
        Pass(p.c);
      }
    }

    /** Skips the rest of the line, from a number sign on. */
    method SkipComment() returns (p: Peeked)
      requires Valid() && ofs < bufEnd && source.text[ofs] == '#'
      modifies `ofs, `lineNo, `colNo, `bufEnd, `bufEnded, buf, source
      ensures Valid() && ofs == LineEnd(source.text, old(ofs) + 1)
      ensures p == PeekAt(source.text, ofs, 0) && (p.Char? ==> ofs < bufEnd && p.c == '\n')
    {
      hide Line, Column, Plain;
      ghost var start := ofs;
      p := Char('#');
      while true
        invariant Valid() && ofs < bufEnd && p == Char(source.text[ofs])
        invariant LineEnd(source.text, ofs + 1) == LineEnd(source.text, start + 1)
        decreases |source.text| - ofs
      {
        Pass(p.c);
        p := Peek(0);
        if p == Eof || p == Char('\n') {
          break;
        }
      }
    }

    /** A token of known length. */
    method Take(kind: Kind, len: nat) returns (t: Lexed)
      requires Valid() && ofs + len <= bufEnd
      modifies `ofs, `lineNo, `colNo, `bufEnd, `bufEnded, buf, source
      ensures Valid() && ofs == old(ofs) + len
      ensures t == Taken(kind, source.text, old(ofs), len)
    {
      var str := Extract(len);
      t := Token(kind, str, ofs);
    }

    /** A literal, from its opening quote on. */
    method TakeLiteral() returns (t: Lexed)
      requires Valid() && ofs < bufEnd && source.text[ofs] == '"' && LiteralAt(source.text, ofs + 1) != TooLong
      modifies `ofs, `lineNo, `colNo, `bufEnd, `bufEnded, buf, source
      ensures Valid() && t == LiteralAt(source.text, old(ofs) + 1) && ofs == t.next
    {
      hide Line, Column, Plain, Run, Buffered;
      Pass('"');
      var len := Scan(0, InLiteral);
      if len < WINDOW {
        var p := Peek(len);
        if p == Eof {
          return Error(UnterminatedLiteral, ofs);
        }
      }
      t := CloseLiteral(len);
    }

    method CloseLiteral(len: nat) returns (t: Lexed)
      requires Valid() && ofs + len < bufEnd && source.text[ofs + len] == '"'
      modifies `ofs, `lineNo, `colNo, `bufEnd, `bufEnded, buf, source
      ensures Valid() && ofs == old(ofs) + len + 1
      ensures old(ofs) + len <= |source.text| && t == Token(Literal, source.text[old(ofs)..old(ofs) + len], ofs)
    {
      hide Line, Column, Plain;
      var str := Extract(len);
      Pass('"');
      t := Token(Literal, str, ofs);
    }

    /** A sign, if there is one. */
    method ScanSign(i: nat) returns (j: nat)
      requires Valid() && ofs + i <= bufEnd
      modifies `bufEnd, `bufEnded, buf, source
      ensures Valid() && ofs + j <= bufEnd && bufEnd >= old(bufEnd)
      ensures j == if AheadIs(source.text, ofs, i, '+') || AheadIs(source.text, ofs, i, '-') then i + 1 else i
    {
      hide Line, Column, Plain, Buffered;
      var c := Peek(i);
      j := if c == Char('+') || c == Char('-') then i + 1 else i;
    }

    /** Digits, if there are any. */
    method ScanDigits(k: nat) returns (e: nat)
      requires Valid() && ofs + k <= bufEnd
      modifies `bufEnd, `bufEnded, buf, source
      ensures Valid() && e == Digits(source.text, ofs, k) && ofs + e <= bufEnd && bufEnd >= old(bufEnd)
    {
      e := k;
      var p := Peek(k);
      if p.Char? && IsDigit(p.c) {
        e := Scan(k + 1, IsDigit);
      }
    }

    /** A sign, digits, a point and digits. */
    method ScanMantissa() returns (isNumber: bool, i: nat)
      requires Valid() && ofs < bufEnd
      modifies `bufEnd, `bufEnded, buf, source
      ensures Valid() && (isNumber, i) == Mantissa(source.text, ofs) && ofs + i <= bufEnd && bufEnd >= old(bufEnd)
    {
      hide Run, Digits, Line, Column, Plain, Buffered;
      isNumber := false;
      i := ScanSign(0);
      var j := ScanDigits(i);
      isNumber := i < j;
      i := j;
      var c := Peek(i);
      if c == Char('.') {
        i := i + 1;
      }
      j := ScanDigits(i);
      isNumber := isNumber || i < j;
      i := j;
    }

    /** An exponent, if there is a whole one. */
    method ScanExponent(i: nat) returns (e: nat)
      requires Valid() && ofs + i <= bufEnd
      modifies `bufEnd, `bufEnded, buf, source
      ensures Valid() && e == Exponent(source.text, ofs, i) && ofs + e <= bufEnd && bufEnd >= old(bufEnd)
    {
      hide Run, Line, Column, Plain, Buffered;
      e := i;
      var c := Peek(i);
      if c == Char('e') || c == Char('E') {
        var j := ScanSign(i + 1);
        c := Peek(j);
        if c.Char? && IsDigit(c.c) {
          e := Scan(j, IsDigit);
        }
      }
    }

    /** A number or a symbol. */
    method TakeNumber() returns (t: Lexed)
      requires Valid() && ofs < bufEnd
      modifies `ofs, `lineNo, `colNo, `bufEnd, `bufEnded, buf, source
      ensures Valid() && ofs <= |source.text|
      ensures
        var m := Mantissa(source.text, old(ofs));
        var len := if m.0 then Exponent(source.text, old(ofs), m.1) else 1;
        && old(ofs) + len <= |source.text| && ofs == old(ofs) + len
        && t == Taken(if m.0 then Number else Symbol, source.text, old(ofs), len)
    {
      hide Run, Line, Column, Plain, Mantissa, Exponent;
      var isNumber, i := ScanMantissa();
      if isNumber {
        i := ScanExponent(i);
        t := Take(Number, i);
      } else {
        t := Take(Symbol, 1);
      }
    }

    /** A token that starts with a zero and an x. */
    method TakeHex() returns (t: Lexed)
      requires Valid() && ofs + 1 < bufEnd && source.text[ofs] == '0' && source.text[ofs + 1] == 'x'
      modifies `ofs, `lineNo, `colNo, `bufEnd, `bufEnded, buf, source
      ensures Valid() && t == HexAt(source.text, old(ofs)) && ofs == t.next
    {
      hide Line, Column, Plain;
      var p := Peek(2);
      if !(p.Char? && IsHexDigit(p.c)) {
        Pass('0');
        Pass('x');
        return Error(InvalidHex, ofs);
      }
      var len := Scan(3, IsHexDigit);
      t := Take(Hex, len);
    }

    /** The next token; the text must not have a literal there that is longer than the window. */
    method TokenGet() returns (t: Lexed)
      requires Valid() && Lex(source.text, ofs) != TooLong
      modifies `ofs, `lineNo, `colNo, `bufEnd, `bufEnded, buf, source
      ensures Valid() && t == Lex(source.text, old(ofs)) && ofs == t.next
      ensures IsNext(source.text, old(ofs), t)
    {
      hide Run, Line, Column, Plain, Mantissa, Exponent, SkipBlank, LiteralAt, HexAt, IsNext;
      NextExactly(source.text, ofs, Lex(source.text, ofs));
      var p := SkipBlanks();
      if p == Eof {
        return End(ofs);
      }
      var c := p.c;
      if c == '_' || IsLetter(c) {
        var len := Scan(1, IsIdent);
        t := Take(Alnum, len);
        return;
      }
      if c == '"' {
        t := TakeLiteral();
        return;
      }
      if c == '0' {
        p := Peek(1);
        if p == Char('x') {
          t := TakeHex();
          return;
        }
      }
      t := TakeNumber();
    }

    /** Goes past the next occurrence of a character, or to the end of the text. */
    method Skip(c: char) returns (found: bool)
      requires Valid()
      modifies `ofs, `lineNo, `colNo, `bufEnd, `bufEnded, buf, source
      ensures Valid() && (found <==> c in source.text[old(ofs)..])
      ensures
        if found then ofs > old(ofs) && source.text[ofs - 1] == c && c !in source.text[old(ofs)..ofs - 1]
        else ofs == |source.text|
    {
      hide Line, Column, Plain;
      while true
        invariant Valid() && ofs >= old(ofs) && c !in source.text[old(ofs)..ofs]
        decreases |source.text| - ofs
      {
        var p := Peek(0);
        if p == Eof {
          return false;
        }
        Pass(p.c);
        if c == p.c {
          return true;
        }
      }
    }
  }

  lemma NextPlace(text: string, n: nat)
    requires n < |text|
    ensures Line(text[..n + 1]) == Line(text[..n]) + if text[n] == '\n' then 1 else 0
    ensures Column(text[..n + 1]) == if text[n] == '\n' then 1 else Column(text[..n]) + 1
  {
    assert text[..n + 1][..n] == text[..n];
  }

  lemma RingForward(n: nat, i: nat)
    requires i < WINDOW
    ensures (n + i) % WINDOW == if n % WINDOW + i < WINDOW then n % WINDOW + i else n % WINDOW + i - WINDOW
  {
  }

  lemma RingBack(n: nat, j: nat)
    requires j < n <= j + WINDOW
    ensures j % WINDOW == if n - j <= n % WINDOW then n % WINDOW - (n - j) else n % WINDOW - (n - j) + WINDOW
  {
  }
}
