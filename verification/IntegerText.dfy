/** Integers in text: how they are printed, and which integer any text stands for. */
module IntegerText {
  import opened Chars

  function DigitOf(n: nat): (r: char)
    requires n < 10
  {
    '0' + n as char
  }

  /** The decimal digits of a number. */
  function Natural(n: nat): (s: string)
    ensures s != []
    ensures forall i :: 0 <= i < |s| ==> IsDigit(s[i])
    decreases n
  {
    if n < 10 then [DigitOf(n)] else Natural(n / 10) + [DigitOf(n % 10)]
  }

  function Decimal(i: int): (s: string)
    ensures s != []
  {
    if i < 0 then "-" + Natural(-i) else Natural(i)
  }

  /** The value of a digit; 99 for what is none. */
  function DigitValue(c: char): (r: nat) {
    if IsDigit(c) then c as nat - '0' as nat
    else if 'a' <= c <= 'z' then c as nat - 'a' as nat + 10
    else if 'A' <= c <= 'Z' then c as nat - 'A' as nat + 10
    else 99
  }

  /** The number that the digits at the start of a text make, after what came before them. */
  function DigitsValue(s: string, base: nat, so: nat): (r: nat) {
    if s == [] || DigitValue(s[0]) >= base then so
    else DigitsValue(s[1..], base, so * base + DigitValue(s[0]))
  }

  function AfterSpace(s: string): (r: string) {
    if s != [] && IsBlank(s[0]) then AfterSpace(s[1..]) else s
  }

  function AfterPrefix(s: string, base: nat): (r: string) {
    if base == 16 && |s| >= 3 && s[0] == '0' && (s[1] == 'x' || s[1] == 'X') && DigitValue(s[2]) < 16 then s[2..] else s
  }

  const LONG_MAX: int := 0x7fff_ffff_ffff_ffff

  function Clamped(n: int): (r: int) {
    if n > LONG_MAX then LONG_MAX else if n < -LONG_MAX - 1 then -LONG_MAX - 1 else n
  }

  /** The integer at the start of a text, with the limits of a 64-bit word. */
  function Strtol(str: string, base: nat): (r: int) {
    var s := AfterSpace(str);
    if s != [] && s[0] == '-' then Clamped(0 - DigitsValue(AfterPrefix(s[1..], base), base, 0))
    else if s != [] && s[0] == '+' then Clamped(DigitsValue(AfterPrefix(s[1..], base), base, 0))
    else Clamped(DigitsValue(AfterPrefix(s, base), base, 0))
  }

  predicate Fits32(i: int) {
    -0x8000_0000 <= i < 0x8000_0000
  }

  /** The lowest 32 bits as a signed number. */
  function Narrowed(n: int): (r: int)
    ensures Fits32(r) && (n - r) % 0x1_0000_0000 == 0
  {
    (n + 0x8000_0000) % 0x1_0000_0000 - 0x8000_0000
  }

  predicate IsHexText(str: string) {
    |str| >= 2 && str[0] == '0' && str[1] == 'x'
  }

  /** The integer that a string value stands for. */
  function IntegerOf(str: string): (r: int) {
    if IsHexText(str) then Narrowed(Strtol(str[2..], 16)) else Narrowed(Strtol(str, 10))
  }

  lemma {:induction false} DigitsValueMore(s: string, t: string, base: nat, so: nat)
    requires forall i :: 0 <= i < |s| ==> DigitValue(s[i]) < base
    ensures DigitsValue(s + t, base, so) == DigitsValue(t, base, DigitsValue(s, base, so))
  {
    if s == [] {
      assert s + t == t;
    } else {
      DigitsValueMore(s[1..], t, base, so * base + DigitValue(s[0]));
      assert (s + t)[1..] == s[1..] + t;
    }
  }

  lemma {:induction false} NaturalRead(n: nat)
    ensures DigitsValue(Natural(n), 10, 0) == n
    decreases n
  {
    if n < 10 {
      assert Natural(n)[1..] == [];
    } else {
      NaturalRead(n / 10);
      DigitsValueMore(Natural(n / 10), [DigitOf(n % 10)], 10, 0);
      assert [DigitOf(n % 10)][1..] == [];
    }
  }

  lemma NaturalStart(n: nat)
    ensures AfterSpace(Natural(n)) == Natural(n) && AfterPrefix(Natural(n), 10) == Natural(n)
    ensures Natural(n)[0] != '-' && Natural(n)[0] != '+'
    ensures |Natural(n)| >= 2 ==> Natural(n)[1] != 'x'
  {
    assert IsDigit(Natural(n)[0]);
    assert |Natural(n)| >= 2 ==> IsDigit(Natural(n)[1]);
  }

  /** An integer that is printed is read back. */
  lemma DecimalRead(i: int)
    requires Fits32(i)
    ensures IntegerOf(Decimal(i)) == i
  {
    if i < 0 {
      var s := Decimal(i);
      assert s[1..] == Natural(-i);
      NaturalStart(-i);
      NaturalRead(-i);
    } else {
      NaturalStart(i);
      NaturalRead(i);
    }
  }

  function Power(base: nat, k: nat): (r: nat)
    ensures base > 0 ==> r > 0
  {
    if k == 0 then 1 else base * Power(base, k - 1)
  }

  lemma {:induction false} NaturalShort(n: nat, k: nat)
    requires k >= 1 && n < Power(10, k)
    ensures |Natural(n)| <= k
    decreases k
  {
    if n >= 10 {
      assert k > 1 by { assert Power(10, 1) == 10 * Power(10, 0) == 10; }
      NaturalShort(n / 10, k - 1);
    }
  }

  lemma DecimalShort(i: int)
    requires Fits32(i)
    ensures |Decimal(i)| <= 11
  {
    assert Power(10, 2) == 100;
    assert Power(10, 4) == 10000;
    assert Power(10, 6) == 1000000;
    assert Power(10, 8) == 100000000;
    assert Power(10, 10) == 10000000000;
    NaturalShort(if i < 0 then -i else i, 10);
  }

  // ----- Integers by their digits -----

  /** The letters from ten on are of either case. */
  predicate HasValue(c: char, v: nat) {
    || (v < 10 && c as int == '0' as int + v)
    || (10 <= v < 36 && (c as int == 'a' as int + v - 10 || c as int == 'A' as int + v - 10))
  }

  /** The digit of a number at a place. */
  function PlaceDigit(n: nat, base: nat, k: nat): (v: nat)
    requires base > 0
  {
    n / Power(base, k) % base
  }

  /** Every digit of a number at its place, perhaps with zeros in front. */
  predicate IsDigitsOf(t: string, base: nat, n: nat)
    requires base > 0
  {
    n < Power(base, |t|) && forall k :: 0 <= k < |t| ==> HasValue(t[|t| - 1 - k], PlaceDigit(n, base, k))
  }

  lemma NextMultiple(x: nat, d: nat)
    ensures (x + 1) * d == x * d + d
  {
  }

  lemma {:induction false} MoreTimes(x: nat, y: nat, d: nat)
    requires x < y
    ensures y * d >= x * d + d
    decreases y
  {
    NextMultiple(y - 1, d);
    if x < y - 1 { MoreTimes(x, y - 1, d); }
  }

  lemma OneQuotient(d: nat, q: nat, r: nat, q': nat, r': nat)
    requires q * d + r == q' * d + r' && r < d && r' < d
    ensures q == q' && r == r'
  {
    if q' > q {
      MoreTimes(q, q', d);
    } else if q' < q {
      MoreTimes(q', q, d);
    }
  }

  function Quotient(n: nat, d: nat): (q: nat)
    requires d > 0
  {
    n / d
  }

  function Remainder(n: nat, d: nat): (r: nat)
    requires d > 0
  {
    n % d
  }

  lemma Divided(n: nat, d: nat)
    requires d > 0
    ensures n == Quotient(n, d) * d + Remainder(n, d) && Remainder(n, d) < d
  {
  }

  lemma DivisionIs(n: nat, d: nat, q: nat, r: nat)
    requires n == q * d + r && r < d
    ensures Quotient(n, d) == q && Remainder(n, d) == r
  {
    hide Quotient, Remainder;
    Divided(n, d);
    OneQuotient(d, q, r, Quotient(n, d), Remainder(n, d));
  }

  lemma DivideTwice(n: nat, a: nat, b: nat)
    requires a > 0 && b > 0
    ensures a * b > 0 && Quotient(n, a * b) == Quotient(Quotient(n, a), b)
  {
    hide Quotient, Remainder;
    var q, r := Quotient(n, a), Remainder(n, a);
    var q', r' := Quotient(q, b), Remainder(q, b);
    Divided(n, a);
    Divided(q, b);
    Composed(n, a, b, q', r', r);
    DivisionIs(n, a * b, q', r' * a + r);
  }

  lemma Composed(n: nat, a: nat, b: nat, q: nat, r': nat, r: nat)
    requires n == (q * b + r') * a + r && r' < b && r < a
    ensures n == q * (a * b) + (r' * a + r) && r' * a + r < a * b
  {
    assert (q * b + r') * a == q * (a * b) + r' * a;
    MoreTimes(r', b, a);
  }

  lemma LastDigit(n: nat, base: nat, p: nat)
    requires base > 0
    ensures n < base * p <==> Quotient(n, base) < p
  {
    hide Quotient, Remainder;
    Divided(n, base);
    var q := Quotient(n, base);
    if q < p {
      MoreTimes(q, p, base);
    } else if q > p {
      MoreTimes(p, q, base);
    }
  }

  lemma PlaceBefore(n: nat, base: nat, k: nat)
    requires base > 0
    ensures PlaceDigit(n, base, 0) == Remainder(n, base)
    ensures PlaceDigit(n, base, k + 1) == PlaceDigit(Quotient(n, base), base, k)
  {
    assert Power(base, 0) == 1;
    PlaceAfter(n, base, k);
  }

  lemma PlaceAfter(n: nat, base: nat, k: nat)
    requires base > 0
    ensures PlaceDigit(n, base, k + 1) == PlaceDigit(Quotient(n, base), base, k)
  {
    hide Power;
    DivideTwice(n, base, Power(base, k));
    PowerNext(base, k);
  }

  lemma PowerNext(base: nat, k: nat)
    ensures Power(base, k + 1) == base * Power(base, k)
  {
  }

  /** The last digit and those before it. */
  lemma DigitsSnoc(t: string, c: char, base: nat, n: nat)
    requires base > 0
    ensures IsDigitsOf(t + [c], base, n) <==> HasValue(c, Remainder(n, base)) && IsDigitsOf(t, base, Quotient(n, base))
  {
    hide HasValue, PlaceDigit, Power, Quotient, Remainder;
    var s := t + [c];
    PowerNext(base, |t|);
    LastDigit(n, base, Power(base, |t|));
    PlaceBefore(n, base, 0);
    if IsDigitsOf(s, base, n) {
      assert HasValue(s[|s| - 1 - 0], PlaceDigit(n, base, 0));
      forall k | 0 <= k < |t| ensures HasValue(t[|t| - 1 - k], PlaceDigit(Quotient(n, base), base, k)) {
        PlaceBefore(n, base, k);
        assert HasValue(s[|s| - 1 - (k + 1)], PlaceDigit(n, base, k + 1));
      }
    }
    if HasValue(c, Remainder(n, base)) && IsDigitsOf(t, base, Quotient(n, base)) {
      forall k | 0 <= k < |s| ensures HasValue(s[|s| - 1 - k], PlaceDigit(n, base, k)) {
        if k > 0 {
          PlaceBefore(n, base, k - 1);
          assert HasValue(t[|t| - 1 - (k - 1)], PlaceDigit(Quotient(n, base), base, k - 1));
        }
      }
    }
  }

  lemma ValueIs(c: char, v: nat)
    ensures v < 36 ==> (HasValue(c, v) <==> DigitValue(c) == v)
  {
  }

  /** Digits make exactly the number whose digits they are. */
  lemma {:induction false} ValueExactly(t: string, base: nat, n: nat)
    requires 0 < base <= 36
    ensures IsDigitsOf(t, base, n) <==>
      (forall i :: 0 <= i < |t| ==> DigitValue(t[i]) < base) && DigitsValue(t, base, 0) == n
    decreases |t|
  {
    hide HasValue, DigitValue, IsDigitsOf, Quotient, Remainder;
    if t == "" {
      NoDigitsOf(base, n);
    } else {
      var t', c := t[..|t| - 1], t[|t| - 1];
      assert t == t' + [c];
      DigitsSnoc(t', c, base, n);
      ValueExactly(t', base, Quotient(n, base));
      Divided(n, base);
      ValueIs(c, Remainder(n, base));
      if forall i :: 0 <= i < |t'| ==> DigitValue(t'[i]) < base {
        DigitsValueMore(t', [c], base, 0);
        OneMoreDigit(c, base, DigitsValue(t', base, 0), n);
      }
      if forall i :: 0 <= i < |t| ==> DigitValue(t[i]) < base {
        assert forall i :: 0 <= i < |t'| ==> t'[i] == t[i];
      }
    }
  }

  lemma NoDigitsOf(base: nat, n: nat)
    requires base > 0
    ensures IsDigitsOf("", base, n) <==> n == 0
  {
  }

  lemma OneMoreDigit(c: char, base: nat, so: nat, n: nat)
    requires base > 0
    ensures DigitValue(c) < base ==>
      (DigitsValue([c], base, so) == n <==> Remainder(n, base) == DigitValue(c) && Quotient(n, base) == so)
  {
    hide DigitValue, Quotient, Remainder;
    if DigitValue(c) < base {
      assert [c][1..] == "";
      assert DigitsValue([c], base, so) == so * base + DigitValue(c);
      DivisionIs(so * base + DigitValue(c), base, so, DigitValue(c));
      Divided(n, base);
    }
  }

  /** A digit of a base. */
  predicate InBase(c: char, base: nat) {
    exists v :: 0 <= v < base && HasValue(c, v)
  }

  /** Where a sign or a hexadecimal prefix at a position ends. */
  predicate IsPrefix(s: string, b: nat, base: nat, d: nat) {
    var g := if b < |s| && IsSign(s[b]) then b + 1 else b;
    d == if base == 16 && g + 2 < |s| && s[g] == '0' && (s[g + 1] == 'x' || s[g + 1] == 'X') && IsHexDigit(s[g + 2])
         then g + 2 else g
  }

  /** White space up to `b`, a sign and a prefix up to `d`, and all the digits
      that come then, up to `e`, which are those of `n`. */
  predicate HasInteger(s: string, base: nat, b: nat, d: nat, e: nat, n: nat) {
    && base > 0 && b <= d <= e <= |s|
    && (forall k :: 0 <= k < b ==> IsBlank(s[k])) && (b < |s| ==> !IsBlank(s[b]))
    && IsPrefix(s, b, base, d)
    && IsDigitsOf(s[d..e], base, n) && (e < |s| ==> !InBase(s[e], base))
  }

  function Signed(s: string, b: nat, n: nat): (i: int) {
    if b < |s| && s[b] == '-' then 0 - n else n
  }

  /** A number, or the limit that it is beyond. */
  predicate IsWithinLong(n: int, v: int) {
    && -0x8000_0000_0000_0000 <= v <= 0x7fff_ffff_ffff_ffff
    && (v == n || n < v == -0x8000_0000_0000_0000 || n > v == 0x7fff_ffff_ffff_ffff)
  }

  ghost predicate IsInteger(s: string, base: nat, v: int) {
    exists b: nat, d: nat, e: nat, n: nat ::
      HasInteger(s, base, b, d, e, n) && IsWithinLong(Signed(s, b, n), v)
  }

  lemma {:induction false} SpaceMeans(s: string) returns (b: nat)
    ensures b <= |s| && AfterSpace(s) == s[b..]
    ensures (forall k :: 0 <= k < b ==> IsBlank(s[k])) && (b < |s| ==> !IsBlank(s[b]))
  {
    if s != "" && IsBlank(s[0]) {
      b := SpaceMeans(s[1..]);
      b := b + 1;
      forall k | 0 <= k < b ensures IsBlank(s[k]) { assert k > 0 ==> s[k] == s[1..][k - 1]; }
    } else {
      b := 0;
      assert s[0..] == s;
    }
  }

  lemma {:induction false} DigitRun(s: string, base: nat) returns (e: nat)
    ensures e <= |s| && (forall k :: 0 <= k < e ==> DigitValue(s[k]) < base) && (e < |s| ==> DigitValue(s[e]) >= base)
  {
    if s == "" || DigitValue(s[0]) >= base {
      e := 0;
    } else {
      e := DigitRun(s[1..], base);
      e := e + 1;
      forall k | 0 <= k < e ensures DigitValue(s[k]) < base { assert k > 0 ==> s[k] == s[1..][k - 1]; }
    }
  }

  /** The number at the start of a text is that of all the digits there. */
  lemma ValueOfRun(s: string, base: nat, e: nat, n: nat)
    requires 0 < base <= 36 && e <= |s| && IsDigitsOf(s[..e], base, n) && (e < |s| ==> !InBase(s[e], base))
    ensures DigitsValue(s, base, 0) == n
  {
    hide IsDigitsOf, DigitValue;
    ValueExactly(s[..e], base, n);
    assert s == s[..e] + s[e..];
    DigitsValueMore(s[..e], s[e..], base, 0);
    if e < |s| { NotInBase(s[e], base); }
  }

  lemma NotInBase(c: char, base: nat)
    requires base <= 36
    ensures InBase(c, base) <==> DigitValue(c) < base
  {
    if DigitValue(c) < base { assert HasValue(c, DigitValue(c)); }
  }

  /** The number that a text starts with, in the parts of the text. */
  lemma StrtolMeans(s: string, base: nat)
    requires base == 10 || base == 16
    ensures IsInteger(s, base, Strtol(s, base))
  {
    hide IsDigitsOf, InBase, IsPrefix, AfterPrefix, DigitValue, Strtol, Clamped, Signed, IsWithinLong, AfterSpace;
    var b := SpaceMeans(s);
    var g := if b < |s| && IsSign(s[b]) then b + 1 else b;
    var d := Prefixed(s, b, g, base);
    var run := DigitRun(s[d..], base);
    var n := DigitsValue(s[d..], base, 0);
    RunIsNumber(s[d..], base, run, n);
    assert s[d..][..run] == s[d..d + run];
    assert HasInteger(s, base, b, d, d + run, n);
    SignedValue(s, base, b, g, d);
    WithinExactly(Signed(s, b, n), Strtol(s, base));
  }

  lemma RunIsNumber(s: string, base: nat, e: nat, n: nat)
    requires 0 < base <= 36 && e <= |s| && DigitsValue(s, base, 0) == n
    requires (forall k :: 0 <= k < e ==> DigitValue(s[k]) < base) && (e < |s| ==> DigitValue(s[e]) >= base)
    ensures IsDigitsOf(s[..e], base, n) && (e < |s| ==> !InBase(s[e], base))
  {
    hide IsDigitsOf, DigitValue;
    assert s == s[..e] + s[e..];
    DigitsValueMore(s[..e], s[e..], base, 0);
    ValueExactly(s[..e], base, n);
    if e < |s| { NotInBase(s[e], base); }
  }

  lemma Prefixed(s: string, b: nat, g: nat, base: nat) returns (d: nat)
    requires b <= g <= |s| && g == if b < |s| && IsSign(s[b]) then b + 1 else b
    requires base == 10 || base == 16
    ensures b <= d <= |s| && IsPrefix(s, b, base, d) && AfterPrefix(s[g..], base) == s[d..]
  {
    var t := s[g..];
    d := if base == 16 && g + 2 < |s| && s[g] == '0' && (s[g + 1] == 'x' || s[g + 1] == 'X') && IsHexDigit(s[g + 2])
         then g + 2 else g;
    assert |t| >= 3 ==> t[0] == s[g] && t[1] == s[g + 1] && t[2] == s[g + 2] && t[2..] == s[g + 2..];
  }

  lemma SignedValue(s: string, base: nat, b: nat, g: nat, d: nat)
    requires b <= g <= |s| && d <= |s| && AfterSpace(s) == s[b..]
    requires g == (if b < |s| && IsSign(s[b]) then b + 1 else b) && AfterPrefix(s[g..], base) == s[d..]
    ensures
      Strtol(s, base) == Clamped(Signed(s, b, DigitsValue(s[d..], base, 0)))
  {
    hide AfterPrefix, DigitsValue, AfterSpace;
    var t := s[b..];
    assert b < |s| ==> t[0] == s[b] && t[1..] == s[b + 1..];
  }

  lemma OneInteger(s: string, base: nat, b: nat, d: nat, e: nat, n: nat)
    requires (base == 10 || base == 16) && HasInteger(s, base, b, d, e, n)
    ensures Strtol(s, base) == Clamped(Signed(s, b, n))
  {
    hide IsDigitsOf, InBase, Strtol;
    var b' := SpaceMeans(s);
    assert b' == b;
    var g := if b < |s| && IsSign(s[b]) then b + 1 else b;
    var d' := Prefixed(s, b, g, base);
    assert s[d..][..e - d] == s[d..e];
    ValueOfRun(s[d..], base, e - d, n);
    SignedValue(s, base, b, g, d);
  }

  lemma WithinExactly(n: int, v: int)
    ensures IsWithinLong(n, v) <==> v == Clamped(n)
  {
  }

  /** The number that is read is the one whose digits the text has, and no other. */
  lemma StrtolExactly(s: string, base: nat, v: int)
    requires base == 10 || base == 16
    ensures Strtol(s, base) == v <==> IsInteger(s, base, v)
  {
    hide HasInteger, Strtol, IsWithinLong, Clamped;
    StrtolMeans(s, base);
    if b: nat, d: nat, e: nat, n: nat :| HasInteger(s, base, b, d, e, n) && IsWithinLong(Signed(s, b, n), v) {
      OneInteger(s, base, b, d, e, n);
      WithinExactly(Signed(s, b, n), v);
    }
  }

  /** The integer of a text: hexadecimal behind "0x", else decimal, in the lowest 32 bits. */
  ghost predicate StandsFor(str: string, i: int) {
    exists v ::
      && (if "0x" <= str then IsInteger(str[2..], 16, v) else IsInteger(str, 10, v))
      && Fits32(i) && (v - i) % 0x1_0000_0000 == 0
  }

  lemma HexTextStarts(str: string)
    ensures IsHexText(str) <==> "0x" <= str
  {
    if IsHexText(str) { assert str[..2] == [str[0], str[1]] == "0x"; }
    if "0x" <= str { assert str[0] == "0x"[0] && str[1] == "0x"[1]; }
  }

  lemma NarrowedExactly(v: int, i: int)
    ensures Narrowed(v) == i <==> Fits32(i) && (v - i) % 0x1_0000_0000 == 0
  {
  }

  /** A text has exactly the integer that it stands for. */
  lemma IntegerExactly(str: string, i: int)
    ensures IntegerOf(str) == i <==> StandsFor(str, i)
  {
    hide Strtol, IsInteger, Narrowed, Fits32;
    HexTextStarts(str);
    var base := if "0x" <= str then 16 else 10;
    var s := if "0x" <= str then str[2..] else str;
    StrtolExactly(s, base, Strtol(s, base));
    NarrowedExactly(Strtol(s, base), i);
    if StandsFor(str, i) {
      var v :| (if "0x" <= str then IsInteger(str[2..], 16, v) else IsInteger(str, 10, v))
        && Fits32(i) && (v - i) % 0x1_0000_0000 == 0;
      StrtolExactly(s, base, v);
    }
  }

  /** Hexadecimal digits in either case are read as their number, in its lowest 32 bits. */
  lemma HexRead(t: string, n: nat)
    requires t != "" && IsDigitsOf(t, 16, n) && n <= LONG_MAX
    ensures IntegerOf("0x" + t) == Narrowed(n)
  {
    hide IsDigitsOf, InBase;
    ValueExactly(t, 16, n);
    assert t[0..|t|] == t;
    HexDigits(t);
    assert HasInteger(t, 16, 0, 0, |t|, n);
    OneInteger(t, 16, 0, 0, |t|, n);
    assert ("0x" + t)[2..] == t;
  }

  lemma HexDigits(t: string)
    requires t != "" && forall i :: 0 <= i < |t| ==> DigitValue(t[i]) < 16
    ensures !IsBlank(t[0]) && IsPrefix(t, 0, 16, 0) && t[0] != '-'
  {
    assert |t| > 1 ==> DigitValue(t[1]) < 16;
  }

  /** White space, a sign and decimal digits, with anything behind them, are
      read as the number, in its lowest 32 bits. */
  lemma DecimalTextRead(space: string, sign: string, t: string, n: nat, tail: string)
    requires (forall k :: 0 <= k < |space| ==> IsBlank(space[k])) && sign in {"", "+", "-"}
    requires t != "" && IsDigitsOf(t, 10, n) && n <= LONG_MAX && (tail != "" ==> !IsDigit(tail[0]))
    requires !("0x" <= space + sign + t + tail)
    ensures IntegerOf(space + sign + t + tail) == Narrowed(if sign == "-" then 0 - n else n)
  {
    hide IsDigitsOf, IsHexText, InBase, Strtol;
    var s := space + sign + t + tail;
    var b, d, e := |space|, |space| + |sign|, |space| + |sign| + |t|;
    HexTextStarts(s);
    ValueExactly(t, 10, n);
    assert s[d..e] == t;
    assert forall k :: 0 <= k < b ==> s[k] == space[k];
    assert if sign == "" then s[b] == t[0] else s[b] == sign[0];
    assert DigitValue(t[0]) < 10;
    if e < |s| {
      assert s[e] == tail[0];
      NotInBase(s[e], 10);
    }
    assert HasInteger(s, 10, b, d, e, n);
    OneInteger(s, 10, b, d, e, n);
  }

  // ----- Printed integers -----

  /** The digits of a number without zeros in front. */
  predicate IsShortest(t: string, n: nat) {
    t != "" && IsDigitsOf(t, 10, n) && (|t| > 1 ==> t[0] != '0')
  }

  predicate IsDecimal(s: string, i: int) {
    if i < 0 then s != "" && s[0] == '-' && IsShortest(s[1..], -i) else IsShortest(s, i)
  }

  lemma OneDigit(c: char, n: nat)
    ensures IsDigitsOf([c], 10, n) <==> n < 10 && c == '0' + n as char
  {
    assert "" + [c] == [c];
    DigitsSnoc("", c, 10, n);
    NoDigitsOf(10, n / 10);
  }

  lemma ZeroStarts(t: string)
    requires t != "" && IsDigitsOf(t, 10, 0)
    ensures t[0] == '0'
  {
    var k := |t| - 1;
    assert HasValue(t[|t| - 1 - k], PlaceDigit(0, 10, k));
    assert PlaceDigit(0, 10, k) == 0;
  }

  lemma FirstOfShortest(t: string, n: nat)
    requires t != "" && IsDigitsOf(t, 10, n)
    ensures n == 0 ==> t[0] == '0'
    ensures |t| == 1 && n > 0 ==> t[0] != '0'
  {
    if n == 0 { ZeroStarts(t); }
    if |t| == 1 {
      assert t == [t[0]];
      OneDigit(t[0], n);
    }
  }

  /** What is printed for a number is its digits without zeros in front. */
  lemma {:induction false} NaturalExactly(t: string, n: nat)
    ensures t == Natural(n) <==> IsShortest(t, n)
    decreases n
  {
    hide IsDigitsOf;
    if |t| == 1 {
      assert t == [t[0]];
      OneDigit(t[0], n);
      if n >= 10 { assert |Natural(n)| == |Natural(n / 10)| + 1; }
    } else if |t| > 1 {
      var t', c := t[..|t| - 1], t[|t| - 1];
      assert t == t' + [c] && t[0] == t'[0];
      DigitsSnoc(t', c, 10, n);
      if n >= 10 { NaturalExactly(t', n / 10); }
      if IsDigitsOf(t', 10, n / 10) { FirstOfShortest(t', n / 10); }
    }
  }

  /** What is printed for an integer is a hyphen, if it is negative, and its shortest digits. */
  lemma DecimalExactly(s: string, i: int)
    ensures s == Decimal(i) <==> IsDecimal(s, i)
  {
    hide Natural, IsShortest;
    if i < 0 {
      if s != "" {
        NaturalExactly(s[1..], -i);
        assert s == [s[0]] + s[1..];
      }
      assert Decimal(i)[1..] == Natural(-i);
    } else {
      NaturalExactly(s, i);
    }
  }
}
