/** Repairing and reading UTF-8 (the code lengths of section 3 of RFC 3629, but
    with every code that four bytes can hold). */
module Utf8 {
  import opened Sequences

  type Byte = bv8
  type Code = bv32

  datatype Read = Bad | Good(code: Code, len: nat)

  predicate IsContinuation(b: Byte) {
    0xc0 & b == 0x80
  }

  function Low(b: Byte, mask: Byte, shift: bv6): (r: Code)
    requires shift < 32
  {
    ((mask & b) as Code) << shift
  }

  function Two(a: Byte, b: Byte): (r: Read) {
    if !IsContinuation(b) || 0x1e & a == 0 then Bad
    else Good(Low(a, 0x1f, 6) | Low(b, 0x3f, 0), 2)
  }

  function Three(a: Byte, b: Byte, c: Byte): (r: Read) {
    if !IsContinuation(b) || !IsContinuation(c) || (0x0f & a) | (0x20 & b) == 0 then Bad
    else
      var code := Low(a, 0x0f, 12) | Low(b, 0x3f, 6) | Low(c, 0x3f, 0);
      if 0xd800 <= code <= 0xdfff then Bad else Good(code, 3)
  }

  function Four(a: Byte, b: Byte, c: Byte, d: Byte): (r: Read) {
    if !IsContinuation(b) || !IsContinuation(c) || !IsContinuation(d) || (0x07 & a) | (0x30 & b) == 0 then Bad
    else Good(Low(a, 0x07, 18) | Low(b, 0x3f, 12) | Low(c, 0x3f, 6) | Low(d, 0x3f, 0), 4)
  }

  /** The code at the start of `p`. */
  function GetCode(p: seq<Byte>): (r: Read)
    requires p != []
    ensures r.Good? ==> 1 <= r.len <= |p|
  {
    if p[0] < 0x80 then Good(p[0] as Code, 1)
    else if 0xe0 & p[0] == 0xc0 then if |p| < 2 then Bad else Two(p[0], p[1])
    else if 0xf0 & p[0] == 0xe0 then if |p| < 3 then Bad else Three(p[0], p[1], p[2])
    else if 0xf8 & p[0] == 0xf0 then if |p| < 4 then Bad else Four(p[0], p[1], p[2], p[3])
    else Bad
  }

  // ----- What the codes are encoded as -----

  predicate IsCode(c: Code) {
    c <= 0x1f_ffff && !(0xd800 <= c <= 0xdfff)
  }

  /** Six bits of a code, in a continuation byte. */
  function Continuation(c: Code, shift: bv6): (r: Byte)
    requires shift < 32
  {
    0x80 | ((c >> shift) & 0x3f) as Byte
  }

  /** The shortest encoding. */
  function Encode(c: Code): (e: seq<Byte>)
    requires IsCode(c)
    ensures 1 <= |e| <= 4
  {
    if c < 0x80 then [c as Byte]
    else if c < 0x800 then [0xc0 | (c >> 6) as Byte, Continuation(c, 0)]
    else if c < 0x1_0000 then [0xe0 | (c >> 12) as Byte, Continuation(c, 6), Continuation(c, 0)]
    else [0xf0 | (c >> 18) as Byte, Continuation(c, 12), Continuation(c, 6), Continuation(c, 0)]
  }

  // One byte, two bytes, three and four: packing and unpacking undo each other.

  lemma TwoPacked(c: Code)
    requires 0x80 <= c < 0x800
    ensures
      var a, b := 0xc0 | (c >> 6) as Byte, Continuation(c, 0);
      && 0xe0 & a == 0xc0 && IsContinuation(b) && 0x1e & a != 0
      && Low(a, 0x1f, 6) | Low(b, 0x3f, 0) == c
  {
  }

  lemma TwoUnpacked(a: Byte, b: Byte)
    requires 0xe0 & a == 0xc0 && IsContinuation(b) && 0x1e & a != 0
    ensures
      var c := Low(a, 0x1f, 6) | Low(b, 0x3f, 0);
      0x80 <= c < 0x800 && a == 0xc0 | (c >> 6) as Byte && b == Continuation(c, 0)
  {
  }

  lemma SixBits(c: Code, shift: bv6)
    requires shift < 32
    ensures IsContinuation(Continuation(c, shift))
    ensures (0x3f & Continuation(c, shift)) as Code == (c >> shift) & 0x3f
  {
    var t := ((c >> shift) & 0x3f) as Byte;
    assert t as Code == (c >> shift) & 0x3f;
    assert 0x3f & (0x80 | t) == t;
  }

  lemma ThreeLead(c: Code)
    requires 0x800 <= c < 0x1_0000
    ensures
      var x := 0xe0 | (c >> 12) as Byte;
      0xf0 & x == 0xe0 && (0x0f & x) as Code == c >> 12
  {
    var t := (c >> 12) as Byte;
    assert t < 0x10 && t as Code == c >> 12;
    assert 0xf0 & (0xe0 | t) == 0xe0 && 0x0f & (0xe0 | t) == t;
  }

  lemma ThreeJoined(c: Code)
    requires 0x800 <= c < 0x1_0000
    ensures ((c >> 12) << 12) | (((c >> 6) & 0x3f) << 6) | (((c >> 0) & 0x3f) << 0) == c
  {
  }

  lemma ThreeShortest(c: Code)
    requires 0x800 <= c < 0x1_0000
    ensures (0x0f & (0xe0 | (c >> 12) as Byte)) | (0x20 & Continuation(c, 6)) != 0
  {
  }

  lemma ThreePacked(c: Code)
    requires 0x800 <= c < 0x1_0000
    ensures
      var x, y, z := 0xe0 | (c >> 12) as Byte, Continuation(c, 6), Continuation(c, 0);
      && 0xf0 & x == 0xe0 && IsContinuation(y) && IsContinuation(z) && (0x0f & x) | (0x20 & y) != 0
      && Low(x, 0x0f, 12) | Low(y, 0x3f, 6) | Low(z, 0x3f, 0) == c
  {
    hide IsContinuation, Continuation;
    ThreeLead(c);
    SixBits(c, 6);
    SixBits(c, 0);
    ThreeShortest(c);
    ThreeJoined(c);
  }

  lemma ThreeUnpacked(x: Byte, y: Byte, z: Byte)
    requires 0xf0 & x == 0xe0 && IsContinuation(y) && IsContinuation(z) && (0x0f & x) | (0x20 & y) != 0
    ensures
      var c := Low(x, 0x0f, 12) | Low(y, 0x3f, 6) | Low(z, 0x3f, 0);
      0x800 <= c < 0x1_0000 && x == 0xe0 | (c >> 12) as Byte && y == Continuation(c, 6) && z == Continuation(c, 0)
  {
  }

  lemma FourLead(c: Code)
    requires 0x1_0000 <= c <= 0x1f_ffff
    ensures
      var x := 0xf0 | (c >> 18) as Byte;
      0xf8 & x == 0xf0 && (0x07 & x) as Code == c >> 18
  {
    var t := (c >> 18) as Byte;
    assert t < 0x08 && t as Code == c >> 18;
    assert 0xf8 & (0xf0 | t) == 0xf0 && 0x07 & (0xf0 | t) == t;
  }

  lemma FourJoined(c: Code)
    requires 0x1_0000 <= c <= 0x1f_ffff
    ensures ((c >> 18) << 18) | (((c >> 12) & 0x3f) << 12) | (((c >> 6) & 0x3f) << 6) | (((c >> 0) & 0x3f) << 0) == c
  {
  }

  lemma FourShortest(c: Code)
    requires 0x1_0000 <= c <= 0x1f_ffff
    ensures (0x07 & (0xf0 | (c >> 18) as Byte)) | (0x30 & Continuation(c, 12)) != 0
  {
  }

  lemma FourPacked(c: Code)
    requires 0x1_0000 <= c <= 0x1f_ffff
    ensures
      var w, x, y, z := 0xf0 | (c >> 18) as Byte, Continuation(c, 12), Continuation(c, 6), Continuation(c, 0);
      && 0xf8 & w == 0xf0 && IsContinuation(x) && IsContinuation(y) && IsContinuation(z) && (0x07 & w) | (0x30 & x) != 0
      && Low(w, 0x07, 18) | Low(x, 0x3f, 12) | Low(y, 0x3f, 6) | Low(z, 0x3f, 0) == c
  {
    hide IsContinuation, Continuation;
    FourLead(c);
    SixBits(c, 12);
    SixBits(c, 6);
    SixBits(c, 0);
    FourShortest(c);
    FourJoined(c);
  }

  lemma FourUnpacked(w: Byte, x: Byte, y: Byte, z: Byte)
    requires 0xf8 & w == 0xf0 && IsContinuation(x) && IsContinuation(y) && IsContinuation(z) && (0x07 & w) | (0x30 & x) != 0
    ensures
      var c := Low(w, 0x07, 18) | Low(x, 0x3f, 12) | Low(y, 0x3f, 6) | Low(z, 0x3f, 0);
      && 0x1_0000 <= c <= 0x1f_ffff && w == 0xf0 | (c >> 18) as Byte
      && x == Continuation(c, 12) && y == Continuation(c, 6) && z == Continuation(c, 0)
  {
  }

  /** What was read is the code whose encoding is `e`. */
  predicate ReadsEncoding(e: seq<Byte>, r: Read) {
    r.Good? ==> IsCode(r.code) && r.len == |e| && Encode(r.code) == e
  }

  lemma OneReads(a: Byte)
    requires a < 0x80
    ensures ReadsEncoding([a], Good(a as Code, 1))
  {
    assert a as Code < 0x80 && (a as Code) as Byte == a;
  }

  lemma TwoReads(a: Byte, b: Byte)
    requires 0xe0 & a == 0xc0
    ensures ReadsEncoding([a, b], Two(a, b))
  {
    hide IsContinuation, Low, Continuation;
    if Two(a, b).Good? { TwoUnpacked(a, b); }
  }

  lemma ThreeReads(a: Byte, b: Byte, c: Byte)
    requires 0xf0 & a == 0xe0
    ensures ReadsEncoding([a, b, c], Three(a, b, c))
  {
    hide IsContinuation, Low, Continuation;
    if Three(a, b, c).Good? { ThreeUnpacked(a, b, c); }
  }

  lemma FourReads(a: Byte, b: Byte, c: Byte, d: Byte)
    requires 0xf8 & a == 0xf0
    ensures ReadsEncoding([a, b, c, d], Four(a, b, c, d))
  {
    hide IsContinuation, Low, Continuation;
    if Four(a, b, c, d).Good? { FourUnpacked(a, b, c, d); }
  }

  lemma BadReads(e: seq<Byte>)
    ensures ReadsEncoding(e, Bad)
  {
  }

  /** Whatever is read is the shortest encoding of a code. */
  lemma ReadIsEncoding(p: seq<Byte>) returns (e: seq<Byte>)
    requires p != []
    ensures e <= p && ReadsEncoding(e, GetCode(p))
  {
    hide ReadsEncoding, Two, Three, Four;
    e := [];
    if p[0] < 0x80 {
      e := [p[0]];
      OneReads(p[0]);
    } else if 0xe0 & p[0] == 0xc0 && |p| >= 2 {
      e := [p[0], p[1]];
      TwoReads(p[0], p[1]);
    } else if 0xf0 & p[0] == 0xe0 && |p| >= 3 {
      e := [p[0], p[1], p[2]];
      ThreeReads(p[0], p[1], p[2]);
    } else if 0xf8 & p[0] == 0xf0 && |p| >= 4 {
      e := [p[0], p[1], p[2], p[3]];
      FourReads(p[0], p[1], p[2], p[3]);
    }
    BadReads(e);
  }

  /** The first byte tells the length. */
  lemma LeadByte(b: Byte)
    ensures 0xe0 & b == 0xc0 ==> b >= 0x80
    ensures 0xf0 & b == 0xe0 ==> b >= 0x80 && 0xe0 & b != 0xc0
    ensures 0xf8 & b == 0xf0 ==> b >= 0x80 && 0xe0 & b != 0xc0 && 0xf0 & b != 0xe0
  {
  }

  lemma OneIsRead(c: Code)
    requires c < 0x80
    ensures (c as Byte) < 0x80 && (c as Byte) as Code == c
  {
  }

  lemma TwoIsRead(c: Code)
    requires 0x80 <= c < 0x800
    ensures
      var a := 0xc0 | (c >> 6) as Byte;
      a >= 0x80 && 0xe0 & a == 0xc0 && Two(a, Continuation(c, 0)) == Good(c, 2)
  {
    hide IsContinuation, Low, Continuation;
    TwoPacked(c);
    LeadByte(0xc0 | (c >> 6) as Byte);
  }

  lemma ThreeIsRead(c: Code)
    requires IsCode(c) && 0x800 <= c < 0x1_0000
    ensures
      var a := 0xe0 | (c >> 12) as Byte;
      && a >= 0x80 && 0xe0 & a != 0xc0 && 0xf0 & a == 0xe0
      && Three(a, Continuation(c, 6), Continuation(c, 0)) == Good(c, 3)
  {
    hide IsContinuation, Low, Continuation;
    ThreePacked(c);
    LeadByte(0xe0 | (c >> 12) as Byte);
  }

  lemma FourIsRead(c: Code)
    requires 0x1_0000 <= c <= 0x1f_ffff
    ensures
      var a := 0xf0 | (c >> 18) as Byte;
      && a >= 0x80 && 0xe0 & a != 0xc0 && 0xf0 & a != 0xe0 && 0xf8 & a == 0xf0
      && Four(a, Continuation(c, 12), Continuation(c, 6), Continuation(c, 0)) == Good(c, 4)
  {
    hide IsContinuation, Low, Continuation;
    FourPacked(c);
    LeadByte(0xf0 | (c >> 18) as Byte);
  }

  /** Every encoding is read, whatever comes after it. */
  lemma EncodingIsRead(c: Code, p: seq<Byte>)
    requires IsCode(c) && Encode(c) <= p
    ensures GetCode(p) == Good(c, |Encode(c)|)
  {
    hide Continuation, Two, Three, Four;
    var e := Encode(c);
    assert forall i :: 0 <= i < |e| ==> p[i] == e[i];
    if c < 0x80 {
      OneIsRead(c);
    } else if c < 0x800 {
      TwoIsRead(c);
    } else if c < 0x1_0000 {
      ThreeIsRead(c);
    } else {
      FourIsRead(c);
    }
  }

  /** Reading succeeds exactly on the shortest encodings of the codes up to
      0x1fffff that are not surrogates. */
  lemma GetCodeExactly(p: seq<Byte>, c: Code, len: nat)
    requires p != []
    ensures GetCode(p) == Good(c, len) <==> IsCode(c) && len == |Encode(c)| && Encode(c) <= p
  {
    hide GetCode, Encode;
    var e := ReadIsEncoding(p);
    if IsCode(c) && Encode(c) <= p { EncodingIsRead(c, p); }
  }

  /** The first code above those of Unicode is taken. */
  lemma CodeAboveUnicode()
    ensures GetCode([0xf4, 0x90, 0x80, 0x80]) == Good(0x11_0000, 4)
  {
    var a, b, c, d: Byte := 0xf4, 0x90, 0x80, 0x80;
    assert IsContinuation(b) && IsContinuation(c) && IsContinuation(d) && (0x07 & a) | (0x30 & b) != 0;
    assert Low(a, 0x07, 18) | Low(b, 0x3f, 12) | Low(c, 0x3f, 6) | Low(d, 0x3f, 0) == 0x11_0000;
  }

  // ----- Whole strings -----

  const REPLACEMENT: seq<Byte> := [0xef, 0xbf, 0xbd]

  ghost predicate AllCodes(cs: seq<Code>) {
    forall i :: 0 <= i < |cs| ==> IsCode(cs[i])
  }

  ghost function EncodeAll(cs: seq<Code>): (r: seq<Byte>)
    requires AllCodes(cs)
  {
    if cs == [] then [] else Encode(cs[0]) + EncodeAll(cs[1..])
  }

  /** The bytes with a replacement for everything that cannot be read. */
  ghost function Repaired(p: seq<Byte>): (r: seq<Byte>)
    decreases |p|
  {
    if p == [] then []
    else
      var r := GetCode(p);
      if r.Good? then p[..r.len] + Repaired(p[r.len..]) else REPLACEMENT + Repaired(p[1..])
  }

  /** The codes, 0xfffd for what cannot be read. */
  ghost function Codes(p: seq<Byte>): (r: seq<Code>)
    decreases |p|
  {
    if p == [] then []
    else
      var r := GetCode(p);
      if r.Good? then [r.code] + Codes(p[r.len..]) else [0xfffd] + Codes(p[1..])
  }

  /** How many replacements there are. */
  ghost function Replaced(p: seq<Byte>): (r: nat)
    decreases |p|
  {
    if p == [] then 0
    else
      var r := GetCode(p);
      if r.Good? then Replaced(p[r.len..]) else 1 + Replaced(p[1..])
  }

  lemma ReplacementIsCode()
    ensures IsCode(0xfffd) && Encode(0xfffd) == REPLACEMENT
  {
  }

  /** The repaired bytes are the encodings of the codes. */
  lemma {:induction false} RepairedIsEncoded(p: seq<Byte>)
    ensures AllCodes(Codes(p)) && EncodeAll(Codes(p)) == Repaired(p)
    decreases |p|
  {
    hide GetCode, Encode;
    if p != [] {
      var r := GetCode(p);
      if r.Good? {
        var e := ReadIsEncoding(p);
        RepairedIsEncoded(p[r.len..]);
      } else {
        ReplacementIsCode();
        RepairedIsEncoded(p[1..]);
      }
    }
  }

  /** Encodings are read back one by one, whatever comes after them. */
  lemma {:induction false} EncodedIsRead(cs: seq<Code>, b: seq<Byte>)
    requires AllCodes(cs)
    ensures Codes(EncodeAll(cs) + b) == cs + Codes(b)
    ensures Repaired(EncodeAll(cs) + b) == EncodeAll(cs) + Repaired(b)
    ensures Replaced(EncodeAll(cs) + b) == Replaced(b)
  {
    hide Encode, GetCode, Codes, Repaired, Replaced;
    if cs == [] {
      assert EncodeAll(cs) + b == b && cs + Codes(b) == Codes(b) && EncodeAll(cs) + Repaired(b) == Repaired(b);
    } else {
      var e, t, u := Encode(cs[0]), EncodeAll(cs[1..]), cs[1..];
      EncodedIsRead(u, b);
      EncodingIsRead(cs[0], e + (t + b));
      FirstRead(e, t + b, cs[0]);
      Regroup(e, t, b);
      Regroup(e, t, Repaired(b));
      Regroup([cs[0]], u, Codes(b));
      assert cs == [cs[0]] + u;
    }
  }

  lemma FirstRead(e: seq<Byte>, rest: seq<Byte>, c: Code)
    requires e != [] && GetCode(e + rest) == Good(c, |e|)
    ensures Codes(e + rest) == [c] + Codes(rest) && Repaired(e + rest) == e + Repaired(rest) && Replaced(e + rest) == Replaced(rest)
  {
    hide GetCode;
    assert (e + rest)[..|e|] == e && (e + rest)[|e|..] == rest;
  }

  /** Repairing is the identity on what it makes, and keeps the codes. */
  lemma RepairedTwice(p: seq<Byte>)
    ensures Repaired(Repaired(p)) == Repaired(p) && Codes(Repaired(p)) == Codes(p) && Replaced(Repaired(p)) == 0
  {
    var cs := Codes(p);
    RepairedIsEncoded(p);
    EncodedIsRead(cs, []);
    assert EncodeAll(cs) + [] == EncodeAll(cs) && cs + [] == cs;
  }

  lemma {:induction false} NothingReplaced(p: seq<Byte>)
    requires Replaced(p) == 0
    ensures Repaired(p) == p
    decreases |p|
  {
    hide GetCode;
    if p != [] {
      var r := GetCode(p);
      NothingReplaced(p[r.len..]);
    }
  }

  /** A string stays as it is if and only if nothing in it is replaced. */
  lemma WellFormedExactly(p: seq<Byte>)
    ensures Repaired(p) == p <==> Replaced(p) == 0
  {
    if Replaced(p) == 0 { NothingReplaced(p); }
    RepairedTwice(p);
  }

  /** Well-formed strings, one after the other, have their codes one after the other. */
  lemma ConcatCodes(a: seq<Byte>, b: seq<Byte>)
    requires Replaced(a) == 0
    ensures Codes(a + b) == Codes(a) + Codes(b) && Replaced(a + b) == Replaced(b)
  {
    NothingReplaced(a);
    RepairedIsEncoded(a);
    EncodedIsRead(Codes(a), b);
  }

  /** The code at a position between two codes. */
  lemma CodeAt(cs: seq<Code>, k: nat)
    requires AllCodes(cs) && k < |cs|
    ensures
      var start := |EncodeAll(cs[..k])|;
      && start < |EncodeAll(cs)| && GetCode(EncodeAll(cs)[start..]) == Good(cs[k], |Encode(cs[k])|)
      && start + |Encode(cs[k])| == |EncodeAll(cs[..k + 1])|
  {
    EncodeConcat(cs[..k], cs[k..]);
    EncodeConcat(cs[..k], [cs[k]]);
    assert cs == cs[..k] + cs[k..] && cs[..k + 1] == cs[..k] + [cs[k]];
    assert EncodeAll([cs[k]]) == Encode(cs[k]) + EncodeAll([]);
    var start := |EncodeAll(cs[..k])|;
    assert EncodeAll(cs)[start..] == EncodeAll(cs[k..]) == Encode(cs[k]) + EncodeAll(cs[k..][1..]);
    EncodingIsRead(cs[k], EncodeAll(cs)[start..]);
  }

  lemma {:induction false} EncodeConcat(a: seq<Code>, b: seq<Code>)
    requires AllCodes(a) && AllCodes(b)
    ensures AllCodes(a + b) && EncodeAll(a + b) == EncodeAll(a) + EncodeAll(b)
  {
    hide Encode;
    if a == [] {
      assert a + b == b;
    } else {
      EncodeConcat(a[1..], b);
      assert (a + b)[1..] == a[1..] + b;
    }
  }

  // ----- Repairs by their bytes -----

  /** Either the encoding of a code, or one byte that no encoding starts at, for
      which 0xfffd stands. */
  ghost predicate IsPiece(p: seq<Byte>, i: nat, next: nat, c: Code, bad: bool) {
    && i < next <= |p|
    && if bad then next == i + 1 && c == 0xfffd && (forall d :: IsCode(d) ==> !(Encode(d) <= p[i..]))
       else IsCode(c) && p[i..next] == Encode(c)
  }

  /** A cut of all bytes from a position on into such pieces. */
  ghost predicate IsCut(p: seq<Byte>, i: nat, cs: seq<Code>, bad: seq<bool>, cuts: seq<nat>) {
    && |cuts| == |cs| + 1 == |bad| + 1 && cuts[0] == i && cuts[|cs|] == |p|
    && forall k :: 0 <= k < |cs| ==> IsPiece(p, cuts[k], cuts[k + 1], cs[k], bad[k])
  }

  /** The encodings of a number of codes that the bytes are cut into, of which some stand for bad bytes. */
  ghost predicate IsRepair(p: seq<Byte>, r: seq<Byte>, length: nat, replaced: nat) {
    exists cs, bad, cuts ::
      && IsCut(p, 0, cs, bad, cuts) && AllCodes(cs) && r == EncodeAll(cs)
      && length == |cs| && replaced == multiset(bad)[true]
  }

  /** What is read at a position is the only piece that starts there. */
  lemma PieceExactly(p: seq<Byte>, i: nat, next: nat, c: Code, bad: bool)
    requires i < |p|
    ensures
      var r := GetCode(p[i..]);
      IsPiece(p, i, next, c, bad) <==>
        if r.Good? then !bad && c == r.code && next == i + r.len else bad && c == 0xfffd && next == i + 1
  {
    hide GetCode, Encode, IsCode;
    var r := GetCode(p[i..]);
    if r.Good? { GetCodeExactly(p[i..], r.code, r.len); }
    if IsCode(c) {
      GetCodeExactly(p[i..], c, |Encode(c)|);
      StartsAt(p, i, Encode(c));
    }
    forall d | IsCode(d) && Encode(d) <= p[i..] ensures r.Good? { GetCodeExactly(p[i..], d, |Encode(d)|); }
  }

  lemma StartsAt(p: seq<Byte>, i: nat, e: seq<Byte>)
    requires i <= |p|
    ensures e <= p[i..] <==> i + |e| <= |p| && p[i..i + |e|] == e
  {
    if i + |e| <= |p| { assert p[i..][..|e|] == p[i..i + |e|]; }
  }

  lemma PieceWithin(p: seq<Byte>, i: nat, next: nat, c: Code, bad: bool)
    requires IsPiece(p, i, next, c, bad)
    ensures i < next <= |p|
  {
  }

  lemma NoPieces(p: seq<Byte>, i: nat, bad: seq<bool>, cuts: seq<nat>)
    requires IsCut(p, i, [], bad, cuts)
    ensures i == |p| && bad == []
  {
  }

  lemma FirstPiece(p: seq<Byte>, i: nat, cs: seq<Code>, bad: seq<bool>, cuts: seq<nat>)
    requires IsCut(p, i, cs, bad, cuts) && cs != []
    ensures |cs| == |bad| < |cuts| && i < |p|
    ensures IsPiece(p, i, cuts[1], cs[0], bad[0]) && IsCut(p, cuts[1], cs[1..], bad[1..], cuts[1..])
  {
    hide IsPiece;
    assert IsPiece(p, cuts[0], cuts[1], cs[0], bad[0]);
    PieceWithin(p, i, cuts[1], cs[0], bad[0]);
    forall k | 0 <= k < |cs| - 1 ensures IsPiece(p, cuts[1..][k], cuts[1..][k + 1], cs[1..][k], bad[1..][k]) {
      assert IsPiece(p, cuts[k + 1], cuts[k + 2], cs[k + 1], bad[k + 1]);
    }
  }

  lemma PieceBefore(
      p: seq<Byte>, i: nat, next: nat, c: Code, b: bool, cs: seq<Code>, bad: seq<bool>, cuts: seq<nat>)
    requires IsPiece(p, i, next, c, b) && IsCut(p, next, cs, bad, cuts)
    ensures IsCut(p, i, [c] + cs, [b] + bad, [i] + cuts)
  {
    hide IsPiece;
    var cs', bad', cuts': seq<nat> := [c] + cs, [b] + bad, [i] + cuts;
    forall k | 0 <= k < |cs'| ensures IsPiece(p, cuts'[k], cuts'[k + 1], cs'[k], bad'[k]) {
      if k > 0 { assert IsPiece(p, cuts[k - 1], cuts[k], cs[k - 1], bad[k - 1]); }
    }
  }

  lemma {:induction false} CutIsRead(p: seq<Byte>, i: nat, cs: seq<Code>, bad: seq<bool>, cuts: seq<nat>)
    requires i <= |p| && IsCut(p, i, cs, bad, cuts)
    ensures cs == Codes(p[i..]) && multiset(bad)[true] == Replaced(p[i..])
    decreases |p| - i
  {
    hide IsPiece, IsCut, GetCode, Codes, Replaced, Repaired;
    if cs == [] {
      NoPieces(p, i, bad, cuts);
      Nothing();
      assert p[i..] == [];
    } else {
      FirstPiece(p, i, cs, bad, cuts);
      PieceWithin(p, i, cuts[1], cs[0], bad[0]);
      PieceExactly(p, i, cuts[1], cs[0], bad[0]);
      CutIsRead(p, cuts[1], cs[1..], bad[1..], cuts[1..]);
      Turn(p, i);
      assert cs == [cs[0]] + cs[1..] && bad == [bad[0]] + bad[1..];
    }
  }

  lemma {:induction false} ReadIsCut(p: seq<Byte>, i: nat) returns (bad: seq<bool>, cuts: seq<nat>)
    requires i <= |p|
    ensures IsCut(p, i, Codes(p[i..]), bad, cuts)
    decreases |p| - i
  {
    hide IsPiece, GetCode, Codes, Replaced, Repaired;
    if i == |p| {
      Nothing();
      assert p[i..] == [];
      bad, cuts := [], [i];
    } else {
      var r := GetCode(p[i..]);
      var next, c := if r.Good? then i + r.len else i + 1, if r.Good? then r.code else 0xfffd;
      PieceExactly(p, i, next, c, r.Bad?);
      Turn(p, i);
      bad, cuts := ReadIsCut(p, next);
      PieceBefore(p, i, next, c, r.Bad?, Codes(p[next..]), bad, cuts);
      bad, cuts := [r.Bad?] + bad, [i] + cuts;
    }
  }

  /** There is only one repair of any bytes: every encoded code is kept, and
      every byte that none starts at, where one is expected, is replaced. */
  lemma RepairExactly(p: seq<Byte>, r: seq<Byte>, length: nat, replaced: nat)
    ensures IsRepair(p, r, length, replaced) <==>
      r == Repaired(p) && length == |Codes(p)| && replaced == Replaced(p)
  {
    hide IsCut, Codes, Replaced, Repaired;
    assert p[0..] == p;
    RepairedIsEncoded(p);
    var bad, cuts := ReadIsCut(p, 0);
    CutIsRead(p, 0, Codes(p), bad, cuts);
    if cs, bad', cuts' :|
      && IsCut(p, 0, cs, bad', cuts') && AllCodes(cs) && r == EncodeAll(cs)
      && length == |cs| && replaced == multiset(bad')[true]
    {
      CutIsRead(p, 0, cs, bad', cuts');
    }
  }

  /** The k-th code starts at byte `i`. */
  ghost predicate CodeStarts(cs: seq<Code>, k: nat, i: nat)
    requires k <= |cs|
  {
    AllCodes(cs[..k]) && |EncodeAll(cs[..k])| == i
  }

  lemma ContinuationIsBad(p: seq<Byte>)
    requires p != [] && IsContinuation(p[0])
    ensures GetCode(p) == Bad
  {
    hide Two, Three, Four;
    var b := p[0];
    assert b >= 0x80 && 0xe0 & b != 0xc0 && 0xf0 & b != 0xe0 && 0xf8 & b != 0xf0;
  }

  lemma BehindTheLead(c: Code, j: nat)
    requires IsCode(c) && 0 < j < |Encode(c)|
    ensures IsContinuation(Encode(c)[j])
  {
    hide Continuation, IsContinuation;
    SixBits(c, 12);
    SixBits(c, 6);
    SixBits(c, 0);
  }

  /** A code can be read only where one starts. */
  lemma {:induction false} ReadAtStart(cs: seq<Code>, i: nat) returns (k: nat)
    requires AllCodes(cs) && i < |EncodeAll(cs)| && GetCode(EncodeAll(cs)[i..]).Good?
    ensures k < |cs| && CodeStarts(cs, k, i)
  {
    hide Encode, GetCode, IsContinuation;
    var e, t := Encode(cs[0]), EncodeAll(cs[1..]);
    assert EncodeAll(cs) == e + t;
    if i == 0 {
      k := 0;
    } else if i < |e| {
      BehindTheLead(cs[0], i);
      ContinuationIsBad(EncodeAll(cs)[i..]);
      assert false;
    } else {
      assert (e + t)[i..] == t[i - |e|..];
      k := ReadAtStart(cs[1..], i - |e|);
      k := k + 1;
      assert cs[..k][1..] == cs[1..][..k - 1];
    }
  }

  /** At a byte position a code can be read if and only if one starts there, and
      then it is that code, and the next one starts behind it. */
  lemma ReadExactly(p: seq<Byte>, i: nat)
    requires Replaced(p) == 0 && i < |p|
    ensures
      var cs, r := Codes(p), GetCode(p[i..]);
      && (r.Good? <==> exists k :: 0 <= k < |cs| && CodeStarts(cs, k, i))
      && (forall k :: 0 <= k < |cs| && CodeStarts(cs, k, i) ==> r.Good? && r.code == cs[k] && CodeStarts(cs, k + 1, i + r.len))
  {
    hide GetCode, Codes, Replaced, Encode;
    var cs := Codes(p);
    NothingReplaced(p);
    RepairedIsEncoded(p);
    forall k | 0 <= k < |cs| && CodeStarts(cs, k, i)
      ensures GetCode(p[i..]).Good? && GetCode(p[i..]).code == cs[k] && CodeStarts(cs, k + 1, i + GetCode(p[i..]).len)
    {
      CodeAt(cs, k);
    }
    if GetCode(p[i..]).Good? {
      var k := ReadAtStart(cs, i);
    }
  }

  // ----- The string object -----

  class Text {
    var replacementNum: nat
    var length: nat
    var bytes: nat
    var data: array<Byte>

    ghost predicate Valid()
      reads this, data
    {
      && data.Length == bytes + 1 && data[bytes] == 0
      && Replaced(data[..bytes]) == 0 && length == |Codes(data[..bytes])|
    }

    /** Makes room for a string of that many codes and bytes. */
    constructor (length: nat, bytes: nat)
      ensures replacementNum == 0 && this.length == length && this.bytes == bytes
      ensures fresh(data) && data.Length == bytes + 1
    {
      replacementNum := 0;
      this.length, this.bytes := length, bytes;
      data := new Byte[bytes + 1];
    }

    /** Reads the code at a byte position: there is one if and only if the
        position is where a code of the string starts, and it is that code. */
    method Get(i: nat) returns (r: Read)
      requires Valid() && i < bytes
      ensures r.Good? <==> exists k :: 0 <= k < length && CodeStarts(Codes(data[..bytes]), k, i)
      ensures forall k :: 0 <= k < length && CodeStarts(Codes(data[..bytes]), k, i) ==>
        r.Good? && r.code == Codes(data[..bytes])[k] && CodeStarts(Codes(data[..bytes]), k + 1, i + r.len)
    {
      hide GetCode, CodeStarts, Codes, Replaced;
      ReadExactly(data[..bytes], i);
      assert data[..bytes][i..] == data[i..bytes];
      r := GetCode(data[i..bytes]);
    }
  }

  /** What one turn of either pass takes. */
  lemma Turn(str: seq<Byte>, i: nat)
    requires i < |str|
    ensures
      var r := GetCode(str[i..]);
      if r.Good? then
        && Repaired(str[i..]) == str[i..i + r.len] + Repaired(str[i + r.len..])
        && Codes(str[i..]) == [r.code] + Codes(str[i + r.len..]) && Replaced(str[i..]) == Replaced(str[i + r.len..])
      else
        && Repaired(str[i..]) == REPLACEMENT + Repaired(str[i + 1..])
        && Codes(str[i..]) == [0xfffd] + Codes(str[i + 1..]) && Replaced(str[i..]) == 1 + Replaced(str[i + 1..])
  {
    hide GetCode;
    var r := GetCode(str[i..]);
    var n := if r.Good? then r.len else 1;
    assert str[i..][n..] == str[i + n..] && str[i..][..n] == str[i..i + n];
  }

  lemma Nothing()
    ensures Repaired([]) == [] && Codes([]) == [] && Replaced([]) == 0
  {
  }

  /** How many codes and bytes the repaired string has: the first pass. */
  method Measure(str: seq<Byte>) returns (length: nat, bytes: nat)
    ensures length == |Codes(str)| && bytes == |Repaired(str)|
  {
    hide GetCode, Repaired, Codes, Replaced;
    Nothing();
    length, bytes := 0, 0;
    var i := 0;
    assert str[0..] == str;
    while |str| > i
      invariant 0 <= i <= |str|
      invariant length + |Codes(str[i..])| == |Codes(str)| && bytes + |Repaired(str[i..])| == |Repaired(str)|
    {
      var r := GetCode(str[i..]);
      Turn(str, i);
      if r.Good? {
        i := i + r.len;
        bytes := bytes + r.len;
      } else {
        i := i + 1;
        bytes := bytes + 3;
      }
      length := length + 1;
    }
    assert str[i..] == [];
  }

  /** Copies bytes to the place `to` of an array. */
  method CopyBytes(data: array<Byte>, to: nat, from: seq<Byte>)
    requires to + |from| <= data.Length
    modifies data
    ensures data[..to + |from|] == old(data[..to]) + from
  {
    forall k | 0 <= k < |from| { data[to + k] := from[k]; }
    assert data[..to] == old(data[..to]);
    assert data[to..to + |from|] == from;
  }

  /** The second pass: what is written fills exactly the room that was measured. */
  method WriteRepaired(text: Text, str: seq<Byte>)
    requires text.data.Length == text.bytes + 1 && text.bytes == |Repaired(str)|
    modifies text`replacementNum, text.data
    ensures text.data[..text.bytes] == Repaired(str) && text.data[text.bytes] == 0
    ensures text.replacementNum == old(text.replacementNum) + Replaced(str)
  {
    hide GetCode, Repaired, Codes, Replaced;
    var data := text.data;
    var dst := 0;
    var i := 0;
    ghost var count := text.replacementNum + Replaced(str);
    Nothing();
    assert str[0..] == str;
    while |str| > i
      invariant 0 <= i <= |str| && 0 <= dst < data.Length
      invariant data[..dst] + Repaired(str[i..]) == Repaired(str)
      invariant text.replacementNum + Replaced(str[i..]) == count
    {
      var r := GetCode(str[i..]);
      Turn(str, i);
      if r.Good? {
        Fits(data[..dst], str[i..i + r.len], Repaired(str[i + r.len..]));
        CopyBytes(data, dst, str[i..i + r.len]);
        i := i + r.len;
        dst := dst + r.len;
      } else {
        Fits(data[..dst], REPLACEMENT, Repaired(str[i + 1..]));
        text.replacementNum := text.replacementNum + 1;
        i := i + 1;
        CopyBytes(data, dst, REPLACEMENT);
        dst := dst + 3;
      }
    }
    assert str[i..] == [];
    assert data[..dst] == Repaired(str);
    data[dst] := 0;
    assert data[..dst] == Repaired(str);
  }

  /** A text object with the repaired string. */
  method Create(str: seq<Byte>) returns (text: Text)
    ensures fresh(text) && fresh(text.data) && text.Valid()
    ensures text.data[..text.bytes] == Repaired(str) && Codes(text.data[..text.bytes]) == Codes(str)
    ensures text.replacementNum == Replaced(str)
    ensures IsRepair(str, text.data[..text.bytes], text.length, text.replacementNum)
  {
    hide Repaired, Codes, Replaced, IsRepair;
    var length, bytes := Measure(str);
    text := new Text(length, bytes);
    WriteRepaired(text, str);
    RepairedTwice(str);
    RepairExactly(str, text.data[..text.bytes], text.length, text.replacementNum);
  }

  lemma Fits(a: seq<Byte>, b: seq<Byte>, c: seq<Byte>)
    ensures a + (b + c) == (a + b) + c && |a| + |b| <= |a + (b + c)|
  {
  }

  /** One string after the other. */
  method Concat(l: Text, r: Text) returns (text: Text)
    requires l.Valid() && r.Valid()
    ensures fresh(text) && text.Valid()
    ensures text.data[..text.bytes] == l.data[..l.bytes] + r.data[..r.bytes]
    ensures Codes(text.data[..text.bytes]) == Codes(l.data[..l.bytes]) + Codes(r.data[..r.bytes])
    ensures text.replacementNum == l.replacementNum + r.replacementNum
  {
    hide Codes, Replaced;
    text := new Text(l.length + r.length, l.bytes + r.bytes);
    text.replacementNum := l.replacementNum + r.replacementNum;
    CopyBytes(text.data, 0, l.data[..l.bytes]);
    assert text.data[..l.bytes] == l.data[..l.bytes];
    CopyBytes(text.data, l.bytes, r.data[..r.bytes]);
    text.data[text.bytes] := 0;
    assert text.data[..text.bytes] == l.data[..l.bytes] + r.data[..r.bytes];
    ConcatCodes(l.data[..l.bytes], r.data[..r.bytes]);
  }
}
