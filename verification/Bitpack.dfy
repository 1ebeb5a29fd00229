/** Packing words, strings and floating-point patterns into a stream of bits,
    the lowest bit of every byte and of every word first. */
module Bitpack {
  import opened Sequences

  type Byte = bv8
  type Word = bv32

  // ----- Amounts to shift by -----

  function By(n: nat): (b: bv8)
    requires n <= 32
    ensures b as int == n
  {
    n as bv8
  }

  lemma SameNumber(a: bv8, b: bv8)
    requires a as int == b as int
    ensures a == b
  {
    assert (a as int) as bv8 == a && (b as int) as bv8 == b;
  }

  lemma OneMore(b: bv8)
    requires b < 255
    ensures (b + 1) as int == b as int + 1
  {
  }

  lemma ByOneMore(n: nat)
    requires n < 32
    ensures By(n + 1) == By(n) + 1
  {
    OneMore(By(n));
    SameNumber(By(n + 1), By(n) + 1);
  }

  lemma ByLess(a: nat, b: nat)
    requires a <= 32 && b <= 32
    ensures a < b <==> By(a) < By(b)
    ensures a == b <==> By(a) == By(b)
  {
  }

  lemma {:induction false} BySum(a: nat, b: nat)
    requires a + b <= 32
    ensures By(a + b) == By(a) + By(b)
  {
    hide By;
    if b == 0 {
      SameNumber(By(0), 0);
    } else {
      BySum(a, b - 1);
      ByOneMore(a + b - 1);
      ByOneMore(b - 1);
    }
  }

  // ----- Bits of words and bytes -----

  predicate Bit(u: Word, j: nat)
    requires j < 32
  {
    (u >> By(j)) & 1 == 1
  }

  predicate BitOfByte(b: Byte, j: nat)
    requires j < 8
  {
    (b >> By(j)) & 1 == 1
  }

  /** The lowest bits of a word, moved up. */
  function Chunk(u: Word, avail: bv8, shift: bv8): (r: Word)
    requires avail <= 8 && shift < 8
  {
    ((((1 as Word) << avail) - 1) & u) << shift
  }

  lemma ChunkBits(u: Word, avail: bv8, shift: bv8, j: bv8)
    requires 1 <= avail && shift < 8 && avail <= 8 - shift && j < 8
    ensures Chunk(u, avail, shift) < 0x100
    ensures (((Chunk(u, avail, shift) as Byte) >> j) & 1 == 1) <==> shift <= j < shift + avail && (u >> (j - shift)) & 1 == 1
  {
  }

  lemma OrBits(b: Byte, c: Byte, j: bv8)
    requires j < 8
    ensures ((b | c) >> j) & 1 == 1 <==> (b >> j) & 1 == 1 || (c >> j) & 1 == 1
  {
  }

  lemma ZeroAbove(b: Byte, shift: bv8, j: bv8)
    requires shift <= j < 8 && b >> shift == 0
    ensures (b >> j) & 1 == 0
  {
  }

  lemma PutBit(b: Byte, u: Word, shift: bv8, avail: bv8, j: bv8)
    requires 1 <= avail && shift < 8 && avail <= 8 - shift && j < 8 && b >> shift == 0
    ensures Chunk(u, avail, shift) < 0x100
    ensures ((b | Chunk(u, avail, shift) as Byte) >> j) & 1 == 1 <==>
      if j < shift then (b >> j) & 1 == 1 else j < shift + avail && (u >> (j - shift)) & 1 == 1
  {
    hide Chunk;
    ChunkBits(u, avail, shift, j);
    OrBits(b, Chunk(u, avail, shift) as Byte, j);
    if j >= shift { ZeroAbove(b, shift, j); }
  }

  lemma ByGap(a: nat, b: nat)
    requires b <= a <= 32
    ensures By(a - b) == By(a) - By(b)
  {
    hide By;
    BySum(b, a - b);
  }

  lemma ByChunk(shift: nat, avail: nat, j: nat)
    requires 1 <= avail && shift + avail <= 8 && j < 8
    ensures 1 <= By(avail) && By(shift) < 8 && By(avail) <= 8 - By(shift) && By(j) < 8
    ensures (j < shift <==> By(j) < By(shift)) && (j < shift + avail <==> By(j) < By(shift) + By(avail))
    ensures j >= shift ==> By(j - shift) == By(j) - By(shift)
  {
    ByEight(shift, avail);
    BySum(shift, avail);
    ByLess(j, shift);
    ByLess(j, shift + avail);
    if j >= shift { ByGap(j, shift); }
  }

  lemma ByEight(shift: nat, avail: nat)
    requires 1 <= avail && shift + avail <= 8
    ensures 1 <= By(avail) && By(shift) < 8 && By(avail) <= 8 - By(shift) && By(shift + avail) <= 8
  {
  }

  lemma PutRoom(b: Byte, u: Word, shift: nat, avail: nat)
    requires 1 <= avail && shift + avail <= 8 && b >> By(shift) == 0
    ensures Chunk(u, By(avail), By(shift)) < 0x100
    ensures shift + avail < 8 ==> (b | Chunk(u, By(avail), By(shift)) as Byte) >> By(shift + avail) == 0
  {
    hide Chunk, By;
    ByEight(shift, avail);
    BySum(shift, avail);
    RoomAbove(b, u, By(shift), By(avail));
  }

  /** After a chunk the byte has the old bits, then those of the word, then zeros. */
  lemma PutBits(b: Byte, u: Word, shift: nat, avail: nat, j: nat)
    requires 1 <= avail && shift + avail <= 8 && j < 8 && b >> By(shift) == 0
    ensures Chunk(u, By(avail), By(shift)) < 0x100
    ensures BitOfByte(b | Chunk(u, By(avail), By(shift)) as Byte, j) <==>
      if j < shift then BitOfByte(b, j) else j < shift + avail && Bit(u, j - shift)
  {
    hide Chunk, By;
    ByChunk(shift, avail, j);
    PutBit(b, u, By(shift), By(avail), By(j));
  }

  lemma RoomAbove(b: Byte, u: Word, shift: bv8, avail: bv8)
    requires 1 <= avail && shift < 8 && avail <= 8 - shift && b >> shift == 0
    ensures Chunk(u, avail, shift) < 0x100
    ensures (b | Chunk(u, avail, shift) as Byte) >> (shift + avail) == 0
  {
  }

  /** A byte that has the bits of `b`, then the lowest of the word, then zeros. */
  ghost predicate ChunkIn(c: Byte, b: Byte, u: Word, shift: nat, avail: nat)
    requires shift + avail <= 8
  {
    forall j :: 0 <= j < 8 ==> (BitOfByte(c, j) <==> if j < shift then BitOfByte(b, j) else j < shift + avail && Bit(u, j - shift))
  }

  lemma PutChunk(b: Byte, u: Word, shift: nat, avail: nat)
    requires 1 <= avail && shift + avail <= 8 && b >> By(shift) == 0
    ensures Chunk(u, By(avail), By(shift)) < 0x100
    ensures ChunkIn(b | Chunk(u, By(avail), By(shift)) as Byte, b, u, shift, avail)
    ensures shift + avail < 8 ==> (b | Chunk(u, By(avail), By(shift)) as Byte) >> By(shift + avail) == 0
  {
    hide BitOfByte, Bit, By, Chunk;
    PutRoom(b, u, shift, avail);
    var c := b | Chunk(u, By(avail), By(shift)) as Byte;
    forall j | 0 <= j < 8
      ensures BitOfByte(c, j) <==> if j < shift then BitOfByte(b, j) else j < shift + avail && Bit(u, j - shift)
    {
      PutBits(b, u, shift, avail, j);
    }
  }

  lemma ShiftedTwice(u: Word, x: bv8, y: bv8)
    requires x <= 8 && y < 32 - x
    ensures ((u >> x) >> y) & 1 == (u >> (x + y)) & 1
  {
  }

  lemma ShiftedBit(u: Word, a: nat, j: nat)
    requires a <= 8 && a + j < 32
    ensures Bit(u >> By(a), j) == Bit(u, a + j)
  {
    hide By;
    BySum(a, j);
    BySmall(a, j);
    ShiftedTwice(u, By(a), By(j));
  }

  lemma BySmall(a: nat, j: nat)
    requires a <= 8 && a + j < 32
    ensures By(a) <= 8 && By(j) < 32 - By(a)
  {
  }

  // ----- Streams of bits -----

  ghost function WordBits(u: Word, n: nat): (s: seq<bool>)
    requires n <= 32
    ensures |s| == n
    ensures forall j :: 0 <= j < n ==> s[j] == Bit(u, j)
  {
    seq(n, j requires 0 <= j < n => Bit(u, j))
  }

  ghost predicate BitAt(buf: seq<Byte>, k: nat)
    requires k < 8 * |buf|
  {
    BitOfByte(buf[k / 8], k % 8)
  }

  ghost function BitsAt(buf: seq<Byte>, from: nat, n: nat): (s: seq<bool>)
    requires from + n <= 8 * |buf|
    ensures |s| == n
    ensures forall j :: 0 <= j < n ==> s[j] == BitAt(buf, from + j)
  {
    seq(n, j requires 0 <= j < n => BitAt(buf, from + j))
  }

  /** The bits of a word come in runs: the lowest first, then those of what is left. */
  lemma WordBitsSplit(u: Word, n: nat, a: nat)
    requires a <= 8 && a <= n <= 32
    ensures WordBits(u, n) == WordBits(u, a) + WordBits(u >> By(a), n - a)
  {
    hide Bit, By;
    var v := u >> By(a);
    var l, r := WordBits(u, n), WordBits(u, a) + WordBits(v, n - a);
    forall j | 0 <= j < n ensures l[j] == r[j] {
      if j >= a { ShiftedBit(u, a, j - a); }
    }
  }

  lemma BitsAtSplit(buf: seq<Byte>, from: nat, a: nat, b: nat)
    requires from + a + b <= 8 * |buf|
    ensures BitsAt(buf, from, a + b) == BitsAt(buf, from, a) + BitsAt(buf, from + a, b)
  {
    hide BitAt;
  }

  /** The stream when a chunk has gone into the byte `ofs`. */
  lemma StreamGrows(old': seq<Byte>, buf: seq<Byte>, b: Byte, bitI: nat, u: Word, avail: nat)
    requires 1 <= avail && bitI % 8 + avail <= 8 && bitI + avail <= 8 * |buf| && |old'| == |buf|
    requires forall k :: 0 <= k < |buf| && k != bitI / 8 ==> buf[k] == old'[k]
    requires ChunkIn(buf[bitI / 8], b, u, bitI % 8, avail) && (bitI % 8 != 0 ==> b == old'[bitI / 8])
    ensures BitsAt(buf, 0, bitI + avail) == BitsAt(old', 0, bitI) + WordBits(u, avail)
  {
    hide BitOfByte, Bit;
    var l, r := BitsAt(buf, 0, bitI + avail), BitsAt(old', 0, bitI) + WordBits(u, avail);
    forall k | 0 <= k < bitI + avail ensures l[k] == r[k] {
      if k >= bitI {
        assert k / 8 == bitI / 8 && k % 8 == bitI % 8 + (k - bitI);
      } else if k / 8 == bitI / 8 {
        assert k % 8 < bitI % 8;
      }
    }
  }

  class BitPacker {
    var size: nat
    var buf: array<Byte>
    var bitI: nat

    /** The bits of the current byte that are not yet written are zero. */
    ghost predicate Valid()
      reads this, buf
    {
      && size == buf.Length && bitI <= 8 * size
      && (bitI % 8 != 0 ==> buf[bitI / 8] >> By(bitI % 8) == 0)
    }

    /** The bits that have been written, whatever the buffer held before. */
    ghost function Stream(): (s: seq<bool>)
      requires Valid()
      reads this, buf
      ensures |s| == bitI
    {
      BitsAt(buf[..], 0, bitI)
    }

    constructor (buf: array<Byte>)
      ensures Valid() && this.buf == buf && size == buf.Length && bitI == 0 && Stream() == []
    {
      size := buf.Length;
      this.buf := buf;
      bitI := 0;
    }

    /** Puts some of the lowest bits of a word into one byte, which is cleared first when it is a new one. */
    method WriteChunk(u: Word, avail: nat, shift: nat, ofs: nat)
      requires 1 <= avail && shift + avail <= 8 && ofs < buf.Length && (shift != 0 ==> buf[ofs] >> By(shift) == 0)
      modifies buf
      ensures forall k :: 0 <= k < buf.Length && k != ofs ==> buf[k] == old(buf[k])
      ensures ChunkIn(buf[ofs], if shift == 0 then 0 else old(buf[ofs]), u, shift, avail)
      ensures shift + avail < 8 ==> buf[ofs] >> By(shift + avail) == 0
    {
      hide BitOfByte, Bit, By, Chunk, ChunkIn;
      if shift == 0 {
        buf[ofs] := 0;
      }
      ghost var b := buf[ofs];
      NothingAbove(b, shift);
      PutChunk(b, u, shift, avail);
      buf[ofs] := buf[ofs] | Chunk(u, By(avail), By(shift)) as Byte;
    }

    method PackChunk(u: Word, avail: nat)
      requires Valid() && 1 <= avail && bitI % 8 + avail <= 8 && bitI + avail <= 8 * size
      modifies this`bitI, buf
      ensures Valid() && bitI == old(bitI) + avail
      ensures Stream() == old(Stream()) + WordBits(u, avail)
    {
      hide BitOfByte, Bit, By, Chunk, ChunkIn, WordBits, BitsAt;
      ghost var before := buf[..];
      ghost var b: Byte := if bitI % 8 == 0 then 0 else buf[bitI / 8];
      NextPlace(bitI, avail);
      WriteChunk(u, avail, bitI % 8, bitI / 8);
      StreamGrows(before, buf[..], b, bitI, u, avail);
      bitI := bitI + avail;
    }

    /** Packs the lowest bits of a word; otherwise the program stops with an error,
        before anything is written. */
    method PackWord(value: Word, bits: nat) returns (ok: bool)
      requires Valid()
      modifies this`bitI, buf
      ensures Valid() && (ok <==> 1 <= bits <= 32 && old(bitI) + bits <= 8 * size)
      ensures ok ==> Stream() == old(Stream()) + WordBits(value, bits)
      ensures !ok ==> bitI == old(bitI) && buf[..] == old(buf[..])
    {
      hide Bit, By, WordBits, BitsAt;
      if bits == 0 || 32 < bits || bitI + bits > 8 * size {
        return false;
      }
      ghost var start := bitI;
      ghost var all := Stream() + WordBits(value, bits);
      var u, n := value, bits;
      while 0 < n
        invariant 0 <= n <= bits && Valid() && bitI + n == start + bits
        invariant Stream() + WordBits(u, n) == all
      {
        var avail := 8 - bitI % 8;
        avail := if avail < n then avail else n;
        ghost var before := Stream();
        WordBitsSplit(u, n, avail);
        PackChunk(u, avail);
        Regroup(before, WordBits(u, avail), WordBits(u >> By(avail), n - avail));
        u := u >> By(avail);
        n := n - avail;
      }
      assert Stream() + [] == Stream();
      ok := true;
    }

    /** Packs the characters of a string and a zero. */
    method PackString(s: seq<Byte>) returns (ok: bool)
      requires Valid() && 0 !in s
      modifies this`bitI, buf
      ensures Valid() && (ok <==> old(bitI) + 8 * (|s| + 1) <= 8 * size)
      ensures ok ==> Stream() == old(Stream()) + StringBits(s)
      ensures !ok ==>
        && |StringBits(s)| == 8 * (|s| + 1)
        && Stream() == old(Stream()) + StringBits(s)[..8 * ((8 * size - old(bitI)) / 8)]
    {
      hide Bit, By, WordBits, BitsAt, StringBits;
      StringBitsLength(s);
      var i := 0;
      ghost var start := bitI;
      ghost var all := Stream() + StringBits(s);
      while i < |s|
        invariant 0 <= i <= |s| && Valid() && bitI == start + 8 * i
        invariant Stream() + StringBits(s[i..]) == all
      {
        ghost var before := Stream();
        ok := PackWord(s[i] as Word, 8);
        if !ok {
          Begun(Stream(), StringBits(s[i..]), old(Stream()), StringBits(s), 8 * i);
          return;
        }
        NextChar(before, s, i);
        i := i + 1;
      }
      LastChar();
      assert s[i..] == [];
      ok := PackWord(0, 8);
      if !ok {
        Begun(Stream(), StringBits(s[i..]), old(Stream()), StringBits(s), 8 * i);
      }
    }

    /** Reads a word; otherwise the program stops with an error. */
    method UnpackWord(bits: nat) returns (ok: bool, value: Word)
      requires size == buf.Length && bitI <= 8 * size
      modifies this`bitI
      ensures ok <==> 1 <= bits <= 32 && old(bitI) + bits <= 8 * size
      ensures ok ==> bitI == old(bitI) + bits && Holds(value, BitsAt(buf[..], old(bitI), bits))
      ensures !ok ==> bitI == old(bitI)
    {
      hide Bit, By, BitAt, BitsAt, ReadChunk, AddChunk;
      value := 0;
      if bits == 0 || 32 < bits || bitI + bits > 8 * size {
        return false, 0;
      }
      ghost var start := bitI;
      var i, n := 0, bits;
      NothingHeld(BitsAt(buf[..], start, 0));
      while 0 < n
        invariant 0 <= n <= bits && i == bits - n && bitI == start + i
        invariant Holds(value, BitsAt(buf[..], start, i))
      {
        var shift, ofs := bitI % 8, bitI / 8;
        var avail := 8 - shift;
        avail := if avail < n then avail else n;
        var u8 := ReadChunk(buf[ofs], avail, shift);
        ChunkAt(buf[..], bitI, avail);
        BitsAtSplit(buf[..], start, i, avail);
        HoldsMore(value, BitsAt(buf[..], start, i), u8, BitsAt(buf[..], bitI, avail));
        value := AddChunk(value, u8, i);
        bitI := bitI + avail;
        n := n - avail;
        i := i + avail;
      }
      ok := true;
    }

    /** Packs a floating-point pattern with fewer exponent and mantissa bits. */
    method PackFloat(pattern: Word, exponentBits: nat, mantissaBits: nat) returns (ok: bool)
      requires Valid()
      modifies this`bitI, buf
      ensures Valid()
      ensures ok <==> FloatWidths(exponentBits, mantissaBits) && old(bitI) + FloatBits(exponentBits, mantissaBits) <= 8 * size
      ensures ok ==>
        Stream() == old(Stream()) + WordBits(Squeezed(pattern, exponentBits, mantissaBits), FloatBits(exponentBits, mantissaBits))
      ensures !ok ==> bitI == old(bitI) && buf[..] == old(buf[..])
    {
      hide WordBits, Squeezed;
      if exponentBits < 2 || 8 < exponentBits || mantissaBits < 1 || 23 < mantissaBits {
        return false;
      }
      ok := PackWord(Squeezed(pattern, exponentBits, mantissaBits), FloatBits(exponentBits, mantissaBits));
    }

    /** Reads a floating-point pattern back. */
    method UnpackFloat(exponentBits: nat, mantissaBits: nat) returns (ok: bool, pattern: Word, ghost packed: Word)
      requires size == buf.Length && bitI <= 8 * size
      modifies this`bitI
      ensures ok <==> FloatWidths(exponentBits, mantissaBits) && old(bitI) + FloatBits(exponentBits, mantissaBits) <= 8 * size
      ensures ok ==> bitI == old(bitI) + FloatBits(exponentBits, mantissaBits)
      ensures ok ==> Holds(packed, BitsAt(buf[..], old(bitI), FloatBits(exponentBits, mantissaBits)))
      ensures ok ==> pattern == Expanded(packed, exponentBits, mantissaBits)
      ensures !ok ==> bitI == old(bitI)
    {
      hide Holds, BitsAt, Expanded;
      pattern, packed := 0, 0;
      if exponentBits < 2 || 8 < exponentBits || mantissaBits < 1 || 23 < mantissaBits {
        return false, 0, 0;
      }
      var u32: Word;
      ok, u32 := UnpackWord(FloatBits(exponentBits, mantissaBits));
      packed := u32;
      if ok {
        pattern := Expanded(u32, exponentBits, mantissaBits);
      }
    }

    /** Reads eight bits, as a character. */
    method UnpackChar() returns (ok: bool, c: Word)
      requires size == buf.Length && bitI <= 8 * size
      modifies this`bitI
      ensures ok <==> old(bitI) + 8 <= 8 * size
      ensures ok ==> bitI == old(bitI) + 8 && IsChar(c, buf[..], old(bitI))
      ensures !ok ==> bitI == old(bitI)
    {
      hide Holds, BitsAt, WordBits;
      ok, c := UnpackWord(8);
      if ok {
        ZeroHeld(c, BitsAt(buf[..], old(bitI), 8));
        ByteHeld(c, BitsAt(buf[..], old(bitI), 8));
      }
    }

    /** Looks for the zero at the end of a string; without one the program stops with an error. */
    method StringLength() returns (ok: bool, len: nat)
      requires size == buf.Length && bitI <= 8 * size
      modifies this`bitI
      ensures ok ==> EndsAt(buf[..], old(bitI), len)
      ensures !ok ==> forall n :: !EndsAt(buf[..], old(bitI), n)
    {
      hide BitsAt, WordBits, ZeroAt;
      ghost var start, bytes := bitI, buf[..];
      len := 0;
      while true
        invariant bitI == start + 8 * len && bitI <= 8 * size
        invariant forall n: nat :: n < len ==> !ZeroAt(bytes, start, n)
        decreases 8 * size - bitI
      {
        var c;
        ok, c := UnpackChar();
        if !ok {
          NoMore(bytes, start, len);
          return;
        }
        ZeroIsChar(c, bytes, start, len);
        if 0 == c {
          break;
        }
        len := len + 1;
      }
    }

    /** Reads a string back, into an array with room for exactly its characters and the zero. */
    method UnpackString() returns (ok: bool, s: array<Byte>)
      requires size == buf.Length && bitI <= 8 * size
      modifies this`bitI
      ensures fresh(s)
      ensures ok ==> s.Length > 0 && s[s.Length - 1] == 0 && 0 !in s[..s.Length - 1]
      ensures ok ==> IsStringAt(buf[..], old(bitI), s[..s.Length - 1]) && bitI == old(bitI) + 8 * s.Length
      ensures !ok ==> forall t :: 0 !in t ==> !IsStringAt(buf[..], old(bitI), t)
    {
      hide BitsAt, WordBits, StringBits, IsChar, CharsAt, EndsAt, IsStringAt;
      var start := bitI;
      ghost var bytes := buf[..];
      var len;
      ok, len := StringLength();
      assert buf[..] == bytes;
      s := new Byte[0];
      if !ok {
        NoString(bytes, start);
        return;
      }
      s := new Byte[len + 1];
      bitI := start;
      EndsWithin(bytes, start, len);
      ghost var chars := [];
      var i := 0;
      while true
        invariant i == |chars| <= len && bitI == start + 8 * |chars| && s.Length == len + 1 && fresh(s)
        invariant s[..|chars|] == chars && 0 !in chars && CharsAt(bytes, start, chars)
        decreases len - |chars|
      {
        var read, c := UnpackChar();
        CharRead(c, bytes, start, chars, len);
        s[i] := (c & 0xff) as Byte;
        assert s[..|chars|] == chars;
        if 0 == c {
          break;
        }
        chars := chars + [(c & 0xff) as Byte];
        i := i + 1;
      }
    }
  }

  /** The bits of the characters and of the zero at the end. */
  ghost function StringBits(s: seq<Byte>): (r: seq<bool>) {
    if s == [] then WordBits(0, 8) else WordBits(s[0] as Word, 8) + StringBits(s[1..])
  }

  // ----- Reading a word back -----

  /** A word with exactly these bits, and zeros above them. */
  ghost predicate Holds(u: Word, bits: seq<bool>) {
    |bits| <= 32 && forall j :: 0 <= j < 32 ==> (Bit(u, j) <==> j < |bits| && bits[j])
  }

  /** The bits of a byte from `shift` on. */
  function ReadChunk(b: Byte, avail: nat, shift: nat): (r: Byte)
    requires avail + shift <= 8
  {
    ChunkOf(b, By(avail), By(shift))
  }

  function ChunkOf(b: Byte, avail: bv8, shift: bv8): (r: Byte)
    requires avail <= 8 && shift <= 8
  {
    ((((1 as Word) << avail) - 1) & ((b >> shift) as Word)) as Byte
  }

  function AddChunk(u: Word, c: Byte, i: nat): (r: Word)
    requires i < 32
  {
    u | ((c as Word) << By(i))
  }

  lemma NothingHeld(bits: seq<bool>)
    requires bits == []
    ensures Holds(0, bits)
  {
  }

  lemma ReadBits(b: Byte, avail: bv8, shift: bv8, j: bv8)
    requires shift < 8 && avail <= 8 - shift && j < 8
    ensures (ChunkOf(b, avail, shift) >> j) & 1 == 1 <==> j < avail && (b >> (shift + j)) & 1 == 1
  {
  }

  /** What was read of a byte, as a piece of the stream. */
  lemma ChunkAt(buf: seq<Byte>, bitI: nat, avail: nat)
    requires 1 <= avail && bitI % 8 + avail <= 8 && bitI + avail <= 8 * |buf|
    ensures forall j :: 0 <= j < 8 ==>
      (BitOfByte(ReadChunk(buf[bitI / 8], avail, bitI % 8), j) <==> j < avail && BitsAt(buf, bitI, avail)[j])
  {
    hide ReadChunk, BitOfByte;
    forall j | 0 <= j < 8
      ensures BitOfByte(ReadChunk(buf[bitI / 8], avail, bitI % 8), j) <==> j < avail && BitsAt(buf, bitI, avail)[j]
    {
      ReadBit(buf[bitI / 8], avail, bitI % 8, j);
      if j < avail { assert (bitI + j) / 8 == bitI / 8 && (bitI + j) % 8 == bitI % 8 + j; }
    }
  }

  lemma ByRead(shift: nat, avail: nat, j: nat)
    requires 1 <= avail && shift + avail <= 8 && j < 8
    ensures By(shift) < 8 && By(avail) <= 8 - By(shift) && By(j) < 8
    ensures j < avail <==> By(j) < By(avail)
    ensures By(shift + j) == By(shift) + By(j)
  {
    hide By;
    ByEight(shift, avail);
    ByLess(j, avail);
    ByThirtyTwo(j, j);
    ByLess(j, 8);
    BySum(shift, j);
  }

  lemma ReadBit(b: Byte, avail: nat, shift: nat, j: nat)
    requires 1 <= avail && shift + avail <= 8 && j < 8
    ensures BitOfByte(ReadChunk(b, avail, shift), j) <==> j < avail && BitOfByte(b, shift + j)
  {
    hide By, ChunkOf;
    ByRead(shift, avail, j);
    ReadBits(b, By(avail), By(shift), By(j));
  }

  lemma NextPlace(bitI: nat, avail: nat)
    requires bitI % 8 + avail <= 8
    ensures (bitI + avail) % 8 == 0 || ((bitI + avail) % 8 == bitI % 8 + avail && (bitI + avail) / 8 == bitI / 8)
  {
  }

  lemma NothingAbove(b: Byte, shift: nat)
    requires shift == 0 ==> b == 0
    requires 0 < shift < 8 ==> b >> By(shift) == 0
    requires shift < 8
    ensures b >> By(shift) == 0
  {
  }

  lemma AddBits(u: Word, c: Byte, i: bv8, j: bv8)
    requires i < 32 && j < 32
    ensures ((u | ((c as Word) << i)) >> j) & 1 == 1 <==>
      (u >> j) & 1 == 1 || (i <= j && j - i < 8 && (c >> (j - i)) & 1 == 1)
  {
  }

  lemma AddBit(u: Word, c: Byte, i: nat, j: nat)
    requires i < 32 && j < 32
    ensures Bit(AddChunk(u, c, i), j) <==> Bit(u, j) || (i <= j < i + 8 && BitOfByte(c, j - i))
  {
    hide By;
    ByAdd(i, j);
    AddBits(u, c, By(i), By(j));
  }

  lemma ByAdd(i: nat, j: nat)
    requires i < 32 && j < 32
    ensures By(i) < 32 && By(j) < 32 && (i <= j <==> By(i) <= By(j))
    ensures i <= j ==> By(j - i) == By(j) - By(i) && (j - i < 8 <==> By(j - i) < 8)
  {
    hide By;
    ByThirtyTwo(i, j);
    ByLess(j, i);
    if i <= j {
      ByGap(j, i);
      ByLess(j - i, 8);
    }
  }

  lemma ByThirtyTwo(i: nat, j: nat)
    requires i < 32 && j < 32
    ensures By(i) < 32 && By(j) < 32 && By(8) == 8
  {
  }

  lemma HoldsMore(u: Word, s: seq<bool>, c: Byte, t: seq<bool>)
    requires Holds(u, s) && |s| < 32 && |t| <= 8 && |s| + |t| <= 32
    requires forall j :: 0 <= j < 8 ==> (BitOfByte(c, j) <==> j < |t| && t[j])
    ensures Holds(AddChunk(u, c, |s|), s + t)
  {
    hide Bit, BitOfByte, AddChunk;
    var v := AddChunk(u, c, |s|);
    forall j | 0 <= j < 32 ensures Bit(v, j) <==> j < |s + t| && (s + t)[j] {
      AddBit(u, c, |s|, j);
    }
  }

  lemma {:induction false} StringBitsLength(s: seq<Byte>)
    ensures |StringBits(s)| == 8 * (|s| + 1)
  {
    if s != [] { StringBitsLength(s[1..]); }
  }

  lemma NextChar(before: seq<bool>, s: seq<Byte>, i: nat)
    requires i < |s|
    ensures before + StringBits(s[i..]) == before + WordBits(s[i] as Word, 8) + StringBits(s[i + 1..])
  {
    Regroup(before, WordBits(s[i] as Word, 8), StringBits(s[i + 1..]));
    assert s[i..][1..] == s[i + 1..];
  }

  lemma LastChar()
    ensures StringBits([]) == WordBits(0, 8)
  {
  }

  lemma Begun(a: seq<bool>, b: seq<bool>, o: seq<bool>, t: seq<bool>, n: nat)
    requires a + b == o + t && |a| == |o| + n
    ensures n <= |t| && a == o + t[..n]
  {
    assert a == (a + b)[..|a|] && (o + t)[..|a|] == o + t[..n];
  }

  // ----- A word is its bits -----

  function Right(u: Word, n: bv8): (r: Word)
    requires n <= 32
  {
    u >> n
  }

  predicate BitIs(u: Word, n: bv8)
    requires n < 32
  {
    (u >> n) & 1 == 1
  }

  function Mask(n: bv8): (r: Word)
    requires n < 32
  {
    ((1 as Word) << n) - 1
  }

  /** The lowest bits of a word. */
  function Cut(v: Word, n: bv8): (r: Word)
    requires n <= 32
  {
    if n == 32 then v else v & Mask(n)
  }

  function Half(u: Word): (r: Word) { u >> 1 }

  lemma NextBit(u: Word, j: bv8)
    requires 0 < j < 32
    ensures BitIs(u, j) <==> BitIs(Half(u), j - 1)
  {
    assert u >> j == (u >> 1) >> (j - 1);
  }

  lemma HalfMasked(u: Word, n: bv8)
    requires 0 < n < 32
    ensures Half(Cut(u, n)) == Cut(Half(u), n - 1)
  {
  }

  lemma LowestBit(u: Word, n: bv8)
    requires n < 32
    ensures BitIs(u & Mask(n), 0) <==> 0 < n && BitIs(u, 0)
  {
  }

  lemma NoBit(u: Word, j: bv8)
    requires j < 32
    ensures !BitIs(u & Mask(0), j)
  {
  }

  lemma CutEnds(u: Word, n: bv8, j: bv8)
    requires n <= 32 && j < 32 && (n == 0 || n == 32 || j == 0)
    ensures BitIs(Cut(u, n), j) <==> j < n && BitIs(u, j)
  {
    hide BitIs, Mask;
    if n == 0 {
      NoBit(u, j);
    } else if n < 32 {
      LowestBit(u, n);
    }
  }

  function CutAt(u: Word, n: nat): (r: Word)
    requires n <= 32
  {
    Cut(u, By(n))
  }

  lemma BitOfHalf(u: Word, j: nat)
    requires 0 < j < 32
    ensures Bit(u, j) <==> Bit(Half(u), j - 1)
  {
    hide By, Bit, BitIs, Half;
    ByOneMore(j - 1);
    BitBy(u, j);
    BitBy(Half(u), j - 1);
    NextBit(u, By(j));
  }

  lemma HalfCut(u: Word, n: nat)
    requires 0 < n < 32
    ensures Half(CutAt(u, n)) == CutAt(Half(u), n - 1)
  {
    hide By, Cut, Half;
    ByOneMore(n - 1);
    ByThirtyTwo(n, n);
    HalfMasked(u, By(n));
  }

  lemma CutAtEnds(u: Word, n: nat, j: nat)
    requires n <= 32 && j < 32 && (n == 0 || n == 32 || j == 0)
    ensures Bit(CutAt(u, n), j) <==> j < n && Bit(u, j)
  {
    hide By, Cut, Bit, BitIs;
    ByEnds();
    ByLess(j, n);
    BitBy(u, j);
    BitBy(CutAt(u, n), j);
    CutEnds(u, By(n), By(j));
  }

  lemma ByEnds()
    ensures By(0) == 0 && By(32) == 32
  {
  }

  lemma {:induction false} CutBit(u: Word, n: nat, j: nat)
    requires n <= 32 && j < 32
    ensures Bit(CutAt(u, n), j) <==> j < n && Bit(u, j)
    decreases j
  {
    hide CutAt, Bit, Half;
    if n == 0 || n == 32 || j == 0 {
      CutAtEnds(u, n, j);
    } else {
      BitOfHalf(u, j);
      BitOfHalf(CutAt(u, n), j);
      HalfCut(u, n);
      CutBit(Half(u), n - 1, j - 1);
    }
  }

  lemma BitBy(u: Word, j: nat)
    requires j < 32
    ensures By(j) < 32 && (Bit(u, j) <==> BitIs(u, By(j)))
  {
    hide By;
    ByThirtyTwo(j, j);
  }

  /** The word that holds the lowest bits of another one is that one without its other bits. */
  lemma CutHolds(u: Word, n: nat)
    requires n <= 32
    ensures Holds(Cut(u, By(n)), WordBits(u, n))
  {
    hide Cut, By, Bit;
    forall j | 0 <= j < 32 ensures Bit(Cut(u, By(n)), j) <==> j < n && Bit(u, j) {
      CutBit(u, n, j);
    }
  }

  function Down(u: Word, n: nat): (r: Word)
    requires n <= 32
  {
    Right(u, By(n))
  }

  lemma OneBitMore(u: Word, v: Word, n: bv8)
    requires n < 32 && (BitIs(u, n) <==> BitIs(v, n)) && Right(u, n + 1) == Right(v, n + 1)
    ensures Right(u, n) == Right(v, n)
  {
  }

  lemma DownOneMore(u: Word, v: Word, n: nat)
    requires n < 32 && Bit(u, n) == Bit(v, n) && Down(u, n + 1) == Down(v, n + 1)
    ensures Down(u, n) == Down(v, n)
  {
    hide By, Bit, BitIs, Right;
    ByOneMore(n);
    BitBy(u, n);
    BitBy(v, n);
    OneBitMore(u, v, By(n));
  }

  lemma DownEnds(u: Word)
    ensures Down(u, 32) == 0 && Down(u, 0) == u
  {
  }

  lemma {:induction false} SameFrom(u: Word, v: Word, n: nat)
    requires n <= 32 && forall j :: n <= j < 32 ==> Bit(u, j) == Bit(v, j)
    ensures Down(u, n) == Down(v, n)
    decreases 32 - n
  {
    hide By, Bit, Down;
    if n < 32 {
      SameFrom(u, v, n + 1);
      DownOneMore(u, v, n);
    } else {
      DownEnds(u);
      DownEnds(v);
    }
  }

  /** There is one word only that holds given bits. */
  lemma HeldOnce(u: Word, v: Word, bits: seq<bool>)
    requires Holds(u, bits) && Holds(v, bits)
    ensures u == v
  {
    hide Bit, By, Down;
    SameFrom(u, v, 0);
    DownEnds(u);
    DownEnds(v);
  }

  // ----- Floating-point patterns of fewer bits (the layout of section 3.4 of IEEE 754-2008) -----

  predicate Widths(e: bv8, m: bv8) {
    2 <= e <= 8 && 1 <= m <= 23
  }

  /** The exponent, with the bias of the narrow format. */
  function Biased(u: Word, e: bv8): (r: Word)
    requires 2 <= e <= 8
  {
    (0xff & (u >> 23)) - 128 + ((1 as Word) << (e - 1))
  }

  function Mantissa(u: Word, m: bv8): (r: Word)
    requires 1 <= m <= 23
  {
    (0x7f_ffff & u) >> (23 - m)
  }

  function Fields(s: Word, x: Word, n: Word, e: bv8, m: bv8): (r: Word)
    requires Widths(e, m)
  {
    (s << (e + m)) | (x << m) | n
  }

  /** What is packed for a pattern. */
  function Squeeze(u: Word, e: bv8, m: bv8): (r: Word)
    requires Widths(e, m)
  {
    Fields(u >> 31, Biased(u, e), Mantissa(u, m), e, m)
  }

  function SignField(v: Word, e: bv8, m: bv8): (r: Word)
    requires Widths(e, m)
  {
    v >> (e + m)
  }

  function ExponentField(v: Word, e: bv8, m: bv8): (r: Word)
    requires Widths(e, m)
  {
    (v >> m) & Mask(e)
  }

  function MantissaField(v: Word, m: bv8): (r: Word)
    requires m <= 23
  {
    v & Mask(m)
  }

  function Unbiased(x: Word, e: bv8): (r: Word)
    requires 2 <= e <= 8
  {
    x - ((1 as Word) << (e - 1)) + 128
  }

  function Compose(s: Word, x: Word, n: Word, m: bv8): (r: Word)
    requires m <= 23
  {
    (s << 31) | (x << 23) | (n << (23 - m))
  }

  /** The pattern for what was unpacked. */
  function Expand(v: Word, e: bv8, m: bv8): (r: Word)
    requires Widths(e, m)
  {
    Compose(SignField(v, e, m), Unbiased(ExponentField(v, e, m), e), MantissaField(v, m), m)
  }

  /** The pattern without the mantissa bits that do not fit. */
  function Rounded(u: Word, m: bv8): (r: Word)
    requires m <= 23
  {
    (u >> (23 - m)) << (23 - m)
  }

  /** The exponents that the narrow format has room for. */
  predicate InRange(u: Word, e: bv8)
    requires 2 <= e <= 8
  {
    var x := 0xff & (u >> 23);
    128 - ((1 as Word) << (e - 1)) <= x && x <= 127 + ((1 as Word) << (e - 1))
  }

  /** The fields of a packed pattern, and nothing above them. */
  lemma FieldsRead(s: Word, x: Word, n: Word, e: bv8, m: bv8)
    requires Widths(e, m) && s <= 1 && x <= Mask(e) && n <= Mask(m)
    ensures
      var v := Fields(s, x, n, e, m);
      && Cut(v, 1 + e + m) == v
      && SignField(v, e, m) == s && ExponentField(v, e, m) == x && MantissaField(v, m) == n
  {
  }

  lemma ExponentFits(u: Word, e: bv8)
    requires 2 <= e <= 8 && InRange(u, e)
    ensures Biased(u, e) <= Mask(e) && Unbiased(Biased(u, e), e) == 0xff & (u >> 23)
  {
  }

  lemma Composed(u: Word, m: bv8)
    requires 1 <= m <= 23
    ensures u >> 31 <= 1 && Mantissa(u, m) <= Mask(m)
    ensures Compose(u >> 31, 0xff & (u >> 23), Mantissa(u, m), m) == Rounded(u, m)
  {
    hide Rounded, Mantissa, Mask;
    MantissaFits(u, m);
    RoundedParts(u, m);
    TopBit(u);
    TopBit(Rounded(u, m));
    Parts(Rounded(u, m));
  }

  lemma MantissaFits(u: Word, m: bv8)
    requires 1 <= m <= 23
    ensures Mantissa(u, m) <= Mask(m)
  {
  }

  lemma RoundedParts(u: Word, m: bv8)
    requires 1 <= m <= 23
    ensures Rounded(u, m) >> 23 == u >> 23
    ensures Mantissa(u, m) << (23 - m) == 0x7f_ffff & Rounded(u, m)
  {
  }

  lemma TopBit(u: Word)
    ensures u >> 31 == (u >> 23) >> 8
  {
  }

  lemma Parts(w: Word)
    ensures ((w >> 31) << 31) | ((0xff & (w >> 23)) << 23) | (0x7f_ffff & w) == w
  {
  }

  /** Where a packed pattern has its parts: the upper bits of the mantissa lowest,
      above them the exponent with the bias of its own width, and the sign on top. */
  lemma PartsPlaced(u: Word, e: bv8, m: bv8)
    requires Widths(e, m) && InRange(u, e)
    ensures
      var v := Squeeze(u, e, m);
      && v & (((1 as Word) << m) - 1) == (0x7f_ffff & u) >> (23 - m)
      && (v >> m) & (((1 as Word) << e) - 1) == (0xff & (u >> 23)) - 128 + ((1 as Word) << (e - 1))
      && v >> (e + m) == u >> 31
  {
    hide Fields, Cut;
    MantissaFits(u, m);
    ExponentFits(u, e);
    OneSign(u);
    FieldsRead(u >> 31, Biased(u, e), Mantissa(u, m), e, m);
  }

  lemma OneSign(u: Word)
    ensures u >> 31 <= 1
  {
  }

  lemma OnlyInRange(u: Word, e: bv8, m: bv8)
    requires Widths(e, m) && Expand(Cut(Squeeze(u, e, m), 1 + e + m), e, m) == Rounded(u, m)
    ensures InRange(u, e)
  {
  }

  /** A pattern comes back without the mantissa bits that do not fit, if and only
      if its exponent is in the range of the narrow format. */
  lemma FloatExactly(u: Word, e: bv8, m: bv8)
    requires Widths(e, m)
    ensures Expand(Cut(Squeeze(u, e, m), 1 + e + m), e, m) == Rounded(u, m) <==> InRange(u, e)
  {
    hide InRange, Biased, Mantissa, Fields, Cut, SignField, ExponentField, MantissaField, Unbiased, Compose, Rounded, Mask;
    if InRange(u, e) {
      ExponentFits(u, e);
      Composed(u, m);
      FieldsRead(u >> 31, Biased(u, e), Mantissa(u, m), e, m);
    }
    if Expand(Cut(Squeeze(u, e, m), 1 + e + m), e, m) == Rounded(u, m) {
      OnlyInRange(u, e, m);
    }
  }

  function FloatBits(exponentBits: nat, mantissaBits: nat): (r: nat) {
    1 + exponentBits + mantissaBits
  }

  predicate FloatWidths(exponentBits: nat, mantissaBits: nat) {
    2 <= exponentBits <= 8 && 1 <= mantissaBits <= 23
  }

  lemma WidthsBy(exponentBits: nat, mantissaBits: nat)
    requires FloatWidths(exponentBits, mantissaBits)
    ensures Widths(By(exponentBits), By(mantissaBits))
    ensures By(FloatBits(exponentBits, mantissaBits)) == 1 + By(exponentBits) + By(mantissaBits)
  {
    hide By;
    BySum(1 + exponentBits, mantissaBits);
    BySum(1, exponentBits);
    ByFloat(exponentBits, mantissaBits);
  }

  lemma ByFloat(exponentBits: nat, mantissaBits: nat)
    requires FloatWidths(exponentBits, mantissaBits)
    ensures By(1) == 1 && Widths(By(exponentBits), By(mantissaBits))
  {
  }

  function Squeezed(u: Word, exponentBits: nat, mantissaBits: nat): (r: Word)
    requires FloatWidths(exponentBits, mantissaBits)
  {
    WidthsBy(exponentBits, mantissaBits);
    Squeeze(u, By(exponentBits), By(mantissaBits))
  }

  function Expanded(v: Word, exponentBits: nat, mantissaBits: nat): (r: Word)
    requires FloatWidths(exponentBits, mantissaBits)
  {
    WidthsBy(exponentBits, mantissaBits);
    Expand(v, By(exponentBits), By(mantissaBits))
  }

  // ----- Strings in the stream -----

  ghost predicate IsStringAt(buf: seq<Byte>, from: nat, s: seq<Byte>) {
    from + 8 * (|s| + 1) <= 8 * |buf| && BitsAt(buf, from, 8 * (|s| + 1)) == StringBits(s)
  }

  ghost predicate ZeroAt(buf: seq<Byte>, from: nat, n: nat) {
    from + 8 * (n + 1) <= 8 * |buf| && BitsAt(buf, from + 8 * n, 8) == WordBits(0, 8)
  }

  /** The first zero is the one after `n` characters. */
  ghost predicate EndsAt(buf: seq<Byte>, from: nat, n: nat) {
    ZeroAt(buf, from, n) && forall k: nat :: k < n ==> !ZeroAt(buf, from, k)
  }

  ghost predicate CharHere(buf: seq<Byte>, from: nat, b: Byte) {
    from + 8 <= 8 * |buf| && BitsAt(buf, from, 8) == WordBits(b as Word, 8)
  }

  ghost predicate CharsAt(buf: seq<Byte>, from: nat, s: seq<Byte>) {
    && from + 8 * |s| <= 8 * |buf|
    && forall i :: 0 <= i < |s| ==> CharHere(buf, from + 8 * i, s[i])
  }

  lemma ZeroHeld(c: Word, bits: seq<bool>)
    requires Holds(c, bits) && |bits| == 8
    ensures c == 0 <==> bits == WordBits(0, 8)
  {
    if bits == WordBits(0, 8) {
      CutHolds(0, 8);
      HeldOnce(c, Cut(0, By(8)), bits);
    }
  }

  /** The byte that was read. */
  lemma ByteHeld(c: Word, bits: seq<bool>)
    requires Holds(c, bits) && |bits| == 8
    ensures c & 0xff < 0x100 && ((c & 0xff) as Byte) as Word == c
    ensures WordBits(c, 8) == bits
  {
    hide Bit;
    assert WordBits(c, 8) == bits;
    CutHolds(c, 8);
    HeldOnce(c, Cut(c, By(8)), bits);
    CutToByte(c, By(8));
  }

  lemma CutToByte(c: Word, n: bv8)
    requires n as int == 8
    ensures c & 0xff < 0x100 && ((c & 0xff) as Byte) as Word == Cut(c, n)
  {
  }

  lemma NotZero(b: Byte)
    requires b != 0
    ensures WordBits(b as Word, 8) != WordBits(0, 8)
  {
    hide Bit;
    if WordBits(b as Word, 8) == WordBits(0, 8) {
      CutHolds(b as Word, 8);
      CutHolds(0, 8);
      HeldOnce(Cut(b as Word, By(8)), Cut(0, By(8)), WordBits(0, 8));
      ByteIsCut(b, By(8));
    }
  }

  lemma ByteIsCut(b: Byte, n: bv8)
    requires n as int == 8
    ensures Cut(b as Word, n) == b as Word && Cut(0, n) == 0
  {
  }

  lemma StringStep(buf: seq<Byte>, from: nat, s: seq<Byte>)
    requires s != [] && from + 8 * (|s| + 1) <= 8 * |buf|
    ensures IsStringAt(buf, from, s) <==> BitsAt(buf, from, 8) == WordBits(s[0] as Word, 8) && IsStringAt(buf, from + 8, s[1..])
  {
    hide BitsAt, WordBits;
    var n := 8 * |s|;
    BitsAtSplit(buf, from, 8, n);
    ConcatSame(BitsAt(buf, from, 8), BitsAt(buf, from + 8, n), WordBits(s[0] as Word, 8), StringBits(s[1..]));
  }

  /** A string in the stream is its characters and a zero after them. */
  lemma {:induction false} StringIsChars(buf: seq<Byte>, from: nat, s: seq<Byte>)
    ensures IsStringAt(buf, from, s) <==> CharsAt(buf, from, s) && ZeroAt(buf, from, |s|)
    decreases |s|
  {
    hide BitsAt, WordBits, CharsAt, IsStringAt, StringBits, ZeroAt;
    if s == [] {
      NoChars(buf, from);
    } else if from + 8 * (|s| + 1) > 8 * |buf| {
      NoRoom(buf, from, s);
    } else {
      StringIsChars(buf, from + 8, s[1..]);
      StringStep(buf, from, s);
      FirstChar(buf, from, s);
      ZeroLater(buf, from, |s|);
    }
  }

  lemma NoRoom(buf: seq<Byte>, from: nat, s: seq<Byte>)
    requires from + 8 * (|s| + 1) > 8 * |buf|
    ensures !IsStringAt(buf, from, s) && !ZeroAt(buf, from, |s|)
  {
  }

  lemma NoChars(buf: seq<Byte>, from: nat)
    ensures IsStringAt(buf, from, []) <==> CharsAt(buf, from, []) && ZeroAt(buf, from, 0)
  {
    hide BitsAt, WordBits;
  }

  lemma ZeroLater(buf: seq<Byte>, from: nat, n: nat)
    requires n > 0
    ensures ZeroAt(buf, from, n) <==> ZeroAt(buf, from + 8, n - 1)
  {
    hide BitsAt, WordBits;
    assert from + 8 * n == from + 8 + 8 * (n - 1);
  }

  lemma ConcatSame<A>(a: seq<A>, b: seq<A>, c: seq<A>, d: seq<A>)
    requires |a| == |c|
    ensures a + b == c + d <==> a == c && b == d
  {
    if a + b == c + d {
      assert a == (a + b)[..|a|] && b == (a + b)[|a|..] && c == (c + d)[..|a|] && d == (c + d)[|a|..];
    }
  }

  lemma FirstChar(buf: seq<Byte>, from: nat, s: seq<Byte>)
    requires s != [] && from + 8 * (|s| + 1) <= 8 * |buf|
    ensures CharsAt(buf, from, s) <==> CharHere(buf, from, s[0]) && CharsAt(buf, from + 8, s[1..])
  {
    hide CharHere;
    if CharsAt(buf, from, s) { CharsTail(buf, from, s); }
    if CharHere(buf, from, s[0]) && CharsAt(buf, from + 8, s[1..]) { CharsCons(buf, from, s); }
  }

  lemma CharsTail(buf: seq<Byte>, from: nat, s: seq<Byte>)
    requires s != [] && CharsAt(buf, from, s)
    ensures CharHere(buf, from, s[0]) && CharsAt(buf, from + 8, s[1..])
  {
    hide CharHere;
    assert from + 8 * 0 == from;
    forall i | 0 <= i < |s| - 1 ensures CharHere(buf, from + 8 + 8 * i, s[1..][i]) {
      assert from + 8 + 8 * i == from + 8 * (i + 1) && s[1..][i] == s[i + 1];
    }
  }

  lemma CharsCons(buf: seq<Byte>, from: nat, s: seq<Byte>)
    requires s != [] && from + 8 * |s| <= 8 * |buf| && CharHere(buf, from, s[0])
    requires CharsAt(buf, from + 8, s[1..])
    ensures CharsAt(buf, from, s)
  {
    hide CharHere;
    forall i | 0 <= i < |s| ensures CharHere(buf, from + 8 * i, s[i]) {
      if i > 0 { assert s[i] == s[1..][i - 1] && from + 8 * i == from + 8 + 8 * (i - 1); }
    }
  }

  /** Without an end there is no string. */
  lemma NoString(buf: seq<Byte>, from: nat)
    requires forall n :: !EndsAt(buf, from, n)
    ensures forall t :: 0 !in t ==> !IsStringAt(buf, from, t)
  {
    forall t: seq<Byte> | 0 !in t ensures !IsStringAt(buf, from, t) {
      if IsStringAt(buf, from, t) { StringEnds(buf, from, t); }
    }
  }

  lemma StringEnds(buf: seq<Byte>, from: nat, t: seq<Byte>)
    requires 0 !in t && IsStringAt(buf, from, t)
    ensures EndsAt(buf, from, |t|)
  {
    hide BitsAt, WordBits;
    StringIsChars(buf, from, t);
    forall k: nat | k < |t| ensures !ZeroAt(buf, from, k) {
      assert t[k] in t;
      NotZero(t[k]);
    }
  }

  /** What is read of eight bits. */
  ghost predicate IsChar(c: Word, buf: seq<Byte>, from: nat) {
    && from + 8 <= 8 * |buf| && (c == 0 <==> BitsAt(buf, from, 8) == WordBits(0, 8))
    && c & 0xff < 0x100 && ((c & 0xff) as Byte) as Word == c && WordBits(c, 8) == BitsAt(buf, from, 8)
  }

  lemma ZeroIsChar(c: Word, buf: seq<Byte>, from: nat, n: nat)
    requires IsChar(c, buf, from + 8 * n)
    ensures c == 0 <==> ZeroAt(buf, from, n)
  {
    hide BitsAt, WordBits;
  }

  lemma NoMore(buf: seq<Byte>, from: nat, len: nat)
    requires from + 8 * (len + 1) > 8 * |buf| && forall n: nat :: n < len ==> !ZeroAt(buf, from, n)
    ensures forall n :: !EndsAt(buf, from, n)
  {
    hide BitsAt, WordBits;
    forall n: nat ensures !ZeroAt(buf, from, n) {
      if n >= len { assert from + 8 * (n + 1) > 8 * |buf|; }
    }
  }

  lemma EndsWithin(buf: seq<Byte>, from: nat, n: nat)
    requires EndsAt(buf, from, n)
    ensures from + 8 * (n + 1) <= 8 * |buf| && CharsAt(buf, from, [])
  {
  }

  /** The next character: the zero is the one after `n` characters. */
  lemma CharRead(c: Word, buf: seq<Byte>, from: nat, s: seq<Byte>, n: nat)
    requires EndsAt(buf, from, n) && CharsAt(buf, from, s) && |s| <= n && IsChar(c, buf, from + 8 * |s|)
    ensures c & 0xff < 0x100 && ((c & 0xff) as Byte == 0 <==> c == 0)
    ensures c == 0 <==> |s| == n
    ensures c == 0 ==> IsStringAt(buf, from, s)
    ensures c != 0 ==> CharsAt(buf, from, s + [(c & 0xff) as Byte])
  {
    hide BitsAt, WordBits;
    ZeroIsChar(c, buf, from, |s|);
    ByteOfZero(c);
    if c == 0 {
      StringIsChars(buf, from, s);
    } else {
      CharsMore(buf, from, s, (c & 0xff) as Byte);
    }
  }

  lemma ByteOfZero(c: Word)
    requires c & 0xff < 0x100 && ((c & 0xff) as Byte) as Word == c
    ensures (c & 0xff) as Byte == 0 <==> c == 0
  {
  }

  lemma CharsMore(buf: seq<Byte>, from: nat, s: seq<Byte>, b: Byte)
    requires CharsAt(buf, from, s) && from + 8 * (|s| + 1) <= 8 * |buf|
    requires BitsAt(buf, from + 8 * |s|, 8) == WordBits(b as Word, 8)
    ensures CharsAt(buf, from, s + [b])
  {
    hide BitsAt, WordBits;
  }

  /** There is one string only at a place. */
  lemma StringOnce(buf: seq<Byte>, from: nat, s: seq<Byte>, t: seq<Byte>)
    requires 0 !in s && 0 !in t && IsStringAt(buf, from, s) && IsStringAt(buf, from, t)
    ensures s == t
  {
    hide BitsAt, WordBits;
    StringEnds(buf, from, s);
    StringEnds(buf, from, t);
    assert |s| == |t|;
    StringIsChars(buf, from, s);
    StringIsChars(buf, from, t);
    forall i | 0 <= i < |s| ensures s[i] == t[i] {
      SameByte(s[i], t[i]);
    }
  }

  lemma SameByte(a: Byte, b: Byte)
    requires WordBits(a as Word, 8) == WordBits(b as Word, 8)
    ensures a == b
  {
    hide Bit;
    CutHolds(a as Word, 8);
    CutHolds(b as Word, 8);
    HeldOnce(Cut(a as Word, By(8)), Cut(b as Word, By(8)), WordBits(a as Word, 8));
    ByteIsCut(a, By(8));
    ByteIsCut(b, By(8));
    SameWidened(a, b);
  }

  lemma SameWidened(a: Byte, b: Byte)
    requires a as Word == b as Word
    ensures a == b
  {
  }

  // ----- Round trips of whole lists of fields -----

  datatype Field =
    | Number(value: Word, bits: nat)
    | String(chars: seq<Byte>)
    | Float(pattern: Word, exponentBits: nat, mantissaBits: nat)
  {
    predicate Valid() {
      match this
      case Number(_, bits) => 1 <= bits <= 32
      case String(chars) => 0 !in chars
      case Float(_, e, m) => FloatWidths(e, m)
    }

    ghost function Bits(): (r: seq<bool>)
      requires Valid()
    {
      match this
      case Number(value, bits) => WordBits(value, bits)
      case String(chars) => StringBits(chars)
      case Float(pattern, e, m) => WordBits(Squeezed(pattern, e, m), FloatBits(e, m))
    }

    /** What comes back for a field. */
    function Back(): (r: Field)
      requires Valid()
    {
      match this
      case Number(value, bits) => Number(Cut(value, By(bits)), bits)
      case String(chars) => this
      case Float(pattern, e, m) => Float(Expanded(Cut(Squeezed(pattern, e, m), By(FloatBits(e, m))), e, m), e, m)
    }
  }

  /** A floating-point field comes back without the mantissa bits that do not
      fit, if and only if its exponent is in the range of the narrow format. */
  lemma FloatComesBack(u: Word, e: nat, m: nat)
    requires FloatWidths(e, m)
    ensures Widths(By(e), By(m))
    ensures Float(u, e, m).Back() == Float(Rounded(u, By(m)), e, m) <==> InRange(u, By(e))
  {
    hide By, Squeeze, Expand, Cut, Rounded, InRange;
    WidthsBy(e, m);
    FloatExactly(u, By(e), By(m));
  }

  /** Zero does not come back with fewer than eight exponent bits. */
  lemma ZeroIsLost(e: nat, m: nat)
    requires FloatWidths(e, m) && e < 8
    ensures Float(0, e, m).Back() != Float(0, e, m)
  {
    hide By, Squeeze, Expand, Cut, InRange;
    WidthsBy(e, m);
    FloatComesBack(0, e, m);
    ByLess(e, 8);
    ByThirtyTwo(0, 0);
    ZeroOutOfRange(By(e), By(m));
  }

  lemma ZeroOutOfRange(e: bv8, m: bv8)
    requires Widths(e, m) && e < 8
    ensures !InRange(0, e) && Rounded(0, m) == 0
  {
  }

  ghost function BitsOf(fields: seq<Field>): (r: seq<bool>)
    requires forall i :: 0 <= i < |fields| ==> fields[i].Valid()
  {
    if fields == [] then [] else fields[0].Bits() + BitsOf(fields[1..])
  }

  /** Packs one field. */
  method PackField(p: BitPacker, f: Field) returns (ok: bool)
    requires p.Valid() && f.Valid()
    modifies p`bitI, p.buf
    ensures p.Valid() && (ok <==> old(p.bitI) + |f.Bits()| <= 8 * p.size)
    ensures ok ==> p.Stream() == old(p.Stream()) + f.Bits()
  {
    hide WordBits, StringBits, Squeezed;
    match f {
      case Number(value, bits) =>
        ok := p.PackWord(value, bits);
      case String(chars) =>
        StringBitsLength(chars);
        ok := p.PackString(chars);
      case Float(pattern, e, m) =>
        ok := p.PackFloat(pattern, e, m);
    }
  }

  /** Unpacks one field of the same shape. */
  method UnpackField(p: BitPacker, f: Field) returns (back: Field)
    requires p.size == p.buf.Length && p.bitI <= 8 * p.size && f.Valid() && Ahead(p.buf[..], p.bitI, f.Bits())
    modifies p`bitI
    ensures p.bitI == old(p.bitI) + |f.Bits()| && p.bitI <= 8 * p.size && back == f.Back()
  {
    hide WordBits, StringBits, Squeezed, Expanded, BitsAt, Holds, Cut;
    match f {
      case Number(value, bits) =>
        var ok, v := p.UnpackWord(bits);
        CutHolds(value, bits);
        HeldOnce(v, Cut(value, By(bits)), WordBits(value, bits));
        back := Number(v, bits);
      case String(chars) =>
        ghost var start := p.bitI;
        StringBitsLength(chars);
        StringIsThere(p.buf[..], start, chars);
        var ok, s := p.UnpackString();
        StringOnce(p.buf[..], start, chars, s[..s.Length - 1]);
        back := String(s[..s.Length - 1]);
      case Float(pattern, e, m) =>
        var ok, v;
        ghost var packed;
        ok, v, packed := p.UnpackFloat(e, m);
        CutHolds(Squeezed(pattern, e, m), FloatBits(e, m));
        HeldOnce(packed, Cut(Squeezed(pattern, e, m), By(FloatBits(e, m))), f.Bits());
        back := Float(v, e, m);
    }
  }

  lemma StringIsThere(buf: seq<Byte>, from: nat, s: seq<Byte>)
    requires from + 8 * (|s| + 1) <= 8 * |buf| && BitsAt(buf, from, 8 * (|s| + 1)) == StringBits(s)
    ensures IsStringAt(buf, from, s)
  {
  }

  /** The bits that come next in the stream. */
  ghost predicate Ahead(buf: seq<Byte>, from: nat, bits: seq<bool>) {
    from + |bits| <= 8 * |buf| && BitsAt(buf, from, |bits|) == bits
  }

  lemma Pieces(buf: seq<Byte>, from: nat, a: seq<bool>, b: seq<bool>)
    requires Ahead(buf, from, a + b)
    ensures Ahead(buf, from, a) && Ahead(buf, from + |a|, b)
  {
    hide BitsAt;
    BitsAtSplit(buf, from, |a|, |b|);
    ConcatSame(BitsAt(buf, from, |a|), BitsAt(buf, from + |a|, |b|), a, b);
  }

  lemma BitsOfNext(fields: seq<Field>, i: nat)
    requires i < |fields| && forall k :: 0 <= k < |fields| ==> fields[k].Valid()
    ensures BitsOf(fields[i..]) == fields[i].Bits() + BitsOf(fields[i + 1..])
  {
    assert fields[i..][1..] == fields[i + 1..];
  }

  /** Packs all fields. */
  method PackFields(p: BitPacker, fields: seq<Field>) returns (ok: bool)
    requires p.Valid() && forall i :: 0 <= i < |fields| ==> fields[i].Valid()
    modifies p`bitI, p.buf
    ensures p.Valid() && (ok <==> old(p.bitI) + |BitsOf(fields)| <= 8 * p.size)
    ensures ok ==> p.Stream() == old(p.Stream()) + BitsOf(fields)
  {
    hide BitsOf, BitsAt;
    ghost var all := p.Stream() + BitsOf(fields);
    assert fields[0..] == fields;
    var i := 0;
    while i < |fields|
      invariant 0 <= i <= |fields| && p.Valid() && p.Stream() + BitsOf(fields[i..]) == all
    {
      ghost var before := p.Stream();
      BitsOfNext(fields, i);
      ok := PackField(p, fields[i]);
      if !ok {
        return;
      }
      Regroup(before, fields[i].Bits(), BitsOf(fields[i + 1..]));
      i := i + 1;
    }
    assert fields[i..] == [];
    NoFields(p.Stream());
    ok := true;
  }

  lemma NoFields(s: seq<bool>)
    ensures BitsOf([]) == [] && s + [] == s
  {
  }

  /** Unpacks fields of the shapes that were packed. */
  method UnpackFields(p: BitPacker, fields: seq<Field>) returns (back: seq<Field>)
    requires p.size == p.buf.Length && forall i :: 0 <= i < |fields| ==> fields[i].Valid()
    requires p.bitI <= 8 * p.size && Ahead(p.buf[..], p.bitI, BitsOf(fields))
    modifies p`bitI
    ensures |back| == |fields| && forall i :: 0 <= i < |fields| ==> back[i] == fields[i].Back()
  {
    hide BitsOf, BitsAt, Ahead, WordBits, StringBits, Squeezed, Expanded, Cut, Field.Back, Field.Bits;
    ghost var bytes := p.buf[..];
    back := [];
    assert fields[0..] == fields;
    var i := 0;
    while i < |fields|
      invariant 0 <= i <= |fields| && |back| == i
      invariant p.bitI <= 8 * p.size && Ahead(bytes, p.bitI, BitsOf(fields[i..]))
      invariant forall k :: 0 <= k < i ==> back[k] == fields[k].Back()
    {
      BitsOfNext(fields, i);
      Pieces(bytes, p.bitI, fields[i].Bits(), BitsOf(fields[i + 1..]));
      var f := UnpackField(p, fields[i]);
      back := back + [f];
      i := i + 1;
    }
  }

  /** Packing any fields that fit into any buffer and unpacking them from its
      start gives every field back: numbers without the bits that were not
      packed, strings whole, and patterns as they come back on their own. */
  method RoundTrip(buf: array<Byte>, fields: seq<Field>) returns (ok: bool, back: seq<Field>)
    requires forall i :: 0 <= i < |fields| ==> fields[i].Valid()
    modifies buf
    ensures ok <==> |BitsOf(fields)| <= 8 * buf.Length
    ensures ok ==> |back| == |fields| && forall i :: 0 <= i < |fields| ==> back[i] == fields[i].Back()
  {
    hide BitsOf, BitsAt;
    back := [];
    var p := new BitPacker(buf);
    ok := PackFields(p, fields);
    if !ok {
      return;
    }
    assert [] + BitsOf(fields) == BitsOf(fields);
    StreamIs(p);
    p.bitI := 0;
    back := UnpackFields(p, fields);
  }

  lemma StreamIs(p: BitPacker)
    requires p.Valid()
    ensures p.Stream() == BitsAt(p.buf[..], 0, |p.Stream()|)
  {
  }
}
