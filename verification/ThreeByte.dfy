/** The bespoke 24-bit reader `getUint24` and the signed reading the `int24`
    entry builds on it. Both read from byte 0 of the buffer. */
module ThreeByte {
  import opened Bytes
  import opened JsBits

  /** `buf[i]` as an operand of `|` and `<<`: past the end of the buffer it is
      `undefined`, which those operators convert to 0. */
  function Operand(w: seq<Byte>, i: nat): Byte
  {
    if i < |w| then w[i] else 0
  }

  /** getUint24: the three bytes assembled with `|` and `<<`, least significant
      first when `le` holds and most significant first otherwise. */
  function GetUint24(w: seq<Byte>, le: bool): (u: int)
    ensures 0 <= u < 0x100_0000
  {
    var b0, b1, b2 := Operand(w, 0), Operand(w, 1), Operand(w, 2);
    Uint24Assembles(b0, b1, b2);
    if le then Or(Or(b0, Shl(b1, 8)), Shl(b2, 16))
    else Or(Or(Shl(b0, 16), Shl(b1, 8)), b2)
  }

  /** The bit assembly in both byte orders is positional arithmetic in base 256. */
  lemma Uint24Assembles(b0: Byte, b1: Byte, b2: Byte)
    ensures Or(Or(b0, Shl(b1, 8)), Shl(b2, 16)) == b0 + 256 * b1 + 65536 * b2
    ensures Or(Or(Shl(b0, 16), Shl(b1, 8)), b2) == 65536 * b0 + 256 * b1 + b2
  {
    Uint24AssemblesLE(b0, b1, b2);
    Uint24AssemblesBE(b0, b1, b2);
  }

  lemma Uint24AssemblesLE(b0: Byte, b1: Byte, b2: Byte)
    ensures Or(Or(b0, Shl(b1, 8)), Shl(b2, 16)) == b0 + 256 * b1 + 65536 * b2
  {
    Pow2Bytes();
    var lo := Or(b0, Shl(b1, 8));
    OrShlSmall(b0, b1, 8, 8);
    assert lo == b0 + 256 * b1 && lo < Pow2(16);
    OrShlSmall(lo, b2, 16, 8);
  }

  /** The two high bytes of the big-endian assembly: `b0 << 16 | b1 << 8`. */
  lemma HighBytesBE(b0: Byte, b1: Byte)
    ensures Or(Shl(b0, 16), Shl(b1, 8)) == 256 * (256 * b0 + b1)
  {
    Pow2Bytes();
    Pow2Words();
    var s0, s1 := Shl(b0, 16), Shl(b1, 8);
    ShlSmall(b0, 16);
    ShlSmall(b1, 8);
    assert s0 == b0 * Pow2(16) && s1 == b1 * Pow2(8);
    OrCommutes(s0, s1);
    OrSmall(s1, b0, 16);
  }

  lemma Uint24AssemblesBE(b0: Byte, b1: Byte, b2: Byte)
    ensures Or(Or(Shl(b0, 16), Shl(b1, 8)), b2) == 65536 * b0 + 256 * b1 + b2
  {
    var hi := 256 * b0 + b1;
    HighBytesBE(b0, b1);
    Pow2Bytes();
    Pow2Words();
    OrCommutes(hi * 256, b2);
    OrSmall(b2, hi, 8);
  }

  /** With three bytes present, getUint24 is the standard 24-bit unsigned reading. */
  lemma Uint24IsStandard(w: seq<Byte>, le: bool)
    requires |w| >= 3
    ensures GetUint24(w, le) == Unsigned(w, 3, le)
  {
    Uint24Assembles(w[0], w[1], w[2]);
    FromLE3(w[..3]);
    FromBE3(w[..3]);
  }

  /** Bytes missing from a short buffer read as zero. */
  lemma Uint24ShortBuffer(w: seq<Byte>, le: bool)
    requires |w| < 3
    ensures GetUint24(w, le) == Unsigned(w + seq(3 - |w|, _ => 0), 3, le)
  {
    var p := w + seq(3 - |w|, _ => 0);
    assert forall i :: 0 <= i < 3 ==> Operand(w, i) == p[i];
    Uint24IsStandard(p, le);
  }

  /** Whatever follows the three bytes is never read. */
  lemma Uint24RoundTrip(v: nat, le: bool, rest: seq<Byte>)
    requires v < 0x100_0000
    ensures GetUint24(Encode(v, 3, le) + rest, le) == v
  {
    Pow2Bytes();
    Uint24IsStandard(Encode(v, 3, le) + rest, le);
    EncodeRoundTrip(v, 3, le, rest);
  }

  lemma Uint24Examples()
    ensures GetUint24([0x01, 0x00, 0x00], true) == 1
    ensures GetUint24([0x01, 0x00, 0x00], false) == 65536
  {
    Uint24Assembles(1, 0, 0);
  }

  /** The int24 entry: the 24-bit value with bit 23 (`uint & 0x800000`) taken as the sign. */
  function Int24(w: seq<Byte>, le: bool): (x: int)
    ensures -0x80_0000 <= x < 0x80_0000
  {
    var u := GetUint24(w, le);
    var isNegative := (u / 0x80_0000) % 2 == 1;
    Bit23(u);
    if isNegative then -(0xFF_FFFF - u + 1) else u
  }

  /** Below 2^24, `u & 0x800000` is set exactly when u is at least 2^23. */
  lemma Bit23(u: int)
    requires 0 <= u < 0x100_0000
    ensures (u / 0x80_0000) % 2 == 1 <==> u >= 0x80_0000
  {
    var q := u / 0x80_0000;
    assert 0 <= q < 2;
  }

  /** int24 is u - 2^24 when bit 23 of u = getUint24 is set, and u otherwise. */
  lemma Int24Value(w: seq<Byte>, le: bool)
    ensures var u := GetUint24(w, le);
      Int24(w, le) == (if u >= 0x80_0000 then u - 0x100_0000 else u)
  {
    Bit23(GetUint24(w, le));
  }

  /** With three bytes present, int24 is the standard 24-bit two's-complement reading. */
  lemma Int24IsStandard(w: seq<Byte>, le: bool)
    requires |w| >= 3
    ensures Int24(w, le) == Signed(w, 3, le)
  {
    Pow2Table();
    Uint24IsStandard(w, le);
  }

  /** Encoding any 24-bit signed value in two's complement and reading it back gives it back. */
  lemma Int24RoundTrip(x: int, le: bool, rest: seq<Byte>)
    requires -0x80_0000 <= x < 0x80_0000
    ensures Int24(Encode(x % 0x100_0000, 3, le) + rest, le) == x
  {
    var u := x % 0x100_0000;
    var w := Encode(u, 3, le) + rest;
    Uint24RoundTrip(u, le, rest);
    SignOfPattern(x);
    Int24Value(w, le);
  }

  lemma SignOfPattern(x: int)
    requires -0x80_0000 <= x < 0x80_0000
    ensures var u := x % 0x100_0000; (if u >= 0x80_0000 then u - 0x100_0000 else u) == x
  {
    if x < 0 {
      assert x % 0x100_0000 == x + 0x100_0000;
    }
  }

  lemma Int24Examples()
    ensures Int24([0xFF, 0xFF, 0xFF], true) == -1
    ensures Int24([0xFF, 0xFF, 0xFF], false) == -1
  {
    Uint24Assembles(0xFF, 0xFF, 0xFF);
  }
}
