/** Byte windows, powers of two, and the standard fixed-width integer readers
    that the inspector takes from `DataView` (getUint16, getInt32, getBigInt64, ...). */
module Bytes {

  /** A value that may be absent: a parse or a lookup that can fail. */
  datatype Option<T> = None | Some(value: T)

  /** One element of a `Uint8Array`. */
  type Byte = b: int | 0 <= b < 256

  /** 2^k. */
  function Pow2(k: nat): (r: nat)
    ensures r >= 1
  {
    if k == 0 then 1 else 2 * Pow2(k - 1)
  }

  lemma MulMonotone(a: nat, b: nat, c: nat)
    requires a <= b
    ensures a * c <= b * c
  {
  }

  /** A digit below b placed above a value below a stays below a * b. */
  lemma MulBound(x: nat, p: nat, a: nat, b: nat)
    requires x < a && p < b
    ensures x + p * a < a * b
  {
    MulMonotone(p, b - 1, a);
  }

  lemma {:induction false} Pow2Add(a: nat, b: nat)
    ensures Pow2(a + b) == Pow2(a) * Pow2(b)
  {
    if a > 0 {
      Pow2Add(a - 1, b);
      assert Pow2(a + b) == 2 * Pow2(a - 1 + b);
    }
  }

  lemma {:induction false} Pow2Monotone(a: nat, b: nat)
    requires a <= b
    ensures Pow2(a) <= Pow2(b)
  {
    if a < b {
      Pow2Monotone(a, b - 1);
    }
  }

  lemma Pow2Seven()
    ensures Pow2(7) == 0x80
  {
  }

  /** The place values of the bytes of a 24-bit value. */
  lemma Pow2Bytes()
    ensures Pow2(8) == 0x100 && Pow2(16) == 0x1_0000 && Pow2(24) == 0x100_0000
  {
    assert Pow2(8) == 0x100;
    Pow2Add(8, 8);
    Pow2Add(16, 8);
  }

  /** The sign bit and the modulus of 32-bit values. */
  lemma Pow2Words()
    ensures Pow2(31) == 0x8000_0000 && Pow2(32) == 0x1_0000_0000
  {
    Pow2Bytes();
    Pow2Add(16, 16);
    assert Pow2(32) == 2 * Pow2(31);
  }

  /** The powers of two that the readers' widths and masks use. */
  lemma Pow2Table()
    ensures Pow2(7) == 0x80 && Pow2(8) == 0x100 && Pow2(16) == 0x1_0000
    ensures Pow2(23) == 0x80_0000 && Pow2(24) == 0x100_0000 && Pow2(28) == 0x1000_0000
    ensures Pow2(31) == 0x8000_0000 && Pow2(32) == 0x1_0000_0000
    ensures Pow2(63) == 0x8000_0000_0000_0000 && Pow2(64) == 0x1_0000_0000_0000_0000
  {
    Pow2Seven();
    Pow2Bytes();
    Pow2Words();
    Pow2Add(16, 7);
    Pow2Add(24, 4);
    assert Pow2(4) == 16;
    Pow2Add(32, 31);
    Pow2Add(32, 32);
  }

  /** Multiplying by 2^8 moves a value up by one byte. */
  lemma Pow2Byte(n: nat)
    ensures Pow2(8 * n + 8) == 256 * Pow2(8 * n)
  {
    Pow2Add(8, 8 * n);
  }

  /** The value of bytes stored least significant first. */
  function FromLE(s: seq<Byte>): (v: nat)
    ensures v < Pow2(8 * |s|)
  {
    if |s| == 0 then 0
    else
      Pow2Byte(|s| - 1);
      s[0] + 256 * FromLE(s[1..])
  }

  /** The value of bytes stored most significant first. */
  function FromBE(s: seq<Byte>): (v: nat)
    ensures v < Pow2(8 * |s|)
  {
    if |s| == 0 then 0
    else
      Pow2Byte(|s| - 1);
      256 * FromBE(s[..|s| - 1]) + s[|s| - 1]
  }

  /** The n low bytes of v, least significant first. */
  function ToLE(v: nat, n: nat): (s: seq<Byte>)
    ensures |s| == n
  {
    if n == 0 then [] else [v % 256] + ToLE(v / 256, n - 1)
  }

  /** The n low bytes of v, most significant first. */
  function ToBE(v: nat, n: nat): (s: seq<Byte>)
    ensures |s| == n
  {
    if n == 0 then [] else ToBE(v / 256, n - 1) + [v % 256]
  }

  lemma {:induction false} FromLEToLE(v: nat, n: nat)
    requires v < Pow2(8 * n)
    ensures FromLE(ToLE(v, n)) == v
  {
    if n > 0 {
      Pow2Byte(n - 1);
      assert v / 256 < Pow2(8 * (n - 1));
      FromLEToLE(v / 256, n - 1);
      assert ToLE(v, n)[1..] == ToLE(v / 256, n - 1);
    }
  }

  /** A byte placed below a value is its remainder modulo 256, and the value its quotient. */
  lemma SplitByte(h: nat, b: Byte)
    ensures (256 * h + b) % 256 == b && (256 * h + b) / 256 == h
    ensures (b + 256 * h) % 256 == b && (b + 256 * h) / 256 == h
  {
  }

  lemma {:induction false} ToLEFromLE(s: seq<Byte>)
    ensures ToLE(FromLE(s), |s|) == s
  {
    if |s| > 0 {
      SplitByte(FromLE(s[1..]), s[0]);
      ToLEFromLE(s[1..]);
    }
  }

  lemma {:induction false} FromBEToBE(v: nat, n: nat)
    requires v < Pow2(8 * n)
    ensures FromBE(ToBE(v, n)) == v
  {
    if n > 0 {
      Pow2Byte(n - 1);
      assert v / 256 < Pow2(8 * (n - 1));
      FromBEToBE(v / 256, n - 1);
      var s := ToBE(v, n);
      assert s[..|s| - 1] == ToBE(v / 256, n - 1);
    }
  }

  lemma {:induction false} ToBEFromBE(s: seq<Byte>)
    ensures ToBE(FromBE(s), |s|) == s
  {
    if |s| > 0 {
      var init := s[..|s| - 1];
      SplitByte(FromBE(init), s[|s| - 1]);
      ToBEFromBE(init);
      assert s == init + [s[|s| - 1]];
    }
  }

  lemma FromLE3(s: seq<Byte>)
    requires |s| == 3
    ensures FromLE(s) == s[0] as int + 256 * s[1] as int + 65536 * s[2] as int
  {
    assert s[1..][1..][1..] == [];
    assert FromLE(s[1..][1..]) == s[2];
    assert FromLE(s[1..]) == s[1] + 256 * s[2] as int;
  }

  lemma FromBE3(s: seq<Byte>)
    requires |s| == 3
    ensures FromBE(s) == 65536 * s[0] as int + 256 * s[1] as int + s[2] as int
  {
    assert s[..2][..1][..0] == [];
    assert FromBE(s[..2][..1]) == s[0];
    assert FromBE(s[..2]) == 256 * s[0] as int + s[1];
  }

  /** The n bytes that store v under the given byte order. */
  function Encode(v: nat, n: nat, le: bool): (s: seq<Byte>)
    ensures |s| == n
  {
    if le then ToLE(v, n) else ToBE(v, n)
  }

  /** DataView getUintN(0, le): the first n bytes of the window as an unsigned value. */
  function Unsigned(w: seq<Byte>, n: nat, le: bool): (v: nat)
    requires n <= |w|
    ensures v < Pow2(8 * n)
  {
    if le then FromLE(w[..n]) else FromBE(w[..n])
  }

  /** Re-encoding what was read gives back the bytes read. */
  lemma UnsignedRoundTrip(w: seq<Byte>, n: nat, le: bool)
    requires n <= |w|
    ensures Encode(Unsigned(w, n, le), n, le) == w[..n]
  {
    if le { ToLEFromLE(w[..n]); } else { ToBEFromBE(w[..n]); }
  }

  /** Reading what was encoded gives back the value, whatever follows it. */
  lemma EncodeRoundTrip(v: nat, n: nat, le: bool, rest: seq<Byte>)
    requires v < Pow2(8 * n)
    ensures Unsigned(Encode(v, n, le) + rest, n, le) == v
  {
    var w := Encode(v, n, le) + rest;
    assert w[..n] == Encode(v, n, le);
    if le { FromLEToLE(v, n); } else { FromBEToBE(v, n); }
  }

  /** The two's-complement reading of a bits-wide unsigned value. */
  function FromTwosComplement(u: nat, bits: nat): (x: int)
    requires 1 <= bits && u < Pow2(bits)
    ensures -(Pow2(bits - 1) as int) <= x < Pow2(bits - 1)
    ensures x == u || x == u - Pow2(bits)
  {
    Pow2Add(1, bits - 1);
    if u >= Pow2(bits - 1) then u - Pow2(bits) else u
  }

  /** The bits-wide unsigned pattern that stores x in two's complement. */
  function ToTwosComplement(x: int, bits: nat): (u: nat)
    requires 1 <= bits && -(Pow2(bits - 1) as int) <= x < Pow2(bits - 1)
    ensures u < Pow2(bits)
    ensures x >= 0 <==> u < Pow2(bits - 1)
  {
    Pow2Add(1, bits - 1);
    if x < 0 then Pow2(bits) + x else x
  }

  lemma TwosComplementRoundTrip(x: int, bits: nat)
    requires 1 <= bits && -(Pow2(bits - 1) as int) <= x < Pow2(bits - 1)
    ensures FromTwosComplement(ToTwosComplement(x, bits), bits) == x
  {
  }

  lemma TwosComplementInverse(u: nat, bits: nat)
    requires 1 <= bits && u < Pow2(bits)
    ensures ToTwosComplement(FromTwosComplement(u, bits), bits) == u
  {
  }

  /** DataView getIntN(0, le): the first n bytes of the window in two's complement. */
  function Signed(w: seq<Byte>, n: nat, le: bool): (x: int)
    requires 1 <= n <= |w|
    ensures -(Pow2(8 * n - 1) as int) <= x < Pow2(8 * n - 1)
    ensures x == Unsigned(w, n, le) || x == Unsigned(w, n, le) - Pow2(8 * n)
  {
    FromTwosComplement(Unsigned(w, n, le), 8 * n)
  }
}
