/** getUVarInt and getVarInt as the JavaScript engine runs them: `|`, `<<`,
    `>>`, `&` and `~` all work on signed 32-bit values, and `<<` takes its shift
    count modulo 32. The two models agree while the encoding is at most four
    bytes long; from 2^31 on the source's result wraps to a negative number. */
module JsVarint {
  import opened Bytes
  import opened JsBits
  import opened Varints

  /** The loop of getUVarInt from byte i on, with accumulator x and shift count s,
      evaluated with the 32-bit operators. */
  function JsScan(w: seq<Byte>, i: nat, x: int, s: nat): (r: VarintResult)
    requires i <= MAX_VARINT_LEN64
    decreases MAX_VARINT_LEN64 - i
    ensures i < r.size <= MAX_VARINT_LEN64 || i == r.size == MAX_VARINT_LEN64
  {
    if i == MAX_VARINT_LEN64 then VarintResult(x, MAX_VARINT_LEN64, false)
    else
      var b := VarByte(w, i);
      if b < 0x80 then
        if i == MAX_VARINT_LEN64 - 1 && b > 1 then VarintResult(x, i + 1, true)
        else VarintResult(Or(x, Shl(b, s)), i + 1, false)
      else JsScan(w, i + 1, Or(x, Shl(b % 0x80, s)), s + 7)
  }

  /** getUVarInt as written. */
  function JsUVarint(w: seq<Byte>): VarintResult
  {
    JsScan(w, 0, 0, 0)
  }

  /** Lines 54-57 on 32 bits: `v >> 1` is floor division by two, `v & 1` the low
      bit of the two's-complement pattern, and `~x` is -x - 1. */
  function JsZigZagDecode(v: int): int
  {
    var t := ToInt32(v);
    var x := t / 2;
    if t % 2 == 1 then -x - 1 else x
  }

  /** getVarInt as written. */
  function JsVarint(w: seq<Byte>): VarintResult
  {
    var u := JsUVarint(w);
    VarintResult(JsZigZagDecode(u.value), u.size, false)
  }

  lemma {:induction false} JsScanAgrees(w: seq<Byte>, i: nat)
    requires UVarint(w).size <= 4 && i < UVarint(w).size
    requires forall j :: 0 <= j < i ==> Continues(w, j)
    ensures JsScan(w, i, Payloads(w, i), 7 * i) == UVarint(w)
    decreases 4 - i
  {
    var x := Payloads(w, i);
    var b := VarByte(w, i);
    if b < 0x80 {
      UVarintStopsAt(w, i);
      JsGroupStep(w, i, b);
      assert JsScan(w, i, x, 7 * i) == VarintResult(Or(x, Shl(b, 7 * i)), i + 1, false);
    } else {
      JsGroupStep(w, i, b % 0x80);
      var x' := Or(x, Shl(b % 0x80, 7 * i));
      assert x' == Payloads(w, i + 1);
      assert JsScan(w, i, x, 7 * i) == JsScan(w, i + 1, x', 7 * (i + 1));
      JsScanAgrees(w, i + 1);
    }
  }

  /** While the groups stay below bit 28, `x | p << s` adds group i exactly. */
  lemma JsGroupStep(w: seq<Byte>, i: nat, p: nat)
    requires i <= 3 && p < 0x80
    ensures Or(Payloads(w, i), Shl(p, 7 * i)) == Payloads(w, i) + p * Pow2(7 * i)
  {
    PayloadsBound(w, i);
    assert Pow2(7) == 128;
    OrShlSmall(Payloads(w, i), p, 7 * i, 7);
  }

  /** Up to four bytes (payloads below 2^28) the source's 32-bit arithmetic is exact. */
  lemma JsUVarintAgreesUpToFourBytes(w: seq<Byte>)
    requires UVarint(w).size <= 4
    ensures JsUVarint(w) == UVarint(w)
  {
    JsScanAgrees(w, 0);
  }

  lemma JsVarintAgreesUpToFourBytes(w: seq<Byte>)
    requires UVarint(w).size <= 4
    ensures JsVarint(w) == VarintSpec(w)
  {
    JsUVarintAgreesUpToFourBytes(w);
    UVarintBound(w);
    Pow2Table();
    Pow2Monotone(7 * UVarint(w).size, 28);
    ToInt32Small(UVarint(w).value);
  }

  /** The five-byte LEB128 encoding of 2^31 decodes, as written, to -2^31, and
      its zig-zag reading to -2^30 instead of 2^30. */
  lemma JsWrapsAt2To31()
    ensures Leb128(0x8000_0000) == [0x80, 0x80, 0x80, 0x80, 0x08]
    ensures UVarint([0x80, 0x80, 0x80, 0x80, 0x08]) == VarintResult(0x8000_0000, 5, false)
    ensures JsUVarint([0x80, 0x80, 0x80, 0x80, 0x08]) == VarintResult(-0x8000_0000, 5, false)
    ensures VarintSpec([0x80, 0x80, 0x80, 0x80, 0x08]).value == 0x4000_0000
    ensures JsVarint([0x80, 0x80, 0x80, 0x80, 0x08]).value == -0x4000_0000
  {
    EncodingOf2To31();
    JsDecodingOf2To31();
    var w: seq<Byte> := [0x80, 0x80, 0x80, 0x80, 0x08];
    assert UVarint(w).value == 0x8000_0000;
    assert ZigZagDecode(0x8000_0000) == 0x4000_0000;
  }

  lemma EncodingOf2To31()
    ensures Leb128(0x8000_0000) == [0x80, 0x80, 0x80, 0x80, 0x08]
    ensures UVarint([0x80, 0x80, 0x80, 0x80, 0x08]) == VarintResult(0x8000_0000, 5, false)
  {
    var w: seq<Byte> := [0x80, 0x80, 0x80, 0x80, 0x08];
    assert Leb128(0x10) == [0x10];
    assert Leb128(0x800) == [0x80, 0x10];
    assert Leb128(0x4_0000) == [0x80, 0x80, 0x10];
    assert Leb128(0x200_0000) == [0x80, 0x80, 0x80, 0x10];
    assert Leb128(0x8000_0000) == w;
    Pow2Table();
    Leb128RoundTrip(0x8000_0000, []);
    assert w + [] == w;
  }

  lemma JsDecodingOf2To31()
    ensures JsUVarint([0x80, 0x80, 0x80, 0x80, 0x08]) == VarintResult(-0x8000_0000, 5, false)
    ensures JsVarint([0x80, 0x80, 0x80, 0x80, 0x08]).value == -0x4000_0000
  {
    var w: seq<Byte> := [0x80, 0x80, 0x80, 0x80, 0x08];
    ZeroPayloadsStayZero(w);
    ShlWraps();
    assert JsUVarint(w) == VarintResult(Or(0, Shl(8, 28)), 5, false);
    assert ToInt32(-0x8000_0000) == -0x8000_0000;
    assert JsZigZagDecode(-0x8000_0000) == -0x4000_0000;
  }

  /** Four bytes 0x80 leave the 32-bit accumulator at zero. */
  lemma ZeroPayloadsStayZero(w: seq<Byte>)
    requires |w| == 5 && w[..4] == [0x80, 0x80, 0x80, 0x80]
    ensures JsScan(w, 0, 0, 0) == JsScan(w, 4, 0, 28)
  {
    forall i | 0 <= i < 4
      ensures VarByte(w, i) == 0x80
    {
      assert w[i] == w[..4][i];
    }
    OrShlOfZero(0);
    OrShlOfZero(7);
    OrShlOfZero(14);
    OrShlOfZero(21);
    assert JsScan(w, 0, 0, 0) == JsScan(w, 1, 0, 7);
    assert JsScan(w, 1, 0, 7) == JsScan(w, 2, 0, 14);
    assert JsScan(w, 2, 0, 14) == JsScan(w, 3, 0, 21);
    assert JsScan(w, 3, 0, 21) == JsScan(w, 4, 0, 28);
  }

  /** `8 << 28` sets bit 31, which ToInt32 reads as the sign; or-ing it into 0 keeps it. */
  lemma ShlWraps()
    ensures Or(0, Shl(8, 28)) == -0x8000_0000
  {
    Pow2Table();
    assert ToUint32(8) == 8 && ToUint32(28) % 32 == 28;
    assert 8 * Pow2(28) == 0x8000_0000;
    assert Shl(8, 28) == ToInt32(0x8000_0000);
    assert ToUint32(-0x8000_0000) == 0x8000_0000;
    BitOrZero(0x8000_0000);
  }

  /** `0 | 0 << s` is 0. */
  lemma OrShlOfZero(s: nat)
    ensures Or(0, Shl(0, s)) == 0
  {
    assert ToUint32(0) == 0;
    assert Shl(0, s) == 0;
    BitOrZero(0);
  }
}
