/** getUVarInt and getVarInt: unsigned LEB128 (base-128, low group first, high
    bit of each byte meaning "more follows"), read from byte 0 of the buffer for
    at most MaxVarintLen64 bytes, and its zig-zag signed form.

    `|` and `<<` are taken on unbounded integers here: BitOr on naturals and
    multiplication by a power of two. Their 32-bit JavaScript meaning is in
    module JsVarint. */
module Varints {
  import opened Bytes
  import opened JsBits
  import opened Render

  /** MaxVarintLen64: the longest scan, enough for 64 bits of payload. */
  const MAX_VARINT_LEN64: nat := 10

  /** What a decoder reports: the value, the bytes consumed, and whether the
      tenth byte carried more than the single payload bit that 64 bits allow. */
  datatype VarintResult = VarintResult(value: int, size: nat, overflow: bool)

  /** `buf[i]` as getUVarInt sees it. Past the end it is `undefined`, which
      fails `b < 0x80` and masks to 0 under `& 0x7f`: it acts as 0x80. */
  function VarByte(w: seq<Byte>, i: nat): Byte
  {
    if i < |w| then w[i] else 0x80
  }

  /** The continuation bit: byte i is not the last one. */
  predicate Continues(w: seq<Byte>, i: nat)
  {
    VarByte(w, i) >= 0x80
  }

  /** `b & 0x7f`: the seven payload bits of byte i. */
  function Payload(w: seq<Byte>, i: nat): nat
  {
    VarByte(w, i) % 128
  }

  /** The payload groups of bytes 0 .. k-1 placed at bit 7 * i: the sum of payload_i * 128^i. */
  function Payloads(w: seq<Byte>, k: nat): nat
  {
    if k == 0 then 0 else Payloads(w, k - 1) + Payload(w, k - 1) * Pow2(7 * (k - 1))
  }

  lemma {:induction false} PayloadsBound(w: seq<Byte>, k: nat)
    ensures Payloads(w, k) < Pow2(7 * k)
  {
    if k > 0 {
      PayloadsBound(w, k - 1);
      Pow2Seven();
      MulBound(Payloads(w, k - 1), Payload(w, k - 1), Pow2(7 * (k - 1)), Pow2(7));
      Pow2Add(7 * (k - 1), 7);
    }
  }

  /** One plus the index of the first byte at or after i whose continuation
      bit is clear, looking no further than MaxVarintLen64 bytes; 10 if there is none. */
  function StopAt(w: seq<Byte>, i: nat): (n: nat)
    requires i <= MAX_VARINT_LEN64
    decreases MAX_VARINT_LEN64 - i
    ensures i < n <= MAX_VARINT_LEN64 || (i == n == MAX_VARINT_LEN64)
    ensures forall j :: i <= j < n - 1 ==> Continues(w, j)
    ensures n < MAX_VARINT_LEN64 ==> !Continues(w, n - 1)
  {
    if i == MAX_VARINT_LEN64 then MAX_VARINT_LEN64
    else if !Continues(w, i) then i + 1
    else StopAt(w, i + 1)
  }

  /** The number of bytes getUVarInt consumes. */
  function ScanLength(w: seq<Byte>): (n: nat)
    ensures 1 <= n <= MAX_VARINT_LEN64
    ensures forall j :: 0 <= j < n - 1 ==> Continues(w, j)
    ensures n < MAX_VARINT_LEN64 ==> !Continues(w, n - 1)
    ensures n == MAX_VARINT_LEN64 <==> forall j :: 0 <= j < 9 ==> Continues(w, j)
  {
    StopAt(w, 0)
  }

  /** The tenth byte ends the encoding but carries more than one payload bit. */
  predicate Overflows(w: seq<Byte>)
  {
    ScanLength(w) == MAX_VARINT_LEN64 && !Continues(w, 9) && VarByte(w, 9) > 1
  }

  /** What getUVarInt computes, stated as a sum over the bytes it reads: the
      payloads of all bytes read, except that an overflowing tenth byte is dropped. */
  function UVarint(w: seq<Byte>): VarintResult
  {
    var n := ScanLength(w);
    if Overflows(w) then VarintResult(Payloads(w, 9), n, true)
    else VarintResult(Payloads(w, n), n, false)
  }

  /** `p << k` on unbounded integers. */
  function ShiftLeft(p: nat, k: nat): nat
  {
    p * Pow2(k)
  }

  /** The unit word: "byte" for one byte, "bytes" otherwise. */
  function Unit(size: nat): string
  {
    if size == 1 then "byte" else "bytes"
  }

  /** The annotation string: `<value> (<size> <unit>)`, or, on overflow,
      `<value>, (<size> <unit>, overflows)` with the comma the source puts after the value. */
  function Text(r: VarintResult): string
  {
    if r.overflow then Decimal(r.value) + ", (" + Decimal(r.size) + " " + Unit(r.size) + ", overflows)"
    else Decimal(r.value) + " (" + Decimal(r.size) + " " + Unit(r.size) + ")"
  }

  predicate EndsWith(s: string, suffix: string)
  {
    |suffix| <= |s| && s[|s| - |suffix|..] == suffix
  }

  /** The overflow marker a reader of the annotation sees. */
  predicate FlagsOverflow(s: string)
  {
    EndsWith(s, ", overflows)")
  }

  /** getUVarInt: the loop of the source, with its early returns. */
  method GetUVarInt(w: seq<Byte>) returns (value: int, size: nat, text: string)
    ensures value == UVarint(w).value && size == UVarint(w).size
    ensures text == Text(UVarint(w))
  {
    var x: nat := 0;
    var s: nat := 0;
    var byteStr := "byte";
    for i := 0 to MAX_VARINT_LEN64
      invariant x == Payloads(w, i) && s == 7 * i
      invariant forall j :: 0 <= j < i ==> Continues(w, j)
      invariant byteStr == Unit(if i == 0 then 1 else i)
    {
      if i > 0 && byteStr != "bytes" {
        byteStr := "bytes";
      }
      assert byteStr == Unit(i + 1);
      var b := VarByte(w, i);
      if b < 0x80 {
        StopStep(w, i);
        if i == MAX_VARINT_LEN64 - 1 && b > 1 {
          value, size := x, i + 1;
          text := Decimal(x) + ", (" + Decimal(i + 1) + " " + byteStr + ", overflows)";
          return;
        }
        value, size := BitOr(x, ShiftLeft(b, s)), i + 1;
        text := Decimal(value) + " (" + Decimal(i + 1) + " " + byteStr + ")";
        return;
      }
      ContinueStep(w, i);
      x := BitOr(x, ShiftLeft(b % 0x80, s));
      s := s + 7;
      assert Continues(w, i);
    }
    UVarintRunsOut(w);
    value, size := x, MAX_VARINT_LEN64;
    text := Decimal(x) + " (" + Decimal(MAX_VARINT_LEN64) + " " + byteStr + ")";
  }

  /** A continuation byte: or-ing in its shifted payload adds the next group. */
  lemma ContinueStep(w: seq<Byte>, i: nat)
    ensures BitOr(Payloads(w, i), ShiftLeft(Payload(w, i), 7 * i)) == Payloads(w, i + 1)
  {
    PayloadsBound(w, i);
    BitOrDisjoint(Payloads(w, i), Payload(w, i), 7 * i);
  }

  /** The terminating byte: what the loop returns there is the decoder's result. */
  lemma StopStep(w: seq<Byte>, i: nat)
    requires i < MAX_VARINT_LEN64
    requires forall j :: 0 <= j < i ==> Continues(w, j)
    requires !Continues(w, i)
    ensures var b := VarByte(w, i);
      UVarint(w) == if i == MAX_VARINT_LEN64 - 1 && b > 1
        then VarintResult(Payloads(w, i), i + 1, true)
        else VarintResult(BitOr(Payloads(w, i), ShiftLeft(b, 7 * i)), i + 1, false)
  {
    PayloadsBound(w, i);
    BitOrDisjoint(Payloads(w, i), VarByte(w, i), 7 * i);
    UVarintStopsAt(w, i);
  }

  /** The result when byte i is the first whose continuation bit is clear. */
  lemma UVarintStopsAt(w: seq<Byte>, i: nat)
    requires i < MAX_VARINT_LEN64
    requires forall j :: 0 <= j < i ==> Continues(w, j)
    requires !Continues(w, i)
    ensures ScanLength(w) == i + 1
    ensures Overflows(w) <==> i == 9 && VarByte(w, i) > 1
    ensures UVarint(w) == if i == 9 && VarByte(w, i) > 1
      then VarintResult(Payloads(w, 9), 10, true)
      else VarintResult(Payloads(w, i) + VarByte(w, i) * Pow2(7 * i), i + 1, false)
  {
    StopAtFrom(w, 0, i);
  }

  /** The result when none of the ten bytes has its continuation bit clear. */
  lemma UVarintRunsOut(w: seq<Byte>)
    requires forall j :: 0 <= j < MAX_VARINT_LEN64 ==> Continues(w, j)
    ensures UVarint(w) == VarintResult(Payloads(w, 10), 10, false)
  {
    StopAtFrom(w, 0, MAX_VARINT_LEN64);
  }

  /** Skipping bytes known to continue does not change where the scan stops. */
  lemma {:induction false} StopAtFrom(w: seq<Byte>, i: nat, k: nat)
    requires i <= k <= MAX_VARINT_LEN64
    requires forall j :: i <= j < k ==> Continues(w, j)
    ensures StopAt(w, i) == StopAt(w, k)
    decreases k - i
  {
    if i < k {
      StopAtFrom(w, i + 1, k);
    }
  }

  /** Two buffers that agree on the first bytes a scan reads stop it at the same place. */
  lemma {:induction false} StopAtAgrees(w: seq<Byte>, w': seq<Byte>, i: nat)
    requires i <= MAX_VARINT_LEN64
    requires forall j :: i <= j < StopAt(w, i) ==> VarByte(w, j) == VarByte(w', j)
    ensures StopAt(w', i) == StopAt(w, i)
    decreases MAX_VARINT_LEN64 - i
  {
    if i < MAX_VARINT_LEN64 && Continues(w, i) {
      StopAtAgrees(w, w', i + 1);
    }
  }

  lemma {:induction false} PayloadsAgree(w: seq<Byte>, w': seq<Byte>, k: nat)
    requires forall j :: 0 <= j < k ==> VarByte(w, j) == VarByte(w', j)
    ensures Payloads(w', k) == Payloads(w, k)
  {
    if k > 0 {
      PayloadsAgree(w, w', k - 1);
    }
  }

  /** Only the bytes the scan consumes decide the result: bytes after the
      terminating byte, and bytes beyond the tenth, are never looked at. */
  lemma UVarintLocal(w: seq<Byte>, w': seq<Byte>)
    requires forall j :: 0 <= j < UVarint(w).size ==> VarByte(w, j) == VarByte(w', j)
    ensures UVarint(w') == UVarint(w)
  {
    StopAtAgrees(w, w', 0);
    PayloadsAgree(w, w', ScanLength(w));
    if ScanLength(w) == MAX_VARINT_LEN64 {
      PayloadsAgree(w, w', 9);
    }
  }

  /** Replacing what follows the consumed bytes changes nothing. */
  lemma IgnoresTrailingBytes(w: seq<Byte>, rest: seq<Byte>)
    requires UVarint(w).size <= |w|
    ensures UVarint(w[..UVarint(w).size] + rest) == UVarint(w)
  {
    var w' := w[..UVarint(w).size] + rest;
    assert forall j :: 0 <= j < UVarint(w).size ==> VarByte(w, j) == VarByte(w', j);
    UVarintLocal(w, w');
  }

  /** At most MaxVarintLen64 bytes are read. */
  lemma ReadsAtMostTenBytes(w: seq<Byte>)
    requires |w| >= MAX_VARINT_LEN64
    ensures UVarint(w[..MAX_VARINT_LEN64]) == UVarint(w)
  {
    var w' := w[..MAX_VARINT_LEN64];
    assert forall j :: 0 <= j < UVarint(w).size ==> VarByte(w, j) == VarByte(w', j);
    UVarintLocal(w, w');
  }

  /** A read past the end of the buffer behaves as the byte 0x80 would. */
  lemma MissingBytesReadAs0x80(w: seq<Byte>)
    requires |w| < MAX_VARINT_LEN64
    ensures UVarint(w + seq(MAX_VARINT_LEN64 - |w|, _ => 0x80)) == UVarint(w)
  {
    var w' := w + seq(MAX_VARINT_LEN64 - |w|, _ => 0x80);
    assert forall j :: 0 <= j < UVarint(w).size ==> VarByte(w, j) == VarByte(w', j);
    UVarintLocal(w, w');
  }

  /** The value holds seven bits for every byte consumed. */
  lemma UVarintBound(w: seq<Byte>)
    ensures 0 <= UVarint(w).value < Pow2(7 * UVarint(w).size)
  {
    var n := ScanLength(w);
    if Overflows(w) {
      PayloadsBound(w, 9);
      Pow2Monotone(63, 70);
    } else {
      PayloadsBound(w, n);
    }
  }

  /** A tenth byte that ends the encoding with a payload above 1 is flagged:
      its payload is left out of the value, ten bytes are reported, and the
      annotation carries the overflow marker. */
  lemma OverflowCase(w: seq<Byte>)
    requires forall j :: 0 <= j < 9 ==> Continues(w, j)
    requires !Continues(w, 9) && VarByte(w, 9) > 1
    ensures UVarint(w) == VarintResult(Payloads(w, 9), 10, true)
    ensures FlagsOverflow(Text(UVarint(w)))
  {
    UVarintStopsAt(w, 9);
    TextFlagsOverflow(UVarint(w));
  }

  /** Ten bytes that all carry the continuation bit are consumed whole, without the overflow flag. */
  lemma UnterminatedCase(w: seq<Byte>)
    requires forall j :: 0 <= j < MAX_VARINT_LEN64 ==> Continues(w, j)
    ensures UVarint(w) == VarintResult(Payloads(w, 10), 10, false)
    ensures !FlagsOverflow(Text(UVarint(w)))
  {
    UVarintRunsOut(w);
    TextFlagsOverflow(UVarint(w));
  }

  lemma EndsWithConcat(a: string, b: string)
    ensures EndsWith(a + b, b)
  {
    assert (a + b)[|a + b| - |b|..] == b;
  }

  /** The annotation carries the overflow marker exactly when the result is flagged. */
  lemma TextFlagsOverflow(r: VarintResult)
    ensures FlagsOverflow(Text(r)) <==> r.overflow
  {
    var head := Decimal(r.value) + (if r.overflow then ", (" else " (") + Decimal(r.size) + " ";
    var u := Unit(r.size);
    if r.overflow {
      assert Text(r) == head + u + ", overflows)";
      EndsWithConcat(head + u, ", overflows)");
    } else {
      var t := Text(r);
      assert t == head + u + ")";
      assert t[|t| - 3] == u[|u| - 2];
      assert u[|u| - 2] != ", overflows)"[9];
    }
  }

  /** The annotation ends in " byte)", or in " byte, overflows)" when flagged,
      exactly when one byte was consumed. */
  lemma SingularExactlyForOneByte(r: VarintResult)
    ensures EndsWith(Text(r), if r.overflow then " byte, overflows)" else " byte)") <==> r.size == 1
  {
    var t := Text(r);
    if r.overflow {
      var head := Decimal(r.value) + ", (" + Decimal(r.size);
      if r.size == 1 {
        assert t == head + " byte, overflows)";
        EndsWithConcat(head, " byte, overflows)");
      } else {
        assert t == head + " bytes, overflows)";
        assert t[|t| - 17] == 'b';
      }
    } else {
      var head := Decimal(r.value) + " (" + Decimal(r.size);
      if r.size == 1 {
        assert t == head + " byte)";
        EndsWithConcat(head, " byte)");
      } else {
        assert t == head + " bytes)";
        assert t[|t| - 2] == 's';
      }
    }
  }

  lemma UVarintExamples()
    ensures UVarint([0x00]) == VarintResult(0, 1, false)
    ensures UVarint([0x96, 0x01]) == VarintResult(150, 2, false)
  {
    Pow2Seven();
    UVarintStopsAt([0x00], 0);
    UVarintStopsAt([0x96, 0x01], 1);
  }

  lemma TextExamples()
    ensures Text(VarintResult(0, 1, false)) == "0 (1 byte)"
    ensures Text(VarintResult(150, 2, false)) == "150 (2 bytes)"
    ensures Text(VarintResult(0, 10, true)) == "0, (10 bytes, overflows)"
  {
    SingleByteText();
    TwoByteText();
    OverflowText();
  }

  lemma SingleByteText()
    ensures Text(VarintResult(0, 1, false)) == "0 (1 byte)"
  {
    assert Decimal(0) == "0" && Decimal(1) == "1";
  }

  lemma TwoByteText()
    ensures Text(VarintResult(150, 2, false)) == "150 (2 bytes)"
  {
    assert Digits(15) == "15" by { assert Digits(1) == "1"; }
    assert Decimal(150) == "150";
    assert Decimal(2) == "2";
  }

  lemma OverflowText()
    ensures Text(VarintResult(0, 10, true)) == "0, (10 bytes, overflows)"
  {
    var zero, ten := Decimal(0), Decimal(10);
    assert zero == "0";
    assert ten == "10" by {
      assert Digits(1) == "1" && DigitChar(0) == '0';
      assert Digits(10) == Digits(1) + [DigitChar(0)];
    }
    assert Unit(10) == "bytes";
    assert zero + ", (" + ten + " " + "bytes" + ", overflows)" == "0, (10 bytes, overflows)";
  }

  lemma OverflowExample()
    ensures UVarint([0x80, 0x80, 0x80, 0x80, 0x80, 0x80, 0x80, 0x80, 0x80, 0x02]) == VarintResult(0, 10, true)
  {
    var o: seq<Byte> := [0x80, 0x80, 0x80, 0x80, 0x80, 0x80, 0x80, 0x80, 0x80, 0x02];
    assert forall j :: 0 <= j < 9 ==> Continues(o, j) && Payload(o, j) == 0;
    OverflowCase(o);
    PayloadsZero(o, 9);
  }

  lemma {:induction false} PayloadsZero(w: seq<Byte>, k: nat)
    requires forall j :: 0 <= j < k ==> Payload(w, j) == 0
    ensures Payloads(w, k) == 0
  {
    if k > 0 {
      PayloadsZero(w, k - 1);
    }
  }

  // ---------------------------------------------------------------------
  // LEB128 encoding, the partner of the decoder

  /** The shortest unsigned LEB128 encoding of n. */
  function Leb128(n: nat): (e: seq<Byte>)
    ensures |e| >= 1
    decreases n
  {
    if n < 128 then [n] else [n % 128 + 128] + Leb128(n / 128)
  }

  /** Every byte but the last carries the continuation bit, the last is not a
      redundant zero, and the length is the least number of 7-bit groups that hold n. */
  lemma Leb128Canonical(n: nat)
    ensures var e := Leb128(n);
      (forall j :: 0 <= j < |e| - 1 ==> e[j] >= 0x80) && e[|e| - 1] < 0x80 &&
      (|e| > 1 ==> e[|e| - 1] != 0) &&
      n < Pow2(7 * |e|) && (|e| > 1 ==> Pow2(7 * (|e| - 1)) <= n)
  {
    Leb128Shape(n);
    Leb128LastNonZero(n);
    Leb128Length(n);
  }

  lemma {:induction false} Leb128LastNonZero(n: nat)
    ensures var e := Leb128(n); |e| > 1 ==> e[|e| - 1] != 0
    decreases n
  {
    if n >= 128 {
      var e, e' := Leb128(n), Leb128(n / 128);
      Leb128LastNonZero(n / 128);
      assert e == [n % 128 + 128] + e';
      assert e[|e| - 1] == e'[|e'| - 1];
    }
  }

  /** Leb128 uses the least number of 7-bit groups that hold n. */
  lemma {:induction false} Leb128Length(n: nat)
    ensures var k := |Leb128(n)|; n < Pow2(7 * k) && (k > 1 ==> Pow2(7 * (k - 1)) <= n)
    decreases n
  {
    if n < 128 {
      assert |Leb128(n)| == 1;
      Pow2Seven();
    } else {
      var k := |Leb128(n / 128)|;
      assert |Leb128(n)| == k + 1;
      Leb128Length(n / 128);
      LengthStep(n, k);
    }
  }

  /** One more 7-bit group: if n / 128 needs exactly k groups, n needs k + 1. */
  lemma LengthStep(n: nat, k: nat)
    requires n >= 128 && k >= 1
    requires n / 128 < Pow2(7 * k) && (k > 1 ==> Pow2(7 * (k - 1)) <= n / 128)
    ensures n < Pow2(7 * (k + 1)) && Pow2(7 * k) <= n
  {
    var m := n / 128;
    GroupShift(k + 1);
    assert n < 128 * (m + 1);
    MulMonotone(m + 1, Pow2(7 * k), 128);
    if k > 1 {
      GroupShift(k);
      MulMonotone(Pow2(7 * (k - 1)), m, 128);
    } else {
      Pow2Seven();
    }
  }


  /** One more 7-bit group multiplies the place value by 128. */
  lemma GroupShift(k: nat)
    requires k >= 1
    ensures Pow2(7 * k) == 128 * Pow2(7 * (k - 1))
  {
    var a := 7 * (k - 1);
    assert 7 + a == 7 * k;
    Pow2Add(7, a);
    Pow2Seven();
  }

  /** Prepending a byte shifts the payloads of the rest up by seven bits. */
  lemma {:induction false} PayloadsCons(b: Byte, w: seq<Byte>, k: nat)
    ensures Payloads([b] + w, k + 1) == b % 128 + 128 * Payloads(w, k)
  {
    var bw := [b] + w;
    if k == 0 {
      assert VarByte(bw, 0) == b;
    } else {
      PayloadsCons(b, w, k - 1);
      assert VarByte(bw, k) == VarByte(w, k - 1);
      GroupShift(k);
      MulShift(Payload(w, k - 1), Pow2(7 * (k - 1)));
    }
  }


  lemma {:induction false} Leb128Payloads(n: nat, rest: seq<Byte>)
    ensures Payloads(Leb128(n) + rest, |Leb128(n)|) == n
    decreases n
  {
    if n < 128 {
      assert VarByte(Leb128(n) + rest, 0) == n;
    } else {
      var m := n / 128;
      var tail := Leb128(m) + rest;
      var b: Byte := n % 128 + 128;
      assert Leb128(n) + rest == [b] + tail;
      assert |Leb128(n)| == |Leb128(m)| + 1;
      Leb128Payloads(m, rest);
      PayloadsCons(b, tail, |Leb128(m)|);
      assert b % 128 + 128 * m == n;
    }
  }

  /** A value below top * 128^(k-1) takes at most k bytes, and if it takes
      exactly k, the last one is below top. */
  lemma {:induction false} Leb128Bounded(n: nat, k: nat, top: nat)
    requires 1 <= k && 1 <= top <= 128 && n < top * Pow2(7 * (k - 1))
    ensures |Leb128(n)| <= k
    ensures |Leb128(n)| == k ==> Leb128(n)[k - 1] < top
    decreases k
  {
    if n >= 128 {
      if k == 1 {
        assert false;
      }
      var lower := Pow2(7 * (k - 2));
      GroupShift(k - 1);
      MulShift(top, lower);
      assert n / 128 < top * lower;
      Leb128Bounded(n / 128, k - 1, top);
      assert Leb128(n) == [n % 128 + 128] + Leb128(n / 128);
    } else if k == 1 {
      assert Pow2(0) == 1;
    }
  }

  lemma MulShift(t: nat, l: nat)
    ensures t * (128 * l) == 128 * (t * l)
  {
  }

  /** A 64-bit value needs at most ten bytes, and a tenth byte carries at most one bit. */
  lemma Leb128Fits(n: nat)
    requires n < Pow2(64)
    ensures |Leb128(n)| <= MAX_VARINT_LEN64
    ensures |Leb128(n)| == MAX_VARINT_LEN64 ==> Leb128(n)[9] <= 1
  {
    Pow2Add(1, 63);
    assert Pow2(1) == 2;
    Leb128Bounded(n, 10, 2);
  }

  /** The continuation bits of the LEB128 encoding: set on every byte but the last. */
  lemma {:induction false} Leb128Shape(n: nat)
    ensures var e := Leb128(n);
      (forall j :: 0 <= j < |e| - 1 ==> e[j] >= 0x80) && e[|e| - 1] < 0x80
    decreases n
  {
    if n >= 128 {
      Leb128Shape(n / 128);
      var e, e' := Leb128(n), Leb128(n / 128);
      assert e == [n % 128 + 128] + e';
      assert forall j :: 1 <= j < |e| ==> e[j] == e'[j - 1];
    }
  }

  /** A scan that ends at byte k - 1 without overflowing reports the payloads of k bytes. */
  lemma UVarintEndsAt(w: seq<Byte>, k: nat)
    requires 1 <= k <= MAX_VARINT_LEN64
    requires forall j :: 0 <= j < k - 1 ==> Continues(w, j)
    requires VarByte(w, k - 1) < 0x80 && (k == MAX_VARINT_LEN64 ==> VarByte(w, 9) <= 1)
    ensures UVarint(w) == VarintResult(Payloads(w, k), k, false)
  {
    var last := VarByte(w, k - 1);
    assert Payload(w, k - 1) == last;
    UVarintStopsAt(w, k - 1);
  }

  /** Decoding the LEB128 encoding of any 64-bit n gives back n, reports the
      encoding's length, and does not flag overflow, whatever follows it. */
  lemma Leb128RoundTrip(n: nat, rest: seq<Byte>)
    requires n < Pow2(64)
    ensures UVarint(Leb128(n) + rest) == VarintResult(n, |Leb128(n)|, false)
  {
    var e := Leb128(n);
    var w := e + rest;
    var k := |e|;
    Leb128Shape(n);
    Leb128Fits(n);
    forall j | 0 <= j < k - 1
      ensures Continues(w, j)
    {
      assert VarByte(w, j) == e[j];
    }
    assert VarByte(w, k - 1) == e[k - 1];
    assert k == MAX_VARINT_LEN64 ==> VarByte(w, 9) <= 1;
    UVarintEndsAt(w, k);
    Leb128Payloads(n, rest);
  }

  lemma PayloadsAtLeastLast(w: seq<Byte>, k: nat)
    requires k >= 1
    ensures Payloads(w, k) >= Payload(w, k - 1) * Pow2(7 * (k - 1))
  {
  }

  /** The converse: a terminated, non-overflowing encoding whose last byte is
      not a redundant zero is the LEB128 encoding of the value it decodes to. */
  lemma DecodeThenEncode(w: seq<Byte>)
    requires !UVarint(w).overflow && !Continues(w, UVarint(w).size - 1)
    requires UVarint(w).size == 1 || VarByte(w, UVarint(w).size - 1) != 0
    ensures UVarint(w).size <= |w|
    ensures Leb128(UVarint(w).value) == w[..UVarint(w).size]
  {
    var r := UVarint(w);
    var n := ScanLength(w);
    assert r.size == n && r.value == Payloads(w, n);
    assert n - 1 < |w|;
    forall j | 0 <= j < n - 1
      ensures w[j] >= 0x80
    {
      assert Continues(w, j);
    }
    Leb128OfPayloads(w, n);
  }

  /** A byte with the continuation bit set, in front of a non-zero tail, is how Leb128 encodes. */
  lemma Leb128Step(b: Byte, p: nat)
    requires b >= 0x80 && p >= 1
    ensures Leb128(b % 128 + 128 * p) == [b] + Leb128(p)
  {
    var n := b % 128 + 128 * p;
    assert n >= 128;
    assert n / 128 == p && n % 128 == b % 128;
    assert b % 128 + 128 == b;
  }

  /** A non-zero last payload makes the whole sum non-zero. */
  lemma PayloadsPositive(w: seq<Byte>, k: nat)
    requires k >= 1 && Payload(w, k - 1) >= 1
    ensures Payloads(w, k) >= 1
  {
    PayloadsAtLeastLast(w, k);
    MulMonotone(1, Payload(w, k - 1), Pow2(7 * (k - 1)));
  }

  lemma {:induction false} Leb128OfPayloads(w: seq<Byte>, m: nat)
    requires 1 <= m <= |w|
    requires forall j :: 0 <= j < m - 1 ==> w[j] >= 0x80
    requires w[m - 1] < 0x80 && (m == 1 || w[m - 1] != 0)
    ensures Leb128(Payloads(w, m)) == w[..m]
  {
    if m == 1 {
      assert Payloads(w, 1) == w[0];
    } else {
      Leb128OfPayloads(w[1..], m - 1);
      Leb128OfPayloadsStep(w, m);
    }
  }

  /** The inductive step: a continuation byte in front of an encoding of the rest. */
  lemma Leb128OfPayloadsStep(w: seq<Byte>, m: nat)
    requires 2 <= m <= |w| && w[0] >= 0x80 && 0 < w[m - 1] < 0x80
    requires Leb128(Payloads(w[1..], m - 1)) == w[1..][..m - 1]
    ensures Leb128(Payloads(w, m)) == w[..m]
  {
    var t := w[1..];
    var p := Payloads(t, m - 1);
    assert Payload(t, m - 2) == w[m - 1];
    PayloadsPositive(t, m - 1);
    PayloadsCons(w[0], t, m - 1);
    assert [w[0]] + t == w;
    Leb128Step(w[0], p);
    assert w[..m] == [w[0]] + t[..m - 1];
  }



  // ---------------------------------------------------------------------
  // getVarInt: zig-zag decoding of the unsigned result

  /** Zig-zag encoding: 0, -1, 1, -2, 2, ... become 0, 1, 2, 3, 4, ... */
  function ZigZag(x: int): (u: nat)
    ensures u % 2 == 0 <==> x >= 0
  {
    if x >= 0 then 2 * x else -2 * x - 1
  }

  /** Zig-zag decoding: even u to u / 2, odd u to -(u + 1) / 2. */
  function ZigZagDecode(u: nat): (x: int)
    ensures x >= 0 <==> u % 2 == 0
    ensures -(u as int) - 1 <= 2 * x <= u
  {
    if u % 2 == 0 then u / 2 else -((u + 1) / 2)
  }

  lemma ZigZagRoundTrip(x: int)
    ensures ZigZagDecode(ZigZag(x)) == x
  {
  }

  lemma ZigZagDecodeRoundTrip(u: nat)
    ensures ZigZag(ZigZagDecode(u)) == u
  {
  }

  /** What getVarInt computes: the zig-zag decoding of the unsigned result,
      its size, and an annotation that never carries the overflow marker. */
  function VarintSpec(w: seq<Byte>): VarintResult
  {
    var u := UVarint(w);
    UVarintBound(w);
    VarintResult(ZigZagDecode(u.value), u.size, false)
  }

  /** getVarInt: `ux.value >> 1`, complemented (`~x`) when the low bit is set. */
  method GetVarInt(w: seq<Byte>) returns (value: int, size: nat, text: string)
    ensures value == VarintSpec(w).value && size == VarintSpec(w).size
    ensures text == Text(VarintSpec(w))
  {
    var uValue, uSize, uText := GetUVarInt(w);
    UVarintBound(w);
    var x := uValue / 2;
    if uValue % 2 == 1 {
      x := -x - 1;
    }
    var byteStr := if uSize == 1 then "byte" else "bytes";
    value, size := x, uSize;
    text := Decimal(x) + " (" + Decimal(uSize) + " " + byteStr + ")";
  }

  /** Zig-zag encoding then LEB128 encoding any signed 64-bit x, and decoding
      with getVarInt, gives back x. */
  lemma VarintRoundTrip(x: int, rest: seq<Byte>)
    requires -(Pow2(63) as int) <= x < Pow2(63)
    ensures VarintSpec(Leb128(ZigZag(x)) + rest) == VarintResult(x, |Leb128(ZigZag(x))|, false)
  {
    Pow2Add(1, 63);
    assert Pow2(1) == 2;
    Leb128RoundTrip(ZigZag(x), rest);
  }

  /** getVarInt never shows the overflow marker, even when getUVarInt flagged overflow. */
  lemma VarintNeverFlagsOverflow(w: seq<Byte>)
    ensures !FlagsOverflow(Text(VarintSpec(w)))
    ensures VarintSpec(w).size == UVarint(w).size
  {
    TextFlagsOverflow(VarintSpec(w));
  }
}
