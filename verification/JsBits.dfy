/** The JavaScript bitwise operators `|` and `<<` as the inspector uses them on
    integral numbers: both convert their operands to 32 bits and give a signed
    32-bit result, and `<<` takes its shift count modulo 32. */
module JsBits {
  import opened Bytes

  const TWO_TO_31: nat := 0x8000_0000
  const TWO_TO_32: nat := 0x1_0000_0000

  /** ToUint32 of an integral number: its residue modulo 2^32. */
  function ToUint32(n: int): (r: nat)
    ensures r < TWO_TO_32
    ensures 0 <= n < TWO_TO_32 ==> r == n
  {
    n % TWO_TO_32
  }

  /** ToInt32 of an integral number: the signed 32-bit value congruent to it modulo 2^32. */
  function ToInt32(n: int): (r: int)
    ensures -(TWO_TO_31 as int) <= r < TWO_TO_31
    ensures (n - r) % TWO_TO_32 == 0
  {
    var u := ToUint32(n);
    if u >= TWO_TO_31 then u - TWO_TO_32 else u
  }

  /** Bitwise or of two naturals of any width, binary digit by binary digit. */
  function BitOr(a: nat, b: nat): nat
    decreases a + b
  {
    if a == 0 && b == 0 then 0
    else 2 * BitOr(a / 2, b / 2) + (if a % 2 == 1 || b % 2 == 1 then 1 else 0)
  }

  /** JavaScript `a | b`. */
  function Or(a: int, b: int): int
  {
    ToInt32(BitOr(ToUint32(a), ToUint32(b)))
  }

  /** JavaScript `a << s`. */
  function Shl(a: int, s: int): int
  {
    ToInt32(ToUint32(a) * Pow2(ToUint32(s) % 32))
  }

  lemma {:induction false} BitOrZero(b: nat)
    ensures BitOr(0, b) == b
    decreases b
  {
    if b > 0 {
      BitOrZero(b / 2);
    }
  }

  lemma {:induction false} BitOrCommutes(a: nat, b: nat)
    ensures BitOr(a, b) == BitOr(b, a)
    decreases a + b
  {
    if a != 0 || b != 0 {
      BitOrCommutes(a / 2, b / 2);
    }
  }

  /** When a fits below bit k, or-ing in a value shifted up by k is addition. */
  lemma {:induction false} BitOrDisjoint(a: nat, b: nat, k: nat)
    requires a < Pow2(k)
    ensures BitOr(a, b * Pow2(k)) == a + b * Pow2(k)
  {
    if k == 0 {
      BitOrZero(b);
    } else {
      var hb := b * Pow2(k - 1);
      var big := b * Pow2(k);
      assert big == 2 * hb;
      if a != 0 || big != 0 {
        BitOrDisjoint(a / 2, b, k - 1);
        assert big / 2 == hb && big % 2 == 0;
        assert BitOr(a, big) == 2 * BitOr(a / 2, hb) + a % 2;
      }
    }
  }

  lemma OrCommutes(a: int, b: int)
    ensures Or(a, b) == Or(b, a)
  {
    BitOrCommutes(ToUint32(a), ToUint32(b));
  }

  /** A 32-bit value that stays below 2^31 is unchanged by ToInt32. */
  lemma ToInt32Small(n: int)
    requires 0 <= n < TWO_TO_31
    ensures ToInt32(n) == n
  {
  }

  /** `p << k` that stays below bit 31 is exact multiplication by 2^k. */
  lemma ShlSmall(p: nat, k: nat)
    requires k < 32 && p * Pow2(k) < TWO_TO_31
    ensures Shl(p, k) == p * Pow2(k)
  {
    var pk := Pow2(k);
    MulMonotone(1, pk, p);
    var up := ToUint32(p);
    assert up == p;
    var sh := ToUint32(k) % 32;
    assert sh == k;
    assert Shl(p, k) == ToInt32(up * Pow2(sh));
    ToInt32Small(p * pk);
  }

  /** `x | y` with x below bit k and y a multiple of 2^k, both below bit 31, is exact addition. */
  lemma OrSmall(x: nat, p: nat, k: nat)
    requires x < Pow2(k) && x + p * Pow2(k) < TWO_TO_31
    ensures Or(x, p * Pow2(k)) == x + p * Pow2(k)
  {
    var y := p * Pow2(k);
    assert ToUint32(x) == x && ToUint32(y) == y;
    BitOrDisjoint(x, p, k);
    ToInt32Small(x + y);
  }

  /** `x | p << k` on small non-negative operands is exact addition. */
  lemma OrShlSmall(x: nat, p: nat, k: nat, width: nat)
    requires k + width <= 31
    requires x < Pow2(k) && p < Pow2(width)
    ensures Or(x, Shl(p, k)) == x + p * Pow2(k)
    ensures x + p * Pow2(k) < Pow2(k + width)
  {
    MulBound(x, p, Pow2(k), Pow2(width));
    Pow2Add(k, width);
    Pow2Monotone(k + width, 31);
    Pow2Words();
    ShlSmall(p, k);
    OrSmall(x, p, k);
  }
}
