/**
 * Bit-level vocabulary for 32-bit fingerprints (the Java `int` hashes that
 * HLLCounter splits).
 *
 * A fingerprint is modelled by its unsigned reading, a number below 2^32,
 * and the Java bit operations the counter uses are written out on that
 * reading: `h >>> s` is `h / 2^s`, `h << s` is `h * 2^s` with the bits above
 * bit 31 dropped, and `Integer.numberOfLeadingZeros` is 32 minus the bit
 * length.
 */
module Bits {

  /** The unsigned reading of a Java `int`. */
  type Fingerprint = x: int | 0 <= x < 0x1_0000_0000

  /** 2 to the power k. */
  function Pow2(k: nat): (p: nat)
    ensures p >= 1
  {
    if k == 0 then 1 else 2 * Pow2(k - 1)
  }

  lemma {:induction false} Pow2Add(a: nat, c: nat)
    ensures Pow2(a + c) == Pow2(a) * Pow2(c)
  {
    if c > 0 {
      Pow2Add(a, c - 1);
      assert Pow2(a + c) == 2 * Pow2(a + c - 1);
    }
  }

  lemma {:induction false} Pow2Monotone(a: nat, c: nat)
    requires a <= c
    ensures Pow2(a) <= Pow2(c)
  {
    if a < c {
      Pow2Monotone(a, c - 1);
    }
  }

  lemma Pow2Of32()
    ensures Pow2(32) == 0x1_0000_0000
  {
    assert Pow2(2) == 4;
    Pow2Add(2, 2);
    Pow2Add(4, 4);
    Pow2Add(8, 8);
    Pow2Add(16, 16);
  }

  lemma MulAtLeast(p: nat, c: nat)
    requires c >= 1
    ensures p * c >= p
  {
    assert p * c == p * (c - 1) + p;
  }

  /** Quotient and remainder by p put h back together. */
  lemma DivMod(h: nat, p: nat)
    requires p >= 1
    ensures h == (h / p) * p + h % p
  {
  }

  /** Division is unique: the quotient of q * p + r by p is q when r < p. */
  lemma DivOfSum(r: nat, p: nat, q: nat)
    requires r < p
    ensures (q * p + r) / p == q
    ensures (q * p + r) % p == r
  {
    var n := q * p + r;
    var k, m := n / p, n % p;
    assert k * p + m == q * p + r;
    assert (k - q) * p == r - m;
    assert (q - k) * p == m - r;
    if k > q {
      MulAtLeast(p, k - q);
    } else if k < q {
      MulAtLeast(p, q - k);
    }
  }

  /** a below p * q gives a quotient by p below q. */
  lemma DivBelow(a: nat, p: nat, q: nat)
    requires p >= 1 && a < p * q
    ensures 0 <= a / p < q
  {
    var k := a / p;
    assert k * p <= a;
    assert k * p == (k - q) * p + q * p;
    if k >= q {
      MulAtLeast(p, k - q + 1);
    }
  }

  /** `h >>> s`: unsigned shift right. */
  function ShiftRight(h: Fingerprint, s: nat): (r: Fingerprint)
    requires s <= 32
    ensures r < Pow2(32 - s)
  {
    ShiftRightBound(h, s);
    Pow2Of32();
    Pow2Monotone(32 - s, 32);
    h / Pow2(s)
  }

  /** Every fingerprint is below 2^s * 2^(32 - s). */
  lemma FingerprintBelow(h: Fingerprint, s: nat)
    requires s <= 32
    ensures h < Pow2(s) * Pow2(32 - s)
  {
    Pow2Of32();
    Pow2Add(s, 32 - s);
  }

  lemma ShiftRightBound(h: Fingerprint, s: nat)
    requires s <= 32
    ensures 0 <= h / Pow2(s) < Pow2(32 - s)
  {
    FingerprintBelow(h, s);
    DivBelow(h, Pow2(s), Pow2(32 - s));
  }

  /** `h << s`: shift left, dropping the bits pushed past bit 31. */
  function ShiftLeft(h: Fingerprint, s: nat): Fingerprint
  {
    (h * Pow2(s)) % 0x1_0000_0000
  }

  /**
   * Shifting left by s keeps exactly the 32 - s low bits of h, moved to the
   * top: `h << s` is `(h mod 2^(32-s)) * 2^s`.
   */
  lemma ShiftLeftKeepsLowBits(h: Fingerprint, s: nat)
    requires s <= 32
    ensures ShiftLeft(h, s) == (h % Pow2(32 - s)) * Pow2(s)
  {
    Pow2Of32();
    Pow2Add(32 - s, s);
    MulMod(h, Pow2(32 - s), Pow2(s));
  }

  /** Scaling by c commutes with taking the remainder: (h c) mod (p c) is (h mod p) c. */
  lemma MulMod(h: nat, p: nat, c: nat)
    requires p >= 1 && c >= 1
    ensures (h * c) % (p * c) == (h % p) * c
  {
    var q, r := h / p, h % p;
    assert h == q * p + r;
    assert h * c == q * (p * c) + r * c;
    assert r * c < p * c by {
      assert r <= p - 1;
      assert r * c <= (p - 1) * c;
    }
    DivOfSum(r * c, p * c, q);
  }

  /** The number of binary digits of x (0 for 0). */
  function BitLength(x: nat): (n: nat)
    ensures x < Pow2(n)
    ensures x > 0 ==> n >= 1 && Pow2(n - 1) <= x
  {
    if x == 0 then 0 else 1 + BitLength(x / 2)
  }

  lemma {:induction false} BitLengthBelow(x: nat, k: nat)
    requires x < Pow2(k)
    ensures BitLength(x) <= k
  {
    if x > 0 {
      assert k >= 1;
      BitLengthBelow(x / 2, k - 1);
    }
  }

  /**
   * `Integer.numberOfLeadingZeros`: 32 for zero, otherwise the number of zero
   * bits above the highest set bit, which sits at position 31 - n.
   */
  function NumberOfLeadingZeros(x: Fingerprint): (n: nat)
    ensures n <= 32
    ensures n == 32 <==> x == 0
    ensures n < 32 ==> Pow2(31 - n) <= x < Pow2(32 - n)
  {
    Pow2Of32();
    BitLengthBelow(x, 32);
    32 - BitLength(x)
  }

  /** Reads binary digits, most significant first ('1' is one, anything else zero). */
  function ParseBinary(s: string): nat
  {
    if s == [] then 0
    else 2 * ParseBinary(s[..|s| - 1]) + (if s[|s| - 1] == '1' then 1 else 0)
  }

  /** Every character of s is a binary digit. */
  predicate IsBinary(s: string)
  {
    forall i :: 0 <= i < |s| ==> s[i] == '0' || s[i] == '1'
  }

  /**
   * The binary digits of x, most significant first, without leading zeros
   * (none at all for 0).
   */
  function Digits(x: nat): (s: string)
    ensures |s| == BitLength(x)
    ensures IsBinary(s)
    ensures x > 0 ==> s[0] == '1'
    ensures ParseBinary(s) == x
  {
    if x == 0 then []
    else
      var s := Digits(x / 2) + [if x % 2 == 1 then '1' else '0'];
      assert s[..|s| - 1] == Digits(x / 2);
      s
  }

  /**
   * `Integer.toBinaryString`: the digits of the unsigned reading with no
   * leading zeros, and "0" for zero.
   */
  function ToBinaryString(x: Fingerprint): (s: string)
    ensures 1 <= |s| <= 32
    ensures IsBinary(s)
    ensures s[0] == '1' || s == "0"
    ensures ParseBinary(s) == x
  {
    Pow2Of32();
    BitLengthBelow(x, 32);
    if x == 0 then "0" else Digits(x)
  }

  /** `String.format("%32s", t)`: t right-aligned in a field of 32 characters. */
  function PadLeft32(t: string): string
  {
    if |t| < 32 then seq(32 - |t|, _ => ' ') + t else t
  }

  /** `s.replace(c, d)` for characters: every c becomes d. */
  function Replace(s: string, c: char, d: char): string
  {
    seq(|s|, i requires 0 <= i < |s| => if s[i] == c then d else s[i])
  }

  /**
   * `HLLCounter.intToBinaryRepresentation`: `toBinaryString`, padded to 32
   * characters with spaces, then the spaces replaced by '0'. The result is
   * 32 binary digits that read back as x.
   */
  function BinaryRepresentation(x: Fingerprint): (s: string)
    ensures |s| == 32
    ensures IsBinary(s)
    ensures ParseBinary(s) == x
  {
    var t := ToBinaryString(x);
    ZeroPadded(t);
    ParseLeadingZeros(seq(32 - |t|, _ => '0'), t);
    Replace(PadLeft32(t), ' ', '0')
  }

  /** Padding a numeral with spaces and replacing them by '0' puts zeros in front of it. */
  lemma ZeroPadded(t: string)
    requires |t| <= 32 && IsBinary(t)
    ensures Replace(PadLeft32(t), ' ', '0') == seq(32 - |t|, _ => '0') + t
  {
    var p := PadLeft32(t);
    var z := seq(32 - |t|, _ => '0');
    assert |p| == 32;
    forall i | 0 <= i < 32
      ensures Replace(p, ' ', '0')[i] == (z + t)[i]
    {
      if i < 32 - |t| {
        assert p[i] == ' ';
      } else {
        assert p[i] == t[i - (32 - |t|)];
      }
    }
  }

  /** Zeros in front of a numeral do not change its value. */
  lemma {:induction false} ParseLeadingZeros(z: string, t: string)
    requires forall i :: 0 <= i < |z| ==> z[i] == '0'
    ensures ParseBinary(z + t) == ParseBinary(t)
    decreases |z| + |t|
  {
    if t == [] {
      assert z + t == z;
      if z != [] {
        ParseLeadingZeros(z[..|z| - 1], []);
        assert z[..|z| - 1] + [] == z[..|z| - 1];
      }
    } else {
      var u := t[..|t| - 1];
      assert (z + t)[..|z + t| - 1] == z + u;
      ParseLeadingZeros(z, u);
    }
  }

  /** Two numerals of the same length with the same value are the same string. */
  lemma {:induction false} ParseBinaryInjective(s: string, t: string)
    requires |s| == |t| && IsBinary(s) && IsBinary(t)
    requires ParseBinary(s) == ParseBinary(t)
    ensures s == t
  {
    if s != [] {
      var s', t' := s[..|s| - 1], t[..|t| - 1];
      assert IsBinary(s') && IsBinary(t');
      ParseBinaryInjective(s', t');
      assert s == s' + [s[|s| - 1]] && t == t' + [t[|t| - 1]];
    }
  }

  /**
   * The binary representation is the only 32-character binary numeral
   * whose value is x.
   */
  lemma BinaryRepresentationUnique(x: Fingerprint, s: string)
    requires |s| == 32 && IsBinary(s) && ParseBinary(s) == x
    ensures s == BinaryRepresentation(x)
  {
    ParseBinaryInjective(s, BinaryRepresentation(x));
  }
}
