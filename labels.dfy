/**
 * Binary basis labels.
 *
 * The simulation names basis index i by the string f"{i:04b}": the binary
 * digits of i, most significant first, padded on the left with '0' to at
 * least four characters. Qubit k is read back from that label as the
 * character at position 3 - k, so qubit 0 is the least significant bit.
 * This module models the format, the bit it exposes and its inverse.
 */
module BinaryLabels {

  /** 2 to the power k. */
  function Pow2(k: nat): (r: nat)
    ensures r >= 1
  {
    if k == 0 then 1 else 2 * Pow2(k - 1)
  }

  /** Bit k of i, bit 0 being the least significant. */
  predicate Bit(i: nat, k: nat)
  {
    if k == 0 then i % 2 == 1 else Bit(i / 2, k - 1)
  }

  /** The character Python prints for a binary digit. */
  function DigitChar(odd: bool): char
  {
    if odd then '1' else '0'
  }

  /** A string of binary digits only. */
  predicate IsBinary(s: string)
  {
    forall p :: 0 <= p < |s| ==> s[p] == '0' || s[p] == '1'
  }

  /** The digits of bin(i) without the "0b" prefix: no leading zero, "0" for zero. */
  function Digits(i: nat): (s: string)
    ensures |s| >= 1
  {
    if i < 2 then [DigitChar(i == 1)] else Digits(i / 2) + [DigitChar(i % 2 == 1)]
  }

  function Zeros(n: nat): string
  {
    seq(n, _ => '0')
  }

  /** Python's f"{i:0<width>b}": the binary digits of i, left-padded with '0' to at least width characters. */
  function Format(i: nat, width: nat): (s: string)
    ensures |s| >= 1 && |s| >= width
  {
    var d := Digits(i);
    if |d| >= width then d else Zeros(width - |d|) + d
  }

  /** int(s, 2) for a string of binary digits, most significant first. */
  function Decode(s: string): nat
  {
    if s == [] then 0 else 2 * Decode(s[..|s| - 1]) + (if s[|s| - 1] == '1' then 1 else 0)
  }

  // ---------------------------------------------------------------------
  // Arithmetic helpers
  // ---------------------------------------------------------------------

  lemma DivUnique(n: int, d: int, q: int, r: int)
    requires d > 0 && 0 <= r < d && n == d * q + r
    ensures n / d == q
  {
    var q', r' := n / d, n % d;
    assert n == d * q' + r';
    if q > q' {
      MulAtLeast(d, q - q');
    } else if q < q' {
      MulAtLeast(d, q' - q);
    }
  }

  lemma MulAtLeast(d: int, x: int)
    requires d > 0 && x >= 1
    ensures d * x >= d
  {
    assert d * x == d + d * (x - 1);
  }

  lemma DivHalfThen(i: nat, m: nat)
    requires m > 0
    ensures i / (2 * m) == (i / 2) / m
  {
    var q, r := i / 2, i % 2;
    var s, t := q / m, q % m;
    assert q == m * s + t;
    assert i == 2 * q + r;
    assert i == (2 * m) * s + (2 * t + r);
    DivUnique(i, 2 * m, s, 2 * t + r);
  }

  /** The recursive bit test agrees with the arithmetic one, (i / 2^k) % 2 == 1. */
  lemma {:induction false} BitIsDivMod(i: nat, k: nat)
    ensures Bit(i, k) <==> (i / Pow2(k)) % 2 == 1
  {
    if k > 0 {
      BitIsDivMod(i / 2, k - 1);
      DivHalfThen(i, Pow2(k - 1));
    }
  }

  /** No bit at or above position k is set in a number below 2^k. */
  lemma {:induction false} BitAboveWidth(i: nat, k: nat)
    requires i < Pow2(k)
    ensures !Bit(i, k)
  {
    if k > 0 {
      BitAboveWidth(i / 2, k - 1);
    }
  }

  lemma {:induction false} Pow2Monotone(j: nat, k: nat)
    requires j <= k
    ensures Pow2(j) <= Pow2(k)
  {
    if j < k {
      Pow2Monotone(j, k - 1);
    }
  }

  // ---------------------------------------------------------------------
  // Digits
  // ---------------------------------------------------------------------

  lemma {:induction false} DigitsBinary(i: nat)
    ensures IsBinary(Digits(i))
  {
    if i >= 2 {
      DigitsBinary(i / 2);
    }
  }

  /** Digits(i) has exactly enough digits to hold i. */
  lemma {:induction false} DigitsBound(i: nat)
    ensures i < Pow2(|Digits(i)|)
  {
    if i >= 2 {
      DigitsBound(i / 2);
    }
  }

  /** A number below 2^w (w >= 1) prints in at most w digits. */
  lemma {:induction false} DigitsFit(i: nat, w: nat)
    requires 1 <= w && i < Pow2(w)
    ensures |Digits(i)| <= w
  {
    if i >= 2 {
      assert w >= 2;
      DigitsFit(i / 2, w - 1);
    }
  }

  /** Reading Digits(i) from the right, position k shows bit k of i. */
  lemma {:induction false} DigitsBit(i: nat, k: nat)
    requires k < |Digits(i)|
    ensures Digits(i)[|Digits(i)| - 1 - k] == '1' <==> Bit(i, k)
  {
    if i >= 2 && k > 0 {
      DigitsBit(i / 2, k - 1);
    }
  }

  lemma {:induction false} DecodeDigits(i: nat)
    ensures Decode(Digits(i)) == i
  {
    if i >= 2 {
      var d := Digits(i);
      assert d[..|d| - 1] == Digits(i / 2);
      DecodeDigits(i / 2);
    }
  }

  /** Leading zeros do not change the decoded value. */
  lemma {:induction false} DecodeLeadingZeros(n: nat, s: string)
    ensures Decode(Zeros(n) + s) == Decode(s)
    decreases |s|
  {
    if s == [] {
      assert Zeros(n) + s == Zeros(n);
      DecodeZeros(n);
    } else {
      var t := Zeros(n) + s;
      assert t[..|t| - 1] == Zeros(n) + s[..|s| - 1];
      DecodeLeadingZeros(n, s[..|s| - 1]);
    }
  }

  lemma {:induction false} DecodeZeros(n: nat)
    ensures Decode(Zeros(n)) == 0
  {
    if n > 0 {
      assert Zeros(n)[..n - 1] == Zeros(n - 1);
      DecodeZeros(n - 1);
    }
  }

  // ---------------------------------------------------------------------
  // Format: the properties the simulation relies on
  // ---------------------------------------------------------------------

  /** Every label is made of '0' and '1' only. */
  lemma FormatBinary(i: nat, width: nat)
    ensures IsBinary(Format(i, width))
  {
    DigitsBinary(i);
  }

  /** A number below 2^width (width >= 1) gets a label of exactly width characters. */
  lemma FormatFixedWidth(i: nat, width: nat)
    requires 1 <= width && i < Pow2(width)
    ensures |Format(i, width)| == width
  {
    DigitsFit(i, width);
  }

  /** The character k places from the right of the label is '1' exactly when bit k of i is set. */
  lemma FormatBit(i: nat, width: nat, k: nat)
    requires k < |Format(i, width)|
    ensures Format(i, width)[|Format(i, width)| - 1 - k] == '1' <==> Bit(i, k)
  {
    var d := Digits(i);
    var s := Format(i, width);
    if k < |d| {
      DigitsBit(i, k);
      assert s[|s| - 1 - k] == d[|d| - 1 - k];
    } else {
      DigitsBound(i);
      Pow2Monotone(|d|, k);
      BitAboveWidth(i, k);
      assert s[|s| - 1 - k] == '0';
    }
  }

  /** Decoding a label gives back the index it was printed from. */
  lemma FormatRoundTrip(i: nat, width: nat)
    ensures Decode(Format(i, width)) == i
  {
    DecodeDigits(i);
    var d := Digits(i);
    if |d| < width {
      DecodeLeadingZeros(width - |d|, d);
    }
  }

  /** A binary string decodes to a number that fits its length. */
  lemma {:induction false} DecodeBound(s: string)
    ensures Decode(s) < Pow2(|s|)
  {
    if s != [] {
      DecodeBound(s[..|s| - 1]);
    }
  }

  /** Reading s from the right, position k is '1' exactly when bit k of Decode(s) is set. */
  lemma {:induction false} DecodeBit(s: string, k: nat)
    requires k < |s|
    ensures s[|s| - 1 - k] == '1' <==> Bit(Decode(s), k)
  {
    var n := Decode(s);
    var init := s[..|s| - 1];
    assert n / 2 == Decode(init);
    if k > 0 {
      DecodeBit(init, k - 1);
      assert s[|s| - 1 - k] == init[|init| - 1 - (k - 1)];
    }
  }

  /** Two binary strings of one length with '1' in the same places are equal. */
  lemma BinaryStringsEqual(a: string, b: string)
    requires |a| == |b| && IsBinary(a) && IsBinary(b)
    requires forall p :: 0 <= p < |a| ==> (a[p] == '1' <==> b[p] == '1')
    ensures a == b
  {
    forall p | 0 <= p < |a|
      ensures a[p] == b[p]
    {
      assert a[p] == '0' || a[p] == '1';
    }
  }

  /** The other round trip: printing a decoded binary string at its own width gives the string back. */
  lemma FormatOfDecode(s: string)
    requires 1 <= |s| && IsBinary(s)
    ensures Format(Decode(s), |s|) == s
  {
    var n := Decode(s);
    DecodeBound(s);
    FormatFixedWidth(n, |s|);
    FormatBinary(n, |s|);
    var f := Format(n, |s|);
    forall p | 0 <= p < |s|
      ensures f[p] == '1' <==> s[p] == '1'
    {
      FormatOfDecodeAt(s, n, p);
    }
    BinaryStringsEqual(f, s);
  }

  /** Position p of the reprinted string is '1' exactly where s has a '1'. */
  lemma FormatOfDecodeAt(s: string, n: nat, p: nat)
    requires n == Decode(s) && p < |s| == |Format(n, |s|)|
    ensures Format(n, |s|)[p] == '1' <==> s[p] == '1'
  {
    var k := |s| - 1 - p;
    FormatBit(n, |s|, k);
    DecodeBit(s, k);
  }

  /** A non-zero number below 2^w has a set bit below w. */
  lemma {:induction false} NonzeroHasBit(i: nat, w: nat) returns (k: nat)
    requires 0 < i < Pow2(w)
    ensures k < w && Bit(i, k)
  {
    if i % 2 == 1 {
      k := 0;
    } else {
      var k' := NonzeroHasBit(i / 2, w - 1);
      k := k' + 1;
    }
  }
}
