/** Fixed-point rendering of a non-negative ratio `num / den` the way Python's
    `format(x, '.Nf')` writes it: rounded to `N` places, an exact tie going to the even
    last digit, the integer part in plain decimal and the fraction padded to `N` digits. */
module Decimal {
  import opened Text

  function Pow10(k: nat): (r: nat)
    ensures r >= 1
  {
    if k == 0 then 1 else 10 * Pow10(k - 1)
  }

  /** `divmod(a, b)` for a positive divisor. */
  function DivMod(a: nat, b: nat): (qr: (nat, nat))
    requires b > 0
    ensures qr.0 * b + qr.1 == a && qr.1 < b
  {
    (a / b, a % b)
  }

  /** `num / den` rounded to the nearest integer, a tie going to the even neighbour. */
  function RoundHalfEven(num: nat, den: nat): nat
    requires den > 0
  {
    var (q, rem) := DivMod(num, den);
    if 2 * rem > den then q + 1
    else if 2 * rem < den then q
    else if q % 2 == 0 then q else q + 1
  }

  /** The rounded value is within one half of `num / den`, and on an exact tie it is
      the even neighbour. */
  lemma RoundHalfEvenNearest(num: nat, den: nat)
    requires den > 0
    ensures (2 * RoundHalfEven(num, den) - 1) * den <= 2 * num <= (2 * RoundHalfEven(num, den) + 1) * den
    ensures 2 * num == (2 * RoundHalfEven(num, den) + 1) * den ==> RoundHalfEven(num, den) % 2 == 0
    ensures 2 * num == (2 * RoundHalfEven(num, den) - 1) * den ==> RoundHalfEven(num, den) % 2 == 0
  {
    var (q, rem) := DivMod(num, den);
    var r := RoundHalfEven(num, den);
    assert (2 * r + 1) * den == 2 * (r * den) + den;
    assert (2 * r - 1) * den == 2 * (r * den) - den;
    if r == q + 1 {
      assert r * den == q * den + den;
    }
  }

  /** Zeros in front of a run of digits do not change its value. */
  lemma {:induction false} LeadingZeros(z: nat, d: string)
    requires AllDigits(d)
    ensures AllDigits(Zeros(z) + d)
    ensures DecimalValue(Zeros(z) + d) == DecimalValue(d)
    decreases |d|
  {
    var s := Zeros(z) + d;
    if d == [] {
      assert s == Zeros(z);
      ZerosValue(z);
    } else {
      LeadingZeros(z, d[..|d| - 1]);
      assert s[..|s| - 1] == Zeros(z) + d[..|d| - 1];
    }
  }

  /** A run of zeros is worth zero. */
  lemma {:induction false} ZerosValue(z: nat)
    ensures DecimalValue(Zeros(z)) == 0
  {
    if z > 0 {
      ZerosValue(z - 1);
      assert Zeros(z)[..z - 1] == Zeros(z - 1);
    }
  }

  function Zeros(k: nat): (r: string)
    ensures |r| == k && AllDigits(r)
    ensures forall i :: 0 <= i < k ==> r[i] == '0'
  {
    seq(k, _ => '0')
  }

  /** A number below `10^k` takes at most `k` digits. */
  lemma {:induction false} NatToStringLength(n: nat, k: nat)
    requires k >= 1 && n < Pow10(k)
    ensures |NatToString(n)| <= k
  {
    if n >= 10 {
      NatToStringLength(n / 10, k - 1);
    }
  }

  /** `n` in decimal, zeros in front up to `k` digits. */
  function PadDigits(n: nat, k: nat): (r: string)
    ensures AllDigits(r) && |r| >= k
  {
    var d := NatToString(n);
    if |d| >= k then d else Zeros(k - |d|) + d
  }

  /** A number below `10^k` padded to `k` digits takes exactly `k` and reads back. */
  lemma PadDigitsReadsBack(n: nat, k: nat)
    requires k >= 1 && n < Pow10(k)
    ensures |PadDigits(n, k)| == k
    ensures DecimalValue(PadDigits(n, k)) == n
  {
    var d := NatToString(n);
    NatToStringLength(n, k);
    DecimalValueOfNatToString(n);
    LeadingZeros(k - |d|, d);
    if |d| == k {
      assert Zeros(0) + d == d;
    }
  }

  /** `format(num / den, f'.{places}f')`. */
  function FixedText(num: nat, den: nat, places: nat): string
    requires den > 0
  {
    Units(RoundHalfEven(num * Pow10(places), den), places)
  }

  /** A count of `10^-places` units written as a decimal with `places` fraction digits. */
  function Units(r: nat, places: nat): string {
    var (whole, frac) := DivMod(r, Pow10(places));
    NatToString(whole) + "." + PadDigits(frac, places)
  }

  /** The text is an integer part, a point and exactly `places` digits, and read back as
      a count of `10^-places` units it is `r` again. */
  lemma UnitsReadBack(r: nat, places: nat)
    requires places >= 1
    ensures var t := Units(r, places);
      |t| > places + 1 && t[|t| - places - 1] == '.' &&
      AllDigits(t[..|t| - places - 1]) && AllDigits(t[|t| - places..]) &&
      DecimalValue(t[..|t| - places - 1]) * Pow10(places) + DecimalValue(t[|t| - places..]) == r
  {
    var (whole, frac) := DivMod(r, Pow10(places));
    var ip := NatToString(whole);
    var fp := PadDigits(frac, places);
    PadDigitsReadsBack(frac, places);
    DecimalValueOfNatToString(whole);
    var t := ip + "." + fp;
    assert t[..|t| - places - 1] == ip;
    assert t[|t| - places..] == fp;
  }

  /** The fixed-point text holds only digits and its point. */
  lemma FixedTextChars(num: nat, den: nat, places: nat)
    requires den > 0
    ensures forall i :: 0 <= i < |FixedText(num, den, places)| ==>
      IsDigit(FixedText(num, den, places)[i]) || FixedText(num, den, places)[i] == '.'
  {
    var (whole, frac) := DivMod(RoundHalfEven(num * Pow10(places), den), Pow10(places));
    var ip := NatToString(whole);
    var fp := PadDigits(frac, places);
    var t := ip + "." + fp;
    forall i | 0 <= i < |t| ensures IsDigit(t[i]) || t[i] == '.' {
      if i < |ip| {
        assert t[i] == ip[i];
      } else if i > |ip| {
        assert t[i] == fp[i - |ip| - 1];
      }
    }
  }
}
