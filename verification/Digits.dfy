/** Natural numbers and their decimal digits: what `BigInt(text)` and `toString` compute. */
module Digits {
  import opened JsText

  function Pow10(n: nat): (p: nat)
    ensures p >= 1
  {
    if n == 0 then 1 else 10 * Pow10(n - 1)
  }

  function DigitValue(c: char): (d: nat)
    ensures d < 10
  {
    if IsDigit(c) then c as int - '0' as int else 0
  }

  function DigitChar(d: nat): (c: char)
    requires d < 10
    ensures IsDigit(c) && DigitValue(c) == d
  {
    ('0' as int + d) as char
  }

  // The number a string of digits denotes.
  function TextNat(s: string): nat {
    if s == "" then 0 else 10 * TextNat(s[..|s| - 1]) + DigitValue(s[|s| - 1])
  }

  // The decimal rendering of a number.
  function NatText(n: nat): string {
    if n < 10 then [DigitChar(n)] else NatText(n / 10) + [DigitChar(n % 10)]
  }

  function IntText(n: int): string {
    if n < 0 then "-" + NatText(-n) else NatText(n)
  }

  lemma PowersOfTen()
    ensures Pow10(0) == 1 && Pow10(1) == 10 && Pow10(3) == 1000
    ensures Pow10(6) == 1_000_000 && Pow10(9) == 1_000_000_000 && Pow10(12) == 1_000_000_000_000
  {
    assert Pow10(6) == 1000 * Pow10(3);
    assert Pow10(9) == 1000 * Pow10(6);
    assert Pow10(12) == 1000 * Pow10(9);
  }

  lemma {:induction false} Pow10Sum(a: nat, b: nat)
    ensures Pow10(a + b) == Pow10(a) * Pow10(b)
  {
    if a > 0 {
      Pow10Sum(a - 1, b);
    }
  }

  lemma Distribute(t: int, p: int, u: int, d: int)
    ensures 10 * (t * p + u) + d == t * (10 * p) + (10 * u + d)
  {
  }

  lemma {:induction false} TextNatConcat(a: string, b: string)
    ensures TextNat(a + b) == TextNat(a) * Pow10(|b|) + TextNat(b)
  {
    if b == "" {
      assert a + b == a;
    } else {
      var c := b[..|b| - 1];
      TextNatConcat(a, c);
      assert (a + b)[..|a + b| - 1] == a + c;
      Distribute(TextNat(a), Pow10(|c|), TextNat(c), DigitValue(b[|b| - 1]));
    }
  }

  lemma {:induction false} TextNatBound(s: string)
    ensures TextNat(s) < Pow10(|s|)
  {
    if s != "" {
      TextNatBound(s[..|s| - 1]);
    }
  }

  lemma {:induction false} TextNatZeros(n: nat)
    ensures TextNat(Zeros(n)) == 0
  {
    if n > 0 {
      TextNatZeros(n - 1);
      assert Zeros(n)[..n - 1] == Zeros(n - 1);
    }
  }

  lemma TextNatZerosBefore(n: nat, s: string)
    ensures TextNat(Zeros(n) + s) == TextNat(s)
  {
    TextNatConcat(Zeros(n), s);
    TextNatZeros(n);
  }

  lemma TextNatZerosAfter(s: string, n: nat)
    ensures TextNat(s + Zeros(n)) == TextNat(s) * Pow10(n)
  {
    TextNatConcat(s, Zeros(n));
    TextNatZeros(n);
  }

  lemma {:induction false} TextNatStripLeading(s: string)
    ensures TextNat(StripLeadingZeros(s)) == TextNat(s)
  {
    if |s| > 1 && s[0] == '0' {
      TextNatStripLeading(s[1..]);
      TextNatZerosBefore(1, s[1..]);
      assert s == Zeros(1) + s[1..];
    }
  }

  lemma {:induction false} NatTextShape(n: nat)
    ensures AllDigits(NatText(n)) && NatText(n) != ""
    ensures TextNat(NatText(n)) == n
    ensures n > 0 ==> NatText(n)[0] != '0'
    ensures n == 0 ==> NatText(n) == "0"
  {
    if n >= 10 {
      NatTextShape(n / 10);
      assert NatText(n)[..|NatText(n)| - 1] == NatText(n / 10);
    }
  }

  // Digits of equal width denote different numbers.
  lemma {:induction false} DigitsInjective(a: string, b: string)
    requires AllDigits(a) && AllDigits(b) && |a| == |b| && TextNat(a) == TextNat(b)
    ensures a == b
  {
    if a != "" {
      var n := |a| - 1;
      assert TextNat(a[..n]) == TextNat(b[..n]) && DigitValue(a[n]) == DigitValue(b[n]);
      DigitsInjective(a[..n], b[..n]);
      assert a == a[..n] + [a[n]] && b == b[..n] + [b[n]];
    }
  }

  lemma {:induction false} TextNatLower(s: string)
    requires AllDigits(s) && s != "" && s[0] != '0'
    ensures TextNat(s) >= Pow10(|s| - 1)
  {
    if |s| > 1 {
      TextNatLower(s[..|s| - 1]);
    }
  }

  lemma {:induction false} Pow10Monotone(a: nat, b: nat)
    requires a <= b
    ensures Pow10(a) <= Pow10(b)
  {
    if a < b {
      Pow10Monotone(a, b - 1);
    }
  }

  // More digits without leading zeros denote a larger number.
  lemma WiderIsLarger(a: string, b: string)
    requires AllDigits(b) && b != "" && b[0] != '0' && |a| < |b|
    ensures TextNat(a) < TextNat(b)
  {
    TextNatBound(a);
    TextNatLower(b);
    Pow10Monotone(|a|, |b| - 1);
  }

  // Without a redundant leading zero, the digits of a number are its rendering.
  lemma NatTextCanonical(s: string)
    requires AllDigits(s) && s != "" && (|s| == 1 || s[0] != '0')
    ensures NatText(TextNat(s)) == s
  {
    var t := NatText(TextNat(s));
    NatTextShape(TextNat(s));
    if s[0] == '0' {
      assert s == "0";
    } else {
      TextNatLower(s);
      if |t| < |s| {
        WiderIsLarger(t, s);
      } else if |s| < |t| {
        WiderIsLarger(s, t);
      } else {
        DigitsInjective(s, t);
      }
    }
  }

  lemma NatTextOfStripped(s: string)
    requires AllDigits(s) && s != ""
    ensures NatText(TextNat(s)) == StripLeadingZeros(s)
  {
    StripLeadingShape(s);
    TextNatStripLeading(s);
    NatTextCanonical(StripLeadingZeros(s));
  }

  lemma {:induction false} NatTextWidth(n: nat, d: nat)
    requires n < Pow10(d) && d > 0
    ensures |NatText(n)| <= d
  {
    if n >= 10 {
      assert d > 1;
      NatTextWidth(n / 10, d - 1);
    }
  }

  // `toString().padStart(d, "0")` of a number below 10^d has exactly d digits.
  lemma PaddedDigits(n: nat, d: nat)
    requires n < Pow10(d) && d > 0
    ensures |PadStart(NatText(n), d)| == d && AllDigits(PadStart(NatText(n), d))
    ensures TextNat(PadStart(NatText(n), d)) == n
  {
    NatTextShape(n);
    NatTextWidth(n, d);
    TextNatZerosBefore(d - |NatText(n)|, NatText(n));
  }

  // The exact statement of what cutting and zero-filling digits does.
  lemma CutDigits(s: string, m: nat)
    requires m <= |s|
    ensures TextNat(s[..m]) == TextNat(s) / Pow10(|s| - m)
    ensures TextNat(s[..m] + Zeros(|s| - m)) == TextNat(s) - TextNat(s) % Pow10(|s| - m)
  {
    var p := Pow10(|s| - m);
    assert s == s[..m] + s[m..];
    TextNatConcat(s[..m], s[m..]);
    TextNatBound(s[m..]);
    TextNatZerosAfter(s[..m], |s| - m);
    DivModUnique(TextNat(s), p, TextNat(s[..m]), TextNat(s[m..]));
  }

  lemma DivModUnique(n: nat, p: nat, q: nat, r: nat)
    requires p > 0 && r < p && n == q * p + r
    ensures n / p == q && n % p == r
  {
    var k, s := n / p, n % p;
    DivModSplit(n, p);
    if q < k {
      SmallerQuotient(p, q, r, k, s);
    } else if k < q {
      SmallerQuotient(p, k, s, q, r);
    }
  }

  lemma DivModSplit(n: nat, p: nat)
    requires p > 0
    ensures n == (n / p) * p + n % p && n % p < p && n / p >= 0
  {
  }

  function Quotient(n: nat, p: nat): nat
    requires p > 0
  {
    DivModSplit(n, p);
    n / p
  }

  lemma SmallerQuotient(p: nat, q: nat, r: nat, k: nat, s: nat)
    requires q < k && r < p
    ensures q * p + r < k * p + s
  {
    var j := k - q - 1;
    assert k * p == q * p + p + j * p;
  }
}
