/** JavaScript values as the console's normalisers see them: through their coercions. */
module JsValues {
  import opened JsText
  import opened Digits

  // A Number. Arithmetic is exact: rounding to 64 bits is not part of this model.
  datatype JsNum = NaN | PosInf | NegInf | Fin(r: real) {
    // A whole number in this range.
    predicate WholeWithin(lo: int, hi: int) {
      Fin? && r == r.Floor as real && lo <= r.Floor <= hi
    }

    predicate Positive() {
      PosInf? || (Fin? && r > 0.0)
    }

    // `n || fallback`
    function Or(fallback: JsNum): JsNum {
      if NaN? || this == Fin(0.0) then fallback else this
    }
  }

  function Negate(n: JsNum): JsNum {
    match n
    case NaN => NaN
    case PosInf => NegInf
    case NegInf => PosInf
    case Fin(r) => Fin(-r)
  }

  // Math.round
  function Round(r: real): int {
    (r + 0.5).Floor
  }

  // Math.max(lo, Math.min(hi, Math.round(n))), for any n but NaN.
  function RoundInto(n: JsNum, lo: int, hi: int): (k: int)
    requires lo <= hi
    ensures lo <= k <= hi
    ensures n.Fin? && n.r == n.r.Floor as real && lo <= n.r.Floor <= hi ==> k == n.r.Floor
  {
    match n
    case PosInf => hi
    case Fin(r) => if Round(r) < lo then lo else if Round(r) > hi then hi else Round(r)
    case _ => lo
  }

  // The value of the digits w "." f.
  function DecimalValue(w: string, f: string): real {
    TextNat(w + f) as real / Pow10(|f|) as real
  }

  function RadixDigit(c: char): nat {
    if '0' <= c <= '9' then c as int - '0' as int
    else if 'a' <= c <= 'f' then c as int - 'a' as int + 10
    else if 'A' <= c <= 'F' then c as int - 'A' as int + 10
    else 16
  }

  function RadixNumber(s: string, radix: nat): JsNum {
    if s == "" then Fin(0.0)
    else
      var high := RadixNumber(s[..|s| - 1], radix);
      var low := RadixDigit(s[|s| - 1]);
      if high.Fin? && low < radix then Fin(high.r * radix as real + low as real) else NaN
  }

  function ScaleBy10(r: real, exponent: string): JsNum {
    var negative := exponent != "" && exponent[0] == '-';
    var digits := if exponent != "" && exponent[0] in "+-" then exponent[1..] else exponent;
    if digits == "" || !AllDigits(digits) then NaN
    else
      var p := Pow10(TextNat(digits)) as real;
      Fin(if negative then r / p else r * p)
  }

  function UnsignedNumber(t: string): JsNum {
    if t == "Infinity" then PosInf
    else
      var e := if IndexOf(t, 'e') < |t| then 'e' else 'E';
      var mantissa := Before(t, e);
      var w, f := Before(mantissa, '.'), After(mantissa, '.');
      if w + f == "" || !AllDigits(w) || !AllDigits(f) then NaN
      else if e in t then ScaleBy10(DecimalValue(w, f), After(t, e))
      else Fin(DecimalValue(w, f))
  }

  // Number(text): section 7.1.4.1 of ECMA-262.
  function ToNumber(s: string): JsNum {
    var t := Trim(s);
    if t == "" then Fin(0.0)
    else if |t| > 2 && t[0] == '0' && t[1] in "xX" then RadixNumber(t[2..], 16)
    else if |t| > 2 && t[0] == '0' && t[1] in "oO" then RadixNumber(t[2..], 8)
    else if |t| > 2 && t[0] == '0' && t[1] in "bB" then RadixNumber(t[2..], 2)
    else if t[0] == '-' then Negate(UnsignedNumber(t[1..]))
    else if t[0] == '+' then UnsignedNumber(t[1..])
    else UnsignedNumber(t)
  }

  // A value read from storage, a form or a patch: nothing is assumed about it except that it
  // coerces to a boolean, tests against null, and yields String(v ?? "") and Number(v).
  datatype Js = Js(truthy: bool, nullish: bool, text: string, num: JsNum) {
    // String(v || "")
    function OrEmpty(): string {
      if truthy then text else ""
    }

    // Number(v || 0)
    function OrZero(): JsNum {
      if truthy then num else Fin(0.0)
    }
  }

  const UNDEFINED := Js(false, true, "", NaN)

  function Str(s: string): Js {
    Js(s != "", false, s, ToNumber(s))
  }

  function Num(n: JsNum, text: string): Js {
    Js(n != NaN && n != Fin(0.0), false, text, n)
  }

  function Int(n: int): Js {
    Num(Fin(n as real), IntText(n))
  }

  function Bool(b: bool): Js {
    Js(b, false, if b then "true" else "false", Fin(if b then 1.0 else 0.0))
  }

  predicate DigitsAndPoints(t: string) {
    forall i | 0 <= i < |t| :: IsDigit(t[i]) || t[i] == '.'
  }

  lemma PlainDispatch(t: string)
    requires DigitsAndPoints(t) && t != ""
    ensures ToNumber(t) == UnsignedNumber(t)
  {
    TrimKeepsInner(t);
    assert IsDigit(t[0]) || t[0] == '.';
    assert |t| > 1 ==> IsDigit(t[1]) || t[1] == '.';
  }

  lemma PlainUnsigned(t: string)
    requires DigitsAndPoints(t) && t != ""
    requires Before(t, '.') + After(t, '.') != "" && AllDigits(Before(t, '.')) && AllDigits(After(t, '.'))
    ensures UnsignedNumber(t) == Fin(DecimalValue(Before(t, '.'), After(t, '.')))
  {
    assert t[0] != 'I';
    assert 'e' !in t && 'E' !in t;
    IndexOfAbsent(t, 'E');
    IndexOfAbsent(t, 'e');
  }

  lemma WholeNumber(w: string)
    requires AllDigits(w) && w != ""
    ensures ToNumber(w) == Fin(TextNat(w) as real)
  {
    PlainDispatch(w);
    IndexOfAbsent(w, '.');
    assert w + "" == w;
    PlainUnsigned(w);
    assert Pow10(0) == 1;
  }

  lemma NatTextNumber(n: nat)
    ensures ToNumber(NatText(n)) == Fin(n as real)
    ensures Trim(NatText(n)) == NatText(n)
  {
    NatTextShape(n);
    WholeNumber(NatText(n));
    TrimKeepsInner(NatText(n));
  }
}
