/** The JavaScript string operations the launch console relies on, over sequences of characters. */
module JsText {
  // JavaScript's WhiteSpace and LineTerminator classes: what `trim` and `\s` match.
  predicate IsSpaceCode(c: int) {
    || 9 <= c <= 13 || c == 0x20 || c == 0xA0 || c == 0x1680 || 0x2000 <= c <= 0x200A
    || c == 0x2028 || c == 0x2029 || c == 0x202F || c == 0x205F || c == 0x3000 || c == 0xFEFF
  }

  predicate IsSpace(c: char) {
    IsSpaceCode(c as int)
  }

  predicate IsDigit(c: char) {
    '0' <= c <= '9'
  }

  // The regular expression ^\d*$.
  predicate AllDigits(s: string) {
    forall i | 0 <= i < |s| :: IsDigit(s[i])
  }

  function TrimStart(s: string): string {
    if s != "" && IsSpace(s[0]) then TrimStart(s[1..]) else s
  }

  function TrimEnd(s: string): string {
    if s != "" && IsSpace(s[|s| - 1]) then TrimEnd(s[..|s| - 1]) else s
  }

  function Trim(s: string): string {
    TrimEnd(TrimStart(s))
  }

  function RemoveSpaces(s: string): string {
    if s == "" then ""
    else if IsSpace(s[0]) then RemoveSpaces(s[1..])
    else [s[0]] + RemoveSpaces(s[1..])
  }

  // Lower-casing as far as it can produce an ASCII letter: A-Z, and the Kelvin sign, which
  // lower-cases to k. Other characters keep their own (never ASCII) class.
  function LowerChar(c: char): char {
    if 'A' <= c <= 'Z' then (c as int + 32) as char
    else if c == '\U{212A}' then 'k'
    else c
  }

  function Lower(s: string): string {
    seq(|s|, i requires 0 <= i < |s| => LowerChar(s[i]))
  }

  // The position of the first `c`, or |s| when there is none.
  function IndexOf(s: string, c: char): (i: nat)
    ensures i <= |s| && c !in s[..i] && (i < |s| ==> s[i] == c)
  {
    if s == "" || s[0] == c then 0 else 1 + IndexOf(s[1..], c)
  }

  function Before(s: string, c: char): string {
    s[..IndexOf(s, c)]
  }

  // The text after the first `c`; empty when there is none.
  function After(s: string, c: char): string {
    if IndexOf(s, c) < |s| then s[IndexOf(s, c) + 1..] else ""
  }

  function Count(s: string, c: char): nat {
    if s == "" then 0 else (if s[0] == c then 1 else 0) + Count(s[1..], c)
  }

  function Replace(s: string, from: char, to: char): string {
    seq(|s|, i requires 0 <= i < |s| => if s[i] == from then to else s[i])
  }

  function Zeros(n: nat): string {
    seq(n, _ => '0')
  }

  function PadStart(s: string, width: nat): string {
    if |s| >= width then s else Zeros(width - |s|) + s
  }

  function PadEnd(s: string, width: nat): string {
    if |s| >= width then s else s + Zeros(width - |s|)
  }

  function Take(s: string, n: nat): string {
    if n <= |s| then s[..n] else s
  }

  // replace(/^0+(?=\d)/, ""), on digits.
  function StripLeadingZeros(s: string): string {
    if |s| > 1 && s[0] == '0' then StripLeadingZeros(s[1..]) else s
  }

  // replace(/0+$/, "").
  function StripTrailingZeros(s: string): string {
    if s != "" && s[|s| - 1] == '0' then StripTrailingZeros(s[..|s| - 1]) else s
  }

  // --- trimming and case ---------------------------------------------------------------

  lemma TrimKeepsInner(s: string)
    requires s == "" || (!IsSpace(s[0]) && !IsSpace(s[|s| - 1]))
    ensures Trim(s) == s
  {
  }

  lemma {:induction false} TrimEndShape(s: string)
    ensures TrimEnd(s) <= s
    ensures TrimEnd(s) == "" || !IsSpace(TrimEnd(s)[|TrimEnd(s)| - 1])
  {
    if s != "" && IsSpace(s[|s| - 1]) {
      TrimEndShape(s[..|s| - 1]);
    }
  }

  lemma {:induction false} TrimStartShape(s: string)
    ensures TrimStart(s) == "" || !IsSpace(TrimStart(s)[0])
  {
    if s != "" && IsSpace(s[0]) {
      TrimStartShape(s[1..]);
    }
  }

  lemma TrimIdempotent(s: string)
    ensures Trim(Trim(s)) == Trim(s)
  {
    TrimStartShape(s);
    TrimEndShape(TrimStart(s));
    TrimKeepsInner(Trim(s));
  }

  lemma {:induction false} RemoveSpacesNoop(s: string)
    requires forall i | 0 <= i < |s| :: !IsSpace(s[i])
    ensures RemoveSpaces(s) == s
  {
    if s != "" {
      RemoveSpacesNoop(s[1..]);
      assert s == [s[0]] + s[1..];
    }
  }

  // A keyword: characters neither trimming nor lower-casing changes.
  predicate IsKeyword(s: string) {
    forall i | 0 <= i < |s| :: !IsSpace(s[i]) && LowerChar(s[i]) == s[i]
  }

  lemma KeywordStable(s: string)
    requires IsKeyword(s)
    ensures Trim(s) == s && Lower(s) == s
  {
    if s != "" {
      assert !IsSpace(s[0]) && !IsSpace(s[|s| - 1]);
    }
    TrimKeepsInner(s);
  }

  // --- searching ---------------------------------------------------------------------------

  lemma {:induction false} IndexOfAt(a: string, c: char, b: string)
    requires c !in a
    ensures IndexOf(a + [c] + b, c) == |a|
    ensures Before(a + [c] + b, c) == a && After(a + [c] + b, c) == b
  {
    if a != "" {
      IndexOfAt(a[1..], c, b);
      assert (a + [c] + b)[1..] == a[1..] + [c] + b;
    }
  }

  lemma IndexOfAbsent(s: string, c: char)
    requires c !in s
    ensures IndexOf(s, c) == |s| && Before(s, c) == s && After(s, c) == ""
  {
  }

  lemma SplitAt(s: string, c: char)
    ensures c !in Before(s, c)
    ensures c in s ==> s == Before(s, c) + [c] + After(s, c)
    ensures c !in s ==> s == Before(s, c)
  {
  }

  lemma {:induction false} CountConcat(a: string, b: string, c: char)
    ensures Count(a + b, c) == Count(a, c) + Count(b, c)
  {
    if a == "" {
      assert a + b == b;
    } else {
      CountConcat(a[1..], b, c);
      assert (a + b)[1..] == a[1..] + b;
    }
  }

  lemma {:induction false} CountZero(s: string, c: char)
    ensures Count(s, c) == 0 <==> c !in s
  {
    if s != "" {
      CountZero(s[1..], c);
      assert s == [s[0]] + s[1..];
    }
  }

  lemma CountSplit(s: string, c: char)
    requires c in s
    ensures Count(s, c) == 1 + Count(After(s, c), c)
  {
    SplitAt(s, c);
    CountConcat(Before(s, c) + [c], After(s, c), c);
    CountConcat(Before(s, c), [c], c);
    CountZero(Before(s, c), c);
  }

  // --- zeros -------------------------------------------------------------------------------

  lemma {:induction false} StripTrailingShape(s: string)
    ensures StripTrailingZeros(s) <= s
    ensures s == StripTrailingZeros(s) + Zeros(|s| - |StripTrailingZeros(s)|)
    ensures StripTrailingZeros(s) == "" || StripTrailingZeros(s)[|StripTrailingZeros(s)| - 1] != '0'
  {
    if s != "" && s[|s| - 1] == '0' {
      StripTrailingShape(s[..|s| - 1]);
    }
  }

  lemma {:induction false} StripTrailingOfZeros(s: string, k: nat)
    ensures StripTrailingZeros(s + Zeros(k)) == StripTrailingZeros(s)
  {
    if k == 0 {
      assert s + Zeros(k) == s;
    } else {
      StripTrailingOfZeros(s, k - 1);
      var t := s + Zeros(k);
      assert t[..|t| - 1] == s + Zeros(k - 1) && t[|t| - 1] == '0';
    }
  }

  lemma {:induction false} StripLeadingShape(s: string)
    requires AllDigits(s)
    ensures AllDigits(StripLeadingZeros(s)) && |StripLeadingZeros(s)| <= |s|
    ensures s != "" ==> StripLeadingZeros(s) != ""
    ensures |StripLeadingZeros(s)| > 1 ==> StripLeadingZeros(s)[0] != '0'
  {
    if |s| > 1 && s[0] == '0' {
      StripLeadingShape(s[1..]);
    }
  }
}
