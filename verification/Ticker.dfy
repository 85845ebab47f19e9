/** Ticker text: collapsed, upper-cased and clipped to a limit counted in UTF-8 bytes. */
module Ticker {
  import opened JsText
  import opened JsValues

  // A JavaScript string read by code points. A surrogate without its partner is a code point of its own.
  type CodePoint = c: int | 0 <= c < 0x110000
  type Text = seq<CodePoint>
  type Byte = b: int | 0 <= b < 256

  const SPACE: CodePoint := 0x20

  // --- UTF-8, section 3 of RFC 3629 ------------------------------------------------------------------

  // A following byte carries the low six bits.
  function Six(n: nat): (b: Byte)
    ensures 0x80 <= b < 0xC0
  {
    0x80 + n % 64
  }

  // The encoder writes a lone surrogate as the replacement character U+FFFD.
  function EncodeChar(c: CodePoint): seq<Byte> {
    if c < 0x80 then [c]
    else if c < 0x800 then [0xC0 + c / 64, Six(c)]
    else if 0xD800 <= c < 0xE000 then [0xEF, 0xBF, 0xBD]
    else if c < 0x10000 then [0xE0 + c / 64 / 64, Six(c / 64), Six(c)]
    else [0xF0 + c / 64 / 64 / 64, Six(c / 64 / 64), Six(c / 64), Six(c)]
  }

  function Encode(s: Text): seq<Byte> {
    if s == [] then [] else Encode(s[..|s| - 1]) + EncodeChar(s[|s| - 1])
  }

  // The first byte tells how long a character is, and no other byte of it looks like a first byte.
  predicate StartsChar(b: Byte) {
    b < 0x80 || 0xC0 <= b
  }

  // Reading one encoded character back.
  function DecodeChar(b: seq<int>): int
    requires 1 <= |b| <= 4
  {
    if |b| == 1 then b[0]
    else if |b| == 2 then (b[0] - 0xC0) * 64 + b[1] - 0x80
    else if |b| == 3 then (b[0] - 0xE0) * 4096 + (b[1] - 0x80) * 64 + b[2] - 0x80
    else (b[0] - 0xF0) * 262144 + (b[1] - 0x80) * 4096 + (b[2] - 0x80) * 64 + b[3] - 0x80
  }

  lemma CharShape(c: CodePoint)
    ensures var bytes := EncodeChar(c);
            && 1 <= |bytes| <= 4 && StartsChar(bytes[0])
            && (forall i | 1 <= i < |bytes| :: !StartsChar(bytes[i]))
            && DecodeChar(bytes) == (if 0xD800 <= c < 0xE000 then 0xFFFD else c)
            && (|bytes| == 1 <==> c <= 0x7F) && (|bytes| <= 2 <==> c <= 0x7FF) && (|bytes| <= 3 <==> c <= 0xFFFF)
  {
  }

  lemma {:induction false} EncodeAppend(a: Text, b: Text)
    ensures Encode(a + b) == Encode(a) + Encode(b)
    decreases |b|
  {
    hide EncodeChar;
    if b == [] {
      assert a + b == a;
    } else {
      var front := b[..|b| - 1];
      EncodeAppend(a, front);
      assert (a + b)[..|a + b| - 1] == a + front;
      assert Encode(a + b) == Encode(a + front) + EncodeChar(b[|b| - 1]);
    }
  }

  // A longer prefix is a longer byte sequence.
  lemma PrefixBytes(s: Text, i: nat, j: nat)
    requires i < j <= |s|
    ensures |Encode(s[..i])| < |Encode(s[..j])|
    ensures Encode(s[..i]) <= Encode(s[..j])
  {
    hide EncodeChar;
    assert s[..j] == s[..i] + s[i..j];
    EncodeAppend(s[..i], s[i..j]);
    CharShape(s[j - 1]);
    assert s[i..j] != [];
  }

  // --- clipping --------------------------------------------------------------------------------------

  // Whether a text needs no clipping: no usable limit, or within it.
  predicate Fits(s: Text, limit: JsNum) {
    !limit.Fin? || limit.r <= 0.0 || |Encode(s)| as real <= limit.r
  }

  // How many code points clipUtf8Bytes keeps, from the k code points already accepted.
  function KeptFrom(s: Text, limit: JsNum, k: nat): (n: nat)
    requires k <= |s|
    ensures k <= n <= |s|
    decreases |s| - k
  {
    if k == |s| || !Fits(s[..k + 1], limit) then k else KeptFrom(s, limit, k + 1)
  }

  function Clip(s: Text, limit: JsNum): Text {
    s[..KeptFrom(s, limit, 0)]
  }

  method ClipUtf8Bytes(s: Text, maxBytes: JsNum) returns (clipped: Text)
    ensures clipped == Clip(s, maxBytes)
  {
    if !maxBytes.Fin? || maxBytes.r <= 0.0 || |Encode(s)| as real <= maxBytes.r {
      WholeKept(s, maxBytes, 0);
      return s;
    }
    clipped := [];
    var usedBytes := 0;
    var i := 0;
    while i < |s|
      invariant 0 <= i <= |s|
      invariant clipped == s[..i] && usedBytes == |Encode(s[..i])|
      invariant KeptFrom(s, maxBytes, 0) == KeptFrom(s, maxBytes, i)
    {
      var charBytes := |EncodeChar(s[i])|;
      assert s[..i + 1][..i] == s[..i];
      if (usedBytes + charBytes) as real > maxBytes.r {
        break;
      }
      clipped := clipped + [s[i]];
      usedBytes := usedBytes + charBytes;
      i := i + 1;
    }
  }

  lemma {:induction false} WholeKept(s: Text, limit: JsNum, k: nat)
    requires k <= |s| && Fits(s, limit)
    ensures KeptFrom(s, limit, k) == |s|
    decreases |s| - k
  {
    hide Encode;
    if k < |s| {
      if k + 1 < |s| {
        PrefixBytes(s, k + 1, |s|);
      }
      assert s[..|s|] == s;
      WholeKept(s, limit, k + 1);
    }
  }

  lemma {:induction false} KeptFits(s: Text, limit: JsNum, k: nat)
    requires k <= |s| && Fits(s[..k], limit)
    ensures var n := KeptFrom(s, limit, k);
            Fits(s[..n], limit) && (n < |s| ==> !Fits(s[..n + 1], limit))
    decreases |s| - k
  {
    hide Fits;
    if k < |s| && Fits(s[..k + 1], limit) {
      KeptFits(s, limit, k + 1);
    }
  }

  // Clipping keeps the longest prefix within the limit: a prefix fits exactly when it is no longer
  // than the clipped text. Its bytes are the first bytes of the text, cut between two characters.
  lemma ClipExact(s: Text, limit: JsNum)
    ensures var r := Clip(s, limit);
            && r <= s && Fits(r, limit)
            && (forall j | 0 <= j <= |s| :: Fits(s[..j], limit) <==> j <= |r|)
            && Encode(r) <= Encode(s)
            && (|r| < |s| ==> StartsChar(Encode(s)[|Encode(r)|]))
  {
    hide Encode, EncodeChar;
    var n := KeptFrom(s, limit, 0);
    assert Fits(s[..0], limit) by { EmptyFits(s, limit); }
    KeptFits(s, limit, 0);
    forall j | 0 <= j <= |s| ensures Fits(s[..j], limit) <==> j <= n {
      if j < n {
        PrefixBytes(s, j, n);
      } else if j > n + 1 {
        PrefixBytes(s, n + 1, j);
      }
    }
    CutBetween(s, n);
  }

  lemma EmptyFits(s: Text, limit: JsNum)
    ensures Fits(s[..0], limit)
  {
  }

  lemma CutBetween(s: Text, n: nat)
    requires n <= |s|
    ensures Encode(s[..n]) <= Encode(s)
    ensures n < |s| ==> |Encode(s[..n])| < |Encode(s)| && StartsChar(Encode(s)[|Encode(s[..n])|])
  {
    hide EncodeChar;
    assert s == s[..n] + s[n..];
    EncodeAppend(s[..n], s[n..]);
    if n < |s| {
      assert s[n..] == [s[n]] + s[n + 1..];
      EncodeAppend([s[n]], s[n + 1..]);
      assert Encode([]) == [] && [s[n]][..0] == [];
      assert Encode([s[n]]) == EncodeChar(s[n]);
      CharShape(s[n]);
    }
  }

  lemma ClipTwice(s: Text, limit: JsNum)
    ensures Clip(Clip(s, limit), limit) == Clip(s, limit)
  {
    hide Clip, Fits;
    ClipExact(s, limit);
    var r := Clip(s, limit);
    ClipExact(r, limit);
    assert r[..|r|] == r;
  }

  // --- white space -----------------------------------------------------------------------------------

  function SkipSpaces(s: Text): (r: Text)
    ensures |r| <= |s| && (r == [] || !IsSpaceCode(r[0]))
  {
    if s != [] && IsSpaceCode(s[0]) then SkipSpaces(s[1..]) else s
  }

  // The replacement of every run of white space by one space.
  function Collapse(s: Text): Text
    decreases |s|
  {
    if s == [] then []
    else if IsSpaceCode(s[0]) then [SPACE] + Collapse(SkipSpaces(s[1..]))
    else [s[0]] + Collapse(s[1..])
  }

  function Tidy(s: Text): Text {
    SkipSpaces(Collapse(s))
  }

  // The words of a text: its longest stretches without white space.
  function Words(s: Text): seq<Text>
    decreases |s|
  {
    if s == [] then []
    else if IsSpaceCode(s[0]) then Words(s[1..])
    else
      var rest := Words(s[1..]);
      if |s| > 1 && !IsSpaceCode(s[1]) && rest != [] then [[s[0]] + rest[0]] + rest[1..] else [[s[0]]] + rest
  }

  // No white space but single spaces.
  predicate OneSpaced(s: Text) {
    && (forall i | 0 <= i < |s| :: IsSpaceCode(s[i]) ==> s[i] == SPACE)
    && (forall i | 0 < i < |s| :: IsSpaceCode(s[i]) ==> !IsSpaceCode(s[i - 1]))
  }

  // Single spaces between words only, and possibly one at the end.
  predicate IsTidy(s: Text) {
    (s != [] ==> !IsSpaceCode(s[0])) && OneSpaced(s)
  }

  lemma {:induction false} SkipWords(s: Text)
    ensures Words(SkipSpaces(s)) == Words(s)
  {
    if s != [] && IsSpaceCode(s[0]) {
      SkipWords(s[1..]);
    }
  }

  lemma {:induction false} CollapseShape(s: Text)
    ensures var r := Collapse(s);
            && (r == [] <==> s == [])
            && (s != [] ==> (IsSpaceCode(r[0]) <==> IsSpaceCode(s[0])))
            && OneSpaced(r)
    decreases |s|
  {
    hide IsSpaceCode;
    assert IsSpaceCode(SPACE) by { SpaceIsSpace(); }
    if s != [] {
      CollapseShape(if IsSpaceCode(s[0]) then SkipSpaces(s[1..]) else s[1..]);
    }
  }

  lemma SpaceIsSpace()
    ensures IsSpaceCode(SPACE)
  {
  }

  lemma {:induction false} CollapseWords(s: Text)
    ensures Words(Collapse(s)) == Words(s)
    decreases |s|
  {
    hide IsSpaceCode;
    SpaceIsSpace();
    if s != [] {
      if IsSpaceCode(s[0]) {
        var rest := SkipSpaces(s[1..]);
        CollapseWords(rest);
        SkipWords(s[1..]);
        assert ([SPACE] + Collapse(rest))[1..] == Collapse(rest);
      } else {
        CollapseWords(s[1..]);
        CollapseShape(s[1..]);
        assert ([s[0]] + Collapse(s[1..]))[1..] == Collapse(s[1..]);
      }
    }
  }

  lemma {:induction false} TidyFixed(s: Text)
    requires OneSpaced(s)
    ensures Collapse(s) == s
    decreases |s|
  {
    hide IsSpaceCode;
    if s != [] {
      TidyFixed(s[1..]);
      if IsSpaceCode(s[0]) && |s| > 1 {
        assert !IsSpaceCode(s[1]);
      }
      assert s == [s[0]] + s[1..];
    }
  }

  // Tidying keeps the words and leaves single spaces; what it leaves alone is what is tidy.
  lemma TidyExact(s: Text)
    ensures IsTidy(Tidy(s)) && Words(Tidy(s)) == Words(s)
    ensures Tidy(s) == s <==> IsTidy(s)
  {
    hide Collapse, Words, IsSpaceCode;
    CollapseShape(s);
    CollapseWords(s);
    SkipWords(Collapse(s));
    var r := Collapse(s);
    if r != [] && IsSpaceCode(r[0]) {
      SkipOne(r);
    }
    if IsTidy(s) {
      TidyFixed(s);
    }
  }

  lemma SkipOne(r: Text)
    requires r != [] && IsSpaceCode(r[0]) && (|r| > 1 ==> !IsSpaceCode(r[1]))
    ensures SkipSpaces(r) == r[1..]
  {
  }

  // --- the ticker --------------------------------------------------------------------------------------

  // Upper-casing, one code point at a time.
  function Upper(upper: CodePoint -> Text, s: Text): Text {
    if s == [] then [] else upper(s[0]) + Upper(upper, s[1..])
  }

  // What upper-casing must do: keep white space, turn anything else into something without white
  // space, and leave its own results alone.
  ghost predicate Casing(upper: CodePoint -> Text) {
    && (forall c: CodePoint :: IsSpaceCode(c) ==> upper(c) == [c])
    && (forall c: CodePoint :: !IsSpaceCode(c) ==> upper(c) != [])
    && (forall c: CodePoint, d: CodePoint :: !IsSpaceCode(c) && d in upper(c) ==> !IsSpaceCode(d))
    && (forall c: CodePoint, d: CodePoint :: d in upper(c) ==> upper(d) == [d])
  }

  function Format(upper: CodePoint -> Text, caps: bool, limit: JsNum, s: Text): Text {
    var tidy := Tidy(s);
    Clip(if caps then Upper(upper, tidy) else tidy, limit)
  }

  lemma {:induction false} UpperCase(upper: CodePoint -> Text, s: Text)
    requires Casing(upper)
    ensures forall c | c in Upper(upper, s) :: upper(c) == [c]
  {
    hide IsSpaceCode;
    if s != [] {
      UpperCase(upper, s[1..]);
    }
  }

  // Upper-casing keeps spaces single.
  lemma {:induction false} UpperSpaces(upper: CodePoint -> Text, s: Text)
    requires Casing(upper)
    ensures var r := Upper(upper, s);
            && (s != [] ==> r != [] && (IsSpaceCode(r[0]) <==> IsSpaceCode(s[0])))
            && (OneSpaced(s) ==> OneSpaced(r))
    decreases |s|
  {
    hide IsSpaceCode;
    if s != [] {
      var rest := s[1..];
      UpperSpaces(upper, rest);
      var first := upper(s[0]);
      assert first[0] in first;
      var r := Upper(upper, s);
      if OneSpaced(s) {
        assert OneSpaced(rest);
        assert IsSpaceCode(s[0]) ==> rest == [] || !IsSpaceCode(rest[0]);
        JoinSpaced(first, Upper(upper, rest));
      }
    }
  }

  lemma UpperTidy(upper: CodePoint -> Text, s: Text)
    requires Casing(upper) && IsTidy(s)
    ensures IsTidy(Upper(upper, s))
  {
    hide Casing, OneSpaced, IsSpaceCode;
    UpperSpaces(upper, s);
  }

  lemma JoinSpaced(first: Text, rest: Text)
    requires OneSpaced(rest) && first != []
    requires (forall c | c in first :: !IsSpaceCode(c)) || (first == [SPACE] && (rest == [] || !IsSpaceCode(rest[0])))
    ensures OneSpaced(first + rest)
  {
    hide IsSpaceCode;
    var r := first + rest;
    forall i | 0 <= i < |r| && IsSpaceCode(r[i]) ensures r[i] == SPACE && (i > 0 ==> !IsSpaceCode(r[i - 1])) {
      if i < |first| {
        assert r[i] in first;
      } else {
        assert r[i] == rest[i - |first|];
        if i == |first| {
          assert r[i - 1] in first;
        } else {
          assert r[i - 1] == rest[i - |first| - 1];
        }
      }
    }
  }

  lemma {:induction false} UpperFixed(upper: CodePoint -> Text, s: Text)
    requires forall c | c in s :: upper(c) == [c]
    ensures Upper(upper, s) == s
  {
    if s != [] {
      UpperFixed(upper, s[1..]);
    }
  }

  lemma TidyPrefix(s: Text, r: Text)
    requires r <= s && IsTidy(s)
    ensures IsTidy(r)
  {
  }

  // A formatted ticker is tidy, upper case, within the limit, and formatting it again changes nothing.
  lemma FormatSettles(upper: CodePoint -> Text, caps: bool, limit: JsNum, s: Text)
    requires Casing(upper)
    ensures var r := Format(upper, caps, limit, s);
            && IsTidy(r) && Fits(r, limit) && (caps ==> forall c | c in r :: upper(c) == [c])
            && Format(upper, caps, limit, r) == r
  {
    hide Tidy, Upper, Clip, Casing, IsTidy, Fits;
    var tidy := Tidy(s);
    var cased := if caps then Upper(upper, tidy) else tidy;
    var r := Clip(cased, limit);
    TidyExact(s);
    UpperTidy(upper, tidy);
    UpperCase(upper, tidy);
    ClipExact(cased, limit);
    ClipTwice(cased, limit);
    TidyPrefix(cased, r);
    TidyExact(r);
    if caps {
      assert forall c | c in r :: c in cased;
      UpperFixed(upper, r);
    }
  }
}
