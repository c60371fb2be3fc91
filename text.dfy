/** The Python `str` methods the normaliser relies on, over ASCII letters:
    `strip`, `lower`, `upper`, `zfill` and `str` of a non-negative int. */
module Text {

  // ---------- Whitespace and strip ----------

  /** Python's `str.isspace` for one character (the full list of code points
      Python treats as whitespace). */
  predicate IsSpace(c: char) {
    var n := c as int;
    (9 <= n <= 13) || (28 <= n <= 32) || n == 0x85 || n == 0xA0 || n == 0x1680
    || (0x2000 <= n <= 0x200A) || n == 0x2028 || n == 0x2029 || n == 0x202F
    || n == 0x205F || n == 0x3000
  }

  predicate AllSpace(s: string) {
    forall i :: 0 <= i < |s| ==> IsSpace(s[i])
  }

  /** Leading whitespace removed. */
  function TrimStart(s: string): (r: string)
    ensures |r| <= |s| && r == s[|s| - |r|..]
    ensures AllSpace(s[..|s| - |r|])
    ensures r == [] || !IsSpace(r[0])
  {
    if s != [] && IsSpace(s[0]) then
      var r := TrimStart(s[1..]);
      TrimStartStep(s, r);
      r
    else s
  }

  // One leading space more in front of what the rest trims to.
  lemma TrimStartStep(s: string, r: string)
    requires s != [] && IsSpace(s[0]) && |r| <= |s| - 1
    requires r == s[1..][|s| - 1 - |r|..] && AllSpace(s[1..][..|s| - 1 - |r|])
    ensures r == s[|s| - |r|..] && AllSpace(s[..|s| - |r|])
  {
    var pre := s[..|s| - |r|];
    forall i | 0 <= i < |pre| ensures IsSpace(pre[i]) {
      if i > 0 {
        assert pre[i] == s[1..][..|s| - 1 - |r|][i - 1];
      }
    }
  }

  /** Trailing whitespace removed. */
  function TrimEnd(s: string): (r: string)
    ensures |r| <= |s| && r == s[..|r|]
    ensures AllSpace(s[|r|..])
    ensures r == [] || !IsSpace(r[|r| - 1])
  {
    if s != [] && IsSpace(s[|s| - 1]) then
      var t := s[..|s| - 1];
      var r := TrimEnd(t);
      assert s[|r|..] == t[|r|..] + [s[|s| - 1]];
      assert r == s[..|r|];
      r
    else s
  }

  /** Python's `str.strip()`. */
  function Strip(s: string): (r: string)
    ensures |r| <= |s|
    ensures r == [] || (!IsSpace(r[0]) && !IsSpace(r[|r| - 1]))
  {
    TrimEnd(TrimStart(s))
  }

  /** The stripped string is what is left between two runs of whitespace. */
  lemma StripSplits(s: string) returns (pre: string, post: string)
    ensures s == pre + Strip(s) + post
    ensures AllSpace(pre) && AllSpace(post)
  {
    var t := TrimStart(s);
    pre := s[..|s| - |t|];
    post := t[|TrimEnd(t)|..];
    SplitAt(s, |s| - |t|);
    SplitAt(t, |TrimEnd(t)|);
    Reassociate(pre, TrimEnd(t), post);
  }

  /** Every character of the stripped string comes from the original. */
  lemma StripKeepsCharacters(s: string)
    ensures forall i :: 0 <= i < |Strip(s)| ==> Strip(s)[i] in s
  {
    var pre, post := StripSplits(s);
    forall i | 0 <= i < |Strip(s)| ensures Strip(s)[i] in s {
      assert Strip(s)[i] == s[|pre| + i];
    }
  }

  lemma SplitAt(s: string, k: nat)
    requires k <= |s|
    ensures s == s[..k] + s[k..]
  {
  }

  lemma Reassociate(a: string, b: string, c: string)
    ensures a + (b + c) == a + b + c
  {
  }

  /** Strip is determined by the decomposition: whitespace, a core that
      neither starts nor ends with whitespace, whitespace. */
  lemma {:induction false} StripUnique(pre: string, r: string, post: string)
    requires AllSpace(pre) && AllSpace(post)
    requires r == [] || (!IsSpace(r[0]) && !IsSpace(r[|r| - 1]))
    ensures Strip(pre + r + post) == r
  {
    if r == [] {
      assert pre + r + post == pre + post;
      AllSpaceConcat(pre, post);
      TrimStartAllSpace(pre + post);
    } else {
      assert (r + post)[0] == r[0];
      TrimStartOfSpaces(pre, r + post);
      assert pre + r + post == pre + (r + post);
      assert TrimStart(r + post) == r + post;
      TrimEndOfSpaces(r, post);
    }
  }

  lemma AllSpaceConcat(a: string, b: string)
    requires AllSpace(a) && AllSpace(b)
    ensures AllSpace(a + b)
  {
    forall i | 0 <= i < |a + b| ensures IsSpace((a + b)[i]) {
      if i < |a| { assert (a + b)[i] == a[i]; } else { assert (a + b)[i] == b[i - |a|]; }
    }
  }

  lemma {:induction false} TrimStartOfSpaces(pre: string, rest: string)
    requires AllSpace(pre)
    requires rest == [] || !IsSpace(rest[0])
    ensures TrimStart(pre + rest) == rest
  {
    if pre != [] {
      assert (pre + rest)[1..] == pre[1..] + rest;
      TrimStartOfSpaces(pre[1..], rest);
    }
  }

  lemma {:induction false} TrimStartAllSpace(s: string)
    requires AllSpace(s)
    ensures Strip(s) == []
  {
    TrimStartOfSpaces(s, []);
    assert s + [] == s;
  }

  lemma {:induction false} TrimEndOfSpaces(r: string, post: string)
    requires AllSpace(post)
    requires r == [] || !IsSpace(r[|r| - 1])
    ensures TrimEnd(r + post) == r
  {
    if post != [] {
      assert (r + post)[..|r + post| - 1] == r + post[..|post| - 1];
      TrimEndOfSpaces(r, post[..|post| - 1]);
    } else {
      assert r + post == r;
    }
  }

  /** `strip` is idempotent. */
  lemma StripIdempotent(s: string)
    ensures Strip(Strip(s)) == Strip(s)
  {
    var r := Strip(s);
    StripUnique([], r, []);
    assert [] + r + [] == r;
  }

  // ---------- Case mapping (ASCII) ----------

  predicate IsUpperLetter(c: char) { 'A' <= c <= 'Z' }
  predicate IsLowerLetter(c: char) { 'a' <= c <= 'z' }
  predicate IsLetter(c: char) { IsUpperLetter(c) || IsLowerLetter(c) }
  predicate IsDigit(c: char) { '0' <= c <= '9' }

  /** A capital becomes the lower-case letter in the same place of the
      alphabet; every other character is kept. */
  function LowerChar(c: char): (d: char)
    ensures !IsUpperLetter(d)
    ensures IsLetter(c) <==> IsLetter(d)
    ensures IsUpperLetter(c) ==> IsLowerLetter(d) && d as int - 'a' as int == c as int - 'A' as int
    ensures !IsUpperLetter(c) ==> d == c
  {
    if IsUpperLetter(c) then (c as int + 32) as char else c
  }

  /** A lower-case letter becomes the capital in the same place of the
      alphabet; every other character is kept. */
  function UpperChar(c: char): (d: char)
    ensures !IsLowerLetter(d)
    ensures IsLetter(c) <==> IsLetter(d)
    ensures IsLowerLetter(c) ==> IsUpperLetter(d) && d as int - 'A' as int == c as int - 'a' as int
    ensures !IsLowerLetter(c) ==> d == c
  {
    if IsLowerLetter(c) then (c as int - 32) as char else c
  }

  /** Upper- and lower-casing undo each other on letters. */
  lemma CaseRoundTrip(c: char)
    ensures IsLowerLetter(c) ==> LowerChar(UpperChar(c)) == c
    ensures IsUpperLetter(c) ==> UpperChar(LowerChar(c)) == c
  {
  }

  /** Python's `str.lower()` on ASCII. */
  function Lower(s: string): (r: string)
    ensures |r| == |s|
    ensures forall i :: 0 <= i < |s| ==> r[i] == LowerChar(s[i])
  {
    if s == [] then [] else [LowerChar(s[0])] + Lower(s[1..])
  }

  /** Python's `str.upper()` on ASCII. */
  function Upper(s: string): (r: string)
    ensures |r| == |s|
    ensures forall i :: 0 <= i < |s| ==> r[i] == UpperChar(s[i])
  {
    if s == [] then [] else [UpperChar(s[0])] + Upper(s[1..])
  }

  /** Upper-casing a string with no lower-case letter gives it back. */
  lemma UpperOfUpperCase(s: string)
    requires forall i :: 0 <= i < |s| ==> !IsLowerLetter(s[i])
    ensures Upper(s) == s
  {
  }

  // ---------- zfill ----------

  predicate AllZeros(s: string) {
    forall i :: 0 <= i < |s| ==> s[i] == '0'
  }

  function Zeros(n: nat): (r: string)
    ensures |r| == n && AllZeros(r)
  {
    seq(n, _ => '0')
  }

  predicate HasSign(s: string) {
    s != [] && (s[0] == '+' || s[0] == '-')
  }

  /** Python's `str.zfill(width)`: pad on the left with '0' up to `width`
      characters, keeping a leading sign in front of the padding. A string
      already `width` long or longer is returned unchanged. */
  function ZFill(s: string, width: nat): (r: string)
    ensures |r| == if |s| < width then width else |s|
    ensures |s| >= width ==> r == s
    ensures !HasSign(s) ==> r[|r| - |s|..] == s && AllZeros(r[..|r| - |s|])
    ensures HasSign(s) ==> r[0] == s[0] && r[|r| - |s| + 1..] == s[1..]
                           && AllZeros(r[1..|r| - |s| + 1])
  {
    if |s| >= width then s
    else if HasSign(s) then [s[0]] + Zeros(width - |s|) + s[1..]
    else Zeros(width - |s|) + s
  }

  lemma ZFillIdempotent(s: string, width: nat)
    ensures ZFill(ZFill(s, width), width) == ZFill(s, width)
  {
  }

  // ---------- str(int) and its inverse ----------

  predicate AllDigits(s: string) {
    forall i :: 0 <= i < |s| ==> IsDigit(s[i])
  }

  function DigitChar(d: nat): (c: char)
    requires d < 10
    ensures IsDigit(c) && c as int - '0' as int == d
  {
    ('0' as int + d) as char
  }

  /** Python's `str(n)` for a non-negative int: decimal, no leading zeros. */
  function NatToString(n: nat): (r: string)
    ensures r != [] && AllDigits(r)
    ensures |r| > 1 ==> r[0] != '0'
  {
    if n < 10 then [DigitChar(n)] else NatToString(n / 10) + [DigitChar(n % 10)]
  }

  /** The value of a string of decimal digits (leading zeros allowed). */
  function DigitsValue(s: string): nat
    requires AllDigits(s)
  {
    if s == [] then 0
    else DigitsValue(s[..|s| - 1]) * 10 + (s[|s| - 1] as int - '0' as int)
  }

  /** Reading back what `str` wrote gives the number. */
  lemma {:induction false} NatToStringRoundTrip(n: nat)
    ensures DigitsValue(NatToString(n)) == n
  {
    if n >= 10 {
      var r := NatToString(n);
      assert r[..|r| - 1] == NatToString(n / 10);
      NatToStringRoundTrip(n / 10);
    }
  }

  /** Leading zeros do not change the value. */
  lemma {:induction false} DigitsValueLeadingZeros(k: nat, s: string)
    requires AllDigits(s)
    ensures AllDigits(Zeros(k) + s) && DigitsValue(Zeros(k) + s) == DigitsValue(s)
  {
    var z := Zeros(k) + s;
    if s == [] {
      assert z == Zeros(k);
      ZerosValue(k);
    } else {
      assert z[..|z| - 1] == Zeros(k) + s[..|s| - 1];
      DigitsValueLeadingZeros(k, s[..|s| - 1]);
    }
  }

  lemma {:induction false} ZerosValue(k: nat)
    ensures AllDigits(Zeros(k)) && DigitsValue(Zeros(k)) == 0
  {
    if k > 0 {
      assert Zeros(k)[..k - 1] == Zeros(k - 1);
      ZerosValue(k - 1);
    }
  }

  /** A number below 10^w is written with at most w digits. */
  lemma {:induction false} NatToStringShort(n: nat, w: nat, bound: nat)
    requires bound == Pow10(w) && n < bound && w > 0
    ensures |NatToString(n)| <= w
  {
    if n >= 10 {
      NatToStringShort(n / 10, w - 1, Pow10(w - 1));
    }
  }

  function Pow10(w: nat): (p: nat)
    ensures p >= 1
  {
    if w == 0 then 1 else 10 * Pow10(w - 1)
  }
}
