/** String helpers with Python's meaning: `str.strip`, `str(n)`, `str.zfill`, a literal `re.sub`
    and the integer text accepted by `pd.to_numeric`. */
module Strings {
  import opened Wrappers

  const EnDash: char := '\U{2013}'

  /** Python's `str.isspace` for the characters it accepts. */
  predicate IsWhitespace(c: char) {
    c == ' ' || ('\t' <= c <= '\r') || ('\U{001C}' <= c <= '\U{001F}')
    || c == '\U{0085}' || c == '\U{00A0}' || c == '\U{1680}'
    || ('\U{2000}' <= c <= '\U{200A}') || c == '\U{2028}' || c == '\U{2029}'
    || c == '\U{202F}' || c == '\U{205F}' || c == '\U{3000}'
  }

  /** Where a regular expression's `$` (without `re.MULTILINE`) matches when what precedes it
      cannot be a line break: at the end of `s`, or just before a line break that ends it. */
  function DollarEnd(s: string): (n: nat)
    ensures n <= |s| && (n == |s| || (n == |s| - 1 && s[n] == '\n'))
    ensures n == |s| ==> s == [] || s[|s| - 1] != '\n'
  {
    if |s| > 0 && s[|s| - 1] == '\n' then |s| - 1 else |s|
  }

  /** Where `str.lstrip()` of `s[i..hi]` starts: the first index from `i` on not holding
      whitespace. */
  function SkipSpaces(s: string, i: nat, hi: nat): (k: nat)
    requires i <= hi <= |s|
    ensures i <= k <= hi
    ensures forall j :: i <= j < k ==> IsWhitespace(s[j])
    ensures k < hi ==> !IsWhitespace(s[k])
    decreases hi - i
  {
    if i < hi && IsWhitespace(s[i]) then SkipSpaces(s, i + 1, hi) else i
  }

  /** Where `str.rstrip()` of `s[..j]` ends: just after the last index below `j` not holding
      whitespace. */
  function TrimEnd(s: string, j: nat): (k: nat)
    requires j <= |s|
    ensures k <= j
    ensures forall m :: k <= m < j ==> IsWhitespace(s[m])
    ensures k > 0 ==> !IsWhitespace(s[k - 1])
  {
    if j > 0 && IsWhitespace(s[j - 1]) then TrimEnd(s, j - 1) else j
  }

  /** `r` is `s[i..]` cut before a whitespace-only tail, after a whitespace-only head `s[..i]`. */
  ghost predicate TrimmedAt(s: string, r: string, i: nat)
    requires i + |r| <= |s|
  {
    r == s[i..i + |r|]
    && (forall k :: 0 <= k < i ==> IsWhitespace(s[k]))
    && (forall k :: i + |r| <= k < |s| ==> IsWhitespace(s[k]))
  }

  /** `str.strip()`: `s` without its leading and trailing whitespace. */
  function Strip(s: string): (r: string)
    ensures exists i :: 0 <= i <= |s| - |r| && TrimmedAt(s, r, i)
    ensures r == [] || (!IsWhitespace(r[0]) && !IsWhitespace(r[|r| - 1]))
  {
    var hi := TrimEnd(s, |s|);
    var lo := SkipSpaces(s, 0, hi);
    assert TrimmedAt(s, s[lo..hi], lo);
    s[lo..hi]
  }

  lemma {:induction false} TrimEndAt(s: string, j: nat, n: nat)
    requires n <= j <= |s|
    requires forall m :: n <= m < j ==> IsWhitespace(s[m])
    requires n == 0 || !IsWhitespace(s[n - 1])
    ensures TrimEnd(s, j) == n
    decreases j
  {
    if j > n {
      TrimEndAt(s, j - 1, n);
    }
  }

  /** A text whose ends are not whitespace loses exactly its whitespace tail to `strip`. */
  lemma StripTrailing(a: string, w: string)
    requires a == [] || (!IsWhitespace(a[0]) && !IsWhitespace(a[|a| - 1]))
    requires forall k :: 0 <= k < |w| ==> IsWhitespace(w[k])
    ensures Strip(a + w) == a
  {
    var s := a + w;
    assert forall i :: |a| <= i < |s| ==> s[i] == w[i - |a|];
    assert forall i :: 0 <= i < |a| ==> s[i] == a[i];
    TrimEndAt(s, |s|, |a|);
    assert s[..|a|] == a;
  }

  lemma StripIdempotent(s: string)
    ensures Strip(Strip(s)) == Strip(s)
  {
    var t := Strip(s);
    StripTrailing(t, []);
    assert t + [] == t;
  }

  predicate IsDigit(c: char) { '0' <= c <= '9' }

  predicate AllDigits(s: string) { forall i :: 0 <= i < |s| ==> IsDigit(s[i]) }

  function DigitValue(c: char): (d: nat)
    requires IsDigit(c)
    ensures d < 10
  {
    (c as int) - ('0' as int)
  }

  function DigitChar(d: nat): (c: char)
    requires d < 10
    ensures IsDigit(c) && DigitValue(c) == d
  {
    ((('0' as int) + d) as char)
  }

  /** The value of a string of decimal digits, most significant first. */
  function DigitsValue(s: string): nat
    requires AllDigits(s)
  {
    if s == [] then 0 else DigitsValue(s[..|s| - 1]) * 10 + DigitValue(s[|s| - 1])
  }

  /** `str(n)` for a non-negative integer: decimal digits without leading zeros. */
  function ShowNat(n: nat): (r: string)
    ensures |r| >= 1 && AllDigits(r)
    ensures |r| == 1 || r[0] != '0'
  {
    if n < 10 then [DigitChar(n)] else ShowNat(n / 10) + [DigitChar(n % 10)]
  }

  lemma {:induction false} ShowNatValue(n: nat)
    ensures DigitsValue(ShowNat(n)) == n
  {
    if n >= 10 {
      var hi := ShowNat(n / 10);
      assert (hi + [DigitChar(n % 10)])[..|hi|] == hi;
      ShowNatValue(n / 10);
    } else {
      assert [DigitChar(n)][..0] == [];
    }
  }

  function Pow10(w: nat): (p: nat)
    ensures p >= 1
  {
    if w == 0 then 1 else 10 * Pow10(w - 1)
  }

  lemma {:induction false} ShowNatLength(n: nat, w: nat)
    requires 1 <= w && n < Pow10(w)
    ensures |ShowNat(n)| <= w
  {
    if n >= 10 {
      assert w >= 2 && n / 10 < Pow10(w - 1);
      ShowNatLength(n / 10, w - 1);
    }
  }

  lemma {:induction false} ShowNatLengthAtLeast(n: nat, w: nat)
    requires n >= Pow10(w)
    ensures |ShowNat(n)| > w
  {
    if w > 0 {
      assert n >= 10 && n / 10 >= Pow10(w - 1);
      ShowNatLengthAtLeast(n / 10, w - 1);
    }
  }

  lemma DigitsValue2(t: string)
    requires |t| == 2 && AllDigits(t)
    ensures DigitsValue(t) == 10 * DigitValue(t[0]) + DigitValue(t[1])
  {
    var a := t[..1];
    assert a[..0] == [] && a[0] == t[0] && t[..|t| - 1] == a;
    assert DigitsValue(a) == DigitValue(t[0]);
  }

  lemma DigitsValue4(t: string)
    requires |t| == 4 && AllDigits(t)
    ensures DigitsValue(t)
      == 1000 * DigitValue(t[0]) + 100 * DigitValue(t[1]) + 10 * DigitValue(t[2]) + DigitValue(t[3])
  {
    var a, b, c := t[..1], t[..2], t[..3];
    assert a[..0] == [] && a[0] == t[0];
    assert b[..1] == a && b[1] == t[1];
    assert c[..2] == b && c[2] == t[2];
    assert t[..3] == c;
    assert DigitsValue(a) == DigitValue(t[0]);
    assert DigitsValue(b) == DigitsValue(a) * 10 + DigitValue(t[1]);
    assert DigitsValue(c) == DigitsValue(b) * 10 + DigitValue(t[2]);
  }

  function Zeros(k: nat): (r: string)
    ensures |r| == k && AllDigits(r)
  {
    seq(k, _ => '0')
  }

  /** `str.zfill(width)` on a string without a sign: left-padded with '0' up to `width`. */
  function ZFill(s: string, width: nat): string {
    if |s| >= width then s else Zeros(width - |s|) + s
  }

  lemma {:induction false} DigitsValueZeros(k: nat, s: string)
    requires AllDigits(s)
    ensures AllDigits(Zeros(k) + s) && DigitsValue(Zeros(k) + s) == DigitsValue(s)
  {
    var z := Zeros(k) + s;
    if s == [] {
      assert z == Zeros(k);
      if k > 0 {
        assert z[..k - 1] == Zeros(k - 1);
        DigitsValueZeros(k - 1, []);
        assert Zeros(k - 1) + [] == Zeros(k - 1);
      }
    } else {
      var init := s[..|s| - 1];
      assert z[..|z| - 1] == Zeros(k) + init;
      DigitsValueZeros(k, init);
    }
  }

  /** Zero-padding keeps the number a string of digits denotes, and pads exactly to the width. */
  lemma ZFillShowNat(n: nat, width: nat)
    ensures AllDigits(ZFill(ShowNat(n), width))
    ensures DigitsValue(ZFill(ShowNat(n), width)) == n
    ensures 1 <= width && n < Pow10(width) ==> |ZFill(ShowNat(n), width)| == width
  {
    ShowNatValue(n);
    var s := ShowNat(n);
    if |s| < width {
      DigitsValueZeros(width - |s|, s);
    }
    if n < Pow10(width) && width >= 1 {
      ShowNatLength(n, width);
    }
  }

  /** The integer text `pd.to_numeric` turns into an integer: an optional sign and decimal digits. */
  function ParseInteger(s: string): (r: Option<int>)
    ensures r.Some? ==> |s| >= 1 && (IsDigit(s[0]) || s[0] == '-' || s[0] == '+')
    ensures r.Some? ==> AllDigits(s[1..])
  {
    if |s| > 1 && (s[0] == '-' || s[0] == '+') && AllDigits(s[1..]) then
      var v: int := DigitsValue(s[1..]);
      Some(if s[0] == '-' then -v else v)
    else if |s| > 0 && AllDigits(s) then Some(DigitsValue(s))
    else None
  }

  /** `str(n)` for any integer. */
  function ShowInt(n: int): string {
    if n < 0 then "-" + ShowNat(-n) else ShowNat(n)
  }

  lemma ParseShowInt(n: int)
    ensures ParseInteger(ShowInt(n)) == Some(n)
  {
    var s := ShowInt(n);
    if n < 0 {
      ShowNatValue(-n);
      assert s[0] == '-' && s[1..] == ShowNat(-n);
      assert |s| > 1 && AllDigits(s[1..]);
    } else {
      ShowNatValue(n);
      assert s == ShowNat(n) && IsDigit(s[0]);
    }
  }

  predicate OccursAt(s: string, pat: string, i: nat) {
    i + |pat| <= |s| && s[i..i + |pat|] == pat
  }

  /** `re.sub` of a literal pattern: every non-overlapping occurrence, left to right, becomes `rep`. */
  function ReplaceAll(s: string, pat: string, rep: string): string
    requires |pat| > 0
    decreases |s|
  {
    if |s| < |pat| then s
    else if s[..|pat|] == pat then rep + ReplaceAll(s[|pat|..], pat, rep)
    else [s[0]] + ReplaceAll(s[1..], pat, rep)
  }

  lemma {:induction false} ReplaceAllAbsent(s: string, pat: string, rep: string)
    requires |pat| > 0
    requires forall i: nat :: !OccursAt(s, pat, i)
    ensures ReplaceAll(s, pat, rep) == s
  {
    if |s| >= |pat| {
      assert !OccursAt(s, pat, 0);
      forall i: nat ensures !OccursAt(s[1..], pat, i) {
        assert !OccursAt(s, pat, i + 1);
        if i + |pat| <= |s[1..]| {
          assert s[1..][i..i + |pat|] == s[i + 1..i + 1 + |pat|];
        }
      }
      ReplaceAllAbsent(s[1..], pat, rep);
      assert s == [s[0]] + s[1..];
    }
  }

  /** A prefix free of the pattern's first character is copied, then the first occurrence is replaced. */
  lemma {:induction false} ReplaceAllFirst(a: string, pat: string, b: string, rep: string)
    requires |pat| > 0 && pat[0] !in a
    ensures ReplaceAll(a + pat + b, pat, rep) == a + rep + ReplaceAll(b, pat, rep)
  {
    var s := a + pat + b;
    if a == [] {
      assert s == pat + b;
      assert s[..|pat|] == pat && s[|pat|..] == b;
    } else {
      assert s[0] == a[0];
      assert s[..|pat|][0] != pat[0];
      assert s[1..] == a[1..] + pat + b;
      ReplaceAllFirst(a[1..], pat, b, rep);
      assert ReplaceAll(s, pat, rep) == [a[0]] + ReplaceAll(s[1..], pat, rep);
      assert a == [a[0]] + a[1..];
    }
  }
}
