/** The handful of Python string operations the store relies on, over ASCII:
    `upper`, `lower`, `strip`, `replace(c, '')`, the substring test `in`,
    `str(n)`, the `{:03d}` format and `int(s)`. */
module Text {
  import opened Options
  import opened Seqs

  /** Whitespace in the ASCII range as Python's `str.strip()` and `int()` see it:
      tab, line feed, vertical tab, form feed, carriage return, the four
      separator controls 0x1C..0x1F, and space. */
  predicate IsSpace(c: char) {
    c == ' ' || (9 <= c as int <= 13) || (28 <= c as int <= 31)
  }

  predicate IsLowerAscii(c: char) { 'a' <= c <= 'z' }

  predicate IsUpperAscii(c: char) { 'A' <= c <= 'Z' }

  predicate IsDigit(c: char) { '0' <= c <= '9' }

  predicate AllDigits(s: string) {
    forall i :: 0 <= i < |s| ==> IsDigit(s[i])
  }

  function UpperChar(c: char): (r: char)
    ensures !IsLowerAscii(r)
    ensures IsLowerAscii(c) || r == c
  {
    if IsLowerAscii(c) then (c as int - 32) as char else c
  }

  function LowerChar(c: char): (r: char)
    ensures !IsUpperAscii(r)
    ensures IsUpperAscii(c) || r == c
  {
    if IsUpperAscii(c) then (c as int + 32) as char else c
  }

  /** `s.upper()`: same length, no lower-case ASCII letter left, other characters kept. */
  function Upper(s: string): (r: string)
    ensures |r| == |s|
    ensures forall i :: 0 <= i < |r| ==> r[i] == UpperChar(s[i])
  {
    seq(|s|, i requires 0 <= i < |s| => UpperChar(s[i]))
  }

  /** `s.lower()`: same length, no upper-case ASCII letter left, other characters kept. */
  function Lower(s: string): (r: string)
    ensures |r| == |s|
    ensures forall i :: 0 <= i < |r| ==> r[i] == LowerChar(s[i])
  {
    seq(|s|, i requires 0 <= i < |s| => LowerChar(s[i]))
  }

  function TrimLeft(s: string): (r: string)
    ensures |r| <= |s|
    ensures |r| == 0 || !IsSpace(r[0])
    ensures |s| == 0 || !IsSpace(s[0]) ==> r == s
  {
    if |s| > 0 && IsSpace(s[0]) then TrimLeft(s[1..]) else s
  }

  function TrimRight(s: string): (r: string)
    ensures |r| <= |s|
    ensures |r| == 0 || !IsSpace(r[|r| - 1])
    ensures |r| == 0 || r[0] == s[0]
    ensures |s| == 0 || !IsSpace(s[|s| - 1]) ==> r == s
  {
    if |s| > 0 && IsSpace(s[|s| - 1]) then TrimRight(s[..|s| - 1]) else s
  }

  /** `s.strip()`: the result neither starts nor ends with whitespace, and a string
      that already does not is returned unchanged. */
  function Strip(s: string): (r: string)
    ensures |r| <= |s|
    ensures |r| == 0 || (!IsSpace(r[0]) && !IsSpace(r[|r| - 1]))
    ensures (|s| == 0 || (!IsSpace(s[0]) && !IsSpace(s[|s| - 1]))) ==> r == s
  {
    TrimRight(TrimLeft(s))
  }

  /** `s.replace(c, '')`: every occurrence of `c` is dropped, every other character kept in order. */
  function RemoveChar(s: string, c: char): (r: string)
    ensures |r| <= |s|
    ensures forall i :: 0 <= i < |r| ==> r[i] != c && r[i] in s
    ensures c !in s ==> r == s
  {
    if |s| == 0 then []
    else (if s[0] == c then [] else [s[0]]) + RemoveChar(s[1..], c)
  }

  /** `replace(c, '')` keeps every other character, in the order the string has them. */
  lemma {:induction false} RemoveCharKeepsOthers(s: string, c: char)
    ensures forall i :: 0 <= i < |s| && s[i] != c ==> s[i] in RemoveChar(s, c)
    ensures KeepsOrder(s, RemoveChar(s, c))
  {
    if |s| > 0 {
      var rest := RemoveChar(s[1..], c);
      RemoveCharKeepsOthers(s[1..], c);
      KeepOrDropHead(s, rest, s[0] != c);
      assert forall i :: 1 <= i < |s| ==> s[i] == s[1..][i - 1];
    }
  }

  /** Python's `sub in s`. */
  predicate Contains(s: string, sub: string)
    decreases |s|
  {
    sub <= s || (|s| > 0 && Contains(s[1..], sub))
  }

  function DigitChar(d: nat): (c: char)
    requires d < 10
    ensures IsDigit(c)
  {
    ('0' as int + d) as char
  }

  function DigitValue(c: char): (d: nat)
    requires IsDigit(c)
    ensures d < 10 && DigitChar(d) == c
  {
    c as int - '0' as int
  }

  /** `str(n)` for a non-negative integer. */
  function Decimal(n: nat): (r: string)
    ensures |r| >= 1 && AllDigits(r)
  {
    if n < 10 then [DigitChar(n)] else Decimal(n / 10) + [DigitChar(n % 10)]
  }

  function Zeros(k: nat): (r: string)
    ensures |r| == k && forall i :: 0 <= i < k ==> r[i] == '0'
  {
    seq(k, _ => '0')
  }

  /** `f"{n:03d}"` for a non-negative integer: at least three digits, zero-padded on the left, never truncated. */
  function Format03(n: nat): (r: string)
    ensures |r| >= 3 && |r| >= |Decimal(n)| && AllDigits(r)
  {
    var d := Decimal(n);
    if |d| >= 3 then d else Zeros(3 - |d|) + d
  }

  /** The value of a string of decimal digits, most significant first. */
  function DigitsValue(d: string): nat
    requires AllDigits(d)
  {
    if |d| == 0 then 0 else DigitsValue(d[..|d| - 1]) * 10 + DigitValue(d[|d| - 1])
  }

  /** Python's grammar for the digits of a base-10 `int()` literal: digits, with single
      underscores allowed between two digits. */
  predicate GroupedDigits(u: string) {
    && |u| > 0
    && IsDigit(u[0])
    && IsDigit(u[|u| - 1])
    && forall i :: 0 <= i < |u| - 1 ==> GroupChar(u, i)
  }

  /** Position `i` of a digit group holds a digit, or an underscore followed by a digit. */
  predicate GroupChar(u: string, i: nat)
    requires i + 1 < |u|
  {
    IsDigit(u[i]) || (u[i] == '_' && IsDigit(u[i + 1]))
  }

  lemma GroupedDigitsAreDigits(u: string)
    requires GroupedDigits(u)
    ensures AllDigits(RemoveChar(u, '_'))
  {
    var r := RemoveChar(u, '_');
    forall i | 0 <= i < |r|
      ensures IsDigit(r[i])
    {
      var j :| 0 <= j < |u| && u[j] == r[i];
      if j < |u| - 1 {
        assert GroupChar(u, j);
      }
    }
  }

  function GroupedValue(u: string): nat
    requires GroupedDigits(u)
  {
    GroupedDigitsAreDigits(u);
    DigitsValue(RemoveChar(u, '_'))
  }

  /** Python's `int(s)` in base 10: surrounding whitespace is ignored, one optional sign,
      then grouped digits; anything else raises `ValueError`, modelled as `None`. */
  function ParseInt(s: string): Option<int> {
    var t := Strip(s);
    if |t| > 0 && (t[0] == '+' || t[0] == '-') then
      var u := t[1..];
      if GroupedDigits(u) then
        var v: int := GroupedValue(u);
        Some(if t[0] == '-' then -v else v)
      else None
    else if GroupedDigits(t) then Some(GroupedValue(t))
    else None
  }

  lemma {:induction false} DecimalValue(n: nat)
    ensures DigitsValue(Decimal(n)) == n
  {
    var d := Decimal(n);
    if n >= 10 {
      DecimalValue(n / 10);
      assert d[..|d| - 1] == Decimal(n / 10);
    }
  }

  lemma {:induction false} LeadingZeroValue(d: string)
    requires AllDigits(d)
    ensures AllDigits("0" + d) && DigitsValue("0" + d) == DigitsValue(d)
  {
    var z := "0" + d;
    assert AllDigits(z) by {
      forall i | 0 <= i < |z| ensures IsDigit(z[i]) {
        if i > 0 { assert z[i] == d[i - 1]; }
      }
    }
    if |d| > 0 {
      assert z[..|z| - 1] == "0" + d[..|d| - 1];
      LeadingZeroValue(d[..|d| - 1]);
    }
  }

  lemma {:induction false} ZerosValue(k: nat, d: string)
    requires AllDigits(d)
    ensures AllDigits(Zeros(k) + d) && DigitsValue(Zeros(k) + d) == DigitsValue(d)
  {
    if k > 0 {
      var rest := Zeros(k - 1) + d;
      ZerosValue(k - 1, d);
      assert Zeros(k) == "0" + Zeros(k - 1);
      assert Zeros(k) + d == "0" + rest;
      LeadingZeroValue(rest);
      assert DigitsValue("0" + rest) == DigitsValue(rest) == DigitsValue(d);
    } else {
      assert Zeros(k) + d == d;
    }
  }

  lemma NoUnderscoreInDigits(d: string)
    requires AllDigits(d)
    ensures '_' !in d
  {
    forall i | 0 <= i < |d|
      ensures d[i] != '_'
    {
      assert IsDigit(d[i]);
    }
  }

  /** The digits written by `Format03` read back as the same number: `int(f"{n:03d}") == n`. */
  lemma ParseFormat03(n: nat)
    ensures ParseInt(Format03(n)) == Some(n)
  {
    var f := Format03(n);
    var d := Decimal(n);
    ParseDigits(f);
    DecimalValue(n);
    if |d| < 3 {
      ZerosValue(3 - |d|, d);
    }
  }

  /** A non-empty run of plain digits parses to its decimal value. */
  lemma ParseDigits(d: string)
    requires |d| > 0 && AllDigits(d)
    ensures ParseInt(d) == Some(DigitsValue(d))
  {
    assert !IsSpace(d[0]) && !IsSpace(d[|d| - 1]);
    assert Strip(d) == d;
    assert d[0] != '+' && d[0] != '-';
    assert GroupedDigits(d);
    NoUnderscoreInDigits(d);
    assert RemoveChar(d, '_') == d;
  }

  /** Distinct numbers never share a `{:03d}` rendering. */
  lemma Format03Injective(m: nat, n: nat)
    requires Format03(m) == Format03(n)
    ensures m == n
  {
    ParseFormat03(m);
    ParseFormat03(n);
  }
  /** Case-folding after a lower-casing is the same as case-folding alone. */
  lemma UpperAfterLower(s: string)
    ensures Upper(Lower(s)) == Upper(s)
  {
  }

  lemma LowerAfterUpper(s: string)
    ensures Lower(Upper(s)) == Lower(s)
  {
  }

  /** A string's stripped form occurs inside it. */
  lemma {:induction false} ContainsStrip(s: string)
    ensures Contains(s, Strip(s))
  {
    var t := TrimLeft(s);
    TrimLeftIsSuffix(s);
    TrimRightIsPrefix(t);
    ContainsSuffix(s, |s| - |t|, Strip(s));
  }

  lemma {:induction false} TrimLeftIsSuffix(s: string)
    ensures TrimLeft(s) == s[|s| - |TrimLeft(s)|..]
    decreases |s|
  {
    if |s| > 0 && IsSpace(s[0]) {
      TrimLeftIsSuffix(s[1..]);
    }
  }

  lemma {:induction false} TrimRightIsPrefix(s: string)
    ensures TrimRight(s) <= s
    decreases |s|
  {
    if |s| > 0 && IsSpace(s[|s| - 1]) {
      TrimRightIsPrefix(s[..|s| - 1]);
    }
  }

  /** A prefix of a suffix is contained. */
  lemma {:induction false} ContainsSuffix(s: string, k: nat, sub: string)
    requires k <= |s| && sub <= s[k..]
    ensures Contains(s, sub)
    decreases k
  {
    if k > 0 {
      assert s[1..][k - 1..] == s[k..];
      ContainsSuffix(s[1..], k - 1, sub);
    }
  }
}
