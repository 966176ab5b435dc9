/** The string operations of Rust's standard library that the authentication
    code relies on: `str::starts_with`, `str::trim_start_matches`, the decimal
    `Display` of integers (`to_string`, `format!`) and `str::parse::<i32>`. */
module Text {
  import opened Primitives

  /** `s.starts_with(prefix)` */
  predicate StartsWith(s: string, prefix: string) {
    |prefix| <= |s| && s[..|prefix|] == prefix
  }

  /** `k` copies of `p`, one after another. */
  function Repeat(p: string, k: nat): string {
    if k == 0 then "" else p + Repeat(p, k - 1)
  }

  /** `s.trim_start_matches(p)`: every leading copy of `p` removed. An empty
      pattern leaves `s` as it is. */
  function TrimStartMatches(s: string, p: string): (r: string)
    ensures |r| <= |s| && r == s[|s| - |r|..]
    ensures p != "" ==> !StartsWith(r, p)
    ensures p == "" || !StartsWith(s, p) ==> r == s
    decreases |s|
  {
    if p != "" && StartsWith(s, p) then TrimStartMatches(s[|p|..], p) else s
  }

  /** How many leading copies of `p` `trim_start_matches` removes. */
  function LeadingMatches(s: string, p: string): nat
    decreases |s|
  {
    if p != "" && StartsWith(s, p) then 1 + LeadingMatches(s[|p|..], p) else 0
  }

  /** A string that starts with `p` is `p` followed by the rest. */
  lemma SplitAtPrefix(s: string, p: string)
    requires StartsWith(s, p)
    ensures s == p + s[|p|..]
  {
    assert s == s[..|p|] + s[|p|..];
  }

  /** One more copy of `p` in front of a run of copies followed by `r`. */
  lemma RepeatOnceMore(p: string, k: nat, r: string)
    ensures Repeat(p, k + 1) + r == p + (Repeat(p, k) + r)
  {
    assert Repeat(p, k + 1) == p + Repeat(p, k);
  }

  /** What `trim_start_matches` removes is exactly a run of copies of `p`. */
  lemma {:induction false} TrimStartMatchesSplits(s: string, p: string)
    ensures s == Repeat(p, LeadingMatches(s, p)) + TrimStartMatches(s, p)
    decreases |s|
  {
    if p != "" && StartsWith(s, p) {
      var rest := s[|p|..];
      TrimStartMatchesSplits(rest, p);
      SplitAtPrefix(s, p);
      RepeatOnceMore(p, LeadingMatches(rest, p), TrimStartMatches(rest, p));
    } else {
      assert Repeat(p, 0) + s == s;
    }
  }

  /** One more leading copy of the pattern does not change the trimmed text. */
  lemma {:induction false} TrimStartMatchesAbsorbs(s: string, p: string)
    ensures TrimStartMatches(p + s, p) == TrimStartMatches(s, p)
  {
    if p != "" {
      assert (p + s)[..|p|] == p;
      assert (p + s)[|p|..] == s;
    }
  }

  predicate IsDigit(c: char) {
    '0' <= c <= '9'
  }

  predicate AllDigits(s: string) {
    forall i | 0 <= i < |s| :: IsDigit(s[i])
  }

  function DigitValue(c: char): (d: nat)
    requires IsDigit(c)
    ensures d < 10
  {
    c as int - '0' as int
  }

  function DigitChar(d: nat): (c: char)
    requires d < 10
    ensures IsDigit(c) && DigitValue(c) == d
  {
    ('0' as int + d) as char
  }

  /** The decimal digits of `n`, most significant first, without leading zeros. */
  function NatToDecimal(n: nat): (s: string)
    ensures |s| > 0 && AllDigits(s)
    ensures s[0] == '0' <==> n == 0
    decreases n
  {
    if n < 10 then [DigitChar(n)] else NatToDecimal(n / 10) + [DigitChar(n % 10)]
  }

  /** `i.to_string()` for a signed integer: a minus sign before the digits of a negative number. */
  function IntToDecimal(i: int): (s: string)
    ensures |s| > 0
    ensures i >= 0 ==> AllDigits(s) && DigitsValue(s) == i && (s[0] == '0' ==> s == "0")
    ensures i < 0 ==> |s| >= 2 && s[0] == '-' && AllDigits(s[1..]) && DigitsValue(s[1..]) == -i && s[1] != '0'
  {
    if i < 0 then
      DigitsValueOfDecimal(-i);
      "-" + NatToDecimal(-i)
    else
      DigitsValueOfDecimal(i);
      NatToDecimal(i)
  }

  /** The number a string of decimal digits denotes. */
  function DigitsValue(s: string): nat
    requires AllDigits(s)
  {
    if s == "" then 0 else 10 * DigitsValue(s[..|s| - 1]) + DigitValue(s[|s| - 1])
  }

  /** `s.parse::<i32>()`: an optional `+` or `-`, then at least one decimal
      digit, and a value that fits in 32 bits; anything else is an error. */
  function ParseI32(s: string): (r: Option<I32>)
    ensures s == "" ==> r == None
    ensures r.Some? ==> (s[0] == '+' || s[0] == '-' || IsDigit(s[0])) && forall i | 1 <= i < |s| :: IsDigit(s[i])
    ensures r.Some? ==> |s| > 1 || IsDigit(s[0])
    ensures r.Some? && r.value < 0 ==> s[0] == '-'
    ensures s != "" && AllDigits(s) ==> r == if DigitsValue(s) <= I32Max then Some(DigitsValue(s)) else None
    ensures |s| >= 2 && s[0] == '+' && AllDigits(s[1..]) ==>
      r == if DigitsValue(s[1..]) <= I32Max then Some(DigitsValue(s[1..])) else None
    ensures |s| >= 2 && s[0] == '-' && AllDigits(s[1..]) ==>
      r == if DigitsValue(s[1..]) <= -I32Min then Some(-(DigitsValue(s[1..]) as int)) else None
  {
    if s == "" then None
    else
      var digits := if s[0] == '+' || s[0] == '-' then s[1..] else s;
      if digits == "" || !AllDigits(digits) then None
      else
        var v: int := if s[0] == '-' then -(DigitsValue(digits) as int) else DigitsValue(digits);
        if I32Min <= v <= I32Max then Some(v) else None
  }

  lemma {:induction false} DigitsValueOfDecimal(n: nat)
    ensures DigitsValue(NatToDecimal(n)) == n
    decreases n
  {
    if n >= 10 {
      var s := NatToDecimal(n);
      DigitsValueOfDecimal(n / 10);
      assert s[..|s| - 1] == NatToDecimal(n / 10);
    }
  }

  /** Parsing the text an `i32` displays as gives that `i32` back. */
  lemma ParseI32OfDecimal(n: I32)
    ensures ParseI32(IntToDecimal(n)) == Some(n)
  {
    var s := IntToDecimal(n);
    if n < 0 {
      var m: nat := -(n as int);
      var digits := NatToDecimal(m);
      DigitsValueOfDecimal(m);
      assert s == "-" + digits;
      assert s[0] == '-' && s[1..] == digits;
    } else {
      var digits := NatToDecimal(n);
      DigitsValueOfDecimal(n);
      assert s == digits && IsDigit(s[0]);
    }
  }
}
