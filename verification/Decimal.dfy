/** Decimal text of unsigned integers (Go's strconv.FormatUint and ParseUint, base 10). */
module Decimal {
  import opened Outcomes

  const TWO_64: nat := 0x1_0000_0000_0000_0000
  const MAX_UINT64: nat := 0xFFFF_FFFF_FFFF_FFFF
  const MAX_UINT32: nat := 0xFFFF_FFFF

  predicate IsDigit(c: char) { '0' <= c <= '9' }

  predicate AllDigits(s: string) { forall k :: 0 <= k < |s| ==> IsDigit(s[k]) }

  function DigitOf(d: nat): char
    requires d < 10
  {
    '0' + d as char
  }

  function ValueOf(c: char): nat
    requires IsDigit(c)
  {
    (c - '0') as nat
  }

  /** The number a digit string denotes. */
  function Value(s: string): nat
    requires AllDigits(s)
  {
    if s == "" then 0 else 10 * Value(s[..|s| - 1]) + ValueOf(s[|s| - 1])
  }

  function Format(n: nat): (s: string)
    ensures s != "" && AllDigits(s)
  {
    if n < 10 then [DigitOf(n)] else Format(n / 10) + [DigitOf(n % 10)]
  }

  /** What ParseUint accepts, and the value: digits only, at least one, within range. */
  function Parse(s: string, max: nat): Option<nat> {
    if s != "" && AllDigits(s) && Value(s) <= max then Some(Value(s)) else None
  }

  /** The ten digits count from '0', and each one more place is worth ten times as much. */
  lemma {:induction false} ValueIsDecimal(s: string, c: char)
    requires AllDigits(s) && '0' <= c <= '9'
    ensures Value("") == 0 && Value([c]) == c as int - 48
    ensures AllDigits(s + [c]) && Value(s + [c]) == 10 * Value(s) + (c as int - 48)
  {
    assert [c][..0] == "";
    assert (s + [c])[..|s|] == s;
  }

  lemma {:induction false} FormatValue(n: nat)
    ensures Value(Format(n)) == n
  {
    if n >= 10 {
      FormatValue(n / 10);
      assert Format(n)[..|Format(n)| - 1] == Format(n / 10);
    }
  }

  /** Parsing what was formatted gives the number back, within range. */
  lemma {:induction false} ParseFormat(n: nat, max: nat)
    requires n <= max
    ensures Parse(Format(n), max) == Some(n)
  {
    FormatValue(n);
  }

  predicate Canonical(s: string) { |s| == 1 || (s != "" && s[0] != '0') }

  lemma {:induction false} CanonicalIsPositive(s: string)
    requires AllDigits(s) && s != "" && s[0] != '0'
    ensures Value(s) > 0
  {
    if |s| > 1 { CanonicalIsPositive(s[..|s| - 1]); }
  }

  lemma {:induction false} FormatCanonical(n: nat)
    ensures Canonical(Format(n)) && (n > 0 ==> Format(n)[0] != '0')
  {
    if n >= 10 { FormatCanonical(n / 10); }
  }

  /** A digit string is what formatting its value prints just when it has no leading zero. */
  lemma {:induction false} FormatOfValue(s: string)
    requires AllDigits(s) && s != ""
    ensures Format(Value(s)) == s <==> Canonical(s)
  {
    FormatCanonical(Value(s));
    if Canonical(s) { CanonicalPrints(s); }
  }

  lemma {:induction false} CanonicalPrints(s: string)
    requires AllDigits(s) && Canonical(s)
    ensures Format(Value(s)) == s
  {
    var init := s[..|s| - 1];
    if |s| > 1 {
      CanonicalIsPositive(init);
      CanonicalPrints(init);
      assert init + [s[|s| - 1]] == s;
    } else {
      assert Value(init) == 0;
    }
  }

  /** FormatUint as the loop that peels digits off the low end. */
  method FormatUint(n: nat) returns (s: string)
    requires n < TWO_64
    ensures s == Format(n)
  {
    s := "";
    var us := n;
    while us >= 10
      invariant Format(us) + s == Format(n)
    {
      assert Format(us) + s == Format(us / 10) + ([DigitOf(us % 10)] + s);
      s := [DigitOf(us % 10)] + s;
      us := us / 10;
    }
    s := [DigitOf(us)] + s;
  }

  lemma {:induction false} ValueGrows(s: string, k: nat)
    requires AllDigits(s) && k <= |s|
    ensures Value(s[..k]) <= Value(s)
  {
    if k < |s| {
      ValueGrows(s[..|s| - 1], k);
      assert s[..|s| - 1][..k] == s[..k];
    } else {
      assert s[..k] == s;
    }
  }

  /** The cutoff and the wrap test together detect exactly the out-of-range step. */
  lemma StepIsExact(n: nat, d: nat, maxVal: nat)
    requires n <= maxVal < TWO_64 && d < 10
    ensures n >= MAX_UINT64 / 10 + 1 ==> 10 * n + d > maxVal
    ensures n < MAX_UINT64 / 10 + 1 ==>
              var m := (n * 10) % TWO_64;
              var n1 := (m + d) % TWO_64;
              ((n1 < m || n1 > maxVal) <==> 10 * n + d > maxVal) && (10 * n + d <= maxVal ==> n1 == 10 * n + d)
  {
  }

  lemma {:induction false} PrefixStep(s: string, i: nat)
    requires i < |s| && AllDigits(s[..i])
    ensures IsDigit(s[i]) ==> AllDigits(s[..i + 1]) && Value(s[..i + 1]) == 10 * Value(s[..i]) + ValueOf(s[i])
  {
    assert s[..i + 1][..i] == s[..i];
  }

  /** Once a prefix is out of range the whole text is refused, digits or not. */
  lemma {:induction false} PrefixTooBig(s: string, i: nat, maxVal: nat)
    requires i <= |s| && AllDigits(s[..i]) && Value(s[..i]) > maxVal
    ensures Parse(s, maxVal) == None
  {
    if AllDigits(s) { ValueGrows(s, i); }
  }

  /** ParseUint as the digit loop on 64-bit words: the cutoff test before the
      multiplication and the wrap test after the addition. */
  method ParseUint(s: string, maxVal: nat) returns (r: Option<nat>)
    requires maxVal < TWO_64
    ensures r == Parse(s, maxVal)
  {
    if s == "" {
      return None;
    }
    var cutoff := MAX_UINT64 / 10 + 1;
    var n := 0;
    for i := 0 to |s|
      invariant AllDigits(s[..i]) && n == Value(s[..i]) && n <= maxVal
    {
      if !IsDigit(s[i]) {
        return None;
      }
      var d := ValueOf(s[i]);
      PrefixStep(s, i);
      StepIsExact(n, d, maxVal);
      if 10 * n + d > maxVal { PrefixTooBig(s, i + 1, maxVal); }
      if n >= cutoff {
        return None;
      }
      n := (n * 10) % TWO_64;
      var n1 := (n + d) % TWO_64;
      if n1 < n || n1 > maxVal {
        return None;
      }
      n := n1;
    }
    assert s[..|s|] == s;
    r := Some(n);
  }
}
