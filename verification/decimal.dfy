/**
 Decimal numerals: the rendering Python's `"%d" % n` produces for a natural number, and
 the reading `int(s)` performs on a string of ASCII digits.
 */
module Decimal {
  import opened Wrappers

  predicate IsDigit(c: char) {
    '0' <= c <= '9'
  }

  predicate AllDigits(s: string) {
    forall i :: 0 <= i < |s| ==> IsDigit(s[i])
  }

  function DigitChar(d: nat): (c: char)
    requires d < 10
    ensures IsDigit(c) && DigitValue(c) == d
  {
    ('0' as int + d) as char
  }

  function DigitValue(c: char): nat
    requires IsDigit(c)
  {
    c as int - '0' as int
  }

  /** The number a run of digits denotes, most significant digit first; leading zeros are allowed. */
  function Value(s: string): nat
    requires AllDigits(s)
  {
    if |s| == 0 then 0 else Value(s[..|s| - 1]) * 10 + DigitValue(s[|s| - 1])
  }

  /** The decimal rendering of `n`: at least one digit and no leading zero. */
  function Render(n: nat): (r: string)
    ensures 1 <= |r| && AllDigits(r)
    ensures r[0] == '0' ==> n == 0 && |r| == 1
  {
    if n < 10 then [DigitChar(n)] else Render(n / 10) + [DigitChar(n % 10)]
  }

  /** A canonical numeral: digits only, and no leading zero unless it is "0" itself. */
  predicate Canonical(s: string) {
    1 <= |s| && AllDigits(s) && (s[0] == '0' ==> |s| == 1)
  }

  /**
   Reading a string as a natural number. Only a non-empty run of ASCII digits is accepted;
   anything else is the ValueError of `int()`, here `None`.
   */
  function ParseNat(s: string): (r: Option<nat>)
    ensures r.Some? <==> 1 <= |s| && AllDigits(s)
    ensures r.Some? ==> (r.value == 0 <==> forall i :: 0 <= i < |s| ==> s[i] == '0')
  {
    if 1 <= |s| && AllDigits(s) then
      ZeroValue(s);
      Some(Value(s))
    else
      None
  }

  /** A run of digits denotes zero exactly when every digit is '0'. */
  lemma {:induction false} ZeroValue(s: string)
    requires AllDigits(s)
    ensures Value(s) == 0 <==> forall i :: 0 <= i < |s| ==> s[i] == '0'
  {
    if |s| > 0 {
      var p := s[..|s| - 1];
      ZeroValue(p);
      assert forall i :: 0 <= i < |p| ==> p[i] == s[i];
    }
  }

  /** Reading back what was rendered gives the number again. */
  lemma {:induction false} ValueOfRender(n: nat)
    ensures Value(Render(n)) == n
  {
    if n >= 10 {
      var r := Render(n);
      ValueOfRender(n / 10);
      assert r[..|r| - 1] == Render(n / 10);
      assert r[|r| - 1] == DigitChar(n % 10);
    }
  }

  /** `ParseNat` inverts `Render` on every natural number. */
  lemma ParseRender(n: nat)
    ensures ParseNat(Render(n)) == Some(n)
  {
    ValueOfRender(n);
  }

  /** A canonical numeral other than "0" denotes a positive number. */
  lemma {:induction false} CanonicalPositive(s: string)
    requires Canonical(s) && s[0] != '0'
    ensures Value(s) >= 1
  {
    if |s| > 1 {
      var p := s[..|s| - 1];
      assert p[0] == s[0];
      CanonicalPositive(p);
    }
  }

  /** `Render` inverts `ParseNat` on canonical numerals: the two are a bijection. */
  lemma {:induction false} RenderOfValue(s: string)
    requires Canonical(s)
    ensures Render(Value(s)) == s
  {
    if |s| > 1 {
      var p := s[..|s| - 1];
      var d := DigitValue(s[|s| - 1]);
      assert p[0] == s[0];
      CanonicalPositive(p);
      RenderOfValue(p);
      var v := Value(s);
      assert v == Value(p) * 10 + d;
      assert v / 10 == Value(p) && v % 10 == d;
      assert DigitChar(d) == s[|s| - 1];
      assert s == p + [s[|s| - 1]];
    }
  }

  /** A leading zero does not change the number a run of digits denotes. */
  lemma {:induction false} ValueLeadingZero(s: string)
    requires AllDigits(s)
    ensures AllDigits("0" + s) && Value("0" + s) == Value(s)
  {
    var z := "0" + s;
    if |s| == 0 {
      assert z[..0] == [];
    } else {
      var p := s[..|s| - 1];
      assert z[..|z| - 1] == "0" + p;
      assert z[|z| - 1] == s[|s| - 1];
      ValueLeadingZero(p);
    }
  }

  /**
   `int()` ignores leading zeros: "07" reads as 7. With `RenderOfValue` this fixes the value
   of every run of digits, canonical or not.
   */
  lemma LeadingZero(s: string)
    requires 1 <= |s| && AllDigits(s)
    ensures ParseNat("0" + s) == ParseNat(s)
  {
    ValueLeadingZero(s);
  }

  /** Distinct numbers render differently. */
  lemma RenderInjective(n: nat, m: nat)
    ensures Render(n) == Render(m) ==> n == m
  {
    ValueOfRender(n);
    ValueOfRender(m);
  }
}
