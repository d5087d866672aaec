/**
 Decimal rendering of the non-negative counts printed in the ranking
 table (`Number.prototype.toString()` on an integer), together with the
 reading of such a rendering back into a number.
 */
module Decimal {

  predicate IsDigit(c: char) {
    '0' <= c <= '9'
  }

  function DigitChar(d: nat): (c: char)
    requires d < 10
    ensures IsDigit(c)
  {
    "0123456789"[d]
  }

  function DigitValue(c: char): (d: nat)
    requires IsDigit(c)
    ensures d < 10
    ensures DigitChar(d) == c
  {
    (c - '0') as nat
  }

  /** A canonical rendering: only digits, at least one, and no leading
      zero unless the rendering is the single digit `0`. */
  ghost predicate Canonical(s: string) {
    && |s| >= 1
    && (forall i :: 0 <= i < |s| ==> IsDigit(s[i]))
    && (|s| > 1 ==> s[0] != '0')
  }

  /** `n.toString()` for a non-negative integer: base ten, most
      significant digit first. */
  function Render(n: nat): (r: string)
    ensures Canonical(r)
  {
    if n < 10 then [DigitChar(n)]
    else Render(n / 10) + [DigitChar(n % 10)]
  }

  /** The value of a string of digits, most significant first. */
  function Parse(s: string): nat
    requires forall i :: 0 <= i < |s| ==> IsDigit(s[i])
  {
    if |s| == 0 then 0
    else Parse(s[..|s| - 1]) * 10 + DigitValue(s[|s| - 1])
  }

  /** `s` is a string of digits whose value is `n`. */
  ghost predicate Denotes(s: string, n: nat) {
    && (forall i :: 0 <= i < |s| ==> IsDigit(s[i]))
    && Parse(s) == n
  }

  /** Reading a rendering back gives the number that was rendered. */
  lemma {:induction false} ParseRender(n: nat)
    ensures Parse(Render(n)) == n
  {
    if n < 10 {
      var r := Render(n);
      assert r[..0] == [];
    } else {
      var r := Render(n);
      var init := Render(n / 10);
      ParseRender(n / 10);
      assert r == init + [DigitChar(n % 10)];
      assert r[..|r| - 1] == init;
      assert DigitValue(r[|r| - 1]) == n % 10;
    }
  }

  /** Rendering the value of a canonical string gives back that string. */
  lemma {:induction false} RenderParse(s: string)
    requires Canonical(s)
    ensures Render(Parse(s)) == s
    decreases |s|
  {
    var init := s[..|s| - 1];
    var d := DigitValue(s[|s| - 1]);
    if |s| == 1 {
      assert init == [];
    } else {
      assert init[0] == s[0];
      RenderParse(init);
      ParsePositive(init);
      var n := Parse(s);
      assert n == Parse(init) * 10 + d;
      assert n / 10 == Parse(init) && n % 10 == d;
      assert s == init + [s[|s| - 1]];
    }
  }

  /** A canonical string of two or more digits has a non-zero value. */
  lemma {:induction false} ParsePositive(s: string)
    requires Canonical(s)
    requires |s| >= 1 && s[0] != '0'
    ensures Parse(s) >= 1
    decreases |s|
  {
    if |s| > 1 {
      var init := s[..|s| - 1];
      assert init[0] == s[0];
      ParsePositive(init);
    }
  }

  /** A rendering fits in `w >= 1` columns exactly when the number is
      below ten to the power `w`. */
  lemma {:induction false} RenderWidth(n: nat, w: nat)
    requires w >= 1
    ensures |Render(n)| <= w <==> n < Pow10(w)
  {
    if n < 10 {
      Pow10AtLeast10(w);
    } else if w >= 2 {
      RenderWidth(n / 10, w - 1);
    }
  }

  function Pow10(w: nat): nat {
    if w == 0 then 1 else 10 * Pow10(w - 1)
  }

  lemma {:induction false} Pow10AtLeast10(w: nat)
    requires w >= 1
    ensures Pow10(w) >= 10
  {
    if w > 1 {
      Pow10AtLeast10(w - 1);
    }
  }
}
