// Numbers written in decimal and read back.
module Numbers {

  function Digit(n: nat): char
    requires n < 10
  {
    ('0' as int + n) as char
  }

  function DigitValue(c: char): int {
    c as int - '0' as int
  }

  predicate Digits(s: string) {
    s != "" && forall i :: 0 <= i < |s| ==> '0' <= s[i] <= '9'
  }

  // What a run of digits stands for.
  function Value(s: string): int {
    if s == "" then 0 else 10 * Value(s[..|s| - 1]) + DigitValue(s[|s| - 1])
  }

  // %0*d: decimal digits, at least `width` of them.
  function Padded(n: nat, width: nat): string
    decreases n, width
  {
    if n < 10 && width <= 1 then [Digit(n)]
    else Padded(n / 10, if width == 0 then 0 else width - 1) + [Digit(n % 10)]
  }

  // %d.
  function Decimal(n: nat): string {
    Padded(n, 1)
  }

  // What was written reads back, whatever the padding.
  lemma {:induction false} PaddedReadsBack(n: nat, width: nat)
    ensures Digits(Padded(n, width)) && Value(Padded(n, width)) == n && |Padded(n, width)| >= width
    decreases n, width
  {
    var s := Padded(n, width);
    if n < 10 && width <= 1 {
      assert s[..0] == "";
    } else {
      var front := Padded(n / 10, if width == 0 then 0 else width - 1);
      PaddedReadsBack(n / 10, if width == 0 then 0 else width - 1);
      assert s[..|s| - 1] == front;
    }
  }

  function Pow10(k: nat): nat {
    if k == 0 then 1 else 10 * Pow10(k - 1)
  }

  // A number that fits is not longer than its padding.
  lemma {:induction false} PaddedWidth(n: nat, width: nat)
    requires width >= 1 && n < Pow10(width)
    ensures |Padded(n, width)| == width
    decreases width
  {
    if width > 1 {
      PaddedWidth(n / 10, width - 1);
    } else {
      assert Pow10(1) == 10 * Pow10(0);
    }
  }

  // Different numbers are written differently.
  lemma DecimalIsInjective(a: nat, b: nat)
    requires Decimal(a) == Decimal(b)
    ensures a == b
  {
    PaddedReadsBack(a, 1);
    PaddedReadsBack(b, 1);
  }
}
