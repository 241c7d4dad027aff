/** Decimal text: `strconv.Atoi`, `strconv.Itoa` and the `%0*d` verb of `fmt`. */
module Decimal {
  import opened Text

  const MAX_INT: int := 0x7FFF_FFFF_FFFF_FFFF
  const MIN_INT: int := -0x8000_0000_0000_0000

  predicate IsDigitChar(c: char) {
    '0' <= c <= '9'
  }

  predicate AllDigits(s: string) {
    forall i :: 0 <= i < |s| ==> IsDigitChar(s[i])
  }

  /** The value of a digit string; the empty string counts as zero. */
  function ToNat(s: string): nat
    requires AllDigits(s)
  {
    if s == [] then 0
    else 10 * ToNat(s[..|s| - 1]) + (s[|s| - 1] as int - '0' as int)
  }

  function Digit(n: nat): (c: char)
    requires n < 10
    ensures IsDigitChar(c) && c as int - '0' as int == n
  {
    ('0' as int + n) as char
  }

  function Itoa(n: nat): (s: string)
    ensures |s| >= 1 && AllDigits(s)
  {
    if n < 10 then [Digit(n)] else Itoa(n / 10) + [Digit(n % 10)]
  }

  function Zeros(k: nat): (s: string)
    ensures |s| == k && AllDigits(s)
  {
    seq(k, _ => '0')
  }

  /** `fmt.Sprintf("%0*d", width, n)` for a non-negative number. */
  function Pad(n: nat, width: nat): (s: string)
    ensures |s| >= width && |s| >= 1 && AllDigits(s)
  {
    var d := Itoa(n);
    if |d| >= width then d else Zeros(width - |d|) + d
  }

  /**
   `strconv.Atoi`: an optional sign, at least one digit, and a 64-bit result.
   `None` stands for the error return.
   */
  function Atoi(s: string): Option<int> {
    var negative := s != [] && s[0] == '-';
    var body := if s != [] && (s[0] == '-' || s[0] == '+') then s[1..] else s;
    if body == [] || !AllDigits(body) then None
    else
      var value: int := ToNat(body);
      var n := if negative then -value else value;
      if MIN_INT <= n <= MAX_INT then Some(n) else None
  }

  lemma ItoaStep(m: nat, d: nat)
    requires m > 0 && d < 10
    ensures Itoa(10 * m + d) == Itoa(m) + [Digit(d)]
  {
    assert (10 * m + d) / 10 == m && (10 * m + d) % 10 == d;
  }

  lemma PadStep(m: nat, d: nat, width: nat)
    requires d < 10 && width >= 1
    ensures Pad(10 * m + d, width + 1) == Pad(m, width) + [Digit(d)]
  {
    if m > 0 {
      ItoaStep(m, d);
      hide Itoa, Digit;
      if |Itoa(m)| < width {
        var zeros := Zeros(width - |Itoa(m)|);
        assert zeros + (Itoa(m) + [Digit(d)]) == (zeros + Itoa(m)) + [Digit(d)];
      }
    } else {
      assert Zeros(width - 1) + [Digit(0)] == Zeros(width);
    }
  }

  /** Printing a digit string's value at its own width gives it back. */
  lemma {:induction false} PadOfToNat(s: string)
    requires AllDigits(s) && s != []
    ensures Pad(ToNat(s), |s|) == s
  {
    var n := |s| - 1;
    var d := s[n] as int - '0' as int;
    assert s == s[..n] + [Digit(d)];
    if n == 0 {
      assert ToNat(s[..0]) == 0;
    } else {
      PadOfToNat(s[..n]);
      PadStep(ToNat(s[..n]), d, n);
    }
  }

  lemma {:induction false} ToNatOfItoa(n: nat)
    ensures ToNat(Itoa(n)) == n
  {
    if n < 10 {
      assert ToNat([Digit(n)][..0]) == 0;
    } else {
      ToNatOfItoa(n / 10);
      var s := Itoa(n);
      assert s[..|s| - 1] == Itoa(n / 10);
    }
  }

  lemma {:induction false} ToNatZeros(k: nat, s: string)
    requires AllDigits(s)
    ensures ToNat(Zeros(k) + s) == ToNat(s)
    decreases k + |s|
  {
    var t := Zeros(k) + s;
    if s != [] {
      assert t[..|t| - 1] == Zeros(k) + s[..|s| - 1];
      ToNatZeros(k, s[..|s| - 1]);
    } else if k > 0 {
      assert t[..|t| - 1] == Zeros(k - 1) + s;
      ToNatZeros(k - 1, s);
    }
  }

  /** Reading a padded number gives the number. */
  lemma ToNatOfPad(n: nat, width: nat)
    ensures ToNat(Pad(n, width)) == n
  {
    ToNatOfItoa(n);
    if |Itoa(n)| < width {
      ToNatZeros(width - |Itoa(n)|, Itoa(n));
    }
  }

  /** Decimal notation, digit by digit. */
  lemma ToNatSnoc(s: string, c: char)
    requires AllDigits(s) && IsDigitChar(c)
    ensures AllDigits(s + [c]) && ToNat(s + [c]) == 10 * ToNat(s) + (c as int - '0' as int)
    ensures ToNat("") == 0
  {
    assert (s + [c])[..|s|] == s;
  }

  lemma {:induction false} ItoaFirst(n: nat)
    requires n > 0
    ensures Itoa(n)[0] != '0'
  {
    if n >= 10 { ItoaFirst(n / 10); }
  }

  /** What `%0*d` prints: the digits of the number, zeros in front only up to the width. */
  lemma PadIff(n: nat, width: nat, d: string)
    ensures d == Pad(n, width) <==>
            && d != "" && AllDigits(d) && ToNat(d) == n
            && |d| >= width && (|d| > width && |d| > 1 ==> d[0] != '0')
  {
    hide ToNat;
    if d == Pad(n, width) {
      ToNatOfPad(n, width);
      if n > 0 { ItoaFirst(n); }
    } else if d != "" && AllDigits(d) && ToNat(d) == n {
      PadOfToNat(d);
    }
  }

  /**
   What `strconv.Atoi` reads: the digits of a number of 64 bits, with zeros in front or
   not, and with a sign or not.
   */
  lemma AtoiIff(s: string, n: int)
    ensures Atoi(s) == Some(n) <==>
            && -0x8000_0000_0000_0000 <= n < 0x8000_0000_0000_0000
            && exists d: string :: && d != "" && AllDigits(d)
                                   && (|| (n == ToNat(d) && (s == d || s == "+" + d))
                                        || (n == 0 - ToNat(d) && s == "-" + d))
  {
    hide ToNat;
    var body := if s != [] && (s[0] == '-' || s[0] == '+') then s[1..] else s;
    forall d: string | d != "" && AllDigits(d) && (s == d || s == "+" + d || s == "-" + d) ensures d == body {
      assert IsDigitChar(d[0]);
    }
    assert s == body || s == "+" + body || s == "-" + body;
  }
}
