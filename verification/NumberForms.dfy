/** What numbers look like when they are printed, and what any text reads as. */
module NumberForms {
  import opened MachineWords
  import opened Numbers

  const DIGITS := "0123456789abcdef"
  const CAPITALS := "0123456789ABCDEF"

  /**
    Printing is positional: the last character is the last digit, and what
    stands before it is the rest of the number.
   */
  lemma {:induction false} PrintedEnds(n: nat, base: nat)
    requires 2 <= base <= 16
    ensures 0 <= n / base && 0 <= n % base < 16
    ensures Printed(n, base) ==
            (if n < base then "" else Printed(n / base, base)[..|Printed(n / base, base)| - 1])
            + [DIGITS[n % base]] + "\0"
  {
    Divided(n, base);
    var s := Digits(n, base);
    DigitIs(n % base);
    SmallQuotient(n, base);
    if n >= base {
      assert s[1..] == Digits(n / base, base);
    }
    hide DigitChar, Digits;
  }

  lemma SmallQuotient(n: nat, base: nat)
    requires base > 0
    ensures n < base <==> n / base == 0
  {
    Divided(n, base);
    if n / base > 0 {
      AtLeast(base, n / base);
    }
  }

  lemma DigitIs(d: nat)
    requires d < 16
    ensures DigitChar(d) == DIGITS[d]
  {
  }

  /** A character is read as a digit exactly when it is one of the sixteen, a letter in either case. */
  lemma {:induction false} DigitExactly(c: char, d: nat)
    ensures DigitValue(c) == Some(d) <==> d < 16 && (c == DIGITS[d] || c == CAPITALS[d])
  {
    if d < 10 {
      LowDigit(c, d);
    } else if d < 16 {
      HighDigit(c, d);
    }
  }

  lemma LowDigit(c: char, d: nat)
    requires d < 10
    ensures DIGITS[d] == CAPITALS[d] == '0' + (d as char)
    ensures DigitValue(c) == Some(d) <==> c == '0' + (d as char)
  {
  }

  lemma HighDigit(c: char, d: nat)
    requires 10 <= d < 16
    ensures DIGITS[d] == 'a' + ((d - 10) as char) && CAPITALS[d] == 'A' + ((d - 10) as char)
    ensures DigitValue(c) == Some(d) <==> c == 'a' + ((d - 10) as char) || c == 'A' + ((d - 10) as char)
  {
  }

  /** The value of digits by their places: each times the power of the base that its place has. */
  ghost function PlaceValue(s: string, base: nat): nat
    requires forall i | 0 <= i < |s| :: DigitValue(s[i]).Some?
  {
    if s == "" then 0 else DigitValue(s[0]).value * Power(base, |s| - 1) + PlaceValue(s[1..], base)
  }

  lemma {:induction false} PlaceValueLast(s: string, base: nat)
    requires s != "" && forall i | 0 <= i < |s| :: DigitValue(s[i]).Some?
    ensures PlaceValue(s, base) == PlaceValue(s[..|s| - 1], base) * base + DigitValue(s[|s| - 1]).value
    decreases |s|
  {
    hide DigitValue;
    var n := |s| - 1;
    if n == 0 {
      assert s[1..] == "" && s[..0] == "";
      assert Power(base, 0) == 1;
    } else {
      PlaceValueLast(s[1..], base);
      assert s[1..][..n - 1] == s[..n][1..];
      Carried(DigitValue(s[0]).value, Power(base, n - 1), PlaceValue(s[1..][..n - 1], base), base);
    }
  }

  lemma Carried(d: nat, p: nat, rest: nat, base: nat)
    ensures (d * p + rest) * base == d * (base * p) + rest * base
  {
    assert d * p * base == d * (base * p);
  }

  /** Reading digits one after the other gives their place value, in 64 bits. */
  lemma {:induction false} AccumulatedIs(s: string, base: nat)
    requires forall i | 0 <= i < |s| :: DigitValue(s[i]).Some?
    ensures Accumulated(s, base, 0) == PlaceValue(s, base) % 0x1_0000_0000_0000_0000
    decreases |s|
  {
    hide DigitValue;
    if s != "" {
      var before := s[..|s| - 1];
      AccumulatedIs(before, base);
      PlaceValueLast(s, base);
      TimesWraps(PlaceValue(before, base), base, DigitValue(s[|s| - 1]).value);
    }
  }

  lemma {:induction false} TimesWraps(x: nat, base: nat, d: nat)
    ensures Times(x % 0x1_0000_0000_0000_0000, base, d) == (x * base + d) % 0x1_0000_0000_0000_0000
  {
    var q := x / 0x1_0000_0000_0000_0000;
    assert x == 0x1_0000_0000_0000_0000 * q + x % 0x1_0000_0000_0000_0000;
    ScaledWhole(q, x % 0x1_0000_0000_0000_0000, base);
    Shifted(x * base + d, q * base);
  }

  lemma ScaledWhole(q: nat, r: nat, base: nat)
    ensures (0x1_0000_0000_0000_0000 * q + r) * base == 0x1_0000_0000_0000_0000 * (q * base) + r * base
  {
  }

  /**
    Any text reads as the place value of the digits in front of the first other character, modulo 2^64, and
    as its negative behind a minus sign; a digit need not be below the base.
   */
  lemma {:induction false} ParsedExactly(s: string, base: nat, t: string, k: nat)
    requires '\0' in s && t == (if s[0] == '-' then s[1..] else s)
    requires k < |t| && (forall i | 0 <= i < k :: DigitValue(t[i]).Some?) && DigitValue(t[k]).None?
    ensures forall i | 0 <= i < k :: t[..k][i] == t[i]
    ensures var value := PlaceValue(t[..k], base);
            Parsed(s, base) == (if s[0] == '-' then 0 - value else value) % 0x1_0000_0000_0000_0000
  {
    RunEnds(t, k);
    hide DigitValue, DigitRun;
    var value := PlaceValue(t[..k], base);
    AccumulatedIs(t[..k], base);
    Negated(value);
  }

  lemma {:induction false} Negated(value: nat)
    ensures Wrap((U64 - 1) * (value % 0x1_0000_0000_0000_0000)) == (0 - value) % 0x1_0000_0000_0000_0000
  {
    var q, r := value / 0x1_0000_0000_0000_0000, value % 0x1_0000_0000_0000_0000;
    Shifted(U64 * r - r, r);
    Shifted(0 - r, q);
  }
}
