/** Printing numbers into a buffer and reading them back. */
module Numbers {
  import opened MachineWords

  /** The character of a digit; from 'a' on for the digits above nine, one byte in any base. */
  function DigitChar(d: nat): char {
    if d < 10 then '0' + (d as char) else ((d + 87) % 256) as char
  }

  /** The value `atoi` gives a character; `None` ends the number. */
  function DigitValue(c: char): Option<nat> {
    if '0' <= c <= '9' then Some((c - '0') as nat)
    else if 'a' <= c <= 'f' then Some((c - 'a') as nat + 10)
    else if 'A' <= c <= 'F' then Some((c - 'A') as nat + 10)
    else None
  }

  lemma DigitRoundTrip(d: nat)
    requires d < 16
    ensures DigitValue(DigitChar(d)) == Some(d) && DigitChar(d) != '\0' && DigitChar(d) != '-'
  {
  }

  /** The digits of `n`, least significant first; zero has one digit. */
  function Digits(n: nat, base: nat): (r: string)
    requires 2 <= base
    ensures |r| > 0
    decreases n
  {
    Divided(n, base);
    [DigitChar(n % base)] + if n / base == 0 then "" else Digits(n / base, base)
  }

  function Reversed(s: string): (r: string)
    ensures |r| == |s| && forall i | 0 <= i < |s| :: r[i] == s[|s| - 1 - i]
  {
    if s == "" then "" else Reversed(s[1..]) + [s[0]]
  }

  /** What `itoa` leaves in the buffer. */
  function Printed(n: nat, base: nat): string
    requires 2 <= base
  {
    Reversed(Digits(n, base)) + "\0"
  }

  function Times(result: Word, base: nat, digit: nat): Word {
    Wrap(result * base + digit)
  }

  /** The value of a run of digits, most significant first, in 64-bit arithmetic, on top of `result`. */
  function Accumulated(s: string, base: nat, result: Word): Word
    requires forall i | 0 <= i < |s| :: DigitValue(s[i]).Some?
    decreases |s|
  {
    if s == "" then result
    else Times(Accumulated(s[..|s| - 1], base, result), base, DigitValue(s[|s| - 1]).value)
  }

  // ----- printing -----

  lemma NextDigit(all: string, i: nat, rest: nat, base: nat)
    requires 2 <= base && i < |all| && all[i..] == Digits(rest, base)
    ensures 0 <= rest % base && 0 <= rest / base && all[i] == DigitChar(rest % base)
    ensures rest / base == 0 ==> i + 1 == |all|
    ensures rest / base != 0 ==> i + 1 < |all| && all[i + 1..] == Digits(rest / base, base)
  {
    Divided(rest, base);
    assert all[i + 1..] == all[i..][1..];
  }

  method Itoa(buf: array<char>, n: Word, base: nat)
    requires 2 <= base && |Printed(n, base)| <= buf.Length
    modifies buf
    ensures buf[..|Printed(n, base)|] == Printed(n, base)
    ensures buf[|Printed(n, base)|..] == old(buf[|Printed(n, base)|..])
  {
    ghost var all, was := Digits(n, base), buf[..];
    PrintedIs(n, base);
    hide Digits, DigitChar, Reversed, Printed;
    var i := 0;
    var rest: nat := n;
    while true
      invariant i < |all| && all[i..] == Digits(rest, base)
      invariant forall k | 0 <= k < i :: buf[k] == all[k]
      invariant forall k | i <= k < buf.Length :: buf[k] == was[k]
      decreases |all| - i
    {
      NextDigit(all, i, rest, base);
      buf[i] := DigitChar(rest % base);
      i := i + 1;
      rest := rest / base;
      if rest == 0 {
        break;
      }
    }
    buf[i] := '\0';
    assert buf[..i] == all && buf[i + 1..] == was[i + 1..] && buf[i..][..1] == "\0";
    ghost var now := buf[..];
    ReverseInPlace(buf, i);
    Assembled(now, buf[..], i);
  }

  lemma PrintedIs(n: nat, base: nat)
    requires 2 <= base
    ensures Printed(n, base) == Reversed(Digits(n, base)) + "\0" && |Printed(n, base)| == |Digits(n, base)| + 1
    ensures Digits(n, base)[0..] == Digits(n, base)
  {
  }

  /** Only the first `n` characters changed. */
  lemma Assembled(was: string, now: string, n: nat)
    requires n < |was| == |now| && was[n] == '\0' && now[n..] == was[n..]
    ensures now[..n + 1] == now[..n] + "\0" && now[n + 1..] == was[n + 1..]
  {
    assert now[n] == now[n..][0] == was[n..][0];
    assert now[n + 1..] == now[n..][1..] && was[n + 1..] == was[n..][1..];
  }

  /** The second loop: the first `n` characters change places around the middle. */
  method ReverseInPlace(buf: array<char>, n: nat)
    requires 0 < n <= buf.Length
    modifies buf
    ensures buf[..n] == Reversed(old(buf[..n])) && buf[n..] == old(buf[n..])
  {
    var j, i := 0, n - 1;
    while j < i
      invariant 0 <= j <= n && i == n - 1 - j && j <= i + 1
      invariant forall k | 0 <= k < j :: buf[k] == old(buf[n - 1 - k]) && buf[n - 1 - k] == old(buf[k])
      invariant forall k | j <= k <= i :: buf[k] == old(buf[k])
      invariant buf[n..] == old(buf[n..])
    {
      buf[j], buf[i] := buf[i], buf[j];
      j, i := j + 1, i - 1;
    }
  }

  // ----- reading -----

  /** Where `atoi` stops: the first character after the sign that is no digit. */
  function DigitRun(s: string): (k: nat)
    ensures k <= |s| && (forall i | 0 <= i < k :: DigitValue(s[i]).Some?) && (k < |s| ==> DigitValue(s[k]).None?)
  {
    if s == "" || DigitValue(s[0]).None? then 0 else 1 + DigitRun(s[1..])
  }

  /** The value `atoi` returns for a NUL-terminated text. */
  function Parsed(s: string, base: nat): Word
    requires '\0' in s
  {
    if s[0] == '-' then Wrap((U64 - 1) * Accumulated(s[1..][..DigitRun(s[1..])], base, 0))
    else Accumulated(s[..DigitRun(s)], base, 0)
  }

  lemma OneMoreDigit(t: string, k: nat, base: nat)
    requires k < DigitRun(t)
    ensures DigitValue(t[k]).Some?
    ensures Accumulated(t[..k + 1], base, 0) == Times(Accumulated(t[..k], base, 0), base, DigitValue(t[k]).value)
  {
    assert t[..k + 1][..k] == t[..k];
    hide Wrap;
  }

  /** The loop of `atoi`: the digits from the start of `t`, up to the first other character. */
  method ReadDigits(t: string, base: nat) returns (result: Word)
    requires '\0' in t
    ensures result == Accumulated(t[..DigitRun(t)], base, 0)
  {
    ghost var run := DigitRun(t);
    hide Accumulated, Times, DigitRun, DigitValue;
    ghost var nul: nat :| nul < |t| && t[nul] == '\0';
    EndsRun('\0');
    NothingRead(t, base);
    result := 0;
    var i := 0;
    while t[i] != '\0'
      invariant i <= nul && i <= run && result == Accumulated(t[..i], base, 0)
      decreases |t| - i
    {
      var d := DigitValue(t[i]);
      if d.None? {
        break;
      }
      OneMoreDigit(t, i, base);
      result := Times(result, base, d.value);
      i := i + 1;
    }
  }

  method Atoi(s: string, base: nat) returns (r: Word)
    requires '\0' in s
    ensures r == Parsed(s, base)
  {
    if s[0] == '-' {
      r := ReadDigits(s[1..], base);
      r := Wrap((U64 - 1) * r);
    } else {
      r := ReadDigits(s, base);
    }
  }

  lemma EndsRun(c: char)
    ensures c == '\0' ==> DigitValue(c).None?
  {
  }

  lemma NothingRead(t: string, base: nat)
    ensures Accumulated(t[..0], base, 0) == 0
  {
  }

  // ----- the round trip and the buffers -----

  lemma {:induction false} DigitsAre(n: nat, base: nat)
    requires 2 <= base <= 16
    ensures forall i | 0 <= i < |Digits(n, base)| :: DigitValue(Digits(n, base)[i]).Some? && Digits(n, base)[i] != '-'
    decreases n
  {
    Divided(n, base);
    DigitRoundTrip(n % base);
    if n / base != 0 {
      DigitsAre(n / base, base);
    }
  }

  lemma {:induction false} ValueOfDigits(n: nat, base: nat)
    requires 2 <= base <= 16 && n < U64
    ensures var r := Reversed(Digits(n, base));
            (forall i | 0 <= i < |r| :: DigitValue(r[i]).Some?) && Accumulated(r, base, 0) == n
    decreases n
  {
    DigitsAre(n, base);
    Divided(n, base);
    var s := Digits(n, base);
    var r := Reversed(s);
    DigitRoundTrip(n % base);
    var rest := r[..|r| - 1];
    if n / base != 0 {
      ValueOfDigits(n / base, base);
      assert s[1..] == Digits(n / base, base);
      assert rest == Reversed(s[1..]);
    } else {
      assert rest == "";
    }
    LastDigit(r, base, n / base, n % base);
  }

  lemma LastDigit(r: string, base: nat, high: nat, digit: nat)
    requires r != "" && forall i | 0 <= i < |r| :: DigitValue(r[i]).Some?
    requires DigitValue(r[|r| - 1]) == Some(digit) && high < U64 && high * base + digit < U64
    requires Accumulated(r[..|r| - 1], base, 0) == high
    ensures Accumulated(r, base, 0) == high * base + digit
  {
    hide Times, DigitValue;
    TimesExact(high, base, digit);
  }

  lemma TimesExact(high: Word, base: nat, digit: nat)
    requires high * base + digit < U64
    ensures Times(high, base, digit) == high * base + digit
  {
    WrapSmall(high * base + digit);
    hide Wrap;
  }

  lemma {:induction false} RunEnds(s: string, k: nat)
    requires k < |s| && (forall i | 0 <= i < k :: DigitValue(s[i]).Some?) && DigitValue(s[k]).None?
    ensures DigitRun(s) == k
  {
    hide DigitValue;
  }

  /** Reading back what was printed gives the number, in every base and for every 64-bit number. */
  lemma {:induction false} PrintThenParse(n: Word, base: nat)
    requires 2 <= base <= 16
    ensures var s := Printed(n, base); '\0' in s && Parsed(s, base) == n
  {
    var r, s := Reversed(Digits(n, base)), Printed(n, base);
    ValueOfDigits(n, base);
    DigitsAre(n, base);
    assert s[|r|] == '\0' && s[..|r|] == r;
    EndsRun('\0');
    RunEnds(s, |r|);
    assert s[0] == Digits(n, base)[|r| - 1];
  }

  function Power(base: nat, k: nat): (r: nat)
    ensures base > 0 ==> r > 0
  {
    if k == 0 then 1 else base * Power(base, k - 1)
  }

  /** The number of digits is the number the size of `n` calls for. */
  lemma {:induction false} DigitCount(n: nat, base: nat, k: nat)
    requires 2 <= base && k > 0
    ensures |Digits(n, base)| <= k <==> n < Power(base, k)
    decreases k
  {
    Divided(n, base);
    if k == 1 {
      assert Power(base, 0) == 1;
      ShiftBound(n, base, 1);
    } else {
      if n / base != 0 {
        DigitCount(n / base, base, k - 1);
      }
      ShiftBound(n, base, Power(base, k - 1));
    }
  }

  lemma ShiftBound(n: nat, base: nat, bound: nat)
    requires base >= 2
    ensures n / base < bound <==> n < base * bound
  {
    Divided(n, base);
    var q := n / base;
    assert (bound - q) * base == bound * base - q * base;
    Sign(bound - q, base);
  }

  lemma Sign(d: int, base: nat)
    ensures d >= 1 ==> d * base >= base
    ensures d <= 0 ==> d * base <= 0
  {
    if d >= 1 {
      assert d * base == base + (d - 1) * base && (d - 1) * base >= 0;
    }
  }

  /**
    The 22-byte buffer of `from_u64` holds every number in base 10; the
    20-byte buffer of `from_int` those below 10^19.
   */
  lemma {:induction false} BuffersSuffice(n: Word)
    ensures |Printed(n, 10)| <= 22
    ensures |Printed(n, 10)| <= 20 <==> n < 10_000_000_000_000_000_000
  {
    Powers();
    hide Power;
    DigitCount(n, 10, 20);
    DigitCount(n, 10, 19);
  }

  /**
    `from_int` converts its argument to 64 bits unsigned: its 20 bytes
    suffice exactly for numbers that are not negative.
   */
  lemma FromIntFits(v: int)
    requires -0x8000_0000 <= v < 0x8000_0000
    ensures |Printed(Wrap(v), 10)| <= 20 <==> v >= 0
  {
    assert Wrap(v) == if v >= 0 then v else v + U64;
    BuffersSuffice(Wrap(v));
  }

  lemma Powers()
    ensures Power(10, 19) == 10_000_000_000_000_000_000 && Power(10, 20) == 100_000_000_000_000_000_000
  {
    assert Power(10, 4) == 10_000;
    assert Power(10, 8) == 100_000_000;
    assert Power(10, 12) == 1_000_000_000_000;
    assert Power(10, 16) == 10_000_000_000_000_000;
  }
}
