/** Machine words, the alignment helper every memory component shares, and a few general definitions. */
module MachineWords {

  const U64: int := 0x1_0000_0000_0000_0000

  type Word = x: int | 0 <= x < 0x1_0000_0000_0000_0000
  type U32 = x: int | 0 <= x < 0x1_0000_0000
  type Byte = x: int | 0 <= x < 256

  datatype Option<+T> = None | Some(value: T)

  ghost predicate Distinct<T>(s: seq<T>) {
    forall i, j | 0 <= i < j < |s| :: s[i] != s[j]
  }

  /** Unsigned 64-bit wrap-around. */
  function Wrap(x: int): Word {
    x % 0x1_0000_0000_0000_0000
  }

  lemma WrapSmall(x: nat)
    requires x < U64
    ensures Wrap(x) == x
  {
  }

  /** Wrapping early makes no difference. */
  lemma WrapAdd(x: int, y: int)
    ensures Wrap(Wrap(x) + y) == Wrap(x + y)
  {
    var q := x / 0x1_0000_0000_0000_0000;
    assert Wrap(x) == x - U64 * q;
    Shifted(x + y, q);
  }

  lemma Shifted(x: int, q: int)
    ensures Wrap(x - 0x1_0000_0000_0000_0000 * q) == Wrap(x)
  {
  }

  /** `align_value(value, order)` with `unit == 1 << order`: `(value + o) & ~o` for the mask `o == unit - 1`. */
  function AlignValue(value: Word, unit: nat): Word
    requires unit > 0
  {
    var sum := Wrap(value + unit - 1);
    sum - sum % unit
  }

  /** Rounding up is exact precisely when the addition does not wrap; otherwise the result drops to zero. */
  lemma AlignValueRoundsUp(value: Word, unit: nat)
    requires unit == 8 || unit == 4096
    ensures AlignValue(value, unit) % unit == 0
    ensures value <= U64 - unit <==> value <= AlignValue(value, unit) < value + unit
    ensures value > U64 - unit ==> AlignValue(value, unit) == 0
  {
    if unit == 8 {
      assert Wrap(value + 7) - Wrap(value + 7) % 8 == 8 * (Wrap(value + 7) / 8);
    } else {
      assert Wrap(value + 4095) - Wrap(value + 4095) % 4096 == 4096 * (Wrap(value + 4095) / 4096);
    }
  }

  /** A 32-bit word taken apart into its bytes. */
  lemma FourBytes(x: nat)
    ensures x == x % 0x100 + 0x100 * (x / 0x100 % 0x100) + 0x1_0000 * (x / 0x1_0000 % 0x100)
                 + 0x100_0000 * (x / 0x100_0000)
  {
    LowByte(x);
    LowByte(x / 0x100);
    LowByte(x / 0x1_0000);
    ByteSteps(x);
  }

  lemma LowByte(x: nat)
    ensures x == 0x100 * (x / 0x100) + x % 0x100
  {
  }

  lemma ByteSteps(x: nat)
    ensures x / 0x100 / 0x100 == x / 0x1_0000 && x / 0x1_0000 / 0x100 == x / 0x100_0000
  {
  }

  lemma PutKeys<K, V>(m: map<K, V>, k: K, v: V)
    ensures m[k := v].Keys == m.Keys + {k}
    ensures k !in m ==> |m[k := v].Keys| == |m.Keys| + 1
  {
    assert m[k := v].Keys == m.Keys + {k};
  }

  lemma AtLeast(q: nat, y: nat)
    requires y > 0
    ensures q <= q * y
  {
    assert q * y == q + q * (y - 1);
    assert q * (y - 1) >= 0;
  }

  lemma QuotientBelow(x: nat, y: nat)
    requires y > 0
    ensures 0 <= x / y <= x
  {
    AtLeast(x / y, y);
  }

  /** Quotient and remainder of a division. */
  lemma Divided(x: nat, y: nat)
    requires y > 0
    ensures x == x / y * y + x % y && 0 <= x % y < y && 0 <= x / y <= x
    ensures x > 0 && y > 1 ==> x / y < x
  {
    QuotientBelow(x, y);
    if y > 1 {
      Doubled(x / y, y);
    }
  }

  lemma Doubled(q: nat, y: nat)
    requires y > 1
    ensures 2 * q <= q * y
  {
    assert q * y == 2 * q + q * (y - 2);
    assert q * (y - 2) >= 0;
  }
}
