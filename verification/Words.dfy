/**
 * 32-bit words as integers, with the bit operations the sources use on them. Arithmetic wraps by
 * `Wrap`; the bitwise operators recurse over the bits.
 */
module Words {

  type Word = x: int | 0 <= x < 0x1_0000_0000

  const MAX: Word := 0xFFFF_FFFF

  type Byte = b: int | 0 <= b < 256

  /** A word from its bytes, lowest first. */
  function Le4(b0: Byte, b1: Byte, b2: Byte, b3: Byte): Word {
    (b0 as int) + 0x100 * (b1 as int) + 0x1_0000 * (b2 as int) + 0x100_0000 * (b3 as int)
  }

  function Wrap(x: int): Word {
    x % 0x1_0000_0000
  }

  function Plus(x: int, y: int): Word {
    Wrap(x + y)
  }

  function Minus(x: int, y: int): Word {
    Wrap(x - y)
  }

  function Pow2(k: nat): (p: nat)
    ensures p > 0
  {
    if k == 0 then 1 else 2 * Pow2(k - 1)
  }

  function BitAnd(x: nat, y: nat): (r: nat)
    ensures r <= x && r <= y
  {
    if x == 0 || y == 0 then 0 else 2 * BitAnd(x / 2, y / 2) + (if x % 2 == 1 && y % 2 == 1 then 1 else 0)
  }

  function BitOr(x: nat, y: nat): (r: nat)
    ensures r >= x && r >= y
  {
    if x == 0 then y else if y == 0 then x
    else 2 * BitOr(x / 2, y / 2) + (if x % 2 == 1 || y % 2 == 1 then 1 else 0)
  }

  /** Bit `k` counted from the lowest. */
  predicate BitAt(x: nat, k: nat) {
    if k == 0 then x % 2 == 1 else BitAt(x / 2, k - 1)
  }

  lemma Pow2Values()
    ensures Pow2(1) == 2 && Pow2(2) == 4 && Pow2(16) == 0x1_0000 && Pow2(31) == 0x8000_0000 && Pow2(32) == 0x1_0000_0000
  {
    assert Pow2(8) == 256;
    assert Pow2(16) == 0x1_0000;
    assert Pow2(24) == 0x100_0000;
    assert Pow2(31) == 0x8000_0000;
  }

  lemma {:induction false} OrBelow(x: nat, y: nat, k: nat)
    requires x < Pow2(k) && y < Pow2(k)
    ensures BitOr(x, y) < Pow2(k)
  {
    if k > 0 {
      OrBelow(x / 2, y / 2, k - 1);
    }
  }

  function OrWord(x: Word, y: Word): Word {
    Pow2Values(); OrBelow(x, y, 32);
    BitOr(x, y)
  }

  function Not(x: Word): Word {
    MAX - x
  }

  lemma {:induction false} OrSame(x: nat)
    ensures BitOr(x, x) == x
  {
    if x > 0 {
      OrSame(x / 2);
    }
  }

  lemma Halves(half: nat, bit: nat)
    requires bit < 2
    ensures (2 * half + bit) / 2 == half && (2 * half + bit) % 2 == bit
  {
  }

  /** Bit by bit, `and` and `or` are what they say. */
  lemma {:induction false} AndAt(x: nat, y: nat, k: nat)
    ensures BitAt(BitAnd(x, y), k) <==> BitAt(x, k) && BitAt(y, k)
  {
    if x == 0 || y == 0 {
      ZeroAt(k);
    } else {
      Halves(BitAnd(x / 2, y / 2), if x % 2 == 1 && y % 2 == 1 then 1 else 0);
      if k > 0 {
        AndAt(x / 2, y / 2, k - 1);
      }
    }
  }

  lemma {:induction false} OrAt(x: nat, y: nat, k: nat)
    ensures BitAt(BitOr(x, y), k) <==> BitAt(x, k) || BitAt(y, k)
  {
    if x == 0 || y == 0 {
      ZeroAt(k);
    } else {
      Halves(BitOr(x / 2, y / 2), if x % 2 == 1 || y % 2 == 1 then 1 else 0);
      if k > 0 {
        OrAt(x / 2, y / 2, k - 1);
      }
    }
  }

  lemma {:induction false} ZeroAt(k: nat)
    ensures !BitAt(0, k)
  {
    if k > 0 { ZeroAt(k - 1); }
  }

  /** A rotate left, one bit at a time. */
  function Rotl(x: Word, n: nat): Word {
    if n == 0 then x else
      var y := Rotl(x, n - 1);
      if y < 0x8000_0000 then 2 * y else 2 * y - MAX
  }

  /** The Power ISA's MASK: ones from bit `mb` through bit `me` counted from the highest, wrapping past the last. */
  function Mask(mb: nat, me: nat): Word
    requires mb < 32 && me < 32
  {
    Pow2Values(); Pow2Order(32 - mb, 32); Pow2Order(31 - me, 31);
    if mb <= me then
      Pow2Order(31 - me, 32 - mb);
      Pow2(32 - mb) - Pow2(31 - me)
    else
      Pow2Order(32 - mb, 31 - me);
      MAX - (Pow2(31 - me) - Pow2(32 - mb))
  }

  lemma {:induction false} Pow2Order(a: nat, b: nat)
    requires a <= b
    ensures Pow2(a) <= Pow2(b)
  {
    if a < b { Pow2Order(a, b - 1); }
  }

  lemma {:induction false} IntervalAt(a: nat, b: nat, k: nat)
    requires b <= a
    ensures Pow2(b) <= Pow2(a) && (BitAt(Pow2(a) - Pow2(b), k) <==> b <= k < a)
    decreases k
  {
    Pow2Order(b, a);
    if k == 0 {
    } else if a == 0 {
      ZeroAt(k);
    } else if b == 0 {
      IntervalAt(a - 1, 0, k - 1);
    } else {
      IntervalAt(a - 1, b - 1, k - 1);
    }
  }

  lemma {:induction false} ComplementAt(n: nat, x: nat, k: nat)
    requires x < Pow2(n) && k < n
    ensures BitAt(Pow2(n) - 1 - x, k) <==> !BitAt(x, k)
  {
    ComplementHalves(Pow2(n - 1), x);
    if k > 0 {
      ComplementAt(n - 1, x / 2, k - 1);
    }
  }

  lemma ComplementHalves(p: nat, x: nat)
    requires x < 2 * p
    ensures (2 * p - 1 - x) / 2 == p - 1 - x / 2 && (2 * p - 1 - x) % 2 == 1 - x % 2
  {
  }

  /** The mask has exactly the bits it should. */
  lemma MaskAt(mb: nat, me: nat, i: nat)
    requires mb < 32 && me < 32 && i < 32
    ensures BitAt(Mask(mb, me), 31 - i) <==> if mb <= me then mb <= i <= me else i <= me || mb <= i
  {
    if mb <= me {
      IntervalAt(32 - mb, 31 - me, 31 - i);
    } else {
      IntervalAt(31 - me, 32 - mb, 31 - i);
      NotAt(Pow2(31 - me) - Pow2(32 - mb), 31 - i);
    }
  }

  lemma NotAt(x: nat, k: nat)
    requires k < 32
    ensures x <= MAX ==> (BitAt(Not(x), k) <==> !BitAt(x, k))
  {
    Pow2Values();
    if x <= MAX {
      ComplementAt(32, x, k);
    }
  }

  /** Adding the next lower bit to an interval of ones. */
  lemma {:induction false} OrExtends(a: nat, b: nat)
    requires 1 <= b <= a
    ensures Pow2(b) <= Pow2(a) && BitOr(Pow2(a) - Pow2(b), Pow2(b - 1)) == Pow2(a) - Pow2(b - 1)
    decreases b
  {
    Pow2Order(b, a);
    if b > 1 {
      OrExtends(a - 1, b - 1);
    }
  }

  lemma AndHalves(x: nat, y: nat)
    ensures BitAnd(x, y) == 2 * BitAnd(x / 2, y / 2) + if x % 2 == 1 && y % 2 == 1 then 1 else 0
  {
  }

  lemma OrHalves(x: nat, y: nat)
    ensures BitOr(x, y) == 2 * BitOr(x / 2, y / 2) + if x % 2 == 1 || y % 2 == 1 then 1 else 0
  {
  }

  lemma HalfBelow(x: nat, p: nat)
    requires x < 2 * p
    ensures x / 2 < p
  {
  }

  lemma ComplementsDouble(p: nat, x: nat, y: nat)
    requires x < 2 * p && y < 2 * p && BitOr(x / 2, y / 2) < p
    requires BitAnd(p - 1 - x / 2, p - 1 - y / 2) == p - 1 - BitOr(x / 2, y / 2)
    ensures BitAnd(2 * p - 1 - x, 2 * p - 1 - y) == 2 * p - 1 - BitOr(x, y)
  {
    ComplementHalves(p, x);
    ComplementHalves(p, y);
    AndHalves(2 * p - 1 - x, 2 * p - 1 - y);
    OrHalves(x, y);
  }

  lemma {:induction false} AndOfComplements(n: nat, x: nat, y: nat)
    requires x < Pow2(n) && y < Pow2(n)
    ensures BitOr(x, y) < Pow2(n)
    ensures BitAnd(Pow2(n) - 1 - x, Pow2(n) - 1 - y) == Pow2(n) - 1 - BitOr(x, y)
  {
    OrBelow(x, y, n);
    if n > 0 {
      HalfBelow(x, Pow2(n - 1));
      HalfBelow(y, Pow2(n - 1));
      AndOfComplements(n - 1, x / 2, y / 2);
      ComplementsDouble(Pow2(n - 1), x, y);
    }
  }

  /** The ones from bit `from` up to but not including bit `upto`, counted from the highest. */
  function Run(from: nat, upto: nat): Word
    requires from <= upto <= 32
  {
    Pow2Values(); Pow2Order(32 - upto, 32 - from); Pow2Order(32 - from, 32);
    Pow2(32 - from) - Pow2(32 - upto)
  }

  lemma NotOr(x: Word, y: Word)
    ensures BitAnd(Not(x), Not(y)) == Not(OrWord(x, y))
  {
    Pow2Values();
    AndOfComplements(32, x, y);
  }

  function BitWord(i: nat): Word
    requires i < 32
  {
    Pow2Values(); Pow2Order(31 - i, 31);
    Pow2(31 - i)
  }

  lemma RunExtends(from: nat, upto: nat)
    requires from <= upto < 32
    ensures OrWord(Run(from, upto), BitWord(upto)) == Run(from, upto + 1)
  {
    OrExtends(32 - from, 32 - upto);
  }

  /** `mask_value` of src/analysis/vm.rs, bit by bit as the source builds it. */
  method MaskValue(begin: nat, end: nat) returns (mask: Word)
    requires begin < 32 && end < 32
    ensures mask == Mask(begin, end)
  {
    if begin <= end {
      mask := SetBits(begin, end + 1);
    } else if begin == end + 1 {
      mask := MAX;
    } else {
      mask := ClearBits(end + 1, begin);
    }
  }

  method SetBits(from: nat, upto: nat) returns (mask: Word)
    requires from <= upto <= 32
    ensures mask == Run(from, upto)
  {
    mask := 0;
    for bit := from to upto
      invariant mask == Run(from, bit)
    {
      RunExtends(from, bit);
      mask := OrWord(mask, BitWord(bit));
    }
  }

  method ClearBits(from: nat, upto: nat) returns (mask: Word)
    requires from <= upto <= 32
    ensures mask == Not(Run(from, upto))
  {
    mask := MAX;
    for bit := from to upto
      invariant mask == Not(Run(from, bit))
    {
      RunExtends(from, bit);
      NotOr(Run(from, bit), BitWord(bit));
      mask := BitAnd(mask, Not(BitWord(bit)));
    }
  }

  function Shl(x: nat, n: nat): nat {
    if n == 0 then x else 2 * Shl(x, n - 1)
  }

  lemma {:induction false} ShlOrder(x: nat, y: nat, n: nat)
    requires x <= y
    ensures Shl(x, n) <= Shl(y, n)
  {
    if n > 0 { ShlOrder(x, y, n - 1); }
  }

  /** A rotate that pushes no set bit out is a shift. */
  lemma {:induction false} RotlIsShl(x: Word, n: nat)
    requires Shl(x, n) <= MAX
    ensures Rotl(x, n) == Shl(x, n)
  {
    if n > 0 {
      RotlIsShl(x, n - 1);
    }
  }

  lemma {:induction false} AndAll(x: nat, w: nat)
    requires x < Pow2(w)
    ensures BitAnd(x, Pow2(w) - 1) == x
  {
    if w > 0 { AndAll(x / 2, w - 1); }
  }

  lemma {:induction false} ShlUnmasked(x: nat, n: nat, w: nat)
    requires n <= w && Shl(x, n) < Pow2(w)
    ensures Pow2(n) <= Pow2(w) && BitAnd(Shl(x, n), Pow2(w) - Pow2(n)) == Shl(x, n)
    decreases n
  {
    Pow2Order(n, w);
    if n == 0 {
      AndAll(x, w);
    } else {
      ShlUnmasked(x, n - 1, w - 1);
    }
  }

  /** `slwi`: the rotate with mask `0 .. 31 - n` is the shift, on words that lose no bit. */
  lemma SlwiShifts(x: Word, n: nat)
    requires n < 32 && Shl(x, n) <= MAX
    ensures BitAnd(Rotl(x, n), Mask(0, 31 - n)) == Shl(x, n)
  {
    Pow2Values();
    RotlIsShl(x, n);
    ShlUnmasked(x, n, 32);
  }
}
