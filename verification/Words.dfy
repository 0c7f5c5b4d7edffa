/**
 Bits of 32-bit words. Word operations have names, so that proofs can hide their bit-level meaning and
 reason bit by bit.
*/
module Words {
  function Sum(a: bv32, b: bv32): bv32 { a ^ b }
  function And32(a: bv32, b: bv32): bv32 { a & b }
  function AndNot(a: bv32, b: bv32): bv32 { a & !b }
  function Or32(a: bv32, b: bv32): bv32 { a | b }
  predicate Odd(a: bv32) { a & 1 == 1 }
  function Half(a: bv32): bv32 { a >> 1 }
  function LowByte(x: bv32): bv8 { (x & 0xff) as bv8 }

  /** Bit `i` of a word, the lowest first. */
  function Bit(w: bv32, i: nat): bool
    decreases i
  {
    if i == 0 then Odd(w) else Bit(Half(w), i - 1)
  }

  function LeadingBits(w: bv32, n: nat): (r: seq<bool>)
    ensures |r| == n && forall i: nat :: i < n ==> r[i] == Bit(w, i)
  {
    seq(n, i requires 0 <= i < n => Bit(w, i))
  }

  lemma SumHalf(s: bv32, t: bv32)
    ensures Half(Sum(s, t)) == Sum(Half(s), Half(t)) && Odd(Sum(s, t)) == (Odd(s) != Odd(t))
  {
  }

  lemma {:induction false} BitSum(v: bv32, w: bv32, i: nat)
    ensures Bit(Sum(v, w), i) == (Bit(v, i) != Bit(w, i))
    decreases i
  {
    hide Sum, Half, Odd;
    SumHalf(v, w);
    if i > 0 {
      BitSum(Half(v), Half(w), i - 1);
    }
  }

  function Half8(w: bv32): bv32 {
    Half(Half(Half(Half(Half(Half(Half(Half(w))))))))
  }

  lemma BitUpTwo(w: bv32, i: nat)
    requires i >= 2
    ensures Bit(w, i) == Bit(Half(Half(w)), i - 2)
  {
    hide Half, Odd;
  }

  lemma BitByteUp(w: bv32, i: nat)
    requires i >= 8
    ensures Bit(w, i) == Bit(Half8(w), i - 8)
  {
    hide Half, Odd, Bit;
    var w2 := Half(Half(w));
    var w4 := Half(Half(w2));
    var w6 := Half(Half(w4));
    BitUpTwo(w, i);
    BitUpTwo(w2, i - 2);
    BitUpTwo(w4, i - 4);
    BitUpTwo(w6, i - 6);
  }

  lemma LowTwoBits(w: bv32)
    ensures Bit(w, 0) == Odd(w) && Bit(w, 1) == Odd(Half(w))
  {
    hide Half, Odd;
  }

  lemma LowBits(w: bv32)
    ensures Bit(w, 0) == Odd(w)
    ensures Bit(w, 1) == Odd(Half(w))
    ensures Bit(w, 2) == Odd(Half(Half(w)))
    ensures Bit(w, 3) == Odd(Half(Half(Half(w))))
    ensures Bit(w, 4) == Odd(Half(Half(Half(Half(w)))))
    ensures Bit(w, 5) == Odd(Half(Half(Half(Half(Half(w))))))
    ensures Bit(w, 6) == Odd(Half(Half(Half(Half(Half(Half(w)))))))
    ensures Bit(w, 7) == Odd(Half(Half(Half(Half(Half(Half(Half(w))))))))
  {
    hide Half, Odd, Bit;
    var w2 := Half(Half(w));
    var w4 := Half(Half(w2));
    var w6 := Half(Half(w4));
    LowTwoBits(w);
    LowTwoBits(w2);
    LowTwoBits(w4);
    LowTwoBits(w6);
    BitUpTwo(w, 2);
    BitUpTwo(w, 3);
    BitUpTwo(w, 4);
    BitUpTwo(w, 5);
    BitUpTwo(w, 6);
    BitUpTwo(w, 7);
    BitUpTwo(w2, 2);
    BitUpTwo(w2, 3);
    BitUpTwo(w2, 4);
    BitUpTwo(w2, 5);
    BitUpTwo(w4, 2);
    BitUpTwo(w4, 3);
  }

  lemma HalfOut(w: bv32)
    ensures Half8(Half8(Half8(Half8(w)))) == 0 && !Odd(0)
  {
  }

  lemma TopBitOfHalf(w: bv32)
    ensures !Bit(Half(w), 31)
  {
    hide Half, Half8, Odd;
    var w1, w2, w3 := Half8(w), Half8(Half8(w)), Half8(Half8(Half8(w)));
    BitByteUp(w, 32);
    BitByteUp(w1, 24);
    BitByteUp(w2, 16);
    BitByteUp(w3, 8);
    HalfOut(w);
    assert Bit(w, 32) == Bit(Half(w), 31);
  }

  // ---------- bitwise operations ----------

  lemma OddAnd(a: bv32, b: bv32)
    ensures Odd(And32(a, b)) == (Odd(a) && Odd(b))
  {
  }

  lemma HalfAnd(a: bv32, b: bv32)
    ensures Half(And32(a, b)) == And32(Half(a), Half(b))
  {
  }

  lemma OddAndNot(a: bv32, b: bv32)
    ensures Odd(AndNot(a, b)) == (Odd(a) && !Odd(b))
  {
  }

  lemma HalfAndNot(a: bv32, b: bv32)
    ensures Half(AndNot(a, b)) == AndNot(Half(a), Half(b))
  {
  }

  lemma {:induction false} BitAnd(a: bv32, b: bv32, i: nat)
    ensures Bit(And32(a, b), i) == (Bit(a, i) && Bit(b, i))
    decreases i
  {
    hide Half, Odd, And32;
    OddAnd(a, b);
    HalfAnd(a, b);
    if i > 0 {
      BitAnd(Half(a), Half(b), i - 1);
    }
  }

  lemma {:induction false} BitAndNot(a: bv32, b: bv32, i: nat)
    ensures Bit(AndNot(a, b), i) == (Bit(a, i) && !Bit(b, i))
    decreases i
  {
    hide Half, Odd, AndNot;
    OddAndNot(a, b);
    HalfAndNot(a, b);
    if i > 0 {
      BitAndNot(Half(a), Half(b), i - 1);
    }
  }

  lemma OrHalf(a: bv32, b: bv32)
    ensures Odd(Or32(a, b)) == (Odd(a) || Odd(b)) && Half(Or32(a, b)) == Or32(Half(a), Half(b))
  {
  }

  lemma {:induction false} BitOr(a: bv32, b: bv32, i: nat)
    ensures Bit(Or32(a, b), i) == (Bit(a, i) || Bit(b, i))
    decreases i
  {
    hide Half, Odd, Or32;
    OrHalf(a, b);
    if i > 0 {
      BitOr(Half(a), Half(b), i - 1);
    }
  }

  lemma {:induction false} NoBits(j: nat)
    ensures !Bit(0, j)
  {
    assert Half(0) == 0 && !Odd(0);
    hide Half, Odd;
    if j > 0 {
      NoBits(j - 1);
    }
  }

  // ---------- repeated shifts ----------

  function Shr(w: bv32, n: nat): bv32
    decreases n
  {
    if n == 0 then w else Shr(Half(w), n - 1)
  }

  lemma ShrByte(w: bv32)
    ensures Shr(w, 8) == Half8(w)
  {
    hide Half;
    var w3 := Half(Half(Half(w)));
    var w6 := Half(Half(Half(w3)));
    assert Shr(w, 8) == Shr(w3, 5) == Shr(w6, 2);
  }

  lemma {:induction false} BitOfShr(x: bv32, m: nat, j: nat)
    ensures Bit(Shr(x, m), j) == Bit(x, j + m)
    decreases m
  {
    hide Half, Odd;
    if m > 0 {
      BitOfShr(Half(x), m - 1, j);
    }
  }

  lemma ShrByteUp(x: bv32, n: nat)
    requires n >= 8
    ensures Shr(x, n) == Shr(Half8(x), n - 8)
  {
    hide Half;
    var x2 := Half(Half(x));
    var x4 := Half(Half(x2));
    var x6 := Half(Half(x4));
    assert Shr(x, n) == Shr(x2, n - 2) == Shr(x4, n - 4) == Shr(x6, n - 6) == Shr(Half8(x), n - 8);
  }

  lemma {:induction false} ShrHalf(x: bv32, m: nat)
    ensures Shr(x, m + 1) == Half(Shr(x, m))
    decreases m
  {
    hide Half;
    if m > 0 {
      ShrHalf(Half(x), m - 1);
    }
  }

  lemma ShrOut(w: bv32)
    ensures Shr(w, 32) == 0
  {
    hide Shr, Half8;
    var w1, w2, w3 := Half8(w), Half8(Half8(w)), Half8(Half8(Half8(w)));
    ShrByteUp(w, 32);
    ShrByteUp(w1, 24);
    ShrByteUp(w2, 16);
    ShrByte(w3);
    HalfOut(w);
  }

  lemma SameHalves(v: bv32, w: bv32)
    requires Half(v) == Half(w) && Odd(v) == Odd(w)
    ensures v == w
  {
  }

  lemma {:induction false} BitsDetermine(v: bv32, w: bv32, n: nat)
    requires Shr(v, n) == Shr(w, n)
    requires forall i: nat :: i < n ==> Bit(v, i) == Bit(w, i)
    ensures v == w
    decreases n
  {
    hide Half, Odd;
    if n > 0 {
      forall i: nat | i < n - 1 ensures Bit(Half(v), i) == Bit(Half(w), i) {
        assert Bit(v, i + 1) == Bit(w, i + 1);
      }
      BitsDetermine(Half(v), Half(w), n - 1);
      assert Bit(v, 0) == Bit(w, 0);
      SameHalves(v, w);
    }
  }

  /** A word is determined by its 32 bits. */
  lemma BitsInjective(v: bv32, w: bv32)
    requires LeadingBits(v, 32) == LeadingBits(w, 32)
    ensures v == w
  {
    hide Bit, Shr;
    ShrOut(v);
    ShrOut(w);
    forall i: nat | i < 32 ensures Bit(v, i) == Bit(w, i) {
      assert LeadingBits(v, 32)[i] == LeadingBits(w, 32)[i];
    }
    BitsDetermine(v, w, 32);
  }

  lemma {:induction false} BitBeyond(w: bv32, j: nat)
    requires j >= 32
    ensures !Bit(w, j)
    decreases j
  {
    hide Half, Odd;
    TopBitOfHalf(w);
    if j == 32 {
      assert Bit(w, 32) == Bit(Half(w), 31);
    } else {
      BitBeyond(Half(w), j - 1);
    }
  }

  // ---------- 1 << k as an int, widened ----------

  function Twice(a: bv64): bv64 { a << 1 }

  function Low(a: bv64): bv32 { (a & 0xffff_ffff) as bv32 }

  function High(a: bv64): bv32 { (a >> 32) as bv32 }

  /** `1 << k` in a 32-bit int, then widened to 64 bits: bit 31 is the sign and is extended. */
  function IntShift(k: nat): bv64
    requires k < 32
  {
    if k == 0 then 1 else if k == 31 then 0xffff_ffff_8000_0000 else Twice(IntShift(k - 1))
  }

  lemma TopBit(j: nat)
    requires j < 32
    ensures Bit(0x8000_0000, j) == (j == 31)
  {
    hide Bit;
    if j >= 8 { BitByteUp(0x8000_0000, j); }
    if j >= 16 { BitByteUp(0x80_0000, j - 8); }
    if j >= 24 { BitByteUp(0x8000, j - 16); }
    LowBits(0x8000_0000);
    LowBits(0x80_0000);
    LowBits(0x8000);
    LowBits(0x80);
  }

  lemma ShrTop31()
    ensures Shr(0x8000_0000, 31) == 1
  {
    assert Half8(0x8000_0000) == 0x80_0000 && Half8(0x80_0000) == 0x8000 && Half8(0x8000) == 0x80;
    ShrByteUp(0x8000_0000, 31);
    ShrByteUp(0x80_0000, 23);
    ShrByteUp(0x8000, 15);
    assert Shr(0x80, 7) == Shr(0x40, 6) == Shr(0x20, 5) == Shr(0x10, 4);
    assert Shr(0x10, 4) == Shr(8, 3) == Shr(4, 2) == Shr(2, 1) == Shr(1, 0);
  }

  lemma LowEnds()
    ensures Low(1) == 1 && Low(0) == 0 && Low(0xffff_ffff_8000_0000) == 0x8000_0000
  {
  }

  lemma LowDouble(a: bv64)
    ensures Low(a << 1) == Low(a) + Low(a)
  {
  }

  lemma LowTwice(a: bv64)
    ensures Low(Twice(a)) == Low(a) + Low(a)
  {
    LowDouble(a);
  }

  lemma TwiceHalf(x: bv32)
    requires !Odd(x)
    ensures Half(x) + Half(x) == x
  {
  }

  lemma {:induction false} IntShiftLow(k: nat)
    requires k < 32
    ensures Low(IntShift(k)) == Shr(0x8000_0000, 31 - k)
  {
    hide Low, Half, Odd, Twice;
    LowEnds();
    if k == 0 {
      ShrTop31();
    } else if k < 31 {
      IntShiftLow(k - 1);
      var x := Shr(0x8000_0000, 31 - k);
      ShrHalf(0x8000_0000, 31 - k);
      BitOfShr(0x8000_0000, 31 - k, 0);
      TopBit(31 - k);
      LowTwice(IntShift(k - 1));
      TwiceHalf(x);
    }
  }

  lemma IntShiftBit(k: nat, j: nat)
    requires k < 32 && j < 32
    ensures Bit(Low(IntShift(k)), j) == (j == k)
  {
    hide Low, IntShift, Shr, Bit;
    IntShiftLow(k);
    BitOfShr(0x8000_0000, 31 - k, j);
    if j + 31 - k < 32 {
      TopBit(j + 31 - k);
    } else {
      BitBeyond(0x8000_0000, j + 31 - k);
    }
  }

  lemma HighTwice(a: bv64, x: bv32)
    requires Low(a) == Half(x) && High(a) == 0
    ensures High(Twice(a)) == 0
  {
  }

  lemma HighEnds()
    ensures High(1) == 0 && High(0) == 0 && High(0xffff_ffff_8000_0000) == 0xffff_ffff
    ensures Or32(0, 0) == 0 && Or32(0xffff_ffff, 0) == 0xffff_ffff
  {
  }

  lemma {:induction false} IntShiftHigh(k: nat)
    requires k < 32
    ensures High(IntShift(k)) == if k == 31 then 0xffff_ffff else 0
  {
    hide Low, High, Half, Odd, Twice;
    HighEnds();
    if 0 < k < 31 {
      IntShiftHigh(k - 1);
      IntShiftLow(k - 1);
      ShrHalf(0x8000_0000, 31 - k);
      HighTwice(IntShift(k - 1), Shr(0x8000_0000, 31 - k));
    }
  }
}
