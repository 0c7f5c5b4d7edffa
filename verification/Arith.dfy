/**
 Natural numbers as machine words: remainders, powers of two, and bitwise AND and OR as arithmetic.
*/
module Arith {
  const U32 := 0x1_0000_0000

  function Pow2(k: nat): (r: nat)
    ensures r > 0
  {
    if k == 0 then 1 else 2 * Pow2(k - 1)
  }

  /** Bitwise AND of naturals. */
  function And(a: nat, b: nat): nat
    decreases a
  {
    if a == 0 then 0 else (if a % 2 == 1 && b % 2 == 1 then 1 else 0) + 2 * And(a / 2, b / 2)
  }

  // ---------- remainders ----------

  lemma ModIs(x: int, m: nat, q: int, r: nat)
    requires m > 0 && x == q * m + r && r < m
    ensures x % m == r
  {
    var q', r' := x / m, x % m;
    assert (q - q') * m == r' - r;
    if q > q' {
      assert (q - q') * m >= m by { MulMono(q - q', m); }
    } else if q < q' {
      assert (q' - q) * m >= m by { MulMono(q' - q, m); }
    }
  }

  lemma MulMono(a: int, m: nat)
    requires a >= 1
    ensures a * m >= m
  {
  }

  lemma ModAdd(x: int, y: int, m: nat)
    requires m > 0
    ensures (x % m + y) % m == (x + y) % m
  {
    var q, r := (x % m + y) / m, (x % m + y) % m;
    assert x + y == (x / m + q) * m + r;
    ModIs(x + y, m, x / m + q, r);
  }

  lemma ModSub(x: int, y: int, m: nat)
    requires m > 0
    ensures (x % m - y % m) % m == (x - y) % m
  {
    var q, r := (x % m - y % m) / m, (x % m - y % m) % m;
    assert x - y == (x / m - y / m + q) * m + r;
    ModIs(x - y, m, x / m - y / m + q, r);
  }

  lemma ModMod(x: int, a: nat, b: nat)
    requires a > 0 && b > 0
    ensures a * b > 0 && x % (a * b) % a == x % a
  {
    assert a * b > 0;
    var q, r := x / (a * b), x % (a * b);
    assert x == (q * b + r / a) * a + r % a;
    ModIs(x, a, q * b + r / a, r % a);
  }

  lemma ModSmall(x: nat, m: nat)
    requires x < m
    ensures x % m == x
  {
    ModIs(x, m, 0, x);
  }

  lemma {:induction false} Pow2Add(j: nat, k: nat)
    ensures Pow2(j + k) == Pow2(j) * Pow2(k)
  {
    if j > 0 {
      Pow2Add(j - 1, k);
    }
  }

  lemma {:induction false} AndMask(x: nat, k: nat)
    ensures And(x, Pow2(k) - 1) == x % Pow2(k)
    decreases k, x
  {
    var m := Pow2(k);
    if k == 0 {
      AndZero(x);
    } else if x == 0 {
      ModSmall(0, m);
    } else {
      var h := Pow2(k - 1);
      AndMask(x / 2, k - 1);
      assert (m - 1) % 2 == 1 && (m - 1) / 2 == h - 1;
      HalfMod(x, h);
    }
  }

  lemma HalfMod(x: nat, h: nat)
    requires h > 0
    ensures x % (2 * h) == x % 2 + 2 * (x / 2 % h)
  {
    var q, r := x / 2 / h, x / 2 % h;
    assert x / 2 == q * h + r;
    assert q * (2 * h) == 2 * (q * h);
    ModIs(x, 2 * h, q, 2 * r + x % 2);
  }

  lemma {:induction false} AndZero(x: nat)
    ensures And(x, 0) == 0
  {
    if x > 0 {
      AndZero(x / 2);
    }
  }

  lemma WordMod(x: int, k: nat)
    requires k <= 32
    ensures x % U32 % Pow2(k) == x % Pow2(k)
  {
    Pow2Add(k, 32 - k);
    Pow2Of32();
    ModMod(x, Pow2(k), Pow2(32 - k));
  }

  lemma Pow2Of32()
    ensures Pow2(32) == U32
  {
    assert Pow2(8) == 256;
    Pow2Add(8, 8);
    Pow2Add(16, 16);
  }

  lemma SmallPowers()
    ensures Pow2(0) == 1 && Pow2(1) == 2 && Pow2(2) == 4 && Pow2(3) == 8 && Pow2(4) == 16
    ensures Pow2(5) == 32 && Pow2(6) == 64 && Pow2(7) == 128 && Pow2(14) == 0x4000 && Pow2(31) == 0x8000_0000
  {
    Pow2Of32();
    Pow2Add(7, 7);
    assert Pow2(32) == 2 * Pow2(31);
  }

  lemma ModComplement(x: int, m: nat)
    requires m > 0
    ensures (-x - 1) % m == m - 1 - x % m
  {
    var q, r := x / m, x % m;
    assert (-q - 1) * m == -(q * m) - m;
    ModIs(-x - 1, m, -q - 1, m - 1 - r);
  }

  lemma InRange(x: int, m: nat)
    requires m > 0 && 0 - m <= x < 2 * m
    ensures x % m == if x < 0 then x + m else if x < m then x else x - m
  {
    if x < 0 {
      ModIs(x, m, -1, x + m);
    } else if x < m {
      ModIs(x, m, 0, x);
    } else {
      ModIs(x, m, 1, x - m);
    }
  }

  // ---------- bit fields ----------

  /** Bitwise OR of naturals. */
  function Or(a: nat, b: nat): nat
    decreases a + b
  {
    if a == 0 && b == 0 then 0 else (if a % 2 == 1 || b % 2 == 1 then 1 else 0) + 2 * Or(a / 2, b / 2)
  }

  lemma {:induction false} OrZero(y: nat)
    ensures Or(0, y) == y && Or(y, 0) == y
  {
    if y > 0 {
      OrZero(y / 2);
    }
  }

  /** OR of a shifted value and one that fits below it is their sum. */
  lemma {:induction false} OrDisjoint(x: nat, y: nat, s: nat)
    requires y < Pow2(s)
    ensures Or(x * Pow2(s), y) == x * Pow2(s) + y
    decreases s
  {
    if s == 0 {
      OrZero(x);
    } else {
      var h := Pow2(s - 1);
      OrDisjoint(x, y / 2, s - 1);
      Doubled(x, h);
      OrStep(x * h, y);
    }
  }

  lemma Doubled(x: nat, h: nat)
    ensures x * (2 * h) == 2 * (x * h)
  {
  }

  lemma OrStep(a: nat, y: nat)
    ensures Or(2 * a, y) == y % 2 + 2 * Or(a, y / 2)
  {
    if a == 0 && y == 0 {
      assert Or(0, 0) == 0;
    }
  }

  lemma DivNonNegative(x: nat, m: nat)
    requires m > 0
    ensures x / m >= 0
  {
    var q := x / m;
    if q < 0 {
      MulMono(-q, m);
    }
  }

  lemma Packed(x: nat, y: nat, m: nat)
    requires y < m
    ensures (x * m + y) / m == x && (x * m + y) % m == y
  {
    ModIs(x * m + y, m, x, y);
    var q := (x * m + y) / m;
    assert (q - x) * m == 0;
    if q > x {
      MulMono(q - x, m);
    } else if q < x {
      MulMono(x - q, m);
    }
  }

  lemma PairOrder(x1: nat, y1: nat, x2: nat, y2: nat, m: nat)
    requires y1 < m && y2 < m
    ensures x1 * m + y1 < x2 * m + y2 <==> x1 < x2 || (x1 == x2 && y1 < y2)
  {
    assert (x2 - x1) * m == x2 * m - x1 * m;
    if x1 < x2 {
      MulMono(x2 - x1, m);
    } else if x1 > x2 {
      MulMono(x1 - x2, m);
    }
  }
}
