/**
 Bit strings as polynomials over GF(2), the coefficient of the highest power first, and
 division by the CRC-32 generator (section 8 of RFC 1952). `Remainder` is schoolbook long
 division; `Feed` is the 32-bit shift register that takes the dividend one bit at a time.
*/
module Gf2 {

  /** The generator is x^32 plus these powers of x. */
  const EXPONENTS: set<nat> := {26, 23, 22, 16, 12, 11, 10, 8, 7, 5, 4, 2, 1, 0}

  type Register = r: seq<bool> | |r| == 32 witness seq(32, i => false)

  function Generator(): Register {
    seq(32, i => 31 - i in EXPONENTS)
  }

  function Zeros(n: nat): (r: seq<bool>)
    ensures |r| == n && forall i :: 0 <= i < n ==> !r[i]
  {
    seq(n, i => false)
  }

  /** Adds `b` to the leading coefficients of `a`. */
  function Xor(a: seq<bool>, b: seq<bool>): (r: seq<bool>)
    requires |b| <= |a|
    ensures |r| == |a|
    ensures forall i :: 0 <= i < |a| ==> r[i] == if i < |b| then a[i] != b[i] else a[i]
  {
    seq(|a|, i requires 0 <= i < |a| => if i < |b| then a[i] != b[i] else a[i])
  }

  /** Long division: cancel the leading term with the generator until 32 coefficients remain. */
  function Remainder(dividend: seq<bool>): Register
    requires |dividend| >= 32
    decreases |dividend|
  {
    if |dividend| == 32 then dividend
    else if dividend[0] then Remainder(Xor(dividend[1..], Generator()))
    else Remainder(dividend[1..])
  }

  function Shift(r: Register, b: bool): Register {
    if r[0] != b then Xor(r[1..] + [false], Generator()) else r[1..] + [false]
  }

  function Feed(r: Register, bits: seq<bool>): Register
    decreases |bits|
  {
    if bits == [] then r else Feed(Shift(r, bits[0]), bits[1..])
  }

  /** The register computes the remainder of message * x^32, its start value added to the leading bits. */
  lemma {:induction false} FeedIsRemainder(r: Register, message: seq<bool>)
    ensures Feed(r, message) == Remainder(Xor(message + Zeros(32), r))
    decreases |message|
  {
    var dividend := Xor(message + Zeros(32), r);
    if message == [] {
      assert dividend == r;
    } else {
      var rest := message[1..] + Zeros(32);
      assert dividend[1..] == Xor(rest, r[1..] + [false]);
      if r[0] != message[0] {
        assert Xor(dividend[1..], Generator()) == Xor(rest, Shift(r, message[0]));
      }
      FeedIsRemainder(Shift(r, message[0]), message[1..]);
    }
  }

  lemma {:induction false} FeedConcat(r: Register, a: seq<bool>, b: seq<bool>)
    ensures Feed(r, a + b) == Feed(Feed(r, a), b)
    decreases |a|
  {
    if a == [] {
      assert a + b == b;
    } else {
      assert (a + b)[1..] == a[1..] + b;
      FeedConcat(Shift(r, a[0]), a[1..], b);
    }
  }

  lemma {:induction false} FeedLinear(r: Register, t: Register, a: seq<bool>, b: seq<bool>)
    requires |a| == |b|
    ensures Feed(Xor(r, t), Xor(a, b)) == Xor(Feed(r, a), Feed(t, b))
    decreases |a|
  {
    if a != [] {
      assert Shift(Xor(r, t), Xor(a, b)[0]) == Xor(Shift(r, a[0]), Shift(t, b[0]));
      assert Xor(a, b)[1..] == Xor(a[1..], b[1..]);
      FeedLinear(Shift(r, a[0]), Shift(t, b[0]), a[1..], b[1..]);
    }
  }

  lemma ShiftInjective(r: Register, t: Register, b: bool)
    requires Shift(r, b) == Shift(t, b)
    ensures r == t
  {
    // The generator has a constant term, so the last coefficient tells the two cases apart.
    var x, y := Shift(r, b), Shift(t, b);
    assert x[31] == (r[0] != b) && y[31] == (t[0] != b);
    forall i | 0 < i < 32 ensures r[i] == t[i] {
      assert x[i - 1] == if r[0] != b then r[i] != Generator()[i - 1] else r[i];
      assert y[i - 1] == if t[0] != b then t[i] != Generator()[i - 1] else t[i];
    }
  }

  lemma {:induction false} FeedInjective(r: Register, t: Register, bits: seq<bool>)
    requires Feed(r, bits) == Feed(t, bits)
    ensures r == t
    decreases |bits|
  {
    if bits != [] {
      FeedInjective(Shift(r, bits[0]), Shift(t, bits[0]), bits[1..]);
      ShiftInjective(r, t, bits[0]);
    }
  }

  /** Up to 32 bits can be added to the register at once and then shifted through. */
  lemma {:induction false} Absorb(r: Register, bits: seq<bool>)
    requires |bits| <= 32
    ensures Feed(r, bits) == Feed(Xor(r, bits), Zeros(|bits|))
    decreases |bits|
  {
    if bits == [] {
      assert Xor(r, bits) == r;
    } else {
      var s := Xor(r, bits);
      assert Zeros(|bits|)[1..] == Zeros(|bits| - 1);
      assert Shift(s, false) == Xor(Shift(r, bits[0]), bits[1..]);
      Absorb(Shift(r, bits[0]), bits[1..]);
    }
  }

  /** Every error burst of at most 32 bits changes the register, wherever it falls in the message. */
  lemma BurstChangesRegister(r: Register, before: seq<bool>, x: seq<bool>, y: seq<bool>, after: seq<bool>)
    requires |x| == |y| <= 32 && x != y
    ensures Feed(r, before + x + after) != Feed(r, before + y + after)
  {
    FeedConcat(r, before + x, after);
    FeedConcat(r, before + y, after);
    FeedConcat(r, before, x);
    FeedConcat(r, before, y);
    if Feed(r, before + x + after) == Feed(r, before + y + after) {
      var s := Feed(r, before);
      FeedInjective(Feed(s, x), Feed(s, y), after);
      Absorb(s, x);
      Absorb(s, y);
      FeedInjective(Xor(s, x), Xor(s, y), Zeros(|x|));
      forall i | 0 <= i < |x| ensures x[i] == y[i] {
        assert Xor(s, x)[i] == Xor(s, y)[i];
      }
      assert false;
    }
  }
}
