/**
 The CRC-32 of the SWD flash driver (Doc/W60X_QFLASH_Driver_for_SWD/W60X_QFlash/FlashPrg.c).

 The driver keeps the remainder reflected in a 32-bit word: bit 0 is the coefficient of the
 highest power. `Crc` is the word fed one message bit at a time; it is tied to long division in
 `CrcIsLongDivision`.
*/
module CrcWord {
  import opened Gf2
  import opened Words

  const POLY: bv32 := 0xEDB88320

  const SEED: bv32 := 0xFFFFFFFF

  // ---------- the word, one bit at a time ----------

  function BitStep(s: bv32): bv32 {
    if Odd(s) then Sum(Half(s), POLY) else Half(s)
  }

  function BitIn(s: bv32, b: bool): bv32 {
    BitStep(if b then Sum(s, 1) else s)
  }

  function Serial(s: bv32, bits: seq<bool>): bv32
    decreases |bits|
  {
    if bits == [] then s else Serial(BitIn(s, bits[0]), bits[1..])
  }

  /** The bits of a byte in the order they enter the register: least significant first. */
  function ByteBits(b: bv8): (r: seq<bool>)
    ensures |r| == 8
  {
    LeadingBits(b as bv32, 8)
  }

  function MessageBits(buf: seq<bv8>): (r: seq<bool>)
    ensures |r| == 8 * |buf|
  {
    if buf == [] then [] else ByteBits(buf[0]) + MessageBits(buf[1..])
  }

  /** The checksum of a buffer from a start value. */
  function Crc(s: bv32, buf: seq<bv8>): bv32 {
    Serial(s, MessageBits(buf))
  }

  lemma {:induction false} SerialConcat(s: bv32, a: seq<bool>, b: seq<bool>)
    ensures Serial(s, a + b) == Serial(Serial(s, a), b)
    decreases |a|
  {
    hide BitIn;
    if a == [] {
      assert a + b == b;
    } else {
      assert (a + b)[1..] == a[1..] + b;
      SerialConcat(BitIn(s, a[0]), a[1..], b);
    }
  }

  lemma {:induction false} MessageBitsConcat(a: seq<bv8>, b: seq<bv8>)
    ensures MessageBits(a + b) == MessageBits(a) + MessageBits(b)
  {
    hide ByteBits;
    if a == [] {
      assert a + b == b;
    } else {
      assert (a + b)[1..] == a[1..] + b;
      MessageBitsConcat(a[1..], b);
    }
  }

  lemma CrcConcat(s: bv32, a: seq<bv8>, b: seq<bv8>)
    ensures Crc(s, a + b) == Crc(Crc(s, a), b)
  {
    hide Serial, MessageBits;
    MessageBitsConcat(a, b);
    SerialConcat(s, MessageBits(a), MessageBits(b));
  }

  // ---------- the word is the division register ----------

  function WordBits(w: bv32): Register {
    LeadingBits(w, 32)
  }

  lemma WordBitsSum(v: bv32, w: bv32)
    ensures WordBits(Sum(v, w)) == Xor(WordBits(v), WordBits(w))
  {
    hide Bit, Sum;
    forall i: nat | i < 32 ensures Bit(Sum(v, w), i) == (Bit(v, i) != Bit(w, i)) {
      BitSum(v, w, i);
    }
  }

  lemma WordBitsHalf(w: bv32)
    ensures WordBits(Half(w)) == WordBits(w)[1..] + [false]
  {
    hide Half, Odd;
    TopBitOfHalf(w);
    forall i: nat | i < 31 ensures Bit(Half(w), i) == Bit(w, i + 1) {
    }
  }

  lemma PolyBits(i: nat)
    requires i < 32
    ensures Bit(POLY, i) == Generator()[i]
  {
    hide Bit;
    if i >= 8 { BitByteUp(POLY, i); }
    if i >= 16 { BitByteUp(0xEDB883, i - 8); }
    if i >= 24 { BitByteUp(0xEDB8, i - 16); }
    LowBits(POLY);
    LowBits(0xEDB883);
    LowBits(0xEDB8);
    LowBits(0xED);
  }

  lemma PolyIsGenerator()
    ensures WordBits(POLY) == Generator()
  {
    hide Bit, Generator;
    forall i: nat | i < 32 ensures Bit(POLY, i) == Generator()[i] {
      PolyBits(i);
    }
  }

  lemma BitInIsShift(s: bv32, b: bool)
    ensures WordBits(BitIn(s, b)) == Shift(WordBits(s), b)
  {
    var s' := if b then Sum(s, 1) else s;
    assert Half(s') == Half(s) && Odd(s') == (Odd(s) != b);
    hide Half, Odd, Sum, Generator;
    assert WordBits(s)[0] == Odd(s);
    WordBitsHalf(s);
    WordBitsSum(Half(s), POLY);
    PolyIsGenerator();
  }

  lemma {:induction false} SerialIsFeed(s: bv32, bits: seq<bool>)
    ensures WordBits(Serial(s, bits)) == Feed(WordBits(s), bits)
    decreases |bits|
  {
    hide BitIn, WordBits;
    if bits != [] {
      BitInIsShift(s, bits[0]);
      SerialIsFeed(BitIn(s, bits[0]), bits[1..]);
    }
  }

  /** The checksum is the remainder of long division, whatever the buffer and the start value. */
  lemma CrcIsLongDivision(s: bv32, buf: seq<bv8>)
    ensures WordBits(Crc(s, buf)) == Remainder(Xor(MessageBits(buf) + Zeros(32), WordBits(s)))
  {
    hide Serial, MessageBits, WordBits;
    SerialIsFeed(s, MessageBits(buf));
    FeedIsRemainder(WordBits(s), MessageBits(buf));
  }

  // ---------- a word feeds itself out ----------

  lemma LowByteBits(x: bv32)
    ensures ByteBits(LowByte(x)) == LeadingBits(x, 8)
  {
    hide Bit;
    LowBits(x);
    LowBits(LowByte(x) as bv32);
    var p, q := ByteBits(LowByte(x)), LeadingBits(x, 8);
    assert p[0] == q[0] && p[1] == q[1] && p[2] == q[2] && p[3] == q[3];
    assert p[4] == q[4] && p[5] == q[5] && p[6] == q[6] && p[7] == q[7];
  }

  lemma OwnBit(s: bv32)
    ensures BitIn(s, Odd(s)) == Half(s)
  {
  }

  lemma {:induction false} OwnBits(s: bv32, n: nat)
    ensures Serial(s, LeadingBits(s, n)) == Shr(s, n)
    decreases n
  {
    hide BitIn, Half, Odd;
    if n > 0 {
      var bits := LeadingBits(s, n);
      OwnBit(s);
      assert bits[0] == Bit(s, 0) && bits[1..] == LeadingBits(Half(s), n - 1);
      OwnBits(Half(s), n - 1);
    }
  }

  /** Fed with the bits of a word, the register ends at 0 exactly when it held that word. */
  lemma WordCancels(s: bv32, w: bv32)
    ensures Serial(s, LeadingBits(w, 32)) == 0 <==> s == w
  {
    hide Serial, LeadingBits;
    OwnBits(w, 32);
    ShrOut(w);
    SerialInjective(s, w, LeadingBits(w, 32));
  }

  // ---------- what the checksum tells apart ----------

  lemma BitStepInjective(s: bv32, t: bv32)
    ensures BitStep(s) == BitStep(t) <==> s == t
  {
  }

  lemma SumInjective(s: bv32, t: bv32)
    ensures Sum(s, 1) == Sum(t, 1) <==> s == t
  {
  }

  lemma BitInInjective(s: bv32, t: bv32, b: bool)
    ensures BitIn(s, b) == BitIn(t, b) <==> s == t
  {
    hide BitStep, Sum;
    BitStepInjective(if b then Sum(s, 1) else s, if b then Sum(t, 1) else t);
    SumInjective(s, t);
  }

  lemma {:induction false} SerialInjective(s: bv32, t: bv32, bits: seq<bool>)
    ensures Serial(s, bits) == Serial(t, bits) <==> s == t
    decreases |bits|
  {
    hide BitIn;
    if bits != [] {
      BitInInjective(s, t, bits[0]);
      SerialInjective(BitIn(s, bits[0]), BitIn(t, bits[0]), bits[1..]);
    }
  }

  /** For a fixed message the checksum is a bijection of the start value. */
  lemma CrcInjective(s: bv32, t: bv32, buf: seq<bv8>)
    ensures Crc(s, buf) == Crc(t, buf) <==> s == t
  {
    SerialInjective(s, t, MessageBits(buf));
  }

  lemma ByteBitsInjective(a: bv8, b: bv8)
    requires ByteBits(a) == ByteBits(b)
    ensures a == b
  {
    hide Bit;
    var x, y := ByteBits(a), ByteBits(b);
    assert x[0] == y[0] && x[1] == y[1] && x[2] == y[2] && x[3] == y[3];
    assert x[4] == y[4] && x[5] == y[5] && x[6] == y[6] && x[7] == y[7];
    LowBits(a as bv32);
    LowBits(b as bv32);
  }

  lemma {:induction false} MessageBitsInjective(a: seq<bv8>, b: seq<bv8>)
    requires MessageBits(a) == MessageBits(b)
    ensures a == b
  {
    hide ByteBits;
    assert |a| == |b|;
    if a != [] {
      var x, y := MessageBits(a), MessageBits(b);
      assert x[..8] == ByteBits(a[0]) && y[..8] == ByteBits(b[0]);
      assert x[8..] == MessageBits(a[1..]) && y[8..] == MessageBits(b[1..]);
      ByteBitsInjective(a[0], b[0]);
      MessageBitsInjective(a[1..], b[1..]);
      assert a == [a[0]] + a[1..] && b == [b[0]] + b[1..];
    }
  }

  /** `a` and `b` carry the same bits except, possibly, in the 32 bits from position `p`. */
  ghost predicate DifferInBurst(a: seq<bv8>, b: seq<bv8>, p: nat) {
    && |a| == |b|
    && forall i :: 0 <= i < 8 * |a| && !(p <= i < p + 32) ==> MessageBits(a)[i] == MessageBits(b)[i]
  }

  /** Two different buffers that differ in one burst of up to 32 bits never share a checksum. */
  lemma BurstDetected(s: bv32, a: seq<bv8>, b: seq<bv8>, p: nat)
    requires a != b && DifferInBurst(a, b, p)
    ensures Crc(s, a) != Crc(s, b)
  {
    hide Serial, MessageBits, WordBits, Feed;
    var x, y := MessageBits(a), MessageBits(b);
    var n := |x|;
    var from := if p < n then p else n;
    var to := if p + 32 < n then p + 32 else n;
    if x == y {
      MessageBitsInjective(a, b);
      assert false;
    }
    assert x == x[..from] + x[from..to] + x[to..];
    assert y == x[..from] + y[from..to] + x[to..];
    SerialIsFeed(s, x);
    SerialIsFeed(s, y);
    BurstChangesRegister(WordBits(s), x[..from], x[from..to], y[from..to], x[to..]);
  }

  lemma {:induction false} MessageBitAt(buf: seq<bv8>, i: nat)
    requires i < 8 * |buf|
    ensures MessageBits(buf)[i] == ByteBits(buf[i / 8])[i % 8]
  {
    hide ByteBits;
    if i >= 8 {
      MessageBitAt(buf[1..], i - 8);
      assert buf[1..][(i - 8) / 8] == buf[i / 8];
    }
  }

  /** In bytes: a change confined to four consecutive bytes, of any kind, is always detected. */
  lemma FourByteChangeDetected(s: bv32, a: seq<bv8>, b: seq<bv8>, k: nat)
    requires |a| == |b| && a != b
    requires forall i :: 0 <= i < |a| && !(k <= i < k + 4) ==> a[i] == b[i]
    ensures Crc(s, a) != Crc(s, b)
  {
    hide Serial, MessageBits, ByteBits;
    forall i | 0 <= i < 8 * |a| && !(8 * k <= i < 8 * k + 32) ensures MessageBits(a)[i] == MessageBits(b)[i] {
      MessageBitAt(a, i);
      MessageBitAt(b, i);
    }
    BurstDetected(s, a, b, 8 * k);
  }
}
