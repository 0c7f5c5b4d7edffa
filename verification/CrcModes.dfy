/**
 The checksum entry points of the flash driver: Reflect, crc32 and the mode handling of get_crc32
 (Doc/W60X_QFLASH_Driver_for_SWD/W60X_QFlash/FlashPrg.c:80-120).
*/
module CrcModes {
  import opened Gf2
  import opened CrcWord
  import CrcTable
  import opened Words

  const OUTPUT_REFLECT: bv8 := 1

  const INPUT_REFLECT: bv8 := 2

  // ---------- Reflect ----------

  predicate Odd64(a: bv64) { a & 1 == 1 }

  function Half64(a: bv64): bv64 { a >> 1 }

  function Or64(a: bv64, b: bv64): bv64 { a | b }

  function Reflected(ref: bv64, n: nat): bv64
    requires n <= 32
    decreases n
  {
    if n == 0 then 0
    else Or64(if Odd64(ref) then IntShift(n - 1) else 0, Reflected(Half64(ref), n - 1))
  }

  lemma OrMoves(v: bv64, x: bv64, y: bv64)
    ensures Or64(v, Or64(x, y)) == Or64(Or64(v, x), y)
    ensures Or64(v, 0) == v && Or64(0, v) == v
  {
  }

  method Reflect(ref: bv64, ch: nat) returns (value: bv64)
    requires ch <= 32
    ensures value == Reflected(ref, ch)
  {
    hide Odd64, Half64, Or64, IntShift;
    value := 0;
    var r, i := ref, 1;
    OrMoves(Reflected(ref, ch), 0, 0);
    while i < ch + 1
      invariant 1 <= i <= ch + 1
      invariant Or64(value, Reflected(r, ch + 1 - i)) == Reflected(ref, ch)
    {
      OrMoves(value, if Odd64(r) then IntShift(ch - i) else 0, Reflected(Half64(r), ch - i));
      OrMoves(value, 0, 0);
      if Odd64(r) {
        value := Or64(value, IntShift(ch - i));
      }
      r := Half64(r);
      i := i + 1;
    }
    OrMoves(value, 0, 0);
  }

  // ---------- reflecting reverses the bits ----------

  function Wide(w: bv32): bv64 { w as bv64 }

  lemma Widening(w: bv32)
    ensures Odd64(Wide(w)) == Odd(w) && Half64(Wide(w)) == Wide(Half(w))
  {
  }

  lemma OrParts(a: bv64, b: bv64)
    ensures Low(Or64(a, b)) == Or32(Low(a), Low(b)) && High(Or64(a, b)) == Or32(High(a), High(b))
  {
  }

  lemma {:induction false} ReflectedBit(w: bv32, n: nat, j: nat)
    requires n <= 32 && j < 32
    ensures Bit(Low(Reflected(Wide(w), n)), j) == (j < n && Bit(w, n - 1 - j))
    decreases n
  {
    hide Low, Half, Odd, Half64, Odd64, Or64, Or32, Wide, IntShift;
    LowEnds();
    NoBits(j);
    if n > 0 {
      Widening(w);
      var rest := Reflected(Wide(Half(w)), n - 1);
      var top := if Odd(w) then IntShift(n - 1) else 0;
      ReflectedBit(Half(w), n - 1, j);
      OrParts(top, rest);
      BitOr(Low(top), Low(rest), j);
      IntShiftBit(n - 1, j);
    }
  }

  /** The value Reflect returns has a clean upper half except for an odd word reflected over 32 bits. */
  lemma {:induction false} ReflectedHigh(w: bv32, n: nat)
    requires n <= 32
    ensures High(Reflected(Wide(w), n)) == if n == 32 && Odd(w) then 0xffff_ffff else 0
    decreases n
  {
    hide Low, High, Half, Odd, Half64, Odd64, Or64, Or32, Wide, IntShift;
    HighEnds();
    if n > 0 {
      Widening(w);
      ReflectedHigh(Half(w), n - 1);
      OrParts(if Odd(w) then IntShift(n - 1) else 0, Reflected(Wide(Half(w)), n - 1));
      IntShiftHigh(n - 1);
    }
  }

  function Reversed<T>(s: seq<T>): (r: seq<T>)
    ensures |r| == |s| && forall i :: 0 <= i < |s| ==> r[i] == s[|s| - 1 - i]
  {
    seq(|s|, i requires 0 <= i < |s| => s[|s| - 1 - i])
  }

  /** What get_crc32 stores after `file_crc = Reflect(file_crc, 32)`. */
  function ReverseWord(w: bv32): bv32 {
    Low(Reflected(Wide(w), 32))
  }

  /** What crc32 stores after `temp = Reflect(buffer[i], 8)`. */
  function ReverseByte(b: bv8): bv8 {
    LowByte(Low(Reflected(Wide(b as bv32), 8)))
  }

  lemma ReverseByteIs(b: bv8)
    ensures ReverseByte(b) == LowByte(Low(Reflected(Wide(b as bv32), 8)))
  {
  }

  lemma ReverseWordBits(w: bv32)
    ensures WordBits(ReverseWord(w)) == Reversed(WordBits(w))
  {
    hide Bit, Reflected, Low;
    forall j: nat | j < 32 ensures Bit(ReverseWord(w), j) == Bit(w, 31 - j) {
      ReflectedBit(w, 32, j);
    }
  }

  lemma ReverseByteBits(b: bv8)
    ensures ByteBits(ReverseByte(b)) == Reversed(ByteBits(b))
  {
    hide Bit, Reflected, Low, LowByte;
    var x := Low(Reflected(Wide(b as bv32), 8));
    LowByteBits(x);
    forall j: nat | j < 8 ensures Bit(x, j) == Bit(b as bv32, 7 - j) {
      ReflectedBit(b as bv32, 8, j);
    }
  }

  lemma ReverseWordTwice(w: bv32)
    ensures ReverseWord(ReverseWord(w)) == w
  {
    hide ReverseWord;
    ReverseWordBits(w);
    ReverseWordBits(ReverseWord(w));
    assert Reversed(Reversed(WordBits(w))) == WordBits(w);
    BitsInjective(ReverseWord(ReverseWord(w)), w);
  }

  // ---------- crc32 and get_crc32 ----------

  /** The bytes as crc32 feeds them: each one reversed under INPUT_REFLECT. */
  function Taken(buf: seq<bv8>, mode: bv8): (r: seq<bv8>)
    ensures |r| == |buf|
  {
    if mode & INPUT_REFLECT != 0 then seq(|buf|, i requires 0 <= i < |buf| => ReverseByte(buf[i])) else buf
  }

  /** What get_crc32 leaves in file_crc. */
  function Updated(s: bv32, buf: seq<bv8>, mode: bv8): bv32 {
    var c := Crc(s, Taken(buf, mode));
    if mode & OUTPUT_REFLECT != 0 then ReverseWord(c) else c
  }

  lemma PlainMode(s: bv32, buf: seq<bv8>)
    ensures Updated(s, buf, 0) == Crc(s, buf)
  {
    hide Crc;
  }

  lemma CrcEmpty(s: bv32)
    ensures Crc(s, []) == s
  {
  }

  lemma CrcSnoc(s: bv32, buf: seq<bv8>, b: bv8)
    ensures Crc(s, buf + [b]) == Serial(Crc(s, buf), ByteBits(b))
  {
    hide Serial, ByteBits;
    CrcConcat(s, buf, [b]);
    assert MessageBits([b]) == ByteBits(b) + MessageBits([]) == ByteBits(b);
  }

  /** The table-driven loop. `size` is a C int: a negative one reads nothing. */
  method Crc32(crc: bv32, buffer: seq<bv8>, size: int, mode: bv8) returns (r: bv32)
    requires size <= |buffer|
    ensures r == Crc(crc, Taken(buffer[..if size < 0 then 0 else size], mode))
  {
    hide Serial, ByteBits, ReverseByte, Reflected, CrcTable.TAB;
    r := crc;
    var i := 0;
    assert Taken(buffer[..0], mode) == [];
    CrcEmpty(crc);
    while i < size
      invariant 0 <= i && (i <= size || i == 0)
      invariant r == Crc(crc, Taken(buffer[..i], mode))
    {
      var temp := buffer[i];
      if mode & INPUT_REFLECT != 0 {
        var v := Reflect(Wide(buffer[i] as bv32), 8);
        temp := LowByte(Low(v));
        ReverseByteIs(buffer[i]);
      }
      assert Taken(buffer[..i + 1], mode) == Taken(buffer[..i], mode) + [temp];
      CrcSnoc(crc, Taken(buffer[..i], mode), temp);
      CrcTable.TableStep(r, temp);
      r := CrcTable.TAB[LowByte(r ^ temp as bv32) as int] ^ (r >> 8);
      i := i + 1;
    }
  }

  lemma TakenConcat(a: seq<bv8>, b: seq<bv8>, mode: bv8)
    ensures Taken(a + b, mode) == Taken(a, mode) + Taken(b, mode)
  {
    hide ReverseByte;
  }

  /**
   Checksumming in chunks agrees with one call over the whole, for every mode without OUTPUT_REFLECT;
   with it, exactly when the register between the two calls reads the same in both directions.
  */
  lemma ChunksCompose(s: bv32, a: seq<bv8>, b: seq<bv8>, mode: bv8)
    ensures Updated(Updated(s, a, mode), b, mode) == Updated(s, a + b, mode)
      <==> (mode & OUTPUT_REFLECT == 0 || ReverseWord(Crc(s, Taken(a, mode))) == Crc(s, Taken(a, mode)))
  {
    hide Crc, Taken, ReverseWord;
    var c := Crc(s, Taken(a, mode));
    TakenConcat(a, b, mode);
    CrcConcat(s, Taken(a, mode), Taken(b, mode));
    CrcInjective(ReverseWord(c), c, Taken(b, mode));
    ReverseWordTwice(Crc(c, Taken(b, mode)));
    ReverseWordTwice(Crc(ReverseWord(c), Taken(b, mode)));
  }

  /** One call with OUTPUT_REFLECT differs from two: an empty chunk already turns the register round. */
  lemma ChunksDiffer()
    ensures Updated(Updated(1, [], OUTPUT_REFLECT), [], OUTPUT_REFLECT) != Updated(1, [], OUTPUT_REFLECT)
  {
    hide ReverseWord, Crc;
    CrcEmpty(1);
    ReverseWordTwice(1);
    CrcEmpty(ReverseWord(1));
    ReverseWordBits(1);
    assert WordBits(ReverseWord(1))[31] == WordBits(1)[0] == Bit(1, 0);
    LowBits(1);
    BitByteUp(1, 31);
    NoBits(23);
  }

  /** Under INPUT_REFLECT the dividend is the message with the bits of each byte most significant first. */
  lemma {:induction false} ReflectedInput(buf: seq<bv8>)
    ensures MessageBits(Taken(buf, INPUT_REFLECT)) == MostSignificantFirst(buf)
  {
    hide ByteBits, ReverseByte;
    if buf != [] {
      var t := Taken(buf, INPUT_REFLECT);
      assert t[1..] == Taken(buf[1..], INPUT_REFLECT);
      ReverseByteBits(buf[0]);
      ReflectedInput(buf[1..]);
    }
  }

  function MostSignificantFirst(buf: seq<bv8>): seq<bool> {
    if buf == [] then [] else Reversed(ByteBits(buf[0])) + MostSignificantFirst(buf[1..])
  }

  lemma TakenBits(buf: seq<bv8>, mode: bv8)
    ensures MessageBits(Taken(buf, mode)) == if mode & 2 != 0 then MostSignificantFirst(buf) else MessageBits(buf)
  {
    hide ReverseByte, MessageBits, MostSignificantFirst;
    ReflectedInput(buf);
  }

  /**
   get_crc32 in every mode is long division: bit 1 of the mode turns the bits of every byte round in the
   dividend, bit 0 turns the remainder round, and the old file_crc is added to the first 32 bits.
  */
  lemma UpdatedIsLongDivision(s: bv32, buf: seq<bv8>, mode: bv8)
    ensures var bits := if mode & 2 != 0 then MostSignificantFirst(buf) else MessageBits(buf);
            |bits| == 8 * |buf| &&
            var remainder := Remainder(Xor(bits + Zeros(32), WordBits(s)));
            WordBits(Updated(s, buf, mode)) == if mode & 1 != 0 then Reversed(remainder) else remainder
  {
    hide Crc, WordBits, MessageBits, MostSignificantFirst, ReverseWord, Taken, Remainder, Xor, Zeros;
    TakenBits(buf, mode);
    CrcIsLongDivision(s, Taken(buf, mode));
    ReverseWordBits(Crc(s, Taken(buf, mode)));
  }
}
