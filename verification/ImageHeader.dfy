/**
 The 56-byte image header shared by the flash driver (struct T_BOOTER) and the image tools:
 little-endian fields, sealed by the checksum of the first 52 bytes.
*/
module ImageHeader {
  import Arith
  import opened Words
  import opened CrcWord

  const MAGIC: nat := 0xA0FFFF9F
  const HEADER_LEN := 56

  function Power256(k: nat): nat {
    if k == 0 then 1 else 256 * Power256(k - 1)
  }

  function ByteOf(x: nat): bv8
    requires x < 256
  {
    x as bv8
  }

  function ValueOf(b: bv8): (r: nat)
    ensures r < 256
  {
    b as int
  }

  lemma NextByte(b: bv8)
    requires ValueOf(b) < 255
    ensures ValueOf(b + 1) == ValueOf(b) + 1
  {
  }

  lemma {:induction false} ByteWithValue(x: nat) returns (b: bv8)
    requires x < 256
    ensures ValueOf(b) == x
  {
    if x == 0 {
      b := 0;
    } else {
      var a := ByteWithValue(x - 1);
      NextByte(a);
      b := a + 1;
    }
  }

  lemma ByteOfValue(b: bv8)
    ensures ByteOf(ValueOf(b)) == b
  {
  }

  lemma ValueOfByte(x: nat)
    requires x < 256
    ensures ValueOf(ByteOf(x)) == x
  {
    hide ByteOf, ValueOf;
    var b := ByteWithValue(x);
    ByteOfValue(b);
  }

  /** The low `k` bytes of `n`, least significant first. */
  function LE(n: nat, k: nat): (r: seq<bv8>)
    ensures |r| == k
    decreases k
  {
    if k == 0 then [] else [ByteOf(n % 256)] + LE(n / 256, k - 1)
  }

  function FromLE(s: seq<bv8>): nat {
    if s == [] then 0 else ValueOf(s[0]) + 256 * FromLE(s[1..])
  }

  lemma {:induction false} FromLEOfLE(n: nat, k: nat)
    requires n < Power256(k)
    ensures FromLE(LE(n, k)) == n
    decreases k
  {
    hide ByteOf, ValueOf;
    if k > 0 {
      ValueOfByte(n % 256);
      FromLEOfLE(n / 256, k - 1);
      assert LE(n, k)[1..] == LE(n / 256, k - 1);
    }
  }

  lemma {:induction false} LEOfFromLE(s: seq<bv8>)
    ensures FromLE(s) < Power256(|s|) && LE(FromLE(s), |s|) == s
  {
    hide ByteOf, ValueOf;
    if s != [] {
      ByteOfValue(s[0]);
      LEOfFromLE(s[1..]);
      assert FromLE(s) % 256 == ValueOf(s[0]) && FromLE(s) / 256 == FromLE(s[1..]);
      assert s == [s[0]] + s[1..];
    }
  }

  lemma MagicValue()
    ensures FromLE([0x9F, 0xFF, 0xFF, 0xA0]) == MAGIC
  {
    var s: seq<bv8> := [0x9F, 0xFF, 0xFF, 0xA0];
    assert FromLE(s) == 0x9F + 256 * FromLE(s[1..]);
    assert FromLE(s[1..]) == 0xFF + 256 * FromLE(s[2..]);
    assert FromLE(s[2..]) == 0xFF + 256 * FromLE(s[3..]);
    assert FromLE(s[3..]) == 0xA0 + 256 * FromLE(s[4..]);
  }

  /** The magic number as it stands in a file. */
  lemma MagicBytes(s: seq<bv8>)
    requires |s| == 4
    ensures FromLE(s) == MAGIC <==> s == [0x9F, 0xFF, 0xFF, 0xA0]
  {
    hide FromLE, LE;
    MagicValue();
    LEOfFromLE(s);
    LEOfFromLE([0x9F, 0xFF, 0xFF, 0xA0]);
  }

  /** A 32-bit word, least significant byte first. */
  function WordLE(w: bv32): (r: seq<bv8>)
    ensures |r| == 4
  {
    [LowByte(w), LowByte(w >> 8), LowByte(w >> 16), LowByte(w >> 24)]
  }

  function FromWordLE(s: seq<bv8>): bv32
    requires |s| == 4
  {
    s[0] as bv32 | (s[1] as bv32 << 8) | (s[2] as bv32 << 16) | (s[3] as bv32 << 24)
  }

  lemma WordRoundTrip(w: bv32)
    ensures FromWordLE(WordLE(w)) == w
  {
  }

  lemma WordBytesRoundTrip(s: seq<bv8>)
    requires |s| == 4
    ensures WordLE(FromWordLE(s)) == s
  {
    BytesOfWord(s[0], s[1], s[2], s[3]);
  }

  lemma BytesOfWord(a: bv8, b: bv8, c: bv8, d: bv8)
    ensures var w := a as bv32 | (b as bv32 << 8) | (c as bv32 << 16) | (d as bv32 << 24);
            LowByte(w) == a && LowByte(w >> 8) == b && LowByte(w >> 16) == c && LowByte(w >> 24) == d
  {
  }

  /** Byte `i` of the little-endian form is digit `i` to the base 256. */
  lemma {:induction false} LEByte(n: nat, k: nat, i: nat)
    requires i < k
    ensures Power256(i) > 0 && ValueOf(LE(n, k)[i]) == n / Power256(i) % 256
    decreases k
  {
    hide ByteOf, ValueOf;
    if i == 0 {
      ValueOfByte(n % 256);
    } else {
      LEByte(n / 256, k - 1, i - 1);
      DivTwice(n, Power256(i - 1));
    }
  }

  lemma DivTwice(n: nat, p: nat)
    requires p > 0
    ensures n / 256 / p == n / (256 * p)
  {
    Arith.DivNonNegative(n / 256, p);
    var q, r := n / 256 / p, n / 256 % p;
    assert n / 256 == q * p + r;
    assert n == q * (256 * p) + (256 * r + n % 256);
    Arith.Packed(q, 256 * r + n % 256, 256 * p);
  }

  lemma SecondByte(w: bv32)
    ensures LowByte(w >> 8) == LowByte(Half8(w))
  {
  }

  lemma ThirdByte(w: bv32)
    ensures LowByte(w >> 16) == LowByte(Half8(Half8(w)))
  {
  }

  lemma FourthByte(w: bv32)
    ensures LowByte(w >> 24) == LowByte(Half8(Half8(Half8(w))))
  {
  }

  lemma WordBytes(w: bv32)
    ensures WordLE(w)
         == [LowByte(w), LowByte(Half8(w)), LowByte(Half8(Half8(w))), LowByte(Half8(Half8(Half8(w))))]
  {
    hide LowByte, Half8;
    SecondByte(w);
    ThirdByte(w);
    FourthByte(w);
  }

  lemma ShiftedBits(w: bv32, k: nat)
    requires k <= 24
    ensures LeadingBits(w, k + 8) == LeadingBits(w, 8) + LeadingBits(Half8(w), k)
  {
    hide Bit, Half8;
    forall i: nat | 8 <= i < k + 8 ensures Bit(w, i) == Bit(Half8(w), i - 8) {
      BitByteUp(w, i);
    }
  }

  lemma FourBytes(a: bv8, b: bv8, c: bv8, d: bv8)
    ensures MessageBits([a, b, c, d]) == ByteBits(a) + (ByteBits(b) + (ByteBits(c) + ByteBits(d)))
  {
    hide ByteBits;
    assert [a, b, c, d][1..] == [b, c, d] && [b, c, d][1..] == [c, d] && [c, d][1..] == [d] && [d][1..] == [];
    assert MessageBits([d]) == ByteBits(d) + MessageBits([]);
    assert MessageBits([c, d]) == ByteBits(c) + MessageBits([d]);
    assert MessageBits([b, c, d]) == ByteBits(b) + MessageBits([c, d]);
    assert MessageBits([a, b, c, d]) == ByteBits(a) + MessageBits([b, c, d]);
  }

  /** Stored least significant byte first, a word enters the register bit 0 first. */
  lemma WordLEBits(w: bv32)
    ensures MessageBits(WordLE(w)) == LeadingBits(w, 32)
  {
    hide MessageBits, ByteBits, LeadingBits, LowByte, Half8, WordLE;
    WordBytes(w);
    var w1, w2, w3 := Half8(w), Half8(Half8(w)), Half8(Half8(Half8(w)));
    FourBytes(LowByte(w), LowByte(w1), LowByte(w2), LowByte(w3));
    LowByteBits(w);
    LowByteBits(w1);
    LowByteBits(w2);
    LowByteBits(w3);
    ShiftedBits(w, 24);
    ShiftedBits(w1, 16);
    ShiftedBits(w2, 8);
  }

  /** Data followed by four bytes leaves the register at 0 exactly when these are the checksum of the data. */
  lemma ChecksumCancels(s: bv32, data: seq<bv8>, c: bv32)
    ensures Crc(s, data + WordLE(c)) == 0 <==> c == Crc(s, data)
  {
    hide Serial, MessageBits, WordLE, LeadingBits;
    CrcConcat(s, data, WordLE(c));
    WordLEBits(c);
    WordCancels(Crc(s, data), c);
  }

  datatype Header = Header(
    magic: nat, imgType: nat, zipType: nat, runAddr: nat, runLen: nat, runChecksum: bv32,
    updAddr: nat, updLen: nat, updChecksum: bv32, updNo: nat, version: seq<bv8>)

  /** Every field fits its place in the header. */
  predicate Fits(h: Header) {
    && h.magic < 0x1_0000_0000 && h.imgType < 0x1_0000 && h.zipType < 0x1_0000
    && h.runAddr < 0x1_0000_0000 && h.runLen < 0x1_0000_0000
    && h.updAddr < 0x1_0000_0000 && h.updLen < 0x1_0000_0000 && h.updNo < 0x1_0000_0000
    && |h.version| == 16
  }

  /** Type, compression, update image and version are all zero: a plain image. */
  predicate Plain(h: Header) {
    && h.imgType == 0 && h.zipType == 0
    && h.updAddr == 0 && h.updLen == 0 && h.updChecksum == 0 && h.updNo == 0
    && |h.version| == 16 && forall i :: 0 <= i < 16 ==> h.version[i] == 0
  }

  /** The fields before hd_checksum. */
  function Fields(h: Header): (r: seq<bv8>)
    ensures |r| == 36 + |h.version|
  {
    LE(h.magic, 4) + LE(h.imgType, 2) + LE(h.zipType, 2) + LE(h.runAddr, 4) + LE(h.runLen, 4)
    + WordLE(h.runChecksum) + LE(h.updAddr, 4) + LE(h.updLen, 4) + WordLE(h.updChecksum)
    + LE(h.updNo, 4) + h.version
  }

  function Sealed(h: Header): (r: seq<bv8>)
    ensures |r| == 40 + |h.version|
  {
    Fields(h) + WordLE(Crc(SEED, Fields(h)))
  }

  function Parse(s: seq<bv8>): Header
    requires |s| == HEADER_LEN
  {
    Header(FromLE(s[..4]), FromLE(s[4..6]), FromLE(s[6..8]), FromLE(s[8..12]), FromLE(s[12..16]),
           FromWordLE(s[16..20]), FromLE(s[20..24]), FromLE(s[24..28]), FromWordLE(s[28..32]),
           FromLE(s[32..36]), s[36..52])
  }

  predicate ChecksumOk(s: seq<bv8>)
    requires |s| == HEADER_LEN
  {
    FromWordLE(s[52..]) == Crc(SEED, s[..52])
  }

  lemma FieldSlices(h: Header, s: seq<bv8>)
    requires Fits(h) && s == Sealed(h)
    ensures s[..4] == LE(h.magic, 4) && s[4..6] == LE(h.imgType, 2) && s[6..8] == LE(h.zipType, 2)
    ensures s[8..12] == LE(h.runAddr, 4) && s[12..16] == LE(h.runLen, 4) && s[16..20] == WordLE(h.runChecksum)
    ensures s[20..24] == LE(h.updAddr, 4) && s[24..28] == LE(h.updLen, 4) && s[28..32] == WordLE(h.updChecksum)
    ensures s[32..36] == LE(h.updNo, 4) && s[36..52] == h.version
    ensures s[..52] == Fields(h) && s[52..] == WordLE(Crc(SEED, Fields(h)))
  {
    hide LE, WordLE, Crc;
  }

  /** A sealed header is 56 bytes, parses back to itself and passes its own checksum. */
  lemma SealedRoundTrip(h: Header)
    requires Fits(h)
    ensures |Sealed(h)| == HEADER_LEN && Parse(Sealed(h)) == h && ChecksumOk(Sealed(h))
  {
    hide Crc, LE, FromLE, WordLE, FromWordLE;
    FieldSlices(h, Sealed(h));
    assert Power256(4) == 0x1_0000_0000 && Power256(2) == 0x1_0000;
    FromLEOfLE(h.magic, 4);
    FromLEOfLE(h.imgType, 2);
    FromLEOfLE(h.zipType, 2);
    FromLEOfLE(h.runAddr, 4);
    FromLEOfLE(h.runLen, 4);
    FromLEOfLE(h.updAddr, 4);
    FromLEOfLE(h.updLen, 4);
    FromLEOfLE(h.updNo, 4);
    WordRoundTrip(h.runChecksum);
    WordRoundTrip(h.updChecksum);
    WordRoundTrip(Crc(SEED, Fields(h)));
  }

  /** Conversely, a 56-byte string that passes its checksum is the sealed form of what it parses to. */
  lemma ParsedSealedAgain(s: seq<bv8>)
    requires |s| == HEADER_LEN && ChecksumOk(s)
    ensures Fits(Parse(s)) && Sealed(Parse(s)) == s
  {
    hide Crc, LE, FromLE, WordLE, FromWordLE;
    assert Power256(4) == 0x1_0000_0000 && Power256(2) == 0x1_0000;
    LEOfFromLE(s[..4]);
    LEOfFromLE(s[4..6]);
    LEOfFromLE(s[6..8]);
    LEOfFromLE(s[8..12]);
    LEOfFromLE(s[12..16]);
    LEOfFromLE(s[20..24]);
    LEOfFromLE(s[24..28]);
    LEOfFromLE(s[32..36]);
    WordBytesRoundTrip(s[16..20]);
    WordBytesRoundTrip(s[28..32]);
    WordBytesRoundTrip(s[52..]);
    assert Fields(Parse(s)) == s[..52];
  }

  /** A header passes its checksum exactly when the whole of it checksums to 0. */
  lemma HeaderCancels(s: seq<bv8>)
    requires |s| == HEADER_LEN
    ensures ChecksumOk(s) <==> Crc(SEED, s) == 0
  {
    hide Crc, WordLE, FromWordLE;
    WordBytesRoundTrip(s[52..]);
    assert s == s[..52] + WordLE(FromWordLE(s[52..]));
    ChecksumCancels(SEED, s[..52], FromWordLE(s[52..]));
  }
}
