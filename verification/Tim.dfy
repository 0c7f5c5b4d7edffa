/**
 The TIM element lookup of Include/WiFi/wm_ieee80211.h:1981-2003 against the traffic-indication
 virtual bitmap of section 7.3.2.6 of IEEE 802.11-2007. Index variables of the lookup are 8 bits wide.
*/
module Tim {
  import opened Arith
  import Words

  const MAX_AID := 2007
  const BITS := 2008

  datatype Element = Element(dtimCount: nat, dtimPeriod: nat, bitmapCtrl: nat, octets: seq<bv8>)
  datatype Argument = Null | To(element: Element)

  function U8(x: int): nat { x % 256 }

  /** byte & (1 << k) */
  predicate BitSet(b: bv8, k: nat)
    requires k < 8
  {
    match k
    case 0 => b & 1 != 0
    case 1 => b & 2 != 0
    case 2 => b & 4 != 0
    case 3 => b & 8 != 0
    case 4 => b & 16 != 0
    case 5 => b & 32 != 0
    case 6 => b & 64 != 0
    case _ => b & 128 != 0
  }

  /** BitSet looks at bit `k`, the least significant first. */
  lemma BitSetIs(b: bv8, k: nat)
    requires k < 8
    ensures BitSet(b, k) == Words.Bit(b as bv32, k)
  {
    hide Words.Bit;
    Words.LowBits(b as bv32);
  }

  /** The element in memory: three fixed bytes and the rest of tim_len bytes of bitmap. */
  predicate WellFormed(tim: Argument, timLen: nat) {
    timLen < 256 && (tim.To? && timLen >= 4 ==> tim.element.bitmapCtrl < 256 && |tim.element.octets| == timLen - 3)
  }

  /** aid & 0x3fff */
  function AidNumber(aid: nat): (r: nat)
    ensures r == aid % 0x4000
  {
    SmallPowers();
    AndMask(aid, 14);
    And(aid, 0x3fff)
  }

  /** aid & 7 */
  function AidBit(aid: nat): (r: nat)
    ensures r == aid % 8
  {
    SmallPowers();
    AndMask(aid, 3);
    And(aid, 7)
  }

  /** bitmap_ctrl & 0xfe */
  function BitmapOffset(ctrl: nat): (r: nat)
    requires ctrl < 256
    ensures r == ctrl - ctrl % 2
  {
    BitmapOffsetIs(ctrl);
    And(ctrl, 0xfe)
  }

  lemma BitmapOffsetIs(ctrl: nat)
    requires ctrl < 256
    ensures And(ctrl, 0xfe) == ctrl - ctrl % 2
  {
    hide Pow2;
    if ctrl > 0 {
      AndEven(ctrl);
      SmallPowers();
      AndMask(ctrl / 2, 7);
      ModSmall(ctrl / 2, 128);
    }
  }

  lemma AndEven(c: nat)
    requires c > 0
    ensures And(c, 0xfe) == 2 * And(c / 2, 127)
  {
  }

  /** The 8-bit index keeps eleven bits of the AID. */
  lemma IndexIs(aid: nat)
    ensures U8(aid % 0x4000 / 8) == aid % 2048 / 8 && aid % 0x4000 % 8 == aid % 8
  {
    var id := aid % 0x4000;
    ModMod(aid, 2048, 8);
    ModMod(aid, 8, 2048);
    ModIs(id / 8, 256, id / 2048, id % 2048 / 8);
  }

  /** The upper limit wraps below the lower one when the element would reach past octet 255. */
  lemma LimitIs(n1: nat, timLen: nat)
    requires n1 <= 255 && 4 <= timLen < 256
    ensures var last := n1 + timLen - 4; U8(last) == if last < 256 then last else last - 256
  {
  }

  /** The byte of the bitmap that the lookup reads, if it reads one. */
  datatype Access = Nothing | At(index: nat, bit: nat)

  function Lookup(tim: Argument, timLen: nat, aid: nat): (r: Access)
    requires WellFormed(tim, timLen) && aid < 0x1_0000
    ensures r.At? ==> tim.To? && r.index < |tim.element.octets| && r.bit < 8
  {
    if tim.Null? || timLen < 4 then Nothing
    else
      var id := AidNumber(aid);
      var index := U8(id / 8);
      var indexn1 := BitmapOffset(tim.element.bitmapCtrl);
      var indexn2 := U8(timLen + indexn1 - 4);
      LimitIs(indexn1, timLen);
      if index < indexn1 || index > indexn2 then Nothing
      else ModSmall(index - indexn1, 256); At(U8(index - indexn1), AidBit(id))
  }

  predicate CheckTim(tim: Argument, timLen: nat, aid: nat)
    requires WellFormed(tim, timLen) && aid < 0x1_0000
  {
    var a := Lookup(tim, timLen, aid);
    a.At? && BitSet(tim.element.octets[a.index], a.bit)
  }

  /**
   What the lookup answers, for every element and every 16-bit value: the bit of AID modulo 2048 if its
   byte lies in the element, and never anything when the element claims to reach past byte 255.
  */
  lemma CheckTimExact(tim: Argument, timLen: nat, aid: nat)
    requires WellFormed(tim, timLen) && aid < 0x1_0000
    ensures CheckTim(tim, timLen, aid) <==>
              && tim.To? && timLen >= 4
              && var n1 := tim.element.bitmapCtrl - tim.element.bitmapCtrl % 2;
                 var byte := aid % 2048 / 8;
                 && n1 <= byte <= n1 + timLen - 4 <= 255
                 && BitSet(tim.element.octets[byte - n1], aid % 8)
  {
    hide BitSet, U8;
    if tim.To? && timLen >= 4 {
      IndexIs(aid);
      var n1, byte := BitmapOffset(tim.element.bitmapCtrl), aid % 2048 / 8;
      LimitIs(n1, timLen);
      if n1 <= byte {
        U8Small(byte - n1);
      }
    }
  }

  lemma U8Small(x: nat)
    requires x < 256
    ensures U8(x) == x
  {
  }

  // ---------- building an element from the full bitmap ----------

  type Traffic = t: seq<bool> | |t| == BITS witness seq(BITS, i => false)

  function Flag(b: bool, weight: bv8): bv8 { if b then weight else 0 }

  function Pack(s: seq<bool>): bv8
    requires |s| == 8
  {
    Flag(s[0], 1) | Flag(s[1], 2) | Flag(s[2], 4) | Flag(s[3], 8)
    | Flag(s[4], 16) | Flag(s[5], 32) | Flag(s[6], 64) | Flag(s[7], 128)
  }

  lemma PackedBit(s: seq<bool>, k: nat)
    requires |s| == 8 && k < 8
    ensures BitSet(Pack(s), k) == s[k]
  {
  }

  /** Octet `i` carries a bit for some station (bit 0 of octet 0 is not a station's). */
  predicate Busy(t: Traffic, i: nat)
    requires i <= 250
  {
    exists b :: 8 * i <= b < 8 * i + 8 && b > 0 && t[b]
  }

  /** The first busy octet from `i` on, or 251. */
  function FirstBusy(t: Traffic, i: nat): (r: nat)
    requires i <= 251
    ensures i <= r <= 251 && (r <= 250 ==> Busy(t, r))
    ensures forall j :: i <= j < r ==> !Busy(t, j)
    decreases 251 - i
  {
    if i == 251 || Busy(t, i) then i else FirstBusy(t, i + 1)
  }

  /** The last busy octet below `i`, or -1. */
  function LastBusy(t: Traffic, i: nat): (r: int)
    requires i <= 251
    ensures -1 <= r < i && (r >= 0 ==> Busy(t, r))
    ensures forall j :: r < j < i ==> !Busy(t, j)
  {
    if i == 0 then -1 else if Busy(t, i - 1) then i - 1 else LastBusy(t, i - 1)
  }

  function N1(t: Traffic): (r: nat)
    ensures r % 2 == 0 && r <= 250
  {
    var first := FirstBusy(t, 0);
    if first == 251 then 0 else first - first % 2
  }

  function N2(t: Traffic): (r: nat)
    ensures N1(t) <= r <= 250
  {
    var last := LastBusy(t, 251);
    if last < 0 then 0 else last
  }

  function Encode(t: Traffic): (r: Element)
    ensures r.bitmapCtrl < 256 && |r.octets| == N2(t) - N1(t) + 1
  {
    var n1, n := N1(t), N2(t) - N1(t) + 1;
    Element(0, 1, n1 + (if t[0] then 1 else 0),
            seq(n, i requires 0 <= i < n => Pack(t[8 * (n1 + i)..8 * (n1 + i) + 8])))
  }

  /** Some bit of a range is set. */
  ghost predicate AnySet(t: Traffic, from: nat, to: nat) {
    exists b :: from <= b < to && b < BITS && t[b]
  }

  lemma BitMakesBusy(t: Traffic, b: nat)
    requires 0 < b < BITS && t[b]
    ensures Busy(t, b / 8) && N1(t) <= b / 8 <= N2(t)
  {
    assert 8 * (b / 8) <= b < 8 * (b / 8) + 8;
  }

  lemma FirstBusyStation(t: Traffic)
    requires AnySet(t, 1, BITS)
    ensures FirstBusy(t, 0) <= 250 && AnySet(t, 1, 8 * FirstBusy(t, 0) + 8)
  {
    hide FirstBusy, N1, N2;
    var b :| 1 <= b < BITS && t[b];
    BitMakesBusy(t, b);
    var first := FirstBusy(t, 0);
    assert first <= b / 8;
    var c :| 8 * first <= c < 8 * first + 8 && c > 0 && t[c];
  }

  /** N1 is the largest even number that leaves no station out. */
  lemma N1AsStandard(t: Traffic, n: nat)
    ensures !AnySet(t, 1, 8 * N1(t))
    ensures n > N1(t) && n % 2 == 0 && AnySet(t, 1, BITS) ==> AnySet(t, 1, 8 * n)
  {
    hide FirstBusy;
    forall b: nat | 0 < b < BITS && t[b] ensures N1(t) <= b / 8 {
      BitMakesBusy(t, b);
    }
    if n > N1(t) && n % 2 == 0 && AnySet(t, 1, BITS) {
      FirstBusyStation(t);
      assert 8 * FirstBusy(t, 0) + 8 <= 8 * n;
    }
  }

  /** N2 is the smallest number that leaves no station out. */
  lemma N2AsStandard(t: Traffic, n: nat)
    ensures !AnySet(t, 8 * (N2(t) + 1), BITS)
    ensures n < N2(t) ==> AnySet(t, 8 * (n + 1), BITS)
  {
    hide N1;
    forall b: nat | 0 < b < BITS && t[b] ensures b / 8 <= N2(t) {
      BitMakesBusy(t, b);
    }
    if n < N2(t) {
      assert Busy(t, N2(t));
      var b :| 8 * N2(t) <= b < 8 * N2(t) + 8 && b > 0 && t[b];
      assert 8 * (n + 1) <= b < BITS;
    }
  }

  lemma TopBitsIgnored(aid: nat, top: nat)
    requires aid < 2048
    ensures (aid + 0x4000 * top) % 2048 == aid && (aid + 0x4000 * top) % 8 == aid % 8
  {
    ModIs(aid + 0x4000 * top, 2048, 8 * top, aid);
    ModIs(aid + 0x4000 * top, 8, aid / 8 + 2048 * top, aid % 8);
  }

  lemma EncodedOctet(t: Traffic, aid: nat)
    requires aid < BITS && N1(t) <= aid / 8 <= N2(t)
    ensures BitSet(Encode(t).octets[aid / 8 - N1(t)], aid % 8) == t[aid]
  {
    hide BitSet, Pack, N1, N2;
    var byte := aid / 8;
    var bits := t[8 * byte..8 * byte + 8];
    assert Encode(t).octets[byte - N1(t)] == Pack(bits);
    PackedBit(bits, aid % 8);
    assert bits[aid % 8] == t[aid];
  }

  /** The lookup in the compressed element answers as the full bitmap does, with or without the two top AID bits. */
  lemma CheckTimAnswersTraffic(t: Traffic, aid: nat, top: nat)
    requires 1 <= aid <= MAX_AID && top < 4
    ensures CheckTim(To(Encode(t)), |Encode(t).octets| + 3, aid + 0x4000 * top) == t[aid]
  {
    hide CheckTim, BitSet, N1, N2, Encode;
    var e, id := Encode(t), aid + 0x4000 * top;
    var n1, byte := N1(t), aid / 8;
    EncodedHeader(t);
    TopBitsIgnored(aid, top);
    CheckTimExact(To(e), |e.octets| + 3, id);
    if t[aid] {
      BitMakesBusy(t, aid);
    }
    if n1 <= byte <= N2(t) {
      EncodedOctet(t, aid);
    }
  }

  lemma EncodedHeader(t: Traffic)
    ensures Encode(t).bitmapCtrl - Encode(t).bitmapCtrl % 2 == N1(t)
  {
    hide Pack, N1, N2;
  }
}
