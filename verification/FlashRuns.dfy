/**
 Whole sessions with the flash driver: any sequence of erases, page programs and verifies
 (Doc/W60X_QFLASH_Driver_for_SWD/W60X_QFlash/FlashPrg.c:163-273).
*/
module FlashRuns {
  import opened Arith
  import opened CrcWord
  import opened ImageHeader
  import opened FlashChip
  import FlashDriver

  datatype Op = EraseOp(adr: nat) | ProgramOp(adr: nat, data: seq<bv8>) | VerifyOp

  predicate Enabled(c: Chip, op: Op) {
    Valid(c) &&
    match op
    case EraseOp(_) => true
    case ProgramOp(adr, data) => PageOk(adr, data)
    case VerifyOp => true
  }

  function Step(c: Chip, op: Op): (r: Chip)
    requires Enabled(c, op)
    ensures Valid(r)
  {
    match op
    case EraseOp(adr) => Erased(c, adr)
    case ProgramOp(adr, data) => PageInFlash(adr); Programmed(c, adr, data)
    case VerifyOp => Installed(c)
  }

  predicate Feasible(c: Chip, ops: seq<Op>)
    decreases |ops|
  {
    Valid(c) && (ops == [] || (Enabled(c, ops[0]) && Feasible(Step(c, ops[0]), ops[1..])))
  }

  function Run(c: Chip, ops: seq<Op>): (r: Chip)
    requires Feasible(c, ops)
    ensures Valid(r)
    decreases |ops|
  {
    if ops == [] then c else Run(Step(c, ops[0]), ops[1..])
  }

  /** The driver object carries out any feasible session. */
  method Execute(d: FlashDriver.Driver, ops: seq<Op>)
    requires d.Ready() && Feasible(d.State(), ops)
    modifies d, d.flash, d.window
    ensures d.Ready() && d.State() == Run(old(d.State()), ops)
  {
    hide Installed, Programmed, Erased, PageOk;
    var k := 0;
    while k < |ops|
      invariant 0 <= k <= |ops| && d.Ready() && Feasible(d.State(), ops[k..])
      invariant Run(d.State(), ops[k..]) == Run(old(d.State()), ops)
    {
      assert ops[k..][0] == ops[k] && ops[k..][1..] == ops[k + 1..];
      match ops[k] {
        case EraseOp(adr) => var _ := d.EraseSector(adr);
        case ProgramOp(adr, data) => var _ := d.ProgramPage(adr, data);
        case VerifyOp => var _ := d.Verify(0, 0);
      }
      k := k + 1;
    }
  }

  lemma {:induction false} RunConcat(c: Chip, a: seq<Op>, b: seq<Op>)
    requires Feasible(c, a) && Feasible(Run(c, a), b)
    ensures Feasible(c, a + b) && Run(c, a + b) == Run(Run(c, a), b)
    decreases |a|
  {
    hide Enabled, Step, Valid;
    if a == [] {
      assert a + b == b;
    } else {
      assert (a + b)[1..] == a[1..] + b;
      RunConcat(Step(c, a[0]), a[1..], b);
    }
  }

  // ---------- the length register ----------

  function Total(ops: seq<Op>): nat {
    if ops == [] then 0
    else (if ops[0].ProgramOp? then |ops[0].data| else 0) + Total(ops[1..])
  }

  ghost predicate NoVerify(ops: seq<Op>) {
    forall i :: 0 <= i < |ops| ==> !ops[i].VerifyOp?
  }

  lemma {:induction false} DatalenCountsBytes(c: Chip, ops: seq<Op>)
    requires Feasible(c, ops) && NoVerify(ops)
    ensures Run(c, ops).datalen == (c.datalen + Total(ops)) % U32
    decreases |ops|
  {
    if ops != [] {
      WrapAdd(c.datalen + if ops[0].ProgramOp? then |ops[0].data| else 0, Total(ops[1..]));
      DatalenCountsBytes(Step(c, ops[0]), ops[1..]);
    }
  }

  /** After a session that ends with a page program, register 0x40002000 holds the bytes programmed, modulo 2^32. */
  lemma LengthRegister(c: Chip, ops: seq<Op>, adr: nat, data: seq<bv8>)
    requires Feasible(c, ops) && NoVerify(ops) && PageOk(adr, data)
    ensures Feasible(c, ops + [ProgramOp(adr, data)])
    ensures Run(c, ops + [ProgramOp(adr, data)]).lenReg == (c.datalen + Total(ops) + |data|) % U32
  {
    hide AndAt, Total, BurstLength;
    DatalenCountsBytes(c, ops);
    RunOne(Run(c, ops), ProgramOp(adr, data));
    RunConcat(c, ops, [ProgramOp(adr, data)]);
    WrapAdd(c.datalen + Total(ops), |data|);
  }

  lemma RunOne(c: Chip, op: Op)
    requires Enabled(c, op)
    ensures Feasible(c, [op]) && Run(c, [op]) == Step(c, op)
  {
    hide Step;
    assert [op][1..] == [];
    assert Feasible(Step(c, op), []);
  }

  // ---------- what a session can change ----------

  predicate Erases(op: Op, i: nat) {
    op.EraseOp? && SectorOf(op.adr) <= i < SectorOf(op.adr) + SECTOR
  }

  predicate Touches(op: Op, i: nat) {
    match op
    case EraseOp(_) => Erases(op, i)
    case ProgramOp(adr, data) => adr % FLASH_SIZE <= i < adr % FLASH_SIZE + PAGE
    case VerifyOp => HEADER_AT <= i < HEADER_AT + HEADER_LEN
  }

  predicate Below(a: bv8, b: bv8) { a & b == a }

  lemma AndBelow(a: bv8, b: bv8, c: bv8)
    ensures Below(And8(a, b), a) && Below(a, a) && (Below(a, b) && Below(b, c) ==> Below(a, c))
  {
  }

  lemma StepEffect(c: Chip, op: Op, i: nat)
    requires Enabled(c, op) && i < FLASH_SIZE
    ensures !Touches(op, i) ==> Step(c, op).flash[i] == c.flash[i]
    ensures !Erases(op, i) && !(op.VerifyOp? && Touches(op, i)) ==> Below(Step(c, op).flash[i], c.flash[i])
  {
    hide Below, And8, Sealed, NewHeader, Crc, HasMagic;
    if op.VerifyOp? && !HasMagic(c.flash) {
      NewHeaderInFlash(c);
    }
    AndBelow(c.flash[i], c.flash[i], c.flash[i]);
    if op.ProgramOp? {
      PageInFlash(op.adr);
      var off, window := op.adr % FLASH_SIZE, op.data + c.window[|op.data|..];
      if off <= i < off + BurstLength(|op.data|) {
        AndBelow(c.flash[i], window[i - off], c.flash[i]);
      }
    }
  }

  /** A flash byte that no operation of the session addresses keeps its value. */
  lemma {:induction false} RunFrame(c: Chip, ops: seq<Op>, i: nat)
    requires Feasible(c, ops) && i < FLASH_SIZE
    requires forall k :: 0 <= k < |ops| ==> !Touches(ops[k], i)
    ensures Run(c, ops).flash[i] == c.flash[i]
    decreases |ops|
  {
    hide Touches, Enabled, Step, Valid;
    if ops != [] {
      StepEffect(c, ops[0], i);
      StepValid(c, ops[0]);
      RunFrame(Step(c, ops[0]), ops[1..], i);
    }
  }

  lemma StepValid(c: Chip, op: Op)
    requires Enabled(c, op)
    ensures |c.flash| == FLASH_SIZE && |Step(c, op).flash| == FLASH_SIZE
  {
  }

  /** Between erases of its sector a byte outside the header only ever loses bits. */
  lemma {:induction false} BitsOnlyFall(c: Chip, ops: seq<Op>, i: nat)
    requires Feasible(c, ops) && i < FLASH_SIZE && !(HEADER_AT <= i < HEADER_AT + HEADER_LEN)
    requires forall k :: 0 <= k < |ops| ==> !Erases(ops[k], i)
    ensures Below(Run(c, ops).flash[i], c.flash[i])
    decreases |ops|
  {
    hide Erases, Enabled, Step, Valid, Below;
    assert |c.flash| == FLASH_SIZE by { RunValid(c, ops); }
    AndBelow(c.flash[i], c.flash[i], c.flash[i]);
    if ops != [] {
      var c1 := Step(c, ops[0]);
      StepEffect(c, ops[0], i);
      StepValid(c, ops[0]);
      BitsOnlyFall(c1, ops[1..], i);
      RunValid(c1, ops[1..]);
      AndBelow(Run(c1, ops[1..]).flash[i], c1.flash[i], c.flash[i]);
    }
  }

  lemma RunValid(c: Chip, ops: seq<Op>)
    requires Feasible(c, ops)
    ensures |c.flash| == FLASH_SIZE && |Run(c, ops).flash| == FLASH_SIZE
  {
  }

  // ---------- verifying ----------

  function Verifies(n: nat): seq<Op> {
    seq(n, i => VerifyOp)
  }

  /** Any number of further Verify calls leaves the chip as the first one did. */
  lemma {:induction false} VerifyRepeated(c: Chip, n: nat)
    requires Valid(c) && n > 0
    ensures Feasible(c, Verifies(n)) && Run(c, Verifies(n)) == Installed(c)
    decreases n
  {
    hide Installed;
    InstalledTwice(c);
    assert Verifies(n)[1..] == Verifies(n - 1);
    if n > 1 {
      VerifyRepeated(Installed(c), n - 1);
    } else {
      assert Verifies(0) == [];
    }
  }

  // ---------- a complete download ----------

  /** Erase `count` sectors upward from the one at `adr`. */
  function EraseOps(adr: nat, count: nat): seq<Op>
    decreases count
  {
    if count == 0 then [] else [EraseOp(adr)] + EraseOps(adr + SECTOR, count - 1)
  }

  /** Program `image` page by page upward from `adr`. */
  function PageOps(adr: nat, image: seq<bv8>): seq<Op>
    decreases |image|
  {
    if image == [] then []
    else if |image| <= 256 then [ProgramOp(adr, image)]
    else [ProgramOp(adr, image[..256])] + PageOps(adr + 256, image[256..])
  }

  function SectorsFor(image: seq<bv8>): nat {
    (IMAGE_AT - HEADER_AT + |image| + SECTOR - 1) / SECTOR
  }

  function Loading(image: seq<bv8>): seq<Op> {
    EraseOps(0x8010000, SectorsFor(image)) + PageOps(IMAGE_ADDR, image)
  }

  /** What a download tool does: erase the sectors from 0x8010000 up, program from 0x8010100 up, verify. */
  function Download(image: seq<bv8>): seq<Op> {
    Loading(image) + [VerifyOp]
  }

  predicate IsErased(f: seq<bv8>, from: nat, to: nat)
    requires from <= to <= |f|
  {
    forall i :: from <= i < to ==> f[i] == 0xFF
  }

  ghost predicate SameOutside(f: seq<bv8>, g: seq<bv8>, from: nat, to: nat) {
    |f| == |g| && forall i :: 0 <= i < |f| && !(from <= i < to) ==> g[i] == f[i]
  }

  lemma {:induction false} RunErases(c: Chip, off: nat, count: nat)
    requires Valid(c) && off % 4096 == 0 && off + count * 4096 <= FLASH_SIZE
    ensures Feasible(c, EraseOps(0x8000000 + off, count))
    ensures var r := Run(c, EraseOps(0x8000000 + off, count));
            && IsErased(r.flash, off, off + count * 4096) && SameOutside(c.flash, r.flash, off, off + count * 4096)
            && r.datalen == c.datalen
    decreases count
  {
    hide EraseAt, SectorOf;
    if count > 0 {
      var adr := 0x8000000 + off;
      var c1 := Erased(c, adr);
      SectorAt(off);
      var rest := EraseOps(adr + 4096, count - 1);
      assert EraseOps(adr, count)[0] == EraseOp(adr) && EraseOps(adr, count)[1..] == rest;
      RunErases(c1, off + 4096, count - 1);
      var r := Run(c1, rest);
      assert Run(c, EraseOps(adr, count)) == r;
      ErasedMore(c.flash, c1.flash, r.flash, off, off + count * 4096);
    }
  }

  lemma ErasedMore(f: seq<bv8>, g: seq<bv8>, h: seq<bv8>, off: nat, to: nat)
    requires off + 4096 <= to <= |f| && g == EraseAt(f, off)
    requires SameOutside(g, h, off + 4096, to) && IsErased(h, off + 4096, to)
    ensures IsErased(h, off, to) && SameOutside(f, h, off, to)
  {
  }

  lemma SectorAt(off: nat)
    requires off % 4096 == 0 && off + 4096 <= FLASH_SIZE
    ensures SectorOf(0x8000000 + off) == off
  {
    assert (0x8000000 + off) % FLASH_SIZE == off;
  }

  lemma ProgramErased(c: Chip, off: nat, data: seq<bv8>)
    requires Valid(c) && off % PAGE == 0 && off + |data| <= FLASH_SIZE && IsErased(c.flash, off, off + |data|)
    requires 0 < |data| && PageOk(0x8000000 + off, data)
    ensures var r := Programmed(c, 0x8000000 + off, data);
            && Valid(r) && r.flash == Overlay(c.flash, off, data)
            && r.datalen == r.lenReg == (c.datalen + |data|) % U32
  {
    hide And8;
    assert (0x8000000 + off) % FLASH_SIZE == off;
    var window := data + c.window[|data|..];
    assert window[..|data|] == data;
    forall k | 0 <= k < |data| ensures And8(0xFF, data[k]) == data[k] {
      FlashDriver.ErasedAnd(data[k]);
    }
    assert AndAt(c.flash, off, data) == Overlay(c.flash, off, data);
  }

  lemma {:induction false} RunPages(c: Chip, off: nat, image: seq<bv8>)
    requires Valid(c) && off % PAGE == 0 && off + |image| <= FLASH_SIZE && IsErased(c.flash, off, off + |image|)
    requires 0 < |image| && |image| % 4 == 0
    ensures Feasible(c, PageOps(0x8000000 + off, image))
    ensures var r := Run(c, PageOps(0x8000000 + off, image));
            && r.flash == Overlay(c.flash, off, image) && r.datalen == r.lenReg == (c.datalen + |image|) % U32
    decreases |image|
  {
    hide Programmed;
    var adr := 0x8000000 + off;
    if |image| <= 256 {
      ProgramErased(c, off, image);
      RunOne(c, ProgramOp(adr, image));
    } else {
      var page, rest := image[..256], image[256..];
      ProgramErased(c, off, page);
      var c1 := Programmed(c, adr, page);
      RunPages(c1, off + 256, rest);
      assert PageOps(adr, image)[1..] == PageOps(adr + 256, rest);
      assert Overlay(Overlay(c.flash, off, page), off + 256, rest) == Overlay(c.flash, off, image);
      WrapAdd(c.datalen + 256, |rest|);
    }
  }

  lemma BlankHasNoMagic(f: seq<bv8>)
    requires |f| == FLASH_SIZE && IsErased(f, HEADER_AT, HEADER_AT + 4)
    ensures !HasMagic(f)
  {
    var s := f[HEADER_AT..HEADER_AT + 4];
    assert s == [0xFF, 0xFF, 0xFF, 0xFF];
    assert FromLE(s) == 255 + 256 * FromLE(s[1..]);
    assert FromLE(s[1..]) == 255 + 256 * FromLE(s[1..][1..]);
  }

  /** What a download leaves behind, whatever `datalen` the static counter started from. */
  ghost predicate DownloadDone(c: Chip, image: seq<bv8>, r: Chip)
    requires Valid(c) && Valid(r) && |image| <= ROOM
  {
    && r.flash[IMAGE_AT..IMAGE_AT + |image|] == image
    && Parse(HeaderBytes(r.flash)).runLen == (c.datalen + |image|) % U32
    && Parse(HeaderBytes(r.flash)).magic == 0xA0FFFF9F && Parse(HeaderBytes(r.flash)).runAddr == 0x8010100
    && Plain(Parse(HeaderBytes(r.flash))) && ChecksumOk(HeaderBytes(r.flash))
    && SameOutside(c.flash, r.flash, HEADER_AT, HEADER_AT + SectorsFor(image) * SECTOR)
    && r.datalen == (c.datalen + |image| + SECTOR) % U32
  }

  /**
   A download puts the image into flash from every state, in front of it a header with a valid checksum, and
   changes nothing outside the erased sectors. The header records this image exactly when the driver's
   counter was 0 before, because ProgramPage never resets it; it is truthful about some stretch of flash
   exactly when the counter plus the length fits.
  */
  lemma DownloadInstallsImage(c: Chip, image: seq<bv8>)
    requires Valid(c) && 0 < |image| <= ROOM && |image| % 4 == 0
    ensures Feasible(c, Download(image))
    ensures var r := Run(c, Download(image));
            && DownloadDone(c, image, r)
            && (Records(HeaderBytes(r.flash), image) <==> c.datalen == 0)
            && (Truthful(r.flash) <==> (c.datalen + |image|) % U32 <= ROOM)
  {
    hide Run, Feasible, EraseOps, PageOps, Crc, Truthful, Parse, HasMagic, Installed, Sealed, NewHeader, Records,
         Plain, ChecksumOk;
    LoadingDone(c, image);
    var c2 := Run(c, Loading(image));
    RunOne(c2, VerifyOp);
    RunConcat(c, Loading(image), [VerifyOp]);
    HeaderOfDownload(c2, image, c.datalen);
  }

  /** The state that the final verify meets. */
  ghost predicate Loaded(c: Chip, image: seq<bv8>, r: Chip) {
    && Valid(r) && IMAGE_AT + |image| <= FLASH_SIZE
    && !HasMagic(r.flash) && r.flash[IMAGE_AT..IMAGE_AT + |image|] == image
    && r.lenReg == r.datalen == (c.datalen + |image|) % U32
    && SameOutside(c.flash, r.flash, HEADER_AT, HEADER_AT + SectorsFor(image) * SECTOR)
  }

  lemma LoadingDone(c: Chip, image: seq<bv8>)
    requires Valid(c) && 0 < |image| <= ROOM && |image| % 4 == 0
    ensures Feasible(c, Loading(image)) && Loaded(c, image, Run(c, Loading(image)))
  {
    hide Run, Feasible, EraseOps, PageOps, HasMagic, SectorsFor, SameOutside, IsErased, Overlay;
    var n := SectorsFor(image);
    var erases, pages := EraseOps(0x8010000, n), PageOps(IMAGE_ADDR, image);
    EnoughSectors(image);
    RunErases(c, HEADER_AT, n);
    var c1 := Run(c, erases);
    ImageInErased(c.flash, c1.flash, HEADER_AT + n * 4096, image);
    RunPages(c1, IMAGE_AT, image);
    RunConcat(c, erases, pages);
    BlankHasNoMagic(Run(c1, pages).flash);
  }

  lemma EnoughSectors(image: seq<bv8>)
    requires |image| <= ROOM
    ensures IMAGE_AT + |image| <= HEADER_AT + SectorsFor(image) * 4096 <= FLASH_SIZE
  {
  }

  lemma ImageInErased(f: seq<bv8>, g: seq<bv8>, to: nat, image: seq<bv8>)
    requires IMAGE_AT + |image| <= to <= |f| && SameOutside(f, g, HEADER_AT, to) && IsErased(g, HEADER_AT, to)
    ensures IsErased(g, IMAGE_AT, IMAGE_AT + |image|)
    ensures var h := Overlay(g, IMAGE_AT, image);
            && IsErased(h, HEADER_AT, HEADER_AT + 4) && h[IMAGE_AT..IMAGE_AT + |image|] == image
            && SameOutside(f, h, HEADER_AT, to)
  {
  }

  lemma HeaderOfDownload(c: Chip, image: seq<bv8>, start: nat)
    requires Valid(c) && !HasMagic(c.flash) && |image| <= ROOM && start < U32
    requires c.lenReg == c.datalen == (start + |image|) % U32
    requires c.flash[IMAGE_AT..IMAGE_AT + |image|] == image
    ensures var f := Installed(c).flash;
            && |f| == FLASH_SIZE && f[IMAGE_AT..IMAGE_AT + |image|] == image
            && Parse(HeaderBytes(f)).runLen == (start + |image|) % U32
            && Parse(HeaderBytes(f)).magic == 0xA0FFFF9F && Parse(HeaderBytes(f)).runAddr == 0x8010100
            && Plain(Parse(HeaderBytes(f))) && ChecksumOk(HeaderBytes(f))
            && (Truthful(f) <==> (start + |image|) % U32 <= ROOM)
            && (Records(HeaderBytes(f), image) <==> start == 0)
            && SameOutside(c.flash, f, HEADER_AT, HEADER_AT + HEADER_LEN)
    ensures Installed(c).datalen == (start + |image| + SECTOR) % U32
  {
    hide Crc, Truthful, Parse, HasMagic, Sealed, ChecksumOk;
    NewHeaderInFlash(c);
    InstalledTruthful(c);
    InRange(start + |image|, U32);
    WrapAdd(start + |image|, SECTOR);
  }

  /**
   Two downloads in a row without restarting the driver: the second image is in flash, but its header
   claims the bytes of both downloads and of the header sector, and so does not record it.
  */
  lemma SecondDownloadMislabelled(c: Chip, first: seq<bv8>, second: seq<bv8>)
    requires Valid(c) && c.datalen == 0
    requires 0 < |first| <= ROOM && |first| % 4 == 0 && 0 < |second| <= ROOM && |second| % 4 == 0
    ensures Feasible(c, Download(first) + Download(second))
    ensures var f := Run(c, Download(first) + Download(second)).flash;
            && f[IMAGE_AT..IMAGE_AT + |second|] == second
            && Parse(HeaderBytes(f)).runLen == |first| + SECTOR + |second|
            && !Records(HeaderBytes(f), second)
  {
    hide Run, Feasible, Download, Parse, HeaderBytes, Records, Truthful, SameOutside, SectorsFor,
         Plain, ChecksumOk;
    DownloadInstallsImage(c, first);
    var c1 := Run(c, Download(first));
    DownloadInstallsImage(c1, second);
    RunConcat(c, Download(first), Download(second));
  }

  /** Verifying right after an erase takes the erase command for a length: the header then never tells the truth. */
  lemma EraseThenVerifyMisleads(c: Chip)
    requires Valid(c)
    ensures Feasible(c, [EraseOp(0x8010000), VerifyOp])
    ensures var f := Run(c, [EraseOp(0x8010000), VerifyOp]).flash;
            !Truthful(f) && Parse(HeaderBytes(f)).runLen == 0x80000820
  {
    hide Crc, Truthful, Parse, HasMagic, Sealed, ChecksumOk, Run, Feasible;
    var c1 := Erased(c, 0x8010000);
    SectorAt(HEADER_AT);
    BlankHasNoMagic(c1.flash);
    RunOne(c, EraseOp(0x8010000));
    RunOne(c1, VerifyOp);
    RunConcat(c, [EraseOp(0x8010000)], [VerifyOp]);
    assert [EraseOp(0x8010000)] + [VerifyOp] == [EraseOp(0x8010000), VerifyOp];
    NewHeaderInFlash(c1);
    InstalledTruthful(c1);
  }

  /** A header that records an image records no image that differs from it in one burst of up to 32 bits. */
  lemma DamageShows(header: seq<bv8>, image: seq<bv8>, damaged: seq<bv8>, p: nat)
    requires |header| == HEADER_LEN && Records(header, image)
    requires damaged != image && DifferInBurst(image, damaged, p)
    ensures !Records(header, damaged)
  {
    hide Crc, DifferInBurst, Parse;
    BurstDetected(SEED, image, damaged, p);
  }
}
