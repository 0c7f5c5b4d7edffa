/**
 What the SWD flash driver's entry points do to the chip, as functions on its state
 (Doc/W60X_QFLASH_Driver_for_SWD/W60X_QFlash/FlashPrg.c:163-273), and what holds over whole runs.
 The flash is 1 MB of bytes (FlashDev.c:17-27): erasing sets a 4 KB sector to 0xFF, programming
 can only clear bits. Register 0x40002000 doubles as the command register and the length store.
*/
module FlashChip {
  import opened Arith
  import Words
  import opened CrcWord
  import opened ImageHeader

  const FLASH_SIZE := 0x100000
  const SECTOR := 4096
  const PAGE := 256
  const INT_LIMIT := 0x8000_0000

  /** Offsets of the header sector (address 0x8010000) and of the image behind it. */
  const HEADER_AT := 0x10000
  const IMAGE_AT := 0x10100
  const IMAGE_ADDR: nat := 0x8010100
  const ROOM := FLASH_SIZE - IMAGE_AT

  /** The command EraseSector leaves in register 0x40002000. */
  const ERASE_COMMAND := 0x80000820

  /** `beyond` is what the address space behind the flash reads as; nothing writes it. */
  datatype Chip = Chip(
    flash: seq<bv8>, beyond: seq<bv8>, window: seq<bv8>, lenReg: nat, datalen: nat, fileCrc: bv32)

  predicate Valid(c: Chip) {
    && |c.flash| == FLASH_SIZE && |c.beyond| == INT_LIMIT && |c.window| == PAGE
    && c.lenReg < U32 && c.datalen < U32
  }

  // ---------- erase and program ----------

  function EraseAt(f: seq<bv8>, off: nat): (r: seq<bv8>)
    ensures |r| == |f|
    ensures forall i :: 0 <= i < |f| ==> r[i] == if off <= i < off + SECTOR then 0xFF else f[i]
  {
    seq(|f|, i requires 0 <= i < |f| => if off <= i < off + SECTOR then 0xFF else f[i])
  }

  function And8(a: bv8, b: bv8): bv8 { a & b }

  function AndAt(f: seq<bv8>, off: nat, data: seq<bv8>): (r: seq<bv8>)
    ensures |r| == |f|
    ensures forall i :: 0 <= i < |f| ==> r[i] == if off <= i < off + |data| then And8(f[i], data[i - off]) else f[i]
  {
    seq(|f|, i requires 0 <= i < |f| => if off <= i < off + |data| then And8(f[i], data[i - off]) else f[i])
  }

  function Overlay(f: seq<bv8>, off: nat, data: seq<bv8>): (r: seq<bv8>)
    requires off + |data| <= |f|
    ensures |r| == |f|
    ensures forall i :: 0 <= i < |f| ==> r[i] == if off <= i < off + |data| then data[i - off] else f[i]
  {
    f[..off] + data + f[off + |data|..]
  }

  /** The start of the sector that an address falls in; the chip decodes 20 address bits. */
  function SectorOf(adr: nat): (r: nat)
    ensures r % SECTOR == 0 && r + SECTOR <= FLASH_SIZE && r <= adr % 0x100000 < r + 4096
  {
    adr % FLASH_SIZE / SECTOR * SECTOR
  }

  function Erased(c: Chip, adr: nat): Chip {
    c.(flash := EraseAt(c.flash, SectorOf(adr)), lenReg := ERASE_COMMAND)
  }

  /** The burst length is encoded as (sz - 1) & 0xFF, so an empty page sends the whole window. */
  function BurstLength(sz: nat): nat
    requires sz <= PAGE
  {
    if sz == 0 then PAGE else sz
  }

  predicate PageOk(adr: nat, data: seq<bv8>) {
    adr % PAGE == 0 && |data| % 4 == 0 && |data| <= PAGE
  }

  lemma WrapAdd(a: nat, b: nat)
    ensures (a % U32 + b) % U32 == (a + b) % U32
  {
  }

  lemma PageInFlash(adr: nat)
    requires adr % PAGE == 0
    ensures adr % FLASH_SIZE + PAGE <= FLASH_SIZE && adr % FLASH_SIZE % PAGE == 0
  {
  }

  function Programmed(c: Chip, adr: nat, data: seq<bv8>): Chip
    requires Valid(c) && PageOk(adr, data)
  {
    var window := data + c.window[|data|..];
    var datalen := (c.datalen + |data|) % U32;
    c.(flash := AndAt(c.flash, adr % FLASH_SIZE, window[..BurstLength(|data|)]),
       window := window, lenReg := datalen, datalen := datalen)
  }

  /** What the controller is sent: the page, or the stale window for an empty one. */
  function Sent(c: Chip, data: seq<bv8>): seq<bv8> {
    if data == [] then c.window else data
  }

  /** Programming ANDs what is sent into the flash at the address and changes no other byte. */
  lemma ProgrammedBytes(c: Chip, adr: nat, data: seq<bv8>, i: nat)
    requires Valid(c) && PageOk(adr, data) && i < 0x100000
    ensures var r, off, sent := Programmed(c, adr, data), adr % 0x100000, Sent(c, data);
            && r.flash[i] == (if off <= i < off + |sent| then And8(c.flash[i], sent[i - off]) else c.flash[i])
            && r.window == data + c.window[|data|..]
            && r.lenReg == r.datalen == (c.datalen + |data|) % 0x1_0000_0000 && r.fileCrc == c.fileCrc
  {
    hide And8;
    var window := data + c.window[|data|..];
    assert window[..BurstLength(|data|)] == Sent(c, data);
  }

  /** A bit is set afterwards exactly when it was set and is sent as set. */
  lemma ProgrammedBit(a: bv8, b: bv8, k: nat)
    requires k < 8
    ensures ByteBits(And8(a, b))[k] == (ByteBits(a)[k] && ByteBits(b)[k])
  {
    hide Words.Bit, Words.And32;
    WidenAnd(a, b);
    Words.BitAnd(a as bv32, b as bv32, k);
  }

  lemma WidenAnd(a: bv8, b: bv8)
    ensures And8(a, b) as bv32 == Words.And32(a as bv32, b as bv32)
  {
  }

  // ---------- installing the header ----------

  predicate HasMagic(f: seq<bv8>)
    requires |f| == FLASH_SIZE
  {
    FromLE(f[HEADER_AT..HEADER_AT + 4]) == MAGIC
  }

  /** How many bytes get_crc32 reads when the register value is passed as its int size. */
  function BytesRead(imglen: nat): nat {
    if imglen < INT_LIMIT then imglen else 0
  }

  /** What is checksummed as the image: from 0x8010100 on, past the end of the flash if the register says so. */
  function ImageRead(c: Chip): (r: seq<bv8>)
    requires Valid(c)
    ensures c.lenReg <= ROOM ==> r == c.flash[IMAGE_AT..IMAGE_AT + c.lenReg]
    ensures |r| == if c.lenReg < 0x8000_0000 then c.lenReg else 0
    ensures forall i :: 0 <= i < |r| ==> r[i] == if i < ROOM then c.flash[IMAGE_AT + i] else c.beyond[i - ROOM]
  {
    (c.flash[IMAGE_AT..] + c.beyond)[..BytesRead(c.lenReg)]
  }

  function NewHeader(c: Chip): Header
    requires Valid(c)
  {
    Header(MAGIC, 0, 0, IMAGE_ADDR, c.lenReg, Crc(SEED, ImageRead(c)), 0, 0, 0, 0, seq(16, i => 0))
  }

  /** The chip after UpdateImgHeader: untouched if the magic is there, else with only the header replaced. */
  function Installed(c: Chip): Chip
    requires Valid(c)
  {
    if HasMagic(c.flash) then c
    else
      var header := Sealed(NewHeader(c));
      var flash := Overlay(c.flash, HEADER_AT, header);
      var datalen := (c.datalen + SECTOR) % U32;
      Chip(flash, c.beyond, flash[HEADER_AT + SECTOR - PAGE..HEADER_AT + SECTOR], datalen, datalen,
           Crc(SEED, header[..52]))
  }

  function HeaderBytes(f: seq<bv8>): (r: seq<bv8>)
    requires |f| == FLASH_SIZE
    ensures |r| == HEADER_LEN
  {
    f[HEADER_AT..HEADER_AT + HEADER_LEN]
  }

  /** The header records this image: its length and its checksum. */
  predicate Records(header: seq<bv8>, image: seq<bv8>)
    requires |header| == HEADER_LEN
  {
    Parse(header).runLen == |image| && Parse(header).runChecksum == Crc(SEED, image)
  }

  /** The header in flash passes its checksum and names an image that lies in flash with the checksum it records. */
  predicate Truthful(f: seq<bv8>)
    requires |f| == FLASH_SIZE
  {
    var h := Parse(HeaderBytes(f));
    && h.magic == MAGIC && ChecksumOk(HeaderBytes(f))
    && h.runAddr == IMAGE_ADDR && h.runLen <= ROOM
    && Records(HeaderBytes(f), f[IMAGE_AT..IMAGE_AT + h.runLen])
  }

  lemma NewHeaderInFlash(c: Chip)
    requires Valid(c) && !HasMagic(c.flash)
    ensures HeaderBytes(Installed(c).flash) == Sealed(NewHeader(c))
    ensures Parse(HeaderBytes(Installed(c).flash)) == NewHeader(c) && ChecksumOk(HeaderBytes(Installed(c).flash))
    ensures HasMagic(Installed(c).flash) && Valid(Installed(c))
    ensures forall i :: 0 <= i < FLASH_SIZE && !(HEADER_AT <= i < HEADER_AT + HEADER_LEN)
              ==> Installed(c).flash[i] == c.flash[i]
  {
    hide Crc, Sealed, Parse, ChecksumOk, FromLE;
    var h := NewHeader(c);
    var f := Installed(c).flash;
    SealedRoundTrip(h);
    assert HeaderBytes(f) == Sealed(h);
    MagicOfHeader(f);
  }

  lemma MagicOfHeader(f: seq<bv8>)
    requires |f| == FLASH_SIZE
    ensures HasMagic(f) <==> Parse(HeaderBytes(f)).magic == MAGIC
  {
    hide FromLE;
    assert HeaderBytes(f)[..4] == f[HEADER_AT..HEADER_AT + 4];
  }

  /** A freshly installed header tells the truth exactly when the length register was a length that fits. */
  lemma InstalledTruthful(c: Chip)
    requires Valid(c) && !HasMagic(c.flash)
    ensures |Installed(c).flash| == FLASH_SIZE
    ensures Truthful(Installed(c).flash) <==> c.lenReg <= ROOM
  {
    hide Crc, Sealed, Parse, ChecksumOk, FromLE, HasMagic;
    NewHeaderInFlash(c);
    var f := Installed(c).flash;
    if c.lenReg <= ROOM {
      assert f[IMAGE_AT..IMAGE_AT + c.lenReg] == c.flash[IMAGE_AT..IMAGE_AT + c.lenReg];
    }
  }

  /**
   The outcome of an install, field by field: nothing changes when the magic number is there; else a plain
   header for the length in the register, which checksums to 0 as a whole, with the counters moved on by
   the header sector.
  */
  lemma InstalledFields(c: Chip)
    requires Valid(c)
    ensures var r := Installed(c);
            if c.flash[0x10000..0x10004] == [0x9F, 0xFF, 0xFF, 0xA0] then r == c
            else
              && Valid(r)
              && var h := Parse(HeaderBytes(r.flash));
                 && h.magic == 0xA0FFFF9F && h.runAddr == 0x8010100 && h.runLen == c.lenReg && Plain(h)
                 && h.runChecksum == Crc(0xFFFFFFFF, ImageRead(c)) && Crc(0xFFFFFFFF, r.flash[0x10000..0x10038]) == 0
                 && r.lenReg == r.datalen == (c.datalen + 4096) % 0x1_0000_0000
                 && r.window == r.flash[0x10F00..0x11000] && r.fileCrc == Crc(0xFFFFFFFF, r.flash[0x10000..0x10034])
  {
    hide Crc, Sealed, Parse, ChecksumOk, FromLE, ImageRead;
    MagicBytes(c.flash[0x10000..0x10004]);
    if !HasMagic(c.flash) {
      NewHeaderInFlash(c);
      var f := Installed(c).flash;
      HeaderCancels(HeaderBytes(f));
      assert f[0x10000..0x10034] == HeaderBytes(f)[..52];
    }
  }

  /** Verifying twice is verifying once. */
  lemma InstalledTwice(c: Chip)
    requires Valid(c)
    ensures Valid(Installed(c)) && Installed(Installed(c)) == Installed(c)
  {
    hide Crc, Sealed, Parse, ChecksumOk, FromLE, HasMagic;
    if !HasMagic(c.flash) {
      NewHeaderInFlash(c);
    }
  }
}
