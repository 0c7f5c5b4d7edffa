/**
 The flash driver itself (Doc/W60X_QFLASH_Driver_for_SWD/W60X_QFlash/FlashPrg.c): file_crc, the
 static datalen, the controller registers and the memory-mapped flash are fields that the entry
 points update in place. Each entry point is proved against its function in FlashChip.
*/
module FlashDriver {
  import opened Arith
  import opened Words
  import opened CrcWord
  import opened CrcModes
  import opened ImageHeader
  import opened FlashChip

  class Driver {
    const flash: array<bv8>
    const beyond: seq<bv8>
    const window: array<bv8>
    var lenReg: nat
    var datalen: nat
    var fileCrc: bv32

    ghost predicate Ready()
      reads this, flash, window
    {
      flash != window && Valid(State())
    }

    ghost function State(): Chip
      reads this, flash, window
    {
      Chip(flash[..], beyond, window[..], lenReg, datalen, fileCrc)
    }

    constructor (contents: seq<bv8>, behind: seq<bv8>, reg: nat)
      requires |contents| == FLASH_SIZE && |behind| == INT_LIMIT && reg < U32
      ensures Ready() && fresh(flash) && fresh(window)
      ensures State().flash == contents && beyond == behind && lenReg == reg && datalen == 0 && fileCrc == SEED
    {
      flash := new bv8[FLASH_SIZE](i requires 0 <= i < FLASH_SIZE => contents[i]);
      beyond, window := behind, new bv8[PAGE](i => 0);
      lenReg, datalen, fileCrc := reg, 0, SEED;
    }

    method GetCrc32(buffer: seq<bv8>, size: int, mode: bv8) returns (r: bv32)
      requires size <= |buffer|
      modifies this`fileCrc
      ensures r == fileCrc == Updated(old(fileCrc), buffer[..if size < 0 then 0 else size], mode)
    {
      hide Crc, Taken, Reflected;
      fileCrc := Crc32(fileCrc, buffer, size, mode);
      if mode & OUTPUT_REFLECT != 0 {
        var v := Reflect(Wide(fileCrc), 32);
        fileCrc := Low(v);
      }
      r := fileCrc;
    }

    method EraseSector(adr: nat) returns (status: nat)
      requires Ready()
      modifies this`lenReg, flash
      ensures status == 0
      ensures Ready() && State() == Erased(old(State()), adr)
    {
      lenReg := ERASE_COMMAND;
      var off := SectorOf(adr);
      forall i | off <= i < off + SECTOR {
        flash[i] := 0xFF;
      }
      assert flash[..] == EraseAt(old(flash[..]), off);
      status := 0;
    }

    /** Copies a page into the controller's data window word by word. */
    method FillWindow(buf: seq<bv8>)
      requires |buf| % 4 == 0 && |buf| <= window.Length
      modifies window
      ensures window[..] == buf + old(window[..])[|buf|..]
    {
      var done := 0;
      while done < |buf|
        invariant 0 <= done <= |buf| && done % 4 == 0
        invariant forall i :: 0 <= i < done ==> window[i] == buf[i]
        invariant forall i :: done <= i < window.Length ==> window[i] == old(window[i])
      {
        window[done], window[done + 1], window[done + 2], window[done + 3] :=
          buf[done], buf[done + 1], buf[done + 2], buf[done + 3];
        done := done + 4;
      }
    }

    /** The controller programs the first `n` bytes of the window: bits only go from 1 to 0. */
    method SendWindow(off: nat, n: nat)
      requires flash != window && n <= window.Length && off + n <= flash.Length
      modifies flash
      ensures flash[..] == AndAt(old(flash[..]), off, window[..][..n])
    {
      forall i | off <= i < off + n {
        flash[i] := And8(flash[i], window[i - off]);
      }
    }

    method ProgramPage(adr: nat, buf: seq<bv8>) returns (status: nat)
      requires Ready() && PageOk(adr, buf)
      modifies this`lenReg, this`datalen, flash, window
      ensures status == 0
      ensures Ready() && State() == Programmed(old(State()), adr, buf)
    {
      hide And8;
      datalen := (datalen + |buf|) % U32;
      FillWindow(buf);
      PageInFlash(adr);
      SendWindow(adr % FLASH_SIZE, BurstLength(|buf|));
      lenReg := datalen;
      status := 0;
    }

    /** Installs the 56-byte header in front of the image unless it is already there. */
    method UpdateImgHeader() returns (status: nat)
      requires Ready()
      modifies this, flash, window
      ensures status == 0
      ensures Ready() && State() == Installed(old(State()))
    {
      hide Crc, Updated, Fields, FromLE, WordLE, Overlay;
      ghost var c := State();
      var imglen := lenReg;
      status := 0;
      if FromLE(flash[HEADER_AT..HEADER_AT + 4]) != MAGIC {
        fileCrc := SEED;
        var size := if imglen < INT_LIMIT then imglen else imglen - U32;
        var image := flash[IMAGE_AT..] + beyond;
        var _ := GetCrc32(image, size, 0);
        PlainMode(SEED, ImageRead(c));
        var rdbuf := flash[HEADER_AT..HEADER_AT + SECTOR];
        var booter := Header(MAGIC, 0, 0, IMAGE_ADDR, imglen, fileCrc, 0, 0, 0, 0, seq(16, i => 0));
        assert booter == NewHeader(c);
        fileCrc := SEED;
        var fields := Fields(booter);
        var _ := GetCrc32(fields, |fields|, 0);
        assert fields[..|fields|] == fields;
        PlainMode(SEED, fields);
        var header := fields + WordLE(fileCrc);
        rdbuf := header + rdbuf[|header|..];
        SectorWithHeader(c, rdbuf);
        RewriteSector(rdbuf);
      }
    }

    /** Erases the header sector and programs it page by page. */
    method RewriteSector(rdbuf: seq<bv8>)
      requires Ready() && |rdbuf| == SECTOR
      modifies this, flash, window
      ensures Ready()
      ensures flash[..] == Overlay(old(flash[..]), HEADER_AT, rdbuf) && window[..] == rdbuf[SECTOR - PAGE..]
      ensures lenReg == datalen == (old(datalen) + SECTOR) % U32 && fileCrc == old(fileCrc)
    {
      hide AndAt, Overlay, PartlyWritten, EraseAt;
      ghost var before := flash[..];
      NothingWritten(before, rdbuf);
      var _ := EraseSector(0x8010000);
      var i := 0;
      while i < 16
        invariant 0 <= i <= 16 && Ready()
        invariant datalen == (old(datalen) + i * 256) % U32 && (i > 0 ==> lenReg == datalen)
        invariant fileCrc == old(fileCrc)
        invariant i > 0 ==> window[..] == rdbuf[(i - 1) * 256..i * 256]
        invariant flash[..] == PartlyWritten(before, rdbuf, i * 256)
      {
        var _ := ProgramPage(0x8010000 + i * 256, rdbuf[i * 256..(i + 1) * 256]);
        WriteNextPage(before, rdbuf, i);
        WrapAdd(old(datalen) + i * 256, 256);
        i := i + 1;
      }
      AllWritten(before, rdbuf);
    }

    method Verify(adr: nat, sz: nat) returns (r: nat)
      requires Ready()
      modifies this, flash, window
      ensures r == (adr + sz) % U32
      ensures Ready() && State() == Installed(old(State()))
    {
      var _ := UpdateImgHeader();
      r := (adr + sz) % U32;
    }
  }

  lemma SectorWithHeader(c: Chip, rdbuf: seq<bv8>)
    requires Valid(c) && !HasMagic(c.flash)
    requires rdbuf == Sealed(NewHeader(c)) + c.flash[HEADER_AT..HEADER_AT + SECTOR][HEADER_LEN..]
    ensures Overlay(c.flash, HEADER_AT, rdbuf) == Installed(c).flash
    ensures rdbuf[SECTOR - PAGE..] == Installed(c).window
    ensures Installed(c).fileCrc == Crc(SEED, Fields(NewHeader(c)))
  {
    hide Crc, Fields, HasMagic, WordLE, Overlay;
    var header := Sealed(NewHeader(c));
    assert header[..52] == Fields(NewHeader(c));
    HeaderInSector(c.flash, header, rdbuf);
  }

  lemma HeaderInSector(f: seq<bv8>, header: seq<bv8>, rdbuf: seq<bv8>)
    requires |f| == FLASH_SIZE && |header| == HEADER_LEN
    requires rdbuf == header + f[HEADER_AT..HEADER_AT + SECTOR][HEADER_LEN..]
    ensures |rdbuf| == SECTOR && Overlay(f, HEADER_AT, rdbuf) == Overlay(f, HEADER_AT, header)
    ensures rdbuf[SECTOR - PAGE..] == Overlay(f, HEADER_AT, header)[HEADER_AT + SECTOR - PAGE..HEADER_AT + SECTOR]
  {
  }

  /** The header sector while it is rewritten: the first `n` bytes are done, the rest is still erased. */
  function PartlyWritten(f: seq<bv8>, rdbuf: seq<bv8>, n: nat): (r: seq<bv8>)
    requires |f| == FLASH_SIZE && |rdbuf| == SECTOR && n <= SECTOR
    ensures |r| == |f|
  {
    Overlay(EraseAt(f, HEADER_AT), HEADER_AT, rdbuf[..n])
  }

  lemma ErasedAnd(b: bv8)
    ensures And8(0xFF, b) == b
  {
  }

  lemma NothingWritten(f: seq<bv8>, rdbuf: seq<bv8>)
    requires |f| == FLASH_SIZE && |rdbuf| == SECTOR
    ensures EraseAt(f, SectorOf(0x8010000)) == PartlyWritten(f, rdbuf, 0)
  {
  }

  lemma WriteNextPage(f: seq<bv8>, rdbuf: seq<bv8>, i: nat)
    requires |f| == FLASH_SIZE && |rdbuf| == SECTOR && i < 16
    ensures (0x8010000 + i * 256) % FLASH_SIZE == HEADER_AT + i * 256
    ensures AndAt(PartlyWritten(f, rdbuf, i * 256), HEADER_AT + i * 256, rdbuf[i * 256..(i + 1) * 256])
         == PartlyWritten(f, rdbuf, (i + 1) * 256)
  {
    hide And8;
    var page := rdbuf[i * 256..(i + 1) * 256];
    forall k | 0 <= k < 256 ensures And8(0xFF, page[k]) == page[k] {
      ErasedAnd(page[k]);
    }
  }

  lemma AllWritten(f: seq<bv8>, rdbuf: seq<bv8>)
    requires |f| == FLASH_SIZE && |rdbuf| == SECTOR
    ensures PartlyWritten(f, rdbuf, SECTOR) == Overlay(f, HEADER_AT, rdbuf)
  {
  }
}
