/**
 makeimg_dbg.py and makeimg_fls.py: laying out flash images by prefilling a file and overwriting
 parts of it. The offsets are those of the scripts: a 56-byte header, image data 256 bytes behind
 the start of its own header, and 56 KB for the second boot loader.
*/
module FlsImage {
  import opened Wrappers
  import opened CrcWord
  import opened ImageHeader
  import opened BinFile

  const BODY_GAP := 0x100
  const SEC_TOTAL := 57344
  const SEC_AT := 56
  const APP_AT := 56 + 57344
  const SEC_HEADER_POS: nat := 0x2000

  datatype FlsError = ShortInput | BadMagic | TooLong

  /** zlib.crc32: the checksum of section 8 of RFC 1952, complemented at both ends. */
  function Zlib(data: seq<bv8>): bv32 {
    Crc(SEED, data) ^ 0xFFFFFFFF
  }

  /** What the scripts write: crc32(data) ^ 0xFFFFFFFF. */
  function ScriptCrc(data: seq<bv8>): bv32 {
    Zlib(data) ^ 0xFFFFFFFF
  }

  function CheckMagic(image: seq<bv8>): Result<(), FlsError> {
    if |image| < 4 then Err(ShortInput)
    else if FromLE(image[..4]) != MAGIC then Err(BadMagic)
    else Ok(())
  }

  predicate StartsWithMagic(image: seq<bv8>) {
    |image| >= 4 && image[..4] == [0x9F, 0xFF, 0xFF, 0xA0]
  }

  lemma MagicChecked(image: seq<bv8>)
    ensures CheckMagic(image) == if |image| < 4 then Err(ShortInput)
                                 else if StartsWithMagic(image) then Ok(()) else Err(BadMagic)
  {
    hide FromLE;
    if |image| >= 4 {
      MagicBytes(image[..4]);
    }
  }

  // ---------- makeimg_dbg.py ----------

  /** The debug image: the header, 0xFF up to offset 256, the rest of the input. */
  function DebugImage(image: seq<bv8>): (r: seq<bv8>)
    ensures |r| == |image| + 200
  {
    if |image| <= 56 then image + Fill(0xFF, 200) else image[..56] + Fill(0xFF, 200) + image[56..]
  }

  lemma DebugLayout(image: seq<bv8>)
    ensures WriteAt(WriteAt(Fill(0xFF, 200 + |image|), 0, Slice(image, 0, 56)), BODY_GAP, Slice(image, 56, |image|))
         == DebugImage(image)
  {
    hide WriteAt;
    var head, tail := Slice(image, 0, 56), Slice(image, 56, |image|);
    if |image| <= 56 {
      assert head == image && tail == [];
    } else {
      assert head == image[..56] && tail == image[56..];
    }
  }

  method MakeDbg(image: seq<bv8>) returns (r: Result<seq<bv8>, FlsError>)
    ensures |image| < 4 <==> r == Err(ShortInput)
    ensures |image| >= 4 && !StartsWithMagic(image) <==> r == Err(BadMagic)
    ensures StartsWithMagic(image) <==> r == Ok(DebugImage(image))
  {
    hide WriteAt, Slice, Fill, DebugImage, CheckMagic;
    MagicChecked(image);
    var magic := CheckMagic(image);
    if magic.Err? {
      return Err(magic.error);
    }
    var out := new File([]);
    out.Write(Fill(0xFF, 0x100 + |image| - 56));
    WriteToEmpty(Fill(0xFF, 200 + |image|));
    PlaceParts(out, image, 0);
    DebugLayout(image);
    r := Ok(out.content);
  }

  lemma WriteToEmpty(data: seq<bv8>)
    ensures WriteAt([], 0, data) == data
  {
  }

  lemma SliceRest(f: seq<bv8>)
    ensures Slice(f, |Slice(f, 0, 56)|, |f|) == Slice(f, 56, |f|)
  {
  }

  // ---------- makeimg_fls.py ----------

  /** The output before its own header is written: the prefill and the four overwrites. */
  function FlsBody(sec: seq<bv8>, app: seq<bv8>): (r: seq<bv8>)
    ensures |r| >= SEC_TOTAL + |app|
  {
    var f0 := Fill(0xFF, SEC_TOTAL + |app|);
    var f1 := WriteAt(f0, SEC_AT, Slice(sec, 0, 56));
    var f2 := WriteAt(f1, SEC_AT + BODY_GAP, Slice(sec, 56, |sec|));
    var f3 := WriteAt(f2, APP_AT, Slice(app, 0, 56));
    WriteAt(f3, APP_AT + BODY_GAP, Slice(app, 56, |app|))
  }

  function FlsHeader(content: seq<bv8>): Header {
    Header(MAGIC, 0, 0, SEC_HEADER_POS, |content|, Crc(SEED, content), 0, 0, 0, 0, Fill(0, 16))
  }

  function FlsFile(sec: seq<bv8>, app: seq<bv8>): (r: seq<bv8>)
    ensures |r| == |FlsBody(sec, app)|
  {
    var body := FlsBody(sec, app);
    Sealed(FlsHeader(body[56..])) + body[56..]
  }

  lemma HeaderWrittenLast(body: seq<bv8>, fields: seq<bv8>, crc: seq<bv8>)
    requires |body| >= 56 && |fields| == 52 && |crc| == 4
    ensures WriteAt(WriteAt(body, 0, fields), 52, crc) == fields + crc + body[56..]
    ensures Slice(body, 56, |body|) == body[56..]
  {
  }

  /** The complement undoes the one inside zlib.crc32: the scripts compute what the flash driver does. */
  lemma ScriptCrcIs(data: seq<bv8>)
    ensures ScriptCrc(data) == Crc(SEED, data)
  {
    hide Crc;
  }

  method MakeFls(sec: seq<bv8>, app: seq<bv8>) returns (r: Result<seq<bv8>, FlsError>)
    ensures |sec| < 4 ==> r == Err(ShortInput)
    ensures |sec| >= 4 && !StartsWithMagic(sec) ==> r == Err(BadMagic)
    ensures StartsWithMagic(sec) && |app| < 4 ==> r == Err(ShortInput)
    ensures StartsWithMagic(sec) && |app| >= 4 && !StartsWithMagic(app) ==> r == Err(BadMagic)
    ensures StartsWithMagic(sec) && StartsWithMagic(app) ==>
              r == if |FlsBody(sec, app)| - 56 >= 0x1_0000_0000 then Err(TooLong) else Ok(FlsFile(sec, app))
  {
    hide Sealed, CheckMagic, FlsBody, FlsHeader;
    MagicChecked(sec);
    MagicChecked(app);
    var magic := CheckMagic(sec);
    if magic.Err? {
      return Err(magic.error);
    }
    magic := CheckMagic(app);
    if magic.Err? {
      return Err(magic.error);
    }
    var out := LayOut(sec, app);
    r := AddHeader(out);
  }

  /** Prefills the file and overwrites it with the parts of both inputs. */
  method LayOut(sec: seq<bv8>, app: seq<bv8>) returns (out: File)
    ensures fresh(out) && out.content == FlsBody(sec, app)
  {
    hide WriteAt, Slice, Fill;
    out := new File([]);
    out.Write(Fill(0xFF, SEC_TOTAL + |app|));
    WriteToEmpty(Fill(0xFF, SEC_TOTAL + |app|));
    PlaceParts(out, sec, SEC_AT);
    PlaceParts(out, app, APP_AT);
  }

  /** Copies the header of an input to `at` and the rest 256 bytes behind it. */
  method PlaceParts(out: File, image: seq<bv8>, at: nat)
    modifies out
    ensures out.content
         == WriteAt(WriteAt(old(out.content), at, Slice(image, 0, 56)), at + BODY_GAP, Slice(image, 56, |image|))
  {
    hide WriteAt, Slice;
    var input := new File(image);
    out.Seek(at);
    input.Seek(0);
    var part := input.Read(56);
    out.Write(part);
    out.Seek(at + BODY_GAP);
    SliceRest(image);
    part := input.ReadAll();
    out.Write(part);
  }

  /** Checksums everything from offset 56 on, then writes the header in front of it. */
  method AddHeader(out: File) returns (r: Result<seq<bv8>, FlsError>)
    requires |out.content| >= 56
    modifies out
    ensures var data := old(out.content)[56..];
            r == if |data| >= 0x1_0000_0000 then Err(TooLong) else Ok(Sealed(FlsHeader(data)) + data)
  {
    hide Crc, ScriptCrc, Fields, WordLE, WriteAt, Slice, Fill;
    ghost var body := out.content;
    out.Seek(56);
    HeaderWrittenLast(body, Fill(0, 52), Fill(0, 4));
    var data := out.ReadAll();
    if |data| >= 0x1_0000_0000 {
      return Err(TooLong);
    }
    ScriptCrcIs(data);
    var header := Header(MAGIC, 0, 0, SEC_HEADER_POS, |data|, ScriptCrc(data), 0, 0, 0, 0, Fill(0, 16));
    var fields := Fields(header);
    ScriptCrcIs(fields);
    out.Seek(0);
    out.Write(fields);
    out.Write(WordLE(ScriptCrc(fields)));
    HeaderWrittenLast(body, fields, WordLE(ScriptCrc(fields)));
    r := Ok(out.content);
  }

  // ---------- what the FLS file holds ----------

  /** The application part: behind a short image the prefill ends early and the gap is zero-filled. */
  function AppPart(app: seq<bv8>): (r: seq<bv8>)
    requires |app| >= 56
    ensures |r| == if |app| == 56 then 56 else |app| + 200
  {
    if |app| == 56 then app
    else
      var prefilled := if |app| < 112 then 0 else if |app| < 312 then |app| - 112 else 200;
      app[..56] + Fill(0xFF, prefilled) + Fill(0, 200 - prefilled) + app[56..]
  }

  predicate SecFits(sec: seq<bv8>) {
    56 <= |sec| <= SEC_TOTAL - 200
  }

  /** Who wrote byte `i` of the body, the last writer first; the rest is prefill or a zero-filled gap. */
  function BodyByte(sec: seq<bv8>, app: seq<bv8>, i: nat): bv8
    requires |sec| >= 56 && |app| >= 56
  {
    if APP_AT + BODY_GAP <= i < APP_AT + 200 + |app| then app[i - APP_AT - 200]
    else if APP_AT <= i < APP_AT + 56 then app[i - APP_AT]
    else if SEC_AT + BODY_GAP <= i < SEC_AT + 200 + |sec| then sec[i - SEC_AT - 200]
    else if SEC_AT <= i < SEC_AT + 56 then sec[i - SEC_AT]
    else if i < SEC_TOTAL + |app| then 0xFF else 0
  }

  lemma FlsBodyBytes(sec: seq<bv8>, app: seq<bv8>)
    requires |sec| >= 56 && |app| >= 56
    ensures forall i :: 0 <= i < |FlsBody(sec, app)| ==> FlsBody(sec, app)[i] == BodyByte(sec, app, i)
    ensures SecFits(sec) ==> |FlsBody(sec, app)| == APP_AT + |AppPart(app)|
    ensures |FlsBody(sec, app)| >= APP_AT + 56 && |FlsBody(sec, app)| >= SEC_AT + 200 + |sec|
  {
    hide WriteAt;
    assert Slice(sec, 0, 56) == sec[..56] && Slice(sec, 56, |sec|) == sec[56..];
    assert Slice(app, 0, 56) == app[..56] && Slice(app, 56, |app|) == app[56..];
  }

  /** The first 56 bytes of the input, 0xFF up to offset 256, the rest; all 0xFF behind a short input. */
  lemma DebugImageByte(image: seq<bv8>, i: nat)
    requires i < |image| + 200
    ensures DebugImage(image)[i]
         == if i < 56 && i < |image| then image[i] else if i < 256 || |image| <= 56 then 0xFF else image[i - 200]
  {
  }

  lemma AppPartByte(app: seq<bv8>, i: nat)
    requires |app| >= 56 && i < |AppPart(app)|
    ensures AppPart(app)[i]
         == if i < 56 then app[i] else if i >= 256 then app[i - 200] else if i < |app| - 56 then 0xFF else 0
  {
  }

  /** The file is its header, the debug image of the boot loader padded with 0xFF to 56 KB, the application part. */
  lemma FlsLayout(sec: seq<bv8>, app: seq<bv8>)
    requires SecFits(sec) && |app| >= 56
    ensures FlsBody(sec, app)[56..]
         == DebugImage(sec) + Fill(0xFF, SEC_TOTAL - 200 - |sec|) + AppPart(app)
  {
    hide FlsBody, DebugImage, AppPart;
    FlsBodyBytes(sec, app);
    var body := FlsBody(sec, app)[56..];
    var layout := DebugImage(sec) + Fill(0xFF, SEC_TOTAL - 200 - |sec|) + AppPart(app);
    forall i | 0 <= i < |body| ensures body[i] == layout[i] {
      assert body[i] == BodyByte(sec, app, i + 56);
      if i < |sec| + 200 {
        assert layout[i] == DebugImage(sec)[i];
        DebugImageByte(sec, i);
      } else if i >= SEC_TOTAL {
        assert layout[i] == AppPart(app)[i - SEC_TOTAL];
        AppPartByte(app, i - SEC_TOTAL);
      }
    }
  }

  /** The two inputs read back from their fixed offsets, given their lengths. */
  function SecOf(file: seq<bv8>, n: nat): seq<bv8>
    requires 56 <= n && SEC_AT + 200 + n <= |file|
  {
    file[SEC_AT..SEC_AT + 56] + file[SEC_AT + BODY_GAP..SEC_AT + 200 + n]
  }

  function AppOf(file: seq<bv8>, n: nat): seq<bv8>
    requires 56 <= n && (if n == 56 then APP_AT + 56 else APP_AT + 200 + n) <= |file|
  {
    file[APP_AT..APP_AT + 56] + if n == 56 then [] else file[APP_AT + BODY_GAP..APP_AT + 200 + n]
  }

  lemma FileBehindHeader(sec: seq<bv8>, app: seq<bv8>)
    ensures var file, body := FlsFile(sec, app), FlsBody(sec, app);
            && |file| == |body| && file[..56] == Sealed(FlsHeader(body[56..])) && file[56..] == body[56..]
            && forall i :: 56 <= i < |body| ==> file[i] == body[i]
  {
    hide Crc, Sealed, FlsBody;
    var file, rest := FlsFile(sec, app), FlsBody(sec, app)[56..];
    assert file == Sealed(FlsHeader(rest)) + rest;
  }

  /** Both inputs come back byte for byte from their fixed offsets. */
  lemma FlsInputsBack(sec: seq<bv8>, app: seq<bv8>)
    requires SecFits(sec) && |app| >= 56
    ensures var file := FlsFile(sec, app);
            && |file| == APP_AT + |AppPart(app)| && SecOf(file, |sec|) == sec && AppOf(file, |app|) == app
  {
    hide FlsFile, FlsBody, AppPart, BodyByte;
    FlsBodyBytes(sec, app);
    FileBehindHeader(sec, app);
    var file := FlsFile(sec, app);
    assert forall i: nat :: 56 <= i < |file| ==> file[i] == BodyByte(sec, app, i);
    SecBack(file, sec, app);
    AppBack(file, sec, app);
  }

  lemma SecBack(file: seq<bv8>, sec: seq<bv8>, app: seq<bv8>)
    requires SecFits(sec) && |app| >= 56 && |file| >= APP_AT
    requires forall i: nat :: 56 <= i < |file| ==> file[i] == BodyByte(sec, app, i)
    ensures SecOf(file, |sec|) == sec
  {
    var back := SecOf(file, |sec|);
    forall i: nat | i < |sec| ensures back[i] == sec[i] {
      assert back[i] == BodyByte(sec, app, if i < 56 then SEC_AT + i else SEC_AT + 200 + i);
    }
  }

  lemma AppBack(file: seq<bv8>, sec: seq<bv8>, app: seq<bv8>)
    requires SecFits(sec) && |app| >= 56 && |file| == APP_AT + |AppPart(app)|
    requires forall i: nat :: 56 <= i < |file| ==> file[i] == BodyByte(sec, app, i)
    ensures AppOf(file, |app|) == app
  {
    hide AppPart;
    var back := AppOf(file, |app|);
    forall i: nat | i < |app| ensures back[i] == app[i] {
      assert back[i] == BodyByte(sec, app, if i < 56 then APP_AT + i else APP_AT + 200 + i);
    }
  }

  /**
   The run length and run checksum cover everything behind the header, and the header, written last,
   parses and passes its own checksum.
  */
  lemma FlsHeaderCovers(sec: seq<bv8>, app: seq<bv8>)
    requires |FlsBody(sec, app)| - 56 < 0x1_0000_0000
    ensures var file := FlsFile(sec, app);
            && ChecksumOk(file[..56])
            && var h := Parse(file[..56]);
               && h.magic == MAGIC && h.runAddr == 0x2000 && Plain(h)
               && h.runLen == |file| - 56 && h.runChecksum == Crc(SEED, file[56..])
  {
    hide Crc, Sealed, Parse, ChecksumOk, FlsBody, FlsFile;
    FileBehindHeader(sec, app);
    SealedRoundTrip(FlsHeader(FlsBody(sec, app)[56..]));
  }

  /** From the application offset on, the file is the debug image of the application iff that has 312 bytes or more. */
  lemma AppPartIsDebugImage(app: seq<bv8>)
    requires |app| >= 56
    ensures AppPart(app) == DebugImage(app) <==> |app| >= 312
  {
    if |app| == 56 {
      assert |AppPart(app)| != |DebugImage(app)|;
    } else if |app| < 312 {
      AppPartByte(app, 255);
      DebugImageByte(app, 255);
    }
  }

  /** The FLS file and the debug images are laid out alike: exactly for applications of 312 bytes or more. */
  lemma FlsHoldsDebugImages(sec: seq<bv8>, app: seq<bv8>)
    requires SecFits(sec) && |app| >= 56
    ensures var file := FlsFile(sec, app);
            && DebugImage(sec) <= file[SEC_AT..]
            && (file[APP_AT..] == DebugImage(app) <==> |app| >= 312)
  {
    hide Crc, Sealed, FlsBody, DebugImage, AppPart;
    var file := FlsFile(sec, app);
    FlsLayout(sec, app);
    FlsBodyBytes(sec, app);
    AppPartIsDebugImage(app);
    assert file[SEC_AT..] == FlsBody(sec, app)[56..];
    assert file[SEC_AT..][..|sec| + 200] == DebugImage(sec);
    assert file[APP_AT..] == file[SEC_AT..][SEC_TOTAL..] == AppPart(app);
  }

  // ---------- when the boot loader is too large ----------

  predicate AppImage(app: seq<bv8>) {
    |app| >= 56 && app[..4] == LE(MAGIC, 4)
  }

  /** The part of the boot loader that lies where the application image is written afterwards. */
  function Overflow(sec: seq<bv8>): seq<bv8> {
    if |sec| > SEC_TOTAL - 200 then sec[SEC_TOTAL - 200..] else []
  }

  predicate Recovers(sec: seq<bv8>, app: seq<bv8>)
    requires |sec| >= 56 && |app| >= 56
  {
    FlsBodyBytes(sec, app);
    SecOf(FlsFile(sec, app), |sec|) == sec
  }

  lemma RecoversBytewise(sec: seq<bv8>, app: seq<bv8>)
    requires |sec| >= 56 && |app| >= 56
    ensures Recovers(sec, app) <==> forall k :: 56 <= k < |sec| ==> BodyByte(sec, app, SEC_AT + 200 + k) == sec[k]
  {
    hide Crc, Sealed, FlsBody;
    FlsBodyBytes(sec, app);
    var file, body := FlsFile(sec, app), FlsBody(sec, app);
    var got := SecOf(file, |sec|);
    assert forall i :: 56 <= i < |body| ==> file[i] == body[i] == BodyByte(sec, app, i);
    assert forall k :: 0 <= k < 56 ==> got[k] == body[SEC_AT + k] == sec[k];
    assert forall k :: 56 <= k < |sec| ==> got[k] == body[SEC_AT + 200 + k];
  }

  /**
   A boot loader survives every application image exactly when it fits below the application, or runs
   over by no more than the magic number that every application image starts with.
  */
  lemma SecbootSurvives(sec: seq<bv8>)
    requires |sec| >= 56
    ensures (forall app :: AppImage(app) ==> Recovers(sec, app)) <==> Overflow(sec) <= LE(MAGIC, 4)
  {
    hide Recovers, LE;
    var over, magic := Overflow(sec), LE(MAGIC, 4);
    if over <= magic {
      forall app | AppImage(app) ensures Recovers(sec, app) {
        RecoversBytewise(sec, app);
        forall k | 56 <= k < |sec| ensures BodyByte(sec, app, SEC_AT + 200 + k) == sec[k] {
          if k >= SEC_TOTAL - 200 {
            var j := k - (SEC_TOTAL - 200);
            assert sec[k] == over[j] == magic[j] == app[..4][j];
          }
        }
      }
    } else {
      var fifth: bv8 := if |over| > 4 && over[4] == 0 then 1 else 0;
      var app := magic + [fifth] + Fill(0, 51);
      assert app[..4] == magic;
      if Recovers(sec, app) {
        RecoversBytewise(sec, app);
        assert false;
      }
    }
  }
}
