/** The bytes of an ESP32 firmware image, what the loader reads back from them,
    and why the two agree. */
module ImageFormat {
  import opened Bytes
  import opened ImageContent
  import opened ImageLayout
  import opened MemoryFile

  const IMAGE_MAGIC: byte := 0xE9
  const CHECKSUM_MAGIC: bv8 := 0xEF
  const MAX_LOADED_SEGMENTS: nat := 16
  // digest, then version, signature and trailing bytes added by signing
  const SPACE_AFTER_CHECKSUM: nat := 32 + 4 + 64 + 12

  type Sha256 = d: seq<byte> | |d| == 32 witness Zeros(32)

  // SPI pin drive levels, two to a byte of the extended header
  datatype Drives = Drives(clk: nat, q: nat, d: nat, cs: nat, hd: nat, wp: nat)

  datatype Image = Image(
    segments: seq<Seg>, flashMode: nat, flashSizeFreq: nat, entrypoint: nat,
    wpPin: nat, drives: Drives, appendDigest: bool, securePad: bool)

  // -------- writing --------

  predicate HeadersPack(img: Image) {
    && |img.segments| < 256 && img.flashMode < 256 && img.flashSizeFreq < 256
    && img.entrypoint < U32_LIMIT && img.wpPin < 256
  }

  // (ln & 0x0F) + ((hn & 0x0F) << 4)
  function JoinByte(ln: nat, hn: nat): byte {
    ln % 16 + 16 * (hn % 16)
  }

  function Headers(img: Image, count: byte): (h: seq<byte>)
    requires HeadersPack(img)
    ensures |h| == FIRST_SEGMENT
  {
    var d := img.drives;
    [IMAGE_MAGIC, count, img.flashMode, img.flashSizeFreq] + Le32(img.entrypoint) +
    [img.wpPin, JoinByte(d.clk, d.q), JoinByte(d.d, d.cs), JoinByte(d.hd, d.wp)] + Zeros(11) +
    [if img.appendDigest then 1 else 0]
  }

  // save_segment
  function SegBytes(s: Seg): (b: seq<byte>)
    requires Packable(s)
    ensures |b| == SEG_HEADER_LEN + |s.data|
  {
    Le32(s.addr) + Le32(|s.data|) + s.data
  }

  function AllBytes(segs: seq<Seg>): seq<byte>
    requires forall s :: s in segs ==> Packable(s)
  {
    if segs == [] then [] else SegBytes(segs[0]) + AllBytes(segs[1..])
  }

  // length of the padding segment that secure_pad appends at file offset pos
  function SecurePadLen(pos: nat): (n: nat)
    ensures n < IROM_ALIGN
  {
    (IROM_ALIGN - (pos + SEG_HEADER_LEN) % IROM_ALIGN - 16 - SPACE_AFTER_CHECKSUM) % IROM_ALIGN
  }

  function EndOf(pos: nat, ps: seq<Piece>): nat
    decreases ps
  {
    if ps == [] then pos else EndOf(pos + SEG_HEADER_LEN + |ps[0].seg.data|, ps[1..])
  }

  /** All segments of the saved image, in file order. */
  function Plan(img: Image): Pieces {
    var sorted := SortByAddr(img.segments);
    var flash := FlashPart(sorted);
    if !HeadersPack(img) then Err(PackError)
    else if NeighboursSharePage(flash) then Err(SameFlashPage)
    else match Layout(FIRST_SEGMENT, flash, RamPart(sorted))
      case Err(e) => Err(e)
      case Ok(ps) =>
        if !img.securePad then Ok(ps)
        else if !img.appendDigest then Err(DigestRequired)
        else Ok(ps + [Piece(Pad, Seg(0, Zeros(SecurePadLen(EndOf(FIRST_SEGMENT, ps)))))])
  }

  // everything up to and including the checksum byte
  function Body(img: Image, segs: seq<Seg>): (b: seq<byte>)
    requires HeadersPack(img) && |segs| < 256 && forall s :: s in segs ==> Packable(s)
    ensures |b| % 16 == 0
  {
    var prefix := Headers(img, |segs|) + AllBytes(segs);
    prefix + Zeros(15 - |prefix| % 16) + [Xor(CHECKSUM_MAGIC, XorAll(segs)) as byte]
  }

  /** ESP32FirmwareImage.save: the bytes written to the output file. */
  function SavedBytes(img: Image, sha: seq<byte> -> Sha256): Result<seq<byte>, SaveError> {
    match Plan(img)
    case Err(e) => Err(e)
    case Ok(ps) =>
      if |ps| > 255 then Err(TooManySegments)
      else
        PlanIsPackable(img);
        Ok(WithDigest(img, Body(img, Segs(ps)), sha))
  }

  function WithDigest(img: Image, body: seq<byte>, sha: seq<byte> -> Sha256): seq<byte> {
    if img.appendDigest then body + sha(body) else body
  }

  lemma {:induction false} SegsMembers(ps: seq<Piece>)
    ensures |Segs(ps)| == |ps| && forall i :: 0 <= i < |ps| ==> Segs(ps)[i] == ps[i].seg
  {
    if ps != [] {
      SegsMembers(ps[1..]);
    }
  }

  lemma PlanIsPackable(img: Image)
    requires Plan(img).Ok?
    ensures HeadersPack(img) && |Segs(Plan(img).value)| == |Plan(img).value|
    ensures forall s :: s in Segs(Plan(img).value) ==> Packable(s)
  {
    hide Layout;
    hide SecurePadLen;
    hide EndOf;
    var sorted := SortByAddr(img.segments);
    LayoutContent(FIRST_SEGMENT, FlashPart(sorted), RamPart(sorted));
    var ps := Plan(img).value;
    assert AllPackable(ps);
    SegsMembers(ps);
  }

  // -------- reading --------

  datatype LoadError = Truncated | InvalidHeader | InvalidDigestFlag

  datatype Loaded = Loaded(
    segments: seq<Seg>, flashMode: nat, flashSizeFreq: nat, entrypoint: nat,
    wpPin: nat, drives: Drives, appendDigest: bool,
    checksum: byte, storedDigest: seq<byte>, calcDigest: seq<byte>)

  /** load_segment, n times from position pos: the segments and the final position. */
  function ReadSegments(data: seq<byte>, pos: nat, n: nat): (r: Result<(seq<Seg>, nat), LoadError>)
    ensures r.Ok? ==> r.value.1 >= pos && |r.value.0| == n
    decreases n
  {
    if n == 0 then Ok(([], pos))
    else
      var head := ReadAt(data, pos, 8);
      if |head| < 8 then Err(Truncated)
      else
        var addr, size := FromLe32(head[..4]), FromLe32(head[4..]);
        var content := ReadAt(data, pos + 8, size);
        if |content| < size then Err(Truncated)
        else match ReadSegments(data, pos + 8 + size, n - 1)
          case Err(e) => Err(e)
          case Ok((rest, end)) => Ok(([NewSegment(addr, content)] + rest, end))
  }

  // split_byte applied to the three drive bytes
  function SplitDrives(b1: byte, b2: byte, b3: byte): Drives {
    Drives(b1 % 16, b1 / 16 % 16, b2 % 16, b2 / 16 % 16, b3 % 16, b3 / 16 % 16)
  }

  /** ESP32FirmwareImage(load_file) with the file positioned at start. */
  function Parse(data: seq<byte>, start: nat, sha: seq<byte> -> Sha256): Result<Loaded, LoadError> {
    var h := ReadAt(data, start, 8);
    if |h| < 8 then Err(Truncated)
    else if h[0] != IMAGE_MAGIC || h[1] > MAX_LOADED_SEGMENTS then Err(InvalidHeader)
    else
      var x := ReadAt(data, start + 8, 16);
      if |x| < 16 then Err(Truncated)
      else if x[15] != 0 && x[15] != 1 then Err(InvalidDigestFlag)
      else match ReadSegments(data, start + FIRST_SEGMENT, h[1])
        case Err(e) => Err(e)
        case Ok((segs, end)) =>
          ParseEnd(data, start, end, sha,
                   Loaded(segs, h[2], h[3], FromLe32(h[4..]), x[0], SplitDrives(x[1], x[2], x[3]), x[15] == 1, 0, [], []))
  }

  // the checksum and digest that follow the segments
  function ParseEnd(data: seq<byte>, start: nat, end: nat, sha: seq<byte> -> Sha256, img: Loaded): Result<Loaded, LoadError>
    requires start <= end
  {
    var at := AlignPosition(end, 16);
    var c := ReadAt(data, at, 1);
    if |c| < 1 then Err(Truncated)
    else if img.appendDigest then
      Ok(img.(checksum := c[0], storedDigest := ReadAt(data, at + 1, 32),
              calcDigest := sha(ReadAt(data, start, at + 1 - start))))
    else Ok(img.(checksum := c[0]))
  }

  // calculate_checksum over the segments read back
  function RecomputedChecksum(segs: seq<Seg>): byte {
    Xor(CHECKSUM_MAGIC, XorAll(segs)) as byte
  }

  // -------- writing, then reading --------

  // reading a segment back pads its data to four bytes when it has an address
  function Reread(segs: seq<Seg>): (r: seq<Seg>)
    ensures |r| == |segs|
  {
    if segs == [] then [] else [NewSegment(segs[0].addr, segs[0].data)] + Reread(segs[1..])
  }

  lemma SegmentReadsBack(before: seq<byte>, s: Seg, after: seq<byte>)
    requires Packable(s)
    ensures var data, pos := before + SegBytes(s) + after, |before|;
            var head := ReadAt(data, pos, 8);
            && |head| == 8 && FromLe32(head[..4]) == s.addr && FromLe32(head[4..]) == |s.data|
            && ReadAt(data, pos + 8, |s.data|) == s.data
  {
    hide Le32;
    hide FromLe32;
    var data := before + SegBytes(s) + after;
    assert ReadAt(data, |before|, 8) == Le32(s.addr) + Le32(|s.data|);
    assert ReadAt(data, |before| + 8, |s.data|) == s.data;
    Le32RoundTrip(s.addr);
    Le32RoundTrip(|s.data|);
  }

  lemma {:induction false} SegmentsReadBack(before: seq<byte>, segs: seq<Seg>, after: seq<byte>)
    requires forall s :: s in segs ==> Packable(s)
    ensures ReadSegments(before + AllBytes(segs) + after, |before|, |segs|)
         == Ok((Reread(segs), |before| + |AllBytes(segs)|))
    decreases segs
  {
    hide Le32;
    hide FromLe32;
    hide NewSegment;
    hide ReadAt;
    hide SegBytes;
    var data := before + AllBytes(segs) + after;
    if segs != [] {
      var b, rest := SegBytes(segs[0]), AllBytes(segs[1..]);
      assert data == before + b + (rest + after);
      SegmentReadsBack(before, segs[0], rest + after);
      assert data == (before + b) + rest + after;
      SegmentsReadBack(before + b, segs[1..], after);
    }
  }

  lemma NibblesRoundTrip(d: Drives)
    ensures SplitDrives(JoinByte(d.clk, d.q), JoinByte(d.d, d.cs), JoinByte(d.hd, d.wp))
         == Drives(d.clk % 16, d.q % 16, d.d % 16, d.cs % 16, d.hd % 16, d.wp % 16)
  {
    hide JoinByte;
    JoinedNibbles(d.clk, d.q);
    JoinedNibbles(d.d, d.cs);
    JoinedNibbles(d.hd, d.wp);
  }

  lemma JoinedNibbles(ln: nat, hn: nat)
    ensures JoinByte(ln, hn) % 16 == ln % 16 && JoinByte(ln, hn) / 16 == hn % 16
  {}

  function LowNibbles(d: Drives): Drives {
    Drives(d.clk % 16, d.q % 16, d.d % 16, d.cs % 16, d.hd % 16, d.wp % 16)
  }

  // what the loader makes of an image saved as segs
  function Expected(img: Image, segs: seq<Seg>, sha: seq<byte> -> Sha256): Loaded
    requires HeadersPack(img) && |segs| < 256 && forall s :: s in segs ==> Packable(s)
  {
    var digest: seq<byte> := if img.appendDigest then sha(Body(img, segs)) else [];
    Loaded(Reread(segs), img.flashMode, img.flashSizeFreq, img.entrypoint, img.wpPin, LowNibbles(img.drives),
           img.appendDigest, RecomputedChecksum(segs), digest, digest)
  }

  lemma HeadersReadBack(img: Image, count: byte, rest: seq<byte>)
    requires HeadersPack(img)
    ensures var data := Headers(img, count) + rest;
            var h, x := ReadAt(data, 0, 8), ReadAt(data, 8, 16);
            && |h| == 8 && |x| == 16
            && h[0] == IMAGE_MAGIC && h[1] == count && h[2] == img.flashMode && h[3] == img.flashSizeFreq
            && FromLe32(h[4..]) == img.entrypoint
            && x[0] == img.wpPin && x[15] == (if img.appendDigest then 1 else 0)
            && SplitDrives(x[1], x[2], x[3]) == LowNibbles(img.drives)
  {
    hide FromLe32;
    hide Le32;
    hide JoinByte;
    hide SplitDrives;
    var d := img.drives;
    var data := Headers(img, count) + rest;
    assert ReadAt(data, 0, 8) == [IMAGE_MAGIC, count, img.flashMode, img.flashSizeFreq] + Le32(img.entrypoint);
    assert ReadAt(data, 0, 8)[4..] == Le32(img.entrypoint);
    Le32RoundTrip(img.entrypoint);
    assert ReadAt(data, 8, 16) == [img.wpPin, JoinByte(d.clk, d.q), JoinByte(d.d, d.cs), JoinByte(d.hd, d.wp)]
      + Zeros(11) + [if img.appendDigest then 1 else 0];
    NibblesRoundTrip(d);
  }

  lemma EndReadsBack(img: Image, segs: seq<Seg>, sha: seq<byte> -> Sha256, loaded: Loaded)
    requires HeadersPack(img) && |segs| < 256 && forall s :: s in segs ==> Packable(s)
    requires loaded.appendDigest == img.appendDigest
    ensures ParseEnd(WithDigest(img, Body(img, segs), sha), 0, FIRST_SEGMENT + |AllBytes(segs)|, sha, loaded)
         == Ok(if img.appendDigest then
                 loaded.(checksum := RecomputedChecksum(segs),
                         storedDigest := sha(Body(img, segs)), calcDigest := sha(Body(img, segs)))
               else loaded.(checksum := RecomputedChecksum(segs)))
  {
    hide Headers;
    hide AllBytes;
    hide XorAll;
    hide Xor;
    var body := Body(img, segs);
    var data := WithDigest(img, body, sha);
    var at := AlignPosition(FIRST_SEGMENT + |AllBytes(segs)|, 16);
    assert at + 1 == |body|;
    assert ReadAt(data, at, 1) == [RecomputedChecksum(segs)];
    if img.appendDigest {
      assert ReadAt(data, at + 1, 32) == sha(body);
      assert ReadAt(data, 0, at + 1) == body;
    }
  }

  lemma BodyReadsBack(img: Image, segs: seq<Seg>, sha: seq<byte> -> Sha256)
    requires HeadersPack(img) && |segs| <= MAX_LOADED_SEGMENTS && forall s :: s in segs ==> Packable(s)
    ensures Parse(WithDigest(img, Body(img, segs), sha), 0, sha) == Ok(Expected(img, segs, sha))
  {
    hide Headers;
    hide ReadSegments;
    hide AllBytes;
    hide Reread;
    hide ReadAt;
    hide RecomputedChecksum;
    hide SplitDrives;
    hide LowNibbles;
    hide FromLe32;
    hide ParseEnd;
    var body := Body(img, segs);
    var data := WithDigest(img, body, sha);
    var h, s := Headers(img, |segs|), AllBytes(segs);
    BodyPrefix(img, segs);
    var tail := data[|h + s|..];
    assert data == h + s + tail;
    assert data == h + (s + tail);
    HeadersReadBack(img, |segs|, s + tail);
    SegmentsReadBack(h, segs, tail);
    EndReadsBack(img, segs, sha,
      Loaded(Reread(segs), img.flashMode, img.flashSizeFreq, img.entrypoint, img.wpPin, LowNibbles(img.drives),
             img.appendDigest, 0, [], []));
  }

  lemma BodyPrefix(img: Image, segs: seq<Seg>)
    requires HeadersPack(img) && |segs| < 256 && forall s :: s in segs ==> Packable(s)
    ensures Headers(img, |segs|) + AllBytes(segs) <= Body(img, segs)
  {
    hide Headers;
    hide AllBytes;
    hide XorAll;
  }

  /** Reading a saved image gives back the emitted segments and every header
      field exactly when there are at most 16 segments; with more, the loader
      rejects the file. */
  lemma LoadOfSave(img: Image, sha: seq<byte> -> Sha256)
    requires SavedBytes(img, sha).Ok?
    ensures var file, ps := SavedBytes(img, sha).value, Plan(img).value;
            && (forall s :: s in Segs(ps) ==> Packable(s)) && HeadersPack(img) && |Segs(ps)| == |ps| < 256
            && Parse(file, 0, sha) == if |ps| <= MAX_LOADED_SEGMENTS then Ok(Expected(img, Segs(ps), sha))
                                      else Err(InvalidHeader)
  {
    hide Plan;
    hide Headers;
    hide ReadSegments;
    hide AllBytes;
    hide Expected;
    hide XorAll;
    hide Xor;
    PlanIsPackable(img);
    var segs := Segs(Plan(img).value);
    if |segs| <= MAX_LOADED_SEGMENTS {
      BodyReadsBack(img, segs, sha);
    } else {
      var file := SavedBytes(img, sha).value;
      assert file == Headers(img, |segs|) + file[FIRST_SEGMENT..];
      HeadersReadBack(img, |segs|, file[FIRST_SEGMENT..]);
    }
  }
}
