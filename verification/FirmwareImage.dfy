/** ESP32FirmwareImage: saving segment objects to a file and loading them back,
    proved against the functions of ImageFormat. */
module FirmwareImage {
  import opened Bytes
  import opened ImageContent
  import opened ImageFormat
  import opened ImageLayout
  import opened ImageTheorems
  import opened MemoryFile

  class ImageSegment {
    var addr: nat
    var data: seq<byte>

    constructor (addr: nat, data: seq<byte>)
      ensures View() == NewSegment(addr, data)
    {
      this.addr := addr;
      this.data := if addr != 0 then PadTo4(data) else data;
    }

    // copy.copy, which does not pad again
    constructor Copy(s: Seg)
      ensures View() == s
    {
      addr := s.addr;
      data := s.data;
    }

    function View(): Seg
      reads this
    {
      Seg(addr, data)
    }

    method SplitImage(splitLen: nat) returns (result: ImageSegment)
      modifies this
      ensures fresh(result) && result.View() == Seg(old(addr), Take(old(data), splitLen))
      ensures View() == Seg(old(addr) + splitLen, Drop(old(data), splitLen))
    {
      result := new ImageSegment.Copy(Seg(addr, Take(data, splitLen)));
      data := Drop(data, splitLen);
      addr := addr + splitLen;
    }
  }

  function Views(segs: seq<ImageSegment>): (v: seq<Seg>)
    reads segs
    ensures |v| == |segs|
  {
    if segs == [] then [] else [segs[0].View()] + Views(segs[1..])
  }

  ghost predicate Distinct(segs: seq<ImageSegment>) {
    forall i, j :: 0 <= i < j < |segs| ==> segs[i] != segs[j]
  }

  lemma {:induction false} ViewsAppend(segs: seq<ImageSegment>, s: ImageSegment)
    ensures Views(segs + [s]) == Views(segs) + [s.View()]
  {
    if segs == [] {
      assert segs + [s] == [s];
    } else {
      ViewsAppend(segs[1..], s);
      assert (segs + [s])[1..] == segs[1..] + [s];
    }
  }

  lemma NoneViewed()
    ensures Views([]) == []
  {}

  // [copy.deepcopy(s) for s in segs]
  method DeepCopies(segs: seq<Seg>) returns (copies: seq<ImageSegment>)
    ensures Views(copies) == segs && Distinct(copies) && forall c :: c in copies ==> fresh(c)
  {
    hide Views;
    copies := [];
    NoneViewed();
    for i := 0 to |segs|
      invariant Views(copies) == segs[..i] && Distinct(copies) && forall c :: c in copies ==> fresh(c)
    {
      var c := new ImageSegment.Copy(segs[i]);
      ViewsAppend(copies, c);
      copies := copies + [c];
    }
    assert segs[..|segs|] == segs;
  }

  // -------- the state of save --------

  function Prepend(ps: seq<Piece>, rest: Pieces): Pieces {
    match rest
    case Ok(qs) => Ok(ps + qs)
    case Err(e) => Err(e)
  }

  lemma PrependEmit(ps: seq<Piece>, p: Piece, rest: Pieces)
    ensures Prepend(ps, Emit(p, rest)) == if Packable(p.seg) then Prepend(ps + [p], rest) else Err(PackError)
  {
    if rest.Ok? {
      assert ps + ([p] + rest.value) == ps + [p] + rest.value;
    }
  }

  // the file after the segments ps, and the running checksum
  ghost predicate Written(header: seq<byte>, data: seq<byte>, checksum: bv8, ps: seq<Piece>) {
    && (forall s :: s in Segs(ps) ==> Packable(s))
    && data == header + AllBytes(Segs(ps))
    && checksum == Xor(CHECKSUM_MAGIC, XorAll(Segs(ps)))
  }

  lemma {:induction false} AppendSegment(segs: seq<Seg>, s: Seg)
    requires Packable(s) && forall t :: t in segs ==> Packable(t)
    ensures AllBytes(segs + [s]) == AllBytes(segs) + SegBytes(s)
    ensures XorAll(segs + [s]) == Xor(XorAll(segs), XorOf(s.data))
  {
    hide Xor;
    hide SegBytes;
    hide XorOf;
    if segs == [] {
      assert segs + [s] == [s];
      XorLaws(XorOf(s.data), 0, 0);
      assert SegBytes(s) + [] == SegBytes(s);
    } else {
      AppendSegment(segs[1..], s);
      assert (segs + [s])[1..] == segs[1..] + [s];
      XorLaws(XorOf(segs[0].data), XorAll(segs[1..]), XorOf(s.data));
    }
  }

  lemma WriteOne(header: seq<byte>, data: seq<byte>, checksum: bv8, ps: seq<Piece>, p: Piece)
    requires Written(header, data, checksum, ps) && Packable(p.seg)
    ensures Written(header, data + SegBytes(p.seg), Checksum(p.seg.data, checksum), ps + [p])
  {
    hide Xor;
    hide XorOf;
    hide SegBytes;
    hide XorAll;
    hide AllBytes;
    SegsAppend(ps, p);
    AppendSegment(Segs(ps), p.seg);
    ChecksumIsXorOf(p.seg.data, checksum);
    XorLaws(CHECKSUM_MAGIC, XorAll(Segs(ps)), XorOf(p.seg.data));
  }

  // ESPLoader.checksum, byte by byte
  method ComputeChecksum(data: seq<byte>, start: bv8) returns (state: bv8)
    ensures state == Checksum(data, start)
  {
    state := start;
    for i := 0 to |data|
      invariant Checksum(data[i..], state) == Checksum(data, start)
    {
      assert data[i..][1..] == data[i + 1..];
      state := Xor(state, data[i] as bv8);
    }
  }

  method SaveSegment(f: File, segment: ImageSegment, checksum: bv8) returns (ok: bool, next: bv8)
    requires f.pos == |f.data|
    modifies f
    ensures ok <==> Packable(segment.View())
    ensures f.pos == |f.data|
    ensures ok ==> f.data == old(f.data) + SegBytes(segment.View()) && next == Checksum(segment.data, checksum)
  {
    if segment.addr >= U32_LIMIT || |segment.data| >= U32_LIMIT {
      return false, checksum;
    }
    f.Write(Le32(segment.addr) + Le32(|segment.data|));
    f.Write(segment.data);
    assert f.data == old(f.data) + SegBytes(segment.View());
    next := ComputeChecksum(segment.data, checksum);
    ok := true;
  }

  // two flash segments in one 64 KB mapping
  method SharesPage(flash: seq<ImageSegment>) returns (shared: bool)
    ensures shared == NeighboursSharePage(Views(flash))
  {
    ViewsAt(flash);
    shared := false;
    if |flash| > 0 {
      var lastAddr := flash[0].addr;
      for i := 1 to |flash|
        invariant lastAddr == flash[i - 1].addr
        invariant forall k :: 0 < k < i ==> Page(Views(flash)[k]) != Page(Views(flash)[k - 1])
      {
        if flash[i].addr / IROM_ALIGN == lastAddr / IROM_ALIGN {
          assert Page(Views(flash)[i]) == Page(Views(flash)[i - 1]);
          return true;
        }
        lastAddr := flash[i].addr;
      }
    }
  }

  lemma {:induction false} ViewsAt(segs: seq<ImageSegment>)
    ensures forall i :: 0 <= i < |segs| ==> Views(segs)[i] == segs[i].View()
  {
    if segs != [] {
      ViewsAt(segs[1..]);
      forall i | 0 <= i < |segs| ensures Views(segs)[i] == segs[i].View() {
        if i > 0 {
          assert segs[i] == segs[1..][i - 1];
        }
      }
    }
  }

  // cut the first RAM segment, and drop it once nothing is left of it
  method SplitRam(ram: seq<ImageSegment>, n: nat) returns (first: ImageSegment, rest: seq<ImageSegment>)
    requires ram != [] && n > 0 && Distinct(ram)
    modifies ram[0]
    ensures fresh(first) && Distinct(rest) && forall r :: r in rest ==> r in ram
    ensures (first.View(), Views(rest)) == SplitFirst(old(Views(ram)), n)
  {
    ghost var tail := Views(ram[1..]);
    first := ram[0].SplitImage(n);
    assert Views(ram[1..]) == tail;
    if |ram[0].data| == 0 {
      rest := ram[1..];
    } else {
      rest := ram;
    }
  }

  // -------- ESP32FirmwareImage --------

  class ESP32FirmwareImage {
    var segments: seq<ImageSegment>
    var flashMode: nat
    var flashSizeFreq: nat
    var entrypoint: nat
    var wpPin: nat
    var drives: Drives
    var appendDigest: bool
    var securePad: bool
    // set by loading
    var checksum: byte
    var storedDigest: seq<byte>
    var calcDigest: seq<byte>

    constructor ()
      ensures View() == Image([], 0, 0, 0, 0xEE, Drives(0, 0, 0, 0, 0, 0), true, false)
    {
      segments, flashMode, flashSizeFreq, entrypoint, wpPin := [], 0, 0, 0, 0xEE;
      drives, appendDigest, securePad := Drives(0, 0, 0, 0, 0, 0), true, false;
      checksum, storedDigest, calcDigest := 0, [], [];
    }

    function View(): Image
      reads this, segments
    {
      Image(Views(segments), flashMode, flashSizeFreq, entrypoint, wpPin, drives, appendDigest, securePad)
    }

    function LoadedView(): Loaded
      reads this, segments
    {
      Loaded(Views(segments), flashMode, flashSizeFreq, entrypoint, wpPin, drives, appendDigest,
             checksum, storedDigest, calcDigest)
    }

    method WriteHeaders(f: File)
      requires HeadersPack(View()) && f.pos == 0 && f.data == []
      modifies f
      ensures f.data == Headers(View(), |segments|) && f.pos == |f.data|
    {
      f.Write([IMAGE_MAGIC, |segments|, flashMode, flashSizeFreq] + Le32(entrypoint));
      var fields: seq<byte> := [wpPin, JoinByte(drives.clk, drives.q), JoinByte(drives.d, drives.cs),
                                JoinByte(drives.hd, drives.wp)];
      fields := fields + Zeros(11);
      fields := fields + [if appendDigest then 1 else 0];
      f.Write(fields);
    }

    /** save: the output file, or the error raised. */
    method Save(sha: seq<byte> -> Sha256) returns (r: Result<seq<byte>, SaveError>)
      ensures r == SavedBytes(View(), sha)
    {
      hide NeighboursSharePage;
      hide Layout;
      hide Written;
      hide Headers;
      hide SecurePadLen;
      hide FlashPart;
      hide RamPart;
      hide SortByAddr;
      hide Body;
      hide Segs;
      hide Views;
      if |segments| >= 256 || flashMode >= 256 || flashSizeFreq >= 256 || entrypoint >= U32_LIMIT || wpPin >= 256 {
        return Err(PackError);
      }
      var f := new File([]);
      WriteHeaders(f);
      ghost var img, header := View(), f.data;
      var sorted := SortByAddr(Views(segments));
      var flashSegments := DeepCopies(FlashPart(sorted));
      var shared := SharesPage(flashSegments);
      if shared {
        return Err(SameFlashPage);
      }
      var ramSegments := DeepCopies(RamPart(sorted));
      var error, checksum, total;
      ghost var ps;
      ghost var owned := set s | s in ramSegments;
      error, checksum, total, ps := WriteSegments(f, flashSegments, ramSegments, owned, img, header);
      if error.Some? {
        return Err(error.value);
      }
      SegsMembers(ps);
      r := Finish(f, checksum, total, sha, img, header, ps);
    }

    /** The middle of save: every segment of the plan, in order. */
    method WriteSegments(f: File, flashSegments: seq<ImageSegment>, ramSegments: seq<ImageSegment>,
                         ghost owned: set<ImageSegment>, ghost img: Image, ghost header: seq<byte>)
      returns (error: Option<SaveError>, checksum: bv8, total: nat, ghost ps: seq<Piece>)
      requires img == View() && HeadersPack(img) && header == Headers(img, |segments|)
      requires f.data == header && f.pos == |header|
      requires Views(flashSegments) == FlashPart(SortByAddr(img.segments)) && !NeighboursSharePage(Views(flashSegments))
      requires Views(ramSegments) == RamPart(SortByAddr(img.segments)) && Distinct(ramSegments)
      requires (forall r :: r in ramSegments ==> r in owned) && forall s :: s in flashSegments || s in segments ==> s !in owned
      modifies f, owned
      ensures f.pos == |f.data| && View() == img
      ensures match error
        case Some(e) => Plan(img) == Err(e)
        case None => Plan(img) == Ok(ps) && Written(header, f.data, checksum, ps) && total == |ps|
    {
      hide NeighboursSharePage;
      hide Layout;
      hide Written;
      hide EmitAll;
      hide Headers;
      hide SecurePadLen;
      hide FlashPart;
      hide RamPart;
      hide SortByAddr;
      hide Segs;
      hide EndOf;
      hide HeadersPack;
      var left;
      error, left, checksum, total, ps := WriteFlash(f, flashSegments, ramSegments, owned, header);
      assert View() == img;
      if error.Some? {
        return;
      }
      var ok;
      ok, checksum, ps := WriteRam(f, left, checksum, header, ps);
      if !ok {
        error := Some(PackError);
        return;
      }
      total := total + |left|;
      if securePad {
        if !appendDigest {
          error := Some(DigestRequired);
          return;
        }
        WrittenEnd(header, f.data, checksum, ps);
        var padLen := SecurePadLen(f.pos);
        var padSegment := new ImageSegment(0, Zeros(padLen));
        ghost var mainPs := ps;
        ok, checksum, ps := SavePiece(f, padSegment, Pad, checksum, header, ps, Ok([]));
        SavePad(mainPs, ps, padLen, ok);
        total := total + 1;
      }
    }

    /** The end of save: checksum byte, patched segment count, digest. */
    method Finish(f: File, checksum: bv8, total: nat, sha: seq<byte> -> Sha256,
                  ghost img: Image, ghost header: seq<byte>, ghost ps: seq<Piece>)
      returns (r: Result<seq<byte>, SaveError>)
      requires img == View() && HeadersPack(img) && header == Headers(img, |segments|)
      requires f.pos == |f.data| && Written(header, f.data, checksum, ps) && total == |ps| == |Segs(ps)|
      modifies f
      ensures r == if |ps| > 255 then Err(TooManySegments)
                   else Ok(WithDigest(img, Body(img, Segs(ps)), sha))
    {
      hide Written;
      hide Body;
      hide Headers;
      hide WriteAt;
      hide ReadAt;
      hide AlignPosition;
      ghost var content := f.data;
      f.Align(16);
      f.Write([checksum as byte]);
      var imageLength := f.pos;
      f.Seek(1);
      if total > 255 {
        return Err(TooManySegments);
      }
      f.Write([total]);
      WrittenPackable(header, content, checksum, ps);
      ghost var body := Body(img, Segs(ps));
      Sealed(img, |segments|, content, checksum, ps);
      if appendDigest {
        f.Seek(0);
        var image := f.Read(imageLength);
        FileEnd(body, sha(body));
        f.Write(sha(image));
      }
      r := Ok(f.data);
    }

    // load_segment
    method LoadSegment(f: File) returns (error: Option<LoadError>, segment: ImageSegment)
      modifies this`segments, f`pos
      ensures fresh(segment)
      ensures match ReadSegments(f.data, old(f.pos), 1)
        case Err(e) => error == Some(e) && segments == old(segments)
        case Ok((segs, end)) => error == None && f.pos == end && segments == old(segments) + [segment] && segs == [segment.View()]
    {
      hide FromLe32;
      hide ReadAt;
      segment := new ImageSegment.Copy(Seg(0, []));
      ghost var start := f.pos;
      var head := f.Read(8);
      if |head| < 8 {
        return Some(Truncated), segment;
      }
      var offset, size := FromLe32(head[..4]), FromLe32(head[4..]);
      var content := f.Read(size);
      if |content| < size {
        return Some(Truncated), segment;
      }
      segment := new ImageSegment(offset, content);
      segments := segments + [segment];
      assert ReadSegments(f.data, start + 8 + size, 0) == Ok(([], start + 8 + size));
      assert [segment.View()] + [] == [segment.View()];
      error := None;
    }

    method LoadSegments(f: File, count: nat) returns (error: Option<LoadError>)
      requires segments == []
      modifies this`segments, f`pos
      ensures match ReadSegments(f.data, old(f.pos), count)
        case Err(e) => error == Some(e)
        case Ok((segs, end)) => error == None && f.pos == end && Views(segments) == segs
    {
      hide ReadSegments;
      error := None;
      ghost var start := f.pos;
      ReadNone(f.data, start, count);
      for i := 0 to count
        invariant error == None
        invariant forall s :: s in segments ==> fresh(s)
        invariant ReadSegments(f.data, start, count) == Following(Views(segments), ReadSegments(f.data, f.pos, count - i))
      {
        var segment;
        ghost var at, before := f.pos, segments;
        error, segment := LoadSegment(f);
        ReadOne(f.data, at, count - i, Views(before));
        if error.Some? {
          return;
        }
        ViewsAppend(before, segment);
      }
      ReadNone(f.data, f.pos, 0);
      assert Views(segments) + [] == Views(segments);
    }

    // load_common_header and load_extended_header
    method LoadHeaders(f: File) returns (error: Option<LoadError>, count: nat)
      modifies this, f`pos
      ensures segments == old(segments) && checksum == old(checksum)
      ensures storedDigest == old(storedDigest) && calcDigest == old(calcDigest)
      ensures var h, x := ReadAt(f.data, old(f.pos), 8), ReadAt(f.data, old(f.pos) + 8, 16);
        if |h| < 8 then error == Some(Truncated)
        else if h[0] != IMAGE_MAGIC || h[1] > MAX_LOADED_SEGMENTS then error == Some(InvalidHeader)
        else if |x| < 16 then error == Some(Truncated)
        else if x[15] != 0 && x[15] != 1 then error == Some(InvalidDigestFlag)
        else
          && error == None && f.pos == old(f.pos) + FIRST_SEGMENT && count == h[1]
          && flashMode == h[2] && flashSizeFreq == h[3] && entrypoint == FromLe32(h[4..])
          && wpPin == x[0] && drives == SplitDrives(x[1], x[2], x[3]) && appendDigest == (x[15] == 1)
    {
      hide FromLe32;
      hide SplitDrives;
      hide ReadAt;
      count := 0;
      var h := f.Read(8);
      if |h| < 8 {
        return Some(Truncated), count;
      }
      flashMode, flashSizeFreq, entrypoint := h[2], h[3], FromLe32(h[4..]);
      if h[0] != IMAGE_MAGIC || h[1] > MAX_LOADED_SEGMENTS {
        return Some(InvalidHeader), count;
      }
      count := h[1];
      var x := f.Read(16);
      if |x| < 16 {
        return Some(Truncated), count;
      }
      wpPin, drives := x[0], SplitDrives(x[1], x[2], x[3]);
      if x[15] != 0 && x[15] != 1 {
        return Some(InvalidDigestFlag), count;
      }
      appendDigest := x[15] == 1;
      error := None;
    }

    /** Loading: the constructor with a file to read. */
    method LoadFrom(f: File, sha: seq<byte> -> Sha256) returns (error: Option<LoadError>)
      requires segments == [] && checksum == 0 && storedDigest == [] && calcDigest == []
      modifies this, f`pos
      ensures match Parse(f.data, old(f.pos), sha)
        case Err(e) => error == Some(e)
        case Ok(loaded) => error == None && LoadedView() == loaded
    {
      hide ReadSegments;
      hide FromLe32;
      hide SplitDrives;
      hide ReadAt;
      hide ParseEnd;
      hide Views;
      var start := f.pos;
      var count;
      error, count := LoadHeaders(f);
      if error.Some? {
        return;
      }
      error := LoadSegments(f, count);
      if error.Some? {
        return;
      }
      error := LoadEnd(f, start, sha, LoadedView());
    }

    // read_checksum and the digest
    method LoadEnd(f: File, start: nat, sha: seq<byte> -> Sha256, ghost loaded: Loaded) returns (error: Option<LoadError>)
      requires start <= f.pos && loaded == LoadedView()
      modifies this`checksum, this`storedDigest, this`calcDigest, f`pos
      ensures match ParseEnd(f.data, start, old(f.pos), sha, loaded)
        case Err(e) => error == Some(e)
        case Ok(l) => error == None && LoadedView() == l
    {
      hide ReadAt, Views, AlignPosition;
      f.Align(16);
      var c := f.Read(1);
      if |c| < 1 {
        return Some(Truncated);
      }
      checksum := c[0];
      if appendDigest {
        ReadDigests(f, start, sha);
      }
      error := None;
    }

    // the stored digest, and the digest of everything before it
    method ReadDigests(f: File, start: nat, sha: seq<byte> -> Sha256)
      requires start <= f.pos
      modifies this`storedDigest, this`calcDigest, f`pos
      ensures storedDigest == ReadAt(f.data, old(f.pos), 32)
      ensures calcDigest == sha(ReadAt(f.data, start, old(f.pos) - start))
    {
      hide ReadAt;
      var end := f.pos;
      storedDigest := f.Read(32);
      f.Seek(start);
      var content := f.Read(end - start);
      calcDigest := sha(content);
    }
  }

  function Following(segs: seq<Seg>, rest: Result<(seq<Seg>, nat), LoadError>): Result<(seq<Seg>, nat), LoadError> {
    match rest
    case Err(e) => Err(e)
    case Ok((more, end)) => Ok((segs + more, end))
  }

  lemma ReadNone(data: seq<byte>, pos: nat, n: nat)
    ensures ReadSegments(data, pos, 0) == Ok(([], pos))
    ensures ReadSegments(data, pos, n) == Following([], ReadSegments(data, pos, n))
  {
    var r := ReadSegments(data, pos, n);
    if r.Ok? {
      assert [] + r.value.0 == r.value.0;
    }
  }

  lemma ReadOne(data: seq<byte>, pos: nat, n: nat, before: seq<Seg>)
    requires n > 0
    ensures match ReadSegments(data, pos, 1)
      case Err(e) => Following(before, ReadSegments(data, pos, n)) == Err(e)
      case Ok((one, end)) =>
        Following(before, ReadSegments(data, pos, n)) == Following(before + one, ReadSegments(data, end, n - 1))
  {
    hide ReadAt;
    hide FromLe32;
    hide NewSegment;
    var one := ReadSegments(data, pos, 1);
    if one.Ok? {
      var s := one.value.0[0];
      assert one.value.0 == [s];
      var rest := ReadSegments(data, one.value.1, n - 1);
      if rest.Ok? {
        assert before + ([s] + rest.value.0) == before + [s] + rest.value.0;
      }
    }
  }

  lemma Sealed(img: Image, before: byte, content: seq<byte>, checksum: bv8, ps: seq<Piece>)
    requires HeadersPack(img) && Written(Headers(img, before), content, checksum, ps) && |ps| == |Segs(ps)| < 256
    ensures var at := AlignPosition(|content|, 16);
            var sealed := WriteAt(content, at, [checksum as byte]);
            at + 1 == |Body(img, Segs(ps))| && WriteAt(sealed, 1, [|ps|]) == Body(img, Segs(ps))
  {
    hide Headers;
    hide AllBytes;
    hide XorAll;
    hide Xor;
    hide WriteAt;
    var at := AlignPosition(|content|, 16);
    var c := checksum as byte;
    var sealed := WriteAt(content, at, [c]);
    WriteBeyond(content, at, c);
    var tail := AllBytes(Segs(ps)) + Zeros(at - |content|) + [c];
    assert sealed == Headers(img, before) + tail;
    PatchCount(img, before, |ps|, tail);
    assert Headers(img, |ps|) + tail == Body(img, Segs(ps));
  }

  lemma WriteBeyond(data: seq<byte>, pos: nat, b: byte)
    requires pos >= |data|
    ensures WriteAt(data, pos, [b]) == data + Zeros(pos - |data|) + [b]
  {}

  lemma FileEnd(data: seq<byte>, more: seq<byte>)
    ensures ReadAt(data, 0, |data|) == data && WriteAt(data, |data|, more) == data + more
  {}

  lemma PatchCount(img: Image, before: byte, after: byte, rest: seq<byte>)
    requires HeadersPack(img)
    ensures WriteAt(Headers(img, before) + rest, 1, [after]) == Headers(img, after) + rest
  {
    var h, h' := Headers(img, before), Headers(img, after);
    assert h' == [h[0]] + [after] + h[2..];
    assert (h + rest)[..1] == [h[0]] && (h + rest)[2..] == h[2..] + rest;
  }

  lemma WrittenEnd(header: seq<byte>, data: seq<byte>, checksum: bv8, ps: seq<Piece>)
    requires Written(header, data, checksum, ps)
    ensures |data| == EndOf(|header|, ps)
  {
    EndOfBytes(|header|, ps);
  }

  lemma SavePad(before: seq<Piece>, after: seq<Piece>, n: nat, ok: bool)
    requires n < U32_LIMIT
    requires ok ==> Prepend(after, Ok([])) == Prepend(before, Emit(Piece(Pad, Seg(0, Zeros(n))), Ok([])))
    requires !ok ==> Prepend(before, Emit(Piece(Pad, Seg(0, Zeros(n))), Ok([]))) == Err(PackError)
    ensures ok && after == before + [Piece(Pad, Seg(0, Zeros(n)))]
  {
    PrependEmit(before, Piece(Pad, Seg(0, Zeros(n))), Ok([]));
    assert after + [] == after;
  }

  lemma WrittenPackable(header: seq<byte>, data: seq<byte>, checksum: bv8, ps: seq<Piece>)
    requires Written(header, data, checksum, ps)
    ensures forall s :: s in Segs(ps) ==> Packable(s)
  {}

  ghost function Work(pos: nat, flash: seq<Seg>, ram: seq<Seg>): (nat, nat, nat) {
    (|flash|, DataLen(ram) + |ram|, if flash != [] && AlignmentDataNeeded(pos, flash[0].addr) > 0 then 1 else 0)
  }

  ghost predicate Less(a: (nat, nat, nat), b: (nat, nat, nat)) {
    a.0 < b.0 || (a.0 == b.0 && (a.1 < b.1 || (a.1 == b.1 && a.2 < b.2)))
  }

  /** One turn of the padding loop up to the call of save_segment: the segment to
      write at file offset pos, and what is left of both worklists. */
  method NextSegment(pos: nat, flash: seq<ImageSegment>, ram: seq<ImageSegment>, ghost owned: set<ImageSegment>)
    returns (aligned: bool, next: ImageSegment, origin: Origin,
             flashLeft: seq<ImageSegment>, ramLeft: seq<ImageSegment>)
    requires flash != [] && Distinct(ram) && (forall r :: r in ram ==> r in owned) && forall s :: s in flash ==> s !in owned
    modifies owned
    ensures Distinct(ramLeft) && (forall r :: r in ramLeft ==> r in owned) && forall s :: s in flashLeft ==> s !in owned
    ensures !aligned ==> Layout(pos, old(Views(flash)), old(Views(ram))) == Err(Misaligned)
    ensures aligned ==>
      var p := Piece(origin, next.View());
      var after := pos + SEG_HEADER_LEN + |p.seg.data|;
      && Layout(pos, old(Views(flash)), old(Views(ram))) == Emit(p, Layout(after, Views(flashLeft), Views(ramLeft)))
      && Less(Work(after, Views(flashLeft), Views(ramLeft)), Work(pos, old(Views(flash)), old(Views(ram))))
  {
    hide AlignmentDataNeeded;
    hide SplitFirst;
    hide DataLen;
    var segment := flash[0];
    aligned, origin, flashLeft, ramLeft := true, Pad, flash, ram;
    var padLen := AlignmentDataNeeded(pos, segment.addr);
    if padLen > 0 {
      if |ram| > 0 && padLen > SEG_HEADER_LEN {
        assert ram[0] in ram;
        origin := Ram;
        next, ramLeft := SplitRam(ram, padLen);
        assert Views(flash) == old(Views(flash));
      } else {
        PaddingSettles(pos, segment.addr);
        next := new ImageSegment(0, Zeros(padLen));
      }
    } else {
      origin, next := Flash, segment;
      if (pos + 8) % IROM_ALIGN != segment.addr % IROM_ALIGN {
        aligned := false;
      } else {
        flashLeft := flash[1..];
      }
    }
  }

  /** The padding loop of save: writes all flash segments, using up RAM segments
      as padding, and leaves the other RAM segments. */
  method WriteFlash(f: File, flash: seq<ImageSegment>, ram: seq<ImageSegment>, ghost owned: set<ImageSegment>,
                    ghost header: seq<byte>)
    returns (error: Option<SaveError>, left: seq<ImageSegment>, checksum: bv8, total: nat, ghost ps: seq<Piece>)
    requires f.data == header && f.pos == |header| && Distinct(ram)
    requires (forall r :: r in ram ==> r in owned) && forall s :: s in flash ==> s !in owned
    modifies f, owned
    ensures f.pos == |f.data| && Distinct(left) && forall r :: r in left ==> r in owned
    ensures match error
      case Some(e) => Layout(|header|, old(Views(flash)), old(Views(ram))) == Err(e)
      case None =>
        && Written(header, f.data, checksum, ps) && total == |ps|
        && Layout(|header|, old(Views(flash)), old(Views(ram))) == Prepend(ps, EmitAll(Views(left)))
  {
    hide Written;
    hide Layout;
    hide Emit;
    hide Prepend;
    hide EmitAll;
    hide Work;
    hide Packable;
    hide Views;
    error, checksum, total, ps := None, CHECKSUM_MAGIC, 0, [];
    left := ram;
    var flashSegments := flash;
    ghost var goal := Layout(f.pos, Views(flash), Views(ram));
    WrittenNothing(header);
    PrependNothing(goal);
    while |flashSegments| > 0
      invariant f.pos == |f.data| && Written(header, f.data, checksum, ps) && total == |ps|
      invariant Distinct(left) && (forall r :: r in left ==> r in owned) && forall s :: s in flashSegments ==> s !in owned
      invariant Prepend(ps, Layout(f.pos, Views(flashSegments), Views(left))) == goal
      decreases Work(f.pos, Views(flashSegments), Views(left)).0,
                Work(f.pos, Views(flashSegments), Views(left)).1,
                Work(f.pos, Views(flashSegments), Views(left)).2
    {
      var aligned, next, origin;
      ghost var pos := f.pos;
      aligned, next, origin, flashSegments, left := NextSegment(f.pos, flashSegments, left, owned);
      if !aligned {
        PrependError(ps, Misaligned);
        return Some(Misaligned), left, checksum, total, ps;
      }
      ghost var rest := Layout(pos + SEG_HEADER_LEN + |next.data|, Views(flashSegments), Views(left));
      var ok;
      ok, checksum, ps := SavePiece(f, next, origin, checksum, header, ps, rest);
      if !ok {
        return Some(PackError), left, checksum, total, ps;
      }
      total := total + 1;
    }
    LayoutDone(f.pos, Views(left));
  }

  lemma LayoutDone(pos: nat, ram: seq<Seg>)
    ensures Layout(pos, [], ram) == EmitAll(ram)
  {}

  // save_segment, recording the segment as the next piece of the layout
  method SavePiece(f: File, next: ImageSegment, ghost origin: Origin, checksum: bv8,
                   ghost header: seq<byte>, ghost ps: seq<Piece>, ghost rest: Pieces)
    returns (ok: bool, nextChecksum: bv8, ghost written: seq<Piece>)
    requires f.pos == |f.data| && Written(header, f.data, checksum, ps)
    modifies f
    ensures f.pos == |f.data|
    ensures ok ==> Written(header, f.data, nextChecksum, written) && |written| == |ps| + 1
    ensures ok ==> f.pos == old(f.pos) + SEG_HEADER_LEN + |next.data|
    ensures ok ==> Prepend(written, rest) == Prepend(ps, Emit(Piece(origin, next.View()), rest))
    ensures !ok ==> Prepend(ps, Emit(Piece(origin, next.View()), rest)) == Err(PackError)
  {
    hide Written;
    hide Checksum;
    ghost var p := Piece(origin, next.View());
    ghost var before := f.data;
    PrependEmit(ps, p, rest);
    ok, nextChecksum := SaveSegment(f, next, checksum);
    written := ps + [p];
    if ok {
      WriteOne(header, before, checksum, ps, p);
    }
  }

  // the RAM segments left once all flash segments are written
  method WriteRam(f: File, ram: seq<ImageSegment>, start: bv8, ghost header: seq<byte>, ghost before: seq<Piece>)
    returns (ok: bool, checksum: bv8, ghost ps: seq<Piece>)
    requires f.pos == |f.data| && Written(header, f.data, start, before)
    modifies f
    ensures f.pos == |f.data|
    ensures if ok then Written(header, f.data, checksum, ps) && |ps| == |before| + |ram|
              && Prepend(before, EmitAll(Views(ram))) == Ok(ps)
            else Prepend(before, EmitAll(Views(ram))) == Err(PackError)
  {
    hide Written;
    hide Emit;
    hide Prepend;
    hide Packable;
    ok, checksum, ps := true, start, before;
    assert ram[0..] == ram;
    for i := 0 to |ram|
      invariant f.pos == |f.data| && Written(header, f.data, checksum, ps) && |ps| == |before| + i && ok
      invariant Prepend(ps, EmitAll(Views(ram[i..]))) == Prepend(before, EmitAll(Views(ram)))
    {
      assert ram[i..][1..] == ram[i + 1..];
      assert Views(ram[i..]) == [ram[i].View()] + Views(ram[i + 1..]);
      assert Views(ram[i..])[1..] == Views(ram[i + 1..]);
      ok, checksum, ps := SavePiece(f, ram[i], Ram, checksum, header, ps, EmitAll(Views(ram[i + 1..])));
      if !ok {
        return;
      }
    }
    PrependOnto(ps);
  }

  lemma PrependOnto(ps: seq<Piece>)
    ensures Prepend(ps, EmitAll([])) == Ok(ps)
  {
    assert ps + [] == ps;
  }

  lemma WrittenNothing(header: seq<byte>)
    ensures Written(header, header, CHECKSUM_MAGIC, [])
  {
    XorLaws(CHECKSUM_MAGIC, 0, 0);
    assert header + [] == header;
  }

  lemma PrependError(ps: seq<Piece>, e: SaveError)
    ensures Prepend(ps, Err(e)) == Err(e)
  {}

  lemma PrependNothing(rest: Pieces)
    ensures Prepend([], rest) == rest
  {
    if rest.Ok? {
      assert [] + rest.value == rest.value;
    }
  }
}
