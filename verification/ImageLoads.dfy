/** Which files the loader of firmware images accepts, and what it makes of them. */
module ImageLoads {
  import opened Bytes
  import opened ImageFormat
  import opened ImageLayout
  import opened MemoryFile
  import ImageContent

  predicate AllPack(segs: seq<Seg>) {
    forall s :: s in segs ==> Packable(s)
  }

  // the bytes of these segments stand at pos
  predicate StandAt(data: seq<byte>, pos: nat, segs: seq<Seg>)
    requires AllPack(segs)
  {
    pos + |AllBytes(segs)| <= |data| && data[pos..pos + |AllBytes(segs)|] == AllBytes(segs)
  }

  lemma OneSegment(data: seq<byte>, pos: nat) returns (s: Seg)
    requires |ReadAt(data, pos, 8)| == 8
    requires var size := FromLe32(ReadAt(data, pos, 8)[4..]); |ReadAt(data, pos + 8, size)| == size
    ensures var head := ReadAt(data, pos, 8);
      && s == Seg(FromLe32(head[..4]), ReadAt(data, pos + 8, FromLe32(head[4..])))
      && Packable(s) && |SegBytes(s)| == 8 + |s.data|
      && pos + |SegBytes(s)| <= |data| && data[pos..pos + |SegBytes(s)|] == SegBytes(s)
  {
    hide FromLe32, Le32;
    var head := ReadAt(data, pos, 8);
    s := Seg(FromLe32(head[..4]), ReadAt(data, pos + 8, FromLe32(head[4..])));
    FromLe32RoundTrip(head[..4]);
    FromLe32RoundTrip(head[4..]);
    assert head == data[pos..pos + 8];
    assert data[pos..pos + 8 + |s.data|] == data[pos..pos + 8] + data[pos + 8..pos + 8 + |s.data|];
  }

  lemma TwoParts(data: seq<byte>, pos: nat, a: seq<byte>, b: seq<byte>)
    requires pos + |a| + |b| <= |data| && data[pos..pos + |a|] == a && data[pos + |a|..pos + |a| + |b|] == b
    ensures data[pos..pos + |a + b|] == a + b
  {}

  // segments that are read stand in the file
  lemma {:induction false} ReadStands(data: seq<byte>, pos: nat, n: nat) returns (segs: seq<Seg>)
    requires pos <= |data| && ReadSegments(data, pos, n).Ok?
    ensures |segs| == n && AllPack(segs) && StandAt(data, pos, segs)
    decreases n
  {
    hide FromLe32, ReadAt, SegBytes, Packable, AllBytes, StandAt;
    if n == 0 {
      segs := [];
      NothingStands(data, pos);
    } else {
      var s := OneSegment(data, pos);
      var rest := ReadStands(data, pos + |SegBytes(s)|, n - 1);
      segs := [s] + rest;
      FirstStands(data, pos, s, rest);
    }
  }

  lemma NothingStands(data: seq<byte>, pos: nat)
    requires pos <= |data|
    ensures StandAt(data, pos, [])
  {}

  lemma FirstStands(data: seq<byte>, pos: nat, s: Seg, rest: seq<Seg>)
    requires Packable(s) && AllPack(rest)
    requires pos + |SegBytes(s)| <= |data| && data[pos..pos + |SegBytes(s)|] == SegBytes(s)
    requires StandAt(data, pos + |SegBytes(s)|, rest)
    ensures AllPack([s] + rest) && StandAt(data, pos, [s] + rest)
  {
    hide SegBytes, Packable;
    assert ([s] + rest)[1..] == rest;
    TwoParts(data, pos, SegBytes(s), AllBytes(rest));
  }

  // segments that stand in the file are read
  lemma StandingAreRead(data: seq<byte>, pos: nat, segs: seq<Seg>)
    requires AllPack(segs) && StandAt(data, pos, segs)
    ensures ReadSegments(data, pos, |segs|) == Ok((Reread(segs), pos + |AllBytes(segs)|))
  {
    hide ReadSegments, Reread, AllBytes;
    var before, after := data[..pos], data[pos + |AllBytes(segs)|..];
    assert data == before + AllBytes(segs) + after;
    SegmentsReadBack(before, segs, after);
  }

  /** An image of these segments stands at start: magic, count and digest flag, the
      segments, and a checksum byte at the end of their last block of 16. */
  predicate HoldsImage(data: seq<byte>, start: nat, segs: seq<Seg>) {
    && start + 24 <= |data|
    && data[start] == 0xE9 && data[start + 1] == |segs| && |segs| <= 16
    && (data[start + 23] == 0 || data[start + 23] == 1)
    && AllPack(segs) && StandAt(data, start + 24, segs)
    && AlignPosition(start + 24 + |AllBytes(segs)|, 16) < |data|
  }

  lemma HeadBytes(data: seq<byte>, start: nat)
    ensures |ReadAt(data, start, 8)| == 8 <==> start + 8 <= |data|
    ensures start + 8 <= |data| ==> ReadAt(data, start, 8) == data[start..start + 8]
    ensures |ReadAt(data, start + 8, 16)| == 16 <==> start + 24 <= |data|
    ensures start + 24 <= |data| ==> ReadAt(data, start + 8, 16) == data[start + 8..start + 24]
  {}

  lemma OneByte(data: seq<byte>, at: nat)
    ensures |ReadAt(data, at, 1)| == 1 <==> at < |data|
    ensures at < |data| ==> ReadAt(data, at, 1) == [data[at]]
  {}

  // the fields that the loader sets from a file that holds an image
  predicate LoadedFrom(data: seq<byte>, start: nat, segs: seq<Seg>, sha: seq<byte> -> Sha256, img: Loaded)
    requires HoldsImage(data, start, segs)
  {
    var at := AlignPosition(start + 24 + |AllBytes(segs)|, 16);
    && img.segments == Reread(segs)
    && img.flashMode == data[start + 2] && img.flashSizeFreq == data[start + 3]
    && Le32(img.entrypoint % U32_LIMIT) == data[start + 4..start + 8] && img.entrypoint < U32_LIMIT
    && img.wpPin == data[start + 8]
    && img.drives == SplitDrives(data[start + 9], data[start + 10], data[start + 11])
    && img.appendDigest == (data[start + 23] == 1) && img.checksum == data[at]
    && if img.appendDigest then
         img.storedDigest == data[at + 1..Min(at + 33, |data|)] && img.calcDigest == sha(data[start..at + 1])
       else img.storedDigest == [] && img.calcDigest == []
  }

  /** A file that holds an image is loaded, every field from its place... */
  lemma ImageIsLoaded(data: seq<byte>, start: nat, segs: seq<Seg>, sha: seq<byte> -> Sha256)
    requires HoldsImage(data, start, segs)
    ensures Parse(data, start, sha).Ok? && LoadedFrom(data, start, segs, sha, Parse(data, start, sha).value)
  {
    hide ReadSegments, Reread, FromLe32, Le32, SplitDrives, ReadAt, AlignPosition, StandAt, AllBytes, Packable;
    HeadBytes(data, start);
    StandingAreRead(data, start + 24, segs);
    var at := AlignPosition(start + 24 + |AllBytes(segs)|, 16);
    OneByte(data, at);
    var h, x := ReadAt(data, start, 8), ReadAt(data, start + 8, 16);
    assert h[4..] == data[start + 4..start + 8];
    FromLe32RoundTrip(h[4..]);
    DigestParts(data, start, at);
  }

  lemma DigestParts(data: seq<byte>, start: nat, at: nat)
    requires start <= at < |data|
    ensures ReadAt(data, at + 1, 32) == data[at + 1..Min(at + 33, |data|)]
    ensures ReadAt(data, start, at + 1 - start) == data[start..at + 1]
  {}

  lemma {:induction false} ReadErrors(data: seq<byte>, pos: nat, n: nat)
    ensures ReadSegments(data, pos, n).Err? ==> ReadSegments(data, pos, n).error == Truncated
    decreases n
  {
    hide FromLe32, ReadAt;
    if n > 0 && |ReadAt(data, pos, 8)| == 8 {
      ReadErrors(data, pos + 8 + FromLe32(ReadAt(data, pos, 8)[4..]), n - 1);
    }
  }

  // the steps of the loader, in order
  lemma ParseSteps(data: seq<byte>, start: nat, sha: seq<byte> -> Sha256)
    ensures var r := Parse(data, start, sha);
      if start + 8 > |data| then r == Err(Truncated)
      else if data[start] != 0xE9 || data[start + 1] > 16 then r == Err(InvalidHeader)
      else if start + 24 > |data| then r == Err(Truncated)
      else if data[start + 23] > 1 then r == Err(InvalidDigestFlag)
      else match ReadSegments(data, start + 24, data[start + 1])
        case Err(e) => r == Err(Truncated)
        case Ok((segs, end)) => if AlignPosition(end, 16) < |data| then r.Ok? else r == Err(Truncated)
  {
    hide ReadSegments, FromLe32, SplitDrives, ReadAt, AlignPosition;
    HeadBytes(data, start);
    if start + 8 <= |data| {
      ReadErrors(data, start + 24, data[start + 1]);
      match ReadSegments(data, start + 24, data[start + 1])
      case Err(e) =>
      case Ok((segs, end)) => OneByte(data, AlignPosition(end, 16));
    }
  }

  // segments are read from start exactly when they stand there
  lemma ReadsOrNot(data: seq<byte>, start: nat)
    requires start + 24 <= |data| && data[start] == 0xE9 && data[start + 1] <= 16 && data[start + 23] <= 1
    ensures match ReadSegments(data, start + 24, data[start + 1])
      case Err(e) => !exists segs :: HoldsImage(data, start, segs)
      case Ok((segs, end)) => AlignPosition(end, 16) < |data| <==> exists segs :: HoldsImage(data, start, segs)
  {
    hide ReadSegments, AlignPosition, StandAt, AllBytes, Packable, Reread;
    var n := data[start + 1];
    forall segs | HoldsImage(data, start, segs)
      ensures ReadSegments(data, start + 24, n) == Ok((Reread(segs), start + 24 + |AllBytes(segs)|))
    {
      StandingAreRead(data, start + 24, segs);
    }
    if ReadSegments(data, start + 24, n).Ok? {
      var segs := ReadStands(data, start + 24, n);
      StandingAreRead(data, start + 24, segs);
      assert AlignPosition(start + 24 + |AllBytes(segs)|, 16) < |data| ==> HoldsImage(data, start, segs);
    }
  }

  /** ...and nothing else is: the errors tell the magic or count, then the digest
      flag, and then that the file is too short. */
  lemma LoadsExactly(data: seq<byte>, start: nat, sha: seq<byte> -> Sha256)
    ensures var r := Parse(data, start, sha);
      var badHeader := start + 8 <= |data| && (data[start] != 0xE9 || data[start + 1] > 16);
      var badFlag := !badHeader && start + 24 <= |data| && data[start + 23] > 1;
      && (r.Ok? <==> exists segs :: HoldsImage(data, start, segs))
      && (r == Err(InvalidHeader) <==> badHeader)
      && (r == Err(InvalidDigestFlag) <==> badFlag)
      && (r == Err(Truncated) <==> !badHeader && !badFlag && !exists segs :: HoldsImage(data, start, segs))
  {
    ParseSteps(data, start, sha);
    forall segs | HoldsImage(data, start, segs) ensures HeaderFits(data, start) {}
    hide Parse, HoldsImage, ReadSegments;
    if HeaderFits(data, start) {
      ReadsOrNot(data, start);
    }
  }

  predicate HeaderFits(data: seq<byte>, start: nat) {
    start + 24 <= |data| && data[start] == 0xE9 && data[start + 1] <= 16 && data[start + 23] <= 1
  }

  // -------- the reserved bytes --------

  // what the loader warns about: reserved fields of the extended header that are not zero
  predicate ReservedSet(data: seq<byte>, start: nat) {
    start + 24 <= |data| && exists i :: start + 12 <= i < start + 23 && data[i] != 0
  }

  // less than 16 zeros from end on, a checksum byte that completes a block of 16, and the digest
  predicate ClosedFrom(file: seq<byte>, end: nat, digest: bool) {
    var at := |file| - 1 - (if digest then 32 else 0);
    end <= at < end + 16 && (at + 1) % 16 == 0 && forall i :: end <= i < at ==> file[i] == 0
  }

  /** A saved file never draws that warning, and the segments are followed by zeros
      up to the checksum. */
  lemma SavedFileBytes(img: Image, sha: seq<byte> -> Sha256)
    requires SavedBytes(img, sha).Ok?
    ensures var file := SavedBytes(img, sha).value;
      var segs := ImageContent.Segs(Plan(img).value);
      && AllPack(segs) && |file| >= 24 && !ReservedSet(file, 0)
      && StandAt(file, 24, segs)
      && ClosedFrom(file, 24 + |AllBytes(segs)|, img.appendDigest)
  {
    hide Plan, AllBytes, ImageContent.XorAll, Xor;
    PlanIsPackable(img);
    var segs := ImageContent.Segs(Plan(img).value);
    var prefix := Headers(img, |segs|) + AllBytes(segs);
    var end := |prefix|;
    var at := end + (15 - end % 16);
    var file := SavedBytes(img, sha).value;
    HeaderStarts(img, segs, file);
    assert file[24..end] == AllBytes(segs);
    assert at == |file| - 1 - (if img.appendDigest then 32 else 0);
  }

  lemma HeaderStarts(img: Image, segs: seq<Seg>, file: seq<byte>)
    requires HeadersPack(img) && |segs| < 256 && |file| >= 24 && Headers(img, |segs|) == file[..24]
    ensures !ReservedSet(file, 0)
  {
    var h := Headers(img, |segs|);
    assert forall i :: 12 <= i < 23 ==> h[i] == 0;
    assert forall i :: 0 <= i < 24 ==> file[i] == h[i];
  }
}
