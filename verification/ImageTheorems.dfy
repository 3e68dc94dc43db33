/** What saving an ESP32 firmware image promises, for every image. */
module ImageTheorems {
  import opened Bytes
  import opened ImageContent
  import opened ImageFormat
  import opened ImageLayout
  import StableSort

  function Sections(img: Image): seq<Seg> {
    SortByAddr(img.segments)
  }

  // the segments before the one that secure_pad appends
  function MainPlan(img: Image): Pieces {
    Layout(FIRST_SEGMENT, FlashPart(Sections(img)), RamPart(Sections(img)))
  }

  lemma PlanFromMain(img: Image)
    requires Plan(img).Ok?
    ensures MainPlan(img).Ok? && HeadersPack(img) && !NeighboursSharePage(FlashPart(Sections(img)))
    ensures var main := MainPlan(img).value;
            Plan(img).value == if img.securePad
              then main + [Piece(Pad, Seg(0, Zeros(SecurePadLen(EndOf(FIRST_SEGMENT, main)))))] else main
    ensures img.securePad ==> img.appendDigest
  {
    hide Layout;
    hide SecurePadLen;
    hide EndOf;
    hide NeighboursSharePage;
  }

  // -------- alignment --------

  /** File offset of the data of piece k. */
  function DataOffset(pos: nat, ps: seq<Piece>, k: nat): nat
    requires k < |ps|
    decreases ps
  {
    if k == 0 then pos + SEG_HEADER_LEN else DataOffset(pos + SEG_HEADER_LEN + |ps[0].seg.data|, ps[1..], k - 1)
  }

  lemma {:induction false} FlashAlignedAt(pos: nat, ps: seq<Piece>, k: nat)
    requires FlashAligned(pos, ps) && k < |ps| && ps[k].origin == Flash
    ensures DataOffset(pos, ps, k) % IROM_ALIGN == ps[k].seg.addr % IROM_ALIGN
    decreases ps
  {
    hide Aligned;
    if k > 0 {
      FlashAlignedAt(pos + SEG_HEADER_LEN + |ps[0].seg.data|, ps[1..], k - 1);
    } else {
      assert Aligned(pos, ps[0].seg.addr);
      AlignedMeans(pos, ps[0].seg.addr);
    }
  }

  lemma AlignedMeans(pos: nat, addr: nat)
    requires Aligned(pos, addr)
    ensures (pos + SEG_HEADER_LEN) % IROM_ALIGN == addr % IROM_ALIGN
  {}

  lemma {:induction false} DataAtOffset(before: seq<byte>, ps: seq<Piece>, after: seq<byte>, k: nat)
    requires k < |ps| && forall s :: s in Segs(ps) ==> Packable(s)
    ensures var data := before + AllBytes(Segs(ps)) + after;
            var off := DataOffset(|before|, ps, k);
            off + |ps[k].seg.data| <= |data| && data[off..off + |ps[k].seg.data|] == ps[k].seg.data
    decreases ps
  {
    hide SegBytes, Packable;
    assert Segs(ps)[1..] == Segs(ps[1..]);
    var b, rest := SegBytes(ps[0].seg), AllBytes(Segs(ps[1..]));
    assert before + (b + rest) + after == (before + b) + rest + after;
    if k > 0 {
      DataAtOffset(before + b, ps[1..], after, k - 1);
    } else {
      DataOfFirst(before, ps[0].seg, rest + after);
      assert before + b + (rest + after) == before + b + rest + after;
    }
  }

  lemma DataOfFirst(before: seq<byte>, s: Seg, after: seq<byte>)
    requires Packable(s)
    ensures var data, off := before + SegBytes(s) + after, |before| + SEG_HEADER_LEN;
      off + |s.data| <= |data| && data[off..off + |s.data|] == s.data
  {
    hide Le32;
  }

  lemma {:induction false} PadKeepsAlignment(pos: nat, ps: seq<Piece>, pad: Piece)
    requires FlashAligned(pos, ps) && pad.origin == Pad
    ensures FlashAligned(pos, ps + [pad])
    decreases ps
  {
    hide Aligned;
    if ps == [] {
      assert ps + [pad] == [pad];
    } else {
      PadKeepsAlignment(pos + SEG_HEADER_LEN + |ps[0].seg.data|, ps[1..], pad);
      assert (ps + [pad])[1..] == ps[1..] + [pad];
    }
  }

  /** In every saved file, the data of every flash segment lies, whole, at an
      offset congruent to its load address modulo 64 KB. */
  lemma FlashDataIsAligned(img: Image, sha: seq<byte> -> Sha256, k: nat)
    requires SavedBytes(img, sha).Ok? && k < |Plan(img).value| && Plan(img).value[k].origin == Flash
    ensures var file, ps := SavedBytes(img, sha).value, Plan(img).value;
            var off := DataOffset(FIRST_SEGMENT, ps, k);
            && off + |ps[k].seg.data| <= |file|
            && file[off..off + |ps[k].seg.data|] == ps[k].seg.data
            && off % IROM_ALIGN == ps[k].seg.addr % IROM_ALIGN
  {
    hide Plan;
    hide Layout;
    hide FlashAligned;
    hide AllBytes;
    hide Segs;
    hide DataOffset;
    hide Headers;
    hide XorAll;
    var file, ps := SavedBytes(img, sha).value, Plan(img).value;
    PlanFromMain(img);
    PlanIsPackable(img);
    LayoutAligns(FIRST_SEGMENT, FlashPart(Sections(img)), RamPart(Sections(img)));
    if img.securePad {
      PadKeepsAlignment(FIRST_SEGMENT, MainPlan(img).value, ps[|ps| - 1]);
    }
    FlashAlignedAt(FIRST_SEGMENT, ps, k);
    var h, s := Headers(img, |ps|), AllBytes(Segs(ps));
    BodyPrefix(img, Segs(ps));
    var after := file[|h + s|..];
    assert file == h + s + after;
    DataAtOffset(h, ps, after, k);
  }

  /** Saving cannot fail its alignment assert when every flash segment starts at
      least 16 bytes into its 64 KB page... */
  lemma SaveNeverMisaligned(img: Image)
    requires forall s :: s in img.segments && IsFlashAddr(s.addr) ==> s.addr % IROM_ALIGN >= 16
    ensures Plan(img) != Err(Misaligned)
  {
    hide Layout;
    hide IsFlashAddr;
    hide NeighboursSharePage;
    var flash := FlashPart(Sections(img));
    FlashIsFromInput(img);
    NeverMisaligned(FIRST_SEGMENT, flash, RamPart(Sections(img)));
  }

  lemma FlashIsFromInput(img: Image)
    ensures forall s :: s in FlashPart(Sections(img)) ==> s in img.segments && IsFlashAddr(s.addr)
  {
    SortFacts(img.segments);
    PartsMembers(Sections(img));
    forall s | s in FlashPart(Sections(img)) ensures s in img.segments {
      assert s in multiset(FlashPart(Sections(img))) + multiset(RamPart(Sections(img)));
      assert s in multiset(Sections(img));
    }
  }

  /** ...and with flash segments only it fails exactly when one of them ends one
      header length short of the slot of the next. */
  lemma FlashImageMisaligned(img: Image)
    requires forall s :: s in img.segments ==> IsFlashAddr(s.addr) && Packable(s)
    requires HeadersPack(img) && !NeighboursSharePage(Sections(img))
    ensures Plan(img) == Err(Misaligned) <==> OneHeaderGapAfter(Sections(img))
  {
    hide Layout;
    hide NeighboursSharePage;
    hide SecurePadLen;
    hide IsFlashAddr;
    var all := Sections(img);
    SortFacts(img.segments);
    forall s | s in all ensures IsFlashAddr(s.addr) && Packable(s) {
      assert s in multiset(all);
    }
    FlashOnly(all);
    if all == [] {
      assert FlashPart(all) == [];
      NeverMisaligned(FIRST_SEGMENT, [], []);
    } else {
      FlashOnlyMisaligned(FIRST_SEGMENT, all);
      assert !GapOfOneHeader(FIRST_SEGMENT, all[0].addr);
    }
  }

  lemma {:induction false} FlashOnly(segs: seq<Seg>)
    requires forall s :: s in segs ==> IsFlashAddr(s.addr)
    ensures FlashPart(segs) == segs && RamPart(segs) == []
  {
    hide IsFlashAddr;
    if segs != [] {
      FlashOnly(segs[1..]);
    }
  }

  // sorting and taking the flash segments commute
  lemma {:induction false} FlashOfInsert(s: Seg, segs: seq<Seg>)
    requires Sorted(segs)
    ensures FlashPart(InsertByAddr(s, segs)) ==
      if IsFlashAddr(s.addr) then InsertByAddr(s, FlashPart(segs)) else FlashPart(segs)
  {
    hide IsFlashAddr;
    if segs == [] {
      assert [s][1..] == [];
    } else if s.addr <= segs[0].addr {
      assert ([s] + segs)[1..] == segs;
      PartsFrom(segs, s.addr);
      InsertFirst(s, FlashPart(segs));
    } else {
      FlashOfInsert(s, segs[1..]);
      assert ([segs[0]] + InsertByAddr(s, segs[1..]))[1..] == InsertByAddr(s, segs[1..]);
      if IsFlashAddr(segs[0].addr) {
        assert ([segs[0]] + FlashPart(segs[1..]))[1..] == FlashPart(segs[1..]);
      }
    }
  }

  lemma InsertFirst(s: Seg, segs: seq<Seg>)
    requires AllFrom(segs, s.addr)
    ensures InsertByAddr(s, segs) == [s] + segs
  {}

  lemma {:induction false} FlashOfSort(segs: seq<Seg>)
    ensures FlashPart(SortByAddr(segs)) == SortByAddr(FlashPart(segs))
  {
    hide IsFlashAddr;
    if segs != [] {
      FlashOfSort(segs[1..]);
      SortFacts(segs[1..]);
      FlashOfInsert(segs[0], SortByAddr(segs[1..]));
      if IsFlashAddr(segs[0].addr) {
        assert ([segs[0]] + FlashPart(segs[1..]))[1..] == FlashPart(segs[1..]);
      }
    }
  }

  lemma SortSorted(segs: seq<Seg>)
    requires Sorted(segs)
    ensures SortByAddr(segs) == segs
  {
    StableSort.SortSorted(Addr, segs);
  }

  lemma {:induction false} PartsOfBoth(ram: seq<Seg>, flash: seq<Seg>)
    requires (forall r :: r in ram ==> !IsFlashAddr(r.addr)) && forall s :: s in flash ==> IsFlashAddr(s.addr)
    ensures FlashPart(ram + flash) == flash && RamPart(ram + flash) == ram
  {
    hide IsFlashAddr;
    if ram == [] {
      assert ram + flash == flash;
      FlashOnly(flash);
    } else {
      assert (ram + flash)[1..] == ram[1..] + flash;
      PartsOfBoth(ram[1..], flash);
    }
  }

  // the flash segments of an image in order of address, as save accepts them
  predicate FlashList(flash: seq<Seg>) {
    && flash != [] && Sorted(flash) && !NeighboursSharePage(flash)
    && forall s :: s in flash ==> IsFlashAddr(s.addr) && Packable(s)
  }

  lemma {:induction false} PagesApart(flash: seq<Seg>, i: nat, j: nat)
    requires Sorted(flash) && !NeighboursSharePage(flash) && i <= j < |flash|
    ensures Page(flash[j]) >= Page(flash[i]) + (j - i)
    decreases j - i
  {
    if i < j {
      PagesApart(flash, i, j - 1);
      PagesGrow(flash, j - 1, j);
    }
  }

  // the two flash regions have room for 64 and 51 pages
  lemma FewFlashSegments(flash: seq<Seg>)
    requires FlashList(flash)
    ensures |flash| <= 115
  {
    var k := 0;
    while k < |flash| && flash[k].addr < 0x3F800000
      invariant k <= |flash| && forall i :: 0 <= i < k ==> flash[i].addr < 0x3F800000
    {
      k := k + 1;
    }
    if k > 0 {
      PagesApart(flash, 0, k - 1);
      assert flash[0] in flash && flash[k - 1] in flash;
    }
    if k < |flash| {
      var last := |flash| - 1;
      PagesApart(flash, k, last);
      assert flash[k] in flash && flash[last] in flash;
    }
  }

  // the image with its flash segments and these RAM segments instead
  function WithRam(img: Image, ram: seq<Seg>, flash: seq<Seg>): Image {
    img.(segments := ram + flash)
  }

  predicate IsRamList(ram: seq<Seg>) {
    forall r :: r in ram ==> !IsFlashAddr(r.addr)
  }

  lemma FlashStays(img: Image, ram: seq<Seg>, flash: seq<Seg>)
    requires FlashList(flash) && IsRamList(ram)
    ensures FlashPart(Sections(WithRam(img, ram, flash))) == flash
  {
    PartsOfBoth(ram, flash);
    FlashOfSort(ram + flash);
    SortSorted(flash);
  }

  /** Whatever the RAM segments, saving flash segments that leave no fragile gap
      passes the alignment assert... */
  lemma SafeWithAnyRam(img: Image, ram: seq<Seg>, flash: seq<Seg>)
    requires FlashList(flash) && IsRamList(ram)
    requires !Fragile(FIRST_SEGMENT, flash[0].addr) && !FragileAfter(flash)
    ensures Plan(WithRam(img, ram, flash)) != Err(Misaligned)
  {
    hide Layout, FlashList, IsRamList, Fragile, FragileAfter, NeighboursSharePage;
    var image := WithRam(img, ram, flash);
    FlashStays(img, ram, flash);
    SafeFromAnyRam(FIRST_SEGMENT, flash, RamPart(Sections(image)));
  }

  /** ...and with these RAM segments, which have no address, those that leave one fail it. */
  lemma FailsWithSomeRam(img: Image, flash: seq<Seg>)
    requires FlashList(flash) && HeadersPack(img)
    requires Fragile(FIRST_SEGMENT, flash[0].addr) || FragileAfter(flash)
    ensures IsRamList(RamToFail(FIRST_SEGMENT, flash)) && Constructed(RamToFail(FIRST_SEGMENT, flash))
    ensures Plan(WithRam(img, RamToFail(FIRST_SEGMENT, flash), flash)) == Err(Misaligned)
  {
    hide Layout, RamToFail, Fragile, FragileAfter, NeighboursSharePage;
    var ram := RamToFail(FIRST_SEGMENT, flash);
    var all := ram + flash;
    FewFlashSegments(flash);
    assert !IsFlashAddr(RAM_ADDR) && forall a :: IsFlashAddr(a) ==> RAM_ADDR <= a;
    assert Sorted(all);
    SortSorted(all);
    PartsOfBoth(ram, flash);
    FragileCanFail(FIRST_SEGMENT, flash);
  }

  /** For the flash segments of an image, some RAM segments that the constructor
      makes fail the assert beside them if and only if the first address is less
      than 16 bytes into its page or a later gap is fragile. */
  lemma SaveMisalignedExactly(img: Image, flash: seq<Seg>)
    requires flash != [] && FlashList(flash) && HeadersPack(img)
    ensures (exists ram :: IsRamList(ram) && Constructed(ram) && Plan(WithRam(img, ram, flash)) == Err(Misaligned)) <==>
      flash[0].addr % IROM_ALIGN < 16 || FragileAfter(flash)
  {
    hide Plan, FlashList, IsRamList, Fragile, FragileAfter, HeadersPack;
    FirstIsFragile(flash[0].addr);
    if Fragile(FIRST_SEGMENT, flash[0].addr) || FragileAfter(flash) {
      FailsWithSomeRam(img, flash);
    } else {
      forall ram | IsRamList(ram) ensures Plan(WithRam(img, ram, flash)) != Err(Misaligned) {
        SafeWithAnyRam(img, ram, flash);
      }
    }
  }

  /** An image on which saving fails its alignment assert. */
  lemma MisalignedImage(img: Image)
    requires HeadersPack(img)
    requires img.segments == [Seg(0x400d0018, Zeros(65528 - 24)), Seg(0x400e0008, Zeros(4))]
    ensures Plan(img) == Err(Misaligned)
  {
    hide Layout, Zeros;
    assert Sorted(img.segments);
    SortSorted(img.segments);
    FlashOnly(img.segments);
    MisalignedExample();
  }

  // -------- secure padding --------

  lemma {:induction false} EndOfAppend(pos: nat, ps: seq<Piece>, p: Piece)
    ensures EndOf(pos, ps + [p]) == EndOf(pos, ps) + SEG_HEADER_LEN + |p.seg.data|
    decreases ps
  {
    if ps == [] {
      assert ps + [p] == [p];
    } else {
      EndOfAppend(pos + SEG_HEADER_LEN + |ps[0].seg.data|, ps[1..], p);
      assert (ps + [p])[1..] == ps[1..] + [p];
    }
  }

  lemma {:induction false} EndOfBytes(pos: nat, ps: seq<Piece>)
    requires forall s :: s in Segs(ps) ==> Packable(s)
    ensures EndOf(pos, ps) == pos + |AllBytes(Segs(ps))|
    decreases ps
  {
    if ps != [] {
      assert Segs(ps)[1..] == Segs(ps[1..]);
      EndOfBytes(pos + SEG_HEADER_LEN + |ps[0].seg.data|, ps[1..]);
    }
  }

  lemma SecurePadResidue(pos: nat)
    ensures (pos + SEG_HEADER_LEN + SecurePadLen(pos) + 16 + SPACE_AFTER_CHECKSUM) % IROM_ALIGN == 0
    ensures (pos + SEG_HEADER_LEN + SecurePadLen(pos)) % 16 == 0
  {
    var a := (pos + SEG_HEADER_LEN) % IROM_ALIGN;
    var k := IROM_ALIGN - a - 16 - SPACE_AFTER_CHECKSUM;
    assert SecurePadLen(pos) == k || SecurePadLen(pos) == k + IROM_ALIGN;
    var total := pos + SEG_HEADER_LEN + SecurePadLen(pos) + 16 + SPACE_AFTER_CHECKSUM;
    assert total == (pos + SEG_HEADER_LEN) / IROM_ALIGN * IROM_ALIGN + a + SecurePadLen(pos) + 16 + SPACE_AFTER_CHECKSUM;
    assert total % IROM_ALIGN == 0;
    assert total == total / IROM_ALIGN * 4096 * 16;
  }

  /** With secure padding the image, its digest and the signature block to come
      end on a 64 KB boundary: the closing assert of save cannot fail. */
  lemma SecureImageEndsOnBoundary(img: Image)
    requires Plan(img).Ok? && img.securePad && |Plan(img).value| < 256
    ensures var ps := Plan(img).value;
            && HeadersPack(img) && |Segs(ps)| < 256 && (forall s :: s in Segs(ps) ==> Packable(s))
            && (|Body(img, Segs(ps))| + SPACE_AFTER_CHECKSUM) % IROM_ALIGN == 0
  {
    hide Plan;
    hide Layout;
    hide AllBytes;
    hide Segs;
    hide XorAll;
    hide Headers;
    hide SecurePadLen;
    hide EndOf;
    PlanFromMain(img);
    PlanIsPackable(img);
    var ps, main := Plan(img).value, MainPlan(img).value;
    EndOfBytes(FIRST_SEGMENT, ps);
    EndOfAppend(FIRST_SEGMENT, main, ps[|ps| - 1]);
    SecurePadResidue(EndOf(FIRST_SEGMENT, main));
    var prefix := FIRST_SEGMENT + |AllBytes(Segs(ps))|;
    assert prefix % 16 == 0;
    assert |Body(img, Segs(ps))| == prefix + 16;
  }

  // -------- contents --------

  lemma {:induction false} OfPad(ps: seq<Piece>, pad: Piece)
    requires pad.origin == Pad
    ensures Of(Flash, ps + [pad]) == Of(Flash, ps) && Of(Ram, ps + [pad]) == Of(Ram, ps)
  {
    if ps == [] {
      assert ps + [pad] == [pad];
    } else {
      OfPad(ps[1..], pad);
      assert (ps + [pad])[1..] == ps[1..] + [pad];
    }
  }

  /** Every saved image holds each flash segment once, whole, in address order;
      the RAM segments in address order, at most cut into contiguous parts; and
      otherwise zeros at address 0. No two flash segments share a 64 KB page. */
  lemma SaveKeepsContent(img: Image)
    requires Plan(img).Ok?
    ensures Holds(Plan(img).value, FlashPart(Sections(img)), RamPart(Sections(img)))
    ensures var flash := FlashPart(Sections(img));
            forall i, j :: 0 <= i < j < |flash| ==> Page(flash[i]) < Page(flash[j])
  {
    hide Plan;
    hide Layout;
    hide SecurePadLen;
    hide Of;
    hide SplitOf;
    hide NeighboursSharePage;
    PlanFromMain(img);
    var flash, ram := FlashPart(Sections(img)), RamPart(Sections(img));
    LayoutContent(FIRST_SEGMENT, flash, ram);
    if img.securePad {
      OfPad(MainPlan(img).value, Plan(img).value[|MainPlan(img).value|]);
    }
    SortFacts(img.segments);
    PartsSorted(Sections(img));
    forall i, j | 0 <= i < j < |flash| ensures Page(flash[i]) < Page(flash[j]) {
      PagesGrow(flash, i, j);
    }
  }

  // how many segments claim an address, and the sum of the bytes they put there
  function Claims(segs: seq<Seg>, a: nat): nat {
    if segs == [] then 0 else (if Covers(segs[0], a) then 1 else 0) + Claims(segs[1..], a)
  }

  function Sum(segs: seq<Seg>, a: nat): nat {
    if segs == [] then 0 else (if Covers(segs[0], a) then segs[0].data[a - segs[0].addr] else 0) + Sum(segs[1..], a)
  }

  ghost predicate Disjoint(segs: seq<Seg>) {
    forall a :: Claims(segs, a) <= 1
  }

  lemma {:induction false} InsertClaims(s: Seg, segs: seq<Seg>, a: nat)
    ensures Claims(InsertByAddr(s, segs), a) == Claims([s], a) + Claims(segs, a)
    ensures Sum(InsertByAddr(s, segs), a) == Sum([s], a) + Sum(segs, a)
  {
    hide Covers;
    assert ([s] + segs)[1..] == segs;
    if segs != [] && s.addr > segs[0].addr {
      InsertClaims(s, segs[1..], a);
      assert ([segs[0]] + InsertByAddr(s, segs[1..]))[1..] == InsertByAddr(s, segs[1..]);
    }
  }

  lemma {:induction false} SortClaims(segs: seq<Seg>, a: nat)
    ensures Claims(SortByAddr(segs), a) == Claims(segs, a) && Sum(SortByAddr(segs), a) == Sum(segs, a)
  {
    if segs != [] {
      SortClaims(segs[1..], a);
      InsertClaims(segs[0], SortByAddr(segs[1..]), a);
    }
  }

  lemma {:induction false} PartsClaims(segs: seq<Seg>, a: nat)
    ensures Claims(segs, a) == Claims(FlashPart(segs), a) + Claims(RamPart(segs), a)
    ensures Sum(segs, a) == Sum(FlashPart(segs), a) + Sum(RamPart(segs), a)
  {
    hide Covers;
    hide IsFlashAddr;
    if segs != [] {
      PartsClaims(segs[1..], a);
    }
  }

  lemma {:induction false} LoadBySum(segs: seq<Seg>, a: nat)
    requires Claims(segs, a) <= 1
    ensures a in Load(segs) <==> Claims(segs, a) == 1
    ensures a in Load(segs) ==> Load(segs)[a] == Sum(segs, a)
    ensures Claims(segs, a) == 0 ==> Sum(segs, a) == 0
  {
    if segs != [] {
      LoadBySum(segs[1..], a);
      assert a in LoadOne(segs[0]) <==> Covers(segs[0], a);
    }
  }

  /** When no address is claimed twice, loading the emitted segments (without
      the padding) puts in memory exactly what the input segments put there. */
  lemma SaveLoadsInput(img: Image)
    requires Plan(img).Ok? && Disjoint(img.segments)
    ensures Load(NonPad(Plan(img).value)) == Load(img.segments)
  {
    hide Plan;
    hide Load;
    hide Sum;
    hide Claims;
    hide SplitOf;
    hide Of;
    hide IsFlashAddr;
    var flash, ram := FlashPart(Sections(img)), RamPart(Sections(img));
    forall a: nat
      ensures a in Load(img.segments) <==> a in Load(flash) || a in Load(ram)
      ensures a in Load(flash) ==> a !in Load(ram) && Load(flash)[a] == Load(img.segments)[a]
      ensures a in Load(ram) ==> a !in Load(flash) && Load(ram)[a] == Load(img.segments)[a]
    {
      SortClaims(img.segments, a);
      PartsClaims(Sections(img), a);
      LoadBySum(img.segments, a);
      LoadBySum(flash, a);
      LoadBySum(ram, a);
    }
    SaveKeepsContent(img);
    SplitLoads(Of(Ram, Plan(img).value), ram);
    InterleavedLoads(Plan(img).value);
  }

  // -------- the checksum --------

  lemma {:induction false} RereadXor(segs: seq<Seg>)
    ensures XorAll(Reread(segs)) == XorAll(segs)
  {
    hide Xor;
    hide XorOf;
    if segs != [] {
      RereadXor(segs[1..]);
      var s := segs[0];
      XorAllCons(NewSegment(s.addr, s.data), Reread(segs[1..]));
      var pad := Zeros(|PadTo4(s.data)| - |s.data|);
      assert PadTo4(s.data) == s.data + pad;
      XorOfConcat(s.data, pad);
      XorOfZeros(|pad|);
      XorLaws(XorOf(s.data), 0, 0);
    }
  }

  /** The stored checksum is the exclusive or of the bytes of the input
      segments, whatever was split, reordered or padded, and it is what the
      loader recomputes from the segments it has read. */
  lemma ChecksumIsInvariant(img: Image)
    requires Plan(img).Ok?
    ensures RecomputedChecksum(Segs(Plan(img).value)) == Xor(CHECKSUM_MAGIC, XorAll(img.segments)) as byte
    ensures RecomputedChecksum(Reread(Segs(Plan(img).value))) == RecomputedChecksum(Segs(Plan(img).value))
  {
    hide Plan;
    hide Xor;
    hide XorAll;
    hide Of;
    hide SplitOf;
    var ps := Plan(img).value;
    SaveKeepsContent(img);
    PiecesXor(ps);
    SplitXor(Of(Ram, ps), RamPart(Sections(img)));
    PartsXor(Sections(img));
    SortXor(img.segments);
    RereadXor(Segs(ps));
  }
}
