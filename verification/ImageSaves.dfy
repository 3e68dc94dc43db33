/** When saving a firmware image succeeds, and what each of its errors means. */
module ImageSaves {
  import opened Bytes
  import opened ImageContent
  import opened ImageFormat
  import opened ImageLayout
  import opened ImageTheorems
  import StableSort

  // -------- what the worklist yields, packable or not --------

  /** The pieces in the order they are written, until the worklists are empty or
      the assert fails, and the flash segments that are left then. */
  function Run(pos: nat, flash: seq<Seg>, ram: seq<Seg>): (r: (seq<Piece>, seq<Seg>))
    decreases |flash|, DataLen(ram) + |ram|, if flash != [] && AlignmentDataNeeded(pos, flash[0].addr) > 0 then 1 else 0
  {
    if flash == [] then (RamPieces(ram), [])
    else
      var n := AlignmentDataNeeded(pos, flash[0].addr);
      if n > 0 then
        if ram != [] && n > SEG_HEADER_LEN then
          var (first, rest) := SplitFirst(ram, n);
          First(Piece(Ram, first), Run(pos + SEG_HEADER_LEN + |first.data|, flash, rest))
        else
          PaddingSettles(pos, flash[0].addr);
          First(Piece(Pad, Seg(0, Zeros(n))), Run(pos + SEG_HEADER_LEN + n, flash, ram))
      else if !Aligned(pos, flash[0].addr) then ([], flash)
      else First(Piece(Flash, flash[0]), Run(pos + SEG_HEADER_LEN + |flash[0].data|, flash[1..], ram))
  }

  function First(p: Piece, rest: (seq<Piece>, seq<Seg>)): (seq<Piece>, seq<Seg>) {
    ([p] + rest.0, rest.1)
  }

  function RamPieces(ram: seq<Seg>): seq<Piece> {
    if ram == [] then [] else [Piece(Ram, ram[0])] + RamPieces(ram[1..])
  }

  // the result that goes with a run: every piece is packed before the next one is planned
  function Judged(run: (seq<Piece>, seq<Seg>)): Pieces {
    if !AllPackable(run.0) then Err(PackError) else if run.1 != [] then Err(Misaligned) else Ok(run.0)
  }

  lemma JudgedFirst(p: Piece, rest: (seq<Piece>, seq<Seg>))
    ensures Judged(First(p, rest)) == Emit(p, Judged(rest))
  {
    hide Packable;
    assert AllPackable([p] + rest.0) <==> Packable(p.seg) && AllPackable(rest.0) by {
      var all := [p] + rest.0;
      assert all[0] == p && forall i :: 0 <= i < |rest.0| ==> all[i + 1] == rest.0[i];
    }
  }

  lemma {:induction false} RamIsJudged(ram: seq<Seg>)
    ensures EmitAll(ram) == Judged((RamPieces(ram), []))
  {
    hide Packable;
    if ram != [] {
      RamIsJudged(ram[1..]);
      JudgedFirst(Piece(Ram, ram[0]), (RamPieces(ram[1..]), []));
    }
  }

  /** A layout fails to pack exactly when some piece of the run does, and fails the
      assert exactly when they all pack but flash segments are left. */
  lemma {:induction false} LayoutIsJudged(pos: nat, flash: seq<Seg>, ram: seq<Seg>)
    ensures Layout(pos, flash, ram) == Judged(Run(pos, flash, ram))
    decreases |flash|, DataLen(ram) + |ram|, if flash != [] && AlignmentDataNeeded(pos, flash[0].addr) > 0 then 1 else 0
  {
    hide AlignmentDataNeeded, Aligned, SplitFirst, DataLen, Judged, Emit, First;
    if flash == [] {
      RamIsJudged(ram);
    } else {
      var n := AlignmentDataNeeded(pos, flash[0].addr);
      if n > 0 {
        if ram != [] && n > SEG_HEADER_LEN {
          var (first, rest) := SplitFirst(ram, n);
          var next := pos + SEG_HEADER_LEN + |first.data|;
          LayoutIsJudged(next, flash, rest);
          JudgedFirst(Piece(Ram, first), Run(next, flash, rest));
        } else {
          PaddingSettles(pos, flash[0].addr);
          var next := pos + SEG_HEADER_LEN + n;
          LayoutIsJudged(next, flash, ram);
          JudgedFirst(Piece(Pad, Seg(0, Zeros(n))), Run(next, flash, ram));
        }
      } else if Aligned(pos, flash[0].addr) {
        var next := pos + SEG_HEADER_LEN + |flash[0].data|;
        LayoutIsJudged(next, flash[1..], ram);
        JudgedFirst(Piece(Flash, flash[0]), Run(next, flash[1..], ram));
      } else {
        StopsHere(flash);
      }
    }
  }

  lemma StopsHere(flash: seq<Seg>)
    requires flash != []
    ensures Judged(([], flash)) == Err(Misaligned)
  {}

  // -------- what a run consists of --------

  // flash segments whole, in order and in place, RAM segments in chunks, zeros besides; a run
  // that stops early stops before a gap of one header
  ghost predicate RunHolds(pos: nat, flash: seq<Seg>, ram: seq<Seg>, run: (seq<Piece>, seq<Seg>)) {
    var (ps, left) := run;
    && Of(Flash, ps) + left == flash && PadsAreZero(ps) && FlashAligned(pos, ps)
    && if left == [] then SplitOf(Of(Ram, ps), ram) else GapOfOneHeader(EndOf(pos, ps), left[0].addr)
  }

  lemma FirstHolds(pos: nat, p: Piece, rest: (seq<Piece>, seq<Seg>), flash: seq<Seg>, ram: seq<Seg>, flash': seq<Seg>,
                   ram': seq<Seg>)
    requires RunHolds(pos + SEG_HEADER_LEN + |p.seg.data|, flash', ram', rest)
    requires flash == if p.origin == Flash then [p.seg] + flash' else flash'
    requires p.origin == Flash ==> Aligned(pos, p.seg.addr)
    requires p.origin == Pad ==> p.seg == Seg(0, Zeros(|p.seg.data|))
    requires if p.origin == Ram then
               forall cut :: SplitOf(cut, ram') ==> SplitOf([p.seg] + cut, ram)
             else ram == ram'
    ensures RunHolds(pos, flash, ram, First(p, rest))
  {
    hide SplitOf, GapOfOneHeader, Aligned, Of, PadsAreZero, FlashAligned, EndOf, Zeros;
    ConsContent(p, rest.0);
    AlignedCons(pos, p, rest.0);
    EndCons(pos, p, rest.0);
    PadsCons(p, rest.0);
    Associates([p.seg], Of(Flash, rest.0), rest.1);
  }

  lemma Associates(a: seq<Seg>, b: seq<Seg>, c: seq<Seg>)
    ensures a + b + c == a + (b + c)
  {}

  lemma EndCons(pos: nat, p: Piece, ps: seq<Piece>)
    ensures EndOf(pos, [p] + ps) == EndOf(pos + SEG_HEADER_LEN + |p.seg.data|, ps)
  {
    assert ([p] + ps)[1..] == ps;
  }

  lemma PadsCons(p: Piece, ps: seq<Piece>)
    requires PadsAreZero(ps) && (p.origin == Pad ==> p.seg == Seg(0, Zeros(|p.seg.data|)))
    ensures PadsAreZero([p] + ps)
  {}

  lemma CutFirst(ram: seq<Seg>, n: nat, cut: seq<Seg>)
    requires ram != [] && n > 0 && SplitOf(cut, SplitFirst(ram, n).1)
    ensures SplitOf([SplitFirst(ram, n).0] + cut, ram)
  {
    assert ([SplitFirst(ram, n).0] + cut)[1..] == cut;
  }

  lemma {:induction false} RamHolds(pos: nat, ram: seq<Seg>)
    ensures RunHolds(pos, [], ram, (RamPieces(ram), []))
    decreases ram
  {
    if ram != [] {
      RamHolds(pos + SEG_HEADER_LEN + |ram[0].data|, ram[1..]);
      forall cut | SplitOf(cut, ram[1..]) ensures SplitOf([ram[0]] + cut, ram) {
        assert ([ram[0]] + cut)[1..] == cut;
      }
      FirstHolds(pos, Piece(Ram, ram[0]), (RamPieces(ram[1..]), []), [], ram, [], ram[1..]);
    }
  }

  lemma StoppedHolds(pos: nat, flash: seq<Seg>, ram: seq<Seg>)
    requires flash != [] && AlignmentDataNeeded(pos, flash[0].addr) == 0 && !Aligned(pos, flash[0].addr)
    ensures RunHolds(pos, flash, ram, ([], flash))
  {
    NoPaddingWhen(pos, flash[0].addr);
    assert [] + flash == flash;
  }

  /** Every run is of this kind. */
  lemma {:induction false} RunContent(pos: nat, flash: seq<Seg>, ram: seq<Seg>)
    ensures RunHolds(pos, flash, ram, Run(pos, flash, ram))
    decreases |flash|, DataLen(ram) + |ram|, if flash != [] && AlignmentDataNeeded(pos, flash[0].addr) > 0 then 1 else 0
  {
    hide AlignmentDataNeeded, Aligned, DataLen, SplitFirst, RunHolds, SplitOf, First;
    if flash == [] {
      RamHolds(pos, ram);
    } else {
      var n := AlignmentDataNeeded(pos, flash[0].addr);
      if n > 0 {
        if ram != [] && n > SEG_HEADER_LEN {
          var (first, rest) := SplitFirst(ram, n);
          var next := pos + SEG_HEADER_LEN + |first.data|;
          RunContent(next, flash, rest);
          forall cut | SplitOf(cut, rest) ensures SplitOf([first] + cut, ram) {
            CutFirst(ram, n, cut);
          }
          FirstHolds(pos, Piece(Ram, first), Run(next, flash, rest), flash, ram, flash, rest);
        } else {
          PaddingSettles(pos, flash[0].addr);
          var next := pos + SEG_HEADER_LEN + n;
          RunContent(next, flash, ram);
          FirstHolds(pos, Piece(Pad, Seg(0, Zeros(n))), Run(next, flash, ram), flash, ram, flash, ram);
        }
      } else if Aligned(pos, flash[0].addr) {
        var next := pos + SEG_HEADER_LEN + |flash[0].data|;
        RunContent(next, flash[1..], ram);
        FirstHolds(pos, Piece(Flash, flash[0]), Run(next, flash[1..], ram), flash, ram, flash[1..], ram);
      } else {
        StoppedHolds(pos, flash, ram);
      }
    }
  }

  // -------- segments inside the address space --------

  predicate InSpace(segs: seq<Seg>) {
    forall s :: s in segs ==> Packable(s) && s.addr + |s.data| <= U32_LIMIT
  }

  lemma SplitInSpace(ram: seq<Seg>, n: nat)
    requires ram != [] && n > 0 && InSpace(ram)
    ensures Packable(SplitFirst(ram, n).0) && InSpace(SplitFirst(ram, n).1)
  {
    assert ram[0] in ram;
  }

  lemma PacksCons(p: Piece, ps: seq<Piece>)
    requires Packable(p.seg) && AllPackable(ps)
    ensures AllPackable([p] + ps)
  {}

  lemma {:induction false} RamPacks(ram: seq<Seg>)
    requires InSpace(ram)
    ensures AllPackable(RamPieces(ram))
  {
    if ram != [] {
      assert ram[0] in ram;
      RamPacks(ram[1..]);
      PacksCons(Piece(Ram, ram[0]), RamPieces(ram[1..]));
    }
  }

  /** Segments inside the address space never fail to pack. */
  lemma {:induction false} InSpacePacks(pos: nat, flash: seq<Seg>, ram: seq<Seg>)
    requires InSpace(flash) && InSpace(ram)
    ensures AllPackable(Run(pos, flash, ram).0)
    decreases |flash|, DataLen(ram) + |ram|, if flash != [] && AlignmentDataNeeded(pos, flash[0].addr) > 0 then 1 else 0
  {
    hide AlignmentDataNeeded, Aligned, DataLen, SplitFirst, AllPackable;
    if flash == [] {
      RamPacks(ram);
    } else {
      assert flash[0] in flash;
      var n := AlignmentDataNeeded(pos, flash[0].addr);
      if n > 0 {
        if ram != [] && n > SEG_HEADER_LEN {
          SplitInSpace(ram, n);
          var (first, rest) := SplitFirst(ram, n);
          var next := pos + SEG_HEADER_LEN + |first.data|;
          InSpacePacks(next, flash, rest);
          PacksCons(Piece(Ram, first), Run(next, flash, rest).0);
        } else {
          PaddingSettles(pos, flash[0].addr);
          var next := pos + SEG_HEADER_LEN + n;
          InSpacePacks(next, flash, ram);
          PacksCons(Piece(Pad, Seg(0, Zeros(n))), Run(next, flash, ram).0);
        }
      } else if Aligned(pos, flash[0].addr) {
        var next := pos + SEG_HEADER_LEN + |flash[0].data|;
        InSpacePacks(next, flash[1..], ram);
        PacksCons(Piece(Flash, flash[0]), Run(next, flash[1..], ram).0);
      } else {
        NothingToPack();
      }
    }
  }

  lemma NothingToPack()
    ensures AllPackable([])
  {}

  // -------- shared pages, in any order of the segments --------

  predicate SamePage(s: Seg, t: Seg) {
    IsFlashAddr(s.addr) && IsFlashAddr(t.addr) && s.addr / 0x1_0000 == t.addr / 0x1_0000
  }

  predicate Meets(s: Seg, segs: seq<Seg>) {
    exists t :: t in segs && SamePage(s, t)
  }

  predicate PagesShared(segs: seq<Seg>) {
    segs != [] && (Meets(segs[0], segs[1..]) || PagesShared(segs[1..]))
  }

  lemma {:induction false} PairShares(segs: seq<Seg>, i: nat, j: nat)
    requires i < j < |segs| && SamePage(segs[i], segs[j])
    ensures PagesShared(segs)
  {
    if i == 0 {
      assert segs[j] == segs[1..][j - 1];
    } else {
      PairShares(segs[1..], i - 1, j - 1);
    }
  }

  lemma {:induction false} SharedPair(segs: seq<Seg>) returns (i: nat, j: nat)
    requires PagesShared(segs)
    ensures i < j < |segs| && SamePage(segs[i], segs[j])
  {
    if t :| t in segs[1..] && SamePage(segs[0], t) {
      var k :| 0 <= k < |segs[1..]| && segs[1..][k] == t;
      i, j := 0, k + 1;
    } else {
      i, j := SharedPair(segs[1..]);
      i, j := i + 1, j + 1;
    }
  }

  lemma SharedMeans(segs: seq<Seg>)
    ensures PagesShared(segs) <==> exists i, j :: 0 <= i < j < |segs| && SamePage(segs[i], segs[j])
  {
    hide SamePage, PagesShared;
    if PagesShared(segs) {
      var i, j := SharedPair(segs);
    }
    if i, j :| 0 <= i < j < |segs| && SamePage(segs[i], segs[j]) {
      PairShares(segs, i, j);
    }
  }

  lemma SharedCons(s: Seg, segs: seq<Seg>)
    ensures PagesShared([s] + segs) <==> Meets(s, segs) || PagesShared(segs)
  {
    assert ([s] + segs)[1..] == segs;
  }

  lemma MeetsCons(s: Seg, t: Seg, segs: seq<Seg>)
    ensures Meets(s, [t] + segs) <==> SamePage(s, t) || Meets(s, segs)
  {
    hide SamePage;
    assert t in [t] + segs && forall x :: x in [t] + segs <==> x == t || x in segs;
  }

  lemma {:induction false} InsertMeets(s: Seg, x: Seg, segs: seq<Seg>)
    ensures Meets(x, InsertByAddr(s, segs)) <==> SamePage(x, s) || Meets(x, segs)
  {
    hide SamePage;
    StableSort.InsertMembers(Addr, s, segs);
    var r := InsertByAddr(s, segs);
    assert forall t :: t in r <==> t in multiset(r);
    assert forall t :: t in segs <==> t in multiset(segs);
  }

  lemma SamePageBack(s: Seg, t: Seg)
    ensures SamePage(s, t) == SamePage(t, s)
  {}

  lemma {:induction false} InsertShares(s: Seg, segs: seq<Seg>)
    ensures PagesShared(InsertByAddr(s, segs)) <==> Meets(s, segs) || PagesShared(segs)
  {
    hide SamePage, PagesShared;
    SharedCons(s, segs);
    if segs != [] && s.addr > segs[0].addr {
      var x, rest := segs[0], segs[1..];
      assert segs == [x] + rest;
      InsertShares(s, rest);
      InsertMeets(s, x, rest);
      SharedCons(x, InsertByAddr(s, rest));
      SharedCons(x, rest);
      MeetsCons(s, x, rest);
      SamePageBack(s, x);
      assert InsertByAddr(s, segs) == [x] + InsertByAddr(s, rest);
    } else {
      assert InsertByAddr(s, segs) == [s] + segs;
    }
  }

  lemma {:induction false} SortShares(segs: seq<Seg>)
    ensures PagesShared(SortByAddr(segs)) <==> PagesShared(segs)
  {
    hide SamePage, PagesShared;
    if segs != [] {
      var sorted := SortByAddr(segs[1..]);
      SortShares(segs[1..]);
      InsertShares(segs[0], sorted);
      SharedCons(segs[0], segs[1..]);
      assert segs == [segs[0]] + segs[1..];
      SortFacts(segs[1..]);
      assert forall t :: t in sorted <==> t in multiset(sorted);
      assert forall t :: t in segs[1..] <==> t in multiset(segs[1..]);
    }
  }

  lemma {:induction false} FlashMeets(s: Seg, segs: seq<Seg>)
    ensures Meets(s, FlashPart(segs)) <==> Meets(s, segs)
  {
    if segs != [] {
      FlashMeets(s, segs[1..]);
      assert segs == [segs[0]] + segs[1..];
    }
  }

  lemma {:induction false} FlashShares(segs: seq<Seg>)
    ensures PagesShared(FlashPart(segs)) <==> PagesShared(segs)
  {
    hide PagesShared;
    if segs != [] {
      var s, rest := segs[0], segs[1..];
      assert segs == [s] + rest;
      FlashShares(rest);
      SharedCons(s, rest);
      SharedCons(s, FlashPart(rest));
      FlashMeets(s, rest);
    }
  }

  lemma FlashPages(flash: seq<Seg>)
    requires forall s :: s in flash ==> IsFlashAddr(s.addr)
    ensures forall i, j :: 0 <= i < j < |flash| ==>
      (SamePage(flash[i], flash[j]) <==> Page(flash[i]) == Page(flash[j]))
  {}

  /** The check on the sorted flash segments finds exactly the images in which two
      flash segments share a page, wherever they are in the list. */
  lemma PageCheckIsExact(segs: seq<Seg>)
    ensures NeighboursSharePage(FlashPart(SortByAddr(segs))) <==> PagesShared(segs)
  {
    hide PagesShared, SamePage, NeighboursSharePage, IsFlashAddr, FlashPart;
    var sorted := SortByAddr(segs);
    var flash := FlashPart(sorted);
    SortFacts(segs);
    PartsSorted(sorted);
    PartsMembers(sorted);
    NeighbourCheckIsComplete(flash);
    SortShares(segs);
    FlashShares(sorted);
    SharedMeans(flash);
    FlashPages(flash);
  }

  // -------- the outcome of save --------

  // every field of the headers fits its struct format
  predicate FieldsPack(img: Image) {
    && |img.segments| < 256 && img.flashMode < 256 && img.flashSizeFreq < 256 && img.wpPin < 256
    && img.entrypoint < 0x1_0000_0000
  }

  // the run for the segments of an image, behind its headers
  function ImageRun(img: Image): (seq<Piece>, seq<Seg>) {
    Run(24, FlashPart(Sections(img)), RamPart(Sections(img)))
  }

  // no two flash segments share a page
  predicate OwnPages(img: Image) {
    forall i, j :: 0 <= i < j < |img.segments| ==> !SamePage(img.segments[i], img.segments[j])
  }

  lemma OwnPagesMeans(img: Image)
    ensures OwnPages(img) <==> !NeighboursSharePage(FlashPart(Sections(img)))
  {
    hide SamePage, PagesShared, NeighboursSharePage;
    PageCheckIsExact(img.segments);
    SharedMeans(img.segments);
  }

  /** Save succeeds exactly when the headers and all pieces pack, no two flash
      segments share a page, the assert is never failed, secure padding comes with
      a digest and there are at most 255 pieces; every error says which of these,
      in this order, does not hold. */
  lemma SavesExactly(img: Image, sha: seq<byte> -> Sha256)
    ensures var (ps, left) := ImageRun(img);
      var r := SavedBytes(img, sha);
      var few := |ps| + (if img.securePad then 1 else 0) <= 255;
      var pages, pack := OwnPages(img), AllPackable(ps);
      var digest := img.securePad ==> img.appendDigest;
      && (r.Ok? <==> FieldsPack(img) && pages && pack && left == [] && digest && few)
      && (r == Err(PackError) <==> !FieldsPack(img) || (pages && !pack))
      && (r == Err(SameFlashPage) <==> FieldsPack(img) && !pages)
      && (r == Err(Misaligned) <==> FieldsPack(img) && pages && pack && left != [])
      && (r == Err(DigestRequired) <==> FieldsPack(img) && pages && pack && left == [] && !digest)
      && (r == Err(TooManySegments) <==> FieldsPack(img) && pages && pack && left == [] && digest && !few)
  {
    hide Layout, Run, AllPackable, OwnPages, NeighboursSharePage, Body, SecurePadLen, EndOf, Packable;
    OwnPagesMeans(img);
    LayoutIsJudged(FIRST_SEGMENT, FlashPart(Sections(img)), RamPart(Sections(img)));
  }

  /** The pieces of a saved image are its run, and the segment that secure padding appends. */
  lemma SavesRun(img: Image)
    requires Plan(img).Ok?
    ensures var (ps, left) := ImageRun(img);
      && left == [] && RunHolds(24, FlashPart(Sections(img)), RamPart(Sections(img)), (ps, left))
      && |Plan(img).value| == |ps| + (if img.securePad then 1 else 0)
      && Plan(img).value[..|ps|] == ps
  {
    hide Layout, Run, AllPackable, NeighboursSharePage, SecurePadLen, EndOf, RunHolds;
    LayoutIsJudged(FIRST_SEGMENT, FlashPart(Sections(img)), RamPart(Sections(img)));
    RunContent(FIRST_SEGMENT, FlashPart(Sections(img)), RamPart(Sections(img)));
    var ps := ImageRun(img).0;
    assert ps[..|ps|] == ps;
  }

  /** Without flash segments the sorted segments are written as they are. */
  lemma RamOnlyIsSaved(img: Image, sha: seq<byte> -> Sha256)
    requires FieldsPack(img) && !img.securePad
    requires forall s :: s in img.segments ==> !IsFlashAddr(s.addr) && Packable(s)
    ensures SavedBytes(img, sha).Ok? && Segs(Plan(img).value) == SortByAddr(img.segments)
  {
    hide IsFlashAddr, Packable, Body;
    var sorted := SortByAddr(img.segments);
    SortFacts(img.segments);
    PartsMembers(sorted);
    assert |sorted| == |img.segments| by {
      assert |multiset(sorted)| == |sorted| && |multiset(img.segments)| == |img.segments|;
    }
    forall s | s in sorted ensures !IsFlashAddr(s.addr) && Packable(s) {
      assert s in multiset(sorted);
    }
    AllRam(sorted);
    RamEmitted(sorted);
  }

  lemma {:induction false} AllRam(segs: seq<Seg>)
    requires forall s :: s in segs ==> !IsFlashAddr(s.addr)
    ensures FlashPart(segs) == [] && RamPart(segs) == segs
  {
    hide IsFlashAddr;
    if segs != [] {
      assert segs[0] in segs;
      AllRam(segs[1..]);
    }
  }

  lemma {:induction false} RamEmitted(ram: seq<Seg>)
    requires forall s :: s in ram ==> Packable(s)
    ensures EmitAll(ram).Ok? && |EmitAll(ram).value| == |ram| && Segs(EmitAll(ram).value) == ram
  {
    hide Packable;
    if ram != [] {
      assert ram[0] in ram;
      RamEmitted(ram[1..]);
      assert ([Piece(Ram, ram[0])] + EmitAll(ram[1..]).value)[1..] == EmitAll(ram[1..]).value;
    }
  }

  /** An image of segments inside the address space, in pages of their own and with
      flash addresses at least 16 bytes into their page, is always saved, up to 255
      pieces. */
  lemma OrdinaryImageIsSaved(img: Image, sha: seq<byte> -> Sha256)
    requires FieldsPack(img) && OwnPages(img) && InSpace(img.segments) && (img.securePad ==> img.appendDigest)
    requires forall s :: s in img.segments && IsFlashAddr(s.addr) ==> s.addr % 0x1_0000 >= 16
    ensures SavedBytes(img, sha).Ok? <==> |ImageRun(img).0| + (if img.securePad then 1 else 0) <= 255
  {
    hide Layout, Run, AllPackable, OwnPages, IsFlashAddr, SavedBytes, Packable;
    SavesExactly(img, sha);
    var flash, ram := FlashPart(Sections(img)), RamPart(Sections(img));
    SortFacts(img.segments);
    PartsMembers(Sections(img));
    forall s | s in flash || s in ram ensures s in img.segments {
      assert s in multiset(flash) + multiset(ram);
      assert s in multiset(Sections(img));
    }
    InSpacePacks(24, flash, ram);
    NeverMisaligned(24, flash, ram);
    LayoutIsJudged(24, flash, ram);
  }
}
