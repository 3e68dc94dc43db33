/** When a saved image reads back as the segments that were emitted. */
module ImageReread {
  import opened Bytes
  import opened ImageContent
  import opened ImageFormat
  import opened ImageLayout
  import opened ImageTheorems
  import StableSort

  predicate Rereadable(segs: seq<Seg>) {
    forall s :: s in segs && s.addr != 0 ==> |s.data| % 4 == 0
  }

  /** The segments read back are the emitted ones exactly when every emitted
      segment with an address has a length divisible by four. */
  lemma {:induction false} RereadIsIdentity(segs: seq<Seg>)
    ensures Reread(segs) == segs <==> Rereadable(segs)
  {
    if segs != [] {
      var s := segs[0];
      RereadIsIdentity(segs[1..]);
      assert segs == [s] + segs[1..];
      assert Reread(segs) == [NewSegment(s.addr, s.data)] + Reread(segs[1..]);
      assert Reread(segs)[1..] == Reread(segs[1..]);
      assert NewSegment(s.addr, s.data) == s <==> (s.addr != 0 ==> |s.data| % 4 == 0);
      assert Rereadable(segs) <==> (s.addr != 0 ==> |s.data| % 4 == 0) && Rereadable(segs[1..]);
    }
  }

  // -------- which gaps cut a RAM segment to an odd length --------

  /** What is cut off a RAM segment to fill this gap is no whole number of words. */
  predicate OddGap(pos: nat, addr: nat) {
    var n := AlignmentDataNeeded(pos, addr);
    n > SEG_HEADER_LEN && n % 4 != 0
  }

  predicate OddGapAfter(flash: seq<Seg>) {
    exists i :: 0 <= i < |flash| - 1 && OddGap(flash[i].addr + |flash[i].data|, flash[i + 1].addr)
  }

  predicate SomeOddGap(pos: nat, flash: seq<Seg>)
    requires flash != []
  {
    OddGap(pos, flash[0].addr) || OddGapAfter(flash)
  }

  lemma OddGapSplits(flash: seq<Seg>)
    requires |flash| > 1
    ensures OddGapAfter(flash) <==> OddGap(flash[0].addr + |flash[0].data|, flash[1].addr) || OddGapAfter(flash[1..])
  {
    hide OddGap;
    var rest := flash[1..];
    if i :| 0 <= i < |rest| - 1 && OddGap(rest[i].addr + |rest[i].data|, rest[i + 1].addr) {
      assert rest[i] == flash[i + 1] && rest[i + 1] == flash[i + 2];
    }
    if i :| 0 < i < |flash| - 1 && OddGap(flash[i].addr + |flash[i].data|, flash[i + 1].addr) {
      assert flash[i] == rest[i - 1] && flash[i + 1] == rest[i];
    }
  }

  lemma SameNeeded(pos: nat, other: nat, addr: nat)
    requires pos % IROM_ALIGN == other % IROM_ALIGN
    ensures AlignmentDataNeeded(pos, addr) == AlignmentDataNeeded(other, addr)
  {}

  // behind a flash segment in its place the gaps are those of the addresses
  lemma NextGap(pos: nat, flash: seq<Seg>)
    requires |flash| > 1 && Aligned(pos, flash[0].addr)
    ensures var next := pos + SEG_HEADER_LEN + |flash[0].data|;
      && (SomeOddGap(next, flash[1..]) <==> OddGapAfter(flash))
      && (GapOfOneHeader(next, flash[1].addr) || OneHeaderGapAfter(flash[1..]) <==> OneHeaderGapAfter(flash))
  {
    hide AlignmentDataNeeded, Aligned, OddGapAfter, OneHeaderGapAfter;
    OddGapSplits(flash);
    OneHeaderGapSplits(flash);
    AlignedEnd(pos, flash[0]);
    SameNeeded(pos + SEG_HEADER_LEN + |flash[0].data|, flash[0].addr + |flash[0].data|, flash[1].addr);
  }

  lemma FilledIsNotOdd(pos: nat, addr: nat)
    requires AlignmentDataNeeded(pos, addr) > 0
    ensures var next := pos + SEG_HEADER_LEN + AlignmentDataNeeded(pos, addr);
      AlignmentDataNeeded(next, addr) == 0 && Aligned(next, addr) && !OddGap(next, addr)
  {
    var next := pos + SEG_HEADER_LEN + AlignmentDataNeeded(pos, addr);
    PaddingAligns(pos, addr);
    NoPaddingWhen(next, addr);
  }

  lemma NeededWords(pos: nat, addr: nat)
    ensures AlignmentDataNeeded(pos, addr) > 0 ==> AlignmentDataNeeded(pos, addr) % 4 == (addr - pos) % 4
  {
    var n := AlignmentDataNeeded(pos, addr);
    var p, a := pos % IROM_ALIGN, addr % IROM_ALIGN;
    var k := if IROM_ALIGN - p + a < 2 * SEG_HEADER_LEN then 2 else 1;
    assert n > 0 ==> n == a - p - 16 + k * IROM_ALIGN;
    assert pos == pos / IROM_ALIGN * IROM_ALIGN + p && addr == addr / IROM_ALIGN * IROM_ALIGN + a;
    var t := 16384 * (pos / IROM_ALIGN - addr / IROM_ALIGN + k) - 4;
    assert n > 0 ==> n == addr - pos + 4 * t;
    WordsApart(n, addr - pos, t);
  }

  lemma WordsApart(x: int, y: int, t: int)
    ensures x == y + 4 * t ==> x % 4 == y % 4
  {}

  // a chunk of whole words leaves an even gap
  lemma StaysEven(pos: nat, addr: nat, len: nat)
    requires AlignmentDataNeeded(pos, addr) > 0 && AlignmentDataNeeded(pos, addr) % 4 == 0 && len % 4 == 0
    ensures !OddGap(pos + SEG_HEADER_LEN + len, addr)
  {
    hide AlignmentDataNeeded;
    NeededWords(pos, addr);
    NeededWords(pos + SEG_HEADER_LEN + len, addr);
  }

  lemma EvenSplit(ram: seq<Seg>, n: nat)
    requires ram != [] && n > 0 && n % 4 == 0 && WordSized(ram)
    ensures |SplitFirst(ram, n).0.data| % 4 == 0 && |SplitFirst(ram, n).0.data| <= n && WordSized(SplitFirst(ram, n).1)
  {
    assert ram[0] in ram;
  }

  lemma RereadableCons(p: Piece, ps: seq<Piece>)
    ensures Rereadable(Segs([p] + ps)) <==>
      (p.seg.addr != 0 ==> |p.seg.data| % 4 == 0) && Rereadable(Segs(ps))
  {
    assert ([p] + ps)[1..] == ps;
    var all := Segs([p] + ps);
    assert all == [p.seg] + Segs(ps) && p.seg in all;
    assert forall s :: s in Segs(ps) ==> s in all;
  }

  lemma {:induction false} RamIsRereadable(ram: seq<Seg>)
    requires EmitAll(ram).Ok? && WordSized(ram)
    ensures Rereadable(Segs(EmitAll(ram).value))
  {
    hide Segs, Rereadable;
    if ram == [] {
      EmptyIsRereadable();
    } else {
      assert ram[0] in ram;
      RamIsRereadable(ram[1..]);
      RereadableCons(Piece(Ram, ram[0]), EmitAll(ram[1..]).value);
    }
  }

  lemma EmptyIsRereadable()
    ensures Rereadable(Segs([]))
  {}

  /** Without an odd gap, RAM segments of whole words are cut to whole words. */
  lemma {:induction false} EvenGapsReread(pos: nat, flash: seq<Seg>, ram: seq<Seg>)
    requires Layout(pos, flash, ram).Ok? && WordSized(flash) && WordSized(ram)
    requires flash != [] ==> !SomeOddGap(pos, flash)
    ensures Rereadable(Segs(Layout(pos, flash, ram).value))
    decreases |flash|, DataLen(ram) + |ram|, if flash != [] && AlignmentDataNeeded(pos, flash[0].addr) > 0 then 1 else 0
  {
    hide AlignmentDataNeeded, Aligned, DataLen, SplitFirst, Segs, OddGapAfter, GapOfOneHeader, OneHeaderGapAfter, Rereadable;
    if flash == [] {
      RamIsRereadable(ram);
    } else {
      assert flash[0] in flash;
      var addr := flash[0].addr;
      var n := AlignmentDataNeeded(pos, addr);
      if n > 0 {
        FilledIsNotOdd(pos, addr);
        if ram != [] && n > SEG_HEADER_LEN {
          EvenSplit(ram, n);
          var (first, rest) := SplitFirst(ram, n);
          var next := pos + SEG_HEADER_LEN + |first.data|;
          StaysEven(pos, addr, |first.data|);
          EvenGapsReread(next, flash, rest);
          RereadableCons(Piece(Ram, first), Layout(next, flash, rest).value);
        } else {
          var next := pos + SEG_HEADER_LEN + n;
          EvenGapsReread(next, flash, ram);
          RereadableCons(Piece(Pad, Seg(0, Zeros(n))), Layout(next, flash, ram).value);
        }
      } else {
        var next := pos + SEG_HEADER_LEN + |flash[0].data|;
        if |flash| > 1 {
          NextGap(pos, flash);
        }
        EvenGapsReread(next, flash[1..], ram);
        RereadableCons(Piece(Flash, flash[0]), Layout(next, flash[1..], ram).value);
      }
    }
  }

  // -------- and a RAM segment that is cut by every gap --------

  // the assert fails for these gaps whatever the RAM segments
  lemma {:induction false} OkHasNoHeaderGap(pos: nat, flash: seq<Seg>, ram: seq<Seg>)
    requires flash != [] && Layout(pos, flash, ram).Ok?
    ensures !GapOfOneHeader(pos, flash[0].addr) && !OneHeaderGapAfter(flash)
    decreases |flash|, DataLen(ram) + |ram|, if AlignmentDataNeeded(pos, flash[0].addr) > 0 then 1 else 0
  {
    hide AlignmentDataNeeded, Aligned, DataLen, SplitFirst, GapOfOneHeader, OddGapAfter, OddGap, OneHeaderGapAfter;
    var addr := flash[0].addr;
    var n := AlignmentDataNeeded(pos, addr);
    NoPaddingWhen(pos, addr);
    OneHasNoHeaderGap(flash);
    if n > 0 {
      FilledIsNotOdd(pos, addr);
      if ram != [] && n > SEG_HEADER_LEN {
        var (first, rest) := SplitFirst(ram, n);
        OkHasNoHeaderGap(pos + SEG_HEADER_LEN + |first.data|, flash, rest);
      } else {
        OkHasNoHeaderGap(pos + SEG_HEADER_LEN + n, flash, ram);
      }
    } else if |flash| > 1 {
      NextGap(pos, flash);
      OkHasNoHeaderGap(pos + SEG_HEADER_LEN + |flash[0].data|, flash[1..], ram);
    }
  }

  lemma OneHasNoHeaderGap(flash: seq<Seg>)
    ensures |flash| <= 1 ==> !OneHeaderGapAfter(flash)
  {}

  function LongRam(addr: nat, len: nat): seq<Seg> {
    [Seg(addr, Zeros(len))]
  }

  lemma CutLong(addr: nat, len: nat, n: nat)
    requires 0 < n < len
    ensures SplitFirst(LongRam(addr, len), n) == (Seg(addr, Zeros(n)), LongRam(addr + n, len - n))
  {
    var ram := LongRam(addr, len);
    assert Take(ram[0].data, n) == Zeros(n) && Drop(ram[0].data, n) == Zeros(len - n);
    assert |Zeros(len - n)| == len - n && ram[1..] == [];
    assert [Seg(addr + n, Zeros(len - n))] + [] == LongRam(addr + n, len - n);
  }

  ghost predicate CutBadly(pieces: Pieces, odd: bool) {
    pieces.Ok? && (odd ==> !Rereadable(Segs(pieces.value)))
  }

  // filling the first gap, and writing the segment behind it
  lemma CutByFirst(pos: nat, flash: seq<Seg>, addr: nat, len: nat, odd: bool)
    requires flash != [] && Packable(flash[0]) && !GapOfOneHeader(pos, flash[0].addr)
    requires 0 < addr && addr + len < U32_LIMIT && 2 * IROM_ALIGN < len
    requires var n := AlignmentDataNeeded(pos, flash[0].addr);
      var m := if n > SEG_HEADER_LEN then n else 0;
      CutBadly(Layout(FilledEnd(pos, flash[0]), flash[1..], LongRam(addr + m, len - m)), odd)
    ensures CutBadly(Layout(pos, flash, LongRam(addr, len)), odd || OddGap(pos, flash[0].addr))
  {
    hide AlignmentDataNeeded, Aligned, SplitFirst, Rereadable, Segs, GapOfOneHeader;
    var n, at := AlignmentDataNeeded(pos, flash[0].addr), Filled(pos, flash[0].addr);
    NoPaddingWhen(pos, flash[0].addr);
    if n > 0 {
      FilledIsNotOdd(pos, flash[0].addr);
    }
    var ram := if n > SEG_HEADER_LEN then LongRam(addr + n, len - n) else LongRam(addr, len);
    var tail := Layout(FilledEnd(pos, flash[0]), flash[1..], ram);
    RereadableCons(Piece(Flash, flash[0]), tail.value);
    var rest := Layout(at, flash, ram);
    assert rest == Ok([Piece(Flash, flash[0])] + tail.value);
    if n > SEG_HEADER_LEN {
      CutLong(addr, len, n);
      RereadableCons(Piece(Ram, Seg(addr, Zeros(n))), rest.value);
    } else if n > 0 {
      RereadableCons(Piece(Pad, Seg(0, Zeros(n))), rest.value);
    }
  }

  /** A RAM segment longer than all padding is cut by every gap, and to an odd length by an odd one. */
  lemma {:induction false} LongRamIsCut(pos: nat, flash: seq<Seg>, addr: nat, len: nat)
    requires forall s :: s in flash ==> Packable(s)
    requires flash != [] ==> !GapOfOneHeader(pos, flash[0].addr) && !OneHeaderGapAfter(flash)
    requires 0 < addr && addr + len < U32_LIMIT && 2 * IROM_ALIGN * |flash| < len
    ensures CutBadly(Layout(pos, flash, LongRam(addr, len)), flash != [] && SomeOddGap(pos, flash))
    decreases |flash|
  {
    hide AlignmentDataNeeded, Aligned, GapOfOneHeader, OddGap, OddGapAfter, OneHeaderGapAfter, FilledEnd;
    hide Layout, CutBadly, LongRam, Packable;
    if flash == [] {
      LongRamAlone(pos, addr, len);
    } else {
      var n, next := AlignmentDataNeeded(pos, flash[0].addr), FilledEnd(pos, flash[0]);
      var m := if n > SEG_HEADER_LEN then n else 0;
      FilledNextGap(pos, flash);
      LongRamIsCut(next, flash[1..], addr + m, len - m);
      CutByFirst(pos, flash, addr, len, OddGapAfter(flash));
    }
  }

  lemma LongRamAlone(pos: nat, addr: nat, len: nat)
    requires addr < U32_LIMIT && len < U32_LIMIT
    ensures CutBadly(Layout(pos, [], LongRam(addr, len)), false)
  {
    assert LongRam(addr, len)[1..] == [] && EmitAll([]) == Ok([]);
  }

  lemma FilledNextGap(pos: nat, flash: seq<Seg>)
    requires flash != [] && !GapOfOneHeader(pos, flash[0].addr)
    ensures var next := FilledEnd(pos, flash[0]);
      if |flash| == 1 then !OddGapAfter(flash)
      else
        && (SomeOddGap(next, flash[1..]) <==> OddGapAfter(flash))
        && (GapOfOneHeader(next, flash[1].addr) || OneHeaderGapAfter(flash[1..]) <==> OneHeaderGapAfter(flash))
  {
    hide AlignmentDataNeeded, Aligned, GapOfOneHeader, OddGap, OneHeaderGapAfter, SomeOddGap;
    var addr := flash[0].addr;
    NoPaddingWhen(pos, addr);
    if AlignmentDataNeeded(pos, addr) > 0 {
      FilledIsNotOdd(pos, addr);
    }
    if |flash| > 1 {
      NextGap(Filled(pos, addr), flash);
    }
  }

  /** A saved image reads back as its emitted segments exactly when all of them
      with an address have a length divisible by four. */
  lemma LoadOfSaveIsExactWhen(img: Image, sha: seq<byte> -> Sha256)
    requires SavedBytes(img, sha).Ok? && |Plan(img).value| <= MAX_LOADED_SEGMENTS
    ensures Parse(SavedBytes(img, sha).value, 0, sha).Ok?
    ensures Parse(SavedBytes(img, sha).value, 0, sha).value.segments == Segs(Plan(img).value) <==>
      Rereadable(Segs(Plan(img).value))
  {
    hide Parse, Plan, Reread, Rereadable;
    LoadOfSave(img, sha);
    RereadIsIdentity(Segs(Plan(img).value));
  }

  lemma RamIsFromInput(img: Image)
    ensures forall s :: s in RamPart(Sections(img)) ==> s in img.segments
  {
    SortFacts(img.segments);
    PartsMembers(Sections(img));
    forall s | s in RamPart(Sections(img)) ensures s in img.segments {
      assert s in multiset(FlashPart(Sections(img))) + multiset(RamPart(Sections(img)));
      assert s in multiset(Sections(img));
    }
  }

  /** The plan of an image of word-sized segments without an odd gap reads back exactly. */
  lemma EvenPlanRereads(img: Image)
    requires Plan(img).Ok? && WordSized(img.segments)
    requires var flash := FlashPart(Sections(img)); flash != [] ==> !SomeOddGap(FIRST_SEGMENT, flash)
    ensures Rereadable(Segs(Plan(img).value))
  {
    hide Layout, Plan, Segs, SomeOddGap, IsFlashAddr, Rereadable;
    PlanFromMain(img);
    FlashIsFromInput(img);
    RamIsFromInput(img);
    EvenGapsReread(FIRST_SEGMENT, FlashPart(Sections(img)), RamPart(Sections(img)));
    if img.securePad {
      var pad := Piece(Pad, Seg(0, Zeros(SecurePadLen(EndOf(FIRST_SEGMENT, MainPlan(img).value)))));
      SegsAppend(MainPlan(img).value, pad);
      RereadableAppend(Segs(MainPlan(img).value), pad.seg);
    }
  }

  lemma RereadableAppend(segs: seq<Seg>, s: Seg)
    ensures Rereadable(segs + [s]) <==> Rereadable(segs) && (s.addr != 0 ==> |s.data| % 4 == 0)
  {
    assert s in segs + [s] && forall t :: t in segs ==> t in segs + [s];
  }

  // between word-aligned addresses no gap is odd
  lemma WordAlignedIsEven(flash: seq<Seg>)
    requires flash != [] && WordSized(flash) && forall s :: s in flash ==> s.addr % 4 == 0
    ensures !SomeOddGap(FIRST_SEGMENT, flash)
  {
    assert flash[0] in flash;
    EvenNeeded(FIRST_SEGMENT, flash[0].addr);
    forall i | 0 <= i < |flash| - 1 ensures !OddGap(flash[i].addr + |flash[i].data|, flash[i + 1].addr) {
      assert flash[i] in flash && flash[i + 1] in flash;
      EvenNeeded(flash[i].addr + |flash[i].data|, flash[i + 1].addr);
    }
  }

  lemma EvenNeeded(pos: nat, addr: nat)
    requires pos % 4 == 0 && addr % 4 == 0
    ensures !OddGap(pos, addr)
  {
    hide AlignmentDataNeeded;
    NeededWords(pos, addr);
  }

  lemma LongRamStays(img: Image, flash: seq<Seg>, addr: nat, len: nat)
    requires FlashList(flash) && addr < 0x3F400000
    ensures IsRamList(LongRam(addr, len))
    ensures FlashPart(Sections(WithRam(img, LongRam(addr, len), flash))) == flash
    ensures RamPart(Sections(WithRam(img, LongRam(addr, len), flash))) == LongRam(addr, len)
  {
    hide NeighboursSharePage;
    var ram := LongRam(addr, len);
    assert Sorted(ram + flash);
    SortSorted(ram + flash);
    PartsOfBoth(ram, flash);
  }

  // ...and with an odd gap some RAM segment does not
  lemma OddPlanRereads(img: Image, flash: seq<Seg>)
    requires FlashList(flash) && HeadersPack(img) && (img.securePad ==> img.appendDigest)
    requires !GapOfOneHeader(FIRST_SEGMENT, flash[0].addr) && !OneHeaderGapAfter(flash)
    requires SomeOddGap(FIRST_SEGMENT, flash)
    ensures var ram := LongRam(4, 2 * IROM_ALIGN * 116);
      var plan := Plan(WithRam(img, ram, flash));
      IsRamList(ram) && WordSized(ram) && plan.Ok? && !Rereadable(Segs(plan.value))
  {
    hide Layout, Segs, SomeOddGap, Rereadable, OneHeaderGapAfter, NeighboursSharePage, SecurePadLen, EndOf;
    var len := 2 * IROM_ALIGN * 116;
    var image := WithRam(img, LongRam(4, len), flash);
    LongRamStays(img, flash, 4, len);
    FewFlashSegments(flash);
    LongRamIsCut(FIRST_SEGMENT, flash, 4, len);
    var main := Layout(FIRST_SEGMENT, flash, LongRam(4, len)).value;
    var pad := Piece(Pad, Seg(0, Zeros(SecurePadLen(EndOf(FIRST_SEGMENT, main)))));
    SegsAppend(main, pad);
    RereadableAppend(Segs(main), pad.seg);
  }

  /** For word-sized flash segments of an image that the assert lets pass, some
      word-sized RAM segments beside them do not read back exactly if and only if
      a gap is odd. */
  lemma RereadsExactly(img: Image, flash: seq<Seg>)
    requires flash != [] && FlashList(flash) && WordSized(flash) && HeadersPack(img)
    requires img.securePad ==> img.appendDigest
    ensures (exists ram :: IsRamList(ram) && WordSized(ram) && Plan(WithRam(img, ram, flash)).Ok?
                && !Rereadable(Segs(Plan(WithRam(img, ram, flash)).value))) <==>
      !OneHeaderGapAfter(flash) && SomeOddGap(FIRST_SEGMENT, flash)
  {
    hide Plan, Layout, FlashList, IsRamList, Segs, SomeOddGap, Rereadable, OneHeaderGapAfter, HeadersPack;
    if !OneHeaderGapAfter(flash) && SomeOddGap(FIRST_SEGMENT, flash) {
      OddPlanRereads(img, flash);
    } else {
      forall ram | IsRamList(ram) && WordSized(ram) && Plan(WithRam(img, ram, flash)).Ok?
        ensures Rereadable(Segs(Plan(WithRam(img, ram, flash)).value))
      {
        var image := WithRam(img, ram, flash);
        PlanFromMain(image);
        FlashStays(img, ram, flash);
        OkHasNoHeaderGap(FIRST_SEGMENT, flash, RamPart(Sections(image)));
        assert WordSized(image.segments);
        EvenPlanRereads(image);
      }
    }
  }

  /** Saving and loading an image of word-sized segments without an odd gap, and at
      most 16 emitted segments, reads back those segments. */
  lemma LoadOfSaveIsExact(img: Image, sha: seq<byte> -> Sha256)
    requires SavedBytes(img, sha).Ok? && |Plan(img).value| <= MAX_LOADED_SEGMENTS
    requires WordSized(img.segments)
    requires var flash := FlashPart(Sections(img)); flash != [] ==> !SomeOddGap(FIRST_SEGMENT, flash)
    ensures Parse(SavedBytes(img, sha).value, 0, sha).Ok?
    ensures Parse(SavedBytes(img, sha).value, 0, sha).value.segments == Segs(Plan(img).value)
  {
    hide Plan, Parse, Rereadable, SomeOddGap;
    LoadOfSaveIsExactWhen(img, sha);
    EvenPlanRereads(img);
  }

  /** An odd flash address makes save cut a RAM segment to an odd length, and
      reading that part back lengthens it. */
  lemma OddSplitExample()
    ensures var flash, ram := [Seg(0x400d0021, Zeros(4))], [Seg(0x3ffb0000, Zeros(65536))];
            var plan := Layout(FIRST_SEGMENT, flash, ram);
            plan.Ok? && plan.value[0] == Piece(Ram, Seg(0x3ffb0000, Zeros(65529))) && !Rereadable(Segs(plan.value))
  {
    var flash, ram := [Seg(0x400d0021, Zeros(4))], [Seg(0x3ffb0000, Zeros(65536))];
    assert AlignmentDataNeeded(FIRST_SEGMENT, 0x400d0021) == 65529;
    var rest := [Seg(0x3ffb0000 + 65529, ram[0].data[65529..])];
    assert Take(ram[0].data, 65529) == Zeros(65529);
    assert Drop(ram[0].data, 65529) == ram[0].data[65529..] && |ram[0].data[65529..]| == 7;
    assert [rest[0]] + ram[1..] == rest;
    assert SplitFirst(ram, 65529) == (Seg(0x3ffb0000, Zeros(65529)), rest);
    var next := FIRST_SEGMENT + SEG_HEADER_LEN + 65529;
    assert AlignmentDataNeeded(next, 0x400d0021) == 0 && Aligned(next, 0x400d0021);
    assert EmitAll(rest[1..]) == Ok([]);
    var last: seq<Piece> := [Piece(Ram, rest[0])];
    assert last + [] == last;
    assert EmitAll(rest) == Ok([Piece(Ram, rest[0])]);
    assert Layout(next + 12, [], rest) == EmitAll(rest);
    assert Layout(next, flash, rest) == Ok([Piece(Flash, flash[0])] + EmitAll(rest).value);
    var ps := Layout(FIRST_SEGMENT, flash, ram).value;
    assert Segs(ps)[0] == Seg(0x3ffb0000, Zeros(65529)) && Segs(ps)[0] in Segs(ps);
  }

  /** The same in an image: its plan cannot be read back exactly. */
  lemma OddSplitImage(img: Image)
    requires HeadersPack(img) && !img.securePad
    requires img.segments == [Seg(0x400d0021, Zeros(4)), Seg(0x3ffb0000, Zeros(65536))]
    ensures Plan(img).Ok? && !Rereadable(Segs(Plan(img).value))
  {
    hide Layout, Rereadable, Segs;
    var flash, ram := img.segments[0], img.segments[1];
    assert img.segments[1..] == [ram] && [ram][1..] == [];
    SortSorted([ram]);
    assert InsertByAddr(flash, [ram]) == [ram] + StableSort.Insert(Addr, flash, []);
    assert Sections(img) == [ram, flash];
    assert [ram, flash] == [ram] + [flash];
    PartsOfBoth([ram], [flash]);
    OddSplitExample();
  }
}
