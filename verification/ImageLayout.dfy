/** Where the segments of an ESP32 firmware image go: the padding loop of
    ESP32FirmwareImage.save as a function, and what it guarantees. */
module ImageLayout {
  import opened Bytes

  const IROM_ALIGN: nat := 65536
  const SEG_HEADER_LEN: nat := 8
  // offset of the first segment: 8-byte common header plus 16-byte extended header
  const FIRST_SEGMENT: nat := 24

  datatype Seg = Seg(addr: nat, data: seq<byte>)

  // which worklist an emitted segment was taken from
  datatype Origin = Flash | Ram | Pad

  datatype Piece = Piece(origin: Origin, seg: Seg)

  datatype SaveError =
    | PackError            // struct.error: a field does not fit its struct format
    | SameFlashPage        // two flash segments share a 64 KB mapping
    | Misaligned           // the alignment assert fails
    | DigestRequired       // secure_pad without append_digest
    | TooManySegments      // bytes([n]) with n > 255

  // -------- segments --------

  // pad_to(data, 4, b'\x00')
  function PadTo4(data: seq<byte>): (r: seq<byte>)
    ensures |r| % 4 == 0 && |data| <= |r| < |data| + 4
    ensures r[..|data|] == data && forall i :: |data| <= i < |r| ==> r[i] == 0
  {
    if |data| % 4 != 0 then data + Zeros(4 - |data| % 4) else data
  }

  // the ImageSegment constructor pads every segment that has a load address
  function NewSegment(addr: nat, data: seq<byte>): Seg {
    Seg(addr, if addr != 0 then PadTo4(data) else data)
  }

  // segments that the constructor leaves as they are
  predicate Constructed(segs: seq<Seg>) {
    forall s :: s in segs ==> NewSegment(s.addr, s.data) == s
  }

  // what the constructor makes of segments with an address
  predicate WordSized(segs: seq<Seg>) {
    forall s :: s in segs ==> |s.data| % 4 == 0
  }

  predicate IsFlashAddr(addr: nat) {
    0x400d0000 <= addr < 0x40400000 || 0x3F400000 <= addr < 0x3F800000
  }

  // struct.pack('<II', addr, len(data)) succeeds
  predicate Packable(s: Seg) {
    s.addr < U32_LIMIT && |s.data| < U32_LIMIT
  }

  function Take(data: seq<byte>, n: nat): seq<byte> {
    data[..Min(n, |data|)]
  }

  function Drop(data: seq<byte>, n: nat): seq<byte> {
    data[Min(n, |data|)..]
  }

  // -------- the padding loop --------

  /** get_alignment_data_needed at file offset pos for a flash segment at addr. */
  function AlignmentDataNeeded(pos: nat, addr: nat): (n: nat)
    ensures n <= IROM_ALIGN + IROM_ALIGN
  {
    var alignPast := addr % IROM_ALIGN - SEG_HEADER_LEN;
    var padLen := (IROM_ALIGN - pos % IROM_ALIGN) + alignPast;
    if padLen == 0 || padLen == IROM_ALIGN then 0
    else if padLen - SEG_HEADER_LEN < 0 then padLen - SEG_HEADER_LEN + IROM_ALIGN
    else padLen - SEG_HEADER_LEN
  }

  // a segment header written at pos puts the data where the flash mapping of addr needs it
  predicate Aligned(pos: nat, addr: nat) {
    (pos + SEG_HEADER_LEN) % IROM_ALIGN == addr % IROM_ALIGN
  }

  // the gap before the segment header is exactly one header long
  predicate GapOfOneHeader(pos: nat, addr: nat) {
    pos % IROM_ALIGN == addr % IROM_ALIGN + 65520
  }

  /** No padding is asked for exactly when the position is right already, or
      when the gap is one header long and wraps a 64 KB boundary; in that last
      case the position is wrong and the assert that follows fails. */
  lemma NoPaddingWhen(pos: nat, addr: nat)
    ensures AlignmentDataNeeded(pos, addr) == 0 <==> Aligned(pos, addr) || GapOfOneHeader(pos, addr)
    ensures !(Aligned(pos, addr) && GapOfOneHeader(pos, addr))
  {
    var p, a := pos % IROM_ALIGN, addr % IROM_ALIGN;
    assert (pos + SEG_HEADER_LEN) % IROM_ALIGN == (p + SEG_HEADER_LEN) % IROM_ALIGN;
  }

  /** A padding segment of the requested length always leaves the file aligned. */
  lemma PaddingAligns(pos: nat, addr: nat)
    requires AlignmentDataNeeded(pos, addr) > 0
    ensures Aligned(pos + SEG_HEADER_LEN + AlignmentDataNeeded(pos, addr), addr)
  {
    var n := AlignmentDataNeeded(pos, addr);
    var p, a := pos % IROM_ALIGN, addr % IROM_ALIGN;
    assert p + n + 2 * SEG_HEADER_LEN == a + IROM_ALIGN || p + n + 2 * SEG_HEADER_LEN == a + 2 * IROM_ALIGN;
    assert pos + 2 * SEG_HEADER_LEN + n == pos / IROM_ALIGN * IROM_ALIGN + (p + n + 2 * SEG_HEADER_LEN);
  }

  lemma PaddingSettles(pos: nat, addr: nat)
    requires AlignmentDataNeeded(pos, addr) > 0
    ensures AlignmentDataNeeded(pos + SEG_HEADER_LEN + AlignmentDataNeeded(pos, addr), addr) == 0
  {
    PaddingAligns(pos, addr);
    NoPaddingWhen(pos + SEG_HEADER_LEN + AlignmentDataNeeded(pos, addr), addr);
  }

  function DataLen(segs: seq<Seg>): nat {
    if segs == [] then 0 else |segs[0].data| + DataLen(segs[1..])
  }

  // split_image on the first RAM segment, which is dropped once it is empty
  function SplitFirst(ram: seq<Seg>, n: nat): (r: (Seg, seq<Seg>))
    requires ram != [] && n > 0
    ensures DataLen(r.1) + |r.1| < DataLen(ram) + |ram|
  {
    var rest := Drop(ram[0].data, n);
    (Seg(ram[0].addr, Take(ram[0].data, n)),
     if rest == [] then ram[1..] else [Seg(ram[0].addr + n, rest)] + ram[1..])
  }

  type Pieces = Result<seq<Piece>, SaveError>

  // save_segment for one piece, then whatever follows it
  function Emit(p: Piece, rest: Pieces): Pieces {
    if !Packable(p.seg) then Err(PackError)
    else match rest
      case Ok(ps) => Ok([p] + ps)
      case Err(e) => Err(e)
  }

  function EmitAll(ram: seq<Seg>): Pieces {
    if ram == [] then Ok([]) else Emit(Piece(Ram, ram[0]), EmitAll(ram[1..]))
  }

  /** The segments written from file offset pos on, in order. */
  function Layout(pos: nat, flash: seq<Seg>, ram: seq<Seg>): Pieces
    decreases |flash|, DataLen(ram) + |ram|, if flash != [] && AlignmentDataNeeded(pos, flash[0].addr) > 0 then 1 else 0
  {
    if flash == [] then EmitAll(ram)
    else
      var n := AlignmentDataNeeded(pos, flash[0].addr);
      if n > 0 then
        if ram != [] && n > SEG_HEADER_LEN then
          var (first, rest) := SplitFirst(ram, n);
          Emit(Piece(Ram, first), Layout(pos + SEG_HEADER_LEN + |first.data|, flash, rest))
        else
          PaddingSettles(pos, flash[0].addr);
          Emit(Piece(Pad, Seg(0, Zeros(n))), Layout(pos + SEG_HEADER_LEN + n, flash, ram))
      else if !Aligned(pos, flash[0].addr) then Err(Misaligned)
      else Emit(Piece(Flash, flash[0]), Layout(pos + SEG_HEADER_LEN + |flash[0].data|, flash[1..], ram))
  }

  // -------- every flash segment lands where its mapping needs it --------

  predicate FlashAligned(pos: nat, ps: seq<Piece>)
    decreases ps
  {
    ps == [] ||
    ((ps[0].origin == Flash ==> Aligned(pos, ps[0].seg.addr)) &&
     FlashAligned(pos + SEG_HEADER_LEN + |ps[0].seg.data|, ps[1..]))
  }

  lemma AlignedCons(pos: nat, p: Piece, ps: seq<Piece>)
    requires p.origin == Flash ==> Aligned(pos, p.seg.addr)
    requires FlashAligned(pos + SEG_HEADER_LEN + |p.seg.data|, ps)
    ensures FlashAligned(pos, [p] + ps)
  {
    assert ([p] + ps)[1..] == ps;
  }

  lemma {:induction false} RamIsFlashAligned(pos: nat, ram: seq<Seg>)
    requires EmitAll(ram).Ok?
    ensures FlashAligned(pos, EmitAll(ram).value)
    decreases ram
  {
    hide Aligned;
    if ram != [] {
      RamIsFlashAligned(pos + SEG_HEADER_LEN + |ram[0].data|, ram[1..]);
      AlignedCons(pos, Piece(Ram, ram[0]), EmitAll(ram[1..]).value);
    }
  }

  /** Whenever a layout is produced, every flash segment's data is at a file
      offset congruent to its load address modulo 64 KB. */
  lemma {:induction false} LayoutAligns(pos: nat, flash: seq<Seg>, ram: seq<Seg>)
    requires Layout(pos, flash, ram).Ok?
    ensures FlashAligned(pos, Layout(pos, flash, ram).value)
    decreases |flash|, DataLen(ram) + |ram|, if flash != [] && AlignmentDataNeeded(pos, flash[0].addr) > 0 then 1 else 0
  {
    hide AlignmentDataNeeded;
    hide Aligned;
    hide FlashAligned;
    hide SplitFirst;
    hide DataLen;
    if flash == [] {
      RamIsFlashAligned(pos, ram);
    } else {
      var n := AlignmentDataNeeded(pos, flash[0].addr);
      if n > 0 {
        if ram != [] && n > SEG_HEADER_LEN {
          var (first, rest) := SplitFirst(ram, n);
          var next := pos + SEG_HEADER_LEN + |first.data|;
          LayoutAligns(next, flash, rest);
          AlignedCons(pos, Piece(Ram, first), Layout(next, flash, rest).value);
        } else {
          PaddingSettles(pos, flash[0].addr);
          var next := pos + SEG_HEADER_LEN + n;
          LayoutAligns(next, flash, ram);
          AlignedCons(pos, Piece(Pad, Seg(0, Zeros(n))), Layout(next, flash, ram).value);
        }
      } else {
        var next := pos + SEG_HEADER_LEN + |flash[0].data|;
        LayoutAligns(next, flash[1..], ram);
        AlignedCons(pos, Piece(Flash, flash[0]), Layout(next, flash[1..], ram).value);
      }
    }
  }

  lemma NoOneHeaderGap(pos: nat, addr: nat)
    requires addr % IROM_ALIGN >= 2 * SEG_HEADER_LEN
    ensures !GapOfOneHeader(pos, addr)
  {}

  /** The alignment assert cannot fail when every flash segment starts at
      least two header lengths into its 64 KB page. */
  lemma {:induction false} NeverMisaligned(pos: nat, flash: seq<Seg>, ram: seq<Seg>)
    requires forall s :: s in flash ==> s.addr % IROM_ALIGN >= 2 * SEG_HEADER_LEN
    ensures Layout(pos, flash, ram) != Err(Misaligned)
    decreases |flash|, DataLen(ram) + |ram|, if flash != [] && AlignmentDataNeeded(pos, flash[0].addr) > 0 then 1 else 0
  {
    hide AlignmentDataNeeded;
    hide Aligned;
    hide GapOfOneHeader;
    hide SplitFirst;
    hide DataLen;
    if flash == [] {
      RamNeverMisaligned(ram);
    } else {
      var n := AlignmentDataNeeded(pos, flash[0].addr);
      assert flash[0] in flash;
      NoPaddingWhen(pos, flash[0].addr);
      NoOneHeaderGap(pos, flash[0].addr);
      if n > 0 {
        if ram != [] && n > SEG_HEADER_LEN {
          var (first, rest) := SplitFirst(ram, n);
          NeverMisaligned(pos + SEG_HEADER_LEN + |first.data|, flash, rest);
        } else {
          PaddingSettles(pos, flash[0].addr);
          NeverMisaligned(pos + SEG_HEADER_LEN + n, flash, ram);
        }
      } else {
        NeverMisaligned(pos + SEG_HEADER_LEN + |flash[0].data|, flash[1..], ram);
      }
    }
  }

  lemma {:induction false} RamNeverMisaligned(ram: seq<Seg>)
    ensures EmitAll(ram) != Err(Misaligned)
  {
    if ram != [] {
      RamNeverMisaligned(ram[1..]);
    }
  }

  // -------- exactly when the assert fails, without RAM segments to split --------

  // the end of s leaves a one-header gap before t
  predicate OneHeaderGapBetween(s: Seg, t: Seg) {
    GapOfOneHeader(s.addr + |s.data|, t.addr)
  }

  predicate OneHeaderGapAfter(flash: seq<Seg>) {
    exists i :: 0 <= i < |flash| - 1 && OneHeaderGapBetween(flash[i], flash[i + 1])
  }

  /** With flash segments only, the assert fails exactly when a gap between two
      consecutive segments (or before the first) is one header long. */
  lemma {:induction false} FlashOnlyMisaligned(pos: nat, flash: seq<Seg>)
    requires flash != [] && forall s :: s in flash ==> Packable(s)
    ensures Layout(pos, flash, []) == Err(Misaligned)
       <==> GapOfOneHeader(pos, flash[0].addr) || OneHeaderGapAfter(flash)
    decreases |flash|, if AlignmentDataNeeded(pos, flash[0].addr) > 0 then 1 else 0
  {
    hide AlignmentDataNeeded;
    var addr := flash[0].addr;
    var n := AlignmentDataNeeded(pos, addr);
    NoPaddingWhen(pos, addr);
    if n > 0 {
      PaddingAligns(pos, addr);
      NoPaddingWhen(pos + SEG_HEADER_LEN + n, addr);
      FlashOnlyMisaligned(pos + SEG_HEADER_LEN + n, flash);
    } else if Aligned(pos, addr) {
      var next := pos + SEG_HEADER_LEN + |flash[0].data|;
      if |flash| > 1 {
        FlashOnlyMisaligned(next, flash[1..]);
        assert GapOfOneHeader(next, flash[1].addr) == GapOfOneHeader(addr + |flash[0].data|, flash[1].addr) by {
          SameResidue(pos + SEG_HEADER_LEN, addr, |flash[0].data|);
        }
        OneHeaderGapSplits(flash);
      } else {
        assert Layout(next, flash[1..], []) == Ok([]);
      }
    }
  }

  lemma OneHeaderGapSplits(flash: seq<Seg>)
    requires |flash| > 1
    ensures OneHeaderGapAfter(flash) <==> OneHeaderGapBetween(flash[0], flash[1]) || OneHeaderGapAfter(flash[1..])
  {
    var rest := flash[1..];
    if i :| 0 <= i < |rest| - 1 && OneHeaderGapBetween(rest[i], rest[i + 1]) {
      assert OneHeaderGapBetween(flash[i + 1], flash[i + 2]);
    }
    if i :| 0 <= i < |flash| - 1 && OneHeaderGapBetween(flash[i], flash[i + 1]) && i > 0 {
      assert OneHeaderGapBetween(rest[i - 1], rest[i]);
    }
  }

  // -------- exactly when some RAM segments make the assert fail --------

  // the bytes between pos and the next place for the segment header of addr
  function Gap(pos: nat, addr: nat): (d: nat)
    ensures d < IROM_ALIGN
  {
    (addr - SEG_HEADER_LEN - pos) % IROM_ALIGN
  }

  /** Padding for addr from pos can leave a gap of one header: the address is less
      than two headers into its page, and the gap is one header long already, or
      long enough (or too short, and so a page longer) for a RAM chunk. */
  predicate Fragile(pos: nat, addr: nat) {
    && addr % IROM_ALIGN < 2 * SEG_HEADER_LEN
    && var d := Gap(pos, addr); d == SEG_HEADER_LEN || 0 < d < SEG_HEADER_LEN || d > 2 * SEG_HEADER_LEN
  }

  ghost predicate FragileAfter(flash: seq<Seg>) {
    exists i :: 0 <= i < |flash| - 1 && Fragile(flash[i].addr + |flash[i].data|, flash[i + 1].addr)
  }

  lemma GapFacts(pos: nat, addr: nat)
    ensures Gap(pos, addr) == 0 <==> Aligned(pos, addr)
    ensures GapOfOneHeader(pos, addr) <==> Gap(pos, addr) == SEG_HEADER_LEN && addr % IROM_ALIGN < 2 * SEG_HEADER_LEN
    ensures addr % IROM_ALIGN < 2 * SEG_HEADER_LEN ==>
      AlignmentDataNeeded(pos, addr) ==
        var d := Gap(pos, addr);
        if d == 0 then 0 else if d < SEG_HEADER_LEN then d + IROM_ALIGN - SEG_HEADER_LEN else d - SEG_HEADER_LEN
  {
    var p, a := pos % IROM_ALIGN, addr % IROM_ALIGN;
    var e := a - SEG_HEADER_LEN - p;
    assert addr - SEG_HEADER_LEN - pos == e + (addr / IROM_ALIGN - pos / IROM_ALIGN) * IROM_ALIGN;
    assert Gap(pos, addr) == if e + IROM_ALIGN < 0 then e + 2 * IROM_ALIGN else if e < 0 then e + IROM_ALIGN else e;
    assert (pos + SEG_HEADER_LEN) % IROM_ALIGN == (p + SEG_HEADER_LEN) % IROM_ALIGN;
  }

  /** How much padding is asked for: the gap without the header, but a page more when
      the gap is shorter than a header, and also whenever the address is farther into
      its page than the position behind the header is, where the gap would do. */
  lemma PaddingAmount(pos: nat, addr: nat)
    ensures var n, d := AlignmentDataNeeded(pos, addr), Gap(pos, addr);
      n > 0 ==>
        n == d - SEG_HEADER_LEN +
             (if d < SEG_HEADER_LEN || pos % IROM_ALIGN + SEG_HEADER_LEN < addr % IROM_ALIGN then IROM_ALIGN else 0)
  {
    var p, a := pos % IROM_ALIGN, addr % IROM_ALIGN;
    var e := a - SEG_HEADER_LEN - p;
    assert addr - SEG_HEADER_LEN - pos == e + (addr / IROM_ALIGN - pos / IROM_ALIGN) * IROM_ALIGN;
    assert Gap(pos, addr) == if e + IROM_ALIGN < 0 then e + 2 * IROM_ALIGN else if e < 0 then e + IROM_ALIGN else e;
  }

  lemma GapAfter(pos: nat, addr: nat, n: nat)
    ensures n <= Gap(pos, addr) ==> Gap(pos + n, addr) == Gap(pos, addr) - n
    ensures Gap(pos, addr) < n <= Gap(pos, addr) + IROM_ALIGN ==> Gap(pos + n, addr) == Gap(pos, addr) + IROM_ALIGN - n
  {
    var x := addr - SEG_HEADER_LEN - pos;
    assert x == x / IROM_ALIGN * IROM_ALIGN + Gap(pos, addr);
  }

  lemma SameGap(pos: nat, other: nat, addr: nat)
    requires pos % IROM_ALIGN == other % IROM_ALIGN
    ensures Gap(pos, addr) == Gap(other, addr) && Fragile(pos, addr) == Fragile(other, addr)
  {
    assert addr - SEG_HEADER_LEN - pos == addr - SEG_HEADER_LEN - other + (other / IROM_ALIGN - pos / IROM_ALIGN) * IROM_ALIGN;
  }

  lemma FragileSplits(flash: seq<Seg>)
    requires |flash| > 1
    ensures FragileAfter(flash) <==> Fragile(flash[0].addr + |flash[0].data|, flash[1].addr) || FragileAfter(flash[1..])
  {
    hide Fragile;
    var rest := flash[1..];
    if i :| 0 <= i < |rest| - 1 && Fragile(rest[i].addr + |rest[i].data|, rest[i + 1].addr) {
      assert rest[i] == flash[i + 1] && rest[i + 1] == flash[i + 2];
    }
    if i :| 0 < i < |flash| - 1 && Fragile(flash[i].addr + |flash[i].data|, flash[i + 1].addr) {
      assert flash[i] == rest[i - 1] && flash[i + 1] == rest[i];
    }
  }

  // a segment that is not fragile is reached and written whatever the RAM segments
  lemma SafeStep(pos: nat, addr: nat)
    requires !Fragile(pos, addr)
    ensures var n := AlignmentDataNeeded(pos, addr);
      && (n == 0 ==> Aligned(pos, addr))
      && (n > SEG_HEADER_LEN ==> forall q :: !Fragile(q, addr))
      && (n > 0 ==> !Fragile(pos + SEG_HEADER_LEN + n, addr))
  {
    var n := AlignmentDataNeeded(pos, addr);
    GapFacts(pos, addr);
    NoPaddingWhen(pos, addr);
    if n > 0 {
      PaddingAligns(pos, addr);
      GapFacts(pos + SEG_HEADER_LEN + n, addr);
    }
  }

  lemma {:induction false} SafeFromAnyRam(pos: nat, flash: seq<Seg>, ram: seq<Seg>)
    requires flash != [] ==> !Fragile(pos, flash[0].addr) && !FragileAfter(flash)
    ensures Layout(pos, flash, ram) != Err(Misaligned)
    decreases |flash|, DataLen(ram) + |ram|, if flash != [] && AlignmentDataNeeded(pos, flash[0].addr) > 0 then 1 else 0
  {
    hide AlignmentDataNeeded, Aligned, SplitFirst, DataLen, Fragile, FragileAfter;
    if flash == [] {
      RamNeverMisaligned(ram);
    } else {
      var addr := flash[0].addr;
      var n := AlignmentDataNeeded(pos, addr);
      SafeStep(pos, addr);
      if n > 0 {
        if ram != [] && n > SEG_HEADER_LEN {
          var (first, rest) := SplitFirst(ram, n);
          SafeFromAnyRam(pos + SEG_HEADER_LEN + |first.data|, flash, rest);
        } else {
          PaddingSettles(pos, addr);
          SafeFromAnyRam(pos + SEG_HEADER_LEN + n, flash, ram);
        }
      } else {
        var next := pos + SEG_HEADER_LEN + |flash[0].data|;
        if |flash| > 1 {
          FragileSplits(flash);
          AlignedEnd(pos, flash[0]);
          SameGap(next, addr + |flash[0].data|, flash[1].addr);
        }
        SafeFromAnyRam(next, flash[1..], ram);
      }
    }
  }

  lemma AlignedEnd(pos: nat, s: Seg)
    requires Aligned(pos, s.addr)
    ensures (pos + SEG_HEADER_LEN + |s.data|) % IROM_ALIGN == (s.addr + |s.data|) % IROM_ALIGN
  {
    SameResidue(pos + SEG_HEADER_LEN, s.addr, |s.data|);
  }

  // No address, so that the constructor pads none of the segments below. That
  // they all overlap does not matter to save, which never compares RAM segments.
  const RAM_ADDR: nat := 0

  function RamOf(n: nat): Seg {
    Seg(RAM_ADDR, Zeros(n))
  }

  // a RAM segment of just the length that is needed is taken whole
  lemma WholeRam(n: nat, most: nat, rest: seq<Seg>)
    requires 0 < n <= most
    ensures SplitFirst([RamOf(n)] + rest, most) == (RamOf(n), rest)
  {
    var ram := [RamOf(n)] + rest;
    assert Take(ram[0].data, most) == Zeros(n) && Drop(ram[0].data, most) == [];
    assert ram[1..] == rest;
  }

  // where the header of the segment at addr is written when its gap is filled
  function Filled(pos: nat, addr: nat): nat {
    var n := AlignmentDataNeeded(pos, addr);
    if n > 0 then pos + SEG_HEADER_LEN + n else pos
  }

  function FilledEnd(pos: nat, s: Seg): nat {
    Filled(pos, s.addr) + SEG_HEADER_LEN + |s.data|
  }

  // the RAM segment that fills a gap, where RAM is taken at all
  function Filler(pos: nat, addr: nat): (ram: seq<Seg>)
    ensures forall r :: r in ram ==> r.addr == RAM_ADDR && |r.data| <= 2 * IROM_ALIGN
    ensures |ram| <= 1
  {
    var n := AlignmentDataNeeded(pos, addr);
    if n > SEG_HEADER_LEN then [RamOf(n)] else []
  }

  // the one that leaves one header of it
  function Spoiler(pos: nat, addr: nat): (ram: seq<Seg>)
    ensures forall r :: r in ram ==> r.addr == RAM_ADDR && |r.data| <= 2 * IROM_ALIGN
    ensures |ram| <= 1
  {
    var d := Gap(pos, addr);
    if d == SEG_HEADER_LEN then []
    else [RamOf(if d > 2 * SEG_HEADER_LEN then d - 2 * SEG_HEADER_LEN else d + IROM_ALIGN - 2 * SEG_HEADER_LEN)]
  }

  // RAM segments that fill every gap before the first fragile one, and leave one header there
  ghost function RamToFail(pos: nat, flash: seq<Seg>): (ram: seq<Seg>)
    requires flash != []
    ensures |ram| <= |flash|
    ensures forall r :: r in ram ==> r.addr == RAM_ADDR && |r.data| <= 2 * IROM_ALIGN
    decreases |flash|
  {
    if Fragile(pos, flash[0].addr) then Spoiler(pos, flash[0].addr)
    else if |flash| == 1 then []
    else Filler(pos, flash[0].addr) + RamToFail(FilledEnd(pos, flash[0]), flash[1..])
  }

  lemma RamIsConstructed(pos: nat, flash: seq<Seg>)
    requires flash != []
    ensures Constructed(RamToFail(pos, flash))
  {
    hide RamToFail;
  }

  lemma FragileFails(pos: nat, flash: seq<Seg>)
    requires flash != [] && Fragile(pos, flash[0].addr)
    ensures Layout(pos, flash, Spoiler(pos, flash[0].addr)) == Err(Misaligned)
  {
    var addr := flash[0].addr;
    var n, d := AlignmentDataNeeded(pos, addr), Gap(pos, addr);
    GapFacts(pos, addr);
    if d != SEG_HEADER_LEN {
      var len := if d > 2 * SEG_HEADER_LEN then d - 2 * SEG_HEADER_LEN else d + IROM_ALIGN - 2 * SEG_HEADER_LEN;
      var next := pos + SEG_HEADER_LEN + len;
      assert [RamOf(len)] + [] == [RamOf(len)];
      WholeRam(len, n, []);
      GapAfter(pos, addr, SEG_HEADER_LEN + len);
      GapFacts(next, addr);
      NoPaddingWhen(next, addr);
      assert Layout(next, flash, []) == Err(Misaligned);
    } else {
      NoPaddingWhen(pos, addr);
    }
  }

  lemma OneIsNotAfter(flash: seq<Seg>)
    ensures |flash| <= 1 ==> !FragileAfter(flash)
  {}

  // an aligned flash segment is written, and the rest decides
  lemma FlashNext(pos: nat, flash: seq<Seg>, ram: seq<Seg>)
    requires flash != [] && Packable(flash[0]) && AlignmentDataNeeded(pos, flash[0].addr) == 0 && Aligned(pos, flash[0].addr)
    requires Layout(pos + SEG_HEADER_LEN + |flash[0].data|, flash[1..], ram) == Err(Misaligned)
    ensures Layout(pos, flash, ram) == Err(Misaligned)
  {}

  // a gap that is filled passes the assert, and the rest decides
  lemma FilledPasses(pos: nat, flash: seq<Seg>, rest: seq<Seg>)
    requires flash != [] && Packable(flash[0]) && !Fragile(pos, flash[0].addr)
    requires Layout(FilledEnd(pos, flash[0]), flash[1..], rest) == Err(Misaligned)
    ensures Layout(pos, flash, Filler(pos, flash[0].addr) + rest) == Err(Misaligned)
  {
    hide AlignmentDataNeeded, Aligned, SplitFirst, Fragile;
    var addr := flash[0].addr;
    var n := AlignmentDataNeeded(pos, addr);
    SafeStep(pos, addr);
    if n > 0 {
      PaddingSettles(pos, addr);
      PaddingAligns(pos, addr);
    }
    FlashNext(Filled(pos, addr), flash, rest);
    assert [] + rest == rest;
    if n > SEG_HEADER_LEN {
      WholeRam(n, n, rest);
    }
  }

  // the end of a segment written in its place leaves the gap that the addresses tell
  lemma FilledGap(pos: nat, s: Seg, addr: nat)
    requires !Fragile(pos, s.addr)
    ensures Fragile(FilledEnd(pos, s), addr) == Fragile(s.addr + |s.data|, addr)
  {
    hide AlignmentDataNeeded, Aligned, Fragile;
    SafeStep(pos, s.addr);
    if AlignmentDataNeeded(pos, s.addr) > 0 {
      PaddingAligns(pos, s.addr);
    }
    AlignedEnd(Filled(pos, s.addr), s);
    SameGap(FilledEnd(pos, s), s.addr + |s.data|, addr);
  }

  lemma {:induction false} FragileCanFail(pos: nat, flash: seq<Seg>)
    requires flash != [] && forall s :: s in flash ==> Packable(s)
    requires Fragile(pos, flash[0].addr) || FragileAfter(flash)
    ensures Constructed(RamToFail(pos, flash))
    ensures Layout(pos, flash, RamToFail(pos, flash)) == Err(Misaligned)
    decreases |flash|
  {
    hide Layout, Packable, Fragile, FragileAfter, Gap, FilledEnd, Filler, Spoiler;
    RamIsConstructed(pos, flash);
    if Fragile(pos, flash[0].addr) {
      FragileFails(pos, flash);
    } else {
      OneIsNotAfter(flash);
      FragileSplits(flash);
      FilledGap(pos, flash[0], flash[1].addr);
      var next := FilledEnd(pos, flash[0]);
      FragileCanFail(next, flash[1..]);
      FilledPasses(pos, flash, RamToFail(next, flash[1..]));
    }
  }

  /** For flash segments in a given order, there are RAM segments that the
      constructor makes and that make the assert fail if and only if some gap,
      with its address, is fragile. */
  lemma SomeRamMisaligns(pos: nat, flash: seq<Seg>)
    requires flash != [] && forall s :: s in flash ==> Packable(s)
    ensures (exists ram :: Constructed(ram) && Layout(pos, flash, ram) == Err(Misaligned)) <==>
      Fragile(pos, flash[0].addr) || FragileAfter(flash)
  {
    if Fragile(pos, flash[0].addr) || FragileAfter(flash) {
      FragileCanFail(pos, flash);
    } else {
      forall ram ensures Layout(pos, flash, ram) != Err(Misaligned) {
        SafeFromAnyRam(pos, flash, ram);
      }
    }
  }

  lemma GapOfWords(pos: nat, addr: nat, n: nat)
    requires n % 4 == 0 && n <= Gap(pos, addr) + IROM_ALIGN
    ensures Gap(pos + n, addr) % 4 == Gap(pos, addr) % 4
  {
    GapAfter(pos, addr, n);
  }

  // an aligned segment is written
  lemma AlignedIsSafe(pos: nat, s: Seg, ram: seq<Seg>)
    requires Aligned(pos, s.addr)
    ensures Layout(pos, [s], ram) != Err(Misaligned)
  {
    hide Layout, Aligned, AlignmentDataNeeded;
    GapFacts(pos, s.addr);
    OneIsNotAfter([s]);
    SafeFromAnyRam(pos, [s], ram);
  }

  // the assert fails if it does after one more segment
  lemma OneStep(pos: nat, s: Seg, ram: seq<Seg>)
    requires AlignmentDataNeeded(pos, s.addr) > 0
    ensures var n := AlignmentDataNeeded(pos, s.addr);
      if ram != [] && n > SEG_HEADER_LEN then
        var (first, rest) := SplitFirst(ram, n);
        Layout(pos + SEG_HEADER_LEN + |first.data|, [s], rest) != Err(Misaligned) ==>
          Layout(pos, [s], ram) != Err(Misaligned)
      else
        Layout(pos + SEG_HEADER_LEN + n, [s], ram) != Err(Misaligned) ==> Layout(pos, [s], ram) != Err(Misaligned)
  {
    hide AlignmentDataNeeded, SplitFirst, Aligned;
    PaddingSettles(pos, s.addr);
  }

  // a RAM segment is taken whole, or cut to what is needed
  lemma WholeOrCut(ram: seq<Seg>, n: nat)
    requires ram != [] && n > 0 && WordSized(ram)
    ensures var (first, rest) := SplitFirst(ram, n);
      if |ram[0].data| <= n then |first.data| == |ram[0].data| && |first.data| % 4 == 0 && rest == ram[1..] && WordSized(rest)
      else |first.data| == n
  {
    assert ram[0] in ram;
  }

  lemma {:induction false} WordsKeepGap(pos: nat, s: Seg, ram: seq<Seg>)
    requires WordSized(ram) && Gap(pos, s.addr) % 4 != 0 && s.addr % IROM_ALIGN < 2 * SEG_HEADER_LEN
    ensures Layout(pos, [s], ram) != Err(Misaligned)
    decreases |ram|
  {
    hide AlignmentDataNeeded, Aligned, Gap, Layout, SplitFirst, WordSized;
    var n := AlignmentDataNeeded(pos, s.addr);
    GapFacts(pos, s.addr);
    PaddingAligns(pos, s.addr);
    OneStep(pos, s, ram);
    if ram != [] && n > SEG_HEADER_LEN {
      WholeOrCut(ram, n);
      var (first, rest) := SplitFirst(ram, n);
      if |ram[0].data| <= n {
        GapOfWords(pos, s.addr, SEG_HEADER_LEN + |first.data|);
        WordsKeepGap(pos + SEG_HEADER_LEN + |first.data|, s, rest);
      } else {
        AlignedIsSafe(pos + SEG_HEADER_LEN + n, s, rest);
      }
    } else {
      AlignedIsSafe(pos + SEG_HEADER_LEN + n, s, ram);
    }
  }

  /** For one flash segment, RAM segments of whole words, as every segment with an
      address is, do so only when the gap is a multiple of four besides. */
  lemma WordSizedRamMisaligns(pos: nat, s: Seg)
    requires Packable(s)
    ensures (exists ram :: WordSized(ram) && Layout(pos, [s], ram) == Err(Misaligned)) <==>
      Fragile(pos, s.addr) && Gap(pos, s.addr) % 4 == 0
  {
    hide Layout, Aligned, AlignmentDataNeeded, Gap;
    var flash := [s];
    OneIsNotAfter(flash);
    if !Fragile(pos, s.addr) {
      forall ram ensures Layout(pos, [s], ram) != Err(Misaligned) {
        SafeFromAnyRam(pos, [s], ram);
      }
    } else if Gap(pos, s.addr) % 4 != 0 {
      forall ram | WordSized(ram) ensures Layout(pos, [s], ram) != Err(Misaligned) {
        WordsKeepGap(pos, s, ram);
      }
    } else {
      FragileFails(pos, flash);
      assert WordSized(Spoiler(pos, s.addr));
    }
  }

  // behind the headers of an image every address less than two headers into its page is fragile
  lemma FirstIsFragile(addr: nat)
    ensures Fragile(FIRST_SEGMENT, addr) <==> addr % IROM_ALIGN < 2 * SEG_HEADER_LEN
  {
    GapFacts(FIRST_SEGMENT, addr);
  }

  lemma SameResidue(a: nat, b: nat, k: nat)
    requires a % IROM_ALIGN == b % IROM_ALIGN
    ensures (a + k) % IROM_ALIGN == (b + k) % IROM_ALIGN
  {
    assert a + k == b + k + (a / IROM_ALIGN - b / IROM_ALIGN) * IROM_ALIGN;
  }

  /** The assert does fail: 0x10000 - 8 - 16 bytes of flash data at page offset
      24 end 16 bytes short of a page, and the next segment starts its page. */
  lemma MisalignedExample()
    ensures var flash := [Seg(0x400d0018, Zeros(65528 - 24)), Seg(0x400e0008, Zeros(4))];
            Layout(FIRST_SEGMENT, flash, []) == Err(Misaligned)
  {
    var flash := [Seg(0x400d0018, Zeros(65528 - 24)), Seg(0x400e0008, Zeros(4))];
    assert OneHeaderGapBetween(flash[0], flash[1]);
    FlashOnlyMisaligned(FIRST_SEGMENT, flash);
  }
}
