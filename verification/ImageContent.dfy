/** What the emitted segments of a firmware image contain: the flash segments
    whole and in order, the RAM segments split but unchanged, and zero padding. */
module ImageContent {
  import opened Bytes
  import opened ImageLayout
  import StableSort

  // -------- the two worklists --------

  function Addr(s: Seg): int {
    s.addr
  }

  function InsertByAddr(s: Seg, segs: seq<Seg>): seq<Seg> {
    StableSort.Insert(Addr, s, segs)
  }

  // sorted(segments, key=lambda s: s.addr)
  function SortByAddr(segs: seq<Seg>): seq<Seg> {
    StableSort.Sort(Addr, segs)
  }

  predicate Sorted(segs: seq<Seg>) {
    StableSort.Sorted(Addr, segs)
  }

  function FlashPart(segs: seq<Seg>): seq<Seg> {
    if segs == [] then []
    else if IsFlashAddr(segs[0].addr) then [segs[0]] + FlashPart(segs[1..])
    else FlashPart(segs[1..])
  }

  function RamPart(segs: seq<Seg>): seq<Seg> {
    if segs == [] then []
    else if IsFlashAddr(segs[0].addr) then RamPart(segs[1..])
    else [segs[0]] + RamPart(segs[1..])
  }

  /** Sorting by load address orders, permutes and keeps segments at equal addresses in their order. */
  lemma SortFacts(segs: seq<Seg>)
    ensures Sorted(SortByAddr(segs)) && multiset(SortByAddr(segs)) == multiset(segs)
    ensures forall addr :: StableSort.At(Addr, SortByAddr(segs), addr) == StableSort.At(Addr, segs, addr)
  {
    StableSort.SortFacts(Addr, segs);
    forall addr ensures StableSort.At(Addr, SortByAddr(segs), addr) == StableSort.At(Addr, segs, addr) {
      StableSort.SortStable(Addr, segs, addr);
    }
  }

  lemma {:induction false} PartsMembers(segs: seq<Seg>)
    ensures multiset(segs) == multiset(FlashPart(segs)) + multiset(RamPart(segs))
    ensures forall s :: s in FlashPart(segs) ==> IsFlashAddr(s.addr)
    ensures forall s :: s in RamPart(segs) ==> !IsFlashAddr(s.addr)
  {
    if segs != [] {
      PartsMembers(segs[1..]);
      assert segs == [segs[0]] + segs[1..];
    }
  }

  predicate AllFrom(segs: seq<Seg>, addr: nat) {
    forall i :: 0 <= i < |segs| ==> addr <= segs[i].addr
  }

  lemma {:induction false} PartsFrom(segs: seq<Seg>, addr: nat)
    requires AllFrom(segs, addr)
    ensures AllFrom(FlashPart(segs), addr) && AllFrom(RamPart(segs), addr)
  {
    if segs != [] {
      PartsFrom(segs[1..], addr);
    }
  }

  lemma {:induction false} PartsSorted(segs: seq<Seg>)
    requires Sorted(segs)
    ensures Sorted(FlashPart(segs)) && Sorted(RamPart(segs))
  {
    if segs != [] {
      PartsSorted(segs[1..]);
      PartsFrom(segs[1..], segs[0].addr);
    }
  }

  // -------- one 64 KB mapping, one flash segment --------

  function Page(s: Seg): nat {
    s.addr / IROM_ALIGN
  }

  // what the loop over neighbours looks for
  predicate NeighboursSharePage(flash: seq<Seg>) {
    exists i :: 0 < i < |flash| && Page(flash[i]) == Page(flash[i - 1])
  }

  lemma {:induction false} PagesGrow(flash: seq<Seg>, i: nat, j: nat)
    requires Sorted(flash) && !NeighboursSharePage(flash) && i < j < |flash|
    ensures Page(flash[i]) < Page(flash[j])
    decreases j - i
  {
    assert Page(flash[j]) != Page(flash[j - 1]);
    assert flash[j - 1].addr <= flash[j].addr;
    if i < j - 1 {
      PagesGrow(flash, i, j - 1);
    }
  }

  /** Comparing neighbours in address order finds every shared 64 KB mapping. */
  lemma NeighbourCheckIsComplete(flash: seq<Seg>)
    requires Sorted(flash)
    ensures NeighboursSharePage(flash)
       <==> exists i, j :: 0 <= i < j < |flash| && Page(flash[i]) == Page(flash[j])
  {
    if !NeighboursSharePage(flash) {
      forall i, j | 0 <= i < j < |flash| ensures Page(flash[i]) != Page(flash[j]) {
        PagesGrow(flash, i, j);
      }
    }
  }

  // -------- contents of a layout --------

  function Of(origin: Origin, ps: seq<Piece>): seq<Seg> {
    if ps == [] then []
    else if ps[0].origin == origin then [ps[0].seg] + Of(origin, ps[1..])
    else Of(origin, ps[1..])
  }

  /** ps cuts the segments ram into contiguous parts, in order: each part starts
      where the previous one of the same segment ended. */
  predicate SplitOf(ps: seq<Seg>, ram: seq<Seg>)
    decreases |ps|
  {
    if ram == [] || ps == [] then ps == [] && ram == []
    else
      ps[0].addr == ram[0].addr && ps[0].data <= ram[0].data &&
      var n := |ps[0].data|;
      if n == |ram[0].data| then SplitOf(ps[1..], ram[1..])
      else SplitOf(ps[1..], [Seg(ram[0].addr + n, ram[0].data[n..])] + ram[1..])
  }

  lemma OfCons(origin: Origin, p: Piece, ps: seq<Piece>)
    ensures Of(origin, [p] + ps) == if p.origin == origin then [p.seg] + Of(origin, ps) else Of(origin, ps)
  {
    assert ([p] + ps)[1..] == ps;
  }

  predicate PadsAreZero(ps: seq<Piece>) {
    forall p :: p in ps && p.origin == Pad ==> p.seg == Seg(0, Zeros(|p.seg.data|))
  }

  predicate AllPackable(ps: seq<Piece>) {
    forall p :: p in ps ==> Packable(p.seg)
  }

  ghost predicate Holds(ps: seq<Piece>, flash: seq<Seg>, ram: seq<Seg>) {
    Of(Flash, ps) == flash && SplitOf(Of(Ram, ps), ram) && PadsAreZero(ps) && AllPackable(ps)
  }

  lemma ConsContent(p: Piece, ps: seq<Piece>)
    ensures Of(Flash, [p] + ps) == if p.origin == Flash then [p.seg] + Of(Flash, ps) else Of(Flash, ps)
    ensures Of(Ram, [p] + ps) == if p.origin == Ram then [p.seg] + Of(Ram, ps) else Of(Ram, ps)
    ensures p.origin == Ram ==> Of(Ram, [p] + ps)[1..] == Of(Ram, ps)
  {
    OfCons(Flash, p, ps);
    OfCons(Ram, p, ps);
  }

  lemma {:induction false} TailContent(ram: seq<Seg>)
    requires EmitAll(ram).Ok?
    ensures Holds(EmitAll(ram).value, [], ram)
  {
    if ram != [] {
      TailContent(ram[1..]);
      ConsContent(Piece(Ram, ram[0]), EmitAll(ram[1..]).value);
    }
  }

  lemma SplitContent(ps: seq<Piece>, flash: seq<Seg>, ram: seq<Seg>, n: nat)
    requires n > 0 && ram != []
    requires Holds(ps, flash, SplitFirst(ram, n).1) && Packable(SplitFirst(ram, n).0)
    ensures Holds([Piece(Ram, SplitFirst(ram, n).0)] + ps, flash, ram)
  {
    var (first, rest) := SplitFirst(ram, n);
    ConsContent(Piece(Ram, first), ps);
  }

  lemma PadContent(ps: seq<Piece>, flash: seq<Seg>, ram: seq<Seg>, n: nat)
    requires Holds(ps, flash, ram) && n < U32_LIMIT
    ensures Holds([Piece(Pad, Seg(0, Zeros(n)))] + ps, flash, ram)
  {
    ConsContent(Piece(Pad, Seg(0, Zeros(n))), ps);
  }

  lemma FlashContent(ps: seq<Piece>, flash: seq<Seg>, ram: seq<Seg>)
    requires flash != [] && Holds(ps, flash[1..], ram) && Packable(flash[0])
    ensures Holds([Piece(Flash, flash[0])] + ps, flash, ram)
  {
    ConsContent(Piece(Flash, flash[0]), ps);
  }

  /** Whatever way RAM segments are split to pad before flash segments, the
      emitted segments are: each flash segment once, whole and in order; the RAM
      data in order, cut at most; and otherwise zeros at address 0. */
  lemma {:induction false} LayoutContent(pos: nat, flash: seq<Seg>, ram: seq<Seg>)
    requires Layout(pos, flash, ram).Ok?
    ensures Holds(Layout(pos, flash, ram).value, flash, ram)
    decreases |flash|, DataLen(ram) + |ram|, if flash != [] && AlignmentDataNeeded(pos, flash[0].addr) > 0 then 1 else 0
  {
    hide AlignmentDataNeeded;
    hide Aligned;
    hide Holds;
    hide SplitFirst;
    hide DataLen;
    if flash == [] {
      TailContent(ram);
    } else {
      var n := AlignmentDataNeeded(pos, flash[0].addr);
      if n > 0 {
        if ram != [] && n > SEG_HEADER_LEN {
          var (first, rest) := SplitFirst(ram, n);
          var next := pos + SEG_HEADER_LEN + |first.data|;
          LayoutContent(next, flash, rest);
          SplitContent(Layout(next, flash, rest).value, flash, ram, n);
        } else {
          PaddingSettles(pos, flash[0].addr);
          LayoutContent(pos + SEG_HEADER_LEN + n, flash, ram);
          PadContent(Layout(pos + SEG_HEADER_LEN + n, flash, ram).value, flash, ram, n);
        }
      } else {
        var next := pos + SEG_HEADER_LEN + |flash[0].data|;
        LayoutContent(next, flash[1..], ram);
        FlashContent(Layout(next, flash[1..], ram).value, flash, ram);
      }
    }
  }

  // -------- what ends up in memory --------

  type Memory = map<nat, byte>

  predicate Covers(s: Seg, a: nat) {
    s.addr <= a < s.addr + |s.data|
  }

  function LoadOne(s: Seg): Memory {
    map a: nat {:trigger Covers(s, a)} | s.addr <= a < s.addr + |s.data| :: s.data[a - s.addr]
  }

  /** Memory after loading segments in order, later ones overwriting. */
  function Load(segs: seq<Seg>): Memory {
    if segs == [] then map[] else LoadOne(segs[0]) + Load(segs[1..])
  }

  lemma LoadCons(s: Seg, segs: seq<Seg>)
    ensures Load([s] + segs) == LoadOne(s) + Load(segs)
  {
    assert ([s] + segs)[1..] == segs;
  }

  lemma LoadOneSplits(s: Seg, n: nat)
    requires n <= |s.data|
    ensures LoadOne(s) == LoadOne(Seg(s.addr, s.data[..n])) + LoadOne(Seg(s.addr + n, s.data[n..]))
  {}

  lemma OverwriteAssociates(a: Memory, b: Memory, c: Memory)
    ensures (a + b) + c == a + (b + c)
  {}

  lemma OverwriteDisjoint(a: Memory, b: Memory, c: Memory)
    requires a.Keys !! b.Keys
    ensures a + (b + c) == b + (a + c)
  {}

  /** Loading the parts is loading the whole. */
  lemma {:induction false} SplitLoads(ps: seq<Seg>, ram: seq<Seg>)
    requires SplitOf(ps, ram)
    ensures Load(ps) == Load(ram)
    decreases |ps|
  {
    hide LoadOne;
    if ps != [] {
      var n := |ps[0].data|;
      if n == |ram[0].data| {
        SplitLoads(ps[1..], ram[1..]);
        assert ps[0] == ram[0];
      } else {
        var rest := Seg(ram[0].addr + n, ram[0].data[n..]);
        SplitLoads(ps[1..], [rest] + ram[1..]);
        LoadCons(rest, ram[1..]);
        LoadOneSplits(ram[0], n);
        assert ps[0] == Seg(ram[0].addr, ram[0].data[..n]);
        var whole, first, last, tail := LoadOne(ram[0]), LoadOne(ps[0]), LoadOne(rest), Load(ram[1..]);
        assert whole == first + last;
        OverwriteAssociates(first, last, tail);
      }
    }
  }

  function NonPad(ps: seq<Piece>): seq<Seg> {
    if ps == [] then []
    else if ps[0].origin != Pad then [ps[0].seg] + NonPad(ps[1..])
    else NonPad(ps[1..])
  }

  lemma {:induction false} InterleavedLoads(ps: seq<Piece>)
    requires Load(Of(Flash, ps)).Keys !! Load(Of(Ram, ps)).Keys
    ensures Load(NonPad(ps)) == Load(Of(Flash, ps)) + Load(Of(Ram, ps))
  {
    if ps != [] {
      var s := ps[0].seg;
      var f, r := Of(Flash, ps[1..]), Of(Ram, ps[1..]);
      LoadCons(s, NonPad(ps[1..]));
      match ps[0].origin
      case Flash =>
        LoadCons(s, f);
        InterleavedLoads(ps[1..]);
        OverwriteAssociates(LoadOne(s), Load(f), Load(r));
      case Ram =>
        LoadCons(s, r);
        InterleavedLoads(ps[1..]);
        OverwriteDisjoint(LoadOne(s), Load(f), Load(r));
      case Pad =>
        InterleavedLoads(ps[1..]);
    }
  }

  // no two segments (at different positions) claim the same address
  ghost predicate NoOverlap(segs: seq<Seg>) {
    forall i, j, a :: 0 <= i < j < |segs| && Covers(segs[i], a) ==> !Covers(segs[j], a)
  }

  predicate SomeCovers(segs: seq<Seg>, a: nat) {
    exists i :: 0 <= i < |segs| && Covers(segs[i], a)
  }

  lemma {:induction false} LoadCovers(segs: seq<Seg>, a: nat)
    ensures a in Load(segs) <==> SomeCovers(segs, a)
  {
    if segs != [] {
      LoadCovers(segs[1..], a);
      assert a in LoadOne(segs[0]) <==> Covers(segs[0], a);
      if i :| 0 <= i < |segs[1..]| && Covers(segs[1..][i], a) {
        assert Covers(segs[i + 1], a);
      }
      if i :| 0 <= i < |segs| && Covers(segs[i], a) && i > 0 {
        assert Covers(segs[1..][i - 1], a);
      }
    }
  }

  lemma {:induction false} LoadOfDisjoint(segs: seq<Seg>, k: nat, a: nat)
    requires NoOverlap(segs) && k < |segs| && Covers(segs[k], a)
    ensures a in Load(segs) && Load(segs)[a] == segs[k].data[a - segs[k].addr]
  {
    LoadCovers(segs[1..], a);
    if k > 0 {
      assert forall i :: 0 <= i < |segs| - 1 ==> segs[1..][i] == segs[i + 1];
      LoadOfDisjoint(segs[1..], k - 1, a);
    } else {
      assert forall i :: 0 <= i < |segs| - 1 ==> segs[1..][i] == segs[i + 1];
      assert a in LoadOne(segs[0]);
    }
  }

  // -------- the checksum does not see splitting, order or padding --------

  function XorAll(segs: seq<Seg>): bv8 {
    if segs == [] then 0 else Xor(XorOf(segs[0].data), XorAll(segs[1..]))
  }

  function Segs(ps: seq<Piece>): seq<Seg> {
    if ps == [] then [] else [ps[0].seg] + Segs(ps[1..])
  }

  lemma {:induction false} SegsAppend(ps: seq<Piece>, p: Piece)
    ensures Segs(ps + [p]) == Segs(ps) + [p.seg]
  {
    if ps == [] {
      assert ps + [p] == [p];
    } else {
      SegsAppend(ps[1..], p);
      assert (ps + [p])[1..] == ps[1..] + [p];
    }
  }

  lemma XorAllCons(s: Seg, segs: seq<Seg>)
    ensures XorAll([s] + segs) == Xor(XorOf(s.data), XorAll(segs))
  {
    hide Xor;
    assert ([s] + segs)[1..] == segs;
  }

  lemma {:induction false} SplitXor(ps: seq<Seg>, ram: seq<Seg>)
    requires SplitOf(ps, ram)
    ensures XorAll(ps) == XorAll(ram)
    decreases |ps|
  {
    hide Xor;
    hide XorOf;
    if ps != [] {
      var n := |ps[0].data|;
      if n == |ram[0].data| {
        SplitXor(ps[1..], ram[1..]);
        assert ps[0] == ram[0];
      } else {
        var rest := Seg(ram[0].addr + n, ram[0].data[n..]);
        SplitXor(ps[1..], [rest] + ram[1..]);
        XorAllCons(rest, ram[1..]);
        assert ram[0].data == ps[0].data + rest.data;
        XorOfConcat(ps[0].data, rest.data);
        XorLaws(XorOf(ps[0].data), XorOf(rest.data), XorAll(ram[1..]));
      }
    }
  }

  lemma {:induction false} PiecesXor(ps: seq<Piece>)
    requires PadsAreZero(ps)
    ensures XorAll(Segs(ps)) == Xor(XorAll(Of(Flash, ps)), XorAll(Of(Ram, ps)))
  {
    hide Xor;
    hide XorOf;
    XorLaws(0, 0, 0);
    if ps != [] {
      var s, tail := ps[0].seg, ps[1..];
      PiecesXor(tail);
      XorAllCons(s, Segs(tail));
      XorLaws(XorOf(s.data), XorAll(Of(Flash, tail)), XorAll(Of(Ram, tail)));
      match ps[0].origin
      case Flash =>
        XorAllCons(s, Of(Flash, tail));
      case Ram =>
        XorAllCons(s, Of(Ram, tail));
      case Pad =>
        assert ps[0] in ps;
        XorOfZeros(|s.data|);
        XorLaws(XorAll(Segs(tail)), 0, 0);
    }
  }

  lemma {:induction false} PartsXor(segs: seq<Seg>)
    ensures XorAll(segs) == Xor(XorAll(FlashPart(segs)), XorAll(RamPart(segs)))
  {
    hide Xor;
    hide XorOf;
    XorLaws(0, 0, 0);
    if segs != [] {
      var s, tail := segs[0], segs[1..];
      PartsXor(tail);
      XorAllCons(s, FlashPart(tail));
      XorAllCons(s, RamPart(tail));
      XorLaws(XorOf(s.data), XorAll(FlashPart(tail)), XorAll(RamPart(tail)));
    }
  }

  lemma {:induction false} InsertXor(s: Seg, segs: seq<Seg>)
    ensures XorAll(InsertByAddr(s, segs)) == Xor(XorOf(s.data), XorAll(segs))
  {
    hide Xor;
    hide XorOf;
    XorAllCons(s, segs);
    if segs != [] && s.addr > segs[0].addr {
      InsertXor(s, segs[1..]);
      XorAllCons(segs[0], InsertByAddr(s, segs[1..]));
      XorLaws(XorOf(segs[0].data), XorOf(s.data), XorAll(segs[1..]));
    }
  }

  lemma {:induction false} SortXor(segs: seq<Seg>)
    ensures XorAll(SortByAddr(segs)) == XorAll(segs)
  {
    hide Xor;
    hide XorOf;
    if segs != [] {
      SortXor(segs[1..]);
      InsertXor(segs[0], SortByAddr(segs[1..]));
    }
  }
}
