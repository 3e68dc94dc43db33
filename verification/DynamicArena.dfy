/** ArduinoJson's growing arena as a function of a run of requests, with the sums of a 32-bit size_t. */
module DynamicArena {
  import opened Bytes
  import opened JsonBuffer

  // sizeof(EmptyBlock): a pointer and two sizes
  const HEADER: nat := 12

  datatype Extent = Extent(capacity: nat, size: nat)

  // the chain of blocks, newest first, and the capacity of the next one
  datatype Arena = Arena(blocks: seq<Extent>, next: nat)

  // alloc(bytes), or one more character of a string of some length; and whether the allocator has memory
  datatype Request =
    | Alloc(bytes: nat, memory: bool)
    | Append(length: nat, memory: bool)

  // a region in the block with this many older ones, which has this capacity
  datatype Region = Region(block: nat, capacity: nat, start: nat, len: nat, aligned: bool)

  function Max(a: nat, b: nat): nat {
    if a < b then b else a
  }

  // size_t arguments
  predicate FitsWord(req: Request) {
    BlockNeed(req) < U32_LIMIT
  }

  // what is asked of the newest block, and of a new one
  function HeadNeed(req: Request): nat {
    if req.Alloc? then req.bytes else 1
  }

  function BlockNeed(req: Request): nat {
    if req.Alloc? then req.bytes else req.length + 1
  }

  // canAllocInHead
  predicate CanAllocInHead(a: Arena, bytes: nat) {
    a.blocks != [] && (a.blocks[0].size + bytes) % U32_LIMIT <= a.blocks[0].capacity
  }

  // alignNextAlloc, which only alloc calls
  function Prepared(a: Arena, req: Request): Arena {
    if req.Append? || a.blocks == [] then a
    else a.(blocks := [a.blocks[0].(size := RoundSizeUp(a.blocks[0].size))] + a.blocks[1..])
  }

  // what addNewBlock asks the allocator for
  function Allocated(capacity: nat): nat {
    (HEADER + capacity) % U32_LIMIT
  }

  function NewCapacity(a: Arena, req: Request): nat {
    Max(a.next, BlockNeed(req))
  }

  function Next(a: Arena, req: Request): Arena {
    var b := Prepared(a, req);
    if CanAllocInHead(b, HeadNeed(req)) then
      b.(blocks := [b.blocks[0].(size := (b.blocks[0].size + HeadNeed(req)) % U32_LIMIT)] + b.blocks[1..])
    else if req.memory then
      Arena([Extent(NewCapacity(a, req), BlockNeed(req))] + b.blocks, 2 * a.next % U32_LIMIT)
    else b
  }

  function Granted(a: Arena, req: Request): Option<Region> {
    var b := Prepared(a, req);
    if CanAllocInHead(b, HeadNeed(req)) then
      Some(Region(|b.blocks| - 1, b.blocks[0].capacity, b.blocks[0].size, HeadNeed(req), req.Alloc?))
    else if req.memory then Some(Region(|b.blocks|, NewCapacity(a, req), 0, BlockNeed(req), req.Alloc?))
    else None
  }

  /** The guard on one request: no sum that grants it wraps around. */
  predicate NoWrap(a: Arena, req: Request) {
    var b := Prepared(a, req);
    if CanAllocInHead(b, HeadNeed(req)) then b.blocks[0].size + HeadNeed(req) < U32_LIMIT
    else req.memory ==> HEADER + NewCapacity(a, req) < U32_LIMIT
  }

  predicate NeverWraps(a: Arena, reqs: seq<Request>)
    decreases reqs
  {
    reqs != [] ==> NoWrap(a, reqs[0]) && NeverWraps(Next(a, reqs[0]), reqs[1..])
  }

  /** The regions that a run of requests is granted. */
  function Regions(a: Arena, reqs: seq<Request>): seq<Region>
    decreases reqs
  {
    if reqs == [] then []
    else
      var rest := Regions(Next(a, reqs[0]), reqs[1..]);
      var first := Granted(a, reqs[0]);
      if first == None then rest else [first.value] + rest
  }

  // the region, behind the header, lies in the memory its block was given
  predicate IsInside(r: Region) {
    HEADER + r.start + r.len <= Allocated(r.capacity)
  }

  predicate Inside(regions: seq<Region>) {
    forall i :: 0 <= i < |regions| ==> IsInside(regions[i])
  }

  predicate Aligned(regions: seq<Region>) {
    forall i :: 0 <= i < |regions| && regions[i].aligned ==> regions[i].start % WORD == 0
  }

  predicate Disjoint(a: Region, b: Region) {
    a.block == b.block ==> a.start + a.len <= b.start || b.start + b.len <= a.start
  }

  predicate PairwiseDisjoint(regions: seq<Region>) {
    forall i, j :: 0 <= i < j < |regions| ==> Disjoint(regions[i], regions[j])
  }

  // regions that can still be granted: in the newest block behind what is used, or in a later one
  predicate Later(a: Arena, regions: seq<Region>) {
    forall i :: 0 <= i < |regions| ==> IsLater(a, regions[i])
  }

  predicate IsLater(a: Arena, r: Region) {
    && r.block + 1 >= |a.blocks|
    && (r.block + 1 == |a.blocks| ==> a.blocks[0].size <= r.start)
  }

  // blocks whose memory was asked for without wrap-around
  predicate Sound(a: Arena) {
    && a.next < U32_LIMIT
    && forall i :: 0 <= i < |a.blocks| ==>
      HEADER + a.blocks[i].capacity < U32_LIMIT && a.blocks[i].size <= RoundSizeUp(a.blocks[i].capacity)
  }

  lemma PreparedIsSound(a: Arena, req: Request)
    requires Sound(a)
    ensures var b := Prepared(a, req);
      && Sound(b) && |b.blocks| == |a.blocks| && b.next == a.next
      && (a.blocks != [] ==> a.blocks[0].size <= b.blocks[0].size && a.blocks[0].capacity == b.blocks[0].capacity)
      && (req.Alloc? && a.blocks != [] ==> b.blocks[0].size % WORD == 0)
  {
    hide RoundSizeUp;
    if req.Alloc? && a.blocks != [] {
      var head := a.blocks[0];
      RoundsToNextWord(head.capacity);
      RoundsToNextWord(head.size);
      RoundsToLeast(head.size, RoundSizeUp(head.capacity));
    }
  }

  /**
    * Which region a request gets: in the newest block behind what is used, on a word boundary for alloc, when it fits
    * there; else at the start of a new block of the larger of the next capacity and the request, when there is
    * memory; else none. Each new block doubles the next capacity.
    */
  lemma ServesExactly(a: Arena, req: Request) returns (start: nat)
    requires Sound(a) && FitsWord(req)
    ensures a.blocks != [] ==>
      var size := a.blocks[0].size;
      if req.Alloc? then size <= start < size + 4 && start % 4 == 0 else start == size
    ensures var need := if req.Alloc? then req.bytes else 1;
      var blockNeed := if req.Alloc? then req.bytes else req.length + 1;
      var capacity := if a.next < blockNeed then blockNeed else a.next;
      var r, after := Granted(a, req), Next(a, req);
      a.blocks == [] || start + need < 0x1_0000_0000 ==>
        if a.blocks != [] && start + need <= a.blocks[0].capacity then
          && r == Some(Region(|a.blocks| - 1, a.blocks[0].capacity, start, need, req.Alloc?))
          && after == Arena([Extent(a.blocks[0].capacity, start + need)] + a.blocks[1..], a.next)
        else if req.memory then
          && r == Some(Region(|a.blocks|, capacity, 0, blockNeed, req.Alloc?))
          && |after.blocks| == |a.blocks| + 1 && after.blocks[0] == Extent(capacity, blockNeed)
          && after.next == 2 * a.next % 0x1_0000_0000
        else r == None && |after.blocks| == |a.blocks| && after.next == a.next
  {
    hide RoundSizeUp;
    PreparedIsSound(a, req);
    var b := Prepared(a, req);
    start := if b.blocks == [] then 0 else b.blocks[0].size;
    if a.blocks != [] {
      RoundsToNextWord(a.blocks[0].capacity);
      RoundsToNextWord(a.blocks[0].size);
    }
  }

  // where a granted region ends, and the arena stays sound, unless a sum wraps
  lemma StepKeepsSound(a: Arena, req: Request)
    requires Sound(a) && FitsWord(req) && NoWrap(a, req)
    ensures Sound(Next(a, req))
    ensures var r := Granted(a, req); r.Some? ==> r.value.start + r.value.len == Next(a, req).blocks[0].size
  {
    hide RoundSizeUp, Prepared;
    PreparedIsSound(a, req);
    var b := Prepared(a, req);
    if CanAllocInHead(b, HeadNeed(req)) {
      RoundsToNextWord(b.blocks[0].capacity);
    } else if req.memory {
      RoundsToNextWord(NewCapacity(a, req));
    }
  }

  /** One request: the region is inside exactly when no sum wraps. */
  lemma StepIsSafe(a: Arena, req: Request)
    requires Sound(a) && FitsWord(req)
    ensures var r := Granted(a, req);
      && (r == None ==> NoWrap(a, req) && |Next(a, req).blocks| == |a.blocks|)
      && (r.Some? ==> (IsInside(r.value) <==> NoWrap(a, req)))
      && (r.Some? ==> IsLater(a, r.value) && r.value.block + 1 == |Next(a, req).blocks|)
      && (r.Some? && r.value.aligned ==> r.value.start % WORD == 0)
      && (a.blocks != [] && r == None ==> a.blocks[0].size <= Next(a, req).blocks[0].size)
  {
    hide RoundSizeUp, Prepared;
    PreparedIsSound(a, req);
  }

  // what is granted after a request is later than before it
  lemma LaterStill(a: Arena, req: Request, regions: seq<Region>)
    requires Sound(a) && FitsWord(req) && NoWrap(a, req) && Later(Next(a, req), regions)
    ensures Later(a, regions)
    ensures Granted(a, req).Some? ==>
      forall i :: 0 <= i < |regions| ==> Disjoint(Granted(a, req).value, regions[i])
  {
    hide Prepared, Sound;
    StepIsSafe(a, req);
    StepKeepsSound(a, req);
    LaterBlocks(a, req);
  }

  lemma LaterBlocks(a: Arena, req: Request)
    requires Sound(a) && FitsWord(req) && NoWrap(a, req)
    ensures |Next(a, req).blocks| >= |a.blocks|
    ensures |Next(a, req).blocks| == |a.blocks| > 0 ==> a.blocks[0].size <= Next(a, req).blocks[0].size
  {
    PreparedIsSound(a, req);
  }

  lemma InsideSplits(first: Region, rest: seq<Region>)
    ensures Inside([first] + rest) <==> IsInside(first) && Inside(rest)
  {
    var regions := [first] + rest;
    if Inside(regions) {
      assert IsInside(regions[0]);
      forall i | 0 <= i < |rest| ensures IsInside(rest[i]) {
        assert IsInside(regions[i + 1]);
      }
    }
  }

  lemma {:induction false} InsideExactly(a: Arena, reqs: seq<Request>)
    requires Sound(a) && forall i :: 0 <= i < |reqs| ==> FitsWord(reqs[i])
    ensures Inside(Regions(a, reqs)) <==> NeverWraps(a, reqs)
    decreases reqs
  {
    hide Next, Granted, NoWrap, IsInside, Sound;
    if reqs != [] {
      StepIsSafe(a, reqs[0]);
      var first := Granted(a, reqs[0]);
      var regions, rest := Regions(a, reqs), Regions(Next(a, reqs[0]), reqs[1..]);
      if NoWrap(a, reqs[0]) {
        StepKeepsSound(a, reqs[0]);
        InsideExactly(Next(a, reqs[0]), reqs[1..]);
      }
      if first.Some? {
        assert regions == [first.value] + rest;
        InsideSplits(first.value, rest);
      }
    }
  }

  lemma {:induction false} RegionsFollow(a: Arena, reqs: seq<Request>)
    requires Sound(a) && (forall i :: 0 <= i < |reqs| ==> FitsWord(reqs[i])) && NeverWraps(a, reqs)
    ensures var regions := Regions(a, reqs); PairwiseDisjoint(regions) && Later(a, regions) && Aligned(regions)
    decreases reqs
  {
    hide Next, Granted, NoWrap, Sound, IsLater, Disjoint;
    if reqs != [] {
      StepIsSafe(a, reqs[0]);
      var next := Next(a, reqs[0]);
      StepKeepsSound(a, reqs[0]);
      RegionsFollow(next, reqs[1..]);
      LaterStill(a, reqs[0], Regions(next, reqs[1..]));
    }
  }

  /**
    * Safety of the arena, for all requests since it was empty: every region is inside the memory of its block if and
    * only if no sum wraps around, and then regions of one block do not overlap and allocations are aligned.
    */
  lemma ArenaIsSafe(initial: nat, reqs: seq<Request>)
    requires initial < U32_LIMIT && forall i :: 0 <= i < |reqs| ==> FitsWord(reqs[i])
    ensures var regions := Regions(Arena([], initial), reqs);
      && (Inside(regions) <==> NeverWraps(Arena([], initial), reqs))
      && (NeverWraps(Arena([], initial), reqs) ==> PairwiseDisjoint(regions) && Aligned(regions))
  {
    InsideExactly(Arena([], initial), reqs);
    if NeverWraps(Arena([], initial), reqs) {
      RegionsFollow(Arena([], initial), reqs);
    }
  }

  // after one word, a request of almost 4 GB is granted in the same block, and the next one overlaps the first
  lemma WrappedRequestIsGranted()
    ensures var reqs := [Alloc(4, true), Alloc(U32_LIMIT - 4, true), Alloc(4, true)];
      && !NeverWraps(Arena([], 64), reqs)
      && !PairwiseDisjoint(Regions(Arena([], 64), reqs))
  {
    var a, b := Arena([], 64), Arena([Extent(64, 4)], 128);
    var last := [Alloc(4, true)];
    var two := [Alloc(U32_LIMIT - 4, true), Alloc(4, true)];
    var reqs := [Alloc(4, true), Alloc(U32_LIMIT - 4, true), Alloc(4, true)];
    assert two[1..] == last && reqs[1..] == two && last[1..] == [];
    var c := Arena([Extent(64, 0)], 128);
    assert b.blocks[1..] == [] && c.blocks[1..] == [];
    assert Next(a, reqs[0]) == b && Next(b, two[0]) == c;
    assert Granted(c, last[0]) == Some(Region(0, 64, 0, 4, true));
    assert Regions(c, last) == [Region(0, 64, 0, 4, true)];
    assert !NoWrap(b, two[0]) && !NeverWraps(b, two);
    var r2 := Granted(b, two[0]);
    assert r2.Some? && Regions(b, two) == [r2.value] + Regions(c, last);
    var regions := Regions(a, reqs);
    assert regions == [Region(0, 64, 0, 4, true), r2.value, Region(0, 64, 0, 4, true)];
    assert !Disjoint(regions[0], regions[2]);
  }
}
