/** ArduinoJson's fixed-size arena: aligned allocations and a string builder that share one bump counter. */
module StaticJsonBuffer {
  import opened Bytes
  import opened JsonBuffer

  // what callers take from the arena: alloc(bytes), or one unaligned byte of a string builder
  datatype Request = Alloc(bytes: nat) | OneByte

  datatype Region = Region(start: nat, req: Request)

  // a size_t argument
  predicate FitsWord(req: Request) {
    req.Alloc? ==> req.bytes < U32_LIMIT
  }

  // where the request would start, and how long it is
  function Start(size: nat, req: Request): nat {
    if req.Alloc? then RoundSizeUp(size) else size
  }

  function Length(req: Request): nat {
    if req.Alloc? then req.bytes else 1
  }

  // canAlloc, whose sum is a 32-bit size_t
  predicate CanAlloc(capacity: nat, size: nat, bytes: nat) {
    (size + bytes) % U32_LIMIT <= capacity
  }

  predicate Granted(capacity: nat, size: nat, req: Request) {
    CanAlloc(capacity, Start(size, req), Length(req))
  }

  // the counter after a request; a refused alloc leaves it aligned
  function NextSize(capacity: nat, size: nat, req: Request): nat {
    if Granted(capacity, size, req) then (Start(size, req) + Length(req)) % U32_LIMIT
    else Start(size, req)
  }

  /** The regions handed out by a run of requests from a given counter, refused requests handing out none. */
  function Regions(capacity: nat, size: nat, reqs: seq<Request>): seq<Region>
    decreases reqs
  {
    if reqs == [] then []
    else
      var rest := Regions(capacity, NextSize(capacity, size, reqs[0]), reqs[1..]);
      if Granted(capacity, size, reqs[0])
      then [Region(Start(size, reqs[0]), reqs[0])] + rest
      else rest
  }

  /** The guard a caller can check before each request: the sum in canAlloc does not wrap around. */
  predicate NeverWraps(capacity: nat, size: nat, reqs: seq<Request>)
    decreases reqs
  {
    reqs != [] ==>
      && (Granted(capacity, size, reqs[0]) ==> Start(size, reqs[0]) + Length(reqs[0]) < U32_LIMIT)
      && NeverWraps(capacity, NextSize(capacity, size, reqs[0]), reqs[1..])
  }

  function End(r: Region): nat {
    r.start + Length(r.req)
  }

  // what alloc returned is on a word boundary
  predicate Aligned(regions: seq<Region>) {
    forall i :: 0 <= i < |regions| && regions[i].req.Alloc? ==> regions[i].start % WORD == 0
  }

  predicate Inside(capacity: nat, regions: seq<Region>) {
    forall i :: 0 <= i < |regions| ==> End(regions[i]) <= capacity
  }

  predicate Disjoint(a: Region, b: Region) {
    End(a) <= b.start || End(b) <= a.start
  }

  predicate PairwiseDisjoint(regions: seq<Region>) {
    forall i, j :: 0 <= i < j < |regions| ==> Disjoint(regions[i], regions[j])
  }

  predicate StartsAtOrAfter(size: nat, regions: seq<Region>) {
    forall i :: 0 <= i < |regions| ==> size <= regions[i].start
  }

  lemma NextSizeStays(capacity: nat, size: nat, req: Request)
    requires size <= RoundSizeUp(capacity) && capacity <= MAX_CAPACITY && FitsWord(req)
    ensures NextSize(capacity, size, req) <= RoundSizeUp(capacity)
    ensures size <= Start(size, req)
    ensures req.Alloc? ==> Start(size, req) % WORD == 0
  {
    hide RoundSizeUp;
    RoundsToNextWord(capacity);
    RoundsToNextWord(size);
    RoundsToLeast(size, RoundSizeUp(capacity));
    if Granted(capacity, size, req) {
      assert NextSize(capacity, size, req) <= capacity;
    }
  }

  lemma PutFirst(capacity: nat, size: nat, first: Region, rest: seq<Region>)
    requires Inside(capacity, rest) && PairwiseDisjoint(rest) && StartsAtOrAfter(End(first), rest)
    requires size <= first.start && End(first) <= capacity
    ensures var regions := [first] + rest;
      Inside(capacity, regions) && PairwiseDisjoint(regions) && StartsAtOrAfter(size, regions)
  {
    hide Length;
  }

  lemma {:induction false} RegionsFollow(capacity: nat, size: nat, reqs: seq<Request>)
    requires size <= RoundSizeUp(capacity) && capacity <= MAX_CAPACITY
    requires forall i :: 0 <= i < |reqs| ==> FitsWord(reqs[i])
    requires NeverWraps(capacity, size, reqs)
    ensures var regions := Regions(capacity, size, reqs);
      Inside(capacity, regions) && PairwiseDisjoint(regions) && StartsAtOrAfter(size, regions)
    decreases reqs
  {
    hide RoundSizeUp;
    if reqs != [] {
      var next := NextSize(capacity, size, reqs[0]);
      NextSizeStays(capacity, size, reqs[0]);
      RegionsFollow(capacity, next, reqs[1..]);
      var rest := Regions(capacity, next, reqs[1..]);
      if Granted(capacity, size, reqs[0]) {
        var first := Region(Start(size, reqs[0]), reqs[0]);
        assert Regions(capacity, size, reqs) == [first] + rest;
        assert size <= first.start && End(first) == next <= capacity;
        PutFirst(capacity, size, first, rest);
      }
    }
  }

  lemma {:induction false} RegionsAreAligned(capacity: nat, size: nat, reqs: seq<Request>)
    requires size <= RoundSizeUp(capacity) && capacity <= MAX_CAPACITY
    requires forall i :: 0 <= i < |reqs| ==> FitsWord(reqs[i])
    ensures Aligned(Regions(capacity, size, reqs))
    decreases reqs
  {
    hide RoundSizeUp;
    if reqs != [] {
      NextSizeStays(capacity, size, reqs[0]);
      RegionsAreAligned(capacity, NextSize(capacity, size, reqs[0]), reqs[1..]);
    }
  }

  /** Over a whole run, every region lies inside the buffer exactly when no granted sum wrapped around. */
  lemma {:induction false} InsideExactly(capacity: nat, size: nat, reqs: seq<Request>)
    requires size <= RoundSizeUp(capacity) && capacity <= MAX_CAPACITY
    requires forall i :: 0 <= i < |reqs| ==> FitsWord(reqs[i])
    ensures Inside(capacity, Regions(capacity, size, reqs)) <==> NeverWraps(capacity, size, reqs)
    decreases reqs
  {
    hide RoundSizeUp;
    if reqs != [] {
      var next := NextSize(capacity, size, reqs[0]);
      var regions, rest := Regions(capacity, size, reqs), Regions(capacity, next, reqs[1..]);
      NextSizeStays(capacity, size, reqs[0]);
      InsideExactly(capacity, next, reqs[1..]);
      if Granted(capacity, size, reqs[0]) {
        assert regions[1..] == rest;
        assert Inside(capacity, regions) <==>
          End(regions[0]) <= capacity && Inside(capacity, rest) by {
          assert forall i :: 0 <= i < |rest| ==> rest[i] == regions[i + 1];
          assert forall i :: 0 < i < |regions| ==> regions[i] == rest[i - 1];
        }
      }
    }
  }

  /**
    * Safety of the arena, for all requests since the last clear: the regions are aligned, and unless a sum
    * wraps around they are inside the buffer and pairwise disjoint.
    */
  lemma ArenaIsSafe(capacity: nat, reqs: seq<Request>)
    requires capacity <= MAX_CAPACITY
    requires forall i :: 0 <= i < |reqs| ==> FitsWord(reqs[i])
    ensures Inside(capacity, Regions(capacity, 0, reqs)) <==> NeverWraps(capacity, 0, reqs)
    ensures NeverWraps(capacity, 0, reqs) ==> PairwiseDisjoint(Regions(capacity, 0, reqs))
    ensures Aligned(Regions(capacity, 0, reqs))
  {
    RegionsAreAligned(capacity, 0, reqs);
    InsideExactly(capacity, 0, reqs);
    if NeverWraps(capacity, 0, reqs) {
      RegionsFollow(capacity, 0, reqs);
    }
  }

  // the wrapped sum is small again: a request of almost 4 GB is granted after one word was taken
  lemma WrappedRequestIsGranted()
    ensures var reqs := [Alloc(4), Alloc(U32_LIMIT - 4), Alloc(4)];
      !NeverWraps(64, 0, reqs) && !PairwiseDisjoint(Regions(64, 0, reqs))
  {
    var last := [Alloc(4)];
    var two := [Alloc(U32_LIMIT - 4), Alloc(4)];
    var reqs := [Alloc(4), Alloc(U32_LIMIT - 4), Alloc(4)];
    assert two[1..] == last && reqs[1..] == two && last[1..] == [];
    assert Regions(64, 0, last) == [Region(0, Alloc(4))];
    assert !NeverWraps(64, 4, two);
    assert Regions(64, 4, two) == [Region(4, two[0]), Region(0, Alloc(4))];
    var regions := Regions(64, 0, reqs);
    assert regions == [Region(0, reqs[0]), Region(4, two[0]), Region(0, Alloc(4))];
    assert !Disjoint(regions[0], regions[2]);
  }

  class StaticJsonBufferBase {
    const buffer: array<byte>
    const capacity: nat
    var size: nat

    ghost predicate Valid()
      reads this
    {
      && capacity == buffer.Length <= MAX_CAPACITY
      && size <= RoundSizeUp(capacity)
    }

    constructor (buffer: array<byte>)
      requires buffer.Length <= MAX_CAPACITY
      ensures this.buffer == buffer && size == 0 && Valid()
    {
      this.buffer := buffer;
      capacity := buffer.Length;
      size := 0;
    }

    // alignNextAlloc, canAlloc, doAlloc
    method Alloc(bytes: nat) returns (p: Option<nat>)
      requires Valid() && bytes < U32_LIMIT
      modifies this`size
      ensures Valid()
      ensures size == NextSize(capacity, old(size), Request.Alloc(bytes))
      ensures p == if Granted(capacity, old(size), Request.Alloc(bytes)) then Some(RoundSizeUp(old(size))) else None
      ensures p.Some? ==> p.value % WORD == 0 && old(size) <= p.value
      ensures RoundSizeUp(old(size)) + bytes < U32_LIMIT ==>
        (p.Some? <==> RoundSizeUp(old(size)) + bytes <= capacity) && old(size) <= size
    {
      hide RoundSizeUp;
      RoundsToNextWord(capacity);
      NextSizeStays(capacity, size, Request.Alloc(bytes));
      RoundsToNextWord(size);
      size := RoundSizeUp(size);
      if !CanAlloc(capacity, size, bytes) {
        return None;
      }
      p := Some(size);
      size := (size + bytes) % U32_LIMIT;
    }

    // doAlloc(1) guarded by canAlloc(1), then one byte stored
    method Push(c: byte) returns (ok: bool)
      requires Valid()
      modifies this`size, buffer
      ensures Valid()
      ensures size == NextSize(capacity, old(size), OneByte)
      ensures ok <==> Granted(capacity, old(size), OneByte)
      ensures ok <==> old(size) < capacity
      ensures ok ==> size == old(size) + 1 && buffer[..] == old(buffer[..])[old(size) := c]
      ensures !ok ==> size == old(size) && buffer[..] == old(buffer[..])
    {
      RoundsToNextWord(capacity);
      ok := CanAlloc(capacity, size, 1);
      if ok {
        buffer[size] := c;
        size := size + 1;
      }
    }

    method Clear()
      requires Valid()
      modifies this`size
      ensures Valid() && size == 0
    {
      size := 0;
    }
  }

  /** The string builder. The ghost text is what was appended since it was started. */
  class StringBuilder {
    const parent: StaticJsonBufferBase
    const start: nat
    ghost var text: seq<byte>

    constructor (parent: StaticJsonBufferBase)
      requires parent.Valid()
      ensures this.parent == parent && start == parent.size && text == []
      ensures Undisturbed()
    {
      this.parent := parent;
      start := parent.size;
      text := [];
    }

    // how many of the appended characters found room
    ghost function Stored(): (n: nat)
      reads this
      ensures n <= |text|
    {
      if start >= parent.capacity then 0 else Min(|text|, parent.capacity - start)
    }

    /** Nothing else was allocated since the builder was started. */
    ghost predicate Undisturbed()
      reads this, parent, parent.buffer
    {
      && parent.Valid()
      && parent.size == start + Stored()
      && (start <= parent.capacity ==>
            parent.size <= parent.buffer.Length && parent.buffer[start..parent.size] == text[..Stored()])
    }

    // the guarded doAlloc(1) and the store that append and c_str share
    method Store(c: byte) returns (ok: bool)
      requires Undisturbed()
      modifies this, parent`size, parent.buffer
      ensures Undisturbed() && text == old(text) + [c]
      ensures ok <==> start + |old(text)| < parent.capacity
      ensures start <= parent.capacity ==> parent.buffer[..start] == old(parent.buffer[..])[..start]
    {
      hide RoundSizeUp;
      ok := parent.Push(c);
      assert old(text) == (old(text) + [c])[..|old(text)|];
      text := text + [c];
      assert start <= parent.capacity ==> parent.buffer[start..parent.size] == text[..Stored()] by {
        if start <= parent.capacity {
          assert old(text)[..old(Stored())] == text[..old(Stored())];
        }
      }
      assert start <= parent.capacity ==> parent.buffer[..start] == parent.buffer[..][..start];
    }

    method Append(c: byte)
      requires Undisturbed()
      modifies this, parent`size, parent.buffer
      ensures Undisturbed() && text == old(text) + [c]
      ensures start <= parent.capacity ==> parent.buffer[..start] == old(parent.buffer[..])[..start]
    {
      var _ := Store(c);
    }

    /** Either every appended character followed by a NUL, or NULL: never a truncated string. */
    method CStr() returns (p: Option<nat>)
      requires Undisturbed()
      modifies this, parent`size, parent.buffer
      ensures Undisturbed() && text == old(text) + [0]
      ensures p.Some? <==> start + |old(text)| + 1 <= parent.capacity
      ensures p.Some? ==>
        && p.value == start
        && parent.buffer[start..start + |old(text)| + 1] == old(text) + [0]
      ensures start <= parent.capacity ==> parent.buffer[..start] == old(parent.buffer[..])[..start]
    {
      var ok := Store(0);
      p := if ok then Some(start) else None;
      if ok {
        assert text[..|text|] == text;
      }
    }
  }
}
