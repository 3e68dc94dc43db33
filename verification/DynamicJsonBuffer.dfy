/** ArduinoJson's growing arena: a chain of doubling blocks, and a string builder that moves between them. */
module DynamicJsonBuffer {
  import opened Bytes
  import opened DynamicArena
  import opened JsonBuffer

  // how many bytes of data the allocator gives to a block
  function Room(capacity: nat): nat {
    if Allocated(capacity) < HEADER then 0 else Allocated(capacity) - HEADER
  }

  class Block {
    const capacity: nat
    const data: array<byte>
    const next: Block?
    var size: nat

    constructor (capacity: nat, next: Block?)
      ensures this.capacity == capacity && this.next == next && size == 0
      ensures fresh(data) && data.Length == Room(capacity)
    {
      this.capacity := capacity;
      data := new byte[Room(capacity)](_ => 0);
      this.next := next;
      size := 0;
    }
  }

  // a pointer into a block
  datatype Pointer = Pointer(block: Block, offset: nat)

  /** c doubled k times: the capacity of the k-th block when no request is larger. */
  function Capacity(c: nat, k: nat): nat {
    if k == 0 then c else 2 * Capacity(c, k - 1)
  }

  /** The blocks of a chain, newest first, are linked by next. */
  ghost predicate Linked(head: Block?, chain: seq<Block>)
  {
    && (head == null <==> chain == [])
    && (head != null ==> chain[0] == head)
    && (forall i {:trigger chain[i].next} :: 0 <= i < |chain| ==>
          chain[i].next == if i + 1 < |chain| then chain[i + 1] else null)
    && (forall i, j :: 0 <= i < j < |chain| ==> chain[i] != chain[j] && chain[i].data != chain[j].data)
  }

  ghost function TotalSize(chain: seq<Block>): nat
    reads set i | 0 <= i < |chain| :: chain[i]
  {
    if chain == [] then 0 else chain[0].size + TotalSize(chain[1..])
  }

  class DynamicJsonBufferBase {
    var head: Block?
    var nextBlockCapacity: nat
    ghost var chain: seq<Block>
    ghost var initial: nat

    ghost function Blocks(): set<object>
      reads this
    {
      set b <- chain
    }

    ghost function Arrays(): set<object>
      reads this
    {
      set b <- chain :: b.data
    }

    ghost function Capacities(): seq<nat>
      reads this
    {
      seq(|chain|, i requires 0 <= i < |chain| reads this => chain[i].capacity)
    }

    ghost function Extents(): seq<Extent>
      reads this, Blocks()
    {
      seq(|chain|, i requires 0 <= i < |chain| reads this, Blocks() => Extent(chain[i].capacity, chain[i].size))
    }

    /** The arena that the requests are about. */
    ghost function View(): Arena
      reads this, Blocks()
    {
      Arena(Extents(), nextBlockCapacity)
    }

    ghost predicate State()
      reads this
    {
      && Linked(head, chain)
      && nextBlockCapacity < U32_LIMIT && initial < U32_LIMIT
      && (forall i :: 0 <= i < |chain| ==> chain[i].data.Length == Room(chain[i].capacity))
      && (chain != [] ==> initial <= chain[|chain| - 1].capacity < U32_LIMIT)
      && nextBlockCapacity == Capacity(initial, |chain|) % U32_LIMIT
    }

    /** No sum has wrapped around since the arena was empty. */
    ghost predicate Valid()
      reads this, Blocks()
    {
      State() && Sound(View())
    }

    constructor (initialSize: nat)
      requires initialSize < U32_LIMIT
      ensures Valid() && chain == [] && initial == nextBlockCapacity == initialSize
    {
      head := null;
      nextBlockCapacity := initialSize;
      chain, initial := [], initialSize;
    }

    method Size() returns (total: nat)
      requires State()
      ensures total == TotalSize(chain) % U32_LIMIT
    {
      total := 0;
      var b := head;
      ghost var i: nat, sum: nat := 0, 0;
      while b != null
        invariant 0 <= i <= |chain|
        invariant b == if i < |chain| then chain[i] else null
        invariant sum + TotalSize(chain[i..]) == TotalSize(chain) && total == sum % U32_LIMIT
        decreases |chain| - i
      {
        assert chain[i..][1..] == chain[i + 1..];
        WrapAdds(sum, b.size);
        total := (total + b.size) % U32_LIMIT;
        sum := sum + b.size;
        b := b.next;
        i := i + 1;
      }
    }

    predicate CanAllocInHead(bytes: nat)
      reads this, head
    {
      head != null && (head.size + bytes) % U32_LIMIT <= head.capacity
    }

    lemma HeadIsFirst()
      requires State()
      ensures head != null ==> head in chain && forall b :: b in chain && b.data == head.data ==> b == head
    {}

    // what a change of the newest block's size does to the view
    twostate lemma HeadChanged()
      requires State() && head != null && chain == old(chain) && nextBlockCapacity == old(nextBlockCapacity)
      requires forall i :: 0 < i < |chain| ==> chain[i].size == old(chain[i].size)
      ensures View() == old(View()).(blocks := [Extent(head.capacity, head.size)] + old(View()).blocks[1..])
    {
      assert Extents() == [Extent(head.capacity, head.size)] + old(Extents())[1..];
    }

    // alignNextAlloc
    method AlignNextAlloc(ghost req: Request)
      requires State() && req.Alloc?
      modifies head
      ensures State() && View() == Prepared(old(View()), req)
    {
      if head != null {
        head.size := RoundSizeUp(head.size);
        HeadChanged();
      } else {
        assert View().blocks == [];
      }
    }

    method AllocInHead(bytes: nat) returns (p: Pointer)
      requires State() && head != null
      modifies head
      ensures State() && p == Pointer(head, old(head.size))
      ensures head.size == (old(head.size) + bytes) % U32_LIMIT
      ensures View() == old(View()).(blocks := [Extent(head.capacity, head.size)] + old(View()).blocks[1..])
    {
      p := Pointer(head, head.size);
      head.size := (head.size + bytes) % U32_LIMIT;
      HeadChanged();
    }

    // allocInHead(1) and the store of one character; the sum cannot wrap in a block that is sound
    method StoreInHead(c: byte, ghost req: Request) returns (p: Pointer)
      requires Valid() && CanAllocInHead(1) && req.Append?
      modifies head, head.data
      ensures Valid() && p == Pointer(head, old(head.size)) && p.offset < head.data.Length
      ensures head.size == old(head.size) + 1 && View() == Next(old(View()), req)
      ensures head.data[..] == old(head.data[..])[p.offset := c]
    {
      hide RoundSizeUp, Capacity, Linked, Sound, Next;
      HeadHasRoom();
      HeadTaken(req);
      p := AllocInHead(1);
      ghost var a: object := head.data;
      assert a !in Blocks();
      p.block.data[p.offset] := c;
    }

    // the view after one byte of the newest block has been taken
    lemma HeadTaken(req: Request)
      requires Valid() && CanAllocInHead(1) && req.Append?
      ensures var a := View();
        && a.blocks != [] && Next(a, req) == a.(blocks := [Extent(head.capacity, head.size + 1)] + a.blocks[1..])
        && Sound(Next(a, req))
    {
      hide RoundSizeUp, Capacity;
      HeadHasRoom();
      StepKeepsSound(View(), Request.Append(0, false));
    }

    lemma HeadHasRoom()
      requires Valid() && CanAllocInHead(1)
      ensures head.size + 1 <= head.capacity == head.data.Length < U32_LIMIT
      ensures NoWrap(View(), Request.Append(0, false))
    {
      var x := View().blocks[0];
      RoundsToNextWord(x.capacity);
    }

    // the allocator answers with a new block, or with NULL when it has no memory
    method AddNewBlock(capacity: nat, memory: bool) returns (ok: bool)
      requires Linked(head, chain)
      modifies this`head, this`chain
      ensures ok <==> memory
      ensures Linked(head, chain)
      ensures !ok ==> head == old(head) && chain == old(chain)
      ensures ok ==>
        && head != null && fresh(head) && fresh(head.data)
        && head.capacity == capacity && head.data.Length == Room(capacity) && head.size == 0
        && chain == [head] + old(chain)
    {
      ok := memory;
      if memory {
        head := new Block(capacity, head);
        chain := [head] + chain;
      }
    }

    method AllocInNewBlock(bytes: nat, memory: bool) returns (p: Option<Pointer>)
      requires State() && bytes < U32_LIMIT
      modifies this`head, this`chain, this`nextBlockCapacity
      ensures State()
      ensures p.Some? <==> memory
      ensures p == None ==> head == old(head) && chain == old(chain) && View() == old(View())
      ensures p.Some? ==>
        && head != null && fresh(head) && fresh(head.data)
        && head.capacity == Max(old(nextBlockCapacity), bytes) && head.data.Length == Room(head.capacity)
        && head.size == bytes
        && p.value == Pointer(head, 0)
        && chain == [head] + old(chain)
        && View() == Arena([Extent(head.capacity, bytes)] + old(View()).blocks, 2 * old(nextBlockCapacity) % U32_LIMIT)
    {
      hide Capacity, Room, Linked;
      var capacity := nextBlockCapacity;
      if bytes > capacity {
        capacity := bytes;
      }
      var ok := AddNewBlock(capacity, memory);
      if !ok {
        assert Extents() == old(Extents());
        return None;
      }
      NextCapacity(initial, |chain| - 1);
      CapacityStarts(initial);
      nextBlockCapacity := nextBlockCapacity * 2 % U32_LIMIT;
      var q := AllocInHead(bytes);
      p := Some(q);
      assert Extents()[1..] == old(Extents());
    }

    // the new block a string of some length moves to
    method AllocForString(length: nat, memory: bool) returns (p: Option<Pointer>)
      requires Valid() && !CanAllocInHead(1) && length + 1 < U32_LIMIT
      requires memory ==> HEADER + Max(nextBlockCapacity, length + 1) < U32_LIMIT
      modifies this`head, this`chain, this`nextBlockCapacity
      ensures Valid() && View() == Next(old(View()), Request.Append(length, memory))
      ensures p.Some? <==> memory
      ensures p == None ==> chain == old(chain)
      ensures p.Some? ==>
        && head != null && fresh(head) && fresh(head.data)
        && head.capacity == head.data.Length == Max(old(nextBlockCapacity), length + 1)
        && head.size == length + 1 && p.value == Pointer(head, 0) && chain == [head] + old(chain)
    {
      hide Linked, Capacity, RoundSizeUp;
      ghost var req := Request.Append(length, memory);
      SameGuard(req);
      StepKeepsSound(View(), req);
      p := AllocInNewBlock(length + 1, memory);
    }

    lemma SameGuard(req: Request)
      requires State() && req.Append?
      ensures CanAllocInHead(1) <==> DynamicArena.CanAllocInHead(View(), 1)
      ensures !CanAllocInHead(1) ==>
        (NoWrap(View(), req) <==> (req.memory ==> HEADER + Max(nextBlockCapacity, req.length + 1) < U32_LIMIT))
    {}

    lemma HeadIsNewest()
      requires State()
      ensures |View().blocks| == |chain| && View().next == nextBlockCapacity
      ensures head == null <==> chain == []
      ensures head != null ==> chain[0] == head && View().blocks[0] == Extent(head.capacity, head.size)
    {}

    // the request, once the newest block's size is rounded
    method AllocAligned(bytes: nat, memory: bool, ghost a: Arena) returns (p: Option<Pointer>)
      requires State() && bytes < U32_LIMIT
      requires View() == Prepared(a, Request.Alloc(bytes, memory)) && a.next == nextBlockCapacity
      modifies this`head, this`chain, this`nextBlockCapacity, head
      ensures State() && View() == Next(a, Request.Alloc(bytes, memory))
      ensures var r := Granted(a, Request.Alloc(bytes, memory));
        && (p == None <==> r == None)
        && (p.Some? ==>
              && r.value.block + 1 == |chain|
              && p.value == Pointer(chain[0], r.value.start) && r.value.capacity == chain[0].capacity)
    {
      hide RoundSizeUp, Prepared, Linked, Capacity, Sound;
      HeadIsNewest();
      if CanAllocInHead(bytes) {
        var q := AllocInHead(bytes);
        p := Some(q);
      } else {
        p := AllocInNewBlock(bytes, memory);
      }
      HeadIsNewest();
    }

    /** The region that the request is granted, as a pointer, or NULL; if no sum wraps the arena stays valid. */
    method Alloc(bytes: nat, memory: bool) returns (p: Option<Pointer>)
      requires State() && bytes < U32_LIMIT
      modifies this`head, this`chain, this`nextBlockCapacity, head
      ensures State() && View() == Next(old(View()), Request.Alloc(bytes, memory))
      ensures old(Valid()) && NoWrap(old(View()), Request.Alloc(bytes, memory)) ==> Valid()
      ensures var r := Granted(old(View()), Request.Alloc(bytes, memory));
        && (p == None <==> r == None)
        && (p.Some? ==>
              && r.value.block + 1 == |chain|
              && p.value == Pointer(chain[0], r.value.start) && r.value.capacity == chain[0].capacity)
    {
      hide RoundSizeUp, Next, Granted, NoWrap, Sound, Linked, Capacity;
      ghost var req := Request.Alloc(bytes, memory);
      ghost var a := View();
      if Valid() && NoWrap(a, req) {
        StepKeepsSound(a, req);
      }
      AlignNextAlloc(req);
      p := AllocAligned(bytes, memory, a);
    }

    /** Frees every block; the next block will be as large as the oldest one was. */
    method Clear()
      requires State()
      modifies this
      ensures Valid() && chain == []
      ensures nextBlockCapacity == if old(chain) == [] then old(nextBlockCapacity)
                                   else old(chain)[|old(chain)| - 1].capacity
      ensures old(chain) != [] ==> old(initial) <= nextBlockCapacity
    {
      var currentBlock := head;
      ghost var i := 0;
      while currentBlock != null
        invariant chain == old(chain) && 0 <= i <= |chain|
        invariant currentBlock == if i < |chain| then chain[i] else null
        invariant nextBlockCapacity == if i == 0 then old(nextBlockCapacity) else chain[i - 1].capacity
        decreases |chain| - i
      {
        nextBlockCapacity := currentBlock.capacity;
        currentBlock := currentBlock.next;
        i := i + 1;
      }
      head := null;
      chain, initial := [], nextBlockCapacity;
    }
  }

  lemma WrapAdds(a: nat, b: nat)
    ensures (a % U32_LIMIT + b) % U32_LIMIT == (a + b) % U32_LIMIT
  {}

  lemma NextCapacity(c: nat, k: nat)
    ensures Capacity(c, k + 1) % U32_LIMIT == 2 * (Capacity(c, k) % U32_LIMIT) % U32_LIMIT
  {
    hide Capacity;
    WrapDoubles(Capacity(c, k));
    CapacityDoubles(c, k);
  }

  lemma CapacityStarts(c: nat)
    ensures Capacity(c, 0) == c
  {}

  lemma CapacityDoubles(c: nat, k: nat)
    ensures Capacity(c, k + 1) == 2 * Capacity(c, k)
  {}

  lemma WrapDoubles(a: nat)
    ensures 2 * (a % U32_LIMIT) % U32_LIMIT == 2 * a % U32_LIMIT
  {}

  // the used part of a block ends with the text
  predicate EndsAt(data: seq<byte>, start: nat, size: nat, text: seq<byte>) {
    start + |text| == size <= |data| && data[start..size] == text
  }

  lemma Extends(data: seq<byte>, start: nat, size: nat, text: seq<byte>, c: byte)
    requires EndsAt(data, start, size, text) && size < |data|
    ensures EndsAt(data[size := c], start, size + 1, text + [c])
  {
    assert data[size := c][start..size] == data[start..size];
  }

  lemma Moved(data: seq<byte>, start: nat, size: nat, text: seq<byte>, moved: seq<byte>)
    requires EndsAt(data, start, size, text) && |text| <= |moved|
    requires forall k :: 0 <= k < |text| ==> moved[k] == data[start + k]
    ensures EndsAt(moved, 0, |text|, text)
  {
    assert forall k :: 0 <= k < |text| ==> data[start..size][k] == data[start + k];
  }

  /**
    * A string of some length built from an empty arena: the capacities of the blocks, newest first, double from
    * the initial size, each full block was copied once, and the newest block is there because it was needed.
    */
  predicate Doubling(initial: nat, capacities: seq<nat>, length: nat, copied: nat) {
    && initial >= 1
    && (forall i :: 0 <= i < |capacities| ==> capacities[i] == Capacity(initial, |capacities| - 1 - i))
    && (capacities == [] ==> length == 0 && copied == 0)
    && (capacities != [] ==>
          && length <= capacities[0]
          && copied + initial == capacities[0]
          && (|capacities| >= 2 ==> length > capacities[1]))
  }

  lemma NewBlockDoubles(initial: nat, capacities: seq<nat>, length: nat, copied: nat)
    requires Doubling(initial, capacities, length, copied)
    requires capacities != [] ==> length == capacities[0]
    ensures var newest := Max(Capacity(initial, |capacities|), length + 1);
      Doubling(initial, [newest] + capacities, length + 1, copied + length)
  {
    CapacityGrows(initial, |capacities|);
  }

  lemma StillRoom(initial: nat, capacities: seq<nat>, length: nat, copied: nat)
    requires Doubling(initial, capacities, length, copied) && capacities != [] && length < capacities[0]
    ensures Doubling(initial, capacities, length + 1, copied)
  {}

  lemma CapacityGrows(initial: nat, k: nat)
    ensures Capacity(initial, k) >= initial
  {}

  /** Building a string moves fewer than twice as many bytes as it has. */
  lemma CopiesAreFew(initial: nat, capacities: seq<nat>, length: nat, copied: nat)
    requires Doubling(initial, capacities, length, copied) && length > 0
    ensures copied < 2 * length
  {
    if |capacities| >= 2 {
      assert capacities[0] == 2 * capacities[1];
    }
  }

  /** The string builder. The ghost fields are what was appended, and how many bytes were moved. */
  class StringBuilder {
    const parent: DynamicJsonBufferBase
    var start: Option<Pointer>
    var length: nat
    ghost var text: seq<byte>
    ghost var copied: nat

    constructor (parent: DynamicJsonBufferBase)
      requires parent.Valid()
      ensures this.parent == parent && text == [] && copied == 0 && length == 0
      ensures Undisturbed()
      ensures parent.chain == [] && parent.initial >= 1 ==> Alone()
    {
      this.parent := parent;
      start, length := None, 0;
      text, copied := [], 0;
      new;
      assert parent.Extents() == old(parent.Extents());
      assert parent.chain == [] ==> parent.Capacities() == [] && Doubling(parent.initial, [], 0, 0) == (parent.initial >= 1);
    }

    /** Nothing else was allocated since the builder was started: the string is the end of the newest block. */
    ghost predicate Undisturbed()
      reads this, parent, parent.Blocks(), parent.Arrays()
    {
      && parent.Valid()
      && length == |text|
      && (text == [] ==> start == None)
      && (text != [] ==>
            && start.Some? && start.value.block == parent.head
            && EndsAt(parent.head.data[..], start.value.offset, parent.head.size, text))
    }

    /** The builder was started on an empty arena and is its only user. */
    ghost predicate Alone()
      reads this, parent, parent.Blocks(), parent.Arrays()
    {
      && Undisturbed()
      && (text != [] ==> start == Some(Pointer(parent.head, 0)))
      && (text == [] ==> parent.chain == [])
      && Doubling(parent.initial, parent.Capacities(), |text|, copied)
    }

    // the capacity of the next block is not a wrapped one
    ghost predicate CanDouble()
      reads this, parent
    {
      Capacity(parent.initial, |parent.chain|) < U32_LIMIT
    }

    lemma OneMore()
      requires Alone() && CanDouble()
      ensures parent.CanAllocInHead(1) ==>
        text != [] && Doubling(parent.initial, parent.Capacities(), length + 1, copied)
      ensures !parent.CanAllocInHead(1) ==>
        Doubling(parent.initial, [Max(parent.nextBlockCapacity, length + 1)] + parent.Capacities(),
                 length + 1, copied + length)
    {
      hide Doubling, Capacity, EndsAt, Sound, RoundSizeUp, Linked;
      NextIsCapacity();
      HeadIsFull();
      if !parent.CanAllocInHead(1) {
        NewBlockDoubles(parent.initial, parent.Capacities(), length, copied);
      } else {
        parent.HeadHasRoom();
        StillRoom(parent.initial, parent.Capacities(), length, copied);
      }
    }

    lemma NextIsCapacity()
      requires Alone() && CanDouble()
      ensures parent.nextBlockCapacity == Capacity(parent.initial, |parent.chain|)
      ensures parent.CanAllocInHead(1) ==> text != []
      ensures text != [] ==>
        && parent.head.size == length
        && parent.Capacities() != [] && parent.Capacities()[0] == parent.head.capacity
      ensures text == [] ==> parent.Capacities() == []
    {
      hide Doubling, Capacity, Sound, RoundSizeUp;
    }

    lemma HeadIsFull()
      requires Undisturbed()
      ensures text != [] ==> parent.head.size <= parent.head.capacity == parent.head.data.Length
      ensures text != [] && !parent.CanAllocInHead(1) ==> parent.head.size == parent.head.capacity
      ensures length + 1 < U32_LIMIT
    {
      if text != [] {
        var x := parent.View().blocks[0];
        assert x == Extent(parent.head.capacity, parent.head.size);
        assert HEADER + x.capacity < U32_LIMIT;
      }
    }

    /** One more character. The guard is that a new block, if one is needed, can be asked for without wrap-around. */
    method Append(c: byte, memory: bool)
      requires Undisturbed() && NoWrap(parent.View(), Request.Append(length, memory))
      modifies this, parent`head, parent`chain, parent`nextBlockCapacity
      modifies parent.head, if parent.head == null then {} else {parent.head.data}
      ensures parent.Valid() && text == old(text) + [c] && length == old(length) + 1
      ensures parent.View() == Next(old(parent.View()), Request.Append(old(length), memory))
      ensures memory || old(parent.CanAllocInHead(1)) ==> Undisturbed()
      ensures !memory && !old(parent.CanAllocInHead(1)) ==> start == None && parent.chain == old(parent.chain)
      ensures KeepsContents()
      ensures old(Alone() && CanDouble()) && memory ==> Alone()
    {
      hide Doubling, Capacity, EndsAt, KeepsContents, Linked, Sound, Room;
      ghost var capacities, alone := parent.Capacities(), Alone() && CanDouble();
      ghost var req := Request.Append(length, memory);
      parent.SameGuard(req);
      if alone {
        OneMore();
      }
      if parent.CanAllocInHead(1) {
        AppendInHead(c, req);
        assert parent.Capacities() == capacities;
      } else {
        AppendInNewBlock(c, memory);
        assert memory ==> parent.Capacities() == [parent.head.capacity] + capacities;
      }
    }

    /** The pointer to the string: every appended character and a NUL, however many blocks it crossed. */
    method CStr(memory: bool) returns (p: Option<Pointer>)
      requires Undisturbed() && NoWrap(parent.View(), Request.Append(length, memory))
      modifies this, parent`head, parent`chain, parent`nextBlockCapacity
      modifies parent.head, if parent.head == null then {} else {parent.head.data}
      ensures parent.Valid() && text == old(text) + [0]
      ensures parent.View() == Next(old(parent.View()), Request.Append(old(length), memory))
      ensures p.Some? <==> memory || old(parent.CanAllocInHead(1))
      ensures p.Some? ==>
        && Undisturbed()
        && EndsAt(p.value.block.data[..], p.value.offset, p.value.offset + |text|, old(text) + [0])
      ensures KeepsContents()
      ensures old(Alone() && CanDouble()) && memory ==> Alone() && copied < 2 * |text|
    {
      ghost var alone := Alone() && CanDouble();
      Append(0, memory);
      p := start;
      if alone && memory {
        CopiesAreFew(parent.initial, parent.Capacities(), |text|, copied);
      }
    }

    // the text is the end of the newest block, and there is room behind it
    lemma HeadText()
      requires Undisturbed() && parent.CanAllocInHead(1)
      ensures parent.head.size < parent.head.data.Length
      ensures EndsAt(parent.head.data[..], if text == [] then parent.head.size else start.value.offset,
                     parent.head.size, text)
    {
      parent.HeadHasRoom();
    }

    method AppendInHead(c: byte, ghost req: Request)
      requires Undisturbed() && parent.CanAllocInHead(1) && req.Append?
      modifies this, parent.head, parent.head.data
      ensures text == old(text) + [c] && length == old(length) + 1
      ensures Undisturbed() && parent.View() == Next(old(parent.View()), req)
      ensures start == if old(text) == [] then Some(Pointer(parent.head, old(parent.head.size))) else old(start)
      ensures copied == old(copied)
      ensures KeepsContents()
    {
      hide DynamicJsonBufferBase.State, DynamicJsonBufferBase.View, Sound, Capacity, EndsAt, Next;
      parent.HeadIsFirst();
      HeadText();
      ghost var from := if text == [] then parent.head.size else start.value.offset;
      Extends(parent.head.data[..], from, parent.head.size, text, c);
      var end := parent.StoreInHead(c, req);
      ghost var me: object := this;
      assert me !in parent.Blocks();
      hide DynamicJsonBufferBase.Blocks;
      if length == 0 {
        start := Some(end);
      }
      text := text + [c];
      length := length + 1;
    }

    lemma OldText()
      requires Undisturbed()
      ensures text != [] ==>
        && start.value.block == parent.head && start.value.offset + length == parent.head.size
        && EndsAt(parent.head.data[..], start.value.offset, start.value.offset + length, text)
      ensures text == [] ==> EndsAt([], 0, 0, text)
    {}

    method AppendInNewBlock(c: byte, memory: bool)
      requires Undisturbed() && !parent.CanAllocInHead(1) && NoWrap(parent.View(), Request.Append(length, memory))
      modifies this, parent`head, parent`chain, parent`nextBlockCapacity
      ensures parent.Valid()
      ensures text == old(text) + [c] && length == old(length) + 1
      ensures parent.View() == Next(old(parent.View()), Request.Append(old(length), memory))
      ensures memory ==> Undisturbed()
      ensures memory ==>
        && parent.head != null && start == Some(Pointer(parent.head, 0))
        && parent.chain == [parent.head] + old(parent.chain)
        && parent.head.capacity == Max(old(parent.nextBlockCapacity), old(length) + 1)
        && copied == old(copied) + old(length)
      ensures !memory ==> start == None && parent.chain == old(parent.chain)
      ensures KeepsContents()
    {
      hide DynamicJsonBufferBase.State, DynamicJsonBufferBase.View, Sound, Capacity, EndsAt, Next, NoWrap;
      HeadIsFull();
      OldText();
      parent.SameGuard(Request.Append(length, memory));
      var newStart := parent.AllocForString(length, memory);
      ghost var me: object := this;
      assert me !in parent.Blocks();
      if newStart.Some? {
        ghost var target: object := newStart.value.block.data;
        assert target !in parent.Blocks();
        hide DynamicJsonBufferBase.Blocks;
        copied := if start.Some? then copied + length else copied;
        Move(newStart.value, start, length, c, text);
      }
      start := newStart;
      text := text + [c];
      length := length + 1;
    }

    /** Every earlier allocation keeps its bytes. */
    twostate predicate KeepsContents()
      reads this, parent, parent.Blocks(), parent.Arrays()
    {
      forall b, k :: b in old(parent.chain) && 0 <= k < b.data.Length && k < old(b.size) ==>
        b in parent.chain && b.data[k] == old(b.data[k])
    }
  }

  method MemCpy(to: Pointer, from: Pointer, n: nat)
    requires to.offset + n <= to.block.data.Length && from.offset + n <= from.block.data.Length
    requires to.block.data != from.block.data
    modifies to.block.data
    ensures forall k :: 0 <= k < to.block.data.Length ==>
      to.block.data[k] == if to.offset <= k < to.offset + n then from.block.data[from.offset + (k - to.offset)]
                          else old(to.block.data[k])
  {
    forall i | 0 <= i < n {
      to.block.data[to.offset + i] := from.block.data[from.offset + i];
    }
  }

  /** Copies the string so far, if there is one, to the start of a new block, and appends a character. */
  method Move(newStart: Pointer, start: Option<Pointer>, length: nat, c: byte, ghost text: seq<byte>)
    requires newStart.offset == 0 && length < newStart.block.data.Length && length == |text|
    requires start == None ==> text == []
    requires start.Some? ==>
      && start.value.block.data != newStart.block.data
      && EndsAt(start.value.block.data[..], start.value.offset, start.value.offset + length, text)
    modifies newStart.block.data
    ensures EndsAt(newStart.block.data[..], 0, length + 1, text + [c])
  {
    if start.Some? {
      ghost var was := start.value.block.data[..];
      MemCpy(newStart, start.value, length);
      Moved(was, start.value.offset, start.value.offset + length, text, newStart.block.data[..]);
    }
    Extends(newStart.block.data[..], 0, length, text, c);
    newStart.block.data[length] := c;
  }
}
