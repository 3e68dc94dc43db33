/** An in-memory binary file with a position, as io.BytesIO gives it. */
module MemoryFile {
  import opened Bytes

  // writing past the end fills the gap with zeros; writing nothing changes nothing
  function WriteAt(data: seq<byte>, pos: nat, b: seq<byte>): seq<byte> {
    if b == [] then data
    else
      var d := if pos > |data| then data + Zeros(pos - |data|) else data;
      d[..pos] + b + (if pos + |b| < |d| then d[pos + |b|..] else [])
  }

  // f.read(n) at position pos
  function ReadAt(data: seq<byte>, pos: nat, n: nat): (r: seq<byte>)
    ensures |r| <= n
  {
    if pos >= |data| then [] else data[pos..Min(pos + n, |data|)]
  }

  // where align_file_position(f, size) leaves the position: on the last byte of a block
  function AlignPosition(pos: nat, size: nat): (r: nat)
    requires size > 0
    ensures r >= pos
  {
    pos + (size - 1 - pos % size)
  }

  /** The position is the last byte of the block that the old position is in. */
  lemma AlignsToLastByte(pos: nat, size: nat)
    requires size > 0
    ensures var r := AlignPosition(pos, size);
      pos <= r < pos + size && (r + 1) % size == 0
  {
    NextBlock(pos / size, pos % size, size);
    assert pos / size * size + pos % size == pos;
    NoRest(pos / size + 1, size);
  }

  lemma NextBlock(q: int, r: int, size: int)
    ensures q * size + r + (size - 1 - r) + 1 == (q + 1) * size
  {}

  lemma NoRest(k: nat, size: nat)
    requires size > 0
    ensures k * size % size == 0
  {
    Scales(k - k * size / size, size);
  }

  lemma Scales(d: int, size: int)
    requires size > 0
    ensures d >= 1 ==> d * size >= size
    ensures d <= -1 ==> d * size <= -size
  {}

  class File {
    var data: seq<byte>
    var pos: nat

    constructor (data: seq<byte>)
      ensures this.data == data && pos == 0
    {
      this.data := data;
      pos := 0;
    }

    method Write(b: seq<byte>)
      modifies this
      ensures data == WriteAt(old(data), old(pos), b) && pos == old(pos) + |b|
    {
      data := WriteAt(data, pos, b);
      pos := pos + |b|;
    }

    method Read(n: nat) returns (b: seq<byte>)
      modifies this`pos
      ensures b == ReadAt(data, old(pos), n) && pos == old(pos) + |b|
    {
      b := ReadAt(data, pos, n);
      pos := pos + |b|;
    }

    method Seek(p: nat)
      modifies this`pos
      ensures pos == p
    {
      pos := p;
    }

    method Align(size: nat)
      requires size > 0
      modifies this`pos
      ensures pos == AlignPosition(old(pos), size)
    {
      pos := pos + (size - 1 - pos % size);
    }
  }
}
