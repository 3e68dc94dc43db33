/** The Arduino core's String: a NUL-terminated buffer changed in place by replace. */
module ArduinoString {
  import opened ArduinoText
  import opened Bytes
  import opened GrowingReplace

  // the bytes t stored at an index
  function Overwrite(s: seq<byte>, at: nat, t: seq<byte>): (r: seq<byte>)
    requires at + |t| <= |s|
    ensures |r| == |s|
  {
    s[..at] + t + s[at + |t|..]
  }

  // an index in the rest of a buffer, as an index in the buffer
  function After(from: nat, i: Option<nat>): Option<nat> {
    if i == None then None else Some(from + i.value)
  }

  // memcpy and strcpy towards lower addresses, byte by byte in address order
  method CopyDown(a: array<byte>, to: nat, from: nat, n: nat)
    requires to <= from && from + n <= a.Length
    modifies a
    ensures a[..] == Overwrite(old(a[..]), to, old(a[from..from + n]))
  {
    hide Overwrite;
    ghost var was := a[..];
    OverwriteNothing(was, to, from);
    for i := 0 to n
      invariant a[..] == Overwrite(was, to, was[from..from + i])
    {
      OverwriteOne(was, to, from, i);
      assert a[..][from + i] == was[from + i];
      a[to + i] := a[from + i];
    }
  }

  lemma OverwriteNothing(s: seq<byte>, to: nat, from: nat)
    requires to <= from <= |s|
    ensures Overwrite(s, to, s[from..from]) == s
  {}

  // copying one byte more, from a place that is not overwritten yet
  lemma OverwriteOne(s: seq<byte>, to: nat, from: nat, i: nat)
    requires to <= from && from + i < |s|
    ensures var t := Overwrite(s, to, s[from..from + i]);
      t[from + i] == s[from + i] && t[to + i := t[from + i]] == Overwrite(s, to, s[from..from + i + 1])
  {
    assert s[from..from + i + 1] == s[from..from + i] + [s[from + i]];
  }

  // memmove towards higher addresses
  method MoveUp(a: array<byte>, to: nat, from: nat, n: nat)
    requires from <= to && to + n <= a.Length
    modifies a
    ensures a[..] == Overwrite(old(a[..]), to, old(a[from..from + n]))
  {
    forall i | 0 <= i < n {
      a[to + i] := a[from + i];
    }
  }

  // memcpy from another string
  method Paste(a: array<byte>, at: nat, s: seq<byte>)
    requires at + |s| <= a.Length
    modifies a
    ensures a[..] == Overwrite(old(a[..]), at, s)
  {
    forall i | 0 <= i < |s| {
      a[at + i] := s[i];
    }
  }

  lemma NotBeyondTheEnd(s: seq<byte>, f: seq<byte>)
    ensures forall k: nat :: k + |f| > |s| ==> !OccursAt(s, f, k)
  {}

  // -------- one step of each loop of replace, on sequences --------

  lemma NextOccurrence(done: seq<byte>, s: seq<byte>, from: nat, f: seq<byte>, r: seq<byte>, i: nat)
    requires f != [] && from <= |s| && done + ReplaceAll(s[from..], f, r) == ReplaceAll(s, f, r)
    requires Find(s[from..], f) == Some(i)
    ensures from + i + |f| <= |s|
    ensures (done + s[from..from + i] + r) + ReplaceAll(s[from + i + |f|..], f, r) == ReplaceAll(s, f, r)
  {
    hide ReplaceAll, OccursAt, Find, FirstAt;
    FindIsFirst(s[from..], f);
    ReplaceFirst(s[from..], f, r, i);
    assert s[from..][..i] == s[from..from + i];
    assert s[from..][i + |f|..] == s[from + i + |f|..];
    var rest := ReplaceAll(s[from + i + |f|..], f, r);
    assert done + (s[from..from + i] + r + rest) == (done + s[from..from + i] + r) + rest;
  }

  lemma NextLength(s: seq<byte>, from: nat, f: seq<byte>, r: seq<byte>, i: nat)
    requires f != [] && from <= |s| && Find(s[from..], f) == Some(i)
    ensures from + i + |f| <= |s|
    ensures |ReplaceAll(s[from..], f, r)| == i + |r| + |ReplaceAll(s[from + i + |f|..], f, r)|
  {
    hide ReplaceAll, OccursAt, Find, FirstAt;
    FindIsFirst(s[from..], f);
    ReplaceFirst(s[from..], f, r, i);
    assert s[from..][i + |f|..] == s[from + i + |f|..];
  }

  /**
    * The state of both in-place loops: what is written is the replacement of what was read, and what is still to be
    * read, with its NUL, has not been touched.
    */
  ghost predicate Progress(data: seq<byte>, writeTo: nat, s: seq<byte>, readFrom: nat, f: seq<byte>, r: seq<byte>)
    requires f != []
  {
    && writeTo <= readFrom <= |s| < |data|
    && data[readFrom..|s| + 1] == s[readFrom..] + [0]
    && data[..writeTo] + ReplaceAll(s[readFrom..], f, r) == ReplaceAll(s, f, r)
  }

  lemma Unread(data: seq<byte>, writeTo: nat, s: seq<byte>, readFrom: nat, f: seq<byte>, r: seq<byte>)
    requires f != [] && NulFree(s) && Progress(data, writeTo, s, readFrom, f, r)
    ensures CString(data[readFrom..]) == s[readFrom..]
  {
    var rest := data[readFrom..];
    var n := |s| - readFrom;
    assert rest[..n + 1] == s[readFrom..] + [0];
    assert rest[..n] == rest[..n + 1][..n] == s[readFrom..];
    assert rest[n] == rest[..n + 1][n] == 0;
    CStringEnds(rest, n);
  }

  lemma Begin(data: seq<byte>, s: seq<byte>, f: seq<byte>, r: seq<byte>)
    requires f != [] && NulFree(s) && |s| < |data| && data[..|s|] == s && data[|s|] == 0
    ensures Progress(data, 0, s, 0, f, r) && s[0..] == s && data[0..] == data && CString(data) == s
  {
    hide ReplaceAll, CString, NulFree;
    assert s[0..] == s && data[0..] == data;
    assert data[0..|s| + 1] == s[0..] + [0];
    assert data[..0] + ReplaceAll(s, f, r) == ReplaceAll(s, f, r);
    Unread(data, 0, s, 0, f, r);
  }

  lemma CopyGap(data: seq<byte>, to: nat, from: nat, n: nat)
    requires to <= from && from + n <= |data|
    ensures var copied := Overwrite(data, to, data[from..from + n]);
      copied[..to + n] == data[..to] + data[from..from + n] && copied[from + n..] == data[from + n..]
  {}

  lemma PasteNext(data: seq<byte>, at: nat, t: seq<byte>, from: nat)
    requires at + |t| <= from <= |data|
    ensures var pasted := Overwrite(data, at, t);
      pasted[..at + |t|] == data[..at] + t && pasted[from..] == data[from..]
  {}

  lemma Shorten(data: seq<byte>, lo: nat, k: nat, hi: nat, t: seq<byte>)
    requires lo + k <= hi <= |data| && data[lo..hi] == t
    ensures data[lo..lo + k] == t[..k] && data[lo + k..hi] == t[k..]
  {}

  lemma SameTail(a: seq<byte>, b: seq<byte>, from: nat, lo: nat, hi: nat)
    requires |a| == |b| && from <= lo <= hi <= |a| && a[from..] == b[from..]
    ensures a[lo..hi] == b[lo..hi]
  {
    forall k | lo <= k < hi ensures a[k] == b[k] {
      assert a[k] == a[from..][k - from] && b[k] == b[from..][k - from];
    }
  }

  // the bytes after a turn of either loop: move the gap down, write the replacement after it
  function Turn(data: seq<byte>, writeTo: nat, from: nat, i: nat, r: seq<byte>): (t: seq<byte>)
    requires writeTo <= from && from + i <= |data| && writeTo + i + |r| <= |data|
    ensures |t| == |data|
  {
    Overwrite(Overwrite(data, writeTo, data[from..from + i]), writeTo + i, r)
  }

  lemma TurnIs(data: seq<byte>, writeTo: nat, from: nat, i: nat, r: seq<byte>)
    requires writeTo <= from && from + i <= |data| && writeTo + i + |r| <= |data|
    ensures Turn(data, writeTo, from, i, r)
      == Overwrite(Overwrite(data, writeTo, data[from..from + i]), writeTo + i, r)
  {}

  lemma TurnWrites(data: seq<byte>, writeTo: nat, from: nat, i: nat, r: seq<byte>, next: nat)
    requires writeTo <= from && writeTo + i + |r| <= next && from + i <= next <= |data|
    ensures var turned := Turn(data, writeTo, from, i, r);
      && turned[..writeTo + i + |r|] == data[..writeTo] + data[from..from + i] + r
      && turned[next..] == data[next..]
  {
    var moved := Overwrite(data, writeTo, data[from..from + i]);
    CopyGap(data, writeTo, from, i);
    PasteNext(moved, writeTo + i, r, next);
    hide Overwrite;
    SameTail(moved, data, from + i, next, |data|);
  }

  lemma ReplaceStep(data: seq<byte>, writeTo: nat, s: seq<byte>, readFrom: nat, f: seq<byte>, r: seq<byte>, i: nat)
    requires f != [] && Progress(data, writeTo, s, readFrom, f, r) && |r| <= |f|
    requires Find(s[readFrom..], f) == Some(i)
    ensures readFrom + i + |f| <= |s|
    ensures Progress(Turn(data, writeTo, readFrom, i, r), writeTo + i + |r|, s, readFrom + i + |f|, f, r)
  {
    hide Turn, ReplaceAll, Find, FindFrom, OccursAt;
    NextOccurrence(data[..writeTo], s, readFrom, f, r, i);
    var next := readFrom + i + |f|;
    TurnWrites(data, writeTo, readFrom, i, r, next);
    LeftUnread(data, Turn(data, writeTo, readFrom, i, r), s, readFrom, i, next);
  }

  lemma LeftUnread(data: seq<byte>, turned: seq<byte>, s: seq<byte>, from: nat, i: nat, next: nat)
    requires from + i <= next <= |s| < |data| == |turned| && turned[next..] == data[next..]
    requires data[from..|s| + 1] == s[from..] + [0]
    ensures data[from..from + i] == s[from..from + i]
    ensures turned[next..|s| + 1] == s[next..] + [0]
  {
    var left := s[from..] + [0];
    Shorten(data, from, i, |s| + 1, left);
    assert left[..i] == s[from..from + i];
    SameTail(turned, data, next, next, |s| + 1);
    Shorten(data, from, next - from, |s| + 1, left);
    assert left[next - from..] == s[next..] + [0];
  }

  // equal lengths: the gap is where it belongs already
  lemma NothingToMove(data: seq<byte>, from: nat, i: nat, r: seq<byte>)
    requires from + i + |r| <= |data|
    ensures Turn(data, from, from, i, r) == Overwrite(data, from + i, r)
  {
    NothingLeft(data, from, i);
  }

  lemma NothingLeft(data: seq<byte>, from: nat, n: nat)
    requires from + n <= |data|
    ensures Overwrite(data, from, data[from..from + n]) == data
  {}

  // strcpy of what is left finishes the text
  lemma ReplaceEnd(data: seq<byte>, writeTo: nat, s: seq<byte>, readFrom: nat, f: seq<byte>, r: seq<byte>)
    requires f != [] && Progress(data, writeTo, s, readFrom, f, r)
    requires Find(s[readFrom..], f) == None
    ensures var m := writeTo + (|s| - readFrom);
      var final := Overwrite(data, writeTo, data[readFrom..|s| + 1]);
      final[..m] == ReplaceAll(s, f, r) && final[m] == 0
  {
    ReplaceNothing(s[readFrom..], f, r);
    hide Overwrite, ReplaceAll, Find, FindFrom, OccursAt;
    var n := |s| - readFrom;
    CopyGap(data, writeTo, readFrom, n + 1);
    var final := Overwrite(data, writeTo, data[readFrom..|s| + 1]);
    assert final[..writeTo + n + 1] == data[..writeTo] + (s[readFrom..] + [0]);
    assert final[..writeTo + n] == final[..writeTo + n + 1][..writeTo + n];
    assert final[writeTo + n] == final[..writeTo + n + 1][writeTo + n];
  }

  // making room, terminating and filling in
  lemma InsertedText(data: seq<byte>, len: nat, readFrom: nat, diff: nat, index: nat, r: seq<byte>)
    requires index <= readFrom <= len && len + diff < |data| && index + |r| == readFrom + diff
    ensures var moved := Overwrite(data, readFrom + diff, data[readFrom..len]);
      var final := Overwrite(moved[len + diff := 0], index, r);
      && final[..len + diff] == data[..index] + r + data[readFrom..len]
      && final[len + diff] == 0
  {}

  lemma StillNulFree(s: seq<byte>, i: nat, j: nat, r: seq<byte>)
    requires i <= j <= |s| && NulFree(s) && NulFree(r)
    ensures NulFree(s[..i] + r + s[j..])
  {}

  lemma {:induction false} ReplaceNulFree(s: seq<byte>, f: seq<byte>, r: seq<byte>)
    requires f != [] && NulFree(s) && NulFree(r)
    ensures NulFree(ReplaceAll(s, f, r))
    decreases |s|
  {
    if s != [] {
      if OccursAt(s, f, 0) {
        ReplaceNulFree(s[|f|..], f, r);
      } else {
        ReplaceNulFree(s[1..], f, r);
      }
    }
  }

  class String {
    var buffer: array?<byte>
    var capacity: nat
    var len: nat

    ghost predicate Valid()
      reads this, buffer
    {
      && (buffer == null ==> capacity == 0 && len == 0)
      && (buffer != null ==>
            && buffer.Length == capacity + 1 && len <= capacity
            && buffer[len] == 0 && NulFree(buffer[..len]))
    }

    ghost function Contents(): seq<byte>
      requires Valid()
      reads this, buffer
    {
      if buffer == null then [] else buffer[..len]
    }

    constructor ()
      ensures Valid() && Contents() == []
    {
      buffer, capacity, len := null, 0, 0;
    }

    // from a C string; without memory the new string stays empty
    constructor FromText(cstr: seq<byte>, memory: bool, junk: byte)
      requires NulFree(cstr)
      ensures Valid() && (buffer != null ==> fresh(buffer))
      ensures Contents() == if memory then cstr else []
      ensures memory ==> capacity == Room(|cstr|)
    {
      buffer, capacity, len := null, 0, 0;
      new;
      var ok := Copy(cstr, memory, junk);
    }

    /**
      * realloc to a multiple of sixteen bytes. What realloc leaves in new memory is a parameter, and so is whether
      * there is memory.
      */
    method ChangeBuffer(maxStrLen: nat, memory: bool, junk: byte) returns (ok: bool)
      requires Valid()
      modifies this
      ensures Valid() && (ok <==> memory)
      ensures !ok ==> buffer == old(buffer) && capacity == old(capacity) && len == old(len)
      ensures ok ==>
        && buffer != null && fresh(buffer)
        && capacity == Room(maxStrLen)
        && len == Min(old(len), capacity) && Contents() == old(Contents())[..len]
    {
      ok := memory;
      if memory {
        var newSize := (maxStrLen + 16) / 16 * 16 - 1;
        var newBuffer := new byte[newSize + 1];
        var b := buffer;
        var kept := if b == null then 0 else Min(b.Length, newBuffer.Length);
        forall i | 0 <= i < newBuffer.Length {
          newBuffer[i] := if i < kept then b[i] else junk;
        }
        if newSize > len {
          if newSize > capacity {
            forall i | capacity <= i < newSize {
              newBuffer[i] := 0;
            }
          }
        } else {
          newBuffer[newSize] := 0;
          len := newSize;
        }
        capacity := newSize;
        buffer := newBuffer;
        assert buffer[..len] == old(Contents())[..len];
      }
    }

    method Reserve(size: nat, memory: bool, junk: byte) returns (ok: bool)
      requires Valid()
      modifies this
      ensures Valid() && Contents() == old(Contents())
      ensures ok ==> buffer != null && size <= capacity
      ensures ok <==> memory || (old(buffer) != null && old(capacity) >= size)
      ensures if ok && !(old(buffer) != null && old(capacity) >= size) then fresh(buffer) && capacity == Room(size)
        else buffer == old(buffer) && capacity == old(capacity)
    {
      if buffer != null && capacity >= size {
        return true;
      }
      ok := ChangeBuffer(size, memory, junk);
      if ok {
        if len == 0 {
          buffer[0] := 0;
        }
      }
    }

    // reserve and strcpy; without memory the string is emptied
    method Copy(cstr: seq<byte>, memory: bool, junk: byte) returns (ok: bool)
      requires Valid() && NulFree(cstr)
      modifies this, buffer
      ensures Valid() && (ok <==> memory || (old(buffer) != null && old(capacity) >= |cstr|))
      ensures Contents() == if ok then cstr else []
      ensures ok && old(buffer) != null && old(capacity) >= |cstr| ==> buffer == old(buffer) && capacity == old(capacity)
      ensures ok && !(old(buffer) != null && old(capacity) >= |cstr|) ==> fresh(buffer) && capacity == Room(|cstr|)
      ensures !ok ==> buffer == null
    {
      ok := Reserve(|cstr|, memory, junk);
      if !ok {
        buffer, capacity, len := null, 0, 0;
        return;
      }
      len := |cstr|;
      Paste(buffer, 0, cstr + [0]);
      assert buffer[..][..len] == cstr;
    }

    // strstr(buffer + from, find): the first occurrence at or after from
    method StrStr(from: nat, find: seq<byte>) returns (at: Option<nat>)
      requires buffer != null && from < buffer.Length
      ensures at == After(from, Find(CString(buffer[from..]), find))
    {
      at := After(from, Find(CString(buffer[from..]), find));
    }

    // the last occurrence that starts at or before an index, or -1
    method LastIndexOf(s2: seq<byte>, fromIndex: nat) returns (found: int)
      requires Valid() && NulFree(s2)
      ensures -1 <= found < len
      ensures found == if s2 == [] then -1 else LastAt(Contents(), s2, fromIndex)
    {
      hide OccursAt, Find, CString, LastAt;
      NotBeyondTheEnd(Contents(), s2);
      if |s2| == 0 || len == 0 || |s2| > len {
        return -1;
      }
      var last := if fromIndex >= len then len - 1 else fromIndex;
      found := -1;
      var p := 0;
      while p <= last
        invariant 0 <= p <= len && -1 <= found < p && found <= last
        invariant found >= 0 ==> OccursAt(Contents(), s2, found)
        invariant forall k :: found < k < p && k <= last ==> !OccursAt(Contents(), s2, k)
        decreases len - p
      {
        ScanFrom(p, s2);
        var at := StrStr(p, s2);
        if at == None {
          break;
        }
        p := at.value;
        if p <= last {
          found := p;
        }
        p := p + 1;
      }
    }

    // strstr from an index, in terms of the contents
    lemma ScanFrom(from: nat, find: seq<byte>)
      requires Valid() && buffer != null && from <= len && find != []
      ensures var i := Find(CString(buffer[from..]), find);
        && (i == None ==> forall k :: from <= k ==> !OccursAt(Contents(), find, k))
        && (i.Some? ==>
              && from + i.value < len && OccursAt(Contents(), find, from + i.value)
              && forall k :: from <= k < from + i.value ==> !OccursAt(Contents(), find, k))
    {
      Scan(from, find);
      var i := Find(CString(buffer[from..]), find);
      forall k | from <= k && (i == None || k < from + i.value) ensures !OccursAt(Contents(), find, k) {
        assert OccursAt(Contents()[from..], find, k - from) <==> OccursAt(Contents(), find, from + (k - from));
      }
    }

    // what strstr finds in the buffer is what Find finds in the rest of the contents
    lemma Scan(from: nat, find: seq<byte>)
      requires Valid() && buffer != null && from <= len
      ensures CString(buffer[from..]) == Contents()[from..]
      ensures forall k: nat :: OccursAt(Contents()[from..], find, k) <==> OccursAt(Contents(), find, from + k)
    {
      assert buffer[from..][..len - from] == Contents()[from..];
      CStringEnds(buffer[from..], len - from);
      forall k: nat ensures OccursAt(Contents()[from..], find, k) <==> OccursAt(Contents(), find, from + k) {
        if from + k + |find| <= len {
          assert Contents()[from..][k..k + |find|] == Contents()[from + k..from + k + |find|];
        }
      }
    }

    // diff == 0
    method ReplaceSameLength(find: seq<byte>, replace: seq<byte>)
      requires Valid() && buffer != null && find != [] && |replace| == |find|
      requires NulFree(find) && NulFree(replace)
      modifies buffer
      ensures Valid() && Contents() == ReplaceAll(old(Contents()), find, replace)
    {
      hide ReplaceAll, Find, CString, OccursAt, Progress, Overwrite, Turn;
      ghost var s := Contents();
      ReplaceNulFree(s, find, replace);
      var readFrom := 0;
      Begin(buffer[..], s, find, replace);
      var foundAt := StrStr(readFrom, find);
      while foundAt.Some?
        invariant readFrom <= |s| == len && Progress(buffer[..], readFrom, s, readFrom, find, replace)
        invariant foundAt == After(readFrom, Find(s[readFrom..], find))
        decreases |s| - readFrom
      {
        ghost var i := foundAt.value - readFrom;
        ReplaceStep(buffer[..], readFrom, s, readFrom, find, replace, i);
        NothingToMove(buffer[..], readFrom, i, replace);
        Paste(buffer, foundAt.value, replace);
        readFrom := foundAt.value + |replace|;
        Unread(buffer[..], readFrom, s, readFrom, find, replace);
        assert buffer[..][readFrom..] == buffer[readFrom..];
        foundAt := StrStr(readFrom, find);
      }
      ReplaceEnd(buffer[..], readFrom, s, readFrom, find, replace);
      NothingLeft(buffer[..], readFrom, |s| + 1 - readFrom);
      assert buffer[..][..len] == buffer[..len];
    }

    // diff < 0
    method ReplaceShrinking(find: seq<byte>, replace: seq<byte>)
      requires Valid() && buffer != null && find != [] && |replace| < |find|
      requires NulFree(find) && NulFree(replace)
      modifies this`len, buffer
      ensures Valid() && Contents() == ReplaceAll(old(Contents()), find, replace)
    {
      hide ReplaceAll, Find, CString, OccursAt, Progress, Overwrite, Turn;
      ghost var s := Contents();
      ReplaceNulFree(s, find, replace);
      var readFrom: nat, writeTo: nat := 0, 0;
      Begin(buffer[..], s, find, replace);
      var foundAt := StrStr(readFrom, find);
      while foundAt.Some?
        invariant writeTo <= readFrom <= |s| && len == |s| - (readFrom - writeTo)
        invariant Progress(buffer[..], writeTo, s, readFrom, find, replace)
        invariant foundAt == After(readFrom, Find(s[readFrom..], find))
        decreases |s| - readFrom
      {
        var n := foundAt.value - readFrom;
        ReplaceStep(buffer[..], writeTo, s, readFrom, find, replace, n);
        TurnIs(buffer[..], writeTo, readFrom, n, replace);
        assert buffer[..][readFrom..readFrom + n] == buffer[readFrom..readFrom + n];
        CopyDown(buffer, writeTo, readFrom, n);
        writeTo := writeTo + n;
        Paste(buffer, writeTo, replace);
        writeTo := writeTo + |replace|;
        readFrom := foundAt.value + |find|;
        len := len - (|find| - |replace|);
        Unread(buffer[..], writeTo, s, readFrom, find, replace);
        assert buffer[..][readFrom..] == buffer[readFrom..];
        foundAt := StrStr(readFrom, find);
      }
      ReplaceEnd(buffer[..], writeTo, s, readFrom, find, replace);
      Unread(buffer[..], writeTo, s, readFrom, find, replace);
      assert buffer[..][readFrom..] == buffer[readFrom..];
      CopyDown(buffer, writeTo, readFrom, |CString(buffer[readFrom..])| + 1);
      assert buffer[..][..len] == buffer[..len];
    }

    // the size the result needs, counted over the occurrences from the front
    method GrownSize(find: seq<byte>, replace: seq<byte>) returns (size: nat)
      requires Valid() && buffer != null && find != [] && |find| < |replace|
      ensures size == |ReplaceAll(Contents(), find, replace)| && len <= size
      ensures size == len ==> forall k :: 0 <= k <= len ==> !OccursAt(Contents(), find, k)
    {
      hide ReplaceAll, Find, CString, OccursAt;
      ghost var s := Contents();
      var readFrom := 0;
      size := len;
      assert s[0..] == s;
      Scan(0, find);
      var foundAt := StrStr(readFrom, find);
      while foundAt.Some?
        invariant readFrom <= len <= size && (size == len ==> readFrom == 0)
        invariant size + |ReplaceAll(s[readFrom..], find, replace)| == |ReplaceAll(s, find, replace)| + (len - readFrom)
        invariant foundAt == After(readFrom, Find(s[readFrom..], find))
        decreases len - readFrom
      {
        NextLength(s, readFrom, find, replace, foundAt.value - readFrom);
        readFrom := foundAt.value + |find|;
        size := size + (|replace| - |find|);
        Scan(readFrom, find);
        foundAt := StrStr(readFrom, find);
      }
      ReplaceNothing(s[readFrom..], find, replace);
    }

    // memmove of the rest, the new terminator, memcpy of the replacement
    method InsertAt(find: seq<byte>, replace: seq<byte>, index: nat)
      requires Valid() && buffer != null && |find| < |replace| && NulFree(replace)
      requires index + |find| <= len && len + (|replace| - |find|) <= capacity
      modifies this`len, buffer
      ensures Valid() && Contents() == old(Contents()[..index]) + replace + old(Contents()[index + |find|..])
    {
      hide Overwrite, NulFree;
      ghost var data := buffer[..];
      StillNulFree(Contents(), index, index + |find|, replace);
      assert data[..index] == Contents()[..index] && data[index + |find|..len] == Contents()[index + |find|..];
      var diff := |replace| - |find|;
      var readFrom := index + |find|;
      MoveUp(buffer, readFrom + diff, readFrom, len - readFrom);
      len := len + diff;
      buffer[len] := 0;
      Paste(buffer, index, replace);
      InsertedText(data, old(len), readFrom, diff, index, replace);
      assert buffer[..len] == buffer[..][..len];
    }

    // one turn of the loop: the last occurrence up to an index is replaced, unless that would write past the buffer
    method ReplaceLast(find: seq<byte>, replace: seq<byte>, from: nat) returns (index: int, overrun: bool)
      requires Valid() && buffer != null && find != [] && |find| < |replace| && NulFree(find) && NulFree(replace)
      requires from < len
      modifies this`len, buffer
      ensures Valid() && -1 <= index < from && index < len
      ensures overrun ==> capacity < |old(ReplaceBackwards(Contents(), find, replace, from))|
      ensures !overrun ==>
        ReplaceBackwards(Contents(), find, replace, index) == old(ReplaceBackwards(Contents(), find, replace, from))
    {
      hide OccursAt, ReplaceBackwards, LastAt;
      overrun := false;
      BackwardsStep(Contents(), find, replace, from);
      index := LastIndexOf(find, from);
      if index < 0 {
        BackwardsStep(Contents(), find, replace, -1);
        return;
      }
      if len + (|replace| - |find|) > capacity {
        return index - 1, true;
      }
      InsertAt(find, replace, index);
      index := index - 1;
    }

    // the loop of the growing case; overrun tells that it would write past the buffer, where the model ends
    method GrowInPlace(find: seq<byte>, replace: seq<byte>) returns (overrun: bool)
      requires Valid() && buffer != null && find != [] && |find| < |replace|
      requires NulFree(find) && NulFree(replace)
      modifies this`len, buffer
      ensures Valid()
      ensures overrun <==> |old(ReplaceBackwards(Contents(), find, replace, len - 1))| > capacity
      ensures overrun && Clean(find, replace) ==> capacity < |old(ReplaceAll(Contents(), find, replace))|
      ensures !overrun ==> Contents() == old(ReplaceBackwards(Contents(), find, replace, len - 1))
    {
      hide OccursAt, ReplaceBackwards, LastAt, ReplaceAll, Clean;
      ghost var result := ReplaceBackwards(Contents(), find, replace, len - 1);
      CleanKeepsLength(Contents(), find, replace);
      overrun := false;
      var index := len - 1;
      while index >= 0
        invariant Valid() && -1 <= index < len && !overrun
        invariant ReplaceBackwards(Contents(), find, replace, index) == result
        decreases index
      {
        index, overrun := ReplaceLast(find, replace, index);
        if overrun {
          return;
        }
      }
      BackwardsStep(Contents(), find, replace, -1);
    }

    // diff > 0
    method ReplaceGrowing(find: seq<byte>, replace: seq<byte>, memory: bool, junk: byte) returns (overrun: bool)
      requires Valid() && buffer != null && find != [] && |find| < |replace|
      requires NulFree(find) && NulFree(replace)
      modifies this, buffer
      ensures Valid() && (overrun ==> !Clean(find, replace))
      ensures var size, result := |ReplaceAll(old(Contents()), find, replace)|,
                ReplaceBackwards(old(Contents()), find, replace, old(len) - 1);
        if !memory && old(capacity) < size then !overrun && Contents() == old(Contents())
        else
          && size <= capacity == (if size <= old(capacity) then old(capacity) else Room(size))
          && (overrun <==> |result| > capacity) && (!overrun ==> Contents() == result)
    {
      hide ReplaceAll, OccursAt, ReplaceBackwards, LastAt, Clean;
      ghost var s := Contents();
      var size := GrownSize(find, replace);
      if size == len {
        BackwardsStep(s, find, replace, len - 1);
        return false;
      }
      if size > capacity {
        var ok := ChangeBuffer(size, memory, junk);
        if !ok {
          return false;
        }
      }
      assert Contents() == s;
      overrun := GrowInPlace(find, replace);
    }

    /**
      * replace(find, replace), for NUL-free strings that are not the string itself. Growing may need memory; without
      * it the text stays as it was. It stays inside the buffer when no end of find starts replace.
      */
    method Replace(find: seq<byte>, replace: seq<byte>, memory: bool, junk: byte) returns (overrun: bool)
      requires Valid() && NulFree(find) && NulFree(replace)
      modifies this, buffer
      ensures Valid()
      ensures var s := old(Contents());
        var grows := find != [] && |find| < |replace|;
        && (overrun ==> grows && capacity < |Replaced(s, find, replace)| && !Clean(find, replace))
        && (grows && !memory && old(capacity) < |ReplaceAll(s, find, replace)| ==> !overrun && Contents() == s)
        && (!(grows && !memory && old(capacity) < |ReplaceAll(s, find, replace)|) ==>
              && (overrun <==> capacity < |Replaced(s, find, replace)|)
              && (grows && s != [] ==>
                    var size := |ReplaceAll(s, find, replace)|;
                    size <= capacity == (if size <= old(capacity) then old(capacity) else Room(size)))
              && (!overrun ==> Contents() == Replaced(s, find, replace)))
    {
      hide ReplaceAll, ReplaceBackwards, NoBadSuffix, NulFree, Clean;
      ghost var s := Contents();
      if find != [] && (|replace| <= |find| || NoBadSuffix(find, replace)) {
        ReplacedIsReplaceAll(s, find, replace);
      }
      NothingToReplace(find, replace);
      overrun := false;
      if len == 0 || |find| == 0 {
        return;
      }
      var diff := |replace| - |find|;
      if diff == 0 {
        ReplaceSameLength(find, replace);
      } else if diff < 0 {
        ReplaceShrinking(find, replace);
      } else {
        overrun := ReplaceGrowing(find, replace, memory, junk);
      }
    }
  }

  lemma NothingToReplace(f: seq<byte>, r: seq<byte>)
    ensures f != [] ==> ReplaceAll([], f, r) == []
  {}

  lemma RoomStays(n: nat, m: nat)
    requires n <= m <= Room(n)
    ensures Room(m) == Room(n)
  {}

  lemma ReplaceGrows(s: seq<byte>, f: seq<byte>, r: seq<byte>)
    requires f != [] && |f| < |r|
    ensures |s| <= |ReplaceAll(s, f, r)|
    ensures s == [] ==> ReplaceBackwards(s, f, r, |s| - 1) == s
  {
    ReplaceLength(s, f, r);
  }

  /**
    * A growing replace in a new String: it writes past the buffer exactly when the result is longer than the room for
    * the size that was counted.
    */
  method ReplaceInNew(text: seq<byte>, find: seq<byte>, replace: seq<byte>, junk: byte) returns (overrun: bool)
    requires NulFree(text) && NulFree(find) && NulFree(replace) && find != [] && |find| < |replace|
    ensures overrun <==> Room(|ReplaceAll(text, find, replace)|) < |ReplaceBackwards(text, find, replace, |text| - 1)|
  {
    hide ReplaceAll, ReplaceBackwards, NulFree, Room, Clean;
    var str := new String.FromText(text, true, junk);
    overrun := str.Replace(find, replace, true, junk);
    ReplaceGrows(text, find, replace);
    if |ReplaceAll(text, find, replace)| <= Room(|text|) {
      RoomStays(|text|, |ReplaceAll(text, find, replace)|);
    }
  }

  /** "aab" with "ab" replaced by "b" and 13 more characters: room for 15 characters is made, and 27 are written. */
  method OverrunExample(junk: byte) returns (overrun: bool)
    ensures overrun
  {
    hide ReplaceAll, ReplaceBackwards;
    var find, replace := [97, 98], [98] + seq(13, i => 120);
    NotInStart(find, 1);
    assert replace[..1] == find[1..];
    CompletedGrows([], find, replace, 1);
    var text := [97, 97, 98];
    assert text == [] + find[..1] + find;
    RoomIs(15);
    overrun := ReplaceInNew(text, find, replace, junk);
  }
}
