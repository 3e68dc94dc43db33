/** The binary form of an ESP32 partition table: 32-byte entries, an optional MD5
    record, and 0xFF padding that doubles as the end marker. */
module PartitionBinary {
  import opened Bytes
  import opened PartitionCsv

  const MAX_PARTITION_LENGTH: nat := 0xC00
  const ENTRY_LEN: nat := 32

  type Md5 = d: seq<byte> | |d| == 16 witness Zeros(16)

  // str.encode() and bytes.decode()
  datatype Codec = Codec(encode: string -> seq<byte>, decode: seq<byte> -> Option<string>)

  datatype Problem = PackError | TooLong | BadLength | BadChecksum | BadName | BadMagic | MissingEnd

  // -------- writing --------

  // every field fits its struct format
  predicate Fits(e: Entry) {
    0 <= e.kind < 256 && 0 <= e.subtype < 256 && 0 <= e.offset < U32_LIMIT && 0 <= e.size < U32_LIMIT
  }

  // struct.pack('16s', name): cut or padded to 16 bytes
  function NameField(name: seq<byte>): (f: seq<byte>)
    ensures |f| == 16
  {
    if |name| >= 16 then name[..16] else name + Zeros(16 - |name|)
  }

  // PartitionDefinition.to_binary
  function EntryBytes(e: Entry, codec: Codec): (b: seq<byte>)
    requires Fits(e)
    ensures |b| == ENTRY_LEN && b[0] == 0xAA && b[1] == 0x50
  {
    [0xAA, 0x50, e.kind, e.subtype] + Le32(e.offset) + Le32(e.size) + NameField(codec.encode(e.name)) +
    Le32(if e.encrypted then 1 else 0)
  }

  function AllBytes(t: seq<Entry>, codec: Codec): (b: seq<byte>)
    requires forall e :: e in t ==> Fits(e)
    ensures |b| == ENTRY_LEN * |t|
  {
    if t == [] then [] else EntryBytes(t[0], codec) + AllBytes(t[1..], codec)
  }

  function Ones(n: nat): (b: seq<byte>)
    ensures |b| == n
  {
    seq(n, _ => 0xFF)
  }

  // MD5_PARTITION_BEGIN and the digest
  function Md5Record(digest: Md5): (b: seq<byte>)
    ensures |b| == ENTRY_LEN
  {
    [0xEB, 0xEB] + Ones(14) + digest
  }

  /** PartitionTable.to_binary */
  function ToBinary(t: seq<Entry>, withMd5: bool, md5: seq<byte> -> Md5, codec: Codec): Result<seq<byte>, Problem> {
    if exists e :: e in t && !Fits(e) then Err(PackError)
    else
      var entries := AllBytes(t, codec);
      var result := if withMd5 then entries + Md5Record(md5(entries)) else entries;
      if |result| >= MAX_PARTITION_LENGTH then Err(TooLong)
      else Ok(result + Ones(MAX_PARTITION_LENGTH - |result|))
  }

  // -------- reading --------

  function UpToNul(name: seq<byte>): seq<byte> {
    if name == [] || name[0] == 0 then [] else [name[0]] + UpToNul(name[1..])
  }

  // PartitionDefinition.from_binary; unknown flags only draw a warning
  function DecodeEntry(b: seq<byte>, codec: Codec): Result<Entry, Problem>
    requires |b| == ENTRY_LEN
  {
    match codec.decode(UpToNul(b[12..28]))
    case None => Err(BadName)
    case Some(name) =>
      if b[..2] != [0xAA, 0x50] then Err(BadMagic)
      else Ok(Entry(name, b[2], b[3], FromLe32(b[4..8]), FromLe32(b[8..12]), FromLe32(b[28..]) % 2 == 1))
  }

  function Cons(e: Entry, rest: Result<seq<Entry>, Problem>): Result<seq<Entry>, Problem> {
    match rest case Ok(t) => Ok([e] + t) case Err(p) => Err(p)
  }

  /** PartitionTable.from_binary on what is left of the file; seen is what the
      MD5 sum has been updated with. */
  function FromBinary(b: seq<byte>, seen: seq<byte>, withMd5: bool, md5: seq<byte> -> Md5, codec: Codec)
    : Result<seq<Entry>, Problem>
    decreases |b|
  {
    if |b| == 0 then Err(MissingEnd)
    else if |b| < ENTRY_LEN then Err(BadLength)
    else
      var data, rest := b[..ENTRY_LEN], b[ENTRY_LEN..];
      if data == Ones(ENTRY_LEN) then Ok([])
      else if withMd5 && data[..2] == [0xEB, 0xEB] then
        if data[16..] == md5(seen) then FromBinary(rest, seen, withMd5, md5, codec) else Err(BadChecksum)
      else match DecodeEntry(data, codec)
        case Err(p) => Err(p)
        case Ok(e) => Cons(e, FromBinary(rest, seen + data, withMd5, md5, codec))
  }

  // -------- round trip --------

  // a name that its 16-byte field preserves
  predicate NameSurvives(name: string, codec: Codec) {
    codec.decode(UpToNul(NameField(codec.encode(name)))) == Some(name)
  }

  lemma {:induction false} UpToNulOfPadded(name: seq<byte>, n: nat)
    requires 0 !in name
    ensures UpToNul(name + Zeros(n)) == name
  {
    if name == [] {
      assert name + Zeros(n) == Zeros(n);
    } else {
      assert (name + Zeros(n))[1..] == name[1..] + Zeros(n);
      UpToNulOfPadded(name[1..], n);
    }
  }

  /** A name without NUL that encodes to at most 16 bytes survives. */
  lemma ShortNameSurvives(name: string, codec: Codec)
    requires 0 !in codec.encode(name) && |codec.encode(name)| <= 16
    requires codec.decode(codec.encode(name)) == Some(name)
    ensures NameSurvives(name, codec)
  {
    var n := codec.encode(name);
    assert NameField(n) == n + Zeros(16 - |n|);
    UpToNulOfPadded(n, 16 - |n|);
  }

  // strict text codecs, as UTF-8 is: what is encoded decodes, and no two byte strings decode to one text
  ghost predicate Strict(codec: Codec) {
    && (forall name: string :: codec.decode(codec.encode(name)) == Some(name))
    && (forall a: seq<byte>, b: seq<byte> :: codec.decode(a).Some? && codec.decode(a) == codec.decode(b) ==> a == b)
  }

  lemma {:induction false} UpToNulCuts(name: seq<byte>)
    ensures |UpToNul(name)| <= |name| && 0 !in UpToNul(name)
  {
    if name != [] && name[0] != 0 {
      UpToNulCuts(name[1..]);
    }
  }

  /** With a strict codec a name survives exactly when its encoding is short enough and holds no NUL. */
  lemma NameSurvivesExactly(name: string, codec: Codec)
    requires Strict(codec)
    ensures NameSurvives(name, codec) <==> 0 !in codec.encode(name) && |codec.encode(name)| <= 16
  {
    var n := codec.encode(name);
    assert codec.decode(n) == Some(name);
    if 0 !in n && |n| <= 16 {
      ShortNameSurvives(name, codec);
    } else {
      UpToNulCuts(NameField(n));
      assert UpToNul(NameField(n)) != n;
    }
  }

  lemma EntryReadBack(e: Entry, codec: Codec)
    requires Fits(e)
    ensures match codec.decode(UpToNul(NameField(codec.encode(e.name))))
      case None => DecodeEntry(EntryBytes(e, codec), codec) == Err(BadName)
      case Some(name) => DecodeEntry(EntryBytes(e, codec), codec) == Ok(e.(name := name))
  {
    hide Le32;
    hide FromLe32;
    hide NameField;
    hide UpToNul;
    var b, flags := EntryBytes(e, codec), if e.encrypted then 1 else 0;
    assert b[12..28] == NameField(codec.encode(e.name));
    assert b[4..8] == Le32(e.offset) && b[8..12] == Le32(e.size) && b[28..] == Le32(flags);
    Le32RoundTrip(e.offset);
    Le32RoundTrip(e.size);
    Le32RoundTrip(flags);
  }

  predicate Survive(t: seq<Entry>, codec: Codec) {
    forall e :: e in t ==> NameSurvives(e.name, codec)
  }

  lemma {:induction false} EntriesReadBack(t: seq<Entry>, seen: seq<byte>, tail: seq<byte>, withMd5: bool,
                                           md5: seq<byte> -> Md5, codec: Codec)
    requires forall e :: e in t ==> Fits(e)
    requires FromBinary(tail, seen + AllBytes(t, codec), withMd5, md5, codec) == Ok([])
    ensures FromBinary(AllBytes(t, codec) + tail, seen, withMd5, md5, codec) == Ok(t) <==> Survive(t, codec)
    decreases t
  {
    hide DecodeEntry;
    hide NameSurvives;
    hide NameField;
    hide Le32;
    if t == [] {
      assert AllBytes(t, codec) + tail == tail;
      assert seen + AllBytes(t, codec) == seen;
    } else {
      var e, rest := t[0], t[1..];
      var data, more := EntryBytes(e, codec), AllBytes(rest, codec);
      var b := AllBytes(t, codec) + tail;
      assert b == data + (more + tail);
      assert b[..ENTRY_LEN] == data && b[ENTRY_LEN..] == more + tail;
      assert data != Ones(ENTRY_LEN) && data[..2] != [0xEB, 0xEB];
      assert seen + AllBytes(t, codec) == (seen + data) + more;
      EntriesReadBack(rest, seen + data, tail, withMd5, md5, codec);
      EntryReadBack(e, codec);
      NameMeans(e.name, codec);
      assert t == [e] + rest;
      assert Survive(t, codec) <==> NameSurvives(e.name, codec) && Survive(rest, codec);
      HeadDecides(t, b, seen, withMd5, md5, codec, data, more + tail);
    }
  }

  lemma NameMeans(name: string, codec: Codec)
    ensures NameSurvives(name, codec) <==> codec.decode(UpToNul(NameField(codec.encode(name)))) == Some(name)
  {}

  // the first entry is read back, and then the others
  lemma HeadDecides(t: seq<Entry>, b: seq<byte>, seen: seq<byte>, withMd5: bool, md5: seq<byte> -> Md5, codec: Codec,
                    data: seq<byte>, rest: seq<byte>)
    requires t != [] && |b| >= ENTRY_LEN && data == b[..ENTRY_LEN] && rest == b[ENTRY_LEN..]
    requires data != Ones(ENTRY_LEN) && data[..2] != [0xEB, 0xEB]
    ensures FromBinary(b, seen, withMd5, md5, codec) == Ok(t) <==>
              DecodeEntry(data, codec) == Ok(t[0]) && FromBinary(rest, seen + data, withMd5, md5, codec) == Ok(t[1..])
  {
    hide DecodeEntry;
    match DecodeEntry(data, codec)
    case Err(p) =>
    case Ok(e) =>
      var r := FromBinary(rest, seen + data, withMd5, md5, codec);
      if r.Ok? {
        assert [e] + r.value == t <==> e == t[0] && r.value == t[1..] by {
          assert ([e] + r.value)[0] == e && ([e] + r.value)[1..] == r.value;
          assert t == [t[0]] + t[1..];
        }
      }
  }

  /** Reading a written table gives it back exactly when every name survives its
      field, with or without the MD5 record and for any digest. The strict length
      check leaves room for the end marker, and no entry is taken for the marker
      or for the MD5 record. */
  lemma BinaryRoundTrip(t: seq<Entry>, withMd5: bool, md5: seq<byte> -> Md5, codec: Codec)
    requires ToBinary(t, withMd5, md5, codec).Ok?
    ensures |ToBinary(t, withMd5, md5, codec).value| == MAX_PARTITION_LENGTH
    ensures FromBinary(ToBinary(t, withMd5, md5, codec).value, [], withMd5, md5, codec) == Ok(t) <==> Survive(t, codec)
  {
    hide DecodeEntry;
    hide Survive;
    var b := ToBinary(t, withMd5, md5, codec).value;
    var entries := AllBytes(t, codec);
    var record: seq<byte> := if withMd5 then Md5Record(md5(entries)) else [];
    assert |entries + record| % ENTRY_LEN == 0;
    var pad := Ones(MAX_PARTITION_LENGTH - |entries + record|);
    assert |pad| >= ENTRY_LEN && pad[..ENTRY_LEN] == Ones(ENTRY_LEN);
    assert FromBinary(pad, entries, withMd5, md5, codec) == Ok([]);
    var tail := record + pad;
    assert b == entries + tail;
    if withMd5 {
      var data := tail[..ENTRY_LEN];
      assert data == record && tail[ENTRY_LEN..] == pad;
      assert data[..2] == [0xEB, 0xEB] && data[16..] == md5(entries);
      assert data != Ones(ENTRY_LEN) by {
        assert data[0] == 0xEB && Ones(ENTRY_LEN)[0] == 0xFF;
      }
    } else {
      assert tail == pad;
    }
    assert [] + entries == entries;
    EntriesReadBack(t, [], tail, withMd5, md5, codec);
  }

  /** With a strict codec the condition is on the lengths and bytes of the names alone. */
  lemma BinaryRoundTripExactly(t: seq<Entry>, withMd5: bool, md5: seq<byte> -> Md5, codec: Codec)
    requires ToBinary(t, withMd5, md5, codec).Ok? && Strict(codec)
    ensures FromBinary(ToBinary(t, withMd5, md5, codec).value, [], withMd5, md5, codec) == Ok(t) <==>
      forall e :: e in t ==> 0 !in codec.encode(e.name) && |codec.encode(e.name)| <= 16
  {
    hide ToBinary, FromBinary, NameSurvives, Strict;
    BinaryRoundTrip(t, withMd5, md5, codec);
    forall e | e in t
      ensures NameSurvives(e.name, codec) <==> 0 !in codec.encode(e.name) && |codec.encode(e.name)| <= 16
    {
      NameSurvivesExactly(e.name, codec);
    }
  }

  /** A table written with the MD5 record is refused by a reader that does not
      expect one: the record is taken for an entry with the wrong magic bytes. */
  lemma Md5RecordIsNoEntry(digest: Md5, codec: Codec)
    ensures DecodeEntry(Md5Record(digest), codec).Err?
  {
    assert Md5Record(digest)[0] == 0xEB;
  }

  /** A table is written exactly when all fields fit and there are at most 95
      records, the MD5 record included: one less than the 96 of the source's comment. */
  lemma Capacity(t: seq<Entry>, withMd5: bool, md5: seq<byte> -> Md5, codec: Codec)
    ensures ToBinary(t, withMd5, md5, codec).Ok? <==>
              (forall e :: e in t ==> Fits(e)) && |t| + (if withMd5 then 1 else 0) <= 95
    ensures ToBinary(t, withMd5, md5, codec) == Err(PackError) <==> exists e :: e in t && !Fits(e)
    ensures ToBinary(t, withMd5, md5, codec) == Err(TooLong) <==>
              (forall e :: e in t ==> Fits(e)) && |t| + (if withMd5 then 1 else 0) > 95
  {
    hide AllBytes;
    hide Md5Record;
  }

  function Before(t: seq<Entry>, rest: Result<seq<Entry>, Problem>): Result<seq<Entry>, Problem> {
    match rest case Ok(more) => Ok(t + more) case Err(p) => Err(p)
  }

  lemma BeforeCons(t: seq<Entry>, e: Entry, rest: Result<seq<Entry>, Problem>)
    ensures Before(t, Cons(e, rest)) == Before(t + [e], rest)
  {
    if rest.Ok? {
      assert t + ([e] + rest.value) == t + [e] + rest.value;
    }
  }

  /** PartitionTable.from_binary, block by block. */
  method ReadBinary(b: seq<byte>, withMd5: bool, md5: seq<byte> -> Md5, codec: Codec)
    returns (r: Result<seq<Entry>, Problem>)
    ensures r == FromBinary(b, [], withMd5, md5, codec)
  {
    hide DecodeEntry;
    var result, seen: seq<byte> := [], [];
    var o := 0;
    assert b[0..] == b;
    ghost var all := FromBinary(b, [], withMd5, md5, codec);
    assert Before([], all) == all by {
      if all.Ok? {
        assert [] + all.value == all.value;
      }
    }
    while o < |b|
      invariant o <= |b|
      invariant Before(result, FromBinary(b[o..], seen, withMd5, md5, codec)) == all
    {
      var data := b[o..Min(o + ENTRY_LEN, |b|)];
      if |data| != ENTRY_LEN {
        return Err(BadLength);
      }
      assert b[o..][..ENTRY_LEN] == data && b[o..][ENTRY_LEN..] == b[o + ENTRY_LEN..];
      if data == Ones(ENTRY_LEN) {
        assert result + [] == result;
        return Ok(result);
      }
      if withMd5 && data[..2] == [0xEB, 0xEB] {
        if data[16..] != md5(seen) {
          return Err(BadChecksum);
        }
      } else {
        var e := DecodeEntry(data, codec);
        if e.Err? {
          return Err(e.error);
        }
        BeforeCons(result, e.value, FromBinary(b[o + ENTRY_LEN..], seen + data, withMd5, md5, codec));
        seen := seen + data;
        result := result + [e.value];
      }
      o := o + ENTRY_LEN;
    }
    r := Err(MissingEnd);
  }

  // -------- which files are accepted --------

  predicate HasBlock(b: seq<byte>, k: nat) {
    ENTRY_LEN * (k + 1) <= |b|
  }

  function Block(b: seq<byte>, k: nat): (d: seq<byte>)
    requires HasBlock(b, k)
    ensures |d| == ENTRY_LEN
  {
    b[ENTRY_LEN * k..ENTRY_LEN * (k + 1)]
  }

  predicate IsRecord(data: seq<byte>, withMd5: bool)
    requires |data| == ENTRY_LEN
  {
    withMd5 && data[0] == 0xEB && data[1] == 0xEB
  }

  predicate IsMarker(data: seq<byte>) {
    forall i :: 0 <= i < |data| ==> data[i] == 0xFF
  }

  // the bytes of the entries among the first n blocks
  function EntryData(b: seq<byte>, n: nat, withMd5: bool): seq<byte>
    requires n > 0 ==> HasBlock(b, n - 1)
  {
    if n == 0 then []
    else EntryData(b, n - 1, withMd5) + if IsRecord(Block(b, n - 1), withMd5) then [] else Block(b, n - 1)
  }

  // block k is a record with the digest of the entries before it, or an entry
  predicate GoodBlock(b: seq<byte>, k: nat, withMd5: bool, md5: seq<byte> -> Md5, codec: Codec)
    requires HasBlock(b, k)
  {
    && !IsMarker(Block(b, k))
    && if IsRecord(Block(b, k), withMd5) then Block(b, k)[16..] == md5(EntryData(b, k, withMd5))
       else DecodeEntry(Block(b, k), codec).Ok?
  }

  // the first n blocks are there, and good
  predicate GoodBlocks(b: seq<byte>, n: nat, withMd5: bool, md5: seq<byte> -> Md5, codec: Codec) {
    ENTRY_LEN * n <= |b| && forall k :: 0 <= k < n ==> GoodBlock(b, k, withMd5, md5, codec)
  }

  // the entries among the first n blocks
  function Entries(b: seq<byte>, n: nat, withMd5: bool, md5: seq<byte> -> Md5, codec: Codec): seq<Entry>
    requires GoodBlocks(b, n, withMd5, md5, codec)
  {
    if n == 0 then []
    else
      assert GoodBlock(b, n - 1, withMd5, md5, codec);
      Entries(b, n - 1, withMd5, md5, codec) +
      if IsRecord(Block(b, n - 1), withMd5) then [] else [DecodeEntry(Block(b, n - 1), codec).value]
  }

  lemma MarkerIs(data: seq<byte>)
    requires |data| == ENTRY_LEN
    ensures IsMarker(data) <==> data == Ones(ENTRY_LEN)
  {}

  lemma RecordIs(data: seq<byte>, withMd5: bool)
    requires |data| == ENTRY_LEN
    ensures IsRecord(data, withMd5) <==> withMd5 && data[..2] == [0xEB, 0xEB]
  {}

  lemma BlockIsNext(b: seq<byte>, n: nat)
    requires HasBlock(b, n)
    ensures b[ENTRY_LEN * n..][..ENTRY_LEN] == Block(b, n) && b[ENTRY_LEN * n..][ENTRY_LEN..] == b[ENTRY_LEN * (n + 1)..]
  {}

  // what reading does with one block, or where there is none
  lemma ReadsBlock(b: seq<byte>, n: nat, seen: seq<byte>, withMd5: bool, md5: seq<byte> -> Md5, codec: Codec)
    requires ENTRY_LEN * n <= |b|
    ensures var r := FromBinary(b[ENTRY_LEN * n..], seen, withMd5, md5, codec);
      if |b| == ENTRY_LEN * n then r == Err(MissingEnd)
      else if !HasBlock(b, n) then r == Err(BadLength)
      else
        var data, rest := Block(b, n), b[ENTRY_LEN * (n + 1)..];
        if IsMarker(data) then r == Ok([])
        else if IsRecord(data, withMd5) then
          if data[16..] == md5(seen) then r == FromBinary(rest, seen, withMd5, md5, codec) else r == Err(BadChecksum)
        else match DecodeEntry(data, codec)
          case Err(p) => r == Err(p)
          case Ok(e) => r == Cons(e, FromBinary(rest, seen + data, withMd5, md5, codec))
  {
    hide DecodeEntry;
    if HasBlock(b, n) {
      BlockIsNext(b, n);
      MarkerIs(Block(b, n));
      RecordIs(Block(b, n), withMd5);
    }
  }

  lemma {:induction false} ReachesBlock(b: seq<byte>, n: nat, withMd5: bool, md5: seq<byte> -> Md5, codec: Codec)
    requires GoodBlocks(b, n, withMd5, md5, codec)
    ensures FromBinary(b, [], withMd5, md5, codec) ==
      Before(Entries(b, n, withMd5, md5, codec),
             FromBinary(b[ENTRY_LEN * n..], EntryData(b, n, withMd5), withMd5, md5, codec))
  {
    hide FromBinary, DecodeEntry, IsRecord, IsMarker, Block;
    if n == 0 {
      assert b[0..] == b;
      BeforeNothing(FromBinary(b, [], withMd5, md5, codec));
    } else {
      assert GoodBlock(b, n - 1, withMd5, md5, codec);
      ReachesBlock(b, n - 1, withMd5, md5, codec);
      var seen, data := EntryData(b, n - 1, withMd5), Block(b, n - 1);
      ReadsBlock(b, n - 1, seen, withMd5, md5, codec);
      var done := Entries(b, n - 1, withMd5, md5, codec);
      if IsRecord(data, withMd5) {
        assert done + [] == done && seen + [] == seen;
      } else {
        var e := DecodeEntry(data, codec).value;
        BeforeCons(done, e, FromBinary(b[ENTRY_LEN * n..], seen + data, withMd5, md5, codec));
      }
    }
  }

  lemma BeforeNothing(rest: Result<seq<Entry>, Problem>)
    ensures Before([], rest) == rest
  {
    if rest.Ok? {
      assert [] + rest.value == rest.value;
    }
  }

  // what stops the reader behind n good blocks
  datatype Stop = AtMarker | AtEnd | InBlock | WrongDigest | NoEntry(problem: Problem)

  predicate StopsAt(b: seq<byte>, n: nat, withMd5: bool, md5: seq<byte> -> Md5, codec: Codec, stop: Stop) {
    && GoodBlocks(b, n, withMd5, md5, codec)
    && match stop
       case AtEnd => |b| == ENTRY_LEN * n
       case InBlock => ENTRY_LEN * n < |b| < ENTRY_LEN * (n + 1)
       case AtMarker => HasBlock(b, n) && IsMarker(Block(b, n))
       case WrongDigest =>
         && HasBlock(b, n) && IsRecord(Block(b, n), withMd5)
         && Block(b, n)[16..] != md5(EntryData(b, n, withMd5))
       case NoEntry(p) =>
         && HasBlock(b, n) && !IsMarker(Block(b, n)) && !IsRecord(Block(b, n), withMd5)
         && DecodeEntry(Block(b, n), codec) == Err(p)
  }

  lemma StoppedResult(b: seq<byte>, n: nat, withMd5: bool, md5: seq<byte> -> Md5, codec: Codec, stop: Stop)
    requires StopsAt(b, n, withMd5, md5, codec, stop)
    ensures FromBinary(b, [], withMd5, md5, codec) ==
      match stop
      case AtEnd => Err(MissingEnd)
      case InBlock => Err(BadLength)
      case AtMarker => Ok(Entries(b, n, withMd5, md5, codec))
      case WrongDigest => Err(BadChecksum)
      case NoEntry(p) => Err(p)
  {
    hide FromBinary, DecodeEntry, GoodBlocks, Block;
    ReachesBlock(b, n, withMd5, md5, codec);
    ReadsBlock(b, n, EntryData(b, n, withMd5), withMd5, md5, codec);
    var done := Entries(b, n, withMd5, md5, codec);
    assert done + [] == done;
    if stop == WrongDigest {
      RecordIsNoMarker(Block(b, n), withMd5);
    }
  }

  lemma RecordIsNoMarker(data: seq<byte>, withMd5: bool)
    requires |data| == ENTRY_LEN && IsRecord(data, withMd5)
    ensures !IsMarker(data)
  {}

  // the reader stops somewhere
  lemma SomeStop(b: seq<byte>, withMd5: bool, md5: seq<byte> -> Md5, codec: Codec) returns (n: nat, stop: Stop)
    ensures StopsAt(b, n, withMd5, md5, codec, stop)
  {
    hide DecodeEntry, Block, IsRecord, IsMarker;
    n := 0;
    while HasBlock(b, n) && GoodBlock(b, n, withMd5, md5, codec)
      invariant GoodBlocks(b, n, withMd5, md5, codec)
      decreases |b| - n
    {
      n := n + 1;
    }
    if |b| == ENTRY_LEN * n {
      stop := AtEnd;
    } else if !HasBlock(b, n) {
      stop := InBlock;
    } else if IsMarker(Block(b, n)) {
      stop := AtMarker;
    } else if IsRecord(Block(b, n), withMd5) {
      stop := WrongDigest;
    } else {
      stop := NoEntry(DecodeEntry(Block(b, n), codec).error);
    }
  }

  /** A file is accepted exactly when an end marker follows blocks that are each an
      entry or a record with the digest of the entries before it, and it then holds
      these entries... */
  lemma AcceptsExactly(b: seq<byte>, withMd5: bool, md5: seq<byte> -> Md5, codec: Codec, t: seq<Entry>)
    ensures FromBinary(b, [], withMd5, md5, codec) == Ok(t) <==>
      exists n :: StopsAt(b, n, withMd5, md5, codec, AtMarker) && t == Entries(b, n, withMd5, md5, codec)
  {
    hide FromBinary, GoodBlocks, DecodeEntry, Block, IsMarker, IsRecord, EntryData;
    forall n: nat | StopsAt(b, n, withMd5, md5, codec, AtMarker)
      ensures FromBinary(b, [], withMd5, md5, codec) == Ok(Entries(b, n, withMd5, md5, codec))
    {
      StoppedResult(b, n, withMd5, md5, codec, AtMarker);
    }
    var n, stop := SomeStop(b, withMd5, md5, codec);
    StoppedResult(b, n, withMd5, md5, codec, stop);
  }

  /** ...a checksum error is reported exactly when after such blocks comes a record
      with another digest... */
  lemma BadChecksumExactly(b: seq<byte>, withMd5: bool, md5: seq<byte> -> Md5, codec: Codec)
    ensures FromBinary(b, [], withMd5, md5, codec) == Err(BadChecksum) <==>
      exists n :: StopsAt(b, n, withMd5, md5, codec, WrongDigest)
  {
    hide FromBinary, StopsAt, Entries;
    forall n: nat | StopsAt(b, n, withMd5, md5, codec, WrongDigest)
      ensures FromBinary(b, [], withMd5, md5, codec) == Err(BadChecksum)
    {
      StoppedResult(b, n, withMd5, md5, codec, WrongDigest);
    }
    var n, stop := SomeStop(b, withMd5, md5, codec);
    StoppedResult(b, n, withMd5, md5, codec, stop);
    EntryProblems(b, n, withMd5, md5, codec, stop);
  }

  /** ...and the other errors exactly when the file ends there, ends within the next
      block, or goes on with a block that is no entry. */
  lemma OtherErrorsExactly(b: seq<byte>, withMd5: bool, md5: seq<byte> -> Md5, codec: Codec)
    ensures FromBinary(b, [], withMd5, md5, codec) == Err(MissingEnd) <==>
      exists n :: StopsAt(b, n, withMd5, md5, codec, AtEnd)
    ensures FromBinary(b, [], withMd5, md5, codec) == Err(BadLength) <==>
      exists n :: StopsAt(b, n, withMd5, md5, codec, InBlock)
    ensures forall p :: p == BadName || p == BadMagic ==>
      (FromBinary(b, [], withMd5, md5, codec) == Err(p) <==> exists n :: StopsAt(b, n, withMd5, md5, codec, NoEntry(p)))
  {
    hide FromBinary, StopsAt, Entries;
    forall n: nat, stop | StopsAt(b, n, withMd5, md5, codec, stop)
      ensures stop == AtEnd ==> FromBinary(b, [], withMd5, md5, codec) == Err(MissingEnd)
      ensures stop == InBlock ==> FromBinary(b, [], withMd5, md5, codec) == Err(BadLength)
      ensures stop.NoEntry? ==> FromBinary(b, [], withMd5, md5, codec) == Err(stop.problem)
    {
      StoppedResult(b, n, withMd5, md5, codec, stop);
    }
    var n, stop := SomeStop(b, withMd5, md5, codec);
    StoppedResult(b, n, withMd5, md5, codec, stop);
    EntryProblems(b, n, withMd5, md5, codec, stop);
  }

  lemma EntryProblems(b: seq<byte>, n: nat, withMd5: bool, md5: seq<byte> -> Md5, codec: Codec, stop: Stop)
    requires StopsAt(b, n, withMd5, md5, codec, stop)
    ensures stop.NoEntry? ==> stop.problem == BadName || stop.problem == BadMagic
  {}

  // -------- one entry --------

  /** A block is an entry exactly when it starts with the magic bytes and its name
      decodes; the entry then has the numbers of its fields. */
  lemma DecodesExactly(b: seq<byte>, codec: Codec)
    requires |b| == ENTRY_LEN
    ensures var r := DecodeEntry(b, codec);
      && (r == Err(BadName) <==> codec.decode(UpToNul(b[12..28])) == None)
      && (r == Err(BadMagic) <==> codec.decode(UpToNul(b[12..28])).Some? && (b[0] != 0xAA || b[1] != 0x50))
      && (r.Ok? <==> codec.decode(UpToNul(b[12..28])).Some? && b[0] == 0xAA && b[1] == 0x50)
      && (r.Ok? ==>
            && Some(r.value.name) == codec.decode(UpToNul(b[12..28]))
            && r.value.kind == b[2] && r.value.subtype == b[3] && Fits(r.value)
            && Le32(r.value.offset) == b[4..8] && Le32(r.value.size) == b[8..12]
            && (r.value.encrypted <==> b[28] % 2 == 1))
  {
    hide UpToNul, Le32;
    assert b[..2] == [b[0], b[1]];
    FromLe32RoundTrip(b[4..8]);
    FromLe32RoundTrip(b[8..12]);
    LowBit(b[28..]);
  }

  lemma LowBit(b: seq<byte>)
    requires |b| == 4
    ensures FromLe32(b) % 2 == b[0] % 2
  {}

  /** Written entries and a record with another digest than theirs are refused,
      whatever follows. */
  lemma WrongDigestIsRefused(t: seq<Entry>, digest: Md5, tail: seq<byte>, md5: seq<byte> -> Md5, codec: Codec)
    requires (forall e :: e in t ==> Fits(e)) && Survive(t, codec) && digest != md5(AllBytes(t, codec))
    ensures FromBinary(AllBytes(t, codec) + Md5Record(digest) + tail, [], true, md5, codec) == Err(BadChecksum)
  {
    hide AllBytes, Survive;
    assert AllBytes(t, codec) + Md5Record(digest) + tail == AllBytes(t, codec) + (Md5Record(digest) + tail);
    RecordRefused(AllBytes(t, codec), digest, tail, md5, codec);
    assert [] + AllBytes(t, codec) == AllBytes(t, codec);
    EntriesThenError(t, [], Md5Record(digest) + tail, true, md5, codec, BadChecksum);
  }

  lemma RecordRefused(seen: seq<byte>, digest: Md5, tail: seq<byte>, md5: seq<byte> -> Md5, codec: Codec)
    requires digest != md5(seen)
    ensures FromBinary(Md5Record(digest) + tail, seen, true, md5, codec) == Err(BadChecksum)
  {
    var b := Md5Record(digest) + tail;
    assert b[..ENTRY_LEN] == Md5Record(digest) && Md5Record(digest)[16..] == digest;
    assert Md5Record(digest)[..2] == [0xEB, 0xEB];
    assert Md5Record(digest)[0] == 0xEB && Ones(ENTRY_LEN)[0] == 0xFF;
  }

  lemma {:induction false} EntriesThenError(t: seq<Entry>, seen: seq<byte>, tail: seq<byte>, withMd5: bool,
                                            md5: seq<byte> -> Md5, codec: Codec, p: Problem)
    requires (forall e :: e in t ==> Fits(e)) && Survive(t, codec)
    requires FromBinary(tail, seen + AllBytes(t, codec), withMd5, md5, codec) == Err(p)
    ensures FromBinary(AllBytes(t, codec) + tail, seen, withMd5, md5, codec) == Err(p)
    decreases t
  {
    hide DecodeEntry, NameSurvives, NameField, Le32;
    if t == [] {
      assert AllBytes(t, codec) + tail == tail && seen + AllBytes(t, codec) == seen;
    } else {
      var e, rest := t[0], t[1..];
      var data, more := EntryBytes(e, codec), AllBytes(rest, codec);
      var b := AllBytes(t, codec) + tail;
      assert b == data + (more + tail);
      assert b[..ENTRY_LEN] == data && b[ENTRY_LEN..] == more + tail;
      assert data[..2] != [0xEB, 0xEB] && data != Ones(ENTRY_LEN);
      assert seen + AllBytes(t, codec) == (seen + data) + more;
      EntriesThenError(rest, seen + data, tail, withMd5, md5, codec, p);
      EntryReadBack(e, codec);
      NameMeans(e.name, codec);
    }
  }

  // -------- the written file --------

  /** Every byte behind the entries that is neither magic nor digest of the MD5
      record is 0xFF, as in erased flash. */
  lemma RestIsErased(t: seq<Entry>, withMd5: bool, md5: seq<byte> -> Md5, codec: Codec)
    requires ToBinary(t, withMd5, md5, codec).Ok?
    ensures var b, n := ToBinary(t, withMd5, md5, codec).value, ENTRY_LEN * |t|;
      && (forall e :: e in t ==> Fits(e)) && |b| == 0xC00
      && n + (if withMd5 then 32 else 0) < |b| && b[..n] == AllBytes(t, codec)
      && (withMd5 ==> b[n..n + 2] == [0xEB, 0xEB] && b[n + 16..n + 32] == md5(b[..n]))
      && forall i :: n <= i < |b| && !(withMd5 && (i < n + 2 || n + 16 <= i < n + 32)) ==> b[i] == 0xFF
  {
    hide EntryBytes;
    var entries := AllBytes(t, codec);
    var record: seq<byte> := if withMd5 then Md5Record(md5(entries)) else [];
    var b := ToBinary(t, withMd5, md5, codec).value;
    assert b == entries + record + Ones(MAX_PARTITION_LENGTH - |entries + record|);
    assert b[..|entries|] == entries;
  }
}
