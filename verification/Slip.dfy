/** SLIP framing over a serial port: ESPLoader.write and slip_reader. */
module Slip {
  import opened Bytes

  const END: byte := 0xC0
  const ESC: byte := 0xDB
  const ESC_END: byte := 0xDC
  const ESC_ESC: byte := 0xDD

  // -------- writing --------

  // packet.replace(old, new) for a single byte
  function Replace(packet: seq<byte>, from: byte, to: seq<byte>): seq<byte> {
    if packet == [] then []
    else (if packet[0] == from then to else [packet[0]]) + Replace(packet[1..], from, to)
  }

  /** The bytes sent for a packet: two replacements between two END bytes. */
  function Encode(packet: seq<byte>): seq<byte> {
    [END] + Replace(Replace(packet, ESC, [ESC, ESC_ESC]), END, [ESC, ESC_END]) + [END]
  }

  // the escape of one byte
  function EscapeByte(b: byte): seq<byte> {
    if b == ESC then [ESC, ESC_ESC] else if b == END then [ESC, ESC_END] else [b]
  }

  function Escape(packet: seq<byte>): seq<byte> {
    if packet == [] then [] else EscapeByte(packet[0]) + Escape(packet[1..])
  }

  lemma {:induction false} ReplaceConcat(a: seq<byte>, b: seq<byte>, from: byte, to: seq<byte>)
    ensures Replace(a + b, from, to) == Replace(a, from, to) + Replace(b, from, to)
  {
    if a == [] {
      assert a + b == b;
    } else {
      assert (a + b)[1..] == a[1..] + b;
      ReplaceConcat(a[1..], b, from, to);
    }
  }

  /** The two replacements escape byte by byte: the second does not touch what the
      first has put in. */
  lemma {:induction false} TwoPassesEscape(packet: seq<byte>)
    ensures Replace(Replace(packet, ESC, [ESC, ESC_ESC]), END, [ESC, ESC_END]) == Escape(packet)
  {
    if packet != [] {
      var first := if packet[0] == ESC then [ESC, ESC_ESC] else [packet[0]];
      ReplaceConcat(first, Replace(packet[1..], ESC, [ESC, ESC_ESC]), END, [ESC, ESC_END]);
      TwoPassesEscape(packet[1..]);
      assert Replace([packet[0]], END, [ESC, ESC_END]) == if packet[0] == END then [ESC, ESC_END] else [packet[0]] by {
        assert [packet[0]][1..] == [];
      }
      assert Replace([ESC, ESC_ESC], END, [ESC, ESC_END]) == [ESC, ESC_ESC] by {
        assert [ESC, ESC_ESC][1..] == [ESC_ESC] && [ESC_ESC][1..] == [];
      }
    }
  }

  /** No END byte is left inside a frame. */
  lemma {:induction false} EscapeHasNoEnd(packet: seq<byte>)
    ensures END !in Escape(packet)
  {
    if packet != [] {
      EscapeHasNoEnd(packet[1..]);
    }
  }

  // -------- reading --------

  // what the reader remembers between two bytes
  datatype State =
    | Idle                                               // partial_packet is None
    | Reading(partial: seq<byte>, inEscape: bool)

  datatype SlipError = TimedOut | InvalidHead(b: byte) | InvalidEscape(b: byte)

  // the effect of one byte: the next state and the packet completed, if any
  datatype Stepped = Stepped(state: State, packet: Option<seq<byte>>) | Failed(error: SlipError)

  function Step(s: State, b: byte): Stepped {
    match s
    case Idle => if b == END then Stepped(Reading([], false), None) else Failed(InvalidHead(b))
    case Reading(p, true) =>
      if b == ESC_END then Stepped(Reading(p + [END], false), None)
      else if b == ESC_ESC then Stepped(Reading(p + [ESC], false), None)
      else Failed(InvalidEscape(b))
    case Reading(p, false) =>
      if b == ESC then Stepped(Reading(p, true), None)
      else if b == END then Stepped(Idle, Some(p))
      else Stepped(Reading(p + [b], false), None)
  }

  datatype Outcome = Outcome(packets: seq<seq<byte>>, state: State, error: Option<SlipError>)

  /** All packets read from a byte stream, and the state or error at its end. */
  function Decode(s: State, bytes: seq<byte>): Outcome
    decreases bytes
  {
    if bytes == [] then Outcome([], s, None)
    else match Step(s, bytes[0])
      case Failed(e) => Outcome([], s, Some(e))
      case Stepped(next, packet) =>
        var rest := Decode(next, bytes[1..]);
        rest.(packets := Found(packet) + rest.packets)
  }

  function Found(packet: Option<seq<byte>>): seq<seq<byte>> {
    match packet case Some(p) => [p] case None => []
  }

  function EncodeAll(packets: seq<seq<byte>>): seq<byte> {
    if packets == [] then [] else Encode(packets[0]) + EncodeAll(packets[1..])
  }

  lemma {:induction false} DecodeConcat(s: State, a: seq<byte>, b: seq<byte>)
    ensures Decode(s, a + b) ==
      var first := Decode(s, a);
      if first.error.Some? then first
      else
        var second := Decode(first.state, b);
        second.(packets := first.packets + second.packets)
    decreases a
  {
    if a == [] {
      assert a + b == b;
      assert [] + Decode(s, b).packets == Decode(s, b).packets;
    } else {
      assert (a + b)[1..] == a[1..] + b;
      match Step(s, a[0])
      case Failed(_) =>
      case Stepped(next, packet) =>
        DecodeConcat(next, a[1..], b);
        var x, y := Decode(next, a[1..]), Decode(Decode(next, a[1..]).state, b);
        assert Found(packet) + (x.packets + y.packets) == Found(packet) + x.packets + y.packets;
    }
  }

  lemma DecodeOne(s: State, b: byte)
    ensures Decode(s, [b]) == if Step(s, b).Failed? then Outcome([], s, Some(Step(s, b).error))
                              else Outcome(Found(Step(s, b).packet), Step(s, b).state, None)
  {
    assert [b][1..] == [];
    if Step(s, b).Stepped? {
      assert Found(Step(s, b).packet) + [] == Found(Step(s, b).packet);
    }
  }

  lemma DecodeEmpty(s: State)
    ensures Decode(s, []) == Outcome([], s, None)
  {}

  lemma DecodeEscapedByte(p: seq<byte>, b: byte)
    ensures Decode(Reading(p, false), EscapeByte(b)) == Outcome([], Reading(p + [b], false), None)
  {
    if b == ESC || b == END {
      var e := EscapeByte(b);
      assert e == [ESC] + [e[1]];
      DecodeOne(Reading(p, false), ESC);
      DecodeOne(Reading(p, true), e[1]);
      DecodeConcat(Reading(p, false), [ESC], [e[1]]);
    } else {
      DecodeOne(Reading(p, false), b);
    }
  }

  lemma {:induction false} DecodeEscaped(p: seq<byte>, packet: seq<byte>)
    ensures Decode(Reading(p, false), Escape(packet)) == Outcome([], Reading(p + packet, false), None)
    decreases packet
  {
    hide Decode, EscapeByte;
    if packet == [] {
      assert p + packet == p;
      DecodeEmpty(Reading(p, false));
    } else {
      DecodeEscapedByte(p, packet[0]);
      DecodeEscaped(p + [packet[0]], packet[1..]);
      DecodeConcat(Reading(p, false), EscapeByte(packet[0]), Escape(packet[1..]));
      assert p + [packet[0]] + packet[1..] == p + packet;
    }
  }

  lemma DecodePacket(packet: seq<byte>)
    ensures Decode(Idle, Encode(packet)) == Outcome([packet], Idle, None)
  {
    hide Step;
    TwoPassesEscape(packet);
    var start, body := Reading([], false), Escape(packet);
    DecodeHeadAndTail(packet);
    DecodeEscaped([], packet);
    assert [] + packet == packet;
    DecodeConcat(Idle, [END], body);
    DecodeConcat(Idle, [END] + body, [END]);
  }

  lemma DecodeHeadAndTail(packet: seq<byte>)
    ensures Decode(Idle, [END]) == Outcome([], Reading([], false), None)
    ensures Decode(Reading(packet, false), [END]) == Outcome([packet], Idle, None)
  {
    DecodeOne(Idle, END);
    DecodeOne(Reading(packet, false), END);
  }

  lemma {:induction false} DecodeAll(packets: seq<seq<byte>>)
    ensures Decode(Idle, EncodeAll(packets)) == Outcome(packets, Idle, None)
  {
    hide Decode, Encode;
    if packets == [] {
      DecodeEmpty(Idle);
    } else {
      DecodePacket(packets[0]);
      DecodeAll(packets[1..]);
      DecodeConcat(Idle, Encode(packets[0]), EncodeAll(packets[1..]));
      assert [packets[0]] + packets[1..] == packets;
    }
  }

  // what has been read up to a state: finished packets, then the packet under way
  function Written(packets: seq<seq<byte>>, s: State): seq<byte> {
    EncodeAll(packets) +
    match s
    case Idle => []
    case Reading(p, inEscape) => [END] + Escape(p) + (if inEscape then [ESC] else [])
  }

  lemma {:induction false} EscapeAppend(p: seq<byte>, b: byte)
    ensures Escape(p + [b]) == Escape(p) + EscapeByte(b)
  {
    if p == [] {
      assert p + [b] == [b] && [b][1..] == [];
    } else {
      assert (p + [b])[1..] == p[1..] + [b];
      EscapeAppend(p[1..], b);
    }
  }

  lemma {:induction false} EncodeAllAppend(packets: seq<seq<byte>>, p: seq<byte>)
    ensures EncodeAll(packets + [p]) == EncodeAll(packets) + Encode(p)
  {
    if packets == [] {
      assert packets + [p] == [p] && [p][1..] == [];
    } else {
      assert (packets + [p])[1..] == packets[1..] + [p];
      EncodeAllAppend(packets[1..], p);
    }
  }

  // one more byte read is one more byte written
  lemma StepWrites(packets: seq<seq<byte>>, s: State, b: byte)
    requires Step(s, b).Stepped?
    ensures Written(packets + Found(Step(s, b).packet), Step(s, b).state) == Written(packets, s) + [b]
  {
    hide Encode, EncodeAll, Escape, EscapeByte;
    assert packets + [] == packets;
    match s
    case Idle =>
      EscapeNothing();
    case Reading(p, inEscape) =>
      EscapeAppend(p, if inEscape then (if b == ESC_END then END else ESC) else b);
      EscapeByteIs(b);
      if !inEscape && b == END {
        EncodeAllAppend(packets, p);
        EncodeIs(p);
      }
  }

  lemma EscapeNothing()
    ensures Escape([]) == []
  {}

  lemma EscapeByteIs(b: byte)
    ensures EscapeByte(ESC) == [ESC, ESC_ESC] && EscapeByte(END) == [ESC, ESC_END]
    ensures b != ESC && b != END ==> EscapeByte(b) == [b]
  {}

  lemma EncodeIs(p: seq<byte>)
    ensures Encode(p) == [END] + Escape(p) + [END]
  {
    TwoPassesEscape(p);
  }

  lemma {:induction false} DecodeInverts(packets: seq<seq<byte>>, s: State, bytes: seq<byte>)
    requires Decode(s, bytes).error == None
    ensures Written(packets + Decode(s, bytes).packets, Decode(s, bytes).state) == Written(packets, s) + bytes
    decreases bytes
  {
    hide Written;
    hide Step;
    if bytes == [] {
      assert packets + [] == packets;
      assert Written(packets, s) + [] == Written(packets, s);
    } else {
      var step := Step(s, bytes[0]);
      StepWrites(packets, s, bytes[0]);
      DecodeInverts(packets + Found(step.packet), step.state, bytes[1..]);
      var more := Decode(step.state, bytes[1..]).packets;
      assert packets + Found(step.packet) + more == packets + (Found(step.packet) + more);
      assert Written(packets, s) + [bytes[0]] + bytes[1..] == Written(packets, s) + bytes;
    }
  }

  /** A byte stream decodes to a sequence of packets, with nothing left over,
      exactly when it is the concatenation of their encodings: decoding inverts
      encoding, and accepts nothing else. */
  lemma DecodesExactly(bytes: seq<byte>, packets: seq<seq<byte>>)
    ensures Decode(Idle, bytes) == Outcome(packets, Idle, None) <==> bytes == EncodeAll(packets)
  {
    hide Decode;
    DecodeAll(packets);
    var r := Decode(Idle, bytes);
    if r == Outcome(packets, Idle, None) {
      DecodeInverts([], Idle, bytes);
      assert [] + packets == packets;
      assert EncodeAll(packets) + [] == EncodeAll(packets);
    }
  }

  // -------- what is refused --------

  // where decoding fails, after bytes that decode to all its packets
  lemma {:induction false} FailsAt(s: State, bytes: seq<byte>) returns (n: nat)
    requires Decode(s, bytes).error.Some?
    ensures n < |bytes| && Decode(s, bytes[..n]).error == None
    ensures Decode(s, bytes[..n]).packets == Decode(s, bytes).packets
    ensures Step(Decode(s, bytes[..n]).state, bytes[n]) == Failed(Decode(s, bytes).error.value)
    decreases bytes
  {
    hide Step;
    match Step(s, bytes[0])
    case Failed(e) =>
      n := 0;
    case Stepped(next, packet) =>
      n := FailsAt(next, bytes[1..]);
      assert bytes[..n + 1][1..] == bytes[1..][..n];
      n := n + 1;
  }

  lemma DecodeFails(s: State, before: seq<byte>, b: byte, rest: seq<byte>)
    requires Decode(s, before).error == None && Step(Decode(s, before).state, b).Failed?
    ensures var r := Decode(s, before + [b] + rest);
      r.packets == Decode(s, before).packets && r.error == Some(Step(Decode(s, before).state, b).error)
  {
    hide Decode, Step;
    DecodeConcat(s, before, [b]);
    DecodeConcat(s, before + [b], rest);
    DecodeOne(Decode(s, before).state, b);
    assert Decode(s, before).packets + [] == Decode(s, before).packets;
  }

  // a byte other than END behind whole packets
  ghost predicate BadHead(bytes: seq<byte>, packets: seq<seq<byte>>, b: byte, rest: seq<byte>) {
    bytes == EncodeAll(packets) + [b] + rest && b != 0xC0
  }

  // a byte that ends no escape, in the packet after them
  ghost predicate BadEscape(bytes: seq<byte>, packets: seq<seq<byte>>, p: seq<byte>, b: byte, rest: seq<byte>) {
    bytes == EncodeAll(packets) + [0xC0] + Escape(p) + [0xDB] + [b] + rest && b != 0xDC && b != 0xDD
  }

  // what stands before the byte that is refused
  lemma Refused(bytes: seq<byte>, packets: seq<seq<byte>>, n: nat)
    requires n < |bytes| && Decode(Idle, bytes[..n]).error == None && Decode(Idle, bytes[..n]).packets == packets
    requires Step(Decode(Idle, bytes[..n]).state, bytes[n]).Failed?
    ensures match Step(Decode(Idle, bytes[..n]).state, bytes[n]).error
      case InvalidHead(b) => BadHead(bytes, packets, b, bytes[n + 1..])
      case InvalidEscape(b) => exists p, rest :: BadEscape(bytes, packets, p, b, rest)
      case TimedOut => false
  {
    hide Decode, EncodeAll, Escape;
    var state, rest := Decode(Idle, bytes[..n]).state, bytes[n + 1..];
    DecodeInverts([], Idle, bytes[..n]);
    assert [] + packets == packets;
    NothingWritten(bytes[..n]);
    assert bytes == bytes[..n] + [bytes[n]] + rest;
    match state
    case Idle =>
      assert EncodeAll(packets) + [] == EncodeAll(packets);
    case Reading(p, inEscape) =>
      assert EncodeAll(packets) + ([END] + Escape(p) + [ESC]) == EncodeAll(packets) + [END] + Escape(p) + [ESC];
      assert BadEscape(bytes, packets, p, bytes[n], rest);
  }

  lemma NothingWritten(bytes: seq<byte>)
    ensures Written([], Idle) + bytes == bytes
  {
    assert Written([], Idle) == [];
  }

  /** A stream is refused, after certain packets, exactly when behind their encodings
      comes something that starts no packet, or a packet with something that ends no
      escape, and the error names that byte. */
  lemma RefusesExactly(bytes: seq<byte>, packets: seq<seq<byte>>, b: byte)
    ensures var r := Decode(Idle, bytes);
      && (r.packets == packets && r.error == Some(InvalidHead(b)) <==> exists rest :: BadHead(bytes, packets, b, rest))
      && (r.packets == packets && r.error == Some(InvalidEscape(b)) <==>
            exists p, rest :: BadEscape(bytes, packets, p, b, rest))
  {
    hide Decode, EncodeAll, Escape;
    var r := Decode(Idle, bytes);
    DecodeAll(packets);
    forall rest | BadHead(bytes, packets, b, rest)
      ensures r.packets == packets && r.error == Some(InvalidHead(b))
    {
      DecodeFails(Idle, EncodeAll(packets), b, rest);
    }
    forall p, rest | BadEscape(bytes, packets, p, b, rest)
      ensures r.packets == packets && r.error == Some(InvalidEscape(b))
    {
      OpenEscape(packets, p);
      DecodeFails(Idle, EncodeAll(packets) + [END] + Escape(p) + [ESC], b, rest);
    }
    if r.packets == packets && r.error.Some? {
      var n := FailsAt(Idle, bytes);
      Refused(bytes, packets, n);
    }
  }

  lemma OpenEscape(packets: seq<seq<byte>>, p: seq<byte>)
    ensures Decode(Idle, EncodeAll(packets) + [END] + Escape(p) + [ESC]) == Outcome(packets, Reading(p, true), None)
  {
    hide Decode, EncodeAll, Escape;
    DecodeAll(packets);
    DecodeHeadAndTail([]);
    DecodeEscaped([], p);
    assert [] + p == p;
    DecodeOne(Reading(p, false), ESC);
    DecodeConcat(Idle, EncodeAll(packets), [END]);
    DecodeConcat(Idle, EncodeAll(packets) + [END], Escape(p));
    DecodeConcat(Idle, EncodeAll(packets) + [END] + Escape(p), [ESC]);
  }

  // -------- the reader --------

  function Flatten(chunks: seq<seq<byte>>): seq<byte> {
    if chunks == [] then [] else chunks[0] + Flatten(chunks[1..])
  }

  lemma {:induction false} FlattenAppend(chunks: seq<seq<byte>>, c: seq<byte>)
    ensures Flatten(chunks + [c]) == Flatten(chunks) + c
  {
    if chunks == [] {
      assert chunks + [c] == [c] && [c][1..] == [];
    } else {
      assert (chunks + [c])[1..] == chunks[1..] + [c];
      FlattenAppend(chunks[1..], c);
    }
  }

  /** slip_reader: its local state, fed with the chunks that port.read returns. */
  class SlipReader {
    var partialPacket: Option<seq<byte>>
    var inEscape: bool

    constructor ()
      ensures View() == Idle
    {
      partialPacket, inEscape := None, false;
    }

    function View(): State
      reads this
    {
      match partialPacket case None => Idle case Some(p) => Reading(p, inEscape)
    }

    // the loop body for one byte
    method FeedByte(b: byte) returns (packet: Option<seq<byte>>, error: Option<SlipError>)
      requires partialPacket == None ==> !inEscape
      modifies this
      ensures partialPacket == None ==> !inEscape
      ensures match Step(old(View()), b)
        case Failed(e) => error == Some(e) && packet == None
        case Stepped(next, p) => error == None && packet == p && View() == next
    {
      packet, error := None, None;
      if partialPacket == None {
        if b == END {
          partialPacket := Some([]);
        } else {
          error := Some(InvalidHead(b));
        }
      } else if inEscape {
        inEscape := false;
        if b == ESC_END {
          partialPacket := Some(partialPacket.value + [END]);
        } else if b == ESC_ESC {
          partialPacket := Some(partialPacket.value + [ESC]);
        } else {
          error := Some(InvalidEscape(b));
        }
      } else if b == ESC {
        inEscape := true;
      } else if b == END {
        packet, partialPacket := partialPacket, None;
      } else {
        partialPacket := Some(partialPacket.value + [b]);
      }
    }

    // one read; an empty one is a timeout
    method Feed(readBytes: seq<byte>) returns (packets: seq<seq<byte>>, error: Option<SlipError>)
      requires partialPacket == None ==> !inEscape
      modifies this
      ensures partialPacket == None ==> !inEscape
      ensures if readBytes == [] then packets == [] && error == Some(TimedOut) && View() == old(View())
              else
                var r := Decode(old(View()), readBytes);
                packets == r.packets && error == r.error && (error == None ==> View() == r.state)
    {
      hide Step;
      packets, error := [], None;
      if readBytes == [] {
        return [], Some(TimedOut);
      }
      ghost var goal := Decode(View(), readBytes);
      assert readBytes[0..] == readBytes;
      Nothing(goal);
      for i := 0 to |readBytes|
        invariant partialPacket == None ==> !inEscape
        invariant error == None && goal == After(packets, Decode(View(), readBytes[i..]))
      {
        assert readBytes[i..][1..] == readBytes[i + 1..];
        ghost var before := View();
        var packet;
        packet, error := FeedByte(readBytes[i]);
        AfterStep(packets, before, readBytes[i..]);
        if error.Some? {
          return;
        }
        packets := packets + Found(packet);
      }
      assert packets + [] == packets;
    }

    /** Reading until the port has delivered all its chunks: the packets do not
        depend on how the stream was cut into reads. */
    method ReadAll(chunks: seq<seq<byte>>) returns (packets: seq<seq<byte>>, error: Option<SlipError>)
      requires View() == Idle && !inEscape && forall c :: c in chunks ==> c != []
      modifies this
      ensures var r := Decode(Idle, Flatten(chunks));
              packets == r.packets && error == r.error && (error == None ==> View() == r.state)
    {
      hide Decode;
      packets, error := [], None;
      DecodeNothing();
      for i := 0 to |chunks|
        invariant partialPacket == None ==> !inEscape
        invariant error == None && Decode(Idle, Flatten(chunks[..i])) == Outcome(packets, View(), None)
      {
        var more;
        assert chunks[..i + 1] == chunks[..i] + [chunks[i]];
        FlattenAppend(chunks[..i], chunks[i]);
        DecodeConcat(Idle, Flatten(chunks[..i]), chunks[i]);
        assert chunks[i] in chunks;
        more, error := Feed(chunks[i]);
        packets := packets + more;
        if error.Some? {
          StopsAt(chunks, i + 1);
          return;
        }
      }
      assert chunks[..|chunks|] == chunks;
    }
  }

  function After(packets: seq<seq<byte>>, r: Outcome): Outcome {
    r.(packets := packets + r.packets)
  }

  lemma Nothing(r: Outcome)
    ensures After([], r) == r
  {
    assert [] + r.packets == r.packets;
  }

  lemma AfterStep(packets: seq<seq<byte>>, s: State, bytes: seq<byte>)
    requires bytes != []
    ensures var step := Step(s, bytes[0]);
            After(packets, Decode(s, bytes)) ==
              if step.Failed? then Outcome(packets, s, Some(step.error))
              else After(packets + Found(step.packet), Decode(step.state, bytes[1..]))
  {
    hide Step;
    var step := Step(s, bytes[0]);
    if step.Stepped? {
      var more := Decode(step.state, bytes[1..]).packets;
      assert packets + (Found(step.packet) + more) == packets + Found(step.packet) + more;
    } else {
      assert packets + [] == packets;
    }
  }

  lemma DecodeNothing()
    ensures Decode(Idle, Flatten([])) == Outcome([], Idle, None)
  {}

  // after an error nothing more is read
  lemma StopsAt(chunks: seq<seq<byte>>, n: nat)
    requires n <= |chunks| && Decode(Idle, Flatten(chunks[..n])).error.Some?
    ensures Decode(Idle, Flatten(chunks)) == Decode(Idle, Flatten(chunks[..n]))
  {
    FlattenConcat(chunks[..n], chunks[n..]);
    assert chunks[..n] + chunks[n..] == chunks;
    DecodeConcat(Idle, Flatten(chunks[..n]), Flatten(chunks[n..]));
  }

  lemma {:induction false} FlattenConcat(a: seq<seq<byte>>, b: seq<seq<byte>>)
    ensures Flatten(a + b) == Flatten(a) + Flatten(b)
  {
    if a == [] {
      assert a + b == b;
    } else {
      assert (a + b)[1..] == a[1..] + b;
      FlattenConcat(a[1..], b);
    }
  }
}
