/** Bytes, little-endian words and the exclusive-or checksum shared by the ESP32 tools. */
module Bytes {

  type byte = x: int | 0 <= x < 256

  const U32_LIMIT: nat := 0x1_0000_0000

  datatype Option<+T> = None | Some(value: T)

  datatype Result<+T, +E> = Ok(value: T) | Err(error: E)

  function Zeros(n: nat): (z: seq<byte>)
    ensures |z| == n
    ensures forall i :: 0 <= i < n ==> z[i] == 0
  {
    seq(n, _ => 0)
  }

  function Min(a: nat, b: nat): nat {
    if a < b then a else b
  }

  // struct.pack('<I', n)
  function Le32(n: nat): (b: seq<byte>)
    requires n < U32_LIMIT
    ensures |b| == 4
  {
    [n % 0x100, n / 0x100 % 0x100, n / 0x1_0000 % 0x100, n / 0x100_0000]
  }

  // struct.unpack('<I', b)
  function FromLe32(b: seq<byte>): (n: nat)
    requires |b| == 4
    ensures n < U32_LIMIT
  {
    var b0: nat, b1: nat, b2: nat, b3: nat := b[0], b[1], b[2], b[3];
    b0 + 0x100 * b1 + 0x1_0000 * b2 + 0x100_0000 * b3
  }

  lemma Le32RoundTrip(n: nat)
    requires n < U32_LIMIT
    ensures FromLe32(Le32(n)) == n
  {
    assert n / 0x1_0000 == n / 0x100 / 0x100;
    assert n / 0x100_0000 == n / 0x1_0000 / 0x100;
  }

  lemma FromLe32RoundTrip(b: seq<byte>)
    requires |b| == 4
    ensures Le32(FromLe32(b)) == b
  {
    var b0: nat, b1: nat, b2: nat, b3: nat := b[0], b[1], b[2], b[3];
    var m2: nat := b2 + 0x100 * b3;
    var m1: nat := b1 + 0x100 * m2;
    LowByte(b0, m1);
    LowByte(b1, m2);
    LowByte(b2, b3);
    Shifts(FromLe32(b));
    assert FromLe32(b) == b0 + 0x100 * m1;
    assert b == [b0, b1, b2, b3];
  }

  lemma LowByte(low: nat, high: nat)
    requires low < 0x100
    ensures (low + 0x100 * high) % 0x100 == low && (low + 0x100 * high) / 0x100 == high
  {}

  lemma Shifts(n: nat)
    ensures n / 0x1_0000 == n / 0x100 / 0x100 && n / 0x100_0000 == n / 0x100 / 0x100 / 0x100
  {}

  // -------- exclusive or --------

  function Xor(a: bv8, b: bv8): bv8 {
    a ^ b
  }

  lemma XorLaws(a: bv8, b: bv8, c: bv8)
    ensures Xor(Xor(a, b), c) == Xor(a, Xor(b, c))
    ensures Xor(a, Xor(b, c)) == Xor(b, Xor(a, c))
    ensures Xor(0, a) == a && Xor(a, 0) == a
  {}

  /** ESPLoader.checksum: the state exclusive-or'ed with every byte in turn. */
  function Checksum(data: seq<byte>, state: bv8): bv8
    decreases data
  {
    if data == [] then state else Checksum(data[1..], Xor(state, data[0] as bv8))
  }

  /** The exclusive or of all bytes of a sequence. */
  function XorOf(data: seq<byte>): bv8 {
    if data == [] then 0 else Xor(data[0] as bv8, XorOf(data[1..]))
  }

  lemma {:induction false} ChecksumIsXorOf(data: seq<byte>, state: bv8)
    ensures Checksum(data, state) == Xor(state, XorOf(data))
    decreases data
  {
    hide Xor;
    XorLaws(state, 0, 0);
    if data != [] {
      ChecksumIsXorOf(data[1..], Xor(state, data[0] as bv8));
      XorLaws(state, data[0] as bv8, XorOf(data[1..]));
    }
  }

  lemma {:induction false} XorOfConcat(a: seq<byte>, b: seq<byte>)
    ensures XorOf(a + b) == Xor(XorOf(a), XorOf(b))
  {
    hide Xor;
    if a == [] {
      assert a + b == b;
      XorLaws(XorOf(b), 0, 0);
    } else {
      assert (a + b)[1..] == a[1..] + b;
      XorOfConcat(a[1..], b);
      XorLaws(a[0] as bv8, XorOf(a[1..]), XorOf(b));
    }
  }

  lemma {:induction false} XorOfZeros(n: nat)
    ensures XorOf(Zeros(n)) == 0
  {
    if n != 0 {
      assert Zeros(n)[1..] == Zeros(n - 1);
      XorOfZeros(n - 1);
    }
  }
}
