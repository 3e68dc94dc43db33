/** The Arduino core's Print and Stream: loops that write a number backwards and read bytes once. */
module ArduinoStream {
  import opened ArduinoNumber
  import opened ArduinoText
  import opened Bytes
  import opened StreamFind

  function Quotient(m: nat, base: nat): nat
    requires base > 0
  {
    m / base
  }

  // what a division leaves
  function Left(m: nat, base: nat, quotient: nat): int {
    m - base * quotient
  }

  /** printNumber: the digits from the last to the first, at the end of a buffer of 33 bytes. */
  method PrintNumber(number: nat, numberBase: nat) returns (text: seq<byte>)
    requires number < U32_LIMIT && numberBase < 256
    ensures text == CString(Digits(number, if numberBase < 2 then 10 else numberBase) + [0])
  {
    hide Digits, DigitChar, CString, Left, Quotient;
    var buf := new byte[33];
    var str := buf.Length - 1;
    buf[str] := 0;
    var base := if numberBase < 2 then 10 else numberBase;
    ghost var all := Digits(number, base);
    DigitsFit32(number, base);
    var n: nat := number;
    assert all + buf[str..] == all + [0];
    while true
      invariant |Digits(n, base)| <= str <= 32
      invariant Digits(n, base) + buf[str..] == all + [0]
      decreases n
    {
      var m := n;
      n := Quotient(n, base);
      LastDigit(m, base);
      str := str - 1;
      ghost var was := buf[str + 1..];
      var c := DigitChar(Left(m, base, n));
      PutBefore(buf, str, c);
      if n == 0 {
        break;
      }
      assert Digits(m, base) + was == Digits(n, base) + ([c] + was);
    }
    text := CString(buf[str..]);
  }

  // *--str = c
  method PutBefore(buf: array<byte>, str: nat, c: byte)
    requires str < buf.Length
    modifies buf
    ensures buf[str..] == [c] + old(buf[str + 1..])
  {
    buf[str] := c;
  }

  // print(long, int); base 0 writes the number as one byte
  method Print(number: int, base: nat) returns (text: seq<byte>)
    requires LONG_MIN <= number < LONG_LIMIT && base < 256
    ensures base == 0 ==> text == [number % 256]
    ensures base == 10 ==> text == PrintLong(number, 10)
    ensures base != 0 ==> text == CString(PrintLong(number, base) + [0])
  {
    if base == 0 {
      return [number % 256];
    } else if base == 10 {
      if number < 0 {
        var t := [MINUS];
        var n := Wrap32(-number);
        var digits := PrintNumber(Unsigned(n), 10);
        DecimalIsText(Unsigned(n));
        TextEnds(t + Digits(Unsigned(n), 10));
        return t + digits;
      }
      DecimalIsText(Unsigned(number));
      text := PrintNumber(Unsigned(number), 10);
    } else {
      text := PrintNumber(Unsigned(number), base);
    }
  }

  class Stream {
    // what has not been read yet; the end is a timeout
    var rest: seq<byte>

    constructor (bytes: seq<byte>)
      ensures rest == bytes
    {
      rest := bytes;
    }

    method TimedRead() returns (c: int)
      modifies this
      ensures old(rest) == [] ==> c == -1 && rest == []
      ensures old(rest) != [] ==> c == old(rest)[0] && rest == old(rest)[1..]
    {
      if rest == [] {
        return -1;
      }
      c := rest[0];
      rest := rest[1..];
    }

    method TimedPeek() returns (c: int)
      ensures c == if rest == [] then -1 else rest[0]
    {
      c := if rest == [] then -1 else rest[0];
    }

    method PeekNextDigit() returns (c: int)
      modifies this
      ensures rest == SkipToNumber(old(rest))
      ensures c == if rest == [] then -1 else rest[0]
      ensures c == -1 || c == MINUS || (0 <= c < 256 && IsDigit(c))
    {
      while true
        invariant SkipToNumber(rest) == SkipToNumber(old(rest))
        decreases rest
      {
        c := TimedPeek();
        if c < 0 {
          return;
        }
        if c == MINUS {
          return;
        }
        if c >= ZERO && c <= 57 {
          return;
        }
        var _ := TimedRead();
      }
    }

    method ParseInt(skipChar: byte) returns (result: int)
      modifies this
      ensures (result, rest) == ArduinoNumber.ParseInt(old(rest), skipChar)
    {
      hide Value, Wrap32, SkipToNumber;
      var isNegative := false;
      var value := 0;
      var c := PeekNextDigit();
      if c < 0 {
        return 0;
      }
      ghost var t := rest;
      ghost var n := 1 + RunLength(t[1..], skipChar);
      ghost var k := 0;
      NoValue(t, skipChar);
      while true
        invariant 0 <= k < n <= |t| && rest == t[k..] && c == rest[0]
        invariant k + 1 + RunLength(rest[1..], skipChar) == n
        invariant k > 0 ==> IsDigit(rest[0]) || rest[0] == skipChar
        invariant value == Value(0, t[..k], skipChar)
        invariant isNegative <==> k > 0 && t[0] == MINUS && skipChar != MINUS
        decreases |t| - k
      {
        Extend(t, k, skipChar);
        if c == skipChar {
        } else if c == MINUS {
          isNegative := true;
        } else if c >= ZERO && c <= 57 {
          value := Wrap32(value * 10 + c - ZERO);
        }
        var _ := TimedRead();
        c := TimedPeek();
        k := k + 1;
        if !((c >= ZERO && c <= 57) || c == skipChar) {
          break;
        }
      }
      if isNegative {
        value := Wrap32(-value);
      }
      result := value;
    }

    method FindUntil(target: seq<byte>, terminator: seq<byte>) returns (found: bool)
      modifies this
      ensures target == [] || target[0] == 0 ==> found && rest == old(rest)
      ensures target != [] && target[0] != 0 ==> (found, rest) == Search(target, terminator, 0, 0, old(rest))
    {
      var index, termIndex := 0, 0;
      if target == [] || target[0] == 0 {
        return true;
      }
      var c := TimedRead();
      while c > 0
        invariant index < |target| && (terminator != [] ==> termIndex < |terminator|)
        invariant terminator == [] ==> termIndex == 0
        invariant -1 <= c < 256 && (c < 0 ==> rest == [])
        invariant (if c < 0 then (false, []) else Search(target, terminator, index, termIndex, [c] + rest))
               == Search(target, terminator, 0, 0, old(rest))
        decreases |rest|, c
      {
        assert ([c] + rest)[1..] == rest;
        if c != target[index] {
          index := 0;
        }
        if c == target[index] {
          index := index + 1;
          if index >= |target| {
            return true;
          }
        }
        if |terminator| > 0 && c == terminator[termIndex] {
          termIndex := termIndex + 1;
          if termIndex >= |terminator| {
            return false;
          }
        } else {
          termIndex := 0;
        }
        assert rest != [] ==> rest == [rest[0]] + rest[1..];
        c := TimedRead();
      }
      assert c == 0 ==> ([c] + rest)[1..] == rest;
      return false;
    }
  }

  lemma LastDigit(m: nat, base: nat)
    requires base >= 2
    ensures Left(m, base, Quotient(m, base)) >= 0
    ensures Quotient(m, base) != 0 ==> Quotient(m, base) < m
    ensures var last := [DigitChar(Left(m, base, Quotient(m, base)))];
      Digits(m, base) == if Quotient(m, base) == 0 then last else Digits(Quotient(m, base), base) + last
  {
    hide DigitChar;
    DivMod(m, base);
    var q, r := m / base, m % base;
    assert m - base * q == r;
    if m < base {
      assert r == m;
    }
  }

  lemma NoValue(t: seq<byte>, skip: byte)
    ensures Value(0, t[..0], skip) == 0
  {}

  // one more character of the number, and what is left to run over
  lemma Extend(t: seq<byte>, k: nat, skip: byte)
    requires k < |t|
    ensures Value(0, t[..k + 1], skip) == AddDigit(Value(0, t[..k], skip), t[k], skip)
    ensures t[k..][1..] == t[k + 1..]
  {
    var v := Value(0, t[..k], skip);
    assert t[..k + 1] == t[..k] + [t[k]];
    ValueOfConcat(0, t[..k], [t[k]], skip);
    assert [t[k]][1..] == [];
    assert Value(AddDigit(v, t[k], skip), [], skip) == AddDigit(v, t[k], skip);
  }

  lemma DecimalIsText(n: nat)
    ensures NulFree(Digits(n, 10)) && CString(Digits(n, 10) + [0]) == Digits(n, 10)
  {
    DigitsReadBack(n);
    TextEnds(Digits(n, 10));
  }

  lemma TextEnds(s: seq<byte>)
    requires NulFree(s)
    ensures CString(s + [0]) == s
  {
    assert (s + [0])[..|s|] == s;
    CStringEnds(s + [0], |s|);
  }
}
