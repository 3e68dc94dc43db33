/** Print::printNumber and Stream::parseInt as functions: decimal text of a 32-bit long, there and back. */
module ArduinoNumber {
  import opened ArduinoText
  import opened Bytes

  const NO_SKIP_CHAR: byte := 1
  const MINUS: byte := 45
  const ZERO: byte := 48

  const LONG_MIN: int := -0x8000_0000
  const LONG_LIMIT: int := 0x8000_0000

  // a long after two's-complement wrap-around
  function Wrap32(v: int): (w: int)
    ensures LONG_MIN <= w < LONG_LIMIT
    ensures LONG_MIN <= v < LONG_LIMIT ==> w == v
  {
    (v + LONG_LIMIT) % (2 * LONG_LIMIT) - LONG_LIMIT
  }

  // the conversion to unsigned long
  function Unsigned(v: int): (u: nat)
    ensures u < U32_LIMIT
  {
    v % U32_LIMIT
  }

  predicate IsDigit(c: byte) {
    ZERO <= c <= 57
  }

  // -------- printing --------

  // char is unsigned on this processor, so large digits of large bases wrap around
  function DigitChar(d: nat): byte {
    if d < 10 then d + ZERO else (d + 65 - 10) % 256
  }

  function Digits(n: nat, base: nat): (s: seq<byte>)
    requires base >= 2
    ensures s != []
  {
    if n < base then [DigitChar(n)] else Digits(n / base, base) + [DigitChar(n % base)]
  }

  function DigitValue(c: byte): nat {
    if c >= 65 then c - 65 + 10 else if c >= ZERO then c - ZERO else 0
  }

  /** What a text denotes in a base, by positions. */
  function Denotes(s: seq<byte>, base: nat): nat {
    if s == [] then 0 else Denotes(s[..|s| - 1], base) * base + DigitValue(s[|s| - 1])
  }

  lemma DivMod(m: nat, base: nat)
    requires base >= 2
    ensures base * (m / base) + m % base == m && 0 <= m % base < base
    ensures m < base <==> m / base == 0
    ensures m >= base ==> 0 < m / base < m
  {
    if m >= base {
      Twice(m / base, base);
    }
  }

  lemma DigitIsRead(d: nat)
    requires d < 36
    ensures DigitValue(DigitChar(d)) == d
  {}

  lemma DenotesLast(s: seq<byte>, c: byte, base: nat)
    ensures Denotes(s + [c], base) == Denotes(s, base) * base + DigitValue(c)
  {
    assert (s + [c])[..|s|] == s;
  }

  /** The printed digits denote the number, in every base that has digits and letters for it. */
  lemma {:induction false} DigitsDenote(n: nat, base: nat)
    requires 2 <= base <= 36
    ensures Denotes(Digits(n, base), base) == n
  {
    hide DigitChar, DigitValue, Denotes;
    DivMod(n, base);
    DigitIsRead(n % base);
    if n >= base {
      DigitsDenote(n / base, base);
      DenotesLast(Digits(n / base, base), DigitChar(n % base), base);
    } else {
      DenotesNothing(base);
      DenotesLast([], DigitChar(n), base);
      assert [] + [DigitChar(n)] == [DigitChar(n)];
    }
  }

  lemma DenotesNothing(base: nat)
    ensures Denotes([], base) == 0
  {}

  function Power(b: nat, k: nat): nat {
    if k == 0 then 1 else b * Power(b, k - 1)
  }

  // a number below 2^k has at most k digits in any base
  lemma {:induction false} DigitsFit(n: nat, base: nat, k: nat)
    requires base >= 2 && k >= 1 && n < Power(2, k)
    ensures |Digits(n, base)| <= k
  {
    hide DigitChar;
    if n >= base {
      assert k > 1;
      DivMod(n, base);
      Halves(n, base);
      DigitsFit(n / base, base, k - 1);
    }
  }

  lemma Halves(n: nat, base: nat)
    requires base >= 2
    ensures 2 * (n / base) <= n
  {
    DivMod(n, base);
    Twice(n / base, base);
  }

  lemma Twice(q: nat, base: nat)
    requires base >= 2
    ensures 2 * q <= base * q
  {}

  /** Print::print(long, int), for the bases that print text. */
  function PrintLong(n: int, base: nat): seq<byte>
    requires LONG_MIN <= n < LONG_LIMIT && base != 0
  {
    if base == 10 && n < 0 then [MINUS] + Digits(Unsigned(Wrap32(-n)), 10)
    else Digits(Unsigned(n), if base < 2 then 10 else base)
  }

  // -------- parsing --------

  // what peekNextDigit leaves
  function SkipToNumber(s: seq<byte>): (t: seq<byte>)
    ensures |t| <= |s|
  {
    if s == [] || s[0] == MINUS || IsDigit(s[0]) then s else SkipToNumber(s[1..])
  }

  // one character of the number
  function AddDigit(v: int, c: byte, skip: byte): int {
    if c == skip then v
    else if c != MINUS && IsDigit(c) then Wrap32(v * 10 + c - ZERO)
    else v
  }

  function Value(v: int, s: seq<byte>, skip: byte): int
    decreases s
  {
    if s == [] then v else Value(AddDigit(v, s[0], skip), s[1..], skip)
  }

  // how many digits and skipped characters follow
  function RunLength(s: seq<byte>, skip: byte): (n: nat)
    ensures n <= |s|
  {
    if s != [] && (IsDigit(s[0]) || s[0] == skip) then 1 + RunLength(s[1..], skip) else 0
  }

  /** Stream::parseInt(skipChar): the value, and the bytes left unread. */
  function ParseInt(s: seq<byte>, skip: byte): (int, seq<byte>) {
    var t := SkipToNumber(s);
    if t == [] then (0, [])
    else
      var n := 1 + RunLength(t[1..], skip);
      var v := Value(0, t[..n], skip);
      (if t[0] == MINUS && skip != MINUS then Wrap32(-v) else v, t[n..])
  }

  // -------- the round trip --------

  lemma {:induction false} ValueOfConcat(v: int, a: seq<byte>, b: seq<byte>, skip: byte)
    ensures Value(v, a + b, skip) == Value(Value(v, a, skip), b, skip)
    decreases a
  {
    if a == [] {
      assert a + b == b;
    } else {
      assert (a + b)[1..] == a[1..] + b;
      ValueOfConcat(AddDigit(v, a[0], skip), a[1..], b, skip);
    }
  }

  lemma WrapShift(v: int, k: int)
    ensures Wrap32(v + 0x1_0000_0000 * k) == Wrap32(v)
  {}

  lemma WrapDiffers(v: int) returns (k: int)
    ensures v == Wrap32(v) + 0x1_0000_0000 * k
  {
    k := (v + LONG_LIMIT) / 0x1_0000_0000;
  }

  lemma WrapStep(n: nat)
    ensures Wrap32(Wrap32(n / 10) * 10 + n % 10) == Wrap32(n)
  {
    hide Wrap32;
    var k := WrapDiffers(n / 10);
    WrapShift(Wrap32(n / 10) * 10 + n % 10, 10 * k);
  }

  lemma {:induction false} DigitsReadBack(n: nat)
    ensures Value(0, Digits(n, 10), NO_SKIP_CHAR) == Wrap32(n)
    ensures forall i :: 0 <= i < |Digits(n, 10)| ==> IsDigit(Digits(n, 10)[i])
  {
    if n < 10 {
      assert Value(Wrap32(n), [], NO_SKIP_CHAR) == Wrap32(n);
    } else {
      DigitsReadBack(n / 10);
      WrapStep(n);
      var last := [DigitChar(n % 10)];
      ValueOfConcat(0, Digits(n / 10, 10), last, NO_SKIP_CHAR);
      assert last[1..] == [];
    }
  }

  lemma {:induction false} NoLeadingZero(n: nat)
    ensures Digits(n, 10)[0] == ZERO <==> n == 0
  {
    if n >= 10 {
      NoLeadingZero(n / 10);
    }
  }

  lemma {:induction false} SkipsPrefix(prefix: seq<byte>, s: seq<byte>)
    requires forall i :: 0 <= i < |prefix| ==> prefix[i] != MINUS && !IsDigit(prefix[i])
    requires s != [] && (s[0] == MINUS || IsDigit(s[0]))
    ensures SkipToNumber(prefix + s) == s
  {
    if prefix == [] {
      assert prefix + s == s;
    } else {
      assert (prefix + s)[1..] == prefix[1..] + s;
      SkipsPrefix(prefix[1..], s);
    }
  }

  lemma {:induction false} RunOfDigits(a: seq<byte>, b: seq<byte>, skip: byte)
    requires forall i :: 0 <= i < |a| ==> IsDigit(a[i])
    ensures RunLength(a + b, skip) == |a| + RunLength(b, skip)
  {
    if a == [] {
      assert a + b == b;
    } else {
      assert (a + b)[1..] == a[1..] + b;
      RunOfDigits(a[1..], b, skip);
    }
  }

  // what follows the number once the skipped characters are gone
  function DropSkips(s: seq<byte>): seq<byte> {
    if s != [] && s[0] == NO_SKIP_CHAR then DropSkips(s[1..]) else s
  }

  /** No digit can be reached from the end of the number through skipped characters only. */
  predicate Delimited(s: seq<byte>) {
    var t := DropSkips(s);
    t == [] || !IsDigit(t[0])
  }

  lemma {:induction false} RunOfSkips(v: int, s: seq<byte>)
    requires Delimited(s)
    ensures var n := RunLength(s, NO_SKIP_CHAR);
      Value(v, s[..n], NO_SKIP_CHAR) == v && s[n..] == DropSkips(s)
  {
    var n := RunLength(s, NO_SKIP_CHAR);
    if n > 0 {
      RunOfSkips(v, s[1..]);
      assert s[..n][1..] == s[1..][..n - 1];
    }
  }

  // a digit behind skipped characters is read as well
  lemma {:induction false} RunPassesSkips(s: seq<byte>)
    requires !Delimited(s)
    ensures |s| - RunLength(s, NO_SKIP_CHAR) < |DropSkips(s)|
  {
    if s[0] == NO_SKIP_CHAR {
      RunPassesSkips(s[1..]);
    }
  }

  // a sign and digits, or digits, and what follows
  lemma ReadsText(text: seq<byte>, suffix: seq<byte>)
    requires text != [] && (text[0] == MINUS || IsDigit(text[0]))
    requires forall i :: 1 <= i < |text| ==> IsDigit(text[i])
    ensures ParseInt(text + suffix, NO_SKIP_CHAR).1 == suffix[RunLength(suffix, NO_SKIP_CHAR)..]
    ensures Delimited(suffix) ==>
      var v := Value(0, text, NO_SKIP_CHAR);
      ParseInt(text + suffix, NO_SKIP_CHAR)
        == (if text[0] == MINUS then Wrap32(-v) else v, DropSkips(suffix))
  {
    hide Wrap32, Value, RunLength, DropSkips, Delimited, SkipToNumber, IsDigit, ParseInt;
    var t := text + suffix;
    var k := RunLength(suffix, NO_SKIP_CHAR);
    StartsHere(t);
    assert t[1..] == text[1..] + suffix;
    RunOfDigits(text[1..], suffix, NO_SKIP_CHAR);
    ValueOfConcat(0, text, suffix[..k], NO_SKIP_CHAR);
    if Delimited(suffix) {
      RunOfSkips(Value(0, text, NO_SKIP_CHAR), suffix);
    }
    assert t[..|text| + k] == text + suffix[..k] && t[|text| + k..] == suffix[k..];
    ParseHere(t);
  }

  lemma ParseHere(t: seq<byte>)
    requires t != [] && SkipToNumber(t) == t
    ensures var n := 1 + RunLength(t[1..], NO_SKIP_CHAR);
      var v := Value(0, t[..n], NO_SKIP_CHAR);
      ParseInt(t, NO_SKIP_CHAR) == (if t[0] == MINUS then Wrap32(-v) else v, t[n..])
  {
    hide Wrap32, Value, SkipToNumber, RunLength, AddDigit, IsDigit;
  }

  lemma StartsHere(s: seq<byte>)
    requires s != [] && (s[0] == MINUS || IsDigit(s[0]))
    ensures SkipToNumber(s) == s
  {}

  lemma NegatesBack(n: int)
    requires LONG_MIN <= n < 0
    ensures Wrap32(-Wrap32(Unsigned(Wrap32(-n)))) == n
  {
    if n == LONG_MIN {
      assert Wrap32(-n) == LONG_MIN;
    }
  }

  /**
    * The text of every 32-bit long, after anything without digits or signs, is read back as that long, and reading
    * stops at what follows, if and only if that is delimited.
    */
  lemma NumberRoundTrip(prefix: seq<byte>, n: int, suffix: seq<byte>)
    requires LONG_MIN <= n < LONG_LIMIT
    requires forall i :: 0 <= i < |prefix| ==> prefix[i] != MINUS && !IsDigit(prefix[i])
    ensures ParseInt(prefix + PrintLong(n, 10) + suffix, NO_SKIP_CHAR) == (n, DropSkips(suffix)) <==> Delimited(suffix)
  {
    hide Wrap32, Unsigned, Digits, Value, DropSkips, Delimited, RunLength;
    var text := PrintLong(n, 10);
    PrintedReadsBack(n);
    ReadsText(text, suffix);
    SkipsPrefix(prefix, text + suffix);
    assert prefix + text + suffix == prefix + (text + suffix);
    StartsHere(text + suffix);
    if !Delimited(suffix) {
      RunPassesSkips(suffix);
    }
  }

  lemma PrintedReadsBack(n: int)
    requires LONG_MIN <= n < LONG_LIMIT
    ensures var text := PrintLong(n, 10);
      && text != [] && (text[0] == MINUS <==> n < 0) && (n >= 0 ==> IsDigit(text[0]))
      && (forall i :: 1 <= i < |text| ==> IsDigit(text[i]))
      && (if n < 0 then Wrap32(-Value(0, text, NO_SKIP_CHAR)) else Value(0, text, NO_SKIP_CHAR)) == n
  {
    hide Wrap32, Unsigned, Digits, Value;
    if n < 0 {
      var digits := Digits(Unsigned(Wrap32(-n)), 10);
      DigitsReadBack(Unsigned(Wrap32(-n)));
      NegatesBack(n);
      SignAddsNothing(digits);
    } else {
      DigitsReadBack(Unsigned(n));
      SmallIsItself(n);
    }
  }

  lemma SignAddsNothing(digits: seq<byte>)
    ensures Value(0, [MINUS] + digits, NO_SKIP_CHAR) == Value(0, digits, NO_SKIP_CHAR)
  {
    assert ([MINUS] + digits)[1..] == digits;
  }

  lemma SmallIsItself(n: int)
    requires 0 <= n < LONG_LIMIT
    ensures Wrap32(Unsigned(n)) == n
  {}

  // the skip character is a control character, but a stream may hold it: 1, \x01, 2 is read as twelve
  lemma SkipCharacterJoins()
    ensures ParseInt(PrintLong(1, 10) + [NO_SKIP_CHAR, 50], NO_SKIP_CHAR) == (12, [])
    ensures !Delimited([NO_SKIP_CHAR, 50])
  {
    var s := PrintLong(1, 10) + [NO_SKIP_CHAR, 50];
    assert s == [49, 1, 50] && s[1..] == [1, 50] && s[1..][1..] == [50];
    assert RunLength([50], 1) == 1;
    assert s[..3] == s && s[3..] == [];
    assert Value(12, [], 1) == 12;
    assert Value(1, [50], 1) == 12;
    assert Value(1, [1, 50], 1) == 12;
    assert [NO_SKIP_CHAR, 50][1..] == [50];
  }

  lemma DigitsFit32(n: nat, base: nat)
    requires base >= 2 && n < U32_LIMIT
    ensures |Digits(n, base)| <= 32
  {
    assert Power(2, 8) == 0x100;
    assert Power(2, 16) == 0x1_0000;
    assert Power(2, 24) == 0x100_0000;
    assert Power(2, 32) == 0x1_0000_0000;
    DigitsFit(n, base, 32);
  }

  // -------- printing in every base --------

  /**
    * print in a base with digits and letters for it: decimal text has a sign and the magnitude, any other base shows
    * the 32-bit pattern. Base 1 is decimal without a sign.
    */
  lemma PrintedDenotes(n: int, base: nat)
    requires LONG_MIN <= n < LONG_LIMIT && 1 <= base <= 36
    ensures var text := PrintLong(n, base);
      if base == 10 && n < 0 then text[0] == MINUS && Denotes(text[1..], 10) == -n && NoLeading(text[1..], -n)
      else
        var shown := if n < 0 then n + 0x1_0000_0000 else n;
        Denotes(text, if base == 1 then 10 else base) == shown && NoLeading(text, shown)
  {
    hide Digits, Denotes, NoLeading;
    if base == 10 && n < 0 {
      assert Unsigned(Wrap32(-n)) == -n;
      DigitsDenote(-n, 10);
      FirstDigit(-n, 10);
      assert ([MINUS] + Digits(-n, 10))[1..] == Digits(-n, 10);
    } else {
      DigitsDenote(Unsigned(n), if base == 1 then 10 else base);
      FirstDigit(Unsigned(n), if base == 1 then 10 else base);
    }
  }

  // the text of n starts with a zero only when it is that zero
  predicate NoLeading(text: seq<byte>, n: nat) {
    text != [] && (text[0] == ZERO ==> n == 0 && |text| == 1)
  }

  lemma {:induction false} FirstDigit(n: nat, base: nat)
    requires 2 <= base <= 36
    ensures NoLeading(Digits(n, base), n)
  {
    if n >= base {
      DivMod(n, base);
      FirstDigit(n / base, base);
    }
  }

  // -------- parsing with any skip character --------

  // the characters of a run that count
  function Counted(s: seq<byte>, skip: byte): seq<byte> {
    if s == [] then []
    else
      var last := s[|s| - 1];
      Counted(s[..|s| - 1], skip) + if last != skip && IsDigit(last) then [last] else []
  }

  lemma WrapTimesTen(a: int, d: int)
    ensures Wrap32(Wrap32(a) * 10 + d) == Wrap32(a * 10 + d)
  {
    hide Wrap32;
    var k := WrapDiffers(a);
    WrapShift(Wrap32(a) * 10 + d, 10 * k);
  }

  lemma WrapMinus(a: int)
    ensures Wrap32(-Wrap32(a)) == Wrap32(-a)
  {
    hide Wrap32;
    var k := WrapDiffers(a);
    WrapShift(-Wrap32(a), -k);
  }

  lemma ValueOfOne(v: int, c: byte, skip: byte)
    ensures Value(v, [c], skip) == AddDigit(v, c, skip)
  {
    assert [c][1..] == [];
  }

  lemma {:induction false} ValueIsCounted(s: seq<byte>, skip: byte)
    ensures Value(0, s, skip) == Wrap32(Denotes(Counted(s, skip), 10))
  {
    hide Wrap32, Denotes;
    if s == [] {
      DenotesNothing(10);
      SmallIsItself(0);
    } else {
      var most, last := s[..|s| - 1], s[|s| - 1];
      assert s == most + [last];
      ValueIsCounted(most, skip);
      ValueOfConcat(0, most, [last], skip);
      ValueOfOne(Value(0, most, skip), last, skip);
      var before := Counted(most, skip);
      if last != skip && IsDigit(last) {
        DenotesLast(before, last, 10);
        WrapTimesTen(Denotes(before, 10), last - ZERO);
      } else {
        assert before + [] == before;
      }
    }
  }

  predicate StartsNumber(c: byte) {
    c == MINUS || IsDigit(c)
  }

  lemma {:induction false} SkipIs(s: seq<byte>, from: nat)
    requires from <= |s| && forall i :: 0 <= i < from ==> !StartsNumber(s[i])
    requires from < |s| ==> StartsNumber(s[from])
    ensures SkipToNumber(s) == s[from..]
  {
    if from > 0 {
      SkipIs(s[1..], from - 1);
    }
  }

  lemma {:induction false} RunIs(s: seq<byte>, skip: byte, n: nat)
    requires n <= |s| && forall i :: 0 <= i < n ==> IsDigit(s[i]) || s[i] == skip
    requires n < |s| ==> !IsDigit(s[n]) && s[n] != skip
    ensures RunLength(s, skip) == n
  {
    if n > 0 {
      RunIs(s[1..], skip, n - 1);
    }
  }

  /**
    * parseInt with any skip character: the number starts at the first digit or minus, runs over digits and skip
    * characters, and its value is that of the digits that are not skipped, negated behind a minus that is not the
    * skip character, as a 32-bit long; what follows the run is left.
    */
  lemma ParseIntReads(s: seq<byte>, skip: byte, from: nat, end: nat)
    requires from < end <= |s| && StartsNumber(s[from]) && forall i :: 0 <= i < from ==> !StartsNumber(s[i])
    requires forall i :: from < i < end ==> IsDigit(s[i]) || s[i] == skip
    requires end < |s| ==> !IsDigit(s[end]) && s[end] != skip
    ensures var shown: int := Denotes(Counted(s[from..end], skip), 10);
      ParseInt(s, skip) == (Wrap32(if s[from] == MINUS && skip != MINUS then -shown else shown), s[end..])
  {
    hide Wrap32, Denotes, Value, Counted, SkipToNumber, RunLength;
    SkipIs(s, from);
    var t, n := s[from..], end - from - 1;
    RunIs(t[1..], skip, n);
    assert t[..n + 1] == s[from..end] && t[n + 1..] == s[end..];
    ValueIsCounted(s[from..end], skip);
    WrapMinus(Denotes(Counted(s[from..end], skip), 10));
  }

  /** Without a digit or a minus everything is read, and the result is zero. */
  lemma ParseIntNothing(s: seq<byte>, skip: byte)
    requires forall i :: 0 <= i < |s| ==> !StartsNumber(s[i])
    ensures ParseInt(s, skip) == (0, [])
  {
    SkipIs(s, |s|);
  }
}
