/** The Python text functions that the partition table tool relies on: strip,
    split, splitlines, int(x, 0), "%d" and "0x%x". Letters and digits outside
    ASCII are not given a meaning. */
module PythonText {
  import opened Bytes

  predicate IsLineBreak(c: char) {
    var n := c as int;
    0xA <= n <= 0xD || 0x1C <= n <= 0x1E || n == 0x85 || n == 0x2028 || n == 0x2029
  }

  predicate IsSpace(c: char) {
    var n := c as int;
    IsLineBreak(c) || n == 0x9 || n == 0x1F || n == 0x20 || n == 0xA0 || n == 0x1680 || 0x2000 <= n <= 0x200A
    || n == 0x202F || n == 0x205F || n == 0x3000
  }

  function Strip(s: string): (r: string)
    decreases |s|
  {
    if s == "" then ""
    else if IsSpace(s[0]) then Strip(s[1..])
    else if IsSpace(s[|s| - 1]) then Strip(s[..|s| - 1])
    else s
  }

  // no space at either end
  predicate Stripped(s: string) {
    s != "" ==> !IsSpace(s[0]) && !IsSpace(s[|s| - 1])
  }

  predicate Has(s: string, p: char -> bool) {
    exists i :: 0 <= i < |s| && p(s[i])
  }

  lemma HasTail(s: string, p: char -> bool)
    requires s != "" && !Has(s, p)
    ensures !p(s[0]) && !Has(s[1..], p)
  {
    assert forall i :: 0 <= i < |s| - 1 ==> s[1..][i] == s[i + 1];
  }

  lemma {:induction false} StripFacts(s: string, c: char -> bool)
    ensures Stripped(Strip(s)) && (Stripped(s) ==> Strip(s) == s)
    ensures !Has(s, c) ==> !Has(Strip(s), c)
    decreases |s|
  {
    if s != "" {
      if IsSpace(s[0]) {
        StripFacts(s[1..], c);
        if !Has(s, c) {
          HasTail(s, c);
        }
      } else if IsSpace(s[|s| - 1]) {
        StripFacts(s[..|s| - 1], c);
      }
    }
  }

  // s.split(sep)
  function Split(s: string, sep: char): (fields: seq<string>)
    ensures |fields| > 0
  {
    if s == "" then [""]
    else
      var rest := Split(s[1..], sep);
      if s[0] == sep then [""] + rest else [[s[0]] + rest[0]] + rest[1..]
  }

  function Join(fields: seq<string>, sep: char): string {
    if fields == [] then "" else if |fields| == 1 then fields[0] else fields[0] + [sep] + Join(fields[1..], sep)
  }

  lemma {:induction false} SplitField(field: string, rest: string, sep: char)
    requires sep !in field
    ensures Split(field, sep) == [field]
    ensures Split(field + [sep] + rest, sep) == [field] + Split(rest, sep)
  {
    if field == "" {
      assert field + [sep] + rest == [sep] + rest;
    } else {
      SplitField(field[1..], rest, sep);
      assert (field + [sep] + rest)[1..] == field[1..] + [sep] + rest;
      assert [field[0]] + field[1..] == field;
    }
  }

  /** Splitting undoes joining when no field contains the separator. */
  lemma {:induction false} SplitJoin(fields: seq<string>, sep: char)
    requires fields != [] && forall f :: f in fields ==> sep !in f
    ensures Split(Join(fields, sep), sep) == fields
  {
    SplitField(fields[0], "", sep);
    if |fields| > 1 {
      SplitField(fields[0], Join(fields[1..], sep), sep);
      SplitJoin(fields[1..], sep);
      assert [fields[0]] + fields[1..] == fields;
    }
  }

  // s.splitlines()
  function SplitLines(s: string): (lines: seq<string>) {
    if s == "" then []
    else if s[0] == '\r' && |s| > 1 && s[1] == '\n' then [""] + SplitLines(s[2..])
    else if IsLineBreak(s[0]) then [""] + SplitLines(s[1..])
    else
      var rest := SplitLines(s[1..]);
      if rest == [] then [[s[0]]] else [[s[0]] + rest[0]] + rest[1..]
  }

  function Unlines(lines: seq<string>): string {
    if lines == [] then "" else lines[0] + "\n" + Unlines(lines[1..])
  }

  lemma {:induction false} SplitLine(line: string, rest: string)
    requires !Has(line, IsLineBreak)
    ensures SplitLines(line + "\n" + rest) == [line] + SplitLines(rest)
  {
    if line == "" {
      assert line + "\n" + rest == "\n" + rest;
      assert ("\n" + rest)[1..] == rest;
    } else {
      HasTail(line, IsLineBreak);
      SplitLine(line[1..], rest);
      assert (line + "\n" + rest)[1..] == line[1..] + "\n" + rest;
      assert [line[0]] + line[1..] == line;
    }
  }

  /** Splitting into lines undoes ending each line with a newline. */
  lemma {:induction false} SplitUnlines(lines: seq<string>)
    requires forall l :: l in lines ==> !Has(l, IsLineBreak)
    ensures SplitLines(Unlines(lines)) == lines
  {
    if lines != [] {
      assert lines[0] in lines;
      SplitLine(lines[0], Unlines(lines[1..]));
      SplitUnlines(lines[1..]);
    }
  }

  lemma {:induction false} SplitLinesHaveNoBreak(s: string)
    ensures forall l :: l in SplitLines(s) ==> !Has(l, IsLineBreak)
    decreases |s|
  {
    if s != "" {
      if s[0] == '\r' && |s| > 1 && s[1] == '\n' {
        SplitLinesHaveNoBreak(s[2..]);
      } else {
        SplitLinesHaveNoBreak(s[1..]);
        var rest := SplitLines(s[1..]);
        if !IsLineBreak(s[0]) && rest != [] {
          assert rest[0] in rest;
        }
      }
    }
  }

  lemma {:induction false} SplitFieldsFrom(s: string, sep: char, p: char -> bool)
    requires !Has(s, p)
    ensures forall f :: f in Split(s, sep) ==> sep !in f && !Has(f, p)
  {
    if s != "" {
      HasTail(s, p);
      SplitFieldsFrom(s[1..], sep, p);
      var rest := Split(s[1..], sep);
      assert rest[0] in rest;
    }
  }

  // -------- numbers --------

  // the value of a digit in bases up to 16; 99 for any other character
  function DigitValue(c: char): (v: nat) {
    if '0' <= c <= '9' then c as int - '0' as int
    else if 'a' <= c <= 'f' then c as int - 'a' as int + 10
    else if 'A' <= c <= 'F' then c as int - 'A' as int + 10
    else 99
  }

  function DigitChar(d: nat): (c: char)
    requires d < 16
    ensures DigitValue(c) == d
  {
    if d < 10 then ('0' as int + d) as char else ('a' as int + d - 10) as char
  }

  lemma DivFacts(n: nat, base: nat)
    requires 2 <= base <= n
    ensures 0 < n / base < n && n / base * base + n % base == n
  {
    assert n == n / base * base + n % base;
    assert n / base == 0 ==> n < base;
  }

  // "%d" (base 10) or "%x" (base 16) of a natural number
  function NatText(n: nat, base: nat): (s: string)
    requires 2 <= base <= 16
    ensures s != ""
  {
    if n < base then [DigitChar(n)] else NatText(n / base, base) + [DigitChar(n % base)]
  }

  // the digits after the first, single underscores allowed between digits
  function MoreDigits(s: string, base: nat, acc: nat): Option<nat>
    decreases |s|
  {
    if s == "" then Some(acc)
    else if DigitValue(s[0]) < base then MoreDigits(s[1..], base, acc * base + DigitValue(s[0]))
    else if s[0] == '_' && |s| > 1 && DigitValue(s[1]) < base then MoreDigits(s[2..], base, acc * base + DigitValue(s[1]))
    else None
  }

  function Digits(s: string, base: nat): Option<nat> {
    if s != "" && DigitValue(s[0]) < base then MoreDigits(s[1..], base, DigitValue(s[0])) else None
  }

  // one underscore may follow a base prefix
  function AfterPrefix(s: string): string {
    if |s| > 2 && s[2] == '_' then s[3..] else if |s| >= 2 then s[2..] else ""
  }

  function Magnitude(s: string): Option<nat> {
    if |s| >= 2 && s[0] == '0' && (s[1] == 'x' || s[1] == 'X') then Digits(AfterPrefix(s), 16)
    else if |s| >= 2 && s[0] == '0' && (s[1] == 'o' || s[1] == 'O') then Digits(AfterPrefix(s), 8)
    else if |s| >= 2 && s[0] == '0' && (s[1] == 'b' || s[1] == 'B') then Digits(AfterPrefix(s), 2)
    else if s != "" && s[0] == '0' then (if Digits(s, 10) == Some(0) then Some(0) else None)
    else Digits(s, 10)
  }

  /** int(s, 0); None stands for ValueError. */
  function PyInt(s: string): Option<int> {
    var t := Strip(s);
    if t != "" && (t[0] == '-' || t[0] == '+') then
      match Magnitude(t[1..])
      case Some(n) =>
        var m: int := n;
        Some(if t[0] == '-' then -m else m)
      case None => None
    else
      match Magnitude(t)
      case Some(n) => Some(n)
      case None => None
  }

  // "%d" % n
  function Dec(n: int): (s: string)
    ensures s != ""
  {
    if n < 0 then "-" + NatText(-n, 10) else NatText(n, 10)
  }

  // "0x%x" % n
  function Hex(n: int): (s: string)
    ensures s != ""
  {
    if n < 0 then "-0x" + NatText(-n, 16) else "0x" + NatText(n, 16)
  }

  predicate IsDigitText(s: string, base: nat) {
    forall i :: 0 <= i < |s| ==> DigitValue(s[i]) < base && s[i] != '_' && !IsSpace(s[i]) && s[i] != ',' && s[i] != '#'
                                 && s[i] != '$' && s[i] != '-' && s[i] != '+'
  }

  lemma OneDigitText(d: nat, base: nat)
    requires d < base <= 16
    ensures IsDigitText([DigitChar(d)], base)
    ensures d > 0 ==> DigitChar(d) != '0'
    ensures d == 0 ==> [DigitChar(d)] == "0"
  {}

  lemma {:induction false} NatTextDigits(n: nat, base: nat)
    requires 2 <= base <= 16
    ensures IsDigitText(NatText(n, base), base)
    ensures n > 0 ==> NatText(n, base)[0] != '0'
    ensures n == 0 ==> NatText(n, base) == "0"
  {
    hide DigitChar;
    hide DigitValue;
    hide IsSpace;
    if n < base {
      OneDigitText(n, base);
    } else {
      DivFacts(n, base);
      NatTextDigits(n / base, base);
      OneDigitText(n % base, base);
    }
  }

  lemma {:induction false} DigitsOfText(n: nat, base: nat, rest: string)
    requires 2 <= base <= 16
    ensures Digits(NatText(n, base) + rest, base) == MoreDigits(rest, base, n)
  {
    hide DigitChar;
    hide DigitValue;
    if n < base {
      assert (NatText(n, base) + rest)[1..] == rest;
    } else {
      DivFacts(n, base);
      var d := DigitChar(n % base);
      DigitsOfText(n / base, base, [d] + rest);
      assert NatText(n, base) + rest == NatText(n / base, base) + ([d] + rest);
      assert ([d] + rest)[1..] == rest;
    }
  }

  lemma MagnitudeOfDec(n: nat)
    ensures Magnitude(NatText(n, 10)) == Some(n)
  {
    NatTextDigits(n, 10);
    DigitsOfText(n, 10, "");
    assert NatText(n, 10) + "" == NatText(n, 10);
  }

  lemma MagnitudeOfHex(n: nat)
    ensures Magnitude("0x" + NatText(n, 16)) == Some(n)
  {
    NatTextDigits(n, 16);
    DigitsOfText(n, 16, "");
    assert NatText(n, 16) + "" == NatText(n, 16);
    var s := "0x" + NatText(n, 16);
    assert s[2..] == NatText(n, 16) && s[2] == NatText(n, 16)[0];
  }

  /** int(x, 0) reads back what "%d" prints, for every integer... */
  lemma PyIntOfDec(n: int)
    ensures PyInt(Dec(n)) == Some(n) && Stripped(Dec(n))
  {
    var m := if n < 0 then -n else n;
    NatTextDigits(m, 10);
    MagnitudeOfDec(m);
    StripFacts(Dec(n), IsSpace);
    assert Dec(n)[1..] == NatText(m, 10) || n >= 0;
  }

  lemma HexStripped(n: int)
    ensures Stripped(Hex(n)) && Strip(Hex(n)) == Hex(n)
  {
    hide NatText;
    NatTextDigits(if n < 0 then -n else n, 16);
    StripFacts(Hex(n), IsSpace);
  }

  /** ...and what "0x%x" prints. */
  lemma PyIntOfHex(n: int)
    ensures PyInt(Hex(n)) == Some(n) && Stripped(Hex(n))
  {
    hide Magnitude;
    hide NatText;
    hide Strip;
    hide Stripped;
    HexStripped(n);
    var m: nat := if n < 0 then -n else n;
    MagnitudeOfHex(m);
    if n < 0 {
      assert Hex(n)[1..] == "0x" + NatText(m, 16);
    } else {
      assert Hex(n)[0] == '0';
    }
  }
}
