/** The CSV form of an ESP32 partition table: one line of gen_esp32part.py's
    parser and printer, and why reading undoes writing. */
module PartitionCsv {
  import opened Bytes
  import opened PythonText

  const APP_TYPE: int := 0
  const DATA_TYPE: int := 1

  // a partition once its place is known
  datatype Entry = Entry(name: string, kind: int, subtype: int, offset: int, size: int, encrypted: bool)

  // a partition as a CSV line gives it: the offset may be missing, the size may be an end address
  datatype Row = Row(name: string, kind: int, subtype: int, offset: Option<int>, size: int, encrypted: bool)

  // -------- keywords --------

  datatype Keywords = NoKeywords | Types | AppSubtypes | DataSubtypes

  function SubtypesOf(kind: int): Keywords {
    if kind == APP_TYPE then AppSubtypes else if kind == DATA_TYPE then DataSubtypes else NoKeywords
  }

  // "ota_0" to "ota_15"
  function OtaName(slot: nat): string {
    "ota_" + Dec(slot)
  }

  function OtaSlot(name: string, slot: nat): Option<nat>
    requires slot <= 16
    decreases 16 - slot
  {
    if slot == 16 then None else if name == OtaName(slot) then Some(slot) else OtaSlot(name, slot + 1)
  }

  // keywords[name]
  function Lookup(kw: Keywords, name: string): Option<int> {
    match kw
    case NoKeywords => None
    case Types => if name == "app" then Some(APP_TYPE) else if name == "data" then Some(DATA_TYPE) else None
    case AppSubtypes =>
      if name == "factory" then Some(0x00)
      else if name == "test" then Some(0x20)
      else (match OtaSlot(name, 0) case Some(slot) => Some(0x10 + slot) case None => None)
    case DataSubtypes =>
      if name == "ota" then Some(0x00)
      else if name == "phy" then Some(0x01)
      else if name == "nvs" then Some(0x02)
      else if name == "coredump" then Some(0x03)
      else if name == "esphttpd" then Some(0x80)
      else if name == "fat" then Some(0x81)
      else if name == "spiffs" then Some(0x82)
      else None
  }

  // lookup_keyword: the keyword with a value
  function NameOf(kw: Keywords, value: int): Option<string> {
    match kw
    case NoKeywords => None
    case Types => if value == APP_TYPE then Some("app") else if value == DATA_TYPE then Some("data") else None
    case AppSubtypes =>
      if value == 0x00 then Some("factory")
      else if value == 0x20 then Some("test")
      else if 0x10 <= value < 0x20 then Some(OtaName(value - 0x10))
      else None
    case DataSubtypes =>
      if value == 0x00 then Some("ota")
      else if value == 0x01 then Some("phy")
      else if value == 0x02 then Some("nvs")
      else if value == 0x03 then Some("coredump")
      else if value == 0x80 then Some("esphttpd")
      else if value == 0x81 then Some("fat")
      else if value == 0x82 then Some("spiffs")
      else None
  }

  // v.lower()
  function LowerChar(c: char): char {
    if 'A' <= c <= 'Z' then (c as int + 32) as char else c
  }

  function Lower(s: string): (r: string)
    ensures |r| == |s| && forall i :: 0 <= i < |s| ==> r[i] == LowerChar(s[i])
  {
    if s == "" then "" else [LowerChar(s[0])] + Lower(s[1..])
  }

  predicate EndsWith(v: string, letter: char) {
    v != "" && LowerChar(v[|v| - 1]) == letter
  }

  /** parse_int; None stands for InputError. */
  function ParseInt(v: string, kw: Keywords): Option<int>
    decreases |v|
  {
    if EndsWith(v, 'k') then Scale(ParseInt(v[..|v| - 1], kw), 0x400)
    else if EndsWith(v, 'm') then Scale(ParseInt(v[..|v| - 1], kw), 0x10_0000)
    else match PyInt(v)
      case Some(n) => Some(n)
      case None => Lookup(kw, Lower(v))
  }

  function Scale(n: Option<int>, factor: int): Option<int> {
    match n case Some(k) => Some(k * factor) case None => None
  }

  // -------- one line --------

  function Fields(line: string): seq<string> {
    StripAll(Split(line + ",,,,", ','))
  }

  function StripAll(fields: seq<string>): (r: seq<string>)
    ensures |r| == |fields| && forall i :: 0 <= i < |r| ==> r[i] == Strip(fields[i])
  {
    seq(|fields|, i requires 0 <= i < |fields| => Strip(fields[i]))
  }

  // the flags column: whether "encrypted" is in it; None for an unknown flag
  function ParseFlags(flags: seq<string>): Option<bool> {
    if flags == [] then Some(false)
    else match ParseFlags(flags[1..])
      case None => None
      case Some(e) => if flags[0] == "encrypted" then Some(true) else if flags[0] == "" then Some(e) else None
  }

  // parse_address
  function ParseAddress(v: string): Option<Option<int>> {
    if v == "" then Some(None) else match ParseInt(v, NoKeywords) case Some(n) => Some(Some(n)) case None => None
  }

  /** PartitionDefinition.from_csv; None stands for InputError. A line without a
      comma has five fields and no type. */
  function ParseLine(line: string): Option<Row> {
    var f := Fields(line);
    if |f| < 6 || f[1] == "" then None
    else match ParseInt(f[1], Types)
      case None => None
      case Some(kind) => ParseRest(f, kind)
  }

  function ParseRest(f: seq<string>, kind: int): Option<Row>
    requires |f| >= 6
  {
    var subtype := if f[2] == "" then Some(0) else ParseInt(f[2], SubtypesOf(kind));
    match (subtype, ParseAddress(f[3]), ParseAddress(f[4]), ParseFlags(Split(f[5], ':')))
    case (Some(s), Some(offset), Some(Some(size)), Some(encrypted)) => Some(Row(f[0], kind, s, offset, size, encrypted))
    case _ => None
  }

  /** The flags column is read exactly when it holds no other flag. */
  lemma {:induction false} ParseFlagsExactly(flags: seq<string>, encrypted: bool)
    ensures ParseFlags(flags) == Some(encrypted) <==>
      (forall f :: f in flags ==> f == "" || f == "encrypted") && (encrypted <==> "encrypted" in flags)
  {
    if flags != [] {
      var rest := flags[1..];
      assert flags[0] in flags && forall f :: f in flags <==> f == flags[0] || f in rest;
      ParseFlagsExactly(rest, true);
      ParseFlagsExactly(rest, false);
      if forall f :: f in rest ==> f == "" || f == "encrypted" {
        assert ParseFlags(rest) == Some("encrypted" in rest);
      }
    }
  }

  /** A line is read exactly when it has a type and a size that parse, a subtype
      and an offset that parse or are empty, and no unknown flag. */
  lemma ParseLineExactly(line: string, row: Row)
    ensures var f := Fields(line);
      ParseLine(line) == Some(row) <==>
        && |f| >= 6 && row.name == f[0]
        && f[1] != "" && ParseInt(f[1], Types) == Some(row.kind)
        && (if f[2] == "" then row.subtype == 0 else ParseInt(f[2], SubtypesOf(row.kind)) == Some(row.subtype))
        && (if f[3] == "" then row.offset == None else row.offset.Some? && ParseInt(f[3], NoKeywords) == row.offset)
        && f[4] != "" && ParseInt(f[4], NoKeywords) == Some(row.size)
        && (forall flag :: flag in Split(f[5], ':') ==> flag == "" || flag == "encrypted")
        && (row.encrypted <==> "encrypted" in Split(f[5], ':'))
  {
    hide Fields, ParseInt, Split, ParseFlags;
    var f := Fields(line);
    if |f| >= 6 {
      ParseFlagsExactly(Split(f[5], ':'), true);
      ParseFlagsExactly(Split(f[5], ':'), false);
    }
  }

  // -------- printing one line --------

  function KeywordText(value: int, kw: Keywords, simple: bool): string {
    match NameOf(kw, value)
    case Some(name) => if simple then Dec(value) else name
    case None => Dec(value)
  }

  function SizeText(a: int, simple: bool): string {
    if !simple && a % 0x10_0000 == 0 then Dec(a / 0x10_0000) + "M"
    else if !simple && a % 0x400 == 0 then Dec(a / 0x400) + "K"
    else Hex(a)
  }

  function LineFields(e: Entry, simple: bool): (f: seq<string>)
    ensures |f| == 6
  {
    [e.name, KeywordText(e.kind, Types, simple), KeywordText(e.subtype, SubtypesOf(e.kind), simple),
     Hex(e.offset), SizeText(e.size, simple), if e.encrypted then "encrypted" else ""]
  }

  /** PartitionDefinition.to_csv */
  function PrintLine(e: Entry, simple: bool): string {
    Join(LineFields(e, simple), ',')
  }

  // -------- what is printed is read back --------

  // a field that survives: no comma in it, no space around it, no line break
  predicate Plain(s: string) {
    && Stripped(s)
    && forall i :: 0 <= i < |s| ==> s[i] != ',' && !IsLineBreak(s[i])
  }

  predicate LastNotSuffix(s: string) {
    s != "" && !EndsWith(s, 'k') && !EndsWith(s, 'm')
  }

  lemma NumberTextFacts(n: int)
    ensures Plain(Dec(n)) && LastNotSuffix(Dec(n))
    ensures Plain(Hex(n)) && LastNotSuffix(Hex(n))
  {
    hide NatText;
    hide IsDigitText;
    hide Plain;
    hide LastNotSuffix;
    var m: nat := if n < 0 then -n else n;
    NatTextDigits(m, 10);
    NatTextDigits(m, 16);
    DigitTextPlain(NatText(m, 10), 10);
    DigitTextPlain(NatText(m, 16), 16);
    Prefixed("-", NatText(m, 10));
    Prefixed("0x", NatText(m, 16));
    Prefixed("-0x", NatText(m, 16));
  }

  lemma Prefixed(prefix: string, s: string)
    requires prefix == "-" || prefix == "0x" || prefix == "-0x"
    requires Plain(s) && LastNotSuffix(s)
    ensures Plain(prefix + s) && LastNotSuffix(prefix + s)
  {
    assert (prefix + s)[|prefix + s| - 1] == s[|s| - 1];
  }

  lemma DigitTextPlain(s: string, base: nat)
    requires s != "" && base <= 16 && IsDigitText(s, base)
    ensures Plain(s) && LastNotSuffix(s)
  {
    var c := s[|s| - 1];
    assert DigitValue(c) < base;
  }

  lemma ParseDec(n: int, kw: Keywords)
    ensures ParseInt(Dec(n), kw) == Some(n)
  {
    hide PyInt;
    hide Dec;
    NumberTextFacts(n);
    PyIntOfDec(n);
  }

  lemma ParseHex(n: int, kw: Keywords)
    ensures ParseInt(Hex(n), kw) == Some(n)
  {
    hide PyInt;
    hide Hex;
    NumberTextFacts(n);
    PyIntOfHex(n);
  }

  /** The size column is read back exactly, with or without a K or M suffix. */
  lemma ParseSize(a: int, simple: bool)
    ensures ParseInt(SizeText(a, simple), NoKeywords) == Some(a)
    ensures Plain(SizeText(a, simple)) && SizeText(a, simple) != ""
  {
    hide PyInt;
    hide Dec;
    hide Hex;
    var t := SizeText(a, simple);
    if t == Hex(a) {
      ParseHex(a, NoKeywords);
      NumberTextFacts(a);
    } else {
      var unit := if a % 0x10_0000 == 0 then 0x10_0000 else 0x400;
      var n := a / unit;
      assert n * unit == a;
      ParseDec(n, NoKeywords);
      NumberTextFacts(n);
      assert t[..|t| - 1] == Dec(n);
      assert LowerChar('M') == 'm' && LowerChar('K') == 'k';
    }
  }

  /** Whole megabytes and kilobytes are printed with their suffix. */
  lemma SizeTextShape(a: int)
    ensures var t := SizeText(a, false);
      && t != ""
      && (t[|t| - 1] == 'M' <==> a % 0x10_0000 == 0)
      && (t[|t| - 1] == 'K' <==> a % 0x400 == 0 && a % 0x10_0000 != 0)
  {
    hide Dec, Hex, Plain;
    NumberTextFacts(a);
    assert LowerChar('M') == 'm' && LowerChar('K') == 'k';
  }

  // -------- keywords are read back --------

  predicate KeywordLike(s: string) {
    && s != "" && 'a' <= s[0] <= 'z' && LastNotSuffix(s)
    && forall i :: 0 <= i < |s| ==> 'a' <= s[i] <= 'z' || '0' <= s[i] <= '9' || s[i] == '_'
  }

  lemma KeywordLikeFacts(s: string)
    requires KeywordLike(s)
    ensures Plain(s) && Lower(s) == s && PyInt(s) == None
  {
    hide KeywordLike, Plain, PyInt;
    KeywordIsPlain(s);
    KeywordIsLower(s);
    KeywordIsNoNumber(s);
  }

  lemma KeywordIsPlain(s: string)
    requires KeywordLike(s)
    ensures Plain(s)
  {}

  lemma KeywordIsLower(s: string)
    requires KeywordLike(s)
    ensures Lower(s) == s
  {
    forall i | 0 <= i < |s| ensures LowerChar(s[i]) == s[i] {}
  }

  lemma KeywordIsNoNumber(s: string)
    requires KeywordLike(s)
    ensures PyInt(s) == None
  {
    hide Plain, Has;
    KeywordIsPlain(s);
    StripFacts(s, IsSpace);
    StrippedStays(s);
    FirstLetterIsNoNumber(s);
  }

  lemma StrippedStays(s: string)
    requires Plain(s)
    ensures Strip(s) == s
  {
    StripFacts(s, IsSpace);
  }

  lemma FirstLetterIsNoNumber(s: string)
    requires s != "" && 'a' <= s[0] <= 'z'
    ensures Magnitude(s) == None && s[0] != '-' && s[0] != '+'
  {
    assert DigitValue(s[0]) >= 10;
    assert Digits(s, 10) == None;
  }

  lemma {:induction false} OtaSlotFinds(slot: nat, from: nat)
    requires from <= slot < 16
    ensures OtaSlot(OtaName(slot), from) == Some(slot)
    decreases 16 - from
  {
    if from < slot {
      PyIntOfDec(from);
      PyIntOfDec(slot);
      assert OtaName(from)[4..] == Dec(from) && OtaName(slot)[4..] == Dec(slot);
      OtaSlotFinds(slot, from + 1);
    }
  }

  lemma NumeralOf(c: char)
    requires DigitValue(c) < 10
    ensures '0' <= c <= '9' && LowerChar(c) == c && c != 'k' && c != 'm'
  {}

  lemma OtaNameLike(slot: nat)
    requires slot < 16
    ensures KeywordLike(OtaName(slot)) && OtaName(slot) != "factory" && OtaName(slot) != "test"
  {
    hide NatText;
    hide DigitValue;
    hide LowerChar;
    hide IsSpace;
    NatTextDigits(slot, 10);
    var digits := NatText(slot, 10);
    var s := "ota_" + digits;
    assert s == OtaName(slot);
    assert s[0] == 'o' && s[1] == 't' && s[2] == 'a' && s[3] == '_';
    forall i | 4 <= i < |s|
      ensures '0' <= s[i] <= '9' && LowerChar(s[i]) == s[i] && s[i] != 'k' && s[i] != 'm'
    {
      assert s[i] == digits[i - 4];
      NumeralOf(s[i]);
    }
  }

  /** Every keyword is looked up to the value it was printed for. */
  lemma KeywordReadBack(kw: Keywords, value: int)
    requires NameOf(kw, value).Some?
    ensures var name := NameOf(kw, value).value;
            KeywordLike(name) && Lookup(kw, name) == Some(value)
  {
    hide Lookup, NameOf, KeywordLike, OtaName;
    if kw == AppSubtypes && 0x10 <= value < 0x20 {
      OtaIsReadBack(value - 0x10);
    } else {
      FixedIsLike(kw, value);
      FixedIsReadBack(kw, value);
    }
  }

  lemma OtaIsReadBack(slot: nat)
    requires slot < 16
    ensures NameOf(AppSubtypes, 0x10 + slot) == Some(OtaName(slot))
    ensures KeywordLike(OtaName(slot)) && Lookup(AppSubtypes, OtaName(slot)) == Some(0x10 + slot)
  {
    hide Dec, KeywordLike, OtaName;
    OtaNameLike(slot);
    OtaSlotFinds(slot, 0);
  }

  lemma FixedIsLike(kw: Keywords, value: int)
    requires NameOf(kw, value).Some? && !(kw == AppSubtypes && 0x10 <= value < 0x20)
    ensures KeywordLike(NameOf(kw, value).value)
  {
    hide OtaName, Lookup;
  }

  lemma FixedIsReadBack(kw: Keywords, value: int)
    requires NameOf(kw, value).Some? && !(kw == AppSubtypes && 0x10 <= value < 0x20)
    ensures Lookup(kw, NameOf(kw, value).value) == Some(value)
  {
    hide OtaName, OtaSlot;
  }

  lemma ParseKeywordText(value: int, kw: Keywords, simple: bool)
    ensures ParseInt(KeywordText(value, kw, simple), kw) == Some(value)
    ensures Plain(KeywordText(value, kw, simple)) && KeywordText(value, kw, simple) != ""
  {
    hide PyInt;
    hide Dec;
    hide NameOf;
    hide Lookup;
    ParseDec(value, kw);
    NumberTextFacts(value);
    if NameOf(kw, value).Some? {
      KeywordReadBack(kw, value);
      KeywordLikeFacts(NameOf(kw, value).value);
    }
  }

  // -------- a printed line is read back --------

  // what a name has to be for its line to survive
  predicate NameOk(name: string) {
    Plain(name) && (name != "" ==> name[0] != '#')
  }

  lemma FieldsPlain(e: Entry, simple: bool)
    requires Plain(e.name)
    ensures forall i :: 0 <= i < 6 ==> Plain(LineFields(e, simple)[i])
    ensures forall i :: 0 < i < 5 ==> LineFields(e, simple)[i] != ""
  {
    hide KeywordText;
    hide SizeText;
    hide Hex;
    hide Plain;
    hide ParseInt;
    ParseKeywordText(e.kind, Types, simple);
    ParseKeywordText(e.subtype, SubtypesOf(e.kind), simple);
    NumberTextFacts(e.offset);
    ParseSize(e.size, simple);
    FlagPlain();
  }

  lemma FlagPlain()
    ensures Plain("encrypted") && Plain("")
  {}

  lemma {:induction false} JoinMore(fields: seq<string>, sep: char)
    requires fields != []
    ensures Join(fields + [""], sep) == Join(fields, sep) + [sep]
  {
    if |fields| == 1 {
      assert (fields + [""])[1..] == [""];
      assert fields[0] + [sep] + "" == fields[0] + [sep];
    } else {
      JoinMore(fields[1..], sep);
      assert (fields + [""])[1..] == fields[1..] + [""];
      assert fields[0] + [sep] + (Join(fields[1..], sep) + [sep]) == fields[0] + [sep] + Join(fields[1..], sep) + [sep];
    }
  }

  lemma FieldsOfPrinted(e: Entry, simple: bool)
    requires Plain(e.name)
    ensures Fields(PrintLine(e, simple)) == LineFields(e, simple) + ["", "", "", ""]
  {
    hide KeywordText;
    hide SizeText;
    hide Hex;
    hide Join;
    hide Split;
    hide Strip;
    var f := LineFields(e, simple);
    var f1, f2, f3 := f + [""], f + [""] + [""], f + [""] + [""] + [""];
    var all := f3 + [""];
    JoinMore(f, ',');
    JoinMore(f1, ',');
    JoinMore(f2, ',');
    JoinMore(f3, ',');
    assert Join(f, ',') + ",,,," == Join(f, ',') + [','] + [','] + [','] + [','];
    FieldsPlain(e, simple);
    SplitJoin(all, ',');
    assert all == f + ["", "", "", ""];
    forall i | 0 <= i < |all| ensures Strip(all[i]) == all[i] {
      StripFacts(all[i], IsSpace);
    }
  }

  lemma FlagsReadBack(encrypted: bool)
    ensures ParseFlags(Split(if encrypted then "encrypted" else "", ':')) == Some(encrypted)
  {
    SplitField("encrypted", "", ':');
    SplitField("", "", ':');
    assert ParseFlags([]) == Some(false);
    assert ["encrypted"][1..] == [] && [""][1..] == [];
  }

  /** Reading a printed line gives the entry back, its offset now explicit. */
  lemma LineRoundTrip(e: Entry, simple: bool)
    requires Plain(e.name)
    ensures ParseLine(PrintLine(e, simple)) == Some(Row(e.name, e.kind, e.subtype, Some(e.offset), e.size, e.encrypted))
  {
    hide KeywordText;
    hide SizeText;
    hide Hex;
    hide ParseInt;
    hide PrintLine;
    hide Fields;
    hide Split;
    hide ParseFlags;
    FieldsOfPrinted(e, simple);
    FieldsPlain(e, simple);
    ParseKeywordText(e.kind, Types, simple);
    ParseKeywordText(e.subtype, SubtypesOf(e.kind), simple);
    ParseHex(e.offset, NoKeywords);
    ParseSize(e.size, simple);
    FlagsReadBack(e.encrypted);
  }

  lemma PrintedLineShape(e: Entry, simple: bool)
    requires NameOk(e.name)
    ensures var line := PrintLine(e, simple);
            && Stripped(line) && line != "" && line[0] != '#' && !Has(line, IsLineBreak)
            && e.name + "," <= line
  {
    hide KeywordText;
    hide SizeText;
    hide Hex;
    hide IsSpace;
    hide IsLineBreak;
    FieldsPlain(e, simple);
    var f := LineFields(e, simple);
    JoinShape(f);
    var line := PrintLine(e, simple);
    assert line[0] == (e.name + ",")[0];
    CommaFacts();
    if f[5] != "" {
      assert line[|line| - 1] == f[5][|f[5]| - 1];
    }
  }

  lemma CommaFacts()
    ensures !IsSpace(',') && !IsLineBreak(',')
  {}

  // joining plain fields: starts with the first and a comma, ends with the last, no line break
  lemma {:induction false} JoinShape(f: seq<string>)
    requires |f| >= 1 && forall i :: 0 <= i < |f| ==> Plain(f[i])
    ensures var line := Join(f, ',');
            && (|f| > 1 ==> f[0] + "," <= line) && !Has(line, IsLineBreak)
            && (if f[|f| - 1] == "" then |f| > 1 ==> line[|line| - 1] == ','
                else |line| >= |f[|f| - 1]| && line[|line| - |f[|f| - 1]|..] == f[|f| - 1])
    decreases f
  {
    hide IsSpace, IsLineBreak, Has;
    if |f| == 1 {
      PlainHasNoBreak(f[0]);
    } else {
      JoinShape(f[1..]);
      var line, rest := Join(f, ','), Join(f[1..], ',');
      assert line == f[0] + "," + rest;
      assert f[1..][|f| - 2] == f[|f| - 1];
      if |f| == 2 {
        assert rest == f[1];
      }
      PlainHasNoBreak(f[0]);
      NoBreakInBoth(f[0], rest);
    }
  }

  lemma PlainHasNoBreak(s: string)
    requires Plain(s)
    ensures !Has(s, IsLineBreak)
  {
    hide IsLineBreak;
  }

  lemma NoBreakInBoth(a: string, b: string)
    requires !Has(a, IsLineBreak) && !Has(b, IsLineBreak)
    ensures !Has(a + "," + b, IsLineBreak)
  {
    hide IsLineBreak;
    CommaFacts();
    var line := a + "," + b;
    forall i | 0 <= i < |line| ensures !IsLineBreak(line[i]) {
      if i < |a| {
        assert line[i] == a[i];
      } else if i > |a| {
        assert line[i] == b[i - |a| - 1];
      }
    }
  }
}
