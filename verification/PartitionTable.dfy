/** Whole partition tables: reading CSV with automatic layout, printing it back,
    verifying a table, and the flash size it needs. */
module PartitionTable {
  import opened Bytes
  import opened PartitionCsv
  import opened PythonText
  import StableSort

  const PARTITION_TABLE_SIZE: int := 0x1000

  // -------- reading --------

  predicate IdentStart(c: char) {
    'A' <= c <= 'Z' || 'a' <= c <= 'z' || c == '_'
  }

  // the line starts with a variable that was not expanded
  predicate StartsVariable(line: string) {
    |line| > 1 && line[0] == '$' && IdentStart(line[1])
  }

  // the lines that are not blank or comments, parsed; None stands for InputError
  function ReadRows(lines: seq<string>): Option<seq<Row>> {
    if lines == [] then Some([])
    else if StartsVariable(lines[0]) then None
    else
      var line := Strip(lines[0]);
      if line == "" || line[0] == '#' then ReadRows(lines[1..])
      else match (ParseLine(line), ReadRows(lines[1..]))
        case (Some(row), Some(rows)) => Some([row] + rows)
        case _ => None
  }

  // the lines that hold a partition, stripped
  function Contents(lines: seq<string>): seq<string> {
    if lines == [] then []
    else
      var line := Strip(lines[0]);
      if line == "" || line[0] == '#' then Contents(lines[1..]) else [line] + Contents(lines[1..])
  }

  ghost predicate ParsesTo(lines: seq<string>, rows: seq<Row>) {
    |lines| == |rows| && forall i :: 0 <= i < |lines| ==> ParseLine(lines[i]) == Some(rows[i])
  }

  lemma ParsesCons(line: string, lines: seq<string>, rows: seq<Row>)
    ensures ParsesTo([line] + lines, rows) <==>
      rows != [] && ParseLine(line) == Some(rows[0]) && ParsesTo(lines, rows[1..])
  {
    hide ParseLine;
    var all := [line] + lines;
    if |all| == |rows| {
      assert all[0] == line && forall i :: 0 <= i < |lines| ==> all[i + 1] == lines[i] && rows[1..][i] == rows[i + 1];
      if ParsesTo(all, rows) {
        forall i | 0 <= i < |lines| ensures ParseLine(lines[i]) == Some(rows[1..][i]) {
          assert ParseLine(all[i + 1]) == Some(rows[i + 1]);
        }
      }
      if ParseLine(line) == Some(rows[0]) && ParsesTo(lines, rows[1..]) {
        forall i | 0 <= i < |all| ensures ParseLine(all[i]) == Some(rows[i]) {
          if i > 0 {
            assert ParseLine(lines[i - 1]) == Some(rows[1..][i - 1]);
          }
        }
      }
    }
  }

  /** The lines are read exactly when none starts with a variable, and every line
      that is not blank or a comment is parsed. */
  lemma {:induction false} ReadRowsExactly(lines: seq<string>, rows: seq<Row>)
    ensures ReadRows(lines) == Some(rows) <==>
      (forall l :: l in lines ==> !StartsVariable(l)) && ParsesTo(Contents(lines), rows)
    decreases lines
  {
    hide ParseLine, Strip, StartsVariable, ParsesTo;
    if lines == [] {
      NothingParses(rows);
    } else {
      var line := Strip(lines[0]);
      assert lines == [lines[0]] + lines[1..];
      if StartsVariable(lines[0]) {
        assert lines[0] in lines;
      } else if line == "" || line[0] == '#' {
        ReadRowsExactly(lines[1..], rows);
      } else {
        ParsesCons(line, Contents(lines[1..]), rows);
        if rows != [] {
          ReadRowsExactly(lines[1..], rows[1..]);
          assert rows == [rows[0]] + rows[1..];
        }
        RowsUnfold(lines);
      }
    }
  }

  lemma NothingParses(rows: seq<Row>)
    ensures ParsesTo([], rows) <==> rows == []
  {}

  lemma RowsUnfold(lines: seq<string>)
    requires lines != [] && Strip(lines[0]) != "" && Strip(lines[0])[0] != '#' && !StartsVariable(lines[0])
    ensures var first, rest := ParseLine(Strip(lines[0])), ReadRows(lines[1..]);
      && (ReadRows(lines).Some? <==> first.Some? && rest.Some?)
      && (ReadRows(lines).Some? ==>
            ReadRows(lines).value == [first.value] + rest.value && ReadRows(lines).value[1..] == rest.value)
  {}

  // least multiple of the alignment that is not below n
  function AlignUp(n: int, align: int): (r: int)
    requires align == 4 || align == 0x1_0000
    ensures n <= r < n + align && r % align == 0
  {
    AlignUpFacts(n, align);
    if n % align != 0 then n + (align - n % align) else n
  }

  lemma AlignUpFacts(n: int, align: int)
    requires align == 4 || align == 0x1_0000
    ensures (n + (align - n % align)) % align == 0
  {
    if align == 4 {
      NextWord(n);
    } else {
      NextPage(n);
    }
  }

  lemma NextWord(n: int)
    ensures (n + (4 - n % 4)) % 4 == 0
  {}

  lemma NextPage(n: int)
    ensures (n + (0x1_0000 - n % 0x1_0000)) % 0x1_0000 == 0
  {}

  // padding before a partition without an offset
  function Alignment(kind: int): (a: int)
    ensures a == 4 || a == 0x1_0000
  {
    if kind == APP_TYPE then 0x1_0000 else 4
  }

  function Place(row: Row, lastEnd: int): Entry {
    var offset := match row.offset case Some(o) => o case None => AlignUp(lastEnd, Alignment(row.kind));
    Entry(row.name, row.kind, row.subtype, offset, if row.size < 0 then -row.size - offset else row.size, row.encrypted)
  }

  /** The layout pass of from_csv; None stands for InputError. */
  function Layout(rows: seq<Row>, lastEnd: int): Option<seq<Entry>> {
    if rows == [] then Some([])
    else if rows[0].offset.Some? && rows[0].offset.value < lastEnd then None
    else
      var e := Place(rows[0], lastEnd);
      match Layout(rows[1..], e.offset + e.size)
      case Some(rest) => Some([e] + rest)
      case None => None
  }

  /** PartitionTable.from_csv with the table itself at offset base. */
  function FromCsv(csv: string, base: int): Option<seq<Entry>> {
    match ReadRows(SplitLines(csv))
    case Some(rows) => Layout(rows, base + PARTITION_TABLE_SIZE)
    case None => None
  }

  // -------- printing --------

  function PrintLines(t: seq<Entry>, simple: bool): (lines: seq<string>)
    ensures |lines| == |t|
  {
    if t == [] then [] else [PrintLine(t[0], simple)] + PrintLines(t[1..], simple)
  }

  const TITLE: string := "# Espressif " + "ESP32 " + "Partition " + "Table"
  const COLUMNS: string := "# Name, " + "Type, " + "SubType, " + "Offset, " + "Size, Flags"

  /** PartitionTable.to_csv */
  function ToCsv(t: seq<Entry>, simple: bool): string {
    Join([TITLE, COLUMNS] + PrintLines(t, simple), '\n') + "\n"
  }

  // -------- reading what was printed --------

  lemma {:induction false} JoinIsUnlines(lines: seq<string>)
    requires lines != []
    ensures Join(lines, '\n') + "\n" == Unlines(lines)
  {
    if |lines| == 1 {
      assert Unlines(lines[1..]) == "";
      assert lines[0] + "\n" + "" == lines[0] + "\n";
    } else {
      JoinIsUnlines(lines[1..]);
      assert lines[0] + ['\n'] + Join(lines[1..], '\n') + "\n" == lines[0] + "\n" + (Join(lines[1..], '\n') + "\n");
    }
  }

  function Explicit(e: Entry): Row {
    Row(e.name, e.kind, e.subtype, Some(e.offset), e.size, e.encrypted)
  }

  function Explicits(t: seq<Entry>): (rows: seq<Row>)
    ensures |rows| == |t|
  {
    if t == [] then [] else [Explicit(t[0])] + Explicits(t[1..])
  }

  predicate NamesOk(t: seq<Entry>) {
    forall e :: e in t ==> NameOk(e.name)
  }

  lemma {:induction false} PrintedRows(t: seq<Entry>, simple: bool)
    requires NamesOk(t)
    ensures ReadRows(PrintLines(t, simple))
         == if exists e :: e in t && StartsVariable(e.name) then None else Some(Explicits(t))
    ensures forall l :: l in PrintLines(t, simple) ==> !Has(l, IsLineBreak)
  {
    hide PrintLine;
    hide ParseLine;
    hide NameOk;
    hide Strip;
    if t != [] {
      var e, line := t[0], PrintLine(t[0], simple);
      assert e in t;
      PrintedRows(t[1..], simple);
      PrintedLineShape(e, simple);
      StripFacts(line, IsSpace);
      NameOkIsPlain(e.name);
      LineRoundTrip(e, simple);
      VariableInName(e.name, line);
      assert t == [e] + t[1..];
    }
  }

  lemma NameOkIsPlain(name: string)
    requires NameOk(name)
    ensures Plain(name)
  {}

  lemma VariableInName(name: string, line: string)
    requires name + "," <= line
    ensures StartsVariable(line) <==> StartsVariable(name)
  {
    assert line[..|name| + 1] == name + ",";
    assert line[|name|] == ',';
    assert forall i :: 0 <= i < |name| ==> line[i] == name[i];
  }

  lemma HeadersAreSkipped(lines: seq<string>)
    ensures ReadRows([TITLE, COLUMNS] + lines) == ReadRows(lines)
  {
    hide Strip;
    hide StartsVariable;
    assert ([TITLE, COLUMNS] + lines)[1..] == [COLUMNS] + lines;
    assert ([COLUMNS] + lines)[1..] == lines;
    CommentLine(TITLE, [COLUMNS] + lines);
    CommentLine(COLUMNS, lines);
    assert [TITLE, COLUMNS] + lines == [TITLE] + ([COLUMNS] + lines);
  }

  lemma CommentLine(line: string, rest: seq<string>)
    requires line != "" && line[0] == '#'
    ensures ReadRows([line] + rest) == ReadRows(rest)
  {
    StripKeepsFirst(line);
    assert ([line] + rest)[1..] == rest;
  }

  lemma HeadersHaveNoBreak()
    ensures !Has(TITLE, IsLineBreak) && !Has(COLUMNS, IsLineBreak)
  {
    hide Has;
    ShortPieces();
    BothFree("# Espressif ", "ESP32 ");
    BothFree("# Espressif " + "ESP32 ", "Partition ");
    BothFree("# Espressif " + "ESP32 " + "Partition ", "Table");
    BothFree("# Name, ", "Type, ");
    BothFree("# Name, " + "Type, ", "SubType, ");
    BothFree("# Name, " + "Type, " + "SubType, ", "Offset, ");
    BothFree("# Name, " + "Type, " + "SubType, " + "Offset, ", "Size, Flags");
  }

  lemma BothFree(a: string, b: string)
    requires !Has(a, IsLineBreak) && !Has(b, IsLineBreak)
    ensures !Has(a + b, IsLineBreak)
  {}

  lemma ShortPieces()
    ensures !Has("# Espressif ", IsLineBreak) && !Has("ESP32 ", IsLineBreak) && !Has("Partition ", IsLineBreak)
    ensures !Has("Table", IsLineBreak) && !Has("# Name, ", IsLineBreak) && !Has("Type, ", IsLineBreak)
    ensures !Has("SubType, ", IsLineBreak) && !Has("Offset, ", IsLineBreak) && !Has("Size, Flags", IsLineBreak)
  {}

  /** Printing a table and reading the lines back gives its rows, with every
      offset explicit, unless a name looks like a variable. */
  lemma ReadPrinted(t: seq<Entry>, simple: bool)
    requires NamesOk(t)
    ensures ReadRows(SplitLines(ToCsv(t, simple)))
         == if exists e :: e in t && StartsVariable(e.name) then None else Some(Explicits(t))
  {
    hide PrintLine;
    hide NameOk;
    hide ReadRows;
    hide SplitLines;
    hide Join;
    hide Unlines;
    hide Has;
    var lines := [TITLE, COLUMNS] + PrintLines(t, simple);
    JoinIsUnlines(lines);
    PrintedRows(t, simple);
    HeadersAreSkipped(PrintLines(t, simple));
    HeadersHaveNoBreak();
    SplitUnlines(lines);
  }

  // -------- names of tables that were read --------

  lemma {:induction false} StripKeepsFirst(s: string)
    requires s != "" && !IsSpace(s[0])
    ensures Strip(s) != "" && Strip(s)[0] == s[0]
    decreases |s|
  {
    if IsSpace(s[|s| - 1]) {
      StripKeepsFirst(s[..|s| - 1]);
    }
  }

  lemma FirstFieldStart(line: string, sep: char)
    requires line != "" && line[0] != sep
    ensures Split(line, sep)[0] != "" && Split(line, sep)[0][0] == line[0]
  {}

  lemma ParsedNameOk(line: string)
    requires Stripped(line) && line != "" && line[0] != '#' && !Has(line, IsLineBreak) && ParseLine(line).Some?
    ensures NameOk(ParseLine(line).value.name)
  {
    hide ParseInt;
    hide ParseFlags;
    hide ParseAddress;
    hide Lookup;
    hide IsSpace;
    var padded := line + ",,,,";
    var fields := Split(padded, ',');
    var name := Strip(fields[0]);
    assert ParseLine(line).value.name == name;
    CommaFacts();
    assert !Has(padded, IsLineBreak) by {
      assert forall i :: 0 <= i < |line| ==> padded[i] == line[i];
    }
    SplitFieldsFrom(padded, ',', IsLineBreak);
    assert fields[0] in fields;
    StripFacts(fields[0], IsLineBreak);
    StripFacts(fields[0], c => c == ',');
    NameIsPlain(fields[0]);
    if line[0] == ',' {
      assert fields[0] == "";
    } else {
      FirstFieldStart(padded, ',');
      StripKeepsFirst(fields[0]);
    }
  }

  lemma NameIsPlain(field: string)
    requires ',' !in field && !Has(field, IsLineBreak)
    ensures Plain(Strip(field))
  {
    StripFacts(field, IsLineBreak);
    StripFacts(field, c => c == ',');
    assert !Has(field, c => c == ',');
    var name := Strip(field);
    assert forall i :: 0 <= i < |name| ==> !IsLineBreak(name[i]);
  }

  lemma {:induction false} ReadNamesOk(lines: seq<string>)
    requires ReadRows(lines).Some? && forall l :: l in lines ==> !Has(l, IsLineBreak)
    ensures forall r :: r in ReadRows(lines).value ==> NameOk(r.name)
  {
    hide ParseLine;
    hide NameOk;
    hide Strip;
    if lines != [] {
      ReadNamesOk(lines[1..]);
      var line := Strip(lines[0]);
      assert lines[0] in lines;
      StripFacts(lines[0], IsLineBreak);
      if line != "" && line[0] != '#' {
        ParsedNameOk(line);
      }
    }
  }

  lemma {:induction false} LayoutKeepsNames(rows: seq<Row>, lastEnd: int)
    requires Layout(rows, lastEnd).Some? && forall r :: r in rows ==> NameOk(r.name)
    ensures NamesOk(Layout(rows, lastEnd).value)
  {
    hide NameOk;
    if rows != [] {
      var e := Place(rows[0], lastEnd);
      assert rows[0] in rows;
      LayoutKeepsNames(rows[1..], e.offset + e.size);
    }
  }

  // -------- laying out a table again --------

  // a negative size in the file would be taken for an end address
  predicate SizeStable(e: Entry) {
    e.size >= 0 || e.offset == -2 * e.size
  }

  predicate SizesStable(t: seq<Entry>) {
    forall e :: e in t ==> SizeStable(e)
  }

  /** Laying out a laid out table again changes nothing exactly when no size is
      taken for an end address, or that end address gives the same size. */
  lemma {:induction false} LayoutAgain(rows: seq<Row>, lastEnd: int)
    requires Layout(rows, lastEnd).Some?
    ensures var t := Layout(rows, lastEnd).value;
            Layout(Explicits(t), lastEnd) == Some(t) <==> SizesStable(t)
    decreases rows
  {
    hide Place, SizeStable, SizesStable;
    if rows == [] {
      NoSizes();
    } else {
      var e := Place(rows[0], lastEnd);
      var rest := Layout(rows[1..], e.offset + e.size).value;
      var t := Layout(rows, lastEnd).value;
      assert t == [e] + rest;
      LayoutAgain(rows[1..], e.offset + e.size);
      assert Explicits(t)[1..] == Explicits(rest);
      SizesCons(e, rest);
      PlaceAgain(rows[0], lastEnd);
      var again := Place(Explicit(e), lastEnd);
      if Layout(Explicits(t), lastEnd) == Some(t) {
        assert t[0] == again;
        assert t[1..] == rest;
      }
    }
  }

  lemma NoSizes()
    ensures SizesStable([])
  {}

  lemma SizesCons(e: Entry, rest: seq<Entry>)
    ensures SizesStable([e] + rest) <==> SizeStable(e) && SizesStable(rest)
  {
    hide SizeStable;
  }

  // an entry placed again stays where it is, and keeps its size exactly when that is stable
  lemma PlaceAgain(row: Row, lastEnd: int)
    ensures var e := Place(row, lastEnd);
      var again := Place(Explicit(e), lastEnd);
      && again.offset == e.offset && (again == e <==> SizeStable(e))
      && (row.offset == None || row.offset.value >= lastEnd ==> e.offset >= lastEnd)
  {}

  /** For every table that from_csv can produce, printing it and reading it back
      is the identity exactly when no name looks like an unexpanded variable and
      no size is taken for a different end address. Flags, keywords, suffixes
      and layout are all undone. */
  lemma CsvRoundTrip(csv: string, base: int, simple: bool)
    requires FromCsv(csv, base).Some?
    ensures var t := FromCsv(csv, base).value;
            FromCsv(ToCsv(t, simple), base) == Some(t) <==>
              SizesStable(t) && !exists e :: e in t && StartsVariable(e.name)
  {
    hide ToCsv;
    hide SplitLines;
    hide ReadRows;
    hide Layout;
    hide SizesStable;
    hide NameOk;
    SplitLinesHaveNoBreak(csv);
    var rows := ReadRows(SplitLines(csv)).value;
    ReadNamesOk(SplitLines(csv));
    LayoutKeepsNames(rows, base + PARTITION_TABLE_SIZE);
    var t := FromCsv(csv, base).value;
    ReadPrinted(t, simple);
    LayoutAgain(rows, base + PARTITION_TABLE_SIZE);
  }

  // a line with a space before it: the name is stripped, but the line does not start with it
  lemma SpacedLine(e: Entry, simple: bool)
    requires NameOk(e.name)
    ensures ReadRows(SplitLines(" " + PrintLine(e, simple) + "\n")) == Some(Explicits([e]))
  {
    hide PrintLine, ParseLine, NameOk, Has, Strip;
    var line := PrintLine(e, simple);
    var spaced := " " + line;
    PrintedLineShape(e, simple);
    assert !Has(" ", IsLineBreak) by { SpaceIsNoBreak(); }
    BothFree(" ", line);
    assert Unlines([spaced]) == spaced + "\n" by { OneLine(spaced); }
    SplitUnlines([spaced]);
    SpacedStrip(line);
    NameOkIsPlain(e.name);
    LineRoundTrip(e, simple);
    assert [spaced][1..] == [];
    assert ReadRows([]) == Some([]);
    assert Explicits([e]) == [Explicit(e)] by { assert [e][1..] == []; }
  }

  lemma SpaceIsNoBreak()
    ensures !Has(" ", IsLineBreak)
  {}

  lemma OneLine(line: string)
    ensures Unlines([line]) == line + "\n"
  {
    assert [line][1..] == [];
    assert line + "\n" + "" == line + "\n";
  }

  lemma SpacedStrip(line: string)
    requires Stripped(line) && line != ""
    ensures Strip(" " + line) == line
  {
    assert (" " + line)[1..] == line;
    StripFacts(line, IsSpace);
  }

  /** A table read from a line with a space before a dollar sign is refused when it
      is printed and read again. */
  lemma DollarNameExample(base: int, simple: bool)
    ensures var e := Entry("$x", 0, 0, base + PARTITION_TABLE_SIZE, 1, false);
      var csv := " " + PrintLine(e, simple) + "\n";
      && FromCsv(csv, base) == Some([e])
      && FromCsv(ToCsv([e], simple), base) != Some([e])
  {
    var e := Entry("$x", 0, 0, base + PARTITION_TABLE_SIZE, 1, false);
    var csv := " " + PrintLine(e, simple) + "\n";
    hide PrintLine, ToCsv, ReadRows, SplitLines;
    SpacedLine(e, simple);
    OneRow(e, base + PARTITION_TABLE_SIZE);
    assert e in [e] && StartsVariable(e.name);
    CsvRoundTrip(csv, base, simple);
  }

  lemma OneRow(e: Entry, lastEnd: int)
    requires lastEnd <= e.offset
    ensures Layout(Explicits([e]), lastEnd) == Some([Place(Explicit(e), lastEnd)])
  {
    assert Explicits([e]) == [Explicit(e)] by { assert [e][1..] == []; }
    var rows := [Explicit(e)];
    assert rows[1..] == [] && Layout([], End(Place(rows[0], lastEnd))) == Some([]);
    assert [Place(rows[0], lastEnd)] + [] == [Place(rows[0], lastEnd)];
  }

  /** An end address below the offset gives a size that the printed table takes for
      an end address again. */
  lemma NegativeSizeExample(base: nat, simple: bool)
    ensures var offset := base + PARTITION_TABLE_SIZE;
      var csv := ToCsv([Entry("x", 1, 2, offset, -1, false)], simple);
      var t := [Entry("x", 1, 2, offset, 1 - offset, false)];
      && FromCsv(csv, base) == Some(t)
      && FromCsv(ToCsv(t, simple), base) != Some(t)
  {
    var offset := base + PARTITION_TABLE_SIZE;
    var written, t := Entry("x", 1, 2, offset, -1, false), [Entry("x", 1, 2, offset, 1 - offset, false)];
    var csv := ToCsv([written], simple);
    hide ToCsv, ReadRows, SplitLines;
    ReadPrinted([written], simple);
    assert forall e :: e in [written] ==> !StartsVariable(e.name);
    OneRow(written, offset);
    assert Place(Explicit(written), offset) == t[0];
    assert !SizesStable(t) by { assert t[0] in t; }
    CsvRoundTrip(csv, base, simple);
  }

  // -------- where the layout puts things --------

  function End(e: Entry): int {
    e.offset + e.size
  }

  predicate SizesNonNegative(t: seq<Entry>) {
    forall e :: e in t ==> e.size >= 0
  }

  // each partition starts at or after the end of the one before
  predicate Ascending(t: seq<Entry>, lastEnd: int)
    decreases t
  {
    t == [] || (lastEnd <= t[0].offset && Ascending(t[1..], t[0].offset + t[0].size))
  }

  lemma {:induction false} LayoutAscends(rows: seq<Row>, lastEnd: int)
    requires Layout(rows, lastEnd).Some?
    ensures Ascending(Layout(rows, lastEnd).value, lastEnd)
    decreases rows
  {
    if rows != [] {
      var e := Place(rows[0], lastEnd);
      LayoutAscends(rows[1..], e.offset + e.size);
      assert Layout(rows, lastEnd).value[1..] == Layout(rows[1..], e.offset + e.size).value;
    }
  }

  // an app starts on a 64 KB boundary, everything else on a word
  predicate AlignedFor(kind: int, n: int) {
    if kind == 0 then n % 0x1_0000 == 0 else n % 4 == 0
  }

  lemma AlignmentMeans(kind: int, n: int)
    ensures n % Alignment(kind) == 0 <==> AlignedFor(kind, n)
  {}

  // row is put at offset, its predecessor ending at prev
  ghost predicate PlacedAfter(prev: int, row: Row, offset: int) {
    match row.offset
    case Some(o) => offset == o >= prev
    case None =>
      && offset >= prev && AlignedFor(row.kind, offset)
      && forall o :: prev <= o && AlignedFor(row.kind, o) ==> offset <= o
  }

  // a negative size in the file is an end address
  ghost predicate Placement(prev: int, row: Row, e: Entry) {
    && PlacedAfter(prev, row, e.offset)
    && (if row.size >= 0 then e.size == row.size else End(e) == -row.size)
    && e.name == row.name && e.kind == row.kind && e.subtype == row.subtype && e.encrypted == row.encrypted
  }

  function PreviousEnd(t: seq<Entry>, k: nat, lastEnd: int): int
    requires k <= |t|
  {
    if k == 0 then lastEnd else End(t[k - 1])
  }

  // partition k is where its row and its predecessor put it
  ghost predicate PlacedAt(t: seq<Entry>, rows: seq<Row>, k: nat, lastEnd: int)
    requires k < |t| == |rows|
  {
    Placement(PreviousEnd(t, k, lastEnd), rows[k], t[k])
  }

  ghost predicate IsLayout(t: seq<Entry>, rows: seq<Row>, lastEnd: int) {
    |t| == |rows| && forall k :: 0 <= k < |rows| ==> PlacedAt(t, rows, k, lastEnd)
  }

  lemma PlaceExactly(row: Row, lastEnd: int, e: Entry)
    ensures Placement(lastEnd, row, e) <==>
      e == Place(row, lastEnd) && (row.offset.Some? ==> row.offset.value >= lastEnd)
  {
    if row.offset == None {
      var o := AlignUp(lastEnd, Alignment(row.kind));
      AlignmentMeans(row.kind, o);
      forall x | lastEnd <= x && AlignedFor(row.kind, x) ensures o <= x {
        AlignmentMeans(row.kind, x);
        LeastAligned(lastEnd, x, Alignment(row.kind));
      }
    }
  }

  lemma PlacedAtCons(e: Entry, rest: seq<Entry>, rows: seq<Row>, k: nat, lastEnd: int)
    requires k < |rest| && |rows| == |rest| + 1
    ensures PlacedAt([e] + rest, rows, k + 1, lastEnd) <==> PlacedAt(rest, rows[1..], k, End(e))
  {
    hide Placement;
    assert rows[1..][k] == rows[k + 1];
    assert PreviousEnd([e] + rest, k + 1, lastEnd) == PreviousEnd(rest, k, End(e));
  }

  lemma IsLayoutCons(e: Entry, rest: seq<Entry>, rows: seq<Row>, lastEnd: int)
    requires rows != []
    ensures IsLayout([e] + rest, rows, lastEnd) <==>
      Placement(lastEnd, rows[0], e) && IsLayout(rest, rows[1..], End(e))
  {
    var t := [e] + rest;
    if |t| == |rows| {
      assert PlacedAt(t, rows, 0, lastEnd) <==> Placement(lastEnd, rows[0], e);
      hide PlacedAt, Placement, End;
      forall k: nat | k < |rest| ensures PlacedAt(t, rows, k + 1, lastEnd) <==> PlacedAt(rest, rows[1..], k, End(e)) {
        PlacedAtCons(e, rest, rows, k, lastEnd);
      }
      if IsLayout(rest, rows[1..], End(e)) && PlacedAt(t, rows, 0, lastEnd) {
        forall k | 0 <= k < |rows| ensures PlacedAt(t, rows, k, lastEnd) {
          assert k > 0 ==> PlacedAt(rest, rows[1..], k - 1, End(e));
        }
      }
    }
  }

  /** The layout pass succeeds with a table exactly when every partition with an
      offset keeps it, at or after the end of its predecessor, every other one is
      put at the least aligned offset after that, and the sizes are those of the
      file, an end address giving what is left up to it. */
  lemma {:induction false} LayoutExactly(rows: seq<Row>, lastEnd: int, t: seq<Entry>)
    ensures Layout(rows, lastEnd) == Some(t) <==> IsLayout(t, rows, lastEnd)
    decreases rows
  {
    hide Place, Placement, IsLayout;
    if rows == [] {
      NoLayout(t, lastEnd);
    } else if t == [] {
      NothingForRows(rows, lastEnd);
      if Layout(rows, lastEnd).Some? {
        LayoutLength(rows, lastEnd);
      }
    } else {
      var e, rest := t[0], t[1..];
      assert t == [e] + rest;
      PlaceExactly(rows[0], lastEnd, e);
      IsLayoutCons(e, rest, rows, lastEnd);
      LayoutExactly(rows[1..], End(e), rest);
      FirstDecides(rows, lastEnd, t);
    }
  }

  lemma NoLayout(t: seq<Entry>, lastEnd: int)
    ensures IsLayout(t, [], lastEnd) <==> t == []
  {}

  lemma NothingForRows(rows: seq<Row>, lastEnd: int)
    requires rows != []
    ensures !IsLayout([], rows, lastEnd)
  {}

  lemma FirstDecides(rows: seq<Row>, lastEnd: int, t: seq<Entry>)
    requires rows != [] && t != []
    ensures Layout(rows, lastEnd) == Some(t) <==>
      && t[0] == Place(rows[0], lastEnd) && (rows[0].offset.Some? ==> rows[0].offset.value >= lastEnd)
      && Layout(rows[1..], End(t[0])) == Some(t[1..])
  {
    hide Place;
    var e := Place(rows[0], lastEnd);
    var rest := Layout(rows[1..], e.offset + e.size);
    if rest.Some? {
      assert ([e] + rest.value)[1..] == rest.value;
      assert t == [t[0]] + t[1..];
    }
  }

  // every line but blank ones and comments is parsed to a row, and none starts with a variable
  ghost predicate RowsOf(lines: seq<string>, rows: seq<Row>) {
    (forall l :: l in lines ==> !StartsVariable(l)) && ParsesTo(Contents(lines), rows)
  }

  ghost predicate FileRows(csv: string, rows: seq<Row>) {
    RowsOf(SplitLines(csv), rows)
  }

  lemma TableExactly(lines: seq<string>, lastEnd: int, t: seq<Entry>)
    ensures ReadRows(lines).Some? && Layout(ReadRows(lines).value, lastEnd) == Some(t) <==>
      exists rows :: RowsOf(lines, rows) && IsLayout(t, rows, lastEnd)
  {
    hide IsLayout, Layout, RowsOf;
    forall rows ensures RowsOf(lines, rows) <==> ReadRows(lines) == Some(rows) {
      RowsOfExactly(lines, rows);
    }
    if ReadRows(lines).Some? {
      LayoutExactly(ReadRows(lines).value, lastEnd, t);
      assert RowsOf(lines, ReadRows(lines).value);
    }
  }

  lemma RowsOfExactly(lines: seq<string>, rows: seq<Row>)
    ensures RowsOf(lines, rows) <==> ReadRows(lines) == Some(rows)
  {
    ReadRowsExactly(lines, rows);
  }

  /** from_csv as a whole: what it returns, for every file. */
  lemma FromCsvExactly(csv: string, base: int, t: seq<Entry>)
    ensures FromCsv(csv, base) == Some(t) <==>
      exists rows :: FileRows(csv, rows) && IsLayout(t, rows, base + 0x1000)
  {
    var lines := SplitLines(csv);
    TableExactly(lines, base + 0x1000, t);
    assert forall rows :: FileRows(csv, rows) <==> RowsOf(lines, rows);
  }

  /** An app behind a partition that ends at 0xF000 is put at 0x10000. */
  lemma AppExample(nvs: string, factory: string)
    ensures var rows := [Row(nvs, 1, 2, Some(0x9000), 0x6000, false), Row(factory, 0, 0, None, 0x10_0000, false)];
      Layout(rows, 0x9000) ==
        Some([Entry(nvs, 1, 2, 0x9000, 0x6000, false), Entry(factory, 0, 0, 0x1_0000, 0x10_0000, false)])
  {
    var first, second := Row(nvs, 1, 2, Some(0x9000), 0x6000, false), Row(factory, 0, 0, None, 0x10_0000, false);
    assert [first, second][1..] == [second] && [second][1..] == [];
    var nvsEntry, app := Entry(nvs, 1, 2, 0x9000, 0x6000, false), Entry(factory, 0, 0, 0x1_0000, 0x10_0000, false);
    assert Place(second, 0xF000) == app && Place(first, 0x9000) == nvsEntry;
    assert Layout([], app.offset + app.size) == Some([]) && [app] + [] == [app];
    assert Layout([second], 0xF000) == Some([app]);
    assert [nvsEntry] + [app] == [nvsEntry, app];
  }

  /** Every partition without an offset is put at the least multiple of 64 KB or
      of four after its predecessor; every other one keeps its own. */
  lemma LayoutPlaces(rows: seq<Row>, lastEnd: int, k: nat)
    requires Layout(rows, lastEnd).Some? && k < |rows|
    ensures var t := Layout(rows, lastEnd).value;
            && |t| == |rows|
            && PlacedAfter(if k == 0 then lastEnd else t[k - 1].offset + t[k - 1].size, rows[k], t[k].offset)
  {
    LayoutExactly(rows, lastEnd, Layout(rows, lastEnd).value);
    assert PlacedAt(Layout(rows, lastEnd).value, rows, k, lastEnd);
  }

  lemma {:induction false} LayoutLength(rows: seq<Row>, lastEnd: int)
    requires Layout(rows, lastEnd).Some?
    ensures |Layout(rows, lastEnd).value| == |rows|
    decreases rows
  {
    if rows != [] {
      var e := Place(rows[0], lastEnd);
      LayoutLength(rows[1..], e.offset + e.size);
    }
  }

  lemma LeastAligned(n: int, o: int, align: int)
    requires (align == 4 || align == 0x1_0000) && n <= o && o % align == 0
    ensures AlignUp(n, align) <= o
  {}

  // -------- verify --------

  datatype Problem = Misaligned | DuplicateName | BelowTable | Overlap

  function Offset(e: Entry): int {
    e.offset
  }

  function InsertByOffset(e: Entry, t: seq<Entry>): seq<Entry> {
    StableSort.Insert(Offset, e, t)
  }

  // sorted(self, key=lambda x: x.offset)
  function SortByOffset(t: seq<Entry>): seq<Entry> {
    StableSort.Sort(Offset, t)
  }

  // PartitionDefinition.verify: the offset is aligned, and with secure the size too
  predicate EntryOk(e: Entry, secure: bool) {
    e.offset % Alignment(e.kind) == 0 && (secure ==> e.size % Alignment(e.kind) == 0)
  }

  predicate UniqueNames(t: seq<Entry>) {
    forall i, j :: 0 <= i < j < |t| ==> t[i].name != t[j].name
  }

  predicate AllFrom(t: seq<Entry>, lo: int) {
    forall i :: 0 <= i < |t| ==> lo <= t[i].offset
  }

  // the overlap pass over a sorted table
  predicate Chain(t: seq<Entry>)
  {
    forall i :: 0 < i < |t| ==> End(t[i - 1]) <= t[i].offset
  }

  // a, which comes earlier in the table than b, does not run into it nor the other way round
  predicate Compatible(a: Entry, b: Entry) {
    if a.offset <= b.offset then End(a) <= b.offset else End(b) <= a.offset
  }

  predicate AllCompatible(a: Entry, t: seq<Entry>) {
    forall i :: 0 <= i < |t| ==> Compatible(a, t[i])
  }

  /** No two partitions overlap, wherever they are in the table. */
  predicate Apart(t: seq<Entry>) {
    t == [] || (AllCompatible(t[0], t[1..]) && Apart(t[1..]))
  }

  lemma {:induction false} ApartMeans(t: seq<Entry>, i: nat, j: nat)
    requires Apart(t) && i < j < |t|
    ensures Compatible(t[i], t[j])
  {
    if i == 0 {
      assert t[j] == t[1..][j - 1];
    } else {
      ApartMeans(t[1..], i - 1, j - 1);
    }
  }

  /** Partitions that are apart share no address. */
  lemma ApartIsDisjoint(t: seq<Entry>, i: nat, j: nat, a: int)
    requires Apart(t) && i < |t| && j < |t| && i != j
    ensures !(t[i].offset <= a < End(t[i]) && t[j].offset <= a < End(t[j]))
  {
    if i < j {
      ApartMeans(t, i, j);
    } else {
      ApartMeans(t, j, i);
    }
  }

  predicate SortedByOffset(t: seq<Entry>) {
    StableSort.Sorted(Offset, t)
  }

  lemma FromSplit(e: Entry, t: seq<Entry>, lo: int)
    ensures AllFrom([e] + t, lo) <==> lo <= e.offset && AllFrom(t, lo)
  {
    var r := [e] + t;
    assert r[0] == e;
    assert forall i :: 0 < i < |r| ==> r[i] == t[i - 1];
    assert forall i :: 0 <= i < |t| ==> t[i] == r[i + 1];
  }

  lemma FromMembers(t: seq<Entry>, lo: int)
    ensures AllFrom(t, lo) <==> forall e :: e in multiset(t) ==> lo <= e.offset
  {
    assert forall e :: e in multiset(t) <==> e in t;
  }

  lemma SortSorts(t: seq<Entry>)
    ensures SortedByOffset(SortByOffset(t)) && multiset(SortByOffset(t)) == multiset(t)
    ensures forall lo :: AllFrom(SortByOffset(t), lo) <==> AllFrom(t, lo)
  {
    StableSort.SortFacts(Offset, t);
    var s := SortByOffset(t);
    forall lo ensures AllFrom(s, lo) <==> AllFrom(t, lo) {
      FromMembers(s, lo);
      FromMembers(t, lo);
    }
  }

  lemma ChainCons(e: Entry, t: seq<Entry>)
    ensures Chain([e] + t) <==> Chain(t) && (t != [] ==> End(e) <= t[0].offset)
  {
    var r := [e] + t;
    assert forall i :: 0 < i < |r| ==> r[i] == t[i - 1];
    assert forall i :: 0 <= i < |t| ==> t[i] == r[i + 1];
    assert r[0] == e;
    if Chain(r) {
      forall i | 0 < i < |t| ensures End(t[i - 1]) <= t[i].offset {
        assert r[i] == t[i - 1] && r[i + 1] == t[i];
      }
      if t != [] {
        assert r[1] == t[0];
      }
    }
  }

  lemma CompatibleCons(a: Entry, e: Entry, t: seq<Entry>)
    ensures AllCompatible(a, [e] + t) <==> Compatible(a, e) && AllCompatible(a, t)
  {
    var r := [e] + t;
    assert r[0] == e;
    assert forall i :: 0 < i < |r| ==> r[i] == t[i - 1];
    assert forall i :: 0 <= i < |t| ==> t[i] == r[i + 1];
  }

  lemma {:induction false} InsertChain(e: Entry, t: seq<Entry>)
    requires SortedByOffset(t)
    ensures Chain(InsertByOffset(e, t)) <==> Chain(t) && AllCompatible(e, t)
  {
    if t != [] {
      var x, rest := t[0], t[1..];
      assert t == [x] + rest;
      CompatibleCons(e, x, rest);
      ChainCons(x, rest);
      if e.offset <= x.offset {
        ChainCons(e, t);
      } else {
        InsertChain(e, rest);
        ChainCons(x, InsertByOffset(e, rest));
      }
    }
  }

  /** Comparing neighbours in offset order finds every overlap. */
  lemma {:induction false} ChainIsApart(t: seq<Entry>)
    ensures Chain(SortByOffset(t)) <==> Apart(t)
  {
    if t != [] {
      ChainIsApart(t[1..]);
      SortSorts(t[1..]);
      InsertChain(t[0], SortByOffset(t[1..]));
      SameCompatible(t[0], SortByOffset(t[1..]), t[1..]);
    }
  }

  lemma SameCompatible(a: Entry, s: seq<Entry>, t: seq<Entry>)
    requires multiset(s) == multiset(t)
    ensures AllCompatible(a, s) <==> AllCompatible(a, t)
  {
    CompatibleMembers(a, s);
    CompatibleMembers(a, t);
    assert forall e :: e in s <==> e in multiset(s);
    assert forall e :: e in t <==> e in multiset(t);
  }

  lemma CompatibleMembers(a: Entry, t: seq<Entry>)
    ensures AllCompatible(a, t) <==> forall e :: e in t ==> Compatible(a, e)
  {}

  predicate EntriesOk(t: seq<Entry>, secure: bool) {
    forall i :: 0 <= i < |t| ==> EntryOk(t[i], secure)
  }

  // the problem that verify reports
  function FirstProblem(t: seq<Entry>, base: int, secure: bool): Option<Problem> {
    if !EntriesOk(t, secure) then Some(Misaligned)
    else if !UniqueNames(t) then Some(DuplicateName)
    else if !AllFrom(t, base + PARTITION_TABLE_SIZE) then Some(BelowTable)
    else if !Apart(t) then Some(Overlap)
    else None
  }

  predicate AllAligned(t: seq<Entry>, secure: bool) {
    forall e :: e in t ==> AlignedFor(e.kind, e.offset) && (secure ==> AlignedFor(e.kind, e.size))
  }

  predicate PairsApart(t: seq<Entry>) {
    forall i, j :: 0 <= i < j < |t| ==> Compatible(t[i], t[j])
  }

  lemma {:induction false} ApartExactly(t: seq<Entry>)
    ensures Apart(t) <==> PairsApart(t)
  {
    hide Compatible;
    if Apart(t) {
      forall i, j | 0 <= i < j < |t| ensures Compatible(t[i], t[j]) {
        ApartMeans(t, i, j);
      }
    }
    if PairsApart(t) && t != [] {
      var rest := t[1..];
      forall i, j | 0 <= i < j < |rest| ensures Compatible(rest[i], rest[j]) {
        assert rest[i] == t[i + 1] && rest[j] == t[j + 1];
      }
      ApartExactly(rest);
      forall i | 0 <= i < |rest| ensures Compatible(t[0], rest[i]) {
        assert rest[i] == t[i + 1];
      }
    }
  }

  lemma EntriesOkMeans(t: seq<Entry>, secure: bool)
    ensures EntriesOk(t, secure) <==> AllAligned(t, secure)
  {
    hide Alignment, AlignedFor;
    forall e: Entry ensures EntryOk(e, secure) <==> AlignedFor(e.kind, e.offset) && (secure ==> AlignedFor(e.kind, e.size)) {
      AlignmentMeans(e.kind, e.offset);
      AlignmentMeans(e.kind, e.size);
    }
  }

  /** What each verdict says of the table. */
  lemma ProblemMeans(t: seq<Entry>, base: int, secure: bool)
    ensures var problem := FirstProblem(t, base, secure);
      var aligned, unique := AllAligned(t, secure), UniqueNames(t);
      var above := forall e :: e in t ==> base + 0x1000 <= e.offset;
      && (problem == None <==> aligned && unique && above && PairsApart(t))
      && (problem == Some(Misaligned) <==> !aligned)
      && (problem == Some(DuplicateName) <==> aligned && !unique)
      && (problem == Some(BelowTable) <==> aligned && unique && !above)
      && (problem == Some(Overlap) <==> aligned && unique && above && !PairsApart(t))
  {
    hide EntriesOk, AllAligned, UniqueNames, PairsApart, Apart;
    EntriesOkMeans(t, secure);
    ApartExactly(t);
  }

  predicate SizesPositive(t: seq<Entry>) {
    forall e :: e in t ==> e.size > 0
  }

  predicate Occupies(e: Entry, a: int) {
    e.offset <= a < End(e)
  }

  ghost predicate ShareNothing(t: seq<Entry>) {
    forall i, j, a :: 0 <= i < j < |t| && Occupies(t[i], a) ==> !Occupies(t[j], a)
  }

  lemma ApartShareNothing(t: seq<Entry>)
    requires PairsApart(t)
    ensures ShareNothing(t)
  {
    forall i, j, a | 0 <= i < j < |t| && Occupies(t[i], a) ensures !Occupies(t[j], a) {
      assert Compatible(t[i], t[j]);
    }
  }

  /** For partitions that are not empty, being apart is sharing no address. */
  lemma ApartIsExactlyDisjoint(t: seq<Entry>)
    requires SizesPositive(t)
    ensures PairsApart(t) <==> ShareNothing(t)
  {
    if PairsApart(t) {
      ApartShareNothing(t);
    } else {
      var i, j :| 0 <= i < j < |t| && !Compatible(t[i], t[j]);
      assert t[i] in t && t[j] in t;
      var a := if t[i].offset <= t[j].offset then t[j].offset else t[i].offset;
      assert Occupies(t[i], a) && Occupies(t[j], a);
    }
  }

  // p.verify for each entry
  method VerifyEntries(t: seq<Entry>, secure: bool) returns (ok: bool)
    ensures ok <==> EntriesOk(t, secure)
  {
    for i := 0 to |t|
      invariant forall k :: 0 <= k < i ==> EntryOk(t[k], secure)
    {
      if t[i].offset % Alignment(t[i].kind) != 0 || (secure && t[i].size % Alignment(t[i].kind) != 0) {
        assert !EntryOk(t[i], secure);
        return false;
      }
    }
    ok := true;
  }

  // the check on duplicate names
  method VerifyNames(t: seq<Entry>) returns (ok: bool)
    ensures ok <==> UniqueNames(t)
  {
    for i := 0 to |t|
      invariant forall k, l :: 0 <= k < l < |t| && k < i ==> t[k].name != t[l].name
    {
      for j := i + 1 to |t|
        invariant forall l :: i < l < j ==> t[i].name != t[l].name
      {
        if t[i].name == t[j].name {
          return false;
        }
      }
    }
    ok := true;
  }

  // the check for overlaps, on the entries in order of offset
  method VerifyOrder(sorted: seq<Entry>, start: int) returns (problem: Option<Problem>)
    requires SortedByOffset(sorted)
    ensures problem ==
      if !AllFrom(sorted, start) then Some(BelowTable) else if !Chain(sorted) then Some(Overlap) else None
  {
    var last: Option<Entry> := None;
    for i := 0 to |sorted|
      invariant forall k :: 0 <= k < i ==> start <= sorted[k].offset
      invariant forall k :: 0 < k < i ==> End(sorted[k - 1]) <= sorted[k].offset
      invariant last == if i == 0 then None else Some(sorted[i - 1])
    {
      var p := sorted[i];
      if p.offset < start {
        return Some(BelowTable);
      }
      if last.Some? && p.offset < last.value.offset + last.value.size {
        assert sorted[0].offset >= start;
        return Some(Overlap);
      }
      last := Some(p);
    }
    problem := None;
  }

  /** PartitionTable.verify: it accepts exactly the tables whose partitions are
      aligned, distinctly named, after the table and apart, although it compares
      only neighbours in offset order. */
  method Verify(t: seq<Entry>, base: int, secure: bool) returns (problem: Option<Problem>)
    ensures problem == FirstProblem(t, base, secure)
    ensures problem == None <==>
      AllAligned(t, secure) && UniqueNames(t) && (forall e :: e in t ==> base + 0x1000 <= e.offset) && PairsApart(t)
    ensures problem == Some(Misaligned) <==> !AllAligned(t, secure)
    ensures problem == Some(DuplicateName) <==> AllAligned(t, secure) && !UniqueNames(t)
    ensures problem == Some(BelowTable) <==>
      AllAligned(t, secure) && UniqueNames(t) && exists e :: e in t && e.offset < base + 0x1000
    ensures problem == Some(Overlap) <==>
      AllAligned(t, secure) && UniqueNames(t) && (forall e :: e in t ==> base + 0x1000 <= e.offset) && !PairsApart(t)
    ensures problem == None ==> ShareNothing(t)
  {
    ProblemMeans(t, base, secure);
    if PairsApart(t) {
      ApartShareNothing(t);
    }
    hide EntriesOk, UniqueNames, AllFrom, Chain, Apart, SortByOffset, AllAligned, PairsApart, ShareNothing;
    var ok := VerifyEntries(t, secure);
    if !ok {
      return Some(Misaligned);
    }
    ok := VerifyNames(t);
    if !ok {
      return Some(DuplicateName);
    }
    SortSorts(t);
    ChainIsApart(t);
    problem := VerifyOrder(SortByOffset(t), base + PARTITION_TABLE_SIZE);
  }

  lemma {:induction false} AscendingIsApart(t: seq<Entry>, lastEnd: int)
    requires Ascending(t, lastEnd) && SizesNonNegative(t)
    ensures AllFrom(t, lastEnd) && Apart(t)
    decreases t
  {
    if t != [] {
      assert t[0] in t;
      AscendingIsApart(t[1..], End(t[0]));
      assert t == [t[0]] + t[1..];
      FromSplit(t[0], t[1..], lastEnd);
      assert forall i :: 0 <= i < |t[1..]| ==> End(t[0]) <= t[1..][i].offset;
    }
  }

  /** Layout agrees with verification: a table from_csv lays out with no negative
      size has all its partitions after the table and apart. */
  lemma LayoutIsVerified(csv: string, base: int)
    requires FromCsv(csv, base).Some? && SizesNonNegative(FromCsv(csv, base).value)
    ensures AllFrom(FromCsv(csv, base).value, base + PARTITION_TABLE_SIZE) && Apart(FromCsv(csv, base).value)
  {
    hide ReadRows;
    hide SplitLines;
    var rows := ReadRows(SplitLines(csv)).value;
    LayoutAscends(rows, base + PARTITION_TABLE_SIZE);
    AscendingIsApart(FromCsv(csv, base).value, base + PARTITION_TABLE_SIZE);
  }

  // -------- flash_size --------

  // sorted(self, reverse=True)[0]: the first of the partitions with the largest offset
  function LastPartition(t: seq<Entry>): (e: Entry)
    requires t != []
    ensures e in t && forall x :: x in t ==> x.offset <= e.offset
  {
    if |t| == 1 then t[0]
    else
      var e := LastPartition(t[1..]);
      if t[0].offset >= e.offset then t[0] else e
  }

  function FlashSize(t: seq<Entry>): int {
    if t == [] then 0 else End(LastPartition(t))
  }

  // of the partitions at the largest offset, the first is the largest
  predicate FirstIsLargest(t: seq<Entry>)
    requires t != []
  {
    var last := LastPartition(t);
    forall x :: x in t && x.offset == last.offset ==> x.size <= last.size
  }

  /** For a valid table without negative sizes, flash_size covers every partition
      exactly when no empty partition hides a larger one at the same last offset. */
  lemma FlashSizeCovers(t: seq<Entry>)
    requires t != [] && Apart(t) && SizesNonNegative(t)
    ensures (forall x :: x in t ==> End(x) <= FlashSize(t)) <==> FirstIsLargest(t)
  {
    var last := LastPartition(t);
    forall x | x in t && x.offset < last.offset ensures End(x) <= FlashSize(t) {
      var i :| 0 <= i < |t| && t[i] == x;
      var j :| 0 <= j < |t| && t[j] == last;
      if i < j {
        ApartMeans(t, i, j);
      } else {
        ApartMeans(t, j, i);
      }
      assert last.size >= 0;
    }
    forall x | x in t && x.offset == last.offset
      ensures End(x) <= FlashSize(t) <==> x.size <= last.size
    {}
  }

  lemma PositiveFirstIsLargest(t: seq<Entry>)
    requires t != [] && Apart(t) && SizesPositive(t)
    ensures FirstIsLargest(t)
  {
    var last := LastPartition(t);
    forall x | x in t && x.offset == last.offset ensures x.size <= last.size {
      var i :| 0 <= i < |t| && t[i] == x;
      var j :| 0 <= j < |t| && t[j] == last;
      if i < j {
        ApartMeans(t, i, j);
      } else if j < i {
        ApartMeans(t, j, i);
      }
    }
  }

  /** An empty partition listed first at the last offset makes flash_size too
      small, in a table that verify accepts. */
  lemma FlashSizeTooSmall(a: string, b: string)
    requires a != b
    ensures var t := [Entry(a, 1, 0, 0x9000, 0, false), Entry(b, 1, 0, 0x9000, 0x1000, false)];
            FirstProblem(t, 0x8000, false) == None && FlashSize(t) == 0x9000 && End(t[1]) == 0xA000
  {
    var t := [Entry(a, 1, 0, 0x9000, 0, false), Entry(b, 1, 0, 0x9000, 0x1000, false)];
    assert t[1..] == [t[1]] && t[1..][1..] == [];
    assert EntriesOk(t, false);
    assert UniqueNames(t);
    assert AllFrom(t, 0x9000);
    assert Apart(t);
  }

  function SizeSum(t: seq<Entry>): int {
    if t == [] then 0 else t[0].size + SizeSum(t[1..])
  }

  lemma {:induction false} InsertSum(e: Entry, t: seq<Entry>)
    ensures SizeSum(InsertByOffset(e, t)) == e.size + SizeSum(t)
  {
    if t != [] && t[0].offset < e.offset {
      InsertSum(e, t[1..]);
    } else {
      assert ([e] + t)[1..] == t;
    }
  }

  lemma {:induction false} SortSum(t: seq<Entry>)
    ensures SizeSum(SortByOffset(t)) == SizeSum(t)
  {
    if t != [] {
      SortSum(t[1..]);
      InsertSum(t[0], SortByOffset(t[1..]));
    }
  }

  lemma {:induction false} ChainSum(t: seq<Entry>, lo: int, top: int)
    requires Chain(t) && t != [] && lo <= t[0].offset && forall i :: 0 <= i < |t| ==> End(t[i]) <= top
    ensures lo + SizeSum(t) <= top
    decreases t
  {
    if |t| > 1 {
      assert t == [t[0]] + t[1..];
      ChainCons(t[0], t[1..]);
      ChainSum(t[1..], End(t[0]), top);
    }
  }

  /** With positive sizes, a valid table needs at least the partition table's end
      plus the sizes of all partitions, and flash_size is the largest end. */
  lemma FlashSizeIsLargestEnd(t: seq<Entry>, base: int)
    requires t != [] && Apart(t) && SizesPositive(t) && AllFrom(t, base + PARTITION_TABLE_SIZE)
    ensures (forall x :: x in t ==> End(x) <= FlashSize(t)) && exists x :: x in t && End(x) == FlashSize(t)
    ensures base + PARTITION_TABLE_SIZE + SizeSum(t) <= FlashSize(t)
  {
    PositiveFirstIsLargest(t);
    FlashSizeCovers(t);
    var s := SortByOffset(t);
    SortSorts(t);
    ChainIsApart(t);
    SortSum(t);
    assert |s| == |t| by {
      assert |multiset(s)| == |s| && |multiset(t)| == |t|;
    }
    forall i | 0 <= i < |s| ensures End(s[i]) <= FlashSize(t) {
      assert s[i] in multiset(s);
      assert s[i] in t;
    }
    ChainSum(s, base + PARTITION_TABLE_SIZE, FlashSize(t));
    assert LastPartition(t) in t;
  }
}
