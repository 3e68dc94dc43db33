/** PartitionTable.from_csv on PartitionDefinition objects, which the layout pass
    updates in place. */
module PartitionReader {
  import opened Bytes
  import opened PartitionCsv
  import opened PartitionTable
  import opened PythonText

  class PartitionDefinition {
    var name: string
    var kind: int
    var subtype: int
    var offset: Option<int>
    var size: int
    var encrypted: bool

    constructor (row: Row)
      ensures View() == row
    {
      name, kind, subtype := row.name, row.kind, row.subtype;
      offset, size, encrypted := row.offset, row.size, row.encrypted;
    }

    function View(): Row
      reads this
    {
      Row(name, kind, subtype, offset, size, encrypted)
    }
  }

  function Views(ps: seq<PartitionDefinition>): (v: seq<Row>)
    reads ps
    ensures |v| == |ps|
  {
    if ps == [] then [] else [ps[0].View()] + Views(ps[1..])
  }

  ghost predicate Distinct(ps: seq<PartitionDefinition>) {
    forall i, j :: 0 <= i < j < |ps| ==> ps[i] != ps[j]
  }

  lemma {:induction false} ViewsAppend(ps: seq<PartitionDefinition>, p: PartitionDefinition)
    ensures Views(ps + [p]) == Views(ps) + [p.View()]
  {
    if ps == [] {
      assert ps + [p] == [p];
    } else {
      ViewsAppend(ps[1..], p);
      assert (ps + [p])[1..] == ps[1..] + [p];
    }
  }

  function Before(rows: seq<Row>, rest: Option<seq<Row>>): Option<seq<Row>> {
    match rest case Some(more) => Some(rows + more) case None => None
  }

  function Placed(done: seq<Entry>, rest: Option<seq<Entry>>): Option<seq<Entry>> {
    match rest case Some(more) => Some(done + more) case None => None
  }

  // the lines of a CSV file, parsed one by one
  method ReadLines(lines: seq<string>) returns (res: Option<seq<PartitionDefinition>>)
    ensures match ReadRows(lines)
      case None => res == None
      case Some(rows) => res.Some? && Views(res.value) == rows && Distinct(res.value) && forall p :: p in res.value ==> fresh(p)
  {
    hide StartsVariable;
    hide Strip;
    hide ParseLine;
    var ps: seq<PartitionDefinition> := [];
    assert lines[0..] == lines;
    NothingRead(ReadRows(lines));
    for i := 0 to |lines|
      invariant Distinct(ps) && forall p :: p in ps ==> fresh(p)
      invariant ReadRows(lines) == Before(Views(ps), ReadRows(lines[i..]))
    {
      assert lines[i..][1..] == lines[i + 1..];
      if StartsVariable(lines[i]) {
        return None;
      }
      var line := Strip(lines[i]);
      if line == "" || line[0] == '#' {
        continue;
      }
      var row := ParseLine(line);
      if row.None? {
        return None;
      }
      var p := new PartitionDefinition(row.value);
      ViewsAppend(ps, p);
      ReadOne(Views(ps), row.value, ReadRows(lines[i + 1..]));
      ps := ps + [p];
    }
    assert Views(ps) + [] == Views(ps);
    res := Some(ps);
  }

  lemma NothingRead(rest: Option<seq<Row>>)
    ensures Before([], rest) == rest
  {
    if rest.Some? {
      assert [] + rest.value == rest.value;
    }
  }

  lemma ReadOne(rows: seq<Row>, row: Row, rest: Option<seq<Row>>)
    ensures Before(rows, Before([row], rest)) == Before(rows + [row], rest)
  {
    if rest.Some? {
      assert rows + ([row] + rest.value) == rows + [row] + rest.value;
    }
  }

  // one definition of the layout pass; returns the end of the partition
  method PlaceInFile(e: PartitionDefinition, lastEnd: int) returns (end: int)
    modifies e
    ensures e.View() == Explicit(Place(old(e.View()), lastEnd))
    ensures end == End(Place(old(e.View()), lastEnd))
  {
    var from := lastEnd;
    if e.offset.None? {
      var padTo := if e.kind == APP_TYPE then 0x1_0000 else 4;
      if from % padTo != 0 {
        from := from + (padTo - from % padTo);
      }
      e.offset := Some(from);
    }
    if e.size < 0 {
      e.size := -e.size - e.offset.value;
    }
    end := e.offset.value + e.size;
  }

  lemma LayoutStep(rows: seq<Row>, lastEnd: int)
    requires rows != []
    ensures Layout(rows, lastEnd) ==
      if rows[0].offset.Some? && rows[0].offset.value < lastEnd then None
      else Placed([Place(rows[0], lastEnd)], Layout(rows[1..], End(Place(rows[0], lastEnd))))
  {
    hide Place, Layout, End;
    LayoutUnfolds(rows, lastEnd);
    var e := Place(rows[0], lastEnd);
    assert e.offset + e.size == End(e) by { EndIs(e); }
  }

  lemma LayoutUnfolds(rows: seq<Row>, lastEnd: int)
    requires rows != []
    ensures var e := Place(rows[0], lastEnd);
      Layout(rows, lastEnd) ==
        if rows[0].offset.Some? && rows[0].offset.value < lastEnd then None
        else Placed([e], Layout(rows[1..], e.offset + e.size))
  {
    hide Place;
  }

  lemma EndIs(e: Entry)
    ensures e.offset + e.size == End(e)
  {}

  /** The layout pass: fills in missing offsets and turns end addresses into
      sizes, in place. */
  method FixUp(res: seq<PartitionDefinition>, base: int, ghost owned: set<PartitionDefinition>) returns (ok: bool)
    requires Distinct(res) && forall p :: p in res ==> p in owned
    modifies owned
    ensures match Layout(old(Views(res)), base + PARTITION_TABLE_SIZE)
      case None => !ok
      case Some(t) => ok && Views(res) == Explicits(t)
  {
    hide Place;
    hide Layout;
    hide Explicits;
    hide Distinct;
    hide Views;
    hide Placed;
    hide Explicit;
    NoViews();
    var lastEnd := base + PARTITION_TABLE_SIZE;
    ghost var rows, done := Views(res), [];
    ghost var goal := Layout(rows, lastEnd);
    NothingPlaced(goal);
    assert res[0..] == res && rows[0..] == rows && res[..0] == [];
    for i := 0 to |res|
      invariant Views(res[i..]) == rows[i..] && Views(res[..i]) == Explicits(done)
      invariant goal == Placed(done, Layout(rows[i..], lastEnd))
    {
      var e := res[i];
      assert e in res;
      assert res[i..][1..] == res[i + 1..] && rows[i..][1..] == rows[i + 1..];
      ghost var row, start := e.View(), lastEnd;
      ghost var head, tail := Views(res[..i]), Views(res[i + 1..]);
      ViewsFirst(res[i..]);
      assert row == rows[i..][0] && tail == rows[i + 1..];
      LayoutStep(rows[i..], lastEnd);
      if e.offset.Some? && e.offset.value < lastEnd {
        PlacedNone(done);
        return false;
      }
      OthersApart(res, i);
      lastEnd := PlaceInFile(e, lastEnd);
      assert Views(res[..i]) == head && Views(res[i + 1..]) == tail;
      ViewsAppend(res[..i], e);
      assert res[..i + 1] == res[..i] + [e];
      ExplicitsAppend(done, Place(row, start));
      PlacedOne(done, Place(row, start), Layout(rows[i + 1..], lastEnd));
      done := done + [Place(row, start)];
    }
    LayoutNothing(lastEnd);
    assert res[..|res|] == res && res[|res|..] == [] && rows[|res|..] == [];
    PlacedAll(done);
    ok := true;
  }

  lemma PlacedNone(done: seq<Entry>)
    ensures Placed(done, None) == None
  {}

  lemma PlacedAll(done: seq<Entry>)
    ensures Placed(done, Some([])) == Some(done)
  {
    assert done + [] == done;
  }

  lemma NoViews()
    ensures Views([]) == []
  {}

  lemma LayoutNothing(lastEnd: int)
    ensures Layout([], lastEnd) == Some([]) && Explicits([]) == []
  {}

  lemma ViewsFirst(ps: seq<PartitionDefinition>)
    requires ps != []
    ensures Views(ps)[0] == ps[0].View() && Views(ps)[1..] == Views(ps[1..])
  {}

  lemma OthersApart(res: seq<PartitionDefinition>, i: nat)
    requires Distinct(res) && i < |res|
    ensures res[i] !in res[..i] && res[i] !in res[i + 1..]
  {}

  lemma NothingPlaced(rest: Option<seq<Entry>>)
    ensures Placed([], rest) == rest
  {
    if rest.Some? {
      assert [] + rest.value == rest.value;
    }
  }

  lemma PlacedOne(done: seq<Entry>, e: Entry, rest: Option<seq<Entry>>)
    ensures Placed(done, Placed([e], rest)) == Placed(done + [e], rest)
  {
    if rest.Some? {
      assert done + ([e] + rest.value) == done + [e] + rest.value;
    }
  }

  lemma {:induction false} ExplicitsAppend(t: seq<Entry>, e: Entry)
    ensures Explicits(t + [e]) == Explicits(t) + [Explicit(e)]
  {
    if t == [] {
      assert t + [e] == [e];
    } else {
      ExplicitsAppend(t[1..], e);
      assert (t + [e])[1..] == t[1..] + [e];
    }
  }

  /** from_csv: the definitions, each with its offset and size, or None for InputError. */
  method ReadCsv(csv: string, base: int) returns (res: Option<seq<PartitionDefinition>>)
    ensures match FromCsv(csv, base)
      case None => res == None
      case Some(t) => res.Some? && Views(res.value) == Explicits(t)
  {
    hide ReadRows;
    hide Layout;
    hide SplitLines;
    res := ReadLines(SplitLines(csv));
    if res.Some? {
      ghost var owned := set p | p in res.value;
      var ok := FixUp(res.value, base, owned);
      if !ok {
        res := None;
      }
    }
  }
}
