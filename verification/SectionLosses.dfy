/** Which exceptions keep leaf sections from being entered: the exact condition on the tree of a test case. */
module SectionLosses {
  import opened SectionTracking

  /**
    * All cycles of the sections in a body but the very last one end with an exception: every section but the last
    * throws, and so does the last one, or the same holds of its own sections.
    */
  predicate QuietLast(sec: Section)
    decreases sec
  {
    sec.kids != [] ==>
      && (forall i :: 0 <= i < |sec.kids| - 1 ==> sec.kids[i].throws)
      && var last := sec.kids[|sec.kids| - 1]; last.throws || QuietLast(last)
  }

  /** A section that throws and has sections of its own throws quietly, here and everywhere below. */
  predicate Lossless(sec: Section)
    decreases sec
  {
    && (sec.throws ==> QuietLast(sec))
    && forall i :: 0 <= i < |sec.kids| ==> Lossless(sec.kids[i])
  }

  // -------- entered leaves are leaves, in order --------

  // a is b without some of its elements
  predicate Selects(a: seq<Path>, b: seq<Path>)
    decreases b
  {
    if b == [] then a == []
    else (a != [] && a[0] == b[0] && Selects(a[1..], b[1..])) || Selects(a, b[1..])
  }

  lemma {:induction false} SelectsNothing(b: seq<Path>)
    ensures Selects([], b)
  {
    if b != [] {
      SelectsNothing(b[1..]);
    }
  }

  lemma {:induction false} SelectsAll(a: seq<Path>)
    ensures Selects(a, a)
  {
    if a != [] {
      SelectsAll(a[1..]);
    }
  }

  lemma {:induction false} SelectsLength(a: seq<Path>, b: seq<Path>)
    requires Selects(a, b)
    ensures |a| <= |b| && (|a| == |b| ==> a == b)
    decreases b
  {
    if b != [] {
      if a != [] && a[0] == b[0] && Selects(a[1..], b[1..]) {
        SelectsLength(a[1..], b[1..]);
        assert |a| == |b| ==> a == [a[0]] + a[1..] && b == [b[0]] + b[1..];
      } else {
        SelectsLength(a, b[1..]);
      }
    }
  }

  lemma {:induction false} SelectsConcat(a: seq<Path>, b: seq<Path>, c: seq<Path>, d: seq<Path>)
    requires Selects(a, b) && Selects(c, d)
    ensures Selects(a + c, b + d)
    decreases b
  {
    if b == [] {
      assert a + c == c && b + d == d;
    } else {
      assert (b + d)[1..] == b[1..] + d;
      if a != [] && a[0] == b[0] && Selects(a[1..], b[1..]) {
        assert (a + c)[1..] == a[1..] + c;
        SelectsConcat(a[1..], b[1..], c, d);
      } else {
        SelectsConcat(a, b[1..], c, d);
      }
    }
  }

  lemma {:induction false} SelectsDistinct(a: seq<Path>, b: seq<Path>, k: nat, l: nat)
    requires Selects(a, b) && k < l < |a|
    requires forall i, j :: 0 <= i < j < |b| ==> b[i] != b[j]
    ensures a[k] != a[l] && a[k] in b
    decreases b
  {
    if a[0] == b[0] && Selects(a[1..], b[1..]) {
      if k > 0 {
        SelectsDistinct(a[1..], b[1..], k - 1, l - 1);
      } else {
        SelectsMember(a[1..], b[1..], l - 1);
      }
    } else {
      SelectsDistinct(a, b[1..], k, l);
    }
  }

  lemma {:induction false} SelectsMember(a: seq<Path>, b: seq<Path>, k: nat)
    requires Selects(a, b) && k < |a|
    ensures a[k] in b
    decreases b
  {
    if a[0] == b[0] && Selects(a[1..], b[1..]) {
      if k > 0 {
        SelectsMember(a[1..], b[1..], k - 1);
      }
    } else {
      SelectsMember(a, b[1..], k);
    }
  }

  // -------- what the end of a body does to the cycles of its sections --------

  lemma {:induction false} LogsConcat(a: seq<Step>, b: seq<Step>)
    ensures Logs(a + b) == Logs(a) + Logs(b)
  {
    if a == [] {
      assert a + b == b;
    } else {
      assert (a + b)[1..] == a[1..] + b;
      LogsConcat(a[1..], b);
    }
  }

  // no leaf is entered after the first cycle that ends normally
  predicate Quiet(steps: seq<Step>) {
    steps != [] ==> if steps[0].threw then Quiet(steps[1..]) else Logs(steps[1..]) == []
  }

  predicate AllThrow(steps: seq<Step>) {
    forall i :: 0 <= i < |steps| ==> steps[i].threw
  }

  lemma LogsFirst(x: Step, rest: seq<Step>)
    ensures Logs([x] + rest) == x.log + Logs(rest)
  {
    assert ([x] + rest)[1..] == rest;
  }

  lemma QuietFirst(x: Step, rest: seq<Step>)
    ensures Quiet([x] + rest) <==> if x.threw then Quiet(rest) else Logs(rest) == []
  {
    assert ([x] + rest)[1..] == rest;
  }

  lemma EndsOfNothing()
    ensures Ends([], false) == [Step([], false)]
    ensures Logs(Ends([], false)) == Logs([]) && Quiet(Ends([], false)) && Quiet([])
  {
    LogsFirst(Step([], false), []);
    QuietFirst(Step([], false), []);
    assert [Step([], false)] + [] == [Step([], false)];
  }

  lemma EndsUnfolds(steps: seq<Step>)
    requires steps != []
    ensures Ends(steps, false) ==
      if steps[0].threw || |steps| > 1 then [steps[0]] + Ends(steps[1..], false) else steps
  {}

  // a body that does not throw loses nothing
  lemma {:induction false} EndsLogs(steps: seq<Step>)
    ensures Logs(Ends(steps, false)) == Logs(steps)
    ensures Quiet(Ends(steps, false)) <==> Quiet(steps)
    ensures !Ends(steps, false)[|Ends(steps, false)| - 1].threw
  {
    hide Ends, Logs, Quiet;
    if steps == [] {
      EndsOfNothing();
    } else {
      var first, rest := steps[0], steps[1..];
      EndsUnfolds(steps);
      assert steps == [first] + rest;
      if first.threw || |steps| > 1 {
        EndsLogs(rest);
        LogsFirst(first, Ends(rest, false));
        LogsFirst(first, rest);
        QuietFirst(first, Ends(rest, false));
        QuietFirst(first, rest);
      }
    }
  }

  // a body that throws loses nothing exactly when it is quiet
  lemma {:induction false} EndsThrowing(steps: seq<Step>)
    ensures AllThrow(Ends(steps, true))
    ensures Selects(Logs(Ends(steps, true)), Logs(steps))
    ensures Logs(Ends(steps, true)) == Logs(steps) <==> Quiet(steps)
  {
    if steps == [] {
      LogsFirst(Step([], true), []);
    } else {
      var first, rest := steps[0].log, steps[1..];
      SelectsAll(first);
      if steps[0].threw {
        EndsThrowing(rest);
        LogsFirst(steps[0], Ends(rest, true));
        SelectsConcat(first, first, Logs(Ends(rest, true)), Logs(rest));
        var a, b := Logs(Ends(rest, true)), Logs(rest);
        assert (first + a)[|first|..] == a && (first + b)[|first|..] == b;
      } else {
        LogsFirst(Step(first, true), []);
        assert [Step(first, true)] + [] == [Step(first, true)];
        SelectsNothing(Logs(rest));
        SelectsConcat(first, first, [], Logs(rest));
        assert first + [] == first;
        assert |first + Logs(rest)| == |first| + |Logs(rest)|;
      }
    }
  }

  lemma {:induction false} QuietConcat(a: seq<Step>, b: seq<Step>)
    ensures AllThrow(a) ==> (Quiet(a + b) <==> Quiet(b))
    ensures !AllThrow(a) ==> (Quiet(a + b) <==> Quiet(a) && Logs(b) == [])
  {
    if a == [] {
      assert a + b == b;
    } else {
      assert (a + b)[1..] == a[1..] + b;
      if a[0].threw {
        QuietConcat(a[1..], b);
        assert AllThrow(a) <==> AllThrow(a[1..]) by {
          assert a == [a[0]] + a[1..];
        }
      } else {
        LogsConcat(a[1..], b);
      }
    }
  }

  lemma {:induction false} AllThrowIsQuiet(a: seq<Step>)
    requires AllThrow(a)
    ensures Quiet(a)
  {
    if a != [] {
      AllThrowIsQuiet(a[1..]);
    }
  }

  // -------- the tree --------

  // a section enters a leaf in its first cycle; it throws in all of them, or not in the last
  lemma {:induction false} VisitsFacts(sec: Section, path: Path)
    ensures Visits(sec, path)[0].log != [] && Logs(Visits(sec, path)) != []
    ensures AllThrow(Visits(sec, path)) <==> sec.throws
    decreases sec
  {
    var v := Visits(sec, path);
    if sec.kids != [] {
      var base := VisitsFrom(sec, 0, path);
      VisitsFacts(sec.kids[0], path + [sec.kids[0].name]);
      assert base[0] == Visits(sec.kids[0], path + [sec.kids[0].name])[0];
      if sec.throws {
        EndsThrowing(base);
      } else {
        EndsLogs(base);
      }
      assert Ends(base, sec.throws)[0].log == base[0].log;
    }
  }

  lemma {:induction false} QuietVisits(sec: Section, i: nat, path: Path)
    requires i < |sec.kids|
    ensures Quiet(VisitsFrom(sec, i, path)) <==>
      && (forall k :: i <= k < |sec.kids| - 1 ==> sec.kids[k].throws)
      && var last := sec.kids[|sec.kids| - 1]; last.throws || QuietLast(last)
    decreases sec, |sec.kids| - i
  {
    hide QuietLast, Visits, Quiet, AllThrow;
    var kid, p := sec.kids[i], path + [sec.kids[i].name];
    var v, rest := Visits(kid, p), VisitsFrom(sec, i + 1, path);
    VisitsFacts(kid, p);
    QuietConcat(v, rest);
    if i == |sec.kids| - 1 {
      assert v + rest == v;
      OneQuiet(kid, p);
    } else {
      QuietVisits(sec, i + 1, path);
      var next, q := sec.kids[i + 1], path + [sec.kids[i + 1].name];
      VisitsFacts(next, q);
      LogsConcat(Visits(next, q), VisitsFrom(sec, i + 2, path));
    }
  }

  lemma {:induction false} OneQuiet(sec: Section, path: Path)
    ensures Quiet(Visits(sec, path)) <==> sec.throws || QuietLast(sec)
    decreases sec, |sec.kids| + 1
  {
    VisitsFacts(sec, path);
    if sec.throws {
      AllThrowIsQuiet(Visits(sec, path));
    } else if sec.kids != [] {
      EndsLogs(VisitsFrom(sec, 0, path));
      QuietVisits(sec, 0, path);
    }
  }

  lemma SelectsBoth(a: seq<Path>, b: seq<Path>, c: seq<Path>, d: seq<Path>)
    requires Selects(a, b) && Selects(c, d)
    ensures Selects(a + c, b + d) && (a + c == b + d <==> a == b && c == d)
  {
    hide Selects;
    SelectsConcat(a, b, c, d);
    SelectsLength(a, b);
    SelectsLength(c, d);
    assert |a + c| == |a| + |c| && |b + d| == |b| + |d|;
  }

  lemma SelectsFewer(a: seq<Path>, b: seq<Path>, c: seq<Path>)
    requires Selects(a, b) && Selects(b, c)
    ensures Selects(a, c) && (a == c <==> a == b && b == c)
  {
    SelectsTransitive(a, b, c);
    SelectsLength(a, b);
    SelectsLength(b, c);
  }

  lemma {:induction false} SelectsTransitive(a: seq<Path>, b: seq<Path>, c: seq<Path>)
    requires Selects(a, b) && Selects(b, c)
    ensures Selects(a, c)
    decreases c
  {
    if c != [] {
      if b != [] && b[0] == c[0] && Selects(b[1..], c[1..]) {
        if a != [] && a[0] == b[0] && Selects(a[1..], b[1..]) {
          SelectsTransitive(a[1..], b[1..], c[1..]);
        } else {
          SelectsTransitive(a, b[1..], c[1..]);
        }
      } else {
        SelectsTransitive(a, b, c[1..]);
      }
    }
  }

  /** A section enters some of its leaves, in order; all of them exactly when it is lossless. */
  lemma {:induction false} SectionEnters(sec: Section, path: Path)
    ensures Selects(Logs(Visits(sec, path)), Leaves(sec, path))
    ensures Logs(Visits(sec, path)) == Leaves(sec, path) <==> Lossless(sec)
    decreases sec, |sec.kids| + 1
  {
    if sec.kids == [] {
      LogsFirst(Step([path], sec.throws), []);
      SelectsAll([path]);
    } else {
      var base := VisitsFrom(sec, 0, path);
      BodyEnters(sec, 0, path);
      EndsEnter(base, sec.throws, Leaves(sec, path));
      QuietVisits(sec, 0, path);
      hide Ends, VisitsFrom, LeavesFrom, Quiet;
      assert Visits(sec, path) == Ends(base, sec.throws);
    }
  }

  lemma EndsEnter(base: seq<Step>, throws: bool, leaves: seq<Path>)
    requires Selects(Logs(base), leaves)
    ensures Selects(Logs(Ends(base, throws)), leaves)
    ensures Logs(Ends(base, throws)) == leaves <==> Logs(base) == leaves && (throws ==> Quiet(base))
  {
    hide Ends, Logs, Quiet;
    if throws {
      EndsThrowing(base);
      SelectsFewer(Logs(Ends(base, true)), Logs(base), leaves);
    } else {
      EndsLogs(base);
    }
  }

  lemma {:induction false} BodyEnters(sec: Section, i: nat, path: Path)
    requires i <= |sec.kids|
    ensures Selects(Logs(VisitsFrom(sec, i, path)), LeavesFrom(sec, i, path))
    ensures Logs(VisitsFrom(sec, i, path)) == LeavesFrom(sec, i, path) <==>
      forall k :: i <= k < |sec.kids| ==> Lossless(sec.kids[k])
    decreases sec, |sec.kids| - i
  {
    if i < |sec.kids| {
      var kid, p := sec.kids[i], path + [sec.kids[i].name];
      SectionEnters(kid, p);
      BodyEnters(sec, i + 1, path);
      LogsConcat(Visits(kid, p), VisitsFrom(sec, i + 1, path));
      SelectsBoth(Logs(Visits(kid, p)), Leaves(kid, p), Logs(VisitsFrom(sec, i + 1, path)), LeavesFrom(sec, i + 1, path));
    }
  }

  lemma TestEnters(test: Section)
    ensures Selects(Entered(test), Leaves(test, [test.name]))
    ensures Entered(test) == Leaves(test, [test.name]) <==>
      forall k :: 0 <= k < |test.kids| ==> Lossless(test.kids[k])
  {
    if test.kids == [] {
      SelectsAll([[test.name]]);
    } else {
      BodyEnters(test, 0, [test.name]);
      EndsEnter(VisitsFrom(test, 0, [test.name]), false, Leaves(test, [test.name]));
    }
  }

  /**
    * Running a test case until it is complete enters every leaf section exactly once, in depth-first order, if and
    * only if each of its sections is lossless. Whether the test case itself throws does not matter.
    */
  lemma EveryLeafOnce(test: Section)
    requires DistinctNames(test)
    ensures Good(test, Fresh(test))
    ensures RunTest(test, Fresh(test)) == Leaves(test, [test.name]) <==>
      forall k :: 0 <= k < |test.kids| ==> Lossless(test.kids[k])
  {
    RunFromStart(test);
    TestEnters(test);
  }

  /** Whatever throws, no leaf section is entered twice. */
  lemma NoLeafTwice(test: Section, k: nat, l: nat)
    requires DistinctNames(test) && k < l < |Entered(test)|
    ensures Entered(test)[k] != Entered(test)[l]
  {
    var leaves := Leaves(test, [test.name]);
    forall i, j | 0 <= i < j < |leaves| ensures leaves[i] != leaves[j] {
      LeavesDistinct(test, [test.name], i, j);
    }
    TestEnters(test);
    SelectsDistinct(Entered(test), leaves, k, l);
  }
}
