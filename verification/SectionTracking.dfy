/** Catch's section tracking as a function of one test case: which section of a
    tree is opened in each cycle, and what becomes of its tracker. */
module SectionTracking {

  datatype CycleState =
    | NotStarted
    | Executing
    | ExecutingChildren
    | NeedsAnotherRun
    | CompletedSuccessfully
    | Failed

  predicate IsComplete(s: CycleState) {
    s == CompletedSuccessfully || s == Failed
  }

  predicate IsOpen(s: CycleState) {
    s != NotStarted && !IsComplete(s)
  }

  // what tells sections of one parent apart
  datatype Name = Name(name: string, line: nat)

  type Path = seq<Name>

  /** A test case or section: the sections in its body, in order, and whether the
      body ends with an exception. */
  datatype Section = Section(name: Name, kids: seq<Section>, throws: bool)

  datatype Tracker = Tracker(name: Name, state: CycleState, children: seq<Tracker>)

  function Fresh(sec: Section): Tracker {
    Tracker(sec.name, NotStarted, [])
  }

  // findChild
  function FindChild(children: seq<Tracker>, name: Name): (i: nat)
    ensures i <= |children|
    ensures i < |children| ==> children[i].name == name
    ensures forall j :: 0 <= j < i ==> children[j].name != name
  {
    if children == [] || children[0].name == name then 0 else 1 + FindChild(children[1..], name)
  }

  // close; the states it excludes are its "Illogical state" errors
  function Close(t: Tracker): Tracker
    requires IsOpen(t.state)
  {
    match t.state
    case Executing => t.(state := CompletedSuccessfully)
    case ExecutingChildren =>
      if t.children == [] || IsComplete(t.children[|t.children| - 1].state) then t.(state := CompletedSuccessfully) else t
    case NeedsAnotherRun => t
  }

  /** The effect of meeting a section: its tracker afterwards, whether the cycle is
      complete, whether an exception is under way, the leaf sections entered,
      and whether this section was opened and whether it failed. */
  datatype Ran = Ran(tracker: Tracker, completed: bool, threw: bool, log: seq<Path>, didOpen: bool, failed: bool)

  // sectionStarted, the body if the section is entered, sectionEnded or sectionEndedEarly
  function RunSection(sec: Section, t: Tracker, completed: bool, path: Path): Ran
    decreases sec, |sec.kids| + 1
  {
    var didOpen := !completed && !IsComplete(t.state);
    var entered := if didOpen then t.(state := Executing) else t;
    if !IsOpen(entered.state) then Ran(entered, completed, false, [], didOpen, false)
    else
      var body := RunKids(sec, 0, entered, completed, path);
      var log := if sec.kids == [] then [path] else body.log;
      if body.threw then Ran(Close(body.tracker), true, true, log, didOpen, false)
      else if sec.throws then Ran(body.tracker.(state := Failed), true, true, log, didOpen, true)
      else Ran(Close(body.tracker), true, false, log, didOpen, false)
  }

  // the child tracker that acquire finds or creates
  function Acquire(t: Tracker, kid: Section): Tracker {
    if FindChild(t.children, kid.name) < |t.children| then t else t.(children := t.children + [Fresh(kid)])
  }

  // the parent after one of its sections has run
  function AfterKid(t: Tracker, i: nat, r: Ran): Tracker
    requires i < |t.children|
  {
    Tracker(t.name,
            if r.failed then NeedsAnotherRun else if r.didOpen then ExecutingChildren else t.state,
            t.children[i := r.tracker])
  }

  // the body of an entered section, from its i-th section on
  function RunKids(sec: Section, i: nat, t: Tracker, completed: bool, path: Path): (r: Ran)
    requires i <= |sec.kids| && IsOpen(t.state)
    ensures IsOpen(r.tracker.state)
    decreases sec, |sec.kids| - i
  {
    if i == |sec.kids| then Ran(t, completed, false, [], false, false)
    else
      var kid := sec.kids[i];
      var t1 := Acquire(t, kid);
      var k := FindChild(t1.children, kid.name);
      AcquireFinds(t, kid);
      var r := RunSection(kid, t1.children[k], completed, path + [kid.name]);
      var t2 := AfterKid(t1, k, r);
      if r.threw then Ran(t2, r.completed, true, r.log, false, false)
      else
        var rest := RunKids(sec, i + 1, t2, r.completed, path);
        rest.(log := r.log + rest.log)
  }

  lemma {:induction false} FindAppended(children: seq<Tracker>, t: Tracker)
    requires FindChild(children, t.name) == |children|
    ensures FindChild(children + [t], t.name) == |children|
  {
    if children != [] {
      assert (children + [t])[1..] == children[1..] + [t];
      FindAppended(children[1..], t);
    }
  }

  lemma AcquireFinds(t: Tracker, kid: Section)
    ensures FindChild(Acquire(t, kid).children, kid.name) < |Acquire(t, kid).children|
  {
    if FindChild(t.children, kid.name) == |t.children| {
      FindAppended(t.children, Fresh(kid));
    }
  }

  // one turn of the loop in runTest: the test case is opened, run and closed; an
  // exception ends its body but does not fail it
  function RunCycle(test: Section, t: Tracker): (Tracker, seq<Path>)
    requires !IsComplete(t.state)
  {
    var body := RunKids(test, 0, t.(state := Executing), false, [test.name]);
    (Close(body.tracker), if test.kids == [] then [[test.name]] else body.log)
  }

  // -------- what is left to do --------

  // every leaf below a section, in depth-first order
  function Leaves(sec: Section, path: Path): seq<Path>
    decreases sec, |sec.kids| + 1
  {
    if sec.kids == [] then [path] else LeavesFrom(sec, 0, path)
  }

  function LeavesFrom(sec: Section, i: nat, path: Path): seq<Path>
    requires i <= |sec.kids|
    decreases sec, |sec.kids| - i
  {
    if i == |sec.kids| then []
    else Leaves(sec.kids[i], path + [sec.kids[i].name]) + LeavesFrom(sec, i + 1, path)
  }

  // the tracker of the i-th section, which may still have to be created
  function ChildAt(sec: Section, children: seq<Tracker>, i: nat): Tracker
    requires i < |sec.kids|
  {
    if i < |children| then children[i] else Fresh(sec.kids[i])
  }

  /** One cycle: the leaf it enters, if any, and whether an exception leaves the section. */
  datatype Step = Step(log: seq<Path>, threw: bool)

  // the leaves entered by some cycles
  function Logs(steps: seq<Step>): seq<Path> {
    if steps == [] then [] else steps[0].log + Logs(steps[1..])
  }

  /** The cycles of a section, given the cycles its own sections would take. A body
      that throws fails its section in the first cycle that no section of it has
      thrown in. One that does not goes on, with a cycle more if the last of its
      sections failed. */
  function Ends(steps: seq<Step>, throws: bool): (r: seq<Step>)
    ensures r != []
  {
    if steps == [] then [Step([], throws)]
    else if steps[0].threw then [steps[0]] + Ends(steps[1..], throws)
    else if throws then [Step(steps[0].log, true)]
    else if |steps| == 1 then steps
    else [steps[0]] + Ends(steps[1..], false)
  }

  /** The cycles a section takes from the start. */
  function Visits(sec: Section, path: Path): (r: seq<Step>)
    ensures r != []
    decreases sec, |sec.kids| + 1
  {
    if sec.kids == [] then [Step([path], sec.throws)] else Ends(VisitsFrom(sec, 0, path), sec.throws)
  }

  function VisitsFrom(sec: Section, i: nat, path: Path): seq<Step>
    requires i <= |sec.kids|
    decreases sec, |sec.kids| - i
  {
    if i == |sec.kids| then []
    else Visits(sec.kids[i], path + [sec.kids[i].name]) + VisitsFrom(sec, i + 1, path)
  }

  /** The leaf sections a test case enters: its own exceptions only end its body. */
  function Entered(test: Section): seq<Path> {
    if test.kids == [] then [[test.name]] else Logs(Ends(VisitsFrom(test, 0, [test.name]), false))
  }

  /** The cycles a section has left, by its tracker. */
  function Cycles(sec: Section, t: Tracker, path: Path): seq<Step>
    decreases sec, |sec.kids| + 1
  {
    if IsComplete(t.state) then []
    else if sec.kids == [] then [Step([path], sec.throws)]
    else Ends(CyclesFrom(sec, t.children, 0, path), sec.throws)
  }

  function CyclesFrom(sec: Section, children: seq<Tracker>, i: nat, path: Path): seq<Step>
    requires i <= |sec.kids|
    decreases sec, |sec.kids| - i
  {
    if i == |sec.kids| then []
    else
      var kid := sec.kids[i];
      Cycles(kid, ChildAt(sec, children, i), path + [kid.name]) + CyclesFrom(sec, children, i + 1, path)
  }

  function TestCycles(test: Section, t: Tracker): seq<Step> {
    if IsComplete(t.state) then []
    else if test.kids == [] then [Step([[test.name]], false)]
    else Ends(CyclesFrom(test, t.children, 0, [test.name]), false)
  }

  // -------- trackers between cycles --------

  ghost predicate DistinctNames(sec: Section)
    decreases sec
  {
    && (forall i, j :: 0 <= i < j < |sec.kids| ==> sec.kids[i].name != sec.kids[j].name)
    && forall i :: 0 <= i < |sec.kids| ==> DistinctNames(sec.kids[i])
  }

  predicate NamesMatch(sec: Section, children: seq<Tracker>) {
    && |children| <= |sec.kids|
    && forall i :: 0 <= i < |children| ==> children[i].name == sec.kids[i].name
  }

  // the first f sections are complete and the ones after the next not started
  predicate SplitAt(sec: Section, children: seq<Tracker>, f: nat) {
    && f <= |sec.kids|
    && (forall i :: 0 <= i < f ==> IsComplete(ChildAt(sec, children, i).state))
    && (f < |sec.kids| ==> !IsComplete(ChildAt(sec, children, f).state))
    && forall i :: f < i < |sec.kids| ==> ChildAt(sec, children, i).state == NotStarted
  }

  /** The trackers of a section as they are between cycles: sections complete in
      order, at most one of them partly done, the later ones not started. */
  ghost predicate Good(sec: Section, t: Tracker)
    decreases sec
  {
    && t.name == sec.name
    && NamesMatch(sec, t.children)
    && (forall i :: 0 <= i < |sec.kids| ==> Good(sec.kids[i], ChildAt(sec, t.children, i)))
    && match t.state
       case NotStarted => t.children == []
       case Executing => false
       case ExecutingChildren => sec.kids != [] && exists f: nat :: SplitAt(sec, t.children, f) && f < |t.children|
       case NeedsAnotherRun => sec.kids != [] && exists f: nat :: SplitAt(sec, t.children, f)
       case CompletedSuccessfully => SplitAt(sec, t.children, |sec.kids|)
       case Failed => true
  }

  lemma {:induction false} FreshIsGood(sec: Section)
    ensures Good(sec, Fresh(sec))
    decreases sec
  {
    forall i | 0 <= i < |sec.kids| ensures Good(sec.kids[i], Fresh(sec.kids[i])) {
      FreshIsGood(sec.kids[i]);
    }
  }

  lemma {:induction false} FreshCycles(sec: Section, path: Path)
    ensures Cycles(sec, Fresh(sec), path) == Visits(sec, path)
    decreases sec, |sec.kids| + 1
  {
    FreshCyclesFrom(sec, 0, path);
  }

  lemma {:induction false} FreshCyclesFrom(sec: Section, i: nat, path: Path)
    requires i <= |sec.kids|
    ensures CyclesFrom(sec, [], i, path) == VisitsFrom(sec, i, path)
    decreases sec, |sec.kids| - i
  {
    if i < |sec.kids| {
      FreshCycles(sec.kids[i], path + [sec.kids[i].name]);
      FreshCyclesFrom(sec, i + 1, path);
    }
  }

  lemma {:induction false} FindAt(sec: Section, children: seq<Tracker>, i: nat)
    requires DistinctNames(sec) && NamesMatch(sec, children) && i < |sec.kids| && i <= |children|
    ensures FindChild(children, sec.kids[i].name) == i
  {}

  // acquire with the first i sections already there
  lemma AcquireAt(sec: Section, t: Tracker, i: nat)
    requires DistinctNames(sec) && NamesMatch(sec, t.children) && i < |sec.kids| && i <= |t.children|
    ensures var t1 := Acquire(t, sec.kids[i]);
            && t1 == t.(children := if i < |t.children| then t.children else t.children + [Fresh(sec.kids[i])])
            && FindChild(t1.children, sec.kids[i].name) == i && NamesMatch(sec, t1.children)
            && t1.children[i] == ChildAt(sec, t.children, i)
            && forall j :: 0 <= j < |sec.kids| ==> ChildAt(sec, t1.children, j) == ChildAt(sec, t.children, j)
  {
    hide DistinctNames, FindChild;
    var children := if i < |t.children| then t.children else t.children + [Fresh(sec.kids[i])];
    FindAt(sec, t.children, i);
    assert t.(children := children) == Acquire(t, sec.kids[i]);
    FindAt(sec, children, i);
  }

  // -------- sections met after the cycle is complete --------

  // the trackers of the first n sections, created where missing
  function Discovered(sec: Section, children: seq<Tracker>, n: nat): seq<Tracker>
    requires n <= |sec.kids|
  {
    if n <= |children| then children
    else Discovered(sec, children, n - 1) + [Fresh(sec.kids[n - 1])]
  }

  lemma {:induction false} DiscoveredFacts(sec: Section, children: seq<Tracker>, n: nat)
    requires n <= |sec.kids| && |children| <= |sec.kids|
    ensures |Discovered(sec, children, n)| == if n <= |children| then |children| else n
    ensures forall j :: 0 <= j < |sec.kids| ==> ChildAt(sec, Discovered(sec, children, n), j) == ChildAt(sec, children, j)
    ensures NamesMatch(sec, children) ==> NamesMatch(sec, Discovered(sec, children, n))
  {
    if n > |children| {
      DiscoveredFacts(sec, children, n - 1);
    }
  }

  lemma DiscoveredAll(sec: Section, children: seq<Tracker>)
    requires |children| >= |sec.kids|
    ensures Discovered(sec, children, |sec.kids|) == children
  {}

  lemma SkippedSection(kid: Section, t: Tracker, i: nat, path: Path)
    requires i < |t.children| && t.children[i].state == NotStarted
    ensures var r := RunSection(kid, t.children[i], true, path);
      r == Ran(t.children[i], true, false, [], false, false) && AfterKid(t, i, r) == t
  {
    assert t.children[i := t.children[i]] == t.children;
  }

  /** Once the cycle is complete no further section opens: the sections still to
      come are only recorded. */
  lemma {:induction false} NothingOpensAfterwards(sec: Section, i: nat, t: Tracker, path: Path)
    requires i <= |sec.kids| && IsOpen(t.state) && DistinctNames(sec) && NamesMatch(sec, t.children)
    requires i <= |t.children|
    requires forall j :: i <= j < |sec.kids| ==> ChildAt(sec, t.children, j).state == NotStarted
    ensures RunKids(sec, i, t, true, path)
         == Ran(t.(children := Discovered(sec, t.children, |sec.kids|)), true, false, [], false, false)
    decreases |sec.kids| - i
  {
    hide RunSection, Acquire, AfterKid, FindChild, DistinctNames, Discovered;
    if i == |sec.kids| {
      DiscoveredAll(sec, t.children);
    } else {
      var kid := sec.kids[i];
      AcquireAt(sec, t, i);
      var t1 := Acquire(t, kid);
      SkippedSection(kid, t1, i, path + [kid.name]);
      NothingOpensAfterwards(sec, i + 1, t1, path);
      DiscoverOne(sec, t.children, i);
    }
  }

  lemma {:induction false} DiscoverOne(sec: Section, children: seq<Tracker>, i: nat)
    requires i < |sec.kids| && i <= |children|
    ensures Discovered(sec, if i < |children| then children else children + [Fresh(sec.kids[i])], |sec.kids|)
         == Discovered(sec, children, |sec.kids|)
  {
    if i == |children| {
      DiscoverNext(sec, children, |sec.kids|);
    }
  }

  lemma {:induction false} DiscoverNext(sec: Section, children: seq<Tracker>, n: nat)
    requires |children| < n <= |sec.kids|
    ensures Discovered(sec, children + [Fresh(sec.kids[|children|])], n) == Discovered(sec, children, n)
  {
    if n > |children| + 1 {
      DiscoverNext(sec, children, n - 1);
    } else {
      assert Discovered(sec, children, |children|) == children;
    }
  }

  // -------- one cycle --------

  // kid f has run; the others are as before, and all are there unless it threw
  ghost predicate RanAt(sec: Section, before: Tracker, f: nat, rk: Ran, r: Ran)
    requires f < |sec.kids|
  {
    var after := r.tracker.children;
    && r.threw == rk.threw && r.log == rk.log
    && r.tracker.name == before.name
    && r.tracker.state == (if rk.failed then NeedsAnotherRun else ExecutingChildren)
    && NamesMatch(sec, after) && f < |after| && (!r.threw ==> |after| == |sec.kids|)
    && ChildAt(sec, after, f) == rk.tracker
    && forall j :: 0 <= j < |sec.kids| && j != f ==> ChildAt(sec, after, j) == ChildAt(sec, before.children, j)
  }

  lemma PassOver(sec: Section, i: nat, f: nat, t: Tracker, path: Path)
    requires i < f && IsOpen(t.state) && DistinctNames(sec) && NamesMatch(sec, t.children) && SplitAt(sec, t.children, f)
    ensures RunKids(sec, i, t, false, path) == RunKids(sec, i + 1, t, false, path)
  {
    hide DistinctNames;
    hide Acquire;
    CompleteIsThere(sec, t.children, f, i + 1);
    AcquireAt(sec, t, i);
    assert IsComplete(ChildAt(sec, t.children, i).state);
    assert t.children[i := t.children[i]] == t.children;
    var rest := RunKids(sec, i + 1, t, false, path);
    assert [] + rest.log == rest.log;
  }

  // the run of kid f when it is the first incomplete one
  function KidRun(sec: Section, t: Tracker, f: nat, path: Path): Ran
    requires f < |sec.kids|
  {
    RunSection(sec.kids[f], ChildAt(sec, t.children, f), false, path + [sec.kids[f].name])
  }

  lemma OpenKid(sec: Section, f: nat, t: Tracker, path: Path)
    requires f < |sec.kids| && t.state == Executing && DistinctNames(sec) && NamesMatch(sec, t.children)
    requires SplitAt(sec, t.children, f)
    requires var rk := KidRun(sec, t, f, path);
             rk.didOpen && (rk.threw || rk.completed) && rk.tracker.name == sec.kids[f].name
    ensures RanAt(sec, t, f, KidRun(sec, t, f, path), RunKids(sec, f, t, false, path))
  {
    hide DistinctNames;
    hide Acquire;
    hide RunSection;
    CompleteIsThere(sec, t.children, f, f);
    AcquireAt(sec, t, f);
    var t1 := Acquire(t, sec.kids[f]);
    var rk := KidRun(sec, t, f, path);
    var t2 := AfterKid(t1, f, rk);
    AfterKidAt(sec, t1, f, rk);
    if !rk.threw {
      NothingOpensAfterwards(sec, f + 1, t2, path);
      DiscoveredFacts(sec, t2.children, |sec.kids|);
      assert rk.log + [] == rk.log;
    }
  }

  /** In an opened section, complete sections are passed over and the first
      incomplete one is opened; it alone runs. */
  lemma {:induction false} OpensFirst(sec: Section, i: nat, f: nat, t: Tracker, path: Path)
    requires i <= f && t.state == Executing && DistinctNames(sec) && NamesMatch(sec, t.children)
    requires SplitAt(sec, t.children, f)
    requires f < |sec.kids| ==>
      var rk := KidRun(sec, t, f, path);
      rk.didOpen && (rk.threw || rk.completed) && rk.tracker.name == sec.kids[f].name
    ensures f < |sec.kids| ==> RanAt(sec, t, f, KidRun(sec, t, f, path), RunKids(sec, i, t, false, path))
    ensures f == |sec.kids| ==> RunKids(sec, i, t, false, path) == Ran(t, false, false, [], false, false)
    decreases |sec.kids| - i
  {
    hide DistinctNames;
    hide NamesMatch;
    hide RanAt;
    hide KidRun;
    hide RunSection;
    hide Acquire;
    hide AfterKid;
    if i < f {
      PassOver(sec, i, f, t, path);
      OpensFirst(sec, i + 1, f, t, path);
    } else if f < |sec.kids| {
      OpenKid(sec, f, t, path);
    }
  }

  lemma CompleteIsThere(sec: Section, children: seq<Tracker>, f: nat, i: nat)
    requires SplitAt(sec, children, f) && i <= f && NamesMatch(sec, children)
    ensures i <= |children|
  {
    assert |children| < |sec.kids| ==> ChildAt(sec, children, |children|).state == NotStarted;
  }

  lemma AfterKidAt(sec: Section, t: Tracker, i: nat, r: Ran)
    requires i < |t.children| <= |sec.kids| && NamesMatch(sec, t.children) && r.tracker.name == sec.kids[i].name
    ensures var after := AfterKid(t, i, r);
            && NamesMatch(sec, after.children) && |after.children| == |t.children|
            && ChildAt(sec, after.children, i) == r.tracker
            && forall j :: 0 <= j < |sec.kids| && j != i ==> ChildAt(sec, after.children, j) == ChildAt(sec, t.children, j)
  {}

  // -------- what a cycle does to the work left --------

  ghost predicate SameFrom(sec: Section, a: seq<Tracker>, b: seq<Tracker>, i: nat) {
    forall j :: i <= j < |sec.kids| ==> ChildAt(sec, a, j) == ChildAt(sec, b, j)
  }

  lemma {:induction false} CyclesSame(sec: Section, a: seq<Tracker>, b: seq<Tracker>, i: nat, path: Path)
    requires i <= |sec.kids| && SameFrom(sec, a, b, i)
    ensures CyclesFrom(sec, a, i, path) == CyclesFrom(sec, b, i, path)
    decreases |sec.kids| - i
  {
    if i < |sec.kids| {
      CyclesSame(sec, a, b, i + 1, path);
    }
  }

  lemma {:induction false} CyclesSkip(sec: Section, children: seq<Tracker>, i: nat, f: nat, path: Path)
    requires i <= f <= |sec.kids| && forall j :: i <= j < f ==> IsComplete(ChildAt(sec, children, j).state)
    ensures CyclesFrom(sec, children, i, path) == CyclesFrom(sec, children, f, path)
    decreases |sec.kids| - i
  {
    if i < f {
      CyclesSkip(sec, children, i + 1, f, path);
      assert [] + CyclesFrom(sec, children, i + 1, path) == CyclesFrom(sec, children, i + 1, path);
    }
  }

  // no cycles are left exactly when every section is complete
  lemma NoCycles(sec: Section, children: seq<Tracker>, f: nat, path: Path)
    requires SplitAt(sec, children, f)
    ensures CyclesFrom(sec, children, 0, path) == [] <==> f == |sec.kids|
  {
    CyclesSkip(sec, children, 0, f, path);
    if f < |sec.kids| {
      assert Cycles(sec.kids[f], ChildAt(sec, children, f), path + [sec.kids[f].name]) != [];
    }
  }

  // at most one leaf is entered, and the cycle is the first one that was left
  ghost predicate Progress(before: seq<Step>, after: seq<Step>, log: seq<Path>, threw: bool) {
    |log| <= 1 && before == [Step(log, threw)] + after
  }

  lemma KidProgress(sec: Section, before: seq<Tracker>, after: seq<Tracker>, f: nat, log: seq<Path>, threw: bool, path: Path)
    requires f < |sec.kids| && (forall j :: 0 <= j < f ==> IsComplete(ChildAt(sec, before, j).state))
    requires forall j :: 0 <= j < |sec.kids| && j != f ==> ChildAt(sec, after, j) == ChildAt(sec, before, j)
    requires var kid, p := sec.kids[f], path + [sec.kids[f].name];
      Progress(Cycles(kid, ChildAt(sec, before, f), p), Cycles(kid, ChildAt(sec, after, f), p), log, threw)
    ensures Progress(CyclesFrom(sec, before, 0, path), CyclesFrom(sec, after, 0, path), log, threw)
  {
    hide Cycles;
    CyclesSkip(sec, before, 0, f, path);
    CyclesSkip(sec, after, 0, f, path);
    CyclesSame(sec, before, after, f + 1, path);
    var left := Cycles(sec.kids[f], ChildAt(sec, after, f), path + [sec.kids[f].name]);
    var rest := CyclesFrom(sec, before, f + 1, path);
    assert [Step(log, threw)] + (left + rest) == [Step(log, threw)] + left + rest;
  }

  lemma SplitExists(sec: Section, t: Tracker) returns (f: nat)
    requires Good(sec, t) && !IsComplete(t.state) && sec.kids != []
    ensures SplitAt(sec, t.children, f)
  {
    if t.state == NotStarted {
      f := 0;
    } else {
      f :| SplitAt(sec, t.children, f);
    }
  }

  // the trackers after kid f has run and the section has been closed are good
  lemma ClosedIsGood(sec: Section, t: Tracker, f: nat, rk: Ran, r: Ran)
    requires f < |sec.kids| && Good(sec, t) && SplitAt(sec, t.children, f) && RanAt(sec, t, f, rk, r)
    requires Good(sec.kids[f], rk.tracker) && rk.tracker.state != NotStarted
    requires rk.failed ==> rk.threw && IsComplete(rk.tracker.state)
    requires rk.threw && !rk.failed ==> !IsComplete(rk.tracker.state)
    ensures var closed := Close(r.tracker);
            && Good(sec, closed) && closed.state != NotStarted && (r.threw ==> !IsComplete(closed.state))
            && Good(sec, r.tracker.(state := Failed))
            && exists g: nat :: SplitAt(sec, closed.children, g) && (IsComplete(closed.state) <==> !r.threw && g == |sec.kids|)
  {
    hide Good;
    var after := r.tracker.children;
    var closed := Close(r.tracker);
    GoodKids(sec, t);
    var g := if IsComplete(rk.tracker.state) then f + 1 else f;
    assert SplitAt(sec, after, g);
    var last := |after| - 1;
    assert after[last] == ChildAt(sec, after, last);
    assert IsComplete(after[last].state) ==> last == f;
    MakeGood(sec, closed, g);
    FailedIsGood(sec, r.tracker);
  }

  lemma FailedIsGood(sec: Section, t: Tracker)
    requires t.name == sec.name && NamesMatch(sec, t.children)
    requires forall i :: 0 <= i < |sec.kids| ==> Good(sec.kids[i], ChildAt(sec, t.children, i))
    ensures Good(sec, t.(state := Failed))
  {}

  lemma GoodKids(sec: Section, t: Tracker)
    requires Good(sec, t)
    ensures t.name == sec.name && NamesMatch(sec, t.children)
    ensures forall i :: 0 <= i < |sec.kids| ==> Good(sec.kids[i], ChildAt(sec, t.children, i))
  {}

  lemma MakeGood(sec: Section, t: Tracker, f: nat)
    requires t.name == sec.name && NamesMatch(sec, t.children) && sec.kids != [] && SplitAt(sec, t.children, f)
    requires forall i :: 0 <= i < |sec.kids| ==> Good(sec.kids[i], ChildAt(sec, t.children, i))
    requires match t.state
      case ExecutingChildren => f < |t.children|
      case NeedsAnotherRun => true
      case CompletedSuccessfully => f == |sec.kids|
      case _ => false
    ensures Good(sec, t)
  {}

  // the body of an entered section, from opening its tracker to closing it again
  function Body(sec: Section, t: Tracker, path: Path): Ran {
    RunKids(sec, 0, t.(state := Executing), false, path)
  }

  /** What one run of a body does: either all its sections were complete already,
      or the first cycle that was left for them is taken. It completes its section
      exactly when none is left and no exception is under way. */
  ghost predicate BodyProgress(sec: Section, t: Tracker, r: Ran, path: Path)
    requires IsOpen(r.tracker.state)
  {
    var before, after := CyclesFrom(sec, t.children, 0, path), CyclesFrom(sec, r.tracker.children, 0, path);
    && (if before == [] then after == [] && r.log == [] && !r.threw else Progress(before, after, r.log, r.threw))
    && (IsComplete(Close(r.tracker).state) <==> !r.threw && after == [])
  }

  lemma {:induction false} BodyCycle(sec: Section, t: Tracker, path: Path)
    requires Good(sec, t) && !IsComplete(t.state) && sec.kids != [] && DistinctNames(sec)
    ensures var r := Body(sec, t, path);
            var closed := Close(r.tracker);
            && Good(sec, closed) && closed.state != NotStarted && Good(sec, r.tracker.(state := Failed))
            && r.tracker.name == sec.name && BodyProgress(sec, t, r, path)
    decreases sec, 0
  {
    hide RunSection;
    hide RunKids;
    hide SplitAt;
    hide Leaves;
    hide Cycles;
    hide CyclesFrom;
    var f := SplitExists(sec, t);
    var open := t.(state := Executing);
    var r := Body(sec, t, path);
    GoodKids(sec, t);
    assert SplitAt(sec, open.children, f) by { SameSplit(sec, t, open, f); }
    SplitBound(sec, t.children, f);
    NoCycles(sec, t.children, f, path);
    if f < |sec.kids| {
      var rk := KidRun(sec, open, f, path);
      assert rk == RunSection(sec.kids[f], ChildAt(sec, t.children, f), false, path + [sec.kids[f].name]);
      SectionCycle(sec.kids[f], ChildAt(sec, t.children, f), path + [sec.kids[f].name]);
      OpensFirst(sec, 0, f, open, path);
      RanSame(sec, open, t, f, rk, r);
      ClosedIsGood(sec, t, f, rk, r);
      KidProgress(sec, t.children, r.tracker.children, f, rk.log, rk.threw, path);
      var g: nat :| SplitAt(sec, Close(r.tracker).children, g)
        && (IsComplete(Close(r.tracker).state) <==> !r.threw && g == |sec.kids|);
      NoCycles(sec, r.tracker.children, g, path);
    } else {
      OpensFirst(sec, 0, f, open, path);
      MakeGood(sec, Close(open), f);
      FailedIsGood(sec, open);
    }
  }

  lemma SameSplit(sec: Section, t: Tracker, open: Tracker, f: nat)
    requires SplitAt(sec, t.children, f) && open.children == t.children
    ensures SplitAt(sec, open.children, f)
  {}

  lemma SplitBound(sec: Section, children: seq<Tracker>, f: nat)
    requires SplitAt(sec, children, f)
    ensures f <= |sec.kids| && (f < |sec.kids| ==> !IsComplete(ChildAt(sec, children, f).state))
    ensures forall j :: 0 <= j < f ==> IsComplete(ChildAt(sec, children, j).state)
  {}

  lemma RanSame(sec: Section, open: Tracker, t: Tracker, f: nat, rk: Ran, r: Ran)
    requires f < |sec.kids| && RanAt(sec, open, f, rk, r) && open == t.(state := Executing)
    ensures RanAt(sec, t, f, rk, r)
  {}

  // a run of the body takes the first cycle of the section
  lemma EndsStep(before: seq<Step>, after: seq<Step>, log: seq<Path>, threw: bool, throws: bool)
    requires if before == [] then after == [] && log == [] && !threw else Progress(before, after, log, threw)
    ensures Ends(before, throws) == [Step(log, threw || throws)] +
      if threw || (!throws && after != []) then Ends(after, throws) else []
  {
    if before != [] {
      assert before[1..] == after;
    }
  }

  /** One cycle through a section that is not complete: it is opened, at most one
      leaf below it is entered, and the cycle is the first one that was left. */
  lemma {:induction false} SectionCycle(sec: Section, t: Tracker, path: Path)
    requires Good(sec, t) && !IsComplete(t.state) && DistinctNames(sec)
    ensures var r := RunSection(sec, t, false, path);
            && r.didOpen && r.completed && r.tracker.name == sec.name
            && Good(sec, r.tracker) && r.tracker.state != NotStarted
            && (r.failed ==> r.threw && IsComplete(r.tracker.state))
            && (r.threw && !r.failed ==> !IsComplete(r.tracker.state))
            && Progress(Cycles(sec, t, path), Cycles(sec, r.tracker, path), r.log, r.threw)
    decreases sec, 1
  {
    if sec.kids == [] {
      assert [Step([path], sec.throws)] + [] == [Step([path], sec.throws)];
    } else {
      hide RunKids;
      hide CyclesFrom;
      hide Good;
      hide DistinctNames;
      hide Ends;
      BodyCycle(sec, t, path);
      var body := RunKids(sec, 0, t.(state := Executing), false, path);
      assert body == Body(sec, t, path);
      EndsStep(CyclesFrom(sec, t.children, 0, path), CyclesFrom(sec, body.tracker.children, 0, path),
               body.log, body.threw, sec.throws);
    }
  }

  /** One cycle of a test case. */
  lemma TestCycle(test: Section, t: Tracker)
    requires Good(test, t) && !IsComplete(t.state) && DistinctNames(test)
    ensures var (after, log) := RunCycle(test, t);
            && Good(test, after) && after.state != Failed && |log| <= 1
            && TestCycles(test, t) != [] && TestCycles(test, after) == TestCycles(test, t)[1..]
            && TestCycles(test, t)[0].log == log
  {
    hide RunKids, CyclesFrom, Good, DistinctNames, Ends, Close;
    if test.kids == [] {
      LeafTestCycle(test, t);
    } else {
      BodyCycle(test, t, [test.name]);
      var body := Body(test, t, [test.name]);
      assert body == RunKids(test, 0, t.(state := Executing), false, [test.name]);
      var before := CyclesFrom(test, t.children, 0, [test.name]);
      var after := CyclesFrom(test, body.tracker.children, 0, [test.name]);
      EndsStep(before, after, body.log, body.threw, false);
      NeverFailed(body.tracker);
      assert TestCycles(test, t) == Ends(before, false);
    }
  }

  lemma LeafTestCycle(test: Section, t: Tracker)
    requires Good(test, t) && !IsComplete(t.state) && test.kids == []
    ensures RunCycle(test, t) == (t.(state := CompletedSuccessfully), [[test.name]])
    ensures Good(test, t.(state := CompletedSuccessfully))
  {}

  lemma NeverFailed(t: Tracker)
    requires IsOpen(t.state)
    ensures Close(t).state != Failed && Close(t).children == t.children
  {}

  /** The leaf sections entered by running cycles until the test case is complete. */
  ghost function RunTest(test: Section, t: Tracker): seq<Path>
    requires Good(test, t) && t.state != Failed && DistinctNames(test)
    decreases |TestCycles(test, t)|
  {
    if t.state == CompletedSuccessfully then []
    else
      TestCycle(test, t);
      var (after, log) := RunCycle(test, t);
      log + RunTest(test, after)
  }

  lemma {:induction false} RunEntersLeft(test: Section, t: Tracker)
    requires Good(test, t) && t.state != Failed && DistinctNames(test)
    ensures RunTest(test, t) == Logs(TestCycles(test, t))
    decreases |TestCycles(test, t)|
  {
    hide RunCycle;
    hide Good;
    if t.state != CompletedSuccessfully {
      hide TestCycles;
      TestCycle(test, t);
      RunEntersLeft(test, RunCycle(test, t).0);
    }
  }

  /** Whatever the tree of sections and whichever of them throw, running cycles
      until the test case is complete terminates and enters these leaf sections. */
  lemma RunFromStart(test: Section)
    requires DistinctNames(test)
    ensures Good(test, Fresh(test)) && RunTest(test, Fresh(test)) == Entered(test)
  {
    FreshIsGood(test);
    RunEntersLeft(test, Fresh(test));
    FreshCyclesFrom(test, 0, [test.name]);
    var whole: seq<Path> := [[test.name]];
    assert whole + [] == whole;
  }

  lemma {:induction false} LeavesExtend(sec: Section, path: Path, k: nat)
    requires k < |Leaves(sec, path)|
    ensures path <= Leaves(sec, path)[k]
    decreases sec, |sec.kids| + 1
  {
    if sec.kids != [] {
      var i := LeavesFromExtend(sec, 0, path, k);
    }
  }

  lemma {:induction false} LeavesFromExtend(sec: Section, i: nat, path: Path, k: nat) returns (j: nat)
    requires i <= |sec.kids| && k < |LeavesFrom(sec, i, path)|
    ensures i <= j < |sec.kids| && path + [sec.kids[j].name] <= LeavesFrom(sec, i, path)[k]
    decreases sec, |sec.kids| - i
  {
    var p := path + [sec.kids[i].name];
    var n := |Leaves(sec.kids[i], p)|;
    if k < n {
      LeavesExtend(sec.kids[i], p, k);
      j := i;
    } else {
      j := LeavesFromExtend(sec, i + 1, path, k - n);
    }
  }

  /** No leaf is listed twice. */
  lemma {:induction false} LeavesDistinct(sec: Section, path: Path, k: nat, l: nat)
    requires DistinctNames(sec) && k < l < |Leaves(sec, path)|
    ensures Leaves(sec, path)[k] != Leaves(sec, path)[l]
    decreases sec, |sec.kids| + 1
  {
    LeavesFromDistinct(sec, 0, path, k, l);
  }

  lemma {:induction false} LeavesFromDistinct(sec: Section, i: nat, path: Path, k: nat, l: nat)
    requires DistinctNames(sec) && i <= |sec.kids| && k < l < |LeavesFrom(sec, i, path)|
    ensures LeavesFrom(sec, i, path)[k] != LeavesFrom(sec, i, path)[l]
    decreases sec, |sec.kids| - i
  {
    var p := path + [sec.kids[i].name];
    var n := |Leaves(sec.kids[i], p)|;
    if l < n {
      LeavesDistinct(sec.kids[i], p, k, l);
    } else if k >= n {
      LeavesFromDistinct(sec, i + 1, path, k - n, l - n);
    } else {
      LeavesExtend(sec.kids[i], p, k);
      var j := LeavesFromExtend(sec, i + 1, path, l - n);
      var a, b := LeavesFrom(sec, i, path)[k], LeavesFrom(sec, i, path)[l];
      assert a[|path|] == sec.kids[i].name && b[|path|] == sec.kids[j].name;
    }
  }

  lemma {:induction false} LeavesNonEmpty(sec: Section, path: Path)
    ensures Leaves(sec, path) != []
    decreases sec
  {
    if sec.kids != [] {
      LeavesNonEmpty(sec.kids[0], path + [sec.kids[0].name]);
    }
  }
}
