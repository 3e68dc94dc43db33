/** Catch's RunContext, TrackerContext and TrackerBase as the objects they are:
    trackers are records found by their path, and the methods update them. */
module TestRunner {
  import opened SectionLosses
  import opened SectionTracking

  // m_runState and m_children of one tracker; its parent is the path without the last name
  datatype Node = Node(state: CycleState, children: seq<Name>)

  type Trackers = map<Path, Node>

  function Parent(p: Path): Path
    requires p != []
  {
    p[..|p| - 1]
  }

  function NamesOf(children: seq<Tracker>): (names: seq<Name>)
    ensures |names| == |children| && forall i :: 0 <= i < |children| ==> names[i] == children[i].name
  {
    seq(|children|, i requires 0 <= i < |children| => children[i].name)
  }

  /** The records below p are the tree t. */
  ghost predicate Matches(nodes: Trackers, p: Path, t: Tracker)
    decreases t
  {
    && p in nodes && nodes[p] == Node(t.state, NamesOf(t.children))
    && forall i :: 0 <= i < |t.children| ==> Matches(nodes, p + [t.children[i].name], t.children[i])
  }

  ghost predicate SameBelow(a: Trackers, b: Trackers, p: Path) {
    forall q :: p <= q ==> (q in a <==> q in b) && (q in a ==> a[q] == b[q])
  }

  // everything that is not at or below p
  ghost predicate SameOutside(a: Trackers, b: Trackers, p: Path) {
    forall q :: !(p <= q) ==> (q in a <==> q in b) && (q in a ==> a[q] == b[q])
  }

  lemma {:induction false} MatchesFrame(a: Trackers, b: Trackers, p: Path, t: Tracker)
    requires Matches(a, p, t) && SameBelow(a, b, p)
    ensures Matches(b, p, t)
    decreases t
  {
    forall i | 0 <= i < |t.children| ensures Matches(b, p + [t.children[i].name], t.children[i]) {
      MatchesFrame(a, b, p + [t.children[i].name], t.children[i]);
    }
  }

  // -------- what holds between any two events --------

  function ChildPath(nodes: Trackers, p: Path, i: nat): Path
    requires p in nodes && i < |nodes[p].children|
  {
    p + [nodes[p].children[i]]
  }

  predicate Done(nodes: Trackers, p: Path) {
    p in nodes && IsComplete(nodes[p].state)
  }

  /** Sections complete in order, and a section completed successfully has no
      section left. */
  ghost predicate OrderlyAt(nodes: Trackers, p: Path)
    requires p in nodes
  {
    var n := |nodes[p].children|;
    && (forall i :: 0 <= i < n ==> ChildPath(nodes, p, i) in nodes)
    && (forall i, j :: 0 <= i < j < n ==> nodes[p].children[i] != nodes[p].children[j])
    && (forall i, j :: 0 <= i < j < n && nodes[ChildPath(nodes, p, j)].state != NotStarted ==> Done(nodes, ChildPath(nodes, p, i)))
    && (nodes[p].state == CompletedSuccessfully ==> forall i :: 0 <= i < n ==> Done(nodes, ChildPath(nodes, p, i)))
  }

  ghost predicate Orderly(nodes: Trackers) {
    forall p :: p in nodes ==> OrderlyAt(nodes, p)
  }

  /** At most one section of each parent is partly done. */
  lemma AtMostOneOpen(nodes: Trackers, p: Path, i: nat, j: nat)
    requires Orderly(nodes) && p in nodes && i < |nodes[p].children| && j < |nodes[p].children|
    requires IsOpen(nodes[ChildPath(nodes, p, i)].state) && IsOpen(nodes[ChildPath(nodes, p, j)].state)
    ensures i == j
  {
    assert OrderlyAt(nodes, p);
    assert !Done(nodes, ChildPath(nodes, p, i)) && !Done(nodes, ChildPath(nodes, p, j));
  }

  // -------- one record changes its state --------

  function SetState(nodes: Trackers, p: Path, s: CycleState): Trackers
    requires p in nodes
  {
    nodes[p := nodes[p].(state := s)]
  }

  // the sections of q before the one called name are complete
  predicate EarlierDoneIn(nodes: Trackers, q: Path, name: Name)
    requires q in nodes
  {
    forall i, k :: 0 <= i < k < |nodes[q].children| && nodes[q].children[k] == name ==> Done(nodes, ChildPath(nodes, q, i))
  }

  predicate EarlierDone(nodes: Trackers, p: Path) {
    p == [] || Parent(p) !in nodes || EarlierDoneIn(nodes, Parent(p), p[|p| - 1])
  }

  predicate AllDone(nodes: Trackers, p: Path)
    requires p in nodes
  {
    forall i :: 0 <= i < |nodes[p].children| ==> Done(nodes, ChildPath(nodes, p, i))
  }

  lemma SetStateKeepsOrder(nodes: Trackers, p: Path, s: CycleState)
    requires Orderly(nodes) && p in nodes
    requires IsComplete(nodes[p].state) ==> IsComplete(s)
    requires s == CompletedSuccessfully ==> AllDone(nodes, p)
    requires s != NotStarted ==> EarlierDone(nodes, p)
    ensures Orderly(SetState(nodes, p, s))
  {
    forall q | q in SetState(nodes, p, s) ensures OrderlyAt(SetState(nodes, p, s), q) {
      SetStateKeepsOrderAt(nodes, p, s, q);
    }
  }

  lemma SetStateKeepsOrderAt(nodes: Trackers, p: Path, s: CycleState, q: Path)
    requires Orderly(nodes) && p in nodes && q in nodes
    requires IsComplete(nodes[p].state) ==> IsComplete(s)
    requires s == CompletedSuccessfully ==> AllDone(nodes, p)
    requires s != NotStarted ==> EarlierDone(nodes, p)
    ensures OrderlyAt(SetState(nodes, p, s), q)
  {
    hide Orderly;
    assert OrderlyAt(nodes, q) by { OrderlyMeans(nodes, q); }
    var after := SetState(nodes, p, s);
    var n := |nodes[q].children|;
    assert forall i :: 0 <= i < n ==> ChildPath(after, q, i) == ChildPath(nodes, q, i);
    assert forall i :: 0 <= i < n ==> Parent(ChildPath(nodes, q, i)) == q;
    forall r | Done(nodes, r) ensures Done(after, r) {}
  }

  lemma OrderlyMeans(nodes: Trackers, q: Path)
    requires Orderly(nodes) && q in nodes
    ensures OrderlyAt(nodes, q)
  {}

  // a new section is recorded
  function AddChild(nodes: Trackers, p: Path, name: Name): Trackers
    requires p in nodes
  {
    nodes[p := nodes[p].(children := nodes[p].children + [name])][p + [name] := Node(NotStarted, [])]
  }

  lemma AddChildKeepsOrder(nodes: Trackers, p: Path, name: Name)
    requires Orderly(nodes) && p in nodes && name !in nodes[p].children && p + [name] !in nodes
    requires nodes[p].state != CompletedSuccessfully
    ensures Orderly(AddChild(nodes, p, name))
  {
    hide OrderlyAt;
    forall q | q in AddChild(nodes, p, name) ensures OrderlyAt(AddChild(nodes, p, name), q) {
      AddChildKeepsOrderAt(nodes, p, name, q);
    }
  }

  lemma AddChildKeepsOrderAt(nodes: Trackers, p: Path, name: Name, q: Path)
    requires Orderly(nodes) && p in nodes && name !in nodes[p].children && p + [name] !in nodes
    requires nodes[p].state != CompletedSuccessfully && q in AddChild(nodes, p, name)
    ensures OrderlyAt(AddChild(nodes, p, name), q)
  {
    hide Orderly;
    var after := AddChild(nodes, p, name);
    if q != p + [name] {
      assert OrderlyAt(nodes, q) by { OrderlyMeans(nodes, q); }
      assert forall i :: 0 <= i < |nodes[q].children| ==> ChildPath(after, q, i) == ChildPath(nodes, q, i);
      forall r | Done(nodes, r) ensures Done(after, r) {}
    }
  }

  // every record but the root is recorded by its parent
  ghost predicate Rooted(nodes: Trackers) {
    forall p :: p in nodes && p != [] ==> Parent(p) in nodes && p[|p| - 1] in nodes[Parent(p)].children
  }

  ghost predicate Inv(nodes: Trackers) {
    Orderly(nodes) && Rooted(nodes)
  }

  lemma StartedAfterEarlier(nodes: Trackers, p: Path)
    requires Inv(nodes) && p in nodes && nodes[p].state != NotStarted
    ensures EarlierDone(nodes, p)
  {
    hide OrderlyAt, EarlierDoneIn, Rooted;
    if p != [] && Parent(p) in nodes {
      assert OrderlyAt(nodes, Parent(p));
      assert Parent(p) + [p[|p| - 1]] == p;
      hide Orderly;
      StartedAfterSiblings(nodes, Parent(p), p[|p| - 1]);
    }
  }

  lemma StartedAfterSiblings(nodes: Trackers, q: Path, name: Name)
    requires q in nodes && OrderlyAt(nodes, q) && q + [name] in nodes && nodes[q + [name]].state != NotStarted
    ensures EarlierDoneIn(nodes, q, name)
  {
    forall i, k | 0 <= i < k < |nodes[q].children| && nodes[q].children[k] == name
      ensures Done(nodes, ChildPath(nodes, q, i))
    {
      assert ChildPath(nodes, q, k) == q + [name];
    }
  }

  lemma SetStateKeepsInv(nodes: Trackers, p: Path, s: CycleState)
    requires Inv(nodes) && p in nodes && !IsComplete(nodes[p].state)
    requires s == CompletedSuccessfully ==> AllDone(nodes, p)
    requires EarlierDone(nodes, p)
    ensures Inv(SetState(nodes, p, s))
  {
    hide OrderlyAt;
    SetStateKeepsOrder(nodes, p, s);
  }

  lemma AddChildKeepsInv(nodes: Trackers, p: Path, name: Name)
    requires Inv(nodes) && p in nodes && name !in nodes[p].children && nodes[p].state != CompletedSuccessfully
    ensures p + [name] !in nodes && Inv(AddChild(nodes, p, name))
  {
    hide OrderlyAt;
    assert Parent(p + [name]) == p;
    AddChildKeepsOrder(nodes, p, name);
    var after := AddChild(nodes, p, name);
    forall q | q in after && q != [] ensures Parent(q) in after && q[|q| - 1] in after[Parent(q)].children {
      if q != p + [name] {
        assert q in nodes;
      }
    }
  }

  lemma MatchesSetState(nodes: Trackers, p: Path, t: Tracker, s: CycleState)
    requires Matches(nodes, p, t)
    ensures Matches(SetState(nodes, p, s), p, t.(state := s))
  {
    var after := SetState(nodes, p, s);
    forall i | 0 <= i < |t.children| ensures Matches(after, p + [t.children[i].name], t.children[i]) {
      MatchesFrame(nodes, after, p + [t.children[i].name], t.children[i]);
    }
  }

  lemma MatchesAddChild(nodes: Trackers, p: Path, t: Tracker, kid: Section)
    requires Matches(nodes, p, t) && kid.name !in nodes[p].children
    ensures Matches(AddChild(nodes, p, kid.name), p, t.(children := t.children + [Fresh(kid)]))
  {
    var after, t' := AddChild(nodes, p, kid.name), t.(children := t.children + [Fresh(kid)]);
    forall i | 0 <= i < |t'.children| ensures Matches(after, p + [t'.children[i].name], t'.children[i]) {
      if i < |t.children| {
        assert nodes[p].children[i] == t.children[i].name;
        var q := p + [t.children[i].name];
        assert !(q <= p + [kid.name]) by { assert q[|p|] != kid.name; }
        MatchesFrame(nodes, after, q, t.children[i]);
      }
    }
  }

  lemma SiblingsApart(before: Trackers, after: Trackers, p: Path, a: Name, b: Name)
    requires a != b && SameOutside(before, after, p + [a])
    ensures SameBelow(before, after, p + [b])
  {
    assert (p + [a])[|p|] == a && (p + [b])[|p|] == b;
  }

  lemma MatchesKid(before: Trackers, after: Trackers, p: Path, t: Tracker, i: nat, kid: Tracker)
    requires Matches(before, p, t) && i < |t.children| && kid.name == t.children[i].name
    requires forall j :: 0 <= j < |t.children| && j != i ==> t.children[j].name != kid.name
    requires SameOutside(before, after, p + [kid.name]) && Matches(after, p + [kid.name], kid)
    ensures Matches(after, p, t.(children := t.children[i := kid]))
  {
    var t' := t.(children := t.children[i := kid]);
    assert NamesOf(t'.children) == NamesOf(t.children);
    assert !(p + [kid.name] <= p);
    forall j | 0 <= j < |t'.children| ensures Matches(after, p + [t'.children[j].name], t'.children[j]) {
      if j != i {
        var q := p + [t.children[j].name];
        SiblingsApart(before, after, p, kid.name, t.children[j].name);
        MatchesFrame(before, after, q, t.children[j]);
      }
    }
  }

  class RunContext {
    var nodes: Trackers
    var current: Path            // m_currentTracker
    var completedCycle: bool     // m_runState == CompletedCycle
    var activeSections: seq<Path>
    var unfinishedSections: nat  // m_unfinishedSections.size()
    ghost var entered: seq<Path> // the leaf bodies run so far

    constructor ()
      ensures nodes == map[[] := Node(NotStarted, [])] && current == [] && !completedCycle
      ensures activeSections == [] && unfinishedSections == 0 && entered == []
    {
      nodes, current, completedCycle := map[[] := Node(NotStarted, [])], [], false;
      activeSections, unfinishedSections, entered := [], 0, [];
    }

    // TrackerBase::openChild
    method OpenChild(p: Path)
      requires Inv(nodes) && p in nodes && !IsComplete(nodes[p].state) && EarlierDone(nodes, p)
      requires p != [] ==> nodes[Parent(p)].state == ExecutingChildren || nodes[p].state == ExecutingChildren
      modifies this`nodes
      ensures nodes == SetState(old(nodes), p, ExecutingChildren) && Inv(nodes)
      decreases |p|
    {
      hide OrderlyAt, EarlierDoneIn, Orderly;
      if nodes[p].state != ExecutingChildren {
        SetStateKeepsInv(nodes, p, ExecutingChildren);
        nodes := SetState(nodes, p, ExecutingChildren);
        if p != [] {
          StartedAfterEarlier(nodes, Parent(p));
          OpenChild(Parent(p));
        }
      }
    }

    // TrackerBase::open
    method Open(p: Path)
      requires Inv(nodes) && p in nodes && p != [] && !IsComplete(nodes[p].state) && EarlierDone(nodes, p)
      requires !IsComplete(nodes[Parent(p)].state) && EarlierDone(nodes, Parent(p))
      requires nodes[Parent(p)].state == ExecutingChildren || Parent(p) == []
        || nodes[Parent(Parent(p))].state == ExecutingChildren
      modifies this`nodes, this`current
      ensures nodes == SetState(SetState(old(nodes), p, Executing), Parent(p), ExecutingChildren)
      ensures current == p && Inv(nodes)
    {
      SetStateKeepsInv(nodes, p, Executing);
      nodes := SetState(nodes, p, Executing);
      current := p;
      EarlierDoneStays(old(nodes), p, Executing, Parent(p));
      OpenChild(Parent(p));
    }

    // SectionTracker::acquire, for the tracker called name below the current one
    method AcquireTracker(name: Name) returns (p: Path)
      requires Inv(nodes) && current in nodes && IsOpenOrRoot(nodes, current)
      requires !completedCycle ==> EarlierDone(nodes, current) && CanOpenIn(nodes, current)
      requires !completedCycle ==> EarlierDoneIn(nodes, current, name)
      requires !completedCycle && name !in nodes[current].children ==> AllDone(nodes, current)
      modifies this`nodes, this`current
      ensures p == old(current) + [name] && Inv(nodes)
      ensures var found := Recorded(old(nodes), old(current), name);
        && p in found
        && if completedCycle || IsComplete(found[p].state) then nodes == found && current == old(current)
           else nodes == SetState(SetState(found, p, Executing), old(current), ExecutingChildren) && current == p
    {
      hide OrderlyAt;
      hide EarlierDone;
      hide EarlierDoneIn;
      hide AllDone;
      hide Rooted;
      hide Orderly;
      hide SetState;
      p := current + [name];
      assert Parent(p) == current;
      if name !in nodes[current].children {
        AddChildKeepsInv(nodes, current, name);
        nodes := AddChild(nodes, current, name);
      }
      RecordedHas(old(nodes), current, name);
      if !completedCycle && !IsComplete(nodes[p].state) {
        RecordedEarlier(old(nodes), current, name);
        RecordedEarlierAbove(old(nodes), current, name);
        Open(p);
      }
    }

    // TrackerBase::close, on the tracker that is current: no child is left open
    method Close()
      requires Inv(nodes) && current in nodes && current != [] && IsOpen(nodes[current].state)
      requires nodes[current].state == Executing ==> AllDone(nodes, current)
      modifies this`nodes, this`current, this`completedCycle
      ensures Inv(nodes) && current == Parent(old(current)) && completedCycle
      ensures nodes == SetState(old(nodes), old(current), ClosedState(old(nodes), old(current)))
    {
      hide OrderlyAt;
      var p := current;
      var cs := nodes[p].children;
      if nodes[p].state == Executing {
        Complete(p);
      } else if nodes[p].state == ExecutingChildren {
        if |cs| > 0 {
          LastDone(nodes, p);
          assert ChildPath(nodes, p, |cs| - 1) == p + [cs[|cs| - 1]];
        }
        if |cs| == 0 || IsComplete(nodes[p + [cs[|cs| - 1]]].state) {
          Complete(p);
        } else {
          SameState(nodes, p);
        }
      } else {
        SameState(nodes, p);
      }
      current := Parent(p);
      completedCycle := true;
    }

    method Complete(p: Path)
      requires Inv(nodes) && p in nodes && IsOpen(nodes[p].state) && AllDone(nodes, p)
      modifies this`nodes
      ensures Inv(nodes) && nodes == SetState(old(nodes), p, CompletedSuccessfully)
    {
      StartedAfterEarlier(nodes, p);
      SetStateKeepsInv(nodes, p, CompletedSuccessfully);
      nodes := SetState(nodes, p, CompletedSuccessfully);
    }

    // TrackerBase::fail, on the current tracker
    method Fail()
      requires Inv(nodes) && current in nodes && current != [] && IsOpen(nodes[current].state)
      requires IsOpen(nodes[Parent(current)].state)
      modifies this`nodes, this`current, this`completedCycle
      ensures Inv(nodes) && current == Parent(old(current)) && completedCycle
      ensures nodes == SetState(SetState(old(nodes), old(current), Failed), Parent(old(current)), NeedsAnotherRun)
    {
      var p := current;
      StartedAfterEarlier(nodes, p);
      SetStateKeepsInv(nodes, p, Failed);
      nodes := SetState(nodes, p, Failed);
      StartedAfterEarlier(nodes, Parent(p));
      SetStateKeepsInv(nodes, Parent(p), NeedsAnotherRun);
      nodes := SetState(nodes, Parent(p), NeedsAnotherRun);
      current := Parent(p);
      completedCycle := true;
    }

    // RunContext::sectionStarted
    method SectionStarted(name: Name) returns (included: bool)
      requires Inv(nodes) && current in nodes && IsOpen(nodes[current].state)
      requires !completedCycle ==> EarlierDone(nodes, current) && CanOpenIn(nodes, current)
      requires !completedCycle ==> EarlierDoneIn(nodes, current, name)
      requires !completedCycle && name !in nodes[current].children ==> AllDone(nodes, current)
      modifies this`nodes, this`current, this`activeSections
      ensures Inv(nodes)
      ensures var found, p := Recorded(old(nodes), old(current), name), old(current) + [name];
        && p in found
        && (if completedCycle || IsComplete(found[p].state) then nodes == found && current == old(current)
            else nodes == SetState(SetState(found, p, Executing), old(current), ExecutingChildren) && current == p)
        && included == IsOpen(nodes[p].state)
        && activeSections == (if included then old(activeSections) + [p] else old(activeSections))
    {
      hide AllDone;
      hide Inv;
      hide EarlierDoneIn;
      hide EarlierDone;
      var p := AcquireTracker(name);
      included := IsOpen(nodes[p].state);
      if included {
        activeSections := activeSections + [p];
      }
    }

    // RunContext::sectionEnded
    method SectionEnded()
      requires activeSections != [] ==>
        && Inv(nodes) && current == activeSections[|activeSections| - 1] && current in nodes && current != []
        && IsOpen(nodes[current].state) && (nodes[current].state == Executing ==> AllDone(nodes, current))
      modifies this`nodes, this`current, this`completedCycle, this`activeSections
      ensures if old(activeSections) == []
              then nodes == old(nodes) && current == old(current) && completedCycle == old(completedCycle) && activeSections == []
              else
                && Inv(nodes) && current == Parent(old(current)) && completedCycle
                && nodes == SetState(old(nodes), old(current), ClosedState(old(nodes), old(current)))
                && activeSections == old(activeSections)[..|old(activeSections)| - 1]
    {
      if activeSections != [] {
        Close();
        activeSections := activeSections[..|activeSections| - 1];
      }
    }

    // RunContext::sectionEndedEarly, when an exception leaves a section
    method SectionEndedEarly()
      requires activeSections != [] && Inv(nodes) && current == activeSections[|activeSections| - 1]
      requires current in nodes && current != [] && IsOpen(nodes[current].state)
      requires if unfinishedSections == 0 then IsOpen(nodes[Parent(current)].state)
               else nodes[current].state == Executing ==> AllDone(nodes, current)
      modifies this`nodes, this`current, this`completedCycle, this`activeSections, this`unfinishedSections
      ensures Inv(nodes) && current == Parent(old(current)) && completedCycle
      ensures nodes == if old(unfinishedSections) == 0
        then SetState(SetState(old(nodes), old(current), Failed), Parent(old(current)), NeedsAnotherRun)
        else SetState(old(nodes), old(current), ClosedState(old(nodes), old(current)))
      ensures activeSections == old(activeSections)[..|old(activeSections)| - 1]
      ensures unfinishedSections == old(unfinishedSections) + 1
    {
      if unfinishedSections == 0 {
        Fail();
      } else {
        Close();
      }
      activeSections := activeSections[..|activeSections| - 1];
      unfinishedSections := unfinishedSections + 1;
    }

    // handleUnfinishedSections: by now no section is active
    method HandleUnfinishedSections()
      requires activeSections == []
      modifies this`nodes, this`current, this`completedCycle, this`activeSections, this`unfinishedSections
      ensures nodes == old(nodes) && current == old(current) && completedCycle == old(completedCycle)
      ensures activeSections == [] && unfinishedSections == 0
    {
      var left := unfinishedSections;
      while left > 0
        invariant nodes == old(nodes) && current == old(current) && completedCycle == old(completedCycle)
        invariant activeSections == []
      {
        SectionEnded();
        left := left - 1;
      }
      unfinishedSections := 0;
    }

    /** The i-th SECTION of the body of sec: its head, its body if it is included,
        and its end, early if an exception is under way. */
    method RunKid(sec: Section, i: nat, ghost t: Tracker) returns (threw: bool)
      requires i < |sec.kids| && DistinctNames(sec) && Ready(sec, i, t, completedCycle)
      requires Matches(nodes, current, t) && Inv(nodes) && unfinishedSections == 0
      requires !completedCycle ==> CanOpenIn(nodes, current)
      modifies this
      ensures Inv(nodes) && current == old(current) && activeSections == old(activeSections)
      ensures var r := KidAt(sec, i, t, old(completedCycle), old(current));
        && Matches(nodes, current, AfterKid(Acquire(t, sec.kids[i]), i, r))
        && completedCycle == r.completed && threw == r.threw && entered == old(entered) + r.log
      ensures threw <==> unfinishedSections != 0
      ensures SameOutside(old(nodes), nodes, current)
      decreases sec, 1
    {
      hide Inv;
      hide EarlierDone;
      hide EarlierDoneIn;
      hide AllDone;
      hide RunSection;
      hide Good;
      hide DistinctNames;
      hide Acquire;
      hide AfterKid;
      hide SameOutside;
      ghost var kid, cur, t1 := sec.kids[i], current, Acquire(t, sec.kids[i]);
      ghost var p, kidT := cur + [kid.name], ChildAt(sec, t.children, i);
      MatchesIn(nodes, cur, t);
      StartedAfterEarlierOpen(nodes, cur);
      AcquireAt(sec, t, i);
      if !completedCycle {
        ReadyOpens(nodes, cur, sec, i, t);
      }
      MatchesRecorded(nodes, cur, sec, i, t);
      threw := false;
      var included := SectionStarted(sec.kids[i].name);
      ghost var found := Recorded(old(nodes), cur, kid.name);
      MatchesChild(found, cur, t1, i);
      ChangedBelow(old(nodes), cur, kid.name);
      if included {
        KidOpened(found, nodes, cur, sec, i, t);
        ghost var before := nodes;
        threw := RunIncluded(sec, i, t);
        SameOutsideTrans(old(nodes), before, nodes, cur);
      } else {
        KidSkipped(sec, i, t, completedCycle, cur);
        assert entered == entered + [];
      }
    }

    // the body and the end of section i, which has just been opened
    method RunIncluded(sec: Section, i: nat, ghost t: Tracker) returns (threw: bool)
      requires i < |sec.kids| && DistinctNames(sec) && Ready(sec, i, t, false)
      requires !completedCycle && !IsComplete(ChildAt(sec, t.children, i).state) && i < |Acquire(t, sec.kids[i]).children|
      requires current != [] && activeSections != [] && current == activeSections[|activeSections| - 1]
      requires current == Parent(current) + [sec.kids[i].name]
      requires var open := ChildAt(sec, t.children, i).(state := Executing);
        && Matches(nodes, current, open)
        && Matches(nodes, Parent(current), Tracker(t.name, ExecutingChildren, Acquire(t, sec.kids[i]).children[i := open]))
      requires Inv(nodes) && unfinishedSections == 0
      modifies this
      ensures Inv(nodes) && current == Parent(old(current))
      ensures activeSections == old(activeSections)[..|old(activeSections)| - 1]
      ensures var r := KidAt(sec, i, t, false, current);
        && Matches(nodes, current, AfterKid(Acquire(t, sec.kids[i]), i, r))
        && completedCycle == r.completed && threw == r.threw && entered == old(entered) + r.log
      ensures threw <==> unfinishedSections != 0
      ensures SameOutside(old(nodes), nodes, current)
      decreases sec, 0
    {
      hide Inv;
      hide RunKids;
      hide Good;
      hide DistinctNames;
      hide Acquire;
      hide AllDone;
      hide ClosedState;
      hide SameOutside;
      ghost var kid, kidT, p, cur := sec.kids[i], ChildAt(sec, t.children, i), current, Parent(current);
      ghost var before := nodes;
      ghost var parent := Tracker(t.name, ExecutingChildren, Acquire(t, kid).children[i := kidT.(state := Executing)]);
      MatchesIn(before, cur, parent);
      SubSection(sec, i);
      threw := RunBody(sec.kids[i], kidT);
      ghost var after, body := nodes, Body(kid, kidT, p);
      BodyEnds(kid, kidT, p, after);
      BodyName(kid, kidT, p);
      OutsideSibling(before, after, cur, kid.name);
      KidClosed(before, after, cur, sec, i, t, parent, body);
      if threw {
        SectionEndedEarly();
      } else {
        SectionEnded();
      }
      ClosedBelow(after, cur, kid.name);
      SameOutsideTrans(before, after, nodes, cur);
    }

    /** The code of a section or test case that has been opened. */
    method RunBody(sec: Section, ghost t0: Tracker) returns (threw: bool)
      requires Good(sec, t0) && !IsComplete(t0.state) && DistinctNames(sec)
      requires Matches(nodes, current, t0.(state := Executing)) && Inv(nodes) && unfinishedSections == 0
      requires !completedCycle && CanOpenIn(nodes, current)
      modifies this
      ensures Inv(nodes) && current == old(current) && activeSections == old(activeSections)
      ensures var r := Body(sec, t0, old(current));
        && Matches(nodes, current, r.tracker) && completedCycle == r.completed && threw == (r.threw || sec.throws)
        && entered == old(entered) + (if sec.kids == [] then [current] else r.log)
        && (unfinishedSections != 0 <==> r.threw)
      ensures SameOutside(old(nodes), nodes, current)
      decreases sec, 2
    {
      hide Inv;
      hide RunKids;
      hide Ready;
      hide Good;
      hide DistinctNames;
      hide Acquire;
      hide KidAt;
      hide AfterKid;
      hide CanOpenIn;
      hide Continue;
      ghost var t, log := t0.(state := Executing), [];
      ghost var p, done := current, entered;
      ReadyAtStart(sec, t0);
      NothingYet(RunKids(sec, 0, t, false, p));
      assert entered + log == entered;
      for i := 0 to |sec.kids|
        invariant Ready(sec, i, t, completedCycle) && Matches(nodes, current, t) && Inv(nodes) && unfinishedSections == 0
        invariant !completedCycle ==> CanOpenIn(nodes, current)
        invariant current == p && activeSections == old(activeSections) && entered == done + log
        invariant i == 0 ==> entered == done && log == []
        invariant IsOpen(t.state) && Body(sec, t0, p) == Continue(log, RunKids(sec, i, t, completedCycle, p))
        invariant SameOutside(old(nodes), nodes, current)
      {
        ghost var completed := completedCycle;
        threw := RunKid(sec, i, t);
        ghost var r := KidAt(sec, i, t, completed, p);
        KidStep(sec, i, t, completed, p, log);
        CanOpenStill(old(nodes), nodes, p);
        MatchesIn(nodes, p, AfterKid(Acquire(t, sec.kids[i]), i, r));
        t := AfterKid(Acquire(t, sec.kids[i]), i, r);
        log := log + r.log;
        if threw {
          return;
        }
      }
      BodyDone(sec, t, completedCycle, p, log);
      if |sec.kids| == 0 {
        entered := entered + [current];
      }
      threw := sec.throws;
    }

    // runCurrentTest: the exception, if any, is caught here
    method RunCurrentTest(test: Section, ghost t: Tracker)
      requires Good(test, t) && !IsComplete(t.state) && DistinctNames(test)
      requires current == [test.name] && Matches(nodes, current, t.(state := Executing)) && Inv(nodes)
      requires [] in nodes && nodes[[]].state == ExecutingChildren
      requires !completedCycle && unfinishedSections == 0 && activeSections == []
      modifies this
      ensures Inv(nodes) && unfinishedSections == 0 && activeSections == []
      ensures Matches(nodes, [test.name], RunCycle(test, t).0) && entered == old(entered) + RunCycle(test, t).1
      ensures [] in nodes && nodes[[]] == old(nodes[[]])
    {
      hide Inv;
      hide RunKids;
      hide Good;
      hide DistinctNames;
      hide AllDone;
      hide ClosedState;
      ghost var p := current;
      var threw := RunBody(test, t);
      ghost var body := Body(test, t, p);
      BodyEnds(test, t, p, nodes);
      MatchesSetState(nodes, p, body.tracker, SectionTracking.Close(body.tracker).state);
      OutsideSibling(old(nodes), nodes, [], test.name);
      Close();
      HandleUnfinishedSections();
    }

    /** runTest: cycles until the test case is complete. The leaf sections entered
        are those of the tree, whichever sections throw. */
    method RunTest(test: Section)
      requires DistinctNames(test)
      requires activeSections == [] && unfinishedSections == 0 && entered == []
      modifies this
      ensures entered == Entered(test)
      ensures entered == Leaves(test, [test.name]) <==>
        forall k :: 0 <= k < |test.kids| ==> Lossless(test.kids[k])
      ensures Inv(nodes) && Done(nodes, [test.name])
    {
      hide Good;
      hide DistinctNames;
      hide RunCycle;
      hide Leaves;
      hide Inv;
      hide EarlierDone;
      hide EarlierDoneIn;
      hide AllDone;
      hide CanOpenIn;
      hide SetState;
      hide TestCycles;
      hide Entered;
      hide Logs;
      hide Matches;
      RootInv();
      nodes := map[[] := Node(NotStarted, [])];
      ghost var t, name := Fresh(test), test.name;
      FreshIsGood(test);
      StartsWithAll(test);
      TestEnters(test);
      var complete := false;
      while !complete
        invariant Inv(nodes) && unfinishedSections == 0 && activeSections == [] && Good(test, t)
        invariant [] in nodes && !IsComplete(nodes[[]].state)
        invariant if nodes[[]].children == [] then nodes[[]].state == NotStarted && t == Fresh(test)
                  else nodes[[]].children == [name] && IsOpen(nodes[[]].state) && Matches(nodes, [name], t)
        invariant entered + Logs(TestCycles(test, t)) == Entered(test)
        invariant !complete ==> !IsComplete(t.state)
        invariant complete ==> nodes[[]].children != [] && IsComplete(t.state)
        decreases |TestCycles(test, t)|, !complete
      {
        // startCycle
        current, completedCycle := [], false;
        RootReady(nodes, name);
        ghost var before, done := nodes, entered;
        var p := AcquireTracker(test.name);
        assert p == [name];
        TestOpened(before, nodes, test, t);
        RunCurrentTest(test, t);
        TestCycle(test, t);
        ghost var log, left := RunCycle(test, t).1, TestCycles(test, t);
        LogsStep(done, log, left);
        t := RunCycle(test, t).0;
        MatchesIn(nodes, [name], t);
        complete := nodes[p].state == CompletedSuccessfully;
      }
      MatchesIn(nodes, [name], t);
      NothingTodo(test, t);
      assert entered + [] == entered;
    }
  }

  lemma RootInv()
    ensures Inv(map[[] := Node(NotStarted, [])])
  {}

  lemma NothingTodo(test: Section, t: Tracker)
    requires IsComplete(t.state)
    ensures Logs(TestCycles(test, t)) == []
  {}

  lemma StartsWithAll(test: Section)
    ensures Logs(TestCycles(test, Fresh(test))) == Entered(test)
  {
    FreshCyclesFrom(test, 0, [test.name]);
    var whole: seq<Path> := [[test.name]];
    assert whole + [] == whole;
  }

  lemma LogsStep(done: seq<Path>, log: seq<Path>, left: seq<Step>)
    requires left != [] && left[0].log == log
    ensures done + Logs(left) == done + log + Logs(left[1..])
  {}

  lemma RootReady(nodes: Trackers, name: Name)
    requires [] in nodes && (nodes[[]].children == [] || nodes[[]].children == [name])
    ensures EarlierDone(nodes, []) && CanOpenIn(nodes, []) && EarlierDoneIn(nodes, [], name)
    ensures name !in nodes[[]].children ==> AllDone(nodes, [])
  {}

  // the trackers just after the test case has been opened
  lemma TestOpened(before: Trackers, after: Trackers, test: Section, t: Tracker)
    requires [] in before && Good(test, t) && !IsComplete(t.state)
    requires if before[[]].children == [] then t == Fresh(test)
             else before[[]].children == [test.name] && Matches(before, [test.name], t)
    requires var found := Recorded(before, [], test.name);
      && [test.name] in found
      && if IsComplete(found[[test.name]].state) then after == found
         else after == SetState(SetState(found, [test.name], Executing), [], ExecutingChildren)
    ensures Matches(after, [test.name], t.(state := Executing))
    ensures [] in after && after[[]] == Node(ExecutingChildren, [test.name])
    ensures !IsComplete(Recorded(before, [], test.name)[[test.name]].state)
  {
    hide Good, Matches, Recorded;
    var p, found := [test.name], Recorded(before, [], test.name);
    assert [] + [test.name] == p;
    TestRecorded(before, test, t);
    MatchesIn(found, p, t);
    MatchesSetState(found, p, t, Executing);
    var middle := SetState(found, p, Executing);
    assert SameBelow(middle, after, p);
    MatchesFrame(middle, after, p, t.(state := Executing));
  }

  lemma TestRecorded(before: Trackers, test: Section, t: Tracker)
    requires [] in before
    requires if before[[]].children == [] then t == Fresh(test)
             else before[[]].children == [test.name] && Matches(before, [test.name], t)
    ensures Matches(Recorded(before, [], test.name), [test.name], t)
    ensures [] in Recorded(before, [], test.name) && Recorded(before, [], test.name)[[]].children == [test.name]
  {
    assert [] + [test.name] == [test.name];
  }

  // the run of section i when the body reaches it
  function KidAt(sec: Section, i: nat, t: Tracker, completed: bool, path: Path): Ran
    requires i < |sec.kids|
  {
    RunSection(sec.kids[i], ChildAt(sec, t.children, i), completed, path + [sec.kids[i].name])
  }

  /** What the body of an open section has come to before its i-th section: while
      the cycle is not complete, the sections passed are complete; afterwards the
      sections to come are not started. */
  ghost predicate Ready(sec: Section, i: nat, t: Tracker, completed: bool) {
    && NamesMatch(sec, t.children) && i <= |sec.kids| && i <= |t.children| && IsOpen(t.state)
    && (forall j :: 0 <= j < |sec.kids| ==> Good(sec.kids[j], ChildAt(sec, t.children, j)))
    && if completed then forall j :: i <= j < |sec.kids| ==> ChildAt(sec, t.children, j).state == NotStarted
       else t.state == Executing && exists f: nat :: i <= f && SplitAt(sec, t.children, f)
  }

  function Continue(log: seq<Path>, r: Ran): Ran {
    r.(log := log + r.log)
  }

  lemma NothingYet(r: Ran)
    ensures Continue([], r) == r
  {
    assert [] + r.log == r.log;
  }

  lemma ReadyAtStart(sec: Section, t: Tracker)
    requires Good(sec, t) && !IsComplete(t.state)
    ensures Ready(sec, 0, t.(state := Executing), false)
  {
    GoodKids(sec, t);
    if sec.kids == [] {
      assert SplitAt(sec, t.children, 0);
    } else {
      var f := SplitExists(sec, t);
    }
  }

  lemma BodyDone(sec: Section, t: Tracker, completed: bool, p: Path, log: seq<Path>)
    requires IsOpen(t.state)
    ensures Continue(log, RunKids(sec, |sec.kids|, t, completed, p)) == Ran(t, completed, false, log, false, false)
  {
    assert log + [] == log;
  }

  /** One section further: what RunKids does with it, and that the body is ready
      for the next one unless an exception ends it. */
  lemma KidStep(sec: Section, i: nat, t: Tracker, completed: bool, p: Path, log: seq<Path>)
    requires i < |sec.kids| && DistinctNames(sec) && Ready(sec, i, t, completed)
    ensures var r := KidAt(sec, i, t, completed, p);
            i < |Acquire(t, sec.kids[i]).children| &&
            var t' := AfterKid(Acquire(t, sec.kids[i]), i, r);
            && IsOpen(t'.state)
            && (r.threw ==>
                 Continue(log, RunKids(sec, i, t, completed, p)) == Ran(t', r.completed, true, log + r.log, false, false))
            && (!r.threw ==>
                 && Continue(log, RunKids(sec, i, t, completed, p)) == Continue(log + r.log, RunKids(sec, i + 1, t', r.completed, p))
                 && Ready(sec, i + 1, t', r.completed)
                 && (!r.completed ==> t'.state == Executing))
  {
    hide DistinctNames;
    hide Acquire;
    hide RunSection;
    hide Good;
    AcquireAt(sec, t, i);
    var r := KidAt(sec, i, t, completed, p);
    var t' := AfterKid(Acquire(t, sec.kids[i]), i, r);
    StepReady(sec, i, t, completed, p);
    if !r.threw {
      var rest := RunKids(sec, i + 1, t', r.completed, p);
      assert log + (r.log + rest.log) == log + r.log + rest.log;
    }
  }

  lemma StepReady(sec: Section, i: nat, t: Tracker, completed: bool, p: Path)
    requires i < |sec.kids| && DistinctNames(sec) && Ready(sec, i, t, completed)
    ensures var r := KidAt(sec, i, t, completed, p);
            var t' := AfterKid(Acquire(t, sec.kids[i]), i, r);
            !r.threw ==> Ready(sec, i + 1, t', r.completed) && (!r.completed ==> t'.state == Executing)
  {
    hide DistinctNames;
    hide Good;
    var kidT := ChildAt(sec, t.children, i);
    if !completed && !IsComplete(kidT.state) {
      StepOpens(sec, i, t, p);
    } else {
      KidSkipped(sec, i, t, completed, p);
      AcquireAt(sec, t, i);
      if !completed {
        var f: nat :| i <= f && SplitAt(sec, t.children, f);
        assert SplitAt(sec, Acquire(t, sec.kids[i]).children, f);
      }
    }
  }

  lemma KidSkipped(sec: Section, i: nat, t: Tracker, completed: bool, p: Path)
    requires i < |sec.kids| && DistinctNames(sec) && Ready(sec, i, t, completed)
    requires completed || IsComplete(ChildAt(sec, t.children, i).state)
    ensures i < |Acquire(t, sec.kids[i]).children|
    ensures KidAt(sec, i, t, completed, p) == Ran(ChildAt(sec, t.children, i), completed, false, [], false, false)
    ensures AfterKid(Acquire(t, sec.kids[i]), i, KidAt(sec, i, t, completed, p)) == Acquire(t, sec.kids[i])
  {
    hide DistinctNames;
    hide Good;
    AcquireAt(sec, t, i);
    var t1 := Acquire(t, sec.kids[i]);
    assert t1.children[i := t1.children[i]] == t1.children;
  }

  lemma StepOpens(sec: Section, i: nat, t: Tracker, p: Path)
    requires i < |sec.kids| && DistinctNames(sec) && Ready(sec, i, t, false)
    requires !IsComplete(ChildAt(sec, t.children, i).state)
    ensures var r := KidAt(sec, i, t, false, p);
            var t' := AfterKid(Acquire(t, sec.kids[i]), i, r);
            r.completed && (!r.threw ==> Ready(sec, i + 1, t', true))
  {
    hide DistinctNames, Good, RunSection, Progress, Cycles, Acquire;
    SubSection(sec, i);
    AcquireAt(sec, t, i);
    SectionCycle(sec.kids[i], ChildAt(sec, t.children, i), p + [sec.kids[i].name]);
    var r := KidAt(sec, i, t, false, p);
    AfterKidAt(sec, Acquire(t, sec.kids[i]), i, r);
    var f: nat :| i <= f && SplitAt(sec, t.children, f);
    assert f == i;
  }

  lemma SubSection(sec: Section, i: nat)
    requires i < |sec.kids|
    ensures DistinctNames(sec) ==> DistinctNames(sec.kids[i])
  {}

  lemma CanOpenStill(before: Trackers, after: Trackers, p: Path)
    requires p in before && p in after && SameOutside(before, after, p)
    ensures before[p].state == Executing && CanOpenIn(before, p) ==> CanOpenIn(after, p)
  {
    if p != [] {
      assert !(p <= Parent(p));
    }
  }

  // the trackers just after section i has been opened
  lemma KidOpened(found: Trackers, nodes: Trackers, p: Path, sec: Section, i: nat, t: Tracker)
    requires i < |sec.kids| && DistinctNames(sec) && NamesMatch(sec, t.children) && i <= |t.children|
    requires Matches(found, p, Acquire(t, sec.kids[i])) && p + [sec.kids[i].name] in found
    requires nodes == SetState(SetState(found, p + [sec.kids[i].name], Executing), p, ExecutingChildren)
    ensures var kidT := ChildAt(sec, t.children, i);
            var open := kidT.(state := Executing);
            && Matches(nodes, p + [sec.kids[i].name], open)
            && Matches(nodes, p, Tracker(t.name, ExecutingChildren, Acquire(t, sec.kids[i]).children[i := open]))
  {
    hide DistinctNames;
    AcquireAt(sec, t, i);
    var t1, q := Acquire(t, sec.kids[i]), p + [sec.kids[i].name];
    var open := t1.children[i].(state := Executing);
    MatchesChild(found, p, t1, i);
    MatchesSetState(found, q, t1.children[i], Executing);
    var middle := SetState(found, q, Executing);
    NamesApart(sec, t1.children, i);
    MatchesKid(found, middle, p, t1, i, open);
    var t2 := t1.(children := t1.children[i := open]);
    MatchesSetState(middle, p, t2, ExecutingChildren);
    MatchesChild(nodes, p, t2.(state := ExecutingChildren), i);
  }

  lemma NamesApart(sec: Section, children: seq<Tracker>, i: nat)
    requires DistinctNames(sec) && NamesMatch(sec, children) && i < |children|
    ensures forall j :: 0 <= j < |children| && j != i ==> children[j].name != children[i].name
  {}

  lemma ChangedBelow(nodes: Trackers, p: Path, name: Name)
    requires p in nodes && p + [name] in Recorded(nodes, p, name)
    ensures var found := Recorded(nodes, p, name);
            && SameOutside(nodes, found, p)
            && SameOutside(nodes, SetState(SetState(found, p + [name], Executing), p, ExecutingChildren), p)
  {}

  lemma ClosedBelow(nodes: Trackers, p: Path, name: Name)
    requires p in nodes && p + [name] in nodes
    ensures forall s :: SameOutside(nodes, SetState(nodes, p + [name], s), p)
    ensures SameOutside(nodes, SetState(SetState(nodes, p + [name], Failed), p, NeedsAnotherRun), p)
  {}

  lemma SameOutsideTrans(a: Trackers, b: Trackers, c: Trackers, p: Path)
    requires SameOutside(a, b, p) && SameOutside(b, c, p)
    ensures SameOutside(a, c, p)
  {}

  lemma OutsideSibling(before: Trackers, after: Trackers, p: Path, name: Name)
    requires SameOutside(before, after, p + [name]) && p in before
    ensures p in after && after[p] == before[p] && SameOutside(before, after, p)
  {
    assert !(p + [name] <= p);
  }

  // a body leaves its section ready to be closed, or failed
  lemma BodyEnds(sec: Section, t: Tracker, p: Path, nodes: Trackers)
    requires Good(sec, t) && !IsComplete(t.state) && DistinctNames(sec)
    requires Matches(nodes, p, Body(sec, t, p).tracker)
    ensures p in nodes && IsOpen(nodes[p].state) && nodes[p].state == Body(sec, t, p).tracker.state
    ensures nodes[p].state == Executing ==> AllDone(nodes, p)
    ensures ClosedState(nodes, p) == Close(Body(sec, t, p).tracker).state
  {
    hide DistinctNames;
    var body := Body(sec, t, p).tracker;
    MatchesIn(nodes, p, body);
    if |body.children| > 0 {
      MatchesChild(nodes, p, body, |body.children| - 1);
    }
    if body.state == Executing {
      AllCompleteAfter(sec, t, p);
      forall j | 0 <= j < |nodes[p].children| ensures Done(nodes, ChildPath(nodes, p, j)) {
        MatchesChild(nodes, p, body, j);
      }
    }
  }

  lemma BodyName(sec: Section, t: Tracker, p: Path)
    requires Good(sec, t) && !IsComplete(t.state) && DistinctNames(sec)
    ensures Body(sec, t, p).tracker.name == sec.name && (Body(sec, t, p).threw ==> sec.kids != [])
    ensures Body(sec, t, p).threw ==> Body(sec, t, p).tracker.state != Executing
  {
    if sec.kids != [] {
      hide RunKids;
      BodyCycle(sec, t, p);
    }
  }

  lemma AllCompleteAfter(sec: Section, t: Tracker, p: Path)
    requires Good(sec, t) && !IsComplete(t.state) && DistinctNames(sec)
    requires Body(sec, t, p).tracker.state == Executing
    ensures forall j :: 0 <= j < |Body(sec, t, p).tracker.children| ==> IsComplete(Body(sec, t, p).tracker.children[j].state)
  {
    if sec.kids != [] {
      hide RunKids;
      BodyCycle(sec, t, p);
      var body := Body(sec, t, p).tracker;
      assert SplitAt(sec, body.children, |sec.kids|);
      assert forall j :: 0 <= j < |body.children| ==> body.children[j] == ChildAt(sec, body.children, j);
    }
  }

  // the trackers after section i has been closed or has failed
  lemma KidClosed(before: Trackers, after: Trackers, p: Path, sec: Section, i: nat, t: Tracker, parent: Tracker, body: Ran)
    requires i < |sec.kids| && DistinctNames(sec) && NamesMatch(sec, t.children) && i <= |t.children|
    requires var kidT := ChildAt(sec, t.children, i);
             parent == Tracker(t.name, ExecutingChildren, Acquire(t, sec.kids[i]).children[i := kidT.(state := Executing)])
    requires Matches(before, p, parent) && SameOutside(before, after, p + [sec.kids[i].name])
    requires Matches(after, p + [sec.kids[i].name], body.tracker) && body.tracker.name == sec.kids[i].name
    ensures var q, t1 := p + [sec.kids[i].name], Acquire(t, sec.kids[i]);
            && (forall s :: Matches(SetState(after, q, s), p,
                                    Tracker(t.name, ExecutingChildren, t1.children[i := body.tracker.(state := s)])))
            && p in SetState(after, q, Failed)
            && Matches(SetState(SetState(after, q, Failed), p, NeedsAnotherRun), p,
                       Tracker(t.name, NeedsAnotherRun, t1.children[i := body.tracker.(state := Failed)]))
  {
    hide DistinctNames;
    AcquireAt(sec, t, i);
    var q, t1 := p + [sec.kids[i].name], Acquire(t, sec.kids[i]);
    NamesApart(sec, t1.children, i);
    forall s ensures Matches(SetState(after, q, s), p,
                             Tracker(t.name, ExecutingChildren, t1.children[i := body.tracker.(state := s)])) {
      var closed := body.tracker.(state := s);
      MatchesSetState(after, q, body.tracker, s);
      MatchesKid(before, SetState(after, q, s), p, parent, i, closed);
      assert parent.children[i := closed] == t1.children[i := closed];
    }
    var failed := body.tracker.(state := Failed);
    MatchesSetState(SetState(after, q, Failed), p,
                    Tracker(t.name, ExecutingChildren, t1.children[i := failed]), NeedsAnotherRun);
  }

  lemma MatchesIn(nodes: Trackers, p: Path, t: Tracker)
    requires Matches(nodes, p, t)
    ensures p in nodes && nodes[p].state == t.state && nodes[p].children == NamesOf(t.children)
  {}

  lemma MatchesChild(nodes: Trackers, p: Path, t: Tracker, i: nat)
    requires Matches(nodes, p, t) && i < |t.children|
    ensures p in nodes && i < |nodes[p].children| && ChildPath(nodes, p, i) == p + [t.children[i].name]
    ensures Matches(nodes, p + [t.children[i].name], t.children[i])
  {}

  lemma StartedAfterEarlierOpen(nodes: Trackers, p: Path)
    requires Inv(nodes) && p in nodes && IsOpen(nodes[p].state)
    ensures EarlierDone(nodes, p)
  {
    StartedAfterEarlier(nodes, p);
  }

  lemma ReadyOpens(nodes: Trackers, p: Path, sec: Section, i: nat, t: Tracker)
    requires i < |sec.kids| && DistinctNames(sec) && Ready(sec, i, t, false) && Matches(nodes, p, t)
    ensures EarlierDoneIn(nodes, p, sec.kids[i].name)
    ensures sec.kids[i].name !in nodes[p].children ==> AllDone(nodes, p)
  {
    hide Good;
    var f: nat :| i <= f && SplitAt(sec, t.children, f);
    forall j | 0 <= j < i ensures Done(nodes, ChildPath(nodes, p, j)) {
      MatchesChild(nodes, p, t, j);
      assert ChildAt(sec, t.children, j) == t.children[j];
    }
    if i < |t.children| {
      assert nodes[p].children[i] == sec.kids[i].name;
    }
    forall k | 0 <= k < |nodes[p].children| && nodes[p].children[k] == sec.kids[i].name ensures k == i {
      assert sec.kids[k].name == sec.kids[i].name;
    }
  }

  lemma MatchesRecorded(nodes: Trackers, p: Path, sec: Section, i: nat, t: Tracker)
    requires i < |sec.kids| && DistinctNames(sec) && NamesMatch(sec, t.children) && i <= |t.children|
    requires Matches(nodes, p, t)
    ensures Matches(Recorded(nodes, p, sec.kids[i].name), p, Acquire(t, sec.kids[i]))
  {
    hide Good;
    AcquireAt(sec, t, i);
    if i < |t.children| {
      assert nodes[p].children[i] == sec.kids[i].name;
    } else {
      forall k | 0 <= k < |nodes[p].children| ensures nodes[p].children[k] != sec.kids[i].name {
        assert sec.kids[k].name != sec.kids[i].name;
      }
      MatchesAddChild(nodes, p, t, sec.kids[i]);
    }
  }

  predicate IsOpenOrRoot(nodes: Trackers, p: Path)
    requires p in nodes
  {
    IsOpen(nodes[p].state) || (p == [] && nodes[p].state == NotStarted)
  }

  // opening a section of p changes no tracker above p
  predicate CanOpenIn(nodes: Trackers, p: Path)
    requires p in nodes
  {
    p == [] || nodes[p].state == ExecutingChildren || (Parent(p) in nodes && nodes[Parent(p)].state == ExecutingChildren)
  }

  function Recorded(nodes: Trackers, p: Path, name: Name): Trackers
    requires p in nodes
  {
    if name in nodes[p].children then nodes else AddChild(nodes, p, name)
  }

  lemma RecordedHas(nodes: Trackers, p: Path, name: Name)
    requires Inv(nodes) && p in nodes
    ensures p + [name] in Recorded(nodes, p, name)
  {
    assert OrderlyAt(nodes, p);
    if i :| 0 <= i < |nodes[p].children| && nodes[p].children[i] == name {
      assert ChildPath(nodes, p, i) in nodes;
    }
  }

  lemma RecordedEarlier(nodes: Trackers, p: Path, name: Name)
    requires p in nodes && EarlierDoneIn(nodes, p, name)
    requires name !in nodes[p].children ==> AllDone(nodes, p) && p + [name] !in nodes
    ensures EarlierDone(Recorded(nodes, p, name), p + [name])
  {
    var after := Recorded(nodes, p, name);
    assert Parent(p + [name]) == p;
    assert forall i :: 0 <= i < |nodes[p].children| ==> ChildPath(after, p, i) == ChildPath(nodes, p, i);
    assert forall q :: Done(nodes, q) ==> Done(after, q);
  }

  lemma RecordedEarlierAbove(nodes: Trackers, p: Path, name: Name)
    requires Rooted(nodes) && p in nodes && EarlierDone(nodes, p)
    requires name !in nodes[p].children ==> p + [name] !in nodes
    ensures EarlierDone(Recorded(nodes, p, name), p)
  {
    if p != [] && name !in nodes[p].children {
      var after, q := AddChild(nodes, p, name), Parent(p);
      assert after[q] == nodes[q];
      assert forall i :: 0 <= i < |nodes[q].children| ==> ChildPath(after, q, i) == ChildPath(nodes, q, i);
      assert forall r :: Done(nodes, r) ==> Done(after, r);
    }
  }

  lemma LastDone(nodes: Trackers, p: Path)
    requires Inv(nodes) && p in nodes && nodes[p].children != []
    ensures ChildPath(nodes, p, |nodes[p].children| - 1) in nodes
    ensures Done(nodes, ChildPath(nodes, p, |nodes[p].children| - 1)) ==> AllDone(nodes, p)
  {
    assert OrderlyAt(nodes, p);
  }

  lemma SameState(nodes: Trackers, p: Path)
    requires p in nodes
    ensures SetState(nodes, p, nodes[p].state) == nodes
  {}

  lemma EarlierDoneStays(nodes: Trackers, p: Path, s: CycleState, q: Path)
    requires p in nodes && !IsComplete(nodes[p].state) && EarlierDone(nodes, q)
    ensures EarlierDone(SetState(nodes, p, s), q)
  {
    var after := SetState(nodes, p, s);
    if q != [] && Parent(q) in nodes {
      var r := Parent(q);
      assert forall i :: 0 <= i < |nodes[r].children| ==> ChildPath(after, r, i) == ChildPath(nodes, r, i);
      assert forall t :: Done(nodes, t) ==> Done(after, t);
    }
  }

  // the state that close leaves behind
  function ClosedState(nodes: Trackers, p: Path): CycleState
    requires p in nodes
  {
    var cs := nodes[p].children;
    match nodes[p].state
    case Executing => CompletedSuccessfully
    case ExecutingChildren =>
      if cs == [] || Done(nodes, p + [cs[|cs| - 1]]) then CompletedSuccessfully else ExecutingChildren
    case s => s
  }
}
