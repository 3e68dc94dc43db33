/** Stream::findUntil: looking for a target in bytes that can be read only once. */
module StreamFind {
  import opened ArduinoText
  import opened Bytes

  // how much of the target is matched after one more byte
  function Step(t: seq<byte>, index: nat, c: byte): (next: nat)
    requires index < |t|
    ensures next <= index + 1
  {
    if c == t[index] then index + 1 else if c == t[0] then 1 else 0
  }

  // the terminator's index has no such second chance
  function TermStep(term: seq<byte>, index: nat, c: byte): (next: nat)
    requires term != [] ==> index < |term|
    ensures next <= |term|
  {
    if term != [] && c == term[index] then index + 1 else 0
  }

  /** What findUntil returns, and the bytes it leaves unread; a NUL byte ends it like the end of the stream. */
  function Search(t: seq<byte>, term: seq<byte>, index: nat, termIndex: nat, s: seq<byte>): (r: (bool, seq<byte>))
    requires index < |t| && (term != [] ==> termIndex < |term|)
    decreases s
  {
    if s == [] then (false, [])
    else
      var c, rest := s[0], s[1..];
      if c == 0 then (false, rest)
      else
        var next := Step(t, index, c);
        if next >= |t| then (true, rest)
        else
          var termNext := TermStep(term, termIndex, c);
          if term != [] && termNext >= |term| then (false, rest)
          else Search(t, term, next, termNext, rest)
  }

  /** Without a terminator, on bytes without NUL: how many bytes are read until the target is found. */
  function Scan(t: seq<byte>, index: nat, s: seq<byte>): (n: Option<nat>)
    requires index < |t|
    ensures n.Some? ==> 0 < n.value <= |s|
    decreases s
  {
    if s == [] then None
    else
      var next := Step(t, index, s[0]);
      if next >= |t| then Some(1)
      else
        var n := Scan(t, next, s[1..]);
        if n == None then None else Some(n.value + 1)
  }

  /** The same for the terminator, whatever the target. */
  function TermScan(term: seq<byte>, index: nat, s: seq<byte>): (n: Option<nat>)
    requires index < |term|
    ensures n.Some? ==> 0 < n.value <= |s|
    decreases s
  {
    if s == [] then None
    else
      var next := TermStep(term, index, s[0]);
      if next >= |term| then Some(1) else Later(1, TermScan(term, next, s[1..]))
  }

  // after k more bytes
  function Later(k: nat, n: Option<nat>): Option<nat> {
    if n == None then None else Some(n.value + k)
  }

  // how the search ends: at the target, unless the terminator comes earlier; else at the first NUL or the end
  function Ends(s: seq<byte>, target: Option<nat>, terminator: Option<nat>): (bool, seq<byte>)
    requires (target.Some? ==> target.value <= |s|) && (terminator.Some? ==> terminator.value <= |s|)
  {
    if target.Some? && (terminator == None || target.value <= terminator.value) then (true, s[target.value..])
    else if terminator.Some? then (false, s[terminator.value..])
    else (false, if |CString(s)| < |s| then s[|CString(s)| + 1..] else [])
  }

  /**
    * The search is the two scans side by side: it ends with whichever is done first, and with the target when both
    * are done at the same byte.
    */
  lemma {:induction false} SearchIsBothScans(t: seq<byte>, term: seq<byte>, i: nat, j: nat, s: seq<byte>)
    requires i < |t| && (term != [] ==> j < |term|)
    ensures var text := CString(s);
      Search(t, term, i, j, s) == Ends(s, Scan(t, i, text), if term == [] then None else TermScan(term, j, text))
    decreases s
  {
    hide Step, TermStep;
    if s != [] && s[0] != 0 {
      var next, termNext := Step(t, i, s[0]), TermStep(term, j, s[0]);
      var text := CString(s);
      assert text[1..] == CString(s[1..]) && text[0] == s[0];
      if next < |t| && !(term != [] && termNext >= |term|) {
        SearchIsBothScans(t, term, next, termNext, s[1..]);
      }
    }
  }

  // -------- the index that is kept --------

  // the last i bytes of p are the first i bytes of t
  predicate EndsWith(p: seq<byte>, t: seq<byte>, i: nat) {
    i <= |t| && i <= |p| && p[|p| - i..] == t[..i]
  }

  // i is the longest prefix of t that p ends with, and p does not end with all of t
  predicate Longest(t: seq<byte>, p: seq<byte>, i: nat) {
    && i < |t| && EndsWith(p, t, i)
    && forall j :: i < j <= |t| ==> !EndsWith(p, t, j)
  }

  /**
    * The condition on the target: wherever a prefix t[..i] also ends with a shorter prefix t[..k], the byte that
    * continues it is the same.
    */
  predicate NoBadBorder(t: seq<byte>) {
    forall i, k :: 1 <= k < i < |t| && EndsWith(t[..i], t, k) ==> t[k] == t[i]
  }

  lemma EndsWithNext(p: seq<byte>, t: seq<byte>, j: nat, c: byte)
    requires j < |t|
    ensures EndsWith(p + [c], t, j + 1) <==> EndsWith(p, t, j) && t[j] == c
  {
    if j <= |p| {
      assert t[..j + 1] == t[..j] + [t[j]];
      assert (p + [c])[|p| - j..] == p[|p| - j..] + [c];
      assert t[..j + 1][..j] == t[..j];
      assert (p[|p| - j..] + [c])[..j] == p[|p| - j..];
    }
  }

  lemma EndsWithShorter(p: seq<byte>, t: seq<byte>, i: nat, k: nat)
    requires EndsWith(p, t, i) && EndsWith(p, t, k) && k <= i
    ensures EndsWith(t[..i], t, k)
  {
    assert p[|p| - i..][i - k..] == p[|p| - k..];
  }

  // whatever the target, the matched index is a prefix the read bytes end with
  lemma StepIsSound(t: seq<byte>, p: seq<byte>, i: nat, c: byte)
    requires i < |t| && EndsWith(p, t, i)
    ensures EndsWith(p + [c], t, Step(t, i, c))
  {
    EndsWithNext(p, t, i, c);
    EndsWithNext(p, t, 0, c);
  }

  // with a good target it is the longest one
  lemma StepIsLongest(t: seq<byte>, p: seq<byte>, i: nat, c: byte)
    requires NoBadBorder(t) && Longest(t, p, i)
    ensures var next := Step(t, i, c);
      EndsWith(p + [c], t, next) && (next < |t| ==> Longest(t, p + [c], next))
  {
    var next := Step(t, i, c);
    StepIsSound(t, p, i, c);
    forall j | next < j <= |t| ensures !EndsWith(p + [c], t, j) {
      EndsWithNext(p, t, j - 1, c);
      if j - 1 < i && EndsWith(p, t, j - 1) {
        EndsWithShorter(p, t, i, j - 1);
      }
    }
  }

  // -------- the whole search --------

  lemma OccurrenceEnds(p: seq<byte>, s: seq<byte>, t: seq<byte>, n: nat)
    requires n <= |s| && |t| <= |p| + n
    ensures EndsWith(p + s[..n], t, |t|) <==> OccursAt(p + s, t, |p| + n - |t|)
  {
    var m := |p| + n;
    assert (p + s)[..m] == p + s[..n];
    assert (p + s)[m - |t|..m] == (p + s)[..m][m - |t|..];
    assert t[..|t|] == t;
  }

  /** Soundness for every target: when it is found, the bytes read last are the target. */
  lemma {:induction false} FoundIsThere(t: seq<byte>, p: seq<byte>, i: nat, s: seq<byte>)
    requires i < |t| && EndsWith(p, t, i)
    ensures var n := Scan(t, i, s);
      n.Some? ==> EndsWith(p + s[..n.value], t, |t|)
    decreases s
  {
    if s != [] {
      StepIsSound(t, p, i, s[0]);
      var next := Step(t, i, s[0]);
      assert s[..1] == [s[0]];
      if next < |t| {
        FoundIsThere(t, p + [s[0]], next, s[1..]);
        var n := Scan(t, next, s[1..]);
        if n.Some? {
          assert (p + [s[0]]) + s[1..][..n.value] == p + s[..n.value + 1];
        }
      }
    }
  }

  /** Completeness for a good target: no earlier read byte ended an occurrence. */
  lemma {:induction false} NothingIsMissed(t: seq<byte>, p: seq<byte>, i: nat, s: seq<byte>, m: nat)
    requires NoBadBorder(t) && Longest(t, p, i)
    requires var n := Scan(t, i, s); 1 <= m <= |s| && (n.Some? ==> m < n.value)
    ensures !EndsWith(p + s[..m], t, |t|)
    decreases s
  {
    hide EndsWith, NoBadBorder;
    StepIsLongest(t, p, i, s[0]);
    var next := Step(t, i, s[0]);
    var q := p + [s[0]];
    assert s[..1] == [s[0]];
    if m > 1 {
      assert q + s[1..][..m - 1] == p + s[..m] by {
        ReadOneMore(p, s, m);
      }
      NothingIsMissed(t, q, next, s[1..], m - 1);
    }
  }

  lemma ReadOneMore(p: seq<byte>, s: seq<byte>, m: nat)
    requires 1 <= m <= |s|
    ensures (p + [s[0]]) + s[1..][..m - 1] == p + s[..m]
  {}

  // where the first occurrence ends
  function FirstEnd(t: seq<byte>, s: seq<byte>): (end: Option<nat>)
    ensures end.Some? ==> |t| <= end.value <= |s| && OccursAt(s, t, end.value - |t|)
  {
    var i := Find(s, t);
    if i == None then None else Some(i.value + |t|)
  }

  lemma EmptyIsLongest(t: seq<byte>)
    requires t != []
    ensures Longest(t, [], 0)
  {}

  lemma FoundOccurs(t: seq<byte>, s: seq<byte>)
    requires t != []
    ensures var n := Scan(t, 0, s);
      n.Some? ==> |t| <= n.value && OccursAt(s, t, n.value - |t|)
  {
    hide OccursAt, Scan;
    FoundIsThere(t, [], 0, s);
    var n := Scan(t, 0, s);
    assert [] + s == s;
    if n.Some? {
      OccurrenceEnds([], s, t, n.value);
    }
  }

  lemma NotFoundBefore(t: seq<byte>, s: seq<byte>, m: nat)
    requires t != [] && NoBadBorder(t) && |t| <= m <= |s|
    requires var n := Scan(t, 0, s); n.Some? ==> m < n.value
    ensures !OccursAt(s, t, m - |t|)
  {
    hide OccursAt, Scan, NoBadBorder, EndsWith;
    EmptyIsLongest(t);
    NothingIsMissed(t, [], 0, s, m);
    assert [] + s == s;
    OccurrenceEnds([], s, t, m);
  }

  lemma FindsFirst(t: seq<byte>, s: seq<byte>)
    requires t != [] && NoBadBorder(t)
    ensures Scan(t, 0, s) == FirstEnd(t, s)
  {
    hide OccursAt, Scan, NoBadBorder, Find;
    FoundOccurs(t, s);
    var n, first := Scan(t, 0, s), FirstEnd(t, s);
    if first.Some? && (n == None || first.value < n.value) {
      NotFoundBefore(t, s, first.value);
    }
  }

  // -------- the condition is exact --------

  // reading a prefix of the target matches all of it
  lemma {:induction false} ReadsPrefix(t: seq<byte>, from: nat, i: nat, s: seq<byte>)
    requires from <= i < |t|
    ensures Scan(t, from, t[from..i] + s) == Later(i - from, Scan(t, i, s))
    decreases i - from
  {
    if from == i {
      assert t[from..i] + s == s;
    } else {
      assert (t[from..i] + s)[1..] == t[from + 1..i] + s;
      ReadsPrefix(t, from + 1, i, s);
    }
  }

  // the index grows by at most one with each byte
  lemma {:induction false} NeedsBytes(t: seq<byte>, i: nat, s: seq<byte>)
    requires i < |t| && i + |s| < |t|
    ensures Scan(t, i, s) == None
    decreases s
  {
    if s != [] {
      NeedsBytes(t, Step(t, i, s[0]), s[1..]);
    }
  }

  /** A bad border gives a stream in which the target occurs and is not found. */
  lemma BadBorderMisses(t: seq<byte>, i: nat, k: nat)
    requires 1 <= k < i < |t| && EndsWith(t[..i], t, k) && t[k] != t[i]
    ensures var s := t[..i] + t[k..];
      Scan(t, 0, s) == None && OccursAt(s, t, i - k)
  {
    hide Scan, EndsWith, OccursAt;
    BorderOccurs(t, i, k);
    ReadsPrefix(t, 0, i, t[k..]);
    assert t[0..i] == t[..i];
    BreaksThere(t, i, k);
  }

  lemma BorderOccurs(t: seq<byte>, i: nat, k: nat)
    requires k < i < |t| && EndsWith(t[..i], t, k)
    ensures OccursAt(t[..i] + t[k..], t, i - k)
  {
    var s := t[..i] + t[k..];
    assert s[i - k..] == t[..i][i - k..] + t[k..] == t;
    assert s[i - k..i - k + |t|] == s[i - k..];
  }

  // the byte that does not continue the longer border leaves too few bytes for all of t
  lemma BreaksThere(t: seq<byte>, i: nat, k: nat)
    requires 1 <= k < i < |t| && t[k] != t[i]
    ensures Scan(t, i, t[k..]) == None
  {
    assert t[k..][0] == t[k];
    NeedsBytes(t, Step(t, i, t[k]), t[k..][1..]);
  }

  lemma BadTargetMisses(t: seq<byte>) returns (s: seq<byte>)
    requires t != [] && NulFree(t) && !NoBadBorder(t)
    ensures NulFree(s) && Scan(t, 0, s) != FirstEnd(t, s)
  {
    hide Scan;
    var i, k :| 1 <= k < i < |t| && EndsWith(t[..i], t, k) && t[k] != t[i];
    BadBorderMisses(t, i, k);
    s := t[..i] + t[k..];
  }

  /**
    * findUntil reads up to the end of the first occurrence, in every stream without NUL, exactly when the target has
    * no bad border.
    */
  lemma FindsFirstExactly(t: seq<byte>)
    requires t != [] && NulFree(t)
    ensures NoBadBorder(t) <==> forall s :: NulFree(s) ==> Scan(t, 0, s) == FirstEnd(t, s)
  {
    hide NoBadBorder, NulFree, FirstEnd, Scan;
    if NoBadBorder(t) {
      forall s | NulFree(s) ensures Scan(t, 0, s) == FirstEnd(t, s) {
        FindsFirst(t, s);
      }
    } else {
      var s := BadTargetMisses(t);
      assert !(NulFree(s) ==> Scan(t, 0, s) == FirstEnd(t, s));
    }
  }

  lemma NoEarlyBorder(t: seq<byte>, i: nat, k: nat)
    requires 1 <= k < i < |t| && t[0] !in t[1..]
    ensures !EndsWith(t[..i], t, k)
  {
    assert t[..i][i - k..][0] == t[1..][i - k - 1];
    assert t[..k][0] == t[0];
  }

  // a first byte that does not come back is enough
  lemma FreshFirstByte(t: seq<byte>)
    requires t != [] && t[0] !in t[1..]
    ensures NoBadBorder(t)
  {
    forall i, k | 1 <= k < i < |t| ensures !EndsWith(t[..i], t, k) {
      NoEarlyBorder(t, i, k);
    }
  }

  /** find (findUntil with no terminator), with a good target, on any stream: up to the first NUL, to the first end. */
  lemma FindReadsToFirst(t: seq<byte>, s: seq<byte>)
    requires t != [] && NoBadBorder(t)
    ensures var text := CString(s);
      var end := FirstEnd(t, text);
      Search(t, [], 0, 0, s) ==
        if end.Some? then (true, s[end.value..])
        else (false, if |text| < |s| then s[|text| + 1..] else [])
  {
    SearchIsBothScans(t, [], 0, 0, s);
    FindsFirst(t, CString(s));
  }

  /** With any target and any terminator: when it is found, what was read ends with the target. */
  lemma {:induction false} SearchIsSound(t: seq<byte>, term: seq<byte>, p: seq<byte>, i: nat, j: nat, s: seq<byte>)
    requires i < |t| && (term != [] ==> j < |term|) && EndsWith(p, t, i)
    ensures var (found, rest) := Search(t, term, i, j, s);
      |rest| <= |s| && rest == s[|s| - |rest|..] && (found ==> EndsWith(p + s[..|s| - |rest|], t, |t|))
    decreases s
  {
    hide EndsWith;
    if s != [] && s[0] != 0 {
      StepIsSound(t, p, i, s[0]);
      var next, termNext := Step(t, i, s[0]), TermStep(term, j, s[0]);
      assert s[..1] == [s[0]];
      if next < |t| && !(term != [] && termNext >= |term|) {
        SearchIsSound(t, term, p + [s[0]], next, termNext, s[1..]);
        var (found, rest) := Search(t, term, next, termNext, s[1..]);
        var n := |s[1..]| - |rest|;
        assert (p + [s[0]]) + s[1..][..n] == p + s[..n + 1];
      }
    }
  }

  // -------- what is found by any target and any terminator --------

  // how much of t stands at the start of s
  function Matched(t: seq<byte>, s: seq<byte>): (k: nat)
    ensures k <= |t| && k <= |s| && forall i :: 0 <= i < k ==> t[i] == s[i]
    ensures k < |t| && k < |s| ==> t[k] != s[k]
  {
    if t == [] || s == [] || t[0] != s[0] then 0 else Matched(t[1..], s[1..]) + 1
  }

  lemma {:induction false} MatchedIs(t: seq<byte>, s: seq<byte>, k: nat)
    requires k <= |t| && k <= |s| && forall i :: 0 <= i < k ==> t[i] == s[i]
    requires k == |t| || k == |s| || t[k] != s[k]
    ensures Matched(t, s) == k
  {
    if k > 0 {
      MatchedIs(t[1..], s[1..], k - 1);
    }
  }

  lemma MatchSplits(t: seq<byte>, s: seq<byte>, k: nat)
    requires k <= |t| && k <= |s| && forall i :: 0 <= i < k ==> t[i] == s[i]
    ensures t[0..k] + s[k..] == s && (k < |s| ==> s[k..][0] == s[k] && s[k..][1..] == s[k + 1..])
  {}

  // all of t is matched
  lemma ScanMatches(t: seq<byte>, s: seq<byte>)
    requires t != [] && |t| <= |s| && forall i :: 0 <= i < |t| ==> t[i] == s[i]
    ensures Scan(t, 0, s) == Some(|t|)
  {
    var k := |t| - 1;
    MatchSplits(t, s, k);
    ReadsPrefix(t, 0, k, s[k..]);
    assert Scan(t, k, s[k..]) == Some(1);
  }

  // the byte that breaks a match is tried again as a first byte
  lemma ScanMiss(t: seq<byte>, k: nat, s: seq<byte>)
    requires k < |t| && s != [] && t[k] != s[0]
    ensures k > 0 && s[0] == t[0] ==> Scan(t, k, s) == Scan(t, 0, s)
    ensures !(k > 0 && s[0] == t[0]) ==> Scan(t, k, s) == Later(1, Scan(t, 0, s[1..]))
  {}

  lemma LaterTwice(k: nat, j: nat, n: Option<nat>)
    ensures Later(k, Later(j, n)) == Later(k + j, n)
  {}

  lemma ScanBreaks(t: seq<byte>, s: seq<byte>, k: nat)
    requires k < |t| && k < |s| && t[k] != s[k] && forall i :: 0 <= i < k ==> t[i] == s[i]
    ensures var next := if k > 0 && s[k] == t[0] then k else k + 1;
      Scan(t, 0, s) == Later(next, Scan(t, 0, s[next..]))
  {
    hide Scan;
    MatchSplits(t, s, k);
    ReadsPrefix(t, 0, k, s[k..]);
    ScanMiss(t, k, s[k..]);
    LaterTwice(k, 1, Scan(t, 0, s[k + 1..]));
  }

  /**
    * Where a match breaks off, the next attempt starts at the byte that broke it when that is the first byte of the
    * target, and else behind it: all that was matched before is given up.
    */
  lemma ScanAttempts(t: seq<byte>, s: seq<byte>)
    requires t != []
    ensures var k := Matched(t, s);
      Scan(t, 0, s) ==
        if k == |t| then Some(k)
        else if k == |s| then None
        else
          var next := if k > 0 && s[k] == t[0] then k else k + 1;
          Later(next, Scan(t, 0, s[next..]))
  {
    hide Scan;
    var k := Matched(t, s);
    if k == |t| {
      ScanMatches(t, s);
    } else if k == |s| {
      NeedsBytes(t, 0, s);
    } else {
      ScanBreaks(t, s, k);
    }
  }

  // reading a prefix of the terminator matches all of it
  lemma {:induction false} TermReadsPrefix(term: seq<byte>, from: nat, i: nat, s: seq<byte>)
    requires from <= i < |term|
    ensures TermScan(term, from, term[from..i] + s) == Later(i - from, TermScan(term, i, s))
    decreases i - from
  {
    if from == i {
      assert term[from..i] + s == s;
    } else {
      assert (term[from..i] + s)[1..] == term[from + 1..i] + s;
      TermReadsPrefix(term, from + 1, i, s);
    }
  }

  lemma {:induction false} TermNeedsBytes(term: seq<byte>, i: nat, s: seq<byte>)
    requires i < |term| && i + |s| < |term|
    ensures TermScan(term, i, s) == None
    decreases s
  {
    if s != [] {
      TermNeedsBytes(term, TermStep(term, i, s[0]), s[1..]);
    }
  }

  lemma TermMatches(term: seq<byte>, s: seq<byte>)
    requires term != [] && |term| <= |s| && forall i :: 0 <= i < |term| ==> term[i] == s[i]
    ensures TermScan(term, 0, s) == Some(|term|)
  {
    var k := |term| - 1;
    MatchSplits(term, s, k);
    TermReadsPrefix(term, 0, k, s[k..]);
    assert TermScan(term, k, s[k..]) == Some(1);
  }

  lemma TermMiss(term: seq<byte>, k: nat, s: seq<byte>)
    requires k < |term| && s != [] && term[k] != s[0]
    ensures TermScan(term, k, s) == Later(1, TermScan(term, 0, s[1..]))
  {}

  lemma TermBreaks(term: seq<byte>, s: seq<byte>, k: nat)
    requires k < |term| && k < |s| && term[k] != s[k] && forall i :: 0 <= i < k ==> term[i] == s[i]
    ensures TermScan(term, 0, s) == Later(k + 1, TermScan(term, 0, s[k + 1..]))
  {
    hide TermScan;
    MatchSplits(term, s, k);
    TermReadsPrefix(term, 0, k, s[k..]);
    TermMiss(term, k, s[k..]);
    LaterTwice(k, 1, TermScan(term, 0, s[k + 1..]));
  }

  /** The terminator's next attempt always starts behind the byte that broke the match. */
  lemma TermScanAttempts(term: seq<byte>, s: seq<byte>)
    requires term != []
    ensures var k := Matched(term, s);
      TermScan(term, 0, s) ==
        if k == |term| then Some(k)
        else if k == |s| then None
        else Later(k + 1, TermScan(term, 0, s[k + 1..]))
  {
    hide TermScan;
    var k := Matched(term, s);
    if k == |term| {
      TermMatches(term, s);
    } else if k == |s| {
      TermNeedsBytes(term, 0, s);
    } else {
      TermBreaks(term, s, k);
    }
  }

  // -------- the terminator --------

  // a terminator of one byte, or of the same byte again and again
  predicate Uniform(term: seq<byte>) {
    forall i :: 0 <= i < |term| ==> term[i] == term[0]
  }

  lemma UniformIsGood(term: seq<byte>)
    requires Uniform(term)
    ensures NoBadBorder(term)
  {}

  // for such a terminator a second chance would change nothing
  lemma {:induction false} UniformScans(term: seq<byte>, index: nat, s: seq<byte>)
    requires index < |term| && Uniform(term)
    ensures TermScan(term, index, s) == Scan(term, index, s)
    decreases s
  {
    if s != [] {
      var next := TermStep(term, index, s[0]);
      assert next == Step(term, index, s[0]);
      if next < |term| {
        UniformScans(term, next, s[1..]);
      }
    }
  }

  // with its first byte doubled, any other terminator is missed: the second one breaks the match and is not tried again
  lemma DoubledFirstMisses(term: seq<byte>, i: nat)
    requires 1 <= i < |term| && term[i] != term[0] && forall k :: 0 <= k < i ==> term[k] == term[0]
    ensures var s := [term[0]] + term;
      TermScan(term, 0, s) == None && OccursAt(s, term, 1)
  {
    hide TermScan;
    var s := [term[0]] + term;
    assert forall k :: 1 <= k < |s| ==> s[k] == term[k - 1];
    assert s[1..1 + |term|] == term;
    TermBreaks(term, s, i);
    TermNeedsBytes(term, 0, s[i + 1..]);
  }

  /**
    * The search stops at the first end of the terminator, in every stream without NUL, exactly when the terminator
    * repeats one byte: its index has no second chance.
    */
  lemma TerminatesFirstExactly(term: seq<byte>)
    requires term != [] && NulFree(term)
    ensures Uniform(term) <==> forall s :: NulFree(s) ==> TermScan(term, 0, s) == FirstEnd(term, s)
  {
    hide FirstEnd, TermScan, Scan, NulFree;
    if Uniform(term) {
      UniformIsGood(term);
      forall s | NulFree(s) ensures TermScan(term, 0, s) == FirstEnd(term, s) {
        UniformScans(term, 0, s);
        FindsFirst(term, s);
      }
    } else {
      var i := FirstOther(term);
      DoubledFirstMisses(term, i);
      var s := [term[0]] + term;
      OccursIsFound(s, term, 1);
      DoubledIsNulFree(term);
      assert !(NulFree(s) ==> TermScan(term, 0, s) == FirstEnd(term, s));
    }
  }

  lemma FirstOther(term: seq<byte>) returns (i: nat)
    requires !Uniform(term)
    ensures 1 <= i < |term| && term[i] != term[0] && forall k :: 0 <= k < i ==> term[k] == term[0]
  {
    i := 0;
    while term[i] == term[0]
      invariant i < |term| && forall k :: 0 <= k < i ==> term[k] == term[0]
      decreases |term| - i
    {
      i := i + 1;
    }
  }

  lemma OccursIsFound(s: seq<byte>, t: seq<byte>, i: nat)
    requires OccursAt(s, t, i)
    ensures FirstEnd(t, s).Some?
  {
    InBounds(s, t, i);
  }

  lemma DoubledIsNulFree(term: seq<byte>)
    requires term != [] && NulFree(term)
    ensures NulFree([term[0]] + term)
  {}

  lemma TermStepIsSound(term: seq<byte>, p: seq<byte>, j: nat, c: byte)
    requires j < |term| && EndsWith(p, term, j)
    ensures EndsWith(p + [c], term, TermStep(term, j, c))
  {
    EndsWithNext(p, term, j, c);
  }

  /** Whatever the terminator, when the search stops at it, it is what was read last. */
  lemma {:induction false} TermScanIsSound(term: seq<byte>, p: seq<byte>, j: nat, s: seq<byte>)
    requires j < |term| && EndsWith(p, term, j)
    ensures var n := TermScan(term, j, s);
      n.Some? ==> EndsWith(p + s[..n.value], term, |term|)
    decreases s
  {
    hide EndsWith;
    if s != [] {
      var next := TermStep(term, j, s[0]);
      TermStepIsSound(term, p, j, s[0]);
      assert s[..1] == [s[0]];
      if next < |term| {
        TermScanIsSound(term, p + [s[0]], next, s[1..]);
        var n := TermScan(term, next, s[1..]);
        if n.Some? {
          assert (p + [s[0]]) + s[1..][..n.value] == p + s[..n.value + 1];
        }
      }
    }
  }

  /** It stops at the first copy of a terminator whose first byte has not been read before. */
  lemma FreshTerminatorStops(term: seq<byte>, p: seq<byte>, rest: seq<byte>)
    requires term != [] && term[0] !in p
    ensures TermScan(term, 0, p + term + rest) == Some(|p| + |term|)
    decreases p
  {
    hide TermScan;
    var s := p + term + rest;
    if p == [] {
      TermMatches(term, s);
    } else {
      assert s[1..] == p[1..] + term + rest;
      TermBreaks(term, s, 0);
      FreshTerminatorStops(term, p[1..], rest);
    }
  }

  /**
    * findUntil with a good target and a uniform terminator, or none: it ends with the target, unless the terminator
    * ends earlier, and leaves exactly what follows.
    */
  lemma FindUntilReadsToFirst(t: seq<byte>, term: seq<byte>, s: seq<byte>)
    requires t != [] && NoBadBorder(t) && Uniform(term)
    ensures var text := CString(s);
      var end, stop := FirstEnd(t, text), if term == [] then None else FirstEnd(term, text);
      && (end.Some? ==> end.value <= |s|) && (stop.Some? ==> stop.value <= |s|)
      && Search(t, term, 0, 0, s) == Ends(s, end, stop)
  {
    hide FirstEnd, Search, Scan, TermScan, NoBadBorder, Uniform;
    var text := CString(s);
    SearchIsBothScans(t, term, 0, 0, s);
    FindsFirst(t, text);
    if term != [] {
      UniformIsGood(term);
      UniformScans(term, 0, text);
      FindsFirst(term, text);
    }
  }

  /** "OK" or "END" in "ENDOK": the search stops behind END. */
  lemma TerminatorFirst()
    ensures Search([79, 75], [69, 78, 68], 0, 0, [69, 78, 68, 79, 75]) == (false, [79, 75])
  {
    var t, term, s := [79, 75], [69, 78, 68], [69, 78, 68, 79, 75];
    CStringIsAll(s);
    SearchIsBothScans(t, term, 0, 0, s);
    assert [] + term + t == s;
    FreshTerminatorStops(term, [], t);
    ScanBreaks(t, s, 0);
    ScanBreaks(t, s[1..], 0);
    ScanBreaks(t, s[2..], 0);
    assert s[1..][1..] == s[2..] && s[2..][1..] == t == s[3..];
  }

  lemma CStringIsAll(s: seq<byte>)
    requires NulFree(s)
    ensures CString(s) == s
  {
    if s != [] {
      CStringIsAll(s[1..]);
    }
  }
}
