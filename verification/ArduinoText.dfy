/** Byte strings as the C library sees them, and what it means to replace one substring by another. */
module ArduinoText {
  import opened Bytes

  predicate NulFree(s: seq<byte>) {
    forall i :: 0 <= i < |s| ==> s[i] != 0
  }

  predicate OccursAt(s: seq<byte>, f: seq<byte>, i: nat) {
    i + |f| <= |s| && s[i..i + |f|] == f
  }

  // the characters before the first NUL
  function CString(s: seq<byte>): (t: seq<byte>)
    ensures |t| <= |s| && t == s[..|t|]
  {
    if s == [] || s[0] == 0 then [] else [s[0]] + CString(s[1..])
  }

  lemma {:induction false} CStringEnds(s: seq<byte>, n: nat)
    requires n < |s| && s[n] == 0 && NulFree(s[..n])
    ensures CString(s) == s[..n]
  {
    if n > 0 {
      assert s[0] == s[..n][0];
      assert s[1..][..n - 1] == s[..n][1..];
      CStringEnds(s[1..], n - 1);
    }
  }

  // strstr on strings without NUL: where f first occurs
  function Find(s: seq<byte>, f: seq<byte>): (i: Option<nat>)
    ensures i.Some? ==> OccursAt(s, f, i.value) && forall k :: 0 <= k < i.value ==> !OccursAt(s, f, k)
    ensures i == None ==> forall k :: 0 <= k <= |s| ==> !OccursAt(s, f, k)
  {
    FindFrom(s, f, 0)
  }

  function FindFrom(s: seq<byte>, f: seq<byte>, from: nat): (i: Option<nat>)
    requires from <= |s|
    ensures i.Some? ==>
      from <= i.value && OccursAt(s, f, i.value) && forall k :: from <= k < i.value ==> !OccursAt(s, f, k)
    ensures i == None ==> forall k :: from <= k <= |s| ==> !OccursAt(s, f, k)
    decreases |s| - from
  {
    if OccursAt(s, f, from) then Some(from)
    else if from == |s| then None
    else FindFrom(s, f, from + 1)
  }

  // -------- replacing --------

  /** Every leftmost, non-overlapping occurrence of f replaced by r. */
  function ReplaceAll(s: seq<byte>, f: seq<byte>, r: seq<byte>): seq<byte>
    requires f != []
    decreases |s|
  {
    if s == [] then []
    else if OccursAt(s, f, 0) then r + ReplaceAll(s[|f|..], f, r)
    else [s[0]] + ReplaceAll(s[1..], f, r)
  }

  lemma OccursInTail(s: seq<byte>, f: seq<byte>, k: nat)
    requires s != []
    ensures OccursAt(s[1..], f, k) <==> OccursAt(s, f, k + 1)
  {
    if k + 1 + |f| <= |s| {
      assert s[1..][k..k + |f|] == s[k + 1..k + 1 + |f|];
    }
  }

  predicate FirstAt(s: seq<byte>, f: seq<byte>, i: nat) {
    OccursAt(s, f, i) && forall k :: 0 <= k < i ==> !OccursAt(s, f, k)
  }

  lemma FirstInTail(s: seq<byte>, f: seq<byte>, i: nat)
    requires FirstAt(s, f, i) && i > 0 && s != []
    ensures FirstAt(s[1..], f, i - 1) && !OccursAt(s, f, 0)
  {
    forall k | 0 <= k < i ensures OccursAt(s[1..], f, k) <==> OccursAt(s, f, k + 1) {
      OccursInTail(s, f, k);
    }
    hide OccursAt;
  }

  lemma FindIsFirst(s: seq<byte>, f: seq<byte>)
    ensures Find(s, f).Some? ==> FirstAt(s, f, Find(s, f).value) && Find(s, f).value + |f| <= |s|
  {}

  lemma ReplaceUnfolds(s: seq<byte>, f: seq<byte>, r: seq<byte>)
    requires f != [] && s != []
    ensures FirstAt(s, f, 0) ==> |f| <= |s| && ReplaceAll(s, f, r) == r + ReplaceAll(s[|f|..], f, r)
    ensures !OccursAt(s, f, 0) ==> ReplaceAll(s, f, r) == [s[0]] + ReplaceAll(s[1..], f, r)
  {}

  lemma {:induction false} ReplaceFirst(s: seq<byte>, f: seq<byte>, r: seq<byte>, i: nat)
    requires f != [] && i + |f| <= |s| && FirstAt(s, f, i)
    ensures ReplaceAll(s, f, r) == s[..i] + r + ReplaceAll(s[i + |f|..], f, r)
    decreases i
  {
    hide OccursAt, ReplaceAll, FirstAt;
    ReplaceUnfolds(s, f, r);
    if i == 0 {
      assert s[..0] + r == r;
    } else {
      FirstInTail(s, f, i);
      ReplaceFirst(s[1..], f, r, i - 1);
      ConsGap(s, i, |f|, r, ReplaceAll(s[i + |f|..], f, r));
    }
  }

  lemma ConsGap(s: seq<byte>, i: nat, n: nat, r: seq<byte>, rest: seq<byte>)
    requires 0 < i && i + n <= |s|
    ensures s[1..][i - 1 + n..] == s[i + n..]
    ensures [s[0]] + (s[1..][..i - 1] + r + rest) == s[..i] + r + rest
  {}

  lemma {:induction false} ReplaceNothing(s: seq<byte>, f: seq<byte>, r: seq<byte>)
    requires f != [] && forall k :: 0 <= k <= |s| ==> !OccursAt(s, f, k)
    ensures ReplaceAll(s, f, r) == s
    decreases |s|
  {
    if s != [] {
      forall k | 0 <= k < |s| ensures !OccursAt(s[1..], f, k) {
        OccursInTail(s, f, k);
      }
      ReplaceNothing(s[1..], f, r);
    }
  }

  /** The text between the occurrences that are replaced. */
  function Gaps(s: seq<byte>, f: seq<byte>): (g: seq<seq<byte>>)
    requires f != []
    ensures g != []
    decreases |s|
  {
    var at := Find(s, f);
    if at == None then [s] else [s[..at.value]] + Gaps(s[at.value + |f|..], f)
  }

  lemma OccursInPrefix(s: seq<byte>, f: seq<byte>, i: nat, k: nat)
    requires i <= |s|
    ensures OccursAt(s[..i], f, k) ==> OccursAt(s, f, k)
  {
    if k + |f| <= i {
      assert s[..i][k..k + |f|] == s[k..k + |f|];
    }
  }

  function Weave(gaps: seq<seq<byte>>, r: seq<byte>): seq<byte>
    requires gaps != []
  {
    if |gaps| == 1 then gaps[0] else gaps[0] + r + Weave(gaps[1..], r)
  }

  function TotalLength(gaps: seq<seq<byte>>): nat {
    if gaps == [] then 0 else |gaps[0]| + TotalLength(gaps[1..])
  }

  /**
    * ReplaceAll against an independent reading: the text is gaps with f in between, f first occurs in each rest
    * right after the gap, and the result has r in its place.
    */
  lemma {:induction false} ReplaceIsWeave(s: seq<byte>, f: seq<byte>, r: seq<byte>)
    requires f != []
    ensures Weave(Gaps(s, f), f) == s
    ensures Weave(Gaps(s, f), r) == ReplaceAll(s, f, r)
    ensures forall g, k :: g in Gaps(s, f) && 0 <= k <= |g| ==> !OccursAt(g, f, k)
    decreases |s|
  {
    var at := Find(s, f);
    if at == None {
      ReplaceNothing(s, f, r);
    } else {
      var i := at.value;
      var rest := s[i + |f|..];
      assert s == s[..i] + f + rest;
      forall k | 0 <= k <= i ensures !OccursAt(s[..i], f, k) {
        OccursInPrefix(s, f, i, k);
      }
      ReplaceFirst(s, f, r, i);
      ReplaceIsWeave(rest, f, r);
      hide OccursAt, Find;
      assert Gaps(s, f) == [s[..i]] + Gaps(rest, f);
      assert ([s[..i]] + Gaps(rest, f))[1..] == Gaps(rest, f);
    }
  }

  lemma {:induction false} WeaveLength(gaps: seq<seq<byte>>, r: seq<byte>)
    requires gaps != []
    ensures |Weave(gaps, r)| == TotalLength(gaps) + (|gaps| - 1) * |r|
  {
    if |gaps| > 1 {
      WeaveLength(gaps[1..], r);
    }
  }

  /** Replacing changes the length by the difference, once for every gap but the last. */
  lemma ReplaceLength(s: seq<byte>, f: seq<byte>, r: seq<byte>)
    requires f != []
    ensures |ReplaceAll(s, f, r)| == |s| + (|Gaps(s, f)| - 1) * (|r| - |f|)
  {
    hide Gaps, Weave, ReplaceAll, TotalLength, OccursAt;
    var n := |Gaps(s, f)| - 1;
    ReplaceIsWeave(s, f, r);
    WeaveLength(Gaps(s, f), f);
    WeaveLength(Gaps(s, f), r);
    assert n * (|r| - |f|) == n * |r| - n * |f|;
  }

  // -------- the growing loop, which works from the end --------

  /** The greatest index up to a bound where f occurs, or -1. */
  function LastAt(s: seq<byte>, f: seq<byte>, bound: int): (i: int)
    ensures -1 <= i && (i >= 0 ==> i <= bound && OccursAt(s, f, i))
    ensures forall k :: 0 <= k <= bound && i < k ==> !OccursAt(s, f, k)
    decreases bound + 1
  {
    if bound < 0 then -1 else if OccursAt(s, f, bound) then bound else LastAt(s, f, bound - 1)
  }

  /** The last occurrence is replaced first; the search goes on before it, in the changed text. */
  function ReplaceBackwards(s: seq<byte>, f: seq<byte>, r: seq<byte>, bound: int): (t: seq<byte>)
    requires |f| <= |r|
    ensures |t| >= |s|
    ensures LastAt(s, f, bound) >= 0 ==> |t| >= |s| + (|r| - |f|)
    decreases bound + 1
  {
    var at := LastAt(s, f, bound);
    if at < 0 then s else ReplaceBackwards(s[..at] + r + s[at + |f|..], f, r, at - 1)
  }

  lemma BackwardsStep(s: seq<byte>, f: seq<byte>, r: seq<byte>, bound: int)
    requires |f| <= |r|
    ensures var at := LastAt(s, f, bound);
      && (at < 0 ==> ReplaceBackwards(s, f, r, bound) == s)
      && (at >= 0 ==>
            && at + |f| <= |s| && |s| + |r| - |f| <= |ReplaceBackwards(s, f, r, bound)|
            && ReplaceBackwards(s, f, r, bound) == ReplaceBackwards(s[..at] + r + s[at + |f|..], f, r, at - 1))
    ensures bound < 0 ==> LastAt(s, f, bound) < 0
  {
    hide OccursAt;
    var at := LastAt(s, f, bound);
    assert at >= 0 ==> at + |f| <= |s| by {
      InBounds(s, f, at);
    }
  }

  lemma InBounds(s: seq<byte>, f: seq<byte>, i: int)
    ensures i >= 0 && OccursAt(s, f, i) ==> i + |f| <= |s|
  {}
}
