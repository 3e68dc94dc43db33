/** When replacing from the end, in the text already changed, is the leftmost replacement: the exact condition. */
module GrowingReplace {
  import opened ArduinoText
  import opened Bytes

  predicate StartsWith(s: seq<byte>, p: seq<byte>) {
    |p| <= |s| && s[..|p|] == p
  }

  // the last k bytes of f
  function Suffix(f: seq<byte>, k: nat): seq<byte>
    requires k <= |f|
  {
    f[|f| - k..]
  }

  // no end of f, but f itself, is a start of f
  predicate Unbordered(f: seq<byte>) {
    forall k :: 1 <= k < |f| ==> !StartsWith(f, Suffix(f, k))
  }

  // no end of f, but f itself, is a start of t
  predicate Clean(f: seq<byte>, t: seq<byte>) {
    forall k :: 1 <= k < |f| ==> !StartsWith(t, Suffix(f, k))
  }

  /** The condition on a search and a replacement string. */
  predicate NoBadSuffix(f: seq<byte>, r: seq<byte>) {
    Unbordered(f) && Clean(f, r)
  }

  // -------- good strings: the order does not matter --------

  // two occurrences that overlap show a border
  lemma Overlap(s: seq<byte>, f: seq<byte>, i: nat, j: nat)
    requires OccursAt(s, f, i) && OccursAt(s, f, j) && i < j < i + |f|
    ensures StartsWith(f, Suffix(f, i + |f| - j))
  {
    var k := i + |f| - j;
    assert Suffix(f, k) == s[i..i + |f|][j - i..] == s[j..j + k];
    assert f[..k] == s[j..j + |f|][..k] == s[j..j + k];
  }

  lemma NoOverlap(s: seq<byte>, f: seq<byte>, i: nat, j: nat)
    requires Unbordered(f) && OccursAt(s, f, i) && OccursAt(s, f, j) && i < j
    ensures i + |f| <= j
  {
    if j < i + |f| {
      Overlap(s, f, i, j);
    }
  }

  lemma {:induction false} ReplaceAround(x: seq<byte>, f: seq<byte>, y: seq<byte>, r: seq<byte>)
    requires f != [] && Unbordered(f)
    ensures ReplaceAll(x + f + y, f, r) == ReplaceAll(x, f, r) + r + ReplaceAll(y, f, r)
    decreases |x|
  {
    hide Unbordered, ReplaceAll;
    var s := x + f + y;
    ReplaceUnfolds(s, f, r);
    assert s[|x|..|x| + |f|] == f && s[|x| + |f|..] == y;
    if x == [] {
      assert s == f + y && FirstAt(s, f, 0);
      NothingReplaced(f, r);
      assert [] + r + ReplaceAll(y, f, r) == r + ReplaceAll(y, f, r);
    } else {
      ReplaceUnfolds(x, f, r);
      if OccursAt(s, f, 0) {
        NoOverlap(s, f, 0, |x|);
        assert s[0..|f|] == x[0..|f|];
        ReplaceAround(x[|f|..], f, y, r);
        assert s[|f|..] == x[|f|..] + f + y;
        assert r + (ReplaceAll(x[|f|..], f, r) + r + ReplaceAll(y, f, r))
          == r + ReplaceAll(x[|f|..], f, r) + r + ReplaceAll(y, f, r);
      } else {
        assert |f| <= |x| ==> s[0..|f|] == x[0..|f|];
        ReplaceAround(x[1..], f, y, r);
        assert s[1..] == x[1..] + f + y;
        assert [x[0]] + (ReplaceAll(x[1..], f, r) + r + ReplaceAll(y, f, r))
          == [x[0]] + ReplaceAll(x[1..], f, r) + r + ReplaceAll(y, f, r);
      }
    }
  }

  lemma NothingReplaced(f: seq<byte>, r: seq<byte>)
    requires f != []
    ensures ReplaceAll([], f, r) == []
  {}

  // an occurrence that goes on into t
  lemma Crosses(a: seq<byte>, t: seq<byte>, f: seq<byte>, i: nat)
    requires OccursAt(a + t, f, i) && i < |a| < i + |f|
    ensures StartsWith(t, Suffix(f, i + |f| - |a|))
  {
    var s, k := a + t, i + |f| - |a|;
    assert Suffix(f, k) == s[i..i + |f|][|a| - i..] == s[|a|..i + |f|];
    assert t[..k] == s[|a|..|a| + k];
  }

  // it cannot when no end of f starts t
  lemma StaysInside(a: seq<byte>, t: seq<byte>, f: seq<byte>, i: nat)
    requires Clean(f, t) && OccursAt(a + t, f, i) && i < |a|
    ensures i + |f| <= |a| && OccursAt(a, f, i)
  {
    if i + |f| > |a| {
      Crosses(a, t, f, i);
    } else {
      assert a[i..i + |f|] == (a + t)[i..i + |f|];
    }
  }

  lemma OccursInRest(a: seq<byte>, t: seq<byte>, f: seq<byte>, start: nat, k: nat)
    requires start <= |a| && OccursAt(a[start..], f, k)
    ensures start + k + |f| <= |a| && OccursAt(a + t, f, start + k)
  {
    assert (a + t)[start + k..start + k + |f|] == a[start..][k..k + |f|];
  }

  lemma NoneAfter(a: seq<byte>, t: seq<byte>, f: seq<byte>, at: int)
    requires f != [] && at == LastAt(a + t, f, |a| - 1)
    requires at >= 0 ==> at + |f| <= |a|
    ensures var y := if at < 0 then a else a[at + |f|..];
      forall k: nat :: !OccursAt(y, f, k)
  {
    hide OccursAt, LastAt;
    var start: nat := if at < 0 then 0 else at + |f|;
    assert a[start..] == if at < 0 then a else a[at + |f|..];
    forall k: nat ensures !OccursAt(a[start..], f, k) {
      if OccursAt(a[start..], f, k) {
        OccursInRest(a, t, f, start, k);
      }
    }
  }

  /** The part before the changed text is still to be searched, and f cannot reach into the changed text. */
  lemma {:induction false} GoodPrefix(a: seq<byte>, t: seq<byte>, f: seq<byte>, r: seq<byte>)
    requires f != [] && |f| < |r| && NoBadSuffix(f, r) && Clean(f, t)
    ensures ReplaceBackwards(a + t, f, r, |a| - 1) == ReplaceAll(a, f, r) + t
    decreases |a|
  {
    hide ReplaceAll, LastAt, OccursAt, Unbordered, Clean;
    hide ReplaceBackwards;
    var s := a + t;
    var at := LastAt(s, f, |a| - 1);
    BackwardsStep(s, f, r, |a| - 1);
    if at < 0 {
      NoneAfter(a, t, f, at);
      ReplaceNothing(a, f, r);
    } else {
      StaysInside(a, t, f, at);
      NoneAfter(a, t, f, at);
      var x, y := a[..at], a[at + |f|..];
      OccursMeans(a, f, at);
      ReplaceAround(x, f, y, r);
      ReplaceNothing(y, f, r);
      var rest := r + y + t;
      CleanStart(f, r, y + t);
      assert rest == r + (y + t);
      GoodPrefix(x, rest, f, r);
      assert s[..at] + r + s[at + |f|..] == x + rest;
      var before := ReplaceAll(x, f, r);
      assert before + rest == before + r + y + t;
    }
  }

  lemma OccursMeans(a: seq<byte>, f: seq<byte>, at: nat)
    requires OccursAt(a, f, at)
    ensures a == a[..at] + f + a[at + |f|..]
  {}

  lemma CleanStart(f: seq<byte>, r: seq<byte>, t: seq<byte>)
    requires Clean(f, r) && |f| < |r|
    ensures Clean(f, r + t)
  {
    forall k | 1 <= k < |f| ensures !StartsWith(r + t, Suffix(f, k)) {
      assert !StartsWith(r, Suffix(f, k));
      assert (r + t)[..k] == r[..k];
    }
  }

  lemma GoodIsReplaceAll(s: seq<byte>, f: seq<byte>, r: seq<byte>)
    requires f != [] && |f| < |r| && NoBadSuffix(f, r)
    ensures ReplaceBackwards(s, f, r, |s| - 1) == ReplaceAll(s, f, r)
  {
    hide ReplaceAll, ReplaceBackwards;
    assert s + [] == s;
    GoodPrefix(s, [], f, r);
    assert ReplaceAll(s, f, r) + [] == ReplaceAll(s, f, r);
  }

  // -------- the length alone --------

  ghost predicate Absent(s: seq<byte>, f: seq<byte>) {
    forall k: nat :: !OccursAt(s, f, k)
  }

  ghost predicate IsLast(s: seq<byte>, f: seq<byte>, at: nat) {
    OccursAt(s, f, at) && forall k: nat :: at < k ==> !OccursAt(s, f, k)
  }

  lemma DropOccurs(s: seq<byte>, f: seq<byte>, n: nat, k: nat)
    requires n <= |s|
    ensures OccursAt(s[n..], f, k) <==> OccursAt(s, f, n + k)
  {
    if n + k + |f| <= |s| {
      assert s[n..][k..k + |f|] == s[n + k..n + k + |f|];
    }
  }

  lemma DropLast(s: seq<byte>, f: seq<byte>, at: nat, n: nat)
    requires IsLast(s, f, at) && n <= at <= |s|
    ensures IsLast(s[n..], f, at - n) && s[n..][..at - n] == s[..at][n..]
  {
    hide OccursAt;
    forall k: nat ensures OccursAt(s[n..], f, k) <==> OccursAt(s, f, n + k) {
      DropOccurs(s, f, n, k);
    }
  }

  // behind the start of the last occurrence nothing is replaced
  lemma NothingBehind(s: seq<byte>, f: seq<byte>, r: seq<byte>, at: nat, n: nat)
    requires f != [] && IsLast(s, f, at) && at < n <= |s|
    ensures ReplaceAll(s[n..], f, r) == s[n..]
  {
    hide OccursAt;
    forall k: nat ensures !OccursAt(s[n..], f, k) {
      DropOccurs(s, f, n, k);
    }
    ReplaceNothing(s[n..], f, r);
  }

  lemma ShortIsKept(s: seq<byte>, f: seq<byte>, r: seq<byte>)
    requires |s| < |f|
    ensures ReplaceAll(s, f, r) == s
  {
    ReplaceNothing(s, f, r);
  }

  lemma StartOf(s: seq<byte>, f: seq<byte>, at: nat)
    requires OccursAt(s, f, at)
    ensures at + |f| <= |s|
    ensures OccursAt(s[..at], f, 0) <==> |f| <= at && OccursAt(s, f, 0)
    ensures OccursAt(s, f, 0) <==> FirstAt(s, f, 0)
    ensures OccursAt(s[..at], f, 0) <==> FirstAt(s[..at], f, 0)
  {
    if |f| <= at {
      assert s[..at][0..|f|] == s[0..|f|];
    }
  }

  /** The last occurrence adds one to those replaced before it: it is replaced itself, or overlaps one that is. */
  lemma {:induction false} LastAdds(s: seq<byte>, f: seq<byte>, r: seq<byte>, at: nat)
    requires f != [] && IsLast(s, f, at)
    ensures at + |f| <= |s| && |ReplaceAll(s, f, r)| == |ReplaceAll(s[..at], f, r)| + |r| + |s| - |f| - at
    decreases at
  {
    hide OccursAt, ReplaceAll, FirstAt;
    StartOf(s, f, at);
    ReplaceUnfolds(s, f, r);
    if at == 0 {
      NothingReplaced(f, r);
      NothingBehind(s, f, r, at, |f|);
    } else {
      ReplaceUnfolds(s[..at], f, r);
      if !OccursAt(s, f, 0) {
        DropLast(s, f, at, 1);
        LastAdds(s[1..], f, r, at - 1);
      } else if |f| <= at {
        DropLast(s, f, at, |f|);
        LastAdds(s[|f|..], f, r, at - |f|);
      } else {
        NothingBehind(s, f, r, at, |f|);
        ShortIsKept(s[..at], f, r);
      }
    }
  }

  /** When f cannot reach into r, both directions replace equally often. */
  lemma {:induction false} CleanPrefix(a: seq<byte>, t: seq<byte>, f: seq<byte>, r: seq<byte>)
    requires f != [] && |f| < |r| && Clean(f, r) && Clean(f, t)
    ensures |ReplaceBackwards(a + t, f, r, |a| - 1)| == |ReplaceAll(a, f, r)| + |t|
    decreases |a|
  {
    hide ReplaceAll, LastAt, OccursAt, Clean, ReplaceBackwards;
    var s := a + t;
    var at := LastAt(s, f, |a| - 1);
    BackwardsStep(s, f, r, |a| - 1);
    if at < 0 {
      NoneAfter(a, t, f, at);
      ReplaceNothing(a, f, r);
    } else {
      StaysInside(a, t, f, at);
      LastInside(a, t, f, at);
      LastAdds(a, f, r, at);
      var x, rest := a[..at], r + (a[at + |f|..] + t);
      CleanStart(f, r, a[at + |f|..] + t);
      CleanPrefix(x, rest, f, r);
      assert s[..at] + r + s[at + |f|..] == x + rest;
    }
  }

  lemma LastInside(a: seq<byte>, t: seq<byte>, f: seq<byte>, at: nat)
    requires f != [] && at == LastAt(a + t, f, |a| - 1) && OccursAt(a, f, at)
    ensures IsLast(a, f, at)
  {
    hide LastAt;
    forall k: nat ensures OccursAt(a, f, k) ==> k < |a| && OccursAt(a + t, f, k) {
      OccursInLonger(a, t, f, k);
    }
    hide OccursAt;
  }

  lemma OccursInLonger(a: seq<byte>, t: seq<byte>, f: seq<byte>, k: nat)
    requires f != []
    ensures OccursAt(a, f, k) ==> k < |a| && OccursAt(a + t, f, k)
  {
    if k + |f| <= |a| {
      assert (a + t)[k..k + |f|] == a[k..k + |f|];
    }
  }

  lemma CleanKeepsLength(s: seq<byte>, f: seq<byte>, r: seq<byte>)
    requires f != [] && |f| < |r|
    ensures Clean(f, r) ==> |ReplaceBackwards(s, f, r, |s| - 1)| == |ReplaceAll(s, f, r)|
  {
    hide ReplaceAll, ReplaceBackwards;
    if Clean(f, r) {
      assert s + [] == s;
      CleanPrefix(s, [], f, r);
    }
  }

  // the last place f can occur at is found first
  lemma FindsEnd(s: seq<byte>, f: seq<byte>, p: nat)
    requires f != [] && p + |f| == |s| && OccursAt(s, f, p)
    ensures LastAt(s, f, |s| - 1) == p
  {
    var at := LastAt(s, f, |s| - 1);
    assert at >= p;
  }

  lemma ReplacesEnd(s: seq<byte>, f: seq<byte>, r: seq<byte>, p: nat)
    requires f != [] && |f| < |r| && p + |f| == |s| && OccursAt(s, f, p)
    ensures ReplaceBackwards(s, f, r, |s| - 1) == ReplaceBackwards(s[..p] + r, f, r, p - 1)
  {
    FindsEnd(s, f, p);
    assert s[..p] + r + s[p + |f|..] == s[..p] + r;
  }

  // f behind a start of f that r completes again: f is replaced once from the front, and at least twice from the end
  lemma CompletedGrows(pad: seq<byte>, f: seq<byte>, r: seq<byte>, k: nat)
    requires 1 <= k < |f| < |r| && StartsWith(r, Suffix(f, k))
    requires Absent(pad + f[..|f| - k], f)
    ensures var s := pad + f[..|f| - k] + f;
      && |ReplaceAll(s, f, r)| == |pad| + |f| - k + |r|
      && |ReplaceAll(s, f, r)| + |r| - |f| <= |ReplaceBackwards(s, f, r, |s| - 1)|
  {
    hide ReplaceAll, ReplaceBackwards, OccursAt, LastAt, StartsWith;
    var start := pad + f[..|f| - k];
    var s, t, p := start + f, start + r, |start|;
    AtEnd(start, f);
    assert s[..p] == start;
    // from the front
    LastAdds(s, f, r, p);
    ReplaceNothing(start, f, r);
    // from the end
    ReplacesEnd(s, f, r, p);
    CompletedOccurs(pad, f, r, k);
    BackwardsStep(t, f, r, p - 1);
    OccursUpTo(t, f, |pad|, p - 1);
  }

  lemma AtEnd(a: seq<byte>, f: seq<byte>)
    requires f != []
    ensures IsLast(a + f, f, |a|)
  {
    assert (a + f)[|a|..|a| + |f|] == f;
  }

  lemma CompletedOccurs(pad: seq<byte>, f: seq<byte>, r: seq<byte>, k: nat)
    requires 1 <= k < |f| && StartsWith(r, Suffix(f, k))
    ensures OccursAt(pad + f[..|f| - k] + r, f, |pad|)
  {
    var t := pad + f[..|f| - k] + r;
    assert t[|pad|..|pad| + |f|] == f[..|f| - k] + r[..k] == f;
  }

  lemma OccursUpTo(t: seq<byte>, f: seq<byte>, i: nat, bound: nat)
    requires OccursAt(t, f, i) && i <= bound
    ensures LastAt(t, f, bound) >= 0
  {}

  // a byte other than NUL that f does not end with
  function PadByte(f: seq<byte>): (b: byte)
    requires f != []
    ensures b != 0 && b != f[|f| - 1]
  {
    if f[|f| - 1] == 1 then 2 else 1
  }

  function Padding(f: seq<byte>, n: nat): (s: seq<byte>)
    requires f != []
    ensures |s| == n && NulFree(s)
  {
    seq(n, i => PadByte(f))
  }

  // a string of copies of b and then its own start holds nothing but b
  lemma {:induction false} AllPad(f: seq<byte>, b: byte, e: nat, i: nat)
    requires e < |f| && i < |f| && f == seq(|f| - e, j => b) + f[..e]
    ensures f[i] == b
  {
    if i >= |f| - e {
      assert f[i] == f[..e][i - (|f| - e)];
      AllPad(f, b, e, i - (|f| - e));
    }
  }

  lemma NotInPadding(f: seq<byte>, n: nat, m: nat)
    requires m < |f|
    ensures Absent(Padding(f, n) + f[..m], f)
  {
    var s := Padding(f, n) + f[..m];
    if i: nat :| OccursAt(s, f, i) {
      var e := i + |f| - n;
      assert s[i..i + |f|][|f| - 1] == s[i + |f| - 1];
      assert e > 0;
      assert s[i..i + |f|] == seq(|f| - e, j => PadByte(f)) + f[..e];
      AllPad(f, PadByte(f), e, |f| - 1);
    }
  }

  lemma NotInStart(f: seq<byte>, m: nat)
    requires m < |f|
    ensures Absent([] + f[..m], f)
  {}

  // -------- bad strings: a text on which it does --------

  // a text with a period of p bytes
  lemma {:induction false} SamePeriod(t: seq<byte>, f: seq<byte>, p: nat, i: nat)
    requires 1 <= p <= |f| <= |t| && t[..p] == f[..p] && i < |f|
    requires forall j :: p <= j < |f| ==> t[j] == t[j - p] && f[j] == f[j - p]
    ensures t[i] == f[i]
  {
    if i < p {
      assert t[i] == t[..p][i] && f[i] == f[..p][i];
    } else {
      SamePeriod(t, f, p, i - p);
    }
  }

  // changing the last copy of f, whose period is p, brings f back at the start
  lemma PeriodicOccurs(f: seq<byte>, r: seq<byte>, p: nat)
    requires 1 <= p < |f| < |r| && f[p..] == f[..|f| - p] && f[..p] + r == r + f[|f| - p..]
    ensures OccursAt(f[..p] + r, f, 0)
  {
    var t := f[..p] + r;
    forall j | p <= j < |f| ensures t[j] == t[j - p] && f[j] == f[j - p] {
      assert t[j] == r[j - p] == (r + f[|f| - p..])[j - p];
      assert f[j] == f[p..][j - p] == f[..|f| - p][j - p];
    }
    assert t[..p] == f[..p];
    forall i | 0 <= i < |f| ensures t[i] == f[i] {
      SamePeriod(t, f, p, i);
    }
    assert t[0..|f|] == f;
  }

  lemma BorderTwice(f: seq<byte>, k: nat)
    requires 1 <= k < |f| && StartsWith(f, Suffix(f, k))
    ensures var p, s := |f| - k, f + f[k..];
      && |s| == p + |f| && OccursAt(s, f, p) && FirstAt(s, f, 0)
      && s[..p] == f[..p] && s[|f|..] == f[k..] && f[p..] == f[..k]
    ensures forall i :: 0 <= i <= |f[k..]| ==> !OccursAt(f[k..], f, i)
  {
    var p, s := |f| - k, f + f[k..];
    assert s[p..] == Suffix(f, k) + f[k..] == f;
    assert s[p..p + |f|] == f && s[0..|f|] == f;
  }

  // f with a border of k bytes, in two copies that overlap by them
  lemma BorderedDiffers(f: seq<byte>, r: seq<byte>, k: nat)
    requires 1 <= k < |f| < |r| && StartsWith(f, Suffix(f, k))
    ensures var s := f + f[k..];
      ReplaceBackwards(s, f, r, |s| - 1) != ReplaceAll(s, f, r)
  {
    hide ReplaceAll, ReplaceBackwards, OccursAt, FirstAt, LastAt;
    var p, s := |f| - k, f + f[k..];
    var t, forwards := f[..p] + r, r + f[k..];
    BorderTwice(f, k);
    ReplacesEnd(s, f, r, p);
    // from the front
    ReplaceUnfolds(s, f, r);
    ReplaceNothing(f[k..], f, r);
    assert ReplaceAll(s, f, r) == forwards;
    // from the end: different, or replaced once more
    BackwardsStep(t, f, r, p - 1);
    if t == forwards {
      PeriodicOccurs(f, r, p);
      OccursUpTo(t, f, 0, p - 1);
    }
  }

  // f behind a start of f that r completes again
  lemma CompletedDiffers(f: seq<byte>, r: seq<byte>, k: nat)
    requires 1 <= k < |f| < |r| && StartsWith(r, Suffix(f, k))
    ensures var s := f[..|f| - k] + f;
      ReplaceBackwards(s, f, r, |s| - 1) != ReplaceAll(s, f, r)
  {
    hide ReplaceAll, ReplaceBackwards, StartsWith;
    NotInStart(f, |f| - k);
    CompletedGrows([], f, r, k);
    assert [] + f[..|f| - k] == f[..|f| - k];
  }

  // a text on which the two differ
  lemma BadDiffers(f: seq<byte>, r: seq<byte>) returns (s: seq<byte>)
    requires f != [] && |f| < |r| && !NoBadSuffix(f, r)
    ensures NulFree(f) ==> NulFree(s)
    ensures ReplaceBackwards(s, f, r, |s| - 1) != ReplaceAll(s, f, r)
  {
    hide ReplaceAll, ReplaceBackwards, StartsWith;
    if !Unbordered(f) {
      var k :| 1 <= k < |f| && StartsWith(f, Suffix(f, k));
      s := f + f[k..];
      BorderedDiffers(f, r, k);
    } else {
      var k :| 1 <= k < |f| && StartsWith(r, Suffix(f, k));
      s := f[..|f| - k] + f;
      CompletedDiffers(f, r, k);
    }
  }

  /** What replace computes: the growing case works from the end. */
  function Replaced(s: seq<byte>, f: seq<byte>, r: seq<byte>): seq<byte> {
    if s == [] || f == [] then s
    else if |r| <= |f| then ReplaceAll(s, f, r)
    else ReplaceBackwards(s, f, r, |s| - 1)
  }

  lemma ReplacedIsReplaceAll(s: seq<byte>, f: seq<byte>, r: seq<byte>)
    requires f != [] && (|r| <= |f| || NoBadSuffix(f, r))
    ensures Replaced(s, f, r) == ReplaceAll(s, f, r)
    ensures s != [] && |f| < |r| ==> ReplaceBackwards(s, f, r, |s| - 1) == ReplaceAll(s, f, r)
  {
    if s != [] && |f| < |r| {
      GoodIsReplaceAll(s, f, r);
    }
  }

  /** A search string of one character is always replaced from the front. */
  lemma OneByteIsReplaced(s: seq<byte>, f: seq<byte>, r: seq<byte>)
    requires |f| == 1
    ensures Replaced(s, f, r) == ReplaceAll(s, f, r)
  {
    ReplacedIsReplaceAll(s, f, r);
  }

  /**
    * replace computes the leftmost replacement of every text without NUL exactly when it does not grow the text, or
    * no end of the search string but itself is a start of the search or the replacement string.
    */
  lemma ReplacesLeftmostExactly(f: seq<byte>, r: seq<byte>)
    requires f != [] && NulFree(f) && NulFree(r)
    ensures (|r| <= |f| || NoBadSuffix(f, r)) <==>
      forall s :: NulFree(s) ==> Replaced(s, f, r) == ReplaceAll(s, f, r)
  {
    hide ReplaceAll, ReplaceBackwards, NoBadSuffix, NulFree, Replaced;
    if |r| <= |f| || NoBadSuffix(f, r) {
      forall s | NulFree(s) ensures Replaced(s, f, r) == ReplaceAll(s, f, r) {
        ReplacedIsReplaceAll(s, f, r);
      }
    } else {
      var s := BadDiffers(f, r);
      NotEmpty(s, f, r);
      assert !(NulFree(s) ==> Replaced(s, f, r) == ReplaceAll(s, f, r));
    }
  }

  lemma NotEmpty(s: seq<byte>, f: seq<byte>, r: seq<byte>)
    requires f != [] && |f| < |r| && ReplaceBackwards(s, f, r, |s| - 1) != ReplaceAll(s, f, r)
    ensures Replaced(s, f, r) == ReplaceBackwards(s, f, r, |s| - 1)
  {}

  // -------- staying inside the buffer --------

  /**
    * The growing loop never makes the text longer than the size that was counted exactly when no end of the search
    * string but itself is a start of the replacement string.
    */
  lemma NeverOutgrowsExactly(f: seq<byte>, r: seq<byte>)
    requires f != [] && |f| < |r| && NulFree(f)
    ensures Clean(f, r) <==>
      forall s :: NulFree(s) ==> |ReplaceBackwards(s, f, r, |s| - 1)| <= |ReplaceAll(s, f, r)|
  {
    hide ReplaceAll, ReplaceBackwards, StartsWith;
    if Clean(f, r) {
      hide Clean;
      forall s | NulFree(s) ensures |ReplaceBackwards(s, f, r, |s| - 1)| <= |ReplaceAll(s, f, r)| {
        CleanKeepsLength(s, f, r);
      }
    } else {
      var k :| 1 <= k < |f| && StartsWith(r, Suffix(f, k));
      NotInStart(f, |f| - k);
      CompletedGrows([], f, r, k);
      var s := [] + f[..|f| - k] + f;
      assert NulFree(s);
    }
  }

  /** The length a buffer has room for when it is made for n characters: a multiple of 16 bytes, with the NUL. */
  function Room(n: nat): (c: nat)
    ensures n <= c < n + 16 && (c + 1) % 16 == 0
  {
    (n + 16) / 16 * 16 - 1
  }

  lemma RoomIs(n: nat)
    requires (n + 1) % 16 == 0
    ensures Room(n) == n
  {}

  // padding that leaves no room beyond n characters
  lemma TightPadding(n: nat) returns (m: nat)
    ensures Room(m + n) == m + n
  {
    m := 15 * n + 15;
    assert m + n + 1 == 16 * (n + 1);
    RoomIs(m + n);
  }

  /** So does the buffer made for that size, which is rounded up: some text fills it. */
  lemma StaysInBufferExactly(f: seq<byte>, r: seq<byte>)
    requires f != [] && |f| < |r| && NulFree(f)
    ensures Clean(f, r) <==>
      forall s :: NulFree(s) ==> |ReplaceBackwards(s, f, r, |s| - 1)| <= Room(|ReplaceAll(s, f, r)|)
  {
    hide ReplaceAll, ReplaceBackwards, StartsWith, OccursAt, Room;
    if Clean(f, r) {
      hide Clean;
      forall s | NulFree(s) ensures |ReplaceBackwards(s, f, r, |s| - 1)| <= Room(|ReplaceAll(s, f, r)|) {
        CleanKeepsLength(s, f, r);
      }
    } else {
      var k :| 1 <= k < |f| && StartsWith(r, Suffix(f, k));
      var n := TightPadding(|f| - k + |r|);
      var pad := Padding(f, n);
      NotInPadding(f, n, |f| - k);
      CompletedGrows(pad, f, r, k);
      var s := pad + f[..|f| - k] + f;
      assert NulFree(s);
    }
  }
}
