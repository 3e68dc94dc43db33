/** The overlap check on the address and file pairs given to esptool's flash
    commands (AddrFilenamePairAction). */
module FlashSectors {
  import opened Bytes
  import StableSort

  const SECTOR: int := 0x1000

  // an address and the size of the file to write there
  datatype Pair = Pair(address: int, size: nat)

  datatype Problem =
    | Overlap(address: int)
    | NotComparable           // two pairs with one address: sorting compares the file objects

  // address & ~(FLASH_SECTOR_SIZE - 1)
  function SectorStart(p: Pair): (s: int)
    ensures s % SECTOR == 0 && s <= p.address < s + SECTOR
  {
    p.address - p.address % SECTOR
  }

  // last byte of the last sector written, one before the address for an empty file on a sector boundary
  function SectorEnd(p: Pair): (e: int)
    ensures (e + 1) % SECTOR == 0 && e + 1 - SECTOR < p.address + p.size <= e + 1
  {
    var a := p.address + p.size + SECTOR - 1;
    a - a % SECTOR - 1
  }

  function Address(p: Pair): int {
    p.address
  }

  // sorted(pairs), for distinct addresses
  function Sort(ps: seq<Pair>): seq<Pair> {
    StableSort.Sort(Address, ps)
  }

  predicate DistinctAddresses(ps: seq<Pair>) {
    forall i, j :: 0 <= i < j < |ps| ==> ps[i].address != ps[j].address
  }

  predicate Sorted(ps: seq<Pair>) {
    StableSort.Sorted(Address, ps)
  }

  lemma SortFacts(ps: seq<Pair>)
    ensures Sorted(Sort(ps)) && multiset(Sort(ps)) == multiset(ps)
  {
    StableSort.SortFacts(Address, ps);
  }

  // q, at a higher address, starts in a sector after the last one of p
  predicate Clear(p: Pair, q: Pair) {
    p.address < q.address ==> SectorEnd(p) < SectorStart(q)
  }

  /** What the check accepts: distinct addresses, none below zero, and every file
      ending in an earlier sector than any file at a higher address starts in. */
  predicate Acceptable(ps: seq<Pair>) {
    && DistinctAddresses(ps)
    && (forall p :: p in ps ==> p.address >= 0)
    && forall p, q :: p in ps && q in ps ==> Clear(p, q)
  }

  // what the loop has checked of the first n pairs in order
  predicate ChainUpTo(s: seq<Pair>, n: nat)
    requires n <= |s|
  {
    && (n > 0 ==> SectorStart(s[0]) >= 0)
    && forall i :: 0 < i < n ==> SectorStart(s[i]) >= SectorEnd(s[i - 1])
  }

  lemma NeighboursClear(p: Pair, q: Pair)
    requires p.address < q.address
    ensures SectorStart(q) >= SectorEnd(p) <==> SectorEnd(p) < SectorStart(q)
  {
    assert (SectorStart(q) - SectorEnd(p) - 1) % SECTOR == 0;
  }

  lemma {:induction false} ChainEnds(s: seq<Pair>, i: nat, j: nat)
    requires Sorted(s) && DistinctAddresses(s) && ChainUpTo(s, |s|) && i < j < |s|
    ensures SectorEnd(s[i]) < SectorStart(s[j])
    decreases j - i
  {
    NeighboursClear(s[j - 1], s[j]);
    if i < j - 1 {
      ChainEnds(s, i, j - 1);
      assert s[j - 1].address <= s[j].address;
      assert SectorStart(s[j - 1]) <= SectorStart(s[j]);
    }
  }

  lemma DistinctSorted(ps: seq<Pair>)
    ensures DistinctAddresses(Sort(ps)) == DistinctAddresses(ps)
  {
    SortFacts(ps);
    DistinctByCount(ps);
    DistinctByCount(Sort(ps));
  }

  ghost predicate OncePerAddress(m: multiset<Pair>) {
    && (forall p :: p in m ==> m[p] == 1)
    && forall p, q :: p in m && q in m && p.address == q.address ==> p == q
  }

  lemma DistinctByCount(ps: seq<Pair>)
    ensures DistinctAddresses(ps) <==> OncePerAddress(multiset(ps))
  {
    if DistinctAddresses(ps) {
      forall p | p in multiset(ps) ensures multiset(ps)[p] == 1 {
        CountOne(ps, p);
      }
    }
    if OncePerAddress(multiset(ps)) {
      forall i, j | 0 <= i < j < |ps| ensures ps[i].address != ps[j].address {
        if ps[i] == ps[j] {
          CountTwo(ps, i, j);
        }
        assert ps[i] in multiset(ps) && ps[j] in multiset(ps);
      }
    }
  }

  lemma CountOne(ps: seq<Pair>, p: Pair)
    requires DistinctAddresses(ps) && p in ps
    ensures multiset(ps)[p] == 1
  {
    var i :| 0 <= i < |ps| && ps[i] == p;
    assert ps == ps[..i] + [p] + ps[i + 1..];
    assert p !in ps[..i] && p !in ps[i + 1..];
  }

  lemma CountTwo(ps: seq<Pair>, i: nat, j: nat)
    requires i < j < |ps| && ps[i] == ps[j]
    ensures multiset(ps)[ps[i]] >= 2
  {
    assert ps == ps[..j] + [ps[j]] + ps[j + 1..];
    assert ps[i] in ps[..j];
  }

  lemma SortedAcceptable(ps: seq<Pair>)
    ensures Acceptable(ps) <==> Acceptable(Sort(ps))
  {
    SortFacts(ps);
    DistinctSorted(ps);
    assert forall p :: p in ps <==> p in multiset(ps);
    assert forall p :: p in Sort(ps) <==> p in multiset(Sort(ps));
  }

  /** Comparing neighbours against an inclusive end is enough: the loop gets
      through exactly when the pairs are acceptable. */
  lemma ChainIsAcceptable(s: seq<Pair>)
    requires Sorted(s) && DistinctAddresses(s)
    ensures ChainUpTo(s, |s|) <==> Acceptable(s)
  {
    if ChainUpTo(s, |s|) {
      forall p | p in s ensures p.address >= 0 {
        var i :| 0 <= i < |s| && s[i] == p;
        assert s[0].address <= s[i].address;
      }
      forall p, q | p in s && q in s && p.address < q.address ensures SectorEnd(p) < SectorStart(q) {
        var i :| 0 <= i < |s| && s[i] == p;
        var j :| 0 <= j < |s| && s[j] == q;
        assert i < j;
        ChainEnds(s, i, j);
      }
    }
    if Acceptable(s) {
      forall i | 0 < i < |s| ensures SectorStart(s[i]) >= SectorEnd(s[i - 1]) {
        assert s[i - 1].address < s[i].address;
        assert Clear(s[i - 1], s[i]);
      }
      if s != [] {
        assert s[0] in s;
      }
    }
  }

  // a is below zero or clashes with a lower address, and no lower address does
  ghost predicate FirstClash(ps: seq<Pair>, a: int) {
    && (exists q :: q in ps && q.address == a && (a < 0 || exists p :: p in ps && p.address < a && !Clear(p, q)))
    && forall p, q :: p in ps && q in ps && q.address < a ==> q.address >= 0 && Clear(p, q)
  }

  lemma ClashAt(s: seq<Pair>, i: nat)
    requires Sorted(s) && DistinctAddresses(s) && i < |s| && ChainUpTo(s, i)
    requires SectorStart(s[i]) < if i == 0 then 0 else SectorEnd(s[i - 1])
    ensures FirstClash(s, s[i].address)
  {
    var a := s[i].address;
    if i > 0 {
      NeighboursClear(s[i - 1], s[i]);
      assert s[i - 1] in s && !Clear(s[i - 1], s[i]);
    }
    forall p, q | p in s && q in s && q.address < a ensures q.address >= 0 && Clear(p, q) {
      var k :| 0 <= k < |s| && s[k] == q;
      assert k < i;
      LowerIsClear(s, i, p, k);
    }
  }

  // the pairs that the loop is through with
  lemma LowerIsClear(s: seq<Pair>, i: nat, p: Pair, k: nat)
    requires Sorted(s) && DistinctAddresses(s) && k < i <= |s| && ChainUpTo(s, i) && p in s
    ensures s[k].address >= 0 && Clear(p, s[k])
  {
    var low := s[..i];
    assert ChainUpTo(low, |low|);
    ChainIsAcceptable(low);
    assert low[k] == s[k];
    if p.address < s[k].address {
      var j :| 0 <= j < |s| && s[j] == p;
      assert j < k && low[j] == p;
    }
  }

  lemma SameMembers(s: seq<Pair>, ps: seq<Pair>, a: int)
    requires multiset(s) == multiset(ps) && FirstClash(s, a)
    ensures FirstClash(ps, a)
  {
    assert forall p :: p in s <==> p in multiset(s);
    assert forall p :: p in ps <==> p in multiset(ps);
  }

  /** The check of AddrFilenamePairAction. */
  method Check(pairs: seq<Pair>) returns (problem: Option<Problem>)
    ensures problem == None <==> Acceptable(pairs)
    ensures problem == Some(NotComparable) <==> !DistinctAddresses(pairs)
    ensures problem.Some? && problem.value.Overlap? ==> FirstClash(pairs, problem.value.address)
  {
    if !DistinctAddresses(pairs) {
      return Some(NotComparable);
    }
    var sorted := Sort(pairs);
    SortFacts(pairs);
    DistinctSorted(pairs);
    SortedAcceptable(pairs);
    ChainIsAcceptable(sorted);
    var end := 0;
    for i := 0 to |sorted|
      invariant ChainUpTo(sorted, i)
      invariant end == if i == 0 then 0 else SectorEnd(sorted[i - 1])
    {
      if SectorStart(sorted[i]) < end {
        ClashAt(sorted, i);
        SameMembers(sorted, pairs, sorted[i].address);
        return Some(Overlap(sorted[i].address));
      }
      end := SectorEnd(sorted[i]);
    }
    problem := None;
  }

  // the sectors a file occupies
  predicate Occupies(p: Pair, a: int) {
    SectorStart(p) <= a <= SectorEnd(p)
  }

  ghost predicate FootprintsDisjoint(ps: seq<Pair>) {
    forall i, j, a :: 0 <= i < j < |ps| && Occupies(ps[i], a) ==> !Occupies(ps[j], a)
  }

  /** An accepted list never lets two files share a sector... */
  lemma AcceptedAreDisjoint(ps: seq<Pair>)
    requires Acceptable(ps)
    ensures FootprintsDisjoint(ps)
  {
    forall i, j, a | 0 <= i < j < |ps| && Occupies(ps[i], a) ensures !Occupies(ps[j], a) {
      assert Clear(ps[i], ps[j]) && Clear(ps[j], ps[i]);
    }
  }

  // an empty file at the start of a sector, which it does not occupy
  predicate IsMark(q: Pair) {
    q.size == 0 && q.address % SECTOR == 0
  }

  /** ...and for files at distinct non-negative addresses the check accepts exactly
      the lists whose sector footprints are disjoint and in which no lower file
      reaches an empty file at the start of a sector. */
  lemma AcceptsExactlyDisjoint(ps: seq<Pair>)
    requires DistinctAddresses(ps) && forall p :: p in ps ==> p.address >= 0
    ensures Acceptable(ps) <==>
      && FootprintsDisjoint(ps)
      && forall p, q :: p in ps && q in ps && p.address < q.address && IsMark(q) ==> SectorEnd(p) < q.address
  {
    if Acceptable(ps) {
      AcceptedAreDisjoint(ps);
      forall p, q | p in ps && q in ps && p.address < q.address && IsMark(q) ensures SectorEnd(p) < q.address {
        assert Clear(p, q);
      }
    }
    if FootprintsDisjoint(ps)
      && forall p, q :: p in ps && q in ps && p.address < q.address && IsMark(q) ==> SectorEnd(p) < q.address {
      forall p, q | p in ps && q in ps && p.address < q.address ensures SectorEnd(p) < SectorStart(q) {
        var i :| 0 <= i < |ps| && ps[i] == p;
        var j :| 0 <= j < |ps| && ps[j] == q;
        SharedSector(p, q);
        if !IsMark(q) {
          assert Occupies(ps[j], SectorStart(q));
          assert !Occupies(ps[i], SectorStart(q));
        }
      }
    }
  }

  // the start of the higher file's first sector is shared when the lower file reaches it
  lemma SharedSector(p: Pair, q: Pair)
    requires p.address < q.address
    ensures !IsMark(q) ==> Occupies(q, SectorStart(q))
    ensures SectorStart(q) <= SectorEnd(p) ==> Occupies(p, SectorStart(q))
  {}

  /** An empty file inside the sectors of another is refused although it shares
      none with it. */
  lemma EmptyFileRefused()
    ensures var ps := [Pair(0, 0x2000), Pair(0x1000, 0)];
            FootprintsDisjoint(ps) && !Acceptable(ps)
  {
    var ps := [Pair(0, 0x2000), Pair(0x1000, 0)];
    assert SectorEnd(ps[0]) == 0x1FFF && SectorStart(ps[1]) == 0x1000 && SectorEnd(ps[1]) == 0xFFF;
    assert ps[0] in ps && ps[1] in ps;
    assert !Clear(ps[0], ps[1]);
  }
}
