/**
 Address-ordered lists of free extents, as values.

 Both free lists of kernel/memory.c are lists of this kind: the block list counts
 bytes, the page list counts pages.  The in-memory representation is in FreeList.dfy.
 */
module Extents {

  /** The cells start, start + 1, ..., start + size - 1. */
  datatype Extent = Extent(start: int, size: int) {
    function End(): int { start + size }

    predicate Holds(x: int) { start <= x < End() }
  }

  ghost function Span(e: Extent): iset<int> {
    iset x: int | e.Holds(x)
  }

  ghost predicate Covers(l: seq<Extent>, x: int) {
    exists i :: 0 <= i < |l| && l[i].Holds(x)
  }

  /** The set of cells a list stands for. */
  ghost function Cells(l: seq<Extent>): iset<int> {
    iset x: int | Covers(l, x)
  }

  /** What the loops of show_memory add up. */
  function Total(l: seq<Extent>): int {
    if l == [] then 0 else l[0].size + Total(l[1..])
  }

  /** Strictly ascending, non-empty, non-overlapping and fully coalesced: between two
      neighbours there is always at least one cell that is not free. */
  ghost predicate Canonical(l: seq<Extent>) {
    && (forall i :: 0 <= i < |l| ==> 0 < l[i].start && 0 < l[i].size)
    && (forall i, j :: 0 <= i < j < |l| ==> l[i].End() < l[j].start)
  }

  // ---------------------------------------------------------------- concatenation

  lemma CoversConcat(l: seq<Extent>, r: seq<Extent>, x: int)
    ensures Covers(l + r, x) <==> Covers(l, x) || Covers(r, x)
  {
    if Covers(l, x) {
      var i :| 0 <= i < |l| && l[i].Holds(x);
      assert (l + r)[i].Holds(x);
    }
    if Covers(r, x) {
      var i :| 0 <= i < |r| && r[i].Holds(x);
      assert (l + r)[|l| + i].Holds(x);
    }
  }

  lemma CoversSplice(l: seq<Extent>, e: Extent, r: seq<Extent>, x: int)
    ensures Covers(l + [e] + r, x) <==> Covers(l, x) || e.Holds(x) || Covers(r, x)
  {
    CoversConcat(l + [e], r, x);
    CoversConcat(l, [e], x);
    assert [e][0] == e;
  }

  lemma CanonicalConcat(l: seq<Extent>, r: seq<Extent>)
    requires Canonical(l) && Canonical(r)
    requires l != [] && r != [] ==> l[|l| - 1].End() < r[0].start
    ensures Canonical(l + r)
  {
    var s := l + r;
    forall i, j | 0 <= i < j < |s|
      ensures s[i].End() < s[j].start
    {
      if i < |l| <= j {
        assert l[i].End() <= l[|l| - 1].End();
        assert r[0].start <= r[j - |l|].start;
      }
    }
  }

  lemma CanonicalSplice(l: seq<Extent>, e: Extent, r: seq<Extent>)
    requires Canonical(l) && Canonical(r) && 0 < e.start && 0 < e.size
    requires l != [] ==> l[|l| - 1].End() < e.start
    requires r != [] ==> e.End() < r[0].start
    ensures Canonical(l + [e] + r)
  {
    CanonicalConcat(l, [e]);
    CanonicalConcat(l + [e], r);
  }

  lemma {:induction false} TotalConcat(l: seq<Extent>, r: seq<Extent>)
    ensures Total(l + r) == Total(l) + Total(r)
  {
    if l == [] {
      assert l + r == r;
    } else {
      assert (l + r)[1..] == l[1..] + r;
      TotalConcat(l[1..], r);
    }
  }

  lemma TotalSplice(l: seq<Extent>, e: Extent, r: seq<Extent>)
    ensures Total(l + [e] + r) == Total(l) + e.size + Total(r)
  {
    TotalConcat(l + [e], r);
    TotalConcat(l, [e]);
  }

  // ---------------------------------------------------------------- uniqueness

  lemma StartIsFree(l: seq<Extent>, i: nat)
    requires Canonical(l) && i < |l|
    ensures l[i].start in Cells(l)
  {
    assert l[i].Holds(l[i].start);
  }

  lemma EndIsNotFree(l: seq<Extent>, i: nat)
    requires Canonical(l) && i < |l|
    ensures l[i].End() !in Cells(l)
  {
  }

  lemma TailCells(l: seq<Extent>)
    requires Canonical(l) && l != []
    ensures Canonical(l[1..])
    ensures Cells(l[1..]) == Cells(l) - Span(l[0])
  {
    forall x: int
      ensures Covers(l[1..], x) <==> Covers(l, x) && !l[0].Holds(x)
    {
      assert l == [] + [l[0]] + l[1..];
      CoversSplice([], l[0], l[1..], x);
      if Covers(l[1..], x) {
        var i :| 0 <= i < |l[1..]| && l[1..][i].Holds(x);
        assert l[i + 1].Holds(x);
      }
    }
  }

  /** The first extent is fixed by the cell set: it starts at the least cell and ends at
      the first cell that is missing. */
  lemma FirstExtentDetermined(l: seq<Extent>, m: seq<Extent>)
    requires Canonical(l) && Canonical(m) && l != [] && m != []
    requires Cells(l) == Cells(m)
    ensures l[0].start >= m[0].start
    ensures l[0].start == m[0].start ==> l[0].size >= m[0].size
  {
    StartIsFree(l, 0);
    var i :| 0 <= i < |m| && m[i].Holds(l[0].start);
    EndIsNotFree(l, 0);
    assert !m[0].Holds(l[0].End());
  }

  /** A cell set has at most one canonical list. */
  lemma {:induction false} CanonicalUnique(l: seq<Extent>, m: seq<Extent>)
    requires Canonical(l) && Canonical(m)
    requires Cells(l) == Cells(m)
    ensures l == m
  {
    if l != [] { StartIsFree(l, 0); }
    if m != [] { StartIsFree(m, 0); }
    if l != [] && m != [] {
      FirstExtentDetermined(l, m);
      FirstExtentDetermined(m, l);
      TailCells(l);
      TailCells(m);
      CanonicalUnique(l[1..], m[1..]);
      assert l == [l[0]] + l[1..] && m == [m[0]] + m[1..];
    }
  }

  // ---------------------------------------------------------------- Algorithm B

  /** Where the B2 loops stop: the number of extents that start at or before a. */
  function Rank(l: seq<Extent>, a: int): (k: nat)
    ensures k <= |l|
    ensures forall i :: 0 <= i < k ==> l[i].start <= a
    ensures k < |l| ==> a < l[k].start
  {
    if l == [] || a < l[0].start then 0 else 1 + Rank(l[1..], a)
  }

  lemma RankUnique(l: seq<Extent>, a: int, k: nat)
    requires Canonical(l) && k <= |l|
    requires k > 0 ==> l[k - 1].start <= a
    requires k < |l| ==> a < l[k].start
    ensures k == Rank(l, a)
  {
  }

  predicate MergesUp(l: seq<Extent>, k: nat, a: int, n: int)
    requires k <= |l|
  {
    k < |l| && a + n == l[k].start
  }

  predicate MergesDown(l: seq<Extent>, k: nat, a: int)
    requires k <= |l|
  {
    k > 0 && l[k - 1].End() == a
  }

  /** Step B3: the new extent after it swallowed its upper neighbour ... */
  function UpSize(l: seq<Extent>, k: nat, a: int, n: int): int
    requires k <= |l|
  {
    if MergesUp(l, k, a, n) then n + l[k].size else n
  }

  /** ... and the extents that follow it then. */
  function UpRest(l: seq<Extent>, k: nat, a: int, n: int): seq<Extent>
    requires k <= |l|
  {
    if MergesUp(l, k, a, n) then l[k + 1..] else l[k..]
  }

  /** Steps B3 and B4: put a new extent between l[k - 1] and l[k], merging on both sides. */
  function InsertAt(l: seq<Extent>, k: nat, a: int, n: int): seq<Extent>
    requires k <= |l|
  {
    if MergesDown(l, k, a)
    then l[..k - 1] + [Extent(l[k - 1].start, l[k - 1].size + UpSize(l, k, a, n))] + UpRest(l, k, a, n)
    else l[..k] + [Extent(a, UpSize(l, k, a, n))] + UpRest(l, k, a, n)
  }

  function Insert(l: seq<Extent>, a: int, n: int): seq<Extent> {
    InsertAt(l, Rank(l, a), a, n)
  }

  ghost predicate Fresh(l: seq<Extent>, a: int, n: int) {
    forall x :: a <= x < a + n ==> !Covers(l, x)
  }

  lemma FreshNeighbours(l: seq<Extent>, a: int, n: int)
    requires Canonical(l) && 0 < n && Fresh(l, a, n)
    ensures var k := Rank(l, a);
            && (k > 0 ==> l[k - 1].End() <= a)
            && (k < |l| ==> a + n <= l[k].start)
  {
    var k := Rank(l, a);
    assert !Covers(l, a);
    assert k > 0 ==> !l[k - 1].Holds(a);
    if k < |l| {
      StartIsFree(l, k);
      assert !(a <= l[k].start < a + n);
    }
  }

  /** The new list is a prefix of the old one, one extent that takes in the new cells, and a
      suffix of the old one. */
  lemma InsertShape(l: seq<Extent>, a: int, n: int) returns (b: nat, e: Extent, t: nat)
    requires Canonical(l) && 0 < n
    ensures b <= t <= |l| && Insert(l, a, n) == l[..b] + [e] + l[t..]
    ensures n <= e.size
    ensures e.start == a || (b < |l| && e.start == l[b].start)
    ensures e.End() == a + n || (0 < t && e.End() == l[t - 1].End())
  {
    var k := Rank(l, a);
    b := if MergesDown(l, k, a) then k - 1 else k;
    t := if MergesUp(l, k, a, n) then k + 1 else k;
    e := if MergesDown(l, k, a) then Extent(l[k - 1].start, l[k - 1].size + UpSize(l, k, a, n))
         else Extent(a, UpSize(l, k, a, n));
  }

  lemma UpRestAbove(l: seq<Extent>, k: nat, a: int, n: int)
    requires Canonical(l) && k <= |l|
    requires k < |l| ==> a + n <= l[k].start
    ensures var rest := UpRest(l, k, a, n);
            Canonical(rest) && (rest != [] ==> a + UpSize(l, k, a, n) < rest[0].start)
    ensures 0 < n ==> 0 < UpSize(l, k, a, n)
  {
  }

  /** Keep l[..k], put e behind it, follow with the extents r. */
  lemma PrefixSplice(l: seq<Extent>, k: nat, e: Extent, r: seq<Extent>)
    requires Canonical(l) && Canonical(r) && k <= |l| && 0 < e.start && 0 < e.size
    requires k > 0 ==> l[k - 1].End() < e.start
    requires r != [] ==> e.End() < r[0].start
    ensures Canonical(l[..k] + [e] + r)
  {
    CanonicalSplice(l[..k], e, r);
  }

  lemma InsertAtCanonical(l: seq<Extent>, k: nat, a: int, n: int)
    requires Canonical(l) && 0 < a && 0 < n && k <= |l|
    requires k > 0 ==> l[k - 1].End() <= a
    requires k < |l| ==> a + n <= l[k].start
    ensures Canonical(InsertAt(l, k, a, n))
  {
    hide Canonical, UpSize, UpRest, MergesUp;
    UpRestAbove(l, k, a, n);
    var size, rest := UpSize(l, k, a, n), UpRest(l, k, a, n);
    if MergesDown(l, k, a) {
      CanonicalAt(l, k - 1);
      PrefixSplice(l, k - 1, Extent(l[k - 1].start, l[k - 1].size + size), rest);
    } else {
      PrefixSplice(l, k, Extent(a, size), rest);
    }
  }

  lemma CanonicalAt(l: seq<Extent>, k: nat)
    requires Canonical(l) && k < |l|
    ensures 0 < l[k].start && 0 < l[k].size && (k > 0 ==> l[k - 1].End() < l[k].start)
  {
  }

  lemma InsertCanonical(l: seq<Extent>, a: int, n: int)
    requires Canonical(l) && 0 < a && 0 < n && Fresh(l, a, n)
    ensures Canonical(Insert(l, a, n))
  {
    FreshNeighbours(l, a, n);
    InsertAtCanonical(l, Rank(l, a), a, n);
  }

  lemma UpCovers(l: seq<Extent>, k: nat, a: int, n: int, x: int)
    requires Canonical(l) && k <= |l| && 0 < n
    ensures a <= x < a + UpSize(l, k, a, n) || Covers(UpRest(l, k, a, n), x)
            <==> a <= x < a + n || Covers(l[k..], x)
  {
    if MergesUp(l, k, a, n) {
      CoversSplice([], l[k], l[k + 1..], x);
      assert [] + [l[k]] + l[k + 1..] == l[k..];
    }
  }

  lemma SplitCovers(l: seq<Extent>, k: nat, x: int)
    requires k <= |l|
    ensures Covers(l, x) <==> Covers(l[..k], x) || Covers(l[k..], x)
    ensures k > 0 ==> (Covers(l[..k], x) <==> Covers(l[..k - 1], x) || l[k - 1].Holds(x))
  {
    assert l == l[..k] + l[k..];
    CoversConcat(l[..k], l[k..], x);
    if k > 0 {
      assert l[..k] == l[..k - 1] + [l[k - 1]] + [];
      CoversSplice(l[..k - 1], l[k - 1], [], x);
    }
  }

  lemma InsertCovers(l: seq<Extent>, a: int, n: int, x: int)
    requires Canonical(l) && 0 < n
    ensures Covers(Insert(l, a, n), x) <==> Covers(l, x) || a <= x < a + n
  {
    var k := Rank(l, a);
    var size, rest := UpSize(l, k, a, n), UpRest(l, k, a, n);
    UpCovers(l, k, a, n, x);
    SplitCovers(l, k, x);
    if MergesDown(l, k, a) {
      CoversSplice(l[..k - 1], Extent(l[k - 1].start, l[k - 1].size + size), rest, x);
    } else {
      CoversSplice(l[..k], Extent(a, size), rest, x);
    }
  }

  lemma InsertCells(l: seq<Extent>, a: int, n: int)
    requires Canonical(l) && 0 < n
    ensures Cells(Insert(l, a, n)) == Cells(l) + Span(Extent(a, n))
  {
    forall x: int
      ensures x in Cells(Insert(l, a, n)) <==> x in Cells(l) + Span(Extent(a, n))
    {
      InsertCovers(l, a, n, x);
    }
  }

  lemma SplitTotal(l: seq<Extent>, k: nat)
    requires k <= |l|
    ensures Total(l) == Total(l[..k]) + Total(l[k..])
    ensures k > 0 ==> Total(l[..k]) == Total(l[..k - 1]) + l[k - 1].size
    ensures k < |l| ==> Total(l[k..]) == l[k].size + Total(l[k + 1..])
  {
    hide Total;
    TotalNone();
    assert l == l[..k] + l[k..];
    TotalConcat(l[..k], l[k..]);
    if k > 0 {
      assert l[..k] == l[..k - 1] + [l[k - 1]] + [];
      TotalSplice(l[..k - 1], l[k - 1], []);
    }
    if k < |l| {
      assert l[k..] == [] + [l[k]] + l[k + 1..];
      TotalSplice([], l[k], l[k + 1..]);
    }
  }

  lemma TotalNone()
    ensures Total([]) == 0
  {
  }

  lemma InsertTotal(l: seq<Extent>, a: int, n: int)
    ensures Total(Insert(l, a, n)) == Total(l) + n
  {
    var k := Rank(l, a);
    var size, rest := UpSize(l, k, a, n), UpRest(l, k, a, n);
    hide Total;
    SplitTotal(l, k);
    assert size + Total(rest) == n + Total(l[k..]);
    if MergesDown(l, k, a) {
      TotalSplice(l[..k - 1], Extent(l[k - 1].start, l[k - 1].size + size), rest);
    } else {
      TotalSplice(l[..k], Extent(a, size), rest);
    }
  }

  // ---------------------------------------------------------------- Algorithm A

  /** Give away the last n cells of extent i; an exhausted extent leaves the list. */
  function TakeEnd(l: seq<Extent>, i: nat, n: int): seq<Extent>
    requires i < |l|
  {
    if l[i].size == n
    then l[..i] + l[i + 1..]
    else l[..i] + [Extent(l[i].start, l[i].size - n)] + l[i + 1..]
  }

  lemma TakeEndCanonical(l: seq<Extent>, i: nat, n: int)
    requires Canonical(l) && i < |l| && 0 < n <= l[i].size
    ensures Canonical(TakeEnd(l, i, n))
  {
    if l[i].size == n {
      CanonicalConcat(l[..i], l[i + 1..]);
    } else {
      CanonicalSplice(l[..i], Extent(l[i].start, l[i].size - n), l[i + 1..]);
    }
  }

  lemma TakeEndTotal(l: seq<Extent>, i: nat, n: int)
    requires i < |l|
    ensures Total(TakeEnd(l, i, n)) == Total(l) - n
  {
    SplitTotal(l, i);
    if l[i].size == n {
      TotalConcat(l[..i], l[i + 1..]);
    } else {
      TotalSplice(l[..i], Extent(l[i].start, l[i].size - n), l[i + 1..]);
    }
  }

  lemma TakeEndCovers(l: seq<Extent>, i: nat, n: int, x: int)
    requires Canonical(l) && i < |l| && 0 < n <= l[i].size
    ensures Covers(TakeEnd(l, i, n), x)
            <==> Covers(l, x) && !(l[i].End() - n <= x < l[i].End())
  {
    hide Covers, Canonical;
    CanonicalAt(l, i);
    assert l == l[..i] + [l[i]] + l[i + 1..];
    CoversSplice(l[..i], l[i], l[i + 1..], x);
    CoversConcat(l[..i], l[i + 1..], x);
    CoversSplice(l[..i], Extent(l[i].start, l[i].size - n), l[i + 1..], x);
    if l[i].Holds(x) { OthersApart(l, i, x); }
  }

  /** No other extent holds a cell of extent i. */
  lemma OthersApart(l: seq<Extent>, i: nat, x: int)
    requires Canonical(l) && i < |l| && l[i].Holds(x)
    ensures !Covers(l[..i], x) && !Covers(l[i + 1..], x)
  {
    var below, above := l[..i], l[i + 1..];
    forall j | 0 <= j < |below| ensures !below[j].Holds(x) { assert below[j] == l[j]; }
    forall j | 0 <= j < |above| ensures !above[j].Holds(x) { assert above[j] == l[i + 1 + j]; }
  }

  lemma TakeEndCells(l: seq<Extent>, i: nat, n: int)
    requires Canonical(l) && i < |l| && 0 < n <= l[i].size
    ensures Cells(TakeEnd(l, i, n)) == Cells(l) - Span(Extent(l[i].End() - n, n))
    ensures Span(Extent(l[i].End() - n, n)) <= Cells(l)
  {
    forall x: int
      ensures x in Cells(TakeEnd(l, i, n)) <==> x in Cells(l) - Span(Extent(l[i].End() - n, n))
    {
      TakeEndCovers(l, i, n, x);
    }
    forall x | x in Span(Extent(l[i].End() - n, n))
      ensures x in Cells(l)
    {
      assert l[i].Holds(x);
    }
  }

  /** First fit: the index of the first extent with at least `need` cells, or |l|. */
  function FirstFit(l: seq<Extent>, need: int): (i: nat)
    ensures i <= |l|
    ensures forall j :: 0 <= j < i ==> l[j].size < need
    ensures i < |l| ==> need <= l[i].size
  {
    if l == [] || need <= l[0].size then 0 else 1 + FirstFit(l[1..], need)
  }

  lemma FirstFitUnique(l: seq<Extent>, need: int, i: nat)
    requires i <= |l|
    requires forall j :: 0 <= j < i ==> l[j].size < need
    requires i < |l| ==> need <= l[i].size
    ensures i == FirstFit(l, need)
  {
  }

  // ---------------------------------------------------------------- consequences

  /** A run of consecutive free cells lies inside one extent, because the list is coalesced. */
  lemma RunInsideOneExtent(l: seq<Extent>, a: int, n: int) returns (i: nat)
    requires Canonical(l) && 0 < n
    requires forall x :: a <= x < a + n ==> Covers(l, x)
    ensures i < |l| && l[i].start <= a && a + n <= l[i].End()
  {
    assert Covers(l, a);
    i :| 0 <= i < |l| && l[i].Holds(a);
    EndIsNotFree(l, i);
    assert !Covers(l, l[i].End());
  }

  /** First fit fails exactly when the free cells hold no run of `need` consecutive cells. */
  lemma FirstFitFailsIffNoRun(l: seq<Extent>, need: int)
    requires Canonical(l) && 0 < need
    ensures FirstFit(l, need) == |l|
            <==> !exists a :: Span(Extent(a, need)) <= Cells(l)
  {
    var i := FirstFit(l, need);
    if i < |l| {
      var run := Extent(l[i].start, need);
      forall x | x in Span(run)
        ensures x in Cells(l)
      {
        assert l[i].Holds(x);
      }
      assert Span(Extent(l[i].start, need)) <= Cells(l);
    }
    forall a | Span(Extent(a, need)) <= Cells(l)
      ensures i < |l|
    {
      forall x | a <= x < a + need
        ensures Covers(l, x)
      {
        assert x in Span(Extent(a, need));
      }
      var j := RunInsideOneExtent(l, a, need);
    }
  }
}
