/**
 The two-level allocator of kernel/memory.c as a state machine over extent lists:
 who owns which byte, and what every operation does to that.  The methods of
 KernelMemory.dfy, which work on raw memory, are proved to take exactly these steps.
 */
module Allocator {
  import opened Extents
  import opened FreeList

  /** sizeof(struct blockheader) and sizeof(struct freeblock). */
  const HEADER := 4
  const NODE := 8

  /** `live` are the blocks handed out by kalloc, each with its header; `held` are the
      pages handed out directly by the page allocator. */
  datatype State = State(pages: seq<Extent>, blocks: seq<Extent>, live: seq<Extent>, held: seq<int>)

  /** A panic stops the machine in the state it has reached. */
  datatype Outcome = Running(state: State) | Halted(state: State)

  ghost predicate PageFree(s: State, x: int) { Covers(s.pages, x / PAGE_SIZE) }

  ghost predicate BlockFree(s: State, x: int) { Covers(s.blocks, x) }

  ghost predicate Live(s: State, x: int) { Covers(s.live, x) }

  ghost predicate Held(s: State, x: int) { x / PAGE_SIZE in s.held }

  predicate ExactlyOne(a: bool, b: bool, c: bool, d: bool) {
    if a then !b && !c && !d else if b then !c && !d else c != d
  }

  /** Byte x has exactly one owner if it is in the pool of pages lo, ..., hi - 1, and none
      otherwise. */
  ghost predicate OwnedOnce(s: State, lo: int, hi: int, x: int) {
    if lo <= x / PAGE_SIZE < hi
    then ExactlyOne(PageFree(s, x), BlockFree(s, x), Live(s, x), Held(s, x))
    else !PageFree(s, x) && !BlockFree(s, x) && !Live(s, x) && !Held(s, x)
  }

  ghost predicate Separate(live: seq<Extent>) {
    forall i, j :: 0 <= i < j < |live| ==> live[i].End() <= live[j].start || live[j].End() <= live[i].start
  }

  ghost predicate Distinct(held: seq<int>) {
    forall i, j :: 0 <= i < j < |held| ==> held[i] != held[j]
  }

  ghost predicate AtLeast(l: seq<Extent>, size: int) {
    forall i :: 0 <= i < |l| ==> size <= l[i].size
  }

  /** The ownership invariant: both lists canonical, every free block and every live block
      large enough for a list node, and every byte of the pool owned exactly once. */
  ghost predicate Inv(s: State, lo: int, hi: int) {
    && Canonical(s.pages) && Canonical(s.blocks)
    && AtLeast(s.blocks, NODE) && AtLeast(s.live, NODE)
    && Separate(s.live) && Distinct(s.held)
    && 0 < lo <= hi
    && forall x :: OwnedOnce(s, lo, hi, x)
  }

  /** The value show_memory computes, before it is scaled to kilobytes. */
  function FreeMemory(s: State): int {
    Total(s.pages) * PAGE_SIZE + Total(s.blocks)
  }

  /** Everything the allocator accounts for. */
  function Account(s: State): int {
    FreeMemory(s) + Total(s.live) + |s.held| * PAGE_SIZE
  }

  function Initial(lo: int, hi: int): State {
    State([Extent(lo, hi - lo)], [], [], [])
  }

  // ---------------------------------------------------------------- operations

  /** page_allocate_consecutive takes its count as an `unsigned short`. */
  const SHORT := 0x1_0000

  /** The requests kalloc is meant for: a block that can be freed again, and a size small enough that
      no 32-bit sum of sizes wraps. */
  predicate Request(n: int) { NODE - HEADER <= n <= 0xEFFF_0000 }

  function PagesFor(n: int): int {
    (n + HEADER + PAGE_SIZE - 1) / PAGE_SIZE
  }

  /** kalloc's growth finds pages: the cut count is not zero, which the source asserts, and there is
      a run of so many. */
  predicate CanGrow(s: State, pages: nat) {
    0 < pages % SHORT && FirstFit(s.pages, pages % SHORT) < |s.pages|
  }

  function PageOfRun(l: seq<Extent>, count: int): int
    requires FirstFit(l, count) < |l|
  {
    l[FirstFit(l, count)].End() - count
  }

  /** kalloc finds no block: move a run of pages to the block list.  The page count is cut to 16 bits
      on its way to page_allocate_consecutive, the size given to the block list is not. */
  function Grow(s: State, pages: nat): State
    requires CanGrow(s, pages)
  {
    var count := pages % SHORT;
    s.(pages := TakeEnd(s.pages, FirstFit(s.pages, count), count),
       blocks := Insert(s.blocks, PageOfRun(s.pages, count) * PAGE_SIZE, pages * PAGE_SIZE))
  }

  /** kalloc's step A4 on block i. */
  function Carve(s: State, i: nat, n: int): State
    requires i < |s.blocks|
  {
    s.(blocks := TakeEnd(s.blocks, i, n + HEADER),
       live := s.live + [Extent(s.blocks[i].End() - n - HEADER, n + HEADER)])
  }

  function Kalloc(s: State, n: int): Outcome
    requires Canonical(s.pages) && 0 <= n
    decreases Total(s.pages)
  {
    var i := FirstFit(s.blocks, n + HEADER + NODE);
    if i < |s.blocks| then Running(Carve(s, i, n))
    else if !CanGrow(s, PagesFor(n)) then Halted(s)
    else
      GrowShrinksPages(s, PagesFor(n));
      Kalloc(Grow(s, PagesFor(n)), n)
  }

  /** A call keeps the allocator sound if it needs no growth, can get none, or its page count
      survives the cut. */
  predicate CutSafe(s: State, n: int)
    requires 0 <= n
  {
    || FirstFit(s.blocks, n + HEADER + NODE) < |s.blocks|
    || PagesFor(n) < SHORT
    || !CanGrow(s, PagesFor(n))
  }

  lemma GrowShrinksPages(s: State, pages: nat)
    requires Canonical(s.pages) && CanGrow(s, pages)
    ensures Canonical(Grow(s, pages).pages)
    ensures 0 <= Total(Grow(s, pages).pages) == Total(s.pages) - pages % SHORT < Total(s.pages)
  {
    var count := pages % SHORT;
    var i := FirstFit(s.pages, count);
    TakeEndCanonical(s.pages, i, count);
    TakeEndTotal(s.pages, i, count);
    TotalNonnegative(Grow(s, pages).pages);
  }

  lemma {:induction false} TotalNonnegative(l: seq<Extent>)
    requires AtLeast(l, 0) || Canonical(l)
    ensures 0 <= Total(l)
  {
    if l != [] { TotalNonnegative(l[1..]); }
  }

  /** Address rounded up to a page boundary. */
  function PageAlign(a: int): int {
    (a + PAGE_SIZE - 1) / PAGE_SIZE * PAGE_SIZE
  }

  /** The word mem_free reads back as cur->size after it has linked a freed live block:
      the size of the merged block, or, if that block was merged into its lower neighbour,
      the number kalloc left in the header. */
  function SizeRead(blocks: seq<Extent>, e: Extent): int {
    var k := Rank(blocks, e.start);
    if MergesDown(blocks, k, e.start) then e.size - HEADER else UpSize(blocks, k, e.start, e.size)
  }

  /** How many pages the tail of mem_free hands to the page list when it reads `size` back
      from a block at address a. */
  function TailCount(size: int, a: int): nat {
    if size < PAGE_SIZE then 0 else (size - (PageAlign(a) - a)) / PAGE_SIZE
  }

  function TailPages(blocks: seq<Extent>, e: Extent): nat {
    TailCount(SizeRead(blocks, e), e.start)
  }

  function ReleaseRun(l: seq<Extent>, page: int, count: int): seq<Extent>
    decreases count
  {
    if count <= 0 then l else ReleaseRun(Insert(l, page, 1), page + 1, count - 1)
  }

  function Kfree(s: State, i: nat): State
    requires i < |s.live|
  {
    var e := s.live[i];
    s.(live := s.live[..i] + s.live[i + 1..],
       blocks := Insert(s.blocks, e.start, e.size),
       pages := ReleaseRun(s.pages, PageAlign(e.start) / PAGE_SIZE, TailPages(s.blocks, e)))
  }

  /** page_allocate_consecutive on behalf of a caller; page_allocate is the case count == 1. */
  function TakePages(s: State, count: nat): Outcome {
    if FirstFit(s.pages, count) == |s.pages| then Halted(s)
    else
      var page := PageOfRun(s.pages, count);
      Running(s.(pages := TakeEnd(s.pages, FirstFit(s.pages, count), count),
                 held := s.held + seq(count, j => page + j)))
  }

  function ReleasePage(s: State, j: nat): State
    requires j < |s.held|
  {
    s.(pages := Insert(s.pages, s.held[j], 1), held := s.held[..j] + s.held[j + 1..])
  }

  // ---------------------------------------------------------------- every step keeps Inv

  lemma InitialInv(lo: int, hi: int)
    requires 0 < lo < hi
    ensures Inv(Initial(lo, hi), lo, hi)
    ensures Account(Initial(lo, hi)) == (hi - lo) * PAGE_SIZE
  {
    var s := Initial(lo, hi);
    forall x: int
      ensures OwnedOnce(s, lo, hi, x)
    {
      assert Covers(s.pages, x / PAGE_SIZE) <==> s.pages[0].Holds(x / PAGE_SIZE);
    }
    assert s.pages[1..] == [];
    assert Total(s.pages[1..]) == 0;
  }

  /** Bytes that are not free in a list can be inserted into it. */
  lemma FreshBlocks(s: State, lo: int, hi: int, a: int, n: int)
    requires Inv(s, lo, hi)
    requires forall x :: a <= x < a + n ==> !BlockFree(s, x)
    ensures Fresh(s.blocks, a, n)
  {
    forall x | a <= x < a + n
      ensures !Covers(s.blocks, x)
    {
      assert !BlockFree(s, x);
    }
  }

  lemma InsertAtLeast(l: seq<Extent>, a: int, n: int, size: int)
    requires AtLeast(l, size) && size <= n && 0 <= size
    ensures AtLeast(Insert(l, a, n), size)
  {
  }

  lemma RunIsFree(l: seq<Extent>, count: int, p: int)
    requires Canonical(l) && 0 < count && FirstFit(l, count) < |l|
    requires PageOfRun(l, count) <= p < PageOfRun(l, count) + count
    ensures Covers(l, p)
  {
    assert l[FirstFit(l, count)].Holds(p);
  }

  lemma GrowInv(s: State, count: nat, lo: int, hi: int)
    requires Inv(s, lo, hi) && 0 < count < SHORT && FirstFit(s.pages, count) < |s.pages|
    ensures Inv(Grow(s, count), lo, hi)
    ensures Account(Grow(s, count)) == Account(s)
  {
    hide Insert, TakeEnd;
    var i, page := FirstFit(s.pages, count), PageOfRun(s.pages, count);
    var a, n := page * PAGE_SIZE, count * PAGE_SIZE;
    assert count % SHORT == count;
    var t := Grow(s, count);
    forall x | a <= x < a + n
      ensures !BlockFree(s, x)
    {
      RunIsFree(s.pages, count, x / PAGE_SIZE);
      assert OwnedOnce(s, lo, hi, x);
    }
    FreshBlocks(s, lo, hi, a, n);
    TakeEndCanonical(s.pages, i, count);
    InsertCanonical(s.blocks, a, n);
    InsertAtLeast(s.blocks, a, n, NODE);
    TakeEndTotal(s.pages, i, count);
    InsertTotal(s.blocks, a, n);
    forall x: int
      ensures OwnedOnce(t, lo, hi, x)
    {
      assert OwnedOnce(s, lo, hi, x);
      TakeEndCovers(s.pages, i, count, x / PAGE_SIZE);
      InsertCovers(s.blocks, a, n, x);
      if a <= x < a + n { RunIsFree(s.pages, count, x / PAGE_SIZE); }
    }
  }

  /** Growth keeps the invariant exactly when the page count survives the cut. */
  lemma GrowInvIffCountFits(s: State, pages: nat, lo: int, hi: int)
    requires Inv(s, lo, hi) && hi - lo < SHORT && CanGrow(s, pages)
    ensures Inv(Grow(s, pages), lo, hi) <==> pages < SHORT
  {
    hide Insert, TakeEnd, OwnedOnce;
    if pages < SHORT {
      GrowInv(s, pages, lo, hi);
    } else {
      var t, need := Grow(s, pages), pages * PAGE_SIZE;
      InsertHasLargeExtent(s.blocks, PageOfRun(s.pages, pages % SHORT) * PAGE_SIZE, need, need);
      NoBlockBeyondPool(t, FirstFit(t.blocks, need), lo, hi);
    }
  }

  /** A free block is no larger than the pool. */
  lemma NoBlockBeyondPool(t: State, i: nat, lo: int, hi: int)
    requires i < |t.blocks| && 0 < t.blocks[i].size
    ensures Inv(t, lo, hi) ==> t.blocks[i].size <= (hi - lo) * PAGE_SIZE
  {
    var e := t.blocks[i];
    if Inv(t, lo, hi) {
      assert e.Holds(e.start) && e.Holds(e.End() - 1);
      assert BlockFree(t, e.start) && BlockFree(t, e.End() - 1);
      assert OwnedOnce(t, lo, hi, e.start) && OwnedOnce(t, lo, hi, e.End() - 1);
    }
  }

  lemma TakeEndAtLeast(l: seq<Extent>, i: nat, n: int, size: int)
    requires AtLeast(l, size) && i < |l| && (l[i].size == n || size <= l[i].size - n)
    ensures AtLeast(TakeEnd(l, i, n), size)
  {
  }

  lemma CarveInv(s: State, i: nat, n: int, lo: int, hi: int)
    requires Inv(s, lo, hi) && 4 <= n && i < |s.blocks|
    requires n + HEADER + NODE <= s.blocks[i].size
    ensures Inv(Carve(s, i, n), lo, hi)
    ensures Account(Carve(s, i, n)) == Account(s)
  {
    hide TakeEnd;
    var r := n + HEADER;
    var b := s.blocks[i];
    var e := Extent(b.End() - r, r);
    var t := Carve(s, i, n);
    TakeEndCanonical(s.blocks, i, r);
    TakeEndTotal(s.blocks, i, r);
    TotalSplice(s.live, e, []);
    assert s.live + [e] + [] == t.live;
    TakeEndAtLeast(s.blocks, i, r, NODE);
    forall x: int
      ensures OwnedOnce(t, lo, hi, x)
    {
      assert OwnedOnce(s, lo, hi, x);
      TakeEndCovers(s.blocks, i, r, x);
      CoversSplice(s.live, e, [], x);
      if e.Holds(x) { assert b.Holds(x); }
    }
    forall j | 0 <= j < |s.live|
      ensures s.live[j].End() <= e.start || e.End() <= s.live[j].start
    {
      ApartFromFree(s, lo, hi, j, i);
    }
  }

  /** A live block and a free block do not overlap. */
  lemma ApartFromFree(s: State, lo: int, hi: int, j: nat, i: nat)
    requires Inv(s, lo, hi) && j < |s.live| && i < |s.blocks|
    ensures s.live[j].End() <= s.blocks[i].start || s.blocks[i].End() <= s.live[j].start
  {
    var e, b := s.live[j], s.blocks[i];
    var x := if e.start < b.start then b.start else e.start;
    assert OwnedOnce(s, lo, hi, x);
    assert !(e.Holds(x) && b.Holds(x));
  }

  lemma {:induction false} KallocInv(s: State, n: int, lo: int, hi: int)
    requires Inv(s, lo, hi) && Request(n) && CutSafe(s, n)
    ensures Inv(Kalloc(s, n).state, lo, hi)
    ensures Account(Kalloc(s, n).state) == Account(s)
    decreases Total(s.pages)
  {
    hide Grow, Carve;
    var i := FirstFit(s.blocks, n + HEADER + NODE);
    if i < |s.blocks| {
      CarveInv(s, i, n, lo, hi);
    } else if CanGrow(s, PagesFor(n)) {
      GrowInv(s, PagesFor(n), lo, hi);
      GrowShrinksPages(s, PagesFor(n));
      KallocInv(Grow(s, PagesFor(n)), n, lo, hi);
    }
  }

  // ---------------------------------------------------------------- kfree

  lemma RemovedCovers(l: seq<Extent>, i: nat, x: int)
    requires i < |l|
    ensures Covers(l, x) <==> Covers(l[..i] + l[i + 1..], x) || l[i].Holds(x)
  {
    assert l == l[..i] + [l[i]] + l[i + 1..];
    CoversSplice(l[..i], l[i], l[i + 1..], x);
    CoversConcat(l[..i], l[i + 1..], x);
  }

  lemma RemovedApart(l: seq<Extent>, i: nat, x: int)
    requires i < |l| && Separate(l) && l[i].Holds(x)
    ensures !Covers(l[..i] + l[i + 1..], x)
  {
    var m := l[..i] + l[i + 1..];
    forall j | 0 <= j < |m|
      ensures !m[j].Holds(x)
    {
      assert m[j] == if j < i then l[j] else l[j + 1];
    }
  }

  lemma FreedIsFresh(s: State, i: nat, lo: int, hi: int)
    requires Inv(s, lo, hi) && i < |s.live|
    ensures Fresh(s.blocks, s.live[i].start, s.live[i].size)
  {
    var e := s.live[i];
    forall x | e.start <= x < e.start + e.size
      ensures !Covers(s.blocks, x)
    {
      assert OwnedOnce(s, lo, hi, x);
      assert s.live[i].Holds(x);
    }
  }

  lemma KfreeOwnedOnce(s: State, i: nat, lo: int, hi: int, x: int)
    requires Inv(s, lo, hi) && i < |s.live|
    ensures OwnedOnce(Kfree(s, i).(pages := s.pages), lo, hi, x)
  {
    hide Insert;
    var e := s.live[i];
    assert OwnedOnce(s, lo, hi, x);
    InsertCovers(s.blocks, e.start, e.size, x);
    RemovedCovers(s.live, i, x);
    if e.Holds(x) { RemovedApart(s.live, i, x); }
  }

  lemma KfreeAccount(s: State, i: nat)
    requires i < |s.live|
    ensures Account(Kfree(s, i).(pages := s.pages)) == Account(s)
  {
    hide Insert;
    InsertTotal(s.blocks, s.live[i].start, s.live[i].size);
    SplitTotal(s.live, i);
    TotalConcat(s.live[..i], s.live[i + 1..]);
  }

  /** The part of kfree that does not depend on the release tail. */
  lemma KfreeBlocks(s: State, i: nat, lo: int, hi: int)
    requires Inv(s, lo, hi) && i < |s.live|
    ensures Inv(Kfree(s, i).(pages := s.pages), lo, hi)
  {
    hide Insert;
    var e := s.live[i];
    FreedIsFresh(s, i, lo, hi);
    LiveInPool(s, lo, hi, i);
    InsertCanonical(s.blocks, e.start, e.size);
    InsertAtLeast(s.blocks, e.start, e.size, NODE);
    forall x: int
      ensures OwnedOnce(Kfree(s, i).(pages := s.pages), lo, hi, x)
    {
      KfreeOwnedOnce(s, i, lo, hi, x);
    }
  }

  lemma LiveInPool(s: State, lo: int, hi: int, i: nat)
    requires Inv(s, lo, hi) && i < |s.live|
    ensures lo * PAGE_SIZE <= s.live[i].start && s.live[i].End() <= hi * PAGE_SIZE
  {
    var e := s.live[i];
    assert OwnedOnce(s, lo, hi, e.start) && OwnedOnce(s, lo, hi, e.End() - 1);
    assert e.Holds(e.start) && e.Holds(e.End() - 1);
    assert Live(s, e.start) && Live(s, e.End() - 1);
  }

  /** Every page the tail releases lies inside the block that was just freed. */
  lemma TailInsideFreed(blocks: seq<Extent>, e: Extent, p: int)
    requires Canonical(blocks) && NODE <= e.size
    requires PageAlign(e.start) <= p * PAGE_SIZE < PageAlign(e.start) + TailPages(blocks, e) * PAGE_SIZE
    ensures Covers(Insert(blocks, e.start, e.size), p * PAGE_SIZE)
    ensures e.Holds(p * PAGE_SIZE) || Covers(blocks, p * PAGE_SIZE)
  {
    hide Insert;
    var x := p * PAGE_SIZE;
    var k := Rank(blocks, e.start);
    assert e.start <= x < e.start + SizeRead(blocks, e);
    UpCovers(blocks, k, e.start, e.size, x);
    SplitCovers(blocks, k, x);
    InsertCovers(blocks, e.start, e.size, x);
  }

  lemma {:induction false} ReleaseRunCovers(l: seq<Extent>, page: int, count: int, p: int)
    requires Canonical(l) && 0 < page
    requires forall q :: page <= q < page + count ==> !Covers(l, q)
    ensures Covers(ReleaseRun(l, page, count), p) <==> Covers(l, p) || page <= p < page + count
    ensures Canonical(ReleaseRun(l, page, count))
    decreases count
  {
    hide Insert;
    if count > 0 {
      var m := Insert(l, page, 1);
      InsertCanonical(l, page, 1);
      InsertCovers(l, page, 1, p);
      forall q | page + 1 <= q < page + count
        ensures !Covers(m, q)
      {
        InsertCovers(l, page, 1, q);
      }
      ReleaseRunCovers(m, page + 1, count - 1, p);
    }
  }

  /** kfree keeps the ownership invariant exactly when its tail releases no page: a page it
      does release stays on the block list as well. */
  lemma KfreeInvIffQuietTail(s: State, i: nat, lo: int, hi: int)
    requires Inv(s, lo, hi) && i < |s.live|
    ensures Inv(Kfree(s, i), lo, hi) <==> TailPages(s.blocks, s.live[i]) == 0
    ensures Inv(Kfree(s, i), lo, hi) ==> Account(Kfree(s, i)) == Account(s)
  {
    hide Insert;
    var e := s.live[i];
    var c := TailPages(s.blocks, e);
    if c == 0 {
      KfreeBlocks(s, i, lo, hi);
      KfreeAccount(s, i);
    } else {
      var page := PageAlign(e.start) / PAGE_SIZE;
      LiveInPool(s, lo, hi, i);
      forall q | page <= q < page + c
        ensures !Covers(s.pages, q)
      {
        TailInsideFreed(s.blocks, e, q);
        assert OwnedOnce(s, lo, hi, q * PAGE_SIZE);
        assert s.live[i] == e;
      }
      ReleaseRunCovers(s.pages, page, c, page);
      TailInsideFreed(s.blocks, e, page);
      var t, x := Kfree(s, i), page * PAGE_SIZE;
      assert PageFree(t, x) && BlockFree(t, x);
      assert !OwnedOnce(t, lo, hi, x);
    }
  }

  /** What mem_free reads back of a freed live block: its size without the header where it joined a free
      block below it, else its size together with the free block above it, if it touches one. */
  lemma SizeReadIs(s: State, i: nat, lo: int, hi: int)
    requires Inv(s, lo, hi) && i < |s.live|
    ensures var e := s.live[i];
            && (BlockFree(s, e.start - 1) ==> SizeRead(s.blocks, e) == e.size - 4)
            && (!BlockFree(s, e.start - 1) && !BlockFree(s, e.End()) ==> SizeRead(s.blocks, e) == e.size)
            && (!BlockFree(s, e.start - 1) && BlockFree(s, e.End()) ==>
                  exists j :: 0 <= j < |s.blocks| && s.blocks[j].start == e.End()
                              && SizeRead(s.blocks, e) == e.size + s.blocks[j].size)
  {
    var e := s.live[i];
    var k := Rank(s.blocks, e.start);
    FreedIsFresh(s, i, lo, hi);
    FreshNeighbours(s.blocks, e.start, e.size);
    NeighbourBelow(s.blocks, e.start);
    NeighbourAbove(s.blocks, e.start, e.size);
  }

  lemma NeighbourBelow(l: seq<Extent>, a: int)
    requires Canonical(l) && (Rank(l, a) > 0 ==> l[Rank(l, a) - 1].End() <= a)
    ensures Covers(l, a - 1) <==> MergesDown(l, Rank(l, a), a)
  {
    var k := Rank(l, a);
    SplitCovers(l, k, a - 1);
    if MergesDown(l, k, a) { assert l[k - 1].Holds(a - 1); }
    forall j | 0 <= j < |l| && l[j].Holds(a - 1)
      ensures MergesDown(l, k, a)
    {
      assert j < k;
    }
  }

  lemma NeighbourAbove(l: seq<Extent>, a: int, n: int)
    requires Canonical(l) && 0 < n && Fresh(l, a, n)
    ensures Covers(l, a + n) <==> MergesUp(l, Rank(l, a), a, n)
  {
    var k := Rank(l, a);
    FreshNeighbours(l, a, n);
    if MergesUp(l, k, a, n) { StartIsFree(l, k); }
    assert !Covers(l, a + n - 1);
    forall j | 0 <= j < |l| && l[j].Holds(a + n)
      ensures MergesUp(l, k, a, n)
    {
      assert !l[j].Holds(a + n - 1);
    }
  }

  /** The release tail takes exactly the pages that lie wholly inside the bytes it reads back. */
  lemma TailIsWholePages(a: nat, size: nat, p: int)
    ensures PageAlign(a) / PAGE_SIZE <= p < PageAlign(a) / PAGE_SIZE + TailCount(size, a)
            <==> a <= p * 4096 && (p + 1) * 4096 <= a + size
  {
    var first := PageAlign(a) / 4096;
    assert PageAlign(a) == first * 4096;
    assert a <= first * 4096 < a + 4096;
    var left := size - (PageAlign(a) - a);
    assert a + size == first * 4096 + left;
    if size >= 4096 {
      assert TailCount(size, a) == left / 4096;
      assert left / 4096 * 4096 <= left < (left / 4096 + 1) * 4096;
    }
  }

  /** The free pages after kfree: those from before, and the whole pages inside what was read back. */
  lemma KfreeReleases(s: State, i: nat, lo: int, hi: int, p: int)
    requires Inv(s, lo, hi) && i < |s.live|
    ensures var e := s.live[i];
            Covers(Kfree(s, i).pages, p)
            <==> Covers(s.pages, p) || (e.start <= p * 4096 && (p + 1) * 4096 <= e.start + SizeRead(s.blocks, e))
    ensures Cells(Kfree(s, i).blocks) == Cells(s.blocks) + Span(s.live[i])
    ensures Kfree(s, i).held == s.held && multiset(Kfree(s, i).live) == multiset(s.live) - multiset{s.live[i]}
  {
    hide Insert, TailCount, PageAlign;
    var e := s.live[i];
    var c, first := TailPages(s.blocks, e), PageAlign(e.start) / PAGE_SIZE;
    LiveInPool(s, lo, hi, i);
    FreedIsFresh(s, i, lo, hi);
    InsertCells(s.blocks, e.start, e.size);
    assert e == Extent(e.start, e.size);
    SizeReadNatural(s, i, lo, hi);
    TailIsWholePages(e.start, SizeRead(s.blocks, e), p);
    assert s.live == s.live[..i] + [e] + s.live[i + 1..];
    assert 0 < first by { AlignedUp(e.start); }
    forall q | first <= q < first + c
      ensures !Covers(s.pages, q)
    {
      PageOfFreed(s, i, lo, hi, q);
    }
    ReleaseRunCovers(s.pages, first, c, p);
  }

  lemma AlignedUp(a: int)
    requires 0 < a
    ensures 0 < PageAlign(a) / PAGE_SIZE
  {
  }

  lemma SizeReadNatural(s: State, i: nat, lo: int, hi: int)
    requires Inv(s, lo, hi) && i < |s.live|
    ensures 0 <= SizeRead(s.blocks, s.live[i])
  {
  }

  lemma PageOfFreed(s: State, i: nat, lo: int, hi: int, q: int)
    requires Inv(s, lo, hi) && i < |s.live|
    requires var first := PageAlign(s.live[i].start) / PAGE_SIZE; first <= q < first + TailPages(s.blocks, s.live[i])
    ensures !Covers(s.pages, q)
  {
    var e := s.live[i];
    assert PageAlign(e.start) == PageAlign(e.start) / PAGE_SIZE * PAGE_SIZE;
    TailInsideFreed(s.blocks, e, q);
    assert OwnedOnce(s, lo, hi, q * PAGE_SIZE);
    assert s.live[i] == e;
  }

  // ---------------------------------------------------------------- pages

  lemma TakePagesInv(s: State, count: nat, lo: int, hi: int)
    requires Inv(s, lo, hi) && 0 < count
    ensures Inv(TakePages(s, count).state, lo, hi)
    ensures Account(TakePages(s, count).state) == Account(s)
  {
    hide TakeEnd;
    if FirstFit(s.pages, count) < |s.pages| {
      var i, page := FirstFit(s.pages, count), PageOfRun(s.pages, count);
      var t := TakePages(s, count).state;
      TakeEndCanonical(s.pages, i, count);
      TakeEndTotal(s.pages, i, count);
      forall x: int
        ensures OwnedOnce(t, lo, hi, x)
      {
        assert OwnedOnce(s, lo, hi, x);
        TakeEndCovers(s.pages, i, count, x / PAGE_SIZE);
        HeldAfter(s.held, page, count, x / PAGE_SIZE);
        if page <= x / PAGE_SIZE < page + count { RunIsFree(s.pages, count, x / PAGE_SIZE); }
      }
      forall p | page <= p < page + count
        ensures Covers(s.pages, p)
      {
        RunIsFree(s.pages, count, p);
      }
      forall j | 0 <= j < |s.held|
        ensures !(page <= s.held[j] < page + count)
      {
        HeldIsNotFree(s, lo, hi, j);
      }
    }
  }

  /** Which pages a caller gets: the last of the first run that is long enough. */
  lemma TakePagesTakes(s: State, count: nat)
    requires Canonical(s.pages) && 0 < count
    ensures var i := FirstFit(s.pages, count);
            if i == |s.pages| then TakePages(s, count) == Halted(s)
            else
              var p, t := s.pages[i].End() - count, TakePages(s, count).state;
              && TakePages(s, count).Running? && t.blocks == s.blocks && t.live == s.live
              && |t.held| == |s.held| + count && t.held[..|s.held|] == s.held
              && (forall j :: |s.held| <= j < |t.held| ==> t.held[j] == p + j - |s.held|)
              && Cells(t.pages) == Cells(s.pages) - Span(Extent(p, count))
  {
    hide TakeEnd, Cells;
    var i := FirstFit(s.pages, count);
    if i < |s.pages| { TakeEndCells(s.pages, i, count); }
  }

  lemma HeldAfter(held: seq<int>, page: int, count: nat, p: int)
    ensures p in held + seq(count, j => page + j) <==> p in held || page <= p < page + count
  {
    var run := seq(count, j => page + j);
    if page <= p < page + count { assert run[p - page] == p; }
  }

  lemma HeldIsNotFree(s: State, lo: int, hi: int, j: nat)
    requires Inv(s, lo, hi) && j < |s.held|
    ensures !Covers(s.pages, s.held[j]) && lo <= s.held[j] < hi
  {
    var x := s.held[j] * PAGE_SIZE;
    assert x / PAGE_SIZE == s.held[j];
    assert OwnedOnce(s, lo, hi, x);
  }

  lemma ReleasePageInv(s: State, j: nat, lo: int, hi: int)
    requires Inv(s, lo, hi) && j < |s.held|
    ensures Inv(ReleasePage(s, j), lo, hi)
    ensures Account(ReleasePage(s, j)) == Account(s)
  {
    hide Insert;
    var p, t := s.held[j], ReleasePage(s, j);
    HeldIsNotFree(s, lo, hi, j);
    InsertCanonical(s.pages, p, 1);
    InsertTotal(s.pages, p, 1);
    forall x: int
      ensures OwnedOnce(t, lo, hi, x)
    {
      assert OwnedOnce(s, lo, hi, x);
      InsertCovers(s.pages, p, 1, x / PAGE_SIZE);
      assert s.held == s.held[..j] + [p] + s.held[j + 1..];
    }
  }

  // ---------------------------------------------------------------- whole runs

  datatype Op = DoKalloc(n: int) | DoKfree(block: nat) | DoTakePages(count: nat) | DoReleasePage(index: nat)

  /** Calls a correct client makes, each live block and each held page given back at most once, that
      neither take the release tail nor have their page count cut. */
  ghost predicate Legal(s: State, op: Op) {
    match op
    case DoKalloc(n) => Request(n) && CutSafe(s, n)
    case DoKfree(i) => i < |s.live| && TailPages(s.blocks, s.live[i]) == 0
    case DoTakePages(count) => 0 < count < SHORT
    case DoReleasePage(j) => j < |s.held|
  }

  ghost function Step(s: State, op: Op): Outcome
    requires Canonical(s.pages) && Legal(s, op)
  {
    match op
    case DoKalloc(n) => Kalloc(s, n)
    case DoKfree(i) => Running(Kfree(s, i))
    case DoTakePages(count) => TakePages(s, count)
    case DoReleasePage(j) => Running(ReleasePage(s, j))
  }

  /** t is reached from s by the calls ops, the last of which may have halted the machine. */
  ghost predicate Reaches(s: State, ops: seq<Op>, t: State)
    decreases ops
  {
    if ops == [] then t == s
    else
      && Canonical(s.pages) && Legal(s, ops[0])
      && match Step(s, ops[0])
         case Running(u) => Reaches(u, ops[1..], t)
         case Halted(u) => ops[1..] == [] && t == u
  }

  lemma StepInv(s: State, op: Op, lo: int, hi: int)
    requires Inv(s, lo, hi) && Legal(s, op)
    ensures Inv(Step(s, op).state, lo, hi)
    ensures Account(Step(s, op).state) == Account(s)
  {
    hide Kalloc, Kfree, TakePages, ReleasePage;
    match op
    case DoKalloc(n) => KallocInv(s, n, lo, hi);
    case DoKfree(i) => KfreeInvIffQuietTail(s, i, lo, hi);
    case DoTakePages(count) => TakePagesInv(s, count, lo, hi);
    case DoReleasePage(j) => ReleasePageInv(s, j, lo, hi);
  }

  lemma {:induction false} RunInv(s: State, ops: seq<Op>, t: State, lo: int, hi: int)
    requires Inv(s, lo, hi) && Reaches(s, ops, t)
    ensures Inv(t, lo, hi) && Account(t) == Account(s)
    decreases ops
  {
    if ops != [] {
      StepInv(s, ops[0], lo, hi);
      if Step(s, ops[0]).Running? { RunInv(Step(s, ops[0]).state, ops[1..], t, lo, hi); }
    }
  }

  /** Every state any run of the allocator reaches: each byte of the pool has one owner, the
      lists are canonical, and what show_memory reports plus what clients hold is the whole pool. */
  lemma ReachableStatesConserveMemory(lo: int, hi: int, ops: seq<Op>, t: State)
    requires 0 < lo < hi && Reaches(Initial(lo, hi), ops, t)
    ensures Inv(t, lo, hi)
    ensures FreeMemory(t) + Total(t.live) + |t.held| * PAGE_SIZE == (hi - lo) * PAGE_SIZE
  {
    InitialInv(lo, hi);
    RunInv(Initial(lo, hi), ops, t, lo, hi);
  }

  // ---------------------------------------------------------------- kalloc in detail

  /** The state kalloc carves its block from, after all growth. */
  function Grown(s: State, n: int): State
    requires Canonical(s.pages) && 0 <= n
    decreases Total(s.pages)
  {
    if FirstFit(s.blocks, n + HEADER + NODE) < |s.blocks|
       || !CanGrow(s, PagesFor(n)) then s
    else
      GrowShrinksPages(s, PagesFor(n));
      Grown(Grow(s, PagesFor(n)), n)
  }

  lemma {:induction false} KallocIsGrowThenCarve(s: State, n: int, lo: int, hi: int)
    requires Inv(s, lo, hi) && Request(n) && CutSafe(s, n)
    ensures var g := Grown(s, n);
            && Inv(g, lo, hi) && g.live == s.live && g.held == s.held
            && var i := FirstFit(g.blocks, n + HEADER + NODE);
               Kalloc(s, n) == if i < |g.blocks| then Running(Carve(g, i, n)) else Halted(g)
    decreases Total(s.pages)
  {
    if FirstFit(s.blocks, n + HEADER + NODE) == |s.blocks|
       && CanGrow(s, PagesFor(n)) {
      GrowInv(s, PagesFor(n), lo, hi);
      GrowShrinksPages(s, PagesFor(n));
      KallocIsGrowThenCarve(Grow(s, PagesFor(n)), n, lo, hi);
    }
  }

  lemma InsertHasLargeExtent(l: seq<Extent>, a: int, n: int, need: int)
    requires AtLeast(l, 0) && 0 < need <= n
    ensures FirstFit(Insert(l, a, n), need) < |Insert(l, a, n)|
  {
    var k := Rank(l, a);
    var m := Insert(l, a, n);
    var j := if MergesDown(l, k, a) then k - 1 else k;
    assert n <= m[j].size;
  }

  /** The number of pages growth asks for: the fewest that hold the request and its header. */
  lemma PagesForIsLeast(n: int, c: int)
    requires 0 <= n
    ensures c == PagesFor(n) <==> (c - 1) * 4096 < n + 4 <= c * 4096
  {
  }

  /** kalloc grows at most once when rounding up to c pages leaves room for a list node, and then takes
      exactly as many pages as 16 bits leave of c, the last of the first run that has them. */
  lemma KallocGrowsAtMostOnce(s: State, n: int, c: nat, lo: int, hi: int)
    requires Inv(s, lo, hi) && 4 <= n <= 0xEFFF_0000
    requires (c - 1) * 4096 < n + 4 && n + 12 <= c * 4096
    ensures var k, i := c % 0x1_0000, FirstFit(s.pages, c % 0x1_0000);
            || Grown(s, n) == s
            || (&& 0 < k && i < |s.pages|
                && Grown(s, n).blocks == Insert(s.blocks, (s.pages[i].End() - k) * 4096, c * 4096)
                && Cells(Grown(s, n).pages) == Cells(s.pages) - Span(Extent(s.pages[i].End() - k, k))
                && Total(Grown(s, n).pages) == Total(s.pages) - k)
    ensures Grown(s, n) == s <==> FirstFit(s.blocks, n + 12) < |s.blocks| || c % 0x1_0000 == 0
                                  || FirstFit(s.pages, c % 0x1_0000) == |s.pages|
  {
    PagesForIsLeast(n, c);
    hide Insert, TakeEnd, Cells, PagesFor, Total, Grow;
    if FirstFit(s.blocks, n + 12) == |s.blocks| && CanGrow(s, c) {
      GrowthTakes(s, c);
      GrowShrinksPages(s, c);
      InsertHasLargeExtent(s.blocks, PageOfRun(s.pages, c % SHORT) * PAGE_SIZE, c * PAGE_SIZE, n + 12);
      assert Grown(s, n) == Grow(s, c);
    }
  }

  lemma GrowthTakes(s: State, c: nat)
    requires Canonical(s.pages) && CanGrow(s, c)
    ensures var k, i := c % 0x1_0000, FirstFit(s.pages, c % 0x1_0000);
            && Grow(s, c).blocks == Insert(s.blocks, (s.pages[i].End() - k) * 4096, c * 4096)
            && Cells(Grow(s, c).pages) == Cells(s.pages) - Span(Extent(s.pages[i].End() - k, k))
            && Total(Grow(s, c).pages) == Total(s.pages) - k
  {
    hide Insert, TakeEnd, Cells;
    var i, k := FirstFit(s.pages, c % SHORT), c % SHORT;
    GrowShrinksPages(s, c);
    TakeEndCells(s.pages, i, k);
  }

  /** With c the fewest pages that hold the request and its header: kalloc panics exactly when, after
      any growth, there is neither a free byte run of n + 12 nor a free run of c pages; it never grows
      while some block would do; and it always leaves a remnant that can hold a list node, so step A4
      never unlinks a block. */
  lemma KallocOutcome(s: State, n: int, c: nat, lo: int, hi: int)
    requires Inv(s, lo, hi) && 4 <= n <= 0xEFFF_0000 && CutSafe(s, n)
    requires (c - 1) * 4096 < n + 4 <= c * 4096
    ensures var g, need, count := Grown(s, n), n + 12, c % 0x1_0000;
            && (Kalloc(s, n).Halted? <==>
                && (forall a :: !(Span(Extent(a, need)) <= Cells(g.blocks)))
                && (count == 0 || forall p :: !(Span(Extent(p, count)) <= Cells(g.pages))))
            && (g != s ==> forall a :: !(Span(Extent(a, need)) <= Cells(s.blocks)))
            && (Kalloc(s, n).Running? ==> |Kalloc(s, n).state.blocks| == |g.blocks|)
  {
    PagesForIsLeast(n, c);
    hide Cells, Canonical, OwnedOnce, Separate, Distinct, Kalloc, PagesFor, Grown, Carve, TakeEnd;
    KallocIsGrowThenCarve(s, n, lo, hi);
    GrownHasNoRun(s, n, lo, hi);
    var g, need := Grown(s, n), n + HEADER + NODE;
    FirstFitFailsIffNoRun(s.blocks, need);
    FirstFitFailsIffNoRun(g.blocks, need);
    if c % SHORT > 0 { FirstFitFailsIffNoRun(g.pages, c % SHORT); }
    NoGrowthNeeded(s, n);
    CarveKeepsCount(g, FirstFit(g.blocks, need), n);
  }

  lemma NoGrowthNeeded(s: State, n: int)
    requires Canonical(s.pages) && 0 <= n
    ensures FirstFit(s.blocks, n + HEADER + NODE) < |s.blocks| ==> Grown(s, n) == s
  {
  }

  lemma CarveKeepsCount(g: State, i: nat, n: int)
    ensures i < |g.blocks| && n + HEADER + NODE <= g.blocks[i].size ==> |Carve(g, i, n).blocks| == |g.blocks|
  {
  }

  /** Where kalloc puts the block: at the upper end of the first free block, after any growth, that has
      room for it, its header and a list node; nothing else changes hands. */
  lemma KallocPlaces(s: State, n: int, lo: int, hi: int)
    requires Inv(s, lo, hi) && 4 <= n <= 0xEFFF_0000 && CutSafe(s, n) && Kalloc(s, n).Running?
    ensures var g, t := Grown(s, n), Kalloc(s, n).state;
            && |t.live| == |s.live| + 1
            && var e := t.live[|s.live|];
            && t.live == g.live + [e] && t.live[..|s.live|] == s.live && t.pages == g.pages && t.held == s.held
            && e.size == n + 4
            && (exists i :: 0 <= i < |g.blocks| && n + 12 <= g.blocks[i].size && e.End() == g.blocks[i].End()
                            && forall j :: 0 <= j < i ==> g.blocks[j].size < n + 12)
            && Cells(t.blocks) == Cells(g.blocks) - Span(e)
  {
    hide Cells, Kalloc, TakeEnd, OwnedOnce;
    KallocIsGrowThenCarve(s, n, lo, hi);
    var g := Grown(s, n);
    var i := FirstFit(g.blocks, n + HEADER + NODE);
    assert Kalloc(s, n) == Running(Carve(g, i, n));
    TakeEndCells(g.blocks, i, n + HEADER);
  }

  lemma {:induction false} GrownHasNoRun(s: State, n: int, lo: int, hi: int)
    requires Inv(s, lo, hi) && Request(n) && CutSafe(s, n)
    ensures var g := Grown(s, n);
            FirstFit(g.blocks, n + HEADER + NODE) == |g.blocks| ==> !CanGrow(g, PagesFor(n))
    decreases Total(s.pages)
  {
    if FirstFit(s.blocks, n + HEADER + NODE) == |s.blocks|
       && CanGrow(s, PagesFor(n)) {
      GrowInv(s, PagesFor(n), lo, hi);
      GrowShrinksPages(s, PagesFor(n));
      GrownHasNoRun(Grow(s, PagesFor(n)), n, lo, hi);
    }
  }

  // ---------------------------------------------------------------- requests beyond the cut

  /** Some block, free or live, is larger than the pool. */
  ghost predicate Outsized(s: State, lo: int, hi: int) {
    || (exists i :: 0 <= i < |s.blocks| && (hi - lo) * PAGE_SIZE < s.blocks[i].size)
    || (exists i :: 0 <= i < |s.live| && (hi - lo) * PAGE_SIZE < s.live[i].size)
  }

  lemma OutsizedBreaksInv(s: State, lo: int, hi: int)
    requires Inv(s, lo, hi)
    ensures !Outsized(s, lo, hi)
  {
    forall i | 0 <= i < |s.blocks| ensures s.blocks[i].size <= (hi - lo) * PAGE_SIZE {
      NoBlockBeyondPool(s, i, lo, hi);
    }
    forall i | 0 <= i < |s.live| ensures s.live[i].size <= (hi - lo) * PAGE_SIZE {
      LiveInPool(s, lo, hi, i);
    }
  }

  /** Once a request beyond the cut has grown the block list, or finds room there, kalloc ends with a
      block that is larger than the pool. */
  lemma {:induction false} KallocBeyondCut(s: State, n: int, lo: int, hi: int)
    requires Canonical(s.pages) && AtLeast(s.blocks, 0) && Request(n)
    requires hi - lo < SHORT <= PagesFor(n) && (CutSafe(s, n) ==> Outsized(s, lo, hi))
    ensures Outsized(Kalloc(s, n).state, lo, hi)
    decreases Total(s.pages)
  {
    hide Insert, TakeEnd;
    var i, c := FirstFit(s.blocks, n + HEADER + NODE), PagesFor(n);
    KallocUnfolds(s, n);
    if i < |s.blocks| {
      var t := Carve(s, i, n);
      assert (hi - lo) * PAGE_SIZE < t.live[|t.live| - 1].size;
    } else if CanGrow(s, c) {
      var g := Grow(s, c);
      var a := PageOfRun(s.pages, c % SHORT) * PAGE_SIZE;
      GrowShrinksPages(s, c);
      InsertAtLeast(s.blocks, a, c * PAGE_SIZE, 0);
      InsertHasLargeExtent(s.blocks, a, c * PAGE_SIZE, c * PAGE_SIZE);
      assert (hi - lo) * PAGE_SIZE < g.blocks[FirstFit(g.blocks, c * PAGE_SIZE)].size;
      KallocBeyondCut(g, n, lo, hi);
    }
  }

  /** kalloc keeps the ownership invariant exactly when no growth has its page count cut. */
  lemma KallocInvIffCutSafe(s: State, n: int, lo: int, hi: int)
    requires Inv(s, lo, hi) && hi - lo < 0x1_0000 && 4 <= n <= 0xEFFF_0000
    ensures Inv(Kalloc(s, n).state, lo, hi) <==> CutSafe(s, n)
    ensures forall c: nat :: (c - 1) * 4096 < n + 4 <= c * 4096 ==>
              (CutSafe(s, n) <==>
                 || FirstFit(s.blocks, n + 12) < |s.blocks|
                 || c < 0x1_0000 || c % 0x1_0000 == 0 || FirstFit(s.pages, c % 0x1_0000) == |s.pages|)
  {
    forall c: nat | (c - 1) * 4096 < n + 4 <= c * 4096
      ensures c == PagesFor(n)
    {
      PagesForIsLeast(n, c);
    }
    hide Inv, Kalloc;
    hide PagesFor;
    if CutSafe(s, n) {
      KallocInv(s, n, lo, hi);
    } else {
      assert Canonical(s.pages) && AtLeast(s.blocks, 0) && SHORT <= PagesFor(n) by { NotSafe(s, n, lo, hi); }
      KallocBeyondCut(s, n, lo, hi);
      var t := Kalloc(s, n).state;
      if Inv(t, lo, hi) { OutsizedBreaksInv(t, lo, hi); }
    }
  }

  lemma NotSafe(s: State, n: int, lo: int, hi: int)
    requires Inv(s, lo, hi) && Request(n) && !CutSafe(s, n)
    ensures Canonical(s.pages) && AtLeast(s.blocks, 0) && SHORT <= PagesFor(n)
  {
  }

  /** On a fresh pool of one megabyte, kalloc(2^28) does not panic: it takes a single page and returns
      the address of the pool's end. */
  lemma KallocCutWitness(s: State, n: int)
    requires s == Initial(256, 512) && n == 0x1000_0000
    ensures Inv(s, 256, 512) && Request(n) && Kalloc(s, n).Running?
    ensures var t := Kalloc(s, n).state;
            |t.live| == 1 && t.live[0].start + HEADER == 512 * PAGE_SIZE && !Inv(t, 256, 512)
  {
    hide Inv, Kalloc;
    InitialInv(256, 512);
    KallocOnFreshPool(256, 512, n);
    KallocInvIffCutSafe(s, n, 256, 512);
  }

  // ---------------------------------------------------------------- what undoes what

  lemma InsertUndoesTakeEnd(l: seq<Extent>, i: nat, n: int)
    requires Canonical(l) && i < |l| && 0 < n <= l[i].size
    ensures Insert(TakeEnd(l, i, n), l[i].End() - n, n) == l
  {
    hide Insert, TakeEnd;
    var m, a := TakeEnd(l, i, n), l[i].End() - n;
    TakeEndCanonical(l, i, n);
    TakeEndCells(l, i, n);
    forall x | a <= x < a + n
      ensures !Covers(m, x)
    {
      TakeEndCovers(l, i, n, x);
    }
    InsertCanonical(m, a, n);
    InsertCells(m, a, n);
    assert Cells(Insert(m, a, n)) == Cells(l);
    CanonicalUnique(Insert(m, a, n), l);
  }

  /** A carved block is freed into the remnant below it, so mem_free reads back the request. */
  lemma CarvedMergesDown(g: State, i: nat, n: int)
    requires Canonical(g.blocks) && 4 <= n && i < |g.blocks|
    requires n + HEADER + NODE <= g.blocks[i].size
    ensures SizeRead(Carve(g, i, n).blocks, Extent(g.blocks[i].End() - n - HEADER, n + HEADER)) == n
  {
    var m, a := TakeEnd(g.blocks, i, n + HEADER), g.blocks[i].End() - n - HEADER;
    TakeEndCanonical(g.blocks, i, n + HEADER);
    assert m[i].End() == a;
    assert i + 1 < |m| ==> m[i + 1] == g.blocks[i + 1];
    RankUnique(m, a, i + 1);
  }

  lemma RemoveLast(live: seq<Extent>, e: Extent)
    ensures (live + [e])[..|live|] + (live + [e])[|live| + 1..] == live
  {
  }

  /** kfree of a live block whose tail is quiet, field by field. */
  lemma QuietKfree(t: State, i: nat)
    requires i < |t.live| && TailPages(t.blocks, t.live[i]) == 0
    ensures Kfree(t, i) == State(t.pages, Insert(t.blocks, t.live[i].start, t.live[i].size),
                                 t.live[..i] + t.live[i + 1..], t.held)
  {
  }

  lemma KfreeUndoesCarve(g: State, i: nat, n: int)
    requires Canonical(g.blocks) && 4 <= n < PAGE_SIZE && i < |g.blocks|
    requires n + HEADER + NODE <= g.blocks[i].size
    ensures Kfree(Carve(g, i, n), |g.live|) == g
  {
    hide Insert, TakeEnd;
    var e := Extent(g.blocks[i].End() - n - HEADER, n + HEADER);
    CarvedMergesDown(g, i, n);
    var t := Carve(g, i, n);
    assert t.live[|g.live|] == e;
    QuietKfree(t, |g.live|);
    InsertUndoesTakeEnd(g.blocks, i, n + HEADER);
    RemoveLast(g.live, e);
  }

  /** Freeing what kalloc just returned restores, for requests below a page, exactly the
      lists that stood after any growth. */
  lemma KfreeUndoesKalloc(s: State, n: int, lo: int, hi: int)
    requires Inv(s, lo, hi) && 4 <= n < PAGE_SIZE && Kalloc(s, n).Running?
    ensures var t := Kalloc(s, n).state;
            |t.live| == |s.live| + 1 && Kfree(t, |s.live|) == Grown(s, n)
  {
    KallocIsGrowThenCarve(s, n, lo, hi);
    KfreeUndoesCarve(Grown(s, n), FirstFit(Grown(s, n).blocks, n + HEADER + NODE), n);
  }

  const FRESH_POOL_AFTER_8192: State :=
    State([Extent(256, 253)], [Extent(509 * PAGE_SIZE, 4092)], [Extent(509 * PAGE_SIZE + 4092, 8196)], [])

  /** The first kalloc of a fresh pool: one growth by c pages, of which k after the cut are taken. */
  lemma KallocOnFreshPool(lo: int, hi: int, n: int)
    requires 0 < lo && Request(n) && n + HEADER + NODE <= PagesFor(n) * PAGE_SIZE
    requires 0 < PagesFor(n) % SHORT < hi - lo
    ensures var k, top := PagesFor(n) % SHORT, PagesFor(n) * PAGE_SIZE;
            var a := (hi - k) * PAGE_SIZE;
            Kalloc(Initial(lo, hi), n)
            == Running(State([Extent(lo, hi - lo - k)], [Extent(a, top - n - HEADER)],
                             [Extent(a + top - n - HEADER, n + HEADER)], []))
  {
    var s, c := Initial(lo, hi), PagesFor(n);
    var k := c % SHORT;
    assert FirstFit(s.pages, k) == 0;
    var b := Extent((hi - k) * PAGE_SIZE, c * PAGE_SIZE);
    var g := State([Extent(lo, hi - lo - k)], [b], [], []);
    assert PageOfRun(s.pages, k) == hi - k;
    assert TakeEnd(s.pages, 0, k) == g.pages;
    assert Insert([], b.start, b.size) == [b];
    assert Grow(s, c) == g;
    GrowShrinksPages(s, c);
    KallocUnfolds(s, n);
    hide Grow, Insert, PagesFor;
    assert FirstFit(g.blocks, n + HEADER + NODE) == 0;
    KallocUnfolds(g, n);
    assert TakeEnd(g.blocks, 0, n + HEADER) == [Extent(b.start, b.size - n - HEADER)];
  }

  lemma KallocUnfolds(s: State, n: int)
    requires Canonical(s.pages) && 0 <= n
    ensures var i := FirstFit(s.blocks, n + HEADER + NODE);
            && (i < |s.blocks| ==> Kalloc(s, n) == Running(Carve(s, i, n)))
            && (i == |s.blocks| && !CanGrow(s, PagesFor(n)) ==> Kalloc(s, n) == Halted(s))
            && (i == |s.blocks| && CanGrow(s, PagesFor(n)) ==>
                  && Canonical(Grow(s, PagesFor(n)).pages)
                  && Kalloc(s, n) == Kalloc(Grow(s, PagesFor(n)), n))
  {
    if CanGrow(s, PagesFor(n)) { GrowShrinksPages(s, PagesFor(n)); }
  }

  lemma FreshPoolInv(t: State)
    requires Kalloc(Initial(256, 512), 8192) == Running(t)
    ensures Inv(t, 256, 512)
  {
    InitialInv(256, 512);
    KallocInv(Initial(256, 512), 8192, 256, 512);
  }

  lemma FreshPoolTail()
    ensures TailPages(FRESH_POOL_AFTER_8192.blocks, FRESH_POOL_AFTER_8192.live[0]) == 1
  {
    var t := FRESH_POOL_AFTER_8192;
    assert Rank(t.blocks, t.live[0].start) == 1;
  }

  /** For larger requests it does not: on a fresh pool, kfree(kalloc(8192)) leaves page 510
      on the page list while its bytes are also on the block list. */
  lemma KfreeTailWitness(t: State)
    requires t == FRESH_POOL_AFTER_8192
    ensures Kalloc(Initial(256, 512), 8192) == Running(t) && Inv(t, 256, 512)
    ensures !Inv(Kfree(t, 0), 256, 512)
  {
    hide Insert, Kfree, Kalloc, Inv, TailPages;
    KallocOnFreshPool(256, 512, 8192);
    FreshPoolInv(t);
    FreshPoolTail();
    KfreeInvIffQuietTail(t, 0, 256, 512);
  }

  lemma SameElementsSameCells(es: seq<Extent>, fs: seq<Extent>)
    requires multiset(es) == multiset(fs)
    ensures Cells(es) <= Cells(fs)
  {
    forall x | Covers(es, x)
      ensures Covers(fs, x)
    {
      var i :| 0 <= i < |es| && es[i].Holds(x);
      assert es[i] in multiset(fs);
      var j :| 0 <= j < |fs| && fs[j] == es[i];
    }
  }

  // ---------------------------------------------------------------- donating the init segment

  /** The kernel after kalloc_init, with its own image from page `first` on counted in: n bytes of init
      code and data, then the bss and what else lies below the pool. */
  function Booted(first: int, lo: int, hi: int, n: int): State {
    var a := first * PAGE_SIZE;
    State([Extent(lo, hi - lo)], [], [Extent(a, n), Extent(a + n, lo * PAGE_SIZE - a - n)], [])
  }

  /** Every run of the booted kernel owns each byte once, too. */
  lemma BootedRunInv(first: int, lo: int, hi: int, n: int, ops: seq<Op>, t: State)
    requires 0 < first < lo < hi && NODE <= n && n + NODE <= (lo - first) * PAGE_SIZE
    requires Reaches(Booted(first, lo, hi, n), ops, t)
    ensures Inv(t, first, hi) && Account(t) == (hi - first) * PAGE_SIZE
  {
    var s := Booted(first, lo, hi, n);
    BootedInv(first, lo, hi, n);
    hide Inv, Reaches;
    RunInv(s, ops, t, first, hi);
  }

  lemma BootedInv(first: int, lo: int, hi: int, n: int)
    requires 0 < first < lo < hi && NODE <= n && n + NODE <= (lo - first) * PAGE_SIZE
    ensures Inv(Booted(first, lo, hi, n), first, hi)
    ensures Account(Booted(first, lo, hi, n)) == (hi - first) * PAGE_SIZE
  {
    var s := Booted(first, lo, hi, n);
    forall x: int
      ensures OwnedOnce(s, first, hi, x)
    {
      assert PageFree(s, x) <==> s.pages[0].Holds(x / PAGE_SIZE);
      assert Live(s, x) <==> s.live[0].Holds(x) || s.live[1].Holds(x);
      assert !BlockFree(s, x) && !Held(s, x);
    }
    TotalConcat([s.live[0]], [s.live[1]]);
    assert s.live == [s.live[0]] + [s.live[1]];
    forall e: Extent ensures Total([e]) == e.size { assert [e][1..] == []; }
  }

  /** The boot-time mem_free of the init segment, a page-aligned range at the bottom of all memory with
      no free block behind it, keeps ownership exactly when the segment is smaller than a page. */
  lemma DonationInvIff(s: State, i: nat, lo: int, hi: int)
    requires Inv(s, lo, hi) && i < |s.live| && s.live[i].start == lo * PAGE_SIZE && !BlockFree(s, s.live[i].End())
    ensures Inv(Kfree(s, i), lo, hi) <==> s.live[i].size < PAGE_SIZE
  {
    var e := s.live[i];
    var k := Rank(s.blocks, e.start);
    assert !MergesDown(s.blocks, k, e.start) by {
      if k > 0 { NothingBelowPool(s, k - 1, lo, hi); }
    }
    assert !MergesUp(s.blocks, k, e.start, e.size) by {
      if k < |s.blocks| { StartIsFree(s.blocks, k); }
    }
    assert SizeRead(s.blocks, e) == e.size && PageAlign(e.start) == e.start;
    hide Inv, Kfree;
    KfreeInvIffQuietTail(s, i, lo, hi);
  }

  lemma NothingBelowPool(s: State, k: nat, lo: int, hi: int)
    requires Inv(s, lo, hi) && k < |s.blocks|
    ensures lo * PAGE_SIZE < s.blocks[k].End()
  {
    StartIsFree(s.blocks, k);
    assert OwnedOnce(s, lo, hi, s.blocks[k].start);
  }

  // ---------------------------------------------------------------- what clients hold decides the lists

  ghost predicate SameClients(s: State, t: State) {
    (forall x :: Live(s, x) <==> Live(t, x)) && (forall p :: p in s.held <==> p in t.held)
  }

  /** Two states of one pool in which clients own the same memory and one list is the same agree in
      the other list too: there is no freedom left in how free memory is recorded. */
  lemma ListsDetermined(s: State, t: State, lo: int, hi: int)
    requires Inv(s, lo, hi) && Inv(t, lo, hi) && SameClients(s, t)
    ensures s.pages == t.pages <==> s.blocks == t.blocks
  {
    if s.pages == t.pages {
      forall x: int
        ensures Covers(s.blocks, x) <==> Covers(t.blocks, x)
      {
        SameOwner(s, t, lo, hi, x);
      }
      assert Cells(s.blocks) == Cells(t.blocks);
      CanonicalUnique(s.blocks, t.blocks);
    } else if s.blocks == t.blocks {
      forall p: int
        ensures Covers(s.pages, p) <==> Covers(t.pages, p)
      {
        SameOwner(s, t, lo, hi, p * PAGE_SIZE);
      }
      assert Cells(s.pages) == Cells(t.pages);
      CanonicalUnique(s.pages, t.pages);
    }
  }

  lemma SameOwner(s: State, t: State, lo: int, hi: int, x: int)
    requires Inv(s, lo, hi) && Inv(t, lo, hi) && SameClients(s, t)
    ensures PageFree(s, x) || BlockFree(s, x) <==> PageFree(t, x) || BlockFree(t, x)
    ensures !(PageFree(s, x) && BlockFree(s, x)) && !(PageFree(t, x) && BlockFree(t, x))
  {
    assert OwnedOnce(s, lo, hi, x) && OwnedOnce(t, lo, hi, x);
    assert Live(s, x) <==> Live(t, x);
    assert Held(s, x) <==> Held(t, x);
  }

  ghost predicate OnlyFrees(ops: seq<Op>) { forall i :: 0 <= i < |ops| ==> ops[i].DoKfree? }

  ghost predicate OnlyReleases(ops: seq<Op>) { forall i :: 0 <= i < |ops| ==> ops[i].DoReleasePage? }

  lemma {:induction false} FreesKeepPages(s: State, ops: seq<Op>, t: State)
    requires Reaches(s, ops, t) && OnlyFrees(ops)
    ensures t.pages == s.pages && t.held == s.held
    decreases ops
  {
    if ops != [] {
      QuietKfree(s, ops[0].block);
      FreesKeepPages(Kfree(s, ops[0].block), ops[1..], t);
    }
  }

  lemma {:induction false} ReleasesKeepBlocks(s: State, ops: seq<Op>, t: State)
    requires Reaches(s, ops, t) && OnlyReleases(ops)
    ensures t.blocks == s.blocks && t.live == s.live
    decreases ops
  {
    if ops != [] { ReleasesKeepBlocks(ReleasePage(s, ops[0].index), ops[1..], t); }
  }

  lemma SameBlocksSameCells(a: seq<Extent>, b: seq<Extent>)
    requires multiset(a) == multiset(b)
    ensures forall x :: Covers(a, x) <==> Covers(b, x)
  {
    SameElementsSameCells(a, b);
    SameElementsSameCells(b, a);
    forall x: int ensures Covers(a, x) <==> Covers(b, x) {
      assert x in Cells(a) <==> x in Cells(b);
    }
  }

  /** Two runs of kfree that free the same blocks in different orders, none of them taking the
      release tail, end with identical lists. */
  lemma FreeOrderIrrelevant(s: State, ops: seq<Op>, t: State, ops': seq<Op>, t': State, lo: int, hi: int)
    requires Inv(s, lo, hi) && OnlyFrees(ops) && OnlyFrees(ops')
    requires Reaches(s, ops, t) && Reaches(s, ops', t') && multiset(t.live) == multiset(t'.live)
    ensures t.blocks == t'.blocks && t.pages == t'.pages && t.held == t'.held
  {
    hide Inv, Reaches;
    RunInv(s, ops, t, lo, hi);
    RunInv(s, ops', t', lo, hi);
    FreesKeepPages(s, ops, t);
    FreesKeepPages(s, ops', t');
    SameBlocksSameCells(t.live, t'.live);
    ListsDetermined(t, t', lo, hi);
  }

  /** Pages taken as one run and released one by one, in any order, leave both lists as they were. */
  lemma ReleaseUndoesTakePages(s: State, count: nat, ops: seq<Op>, t: State, lo: int, hi: int)
    requires Inv(s, lo, hi) && 0 < count && TakePages(s, count).Running?
    requires OnlyReleases(ops) && Reaches(TakePages(s, count).state, ops, t) && multiset(t.held) == multiset(s.held)
    ensures t.pages == s.pages && t.blocks == s.blocks && t.live == s.live
  {
    hide Inv, Reaches;
    var u := TakePages(s, count).state;
    TakePagesInv(s, count, lo, hi);
    RunInv(u, ops, t, lo, hi);
    ReleasesKeepBlocks(u, ops, t);
    forall p: int ensures p in s.held <==> p in t.held {
      assert p in multiset(s.held) <==> p in multiset(t.held);
    }
    ListsDetermined(s, t, lo, hi);
  }
}
