/**
 kernel/memory.c on raw memory.  Both free lists live inside the bytes of `ram`; the
 ghost fields say which extents they represent and who holds the rest of the pool.
 */
module KernelMemory {
  import opened Extents
  import opened Ram
  import opened FreeList
  import opened Allocator

  /** Every byte that differs between m and r belongs to the list l. */
  ghost predicate ChangesOnly(kind: Kind, m: seq<Byte>, r: seq<Byte>, head: int, l: seq<Extent>) {
    |r| == |m| && forall x :: 0 <= x < |m| && !Uses(kind, head, l, x) ==> r[x] == m[x]
  }

  /** The extents are part of the pool of pages lo, ..., hi - 1. */
  ghost predicate Within(kind: Kind, l: seq<Extent>, lo: int, hi: int) {
    forall i :: 0 <= i < |l| ==> Pages.Addr(lo) <= kind.Addr(l[i].start) && kind.Addr(l[i].End()) <= Pages.Addr(hi)
  }

  lemma ConfinedToInserted(kind: Kind, m: seq<Byte>, r: seq<Byte>, head: nat, l: seq<Extent>, a: int, n: int)
    requires Canonical(l) && Roomy(kind, l) && 0 < n && 8 <= kind.Addr(n)
    requires Confined(m, r, Node(kind, head, l, Rank(l, a)), kind.Addr(a))
    ensures ChangesOnly(kind, m, r, head, Insert(l, a, n))
  {
    var k := Rank(l, a);
    forall x | 0 <= x < |m| && r[x] != m[x]
      ensures Uses(kind, head, Insert(l, a, n), x)
    {
      InsertCovers(l, a, n, CellOf(kind, x));
      AddrOrder(kind, Extent(a, n), 0);
      if k > 0 && !(kind.Addr(a) <= x < kind.Addr(a) + 8) {
        AddrOrder(kind, l[k - 1], 0);
        assert l[k - 1].Holds(CellOf(kind, x));
      }
    }
  }

  lemma ConfinedToTaken(kind: Kind, m: seq<Byte>, r: seq<Byte>, head: nat, l: seq<Extent>, i: nat)
    requires Canonical(l) && Roomy(kind, l) && i < |l|
    requires Confined(m, r, Node(kind, head, l, i), kind.Addr(l[i].start))
    ensures ChangesOnly(kind, m, r, head, l)
  {
    forall x | 0 <= x < |m| && r[x] != m[x]
      ensures Uses(kind, head, l, x)
    {
      AddrOrder(kind, l[i], 0);
      if kind.Addr(l[i].start) <= x < kind.Addr(l[i].start) + 8 {
        assert l[i].Holds(CellOf(kind, x));
      } else if i > 0 {
        AddrOrder(kind, l[i - 1], 0);
        assert l[i - 1].Holds(CellOf(kind, x));
      }
    }
  }

  /** A well-formed list inside the pool, threaded through m. */
  ghost predicate Good(kind: Kind, m: seq<Byte>, head: nat, l: seq<Extent>, lo: int, hi: int) {
    && Canonical(l) && Roomy(kind, l) && HeadsClear(kind, head, l) && Within(kind, l, lo, hi)
    && Threaded(kind, m, head, l)
  }

  lemma TakeEndGood(kind: Kind, head: nat, l: seq<Extent>, i: nat, n: int, lo: int, hi: int)
    requires Canonical(l) && Roomy(kind, l) && HeadsClear(kind, head, l) && Within(kind, l, lo, hi)
    requires i < |l| && 0 < n <= l[i].size && (n < l[i].size ==> 8 <= kind.Addr(l[i].size - n))
    ensures var t := TakeEnd(l, i, n);
            Canonical(t) && Roomy(kind, t) && HeadsClear(kind, head, t) && Within(kind, t, lo, hi)
  {
    TakeEndCanonical(l, i, n);
    var t := TakeEnd(l, i, n);
    forall j | 0 <= j < |t|
      ensures 8 <= kind.Addr(t[j].size) && HeadClear(kind, head, t[j])
              && Pages.Addr(lo) <= kind.Addr(t[j].start) && kind.Addr(t[j].End()) <= Pages.Addr(hi)
    {
      var o := if j < i || n < l[i].size then l[j] else l[j + 1];
      assert t[j].start == o.start && t[j].End() <= o.End();
      assert HeadClear(kind, head, o);
    }
  }

  /** The page allocator's writes when it takes `count` pages off the run at p, which the
      node at q precedes. */
  function PageTaken(m: seq<Byte>, q: nat, p: nat, count: nat): seq<Byte>
    requires 0 < p && p + 8 <= |m| && q + 8 <= |m| && count <= Load16(m, p)
  {
    var r := Store16(m, p, Load16(m, p) - count);
    if Load16(m, p) == count then Store32(r, q + 4, Next(r, p)) else r
  }

  lemma PageTakenGood(m: seq<Byte>, head: nat, l: seq<Extent>, i: nat, count: nat, lo: int, hi: int)
    requires Good(Pages, m, head, l, lo, hi) && i < |l| && 0 < count <= l[i].size
    ensures var q, p := Node(Pages, head, l, i), Pages.Addr(l[i].start);
            && 0 < p && p + 8 <= |m| && 0 <= q && q + 8 <= |m| && Load16(m, p) == l[i].size
            && Next(m, q) == p
            && var r := PageTaken(m, q, p, count);
               Good(Pages, r, head, TakeEnd(l, i, count), lo, hi) && ChangesOnly(Pages, m, r, head, l)
  {
    var q, p := Node(Pages, head, l, i), Pages.Addr(l[i].start);
    ThreadAt(Pages, m, head, l, i);
    ThreadAt(Pages, m, head, l, i + 1);
    assert Apart8(q, p) by { NodesOffHead(Pages, l, head); }
    TakeEndGood(Pages, head, l, i, count, lo, hi);
    if l[i].size == count {
      PageTakenAll(m, head, l, i);
    } else {
      PageTakenSome(m, head, l, i, count);
    }
  }

  lemma PageTakenAll(m: seq<Byte>, head: nat, l: seq<Extent>, i: nat)
    requires Canonical(l) && Roomy(Pages, l) && HeadsClear(Pages, head, l) && Threaded(Pages, m, head, l)
    requires i < |l| && 0 < Pages.Addr(l[i].start) && Pages.Addr(l[i].start) + 8 <= |m|
    requires Load16(m, Pages.Addr(l[i].start)) == l[i].size
             && Next(m, Pages.Addr(l[i].start)) == Link(Pages, l[i + 1..], 0)
    requires NodeIs(Pages, m, Node(Pages, head, l, i), if i == 0 then 0 else l[i - 1].size, Pages.Addr(l[i].start))
    requires Apart8(Node(Pages, head, l, i), Pages.Addr(l[i].start))
    ensures var r := PageTaken(m, Node(Pages, head, l, i), Pages.Addr(l[i].start), l[i].size);
            Threaded(Pages, r, head, TakeEnd(l, i, l[i].size)) && ChangesOnly(Pages, m, r, head, l)
  {
    var r := PageTaken(m, Node(Pages, head, l, i), Pages.Addr(l[i].start), l[i].size);
    ConfinedToTaken(Pages, m, r, head, l, i);
    ThreadTake(Pages, m, r, head, l, i);
  }

  lemma PageTakenSome(m: seq<Byte>, head: nat, l: seq<Extent>, i: nat, count: nat)
    requires Canonical(l) && Roomy(Pages, l) && HeadsClear(Pages, head, l) && Threaded(Pages, m, head, l)
    requires i < |l| && 0 < Pages.Addr(l[i].start) && Pages.Addr(l[i].start) + 8 <= |m| && 0 < count < l[i].size
    requires Load16(m, Pages.Addr(l[i].start)) == l[i].size
             && Next(m, Pages.Addr(l[i].start)) == Link(Pages, l[i + 1..], 0)
    requires 0 <= Node(Pages, head, l, i) && Node(Pages, head, l, i) + 8 <= |m|
    ensures var r := PageTaken(m, Node(Pages, head, l, i), Pages.Addr(l[i].start), count);
            Threaded(Pages, r, head, TakeEnd(l, i, count)) && ChangesOnly(Pages, m, r, head, l)
  {
    var r := PageTaken(m, Node(Pages, head, l, i), Pages.Addr(l[i].start), count);
    ConfinedToTaken(Pages, m, r, head, l, i);
    ThreadShrink(Pages, m, r, head, l, i, count);
  }

  // ---------------------------------------------------------------- Algorithm B's writes

  /** One more than the largest count a node can hold. */
  function Limit(kind: Kind): int {
    match kind
    case Blocks => 0x1_0000_0000
    case Pages => 0x1_0000
  }

  function StoreCount(kind: Kind, m: seq<Byte>, a: nat, v: int): (r: seq<Byte>)
    requires a + 8 <= |m| && 0 <= v < Limit(kind)
    ensures SameOutside(m, r, a, 4) && kind.Count(r, a) == v && Next(r, a) == Next(m, a)
  {
    match kind
    case Blocks => Store32(m, a, v)
    case Pages => Store16(m, a, v)
  }

  /** Step B3: the new node's link skips the upper neighbour p when the two merge. */
  function LinkedUp(m: seq<Byte>, p: nat, cur: nat, up: bool): (r: seq<Byte>)
    requires cur + 8 <= |m| && (up ==> p + 8 <= |m|) && p < 0x1_0000_0000
    ensures SameOutside(m, r, cur + 4, 4) && Next(r, cur) == if up then Next(m, p) else p
  {
    Store32(m, cur + 4, if up then Next(m, p) else p)
  }

  /** Step B4: the lower neighbour q swallows the new node, or is linked to it. */
  function LinkedDown(kind: Kind, m: seq<Byte>, q: nat, cur: nat, size: int, down: bool): seq<Byte>
    requires cur + 8 <= |m| && q + 8 <= |m| && cur < 0x1_0000_0000 && 0 <= size < Limit(kind)
    requires down ==> 0 <= kind.Count(m, q) + size < Limit(kind)
  {
    if down then
      var r := StoreCount(kind, m, q, kind.Count(m, q) + size);
      Store32(r, q + 4, Next(r, cur))
    else
      StoreCount(kind, Store32(m, q + 4, cur), cur, size)
  }

  lemma LinkedDownMerges(kind: Kind, m: seq<Byte>, q: nat, cur: nat, size: int)
    requires 0 < q && cur + 8 <= |m| && q + 8 <= |m| && cur < 0x1_0000_0000 && 0 <= size < Limit(kind)
    requires 0 <= kind.Count(m, q) + size < Limit(kind) && Apart8(q, cur)
    ensures var r := LinkedDown(kind, m, q, cur, size, true);
            NodeIs(kind, r, q, kind.Count(m, q) + size, Next(m, cur)) && Confined(m, r, q, cur)
  {
    var r := StoreCount(kind, m, q, kind.Count(m, q) + size);
    assert Next(r, cur) == Next(m, cur);
  }

  lemma LinkedDownLinks(kind: Kind, m: seq<Byte>, q: nat, cur: nat, size: int)
    requires 0 < q && 0 < cur && cur + 8 <= |m| && q + 8 <= |m| && cur < 0x1_0000_0000 && 0 <= size < Limit(kind)
    requires Apart8(q, cur)
    ensures var r := LinkedDown(kind, m, q, cur, size, false);
            && NodeIs(kind, r, q, kind.Count(m, q), cur) && NodeIs(kind, r, cur, size, Next(m, cur))
            && Confined(m, r, q, cur)
  {
    var r := Store32(m, q + 4, cur);
    assert kind.Count(r, q) == kind.Count(m, q) && Next(r, cur) == Next(m, cur);
    var t := StoreCount(kind, r, cur, size);
    assert kind.Count(t, q) == kind.Count(r, q) && Next(t, q) == Next(r, q);
  }

  /** A new extent that is clear of the list fits at its rank. */
  lemma FitsAtRank(kind: Kind, head: nat, l: seq<Extent>, a: int, n: int)
    requires Canonical(l) && Roomy(kind, l) && HeadsClear(kind, head, l)
    requires 0 < a && 0 < n && 8 <= kind.Addr(n) && Fresh(l, a, n) && HeadClear(kind, head, Extent(a, n))
    ensures Fits(kind, head, l, Rank(l, a), a, n)
  {
    FreshNeighbours(l, a, n);
  }

  lemma NodeBelowNew(kind: Kind, head: nat, l: seq<Extent>, k: nat, a: int, n: int)
    requires k <= |l| && Fits(kind, head, l, k, a, n)
    ensures Apart8(Node(kind, head, l, k), kind.Addr(a)) && 0 < kind.Addr(a)
    ensures k < |l| ==> kind.Addr(a) + 8 <= kind.Addr(l[k].start)
    ensures k > 0 && k < |l| ==> Node(kind, head, l, k) + 8 <= kind.Addr(l[k].start)
  {
    AddrOrder(kind, Extent(a, n), if k < |l| then l[k].start else 0);
    assert HeadClear(kind, head, Extent(a, n));
    if k > 0 {
      AddrOrder(kind, l[k - 1], a);
      AddrOrder(kind, l[k - 1], if k < |l| then l[k].start else a);
    }
  }

  lemma LinkedNodes(kind: Kind, m: seq<Byte>, head: nat, l: seq<Extent>, k: nat, a: int, n: int)
    requires k <= |l| && Threaded(kind, m, head, l) && Fits(kind, head, l, k, a, n)
    ensures 0 < Node(kind, head, l, k) && Node(kind, head, l, k) + 8 <= |m|
    ensures kind.Count(m, Node(kind, head, l, k)) == if k == 0 then 0 else l[k - 1].size
    ensures Next(m, Node(kind, head, l, k)) == Link(kind, l[k..], 0)
    ensures k < |l| ==> NodeIs(kind, m, kind.Addr(l[k].start), l[k].size, Link(kind, l[k + 1..], 0))
  {
    ThreadAt(kind, m, head, l, k);
    if k < |l| { ThreadAt(kind, m, head, l, k + 1); }
  }

  /** The counts that merging can produce fit their field. */
  ghost predicate CountsFit(kind: Kind, l: seq<Extent>, k: nat, a: int, n: int)
    requires k <= |l|
  {
    0 < n && UpSize(l, k, a, n) < Limit(kind) && (k > 0 ==> l[k - 1].size + UpSize(l, k, a, n) < Limit(kind))
  }

  /** What the walk has found when it stops at rank k: q precedes the new node, p follows it. */
  ghost predicate AtRank(kind: Kind, m: seq<Byte>, l: seq<Extent>, k: nat, q: int, p: int, cur: int)
    requires k <= |l|
  {
    && 0 < q && q + 8 <= |m| && 0 <= p < 0x1_0000_0000 && 0 < cur && cur + 8 <= |m| && Apart8(q, cur)
    && kind.Count(m, q) == (if k == 0 then 0 else l[k - 1].size)
    && (k < |l| ==> NodeIs(kind, m, p, l[k].size, Link(kind, l[k + 1..], 0)) && Apart8(cur, p))
  }

  lemma WalkedToRank(kind: Kind, m: seq<Byte>, head: nat, l: seq<Extent>, k: nat, a: int, n: int)
    requires k <= |l| && Threaded(kind, m, head, l) && Fits(kind, head, l, k, a, n)
    requires |m| <= 0x1_0000_0000 && kind.Addr(a) + 8 <= |m|
    ensures AtRank(kind, m, l, k, Node(kind, head, l, k), Link(kind, l[k..], 0), kind.Addr(a))
  {
    LinkedNodes(kind, m, head, l, k, a, n);
    NodeBelowNew(kind, head, l, k, a, n);
  }

  lemma LinkedUpNodes(kind: Kind, m: seq<Byte>, l: seq<Extent>, k: nat, q: int, p: int, cur: int, a: int, n: int)
    requires k <= |l| && AtRank(kind, m, l, k, q, p, cur) && |m| <= 0x1_0000_0000 && p == Link(kind, l[k..], 0)
    ensures var r := LinkedUp(m, p, cur, MergesUp(l, k, a, n));
            kind.Count(r, q) == kind.Count(m, q) && Next(r, cur) == Link(kind, UpRest(l, k, a, n), 0)
  {
  }

  lemma ConfinedAfter(m: seq<Byte>, r1: seq<Byte>, r: seq<Byte>, q: int, cur: int)
    requires SameOutside(m, r1, cur + 4, 4) && Confined(r1, r, q, cur)
    ensures Confined(m, r, q, cur)
  {
  }

  /** B3 has led to r1; B4 merges into q ... */
  lemma MergedThreads(kind: Kind, m: seq<Byte>, r1: seq<Byte>, head: nat, l: seq<Extent>, k: nat, a: int, n: int,
      q: nat, cur: nat)
    requires k <= |l| && Threaded(kind, m, head, l) && Fits(kind, head, l, k, a, n) && CountsFit(kind, l, k, a, n)
    requires MergesDown(l, k, a) && q == Node(kind, head, l, k) && cur == kind.Addr(a)
    requires 0 < q && q + 8 <= |m| <= 0x1_0000_0000 && cur + 8 <= |m| && Apart8(q, cur)
    requires SameOutside(m, r1, cur + 4, 4)
    requires kind.Count(r1, q) == l[k - 1].size && Next(r1, cur) == Link(kind, UpRest(l, k, a, n), 0)
    ensures var r := LinkedDown(kind, r1, q, cur, UpSize(l, k, a, n), true);
            Threaded(kind, r, head, InsertAt(l, k, a, n)) && Confined(m, r, q, cur)
  {
    var r := LinkedDown(kind, r1, q, cur, UpSize(l, k, a, n), true);
    LinkedDownMerges(kind, r1, q, cur, UpSize(l, k, a, n));
    ConfinedAfter(m, r1, r, q, cur);
    ThreadMerge(kind, m, r, head, l, k, a, n);
  }

  /** ... or links q to the new node. */
  lemma NewThreads(kind: Kind, m: seq<Byte>, r1: seq<Byte>, head: nat, l: seq<Extent>, k: nat, a: int, n: int, q: nat,
      cur: nat)
    requires k <= |l| && Threaded(kind, m, head, l) && Fits(kind, head, l, k, a, n) && CountsFit(kind, l, k, a, n)
    requires !MergesDown(l, k, a) && q == Node(kind, head, l, k) && cur == kind.Addr(a)
    requires 0 < q && q + 8 <= |m| <= 0x1_0000_0000 && 0 < cur && cur + 8 <= |m| && Apart8(q, cur)
    requires SameOutside(m, r1, cur + 4, 4)
    requires kind.Count(r1, q) == (if k == 0 then 0 else l[k - 1].size)
             && Next(r1, cur) == Link(kind, UpRest(l, k, a, n), 0)
    ensures var r := LinkedDown(kind, r1, q, cur, UpSize(l, k, a, n), false);
            Threaded(kind, r, head, InsertAt(l, k, a, n)) && Confined(m, r, q, cur)
  {
    var r := LinkedDown(kind, r1, q, cur, UpSize(l, k, a, n), false);
    LinkedDownLinks(kind, r1, q, cur, UpSize(l, k, a, n));
    ConfinedAfter(m, r1, r, q, cur);
    ThreadNew(kind, m, r, head, l, k, a, n);
  }

  /** The extents of a list in the pool keep their counts within the fields' width. */
  lemma PoolCountsFit(kind: Kind, head: nat, l: seq<Extent>, k: nat, a: int, n: int, lo: int, hi: int)
    requires k <= |l| && Fits(kind, head, l, k, a, n) && Within(kind, l, lo, hi) && 0 < n
    requires 0 < lo && hi <= 0x1_0000 && Pages.Addr(lo) <= kind.Addr(a) && kind.Addr(a + n) <= Pages.Addr(hi)
    ensures CountsFit(kind, l, k, a, n)
  {
    assert k > 0 ==> Pages.Addr(lo) <= kind.Addr(l[k - 1].start);
    assert k < |l| ==> kind.Addr(l[k].End()) <= Pages.Addr(hi);
  }

  ghost predicate InBounds(kind: Kind, e: Extent, lo: int, hi: int) {
    8 <= kind.Addr(e.size) && Pages.Addr(lo) <= kind.Addr(e.start) && kind.Addr(e.End()) <= Pages.Addr(hi)
  }

  lemma SpliceBounds(kind: Kind, head: nat, l: seq<Extent>, b: nat, e: Extent, t: nat, lo: int, hi: int)
    requires Roomy(kind, l) && Within(kind, l, lo, hi) && b <= t <= |l| && InBounds(kind, e, lo, hi)
    requires head + 8 <= Pages.Addr(lo) || Pages.Addr(hi) <= head
    ensures var s := l[..b] + [e] + l[t..];
            Roomy(kind, s) && Within(kind, s, lo, hi) && HeadsClear(kind, head, s)
  {
    var s := l[..b] + [e] + l[t..];
    forall j | 0 <= j < |s|
      ensures InBounds(kind, s[j], lo, hi) && HeadClear(kind, head, s[j])
    {
      var o := if j < b then l[j] else if j == b then e else l[t + j - b - 1];
      assert s[j] == o;
      assert InBounds(kind, o, lo, hi);
    }
  }

  lemma InsertGood(kind: Kind, head: nat, l: seq<Extent>, a: int, n: int, lo: int, hi: int)
    requires Canonical(l) && Roomy(kind, l) && HeadsClear(kind, head, l) && Within(kind, l, lo, hi)
    requires 0 < a && 0 < n && 8 <= kind.Addr(n) && Fresh(l, a, n)
    requires head + 8 <= Pages.Addr(lo) || Pages.Addr(hi) <= head
    requires Pages.Addr(lo) <= kind.Addr(a) && kind.Addr(a + n) <= Pages.Addr(hi)
    ensures var t := Insert(l, a, n);
            Canonical(t) && Roomy(kind, t) && HeadsClear(kind, head, t) && Within(kind, t, lo, hi)
  {
    InsertCanonical(l, a, n);
    var b, e, t := InsertShape(l, a, n);
    SpliceBounds(kind, head, l, b, e, t, lo, hi);
  }

  // ---------------------------------------------------------------- Algorithm B as a whole

  /** An extent of the pool that may be given to a well-formed list. */
  ghost predicate Insertable(kind: Kind, m: seq<Byte>, head: nat, l: seq<Extent>, a: int, n: int, lo: int, hi: int) {
    && Good(kind, m, head, l, lo, hi) && 0 < lo && Pages.Addr(hi) <= |m| <= 0x1000_0000
    && (head + 8 <= Pages.Addr(lo) || Pages.Addr(hi) <= head)
    && 0 < n && 8 <= kind.Addr(n) && Pages.Addr(lo) <= kind.Addr(a) && kind.Addr(a + n) <= Pages.Addr(hi)
    && Fresh(l, a, n)
  }

  /** The memory steps B3 and B4 leave, and that they can be carried out. */
  ghost function Placed(kind: Kind, m: seq<Byte>, head: nat, l: seq<Extent>, a: int, n: int, lo: int,
      hi: int): seq<Byte>
    requires Insertable(kind, m, head, l, a, n, lo, hi)
  {
    PlaceReady(kind, m, head, l, a, n, lo, hi);
    var k := Rank(l, a);
    LinkedDown(kind, LinkedUp(m, Link(kind, l[k..], 0), kind.Addr(a), MergesUp(l, k, a, n)),
               Node(kind, head, l, k), kind.Addr(a), UpSize(l, k, a, n), MergesDown(l, k, a))
  }

  lemma PlaceReady(kind: Kind, m: seq<Byte>, head: nat, l: seq<Extent>, a: int, n: int, lo: int, hi: int)
    requires Insertable(kind, m, head, l, a, n, lo, hi)
    ensures var k := Rank(l, a);
            var q, p, cur := Node(kind, head, l, k), Link(kind, l[k..], 0), kind.Addr(a);
            && AtRank(kind, m, l, k, q, p, cur) && CountsFit(kind, l, k, a, n) && Fits(kind, head, l, k, a, n)
            && kind.Count(LinkedUp(m, p, cur, MergesUp(l, k, a, n)), q) == kind.Count(m, q)
            && Next(LinkedUp(m, p, cur, MergesUp(l, k, a, n)), cur) == Link(kind, UpRest(l, k, a, n), 0)
  {
    var k := Rank(l, a);
    FitsAtRank(kind, head, l, a, n);
    WalkedToRank(kind, m, head, l, k, a, n);
    PoolCountsFit(kind, head, l, k, a, n, lo, hi);
    LinkedUpNodes(kind, m, l, k, Node(kind, head, l, k), Link(kind, l[k..], 0), kind.Addr(a), a, n);
  }

  lemma PlacedMergedThreads(kind: Kind, m: seq<Byte>, head: nat, l: seq<Extent>, a: int, n: int, lo: int, hi: int)
    requires Insertable(kind, m, head, l, a, n, lo, hi) && MergesDown(l, Rank(l, a), a)
    ensures var r := Placed(kind, m, head, l, a, n, lo, hi);
            && Threaded(kind, r, head, Insert(l, a, n))
            && Confined(m, r, Node(kind, head, l, Rank(l, a)), kind.Addr(a))
  {
    hide Segment, InsertAt, Confined, LinkedDown, LinkedUp, Canonical, Roomy, HeadsClear;
    PlaceReady(kind, m, head, l, a, n, lo, hi);
    var k := Rank(l, a);
    var q, p, cur := Node(kind, head, l, k), Link(kind, l[k..], 0), kind.Addr(a);
    var r1 := LinkedUp(m, p, cur, MergesUp(l, k, a, n));
    MergedThreads(kind, m, r1, head, l, k, a, n, q, cur);
  }

  lemma PlacedNewThreads(kind: Kind, m: seq<Byte>, head: nat, l: seq<Extent>, a: int, n: int, lo: int, hi: int)
    requires Insertable(kind, m, head, l, a, n, lo, hi) && !MergesDown(l, Rank(l, a), a)
    ensures var r := Placed(kind, m, head, l, a, n, lo, hi);
            && Threaded(kind, r, head, Insert(l, a, n))
            && Confined(m, r, Node(kind, head, l, Rank(l, a)), kind.Addr(a))
  {
    hide Segment, InsertAt, Confined, LinkedDown, LinkedUp, Canonical, Roomy, HeadsClear;
    PlaceReady(kind, m, head, l, a, n, lo, hi);
    var k := Rank(l, a);
    var q, p, cur := Node(kind, head, l, k), Link(kind, l[k..], 0), kind.Addr(a);
    var r1 := LinkedUp(m, p, cur, MergesUp(l, k, a, n));
    NewThreads(kind, m, r1, head, l, k, a, n, q, cur);
  }

  /** Algorithm B on raw memory represents Insert and changes only bytes of the list. */
  lemma PlacedGood(kind: Kind, m: seq<Byte>, head: nat, l: seq<Extent>, a: int, n: int, lo: int, hi: int)
    requires Insertable(kind, m, head, l, a, n, lo, hi)
    ensures var r := Placed(kind, m, head, l, a, n, lo, hi);
            Good(kind, r, head, Insert(l, a, n), lo, hi) && ChangesOnly(kind, m, r, head, Insert(l, a, n))
  {
    if MergesDown(l, Rank(l, a), a) {
      PlacedMergedThreads(kind, m, head, l, a, n, lo, hi);
    } else {
      PlacedNewThreads(kind, m, head, l, a, n, lo, hi);
    }
    ConfinedToInserted(kind, m, Placed(kind, m, head, l, a, n, lo, hi), head, l, a, n);
    InsertGood(kind, head, l, a, n, lo, hi);
  }

  /** The tests of steps B3 and B4 on page numbers decide the two merges. */
  lemma PageTests(m: seq<Byte>, head: nat, l: seq<Extent>, page: int, lo: int, hi: int)
    requires Insertable(Pages, m, head, l, page, 1, lo, hi)
    ensures var k := Rank(l, page);
            var q, p, cur := Node(Pages, head, l, k), Link(Pages, l[k..], 0), Pages.Addr(page);
            && AtRank(Pages, m, l, k, q, p, cur) && CountsFit(Pages, l, k, page, 1)
            && (page + 1 == p / PAGE_SIZE && p != 0 <==> MergesUp(l, k, page, 1))
            && (q / PAGE_SIZE + Load16(LinkedUp(m, p, cur, MergesUp(l, k, page, 1)), q) == page
               <==> MergesDown(l, k, page))
  {
    PlaceReady(Pages, m, head, l, page, 1, lo, hi);
  }

  // ---------------------------------------------------------------- the walks

  /** page_allocate_consecutive's search for the first run of `count` pages. */
  method FindRun(m: seq<Byte>, head: nat, ghost l: seq<Extent>, count: nat) returns (prev: nat, cur: nat)
    requires Threaded(Pages, m, head, l)
    ensures var i := FirstFit(l, count);
            prev == Node(Pages, head, l, i) && cur == Link(Pages, l[i..], 0) && (cur == 0 <==> i == |l|)
  {
    ghost var i := 0;
    prev, cur := head, Next(m, head);
    Walk(Pages, m, head, l, 0);
    while cur != 0 && Load16(m, cur) < count
      invariant 0 <= i <= |l| && prev == Node(Pages, head, l, i)
      invariant cur == Link(Pages, l[i..], 0) && (cur == 0 <==> i == |l|)
      invariant i < |l| ==> NodeIs(Pages, m, cur, l[i].size, Link(Pages, l[i + 1..], 0))
      invariant forall j :: 0 <= j < i ==> l[j].size < count
      decreases |l| - i
    {
      i := i + 1;
      Walk(Pages, m, head, l, i);
      prev := cur;
      cur := Next(m, prev);
    }
    FirstFitUnique(l, count, i);
  }

  /** page_allocate_consecutive on memory m. */
  method TakeRun(m: seq<Byte>, head: nat, ghost l: seq<Extent>, count: nat, ghost lo: int, ghost hi: int)
    returns (ok: bool, page: int, r: seq<Byte>)
    requires Good(Pages, m, head, l, lo, hi) && 0 < count
    ensures ok <==> FirstFit(l, count) < |l|
    ensures ok ==> page == PageOfRun(l, count) && Good(Pages, r, head, TakeEnd(l, FirstFit(l, count), count), lo, hi)
    ensures !ok ==> r == m
    ensures |r| == |m| && ChangesOnly(Pages, m, r, head, l)
  {
    hide Canonical, Roomy, HeadsClear, Within, Segment, Store16, Store32, TakeEnd, FirstFit;
    ghost var i := FirstFit(l, count);
    var prev, cur := FindRun(m, head, l, count);
    if cur == 0 {
      return false, 0, m;
    }
    PageTakenGood(m, head, l, i, count, lo, hi);
    r := Store16(m, cur, Load16(m, cur) - count);
    ok, page := true, cur / PAGE_SIZE + Load16(r, cur);
    if Load16(r, cur) == 0 {
      r := Store32(r, prev + 4, Next(r, cur));
    }
    assert r == PageTaken(m, prev, cur, count);
  }

  /** page_allocate on memory m: the last page of the first run. */
  method TakeLastOfFirst(m: seq<Byte>, head: nat, ghost l: seq<Extent>, ghost lo: int, ghost hi: int)
    returns (ok: bool, page: int, r: seq<Byte>)
    requires Good(Pages, m, head, l, lo, hi)
    ensures ok <==> l != []
    ensures ok ==> FirstFit(l, 1) == 0 && page == PageOfRun(l, 1) && Good(Pages, r, head, TakeEnd(l, 0, 1), lo, hi)
    ensures !ok ==> r == m
    ensures |r| == |m| && ChangesOnly(Pages, m, r, head, l)
  {
    hide Roomy, HeadsClear, Within, Store16, Store32, TakeEnd;
    Walk(Pages, m, head, l, 0);
    var first := Next(m, head);
    if first == 0 {
      return false, 0, m;
    }
    PageTakenGood(m, head, l, 0, 1, lo, hi);
    ok, page := true, first / PAGE_SIZE + Load16(m, first) - 1;
    r := Store16(m, first, Load16(m, first) - 1);
    if Load16(r, first) == 0 {
      r := Store32(r, head + 4, Next(r, first));
    }
    assert r == PageTaken(m, head, first, 1);
  }

  /** Step B2 of page_release and mem_free: walk until the next node lies above `cur`. */
  method FindPlace(kind: Kind, m: seq<Byte>, head: nat, ghost l: seq<Extent>, cur: nat, ghost a: int)
    returns (q: nat, p: nat)
    requires Threaded(kind, m, head, l) && Canonical(l) && cur == kind.Addr(a)
    ensures var k := Rank(l, a); q == Node(kind, head, l, k) && p == Link(kind, l[k..], 0)
  {
    ghost var k := 0;
    q, p := head, Next(m, head);
    Walk(kind, m, head, l, 0);
    while !(p == 0 || p > cur)
      invariant 0 <= k <= |l| && q == Node(kind, head, l, k)
      invariant p == Link(kind, l[k..], 0) && (p == 0 <==> k == |l|)
      invariant k < |l| ==> NodeIs(kind, m, p, l[k].size, Link(kind, l[k + 1..], 0))
      invariant k > 0 ==> l[k - 1].start <= a
      decreases |l| - k
    {
      k := k + 1;
      Walk(kind, m, head, l, k);
      q := p;
      p := Next(m, q);
    }
    RankUnique(l, a, k);
  }

  /** page_release's steps on memory m. */
  method LinkPage(m: seq<Byte>, head: nat, ghost l: seq<Extent>, page: nat, ghost lo: int, ghost hi: int)
    returns (r: seq<Byte>)
    requires Insertable(Pages, m, head, l, page, 1, lo, hi)
    ensures r == Placed(Pages, m, head, l, page, 1, lo, hi)
  {
    hide Segment, Canonical, Roomy, HeadsClear, Fresh, LinkedUp, LinkedDown, Within;
    var cur := page * PAGE_SIZE;
    PageTests(m, head, l, page, lo, hi);
    var q, p := FindPlace(Pages, m, head, l, cur, page);                     // B1, B2
    var up := page + 1 == p / PAGE_SIZE && p != 0;                          // B3
    var n := if up then 1 + Load16(m, p) else 1;
    r := LinkedUp(m, p, cur, up);
    var down := q / PAGE_SIZE + Load16(r, q) == page;                       // B4
    r := LinkedDown(Pages, r, q, cur, n, down);
  }

  /** The tests of steps B3 and B4 on addresses, and the word at the block's own address once
      the block is linked. */
  lemma BlockTests(m: seq<Byte>, head: nat, l: seq<Extent>, a: int, n: int, lo: int, hi: int)
    requires Insertable(Blocks, m, head, l, a, n, lo, hi)
    ensures var k := Rank(l, a);
            var q, p := Node(Blocks, head, l, k), Link(Blocks, l[k..], 0);
            && AtRank(Blocks, m, l, k, q, p, a) && CountsFit(Blocks, l, k, a, n)
            && (a + n == p && p != 0 <==> MergesUp(l, k, a, n))
            && (q + Load32(LinkedUp(m, p, a, MergesUp(l, k, a, n)), q) == a <==> MergesDown(l, k, a))
  {
    PlaceReady(Blocks, m, head, l, a, n, lo, hi);
  }

  /** LinkedDown leaves the word at the new block alone when it merges, and stores the size
      there when it does not. */
  lemma LinkedDownWord(m: seq<Byte>, q: nat, cur: nat, size: int, down: bool)
    requires cur + 8 <= |m| && q + 8 <= |m| && cur < 0x1_0000_0000 && 0 <= size < Limit(Blocks) && Apart8(q, cur)
    requires down ==> 0 <= Blocks.Count(m, q) + size < Limit(Blocks)
    ensures var r := LinkedDown(Blocks, m, q, cur, size, down);
            |r| == |m| && Load32(r, cur) == if down then Load32(m, cur) else size
  {
    if down {
      var r := StoreCount(Blocks, m, q, Blocks.Count(m, q) + size);
      assert Load32(r, cur) == Load32(m, cur);
      var t := Store32(r, q + 4, Next(r, cur));
      assert Load32(t, cur) == Load32(r, cur);
    }
  }

  lemma WordAfter(m: seq<Byte>, head: nat, l: seq<Extent>, a: int, n: int, lo: int, hi: int)
    requires Insertable(Blocks, m, head, l, a, n, lo, hi)
    ensures |Placed(Blocks, m, head, l, a, n, lo, hi)| == |m| && 0 <= a && a + 4 <= |m|
    ensures Load32(Placed(Blocks, m, head, l, a, n, lo, hi), a)
            == if MergesDown(l, Rank(l, a), a) then Load32(m, a) else UpSize(l, Rank(l, a), a, n)
  {
    PlaceReady(Blocks, m, head, l, a, n, lo, hi);
    var k := Rank(l, a);
    var r1 := LinkedUp(m, Link(Blocks, l[k..], 0), a, MergesUp(l, k, a, n));
    assert Load32(r1, a) == Load32(m, a);
    LinkedDownWord(r1, Node(Blocks, head, l, k), a, UpSize(l, k, a, n), MergesDown(l, k, a));
  }

  /** mem_free's steps B1 to B4 on memory m. */
  method LinkBlock(m: seq<Byte>, head: nat, ghost l: seq<Extent>, cur: nat, size: nat, ghost lo: int, ghost hi: int)
    returns (r: seq<Byte>)
    requires Insertable(Blocks, m, head, l, cur, size, lo, hi)
    ensures r == Placed(Blocks, m, head, l, cur, size, lo, hi)
  {
    hide Segment, Canonical, Roomy, HeadsClear, Fresh, LinkedUp, LinkedDown, Within;
    BlockTests(m, head, l, cur, size, lo, hi);
    var q, p := FindPlace(Blocks, m, head, l, cur, cur);                     // B1, B2
    var up := cur + size == p && p != 0;                                    // B3
    var n := if up then size + Load32(m, p) else size;
    r := LinkedUp(m, p, cur, up);
    var down := q + Load32(r, q) == cur;                                    // B4
    r := LinkedDown(Blocks, r, q, cur, n, down);
  }

  /** None of the pages is free yet. */
  ghost predicate Releasable(l: seq<Extent>, first: int, count: int) {
    forall p :: first <= p < first + count ==> !Covers(l, p)
  }

  /** The pages the tail releases, in terms of the bytes it reads back. */
  lemma WholePagesReleased(l: seq<Extent>, mem: nat, word: nat)
    requires Canonical(l) && 0 < PageAlign(mem) / PAGE_SIZE
    requires Releasable(l, PageAlign(mem) / PAGE_SIZE, TailCount(word, mem))
    ensures forall p :: Covers(ReleaseRun(l, PageAlign(mem) / PAGE_SIZE, TailCount(word, mem)), p) <==>
              Covers(l, p) || (mem <= p * 4096 && (p + 1) * 4096 <= mem + word)
  {
    hide TailCount, PageAlign;
    forall p: int
      ensures Covers(ReleaseRun(l, PageAlign(mem) / PAGE_SIZE, TailCount(word, mem)), p) <==>
                Covers(l, p) || (mem <= p * 4096 && (p + 1) * 4096 <= mem + word)
    {
      ReleaseRunCovers(l, PageAlign(mem) / PAGE_SIZE, TailCount(word, mem), p);
      TailIsWholePages(mem, word, p);
    }
  }

  lemma StillReleasable(l: seq<Extent>, first: int, count: int)
    requires Canonical(l) && 0 < count && Releasable(l, first, count)
    ensures !Covers(l, first) && Releasable(Insert(l, first, 1), first + 1, count - 1)
  {
    forall p | first < p < first + count
      ensures !Covers(Insert(l, first, 1), p)
    {
      InsertCovers(l, first, 1, p);
    }
  }

  /** The bytes that the size word spans after linking are all in the freed block. */
  lemma FreedCovers(l: seq<Extent>, a: int, n: int, word: int, x: int)
    requires Canonical(l) && 0 < n && a <= x < a + word
    requires word <= if MergesDown(l, Rank(l, a), a) then n else UpSize(l, Rank(l, a), a, n)
    ensures Covers(Insert(l, a, n), x)
  {
    hide Insert;
    UpCovers(l, Rank(l, a), a, n, x);
    SplitCovers(l, Rank(l, a), x);
    InsertCovers(l, a, n, x);
  }

  lemma TailInPool(head: nat, l: seq<Extent>, mem: int, n: int, word: int, lo: int, hi: int)
    requires Within(Blocks, l, lo, hi) && Pages.Addr(lo) <= mem && mem + n <= Pages.Addr(hi)
    requires word <= if MergesDown(l, Rank(l, mem), mem) then n else UpSize(l, Rank(l, mem), mem, n)
    ensures var first, c := PageAlign(mem) / PAGE_SIZE, TailCount(word, mem);
            lo <= first && (0 < c ==> first + c <= hi)
  {
    assert Rank(l, mem) < |l| ==> Blocks.Addr(l[Rank(l, mem)].End()) <= Pages.Addr(hi);
  }

  /** The pages the tail releases are inside the freed block, so they are in the pool and none
      of them is free. */
  lemma TailReleasable(m: seq<Byte>, head: nat, l: seq<Extent>, mem: int, n: int, word: int, pages: seq<Extent>,
      pagesHead: int, lo: int, hi: int)
    requires Insertable(Blocks, m, head, l, mem, n, lo, hi)
    requires 0 <= word <= if MergesDown(l, Rank(l, mem), mem) then n else UpSize(l, Rank(l, mem), mem, n)
    requires forall x :: Uses(Pages, pagesHead, pages, x) ==> !Uses(Blocks, head, Insert(l, mem, n), x)
    ensures var first, c := PageAlign(mem) / PAGE_SIZE, TailCount(word, mem);
            Releasable(pages, first, c) && lo <= first && (0 < c ==> first + c <= hi)
  {
    hide Insert, Segment, Canonical, Roomy, HeadsClear, Within, Fresh, Threaded, Rank;
    var first, c := PageAlign(mem) / PAGE_SIZE, TailCount(word, mem);
    TailInPool(head, l, mem, n, word, lo, hi);
    forall p | first <= p < first + c
      ensures !Covers(pages, p)
    {
      var x := p * PAGE_SIZE;
      FreedCovers(l, mem, n, word, x);
      assert Uses(Blocks, head, Insert(l, mem, n), x);
      assert !Uses(Pages, pagesHead, pages, x);
      assert CellOf(Pages, x) == p;
    }
  }

  // ---------------------------------------------------------------- lists and clients

  ghost predicate Outside(head: int, lo: int, hi: int) {
    0 < head && (head + 8 <= Pages.Addr(lo) || Pages.Addr(hi) <= head)
  }

  /** The two lists and the clients' memory share no byte. */
  lemma OwnersApart(s: State, lo: int, hi: int, pagesHead: int, blocksHead: int, x: int)
    requires Inv(s, lo, hi) && Outside(pagesHead, lo, hi) && Outside(blocksHead, lo, hi)
             && Apart8(pagesHead, blocksHead)
    ensures !(Uses(Pages, pagesHead, s.pages, x) && Uses(Blocks, blocksHead, s.blocks, x))
    ensures Live(s, x) || Held(s, x) ==> !Uses(Pages, pagesHead, s.pages, x) && !Uses(Blocks, blocksHead, s.blocks, x)
  {
    assert OwnedOnce(s, lo, hi, x);
  }

  lemma ListsApart(s: State, lo: int, hi: int, pagesHead: int, blocksHead: int)
    requires Inv(s, lo, hi) && Outside(pagesHead, lo, hi) && Outside(blocksHead, lo, hi)
             && Apart8(pagesHead, blocksHead)
    ensures forall x :: Uses(Pages, pagesHead, s.pages, x) ==> !Uses(Blocks, blocksHead, s.blocks, x)
  {
    forall x | Uses(Pages, pagesHead, s.pages, x)
      ensures !Uses(Blocks, blocksHead, s.blocks, x)
    {
      OwnersApart(s, lo, hi, pagesHead, blocksHead, x);
    }
  }

  /** Memory in clients' hands is as it was. */
  ghost predicate ClientsSee(s: State, m: seq<Byte>, r: seq<Byte>) {
    |r| == |m| && forall x :: 0 <= x < |m| && (Live(s, x) || Held(s, x)) ==> r[x] == m[x]
  }

  lemma ClientsUnaffected(kind: Kind, s: State, m: seq<Byte>, r: seq<Byte>, lo: int, hi: int, pagesHead: int,
      blocksHead: int)
    requires Inv(s, lo, hi) && Outside(pagesHead, lo, hi) && Outside(blocksHead, lo, hi)
             && Apart8(pagesHead, blocksHead)
    requires if kind == Pages then ChangesOnly(kind, m, r, pagesHead, s.pages)
             else ChangesOnly(kind, m, r, blocksHead, s.blocks)
    ensures ClientsSee(s, m, r)
  {
    forall x | 0 <= x < |m| && (Live(s, x) || Held(s, x))
      ensures r[x] == m[x]
    {
      OwnersApart(s, lo, hi, pagesHead, blocksHead, x);
    }
  }

  /** Each live block starts with the header kalloc wrote. */
  ghost predicate Headers(m: seq<Byte>, live: seq<Extent>) {
    forall i :: 0 <= i < |live| ==>
      0 <= live[i].start && live[i].start + HEADER <= |m| && Load32(m, live[i].start) == live[i].size - HEADER
  }

  lemma HeadersKept(s: State, m: seq<Byte>, r: seq<Byte>)
    requires Headers(m, s.live) && AtLeast(s.live, NODE) && ClientsSee(s, m, r)
    ensures Headers(r, s.live)
  {
    forall i | 0 <= i < |s.live|
      ensures Load32(r, s.live[i].start) == s.live[i].size - HEADER
    {
      var a := s.live[i].start;
      forall x | a <= x < a + HEADER
        ensures r[x] == m[x]
      {
        assert s.live[i].Holds(x);
      }
    }
  }

  lemma HeadersRemove(m: seq<Byte>, live: seq<Extent>, i: nat)
    requires Headers(m, live) && i < |live|
    ensures Headers(m, live[..i] + live[i + 1..])
  {
    var t := live[..i] + live[i + 1..];
    forall j | 0 <= j < |t|
      ensures 0 <= t[j].start && t[j].start + HEADER <= |m| && Load32(m, t[j].start) == t[j].size - HEADER
    {
      assert t[j] == if j < i then live[j] else live[j + 1];
    }
  }

  /** Taking one page fails only on an empty list. */
  lemma OnePage(s: State, lo: int, hi: int)
    requires Inv(s, lo, hi)
    ensures Allocator.TakePages(s, 1) ==
            if s.pages == [] then Halted(s)
            else Running(s.(pages := TakeEnd(s.pages, FirstFit(s.pages, 1), 1),
              held := s.held + [PageOfRun(s.pages, 1)]))
  {
    hide TakeEnd;
    if s.pages != [] {
      assert FirstFit(s.pages, 1) == 0;
      var page := PageOfRun(s.pages, 1);
      assert seq(1, j => page + j) == [page];
    }
  }

  /** A store into a client's byte leaves both lists as they are. */
  lemma ClientStore(s: State, m: seq<Byte>, a: nat, v: Byte, lo: int, hi: int, pagesHead: nat, blocksHead: nat)
    requires Inv(s, lo, hi) && Outside(pagesHead, lo, hi) && Outside(blocksHead, lo, hi)
             && Apart8(pagesHead, blocksHead)
    requires Good(Pages, m, pagesHead, s.pages, lo, hi) && Good(Blocks, m, blocksHead, s.blocks, lo, hi)
    requires a < |m| && (Live(s, a) || Held(s, a))
    ensures var r := m[a := v];
            Good(Pages, r, pagesHead, s.pages, lo, hi) && Good(Blocks, r, blocksHead, s.blocks, lo, hi)
  {
    OwnersApart(s, lo, hi, pagesHead, blocksHead, a);
    hide Inv, Threaded, Canonical, Uses;
    ThreadUntouched(Pages, m, m[a := v], pagesHead, s.pages);
    ThreadUntouched(Blocks, m, m[a := v], blocksHead, s.blocks);
  }

  /** A store into the body of a live block misses every header. */
  lemma HeadersApart(s: State, m: seq<Byte>, lo: int, hi: int, i: nat, a: nat, v: Byte)
    requires Inv(s, lo, hi) && Headers(m, s.live)
    requires i < |s.live| && s.live[i].start + HEADER <= a < s.live[i].End() && a < |m|
    ensures Headers(m[a := v], s.live)
  {
    forall j | 0 <= j < |s.live|
      ensures Load32(m[a := v], s.live[j].start) == s.live[j].size - HEADER
    {
      assert j == i || a < s.live[j].start || s.live[j].End() <= a;
    }
  }

  /** A store into a held page misses every header. */
  lemma HeadersOffPages(s: State, m: seq<Byte>, lo: int, hi: int, a: nat, v: Byte)
    requires Inv(s, lo, hi) && Headers(m, s.live) && Held(s, a) && a < |m|
    ensures Headers(m[a := v], s.live)
  {
    assert OwnedOnce(s, lo, hi, a);
    forall j | 0 <= j < |s.live|
      ensures Load32(m[a := v], s.live[j].start) == s.live[j].size - HEADER
    {
      assert !s.live[j].Holds(a);
    }
  }

  lemma HeldInRam(s: State, lo: int, hi: int, a: nat, size: nat)
    requires Inv(s, lo, hi) && Held(s, a) && Pages.Addr(hi) <= size
    ensures a < size
  {
    assert OwnedOnce(s, lo, hi, a);
  }

  /** One of show_memory's loops: add up the counts from the head node on. */
  method SumCounts(kind: Kind, m: seq<Byte>, head: nat, ghost l: seq<Extent>) returns (sum: int)
    requires Threaded(kind, m, head, l)
    ensures sum == Total(l)
  {
    hide Threaded;
    sum := 0;
    var p := head;
    ghost var k := 0;
    while p != 0
      invariant 0 <= k <= |l| + 1 && p == (if k <= |l| then Node(kind, head, l, k) else 0)
      invariant sum == Total(l[..if k == 0 then 0 else k - 1])
      decreases |l| + 1 - k
    {
      Walk(kind, m, head, l, k);
      if k > 0 { SplitTotal(l, k); }
      sum := sum + kind.Count(m, p);
      p := Next(m, p);
      k := k + 1;
    }
    assert l[..|l|] == l;
    if k <= |l| { Walk(kind, m, head, l, k); }
  }

  class Memory {
    var ram: seq<Byte>

    /** &pages_head and &blocks_head. */
    const pagesHead: nat
    const blocksHead: nat

    /** The pool: the pages between memory_start and memory_end. */
    const lo: int
    const hi: int

    ghost var pages: seq<Extent>
    ghost var blocks: seq<Extent>
    ghost var live: seq<Extent>
    ghost var held: seq<int>

    /** Below 256 MB page numbers fit `unsigned short`; the list heads are kernel data. */
    ghost predicate Layout()
      reads this`ram
    {
      && |ram| <= 0x1000_0000 && 0 < lo < hi && Pages.Addr(hi) <= |ram|
      && Outside(pagesHead, lo, hi) && Outside(blocksHead, lo, hi) && Apart8(pagesHead, blocksHead)
    }

    /** kernel/memory.c, kalloc_init, on memory whose two list heads are still zero. */
    constructor (initial: seq<Byte>, pagesHead: nat, blocksHead: nat, memoryStart: nat, memoryEnd: nat)
      requires memoryStart % PAGE_SIZE == 0 && 0 < memoryStart
               && memoryStart + PAGE_SIZE <= memoryEnd <= |initial| <= 0x1000_0000
      requires NodeIs(Pages, initial, pagesHead, 0, 0) && NodeIs(Blocks, initial, blocksHead, 0, 0)
      requires pagesHead + 8 <= memoryStart && blocksHead + 8 <= memoryStart && Apart8(pagesHead, blocksHead)
      ensures Valid()
      ensures Abs() == Initial(memoryStart / PAGE_SIZE, memoryStart / PAGE_SIZE + (memoryEnd - memoryStart) / PAGE_SIZE)
    {
      hide Inv, Good, Store32, Store16;
      var count := (memoryEnd - memoryStart) / PAGE_SIZE;
      this.pagesHead, this.blocksHead := pagesHead, blocksHead;
      lo, hi := memoryStart / PAGE_SIZE, memoryStart / PAGE_SIZE + count;
      pages, blocks, live, held := Initial(memoryStart / PAGE_SIZE, memoryStart / PAGE_SIZE + count).pages, [], [], [];
      var m := Store32(initial, pagesHead + 4, memoryStart);
      m := Store16(m, memoryStart, count);
      m := Store32(m, memoryStart + 4, 0);
      ram := m;
      InitialInv(memoryStart / PAGE_SIZE, memoryStart / PAGE_SIZE + count);
      InitialThreads(initial, pagesHead, blocksHead, memoryStart, count);
    }

    ghost predicate PageList()
      reads this`ram, this`pages
    {
      Layout() && Good(Pages, ram, pagesHead, pages, lo, hi)
    }

    ghost predicate BlockList()
      reads this`ram, this`blocks
    {
      Layout() && Good(Blocks, ram, blocksHead, blocks, lo, hi)
    }

    // ---------------------------------------------------------------- the page list

    /** kernel/memory.c, page_allocate.  `ok` is false when the kernel panics. */
    method PageAllocate() returns (ok: bool, page: int)
      requires PageList()
      modifies this`ram, this`pages
      ensures PageList()
      ensures ok <==> old(pages) != []
      ensures ok ==> page == PageOfRun(old(pages), 1) && pages == TakeEnd(old(pages), FirstFit(old(pages), 1), 1)
      ensures !ok ==> ram == old(ram) && pages == old(pages)
      ensures ChangesOnly(Pages, old(ram), ram, pagesHead, old(pages))
    {
      hide Good, TakeEnd, FirstFit;
      ok, page, ram := TakeLastOfFirst(ram, pagesHead, pages, lo, hi);
      pages := if ok then TakeEnd(pages, FirstFit(pages, 1), 1) else pages;
    }

    /** kernel/memory.c, page_allocate_consecutive, on an `unsigned short` count. */
    method PageAllocateConsecutive(count: nat) returns (ok: bool, page: int)
      requires PageList() && 0 < count < SHORT
      modifies this`ram, this`pages
      ensures PageList()
      ensures ok <==> FirstFit(old(pages), count) < |old(pages)|
      ensures ok ==>
                && page == PageOfRun(old(pages), count)
                && pages == TakeEnd(old(pages), FirstFit(old(pages), count), count)
      ensures !ok ==> ram == old(ram) && pages == old(pages)
      ensures ChangesOnly(Pages, old(ram), ram, pagesHead, old(pages))
    {
      hide Good, TakeEnd, FirstFit;
      ok, page, ram := TakeRun(ram, pagesHead, pages, count, lo, hi);
      pages := if ok then TakeEnd(pages, FirstFit(pages, count), count) else pages;
    }

    /** kernel/memory.c, page_release. */
    method PageRelease(page: nat)
      requires PageList() && lo <= page < hi && !Covers(pages, page)
      modifies this`ram, this`pages
      ensures PageList() && pages == Insert(old(pages), page, 1)
      ensures ChangesOnly(Pages, old(ram), ram, pagesHead, pages)
    {
      hide Insert;
      PlacedGood(Pages, ram, pagesHead, pages, page, 1, lo, hi);
      ram := LinkPage(ram, pagesHead, pages, page, lo, hi);
      pages := Insert(pages, page, 1);
    }
  
    // ---------------------------------------------------------------- the block list

    method ReleaseOne(page: nat, ghost count: nat)
      requires PageList() && 0 < count && lo <= page < hi && Releasable(pages, page, count)
      modifies this`ram, this`pages
      ensures PageList() && pages == Insert(old(pages), page, 1) && |ram| == |old(ram)|
      ensures Releasable(pages, page + 1, count - 1)
    {
      StillReleasable(pages, page, count);
      PageRelease(page);
    }

    /** The loop at the end of mem_free: release c pages from `first` on. */
    method ReleaseTail(first: nat, count: nat)
      requires PageList() && lo <= first && first + count <= hi
      requires Releasable(pages, first, count)
      modifies this`ram, this`pages
      ensures PageList() && pages == ReleaseRun(old(pages), first, count)
      ensures count == 0 ==> ram == old(ram)
      ensures |ram| == |old(ram)|
    {
      hide Insert;
      var page, c := first, count;
      while c > 0
        invariant 0 <= c && page + c == first + count
        invariant PageList() && |ram| == |old(ram)| && (count == 0 ==> ram == old(ram))
        invariant ReleaseRun(pages, page, c) == ReleaseRun(old(pages), first, count)
        invariant Releasable(pages, page, c)
      {
        assert ReleaseRun(pages, page, c) == ReleaseRun(Insert(pages, page, 1), page + 1, c - 1);
        ReleaseOne(page, c);
        assert PageList();
        page, c := page + 1, c - 1;
      }
    }

    /** A block the caller gives to the block list, clear of the page list. */
    ghost predicate Freeable(mem: nat, n: nat)
      reads this`ram, this`pages, this`blocks
    {
      && PageList() && BlockList() && Insertable(Blocks, ram, blocksHead, blocks, mem, n, lo, hi)
      && forall x :: Uses(Pages, pagesHead, pages, x) ==> !Uses(Blocks, blocksHead, Insert(blocks, mem, n), x)
    }

    /** Steps B1 to B4 of mem_free. */
    method LinkFreed(mem: nat, n: nat)
      requires Freeable(mem, n)
      modifies this`ram, this`blocks
      ensures PageList() && BlockList() && blocks == Insert(old(blocks), mem, n)
      ensures |ram| == |old(ram)| && mem + 4 <= |ram|
      ensures Load32(ram, mem) == if MergesDown(old(blocks), Rank(old(blocks), mem), mem) then old(Load32(ram, mem))
                                  else UpSize(old(blocks), Rank(old(blocks), mem), mem, n)
      ensures ChangesOnly(Blocks, old(ram), ram, blocksHead, blocks)
    {
      hide Insert, Segment, Canonical, Roomy, Within, Fresh, Placed;
      PlacedGood(Blocks, ram, blocksHead, blocks, mem, n, lo, hi);
      WordAfter(ram, blocksHead, blocks, mem, n, lo, hi);
      ghost var m := ram;
      ram := LinkBlock(ram, blocksHead, blocks, mem, n, lo, hi);
      blocks := Insert(blocks, mem, n);
      ThreadUntouched(Pages, m, ram, pagesHead, pages);
    }

    /** kernel/memory.c, mem_free.  With `freepages` it ends by releasing whole pages of the
        block it has just linked; the block list is only promised to survive if there are none. */
    method MemFree(mem: nat, n: nat, freepages: bool)
      requires Freeable(mem, n) && mem + 4 <= |ram| && (freepages ==> Load32(ram, mem) <= n)
      modifies this`ram, this`pages, this`blocks
      ensures PageList() && blocks == Insert(old(blocks), mem, n) && |ram| == |old(ram)|
      ensures pages == ReleaseRun(old(pages), PageAlign(mem) / PAGE_SIZE, old(Tail(mem, n, freepages)))
      ensures old(Tail(mem, n, freepages)) == 0 ==>
                BlockList() && ChangesOnly(Blocks, old(ram), ram, blocksHead, blocks)
      ensures forall p :: Covers(pages, p) <==>
                Covers(old(pages), p)
                || (freepages && mem <= p * 4096 && (p + 1) * 4096 <= mem + old(Readback(mem, n)))
    {
      hide Insert, Segment, Roomy, HeadsClear, Within;
      if freepages {
        ghost var k := Rank(blocks, mem);
        ghost var word := if MergesDown(blocks, k, mem) then Load32(ram, mem) else UpSize(blocks, k, mem, n);
        TailReleasable(ram, blocksHead, blocks, mem, n, word, pages, pagesHead, lo, hi);
        LinkFreed(mem, n);
        ReleaseWholePages(mem);
      } else {
        LinkFreed(mem, n);
      }
    }

    /** What mem_free does for `freepages` once the block at mem is linked. */
    method ReleaseWholePages(mem: nat)
      requires PageList() && mem + 4 <= |ram|
      requires var c := TailCount(Load32(ram, mem), mem);
               Releasable(pages, PageAlign(mem) / PAGE_SIZE, c)
               && lo <= PageAlign(mem) / PAGE_SIZE && (0 < c ==> PageAlign(mem) / PAGE_SIZE + c <= hi)
      modifies this`ram, this`pages
      ensures PageList() && |ram| == |old(ram)|
      ensures pages == ReleaseRun(old(pages), PageAlign(mem) / PAGE_SIZE, TailCount(old(Load32(ram, mem)), mem))
      ensures TailCount(old(Load32(ram, mem)), mem) == 0 ==> ram == old(ram)
      ensures forall p :: Covers(pages, p) <==>
                Covers(old(pages), p) || (mem <= p * 4096 && (p + 1) * 4096 <= mem + old(Load32(ram, mem)))
    {
      WholePagesReleased(pages, mem, Load32(ram, mem));
      if Load32(ram, mem) >= PAGE_SIZE {
        var start := PageAlign(mem);
        var size := Load32(ram, mem) - (start - mem);
        if size / PAGE_SIZE > 0 {
          ReleaseTail(start / PAGE_SIZE, size / PAGE_SIZE);
        }
      }
    }

    /** The word mem_free reads back as cur->size, once the block is linked. */
    ghost function Readback(mem: nat, n: nat): int
      requires mem + 4 <= |ram|
      reads this`ram, this`blocks
    {
      var k := Rank(blocks, mem);
      if MergesDown(blocks, k, mem) then Load32(ram, mem) else UpSize(blocks, k, mem, n)
    }

    /** The number of pages the tail of mem_free releases. */
    ghost function Tail(mem: nat, n: nat, freepages: bool): nat
      requires mem + 4 <= |ram|
      reads this`ram, this`blocks
    {
      if freepages then TailCount(Readback(mem, n), mem) else 0
    }

    // ---------------------------------------------------------------- whole calls

    ghost function Abs(): State
      reads this`pages, this`blocks, this`live, this`held
    {
      State(pages, blocks, live, held)
    }

    ghost predicate Valid()
      reads this
    {
      && PageList() && BlockList() && Inv(Abs(), lo, hi) && Headers(ram, live)
      && Account(Abs()) == (hi - lo) * PAGE_SIZE
    }

    lemma LiveIsFreeable(i: nat)
      requires Valid() && i < |live|
      ensures 0 <= live[i].start && Freeable(live[i].start, live[i].size)
    {
      var s, e := Abs(), live[i];
      KfreeBlocks(s, i, lo, hi);
      ListsApart(Allocator.Kfree(s, i).(pages := s.pages), lo, hi, pagesHead, blocksHead);
      LiveInPool(s, lo, hi, i);
      FreedIsFresh(s, i, lo, hi);
    }

    lemma LiveTail(i: nat)
      requires Valid() && i < |live|
      ensures 0 <= live[i].start && live[i].start + HEADER <= |ram|
      ensures Load32(ram, live[i].start) == live[i].size - HEADER
      ensures Tail(live[i].start, live[i].size, true) == TailPages(blocks, live[i])
    {
    }

    /** kernel/memory.c, show_memory: the number it prints, and what it means. */
    method ShowMemory() returns (free: int)
      requires Valid()
      ensures free == FreeMemory(Abs())
      ensures free + Total(live) + |held| * PAGE_SIZE == (hi - lo) * PAGE_SIZE
    {
      var inPages := SumCounts(Pages, ram, pagesHead, pages);
      var inBlocks := SumCounts(Blocks, ram, blocksHead, blocks);
      free := inPages * PAGE_SIZE + inBlocks;
    }

    /** A caller's page_allocate_consecutive. */
    method TakePages(count: nat) returns (ok: bool, page: int)
      requires Valid() && 0 < count < SHORT
      modifies this`ram, this`pages, this`held
      ensures Valid() && Abs() == Allocator.TakePages(old(Abs()), count).state
      ensures ok <==> Allocator.TakePages(old(Abs()), count).Running?
      ensures ok ==> page == PageOfRun(old(pages), count)
      ensures ClientsSee(old(Abs()), old(ram), ram)
    {
      hide TakeEnd, Good, Inv, Headers;
      ghost var s, m := Abs(), ram;
      TakePagesInv(s, count, lo, hi);
      ok, page := PageAllocateConsecutive(count);
      BlocksSurvive(s, m, ram, lo, hi, pagesHead, blocksHead);
      ClientsUnaffected(Pages, s, m, ram, lo, hi, pagesHead, blocksHead);
      LiveRoomy(s, lo, hi);
      HeadersKept(s, m, ram);
      if ok {
        var run := seq(count, j => page + j);
        held := held + run;
        assert Abs() == Allocator.TakePages(s, count).state;
      }
    }

    /** A caller's page_allocate: the page becomes held. */
    method TakePage() returns (ok: bool, page: int)
      requires Valid()
      modifies this`ram, this`pages, this`held
      ensures Valid() && Abs() == Allocator.TakePages(old(Abs()), 1).state
      ensures ok <==> old(pages) != []
      ensures ok ==> page == PageOfRun(old(pages), 1) && held == old(held) + [page]
      ensures ClientsSee(old(Abs()), old(ram), ram)
    {
      hide TakeEnd, Good, Inv, Headers;
      ghost var s, m := Abs(), ram;
      TakePagesInv(s, 1, lo, hi);
      ok, page := PageAllocate();
      BlocksSurvive(s, m, ram, lo, hi, pagesHead, blocksHead);
      ClientsUnaffected(Pages, s, m, ram, lo, hi, pagesHead, blocksHead);
      LiveRoomy(s, lo, hi);
      HeadersKept(s, m, ram);
      OnePage(s, lo, hi);
      if ok {
        held := held + [page];
      }
      assert Abs() == Allocator.TakePages(s, 1).state;
    }

    /** A caller's page_release of a page it holds. */
    method GivePage(page: nat, ghost j: nat)
      requires Valid() && j < |held| && page == held[j]
      modifies this`ram, this`pages, this`held
      ensures Valid() && Abs() == ReleasePage(old(Abs()), j)
      ensures ClientsSee(Abs(), old(ram), ram)
    {
      hide Insert, Good, Inv, Headers;
      ghost var s, m := Abs(), ram;
      ReleasePageInv(s, j, lo, hi);
      HeldIsNotFree(s, lo, hi, j);
      PageRelease(page);
      held := held[..j] + held[j + 1..];
      ghost var t := Abs();
      assert t == ReleasePage(s, j);
      BlocksSurvive(t, m, ram, lo, hi, pagesHead, blocksHead);
      ClientsUnaffected(Pages, t, m, ram, lo, hi, pagesHead, blocksHead);
      LiveRoomy(s, lo, hi);
      HeadersKept(t, m, ram);
    }

    // ---------------------------------------------------------------- what clients do with their memory

    /** A caller stores a byte into a block it was given: no list node, no header and nobody else's
        memory is touched, so everything stays valid. */
    method StoreInBlock(a: nat, v: Byte, ghost i: nat)
      requires Valid() && i < |live| && live[i].start + HEADER <= a < live[i].End()
      modifies this`ram
      ensures a < |old(ram)| && Valid() && Abs() == old(Abs()) && ram == old(ram)[a := v]
    {
      hide Good, Inv;
      LiveInPool(Abs(), lo, hi, i);
      assert live[i].Holds(a);
      HeadersApart(Abs(), ram, lo, hi, i, a, v);
      ClientStore(Abs(), ram, a, v, lo, hi, pagesHead, blocksHead);
      ram := ram[a := v];
    }

    /** A caller stores a byte into a page it holds. */
    method StoreInPage(a: nat, v: Byte)
      requires Valid() && a / PAGE_SIZE in held
      modifies this`ram
      ensures a < |old(ram)| && Valid() && Abs() == old(Abs()) && ram == old(ram)[a := v]
    {
      hide Good, Inv;
      HeldInRam(Abs(), lo, hi, a, |ram|);
      HeadersOffPages(Abs(), ram, lo, hi, a, v);
      ClientStore(Abs(), ram, a, v, lo, hi, pagesHead, blocksHead);
      ram := ram[a := v];
    }

    /** kernel/memory.c, kfree, of the live block i. */
    method Kfree(mem: nat, ghost i: nat)
      requires Valid() && i < |live| && mem == live[i].start + HEADER
      modifies this
      ensures PageList() && Abs() == Allocator.Kfree(old(Abs()), i)
      ensures TailPages(old(blocks), old(live)[i]) == 0 ==> Valid() && ClientsSee(Abs(), old(ram), ram)
    {
      hide Insert;
      LiveIsFreeable(i);
      LiveTail(i);
      ghost var s, m := Abs(), ram;
      KfreeFields(s, i);
      var h := mem - HEADER;
      var n := Load32(ram, h) + HEADER;
      assert h == live[i].start && n == live[i].size;
      assert Freeable(h, n);
      MemFree(h, n, true);
      live := live[..i] + live[i + 1..];
      assert Abs() == Allocator.Kfree(s, i);
      if TailPages(s.blocks, s.live[i]) == 0 {
        QuietKfreeDone(s, i, Abs(), m, ram, lo, hi, pagesHead, blocksHead);
        assert BlockList() && Inv(Abs(), lo, hi);
      }
    }

    /** kalloc's growth: take a run of pages, as many as 16 bits leave of the count, and give it to the
        block list.  `ok` is false when the source's assertion of a positive count or its search fails. */
    method GrowBlocks(want: nat) returns (ok: bool)
      requires Valid() && (want < SHORT || !CanGrow(Abs(), want))
      modifies this`ram, this`pages, this`blocks
      ensures Valid()
      ensures ok <==> CanGrow(old(Abs()), want)
      ensures ok ==> Abs() == Grow(old(Abs()), want)
      ensures !ok ==> Abs() == old(Abs())
      ensures ClientsSee(old(Abs()), old(ram), ram)
    {
      hide Insert, TakeEnd, Segment, Canonical, Roomy, HeadsClear, Within, Fresh, Headers, Grow, FirstFit, OwnedOnce;
      ghost var s, m := Abs(), ram;
      var count := want % SHORT;
      if count == 0 {
        return false;
      }
      var page;
      ok, page := PageAllocateConsecutive(count);
      if !ok {
        return;
      }
      assert count == want;
      var mem, n := page * PAGE_SIZE, want * PAGE_SIZE;
      GrownFields(s, count);
      GrowthFits(s, count, lo, hi);
      BlocksSurvive(s, m, ram, lo, hi, pagesHead, blocksHead);
      assert BlockList();
      GrowInv(s, count, lo, hi);
      ghost var t := Grow(s, count);
      ListsApart(t, lo, hi, pagesHead, blocksHead);
      assert Freeable(mem, n);
      ghost var m1 := ram;
      MemFree(mem, n, false);
      assert pages == t.pages;
      assert Abs() == t;
      ClientsUnaffected(Pages, s, m, m1, lo, hi, pagesHead, blocksHead);
      ClientsUnaffected(Blocks, t, m1, ram, lo, hi, pagesHead, blocksHead);
      ClientsTwice(s, t, m, m1, ram);
      HeadersKept(s, m, ram);
      assert Inv(Abs(), lo, hi);
    }

    /** Step A4 of kalloc on block i, which lies at p. */
    method CarveBlock(p: nat, n: nat, ghost i: nat) returns (addr: nat)
      requires Valid() && 4 <= n && i < |blocks| && p == blocks[i].start && n + HEADER + NODE <= blocks[i].size
      modifies this`ram, this`blocks, this`live
      ensures Valid() && Abs() == Carve(old(Abs()), i, n)
      ensures live != [] && addr == live[|live| - 1].start + HEADER
      ensures live == old(live) + [Extent(addr - 4, n + 4)]
      ensures 4 <= addr <= |ram| && Load32(ram, addr - 4) == n
      ensures ClientsSee(old(Abs()), old(ram), ram)
    {
      hide TakeEnd, Good, Headers, Inv, Carved, ClientsSee;
      ghost var s, m := Abs(), ram;
      CarveInv(s, i, n, lo, hi);
      CarvedGood(s, m, i, n, lo, hi, pagesHead, blocksHead);
      assert ClientsSee(s, m, Carved(m, blocks[i], n));
      var k := Load32(ram, p) - (n + HEADER);
      if k == 0 {
        assert false;  // the scan demands room for a node, so A4 never unlinks a block
      } else {
        ram := Store32(ram, p, k);
      }
      var h := p + k;
      ram := Store32(ram, h, n);
      assert ram == Carved(m, s.blocks[i], n) by { CarvedIs(m, s.blocks[i], n); }
      blocks := TakeEnd(blocks, i, n + HEADER);
      live := live + [Extent(h, n + HEADER)];
      addr := h + HEADER;
      assert Abs() == Carve(s, i, n);
    }

    /** kernel/memory.c, kalloc.  `ok` is false when the kernel panics for want of pages.  Where
        CutSafe does not hold, Allocator.KallocInvIffCutSafe shows that the result is not valid. */
    method Kalloc(n: nat) returns (ok: bool, addr: nat)
      requires Valid() && 4 <= n <= 0xEFFF_0000 && CutSafe(Abs(), n)
      modifies this`ram, this`pages, this`blocks, this`live
      ensures Valid() && Abs() == Allocator.Kalloc(old(Abs()), n).state
      ensures ok <==> Allocator.Kalloc(old(Abs()), n).Running?
      ensures ok ==> live == old(live) + [Extent(addr - 4, n + 4)]
      ensures ok ==> 4 <= addr <= |ram| && Load32(ram, addr - 4) == n
      ensures ClientsSee(old(Abs()), old(ram), ram)
    {
      hide Inv, Good, Headers, Grow, Carve, ClientsSee, FirstFit, Account, Total, Allocator.Kalloc;
      var realsize := n + HEADER;
      ghost var k := 0;
      WalkTo(0);
      var q, p := blocksHead, Next(ram, blocksHead);            // A1, A2
      PendingInitially(n);
      while p == 0 || Load32(ram, p) < realsize + NODE
        invariant Valid() && Pending(old(Abs()), old(ram), n) && CutSafe(Abs(), n)
        invariant At(q, p, k) && AllBelow(blocks, k, n + HEADER + NODE)
        decreases Total(pages), |blocks| - k
      {
        if p == 0 {
          ghost var s, m := Abs(), ram;
          FirstFitUnique(blocks, n + HEADER + NODE, k);
          PendingGrow(old(Abs()), old(ram), n);
          var grown := GrowBlocks((realsize + PAGE_SIZE - 1) / PAGE_SIZE);
          ClientsTwice(old(Abs()), s, old(ram), m, ram);
          if !grown {
            return false, 0;
          }
          p := blocksHead;                                      // reset the search
          k := 0;
        } else {
          k := k + 1;
        }
        WalkTo(k);
        q := p;
        p := Next(ram, q);
      }
      FirstFitUnique(blocks, n + HEADER + NODE, k);
      ghost var s, m := Abs(), ram;
      PendingGrow(old(Abs()), old(ram), n);
      addr := CarveBlock(p, n, k);
      ClientsTwice(old(Abs()), s, old(ram), m, ram);
      ok := true;
    }

    /** The scan stands on node k and sees block k. */
    ghost predicate At(q: int, p: int, k: nat)
      reads this`ram, this`blocks
    {
      && k <= |blocks| && 0 <= q && q + 8 <= |ram| && q == Node(Blocks, blocksHead, blocks, k) && Next(ram, q) == p
      && (p == 0 <==> k == |blocks|)
      && (k < |blocks| ==> 0 < p && p + 8 <= |ram| && p == blocks[k].start && Load32(ram, p) == blocks[k].size)
    }

    lemma WalkTo(k: nat)
      requires BlockList() && k <= |blocks|
      ensures 0 <= Node(Blocks, blocksHead, blocks, k) && Node(Blocks, blocksHead, blocks, k) + 8 <= |ram|
      ensures At(Node(Blocks, blocksHead, blocks, k), Next(ram, Node(Blocks, blocksHead, blocks, k)), k)
    {
      Walk(Blocks, ram, blocksHead, blocks, k);
    }

    /** A call kalloc(n) that began in state s and memory m has only grown the block list. */
    ghost predicate Pending(s: State, m: seq<Byte>, n: nat)
      reads this
    {
      && live == s.live && held == s.held && ClientsSee(s, m, ram)
      && Canonical(pages) && Canonical(s.pages) && Allocator.Kalloc(Abs(), n) == Allocator.Kalloc(s, n)
    }

    lemma PendingInitially(n: nat)
      requires Valid()
      ensures Pending(Abs(), ram, n)
    {
    }

    /** One unfolding of the specification at the point the scan has reached. */
    lemma PendingGrow(s: State, m: seq<Byte>, n: nat)
      requires Valid() && Pending(s, m, n)
      ensures var i, c := FirstFit(blocks, n + HEADER + NODE), PagesFor(n);
              && 0 < c
              && (i < |blocks| ==> Allocator.Kalloc(s, n) == Running(Carve(Abs(), i, n)))
              && (i == |blocks| && !CanGrow(Abs(), c) ==> Allocator.Kalloc(s, n) == Halted(Abs()))
              && (i == |blocks| && CanGrow(Abs(), c) ==>
                    && Canonical(Grow(Abs(), c).pages) && 0 <= Total(Grow(Abs(), c).pages) < Total(pages)
                    && Allocator.Kalloc(s, n) == Allocator.Kalloc(Grow(Abs(), c), n))
    {
      hide Good, Inv, Headers, Grow, Carve, ClientsSee;
      var c := PagesFor(n);
      if CanGrow(Abs(), c) {
        GrowShrinksPages(Abs(), c);
      }
    }
  }

  ghost predicate AllBelow(l: seq<Extent>, k: nat, need: int) {
    k <= |l| && forall j :: 0 <= j < k ==> l[j].size < need
  }

  lemma KfreeFields(s: State, i: nat)
    requires i < |s.live|
    ensures Allocator.Kfree(s, i)
            == State(ReleaseRun(s.pages, PageAlign(s.live[i].start) / PAGE_SIZE, TailPages(s.blocks, s.live[i])),
                     Insert(s.blocks, s.live[i].start, s.live[i].size), s.live[..i] + s.live[i + 1..], s.held)
  {
  }

  lemma QuietKfreeDone(s: State, i: nat, t: State, m: seq<Byte>, r: seq<Byte>, lo: int, hi: int, pagesHead: int,
      blocksHead: int)
    requires Inv(s, lo, hi) && i < |s.live| && TailPages(s.blocks, s.live[i]) == 0 && Headers(m, s.live)
    requires Outside(pagesHead, lo, hi) && Outside(blocksHead, lo, hi) && Apart8(pagesHead, blocksHead)
    requires t == Allocator.Kfree(s, i) && ChangesOnly(Blocks, m, r, blocksHead, t.blocks)
    ensures Inv(t, lo, hi) && Headers(r, t.live) && ClientsSee(t, m, r) && Account(t) == Account(s)
  {
    QuietKfree(s, i);
    KfreeBlocks(s, i, lo, hi);
    KfreeAccount(s, i);
    HeadersRemove(m, s.live, i);
    ClientsUnaffected(Blocks, t, m, r, lo, hi, pagesHead, blocksHead);
    HeadersKept(t, m, r);
  }

  /** A run of free pages, seen as bytes, can be given to the block list. */
  lemma GrownFields(s: State, count: nat)
    requires 0 < count < SHORT && FirstFit(s.pages, count) < |s.pages|
    ensures CanGrow(s, count)
    ensures Grow(s, count) == s.(pages := TakeEnd(s.pages, FirstFit(s.pages, count), count),
                                 blocks := Insert(s.blocks, PageOfRun(s.pages, count) * PAGE_SIZE, count * PAGE_SIZE))
  {
    hide Insert, TakeEnd;
    assert count % SHORT == count;
  }

  lemma GrowthFits(s: State, count: int, lo: int, hi: int)
    requires Inv(s, lo, hi) && 0 < count && FirstFit(s.pages, count) < |s.pages|
    ensures var page := PageOfRun(s.pages, count);
            && lo <= page && page + count <= hi
            && Fresh(s.blocks, page * PAGE_SIZE, count * PAGE_SIZE)
  {
    var page := PageOfRun(s.pages, count);
    RunIsFree(s.pages, count, page);
    RunIsFree(s.pages, count, page + count - 1);
    assert OwnedOnce(s, lo, hi, page * PAGE_SIZE) && OwnedOnce(s, lo, hi, (page + count - 1) * PAGE_SIZE);
    forall x | page * PAGE_SIZE <= x < (page + count) * PAGE_SIZE
      ensures !Covers(s.blocks, x)
    {
      RunIsFree(s.pages, count, x / PAGE_SIZE);
      assert OwnedOnce(s, lo, hi, x);
    }
  }

  /** Writing to the page list does not disturb the block list. */
  lemma BlocksSurvive(s: State, m: seq<Byte>, r: seq<Byte>, lo: int, hi: int, pagesHead: nat, blocksHead: nat)
    requires Inv(s, lo, hi) && Outside(pagesHead, lo, hi) && Outside(blocksHead, lo, hi)
             && Apart8(pagesHead, blocksHead)
    requires Good(Blocks, m, blocksHead, s.blocks, lo, hi) && ChangesOnly(Pages, m, r, pagesHead, s.pages)
    ensures Good(Blocks, r, blocksHead, s.blocks, lo, hi)
  {
    forall x | 0 <= x < |m| && Uses(Blocks, blocksHead, s.blocks, x)
      ensures r[x] == m[x]
    {
      OwnersApart(s, lo, hi, pagesHead, blocksHead, x);
    }
    ThreadUntouched(Blocks, m, r, blocksHead, s.blocks);
  }

  lemma ClientsTwice(s: State, t: State, m: seq<Byte>, m1: seq<Byte>, r: seq<Byte>)
    requires s.live == t.live && s.held == t.held && ClientsSee(s, m, m1) && ClientsSee(t, m1, r)
    ensures ClientsSee(s, m, r)
  {
    forall x | 0 <= x < |m| && (Live(s, x) || Held(s, x))
      ensures r[x] == m[x]
    {
      assert Live(t, x) || Held(t, x);
    }
  }

  /** Memory after step A4: the remnant's size and the live block's header. */
  function Carved(m: seq<Byte>, b: Extent, n: nat): seq<Byte>
    requires 0 <= b.start && b.End() <= |m| <= 0x1000_0000 && n + HEADER + NODE <= b.size
  {
    Store32(Store32(m, b.start, b.size - n - HEADER), b.End() - n - HEADER, n)
  }

  lemma CarvedIs(m: seq<Byte>, b: Extent, n: nat)
    requires 0 <= b.start && b.End() <= |m| <= 0x1000_0000 && n + HEADER + NODE <= b.size
    ensures Carved(m, b, n) == Store32(Store32(m, b.start, b.size - n - HEADER), b.End() - n - HEADER, n)
  {
  }

  lemma CarvedBytes(m: seq<Byte>, b: Extent, n: nat)
    requires 0 <= b.start && b.End() <= |m| <= 0x1000_0000 && n + HEADER + NODE <= b.size
    ensures |Carved(m, b, n)| == |m| && Load32(Carved(m, b, n), b.End() - n - HEADER) == n
    ensures forall x :: 0 <= x < |m| && !b.Holds(x) ==> Carved(m, b, n)[x] == m[x]
  {
    var m1 := Store32(m, b.start, b.size - n - HEADER);
    var m2 := Carved(m, b, n);
    forall x | 0 <= x < |m| && !b.Holds(x)
      ensures m2[x] == m[x]
    {
      assert m1[x] == m[x];
      assert m2[x] == m1[x];
    }
  }

  lemma CarvedChanges(m: seq<Byte>, head: int, l: seq<Extent>, i: nat, n: nat)
    requires i < |l| && 0 <= l[i].start && l[i].End() <= |m| <= 0x1000_0000 && n + HEADER + NODE <= l[i].size
    ensures ChangesOnly(Blocks, m, Carved(m, l[i], n), head, l)
  {
    hide Carved;
    CarvedBytes(m, l[i], n);
    var r := Carved(m, l[i], n);
    forall x | 0 <= x < |m| && !Uses(Blocks, head, l, x)
      ensures r[x] == m[x]
    {
      assert !Covers(l, x);
      assert !l[i].Holds(x);
    }
  }

  /** Storing the remnant's size shrinks the block ... */
  lemma ShrunkThreads(m: seq<Byte>, head: nat, l: seq<Extent>, i: nat, r: int)
    requires Threaded(Blocks, m, head, l) && Canonical(l) && Roomy(Blocks, l) && HeadsClear(Blocks, head, l)
    requires i < |l| && 0 <= l[i].start && l[i].start + 8 <= |m| && 0 < r && 8 <= l[i].size - r < 0x1_0000_0000
    ensures Threaded(Blocks, Store32(m, l[i].start, l[i].size - r), head, TakeEnd(l, i, r))
    ensures Load32(m, l[i].start) == l[i].size
  {
    hide Store32, TakeEnd, Canonical, Roomy, HeadsClear;
    Walk(Blocks, m, head, l, i);
    var m1 := Store32(m, l[i].start, l[i].size - r);
    assert Next(m1, l[i].start) == Next(m, l[i].start);
    ThreadShrink(Blocks, m, m1, head, l, i, r);
  }

  /** ... and the header is written outside what is left of it. */
  lemma HeaderOutside(m1: seq<Byte>, head: nat, l: seq<Extent>, i: nat, r: int, n: nat, lo: int, hi: int)
    requires Canonical(l) && Roomy(Blocks, l) && Within(Blocks, l, lo, hi) && i < |l| && HEADER < r <= l[i].size
    requires Threaded(Blocks, m1, head, TakeEnd(l, i, r)) && Roomy(Blocks, TakeEnd(l, i, r)) && Outside(head, lo, hi)
    requires 0 <= l[i].start && l[i].End() <= |m1| && n < 0x1_0000_0000
    ensures Threaded(Blocks, Store32(m1, l[i].End() - r, n), head, TakeEnd(l, i, r))
  {
    hide Store32, TakeEnd, Threaded, Canonical;
    var h := l[i].End() - r;
    var m2 := Store32(m1, h, n);
    TakeEndCanonical(l, i, r);
    forall x | 0 <= x < |m1| && Uses(Blocks, head, TakeEnd(l, i, r), x)
      ensures m2[x] == m1[x]
    {
      TakeEndCovers(l, i, r, x);
    }
    ThreadUntouched(Blocks, m1, m2, head, TakeEnd(l, i, r));
  }

  lemma CarvedBlocks(m: seq<Byte>, head: nat, l: seq<Extent>, i: nat, n: nat, lo: int, hi: int)
    requires Good(Blocks, m, head, l, lo, hi) && Outside(head, lo, hi) && Pages.Addr(hi) <= |m| <= 0x1000_0000 && 0 < lo
    requires i < |l| && 4 <= n && n + HEADER + NODE <= l[i].size
    ensures 0 <= l[i].start && l[i].End() <= |m| && Load32(m, l[i].start) == l[i].size
    ensures Good(Blocks, Carved(m, l[i], n), head, TakeEnd(l, i, n + HEADER), lo, hi)
  {
    hide TakeEnd, Canonical, Segment, Store32;
    var r := n + HEADER;
    ShrunkThreads(m, head, l, i, r);
    TakeEndGood(Blocks, head, l, i, r, lo, hi);
    HeaderOutside(Store32(m, l[i].start, l[i].size - r), head, l, i, r, n, lo, hi);
  }

  /** Writing to the block list does not disturb the page list. */
  lemma PagesSurvive(s: State, m: seq<Byte>, r: seq<Byte>, lo: int, hi: int, pagesHead: nat, blocksHead: nat)
    requires Inv(s, lo, hi) && Outside(pagesHead, lo, hi) && Outside(blocksHead, lo, hi)
             && Apart8(pagesHead, blocksHead)
    requires Good(Pages, m, pagesHead, s.pages, lo, hi) && ChangesOnly(Blocks, m, r, blocksHead, s.blocks)
    ensures Good(Pages, r, pagesHead, s.pages, lo, hi)
  {
    hide Inv;
    forall x | 0 <= x < |m| && Uses(Pages, pagesHead, s.pages, x)
      ensures r[x] == m[x]
    {
      OwnersApart(s, lo, hi, pagesHead, blocksHead, x);
    }
    ThreadUntouched(Pages, m, r, pagesHead, s.pages);
  }

  lemma HeadersAppend(m: seq<Byte>, live: seq<Extent>, e: Extent)
    requires Headers(m, live) && 0 <= e.start && e.start + HEADER <= |m| && Load32(m, e.start) == e.size - HEADER
    ensures Headers(m, live + [e])
  {
  }

  /** Step A4 only writes into the block it carves, whose tail becomes the live block. */
  lemma CarvedGood(s: State, m: seq<Byte>, i: nat, n: nat, lo: int, hi: int, pagesHead: nat, blocksHead: nat)
    requires Inv(s, lo, hi) && Outside(pagesHead, lo, hi) && Outside(blocksHead, lo, hi)
             && Apart8(pagesHead, blocksHead)
    requires Good(Pages, m, pagesHead, s.pages, lo, hi) && Good(Blocks, m, blocksHead, s.blocks, lo, hi)
             && Headers(m, s.live)
    requires Pages.Addr(hi) <= |m| <= 0x1000_0000 && 4 <= n && i < |s.blocks| && n + HEADER + NODE <= s.blocks[i].size
    ensures var b, r := s.blocks[i], n + HEADER;
            && 0 <= b.start && b.End() <= |m| && Load32(m, b.start) == b.size
            && var m1 := Carved(m, b, n);
               && |m1| == |m| && Good(Pages, m1, pagesHead, s.pages, lo, hi)
               && Good(Blocks, m1, blocksHead, TakeEnd(s.blocks, i, r), lo, hi)
               && Headers(m1, s.live + [Extent(b.End() - r, r)]) && ClientsSee(s, m, m1)
  {
    hide Good, TakeEnd, Carved, Headers, Inv, ClientsSee, ChangesOnly, AtLeast;
    LiveRoomy(s, lo, hi);
    var b, r := s.blocks[i], n + HEADER;
    CarvedBlocks(m, blocksHead, s.blocks, i, n, lo, hi);
    var m1 := Carved(m, b, n);
    CarvedChanges(m, blocksHead, s.blocks, i, n);
    CarvedBytes(m, b, n);
    PagesSurvive(s, m, m1, lo, hi, pagesHead, blocksHead);
    ClientsUnaffected(Blocks, s, m, m1, lo, hi, pagesHead, blocksHead);
    HeadersKept(s, m, m1);
    HeadersAppend(m1, s.live, Extent(b.End() - r, r));
  }

  lemma LiveRoomy(s: State, lo: int, hi: int)
    requires Inv(s, lo, hi)
    ensures AtLeast(s.live, NODE) && 0 < lo
  {
  }

  lemma InitialThreads(initial: seq<Byte>, pagesHead: nat, blocksHead: nat, memoryStart: nat, count: nat)
    requires memoryStart % PAGE_SIZE == 0 && 0 < count && 0 < memoryStart
             && memoryStart + count * PAGE_SIZE <= |initial| <= 0x1000_0000
    requires NodeIs(Pages, initial, pagesHead, 0, 0) && NodeIs(Blocks, initial, blocksHead, 0, 0)
    requires pagesHead + 8 <= memoryStart && blocksHead + 8 <= memoryStart && Apart8(pagesHead, blocksHead)
    ensures var m := Store32(Store16(Store32(initial, pagesHead + 4, memoryStart), memoryStart, count),
            memoryStart + 4, 0);
            var lo := memoryStart / PAGE_SIZE;
            && |m| == |initial|
            && Good(Pages, m, pagesHead, [Extent(lo, count)], lo, lo + count)
            && Good(Blocks, m, blocksHead, [], lo, lo + count)
  {
    hide Store32, Store16;
    var m1 := Store32(initial, pagesHead + 4, memoryStart);
    var m2 := Store16(m1, memoryStart, count);
    var m3 := Store32(m2, memoryStart + 4, 0);
    assert SameNode(initial, m1, blocksHead) && SameNode(m1, m2, blocksHead) && SameNode(m2, m3, blocksHead);
    assert Load16(m1, pagesHead) == Load16(initial, pagesHead);
    assert SameNode(m1, m2, pagesHead) && SameNode(m2, m3, pagesHead);
    assert Load16(m3, memoryStart) == Load16(m2, memoryStart);
    assert Pages.Addr(memoryStart / PAGE_SIZE) == memoryStart;
  }
}
