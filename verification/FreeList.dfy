/**
 How kernel/memory.c threads an extent list through the free memory itself.

 A node occupies the first eight bytes of its extent: the extent's size, then a link.
 The block list has 32-bit byte counts and links; the page list has 16-bit page counts.
 A static head node with size 0 precedes the first extent of each list.
 */
module FreeList {
  import opened Extents
  import opened Ram

  const PAGE_SIZE := 4096

  datatype Kind = Blocks | Pages {

    /** page_to_addr for the page list, the identity for the block list. */
    function Addr(start: int): int {
      match this
      case Blocks => start
      case Pages => start * PAGE_SIZE
    }

    function Count(m: seq<Byte>, a: nat): int
      requires a + 8 <= |m|
    {
      match this
      case Blocks => Load32(m, a)
      case Pages => Load16(m, a)
    }
  }

  function Next(m: seq<Byte>, a: nat): int
    requires a + 8 <= |m|
  {
    Load32(m, a + 4)
  }

  /** Address of the i-th node, the head being node 0. */
  function Node(kind: Kind, head: nat, l: seq<Extent>, i: nat): int
    requires i <= |l|
  {
    if i == 0 then head else kind.Addr(l[i - 1].start)
  }

  /** Value of the link that leads to the list l, when `end` follows its last extent. */
  function Link(kind: Kind, l: seq<Extent>, end: int): int {
    if l == [] then end else kind.Addr(l[0].start)
  }

  ghost predicate NodeIs(kind: Kind, m: seq<Byte>, a: int, count: int, next: int) {
    0 < a && a + 8 <= |m| && kind.Count(m, a) == count && Next(m, a) == next
  }

  /** Node i of l holds its extent's size and links to extent i + 1, the last one to `end`. */
  ghost predicate LinkedAt(kind: Kind, m: seq<Byte>, l: seq<Extent>, end: int, i: nat)
    requires i < |l|
  {
    NodeIs(kind, m, kind.Addr(l[i].start), l[i].size,
           if i + 1 < |l| then kind.Addr(l[i + 1].start) else end)
  }

  ghost predicate Segment(kind: Kind, m: seq<Byte>, l: seq<Extent>, end: int) {
    forall i :: 0 <= i < |l| ==> LinkedAt(kind, m, l, end, i)
  }

  ghost predicate Threaded(kind: Kind, m: seq<Byte>, head: nat, l: seq<Extent>) {
    NodeIs(kind, m, head, 0, Link(kind, l, 0)) && Segment(kind, m, l, 0)
  }

  lemma SegmentConcat(kind: Kind, m: seq<Byte>, l: seq<Extent>, r: seq<Extent>, end: int)
    ensures Segment(kind, m, l + r, end)
            <==> Segment(kind, m, l, Link(kind, r, end)) && Segment(kind, m, r, end)
  {
    var s := l + r;
    assert forall i :: 0 <= i < |l| ==>
             (LinkedAt(kind, m, s, end, i) <==> LinkedAt(kind, m, l, Link(kind, r, end), i));
    forall i | 0 <= i < |r|
      ensures LinkedAt(kind, m, s, end, |l| + i) <==> LinkedAt(kind, m, r, end, i)
    {
      assert s[|l| + i] == r[i];
    }
    if Segment(kind, m, l, Link(kind, r, end)) && Segment(kind, m, r, end) {
      forall i | 0 <= i < |s|
        ensures LinkedAt(kind, m, s, end, i)
      {
        assert i >= |l| ==> LinkedAt(kind, m, r, end, i - |l|);
        assert i >= |l| ==> i == |l| + (i - |l|);
      }
    }
  }

  /** m and r hold the same node at a. */
  ghost predicate SameNode(m: seq<Byte>, r: seq<Byte>, a: int) {
    && 0 <= a && |m| == |r|
    && (a + 8 <= |m| ==> Load16(m, a) == Load16(r, a) && Load32(m, a) == Load32(r, a) && Next(m, a) == Next(r, a))
  }

  ghost predicate SameNodes(kind: Kind, m: seq<Byte>, r: seq<Byte>, l: seq<Extent>) {
    forall i :: 0 <= i < |l| ==> SameNode(m, r, kind.Addr(l[i].start))
  }

  lemma SegmentFrame(kind: Kind, m: seq<Byte>, r: seq<Byte>, l: seq<Extent>, end: int)
    requires Segment(kind, m, l, end) && SameNodes(kind, m, r, l)
    ensures Segment(kind, r, l, end)
  {
    forall i | 0 <= i < |l|
      ensures LinkedAt(kind, r, l, end, i)
    {
      assert LinkedAt(kind, m, l, end, i);
      assert SameNode(m, r, kind.Addr(l[i].start));
    }
  }

  lemma ThreadFrame(kind: Kind, m: seq<Byte>, r: seq<Byte>, head: nat, l: seq<Extent>)
    requires Threaded(kind, m, head, l) && SameNode(m, r, head) && SameNodes(kind, m, r, l)
    ensures Threaded(kind, r, head, l)
  {
    SegmentFrame(kind, m, r, l, 0);
  }

  lemma SegmentPieces(kind: Kind, m: seq<Byte>, l: seq<Extent>, j: nat, t: nat)
    requires Segment(kind, m, l, 0) && j <= t <= |l|
    ensures Segment(kind, m, l[..j], Link(kind, l[j..], 0))
    ensures Segment(kind, m, l[t..], 0)
  {
    assert l == l[..j] + l[j..] && l == l[..t] + l[t..];
    SegmentConcat(kind, m, l[..j], l[j..], 0);
    SegmentConcat(kind, m, l[..t], l[t..], 0);
  }

  lemma SegmentRelink(kind: Kind, m: seq<Byte>, r: seq<Byte>, l: seq<Extent>, previous: int, end: int)
    requires l != [] && Segment(kind, m, l, previous)
    requires SameNodes(kind, m, r, l[..|l| - 1])
    requires NodeIs(kind, r, kind.Addr(l[|l| - 1].start), l[|l| - 1].size, end)
    ensures Segment(kind, r, l, end)
  {
    forall i | 0 <= i < |l|
      ensures LinkedAt(kind, r, l, end, i)
    {
      if i + 1 < |l| {
        assert LinkedAt(kind, m, l, previous, i);
        assert l[..|l| - 1][i] == l[i];
        assert SameNode(m, r, kind.Addr(l[i].start));
      }
    }
  }

  /** What a write to node j (the head is node 0) has to leave alone: every earlier node,
      its own count, and the extents from t on. */
  ghost predicate Relinked(kind: Kind, m: seq<Byte>, r: seq<Byte>, head: nat, l: seq<Extent>, j: nat, t: nat, link: int)
    requires j <= t <= |l|
  {
    && (j > 0 ==> SameNode(m, r, head) && SameNodes(kind, m, r, l[..j - 1]))
    && NodeIs(kind, r, Node(kind, head, l, j), if j == 0 then 0 else l[j - 1].size, link)
    && SameNodes(kind, m, r, l[t..])
  }

  /** After relinking node j, the first j extents lead to `link`. */
  lemma RelinkedFront(kind: Kind, m: seq<Byte>, r: seq<Byte>, head: nat, l: seq<Extent>, j: nat, t: nat, link: int)
    requires Threaded(kind, m, head, l) && j <= t <= |l|
    requires Relinked(kind, m, r, head, l, j, t, link)
    ensures NodeIs(kind, r, head, 0, Link(kind, l[..j], link))
    ensures Segment(kind, r, l[..j], link)
    ensures Segment(kind, r, l[t..], 0)
  {
    SegmentPieces(kind, m, l, j, t);
    SegmentFrame(kind, m, r, l[t..], 0);
    if j > 0 {
      assert l[..j][..j - 1] == l[..j - 1];
      SegmentRelink(kind, m, r, l[..j], Link(kind, l[j..], 0), link);
    }
  }

  /** Replace the extents j, ..., t - 1 by the single extent e. */
  lemma ThreadSplice(kind: Kind, m: seq<Byte>, r: seq<Byte>, head: nat, l: seq<Extent>, j: nat, e: Extent, t: nat)
    requires Threaded(kind, m, head, l) && j <= t <= |l|
    requires Relinked(kind, m, r, head, l, j, t, kind.Addr(e.start))
    requires NodeIs(kind, r, kind.Addr(e.start), e.size, Link(kind, l[t..], 0))
    ensures Threaded(kind, r, head, l[..j] + [e] + l[t..])
  {
    RelinkedFront(kind, m, r, head, l, j, t, kind.Addr(e.start));
    SegmentConcat(kind, r, l[..j], [e], Link(kind, l[t..], 0));
    SegmentConcat(kind, r, l[..j] + [e], l[t..], 0);
  }

  /** Unlink extent j. */
  lemma ThreadUnlink(kind: Kind, m: seq<Byte>, r: seq<Byte>, head: nat, l: seq<Extent>, j: nat)
    requires Threaded(kind, m, head, l) && j < |l|
    requires Relinked(kind, m, r, head, l, j, j + 1, Link(kind, l[j + 1..], 0))
    ensures Threaded(kind, r, head, l[..j] + l[j + 1..])
  {
    RelinkedFront(kind, m, r, head, l, j, j + 1, Link(kind, l[j + 1..], 0));
    SegmentConcat(kind, r, l[..j], l[j + 1..], 0);
  }

  // ---------------------------------------------------------------- walking and merging

  lemma ThreadAt(kind: Kind, m: seq<Byte>, head: nat, l: seq<Extent>, k: nat)
    requires Threaded(kind, m, head, l) && k <= |l|
    ensures NodeIs(kind, m, Node(kind, head, l, k), if k == 0 then 0 else l[k - 1].size, Link(kind, l[k..], 0))
  {
    if k > 0 { assert LinkedAt(kind, m, l, 0, k - 1); }
  }

  /** Standing on node k, one sees extent k through its link. */
  lemma Walk(kind: Kind, m: seq<Byte>, head: nat, l: seq<Extent>, k: nat)
    requires Threaded(kind, m, head, l) && k <= |l|
    ensures var q, p := Node(kind, head, l, k), Link(kind, l[k..], 0);
            && NodeIs(kind, m, q, if k == 0 then 0 else l[k - 1].size, p)
            && (p == 0 <==> k == |l|)
            && (k < |l| ==>
                  && p == kind.Addr(l[k].start) == Node(kind, head, l, k + 1)
                  && NodeIs(kind, m, p, l[k].size, Link(kind, l[k + 1..], 0)))
  {
    ThreadAt(kind, m, head, l, k);
    if k < |l| { ThreadAt(kind, m, head, l, k + 1); }
  }

  /** Every extent has room for its node. */
  ghost predicate Roomy(kind: Kind, l: seq<Extent>) {
    forall i :: 0 <= i < |l| ==> 8 <= kind.Addr(l[i].size)
  }

  predicate Apart8(a: int, b: int) { a + 8 <= b || b + 8 <= a }

  /** The head's bytes are outside the memory of e. */
  predicate HeadClear(kind: Kind, head: int, e: Extent) {
    head + 8 <= kind.Addr(e.start) || kind.Addr(e.End()) <= head
  }

  ghost predicate HeadsClear(kind: Kind, head: int, l: seq<Extent>) {
    forall i :: 0 <= i < |l| ==> HeadClear(kind, head, l[i])
  }

  /** m and r differ at most in the eight bytes at q and the eight bytes at c. */
  ghost predicate Confined(m: seq<Byte>, r: seq<Byte>, q: int, c: int) {
    |r| == |m| && forall x {:trigger r[x]} :: 0 <= x < |m| && !(q <= x < q + 8) && !(c <= x < c + 8) ==> r[x] == m[x]
  }

  lemma ConfinedSame(m: seq<Byte>, r: seq<Byte>, q: int, c: int, a: int)
    requires Confined(m, r, q, c) && 0 <= a && Apart8(a, q) && Apart8(a, c)
    ensures SameNode(m, r, a)
  {
  }

  ghost predicate AllApart(kind: Kind, l: seq<Extent>, a: int) {
    forall i :: 0 <= i < |l| ==> 0 < kind.Addr(l[i].start) && Apart8(kind.Addr(l[i].start), a)
  }

  lemma ConfinedNodes(kind: Kind, m: seq<Byte>, r: seq<Byte>, q: int, c: int, l: seq<Extent>)
    requires Confined(m, r, q, c) && AllApart(kind, l, q) && AllApart(kind, l, c)
    ensures SameNodes(kind, m, r, l)
  {
    forall i | 0 <= i < |l|
      ensures SameNode(m, r, kind.Addr(l[i].start))
    {
      ConfinedSame(m, r, q, c, kind.Addr(l[i].start));
    }
  }

  lemma AddrOrder(kind: Kind, e: Extent, b: int)
    requires 8 <= kind.Addr(e.size)
    ensures e.End() <= b ==> kind.Addr(e.start) + 8 <= kind.Addr(b)
    ensures 0 < e.start ==> 0 < kind.Addr(e.start)
    ensures kind.Addr(e.End()) == kind.Addr(e.start) + kind.Addr(e.size)
  {
  }

  /** A node address below a piece of the list is clear of that piece's nodes. */
  lemma NodesAbove(kind: Kind, l: seq<Extent>, t: nat, b: int)
    requires Canonical(l) && Roomy(kind, l) && t <= |l|
    requires t < |l| ==> b + 8 <= kind.Addr(l[t].start)
    ensures AllApart(kind, l[t..], b)
  {
    forall i | 0 <= i < |l[t..]|
      ensures 0 < kind.Addr(l[t..][i].start) && Apart8(kind.Addr(l[t..][i].start), b)
    {
      AddrOrder(kind, l[t], l[t + i].start);
      AddrOrder(kind, l[t + i], 0);
    }
  }

  lemma NodesBelow(kind: Kind, l: seq<Extent>, t: nat, b: int)
    requires Canonical(l) && Roomy(kind, l) && t <= |l|
    requires t > 0 ==> l[t - 1].End() <= b
    ensures AllApart(kind, l[..t], kind.Addr(b))
  {
    forall i | 0 <= i < |l[..t]|
      ensures 0 < kind.Addr(l[..t][i].start) && Apart8(kind.Addr(l[..t][i].start), kind.Addr(b))
    {
      assert l[i].End() <= b;
      AddrOrder(kind, l[i], b);
    }
  }

  lemma NodesOffHead(kind: Kind, l: seq<Extent>, head: int)
    requires Canonical(l) && Roomy(kind, l) && HeadsClear(kind, head, l)
    ensures AllApart(kind, l, head)
  {
    forall i | 0 <= i < |l|
      ensures 0 < kind.Addr(l[i].start) && Apart8(kind.Addr(l[i].start), head)
    {
      assert HeadClear(kind, head, l[i]);
      AddrOrder(kind, l[i], 0);
    }
  }

  lemma AllApartSlice(kind: Kind, l: seq<Extent>, a: int, i: nat, j: nat)
    requires AllApart(kind, l, a) && i <= j <= |l|
    ensures AllApart(kind, l[i..j], a)
  {
    forall x | 0 <= x < |l[i..j]|
      ensures 0 < kind.Addr(l[i..j][x].start) && Apart8(kind.Addr(l[i..j][x].start), a)
    {
      assert l[i..j][x] == l[i + x];
    }
  }

  /** Writes to node k and to a new node between extents k - 1 and k leave every other node
      of the list alone. */
  lemma OtherNodesSame(kind: Kind, m: seq<Byte>, r: seq<Byte>, head: nat, l: seq<Extent>, k: nat, a: int, n: int)
    requires Canonical(l) && Roomy(kind, l) && HeadsClear(kind, head, l) && k <= |l|
    requires 8 <= kind.Addr(n) && HeadClear(kind, head, Extent(a, n))
    requires k > 0 ==> l[k - 1].End() <= a
    requires k < |l| ==> a + n <= l[k].start
    requires Confined(m, r, Node(kind, head, l, k), kind.Addr(a))
    ensures k > 0 ==> SameNode(m, r, head) && SameNodes(kind, m, r, l[..k - 1])
    ensures SameNodes(kind, m, r, l[k..])
  {
    var q, c := Node(kind, head, l, k), kind.Addr(a);
    AddrOrder(kind, Extent(a, n), if k < |l| then l[k].start else a + n);
    NodesAbove(kind, l, k, c);
    NodesOffHead(kind, l, head);
    if k > 0 {
      assert l[k - 1].End() <= a;
      AddrOrder(kind, l[k - 1], a);
      AddrOrder(kind, l[k - 1], if k < |l| then l[k].start else a);
      NodesAbove(kind, l, k, q);
      NodesBelow(kind, l, k - 1, l[k - 1].start);
      NodesBelow(kind, l, k - 1, a);
      ConfinedNodes(kind, m, r, q, c, l[..k - 1]);
      assert Apart8(kind.Addr(l[k - 1].start), head);
      ConfinedSame(m, r, q, c, head);
    } else {
      AllApartSlice(kind, l, head, 0, |l|);
      assert l[0..|l|] == l[0..];
    }
    ConfinedNodes(kind, m, r, q, c, l[k..]);
  }

  lemma SameNodesTail(kind: Kind, m: seq<Byte>, r: seq<Byte>, l: seq<Extent>, k: nat, t: nat)
    requires k <= t <= |l| && SameNodes(kind, m, r, l[k..])
    ensures SameNodes(kind, m, r, l[t..])
  {
    forall i | 0 <= i < |l[t..]|
      ensures SameNode(m, r, kind.Addr(l[t..][i].start))
    {
      assert l[t..][i] == l[k..][t - k + i];
    }
  }

  /** Extent k - 1 becomes e, which starts where it did; the extents before t disappear. */
  lemma ThreadResize(kind: Kind, m: seq<Byte>, r: seq<Byte>, head: nat, l: seq<Extent>, k: nat, size: int, t: nat)
    requires Threaded(kind, m, head, l) && 0 < k <= t <= |l|
    requires SameNode(m, r, head) && SameNodes(kind, m, r, l[..k - 1]) && SameNodes(kind, m, r, l[t..])
    requires NodeIs(kind, r, kind.Addr(l[k - 1].start), size, Link(kind, l[t..], 0))
    ensures Threaded(kind, r, head, l[..k - 1] + [Extent(l[k - 1].start, size)] + l[t..])
  {
    ThreadAt(kind, m, head, l, k - 1);
    assert l[k - 1..][0] == l[k - 1];
    if k > 1 {
      SameNodesHead(kind, m, r, l[..k - 1], k - 2);
      assert l[..k - 1][k - 2] == l[k - 2] && l[..k - 1][..k - 2] == l[..k - 2];
    }
    ThreadSplice(kind, m, r, head, l, k - 1, Extent(l[k - 1].start, size), t);
  }

  /** A new extent fits between extents k - 1 and k, away from the head. */
  ghost predicate Fits(kind: Kind, head: int, l: seq<Extent>, k: nat, a: int, n: int)
    requires k <= |l|
  {
    && Canonical(l) && Roomy(kind, l) && HeadsClear(kind, head, l)
    && 0 < a && 8 <= kind.Addr(n) && HeadClear(kind, head, Extent(a, n))
    && (k > 0 ==> l[k - 1].End() <= a)
    && (k < |l| ==> a + n <= l[k].start)
  }

  lemma MergedList(l: seq<Extent>, k: nat, a: int, n: int, t: nat)
    requires k <= |l| && MergesDown(l, k, a) && t == if MergesUp(l, k, a, n) then k + 1 else k
    ensures UpRest(l, k, a, n) == l[t..]
    ensures InsertAt(l, k, a, n) == l[..k - 1] + [Extent(l[k - 1].start, l[k - 1].size + UpSize(l, k, a, n))] + l[t..]
  {
  }

  /** Algorithm B on raw memory, when step B4 merges: whatever memory r differs from m only in
      the two nodes involved, and holds the merged node, represents InsertAt. */
  lemma ThreadMerge(kind: Kind, m: seq<Byte>, r: seq<Byte>, head: nat, l: seq<Extent>, k: nat, a: int, n: int)
    requires k <= |l| && Threaded(kind, m, head, l) && Fits(kind, head, l, k, a, n) && MergesDown(l, k, a)
    requires Confined(m, r, Node(kind, head, l, k), kind.Addr(a))
    requires NodeIs(kind, r, Node(kind, head, l, k), l[k - 1].size + UpSize(l, k, a, n),
             Link(kind, UpRest(l, k, a, n), 0))
    ensures Threaded(kind, r, head, InsertAt(l, k, a, n))
  {
    hide Threaded, Canonical, Roomy, HeadsClear, Confined, SameNodes, SameNode, NodeIs, InsertAt, UpRest, UpSize, Link;
    var t := if MergesUp(l, k, a, n) then k + 1 else k;
    MergedList(l, k, a, n, t);
    OtherNodesSame(kind, m, r, head, l, k, a, n);
    SameNodesTail(kind, m, r, l, k, t);
    ThreadResize(kind, m, r, head, l, k, l[k - 1].size + UpSize(l, k, a, n), t);
  }

  /** The same when step B4 links a new node. */
  lemma ThreadNew(kind: Kind, m: seq<Byte>, r: seq<Byte>, head: nat, l: seq<Extent>, k: nat, a: int, n: int)
    requires k <= |l| && Threaded(kind, m, head, l) && Fits(kind, head, l, k, a, n) && !MergesDown(l, k, a)
    requires Confined(m, r, Node(kind, head, l, k), kind.Addr(a))
    requires NodeIs(kind, r, Node(kind, head, l, k), if k == 0 then 0 else l[k - 1].size, kind.Addr(a))
    requires NodeIs(kind, r, kind.Addr(a), UpSize(l, k, a, n), Link(kind, UpRest(l, k, a, n), 0))
    ensures Threaded(kind, r, head, InsertAt(l, k, a, n))
  {
    var t := if MergesUp(l, k, a, n) then k + 1 else k;
    OtherNodesSame(kind, m, r, head, l, k, a, n);
    SameNodesTail(kind, m, r, l, k, t);
    ThreadSplice(kind, m, r, head, l, k, Extent(a, UpSize(l, k, a, n)), t);
  }

  lemma SameNodesHead(kind: Kind, m: seq<Byte>, r: seq<Byte>, l: seq<Extent>, k: nat)
    requires k <= |l| && SameNodes(kind, m, r, l)
    ensures SameNodes(kind, m, r, l[..k])
    ensures k < |l| ==> SameNode(m, r, kind.Addr(l[k].start))
  {
    forall i | 0 <= i < |l[..k]|
      ensures SameNode(m, r, kind.Addr(l[..k][i].start))
    {
      assert l[..k][i] == l[i];
    }
  }

  /** Shrinking extent i, as step A4 and the page allocator do ... */
  lemma ThreadShrink(kind: Kind, m: seq<Byte>, r: seq<Byte>, head: nat, l: seq<Extent>, i: nat, n: int)
    requires Threaded(kind, m, head, l) && Canonical(l) && Roomy(kind, l) && HeadsClear(kind, head, l)
    requires i < |l| && 0 < n < l[i].size
    requires Confined(m, r, kind.Addr(l[i].start), kind.Addr(l[i].start))
    requires NodeIs(kind, r, kind.Addr(l[i].start), l[i].size - n, Link(kind, l[i + 1..], 0))
    ensures Threaded(kind, r, head, TakeEnd(l, i, n))
  {
    ShrunkNodesSame(kind, m, r, head, l, i);
    ThreadResize(kind, m, r, head, l, i + 1, l[i].size - n, i + 1);
  }

  /** ... and unlinking it. */
  lemma ThreadTake(kind: Kind, m: seq<Byte>, r: seq<Byte>, head: nat, l: seq<Extent>, i: nat)
    requires Threaded(kind, m, head, l) && Canonical(l) && Roomy(kind, l) && HeadsClear(kind, head, l)
    requires i < |l|
    requires Confined(m, r, Node(kind, head, l, i), kind.Addr(l[i].start))
    requires NodeIs(kind, r, Node(kind, head, l, i), if i == 0 then 0 else l[i - 1].size, Link(kind, l[i + 1..], 0))
    ensures Threaded(kind, r, head, TakeEnd(l, i, l[i].size))
  {
    TakenNodesSame(kind, m, r, head, l, i);
    ThreadUnlink(kind, m, r, head, l, i);
  }

  lemma ShrunkNodesSame(kind: Kind, m: seq<Byte>, r: seq<Byte>, head: nat, l: seq<Extent>, i: nat)
    requires Canonical(l) && Roomy(kind, l) && HeadsClear(kind, head, l) && i < |l|
    requires Confined(m, r, kind.Addr(l[i].start), kind.Addr(l[i].start))
    ensures SameNode(m, r, head) && SameNodes(kind, m, r, l[..i]) && SameNodes(kind, m, r, l[i + 1..])
  {
    var a := kind.Addr(l[i].start);
    NodesBelow(kind, l, i, l[i].start);
    AddrOrder(kind, l[i], if i + 1 < |l| then l[i + 1].start else 0);
    NodesAbove(kind, l, i + 1, a);
    NodesOffHead(kind, l, head);
    ConfinedNodes(kind, m, r, a, a, l[..i]);
    ConfinedNodes(kind, m, r, a, a, l[i + 1..]);
    ConfinedSame(m, r, a, a, head);
  }

  lemma TakenNodesSame(kind: Kind, m: seq<Byte>, r: seq<Byte>, head: nat, l: seq<Extent>, i: nat)
    requires Canonical(l) && Roomy(kind, l) && HeadsClear(kind, head, l) && i < |l|
    requires Confined(m, r, Node(kind, head, l, i), kind.Addr(l[i].start))
    ensures i > 0 ==> SameNode(m, r, head) && SameNodes(kind, m, r, l[..i - 1])
    ensures SameNodes(kind, m, r, l[i + 1..])
  {
    var q, a := Node(kind, head, l, i), kind.Addr(l[i].start);
    AddrOrder(kind, l[i], if i + 1 < |l| then l[i + 1].start else 0);
    NodesAbove(kind, l, i + 1, a);
    NodesOffHead(kind, l, head);
    if i > 0 {
      AddrOrder(kind, l[i - 1], l[i].start);
      NodesAbove(kind, l, i + 1, q);
      NodesBelow(kind, l, i - 1, l[i - 1].start);
      NodesBelow(kind, l, i - 1, l[i].start);
      ConfinedNodes(kind, m, r, q, a, l[..i - 1]);
      ConfinedSame(m, r, q, a, head);
    } else {
      AllApartSlice(kind, l, head, 1, |l|);
      assert l[1..|l|] == l[1..];
    }
    ConfinedNodes(kind, m, r, q, a, l[i + 1..]);
  }

  // ---------------------------------------------------------------- frames

  /** The cell of a list in which a byte lies. */
  function CellOf(kind: Kind, x: int): int {
    match kind
    case Blocks => x
    case Pages => x / PAGE_SIZE
  }

  /** Byte x belongs to the list: to one of its extents or to its head node. */
  ghost predicate Uses(kind: Kind, head: int, l: seq<Extent>, x: int) {
    head <= x < head + 8 || Covers(l, CellOf(kind, x))
  }

  /** A list survives any change to bytes that are not its own. */
  lemma ThreadUntouched(kind: Kind, m: seq<Byte>, r: seq<Byte>, head: nat, l: seq<Extent>)
    requires Threaded(kind, m, head, l) && Canonical(l) && Roomy(kind, l) && |r| == |m|
    requires forall x :: 0 <= x < |m| && Uses(kind, head, l, x) ==> r[x] == m[x]
    ensures Threaded(kind, r, head, l)
  {
    forall i | 0 <= i < |l|
      ensures SameNode(m, r, kind.Addr(l[i].start))
    {
      var a := kind.Addr(l[i].start);
      AddrOrder(kind, l[i], 0);
      assert LinkedAt(kind, m, l, 0, i);
      forall x | a <= x < a + 8
        ensures r[x] == m[x]
      {
        assert l[i].Holds(CellOf(kind, x));
        assert Uses(kind, head, l, x);
      }
    }
    assert forall x :: head <= x < head + 8 ==> Uses(kind, head, l, x);
    ThreadFrame(kind, m, r, head, l);
  }

  // ---------------------------------------------------------------- the lists as words of memory

  /** Bytes a, ..., a + 3, least significant first. */
  function Word(m: seq<Byte>, a: nat): int
    requires a + 4 <= |m|
  {
    m[a] as int + 0x100 * m[a + 1] as int + 0x1_0000 * m[a + 2] as int + 0x100_0000 * m[a + 3] as int
  }

  predicate BlockNode(m: seq<Byte>, a: int, size: int, next: int) {
    0 < a && a + 8 <= |m| && Word(m, a) == size && Word(m, a + 4) == next
  }

  predicate RunNode(m: seq<Byte>, a: int, count: int, next: int) {
    0 < a && a + 8 <= |m| && m[a] as int + 0x100 * m[a + 1] as int == count && Word(m, a + 4) == next
  }

  lemma NodesInWords(m: seq<Byte>, a: int, count: int, next: int)
    ensures NodeIs(Blocks, m, a, count, next) <==> BlockNode(m, a, count, next)
    ensures NodeIs(Pages, m, a, count, next) <==> RunNode(m, a, count, next)
  {
  }

  /** Block i word by word: its size at its address, then the address of the next block, or zero. */
  predicate BlockAt(m: seq<Byte>, l: seq<Extent>, i: nat)
    requires i < |l|
  {
    BlockNode(m, l[i].start, l[i].size, if i + 1 < |l| then l[i + 1].start else 0)
  }

  /** Run i word by word, at 4096 times its page number: its page count in two bytes, and in the second
      word the address of the next run, or zero. */
  predicate RunAt(m: seq<Byte>, l: seq<Extent>, i: nat)
    requires i < |l|
  {
    RunNode(m, l[i].start * 4096, l[i].size, if i + 1 < |l| then l[i + 1].start * 4096 else 0)
  }

  /** A list is threaded through memory exactly if each of its nodes, and before the first a head of size
      zero, is there in words. */
  lemma BlocksInWords(m: seq<Byte>, head: nat, l: seq<Extent>)
    ensures Threaded(Blocks, m, head, l) <==>
              && BlockNode(m, head, 0, if l == [] then 0 else l[0].start)
              && forall i :: 0 <= i < |l| ==> BlockAt(m, l, i)
  {
    hide BlockNode, NodeIs;
    NodesInWords(m, head, 0, Link(Blocks, l, 0));
    forall i | 0 <= i < |l|
      ensures LinkedAt(Blocks, m, l, 0, i) <==> BlockAt(m, l, i)
    {
      NodesInWords(m, l[i].start, l[i].size, if i + 1 < |l| then l[i + 1].start else 0);
    }
    hide LinkedAt, BlockAt;
  }

  lemma RunsInWords(m: seq<Byte>, head: nat, l: seq<Extent>)
    ensures Threaded(Pages, m, head, l) <==>
              && RunNode(m, head, 0, if l == [] then 0 else l[0].start * 4096)
              && forall i :: 0 <= i < |l| ==> RunAt(m, l, i)
  {
    hide RunNode, NodeIs;
    NodesInWords(m, head, 0, Link(Pages, l, 0));
    forall i | 0 <= i < |l|
      ensures LinkedAt(Pages, m, l, 0, i) <==> RunAt(m, l, i)
    {
      NodesInWords(m, l[i].start * 4096, l[i].size, if i + 1 < |l| then l[i + 1].start * 4096 else 0);
    }
    hide LinkedAt, RunAt;
  }
}
