/** A linked list of pages with a table of iterators into it. A node's id plays the iterator's part. */
module NodeList {
  import opened Recency
  import opened PagePool

  type NodeId = nat

  datatype NodeList = NodeList(order: seq<NodeId>, pages: map<NodeId, PageId>, next: NodeId)

  const NO_NODES := NodeList([], map[], 0)

  ghost predicate Linked(l: NodeList) {
    Distinct(l.order) && (forall n :: n in l.order <==> n in l.pages) && (forall n :: n in l.pages ==> n < l.next)
  }

  /** Each stored iterator points at a node of its own page, and every node is some page's. */
  ghost predicate IteratorsAgree(l: NodeList, iters: map<PageId, NodeId>) {
    && (forall p :: p in iters ==> iters[p] in l.pages && l.pages[iters[p]] == p)
    && (forall n :: n in l.pages ==> l.pages[n] in iters && iters[l.pages[n]] == n)
  }

  function PagesAt(order: seq<NodeId>, pages: map<NodeId, PageId>): (ps: seq<PageId>)
    requires forall n :: n in order ==> n in pages
    ensures |ps| == |order| && forall i :: 0 <= i < |order| ==> ps[i] == pages[order[i]]
  {
    seq(|order|, i requires 0 <= i < |order| => pages[order[i]])
  }

  ghost function PagesIn(l: NodeList): seq<PageId>
    requires Linked(l)
  {
    PagesAt(l.order, l.pages)
  }

  function Erased(l: NodeList, n: NodeId): NodeList {
    NodeList(Without(l.order, n), l.pages - {n}, l.next)
  }

  function PushedFront(l: NodeList, p: PageId): NodeList {
    NodeList([l.next] + l.order, l.pages[l.next := p], l.next + 1)
  }

  lemma PagesOfCons(head: NodeId, tail: seq<NodeId>, pages: map<NodeId, PageId>)
    requires head in pages && forall m :: m in tail ==> m in pages
    ensures PagesAt([head] + tail, pages) == [pages[head]] + PagesAt(tail, pages)
  {
  }

  lemma {:induction false} PagesWithout(order: seq<NodeId>, pages: map<NodeId, PageId>, n: NodeId)
    requires n in pages && (forall m :: m in order ==> m in pages)
    requires forall m :: m in order && pages[m] == pages[n] ==> m == n
    ensures PagesAt(Without(order, n), pages) == Without(PagesAt(order, pages), pages[n])
  {
    if order == [] {
    } else {
      hide PagesAt, Without;
      var head, tail := order[0], order[1..];
      assert order == [head] + tail && head in order && forall m :: m in tail ==> m in order;
      PagesWithout(tail, pages, n);
      PagesOfCons(head, tail, pages);
      WithoutCons(head, tail, n);
      WithoutCons(pages[head], PagesAt(tail, pages), pages[n]);
      if head != n {
        PagesOfCons(head, Without(tail, n), pages);
      }
    }
  }

  /** Erasing through a page's iterator removes that page and leaves the other iterators good. */
  lemma EraseAgrees(l: NodeList, iters: map<PageId, NodeId>, p: PageId)
    requires Linked(l) && IteratorsAgree(l, iters) && p in iters
    ensures Linked(Erased(l, iters[p])) && IteratorsAgree(Erased(l, iters[p]), iters - {p})
    ensures PagesIn(Erased(l, iters[p])) == Without(PagesIn(l), p)
  {
    EraseLinks(l, iters, p);
    var n := iters[p];
    hide Distinct;
    PagesWithout(l.order, l.pages, n);
    PagesOfFewer(Without(l.order, n), l.pages, n);
  }

  lemma EraseLinks(l: NodeList, iters: map<PageId, NodeId>, p: PageId)
    requires Linked(l) && IteratorsAgree(l, iters) && p in iters
    ensures Linked(Erased(l, iters[p])) && IteratorsAgree(Erased(l, iters[p]), iters - {p})
  {
    hide Distinct, Without;
    var n, left := iters[p], Erased(l, iters[p]);
    WithoutDistinct(l.order, n);
    assert forall m :: m in left.order <==> m in left.pages;
    forall q | q in iters - {p}
      ensures iters[q] != n
    {
      assert l.pages[iters[q]] == q;
    }
  }

  lemma PagesOfFewer(order: seq<NodeId>, pages: map<NodeId, PageId>, n: NodeId)
    requires n !in order && forall m :: m in order ==> m in pages
    ensures PagesAt(order, pages - {n}) == PagesAt(order, pages)
  {
  }

  lemma PushAgrees(l: NodeList, iters: map<PageId, NodeId>, p: PageId)
    requires Linked(l) && IteratorsAgree(l, iters) && p !in iters
    ensures Linked(PushedFront(l, p)) && IteratorsAgree(PushedFront(l, p), iters[p := l.next])
    ensures PagesIn(PushedFront(l, p)) == [p] + PagesIn(l)
  {
    assert l.next !in l.pages && l.next !in l.order;
    hide Distinct;
    DistinctCons(l.next, l.order);
    assert PagesAt([l.next] + l.order, l.pages[l.next := p]) == [p] + PagesAt(l.order, l.pages);
  }

  /** Touching a page: erase through its iterator, push a new node, store the new iterator. */
  lemma {:induction false} TouchAgrees(l: NodeList, iters: map<PageId, NodeId>, p: PageId)
    requires Linked(l) && IteratorsAgree(l, iters) && p in iters
    ensures var t := PushedFront(Erased(l, iters[p]), p);
            && Linked(t) && IteratorsAgree(t, iters[p := l.next])
            && PagesIn(t) == MoveToFront(PagesIn(l), p)
  {
    hide Linked, IteratorsAgree, PagesIn, Without, PushedFront;
    EraseAgrees(l, iters, p);
    PushAgrees(Erased(l, iters[p]), iters - {p}, p);
    assert (iters - {p})[p := l.next] == iters[p := l.next];
  }

  /** `std::find`: the first node of a page, if any. */
  function Find(order: seq<NodeId>, pages: map<NodeId, PageId>, p: PageId): (n: seq<NodeId>)
    requires forall m :: m in order ==> m in pages
    ensures n == [] ==> p !in PagesAt(order, pages)
    ensures n != [] ==> |n| == 1 && n[0] in order && pages[n[0]] == p
  {
    if order == [] then []
    else if pages[order[0]] == p then [order[0]]
    else
      assert PagesAt(order, pages) == [pages[order[0]]] + PagesAt(order[1..], pages);
      Find(order[1..], pages, p)
  }

  lemma {:induction false} FindIsIterator(l: NodeList, iters: map<PageId, NodeId>, p: PageId)
    requires Linked(l) && IteratorsAgree(l, iters) && p in iters
    ensures Find(l.order, l.pages, p) == [iters[p]]
  {
    var i :| 0 <= i < |l.order| && l.order[i] == iters[p];
    assert PagesAt(l.order, l.pages)[i] == p;
    hide Distinct;
  }

  lemma IteratorsAreListed(l: NodeList, iters: map<PageId, NodeId>)
    requires Linked(l) && IteratorsAgree(l, iters)
    ensures forall p :: p in iters <==> p in PagesIn(l)
  {
    forall p | p in iters
      ensures p in PagesIn(l)
    {
      var i :| 0 <= i < |l.order| && l.order[i] == iters[p];
      assert PagesIn(l)[i] == p;
    }
  }
}
