/** Reading a side page by page, each page from whatever the book has become by then. */
module OrderPaging {
  import opened MoveTypes
  import opened BigVector
  import opened OrderQuery

  /** The next request: a bid start is exclusive, an ask start inclusive, so asks resume one id further on. */
  function Resume(q: Query, last: u128): Option<Query> {
    if q.bids then Some(q.(start := last))
    else if last == MAX_U128 then None
    else Some(q.(start := last + 1))
  }

  datatype Paging = Paging(orders: seq<Order>, used: nat, done: bool)

  /** Page after page, one per book in `books`, until a page comes back short. */
  function Paged(books: seq<seq<Order>>, q: Query, limit: nat): (r: Paging)
    requires limit > 0
    ensures r.used <= |books|
    decreases |books|
  {
    if books == [] then Paging([], 0, false)
    else
      var page := Page(books[0], q, limit);
      if |page| < limit then Paging(page, 1, true)
      else
        match Resume(q, page[limit - 1].id)
        case None => Paging(page, 1, true)
        case Some(q') =>
          var rest := Paged(books[1..], q', limit);
          Paging(page + rest.orders, rest.used + 1, rest.done)
  }

  ghost predicate Present(s: seq<Order>, q: Query, id: u128) { exists o :: o in s && o.id == id && q.Matches(o) }

  /** In each of the first `n` books there is a matching order with this id. */
  ghost predicate PresentThroughout(books: seq<seq<Order>>, n: nat, q: Query, id: u128)
    requires n <= |books|
  {
    forall k :: 0 <= k < n ==> Present(books[k], q, id)
  }

  ghost predicate Returned(orders: seq<Order>, id: u128) { exists i :: 0 <= i < |orders| && orders[i].id == id }

  lemma ResumeNarrows(q: Query, last: Order, o: Order)
    requires q.Matches(last)
    ensures match Resume(q, last.id)
            case None => !q.Precedes(last, o)
            case Some(q') => q'.bids == q.bids && (q'.Matches(o) <==> q.Matches(o) && q.Precedes(last, o))
  {
  }

  lemma PageFacts(s: seq<Order>, q: Query, limit: nat)
    requires q.Ordered(s) && limit > 0
    ensures var page := Page(s, q, limit);
            && q.Ordered(page)
            && (forall o :: o in page ==> o in s && q.Matches(o))
            && (forall o :: o in s && q.Matches(o) ==>
                  o in page || (|page| == limit && q.Precedes(page[limit - 1], o)))
  {
    FilterIsExact(s, q);
    var all, page := Filter(s, q), Page(s, q, limit);
    forall o | o in s && q.Matches(o) ensures o in page || (|page| == limit && q.Precedes(page[limit - 1], o)) {
      var i :| 0 <= i < |all| && all[i] == o;
      if i < |page| { assert page[i] == o; }
    }
  }

  /** Every returned order was in a book it was read from, and ids strictly descend (bids) or ascend (asks). */
  lemma {:induction false} PagesAreOrderedAndGenuine(books: seq<seq<Order>>, q: Query, limit: nat)
    requires limit > 0 && forall k :: 0 <= k < |books| ==> q.Ordered(books[k])
    ensures var r := Paged(books, q, limit);
            && q.Ordered(r.orders)
            && forall o :: o in r.orders ==> q.Matches(o) && exists k :: 0 <= k < r.used && o in books[k]
    decreases |books|
  {
    if books != [] {
      var page := Page(books[0], q, limit);
      PageFacts(books[0], q, limit);
      if |page| == limit && Resume(q, page[limit - 1].id).Some? {
        var last, q' := page[limit - 1], Resume(q, page[limit - 1].id).value;
        var rest := Paged(books[1..], q', limit);
        assert last in page;
        PagesAreOrderedAndGenuine(books[1..], q', limit);
        forall o | o in rest.orders
          ensures q.Matches(o) && q.Precedes(last, o) && exists k :: 1 <= k < rest.used + 1 && o in books[k]
        {
          ResumeNarrows(q, last, o);
          var k :| 0 <= k < rest.used && o in books[1..][k];
          assert o in books[k + 1];
        }
        PrefixOrdered(page, rest.orders, q);
      }
    }
  }

  lemma PrefixOrdered(a: seq<Order>, b: seq<Order>, q: Query)
    requires q.Ordered(a) && q.Ordered(b) && a != []
    requires forall o :: o in b ==> q.Precedes(a[|a| - 1], o)
    ensures q.Ordered(a + b)
  {
    forall i, j | 0 <= i < j < |a + b| ensures q.Precedes((a + b)[i], (a + b)[j]) {
      if i < |a| <= j { assert b[j - |a|] in b; }
    }
  }

  /** An order that matches in every book read along the way is returned. */
  lemma {:induction false} NothingIsSkipped(books: seq<seq<Order>>, q: Query, limit: nat, id: u128)
    requires limit > 0 && forall k :: 0 <= k < |books| ==> q.Ordered(books[k])
    requires Paged(books, q, limit).done
    requires PresentThroughout(books, Paged(books, q, limit).used, q, id)
    ensures Returned(Paged(books, q, limit).orders, id)
    decreases |books|
  {
    var page, r := Page(books[0], q, limit), Paged(books, q, limit);
    PageFacts(books[0], q, limit);
    assert Present(books[0], q, id);
    var o :| o in books[0] && o.id == id && q.Matches(o);
    if o in page {
      var i :| 0 <= i < |page| && page[i] == o;
      assert r.orders[i].id == id;
    } else {
      var last := page[limit - 1];
      assert last in page;
      ResumeNarrows(q, last, o);
      var q' := Resume(q, last.id).value;
      var rest := Paged(books[1..], q', limit);
      forall k | 0 <= k < rest.used ensures Present(books[1..][k], q', id) {
        StillPresent(books[k + 1], q, last, o);
      }
      NothingIsSkipped(books[1..], q', limit, id);
      ReturnedLater(page, rest.orders, id);
    }
  }

  /** An order that comes after the last one returned still matches the next request. */
  lemma StillPresent(s: seq<Order>, q: Query, last: Order, o: Order)
    requires Present(s, q, o.id) && q.Matches(last) && q.Precedes(last, o) && Resume(q, last.id).Some?
    ensures Present(s, Resume(q, last.id).value, o.id)
  {
    var p :| p in s && p.id == o.id && q.Matches(p);
    ResumeNarrows(q, last, p);
  }

  lemma ReturnedLater(page: seq<Order>, rest: seq<Order>, id: u128)
    requires Returned(rest, id)
    ensures Returned(page + rest, id)
  {
    var i :| 0 <= i < |rest| && rest[i].id == id;
    assert (page + rest)[|page| + i].id == id;
  }

  /**
   * Paging is exact while the book changes underneath: a matching order that stays put is returned exactly
   * once, and no id is ever returned twice.
   */
  lemma PagingIsExact(books: seq<seq<Order>>, q: Query, limit: nat)
    requires limit > 0 && forall k :: 0 <= k < |books| ==> q.Ordered(books[k])
    ensures var r := Paged(books, q, limit);
            && (forall i, j :: 0 <= i < j < |r.orders| ==> r.orders[i].id != r.orders[j].id)
            && (r.done ==> forall id: u128 :: PresentThroughout(books, r.used, q, id) ==> Returned(r.orders, id))
  {
    var r := Paged(books, q, limit);
    PagesAreOrderedAndGenuine(books, q, limit);
    forall i, j | 0 <= i < j < |r.orders| ensures r.orders[i].id != r.orders[j].id {
      assert q.Precedes(r.orders[i], r.orders[j]);
    }
    if r.done {
      forall id: u128 | PresentThroughout(books, r.used, q, id) ensures Returned(r.orders, id) {
        NothingIsSkipped(books, q, limit, id);
      }
    }
  }

  lemma ResumeDropsThePage(s: seq<Order>, q: Query, n: nat)
    requires q.Ordered(s) && 0 < n <= |Filter(s, q)|
    ensures match Resume(q, Filter(s, q)[n - 1].id)
            case None => Filter(s, q)[n..] == []
            case Some(q') => q'.Ordered(s) && Filter(s, q') == Filter(s, q)[n..]
  {
    var all := Filter(s, q);
    var last := all[n - 1];
    FilterIsExact(s, q);
    assert last in all;
    assert n < |all| ==> q.Precedes(last, all[n]);
    match Resume(q, last.id)
    case None =>
    case Some(q') =>
      FilterIsExact(s, q');
      forall o ensures o in Filter(s, q') <==> o in all[n..] {
        ResumeNarrows(q, last, o);
        if o in all && q.Precedes(last, o) {
          var i :| 0 <= i < |all| && all[i] == o;
          assert n <= i && all[n..][i - n] == o;
        }
      }
      OrderedSeqsAreDeterminedByElements(Filter(s, q'), all[n..], q);
  }

  /** On a book that stays still the pages put together are the unpaged scan, within as many pages as needed. */
  lemma {:induction false} PagesConcatenate(books: seq<seq<Order>>, s: seq<Order>, q: Query, limit: nat)
    requires limit > 0 && q.Ordered(s)
    requires forall k :: 0 <= k < |books| ==> books[k] == s
    requires |Filter(s, q)| < |books| * limit
    ensures Paged(books, q, limit).done && Paged(books, q, limit).orders == Filter(s, q)
    decreases |books|
  {
    var all, page := Filter(s, q), Page(s, q, limit);
    OnePageLess(|all|, |books|, limit);
    if |page| == limit {
      ResumeDropsThePage(s, q, limit);
      assert all == all[..limit] + all[limit..];
      match Resume(q, page[limit - 1].id)
      case None =>
      case Some(q') => PagesConcatenate(books[1..], s, q', limit);
    }
  }

  lemma OnePageLess(orders: nat, pages: nat, limit: nat)
    requires orders < pages * limit
    ensures pages > 0 && orders - limit < (pages - 1) * limit
  {
    assert pages != 0;
    assert pages * limit == (pages - 1) * limit + limit;
  }

  lemma {:induction false} FilterKeepsAll(s: seq<Order>, q: Query)
    requires forall o :: o in s ==> q.Matches(o)
    ensures Filter(s, q) == s
  {
    if s != [] {
      assert s[0] in s;
      FilterKeepsAll(s[1..], q);
    }
  }

  /** Bid ids have the top bit clear and ask ids have it set, so the default bounds cover the whole side. */
  lemma DefaultsCoverTheSide(orders: seq<Order>, bids: bool, limit: nat)
    requires forall o :: o in orders ==> (o.id < BID_MAX_ORDER_ID <==> bids)
    ensures Page(Scan(orders, bids), QueryOf(None, None, None, bids), |orders| + limit) == Scan(orders, bids)
  {
    FilterKeepsAll(Scan(orders, bids), QueryOf(None, None, None, bids));
  }

  // ---- the has-next-page flag

  lemma OmissionIsReported(s: seq<Order>, q: Query, limit: nat)
    requires q.Ordered(s) && limit < |Filter(s, q)|
    ensures MoreReported(s, q, limit)
  {
    FilterIsExact(s, q);
    var all := Filter(s, q);
    assert all[limit] in all;
    assert limit > 0 ==> q.Precedes(all[limit - 1], all[limit]);
  }

  /** No next page: nothing that matches was left out. */
  lemma NoNextPageMeansComplete(s: seq<Order>, q: Query, limit: nat)
    requires q.Ordered(s) && !MoreReported(s, q, limit)
    ensures Page(s, q, limit) == Filter(s, q)
  {
    if limit < |Filter(s, q)| { OmissionIsReported(s, q, limit); }
  }

  /** The scan meets `o` after every order found. */
  predicate PastAll(q: Query, found: seq<Order>, o: Order) { forall m :: m in found ==> q.Precedes(m, o) }

  lemma LastDecides(q: Query, found: seq<Order>, o: Order)
    requires q.Ordered(found)
    ensures PastAll(q, found, o) <==> found == [] || q.Precedes(found[|found| - 1], o)
  {
    if found != [] { assert found[|found| - 1] in found; }
  }

  /**
   * The flag overshoots in exactly one way: nothing was left out and yet it is set just when an order from
   * the start on lies past the end bound (page short) or after the page (page exactly full).
   */
  lemma NextPageMayBeEmpty(s: seq<Order>, q: Query, limit: nat)
    requires q.Ordered(s)
    ensures MoreReported(s, q, limit) <==>
            || limit < |Filter(s, q)|
            || (|Filter(s, q)| < limit && exists o :: o in s && q.InStart(o) && !q.InEnd(o))
            || (|Filter(s, q)| == limit && exists o :: o in s && q.InStart(o) && PastAll(q, Filter(s, q), o))
  {
    if limit < |Filter(s, q)| {
      OmissionIsReported(s, q, limit);
    } else if |Filter(s, q)| == limit {
      FullPageReports(s, q, limit);
    }
  }

  lemma FullPageReports(s: seq<Order>, q: Query, limit: nat)
    requires q.Ordered(s) && |Filter(s, q)| == limit
    ensures MoreReported(s, q, limit) <==> exists o :: o in s && q.InStart(o) && PastAll(q, Filter(s, q), o)
  {
    var all := Filter(s, q);
    FilterIsExact(s, q);
    if MoreReported(s, q, limit) {
      var o :| o in s && q.InStart(o) && (all != [] ==> q.Precedes(all[|all| - 1], o));
      LastDecides(q, all, o);
    }
    forall o | o in s && q.InStart(o) && PastAll(q, all, o) ensures MoreReported(s, q, limit) {
      LastDecides(q, all, o);
    }
  }

  /** An instance: bids 9 and 5 with end 7 return 9 and report a further page, which is empty. */
  lemma EmptyNextPage()
    ensures var s, q := [Order(9, 1, 1), Order(5, 1, 1)], Query(true, 10, 7, 0);
            MoreReported(s, q, 100) && Page(s, q, 100) == Filter(s, q) == [s[0]] && Filter(s, q.(start := 9)) == []
  {
    var s, q := [Order(9, 1, 1), Order(5, 1, 1)], Query(true, 10, 7, 0);
    assert s[1..] == [s[1]] && s[1..][1..] == [];
    assert Filter(s, q) == [s[0]] + Filter(s[1..], q);
    assert Filter(s[1..], q) == [] + Filter([], q);
    assert Filter(s[1..], q.(start := 9)) == [] + Filter([], q.(start := 9));
    assert s[1] in s && q.InStart(s[1]) && !q.InEnd(s[1]);
  }
}
