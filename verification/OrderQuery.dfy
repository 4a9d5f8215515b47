/** Paged iteration over one side of the book. */
module OrderQuery {
  import opened MoveTypes
  import opened BigVector

  const BID_MAX_ORDER_ID: u128 := 0x8000_0000_0000_0000_0000_0000_0000_0000
  const ASK_MIN_ORDER_ID: u128 := 0x8000_0000_0000_0000_0000_0000_0000_0000

  datatype OrderPage = OrderPage(orders: seq<Order>, hasNextPage: bool)

  /** What a page asks for, with the defaults filled in. */
  datatype Query = Query(bids: bool, start: u128, end: u128, minExpire: u64) {
    predicate InStart(o: Order) { if bids then o.id < start else start <= o.id }
    predicate InEnd(o: Order) { if bids then end <= o.id else o.id <= end }
    predicate Matches(o: Order) { InStart(o) && InEnd(o) && minExpire <= o.expireTimestamp }

    /** The scan meets `a` before `b`. */
    predicate Precedes(a: Order, b: Order) { if bids then b.id < a.id else a.id < b.id }

    predicate Ordered(s: seq<Order>) { forall i, j :: 0 <= i < j < |s| ==> Precedes(s[i], s[j]) }
  }

  function QueryOf(start: Option<u128>, end: Option<u128>, minExpire: Option<u64>, bids: bool): Query {
    Query(bids,
      if start.Some? then start.value else if bids then BID_MAX_ORDER_ID else ASK_MIN_ORDER_ID,
      if end.Some? then end.value else if bids then 0 else MAX_U128,
      if minExpire.Some? then minExpire.value else 0)
  }

  /** A side in the order the scan visits it: bids from the highest id, asks from the lowest. */
  function Scan(orders: seq<Order>, bids: bool): (s: seq<Order>)
    ensures |s| == |orders|
    ensures forall i :: 0 <= i < |s| ==> s[i] == orders[if bids then |orders| - 1 - i else i]
  {
    if bids then seq(|orders|, i requires 0 <= i < |orders| => orders[|orders| - 1 - i]) else orders
  }

  function Filter(s: seq<Order>, q: Query): seq<Order> {
    if s == [] then [] else (if q.Matches(s[0]) then [s[0]] else []) + Filter(s[1..], q)
  }

  /** The first `limit` matching orders in scan order. */
  function Page(s: seq<Order>, q: Query, limit: nat): seq<Order> {
    var all := Filter(s, q);
    if |all| <= limit then all else all[..limit]
  }

  /**
   * When the code reports another page: some order at or after the start lies past the last one returned
   * if the page is full, or past the end bound if it is not. Whether that order matches does not matter.
   */
  ghost predicate MoreReported(s: seq<Order>, q: Query, limit: nat) {
    var page := Page(s, q, limit);
    exists o :: o in s && q.InStart(o) &&
      if |page| < limit then !q.InEnd(o) else page != [] ==> q.Precedes(page[|page| - 1], o)
  }

  // ---- facts about filtering

  lemma {:induction false} FilterConcat(a: seq<Order>, b: seq<Order>, q: Query)
    ensures Filter(a + b, q) == Filter(a, q) + Filter(b, q)
  {
    if a == [] {
      assert a + b == b;
    } else {
      assert (a + b)[1..] == a[1..] + b;
      FilterConcat(a[1..], b, q);
    }
  }

  lemma {:induction false} FilterIsExact(s: seq<Order>, q: Query)
    ensures forall o :: o in Filter(s, q) <==> o in s && q.Matches(o)
    ensures q.Ordered(s) ==> q.Ordered(Filter(s, q))
  {
    if s != [] {
      FilterIsExact(s[1..], q);
      if q.Ordered(s) {
        assert forall o :: o in s[1..] ==> q.Precedes(s[0], o);
      }
    }
  }

  lemma {:induction false} OrderedSeqsAreDeterminedByElements(a: seq<Order>, b: seq<Order>, q: Query)
    requires q.Ordered(a) && q.Ordered(b)
    requires forall o :: o in a <==> o in b
    ensures a == b
  {
    if a != [] { assert a[0] in a; }
    if b != [] { assert b[0] in b; }
    if a != [] {
      assert a[0] in b && b[0] in a;
      forall o ensures o in a[1..] <==> o in b[1..] {
        assert o in a[1..] <==> o in a && o != a[0];
        assert o in b[1..] <==> o in b && o != b[0];
      }
      OrderedSeqsAreDeterminedByElements(a[1..], b[1..], q);
    }
  }

  lemma NothingMatches(s: seq<Order>, q: Query)
    requires forall o :: o in s ==> !q.Matches(o)
    ensures Filter(s, q) == []
  {
    FilterIsExact(s, q);
    if Filter(s, q) != [] { assert Filter(s, q)[0] in Filter(s, q); }
  }

  // ---- the cursor loop

  /** Position of a cursor in scan order; one past the end for `Null`. */
  ghost function Position(side: Side, c: Cursor, bids: bool): nat
    requires c == Null || side.Points(c)
  {
    if c == Null then |side.Orders()|
    else
      side.CursorReadsRank(c);
      if bids then |side.Orders()| - 1 - side.Rank(c) else side.Rank(c)
  }

  /** From position `p` on, and not before, the orders are on the right side of the start bound. */
  ghost predicate StartsAt(s: seq<Order>, q: Query, p: nat) {
    && p <= |s|
    && (forall k :: 0 <= k < p ==> !q.InStart(s[k]))
    && (forall k :: p <= k < |s| ==> q.InStart(s[k]))
  }

  method StartCursor(side: Side, q: Query) returns (c: Cursor)
    requires side.Valid()
    ensures c == Null || side.Points(c)
    ensures StartsAt(Scan(side.Orders(), q.bids), q, Position(side, c, q.bids))
  {
    if q.bids {
      c := side.SliceBefore(q.start);
    } else {
      c := side.SliceFollowing(q.start);
    }
    if c != Null { side.CursorReadsRank(c); }
  }

  method Advance(side: Side, c: Cursor, bids: bool) returns (c': Cursor)
    requires side.Linked() && side.Points(c)
    ensures c' == Null || side.Points(c')
    ensures Position(side, c', bids) == Position(side, c, bids) + 1
  {
    side.CursorReadsRank(c);
    side.NextSliceSteps(c);
    side.PrevSliceSteps(c);
    c' := if bids then side.PrevSlice(c) else side.NextSlice(c);
  }

  lemma ScanIsOrdered(side: Side, q: Query)
    requires side.Linked()
    ensures q.Ordered(Scan(side.Orders(), q.bids))
  {
  }

  lemma FilterTake(s: seq<Order>, q: Query, p: nat)
    requires p < |s|
    ensures Filter(s[..p + 1], q) == Filter(s[..p], q) + if q.Matches(s[p]) then [s[p]] else []
  {
    assert s[..p + 1] == s[..p] + [s[p]];
    FilterConcat(s[..p], [s[p]], q);
    assert Filter([s[p]], q) == (if q.Matches(s[p]) then [s[p]] else []) + Filter([], q);
  }

  /** Where the scan stands after stepping past `p` positions without meeting the end bound. */
  ghost predicate Scanned(s: seq<Order>, q: Query, limit: nat, first: nat, p: nat, found: seq<Order>) {
    && StartsAt(s, q, first) && first <= p <= |s| && found == Filter(s[..p], q) && |found| <= limit
    && (forall k :: first <= k < p ==> q.InEnd(s[k]))
    && (|found| == limit ==> if limit == 0 then p == first else p > 0 && found[limit - 1] == s[p - 1])
  }

  lemma ScanBegins(s: seq<Order>, q: Query, limit: nat, first: nat)
    requires StartsAt(s, q, first)
    ensures Scanned(s, q, limit, first, first, [])
  {
    NothingMatches(s[..first], q);
  }

  lemma ScanSteps(s: seq<Order>, q: Query, limit: nat, first: nat, p: nat, found: seq<Order>)
    requires Scanned(s, q, limit, first, p, found) && p < |s| && |found| < limit && q.InEnd(s[p])
    ensures Scanned(s, q, limit, first, p + 1, found + if q.minExpire <= s[p].expireTimestamp then [s[p]] else [])
  {
    FilterTake(s, q, p);
  }

  /** The order meets every bound that is given; without a start it must have an id of its side. */
  predicate Asked(
    startOrderId: Option<u128>, endOrderId: Option<u128>, minExpireTimestamp: Option<u64>, bids: bool, o: Order)
  {
    && (startOrderId.None? ==> (o.id < 0x8000_0000_0000_0000_0000_0000_0000_0000 <==> bids))
    && (startOrderId.Some? ==> if bids then o.id < startOrderId.value else startOrderId.value <= o.id)
    && (endOrderId.Some? ==> if bids then endOrderId.value <= o.id else o.id <= endOrderId.value)
    && (minExpireTimestamp.Some? ==> minExpireTimestamp.value <= o.expireTimestamp)
  }

  /** Bids descend and asks ascend. */
  predicate MetBefore(a: Order, b: Order, bids: bool) { if bids then b.id < a.id else a.id < b.id }

  /** A page of the orders asked for: the first ones in scan order, and all of them if the page is not full. */
  ghost predicate IsPageOf(page: seq<Order>, side: seq<Order>, asked: Order -> bool, limit: nat, bids: bool) {
    && |page| <= limit
    && (forall i, j :: 0 <= i < j < |page| ==> MetBefore(page[i], page[j], bids))
    && (forall o :: o in page ==> o in side && asked(o))
    && (forall o, last :: o in side && asked(o) && o !in page && last in page ==> MetBefore(last, o, bids))
    && (forall o :: o in side && asked(o) && o !in page ==> |page| == limit)
  }

  lemma PageIsOfTheOrdersAsked(
    side: seq<Order>, start: Option<u128>, end: Option<u128>, minExpire: Option<u64>, limit: nat, bids: bool)
    requires QueryOf(start, end, minExpire, bids).Ordered(Scan(side, bids))
    ensures IsPageOf(Page(Scan(side, bids), QueryOf(start, end, minExpire, bids), limit), side,
              o => Asked(start, end, minExpire, bids, o), limit, bids)
  {
    var q, s := QueryOf(start, end, minExpire, bids), Scan(side, bids);
    var all, page := Filter(s, q), Page(s, q, limit);
    FilterIsExact(s, q);
    ScanKeepsOrders(side, bids);
    forall o ensures q.Matches(o) <==> Asked(start, end, minExpire, bids, o) {
      MatchesExactlyWhatIsAsked(start, end, minExpire, bids, o);
    }
    forall o, last | o in all && o !in page && last in page ensures q.Precedes(last, o) {
      var i, j :| 0 <= i < |all| && all[i] == o && 0 <= j < |page| && page[j] == last;
      assert all[j] == last && i >= |page|;
    }
  }

  lemma ScanKeepsOrders(side: seq<Order>, bids: bool)
    ensures forall o :: o in Scan(side, bids) <==> o in side
  {
    forall o | o in side ensures o in Scan(side, bids) {
      var i :| 0 <= i < |side| && side[i] == o;
      assert Scan(side, bids)[if bids then |side| - 1 - i else i] == o;
    }
  }

  lemma MatchesExactlyWhatIsAsked(
    start: Option<u128>, end: Option<u128>, minExpire: Option<u64>, bids: bool, o: Order)
    ensures QueryOf(start, end, minExpire, bids).Matches(o) <==> Asked(start, end, minExpire, bids, o)
  {
  }

  method IterOrders(
    bidSide: Side, askSide: Side, startOrderId: Option<u128>, endOrderId: Option<u128>,
    minExpireTimestamp: Option<u64>, limit: u64, bids: bool) returns (page: OrderPage)
    requires bidSide.Valid() && askSide.Valid()
    ensures var q := QueryOf(startOrderId, endOrderId, minExpireTimestamp, bids);
            var s := Scan((if bids then bidSide else askSide).Orders(), bids);
            && page.orders == Page(s, q, limit)
            && (page.hasNextPage <==> MoreReported(s, q, limit))
    ensures IsPageOf(page.orders, (if bids then bidSide else askSide).Orders(),
              o => Asked(startOrderId, endOrderId, minExpireTimestamp, bids, o), limit, bids)
  {
    var start := if startOrderId.Some? then startOrderId.value else if bids then BID_MAX_ORDER_ID else ASK_MIN_ORDER_ID;
    var end := if endOrderId.Some? then endOrderId.value else if bids then 0 else MAX_U128;
    var minExpire := if minExpireTimestamp.Some? then minExpireTimestamp.value else 0;
    var side := if bids then bidSide else askSide;
    page := Collect(side, Query(bids, start, end, minExpire), limit);
    ScanIsOrdered(side, Query(bids, start, end, minExpire));
    PageIsOfTheOrdersAsked(side.Orders(), startOrderId, endOrderId, minExpireTimestamp, limit, bids);
  }

  method Collect(side: Side, q: Query, limit: u64) returns (page: OrderPage)
    requires side.Valid()
    ensures page.orders == Page(Scan(side.Orders(), q.bids), q, limit)
    ensures page.hasNextPage <==> MoreReported(Scan(side.Orders(), q.bids), q, limit)
  {
    var start := StartCursor(side, q);
    page := CollectFrom(side, q, limit, start);
  }

  /** Steps from the start cursor on, keeping what matches. */
  method CollectFrom(side: Side, q: Query, limit: u64, start: Cursor) returns (page: OrderPage)
    requires side.Linked() && (start == Null || side.Points(start))
    requires StartsAt(Scan(side.Orders(), q.bids), q, Position(side, start, q.bids))
    ensures page.orders == Page(Scan(side.Orders(), q.bids), q, limit)
    ensures page.hasNextPage <==> MoreReported(Scan(side.Orders(), q.bids), q, limit)
  {
    ghost var s := Scan(side.Orders(), q.bids);
    ScanIsOrdered(side, q);
    var orders: seq<Order> := [];
    var c := start;
    ghost var first := Position(side, c, q.bids);
    ScanBegins(s, q, limit, first);
    while c != Null && |orders| < limit
      invariant c == Null || side.Points(c)
      invariant Scanned(s, q, limit, first, Position(side, c, q.bids), orders)
      decreases |s| - Position(side, c, q.bids)
    {
      CursorIsInScan(side, c, q.bids);
      var order := side.Get(c);
      if q.bids && order.id < q.end { break; }
      if !q.bids && order.id > q.end { break; }
      ScanSteps(s, q, limit, first, Position(side, c, q.bids), orders);
      if order.expireTimestamp >= q.minExpire {
        orders := orders + [order];
      }
      c := Advance(side, c, q.bids);
    }
    if c != Null { CursorIsInScan(side, c, q.bids); }
    ScanStopsRight(s, q, limit, first, Position(side, c, q.bids), orders);
    page := OrderPage(orders, c != Null);
  }

  lemma CursorIsInScan(side: Side, c: Cursor, bids: bool)
    requires side.Points(c)
    ensures Position(side, c, bids) < |side.Orders()|
    ensures Scan(side.Orders(), bids)[Position(side, c, bids)] == side.Get(c)
  {
    side.CursorReadsRank(c);
    var orders, p := side.Orders(), Position(side, c, bids);
    assert Scan(orders, bids)[p] == orders[if bids then |orders| - 1 - p else p];
  }

  /** The loop may stop at the end of the side, at a full page, or at the first order past the end bound. */
  lemma ScanStopsRight(s: seq<Order>, q: Query, limit: nat, first: nat, p: nat, found: seq<Order>)
    requires q.Ordered(s) && Scanned(s, q, limit, first, p, found)
    requires p == |s| || |found| == limit || !q.InEnd(s[p])
    ensures Page(s, q, limit) == found
    ensures MoreReported(s, q, limit) <==> p < |s|
  {
    assert s == s[..p] + s[p..];
    FilterConcat(s[..p], s[p..], q);
    if |found| < limit {
      forall o | o in s[p..] ensures !q.Matches(o) {
        assert o == s[p] || q.Precedes(s[p], o);
      }
      NothingMatches(s[p..], q);
    }
    assert Page(s, q, limit) == found;
    if p < |s| {
      assert s[p] in s && q.InStart(s[p]);
    } else {
      forall o | o in s && q.InStart(o)
        ensures if |found| < limit then q.InEnd(o) else found != [] && !q.Precedes(found[|found| - 1], o)
      {
      }
    }
  }
}
