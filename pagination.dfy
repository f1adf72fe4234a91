/**
 * GET /api/tickets/page/:page/limit/:limit: one page of the newest-first ticket
 * listing with its pagination block. The route parameters go through
 * `parseInt(...) || default`; None below stands for a parse that gives NaN.
 */
module Pagination {
  import opened Wrappers
  import opened Responses
  import opened Tables
  import opened Tickets

  const DefaultPage := 1
  const DefaultLimit := 10

  /** `parseInt(x) || fallback`: NaN and 0 are both falsy. */
  function OrDefault(parsed: Option<int>, fallback: int): (n: int)
    ensures n == fallback <==> parsed.None? || parsed.value == 0 || parsed.value == fallback
    ensures fallback != 0 ==> n != 0
  {
    if parsed.None? || parsed.value == 0 then fallback else parsed.value
  }

  /** `Math.ceil(total / limit)` for a positive limit. */
  function CeilDiv(total: nat, limit: int): (r: nat)
    requires limit > 0
    ensures total <= r * limit < total + limit
  {
    CeilDivBounds(total, limit);
    (total + limit - 1) / limit
  }

  lemma CeilDivBounds(total: nat, limit: int)
    requires limit > 0
    ensures total <= ((total + limit - 1) / limit) * limit < total + limit
  {
    var q := (total + limit - 1) / limit;
    var m := (total + limit - 1) % limit;
    assert total + limit - 1 == q * limit + m;
  }

  /** The `pagination` object of the response. */
  datatype PageInfo = PageInfo(currentPage: int, totalPages: nat, totalTickets: nat, hasNext: bool, hasPrev: bool)

  datatype Page<T> = Page(items: seq<T>, info: PageInfo)

  /** `LIMIT limit OFFSET offset` over a listing, for non-negative bounds. */
  function Window<T>(newest: seq<T>, offset: nat, limit: nat): (items: seq<T>)
    ensures |items| <= limit
    ensures forall i :: 0 <= i < |items| ==> offset + i < |newest| && items[i] == newest[offset + i]
    ensures offset + limit <= |newest| ==> |items| == limit
    ensures items == [] <==> offset >= |newest| || limit == 0
  {
    if offset >= |newest| then [] else newest[offset..if offset + limit <= |newest| then offset + limit else |newest|]
  }

  /** For nonzero page and limit, the database refuses the statement exactly when one of them is negative. */
  lemma OffsetSign(page: int, limit: int)
    requires page != 0 && limit != 0
    ensures (limit < 0 || (page - 1) * limit < 0) <==> (page < 0 || limit < 0)
    ensures page >= 1 && limit >= 1 ==> (page - 1) * limit >= 0
  {
    if limit > 0 {
      if page >= 1 {
        MonotoneProduct(0, page - 1, limit);
      } else {
        MonotoneProduct(page - 1, -1, limit);
      }
    }
  }

  /**
   * The page of `newest` the parameters select. A negative LIMIT or OFFSET
   * is refused by the database, which the route answers with 500.
   */
  function Paginate<T>(newest: seq<T>, pageParam: Option<int>, limitParam: Option<int>): (r: Result<Page<T>>)
    ensures var page := OrDefault(pageParam, DefaultPage);
            var limit := OrDefault(limitParam, DefaultLimit);
            r.Err? <==> page < 0 || limit < 0
    ensures r.Err? ==> r.reason == StoreRejected
    ensures r.Ok? ==>
              var page := OrDefault(pageParam, DefaultPage);
              var limit := OrDefault(limitParam, DefaultLimit);
              && page >= 1 && limit >= 1
              && r.value.items == Window(newest, (page - 1) * limit, limit)
              && r.value.info.currentPage == page
              && r.value.info.totalTickets == |newest|
              && |newest| <= r.value.info.totalPages * limit < |newest| + limit
              && (r.value.info.hasNext <==> page < r.value.info.totalPages)
              && (r.value.info.hasPrev <==> page > 1)
  {
    var page := OrDefault(pageParam, DefaultPage);
    var limit := OrDefault(limitParam, DefaultLimit);
    var offset := (page - 1) * limit;
    OffsetSign(page, limit);
    if limit < 0 || offset < 0 then
      Err(StoreRejected)
    else
      var total := |newest|;
      var totalPages := CeilDiv(total, limit);
      Ok(Page(Window(newest, offset, limit), PageInfo(page, totalPages, total, page < totalPages, page > 1)))
  }

  /**
   * The route pages `SELECT * FROM ticket ORDER BY id DESC`: every item of a page is a ticket of the
   * table, the items keep newest-first order, and the block counts every ticket of the table.
   */
  lemma TicketPage(tickets: seq<Row<Ticket>>, pageParam: Option<int>, limitParam: Option<int>)
    requires Ascending(tickets) && Paginate(Newest(tickets), pageParam, limitParam).Ok?
    ensures var page := Paginate(Newest(tickets), pageParam, limitParam).value;
            && page.info.totalTickets == |tickets|
            && (forall i :: 0 <= i < |page.items| ==> page.items[i] in multiset(tickets))
            && (forall i, j :: 0 <= i < j < |page.items| ==> page.items[i].id > page.items[j].id)
  {
    var newest := Newest(tickets);
    var page, limit := OrDefault(pageParam, DefaultPage), OrDefault(limitParam, DefaultLimit);
    OffsetSign(page, limit);
    WindowOfTickets(newest, (page - 1) * limit, limit);
  }

  lemma WindowOfTickets(newest: seq<Row<Ticket>>, offset: nat, limit: nat)
    requires forall i, j :: 0 <= i < j < |newest| ==> newest[i].id > newest[j].id
    ensures var items := Window(newest, offset, limit);
            && (forall i :: 0 <= i < |items| ==> items[i] in multiset(newest))
            && (forall i, j :: 0 <= i < j < |items| ==> items[i].id > items[j].id)
  {
    var items := Window(newest, offset, limit);
    forall i | 0 <= i < |items| ensures items[i] in multiset(newest) {
      assert items[i] == newest[offset + i];
    }
    forall i, j | 0 <= i < j < |items| ensures items[i].id > items[j].id {
      assert items[i] == newest[offset + i] && items[j] == newest[offset + j];
    }
  }

  /** `hasNext` holds exactly when some ticket lies beyond the current page. */
  lemma HasNextIff<T>(newest: seq<T>, pageParam: Option<int>, limitParam: Option<int>)
    requires Paginate(newest, pageParam, limitParam).Ok?
    ensures var page := OrDefault(pageParam, DefaultPage);
            var limit := OrDefault(limitParam, DefaultLimit);
            Paginate(newest, pageParam, limitParam).value.info.hasNext <==> page * limit < |newest|
  {
    var page := OrDefault(pageParam, DefaultPage);
    var limit := OrDefault(limitParam, DefaultLimit);
    var totalPages := CeilDiv(|newest|, limit);
    if page < totalPages {
      MonotoneProduct(page + 1, totalPages, limit);
    } else {
      MonotoneProduct(totalPages, page, limit);
    }
  }

  /** A page has tickets exactly when it is one of the first `totalPages` pages. */
  lemma NonEmptyIff<T>(newest: seq<T>, pageParam: Option<int>, limitParam: Option<int>)
    requires Paginate(newest, pageParam, limitParam).Ok?
    ensures var p := Paginate(newest, pageParam, limitParam).value;
            p.items != [] <==> p.info.currentPage <= p.info.totalPages
  {
    var page := OrDefault(pageParam, DefaultPage);
    var limit := OrDefault(limitParam, DefaultLimit);
    var totalPages := CeilDiv(|newest|, limit);
    if page <= totalPages {
      MonotoneProduct(page, totalPages, limit);
    } else {
      MonotoneProduct(totalPages + 1, page, limit);
    }
  }

  lemma MonotoneProduct(a: int, b: int, c: int)
    requires a <= b && c > 0
    ensures a * c <= b * c
  {
  }

  /** Every ticket of the listing is on exactly the page its position says, at the place its position says. */
  lemma EveryTicketOnItsPage<T>(newest: seq<T>, limit: int, k: nat)
    requires limit >= 1 && k < |newest|
    ensures var p := Paginate(newest, Some(k / limit + 1), Some(limit));
            p.Ok? && k % limit < |p.value.items| && p.value.items[k % limit] == newest[k]
  {
    var page := k / limit + 1;
    assert (page - 1) * limit + k % limit == k;
  }
}
