/**
  The exam table of `main.py` shows fifteen rows per page: the query asks for
  `LIMIT 15 OFFSET (page - 1) * 15`, the footer shows the page count, the two
  arrow buttons are disabled at either end, and the arrows move the current
  page without letting it drop below 1.
 */
module Paging {

  /** `itens_por_pagina`. */
  const PerPage: nat := 15

  /** The OFFSET of the query for a page (pages count from 1). */
  function Offset(page: nat): (o: nat)
    requires page >= 1
    ensures o % PerPage == 0 && o / PerPage + 1 == page
  {
    (page - 1) * PerPage
  }

  /** `math.ceil(total / 15) if total > 0 else 1`. */
  function TotalPages(total: nat): (p: nat)
    ensures p >= 1
    ensures total == 0 ==> p == 1
    ensures total > 0 ==> (p - 1) * PerPage < total <= p * PerPage
  {
    if total > 0 then (total + PerPage - 1) / PerPage else 1
  }

  /** The rows a page shows: `LIMIT 15 OFFSET Offset(page)` over the filtered rows, newest first. */
  function PageRows<T>(rows: seq<T>, page: nat): (shown: seq<T>)
    requires page >= 1
    ensures |shown| <= PerPage
  {
    var from := if Offset(page) < |rows| then Offset(page) else |rows|;
    var upto := if from + PerPage < |rows| then from + PerPage else |rows|;
    rows[from..upto]
  }

  /** `btn_anterior.disabled`. */
  predicate PrevDisabled(page: int)
    ensures page >= 1 ==> (PrevDisabled(page) <==> Offset(page) == 0)
  {
    page == 1
  }

  /** `btn_proximo.disabled`. */
  predicate NextDisabled(page: int, total: nat)
    ensures page >= 1 ==> (NextDisabled(page, total) <==> Offset(page) + PerPage >= total)
  {
    page >= TotalPages(total)
  }

  /** Every row lies on exactly one page, and that page is within the page count. */
  lemma RowOnOnePage(total: nat, r: nat)
    requires r < total
    ensures var p := r / PerPage + 1;
      1 <= p <= TotalPages(total) && Offset(p) <= r < Offset(p) + PerPage
    ensures forall q: nat :: q >= 1 && Offset(q) <= r < Offset(q) + PerPage ==> q == r / PerPage + 1
  {
    forall q: nat | q >= 1 && Offset(q) <= r < Offset(q) + PerPage
      ensures q == r / PerPage + 1
    {
      assert (q - 1) * PerPage <= r < (q - 1) * PerPage + PerPage;
    }
  }

  /** The pages 1 to `n` shown one after another. */
  function Pages<T>(rows: seq<T>, n: nat): seq<T>
  {
    if n == 0 then [] else Pages(rows, n - 1) + PageRows(rows, n)
  }

  /** The first `n` pages hold the first `15 * n` rows, or all of them. */
  lemma {:induction false} PagesPrefix<T>(rows: seq<T>, n: nat)
    ensures Pages(rows, n) == rows[..if n * PerPage < |rows| then n * PerPage else |rows|]
  {
    if n > 0 {
      PagesPrefix(rows, n - 1);
      assert Offset(n) == (n - 1) * PerPage;
    }
  }

  /** Paging through every page shows every filtered row once, in order. */
  lemma PagesCoverRows<T>(rows: seq<T>)
    ensures Pages(rows, TotalPages(|rows|)) == rows
  {
    PagesPrefix(rows, TotalPages(|rows|));
  }

  /** On a page that exists, the next arrow is enabled exactly when the next page has rows to show. */
  lemma NextEnabledIffMoreRows<T>(rows: seq<T>, page: nat)
    requires page >= 1
    ensures !NextDisabled(page, |rows|) <==> PageRows(rows, page + 1) != []
  {
    assert Offset(page + 1) == page * PerPage;
  }

  /** Every page before the last is full. */
  lemma EarlierPagesFull<T>(rows: seq<T>, page: nat)
    requires 1 <= page < TotalPages(|rows|)
    ensures |PageRows(rows, page)| == PerPage
  {
    assert page * PerPage < |rows|;
  }

  /** `max(1, page + d)`: the page after pressing an arrow that moves by `d`. */
  function Stepped(page: int, d: int): (p: int)
    ensures p >= 1
    ensures page + d >= 1 ==> p == page + d
    ensures page + d < 1 ==> p == 1
  {
    if page + d >= 1 then page + d else 1
  }

  /** Pressing back and then forward returns to the page, unless back was pressed on page 1. */
  lemma BackThenForward(page: int)
    requires page >= 1
    ensures Stepped(Stepped(page, -1), 1) == (if page == 1 then 2 else page)
  {
  }

  /** Pressing back on page 1 keeps page 1, which is why that arrow is disabled there. */
  lemma BackFromFirst()
    ensures Stepped(1, -1) == 1 && PrevDisabled(1)
  {
  }

  /** The current page (`pagina_atual`). */
  class Pager {
    var page: int

    /** The page starts at 1. */
    constructor()
      ensures page == 1
    {
      page := 1;
    }

    /** `mudar_pagina(d)`: move by `d`, never below page 1. */
    method Change(d: int)
      modifies this
      ensures page == Stepped(old(page), d)
      ensures page >= 1
    {
      page := page + d;
      if page < 1 {
        page := 1;
      }
    }

    /** Filtering or clearing the filters goes back to page 1. */
    method Reset()
      modifies this
      ensures page == 1
    {
      page := 1;
    }

    /** The OFFSET the table query uses for the current page. */
    method QueryOffset() returns (offset: int)
      requires page >= 1
      ensures offset == Offset(page) && offset >= 0
    {
      offset := (page - 1) * PerPage;
    }
  }
}
