/** Paging a fixed, ordered result. */
module Pages {
  import opened Widths

  function ClampPerPage(perPage: nat): (r: nat)
    ensures 1 <= r <= 200
  {
    if perPage < 1 then 1 else if perPage > 200 then 200 else perPage
  }

  function PageNumber(page: nat): (r: nat)
    ensures r >= 1
  {
    if page < 1 then 1 else page
  }

  function Offset(page: nat, per: nat): int { (PageNumber(page) - 1) * per }

  /** `LIMIT limit OFFSET offset` over the ordered rows. */
  function Limited<T>(rows: seq<T>, limit: nat, offset: nat): seq<T> {
    if offset >= |rows| then [] else if offset + limit >= |rows| then rows[offset..] else rows[offset..offset + limit]
  }

  function PageOf<T>(rows: seq<T>, page: nat, perPage: nat): seq<T> {
    var per := ClampPerPage(perPage);
    var offset := Offset(page, per);
    if offset < 0 then [] else Limited(rows, per, offset)
  }

  function TotalPages(total: nat, perPage: nat): nat {
    var per := ClampPerPage(perPage);
    (total + per - 1) / per
  }

  /** Pages 1 to `k`, one after the other. */
  function FirstPages<T>(rows: seq<T>, perPage: nat, k: nat): seq<T> {
    if k == 0 then [] else FirstPages(rows, perPage, k - 1) + PageOf(rows, k, perPage)
  }

  function Gap(a: nat, b: nat): nat { if a < b then b - a else a - b }

  /** The page size used is the size from 1 to 200 nearest to the one asked for. */
  lemma NearestPageSize(perPage: nat, other: nat)
    requires 1 <= other <= 200
    ensures Gap(ClampPerPage(perPage), perPage) <= Gap(other, perPage)
    ensures Gap(ClampPerPage(perPage), perPage) == Gap(other, perPage) ==> other == ClampPerPage(perPage)
  {
  }

  lemma LimitedHolds<T>(rows: seq<T>, limit: nat, offset: nat, i: nat)
    ensures i < |Limited(rows, limit, offset)| <==> i < limit && offset + i < |rows|
    ensures i < |Limited(rows, limit, offset)| ==>
              offset + i < |rows| && Limited(rows, limit, offset)[i] == rows[offset + i]
  {
  }

  lemma PageIsLimited<T>(rows: seq<T>, page: nat, per: nat, offset: nat)
    requires 1 <= page && 1 <= per <= 200 && offset == (page - 1) * per
    ensures PageOf(rows, page, per) == Limited(rows, per, offset)
  {
    assert Offset(page, per) == offset;
  }

  /** Page `page` of a size that is kept holds the rows from `(page - 1) * per` on, and page zero is page one. */
  lemma PageHolds<T>(rows: seq<T>, page: nat, per: nat, offset: nat, i: nat)
    requires 1 <= page && 1 <= per <= 200 && offset == (page - 1) * per
    ensures i < |PageOf(rows, page, per)| <==> i < per && offset + i < |rows|
    ensures i < |PageOf(rows, page, per)| ==> offset + i < |rows| && PageOf(rows, page, per)[i] == rows[offset + i]
    ensures PageOf(rows, 0, per) == PageOf(rows, 1, per)
  {
    PageIsLimited(rows, page, per, offset);
    LimitedHolds(rows, per, offset, i);
  }

  lemma OffsetIs(page: nat, perPage: nat)
    requires page >= 1
    ensures Offset(page, ClampPerPage(perPage)) == (page - 1) * ClampPerPage(perPage) >= 0
    ensures page * ClampPerPage(perPage) == (page - 1) * ClampPerPage(perPage) + ClampPerPage(perPage)
  {
  }

  /** The offset of any 32-bit request fits a signed 64-bit integer. */
  lemma OffsetFits(page: nat, perPage: nat)
    requires page < U32 && perPage < U32
    ensures 0 <= Offset(page, ClampPerPage(perPage)) < 0x8000_0000_0000_0000
  {
    var per, p := ClampPerPage(perPage), PageNumber(page) - 1;
    assert 0 <= p * per <= p * 200;
  }

  function Upto<T>(rows: seq<T>, n: int): seq<T> { if n <= 0 then [] else if n >= |rows| then rows else rows[..n] }

  lemma UptoStep<T>(rows: seq<T>, offset: nat, per: nat)
    ensures Upto(rows, offset) + Limited(rows, per, offset) == Upto(rows, offset + per)
  {
  }

  lemma {:induction false} PagesArePrefixes<T>(rows: seq<T>, perPage: nat, k: nat)
    ensures FirstPages(rows, perPage, k) == Upto(rows, k * ClampPerPage(perPage))
  {
    if k > 0 {
      PagesArePrefixes(rows, perPage, k - 1);
      OffsetIs(k, perPage);
      UptoStep(rows, (k - 1) * ClampPerPage(perPage), ClampPerPage(perPage));
    }
  }

  lemma CeilingDivision(total: nat, per: nat)
    requires per >= 1
    ensures var q := (total + per - 1) / per; total <= q * per < total + per
  {
    var q, r := (total + per - 1) / per, (total + per - 1) % per;
    assert total + per - 1 == q * per + r;
  }

  /** Pages 1 to the last, in order, are the result: every row exactly once. */
  lemma PagesPartition<T>(rows: seq<T>, perPage: nat)
    ensures FirstPages(rows, perPage, TotalPages(|rows|, perPage)) == rows
  {
    PagesArePrefixes(rows, perPage, TotalPages(|rows|, perPage));
    CeilingDivision(|rows|, ClampPerPage(perPage));
  }

  lemma Multiples(a: nat, b: nat, per: nat)
    requires a <= b
    ensures a * per <= b * per
  {
  }

  lemma PageArithmetic(page: nat, last: nat, per: nat, total: nat)
    requires page >= 1 && total <= last * per < total + per
    ensures (page - 1) * per >= total <==> page > last
    ensures page < last ==> (page - 1) * per + per <= total
  {
    assert page * per == (page - 1) * per + per;
    if page > last {
      Multiples(last, page - 1, per);
    } else if page == last {
      assert page * per == last * per;
    } else {
      Multiples(page + 1, last, per);
      assert (page + 1) * per == page * per + per;
    }
  }

  /** A page is empty exactly beyond the last one, and full before it. */
  lemma PageSizes<T>(rows: seq<T>, page: nat, perPage: nat)
    ensures PageOf(rows, page, perPage) == [] <==> PageNumber(page) > TotalPages(|rows|, perPage)
    ensures PageNumber(page) < TotalPages(|rows|, perPage) ==> |PageOf(rows, page, perPage)| == ClampPerPage(perPage)
  {
    var per := ClampPerPage(perPage);
    CeilingDivision(|rows|, per);
    OffsetIs(PageNumber(page), perPage);
    PageArithmetic(PageNumber(page), TotalPages(|rows|, perPage), per, |rows|);
  }
}
