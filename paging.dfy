/** Page requests and pages, and the rule that decides when the total of a
    page has to be fetched with a count query. */
module Paging {

  /** A page size is at least one row. */
  type PageSize = n: nat | 1 <= n witness 1

  /** A page request: the zero-based page number and the page size. */
  datatype Pageable = PageRequest(pageNumber: nat, pageSize: PageSize)
  {
    /** Index of the first row of the page. */
    function Offset(): nat
    {
      pageNumber * pageSize
    }
  }

  /** The content of one page, the request it answers, and the total number
      of rows over all pages. */
  datatype Page<T> = Page(content: seq<T>, pageable: Pageable, total: nat)

  /** Whether the content alone cannot pin down the total. On the first page a
      page shorter than the page size is the whole result; on a later page a
      non-empty page shorter than the page size is the last one. Otherwise
      (a full page, or an empty later page) the count query has to run. */
  predicate CountQueryNeeded<T>(content: seq<T>, pageable: Pageable)
  {
    if pageable.Offset() == 0 then |content| >= pageable.pageSize
    else |content| == 0 || |content| >= pageable.pageSize
  }

  /** Builds the page, calling the count supplier only when the content does
      not determine the total. */
  function GetPage<T>(content: seq<T>, pageable: Pageable, totalSupplier: () -> nat): (p: Page<T>)
    ensures p.content == content && p.pageable == pageable
    ensures CountQueryNeeded(content, pageable) ==> p.total == totalSupplier()
    ensures !CountQueryNeeded(content, pageable) ==>
              |content| < pageable.pageSize && p.total == pageable.Offset() + |content|
  {
    if pageable.Offset() == 0 then
      if pageable.pageSize > |content| then Page(content, pageable, |content|)
      else Page(content, pageable, totalSupplier())
    else if |content| != 0 && pageable.pageSize > |content| then
      Page(content, pageable, pageable.Offset() + |content|)
    else
      Page(content, pageable, totalSupplier())
  }

  /** The page content a store returns for `offset o limit n` over `all` rows
      has this many rows; `MemberRepository.OffsetLimitIsPage` proves that the
      slice `Sql.OffsetLimit` has exactly this length. */
  predicate IsPageOf<T>(content: seq<T>, pageable: Pageable, all: nat)
  {
    |content| == if pageable.Offset() >= all then 0
                 else if all - pageable.Offset() < pageable.pageSize then all - pageable.Offset()
                 else pageable.pageSize
  }

  /** Count elision is sound: whenever the total is derived from the content,
      it is the number of rows over all pages. */
  lemma CountElisionSound<T>(content: seq<T>, pageable: Pageable, all: nat)
    requires IsPageOf(content, pageable, all)
    requires !CountQueryNeeded(content, pageable)
    ensures pageable.Offset() + |content| == all
  {
  }

  /** Hence the total of the page is always the count query's result, whether
      or not the query was run. */
  lemma GetPageTotalExact<T>(content: seq<T>, pageable: Pageable, totalSupplier: () -> nat)
    requires IsPageOf(content, pageable, totalSupplier())
    ensures GetPage(content, pageable, totalSupplier).total == totalSupplier()
  {
  }
}
