/**
 * The blog pagination bar: a link per page from 1 to the page count, the current one marked, and
 * previous and next links shown only where there is such a page.
 */
module Pagination {
  import opened Text

  datatype Option<T> = None | Some(value: T)

  /** `${n}` for an integer. */
  function IntToString(n: int): string {
    if n < 0 then "-" + NatToString(-n) else NatToString(n)
  }

  /** `getPageLink`: page 1 is the base path itself, every other page lives under `/page/`. */
  function PageLink(basePath: string, page: int): (r: string)
    ensures page == 1 ==> r == basePath
    ensures page != 1 ==>
      |r| > |basePath| + 6 && r[..|basePath|] == basePath
      && r[|basePath|..|basePath| + 6] == "/page/" && r[|basePath| + 6..] == IntToString(page)
  {
    if page == 1 then basePath
    else
      var r := basePath + "/page/" + IntToString(page);
      assert r[..|basePath|] == basePath && r[|basePath|..|basePath| + 6] == "/page/";
      r
  }

  /** Different integers render differently: the sign shows in the first character. */
  lemma IntToStringInjective(m: int, n: int)
    ensures IntToString(m) == IntToString(n) ==> m == n
  {
    if m < 0 && n < 0 {
      if IntToString(m) == IntToString(n) {
        assert IntToString(m)[1..] == NatToString(-m) && IntToString(n)[1..] == NatToString(-n);
        NatToStringInjective(-m, -n);
      }
    } else if m >= 0 && n >= 0 {
      if IntToString(m) == IntToString(n) {
        NatToStringInjective(m, n);
      }
    } else if m < 0 {
      assert IntToString(m)[0] == '-' && IsDigit(IntToString(n)[0]);
    } else {
      assert IntToString(n)[0] == '-' && IsDigit(IntToString(m)[0]);
    }
  }

  /** Different pages link to different places. */
  lemma PageLinkInjective(basePath: string, p: int, q: int)
    requires PageLink(basePath, p) == PageLink(basePath, q)
    ensures p == q
  {
    if p != 1 && q != 1 {
      IntToStringInjective(p, q);
    }
  }

  /** `Array.from({ length: totalPages }, (_, i) => i + 1)`: a negative length counts as zero. */
  function Pages(totalPages: int): (r: seq<int>)
    ensures |r| == if totalPages < 0 then 0 else totalPages
    ensures forall i :: 0 <= i < |r| ==> r[i] == i + 1
  {
    seq(if totalPages < 0 then 0 else totalPages, i => i + 1)
  }

  /** One numbered link: its page, its target and whether it carries `aria-current="page"`. */
  datatype PageItem = PageItem(page: int, href: string, current: bool)

  /** What the bar shows: the optional previous link, the numbered links, the optional next link. */
  datatype Bar = Bar(previous: Option<string>, items: seq<PageItem>, next: Option<string>)

  function Render(currentPage: int, totalPages: int, basePath: string): (r: Bar)
    ensures r.previous.Some? <==> currentPage > 1
    ensures r.previous.Some? ==> r.previous.value == PageLink(basePath, currentPage - 1)
    ensures r.next.Some? <==> currentPage < totalPages
    ensures r.next.Some? ==> r.next.value == PageLink(basePath, currentPage + 1)
    ensures |r.items| == |Pages(totalPages)|
    ensures forall i :: 0 <= i < |r.items| ==>
      r.items[i] == PageItem(i + 1, PageLink(basePath, i + 1), i + 1 == currentPage)
  {
    var pages := Pages(totalPages);
    Bar(if currentPage > 1 then Some(PageLink(basePath, currentPage - 1)) else None,
        seq(|pages|, i requires 0 <= i < |pages| => PageItem(pages[i], PageLink(basePath, pages[i]), pages[i] == currentPage)),
        if currentPage < totalPages then Some(PageLink(basePath, currentPage + 1)) else None)
  }

  /** Inside the page range exactly one link is marked current, the current page's; outside it none is. */
  lemma OneCurrent(currentPage: int, totalPages: int, basePath: string)
    ensures var items := Render(currentPage, totalPages, basePath).items;
      forall i :: 0 <= i < |items| ==> (items[i].current <==> i == currentPage - 1)
    ensures var items := Render(currentPage, totalPages, basePath).items;
      1 <= currentPage <= totalPages <==> exists i :: 0 <= i < |items| && items[i].current
  {
    var items := Render(currentPage, totalPages, basePath).items;
    if 1 <= currentPage <= totalPages {
      assert items[currentPage - 1].current;
    }
  }

  /** On an inner page the previous and next links go to the neighbouring numbered links. */
  lemma NeighbourLinks(currentPage: int, totalPages: int, basePath: string)
    requires 1 <= currentPage <= totalPages
    ensures var b := Render(currentPage, totalPages, basePath);
      (b.previous.Some? ==> b.previous.value == b.items[currentPage - 2].href)
      && (b.next.Some? ==> b.next.value == b.items[currentPage].href)
  {
  }

  /** The previous link of page 2 goes back to the base path, not to `/page/1`. */
  lemma SecondPageBack(totalPages: int, basePath: string)
    ensures Render(2, totalPages, basePath).previous == Some(basePath)
  {
  }
}
