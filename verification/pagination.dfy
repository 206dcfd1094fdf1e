/**
 * The page-number strip of the `Pagination` component: `getPageNumbers`
 * windowing and the previous/next buttons.
 */
module Pagination {
  import opened Options
  import opened Numbers

  datatype EllipsisKey = EllipsisStart | EllipsisEnd

  datatype PageItem = Page(value: int) | Ellipsis(key: EllipsisKey)

  /** Page buttons `lo`, `lo + 1`, ..., `hi`; nothing when `lo > hi`. */
  function PageRun(lo: int, hi: int): (r: seq<PageItem>)
    ensures |r| == if lo <= hi then hi - lo + 1 else 0
    ensures forall k :: 0 <= k < |r| ==> r[k] == Page(lo + k)
    decreases hi - lo
  {
    if lo > hi then [] else [Page(lo)] + PageRun(lo + 1, hi)
  }

  /** `getPageNumbers(currentPage, totalPages)`. */
  function GetPageNumbers(currentPage: int, totalPages: int): (r: seq<PageItem>)
    ensures forall k :: 0 <= k < |r| && r[k].Page? ==> 1 <= r[k].value <= totalPages
  {
    if totalPages <= 7 then PageRun(1, totalPages)
    else
      [Page(1)]
      + (if currentPage > 3 then [Ellipsis(EllipsisStart)] else [])
      + PageRun(Max(2, currentPage - 1), Min(totalPages - 1, currentPage + 1))
      + (if currentPage < totalPages - 2 then [Ellipsis(EllipsisEnd)] else [])
      + [Page(totalPages)]
  }

  /** Up to seven pages: every page in order, and no ellipsis. */
  lemma SmallTotalListsEveryPage(currentPage: int, totalPages: int)
    requires totalPages <= 7
    ensures var r := GetPageNumbers(currentPage, totalPages);
      && |r| == Max(0, totalPages)
      && (forall k :: 0 <= k < |r| ==> r[k] == Page(k + 1))
  {
  }

  /** Beyond seven pages the first and the last page are always shown, at the two ends. */
  lemma LargeTotalShowsEnds(currentPage: int, totalPages: int)
    requires totalPages > 7
    ensures var r := GetPageNumbers(currentPage, totalPages);
      && |r| >= 2 && r[0] == Page(1) && r[|r| - 1] == Page(totalPages)
  {
  }

  /**
   * Beyond seven pages every page of the window `max(2, cur-1) .. min(total-1, cur+1)`
   * is shown, so an in-range current page always is.
   */
  lemma WindowShown(currentPage: int, totalPages: int, p: int)
    requires totalPages > 7
    requires Max(2, currentPage - 1) <= p <= Min(totalPages - 1, currentPage + 1)
             || (1 <= p == currentPage <= totalPages)
    ensures Page(p) in GetPageNumbers(currentPage, totalPages)
  {
    var r := GetPageNumbers(currentPage, totalPages);
    var lo, hi := Max(2, currentPage - 1), Min(totalPages - 1, currentPage + 1);
    var pre := [Page(1)] + (if currentPage > 3 then [Ellipsis(EllipsisStart)] else []);
    var post := (if currentPage < totalPages - 2 then [Ellipsis(EllipsisEnd)] else []) + [Page(totalPages)];
    assert r == pre + PageRun(lo, hi) + post;
    if lo <= p <= hi {
      assert PageRun(lo, hi)[p - lo] == Page(p);
      assert r[|pre| + p - lo] == Page(p);
    } else if p == 1 {
      assert r[0] == Page(1);
    } else {
      assert p == totalPages;
      assert r[|r| - 1] == Page(p);
    }
  }

  /** The leading ellipsis appears iff the current page is past 3 (beyond seven pages). */
  lemma StartEllipsisIff(currentPage: int, totalPages: int)
    ensures Ellipsis(EllipsisStart) in GetPageNumbers(currentPage, totalPages)
            <==> totalPages > 7 && currentPage > 3
  {
    var r := GetPageNumbers(currentPage, totalPages);
    if totalPages > 7 && currentPage > 3 {
      assert r[1] == Ellipsis(EllipsisStart);
    }
  }

  /** The trailing ellipsis appears iff the current page is before `total - 2` (beyond seven pages). */
  lemma EndEllipsisIff(currentPage: int, totalPages: int)
    ensures Ellipsis(EllipsisEnd) in GetPageNumbers(currentPage, totalPages)
            <==> totalPages > 7 && currentPage < totalPages - 2
  {
    var r := GetPageNumbers(currentPage, totalPages);
    if totalPages > 7 && currentPage < totalPages - 2 {
      assert r[|r| - 2] == Ellipsis(EllipsisEnd);
    }
  }

  /** Page numbers strictly increase along the strip, so none is shown twice. */
  lemma PagesIncrease(currentPage: int, totalPages: int)
    ensures var r := GetPageNumbers(currentPage, totalPages);
      forall i, j :: 0 <= i < j < |r| && r[i].Page? && r[j].Page? ==> r[i].value < r[j].value
  {
    var r := GetPageNumbers(currentPage, totalPages);
    if totalPages > 7 {
      var lo, hi := Max(2, currentPage - 1), Min(totalPages - 1, currentPage + 1);
      var run := PageRun(lo, hi);
      assert forall k :: 0 <= k < |run| ==> 1 < run[k].value < totalPages;
    }
  }

  /** Never more than seven items. */
  lemma AtMostSevenItems(currentPage: int, totalPages: int)
    ensures |GetPageNumbers(currentPage, totalPages)| <= 7
  {
  }

  /**
   * No gap without an ellipsis: for an in-range current page, two neighbouring
   * page buttons are consecutive pages, and an ellipsis sits between two page
   * buttons and stands for at least one omitted page.
   */
  predicate Gapless(r: seq<PageItem>)
  {
    && (forall k :: 0 <= k < |r| - 1 && r[k].Page? && r[k + 1].Page? ==> r[k + 1].value == r[k].value + 1)
    && (forall k :: 0 <= k < |r| && r[k].Ellipsis? ==>
          0 < k < |r| - 1 && r[k - 1].Page? && r[k + 1].Page? && r[k + 1].value >= r[k - 1].value + 2)
  }

  lemma InRangeGapless(currentPage: int, totalPages: int)
    requires 1 <= currentPage <= totalPages
    ensures Gapless(GetPageNumbers(currentPage, totalPages))
  {
    if totalPages > 7 {
      NeighbouringPagesConsecutive(currentPage, totalPages);
      EllipsesHidePages(currentPage, totalPages);
    }
  }

  /** The layout of a long strip: page 1, an optional ellipsis, the window, an optional ellipsis, the last page. */
  lemma LongStripLayout(currentPage: int, totalPages: int)
    requires 1 <= currentPage <= totalPages && totalPages > 7
    ensures var r := GetPageNumbers(currentPage, totalPages);
      var lo, hi := Max(2, currentPage - 1), Min(totalPages - 1, currentPage + 1);
      var s, e := (if currentPage > 3 then 1 else 0), (if currentPage < totalPages - 2 then 1 else 0);
      && lo <= hi
      && |r| == 2 + s + e + (hi - lo + 1)
      && r[0] == Page(1) && r[|r| - 1] == Page(totalPages)
      && (s == 1 ==> r[1] == Ellipsis(EllipsisStart))
      && (e == 1 ==> r[|r| - 2] == Ellipsis(EllipsisEnd))
      && (forall k :: 1 + s <= k <= 1 + s + hi - lo ==> r[k] == Page(lo + k - 1 - s))
  {
    var r := GetPageNumbers(currentPage, totalPages);
    var lo, hi := Max(2, currentPage - 1), Min(totalPages - 1, currentPage + 1);
    var s := if currentPage > 3 then 1 else 0;
    var run := PageRun(lo, hi);
    assert forall k :: 1 + s <= k < 1 + s + |run| ==> r[k] == run[k - 1 - s];
  }

  lemma NeighbouringPagesConsecutive(currentPage: int, totalPages: int)
    requires 1 <= currentPage <= totalPages && totalPages > 7
    ensures var r := GetPageNumbers(currentPage, totalPages);
      forall k :: 0 <= k < |r| - 1 && r[k].Page? && r[k + 1].Page? ==> r[k + 1].value == r[k].value + 1
  {
    LongStripLayout(currentPage, totalPages);
    var r := GetPageNumbers(currentPage, totalPages);
    var lo, hi := Max(2, currentPage - 1), Min(totalPages - 1, currentPage + 1);
    var s := if currentPage > 3 then 1 else 0;
    forall k | 0 <= k < |r| - 1 && r[k].Page? && r[k + 1].Page?
      ensures r[k + 1].value == r[k].value + 1
    {
      if k == 0 {
        assert s == 0 && r[1] == Page(lo) && lo == 2;
      } else if k < 1 + s + hi - lo {
        assert r[k] == Page(lo + k - 1 - s) && r[k + 1] == Page(lo + k - s);
      } else {
        assert k == 1 + s + hi - lo && r[k] == Page(hi);
        assert hi == totalPages - 1;
      }
    }
  }

  lemma EllipsesHidePages(currentPage: int, totalPages: int)
    requires 1 <= currentPage <= totalPages && totalPages > 7
    ensures var r := GetPageNumbers(currentPage, totalPages);
      forall k :: 0 <= k < |r| && r[k].Ellipsis? ==>
        0 < k < |r| - 1 && r[k - 1].Page? && r[k + 1].Page? && r[k + 1].value >= r[k - 1].value + 2
  {
    LongStripLayout(currentPage, totalPages);
    var r := GetPageNumbers(currentPage, totalPages);
    var lo, hi := Max(2, currentPage - 1), Min(totalPages - 1, currentPage + 1);
    var s := if currentPage > 3 then 1 else 0;
    forall k | 0 <= k < |r| && r[k].Ellipsis?
      ensures 0 < k < |r| - 1 && r[k - 1].Page? && r[k + 1].Page? && r[k + 1].value >= r[k - 1].value + 2
    {
      if k == 1 && s == 1 {
        assert r[2] == Page(lo) && lo == currentPage - 1;
      } else {
        assert k == |r| - 2 && currentPage < totalPages - 2;
        assert r[k - 1] == Page(hi) && hi == currentPage + 1;
      }
    }
  }

  /** `p` is shown as a page button, or enclosed by the neighbours of an ellipsis. */
  predicate Represented(r: seq<PageItem>, p: int)
  {
    Page(p) in r
    || exists k :: 0 < k < |r| - 1 && r[k].Ellipsis? && r[k - 1].Page? && r[k + 1].Page?
                 && r[k - 1].value < p < r[k + 1].value
  }

  /**
   * In a gapless strip that starts and ends with a page button, every page
   * between the ends is represented; induction on the position `i` of the
   * last page button at or below `p`.
   */
  lemma {:induction false} EveryPageAccountedFor(r: seq<PageItem>, i: nat, p: int)
    requires i < |r| && r[i].Page? && r[|r| - 1].Page?
    requires Gapless(r)
    requires r[i].value <= p <= r[|r| - 1].value
    ensures Represented(r, p)
    decreases |r| - i
  {
    if p == r[i].value {
      assert r[i] == Page(p);
    } else if i == |r| - 1 {
      assert false;
    } else if r[i + 1].Page? {
      assert r[i + 1].value == r[i].value + 1;
      EveryPageAccountedFor(r, i + 1, p);
    } else {
      assert 0 < i + 1 < |r| - 1 && r[i + 2].Page? && r[i].Page?;
      if p < r[i + 2].value {
        assert r[i + 1].Ellipsis? && r[i].value < p < r[i + 2].value;
      } else {
        EveryPageAccountedFor(r, i + 2, p);
      }
    }
  }

  /** Combining the above: for an in-range current page every page 1..total is represented. */
  lemma InRangeCoversAllPages(currentPage: int, totalPages: int, p: int)
    requires 1 <= currentPage <= totalPages
    requires 1 <= p <= totalPages
    ensures Represented(GetPageNumbers(currentPage, totalPages), p)
  {
    var r := GetPageNumbers(currentPage, totalPages);
    InRangeGapless(currentPage, totalPages);
    if totalPages <= 7 {
      assert r[0] == Page(1) && r[|r| - 1] == Page(totalPages);
    } else {
      LargeTotalShowsEnds(currentPage, totalPages);
    }
    EveryPageAccountedFor(r, 0, p);
  }

  /** The strip is rendered only with more than one page. */
  function Renders(totalPages: int): (r: bool)
    ensures r <==> !(totalPages <= 1)
  {
    totalPages > 1
  }

  /** The previous button: enabled past page 1, and then it asks for the page before. */
  function PrevTarget(currentPage: int): (r: Option<int>)
    ensures r.Some? <==> currentPage > 1
    ensures r.Some? ==> r.value == currentPage - 1 && r.value >= 1
  {
    if currentPage > 1 then Some(currentPage - 1) else None
  }

  /** The next button: enabled before the last page, and then it asks for the page after. */
  function NextTarget(currentPage: int, totalPages: int): (r: Option<int>)
    ensures r.Some? <==> currentPage < totalPages
    ensures r.Some? ==> r.value == currentPage + 1 && r.value <= totalPages
  {
    if currentPage < totalPages then Some(currentPage + 1) else None
  }

  /** On a rendered strip with an in-range current page, prev and next stay in range. */
  lemma NavigationStaysInRange(currentPage: int, totalPages: int)
    requires Renders(totalPages)
    requires 1 <= currentPage <= totalPages
    ensures PrevTarget(currentPage).Some? || NextTarget(currentPage, totalPages).Some?
    ensures PrevTarget(currentPage).Some? ==> 1 <= PrevTarget(currentPage).value <= totalPages
    ensures NextTarget(currentPage, totalPages).Some? ==> 1 <= NextTarget(currentPage, totalPages).value <= totalPages
  {
  }
}
