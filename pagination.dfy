/** The page-number window of the blog's pagination control.

    Given the current page and the number of pages, the control lists the
    markers it renders between its "previous" and "next" links: page numbers,
    and ellipses standing for runs of pages it does not list.  At most five
    pages are listed in full; above that the list keeps the first and the last
    page and a window of pages around the current one.
 */
module Pagination {

  /** One entry of the rendered list: a link to a page, or a non-interactive ellipsis. */
  datatype Marker = Page(n: int) | Ellipsis

  datatype Option<T> = None | Some(value: T)

  /** Up to this many pages are listed without any ellipsis. */
  const MaxVisible: int := 5

  /** The markers for pages lo, lo + 1, ..., hi, pushed in that order (none when hi < lo):
      one marker per page, the k-th being page lo + k. */
  function Range(lo: int, hi: int): (r: seq<Marker>)
    ensures |r| == if hi < lo then 0 else hi - lo + 1
    ensures forall k :: 0 <= k < |r| ==> r[k] == Page(lo + k)
    decreases hi - lo
  {
    if hi < lo then [] else Range(lo, hi - 1) + [Page(hi)]
  }

  /** The list of markers the control renders: every page when there are few,
      otherwise one of three windows chosen by where the current page lies. */
  function PageWindow(currentPage: int, totalPages: int): (r: seq<Marker>)
    ensures |r| <= 7
    ensures totalPages > MaxVisible <==> Ellipsis in r
  {
    if totalPages <= MaxVisible then
      Range(1, totalPages)
    else if currentPage <= 3 then
      Range(1, 4) + [Ellipsis, Page(totalPages)]
    else if currentPage >= totalPages - 2 then
      [Page(1), Ellipsis] + Range(totalPages - 3, totalPages)
    else
      [Page(1), Ellipsis] + Range(currentPage - 1, currentPage + 1) + [Ellipsis, Page(totalPages)]
  }

  /** Builds the list the way the component does: pushing markers one at a
      time onto an initially empty list, with a counting loop for each run of
      consecutive pages. */
  method GeneratePageNumbers(currentPage: int, totalPages: int) returns (pages: seq<Marker>)
    ensures pages == PageWindow(currentPage, totalPages)
  {
    pages := [];
    if totalPages <= MaxVisible {
      var i := 1;
      while i <= totalPages
        invariant 1 <= i && (i == 1 || i <= totalPages + 1)
        invariant pages == Range(1, i - 1)
        decreases totalPages - i
      {
        pages := pages + [Page(i)];
        i := i + 1;
      }
    } else {
      if currentPage <= 3 {
        var i := 1;
        while i <= 4
          invariant 1 <= i <= 5
          invariant pages == Range(1, i - 1)
        {
          pages := pages + [Page(i)];
          i := i + 1;
        }
        pages := pages + [Ellipsis];
        pages := pages + [Page(totalPages)];
      } else if currentPage >= totalPages - 2 {
        pages := pages + [Page(1)];
        pages := pages + [Ellipsis];
        var i := totalPages - 3;
        while i <= totalPages
          invariant totalPages - 3 <= i <= totalPages + 1
          invariant pages == [Page(1), Ellipsis] + Range(totalPages - 3, i - 1)
          decreases totalPages - i
        {
          pages := pages + [Page(i)];
          i := i + 1;
        }
      } else {
        pages := pages + [Page(1)];
        pages := pages + [Ellipsis];
        var i := currentPage - 1;
        while i <= currentPage + 1
          invariant currentPage - 1 <= i <= currentPage + 2
          invariant pages == [Page(1), Ellipsis] + Range(currentPage - 1, i - 1)
          decreases currentPage + 1 - i
        {
          pages := pages + [Page(i)];
          i := i + 1;
        }
        pages := pages + [Ellipsis];
        pages := pages + [Page(totalPages)];
      }
    }
  }

  /** A page link is rendered as the active one exactly when it is the current page;
      an ellipsis never is. */
  predicate IsActive(m: Marker, currentPage: int)
  {
    m.Page? && m.n == currentPage
  }

  /** The target of the "previous" link, when the control renders one: there
      is one past the first page, and it is never below page 1. */
  function PreviousLink(currentPage: int): (r: Option<int>)
    ensures r.Some? <==> currentPage > 1
    ensures r.Some? ==> r.value == currentPage - 1 && r.value >= 1
  {
    if currentPage > 1 then Some(currentPage - 1) else None
  }

  /** The target of the "next" link, when the control renders one: there is
      one before the last page, and it is never past the last page. */
  function NextLink(currentPage: int, totalPages: int): (r: Option<int>)
    ensures r.Some? <==> currentPage < totalPages
    ensures r.Some? ==> r.value == currentPage + 1 && r.value <= totalPages
  {
    if currentPage < totalPages then Some(currentPage + 1) else None
  }

  /** How many markers of s are rendered as active: none exactly when the
      current page is not listed, and never more than there are markers. */
  function CountActive(s: seq<Marker>, currentPage: int): (r: nat)
    ensures r <= |s|
    ensures r == 0 <==> Page(currentPage) !in s
  {
    if s == [] then 0
    else (if IsActive(s[0], currentPage) then 1 else 0) + CountActive(s[1..], currentPage)
  }

  // ----- Structural properties of a list of markers -----

  /** The page numbers strictly increase from left to right (so none repeats). */
  predicate StrictlyIncreasing(s: seq<Marker>)
  {
    forall i, j :: 0 <= i < j < |s| && s[i].Page? && s[j].Page? ==> s[i].n < s[j].n
  }

  /** Every page number is a page that exists. */
  predicate WithinPages(s: seq<Marker>, totalPages: int)
  {
    forall i :: 0 <= i < |s| && s[i].Page? ==> 1 <= s[i].n <= totalPages
  }

  /** No two ellipses stand next to each other. */
  predicate NoAdjacentEllipses(s: seq<Marker>)
  {
    forall i :: 0 <= i < |s| - 1 ==> !(s[i].Ellipsis? && s[i + 1].Ellipsis?)
  }

  /** Every ellipsis stands between two page numbers and leaves out at least one page. */
  predicate EllipsesHidePages(s: seq<Marker>)
  {
    forall i :: 0 <= i < |s| && s[i].Ellipsis? ==>
      0 < i < |s| - 1 && s[i - 1].Page? && s[i + 1].Page? && s[i + 1].n - s[i - 1].n >= 2
  }

  /** Two page numbers next to each other are consecutive pages. */
  predicate AdjacentPagesConsecutive(s: seq<Marker>)
  {
    forall i :: 0 <= i < |s| - 1 && s[i].Page? && s[i + 1].Page? ==> s[i + 1].n == s[i].n + 1
  }

  /** The structural invariants every rendered list keeps. */
  predicate WellFormed(s: seq<Marker>, totalPages: int)
  {
    StrictlyIncreasing(s) && WithinPages(s, totalPages) && NoAdjacentEllipses(s) &&
    EllipsesHidePages(s) && AdjacentPagesConsecutive(s)
  }

  /** Page p is listed as a link. */
  predicate Shown(s: seq<Marker>, p: int)
  {
    Page(p) in s
  }

  /** Page p falls strictly between the two pages around some ellipsis of s. */
  predicate Hidden(s: seq<Marker>, p: int)
  {
    exists i :: 0 < i < |s| - 1 && s[i].Ellipsis? && s[i - 1].Page? && s[i + 1].Page? &&
      s[i - 1].n < p < s[i + 1].n
  }

  /** Every page is either listed or stood for by an ellipsis. */
  predicate CoversAllPages(s: seq<Marker>, totalPages: int)
  {
    forall p :: 1 <= p <= totalPages ==> Shown(s, p) || Hidden(s, p)
  }

  // ----- Lemmas -----

  /** With at most five pages the list is exactly pages 1..totalPages, without
      any ellipsis, and it is empty when there are no pages. */
  lemma SmallTotalListsEveryPage(currentPage: int, totalPages: int)
    requires totalPages <= MaxVisible
    ensures |PageWindow(currentPage, totalPages)| == if totalPages <= 0 then 0 else totalPages
    ensures forall k :: 0 <= k < |PageWindow(currentPage, totalPages)| ==>
      PageWindow(currentPage, totalPages)[k] == Page(k + 1)
    ensures Ellipsis !in PageWindow(currentPage, totalPages)
  {
  }

  /** With more than five pages, the window is chosen by the first test that
      holds: near the start, near the end, otherwise around the current page. */
  lemma WindowRouting(currentPage: int, totalPages: int)
    requires totalPages > MaxVisible
    ensures currentPage <= 3 ==>
      PageWindow(currentPage, totalPages) ==
        [Page(1), Page(2), Page(3), Page(4), Ellipsis, Page(totalPages)]
    ensures 3 < currentPage && currentPage >= totalPages - 2 ==>
      PageWindow(currentPage, totalPages) ==
        [Page(1), Ellipsis, Page(totalPages - 3), Page(totalPages - 2), Page(totalPages - 1), Page(totalPages)]
    ensures 3 < currentPage < totalPages - 2 ==>
      PageWindow(currentPage, totalPages) ==
        [Page(1), Ellipsis, Page(currentPage - 1), Page(currentPage), Page(currentPage + 1), Ellipsis, Page(totalPages)]
  {
  }

  /** With more than five pages the list always starts at page 1 and ends at
      the last page, whatever the current page is. */
  lemma LargeTotalKeepsEdges(currentPage: int, totalPages: int)
    requires totalPages > MaxVisible
    ensures |PageWindow(currentPage, totalPages)| >= 2
    ensures PageWindow(currentPage, totalPages)[0] == Page(1)
    ensures PageWindow(currentPage, totalPages)[|PageWindow(currentPage, totalPages)| - 1] == Page(totalPages)
  {
    WindowRouting(currentPage, totalPages);
  }

  /** The list has totalPages markers (none if totalPages <= 0) when there
      are few pages, 6 near either end, 7 in the middle, and never more than 7. */
  lemma WindowLength(currentPage: int, totalPages: int)
    ensures |PageWindow(currentPage, totalPages)| ==
      if totalPages <= MaxVisible then (if totalPages <= 0 then 0 else totalPages)
      else if currentPage <= 3 || currentPage >= totalPages - 2 then 6
      else 7
    ensures |PageWindow(currentPage, totalPages)| <= 7
  {
    if totalPages > MaxVisible {
      WindowRouting(currentPage, totalPages);
    }
  }

  /** A run of real pages is well formed. */
  lemma RangeWellFormed(lo: int, hi: int)
    requires 1 <= lo
    ensures WellFormed(Range(lo, hi), hi)
  {
  }

  lemma NearStartWellFormed(totalPages: int)
    requires totalPages > MaxVisible
    ensures WellFormed([Page(1), Page(2), Page(3), Page(4), Ellipsis, Page(totalPages)], totalPages)
  {
  }

  lemma NearEndWellFormed(totalPages: int)
    requires totalPages > MaxVisible
    ensures WellFormed([Page(1), Ellipsis, Page(totalPages - 3), Page(totalPages - 2),
      Page(totalPages - 1), Page(totalPages)], totalPages)
  {
  }

  lemma MiddleWellFormed(currentPage: int, totalPages: int)
    requires totalPages > MaxVisible && 3 < currentPage < totalPages - 2
    ensures WellFormed([Page(1), Ellipsis, Page(currentPage - 1), Page(currentPage),
      Page(currentPage + 1), Ellipsis, Page(totalPages)], totalPages)
  {
  }

  /** Whatever the current page, the list is well formed: increasing page
      numbers, all of them real pages, no two ellipses in a row, every ellipsis
      leaving out at least one page, and adjacent page numbers consecutive. */
  lemma WindowWellFormed(currentPage: int, totalPages: int)
    ensures WellFormed(PageWindow(currentPage, totalPages), totalPages)
  {
    if totalPages <= MaxVisible {
      RangeWellFormed(1, totalPages);
    } else {
      WindowRouting(currentPage, totalPages);
      if currentPage <= 3 {
        NearStartWellFormed(totalPages);
      } else if currentPage >= totalPages - 2 {
        NearEndWellFormed(totalPages);
      } else {
        MiddleWellFormed(currentPage, totalPages);
      }
    }
  }

  /** Every page from 1 to totalPages is either listed or left out by an
      ellipsis, whatever the current page is. */
  lemma WindowCoversAllPages(currentPage: int, totalPages: int)
    ensures CoversAllPages(PageWindow(currentPage, totalPages), totalPages)
  {
    var w := PageWindow(currentPage, totalPages);
    if totalPages <= MaxVisible {
      forall p | 1 <= p <= totalPages ensures Shown(w, p) || Hidden(w, p) {
        assert w[p - 1] == Page(p);
      }
    } else {
      WindowRouting(currentPage, totalPages);
      forall p | 1 <= p <= totalPages ensures Shown(w, p) || Hidden(w, p) {
        if currentPage <= 3 {
          if p <= 4 {
            assert w[p - 1] == Page(p);
          } else if p == totalPages {
            assert w[5] == Page(p);
          } else {
            assert w[4].Ellipsis? && w[3].n < p < w[5].n;
          }
        } else if currentPage >= totalPages - 2 {
          if p == 1 {
            assert w[0] == Page(p);
          } else if p >= totalPages - 3 {
            assert w[p - totalPages + 5] == Page(p);
          } else {
            assert w[1].Ellipsis? && w[0].n < p < w[2].n;
          }
        } else {
          if p == 1 {
            assert w[0] == Page(p);
          } else if p < currentPage - 1 {
            assert w[1].Ellipsis? && w[0].n < p < w[2].n;
          } else if p <= currentPage + 1 {
            assert w[p - currentPage + 3] == Page(p);
          } else if p < totalPages {
            assert w[5].Ellipsis? && w[4].n < p < w[6].n;
          } else {
            assert w[6] == Page(p);
          }
        }
      }
    }
  }

  /** The current page is listed exactly when it is a real page. */
  lemma CurrentPageListedIffInRange(currentPage: int, totalPages: int)
    ensures Page(currentPage) in PageWindow(currentPage, totalPages) <==> 1 <= currentPage <= totalPages
  {
    var w := PageWindow(currentPage, totalPages);
    WindowWellFormed(currentPage, totalPages);
    if 1 <= currentPage <= totalPages {
      if totalPages <= MaxVisible {
        assert w[currentPage - 1] == Page(currentPage);
      } else {
        WindowRouting(currentPage, totalPages);
        if currentPage <= 3 {
          assert w[currentPage - 1] == Page(currentPage);
        } else if currentPage >= totalPages - 2 {
          assert w[currentPage - totalPages + 5] == Page(currentPage);
        } else {
          assert w[3] == Page(currentPage);
        }
      }
    }
  }

  /** In a list with strictly increasing page numbers, a page is rendered active
      once if it is listed and not at all otherwise. */
  lemma {:induction false} CountActiveOfIncreasing(s: seq<Marker>, currentPage: int)
    requires StrictlyIncreasing(s)
    ensures CountActive(s, currentPage) == if Page(currentPage) in s then 1 else 0
  {
    if s != [] {
      var rest := s[1..];
      assert StrictlyIncreasing(rest) by {
        forall i, j | 0 <= i < j < |rest| && rest[i].Page? && rest[j].Page?
          ensures rest[i].n < rest[j].n
        {
          assert rest[i] == s[i + 1] && rest[j] == s[j + 1];
        }
      }
      CountActiveOfIncreasing(rest, currentPage);
      if s[0] == Page(currentPage) {
        forall j | 0 <= j < |rest| ensures rest[j] != Page(currentPage) {
          assert rest[j] == s[j + 1];
        }
      } else {
        assert s == [s[0]] + rest;
      }
    }
  }

  /** Exactly one listed link is active when the current page is a real page,
      and none otherwise. */
  lemma ExactlyOneActiveLink(currentPage: int, totalPages: int)
    ensures CountActive(PageWindow(currentPage, totalPages), currentPage) ==
      if 1 <= currentPage <= totalPages then 1 else 0
  {
    WindowWellFormed(currentPage, totalPages);
    CountActiveOfIncreasing(PageWindow(currentPage, totalPages), currentPage);
    CurrentPageListedIffInRange(currentPage, totalPages);
  }

  /** The "previous" link is rendered exactly when the current page is past the
      first, and targets the page before it; for a real current page that page
      is also listed. */
  lemma PreviousLinkTarget(currentPage: int, totalPages: int)
    ensures PreviousLink(currentPage).Some? <==> currentPage > 1
    ensures PreviousLink(currentPage).Some? ==> PreviousLink(currentPage).value == currentPage - 1
    ensures 1 <= currentPage <= totalPages && PreviousLink(currentPage).Some? ==>
      1 <= PreviousLink(currentPage).value <= totalPages &&
      Page(PreviousLink(currentPage).value) in PageWindow(currentPage, totalPages)
  {
    var w := PageWindow(currentPage, totalPages);
    if 1 < currentPage <= totalPages {
      if totalPages <= MaxVisible {
        assert w[currentPage - 2] == Page(currentPage - 1);
      } else {
        WindowRouting(currentPage, totalPages);
        if currentPage <= 3 {
          assert w[currentPage - 2] == Page(currentPage - 1);
        } else if currentPage >= totalPages - 2 {
          assert w[currentPage - totalPages + 4] == Page(currentPage - 1);
        } else {
          assert w[2] == Page(currentPage - 1);
        }
      }
    }
  }

  /** The "next" link is rendered exactly when the current page is before the
      last, and targets the page after it; for a real current page that page is
      also listed. */
  lemma NextLinkTarget(currentPage: int, totalPages: int)
    ensures NextLink(currentPage, totalPages).Some? <==> currentPage < totalPages
    ensures NextLink(currentPage, totalPages).Some? ==> NextLink(currentPage, totalPages).value == currentPage + 1
    ensures 1 <= currentPage <= totalPages && NextLink(currentPage, totalPages).Some? ==>
      1 <= NextLink(currentPage, totalPages).value <= totalPages &&
      Page(NextLink(currentPage, totalPages).value) in PageWindow(currentPage, totalPages)
  {
    var w := PageWindow(currentPage, totalPages);
    if 1 <= currentPage < totalPages {
      if totalPages <= MaxVisible {
        assert w[currentPage] == Page(currentPage + 1);
      } else {
        WindowRouting(currentPage, totalPages);
        if currentPage <= 3 {
          assert w[currentPage] == Page(currentPage + 1);
        } else if currentPage >= totalPages - 2 {
          assert w[currentPage - totalPages + 6] == Page(currentPage + 1);
        } else {
          assert w[4] == Page(currentPage + 1);
        }
      }
    }
  }

  /** Worked cases, including the totals just above five where the near-start
      and near-end windows meet. */
  lemma Examples()
    ensures PageWindow(1, 10) == [Page(1), Page(2), Page(3), Page(4), Ellipsis, Page(10)]
    ensures PageWindow(10, 10) == [Page(1), Ellipsis, Page(7), Page(8), Page(9), Page(10)]
    ensures PageWindow(5, 10) == [Page(1), Ellipsis, Page(4), Page(5), Page(6), Ellipsis, Page(10)]
    ensures PageWindow(2, 3) == [Page(1), Page(2), Page(3)]
    ensures PageWindow(3, 6) == [Page(1), Page(2), Page(3), Page(4), Ellipsis, Page(6)]
    ensures PageWindow(4, 6) == [Page(1), Ellipsis, Page(3), Page(4), Page(5), Page(6)]
    ensures PageWindow(4, 7) == [Page(1), Ellipsis, Page(3), Page(4), Page(5), Ellipsis, Page(7)]
  {
    WindowRouting(1, 10);
    WindowRouting(10, 10);
    WindowRouting(5, 10);
    SmallTotalListsEveryPage(2, 3);
    WindowRouting(3, 6);
    WindowRouting(4, 6);
    WindowRouting(4, 7);
  }
}
