# Pagination window model

This project models the page-number list of the blog's `PaginationComponent`
(`src/components/PaginationComponent.tsx`). Given the current page and the
number of pages, the component builds the list of markers it renders between
its "previous" and "next" links. Each marker is a page number or an ellipsis.
At most five pages are listed in full. Above that, the list keeps page 1, the
last page and a window of pages, and puts ellipses where pages are left out.

The model is one module, `Pagination`, in `pagination.dfy`:

- `Marker = Page(n) | Ellipsis` replaces the source's untyped list of numbers
  and the string `"ellipsis"`.
- `PageWindow` is the pure specification of the three-way window.
- `GeneratePageNumbers` is the component's construction: markers pushed one at
  a time onto an empty list, with a counting loop for each run of pages. Its
  postcondition ties the result to `PageWindow`.
- `PreviousLink`, `NextLink` and `IsActive` are the integer conditions behind
  the "previous" link, the "next" link and the active page link.
- Lemmas state what the list promises for every integer current page: its
  shape in each branch, its length, its order, its range, where ellipses can
  sit, that every page is listed or covered by an ellipsis, and that exactly
  one link is active when the current page is a real page.

The component does not validate its inputs, so the current page and the page
count are arbitrary integers. Range assumptions appear only on the properties
that need them. The component does not reject an out-of-range current page,
and it hard-codes the window size 5, the near-start bound 3 and the four-page
edge runs; the model follows the code.

## Model

| member | source | states |
|---|---|---|
| `Pagination.GeneratePageNumbers` | src/components/PaginationComponent.tsx:23-56 | The list built by pushing markers in loops is exactly the window specification `PageWindow`, for every pair of integers. |
| `Pagination.Range` | src/components/PaginationComponent.tsx:28-30 | A counting loop from lo to hi pushes hi - lo + 1 markers (none when hi < lo), the k-th being page lo + k; the same shape serves the loops at lines 33-35, 41-43 and 47-49. |
| `Pagination.PageWindow` | src/components/PaginationComponent.tsx:23-56 | Reference definition of the list: never more than 7 markers, and an ellipsis appears exactly when there are more than five pages. |
| `Pagination.PreviousLink` | src/components/PaginationComponent.tsx:63-66 | A "previous" link exists iff currentPage > 1, targets currentPage - 1, and never targets a page below 1. |
| `Pagination.NextLink` | src/components/PaginationComponent.tsx:86-89 | A "next" link exists iff currentPage < totalPages, targets currentPage + 1, and never targets a page past the last one. |
| `Pagination.CountActive` | src/components/PaginationComponent.tsx:71-84 | The number of active links rendered is at most the number of markers, and is zero exactly when the current page is not listed. |
| `Pagination.SmallTotalListsEveryPage` | src/components/PaginationComponent.tsx:27-30 | With at most five pages the list is exactly pages 1..totalPages with no ellipsis, and it is empty when totalPages <= 0. |
| `Pagination.WindowRouting` | src/components/PaginationComponent.tsx:32-52 | With more than five pages: current page <= 3 gives 1,2,3,4,…,last; otherwise current page >= last - 2 gives 1,…,last-3..last; otherwise 1,…,c-1,c,c+1,…,last. |
| `Pagination.LargeTotalKeepsEdges` | src/components/PaginationComponent.tsx:32-52 | With more than five pages the list starts at page 1 and ends at the last page, for any current page. |
| `Pagination.WindowLength` | src/components/PaginationComponent.tsx:27-52 | The length is max(0, totalPages) for at most five pages, 6 in the near-start and near-end windows, 7 in the middle window, and never more than 7. |
| `Pagination.RangeWellFormed` | src/components/PaginationComponent.tsx:28-30 | A run of pages starting at page 1 or later is increasing, within range, gap-free and consecutive. |
| `Pagination.NearStartWellFormed` | src/components/PaginationComponent.tsx:32-37 | The near-start window keeps every structural invariant; its ellipsis hides page 5 at least. |
| `Pagination.NearEndWellFormed` | src/components/PaginationComponent.tsx:38-43 | The near-end window keeps every structural invariant; its ellipsis hides page 2 at least. |
| `Pagination.MiddleWellFormed` | src/components/PaginationComponent.tsx:44-51 | The middle window keeps every structural invariant; each ellipsis hides at least one page. |
| `Pagination.WindowWellFormed` | src/components/PaginationComponent.tsx:27-53 | For any current page: page numbers strictly increase (so none repeats), all lie in 1..totalPages, no two ellipses are adjacent, each ellipsis sits between pages at least 2 apart, and adjacent page numbers differ by exactly 1. |
| `Pagination.WindowCoversAllPages` | src/components/PaginationComponent.tsx:33-51 | Every page in 1..totalPages is either listed or lies strictly between the two pages around an ellipsis. |
| `Pagination.CurrentPageListedIffInRange` | src/components/PaginationComponent.tsx:27-53 | The current page is listed if and only if 1 <= currentPage <= totalPages. |
| `Pagination.CountActiveOfIncreasing` | src/components/PaginationComponent.tsx:71-84 | In a list with strictly increasing page numbers, the page is marked active once if it is listed and never otherwise. |
| `Pagination.ExactlyOneActiveLink` | src/components/PaginationComponent.tsx:78 | Exactly one marker of the window passes `IsActive`, the `currentPage === page` test of line 78, when 1 <= currentPage <= totalPages, and none otherwise. |
| `Pagination.PreviousLinkTarget` | src/components/PaginationComponent.tsx:63-69 | A "previous" link exists iff currentPage > 1 and targets currentPage - 1; for a current page in range that target is a real page that is also listed. |
| `Pagination.NextLinkTarget` | src/components/PaginationComponent.tsx:86-92 | A "next" link exists iff currentPage < totalPages and targets currentPage + 1; for a current page in range that target is a real page that is also listed. |
| `Pagination.Examples` | src/components/PaginationComponent.tsx:27-52 | Worked lists: 10 pages at pages 1, 10 and 5; 3 pages at page 2; 6 pages at pages 3 and 4; 7 pages at page 4. |

## Left out

- JSX rendering and the pagination widget library (src/components/PaginationComponent.tsx:1-10, 60-95): UI built on components that are not part of this model. Only the integer conditions behind the links are modelled.
- Building `href` strings from the base URL and a page number (lines 66, 77, 89): number-to-string formatting by the JavaScript runtime. Link targets are modelled as integers.
- Non-integer or non-finite JavaScript numbers for the current page or the page count: both are modelled as unbounded integers.
- `PageWindow` does not model page values above 2^53: there the source's floating-point `i++` no longer steps by one, so its loops at lines 41 and 47 can skip pages or never end, while the model returns six or seven markers.
- `GeneratePageNumbers` does not model page values above 2^53 either, for the same reason: its loops count with unbounded integers and always end.
- Input validation: the component has none, so no error path is modelled. For an out-of-range current page the "previous" and "next" targets can fall outside 1..totalPages (for example page 100 of 10 gives a "previous" link to 99). `PreviousLinkTarget` and `NextLinkTarget` state the in-range guarantee only for an in-range current page.
- Repeated calls with the same inputs give the same list. This holds because `PageWindow` is a function; no separate lemma states it.
- src/consts.ts, src/content.config.ts and astro.config.mjs: constant site data, content schemas with file loading, and framework configuration, with no logic to model.
