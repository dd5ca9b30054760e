# Parent announcements panel — a Dafny model

The parent dashboard's announcements panel shows a searchable, filterable,
paginated list of school announcements next to a detail pane. This project
models the panel's view logic:

- the **filter**: an announcement is listed when the lower-cased search text
  occurs in its lower-cased title or content, and the priority selector is
  `"all"` or equals its priority. The listed announcements keep the store's order.
- the **paginator**: pages of five, `ceil(n / 5)` pages. Page `p` is the list's
  `slice((p-1)*5, p*5)`.
- the **badge**: `"urgent"` gets the Urgent badge. Every other string gets the
  General badge through the default branch.
- the **empty state**: it says "No announcements match your search criteria"
  when a query is typed or a priority is chosen. Otherwise it says "There are no
  announcements at this time".
- the **view state and its events**: a class `ParentAnnouncements` with the
  panel's four state fields (search query, priority filter, current page,
  selected announcement). It has one method per event: typing, choosing a
  priority, clicking a row, Previous and Next.

Modules follow the component's parts:

- `Text` (`text.dfy`): lower-casing and substring search.
- `Announcements` (`announcements.dfy`): the record and the filter.
- `Pagination` (`pagination.dfy`): page count, list slicing and pages.
- `View` (`view.dfy`): the badge, the panes and the state class.
- `MockData` (`mock_data.dfy`): the component's built-in four-announcement
  store, used as a concrete instance, plus two client scenarios.

Two behaviours of the code are kept as written:

- Priorities are the strings the record carries, compared with `===`. They are
  not an enumeration, so the badge's default branch is reachable for any other string.
- The page is clamped only when Previous or Next is pressed. It is not clamped
  when the filtered list shrinks, so the page can lie past the last one. Such a
  page is empty and says that nothing matches, although some announcements do
  match (`View.StalePageShowsNoMatch`). When the remaining matches fit on one
  page, no pagination controls are shown to leave it
  (`MockData.StalePageAfterSearch`). Otherwise only Next leaves it: Next lands
  on the last page, while Previous stays past the end when the page was more
  than one past it (`Pagination.LeavingStalePage`).

## Model

| member | source | states |
|---|---|---|
| Text.LowerChar | src/components/dashboard/parent-dashboard/parent-announcements.tsx:72-73 | the result is never an upper-case letter; an upper-case letter moves to its lower-case partner and every other character is kept |
| Text.Lower | src/components/dashboard/parent-dashboard/parent-announcements.tsx:72-73 | lower-casing keeps the length and lower-cases each character in place |
| Text.LowerIdempotent | src/components/dashboard/parent-dashboard/parent-announcements.tsx:72-73 | lower-casing an already lower-cased string changes nothing |
| Text.Includes | src/components/dashboard/parent-dashboard/parent-announcements.tsx:72-73 | the search always finds a prefix of the string, the empty query among them, and never finds a query longer than the string |
| Text.IncludesIff | src/components/dashboard/parent-dashboard/parent-announcements.tsx:72-73 | the substring search succeeds exactly when the needle occurs at some position of the string |
| Announcements.MatchesSearch | src/components/dashboard/parent-dashboard/parent-announcements.tsx:71-73 | the empty query matches every announcement; a matching query is no longer than the title or the content |
| Announcements.MatchesPriority | src/components/dashboard/parent-dashboard/parent-announcements.tsx:75 | the "all" selector lets every announcement through; any other selector only an announcement with exactly that priority |
| Announcements.Matches | src/components/dashboard/parent-dashboard/parent-announcements.tsx:71-77 | with the defaults every announcement matches; a match under a selector other than "all" has that priority, and its query is no longer than its title or content |
| Announcements.Filter | src/components/dashboard/parent-dashboard/parent-announcements.tsx:70-78 | the filtered list is no longer than the store and every listed announcement matches both conditions |
| Announcements.FilterIsOrderedSubsequence | src/components/dashboard/parent-dashboard/parent-announcements.tsx:70-78 | the filtered list is the store's elements at strictly increasing positions: nothing is reordered or duplicated |
| Announcements.KeptIndicesExact | src/components/dashboard/parent-dashboard/parent-announcements.tsx:70-78 | a store position is among the kept positions iff its announcement matches |
| Announcements.FilterMembership | src/components/dashboard/parent-dashboard/parent-announcements.tsx:71-77 | an announcement is listed iff it is in the store, the query occurs in its title or content (ignoring case), and the selector is "all" or its priority |
| Announcements.FilterKeepsAllMatching | src/components/dashboard/parent-dashboard/parent-announcements.tsx:70-78 | when every announcement matches, the filter returns the store unchanged |
| Announcements.FilterNoneMatching | src/components/dashboard/parent-dashboard/parent-announcements.tsx:70-78 | when no announcement matches, the filter returns the empty list |
| Announcements.FilterIdempotent | src/components/dashboard/parent-dashboard/parent-announcements.tsx:70-78 | filtering the filtered list again with the same query and selector gives the same list |
| Announcements.FilterDefaultsKeepAll | src/components/dashboard/parent-dashboard/parent-announcements.tsx:24-25 | with the initial empty query and "all", every announcement is listed in order |
| Announcements.SearchIgnoresCase | src/components/dashboard/parent-dashboard/parent-announcements.tsx:72-73 | two queries that differ only in letter case list the same announcements |
| Pagination.TotalPages | src/components/dashboard/parent-dashboard/parent-announcements.tsx:81-82 | the page count is the least number of five-item pages that holds every filtered announcement |
| Pagination.TotalPagesZero | src/components/dashboard/parent-dashboard/parent-announcements.tsx:82 | there are no pages exactly when the filtered list is empty |
| Pagination.TotalPagesMonotone | src/components/dashboard/parent-dashboard/parent-announcements.tsx:82 | a longer list never has fewer pages |
| Pagination.SliceBound | src/components/dashboard/parent-dashboard/parent-announcements.tsx:83-86 | a slice bound within the list is kept, a negative one counts back from the end, and every bound is clamped to the list |
| Pagination.Slice | src/components/dashboard/parent-dashboard/parent-announcements.tsx:83-86 | the slice is the contiguous run of the list from the start bound, of length end bound minus start bound (or zero) |
| Pagination.PageSlice | src/components/dashboard/parent-dashboard/parent-announcements.tsx:83-86 | page p (at least 1) is the segment from min((p-1)*5, n) to min(p*5, n) of the filtered list and holds at most five announcements |
| Pagination.PageSliceEmptyPastEnd | src/components/dashboard/parent-dashboard/parent-announcements.tsx:83-86 | a page past the last one is empty |
| Pagination.PageSliceNonEmpty | src/components/dashboard/parent-dashboard/parent-announcements.tsx:81-86 | every page from the first to the last shows at least one announcement |
| Pagination.PageSliceCovers | src/components/dashboard/parent-dashboard/parent-announcements.tsx:81-86 | announcement i of the filtered list is item i mod 5 of page i/5 + 1, and that page exists |
| Pagination.PagesDisjoint | src/components/dashboard/parent-dashboard/parent-announcements.tsx:83-86 | item k of a page is list item (page-1)*5+k and item j of a later page is list item (other-1)*5+j, a strictly later position, so no item is on two pages |
| Pagination.LeavingStalePage | src/components/dashboard/parent-dashboard/parent-announcements.tsx:190-199 | from a page past the last, Next moves to the last page, which has rows; Previous stays past the end when the page was more than one past it |
| View.PriorityBadge | src/components/dashboard/parent-dashboard/parent-announcements.tsx:89-96 | the Urgent badge is chosen iff the priority is "urgent"; every other string, "general" included, gets the General badge |
| View.EmptyStateMessage | src/components/dashboard/parent-dashboard/parent-announcements.tsx:172-174 | "match your search criteria" iff the query is non-empty or the selector is not "all"; otherwise "no announcements at this time" |
| View.ListPaneFor | src/components/dashboard/parent-dashboard/parent-announcements.tsx:143-177 | rows are shown iff the page is non-empty, and then they are exactly the page; otherwise the empty state carries the chosen message |
| View.DetailPaneFor | src/components/dashboard/parent-dashboard/parent-announcements.tsx:210-244 | the selection prompt is shown iff nothing is selected; otherwise the selected announcement is shown with its priority badge |
| View.PaginationVisible | src/components/dashboard/parent-dashboard/parent-announcements.tsx:180 | the controls are shown iff more than five announcements are listed, that is, iff a second page has rows |
| View.VisibleRowsMatch | src/components/dashboard/parent-dashboard/parent-announcements.tsx:70-86 | every row on the visible page is an announcement of the store that matches the query and the selector |
| View.NoAnnouncementsMessageIsHonest | src/components/dashboard/parent-dashboard/parent-announcements.tsx:167-174 | on a reachable page, "no announcements at this time" is shown only when the store is empty |
| View.StalePageShowsNoMatch | src/components/dashboard/parent-dashboard/parent-announcements.tsx:83-86 | on a page past the last, with a query or a priority chosen, the list pane says nothing matches |
| View.HighlightIsSelection | src/components/dashboard/parent-dashboard/parent-announcements.tsx:147-149 | with distinct ids in the store, a row of the store has the selected id iff it is the selected announcement |
| View.ParentAnnouncements.Valid | src/components/dashboard/parent-dashboard/parent-announcements.tsx:24-30 | the invariant: distinct ids, a page of at least 1 that lies within the store's pages unless the store is empty, and a selection taken from the store |
| View.ParentAnnouncements.constructor | src/components/dashboard/parent-dashboard/parent-announcements.tsx:24-30 | for a store with distinct ids, the panel starts valid with an empty query, "all", page 1 and no selection |
| View.ParentAnnouncements.Visible | src/components/dashboard/parent-dashboard/parent-announcements.tsx:83-86 | the current page has at most five rows, each an announcement of the store that matches the query and the selector |
| View.ParentAnnouncements.List | src/components/dashboard/parent-dashboard/parent-announcements.tsx:143-177 | rows iff the current page has any, and then exactly that page; in a valid state "no announcements at this time" means the store is empty |
| View.ParentAnnouncements.Detail | src/components/dashboard/parent-dashboard/parent-announcements.tsx:210-244 | the prompt iff nothing is selected; in a valid state the detail shows the selected announcement, which is in the store |
| View.ParentAnnouncements.ShowsPagination | src/components/dashboard/parent-dashboard/parent-announcements.tsx:180 | the controls are shown iff more than five announcements are listed, that is, iff page 2 has rows |
| View.ParentAnnouncements.PreviousDisabled | src/components/dashboard/parent-dashboard/parent-announcements.tsx:189 | Previous is disabled iff pressing it would leave the page unchanged |
| View.ParentAnnouncements.NextDisabled | src/components/dashboard/parent-dashboard/parent-announcements.tsx:198 | Next is disabled iff pressing it would leave the page unchanged |
| View.ParentAnnouncements.IsHighlighted | src/components/dashboard/parent-dashboard/parent-announcements.tsx:149 | in a valid state a visible row is highlighted iff it is the selected announcement |
| View.ParentAnnouncements.SetSearchQuery | src/components/dashboard/parent-dashboard/parent-announcements.tsx:122-123 | typing sets the query and changes nothing else: the page is not reset and the selection is kept |
| View.ParentAnnouncements.SetFilterPriority | src/components/dashboard/parent-dashboard/parent-announcements.tsx:127-128 | choosing a priority sets the selector and changes nothing else |
| View.ParentAnnouncements.ClickAnnouncement | src/components/dashboard/parent-dashboard/parent-announcements.tsx:99-101 | clicking a visible row selects exactly that announcement, highlights it and shows it in the detail pane; nothing else changes |
| View.ParentAnnouncements.Previous | src/components/dashboard/parent-dashboard/parent-announcements.tsx:189-190 | the page becomes max(p-1, 1), so it is at least 1; on page 1 nothing changes; query, filter and selection are kept |
| View.ParentAnnouncements.Next | src/components/dashboard/parent-dashboard/parent-announcements.tsx:198-199 | the page becomes min(p+1, totalPages), so it is between 1 and totalPages; on the last page nothing changes; query, filter and selection are kept |
| MockData.StoreHasUniqueIds | src/components/dashboard/parent-dashboard/parent-announcements.tsx:30-67 | the built-in store's ids are distinct |
| MockData.StoreFitsOnePage | src/components/dashboard/parent-dashboard/parent-announcements.tsx:180 | for the built-in store, any query and selector give at most one page, so no pagination controls appear |
| MockData.DefaultsListWholeStore | src/components/dashboard/parent-dashboard/parent-announcements.tsx:81-86 | with the defaults the built-in store has one page, and that page shows all four announcements |
| MockData.UrgentListsOnlyClosure | src/components/dashboard/parent-dashboard/parent-announcements.tsx:75 | the "urgent" selector lists exactly the closure notice (id 1) |
| MockData.WeatherListsClosure | src/components/dashboard/parent-dashboard/parent-announcements.tsx:72-73 | a query that lower-cases to "weather" lists the closure notice |
| MockData.SelectionSurvivesSearch | src/components/dashboard/parent-dashboard/parent-announcements.tsx:99-101 | after the closure notice is clicked, a query that lists nothing leaves it in the detail pane |
| MockData.StalePageAfterSearch | src/components/dashboard/parent-dashboard/parent-announcements.tsx:172-180 | with six announcements of distinct ids, after Next and a one-match query, the page says nothing matches and shows no pagination controls |

## Left out

- Rendering (markup, CSS classes, icons, layout) is not modelled. Only the choices it makes are: rows or empty state, which message, badge, detail or prompt, pagination shown or not, and row highlight.
- The `Card`, `Badge`, `Input`, `Select` and `Button` components are foreign calls. The badge is modelled as the kind of badge chosen.
- React's state hooks and re-rendering are modelled as plain fields. The views are recomputed from those fields by functions.
- `Text.LowerChar`: maps only the ASCII letters A-Z, because the full Unicode case mapping of `toLowerCase` is out of scope.
- `Pagination.TotalPages`: uses the integer ceiling `(n + 4) / 5` in place of floating-point `Math.ceil(n / 5)`. The two agree for every natural `n`.
- The store is a constant of the panel. `setAnnouncementsData` exists in the component but is never called.
- `MockData.WeatherListsClosure`: states only that the closure notice is listed for "weather". It does not state that the other three are not listed. Proving that would need the verifier to scan their long literal texts position by position, which is beyond its resource limit.
- The buttons' `disabled` attribute decides whether a click reaches the handler. The model lets Previous and Next run in any state where the pagination is shown. Their contracts show that a click on a disabled button would change nothing.
- `View.ParentAnnouncements.constructor`: requires the store's ids to be distinct. The component does not check this; its built-in store satisfies it (`MockData.StoreHasUniqueIds`), and the row highlight compares ids only.
