/** The announcements panel: its view state, the views derived from it, and the
    events that change it. */
module View {
  import opened Text
  import opened Announcements
  import opened Pagination

  datatype Option<T> = None | Some(value: T)

  /** The badge shown next to a priority. */
  datatype BadgeKind = UrgentBadge | GeneralBadge

  /** "urgent" gets the Urgent badge; every other string, "general" included,
      falls to the default branch and gets the General badge. */
  function PriorityBadge(priority: string): (r: BadgeKind)
    ensures r == UrgentBadge <==> priority == "urgent"
    ensures r == GeneralBadge <==> priority != "urgent"
  {
    if priority == "urgent" then UrgentBadge else GeneralBadge
  }

  /** The two texts of the empty list. */
  datatype EmptyMessage = NoMatchingAnnouncements | NoAnnouncementsAtThisTime

  /** The list pane: the rows of the page, or the empty state with its message. */
  datatype ListPane = Rows(items: seq<Announcement>) | EmptyState(message: EmptyMessage)

  /** The detail pane: the selected announcement with its badge, or the prompt
      to select one. */
  datatype DetailPane = SelectPrompt | Details(announcement: Announcement, badge: BadgeKind)

  /** The empty state blames the search criteria exactly when a query is typed
      or the selector is not "all". */
  function EmptyStateMessage(query: string, filterPriority: string): (r: EmptyMessage)
    ensures r == NoMatchingAnnouncements <==> query != "" || filterPriority != AllPriorities
    ensures r == NoAnnouncementsAtThisTime <==> query == "" && filterPriority == AllPriorities
  {
    if query != "" || filterPriority != AllPriorities then NoMatchingAnnouncements
    else NoAnnouncementsAtThisTime
  }

  /** The list pane for the visible page: rows when the page has any, otherwise
      the empty state. */
  function ListPaneFor(page: seq<Announcement>, query: string, filterPriority: string): (r: ListPane)
    ensures r.Rows? <==> page != []
    ensures r.Rows? ==> r.items == page
    ensures r.EmptyState? ==> r.message == EmptyStateMessage(query, filterPriority)
  {
    if |page| > 0 then Rows(page) else EmptyState(EmptyStateMessage(query, filterPriority))
  }

  /** The detail pane for the current selection. */
  function DetailPaneFor(selected: Option<Announcement>): (r: DetailPane)
    ensures r == SelectPrompt <==> selected == None
    ensures r.Details? ==> r.announcement == selected.value && r.badge == PriorityBadge(selected.value.priority)
  {
    match selected
    case None => SelectPrompt
    case Some(a) => Details(a, PriorityBadge(a.priority))
  }

  /** The Previous and Next buttons are rendered only with more than one page,
      that is, when more than one page's worth of announcements is listed. */
  function PaginationVisible(count: nat): (r: bool)
    ensures r <==> count > PageSize
    ensures r <==> PageSlice(seq(count, i => i), 2) != []
  {
    TotalPages(count) > 1
  }

  /** The page the views are computed for. */
  function VisiblePage(store: seq<Announcement>, query: string, filterPriority: string, page: int): seq<Announcement>
  {
    PageSlice(Filter(store, query, filterPriority), page)
  }

  /** A page that can be reached from the first one: the first, or one that the
      whole store fills. */
  predicate ReachablePage(store: seq<Announcement>, page: int) {
    page == 1 || 1 <= page <= TotalPages(|store|)
  }

  /** Every shown row is an announcement of the store that matches. */
  lemma VisibleRowsMatch(store: seq<Announcement>, query: string, filterPriority: string, page: int)
    ensures forall a :: a in VisiblePage(store, query, filterPriority, page) ==>
              a in store && Matches(a, query, filterPriority)
  {
    forall a | a in VisiblePage(store, query, filterPriority, page)
      ensures a in store && Matches(a, query, filterPriority)
    {
      FilterMembership(store, query, filterPriority, a);
    }
  }

  /** "There are no announcements at this time" is shown only when the store is
      empty, as long as the page is one the store can reach. */
  lemma NoAnnouncementsMessageIsHonest(store: seq<Announcement>, query: string, filterPriority: string, page: int)
    ensures ReachablePage(store, page) &&
            ListPaneFor(VisiblePage(store, query, filterPriority, page), query, filterPriority)
              == EmptyState(NoAnnouncementsAtThisTime)
            ==> store == []
  {
    if ReachablePage(store, page) && query == "" && filterPriority == AllPriorities && store != [] {
      FilterDefaultsKeepAll(store);
      PageSliceNonEmpty(store, page);
    }
  }

  /** A page past the last one shows the "match your search criteria" text as
      soon as a query or a priority is chosen, even when some announcements do
      match: the page is not clamped when the filtered list shrinks. */
  lemma StalePageShowsNoMatch(store: seq<Announcement>, query: string, filterPriority: string, page: int)
    requires page >= 1 && page > TotalPages(|Filter(store, query, filterPriority)|)
    requires query != "" || filterPriority != AllPriorities
    ensures ListPaneFor(VisiblePage(store, query, filterPriority, page), query, filterPriority)
            == EmptyState(NoMatchingAnnouncements)
  {
    PageSliceEmptyPastEnd(Filter(store, query, filterPriority), page);
  }

  /** The announcements' ids are pairwise distinct. */
  predicate UniqueIds(store: seq<Announcement>) {
    forall j, k :: 0 <= j < k < |store| ==> store[j].id != store[k].id
  }

  /** Rows are highlighted by id; with distinct ids in the store, a row of the
      store has the selected id exactly when it is the selected announcement. */
  lemma HighlightIsSelection(store: seq<Announcement>, selected: Option<Announcement>, row: Announcement)
    ensures UniqueIds(store) && (selected.Some? ==> selected.value in store) && row in store ==>
              ((selected.Some? && selected.value.id == row.id) <==> selected == Some(row))
  {
    if UniqueIds(store) && selected.Some? && selected.value in store && row in store {
      var j :| 0 <= j < |store| && store[j] == selected.value;
      var k :| 0 <= k < |store| && store[k] == row;
      assert j != k ==> store[j].id != store[k].id;
    }
  }

  /** The panel's view state over its store of announcements. */
  class ParentAnnouncements {
    const announcements: seq<Announcement>
    var searchQuery: string
    var filterPriority: string
    var currentPage: int
    var selectedAnnouncement: Option<Announcement>

    /** The store's ids are distinct, the page is at least one and reachable,
        and the selection, if any, is an announcement of the store. A valid
        page lies past the store's last page only for an empty store. */
    ghost predicate Valid()
      reads this
      ensures Valid() ==> currentPage >= 1
      ensures Valid() && announcements != [] ==> currentPage <= TotalPages(|announcements|)
    {
      && UniqueIds(announcements)
      && ReachablePage(announcements, currentPage)
      && (selectedAnnouncement.Some? ==> selectedAnnouncement.value in announcements)
    }

    /** Mounting the panel: empty query, "all", page one, nothing selected. */
    constructor (store: seq<Announcement>)
      requires UniqueIds(store)
      ensures Valid()
      ensures announcements == store
      ensures searchQuery == "" && filterPriority == AllPriorities
      ensures currentPage == 1 && selectedAnnouncement == None
    {
      announcements := store;
      searchQuery := "";
      filterPriority := AllPriorities;
      currentPage := 1;
      selectedAnnouncement := None;
    }

    function Filtered(): seq<Announcement>
      reads this
    {
      Filter(announcements, searchQuery, filterPriority)
    }

    function TotalPageCount(): nat
      reads this
    {
      TotalPages(|Filtered()|)
    }

    /** The rows of the current page: at most five, each an announcement of the
        store that matches the query and the selector. */
    function Visible(): (r: seq<Announcement>)
      reads this
      ensures currentPage >= 1 ==> |r| <= PageSize
      ensures forall a :: a in r ==> a in announcements && Matches(a, searchQuery, filterPriority)
    {
      VisibleRowsMatch(announcements, searchQuery, filterPriority, currentPage);
      VisiblePage(announcements, searchQuery, filterPriority, currentPage)
    }

    /** The list pane shows the visible rows, or an empty state whose "no
        announcements at this time" text, in a valid state, means the store is
        empty. */
    function List(): (r: ListPane)
      reads this
      ensures r.Rows? <==> Visible() != []
      ensures r.Rows? ==> r.items == Visible()
      ensures Valid() && r == EmptyState(NoAnnouncementsAtThisTime) ==> announcements == []
    {
      NoAnnouncementsMessageIsHonest(announcements, searchQuery, filterPriority, currentPage);
      ListPaneFor(Visible(), searchQuery, filterPriority)
    }

    /** The detail pane shows the selection, which in a valid state is an
        announcement of the store, or the prompt when nothing is selected. */
    function Detail(): (r: DetailPane)
      reads this
      ensures r == SelectPrompt <==> selectedAnnouncement == None
      ensures Valid() && r.Details? ==> r.announcement in announcements && selectedAnnouncement == Some(r.announcement)
    {
      DetailPaneFor(selectedAnnouncement)
    }

    /** The pagination controls are shown exactly when there is a second page
        with rows on it. */
    function ShowsPagination(): (r: bool)
      reads this
      ensures r <==> |Filtered()| > PageSize
      ensures r <==> PageSlice(Filtered(), 2) != []
    {
      PaginationVisible(|Filtered()|)
    }

    /** Previous is disabled exactly when pressing it would not move the page. */
    function PreviousDisabled(): (r: bool)
      reads this
      ensures currentPage >= 1 ==> (r <==> Max(currentPage - 1, 1) == currentPage)
    {
      currentPage == 1
    }

    /** Next is disabled exactly when pressing it would not move the page. */
    function NextDisabled(): (r: bool)
      reads this
      ensures r <==> Min(currentPage + 1, TotalPageCount()) == currentPage
    {
      currentPage == TotalPageCount()
    }

    /** A row is highlighted when its id is the selected one; in a valid state a
        visible row is highlighted exactly when it is the selected announcement. */
    function IsHighlighted(row: Announcement): (r: bool)
      reads this
      ensures Valid() && row in Visible() ==> (r <==> selectedAnnouncement == Some(row))
    {
      HighlightIsSelection(announcements, selectedAnnouncement, row);
      selectedAnnouncement.Some? && selectedAnnouncement.value.id == row.id
    }
    /** Typing in the search box replaces the query and nothing else: the page
        is not reset and the selection is kept. */
    method SetSearchQuery(query: string)
      requires Valid()
      modifies this
      ensures Valid()
      ensures searchQuery == query
      ensures filterPriority == old(filterPriority) && currentPage == old(currentPage)
      ensures selectedAnnouncement == old(selectedAnnouncement)
    {
      searchQuery := query;
    }

    /** Choosing a priority replaces the selector and nothing else. */
    method SetFilterPriority(priority: string)
      requires Valid()
      modifies this
      ensures Valid()
      ensures filterPriority == priority
      ensures searchQuery == old(searchQuery) && currentPage == old(currentPage)
      ensures selectedAnnouncement == old(selectedAnnouncement)
    {
      filterPriority := priority;
    }

    /** Clicking a row of the visible page selects exactly that announcement,
        which is then the highlighted row and the one in the detail pane. */
    method ClickAnnouncement(row: Announcement)
      requires Valid() && row in Visible()
      modifies this
      ensures Valid()
      ensures selectedAnnouncement == Some(row)
      ensures IsHighlighted(row) && Detail() == Details(row, PriorityBadge(row.priority))
      ensures searchQuery == old(searchQuery) && filterPriority == old(filterPriority)
      ensures currentPage == old(currentPage)
    {
      selectedAnnouncement := Some(row);
    }

    /** Previous moves to `max(page - 1, 1)`; on the first page, where the
        button is disabled, it changes nothing. */
    method Previous()
      requires Valid() && ShowsPagination()
      modifies this
      ensures Valid()
      ensures currentPage == Max(old(currentPage) - 1, 1)
      ensures currentPage >= 1
      ensures old(PreviousDisabled()) ==> currentPage == old(currentPage)
      ensures searchQuery == old(searchQuery) && filterPriority == old(filterPriority)
      ensures selectedAnnouncement == old(selectedAnnouncement)
    {
      currentPage := Max(currentPage - 1, 1);
    }

    /** Next moves to `min(page + 1, totalPages)`, so never past the last page;
        on the last page, where the button is disabled, it changes nothing. */
    method Next()
      requires Valid() && ShowsPagination()
      modifies this
      ensures Valid()
      ensures currentPage == Min(old(currentPage) + 1, TotalPageCount())
      ensures 1 <= currentPage <= TotalPageCount()
      ensures old(NextDisabled()) ==> currentPage == old(currentPage)
      ensures searchQuery == old(searchQuery) && filterPriority == old(filterPriority)
      ensures selectedAnnouncement == old(selectedAnnouncement)
    {
      TotalPagesMonotone(|Filtered()|, |announcements|);
      currentPage := Min(currentPage + 1, TotalPageCount());
    }
  }
}
