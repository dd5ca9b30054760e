/** The panel's built-in store of four announcements, used as a concrete instance. */
module MockData {
  import opened Text
  import opened Announcements
  import opened Pagination
  import opened View

  const Closure := Announcement(1, "School Closure - Weather Advisory",
    "Due to the severe weather warning, the school will remain closed tomorrow. All classes will be conducted online. Please check your email for further instructions.",
    "urgent", "May 18, 2025", "2:30 PM", "David Brown")
  const SportsDay := Announcement(2, "Annual Sports Day - Schedule Change",
    "The Annual Sports Day has been rescheduled to June 15th due to venue availability. All previously arranged activities will proceed as planned.",
    "general", "May 15, 2025", "10:15 AM", "David Brown")
  const Conference := Announcement(4, "Parent-Teacher Conference",
    "The quarterly parent-teacher conferences will be held on June 5th and 6th. Please sign up for a time slot through the parent portal.",
    "general", "May 8, 2025", "4:45 PM", "David Brown")
  const Ceremony := Announcement(5, "End of Year Ceremony",
    "The end of year ceremony will be held on June 20th at 10:00 AM in the school auditorium. All students and parents are invited to attend.",
    "general", "May 5, 2025", "4:45 PM", "David Brown")

  const Store: seq<Announcement> := [Closure, SportsDay, Conference, Ceremony]

  /** The store's ids are distinct, so a highlighted row is the selected one. */
  lemma StoreHasUniqueIds()
    ensures UniqueIds(Store)
  {
  }

  /** Whatever the query and the selector, the store fits on one page, so the
      pagination controls never appear for it. */
  lemma StoreFitsOnePage(query: string, filterPriority: string)
    ensures TotalPages(|Filter(Store, query, filterPriority)|) <= 1
    ensures !PaginationVisible(|Filter(Store, query, filterPriority)|)
  {
    TotalPagesMonotone(|Filter(Store, query, filterPriority)|, |Store|);
  }

  /** With the defaults the whole store is listed on its single page. */
  lemma DefaultsListWholeStore()
    ensures TotalPages(|Store|) == 1
    ensures VisiblePage(Store, "", AllPriorities, 1) == Store
  {
    FilterDefaultsKeepAll(Store);
  }

  /** The "urgent" selector lists only the closure notice (id 1). */
  lemma UrgentListsOnlyClosure()
    ensures Filter(Store, "", "urgent") == [Closure]
  {
    assert Store[1..] == [SportsDay, Conference, Ceremony];
    FilterNoneMatching(Store[1..], "", "urgent");
  }

  /** The query "Weather", in any mix of case, lists the closure notice. */
  lemma WeatherListsClosure(query: string)
    requires Lower(query) == "weather"
    ensures Closure in Filter(Store, query, AllPriorities)
  {
    var title := Lower(Closure.title);
    assert title[17..24] == "weather";
    assert OccursAt(title, Lower(query), 17);
    IncludesIff(title, Lower(query));
    FilterMembership(Store, query, AllPriorities, Closure);
  }

  /** Selecting the closure notice and then typing a query longer than every
      title and content, which lists nothing, keeps the notice in the detail pane. */
  method SelectionSurvivesSearch() returns (detail: DetailPane, list: ListPane)
    ensures detail == Details(Closure, UrgentBadge)
    ensures list == EmptyState(NoMatchingAnnouncements)
  {
    StoreHasUniqueIds();
    var panel := new ParentAnnouncements(Store);
    DefaultsListWholeStore();
    panel.ClickAnnouncement(Closure);
    var query := Closure.content + Closure.content;
    panel.SetSearchQuery(query);
    assert forall a :: a in Store ==> !Matches(a, query, AllPriorities);
    FilterNoneMatching(Store, query, AllPriorities);
    detail, list := panel.Detail(), panel.List();
  }

  /** Six announcements: moving to page two and then typing a query that lists
      one of them leaves the panel on an empty page two, with no pagination
      controls, telling that nothing matches. */
  method StalePageAfterSearch() returns (matching: nat, list: ListPane, controls: bool)
    ensures matching == 1
    ensures list == EmptyState(NoMatchingAnnouncements)
    ensures !controls
  {
    var x := Announcement(10, "x", "", "general", "", "", "");
    var others := seq(5, k => Announcement(11 + k, "y", "", "general", "", "", ""));
    var store := [x] + others;
    var panel := new ParentAnnouncements(store);
    FilterDefaultsKeepAll(store);
    panel.Next();
    panel.SetSearchQuery("x");
    assert Lower("x") == "x" && Lower("y") == "y" && Lower("") == "";
    assert "x"[0] == 'x' && "y"[0] == 'y' && "y"[1..] == "";
    assert !Includes("y", "x") && !Includes("", "x");
    assert Matches(x, "x", AllPriorities);
    assert forall a :: a in others ==> !Matches(a, "x", AllPriorities);
    FilterNoneMatching(others, "x", AllPriorities);
    assert panel.Filtered() == [x];
    matching, list, controls := |panel.Filtered()|, panel.List(), panel.ShowsPagination();
  }
}
