/**
 The list screen: the loaded records, the current page, the sort choice,
 and the four user actions on them (header click, page controls, export,
 clear all). What is drawn is the current page, sorted on its own.
 */
module ListView {
  import opened Text
  import opened Records
  import opened Validation
  import opened Saving
  import opened Paging
  import opened Sorting
  import opened Export

  datatype ListState = ListState(runs: seq<Show>, store: Store, page: int, sort: SortConfig)

  /** Opening the screen: the stored list (empty when the key is absent), page 1, no sort. */
  function Mount(st: Store): (s: ListState)
    ensures s.page == 1 && s.sort == InitialSort
    ensures s.runs == Load(st)
  {
    ListState(Load(st), st, 1, InitialSort)
  }

  /** A list opened after a successful save shows the old records, then the new one last. */
  lemma MountAfterSave(c: Candidate, st: Store, savedAt: string)
    requires Save(c, st, savedAt).Saved?
    ensures var runs := Mount(Save(c, st, savedAt).store).runs;
      && |runs| == |Mount(st).runs| + 1
      && runs[..|Mount(st).runs|] == Mount(st).runs
      && runs[|runs| - 1] == NewShow(c, |Mount(st).runs| + 1, savedAt)
  {
    var o := Save(c, st, savedAt);
    var shows, written := Load(st), o.store.value;
    assert Mount(st).runs == shows;
    assert Mount(o.store).runs == written;
    assert |written| == |shows| + 1 && written[|shows|] == NewShow(c, |shows| + 1, savedAt);
  }

  // ---------------------------------------------------------------------
  // Sorting

  /** Only these four headers respond to a click. */
  predicate Clickable(k: SortKey)
  {
    k == ShowIdKey || k == MovieTitleKey || k == TheaterKey || k == ShowDateKey
  }

  function ClickHeader(s: ListState, k: SortKey): (r: ListState)
    ensures Clickable(k) ==> r.sort == Toggle(s.sort, k)
    ensures !Clickable(k) ==> r == s
    ensures r.runs == s.runs && r.store == s.store && r.page == s.page
  {
    if Clickable(k) then s.(sort := Toggle(s.sort, k)) else s
  }

  /**
   The rows drawn: the current page's slice, left alone when no column is
   chosen and otherwise stably sorted by the chosen column. Sorting never
   brings a record in from another page.
   */
  function CurrentRuns(runs: seq<Show>, page: int, cfg: SortConfig): (r: seq<Show>)
    requires cfg.key.Some? ==> AllComparable(cfg.key.value, PageSlice(runs, page))
    ensures multiset(r) == multiset(PageSlice(runs, page))
    ensures cfg.key.None? ==> r == PageSlice(runs, page)
    ensures cfg.key.Some? ==>
      && AllComparable(cfg.key.value, r)
      && StableSortOf(cfg.key.value, cfg.direction, PageSlice(runs, page), r)
  {
    var pageRuns := PageSlice(runs, page);
    match cfg.key
    case None => pageRuns
    case Some(k) =>
      SortIsTheStableSort(k, cfg.direction, pageRuns, pageRuns);
      SortBy(k, cfg.direction, pageRuns)
  }

  /** The drawn rows are the only sorted, stable arrangement of the page. */
  lemma CurrentRunsUnique(runs: seq<Show>, page: int, cfg: SortConfig, r: seq<Show>)
    requires cfg.key.Some?
    requires AllComparable(cfg.key.value, PageSlice(runs, page)) && AllComparable(cfg.key.value, r)
    ensures StableSortOf(cfg.key.value, cfg.direction, PageSlice(runs, page), r) <==> r == CurrentRuns(runs, page, cfg)
  {
    SortIsTheStableSort(cfg.key.value, cfg.direction, PageSlice(runs, page), r);
  }

  /** Every record of a sortable list is sortable on any page. */
  lemma PageComparable(k: SortKey, runs: seq<Show>, page: int)
    requires AllComparable(k, runs)
    ensures AllComparable(k, PageSlice(runs, page))
  {
    var p := PageSlice(runs, page);
    forall i | 0 <= i < |p|
      ensures Comparable(k, p[i])
    {
      assert p[i] in multiset(p);
      var j := ClampIndex((page - 1) * PageSize, |runs|);
      assert p[i] == runs[j + i];
    }
  }

  /** A save writes only records whose show date parses, so a list built by saves can always be sorted by date. */
  lemma SaveKeepsDatesSortable(c: Candidate, st: Store, savedAt: string)
    requires AllComparable(ShowDateKey, Load(st))
    requires Save(c, st, savedAt).Saved?
    ensures AllComparable(ShowDateKey, Load(Save(c, st, savedAt).store))
  {
    var shows := Load(st);
    var s := NewShow(c, |shows| + 1, savedAt);
    SavedIsAppend(c, st, savedAt);
    AcceptedDateParses(c, shows);
    AppendKeepsComparable(ShowDateKey, shows, s);
  }

  lemma AppendKeepsComparable(k: SortKey, shows: seq<Show>, s: Show)
    requires AllComparable(k, shows) && Comparable(k, s)
    ensures AllComparable(k, Append(shows, s))
  {
    var w := Append(shows, s);
    forall i | 0 <= i < |w|
      ensures Comparable(k, w[i])
    {
      if i < |shows| {
        assert w[i] == w[..|shows|][i];
      }
    }
  }

  // ---------------------------------------------------------------------
  // Page controls

  datatype PageAction = Previous | GoTo(target: int) | Next

  /** The controls are drawn only with more than one page; Previous is disabled on page 1 and Next on the last page. */
  predicate Enabled(s: ListState, a: PageAction)
  {
    var total := TotalPages(|s.runs|);
    && total > 1
    && match a
       case Previous => s.page != 1
       case GoTo(p) => 1 <= p <= total
       case Next => s.page != total
  }

  function Press(s: ListState, a: PageAction): (r: ListState)
    ensures r.runs == s.runs && r.store == s.store && r.sort == s.sort
    ensures !Enabled(s, a) ==> r == s
    ensures Enabled(s, a) && a.GoTo? ==> r.page == a.target
  {
    if !Enabled(s, a) then s
    else match a
      case Previous => s.(page := s.page - 1)
      case GoTo(p) => s.(page := p)
      case Next => s.(page := s.page + 1)
  }

  /** Page 1 always, any page up to the last otherwise. */
  predicate PageInBounds(s: ListState)
  {
    s.page == 1 || 1 <= s.page <= TotalPages(|s.runs|)
  }

  /** The page controls never lead outside the pages that exist. */
  lemma PressKeepsPageInBounds(s: ListState, a: PageAction)
    requires PageInBounds(s)
    ensures PageInBounds(Press(s, a))
    ensures Enabled(s, a) && a.Next? ==> Press(s, a).page == s.page + 1
    ensures Enabled(s, a) && a.Previous? ==> Press(s, a).page == s.page - 1
    ensures Enabled(s, a) && a.GoTo? ==> Press(s, a).page == a.target
  {
  }

  /** On a page the controls can reach, a non-empty list always shows between one and ten rows. */
  lemma VisiblePageFilled(s: ListState)
    requires PageInBounds(s) && |s.runs| > 0
    ensures 1 <= |PageSlice(s.runs, s.page)| <= PageSize
  {
    Paging.PageInRange(s.runs, s.page);
  }

  // ---------------------------------------------------------------------
  // Export and clear all

  /** The export button: the file text, or nothing for an empty list. */
  function ExportList(s: ListState): (r: Option<string>)
    ensures r.None? <==> |s.runs| == 0
    ensures r.Some? ==> Split(r.value, '\n')[0] == HeaderLine
    ensures r.Some? ==> |Split(r.value, '\n')| >= |s.runs| + 1
    ensures r.Some? && (forall i :: 0 <= i < |s.runs| ==> SingleLine(s.runs[i])) ==>
      Split(r.value, '\n') == [HeaderLine] + Rows(s.runs)
    ensures r.Some? && (forall i :: 0 <= i < |s.runs| ==> Plain(s.runs[i])) ==>
      DecodeCsv(r.value) == Some(ExportedAll(s.runs))
  {
    var r := ExportCsv(s.runs);
    if r.Some? then
      ExportLinesAtLeast(s.runs);
      if forall i :: 0 <= i < |s.runs| ==> SingleLine(s.runs[i]) then
        ExportSplitsIntoLines(s.runs);
        if forall i :: 0 <= i < |s.runs| ==> Plain(s.runs[i]) then
          ExportRoundTrip(s.runs);
          r
        else r
      else r
    else r
  }

  /** Whatever the fields hold, the exported text starts with the header and has at least one line per record. */
  lemma ExportLinesAtLeast(runs: seq<Show>)
    requires |runs| > 0
    ensures Split(ExportCsv(runs).value, '\n')[0] == HeaderLine
    ensures |Split(ExportCsv(runs).value, '\n')| >= |runs| + 1
  {
    var lines := Lines(runs);
    HeaderSingleLine();
    CountJoin(lines, '\n', 0);
    HeaderFirst(lines);
  }

  /** A first part without the separator is what splitting the joined text gives first. */
  lemma HeaderFirst(lines: seq<string>)
    requires |lines| > 0 && '\n' !in lines[0]
    ensures Split(Join(lines, "\n"), '\n')[0] == lines[0]
  {
    if |lines| == 1 {
      SplitWhole(lines[0], '\n');
    } else {
      SplitPeel(lines[0], '\n', Join(lines[1..], "\n"));
      assert Join(lines, "\n") == lines[0] + ['\n'] + Join(lines[1..], "\n");
    }
  }

  /** Clear all: on confirmation the store key is removed, the list emptied and page 1 shown; otherwise nothing changes. */
  function ClearAll(s: ListState, confirmed: bool): (r: ListState)
    ensures !confirmed ==> r == s
    ensures confirmed ==> r.runs == [] && r.store.None? && r.page == 1
    ensures r.sort == s.sort
  {
    if confirmed then s.(runs := [], store := None, page := 1) else s
  }

  /** Clearing twice is clearing once, and a cleared list has nothing to draw, export or reload. */
  lemma ClearAllSettles(s: ListState, confirmed: bool)
    ensures ClearAll(ClearAll(s, confirmed), confirmed) == ClearAll(s, confirmed)
    ensures confirmed ==>
      var r := ClearAll(s, true);
      && PageInBounds(r)
      && TotalPages(|r.runs|) == 0
      && ExportList(r).None?
      && Mount(r.store).runs == []
      && forall a :: Press(r, a) == r
  {
  }

  /** The Clear All button is disabled while the list is empty. */
  predicate ClearEnabled(s: ListState)
  {
    |s.runs| > 0
  }

  /** A press of the Clear All button: the handler runs only when the button is enabled. */
  function PressClearAll(s: ListState, confirmed: bool): (r: ListState)
    ensures !ClearEnabled(s) || !confirmed ==> r == s
    ensures ClearEnabled(s) && confirmed ==> r.runs == [] && r.store.None? && r.page == 1 && !ClearEnabled(r)
    ensures r.sort == s.sort
  {
    if ClearEnabled(s) then ClearAll(s, confirmed) else s
  }

  /** After a confirmed clear the button is disabled, so pressing it again changes nothing. */
  lemma ClearButtonSettles(s: ListState, confirmed: bool)
    ensures PressClearAll(PressClearAll(s, true), confirmed) == PressClearAll(s, true)
  {
  }

  // ---------------------------------------------------------------------
  // Worked example: three records with ids 3, 1, 2 on one page

  function Sample(id: int): Show
  {
    Show(id, "01/07/2024", "18:00", "Dune", "Theater 1", false, false, "", "t")
  }

  function Ids(shows: seq<Show>): seq<int>
  {
    seq(|shows|, i requires 0 <= i < |shows| => shows[i].showId)
  }

  lemma SortAscExample()
    ensures SortBy(ShowIdKey, Asc, [Sample(3), Sample(1), Sample(2)]) == [Sample(1), Sample(2), Sample(3)]
  {
    var k, d := ShowIdKey, Asc;
    assert [Sample(3), Sample(1), Sample(2)][1..] == [Sample(1), Sample(2)];
    assert [Sample(1), Sample(2)][1..] == [Sample(2)];
    assert SortBy(k, d, [Sample(2)]) == [Sample(2)];
    InsertOneBeforeTwo();
    InsertThreeLast();
  }

  lemma InsertOneBeforeTwo()
    ensures Insert(ShowIdKey, Asc, Sample(1), [Sample(2)]) == [Sample(1), Sample(2)]
  {
  }

  lemma InsertThreeLast()
    ensures Insert(ShowIdKey, Asc, Sample(3), [Sample(1), Sample(2)]) == [Sample(1), Sample(2), Sample(3)]
  {
    var k, d := ShowIdKey, Asc;
    assert [Sample(1), Sample(2)][1..] == [Sample(2)];
    assert [Sample(2)][1..] == [];
    assert Insert(k, d, Sample(3), []) == [Sample(3)];
    assert Insert(k, d, Sample(3), [Sample(2)]) == [Sample(2), Sample(3)];
  }

  lemma SortDescExample()
    ensures SortBy(ShowIdKey, Desc, [Sample(3), Sample(1), Sample(2)]) == [Sample(3), Sample(2), Sample(1)]
  {
    var k, d := ShowIdKey, Desc;
    assert [Sample(3), Sample(1), Sample(2)][1..] == [Sample(1), Sample(2)];
    assert [Sample(1), Sample(2)][1..] == [Sample(2)];
    assert SortBy(k, d, [Sample(2)]) == [Sample(2)];
    InsertOneAfterTwo();
    InsertThreeFirst();
  }

  lemma InsertOneAfterTwo()
    ensures Insert(ShowIdKey, Desc, Sample(1), [Sample(2)]) == [Sample(2), Sample(1)]
  {
    var k, d := ShowIdKey, Desc;
    assert [Sample(2)][1..] == [];
    assert Insert(k, d, Sample(1), []) == [Sample(1)];
  }

  lemma InsertThreeFirst()
    ensures Insert(ShowIdKey, Desc, Sample(3), [Sample(2), Sample(1)]) == [Sample(3), Sample(2), Sample(1)]
  {
  }

  /** One click on Schedule ID shows 1, 2, 3; a second click shows 3, 2, 1. */
  lemma SortByIdExample()
    ensures var s := Mount(Some([Sample(3), Sample(1), Sample(2)]));
      var once := ClickHeader(s, ShowIdKey);
      var twice := ClickHeader(once, ShowIdKey);
      && once.sort == SortConfig(Some(ShowIdKey), Asc)
      && twice.sort == SortConfig(Some(ShowIdKey), Desc)
      && Ids(CurrentRuns(once.runs, once.page, once.sort)) == [1, 2, 3]
      && Ids(CurrentRuns(twice.runs, twice.page, twice.sort)) == [3, 2, 1]
  {
    var runs := [Sample(3), Sample(1), Sample(2)];
    var asc, desc := SortConfig(Some(ShowIdKey), Asc), SortConfig(Some(ShowIdKey), Desc);
    var once := ListState(runs, Some(runs), 1, asc);
    assert ClickHeader(Mount(Some(runs)), ShowIdKey) == once;
    assert ClickHeader(once, ShowIdKey) == once.(sort := desc);
    assert PageSlice(runs, 1) == runs by { assert runs[0..3] == runs; }
    SortAscExample();
    SortDescExample();
    assert CurrentRuns(runs, 1, asc) == [Sample(1), Sample(2), Sample(3)];
    assert CurrentRuns(runs, 1, desc) == [Sample(3), Sample(2), Sample(1)];
    IdsExample();
  }

  lemma IdsExample()
    ensures Ids([Sample(1), Sample(2), Sample(3)]) == [1, 2, 3]
    ensures Ids([Sample(3), Sample(2), Sample(1)]) == [3, 2, 1]
  {
  }
}
