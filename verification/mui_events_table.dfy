/** The sortable, paginated events table: its view state (page, rows per
    page, sort column, sort direction), the header-click rule, the sort
    comparator, the visible page of rows, and the magnitude colour.

    The JavaScript sort is specified only by its result: a permutation of the
    events, ordered under the table's comparator. It is modelled here as an
    insertion sort.
 */
module MuiEventsTable {
  import opened Prelude
  import opened Types

  /** `keyof SeismicEvent`: the column a table can be ordered by. */
  datatype Column = Id | Time | Lat | Lon | Depth | Mag | Magtype | Region | Auth

  datatype Direction = Asc | Desc

  datatype TableState = TableState(page: nat, rowsPerPage: nat, orderBy: Column, order: Direction)

  /** Page 0, ten rows per page, sorted by `time` descending. */
  const InitialTable: TableState := TableState(0, 10, Time, Desc)

  /** `handleRequestSort`: a click on the column sorted ascending turns it
      descending; every other click sorts the clicked column ascending. */
  function RequestSort(st: TableState, col: Column): (r: TableState)
    ensures r.orderBy == col
    ensures r.order == Desc <==> st.orderBy == col && st.order == Asc
    ensures r.page == st.page && r.rowsPerPage == st.rowsPerPage
  {
    var isAsc := st.orderBy == col && st.order == Asc;
    st.(order := if isAsc then Desc else Asc, orderBy := col)
  }

  /** Clicking one header again and again alternates the direction, starting
      ascending unless that column was already ascending. */
  lemma {:induction false} RepeatedClicksAlternate(st: TableState, col: Column)
    ensures RequestSort(RequestSort(st, col), col).order != RequestSort(st, col).order
    ensures st.orderBy != col ==> RequestSort(st, col).order == Asc
    ensures RequestSort(RequestSort(RequestSort(st, col), col), col).order == RequestSort(st, col).order
  {
  }

  /** JavaScript's `<` on the values of one column. */
  predicate Less(col: Column, a: Event, b: Event) {
    match col
    case Id => StrLess(a.id, b.id)
    case Time => StrLess(a.time, b.time)
    case Lat => a.lat < b.lat
    case Lon => a.lon < b.lon
    case Depth => a.depth < b.depth
    case Mag => a.mag < b.mag
    case Magtype => StrLess(a.magtype, b.magtype)
    case Region => StrLess(a.region, b.region)
    case Auth => StrLess(a.auth, b.auth)
  }

  lemma LessIsStrictOrder(col: Column, a: Event, b: Event, c: Event)
    ensures !Less(col, a, a)
    ensures Less(col, a, b) ==> !Less(col, b, a)
    ensures Less(col, a, b) && Less(col, b, c) ==> Less(col, a, c)
  {
    match col
    case Id =>
      StrLessIrreflexive(a.id);
      if Less(col, a, b) { StrLessAsymmetric(a.id, b.id); }
      if Less(col, a, b) && Less(col, b, c) { StrLessTransitive(a.id, b.id, c.id); }
    case Time =>
      StrLessIrreflexive(a.time);
      if Less(col, a, b) { StrLessAsymmetric(a.time, b.time); }
      if Less(col, a, b) && Less(col, b, c) { StrLessTransitive(a.time, b.time, c.time); }
    case Magtype =>
      StrLessIrreflexive(a.magtype);
      if Less(col, a, b) { StrLessAsymmetric(a.magtype, b.magtype); }
      if Less(col, a, b) && Less(col, b, c) { StrLessTransitive(a.magtype, b.magtype, c.magtype); }
    case Region =>
      StrLessIrreflexive(a.region);
      if Less(col, a, b) { StrLessAsymmetric(a.region, b.region); }
      if Less(col, a, b) && Less(col, b, c) { StrLessTransitive(a.region, b.region, c.region); }
    case Auth =>
      StrLessIrreflexive(a.auth);
      if Less(col, a, b) { StrLessAsymmetric(a.auth, b.auth); }
      if Less(col, a, b) && Less(col, b, c) { StrLessTransitive(a.auth, b.auth, c.auth); }
    case _ =>
  }

  /** Two events neither of which is below the other in a column carry the
      same value there, so each compares with a third event alike. */
  lemma IncomparableAreAlike(col: Column, a: Event, b: Event, c: Event)
    requires !Less(col, a, b) && !Less(col, b, a)
    ensures Less(col, c, a) <==> Less(col, c, b)
    ensures Less(col, a, c) <==> Less(col, b, c)
  {
    match col
    case Id => StrLessTotal(a.id, b.id);
    case Time => StrLessTotal(a.time, b.time);
    case Magtype => StrLessTotal(a.magtype, b.magtype);
    case Region => StrLessTotal(a.region, b.region);
    case Auth => StrLessTotal(a.auth, b.auth);
    case _ =>
  }

  /** The comparator handed to `sort`: negative when `a` goes first. */
  function Compare(col: Column, dir: Direction, a: Event, b: Event): (r: int)
    ensures r == -1 || r == 0 || r == 1
    ensures r < 0 <==> (dir == Asc && Less(col, a, b)) || (dir == Desc && Less(col, b, a))
    ensures r > 0 <==> (dir == Asc && Less(col, b, a)) || (dir == Desc && Less(col, a, b))
    ensures r == 0 <==> !Less(col, a, b) && !Less(col, b, a)
  {
    LessIsStrictOrder(col, a, b, b);
    var sign := match dir case Asc => 1 case Desc => -1;
    if Less(col, a, b) then -sign
    else if Less(col, b, a) then sign
    else 0
  }

  /** The comparator is consistent, as `Array.prototype.sort` demands:
      swapping the arguments negates it, and "goes no later than" is
      transitive. */
  lemma {:induction false} CompareIsConsistent(col: Column, dir: Direction, a: Event, b: Event, c: Event)
    ensures Compare(col, dir, a, b) == -Compare(col, dir, b, a)
    ensures Compare(col, dir, a, b) <= 0 && Compare(col, dir, b, c) <= 0 ==> Compare(col, dir, a, c) <= 0
  {
    LessIsStrictOrder(col, a, b, c);
    LessIsStrictOrder(col, b, a, c);
    LessIsStrictOrder(col, c, a, b);
    LessIsStrictOrder(col, b, c, a);
    LessIsStrictOrder(col, a, c, b);
    LessIsStrictOrder(col, c, b, a);
    if !Less(col, a, b) && !Less(col, b, a) {
      IncomparableAreAlike(col, a, b, c);
    }
    if !Less(col, b, c) && !Less(col, c, b) {
      IncomparableAreAlike(col, b, c, a);
    }
  }

  /** Every pair of events in `s` is in the comparator's order. */
  predicate Ordered(s: seq<Event>, col: Column, dir: Direction) {
    forall i, j :: 0 <= i < j < |s| ==> Compare(col, dir, s[i], s[j]) <= 0
  }

  /** One pair of an ordered sequence, read back in terms of the column. */
  lemma OrderedPair(s: seq<Event>, col: Column, dir: Direction, i: nat, j: nat)
    requires Ordered(s, col, dir) && i < j < |s|
    ensures dir == Asc ==> !Less(col, s[j], s[i])
    ensures dir == Desc ==> !Less(col, s[i], s[j])
  {
    assert Compare(col, dir, s[i], s[j]) <= 0;
    LessIsStrictOrder(col, s[i], s[j], s[j]);
  }

  function Insert(e: Event, s: seq<Event>, col: Column, dir: Direction): (r: seq<Event>)
    requires Ordered(s, col, dir)
    ensures multiset(r) == multiset(s) + multiset{e}
    ensures Ordered(r, col, dir)
  {
    if |s| == 0 then [e]
    else if Compare(col, dir, e, s[0]) <= 0 then
      InsertFront(e, s, col, dir);
      [e] + s
    else
      var rest := Insert(e, s[1..], col, dir);
      InsertAfter(e, s, rest, col, dir);
      [s[0]] + rest
  }

  lemma InsertFront(e: Event, s: seq<Event>, col: Column, dir: Direction)
    requires Ordered(s, col, dir) && |s| > 0 && Compare(col, dir, e, s[0]) <= 0
    ensures Ordered([e] + s, col, dir)
  {
    var r := [e] + s;
    forall i, j | 0 <= i < j < |r|
      ensures Compare(col, dir, r[i], r[j]) <= 0
    {
      if i == 0 && j > 1 {
        CompareIsConsistent(col, dir, e, s[0], s[j - 1]);
      }
    }
  }

  lemma InsertAfter(e: Event, s: seq<Event>, rest: seq<Event>, col: Column, dir: Direction)
    requires Ordered(s, col, dir) && |s| > 0 && Compare(col, dir, e, s[0]) > 0
    requires Ordered(rest, col, dir)
    requires multiset(rest) == multiset(s[1..]) + multiset{e}
    ensures Ordered([s[0]] + rest, col, dir)
    ensures multiset([s[0]] + rest) == multiset(s) + multiset{e}
  {
    var r := [s[0]] + rest;
    forall j | 0 <= j < |rest|
      ensures Compare(col, dir, s[0], rest[j]) <= 0
    {
      HeadGoesFirst(e, s, rest, col, dir, j);
    }
    forall i, j | 0 <= i < j < |r|
      ensures Compare(col, dir, r[i], r[j]) <= 0
    {
      if i > 0 {
        assert r[i] == rest[i - 1] && r[j] == rest[j - 1];
      }
    }
    assert s == [s[0]] + s[1..];
  }

  /** Every element of `rest`, whether `e` or one of `s[1..]`, goes no
      earlier than `s[0]`. */
  lemma HeadGoesFirst(e: Event, s: seq<Event>, rest: seq<Event>, col: Column, dir: Direction, j: nat)
    requires Ordered(s, col, dir) && |s| > 0 && Compare(col, dir, e, s[0]) > 0
    requires multiset(rest) == multiset(s[1..]) + multiset{e}
    requires j < |rest|
    ensures Compare(col, dir, s[0], rest[j]) <= 0
  {
    assert rest[j] in multiset(rest);
    if rest[j] == e {
      CompareIsConsistent(col, dir, e, s[0], e);
    } else {
      assert rest[j] in multiset(s[1..]);
      var k :| 0 <= k < |s[1..]| && s[1..][k] == rest[j];
      assert s[k + 1] == rest[j];
    }
  }

  /** `[...events].sort(comparator)`: a sorted copy; the input is untouched. */
  function SortEvents(events: seq<Event>, col: Column, dir: Direction): (r: seq<Event>)
    ensures multiset(r) == multiset(events)
    ensures |r| == |events|
    ensures Ordered(r, col, dir)
  {
    if |events| == 0 then []
    else
      var sorted := SortEvents(events[1..], col, dir);
      assert events == [events[0]] + events[1..];
      Insert(events[0], sorted, col, dir)
  }

  /** Ascending leaves the column's values non-decreasing down the table,
      descending leaves them non-increasing. */
  lemma SortedByColumn(events: seq<Event>, col: Column, dir: Direction)
    ensures var r := SortEvents(events, col, dir);
      dir == Asc ==> forall i, j :: 0 <= i < j < |r| ==> !Less(col, r[j], r[i])
    ensures var r := SortEvents(events, col, dir);
      dir == Desc ==> forall i, j :: 0 <= i < j < |r| ==> !Less(col, r[i], r[j])
  {
    var r := SortEvents(events, col, dir);
    forall i, j | 0 <= i < j < |r|
      ensures dir == Asc ==> !Less(col, r[j], r[i])
      ensures dir == Desc ==> !Less(col, r[i], r[j])
    {
      OrderedPair(r, col, dir, i, j);
    }
  }

  /** `handleChangePage`. */
  function ChangePage(st: TableState, newPage: nat): (r: TableState)
    ensures r.page == newPage
    ensures r.rowsPerPage == st.rowsPerPage && r.orderBy == st.orderBy && r.order == st.order
  {
    st.(page := newPage)
  }

  /** `handleChangeRowsPerPage`, with the selected option already parsed. */
  function ChangeRowsPerPage(st: TableState, rows: nat): (r: TableState)
    ensures r.page == 0 && r.rowsPerPage == rows
    ensures r.orderBy == st.orderBy && r.order == st.order
  {
    st.(rowsPerPage := rows, page := 0)
  }

  /** Index of the first row on the table's current page. */
  function PageStart(st: TableState): nat {
    st.page * st.rowsPerPage
  }

  /** `visibleRows`: the current page of the sorted events. */
  function VisibleRows(sorted: seq<Event>, st: TableState): (r: seq<Event>)
    ensures |r| == Min(st.rowsPerPage, Max(0, |sorted| - PageStart(st)))
    ensures |r| <= st.rowsPerPage
    ensures forall k :: 0 <= k < |r| ==> r[k] == sorted[PageStart(st) + k]
    ensures multiset(r) <= multiset(sorted)
  {
    var start := PageStart(st);
    SliceWindow(sorted, start, st.rowsPerPage);
    SliceWithin(sorted, start, start + st.rowsPerPage);
    Slice(sorted, start, start + st.rowsPerPage)
  }

  /** The rows the table body shows: the visible page of the sorted copy.
      Every row shown is one of the events. */
  function DisplayedRows(events: seq<Event>, st: TableState): (r: seq<Event>)
    ensures |r| == Min(st.rowsPerPage, Max(0, |events| - PageStart(st)))
    ensures multiset(r) <= multiset(events)
  {
    VisibleRows(SortEvents(events, st.orderBy, st.order), st)
  }

  /** After choosing a page size the table shows the first rows of the sorted
      events, whatever page it was on. */
  lemma ResizeShowsFirstPage(events: seq<Event>, st: TableState, rows: nat)
    ensures DisplayedRows(events, ChangeRowsPerPage(st, rows))
              == SortEvents(events, st.orderBy, st.order)[..Min(rows, |events|)]
  {
  }

  /** Freshly mounted, the table shows the first ten events in descending
      string order of `time`. */
  lemma InitialShowsLatestTen(events: seq<Event>)
    ensures var r := DisplayedRows(events, InitialTable);
      && |r| == Min(10, |events|)
      && forall i, j :: 0 <= i < j < |r| ==> !StrLess(r[i].time, r[j].time)
  {
    var sorted := SortEvents(events, Time, Desc);
    SortedByColumn(events, Time, Desc);
    assert DisplayedRows(events, InitialTable) == sorted[..Min(10, |events|)];
  }

  /** The theme colour of a magnitude cell. */
  datatype Palette = SuccessDark | WarningDark | ErrorDark

  function MagnitudeColor(mag: real): (c: Palette)
    ensures c == ErrorDark <==> mag > 5.0
    ensures c == WarningDark <==> 3.0 < mag <= 5.0
    ensures c == SuccessDark <==> mag <= 3.0
  {
    if mag > 5.0 then ErrorDark
    else if mag > 3.0 then WarningDark
    else SuccessDark
  }

  function Severity(c: Palette): nat {
    match c
    case SuccessDark => 0
    case WarningDark => 1
    case ErrorDark => 2
  }

  /** A larger magnitude never gets a milder colour. */
  lemma MagnitudeColorMonotone(m1: real, m2: real)
    requires m1 <= m2
    ensures Severity(MagnitudeColor(m1)) <= Severity(MagnitudeColor(m2))
  {
  }
}
