/** The older events table: ten events per page, pages numbered from 1,
    previous/next buttons that stop at the ends, page-number buttons that set
    the page directly, and a magnitude colour with the same thresholds as the
    sortable table.
 */
module EventsTable {
  import opened Prelude
  import opened Types
  import MuiEventsTable

  const EventsPerPage: nat := 10

  const InitialPage: int := 1

  function IndexOfLastEvent(page: int): int {
    page * EventsPerPage
  }

  function IndexOfFirstEvent(page: int): int {
    IndexOfLastEvent(page) - EventsPerPage
  }

  /** `currentEvents`: the slice of the events between the two indices. */
  function CurrentEvents(events: seq<Event>, page: int): (r: seq<Event>)
    ensures |r| <= EventsPerPage
    ensures page >= 1 ==> r == events[Min((page - 1) * EventsPerPage, |events|)..Min(page * EventsPerPage, |events|)]
  {
    var r := Slice(events, IndexOfFirstEvent(page), IndexOfLastEvent(page));
    if page >= 1 then
      SliceOfNatural(events, IndexOfFirstEvent(page), IndexOfLastEvent(page));
      r
    else r
  }

  /** `Math.ceil(events.length / 10)`. */
  function TotalPages(n: nat): (t: nat)
    ensures n <= t * EventsPerPage
    ensures t == 0 || (t - 1) * EventsPerPage < n
    ensures t == 0 <==> n == 0
  {
    (n + EventsPerPage - 1) / EventsPerPage
  }

  /** The pages `1..k` laid end to end. */
  function Pages(events: seq<Event>, k: nat): seq<Event> {
    if k == 0 then [] else Pages(events, k - 1) + CurrentEvents(events, k)
  }

  lemma {:induction false} PagesArePrefix(events: seq<Event>, k: nat)
    ensures Pages(events, k) == events[..Min(k * EventsPerPage, |events|)]
  {
    if k > 0 {
      PagesArePrefix(events, k - 1);
      var a := Min((k - 1) * EventsPerPage, |events|);
      var b := Min(k * EventsPerPage, |events|);
      assert events[..b] == events[..a] + events[a..b];
    }
  }

  /** Reading every page in turn gives back the events, in order: each event is
      on one page and no event is shown twice. */
  lemma PagesCoverEvents(events: seq<Event>)
    ensures Pages(events, TotalPages(|events|)) == events
  {
    PagesArePrefix(events, TotalPages(|events|));
  }

  /** The event at index `i` is shown on page `i / 10 + 1`, in row `i % 10`,
      and that is the only page whose window contains index `i`. */
  lemma EventOnOnePage(events: seq<Event>, i: nat)
    requires i < |events|
    ensures 1 <= i / EventsPerPage + 1 <= TotalPages(|events|)
    ensures CurrentEvents(events, i / EventsPerPage + 1)[i % EventsPerPage] == events[i]
    ensures forall p :: IndexOfFirstEvent(p) <= i < IndexOfLastEvent(p) <==> p == i / EventsPerPage + 1
  {
  }

  /** `nextPage`: advance unless already on the last page. */
  function NextPage(page: int, n: nat): (r: int)
    ensures r == page || r == page + 1
    ensures r == page + 1 <==> page < TotalPages(n)
  {
    if page < TotalPages(n) then page + 1 else page
  }

  /** `prevPage`: go back unless already on page 1. */
  function PrevPage(page: int): (r: int)
    ensures r == page || r == page - 1
    ensures r == page - 1 <==> page > 1
  {
    if page > 1 then page - 1 else page
  }

  /** `paginate`: a page-number button sets the page with no bounds check. */
  function Paginate(page: int, target: int): (r: int)
    ensures r == target
  {
    target
  }

  /** The pages a visitor can be on: `1..totalPages`, or page 1 when there
      are no events. */
  predicate InRange(page: int, n: nat) {
    1 <= page <= Max(1, TotalPages(n))
  }

  /** The previous and next buttons keep the page in range, and with no events
      the next button does nothing. */
  lemma NavigationStaysInRange(page: int, n: nat)
    requires InRange(page, n)
    ensures InRange(NextPage(page, n), n) && InRange(PrevPage(page), n)
    ensures n == 0 ==> NextPage(page, n) == page
  {
  }

  /** A page past the last one, reachable only through `paginate`, is empty. */
  lemma PastLastPageIsEmpty(events: seq<Event>, page: int)
    requires page > TotalPages(|events|)
    ensures CurrentEvents(events, page) == []
  {
  }

  /** The buttons of the pagination bar. */
  datatype Click = Previous | Next | Number(target: int)

  function Apply(page: int, click: Click, n: nat): int {
    match click
    case Previous => PrevPage(page)
    case Next => NextPage(page, n)
    case Number(target) => Paginate(page, target)
  }

  function Navigate(clicks: seq<Click>, n: nat): int {
    if |clicks| == 0 then InitialPage
    else Apply(Navigate(clicks[..|clicks| - 1], n), clicks[|clicks| - 1], n)
  }

  /** Only the rendered number buttons, `1..totalPages`, can be clicked. */
  predicate RenderedButtons(clicks: seq<Click>, n: nat) {
    forall k :: 0 <= k < |clicks| && clicks[k].Number? ==> 1 <= clicks[k].target <= TotalPages(n)
  }

  /** Whatever buttons are pressed, the table stays on a page in range, and
      that page is non-empty as soon as there are events. */
  lemma {:induction false} ClicksStayInRange(clicks: seq<Click>, n: nat, events: seq<Event>)
    requires |events| == n
    requires RenderedButtons(clicks, n)
    ensures InRange(Navigate(clicks, n), n)
    ensures n > 0 ==> |CurrentEvents(events, Navigate(clicks, n))| > 0
  {
    if |clicks| > 0 {
      var prefix := clicks[..|clicks| - 1];
      assert RenderedButtons(prefix, n) by {
        forall k | 0 <= k < |prefix| && prefix[k].Number?
          ensures 1 <= prefix[k].target <= TotalPages(n)
        {
          assert prefix[k] == clicks[k];
        }
      }
      ClicksStayInRange(prefix, n, events);
      NavigationStaysInRange(Navigate(prefix, n), n);
    }
  }

  /** The "Showing first-last of n" line. */
  function ShowingRange(page: int, n: nat): (r: (int, int))
    ensures r.1 <= n
  {
    (IndexOfFirstEvent(page) + 1, Min(IndexOfLastEvent(page), n))
  }

  /** On a page that has events, the line counts exactly the rows shown. */
  lemma ShowingMatchesRows(events: seq<Event>, page: int)
    requires 1 <= page <= TotalPages(|events|)
    ensures var r := ShowingRange(page, |events|);
      r.1 - r.0 + 1 == |CurrentEvents(events, page)| && 1 <= r.0 <= r.1
  {
  }

  /** The text colour of a magnitude cell. */
  function MagnitudeColor(mag: real): (c: string)
    ensures c == "#ff4d4f" <==> mag > 5.0
    ensures c == "#faad14" <==> 3.0 < mag <= 5.0
    ensures c == "#52c41a" <==> mag <= 3.0
  {
    if mag > 5.0 then "#ff4d4f"
    else if mag > 3.0 then "#faad14"
    else "#52c41a"
  }

  /** Both tables split magnitudes into the same three bands. */
  lemma SameBandsAsSortableTable(m1: real, m2: real)
    ensures MagnitudeColor(m1) == MagnitudeColor(m2)
            <==> MuiEventsTable.MagnitudeColor(m1) == MuiEventsTable.MagnitudeColor(m2)
  {
  }
}
