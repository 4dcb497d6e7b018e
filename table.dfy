/** The state of an orders page (`sortField`, `sortDirection`,
    `statusFilter`), the column-header click handler `handleSort`, the arrow
    shown in the sorted column's header, and the rows the page displays. */
module OrderTable {
  import opened Orders
  import opened OrderView
  import Lex

  /** The two variables that `handleSort` updates. */
  datatype SortState = SortState(field: Field, direction: Direction)

  function Flip(direction: Direction): (r: Direction)
    ensures r != direction
  {
    if direction == Asc then Desc else Asc
  }

  /** The sort state after a click on a column header. */
  function AfterClick(s: SortState, clicked: Field): (r: SortState)
    ensures r.field == clicked
  {
    if clicked == s.field then SortState(s.field, Flip(s.direction))
    else SortState(clicked, Asc)
  }

  /** A click on the sorted column keeps the column and reverses the
      direction; a second click restores the state. */
  lemma SameColumnToggles(s: SortState)
    ensures AfterClick(s, s.field).field == s.field
    ensures AfterClick(s, s.field).direction != s.direction
    ensures AfterClick(AfterClick(s, s.field), s.field) == s
  {
  }

  /** A click on another column sorts by it, ascending. */
  lemma OtherColumnSortsAscending(s: SortState, clicked: Field)
    requires clicked != s.field
    ensures AfterClick(s, clicked) == SortState(clicked, Asc)
  {
  }

  /** The state after `n` clicks on one column. */
  function Clicks(s: SortState, column: Field, n: nat): (r: SortState)
  {
    if n == 0 then s else AfterClick(Clicks(s, column, n - 1), column)
  }

  /** Clicking a column that is not the sorted one `n` times sorts by it,
      ascending after an odd number of clicks and descending after an even one. */
  lemma {:induction false} RepeatedClicksAlternate(s: SortState, column: Field, n: nat)
    requires column != s.field && n > 0
    ensures Clicks(s, column, n) == SortState(column, if n % 2 == 1 then Asc else Desc)
  {
    if n > 1 {
      RepeatedClicksAlternate(s, column, n - 1);
    }
  }

  const Up: string := "\U{2191}"
  const Down: string := "\U{2193}"

  /** The header arrow: `sortField === column && (asc ? Up : Down)`, which
      renders nothing in the other columns. */
  function Arrow(s: SortState, column: Field): (r: string)
    ensures r != "" <==> column == s.field
    ensures r == Up <==> column == s.field && s.direction == Asc
    ensures r == Down <==> column == s.field && s.direction == Desc
  {
    assert Up[0] != Down[0];
    if column != s.field then ""
    else if s.direction.Asc? then Up
    else Down
  }

  /** After a click the clicked column carries the arrow, and it points down
      only if that column was already sorted ascending. */
  lemma ArrowAfterClick(s: SortState, clicked: Field)
    ensures Arrow(AfterClick(s, clicked), clicked)
         == if clicked == s.field && s.direction == Asc then Down else Up
    ensures forall c :: c != clicked ==> Arrow(AfterClick(s, clicked), c) == ""
  {
  }

  /** The page component's state. */
  class TableState {
    var sortField: Field
    var sortDirection: Direction
    var statusFilter: string

    /** The initial state: latest order date first, every status. */
    constructor ()
      ensures sortField == OrderDate && sortDirection == Desc && statusFilter == "all"
    {
      sortField := OrderDate;
      sortDirection := Desc;
      statusFilter := "all";
    }

    function Sort(): (r: SortState)
      reads this
    {
      SortState(sortField, sortDirection)
    }

    /** `handleSort(field)`. */
    method HandleSort(field: Field)
      modifies this
      ensures field == old(sortField) ==> sortField == old(sortField) && sortDirection == Flip(old(sortDirection))
      ensures field != old(sortField) ==> sortField == field && sortDirection == Asc
      ensures statusFilter == old(statusFilter)
      ensures Sort() == AfterClick(old(Sort()), field)
    {
      if field == sortField {
        sortDirection := if sortDirection == Asc then Desc else Asc;
      } else {
        sortField := field;
        sortDirection := Asc;
      }
    }

    /** The status select's `onChange`. */
    method SetStatusFilter(value: string)
      modifies this
      ensures statusFilter == value
      ensures sortField == old(sortField) && sortDirection == old(sortDirection)
    {
      statusFilter := value;
    }

    /** `sortedAndFilteredOrders`: filter a copy of the order list, then sort
        the result by the state's column and direction. The order list is
        only read. */
    method SortedAndFilteredOrders(mockOrders: array<Order>) returns (shown: seq<Order>)
      ensures multiset(shown) == multiset(Filter(statusFilter, mockOrders[..]))
      ensures forall o :: o in shown <==> o in mockOrders[..] && Keep(statusFilter, o)
      ensures SortedBy(sortField, sortDirection, shown)
    {
      var copy := mockOrders[..];
      var filtered := Filter(statusFilter, copy);
      var rows := new Order[|filtered|](i requires 0 <= i < |filtered| => filtered[i]);
      assert rows[..] == filtered;
      SortInPlace(rows, sortField, sortDirection);
      shown := rows[..];
      forall o
        ensures o in shown <==> o in copy && Keep(statusFilter, o)
      {
        FilterMembership(statusFilter, copy, o);
        assert o in shown <==> o in multiset(shown);
        assert o in filtered <==> o in multiset(filtered);
      }
    }
  }

  /** The first view, latest order first. */
  const LatestFirst: seq<Order> := [MockOrders[4], MockOrders[3], MockOrders[2], MockOrders[1], MockOrders[0]]

  /** Five orders whose dates are the mock orders' dates, latest first, are
      strictly sorted by date descending: the fixed-width `YYYY-MM-DD HH:MM`
      strings compare like the times they denote. */
  lemma DatesDescend(rows: seq<Order>)
    requires |rows| == 5
    requires rows[0].orderDate == "2024-03-23 17:30" && rows[1].orderDate == "2024-03-23 17:00"
    requires rows[2].orderDate == "2024-03-23 16:15" && rows[3].orderDate == "2024-03-23 15:45"
    requires rows[4].orderDate == "2024-03-23 14:30"
    ensures StrictlySortedBy(OrderDate, Desc, rows)
  {
    Lex.LessAtFirstDifference(rows[1].orderDate, rows[0].orderDate, 14);
    Lex.LessAtFirstDifference(rows[2].orderDate, rows[1].orderDate, 12);
    Lex.LessAtFirstDifference(rows[3].orderDate, rows[2].orderDate, 12);
    Lex.LessAtFirstDifference(rows[4].orderDate, rows[3].orderDate, 12);
    forall i | 0 <= i < |rows| - 1
      ensures Precedes(OrderDate, Desc, rows[i], rows[i + 1]) && !SameKey(OrderDate, rows[i], rows[i + 1])
    {
      KeyLessAsymmetric(OrderDate, rows[i + 1], rows[i]);
    }
    AdjacentStrictlySorted(OrderDate, Desc, rows);
  }

  lemma LatestFirstIsPermutation()
    ensures multiset(LatestFirst) == multiset(MockOrders)
  {
  }

  /** The initial state sorts by date descending with every status shown; the
      dates all differ, so however the sort breaks ties the rows come out
      latest first. */
  lemma InitialSortIsLatestFirst(shown: seq<Order>)
    requires SortedBy(OrderDate, Desc, shown)
    requires multiset(shown) == multiset(Filter("all", MockOrders))
    ensures shown == LatestFirst
  {
    FilterAllKeepsEverything(MockOrders);
    LatestFirstIsPermutation();
    DatesDescend(LatestFirst);
    SortedPermutationUnique(OrderDate, Desc, LatestFirst, shown);
  }

  /** A freshly opened page lists all five orders from PZA005 down to PZA001. */
  method FirstView() returns (shown: seq<Order>)
    ensures shown == LatestFirst
    ensures |shown| == 5 && shown[0].id == "PZA005" && shown[4].id == "PZA001"
  {
    var mockOrders := new Order[|MockOrders|](i requires 0 <= i < |MockOrders| => MockOrders[i]);
    assert mockOrders[..] == MockOrders;
    var page := new TableState();
    shown := page.SortedAndFilteredOrders(mockOrders);
    InitialSortIsLatestFirst(shown);
  }
}
