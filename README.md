# Pizza order table: filter, sort and sort-header state

This project models the view logic of the pizza dashboard's orders pages. The
logic appears twice, almost verbatim: in `app/dashboard/orders/page.tsx` and in
`app/orders/page.tsx`. There is one model for both. The table below cites the
dashboard page for most members. The matching lines in `app/orders/page.tsx`
are:

| logic | app/dashboard/orders/page.tsx | app/orders/page.tsx |
|---|---|---|
| `mockOrders`, `statusColors` | 6-56 | 6-56 |
| initial state | 59-61 | 59-61 |
| filter and sort pipeline | 73-83 | 64-74 |
| `handleSort` | 85-92 | 76-83 |
| filter options | 115-120 | 96-101 |
| header arrows | 133-168 | 114-149 |
| status badge lookup | 192 | 173 |

The page shows five hard-coded orders. The user can click a column header
to sort by that column, and can pick a status to filter by. The model has
four modules:

- `Lex` (lex.dfy): JavaScript's `<` on strings, which is lexicographic order.
  Lemmas prove it is a strict total order.
- `Orders` (orders.dfy): the `Order` record, the `Field` and `Direction`
  enums, the five mock orders, the `statusColors` entries in insertion order,
  the badge lookup and the filter's options.
- `OrderView` (view.dfy): the status filter, the per-column key comparison,
  the comparator exactly as written, a corrected comparator, and the in-place
  sort of the filtered copy. The sort is specified as sorted by key plus a
  permutation.
- `OrderTable` (table.dfy): the page's three state variables as the class
  `TableState`, with `handleSort` and the status select's `onChange`. Also the
  pure transition function `AfterClick` that specifies `handleSort`, the
  header arrow, the displayed rows, and the first view.

The sort key `a[sortField]` (lines 76-77) is `OrderView.TextKey` for the
five string columns and the `quantity` field otherwise; `OrderView.KeyLess`
is `aValue < bValue` on those keys. The comparator sorts `quantity`
numerically. Every other column is a string and is compared
lexicographically (`Lex.Less`). The comparator never returns 0, so equal
keys compare -1 in both argument orders. It also compares every order -1
against itself. That breaks the reflexivity requirement of a consistent
comparator in section 23.1.3.30 of ECMAScript 2023. For such a comparator
the standard leaves the whole sort order implementation-defined and
promises only that the result is a permutation of the input. The model
goes one step further and assumes the engine's sort puts the rows in key
order whenever the comparator answers correctly for different keys, which
this one does. Under that assumption the displayed rows are specified by
two facts. First, every pair of rows is in key order for the chosen
direction. Second, the rows are a permutation of the filtered orders. No
tie order is fixed. The model's sort is an insertion sort driven by the
comparator as written; `ComparatorsAgreeOnMoves` is the step that carries
the correctness of the corrected comparator over to each of its moves.
The five order dates all differ, so the first view (`orderDate`, `desc`,
`all`) is fully determined: PZA005 down to PZA001.

`sortField` is a `string` in the source. Every call site passes one of the
six property names, so the model uses the enum `Field`. `statusFilter` stays
a string, with "all" as the special value, exactly as in the source.

## Model

| member | source | states |
|---|---|---|
| `Orders.Keys` | app/dashboard/orders/page.tsx:116 | `Object.keys` lists one key per entry, the i-th key being the i-th entry's name, in insertion order, which is JavaScript's order for keys that are not array indices (none of `statusColors`' are) |
| `Orders.Lookup` | app/dashboard/orders/page.tsx:192 | `statusColors[status]` is defined exactly when the status is an own key of `statusColors`, and then it is that entry's class string |
| `Orders.BadgeLookupTotal` | app/dashboard/orders/page.tsx:6-56 | every mock order's status has a badge class, so the badge lookup never yields `undefined` |
| `Orders.FilterOptionsAreAllAndStatuses` | app/dashboard/orders/page.tsx:115-120 | the filter options are "all" followed by the five `statusColors` keys in insertion order; "all" is not a status; every mock order's status is an option |
| `OrderView.Filter` | app/dashboard/orders/page.tsx:74 | the filtered list is no longer than the input, and each survivor is in the input and passes the filter |
| `OrderView.FilterAllKeepsEverything` | app/dashboard/orders/page.tsx:74 | with the filter "all" the output is the input, unchanged |
| `OrderView.FilterMembership` | app/orders/page.tsx:65 | an order survives iff it is in the input and the filter is "all" or equals its status (both directions) |
| `OrderView.FilterCounts` | app/dashboard/orders/page.tsx:74 | a survivor occurs as often as in the input, and any other order not at all; nothing is added, dropped or duplicated |
| `OrderView.FilterPreservesOrder` | app/dashboard/orders/page.tsx:74 | filtering a concatenation is the concatenation of the filtered parts, so survivors keep their relative order |
| `Lex.Irreflexive` | app/dashboard/orders/page.tsx:79-82 | no string is `<` itself |
| `Lex.Transitive` | app/dashboard/orders/page.tsx:79-82 | string `<` is transitive |
| `Lex.Trichotomous` | app/dashboard/orders/page.tsx:79-82 | any two strings are equal or one is `<` the other |
| `Lex.Asymmetric` | app/dashboard/orders/page.tsx:79-82 | if `x < y` then not `y < x` |
| `Lex.LessAtFirstDifference` | app/dashboard/orders/page.tsx:79-82 | strings that agree before position `k` and differ there are ordered by their characters at `k` |
| `OrderView.KeyTrichotomous` | app/dashboard/orders/page.tsx:76-82 | for any column, two orders' values `a[sortField]` and `b[sortField]` are equal or one is `<` the other |
| `OrderView.SameKeyNotLess` | app/dashboard/orders/page.tsx:76-82 | equal column values are not `<` each other in either order |
| `OrderView.KeyLessAsymmetric` | app/dashboard/orders/page.tsx:76-82 | if `aValue < bValue` then neither `bValue < aValue` nor are they equal |
| `OrderView.PrecedesTransitive` | app/dashboard/orders/page.tsx:75-83 | the "may stand before" relation of either direction is transitive, for numeric and for string keys |
| `OrderView.PrecedesAntisymmetric` | app/dashboard/orders/page.tsx:75-83 | two orders that may each stand before the other have equal keys |
| `OrderView.Comparator` | app/dashboard/orders/page.tsx:79-82 | the comparator as written returns 1 or -1 and never 0 |
| `OrderView.ComparatorAgreesWithKeyOrder` | app/dashboard/orders/page.tsx:75-83 | the comparator is positive (so the sort puts the second order first) iff the first order may not stand before the second: for `asc` iff its key is greater, for `desc` iff its key is smaller |
| `OrderView.ComparatorTies` | app/orders/page.tsx:70-73 | equal keys give -1 whichever argument comes first |
| `OrderView.ComparatorAntisymmetricIffKeysDiffer` | app/dashboard/orders/page.tsx:79-82 | swapping the arguments negates the result iff the keys differ (both directions) |
| `OrderView.ComparatorIsInconsistent` | app/dashboard/orders/page.tsx:79-82 | every order compares -1 with itself, and the distinct orders PZA002 and PZA004 (quantity 1 each) each compare -1 against the other |
| `OrderView.ConsistentComparator` | app/dashboard/orders/page.tsx:79-82 | the corrected comparator returns -1, 0 or 1 |
| `OrderView.ConsistentComparatorIsConsistent` | app/dashboard/orders/page.tsx:79-82 | the corrected comparator is reflexive, symmetric and transitive on "equal", transitive on "less" and on "greater", and "less" one way is "greater" the other way |
| `OrderView.ConsistentComparatorSigns` | app/dashboard/orders/page.tsx:79-82 | the corrected comparator is 0 iff the keys are equal, negative iff the first order strictly precedes the second, and positive iff it may not stand before it |
| `OrderView.ComparatorsAgreeOnMoves` | app/dashboard/orders/page.tsx:79-82 | the as-written and the corrected comparator are positive in exactly the same cases |
| `OrderView.Insert` | app/dashboard/orders/page.tsx:75-83 | one insertion pass extends the key-sorted prefix by one row, permutes the array and leaves the rows after it untouched |
| `OrderView.SortInPlace` | app/dashboard/orders/page.tsx:75-83 | sorting in place leaves every pair of rows in key order for the direction, and the array is a permutation of its old contents |
| `OrderView.SortedPermutationUnique` | app/dashboard/orders/page.tsx:75-83 | when no two keys are equal, a key-sorted permutation of a strictly sorted list is that list: the tie order is the only freedom |
| `OrderTable.Flip` | app/dashboard/orders/page.tsx:87 | flipping always changes the direction |
| `OrderTable.AfterClick` | app/dashboard/orders/page.tsx:85-92 | after a click the clicked column is the sort column |
| `OrderTable.SameColumnToggles` | app/dashboard/orders/page.tsx:86-87 | clicking the sorted column keeps the column and reverses the direction; two such clicks restore the state |
| `OrderTable.OtherColumnSortsAscending` | app/orders/page.tsx:79-82 | clicking another column selects it, ascending |
| `OrderTable.RepeatedClicksAlternate` | app/dashboard/orders/page.tsx:85-92 | n clicks on a column other than the sorted one sort by it, ascending after an odd number of clicks and descending after an even one |
| `OrderTable.Arrow` | app/dashboard/orders/page.tsx:133-168 | exactly the sorted column shows an arrow; it is the up arrow iff ascending and the down arrow iff descending |
| `OrderTable.ArrowAfterClick` | app/dashboard/orders/page.tsx:128-168 | after a click only the clicked column shows an arrow, and it is the down arrow only when that column was already sorted ascending |
| `OrderTable.TableState.constructor` | app/dashboard/orders/page.tsx:59-61 | the initial state is `orderDate`, `desc`, "all" |
| `OrderTable.TableState.HandleSort` | app/orders/page.tsx:76-83 | the same column: column kept, direction flipped; another column: that column, `asc`; the status filter is untouched; the new sort state is `AfterClick` of the old |
| `OrderTable.TableState.SetStatusFilter` | app/dashboard/orders/page.tsx:112 | choosing a status sets the filter and leaves the sort state alone |
| `OrderTable.TableState.SortedAndFilteredOrders` | app/orders/page.tsx:64-74 | the rows are a permutation of the filtered orders; an order is shown iff it is in the list and passes the filter; every pair of rows is in key order for the current column and direction; the order list is only read |
| `OrderTable.DatesDescend` | app/dashboard/orders/page.tsx:12-44 | the fixed-width dates of the five orders, latest first, are strictly descending |
| `OrderTable.InitialSortIsLatestFirst` | app/dashboard/orders/page.tsx:59-61 | any rows sorted by date descending that permute the unfiltered orders are PZA005, PZA004, PZA003, PZA002, PZA001 |
| `OrderTable.FirstView` | app/orders/page.tsx:59-74 | a freshly opened page shows all five orders, PZA005 first and PZA001 last |

## Findings

| source | as written | input that shows it | evidently intended | confidence | as-written member | corrected member |
|---|---|---|---|---|---|---|
| app/dashboard/orders/page.tsx:79-82 (also app/orders/page.tsx:70-73) | the comparator returns 1 or -1 and never 0: equal keys compare -1 both ways, and an order compares -1 with itself, so it is not a consistent comparator and ECMAScript leaves the sort order implementation-defined | an order compared with itself (for example PZA001), or PZA002 and PZA004 sorted by `quantity` (both 1), which each compare below the other | return 0 for equal keys, which makes it a consistent comparator | medium; not executed | `OrderView.ComparatorIsInconsistent` | `OrderView.ConsistentComparatorIsConsistent` |

The sort in the model calls the comparator as written. `ComparatorsAgreeOnMoves`
shows that the corrected comparator would make exactly the same moves, and the
sort's proof goes through the corrected comparator's signs.

## Left out

- The simulated loading delay (`isLoading`, `setTimeout`, `clearTimeout`) of the dashboard page. It is a timer that drives UI, not logic.
- JSX rendering and the Tailwind class strings. The badge lookup is kept, since there is a property about it.
- `app/dashboard/layout.tsx`, `app/page.tsx`, `app/dashboard/page.tsx`, `app/(dashboard)/page.tsx`, `app/auth/error/page.tsx`, `app/layout.tsx` and `next.config.js`. They are session gating and redirects through next-auth, routing, fonts and framework configuration, all external calls or UI.
- The JavaScript engine's own sort algorithm. The model sorts by insertion and specifies only the result: sorted by key, and a permutation.
- OrderView.SortInPlace: does not promise that equal keys keep their filtered order. With the as-written comparator ECMAScript promises no tie order. With the corrected comparator its sort would be stable, and the model does not prove that.
- OrderView.SortInPlace: its key-order guarantee is an assumption about the engine's sort, not a promise of ECMAScript. Since the comparator is not consistent, the standard promises only a permutation. The model's insertion sort does keep key order with this comparator.
- OrderTable.TableState.SortedAndFilteredOrders: the same assumption. Key order of the displayed rows is assumed of the engine's sort; the standard promises only that they are a permutation of the filtered orders.
- Orders.Keys: lists keys in insertion order. JavaScript lists array-index keys (`"0"`, `"1"`, …) first, in ascending numeric order, and that ordering is not modelled. No key of `statusColors` is an array index.
- Orders.Lookup: looks only at the own entries of `statusColors`. Names inherited from `Object.prototype`, such as `toString`, are defined in JavaScript but not in the model. No order has such a status.
- React's asynchronous state updates. Each `handleSort` call is modelled as one complete update, which is how one click per render behaves.
- Strings are sequences of `char`. UTF-16 code units are not modelled. All the data is ASCII.
- `quantity` is an unbounded integer, not an IEEE double. The values are 1 to 3.
- Unknown `sortField` strings. Every call site passes one of the six property names, so they cannot occur.
