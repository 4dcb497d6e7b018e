/** The order table's view logic: the status filter, the key comparison, the
    comparator handed to `Array.prototype.sort`, and the sort of the filtered
    copy. */
module OrderView {
  import Lex
  import opened Orders

  // ---------------------------------------------------------------------------
  // Status filter

  /** An order survives the filter when the filter is "all" or names its status. */
  predicate Keep(statusFilter: string, o: Order)
  {
    statusFilter == "all" || o.status == statusFilter
  }

  /** `orders.filter(...)`: the surviving orders, in their original order. */
  function Filter(statusFilter: string, orders: seq<Order>): (r: seq<Order>)
    ensures |r| <= |orders|
    ensures forall o :: o in r ==> o in orders && Keep(statusFilter, o)
  {
    if orders == [] then []
    else (if Keep(statusFilter, orders[0]) then [orders[0]] else []) + Filter(statusFilter, orders[1..])
  }

  /** With the filter "all" every order survives, in place. */
  lemma {:induction false} FilterAllKeepsEverything(orders: seq<Order>)
    ensures Filter("all", orders) == orders
  {
    if orders != [] {
      FilterAllKeepsEverything(orders[1..]);
      assert orders == [orders[0]] + orders[1..];
    }
  }

  /** An order survives exactly when it is in the input and the filter keeps
      it: with any filter other than "all", when its status is the filter. */
  lemma {:induction false} FilterMembership(statusFilter: string, orders: seq<Order>, o: Order)
    ensures o in Filter(statusFilter, orders) <==> o in orders && Keep(statusFilter, o)
  {
    if orders != [] {
      FilterMembership(statusFilter, orders[1..], o);
      assert orders == [orders[0]] + orders[1..];
    }
  }

  /** No order is added, dropped or duplicated: a surviving order occurs as
      often as in the input, any other order not at all. */
  lemma {:induction false} FilterCounts(statusFilter: string, orders: seq<Order>, o: Order)
    ensures multiset(Filter(statusFilter, orders))[o]
         == if Keep(statusFilter, o) then multiset(orders)[o] else 0
  {
    if orders != [] {
      FilterCounts(statusFilter, orders[1..], o);
      assert orders == [orders[0]] + orders[1..];
    }
  }

  /** Filtering a concatenation filters each part: survivors keep their
      relative order. */
  lemma {:induction false} FilterPreservesOrder(statusFilter: string, front: seq<Order>, back: seq<Order>)
    ensures Filter(statusFilter, front + back) == Filter(statusFilter, front) + Filter(statusFilter, back)
  {
    if front == [] {
      assert front + back == back;
    } else {
      var head := if Keep(statusFilter, front[0]) then [front[0]] else [];
      assert (front + back)[0] == front[0];
      assert (front + back)[1..] == front[1..] + back;
      calc {
        Filter(statusFilter, front + back);
        head + Filter(statusFilter, front[1..] + back);
        { FilterPreservesOrder(statusFilter, front[1..], back); }
        head + (Filter(statusFilter, front[1..]) + Filter(statusFilter, back));
        (head + Filter(statusFilter, front[1..])) + Filter(statusFilter, back);
      }
    }
  }

  // ---------------------------------------------------------------------------
  // Sort keys: `a[sortField]`

  /** The value of a string-valued property. */
  function TextKey(field: Field, o: Order): (r: string)
    requires field != Quantity
  {
    match field
    case Id => o.id
    case CustomerName => o.customerName
    case PizzaType => o.pizzaType
    case OrderDate => o.orderDate
    case Status => o.status
  }

  /** `a[field] < b[field]`: numeric for the quantity, lexicographic otherwise. */
  predicate KeyLess(field: Field, a: Order, b: Order)
  {
    if field == Quantity then a.quantity < b.quantity
    else Lex.Less(TextKey(field, a), TextKey(field, b))
  }

  /** The two orders have the same value in the sort column. */
  predicate SameKey(field: Field, a: Order, b: Order)
  {
    if field == Quantity then a.quantity == b.quantity
    else TextKey(field, a) == TextKey(field, b)
  }

  /** In the displayed order `a` may stand before `b`: its key is not above
      `b`'s when ascending, not below it when descending. */
  predicate Precedes(field: Field, direction: Direction, a: Order, b: Order)
  {
    match direction
    case Asc => KeyLess(field, a, b) || SameKey(field, a, b)
    case Desc => KeyLess(field, b, a) || SameKey(field, a, b)
  }

  /** Every pair of rows, not just adjacent ones, is in key order. */
  ghost predicate SortedBy(field: Field, direction: Direction, rows: seq<Order>)
  {
    forall i, j :: 0 <= i < j < |rows| ==> Precedes(field, direction, rows[i], rows[j])
  }

  /** In key order with no two equal keys, so no tie is left to break. */
  ghost predicate StrictlySortedBy(field: Field, direction: Direction, rows: seq<Order>)
  {
    forall i, j :: 0 <= i < j < |rows| ==>
      Precedes(field, direction, rows[i], rows[j]) && !SameKey(field, rows[i], rows[j])
  }

  lemma KeyTrichotomous(field: Field, a: Order, b: Order)
    ensures SameKey(field, a, b) || KeyLess(field, a, b) || KeyLess(field, b, a)
  {
    if field != Quantity {
      Lex.Trichotomous(TextKey(field, a), TextKey(field, b));
    }
  }

  /** Equal keys are never less than each other. */
  lemma SameKeyNotLess(field: Field, a: Order, b: Order)
    requires SameKey(field, a, b)
    ensures !KeyLess(field, a, b) && !KeyLess(field, b, a)
  {
    if field != Quantity {
      Lex.Irreflexive(TextKey(field, a));
    }
  }

  lemma KeyLessAsymmetric(field: Field, a: Order, b: Order)
    requires KeyLess(field, a, b)
    ensures !KeyLess(field, b, a) && !SameKey(field, a, b)
  {
    if field != Quantity {
      Lex.Asymmetric(TextKey(field, a), TextKey(field, b));
      Lex.Irreflexive(TextKey(field, a));
    }
  }

  lemma PrecedesTransitive(field: Field, direction: Direction, a: Order, b: Order, c: Order)
    requires Precedes(field, direction, a, b) && Precedes(field, direction, b, c)
    ensures Precedes(field, direction, a, c)
  {
    if field != Quantity {
      var ka, kb, kc := TextKey(field, a), TextKey(field, b), TextKey(field, c);
      match direction
      case Asc =>
        if Lex.Less(ka, kb) && Lex.Less(kb, kc) {
          Lex.Transitive(ka, kb, kc);
        }
      case Desc =>
        if Lex.Less(kc, kb) && Lex.Less(kb, ka) {
          Lex.Transitive(kc, kb, ka);
        }
    }
  }

  /** Two orders that may each stand before the other have the same key. */
  lemma PrecedesAntisymmetric(field: Field, direction: Direction, a: Order, b: Order)
    requires Precedes(field, direction, a, b) && Precedes(field, direction, b, a)
    ensures SameKey(field, a, b)
  {
    if KeyLess(field, a, b) {
      KeyLessAsymmetric(field, a, b);
    } else if KeyLess(field, b, a) {
      KeyLessAsymmetric(field, b, a);
    }
  }

  // ---------------------------------------------------------------------------
  // The comparator

  /** The comparator as written: ascending, `aValue > bValue ? 1 : -1`;
      descending, `aValue < bValue ? 1 : -1`. */
  function Comparator(field: Field, direction: Direction, a: Order, b: Order): (r: int)
    ensures r == 1 || r == -1
  {
    match direction
    case Asc => if KeyLess(field, b, a) then 1 else -1
    case Desc => if KeyLess(field, a, b) then 1 else -1
  }

  /** A positive result, which makes the sort put `b` before `a`, is returned
      exactly when `a` may not stand before `b`. */
  lemma ComparatorAgreesWithKeyOrder(field: Field, direction: Direction, a: Order, b: Order)
    ensures Comparator(field, direction, a, b) > 0 <==> !Precedes(field, direction, a, b)
  {
    KeyTrichotomous(field, a, b);
    if SameKey(field, a, b) {
      SameKeyNotLess(field, a, b);
    } else if KeyLess(field, a, b) {
      KeyLessAsymmetric(field, a, b);
    } else {
      KeyLessAsymmetric(field, b, a);
    }
  }

  /** Equal keys get -1 whichever argument comes first. */
  lemma ComparatorTies(field: Field, direction: Direction, a: Order, b: Order)
    requires SameKey(field, a, b)
    ensures Comparator(field, direction, a, b) == -1
    ensures Comparator(field, direction, b, a) == -1
  {
    SameKeyNotLess(field, a, b);
  }

  /** Swapping the arguments negates the result exactly when the keys differ. */
  lemma ComparatorAntisymmetricIffKeysDiffer(field: Field, direction: Direction, a: Order, b: Order)
    ensures Comparator(field, direction, a, b) == -Comparator(field, direction, b, a)
        <==> !SameKey(field, a, b)
  {
    KeyTrichotomous(field, a, b);
    if SameKey(field, a, b) {
      ComparatorTies(field, direction, a, b);
    } else if KeyLess(field, a, b) {
      KeyLessAsymmetric(field, a, b);
    } else {
      KeyLessAsymmetric(field, b, a);
    }
  }

  /** The comparator is not a consistent comparator in the sense of section
      23.1.3.30 of ECMAScript 2023: the reflexivity requirement asks
      `comparefn(a, a) == 0`, but every order compares -1 with itself, and two
      different orders with equal quantities each compare below the other. */
  lemma ComparatorIsInconsistent(field: Field, direction: Direction, o: Order)
    ensures Comparator(field, direction, o, o) == -1
    ensures Comparator(Quantity, Asc, MockOrders[1], MockOrders[3]) == -1
    ensures Comparator(Quantity, Asc, MockOrders[3], MockOrders[1]) == -1
    ensures MockOrders[1] != MockOrders[3]
  {
    SameKeyNotLess(field, o, o);
  }

  /** The comparator with the evidently intended tie case: 0 for equal keys. */
  function ConsistentComparator(field: Field, direction: Direction, a: Order, b: Order): (r: int)
    ensures -1 <= r <= 1
  {
    if SameKey(field, a, b) then 0 else Comparator(field, direction, a, b)
  }

  /** The corrected comparator meets the requirements of a consistent
      comparator (section 23.1.3.30 of ECMAScript 2023): reflexivity, symmetry
      and transitivity of "equal", transitivity of "less" and of "greater";
      "less" one way is "greater" the other way. */
  lemma ConsistentComparatorIsConsistent(field: Field, direction: Direction, a: Order, b: Order, c: Order)
    ensures ConsistentComparator(field, direction, a, a) == 0
    ensures ConsistentComparator(field, direction, a, b) == 0 ==> ConsistentComparator(field, direction, b, a) == 0
    ensures ConsistentComparator(field, direction, a, b) == 0 && ConsistentComparator(field, direction, b, c) == 0
        ==> ConsistentComparator(field, direction, a, c) == 0
    ensures ConsistentComparator(field, direction, a, b) < 0 && ConsistentComparator(field, direction, b, c) < 0
        ==> ConsistentComparator(field, direction, a, c) < 0
    ensures ConsistentComparator(field, direction, a, b) > 0 && ConsistentComparator(field, direction, b, c) > 0
        ==> ConsistentComparator(field, direction, a, c) > 0
    ensures ConsistentComparator(field, direction, a, b) < 0 <==> ConsistentComparator(field, direction, b, a) > 0
  {
    ConsistentComparatorSigns(field, direction, a, b);
    ConsistentComparatorSigns(field, direction, b, a);
    ConsistentComparatorSigns(field, direction, b, c);
    ConsistentComparatorSigns(field, direction, a, c);
    if !SameKey(field, a, b) && !SameKey(field, b, c) {
      if Precedes(field, direction, a, b) && Precedes(field, direction, b, c) {
        PrecedesTransitive(field, direction, a, b, c);
        if SameKey(field, a, c) {
          PrecedesTransitive(field, direction, c, a, b);
          PrecedesAntisymmetric(field, direction, b, c);
        }
      }
      if Precedes(field, direction, b, a) && Precedes(field, direction, c, b) {
        PrecedesTransitive(field, direction, c, b, a);
        if SameKey(field, a, c) {
          PrecedesTransitive(field, direction, b, a, c);
          PrecedesAntisymmetric(field, direction, b, c);
        }
      }
    }
  }

  /** The sign of the corrected comparator in terms of the key order. */
  lemma ConsistentComparatorSigns(field: Field, direction: Direction, a: Order, b: Order)
    ensures ConsistentComparator(field, direction, a, b) == 0 <==> SameKey(field, a, b)
    ensures ConsistentComparator(field, direction, a, b) < 0
        <==> Precedes(field, direction, a, b) && !SameKey(field, a, b)
    ensures ConsistentComparator(field, direction, a, b) > 0 <==> !Precedes(field, direction, a, b)
  {
    ComparatorAgreesWithKeyOrder(field, direction, a, b);
    if SameKey(field, a, b) {
      SameKeyNotLess(field, a, b);
    }
  }

  /** Both comparators ask the sort to move `b` before `a` in exactly the same
      cases, so the model's insertion sort, which only tests `> 0`, makes the
      same moves with either. */
  lemma ComparatorsAgreeOnMoves(field: Field, direction: Direction, a: Order, b: Order)
    ensures Comparator(field, direction, a, b) > 0 <==> ConsistentComparator(field, direction, a, b) > 0
  {
    if SameKey(field, a, b) {
      ComparatorTies(field, direction, a, b);
    }
  }

  // ---------------------------------------------------------------------------
  // The sort

  /** The first `n` rows are in key order. */
  ghost predicate SortedPrefix(field: Field, direction: Direction, rows: seq<Order>, n: int)
    requires 0 <= n <= |rows|
  {
    forall k, l :: 0 <= k < l < n ==> Precedes(field, direction, rows[k], rows[l])
  }

  /** Midway through inserting `rows[j]` into the sorted rows before `i`: the
      first `i + 1` rows are in key order apart from position `j`, and the
      order at `j` may stand before every row after it up to `i`. */
  ghost predicate Inserting(field: Field, direction: Direction, rows: seq<Order>, j: int, i: int)
    requires 0 <= j <= i < |rows|
  {
    && (forall k, l :: 0 <= k < l <= i && k != j && l != j ==> Precedes(field, direction, rows[k], rows[l]))
    && (forall l :: j < l <= i ==> Precedes(field, direction, rows[j], rows[l]))
  }

  /** `rows` with the neighbours at `j - 1` and `j` exchanged. */
  function SwapDown(rows: seq<Order>, j: int): (r: seq<Order>)
    requires 0 < j < |rows|
    ensures |r| == |rows| && r[j - 1] == rows[j] && r[j] == rows[j - 1]
    ensures forall k :: 0 <= k < |rows| && k != j - 1 && k != j ==> r[k] == rows[k]
    ensures multiset(r) == multiset(rows)
  {
    rows[j - 1 := rows[j]][j := rows[j - 1]]
  }

  /** Moving the inserted order one place left past a neighbour that the
      comparator puts after it keeps the insertion invariant. */
  lemma InsertStep(field: Field, direction: Direction, rows: seq<Order>, j: int, i: int)
    requires 0 < j <= i < |rows|
    requires Inserting(field, direction, rows, j, i)
    requires ConsistentComparator(field, direction, rows[j - 1], rows[j]) > 0
    ensures Inserting(field, direction, SwapDown(rows, j), j - 1, i)
  {
    ConsistentComparatorSigns(field, direction, rows[j - 1], rows[j]);
  }

  /** Once the comparator no longer puts the left neighbour after the
      inserted order, the first
      `i + 1` rows are in key order. */
  lemma InsertDone(field: Field, direction: Direction, rows: seq<Order>, j: int, i: int)
    requires 0 <= j <= i < |rows|
    requires Inserting(field, direction, rows, j, i)
    requires j > 0 ==> ConsistentComparator(field, direction, rows[j - 1], rows[j]) <= 0
    ensures SortedPrefix(field, direction, rows, i + 1)
  {
    if j > 0 {
      ConsistentComparatorSigns(field, direction, rows[j - 1], rows[j]);
      forall k | 0 <= k < j - 1
        ensures Precedes(field, direction, rows[k], rows[j])
      {
        PrecedesTransitive(field, direction, rows[k], rows[j - 1], rows[j]);
      }
    }
  }

  /** `.sort(comparator)` on the filtered array, in place: an insertion sort
      that moves each order left while the comparator as written says its left
      neighbour belongs after it. */
  method SortInPlace(a: array<Order>, field: Field, direction: Direction)
    modifies a
    ensures SortedBy(field, direction, a[..])
    ensures multiset(a[..]) == multiset(old(a[..]))
  {
    var i := 0;
    while i < a.Length
      invariant 0 <= i <= a.Length
      invariant SortedPrefix(field, direction, a[..], i)
      invariant multiset(a[..]) == multiset(old(a[..]))
    {
      Insert(a, i, field, direction);
      i := i + 1;
    }
  }

  /** One pass of the insertion sort: moves `a[i]` left into the sorted rows
      before it. */
  method Insert(a: array<Order>, i: int, field: Field, direction: Direction)
    requires 0 <= i < a.Length
    requires SortedPrefix(field, direction, a[..], i)
    modifies a
    ensures SortedPrefix(field, direction, a[..], i + 1)
    ensures multiset(a[..]) == multiset(old(a[..]))
    ensures a[i + 1..] == old(a[i + 1..])
  {
    var j := i;
    while j > 0 && Comparator(field, direction, a[j - 1], a[j]) > 0
      invariant 0 <= j <= i
      invariant Inserting(field, direction, a[..], j, i)
      invariant multiset(a[..]) == multiset(old(a[..]))
      invariant a[i + 1..] == old(a[i + 1..])
    {
      ComparatorsAgreeOnMoves(field, direction, a[j - 1], a[j]);
      InsertStep(field, direction, a[..], j, i);
      ghost var swapped := SwapDown(a[..], j);
      a[j - 1], a[j] := a[j], a[j - 1];
      assert a[..] == swapped;
      j := j - 1;
    }
    if j > 0 {
      ComparatorsAgreeOnMoves(field, direction, a[j - 1], a[j]);
    }
    InsertDone(field, direction, a[..], j, i);
  }

  /** Rows whose neighbours are each strictly in key order are strictly
      sorted. */
  lemma {:induction false} AdjacentStrictlySorted(field: Field, direction: Direction, rows: seq<Order>)
    requires forall i :: 0 <= i < |rows| - 1 ==>
      Precedes(field, direction, rows[i], rows[i + 1]) && !SameKey(field, rows[i], rows[i + 1])
    ensures StrictlySortedBy(field, direction, rows)
  {
    if |rows| > 1 {
      var tail := rows[1..];
      forall i | 0 <= i < |tail| - 1
        ensures Precedes(field, direction, tail[i], tail[i + 1]) && !SameKey(field, tail[i], tail[i + 1])
      {
        assert tail[i] == rows[i + 1] && tail[i + 1] == rows[i + 2];
      }
      AdjacentStrictlySorted(field, direction, tail);
      forall i, j | 0 <= i < j < |rows|
        ensures Precedes(field, direction, rows[i], rows[j]) && !SameKey(field, rows[i], rows[j])
      {
        if i > 0 {
          assert rows[i] == tail[i - 1] && rows[j] == tail[j - 1];
        } else if j > 1 {
          assert rows[j] == tail[j - 1] && rows[1] == tail[0];
          StrictlyBeforeTransitive(field, direction, rows[0], rows[1], rows[j]);
        }
      }
    }
  }

  lemma StrictlyBeforeTransitive(field: Field, direction: Direction, a: Order, b: Order, c: Order)
    requires Precedes(field, direction, a, b) && !SameKey(field, a, b)
    requires Precedes(field, direction, b, c) && !SameKey(field, b, c)
    ensures Precedes(field, direction, a, c) && !SameKey(field, a, c)
  {
    PrecedesTransitive(field, direction, a, b, c);
    if SameKey(field, a, c) {
      PrecedesTransitive(field, direction, c, a, b);
      PrecedesAntisymmetric(field, direction, b, c);
    }
  }

  /** Sorting fixes the rows once no two keys are equal: a strictly sorted
      sequence is the only sorted permutation of its orders. */
  lemma {:induction false} SortedPermutationUnique(field: Field, direction: Direction, s: seq<Order>, t: seq<Order>)
    requires StrictlySortedBy(field, direction, s)
    requires SortedBy(field, direction, t)
    requires multiset(s) == multiset(t)
    ensures s == t
  {
    assert |s| == |multiset(s)| == |multiset(t)| == |t|;
    if |s| > 0 {
      SortedHeadsAgree(field, direction, s, t);
      assert s == [s[0]] + s[1..] && t == [t[0]] + t[1..];
      assert multiset(s) == multiset{s[0]} + multiset(s[1..]);
      assert multiset(t) == multiset{s[0]} + multiset(t[1..]);
      assert multiset(s[1..]) == multiset(s) - multiset{s[0]} == multiset(t) - multiset{s[0]} == multiset(t[1..]);
      SortedTail(field, direction, t);
      StrictlySortedTail(field, direction, s);
      SortedPermutationUnique(field, direction, s[1..], t[1..]);
    }
  }

  /** The first row of a sorted permutation of a strictly sorted sequence is
      that sequence's first row. */
  lemma SortedHeadsAgree(field: Field, direction: Direction, s: seq<Order>, t: seq<Order>)
    requires StrictlySortedBy(field, direction, s)
    requires SortedBy(field, direction, t)
    requires multiset(s) == multiset(t) && |s| > 0
    ensures |t| > 0 && t[0] == s[0]
  {
    assert |s| == |multiset(s)| == |multiset(t)| == |t|;
    assert t[0] in multiset(s);
    var k :| 0 <= k < |s| && s[k] == t[0];
    assert s[0] in multiset(t);
    var m :| 0 <= m < |t| && t[m] == s[0];
    if k > 0 {
      if m > 0 {
        PrecedesAntisymmetric(field, direction, s[0], s[k]);
      }
      assert false;
    }
  }

  lemma SortedTail(field: Field, direction: Direction, t: seq<Order>)
    requires SortedBy(field, direction, t) && |t| > 0
    ensures SortedBy(field, direction, t[1..])
  {
    forall i, j | 0 <= i < j < |t| - 1
      ensures Precedes(field, direction, t[1..][i], t[1..][j])
    {
      assert t[1..][i] == t[i + 1] && t[1..][j] == t[j + 1];
    }
  }

  lemma StrictlySortedTail(field: Field, direction: Direction, s: seq<Order>)
    requires StrictlySortedBy(field, direction, s) && |s| > 0
    ensures StrictlySortedBy(field, direction, s[1..])
  {
    forall i, j | 0 <= i < j < |s| - 1
      ensures Precedes(field, direction, s[1..][i], s[1..][j]) && !SameKey(field, s[1..][i], s[1..][j])
    {
      assert s[1..][i] == s[i + 1] && s[1..][j] == s[j + 1];
    }
  }
}
