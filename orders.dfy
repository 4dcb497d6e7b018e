/** The fixed data of the orders pages: the five mock orders, the status badge
    colours and the status filter's options. */
module Orders {

  datatype Option<T> = None | Some(value: T)

  /** One row of the order table. `quantity` is a JavaScript number; every
      other field is a string. */
  datatype Order = Order(
    id: string,
    customerName: string,
    pizzaType: string,
    quantity: int,
    orderDate: string,
    status: string)

  /** The six sortable columns, named after the order's properties. */
  datatype Field = Id | CustomerName | PizzaType | Quantity | OrderDate | Status

  datatype Direction = Asc | Desc

  /** The hard-coded order list, in source order. */
  const MockOrders: seq<Order> := [
    Order("PZA001", "John Doe", "Margherita", 2, "2024-03-23 14:30", "Delivered"),
    Order("PZA002", "Jane Smith", "Pepperoni", 1, "2024-03-23 15:45", "Preparing"),
    Order("PZA003", "Bob Johnson", "Veggie Supreme", 3, "2024-03-23 16:15", "Out for Delivery"),
    Order("PZA004", "Alice Brown", "Margherita", 1, "2024-03-23 17:00", "Pending"),
    Order("PZA005", "Charlie Wilson", "Pepperoni", 2, "2024-03-23 17:30", "Cancelled")
  ]

  /** The `statusColors` object as its entries, in insertion order (the order
      `Object.keys` lists them in, since no key is an array index). */
  const StatusColors: seq<(string, string)> := [
    ("Pending", "bg-yellow-100 text-yellow-800"),
    ("Preparing", "bg-blue-100 text-blue-800"),
    ("Out for Delivery", "bg-purple-100 text-purple-800"),
    ("Delivered", "bg-green-100 text-green-800"),
    ("Cancelled", "bg-red-100 text-red-800")
  ]

  /** `Object.keys` of an object given by its entries, in insertion order.
      That is JavaScript's order only for keys that are not array indices
      (none of `statusColors`' keys is one). */
  function Keys(entries: seq<(string, string)>): (ks: seq<string>)
    ensures |ks| == |entries|
    ensures forall i :: 0 <= i < |entries| ==> ks[i] == entries[i].0
  {
    if entries == [] then [] else [entries[0].0] + Keys(entries[1..])
  }

  /** Property lookup `entries[key]` on the object's own entries: the value of
      the first entry with that key, or None when no own key matches. Names
      inherited from `Object.prototype` are not entries here. */
  function Lookup(entries: seq<(string, string)>, key: string): (r: Option<string>)
    ensures r.Some? <==> key in Keys(entries)
    ensures r.Some? ==> (key, r.value) in entries
  {
    if entries == [] then None
    else if entries[0].0 == key then Some(entries[0].1)
    else Lookup(entries[1..], key)
  }

  /** The class string of an order's status badge. */
  function BadgeClass(status: string): (r: Option<string>)
  {
    Lookup(StatusColors, status)
  }

  /** The options of the status filter: "all", then every key of `statusColors`. */
  function FilterOptions(): (r: seq<string>)
  {
    ["all"] + Keys(StatusColors)
  }

  /** Every mock order's status has a badge colour, so the badge lookup never
      yields `undefined`. */
  lemma BadgeLookupTotal()
    ensures forall o :: o in MockOrders ==> BadgeClass(o.status).Some?
  {
  }

  /** The filter offers "all" and exactly the five statuses; "all" is not itself
      a status, so choosing it can never be mistaken for a status. */
  lemma FilterOptionsAreAllAndStatuses()
    ensures FilterOptions() == ["all", "Pending", "Preparing", "Out for Delivery", "Delivered", "Cancelled"]
    ensures "all" !in Keys(StatusColors)
    ensures forall o :: o in MockOrders ==> o.status in Keys(StatusColors)
  {
  }
}
