/** What arrays and heaps hold, and how their clients compare it. */
module Items {

  /** An item pointer; NIL is the null pointer. */
  type Item = nat
  const NIL: Item := 0

  type Comparator = (Item, Item) -> int
}
