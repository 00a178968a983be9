/** The bounds-checked subscript `collection[optional: i]` that the calendar
    reconciliation uses to turn a search index into a record. */
module CollectionOptional {
  import opened Wrappers

  /** `Some` element when `i` is one of the collection's indices, `None`
      otherwise: negative positions (the search sentinel -1 among them) and
      positions at or past the end, so every position of an empty collection.
      The bounds check comes first, so the function is total. */
  function At<T>(s: seq<T>, i: int): (r: Option<T>)
    ensures 0 <= i < |s| ==> r == Some(s[i])
    ensures i < 0 ==> r == None
    ensures i >= |s| ==> r == None
  {
    if 0 <= i < |s| then Some(s[i]) else None
  }
}
