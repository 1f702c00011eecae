/** What the two tables borrow from the hosted document store: document ids,
    the optional result of `.first()`, and the newest-first order of
    `.order("desc")`. */
module Db {

  /** A document id (`_id`). The store hands out a fresh id on every insert;
      the model draws them from a per-table counter, so a larger id means a
      later insert, and id order is creation order. */
  type DocId = nat

  /** The result of `.first()`: a document, or nothing when no document matches. */
  datatype Option<+T> = None | Some(value: T)

  /** `.order("desc")` over a table kept in insertion order: the newest
      document comes first. */
  function Reverse<T>(s: seq<T>): (r: seq<T>)
    ensures |r| == |s|
    ensures forall i :: 0 <= i < |s| ==> r[i] == s[|s| - 1 - i]
    ensures multiset(r) == multiset(s)
  {
    if |s| == 0 then []
    else
      var last := |s| - 1;
      assert s == s[..last] + [s[last]];
      [s[last]] + Reverse(s[..last])
  }
}
