/** Rows of sibling page elements (slides, dots, background layers) each of
    which may carry the "active" class. A row is modelled by one flag per
    element, in document order; the document tree itself is not modelled. */
module Rows {

  /** The row of `n` elements left by clearing "active" on all of them and
      then setting it on the element at position `k`: exactly that element
      is active when `k` is a position of the row, and none otherwise. */
  function Highlight(n: nat, k: int): (row: seq<bool>)
    ensures |row| == n
    ensures 0 <= k < n ==> OnlyActiveAt(row, k)
    ensures !(0 <= k < n) ==> forall i :: 0 <= i < n ==> !row[i]
    ensures CountActive(row) == if 0 <= k < n then 1 else 0
  {
    var row := seq(n, i => i == k);
    CountSingle(row, k);
    row
  }

  /** The row of `n` elements with "active" removed from every one. */
  function Cleared(n: nat): (row: seq<bool>)
    ensures |row| == n
    ensures forall i :: 0 <= i < n ==> !row[i]
    ensures CountActive(row) == 0
  {
    Highlight(n, -1)
  }

  /** Number of active elements in a row. */
  function CountActive(row: seq<bool>): nat
  {
    if |row| == 0 then 0 else (if row[0] then 1 else 0) + CountActive(row[1..])
  }

  /** Exactly the element at position `k` of `row` is active. */
  predicate OnlyActiveAt(row: seq<bool>, k: int)
  {
    0 <= k < |row| && forall i :: 0 <= i < |row| ==> (row[i] <==> i == k)
  }

  /** A row in which the active elements are those equal to `k` has one
      active element when `k` is a position of the row and none otherwise. */
  lemma {:induction false} CountSingle(row: seq<bool>, k: int)
    requires forall i :: 0 <= i < |row| ==> (row[i] <==> i == k)
    ensures CountActive(row) == if 0 <= k < |row| then 1 else 0
  {
    if |row| > 0 {
      var tail := row[1..];
      assert forall i :: 0 <= i < |tail| ==> (tail[i] <==> i == k - 1) by {
        forall i | 0 <= i < |tail| ensures tail[i] <==> i == k - 1 {
          assert tail[i] == row[i + 1];
        }
      }
      CountSingle(tail, k - 1);
    }
  }

  /** "Exactly one active" in the sense of counting agrees with the
      positional description. */
  lemma OnlyActiveCountsOne(row: seq<bool>, k: int)
    requires OnlyActiveAt(row, k)
    ensures CountActive(row) == 1
  {
    CountSingle(row, k);
  }
}
