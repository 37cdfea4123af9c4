/** Rows kept in a ring (RowBuffer of lib/jpegli/common_internal.h). */
module RowBuffers {
  import opened Arithmetic
  import opened AdaptiveField

  /** The slot of row y; y may be as small as -n. */
  function Slot(n: nat, y: int): (s: nat)
    requires n > 0 && n + y >= 0
    ensures s < n
  {
    (n + y) % n
  }

  /** Rows fewer than n apart do not share a slot. */
  lemma SlotsDiffer(n: nat, a: int, b: int)
    requires n > 0 && n + a >= 0 && a < b < a + n
    ensures Slot(n, a) != Slot(n, b)
  {
    var x, y := n + a, n + b;
    QuotientAndRest(n, x);
    QuotientAndRest(n, y);
    Spread(n, y / n, x / n);
    NoMultipleBetween(n, y / n - x / n);
  }

  /** A ring of rows of equal length; entry x + border of a row holds column x. */
  class RowBuffer {
    const rows: array<Line>

    constructor (numRows: nat, rowSize: nat)
      ensures fresh(rows) && rows.Length == numRows && forall s :: 0 <= s < numRows ==> |rows[s]| == rowSize
    {
      rows := new Line[numRows](_ => seq(rowSize, _ => 0.0));
    }

    function At(y: int): Line
      requires rows.Length > 0 && rows.Length + y >= 0
      reads rows
    {
      rows[Slot(rows.Length, y)]
    }

    method Put(y: int, line: Line)
      requires rows.Length > 0 && rows.Length + y >= 0
      modifies rows
      ensures rows[..] == old(rows[..])[Slot(rows.Length, y) := line]
    {
      rows[Slot(rows.Length, y)] := line;
    }

    method CopyRow(dst: int, src: int)
      requires rows.Length > 0 && rows.Length + dst >= 0 && rows.Length + src >= 0
      modifies rows
      ensures rows[..] == old(rows[..])[Slot(rows.Length, dst) := old(At(src))]
    {
      rows[Slot(rows.Length, dst)] := rows[Slot(rows.Length, src)];
    }
  }

  /** A row whose first `from` columns are set, with the border of one entry at either end and the columns
      up to the end repeated from the nearest of them. */
  function Padded(line: Line, from: nat): (r: Line)
    requires 1 <= from && from + 2 <= |line|
    ensures |r| == |line|
  {
    seq(|line|, x requires 0 <= x < |line| => line[Clamp(x - 1, from) + 1])
  }

  method PadRow(line: Line, from: nat) returns (r: Line)
    requires 1 <= from && from + 2 <= |line|
    ensures r == Padded(line, from)
  {
    r := line[0 := line[1]];
    var lastVal := r[from];
    for x := from + 1 to |line|
      invariant |r| == |line|
      invariant forall k :: 0 <= k < x ==> r[k] == line[Clamp(k - 1, from) + 1]
      invariant forall k :: x <= k < |line| ==> r[k] == line[k]
    {
      r := r[x := lastVal];
    }
  }
}
