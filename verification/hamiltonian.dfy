/** The fixed zig-zag Hamiltonian cycle the autopilot follows.

    On a w x h board the cycle starts at (1, 0), runs along the top row to
    (w-1, 0), snakes through rows 1 .. h-1 over columns 1 .. w-1 (odd rows
    right to left, even rows left to right) and returns up column 0 from
    (0, h-1) to (0, 0), whose successor is the start again. */
module Hamiltonian {
  import opened Grid

  /** Cells covered by the row part of the cycle: every row except column 0. */
  function RowPart(w: int, h: int): int
    requires w >= 1 && h >= 1
  {
    h * (w - 1)
  }

  /** The `i`-th cell of the cycle. */
  function CycleCell(w: int, h: int, i: int): Cell
    requires w >= 1 && h >= 1 && 0 <= i
  {
    if i < RowPart(w, h) then
      var r, k := i / (w - 1), i % (w - 1);
      if r % 2 == 1 then Cell(w - 1 - k, r) else Cell(k + 1, r)
    else
      Cell(0, h - 1 - (i - RowPart(w, h)))
  }

  /** The position of an in-grid cell on the cycle (the inverse of CycleCell). */
  function CycleIndex(w: int, h: int, c: Cell): int
    requires w >= 1 && h >= 1 && InRect(c, w, h)
  {
    if c.x == 0 then RowPart(w, h) + (h - 1 - c.y)
    else c.y * (w - 1) + (if c.y % 2 == 1 then w - 1 - c.x else c.x - 1)
  }

  lemma MulMono(a: int, b: int, n: int)
    requires 0 <= a <= b && n >= 0
    ensures a * n <= b * n
  {
  }

  /** Euclidean division of `r * n + k` by `n` recovers `r` and `k`. */
  lemma DivModOfRow(n: int, r: int, k: int)
    requires n > 0 && r >= 0 && 0 <= k < n
    ensures (r * n + k) / n == r && (r * n + k) % n == k
  {
    var i := r * n + k;
    var q, m := i / n, i % n;
    assert i == q * n + m;
    assert (q - r) * n == k - m;
    if q > r {
      MulMono(1, q - r, n);
    } else if q < r {
      MulMono(1, r - q, n);
    }
  }

  /** Cell `k` (0-based) of row `r` of the row part. */
  lemma CycleCellInRow(w: int, h: int, r: int, k: int)
    requires w >= 2 && h >= 1 && 0 <= r < h && 0 <= k < w - 1
    ensures 0 <= r * (w - 1) + k < RowPart(w, h) <= w * h
    ensures CycleCell(w, h, r * (w - 1) + k) ==
            if r % 2 == 1 then Cell(w - 1 - k, r) else Cell(k + 1, r)
  {
    MulMono(r + 1, h, w - 1);
    MulMono(0, r, w - 1);
    DivModOfRow(w - 1, r, k);
  }

  /** Cell `j` (0-based) of the closing run up column 0. */
  lemma CycleCellInColumn(w: int, h: int, j: int)
    requires w >= 1 && h >= 1 && 0 <= j < h
    ensures RowPart(w, h) + j < w * h
    ensures CycleCell(w, h, RowPart(w, h) + j) == Cell(0, h - 1 - j)
  {
  }

  /** Every position of the cycle holds an in-grid cell, and CycleIndex takes it back. */
  lemma CycleCellRoundTrip(w: int, h: int, i: int)
    requires w >= 1 && h >= 1 && 0 <= i < w * h
    ensures InRect(CycleCell(w, h, i), w, h)
    ensures CycleIndex(w, h, CycleCell(w, h, i)) == i
  {
    if i < RowPart(w, h) {
      RowPositionRoundTrip(w, h, i);
    } else {
      CycleCellInColumn(w, h, i - RowPart(w, h));
    }
  }

  /** A position of the row part lies in row `i / (w - 1)`; its cell maps back to it. */
  lemma RowPositionRoundTrip(w: int, h: int, i: int)
    requires w >= 1 && h >= 1 && 0 <= i < RowPart(w, h)
    ensures InRect(CycleCell(w, h, i), w, h)
    ensures CycleIndex(w, h, CycleCell(w, h, i)) == i
  {
    var r, k := RowAndOffset(w, h, i);
    CycleCellInRow(w, h, r, k);
  }

  /** Splits a position of the row part into its row and its offset in the row. */
  lemma RowAndOffset(w: int, h: int, i: int) returns (r: int, k: int)
    requires w >= 1 && h >= 1 && 0 <= i < RowPart(w, h)
    ensures w >= 2 && 0 <= r < h && 0 <= k < w - 1 && i == r * (w - 1) + k
  {
    var n := w - 1;
    if n <= 0 {
      MulMono(0, h, n);
    }
    r, k := i / n, i % n;
    if r >= h {
      MulMono(h, r, n);
    }
  }

  /** Every in-grid cell sits at position CycleIndex on the cycle. */
  lemma CycleIndexRoundTrip(w: int, h: int, c: Cell)
    requires w >= 1 && h >= 1 && InRect(c, w, h)
    ensures 0 <= CycleIndex(w, h, c) < w * h
    ensures CycleCell(w, h, CycleIndex(w, h, c)) == c
  {
    if c.x == 0 {
      CycleCellInColumn(w, h, h - 1 - c.y);
    } else {
      RowCellIndexRoundTrip(w, h, c);
    }
  }

  lemma RowCellIndexRoundTrip(w: int, h: int, c: Cell)
    requires w >= 1 && h >= 1 && InRect(c, w, h) && c.x != 0
    ensures 0 <= CycleIndex(w, h, c) < w * h
    ensures CycleCell(w, h, CycleIndex(w, h, c)) == c
  {
    var k := if c.y % 2 == 1 then w - 1 - c.x else c.x - 1;
    var i := c.y * (w - 1) + k;
    assert CycleIndex(w, h, c) == i;
    CycleCellInRow(w, h, c.y, k);
  }

  /** The cycle is a permutation of the board: positions 0 .. w*h-1 hold
      pairwise distinct in-grid cells, and every in-grid cell is one of them. */
  lemma CycleIsPermutation(w: int, h: int)
    requires w >= 1 && h >= 1
    ensures forall i :: 0 <= i < w * h ==> InRect(CycleCell(w, h, i), w, h)
    ensures forall i, j :: 0 <= i < j < w * h ==> CycleCell(w, h, i) != CycleCell(w, h, j)
    ensures forall c :: InRect(c, w, h) ==>
              0 <= CycleIndex(w, h, c) < w * h && CycleCell(w, h, CycleIndex(w, h, c)) == c
  {
    forall i | 0 <= i < w * h
      ensures InRect(CycleCell(w, h, i), w, h) && CycleIndex(w, h, CycleCell(w, h, i)) == i
    {
      CycleCellRoundTrip(w, h, i);
    }
    forall c | InRect(c, w, h)
      ensures 0 <= CycleIndex(w, h, c) < w * h && CycleCell(w, h, CycleIndex(w, h, c)) == c
    {
      CycleIndexRoundTrip(w, h, c);
    }
  }

  /** With an even number of rows and at least two columns, consecutive cells
      of the cycle are 4-neighbours, including the wrap from the last cell
      (0, 0) back to the first cell (1, 0). */
  lemma CycleIsAdjacent(w: int, h: int, i: int)
    requires w >= 2 && h >= 2 && h % 2 == 0 && 0 <= i < w * h
    ensures Adjacent(CycleCell(w, h, i), CycleCell(w, h, (i + 1) % (w * h)))
  {
    NextPosition(i, w * h);
    if i + 1 == w * h {
      WrapIsAdjacent(w, h);
    } else {
      StepIsAdjacent(w, h, i);
    }
  }

  /** The position after `i` on a cycle of length `n`. */
  lemma NextPosition(i: int, n: int)
    requires 0 <= i < n
    ensures (i + 1) % n == if i + 1 == n then 0 else i + 1
  {
    if i + 1 == n {
      assert (i + 1) % n == (1 * n + 0) % n;
    }
  }

  /** The last cell (0, 0) and the first cell (1, 0). */
  lemma WrapIsAdjacent(w: int, h: int)
    requires w >= 2 && h >= 1
    ensures Adjacent(CycleCell(w, h, w * h - 1), CycleCell(w, h, 0))
  {
    assert w * h - 1 == RowPart(w, h) + (h - 1);
    CycleCellInColumn(w, h, h - 1);
    CycleCellInRow(w, h, 0, 0);
  }

  /** Every step that does not wrap around lands on a neighbour. */
  lemma StepIsAdjacent(w: int, h: int, i: int)
    requires w >= 2 && h >= 2 && h % 2 == 0 && 0 <= i && i + 1 < w * h
    ensures Adjacent(CycleCell(w, h, i), CycleCell(w, h, i + 1))
  {
    if i < RowPart(w, h) {
      var r, k := RowAndOffset(w, h, i);
      RowStepIsAdjacent(w, h, r, k);
    } else {
      var j := i - RowPart(w, h);
      ColumnFollowsRows(w, h);
      CycleCellInColumn(w, h, j);
      CycleCellInColumn(w, h, j + 1);
    }
  }

  /** The closing column takes the last `h` positions. */
  lemma ColumnFollowsRows(w: int, h: int)
    requires w >= 1 && h >= 1
    ensures RowPart(w, h) + h == w * h
  {
  }

  /** A step from cell `k` of row `r` lands on a neighbour: the next cell of
      the same row, the first cell of the next row, or the foot of column 0. */
  lemma RowStepIsAdjacent(w: int, h: int, r: int, k: int)
    requires w >= 2 && h >= 2 && h % 2 == 0 && 0 <= r < h && 0 <= k < w - 1
    ensures Adjacent(CycleCell(w, h, r * (w - 1) + k), CycleCell(w, h, r * (w - 1) + k + 1))
  {
    if k + 1 < w - 1 {
      AlongRowIsAdjacent(w, h, r, k);
    } else if r + 1 < h {
      RowTurnIsAdjacent(w, h, r, k);
    } else {
      IntoColumnIsAdjacent(w, h, r, k);
    }
  }

  /** Two consecutive cells of one row. */
  lemma AlongRowIsAdjacent(w: int, h: int, r: int, k: int)
    requires w >= 2 && h >= 1 && 0 <= r < h && 0 <= k && k + 1 < w - 1
    ensures Adjacent(CycleCell(w, h, r * (w - 1) + k), CycleCell(w, h, r * (w - 1) + k + 1))
  {
    CycleCellInRow(w, h, r, k);
    CycleCellInRow(w, h, r, k + 1);
  }

  /** The last cell of row `r` and the first cell of row `r + 1` are stacked vertically. */
  lemma RowTurnIsAdjacent(w: int, h: int, r: int, k: int)
    requires w >= 2 && h >= 1 && 0 <= r && r + 1 < h && k == w - 2
    ensures Adjacent(CycleCell(w, h, r * (w - 1) + k), CycleCell(w, h, r * (w - 1) + k + 1))
  {
    CycleCellInRow(w, h, r, k);
    assert r * (w - 1) + k + 1 == (r + 1) * (w - 1) + 0;
    CycleCellInRow(w, h, r + 1, 0);
  }

  /** The end of the last row, (1, h-1) when h is even, and the foot of column 0. */
  lemma IntoColumnIsAdjacent(w: int, h: int, r: int, k: int)
    requires w >= 2 && h >= 2 && h % 2 == 0 && r == h - 1 && k == w - 2
    ensures Adjacent(CycleCell(w, h, r * (w - 1) + k), CycleCell(w, h, r * (w - 1) + k + 1))
  {
    CycleCellInRow(w, h, r, k);
    assert r * (w - 1) + k + 1 == RowPart(w, h) + 0;
    CycleCellInColumn(w, h, 0);
  }

  /** `p` holds the first |p| cells of the cycle. */
  ghost predicate CyclePrefix(p: seq<Cell>, w: int, h: int)
    requires w >= 1 && h >= 1
  {
    forall i :: 0 <= i < |p| ==> p[i] == CycleCell(w, h, i)
  }

  lemma ExtendCyclePrefix(p: seq<Cell>, w: int, h: int, c: Cell)
    requires w >= 1 && h >= 1 && CyclePrefix(p, w, h) && c == CycleCell(w, h, |p|)
    ensures CyclePrefix(p + [c], w, h)
  {
  }

  /** `IsZigZag(p, w, h)`: `p` lists the cycle's cells in order. */
  ghost predicate IsZigZag(p: seq<Cell>, w: int, h: int)
    requires w >= 1 && h >= 1
  {
    |p| == w * h && forall i :: 0 <= i < |p| ==> p[i] == CycleCell(w, h, i)
  }

  /** `m` maps every cell of the duplicate-free path `p` to its position. */
  ghost predicate IndexesPath(m: map<Cell, nat>, p: seq<Cell>)
  {
    (forall c :: c in m <==> c in p) &&
    (forall i :: 0 <= i < |p| ==> p[i] in m && m[p[i]] == i)
  }

  /** The generator object: the board size, the cycle as a list of cells and
      `cycle_map`, the dictionary from each cell to its position on it. The
      randomised spanning tree the source computes first is discarded by the
      cycle construction and is not part of this model. */
  class HamiltonianGenerator {
    const w: int
    const h: int
    var cycleMap: map<Cell, nat>
    var path: seq<Cell>

    constructor (w: int, h: int)
      requires w >= 1 && h >= 1
      ensures this.w == w && this.h == h
      ensures IsZigZag(path, w, h)
      ensures IndexesPath(cycleMap, path)
      ensures forall c :: c in cycleMap <==> InRect(c, w, h)
    {
      this.w := w;
      this.h := h;
      cycleMap := map[];
      path := [];
      new;
      Generate();
    }

    /** Builds the path and fills `cycleMap` by enumerating it. */
    method Generate()
      requires w >= 1 && h >= 1 && cycleMap == map[]
      modifies this
      ensures IsZigZag(path, w, h)
      ensures IndexesPath(cycleMap, path)
      ensures forall c :: c in cycleMap <==> InRect(c, w, h)
    {
      var p := ExpandToCycle();
      path := p;
      CycleIsPermutation(w, h);
      for idx := 0 to |p|
        invariant path == p
        invariant forall c :: c in cycleMap <==> c in path[..idx]
        invariant forall j :: 0 <= j < idx ==> path[j] in cycleMap && cycleMap[path[j]] == j
      {
        cycleMap := cycleMap[p[idx] := idx];
      }
      assert path[..|path|] == path;
      forall c | InRect(c, w, h)
        ensures c in path
      {
        assert path[CycleIndex(w, h, c)] == c;
      }
    }

    /** The zig-zag construction: the top row from column 1 rightwards, then
        rows 1 .. h-1 over columns 1 .. w-1 alternating direction, then
        column 0 from the bottom row up to (0, 0). */
    method ExpandToCycle() returns (p: seq<Cell>)
      requires w >= 1 && h >= 1
      ensures |p| == w * h
      ensures forall i :: 0 <= i < |p| ==> p[i] == CycleCell(w, h, i)
    {
      p := [];
      for c := 1 to w
        invariant |p| == c - 1
        invariant CyclePrefix(p, w, h)
      {
        assert Cell(c, 0) == CycleCell(w, h, |p|) by {
          CycleCellInRow(w, h, 0, c - 1);
        }
        ExtendCyclePrefix(p, w, h, Cell(c, 0));
        p := p + [Cell(c, 0)];
      }
      for r := 1 to h
        invariant |p| == r * (w - 1)
        invariant CyclePrefix(p, w, h)
      {
        ghost var base := |p|;
        if r % 2 == 1 {
          for c := w downto 1
            invariant |p| == base + (w - c)
            invariant CyclePrefix(p, w, h)
          {
            assert Cell(c, r) == CycleCell(w, h, |p|) by {
              CycleCellInRow(w, h, r, w - 1 - c);
            }
            ExtendCyclePrefix(p, w, h, Cell(c, r));
            p := p + [Cell(c, r)];
          }
        } else {
          for c := 1 to w
            invariant |p| == base + (c - 1)
            invariant CyclePrefix(p, w, h)
          {
            assert Cell(c, r) == CycleCell(w, h, |p|) by {
              CycleCellInRow(w, h, r, c - 1);
            }
            ExtendCyclePrefix(p, w, h, Cell(c, r));
            p := p + [Cell(c, r)];
          }
        }
        assert |p| == (r + 1) * (w - 1);
      }
      assert |p| == RowPart(w, h);
      for r := h downto 0
        invariant |p| == RowPart(w, h) + (h - r)
        invariant CyclePrefix(p, w, h)
      {
        assert Cell(0, r) == CycleCell(w, h, |p|) by {
          CycleCellInColumn(w, h, h - 1 - r);
        }
        ExtendCyclePrefix(p, w, h, Cell(0, r));
        p := p + [Cell(0, r)];
      }
      assert RowPart(w, h) + h == w * h;
    }
  }
}
