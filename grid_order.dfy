/**
 * Cells of a grid, written (column, row) or (i, j), and the row-major
 * order in which the nested `for` loops of both scripts visit them.
 */
module GridOrder {
  type Slot = (nat, nat)

  predicate SlotBefore(p: Slot, q: Slot) {
    p.0 < q.0 || (p.0 == q.0 && p.1 < q.1)
  }

  ghost predicate Increasing(s: seq<Slot>) {
    forall i, j :: 0 <= i < j < |s| ==> SlotBefore(s[i], s[j])
  }

  /** Rows lo .. hi - 1 of column c. */
  function Row(c: nat, lo: nat, hi: int): seq<Slot>
    decreases hi - lo
  {
    if hi <= lo then [] else Row(c, lo, hi - 1) + [(c, hi - 1)]
  }

  lemma {:induction false} RowFacts(c: nat, lo: nat, hi: int)
    ensures forall p: Slot :: p in Row(c, lo, hi) <==> (p.0 == c && lo <= p.1 < hi)
    ensures Increasing(Row(c, lo, hi))
    decreases hi - lo
  {
    if hi > lo {
      RowFacts(c, lo, hi - 1);
    }
  }

  lemma AppendIncreasing(a: seq<Slot>, b: seq<Slot>)
    requires Increasing(a) && Increasing(b)
    requires forall p, q :: p in a && q in b ==> SlotBefore(p, q)
    ensures Increasing(a + b)
  {
    forall i, j | 0 <= i < j < |a + b|
      ensures SlotBefore((a + b)[i], (a + b)[j])
    {
      if j < |a| {
        assert (a + b)[i] == a[i] && (a + b)[j] == a[j];
      } else if i >= |a| {
        assert (a + b)[i] == b[i - |a|] && (a + b)[j] == b[j - |a|];
      } else {
        assert (a + b)[i] in a && (a + b)[j] in b;
      }
    }
  }

  /** In an increasing sequence, the order of two entries is the order of their indices. */
  lemma IndexOrder(s: seq<Slot>, i: nat, j: nat)
    requires Increasing(s) && i < |s| && j < |s| && SlotBefore(s[i], s[j])
    ensures i < j
  {
  }

  /** All cells (i, j) with i < ni and j < nj, row by row. */
  function Cells(ni: nat, nj: nat): seq<Slot> {
    if ni == 0 then [] else Cells(ni - 1, nj) + Row(ni - 1, 0, nj)
  }

  lemma {:induction false} CellsLength(ni: nat, nj: nat)
    ensures |Cells(ni, nj)| == ni * nj
  {
    if ni > 0 {
      CellsLength(ni - 1, nj);
      RowLength(ni - 1, 0, nj);
      calc {
        |Cells(ni, nj)|;
        (ni - 1) * nj + nj;
        { MulSucc(ni - 1, nj); }
        ni * nj;
      }
    }
  }

  lemma MulSucc(a: int, n: int)
    ensures (a + 1) * n == a * n + n
  {
  }

  lemma {:induction false} CellsFacts(ni: nat, nj: nat)
    ensures forall p: Slot :: p in Cells(ni, nj) <==> (p.0 < ni && p.1 < nj)
    ensures Increasing(Cells(ni, nj))
  {
    if ni > 0 {
      CellsFacts(ni - 1, nj);
      RowFacts(ni - 1, 0, nj);
      AppendIncreasing(Cells(ni - 1, nj), Row(ni - 1, 0, nj));
    }
  }

  /** Every cell of the grid has a position in Cells. */
  lemma CellIndex(ni: nat, nj: nat, i: nat, j: nat) returns (c: nat)
    requires i < ni && j < nj
    ensures c < |Cells(ni, nj)| && Cells(ni, nj)[c] == (i, j)
  {
    CellsFacts(ni, nj);
    var p: Slot := (i, j);
    assert p in Cells(ni, nj);
    c :| c < |Cells(ni, nj)| && Cells(ni, nj)[c] == p;
  }

  /** Every entry of Cells lies in the grid. */
  lemma CellInGrid(ni: nat, nj: nat, c: nat)
    requires c < |Cells(ni, nj)|
    ensures Cells(ni, nj)[c].0 < ni && Cells(ni, nj)[c].1 < nj
  {
    CellsFacts(ni, nj);
    assert Cells(ni, nj)[c] in Cells(ni, nj);
  }

  /** Cells lists the grid in strictly increasing order. */
  lemma CellsOrdered(ni: nat, nj: nat, c: nat, c': nat)
    requires c < c' < |Cells(ni, nj)|
    ensures SlotBefore(Cells(ni, nj)[c], Cells(ni, nj)[c'])
  {
    CellsFacts(ni, nj);
  }

  lemma {:induction false} RowLength(c: nat, lo: nat, hi: int)
    ensures |Row(c, lo, hi)| == if hi <= lo then 0 else hi - lo
    decreases hi - lo
  {
    if hi > lo {
      RowLength(c, lo, hi - 1);
    }
  }
}
