/** Gaussian elimination over GF(2) to systematic form (`gauss`). Columns are
    scanned left to right; a pivot row found below the current one is ADDED into
    it instead of swapped with it, and the pivot column is then cleared in every
    other row. The pivot columns found form the information set. */
module Elimination {
  import opened Common
  import opened Linalg

  /** The output of `gauss`: the reduced rows and the pivot columns in the order found. */
  datatype Reduction = Reduction(rows: Matrix, pivots: seq<nat>)

  /** The first row at index `i` or later with a true entry in column `j`. */
  function FindRow(m: Matrix, n: nat, j: nat, i: nat): (r: Option<nat>)
    requires Rectangular(m, n) && j < n
    ensures r.Some? ==> i <= r.value < |m| && m[r.value][j]
    ensures r.Some? ==> forall t :: i <= t < r.value ==> !m[t][j]
    ensures r.None? ==> forall t :: i <= t < |m| ==> !m[t][j]
    decreases |m| - i
  {
    if i >= |m| then None
    else if m[i][j] then Some(i)
    else FindRow(m, n, j, i + 1)
  }

  /** Rows `i ..` other than `p` that have a true entry in column `j` get row `p` added. */
  function ClearColumn(m: Matrix, n: nat, p: nat, j: nat, i: nat): (r: Matrix)
    requires Rectangular(m, n) && p < |m| && j < n && i <= |m|
    ensures |r| == |m| && Rectangular(r, n)
    decreases |m| - i
  {
    if i == |m| then m
    else if i == p || !m[i][j] then ClearColumn(m, n, p, j, i + 1)
    else ClearColumn(AddRowInto(m, i, p), n, p, j, i + 1)
  }

  /** Clearing changes exactly the rows from `i` on, other than `p`, that have a true
      entry in column `j`, each by adding row `p`. */
  lemma {:induction false} ClearColumnRows(m: Matrix, n: nat, p: nat, j: nat, i: nat)
    requires Rectangular(m, n) && p < |m| && j < n && i <= |m|
    ensures forall t :: 0 <= t < |m| ==>
              ClearColumn(m, n, p, j, i)[t] == if i <= t && t != p && m[t][j] then Add(m[t], m[p]) else m[t]
    decreases |m| - i
  {
    if i < |m| {
      if i == p || !m[i][j] {
        ClearColumnRows(m, n, p, j, i + 1);
      } else {
        ClearColumnRows(AddRowInto(m, i, p), n, p, j, i + 1);
      }
    }
  }

  /** One iteration of the column loop of `gauss`, for column `j`. */
  function EliminateColumn(e: Reduction, n: nat, j: nat): (r: Reduction)
    requires Rectangular(e.rows, n) && j < n
    ensures |r.rows| == |e.rows| && Rectangular(r.rows, n)
  {
    var p := |e.pivots|;
    match FindRow(e.rows, n, j, p)
    case None => e
    case Some(found) =>
      var m1 := if found != p then AddRowInto(e.rows, p, found) else e.rows;
      Reduction(ClearColumn(m1, n, p, j, 0), e.pivots + [j])
  }

  /** The column loop of `gauss` from column `j` on. */
  function GaussFrom(e: Reduction, n: nat, j: nat): (r: Reduction)
    requires Rectangular(e.rows, n) && j <= n
    ensures |r.rows| == |e.rows| && Rectangular(r.rows, n)
    decreases n - j
  {
    if j == n then e else GaussFrom(EliminateColumn(e, n, j), n, j + 1)
  }

  /** Pivot column `piv[q]` is true in row `q` and false in every other row. */
  ghost predicate UnitColumns(m: Matrix, piv: seq<nat>) {
    forall q, t :: 0 <= q < |piv| && 0 <= t < |m| && piv[q] < |m[t]| ==> m[t][piv[q]] == (t == q)
  }

  /** The rows from `p` on are zero in every column before `j`. */
  ghost predicate ZeroBelow(m: Matrix, p: nat, j: nat) {
    forall t, c :: p <= t < |m| && 0 <= c < j && c < |m[t]| ==> !m[t][c]
  }

  /** Row `q` is false in every column before its pivot `piv[q]`: the pivot is the
      leading entry of its row. */
  ghost predicate LeadingZeros(m: Matrix, piv: seq<nat>) {
    forall q, c :: 0 <= q < |piv| && q < |m| && 0 <= c < piv[q] && c < |m[q]| ==> !m[q][c]
  }

  /** What holds of the working matrix before column `j` is processed. */
  ghost predicate Reduced(m0: Matrix, e: Reduction, n: nat, j: nat) {
    && |e.rows| == |m0| && Rectangular(e.rows, n) && j <= n
    && |e.pivots| <= |e.rows|
    && StrictlyIncreasing(e.pivots)
    && (forall q :: 0 <= q < |e.pivots| ==> e.pivots[q] < j)
    && UnitColumns(e.rows, e.pivots)
    && LeadingZeros(e.rows, e.pivots)
    && ZeroBelow(e.rows, |e.pivots|, j)
    && SameRowSpace(m0, e.rows, n)
    && (FullRank(m0, n) ==> FullRank(e.rows, n))
  }

  /** Clearing a column is a sequence of row operations, each between two different rows. */
  lemma ClearColumnPreserves(m: Matrix, n: nat, p: nat, j: nat, i: nat)
    requires Rectangular(m, n) && p < |m| && j < n && i <= |m|
    ensures SameRowSpace(m, ClearColumn(m, n, p, j, i), n)
    ensures FullRank(m, n) ==> FullRank(ClearColumn(m, n, p, j, i), n)
  {
    ClearColumnSameSpace(m, n, p, j, i);
    ClearColumnFullRank(m, n, p, j, i);
  }

  lemma {:induction false} ClearColumnSameSpace(m: Matrix, n: nat, p: nat, j: nat, i: nat)
    requires Rectangular(m, n) && p < |m| && j < n && i <= |m|
    ensures SameRowSpace(m, ClearColumn(m, n, p, j, i), n)
    decreases |m| - i
  {
    if i < |m| {
      var m' := ClearStep(m, n, p, j, i);
      ClearColumnSameSpace(m', n, p, j, i + 1);
      ClearSameSpaceStep(m, m', n, p, j, i);
    } else {
      ClearSameSpaceDone(m, n, p, j);
    }
  }

  lemma ClearSameSpaceStep(m: Matrix, m': Matrix, n: nat, p: nat, j: nat, i: nat)
    requires Rectangular(m, n) && p < |m| && j < n && i < |m|
    requires Rectangular(m', n) && |m'| == |m| && SameRowSpace(m, m', n)
    requires ClearColumn(m, n, p, j, i) == ClearColumn(m', n, p, j, i + 1)
    requires SameRowSpace(m', ClearColumn(m', n, p, j, i + 1), n)
    ensures SameRowSpace(m, ClearColumn(m, n, p, j, i), n)
  {
    SameRowSpaceTrans(m, m', ClearColumn(m', n, p, j, i + 1), n);
  }

  lemma ClearSameSpaceDone(m: Matrix, n: nat, p: nat, j: nat)
    requires Rectangular(m, n) && p < |m| && j < n
    ensures SameRowSpace(m, ClearColumn(m, n, p, j, |m|), n)
  {
    assert ClearColumn(m, n, p, j, |m|) == m;
  }

  lemma {:induction false} ClearColumnFullRank(m: Matrix, n: nat, p: nat, j: nat, i: nat)
    requires Rectangular(m, n) && p < |m| && j < n && i <= |m|
    ensures FullRank(m, n) ==> FullRank(ClearColumn(m, n, p, j, i), n)
    decreases |m| - i
  {
    if i < |m| {
      var m' := ClearStep(m, n, p, j, i);
      ClearColumnFullRank(m', n, p, j, i + 1);
    } else {
      assert ClearColumn(m, n, p, j, i) == m;
    }
  }

  /** The matrix after the row `i` turn of the clearing loop, which keeps the code and full rank. */
  lemma ClearStep(m: Matrix, n: nat, p: nat, j: nat, i: nat) returns (m': Matrix)
    requires Rectangular(m, n) && p < |m| && j < n && i < |m|
    ensures Rectangular(m', n) && |m'| == |m|
    ensures ClearColumn(m, n, p, j, i) == ClearColumn(m', n, p, j, i + 1)
    ensures SameRowSpace(m, m', n) && (FullRank(m, n) ==> FullRank(m', n))
  {
    if i == p || !m[i][j] {
      m' := m;
    } else {
      m' := AddRowInto(m, i, p);
      RowOpPreserves(m, n, i, p);
    }
  }

  /** The pivot row after the optional addition of the found row. */
  lemma PivotRowReady(m0: Matrix, e: Reduction, n: nat, j: nat, found: nat)
    requires Reduced(m0, e, n, j) && j < n
    requires FindRow(e.rows, n, j, |e.pivots|) == Some(found)
    ensures var p := |e.pivots|;
            var m1 := if found != p then AddRowInto(e.rows, p, found) else e.rows;
            && p < |m1| && Rectangular(m1, n) && m1[p][j]
            && UnitColumns(m1, e.pivots)
            && LeadingZeros(m1, e.pivots)
            && ZeroBelow(m1, p, j)
            && SameRowSpace(m0, m1, n)
            && (FullRank(m0, n) ==> FullRank(m1, n))
  {
    var p := |e.pivots|;
    if found != p {
      RowOpPreserves(e.rows, n, p, found);
    }
  }

  /** Clearing column `j` against pivot row `p` makes it the unit column of row `p`
      and leaves the earlier pivot columns and the zero block below untouched. */
  lemma ClearedColumn(m1: Matrix, n: nat, p: nat, j: nat, piv: seq<nat>)
    requires Rectangular(m1, n) && p < |m1| && j < n && m1[p][j] && |piv| == p
    requires forall q :: 0 <= q < p ==> piv[q] < j
    requires UnitColumns(m1, piv) && ZeroBelow(m1, p, j)
    ensures UnitColumns(ClearColumn(m1, n, p, j, 0), piv + [j])
    ensures ZeroBelow(ClearColumn(m1, n, p, j, 0), p + 1, j + 1)
  {
    var m2 := ClearColumn(m1, n, p, j, 0);
    var piv' := piv + [j];
    ClearColumnRows(m1, n, p, j, 0);
    forall q, t | 0 <= q < p + 1 && 0 <= t < |m2|
      ensures m2[t][piv'[q]] == (t == q)
    {
      if q < p {
        assert m1[p][piv[q]] == false;
      }
    }
    forall t, c | p + 1 <= t < |m2| && 0 <= c < j + 1
      ensures !m2[t][c]
    {
      if c < j {
        assert !m1[p][c];
      }
    }
  }

  /** With a pivot found, the pivot list grows by `j` and stays increasing. */
  lemma FoundPivots(m0: Matrix, e: Reduction, n: nat, j: nat, found: nat)
    requires Reduced(m0, e, n, j) && j < n
    requires FindRow(e.rows, n, j, |e.pivots|) == Some(found)
    ensures var r := EliminateColumn(e, n, j);
            && r.pivots == e.pivots + [j]
            && |r.pivots| <= |r.rows| && StrictlyIncreasing(r.pivots)
            && (forall q :: 0 <= q < |r.pivots| ==> r.pivots[q] < j + 1)
  {
    var piv := e.pivots + [j];
    assert StrictlyIncreasing(piv);
  }

  /** With a pivot found, the new pivot list and matrix keep the systematic shape. */
  lemma FoundShape(m0: Matrix, e: Reduction, n: nat, j: nat, found: nat)
    requires Reduced(m0, e, n, j) && j < n
    requires FindRow(e.rows, n, j, |e.pivots|) == Some(found)
    ensures var r := EliminateColumn(e, n, j);
            UnitColumns(r.rows, r.pivots) && ZeroBelow(r.rows, |r.pivots|, j + 1)
  {
    var p := |e.pivots|;
    var m1 := if found != p then AddRowInto(e.rows, p, found) else e.rows;
    assert EliminateColumn(e, n, j) == Reduction(ClearColumn(m1, n, p, j, 0), e.pivots + [j]);
    PivotRowReady(m0, e, n, j, found);
    ClearedColumn(m1, n, p, j, e.pivots);
  }

  /** Clearing column `j` against pivot row `p` keeps every pivoted row, and the new
      one, false before its pivot: the row added in is false before `j`. */
  lemma ClearedLeading(m1: Matrix, n: nat, p: nat, j: nat, piv: seq<nat>)
    requires Rectangular(m1, n) && p < |m1| && j < n && |piv| == p
    requires forall q :: 0 <= q < p ==> piv[q] < j
    requires LeadingZeros(m1, piv) && ZeroBelow(m1, p, j)
    ensures LeadingZeros(ClearColumn(m1, n, p, j, 0), piv + [j])
  {
    var m2 := ClearColumn(m1, n, p, j, 0);
    var piv' := piv + [j];
    ClearColumnRows(m1, n, p, j, 0);
    forall q, c | 0 <= q < |piv'| && q < |m2| && 0 <= c < piv'[q] && c < |m2[q]|
      ensures !m2[q][c]
    {
      assert !m1[p][c];
      if q < p {
        assert piv'[q] == piv[q] && !m1[q][c];
      }
    }
  }

  /** With a pivot found, every pivot is the leading entry of its row. */
  lemma FoundLeading(m0: Matrix, e: Reduction, n: nat, j: nat, found: nat)
    requires Reduced(m0, e, n, j) && j < n
    requires FindRow(e.rows, n, j, |e.pivots|) == Some(found)
    ensures var r := EliminateColumn(e, n, j);
            LeadingZeros(r.rows, r.pivots)
  {
    var p := |e.pivots|;
    var m1 := if found != p then AddRowInto(e.rows, p, found) else e.rows;
    assert EliminateColumn(e, n, j) == Reduction(ClearColumn(m1, n, p, j, 0), e.pivots + [j]);
    PivotRowReady(m0, e, n, j, found);
    ClearedLeading(m1, n, p, j, e.pivots);
  }

  /** With a pivot found, the code and the rank are unchanged. */
  lemma FoundSpace(m0: Matrix, e: Reduction, n: nat, j: nat, found: nat)
    requires Reduced(m0, e, n, j) && j < n
    requires FindRow(e.rows, n, j, |e.pivots|) == Some(found)
    ensures var r := EliminateColumn(e, n, j);
            SameRowSpace(m0, r.rows, n) && (FullRank(m0, n) ==> FullRank(r.rows, n))
  {
    var p := |e.pivots|;
    var m1 := if found != p then AddRowInto(e.rows, p, found) else e.rows;
    var m2 := ClearColumn(m1, n, p, j, 0);
    assert EliminateColumn(e, n, j).rows == m2;
    PivotRowReady(m0, e, n, j, found);
    ClearColumnPreserves(m1, n, p, j, 0);
    SameRowSpaceTrans(m0, m1, m2, n);
  }

  /** Processing one column keeps `Reduced`. */
  lemma EliminateColumnStep(m0: Matrix, e: Reduction, n: nat, j: nat)
    requires Reduced(m0, e, n, j) && j < n
    ensures Reduced(m0, EliminateColumn(e, n, j), n, j + 1)
  {
    match FindRow(e.rows, n, j, |e.pivots|)
    case None =>
    case Some(found) =>
      FoundPivots(m0, e, n, j, found);
      FoundShape(m0, e, n, j, found);
      FoundLeading(m0, e, n, j, found);
      FoundSpace(m0, e, n, j, found);
  }

  lemma {:induction false} GaussFromKeeps(m0: Matrix, e: Reduction, n: nat, j: nat)
    requires Reduced(m0, e, n, j)
    ensures Reduced(m0, GaussFrom(e, n, j), n, n)
    decreases n - j
  {
    if j < n {
      EliminateColumnStep(m0, e, n, j);
      GaussFromKeeps(m0, EliminateColumn(e, n, j), n, j + 1);
    }
  }

  /** After all columns, a full-rank matrix has a pivot in every row: a row
      without one would be zero, which the unit message of that row rules out. */
  lemma AllRowsPivoted(m0: Matrix, e: Reduction, n: nat)
    requires Reduced(m0, e, n, n)
    ensures FullRank(m0, n) ==> |e.pivots| == |e.rows|
  {
    var p := |e.pivots|;
    if p < |e.rows| {
      LinCombUnit(e.rows, n, p);
      assert forall c :: 0 <= c < n ==> !e.rows[p][c];
      assert e.rows[p] == Zero(n);
      assert Unit(|e.rows|, p)[p] != Zero(|e.rows|)[p];
      assert !FullRank(e.rows, n);
    }
  }

  /** Before any column is processed, the input matrix is trivially reduced. */
  lemma ReducedStart(m: Matrix, n: nat)
    requires Rectangular(m, n)
    ensures Reduced(m, Reduction(m, []), n, 0)
  {
  }

  /** After every column, the invariant is reduced row-echelon form of the same code. */
  lemma ReducedDone(m0: Matrix, e: Reduction, n: nat)
    requires Reduced(m0, e, n, n)
    ensures |e.pivots| <= |m0| && StrictlyIncreasing(e.pivots)
    ensures forall q :: 0 <= q < |e.pivots| ==> e.pivots[q] < n
    ensures forall q, t :: 0 <= q < |e.pivots| && 0 <= t < |m0| ==> e.rows[t][e.pivots[q]] == (t == q)
    ensures forall q, c :: 0 <= q < |e.pivots| && 0 <= c < e.pivots[q] ==> !e.rows[q][c]
    ensures forall t, c :: |e.pivots| <= t < |m0| && 0 <= c < n ==> !e.rows[t][c]
    ensures SameRowSpace(m0, e.rows, n)
    ensures FullRank(m0, n) ==> |e.pivots| == |m0|
  {
    AllRowsPivoted(m0, e, n);
  }

  /** `gauss(m)` on a matrix with at least one row. */
  function Gauss(m: Matrix): (r: Reduction)
    requires |m| >= 1 && Rectangular(m, |m[0]|)
    ensures |r.rows| == |m| && Rectangular(r.rows, |m[0]|)
    // the pivots are distinct columns, found left to right, at most one per row
    ensures |r.pivots| <= |m| && StrictlyIncreasing(r.pivots)
    ensures forall q :: 0 <= q < |r.pivots| ==> r.pivots[q] < |m[0]|
    // systematic form: pivot column q is true in row q and false in every other row
    ensures forall q, t :: 0 <= q < |r.pivots| && 0 <= t < |m| ==> r.rows[t][r.pivots[q]] == (t == q)
    // echelon form: each pivot is the leading entry of its row, and the rows without a pivot are zero
    ensures forall q, c :: 0 <= q < |r.pivots| && 0 <= c < r.pivots[q] ==> !r.rows[q][c]
    ensures forall t, c :: |r.pivots| <= t < |m| && 0 <= c < |m[0]| ==> !r.rows[t][c]
    // only row operations were applied: the generated code is unchanged
    ensures SameRowSpace(m, r.rows, |m[0]|)
    // on full-rank input every row receives a pivot
    ensures FullRank(m, |m[0]|) ==> |r.pivots| == |m|
  {
    var n := |m[0]|;
    var start := Reduction(m, []);
    ReducedStart(m, n);
    var r := GaussFrom(start, n, 0);
    GaussFromKeeps(m, start, n, 0);
    ReducedDone(m, r, n);
    r
  }

  /** In systematic form, encoding copies the message onto the pivot columns. */
  lemma SystematicEncoding(m: Matrix, x: Vec, p: nat)
    requires |m| >= 1 && Rectangular(m, |m[0]|) && |x| == |m|
    requires p < |Gauss(m).pivots|
    ensures Mul(x, Gauss(m).rows)[Gauss(m).pivots[p]] == x[p]
  {
    var r := Gauss(m);
    LinCombUnitColumn(x, r.rows, |m[0]|, r.pivots[p], p);
  }

  /** The pivots are chosen greedily from the left: every column before pivot `q` is
      zero in rows `q` and below, so it is a sum of the earlier pivot columns, while
      pivot column `q` has its one in row `q`. Pivot `q` is therefore the leftmost
      column that does not depend on the columns before it. */
  lemma PivotsAreLeftmost(m: Matrix, q: nat, c: nat)
    requires |m| >= 1 && Rectangular(m, |m[0]|)
    requires q < |Gauss(m).pivots| && c < Gauss(m).pivots[q]
    ensures forall t :: q <= t < |m| ==> !Gauss(m).rows[t][c]
    ensures Gauss(m).rows[q][Gauss(m).pivots[q]]
  {
    var r := Gauss(m);
    forall t | q <= t < |m|
      ensures !r.rows[t][c]
    {
      if t < |r.pivots| {
        assert r.pivots[q] <= r.pivots[t];
      }
    }
  }

  /** Elimination of `[[1,1,0],[1,1,1]]` pivots on columns 0 and 2, not 1 and 2. */
  lemma GaussExample()
    ensures Gauss([[true, true, false], [true, true, true]])
         == Reduction([[true, true, false], [false, false, true]], [0, 2])
  {
    var m := [[true, true, false], [true, true, true]];
    var e1 := EliminateColumn(Reduction(m, []), 3, 0);
    assert FindRow(m, 3, 0, 0) == Some(0);
    var cleared := [[true, true, false], [false, false, true]];
    assert Add(m[1], m[0]) == [false, false, true];
    assert AddRowInto(m, 1, 0) == cleared;
    assert ClearColumn(m, 3, 0, 0, 0) == ClearColumn(m, 3, 0, 0, 1) == ClearColumn(cleared, 3, 0, 0, 2) == cleared;
    assert e1 == Reduction([[true, true, false], [false, false, true]], [0]);
    var e2 := EliminateColumn(e1, 3, 1);
    assert FindRow(e1.rows, 3, 1, 1) == None;
    assert e2 == e1;
    var e3 := EliminateColumn(e2, 3, 2);
    assert FindRow(e2.rows, 3, 2, 1) == Some(1);
    assert ClearColumn(cleared, 3, 1, 2, 0) == ClearColumn(cleared, 3, 1, 2, 1) == ClearColumn(cleared, 3, 1, 2, 2) == cleared;
    assert e3 == Reduction([[true, true, false], [false, false, true]], [0, 2]);
    assert GaussFrom(Reduction(m, []), 3, 0) == GaussFrom(e1, 3, 1) == GaussFrom(e2, 3, 2) == GaussFrom(e3, 3, 3);
  }

  /** The row search of `gauss`: the first row at `p` or later with a true entry in
      column `j`, or -1 (`gauss`'s wrapped `size_t` sentinel) when there is none. */
  method FindPivotRow(m: Matrix, n: nat, j: nat, p: nat) returns (found: int)
    requires Rectangular(m, n) && j < n
    ensures found == -1 <==> FindRow(m, n, j, p) == None
    ensures found != -1 ==> 0 <= found && FindRow(m, n, j, p) == Some(found)
  {
    found := -1;
    var i := p;
    while i < |m|
      invariant p <= i && found == -1
      invariant FindRow(m, n, j, p) == FindRow(m, n, j, i)
    {
      if m[i][j] {
        found := i;
        break;
      }
      i := i + 1;
    }
  }

  /** The clearing loop of `gauss`: every other row with a true entry in column `j`
      gets pivot row `p` added to it. */
  method ClearColumnInPlace(m1: Matrix, n: nat, p: nat, j: nat) returns (m: Matrix)
    requires Rectangular(m1, n) && p < |m1| && j < n
    ensures m == ClearColumn(m1, n, p, j, 0)
    ensures forall t :: 0 <= t < |m1| ==> m[t] == if t != p && m1[t][j] then Add(m1[t], m1[p]) else m1[t]
  {
    m := m1;
    var i := 0;
    while i < |m|
      invariant 0 <= i <= |m| == |m1| && Rectangular(m, n)
      invariant ClearColumn(m, n, p, j, i) == ClearColumn(m1, n, p, j, 0)
    {
      if i != p && m[i][j] {
        var row := AddAssign(m[i], m[p]);
        m := m[i := row];
      }
      i := i + 1;
    }
    ClearColumnRows(m1, n, p, j, 0);
  }

  /** One iteration of the column loop of `gauss`: find a pivot row at or below row
      `|pivots|`, add it into that row if it is a different one, and clear the column. */
  method EliminateColumnInPlace(m0: Matrix, pivots0: seq<nat>, n: nat, j: nat) returns (m: Matrix, pivots: seq<nat>)
    requires Rectangular(m0, n) && j < n
    ensures Reduction(m, pivots) == EliminateColumn(Reduction(m0, pivots0), n, j)
  {
    m, pivots := m0, pivots0;
    var p := |pivots|;
    var found := FindPivotRow(m, n, j, p);
    if found != -1 {
      if found != p {
        var row := AddAssign(m[p], m[found]);
        m := m[p := row];
        assert m == AddRowInto(m0, p, found);
      }
      m := ClearColumnInPlace(m, n, p, j);
      pivots := pivots + [j];
    }
  }

  /** `gauss`: in-place row additions on a working copy. */
  method GaussInPlace(m0: Matrix) returns (m: Matrix, pivots: seq<nat>)
    requires |m0| >= 1 && Rectangular(m0, |m0[0]|)
    ensures Reduction(m, pivots) == Gauss(m0)
  {
    var n := |m0[0]|;
    ghost var target := GaussFrom(Reduction(m0, []), n, 0);
    m, pivots := m0, [];
    var j := 0;
    while j < n
      invariant j <= n && |m| == |m0| && Rectangular(m, n)
      invariant GaussFrom(Reduction(m, pivots), n, j) == target
    {
      m, pivots := EliminateColumnInPlace(m, pivots, n, j);
      j := j + 1;
    }
  }
}
