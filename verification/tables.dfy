/**
 * The marker x region membership table (a pandas DataFrame of booleans in the
 * source): one row per marker, one named column per region, and the
 * column-wise and row-wise sums the sorting takes of it.
 */
module Tables {

  /** `cols` names the regions; `rows[i][j]` says whether marker i lies in region `cols[j]`. */
  datatype Table = Table(cols: seq<string>, rows: seq<seq<bool>>)

  /** Every row has one cell per column. */
  predicate WellFormed(t: Table)
  {
    forall i | 0 <= i < |t.rows| :: |t.rows[i]| == |t.cols|
  }

  /** No name is used for two columns (the regions come from a dictionary). */
  predicate Distinct(names: seq<string>)
  {
    forall j, k | 0 <= j < k < |names| :: names[j] != names[k]
  }

  function Count(b: bool): nat
  {
    if b then 1 else 0
  }

  /** `sum(axis=1)` for one marker: the number of regions it lies in. */
  function RowSum(row: seq<bool>): (n: nat)
    ensures n <= |row|
  {
    if row == [] then 0 else Count(row[0]) + RowSum(row[1..])
  }

  /** A marker lies in no region exactly when its row has no true cell. */
  lemma {:induction false} RowSumZero(row: seq<bool>)
    ensures RowSum(row) == 0 <==> forall k | 0 <= k < |row| :: !row[k]
  {
    if row != [] {
      RowSumZero(row[1..]);
      assert forall k | 1 <= k < |row| :: row[k] == row[1..][k - 1];
    }
  }

  /** `sum(axis=0)` for one region: the number of markers inside it. */
  function ColumnSum(rows: seq<seq<bool>>, j: nat): (n: nat)
    requires forall i | 0 <= i < |rows| :: j < |rows[i]|
    ensures n <= |rows|
  {
    if rows == [] then 0 else Count(rows[0][j]) + ColumnSum(rows[1..], j)
  }

  /** A region holds no marker exactly when its column has no true cell. */
  lemma {:induction false} ColumnSumZero(rows: seq<seq<bool>>, j: nat)
    requires forall i | 0 <= i < |rows| :: j < |rows[i]|
    ensures ColumnSum(rows, j) == 0 <==> forall i | 0 <= i < |rows| :: !rows[i][j]
  {
    if rows != [] {
      ColumnSumZero(rows[1..], j);
      assert forall i | 1 <= i < |rows| :: rows[i] == rows[1..][i - 1];
    }
  }

  /** The per-region counts: the column sums, in column order. */
  function ColumnSums(t: Table): (sums: seq<nat>)
    requires WellFormed(t)
    ensures |sums| == |t.cols|
  {
    seq(|t.cols|, j requires 0 <= j < |t.cols| => ColumnSum(t.rows, j))
  }

  function Total(s: seq<nat>): nat
  {
    if s == [] then 0 else s[0] + Total(s[1..])
  }

  /** The number of true cells in the table, counted row by row. */
  function Marked(rows: seq<seq<bool>>): nat
  {
    if rows == [] then 0 else RowSum(rows[0]) + Marked(rows[1..])
  }

  /** Every marker lies in at least one region: `np.all(t.sum(axis=1) > 0)`. */
  predicate Covered(rows: seq<seq<bool>>)
  {
    forall i | 0 <= i < |rows| :: RowSum(rows[i]) > 0
  }

  /** Every marker lies in exactly one region: `np.all(t.sum(axis=1) == 1)`. */
  predicate SingleRegion(rows: seq<seq<bool>>)
  {
    forall i | 0 <= i < |rows| :: RowSum(rows[i]) == 1
  }

  /** The indices of the columns below `m` that hold at least one marker, ascending. */
  function KeptColumns(rows: seq<seq<bool>>, m: nat): (kept: seq<nat>)
    requires forall i | 0 <= i < |rows| :: m <= |rows[i]|
    ensures forall k | 0 <= k < |kept| :: kept[k] < m
  {
    if m == 0 then []
    else KeptColumns(rows, m - 1) + (if ColumnSum(rows, m - 1) > 0 then [m - 1] else [])
  }

  /** The kept indices ascend and are exactly the columns that hold a marker. */
  lemma {:induction false} KeptColumnsSpec(rows: seq<seq<bool>>, m: nat)
    requires forall i | 0 <= i < |rows| :: m <= |rows[i]|
    ensures var kept := KeptColumns(rows, m);
      && (forall k, l | 0 <= k < l < |kept| :: kept[k] < kept[l])
      && (forall j | 0 <= j < m :: j in kept <==> ColumnSum(rows, j) > 0)
  {
    if m > 0 {
      KeptColumnsSpec(rows, m - 1);
    }
  }

  /** The cells of `row` at the given column indices, in that order. */
  function Select(row: seq<bool>, idx: seq<nat>): (r: seq<bool>)
    requires forall k | 0 <= k < |idx| :: idx[k] < |row|
    ensures |r| == |idx|
  {
    seq(|idx|, k requires 0 <= k < |idx| => row[idx[k]])
  }

  /** Every row restricted to the given column indices. */
  function SelectRows(rows: seq<seq<bool>>, idx: seq<nat>): (r: seq<seq<bool>>)
    requires forall i, l | 0 <= i < |rows| && 0 <= l < |idx| :: idx[l] < |rows[i]|
    ensures |r| == |rows|
  {
    seq(|rows|, i requires 0 <= i < |rows| => Select(rows[i], idx))
  }

  /** `t[t.columns[t.sum(0) > 0]]`: drop every region that holds no marker. */
  function Prune(t: Table): (p: Table)
    requires WellFormed(t)
    ensures WellFormed(p) && |p.rows| == |t.rows|
  {
    var kept := KeptColumns(t.rows, |t.cols|);
    Table(seq(|kept|, k requires 0 <= k < |kept| => t.cols[kept[k]]),
          SelectRows(t.rows, kept))
  }

  lemma {:induction false} RowSumAppend(a: seq<bool>, b: seq<bool>)
    ensures RowSum(a + b) == RowSum(a) + RowSum(b)
  {
    if a == [] {
      assert a + b == b;
    } else {
      assert (a + b)[1..] == a[1..] + b;
      RowSumAppend(a[1..], b);
    }
  }

  /** Clearing one true cell lowers the row's sum by exactly one. */
  lemma {:induction false} RowSumClear(row: seq<bool>, j: nat)
    requires j < |row| && row[j]
    ensures RowSum(row[j := false]) == RowSum(row) - 1
  {
    if j > 0 {
      assert row[j := false][1..] == row[1..][j - 1 := false];
      RowSumClear(row[1..], j - 1);
    }
  }

  /** Selecting one more index appends that cell. */
  lemma SelectSnoc(row: seq<bool>, idx: seq<nat>, j: nat)
    requires forall k | 0 <= k < |idx| :: idx[k] < |row|
    requires j < |row|
    ensures Select(row, idx + [j]) == Select(row, idx) + [row[j]]
  {
  }

  /** Selecting the kept columns below `m` loses none of a row's true cells below `m`. */
  lemma {:induction false} SelectKeptSum(rows: seq<seq<bool>>, i: nat, m: nat)
    requires forall r | 0 <= r < |rows| :: m <= |rows[r]|
    requires i < |rows|
    ensures RowSum(Select(rows[i], KeptColumns(rows, m))) == RowSum(rows[i][..m])
  {
    if m > 0 {
      SelectKeptSum(rows, i, m - 1);
      SelectKeptStep(rows, i, m);
      PrefixStep(rows[i], m);
    }
  }

  lemma PrefixStep(row: seq<bool>, m: nat)
    requires 0 < m <= |row|
    ensures RowSum(row[..m]) == RowSum(row[..m - 1]) + Count(row[m - 1])
  {
    assert row[..m] == row[..m - 1] + [row[m - 1]];
    RowSumAppend(row[..m - 1], [row[m - 1]]);
  }

  lemma SelectKeptStep(rows: seq<seq<bool>>, i: nat, m: nat)
    requires forall r | 0 <= r < |rows| :: m <= |rows[r]|
    requires i < |rows| && m > 0
    ensures RowSum(Select(rows[i], KeptColumns(rows, m)))
            == RowSum(Select(rows[i], KeptColumns(rows, m - 1))) + Count(rows[i][m - 1])
  {
    var kept := KeptColumns(rows, m - 1);
    var row := rows[i];
    if ColumnSum(rows, m - 1) > 0 {
      assert KeptColumns(rows, m) == kept + [m - 1];
      SelectSnoc(row, kept, m - 1);
      RowSumAppend(Select(row, kept), [row[m - 1]]);
    } else {
      ColumnSumZero(rows, m - 1);
      assert KeptColumns(rows, m) == kept + [];
      assert kept + [] == kept;
    }
  }

  /** After pruning, each column keeps the count it had before. */
  lemma {:induction false} ColumnSumSelect(rows: seq<seq<bool>>, idx: seq<nat>, k: nat)
    requires forall i, l | 0 <= i < |rows| && 0 <= l < |idx| :: idx[l] < |rows[i]|
    requires k < |idx|
    ensures ColumnSum(SelectRows(rows, idx), k) == ColumnSum(rows, idx[k])
  {
    if rows != [] {
      assert SelectRows(rows, idx)[1..] == SelectRows(rows[1..], idx);
      ColumnSumSelect(rows[1..], idx, k);
    }
  }

  /** Pruning changes no marker's number of regions: only all-false columns go. */
  lemma PruneRowSums(t: Table)
    requires WellFormed(t)
    ensures forall i | 0 <= i < |t.rows| :: RowSum(Prune(t).rows[i]) == RowSum(t.rows[i])
  {
    forall i | 0 <= i < |t.rows|
      ensures RowSum(Prune(t).rows[i]) == RowSum(t.rows[i])
    {
      SelectKeptSum(t.rows, i, |t.cols|);
      assert t.rows[i][..|t.cols|] == t.rows[i];
    }
  }

  /** Every column that survives pruning holds at least one marker. */
  lemma PruneColumnsHoldMarkers(t: Table)
    requires WellFormed(t)
    ensures forall k | 0 <= k < |Prune(t).cols| :: ColumnSum(Prune(t).rows, k) > 0
  {
    var kept := KeptColumns(t.rows, |t.cols|);
    KeptColumnsSpec(t.rows, |t.cols|);
    forall k | 0 <= k < |Prune(t).cols|
      ensures ColumnSum(Prune(t).rows, k) > 0
    {
      ColumnSumSelect(t.rows, kept, k);
      assert kept[k] in kept;
    }
  }

  /** The surviving column names are exactly the names of the columns that hold a marker. */
  lemma PruneKeepsMarkedColumns(t: Table)
    requires WellFormed(t)
    ensures forall n :: n in Prune(t).cols <==>
      exists j | 0 <= j < |t.cols| :: t.cols[j] == n && ColumnSum(t.rows, j) > 0
  {
    var p := Prune(t);
    var kept := KeptColumns(t.rows, |t.cols|);
    KeptColumnsSpec(t.rows, |t.cols|);
    forall n
      ensures n in p.cols <==> exists j | 0 <= j < |t.cols| :: t.cols[j] == n && ColumnSum(t.rows, j) > 0
    {
      if n in p.cols {
        var k :| 0 <= k < |p.cols| && p.cols[k] == n;
        assert kept[k] in kept;
      }
      if exists j | 0 <= j < |t.cols| :: t.cols[j] == n && ColumnSum(t.rows, j) > 0 {
        var j :| 0 <= j < |t.cols| && t.cols[j] == n && ColumnSum(t.rows, j) > 0;
        var k :| 0 <= k < |kept| && kept[k] == j;
        assert p.cols[k] == n;
      }
    }
  }

  /** Surviving column `k` is the `k`-th kept column, with its name and cells unchanged. */
  lemma PruneColumnCells(t: Table, k: nat)
    requires WellFormed(t) && k < |Prune(t).cols|
    ensures var j := KeptColumns(t.rows, |t.cols|)[k];
      && j < |t.cols| && Prune(t).cols[k] == t.cols[j] && ColumnSum(t.rows, j) > 0
      && forall i | 0 <= i < |t.rows| :: Prune(t).rows[i][k] == t.rows[i][j]
  {
    var kept := KeptColumns(t.rows, |t.cols|);
    KeptColumnsSpec(t.rows, |t.cols|);
    assert kept[k] in kept;
  }

  /** Pruning keeps distinct column names distinct. */
  lemma PruneDistinct(t: Table)
    requires WellFormed(t) && Distinct(t.cols)
    ensures Distinct(Prune(t).cols)
  {
    KeptColumnsSpec(t.rows, |t.cols|);
  }

  /** A table whose every column holds a marker is left as it is by pruning. */
  lemma {:induction false} PruneNothingToDrop(t: Table)
    requires WellFormed(t)
    requires forall j | 0 <= j < |t.cols| :: ColumnSum(t.rows, j) > 0
    ensures Prune(t) == t
  {
    var kept := KeptColumns(t.rows, |t.cols|);
    KeptAll(t.rows, |t.cols|);
    assert Prune(t).cols == t.cols;
    forall i | 0 <= i < |t.rows|
      ensures Prune(t).rows[i] == t.rows[i]
    {
      assert Select(t.rows[i], kept) == t.rows[i];
    }
  }

  lemma {:induction false} KeptAll(rows: seq<seq<bool>>, m: nat)
    requires forall i | 0 <= i < |rows| :: m <= |rows[i]|
    requires forall j | 0 <= j < m :: ColumnSum(rows, j) > 0
    ensures |KeptColumns(rows, m)| == m
    ensures forall k | 0 <= k < m :: KeptColumns(rows, m)[k] == k
  {
    if m > 0 {
      KeptAll(rows, m - 1);
    }
  }

  function Plus(row: seq<bool>, v: seq<nat>): (r: seq<nat>)
    requires |row| == |v|
    ensures |r| == |v|
  {
    seq(|v|, j requires 0 <= j < |v| => Count(row[j]) + v[j])
  }

  lemma {:induction false} TotalPlus(row: seq<bool>, v: seq<nat>)
    requires |row| == |v|
    ensures Total(Plus(row, v)) == RowSum(row) + Total(v)
  {
    if row != [] {
      assert Plus(row, v)[1..] == Plus(row[1..], v[1..]);
      TotalPlus(row[1..], v[1..]);
    }
  }

  /** The per-region counts add up to the number of true cells. */
  lemma {:induction false} TotalColumnSums(t: Table)
    requires WellFormed(t)
    ensures Total(ColumnSums(t)) == Marked(t.rows)
    decreases |t.rows|
  {
    if t.rows == [] {
      assert ColumnSums(t) == seq(|t.cols|, j => 0);
      ZeroTotal(|t.cols|);
    } else {
      var rest := Table(t.cols, t.rows[1..]);
      assert ColumnSums(t) == Plus(t.rows[0], ColumnSums(rest));
      TotalPlus(t.rows[0], ColumnSums(rest));
      TotalColumnSums(rest);
    }
  }

  lemma {:induction false} ZeroTotal(m: nat)
    ensures Total(seq(m, j => 0)) == 0
  {
    if m > 0 {
      assert seq(m, j => 0)[1..] == seq(m - 1, j => 0);
      ZeroTotal(m - 1);
    }
  }

  /**
   * When every marker lies in exactly one region the per-region counts add up to
   * the number of markers.
   */
  lemma {:induction false} SingleRegionCounts(t: Table)
    requires WellFormed(t) && SingleRegion(t.rows)
    ensures Total(ColumnSums(t)) == |t.rows|
  {
    TotalColumnSums(t);
    MarkedSingle(t.rows);
  }

  lemma {:induction false} MarkedSingle(rows: seq<seq<bool>>)
    requires SingleRegion(rows)
    ensures Marked(rows) == |rows|
  {
    if rows != [] {
      MarkedSingle(rows[1..]);
    }
  }
}
