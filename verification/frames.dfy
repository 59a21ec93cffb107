/** A small model of the pandas data frames the harvesting scripts reshape:
    named columns and rows of cells. Each operation states what every cell
    of its result holds. Rows are maps from column name to cell; a frame
    only ever reads a row under its own column names, through `At`. */
module Frames {
  import opened Wrappers
  import opened Values
  import opened Seqs

  type Row = map<string, Val>

  datatype Frame = Frame(columns: seq<string>, rows: seq<Row>)

  /** The cell of `row` under `c`, missing when the row has none. */
  function Cell(row: Row, c: string): Val
  {
    if c in row then row[c] else Null
  }

  /** The cell of row `i` of `f` in column `c`; a column the frame does not
      have reads as missing, which is what `reindex` fills in. */
  function At(f: Frame, i: int, c: string): Val
    requires 0 <= i < |f.rows|
  {
    if c in f.columns then Cell(f.rows[i], c) else Null
  }

  /** Row `row`, read under the columns `have`, laid out under `cols`. */
  function Conform(row: Row, have: seq<string>, cols: seq<string>): (r: Row)
    ensures forall c :: c in r <==> c in cols
    ensures forall c :: c in cols ==> r[c] == (if c in have then Cell(row, c) else Null)
  {
    map c | c in cols :: if c in have then Cell(row, c) else Null
  }

  /** Every row of `f` laid out under `cols`. */
  function ConformRows(f: Frame, cols: seq<string>): (rows: seq<Row>)
    ensures |rows| == |f.rows|
    ensures forall i :: 0 <= i < |f.rows| ==> rows[i] == Conform(f.rows[i], f.columns, cols)
  {
    seq(|f.rows|, i requires 0 <= i < |f.rows| => Conform(f.rows[i], f.columns, cols))
  }

  /** The membership test of `drop` and of the key columns of a merge. */
  function NotIn(cols: seq<string>): string -> bool
  {
    c => c !in cols
  }

  /** The first of `want` that is not in `have`: the label pandas reports in
      its `KeyError`. */
  function FirstMissing(want: seq<string>, have: seq<string>): (r: Option<string>)
    ensures r.None? <==> forall c :: c in want ==> c in have
    ensures r.Some? ==> r.value in want && r.value !in have
  {
    if |want| == 0 then None
    else if want[0] !in have then Some(want[0])
    else FirstMissing(want[1..], have)
  }

  /** The first position of `x` in `s`. */
  function IndexOf<T(==)>(s: seq<T>, x: T): (k: nat)
    requires x in s
    ensures k < |s| && s[k] == x
    ensures forall j :: 0 <= j < k ==> s[j] != x
  {
    if s[0] == x then 0 else 1 + IndexOf(s[1..], x)
  }

  // ---------------------------------------------------------------------
  // Column operations

  /** `drop(cols, axis=1)`: a `KeyError` for a column the frame lacks;
      otherwise the other columns, in order, with their cells. */
  function Drop(f: Frame, cols: seq<string>): (r: Result<Frame, Exception>)
    ensures r.Err? <==> exists c :: c in cols && c !in f.columns
    ensures r.Err? ==> r.error.KeyError? && r.error.key in cols && r.error.key !in f.columns
    ensures r.Ok? ==> r.value.columns == Filter(f.columns, NotIn(cols)) && |r.value.rows| == |f.rows|
    ensures r.Ok? ==> forall i, c :: 0 <= i < |f.rows| && c in r.value.columns ==> At(r.value, i, c) == At(f, i, c)
  {
    match FirstMissing(cols, f.columns)
    case Some(c) => Err(KeyError(c))
    case None =>
      var kept := Filter(f.columns, NotIn(cols));
      Ok(Frame(kept, ConformRows(f, kept)))
  }

  /** The name column `c` gets under the renaming `m`. */
  function Renamed(m: map<string, string>, c: string): string
  {
    if c in m then m[c] else c
  }

  /** The column names after `rename(columns=m)`. */
  function RenamedColumns(cols: seq<string>, m: map<string, string>): (r: seq<string>)
    ensures |r| == |cols|
    ensures forall j :: 0 <= j < |cols| ==> r[j] == Renamed(m, cols[j])
  {
    seq(|cols|, j requires 0 <= j < |cols| => Renamed(m, cols[j]))
  }

  /** `rename(columns=m)`: each column keeps its cells under its new name.
      Two columns ending up with one name is outside the model. */
  function Rename(f: Frame, m: map<string, string>): (r: Result<Frame, Exception>)
    ensures r.Ok? <==> NoDup(RenamedColumns(f.columns, m))
    ensures r.Ok? ==> r.value.columns == RenamedColumns(f.columns, m) && |r.value.rows| == |f.rows|
    ensures r.Ok? ==> forall i, j :: 0 <= i < |f.rows| && 0 <= j < |f.columns| ==>
      At(r.value, i, Renamed(m, f.columns[j])) == At(f, i, f.columns[j])
  {
    var cols := RenamedColumns(f.columns, m);
    if !NoDup(cols) then Err(Unsupported("rename onto an existing column"))
    else
      var rows := seq(|f.rows|, i requires 0 <= i < |f.rows| =>
        map c | c in cols :: Cell(f.rows[i], f.columns[IndexOf(cols, c)]));
      var g := Frame(cols, rows);
      forall i, j | 0 <= i < |f.rows| && 0 <= j < |f.columns|
        ensures At(g, i, Renamed(m, f.columns[j])) == At(f, i, f.columns[j])
      {
        assert cols[j] == Renamed(m, f.columns[j]);
        assert IndexOf(cols, cols[j]) == j;
      }
      Ok(g)
  }

  /** `frame[c] = v` with a constant: the column is set on every row, added
      at the end when new; the other columns keep their cells. */
  function Assign(f: Frame, c: string, v: Val): (r: Frame)
    ensures r.columns == if c in f.columns then f.columns else f.columns + [c]
    ensures |r.rows| == |f.rows|
    ensures forall i :: 0 <= i < |f.rows| ==> At(r, i, c) == v
    ensures forall i, d :: 0 <= i < |f.rows| && d != c ==> At(r, i, d) == At(f, i, d)
  {
    var cols := if c in f.columns then f.columns else f.columns + [c];
    Frame(cols, seq(|f.rows|, i requires 0 <= i < |f.rows| => Conform(f.rows[i], f.columns, cols)[c := v]))
  }

  /** The columns after `frame[c] = v` are the frame's and `c`. */
  lemma AssignColumns(f: Frame, c: string, v: Val)
    ensures forall d :: d in Assign(f, c, v).columns <==> d in f.columns || d == c
  {
  }

  /** `frame[c] = v` leaves the other cells of row `i` alone. */
  lemma AssignKeeps(f: Frame, c: string, v: Val, i: int, d: string)
    requires 0 <= i < |f.rows| && d != c
    ensures i < |Assign(f, c, v).rows| && At(Assign(f, c, v), i, d) == At(f, i, d)
  {
  }

  /** `frame[c] = vals` with one value per row, like `Assign`. */
  function SetColumn(f: Frame, c: string, vals: seq<Val>): (r: Frame)
    requires |vals| == |f.rows|
    ensures r.columns == if c in f.columns then f.columns else f.columns + [c]
    ensures |r.rows| == |f.rows|
    ensures forall i :: 0 <= i < |f.rows| ==> At(r, i, c) == vals[i]
    ensures forall i, d :: 0 <= i < |f.rows| && d != c ==> At(r, i, d) == At(f, i, d)
  {
    var cols := if c in f.columns then f.columns else f.columns + [c];
    Frame(cols, seq(|f.rows|, i requires 0 <= i < |f.rows| => Conform(f.rows[i], f.columns, cols)[c := vals[i]]))
  }

  /** `frame[cols]` / `frame.loc[:, cols]`: a `KeyError` for a column the
      frame lacks; otherwise exactly those columns, in that order.
      Selecting one column twice is outside the model. */
  function Select(f: Frame, cols: seq<string>): (r: Result<Frame, Exception>)
    ensures r.Err? <==> (exists c :: c in cols && c !in f.columns) || !NoDup(cols)
    ensures r.Err? && (exists c :: c in cols && c !in f.columns) ==>
      r.error.KeyError? && r.error.key in cols && r.error.key !in f.columns
    ensures r.Ok? ==> r.value.columns == cols && |r.value.rows| == |f.rows|
    ensures r.Ok? ==> forall i, c :: 0 <= i < |f.rows| && c in cols ==> At(r.value, i, c) == At(f, i, c)
  {
    match FirstMissing(cols, f.columns)
    case Some(c) => Err(KeyError(c))
    case None =>
      if !NoDup(cols) then Err(Unsupported("column selected twice"))
      else Ok(Frame(cols, ConformRows(f, cols)))
  }

  /** `reindex(columns=cols)`: exactly those columns, in that order; a column
      the frame lacks comes out missing on every row. */
  function Reindex(f: Frame, cols: seq<string>): (r: Frame)
    ensures r.columns == cols && |r.rows| == |f.rows|
    ensures forall i, c :: 0 <= i < |f.rows| && c in cols ==> At(r, i, c) == At(f, i, c)
  {
    Frame(cols, ConformRows(f, cols))
  }

  // ---------------------------------------------------------------------
  // Concatenation

  /** `pd.concat([a, b], sort=False)`: the columns of `a`, then the new
      columns of `b`; the rows of `a`, then those of `b`, each missing the
      cells of columns its frame did not have. */
  function Concat(a: Frame, b: Frame): (r: Frame)
    ensures r.columns == a.columns + Filter(b.columns, NotIn(a.columns))
    ensures |r.rows| == |a.rows| + |b.rows|
    ensures forall i, c :: 0 <= i < |a.rows| && c in r.columns ==> At(r, i, c) == At(a, i, c)
    ensures forall i, c :: 0 <= i < |b.rows| && c in r.columns ==> At(r, |a.rows| + i, c) == At(b, i, c)
  {
    var cols := a.columns + Filter(b.columns, NotIn(a.columns));
    var r := Frame(cols, ConformRows(a, cols) + ConformRows(b, cols));
    forall i, c | 0 <= i < |b.rows| && c in r.columns
      ensures At(r, |a.rows| + i, c) == At(b, i, c)
    {
      assert r.rows[|a.rows| + i] == ConformRows(b, cols)[i];
    }
    r
  }

  /** The rows of `frames`, one frame after the other, each laid out under
      `cols`. */
  function StackedRows(frames: seq<Frame>, cols: seq<string>): seq<Row>
  {
    if |frames| == 0 then []
    else StackedRows(frames[..|frames| - 1], cols) + ConformRows(frames[|frames| - 1], cols)
  }

  /** `pd.concat(frames, sort=False)`, folded from the left: every column of
      every frame, those of the first frame first, and the frames' rows one
      after the other, each missing the cells of columns its frame lacks. */
  function ConcatAll(frames: seq<Frame>): (r: Frame)
    requires |frames| > 0
    ensures forall k, c :: 0 <= k < |frames| && c in frames[k].columns ==> c in r.columns
    ensures frames[0].columns <= r.columns
    ensures r.rows == StackedRows(frames, r.columns)
    decreases |frames|
  {
    if |frames| == 1 then
      var f := frames[0];
      assert frames[..0] == [];
      Frame(f.columns, ConformRows(f, f.columns))
    else
      var n := |frames|;
      var init := ConcatAll(frames[..n - 1]);
      var r := Concat(init, frames[n - 1]);
      assert forall k :: 0 <= k < n - 1 ==> frames[..n - 1][k] == frames[k];
      ConcatAllStep(frames, init, r);
      r
  }

  /** One more concatenation step keeps the columns and stacks the rows. */
  lemma ConcatAllStep(frames: seq<Frame>, init: Frame, r: Frame)
    requires |frames| > 1
    requires forall k, c :: 0 <= k < |frames| - 1 && c in frames[k].columns ==> c in init.columns
    requires frames[0].columns <= init.columns
    requires init.rows == StackedRows(frames[..|frames| - 1], init.columns)
    requires r == Concat(init, frames[|frames| - 1])
    ensures forall k, c :: 0 <= k < |frames| && c in frames[k].columns ==> c in r.columns
    ensures frames[0].columns <= r.columns
    ensures r.rows == StackedRows(frames, r.columns)
  {
    var n := |frames|;
    var cols := r.columns;
    forall k, c | 0 <= k < n && c in frames[k].columns
      ensures c in cols
    {
      if k == n - 1 && c !in init.columns {
        assert c in Filter(frames[n - 1].columns, NotIn(init.columns));
      }
    }
    assert init.columns <= cols;
    RestackRows(frames[..n - 1], init.columns, cols);
  }

  /** Laying stacked rows out again under more columns is stacking the rows
      laid out under those columns. */
  lemma {:induction false} RestackRows(frames: seq<Frame>, mid: seq<string>, cols: seq<string>)
    requires forall k, c :: 0 <= k < |frames| && c in frames[k].columns ==> c in mid
    ensures ConformRows(Frame(mid, StackedRows(frames, mid)), cols) == StackedRows(frames, cols)
    decreases |frames|
  {
    var n := |frames|;
    if n > 0 {
      var pre := frames[..n - 1];
      forall k, c | 0 <= k < |pre| && c in pre[k].columns
        ensures c in mid
      {
        assert pre[k] == frames[k];
      }
      RestackRows(pre, mid, cols);
      ConformRowsConcat(mid, StackedRows(pre, mid), ConformRows(frames[n - 1], mid), cols);
      ConformTwiceRows(frames[n - 1], mid, cols);
    }
  }

  /** Laying rows of `f` out under `mid` and then under `cols` is laying them
      out under `cols`, when `mid` has every column of `f`. */
  predicate ConformTwice(f: Frame, mid: seq<string>, cols: seq<string>)
  {
    (forall c :: c in f.columns ==> c in mid) ==>
      forall i :: 0 <= i < |f.rows| ==>
        Conform(Conform(f.rows[i], f.columns, mid), mid, cols) == Conform(f.rows[i], f.columns, cols)
  }

  /** `ConformTwice` always holds. */
  lemma ConformTwiceHolds(f: Frame, mid: seq<string>, cols: seq<string>)
    ensures ConformTwice(f, mid, cols)
  {
    if forall c :: c in f.columns ==> c in mid {
      forall i | 0 <= i < |f.rows|
        ensures Conform(Conform(f.rows[i], f.columns, mid), mid, cols) == Conform(f.rows[i], f.columns, cols)
      {
        var once := Conform(f.rows[i], f.columns, mid);
        var twice := Conform(once, mid, cols);
        var direct := Conform(f.rows[i], f.columns, cols);
        assert twice.Keys == direct.Keys;
        forall c | c in cols
          ensures twice[c] == direct[c]
        {
          if c in mid {
            assert Cell(once, c) == once[c];
          }
        }
      }
    }
  }

  /** Laying out rows is done row by row. */
  lemma ConformRowsConcat(mid: seq<string>, a: seq<Row>, b: seq<Row>, cols: seq<string>)
    ensures ConformRows(Frame(mid, a + b), cols) == ConformRows(Frame(mid, a), cols) + ConformRows(Frame(mid, b), cols)
  {
  }

  /** Laying the rows of `f` out under a superset `mid` of its columns and
      then under `cols` is laying them out under `cols`. */
  lemma ConformTwiceRows(f: Frame, mid: seq<string>, cols: seq<string>)
    requires forall c :: c in f.columns ==> c in mid
    ensures ConformRows(Frame(mid, ConformRows(f, mid)), cols) == ConformRows(f, cols)
  {
    ConformTwiceHolds(f, mid, cols);
  }

  /** The number of rows of `frames` together. */
  function RowCount(frames: seq<Frame>): nat
  {
    if |frames| == 0 then 0 else RowCount(frames[..|frames| - 1]) + |frames[|frames| - 1].rows|
  }

  /** Where the rows of `frames[k]` begin once the frames are stacked. */
  function Offset(frames: seq<Frame>, k: int): (n: nat)
    requires 0 <= k < |frames|
    ensures n + |frames[k].rows| <= RowCount(frames)
    decreases |frames|
  {
    var m := |frames|;
    if k == m - 1 then RowCount(frames[..k])
    else
      assert frames[..m - 1][..k] == frames[..k];
      var n := Offset(frames[..m - 1], k);
      n
  }

  /** Row `i` of frame `k` sits at `Offset(frames, k) + i` of the stacked
      rows, laid out under the stacked columns. */
  lemma {:induction false} StackedRowAt(frames: seq<Frame>, cols: seq<string>, k: int, i: int)
    requires 0 <= k < |frames| && 0 <= i < |frames[k].rows|
    ensures |StackedRows(frames, cols)| == RowCount(frames)
    ensures StackedRows(frames, cols)[Offset(frames, k) + i] == Conform(frames[k].rows[i], frames[k].columns, cols)
    decreases |frames|
  {
    var m := |frames|;
    var pre := frames[..m - 1];
    StackedRowsLength(pre, cols);
    if k < m - 1 {
      assert pre[k] == frames[k];
      assert pre[..k] == frames[..k];
      StackedRowAt(pre, cols, k, i);
    }
  }

  /** Stacking keeps every row. */
  lemma {:induction false} StackedRowsLength(frames: seq<Frame>, cols: seq<string>)
    ensures |StackedRows(frames, cols)| == RowCount(frames)
    decreases |frames|
  {
    if |frames| > 0 {
      StackedRowsLength(frames[..|frames| - 1], cols);
    }
  }

  /** Where frame `k` begins is the number of rows before it. */
  lemma {:induction false} OffsetCountsPrefix(frames: seq<Frame>, k: int)
    requires 0 <= k < |frames|
    ensures Offset(frames, k) == RowCount(frames[..k])
    decreases |frames|
  {
    var m := |frames|;
    if k < m - 1 {
      assert frames[..m - 1][..k] == frames[..k];
      OffsetCountsPrefix(frames[..m - 1], k);
    }
  }

  /** A frame without rows in front adds no rows. */
  lemma {:induction false} RowCountEmptyHead(e: Frame, frames: seq<Frame>)
    requires |e.rows| == 0
    ensures RowCount([e] + frames) == RowCount(frames)
    decreases |frames|
  {
    var m := |frames|;
    if m == 0 {
      assert ([e] + frames)[..0] == [];
    } else {
      assert ([e] + frames)[..m] == [e] + frames[..m - 1];
      RowCountEmptyHead(e, frames[..m - 1]);
    }
  }

  /** Each cell of a concatenation is the cell of the frame its row came
      from, missing where that frame lacked the column. */
  lemma ConcatAllCells(frames: seq<Frame>, k: int, i: int, c: string)
    requires |frames| > 0
    requires 0 <= k < |frames| && 0 <= i < |frames[k].rows|
    ensures |ConcatAll(frames).rows| == RowCount(frames)
    ensures c in ConcatAll(frames).columns ==> At(ConcatAll(frames), Offset(frames, k) + i, c) == At(frames[k], i, c)
  {
    var r := ConcatAll(frames);
    StackedRowAt(frames, r.columns, k, i);
  }

  /** The rows of `f` sit in `r` from row `start` on, each cell under
      every column of `r` being the cell of `f` (missing where `f` lacks
      the column). */
  ghost predicate StackedAt(r: Frame, f: Frame, start: int)
  {
    && 0 <= start && start + |f.rows| <= |r.rows|
    && forall i, c :: 0 <= i < |f.rows| && c in r.columns ==> At(r, start + i, c) == At(f, i, c)
  }

  /** Every frame sits at its offset in the concatenation. */
  lemma ConcatAllStacked(frames: seq<Frame>, k: int)
    requires 0 <= k < |frames|
    ensures StackedAt(ConcatAll(frames), frames[k], Offset(frames, k))
  {
    StackedRowsLength(frames, ConcatAll(frames).columns);
    forall i, c | 0 <= i < |frames[k].rows| && c in ConcatAll(frames).columns
      ensures At(ConcatAll(frames), Offset(frames, k) + i, c) == At(frames[k], i, c)
    {
      ConcatAllCells(frames, k, i, c);
    }
    assert 0 <= Offset(frames, k);
    assert Offset(frames, k) + |frames[k].rows| <= |ConcatAll(frames).rows|;
  }

  // ---------------------------------------------------------------------
  // Merges

  /** `how` of a merge. */
  datatype How = Inner | LeftJoin

  /** Row `i` of `left` and row `j` of `right` agree on the key columns;
      pandas lets two missing keys match. */
  predicate KeyMatch(left: Frame, i: int, right: Frame, j: int, on: seq<string>)
    requires 0 <= i < |left.rows| && 0 <= j < |right.rows|
  {
    forall c :: c in on ==> At(left, i, c) == At(right, j, c)
  }

  /** The columns of a merge: the left ones, then the right ones that are
      not keys. */
  function MergedColumns(left: Frame, right: Frame, on: seq<string>): seq<string>
  {
    left.columns + Filter(right.columns, NotIn(on))
  }

  /** The row a merge makes of left row `i` and right row `j`. */
  function Joined(left: Frame, i: int, right: Frame, j: int, on: seq<string>): (r: Row)
    requires 0 <= i < |left.rows| && 0 <= j < |right.rows|
    ensures forall c :: c in r <==> c in MergedColumns(left, right, on)
  {
    map c | c in MergedColumns(left, right, on) :: if c in left.columns then At(left, i, c) else At(right, j, c)
  }

  /** A cell of a merged row made of left row `i` and right row `j`: from
      the left when the left has the column, else from the right when it is
      one of its non-key columns, else missing. */
  lemma JoinedAt(merged: Frame, n: int, left: Frame, i: int, right: Frame, j: int, on: seq<string>, c: string)
    requires merged.columns == MergedColumns(left, right, on)
    requires 0 <= n < |merged.rows| && 0 <= i < |left.rows| && 0 <= j < |right.rows|
    requires merged.rows[n] == Joined(left, i, right, j, on)
    ensures At(merged, n, c) ==
      if c in left.columns then At(left, i, c)
      else if c in right.columns && c !in on then At(right, j, c)
      else Null
  {
    assert c in MergedColumns(left, right, on) <==> c in left.columns || (c in right.columns && c !in on);
  }

  /** The row a left merge keeps for left row `i` when no right row matches:
      the right columns are missing. */
  function LeftOnly(left: Frame, i: int, right: Frame, on: seq<string>): (r: Row)
    requires 0 <= i < |left.rows|
    ensures forall c :: c in r <==> c in MergedColumns(left, right, on)
  {
    map c | c in MergedColumns(left, right, on) :: if c in left.columns then At(left, i, c) else Null
  }

  /** The rows joining left row `i` with the matching right rows from `j`
      on, in right order. */
  function JoinFrom(left: Frame, i: int, right: Frame, on: seq<string>, j: nat): (rows: seq<Row>)
    requires 0 <= i < |left.rows| && j <= |right.rows|
    ensures forall x :: x in rows <==>
      exists k :: j <= k < |right.rows| && KeyMatch(left, i, right, k, on) && x == Joined(left, i, right, k, on)
    decreases |right.rows| - j
  {
    if j == |right.rows| then []
    else
      var rest := JoinFrom(left, i, right, on, j + 1);
      if KeyMatch(left, i, right, j, on) then [Joined(left, i, right, j, on)] + rest else rest
  }

  /** A left row has no partner exactly when it joins with no right row. */
  lemma NoPartner(left: Frame, i: int, right: Frame, on: seq<string>)
    requires 0 <= i < |left.rows|
    ensures |JoinFrom(left, i, right, on, 0)| == 0 ==> forall j :: 0 <= j < |right.rows| ==> !KeyMatch(left, i, right, j, on)
  {
    var joined := JoinFrom(left, i, right, on, 0);
    forall j | 0 <= j < |right.rows| && KeyMatch(left, i, right, j, on)
      ensures |joined| > 0
    {
      assert Joined(left, i, right, j, on) in joined;
    }
  }

  /** A left row matching no right row joins with none. */
  lemma NoMatchNoJoin(left: Frame, i: int, right: Frame, on: seq<string>)
    requires 0 <= i < |left.rows|
    ensures (forall j :: 0 <= j < |right.rows| ==> !KeyMatch(left, i, right, j, on)) ==> |JoinFrom(left, i, right, on, 0)| == 0
  {
    var joined := JoinFrom(left, i, right, on, 0);
    if |joined| > 0 {
      assert joined[0] in joined;
    }
  }

  /** The rows one left row contributes to a merge. */
  function RowsFor(left: Frame, i: int, right: Frame, on: seq<string>, how: How): seq<Row>
    requires 0 <= i < |left.rows|
  {
    var joined := JoinFrom(left, i, right, on, 0);
    if |joined| == 0 && how == LeftJoin then [LeftOnly(left, i, right, on)] else joined
  }

  /** The rows of a merge contributed by the left rows from `i` on. */
  function MergeFrom(left: Frame, right: Frame, on: seq<string>, how: How, i: nat): (rows: seq<Row>)
    requires i <= |left.rows|
    ensures forall x :: x in rows <==> exists k :: i <= k < |left.rows| && x in RowsFor(left, k, right, on, how)
    decreases |left.rows| - i
  {
    if i == |left.rows| then []
    else RowsFor(left, i, right, on, how) + MergeFrom(left, right, on, how, i + 1)
  }

  /** `left.merge(right, on=on, how=how)`: a `KeyError` when a key column is
      missing on either side; every pair of rows agreeing on the keys gives
      one row, and under a left merge a left row with no partner is kept
      with the right columns missing. Other columns shared by both sides
      (which pandas would suffix) are outside the model. */
  function Merge(left: Frame, right: Frame, on: seq<string>, how: How): (r: Result<Frame, Exception>)
    ensures r.Err? <==>
      || (exists c :: c in on && (c !in left.columns || c !in right.columns))
      || (exists c :: c in right.columns && c !in on && c in left.columns)
    ensures r.Ok? ==> r.value.columns == MergedColumns(left, right, on)
    ensures r.Ok? ==> forall x :: x in r.value.rows ==>
      exists i :: 0 <= i < |left.rows| && x in RowsFor(left, i, right, on, how)
    ensures r.Ok? ==> forall i, j :: 0 <= i < |left.rows| && 0 <= j < |right.rows| && KeyMatch(left, i, right, j, on) ==>
      Joined(left, i, right, j, on) in r.value.rows
    ensures r.Ok? && how == LeftJoin ==> forall i :: 0 <= i < |left.rows| && (forall j :: 0 <= j < |right.rows| ==> !KeyMatch(left, i, right, j, on)) ==>
      LeftOnly(left, i, right, on) in r.value.rows
  {
    match FirstMissing(on, left.columns)
    case Some(c) => Err(KeyError(c))
    case None =>
      match FirstMissing(on, right.columns)
      case Some(c) => Err(KeyError(c))
      case None =>
        if exists c :: c in right.columns && c !in on && c in left.columns then
          Err(Unsupported("overlapping columns are suffixed"))
        else
          Ok(MergedFrame(left, right, on, how))
  }

  /** The frame a merge builds once its keys are checked. */
  function MergedFrame(left: Frame, right: Frame, on: seq<string>, how: How): (g: Frame)
    ensures g.columns == MergedColumns(left, right, on)
    ensures forall x :: x in g.rows ==>
      exists i :: 0 <= i < |left.rows| && x in RowsFor(left, i, right, on, how)
    ensures forall i, j :: 0 <= i < |left.rows| && 0 <= j < |right.rows| && KeyMatch(left, i, right, j, on) ==>
      Joined(left, i, right, j, on) in g.rows
    ensures how == LeftJoin ==> forall i :: 0 <= i < |left.rows| && (forall j :: 0 <= j < |right.rows| ==> !KeyMatch(left, i, right, j, on)) ==>
      LeftOnly(left, i, right, on) in g.rows
  {
          var rows := MergeFrom(left, right, on, how, 0);
          forall i, j | 0 <= i < |left.rows| && 0 <= j < |right.rows| && KeyMatch(left, i, right, j, on)
            ensures Joined(left, i, right, j, on) in rows
          {
            assert Joined(left, i, right, j, on) in JoinFrom(left, i, right, on, 0);
            assert Joined(left, i, right, j, on) in RowsFor(left, i, right, on, how);
          }
          forall i | 0 <= i < |left.rows| && how == LeftJoin && (forall j :: 0 <= j < |right.rows| ==> !KeyMatch(left, i, right, j, on))
            ensures LeftOnly(left, i, right, on) in rows
          {
            NoMatchNoJoin(left, i, right, on);
            assert LeftOnly(left, i, right, on) in RowsFor(left, i, right, on, how);
          }
          Frame(MergedColumns(left, right, on), rows)
  }

  // ---------------------------------------------------------------------
  // Keyed update

  /** The key of row `i` under the index columns `keys`. */
  function KeyOf(f: Frame, i: int, keys: seq<string>): (k: seq<Val>)
    requires 0 <= i < |f.rows|
    ensures |k| == |keys| && forall j :: 0 <= j < |keys| ==> k[j] == At(f, i, keys[j])
  {
    seq(|keys|, j requires 0 <= j < |keys| => At(f, i, keys[j]))
  }

  /** No two rows of `f` share a key. */
  predicate UniqueKeys(f: Frame, keys: seq<string>)
  {
    forall i, j :: 0 <= i < j < |f.rows| ==> KeyOf(f, i, keys) != KeyOf(f, j, keys)
  }

  /** The row of `f` with key `k`, if any. */
  function FindKey(f: Frame, keys: seq<string>, k: seq<Val>, from: nat): (r: Option<nat>)
    requires from <= |f.rows|
    ensures r.Some? ==> from <= r.value < |f.rows| && KeyOf(f, r.value, keys) == k
    ensures r.None? ==> forall j :: from <= j < |f.rows| ==> KeyOf(f, j, keys) != k
    decreases |f.rows| - from
  {
    if from == |f.rows| then None
    else if KeyOf(f, from, keys) == k then Some(from)
    else FindKey(f, keys, k, from + 1)
  }

  /** The columns after `reset_index`: the index columns, then the others. */
  function KeyedColumns(f: Frame, keys: seq<string>): seq<string>
  {
    keys + Filter(f.columns, NotIn(keys))
  }

  /** The columns after `reset_index` are the index columns and the
      frame's own. */
  lemma KeyedColumnsCover(f: Frame, keys: seq<string>)
    ensures forall c :: c in KeyedColumns(f, keys) <==> c in keys || c in f.columns
  {
    forall c | c in keys || c in f.columns
      ensures c in KeyedColumns(f, keys)
    {
      if c !in keys {
        assert c in Filter(f.columns, NotIn(keys));
      }
    }
  }

  /** The cell `update` leaves in column `c` of target row `i`. */
  function UpdatedCell(target: Frame, i: int, other: Frame, keys: seq<string>, c: string): Val
    requires 0 <= i < |target.rows|
  {
    match FindKey(other, keys, KeyOf(target, i, keys), 0)
    case Some(j) =>
      if c !in keys && c in target.columns && c in other.columns && At(other, j, c) != Null then At(other, j, c)
      else At(target, i, c)
    case None => At(target, i, c)
  }

  /** `target.set_index(keys).update(other.set_index(keys)).reset_index()`:
      a `KeyError` when a key column is missing, a `ValueError` when `other`
      repeats a key; otherwise the target's rows, in order, each cell of a
      shared non-key column replaced by the non-missing value of the
      `other` row with the same key. Keys are never added or removed. */
  function UpdateByKey(target: Frame, other: Frame, keys: seq<string>): (r: Result<Frame, Exception>)
    ensures r.Err? <==> (exists c :: c in keys && (c !in target.columns || c !in other.columns)) || !UniqueKeys(other, keys)
    ensures r.Err? && !(exists c :: c in keys && (c !in target.columns || c !in other.columns)) ==> r.error.ValueError?
    ensures r.Ok? ==> UpdatedBy(target, other, keys, r.value)
  {
    match FirstMissing(keys, target.columns)
    case Some(c) => Err(KeyError(c))
    case None =>
      match FirstMissing(keys, other.columns)
      case Some(c) => Err(KeyError(c))
      case None =>
        if !UniqueKeys(other, keys) then Err(ValueError("cannot reindex on an axis with duplicate labels"))
        else Ok(UpdatedFrame(target, other, keys))
  }

  /** `g` is `target` updated by `other` on `keys`: the target's columns
      and the keys, the target's rows in their order with their keys; a
      row whose key `other` has takes that row's non-missing cells in the
      columns both frames have, and a row whose key `other` lacks keeps
      its cells. */
  ghost predicate UpdatedBy(target: Frame, other: Frame, keys: seq<string>, g: Frame)
  {
    && g.columns == KeyedColumns(target, keys) && |g.rows| == |target.rows|
    && (forall i :: 0 <= i < |target.rows| ==> KeyOf(g, i, keys) == KeyOf(target, i, keys))
    && (forall i, j, c ::
          (0 <= i < |target.rows| && 0 <= j < |other.rows| && c in g.columns
           && KeyOf(other, j, keys) == KeyOf(target, i, keys)) ==>
          At(g, i, c) == (if c !in keys && c in target.columns && c in other.columns && At(other, j, c) != Null
                          then At(other, j, c) else At(target, i, c)))
    && (forall i, c ::
          (0 <= i < |target.rows| && c in g.columns
           && (forall j :: 0 <= j < |other.rows| ==> KeyOf(other, j, keys) != KeyOf(target, i, keys))) ==>
          At(g, i, c) == At(target, i, c))
  }

  /** The frame a keyed update builds once its keys are checked. */
  function UpdatedFrame(target: Frame, other: Frame, keys: seq<string>): (g: Frame)
    requires forall c :: c in keys ==> c in target.columns
    requires UniqueKeys(other, keys)
    ensures UpdatedBy(target, other, keys, g)
  {
    var cols := KeyedColumns(target, keys);
    var rows := seq(|target.rows|, i requires 0 <= i < |target.rows| =>
      map c | c in cols :: UpdatedCell(target, i, other, keys, c));
    var g := Frame(cols, rows);
    UpdateCells(target, other, keys, g);
    g
  }

  /** The cells of the updated frame. */
  lemma UpdateCells(target: Frame, other: Frame, keys: seq<string>, g: Frame)
    requires forall c :: c in keys ==> c in target.columns
    requires UniqueKeys(other, keys)
    requires g.columns == KeyedColumns(target, keys) && |g.rows| == |target.rows|
    requires forall i :: 0 <= i < |target.rows| ==>
      g.rows[i] == map c | c in g.columns :: UpdatedCell(target, i, other, keys, c)
    ensures forall i :: 0 <= i < |target.rows| ==> KeyOf(g, i, keys) == KeyOf(target, i, keys)
    ensures forall i, j, c ::
      (0 <= i < |target.rows| && 0 <= j < |other.rows| && c in g.columns
       && KeyOf(other, j, keys) == KeyOf(target, i, keys)) ==>
      At(g, i, c) == (if c !in keys && c in target.columns && c in other.columns && At(other, j, c) != Null then At(other, j, c) else At(target, i, c))
    ensures forall i, c ::
      (0 <= i < |target.rows| && c in g.columns
       && (forall j :: 0 <= j < |other.rows| ==> KeyOf(other, j, keys) != KeyOf(target, i, keys))) ==>
      At(g, i, c) == At(target, i, c)
  {
    forall i | 0 <= i < |target.rows|
      ensures KeyOf(g, i, keys) == KeyOf(target, i, keys)
    {
      UpdateKeepsKey(target, other, keys, g, i);
    }
    forall i, j, c | 0 <= i < |target.rows| && 0 <= j < |other.rows| && c in g.columns
      && KeyOf(other, j, keys) == KeyOf(target, i, keys)
      ensures At(g, i, c) == (if c !in keys && c in target.columns && c in other.columns && At(other, j, c) != Null then At(other, j, c) else At(target, i, c))
    {
      UpdateMatchedCell(target, other, keys, g, i, j, c);
    }
    forall i, c | 0 <= i < |target.rows| && c in g.columns
      && (forall j :: 0 <= j < |other.rows| ==> KeyOf(other, j, keys) != KeyOf(target, i, keys))
      ensures At(g, i, c) == At(target, i, c)
    {
      UpdateUnmatchedCell(target, other, keys, g, i, c);
    }
  }

  /** `update` leaves the key of every row alone. */
  lemma UpdateKeepsKey(target: Frame, other: Frame, keys: seq<string>, g: Frame, i: int)
    requires g.columns == KeyedColumns(target, keys) && |g.rows| == |target.rows|
    requires 0 <= i < |target.rows|
    requires g.rows[i] == map c | c in g.columns :: UpdatedCell(target, i, other, keys, c)
    ensures KeyOf(g, i, keys) == KeyOf(target, i, keys)
  {
    forall j | 0 <= j < |keys|
      ensures At(g, i, keys[j]) == At(target, i, keys[j])
    {
      assert keys[j] in g.columns;
    }
  }

  /** A row with a matching `other` row takes its non-missing values in the
      shared non-key columns. */
  lemma UpdateMatchedCell(target: Frame, other: Frame, keys: seq<string>, g: Frame, i: int, j: int, c: string)
    requires UniqueKeys(other, keys)
    requires |g.rows| == |target.rows|
    requires 0 <= i < |target.rows| && 0 <= j < |other.rows| && c in g.columns
    requires g.rows[i] == map c | c in g.columns :: UpdatedCell(target, i, other, keys, c)
    requires KeyOf(other, j, keys) == KeyOf(target, i, keys)
    ensures At(g, i, c) == (if c !in keys && c in target.columns && c in other.columns && At(other, j, c) != Null then At(other, j, c) else At(target, i, c))
  {
    var found := FindKey(other, keys, KeyOf(target, i, keys), 0);
    assert found.Some?;
    assert found.value == j;
    assert At(g, i, c) == UpdatedCell(target, i, other, keys, c);
  }

  /** A row without a matching `other` row is unchanged. */
  lemma UpdateUnmatchedCell(target: Frame, other: Frame, keys: seq<string>, g: Frame, i: int, c: string)
    requires |g.rows| == |target.rows|
    requires 0 <= i < |target.rows| && c in g.columns
    requires g.rows[i] == map c | c in g.columns :: UpdatedCell(target, i, other, keys, c)
    requires forall j :: 0 <= j < |other.rows| ==> KeyOf(other, j, keys) != KeyOf(target, i, keys)
    ensures At(g, i, c) == At(target, i, c)
  {
    var found := FindKey(other, keys, KeyOf(target, i, keys), 0);
    assert found.None?;
    assert At(g, i, c) == UpdatedCell(target, i, other, keys, c);
  }
}
