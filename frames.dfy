/** The decoded tables the two ASCII-table decoders work on, and the table
    operations they share (src/processors/llmwhisperer_analytical.py and
    src/analytical_v2.py): column selection, renaming and insertion as pandas
    does them, drop_invalid_rows, concat_dataframe_cells and
    strip_string_cells.  A table is a header list, one label per row, and
    rows of optional cells: None is a missing (NaN) cell, which the code
    tells apart from the empty string. */
module Frames {
  import opened Wrappers
  import opened Text
  import opened Regexes
  import opened ExtractUtils

  /** One cell: None when pandas read nothing there (NaN). */
  type Cell = Option<string>

  datatype Frame = Frame(columns: seq<string>, labels: seq<int>, rows: seq<seq<Cell>>)

  /** Every row has one label and one cell per column. */
  predicate Rect(f: Frame) {
    |f.labels| == |f.rows| && forall i :: 0 <= i < |f.rows| ==> |f.rows[i]| == |f.columns|
  }

  predicate Increasing(labels: seq<int>) {
    forall a, b :: 0 <= a < b < |labels| ==> labels[a] < labels[b]
  }

  /** The table read_csv(...).reset_index(drop=True) gives: rows labelled
      0, 1, 2, ... */
  function FromRows(columns: seq<string>, rows: seq<seq<Cell>>): (f: Frame)
    ensures f.columns == columns && f.rows == rows && |f.labels| == |rows|
    ensures Increasing(f.labels) && forall i :: 0 <= i < |rows| ==> f.labels[i] == i
  {
    Frame(columns, seq(|rows|, i => i), rows)
  }

  /** The first column with that name. */
  function ColumnIndex(columns: seq<string>, name: string): (r: Option<nat>)
    ensures r.Some? ==> r.value < |columns| && columns[r.value] == name && name !in columns[..r.value]
    ensures r.None? ==> name !in columns
  {
    if name in columns then Some(IndexOf'(columns, name)) else None
  }

  function IndexOf'(xs: seq<string>, x: string): (i: nat)
    requires x in xs
    ensures i < |xs| && xs[i] == x && x !in xs[..i]
  {
    if xs[0] == x then 0 else 1 + IndexOf'(xs[1..], x)
  }

  /** Position of a row label. */
  function Position(labels: seq<int>, l: int): (r: Option<nat>)
    ensures r.Some? ==> r.value < |labels| && labels[r.value] == l
    ensures r.None? ==> l !in labels
    decreases |labels|
  {
    if labels == [] then None
    else if labels[0] == l then Some(0)
    else match Position(labels[1..], l)
      case None => None
      case Some(p) => Some(p + 1)
  }

  // ---------------------------------------------------------------------
  // selecting by a mask

  /** The elements whose mask entry is true, in order. */
  function Select<T>(xs: seq<T>, keep: seq<bool>): (r: seq<T>)
    requires |xs| == |keep|
    ensures |r| == Trues(keep)
  {
    if xs == [] then []
    else Select(xs[..|xs| - 1], keep[..|keep| - 1]) + (if keep[|keep| - 1] then [xs[|xs| - 1]] else [])
  }

  function Trues(keep: seq<bool>): nat {
    if keep == [] then 0 else Trues(keep[..|keep| - 1]) + (if keep[|keep| - 1] then 1 else 0)
  }

  /** An element is selected exactly when some position holding it is kept. */
  lemma {:induction false} SelectHas<T>(xs: seq<T>, keep: seq<bool>, x: T)
    requires |xs| == |keep|
    ensures x in Select(xs, keep) <==> exists i :: 0 <= i < |xs| && keep[i] && xs[i] == x
  {
    if xs != [] {
      var n := |xs| - 1;
      var s := Select(xs[..n], keep[..n]);
      var tail := if keep[n] then [xs[n]] else [];
      assert Select(xs, keep) == s + tail;
      assert x in s + tail <==> x in s || x in tail;
      SelectHas(xs[..n], keep[..n], x);
      if x in s {
        var i :| 0 <= i < n && keep[..n][i] && xs[..n][i] == x;
        assert keep[i] && xs[i] == x;
      }
      if exists i :: 0 <= i < |xs| && keep[i] && xs[i] == x {
        var i :| 0 <= i < |xs| && keep[i] && xs[i] == x;
        if i < n {
          assert keep[..n][i] && xs[..n][i] == x;
        } else {
          assert x in tail;
        }
      }
    }
  }

  /** A non-empty sequence is its front followed by its last element. */
  lemma InitLast<T>(xs: seq<T>)
    requires xs != []
    ensures xs == xs[..|xs| - 1] + [xs[|xs| - 1]]
  {
  }

  /** Keeping everything keeps the sequence. */
  lemma {:induction false} SelectAll<T>(xs: seq<T>, keep: seq<bool>)
    requires |xs| == |keep| && forall i :: 0 <= i < |keep| ==> keep[i]
    ensures Select(xs, keep) == xs
  {
    if xs != [] {
      SelectAll(xs[..|xs| - 1], keep[..|keep| - 1]);
      assert xs[..|xs| - 1] + [xs[|xs| - 1]] == xs;
    }
  }

  /** Selecting keeps the order: increasing labels stay increasing. */
  lemma {:induction false} SelectIncreasing(xs: seq<int>, keep: seq<bool>)
    requires |xs| == |keep| && Increasing(xs)
    ensures Increasing(Select(xs, keep))
  {
    if xs != [] {
      var n := |xs| - 1;
      SelectIncreasing(xs[..n], keep[..n]);
      forall y | y in Select(xs[..n], keep[..n])
        ensures y < xs[n]
      {
        SelectHas(xs[..n], keep[..n], y);
      }
      var s := Select(xs[..n], keep[..n]);
      if keep[n] {
        forall a | 0 <= a < |s|
          ensures s[a] < xs[n]
        {
          assert s[a] in s;
        }
      }
    }
  }

  /** Selecting the columns of every row. */
  function SelectCells(rows: seq<seq<Cell>>, keep: seq<bool>): (r: seq<seq<Cell>>)
    requires forall i :: 0 <= i < |rows| ==> |rows[i]| == |keep|
    ensures |r| == |rows|
    ensures forall i :: 0 <= i < |r| ==> r[i] == Select(rows[i], keep)
  {
    seq(|rows|, i requires 0 <= i < |rows| => Select(rows[i], keep))
  }

  /** The table with only the columns whose mask entry is true. */
  function KeepColumns(f: Frame, keep: seq<bool>): (g: Frame)
    requires Rect(f) && |keep| == |f.columns|
    ensures Rect(g) && g.labels == f.labels && g.columns == Select(f.columns, keep)
  {
    Frame(Select(f.columns, keep), f.labels, SelectCells(f.rows, keep))
  }

  /** The table with only the rows whose mask entry is true. */
  function KeepRows(f: Frame, keep: seq<bool>): (g: Frame)
    requires Rect(f) && |keep| == |f.rows|
    ensures Rect(g) && g.columns == f.columns
    ensures Increasing(f.labels) ==> Increasing(g.labels)
  {
    var g := Frame(f.columns, Select(f.labels, keep), Select(f.rows, keep));
    assert forall r :: r in g.rows ==> |r| == |f.columns| by {
      forall r | r in g.rows
        ensures |r| == |f.columns|
      {
        SelectHas(f.rows, keep, r);
      }
    }
    assert Increasing(f.labels) ==> Increasing(g.labels) by {
      if Increasing(f.labels) {
        SelectIncreasing(f.labels, keep);
      }
    }
    g
  }

  // ---------------------------------------------------------------------
  // pandas column operations

  /** No name twice. */
  predicate Distinct(names: seq<string>) {
    forall a, b :: 0 <= a < b < |names| ==> names[a] != names[b]
  }

  /** df.columns.str.strip(). */
  function StripNames(columns: seq<string>): (r: seq<string>)
    ensures |r| == |columns|
    ensures forall j :: 0 <= j < |r| ==> r[j] == Strip(columns[j])
  {
    seq(|columns|, j requires 0 <= j < |columns| => Strip(columns[j]))
  }

  /** strip_columns_names, applied twice, changes nothing more. */
  lemma StripNamesIdempotent(columns: seq<string>)
    ensures StripNames(StripNames(columns)) == StripNames(columns)
  {
    forall j | 0 <= j < |columns|
      ensures Strip(Strip(columns[j])) == Strip(columns[j])
    {
      StripIdempotent(columns[j]);
    }
  }

  /** df.rename(columns={from: to}): every column named from is renamed. */
  function RenameColumn(f: Frame, from: string, to: string): (g: Frame)
    ensures Rect(f) ==> Rect(g)
    ensures g.labels == f.labels && g.rows == f.rows && |g.columns| == |f.columns|
    ensures forall j :: 0 <= j < |f.columns| ==> g.columns[j] == if f.columns[j] == from then to else f.columns[j]
  {
    Frame(seq(|f.columns|, j requires 0 <= j < |f.columns| => if f.columns[j] == from then to else f.columns[j]), f.labels, f.rows)
  }

  /** df.insert(loc, name, value): a ValueError when the name is already a
      column, an IndexError when loc is past the end, otherwise a new column
      holding value in every row. */
  function InsertColumn(f: Frame, loc: nat, name: string, value: string): (r: Result<Frame>)
    requires Rect(f)
    ensures name in f.columns ==> r == Err(ValueError)
    ensures name !in f.columns && loc > |f.columns| ==> r == Err(IndexError)
    ensures r.Ok? ==> Rect(r.value) && r.value.labels == f.labels
    ensures r.Ok? ==> r.value.columns == f.columns[..loc] + [name] + f.columns[loc..]
    ensures r.Ok? ==> forall i :: 0 <= i < |f.rows| ==>
      r.value.rows[i] == f.rows[i][..loc] + [Some(value)] + f.rows[i][loc..]
  {
    if name in f.columns then Err(ValueError)
    else if loc > |f.columns| then Err(IndexError)
    else
      Ok(Frame(f.columns[..loc] + [name] + f.columns[loc..], f.labels,
        seq(|f.rows|, i requires 0 <= i < |f.rows| => f.rows[i][..loc] + [Some(value)] + f.rows[i][loc..])))
  }

  /** df.insert(loc, name, series): as above, with one cell per row. */
  function InsertCells(f: Frame, loc: nat, name: string, cells: seq<Cell>): (r: Result<Frame>)
    requires Rect(f) && |cells| == |f.rows|
    ensures name in f.columns ==> r == Err(ValueError)
    ensures name !in f.columns && loc > |f.columns| ==> r == Err(IndexError)
    ensures r.Ok? ==> Rect(r.value) && r.value.labels == f.labels
    ensures r.Ok? ==> r.value.columns == f.columns[..loc] + [name] + f.columns[loc..]
    ensures r.Ok? ==> forall i :: 0 <= i < |f.rows| ==>
      r.value.rows[i] == f.rows[i][..loc] + [cells[i]] + f.rows[i][loc..]
  {
    if name in f.columns then Err(ValueError)
    else if loc > |f.columns| then Err(IndexError)
    else
      Ok(Frame(f.columns[..loc] + [name] + f.columns[loc..], f.labels,
        seq(|f.rows|, i requires 0 <= i < |f.rows| => f.rows[i][..loc] + [cells[i]] + f.rows[i][loc..])))
  }

  /** df.drop(columns=names): a KeyError naming the first name that is not a
      column, otherwise the table without every column so named. */
  function DropColumns(f: Frame, names: seq<string>): (r: Result<Frame>)
    requires Rect(f)
    ensures r.Err? <==> exists n :: n in names && n !in f.columns
    ensures r.Ok? ==> Rect(r.value) && r.value.labels == f.labels
    ensures r.Ok? ==> forall n :: n in r.value.columns <==> n in f.columns && n !in names
  {
    if forall n :: n in names ==> n in f.columns then
      var keep := DropMask(f.columns, names);
      var g := KeepColumns(f, keep);
      assert forall n :: n in g.columns <==> n in f.columns && n !in names by {
        forall n
          ensures n in g.columns <==> n in f.columns && n !in names
        {
          SelectHas(f.columns, keep, n);
        }
      }
      Ok(g)
    else
      var n := FirstMissing(names, f.columns);
      Err(KeyError(n))
  }

  function FirstMissing(names: seq<string>, columns: seq<string>): (n: string)
    requires exists n :: n in names && n !in columns
    ensures n in names && n !in columns
  {
    if names[0] !in columns then names[0] else FirstMissing(names[1..], columns)
  }

  /** df.loc[:, ~df.columns.str.contains("^Unnamed")]. */
  function DropUnnamed(f: Frame): (g: Frame)
    requires Rect(f)
    ensures Rect(g) && g.labels == f.labels
    ensures forall n :: n in g.columns <==> n in f.columns && !Unnamed(n)
  {
    var keep := seq(|f.columns|, j requires 0 <= j < |f.columns| => !Unnamed(f.columns[j]));
    var g := KeepColumns(f, keep);
    assert forall n :: n in g.columns <==> n in f.columns && !Unnamed(n) by {
      forall n
        ensures n in g.columns <==> n in f.columns && !Unnamed(n)
      {
        SelectHas(f.columns, keep, n);
      }
    }
    g
  }

  /** df.columns = names: a ValueError unless the lengths agree. */
  function SetColumns(f: Frame, names: seq<string>): (r: Result<Frame>)
    ensures r.Ok? <==> |names| == |f.columns|
    ensures r.Ok? ==> r.value == Frame(names, f.labels, f.rows)
  {
    if |names| == |f.columns| then Ok(Frame(names, f.labels, f.rows)) else Err(ValueError)
  }

  /** Every cell of the first column named name is missing (isna().all());
      a KeyError when there is no such column. */
  function AllMissing(f: Frame, name: string): (r: Result<bool>)
    requires Rect(f)
    ensures r.Err? <==> name !in f.columns
    ensures r.Ok? ==> (r.value <==> forall i :: 0 <= i < |f.rows| ==> f.rows[i][ColumnIndex(f.columns, name).value].None?)
  {
    match ColumnIndex(f.columns, name)
    case None => Err(KeyError(name))
    case Some(j) => Ok(forall i :: 0 <= i < |f.rows| ==> f.rows[i][j].None?)
  }

  // ---------------------------------------------------------------------
  // drop_invalid_rows

  /** The cell is a string that passes validate once stripped. */
  predicate ValidDate(c: Cell) {
    c.Some? && Validate(Strip(c.value))
  }

  function DateMask(rows: seq<seq<Cell>>, d: nat): (keep: seq<bool>)
    requires forall i :: 0 <= i < |rows| ==> d < |rows[i]|
    ensures |keep| == |rows|
  {
    seq(|rows|, i requires 0 <= i < |rows| => ValidDate(rows[i][d]))
  }

  /** drop_invalid_rows: the rows whose Data cell is a valid date; a
      KeyError when there is no Data column.  On a table without rows the
      mask apply returns is an empty object Series, which df[...] reads as
      an empty list of column names: the result has no column at all. */
  function DropInvalidRows(f: Frame): (r: Result<Frame>)
    requires Rect(f)
    ensures r.Err? <==> "Data" !in f.columns
    ensures r.Ok? ==> Rect(r.value) && r.value.columns == (if f.rows == [] then [] else f.columns)
    ensures r.Ok? && f.rows == [] ==> r.value == Frame([], [], [])
    ensures r.Ok? && Increasing(f.labels) ==> Increasing(r.value.labels)
  {
    match ColumnIndex(f.columns, "Data")
    case None => Err(KeyError("Data"))
    case Some(d) => if f.rows == [] then Ok(Frame([], [], [])) else Ok(KeepRows(f, DateMask(f.rows, d)))
  }

  /** drop_invalid_rows keeps exactly the rows whose Data is a valid date,
      each with its own label. */
  lemma DropInvalidRowsSpec(f: Frame, l: int, row: seq<Cell>)
    requires Rect(f) && "Data" in f.columns
    ensures var g := DropInvalidRows(f).value; var d := ColumnIndex(f.columns, "Data").value;
      (exists i :: 0 <= i < |g.rows| && g.labels[i] == l && g.rows[i] == row) <==>
      (exists i :: 0 <= i < |f.rows| && f.labels[i] == l && f.rows[i] == row && ValidDate(row[d]))
  {
    var d := ColumnIndex(f.columns, "Data").value;
    var keep := DateMask(f.rows, d);
    var g := DropInvalidRows(f).value;
    if f.rows == [] {
      return;
    }
    assert g.labels == Select(f.labels, keep) && g.rows == Select(f.rows, keep);
    if i :| 0 <= i < |g.rows| && g.labels[i] == l && g.rows[i] == row {
      SelectAt(f.labels, keep, i);
      SelectAt(f.rows, keep, i);
      var k := Kept(keep)[i];
      assert f.labels[k] == l && f.rows[k] == row && keep[k];
    }
    if i :| 0 <= i < |f.rows| && f.labels[i] == l && f.rows[i] == row && ValidDate(row[d]) {
      assert keep[i];
      KeptHas(keep, i);
      var k :| 0 <= k < |Kept(keep)| && Kept(keep)[k] == i;
      SelectAt(f.labels, keep, k);
      SelectAt(f.rows, keep, k);
    }
  }

  /** drop_invalid_rows selects the labels and rows of the date mask. */
  lemma DropInvalidRowsIs(f: Frame)
    requires Rect(f) && "Data" in f.columns && f.rows != []
    ensures var keep := DateMask(f.rows, ColumnIndex(f.columns, "Data").value);
      DropInvalidRows(f).value == Frame(f.columns, Select(f.labels, keep), Select(f.rows, keep))
  {
  }

  /** The label of a row drop_invalid_rows keeps is an input label. */
  lemma DropInvalidRowsAt(f: Frame, i: nat)
    requires Rect(f) && "Data" in f.columns && i < |DropInvalidRows(f).value.rows|
    ensures DropInvalidRows(f).value.labels[i] in f.labels
  {
    DropInvalidRowsIs(f);
    SelectedIsIn(f.labels, DateMask(f.rows, ColumnIndex(f.columns, "Data").value), i);
  }

  /** A selected element is an element. */
  lemma SelectedIsIn<T>(xs: seq<T>, keep: seq<bool>, i: nat)
    requires |xs| == |keep| && i < Trues(keep)
    ensures Select(xs, keep)[i] in xs
  {
    SelectAt(xs, keep, i);
    assert xs[Kept(keep)[i]] in xs;
  }

  /** An input row with a valid date is kept, under its label. */
  lemma DropInvalidRowsKeeps(f: Frame, j: nat)
    requires Rect(f) && "Data" in f.columns && j < |f.rows|
    requires ValidDate(f.rows[j][ColumnIndex(f.columns, "Data").value])
    ensures f.labels[j] in DropInvalidRows(f).value.labels
  {
    var keep := DateMask(f.rows, ColumnIndex(f.columns, "Data").value);
    DropInvalidRowsIs(f);
    assert keep[j];
    SelectHas(f.labels, keep, f.labels[j]);
  }

  /** The positions a mask keeps, in order. */
  function Kept(keep: seq<bool>): (r: seq<nat>)
    ensures |r| == Trues(keep)
    ensures forall k :: 0 <= k < |r| ==> r[k] < |keep| && keep[r[k]]
  {
    if keep == [] then []
    else Kept(keep[..|keep| - 1]) + (if keep[|keep| - 1] then [|keep| - 1] else [])
  }

  /** Every kept position is listed. */
  lemma {:induction false} KeptHas(keep: seq<bool>, i: nat)
    requires i < |keep| && keep[i]
    ensures exists k :: 0 <= k < |Kept(keep)| && Kept(keep)[k] == i
  {
    var n := |keep| - 1;
    if i < n {
      KeptHas(keep[..n], i);
      var k :| 0 <= k < |Kept(keep[..n])| && Kept(keep[..n])[k] == i;
      assert Kept(keep)[k] == i;
    } else {
      assert Kept(keep)[|Kept(keep)| - 1] == i;
    }
  }

  /** The k-th selected element is the element at the k-th kept position. */
  lemma {:induction false} SelectAt<T>(xs: seq<T>, keep: seq<bool>, k: nat)
    requires |xs| == |keep| && k < Trues(keep)
    ensures Select(xs, keep)[k] == xs[Kept(keep)[k]]
  {
    var n := |xs| - 1;
    if k < Trues(keep[..n]) {
      SelectAt(xs[..n], keep[..n], k);
    }
  }

  /** Every row drop_invalid_rows keeps has a valid date. */
  lemma DropInvalidRowsValid(f: Frame)
    requires Rect(f) && "Data" in f.columns
    ensures var g := DropInvalidRows(f).value; var d := ColumnIndex(f.columns, "Data").value;
      forall i :: 0 <= i < |g.rows| ==> ValidDate(g.rows[i][d])
  {
    var d := ColumnIndex(f.columns, "Data").value;
    var keep := DateMask(f.rows, d);
    var g := DropInvalidRows(f).value;
    forall i | 0 <= i < |g.rows|
      ensures ValidDate(g.rows[i][d])
    {
      assert g.rows[i] in Select(f.rows, keep);
      SelectHas(f.rows, keep, g.rows[i]);
    }
  }

  // ---------------------------------------------------------------------
  // strip_string_cells

  function StripCell(c: Cell): (r: Cell)
    ensures r.None? <==> c.None?
  {
    match c
    case None => None
    case Some(s) => Some(Strip(s))
  }

  /** The rows with the cells of the columns before j stripped. */
  function StripBefore(rows: seq<seq<Cell>>, j: nat): (r: seq<seq<Cell>>)
    ensures |r| == |rows|
    ensures forall i :: 0 <= i < |rows| ==> |r[i]| == |rows[i]|
  {
    seq(|rows|, i requires 0 <= i < |rows| =>
      seq(|rows[i]|, k requires 0 <= k < |rows[i]| => if k < j then StripCell(rows[i][k]) else rows[i][k]))
  }

  /** df[column] = df[column].str.strip() for the column at j. */
  function StripColumn(rows: seq<seq<Cell>>, j: nat): (r: seq<seq<Cell>>)
    ensures |r| == |rows|
  {
    seq(|rows|, i requires 0 <= i < |rows| => if j < |rows[i]| then rows[i][j := StripCell(rows[i][j])] else rows[i])
  }

  lemma StripNothing(rows: seq<seq<Cell>>)
    ensures StripBefore(rows, 0) == rows
  {
    forall i | 0 <= i < |rows|
      ensures StripBefore(rows, 0)[i] == rows[i]
    {
    }
  }

  lemma StripColumnStep(rows: seq<seq<Cell>>, j: nat)
    ensures StripColumn(StripBefore(rows, j), j) == StripBefore(rows, j + 1)
  {
    forall i | 0 <= i < |rows|
      ensures StripColumn(StripBefore(rows, j), j)[i] == StripBefore(rows, j + 1)[i]
    {
    }
  }

  /** strip_string_cells: every text cell stripped, every missing cell left
      missing. */
  function StripCells(f: Frame): (g: Frame)
    ensures g.columns == f.columns && g.labels == f.labels
    ensures Rect(f) ==> Rect(g)
  {
    Frame(f.columns, f.labels, StripBefore(f.rows, |f.columns|))
  }

  /** After stripping, every text cell holds str.strip() of its old text,
      so no text cell has edge whitespace, and a missing cell is still
      missing. */
  lemma StripCellsSpec(f: Frame, i: nat, k: nat)
    requires Rect(f) && i < |f.rows| && k < |f.columns|
    ensures StripCells(f).rows[i][k] == if f.rows[i][k].Some? then Some(Strip(f.rows[i][k].value)) else None
    ensures StripCells(f).rows[i][k].None? <==> f.rows[i][k].None?
    ensures StripCells(f).rows[i][k].Some? ==> IsStripped(StripCells(f).rows[i][k].value)
  {
  }

  /** Stripping twice is stripping once. */
  lemma StripCellsIdempotent(f: Frame)
    requires Rect(f)
    ensures StripCells(StripCells(f)) == StripCells(f)
  {
    var g := StripCells(f);
    var n := |f.columns|;
    forall i | 0 <= i < |g.rows|
      ensures StripBefore(g.rows, n)[i] == g.rows[i]
    {
      StripRowTwice(f.rows[i], n);
    }
  }

  /** A row stripped before n, stripped again before n, is unchanged. */
  lemma StripRowTwice(row: seq<Cell>, n: nat)
    requires n == |row|
    ensures StripBefore([StripBefore([row], n)[0]], n)[0] == StripBefore([row], n)[0]
  {
    var once := StripBefore([row], n)[0];
    var twice := StripBefore([once], n)[0];
    forall k | 0 <= k < n
      ensures twice[k] == once[k]
    {
      assert once[k] == StripCell(row[k]);
      assert twice[k] == StripCell(once[k]);
      StripCellTwice(row[k]);
    }
  }

  lemma StripCellTwice(c: Cell)
    ensures StripCell(StripCell(c)) == StripCell(c)
  {
    if c.Some? {
      StripIdempotent(c.value);
    }
  }

  // ---------------------------------------------------------------------
  // concat_dataframe_cells

  /** A string cell that is not blank. */
  predicate HasText(c: Cell) {
    c.Some? && Strip(c.value) != ""
  }

  /** The new text of the row above, when the cell below is absorbed into
      it.  The current decoder reads a missing cell above as "nan" (str of
      NaN); the older one calls .strip() on it, an AttributeError. */
  function MergeCell(version: Decoder, above: Cell, below: string): Result<Cell> {
    match above
    case None => if version == Older then Err(AttributeError) else Ok(Some("nan " + Strip(below)))
    case Some(a) => Ok(Some(Strip(a) + " " + Strip(below)))
  }

  /** The row above after absorbing the text cells of the row below, from
      column j on, left to right. */
  function MergeFrom(version: Decoder, above: seq<Cell>, below: seq<Cell>, j: nat): (r: Result<seq<Cell>>)
    requires |above| == |below| && j <= |below|
    ensures r.Ok? ==> |r.value| == |above|
    decreases |below| - j
  {
    if j == |below| then Ok(above)
    else if HasText(below[j]) then
      match MergeCell(version, above[j], below[j].value)
      case Err(e) => Err(e)
      case Ok(c) => MergeFrom(version, above[j := c], below, j + 1)
    else MergeFrom(version, above, below, j + 1)
  }

  /** One column of the merge: a cell without text is skipped, a text
      cell is merged into the row above. */
  lemma MergeStep(version: Decoder, above: seq<Cell>, below: seq<Cell>, j: nat)
    requires |above| == |below| && j < |below|
    ensures !HasText(below[j]) ==> MergeFrom(version, above, below, j) == MergeFrom(version, above, below, j + 1)
    ensures HasText(below[j]) && MergeCell(version, above[j], below[j].value).Ok? ==>
      MergeFrom(version, above, below, j) == MergeFrom(version, above[j := MergeCell(version, above[j], below[j].value).value], below, j + 1)
  {
  }

  lemma NoTextStep(row: seq<Cell>, j: nat)
    requires j < |row| && NoTextBefore(row, j) && !HasText(row[j])
    ensures NoTextBefore(row, j + 1)
  {
  }

  /** The rows without the one at position p. */
  function Without<T>(xs: seq<T>, p: nat): (r: seq<T>)
    requires p < |xs|
    ensures |r| == |xs| - 1
  {
    xs[..p] + xs[p + 1..]
  }

  /** No text cell before column j. */
  predicate NoTextBefore(row: seq<Cell>, j: nat)
    requires j <= |row|
  {
    forall k :: 0 <= k < j ==> !HasText(row[k])
  }

  /** The pass of concat_dataframe_cells over the row labelled l: a row with
      text but no Data string is absorbed into the row labelled l - 1 and
      dropped. */
  function ConcatRow(version: Decoder, f: Frame, l: int): (r: Result<Frame>)
    requires Rect(f)
    ensures r.Ok? ==> Rect(r.value) && r.value.columns == f.columns
  {
    match Position(f.labels, l)
    case None => Ok(f)
    case Some(p) =>
      if NoTextBefore(f.rows[p], |f.rows[p]|) then Ok(f)
      else AbsorbRow(version, f, l, p)
  }

  /** What happens to the row at p, labelled l, once a text cell is met: a
      KeyError without a Data column, nothing when its Data is a string, a
      KeyError when no row is labelled l - 1, otherwise its text cells are
      absorbed into that row and it is dropped. */
  function AbsorbRow(version: Decoder, f: Frame, l: int, p: nat): (r: Result<Frame>)
    requires Rect(f) && p < |f.rows| && f.labels[p] == l
    ensures r.Ok? ==> Rect(r.value) && r.value.columns == f.columns
  {
    var row := f.rows[p];
    match ColumnIndex(f.columns, "Data")
    case None => Err(KeyError("Data"))
    case Some(d) =>
      if row[d].Some? then Ok(f)
      else match Position(f.labels, l - 1)
        case None => Err(LabelError(l - 1))
        case Some(q) =>
          match MergeFrom(version, f.rows[q], row, 0)
          case Err(e) => Err(e)
          case Ok(above) => Ok(Frame(f.columns, Without(f.labels, p), Without(f.rows[q := above], p)))
  }

  /** Columns without text leave the merge as it is. */
  lemma {:induction false} MergeSkip(version: Decoder, above: seq<Cell>, below: seq<Cell>, i: nat, j: nat)
    requires |above| == |below| && i <= j <= |below|
    requires forall k :: i <= k < j ==> !HasText(below[k])
    ensures MergeFrom(version, above, below, i) == MergeFrom(version, above, below, j)
    decreases j - i
  {
    if i < j {
      MergeSkip(version, above, below, i + 1, j);
    }
  }

  /** The passes over the labels ls, in order. */
  function ConcatFrom(version: Decoder, f: Frame, ls: seq<int>): (r: Result<Frame>)
    requires Rect(f)
    ensures r.Ok? ==> Rect(r.value) && r.value.columns == f.columns
    decreases |ls|
  {
    if ls == [] then Ok(f)
    else match ConcatRow(version, f, ls[0])
      case Err(e) => Err(e)
      case Ok(g) => ConcatFrom(version, g, ls[1..])
  }

  /** concat_dataframe_cells: the passes over every label from the third
      row on. */
  function ConcatCells(version: Decoder, f: Frame): (r: Result<Frame>)
    requires Rect(f)
  {
    ConcatFrom(version, f, if |f.labels| <= 2 then [] else f.labels[2..])
  }

  /** A table in which every Data cell is a string is left unchanged. */
  lemma {:induction false} ConcatNoop(version: Decoder, f: Frame, ls: seq<int>)
    requires Rect(f) && "Data" in f.columns
    requires forall i :: 0 <= i < |f.rows| ==> f.rows[i][ColumnIndex(f.columns, "Data").value].Some?
    ensures ConcatFrom(version, f, ls) == Ok(f)
    decreases |ls|
  {
    if ls != [] {
      assert ConcatRow(version, f, ls[0]) == Ok(f) by {
        if Position(f.labels, ls[0]).Some? && !NoTextBefore(f.rows[Position(f.labels, ls[0]).value], |f.columns|) {
          assert AbsorbRow(version, f, ls[0], Position(f.labels, ls[0]).value) == Ok(f);
        }
      }
      ConcatNoop(version, f, ls[1..]);
    }
  }

  /** Hence concat_dataframe_cells after drop_invalid_rows changes nothing:
      every row left has a Data string. */
  lemma ConcatAfterDropIsNoop(version: Decoder, f: Frame)
    requires Rect(f) && "Data" in f.columns
    ensures ConcatCells(version, DropInvalidRows(f).value) == Ok(DropInvalidRows(f).value)
  {
    var g := DropInvalidRows(f).value;
    if f.rows != [] {
      DropInvalidRowsValid(f);
      ConcatNoop(version, g, if |g.labels| <= 2 then [] else g.labels[2..]);
    }
  }

  /** Only rows whose label is passed over can go: the columns stay, every
      other label stays, and no label appears. */
  lemma {:induction false} ConcatKeepsRows(version: Decoder, f: Frame, ls: seq<int>, l: int)
    requires Rect(f) && ConcatFrom(version, f, ls).Ok?
    ensures l in ConcatFrom(version, f, ls).value.labels ==> l in f.labels
    ensures l in f.labels && l !in ls ==> l in ConcatFrom(version, f, ls).value.labels
    decreases |ls|
  {
    if ls != [] {
      var g := ConcatRow(version, f, ls[0]).value;
      ConcatRowLabels(version, f, ls[0], l);
      ConcatKeepsRows(version, g, ls[1..], l);
    }
  }

  lemma ConcatRowLabels(version: Decoder, f: Frame, l0: int, l: int)
    requires Rect(f) && ConcatRow(version, f, l0).Ok?
    ensures l in ConcatRow(version, f, l0).value.labels ==> l in f.labels
    ensures l in f.labels && l != l0 ==> l in ConcatRow(version, f, l0).value.labels
  {
    var g := ConcatRow(version, f, l0).value;
    if g != f {
      var p := ConcatRowDrops(version, f, l0);
      WithoutMembers(f.labels, p, l);
    }
  }

  /** A pass that changes the frame drops the row labelled l0 from the
      labels. */
  lemma ConcatRowDrops(version: Decoder, f: Frame, l0: int) returns (p: nat)
    requires Rect(f) && ConcatRow(version, f, l0).Ok? && ConcatRow(version, f, l0).value != f
    ensures p < |f.labels| && f.labels[p] == l0
    ensures ConcatRow(version, f, l0).value.labels == Without(f.labels, p)
  {
    p := Position(f.labels, l0).value;
  }

  /** Dropping position p keeps every other element and adds none. */
  lemma WithoutMembers<T>(xs: seq<T>, p: nat, x: T)
    requires p < |xs|
    ensures x in Without(xs, p) ==> x in xs
    ensures x in xs && x != xs[p] ==> x in Without(xs, p)
  {
    var ys := Without(xs, p);
    if x in xs && x != xs[p] {
      var i :| 0 <= i < |xs| && xs[i] == x;
      if i < p {
        assert ys[i] == x;
      } else {
        assert ys[i - 1] == x;
      }
    }
    if x in ys {
      var i :| 0 <= i < |ys| && ys[i] == x;
      if i < p {
        assert xs[i] == x;
      } else {
        assert xs[i + 1] == x;
      }
    }
  }

  /** concat_dataframe_cells never drops the first two rows. */
  lemma ConcatKeepsFirstRows(version: Decoder, f: Frame, k: nat)
    requires Rect(f) && Increasing(f.labels) && k < 2 && k < |f.labels|
    requires ConcatCells(version, f).Ok?
    ensures f.labels[k] in ConcatCells(version, f).value.labels
  {
    var ls := if |f.labels| <= 2 then [] else f.labels[2..];
    assert forall i :: 0 <= i < |ls| ==> ls[i] != f.labels[k] by {
      forall i | 0 <= i < |ls|
        ensures ls[i] != f.labels[k]
      {
        assert ls[i] == f.labels[i + 2];
      }
    }
    ConcatKeepsRows(version, f, ls, f.labels[k]);
  }

  /** Whether the row holds a text cell, column by column. */
  method FindText(row: seq<Cell>) returns (found: bool)
    ensures found == !NoTextBefore(row, |row|)
  {
    var j := 0;
    while j < |row|
      invariant j <= |row| && NoTextBefore(row, j)
    {
      if HasText(row[j]) {
        return true;
      }
      NoTextStep(row, j);
      j := j + 1;
    }
    return false;
  }

  /** The column loop of the merge: each text cell of below is merged into
      the row above, left to right. */
  method MergeRow(version: Decoder, above: seq<Cell>, below: seq<Cell>) returns (r: Result<seq<Cell>>)
    requires |above| == |below|
    ensures r == MergeFrom(version, above, below, 0)
  {
    var merged := above;
    var j := 0;
    while j < |below|
      invariant j <= |below| == |merged|
      invariant MergeFrom(version, above, below, 0) == MergeFrom(version, merged, below, j)
    {
      MergeStep(version, merged, below, j);
      if HasText(below[j]) {
        var cell := MergeCell(version, merged[j], below[j].value);
        if cell.Err? {
          return Err(cell.error);
        }
        merged := merged[j := cell.value];
      }
      j := j + 1;
    }
    return Ok(merged);
  }

  /** The pass over the row at p, labelled l, without the frame update:
      None when the row stays, or the position of the row above and its
      merged cells. */
  method ScanRow(version: Decoder, f: Frame, l: int, p: nat) returns (r: Result<Option<(nat, seq<Cell>)>>)
    requires Rect(f) && p < |f.rows| && f.labels[p] == l && Position(f.labels, l) == Some(p)
    ensures r.Err? ==> ConcatRow(version, f, l) == Err(r.error)
    ensures r == Ok(None) ==> ConcatRow(version, f, l) == Ok(f)
    ensures r.Ok? && r.value.Some? ==>
      && r.value.value.0 < |f.rows| && |r.value.value.1| == |f.columns|
      && ConcatRow(version, f, l) == Ok(Frame(f.columns, Without(f.labels, p), Without(f.rows[r.value.value.0 := r.value.value.1], p)))
  {
    var below := f.rows[p];
    var text := FindText(below);
    if !text {
      return Ok(None);
    }
    var data := ColumnIndex(f.columns, "Data");
    if data.None? {
      return Err(KeyError("Data"));
    }
    if below[data.value].Some? {
      // the row has a Data string: nothing is absorbed
      return Ok(None);
    }
    var above := Position(f.labels, l - 1);
    if above.None? {
      return Err(LabelError(l - 1));
    }
    var merged := MergeRow(version, f.rows[above.value], below);
    if merged.Err? {
      return Err(merged.error);
    }
    return Ok(Some((above.value, merged.value)));
  }

  // ---------------------------------------------------------------------
  // reading a cell by column name

  /** row[name] for row i: the cell under the first column so named. */
  function CellOf(f: Frame, i: nat, name: string): Cell
    requires Rect(f) && i < |f.rows| && name in f.columns
  {
    f.rows[i][ColumnIndex(f.columns, name).value]
  }

  /** Two headers with name at the same positions find it at the same
      place. */
  lemma ColumnIndexSame(a: seq<string>, b: seq<string>, name: string)
    requires |a| == |b| && forall j :: 0 <= j < |a| ==> (a[j] == name <==> b[j] == name)
    ensures ColumnIndex(a, name) == ColumnIndex(b, name)
  {
    if name in a {
      var p := ColumnIndex(a, name).value;
      assert b[p] == name;
      var q := ColumnIndex(b, name).value;
      forall j | 0 <= j < p
        ensures b[j] != name
      {
        assert a[..p][j] == a[j];
      }
      forall j | 0 <= j < q
        ensures a[j] != name
      {
        assert b[..q][j] == b[j];
      }
    } else {
      forall j | 0 <= j < |b|
        ensures b[j] != name
      {
        assert a[j] in a;
      }
    }
  }

  /** Inserting another column in front keeps every named cell. */
  lemma InsertFrontKeeps(f: Frame, name: string, cells: seq<Cell>, n: string, i: nat)
    requires Rect(f) && |cells| == |f.rows| && InsertCells(f, 0, name, cells).Ok?
    requires n != name && n in f.columns && i < |f.rows|
    ensures n in InsertCells(f, 0, name, cells).value.columns
    ensures CellOf(InsertCells(f, 0, name, cells).value, i, n) == CellOf(f, i, n)
  {
    var g := InsertCells(f, 0, name, cells).value;
    assert g.columns == [name] + f.columns;
    assert g.columns[1..] == f.columns;
    var p := ColumnIndex(f.columns, n).value;
    assert g.columns[p + 1] == n;
    assert n !in g.columns[..p + 1] by {
      assert g.columns[..p + 1] == [name] + f.columns[..p];
    }
    assert ColumnIndex(g.columns, n) == Some(p + 1);
    assert g.rows[i] == [cells[i]] + f.rows[i];
  }

  /** Renaming other columns keeps every named cell. */
  lemma RenameKeeps(f: Frame, from: string, to: string, n: string, i: nat)
    requires Rect(f) && n != from && n != to && n in f.columns && i < |f.rows|
    ensures n in RenameColumn(f, from, to).columns
    ensures CellOf(RenameColumn(f, from, to), i, n) == CellOf(f, i, n)
  {
    var g := RenameColumn(f, from, to);
    ColumnIndexSame(f.columns, g.columns, n);
  }

  /** Selecting splits at any position. */
  lemma {:induction false} SelectSplit<T>(xs: seq<T>, keep: seq<bool>, p: nat)
    requires |xs| == |keep| && p <= |xs|
    ensures Select(xs, keep) == Select(xs[..p], keep[..p]) + Select(xs[p..], keep[p..])
    decreases |xs|
  {
    if |xs| == p {
      assert xs[..p] == xs && keep[..p] == keep;
      assert xs[p..] == [] && keep[p..] == [];
    } else {
      var n := |xs| - 1;
      SelectSplit(xs[..n], keep[..n], p);
      assert xs[..n][..p] == xs[..p] && keep[..n][..p] == keep[..p];
      assert xs[..n][p..] == xs[p..n] && keep[..n][p..] == keep[p..n];
      SelectSplitStep(xs, keep, p);
    }
  }

  /** The split of a sequence follows from the split of its front. */
  lemma SelectSplitStep<T>(xs: seq<T>, keep: seq<bool>, p: nat)
    requires |xs| == |keep| && p < |xs|
    requires Select(xs[..|xs| - 1], keep[..|xs| - 1]) ==
      Select(xs[..p], keep[..p]) + Select(xs[p..|xs| - 1], keep[p..|xs| - 1])
    ensures Select(xs, keep) == Select(xs[..p], keep[..p]) + Select(xs[p..], keep[p..])
  {
    var n := |xs| - 1;
    var a, b := Select(xs[..p], keep[..p]), Select(xs[p..n], keep[p..n]);
    SelectLast(xs, keep);
    SelectLastOfSuffix(xs, keep, p);
    if keep[n] {
      assert (a + b) + [xs[n]] == a + (b + [xs[n]]);
    }
  }

  /** Select of a suffix, by its last element. */
  lemma SelectLastOfSuffix<T>(xs: seq<T>, keep: seq<bool>, p: nat)
    requires |xs| == |keep| && p < |xs|
    ensures keep[|xs| - 1] ==> Select(xs[p..], keep[p..]) == Select(xs[p..|xs| - 1], keep[p..|xs| - 1]) + [xs[|xs| - 1]]
    ensures !keep[|xs| - 1] ==> Select(xs[p..], keep[p..]) == Select(xs[p..|xs| - 1], keep[p..|xs| - 1])
  {
    var ys, ks := xs[p..], keep[p..];
    SelectLast(ys, ks);
    assert ys[..|ys| - 1] == xs[p..|xs| - 1] && ks[..|ks| - 1] == keep[p..|xs| - 1];
  }

  /** Select of a non-empty sequence, by its last element. */
  lemma SelectLast<T>(xs: seq<T>, keep: seq<bool>)
    requires |xs| == |keep| && xs != []
    ensures keep[|xs| - 1] ==> Select(xs, keep) == Select(xs[..|xs| - 1], keep[..|xs| - 1]) + [xs[|xs| - 1]]
    ensures !keep[|xs| - 1] ==> Select(xs, keep) == Select(xs[..|xs| - 1], keep[..|xs| - 1])
  {
  }

  /** A kept element lands after the kept elements before it. */
  lemma SelectKept<T>(xs: seq<T>, keep: seq<bool>, p: nat)
    requires |xs| == |keep| && p < |xs| && keep[p]
    ensures Select(xs, keep) == Select(xs[..p], keep[..p]) + [xs[p]] + Select(xs[p + 1..], keep[p + 1..])
  {
    SelectSplit(xs, keep, p + 1);
    assert xs[..p + 1][..p] == xs[..p] && keep[..p + 1][..p] == keep[..p];
  }

  /** With a prefix entirely kept, selecting keeps that prefix. */
  lemma SelectKeepsPrefix<T>(xs: seq<T>, keep: seq<bool>, p: nat)
    requires |xs| == |keep| && p <= |xs| && forall j :: 0 <= j < p ==> keep[j]
    ensures p <= |Select(xs, keep)| && Select(xs, keep)[..p] == xs[..p]
  {
    SelectSplit(xs, keep, p);
    SelectAll(xs[..p], keep[..p]);
  }

  /** The mask df.drop(columns=names) keeps. */
  function DropMask(columns: seq<string>, names: seq<string>): (keep: seq<bool>)
    ensures |keep| == |columns|
    ensures forall j :: 0 <= j < |columns| ==> keep[j] == (columns[j] !in names)
  {
    seq(|columns|, j requires 0 <= j < |columns| => columns[j] !in names)
  }

  lemma DropIsKeep(f: Frame, names: seq<string>)
    requires Rect(f) && DropColumns(f, names).Ok?
    ensures DropColumns(f, names).value == KeepColumns(f, DropMask(f.columns, names))
  {
  }

  /** Dropping other columns keeps every named cell. */
  lemma DropKeeps(f: Frame, names: seq<string>, n: string, i: nat)
    requires Rect(f) && DropColumns(f, names).Ok?
    requires n !in names && n in f.columns && i < |f.rows|
    ensures n in DropColumns(f, names).value.columns
    ensures CellOf(DropColumns(f, names).value, i, n) == CellOf(f, i, n)
  {
    var keep := DropMask(f.columns, names);
    DropIsKeep(f, names);
    var g := DropColumns(f, names).value;
    var p := ColumnIndex(f.columns, n).value;
    SelectKept(f.columns, keep, p);
    SelectKept(f.rows[i], keep, p);
    var before := Select(f.columns[..p], keep[..p]);
    assert |before| == |Select(f.rows[i][..p], keep[..p])|;
    assert g.columns[|before|] == n;
    assert n !in before by {
      SelectHas(f.columns[..p], keep[..p], n);
    }
    assert g.columns[..|before|] == before;
    assert ColumnIndex(g.columns, n) == Some(|before|);
    assert g.rows[i] == Select(f.rows[i], keep);
    assert g.rows[i][|before|] == f.rows[i][p];
  }

  /** Dropping columns none of which is in the first p keeps the first p
      columns and cells. */
  lemma DropKeepsPrefix(f: Frame, names: seq<string>, p: nat)
    requires Rect(f) && DropColumns(f, names).Ok? && p <= |f.columns|
    requires forall j :: 0 <= j < p ==> f.columns[j] !in names
    ensures var g := DropColumns(f, names).value;
      p <= |g.columns| && g.columns[..p] == f.columns[..p] &&
      forall i :: 0 <= i < |f.rows| ==> g.rows[i][..p] == f.rows[i][..p]
  {
    var keep := DropMask(f.columns, names);
    DropIsKeep(f, names);
    SelectKeepsPrefix(f.columns, keep, p);
    forall i | 0 <= i < |f.rows|
      ensures Select(f.rows[i], keep)[..p] == f.rows[i][..p]
    {
      SelectKeepsPrefix(f.rows[i], keep, p);
    }
  }

  // ---------------------------------------------------------------------
  // the table as a pandas DataFrame updated in place

  /** A DataFrame: its column names, row labels and cells, which the
      decoders rename, insert, drop and rewrite in place. */
  class DataFrame {
    var columns: seq<string>
    var labels: seq<int>
    var rows: seq<seq<Cell>>

    function Value(): Frame
      reads this
    {
      Frame(columns, labels, rows)
    }

    constructor (f: Frame)
      ensures Value() == f
    {
      columns := f.columns;
      labels := f.labels;
      rows := f.rows;
    }

    /** df.rename(columns={from: to}, inplace=True). */
    method Rename(from: string, to: string)
      modifies this
      ensures Value() == RenameColumn(old(Value()), from, to)
    {
      columns := RenameColumn(Value(), from, to).columns;
    }

    /** df.insert(loc, name, value); on an error the table is unchanged. */
    method Insert(loc: nat, name: string, value: string) returns (err: Option<Error>)
      requires Rect(Value())
      modifies this
      ensures InsertColumn(old(Value()), loc, name, value).Ok? ==> err.None? && Value() == InsertColumn(old(Value()), loc, name, value).value
      ensures InsertColumn(old(Value()), loc, name, value).Err? ==> err == Some(InsertColumn(old(Value()), loc, name, value).error) && Value() == old(Value())
    {
      match InsertColumn(Value(), loc, name, value)
      case Err(e) => err := Some(e);
      case Ok(g) =>
        columns, rows := g.columns, g.rows;
        err := None;
    }

    /** df.insert(loc, name, series); on an error the table is unchanged. */
    method InsertSeries(loc: nat, name: string, cells: seq<Cell>) returns (err: Option<Error>)
      requires Rect(Value()) && |cells| == |rows|
      modifies this
      ensures InsertCells(old(Value()), loc, name, cells).Ok? ==> err.None? && Value() == InsertCells(old(Value()), loc, name, cells).value
      ensures InsertCells(old(Value()), loc, name, cells).Err? ==> err == Some(InsertCells(old(Value()), loc, name, cells).error) && Value() == old(Value())
    {
      match InsertCells(Value(), loc, name, cells)
      case Err(e) => err := Some(e);
      case Ok(g) =>
        columns, rows := g.columns, g.rows;
        err := None;
    }

    /** df.drop(columns=names, inplace=True); on an error the table is
        unchanged. */
    method Drop(names: seq<string>) returns (err: Option<Error>)
      requires Rect(Value())
      modifies this
      ensures DropColumns(old(Value()), names).Ok? ==> err.None? && Value() == DropColumns(old(Value()), names).value
      ensures DropColumns(old(Value()), names).Err? ==> err == Some(DropColumns(old(Value()), names).error) && Value() == old(Value())
    {
      match DropColumns(Value(), names)
      case Err(e) => err := Some(e);
      case Ok(g) =>
        columns, rows := g.columns, g.rows;
        err := None;
    }

    /** strip_string_cells: column by column, each text cell stripped. */
    method StripStringCells()
      modifies this
      ensures Value() == StripCells(old(Value()))
    {
      var j := 0;
      ghost var rows0 := rows;
      StripNothing(rows);
      while j < |columns|
        invariant j <= |columns| && columns == old(columns) && labels == old(labels)
        invariant rows == StripBefore(rows0, j)
      {
        StripColumnStep(rows0, j);
        rows := StripColumn(rows, j);
        j := j + 1;
      }
    }

    /** concat_dataframe_cells, in place: for every label from the third row
        on, a row whose Data is missing gives its text cells, column by
        column, to the row labelled one less, and is dropped.  On an error
        the table is left as it stood when the error was raised. */
    method ConcatDataframeCells(version: Decoder) returns (err: Option<Error>)
      requires Rect(Value())
      modifies this
      ensures ConcatCells(version, old(Value())).Ok? ==> err.None? && Value() == ConcatCells(version, old(Value())).value
      ensures ConcatCells(version, old(Value())).Err? ==> err == Some(ConcatCells(version, old(Value())).error)
    {
      var index := if |labels| <= 2 then [] else labels[2..];
      var n := 0;
      while n < |index|
        invariant n <= |index| && Rect(Value())
        invariant ConcatCells(version, old(Value())) == ConcatFrom(version, Value(), index[n..])
      {
        assert index[n..][1..] == index[n + 1..];
        err := ConcatLine(version, index[n]);
        if err.Some? {
          return;
        }
        n := n + 1;
      }
      err := None;
    }

    /** One pass of concat_dataframe_cells, over the row labelled l: the
        column loop rewrites a copy of the row above, which is stored back
        when the row below is dropped. */
    method ConcatLine(version: Decoder, l: int) returns (err: Option<Error>)
      requires Rect(Value())
      modifies this
      ensures ConcatRow(version, old(Value()), l).Ok? ==> err.None? && Value() == ConcatRow(version, old(Value()), l).value
      ensures ConcatRow(version, old(Value()), l).Err? ==> err == Some(ConcatRow(version, old(Value()), l).error)
    {
      var f := Value();
      err := None;
      var position := Position(f.labels, l);
      if position.None? {
        return;
      }
      var p := position.value;
      var scan := ScanRow(version, f, l, p);
      match scan
      case Err(e) =>
        err := Some(e);
      case Ok(None) =>
      case Ok(Some((q, merged))) =>
        rows := Without(f.rows[q := merged], p);
        labels := Without(f.labels, p);
    }
  }
}
