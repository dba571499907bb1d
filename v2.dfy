/** The older ASCII-table decoder (src/analytical_v2.py:108-141): the same
    table operations as the current one, in another order and with fewer
    repairs.  The header names are not stripped, the merged-column repair
    runs unconditionally, the invalid rows go after the canonical names are
    set, and the cell concatenation, which only acts on rows without a Data
    string, runs after them. */
module AnalyticalV2 {
  import opened Wrappers
  import opened Text
  import opened Regexes
  import opened Kinds
  import opened Frames
  import LlmWhisperer

  /** from_ascii_table_to_dataframe after read_csv: the canonical names
      set, then drop_invalid_rows, concat_dataframe_cells and
      strip_string_cells.  A header without rows loses its columns in
      drop_invalid_rows. */
  function FromAscii(columns: seq<string>, rows: seq<seq<Cell>>): (r: Result<Frame>)
    requires forall i :: 0 <= i < |rows| ==> |rows[i]| == |columns|
    ensures r.Ok? ==> Rect(r.value) && r.value.columns == (if rows == [] then [] else Columns)
  {
    match Named(columns, rows)
    case Err(e) => Err(e)
    case Ok(h) =>
      assert h.columns[0] == "Data";
      match ConcatCells(Older, DropInvalidRows(h).value)
      case Err(e) => Err(e)
      case Ok(m) => Ok(StripCells(m))
  }

  /** The table before drop_invalid_rows: the merged-column repair, the
      "Unnamed" columns dropped and the canonical names set. */
  function Named(columns: seq<string>, rows: seq<seq<Cell>>): (r: Result<Frame>)
    requires forall i :: 0 <= i < |rows| ==> |rows[i]| == |columns|
    ensures r.Ok? ==> Rect(r.value) && r.value.columns == Columns && |r.value.rows| == |rows|
  {
    match LlmWhisperer.RepairMerged(FromRows(columns, rows))
    case Err(e) => Err(e)
    case Ok(g) => SetColumns(DropUnnamed(g), Columns)
  }

  /** concat_dataframe_cells never changes a table of this decoder: every
      row it sees already has a Data string.  The decoder is the invalid-row
      filter and the strip on the renamed table. */
  lemma ConcatIsDead(columns: seq<string>, rows: seq<seq<Cell>>)
    requires forall i :: 0 <= i < |rows| ==> |rows[i]| == |columns|
    ensures Named(columns, rows).Err? ==> FromAscii(columns, rows) == Err(Named(columns, rows).error)
    ensures Named(columns, rows).Ok? ==> "Data" in Named(columns, rows).value.columns
    ensures Named(columns, rows).Ok? ==> FromAscii(columns, rows) == Ok(StripCells(DropInvalidRows(Named(columns, rows).value).value))
  {
    var n := Named(columns, rows);
    if n.Ok? {
      assert n.value.columns[0] == "Data";
      ConcatAfterDropIsNoop(Older, n.value);
    }
  }

  /** The decoder fails exactly when the merged repair fails or the header,
      without its "Unnamed" names, is not six long (ValueError). */
  lemma FromAsciiFails(columns: seq<string>, rows: seq<seq<Cell>>)
    requires forall i :: 0 <= i < |rows| ==> |rows[i]| == |columns|
    ensures FromAscii(columns, rows).Err? <==>
      LlmWhisperer.RepairMerged(FromRows(columns, rows)).Err? ||
      |DropUnnamed(LlmWhisperer.RepairMerged(FromRows(columns, rows)).value).columns| != |Columns|
  {
    ConcatIsDead(columns, rows);
  }

  /** Every row of a decoded table is an input row's position, with a
      stripped valid date first; the cells are stripped. */
  lemma FromAsciiRows(columns: seq<string>, rows: seq<seq<Cell>>)
    requires forall i :: 0 <= i < |rows| ==> |rows[i]| == |columns|
    requires FromAscii(columns, rows).Ok?
    ensures var t := FromAscii(columns, rows).value;
      StripCells(t) == t && forall i :: 0 <= i < |t.rows| ==> 0 <= t.labels[i] < |rows| && ValidDate(t.rows[i][0])
  {
    ConcatIsDead(columns, rows);
    var h := Named(columns, rows).value;
    LabelsInRange(columns, rows);
    FilteredRows(h);
  }

  /** The invalid-row filter and the strip on a table with the canonical
      names: stripped cells, kept labels, valid dates. */
  lemma FilteredRows(h: Frame)
    requires Rect(h) && h.columns == Columns
    ensures var t := StripCells(DropInvalidRows(h).value);
      StripCells(t) == t && forall i :: 0 <= i < |t.rows| ==> t.labels[i] in h.labels && ValidDate(t.rows[i][0])
  {
    DataFirst();
    var g := DropInvalidRows(h).value;
    StripCellsIdempotent(g);
    FilteredRowsAt(h);
  }

  lemma FilteredRowsAt(h: Frame)
    requires Rect(h) && ColumnIndex(h.columns, "Data") == Some(0)
    ensures var t := StripCells(DropInvalidRows(h).value);
      forall i :: 0 <= i < |t.rows| ==> t.labels[i] in h.labels && ValidDate(t.rows[i][0])
  {
    var t := StripCells(DropInvalidRows(h).value);
    forall i | 0 <= i < |t.rows|
      ensures t.labels[i] in h.labels && ValidDate(t.rows[i][0])
    {
      FilteredRowAt(h, i);
    }
  }

  lemma FilteredRowAt(h: Frame, i: nat)
    requires Rect(h) && ColumnIndex(h.columns, "Data") == Some(0)
    requires i < |DropInvalidRows(h).value.rows|
    ensures var t := StripCells(DropInvalidRows(h).value);
      t.labels[i] in h.labels && ValidDate(t.rows[i][0])
  {
    FilteredLabelAt(h, i);
    FilteredDateAt(h, i);
  }

  lemma FilteredLabelAt(h: Frame, i: nat)
    requires Rect(h) && "Data" in h.columns
    requires i < |DropInvalidRows(h).value.rows|
    ensures DropInvalidRows(h).value.labels[i] in h.labels
  {
    DropInvalidRowsAt(h, i);
  }

  lemma FilteredDateAt(h: Frame, i: nat)
    requires Rect(h) && ColumnIndex(h.columns, "Data") == Some(0)
    requires i < |DropInvalidRows(h).value.rows|
    ensures ValidDate(StripCells(DropInvalidRows(h).value).rows[i][0])
  {
    var g := DropInvalidRows(h).value;
    DropInvalidRowsValid(h);
    StrippedDateValid(g, i);
  }

  /** Stripping keeps a valid first cell valid. */
  lemma StrippedDateValid(g: Frame, i: nat)
    requires Rect(g) && i < |g.rows| && 0 < |g.columns| && ValidDate(g.rows[i][0])
    ensures ValidDate(StripCells(g).rows[i][0])
  {
    StripIdempotent(g.rows[i][0].value);
  }

  /** The labels before the invalid-row filter are the input positions. */
  lemma LabelsInRange(columns: seq<string>, rows: seq<seq<Cell>>)
    requires forall i :: 0 <= i < |rows| ==> |rows[i]| == |columns|
    requires Named(columns, rows).Ok?
    ensures forall j :: 0 <= j < |Named(columns, rows).value.labels| ==> Named(columns, rows).value.labels[j] == j
  {
    var g := LlmWhisperer.RepairMerged(FromRows(columns, rows)).value;
    assert DropUnnamed(g).labels == g.labels;
  }

  /** A header of six names (none the merged one, none "Unnamed") and the
      empty last one read_csv names "Unnamed", as a table drawn with a
      closing border gives. */
  predicate SixNamed(columns: seq<string>) {
    |columns| == |Columns| + 1 && Unnamed(columns[|Columns|]) &&
    (forall j :: 0 <= j < |Columns| ==> !Unnamed(columns[j])) &&
    LlmWhisperer.MergedName !in StripNames(columns)
  }

  /** On such a header the decoder succeeds and keeps exactly the rows
      with a valid date first, under their positions. */
  lemma FromAsciiSixNamed(columns: seq<string>, rows: seq<seq<Cell>>, l: int)
    requires forall i :: 0 <= i < |rows| ==> |rows[i]| == |columns|
    requires SixNamed(columns)
    ensures FromAscii(columns, rows).Ok?
    ensures l in FromAscii(columns, rows).value.labels <==> 0 <= l < |rows| && ValidDate(rows[l][0])
  {
    SixNamedNamed(columns, rows);
    ConcatIsDead(columns, rows);
    var h := Named(columns, rows).value;
    FilteredLabels(h, l);
    if 0 <= l < |rows| {
      assert h.rows[l][0] == rows[l][0];
    }
  }

  /** Such a header needs no repair: the names are set, every row keeps
      its position as label and its first cell. */
  lemma SixNamedNamed(columns: seq<string>, rows: seq<seq<Cell>>)
    requires forall i :: 0 <= i < |rows| ==> |rows[i]| == |columns|
    requires SixNamed(columns)
    ensures Named(columns, rows).Ok?
    ensures var h := Named(columns, rows).value;
      |h.rows| == |rows| && forall i :: 0 <= i < |rows| ==> h.labels[i] == i && h.rows[i][0] == rows[i][0]
  {
    var f := FromRows(columns, rows);
    Unmerged(f);
    var n := |Columns|;
    LastSplit(columns, n);
    LlmWhisperer.DropUnnamedLast(f, columns[..n], columns[n]);
    DropKeepsFirst(f, n);
  }

  /** The header split into the names before the last and the last. */
  lemma LastSplit(columns: seq<string>, n: nat)
    requires |columns| == n + 1 && forall j :: 0 <= j < n ==> !Unnamed(columns[j])
    ensures columns == columns[..n] + [columns[n]]
    ensures forall j :: 0 <= j < |columns[..n]| ==> !Unnamed(columns[..n][j])
  {
    forall j | 0 <= j < |columns[..n]|
      ensures !Unnamed(columns[..n][j])
    {
      assert columns[..n][j] == columns[j];
    }
  }

  /** Keeping the first n cells of each row keeps the first one. */
  lemma DropKeepsFirst(f: Frame, n: nat)
    requires Rect(f) && n == |Columns| <= |f.columns| && |DropUnnamed(f).columns| == n
    requires forall i :: 0 <= i < |f.rows| ==> DropUnnamed(f).rows[i] == f.rows[i][..n]
    ensures SetColumns(DropUnnamed(f), Columns).Ok?
    ensures var h := SetColumns(DropUnnamed(f), Columns).value;
      |h.rows| == |f.rows| && h.labels == f.labels && forall i :: 0 <= i < |f.rows| ==> h.rows[i][0] == f.rows[i][0]
  {
  }

  /** Without the merged name the merged-column repair changes nothing. */
  lemma Unmerged(f: Frame)
    requires Rect(f) && LlmWhisperer.MergedName !in StripNames(f.columns)
    ensures LlmWhisperer.RepairMerged(f) == Ok(f)
  {
  }

  /** On a table with the canonical names labelled by position, the filter
      keeps exactly the rows with a valid date. */
  lemma FilteredLabels(h: Frame, l: int)
    requires Rect(h) && h.columns == Columns
    requires forall i :: 0 <= i < |h.labels| ==> h.labels[i] == i
    ensures l in StripCells(DropInvalidRows(h).value).labels <==> 0 <= l < |h.rows| && ValidDate(h.rows[l][0])
  {
    DataFirst();
    if l in DropInvalidRows(h).value.labels {
      KeptIsValid(h, l);
    }
    if 0 <= l < |h.rows| && ValidDate(h.rows[l][0]) {
      ValidIsKept(h, l);
    }
  }

  lemma DataFirst()
    ensures ColumnIndex(Columns, "Data") == Some(0)
  {
  }

  lemma KeptIsValid(h: Frame, l: int)
    requires Rect(h) && ColumnIndex(h.columns, "Data") == Some(0)
    requires forall i :: 0 <= i < |h.labels| ==> h.labels[i] == i
    requires l in DropInvalidRows(h).value.labels
    ensures 0 <= l < |h.rows| && ValidDate(h.rows[l][0])
  {
    var g := DropInvalidRows(h).value;
    var i :| 0 <= i < |g.labels| && g.labels[i] == l;
    DropInvalidRowsSpec(h, l, g.rows[i]);
  }

  lemma ValidIsKept(h: Frame, l: int)
    requires Rect(h) && ColumnIndex(h.columns, "Data") == Some(0)
    requires forall i :: 0 <= i < |h.labels| ==> h.labels[i] == i
    requires 0 <= l < |h.rows| && ValidDate(h.rows[l][0])
    ensures l in DropInvalidRows(h).value.labels
  {
    DropInvalidRowsKeeps(h, l);
  }

  /** The decoder on a DataFrame updated in place. */
  method FromAsciiTable(columns: seq<string>, rows: seq<seq<Cell>>) returns (r: Result<Frame>)
    requires forall i :: 0 <= i < |rows| ==> |rows[i]| == |columns|
    ensures r == FromAscii(columns, rows)
  {
    var df := new DataFrame(FromRows(columns, rows));
    var err := LlmWhisperer.RepairMergedInPlace(df);
    if err.Some? {
      return Err(err.value);
    }
    var renamed := SetColumns(DropUnnamed(df.Value()), Columns);
    if renamed.Err? {
      return Err(renamed.error);
    }
    assert renamed.value.columns[0] == "Data";
    var table := new DataFrame(DropInvalidRows(renamed.value).value);
    err := table.ConcatDataframeCells(Older);
    if err.Some? {
      return Err(err.value);
    }
    table.StripStringCells();
    return Ok(table.Value());
  }
}
