/** The Data-only row classifier of src/processors/docling_analytical.py and
    the chain that turns one extracted table into ledger rows: classify every
    row, resolve each row's section title against the whole table, keep the
    ROW rows only, and split the title into account code and label. */
module DoclingAnalytical {
  import opened Wrappers
  import opened Text
  import opened Regexes
  import opened ExtractUtils
  import opened Kinds
  import Extract

  /** The if/elif chain of identify_row, on the stripped Data. */
  function KindOfFirst(first: string): RowKind {
    if first == "Data" then Headers
    else if TotalPrefix(first) then Total
    else if MatchAccount(DottedCode, first).Some? then Title
    else if Validate(first) then Row
    else Others
  }

  /** identify_row: the kind of a row, from its stripped Data alone. */
  function IdentifyRow(data: string): RowKind {
    KindOfFirst(Strip(data))
  }

  /** Only the stripped Data matters. */
  lemma StrippedDataDecides(data: string)
    ensures IdentifyRow(data) == IdentifyRow(Strip(data))
  {
    StripIdempotent(data);
  }

  /** A canonical date is neither "Data", nor a TOTAL line, nor a title. */
  lemma DateIsNoTitle(s: string)
    requires Canonical(s)
    ensures s != "Data" && !TotalPrefix(s) && MatchAccount(DottedCode, s).None?
  {
    assert !IsDigit('D') && !IsDigit('T');
    RunEndUnique(s, 0, DigitOrDot, 2);
    RunEndUnique(s[..2], 0, Digit, 2);
  }

  /** A row is ROW exactly when its stripped Data is a valid date; the
      truncation kinds never occur. */
  lemma RowIffValid(data: string)
    ensures IdentifyRow(data) == Row <==> Validate(Strip(data))
    ensures !IsTruncated(IdentifyRow(data))
  {
    FirstRowIffValid(Strip(data));
  }

  lemma FirstRowIffValid(first: string)
    ensures KindOfFirst(first) == Row <==> Validate(first)
    ensures !IsTruncated(KindOfFirst(first))
  {
    if Validate(first) {
      ValidateIffCanonical(first);
      DateIsNoTitle(first);
    }
  }

  /** A blank Data gives OTHERS. */
  lemma BlankIsOthers(data: string)
    requires IsBlank(data)
    ensures IdentifyRow(data) == Others
  {
    ValidateIffCanonical(Strip(data));
  }

  /** A code of the dotted pattern holds a dot, so a matching title does. */
  lemma TitleHasDot(s: string)
    ensures MatchAccount(DottedCode, s).Some? ==> '.' in s
  {
    if MatchAccount(DottedCode, s).Some? {
      var g := MatchAccount(DottedCode, s).value;
      var a := RunEnd(g.code, 0, Digit);
      assert s[a] == g.code[a];
    }
  }

  /** A stripped Data without a dot, such as "1 - X", is never a TITLE: the
      code needs a dot followed by a digit. */
  lemma NoDotNoTitle(data: string)
    requires '.' !in Strip(data)
    ensures IdentifyRow(data) != Title
  {
    TitleHasDot(Strip(data));
    TitleMatches(Strip(data));
  }

  /** Only a Data of the dotted account pattern is a TITLE. */
  lemma TitleMatches(first: string)
    ensures KindOfFirst(first) == Title ==> MatchAccount(DottedCode, first).Some?
  {
  }

  // ---------------------------------------------------------------------
  // the chain of docling_analytical.py:101-152

  /** A ledger row: the account code and label taken from the row's title
      (None when the title does not match), then the six fields. */
  datatype LedgerRow = LedgerRow(contaContabil: Option<string>, contaContabilDescritivo: Option<string>, fields: Fields)

  /** The table with its "tipoDado" column, labelled by position. */
  function Classify(rows: seq<Fields>): (t: Extract.Table)
    ensures |t| == |rows|
  {
    seq(|rows|, i requires 0 <= i < |rows| => Extract.Line(i, IdentifyRow(rows[i].data), rows[i]))
  }

  /** The ledger row built from table row i and its title. */
  function Tagged(title: string, f: Fields): LedgerRow {
    LedgerRow(ExtractGroup(DottedCode, title, 1), ExtractGroup(DottedCode, title, 3), f)
  }

  /** The chain over the first n rows of a classified table: ROW rows only,
      each tagged from the nearest TITLE at or before it; a ROW without one
      makes the group extraction fail on None, a TypeError. */
  function Chain(t: Extract.Table, n: nat): Result<seq<LedgerRow>>
    requires n <= |t|
  {
    if n == 0 then Ok([])
    else
      match Chain(t, n - 1)
      case Err(e) => Err(e)
      case Ok(out) =>
        if t[n - 1].kind != Row then Ok(out)
        else
          match Extract.GetCurrentTitle(t, n - 1)
          case None => Err(TypeError)
          case Some(title) => Ok(out + [Tagged(title, t[n - 1].fields)])
  }

  /** The fields of the ROW rows among the first n, in order. */
  function RowFields(t: Extract.Table, n: nat): seq<Fields>
    requires n <= |t|
  {
    if n == 0 then []
    else RowFields(t, n - 1) + (if t[n - 1].kind == Row then [t[n - 1].fields] else [])
  }

  function FieldsOf(out: seq<LedgerRow>): (r: seq<Fields>)
    ensures |r| == |out|
    ensures forall k :: 0 <= k < |out| ==> r[k] == out[k].fields
  {
    seq(|out|, k requires 0 <= k < |out| => out[k].fields)
  }

  /** The first n input rows whose stripped Data is a valid date, in
      order. */
  function ValidRows(rows: seq<Fields>, n: nat): seq<Fields>
    requires n <= |rows|
  {
    RowsWhere(rows, DateMarks(rows), n)
  }

  /** Which input rows have a stripped Data that is a valid date. */
  function DateMarks(rows: seq<Fields>): seq<bool> {
    seq(|rows|, i requires 0 <= i < |rows| => Validate(Strip(rows[i].data)))
  }

  /** The first n rows whose mark is set, in order. */
  function RowsWhere(rows: seq<Fields>, marks: seq<bool>, n: nat): seq<Fields>
    requires n <= |rows| == |marks|
  {
    if n == 0 then []
    else RowsWhere(rows, marks, n - 1) + (if marks[n - 1] then [rows[n - 1]] else [])
  }

  /** An error in a prefix is the error of the whole chain. */
  lemma {:induction false} ChainErrSticks(t: Extract.Table, k: nat, n: nat)
    requires k <= n <= |t| && Chain(t, k).Err?
    ensures Chain(t, n) == Chain(t, k)
    decreases n - k
  {
    if k < n {
      ChainErrSticks(t, k, n - 1);
    }
  }

  /** The chain succeeds exactly when every ROW row has a title at or before
      it. */
  lemma {:induction false} ChainOkIff(t: Extract.Table, n: nat)
    requires n <= |t|
    ensures Chain(t, n).Ok? <==> forall i :: 0 <= i < n && t[i].kind == Row ==> Extract.GetCurrentTitle(t, i).Some?
  {
    if n > 0 {
      ChainOkIff(t, n - 1);
    }
  }

  /** On success the output holds exactly the ROW rows' fields, in order. */
  lemma {:induction false} ChainKeepsRows(t: Extract.Table, n: nat)
    requires n <= |t| && Chain(t, n).Ok?
    ensures FieldsOf(Chain(t, n).value) == RowFields(t, n)
  {
    if n > 0 {
      ChainKeepsRows(t, n - 1);
    }
  }

  /** Row i of the classified table is ROW exactly when its Data is a
      valid date. */
  lemma ClassifiedRow(rows: seq<Fields>, i: nat)
    requires i < |rows|
    ensures Classify(rows)[i].fields == rows[i]
    ensures (Classify(rows)[i].kind == Row) == Validate(Strip(rows[i].data))
  {
    RowIffValid(rows[i].data);
  }

  /** Table t keeps the fields of rows and marks as ROW exactly the rows
      whose mark is set. */
  predicate RowsMarked(t: Extract.Table, rows: seq<Fields>, marks: seq<bool>)
  {
    && |t| == |rows| == |marks|
    && (forall i :: 0 <= i < |t| ==> t[i].fields == rows[i])
    && (forall i :: 0 <= i < |t| ==> (t[i].kind == Row) == marks[i])
  }

  lemma {:induction false} MarkedRows(t: Extract.Table, rows: seq<Fields>, marks: seq<bool>, n: nat)
    requires RowsMarked(t, rows, marks) && n <= |t|
    ensures RowFields(t, n) == RowsWhere(rows, marks, n)
  {
    if n > 0 {
      MarkedRows(t, rows, marks, n - 1);
      assert t[n - 1].fields == rows[n - 1];
    }
  }

  /** The ROW rows of the classified table are exactly the rows whose
      stripped Data is a valid date. */
  lemma RowsAreValidDates(rows: seq<Fields>)
    ensures RowFields(Classify(rows), |rows|) == ValidRows(rows, |rows|)
  {
    var marks := DateMarks(rows);
    forall i | 0 <= i < |rows|
      ensures Classify(rows)[i].fields == rows[i]
      ensures (Classify(rows)[i].kind == Row) == marks[i]
    {
      ClassifiedRow(rows, i);
    }
    MarkedRows(Classify(rows), rows, marks, |rows|);
  }

  /** The title in force after row i: row i's own Data when it is a TITLE,
      otherwise the one before. */
  lemma TitleStep(t: Extract.Table, i: nat, current: Option<string>)
    requires i < |t|
    requires i == 0 ==> current == None
    requires i > 0 ==> current == Extract.GetCurrentTitle(t, i - 1)
    ensures Extract.GetCurrentTitle(t, i) == if t[i].kind == Title then Some(t[i].fields.data) else current
  {
  }

  /** One row of the chain. */
  lemma ChainStep(t: Extract.Table, i: nat, out: seq<LedgerRow>)
    requires i < |t| && Chain(t, i) == Ok(out)
    ensures t[i].kind != Row ==> Chain(t, i + 1) == Ok(out)
    ensures t[i].kind == Row && Extract.GetCurrentTitle(t, i).None? ==> Chain(t, i + 1) == Err(TypeError)
    ensures t[i].kind == Row && Extract.GetCurrentTitle(t, i).Some? ==>
      Chain(t, i + 1) == Ok(out + [Tagged(Extract.GetCurrentTitle(t, i).value, t[i].fields)])
  {
  }

  /** A table as docling exports it: its number of columns and its rows of
      cell text. */
  datatype Exported = Exported(width: nat, rows: seq<seq<string>>)

  /** A DataFrame is rectangular. */
  predicate Rectangular(e: Exported) {
    forall i :: 0 <= i < |e.rows| ==> |e.rows[i]| == e.width
  }

  /** The rows under the six canonical column names. */
  function Named(e: Exported): (r: seq<Fields>)
    requires Rectangular(e) && e.width == |Columns|
    ensures |r| == |e.rows|
    ensures forall i :: 0 <= i < |r| ==> r[i].data == e.rows[i][0]
  {
    seq(|e.rows|, i requires 0 <= i < |e.rows| =>
      var c := e.rows[i];
      Fields(c[0], c[1], c[2], c[3], c[4], c[5]))
  }

  /** docling_analytical.py:102-149 on one exported table.  Setting the
      six column names raises ValueError on any other width.  An apply over
      a table without rows calls its function once on a row of NaN; when
      the function raises there, apply returns a copy of the whole table,
      and DataFrame.insert refuses a copy of more than one column
      (ValueError).  identify_row's .strip() raises on NaN, so this happens
      at the first insert when the table has no rows; re.match on NaN
      raises in the group extraction, so it happens again at the first
      insert after the filter when no row is a ROW.  A ROW without a
      title before it raises TypeError in the group extraction. */
  function ProcessedTable(e: Exported): (r: Result<seq<LedgerRow>>)
    requires Rectangular(e)
    ensures e.width != |Columns| ==> r == Err(ValueError)
    ensures e.width == |Columns| && e.rows == [] ==> r == Err(ValueError)
    ensures r.Ok? ==> e.width == |Columns| && r.value != [] && Chain(Classify(Named(e)), |e.rows|) == r
  {
    if e.width != |Columns| then Err(ValueError)
    else if e.rows == [] then Err(ValueError)
    else
      match Chain(Classify(Named(e)), |e.rows|)
      case Err(x) => Err(x)
      case Ok(out) => if out == [] then Err(ValueError) else Ok(out)
  }

  /** A table of six columns whose chain succeeds is written out exactly
      when some row's stripped Data is a valid date, and then holds the
      fields of those rows, in order. */
  lemma ProcessedRows(e: Exported)
    requires Rectangular(e) && e.width == |Columns| && Chain(Classify(Named(e)), |e.rows|).Ok?
    ensures ProcessedTable(e).Ok? <==> ValidRows(Named(e), |e.rows|) != []
    ensures ProcessedTable(e).Ok? ==> FieldsOf(ProcessedTable(e).value) == ValidRows(Named(e), |e.rows|)
  {
    var t := Classify(Named(e));
    ChainKeepsRows(t, |e.rows|);
    RowsAreValidDates(Named(e));
    assert |FieldsOf(Chain(t, |e.rows|).value)| == |Chain(t, |e.rows|).value|;
    if e.rows == [] {
      assert ValidRows(Named(e), 0) == [];
    }
  }

  /** The chain of docling_analytical.py:102-149 on one table. */
  method ProcessTable(e: Exported) returns (r: Result<seq<LedgerRow>>)
    requires Rectangular(e)
    ensures r == ProcessedTable(e)
  {
    if e.width != |Columns| || e.rows == [] {
      return Err(ValueError);
    }
    var table := Classify(Named(e));
    r := ResolveTitles(table);
    if r == Ok([]) {
      r := Err(ValueError);
    }
  }

  /** process_pdf_file from the conversion on: the loop over the document's
      tables returns inside its first iteration, so only the first table is
      processed and written; a document without tables gives None. */
  method ProcessPdfFile(tables: seq<Exported>) returns (r: Option<Result<seq<LedgerRow>>>)
    requires forall k :: 0 <= k < |tables| ==> Rectangular(tables[k])
    ensures tables == [] ==> r == None
    ensures tables != [] ==> r == Some(ProcessedTable(tables[0]))
  {
    for k := 0 to |tables|
      invariant k == 0
    {
      var out := ProcessTable(tables[k]);
      return Some(out);
    }
    return None;
  }

  /** docling_analytical.py:113-149 on a classified table.  One pass keeps
      the current title, which is what the backward title search gives for
      every row, keeps the ROW rows and tags them. */
  method ResolveTitles(table: Extract.Table) returns (r: Result<seq<LedgerRow>>)
    ensures r == Chain(table, |table|)
  {
    var output: seq<LedgerRow> := [];
    var current: Option<string> := None;
    var i := 0;
    while i < |table|
      invariant 0 <= i <= |table|
      invariant i == 0 ==> current == None
      invariant i > 0 ==> current == Extract.GetCurrentTitle(table, i - 1)
      invariant Chain(table, i) == Ok(output)
    {
      TitleStep(table, i, current);
      ChainStep(table, i, output);
      var kind := table[i].kind;
      if kind == Title {
        current := Some(table[i].fields.data);
      }
      if kind == Row {
        if current.None? {
          r := Err(TypeError);
          ChainErrSticks(table, i + 1, |table|);
          return;
        }
        output := output + [Tagged(current.value, table[i].fields)];
      }
      i := i + 1;
    }
    r := Ok(output);
  }
}
