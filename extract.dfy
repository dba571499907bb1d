/** The row classifier and the truncated-row merger of src/extract.py.

    A table is a sequence of lines with strictly increasing row labels, each
    carrying its kind (the "tipoDado" column) and its six text fields.  The
    searches and the merge compare labels, and the merge drops rows without
    relabelling the others. */
module Extract {
  import opened Wrappers
  import opened Text
  import opened Regexes
  import opened Kinds

  datatype Line = Line(name: nat, kind: RowKind, fields: Fields)

  type Table = seq<Line>

  predicate Increasing(t: Table) {
    forall i, j :: 0 <= i < j < |t| ==> t[i].name < t[j].name
  }

  // ---------------------------------------------------------------------
  // identify_row

  /** identify_row: the kind of a row, from which of Data, Descrição,
      Participante and Valor are blank once stripped. */
  function IdentifyRow(f: Fields): RowKind {
    if IsBlank(f.data) then
      if IsBlank(f.valor) then
        (if IsBlank(f.descricao) then TruncatedParticipant else TruncatedDescription)
      else Others
    else DataKind(Strip(f.data), IsBlank(f.descricao) && IsBlank(f.participante) && IsBlank(f.valor))
  }

  /** The kind of a row with a non-blank Data, from its stripped text and
      whether the other three fields are all blank: never a truncation. */
  function DataKind(first: string, othersBlank: bool): (k: RowKind)
    ensures !IsTruncated(k)
  {
    if othersBlank then
      if TotalPrefix(first) then Total
      else if MatchAccount(DottedCode, first).Some? then Title
      else Others
    else if first == "Data" then Headers
    else Row
  }

  /** With a blank Data the row is a truncation exactly when Valor is blank
      too, which of the two depends on Descrição alone, and Participante is
      never looked at. */
  lemma {:induction false} BlankDataRows(f: Fields, p: string)
    requires IsBlank(f.data)
    ensures IdentifyRow(f) == IdentifyRow(f.(participante := p))
    ensures IsBlank(f.valor) && IsBlank(f.descricao) ==> IdentifyRow(f) == TruncatedParticipant
    ensures IsBlank(f.valor) && !IsBlank(f.descricao) ==> IdentifyRow(f) == TruncatedDescription
    ensures !IsBlank(f.valor) ==> IdentifyRow(f) == Others
  {
  }

  /** A row is a truncation exactly when both Data and Valor are blank. */
  lemma TruncatedIff(f: Fields)
    ensures IsTruncated(IdentifyRow(f)) <==> IsBlank(f.data) && IsBlank(f.valor)
  {
  }

  /** A non-blank Data with the other three fields blank is a TOTAL, TITLE or
      OTHERS row, tried in that order. */
  lemma LoneDataRows(f: Fields)
    requires !IsBlank(f.data) && IsBlank(f.descricao) && IsBlank(f.participante) && IsBlank(f.valor)
    ensures TotalPrefix(Strip(f.data)) ==> IdentifyRow(f) == Total
    ensures !TotalPrefix(Strip(f.data)) && MatchAccount(DottedCode, Strip(f.data)).Some? ==> IdentifyRow(f) == Title
    ensures !TotalPrefix(Strip(f.data)) && MatchAccount(DottedCode, Strip(f.data)).None? ==> IdentifyRow(f) == Others
  {
  }

  /** Every other row is HEADERS when its stripped Data is "Data" and ROW
      otherwise: no date validation takes place here. */
  lemma FilledRows(f: Fields)
    requires !IsBlank(f.data)
    requires !(IsBlank(f.descricao) && IsBlank(f.participante) && IsBlank(f.valor))
    ensures IdentifyRow(f) == (if Strip(f.data) == "Data" then Headers else Row)
  {
  }

  // ---------------------------------------------------------------------
  // append_data

  /** append_data: the two strings joined by a space, then stripped. */
  function AppendData(a: string, b: string): (r: string)
    ensures IsStripped(r)
  {
    Strip(a + " " + b)
  }

  /** An empty left side adds nothing. */
  lemma AppendToEmpty(s: string)
    ensures AppendData("", s) == Strip(s)
  {
    var sp := " ";
    assert IsSpace(sp[0]);
    assert AllSpace(sp);
    assert "" + sp + s == sp + s + "";
    StripPadded(sp, s, "");
  }

  /** An empty right side adds nothing. */
  lemma AppendEmpty(s: string)
    ensures AppendData(s, "") == Strip(s)
  {
    var sp := " ";
    assert IsSpace(sp[0]);
    assert AllSpace(sp);
    assert s + sp + "" == "" + s + sp;
    StripPadded("", s, sp);
  }

  /** Two stripped, non-empty strings are joined by exactly one space. */
  lemma AppendStripped(a: string, b: string)
    requires |a| >= 1 && |b| >= 1 && IsStripped(a) && IsStripped(b)
    ensures AppendData(a, b) == a + " " + b
  {
    var s := a + " " + b;
    assert s[0] == a[0] && s[|s| - 1] == b[|b| - 1];
    StripOfStripped(s);
  }

  lemma WordsSnoc(frags: seq<string>, f: string)
    ensures Words(frags + [f]) == Words(frags) + (if |Strip(f)| == 0 then [] else [Strip(f)])
  {
    assert (frags + [f])[..|frags|] == frags;
  }

  /** Appending a stripped fragment to the space-join of the words so far
      gives the space-join of the words with that fragment added. */
  lemma AppendWords(frags: seq<string>, f: string)
    ensures AppendData(Join(" ", Words(frags)), Strip(f)) == Join(" ", Words(frags + [f]))
  {
    var ws := Words(frags);
    var w := Strip(f);
    WordsSnoc(frags, f);
    if |w| == 0 {
      assert w == [];
      assert Words(frags + [f]) == ws;
      AppendBlankWord(ws);
    } else if |ws| == 0 {
      assert ws == [];
      assert Words(frags + [f]) == [w];
      StripIdempotent(f);
      AppendFirstWord(w);
    } else {
      assert Words(frags + [f]) == ws + [w];
      AppendNextWord(ws, w);
    }
  }

  lemma AppendBlankWord(ws: seq<string>)
    requires forall i :: 0 <= i < |ws| ==> ws[i] != "" && IsStripped(ws[i])
    ensures AppendData(Join(" ", ws), "") == Join(" ", ws)
  {
    JoinWordsStripped(ws);
    AppendEmpty(Join(" ", ws));
    StripOfStripped(Join(" ", ws));
  }

  lemma AppendFirstWord(w: string)
    requires IsStripped(w)
    ensures AppendData(Join(" ", []), w) == Join(" ", [w])
  {
    AppendToEmpty(w);
    StripOfStripped(w);
  }

  lemma AppendNextWord(ws: seq<string>, w: string)
    requires |ws| >= 1 && |w| >= 1 && IsStripped(w)
    requires forall i :: 0 <= i < |ws| ==> ws[i] != "" && IsStripped(ws[i])
    ensures AppendData(Join(" ", ws), w) == Join(" ", ws + [w])
  {
    JoinWordsStripped(ws);
    AppendStripped(Join(" ", ws), w);
    JoinSnoc(" ", ws, w);
  }

  // ---------------------------------------------------------------------
  // get_current_title, has_truncated_rows, get_next_row_aftertruncated

  /** get_current_title: the Data of the nearest TITLE at or before position
      i, or None when there is none. */
  function GetCurrentTitle(t: Table, i: nat): (r: Option<string>)
    requires i < |t|
    ensures r.None? <==> forall j :: 0 <= j <= i ==> t[j].kind != Title
    ensures r.Some? ==> exists j :: 0 <= j <= i && t[j].kind == Title && r.value == t[j].fields.data &&
                           forall k :: j < k <= i ==> t[k].kind != Title
  {
    if t[i].kind == Title then Some(t[i].fields.data)
    else if i == 0 then None
    else GetCurrentTitle(t, i - 1)
  }

  /** A TITLE row is its own title. */
  lemma TitleIsOwnTitle(t: Table, i: nat)
    requires i < |t| && t[i].kind == Title
    ensures GetCurrentTitle(t, i) == Some(t[i].fields.data)
  {
  }

  /** has_truncated_rows: the name of the first row, in table order, whose
      name is at least init and whose kind is a truncation; -1 when there is
      none. */
  function HasTruncatedRows(t: Table, init: nat): (r: int)
    ensures r == -1 <==> forall i :: 0 <= i < |t| && t[i].name >= init ==> !IsTruncated(t[i].kind)
    ensures r != -1 ==> exists i :: 0 <= i < |t| && t[i].name == r && r >= init && IsTruncated(t[i].kind) &&
                           forall j :: 0 <= j < i && t[j].name >= init ==> !IsTruncated(t[j].kind)
  {
    if t == [] then -1
    else if t[0].name >= init && IsTruncated(t[0].kind) then t[0].name
    else
      var r := HasTruncatedRows(t[1..], init);
      assert forall i :: 1 <= i < |t| ==> t[i] == t[1..][i - 1];
      r
  }

  /** get_next_row_aftertruncated: the name of the first row, in table
      order, whose name is above init and whose kind is ROW; -1 when there is
      none. */
  function NextRowAfter(t: Table, init: int): (r: int)
    ensures r == -1 || r > init
  {
    if t == [] then -1
    else if t[0].name > init && t[0].kind == Row then t[0].name
    else NextRowAfter(t[1..], init)
  }

  /** NextRowAfter finds the first ROW above init, and -1 means there is
      none. */
  lemma {:induction false} NextRowAfterSpec(t: Table, init: int)
    ensures NextRowAfter(t, init) == -1 <==> forall i :: 0 <= i < |t| && t[i].name > init ==> t[i].kind != Row
    ensures NextRowAfter(t, init) != -1 ==>
      exists i :: 0 <= i < |t| && t[i].name == NextRowAfter(t, init) && t[i].kind == Row &&
        forall j :: 0 <= j < i && t[j].name > init ==> t[j].kind != Row
  {
    if t != [] {
      NextRowAfterSpec(t[1..], init);
      assert forall i :: 1 <= i < |t| ==> t[i] == t[1..][i - 1];
      if !(t[0].name > init && t[0].kind == Row) && NextRowAfter(t, init) != -1 {
        var i :| 0 <= i < |t[1..]| && t[1..][i].name == NextRowAfter(t, init) && t[1..][i].kind == Row &&
          forall j :: 0 <= j < i && t[1..][j].name > init ==> t[1..][j].kind != Row;
        assert t[i + 1].name == NextRowAfter(t, init) && t[i + 1].kind == Row;
      }
    }
  }

  /** In a table with increasing labels the first match in table order is the
      one with the smallest name. */
  lemma NextRowIsSmallest(t: Table, init: int, i: nat)
    requires Increasing(t) && i < |t| && t[i].name > init && t[i].kind == Row
    ensures 0 <= NextRowAfter(t, init) <= t[i].name
  {
    NextRowAfterSpec(t, init);
    var k :| 0 <= k < |t| && t[k].name == NextRowAfter(t, init) && t[k].kind == Row &&
      forall j :: 0 <= j < k && t[j].name > init ==> t[j].kind != Row;
    assert !(i < k);
  }

  // ---------------------------------------------------------------------
  // merge_truncated

  /** Whether a row is one the merge loop visits: a truncation with a name
      from init on and below the stop name (no bound when stop is -1). */
  predicate Candidate(l: Line, init: nat, stop: int) {
    l.name >= init && (stop < 0 || l.name < stop) && IsTruncated(l.kind)
  }

  /** The first n candidates, in table order. */
  function Picked(t: Table, init: nat, stop: int, n: nat): (r: Table)
    ensures |r| <= n
  {
    if t == [] || n == 0 then []
    else if Candidate(t[0], init, stop) then [t[0]] + Picked(t[1..], init, stop, n - 1)
    else Picked(t[1..], init, stop, n)
  }

  /** The picked rows are candidates taken from the table. */
  lemma {:induction false} PickedRows(t: Table, init: nat, stop: int, n: nat)
    ensures forall x :: x in Picked(t, init, stop, n) ==> Candidate(x, init, stop) && x in t
  {
    if t != [] && n != 0 {
      PickedRows(t[1..], init, stop, if Candidate(t[0], init, stop) then n - 1 else n);
    }
  }

  /** One step of the scan that picks the rows. */
  lemma PickedStep(t: Table, i: nat, init: nat, stop: int, n: nat)
    requires i < |t| && n > 0
    ensures Picked(t[i..], init, stop, n) ==
      if Candidate(t[i], init, stop) then [t[i]] + Picked(t[i + 1..], init, stop, n - 1)
      else Picked(t[i + 1..], init, stop, n)
  {
    assert t[i..][1..] == t[i + 1..];
  }

  /** A picked row moves from the unscanned rest to the rows picked so far. */
  lemma PickedAdvance(t: Table, i: nat, init: nat, stop: int, picked: Table)
    requires i < |t| && |picked| < 3 && Candidate(t[i], init, stop)
    requires picked + Picked(t[i..], init, stop, 3 - |picked|) == Picked(t, init, stop, 3)
    ensures (picked + [t[i]]) + Picked(t[i + 1..], init, stop, 3 - |picked + [t[i]]|) == Picked(t, init, stop, 3)
  {
    PickedStep(t, i, init, stop, 3 - |picked|);
    var rest := Picked(t[i + 1..], init, stop, 2 - |picked|);
    assert (picked + [t[i]]) + rest == picked + ([t[i]] + rest);
  }

  function DescriptionFragments(rows: Table): (r: seq<string>)
    ensures |r| == |rows|
  {
    if rows == [] then [] else DescriptionFragments(rows[..|rows| - 1]) + [rows[|rows| - 1].fields.descricao]
  }

  function ParticipantFragments(rows: Table): (r: seq<string>)
    ensures |r| == |rows|
  {
    if rows == [] then [] else ParticipantFragments(rows[..|rows| - 1]) + [rows[|rows| - 1].fields.participante]
  }

  /** The labels of some rows, as a set. */
  function LabelSet(rows: Table): set<nat> {
    Elements(LabelsOf(rows))
  }

  function Elements(s: seq<nat>): set<nat> {
    set l | l in s
  }

  /** The first line with name l. */
  function Lookup(t: Table, l: nat): (r: Option<Line>)
    ensures r.Some? ==> r.value in t && r.value.name == l
    ensures r.None? <==> forall i :: 0 <= i < |t| ==> t[i].name != l
  {
    if t == [] then None
    else if t[0].name == l then Some(t[0])
    else
      assert forall i :: 1 <= i < |t| ==> t[i] == t[1..][i - 1];
      Lookup(t[1..], l)
  }

  /** The copy of the table with the target's Descrição and Participante
      overwritten and the dropped labels removed. */
  function Rewrite(t: Table, target: nat, desc: string, part: string, drop: set<nat>): (r: Table)
    ensures forall i :: 0 <= i < |r| ==> exists j :: 0 <= j < |t| && t[j].name == r[i].name
  {
    if t == [] then []
    else
      var rest := Rewrite(t[1..], target, desc, part, drop);
      assert forall i :: 1 <= i < |t| ==> t[i] == t[1..][i - 1];
      if t[0].name in drop then rest
      else if t[0].name == target then
        [t[0].(fields := t[0].fields.(descricao := desc, participante := part))] + rest
      else [t[0]] + rest
  }

  /** What merge_truncated returns. */
  function MergeResult(t: Table, init: nat): Table
  {
    var target := NextRowAfter(t, init);
    var stop := NextRowAfter(t, target);
    var rows := Picked(t, init, stop, 3);
    Rewrite(t, if target < 0 then 0 else target,
            Join(" ", Words(DescriptionFragments(rows))),
            Join(" ", Words(ParticipantFragments(rows))),
            LabelSet(rows))
  }

  /** What the merge loop knows after scanning the first i rows: the rows
      merged so far are the first picks, and the labels to drop and the two
      accumulated texts are theirs. */
  predicate Scanned(t: Table, init: nat, stop: int, i: nat, merged: Table,
                    drop: seq<nat>, description: string, participant: string)
  {
    i <= |t| && |merged| <= 3 &&
    merged + Picked(t[i..], init, stop, 3 - |merged|) == Picked(t, init, stop, 3) &&
    drop == LabelsOf(merged) &&
    description == Join(" ", Words(DescriptionFragments(merged))) &&
    participant == Join(" ", Words(ParticipantFragments(merged)))
  }

  lemma ScannedStart(t: Table, init: nat, stop: int)
    ensures Scanned(t, init, stop, 0, [], [], "", "")
  {
    assert t[0..] == t;
  }

  /** One iteration of the merge loop. */
  lemma ScannedStep(t: Table, init: nat, stop: int, i: nat, merged: Table,
                    drop: seq<nat>, description: string, participant: string)
    requires i < |t| && |merged| < 3 && Scanned(t, init, stop, i, merged, drop, description, participant)
    ensures !Candidate(t[i], init, stop) ==> Scanned(t, init, stop, i + 1, merged, drop, description, participant)
    ensures Candidate(t[i], init, stop) ==>
      Scanned(t, init, stop, i + 1, merged + [t[i]], drop + [t[i].name],
              AppendData(description, Strip(t[i].fields.descricao)),
              AppendData(participant, Strip(t[i].fields.participante)))
  {
    var row := t[i];
    if Candidate(row, init, stop) {
      AppendWords(DescriptionFragments(merged), row.fields.descricao);
      AppendWords(ParticipantFragments(merged), row.fields.participante);
      FragmentsSnoc(merged, row);
      PickedAdvance(t, i, init, stop, merged);
    } else {
      PickedStep(t, i, init, stop, 3 - |merged|);
    }
  }

  /** Once the table is exhausted or three rows are merged, the rows merged
      are all the picks. */
  lemma ScannedDone(t: Table, init: nat, stop: int, i: nat, merged: Table,
                    drop: seq<nat>, description: string, participant: string)
    requires Scanned(t, init, stop, i, merged, drop, description, participant)
    requires i == |t| || |merged| == 3
    ensures merged == Picked(t, init, stop, 3)
    ensures drop == LabelsOf(Picked(t, init, stop, 3))
    ensures description == Join(" ", Words(DescriptionFragments(Picked(t, init, stop, 3))))
    ensures participant == Join(" ", Words(ParticipantFragments(Picked(t, init, stop, 3))))
  {
    if i == |t| {
      assert t[i..] == [];
    }
    assert merged + [] == merged;
  }

  /** merge_truncated: folds up to three truncated rows into the next ROW
      after init and drops them.  The target must exist. */
  method MergeTruncated(table: Table, init: nat) returns (output: Table)
    requires NextRowAfter(table, init) != -1
    ensures output == MergeResult(table, init)
  {
    var target: nat := NextRowAfter(table, init);
    var stop := NextRowAfter(table, target);
    ghost var merged := Picked(table, init, stop, 3);
    var rowsToDrop, description, participant := CollectTruncated(table, init, stop);
    MergeResultOf(table, init, merged, rowsToDrop, description, participant);
    output := Rewrite(table, target, description, participant, Elements(rowsToDrop));
  }

  /** The loop of merge_truncated: the labels of the first three candidate
      rows and their description and participant texts, joined by spaces. */
  method CollectTruncated(table: Table, init: nat, stop: int) returns (rowsToDrop: seq<nat>, description: string, participant: string)
    ensures rowsToDrop == LabelsOf(Picked(table, init, stop, 3))
    ensures description == Join(" ", Words(DescriptionFragments(Picked(table, init, stop, 3))))
    ensures participant == Join(" ", Words(ParticipantFragments(Picked(table, init, stop, 3))))
  {
    rowsToDrop := [];
    ghost var merged: Table := [];
    description := "";
    participant := "";
    var mergedRows := 0;
    var i := 0;
    ScannedStart(table, init, stop);
    while i < |table|
      invariant mergedRows == |merged| < 3
      invariant Scanned(table, init, stop, i, merged, rowsToDrop, description, participant)
      decreases |table| - i
    {
      mergedRows, merged, rowsToDrop, description, participant :=
        CollectRow(table, init, stop, i, mergedRows, merged, rowsToDrop, description, participant);
      i := i + 1;
      if mergedRows >= 3 {
        break;
      }
    }
    ScannedDone(table, init, stop, i, merged, rowsToDrop, description, participant);
  }

  /** One iteration of the merge loop: a candidate row is added to the
      labels to drop, its texts are appended and the count goes up. */
  method CollectRow(table: Table, init: nat, stop: int, i: nat, count: nat, ghost merged: Table,
                    rowsToDrop: seq<nat>, description: string, participant: string)
    returns (count': nat, ghost merged': Table, rowsToDrop': seq<nat>, description': string, participant': string)
    requires i < |table| && count == |merged| < 3
    requires Scanned(table, init, stop, i, merged, rowsToDrop, description, participant)
    ensures count' == |merged'|
    ensures Scanned(table, init, stop, i + 1, merged', rowsToDrop', description', participant')
  {
    var row := table[i];
    ScannedStep(table, init, stop, i, merged, rowsToDrop, description, participant);
    if Candidate(row, init, stop) {
      rowsToDrop' := rowsToDrop + [row.name];
      merged' := merged + [row];
      count' := count + 1;
      description' := AppendData(description, Strip(row.fields.descricao));
      participant' := AppendData(participant, Strip(row.fields.participante));
    } else {
      count', merged', rowsToDrop', description', participant' := count, merged, rowsToDrop, description, participant;
    }
  }

  /** MergeResult spelled out from the picked rows and what the loop
      accumulates from them. */
  lemma MergeResultOf(t: Table, init: nat, rows: Table, drop: seq<nat>, desc: string, part: string)
    requires NextRowAfter(t, init) != -1
    requires rows == Picked(t, init, NextRowAfter(t, NextRowAfter(t, init)), 3)
    requires drop == LabelsOf(rows)
    requires desc == Join(" ", Words(DescriptionFragments(rows)))
    requires part == Join(" ", Words(ParticipantFragments(rows)))
    ensures MergeResult(t, init) == Rewrite(t, NextRowAfter(t, init), desc, part, Elements(drop))
  {
  }

  lemma FragmentsSnoc(rows: Table, row: Line)
    ensures DescriptionFragments(rows + [row]) == DescriptionFragments(rows) + [row.fields.descricao]
    ensures ParticipantFragments(rows + [row]) == ParticipantFragments(rows) + [row.fields.participante]
    ensures LabelsOf(rows + [row]) == LabelsOf(rows) + [row.name]
  {
    assert (rows + [row])[..|rows|] == rows;
  }

  /** The labels of some rows, in order. */
  function LabelsOf(rows: Table): (r: seq<nat>)
    ensures |r| == |rows|
    ensures forall i :: 0 <= i < |rows| ==> r[i] == rows[i].name
  {
    if rows == [] then [] else LabelsOf(rows[..|rows| - 1]) + [rows[|rows| - 1].name]
  }

  // ---------------------------------------------------------------------
  // what the merge promises

  /** Looking a name up in the rewritten table: dropped labels are gone, the
      target's two text fields are replaced, and every other row is as it
      was. */
  lemma {:induction false} RewriteLookup(t: Table, target: nat, desc: string, part: string, drop: set<nat>, l: nat)
    ensures l in drop ==> Lookup(Rewrite(t, target, desc, part, drop), l).None?
    ensures l !in drop && l != target ==> Lookup(Rewrite(t, target, desc, part, drop), l) == Lookup(t, l)
    ensures l !in drop && l == target ==>
      Lookup(Rewrite(t, target, desc, part, drop), l) ==
        (match Lookup(t, l)
         case None => None
         case Some(x) => Some(x.(fields := x.fields.(descricao := desc, participante := part))))
  {
    if t != [] {
      RewriteLookup(t[1..], target, desc, part, drop, l);
    }
  }

  /** Rewriting keeps the labels increasing. */
  lemma {:induction false} RewriteIncreasing(t: Table, target: nat, desc: string, part: string, drop: set<nat>)
    requires Increasing(t)
    ensures Increasing(Rewrite(t, target, desc, part, drop))
  {
    if t != [] {
      assert Increasing(t[1..]);
      RewriteIncreasing(t[1..], target, desc, part, drop);
      var rest := Rewrite(t[1..], target, desc, part, drop);
      assert forall i :: 0 <= i < |rest| ==> rest[i].name > t[0].name;
      if t[0].name !in drop {
        var h := if t[0].name == target then t[0].(fields := t[0].fields.(descricao := desc, participante := part)) else t[0];
        var r := [h] + rest;
        assert Rewrite(t, target, desc, part, drop) == r;
        forall i, j | 0 <= i < j < |r|
          ensures r[i].name < r[j].name
        {
          assert r[j] == rest[j - 1];
          if i > 0 {
            assert r[i] == rest[i - 1];
          }
        }
      }
    }
  }

  /** The rows merge_truncated drops: at most three, each a truncation in the
      search window, and they disappear from the table. */
  lemma MergeDrops(t: Table, init: nat, l: nat)
    requires Increasing(t) && NextRowAfter(t, init) != -1
    requires l in LabelSet(Picked(t, init, NextRowAfter(t, NextRowAfter(t, init)), 3))
    ensures |Picked(t, init, NextRowAfter(t, NextRowAfter(t, init)), 3)| <= 3
    ensures Lookup(MergeResult(t, init), l).None?
    ensures Lookup(t, l).Some? && Candidate(Lookup(t, l).value, init, NextRowAfter(t, NextRowAfter(t, init)))
  {
    var target := NextRowAfter(t, init);
    var stop := NextRowAfter(t, target);
    var rows := Picked(t, init, stop, 3);
    RewriteLookup(t, target, Join(" ", Words(DescriptionFragments(rows))),
                  Join(" ", Words(ParticipantFragments(rows))), LabelSet(rows), l);
    var i :| 0 <= i < |rows| && LabelsOf(rows)[i] == l;
    PickedRows(t, init, stop, 3);
    assert rows[i] in t;
    var j :| 0 <= j < |t| && t[j] == rows[i];
    LookupUnique(t, j);
  }

  /** Every row that is neither merged nor the target comes through
      unchanged. */
  lemma MergeKeepsOthers(t: Table, init: nat, l: nat)
    requires NextRowAfter(t, init) != -1
    requires l !in LabelSet(Picked(t, init, NextRowAfter(t, NextRowAfter(t, init)), 3))
    requires l != NextRowAfter(t, init)
    ensures Lookup(MergeResult(t, init), l) == Lookup(t, l)
  {
    var target := NextRowAfter(t, init);
    var rows := Picked(t, init, NextRowAfter(t, target), 3);
    RewriteLookup(t, target, Join(" ", Words(DescriptionFragments(rows))),
                  Join(" ", Words(ParticipantFragments(rows))), LabelSet(rows), l);
  }

  /** A ROW is never among the merged rows. */
  lemma PickedSkipsRow(t: Table, init: nat, stop: int, i: nat)
    requires Increasing(t) && i < |t| && t[i].kind == Row
    ensures t[i].name !in LabelSet(Picked(t, init, stop, 3))
  {
    var rows := Picked(t, init, stop, 3);
    PickedRows(t, init, stop, 3);
    forall k | 0 <= k < |rows|
      ensures rows[k].name != t[i].name
    {
      assert rows[k] in rows;
      var j :| 0 <= j < |t| && t[j] == rows[k];
      assert j != i;
    }
  }

  /** In a table with increasing labels, looking up a row's name finds
      that row. */
  lemma LookupUnique(t: Table, j: nat)
    requires Increasing(t) && j < |t|
    ensures Lookup(t, t[j].name) == Some(t[j])
  {
    var r := Lookup(t, t[j].name);
    var k :| 0 <= k < |t| && t[k] == r.value;
  }

  /** The target keeps its other fields, and its Descrição and Participante
      become the space-joined non-empty stripped fragments of the merged rows
      in table order; its own text is discarded, so with no merged rows they
      become "". */
  lemma MergeTarget(t: Table, init: nat)
    requires Increasing(t) && NextRowAfter(t, init) != -1
    ensures var target := NextRowAfter(t, init);
      var rows := Picked(t, init, NextRowAfter(t, target), 3);
      Lookup(t, target).Some? && Lookup(t, target).value.kind == Row &&
      Lookup(MergeResult(t, init), target) ==
        Some(Lookup(t, target).value.(fields := Lookup(t, target).value.fields.(
          descricao := Join(" ", Words(DescriptionFragments(rows))),
          participante := Join(" ", Words(ParticipantFragments(rows))))))
  {
    var target := NextRowAfter(t, init);
    var stop := NextRowAfter(t, target);
    var rows := Picked(t, init, stop, 3);
    NextRowAfterSpec(t, init);
    var i :| 0 <= i < |t| && t[i].name == target && t[i].kind == Row;
    LookupUnique(t, i);
    PickedSkipsRow(t, init, stop, i);
    RewriteLookup(t, target, Join(" ", Words(DescriptionFragments(rows))),
                  Join(" ", Words(ParticipantFragments(rows))), LabelSet(rows), target);
  }

  /** The merged table still has increasing labels. */
  lemma MergeIncreasing(t: Table, init: nat)
    requires Increasing(t) && NextRowAfter(t, init) != -1
    ensures Increasing(MergeResult(t, init))
  {
    var target := NextRowAfter(t, init);
    var rows := Picked(t, init, NextRowAfter(t, target), 3);
    RewriteIncreasing(t, target, Join(" ", Words(DescriptionFragments(rows))),
                      Join(" ", Words(ParticipantFragments(rows))), LabelSet(rows));
  }
}
