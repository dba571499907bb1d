/** The current ASCII-table decoder (src/processors/llmwhisperer_analytical.py):
    find_similar_columns and the header repairs of
    from_ascii_table_to_dataframe, on the table model of module Frames.
    read_csv is not modelled: the decoder starts from the header list and the
    rows of optional cells read_csv produced. */
module LlmWhisperer {
  import opened Wrappers
  import opened Text
  import opened Regexes
  import opened Kinds
  import opened Frames
  import opened TextBlocks

  // ---------------------------------------------------------------------
  // find_similar_columns

  /** The name before a trailing " .N" (re.split(pattern, item)[0]), when
      the name has one. */
  function PrefixOf(name: string): (r: Option<string>)
    ensures r.Some? ==> |r.value| + 3 <= |name| && r.value == name[..|r.value|]
  {
    match DuplicateSuffix(name)
    case None => None
    case Some(k) => Some(name[..k])
  }

  /** The names with a " .N" suffix whose prefix is key, in order. */
  function Members(names: seq<string>, key: string): (r: seq<string>)
    ensures forall x :: x in r ==> x in names && PrefixOf(x) == Some(key)
  {
    if names == [] then []
    else Members(names[..|names| - 1], key) + (if PrefixOf(names[|names| - 1]) == Some(key) then [names[|names| - 1]] else [])
  }

  /** The group a dictionary holds for key, [] when it has none (the default
      of defaultdict(list)). */
  function GroupOr(d: Dict<seq<string>>, key: string): seq<string> {
    match Get(d, key)
    case None => []
    case Some(g) => g
  }

  /** The dictionary find_similar_columns builds from names. */
  function Grouped(names: seq<string>): Dict<seq<string>> {
    if names == [] then []
    else
      var d := Grouped(names[..|names| - 1]);
      var x := names[|names| - 1];
      match PrefixOf(x)
      case None => d
      case Some(k) => Put(d, k, GroupOr(d, k) + [x])
  }

  /** find_similar_columns: the group of every prefix is the list of the
      names carrying it, in input order; a prefix no name carries has no
      group. */
  lemma {:induction false} GroupedGet(names: seq<string>, key: string)
    ensures Get(Grouped(names), key) == if Members(names, key) == [] then None else Some(Members(names, key))
  {
    if names != [] {
      var init := names[..|names| - 1];
      var x := names[|names| - 1];
      GroupedGet(init, key);
      var d := Grouped(init);
      assert Members(names, key) == Members(init, key) + (if PrefixOf(x) == Some(key) then [x] else []);
      match PrefixOf(x)
      case None =>
        assert Grouped(names) == d;
        assert Members(names, key) == Members(init, key);
      case Some(k) =>
        assert Grouped(names) == Put(d, k, GroupOr(d, k) + [x]);
        PutGet(d, k, GroupOr(d, k) + [x], key);
    }
  }

  /** Every prefix is a key at most once. */
  lemma {:induction false} GroupedDistinct(names: seq<string>)
    ensures DistinctKeys(Grouped(names))
  {
    if names != [] {
      GroupedDistinct(names[..|names| - 1]);
      var d := Grouped(names[..|names| - 1]);
      match PrefixOf(names[|names| - 1])
      case None =>
      case Some(k) =>
        PutDistinct(d, k, GroupOr(d, k) + [names[|names| - 1]]);
    }
  }

  /** A group never holds its own prefix: the base name is a key, not a
      member. */
  lemma BaseNotMember(names: seq<string>, key: string)
    ensures key !in Members(names, key)
  {
  }

  /** find_similar_columns, filling the dictionary name by name. */
  method FindSimilarColumns(names: seq<string>) returns (groups: Dict<seq<string>>)
    ensures groups == Grouped(names)
  {
    groups := [];
    var i := 0;
    while i < |names|
      invariant i <= |names| && groups == Grouped(names[..i])
    {
      assert names[..i + 1][..i] == names[..i];
      var prefix := PrefixOf(names[i]);
      if prefix.Some? {
        groups := Put(groups, prefix.value, GroupOr(groups, prefix.value) + [names[i]]);
      }
      i := i + 1;
    }
    assert names[..i] == names;
  }

  /** The example of the repository's test: "Col1 .1" is grouped under
      "Col1"; "Col1" and "Col2" are members of no group. */
  lemma GroupedExample()
    ensures Grouped(["Col1", "Col1 .1", "Col2"]) == [("Col1", ["Col1 .1"])]
  {
    ExamplePrefixes();
    var names := ["Col1", "Col1 .1", "Col2"];
    var n2 := ["Col1", "Col1 .1"];
    assert names[..2] == n2;
    assert n2[..1] == ["Col1"] && ["Col1"][..0] == [];
    assert Grouped(n2[..1]) == [];
    assert GroupOr([], "Col1") + [n2[1]] == ["Col1 .1"];
    assert PrefixOf(n2[1]) == Some("Col1");
    assert Grouped(n2) == Put([], "Col1", ["Col1 .1"]);
  }

  lemma ExamplePrefixes()
    ensures PrefixOf("Col1 .1") == Some("Col1")
    ensures PrefixOf("Col1").None? && PrefixOf("Col2").None?
  {
    DuplicateSuffixOf("Col1", "1");
    assert "Col1 .1"[..4] == "Col1";
    LetterBeforeDigit("Col1");
    LetterBeforeDigit("Col2");
  }

  /** A name whose last digit follows a letter has no " .N" suffix. */
  lemma LetterBeforeDigit(name: string)
    requires |name| >= 2 && IsDigit(name[|name| - 1]) && !IsDigit(name[|name| - 2]) && name[|name| - 2] != '.'
    ensures DuplicateSuffix(name).None?
  {
    TrailingDigitsUnique(name, 1);
  }

  /** Members holds every name carrying the prefix. */
  lemma {:induction false} MembersHas(names: seq<string>, key: string, x: string)
    requires x in names && PrefixOf(x) == Some(key)
    ensures x in Members(names, key)
  {
    var n := |names| - 1;
    if x != names[n] {
      assert x in names[..n] by {
        var i :| 0 <= i < |names| && names[i] == x;
        assert names[..n][i] == x;
      }
      MembersHas(names[..n], key, x);
    }
  }

  /** Get finds the entry of a key. */
  lemma {:induction false} GetEntry<V>(d: Dict<V>, k: string, v: V)
    requires Get(d, k) == Some(v)
    ensures exists i :: 0 <= i < |d| && d[i] == (k, v)
  {
    if d[0].0 != k {
      GetEntry(d[1..], k, v);
      var i :| 0 <= i < |d[1..]| && d[1..][i] == (k, v);
      assert d[i + 1] == (k, v);
    }
  }

  /** With distinct keys, every entry is what Get finds. */
  lemma {:induction false} EntryGet<V>(d: Dict<V>, i: nat)
    requires DistinctKeys(d) && i < |d|
    ensures Get(d, d[i].0) == Some(d[i].1)
  {
    if i > 0 {
      assert d[0].0 != d[i].0;
      EntryGet(d[1..], i - 1);
    }
  }

  /** The name belongs to one of the groups. */
  predicate InGroups(groups: Dict<seq<string>>, n: string) {
    exists i :: 0 <= i < |groups| && n in groups[i].1
  }

  /** The names find_similar_columns puts in some group are exactly the
      names with a " .N" suffix. */
  lemma GroupedMembers(names: seq<string>, x: string)
    ensures InGroups(Grouped(names), x) <==> x in names && PrefixOf(x).Some?
  {
    var d := Grouped(names);
    GroupedDistinct(names);
    if InGroups(d, x) {
      var i :| 0 <= i < |d| && x in d[i].1;
      EntryGet(d, i);
      GroupedGet(names, d[i].0);
    }
    if x in names && PrefixOf(x).Some? {
      var k := PrefixOf(x).value;
      MembersHas(names, k, x);
      GroupedGet(names, k);
      GetEntry(d, k, Members(names, k));
    }
  }

  // ---------------------------------------------------------------------
  // the duplicate-column repair (lines 207-240)

  /** Some row holds a string in column j. */
  predicate AnyString(rows: seq<seq<Cell>>, j: nat)
    requires forall i :: 0 <= i < |rows| ==> j < |rows[i]|
  {
    exists i :: 0 <= i < |rows| && rows[i][j].Some?
  }

  /** The repair of one group, as written: df[column] for each duplicate
      (a KeyError for the first missing one); df[key] (a KeyError when the
      base name is no column); a string in the base column reaches
      math.isnan, a TypeError, while a missing cell stays missing; then the
      duplicates are dropped. */
  function RepairGroup(f: Frame, key: string, value: seq<string>): (r: Result<Frame>)
    requires Rect(f)
    ensures r.Ok? <==>
      (forall n :: n in value ==> n in f.columns) && key in f.columns && !AnyString(f.rows, ColumnIndex(f.columns, key).value)
    ensures r.Ok? ==> Rect(r.value) && r.value.labels == f.labels
    ensures r.Ok? ==> forall n :: n in r.value.columns <==> n in f.columns && n !in value
  {
    if exists n :: n in value && n !in f.columns then Err(KeyError(FirstMissing(value, f.columns)))
    else match ColumnIndex(f.columns, key)
      case None => Err(KeyError(key))
      case Some(j) => if AnyString(f.rows, j) then Err(TypeError) else DropColumns(f, value)
  }

  /** The repair of every group, in dictionary order. */
  function RepairGroups(f: Frame, groups: Dict<seq<string>>): (r: Result<Frame>)
    requires Rect(f)
    ensures r.Ok? ==> Rect(r.value) && r.value.labels == f.labels
    decreases |groups|
  {
    if groups == [] then Ok(f)
    else match RepairGroup(f, groups[0].0, groups[0].1)
      case Err(e) => Err(e)
      case Ok(g) => RepairGroups(g, groups[1..])
  }

  /** A successful repair leaves exactly the columns in no group. */
  lemma {:induction false} RepairGroupsColumns(f: Frame, groups: Dict<seq<string>>, n: string)
    requires Rect(f) && RepairGroups(f, groups).Ok?
    ensures n in RepairGroups(f, groups).value.columns <==> n in f.columns && !InGroups(groups, n)
    decreases |groups|
  {
    if groups != [] {
      var g := RepairGroup(f, groups[0].0, groups[0].1).value;
      RepairGroupsColumns(g, groups[1..], n);
      if InGroups(groups[1..], n) {
        var i :| 0 <= i < |groups[1..]| && n in groups[1..][i].1;
        assert n in groups[i + 1].1;
      }
      if InGroups(groups, n) && n !in groups[0].1 {
        var i :| 0 <= i < |groups| && n in groups[i].1;
        assert n in groups[1..][i - 1].1;
      }
    }
  }

  /** The first name of value missing from columns, found by position. */
  lemma {:induction false} FirstMissingAt(value: seq<string>, columns: seq<string>, i: nat)
    requires i < |value| && value[i] !in columns
    requires forall k :: 0 <= k < i ==> value[k] in columns
    ensures FirstMissing(value, columns) == value[i]
  {
    if i > 0 {
      FirstMissingAt(value[1..], columns, i - 1);
    }
  }

  /** One group of the repair, in place. */
  method RepairGroupInPlace(df: DataFrame, key: string, value: seq<string>) returns (err: Option<Error>)
    requires Rect(df.Value())
    modifies df
    ensures RepairGroup(old(df.Value()), key, value).Ok? ==> err.None? && df.Value() == RepairGroup(old(df.Value()), key, value).value
    ensures RepairGroup(old(df.Value()), key, value).Err? ==> err == Some(RepairGroup(old(df.Value()), key, value).error)
  {
    var f := df.Value();
    // df[column].isna().all() for every duplicate
    var i := 0;
    while i < |value|
      invariant i <= |value| && forall k :: 0 <= k < i ==> value[k] in f.columns
    {
      if value[i] !in f.columns {
        FirstMissingAt(value, f.columns, i);
        return Some(KeyError(value[i]));
      }
      i := i + 1;
    }
    var column := ColumnIndex(f.columns, key);
    if column.None? {
      return Some(KeyError(key));
    }
    var j := column.value;
    // the base column, row by row
    var item := 0;
    while item < |f.rows|
      invariant item <= |f.rows| && forall k :: 0 <= k < item ==> f.rows[k][j].None?
    {
      if f.rows[item][j].Some? {
        return Some(TypeError);
      }
      item := item + 1;
    }
    err := df.Drop(value);
  }

  /** The repair of every group, in place. */
  method RepairDuplicates(df: DataFrame, groups: Dict<seq<string>>) returns (err: Option<Error>)
    requires Rect(df.Value())
    modifies df
    ensures RepairGroups(old(df.Value()), groups).Ok? ==> err.None? && df.Value() == RepairGroups(old(df.Value()), groups).value
    ensures RepairGroups(old(df.Value()), groups).Err? ==> err == Some(RepairGroups(old(df.Value()), groups).error)
  {
    var n := 0;
    while n < |groups|
      invariant n <= |groups| && Rect(df.Value())
      invariant RepairGroups(old(df.Value()), groups) == RepairGroups(df.Value(), groups[n..])
    {
      assert groups[n..][1..] == groups[n + 1..];
      err := RepairGroupInPlace(df, groups[n].0, groups[n].1);
      if err.Some? {
        return;
      }
      n := n + 1;
    }
    err := None;
  }

  // ---------------------------------------------------------------------
  // the merged-column repair (lines 242-253)

  const MergedName: string := "Descrição Participante"

  /** A merged "Descrição Participante" column (compared after stripping)
      is renamed "Descrição" and an empty "Participante" column is inserted
      at position 2. */
  function RepairMerged(f: Frame): (r: Result<Frame>)
    requires Rect(f)
    ensures r.Ok? ==> Rect(r.value) && r.value.labels == f.labels
  {
    if MergedName in StripNames(f.columns) then InsertColumn(RenameColumn(f, MergedName, "Descrição"), 2, "Participante", "")
    else Ok(f)
  }

  /** With the merged column second and no "Participante" column, the
      repair is the insertion after the rename. */
  lemma RepairMergedInserts(f: Frame)
    requires Rect(f) && |f.columns| >= 2 && f.columns[1] == MergedName && "Participante" !in f.columns
    ensures RepairMerged(f) == InsertColumn(RenameColumn(f, MergedName, "Descrição"), 2, "Participante", "")
    ensures RepairMerged(f).Ok?
  {
    MergedInStripped(f.columns);
    var h := RenameColumn(f, MergedName, "Descrição");
    RenamedLacksParticipante(f);
    InsertedParticipante(h);
  }

  lemma MergedInStripped(cs: seq<string>)
    requires |cs| >= 2 && cs[1] == MergedName
    ensures MergedName in StripNames(cs)
  {
    MergedNameStripped();
    assert StripNames(cs)[1] == MergedName;
  }

  lemma RenamedLacksParticipante(f: Frame)
    requires "Participante" !in f.columns
    ensures "Participante" !in RenameColumn(f, MergedName, "Descrição").columns
  {
    var h := RenameColumn(f, MergedName, "Descrição");
    forall j | 0 <= j < |h.columns|
      ensures h.columns[j] != "Participante"
    {
      assert f.columns[j] in f.columns;
    }
  }

  lemma MergedNameStripped()
    ensures Strip(MergedName) == MergedName
  {
    StripOfStripped(MergedName);
  }

  /** Inserting "Participante" at 2 succeeds when the name is new. */
  lemma InsertedParticipante(h: Frame)
    requires Rect(h) && |h.columns| >= 2 && "Participante" !in h.columns
    ensures InsertColumn(h, 2, "Participante", "").Ok?
  {
  }

  /** ... so the merged column becomes "Descrição" and an empty
      "Participante" comes third ... */
  lemma RepairMergedSpec(f: Frame)
    requires Rect(f) && |f.columns| >= 2 && f.columns[1] == MergedName && "Participante" !in f.columns
    ensures RepairMerged(f).Ok?
    ensures var g := RepairMerged(f).value;
      |g.columns| == |f.columns| + 1 && g.columns[1] == "Descrição" && g.columns[2] == "Participante"
  {
    RepairMergedInserts(f);
    var h := RenameColumn(f, MergedName, "Descrição");
    RenamedLacksParticipante(f);
    InsertedShape(h);
  }

  /** ... and every row gets an empty Participante third, its first two
      cells unchanged. */
  lemma RepairMergedRows(f: Frame)
    requires Rect(f) && |f.columns| >= 2 && f.columns[1] == MergedName && "Participante" !in f.columns
    ensures RepairMerged(f).Ok?
    ensures var g := RepairMerged(f).value;
      |g.rows| == |f.rows| && forall i :: 0 <= i < |g.rows| ==> |g.rows[i]| > 2 && g.rows[i][2] == Some("") && g.rows[i][..2] == f.rows[i][..2]
  {
    RepairMergedInserts(f);
    var h := RenameColumn(f, MergedName, "Descrição");
    RenamedLacksParticipante(f);
    InsertedShape(h);
    var g := InsertColumn(h, 2, "Participante", "").value;
    assert RepairMerged(f).value == g;
    forall i | 0 <= i < |g.rows|
      ensures |g.rows[i]| > 2 && g.rows[i][2] == Some("") && g.rows[i][..2] == f.rows[i][..2]
    {
      assert h.rows[i] == f.rows[i];
    }
  }

  /** The inserted column is third and empty; the first two stay. */
  lemma InsertedShape(h: Frame)
    requires Rect(h) && |h.columns| >= 2 && "Participante" !in h.columns
    ensures InsertColumn(h, 2, "Participante", "").Ok?
    ensures var g := InsertColumn(h, 2, "Participante", "").value;
      |g.columns| == |h.columns| + 1 && g.columns[1] == h.columns[1] && g.columns[2] == "Participante" &&
      |g.rows| == |h.rows| &&
      forall i :: 0 <= i < |g.rows| ==> g.rows[i][2] == Some("") && g.rows[i][..2] == h.rows[i][..2]
  {
    var g := InsertColumn(h, 2, "Participante", "").value;
    assert g.columns == h.columns[..2] + ["Participante"] + h.columns[2..];
    forall i | 0 <= i < |g.rows|
      ensures g.rows[i][2] == Some("") && g.rows[i][..2] == h.rows[i][..2]
    {
      assert g.rows[i] == h.rows[i][..2] + [Some("")] + h.rows[i][2..];
    }
  }

  // ---------------------------------------------------------------------
  // the Unnamed-column repair (lines 259-293)

  /** columns_from_txt: the stripped names without the last one. */
  function Cft(columns: seq<string>): (r: seq<string>)
    ensures |r| == if columns == [] then 0 else |columns| - 1
  {
    if columns == [] then [] else StripNames(columns)[..|columns| - 1]
  }

  /** Some name before index is an "Unnamed" one. */
  predicate HasUnnamed(cft: seq<string>, index: nat)
    requires index <= |cft|
  {
    exists k :: 0 <= k < index && Unnamed(cft[k])
  }

  /** The renames of the reversed enumerate loop, from index - 1 down to
      the last "Unnamed" name: each step renames the name at index - 2 to
      the name at index - 1. */
  function ShiftFrom(f: Frame, cft: seq<string>, index: nat): (g: Frame)
    requires index <= |cft| && HasUnnamed(cft, index)
    ensures g.labels == f.labels && g.rows == f.rows && |g.columns| == |f.columns|
    ensures Rect(f) ==> Rect(g)
    decreases index
  {
    if Unnamed(cft[index - 1]) then f
    else ShiftFrom(RenameColumn(f, cft[index - 2], cft[index - 1]), cft, index - 1)
  }

  /** With distinct names, the loop moves every name from the last
      "Unnamed" one (at u) up to the one before index - 1 to its right
      neighbour's name, and leaves every other column name alone. */
  lemma ShiftSpec(f: Frame, cft: seq<string>, index: nat, u: nat)
    requires u < index <= |cft| && Distinct(cft) && Unnamed(cft[u])
    requires forall k :: u < k < index ==> !Unnamed(cft[k])
    ensures var g := ShiftFrom(f, cft, index);
      forall j, m :: 0 <= j < |f.columns| && u <= m < index - 1 && f.columns[j] == cft[m] ==> g.columns[j] == cft[m + 1]
    ensures var g := ShiftFrom(f, cft, index);
      forall j :: 0 <= j < |f.columns| && (forall m :: u <= m < index - 1 ==> f.columns[j] != cft[m]) ==> g.columns[j] == f.columns[j]
  {
    var g := ShiftFrom(f, cft, index);
    forall j, m | 0 <= j < |f.columns| && u <= m < index - 1 && f.columns[j] == cft[m]
      ensures g.columns[j] == cft[m + 1]
    {
      ShiftMoves(f, cft, index, u, j, m);
    }
    forall j | 0 <= j < |f.columns| && (forall m :: u <= m < index - 1 ==> f.columns[j] != cft[m])
      ensures g.columns[j] == f.columns[j]
    {
      ShiftKeeps(f, cft, index, u, j);
    }
  }

  /** A name from u up to the one before index - 1 takes its right
      neighbour's name. */
  lemma {:induction false} ShiftMoves(f: Frame, cft: seq<string>, index: nat, u: nat, j: nat, m: nat)
    requires u < index <= |cft| && Distinct(cft) && Unnamed(cft[u])
    requires forall k :: u < k < index ==> !Unnamed(cft[k])
    requires j < |f.columns| && u <= m < index - 1 && f.columns[j] == cft[m]
    ensures ShiftFrom(f, cft, index).columns[j] == cft[m + 1]
    decreases index
  {
    assert !Unnamed(cft[index - 1]);
    var h := RenameColumn(f, cft[index - 2], cft[index - 1]);
    assert ShiftFrom(f, cft, index) == ShiftFrom(h, cft, index - 1);
    if m < index - 2 {
      assert cft[m] != cft[index - 2];
      assert h.columns[j] == cft[m];
      ShiftMoves(h, cft, index - 1, u, j, m);
    } else {
      assert h.columns[j] == cft[index - 1];
      forall k | u <= k < index - 2
        ensures h.columns[j] != cft[k]
      {
        assert cft[k] != cft[index - 1];
      }
      ShiftKeeps(h, cft, index - 1, u, j);
    }
  }

  /** A name outside that range stays. */
  lemma {:induction false} ShiftKeeps(f: Frame, cft: seq<string>, index: nat, u: nat, j: nat)
    requires u < index <= |cft| && Distinct(cft) && Unnamed(cft[u])
    requires forall k :: u < k < index ==> !Unnamed(cft[k])
    requires j < |f.columns| && forall m :: u <= m < index - 1 ==> f.columns[j] != cft[m]
    ensures ShiftFrom(f, cft, index).columns[j] == f.columns[j]
    decreases index
  {
    if !Unnamed(cft[index - 1]) {
      var h := RenameColumn(f, cft[index - 2], cft[index - 1]);
      assert ShiftFrom(f, cft, index) == ShiftFrom(h, cft, index - 1);
      assert f.columns[j] != cft[index - 2];
      assert h.columns[j] == f.columns[j];
      ShiftKeeps(h, cft, index - 1, u, j);
    }
  }

  /** The Unnamed repair: when some name before the last is "Unnamed" and
      Valor is entirely missing, Valor is dropped and the names are moved
      one place; with Valor holding something nothing changes; a KeyError
      when there is no Valor column. */
  function RepairUnnamed(f: Frame): (r: Result<Frame>)
    requires Rect(f)
    ensures r.Ok? ==> Rect(r.value) && r.value.labels == f.labels
  {
    UnnamedRepair(f, Cft(f.columns))
  }

  /** The Unnamed repair over the names cft the loop walks. */
  function UnnamedRepair(f: Frame, cft: seq<string>): (r: Result<Frame>)
    requires Rect(f)
    ensures r.Ok? ==> Rect(r.value) && r.value.labels == f.labels
  {
    if !HasUnnamed(cft, |cft|) then Ok(f)
    else match AllMissing(f, "Valor")
      case Err(e) => Err(e)
      case Ok(missing) =>
        if missing then Ok(ShiftFrom(DropColumns(f, ["Valor"]).value, cft, |cft|)) else Ok(f)
  }

  /** The renaming loop of the Unnamed repair, in place; the loop breaks at
      the last "Unnamed" name, so index - 1 never wraps around to the last
      name. */
  method ShiftNames(df: DataFrame, cft: seq<string>)
    requires HasUnnamed(cft, |cft|)
    modifies df
    ensures df.Value() == ShiftFrom(old(df.Value()), cft, |cft|)
  {
    var index: nat := |cft|;
    while index > 0
      invariant index <= |cft| && HasUnnamed(cft, index)
      invariant ShiftFrom(old(df.Value()), cft, |cft|) == ShiftFrom(df.Value(), cft, index)
    {
      if Unnamed(cft[index - 1]) {
        break;
      }
      df.Rename(cft[index - 2], cft[index - 1]);
      index := index - 1;
    }
  }

  /** The Unnamed repair (RepairUnnamed(f) is UnnamedRepair(f, Cft(f.columns)))
      renames exactly as ShiftSpec says: with distinct names, Valor entirely
      missing and u the last "Unnamed" position, the name at each position m
      from u to the one before last takes the name at m + 1, and the other
      names stay. */
  lemma RepairUnnamedSpec(f: Frame, cft: seq<string>, u: nat)
    requires Rect(f) && "Valor" in f.columns
    requires Distinct(cft) && u < |cft| && Unnamed(cft[u])
    requires forall k :: u < k < |cft| ==> !Unnamed(cft[k])
    requires AllMissing(f, "Valor") == Ok(true)
    ensures UnnamedRepair(f, cft).Ok?
    ensures var d := DropColumns(f, ["Valor"]).value; var g := UnnamedRepair(f, cft).value;
      g.columns == ShiftFrom(d, cft, |cft|).columns &&
      (forall j, m :: 0 <= j < |d.columns| && u <= m < |cft| - 1 && d.columns[j] == cft[m] ==> g.columns[j] == cft[m + 1]) &&
      (forall j :: 0 <= j < |d.columns| && (forall m :: u <= m < |cft| - 1 ==> d.columns[j] != cft[m]) ==> g.columns[j] == d.columns[j])
  {
    RepairUnnamedShifts(f, cft, u);
    ShiftSpec(DropColumns(f, ["Valor"]).value, cft, |cft|, u);
  }

  /** With an "Unnamed" name and Valor entirely missing, the repair is the
      renaming loop after the drop of Valor. */
  lemma RepairUnnamedShifts(f: Frame, cft: seq<string>, u: nat)
    requires Rect(f) && "Valor" in f.columns
    requires u < |cft| && Unnamed(cft[u])
    requires AllMissing(f, "Valor") == Ok(true)
    ensures HasUnnamed(cft, |cft|) && DropColumns(f, ["Valor"]).Ok?
    ensures UnnamedRepair(f, cft) == Ok(ShiftFrom(DropColumns(f, ["Valor"]).value, cft, |cft|))
  {
    assert HasUnnamed(cft, |cft|) by {
      assert 0 <= u < |cft| && Unnamed(cft[u]);
    }
    var d := DropColumns(f, ["Valor"]);
    assert d.Ok? by {
      assert !(exists n :: n in ["Valor"] && n !in f.columns);
    }
  }

  // ---------------------------------------------------------------------
  // from_ascii_table_to_dataframe

  /** The repairs of lines 207-293, in order. */
  function Repair(f: Frame): (r: Result<Frame>)
    requires Rect(f)
    ensures r.Ok? ==> Rect(r.value) && r.value.labels == f.labels
  {
    match RepairDuplicated(f)
    case Err(e) => Err(e)
    case Ok(g) =>
      match RepairMerged(g)
      case Err(e) => Err(e)
      case Ok(h) => RepairUnnamed(h)
  }

  /** The duplicate-column repair, run only when some name (all but the
      last) ends in a " .N" suffix. */
  function RepairDuplicated(f: Frame): (r: Result<Frame>)
    requires Rect(f)
    ensures r.Ok? ==> Rect(r.value) && r.value.labels == f.labels
  {
    var cft := Cft(f.columns);
    if exists n :: n in cft && PrefixOf(n).Some? then RepairGroups(f, Grouped(cft)) else Ok(f)
  }

  /** The last steps: "Unnamed" columns dropped, the canonical names
      assigned, concat_dataframe_cells and strip_string_cells. */
  function Finish(h: Frame): (r: Result<Frame>)
    requires Rect(h)
    ensures r.Ok? ==> Rect(r.value) && r.value.columns == Columns
  {
    match SetColumns(DropUnnamed(h), Columns)
    case Err(e) => Err(e)
    case Ok(k) =>
      match ConcatCells(Current, k)
      case Err(e) => Err(e)
      case Ok(m) => Ok(StripCells(m))
  }

  /** from_ascii_table_to_dataframe after read_csv: names stripped,
      invalid rows dropped, the repairs when the names (all but the last)
      are not the canonical six, then the last steps. */
  function FromAscii(columns: seq<string>, rows: seq<seq<Cell>>): (r: Result<Frame>)
    requires forall i :: 0 <= i < |rows| ==> |rows[i]| == |columns|
  {
    var f := FromRows(StripNames(columns), rows);
    match DropInvalidRows(f)
    case Err(e) => Err(e)
    case Ok(g) =>
      match (if Cft(g.columns) != Columns then Repair(g) else Ok(g))
      case Err(e) => Err(e)
      case Ok(h) => Finish(h)
  }

  /** The repairs, in place. */
  method RepairInPlace(df: DataFrame) returns (err: Option<Error>)
    requires Rect(df.Value())
    modifies df
    ensures Repair(old(df.Value())).Ok? ==> err.None? && df.Value() == Repair(old(df.Value())).value
    ensures Repair(old(df.Value())).Err? ==> err == Some(Repair(old(df.Value())).error)
  {
    err := RepairDuplicatedInPlace(df);
    if err.Some? {
      return;
    }
    ghost var g := df.Value();
    err := RepairMergedInPlace(df);
    if err.Some? {
      return;
    }
    ghost var h := df.Value();
    assert RepairMerged(g) == Ok(h);
    err := RepairUnnamedInPlace(df);
  }

  method RepairDuplicatedInPlace(df: DataFrame) returns (err: Option<Error>)
    requires Rect(df.Value())
    modifies df
    ensures RepairDuplicated(old(df.Value())).Ok? ==> err.None? && df.Value() == RepairDuplicated(old(df.Value())).value
    ensures RepairDuplicated(old(df.Value())).Err? ==> err == Some(RepairDuplicated(old(df.Value())).error)
  {
    err := None;
    ghost var f := df.Value();
    var cft := Cft(df.columns);
    assert cft == Cft(f.columns);
    if exists n :: n in cft && PrefixOf(n).Some? {
      var groups := FindSimilarColumns(cft);
      assert RepairDuplicated(f) == RepairGroups(f, groups);
      err := RepairDuplicates(df, groups);
    } else {
      assert RepairDuplicated(f) == Ok(f);
    }
  }

  method RepairMergedInPlace(df: DataFrame) returns (err: Option<Error>)
    requires Rect(df.Value())
    modifies df
    ensures RepairMerged(old(df.Value())).Ok? ==> err.None? && df.Value() == RepairMerged(old(df.Value())).value
    ensures RepairMerged(old(df.Value())).Err? ==> err == Some(RepairMerged(old(df.Value())).error)
  {
    err := None;
    if MergedName in StripNames(df.columns) {
      df.Rename(MergedName, "Descrição");
      err := df.Insert(2, "Participante", "");
    }
  }

  method RepairUnnamedInPlace(df: DataFrame) returns (err: Option<Error>)
    requires Rect(df.Value())
    modifies df
    ensures RepairUnnamed(old(df.Value())).Ok? ==> err.None? && df.Value() == RepairUnnamed(old(df.Value())).value
    ensures RepairUnnamed(old(df.Value())).Err? ==> err == Some(RepairUnnamed(old(df.Value())).error)
  {
    err := None;
    var cft := Cft(df.columns);
    if HasUnnamed(cft, |cft|) {
      var missing := AllMissing(df.Value(), "Valor");
      if missing.Err? {
        return Some(missing.error);
      }
      if missing.value {
        var _ := df.Drop(["Valor"]);
        ShiftNames(df, cft);
      }
    }
  }

  /** The last steps, on a new DataFrame. */
  method FinishTable(h: Frame) returns (r: Result<Frame>)
    requires Rect(h)
    ensures r == Finish(h)
  {
    var renamed := SetColumns(DropUnnamed(h), Columns);
    if renamed.Err? {
      return Err(renamed.error);
    }
    var df := new DataFrame(renamed.value);
    var err := df.ConcatDataframeCells(Current);
    if err.Some? {
      return Err(err.value);
    }
    df.StripStringCells();
    return Ok(df.Value());
  }

  /** from_ascii_table_to_dataframe, on a DataFrame updated in place. */
  method FromAsciiTable(columns: seq<string>, rows: seq<seq<Cell>>) returns (r: Result<Frame>)
    requires forall i :: 0 <= i < |rows| ==> |rows[i]| == |columns|
    ensures r == FromAscii(columns, rows)
  {
    var read := new DataFrame(FromRows(StripNames(columns), rows));
    var dropped := DropInvalidRows(read.Value());
    if dropped.Err? {
      return Err(dropped.error);
    }
    var df := new DataFrame(dropped.value);
    if Cft(df.columns) != Columns {
      var err := RepairInPlace(df);
      if err.Some? {
        return Err(err.value);
      }
    }
    r := FinishTable(df.Value());
  }

  /** Without a "Data" header the decoder raises KeyError("Data") (in
      drop_invalid_rows). */
  lemma FromAsciiNoData(columns: seq<string>, rows: seq<seq<Cell>>)
    requires forall i :: 0 <= i < |rows| ==> |rows[i]| == |columns|
    requires "Data" !in StripNames(columns)
    ensures FromAscii(columns, rows) == Err(KeyError("Data"))
  {
  }

  /** A decoded table has the canonical names, and every text cell is
      stripped. */
  lemma FromAsciiShape(columns: seq<string>, rows: seq<seq<Cell>>)
    requires forall i :: 0 <= i < |rows| ==> |rows[i]| == |columns|
    requires FromAscii(columns, rows).Ok?
    ensures var t := FromAscii(columns, rows).value;
      t.columns == Columns && Rect(t) && StripCells(t) == t
  {
    var f := FromRows(StripNames(columns), rows);
    var g := DropInvalidRows(f).value;
    var h := (if Cft(g.columns) != Columns then Repair(g) else Ok(g)).value;
    var k := SetColumns(DropUnnamed(h), Columns).value;
    var m := ConcatCells(Current, k).value;
    assert FromAscii(columns, rows) == Ok(StripCells(m));
    StripCellsIdempotent(m);
  }

  /** Every row of a decoded table is an input row, under its position as
      label, whose Data cell (under the stripped header "Data") is a valid
      date. */
  lemma FromAsciiRows(columns: seq<string>, rows: seq<seq<Cell>>, l: int)
    requires forall i :: 0 <= i < |rows| ==> |rows[i]| == |columns|
    requires FromAscii(columns, rows).Ok? && l in FromAscii(columns, rows).value.labels
    ensures "Data" in StripNames(columns)
    ensures 0 <= l < |rows| && ValidDate(rows[l][ColumnIndex(StripNames(columns), "Data").value])
  {
    DecodedLabelsKept(columns, rows, l);
    KeptRowsAreValid(columns, rows, l);
  }

  /** A label of a decoded table is one drop_invalid_rows kept. */
  lemma DecodedLabelsKept(columns: seq<string>, rows: seq<seq<Cell>>, l: int)
    requires forall i :: 0 <= i < |rows| ==> |rows[i]| == |columns|
    requires FromAscii(columns, rows).Ok? && l in FromAscii(columns, rows).value.labels
    ensures "Data" in StripNames(columns)
    ensures l in DropInvalidRows(FromRows(StripNames(columns), rows)).value.labels
  {
    var f := FromRows(StripNames(columns), rows);
    var g := DropInvalidRows(f).value;
    var h := (if Cft(g.columns) != Columns then Repair(g) else Ok(g)).value;
    assert FromAscii(columns, rows) == Finish(h);
    FinishKeepsLabels(h, l);
  }

  /** The last steps only drop rows. */
  lemma FinishKeepsLabels(h: Frame, l: int)
    requires Rect(h) && Finish(h).Ok? && l in Finish(h).value.labels
    ensures l in h.labels
  {
    var k := SetColumns(DropUnnamed(h), Columns).value;
    var ls := if |k.labels| <= 2 then [] else k.labels[2..];
    ConcatKeepsRows(Current, k, ls, l);
  }

  /** A row drop_invalid_rows keeps on a freshly read table is the input
      row at its label, with a valid date. */
  lemma KeptRowsAreValid(columns: seq<string>, rows: seq<seq<Cell>>, l: int)
    requires forall i :: 0 <= i < |rows| ==> |rows[i]| == |columns|
    requires "Data" in StripNames(columns)
    requires l in DropInvalidRows(FromRows(StripNames(columns), rows)).value.labels
    ensures 0 <= l < |rows| && ValidDate(rows[l][ColumnIndex(StripNames(columns), "Data").value])
  {
    KeptRowsOf(StripNames(columns), rows, l);
  }

  lemma KeptRowsOf(cs: seq<string>, rows: seq<seq<Cell>>, l: int)
    requires forall i :: 0 <= i < |rows| ==> |rows[i]| == |cs|
    requires "Data" in cs
    requires l in DropInvalidRows(FromRows(cs, rows)).value.labels
    ensures 0 <= l < |rows| && ValidDate(rows[l][ColumnIndex(cs, "Data").value])
  {
    var f := FromRows(cs, rows);
    var g := DropInvalidRows(f).value;
    var i :| 0 <= i < |g.labels| && g.labels[i] == l;
    var row := g.rows[i];
    var d := ColumnIndex(cs, "Data").value;
    DropInvalidRowsSpec(f, l, row);
    var j :| 0 <= j < |f.rows| && f.labels[j] == l && f.rows[j] == row && ValidDate(row[d]);
    assert j == l && rows[l] == row;
  }

  /** Dropping a last "Unnamed" column, when no other name is one, keeps
      the other columns in order. */
  lemma DropUnnamedLast(h: Frame, cs: seq<string>, u: string)
    requires Rect(h) && h.columns == cs + [u] && Unnamed(u)
    requires forall j :: 0 <= j < |cs| ==> !Unnamed(cs[j])
    ensures DropUnnamed(h).columns == cs && DropUnnamed(h).labels == h.labels
    ensures forall i :: 0 <= i < |h.rows| ==> DropUnnamed(h).rows[i] == h.rows[i][..|cs|]
  {
    var n := |cs|;
    var keep := seq(|h.columns|, j requires 0 <= j < |h.columns| => !Unnamed(h.columns[j]));
    assert DropUnnamed(h) == KeepColumns(h, keep);
    assert forall j :: 0 <= j < n ==> keep[..n][j];
    SelectAll(h.columns[..n], keep[..n]);
    assert h.columns[..n] == cs;
    forall i | 0 <= i < |h.rows|
      ensures Select(h.rows[i], keep) == h.rows[i][..n]
    {
      SelectAll(h.rows[i][..n], keep[..n]);
      assert h.rows[i][..|h.rows[i]| - 1] == h.rows[i][..n];
    }
  }

  /** No canonical name is an "Unnamed" one. */
  lemma CanonicalNotUnnamed()
    ensures forall j :: 0 <= j < |Columns| ==> !Unnamed(Columns[j])
  {
    forall j | 0 <= j < |Columns|
      ensures !Unnamed(Columns[j])
    {
      var c := Columns[j];
      assert c[0] != 'U';
      if |c| >= 7 {
        assert c[..7][0] != "Unnamed"[0];
      }
    }
  }

  /** On a table with the canonical header and a last empty one whose rows
      all have a valid date first, the last steps succeed and keep every
      row. */
  lemma FinishCanonical(g: Frame, u: string)
    requires Rect(g) && g.columns == Columns + [u] && Unnamed(u)
    requires forall i :: 0 <= i < |g.rows| ==> ValidDate(g.rows[i][0])
    ensures Finish(g).Ok? && Finish(g).value.labels == g.labels
  {
    CanonicalNotUnnamed();
    DropUnnamedLast(g, Columns, u);
    var d := DropUnnamed(g);
    var k := Frame(Columns, d.labels, d.rows);
    assert SetColumns(d, Columns) == Ok(k);
    assert ColumnIndex(k.columns, "Data") == Some(0);
    forall i | 0 <= i < |k.rows|
      ensures k.rows[i][0].Some?
    {
      assert k.rows[i][0] == g.rows[i][..6][0];
    }
    ConcatNoop(Current, k, if |k.labels| <= 2 then [] else k.labels[2..]);
    assert ConcatCells(Current, k) == Ok(k);
    assert Finish(g) == Ok(StripCells(k));
  }

  /** With the canonical header, the decoder runs no repair. */
  lemma FromAsciiCanonicalStages(columns: seq<string>, rows: seq<seq<Cell>>, u: string)
    requires forall i :: 0 <= i < |rows| ==> |rows[i]| == |columns|
    requires StripNames(columns) == Columns + [u] && rows != []
    ensures DropInvalidRows(FromRows(StripNames(columns), rows)).Ok?
    ensures FromAscii(columns, rows) == Finish(DropInvalidRows(FromRows(StripNames(columns), rows)).value)
  {
    var f := FromRows(StripNames(columns), rows);
    assert f.columns[0] == "Data";
    var g := DropInvalidRows(f).value;
    StripNamesIdempotent(columns);
    assert Cft(g.columns) == (Columns + [u])[..6] == Columns;
  }

  /** A table with the canonical header (and the empty last one read_csv
      names "Unnamed") and at least one row decodes without error to
      exactly the input rows with a valid date, under their positions as
      labels.  With no row at all it raises ValueError. */
  lemma FromAsciiCanonical(columns: seq<string>, rows: seq<seq<Cell>>, u: string, l: int)
    requires forall i :: 0 <= i < |rows| ==> |rows[i]| == |columns|
    requires StripNames(columns) == Columns + [u] && Unnamed(u)
    ensures FromAscii(columns, rows).Ok? <==> rows != []
    ensures rows != [] ==> (l in FromAscii(columns, rows).value.labels <==> 0 <= l < |rows| && ValidDate(rows[l][0]))
  {
    if rows == [] {
      FromAsciiHeaderOnly(columns);
    } else {
      FromAsciiCanonicalStages(columns, rows, u);
      CanonicalLabels(StripNames(columns), rows, u, l);
    }
  }

  /** A table with a "Data" header and no row raises ValueError: the row
      filter leaves no column, so the names read are empty, no repair
      applies, and the six canonical names cannot be assigned. */
  lemma FromAsciiHeaderOnly(columns: seq<string>)
    requires "Data" in StripNames(columns)
    ensures FromAscii(columns, []) == Err(ValueError)
  {
    var f := FromRows(StripNames(columns), []);
    var g := Frame([], [], []);
    assert DropInvalidRows(f) == Ok(g);
    NoColumnsFail(g);
  }

  /** The repairs and the last steps on a table without columns. */
  lemma NoColumnsFail(g: Frame)
    requires g == Frame([], [], [])
    ensures Cft(g.columns) != Columns
    ensures Repair(g) == Ok(g) && Finish(g) == Err(ValueError)
  {
    assert Cft(g.columns) == [];
    assert RepairDuplicated(g) == Ok(g);
    assert StripNames(g.columns) == [];
    assert RepairMerged(g) == Ok(g);
    assert RepairUnnamed(g) == Ok(g);
    assert DropUnnamed(g).columns == [];
  }

  /** The last steps after drop_invalid_rows on a table read with the
      canonical header keep exactly the rows with a valid date. */
  lemma CanonicalLabels(cs: seq<string>, rows: seq<seq<Cell>>, u: string, l: int)
    requires forall i :: 0 <= i < |rows| ==> |rows[i]| == |cs|
    requires cs == Columns + [u] && Unnamed(u) && rows != []
    ensures DropInvalidRows(FromRows(cs, rows)).Ok?
    ensures var g := DropInvalidRows(FromRows(cs, rows)).value;
      Finish(g).Ok? && (l in Finish(g).value.labels <==> 0 <= l < |rows| && ValidDate(rows[l][0]))
  {
    var f := FromRows(cs, rows);
    assert ColumnIndex(f.columns, "Data") == Some(0);
    var g := DropInvalidRows(f).value;
    DropInvalidRowsValid(f);
    FinishCanonical(g, u);
    if l in g.labels {
      KeptRowsOf(cs, rows, l);
    }
    if 0 <= l < |rows| && ValidDate(rows[l][0]) {
      DropInvalidRowsSpec(f, l, rows[l]);
      assert f.labels[l] == l && f.rows[l] == rows[l];
    }
  }
}
