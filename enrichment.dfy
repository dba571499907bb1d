/** The lookup enrichment of a generated ledger page
    (src/rp_transformers/analytical.py): participants renamed from a list of
    unit names, nine columns filled in from an account configuration, and
    the account code replaced by its normalised form.  The CSV files are not
    modelled: the page, the configuration and the Participante column of the
    rename list are given as values, and the page as read with fillna(""). */
module RpTransformers {
  import opened Wrappers
  import opened Text
  import opened Regexes
  import opened Frames
  import opened RuntimePatterns

  // ---------------------------------------------------------------------
  // participants

  /** extract_common_unit_information: the "<d>-QD<d>-LT<d>" part of a
      legacy "Un. <d>-QD<d>-LT<d>" name, any other name unchanged. */
  function ExtractCommonUnitInformation(participante: string): (r: string)
    ensures r == participante || UnitBody(r)
  {
    match UnitKey(participante)
    case Some(k) => k
    case None => participante
  }

  /** A legacy unit name gives its unit key. */
  lemma ExtractUnitKey(k: string)
    requires UnitBody(k)
    ensures ExtractCommonUnitInformation("Un. " + k) == k
  {
    var s := "Un. " + k;
    assert s[4..] == k;
    assert s[0] == 'U' && s[1] == 'n' && s[2] == '.' && s[3] == ' ';
    UnitBodyEnd(k);
    assert UnitKey(s) == Some(k);
  }

  /** A unit key ends in 'T' or a digit, never in a line break. */
  lemma UnitBodyEnd(k: string)
    requires UnitBody(k)
    ensures k != [] && k[|k| - 1] != '\n'
  {
    var a := RunEnd(k, 0, Digit);
    var b := RunEnd(k, a + 3, Digit);
    if |k| == b + 3 {
      assert k[|k| - 1] == k[b..b + 3][2] == 'T';
    } else {
      assert IsDigit(k[|k| - 1]);
    }
  }

  /** A name that does not start with "Un" is its own key. */
  lemma ExtractOther(participante: string)
    requires !StartsWith(participante, "Un")
    ensures ExtractCommonUnitInformation(participante) == participante
  {
  }

  /** An entry holding the key after a prefix without a line break holds
      it in its first line. */
  lemma KeyMatchAfter(prefix: string, key: string, rest: string)
    requires '\n' !in prefix
    ensures KeyMatch(prefix + key + rest, key)
  {
    var e := prefix + key + rest;
    assert e[..|prefix|] == prefix;
    assert e[|prefix|..][..|key|] == key;
  }

  /** The rename list's Participante column as read_csv gives it: every
      cell text (None for a missing cell). */
  predicate AllText(units: seq<Cell>) {
    forall j :: 0 <= j < |units| ==> units[j].Some?
  }

  /** The first index of c in s, or |s| when s has none. */
  function Find(s: string, c: char): (i: nat)
    ensures i <= |s| && c !in s[..i] && (i < |s| ==> s[i] == c)
  {
    if c in s then IndexOf(s, c) else assert s[..|s|] == s; |s|
  }

  /** s without one leading sign. */
  function Unsigned(s: string): (r: string)
    ensures r == s || (s != [] && (s[0] == '+' || s[0] == '-') && r == s[1..])
  {
    if s != [] && (s[0] == '+' || s[0] == '-') then s[1..] else s
  }

  /** Digits with at most one decimal point and at least one digit: "12",
      "1." and ".5". */
  predicate DecimalDigits(m: string) {
    var d := Find(m, '.');
    AllDigits(m[..d]) && (d < |m| ==> AllDigits(m[d + 1..])) && |m| > (if d < |m| then 1 else 0)
  }

  /** A text read_csv reads as a number: an optional sign, decimal digits
      and an optional exponent with its own sign, such as "-12", "3.5" or
      "1e6". */
  predicate NumberText(s: string) {
    UnsignedNumber(Unsigned(s))
  }

  /** Where the exponent of t begins: its first 'e' or 'E', or |t|. */
  function ExponentAt(t: string): (e: nat)
    ensures e <= |t| && (e < |t| ==> t[e] == 'e' || t[e] == 'E')
  {
    if Find(t, 'e') <= Find(t, 'E') then Find(t, 'e') else Find(t, 'E')
  }

  predicate UnsignedNumber(t: string) {
    var e := ExponentAt(t);
    DecimalDigits(t[..e]) && (e < |t| ==> Exponent(t[e + 1..]))
  }

  predicate Exponent(x: string) {
    Unsigned(x) != [] && AllDigits(Unsigned(x))
  }

  /** A rename list read_csv gives a numeric Participante column: every
      entry present is a number (an int column, or float when an entry is
      missing or has a point), so none is text. */
  predicate NumericColumn(units: seq<Cell>) {
    units != [] && forall j :: 0 <= j < |units| && units[j].Some? ==> NumberText(units[j].value)
  }

  /** A character a number may hold: a digit, a sign, the point or an
      exponent letter. */
  predicate NumberChar(c: char) {
    IsDigit(c) || c == '+' || c == '-' || c == '.' || c == 'e' || c == 'E'
  }

  /** Decimal digits hold only digits and the point. */
  lemma DecimalChars(m: string, i: nat)
    requires DecimalDigits(m) && i < |m|
    ensures IsDigit(m[i]) || m[i] == '.'
  {
    var d := Find(m, '.');
    if i < d {
      assert m[..d][i] == m[i];
    } else if i > d {
      assert m[d + 1..][i - d - 1] == m[i];
    }
  }

  /** An exponent holds only digits and its sign. */
  lemma ExponentChars(x: string, i: nat)
    requires AllDigits(Unsigned(x)) && i < |x|
    ensures IsDigit(x[i]) || x[i] == '+' || x[i] == '-'
  {
    var y := Unsigned(x);
    if i >= |x| - |y| {
      assert y[i - (|x| - |y|)] == x[i];
    }
  }

  /** A number holds only digits, signs, points and exponent letters. */
  lemma NumberChars(s: string, i: nat)
    requires NumberText(s) && i < |s|
    ensures NumberChar(s[i])
  {
    var t := Unsigned(s);
    assert UnsignedNumber(t);
    if t == s {
      UnsignedChars(t, i);
    } else if 0 < i {
      assert s[i] == t[i - 1];
      UnsignedChars(t, i - 1);
    }
  }

  lemma UnsignedChars(t: string, k: nat)
    requires UnsignedNumber(t) && k < |t|
    ensures NumberChar(t[k])
  {
    var e := ExponentAt(t);
    if k < e {
      assert t[..e][k] == t[k];
      DecimalChars(t[..e], k);
    } else if k > e {
      assert t[e + 1..][k - e - 1] == t[k];
      ExponentChars(t[e + 1..], k - e - 1);
    }
  }

  /** A list with an entry that holds some other character is not numeric. */
  lemma TextEntryNotNumeric(units: seq<Cell>, j: nat, i: nat)
    requires j < |units| && units[j].Some? && i < |units[j].value|
    requires !NumberChar(units[j].value[i])
    ensures !NumericColumn(units)
  {
    if NumberText(units[j].value) {
      NumberChars(units[j].value, i);
    }
  }

  function Texts(units: seq<Cell>): (r: seq<string>)
    requires AllText(units)
    ensures |r| == |units| && forall j :: 0 <= j < |units| ==> r[j] == units[j].value
  {
    seq(|units|, j requires 0 <= j < |units| => units[j].value)
  }

  /** The entries the pattern matches, in list order. */
  function Matching(ps: seq<Piece>, units: seq<string>): (r: seq<string>)
    ensures forall u :: u in r ==> u in units && ReMatch(ps, u)
    ensures forall u :: u in units && ReMatch(ps, u) ==> u in r
  {
    if units == [] then []
    else (if ReMatch(ps, units[0]) then [units[0]] else []) + Matching(ps, units[1..])
  }

  /** The first entry, in list order, that the pattern matches. */
  function FirstMatch(ps: seq<Piece>, units: seq<string>): (r: Option<nat>)
    ensures r.Some? ==> r.value < |units| && ReMatch(ps, units[r.value])
    ensures r.Some? ==> forall j :: 0 <= j < r.value ==> !ReMatch(ps, units[j])
    ensures r.None? ==> forall j :: 0 <= j < |units| ==> !ReMatch(ps, units[j])
  {
    if units == [] then None
    else if ReMatch(ps, units[0]) then Some(0)
    else
      match FirstMatch(ps, units[1..])
      case None => None
      case Some(i) =>
        assert units[1..][i] == units[i + 1];
        Some(i + 1)
  }

  /** The head of the matching entries is the first entry that matches. */
  lemma {:induction false} MatchingHead(ps: seq<Piece>, units: seq<string>)
    ensures Matching(ps, units) == [] <==> FirstMatch(ps, units).None?
    ensures Matching(ps, units) != [] ==> Matching(ps, units)[0] == units[FirstMatch(ps, units).value]
  {
    if units != [] {
      MatchingHead(ps, units[1..]);
    }
  }

  /** units_to_rename[units_to_rename["Participante"].str.match(".*" + key)]:
      the .str accessor refuses a column without any text (read_csv reads
      a column of numbers and missing cells as int or float), the pattern may not compile (re.error) or lie outside
      the modelled subset, and a missing cell puts NaN into the mask, which
      cannot select rows (ValueError); otherwise the entries the pattern
      matches, in list order. */
  function MatchedUnits(key: string, units: seq<Cell>): (r: Result<seq<string>>)
    ensures units != [] && (forall j :: 0 <= j < |units| ==> units[j].None?) ==> r == Err(AttributeError)
    ensures NumericColumn(units) ==> r == Err(AttributeError)
    ensures !NumericColumn(units) && Compile(key).Invalid? ==> r == Err(ReError)
    ensures r.Ok? <==> Compile(key).Pattern? && AllText(units) && !NumericColumn(units)
    ensures r.Ok? ==> r.value == Matching(Compile(key).pieces, Texts(units))
  {
    if NumericColumn(units) then
      Err(AttributeError)
    else
      match Compile(key)
      case Invalid => Err(ReError)
      case Outside => Err(Unsupported)
      case Pattern(ps) =>
        if AllText(units) then Ok(Matching(ps, Texts(units))) else Err(ValueError)
  }

  /** rename_unit: an empty participant stays empty, otherwise the first
      matched entry, and the participant itself when none matched. */
  function RenameUnit(participante: string, matched: seq<string>): (r: string)
    ensures r == participante || r in matched
  {
    if participante == "" then participante
    else if matched == [] then participante
    else matched[0]
  }

  /** The renamed participant of one row: the mask is computed for every
      row, also for an empty participant. */
  function Renamed(participante: string, units: seq<Cell>): Result<string> {
    match MatchedUnits(ExtractCommonUnitInformation(participante), units)
    case Err(e) => Err(e)
    case Ok(m) => Ok(RenameUnit(participante, m))
  }

  /** A row is renamed without error exactly when its key compiles within
      the subset and every entry of the list is text, not all of it
      numbers. */
  lemma RenamedOk(participante: string, units: seq<Cell>)
    ensures Renamed(participante, units).Ok? <==>
      Compile(ExtractCommonUnitInformation(participante)).Pattern? && AllText(units) && !NumericColumn(units)
  {
  }

  /** A list of numbers fails every row, an empty participant too, before
      the key is looked at: [101, 102] read from the CSV is an int column. */
  lemma NumericUnitsRaise(participante: string)
    ensures Renamed(participante, [Some("101"), Some("102")]) == Err(AttributeError)
    ensures Renamed(participante, [Some("-1.5e3"), None]) == Err(AttributeError)
  {
    DigitsNumber("101");
    DigitsNumber("102");
    NumericPair(Some("101"), Some("102"));
    FloatNumber();
    NumericPair(Some("-1.5e3"), None);
  }

  lemma NumericPair(a: Cell, b: Cell)
    requires a.Some? || b.Some?
    requires a.Some? ==> NumberText(a.value)
    requires b.Some? ==> NumberText(b.value)
    ensures NumericColumn([a, b])
  {
    var units := [a, b];
    forall j | 0 <= j < |units| && units[j].Some?
      ensures NumberText(units[j].value)
    {
      assert j == 0 || j == 1;
    }
  }

  /** A run of digits is a number. */
  lemma DigitsNumber(s: string)
    requires s != [] && AllDigits(s)
    ensures NumberText(s)
  {
    assert IsDigit(s[0]) && Unsigned(s) == s;
    assert 'e' !in s && 'E' !in s && '.' !in s;
    assert s[..|s|] == s;
  }

  /** "-1.5e3" is a number: sign, point and exponent. */
  lemma FloatNumber()
    ensures NumberText("-1.5e3")
  {
    var t := "1.5e3";
    assert Unsigned("-1.5e3") == t;
    assert Find(t, 'e') == 3 by {
      assert t[3] == 'e' && t[..3] == "1.5";
    }
    assert Find(t, 'E') == 5 by {
      assert t[..5] == t;
    }
    assert ExponentAt(t) == 3;
    FractionDigits("1", "5");
    assert t[..3] == "1" + "." + "5";
    DigitsNumber("3");
    assert t[4..] == "3";
  }

  /** Digits, a point and digits are decimal digits. */
  lemma FractionDigits(w: string, f: string)
    requires w != [] && AllDigits(w) && AllDigits(f)
    ensures DecimalDigits(w + "." + f)
  {
    var m := w + "." + f;
    assert m[|w|] == '.' && m[..|w|] == w && m[|w| + 1..] == f;
    assert '.' !in w;
  }

  /** For a key without regex syntax and a list of text entries, the row
      takes the first entry whose first line holds the key, keeps its name
      when there is none, and stays empty when it is empty. */
  lemma RenamePlainKey(participante: string, units: seq<Cell>)
    requires AllText(units) && Plain(ExtractCommonUnitInformation(participante))
    ensures NumericColumn(units) ==> Renamed(participante, units) == Err(AttributeError)
    ensures !NumericColumn(units) && participante == "" ==> Renamed(participante, units) == Ok("")
    ensures !NumericColumn(units) && participante != "" ==> (Renamed(participante, units) ==
      Ok(match FirstUnit(Texts(units), ExtractCommonUnitInformation(participante))
         case None => participante
         case Some(i) => units[i].value))
  {
    var key := ExtractCommonUnitInformation(participante);
    var ts := Texts(units);
    PlainCompiles(key);
    var ps := Compile(key).pieces;
    forall j | 0 <= j < |ts|
      ensures ReMatch(ps, ts[j]) <==> KeyMatch(ts[j], key)
    {
      PlainKeyMatch(ts[j], key);
    }
    MatchingHead(ps, ts);
    SameFirst(ps, ts, key);
  }

  /** FirstMatch and FirstUnit agree when the pattern matches exactly the
      entries holding the key. */
  lemma SameFirst(ps: seq<Piece>, units: seq<string>, key: string)
    requires forall j :: 0 <= j < |units| ==> (ReMatch(ps, units[j]) <==> KeyMatch(units[j], key))
    ensures FirstMatch(ps, units) == FirstUnit(units, key)
  {
    var f, g := FirstMatch(ps, units), FirstUnit(units, key);
    if f.Some? && g.Some? {
      assert !(f.value < g.value) && !(g.value < f.value);
    }
  }

  /** The first rename entry, in list order, whose first line holds the
      key. */
  function FirstUnit(units: seq<string>, key: string): (r: Option<nat>)
    ensures r.Some? ==> r.value < |units| && KeyMatch(units[r.value], key)
    ensures r.Some? ==> forall j :: 0 <= j < r.value ==> !KeyMatch(units[j], key)
    ensures r.None? ==> forall j :: 0 <= j < |units| ==> !KeyMatch(units[j], key)
  {
    if units == [] then None
    else if KeyMatch(units[0], key) then Some(0)
    else
      match FirstUnit(units[1..], key)
      case None => None
      case Some(i) =>
        assert units[1..][i] == units[i + 1];
        Some(i + 1)
  }

  /** The repository's own case: "Un. <k>" is renamed to the first entry
      that carries <k>, such as "Un. R22-<k>". */
  lemma RenameLegacyUnit(k: string, prefix: string, rest: seq<Cell>)
    requires UnitBody(k) && '\n' !in prefix && AllText(rest)
    ensures Renamed("Un. " + k, [Some(prefix + k)] + rest) == Ok(prefix + k)
  {
    var p := "Un. " + k;
    var units := [Some(prefix + k)] + rest;
    assert p[0] == 'U';
    ExtractUnitKey(k);
    UnitBodyPlain(k);
    KeyMatchAfter(prefix, k, "");
    assert prefix + k + "" == prefix + k;
    var ts := Texts(units);
    assert ts[0] == prefix + k && KeyMatch(ts[0], k);
    assert FirstUnit(ts, k) == Some(0);
    LegacyUnitNotNumeric(prefix, k, rest);
    RenamePlainKey(p, units);
  }

  /** A list headed by a unit name is not numeric: the name holds "Q". */
  lemma LegacyUnitNotNumeric(prefix: string, k: string, rest: seq<Cell>)
    requires UnitBody(k)
    ensures !NumericColumn([Some(prefix + k)] + rest)
  {
    var a := RunEnd(k, 0, Digit);
    assert k[a..a + 3] == "-QD";
    assert (prefix + k)[|prefix| + a + 1] == k[a + 1] == 'Q';
    TextEntryNotNumeric([Some(prefix + k)] + rest, 0, |prefix| + a + 1);
  }

  /** A unit key has no regex syntax: digits, "-QD" and "-LT". */
  lemma UnitBodyPlain(k: string)
    requires UnitBody(k)
    ensures Plain(k)
  {
    var a := RunEnd(k, 0, Digit);
    var b := RunEnd(k, a + 3, Digit);
    forall i | 0 <= i < |k|
      ensures k[i] !in "\\[{|^$().*+?"
    {
      if a <= i < a + 3 {
        assert k[i] == "-QD"[i - a];
      } else if b <= i < b + 3 {
        assert k[i] == "-LT"[i - b];
      } else {
        assert IsDigit(k[i]);
      }
    }
  }

  /** A participant whose key leaves a parenthesis open raises re.error,
      such as "LOJA (CENTRO", unless the list is numeric and the .str
      accessor has already raised. */
  lemma UnclosedGroupRaises(units: seq<Cell>)
    requires AllText(units) && units != []
    ensures Renamed("LOJA (CENTRO", units) == if NumericColumn(units) then Err(AttributeError) else Err(ReError)
  {
    var p := "LOJA (CENTRO";
    assert p[0] == 'L';
    ExtractOther(p);
    UnclosedGroupRejected();
  }

  /** A key with '+' matches entries that do not hold it as text: "A+B"
      takes "X AAB". */
  lemma PlusKeyRenames(rest: seq<Cell>)
    requires AllText(rest)
    ensures Renamed("A+B", [Some("X AAB")] + rest) == Ok("X AAB")
  {
    var p := "A+B";
    assert p[0] == 'A';
    ExtractOther(p);
    PlusRepeats();
    var units := [Some("X AAB")] + rest;
    assert units[0].value[0] == 'X';
    TextEntryNotNumeric(units, 0, 0);
    assert Texts(units)[0] == "X AAB";
    MatchingHead(Compile(p).pieces, Texts(units));
  }

  /** The new Participante cell of one row: re.match on a missing cell
      raises TypeError before any mask is built. */
  function ReviewCell(c: Cell, units: seq<Cell>): Result<Cell> {
    match c
    case None => Err(TypeError)
    case Some(p) =>
      match Renamed(p, units)
      case Err(e) => Err(e)
      case Ok(n) => Ok(Some(n))
  }

  /** The results of an apply, row by row: the first failing row raises. */
  function Collect(rs: seq<Result<Cell>>): (r: Result<seq<Cell>>)
    ensures r.Ok? ==> |r.value| == |rs| && forall i :: 0 <= i < |rs| ==> rs[i] == Ok(r.value[i])
    ensures r.Err? ==> exists i :: 0 <= i < |rs| && rs[i] == Err(r.error) && forall j :: 0 <= j < i ==> rs[j].Ok?
  {
    if rs == [] then Ok([])
    else
      var n := |rs| - 1;
      match Collect(rs[..n])
      case Err(e) => Err(e)
      case Ok(cs) =>
        match rs[n]
        case Err(e) => Err(e)
        case Ok(c) => Ok(cs + [c])
  }

  /** The apply over the first n rows, column p. */
  function ReviewCells(t: Frame, p: nat, units: seq<Cell>, n: nat): (r: Result<seq<Cell>>)
    requires Rect(t) && p < |t.columns| && n <= |t.rows|
    ensures r.Ok? ==> |r.value| == n && forall i :: 0 <= i < n ==> ReviewCell(t.rows[i][p], units) == Ok(r.value[i])
    ensures r.Err? ==> exists i :: 0 <= i < n && ReviewCell(t.rows[i][p], units).Err?
  {
    var rs := seq(n, i requires 0 <= i < n => ReviewCell(t.rows[i][p], units));
    Collect(rs)
  }

  /** A row of NaN, one cell per column. */
  function NaNRow(n: nat): (r: seq<Cell>)
    ensures |r| == n && forall j :: 0 <= j < n ==> r[j].None?
  {
    seq(n, j => None)
  }

  /** DataFrame.apply(f, axis=1) on a page without rows or without columns
      (DataFrame.empty) calls f once on a row of NaN and, when f raises
      there, returns a copy of the whole page; insert of that copy raises
      ValueError for a name already present or a copy of more than one
      column, IndexError for a copy without columns, and otherwise inserts
      the copy's only column.  These are the cells it inserts. */
  function CopiedColumn(t: Frame, name: string): (r: Result<seq<Cell>>)
    requires Rect(t)
    ensures r.Ok? <==> name !in t.columns && |t.columns| == 1
    ensures r.Err? ==> r.error == if name in t.columns || |t.columns| > 1 then ValueError else IndexError
    ensures r.Ok? ==> |r.value| == |t.rows| && forall i :: 0 <= i < |t.rows| ==> r.value[i] == t.rows[i][0]
  {
    if name in t.columns || |t.columns| > 1 then Err(ValueError)
    else if |t.columns| == 0 then Err(IndexError)
    else Ok(seq(|t.rows|, i requires 0 <= i < |t.rows| => t.rows[i][0]))
  }

  /** The apply of the rename lambda over the page: row by row, the first
      failing row raising (a missing Participante column raises KeyError on
      the first row); on an empty page the lambda always raises on the row
      of NaN (row["Participante"] is missing, or re.match gets NaN), so the
      page's copy is inserted. */
  function ReviewColumn(t: Frame, units: seq<Cell>): (r: Result<seq<Cell>>)
    requires Rect(t)
    ensures r.Ok? ==> |r.value| == |t.rows|
    ensures !Empty(t) && "Participante" !in t.columns ==> r == Err(KeyError("Participante"))
    ensures !Empty(t) && "Participante" in t.columns ==>
      r == ReviewCells(t, ColumnIndex(t.columns, "Participante").value, units, |t.rows|)
    ensures Empty(t) ==> r == CopiedColumn(t, "ParticipanteReview")
  {
    if Empty(t) then CopiedColumn(t, "ParticipanteReview")
    else
      match ColumnIndex(t.columns, "Participante")
      case None => Err(KeyError("Participante"))
      case Some(p) => ReviewCells(t, p, units, |t.rows|)
  }

  /** The rename step: ParticipanteReview inserted first, Participante
      dropped, ParticipanteReview renamed Participante. */
  function RenameUnits(t: Frame, units: seq<Cell>): (r: Result<Frame>)
    requires Rect(t)
    ensures r.Ok? ==> Rect(r.value) && r.value.labels == t.labels
  {
    match ReviewColumn(t, units)
    case Err(e) => Err(e)
    case Ok(cs) =>
      match InsertCells(t, 0, "ParticipanteReview", cs)
      case Err(e) => Err(e)
      case Ok(g) =>
        match DropColumns(g, ["Participante"])
        case Err(e) => Err(e)
        case Ok(h) => Ok(RenameColumn(h, "ParticipanteReview", "Participante"))
  }

  /** Replacing a column by new cells the way the rename step does it:
      the cells inserted first under a temporary name, the column dropped,
      and the temporary name renamed back.  The column comes first and holds
      the new cells. */
  lemma ReplaceFront(t: Frame, name: string, tmp: string, cs: seq<Cell>, i: nat)
    requires Rect(t) && |cs| == |t.rows| && name != tmp && name in t.columns && tmp !in t.columns && i < |t.rows|
    ensures InsertCells(t, 0, tmp, cs).Ok? && DropColumns(InsertCells(t, 0, tmp, cs).value, [name]).Ok?
    ensures var u := RenameColumn(DropColumns(InsertCells(t, 0, tmp, cs).value, [name]).value, tmp, name);
      ColumnIndex(u.columns, name) == Some(0) && u.rows[i][0] == cs[i]
  {
    var g := InsertCells(t, 0, tmp, cs).value;
    assert g.columns[0] == tmp && g.rows[i][0] == cs[i];
    assert name in g.columns;
    DropBehindFront(g, name, i);
  }

  /** Dropping a column other than the first keeps the first column and
      its cells. */
  lemma DropBehindFront(g: Frame, name: string, i: nat)
    requires Rect(g) && |g.columns| > 0 && name in g.columns && g.columns[0] != name && i < |g.rows|
    ensures DropColumns(g, [name]).Ok?
    ensures var h := DropColumns(g, [name]).value;
      |h.columns| > 0 && h.columns[0] == g.columns[0] && i < |h.rows| && |h.rows[i]| > 0 && h.rows[i][0] == g.rows[i][0]
  {
    DropKeepsPrefix(g, [name], 1);
    var h := DropColumns(g, [name]).value;
    assert h.columns[0] == g.columns[..1][0] && h.rows[i][0] == g.rows[i][..1][0];
  }

  /** The replacement keeps every other column with its cells. */
  lemma ReplaceKeeps(t: Frame, name: string, tmp: string, cs: seq<Cell>, i: nat)
    requires Rect(t) && |cs| == |t.rows| && name != tmp && name in t.columns && tmp !in t.columns && i < |t.rows|
    ensures InsertCells(t, 0, tmp, cs).Ok? && DropColumns(InsertCells(t, 0, tmp, cs).value, [name]).Ok?
    ensures var u := RenameColumn(DropColumns(InsertCells(t, 0, tmp, cs).value, [name]).value, tmp, name);
      forall n :: n in t.columns && n != name ==> n in u.columns
    ensures var u := RenameColumn(DropColumns(InsertCells(t, 0, tmp, cs).value, [name]).value, tmp, name);
      forall n :: n in t.columns && n != name ==> CellOf(u, i, n) == CellOf(t, i, n)
  {
    var g := InsertCells(t, 0, tmp, cs).value;
    assert name in g.columns;
    var h := DropColumns(g, [name]).value;
    var u := RenameColumn(h, tmp, name);
    forall n | n in t.columns && n != name
      ensures n in u.columns && CellOf(u, i, n) == CellOf(t, i, n)
    {
      ReplaceKeepsColumn(t, name, tmp, cs, i, n);
    }
  }

  /** One column the replacement keeps. */
  lemma ReplaceKeepsColumn(t: Frame, name: string, tmp: string, cs: seq<Cell>, i: nat, n: string)
    requires Rect(t) && |cs| == |t.rows| && name != tmp && name in t.columns && tmp !in t.columns && i < |t.rows|
    requires n in t.columns && n != name
    ensures InsertCells(t, 0, tmp, cs).Ok? && DropColumns(InsertCells(t, 0, tmp, cs).value, [name]).Ok?
    ensures var u := RenameColumn(DropColumns(InsertCells(t, 0, tmp, cs).value, [name]).value, tmp, name);
      n in u.columns && CellOf(u, i, n) == CellOf(t, i, n)
  {
    var g := InsertCells(t, 0, tmp, cs).value;
    assert name in g.columns;
    var h := DropColumns(g, [name]).value;
    InsertFrontKeeps(t, tmp, cs, n, i);
    DropKeeps(g, [name], n, i);
    RenameKeeps(h, tmp, name, n, i);
  }

  /** The replacement adds no column. */
  lemma ReplaceAddsNone(t: Frame, name: string, tmp: string, cs: seq<Cell>)
    requires Rect(t) && |cs| == |t.rows| && name != tmp && name in t.columns && tmp !in t.columns
    ensures InsertCells(t, 0, tmp, cs).Ok? && DropColumns(InsertCells(t, 0, tmp, cs).value, [name]).Ok?
    ensures var u := RenameColumn(DropColumns(InsertCells(t, 0, tmp, cs).value, [name]).value, tmp, name);
      forall n :: n in u.columns ==> n in t.columns
  {
    var g := InsertCells(t, 0, tmp, cs).value;
    assert name in g.columns;
    var h := DropColumns(g, [name]).value;
    var u := RenameColumn(h, tmp, name);
    forall n | n in u.columns
      ensures n in t.columns
    {
      var j :| 0 <= j < |u.columns| && u.columns[j] == n;
      if h.columns[j] != tmp {
        assert h.columns[j] in h.columns;
      }
    }
  }

  /** After the rename step Participante is the first column and holds each
      row's renamed participant; every other column keeps its cells, and
      no column is added. */
  lemma RenameUnitsSpec(t: Frame, units: seq<Cell>, i: nat)
    requires Rect(t) && RenameUnits(t, units).Ok? && i < |t.rows|
    ensures "Participante" in t.columns && CellOf(t, i, "Participante").Some?
    ensures Renamed(CellOf(t, i, "Participante").value, units).Ok?
    ensures var u := RenameUnits(t, units).value;
      ColumnIndex(u.columns, "Participante") == Some(0) &&
      u.rows[i][0] == Some(Renamed(CellOf(t, i, "Participante").value, units).value)
    ensures forall n :: n in t.columns && n != "Participante" ==> n in RenameUnits(t, units).value.columns
    ensures forall n :: n in t.columns && n != "Participante" ==>
      CellOf(RenameUnits(t, units).value, i, n) == CellOf(t, i, n)
    ensures forall n :: n in RenameUnits(t, units).value.columns ==> n in t.columns
  {
    var p := ColumnIndex(t.columns, "Participante").value;
    var cs := ReviewCells(t, p, units, |t.rows|).value;
    assert ReviewCell(t.rows[i][p], units) == Ok(cs[i]);
    ReplaceFront(t, "Participante", "ParticipanteReview", cs, i);
    ReplaceKeeps(t, "Participante", "ParticipanteReview", cs, i);
    ReplaceAddsNone(t, "Participante", "ParticipanteReview", cs);
  }

  // ---------------------------------------------------------------------
  // accounts

  const ContaContabil := "ContaContabil"
  const Normalizado := "ContaContabilNormalizado"
  const Periodo := "PeriodoPrestacaoContas"

  /** The nine columns the configuration fills in, in loop order. */
  const EnrichedNames: seq<string> := [Periodo, "ContaContabilGrupo", "ContaContabilGrupoDescritivo",
    "Natureza", "NaturezaDescritivo", "CompoeTaxa", "AcordadoAssembleia", "ContaContabilDescritivo", Normalizado]

  /** A configuration with both code columns. */
  predicate Configured(config: Frame) {
    Rect(config) && ContaContabil in config.columns && Normalizado in config.columns
  }

  /** A configuration row applies to a code when its ContaContabil or its
      ContaContabilNormalizado equals it; a missing code equals nothing. */
  predicate Applies(config: Frame, k: nat, code: Cell)
    requires Configured(config) && k < |config.rows|
  {
    code.Some? && (CellOf(config, k, ContaContabil) == code || CellOf(config, k, Normalizado) == code)
  }

  /** The first configuration row from k on that applies. */
  function FirstConfig(config: Frame, code: Cell, k: nat): (r: Option<nat>)
    requires Configured(config) && k <= |config.rows|
    ensures r.Some? ==> k <= r.value < |config.rows| && Applies(config, r.value, code)
    ensures r.Some? ==> forall j :: k <= j < r.value ==> !Applies(config, j, code)
    ensures r.None? ==> forall j :: k <= j < |config.rows| ==> !Applies(config, j, code)
    decreases |config.rows| - k
  {
    if k == |config.rows| then None
    else if Applies(config, k, code) then Some(k)
    else FirstConfig(config, code, k + 1)
  }

  /** add_configurated_column: the named cell of the first configuration
      row that applies, "" when none does, a KeyError when the named column
      is not in the configuration (only reached through a row that
      applies). */
  function AddConfiguratedColumn(column: string, config: Frame, code: Cell): (r: Result<Cell>)
    requires Configured(config)
  {
    match FirstConfig(config, code, 0)
    case None => Ok(Some(""))
    case Some(k) => if column in config.columns then Ok(CellOf(config, k, column)) else Err(KeyError(column))
  }

  /** The configured column takes the named cell of the first row that
      applies, "" when no row applies, and a KeyError only when a row
      applies and the column is missing. */
  lemma AddConfiguratedColumnSpec(column: string, config: Frame, code: Cell, k: nat)
    requires Configured(config)
    ensures (forall j :: 0 <= j < |config.rows| ==> !Applies(config, j, code)) ==>
      AddConfiguratedColumn(column, config, code) == Ok(Some(""))
    ensures k < |config.rows| && Applies(config, k, code) && (forall j :: 0 <= j < k ==> !Applies(config, j, code)) ==>
      AddConfiguratedColumn(column, config, code) ==
        if column in config.columns then Ok(CellOf(config, k, column)) else Err(KeyError(column))
  {
    if FirstConfig(config, code, 0).Some? {
      var f := FirstConfig(config, code, 0).value;
      assert Applies(config, f, code);
      if k < |config.rows| && Applies(config, k, code) && (forall j :: 0 <= j < k ==> !Applies(config, j, code)) {
        assert f == k;
      }
    }
  }

  /** A code no configuration row carries, or a missing code, leaves the
      configured column empty. */
  lemma UnknownCodeIsEmpty(column: string, config: Frame, code: Cell)
    requires Configured(config)
    requires code.None? || forall k :: 0 <= k < |config.rows| ==>
      CellOf(config, k, ContaContabil) != code && CellOf(config, k, Normalizado) != code
    ensures AddConfiguratedColumn(column, config, code) == Ok(Some(""))
  {
    AddConfiguratedColumnSpec(column, config, code, 0);
  }

  /** add_periodo_competencia_column: the period of a page file name, ""
      for any other name; re.match on a missing cell raises TypeError. */
  function AddPeriodoCompetenciaColumn(file: Cell): (r: Result<Cell>)
    ensures r.Err? <==> file.None?
    ensures file.Some? && PageNamePeriod(file.value).None? ==> r == Ok(Some(""))
    ensures file.Some? && PageNamePeriod(file.value).Some? ==> r == Ok(Some(PageNamePeriod(file.value).value))
  {
    match file
    case None => Err(TypeError)
    case Some(f) =>
      match PageNamePeriod(f)
      case None => Ok(Some(""))
      case Some(p) => Ok(Some(p))
  }

  /** "page_<n>_<year>-<month>.csv" gives "<year>-<month>", as for
      "page_99_2023-01.csv". */
  lemma PeriodOfPageName(n: string, year: string, month: string)
    requires n != [] && AllDigits(n) && year != [] && AllDigits(year) && month != [] && AllDigits(month)
    ensures AddPeriodoCompetenciaColumn(Some("page_" + n + "_" + year + "-" + month + ".csv")) == Ok(Some(year + "-" + month))
  {
    PageNameCompose(n, year, month);
  }

  /** The value of one enrichment column for a row with that code and file
      name. */
  function RowValue(name: string, config: Frame, code: Cell, file: Cell): Result<Cell>
    requires Configured(config)
  {
    if name == Periodo then AddPeriodoCompetenciaColumn(file) else AddConfiguratedColumn(name, config, code)
  }

  /** The lambda of the loop over the nine names on one row: it reads
      row["ContaContabil"], the two code columns of the configuration and
      row["file"] before the column's own function runs. */
  function EnrichedCell(name: string, config: Frame, columns: seq<string>, row: seq<Cell>): (r: Result<Cell>)
    requires Rect(config) && |row| == |columns|
    ensures r.Ok? ==> ContaContabil in columns && "file" in columns && Configured(config)
    ensures r.Ok? ==> r == RowValue(name, config, row[ColumnIndex(columns, ContaContabil).value], row[ColumnIndex(columns, "file").value])
  {
    if ContaContabil !in columns then Err(KeyError(ContaContabil))
    else if ContaContabil !in config.columns then Err(KeyError(ContaContabil))
    else if Normalizado !in config.columns then Err(KeyError(Normalizado))
    else if "file" !in columns then Err(KeyError("file"))
    else
      RowValue(name, config, row[ColumnIndex(columns, ContaContabil).value], row[ColumnIndex(columns, "file").value])
  }

  /** The apply over the first n rows: the first failing row raises. */
  function EnrichedCells(name: string, config: Frame, t: Frame, n: nat): (r: Result<seq<Cell>>)
    requires Rect(config) && Rect(t) && n <= |t.rows|
    ensures r.Ok? ==> |r.value| == n && forall i :: 0 <= i < n ==> EnrichedCell(name, config, t.columns, t.rows[i]) == Ok(r.value[i])
    ensures r.Err? ==> exists i :: 0 <= i < n && EnrichedCell(name, config, t.columns, t.rows[i]).Err?
  {
    if n == 0 then Ok([])
    else
      match EnrichedCells(name, config, t, n - 1)
      case Err(e) => Err(e)
      case Ok(cs) =>
        match EnrichedCell(name, config, t.columns, t.rows[n - 1])
        case Err(e) => Err(e)
        case Ok(c) => Ok(cs + [c])
  }

  /** The page before a name's column is inserted: the column dropped when
      the page as read had it. */
  function Vacated(base: seq<string>, t: Frame, name: string): (r: Result<Frame>)
    requires Rect(t)
    ensures r.Ok? ==> Rect(r.value) && r.value.labels == t.labels
    ensures r.Ok? ==> name !in base ==> r.value == t
  {
    if name in base then DropColumns(t, [name]) else Ok(t)
  }

  /** The apply of the loop's lambda over the page: row by row, the first
      failing row raising.  On an empty page pandas tries the lambda on a
      row of NaN: when it returns (a configured column whose keys are all
      present, and no row of the configuration applies to NaN), apply gives
      an empty column; when it raises (always for the period, whose re.match
      gets NaN), the page's copy is inserted. */
  function EnrichedColumn(name: string, config: Frame, u: Frame): (r: Result<seq<Cell>>)
    requires Rect(config) && Rect(u)
    ensures r.Ok? ==> |r.value| == |u.rows|
    ensures !Empty(u) ==> r == EnrichedCells(name, config, u, |u.rows|)
    ensures Empty(u) && EnrichedCell(name, config, u.columns, NaNRow(|u.columns|)).Err? ==> r == CopiedColumn(u, name)
  {
    if !Empty(u) then EnrichedCells(name, config, u, |u.rows|)
    else if EnrichedCell(name, config, u.columns, NaNRow(|u.columns|)).Ok? then Ok([])
    else CopiedColumn(u, name)
  }

  /** One turn of the loop: room made for the name, then its column
      inserted first. */
  function EnrichStep(base: seq<string>, t: Frame, config: Frame, name: string): (r: Result<Frame>)
    requires Rect(t) && Rect(config)
    ensures r.Ok? ==> Rect(r.value) && r.value.labels == t.labels
  {
    match Vacated(base, t, name)
    case Err(e) => Err(e)
    case Ok(u) =>
      match EnrichedColumn(name, config, u)
      case Err(e) => Err(e)
      case Ok(cs) => InsertCells(u, 0, name, cs)
  }

  /** The loop over names, on the page whose header as read is base. */
  function EnrichSteps(base: seq<string>, t: Frame, config: Frame, names: seq<string>): (r: Result<Frame>)
    requires Rect(t) && Rect(config)
    ensures r.Ok? ==> Rect(r.value) && r.value.labels == t.labels
  {
    if names == [] then Ok(t)
    else
      match EnrichSteps(base, t, config, names[..|names| - 1])
      case Err(e) => Err(e)
      case Ok(u) => EnrichStep(base, u, config, names[|names| - 1])
  }

  /** The account step: the nine columns, then ContaContabil dropped and
      ContaContabilNormalizado renamed ContaContabil. */
  function EnrichAccounts(base: seq<string>, t: Frame, config: Frame): (r: Result<Frame>)
    requires Rect(t) && Rect(config)
    ensures r.Ok? ==> Rect(r.value) && r.value.labels == t.labels
  {
    match EnrichSteps(base, t, config, EnrichedNames)
    case Err(e) => Err(e)
    case Ok(a) =>
      match DropColumns(a, [ContaContabil])
      case Err(e) => Err(e)
      case Ok(h) => Ok(RenameColumn(h, Normalizado, ContaContabil))
  }

  /** fillna(""): every missing cell becomes the empty string. */
  function FillNa(t: Frame): (r: Frame)
    requires Rect(t)
    ensures Rect(r) && r.columns == t.columns && r.labels == t.labels && |r.rows| == |t.rows|
    ensures forall i, j :: 0 <= i < |t.rows| && 0 <= j < |t.columns| ==>
      r.rows[i][j].Some? && (t.rows[i][j].Some? ==> r.rows[i][j] == t.rows[i][j])
  {
    Frame(t.columns, t.labels,
      seq(|t.rows|, i requires 0 <= i < |t.rows| =>
        seq(|t.rows[i]|, j requires 0 <= j < |t.rows[i]| => if t.rows[i][j].Some? then t.rows[i][j] else Some(""))))
  }

  /** DataFrame.empty: no rows or no columns. */
  predicate Empty(f: Frame) {
    |f.rows| == 0 || |f.columns| == 0
  }

  /** transform_generated_analytical_data, given the page as read, the
      account configuration and the Participante column of the rename list:
      with an empty configuration and an empty list nothing is rewritten;
      otherwise the page with fillna(""), the rename step when the list has
      entries, and the account step when the configuration is not empty. */
  function Transform(t: Frame, config: Frame, units: seq<Cell>): (r: Result<Frame>)
    requires Rect(t) && Rect(config)
    ensures r.Ok? ==> Rect(r.value) && r.value.labels == t.labels
    ensures units == [] && Empty(config) ==> r == Ok(t)
    ensures units == [] && !Empty(config) ==> r == EnrichAccounts(t.columns, FillNa(t), config)
    ensures units != [] && Empty(config) ==> r == RenameUnits(FillNa(t), units)
  {
    if units == [] && Empty(config) then Ok(t)
    else
      var p := FillNa(t);
      match (if units != [] then RenameUnits(p, units) else Ok(p))
      case Err(e) => Err(e)
      case Ok(u) => if Empty(config) then Ok(u) else EnrichAccounts(p.columns, u, config)
  }

  // ---------------------------------------------------------------------
  // what the account step leaves

  /** The rows of t can be enriched: t has the code and file columns and
      the configuration both code columns. */
  predicate Enrichable(t: Frame, config: Frame) {
    Rect(t) && Configured(config) && ContaContabil in t.columns && "file" in t.columns
  }

  /** Every column of t not among names is a column of a, with the same
      cells. */
  predicate KeepsCells(t: Frame, a: Frame, names: seq<string>)
    requires Rect(t) && Rect(a) && |a.rows| == |t.rows|
  {
    (forall n :: n in t.columns && n !in names ==> n in a.columns) &&
    forall n, i :: n in t.columns && n !in names && 0 <= i < |t.rows| ==> CellOf(a, i, n) == CellOf(t, i, n)
  }

  /** Keeping cells composes: a column kept from t to b and from b to a is
      kept from t to a. */
  lemma KeepsCellsTrans(t: Frame, b: Frame, a: Frame, xs: seq<string>, ys: seq<string>, zs: seq<string>)
    requires Rect(t) && Rect(b) && Rect(a) && |b.rows| == |t.rows| && |a.rows| == |t.rows|
    requires KeepsCells(t, b, xs) && KeepsCells(b, a, ys)
    requires forall n :: n !in zs ==> n !in xs && n !in ys
    ensures KeepsCells(t, a, zs)
  {
    forall n | n in t.columns && n !in zs
      ensures n in a.columns
    {
      assert n in b.columns;
    }
    forall n, i | n in t.columns && n !in zs && 0 <= i < |t.rows|
      ensures CellOf(a, i, n) == CellOf(t, i, n)
    {
      assert n in b.columns;
      assert CellOf(a, i, n) == CellOf(b, i, n);
    }
  }

  /** A step that succeeds on a page with rows found the columns it reads. */
  lemma {:induction false} StepsRead(base: seq<string>, t: Frame, config: Frame, names: seq<string>)
    requires Rect(t) && Rect(config) && names != [] && |t.rows| > 0
    requires EnrichSteps(base, t, config, names).Ok?
    ensures Enrichable(t, config)
  {
    var m := |names| - 1;
    if m > 0 {
      StepsRead(base, t, config, names[..m]);
    } else {
      assert names[..m] == [];
      var name := names[0];
      var u := Vacated(base, t, name).value;
      var cs := EnrichedCells(name, config, u, |u.rows|).value;
      assert EnrichedCell(name, config, u.columns, u.rows[0]) == Ok(cs[0]);
      assert ContaContabil in t.columns && "file" in t.columns by {
        if name in base {
          assert forall n :: n in u.columns ==> n in t.columns;
        }
      }
    }
  }

  /** What the loop over names leaves in a, from the page t: the first
      columns are the names, last first, each holding its value for the
      row's code and file name in t; every other column of t keeps its
      cells. */
  predicate Filled(t: Frame, config: Frame, names: seq<string>, a: Frame)
    requires Rect(t) && Rect(a) && |a.rows| == |t.rows| && (|t.rows| > 0 ==> Enrichable(t, config))
  {
    |names| <= |a.columns| && (forall s :: 0 <= s < |names| ==> a.columns[|names| - 1 - s] == names[s]) &&
    (forall s, i :: 0 <= s < |names| && 0 <= i < |t.rows| ==>
      RowValue(names[s], config, CellOf(t, i, ContaContabil), CellOf(t, i, "file")) == Ok(a.rows[i][|names| - 1 - s])) &&
    KeepsCells(t, a, names)
  }

  /** The loop over distinct names, none of them ContaContabil or file,
      fills them in. */
  lemma {:induction false} EnrichStepsSpec(base: seq<string>, t: Frame, config: Frame, names: seq<string>)
    requires Rect(t) && Rect(config) && EnrichSteps(base, t, config, names).Ok?
    requires Distinct(names) && ContaContabil !in names && "file" !in names
    requires |t.rows| > 0 ==> Enrichable(t, config)
    ensures Filled(t, config, names, EnrichSteps(base, t, config, names).value)
  {
    if names == [] {
      assert EnrichSteps(base, t, config, names) == Ok(t);
    } else {
      var m := |names| - 1;
      var name := names[m];
      var front := names[..m];
      InitLast(names);
      var a0 := EnrichSteps(base, t, config, front).value;
      var a := EnrichStep(base, a0, config, name).value;
      assert EnrichSteps(base, t, config, names) == Ok(a);
      assert Filled(t, config, front + [name], a) by {
        DistinctInit(names);
        EnrichStepsSpec(base, t, config, front);
        FilledFront(t, config, front, a0);
        EnrichStepSpec(base, a0, config, name, m);
        FillStep(t, config, front, name, a0, a);
      }
    }
  }

  /** Without its last name a list of distinct names is still distinct and
      does not hold that name. */
  lemma DistinctInit(names: seq<string>)
    requires Distinct(names) && names != []
    ensures Distinct(names[..|names| - 1]) && names[|names| - 1] !in names[..|names| - 1]
  {
    var m := |names| - 1;
    var front := names[..m];
    forall a, b | 0 <= a < b < m
      ensures front[a] != front[b]
    {
      assert front[a] == names[a] && front[b] == names[b];
    }
    forall a | 0 <= a < m
      ensures front[a] != names[m]
    {
      assert front[a] == names[a];
    }
  }

  /** The first columns of a filled table are the names, last first, and
      the table keeps the code and file columns it reads. */
  lemma FilledFront(t: Frame, config: Frame, names: seq<string>, a: Frame)
    requires Rect(t) && Rect(a) && |a.rows| == |t.rows| && (|t.rows| > 0 ==> Enrichable(t, config))
    requires Filled(t, config, names, a)
    ensures |names| <= |a.columns| && forall j :: 0 <= j < |names| ==> a.columns[j] == names[|names| - 1 - j]
  {
    forall j | 0 <= j < |names|
      ensures a.columns[j] == names[|names| - 1 - j]
    {
      var s := |names| - 1 - j;
      assert a.columns[|names| - 1 - s] == names[s];
    }
  }

  lemma ShiftedCell<T>(x: seq<T>, y: seq<T>, n: nat, k: nat)
    requires n + 1 <= |x| && n <= |y| && k < n && x[1..n + 1] == y[..n]
    ensures x[k + 1] == y[k]
  {
    assert x[1..n + 1][k] == y[..n][k];
  }

  /** Where name s of the names after one more sits in a row of the table
      after one more column: an earlier name one cell further right, the
      new name in the first cell. */
  lemma FillCell<T>(front: seq<string>, name: string, x: seq<T>, y: seq<T>, s: nat)
    requires |front| + 1 <= |x| && |front| <= |y| && s < |front| + 1 && x[1..|front| + 1] == y[..|front|]
    ensures s < |front| ==> (front + [name])[s] == front[s] && x[|front + [name]| - 1 - s] == y[|front| - 1 - s]
    ensures s == |front| ==> (front + [name])[s] == name && |front + [name]| - 1 - s == 0
  {
    if s < |front| {
      ShiftedCell(x, y, |front|, |front| - 1 - s);
    }
  }

  /** The facts the loop keeps, carried from the first names to one more. */
  lemma FillStep(t: Frame, config: Frame, front: seq<string>, name: string, a0: Frame, a: Frame)
    requires Rect(t) && Rect(config) && Rect(a0) && Rect(a) && |a0.rows| == |t.rows| && |a.rows| == |t.rows|
    requires |t.rows| > 0 ==> Enrichable(t, config)
    requires name !in front && name != ContaContabil && name != "file" && ContaContabil !in front && "file" !in front
    requires Filled(t, config, front, a0)
    requires |front| + 1 <= |a.columns| && a.columns[0] == name && a.columns[1..|front| + 1] == a0.columns[..|front|]
    requires forall i :: 0 <= i < |t.rows| ==> a.rows[i][1..|front| + 1] == a0.rows[i][..|front|]
    requires |t.rows| > 0 ==> Enrichable(a0, config)
    requires forall i :: 0 <= i < |t.rows| ==>
      RowValue(name, config, CellOf(a0, i, ContaContabil), CellOf(a0, i, "file")) == Ok(a.rows[i][0])
    requires KeepsCells(a0, a, [name])
    ensures Filled(t, config, front + [name], a)
  {
    FillColumns(front, name, a0.columns, a.columns);
    FillValues(t, config, front, name, a0, a);
    KeepsCellsTrans(t, a0, a, front, [name], front + [name]);
  }

  /** Every filled name holds its configured value, the new one included. */
  lemma FillValues(t: Frame, config: Frame, front: seq<string>, name: string, a0: Frame, a: Frame)
    requires Rect(t) && Rect(config) && Rect(a0) && Rect(a) && |a0.rows| == |t.rows| && |a.rows| == |t.rows|
    requires |t.rows| > 0 ==> Enrichable(t, config)
    requires name !in front && name != ContaContabil && name != "file" && ContaContabil !in front && "file" !in front
    requires Filled(t, config, front, a0)
    requires |front| + 1 <= |a.columns| && a.columns[0] == name && a.columns[1..|front| + 1] == a0.columns[..|front|]
    requires forall i :: 0 <= i < |t.rows| ==> a.rows[i][1..|front| + 1] == a0.rows[i][..|front|]
    requires |t.rows| > 0 ==> Enrichable(a0, config)
    requires forall i :: 0 <= i < |t.rows| ==>
      RowValue(name, config, CellOf(a0, i, ContaContabil), CellOf(a0, i, "file")) == Ok(a.rows[i][0])
    requires KeepsCells(a0, a, [name])
    ensures forall s, i | 0 <= s < |front| + 1 && 0 <= i < |t.rows| ::
      RowValue((front + [name])[s], config, CellOf(t, i, ContaContabil), CellOf(t, i, "file")) == Ok(a.rows[i][|front| - s])
  {
    forall s, i | 0 <= s < |front| + 1 && 0 <= i < |t.rows|
      ensures RowValue((front + [name])[s], config, CellOf(t, i, ContaContabil), CellOf(t, i, "file")) == Ok(a.rows[i][|front| - s])
    {
      FillCell(front, name, a.rows[i], a0.rows[i], s);
      if s < |front| {
        assert RowValue(front[s], config, CellOf(t, i, ContaContabil), CellOf(t, i, "file")) == Ok(a0.rows[i][|front| - 1 - s]);
      } else {
        assert CellOf(a0, i, ContaContabil) == CellOf(t, i, ContaContabil);
        assert CellOf(a0, i, "file") == CellOf(t, i, "file");
      }
    }
  }

  /** The new name goes first, ahead of the names already filled in. */
  lemma FillColumns(front: seq<string>, name: string, c0: seq<string>, c: seq<string>)
    requires |front| <= |c0| && (forall s :: 0 <= s < |front| ==> c0[|front| - 1 - s] == front[s])
    requires |front| + 1 <= |c| && c[0] == name && c[1..|front| + 1] == c0[..|front|]
    ensures forall s :: 0 <= s < |front| + 1 ==> c[|front| - s] == (front + [name])[s]
  {
    var names := front + [name];
    var m := |front|;
    forall s | 0 <= s < |names|
      ensures c[|names| - 1 - s] == names[s]
    {
      if s < m {
        assert c[1..m + 1][m - 1 - s] == c0[..m][m - 1 - s];
      }
    }
  }

  /** Making room for a name keeps the first m columns, when none of them
      is the name, and every other column's cells. */
  lemma VacatedKeeps(base: seq<string>, t: Frame, name: string, m: nat)
    requires Rect(t) && Vacated(base, t, name).Ok?
    requires m <= |t.columns| && forall j :: 0 <= j < m ==> t.columns[j] != name
    ensures var u := Vacated(base, t, name).value;
      |u.rows| == |t.rows| && m <= |u.columns| && u.columns[..m] == t.columns[..m] &&
      (forall i :: 0 <= i < |t.rows| ==> u.rows[i][..m] == t.rows[i][..m]) &&
      KeepsCells(t, u, [name]) && forall n :: n in u.columns ==> n in t.columns
  {
    var u := Vacated(base, t, name).value;
    if name in base {
      DropKeepsPrefix(t, [name], m);
      assert forall n :: n in u.columns <==> n in t.columns && n !in [name];
      forall n, i | n in t.columns && n !in [name] && 0 <= i < |t.rows|
        ensures CellOf(u, i, n) == CellOf(t, i, n)
      {
        DropKeeps(t, [name], n, i);
      }
    }
  }

  /** Inserting a column first shifts the first m columns and cells by
      one and keeps every other column's cells. */
  lemma InsertFrontSpec(u: Frame, name: string, cs: seq<Cell>, m: nat)
    requires Rect(u) && |cs| == |u.rows| && InsertCells(u, 0, name, cs).Ok? && m <= |u.columns|
    ensures var a := InsertCells(u, 0, name, cs).value;
      |a.rows| == |u.rows| && m + 1 <= |a.columns| && a.columns[0] == name &&
      a.columns[1..m + 1] == u.columns[..m] &&
      (forall i :: 0 <= i < |u.rows| ==> a.rows[i][0] == cs[i] && a.rows[i][1..m + 1] == u.rows[i][..m]) &&
      KeepsCells(u, a, [name])
  {
    var a := InsertCells(u, 0, name, cs).value;
    assert a.columns == [name] + u.columns;
    assert a.columns[1..m + 1] == u.columns[..m];
    forall i | 0 <= i < |u.rows|
      ensures a.rows[i][0] == cs[i] && a.rows[i][1..m + 1] == u.rows[i][..m]
    {
      assert a.rows[i] == [cs[i]] + u.rows[i];
    }
    forall n | n in u.columns && n !in [name]
      ensures n in a.columns
    {
      assert n in a.columns[1..];
    }
    forall n, i | n in u.columns && n !in [name] && 0 <= i < |u.rows|
      ensures CellOf(a, i, n) == CellOf(u, i, n)
    {
      InsertFrontKeeps(u, name, cs, n, i);
    }
  }

  /** A row's cell from the apply is the name's value for the row's code
      and file name. */
  lemma EnrichedCellValue(name: string, config: Frame, u: Frame, cs: seq<Cell>, i: nat)
    requires Rect(config) && Rect(u) && i < |u.rows| && i < |cs|
    requires EnrichedCell(name, config, u.columns, u.rows[i]) == Ok(cs[i])
    ensures ContaContabil in u.columns && "file" in u.columns && Configured(config)
    ensures RowValue(name, config, CellOf(u, i, ContaContabil), CellOf(u, i, "file")) == Ok(cs[i])
  {
  }

  /** One turn of the loop on a page whose first m columns are not the
      new name: the name goes first, holding each row's value for its code
      and file name, the first m columns follow it, and every other column
      keeps its cells. */
  lemma EnrichStepSpec(base: seq<string>, u0: Frame, config: Frame, name: string, m: nat)
    requires Rect(u0) && Rect(config) && EnrichStep(base, u0, config, name).Ok?
    requires m <= |u0.columns| && forall j :: 0 <= j < m ==> u0.columns[j] != name
    requires name != ContaContabil && name != "file"
    ensures var a := EnrichStep(base, u0, config, name).value;
      |a.rows| == |u0.rows| && m + 1 <= |a.columns| && a.columns[0] == name &&
      a.columns[1..m + 1] == u0.columns[..m] &&
      forall i :: 0 <= i < |u0.rows| ==> a.rows[i][1..m + 1] == u0.rows[i][..m]
    ensures |u0.rows| > 0 ==> Enrichable(u0, config)
    ensures var a := EnrichStep(base, u0, config, name).value;
      forall i :: 0 <= i < |u0.rows| ==>
        RowValue(name, config, CellOf(u0, i, ContaContabil), CellOf(u0, i, "file")) == Ok(a.rows[i][0])
    ensures var a := EnrichStep(base, u0, config, name).value;
      |a.rows| == |u0.rows| && KeepsCells(u0, a, [name])
  {
    var u := Vacated(base, u0, name).value;
    VacatedKeeps(base, u0, name, m);
    var cs := EnrichedCells(name, config, u, |u.rows|).value;
    InsertFrontSpec(u, name, cs, m);
    var a := InsertCells(u, 0, name, cs).value;
    assert EnrichStep(base, u0, config, name) == Ok(a);
    KeepsCellsTrans(u0, u, a, [name], [name], [name]);
    forall i | 0 <= i < |u0.rows|
      ensures RowValue(name, config, CellOf(u0, i, ContaContabil), CellOf(u0, i, "file")) == Ok(a.rows[i][0])
    {
      EnrichedCellValue(name, config, u, cs, i);
      assert ContaContabil !in [name] && "file" !in [name];
    }
  }

  /** The enrichment names are distinct and none of them is a column the
      steps read or the rename step writes. */
  lemma EnrichedNamesDistinct()
    ensures Distinct(EnrichedNames)
    ensures ContaContabil !in EnrichedNames && "file" !in EnrichedNames
    ensures "Participante" !in EnrichedNames
    ensures ContaContabil !in ["Participante", "ParticipanteReview"]
  {
  }

  /** A step that fails fails the whole loop. */
  lemma {:induction false} StepsErrSticks(base: seq<string>, t: Frame, config: Frame, names: seq<string>, k: nat)
    requires Rect(t) && Rect(config) && k <= |names| && EnrichSteps(base, t, config, names[..k]).Err?
    ensures EnrichSteps(base, t, config, names) == EnrichSteps(base, t, config, names[..k])
    decreases |names| - k
  {
    if k < |names| {
      assert names[..k + 1][..k] == names[..k];
      StepsErrSticks(base, t, config, names, k + 1);
    } else {
      assert names[..k] == names;
    }
  }

  /** A first row that fails fails the apply with its error. */
  lemma {:induction false} FirstRowFails(name: string, config: Frame, u: Frame, n: nat)
    requires Rect(config) && Rect(u) && 0 < n <= |u.rows|
    requires EnrichedCell(name, config, u.columns, u.rows[0]).Err?
    ensures EnrichedCells(name, config, u, n) == Err(EnrichedCell(name, config, u.columns, u.rows[0]).error)
  {
    if n > 1 {
      FirstRowFails(name, config, u, n - 1);
    }
  }

  /** A page with rows that lacks a column the loop reads, or a
      configuration without both code columns, fails the account step at
      its first name with the first missing key: ContaContabil of the page,
      then the configuration's two code columns, then file.  A page left
      without columns once the period is dropped is empty to pandas, and
      the insert of its copy raises IndexError. */
  lemma EnrichAccountsMissingKey(base: seq<string>, t: Frame, config: Frame)
    requires Rect(t) && Rect(config) && |t.rows| > 0 && !Enrichable(t, config)
    requires Periodo in base ==> Periodo in t.columns
    ensures (exists n :: n in t.columns && (n != Periodo || Periodo !in base)) &&
            (ContaContabil !in t.columns || ContaContabil !in config.columns) ==>
      EnrichAccounts(base, t, config) == Err(KeyError(ContaContabil))
    ensures (forall n :: n in t.columns ==> n == Periodo && Periodo in base) ==>
      EnrichAccounts(base, t, config) == Err(IndexError)
    ensures ContaContabil in t.columns && ContaContabil in config.columns && Normalizado !in config.columns ==>
      EnrichAccounts(base, t, config) == Err(KeyError(Normalizado))
    ensures ContaContabil in t.columns && Configured(config) ==>
      EnrichAccounts(base, t, config) == Err(KeyError("file"))
  {
    var u := Vacated(base, t, Periodo).value;
    assert forall n :: n in u.columns && n != Periodo ==> (n in t.columns);
    assert forall n :: n in t.columns && n != Periodo ==> (n in u.columns);
    assert ContaContabil in u.columns <==> ContaContabil in t.columns;
    assert "file" in u.columns <==> "file" in t.columns;
    assert (forall n :: n in t.columns ==> n == Periodo && Periodo in base) ==> u.columns == [] by {
      if u.columns != [] {
        assert u.columns[0] in u.columns;
      }
    }
    if Empty(u) {
      assert u.columns == [];
      assert EnrichedCell(Periodo, config, u.columns, NaNRow(|u.columns|)).Err?;
    } else {
      var e := EnrichedCell(Periodo, config, u.columns, u.rows[0]);
      assert e.Err?;
      FirstRowFails(Periodo, config, u, |u.rows|);
    }
    assert EnrichedNames[..1] == [Periodo];
    assert EnrichSteps(base, t, config, [Periodo]) == EnrichStep(base, t, config, Periodo) by {
      assert [Periodo][..0] == [];
    }
    StepsErrSticks(base, t, config, EnrichedNames, 1);
  }

  /** On a page without rows and with more than one column the rename
      step raises ValueError: the lambda raises on the row of NaN, and the
      copy of the page apply returns is not one column. */
  lemma RenameUnitsHeaderOnly(t: Frame, units: seq<Cell>)
    requires Rect(t) && |t.rows| == 0 && |t.columns| > 1
    ensures RenameUnits(t, units) == Err(ValueError)
  {
  }

  /** A step on a page without rows whose lambda raises on the row of NaN
      (the period, or a page without ContaContabil or without file): the
      copy of the page is inserted, which raises ValueError unless the page
      is one column other than the name. */
  lemma HeaderOnlyStep(base: seq<string>, u0: Frame, config: Frame, name: string)
    requires Rect(u0) && Rect(config) && |u0.rows| == 0 && Vacated(base, u0, name).Ok?
    requires var u := Vacated(base, u0, name).value;
      name == Periodo || ContaContabil !in u.columns || "file" !in u.columns
    ensures var u := Vacated(base, u0, name).value;
      |u.columns| > 1 || name in u.columns ==> EnrichStep(base, u0, config, name) == Err(ValueError)
    ensures var u := Vacated(base, u0, name).value;
      |u.columns| == 1 && name !in u.columns ==> EnrichStep(base, u0, config, name) == Ok(Frame([name] + u.columns, [], []))
  {
    var u := Vacated(base, u0, name).value;
    assert EnrichedCell(name, config, u.columns, NaNRow(|u.columns|)).Err?;
    if |u.columns| == 1 && name !in u.columns {
      var a := InsertCells(u, 0, name, []).value;
      assert a.columns == [name] + u.columns;
    }
  }

  /** On a page without rows, with more than one column, all distinct, the
      account step raises ValueError: the period's lambda always raises on
      the row of NaN, so the first turn inserts the page's copy; only a page
      of the period and one other column gets past it, and the next turn or
      the one after meets a copy of two columns. */
  lemma EnrichAccountsHeaderOnly(t: Frame, config: Frame)
    requires Rect(t) && Rect(config) && |t.rows| == 0 && |t.columns| > 1 && Distinct(t.columns)
    ensures EnrichAccounts(t.columns, t, config) == Err(ValueError)
  {
    var base := t.columns;
    var g, d := "ContaContabilGrupo", "ContaContabilGrupoDescritivo";
    var n1, n2, n3 := [Periodo], [Periodo, g], [Periodo, g, d];
    FirstNames();
    assert n1 == [] + [Periodo] && n2 == n1 + [g] && n3 == n2 + [d];
    var x := HeaderOnlyPeriod(t, config);
    StepsSnoc(base, t, config, [], Periodo);
    assert EnrichSteps(base, t, config, []) == Ok(t);
    assert EnrichSteps(base, t, config, n1) == EnrichStep(base, t, config, Periodo);
    if EnrichStep(base, t, config, Periodo).Err? {
      AccountsFailAt(base, t, config, 1);
      return;
    }
    var a1 := Frame([Periodo, x], [], []);
    HeaderOnlyGroup(base, x, config);
    StepsSnoc(base, t, config, n1, g);
    assert EnrichSteps(base, t, config, n2) == EnrichStep(base, a1, config, g);
    if EnrichStep(base, a1, config, g).Err? {
      AccountsFailAt(base, t, config, 2);
      return;
    }
    var a2 := Frame([g, Periodo], [], []);
    assert x == g;
    HeaderOnlyDescription(base, config);
    StepsSnoc(base, t, config, n2, d);
    assert EnrichSteps(base, t, config, n3) == EnrichStep(base, a2, config, d);
    AccountsFailAt(base, t, config, 3);
  }

  /** The loop over names and one more name is the loop, then that name's
      turn. */
  lemma StepsSnoc(base: seq<string>, t: Frame, config: Frame, names: seq<string>, name: string)
    requires Rect(t) && Rect(config)
    ensures EnrichSteps(base, t, config, names + [name]) ==
      if EnrichSteps(base, t, config, names).Err? then EnrichSteps(base, t, config, names)
      else EnrichStep(base, EnrichSteps(base, t, config, names).value, config, name)
  {
    assert (names + [name])[..|names|] == names;
  }

  /** A loop that fails after its first k names fails the account step
      with that error. */
  lemma AccountsFailAt(base: seq<string>, t: Frame, config: Frame, k: nat)
    requires Rect(t) && Rect(config) && k <= |EnrichedNames| && EnrichSteps(base, t, config, EnrichedNames[..k]).Err?
    ensures EnrichAccounts(base, t, config) == EnrichSteps(base, t, config, EnrichedNames[..k])
  {
    StepsErrSticks(base, t, config, EnrichedNames, k);
  }

  /** The first three names of the loop. */
  lemma FirstNames()
    ensures EnrichedNames[..1] == [Periodo]
    ensures EnrichedNames[..2] == [Periodo, "ContaContabilGrupo"]
    ensures EnrichedNames[..3] == [Periodo, "ContaContabilGrupo", "ContaContabilGrupoDescritivo"]
  {
  }

  /** The period's turn on such a page raises ValueError, or the page is
      the period and one other column x, which the turn puts behind the
      period. */
  lemma HeaderOnlyPeriod(t: Frame, config: Frame) returns (x: string)
    requires Rect(t) && Rect(config) && |t.rows| == 0 && |t.columns| > 1 && Distinct(t.columns)
    ensures EnrichStep(t.columns, t, config, Periodo) == Err(ValueError) ||
      (x != Periodo && (forall n :: n in t.columns ==> n == Periodo || n == x) &&
       EnrichStep(t.columns, t, config, Periodo) == Ok(Frame([Periodo, x], [], [])))
  {
    var base := t.columns;
    var u1 := Vacated(base, t, Periodo).value;
    HeaderOnlyStep(base, t, config, Periodo);
    x := if t.columns[0] != Periodo then t.columns[0] else t.columns[1];
    if |u1.columns| > 1 || Periodo in u1.columns {
      return;
    }
    assert x != Periodo && x in u1.columns;
    assert u1.columns == [x];
    assert [Periodo] + u1.columns == [Periodo, x];
    forall n | n in base
      ensures n == Periodo || n == x
    {
      if n != Periodo {
        assert n in u1.columns;
      }
    }
  }

  /** The group's turn after it raises ValueError, or the other column was
      the group itself, which the turn moves first. */
  lemma HeaderOnlyGroup(base: seq<string>, x: string, config: Frame)
    requires Rect(config) && x != Periodo && forall n :: n in base ==> n == Periodo || n == x
    ensures var g := "ContaContabilGrupo";
      EnrichStep(base, Frame([Periodo, x], [], []), config, g) == Err(ValueError) ||
      (x == g && EnrichStep(base, Frame([Periodo, x], [], []), config, g) == Ok(Frame([g, Periodo], [], [])))
  {
    var g := "ContaContabilGrupo";
    var a1 := Frame([Periodo, x], [], []);
    if x != g {
      assert g !in base;
      assert Vacated(base, a1, g) == Ok(a1);
      HeaderOnlyStep(base, a1, config, g);
    } else {
      var u2 := Vacated(base, a1, g).value;
      HeaderOnlyStep(base, a1, config, g);
      if |u2.columns| == 1 && g !in u2.columns {
        assert Periodo in u2.columns;
        assert u2.columns == [Periodo];
        assert [g] + u2.columns == [g, Periodo];
      }
    }
  }

  /** The group description's turn after that meets two columns and raises
      ValueError. */
  lemma HeaderOnlyDescription(base: seq<string>, config: Frame)
    requires Rect(config) && forall n :: n in base ==> n == Periodo || n == "ContaContabilGrupo"
    ensures EnrichStep(base, Frame(["ContaContabilGrupo", Periodo], [], []), config, "ContaContabilGrupoDescritivo") == Err(ValueError)
  {
    var a2 := Frame(["ContaContabilGrupo", Periodo], [], []);
    var d := "ContaContabilGrupoDescritivo";
    assert d !in base;
    assert Vacated(base, a2, d) == Ok(a2);
    HeaderOnlyStep(base, a2, config, d);
  }

  /** A page without rows, with more than one column, all distinct, fails
      the transform with ValueError whenever a step runs. */
  lemma TransformHeaderOnly(t: Frame, config: Frame, units: seq<Cell>)
    requires Rect(t) && Rect(config) && |t.rows| == 0 && |t.columns| > 1 && Distinct(t.columns)
    requires units != [] || !Empty(config)
    ensures Transform(t, config, units) == Err(ValueError)
  {
    var p := FillNa(t);
    if units != [] {
      RenameUnitsHeaderOnly(p, units);
    } else {
      EnrichAccountsHeaderOnly(p, config);
    }
  }

  /** Dropping ContaContabil and renaming the normalised code, the last
      of the filled names, in its place. */
  lemma FinishSpec(t: Frame, config: Frame, names: seq<string>, a: Frame, i: nat)
    requires Rect(t) && Rect(a) && |a.rows| == |t.rows| && i < |t.rows| && Enrichable(t, config)
    requires Distinct(names) && |names| == 9 && names[8] == Normalizado && ContaContabil !in names
    requires Filled(t, config, names, a) && DropColumns(a, [ContaContabil]).Ok?
    ensures var r := RenameColumn(DropColumns(a, [ContaContabil]).value, Normalizado, ContaContabil);
      |r.rows| == |t.rows| && 9 <= |r.columns| && r.columns[0] == ContaContabil &&
      Ok(r.rows[i][0]) == RowValue(Normalizado, config, CellOf(t, i, ContaContabil), CellOf(t, i, "file"))
    ensures var r := RenameColumn(DropColumns(a, [ContaContabil]).value, Normalizado, ContaContabil);
      forall s :: 0 <= s < 8 ==> (r.columns[8 - s] == names[s] &&
        Ok(r.rows[i][8 - s]) == RowValue(names[s], config, CellOf(t, i, ContaContabil), CellOf(t, i, "file")))
  {
    FilledFront(t, config, names, a);
    DropKeepsPrefix(a, [ContaContabil], 9);
    var h := DropColumns(a, [ContaContabil]).value;
    var r := RenameColumn(h, Normalizado, ContaContabil);
    var code, file := CellOf(t, i, ContaContabil), CellOf(t, i, "file");
    assert h.columns[..9] == a.columns[..9] && h.rows[i][..9] == a.rows[i][..9];
    assert h.columns[0] == a.columns[..9][0];
    assert RowValue(names[8], config, code, file) == Ok(a.rows[i][0]);
    assert r.rows[i][0] == a.rows[i][..9][0];
    forall s | 0 <= s < 8
      ensures r.columns[8 - s] == names[s] && Ok(r.rows[i][8 - s]) == RowValue(names[s], config, code, file)
    {
      assert names[s] != names[8];
      assert h.columns[8 - s] == a.columns[..9][8 - s];
      assert r.rows[i][8 - s] == a.rows[i][..9][8 - s];
    }
  }

  /** What the account step leaves in row i: ContaContabil first, holding
      the normalised code of the first configuration row that carries the
      row's code, then the other eight names, last first, each holding its
      value for the row's code and file name. */
  lemma EnrichAccountsSpec(base: seq<string>, t: Frame, config: Frame, i: nat)
    requires Rect(t) && Rect(config) && EnrichAccounts(base, t, config).Ok? && i < |t.rows|
    ensures Enrichable(t, config)
    ensures var r := EnrichAccounts(base, t, config).value;
      |r.rows| == |t.rows| && 9 <= |r.columns| && r.columns[0] == ContaContabil &&
      Ok(r.rows[i][0]) == AddConfiguratedColumn(Normalizado, config, CellOf(t, i, ContaContabil))
    ensures var r := EnrichAccounts(base, t, config).value;
      forall s :: 0 <= s < 8 ==> (r.columns[8 - s] == EnrichedNames[s] &&
        Ok(r.rows[i][8 - s]) == RowValue(EnrichedNames[s], config, CellOf(t, i, ContaContabil), CellOf(t, i, "file")))
  {
    EnrichedNamesDistinct();
    StepsRead(base, t, config, EnrichedNames);
    EnrichStepsSpec(base, t, config, EnrichedNames);
    var a := EnrichSteps(base, t, config, EnrichedNames).value;
    assert EnrichedNames[8] == Normalizado;
    FinishSpec(t, config, EnrichedNames, a, i);
  }

  /** The account step keeps every other column of the page, with its
      cells. */
  lemma EnrichAccountsKeeps(base: seq<string>, t: Frame, config: Frame)
    requires Rect(t) && Rect(config) && EnrichAccounts(base, t, config).Ok?
    ensures |EnrichAccounts(base, t, config).value.rows| == |t.rows|
    ensures KeepsCells(t, EnrichAccounts(base, t, config).value, [ContaContabil] + EnrichedNames)
  {
    EnrichedNamesDistinct();
    if |t.rows| > 0 {
      StepsRead(base, t, config, EnrichedNames);
    }
    EnrichStepsSpec(base, t, config, EnrichedNames);
    var a := EnrichSteps(base, t, config, EnrichedNames).value;
    var h := DropColumns(a, [ContaContabil]).value;
    var r := RenameColumn(h, Normalizado, ContaContabil);
    forall n | n in t.columns && n !in [ContaContabil] + EnrichedNames
      ensures n in r.columns
    {
      assert n in a.columns;
      DropRenameHas(a, n);
    }
    forall n, i | n in t.columns && n !in [ContaContabil] + EnrichedNames && 0 <= i < |t.rows|
      ensures CellOf(r, i, n) == CellOf(t, i, n)
    {
      assert n in a.columns && CellOf(a, i, n) == CellOf(t, i, n);
      DropKeeps(a, [ContaContabil], n, i);
      RenameKeeps(h, Normalizado, ContaContabil, n, i);
    }
  }

  /** A column other than the two the account step drops and renames
      survives both. */
  lemma DropRenameHas(a: Frame, n: string)
    requires Rect(a) && n in a.columns && n != ContaContabil && n != Normalizado && DropColumns(a, [ContaContabil]).Ok?
    ensures n in RenameColumn(DropColumns(a, [ContaContabil]).value, Normalizado, ContaContabil).columns
  {
    var h := DropColumns(a, [ContaContabil]).value;
    assert n in h.columns;
    var j :| 0 <= j < |h.columns| && h.columns[j] == n;
    assert RenameColumn(h, Normalizado, ContaContabil).columns[j] == n;
  }

  /** With a rename list and a configuration, the transform is the
      account step after the rename step, on the page with fillna(""). */
  lemma TransformBoth(t: Frame, config: Frame, units: seq<Cell>)
    requires Rect(t) && Rect(config) && units != [] && !Empty(config) && Transform(t, config, units).Ok?
    ensures RenameUnits(FillNa(t), units).Ok?
    ensures Transform(t, config, units) == EnrichAccounts(t.columns, RenameUnits(FillNa(t), units).value, config)
  {
  }

  /** A page transformed with both a rename list and a configuration: row
      i's ContaContabil holds the normalised code the configuration gives
      the code it had, missing cells read as "". */
  lemma TransformAccount(t: Frame, config: Frame, units: seq<Cell>, i: nat)
    requires Rect(t) && Rect(config) && units != [] && !Empty(config)
    requires Transform(t, config, units).Ok? && i < |t.rows|
    ensures ContaContabil in t.columns && Configured(config)
    ensures var r := Transform(t, config, units).value; var p := FillNa(t);
      ContaContabil in r.columns &&
      Ok(CellOf(r, i, ContaContabil)) == AddConfiguratedColumn(Normalizado, config, CellOf(p, i, ContaContabil))
  {
    var p := FillNa(t);
    TransformBoth(t, config, units);
    var u := RenameUnits(p, units).value;
    EnrichedNamesDistinct();
    RenameUnitsSpec(p, units, i);
    var r := EnrichAccounts(t.columns, u, config).value;
    EnrichAccountsSpec(t.columns, u, config, i);
    assert ColumnIndex(r.columns, ContaContabil) == Some(0);
    EnrichAccountsKeeps(t.columns, u, config);
    assert ContaContabil in u.columns;
    assert CellOf(u, i, ContaContabil) == CellOf(p, i, ContaContabil);
  }

  /** With a rename list, alone or with a configuration, row i's
      Participante is the renamed participant. */
  lemma TransformRenamed(t: Frame, config: Frame, units: seq<Cell>, i: nat)
    requires Rect(t) && Rect(config) && units != []
    requires Transform(t, config, units).Ok? && i < |t.rows|
    ensures "Participante" in t.columns
    ensures CellOf(FillNa(t), i, "Participante").Some? && Renamed(CellOf(FillNa(t), i, "Participante").value, units).Ok?
    ensures var r := Transform(t, config, units).value; var p := FillNa(t);
      "Participante" in r.columns &&
      CellOf(r, i, "Participante") == Some(Renamed(CellOf(p, i, "Participante").value, units).value)
  {
    var p := FillNa(t);
    if Empty(config) {
      RenameUnitsSpec(p, units, i);
    } else {
      TransformBoth(t, config, units);
      var u := RenameUnits(p, units).value;
      EnrichedNamesDistinct();
      RenameUnitsSpec(p, units, i);
      EnrichAccountsKeeps(t.columns, u, config);
      assert "Participante" !in [ContaContabil] + EnrichedNames;
    }
  }

  /** With a rename list, alone or with a configuration, every column of
      the page neither step writes keeps its cells, missing cells read as
      "". */
  lemma TransformKeeps(t: Frame, config: Frame, units: seq<Cell>, i: nat)
    requires Rect(t) && Rect(config) && units != []
    requires Transform(t, config, units).Ok? && i < |t.rows|
    ensures var r := Transform(t, config, units).value;
      forall n :: n in t.columns && n !in [ContaContabil, "Participante", "ParticipanteReview"] + EnrichedNames ==>
        n in r.columns
    ensures var r := Transform(t, config, units).value; var p := FillNa(t);
      forall n :: n in t.columns && n !in [ContaContabil, "Participante", "ParticipanteReview"] + EnrichedNames ==>
        CellOf(r, i, n) == CellOf(p, i, n)
  {
    var r := Transform(t, config, units).value;
    var p := FillNa(t);
    forall n | n in t.columns && n !in [ContaContabil, "Participante", "ParticipanteReview"] + EnrichedNames
      ensures n in r.columns && CellOf(r, i, n) == CellOf(p, i, n)
    {
      TransformKeepsColumn(t, config, units, i, n);
    }
  }

  /** One column neither step writes. */
  lemma TransformKeepsColumn(t: Frame, config: Frame, units: seq<Cell>, i: nat, n: string)
    requires Rect(t) && Rect(config) && units != []
    requires Transform(t, config, units).Ok? && i < |t.rows|
    requires n in t.columns && n !in [ContaContabil, "Participante", "ParticipanteReview"] + EnrichedNames
    ensures var r := Transform(t, config, units).value;
      n in r.columns && CellOf(r, i, n) == CellOf(FillNa(t), i, n)
  {
    var p := FillNa(t);
    if Empty(config) {
      RenameUnitsSpec(p, units, i);
    } else {
      TransformBoth(t, config, units);
      var u := RenameUnits(p, units).value;
      RenameUnitsSpec(p, units, i);
      EnrichAccountsKeeps(t.columns, u, config);
      assert n !in [ContaContabil] + EnrichedNames;
    }
  }

  // ---------------------------------------------------------------------
  // the transform, updating the page in place

  /** The rename step on the DataFrame: the reviewed participants inserted
      first as ParticipanteReview, Participante dropped, and the new column
      renamed Participante. */
  method ReviewParticipants(df: DataFrame, units: seq<Cell>) returns (err: Option<Error>)
    requires Rect(df.Value())
    modifies df
    ensures RenameUnits(old(df.Value()), units).Ok? ==> err.None? && df.Value() == RenameUnits(old(df.Value()), units).value
    ensures RenameUnits(old(df.Value()), units).Err? ==> err == Some(RenameUnits(old(df.Value()), units).error)
  {
    var review := ReviewColumn(df.Value(), units);
    if review.Err? {
      return Some(review.error);
    }
    err := df.InsertSeries(0, "ParticipanteReview", review.value);
    if err.Some? {
      return;
    }
    err := df.Drop(["Participante"]);
    if err.Some? {
      return;
    }
    df.Rename("ParticipanteReview", "Participante");
  }

  /** One turn of the loop on the DataFrame: the name's column dropped when
      the page as read had it, then the name's column inserted first. */
  method EnrichColumn(df: DataFrame, base: seq<string>, config: Frame, name: string) returns (err: Option<Error>)
    requires Rect(df.Value()) && Rect(config)
    modifies df
    ensures EnrichStep(base, old(df.Value()), config, name).Ok? ==>
      err.None? && df.Value() == EnrichStep(base, old(df.Value()), config, name).value
    ensures EnrichStep(base, old(df.Value()), config, name).Err? ==>
      err == Some(EnrichStep(base, old(df.Value()), config, name).error)
  {
    if name in base {
      err := df.Drop([name]);
      if err.Some? {
        return;
      }
    }
    var cells := EnrichedColumn(name, config, df.Value());
    if cells.Err? {
      return Some(cells.error);
    }
    err := df.InsertSeries(0, name, cells.value);
  }

  /** The loop over names on the DataFrame; the first error ends it. */
  method EnrichColumns(df: DataFrame, base: seq<string>, config: Frame, names: seq<string>) returns (err: Option<Error>)
    requires Rect(df.Value()) && Rect(config)
    modifies df
    ensures EnrichSteps(base, old(df.Value()), config, names).Ok? ==>
      err.None? && df.Value() == EnrichSteps(base, old(df.Value()), config, names).value
    ensures EnrichSteps(base, old(df.Value()), config, names).Err? ==>
      err == Some(EnrichSteps(base, old(df.Value()), config, names).error)
  {
    ghost var u := df.Value();
    var k := 0;
    assert names[..0] == [];
    while k < |names|
      invariant k <= |names| && Rect(df.Value())
      invariant EnrichSteps(base, u, config, names[..k]) == Ok(df.Value())
    {
      assert names[..k + 1][..k] == names[..k];
      err := EnrichColumn(df, base, config, names[k]);
      if err.Some? {
        StepsErrSticks(base, u, config, names, k + 1);
        return;
      }
      k := k + 1;
    }
    assert names[..k] == names;
    err := None;
  }

  /** transform_generated_analytical_data on the page as read: the
      DataFrame is rewritten in place, step by step, and the first error
      raised ends it. */
  method TransformGeneratedAnalyticalData(t: Frame, config: Frame, units: seq<Cell>) returns (r: Result<Frame>)
    requires Rect(t) && Rect(config)
    ensures r == Transform(t, config, units)
  {
    if units == [] && Empty(config) {
      return Ok(t);
    }
    var page := FillNa(t);
    var df := new DataFrame(page);
    if units != [] {
      var err := ReviewParticipants(df, units);
      if err.Some? {
        return Err(err.value);
      }
    }
    if Empty(config) {
      return Ok(df.Value());
    }
    var err := EnrichColumns(df, page.columns, config, EnrichedNames);
    if err.Some? {
      return Err(err.value);
    }
    err := df.Drop([ContaContabil]);
    if err.Some? {
      return Err(err.value);
    }
    df.Rename(Normalizado, ContaContabil);
    return Ok(df.Value());
  }
}
