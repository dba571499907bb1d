/** data_processing of the two ASCII-table decoders
    (src/processors/llmwhisperer_analytical.py:299-347 and
    src/analytical_v2.py:144-177): every decoded block is tagged with the
    account code and label of its title, the blocks are concatenated in
    dictionary order, the amount text is normalised and cast to Float64, and
    Data is cast with to_datetime.  Amounts are exact decimals here: the
    rounding to the nearest double is not modelled. */
module Ledger {
  import opened Wrappers
  import opened Text
  import opened Regexes
  import opened ExtractUtils
  import opened Kinds
  import opened Frames
  import opened TextBlocks

  /** What Python's float() gives for a str: a number, a signed infinity
      or NaN. */
  datatype Amount = Number(value: real) | Infinity(negative: bool) | NotANumber

  /** One output record: the date (None for NaT, which fillna("") turns into
      ""), Descricao, Participante, Documento and Periodo as text, the amount
      (never <NA>: fillna("") refuses to fill a Float64 column), the account
      label and code of the block, and, for the current decoder only, the
      file name. */
  datatype Record = Record(
    data: Option<Date>,
    descricao: string,
    participante: string,
    documento: string,
    periodo: string,
    valor: Amount,
    descritivo: string,
    conta: string,
    file: Option<string>)

  // ---------------------------------------------------------------------
  // the amount text

  /** .replace(r"\.", "", regex=True).replace(r",", ".", regex=True): the
      thousands separators removed, the decimal comma made a point. */
  function NormaliseAmount(s: string): (r: string)
    ensures ',' !in r
    ensures |r| == |s| - Count(s, '.')
  {
    var t := RemoveAll(s, '.');
    assert ',' !in ReplaceAll(t, ',', '.') by {
      forall i | 0 <= i < |t|
        ensures ReplaceAll(t, ',', '.')[i] != ','
      {
      }
    }
    ReplaceAll(t, ',', '.')
  }

  /** Every point of the result was a comma of the input. */
  lemma {:induction false} NormalisedPoints(s: string)
    ensures Count(NormaliseAmount(s), '.') == Count(s, ',')
  {
    var t := RemoveAll(s, '.');
    RemoveKeepsCommas(s);
    ReplaceCount(t);
  }

  lemma {:induction false} RemoveKeepsCommas(s: string)
    ensures Count(RemoveAll(s, '.'), ',') == Count(s, ',')
    ensures Count(RemoveAll(s, '.'), '.') == 0
  {
    if s != [] {
      var n := |s| - 1;
      RemoveKeepsCommas(s[..n]);
      var last: string := if s[n] == '.' then [] else [s[n]];
      assert RemoveAll(s, '.') == RemoveAll(s[..n], '.') + last;
      CountAppend(RemoveAll(s[..n], '.'), last, ',');
      CountAppend(RemoveAll(s[..n], '.'), last, '.');
      assert Count(last, ',') == if s[n] == ',' then 1 else 0 by {
        if last != [] { assert last[..0] == []; }
      }
      assert Count(last, '.') == 0 by {
        if last != [] { assert last[..0] == []; }
      }
    }
  }

  /** After replacing commas by points in a text without points, the
      points are exactly the former commas. */
  lemma {:induction false} ReplaceCount(t: string)
    requires Count(t, '.') == 0
    ensures Count(ReplaceAll(t, ',', '.'), '.') == Count(t, ',')
  {
    if t != [] {
      var n := |t| - 1;
      assert Count(t[..n], '.') == 0;
      ReplaceCount(t[..n]);
      var r := ReplaceAll(t, ',', '.');
      assert r[..n] == ReplaceAll(t[..n], ',', '.');
    }
  }

  /** The digits of the amount are kept, in order. */
  lemma {:induction false} NormalisedDigits(s: string)
    ensures DigitsOf(NormaliseAmount(s)) == DigitsOf(s)
  {
    RemoveKeepsDigits(s);
    ReplaceKeepsDigits(RemoveAll(s, '.'));
  }

  lemma {:induction false} RemoveKeepsDigits(s: string)
    ensures DigitsOf(RemoveAll(s, '.')) == DigitsOf(s)
  {
    if s != [] {
      var n := |s| - 1;
      RemoveKeepsDigits(s[..n]);
      var last: string := if s[n] == '.' then [] else [s[n]];
      assert RemoveAll(s, '.') == RemoveAll(s[..n], '.') + last;
      DigitsAppend(RemoveAll(s[..n], '.'), last);
      assert DigitsOf(last) == if IsDigit(s[n]) then [s[n]] else [] by {
        if last != [] { assert last[..0] == []; }
      }
    }
  }

  lemma {:induction false} ReplaceKeepsDigits(t: string)
    ensures DigitsOf(ReplaceAll(t, ',', '.')) == DigitsOf(t)
  {
    if t != [] {
      var n := |t| - 1;
      ReplaceKeepsDigits(t[..n]);
      var r := ReplaceAll(t, ',', '.');
      assert r[..n] == ReplaceAll(t[..n], ',', '.');
    }
  }

  // ---------------------------------------------------------------------
  // .astype(pd.Float64Dtype()): a str cell is read with Python's float(),
  // which raises ValueError on any other text; the model reads ASCII digits
  // only, where float() also reads every other Unicode decimal digit

  /** A digit part of a float literal: ASCII digits, with single
      underscores between two digits. */
  predicate DigitPart(s: string) {
    |s| > 0 && IsDigit(s[0]) && IsDigit(s[|s| - 1]) &&
    (forall i :: 0 <= i < |s| ==> IsDigit(s[i]) || s[i] == '_') &&
    (forall i :: 0 <= i < |s| - 1 ==> IsDigit(s[i]) || IsDigit(s[i + 1]))
  }

  function Pow10(n: nat): (r: real)
    ensures r >= 1.0
  {
    if n == 0 then 1.0 else 10.0 * Pow10(n - 1)
  }

  /** Ten to the power e, for any integer e. */
  function Scale(e: int): real {
    if e >= 0 then Pow10(e) else 1.0 / Pow10(-e)
  }

  /** The value of a digit part: its digits read in base ten. */
  function PartValue(s: string): nat {
    Val(DigitsOf(s))
  }

  /** Where the exponent starts: the first 'e' or 'E', or the end. */
  function ExponentIndex(s: string): (i: nat)
    ensures i <= |s|
    ensures forall j :: 0 <= j < i ==> s[j] != 'e' && s[j] != 'E'
    ensures i < |s| ==> s[i] == 'e' || s[i] == 'E'
  {
    if s == [] then 0
    else if s[0] == 'e' || s[0] == 'E' then 0
    else 1 + ExponentIndex(s[1..])
  }

  /** The part before the exponent: "ip", "ip.", ".fp" or "ip.fp". */
  function Mantissa(m: string): (r: Option<real>)
  {
    if '.' in m then
      var d := IndexOf(m, '.');
      var ip, fp := m[..d], m[d + 1..];
      if (ip == [] || DigitPart(ip)) && (fp == [] || DigitPart(fp)) && (ip != [] || fp != []) then
        Some(PartValue(ip) as real + PartValue(fp) as real / Pow10(|DigitsOf(fp)|))
      else None
    else if DigitPart(m) then Some(PartValue(m) as real)
    else None
  }

  /** The part after 'e': an optional sign and a digit part. */
  function Exponent(x: string): (r: Option<int>)
  {
    if |x| > 0 && (x[0] == '+' || x[0] == '-') then
      if DigitPart(x[1..]) then Some(if x[0] == '-' then -(PartValue(x[1..]) as int) else PartValue(x[1..])) else None
    else if DigitPart(x) then Some(PartValue(x))
    else None
  }

  /** An unsigned decimal literal with an optional exponent. */
  function Numeric(b: string): (r: Option<real>)
  {
    var e := ExponentIndex(b);
    match Mantissa(b[..e])
    case None => None
    case Some(m) =>
      if e == |b| then Some(m)
      else match Exponent(b[e + 1..])
        case None => None
        case Some(x) => Some(m * Scale(x))
  }

  /** b spells the lower-case ASCII word w in any case. */
  predicate NoCase(b: string, w: string) {
    |b| == |w| && forall i :: 0 <= i < |b| ==> b[i] == w[i] || b[i] as int == w[i] as int - 32
  }

  /** Python's float() of a str whose digits are ASCII: surrounding
      whitespace ignored, then Signed; None where float() raises
      ValueError. A text with a non-ASCII decimal digit, such as the
      Arabic-Indic "١٢٣.٤٥", is None here, though float() reads it. */
  function ParseFloat(s: string): (r: Option<Amount>)
  {
    Signed(Strip(s))
  }

  /** An optional sign, then "inf", "infinity", "nan" in any case, or a
      decimal literal. */
  function Signed(t: string): (r: Option<Amount>)
  {
    var neg := |t| > 0 && t[0] == '-';
    var b := if |t| > 0 && (t[0] == '+' || t[0] == '-') then t[1..] else t;
    if NoCase(b, "inf") || NoCase(b, "infinity") then Some(Infinity(neg))
    else if NoCase(b, "nan") then Some(NotANumber)
    else match Numeric(b)
      case None => None
      case Some(v) => Some(Number(if neg then -v else v))
  }

  /** A run of digits is its own digit part. */
  lemma DigitsArePart(a: string)
    requires a != [] && AllDigits(a)
    ensures DigitPart(a) && DigitsOf(a) == a
  {
    DigitsOfDigits(a);
  }

  lemma {:induction false} DigitsOfDigits(a: string)
    requires AllDigits(a)
    ensures DigitsOf(a) == a
  {
    if a != [] {
      var n := |a| - 1;
      DigitsOfDigits(a[..n]);
      assert IsDigit(a[n]);
      assert a[..n] + [a[n]] == a;
    }
  }

  /** A whole number reads as itself. */
  lemma IntegerValue(a: string)
    requires a != [] && AllDigits(a)
    ensures ParseFloat(a) == Some(Number(Val(a) as real))
  {
    StripOfStripped(a);
    DigitsArePart(a);
    NoExponent(a);
    assert Mantissa(a) == Some(Val(a) as real);
    assert Numeric(a) == Some(Val(a) as real);
    UnsignedSigned(a);
  }

  /** "a.c" reads as a plus c tenths-to-the-|c|. */
  lemma DecimalValue(a: string, c: string)
    requires a != [] && AllDigits(a) && c != [] && AllDigits(c)
    ensures ParseFloat(a + "." + c) == Some(Number(Decimal(a, c)))
  {
    var s := a + "." + c;
    assert s[0] == a[0] && s[|s| - 1] == c[|c| - 1];
    DecimalStrip(s);
    DecimalNumeric(a, c);
    UnsignedSigned(s);
  }

  /** A text with a digit at each end is read as its decimal literal. */
  lemma DecimalStrip(s: string)
    requires s != [] && IsDigit(s[0]) && IsDigit(s[|s| - 1])
    ensures ParseFloat(s) == Signed(s)
  {
    StripOfStripped(s);
  }

  lemma DecimalNumeric(a: string, c: string)
    requires a != [] && AllDigits(a) && c != [] && AllDigits(c)
    ensures Numeric(a + "." + c) == Some(Decimal(a, c))
  {
    var s := a + "." + c;
    assert forall i :: 0 <= i < |s| ==> s[i] != 'e' && s[i] != 'E' by {
      assert forall i :: 0 <= i < |s| ==> IsDigit(s[i]) || s[i] == '.';
    }
    NoExponent(s);
    DecimalMantissa(a, c);
  }

  lemma DecimalMantissa(a: string, c: string)
    requires a != [] && AllDigits(a) && c != [] && AllDigits(c)
    ensures Mantissa(a + "." + c) == Some(Decimal(a, c))
  {
    var s := a + "." + c;
    assert s[..|a|] == a;
    assert s[|a| + 1..] == c;
    MantissaAt(s, |a|);
  }

  /** A mantissa whose first point sits at d, with digits on both sides. */
  lemma MantissaAt(m: string, d: nat)
    requires d < |m| && m[d] == '.'
    requires m[..d] != [] && AllDigits(m[..d]) && m[d + 1..] != [] && AllDigits(m[d + 1..])
    ensures Mantissa(m) == Some(Decimal(m[..d], m[d + 1..]))
  {
    var ip, fp := m[..d], m[d + 1..];
    FirstPoint(m, d);
    DigitsArePart(ip);
    DigitsArePart(fp);
  }

  /** A point with only digits before it is the first point. */
  lemma FirstPoint(m: string, d: nat)
    requires d < |m| && m[d] == '.' && AllDigits(m[..d])
    ensures '.' in m && IndexOf(m, '.') == d
  {
    assert '.' !in m[..d] by {
      assert forall j :: 0 <= j < d ==> IsDigit(m[..d][j]);
    }
    IndexOfAt(m, '.', d);
  }

  /** The value of the literal "a.c". */
  function Decimal(a: string, c: string): real
    requires AllDigits(a) && AllDigits(c)
  {
    Val(a) as real + Val(c) as real / Pow10(|c|)
  }

  /** The first occurrence of c is where c occurs with none before. */
  lemma {:induction false} IndexOfAt(s: string, c: char, i: nat)
    requires i < |s| && s[i] == c && c !in s[..i]
    ensures c in s && IndexOf(s, c) == i
  {
    if i > 0 {
      assert s[1..][..i - 1] == s[..i][1..];
      IndexOfAt(s[1..], c, i - 1);
    }
  }

  /** A text starting with a digit has no sign and no infinity or NaN
      spelling: it is read as a decimal literal. */
  lemma UnsignedSigned(t: string)
    requires t != [] && IsDigit(t[0])
    ensures Signed(t) == match Numeric(t) case None => None case Some(v) => Some(Number(v))
  {
  }

  /** Without 'e' or 'E', the whole text is the mantissa. */
  lemma NoExponent(s: string)
    requires forall i :: 0 <= i < |s| ==> s[i] != 'e' && s[i] != 'E'
    ensures ExponentIndex(s) == |s| && s[..ExponentIndex(s)] == s
  {
  }

  /** A character that is not an ASCII digit, a sign, a point, an
      underscore, an exponent mark, a letter of "infinity" or "nan" or
      whitespace: the model's float() raises on it. For an ASCII character
      Python's float() raises too; a non-ASCII decimal digit is also
      Stray here, though float() reads it. */
  predicate Stray(c: char) {
    !IsDigit(c) && c !in "+-._eEinfatyINFATY" && !IsSpace(c)
  }

  /** A text holding a stray character, such as the "D" of "1234.56 D",
      is not a float. */
  lemma StrayFails(s: string, c: char)
    requires Stray(c) && c in s
    ensures ParseFloat(s) == None
  {
    StripKeeps(s, c);
    SignedStray(Strip(s), c);
  }

  /** An amount holding a stray character other than the comma, such as
      the "D" of "1.234,56 D", still holds it after normalisation, so the
      Float64 cast raises ValueError. */
  lemma NormalisedStrayFails(s: string, c: char)
    requires Stray(c) && c != ',' && c in s
    ensures ParseFloat(NormaliseAmount(s)) == None
  {
    RemoveKeeps(s, '.', c);
    var t := RemoveAll(s, '.');
    var k :| 0 <= k < |t| && t[k] == c;
    assert NormaliseAmount(s)[k] == c;
    StrayFails(NormaliseAmount(s), c);
  }

  /** "1.234,56 D" is one such amount. */
  lemma DebitMarkFails()
    ensures ParseFloat(NormaliseAmount("1.234,56 D")) == None
  {
    var s := "1.234,56 D";
    assert s[9] == 'D';
    NormalisedStrayFails(s, 'D');
  }

  lemma {:induction false} RemoveKeeps(s: string, c: char, x: char)
    requires x in s && x != c
    ensures x in RemoveAll(s, c)
  {
    var n := |s| - 1;
    if s[n] != x {
      assert x in s[..n] by {
        var k :| 0 <= k < |s| && s[k] == x;
        assert s[..n][k] == x;
      }
      RemoveKeeps(s[..n], c, x);
    }
  }

  /** A Brazilian amount "x.y,c" with one thousands point reads as the
      number xy.c. */
  lemma BrazilianAmount(x: string, y: string, c: string)
    requires x != [] && AllDigits(x) && y != [] && AllDigits(y) && c != [] && AllDigits(c)
    ensures NormaliseAmount(x + "." + y + "," + c) == x + y + "." + c
    ensures ParseFloat(NormaliseAmount(x + "." + y + "," + c)) == Some(Number(Decimal(x + y, c)))
  {
    BrazilianNormalised(x, y, c);
    DigitsJoin(x, y);
    DecimalValue(x + y, c);
  }

  lemma BrazilianNormalised(x: string, y: string, c: string)
    requires AllDigits(x) && AllDigits(y) && AllDigits(c)
    ensures NormaliseAmount(x + "." + y + "," + c) == x + y + "." + c
  {
    BrazilianPointsRemoved(x, y, c);
    DigitsJoin(x, y);
    ReplaceComma(x + y, c);
  }

  lemma BrazilianPointsRemoved(x: string, y: string, c: string)
    requires AllDigits(x) && AllDigits(y) && AllDigits(c)
    ensures RemoveAll(x + "." + y + "," + c, '.') == x + y + "," + c
  {
    RemoveAppend(x + "." + y + ",", c);
    RemoveAppend(x + "." + y, ",");
    RemoveAppend(x + ".", y);
    RemoveAppend(x, ".");
    RemovePoint();
    RemoveDigits(x);
    RemoveDigits(y);
    RemoveDigits(c);
    assert x + [] == x;
  }

  lemma DigitsJoin(x: string, y: string)
    requires AllDigits(x) && AllDigits(y)
    ensures AllDigits(x + y)
  {
    assert forall i :: 0 <= i < |x + y| ==> (x + y)[i] == if i < |x| then x[i] else y[i - |x|];
  }

  lemma RemovePoint()
    ensures RemoveAll(".", '.') == [] && RemoveAll(",", '.') == ","
  {
    assert "."[..0] == [] && ","[..0] == [];
  }

  lemma {:induction false} RemoveAppend(a: string, b: string)
    ensures RemoveAll(a + b, '.') == RemoveAll(a, '.') + RemoveAll(b, '.')
  {
    if b != [] {
      var n := |b| - 1;
      assert (a + b)[..|a + b| - 1] == a + b[..n];
      RemoveAppend(a, b[..n]);
    } else {
      assert a + b == a;
    }
  }

  lemma {:induction false} RemoveDigits(a: string)
    requires AllDigits(a)
    ensures RemoveAll(a, '.') == a
  {
    if a != [] {
      var n := |a| - 1;
      RemoveDigits(a[..n]);
      assert a[n] != '.';
      assert a[..n] + [a[n]] == a;
    }
  }

  lemma ReplaceComma(a: string, c: string)
    requires AllDigits(a) && AllDigits(c)
    ensures ReplaceAll(a + "," + c, ',', '.') == a + "." + c
  {
    var s, r := a + "," + c, ReplaceAll(a + "," + c, ',', '.');
    assert forall i :: 0 <= i < |s| ==> r[i] == (a + "." + c)[i];
  }

  lemma SignedStray(t: string, c: char)
    requires Stray(c) && c in t
    ensures Signed(t) == None
  {
    var b := if |t| > 0 && (t[0] == '+' || t[0] == '-') then t[1..] else t;
    var k :| 0 <= k < |t| && t[k] == c;
    var kb := if |t| > 0 && (t[0] == '+' || t[0] == '-') then k - 1 else k;
    assert 0 <= kb < |b| && b[kb] == c;
    StrayNoCase(b, kb, "inf");
    StrayNoCase(b, kb, "infinity");
    StrayNoCase(b, kb, "nan");
    NumericStray(b, kb);
  }

  /** A text holding a stray character spells no infinity or NaN. */
  lemma StrayNoCase(b: string, k: nat, w: string)
    requires k < |b| && Stray(b[k]) && w in {"inf", "infinity", "nan"}
    ensures !NoCase(b, w)
  {
    if |b| == |w| {
      assert b[k] != w[k] && b[k] as int != w[k] as int - 32;
    }
  }

  lemma NumericStray(b: string, k: nat)
    requires k < |b| && Stray(b[k])
    ensures Numeric(b) == None
  {
    var e := ExponentIndex(b);
    if k < e {
      MantissaStray(b[..e], k);
    } else {
      var x := b[e + 1..];
      assert k > e && x[k - e - 1] == b[k];
      assert forall j :: 1 <= j < |x| ==> x[1..][j - 1] == x[j];
    }
  }

  lemma MantissaStray(m: string, k: nat)
    requires k < |m| && Stray(m[k])
    ensures Mantissa(m) == None
  {
    if '.' in m {
      var d := IndexOf(m, '.');
      var ip, fp := m[..d], m[d + 1..];
      assert forall j :: 0 <= j < d ==> ip[j] == m[j];
      assert forall j :: d < j < |m| ==> fp[j - d - 1] == m[j];
    }
  }

  // ---------------------------------------------------------------------
  // pd.to_datetime(..., format="%d/%m/%Y")

  /** The strings pandas reads as NaT. */
  predicate NatString(s: string) {
    s == "" || s == "NaT" || s == "nat" || s == "NAT" || s == "nan" || s == "NaN" || s == "NAN"
  }

  /** A date whose midnight lies between the first and the last nanosecond
      Timestamp (1677-09-21 00:12:43 to 2262-04-11 23:47:16). */
  predicate InTimestampRange(d: Date) {
    var key := d.year * 10000 + d.month * 100 + d.day;
    16770922 <= key <= 22620411
  }

  /** to_datetime of one cell: a missing cell or a NaT spelling gives NaT
      (None); any other text must parse as strptime("%d/%m/%Y") does and
      fall in the Timestamp range, or the cast raises (ValueError, or its
      subclass OutOfBoundsDatetime). */
  function ToDatetime(c: Cell): (r: Result<Option<Date>>)
    ensures r.Ok? && r.value.Some? ==> c.Some? && Strptime(c.value) == r.value && InTimestampRange(r.value.value)
    ensures r.Ok? && r.value.None? ==> c.None? || NatString(c.value)
    ensures r.Err? ==> r.error == ValueError
  {
    match c
    case None => Ok(None)
    case Some(s) =>
      if NatString(s) then Ok(None)
      else match Strptime(s)
        case None => Err(ValueError)
        case Some(d) => if InTimestampRange(d) then Ok(Some(d)) else Err(ValueError)
  }

  /** A date validate accepts casts to the date strptime reads exactly
      when it lies in the Timestamp range; validate allows years from 1600
      to 9999, so the cast can still raise on a row the decoder kept. */
  lemma ValidatedDateCasts(s: string)
    requires Validate(s)
    ensures Strptime(s).Some?
    ensures ToDatetime(Some(s)) == if InTimestampRange(Strptime(s).value) then Ok(Strptime(s)) else Err(ValueError)
  {
    assert |s| == 10 by {
      ValidateIffCanonical(s);
    }
  }

  /** A validated date from a year before 1677 makes the cast raise. */
  lemma EarlyYearRaises(s: string)
    requires Validate(s) && Strptime(s).Some? && Strptime(s).value.year < 1677
    ensures ToDatetime(Some(s)) == Err(ValueError)
  {
    ValidatedDateCasts(s);
  }

  /** "01/01/1600" passes validate but not to_datetime. */
  lemma EarlyYearFails()
    ensures Validate("01/01/1600") && ToDatetime(Some("01/01/1600")) == Err(ValueError)
  {
    var s := "01/01/1600";
    EarlyYearCanonical(s);
    ValidateIffCanonical(s);
    CanonicalParses(s);
    EarlyYearRaises(s);
  }

  lemma EarlyYearCanonical(s: string)
    requires s == "01/01/1600"
    ensures Canonical(s) && Val(s[6..]) == 1600
  {
    assert s[6..] == "1600";
    Val4(s[6..]);
  }

  // ---------------------------------------------------------------------
  // tagging the blocks

  /** The account pattern of each decoder's data_processing. */
  function TitlePattern(version: Decoder): AccountPattern {
    match version
    case Current => LooseCode
    case Older => TwoDigitMinor
  }

  /** A cell as it reaches the output after fillna(""). */
  function CellText(c: Cell): string {
    match c
    case None => ""
    case Some(s) => s
  }

  /** The account code of a block titled key as it reaches the output: the
      current decoder casts the column with astype(str) before fillna, so a
      title that does not match gives "None"; the older one gives "". */
  function Conta(version: Decoder, key: string): string {
    match ExtractGroup(TitlePattern(version), key, 1)
    case Some(c) => c
    case None => if version == Current then "None" else ""
  }

  /** The account label of a block titled key, "" when the title does not
      match. */
  function Descritivo(version: Decoder, key: string): string {
    CellText(ExtractGroup(TitlePattern(version), key, 3))
  }

  /** Documento as it reaches the output: the current decoder casts it with
      astype(str) first, so a missing cell gives "nan". */
  function DocumentText(version: Decoder, c: Cell): string {
    match c
    case Some(s) => s
    case None => if version == Current then "nan" else ""
  }

  /** A decoded block, as from_ascii_table_to_dataframe returns it: the
      canonical names, or no column at all for a header without rows. */
  predicate Decoded(t: Frame) {
    Rect(t) && (t.columns == Columns || t.rows == [])
  }

  predicate AllDecoded(data: Dict<Frame>) {
    forall i :: 0 <= i < |data| ==> Decoded(data[i].1)
  }

  /** A row of the concatenated table: the title of its block and its six
      cells. */
  type Line = (string, seq<Cell>)

  /** The rows of one block, each with the block's title. */
  function BlockLines(key: string, t: Frame): (r: seq<Line>)
    requires Decoded(t)
    ensures |r| == |t.rows|
    ensures forall j :: 0 <= j < |r| ==> r[j] == (key, t.rows[j]) && |r[j].1| == |Columns|
  {
    seq(|t.rows|, j requires 0 <= j < |t.rows| => (key, t.rows[j]))
  }

  /** pd.concat of the blocks with ignore_index: their rows in dictionary
      order. */
  function Concat(data: Dict<Frame>): (r: seq<Line>)
    requires AllDecoded(data)
    ensures forall k :: 0 <= k < |r| ==> |r[k].1| == |Columns|
  {
    if data == [] then []
    else Concat(data[..|data| - 1]) + BlockLines(data[|data| - 1].0, data[|data| - 1].1)
  }

  /** The number of rows of the blocks. */
  function RowCount(data: Dict<Frame>): nat {
    if data == [] then 0 else RowCount(data[..|data| - 1]) + |data[|data| - 1].1.rows|
  }

  /** The line is row j of block i. */
  predicate FromSomeRow(data: Dict<Frame>, line: Line) {
    exists i, j :: 0 <= i < |data| && 0 <= j < |data[i].1.rows| && line == (data[i].0, data[i].1.rows[j])
  }

  /** Every line is one row of one block, with that block's title, and
      there is one line per row. */
  lemma {:induction false} ConcatSpec(data: Dict<Frame>)
    requires AllDecoded(data)
    ensures |Concat(data)| == RowCount(data)
    ensures forall k :: 0 <= k < |Concat(data)| ==> FromSomeRow(data, Concat(data)[k])
  {
    if data != [] {
      var n := |data| - 1;
      ConcatSpec(data[..n]);
      var front := Concat(data[..n]);
      var all := Concat(data);
      var block := BlockLines(data[n].0, data[n].1);
      assert all == front + block;
      forall k | 0 <= k < |all|
        ensures FromSomeRow(data, all[k])
      {
        if k < |front| {
          assert FromSomeRow(data[..n], front[k]);
          var i, j :| 0 <= i < n && 0 <= j < |data[..n][i].1.rows| && front[k] == (data[..n][i].0, data[..n][i].1.rows[j]);
          assert data[..n][i] == data[i];
          assert all[k] == front[k];
        } else {
          var j := k - |front|;
          assert all[k] == block[j] == (data[n].0, data[n].1.rows[j]);
        }
      }
    }
  }

  // ---------------------------------------------------------------------
  // the casts

  /** One Valor cell after the two replaces and the Float64 cast: a missing
      cell stays missing (<NA>). */
  function CastAmount(c: Cell): (r: Result<Option<Amount>>)
    ensures r.Err? <==> c.Some? && ParseFloat(NormaliseAmount(c.value)).None?
    ensures r.Err? ==> r.error == ValueError
  {
    match c
    case None => Ok(None)
    case Some(s) =>
      match ParseFloat(NormaliseAmount(s))
      case None => Err(ValueError)
      case Some(a) => Ok(Some(a))
  }

  /** The Valor column cast as a whole: ValueError when any cell fails. */
  function CastAmounts(lines: seq<Line>): (r: Result<seq<Option<Amount>>>)
    requires forall k :: 0 <= k < |lines| ==> |lines[k].1| == |Columns|
    ensures r.Ok? <==> forall k :: 0 <= k < |lines| ==> CastAmount(lines[k].1[5]).Ok?
    ensures r.Ok? ==> |r.value| == |lines| && forall k :: 0 <= k < |lines| ==> Ok(r.value[k]) == CastAmount(lines[k].1[5])
  {
    if forall k :: 0 <= k < |lines| ==> CastAmount(lines[k].1[5]).Ok? then
      Ok(seq(|lines|, k requires 0 <= k < |lines| => CastAmount(lines[k].1[5]).value))
    else Err(ValueError)
  }

  /** The Data column cast as a whole: ValueError when any cell fails. */
  function CastDates(lines: seq<Line>): (r: Result<seq<Option<Date>>>)
    requires forall k :: 0 <= k < |lines| ==> |lines[k].1| == |Columns|
    ensures r.Ok? <==> forall k :: 0 <= k < |lines| ==> ToDatetime(lines[k].1[0]).Ok?
    ensures r.Ok? ==> |r.value| == |lines| && forall k :: 0 <= k < |lines| ==> Ok(r.value[k]) == ToDatetime(lines[k].1[0])
  {
    if forall k :: 0 <= k < |lines| ==> ToDatetime(lines[k].1[0]).Ok? then
      Ok(seq(|lines|, k requires 0 <= k < |lines| => ToDatetime(lines[k].1[0]).value))
    else Err(ValueError)
  }

  /** The final fillna("") on the Float64 Valor column: the masked array
      refuses "" as a fill value, so one <NA> amount raises TypeError. */
  function FillAmounts(amounts: seq<Option<Amount>>): (r: Result<seq<Amount>>)
    ensures r.Ok? <==> forall k :: 0 <= k < |amounts| ==> amounts[k].Some?
    ensures r.Err? ==> r.error == TypeError
    ensures r.Ok? ==> |r.value| == |amounts| && forall k :: 0 <= k < |amounts| ==> amounts[k] == Some(r.value[k])
  {
    if forall k :: 0 <= k < |amounts| ==> amounts[k].Some? then
      Ok(seq(|amounts|, k requires 0 <= k < |amounts| => amounts[k].value))
    else Err(TypeError)
  }

  /** The output record of one line, given its cast amount and date. */
  function Render(version: Decoder, line: Line, amount: Amount, date: Option<Date>, file: string): Record
    requires |line.1| == |Columns|
  {
    var row := line.1;
    Record(date, CellText(row[1]), CellText(row[2]), DocumentText(version, row[3]), CellText(row[4]), amount,
      Descritivo(version, line.0), Conta(version, line.0), if version == Current then Some(file) else None)
  }

  /** The records of the cast lines. */
  function Assemble(version: Decoder, lines: seq<Line>, amounts: seq<Amount>, dates: seq<Option<Date>>, file: string): (r: seq<Record>)
    requires forall k :: 0 <= k < |lines| ==> |lines[k].1| == |Columns|
    requires |amounts| == |dates| == |lines|
    ensures |r| == |lines|
  {
    seq(|lines|, k requires 0 <= k < |lines| => Render(version, lines[k], amounts[k], dates[k], file))
  }

  // ---------------------------------------------------------------------
  // data_processing

  /** data_processing as written: the blocks concatenated, Valor cast, then
      (current decoder) the column ContaContabil read, which only the blocks
      add, so a page without blocks raises KeyError("ContaContabil"), then
      Data cast, then the fillna(""), which raises TypeError on a missing
      amount. */
  function DataProcessing(version: Decoder, data: Dict<Frame>, file: string): (r: Result<seq<Record>>)
    requires AllDecoded(data)
  {
    var lines := Concat(data);
    match CastAmounts(lines)
    case Err(e) => Err(e)
    case Ok(amounts) =>
      if version == Current && data == [] then Err(KeyError("ContaContabil"))
      else
        match CastDates(lines)
        case Err(e) => Err(e)
        case Ok(dates) =>
          match FillAmounts(amounts)
          case Err(e) => Err(e)
          case Ok(values) => Ok(Assemble(version, lines, values, dates, file))
  }

  /** data_processing as evidently intended: a page without blocks gives
      no record under both decoders. */
  function ProcessedRecords(version: Decoder, data: Dict<Frame>, file: string): (r: Result<seq<Record>>)
    requires AllDecoded(data)
    ensures data == [] ==> r == Ok([])
  {
    var lines := Concat(data);
    match CastAmounts(lines)
    case Err(e) => Err(e)
    case Ok(amounts) =>
      match CastDates(lines)
      case Err(e) => Err(e)
      case Ok(dates) =>
        match FillAmounts(amounts)
        case Err(e) => Err(e)
        case Ok(values) => Ok(Assemble(version, lines, values, dates, file))
  }

  /** Every Valor cell casts and every Data cell casts. */
  predicate CastsCleanly(lines: seq<Line>)
    requires forall k :: 0 <= k < |lines| ==> |lines[k].1| == |Columns|
  {
    forall k :: 0 <= k < |lines| ==> CastAmount(lines[k].1[5]).Ok? && ToDatetime(lines[k].1[0]).Ok?
  }

  /** Every line has a Valor cell. */
  predicate AmountsPresent(lines: seq<Line>)
    requires forall k :: 0 <= k < |lines| ==> |lines[k].1| == |Columns|
  {
    forall k :: 0 <= k < |lines| ==> lines[k].1[5].Some?
  }

  /** data_processing succeeds exactly when every amount and every date
      casts, no Valor cell is missing and, for the current decoder, the page
      has a block; an amount or date that does not cast raises ValueError,
      and otherwise a missing amount raises TypeError in the fillna. */
  lemma DataProcessingOk(version: Decoder, data: Dict<Frame>, file: string)
    requires AllDecoded(data)
    ensures DataProcessing(version, data, file).Ok? <==>
      CastsCleanly(Concat(data)) && AmountsPresent(Concat(data)) && (version == Current ==> data != [])
    ensures !CastsCleanly(Concat(data)) ==> DataProcessing(version, data, file) == Err(ValueError)
    ensures CastsCleanly(Concat(data)) && !AmountsPresent(Concat(data)) ==> DataProcessing(version, data, file) == Err(TypeError)
  {
    var lines := Concat(data);
    if CastsCleanly(lines) {
      CastsFill(lines);
    }
  }

  /** When every amount casts, the fillna succeeds exactly when no Valor
      cell is missing. */
  lemma CastsFill(lines: seq<Line>)
    requires forall k :: 0 <= k < |lines| ==> |lines[k].1| == |Columns|
    requires CastsCleanly(lines)
    ensures CastAmounts(lines).Ok? && CastDates(lines).Ok?
    ensures FillAmounts(CastAmounts(lines).value).Ok? <==> AmountsPresent(lines)
  {
    var amounts := CastAmounts(lines).value;
    forall k | 0 <= k < |lines|
      ensures amounts[k].Some? <==> lines[k].1[5].Some?
    {
      assert Ok(amounts[k]) == CastAmount(lines[k].1[5]);
    }
  }

  /** On success there is one record per row of the blocks, and record k
      holds line k's text cells, its block's account code and label, the
      float value of its normalised Valor and the date of its Data. */
  lemma DataProcessingRecords(version: Decoder, data: Dict<Frame>, file: string, k: nat)
    requires AllDecoded(data) && DataProcessing(version, data, file).Ok?
    ensures |DataProcessing(version, data, file).value| == RowCount(data)
    ensures k < RowCount(data) ==>
      var r := DataProcessing(version, data, file).value[k];
      var line := Concat(data)[k];
      && FromSomeRow(data, line)
      && Ok(Some(r.valor)) == CastAmount(line.1[5])
      && Ok(r.data) == ToDatetime(line.1[0])
      && r.descricao == CellText(line.1[1]) && r.participante == CellText(line.1[2])
      && r.documento == DocumentText(version, line.1[3]) && r.periodo == CellText(line.1[4])
      && r.conta == Conta(version, line.0) && r.descritivo == Descritivo(version, line.0)
  {
    ConcatSpec(data);
  }

  /** The two agree on every page with at least one block and under the
      older decoder; on a page without blocks the current decoder raises
      where the older one returns an empty table. */
  lemma DataProcessingAgrees(version: Decoder, data: Dict<Frame>, file: string)
    requires AllDecoded(data)
    ensures data != [] || version == Older <==> DataProcessing(version, data, file) == ProcessedRecords(version, data, file)
  {
  }

  /** A block titled "<code> - <label>" gives every one of its rows that
      code and that label. */
  lemma TitleTags(version: Decoder, code: string, tail: string)
    requires '\n' !in tail
    requires forall i :: 0 <= i < |code| ==> InClass(CodeClass(TitlePattern(version)), code[i])
    requires CodeShape(TitlePattern(version), code)
    ensures Conta(version, code + " - " + tail) == code && Descritivo(version, code + " - " + tail) == tail
  {
    ExtractGroupRoundTrip(TitlePattern(version), code, tail);
  }

  /** A title the older pattern rejects, such as "1.2 - Receitas" (one digit
      after the point), gives empty code and label. */
  lemma OlderShortMinor()
    ensures Conta(Older, "1.2 - Receitas") == "" && Descritivo(Older, "1.2 - Receitas") == ""
  {
    var s := "1.2 - Receitas";
    var n := RunEnd(s, 0, DigitOrDot);
    assert s[3] == ' ';
    RunEndUnique(s, 0, DigitOrDot, 3);
    assert !CodeShape(TwoDigitMinor, s[..3]) by {
      assert s[..3] == "1.2";
      assert RunEnd("1.2", 0, Digit) == 1 by {
        RunEndUnique("1.2", 0, Digit, 1);
      }
    }
    assert MatchAccount(TwoDigitMinor, s).None?;
  }

  /** data_processing: the concatenation loop over the blocks, then the
      column casts. */
  method ProcessBlocks(version: Decoder, data: Dict<Frame>, file: string) returns (r: Result<seq<Record>>)
    requires AllDecoded(data)
    ensures r == DataProcessing(version, data, file)
  {
    var lines: seq<Line> := [];
    var n := 0;
    while n < |data|
      invariant n <= |data| && lines == Concat(data[..n])
    {
      assert data[..n + 1][..n] == data[..n];
      lines := lines + BlockLines(data[n].0, data[n].1);
      n := n + 1;
    }
    assert data[..n] == data;
    var amounts := CastAmounts(lines);
    if amounts.Err? {
      return Err(amounts.error);
    }
    if version == Current && data == [] {
      return Err(KeyError("ContaContabil"));
    }
    var dates := CastDates(lines);
    if dates.Err? {
      return Err(dates.error);
    }
    var values := FillAmounts(amounts.value);
    if values.Err? {
      return Err(values.error);
    }
    return Ok(Assemble(version, lines, values.value, dates.value, file));
  }
}
