/** Date validation and title-group extraction (src/utils/extract_utils.py).

    validate(s) accepts s when three things hold: the date regex matches it,
    strptime(s, "%d/%m/%Y") parses it to a real calendar date, and strftime
    of that date with the same format gives back s exactly.  The main result
    of this module, ValidateIffCanonical, says which strings that leaves. */
module ExtractUtils {
  import opened Wrappers
  import opened Text
  import opened Regexes

  // ---------------------------------------------------------------------
  // digits and numbers

  /** Value of an ASCII digit. */
  function Dig(c: char): int {
    c as int - '0' as int
  }

  function DigitChar(n: nat): (c: char)
    requires n < 10
    ensures IsDigit(c) && Dig(c) == n
  {
    ('0' as int + n) as char
  }

  lemma DigitCharOfDig(c: char)
    requires IsDigit(c)
    ensures DigitChar(Dig(c) as nat) == c
  {
  }

  /** int() of an ASCII digit string. */
  function Val(s: string): nat
    requires AllDigits(s)
  {
    if s == [] then 0 else 10 * Val(s[..|s| - 1]) + Dig(s[|s| - 1])
  }

  lemma ValSnoc(s: string, c: char)
    requires AllDigits(s) && IsDigit(c)
    ensures Val(s + [c]) == 10 * Val(s) + Dig(c)
  {
    assert (s + [c])[..|s|] == s;
  }

  /** The value of a four-digit string, digit by digit. */
  lemma Val4(t: string)
    requires |t| == 4 && AllDigits(t)
    ensures Val(t) == 1000 * Dig(t[0]) + 100 * Dig(t[1]) + 10 * Dig(t[2]) + Dig(t[3])
  {
    ValSnoc([], t[0]);
    assert [t[0]] + [t[1]] == t[..2];
    ValSnoc([t[0]], t[1]);
    assert t[..2] + [t[2]] == t[..3];
    ValSnoc(t[..2], t[2]);
    assert t[..3] + [t[3]] == t;
    ValSnoc(t[..3], t[3]);
  }

  /** str() of a natural number: its decimal digits with no padding. */
  function Decimal(n: nat): (r: string)
    ensures |r| >= 1 && AllDigits(r)
    ensures Val(r) == n
  {
    if n < 10 then
      ValSnoc([], DigitChar(n));
      [DigitChar(n)]
    else
      ValSnoc(Decimal(n / 10), DigitChar(n % 10));
      Decimal(n / 10) + [DigitChar(n % 10)]
  }

  /** A digit string without a leading zero has a value of at least one. */
  lemma {:induction false} ValLeading(t: string)
    requires |t| >= 1 && AllDigits(t) && t[0] != '0'
    ensures Val(t) >= 1
  {
    if |t| > 1 {
      ValLeading(t[..|t| - 1]);
    }
  }

  /** str(int(t)) == t for a digit string without a leading zero. */
  lemma {:induction false} DecimalOfVal(t: string)
    requires |t| >= 1 && AllDigits(t) && t[0] != '0'
    ensures Decimal(Val(t)) == t
  {
    var c := t[|t| - 1];
    DigitCharOfDig(c);
    if |t| > 1 {
      var u := t[..|t| - 1];
      ValLeading(u);
      DecimalOfVal(u);
      assert u + [c] == t;
      ValSnoc(u, c);
      var n := Val(t);
      assert n / 10 == Val(u) && n % 10 == Dig(c);
    }
  }

  /** %d and %m of strftime: at least two digits, zero-padded. */
  function Pad2(n: nat): (r: string)
    ensures AllDigits(r) && Val(r) == n
    ensures n < 100 ==> |r| == 2
  {
    if n < 10 then
      ValSnoc([], '0');
      ValSnoc(['0'], DigitChar(n));
      ['0'] + [DigitChar(n)]
    else
      assert n < 100 ==> |Decimal(n / 10)| == 1;
      Decimal(n)
  }

  // ---------------------------------------------------------------------
  // the calendar

  predicate IsLeap(y: int) {
    y % 4 == 0 && (y % 100 != 0 || y % 400 == 0)
  }

  /** Days of month m (1 to 12) in year y of the proleptic Gregorian calendar. */
  function DaysInMonth(m: int, y: int): int {
    if m == 2 then (if IsLeap(y) then 29 else 28)
    else if m == 4 || m == 6 || m == 9 || m == 11 then 30
    else 31
  }

  datatype Date = Date(day: nat, month: nat, year: nat)

  // ---------------------------------------------------------------------
  // the date regex
  //   ^(?:(?:31(sep)(?:0?[13578]|1[02]))\1|(?:(?:29|30)(sep)(?:0?[13-9]|1[0-2])\2))YEAR$
  //   |^(?:29(sep)0?2\3LEAPYEAR)$
  //   |^(?:0?[1-9]|1\d|2[0-8])(sep)(?:0?[1-9]|1[0-2])\4YEAR$

  predicate NonZero(c: char) {
    '1' <= c <= '9'
  }

  predicate DateSep(c: char) {
    c == '/' || c == '-' || c == '.'
  }

  /** `0?[1-9]|1[0-2]` */
  predicate AnyMonth(t: string) {
    (|t| == 1 && NonZero(t[0])) ||
    (|t| == 2 && ((t[0] == '0' && NonZero(t[1])) || (t[0] == '1' && '0' <= t[1] <= '2')))
  }

  predicate LongMonthDigit(c: char) {
    c == '1' || c == '3' || c == '5' || c == '7' || c == '8'
  }

  /** `0?[13578]|1[02]`: the months with 31 days. */
  predicate Month31(t: string) {
    (|t| == 1 && LongMonthDigit(t[0])) ||
    (|t| == 2 && ((t[0] == '0' && LongMonthDigit(t[1])) || (t[0] == '1' && (t[1] == '0' || t[1] == '2'))))
  }

  /** `0?[13-9]|1[0-2]`: every month but February. */
  predicate Month30(t: string) {
    (|t| == 1 && NonZero(t[0]) && t[0] != '2') ||
    (|t| == 2 && ((t[0] == '0' && NonZero(t[1]) && t[1] != '2') || (t[0] == '1' && '0' <= t[1] <= '2')))
  }

  /** `0?2` */
  predicate February(t: string) {
    (|t| == 1 && t[0] == '2') || (|t| == 2 && t[0] == '0' && t[1] == '2')
  }

  /** `0?[1-9]|1\d|2[0-8]` */
  predicate LowDay(t: string) {
    (|t| == 1 && NonZero(t[0])) ||
    (|t| == 2 && ((t[0] == '0' && NonZero(t[1])) || (t[0] == '1' && IsDigit(t[1])) || (t[0] == '2' && '0' <= t[1] <= '8')))
  }

  predicate TwoChars(t: string, a: char, b: char) {
    |t| == 2 && t[0] == a && t[1] == b
  }

  /** `1[6-9]|[2-9]\d`: the centuries 16 to 99. */
  predicate Century(a: char, b: char) {
    (a == '1' && '6' <= b <= '9') || ('2' <= a <= '9' && IsDigit(b))
  }

  /** `(?:1[6-9]|[2-9]\d)?\d{2}` */
  predicate AnyYear(t: string) {
    (|t| == 2 && IsDigit(t[0]) && IsDigit(t[1])) ||
    (|t| == 4 && Century(t[0], t[1]) && IsDigit(t[2]) && IsDigit(t[3]))
  }

  predicate EvenDigit(c: char) {
    c == '2' || c == '4' || c == '6' || c == '8'
  }

  predicate LeapUnit(c: char) {
    c == '0' || c == '4' || c == '8'
  }

  /** `0[48]|[2468][048]|[13579][26]`: the two-digit multiples of 4 but 00. */
  predicate LeapTail(a: char, b: char) {
    (a == '0' && (b == '4' || b == '8')) ||
    (EvenDigit(a) && LeapUnit(b)) ||
    ((a == '1' || a == '3' || a == '5' || a == '7' || a == '9') && (b == '2' || b == '6'))
  }

  /** `16|[2468][048]|[3579][26]`: the centuries from 16 on that are multiples of 4. */
  predicate LeapCentury(a: char, b: char) {
    (a == '1' && b == '6') ||
    (EvenDigit(a) && LeapUnit(b)) ||
    ((a == '3' || a == '5' || a == '7' || a == '9') && (b == '2' || b == '6'))
  }

  /** `(?:1[6-9]|[2-9]\d)?(?:0[48]|[2468][048]|[13579][26])|(?:16|[2468][048]|[3579][26])00` */
  predicate LeapYearToken(t: string) {
    (|t| == 2 && LeapTail(t[0], t[1])) ||
    (|t| == 4 && Century(t[0], t[1]) && LeapTail(t[2], t[3])) ||
    (|t| == 4 && LeapCentury(t[0], t[1]) && t[2] == '0' && t[3] == '0')
  }

  /** The three alternatives of the regex, on the day, month and year parts. */
  predicate DateAlternatives(d: string, m: string, y: string) {
    (TwoChars(d, '3', '1') && Month31(m) && AnyYear(y)) ||
    ((TwoChars(d, '2', '9') || TwoChars(d, '3', '0')) && Month30(m) && AnyYear(y)) ||
    (TwoChars(d, '2', '9') && February(m) && LeapYearToken(y)) ||
    (LowDay(d) && AnyMonth(m) && AnyYear(y))
  }

  /** The regex against the whole of s: digits, a separator, digits, the same
      separator, digits to the end.  Every alternative has that shape, and the
      digit runs cannot be split another way because separators are not digits. */
  predicate DateShape(s: string) {
    var i := RunEnd(s, 0, Digit);
    i < |s| && DateSep(s[i]) &&
    var j := RunEnd(s, i + 1, Digit);
    j < |s| && s[j] == s[i] && AllDigits(s[j + 1..]) &&
    DateAlternatives(s[..i], s[i + 1..j], s[j + 1..])
  }

  /** re.match of the date regex: `$` also matches before a final line break. */
  predicate DatePattern(s: string) {
    DateShape(s) || (s != [] && s[|s| - 1] == '\n' && DateShape(s[..|s| - 1]))
  }

  // ---------------------------------------------------------------------
  // strptime and strftime with "%d/%m/%Y"

  /** `%d`: `3[01]|[12]\d|0[1-9]|[1-9]| [1-9]` */
  predicate DayToken(t: string) {
    (|t| == 1 && NonZero(t[0])) ||
    (|t| == 2 && ((t[0] == '3' && '0' <= t[1] <= '1') || ('1' <= t[0] <= '2' && IsDigit(t[1]))
                  || (t[0] == '0' && NonZero(t[1])) || (t[0] == ' ' && NonZero(t[1]))))
  }

  /** `%m`: `1[0-2]|0[1-9]|[1-9]` */
  predicate MonthToken(t: string) {
    AnyMonth(t)
  }

  /** The number a day or month token stands for. */
  function TokenValue(t: string): (n: nat)
    requires DayToken(t) || MonthToken(t)
    ensures DayToken(t) ==> 1 <= n <= 31
    ensures MonthToken(t) ==> 1 <= n <= 12
  {
    if |t| == 1 then Dig(t[0])
    else if t[0] == ' ' then Dig(t[1])
    else 10 * Dig(t[0]) + Dig(t[1])
  }

  /** datetime.strptime(s, "%d/%m/%Y"), None where it raises ValueError: the
      day and month tokens between the two slashes, exactly four year digits
      ending the string, a year from 1 and a day the month has. */
  function Strptime(s: string): (r: Option<Date>)
    ensures r.Some? ==> 1 <= r.value.month <= 12 && 1 <= r.value.year
    ensures r.Some? ==> 1 <= r.value.day <= DaysInMonth(r.value.month, r.value.year)
  {
    var parts := SplitOn(s, '/');
    if |parts| == 3 && DayToken(parts[0]) && MonthToken(parts[1]) && |parts[2]| == 4 && AllDigits(parts[2]) then
      var d, m, y := TokenValue(parts[0]), TokenValue(parts[1]), Val(parts[2]);
      if 1 <= y && d <= DaysInMonth(m, y) then Some(Date(d, m, y)) else None
    else None
  }

  /** date.strftime("%d/%m/%Y"); %Y prints the year without padding. */
  function Strftime(dt: Date): string {
    Join("/", [Pad2(dt.day), Pad2(dt.month), Decimal(dt.year)])
  }

  /** validate(date_text). */
  predicate Validate(s: string) {
    DatePattern(s) &&
    match Strptime(s)
    case None => false
    case Some(dt) => Strftime(dt) == s
  }

  /** The strings validate accepts, described directly: "DD/MM/YYYY" with
      slashes, two-digit day and month, a four-digit year from 1600 and a day
      the month has in the Gregorian calendar. */
  predicate Canonical(s: string) {
    |s| == 10 && s[2] == '/' && s[5] == '/' &&
    IsDigit(s[0]) && IsDigit(s[1]) && IsDigit(s[3]) && IsDigit(s[4]) && AllDigits(s[6..]) &&
    var d := 10 * Dig(s[0]) + Dig(s[1]);
    var m := 10 * Dig(s[3]) + Dig(s[4]);
    var y := Val(s[6..]);
    1600 <= y && 1 <= m <= 12 && 1 <= d <= DaysInMonth(m, y)
  }

  // ---------------------------------------------------------------------
  // proof that Validate and Canonical agree

  /** The spelling of the two-digit multiples of four, by the parity of the
      tens digit. */
  lemma MultipleOfFourSpelling(a: char, b: char)
    requires IsDigit(a) && IsDigit(b)
    requires (10 * Dig(a) + Dig(b)) % 4 == 0
    ensures (a == '0' && b == '0') || LeapTail(a, b)
    ensures Century(a, b) ==> LeapCentury(a, b)
  {
    var k, u := Dig(a), Dig(b);
    var j := k / 2;
    if k % 2 == 0 {
      assert 10 * k + u == 4 * (5 * j) + u;
      assert u % 4 == 0;
    } else {
      assert 10 * k + u == 4 * (5 * j + 2) + (u + 2);
      assert (u + 2) % 4 == 0;
    }
  }

  /** Leap years by century and year of the century. */
  lemma LeapByParts(c: int, l: int)
    requires 0 <= c && 0 <= l < 100
    ensures IsLeap(100 * c + l) <==> (l != 0 && l % 4 == 0) || (l == 0 && c % 4 == 0)
  {
    var y := 100 * c + l;
    assert y == 4 * (25 * c) + l;
    assert y % 100 == l;
    if l == 0 {
      assert y == 400 * (c / 4) + 100 * (c % 4);
    }
  }

  /** A leap year from 1600 on spells as a leap-year token. */
  lemma LeapYearSpelling(t: string)
    requires |t| == 4 && AllDigits(t) && Century(t[0], t[1])
    requires IsLeap(Val(t))
    ensures LeapYearToken(t)
  {
    Val4(t);
    var c := 10 * Dig(t[0]) + Dig(t[1]);
    var l := 10 * Dig(t[2]) + Dig(t[3]);
    LeapByParts(c, l);
    if l == 0 {
      MultipleOfFourSpelling(t[0], t[1]);
    } else {
      MultipleOfFourSpelling(t[2], t[3]);
    }
  }

  /** With a four-digit year every alternative of the regex asks for a
      century from 16 on. */
  lemma AlternativesCentury(d: string, m: string, y: string)
    requires DateAlternatives(d, m, y) && |y| == 4
    ensures Century(y[0], y[1])
  {
  }

  predicate DigitsAndSlashes(s: string) {
    |s| == 10 && s[2] == '/' && s[5] == '/' &&
    IsDigit(s[0]) && IsDigit(s[1]) && IsDigit(s[3]) && IsDigit(s[4]) && AllDigits(s[6..])
  }

  /** The separator-free pieces of a "DD/MM/YYYY" string. */
  lemma Pieces(s: string)
    requires DigitsAndSlashes(s)
    ensures SplitOn(s, '/') == [s[..2], s[3..5], s[6..]]
    ensures RunEnd(s, 0, Digit) == 2 && RunEnd(s, 3, Digit) == 5
  {
    var parts := [s[..2], s[3..5], s[6..]];
    assert parts[1..] == [s[3..5], s[6..]];
    assert parts[1..][1..] == [s[6..]];
    assert Join("/", parts[1..][1..]) == s[6..];
    assert Join("/", parts[1..]) == s[3..5] + "/" + s[6..];
    assert Join("/", parts) == s[..2] + "/" + (s[3..5] + "/" + s[6..]);
    assert s == Join("/", parts);
    assert forall k :: 0 <= k < |s[6..]| ==> IsDigit(s[6..][k]);
    assert forall i :: 0 <= i < 3 ==> '/' !in parts[i];
    SplitOfJoin(parts, '/');
    RunEndUnique(s, 0, Digit, 2);
    RunEndUnique(s, 3, Digit, 5);
  }

  /** A two-digit token is what strftime prints for its value. */
  lemma Pad2OfDigits(t: string)
    requires |t| == 2 && IsDigit(t[0]) && IsDigit(t[1])
    ensures Val(t) == 10 * Dig(t[0]) + Dig(t[1])
    ensures Pad2(Val(t)) == t
  {
    ValSnoc([], t[0]);
    assert [t[0]] + [t[1]] == t;
    ValSnoc([t[0]], t[1]);
    DigitCharOfDig(t[1]);
    if t[0] != '0' {
      DecimalOfVal(t);
    }
  }

  /** A calendar-valid day, month and four-digit year from 1600 on, spelled
      with two-digit day and month, is one of the regex's alternatives. */
  lemma CalendarAlternatives(dd: string, mm: string, yy: string)
    requires |dd| == 2 && IsDigit(dd[0]) && IsDigit(dd[1])
    requires |mm| == 2 && IsDigit(mm[0]) && IsDigit(mm[1])
    requires |yy| == 4 && AllDigits(yy) && 1600 <= Val(yy)
    requires 1 <= 10 * Dig(mm[0]) + Dig(mm[1]) <= 12
    requires 1 <= 10 * Dig(dd[0]) + Dig(dd[1]) <= DaysInMonth(10 * Dig(mm[0]) + Dig(mm[1]), Val(yy))
    ensures DateAlternatives(dd, mm, yy)
  {
    var d := 10 * Dig(dd[0]) + Dig(dd[1]);
    var m := 10 * Dig(mm[0]) + Dig(mm[1]);
    Val4(yy);
    assert AnyYear(yy);
    if d <= 28 {
      assert LowDay(dd) && AnyMonth(mm);
    } else if d == 31 {
      assert Month31(mm);
    } else if m == 2 {
      LeapYearSpelling(yy);
      assert TwoChars(dd, '2', '9') && February(mm);
    } else {
      assert Month30(mm);
    }
  }

  /** The regex accepts every canonical date. */
  lemma CanonicalMatches(s: string)
    requires Canonical(s)
    ensures DateShape(s)
  {
    Pieces(s);
    var dd, mm, yy := s[..2], s[3..5], s[6..];
    assert dd[0] == s[0] && dd[1] == s[1] && mm[0] == s[3] && mm[1] == s[4];
    CalendarAlternatives(dd, mm, yy);
  }

  /** strptime reads a canonical date as its day, month and year. */
  lemma CanonicalParses(s: string)
    requires Canonical(s)
    ensures Strptime(s) == Some(Date(Val(s[..2]), Val(s[3..5]), Val(s[6..])))
  {
    Pieces(s);
    CanonicalTokens(s);
  }

  /** The day and month of a canonical date are %d and %m tokens worth
      their two digits, and the year is four digits. */
  lemma CanonicalTokens(s: string)
    requires Canonical(s)
    ensures DayToken(s[..2]) && TokenValue(s[..2]) == Val(s[..2]) == 10 * Dig(s[0]) + Dig(s[1])
    ensures MonthToken(s[3..5]) && TokenValue(s[3..5]) == Val(s[3..5]) == 10 * Dig(s[3]) + Dig(s[4])
    ensures |s[6..]| == 4 && AllDigits(s[6..])
  {
    var dd, mm := s[..2], s[3..5];
    Pad2OfDigits(dd);
    Pad2OfDigits(mm);
  }

  /** strftime prints a canonical date back as the same string. */
  lemma CanonicalPrints(s: string)
    requires Canonical(s)
    ensures Strftime(Date(Val(s[..2]), Val(s[3..5]), Val(s[6..]))) == s
  {
    var dd, mm, yy := s[..2], s[3..5], s[6..];
    Pad2OfDigits(dd);
    Pad2OfDigits(mm);
    Val4(yy);
    DecimalOfVal(yy);
    var p := [Pad2(Val(dd)), Pad2(Val(mm)), Decimal(Val(yy))];
    assert p[1..] == [mm, yy];
    assert p[1..][1..] == [yy];
    assert Join("/", p[1..][1..]) == yy;
    assert Join("/", p[1..]) == mm + "/" + yy;
    assert Join("/", p) == dd + "/" + (mm + "/" + yy);
  }

  /** Canonical dates pass validate. */
  lemma CanonicalValidates(s: string)
    requires Canonical(s)
    ensures Validate(s)
  {
    CanonicalMatches(s);
    CanonicalParses(s);
    CanonicalPrints(s);
  }

  /** What strptime accepted and strftime printed back unchanged has the
      digits-and-slashes shape. */
  lemma RoundTripShape(s: string, dt: Date)
    requires Strptime(s) == Some(dt) && Strftime(dt) == s
    ensures DigitsAndSlashes(s)
    ensures s[..2] == Pad2(dt.day) && s[3..5] == Pad2(dt.month) && s[6..] == Decimal(dt.year)
  {
    PrintedSplit(dt);
    assert |SplitOn(s, '/')[2]| == 4;
    PrintedShape(dt);
  }

  /** The printed date splits back into its three fields. */
  lemma PrintedSplit(dt: Date)
    requires dt.day < 100 && dt.month < 100
    ensures SplitOn(Strftime(dt), '/') == [Pad2(dt.day), Pad2(dt.month), Decimal(dt.year)]
  {
    var p := [Pad2(dt.day), Pad2(dt.month), Decimal(dt.year)];
    assert forall k :: 0 <= k < |p[2]| ==> IsDigit(p[2][k]);
    assert forall i :: 0 <= i < 3 ==> '/' !in p[i];
    SplitOfJoin(p, '/');
  }

  /** A printed date with a four-digit year is "DD/MM/YYYY". */
  lemma PrintedShape(dt: Date)
    requires dt.day < 100 && dt.month < 100 && |Decimal(dt.year)| == 4
    ensures DigitsAndSlashes(Strftime(dt))
    ensures var s := Strftime(dt);
      s[..2] == Pad2(dt.day) && s[3..5] == Pad2(dt.month) && s[6..] == Decimal(dt.year)
  {
    var p := [Pad2(dt.day), Pad2(dt.month), Decimal(dt.year)];
    var s := Strftime(dt);
    assert p[1..] == [p[1], p[2]];
    assert p[1..][1..] == [p[2]];
    assert Join("/", p[1..]) == p[1] + "/" + Join("/", [p[2]]);
    assert s == p[0] + "/" + Join("/", p[1..]);
    assert s[..2] == p[0] && s[3..5] == p[1] && s[6..] == p[2];
  }

  /** Whatever validate accepts is canonical. */
  lemma ValidatedIsCanonical(s: string)
    requires Validate(s)
    ensures Canonical(s)
  {
    var dt := Strptime(s).value;
    RoundTripShape(s, dt);
    assert s[9] != '\n';
    assert DateShape(s);
    Pieces(s);
    AlternativesCentury(s[..2], s[3..5], s[6..]);
    Val4(s[6..]);
    Pad2OfDigits(s[..2]);
    Pad2OfDigits(s[3..5]);
    CanonicalOf(s, dt.day, dt.month, dt.year);
  }

  /** A digits-and-slashes string whose fields read as a calendar date from
      1600 on is canonical. */
  lemma CanonicalOf(s: string, d: int, m: int, y: int)
    requires DigitsAndSlashes(s)
    requires 10 * Dig(s[0]) + Dig(s[1]) == d && 10 * Dig(s[3]) + Dig(s[4]) == m && Val(s[6..]) == y
    requires 1600 <= y && 1 <= m <= 12 && 1 <= d <= DaysInMonth(m, y)
    ensures Canonical(s)
  {
  }

  /** validate accepts exactly the calendar-valid "DD/MM/YYYY" dates with
      slashes, zero-padded day and month and a year from 1600 to 9999.  Other
      separators and unpadded fields pass the regex but fail the strptime and
      strftime round trip; impossible days fail strptime. */
  lemma ValidateIffCanonical(s: string)
    ensures Validate(s) <==> Canonical(s)
  {
    if Validate(s) {
      ValidatedIsCanonical(s);
    }
    if Canonical(s) {
      CanonicalValidates(s);
    }
  }

  /** An unpadded date passes the regex but not the round trip. */
  lemma UnpaddedPassesRegexOnly(s: string)
    requires s == "1/1/2020"
    ensures DatePattern(s) && !Validate(s)
  {
    ValidateIffCanonical(s);
    RunEndUnique(s, 0, Digit, 1);
    RunEndUnique(s, 2, Digit, 3);
    assert s[..1] == "1" && s[2..3] == "1" && s[4..] == "2020";
    assert DateAlternatives(s[..1], s[2..3], s[4..]);
  }

  /** A dash-separated date passes the regex but not the round trip. */
  lemma DashesPassRegexOnly(s: string)
    requires s == "01-01-2020"
    ensures DatePattern(s) && !Validate(s)
  {
    ValidateIffCanonical(s);
    RunEndUnique(s, 0, Digit, 2);
    RunEndUnique(s, 3, Digit, 5);
    assert s[..2] == "01" && s[3..5] == "01" && s[6..] == "2020";
    assert DateAlternatives(s[..2], s[3..5], s[6..]);
  }

  /** 29 February 2024 exists. */
  lemma LeapDayAccepted(s: string)
    requires s == "29/02/2024"
    ensures Validate(s)
  {
    Val4(s[6..]);
    assert Val(s[6..]) == 2024;
    assert Canonical(s);
    CanonicalValidates(s);
  }

  /** 29 February 2023 does not. */
  lemma CommonYearLeapDayRejected(s: string)
    requires s == "29/02/2023"
    ensures !Validate(s)
  {
    ValidateIffCanonical(s);
    Val4(s[6..]);
    assert Val(s[6..]) == 2023 && !IsLeap(2023);
  }

  /** 31 February never exists. */
  lemma ThirtyFirstOfFebruaryRejected(s: string)
    requires s == "31/02/2024"
    ensures !Validate(s)
  {
    ValidateIffCanonical(s);
  }

  // ---------------------------------------------------------------------
  // extract_group_from_contacontabilcompleto

  /** extract_group_from_contacontabilcompleto(pattern, s, group): None when
      the pattern does not match at the start of s, None when the group number
      exceeds the pattern's three groups, the group's text otherwise. */
  function ExtractGroup(p: AccountPattern, s: string, group: nat): (r: Option<string>)
    ensures MatchAccount(p, s).None? ==> r.None?
    ensures r.Some? <==> MatchAccount(p, s).Some? && group <= 3
    ensures MatchAccount(p, s).Some? && group == 1 ==> r == Some(MatchAccount(p, s).value.code)
    ensures MatchAccount(p, s).Some? && group == 3 ==> r == Some(MatchAccount(p, s).value.rest)
  {
    match MatchAccount(p, s)
    case None => None
    case Some(g) => GroupOf(g, group)
  }

  /** Code and label put together into a title come back out as groups 1
      and 3. */
  lemma ExtractGroupRoundTrip(p: AccountPattern, code: string, tail: string)
    requires forall i :: 0 <= i < |code| ==> InClass(CodeClass(p), code[i])
    requires CodeShape(p, code)
    requires '\n' !in tail
    ensures ExtractGroup(p, code + " - " + tail, 1) == Some(code)
    ensures ExtractGroup(p, code + " - " + tail, 3) == Some(tail)
  {
    MatchAccountCompose(p, code, tail);
  }
}
