/** Hand-written recognisers for the regular expressions the pipeline uses.
    Each one reproduces the outcome of Python's re.match / re.search on that
    one pattern, including where backtracking and `$` (end of string, or just
    before a final line break) matter.  `\d` is read as the ASCII digits. */
module Regexes {
  import opened Wrappers
  import opened Text

  /** The character classes that occur in the patterns. */
  datatype CharClass =
    | Digit             // \d, [0-9]
    | DigitOrDot        // [0-9.]
    | DigitDotPlus      // [\.\d+]
    | DigitDotBracket   // [\.[0-9]   (a '[' inside the class is literal)
    | Blank             // [ ]
    | CloseBracket      // \]

  predicate InClass(k: CharClass, c: char) {
    match k
    case Digit => IsDigit(c)
    case DigitOrDot => IsDigit(c) || c == '.'
    case DigitDotPlus => IsDigit(c) || c == '.' || c == '+'
    case DigitDotBracket => IsDigit(c) || c == '.' || c == '['
    case Blank => c == ' '
    case CloseBracket => c == ']'
  }

  /** End of the longest run of class-k characters that starts at i. */
  function RunEnd(s: string, i: nat, k: CharClass): (j: nat)
    requires i <= |s|
    ensures i <= j <= |s|
    ensures forall n :: i <= n < j ==> InClass(k, s[n])
    ensures j == |s| || !InClass(k, s[j])
    decreases |s| - i
  {
    if i < |s| && InClass(k, s[i]) then RunEnd(s, i + 1, k) else i
  }

  /** The longest run is the only run that cannot be extended. */
  lemma RunEndUnique(s: string, i: nat, k: CharClass, j: nat)
    requires i <= j <= |s|
    requires forall n :: i <= n < j ==> InClass(k, s[n])
    requires j == |s| || !InClass(k, s[j])
    ensures RunEnd(s, i, k) == j
  {
  }

  /** Length of the run of digits that ends s. */
  function TrailingDigits(s: string): (k: nat)
    ensures k <= |s|
    ensures forall i :: |s| - k <= i < |s| ==> IsDigit(s[i])
    ensures k == |s| || !IsDigit(s[|s| - k - 1])
  {
    if s != [] && IsDigit(s[|s| - 1]) then 1 + TrailingDigits(s[..|s| - 1]) else 0
  }

  /** The trailing digit run is the only digit suffix that cannot be extended. */
  lemma {:induction false} TrailingDigitsUnique(s: string, k: nat)
    requires k <= |s|
    requires forall i :: |s| - k <= i < |s| ==> IsDigit(s[i])
    requires k == |s| || !IsDigit(s[|s| - k - 1])
    ensures TrailingDigits(s) == k
  {
    if k > 0 {
      var t := s[..|s| - 1];
      assert forall i :: |t| - (k - 1) <= i < |t| ==> t[i] == s[i];
      TrailingDigitsUnique(t, k - 1);
    }
  }

  // ---------------------------------------------------------------------
  // account titles: ^(code)( - )(.*$)

  /** The three account-title patterns `^(code)( - )(.*$)`; they differ only in
      the code part. */
  datatype AccountPattern =
    | DottedCode      // \d+\.\d[0-9.]*   (row classifiers)
    | LooseCode       // \d+[\.\d+]*      (current ASCII-table decoder)
    | TwoDigitMinor   // \d+\.\d[0-9]+    (older ASCII-table decoder)

  /** The three capture groups of a successful match. */
  datatype Groups = Groups(code: string, sep: string, rest: string)

  /** The class every character of a code belongs to. */
  function CodeClass(p: AccountPattern): CharClass {
    match p
    case LooseCode => DigitDotPlus
    case _ => DigitOrDot
  }

  /** Whether a maximal run of CodeClass(p) characters is a code of pattern p. */
  predicate CodeShape(p: AccountPattern, c: string) {
    match p
    case LooseCode => |c| >= 1 && IsDigit(c[0])
    case DottedCode =>
      var a := RunEnd(c, 0, Digit);
      1 <= a && a + 1 < |c| && c[a] == '.' && IsDigit(c[a + 1])
    case TwoDigitMinor =>
      var a := RunEnd(c, 0, Digit);
      1 <= a && a + 2 < |c| && c[a] == '.' && RunEnd(c, a + 1, Digit) == |c|
  }

  /** `(.*$)` without MULTILINE: the rest when it holds no line break, or the
      rest without its single final line break. */
  function DollarTail(t: string): (r: Option<string>)
    ensures r.Some? ==> '\n' !in r.value && (t == r.value || t == r.value + "\n")
    ensures r.None? ==> exists i :: 0 <= i < |t| - 1 && t[i] == '\n'
  {
    if '\n' !in t then Some(t)
    else if t[|t| - 1] == '\n' && '\n' !in t[..|t| - 1] then
      assert t == t[..|t| - 1] + "\n";
      Some(t[..|t| - 1])
    else
      var i := IndexOf(t, '\n');
      assert i < |t| - 1 by {
        if t[|t| - 1] == '\n' {
          var k :| 0 <= k < |t| - 1 && t[..|t| - 1][k] == '\n';
          assert IndexOf(t, '\n') <= k;
        }
      }
      None
  }

  /** re.match of an account pattern. */
  function MatchAccount(p: AccountPattern, s: string): (r: Option<Groups>)
    ensures r.Some? ==> r.value.sep == " - " && CodeShape(p, r.value.code)
    ensures r.Some? ==> '\n' !in r.value.rest
    ensures r.Some? ==>
      s == r.value.code + " - " + r.value.rest || s == r.value.code + " - " + r.value.rest + "\n"
  {
    var n := RunEnd(s, 0, CodeClass(p));
    MatchAfterCode(s, n, CodeShape(p, s[..n]))
  }

  /** The rest of a match once the code run s[..n] is known, and whether it
      has the pattern's shape: " - " then `(.*$)`. */
  function MatchAfterCode(s: string, n: nat, shaped: bool): (r: Option<Groups>)
    requires n <= |s|
    ensures r.Some? ==> shaped && r.value.code == s[..n] && r.value.sep == " - " && '\n' !in r.value.rest
    ensures r.Some? ==>
      s == r.value.code + " - " + r.value.rest || s == r.value.code + " - " + r.value.rest + "\n"
  {
    if shaped && StartsWith(s[n..], " - ") then
      match DollarTail(s[n + 3..])
      case None => None
      case Some(l) =>
        assert s == s[..n] + s[n..n + 3] + s[n + 3..];
        Some(Groups(s[..n], " - ", l))
    else None
  }

  /** Composing a code and a one-line label gives a title whose groups are
      exactly that code and that label. */
  lemma {:induction false} MatchAccountCompose(p: AccountPattern, code: string, tail: string)
    requires forall i :: 0 <= i < |code| ==> InClass(CodeClass(p), code[i])
    requires CodeShape(p, code)
    requires '\n' !in tail
    ensures MatchAccount(p, code + " - " + tail) == Some(Groups(code, " - ", tail))
  {
    var s := code + " - " + tail;
    assert s[|code|] == ' ';
    RunEndUnique(s, 0, CodeClass(p), |code|);
    assert s[..|code|] == code;
    assert s[|code|..][..3] == " - ";
    assert s[|code| + 3..] == tail;
  }

  /** Two patterns whose code runs end at the same place and agree on that
      run match alike. */
  lemma SameRunSameMatch(p: AccountPattern, q: AccountPattern, s: string)
    requires RunEnd(s, 0, CodeClass(p)) == RunEnd(s, 0, CodeClass(q))
    requires CodeShape(p, s[..RunEnd(s, 0, CodeClass(p))]) == CodeShape(q, s[..RunEnd(s, 0, CodeClass(p))])
    ensures MatchAccount(p, s) == MatchAccount(q, s)
  {
    var n := RunEnd(s, 0, CodeClass(p));
    assert MatchAccount(p, s) == MatchAfterCode(s, n, CodeShape(p, s[..n]));
  }

  /** A match of the stricter older pattern is a match of the dotted pattern,
      with the same groups. */
  lemma TwoDigitMinorIsDotted(s: string)
    ensures MatchAccount(TwoDigitMinor, s).Some? ==>
      MatchAccount(DottedCode, s) == MatchAccount(TwoDigitMinor, s)
  {
    if MatchAccount(TwoDigitMinor, s).Some? {
      var n := RunEnd(s, 0, DigitOrDot);
      var c := s[..n];
      assert CodeShape(TwoDigitMinor, c);
      var a := RunEnd(c, 0, Digit);
      assert InClass(Digit, c[a + 1]);
      assert CodeShape(DottedCode, c);
    }
  }

  /** A match of the dotted pattern is a match of the loose pattern, with the
      same groups. */
  lemma DottedIsLoose(s: string)
    ensures MatchAccount(DottedCode, s).Some? ==>
      MatchAccount(LooseCode, s) == MatchAccount(DottedCode, s)
  {
    if MatchAccount(DottedCode, s).Some? {
      var n := RunEnd(s, 0, DigitOrDot);
      assert RunEnd(s, 0, DigitDotPlus) == n by {
        assert s[n..][0] == ' ';
        RunEndUnique(s, 0, DigitDotPlus, n);
      }
      var c := s[..n];
      assert CodeShape(DottedCode, c) && CodeShape(LooseCode, c) by {
        assert CodeShape(DottedCode, c);
        assert IsDigit(c[0]);
      }
      SameRunSameMatch(DottedCode, LooseCode, s);
    }
  }

  /** "1.2 - Receitas" has a dotted code with one digit after the dot. */
  lemma DottedExample()
    ensures MatchAccount(DottedCode, "1.2 - Receitas") == Some(Groups("1.2", " - ", "Receitas"))
  {
    RunEndUnique("1.2", 0, Digit, 1);
    MatchAccountCompose(DottedCode, "1.2", "Receitas");
    assert "1.2" + " - " + "Receitas" == "1.2 - Receitas";
  }

  /** The older pattern wants two digits after the dot, so it rejects
      "1.2 - Receitas". */
  lemma TwoDigitMinorExample()
    ensures MatchAccount(TwoDigitMinor, "1.2 - Receitas") == None
  {
    var s := "1.2 - Receitas";
    assert s[3] == ' ';
    RunEndUnique(s, 0, DigitOrDot, 3);
    assert s[..3] == "1.2";
    RunEndUnique("1.2", 0, Digit, 1);
  }

  /** A code without a dot, as in "1 - X", is no dotted code, but the loose
      pattern takes it. */
  lemma NoDotExample()
    ensures MatchAccount(DottedCode, "1 - X") == None
    ensures MatchAccount(LooseCode, "1 - X") == Some(Groups("1", " - ", "X"))
  {
    var s := "1 - X";
    assert s[1] == ' ';
    RunEndUnique(s, 0, DigitOrDot, 1);
    assert s[..1] == "1";
    RunEndUnique("1", 0, Digit, 1);
    MatchAccountCompose(LooseCode, "1", "X");
  }

  /** `group` of a match: 0 is the whole match, 1 to 3 the capture groups. */
  function GroupOf(g: Groups, n: nat): (r: Option<string>)
    ensures r.Some? <==> n <= 3
    ensures n == 1 ==> r == Some(g.code)
    ensures n == 3 ==> r == Some(g.rest)
    ensures n == 0 ==> r == Some(g.code + g.sep + g.rest)
  {
    if n == 0 then Some(g.code + g.sep + g.rest)
    else if n == 1 then Some(g.code)
    else if n == 2 then Some(g.sep)
    else if n == 3 then Some(g.rest)
    else None
  }

  // ---------------------------------------------------------------------
  // the other patterns

  /** `^TOTAL: \d+\.\d+` at the start of s. */
  predicate TotalPrefix(s: string) {
    StartsWith(s, "TOTAL: ") &&
    var a := RunEnd(s, 7, Digit);
    a > 7 && a + 1 < |s| && s[a] == '.' && IsDigit(s[a + 1])
  }

  /** The two ASCII-table decoders, the current one and the older one; they
      cut a page into blocks at different title-line patterns. */
  datatype Decoder =
    | Current   // [ ]*[1-2][\.[0-9]+]* - .*$
    | Older     // [ ]*[1-2]\.[0-9]+ - .*$

  /** Whether a whole line (without line breaks) is a block title. */
  predicate TitleLine(version: Decoder, line: string) {
    var a := RunEnd(line, 0, Blank);
    a < |line| && '1' <= line[a] <= '2' &&
    match version
    case Current =>
      var b := RunEnd(line, a + 1, DigitDotBracket);
      b > a + 1 && StartsWith(line[RunEnd(line, b, CloseBracket)..], " - ")
    case Older =>
      a + 1 < |line| && line[a + 1] == '.' &&
      var b := RunEnd(line, a + 2, Digit);
      b > a + 2 && StartsWith(line[b..], " - ")
  }

  /** `(^\+-|^\|)` under re.match: an ASCII-table line. */
  predicate TableLine(s: string) {
    StartsWith(s, "+-") || StartsWith(s, "|")
  }

  /** ` \.[0-9]+$` under re.search: the length of the name before the
      duplicate-column suffix " .N", if there is one. */
  function DuplicateSuffix(name: string): (r: Option<nat>)
    ensures r.Some? ==> r.value + 3 <= |name| && name[r.value] == ' ' && name[r.value + 1] == '.'
  {
    var t := if name != [] && name[|name| - 1] == '\n' then name[..|name| - 1] else name;
    var k := TrailingDigits(t);
    if k >= 1 && k + 2 <= |t| && t[|t| - k - 1] == '.' && t[|t| - k - 2] == ' ' then
      Some(|t| - k - 2)
    else None
  }

  /** A name ending in " ." and digits is recognised, and the part before
      the suffix is its prefix. */
  lemma DuplicateSuffixOf(base: string, digits: string)
    requires digits != [] && AllDigits(digits)
    ensures DuplicateSuffix(base + " ." + digits) == Some(|base|)
  {
    var t := base + " ." + digits;
    assert t[|t| - 1] == digits[|digits| - 1];
    assert t[|t| - |digits| - 1] == '.';
    assert forall i :: |t| - |digits| <= i < |t| ==> t[i] == digits[i - (|t| - |digits|)];
    TrailingDigitsUnique(t, |digits|);
  }

  /** `^Unnamed` under re.search: pandas' name for a header cell left empty. */
  predicate Unnamed(name: string) {
    StartsWith(name, "Unnamed")
  }

  /** `\d*-QD\d*-LT\d*` matching the whole of g. */
  predicate UnitBody(g: string) {
    var a := RunEnd(g, 0, Digit);
    a + 3 <= |g| && g[a..a + 3] == "-QD" &&
    var b := RunEnd(g, a + 3, Digit);
    b + 3 <= |g| && g[b..b + 3] == "-LT" && RunEnd(g, b + 3, Digit) == |g|
  }

  /** Group 2 of `^(Un. )(\d*-QD\d*-LT\d*)$` under re.match: "Un", any
      character but a line break, a space, then the unit key. */
  function UnitKey(s: string): (r: Option<string>)
    ensures r.Some? ==> UnitBody(r.value) && 4 <= |s| && StartsWith(s, "Un") && s[3] == ' '
    ensures r.Some? ==> s[4..] == r.value || s[4..] == r.value + "\n"
  {
    if |s| >= 4 && s[0] == 'U' && s[1] == 'n' && s[2] != '\n' && s[3] == ' ' then
      var t := s[4..];
      var g := if t != [] && t[|t| - 1] == '\n' then t[..|t| - 1] else t;
      if UnitBody(g) then
        assert t == g || t == g + "\n";
        Some(g)
      else None
    else None
  }

  /** A run of at least one digit followed by c: the digits and what follows c. */
  function DigitsThen(s: string, c: char): (r: Option<(string, string)>)
    ensures r.Some? ==> r.value.0 != [] && AllDigits(r.value.0) && s == r.value.0 + [c] + r.value.1
  {
    var a := RunEnd(s, 0, Digit);
    if a > 0 && a < |s| && s[a] == c then
      assert s == s[..a] + [c] + s[a + 1..];
      Some((s[..a], s[a + 1..]))
    else None
  }

  lemma DigitsThenCompose(d: string, c: char, rest: string)
    requires d != [] && AllDigits(d) && !IsDigit(c)
    ensures DigitsThen(d + [c] + rest, c) == Some((d, rest))
  {
    var s := d + [c] + rest;
    assert s[|d|] == c;
    RunEndUnique(s, 0, Digit, |d|);
    assert s[..|d|] == d;
    assert s[|d| + 1..] == rest;
  }

  /** Group 3 of `^(page_)(\d+_)(\d+-\d+)(.csv)` under re.match: the period
      "<digits>-<digits>" of a page file name.  When the digits run straight
      into "csv", backtracking lets the last digit play the part of the
      unescaped dot. */
  function PageNamePeriod(file: string): (r: Option<string>)
    ensures r.Some? ==> StartsWith(file, "page_") && |r.value| >= 3
    ensures r.Some? ==> IsDigit(r.value[0]) && IsDigit(r.value[|r.value| - 1]) && '-' in r.value
  {
    if !StartsWith(file, "page_") then None
    else
      match DigitsThen(file[5..], '_')
      case None => None
      case Some((_, t)) =>
        match DigitsThen(t, '-')
        case None => None
        case Some((year, u)) =>
          var c := RunEnd(u, 0, Digit);
          if c > 0 && c + 4 <= |u| && u[c] != '\n' && u[c + 1..c + 4] == "csv" then
            assert (year + "-" + u[..c])[|year|] == '-';
            Some(year + "-" + u[..c])
          else if c > 1 && c + 3 <= |u| && u[c..c + 3] == "csv" then
            assert (year + "-" + u[..c - 1])[|year|] == '-';
            Some(year + "-" + u[..c - 1])
          else None
  }

  /** The digits of a month followed by ".csv". */
  lemma CsvTail(month: string)
    requires month != [] && AllDigits(month)
    ensures var u := month + ".csv";
      RunEnd(u, 0, Digit) == |month| && |month| + 4 <= |u| && u[|month|] != '\n' &&
      u[|month| + 1..|month| + 4] == "csv" && u[..|month|] == month
  {
    var u := month + ".csv";
    assert u[|month|] == '.';
    RunEndUnique(u, 0, Digit, |month|);
    assert u[|month| + 1..|month| + 4] == "csv";
    assert u[..|month|] == month;
  }

  /** A page file name "page_<n>_<year>-<month>.csv" yields "<year>-<month>". */
  lemma PageNameCompose(n: string, year: string, month: string)
    requires n != [] && AllDigits(n) && year != [] && AllDigits(year)
    requires month != [] && AllDigits(month)
    ensures PageNamePeriod("page_" + n + "_" + year + "-" + month + ".csv") == Some(year + "-" + month)
  {
    var u := month + ".csv";
    var t := year + ['-'] + u;
    var f := "page_" + n + "_" + year + "-" + month + ".csv";
    assert StartsWith(f, "page_") && f[5..] == n + ['_'] + t by {
      assert f == "page_" + (n + ['_'] + t);
    }
    assert DigitsThen(f[5..], '_') == Some((n, t)) by {
      DigitsThenCompose(n, '_', t);
    }
    assert DigitsThen(t, '-') == Some((year, u)) by {
      DigitsThenCompose(year, '-', u);
    }
    CsvTail(month);
  }
}
