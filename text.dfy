/** The Python string operations the pipeline relies on: str.strip, str.split
    on one character, str.join, str.startswith and str.replace of one character. */
module Text {

  /** Python's str.isspace() for a single character (Unicode White_Space as
      Python defines it: ASCII controls 9-13 and 28-31, space, NEL, NBSP and
      the Unicode space separators). */
  predicate IsSpace(c: char) {
    ('\t' <= c <= '\r') || c == ' ' || ('\U{1C}' <= c <= '\U{1F}')
    || c == '\U{85}' || c == '\U{A0}' || c == '\U{1680}'
    || ('\U{2000}' <= c <= '\U{200A}') || c == '\U{2028}' || c == '\U{2029}'
    || c == '\U{202F}' || c == '\U{205F}' || c == '\U{3000}'
  }

  predicate AllSpace(s: string) {
    forall i :: 0 <= i < |s| ==> IsSpace(s[i])
  }

  /** No whitespace at either edge. */
  predicate IsStripped(s: string) {
    s == [] || (!IsSpace(s[0]) && !IsSpace(s[|s| - 1]))
  }

  predicate IsDigit(c: char) {
    '0' <= c <= '9'
  }

  predicate AllDigits(s: string) {
    forall i :: 0 <= i < |s| ==> IsDigit(s[i])
  }

  predicate StartsWith(s: string, prefix: string) {
    |prefix| <= |s| && s[..|prefix|] == prefix
  }

  /** Python's str.lstrip(): the longest suffix that does not start with whitespace. */
  function LStrip(s: string): (r: string)
    ensures |r| <= |s| && r == s[|s| - |r|..]
    ensures AllSpace(s[..|s| - |r|])
    ensures r == [] || !IsSpace(r[0])
  {
    if s != [] && IsSpace(s[0]) then
      var t := s[1..];
      var r := LStrip(t);
      assert s[..|s| - |r|] == [s[0]] + t[..|t| - |r|];
      r
    else s
  }

  /** Python's str.rstrip(): the longest prefix that does not end with whitespace. */
  function RStrip(s: string): (r: string)
    ensures |r| <= |s| && r == s[..|r|]
    ensures AllSpace(s[|r|..])
    ensures r == [] || !IsSpace(r[|r| - 1])
  {
    if s != [] && IsSpace(s[|s| - 1]) then
      var t := s[..|s| - 1];
      var r := RStrip(t);
      assert s[|r|..] == t[|r|..] + [s[|s| - 1]];
      r
    else s
  }

  /** Python's str.strip() with no argument. */
  function Strip(s: string): (r: string)
    ensures IsStripped(r)
    ensures |r| <= |s|
  {
    RStrip(LStrip(s))
  }

  /** Strip keeps every character that is not whitespace. */
  lemma StripKeeps(s: string, c: char)
    requires c in s && !IsSpace(c)
    ensures c in Strip(s)
  {
    var k :| 0 <= k < |s| && s[k] == c;
    StripKeepsAt(s, k);
  }

  lemma StripKeepsAt(s: string, k: nat)
    requires k < |s| && !IsSpace(s[k])
    ensures s[k] in Strip(s)
  {
    var l := LStrip(s);
    var o := |s| - |l|;
    LStripKeeps(s, k);
    RStripKeeps(l, k - o);
    assert Strip(s)[k - o] == s[k];
  }

  lemma LStripKeeps(s: string, k: nat)
    requires k < |s| && !IsSpace(s[k])
    ensures |s| - |LStrip(s)| <= k && LStrip(s)[k - (|s| - |LStrip(s)|)] == s[k]
  {
    var o := |s| - |LStrip(s)|;
    assert forall j :: 0 <= j < o ==> s[..o][j] == s[j];
  }

  lemma RStripKeeps(l: string, k: nat)
    requires k < |l| && !IsSpace(l[k])
    ensures k < |RStrip(l)| && RStrip(l)[k] == l[k]
  {
    var r := RStrip(l);
    assert forall j :: |r| <= j < |l| ==> l[|r|..][j - |r|] == l[j];
  }

  predicate IsBlank(s: string) {
    Strip(s) == ""
  }

  lemma LStripAllSpace(s: string)
    ensures LStrip(s) == [] <==> AllSpace(s)
  {
    var r := LStrip(s);
    if r == [] {
      assert s[..|s|] == s;
    }
  }

  /** A string is blank exactly when every character of it is whitespace. */
  lemma BlankIffAllSpace(s: string)
    ensures IsBlank(s) <==> AllSpace(s)
  {
    LStripAllSpace(s);
    var l := LStrip(s);
    if l != [] {
      assert !IsSpace(l[0]);
      assert l[0..] == l;
      assert AllSpace(l[|RStrip(l)|..]);
    }
  }

  lemma {:induction false} LStripPrefixSpace(w: string, s: string)
    requires AllSpace(w)
    ensures LStrip(w + s) == LStrip(s)
  {
    if w != [] {
      assert (w + s)[1..] == w[1..] + s;
      LStripPrefixSpace(w[1..], s);
    } else {
      assert w + s == s;
    }
  }

  lemma {:induction false} RStripSuffixSpace(s: string, w: string)
    requires AllSpace(w)
    ensures RStrip(s + w) == RStrip(s)
  {
    if w != [] {
      assert (s + w)[..|s + w| - 1] == s + w[..|w| - 1];
      RStripSuffixSpace(s, w[..|w| - 1]);
    } else {
      assert s + w == s;
    }
  }

  lemma {:induction false} LStripAppend(s: string, t: string)
    requires !AllSpace(s)
    ensures LStrip(s + t) == LStrip(s) + t
  {
    assert s != [];
    if IsSpace(s[0]) {
      assert (s + t)[1..] == s[1..] + t;
      var i :| 0 <= i < |s| && !IsSpace(s[i]);
      assert !IsSpace(s[1..][i - 1]);
      LStripAppend(s[1..], t);
    }
  }

  /** Whitespace around a string does not change what strip returns. */
  lemma StripPadded(w1: string, s: string, w2: string)
    requires AllSpace(w1) && AllSpace(w2)
    ensures Strip(w1 + s + w2) == Strip(s)
  {
    assert w1 + s + w2 == w1 + (s + w2);
    LStripPrefixSpace(w1, s + w2);
    if AllSpace(s) {
      assert AllSpace(s + w2);
      LStripAllSpace(s + w2);
      LStripAllSpace(s);
    } else {
      LStripAppend(s, w2);
      RStripSuffixSpace(LStrip(s), w2);
    }
  }

  /** Strip leaves a string without edge whitespace unchanged. */
  lemma StripOfStripped(s: string)
    requires IsStripped(s)
    ensures Strip(s) == s
  {
  }

  /** Strip is idempotent. */
  lemma StripIdempotent(s: string)
    ensures Strip(Strip(s)) == Strip(s)
  {
    StripOfStripped(Strip(s));
  }

  // ---------------------------------------------------------------------
  // join and split

  /** Python's sep.join(parts). */
  function Join(sep: string, parts: seq<string>): string
  {
    if |parts| == 0 then ""
    else if |parts| == 1 then parts[0]
    else parts[0] + sep + Join(sep, parts[1..])
  }

  lemma {:induction false} JoinSnoc(sep: string, parts: seq<string>, p: string)
    requires |parts| >= 1
    ensures Join(sep, parts + [p]) == Join(sep, parts) + sep + p
  {
    if |parts| == 1 {
      assert parts + [p] == [parts[0], p];
      assert [parts[0], p][1..] == [p];
    } else {
      assert (parts + [p])[1..] == parts[1..] + [p];
      JoinSnoc(sep, parts[1..], p);
    }
  }

  /** Index of the first occurrence of c in s. */
  function IndexOf(s: string, c: char): (i: nat)
    requires c in s
    ensures i < |s| && s[i] == c && c !in s[..i]
  {
    if s[0] == c then 0 else 1 + IndexOf(s[1..], c)
  }

  /** Python's s.split(c) for a one-character separator: the pieces between
      occurrences of c, so that joining them with c gives back s. */
  function SplitOn(s: string, c: char): (r: seq<string>)
    ensures |r| >= 1
    ensures forall i :: 0 <= i < |r| ==> c !in r[i]
    ensures Join([c], r) == s
    decreases |s|
  {
    if c !in s then [s]
    else
      var i := IndexOf(s, c);
      var rest := SplitOn(s[i + 1..], c);
      assert s == s[..i] + [c] + s[i + 1..];
      [s[..i]] + rest
  }

  /** Splitting what was joined gives back the parts, provided no part holds
      the separator. */
  lemma {:induction false} SplitOfJoin(parts: seq<string>, c: char)
    requires |parts| >= 1
    requires forall i :: 0 <= i < |parts| ==> c !in parts[i]
    ensures SplitOn(Join([c], parts), c) == parts
  {
    if |parts| > 1 {
      var s := Join([c], parts);
      assert s == parts[0] + [c] + Join([c], parts[1..]);
      assert s[..|parts[0]|] == parts[0];
      assert s[|parts[0]|] == c;
      assert c in s;
      assert IndexOf(s, c) == |parts[0]|;
      assert s[|parts[0]| + 1..] == Join([c], parts[1..]);
      SplitOfJoin(parts[1..], c);
    }
  }

  /** The whitespace-free, non-empty words among fragments, in order. */
  function Words(frags: seq<string>): (ws: seq<string>)
    ensures |ws| <= |frags|
    ensures forall i :: 0 <= i < |ws| ==> ws[i] != "" && IsStripped(ws[i])
  {
    if frags == [] then []
    else
      var prev := Words(frags[..|frags| - 1]);
      var last := Strip(frags[|frags| - 1]);
      if last == "" then prev else prev + [last]
  }

  /** Joining stripped non-empty words with a space gives a stripped string. */
  lemma {:induction false} JoinWordsStripped(ws: seq<string>)
    requires forall i :: 0 <= i < |ws| ==> ws[i] != "" && IsStripped(ws[i])
    ensures IsStripped(Join(" ", ws))
    ensures ws != [] ==> Join(" ", ws) != ""
    ensures ws != [] ==> StartsWith(Join(" ", ws), ws[0])
  {
    if |ws| > 1 {
      JoinWordsStripped(ws[1..]);
      var j := Join(" ", ws[1..]);
      assert Join(" ", ws) == ws[0] + " " + j;
      assert (ws[0] + " " + j)[..|ws[0]|] == ws[0];
      assert j[|j| - 1] == Join(" ", ws)[|Join(" ", ws)| - 1];
    }
  }

  // ---------------------------------------------------------------------
  // one-character replacement, as pandas .replace(regex=True) does it for a
  // single literal character

  function Count(s: string, c: char): nat
  {
    if s == [] then 0 else Count(s[..|s| - 1], c) + (if s[|s| - 1] == c then 1 else 0)
  }

  /** Count distributes over concatenation. */
  lemma {:induction false} CountAppend(a: string, b: string, c: char)
    ensures Count(a + b, c) == Count(a, c) + Count(b, c)
  {
    if b != [] {
      var n := |b| - 1;
      CountAppend(a, b[..n], c);
      assert (a + b)[..|a + b| - 1] == a + b[..n];
    } else {
      assert a + b == a;
    }
  }

  /** Every occurrence of c removed. */
  function RemoveAll(s: string, c: char): (r: string)
    ensures c !in r
    ensures |r| == |s| - Count(s, c)
  {
    if s == [] then []
    else RemoveAll(s[..|s| - 1], c) + (if s[|s| - 1] == c then [] else [s[|s| - 1]])
  }

  /** Every occurrence of c replaced by d. */
  function ReplaceAll(s: string, c: char, d: char): (r: string)
    ensures |r| == |s|
    ensures forall i :: 0 <= i < |s| ==> r[i] == if s[i] == c then d else s[i]
  {
    if s == [] then []
    else ReplaceAll(s[..|s| - 1], c, d) + [if s[|s| - 1] == c then d else s[|s| - 1]]
  }

  /** The digits of s, in order. */
  function DigitsOf(s: string): (r: string)
    ensures AllDigits(r)
  {
    if s == [] then []
    else DigitsOf(s[..|s| - 1]) + (if IsDigit(s[|s| - 1]) then [s[|s| - 1]] else [])
  }

  /** DigitsOf distributes over concatenation. */
  lemma {:induction false} DigitsAppend(a: string, b: string)
    ensures DigitsOf(a + b) == DigitsOf(a) + DigitsOf(b)
  {
    if b != [] {
      var n := |b| - 1;
      DigitsAppend(a, b[..n]);
      assert (a + b)[..|a + b| - 1] == a + b[..n];
    } else {
      assert a + b == a;
    }
  }
}
