/** The text stage of the two ASCII-table decoders
    (src/processors/llmwhisperer_analytical.py and src/analytical_v2.py):
    cutting a page into blocks at title lines, reducing a block to its table
    lines, dropping TOTAL lines, and keying every table by the element before
    it.  The two decoders differ only in the title pattern and in whether a
    table is cut at its first blank line; Decoder tells them apart. */
module TextBlocks {
  import opened Wrappers
  import opened Text
  import opened Regexes

  // ---------------------------------------------------------------------
  // split_blocks: re.split on `^(TITLE)\n\n` with MULTILINE, then the
  // pieces that are not whitespace only

  predicate LineStart(s: string, i: nat)
    requires i <= |s|
  {
    i == 0 || s[i - 1] == '\n'
  }

  /** The end of the line that holds position i. */
  function LineEnd(s: string, i: nat): (q: nat)
    requires i <= |s|
    ensures i <= q <= |s|
    ensures '\n' !in s[i..q]
    ensures q < |s| ==> s[q] == '\n'
    decreases |s| - i
  {
    if i == |s| || s[i] == '\n' then i
    else
      var q := LineEnd(s, i + 1);
      assert s[i..q] == [s[i]] + s[i + 1..q];
      q
  }

  /** Where the split pattern matches at i: i starts a line, the line up to
      its break at q is a title, and a second break follows.  The result is
      q, the end of the captured title. */
  function TitleAt(version: Decoder, s: string, i: nat): (q: Option<nat>)
    requires i <= |s|
    ensures q.Some? ==> i < q.value && q.value + 2 <= |s| && s[q.value] == '\n' && s[q.value + 1] == '\n'
  {
    var q := LineEnd(s, i);
    if LineStart(s, i) && q + 1 < |s| && s[q + 1] == '\n' && TitleLine(version, s[i..q]) then Some(q) else None
  }

  /** What a match captures is a whole title line. */
  lemma TitleAtIsTitle(version: Decoder, s: string, i: nat)
    requires i <= |s| && TitleAt(version, s, i).Some?
    ensures LineStart(s, i)
    ensures '\n' !in s[i..TitleAt(version, s, i).value]
    ensures TitleLine(version, s[i..TitleAt(version, s, i).value])
  {
  }

  /** A table of match results, one per position: each match ends at a line
      break followed by another. */
  predicate MarksOk(s: string, marks: seq<Option<nat>>) {
    |marks| == |s| + 1 &&
    forall i :: 0 <= i < |marks| && marks[i].Some? ==>
      i < marks[i].value && marks[i].value + 2 <= |s| && s[marks[i].value] == '\n' && s[marks[i].value + 1] == '\n'
  }

  /** Where the split pattern of the given decoder matches. */
  function Marks(version: Decoder, s: string): (m: seq<Option<nat>>)
    ensures MarksOk(s, m)
  {
    seq(|s| + 1, i requires 0 <= i <= |s| => TitleAt(version, s, i))
  }

  /** What re.split returns when scanning from i, the current piece having
      started at from: pieces of text alternating with captured titles. */
  function Pieces(s: string, marks: seq<Option<nat>>, from: nat, i: nat): (r: seq<string>)
    requires MarksOk(s, marks) && from <= i <= |s|
    ensures |r| % 2 == 1
    decreases |s| - i
  {
    if i == |s| then [s[from..]]
    else
      match marks[i]
      case Some(q) => [s[from..i], s[i..q]] + Pieces(s, marks, q + 2, q + 2)
      case None => Pieces(s, marks, from, i + 1)
  }

  /** The inverse of the split: each captured title is followed again by
      the blank line the pattern consumed. */
  function Unsplit(parts: seq<string>): string
    requires |parts| % 2 == 1
  {
    if |parts| == 1 then parts[0]
    else parts[0] + parts[1] + "\n\n" + Unsplit(parts[2..])
  }

  /** One captured title, put back. */
  lemma UnsplitStep(s: string, from: nat, i: nat, q: nat, rest: seq<string>)
    requires from <= i < q && q + 2 <= |s| && s[q] == '\n' && s[q + 1] == '\n'
    requires |rest| % 2 == 1 && Unsplit(rest) == s[q + 2..]
    ensures Unsplit([s[from..i], s[i..q]] + rest) == s[from..]
  {
    assert ([s[from..i], s[i..q]] + rest)[2..] == rest;
    assert s[q..q + 2] == "\n\n";
    assert s[from..] == s[from..i] + s[i..q] + s[q..q + 2] + s[q + 2..];
  }

  /** Splitting loses nothing: the pieces and titles put back together give
      the text. */
  lemma {:induction false} PiecesRoundTrip(s: string, marks: seq<Option<nat>>, from: nat, i: nat)
    requires MarksOk(s, marks) && from <= i <= |s|
    ensures Unsplit(Pieces(s, marks, from, i)) == s[from..]
    decreases |s| - i
  {
    if i < |s| {
      match marks[i]
      case Some(q) =>
        PiecesRoundTrip(s, marks, q + 2, q + 2);
        UnsplitStep(s, from, i, q, Pieces(s, marks, q + 2, q + 2));
      case None =>
        PiecesRoundTrip(s, marks, from, i + 1);
    }
  }

  /** Every captured element (the odd positions) is the text of a match. */
  lemma {:induction false} PiecesTitles(s: string, marks: seq<Option<nat>>, from: nat, i: nat, k: nat)
    requires MarksOk(s, marks) && from <= i <= |s|
    requires k < |Pieces(s, marks, from, i)| && k % 2 == 1
    ensures exists j :: i <= j < |s| && marks[j].Some? && Pieces(s, marks, from, i)[k] == s[j..marks[j].value]
    decreases |s| - i
  {
    if i < |s| {
      match marks[i]
      case Some(q) =>
        if k > 1 {
          PiecesTitles(s, marks, q + 2, q + 2, k - 2);
        } else {
          assert Pieces(s, marks, from, i)[k] == s[i..q];
        }
      case None =>
        PiecesTitles(s, marks, from, i + 1, k);
    }
  }

  /** Every text element (the even positions) is a stretch of the text
      where the pattern matches nowhere: the scan passed over each of its
      positions without a match. */
  lemma {:induction false} PiecesTexts(s: string, marks: seq<Option<nat>>, from: nat, i: nat, k: nat)
    requires MarksOk(s, marks) && from <= i <= |s|
    requires forall p :: from <= p < i ==> marks[p].None?
    requires k < |Pieces(s, marks, from, i)| && k % 2 == 0
    ensures exists a, b ::
              from <= a <= b <= |s| && Pieces(s, marks, from, i)[k] == s[a..b] &&
              forall p :: a <= p < b ==> marks[p].None?
    decreases |s| - i
  {
    if i == |s| {
      assert Pieces(s, marks, from, i)[k] == s[from..|s|];
    } else {
      match marks[i]
      case Some(q) =>
        var rest := Pieces(s, marks, q + 2, q + 2);
        assert Pieces(s, marks, from, i) == [s[from..i], s[i..q]] + rest;
        if k == 0 {
          assert Pieces(s, marks, from, i)[k] == s[from..i];
        } else {
          PiecesTexts(s, marks, q + 2, q + 2, k - 2);
          assert Pieces(s, marks, from, i)[k] == rest[k - 2];
        }
      case None =>
        PiecesTexts(s, marks, from, i + 1, k);
    }
  }

  /** The elements that are not whitespace only, in order. */
  function NonBlank(parts: seq<string>): (r: seq<string>)
    ensures forall j :: 0 <= j < |r| ==> !IsBlank(r[j])
    ensures forall j :: 0 <= j < |r| ==> r[j] in parts
  {
    if parts == [] then []
    else
      var init := NonBlank(parts[..|parts| - 1]);
      var last := parts[|parts| - 1];
      MembersOfInit(init, parts);
      var tail := if IsBlank(last) then [] else [last];
      NoneBlank(init, tail);
      init + tail
  }

  lemma NoneBlank(init: seq<string>, tail: seq<string>)
    requires forall j :: 0 <= j < |init| ==> !IsBlank(init[j])
    requires forall j :: 0 <= j < |tail| ==> !IsBlank(tail[j])
    ensures forall j :: 0 <= j < |init + tail| ==> !IsBlank((init + tail)[j])
  {
    forall j | 0 <= j < |init + tail|
      ensures !IsBlank((init + tail)[j])
    {
      if j < |init| {
        assert (init + tail)[j] == init[j];
      } else {
        assert (init + tail)[j] == tail[j - |init|];
      }
    }
  }

  lemma MembersOfInit(init: seq<string>, parts: seq<string>)
    requires |parts| > 0 && forall j :: 0 <= j < |init| ==> init[j] in parts[..|parts| - 1]
    ensures forall j :: 0 <= j < |init| ==> init[j] in parts
  {
    assert parts == parts[..|parts| - 1] + [parts[|parts| - 1]];
  }

  /** NonBlank drops only whitespace-only elements. */
  lemma {:induction false} NonBlankKeeps(parts: seq<string>, x: string)
    requires x in parts && !IsBlank(x)
    ensures x in NonBlank(parts)
  {
    var init := parts[..|parts| - 1];
    var last := parts[|parts| - 1];
    assert parts == init + [last];
    if x != last {
      NonBlankKeeps(init, x);
    }
  }

  /** split_blocks. */
  function SplitBlocks(version: Decoder, s: string): seq<string>
  {
    NonBlank(Pieces(s, Marks(version, s), 0, 0))
  }

  /** A title line is never whitespace only. */
  lemma TitleNotBlank(version: Decoder, line: string)
    requires TitleLine(version, line)
    ensures !IsBlank(line)
  {
    BlankIffAllSpace(line);
    var a := RunEnd(line, 0, Blank);
    assert !IsSpace(line[a]);
  }

  /** The split of a page gives it back when put together again, every
      captured element is a whole title line that split_blocks keeps, and
      no title line followed by a blank line is left inside a text element:
      each is a stretch of the page where the pattern matches at no
      position. */
  lemma SplitBlocksSpec(version: Decoder, s: string, k: nat)
    ensures Unsplit(Pieces(s, Marks(version, s), 0, 0)) == s
    ensures k < |Pieces(s, Marks(version, s), 0, 0)| && k % 2 == 1 ==>
      var t := Pieces(s, Marks(version, s), 0, 0)[k];
      '\n' !in t && TitleLine(version, t) && t in SplitBlocks(version, s)
    ensures k < |Pieces(s, Marks(version, s), 0, 0)| && k % 2 == 0 ==>
      exists a, b ::
        0 <= a <= b <= |s| && Pieces(s, Marks(version, s), 0, 0)[k] == s[a..b] &&
        forall p :: a <= p < b ==> TitleAt(version, s, p).None?
  {
    var marks := Marks(version, s);
    PiecesRoundTrip(s, marks, 0, 0);
    if k < |Pieces(s, marks, 0, 0)| && k % 2 == 0 {
      SplitTextHasNoTitle(version, s, k);
    }
    if k < |Pieces(s, marks, 0, 0)| && k % 2 == 1 {
      PiecesTitles(s, marks, 0, 0, k);
      var j :| 0 <= j < |s| && marks[j].Some? && Pieces(s, marks, 0, 0)[k] == s[j..marks[j].value];
      assert marks[j] == TitleAt(version, s, j);
      TitleAtIsTitle(version, s, j);
      TitleNotBlank(version, s[j..marks[j].value]);
      assert Pieces(s, marks, 0, 0)[k] in Pieces(s, marks, 0, 0);
      NonBlankKeeps(Pieces(s, marks, 0, 0), Pieces(s, marks, 0, 0)[k]);
    }
  }

  /** A text element of the split holds no match of the pattern. */
  lemma SplitTextHasNoTitle(version: Decoder, s: string, k: nat)
    requires k < |Pieces(s, Marks(version, s), 0, 0)| && k % 2 == 0
    ensures exists a, b ::
              0 <= a <= b <= |s| && Pieces(s, Marks(version, s), 0, 0)[k] == s[a..b] &&
              forall p :: a <= p < b ==> TitleAt(version, s, p).None?
  {
    var marks := Marks(version, s);
    PiecesTexts(s, marks, 0, 0, k);
    var a, b :| 0 <= a <= b <= |s| && Pieces(s, marks, 0, 0)[k] == s[a..b] && forall p :: a <= p < b ==> marks[p].None?;
    forall p | a <= p < b
      ensures TitleAt(version, s, p).None?
    {
      assert marks[p] == TitleAt(version, s, p);
    }
  }

  // ---------------------------------------------------------------------
  // extract_untitled_table: the text before the first blank line

  predicate PairAt(s: string, i: nat) {
    i + 1 < |s| && s[i] == '\n' && s[i + 1] == '\n'
  }

  predicate HasPair(s: string) {
    exists i: nat :: i < |s| && PairAt(s, i)
  }

  /** The first i' >= i where "\n\n" starts, or |s| when there is none. */
  function FirstPair(s: string, i: nat): (j: nat)
    requires i <= |s|
    ensures i <= j <= |s|
    ensures j < |s| ==> PairAt(s, j)
    ensures forall n: nat :: i <= n < j ==> !PairAt(s, n)
    ensures j == |s| ==> forall n: nat :: i <= n ==> !PairAt(s, n)
    decreases |s| - i
  {
    if i == |s| then i
    else if PairAt(s, i) then i
    else FirstPair(s, i + 1)
  }

  /** extract_untitled_table: the text before the first "\n\n", or the whole
      text when it has none. */
  function ExtractUntitledTable(s: string): (r: string)
    ensures |r| <= |s| && r == s[..|r|]
    ensures !HasPair(r)
    ensures HasPair(s) ==> PairAt(s, |r|)
    ensures !HasPair(s) ==> r == s
  {
    var j := FirstPair(s, 0);
    if j == |s| then s
    else
      assert forall n: nat :: PairAt(s[..j], n) ==> PairAt(s, n);
      s[..j]
  }

  // ---------------------------------------------------------------------
  // clean_table_text

  /** The lines that start an ASCII table row or separator, in order. */
  function TableLines(lines: seq<string>): (r: seq<string>)
    ensures forall j :: 0 <= j < |r| ==> TableLine(r[j])
    ensures forall x :: x in lines && TableLine(x) ==> x in r
    ensures forall x :: x in r ==> x in lines
  {
    if lines == [] then []
    else TableLines(lines[..|lines| - 1]) + (if TableLine(lines[|lines| - 1]) then [lines[|lines| - 1]] else [])
  }

  /** The part of a table block whose lines are kept: the current decoder
      stops at the first blank line, the older one keeps the whole block. */
  function TablePart(version: Decoder, text: string): string {
    match version
    case Current => ExtractUntitledTable(text)
    case Older => text
  }

  /** clean_table_text. */
  function CleanTableText(version: Decoder, text: string): string {
    if TableLine(text) then Join("\n", TableLines(SplitOn(TablePart(version, text), '\n')))
    else text
  }

  /** A prefix without line breaks stays at the head of the first line. */
  lemma FirstLinePrefix(s: string, pre: string)
    requires StartsWith(s, pre) && '\n' !in pre
    ensures StartsWith(SplitOn(s, '\n')[0], pre)
  {
    if '\n' in s {
      var i := IndexOf(s, '\n');
      assert forall n :: 0 <= n < |pre| ==> s[n] == pre[n] && pre[n] != '\n';
      assert SplitOn(s, '\n')[0] == s[..i];
    }
  }

  /** The table part of a text keeps the text's opening characters up to
      the first line break. */
  lemma TablePartPrefix(version: Decoder, text: string, pre: string)
    requires StartsWith(text, pre) && '\n' !in pre
    ensures StartsWith(TablePart(version, text), pre)
  {
    if version == Current {
      assert forall n :: 0 <= n < |pre| ==> text[n] == pre[n] && pre[n] != '\n';
    }
  }

  /** The table part of a table block still starts like a table line. */
  lemma TablePartStart(version: Decoder, text: string)
    requires TableLine(text)
    ensures TableLine(SplitOn(TablePart(version, text), '\n')[0])
  {
    var pre := if StartsWith(text, "+-") then "+-" else "|";
    TablePartPrefix(version, text, pre);
    FirstLinePrefix(TablePart(version, text), pre);
  }

  /** A table block keeps exactly its table lines, in order: splitting the
      result on line breaks gives them back. */
  lemma CleanKeepsTableLines(version: Decoder, text: string)
    requires TableLine(text)
    ensures TableLines(SplitOn(TablePart(version, text), '\n')) != []
    ensures SplitOn(CleanTableText(version, text), '\n') == TableLines(SplitOn(TablePart(version, text), '\n'))
  {
    var lines := SplitOn(TablePart(version, text), '\n');
    TablePartStart(version, text);
    assert lines[0] in lines;
    var kept := TableLines(lines);
    assert forall j :: 0 <= j < |kept| ==> '\n' !in kept[j] by {
      forall j | 0 <= j < |kept|
        ensures '\n' !in kept[j]
      {
        assert kept[j] in lines;
      }
    }
    SplitOfJoin(kept, '\n');
  }

  /** A non-empty join of lines without breaks, none of them empty, has no
      blank line. */
  lemma {:induction false} JoinNoPair(lines: seq<string>)
    requires forall j :: 0 <= j < |lines| ==> lines[j] != [] && '\n' !in lines[j]
    ensures !HasPair(Join("\n", lines))
  {
    if |lines| > 1 {
      JoinNoPair(lines[1..]);
      var a := lines[0];
      var b := Join("\n", lines[1..]);
      var s := Join("\n", lines);
      assert s == a + "\n" + b;
      assert b != [] && b[0] != '\n' by {
        assert lines[1..][0] == lines[1];
        JoinFirst(lines[1..]);
      }
      forall n: nat
        ensures !PairAt(s, n)
      {
        if n < |a| {
          assert s[n] == a[n];
        } else if n == |a| {
          assert s[n + 1] == b[0];
        } else if n + 1 < |s| {
          assert s[n] == b[n - |a| - 1] && s[n + 1] == b[n - |a|];
          assert !PairAt(b, n - |a| - 1);
        }
      }
    } else if |lines| == 1 {
      assert Join("\n", lines) == lines[0];
    }
  }

  /** A join starts with its first part. */
  lemma JoinFirst(lines: seq<string>)
    requires |lines| >= 1
    ensures Join("\n", lines)[..|lines[0]|] == lines[0]
  {
  }

  /** The current decoder's table text never holds a blank line. */
  lemma CleanHasNoBlankLine(text: string)
    requires TableLine(text)
    ensures !HasPair(CleanTableText(Current, text))
  {
    var kept := TableLines(SplitOn(TablePart(Current, text), '\n'));
    forall j | 0 <= j < |kept|
      ensures kept[j] != [] && '\n' !in kept[j]
    {
      assert kept[j] in SplitOn(TablePart(Current, text), '\n');
    }
    JoinNoPair(kept);
  }

  /** Cleaning twice is cleaning once. */
  lemma CleanIdempotent(version: Decoder, text: string)
    ensures CleanTableText(version, CleanTableText(version, text)) == CleanTableText(version, text)
  {
    if TableLine(text) {
      var kept := TableLines(SplitOn(TablePart(version, text), '\n'));
      var c := CleanTableText(version, text);
      CleanKeepsTableLines(version, text);
      JoinWordsFirst(kept);
      assert TableLine(c);
      if version == Current {
        CleanHasNoBlankLine(text);
      }
      assert TablePart(version, c) == c;
      assert SplitOn(c, '\n') == kept;
      KeepAllTableLines(kept);
    }
  }

  /** The join of table lines starts like its first line does. */
  lemma JoinWordsFirst(kept: seq<string>)
    requires |kept| >= 1 && forall j :: 0 <= j < |kept| ==> TableLine(kept[j])
    ensures TableLine(Join("\n", kept))
  {
    JoinFirst(kept);
    var s := Join("\n", kept);
    assert TableLine(kept[0]);
    if StartsWith(kept[0], "+-") {
      assert s[..2] == kept[0][..2];
    } else {
      assert s[..1] == kept[0][..1];
    }
  }

  /** Filtering lines that all qualify keeps them all. */
  lemma {:induction false} KeepAllTableLines(lines: seq<string>)
    requires forall x :: x in lines ==> TableLine(x)
    ensures TableLines(lines) == lines
  {
    if lines != [] {
      var n := |lines| - 1;
      var front, last := lines[..n], lines[n];
      assert lines == front + [last];
      KeepAllTableLines(front);
      TableLinesSnoc(front, last);
    }
  }

  /** A qualifying line after others is kept after what they keep. */
  lemma TableLinesSnoc(front: seq<string>, last: string)
    requires TableLine(last)
    ensures TableLines(front + [last]) == TableLines(front) + [last]
  {
    assert (front + [last])[..|front|] == front;
  }

  // ---------------------------------------------------------------------
  // clean_total_ascii_table

  /** `^TOTAL` under re.match. */
  predicate TotalLine(line: string) {
    StartsWith(line, "TOTAL")
  }

  function NonTotalLines(lines: seq<string>): (r: seq<string>)
    ensures forall j :: 0 <= j < |r| ==> !TotalLine(r[j])
    ensures forall x :: x in r ==> x in lines
  {
    if lines == [] then []
    else NonTotalLines(lines[..|lines| - 1]) + (if TotalLine(lines[|lines| - 1]) then [] else [lines[|lines| - 1]])
  }

  /** clean_total_ascii_table: the lines that do not start with TOTAL. */
  function CleanTotalAsciiTable(table: string): string {
    Join("\n", NonTotalLines(SplitOn(table, '\n')))
  }

  /** After cleaning, no line starts with TOTAL. */
  lemma CleanTotalHasNoTotal(table: string)
    ensures forall x :: x in SplitOn(CleanTotalAsciiTable(table), '\n') ==> !TotalLine(x)
  {
    var kept := NonTotalLines(SplitOn(table, '\n'));
    if kept == [] {
      assert SplitOn("", '\n') == [""];
    } else {
      forall j | 0 <= j < |kept|
        ensures '\n' !in kept[j]
      {
        assert kept[j] in SplitOn(table, '\n');
      }
      SplitOfJoin(kept, '\n');
    }
  }

  lemma {:induction false} KeepAllNonTotal(lines: seq<string>)
    requires forall j :: 0 <= j < |lines| ==> !TotalLine(lines[j])
    ensures NonTotalLines(lines) == lines
  {
    if lines != [] {
      KeepAllNonTotal(lines[..|lines| - 1]);
      assert lines[..|lines| - 1] + [lines[|lines| - 1]] == lines;
    }
  }

  /** A table without TOTAL lines is returned unchanged. */
  lemma CleanTotalKeepsOthers(table: string)
    requires forall x :: x in SplitOn(table, '\n') ==> !TotalLine(x)
    ensures CleanTotalAsciiTable(table) == table
  {
    var lines := SplitOn(table, '\n');
    forall j | 0 <= j < |lines|
      ensures !TotalLine(lines[j])
    {
      assert lines[j] in lines;
    }
    KeepAllNonTotal(lines);
  }

  // ---------------------------------------------------------------------
  // convert_list_to_dict: an insertion-ordered dictionary

  /** A Python dict as a list of entries in insertion order. */
  type Dict<V> = seq<(string, V)>

  predicate DistinctKeys<V>(d: Dict<V>) {
    forall a, b :: 0 <= a < b < |d| ==> d[a].0 != d[b].0
  }

  /** Assigning d[k] = v: in place when k is a key, at the end otherwise. */
  function Put<V>(d: Dict<V>, k: string, v: V): (r: Dict<V>)
    ensures |r| == |d| || |r| == |d| + 1
    ensures forall j :: 0 <= j < |d| ==> r[j].0 == d[j].0
    ensures |r| == |d| + 1 ==> r[|d|] == (k, v)
    decreases |d|
  {
    if d == [] then [(k, v)]
    else if d[0].0 == k then [(k, v)] + d[1..]
    else [d[0]] + Put(d[1..], k, v)
  }

  /** The value d holds for k. */
  function Get<V>(d: Dict<V>, k: string): Option<V> {
    if d == [] then None
    else if d[0].0 == k then Some(d[0].1)
    else Get(d[1..], k)
  }

  lemma {:induction false} PutGet<V>(d: Dict<V>, k: string, v: V, k': string)
    ensures Get(Put(d, k, v), k') == if k' == k then Some(v) else Get(d, k')
  {
    if d != [] && d[0].0 != k {
      PutGet(d[1..], k, v, k');
    }
  }

  lemma {:induction false} PutDistinct<V>(d: Dict<V>, k: string, v: V)
    requires DistinctKeys(d)
    ensures DistinctKeys(Put(d, k, v))
  {
    if d != [] && d[0].0 != k {
      PutDistinct(d[1..], k, v);
      var r := Put(d, k, v);
      PutKeys(d[1..], k, v);
      forall b | 0 < b < |r|
        ensures r[0].0 != r[b].0
      {
        assert r[b] == Put(d[1..], k, v)[b - 1];
      }
    }
  }

  /** Put adds no key but k. */
  lemma {:induction false} PutKeys<V>(d: Dict<V>, k: string, v: V)
    ensures forall e :: e in Put(d, k, v) ==> e.0 == k || exists j :: 0 <= j < |d| && d[j].0 == e.0
  {
    if d != [] && d[0].0 != k {
      PutKeys(d[1..], k, v);
      forall e | e in Put(d, k, v)
        ensures e.0 == k || exists j :: 0 <= j < |d| && d[j].0 == e.0
      {
        if e != d[0] {
          assert e in Put(d[1..], k, v);
          if e.0 != k {
            var j :| 0 <= j < |d[1..]| && d[1..][j].0 == e.0;
            assert d[j + 1].0 == e.0;
          }
        }
      }
    }
  }

  /** The key of element i: the stripped element before it, where the one
      before element 0 is the last one (Python's index -1). */
  function KeyOf(data: seq<string>, i: nat): string
    requires i < |data|
  {
    Strip(if i == 0 then data[|data| - 1] else data[i - 1])
  }

  /** The key of every element, in order. */
  function Keys(data: seq<string>): (keys: seq<string>)
    ensures |keys| == |data|
    ensures forall i :: 0 <= i < |data| ==> keys[i] == KeyOf(data, i)
  {
    seq(|data|, i requires 0 <= i < |data| => KeyOf(data, i))
  }

  /** The dictionary built from the first n elements, element i keyed by
      keys[i]. */
  function DictOf(data: seq<string>, keys: seq<string>, n: nat): Dict<string>
    requires n <= |data| == |keys|
  {
    if n == 0 then []
    else if TableLine(data[n - 1]) then Put(DictOf(data, keys, n - 1), keys[n - 1], data[n - 1])
    else DictOf(data, keys, n - 1)
  }

  /** convert_list_to_dict, with each table kept as its text; the decoder
      turns every value into a table. */
  function ConvertListToDict(data: seq<string>): Dict<string> {
    DictOf(data, Keys(data), |data|)
  }

  /** The last table element among the first n whose key is k. */
  function LastTableWith(data: seq<string>, keys: seq<string>, k: string, n: nat): Option<string>
    requires n <= |data| == |keys|
  {
    if n == 0 then None
    else if TableLine(data[n - 1]) && keys[n - 1] == k then Some(data[n - 1])
    else LastTableWith(data, keys, k, n - 1)
  }

  /** The keys are distinct, as in any dict. */
  lemma {:induction false} DictOfDistinct(data: seq<string>, keys: seq<string>, n: nat)
    requires n <= |data| == |keys|
    ensures DistinctKeys(DictOf(data, keys, n))
  {
    if n > 0 {
      var d := DictOf(data, keys, n - 1);
      DictOfDistinct(data, keys, n - 1);
      if TableLine(data[n - 1]) {
        PutDistinct(d, keys[n - 1], data[n - 1]);
      }
    }
  }

  /** Each key holds the last table keyed by it: a repeated key keeps the
      later table, and a key no table has is absent. */
  lemma {:induction false} DictOfGet(data: seq<string>, keys: seq<string>, n: nat, k: string)
    requires n <= |data| == |keys|
    ensures Get(DictOf(data, keys, n), k) == LastTableWith(data, keys, k, n)
  {
    if n > 0 {
      DictOfGet(data, keys, n - 1, k);
      if TableLine(data[n - 1]) {
        PutGet(DictOf(data, keys, n - 1), keys[n - 1], data[n - 1], k);
      }
    }
  }

  /** convert_list_to_dict keeps, for every key, the last table keyed by it
      (element i keyed by KeyOf(data, i)), and its keys are distinct. */
  lemma ConvertListToDictSpec(data: seq<string>, k: string)
    ensures DistinctKeys(ConvertListToDict(data))
    ensures Get(ConvertListToDict(data), k) == LastTableWith(data, Keys(data), k, |data|)
  {
    DictOfDistinct(data, Keys(data), |data|);
    DictOfGet(data, Keys(data), |data|, k);
  }
}
