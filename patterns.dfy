/** re.match of a pattern built at run time, as Series.str.match uses it in
    the rename step of src/rp_transformers/analytical.py:89-94: the pattern
    ".*" followed by a participant's unit key.  Keys made of literal
    characters, '.', and a greedy '*', '+' or '?' after a single character
    are compiled and matched; a key whose parentheses do not close in order
    is rejected as Python's re rejects it (re.error); every other use of the
    regex syntax is outside the modelled subset. */
module RuntimePatterns {
  import opened Wrappers
  import opened Text

  datatype Atom = Any | Lit(c: char)
  datatype Quant = One | Opt | Star | Plus
  datatype Piece = Piece(atom: Atom, quant: Quant)

  /** What re.compile makes of a pattern: a pattern of the modelled subset,
      re.error, or a pattern the subset does not cover. */
  datatype Compiled = Pattern(pieces: seq<Piece>) | Invalid | Outside

  /** Regex syntax the subset leaves out: escapes, classes, repeats in
      braces, alternation and anchors. */
  const Unmodelled: string := "\\[{|^$"

  predicate IsQuant(c: char) {
    c == '*' || c == '+' || c == '?'
  }

  /** A key in which every character stands for itself. */
  predicate Plain(key: string) {
    forall i :: 0 <= i < |key| ==> key[i] !in "\\[{|^$().*+?"
  }

  /** The parentheses of s close in order, depth of them being open before s. */
  predicate Balanced(s: string, depth: nat) {
    if s == [] then depth == 0
    else if s[0] == '(' then Balanced(s[1..], depth + 1)
    else if s[0] == ')' then depth > 0 && Balanced(s[1..], depth - 1)
    else Balanced(s[1..], depth)
  }

  /** An extension group "(?" opens somewhere in s. */
  predicate HasExtension(s: string) {
    exists i :: 0 <= i < |s| - 1 && s[i] == '(' && s[i + 1] == '?'
  }

  function QuantOf(c: char): Quant
    requires IsQuant(c)
  {
    if c == '*' then Star else if c == '+' then Plus else Opt
  }

  function AtomOf(c: char): Atom {
    if c == '.' then Any else Lit(c)
  }

  /** The pieces of a key without groups: each character ('.' standing for
      any character but a line break) with at most one quantifier after it;
      None for a quantifier with nothing before it or after another one. */
  function Pieces(key: string): (r: Option<seq<Piece>>)
    ensures r.Some? ==> |r.value| <= |key|
  {
    if key == [] then Some([])
    else if IsQuant(key[0]) then None
    else
      var q := if |key| > 1 && IsQuant(key[1]) then QuantOf(key[1]) else One;
      var rest := if q == One then key[1..] else key[2..];
      match Pieces(rest)
      case None => None
      case Some(ps) => Some([Piece(AtomOf(key[0]), q)] + ps)
  }

  /** re.compile(".*" + key). */
  function Compile(key: string): (r: Compiled)
    ensures r.Pattern? ==> r.pieces != [] && r.pieces[0] == Piece(Any, Star)
    ensures r.Invalid? ==> '(' in key || ')' in key
  {
    if exists i :: 0 <= i < |key| && key[i] in Unmodelled then Outside
    else if HasExtension(key) then Outside
    else if !Balanced(key, 0) then
      NoParensBalanced(key, 0);
      Invalid
    else if '(' in key then Outside
    else
      match Pieces(key)
      case None => Outside
      case Some(ps) => Pattern([Piece(Any, Star)] + ps)
  }

  lemma {:induction false} NoParensBalanced(s: string, depth: nat)
    ensures '(' !in s && ')' !in s ==> (Balanced(s, depth) <==> depth == 0)
  {
    if s != [] && '(' !in s && ')' !in s {
      assert '(' !in s[1..] && ')' !in s[1..] by {
        assert forall j :: 0 <= j < |s| - 1 ==> s[1..][j] == s[j + 1];
      }
      NoParensBalanced(s[1..], depth);
    }
  }

  predicate AtomMatches(a: Atom, c: char) {
    match a
    case Any => c != '\n'
    case Lit(x) => c == x
  }

  /** The pieces ps match some prefix of s[i..]: re.match backtracks over
      every choice of the quantifiers, so only the existence of a match
      counts. */
  predicate MatchFrom(ps: seq<Piece>, s: string, i: nat)
    requires i <= |s|
    decreases |ps|, |s| - i
  {
    if ps == [] then true
    else
      var p := ps[0];
      var here := i < |s| && AtomMatches(p.atom, s[i]);
      match p.quant
      case One => here && MatchFrom(ps[1..], s, i + 1)
      case Opt => MatchFrom(ps[1..], s, i) || (here && MatchFrom(ps[1..], s, i + 1))
      case Star => MatchFrom(ps[1..], s, i) || (here && MatchFrom(ps, s, i + 1))
      case Plus => here && MatchFrom([Piece(p.atom, Star)] + ps[1..], s, i + 1)
  }

  /** re.match(pattern, s) is not None. */
  predicate ReMatch(ps: seq<Piece>, s: string) {
    MatchFrom(ps, s, 0)
  }

  /** The key occurs in s before its first line break. */
  predicate KeyMatch(s: string, key: string) {
    exists i :: 0 <= i <= |s| && '\n' !in s[..i] && StartsWith(s[i..], key)
  }

  /** The key, character by character. */
  function Lits(key: string): (r: seq<Piece>)
    ensures |r| == |key| && forall i :: 0 <= i < |key| ==> r[i] == Piece(Lit(key[i]), One)
  {
    seq(|key|, i requires 0 <= i < |key| => Piece(Lit(key[i]), One))
  }

  /** A plain key compiles to ".*" and its own characters. */
  lemma PlainCompiles(key: string)
    requires Plain(key)
    ensures Compile(key) == Pattern([Piece(Any, Star)] + Lits(key))
  {
    assert '(' !in key && ')' !in key by {
      assert forall i :: 0 <= i < |key| ==> key[i] != '(' && key[i] != ')';
    }
    assert !exists i :: 0 <= i < |key| && key[i] in Unmodelled;
    NoParensBalanced(key, 0);
    PlainPieces(key);
  }

  lemma {:induction false} PlainPieces(key: string)
    requires Plain(key)
    ensures Pieces(key) == Some(Lits(key))
  {
    if key != [] {
      assert key[0] !in "\\[{|^$().*+?";
      if |key| > 1 {
        assert key[1] !in "\\[{|^$().*+?";
      }
      assert Plain(key[1..]) by {
        assert forall i :: 0 <= i < |key| - 1 ==> key[1..][i] == key[i + 1];
      }
      PlainPieces(key[1..]);
      assert [Piece(Lit(key[0]), One)] + Lits(key[1..]) == Lits(key);
    }
  }

  /** The literal pieces of a key match at i exactly when the key starts there. */
  lemma {:induction false} LitsMatch(key: string, s: string, i: nat)
    requires i <= |s|
    ensures MatchFrom(Lits(key), s, i) <==> StartsWith(s[i..], key)
    decreases |key|
  {
    if key != [] {
      assert Lits(key)[1..] == Lits(key[1..]);
      if i < |s| {
        LitsMatch(key[1..], s, i + 1);
        assert s[i + 1..] == s[i..][1..];
        if StartsWith(s[i..], key) {
          assert s[i..][..|key|][1..] == s[i + 1..][..|key| - 1];
        }
        if s[i] == key[0] && StartsWith(s[i + 1..], key[1..]) {
          assert s[i..][..|key|] == [s[i]] + s[i + 1..][..|key| - 1];
        }
      }
    }
  }

  /** A leading ".*" lets the rest match after any stretch without a line
      break. */
  lemma {:induction false} StarMatch(ps: seq<Piece>, s: string, i: nat)
    requires i <= |s|
    ensures MatchFrom([Piece(Any, Star)] + ps, s, i) <==>
      exists j :: i <= j <= |s| && '\n' !in s[i..j] && MatchFrom(ps, s, j)
    decreases |s| - i
  {
    var star := [Piece(Any, Star)] + ps;
    assert star[1..] == ps;
    if i < |s| {
      StarMatch(ps, s, i + 1);
      if MatchFrom(star, s, i) && !MatchFrom(ps, s, i) {
        var j :| i + 1 <= j <= |s| && '\n' !in s[i + 1..j] && MatchFrom(ps, s, j);
        assert s[i..j] == [s[i]] + s[i + 1..j];
      }
      if exists j :: i <= j <= |s| && '\n' !in s[i..j] && MatchFrom(ps, s, j) {
        var j :| i <= j <= |s| && '\n' !in s[i..j] && MatchFrom(ps, s, j);
        if j > i {
          assert s[i..j][0] == s[i];
          assert s[i + 1..j] == s[i..j][1..];
        }
      }
    } else {
      if exists j :: i <= j <= |s| && '\n' !in s[i..j] && MatchFrom(ps, s, j) {
        var j :| i <= j <= |s| && '\n' !in s[i..j] && MatchFrom(ps, s, j);
        assert j == i;
      }
    }
  }

  /** For a plain key the compiled pattern matches exactly the texts whose
      first line holds the key. */
  lemma PlainKeyMatch(s: string, key: string)
    requires Plain(key)
    ensures Compile(key).Pattern? && (ReMatch(Compile(key).pieces, s) <==> KeyMatch(s, key))
  {
    PlainCompiles(key);
    StarMatch(Lits(key), s, 0);
    forall j | 0 <= j <= |s|
      ensures MatchFrom(Lits(key), s, j) <==> StartsWith(s[j..], key)
    {
      LitsMatch(key, s, j);
    }
    assert forall j :: 0 <= j <= |s| ==> s[0..j] == s[..j];
  }

  /** A '+' in a key is a quantifier, not a character: "A+B" matches
      "X AAB", which does not hold the text "A+B". */
  lemma PlusRepeats()
    ensures Compile("A+B") == Pattern([Piece(Any, Star), Piece(Lit('A'), Plus), Piece(Lit('B'), One)])
    ensures ReMatch(Compile("A+B").pieces, "X AAB")
    ensures !KeyMatch("X AAB", "A+B")
  {
    PlusCompiles();
    PlusMatches();
    PlusNotLiteral();
  }

  lemma PlusCompiles()
    ensures Compile("A+B") == Pattern([Piece(Any, Star), Piece(Lit('A'), Plus), Piece(Lit('B'), One)])
  {
    var key := "A+B";
    assert !exists i :: 0 <= i < |key| && key[i] in Unmodelled;
    assert !HasExtension(key);
    assert '(' !in key && ')' !in key;
    NoParensBalanced(key, 0);
    assert key[2..] == "B" && "B"[1..] == [];
    assert Pieces("B") == Some([Piece(Lit('B'), One)] + []);
    assert [Piece(Lit('B'), One)] + [] == [Piece(Lit('B'), One)];
    assert Pieces(key[2..]) == Some([Piece(Lit('B'), One)]);
  }

  lemma PlusMatches()
    ensures ReMatch([Piece(Any, Star), Piece(Lit('A'), Plus), Piece(Lit('B'), One)], "X AAB")
  {
    var ps := [Piece(Any, Star), Piece(Lit('A'), Plus), Piece(Lit('B'), One)];
    var s := "X AAB";
    var tail := [Piece(Lit('A'), Star)] + ps[2..];
    assert tail[1..] == ps[2..];
    assert MatchFrom(ps[2..], s, 4);
    assert MatchFrom(tail, s, 4);
    assert MatchFrom(tail, s, 3);
    assert MatchFrom(ps[1..], s, 2);
    assert MatchFrom(ps, s, 2);
    assert MatchFrom(ps, s, 1);
    assert MatchFrom(ps, s, 0);
  }

  lemma PlusNotLiteral()
    ensures !KeyMatch("X AAB", "A+B")
  {
    var key := "A+B";
    var s := "X AAB";
    assert forall j :: 0 <= j < |s| ==> s[j] != '+';
    forall i | 0 <= i <= |s|
      ensures !StartsWith(s[i..], key)
    {
      if i + 3 <= |s| {
        assert s[i..][1] == s[i + 1] != key[1];
      }
    }
  }

  /** An unclosed group is re.error: "LOJA (CENTRO" does not compile. */
  lemma UnclosedGroupRejected()
    ensures Compile("LOJA (CENTRO") == Invalid
  {
    var key := "LOJA (CENTRO";
    assert !exists i :: 0 <= i < |key| && key[i] in Unmodelled;
    assert !HasExtension(key);
    var front, rest := "LOJA ", "CENTRO";
    assert key == front + ("(" + rest);
    NoParensPrefix(front, "(" + rest, 0);
    assert ("(" + rest)[1..] == rest;
    NoParensBalanced(rest, 1);
  }

  lemma {:induction false} NoParensPrefix(p: string, s: string, depth: nat)
    requires '(' !in p && ')' !in p
    ensures Balanced(p + s, depth) == Balanced(s, depth)
  {
    if p != [] {
      assert (p + s)[1..] == p[1..] + s;
      assert '(' !in p[1..] && ')' !in p[1..] by {
        assert forall j :: 0 <= j < |p| - 1 ==> p[1..][j] == p[j + 1];
      }
      NoParensPrefix(p[1..], s, depth);
    } else {
      assert p + s == s;
    }
  }
}
