/** Highlighting a keyword in a text: the keyword becomes a global, case-insensitive regular
    expression with one capturing group; the text is split by it; and each part is tested again
    with the same expression, whose `lastIndex` carries over from test to test.
    Splitting and testing follow sections 22.2.6.14 and 22.2.7.2 of ECMA-262 (14th edition). */
module Highlight {
  import opened Options

  /** How two characters compare when case is ignored. */
  type Fold = char -> char

  // ----- The pattern -----

  /** The characters the highlighter escapes. */
  predicate IsEscaped(c: char) {
    c in {'.', '*', '+', '?', '^', '$', '{', '}', '(', ')', '|', '[', ']', '\\'}
  }

  function Escape(keyword: string): string {
    if keyword == [] then []
    else (if IsEscaped(keyword[0]) then ['\\', keyword[0]] else [keyword[0]]) + Escape(keyword[1..])
  }

  /** A SyntaxCharacter of section 22.2.1: all that is not itself in a pattern outside of a class. */
  predicate IsSyntax(c: char) {
    || c == '^' || c == '$' || c == '\\' || c == '.' || c == '*' || c == '+' || c == '?'
    || c == '(' || c == ')' || c == '[' || c == ']' || c == '{' || c == '}' || c == '|'
  }

  /** The text a pattern without operators stands for; none if there is an unescaped operator. */
  function LiteralOf(pattern: string): Option<string> {
    if pattern == [] then Some([])
    else if pattern[0] == '\\' then
      if |pattern| >= 2 && IsSyntax(pattern[1]) then Cons(pattern[1], LiteralOf(pattern[2..])) else None
    else if IsSyntax(pattern[0]) then None
    else Cons(pattern[0], LiteralOf(pattern[1..]))
  }

  function Cons(c: char, rest: Option<string>): Option<string> {
    if rest.Some? then Some([c] + rest.value) else None
  }

  /** The escaped keyword stands for the keyword, whatever characters it has. */
  lemma {:induction false} EscapeIsLiteral(keyword: string)
    ensures LiteralOf(Escape(keyword)) == Some(keyword)
    decreases |keyword|
  {
    if keyword != [] {
      EscapeIsLiteral(keyword[1..]);
      var rest, escaped := Escape(keyword[1..]), Escape(keyword);
      assert keyword == [keyword[0]] + keyword[1..];
      if IsEscaped(keyword[0]) {
        assert escaped[2..] == rest;
      } else {
        assert escaped[1..] == rest;
      }
    }
  }

  // ----- Matching -----

  predicate MatchesAt(fold: Fold, text: string, keyword: string, q: nat) {
    q + |keyword| <= |text| && forall i :: 0 <= i < |keyword| ==> fold(text[q + i]) == fold(keyword[i])
  }

  /** The parts of `text[p..]`, where no match starts between p and q. */
  function SplitFrom(fold: Fold, text: string, keyword: string, p: nat, q: nat): (parts: seq<string>)
    requires keyword != [] && p <= q <= |text|
    ensures parts != []
    decreases |text| - q
  {
    if q == |text| then [text[p..]]
    else if MatchesAt(fold, text, keyword, q) then
      var e := q + |keyword|;
      [text[p..q], text[q..e]] + SplitFrom(fold, text, keyword, e, e)
    else SplitFrom(fold, text, keyword, p, q + 1)
  }

  function Parts(fold: Fold, text: string, keyword: string): seq<string>
    requires keyword != []
  {
    SplitFrom(fold, text, keyword, 0, 0)
  }

  method MatchSticky(fold: Fold, text: string, keyword: string, q: nat) returns (matched: bool)
    ensures matched == MatchesAt(fold, text, keyword, q)
  {
    if q + |keyword| > |text| {
      return false;
    }
    for i := 0 to |keyword|
      invariant forall j :: 0 <= j < i ==> fold(text[q + j]) == fold(keyword[j])
    {
      if fold(text[q + i]) != fold(keyword[i]) {
        return false;
      }
    }
    return true;
  }

  /** `split`: q runs over the text; a match ends a part and is itself a part. */
  method Split(fold: Fold, text: string, keyword: string) returns (parts: seq<string>)
    requires keyword != [] && text != []
    ensures parts == Parts(fold, text, keyword)
  {
    parts := [];
    var p, q := 0, 0;
    while q < |text|
      invariant p <= q <= |text|
      invariant parts + SplitFrom(fold, text, keyword, p, q) == Parts(fold, text, keyword)
      decreases |text| - q
    {
      var matched := MatchSticky(fold, text, keyword, q);
      if !matched {
        q := q + 1;
      } else {
        var e := q + |keyword|;
        parts := parts + [text[p..q]];
        parts := parts + [text[q..e]];
        p := e;
        q := p;
      }
    }
    parts := parts + [text[p..]];
  }

  /** The first position from `from` on where the keyword matches. */
  function FirstMatch(fold: Fold, text: string, keyword: string, from: nat): Option<nat>
    decreases |text| - from
  {
    if from > |text| then None
    else if MatchesAt(fold, text, keyword, from) then Some(from)
    else FirstMatch(fold, text, keyword, from + 1)
  }

  lemma {:induction false} FirstMatchNone(fold: Fold, text: string, keyword: string, from: nat)
    requires forall q: nat :: !MatchesAt(fold, text, keyword, q)
    ensures FirstMatch(fold, text, keyword, from) == None
    decreases |text| - from
  {
    if from <= |text| { FirstMatchNone(fold, text, keyword, from + 1); }
  }

  /** A global regular expression object. */
  class Regex {
    const fold: Fold
    const keyword: string
    var lastIndex: nat

    constructor (fold: Fold, keyword: string)
      ensures this.fold == fold && this.keyword == keyword && lastIndex == 0
    {
      this.fold, this.keyword, this.lastIndex := fold, keyword, 0;
    }

    /** Tests from `lastIndex` on, and leaves the end of the match, or 0, in `lastIndex`. */
    method Test(s: string) returns (found: bool)
      modifies this
      ensures var m := FirstMatch(fold, s, keyword, old(lastIndex));
              found == m.Some? && lastIndex == if m.Some? then m.value + |keyword| else 0
    {
      var at := lastIndex;
      while at <= |s|
        invariant FirstMatch(fold, s, keyword, at) == FirstMatch(fold, s, keyword, old(lastIndex))
        decreases |s| - at
      {
        var matched := MatchSticky(fold, s, keyword, at);
        if matched {
          lastIndex := at + |keyword|;
          return true;
        }
        at := at + 1;
      }
      lastIndex := 0;
      return false;
    }
  }

  // ----- The highlighter -----

  datatype Piece = Plain(text: string) | Mark(text: string)

  /** The parts between matches are plain, the matches are marked. */
  function Highlighted(parts: seq<string>): seq<Piece> {
    seq(|parts|, i requires 0 <= i < |parts| => if i % 2 == 1 then Mark(parts[i]) else Plain(parts[i]))
  }

  // ----- What is marked -----

  lemma PlainPart(fold: Fold, text: string, keyword: string, p: nat, q: nat)
    requires keyword != [] && p <= q <= |text|
    requires forall r :: p <= r < q ==> !MatchesAt(fold, text, keyword, r)
    ensures forall r: nat :: !MatchesAt(fold, text[p..q], keyword, r)
  {
    forall r: nat ensures !MatchesAt(fold, text[p..q], keyword, r) {
      if MatchesAt(fold, text[p..q], keyword, r) {
        forall i | 0 <= i < |keyword| ensures fold(text[p + r + i]) == fold(keyword[i]) {
          assert text[p..q][r + i] == text[p + r + i];
        }
        assert MatchesAt(fold, text, keyword, p + r);
      }
    }
  }

  /** Parts alternate between stretches without any match and matches. */
  lemma {:induction false} PartsAlternate(fold: Fold, text: string, keyword: string, p: nat, q: nat, i: nat)
    requires keyword != [] && p <= q <= |text|
    requires forall r :: p <= r < q ==> !MatchesAt(fold, text, keyword, r)
    requires i < |SplitFrom(fold, text, keyword, p, q)|
    ensures var part := SplitFrom(fold, text, keyword, p, q)[i];
            if i % 2 == 1 then |part| == |keyword| && MatchesAt(fold, part, keyword, 0)
            else forall r: nat :: !MatchesAt(fold, part, keyword, r)
    decreases |text| - q
  {
    if q == |text| {
      PlainPart(fold, text, keyword, p, q);
      assert text[p..] == text[p..q];
    } else if MatchesAt(fold, text, keyword, q) {
      var e := q + |keyword|;
      if i == 0 { PlainPart(fold, text, keyword, p, q); }
      if i >= 2 { PartsAlternate(fold, text, keyword, e, e, i - 2); }
    } else {
      PartsAlternate(fold, text, keyword, p, q + 1, i);
    }
  }

  /** `parts` cut `text[p..]` into stretches in which no match starts, each but the last followed by
      the match at its end. */
  ghost predicate Cuts(fold: Fold, text: string, keyword: string, p: nat, parts: seq<string>)
    requires p <= |text|
    decreases |parts|
  {
    && parts != []
    && var q := p + |parts[0]|;
       && q <= |text| && parts[0] == text[p..q]
       && (forall r :: p <= r < q ==> !MatchesAt(fold, text, keyword, r))
       && (if |parts| == 1 then q == |text|
           else && MatchesAt(fold, text, keyword, q)
                && parts[1] == text[q..q + |keyword|]
                && Cuts(fold, text, keyword, q + |keyword|, parts[2..]))
  }

  lemma CutsCons(fold: Fold, text: string, keyword: string, p: nat, q: nat, rest: seq<string>)
    requires p <= q && MatchesAt(fold, text, keyword, q)
    requires forall r :: p <= r < q ==> !MatchesAt(fold, text, keyword, r)
    requires Cuts(fold, text, keyword, q + |keyword|, rest)
    ensures Cuts(fold, text, keyword, p, [text[p..q], text[q..q + |keyword|]] + rest)
  {
    var parts := [text[p..q], text[q..q + |keyword|]] + rest;
    assert parts[2..] == rest;
  }

  lemma LastCut(fold: Fold, text: string, keyword: string, p: nat)
    requires keyword != [] && p <= |text| && forall r :: p <= r < |text| ==> !MatchesAt(fold, text, keyword, r)
    ensures Cuts(fold, text, keyword, p, SplitFrom(fold, text, keyword, p, |text|))
  {
    assert text[p..] == text[p..|text|];
  }

  lemma NextCut(fold: Fold, text: string, keyword: string, p: nat, q: nat)
    requires keyword != [] && p <= q < |text| && MatchesAt(fold, text, keyword, q)
    requires forall r :: p <= r < q ==> !MatchesAt(fold, text, keyword, r)
    requires var e := q + |keyword|; Cuts(fold, text, keyword, e, SplitFrom(fold, text, keyword, e, e))
    ensures Cuts(fold, text, keyword, p, SplitFrom(fold, text, keyword, p, q))
  {
    var e := q + |keyword|;
    CutsCons(fold, text, keyword, p, q, SplitFrom(fold, text, keyword, e, e));
  }

  lemma {:induction false} SplitCuts(fold: Fold, text: string, keyword: string, p: nat, q: nat)
    requires keyword != [] && p <= q <= |text|
    requires forall r :: p <= r < q ==> !MatchesAt(fold, text, keyword, r)
    ensures Cuts(fold, text, keyword, p, SplitFrom(fold, text, keyword, p, q))
    decreases |text| - q
  {
    if q == |text| {
      LastCut(fold, text, keyword, p);
    } else if MatchesAt(fold, text, keyword, q) {
      SplitCuts(fold, text, keyword, q + |keyword|, q + |keyword|);
      NextCut(fold, text, keyword, p, q);
    } else {
      SplitCuts(fold, text, keyword, p, q + 1);
    }
  }

  lemma {:induction false} SplitSkips(fold: Fold, text: string, keyword: string, p: nat, q: nat, to: nat)
    requires keyword != [] && p <= q <= to <= |text|
    requires forall r :: q <= r < to ==> !MatchesAt(fold, text, keyword, r)
    ensures SplitFrom(fold, text, keyword, p, q) == SplitFrom(fold, text, keyword, p, to)
    decreases |text| - q
  {
    if q < to { SplitSkips(fold, text, keyword, p, q + 1, to); }
  }

  /** The split up to the next match, or up to the end if there is none. */
  lemma SplitToNextMatch(fold: Fold, text: string, keyword: string, p: nat, q: nat)
    requires keyword != [] && p <= q <= |text|
    requires forall r :: p <= r < q ==> !MatchesAt(fold, text, keyword, r)
    ensures q == |text| ==> SplitFrom(fold, text, keyword, p, p) == [text[p..q]]
    ensures q < |text| && MatchesAt(fold, text, keyword, q) ==>
              SplitFrom(fold, text, keyword, p, p)
              == [text[p..q], text[q..q + |keyword|]] + SplitFrom(fold, text, keyword, q + |keyword|, q + |keyword|)
  {
    SplitSkips(fold, text, keyword, p, p, q);
    assert text[p..|text|] == text[p..];
  }

  lemma {:induction false} CutsAreUnique(fold: Fold, text: string, keyword: string, p: nat, parts: seq<string>)
    requires keyword != [] && p <= |text| && Cuts(fold, text, keyword, p, parts)
    ensures parts == SplitFrom(fold, text, keyword, p, p)
    decreases |parts|
  {
    var q := p + |parts[0]|;
    SplitToNextMatch(fold, text, keyword, p, q);
    if |parts| == 1 {
      assert parts == [text[p..q]];
    } else {
      CutsAreUnique(fold, text, keyword, q + |keyword|, parts[2..]);
      assert parts == [parts[0], parts[1]] + parts[2..];
    }
  }

  /** The highlighter's parts are the one way to cut the text at the keyword's occurrences, taken
      from left to right without overlap. */
  lemma PartsAreTheCuts(fold: Fold, text: string, keyword: string, parts: seq<string>)
    requires keyword != []
    ensures Cuts(fold, text, keyword, 0, parts) <==> parts == Parts(fold, text, keyword)
  {
    SplitCuts(fold, text, keyword, 0, 0);
    if Cuts(fold, text, keyword, 0, parts) { CutsAreUnique(fold, text, keyword, 0, parts); }
  }

  function Texts(pieces: seq<Piece>): string {
    if pieces == [] then "" else pieces[0].text + Texts(pieces[1..])
  }

  function Concat(parts: seq<string>): string {
    if parts == [] then "" else parts[0] + Concat(parts[1..])
  }

  lemma {:induction false} SplitConcat(fold: Fold, text: string, keyword: string, p: nat, q: nat)
    requires keyword != [] && p <= q <= |text|
    ensures Concat(SplitFrom(fold, text, keyword, p, q)) == text[p..]
    decreases |text| - q
  {
    var parts := SplitFrom(fold, text, keyword, p, q);
    if q == |text| {
      assert parts[1..] == [];
    } else if MatchesAt(fold, text, keyword, q) {
      var e := q + |keyword|;
      SplitConcat(fold, text, keyword, e, e);
      assert parts[1..][1..] == SplitFrom(fold, text, keyword, e, e);
      assert text[p..] == text[p..q] + (text[q..e] + text[e..]);
    } else {
      SplitConcat(fold, text, keyword, p, q + 1);
    }
  }

  lemma {:induction false} TextsOf(pieces: seq<Piece>, parts: seq<string>)
    requires |pieces| == |parts| && forall i :: 0 <= i < |parts| ==> pieces[i].text == parts[i]
    ensures Texts(pieces) == Concat(parts)
    decreases |parts|
  {
    if parts != [] { TextsOf(pieces[1..], parts[1..]); }
  }

  /** Nothing of the text is lost, added or moved. */
  lemma HighlightingKeepsTheText(fold: Fold, text: string, keyword: string)
    requires keyword != []
    ensures Texts(Highlighted(Parts(fold, text, keyword))) == text
  {
    SplitConcat(fold, text, keyword, 0, 0);
    TextsOf(Highlighted(Parts(fold, text, keyword)), Parts(fold, text, keyword));
  }

  // ----- The pieces shown -----

  /** The pieces show `text[p..]`: a plain piece up to the first match from p on, then that match,
      marked, and so on; a plain piece to the end if there is no further match. */
  ghost predicate Scanned(fold: Fold, text: string, keyword: string, p: nat, pieces: seq<Piece>)
    requires p <= |text|
    decreases |pieces|
  {
    && pieces != [] && pieces[0].Plain?
    && var q := p + |pieces[0].text|;
       && q <= |text| && pieces[0].text == text[p..q]
       && (forall r :: p <= r < q ==> !MatchesAt(fold, text, keyword, r))
       && (if |pieces| == 1 then q == |text|
           else && MatchesAt(fold, text, keyword, q)
                && pieces[1] == Mark(text[q..q + |keyword|])
                && Scanned(fold, text, keyword, q + |keyword|, pieces[2..]))
  }

  /** A mark is an occurrence of the keyword, up to case; a plain piece holds none. */
  predicate IsMarkedRight(fold: Fold, keyword: string, piece: Piece) {
    match piece
    case Mark(t) => |t| == |keyword| && forall i :: 0 <= i < |t| ==> fold(t[i]) == fold(keyword[i])
    case Plain(t) => forall r :: 0 <= r <= |t| ==> !MatchesAt(fold, t, keyword, r)
  }

  lemma {:induction false} CutsAreScanned(fold: Fold, text: string, keyword: string, p: nat, parts: seq<string>)
    requires p <= |text| && Cuts(fold, text, keyword, p, parts)
    ensures Scanned(fold, text, keyword, p, Highlighted(parts))
    decreases |parts|
  {
    if |parts| > 1 {
      CutsAreScanned(fold, text, keyword, p + |parts[0]| + |keyword|, parts[2..]);
      assert Highlighted(parts)[2..] == Highlighted(parts[2..]);
    }
  }

  lemma PiecesAreRight(fold: Fold, text: string, keyword: string, i: nat)
    requires keyword != [] && i < |Parts(fold, text, keyword)|
    ensures IsMarkedRight(fold, keyword, Highlighted(Parts(fold, text, keyword))[i])
  {
    PartsAlternate(fold, text, keyword, 0, 0, i);
  }

  lemma HighlightingIsRight(fold: Fold, text: string, keyword: string, pieces: seq<Piece>)
    requires keyword != [] && pieces == Highlighted(Parts(fold, text, keyword))
    ensures Texts(pieces) == text
    ensures forall piece :: piece in pieces ==> IsMarkedRight(fold, keyword, piece)
    ensures Scanned(fold, text, keyword, 0, pieces)
  {
    HighlightingKeepsTheText(fold, text, keyword);
    forall piece | piece in pieces ensures IsMarkedRight(fold, keyword, piece) {
      var i :| 0 <= i < |pieces| && pieces[i] == piece;
      PiecesAreRight(fold, text, keyword, i);
    }
    SplitCuts(fold, text, keyword, 0, 0);
    CutsAreScanned(fold, text, keyword, 0, Parts(fold, text, keyword));
  }

  /** The tests never go astray: a captured part is always tested from its start, because the test
      of the plain part before it found nothing and put `lastIndex` back to 0. */
  method HighlightKeyword(fold: Fold, text: string, keyword: string) returns (pieces: seq<Piece>)
    ensures keyword == [] || text == [] ==> pieces == [Plain(text)]
    ensures Texts(pieces) == text
    ensures keyword != [] ==> forall piece :: piece in pieces ==> IsMarkedRight(fold, keyword, piece)
    ensures keyword != [] ==> Scanned(fold, text, keyword, 0, pieces)
  {
    if keyword == [] || text == [] {
      return [Plain(text)];
    }
    var regex := new Regex(fold, keyword);
    var parts := Split(fold, text, keyword);
    pieces := [];
    for i := 0 to |parts|
      invariant |pieces| == i
      invariant forall j :: 0 <= j < i ==> pieces[j] == Highlighted(parts)[j]
      invariant i % 2 == 1 ==> regex.lastIndex == 0
    {
      PartsAlternate(fold, text, keyword, 0, 0, i);
      if i % 2 == 0 { FirstMatchNone(fold, parts[i], keyword, regex.lastIndex); }
      var found := regex.Test(parts[i]);
      pieces := pieces + [if found then Mark(parts[i]) else Plain(parts[i])];
    }
    assert pieces == Highlighted(parts);
    HighlightingIsRight(fold, text, keyword, pieces);
  }
}
