/** The tag field of the form: typed text is trimmed, lower-cased and only then freed of commas and
    hashes; the server lower-cases and trims. */
module TagForm {
  import opened Options
  import opened Lists
  import opened TagReconcile

  predicate IsMark(c: char) { c == ',' || c == '#' }

  function NotMark(): char -> bool { (c: char) => !IsMark(c) }

  /** Which characters are blank and how one is lower-cased, for the browser and the server alike. */
  datatype Script = Script(blank: char -> bool, lower: char -> char) {
    /** Lower-casing twice is lower-casing once, and it neither makes nor unmakes blanks and marks. */
    ghost predicate Valid() {
      forall c {:trigger lower(c)} ::
        && lower(lower(c)) == lower(c)
        && (blank(lower(c)) <==> blank(c))
        && (IsMark(lower(c)) <==> IsMark(c))
    }

    function TrimLeft(s: string): string {
      if s != "" && blank(s[0]) then TrimLeft(s[1..]) else s
    }

    function TrimRight(s: string): string {
      if s != "" && blank(s[|s|-1]) then TrimRight(s[..|s|-1]) else s
    }

    function Trim(s: string): string { TrimRight(TrimLeft(s)) }

    function Lower(s: string): (r: string)
      ensures |r| == |s| && forall i :: 0 <= i < |s| ==> r[i] == lower(s[i])
    {
      seq(|s|, i requires 0 <= i < |s| => lower(s[i]))
    }

    /** The name made of typed text; if it is empty the text is ignored. */
    function Cleaned(input: string): string { DropMarks(Lower(Trim(input))) }

    /** The server's normal form. */
    function Normalize(): (f: string -> string)
      ensures forall n {:trigger f(n)} :: f(n) == Trim(Lower(n))
    {
      (n: string) => Trim(Lower(n))
    }

    predicate NoBlankEnds(s: string) { s == "" || (!blank(s[0]) && !blank(s[|s|-1])) }
  }

  function DropMarks(s: string): string { Filter(s, NotMark()) }

  // ----- Editing -----

  datatype Edit = Enter(input: string) | Backspace | Remove(tag: string)

  function AllBut(tags: seq<string>, tag: string): seq<string> { Filter(tags, (t: string) => t != tag) }

  function Edited(script: Script, tags: seq<string>, edit: Edit): seq<string> {
    match edit
    case Enter(input) =>
      var tag := script.Cleaned(input);
      if tag != "" && tag !in tags then tags + [tag] else tags
    case Backspace => if tags == [] then tags else tags[..|tags|-1]
    case Remove(tag) => AllBut(tags, tag)
  }

  /** The names submitted: those loaded, after the edits; text left in the field counts as entered. */
  function Submitted(script: Script, loaded: seq<string>, edits: seq<Edit>): seq<string>
    decreases |edits|
  {
    if edits == [] then loaded else Edited(script, Submitted(script, loaded, edits[..|edits|-1]), edits[|edits|-1])
  }

  /** Entering text adds its name at the end, unless it is empty or there. */
  lemma EnterAdds(script: Script, tags: seq<string>, input: string)
    ensures var tag, after := script.Cleaned(input), Edited(script, tags, Enter(input));
            && tags <= after
            && (forall t :: t in after <==> t in tags || (t == tag && tag != ""))
            && |after| == |tags| + (if tag == "" || tag in tags then 0 else 1)
  {
  }

  /** The backspace takes the last name away. */
  lemma BackspaceTakesLast(script: Script, tags: seq<string>, tag: string)
    ensures Edited(script, tags + [tag], Backspace) == tags && Edited(script, [], Backspace) == []
  {
    assert (tags + [tag])[..|tags|] == tags;
  }

  /** Removing a tag leaves all the others, and each as often as before. */
  lemma {:induction false} RemoveTakesOut(script: Script, tags: seq<string>, tag: string)
    ensures var after := Edited(script, tags, Remove(tag));
            && tag !in after
            && multiset(after) == multiset(tags)[tag := 0]
    decreases |tags|
  {
    if tags != [] {
      var front, last := tags[..|tags|-1], tags[|tags|-1];
      RemoveTakesOut(script, front, tag);
      assert tags == front + [last];
    }
  }

  /** Tags are removed without changing the order of the others. */
  lemma {:induction false} RemoveKeepsOrder(script: Script, before: seq<string>, tag: string, after: seq<string>)
    ensures Edited(script, before + after, Remove(tag))
         == Edited(script, before, Remove(tag)) + Edited(script, after, Remove(tag))
    ensures Edited(script, [tag], Remove(tag)) == [] && forall t :: t != tag ==> Edited(script, [t], Remove(tag)) == [t]
    decreases |after|
  {
    forall t ensures AllBut([t], tag) == if t == tag then [] else [t] {
      assert [t][..0] == [] && AllBut([], tag) == [];
    }
    if after == [] {
      assert before + after == before;
    } else {
      var front, last := after[..|after|-1], after[|after|-1];
      RemoveKeepsOrder(script, before, tag, front);
      assert (before + after)[..|before + after|-1] == before + front;
    }
  }

  /** No name is listed twice. */
  lemma {:induction false} NoNameTwice(script: Script, loaded: seq<string>, edits: seq<Edit>)
    requires NoDuplicates(loaded)
    ensures NoDuplicates(Submitted(script, loaded, edits))
    decreases |edits|
  {
    if edits != [] {
      var tags, last := Submitted(script, loaded, edits[..|edits|-1]), edits[|edits|-1];
      NoNameTwice(script, loaded, edits[..|edits|-1]);
      if last.Remove? { FilterKeepsDistinct(tags, (t: string) => t != last.tag); }
    }
  }

  // ----- Trimming -----

  lemma {:induction false} TrimLeftEnds(script: Script, s: string)
    ensures script.TrimLeft(s) == s <==> s == "" || !script.blank(s[0])
    ensures var t := script.TrimLeft(s); |t| <= |s| && (t != "" ==> !script.blank(t[0]))
    decreases |s|
  {
    if s != "" && script.blank(s[0]) { TrimLeftEnds(script, s[1..]); }
  }

  lemma {:induction false} TrimRightEnds(script: Script, s: string)
    ensures var t := script.TrimRight(s);
            && t <= s && (t == s <==> s == "" || !script.blank(s[|s|-1]))
            && (t != "" ==> !script.blank(t[|t|-1]))
    decreases |s|
  {
    if s != "" && script.blank(s[|s|-1]) { TrimRightEnds(script, s[..|s|-1]); }
  }

  /** Trimming leaves no blank at the ends, and leaves alone exactly what has none. */
  lemma TrimEnds(script: Script, s: string)
    ensures script.NoBlankEnds(script.Trim(s))
    ensures script.Trim(s) == s <==> script.NoBlankEnds(s)
  {
    TrimLeftEnds(script, s);
    TrimRightEnds(script, script.TrimLeft(s));
  }

  predicate IsLower(script: Script, s: string) { forall i :: 0 <= i < |s| ==> script.lower(s[i]) == s[i] }

  lemma {:induction false} TrimLeftIsLower(script: Script, s: string)
    requires IsLower(script, s)
    ensures IsLower(script, script.TrimLeft(s))
    decreases |s|
  {
    if s != "" && script.blank(s[0]) { TrimLeftIsLower(script, s[1..]); }
  }

  lemma TrimIsLower(script: Script, s: string)
    requires IsLower(script, s)
    ensures IsLower(script, script.Trim(s))
  {
    TrimLeftIsLower(script, s);
    TrimRightEnds(script, script.TrimLeft(s));
  }

  lemma LowerOfLower(script: Script, s: string)
    requires IsLower(script, s)
    ensures script.Lower(s) == s
  {
  }

  /** A lower-case name is in normal form exactly when it has no blank at its ends. */
  lemma NormalForm(script: Script, n: string)
    requires IsLower(script, n)
    ensures script.Normalize()(n) == n <==> script.NoBlankEnds(n)
  {
    LowerOfLower(script, n);
    TrimEnds(script, n);
  }

  lemma NormalizeIsIdempotent(script: Script)
    requires script.Valid()
    ensures Idempotent(script.Normalize())
  {
    forall n ensures script.Normalize()(script.Normalize()(n)) == script.Normalize()(n) {
      TrimIsLower(script, script.Lower(n));
      TrimEnds(script, script.Lower(n));
      NormalForm(script, script.Normalize()(n));
    }
  }

  // ----- What typing gives -----

  lemma {:induction false} DropMarksOfLower(script: Script, s: string)
    requires script.Valid()
    ensures DropMarks(script.Lower(s)) == script.Lower(DropMarks(s))
    decreases |s|
  {
    if s != "" {
      var front, last := s[..|s|-1], s[|s|-1];
      DropMarksOfLower(script, front);
      assert script.Lower(s)[..|s|-1] == script.Lower(front);
      assert IsMark(script.lower(last)) <==> IsMark(last);
      assert script.Lower(DropMarks(front) + [last]) == script.Lower(DropMarks(front)) + [script.lower(last)];
    }
  }

  /** A name made of typed text is lower-case, and has a blank end exactly when dropping the marks of
      the trimmed text uncovers one. */
  lemma CleanedName(script: Script, input: string)
    requires script.Valid()
    ensures IsLower(script, script.Cleaned(input))
    ensures script.NoBlankEnds(script.Cleaned(input)) <==> script.NoBlankEnds(DropMarks(script.Trim(input)))
  {
    DropMarksOfLower(script, script.Trim(input));
    var dropped := DropMarks(script.Trim(input));
    assert script.Cleaned(input) == script.Lower(dropped);
    if dropped != "" {
      assert script.blank(script.lower(dropped[0])) <==> script.blank(dropped[0]);
      assert script.blank(script.lower(dropped[|dropped|-1])) <==> script.blank(dropped[|dropped|-1]);
    }
  }

  /** Typed text gives a name the server keeps exactly when the name is listed already, or dropping
      the marks of the trimmed text uncovers no blank at its ends. */
  lemma TypedNameIsKept(script: Script, tags: Tags, input: string)
    requires script.Valid() && script.Cleaned(input) != ""
    ensures Kept(tags, script.Normalize(), script.Cleaned(input))
        <==> script.Cleaned(input) in tags || script.NoBlankEnds(DropMarks(script.Trim(input)))
  {
    CleanedName(script, input);
    NormalForm(script, script.Cleaned(input));
  }

  /** Every name in the field was loaded or made of typed text. */
  lemma {:induction false} NamesComeFrom(script: Script, loaded: seq<string>, edits: seq<Edit>, n: string)
    requires n in Submitted(script, loaded, edits) && n !in loaded
    ensures n != "" && exists i :: 0 <= i < |edits| && edits[i].Enter? && script.Cleaned(edits[i].input) == n
    decreases |edits|
  {
    var front, last := edits[..|edits|-1], edits[|edits|-1];
    var tags := Submitted(script, loaded, front);
    if last.Remove? { FilterMembers(tags, (t: string) => t != last.tag, n); }
    if n in tags {
      NamesComeFrom(script, loaded, front, n);
      var i :| 0 <= i < |front| && front[i].Enter? && script.Cleaned(front[i].input) == n;
      assert edits[i] == front[i];
    } else {
      assert last.Enter? && script.Cleaned(edits[|edits|-1].input) == n;
    }
  }

  /** However the tags are edited, the journal ends up with exactly the names in the field if and only
      if each of them is listed already or has no blank at its ends. */
  lemma FormSavesItsNames(script: Script, tags: Tags, loaded: seq<string>, edits: seq<Edit>)
    requires script.Valid() && forall n :: n in loaded ==> n in tags
    ensures var names := Submitted(script, loaded, edits);
            Resolved(tags, script.Normalize(), names) == (set n | n in names)
            <==> forall n :: n in names ==> n in tags || script.NoBlankEnds(n)
  {
    var names := Submitted(script, loaded, edits);
    NormalizeIsIdempotent(script);
    ExactlyTheWantedNames(tags, script.Normalize(), names);
    forall n | n in names ensures Kept(tags, script.Normalize(), n) <==> n in tags || script.NoBlankEnds(n) {
      if n !in tags {
        NamesComeFrom(script, loaded, edits, n);
        var i :| 0 <= i < |edits| && edits[i].Enter? && script.Cleaned(edits[i].input) == n;
        CleanedName(script, edits[i].input);
        NormalForm(script, n);
      }
    }
  }

  lemma DropAppend(s: string, c: char)
    ensures DropMarks(s + [c]) == DropMarks(s) + (if IsMark(c) then [] else [c])
  {
    assert (s + [c])[..|s|] == s;
  }

  lemma HashIsDropped(input: string, shown: string)
    requires input == "go #" && shown == "go "
    ensures DropMarks(input) == shown
  {
    DropAppend([], 'g');
    DropAppend(['g'], 'o');
    DropAppend(['g', 'o'], ' ');
    DropAppend(['g', 'o', ' '], '#');
    assert [] + ['g'] == ['g'] && ['g'] + ['o'] == ['g', 'o'] && ['g', 'o'] + [' '] == shown && shown + ['#'] == input;
  }

  /** Lower-case Latin letters, the blank and the hash are what they are. */
  ghost predicate Plain(script: Script) {
    && script.blank(' ') && !script.blank('g') && !script.blank('o') && !script.blank('#')
    && script.lower('g') == 'g' && script.lower('o') == 'o' && script.lower(' ') == ' ' && script.lower('#') == '#'
  }

  lemma GoIsTrimmed(script: Script, shown: string, stored: string)
    requires Plain(script) && shown == "go " && stored == "go"
    ensures script.Normalize()(shown) == stored
  {
    assert script.Lower(shown) == shown && script.TrimLeft(shown) == shown;
    assert shown[..2] == stored;
    TrimRightEnds(script, stored);
  }

  /** Typing "go #" with no tags yet: the field shows "go ", the journal gets "go". */
  lemma BlankBeforeHash(script: Script, input: string, shown: string, stored: string, edits: seq<Edit>)
    requires script.Valid() && Plain(script)
    requires input == "go #" && shown == "go " && stored == "go" && edits == [Enter(input)]
    ensures Submitted(script, [], edits) == [shown]
    ensures Resolved(map[], script.Normalize(), [shown]) == {stored} && stored != shown
  {
    TrimEnds(script, input);
    assert script.Lower(input) == input;
    HashIsDropped(input, shown);
    assert edits[..0] == [];
    GoIsTrimmed(script, shown, stored);
    ResolvedOne(map[], script.Normalize(), shown);
  }
}
