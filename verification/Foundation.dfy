/** Foundation work as the browser judges it: the classifier behind the charts, and the badge of the
    search page. */
module Foundation {
  import opened Lists
  import opened Options

  /** A tag in a response: a bare string, or an object that may have a name. */
  datatype TagEntry = Plain(text: string) | Named(name: Option<string>)

  /** A journal as the browser receives it. */
  datatype Entry = Entry(
    id: int, category: Option<string>, title: Option<string>, didToday: Option<string>, learnedToday: Option<string>,
    tags: seq<TagEntry>)

  function Text(text: Option<string>): string { if text.Some? then text.value else "" }

  // ----- The badge of the search page -----

  const FOUNDATION_TAGS: set<string> := {"mentoring", "refactor", "tech-debt", "incident", "architecture"}
  const FOUNDATION_CATEGORIES: set<string> := {"maintenance", "meeting", "other"}

  /** `t.name || t`, when that is a string. */
  function Label(t: TagEntry): Option<string> {
    match t
    case Plain(text) => Some(text)
    case Named(name) => if name == Some("") then None else name
  }

  predicate IsFoundationWork(e: Entry) {
    || (e.category.Some? && e.category.value in FOUNDATION_CATEGORIES)
    || exists t :: t in e.tags && Label(t).Some? && Label(t).value in FOUNDATION_TAGS
  }

  // ----- The classifier -----

  datatype Pillar = RefactoringDebt | OperationalResilience | MentorshipUnblocking | GovernanceArchitecture

  const PILLARS: seq<Pillar> := [RefactoringDebt, OperationalResilience, MentorshipUnblocking, GovernanceArchitecture]

  lemma EveryPillar(p: Pillar)
    ensures p in PILLARS
  {
    assert PILLARS[0] == RefactoringDebt && PILLARS[1] == OperationalResilience;
    assert PILLARS[2] == MentorshipUnblocking && PILLARS[3] == GovernanceArchitecture;
  }

  function PillarTags(p: Pillar): seq<string> {
    match p
    case RefactoringDebt => ["refactor", "tech-debt", "database", "performance"]
    case OperationalResilience => ["incident", "devops", "infrastructure", "monitoring", "hotfix"]
    case MentorshipUnblocking => ["mentoring", "onboarding", "code-review", "unblocking", "hiring"]
    case GovernanceArchitecture => ["architecture", "security", "compliance", "audit"]
  }

  function PillarCategories(p: Pillar): seq<string> {
    match p
    case RefactoringDebt => ["maintenance"]
    case OperationalResilience => ["debugging"]
    case MentorshipUnblocking => ["meeting"]
    case GovernanceArchitecture => ["request"]
  }

  function Keywords(p: Pillar): seq<string> {
    match p
    case RefactoringDebt => ["refactor", "tech debt", "optimization"]
    case OperationalResilience => ["incident", "outage", "hotfix", "pipeline fix"]
    case MentorshipUnblocking => ["mentor", "unblock", "onboarding", "pair program"]
    case GovernanceArchitecture => ["architecture", "security review", "rfc", "adr"]
  }

  /** The browser's lower-casing; all that is used of it is that it leaves plain lower-case words alone. */
  type Lower = string -> string

  predicate IsLowerCase(s: string) { forall i :: 0 <= i < |s| ==> 'a' <= s[i] <= 'z' || s[i] == '-' }

  ghost predicate Lowers(lower: Lower) { forall s :: IsLowerCase(s) ==> lower(s) == s }

  function StripHash(s: string): string { if s != "" && s[0] == '#' then s[1..] else s }

  function NameOf(lower: Lower, t: TagEntry): string {
    match t
    case Plain(text) => StripHash(lower(text))
    case Named(name) => if name.Some? then StripHash(lower(name.value)) else ""
  }

  /** The names that are not empty. */
  function ExtractTagNames(lower: Lower, tags: seq<TagEntry>): seq<string> {
    if tags == [] then []
    else (if NameOf(lower, tags[0]) == "" then [] else [NameOf(lower, tags[0])]) + ExtractTagNames(lower, tags[1..])
  }

  lemma {:induction false} ExtractedNames(lower: Lower, tags: seq<TagEntry>, n: string)
    ensures n in ExtractTagNames(lower, tags) <==> n != "" && exists t :: t in tags && NameOf(lower, t) == n
    decreases |tags|
  {
    if tags != [] {
      ExtractedNames(lower, tags[1..], n);
      assert forall t :: t in tags <==> t == tags[0] || t in tags[1..];
    }
  }

  predicate IncludesAt(text: string, word: string, i: nat) { i + |word| <= |text| && text[i..i + |word|] == word }

  predicate Includes(text: string, word: string) { exists i :: 0 <= i <= |text| && IncludesAt(text, word, i) }

  function CategoryOf(lower: Lower, e: Entry): string { lower(Text(e.category)) }

  function TextContent(lower: Lower, e: Entry): string {
    lower(Text(e.title) + " " + Text(e.didToday) + " " + Text(e.learnedToday))
  }

  predicate Unspecific(category: string) { category == "other" || category == "general" || category == "" }

  /** The journal carries one of the pillar's tags, has its category, or has no specific category and
      mentions one of its keywords. */
  predicate Belongs(lower: Lower, e: Entry, p: Pillar) {
    || (exists t :: t in e.tags && NameOf(lower, t) in PillarTags(p))
    || CategoryOf(lower, e) in PillarCategories(p)
    || (Unspecific(CategoryOf(lower, e)) && exists w :: w in Keywords(p) && Includes(TextContent(lower, e), w))
  }

  function BelongsTo(lower: Lower, e: Entry): Pillar -> bool { (p: Pillar) => Belongs(lower, e, p) }

  function Matching(lower: Lower, e: Entry): seq<Pillar> { Filter(PILLARS, BelongsTo(lower, e)) }

  datatype Classification = Classification(isFoundation: bool, primaryPillar: Option<Pillar>,
                                           matchedPillars: seq<Pillar>)

  /** The pillars a journal belongs to, in the order of the table; a journal of category "other" that
      belongs to none is counted as operational. */
  function Classify(lower: Lower, e: Entry): Classification {
    var matched := Matching(lower, e);
    var pillars := if matched == [] && CategoryOf(lower, e) == "other" then [OperationalResilience] else matched;
    Classification(pillars != [], if pillars == [] then None else Some(pillars[0]), pillars)
  }

  lemma TagNamesMatch(lower: Lower, e: Entry, p: Pillar)
    ensures (exists tag :: tag in PillarTags(p) && tag in ExtractTagNames(lower, e.tags))
        <==> exists t :: t in e.tags && NameOf(lower, t) in PillarTags(p)
  {
    forall n
      ensures n in ExtractTagNames(lower, e.tags) <==> n != "" && exists t :: t in e.tags && NameOf(lower, t) == n
    {
      ExtractedNames(lower, e.tags, n);
    }
    assert "" !in PillarTags(p);
    if t :| t in e.tags && NameOf(lower, t) in PillarTags(p) {
      assert NameOf(lower, t) in ExtractTagNames(lower, e.tags);
    }
  }

  /** The part of the loop body that decides whether a pillar matches. */
  method MatchPillar(lower: Lower, e: Entry, p: Pillar, tagNames: seq<string>, category: string, textContent: string)
      returns (matched: bool)
    requires tagNames == ExtractTagNames(lower, e.tags)
    requires category == CategoryOf(lower, e) && textContent == TextContent(lower, e)
    ensures matched == Belongs(lower, e, p)
  {
    TagNamesMatch(lower, e, p);
    matched := false;
    if exists tag :: tag in PillarTags(p) && tag in tagNames {
      matched := true;
    }
    if !matched && category in PillarCategories(p) {
      matched := true;
    }
    if !matched && (category == "other" || category == "general" || category == "") {
      if exists w :: w in Keywords(p) && Includes(textContent, w) {
        matched := true;
      }
    }
  }

  /** A category named by the fallback, other than "other", is the category of a pillar. */
  lemma NamedCategoriesMatch(lower: Lower, e: Entry)
    ensures CategoryOf(lower, e) == "maintenance" ==> RefactoringDebt in Matching(lower, e)
    ensures CategoryOf(lower, e) == "meeting" ==> MentorshipUnblocking in Matching(lower, e)
  {
    EveryPillar(RefactoringDebt);
    EveryPillar(MentorshipUnblocking);
    FilterMembers(PILLARS, BelongsTo(lower, e), RefactoringDebt);
    FilterMembers(PILLARS, BelongsTo(lower, e), MentorshipUnblocking);
  }

  method ClassifyJournal(lower: Lower, journal: Option<Entry>) returns (c: Classification)
    ensures c == if journal.None? then Classification(false, None, []) else Classify(lower, journal.value)
  {
    if journal.None? {
      return Classification(false, None, []);
    }
    var e := journal.value;
    var tagNames := ExtractTagNames(lower, e.tags);
    var category := CategoryOf(lower, e);
    var textContent := TextContent(lower, e);
    var matchedPillars := [];
    for i := 0 to |PILLARS|
      invariant matchedPillars == Filter(PILLARS[..i], BelongsTo(lower, e))
    {
      FilterNext(PILLARS, i, BelongsTo(lower, e));
      var matched := MatchPillar(lower, e, PILLARS[i], tagNames, category, textContent);
      if matched {
        matchedPillars := matchedPillars + [PILLARS[i]];
      }
    }
    assert PILLARS[..|PILLARS|] == PILLARS;
    NamedCategoriesMatch(lower, e);
    if matchedPillars == [] && category in ["maintenance", "meeting", "other"] {
      if category == "maintenance" {
        matchedPillars := [RefactoringDebt];
      } else if category == "meeting" {
        matchedPillars := [MentorshipUnblocking];
      } else {
        matchedPillars := [OperationalResilience];
      }
    }
    var primaryPillar := if matchedPillars == [] then None else Some(matchedPillars[0]);
    c := Classification(|matchedPillars| > 0, primaryPillar, matchedPillars);
  }

  // ----- What a classification means -----

  /** A journal is foundation work exactly when it belongs to some pillar or has the category "other";
      its primary pillar is the first it belongs to. */
  lemma ClassifyMeaning(lower: Lower, e: Entry)
    ensures var c := Classify(lower, e);
            && (c.isFoundation <==> CategoryOf(lower, e) == "other" || exists p :: Belongs(lower, e, p))
            && (c.isFoundation <==> c.primaryPillar.Some?)
            && (forall k :: 0 <= k < |PILLARS| && Belongs(lower, e, PILLARS[k])
                            && (forall i :: 0 <= i < k ==> !Belongs(lower, e, PILLARS[i]))
                            ==> c.primaryPillar == Some(PILLARS[k]))
            && (c.isFoundation && (forall p :: !Belongs(lower, e, p)) ==>
                  c.primaryPillar == Some(OperationalResilience))
  {
    var matched := Matching(lower, e);
    forall p ensures p in matched <==> Belongs(lower, e, p) {
      FilterMembers(PILLARS, BelongsTo(lower, e), p);
      EveryPillar(p);
    }
    if matched != [] { assert Belongs(lower, e, matched[0]); }
    forall k | 0 <= k < |PILLARS| && Belongs(lower, e, PILLARS[k])
               && forall i :: 0 <= i < k ==> !Belongs(lower, e, PILLARS[i])
      ensures Classify(lower, e).primaryPillar == Some(PILLARS[k])
    {
      FilterFirst(PILLARS, BelongsTo(lower, e), k);
    }
  }

  // ----- The same in plain words -----

  /** All the tags, of whatever pillar. */
  const FOUNDATION_WORDS: set<string> :=
    {"refactor", "tech-debt", "database", "performance", "incident", "devops", "infrastructure", "monitoring", "hotfix",
     "mentoring", "onboarding", "code-review", "unblocking", "hiring",
     "architecture", "security", "compliance", "audit"}

  /** All the keywords, of whatever pillar. */
  const FOUNDATION_PHRASES: set<string> :=
    {"refactor", "tech debt", "optimization", "incident", "outage", "hotfix", "pipeline fix", "mentor", "unblock",
     "onboarding", "pair program", "architecture", "security review", "rfc", "adr"}

  function TagText(t: TagEntry): Option<string> { match t case Plain(text) => Some(text) case Named(name) => name }

  /** The tag is the word up to case, with or without a hash before it. */
  predicate Says(lower: Lower, t: TagEntry, word: string) {
    TagText(t).Some? && (lower(TagText(t).value) == word || lower(TagText(t).value) == "#" + word)
  }

  lemma NameIsWord(lower: Lower, t: TagEntry, word: string)
    requires word != "" && word[0] != '#'
    ensures NameOf(lower, t) == word <==> Says(lower, t, word)
  {
    if TagText(t).Some? {
      var s := lower(TagText(t).value);
      if s != "" && s[0] == '#' { assert s == "#" + s[1..]; }
      assert ("#" + word)[1..] == word;
    }
  }

  lemma WordsAreTags(word: string)
    ensures word in FOUNDATION_WORDS <==> exists p :: word in PillarTags(p)
    ensures word in FOUNDATION_WORDS ==> word != "" && word[0] != '#'
  {
    if word in FOUNDATION_WORDS {
      assert || word in PillarTags(RefactoringDebt) || word in PillarTags(OperationalResilience)
             || word in PillarTags(MentorshipUnblocking) || word in PillarTags(GovernanceArchitecture);
    }
  }

  lemma PhrasesAreKeywords(phrase: string)
    ensures phrase in FOUNDATION_PHRASES <==> exists p :: phrase in Keywords(p)
  {
    if phrase in FOUNDATION_PHRASES {
      assert || phrase in Keywords(RefactoringDebt) || phrase in Keywords(OperationalResilience)
             || phrase in Keywords(MentorshipUnblocking) || phrase in Keywords(GovernanceArchitecture);
    }
  }

  lemma CategoriesArePillars(category: string)
    ensures category in {"maintenance", "debugging", "meeting", "request"}
            <==> exists p :: category in PillarCategories(p)
  {
    if category in {"maintenance", "debugging", "meeting", "request"} {
      assert || category in PillarCategories(RefactoringDebt)
             || category in PillarCategories(OperationalResilience)
             || category in PillarCategories(MentorshipUnblocking)
             || category in PillarCategories(GovernanceArchitecture);
    }
  }

  ghost predicate HasWord(lower: Lower, e: Entry) {
    exists t, word :: t in e.tags && word in FOUNDATION_WORDS && Says(lower, t, word)
  }

  ghost predicate HasPhrase(lower: Lower, e: Entry) {
    exists phrase :: phrase in FOUNDATION_PHRASES
      && Includes(lower(Text(e.title) + " " + Text(e.didToday) + " " + Text(e.learnedToday)), phrase)
  }

  lemma TagPart(lower: Lower, e: Entry)
    ensures HasWord(lower, e) <==> exists p, t :: t in e.tags && NameOf(lower, t) in PillarTags(p)
  {
    if t, word :| t in e.tags && word in FOUNDATION_WORDS && Says(lower, t, word) {
      WordsAreTags(word);
      NameIsWord(lower, t, word);
    }
    if p, t :| t in e.tags && NameOf(lower, t) in PillarTags(p) {
      WordsAreTags(NameOf(lower, t));
      NameIsWord(lower, t, NameOf(lower, t));
    }
  }

  lemma PhrasePart(lower: Lower, e: Entry)
    ensures HasPhrase(lower, e) <==> exists p, w :: w in Keywords(p) && Includes(TextContent(lower, e), w)
  {
    if w :| w in FOUNDATION_PHRASES && Includes(TextContent(lower, e), w) {
      PhrasesAreKeywords(w);
    }
    if p, w :| w in Keywords(p) && Includes(TextContent(lower, e), w) {
      PhrasesAreKeywords(w);
    }
  }

  /** A journal is foundation work exactly when it has one of the tags, or one of the five categories,
      or, if its category is general or missing, its text contains one of the phrases. */
  lemma FoundationInWords(lower: Lower, e: Entry)
    ensures var category := lower(Text(e.category));
            Classify(lower, e).isFoundation
            <==> || HasWord(lower, e)
                 || category in {"maintenance", "debugging", "meeting", "request", "other"}
                 || (category in {"general", ""} && HasPhrase(lower, e))
  {
    var category := lower(Text(e.category));
    ClassifyMeaning(lower, e);
    TagPart(lower, e);
    PhrasePart(lower, e);
    CategoriesArePillars(category);
    if HasWord(lower, e) {
      var p, t :| t in e.tags && NameOf(lower, t) in PillarTags(p);
      assert Belongs(lower, e, p);
    }
    if p :| category in PillarCategories(p) { assert Belongs(lower, e, p); }
    if category in {"general", ""} && HasPhrase(lower, e) {
      var p, w :| w in Keywords(p) && Includes(TextContent(lower, e), w);
      assert Belongs(lower, e, p);
    }
    if p :| Belongs(lower, e, p) {
      assert Unspecific(category) ==> category in {"general", "", "other"};
    }
  }

  /** The journal has one of the tags, or the category, or no specific category and one of the phrases
      in its text. */
  ghost predicate Fits(lower: Lower, e: Entry, words: set<string>, category: string, phrases: set<string>) {
    || (exists t, word :: t in e.tags && word in words && Says(lower, t, word))
    || lower(Text(e.category)) == category
    || (lower(Text(e.category)) in {"other", "general", ""}
        && exists phrase :: phrase in phrases
             && Includes(lower(Text(e.title) + " " + Text(e.didToday) + " " + Text(e.learnedToday)), phrase))
  }

  lemma FitsPillar(lower: Lower, e: Entry, p: Pillar, words: set<string>, category: string, phrases: set<string>)
    requires forall word :: word in words <==> word in PillarTags(p)
    requires forall word :: word in words ==> word != "" && word[0] != '#'
    requires PillarCategories(p) == [category]
    requires forall phrase :: phrase in phrases <==> phrase in Keywords(p)
    ensures Fits(lower, e, words, category, phrases) <==> Belongs(lower, e, p)
  {
    if t, word :| t in e.tags && word in words && Says(lower, t, word) {
      NameIsWord(lower, t, word);
    }
    if t :| t in e.tags && NameOf(lower, t) in PillarTags(p) {
      NameIsWord(lower, t, NameOf(lower, t));
    }
  }

  ghost predicate IsRefactoring(lower: Lower, e: Entry) {
    Fits(lower, e, {"refactor", "tech-debt", "database", "performance"}, "maintenance",
         {"refactor", "tech debt", "optimization"})
  }

  ghost predicate IsOperational(lower: Lower, e: Entry) {
    Fits(lower, e, {"incident", "devops", "infrastructure", "monitoring", "hotfix"}, "debugging",
         {"incident", "outage", "hotfix", "pipeline fix"})
  }

  ghost predicate IsMentorship(lower: Lower, e: Entry) {
    Fits(lower, e, {"mentoring", "onboarding", "code-review", "unblocking", "hiring"}, "meeting",
         {"mentor", "unblock", "onboarding", "pair program"})
  }

  ghost predicate IsGovernance(lower: Lower, e: Entry) {
    Fits(lower, e, {"architecture", "security", "compliance", "audit"}, "request",
         {"architecture", "security review", "rfc", "adr"})
  }

  lemma RefactoringInWords(lower: Lower, e: Entry)
    ensures IsRefactoring(lower, e) <==> Belongs(lower, e, RefactoringDebt)
  {
    FitsPillar(lower, e, RefactoringDebt, {"refactor", "tech-debt", "database", "performance"}, "maintenance",
               {"refactor", "tech debt", "optimization"});
  }

  lemma OperationalInWords(lower: Lower, e: Entry)
    ensures IsOperational(lower, e) <==> Belongs(lower, e, OperationalResilience)
  {
    FitsPillar(lower, e, OperationalResilience, {"incident", "devops", "infrastructure", "monitoring", "hotfix"},
               "debugging", {"incident", "outage", "hotfix", "pipeline fix"});
  }

  lemma MentorshipInWords(lower: Lower, e: Entry)
    ensures IsMentorship(lower, e) <==> Belongs(lower, e, MentorshipUnblocking)
  {
    FitsPillar(lower, e, MentorshipUnblocking, {"mentoring", "onboarding", "code-review", "unblocking", "hiring"},
               "meeting", {"mentor", "unblock", "onboarding", "pair program"});
  }

  lemma GovernanceInWords(lower: Lower, e: Entry)
    ensures IsGovernance(lower, e) <==> Belongs(lower, e, GovernanceArchitecture)
  {
    FitsPillar(lower, e, GovernanceArchitecture, {"architecture", "security", "compliance", "audit"}, "request",
               {"architecture", "security review", "rfc", "adr"});
  }

  /** The primary pillar is the first that fits; a journal of category "other" that fits none is counted
      as operational. */
  lemma PrimaryInWords(lower: Lower, e: Entry)
    ensures Classify(lower, e).primaryPillar
         == if IsRefactoring(lower, e) then Some(RefactoringDebt)
            else if IsOperational(lower, e) then Some(OperationalResilience)
            else if IsMentorship(lower, e) then Some(MentorshipUnblocking)
            else if IsGovernance(lower, e) then Some(GovernanceArchitecture)
            else if lower(Text(e.category)) == "other" then Some(OperationalResilience)
            else None
  {
    RefactoringInWords(lower, e);
    OperationalInWords(lower, e);
    MentorshipInWords(lower, e);
    GovernanceInWords(lower, e);
    PrimaryIsFirst(lower, e);
  }

  lemma FirstPillar(lower: Lower, e: Entry, k: nat)
    requires k < |PILLARS| && Belongs(lower, e, PILLARS[k])
    requires forall i :: 0 <= i < k ==> !Belongs(lower, e, PILLARS[i])
    ensures Classify(lower, e).primaryPillar == Some(PILLARS[k])
  {
    ClassifyMeaning(lower, e);
  }

  lemma NoPillarFits(lower: Lower, e: Entry)
    requires forall i :: 0 <= i < |PILLARS| ==> !Belongs(lower, e, PILLARS[i])
    ensures Classify(lower, e).primaryPillar
         == if CategoryOf(lower, e) == "other" then Some(OperationalResilience) else None
  {
    FilterNone(PILLARS, BelongsTo(lower, e));
  }

  lemma PrimaryIsFirst(lower: Lower, e: Entry)
    ensures Classify(lower, e).primaryPillar
         == if Belongs(lower, e, RefactoringDebt) then Some(RefactoringDebt)
            else if Belongs(lower, e, OperationalResilience) then Some(OperationalResilience)
            else if Belongs(lower, e, MentorshipUnblocking) then Some(MentorshipUnblocking)
            else if Belongs(lower, e, GovernanceArchitecture) then Some(GovernanceArchitecture)
            else if CategoryOf(lower, e) == "other" then Some(OperationalResilience)
            else None
  {
    assert PILLARS[0] == RefactoringDebt && PILLARS[1] == OperationalResilience;
    assert PILLARS[2] == MentorshipUnblocking && PILLARS[3] == GovernanceArchitecture;
    if Belongs(lower, e, RefactoringDebt) { FirstPillar(lower, e, 0); }
    else if Belongs(lower, e, OperationalResilience) { FirstPillar(lower, e, 1); }
    else if Belongs(lower, e, MentorshipUnblocking) { FirstPillar(lower, e, 2); }
    else if Belongs(lower, e, GovernanceArchitecture) { FirstPillar(lower, e, 3); }
    else { NoPillarFits(lower, e); }
  }
}
