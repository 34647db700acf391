/** Three judges of foundation work, from strict to lenient: the badge of the search page, the team
    statistics of the database, the classifier behind the charts. */
module FoundationChain {
  import opened Options
  import opened FiniteSets
  import opened Lists
  import opened Relational
  import opened Schema
  import opened SearchQueries
  import opened Foundation
  import TeamStats
  import opened FoundationMetrics
  import Enrichment
  import EnrichedTags

  /** The browser's copy of a journal: its category and its tags are those stored. */
  ghost predicate Presents(db: Database, e: Entry, j: Journal) {
    && e.id == j.id && e.category == j.category
    && (forall t :: t in e.tags ==> t.Named? && t.name.Some?)
    && (forall n :: Named(Some(n)) in e.tags <==> exists t :: Tagged(db, j.id, t) && t.name == n)
  }

  /** What the badge marks, the database counts. */
  lemma BadgeImpliesDatabase(db: Database, e: Entry, j: Journal)
    requires Presents(db, e, j) && IsFoundationWork(e)
    ensures TeamStats.IsFoundation(db, j)
  {
    if !(e.category.Some? && e.category.value in FOUNDATION_CATEGORIES) {
      var entry :| entry in e.tags && Label(entry).Some? && Label(entry).value in FOUNDATION_TAGS;
      var n := entry.name.value;
      assert Named(Some(n)) in e.tags;
      var t :| Tagged(db, j.id, t) && t.name == n;
      assert t.name in TeamStats.FOUNDATION_TAG_NAMES;
    }
  }

  /** Every tag the database counts is a tag of some pillar. */
  lemma PillarOfTag(n: string) returns (p: Pillar)
    requires n in TeamStats.FOUNDATION_TAG_NAMES
    ensures n in PillarTags(p)
  {
    if n in PillarTags(RefactoringDebt) { p := RefactoringDebt; }
    else if n in PillarTags(OperationalResilience) { p := OperationalResilience; }
    else if n in PillarTags(MentorshipUnblocking) { p := MentorshipUnblocking; }
    else { p := GovernanceArchitecture; }
  }

  lemma TagNamesAreLowerCase(n: string)
    requires n in TeamStats.FOUNDATION_TAG_NAMES
    ensures IsLowerCase(n)
  {
  }

  /** What the database counts, the classifier files under some pillar. */
  lemma DatabaseImpliesClassifier(db: Database, lower: Lower, e: Entry, j: Journal)
    requires Lowers(lower) && Presents(db, e, j) && TeamStats.IsFoundation(db, j)
    ensures Classify(lower, e).isFoundation
  {
    ClassifyMeaning(lower, e);
    if j.category.Some? && j.category.value in TeamStats.FOUNDATION_CATEGORY_NAMES {
      CategoryCounts(lower, e, j.category.value);
    } else {
      var t :| Tagged(db, j.id, t) && t.name in TeamStats.FOUNDATION_TAG_NAMES;
      var p := PillarOfTag(t.name);
      TagNamesAreLowerCase(t.name);
      var entry := Named(Some(t.name));
      assert entry in e.tags && NameOf(lower, entry) == t.name;
      assert Belongs(lower, e, p);
    }
  }

  lemma CategoryCounts(lower: Lower, e: Entry, category: string)
    requires Lowers(lower) && e.category == Some(category) && category in TeamStats.FOUNDATION_CATEGORY_NAMES
    ensures || CategoryOf(lower, e) == "other"
            || Belongs(lower, e, RefactoringDebt) || Belongs(lower, e, MentorshipUnblocking)
  {
    assert IsLowerCase(category);
    assert CategoryOf(lower, e) == category;
  }

  // ----- The same for counts -----

  ghost predicate HasOriginal(db: Database, team: int, bounds: TeamStats.Bounds, user: int, e: Entry) {
    exists j :: TeamStats.Counted(db, team, bounds, user, j) && Presents(db, e, j)
  }

  ghost predicate HasCopy(db: Database, j: Journal, entries: seq<Entry>) {
    exists e :: e in entries && Presents(db, e, j)
  }

  /** The list holds the browser's copies of exactly the member's live journals in the range. */
  ghost predicate IsListOf(db: Database, team: int, bounds: TeamStats.Bounds, user: int, entries: seq<Entry>) {
    && (forall e :: e in entries ==> HasOriginal(db, team, bounds, user, e))
    && (forall j :: TeamStats.Counted(db, team, bounds, user, j) ==> HasCopy(db, j, entries))
  }

  function Marked(entries: seq<Entry>): set<int> { set e | e in entries && IsFoundationWork(e) :: e.id }

  lemma MarkedIsCounted(db: Database, team: int, bounds: TeamStats.Bounds, user: int, e: Entry)
    requires HasOriginal(db, team, bounds, user, e) && IsFoundationWork(e)
    ensures e.id in TeamStats.FoundationIds(db, team, bounds, user)
  {
    var j :| TeamStats.Counted(db, team, bounds, user, j) && Presents(db, e, j);
    BadgeImpliesDatabase(db, e, j);
  }

  lemma CountedIsFiled(db: Database, lower: Lower, entries: seq<Entry>, j: Journal)
    requires Lowers(lower) && HasCopy(db, j, entries) && TeamStats.IsFoundation(db, j)
    ensures j.id in Ids(FoundationOf(Classifier(lower), entries))
  {
    var e :| e in entries && Presents(db, e, j);
    DatabaseImpliesClassifier(db, lower, e, j);
    FoundationMembers(Classifier(lower), entries, e);
  }

  lemma MarkedAreCounted(db: Database, team: int, bounds: TeamStats.Bounds, user: int, entries: seq<Entry>)
    requires IsListOf(db, team, bounds, user, entries)
    ensures Marked(entries) <= TeamStats.FoundationIds(db, team, bounds, user)
  {
    forall e | e in entries && IsFoundationWork(e) ensures e.id in TeamStats.FoundationIds(db, team, bounds, user) {
      MarkedIsCounted(db, team, bounds, user, e);
    }
  }

  lemma CountedAreFiled(db: Database, team: int, bounds: TeamStats.Bounds, user: int, lower: Lower, entries: seq<Entry>)
    requires Lowers(lower) && IsListOf(db, team, bounds, user, entries)
    ensures TeamStats.FoundationIds(db, team, bounds, user) <= Ids(FoundationOf(Classifier(lower), entries))
  {
    forall j | TeamStats.Counted(db, team, bounds, user, j) && TeamStats.IsFoundation(db, j)
      ensures j.id in Ids(FoundationOf(Classifier(lower), entries))
    {
      CountedIsFiled(db, lower, entries, j);
    }
  }

  /** For a member's journals of a range, the badges are at most as many as the journals in the team
      statistics, and those at most as many as the chart's foundation count. */
  lemma CountsAreOrdered(db: Database, team: int, bounds: TeamStats.Bounds, user: int, lower: Lower,
                         entries: seq<Entry>, m: Metrics)
    requires db.Valid() && Lowers(lower) && IsListOf(db, team, bounds, user, entries)
    requires IsCounted(Classifier(lower), entries, m)
    ensures |Marked(entries)| <= TeamStats.FoundationJournals(db, team, bounds, user) <= m.foundationCount
  {
    TeamStats.FoundationMeaning(db, team, bounds, user);
    MarkedAreCounted(db, team, bounds, user, entries);
    CountedAreFiled(db, team, bounds, user, lower, entries);
    SubsetSize(Marked(entries), TeamStats.FoundationIds(db, team, bounds, user));
    SubsetSize(TeamStats.FoundationIds(db, team, bounds, user),
               Ids(FoundationOf(Classifier(lower), entries)));
  }

  // ----- The chain is strict, and search results are such copies -----

  /** A journal with one tag is marked, counted, or filed as the tag is. */
  lemma OneTag(lower: Lower, e: Entry, n: string, category: string)
    requires Lowers(lower) && IsLowerCase(n) && IsLowerCase(category)
    requires e == Entry(1, Some(category), None, None, None, [Named(Some(n))])
    ensures n in PillarTags(RefactoringDebt) ==> Classify(lower, e).isFoundation
    ensures n != "" && n !in FOUNDATION_TAGS && category !in FOUNDATION_CATEGORIES ==> !IsFoundationWork(e)
  {
    ClassifyMeaning(lower, e);
    var t := Named(Some(n));
    assert t in e.tags && NameOf(lower, t) == n && forall u :: u in e.tags ==> u == t;
    assert n in PillarTags(RefactoringDebt) ==> Belongs(lower, e, RefactoringDebt);
  }

  function OneTagDatabase(n: string, category: string): Database {
    Database([User(1, Some(1))], [Journal(1, 1, 0, None, None, None, Some(category), false)], [Tag(1, n)],
             [JournalTag(1, 1)], [], [])
  }

  lemma OneTagStored(n: string, category: string, db: Database, j: Journal, e: Entry)
    requires db == OneTagDatabase(n, category) && j == db.journals[0]
    requires e == Entry(1, Some(category), None, None, None, [Named(Some(n))])
    ensures db.Valid() && j in db.journals && Presents(db, e, j)
    ensures TeamStats.IsFoundation(db, j)
        <==> category in TeamStats.FOUNDATION_CATEGORY_NAMES || n in TeamStats.FOUNDATION_TAG_NAMES
  {
    var t := Tag(1, n);
    assert t in db.tags && JournalTag(1, 1) in db.journalTags && Tagged(db, j.id, t);
    assert forall u :: Tagged(db, j.id, u) ==> u == t;
    assert Named(Some(n)) in e.tags && forall u :: u in e.tags ==> u == Named(Some(n));
  }

  /** The chain is strict: a stored journal tagged "devops" is counted but not marked, and one tagged
      "database" is filed but not counted. */
  lemma ChainIsStrict(lower: Lower, n: string, category: string, db: Database, j: Journal, e: Entry)
    requires Lowers(lower) && category == "development"
    requires db == OneTagDatabase(n, category) && j == db.journals[0]
    requires e == Entry(1, Some(category), None, None, None, [Named(Some(n))])
    ensures db.Valid() && j in db.journals && Presents(db, e, j)
    ensures n == "devops" ==> TeamStats.IsFoundation(db, j) && !IsFoundationWork(e)
    ensures n == "database" ==> !TeamStats.IsFoundation(db, j) && Classify(lower, e).isFoundation
  {
    OneTagStored(n, category, db, j, e);
    if n == "devops" { DevopsIsCounted(lower, n, category, e); }
    if n == "database" { DatabaseIsFiled(lower, n, category, e); }
  }

  lemma DevopsIsCounted(lower: Lower, n: string, category: string, e: Entry)
    requires Lowers(lower) && category == "development" && n == "devops"
    requires e == Entry(1, Some(category), None, None, None, [Named(Some(n))])
    ensures n in TeamStats.FOUNDATION_TAG_NAMES && !IsFoundationWork(e)
  {
    OneTag(lower, e, n, category);
  }

  lemma DatabaseIsFiled(lower: Lower, n: string, category: string, e: Entry)
    requires Lowers(lower) && category == "development" && n == "database"
    requires e == Entry(1, Some(category), None, None, None, [Named(Some(n))])
    ensures n !in TeamStats.FOUNDATION_TAG_NAMES && category !in TeamStats.FOUNDATION_CATEGORY_NAMES
    ensures Classify(lower, e).isFoundation
  {
    assert PillarTags(RefactoringDebt)[2] == n;
    OneTag(lower, e, n, category);
  }

  function EntryOf(x: Enrichment.EnrichedJournal): Entry {
    Entry(x.journal.id, x.journal.category, x.journal.title, x.journal.didToday, x.journal.learnedToday,
          seq(|x.tags|, i requires 0 <= i < |x.tags| => Named(Some(x.tags[i].name))))
  }

  /** A search result carries the stored tags, so the search page judges the stored journal. */
  lemma ResultsPresent(db: Database, user: int, j: Journal, le: (string, string) -> bool, bulk: seq<Enrichment.TagRow>,
                       x: Enrichment.EnrichedJournal)
    requires db.Valid() && j in db.journals && j.user == user && Enrichment.BulkTags(db, user, le, bulk)
    requires x.journal == j && x.tags == Enrichment.TagsShown(bulk, j.id)
    ensures Presents(db, EntryOf(x), j)
  {
    EnrichedTags.ShownTags(db, user, j, le, bulk);
    forall n ensures Named(Some(n)) in EntryOf(x).tags <==> exists t :: Tagged(db, j.id, t) && t.name == n {
      ShownName(x, n);
      if t :| Tagged(db, j.id, t) && t.name == n {
        assert Tag(t.id, t.name) == t;
        assert Enrichment.TagSummary(t.id, t.name) in x.tags;
      }
    }
  }

  lemma ShownName(x: Enrichment.EnrichedJournal, n: string)
    ensures Named(Some(n)) in EntryOf(x).tags <==> exists t :: t in x.tags && t.name == n
  {
    var tags := EntryOf(x).tags;
    if Named(Some(n)) in tags {
      var i :| 0 <= i < |tags| && tags[i] == Named(Some(n));
      assert x.tags[i] in x.tags;
    }
    if t :| t in x.tags && t.name == n {
      var i :| 0 <= i < |x.tags| && x.tags[i] == t;
      assert tags[i] == Named(Some(n));
    }
  }

  // ----- The lists the charts are given -----

  /** The pages give the charts one page of one search answer. Its ids are distinct, so the counts and
      the percentages add up. */
  lemma ChartsAddUp(db: Database, like: Like, p: Params, answer: seq<Journal>, from: nat, to: nat,
                    found: seq<Enrichment.EnrichedJournal>, lower: Lower, m: Metrics)
    requires db.Valid() && from <= to <= |answer| && |found| == to - from
    requires IsOrdered(answer, SearchJournals(db, like, p), (x: Journal, y: Journal) => x.entryDate >= y.entryDate)
    requires forall i :: 0 <= i < |found| ==> found[i].journal == answer[from + i]
    requires IsCounted(Classifier(lower), EntriesOfPage(found), m)
    ensures m.foundationCount == PillarTotal(m)
    ensures m.featureCount == |Filter(EntriesOfPage(found), IsFeature(Classifier(lower)))|
    ensures -2 <= PillarPercents(m) - m.iwqPercentage <= 2
  {
    SearchJournalsAnswers(db, like, p, answer);
    ClassifierIsCoherent(lower);
    assert DistinctIds(EntriesOfPage(found));
    FilterKeepsIds(EntriesOfPage(found), FoundationMetrics.IsFoundation(Classifier(lower)));
    CountsAddUp(Classifier(lower), EntriesOfPage(found), m);
    PercentsAddUp(Classifier(lower), EntriesOfPage(found), m);
  }

  function EntriesOfPage(found: seq<Enrichment.EnrichedJournal>): seq<Entry> {
    seq(|found|, i requires 0 <= i < |found| => EntryOf(found[i]))
  }
}
