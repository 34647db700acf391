/** The journals shown with an achievement, and the achievements shown with a journal, against the
    queries for one item alone. */
module EnrichedLinks {
  import opened Options
  import opened Lists
  import opened Relational
  import opened Schema
  import opened Grouping
  import opened SearchQueries
  import opened Enrichment

  // ----- Journals of an achievement: the bulk answer, achievement by achievement -----

  function LinkedFrom(j: Journal): LinkedJournal { LinkedJournal(j.id, j.title, j.entryDate, j.category) }

  /** A live journal linked to the achievement. */
  ghost predicate LiveLink(db: Database, achievement: int, j: Journal) {
    j in db.journals && !j.deleted && Link(achievement, j.id) in db.links
  }

  lemma LinkJoinMembers(db: Database, row: LinkJoin)
    ensures row in Join(Join(db.links, db.achievements, LinkedAchievement), db.journals, LinkToJournal)
        <==> && row.0.0 in db.links && row.0.1 in db.achievements && row.1 in db.journals
             && row.0.1.id == row.0.0.achievement && row.1.id == row.0.0.journal
  {
    var pairs := Join(db.links, db.achievements, LinkedAchievement);
    JoinMembers(db.links, db.achievements, LinkedAchievement, row.0.0, row.0.1);
    JoinMembers(pairs, db.journals, LinkToJournal, row.0, row.1);
  }

  lemma BulkLinksDistinct(db: Database, user: int)
    requires db.Valid()
    ensures NoDuplicates(AchievementJournalsByUser(db, user))
  {
    var pairs := Join(db.links, db.achievements, LinkedAchievement);
    var rows := Join(pairs, db.journals, LinkToJournal);
    TablesHaveNoDuplicates(db);
    JoinDistinct(db.links, db.achievements, LinkedAchievement);
    JoinDistinct(pairs, db.journals, LinkToJournal);
    forall a: LinkJoin, b: LinkJoin | a in rows && b in rows && LinkRowOf(a) == LinkRowOf(b) ensures a == b {
      RowGivesJoin(db, a, b);
    }
    SelectDistinct(rows, OwnedAndLive(user), LinkRowOf);
  }

  lemma RowGivesJoin(db: Database, a: LinkJoin, b: LinkJoin)
    requires db.Valid() && LinkRowOf(a) == LinkRowOf(b)
    requires var rows := Join(Join(db.links, db.achievements, LinkedAchievement), db.journals, LinkToJournal);
             a in rows && b in rows
    ensures a == b
  {
    LinkJoinMembers(db, a);
    LinkJoinMembers(db, b);
    JournalById(db, a.1, b.1);
    AchievementById(db, a.0.1, b.0.1);
    assert a.0.0 == b.0.0 && a.0.1 == b.0.1 && a.1 == b.1;
  }

  /** What the bulk link query returns for an achievement of the user: its live journals. */
  lemma BulkLinkMembers(db: Database, user: int, a: Achievement, row: LinkRow)
    requires db.Valid() && a in db.achievements && a.user == user
    ensures row in AchievementJournalsByUser(db, user) && row.achievement == a.id
        <==> exists j :: LiveLink(db, a.id, j) && row == LinkRowOf(((Link(a.id, j.id), a), j))
  {
    var rows := Join(Join(db.links, db.achievements, LinkedAchievement), db.journals, LinkToJournal);
    SelectMembers(rows, OwnedAndLive(user), LinkRowOf, row);
    if row in AchievementJournalsByUser(db, user) && row.achievement == a.id {
      var join :| join in rows && OwnedAndLive(user)(join) == True && LinkRowOf(join) == row;
      LinkJoinMembers(db, join);
      assert LiveLink(db, a.id, join.1) && join == ((Link(a.id, join.1.id), a), join.1);
    }
    if j :| LiveLink(db, a.id, j) && row == LinkRowOf(((Link(a.id, j.id), a), j)) {
      var join := ((Link(a.id, j.id), a), j);
      LinkJoinMembers(db, join);
      assert OwnedAndLive(user)(join) == True;
    }
  }

  /** The rows indexed under an achievement. */
  lemma BucketOfLinks(db: Database, user: int, a: Achievement, bulk: seq<LinkRow>)
    requires db.Valid() && a in db.achievements && a.user == user && BulkLinks(db, user, bulk)
    ensures var bucket := Bucket(bulk, KeyOf(LinkAchievement), a.id);
            && NoDuplicates(bucket)
            && (forall i, k :: 0 <= i < k < |bucket| ==> bucket[i].entryDate >= bucket[k].entryDate)
            && (forall row :: row in bucket <==> row in AchievementJournalsByUser(db, user) && row.achievement == a.id)
  {
    var rows, before := AchievementJournalsByUser(db, user), (x: LinkRow, y: LinkRow) => x.entryDate >= y.entryDate;
    var key := KeyOf(LinkAchievement);
    BulkLinksDistinct(db, user);
    OrderedDistinct(bulk, rows, before);
    OrderedMembers(bulk, rows, before);
    BucketKeepsOrder(bulk, key, a.id, (x: LinkRow, y: LinkRow) => x != y);
    BucketKeepsOrder(bulk, key, a.id, before);
    forall row ensures row in Bucket(bulk, key, a.id) <==> row in rows && row.achievement == a.id {
      BucketMembers(bulk, key, a.id, row);
    }
  }

  ghost predicate LatestFirst(journals: seq<LinkedJournal>) {
    forall i, j :: 0 <= i < j < |journals| ==> journals[i].entryDate >= journals[j].entryDate
  }

  lemma ShownLinksInOrder(bucket: seq<LinkRow>)
    requires forall i, k :: 0 <= i < k < |bucket| ==> bucket[i].entryDate >= bucket[k].entryDate
    ensures LatestFirst(Summaries(bucket, LinkedOf))
  {
    forall i | 0 <= i < |bucket| ensures Summaries(bucket, LinkedOf)[i] == LinkedOf(bucket[i]) {
      SummariesAt(bucket, LinkedOf, i);
    }
  }

  lemma ShownLinkMembers(db: Database, user: int, a: Achievement, bulk: seq<LinkRow>, l: LinkedJournal)
    requires db.Valid() && a in db.achievements && a.user == user && BulkLinks(db, user, bulk)
    ensures l in JournalsShown(bulk, a.id, LinkedOf) <==> exists j :: LiveLink(db, a.id, j) && LinkedFrom(j) == l
  {
    var bucket := Bucket(bulk, KeyOf(LinkAchievement), a.id);
    BucketOfLinks(db, user, a, bulk);
    SummaryMembers(bucket, LinkedOf, l);
    if row :| row in bucket && LinkedOf(row) == l {
      BulkLinkMembers(db, user, a, row);
    }
    if j :| LiveLink(db, a.id, j) && LinkedFrom(j) == l {
      var row := LinkRowOf(((Link(a.id, j.id), a), j));
      BulkLinkMembers(db, user, a, row);
      assert LinkedOf(row) == l;
    }
  }

  lemma ShownLinksDistinct(db: Database, user: int, a: Achievement, bulk: seq<LinkRow>)
    requires db.Valid() && a in db.achievements && a.user == user && BulkLinks(db, user, bulk)
    ensures NoDuplicates(JournalsShown(bulk, a.id, LinkedOf))
  {
    var bucket := Bucket(bulk, KeyOf(LinkAchievement), a.id);
    BucketOfLinks(db, user, a, bulk);
    forall x, y | x in bucket && y in bucket && LinkedOf(x) == LinkedOf(y) ensures x == y {
      BulkLinkMembers(db, user, a, x);
      BulkLinkMembers(db, user, a, y);
    }
    SummariesDistinct(bucket, LinkedOf);
  }

  /** The summaries shown for an achievement: its live journals, each once, latest first. */
  lemma ShownLinks(db: Database, user: int, a: Achievement, bulk: seq<LinkRow>)
    requires db.Valid() && a in db.achievements && a.user == user && BulkLinks(db, user, bulk)
    ensures var shown := JournalsShown(bulk, a.id, LinkedOf);
            && NoDuplicates(shown)
            && LatestFirst(shown)
            && (forall l :: l in shown <==> exists j :: LiveLink(db, a.id, j) && LinkedFrom(j) == l)
  {
    var bucket := Bucket(bulk, KeyOf(LinkAchievement), a.id);
    BucketOfLinks(db, user, a, bulk);
    ShownLinksInOrder(bucket);
    assert JournalsShown(bulk, a.id, LinkedOf) == Summaries(bucket, LinkedOf);
    ShownLinksDistinct(db, user, a, bulk);
    forall l
      ensures l in JournalsShown(bulk, a.id, LinkedOf) <==> exists j :: LiveLink(db, a.id, j) && LinkedFrom(j) == l
    {
      ShownLinkMembers(db, user, a, bulk, l);
    }
  }

  lemma OwnJournalMembers(db: Database, achievement: int, j: Journal)
    ensures j in JournalsByAchievement(db, achievement) <==> LiveLink(db, achievement, j)
  {
    var rows := Join(db.journals, db.links, JournalHasLink);
    SelectMembers(rows, LinkedAndLive(achievement), FirstColumn, j);
    forall row ensures row in rows <==> row.0 in db.journals && row.1 in db.links && row.1.journal == row.0.id {
      JoinMembers(db.journals, db.links, JournalHasLink, row.0, row.1);
    }
    if LiveLink(db, achievement, j) {
      var row := (j, Link(achievement, j.id));
      assert row in rows && LinkedAndLive(achievement)(row) == True && FirstColumn(row) == j;
    }
  }

  lemma OwnJournalsDistinct(db: Database, achievement: int)
    requires db.Valid()
    ensures NoDuplicates(JournalsByAchievement(db, achievement))
  {
    var rows, condition := Join(db.journals, db.links, JournalHasLink), LinkedAndLive(achievement);
    TablesHaveNoDuplicates(db);
    JoinDistinct(db.journals, db.links, JournalHasLink);
    WhereDistinct(rows, condition);
    var kept := Where(rows, condition);
    forall a, b | a in kept && b in kept && FirstColumn(a) == FirstColumn(b) ensures a == b {
      WhereMembers(rows, condition, a);
      WhereMembers(rows, condition, b);
      JoinMembers(db.journals, db.links, JournalHasLink, a.0, a.1);
      JoinMembers(db.journals, db.links, JournalHasLink, b.0, b.1);
      assert a.1 == Link(achievement, a.0.id) && b.1 == Link(achievement, b.0.id);
    }
    ProjectDistinct(kept, FirstColumn);
  }

  lemma OwnLinks(db: Database, achievement: int, own: seq<Journal>)
    requires db.Valid() && OwnJournals(db, achievement, own)
    ensures var shown := Summaries(own, LinkedFrom);
            && NoDuplicates(shown)
            && LatestFirst(shown)
            && (forall l :: l in shown <==> exists j :: LiveLink(db, achievement, j) && LinkedFrom(j) == l)
  {
    var rows, before := JournalsByAchievement(db, achievement), (x: Journal, y: Journal) => x.entryDate >= y.entryDate;
    OwnJournalsDistinct(db, achievement);
    OrderedDistinct(own, rows, before);
    OrderedMembers(own, rows, before);
    forall j ensures j in own <==> LiveLink(db, achievement, j) { OwnJournalMembers(db, achievement, j); }
    SummariesDistinct(own, LinkedFrom);
    SummariesOrdered(own, LinkedFrom, before, (x: LinkedJournal, y: LinkedJournal) => x.entryDate >= y.entryDate);
    forall l
      ensures l in Summaries(own, LinkedFrom) <==> exists j :: LiveLink(db, achievement, j) && LinkedFrom(j) == l
    {
      SummaryMembers(own, LinkedFrom, l);
    }
  }

  function RowDate(row: LinkRow): int { row.entryDate }

  function JournalDate(j: Journal): int { j.entryDate }

  /** The journals shown with an achievement of the user are those of the achievement's own query: the
      same ones, however they are summarised, with the same dates in the same places. Journals of one
      date may be in another order. */
  lemma JournalsShownAreOwnJournals<L>(db: Database, user: int, a: Achievement, bulk: seq<LinkRow>, own: seq<Journal>,
                                       g: LinkedJournal -> L)
    requires db.Valid() && a in db.achievements && a.user == user
    requires BulkLinks(db, user, bulk) && OwnJournals(db, a.id, own)
    ensures multiset(JournalsShown(bulk, a.id, Then(LinkedOf, g))) == multiset(Summaries(own, Then(LinkedFrom, g)))
    ensures JournalsShown(bulk, a.id, RowDate) == Summaries(own, JournalDate)
  {
    var shown, listed := JournalsShown(bulk, a.id, LinkedOf), Summaries(own, LinkedFrom);
    ShownLinks(db, user, a, bulk);
    OwnLinks(db, a.id, own);
    SameElements(shown, listed);

    var bucket := Bucket(bulk, KeyOf(LinkAchievement), a.id);
    SummariesMultiset(shown, listed, g);
    SummariesOfSummaries(bucket, LinkedOf, g, Then(LinkedOf, g));
    SummariesOfSummaries(own, LinkedFrom, g, Then(LinkedFrom, g));

    var date := (l: LinkedJournal) => l.entryDate;
    SummariesMultiset(shown, listed, date);
    SummariesOrdered(shown, date, (x: LinkedJournal, y: LinkedJournal) => x.entryDate >= y.entryDate, (x, y) => x >= y);
    SummariesOrdered(listed, date, (x: LinkedJournal, y: LinkedJournal) => x.entryDate >= y.entryDate,
                     (x, y) => x >= y);
    DescendingIsUnique(Summaries(shown, date), Summaries(listed, date));
    SummariesOfSummaries(bucket, LinkedOf, date, RowDate);
    SummariesOfSummaries(own, LinkedFrom, date, JournalDate);
  }

  /** So with the summaries of the search, which fill in missing titles and categories. */
  lemma FilledJournalsAreOwn(db: Database, user: int, a: Achievement, bulk: seq<LinkRow>, own: seq<Journal>)
    requires db.Valid() && a in db.achievements && a.user == user
    requires BulkLinks(db, user, bulk) && OwnJournals(db, a.id, own)
    ensures multiset(JournalsShown(bulk, a.id, Then(LinkedOf, Filled)))
            == multiset(Summaries(own, Then(LinkedFrom, Filled)))
  {
    JournalsShownAreOwnJournals(db, user, a, bulk, own, Filled);
  }

  /** What the achievement list sends of a journal. */
  ghost predicate IsSentAs(l: LinkedJournal, j: Journal) {
    l.id == j.id && l.title == j.title && l.entryDate == j.entryDate && l.category == j.category
  }

  /** What the achievement search sends of a journal: a missing title is "Untitled", a missing category
      is empty. */
  ghost predicate IsSummedUpAs(s: JournalSummary, j: Journal) {
    && s.id == j.id && s.entryDate == j.entryDate
    && (match j.title case Some(t) => s.title == t case None => s.title == "Untitled")
    && (match j.category case Some(c) => s.category == c case None => s.category == "")
  }

  /** The list shows with an achievement exactly its live linked journals, field by field. */
  lemma ListedJournals(db: Database, user: int, a: Achievement, bulk: seq<LinkRow>, l: LinkedJournal)
    requires db.Valid() && a in db.achievements && a.user == user && BulkLinks(db, user, bulk)
    ensures l in JournalsShown(bulk, a.id, LinkedOf) <==> exists j :: LiveLink(db, a.id, j) && IsSentAs(l, j)
  {
    ShownLinkMembers(db, user, a, bulk, l);
    forall j ensures LinkedFrom(j) == l <==> IsSentAs(l, j) {
    }
  }

  lemma FilledIsSummary(j: Journal, s: JournalSummary)
    ensures Filled(LinkedFrom(j)) == s <==> IsSummedUpAs(s, j)
  {
  }

  /** The search shows with an achievement exactly its live linked journals, field by field. */
  lemma SearchedJournals(db: Database, user: int, a: Achievement, bulk: seq<LinkRow>, s: JournalSummary)
    requires db.Valid() && a in db.achievements && a.user == user && BulkLinks(db, user, bulk)
    ensures s in JournalsShown(bulk, a.id, Then(LinkedOf, Filled))
            <==> exists j :: LiveLink(db, a.id, j) && IsSummedUpAs(s, j)
  {
    var bucket := Bucket(bulk, KeyOf(LinkAchievement), a.id);
    var shown := JournalsShown(bulk, a.id, LinkedOf);
    SummariesOfSummaries(bucket, LinkedOf, Filled, Then(LinkedOf, Filled));
    SummaryMembers(shown, Filled, s);
    if l :| l in shown && Filled(l) == s {
      ShownLinkMembers(db, user, a, bulk, l);
      var j :| LiveLink(db, a.id, j) && LinkedFrom(j) == l;
      FilledIsSummary(j, s);
    }
    if j :| LiveLink(db, a.id, j) && IsSummedUpAs(s, j) {
      ShownLinkMembers(db, user, a, bulk, LinkedFrom(j));
      FilledIsSummary(j, s);
    }
  }

  // ----- Achievements of a journal: what the search shows of them -----

  function OfJournalOrLink(journal: int): ((Achievement, Option<Link>)) -> Truth {
    (row: (Achievement, Option<Link>)) =>
      Equal(row.0.journal, Some(journal)).Or(Equal(Column(row.1, (l: Link) => Some(l.journal)), Some(journal)))
  }

  /** GetAchievementsByJournal, up to its ORDER BY. */
  function AchievementsByJournal(db: Database, journal: int): seq<Achievement> {
    Distinct(Project(Where(LeftJoin(db.achievements, db.links, OnOwnLink), OfJournalOrLink(journal)), FirstColumn))
  }

  lemma OwnAchievementMembers(db: Database, journal: int, a: Achievement)
    ensures a in AchievementsByJournal(db, journal) <==> Attached(db, a, journal)
  {
    var rows, condition := LeftJoin(db.achievements, db.links, OnOwnLink), OfJournalOrLink(journal);
    QueryMembers(rows, condition, FirstColumn, a);
    if a in AchievementsByJournal(db, journal) {
      var row :| row in rows && condition(row) == True && FirstColumn(row) == a;
      LeftJoinMembers(db.achievements, db.links, OnOwnLink, a, row.1);
      assert row == (a, row.1);
      RowAttaches(db, journal, a, row.1);
    }
    if Attached(db, a, journal) {
      var l := OwnLinkFor(db, a, journal);
      LeftJoinMembers(db.achievements, db.links, OnOwnLink, a, l);
      assert FirstColumn((a, l)) == a;
    }
  }

  lemma RowAttaches(db: Database, journal: int, a: Achievement, l: Option<Link>)
    requires a in db.achievements && Joined(a, l, db.links, OnOwnLink) && OfJournalOrLink(journal)((a, l)) == True
    ensures Attached(db, a, journal)
  {
    if a.journal != Some(journal) { assert l.value == Link(a.id, journal); }
  }

  /** The link that leads to the journal, or else any link of the achievement. */
  lemma OwnLinkFor(db: Database, a: Achievement, journal: int) returns (l: Option<Link>)
    requires Attached(db, a, journal)
    ensures Joined(a, l, db.links, OnOwnLink) && OfJournalOrLink(journal)((a, l)) == True
  {
    if Link(a.id, journal) in db.links {
      l := Some(Link(a.id, journal));
    } else if x :| x in db.links && x.achievement == a.id {
      l := Some(x);
    } else {
      l := None;
    }
  }

  ghost predicate IsShown(bulk: seq<LinkRow>, journal: int, a: Achievement) {
    exists s :: s in AchievementsShown(bulk, journal) && s.id == a.id
  }

  /** Of a live journal's achievements the search shows the linked ones of the user. */
  lemma AchievementShown(db: Database, user: int, j: Journal, bulk: seq<LinkRow>, a: Achievement)
    requires db.Valid() && j in db.journals && !j.deleted && BulkLinks(db, user, bulk) && a in db.achievements
    ensures IsShown(bulk, j.id, a) <==> Link(a.id, j.id) in db.links && a.user == user
  {
    var rows := AchievementJournalsByUser(db, user);
    var bucket := Bucket(bulk, KeyOf(LinkJournal), j.id);
    OrderedMembers(bulk, rows, (x: LinkRow, y: LinkRow) => x.entryDate >= y.entryDate);
    if s :| s in AchievementsShown(bulk, j.id) && s.id == a.id {
      SummaryMembers(bucket, BriefOf, s);
      var row :| row in bucket && BriefOf(row) == s;
      BucketMembers(bulk, KeyOf(LinkJournal), j.id, row);
      assert row.journal == j.id && row.achievement == a.id;
      RowNamesLink(db, user, row, a);
    }
    if Link(a.id, j.id) in db.links && a.user == user {
      var row := LinkRowOf(((Link(a.id, j.id), a), j));
      assert LiveLink(db, a.id, j);
      BulkLinkMembers(db, user, a, row);
      BucketMembers(bulk, KeyOf(LinkJournal), j.id, row);
      SummaryMembers(bucket, BriefOf, BriefOf(row));
    }
  }

  /** What a journal search sends of an achievement: a missing importance is empty. */
  ghost predicate IsBriefOf(s: AchievementSummary, a: Achievement) {
    && s.id == a.id && s.title == a.title
    && (match a.importance case Some(i) => s.importance == i case None => s.importance == "")
  }

  /** The search shows with a live journal exactly the user's achievements linked to it, field by field. */
  lemma SearchedAchievements(db: Database, user: int, j: Journal, bulk: seq<LinkRow>, s: AchievementSummary)
    requires db.Valid() && j in db.journals && !j.deleted && BulkLinks(db, user, bulk)
    ensures s in AchievementsShown(bulk, j.id)
        <==> exists a :: a in db.achievements && a.user == user && Link(a.id, j.id) in db.links && IsBriefOf(s, a)
  {
    var rows := AchievementJournalsByUser(db, user);
    var bucket := Bucket(bulk, KeyOf(LinkJournal), j.id);
    OrderedMembers(bulk, rows, (x: LinkRow, y: LinkRow) => x.entryDate >= y.entryDate);
    SummaryMembers(bucket, BriefOf, s);
    if row :| row in bucket && BriefOf(row) == s {
      BucketMembers(bulk, KeyOf(LinkJournal), j.id, row);
      var a := RowsAchievement(db, user, row);
      assert IsBriefOf(s, a);
    }
    if a :| a in db.achievements && a.user == user && Link(a.id, j.id) in db.links && IsBriefOf(s, a) {
      var row := LinkRowOf(((Link(a.id, j.id), a), j));
      assert LiveLink(db, a.id, j);
      BulkLinkMembers(db, user, a, row);
      BucketMembers(bulk, KeyOf(LinkJournal), j.id, row);
      assert BriefOf(row) == s;
    }
  }

  lemma RowsAchievement(db: Database, user: int, row: LinkRow) returns (a: Achievement)
    requires db.Valid() && row in AchievementJournalsByUser(db, user)
    ensures a in db.achievements && a.user == user && Link(a.id, row.journal) in db.links
    ensures IsBriefOf(BriefOf(row), a)
  {
    var rows := Join(Join(db.links, db.achievements, LinkedAchievement), db.journals, LinkToJournal);
    SelectMembers(rows, OwnedAndLive(user), LinkRowOf, row);
    var join :| join in rows && OwnedAndLive(user)(join) == True && LinkRowOf(join) == row;
    LinkJoinMembers(db, join);
    a := join.0.1;
    assert join.0.0 == Link(a.id, row.journal);
  }

  lemma RowNamesLink(db: Database, user: int, row: LinkRow, a: Achievement)
    requires db.Valid() && row in AchievementJournalsByUser(db, user)
    requires a in db.achievements && a.id == row.achievement
    ensures Link(a.id, row.journal) in db.links && a.user == user
  {
    var rows := Join(Join(db.links, db.achievements, LinkedAchievement), db.journals, LinkToJournal);
    SelectMembers(rows, OwnedAndLive(user), LinkRowOf, row);
    var join :| join in rows && OwnedAndLive(user)(join) == True && LinkRowOf(join) == row;
    LinkJoinMembers(db, join);
    AchievementById(db, a, join.0.1);
    assert join.0.0 == Link(a.id, row.journal);
  }

  /** The search shows all of a live journal's achievements exactly when every achievement that names
      the journal is also linked to it, and all of them are the user's. */
  lemma SearchShowsAllAchievements(db: Database, user: int, j: Journal, bulk: seq<LinkRow>)
    requires db.Valid() && j in db.journals && !j.deleted && BulkLinks(db, user, bulk)
    ensures (forall a :: a in AchievementsByJournal(db, j.id) ==> IsShown(bulk, j.id, a))
        <==> forall a :: Attached(db, a, j.id) ==> Link(a.id, j.id) in db.links && a.user == user
  {
    forall a ensures a in AchievementsByJournal(db, j.id) <==> Attached(db, a, j.id) {
      OwnAchievementMembers(db, j.id, a);
    }
    forall a | Attached(db, a, j.id)
      ensures IsShown(bulk, j.id, a) <==> Link(a.id, j.id) in db.links && a.user == user
    {
      AchievementShown(db, user, j, bulk, a);
    }
  }

  // ----- Unlinking -----

  function IsNot(l: Link): Link -> bool { (x: Link) => x != l }

  /** RemoveJournalFromAchievement; the achievement's own journal column stays. */
  function Unlinked(db: Database, achievement: int, journal: int): Database {
    db.(links := Filter(db.links, IsNot(Link(achievement, journal))))
  }

  lemma UnlinkedIsValid(db: Database, achievement: int, journal: int)
    requires db.Valid()
    ensures Unlinked(db, achievement, journal).Valid()
            && Link(achievement, journal) !in Unlinked(db, achievement, journal).links
  {
    var keep := IsNot(Link(achievement, journal));
    FilterKeepsDistinct(db.links, keep);
    forall l ensures l in Filter(db.links, keep) <==> l in db.links && keep(l) {
      FilterMembers(db.links, keep, l);
    }
  }

  function KeywordOnly(user: int, keyword: string): Params { Params(user, Some(keyword), None, None, None, None, None) }

  /** An achievement that names a live journal of the user is a reason to find the journal. */
  lemma FoundByAchievement(db: Database, like: Like, keyword: string, j: Journal, a: Achievement)
    requires db.Valid() && j in db.journals && !j.deleted && a in db.achievements && a.journal == Some(j.id)
    requires like(a.title, keyword)
    ensures j in SearchJournals(db, like, KeywordOnly(j.user, keyword))
  {
    var p := KeywordOnly(j.user, keyword);
    assert Attached(db, a, j.id);
    assert AchievementChoice(db, j.id, Some(a)) && JournalKeyword(like, p, j, Some(a));
    assert ImportanceOk(p, Column(Some(a), (x: Achievement) => x.importance));
    assert JournalMatches(db, like, p, j);
    SearchJournalsMeaning(db, like, p, j);
  }

  lemma NamedButUnlinked(db: Database, j: Journal, a: Achievement, bulk: seq<LinkRow>)
    requires db.Valid() && j in db.journals && !j.deleted && a in db.achievements && a.journal == Some(j.id)
    requires Link(a.id, j.id) !in db.links && BulkLinks(db, j.user, bulk)
    ensures a in AchievementsByJournal(db, j.id) && !IsShown(bulk, j.id, a)
  {
    assert Attached(db, a, j.id);
    OwnAchievementMembers(db, j.id, a);
    AchievementShown(db, j.user, j, bulk, a);
  }

  /** After unlinking an achievement from the journal it names, a search for its title still finds the
      journal by it, and the journal's own query still lists it, but the result does not show it. */
  lemma UnlinkingHides(db: Database, like: Like, keyword: string, j: Journal, a: Achievement, bulk: seq<LinkRow>)
    requires db.Valid() && j in db.journals && !j.deleted && a in db.achievements && a.journal == Some(j.id)
    requires BulkLinks(Unlinked(db, a.id, j.id), j.user, bulk)
    ensures a in AchievementsByJournal(Unlinked(db, a.id, j.id), j.id) && !IsShown(bulk, j.id, a)
    ensures like(a.title, keyword) ==> j in SearchJournals(Unlinked(db, a.id, j.id), like, KeywordOnly(j.user, keyword))
  {
    var after := Unlinked(db, a.id, j.id);
    UnlinkedIsValid(db, a.id, j.id);
    NamedButUnlinked(after, j, a, bulk);
    if like(a.title, keyword) { FoundByAchievement(after, like, keyword, j, a); }
  }

  /** A database in which this happens: one journal and one achievement that names it. */
  lemma UnlinkedExample(db: Database, j: Journal, a: Achievement, bulk: seq<LinkRow>)
    requires j == Journal(1, 1, 0, None, None, None, None, false)
    requires a == Achievement(1, 1, Some(1), "Launch", None, None, None, None)
    requires db == Database([User(1, None)], [j], [], [], [a], []) && bulk == []
    ensures db.Valid() && j in db.journals && a in db.achievements && BulkLinks(db, j.user, bulk)
    ensures a in AchievementsByJournal(db, j.id) && !IsShown(bulk, j.id, a)
  {
    assert j in db.journals && a in db.achievements;
    assert Join(db.links, db.achievements, LinkedAchievement) == [];
    NamedButUnlinked(db, j, a, bulk);
  }
}
