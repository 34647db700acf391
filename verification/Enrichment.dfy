/** Search results are enriched from two bulk queries and an index, instead of one query per item. */
module Enrichment {
  import opened Options
  import opened Relational
  import opened Schema
  import opened Grouping

  // ----- The queries -----

  datatype TagRow = TagRow(journal: int, tag: int, name: string)

  datatype LinkRow = LinkRow(
    achievement: int, journal: int, title: Option<string>, entryDate: int, category: Option<string>,
    achievementTitle: string, importance: Option<string>)

  type TagJoin = ((JournalTag, Tag), Journal)
  type TagPair = (Tag, JournalTag)
  type LinkJoin = ((Link, Achievement), Journal)
  type LinkPair = (Journal, Link)

  function TaggedPair(jt: JournalTag, t: Tag): Truth { Equal(Some(t.id), Some(jt.tag)) }

  function PairOfJournal(row: (JournalTag, Tag), j: Journal): Truth { Equal(Some(j.id), Some(row.0.journal)) }

  function TagRowOf(row: TagJoin): TagRow { TagRow(row.0.0.journal, row.0.1.id, row.0.1.name) }

  function OfUser(user: int): TagJoin -> Truth { (row: TagJoin) => Holds(row.1.user == user) }

  /** GetJournalTagsByUser, up to its ORDER BY. */
  function JournalTagsByUser(db: Database, user: int): seq<TagRow> {
    Project(Where(Join(Join(db.journalTags, db.tags, TaggedPair), db.journals, PairOfJournal), OfUser(user)), TagRowOf)
  }

  function TagHasPair(t: Tag, jt: JournalTag): Truth { Equal(Some(jt.tag), Some(t.id)) }

  function OfJournal(journal: int): TagPair -> Truth { (row: TagPair) => Holds(row.1.journal == journal) }

  function FirstColumn<A, B>(row: (A, B)): A { row.0 }

  /** GetTagsByJournal, up to its ORDER BY. */
  function TagsByJournal(db: Database, journal: int): seq<Tag> {
    Project(Where(Join(db.tags, db.journalTags, TagHasPair), OfJournal(journal)), FirstColumn)
  }

  function LinkedAchievement(l: Link, a: Achievement): Truth { Equal(Some(a.id), Some(l.achievement)) }

  function LinkToJournal(row: (Link, Achievement), j: Journal): Truth { Equal(Some(j.id), Some(row.0.journal)) }

  function LinkRowOf(row: LinkJoin): LinkRow {
    var l, a, j := row.0.0, row.0.1, row.1;
    LinkRow(l.achievement, j.id, j.title, j.entryDate, j.category, a.title, a.importance)
  }

  function OwnedAndLive(user: int): LinkJoin -> Truth {
    (row: LinkJoin) => Holds(row.0.1.user == user).And(Holds(!row.1.deleted))
  }

  /** GetAchievementJournalsByUser, up to its ORDER BY. */
  function AchievementJournalsByUser(db: Database, user: int): seq<LinkRow> {
    Project(Where(Join(Join(db.links, db.achievements, LinkedAchievement), db.journals, LinkToJournal),
                  OwnedAndLive(user)),
            LinkRowOf)
  }

  function JournalHasLink(j: Journal, l: Link): Truth { Equal(Some(l.journal), Some(j.id)) }

  function LinkedAndLive(achievement: int): LinkPair -> Truth {
    (row: LinkPair) => Holds(row.1.achievement == achievement).And(Holds(!row.0.deleted))
  }

  /** GetJournalsByAchievement, up to its ORDER BY. */
  function JournalsByAchievement(db: Database, achievement: int): seq<Journal> {
    Project(Where(Join(db.journals, db.links, JournalHasLink), LinkedAndLive(achievement)), FirstColumn)
  }

  // ----- The answers, ordered -----

  /** The collation: of two different names, one is strictly before the other. */
  ghost predicate Antisymmetric(le: (string, string) -> bool) {
    forall x, y :: le(x, y) && le(y, x) ==> x == y
  }

  ghost predicate BulkTags(db: Database, user: int, le: (string, string) -> bool, answer: seq<TagRow>) {
    IsOrdered(answer, JournalTagsByUser(db, user), (x: TagRow, y: TagRow) => le(x.name, y.name))
  }

  ghost predicate OwnTags(db: Database, journal: int, le: (string, string) -> bool, answer: seq<Tag>) {
    IsOrdered(answer, TagsByJournal(db, journal), (x: Tag, y: Tag) => le(x.name, y.name))
  }

  ghost predicate BulkLinks(db: Database, user: int, answer: seq<LinkRow>) {
    IsOrdered(answer, AchievementJournalsByUser(db, user), (x: LinkRow, y: LinkRow) => x.entryDate >= y.entryDate)
  }

  ghost predicate OwnJournals(db: Database, achievement: int, answer: seq<Journal>) {
    IsOrdered(answer, JournalsByAchievement(db, achievement), (x: Journal, y: Journal) => x.entryDate >= y.entryDate)
  }

  // ----- The enrichment loops -----

  datatype TagSummary = TagSummary(id: int, name: string)

  datatype AchievementSummary = AchievementSummary(id: int, title: string, importance: string)

  /** A linked journal as the achievement list sends it; the search fills in what is missing. */
  datatype LinkedJournal = LinkedJournal(id: int, title: Option<string>, entryDate: int, category: Option<string>)

  datatype JournalSummary = JournalSummary(id: int, title: string, entryDate: int, category: string)

  datatype EnrichedJournal = EnrichedJournal(journal: Journal, tags: seq<TagSummary>,
                                             achievements: seq<AchievementSummary>)

  datatype EnrichedAchievement<L> = EnrichedAchievement(achievement: Achievement, linkedJournals: seq<L>)

  function Or(text: Option<string>, default: string): string { if text.Some? then text.value else default }

  function TagJournal(row: TagRow): int { row.journal }

  function LinkJournal(row: LinkRow): int { row.journal }

  function LinkAchievement(row: LinkRow): int { row.achievement }

  function TagOf(row: TagRow): TagSummary { TagSummary(row.tag, row.name) }

  function BriefOf(row: LinkRow): AchievementSummary {
    AchievementSummary(row.achievement, row.achievementTitle, Or(row.importance, ""))
  }

  function LinkedOf(row: LinkRow): LinkedJournal { LinkedJournal(row.journal, row.title, row.entryDate, row.category) }

  function Filled(l: LinkedJournal): JournalSummary {
    JournalSummary(l.id, Or(l.title, "Untitled"), l.entryDate, Or(l.category, ""))
  }

  function TagsShown(rows: seq<TagRow>, journal: int): seq<TagSummary> {
    Summaries(Bucket(rows, KeyOf(TagJournal), journal), TagOf)
  }

  function AchievementsShown(rows: seq<LinkRow>, journal: int): seq<AchievementSummary> {
    Summaries(Bucket(rows, KeyOf(LinkJournal), journal), BriefOf)
  }

  function JournalsShown<L>(rows: seq<LinkRow>, achievement: int, summary: LinkRow -> L): seq<L> {
    Summaries(Bucket(rows, KeyOf(LinkAchievement), achievement), summary)
  }

  /** The end of the journal search: every journal found gets the tags and the achievements indexed
      under it, in their order. */
  method EnrichJournals(found: seq<Journal>, tagRows: seq<TagRow>, linkRows: seq<LinkRow>)
      returns (enriched: array<EnrichedJournal>)
    ensures enriched.Length == |found|
    ensures forall i :: 0 <= i < |found| ==>
              enriched[i]
              == EnrichedJournal(found[i], TagsShown(tagRows, found[i].id), AchievementsShown(linkRows, found[i].id))
  {
    var tagsByJournal := GroupRows(tagRows, TagJournal, TagOf);
    var achievementsByJournal := GroupRows(linkRows, LinkJournal, BriefOf);
    enriched := new EnrichedJournal[|found|];
    for i := 0 to |found|
      invariant forall n :: 0 <= n < i ==>
                  enriched[n]
                  == EnrichedJournal(found[n], TagsShown(tagRows, found[n].id),
                                     AchievementsShown(linkRows, found[n].id))
    {
      enriched[i] :=
        EnrichedJournal(found[i], Get(tagsByJournal, found[i].id), Get(achievementsByJournal, found[i].id));
    }
  }

  /** The end of the achievement search and of the achievement list; they differ in the summary. */
  method EnrichAchievements<L>(found: seq<Achievement>, linkRows: seq<LinkRow>, summary: LinkRow -> L)
      returns (enriched: array<EnrichedAchievement<L>>)
    ensures enriched.Length == |found|
    ensures forall i :: 0 <= i < |found| ==>
              enriched[i] == EnrichedAchievement(found[i], JournalsShown(linkRows, found[i].id, summary))
  {
    var journalsByAchievement := GroupRows(linkRows, LinkAchievement, summary);
    enriched := new EnrichedAchievement<L>[|found|];
    for i := 0 to |found|
      invariant forall n :: 0 <= n < i ==>
                  enriched[n] == EnrichedAchievement(found[n], JournalsShown(linkRows, found[n].id, summary))
    {
      enriched[i] := EnrichedAchievement(found[i], Get(journalsByAchievement, found[i].id));
    }
  }
}
