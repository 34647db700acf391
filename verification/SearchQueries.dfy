/** The two search queries: DISTINCT over a four-way LEFT JOIN, against what they mean. */
module SearchQueries {
  import opened Options
  import opened Lists
  import opened Relational
  import opened Schema

  /** `text ILIKE '%' || keyword || '%'` on non-NULL operands; nothing is assumed about it. */
  type Like = (string, string) -> bool

  /** `limit` and `offset` are left out. The server never sends NULL texts, only empty ones. */
  datatype Params = Params(
    user: int, keyword: Option<string>, category: Option<string>, tag: Option<string>, importance: Option<string>,
    dateFrom: Option<int>, dateTo: Option<int>)

  function ILike(like: Like, text: Option<string>, keyword: Option<string>): Truth {
    if text.None? || keyword.None? then Unknown else Holds(like(text.value, keyword.value))
  }

  /** `@p IS NULL OR @p = ''`: the filter is off. */
  function Off(p: Option<string>): Truth { Holds(p.None?).Or(Equal(p, Some(""))) }

  predicate IsOff(p: Option<string>) { p.None? || p == Some("") }

  function AtLeast(day: Option<int>, from: Option<int>): Truth {
    Holds(from.None?).Or(if day.None? || from.None? then Unknown else Holds(day.value >= from.value))
  }

  function AtMost(day: Option<int>, to: Option<int>): Truth {
    Holds(to.None?).Or(if day.None? || to.None? then Unknown else Holds(day.value <= to.value))
  }

  predicate InDates(day: Option<int>, p: Params) {
    && (p.dateFrom.Some? ==> day.Some? && day.value >= p.dateFrom.value)
    && (p.dateTo.Some? ==> day.Some? && day.value <= p.dateTo.value)
  }

  /** The column of an optional row; NULL when the join found none. */
  function Column<R, T>(row: Option<R>, f: R -> Option<T>): Option<T> {
    if row.None? then None else f(row.value)
  }

  function TagName(t: Option<Tag>): Option<string> { Column(t, (t: Tag) => Some(t.name)) }

  // ----- SearchJournals -----

  type JournalRow = ((((Journal, Option<JournalTag>), Option<Tag>), Option<Link>), Option<Achievement>)

  function OnJournalTag(j: Journal, jt: JournalTag): Truth { Equal(Some(jt.journal), Some(j.id)) }

  function OnTag(row: (Journal, Option<JournalTag>), t: Tag): Truth {
    Equal(Some(t.id), Column(row.1, (jt: JournalTag) => Some(jt.tag)))
  }

  function OnLink(row: ((Journal, Option<JournalTag>), Option<Tag>), l: Link): Truth {
    Equal(Some(l.journal), Some(row.0.0.id))
  }

  function OnAchievement(row: (((Journal, Option<JournalTag>), Option<Tag>), Option<Link>), a: Achievement): Truth {
    Equal(Some(a.id), Column(row.1, (l: Link) => Some(l.achievement))).Or(Equal(a.journal, Some(row.0.0.0.id)))
  }

  function JournalJoin(db: Database): seq<JournalRow> {
    LeftJoin(LeftJoin(LeftJoin(LeftJoin(db.journals, db.journalTags, OnJournalTag), db.tags, OnTag), db.links, OnLink),
             db.achievements, OnAchievement)
  }

  function JournalCondition(like: Like, p: Params): JournalRow -> Truth {
    (row: JournalRow) =>
      var j, t, a := row.0.0.0.0, row.0.0.1, row.1;
      Holds(j.user == p.user)
      .And(Holds(!j.deleted))
      .And(Off(p.keyword).Or(
             ILike(like, j.title, p.keyword)
             .Or(ILike(like, j.didToday, p.keyword))
             .Or(ILike(like, j.learnedToday, p.keyword))
             .Or(ILike(like, Column(a, (a: Achievement) => Some(a.title)), p.keyword))
             .Or(ILike(like, Column(a, (a: Achievement) => a.impact), p.keyword))))
      .And(Off(p.category).Or(Equal(j.category, p.category)))
      .And(Off(p.tag).Or(Equal(TagName(t), p.tag)))
      .And(Off(p.importance).Or(Equal(Column(a, (a: Achievement) => a.importance), p.importance)))
      .And(AtLeast(Some(j.entryDate), p.dateFrom))
      .And(AtMost(Some(j.entryDate), p.dateTo))
  }

  function JournalOf(row: JournalRow): Journal { row.0.0.0.0 }

  /** The query up to its ORDER BY. */
  function SearchJournals(db: Database, like: Like, p: Params): seq<Journal> {
    Distinct(Project(Where(JournalJoin(db), JournalCondition(like, p)), JournalOf))
  }

  // ----- What it means -----

  /** The journal carries the tag. */
  ghost predicate Tagged(db: Database, journal: int, t: Tag) {
    t in db.tags && JournalTag(journal, t.id) in db.journalTags
  }

  ghost predicate HasTag(db: Database, journal: int, name: Option<string>) {
    IsOff(name) || exists t :: Tagged(db, journal, t) && t.name == name.value
  }

  /** The achievement is linked to the journal, or names it as its own. */
  ghost predicate Attached(db: Database, a: Achievement, journal: int) {
    a in db.achievements && (Link(a.id, journal) in db.links || a.journal == Some(journal))
  }

  /** One of the journal's achievements, or NULL if it has none. */
  ghost predicate AchievementChoice(db: Database, journal: int, a: Option<Achievement>) {
    match a
    case Some(x) => Attached(db, x, journal)
    case None => forall x :: !Attached(db, x, journal)
  }

  predicate Mentions(like: Like, text: Option<string>, keyword: Option<string>) {
    text.Some? && keyword.Some? && like(text.value, keyword.value)
  }

  predicate JournalKeyword(like: Like, p: Params, j: Journal, a: Option<Achievement>) {
    || IsOff(p.keyword)
    || Mentions(like, j.title, p.keyword) || Mentions(like, j.didToday, p.keyword)
    || Mentions(like, j.learnedToday, p.keyword)
    || (a.Some? && (Mentions(like, Some(a.value.title), p.keyword) || Mentions(like, a.value.impact, p.keyword)))
  }

  predicate JournalFilters(p: Params, j: Journal) {
    && j.user == p.user && !j.deleted
    && (IsOff(p.category) || j.category == p.category)
    && InDates(Some(j.entryDate), p)
  }

  predicate ImportanceOk(p: Params, importance: Option<string>) { IsOff(p.importance) || importance == p.importance }

  /** The journal passes its own filters, has the tag, and one and the same achievement row (or the
      absence of any) meets both the keyword and the importance. */
  ghost predicate JournalMatches(db: Database, like: Like, p: Params, j: Journal) {
    && j in db.journals && JournalFilters(p, j)
    && HasTag(db, j.id, p.tag)
    && exists a :: AchievementChoice(db, j.id, a) && JournalKeyword(like, p, j, a)
                   && ImportanceOk(p, Column(a, (a: Achievement) => a.importance))
  }

  // ----- The join, row by row -----

  lemma JournalJoinMembers(db: Database, row: JournalRow)
    ensures row in JournalJoin(db)
        <==> && row.0.0.0.0 in db.journals
             && Joined(row.0.0.0.0, row.0.0.0.1, db.journalTags, OnJournalTag)
             && Joined(row.0.0.0, row.0.0.1, db.tags, OnTag)
             && Joined(row.0.0, row.0.1, db.links, OnLink)
             && Joined(row.0, row.1, db.achievements, OnAchievement)
  {
    var r1 := LeftJoin(db.journals, db.journalTags, OnJournalTag);
    var r2 := LeftJoin(r1, db.tags, OnTag);
    var r3 := LeftJoin(r2, db.links, OnLink);
    LeftJoinMembers(db.journals, db.journalTags, OnJournalTag, row.0.0.0.0, row.0.0.0.1);
    LeftJoinMembers(r1, db.tags, OnTag, row.0.0.0, row.0.0.1);
    LeftJoinMembers(r2, db.links, OnLink, row.0.0, row.0.1);
    LeftJoinMembers(r3, db.achievements, OnAchievement, row.0, row.1);
    assert row == (((((row.0.0.0.0, row.0.0.0.1), row.0.0.1), row.0.1)), row.1);
  }

  /** The condition of a row is True exactly when its two-valued reading holds. */
  lemma JournalConditionMeans(like: Like, p: Params, row: JournalRow)
    ensures var j, t, a := row.0.0.0.0, row.0.0.1, row.1;
            JournalCondition(like, p)(row) == True
            <==> && JournalFilters(p, j) && JournalKeyword(like, p, j, a)
                 && (IsOff(p.tag) || TagName(t) == p.tag)
                 && ImportanceOk(p, Column(a, (a: Achievement) => a.importance))
  {
  }

  /** A row of the join pairs the journal with one of its tags, or none, and with one of its
      achievements, or none if it has none. */
  lemma RowGivesChoices(db: Database, row: JournalRow)
    requires db.Valid() && row in JournalJoin(db)
    ensures var j := row.0.0.0.0;
            && j in db.journals
            && (row.0.0.1.Some? ==> Tagged(db, j.id, row.0.0.1.value))
            && AchievementChoice(db, j.id, row.1)
  {
    JournalJoinMembers(db, row);
    AchievementPart(db, row.0, row.1);
  }

  lemma AchievementPart(db: Database, part: (((Journal, Option<JournalTag>), Option<Tag>), Option<Link>),
                        a: Option<Achievement>)
    requires db.Valid() && Joined(part.0, part.1, db.links, OnLink) && Joined(part, a, db.achievements, OnAchievement)
    ensures AchievementChoice(db, part.0.0.0.id, a)
  {
    var j, l := part.0.0.0, part.1;
    if l.Some? {
      var y :| y in db.achievements && y.id == l.value.achievement;
      assert OnAchievement(part, y) == True;
    }
    if a.Some? {
      if a.value.journal != Some(j.id) { assert l.value == Link(a.value.id, j.id); }
    } else {
      forall x | x in db.achievements ensures !Attached(db, x, j.id) {
        assert OnAchievement(part, x) != True;
        assert Link(x.id, j.id) in db.links ==> OnLink(part.0, Link(x.id, j.id)) == True;
      }
    }
  }

  /** Any tag (or none wanted) and any achievement choice of a journal meet in some row. */
  lemma ChoicesGiveRow(db: Database, j: Journal, name: Option<string>, a: Option<Achievement>) returns (row: JournalRow)
    requires db.Valid() && j in db.journals && HasTag(db, j.id, name) && AchievementChoice(db, j.id, a)
    ensures row in JournalJoin(db) && row.0.0.0.0 == j && row.1 == a
    ensures IsOff(name) || TagName(row.0.0.1) == name
  {
    var tagPart := TagPart(db, j, name);
    var l := LinkPart(db, j, a);
    row := ((tagPart, l), a);
    JournalJoinMembers(db, row);
    if a.None? {
      forall x | x in db.achievements ensures OnAchievement(row.0, x) != True {
        assert !Attached(db, x, j.id);
      }
    }
  }

  lemma TagPart(db: Database, j: Journal, name: Option<string>)
      returns (part: ((Journal, Option<JournalTag>), Option<Tag>))
    requires db.Valid() && j in db.journals && HasTag(db, j.id, name)
    ensures part.0.0 == j
    ensures Joined(j, part.0.1, db.journalTags, OnJournalTag) && Joined(part.0, part.1, db.tags, OnTag)
    ensures IsOff(name) || TagName(part.1) == name
  {
    if !IsOff(name) {
      var t :| Tagged(db, j.id, t) && t.name == name.value;
      part := ((j, Some(JournalTag(j.id, t.id))), Some(t));
    } else if jt :| jt in db.journalTags && jt.journal == j.id {
      var t :| t in db.tags && t.id == jt.tag;
      part := ((j, Some(jt)), Some(t));
    } else {
      part := ((j, None), None);
    }
  }

  /** The link that leads to the achievement; for an achievement that only names the journal, any
      link of the journal, or none if there is none. */
  lemma LinkPart(db: Database, j: Journal, a: Option<Achievement>) returns (l: Option<Link>)
    requires db.Valid() && j in db.journals && AchievementChoice(db, j.id, a)
    ensures forall part: ((Journal, Option<JournalTag>), Option<Tag>) ::
              part.0.0 == j ==> Joined(part, l, db.links, OnLink)
    ensures a.Some? ==> forall part: ((Journal, Option<JournalTag>), Option<Tag>) ::
                          part.0.0 == j ==> OnAchievement((part, l), a.value) == True
    ensures a.None? ==> l.None?
  {
    if a.Some? && Link(a.value.id, j.id) in db.links {
      l := Some(Link(a.value.id, j.id));
    } else if x :| x in db.links && x.journal == j.id {
      l := Some(x);
      var y :| y in db.achievements && y.id == x.achievement;
      assert Attached(db, y, j.id);
    } else {
      l := None;
    }
  }

  lemma FoundMatches(db: Database, like: Like, p: Params, row: JournalRow)
    requires db.Valid() && row in JournalJoin(db) && JournalCondition(like, p)(row) == True
    ensures JournalMatches(db, like, p, JournalOf(row))
  {
    JournalConditionMeans(like, p, row);
    RowGivesChoices(db, row);
  }

  lemma MatchesFound(db: Database, like: Like, p: Params, j: Journal) returns (row: JournalRow)
    requires db.Valid() && JournalMatches(db, like, p, j)
    ensures row in JournalJoin(db) && JournalCondition(like, p)(row) == True && JournalOf(row) == j
  {
    var a :| AchievementChoice(db, j.id, a) && JournalKeyword(like, p, j, a)
             && ImportanceOk(p, Column(a, (a: Achievement) => a.importance));
    row := ChoicesGiveRow(db, j, p.tag, a);
    JournalConditionMeans(like, p, row);
  }

  lemma QueryMembers<R, T>(join: seq<R>, condition: R -> Truth, f: R -> T, x: T)
    ensures x in Distinct(Project(Where(join, condition), f))
        <==> exists row :: row in join && condition(row) == True && f(row) == x
  {
    DistinctMembers(Project(Where(join, condition), f));
    SelectMembers(join, condition, f, x);
  }

  /** SearchJournals returns exactly the journals that match: tags and achievements filter
      independently of each other, keyword and importance together on one achievement. */
  lemma SearchJournalsMeaning(db: Database, like: Like, p: Params, j: Journal)
    requires db.Valid()
    ensures j in SearchJournals(db, like, p) <==> JournalMatches(db, like, p, j)
  {
    QueryMembers(JournalJoin(db), JournalCondition(like, p), JournalOf, j);
    if j in SearchJournals(db, like, p) {
      var row :| row in JournalJoin(db) && JournalCondition(like, p)(row) == True && JournalOf(row) == j;
      FoundMatches(db, like, p, row);
    }
    if JournalMatches(db, like, p, j) {
      var row := MatchesFound(db, like, p, j);
    }
  }

  /** In every order the database may return them, the results are the matching journals, each once,
      latest first. */
  lemma SearchJournalsAnswers(db: Database, like: Like, p: Params, answer: seq<Journal>)
    requires db.Valid()
    requires IsOrdered(answer, SearchJournals(db, like, p), (x: Journal, y: Journal) => x.entryDate >= y.entryDate)
    ensures forall j :: j in answer <==> JournalMatches(db, like, p, j)
    ensures forall i, k :: 0 <= i < k < |answer| ==> answer[i].id != answer[k].id
  {
    forall j ensures j in answer <==> JournalMatches(db, like, p, j) {
      OrderedMembers(answer, SearchJournals(db, like, p), (x: Journal, y: Journal) => x.entryDate >= y.entryDate);
      SearchJournalsMeaning(db, like, p, j);
    }
    DistinctMembers(Project(Where(JournalJoin(db), JournalCondition(like, p)), JournalOf));
    OrderedDistinct(answer, SearchJournals(db, like, p), (x: Journal, y: Journal) => x.entryDate >= y.entryDate);
    forall j | j in answer ensures j in db.journals {
      assert JournalMatches(db, like, p, j);
    }
    DifferentIds(db, answer);
  }

  lemma DifferentIds(db: Database, answer: seq<Journal>)
    requires db.Valid() && NoDuplicates(answer) && forall j :: j in answer ==> j in db.journals
    ensures forall i, k :: 0 <= i < k < |answer| ==> answer[i].id != answer[k].id
  {
    forall i, k | 0 <= i < k < |answer| ensures answer[i].id != answer[k].id {
      assert answer[i] in db.journals && answer[k] in db.journals && answer[i] != answer[k];
    }
  }

  // ----- SearchAchievements -----

  type AchievementRow = ((((Achievement, Option<Link>), Option<Journal>), Option<JournalTag>), Option<Tag>)

  function OnOwnLink(a: Achievement, l: Link): Truth { Equal(Some(l.achievement), Some(a.id)) }

  function OnLiveJournal(row: (Achievement, Option<Link>), j: Journal): Truth {
    Equal(Some(j.id), Column(row.1, (l: Link) => Some(l.journal))).Or(Equal(Some(j.id), row.0.journal))
    .And(Holds(!j.deleted))
  }

  function OnTagOfJournal(row: ((Achievement, Option<Link>), Option<Journal>), jt: JournalTag): Truth {
    Equal(Some(jt.journal), Column(row.1, (j: Journal) => Some(j.id)))
  }

  function OnTagOfRow(row: (((Achievement, Option<Link>), Option<Journal>), Option<JournalTag>), t: Tag): Truth {
    Equal(Some(t.id), Column(row.1, (jt: JournalTag) => Some(jt.tag)))
  }

  function AchievementJoin(db: Database): seq<AchievementRow> {
    LeftJoin(LeftJoin(LeftJoin(LeftJoin(db.achievements, db.links, OnOwnLink), db.journals, OnLiveJournal),
                      db.journalTags, OnTagOfJournal),
             db.tags, OnTagOfRow)
  }

  function AchievementCondition(like: Like, p: Params): AchievementRow -> Truth {
    (row: AchievementRow) =>
      var a, j, t := row.0.0.0.0, row.0.0.1, row.1;
      Holds(a.user == p.user)
      .And(Off(p.keyword).Or(
             ILike(like, Some(a.title), p.keyword)
             .Or(ILike(like, a.description, p.keyword))
             .Or(ILike(like, a.impact, p.keyword))
             .Or(ILike(like, Column(j, (j: Journal) => j.title), p.keyword))))
      .And(Off(p.importance).Or(Equal(a.importance, p.importance)))
      .And(Off(p.category).Or(Equal(Column(j, (j: Journal) => j.category), p.category)))
      .And(Off(p.tag).Or(Equal(TagName(t), p.tag)))
      .And(AtLeast(a.achievedDate, p.dateFrom))
      .And(AtMost(a.achievedDate, p.dateTo))
  }

  function AchievementOf(row: AchievementRow): Achievement { row.0.0.0.0 }

  function SearchAchievements(db: Database, like: Like, p: Params): seq<Achievement> {
    Distinct(Project(Where(AchievementJoin(db), AchievementCondition(like, p)), AchievementOf))
  }

  /** A live journal linked to the achievement, or its own. */
  ghost predicate Evidence(db: Database, a: Achievement, j: Journal) {
    j in db.journals && !j.deleted && (Link(a.id, j.id) in db.links || a.journal == Some(j.id))
  }

  /** One of the achievement's live journals, or NULL if it has none. */
  ghost predicate JournalChoice(db: Database, a: Achievement, j: Option<Journal>) {
    match j
    case Some(x) => Evidence(db, a, x)
    case None => forall x :: !Evidence(db, a, x)
  }

  predicate AchievementKeyword(like: Like, p: Params, a: Achievement, j: Option<Journal>) {
    || IsOff(p.keyword)
    || Mentions(like, Some(a.title), p.keyword) || Mentions(like, a.description, p.keyword)
    || Mentions(like, a.impact, p.keyword)
    || (j.Some? && Mentions(like, j.value.title, p.keyword))
  }

  predicate AchievementFilters(p: Params, a: Achievement) {
    a.user == p.user && ImportanceOk(p, a.importance) && InDates(a.achievedDate, p)
  }

  predicate CategoryOk(p: Params, j: Option<Journal>) {
    IsOff(p.category) || Column(j, (j: Journal) => j.category) == p.category
  }

  ghost predicate JournalMeets(db: Database, like: Like, p: Params, a: Achievement, j: Option<Journal>) {
    && AchievementKeyword(like, p, a, j) && CategoryOk(p, j)
    && (IsOff(p.tag) || (j.Some? && HasTag(db, j.value.id, p.tag)))
  }

  /** The achievement passes its own filters, and one and the same live journal of it (or the absence
      of any) meets the keyword, the category and the tag. */
  ghost predicate AchievementMatches(db: Database, like: Like, p: Params, a: Achievement) {
    && a in db.achievements && AchievementFilters(p, a)
    && exists j :: JournalChoice(db, a, j) && JournalMeets(db, like, p, a, j)
  }

  lemma AchievementJoinMembers(db: Database, row: AchievementRow)
    ensures row in AchievementJoin(db)
        <==> && row.0.0.0.0 in db.achievements
             && Joined(row.0.0.0.0, row.0.0.0.1, db.links, OnOwnLink)
             && Joined(row.0.0.0, row.0.0.1, db.journals, OnLiveJournal)
             && Joined(row.0.0, row.0.1, db.journalTags, OnTagOfJournal)
             && Joined(row.0, row.1, db.tags, OnTagOfRow)
  {
    var r1 := LeftJoin(db.achievements, db.links, OnOwnLink);
    var r2 := LeftJoin(r1, db.journals, OnLiveJournal);
    var r3 := LeftJoin(r2, db.journalTags, OnTagOfJournal);
    LeftJoinMembers(db.achievements, db.links, OnOwnLink, row.0.0.0.0, row.0.0.0.1);
    LeftJoinMembers(r1, db.journals, OnLiveJournal, row.0.0.0, row.0.0.1);
    LeftJoinMembers(r2, db.journalTags, OnTagOfJournal, row.0.0, row.0.1);
    LeftJoinMembers(r3, db.tags, OnTagOfRow, row.0, row.1);
  }

  lemma AchievementConditionMeans(like: Like, p: Params, row: AchievementRow)
    ensures var a, j, t := row.0.0.0.0, row.0.0.1, row.1;
            AchievementCondition(like, p)(row) == True
            <==> && AchievementFilters(p, a) && AchievementKeyword(like, p, a, j) && CategoryOk(p, j)
                 && (IsOff(p.tag) || TagName(t) == p.tag)
  {
  }

  /** A row without a journal is there whenever some link leads only to deleted journals, even if the
      achievement has live ones. It never adds a result: what it can meet, any live journal meets. */
  lemma FoundAchievementMatches(db: Database, like: Like, p: Params, row: AchievementRow)
    requires db.Valid() && row in AchievementJoin(db) && AchievementCondition(like, p)(row) == True
    ensures AchievementMatches(db, like, p, AchievementOf(row))
  {
    AchievementConditionMeans(like, p, row);
    AchievementJoinMembers(db, row);
    var a, l, j, jt, t := row.0.0.0.0, row.0.0.0.1, row.0.0.1, row.0.1, row.1;
    if j.Some? {
      assert Evidence(db, a, j.value);
      assert !IsOff(p.tag) ==> Tagged(db, j.value.id, t.value);
      assert JournalChoice(db, a, j) && JournalMeets(db, like, p, a, j);
    } else {
      assert jt.None? && t.None?;
      if x :| Evidence(db, a, x) {
        assert JournalChoice(db, a, Some(x)) && JournalMeets(db, like, p, a, Some(x));
      } else {
        assert JournalChoice(db, a, None) && JournalMeets(db, like, p, a, None);
      }
    }
  }

  /** The link that leads to the journal; for a journal the achievement names itself, any link. */
  lemma OwnLinkPart(db: Database, a: Achievement, j: Option<Journal>) returns (l: Option<Link>)
    requires JournalChoice(db, a, j)
    ensures Joined(a, l, db.links, OnOwnLink) && Joined((a, l), j, db.journals, OnLiveJournal)
  {
    if j.Some? && Link(a.id, j.value.id) in db.links {
      l := Some(Link(a.id, j.value.id));
    } else if x :| x in db.links && x.achievement == a.id {
      l := Some(x);
    } else {
      l := None;
    }
    if j.None? {
      forall x | x in db.journals ensures OnLiveJournal((a, l), x) != True {
        assert !Evidence(db, a, x);
        assert l.Some? ==> l.value == Link(a.id, l.value.journal);
      }
    }
  }

  lemma MatchesFoundAchievement(db: Database, like: Like, p: Params, a: Achievement) returns (row: AchievementRow)
    requires db.Valid() && AchievementMatches(db, like, p, a)
    ensures row in AchievementJoin(db) && AchievementCondition(like, p)(row) == True && AchievementOf(row) == a
  {
    var j :| JournalChoice(db, a, j) && JournalMeets(db, like, p, a, j);
    var l := OwnLinkPart(db, a, j);
    var jt: Option<JournalTag>, t: Option<Tag> := None, None;
    if j.Some? {
      var part := TagPart(db, j.value, p.tag);
      jt, t := part.0.1, part.1;
    }
    row := ((((a, l), j), jt), t);
    AchievementJoinMembers(db, row);
    AchievementConditionMeans(like, p, row);
  }

  /** SearchAchievements returns exactly the achievements that match, and each once. */
  lemma SearchAchievementsMeaning(db: Database, like: Like, p: Params, a: Achievement)
    requires db.Valid()
    ensures a in SearchAchievements(db, like, p) <==> AchievementMatches(db, like, p, a)
    ensures multiset(SearchAchievements(db, like, p))[a] <= 1
  {
    QueryMembers(AchievementJoin(db), AchievementCondition(like, p), AchievementOf, a);
    if a in SearchAchievements(db, like, p) {
      var row :| row in AchievementJoin(db) && AchievementCondition(like, p)(row) == True && AchievementOf(row) == a;
      FoundAchievementMatches(db, like, p, row);
      DistinctMembers(Project(Where(AchievementJoin(db), AchievementCondition(like, p)), AchievementOf));
      CountOnce(SearchAchievements(db, like, p), a);
    }
    if AchievementMatches(db, like, p, a) {
      var row := MatchesFoundAchievement(db, like, p, a);
    }
  }
}
