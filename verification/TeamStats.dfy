/** The per-member statistics of a team: three aggregates, grouped by user, and what they count. */
module TeamStats {
  import opened Options
  import opened FiniteSets
  import opened Lists
  import opened Relational
  import opened Schema
  import opened SearchQueries

  /** All time, or the days from `start` to `end`. */
  datatype Bounds = Unbounded | Bounded(start: int, end: int) {
    predicate Contains(day: int) { Bounded? ==> start <= day <= end }
  }

  const FOUNDATION_TAG_NAMES: set<string> :=
    {"mentoring", "refactor", "tech-debt", "incident", "architecture", "infrastructure", "security", "performance",
     "devops", "monitoring", "hotfix", "onboarding", "code-review", "unblocking", "compliance", "audit"}
  const FOUNDATION_CATEGORY_NAMES: set<string> := {"maintenance", "meeting", "other"}

  /** `x IN (...)`. */
  function In(x: Option<string>, values: set<string>): Truth { if x.None? then Unknown else Holds(x.value in values) }

  // ----- The queries; a user without rows is in no group, which the service reads as zero -----

  type StatsRow = (Journal, User)
  type FoundationRow = ((StatsRow, Option<JournalTag>), Option<Tag>)

  function OnOwner(j: Journal, u: User): Truth { Equal(Some(u.id), Some(j.user)) }

  function OnRowTag(row: StatsRow, jt: JournalTag): Truth { Equal(Some(jt.journal), Some(row.0.id)) }

  function OnTagName(row: (StatsRow, Option<JournalTag>), t: Tag): Truth {
    Equal(Some(t.id), Column(row.1, (jt: JournalTag) => Some(jt.tag)))
  }

  function InGroup(team: int, bounds: Bounds, user: int): StatsRow -> Truth {
    (row: StatsRow) =>
      Equal(row.1.team, Some(team)).And(Holds(!row.0.deleted)).And(Holds(bounds.Contains(row.0.entryDate)))
      .And(Holds(row.0.user == user))
  }

  function InFoundationGroup(team: int, bounds: Bounds, user: int): FoundationRow -> Truth {
    (row: FoundationRow) =>
      InGroup(team, bounds, user)(row.0.0)
      .And(In(row.0.0.0.category, FOUNDATION_CATEGORY_NAMES).Or(In(TagName(row.1), FOUNDATION_TAG_NAMES)))
  }

  function Owned(db: Database): seq<StatsRow> { Join(db.journals, db.users, OnOwner) }

  function OwnedAndTagged(db: Database): seq<FoundationRow> {
    LeftJoin(LeftJoin(Owned(db), db.journalTags, OnRowTag), db.tags, OnTagName)
  }

  function IdOf(row: StatsRow): int { row.0.id }

  function DateOf(row: StatsRow): int { row.0.entryDate }

  function FoundationIdOf(row: FoundationRow): int { row.0.0.0.id }

  /** COUNT(j.id). */
  function TotalJournals(db: Database, team: int, bounds: Bounds, user: int): nat {
    |Project(Where(Owned(db), InGroup(team, bounds, user)), IdOf)|
  }

  /** COUNT(DISTINCT j.entry_date). */
  function ActiveDays(db: Database, team: int, bounds: Bounds, user: int): nat {
    |Distinct(Project(Where(Owned(db), InGroup(team, bounds, user)), DateOf))|
  }

  /** COUNT(DISTINCT j.id), over a row for every tag of every journal. */
  function FoundationJournals(db: Database, team: int, bounds: Bounds, user: int): nat {
    |Distinct(Project(Where(OwnedAndTagged(db), InFoundationGroup(team, bounds, user)), FoundationIdOf))|
  }

  // ----- What they count -----

  /** A live journal of the member, in the range. */
  ghost predicate Counted(db: Database, team: int, bounds: Bounds, user: int, j: Journal) {
    && j in db.journals && j.user == user && !j.deleted && bounds.Contains(j.entryDate)
    && exists u :: u in db.users && u.id == user && u.team == Some(team)
  }

  /** Foundation work as the database judges it. */
  ghost predicate IsFoundation(db: Database, j: Journal) {
    || (j.category.Some? && j.category.value in FOUNDATION_CATEGORY_NAMES)
    || exists t :: Tagged(db, j.id, t) && t.name in FOUNDATION_TAG_NAMES
  }

  ghost function CountedIds(db: Database, team: int, bounds: Bounds, user: int): set<int> {
    set j | j in db.journals && Counted(db, team, bounds, user, j) :: j.id
  }

  ghost function CountedDates(db: Database, team: int, bounds: Bounds, user: int): set<int> {
    set j | j in db.journals && Counted(db, team, bounds, user, j) :: j.entryDate
  }

  ghost function FoundationIds(db: Database, team: int, bounds: Bounds, user: int): set<int> {
    set j | j in db.journals && Counted(db, team, bounds, user, j) && IsFoundation(db, j) :: j.id
  }

  lemma OwnedMembers(db: Database, team: int, bounds: Bounds, user: int, j: Journal)
    ensures Counted(db, team, bounds, user, j)
        <==> exists u :: (j, u) in Owned(db) && InGroup(team, bounds, user)((j, u)) == True
  {
    forall u ensures (j, u) in Owned(db) <==> j in db.journals && u in db.users && u.id == j.user {
      JoinMembers(db.journals, db.users, OnOwner, j, u);
    }
    if Counted(db, team, bounds, user, j) {
      var u :| u in db.users && u.id == user && u.team == Some(team);
      assert (j, u) in Owned(db) && InGroup(team, bounds, user)((j, u)) == True;
    }
  }

  /** The values of a column of the counted journals. */
  lemma ColumnOfCounted(db: Database, team: int, bounds: Bounds, user: int, column: StatsRow -> int,
                        value: Journal -> int, x: int)
    requires forall row :: column(row) == value(row.0)
    ensures x in Project(Where(Owned(db), InGroup(team, bounds, user)), column)
        <==> exists j :: Counted(db, team, bounds, user, j) && value(j) == x
  {
    var condition := InGroup(team, bounds, user);
    SelectMembers(Owned(db), condition, column, x);
    if row :| row in Owned(db) && condition(row) == True && column(row) == x {
      assert row == (row.0, row.1);
      OwnedMembers(db, team, bounds, user, row.0);
    }
    if j :| Counted(db, team, bounds, user, j) && value(j) == x {
      OwnedMembers(db, team, bounds, user, j);
      var u :| (j, u) in Owned(db) && condition((j, u)) == True;
      assert column((j, u)) == x;
    }
  }

  lemma OwnedDistinct(db: Database, team: int, bounds: Bounds, user: int)
    requires db.Valid()
    ensures NoDuplicates(Project(Where(Owned(db), InGroup(team, bounds, user)), IdOf))
  {
    TablesHaveNoDuplicates(db);
    JoinDistinct(db.journals, db.users, OnOwner);
    forall a: StatsRow, b: StatsRow | a in Owned(db) && b in Owned(db) && IdOf(a) == IdOf(b) ensures a == b {
      JoinMembers(db.journals, db.users, OnOwner, a.0, a.1);
      JoinMembers(db.journals, db.users, OnOwner, b.0, b.1);
      assert a.0 == b.0 && a.1 == b.1;
    }
    SelectDistinct(Owned(db), InGroup(team, bounds, user), IdOf);
  }

  /** The total counts the member's live journals in the range. */
  lemma TotalMeaning(db: Database, team: int, bounds: Bounds, user: int)
    requires db.Valid()
    ensures TotalJournals(db, team, bounds, user) == |CountedIds(db, team, bounds, user)|
  {
    var ids := Project(Where(Owned(db), InGroup(team, bounds, user)), IdOf);
    OwnedDistinct(db, team, bounds, user);
    SizeOfDistinct(ids);
    forall x ensures x in ids <==> x in CountedIds(db, team, bounds, user) {
      ColumnOfCounted(db, team, bounds, user, IdOf, (j: Journal) => j.id, x);
    }
    assert Elements(ids) == CountedIds(db, team, bounds, user);
  }

  /** The active days are the different dates of the member's live journals in the range. */
  lemma ActiveMeaning(db: Database, team: int, bounds: Bounds, user: int)
    ensures ActiveDays(db, team, bounds, user) == |CountedDates(db, team, bounds, user)|
  {
    var dates := Project(Where(Owned(db), InGroup(team, bounds, user)), DateOf);
    DistinctMembers(dates);
    SizeOfDistinct(Distinct(dates));
    forall x ensures x in Distinct(dates) <==> x in CountedDates(db, team, bounds, user) {
      ColumnOfCounted(db, team, bounds, user, DateOf, (j: Journal) => j.entryDate, x);
    }
    assert Elements(Distinct(dates)) == CountedDates(db, team, bounds, user);
  }

  // ----- Foundation journals: one row per tag, counted once -----

  lemma TaggedRowMembers(db: Database, row: FoundationRow)
    ensures row in OwnedAndTagged(db)
        <==> && row.0.0 in Owned(db)
             && Joined(row.0.0, row.0.1, db.journalTags, OnRowTag)
             && Joined(row.0, row.1, db.tags, OnTagName)
  {
    LeftJoinMembers(Owned(db), db.journalTags, OnRowTag, row.0.0, row.0.1);
    LeftJoinMembers(LeftJoin(Owned(db), db.journalTags, OnRowTag), db.tags, OnTagName, row.0, row.1);
  }

  lemma RowIsFoundation(db: Database, team: int, bounds: Bounds, user: int, row: FoundationRow)
    requires row in OwnedAndTagged(db) && InFoundationGroup(team, bounds, user)(row) == True
    ensures Counted(db, team, bounds, user, row.0.0.0) && IsFoundation(db, row.0.0.0)
  {
    var j, t := row.0.0.0, row.1;
    TaggedRowMembers(db, row);
    assert row.0.0 == (j, row.0.0.1);
    OwnedMembers(db, team, bounds, user, j);
    if !(j.category.Some? && j.category.value in FOUNDATION_CATEGORY_NAMES) {
      assert t.Some? && t.value.name in FOUNDATION_TAG_NAMES;
      assert row.0.1.value == JournalTag(j.id, t.value.id);
      assert Tagged(db, j.id, t.value);
    }
  }

  /** A row of the journal: with the given tag, or with whatever tags it has. */
  lemma RowOf(db: Database, j: Journal, u: User, tag: Option<Tag>) returns (row: FoundationRow)
    requires db.Valid() && (j, u) in Owned(db) && (tag.Some? ==> Tagged(db, j.id, tag.value))
    ensures row in OwnedAndTagged(db) && row.0.0 == (j, u) && (tag.Some? ==> row.1 == tag)
  {
    var pair, t := TagOrNone(db, j, tag);
    row := (((j, u), pair), t);
    TaggedRowMembers(db, row);
    assert row.0.0 == (j, u) && row.0 == ((j, u), pair);
  }

  lemma TagOrNone(db: Database, j: Journal, tag: Option<Tag>) returns (pair: Option<JournalTag>, t: Option<Tag>)
    requires db.Valid() && (tag.Some? ==> Tagged(db, j.id, tag.value))
    ensures forall u: User ::
              && Joined((j, u), pair, db.journalTags, OnRowTag)
              && Joined(((j, u), pair), t, db.tags, OnTagName)
    ensures tag.Some? ==> t == tag
  {
    if tag.Some? {
      pair, t := Some(JournalTag(j.id, tag.value.id)), tag;
    } else if jt :| jt in db.journalTags && jt.journal == j.id {
      var x :| x in db.tags && x.id == jt.tag;
      pair, t := Some(jt), Some(x);
    } else {
      pair, t := None, None;
    }
  }

  lemma FoundationHasRow(db: Database, team: int, bounds: Bounds, user: int, j: Journal) returns (row: FoundationRow)
    requires db.Valid() && Counted(db, team, bounds, user, j) && IsFoundation(db, j)
    ensures row in OwnedAndTagged(db) && InFoundationGroup(team, bounds, user)(row) == True && row.0.0.0 == j
  {
    OwnedMembers(db, team, bounds, user, j);
    var u :| (j, u) in Owned(db) && InGroup(team, bounds, user)((j, u)) == True;
    if j.category.Some? && j.category.value in FOUNDATION_CATEGORY_NAMES {
      row := RowOf(db, j, u, None);
    } else {
      var t :| Tagged(db, j.id, t) && t.name in FOUNDATION_TAG_NAMES;
      row := RowOf(db, j, u, Some(t));
    }
  }

  /** The foundation count counts each foundation journal once, however many tags it has. */
  lemma FoundationMeaning(db: Database, team: int, bounds: Bounds, user: int)
    requires db.Valid()
    ensures FoundationJournals(db, team, bounds, user) == |FoundationIds(db, team, bounds, user)|
  {
    var rows, condition := OwnedAndTagged(db), InFoundationGroup(team, bounds, user);
    var ids := Distinct(Project(Where(rows, condition), FoundationIdOf));
    DistinctMembers(Project(Where(rows, condition), FoundationIdOf));
    SizeOfDistinct(ids);
    forall x ensures x in ids <==> x in FoundationIds(db, team, bounds, user) {
      QueryMembers(rows, condition, FoundationIdOf, x);
      if row :| row in rows && condition(row) == True && FoundationIdOf(row) == x {
        RowIsFoundation(db, team, bounds, user, row);
      }
      if j :| j in db.journals && Counted(db, team, bounds, user, j) && IsFoundation(db, j) && j.id == x {
        var row := FoundationHasRow(db, team, bounds, user, j);
        assert FoundationIdOf(row) == x;
      }
    }
    assert Elements(ids) == FoundationIds(db, team, bounds, user);
  }

  /** A member never has more foundation journals than journals, in spite of the rows per tag. */
  lemma FoundationWithinTotal(db: Database, team: int, bounds: Bounds, user: int)
    requires db.Valid()
    ensures FoundationJournals(db, team, bounds, user) <= TotalJournals(db, team, bounds, user)
  {
    FoundationMeaning(db, team, bounds, user);
    TotalMeaning(db, team, bounds, user);
    SubsetSize(FoundationIds(db, team, bounds, user), CountedIds(db, team, bounds, user));
  }
}
