/** The tables the queries read. NULL columns are options; enumeration columns are strings. */
module Schema {
  import opened Options
  import opened Lists

  datatype User = User(id: int, team: Option<int>)

  datatype Journal = Journal(
    id: int, user: int, entryDate: int, title: Option<string>, didToday: Option<string>, learnedToday: Option<string>,
    category: Option<string>, deleted: bool)

  datatype Tag = Tag(id: int, name: string)

  datatype JournalTag = JournalTag(journal: int, tag: int)

  datatype Achievement = Achievement(
    id: int, user: int, journal: Option<int>, title: string, description: Option<string>, impact: Option<string>,
    importance: Option<string>, achievedDate: Option<int>)

  /** A row of achievement_journals. */
  datatype Link = Link(achievement: int, journal: int)

  datatype Database = Database(
    users: seq<User>, journals: seq<Journal>, tags: seq<Tag>, journalTags: seq<JournalTag>,
    achievements: seq<Achievement>, links: seq<Link>)
  {
    /** Primary keys. */
    ghost predicate KeysAreUnique() {
      && (forall i, j :: 0 <= i < j < |users| ==> users[i].id != users[j].id)
      && (forall i, j :: 0 <= i < j < |journals| ==> journals[i].id != journals[j].id)
      && (forall i, j :: 0 <= i < j < |tags| ==> tags[i].id != tags[j].id)
      && (forall i, j :: 0 <= i < j < |achievements| ==> achievements[i].id != achievements[j].id)
    }

    /** UNIQUE constraints. */
    ghost predicate PairsAreUnique() {
      && (forall i, j :: 0 <= i < j < |tags| ==> tags[i].name != tags[j].name)
      && (forall i, j :: 0 <= i < j < |journalTags| ==> journalTags[i] != journalTags[j])
      && (forall i, j :: 0 <= i < j < |links| ==> links[i] != links[j])
    }

    /** Foreign keys. */
    ghost predicate ReferencesExist() {
      && (forall jt :: jt in journalTags ==> exists t :: t in tags && t.id == jt.tag)
      && (forall jt :: jt in journalTags ==> exists j :: j in journals && j.id == jt.journal)
      && (forall l :: l in links ==> exists a :: a in achievements && a.id == l.achievement)
      && (forall l :: l in links ==> exists j :: j in journals && j.id == l.journal)
      && (forall a :: a in achievements && a.journal.Some? ==> exists j :: j in journals && j.id == a.journal.value)
    }

    ghost predicate Valid() { KeysAreUnique() && PairsAreUnique() && ReferencesExist() }
  }

  lemma TablesHaveNoDuplicates(db: Database)
    requires db.Valid()
    ensures NoDuplicates(db.journals) && NoDuplicates(db.tags) && NoDuplicates(db.journalTags)
    ensures NoDuplicates(db.achievements) && NoDuplicates(db.links) && NoDuplicates(db.users)
  {
  }

  lemma JournalById(db: Database, a: Journal, b: Journal)
    requires db.KeysAreUnique() && a in db.journals && b in db.journals && a.id == b.id
    ensures a == b
  {
  }

  lemma AchievementById(db: Database, a: Achievement, b: Achievement)
    requires db.KeysAreUnique() && a in db.achievements && b in db.achievements && a.id == b.id
    ensures a == b
  {
  }

  lemma TagById(db: Database, a: Tag, b: Tag)
    requires db.KeysAreUnique() && a in db.tags && b in db.tags && a.id == b.id
    ensures a == b
  {
  }
}
