/** The tags shown with a journal, against the query for that journal alone. */
module EnrichedTags {
  import opened Options
  import opened Lists
  import opened Relational
  import opened Schema
  import opened Grouping
  import opened SearchQueries
  import opened Enrichment

  /** What the bulk tag query returns for a journal of the user: its tags. */
  lemma BulkTagMembers(db: Database, user: int, j: Journal, t: Tag)
    requires db.Valid() && j in db.journals && j.user == user
    ensures TagRow(j.id, t.id, t.name) in JournalTagsByUser(db, user) <==> Tagged(db, j.id, t)
  {
    var pairs := Join(db.journalTags, db.tags, TaggedPair);
    var rows := Join(pairs, db.journals, PairOfJournal);
    var x := TagRow(j.id, t.id, t.name);
    SelectMembers(rows, OfUser(user), TagRowOf, x);
    if x in JournalTagsByUser(db, user) {
      var row :| row in rows && OfUser(user)(row) == True && TagRowOf(row) == x;
      TagJoinMembers(db, row);
    }
    if Tagged(db, j.id, t) {
      var row := ((JournalTag(j.id, t.id), t), j);
      TagJoinMembers(db, row);
      assert OfUser(user)(row) == True && TagRowOf(row) == x;
    }
  }

  lemma OwnTagMembers(db: Database, journal: int, t: Tag)
    ensures t in TagsByJournal(db, journal) <==> Tagged(db, journal, t)
  {
    var rows := Join(db.tags, db.journalTags, TagHasPair);
    SelectMembers(rows, OfJournal(journal), FirstColumn, t);
    forall row ensures row in rows <==> row.0 in db.tags && row.1 in db.journalTags && row.1.tag == row.0.id {
      JoinMembers(db.tags, db.journalTags, TagHasPair, row.0, row.1);
    }
    if Tagged(db, journal, t) {
      var row := (t, JournalTag(journal, t.id));
      assert row in rows && OfJournal(journal)(row) == True && FirstColumn(row) == t;
    }
  }

  lemma TagJoinMembers(db: Database, row: TagJoin)
    ensures row in Join(Join(db.journalTags, db.tags, TaggedPair), db.journals, PairOfJournal)
        <==> && row.0.0 in db.journalTags && row.0.1 in db.tags && row.1 in db.journals
             && row.0.1.id == row.0.0.tag && row.1.id == row.0.0.journal
  {
    JoinMembers(db.journalTags, db.tags, TaggedPair, row.0.0, row.0.1);
    JoinMembers(Join(db.journalTags, db.tags, TaggedPair), db.journals, PairOfJournal, row.0, row.1);
  }

  lemma RowGivesTagJoin(db: Database, a: TagJoin, b: TagJoin)
    requires db.Valid() && TagRowOf(a) == TagRowOf(b)
    requires var rows := Join(Join(db.journalTags, db.tags, TaggedPair), db.journals, PairOfJournal);
             a in rows && b in rows
    ensures a == b
  {
    TagJoinMembers(db, a);
    TagJoinMembers(db, b);
    JournalById(db, a.1, b.1);
    TagById(db, a.0.1, b.0.1);
    assert a.0.0 == b.0.0 && a.0.1 == b.0.1 && a.1 == b.1;
  }

  lemma BulkTagsDistinct(db: Database, user: int)
    requires db.Valid()
    ensures NoDuplicates(JournalTagsByUser(db, user))
  {
    var pairs := Join(db.journalTags, db.tags, TaggedPair);
    var rows := Join(pairs, db.journals, PairOfJournal);
    TablesHaveNoDuplicates(db);
    JoinDistinct(db.journalTags, db.tags, TaggedPair);
    JoinDistinct(pairs, db.journals, PairOfJournal);
    forall a: TagJoin, b: TagJoin | a in rows && b in rows && TagRowOf(a) == TagRowOf(b) ensures a == b {
      RowGivesTagJoin(db, a, b);
    }
    SelectDistinct(rows, OfUser(user), TagRowOf);
  }

  ghost predicate ByName(tags: seq<TagSummary>, le: (string, string) -> bool) {
    forall i, j :: 0 <= i < j < |tags| ==> le(tags[i].name, tags[j].name)
  }

  lemma LastIsSame(a: seq<TagSummary>, b: seq<TagSummary>, le: (string, string) -> bool)
    requires Antisymmetric(le) && a != [] && b != []
    requires forall t :: t in a <==> t in b
    requires forall s, t :: s in a && t in a && s.name == t.name ==> s == t
    requires ByName(a, le) && ByName(b, le)
    ensures Last(a) == Last(b)
  {
    var x, y := Last(a), Last(b);
    assert x in b && y in a;
    var i :| 0 <= i < |a| && a[i] == y;
    var j :| 0 <= j < |b| && b[j] == x;
  }

  /** At most one list shows given tags in the order of their names. */
  lemma {:induction false} OrderIsUnique(a: seq<TagSummary>, b: seq<TagSummary>, le: (string, string) -> bool)
    requires Antisymmetric(le) && NoDuplicates(a) && NoDuplicates(b)
    requires forall t :: t in a <==> t in b
    requires forall s, t :: s in a && t in a && s.name == t.name ==> s == t
    requires ByName(a, le) && ByName(b, le)
    ensures a == b
    decreases |a|
  {
    assert a != [] ==> a[0] in b;
    assert b != [] ==> b[0] in a;
    if a != [] {
      LastIsSame(a, b, le);
      FrontMembers(a);
      FrontMembers(b);
      OrderIsUnique(Front(a), Front(b), le);
    }
  }

  /** The tags indexed under a journal, before they are summarised. */
  lemma BucketOfTags(db: Database, user: int, j: Journal, le: (string, string) -> bool, bulk: seq<TagRow>)
    requires db.Valid() && j in db.journals && j.user == user && BulkTags(db, user, le, bulk)
    ensures var bucket := Bucket(bulk, KeyOf(TagJournal), j.id);
            && NoDuplicates(bucket)
            && (forall i, k :: 0 <= i < k < |bucket| ==> le(bucket[i].name, bucket[k].name))
            && (forall row :: row in bucket <==> row in JournalTagsByUser(db, user) && row.journal == j.id)
  {
    var rows := JournalTagsByUser(db, user);
    var key := KeyOf(TagJournal);
    BulkTagsDistinct(db, user);
    OrderedDistinct(bulk, rows, (x: TagRow, y: TagRow) => le(x.name, y.name));
    OrderedMembers(bulk, rows, (x: TagRow, y: TagRow) => le(x.name, y.name));
    BucketKeepsOrder(bulk, key, j.id, (x: TagRow, y: TagRow) => x != y);
    BucketKeepsOrder(bulk, key, j.id, (x: TagRow, y: TagRow) => le(x.name, y.name));
    forall row ensures row in Bucket(bulk, key, j.id) <==> row in rows && row.journal == j.id {
      BucketMembers(bulk, key, j.id, row);
    }
  }

  lemma ShownTagMembers(db: Database, user: int, j: Journal, le: (string, string) -> bool, bulk: seq<TagRow>,
                        t: TagSummary)
    requires db.Valid() && j in db.journals && j.user == user && BulkTags(db, user, le, bulk)
    ensures t in TagsShown(bulk, j.id) <==> Tagged(db, j.id, Tag(t.id, t.name))
  {
    var bucket := Bucket(bulk, KeyOf(TagJournal), j.id);
    BucketOfTags(db, user, j, le, bulk);
    SummaryMembers(bucket, TagOf, t);
    BulkTagMembers(db, user, j, Tag(t.id, t.name));
    var row := TagRow(j.id, t.id, t.name);
    assert TagOf(row) == t;
    if x :| x in bucket && TagOf(x) == t {
      assert x == row;
    }
  }

  lemma ShownTagsDistinct(bucket: seq<TagRow>, journal: int)
    requires NoDuplicates(bucket) && forall row :: row in bucket ==> row.journal == journal
    ensures NoDuplicates(Summaries(bucket, TagOf))
  {
    SummariesDistinct(bucket, TagOf);
  }

  lemma ShownTagsInOrder(bucket: seq<TagRow>, le: (string, string) -> bool)
    requires forall i, k :: 0 <= i < k < |bucket| ==> le(bucket[i].name, bucket[k].name)
    ensures ByName(Summaries(bucket, TagOf), le)
  {
    forall i | 0 <= i < |bucket| ensures Summaries(bucket, TagOf)[i] == TagOf(bucket[i]) {
      SummariesAt(bucket, TagOf, i);
    }
  }

  /** The summaries shown for a journal: its tags, each once, by name. */
  lemma ShownTags(db: Database, user: int, j: Journal, le: (string, string) -> bool, bulk: seq<TagRow>)
    requires db.Valid() && j in db.journals && j.user == user && BulkTags(db, user, le, bulk)
    ensures var shown := TagsShown(bulk, j.id);
            && NoDuplicates(shown)
            && ByName(shown, le)
            && (forall t :: t in shown <==> Tagged(db, j.id, Tag(t.id, t.name)))
  {
    var bucket := Bucket(bulk, KeyOf(TagJournal), j.id);
    BucketOfTags(db, user, j, le, bulk);
    ShownTagsDistinct(bucket, j.id);
    ShownTagsInOrder(bucket, le);
    assert TagsShown(bulk, j.id) == Summaries(bucket, TagOf);
    forall t: TagSummary ensures t in TagsShown(bulk, j.id) <==> Tagged(db, j.id, Tag(t.id, t.name)) {
      ShownTagMembers(db, user, j, le, bulk, t);
    }
  }

  function SummaryOf(t: Tag): TagSummary { TagSummary(t.id, t.name) }

  lemma OwnTagsDistinct(db: Database, journal: int)
    requires db.Valid()
    ensures NoDuplicates(TagsByJournal(db, journal))
  {
    var rows := Join(db.tags, db.journalTags, TagHasPair);
    TablesHaveNoDuplicates(db);
    JoinDistinct(db.tags, db.journalTags, TagHasPair);
    WhereDistinct(rows, OfJournal(journal));
    var kept := Where(rows, OfJournal(journal));
    forall a, b | a in kept && b in kept && FirstColumn(a) == FirstColumn(b) ensures a == b {
      WhereMembers(rows, OfJournal(journal), a);
      WhereMembers(rows, OfJournal(journal), b);
      JoinMembers(db.tags, db.journalTags, TagHasPair, a.0, a.1);
      JoinMembers(db.tags, db.journalTags, TagHasPair, b.0, b.1);
      assert a.1 == JournalTag(journal, a.0.id) && b.1 == JournalTag(journal, b.0.id);
    }
    ProjectDistinct(kept, FirstColumn);
  }

  lemma OwnSummaries(db: Database, journal: int, le: (string, string) -> bool, own: seq<Tag>)
    requires db.Valid() && OwnTags(db, journal, le, own)
    ensures var shown := Summaries(own, SummaryOf);
            && NoDuplicates(shown)
            && ByName(shown, le)
            && (forall t :: t in shown <==> Tagged(db, journal, Tag(t.id, t.name)))
  {
    var rows, before := TagsByJournal(db, journal), (x: Tag, y: Tag) => le(x.name, y.name);
    OwnTagsDistinct(db, journal);
    OrderedDistinct(own, rows, before);
    OrderedMembers(own, rows, before);
    SummariesDistinct(own, SummaryOf);
    SummariesOrdered(own, SummaryOf, before, (x: TagSummary, y: TagSummary) => le(x.name, y.name));
    forall t: TagSummary ensures t in Summaries(own, SummaryOf) <==> Tagged(db, journal, Tag(t.id, t.name)) {
      SummaryMembers(own, SummaryOf, t);
      OwnTagMembers(db, journal, Tag(t.id, t.name));
      assert forall x: Tag :: SummaryOf(x) == t <==> x == Tag(t.id, t.name);
    }
  }

  /** The tags shown with a journal of the user are, as a list, the answer of the journal's own query. */
  lemma TagsShownAreOwnTags(db: Database, user: int, j: Journal, le: (string, string) -> bool, bulk: seq<TagRow>,
                            own: seq<Tag>)
    requires db.Valid() && Antisymmetric(le) && j in db.journals && j.user == user
    requires BulkTags(db, user, le, bulk) && OwnTags(db, j.id, le, own)
    ensures TagsShown(bulk, j.id) == Summaries(own, SummaryOf)
  {
    ShownTags(db, user, j, le, bulk);
    OwnSummaries(db, j.id, le, own);
    OrderIsUnique(TagsShown(bulk, j.id), Summaries(own, SummaryOf), le);
  }
}
