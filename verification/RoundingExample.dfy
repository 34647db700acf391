/** Eight journals whose rounded pillar percentages add up to two more than the rounded whole. */
module RoundingExample {
  import opened Lists
  import opened Options
  import opened Foundation
  import opened FoundationMetrics

  ghost predicate OneEach(judge: Judge, journals: seq<Entry>) {
    && |journals| == 8 && DistinctIds(journals)
    && forall i :: 0 <= i < 8 ==> judge(journals[i]).primaryPillar == if i < 4 then Some(PILLARS[i]) else None
  }

  lemma OneOfPillar(judge: Judge, journals: seq<Entry>, k: nat)
    requires OneEach(judge, journals) && k < 4
    ensures |EntriesOf(judge, journals, PILLARS[k])| == 1
  {
    forall i | 0 <= i < 8 && i != k ensures !HasPrimary(judge, PILLARS[k])(journals[i]) {
    }
    FilterOnly(journals, HasPrimary(judge, PILLARS[k]), k);
  }

  /** One journal under each pillar and four more: four times 13 percent, of 50. */
  lemma TwoIsAttained(judge: Judge, journals: seq<Entry>, m: Metrics)
    requires Coherent(judge) && IsCounted(judge, journals, m) && OneEach(judge, journals)
    ensures PillarPercents(m) - m.iwqPercentage == 2
  {
    forall p ensures |EntriesOf(judge, journals, p)| == 1 {
      EveryPillar(p);
      var k :| 0 <= k < |PILLARS| && PILLARS[k] == p;
      OneOfPillar(judge, journals, k);
    }
    FilterKeepsIds(journals, IsFoundation(judge));
    CountsAddUp(judge, journals, m);
    FourInAll(judge, journals, m);
    EighthsAddUp(judge, journals, m);
  }

  lemma FourInAll(judge: Judge, journals: seq<Entry>, m: Metrics)
    requires IsFiled(m.pillars, judge, journals, |journals|)
    requires forall p :: |EntriesOf(judge, journals, p)| == 1
    ensures PillarTotal(m) == 4
  {
  }

  lemma EighthsAddUp(judge: Judge, journals: seq<Entry>, m: Metrics)
    requires IsCounted(judge, journals, m) && |journals| == 8 && m.foundationCount == 4
    requires forall p :: |EntriesOf(judge, journals, p)| == 1
    ensures PillarPercents(m) - m.iwqPercentage == 2
  {
    OneAndFourOfEight(|journals|);
    forall p: Pillar ensures m.pillars[p].pct == 13 {
      assert m.pillars[p] == StatOf(judge, journals, p, |journals|);
    }
  }

  lemma OneAndFourOfEight(t: nat)
    requires t == 8
    ensures Percent(1, t) == 13 && Percent(4, t) == 50
  {
  }

  function Journal(id: int, category: string, tags: seq<TagEntry>): Entry {
    Entry(id, Some(category), None, None, None, tags)
  }

  lemma OfCategory(lower: Lower, id: int, category: string, p: Pillar)
    requires Lowers(lower) && IsLowerCase(category) && !Unspecific(category)
    ensures Belongs(lower, Journal(id, category, []), p) <==> category in PillarCategories(p)
  {
    assert CategoryOf(lower, Journal(id, category, [])) == category;
  }

  lemma OfTag(lower: Lower, id: int, tag: string, category: string, p: Pillar)
    requires Lowers(lower) && IsLowerCase(tag) && IsLowerCase(category) && !Unspecific(category)
    ensures Belongs(lower, Journal(id, category, [Named(Some(tag))]), p)
            <==> tag in PillarTags(p) || category in PillarCategories(p)
  {
    var t := Named(Some(tag));
    var e := Journal(id, category, [t]);
    assert CategoryOf(lower, e) == category && NameOf(lower, t) == tag;
    assert t in e.tags && forall u :: u in e.tags ==> u == t;
  }

  function JournalAt(i: nat): Entry {
    if i == 0 then Journal(i, "maintenance", [])
    else if i == 1 then Journal(i, "development", [Named(Some("incident"))])
    else if i == 2 then Journal(i, "meeting", [])
    else if i == 3 then Journal(i, "development", [Named(Some("architecture"))])
    else Journal(i, "development", [])
  }

  lemma NoPillar(lower: Lower, id: int)
    requires Lowers(lower)
    ensures Classify(lower, Journal(id, "development", [])).primaryPillar == None
  {
    var e, category := Journal(id, "development", []), "development";
    forall p ensures !Belongs(lower, e, p) { OfCategory(lower, id, category, p); }
    ClassifyMeaning(lower, e);
  }

  lemma PillarByCategory(lower: Lower, id: int, category: string, k: nat)
    requires Lowers(lower) && IsLowerCase(category) && !Unspecific(category)
    requires k < |PILLARS| && category in PillarCategories(PILLARS[k])
    requires forall i :: 0 <= i < k ==> category !in PillarCategories(PILLARS[i])
    ensures Classify(lower, Journal(id, category, [])).primaryPillar == Some(PILLARS[k])
  {
    forall i | 0 <= i <= k
      ensures Belongs(lower, Journal(id, category, []), PILLARS[i]) <==> category in PillarCategories(PILLARS[i])
    {
      OfCategory(lower, id, category, PILLARS[i]);
    }
    FirstPillar(lower, Journal(id, category, []), k);
  }

  lemma PillarByTag(lower: Lower, id: int, tag: string, k: nat)
    requires Lowers(lower) && IsLowerCase(tag) && k < |PILLARS| && tag in PillarTags(PILLARS[k])
    requires forall i :: 0 <= i < k ==> tag !in PillarTags(PILLARS[i])
    ensures Classify(lower, Journal(id, "development", [Named(Some(tag))])).primaryPillar == Some(PILLARS[k])
  {
    var e, category := Journal(id, "development", [Named(Some(tag))]), "development";
    forall i | 0 <= i <= k ensures Belongs(lower, e, PILLARS[i]) <==> tag in PillarTags(PILLARS[i]) {
      OfTag(lower, id, tag, category, PILLARS[i]);
    }
    FirstPillar(lower, e, k);
  }

  lemma MaintenanceFirst(lower: Lower, id: int, category: string)
    requires Lowers(lower) && category == "maintenance"
    ensures Classify(lower, Journal(id, category, [])).primaryPillar == Some(PILLARS[0])
  {
    assert PillarCategories(PILLARS[0])[0] == category;
    PillarByCategory(lower, id, category, 0);
  }

  lemma IncidentSecond(lower: Lower, id: int, tag: string)
    requires Lowers(lower) && tag == "incident"
    ensures Classify(lower, Journal(id, "development", [Named(Some(tag))])).primaryPillar == Some(PILLARS[1])
  {
    assert PillarTags(PILLARS[1])[0] == tag;
    PillarByTag(lower, id, tag, 1);
  }

  lemma MeetingThird(lower: Lower, id: int, category: string)
    requires Lowers(lower) && category == "meeting"
    ensures Classify(lower, Journal(id, category, [])).primaryPillar == Some(PILLARS[2])
  {
    assert PillarCategories(PILLARS[2])[0] == category;
    PillarByCategory(lower, id, category, 2);
  }

  lemma ArchitectureFourth(lower: Lower, id: int, tag: string)
    requires Lowers(lower) && tag == "architecture"
    ensures Classify(lower, Journal(id, "development", [Named(Some(tag))])).primaryPillar == Some(PILLARS[3])
  {
    assert PillarTags(PILLARS[3])[0] == tag;
    PillarByTag(lower, id, tag, 3);
  }

  /** There are such journals. */
  lemma JournalAtClassified(lower: Lower, i: nat)
    requires Lowers(lower)
    ensures JournalAt(i).id == i
    ensures Classify(lower, JournalAt(i)).primaryPillar == if i < 4 then Some(PILLARS[i]) else None
  {
    if i == 0 { MaintenanceFirst(lower, i, "maintenance"); }
    else if i == 1 { IncidentSecond(lower, i, "incident"); }
    else if i == 2 { MeetingThird(lower, i, "meeting"); }
    else if i == 3 { ArchitectureFourth(lower, i, "architecture"); }
    else { NoPillar(lower, i); }
  }

  /** So the bound of two is attained, whatever the lower-casing does to other text. */
  lemma TwoIsReached(lower: Lower) returns (journals: seq<Entry>)
    requires Lowers(lower)
    ensures DistinctIds(journals)
    ensures forall m :: IsCounted(Classifier(lower), journals, m) ==> PillarPercents(m) - m.iwqPercentage == 2
  {
    journals := seq(8, i requires 0 <= i < 8 => JournalAt(i));
    forall i | 0 <= i < 8
      ensures journals[i].id == i
      ensures Classify(lower, journals[i]).primaryPillar == if i < 4 then Some(PILLARS[i]) else None
    {
      JournalAtClassified(lower, i);
    }
    ClassifierIsCoherent(lower);
    forall m | IsCounted(Classifier(lower), journals, m) ensures PillarPercents(m) - m.iwqPercentage == 2 {
      TwoIsAttained(Classifier(lower), journals, m);
    }
  }
}
