/** The foundation statistics of a list of journals: counts and rounded percentages per pillar. */
module FoundationMetrics {
  import opened Lists
  import opened Options
  import opened Foundation

  datatype Stat = Stat(count: nat, pct: nat, entries: seq<Entry>)

  datatype Metrics = Metrics(
    totalEntries: nat, foundationCount: nat, featureCount: int, iwqPercentage: nat, pillars: map<Pillar, Stat>,
    topPillar: Option<Pillar>)

  /** `Math.round(count / total * 100)`: halves go up. */
  function Percent(count: nat, total: nat): nat
    requires total > 0
  {
    (200 * count + total) / (2 * total)
  }

  /** How entries are classified. */
  type Judge = Entry -> Classification

  /** Foundation work has a primary pillar, and nothing else has. */
  ghost predicate Coherent(judge: Judge) { forall e :: judge(e).isFoundation <==> judge(e).primaryPillar.Some? }

  /** The classifier of the module Foundation. */
  function Classifier(lower: Lower): Judge { (e: Entry) => Classify(lower, e) }

  lemma ClassifierIsCoherent(lower: Lower)
    ensures Coherent(Classifier(lower))
  {
    forall e ensures Classify(lower, e).isFoundation <==> Classify(lower, e).primaryPillar.Some? {
      ClassifyMeaning(lower, e);
    }
  }

  function IsFoundation(judge: Judge): Entry -> bool { (e: Entry) => judge(e).isFoundation }

  function HasPrimary(judge: Judge, p: Pillar): Entry -> bool { (e: Entry) => judge(e).primaryPillar == Some(p) }

  function FoundationOf(judge: Judge, journals: seq<Entry>): seq<Entry> { Filter(journals, IsFoundation(judge)) }

  function EntriesOf(judge: Judge, journals: seq<Entry>, p: Pillar): seq<Entry> {
    Filter(journals, HasPrimary(judge, p))
  }

  function Ids(entries: seq<Entry>): set<int> { set e | e in entries :: e.id }

  function Count(stats: map<Pillar, Stat>, p: Pillar): nat { if p in stats then stats[p].count else 0 }

  ghost predicate IsFirstMaximum(stats: map<Pillar, Stat>, pillars: seq<Pillar>, k: nat)
    requires k < |pillars|
  {
    && (forall i :: 0 <= i < k ==> Count(stats, pillars[i]) < Count(stats, pillars[k]))
    && (forall i :: k < i < |pillars| ==> Count(stats, pillars[i]) <= Count(stats, pillars[k]))
  }

  /** The first of the pillars with the largest count, if any has entries. */
  ghost predicate IsTop(stats: map<Pillar, Stat>, pillars: seq<Pillar>, top: Option<Pillar>) {
    match top
    case None => forall p :: p in pillars ==> Count(stats, p) == 0
    case Some(t) =>
      Count(stats, t) > 0 && exists k: nat :: k < |pillars| && pillars[k] == t && IsFirstMaximum(stats, pillars, k)
  }

  ghost predicate IsFiled(stats: map<Pillar, Stat>, judge: Judge, journals: seq<Entry>, total: nat) {
    forall p: Pillar :: p in stats && stats[p] == StatOf(judge, journals, p, total)
  }

  ghost predicate IsCounted(judge: Judge, journals: seq<Entry>, m: Metrics) {
    && m.totalEntries == |journals|
    && m.foundationCount == |Ids(FoundationOf(judge, journals))|
    && m.featureCount == m.totalEntries - m.foundationCount
    && m.iwqPercentage == (if journals == [] then 0 else Percent(m.foundationCount, |journals|))
    && IsFiled(m.pillars, judge, journals, |journals|)
  }

  ghost predicate IsMetrics(judge: Judge, journals: seq<Entry>, m: Metrics) {
    IsCounted(judge, journals, m) && IsTop(m.pillars, PILLARS, m.topPillar)
  }

  function StatOf(judge: Judge, journals: seq<Entry>, p: Pillar, total: nat): Stat {
    var entries := EntriesOf(judge, journals, p);
    Stat(|entries|, if total == 0 then 0 else Percent(|entries|, total), entries)
  }

  function NoStats(): map<Pillar, Stat> {
    map[RefactoringDebt := Stat(0, 0, []), OperationalResilience := Stat(0, 0, []),
        MentorshipUnblocking := Stat(0, 0, []), GovernanceArchitecture := Stat(0, 0, [])]
  }

  lemma NoStatsOfNothing(judge: Judge)
    ensures IsFiled(NoStats(), judge, [], 0)
  {
    forall p: Pillar ensures p in NoStats() && NoStats()[p] == StatOf(judge, [], p, 0) {
      match p
      case RefactoringDebt =>
      case OperationalResilience =>
      case MentorshipUnblocking =>
      case GovernanceArchitecture =>
    }
  }

  function Increment(stat: Stat, journal: Entry): Stat { Stat(stat.count + 1, stat.pct, stat.entries + [journal]) }

  lemma StatNext(judge: Judge, journals: seq<Entry>, i: nat, p: Pillar)
    requires i < |journals|
    ensures var stat := StatOf(judge, journals[..i], p, 0);
            StatOf(judge, journals[..i+1], p, 0)
            == if judge(journals[i]).primaryPillar == Some(p) then Increment(stat, journals[i]) else stat
  {
    FilterNext(journals, i, HasPrimary(judge, p));
  }

  lemma FiledNext(stats: map<Pillar, Stat>, judge: Judge, journals: seq<Entry>, i: nat)
    requires i < |journals| && IsFiled(stats, judge, journals[..i], 0)
    ensures match judge(journals[i]).primaryPillar
            case None => IsFiled(stats, judge, journals[..i+1], 0)
            case Some(q) => IsFiled(stats[q := Increment(stats[q], journals[i])], judge, journals[..i+1], 0)
  {
    forall p: Pillar
      ensures var stat := StatOf(judge, journals[..i], p, 0);
              StatOf(judge, journals[..i+1], p, 0)
              == if judge(journals[i]).primaryPillar == Some(p) then Increment(stat, journals[i]) else stat
    {
      StatNext(judge, journals, i, p);
    }
  }

  lemma IdsNext(judge: Judge, journals: seq<Entry>, i: nat)
    requires i < |journals|
    ensures Ids(FoundationOf(judge, journals[..i+1]))
         == Ids(FoundationOf(judge, journals[..i])) + (if judge(journals[i]).isFoundation then {journals[i].id} else {})
  {
    FilterNext(journals, i, IsFoundation(judge));
  }

  /** The first loop: every foundation entry is filed under its primary pillar. */
  method FileEntries(lower: Lower, journals: seq<Entry>)
      returns (pillarStats: map<Pillar, Stat>, foundationJournalIds: set<int>)
    ensures IsFiled(pillarStats, Classifier(lower), journals, 0)
    ensures foundationJournalIds == Ids(FoundationOf(Classifier(lower), journals))
  {
    pillarStats, foundationJournalIds := NoStats(), {};
    NoStatsOfNothing(Classifier(lower));
    for i := 0 to |journals|
      invariant IsFiled(pillarStats, Classifier(lower), journals[..i], 0)
      invariant foundationJournalIds == Ids(FoundationOf(Classifier(lower), journals[..i]))
    {
      var journal := journals[i];
      FiledNext(pillarStats, Classifier(lower), journals, i);
      IdsNext(Classifier(lower), journals, i);
      ClassifyMeaning(lower, journal);
      var classification := ClassifyJournal(lower, Some(journal));
      if classification.isFoundation {
        foundationJournalIds := foundationJournalIds + {journal.id};
        var p := classification.primaryPillar.value;
        pillarStats := pillarStats[p := Increment(pillarStats[p], journal)];
      }
    }
    assert journals[..|journals|] == journals;
  }

  /** What the next pillar does to the top of those before it. */
  lemma TopNext(stats: map<Pillar, Stat>, pillars: seq<Pillar>, k: nat, top: Option<Pillar>)
    requires k < |pillars| && IsTop(stats, pillars[..k], top)
    ensures var count := Count(stats, pillars[k]);
            var better := count > 0 && (top.None? || count > Count(stats, top.value));
            IsTop(stats, pillars[..k+1], if better then Some(pillars[k]) else top)
  {
    var count, next := Count(stats, pillars[k]), pillars[..k+1];
    assert next[..k] == pillars[..k] && next[k] == pillars[k];
    if top.Some? {
      var n: nat :| n < k && pillars[..k][n] == top.value && IsFirstMaximum(stats, pillars[..k], n);
      assert next[n] == top.value && forall i :: 0 <= i < k ==> next[i] == pillars[..k][i];
      assert count <= Count(stats, top.value) ==> IsFirstMaximum(stats, next, n);
      assert count > Count(stats, top.value) ==> IsFirstMaximum(stats, next, k);
    } else {
      assert forall i :: 0 <= i < k ==> next[i] in pillars[..k];
      assert count > 0 ==> IsFirstMaximum(stats, next, k);
    }
  }

  method FindTop(pillarStats: map<Pillar, Stat>, pillars: seq<Pillar>) returns (topPillar: Option<Pillar>)
    requires forall p: Pillar :: p in pillarStats
    ensures IsTop(pillarStats, pillars, topPillar)
  {
    topPillar := None;
    var maxCount: int := -1;
    for k := 0 to |pillars|
      invariant IsTop(pillarStats, pillars[..k], topPillar)
      invariant maxCount == if topPillar.Some? then Count(pillarStats, topPillar.value) else -1
    {
      TopNext(pillarStats, pillars, k, topPillar);
      var stat := pillarStats[pillars[k]];
      if stat.count > maxCount && stat.count > 0 {
        maxCount := stat.count;
        topPillar := Some(pillars[k]);
      }
    }
    assert pillars[..|pillars|] == pillars;
  }

  /** The second loop, over the pillars. */
  method FillPercents(ghost judge: Judge, ghost journals: seq<Entry>, total: nat, stats: map<Pillar, Stat>,
                      pillars: seq<Pillar>)
      returns (pillarStats: map<Pillar, Stat>)
    requires total == |journals| > 0 && IsFiled(stats, judge, journals, 0)
    requires forall p :: p in pillars
    ensures IsFiled(pillarStats, judge, journals, total)
  {
    pillarStats := stats;
    for k := 0 to |pillars|
      invariant forall p: Pillar :: p in pillarStats
      invariant forall p: Pillar :: pillarStats[p] == StatOf(judge, journals, p, if p in pillars[..k] then total else 0)
    {
      assert pillars[..k+1] == pillars[..k] + [pillars[k]];
      var stat := pillarStats[pillars[k]];
      pillarStats := pillarStats[pillars[k] := stat.(pct := Percent(stat.count, total))];
    }
    assert pillars[..|pillars|] == pillars;
  }

  lemma EmptyMetrics(judge: Judge)
    ensures IsMetrics(judge, [], Metrics(0, 0, 0, 0, NoStats(), None))
  {
    NoStatsOfNothing(judge);
  }

  method CalculateFoundationMetrics(lower: Lower, journals: seq<Entry>) returns (m: Metrics)
    ensures IsMetrics(Classifier(lower), journals, m)
  {
    var total := |journals|;
    if total == 0 {
      EmptyMetrics(Classifier(lower));
      return Metrics(0, 0, 0, 0, NoStats(), None);
    }
    var pillarStats, foundationJournalIds := FileEntries(lower, journals);
    var foundationCount := |foundationJournalIds|;
    var featureCount := total - foundationCount;
    var iwqPercentage := Percent(foundationCount, total);
    forall p ensures p in PILLARS { EveryPillar(p); }
    pillarStats := FillPercents(Classifier(lower), journals, total, pillarStats, PILLARS);
    var topPillar := FindTop(pillarStats, PILLARS);
    m := Metrics(total, foundationCount, featureCount, iwqPercentage, pillarStats, topPillar);
  }

  // ----- What the numbers mean -----

  lemma FoundationMembers(judge: Judge, journals: seq<Entry>, e: Entry)
    ensures e in FoundationOf(judge, journals) <==> e in journals && judge(e).isFoundation
  {
    FilterMembers(journals, IsFoundation(judge), e);
  }

  predicate DistinctIds(entries: seq<Entry>) {
    forall i, j :: 0 <= i < j < |entries| ==> entries[i].id != entries[j].id
  }

  lemma {:induction false} IdsSize(entries: seq<Entry>)
    ensures |Ids(entries)| <= |entries| && (entries != [] ==> |Ids(entries)| > 0)
    ensures |Ids(entries)| == |entries| <==> DistinctIds(entries)
    decreases |entries|
  {
    if entries != [] {
      var front, last := entries[..|entries|-1], entries[|entries|-1];
      DistinctNext(entries);
      IdsSize(front);
      IdsNextSize(front, last);
      assert entries == front + [last];
    }
  }

  lemma IdsNextSize(front: seq<Entry>, last: Entry)
    ensures |Ids(front + [last])| == |Ids(front)| + (if last.id in Ids(front) then 0 else 1)
  {
    assert Ids(front + [last]) == Ids(front) + {last.id};
  }

  lemma DistinctNext(entries: seq<Entry>)
    requires entries != []
    ensures var front := entries[..|entries|-1];
            DistinctIds(entries) <==> DistinctIds(front) && entries[|entries|-1].id !in Ids(front)
  {
    var front, n := entries[..|entries|-1], |entries| - 1;
    if entries[n].id in Ids(front) {
      var e :| e in front && e.id == entries[n].id;
      var i :| 0 <= i < |front| && front[i] == e;
      assert entries[i].id == entries[n].id;
    }
    forall i | 0 <= i < n ensures entries[i].id in Ids(front) {
      assert entries[i] == front[i] && front[i] in front;
    }
  }

  lemma FilteredIds(entries: seq<Entry>, keep: Entry -> bool)
    ensures Ids(Filter(entries, keep)) <= Ids(entries)
  {
    forall e | e in Filter(entries, keep) ensures e in entries {
      FilterMembers(entries, keep, e);
    }
  }

  lemma {:induction false} FilterKeepsIds(entries: seq<Entry>, keep: Entry -> bool)
    requires DistinctIds(entries)
    ensures DistinctIds(Filter(entries, keep))
    decreases |entries|
  {
    if entries != [] {
      var front, last := entries[..|entries|-1], entries[|entries|-1];
      FilterKeepsIds(front, keep);
      FilteredIds(front, keep);
      DistinctNext(entries);
      if keep(last) { DistinctAppend(Filter(front, keep), last); }
    }
  }

  lemma DistinctAppend(entries: seq<Entry>, e: Entry)
    requires DistinctIds(entries) && e.id !in Ids(entries)
    ensures DistinctIds(entries + [e])
  {
    assert (entries + [e])[..|entries|] == entries;
    DistinctNext(entries + [e]);
  }

  function PillarTotal(m: Metrics): nat {
    Count(m.pillars, RefactoringDebt) + Count(m.pillars, OperationalResilience)
    + Count(m.pillars, MentorshipUnblocking) + Count(m.pillars, GovernanceArchitecture)
  }

  /** Every foundation entry has exactly one primary pillar. */
  lemma {:induction false} PillarsPartition(judge: Judge, journals: seq<Entry>)
    requires Coherent(judge)
    ensures |EntriesOf(judge, journals, RefactoringDebt)| + |EntriesOf(judge, journals, OperationalResilience)|
            + |EntriesOf(judge, journals, MentorshipUnblocking)| + |EntriesOf(judge, journals, GovernanceArchitecture)|
         == |FoundationOf(judge, journals)|
    decreases |journals|
  {
    if journals != [] {
      var front, last := journals[..|journals|-1], journals[|journals|-1];
      PillarsPartition(judge, front);
      var primary := judge(last).primaryPillar;
      forall p
        ensures |EntriesOf(judge, journals, p)| == |EntriesOf(judge, front, p)| + (if primary == Some(p) then 1 else 0)
      {
        assert HasPrimary(judge, p)(last) <==> primary == Some(p);
      }
      assert IsFoundation(judge)(last) <==> primary.Some?;
      if primary.Some? {
        match primary.value
        case RefactoringDebt =>
        case OperationalResilience =>
        case MentorshipUnblocking =>
        case GovernanceArchitecture =>
      }
    }
  }

  function IsFeature(judge: Judge): Entry -> bool { (e: Entry) => !judge(e).isFoundation }

  /** The pillar counts add up to the foundation entries, and the feature count is that of the other
      entries, exactly when no two foundation entries share an id; otherwise the one is too small and
      the other too large. */
  lemma CountsAddUp(judge: Judge, journals: seq<Entry>, m: Metrics)
    requires Coherent(judge) && IsCounted(judge, journals, m)
    ensures PillarTotal(m) == |FoundationOf(judge, journals)|
    ensures m.foundationCount <= PillarTotal(m)
    ensures m.foundationCount == PillarTotal(m) <==> DistinctIds(FoundationOf(judge, journals))
    ensures m.featureCount == |Filter(journals, IsFeature(judge))| <==> DistinctIds(FoundationOf(judge, journals))
  {
    PillarsPartition(judge, journals);
    IdsSize(FoundationOf(judge, journals));
    FilterSplits(journals, IsFoundation(judge), IsFeature(judge));
  }

  /** The top pillar is missing exactly when there is no foundation work, and no pillar beats it. */
  lemma TopPillarLeads(judge: Judge, journals: seq<Entry>, m: Metrics, p: Pillar)
    requires Coherent(judge) && IsCounted(judge, journals, m) && IsTop(m.pillars, PILLARS, m.topPillar)
    ensures m.topPillar.None? <==> m.foundationCount == 0
    ensures m.topPillar.Some? ==> m.pillars[p].count <= m.pillars[m.topPillar.value].count
  {
    CountsAddUp(judge, journals, m);
    IdsSize(FoundationOf(judge, journals));
    EveryPillar(p);
    if m.topPillar.None? {
      EveryPillar(RefactoringDebt);
      EveryPillar(OperationalResilience);
      EveryPillar(MentorshipUnblocking);
      EveryPillar(GovernanceArchitecture);
    } else {
      CountWithinTotal(m, m.topPillar.value);
    }
  }

  lemma CountWithinTotal(m: Metrics, p: Pillar)
    ensures Count(m.pillars, p) <= PillarTotal(m)
  {
    match p
    case RefactoringDebt =>
    case OperationalResilience =>
    case MentorshipUnblocking =>
    case GovernanceArchitecture =>
  }

  /** A rounded percentage is within one half of the exact one. */
  lemma PercentIsNear(c: nat, t: nat)
    requires t > 0
    ensures 200 * c - t < 2 * (t * Percent(c, t)) <= 200 * c + t
  {
    var x, y := 200 * c + t, 2 * t;
    assert x == x / y * y + x % y;
    assert x / y * y == 2 * (t * (x / y));
  }

  lemma WithinTwo(t: nat, r: int)
    requires t > 0 && -5 * t < 2 * (t * r) < 5 * t
    ensures -2 <= r <= 2
  {
    assert r >= 3 ==> t * r >= t * 3;
    assert r <= -3 ==> t * r <= t * -3;
  }

  lemma RoundedParts(t: nat, a: nat, b: nat, c: nat, d: nat, whole: nat)
    requires t > 0 && whole == a + b + c + d
    ensures -2 <= Percent(a, t) + Percent(b, t) + Percent(c, t) + Percent(d, t) - Percent(whole, t) <= 2
  {
    PercentIsNear(a, t);
    PercentIsNear(b, t);
    PercentIsNear(c, t);
    PercentIsNear(d, t);
    PercentIsNear(whole, t);
    var p: int, q: int, r: int, s: int := Percent(a, t), Percent(b, t), Percent(c, t), Percent(d, t);
    Distribute(t, p, q, r, s, Percent(whole, t));
    WithinTwo(t, p + q + r + s - Percent(whole, t));
  }

  lemma Distribute(t: int, p: int, q: int, r: int, s: int, whole: int)
    ensures t * (p + q + r + s - whole) == t * p + t * q + t * r + t * s - t * whole
  {
  }

  function PillarPercents(m: Metrics): nat
    requires forall p: Pillar :: p in m.pillars
  {
    m.pillars[RefactoringDebt].pct + m.pillars[OperationalResilience].pct
    + m.pillars[MentorshipUnblocking].pct + m.pillars[GovernanceArchitecture].pct
  }

  lemma PercentOfPillar(judge: Judge, journals: seq<Entry>, m: Metrics, p: Pillar)
    requires IsCounted(judge, journals, m)
    ensures m.pillars[p].pct == if journals == [] then 0 else Percent(Count(m.pillars, p), |journals|)
  {
  }

  /** With distinct ids the four rounded percentages add up to the rounded whole, give or take two. */
  lemma PercentsAddUp(judge: Judge, journals: seq<Entry>, m: Metrics)
    requires Coherent(judge) && IsCounted(judge, journals, m) && DistinctIds(FoundationOf(judge, journals))
    ensures -2 <= PillarPercents(m) - m.iwqPercentage <= 2
  {
    CountsAddUp(judge, journals, m);
    PercentOfPillar(judge, journals, m, RefactoringDebt);
    PercentOfPillar(judge, journals, m, OperationalResilience);
    PercentOfPillar(judge, journals, m, MentorshipUnblocking);
    PercentOfPillar(judge, journals, m, GovernanceArchitecture);
    if journals != [] {
      RoundedParts(|journals|, Count(m.pillars, RefactoringDebt), Count(m.pillars, OperationalResilience),
                   Count(m.pillars, MentorshipUnblocking), Count(m.pillars, GovernanceArchitecture), m.foundationCount);
    }
  }
}
