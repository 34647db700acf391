/** The team overview, assembled in memory from the statistics, and its quiet heroes. */
module Team {
  import opened Options
  import opened Lists
  import opened Schema
  import TeamStats

  datatype Member = Member(id: int, name: string, email: string, role: string)

  datatype JournalStats = JournalStats(totalJournals: nat, activeDays: nat, lastEntryDate: Option<int>)

  datatype AchievementStats = AchievementStats(total: nat, critical: nat, high: nat)

  /** The three maps, by user; a user that is missing has no rows. */
  datatype Stats = Stats(journals: map<int, JournalStats>, achievements: map<int, AchievementStats>,
                         foundation: map<int, nat>)
  {
    function JournalsOf(user: int): JournalStats {
      if user in journals then journals[user] else JournalStats(0, 0, None)
    }

    function AchievementsOf(user: int): AchievementStats {
      if user in achievements then achievements[user] else AchievementStats(0, 0, 0)
    }

    function FoundationOf(user: int): nat { if user in foundation then foundation[user] else 0 }
  }

  datatype MemberOverview = MemberOverview(
    member: Member, journals: JournalStats, achievements: AchievementStats, foundationJournals: nat, iwqPercentage: int)

  datatype Summary = Summary(
    totalMembers: nat, totalJournals: nat, totalAchievements: nat, teamIwqPercentage: int, foundationJournals: nat)

  /** `int(float64(f) / float64(t) * 100)`, whatever the machine makes of it. */
  type Percentage = (nat, nat) -> int

  /** The rounded-down percentage. */
  function Exact(f: nat, t: nat): nat
    requires t > 0
  {
    100 * f / t
  }

  /** Floating point may put the product on the other side of a whole number: one point either way. */
  ghost predicate NearExact(percent: Percentage) {
    forall f: nat, t: nat :: 0 < t && f <= t ==> Exact(f, t) - 1 <= percent(f, t) <= Exact(f, t) + 1
  }

  function Iwq(percent: Percentage, f: nat, t: nat): int { if t > 0 then percent(f, t) else 0 }

  function OverviewOf(stats: Stats, percent: Percentage, m: Member): MemberOverview {
    var js, fs := stats.JournalsOf(m.id), stats.FoundationOf(m.id);
    MemberOverview(m, js, stats.AchievementsOf(m.id), fs, Iwq(percent, fs, js.totalJournals))
  }

  function Sum(overviews: seq<MemberOverview>, value: MemberOverview -> nat): nat {
    if overviews == [] then 0 else Sum(overviews[..|overviews|-1], value) + value(overviews[|overviews|-1])
  }

  function Journals(o: MemberOverview): nat { o.journals.totalJournals }

  function Achievements(o: MemberOverview): nat { o.achievements.total }

  function Foundation(o: MemberOverview): nat { o.foundationJournals }

  function SummaryOf(overviews: seq<MemberOverview>, percent: Percentage): Summary {
    var t, f := Sum(overviews, Journals), Sum(overviews, Foundation);
    Summary(|overviews|, t, Sum(overviews, Achievements), Iwq(percent, f, t), f)
  }

  lemma SumNext(overviews: seq<MemberOverview>, o: MemberOverview, value: MemberOverview -> nat)
    ensures Sum(overviews + [o], value) == Sum(overviews, value) + value(o)
  {
    assert (overviews + [o])[..|overviews|] == overviews;
  }

  /** The row of a member: the statistics found under the member's id, zeros where there are none, and
      the percentage of foundation journals among the journals. */
  ghost predicate RowTells(o: MemberOverview, m: Member, stats: Stats, percent: Percentage) {
    && o.member == m
    && (if m.id in stats.journals then o.journals == stats.journals[m.id]
        else o.journals.totalJournals == o.journals.activeDays == 0 && o.journals.lastEntryDate == None)
    && (if m.id in stats.achievements then o.achievements == stats.achievements[m.id]
        else o.achievements.total == o.achievements.critical == o.achievements.high == 0)
    && (if m.id in stats.foundation then o.foundationJournals == stats.foundation[m.id] else o.foundationJournals == 0)
    && (if o.journals.totalJournals == 0 then o.iwqPercentage == 0
        else o.iwqPercentage == percent(o.foundationJournals, o.journals.totalJournals))
  }

  /** The team's numbers are the sums over its rows. */
  ghost predicate SummaryTells(summary: Summary, overviews: seq<MemberOverview>, percent: Percentage) {
    && summary.totalMembers == |overviews|
    && summary.totalJournals == Sum(overviews, (o: MemberOverview) => o.journals.totalJournals)
    && summary.totalAchievements == Sum(overviews, (o: MemberOverview) => o.achievements.total)
    && summary.foundationJournals == Sum(overviews, (o: MemberOverview) => o.foundationJournals)
    && (if summary.totalJournals == 0 then summary.teamIwqPercentage == 0
        else summary.teamIwqPercentage == percent(summary.foundationJournals, summary.totalJournals))
  }

  lemma {:induction false} SameSum(overviews: seq<MemberOverview>, f: MemberOverview -> nat, g: MemberOverview -> nat)
    requires forall o :: f(o) == g(o)
    ensures Sum(overviews, f) == Sum(overviews, g)
    decreases |overviews|
  {
    if overviews != [] { SameSum(overviews[..|overviews|-1], f, g); }
  }

  lemma SumsTell(overviews: seq<MemberOverview>, percent: Percentage)
    ensures SummaryTells(SummaryOf(overviews, percent), overviews, percent)
  {
    SameSum(overviews, Journals, (o: MemberOverview) => o.journals.totalJournals);
    SameSum(overviews, Achievements, (o: MemberOverview) => o.achievements.total);
    SameSum(overviews, Foundation, (o: MemberOverview) => o.foundationJournals);
  }

  lemma RowIsTold(stats: Stats, percent: Percentage, m: Member)
    ensures RowTells(OverviewOf(stats, percent, m), m, stats, percent)
  {
  }

  /** The assembly loop. */
  method AssembleOverview(members: seq<Member>, stats: Stats, percent: Percentage)
      returns (summary: Summary, memberOverviews: seq<MemberOverview>)
    ensures |memberOverviews| == |members|
    ensures forall i :: 0 <= i < |members| ==> memberOverviews[i] == OverviewOf(stats, percent, members[i])
    ensures summary == SummaryOf(memberOverviews, percent)
    ensures forall i :: 0 <= i < |members| ==> RowTells(memberOverviews[i], members[i], stats, percent)
    ensures SummaryTells(summary, memberOverviews, percent)
  {
    var totalJournals: nat, totalAchievements: nat, totalFoundation: nat := 0, 0, 0;
    memberOverviews := [];
    for i := 0 to |members|
      invariant |memberOverviews| == i
      invariant forall n :: 0 <= n < i ==> memberOverviews[n] == OverviewOf(stats, percent, members[n])
      invariant totalJournals == Sum(memberOverviews, Journals)
      invariant totalAchievements == Sum(memberOverviews, Achievements)
      invariant totalFoundation == Sum(memberOverviews, Foundation)
    {
      var m := members[i];
      var js := stats.JournalsOf(m.id);
      var achs := stats.AchievementsOf(m.id);
      var fs := stats.FoundationOf(m.id);
      var iwq := 0;
      if js.totalJournals > 0 {
        iwq := percent(fs, js.totalJournals);
      }
      totalJournals := totalJournals + js.totalJournals;
      totalAchievements := totalAchievements + achs.total;
      totalFoundation := totalFoundation + fs;
      var o := MemberOverview(m, js, achs, fs, iwq);
      SumNext(memberOverviews, o, Journals);
      SumNext(memberOverviews, o, Achievements);
      SumNext(memberOverviews, o, Foundation);
      memberOverviews := memberOverviews + [o];
    }
    var teamIwq := 0;
    if totalJournals > 0 {
      teamIwq := percent(totalFoundation, totalJournals);
    }
    summary := Summary(|members|, totalJournals, totalAchievements, teamIwq, totalFoundation);
    SumsTell(memberOverviews, percent);
    forall i | 0 <= i < |members| ensures RowTells(memberOverviews[i], members[i], stats, percent) {
      RowIsTold(stats, percent, members[i]);
    }
  }

  // ----- The exact ratio of the team -----

  /** No member has more foundation journals than journals. */
  ghost predicate Consistent(overviews: seq<MemberOverview>) {
    forall o :: o in overviews ==> Foundation(o) <= Journals(o)
  }

  /** f(a) / t(a) <= f(b) / t(b), multiplied out. */
  predicate AtMost(a: MemberOverview, b: MemberOverview) { Foundation(a) * Journals(b) <= Foundation(b) * Journals(a) }

  lemma AtMostIsTransitive(a: MemberOverview, b: MemberOverview, c: MemberOverview)
    requires AtMost(a, b) && AtMost(b, c) && Journals(b) > 0
    ensures AtMost(a, c)
  {
    CrossChain(Foundation(a), Journals(a), Foundation(b), Journals(b), Foundation(c), Journals(c));
  }

  lemma CrossChain(fa: nat, ta: nat, fb: nat, tb: nat, fc: nat, tc: nat)
    requires fa * tb <= fb * ta && fb * tc <= fc * tb && tb > 0
    ensures fa * tc <= fc * ta
  {
    var x, y, z := fa * tb, fb * ta, fb * tc;
    assert x * tc <= y * tc;
    assert z * ta <= (fc * tb) * ta;
    assert y * tc == z * ta;
    assert x * tc == (fa * tc) * tb && (fc * tb) * ta == (fc * ta) * tb;
    Cancel(fa * tc, fc * ta, tb);
  }

  lemma Cancel(a: int, b: int, t: nat)
    requires a * t <= b * t && t > 0
    ensures a <= b
  {
    assert a > b ==> (a - b) * t > 0;
  }

  /** Among the members with journals there are one with the smallest and one with the largest ratio. */
  lemma {:induction false} Extremes(overviews: seq<MemberOverview>) returns (lo: MemberOverview, hi: MemberOverview)
    requires exists o :: o in overviews && Journals(o) > 0
    ensures lo in overviews && hi in overviews && Journals(lo) > 0 && Journals(hi) > 0
    ensures forall o :: o in overviews && Journals(o) > 0 ==> AtMost(lo, o) && AtMost(o, hi)
    decreases |overviews|
  {
    var front, last := overviews[..|overviews|-1], overviews[|overviews|-1];
    assert overviews == front + [last];
    if x :| x in front && Journals(x) > 0 {
      lo, hi := Extremes(front);
      if Journals(last) > 0 {
        var lo', hi' := lo, hi;
        if !AtMost(lo, last) { lo := last; }
        if !AtMost(last, hi) { hi := last; }
        forall o | o in overviews && Journals(o) > 0 ensures AtMost(lo, o) && AtMost(o, hi) {
          if o in front {
            if lo == last && !AtMost(lo', last) { AtMostIsTransitive(last, lo', o); }
            if hi == last && !AtMost(last, hi') { AtMostIsTransitive(o, hi', last); }
          }
        }
      }
    } else {
      lo, hi := last, last;
    }
  }

  lemma {:induction false} SumAbove(overviews: seq<MemberOverview>, f: nat, t: nat)
    requires Consistent(overviews)
    requires forall o :: o in overviews && Journals(o) > 0 ==> f * Journals(o) <= Foundation(o) * t
    ensures f * Sum(overviews, Journals) <= Sum(overviews, Foundation) * t
    decreases |overviews|
  {
    if overviews != [] {
      var front, last := overviews[..|overviews|-1], overviews[|overviews|-1];
      assert overviews == front + [last];
      SumAbove(front, f, t);
      assert f * Journals(last) <= Foundation(last) * t;
      AddProducts(f, t, Sum(front, Journals), Journals(last), Sum(front, Foundation), Foundation(last));
    }
  }

  lemma {:induction false} SumBelow(overviews: seq<MemberOverview>, f: nat, t: nat)
    requires Consistent(overviews)
    requires forall o :: o in overviews && Journals(o) > 0 ==> Foundation(o) * t <= f * Journals(o)
    ensures Sum(overviews, Foundation) * t <= f * Sum(overviews, Journals)
    decreases |overviews|
  {
    if overviews != [] {
      var front, last := overviews[..|overviews|-1], overviews[|overviews|-1];
      assert overviews == front + [last];
      SumBelow(front, f, t);
      assert Foundation(last) * t <= f * Journals(last);
      AddProducts(f, t, Sum(front, Journals), Journals(last), Sum(front, Foundation), Foundation(last));
    }
  }

  lemma AddProducts(f: nat, t: nat, a: nat, b: nat, c: nat, d: nat)
    ensures f * (a + b) == f * a + f * b && (c + d) * t == c * t + d * t
  {
  }

  /** The team's ratio lies between the smallest and the largest ratio of its members with journals. */
  lemma TeamRatioIsBetween(overviews: seq<MemberOverview>) returns (lo: MemberOverview, hi: MemberOverview)
    requires Consistent(overviews) && exists o :: o in overviews && Journals(o) > 0
    ensures lo in overviews && hi in overviews && Journals(lo) > 0 && Journals(hi) > 0
    ensures forall o :: o in overviews && Journals(o) > 0 ==> AtMost(lo, o) && AtMost(o, hi)
    ensures Foundation(lo) * Sum(overviews, Journals) <= Sum(overviews, Foundation) * Journals(lo)
    ensures Sum(overviews, Foundation) * Journals(hi) <= Foundation(hi) * Sum(overviews, Journals)
  {
    lo, hi := Extremes(overviews);
    SumAbove(overviews, Foundation(lo), Journals(lo));
    SumBelow(overviews, Foundation(hi), Journals(hi));
  }

  // ----- Quiet heroes -----

  function Threshold(teamAverage: int): int { if teamAverage + 15 > 30 then teamAverage + 15 else 30 }

  function IsQuietHero(teamAverage: int): MemberOverview -> bool {
    (o: MemberOverview) => o.iwqPercentage >= Threshold(teamAverage) && o.member.role == "employee"
  }

  function QuietHeroes(overviews: seq<MemberOverview>, teamAverage: int): seq<MemberOverview> {
    Filter(overviews, IsQuietHero(teamAverage))
  }

  /** A smaller ratio has no larger percentage. */
  lemma ExactIsMonotone(fa: nat, ta: nat, fb: nat, tb: nat)
    requires ta > 0 && tb > 0 && fa * tb <= fb * ta
    ensures Exact(fa, ta) <= Exact(fb, tb)
  {
    var q := Exact(fa, ta);
    assert q * ta <= 100 * fa;
    ScaledChain(q, fa, ta, fb, tb);
    assert q * tb <= 100 * fb;
    Quotient(q, tb, 100 * fb);
  }

  lemma ScaledChain(q: nat, fa: nat, ta: nat, fb: nat, tb: nat)
    requires ta > 0 && q * ta <= 100 * fa && fa * tb <= fb * ta
    ensures q * tb <= 100 * fb
  {
    assert (q * ta) * tb <= (100 * fa) * tb;
    assert (q * ta) * tb == (q * tb) * ta && (100 * fa) * tb == 100 * (fa * tb) && 100 * (fb * ta) == (100 * fb) * ta;
    Cancel(q * tb, 100 * fb, ta);
  }

  lemma Quotient(q: nat, t: nat, x: nat)
    requires t > 0 && q * t <= x
    ensures q <= x / t
  {
    var d := x / t;
    assert x < (d + 1) * t;
    assert q > d ==> q * t >= (d + 1) * t;
  }

  lemma SumsAreConsistent(overviews: seq<MemberOverview>)
    requires Consistent(overviews)
    ensures Sum(overviews, Foundation) <= Sum(overviews, Journals)
  {
    forall o | o in overviews ensures Foundation(o) <= Journals(o) {
    }
    SumBelow(overviews, 1, 1);
  }

  ghost predicate Rated(overviews: seq<MemberOverview>, percent: Percentage) {
    forall o :: o in overviews ==> o.iwqPercentage == Iwq(percent, Foundation(o), Journals(o))
  }

  /** Someone stays below the threshold: the member with the smallest ratio, or anyone if nobody has
      journals. Each percentage may be one too low or too high. */
  lemma SomebodyIsBelow(overviews: seq<MemberOverview>, percent: Percentage) returns (o: MemberOverview)
    requires overviews != [] && Consistent(overviews) && NearExact(percent) && Rated(overviews, percent)
    ensures o in overviews && o.iwqPercentage < Threshold(SummaryOf(overviews, percent).teamIwqPercentage)
  {
    if x :| x in overviews && Journals(x) > 0 {
      var hi;
      o, hi := TeamRatioIsBetween(overviews);
      var t, f := Sum(overviews, Journals), Sum(overviews, Foundation);
      SumsAreConsistent(overviews);
      SumCounts(overviews, x);
      ExactIsMonotone(Foundation(o), Journals(o), f, t);
      assert percent(Foundation(o), Journals(o)) <= Exact(Foundation(o), Journals(o)) + 1;
      assert percent(f, t) >= Exact(f, t) - 1;
    } else {
      o := overviews[0];
    }
  }

  lemma {:induction false} SumCounts(overviews: seq<MemberOverview>, x: MemberOverview)
    requires x in overviews
    ensures Sum(overviews, Journals) >= Journals(x)
    decreases |overviews|
  {
    var front, last := overviews[..|overviews|-1], overviews[|overviews|-1];
    assert overviews == front + [last];
    if x in front { SumCounts(front, x); }
  }

  /** The quiet heroes of a team are never the whole team, unless the team is empty. */
  lemma QuietHeroesAreFew(members: seq<Member>, stats: Stats, percent: Percentage, overviews: seq<MemberOverview>)
    requires |overviews| == |members|
    requires forall i :: 0 <= i < |members| ==> overviews[i] == OverviewOf(stats, percent, members[i])
    requires NearExact(percent) && Consistent(overviews)
    ensures |QuietHeroes(overviews, SummaryOf(overviews, percent).teamIwqPercentage)| < |members| <==> members != []
  {
    if members != [] {
      var o := SomebodyIsBelow(overviews, percent);
      FilterDrops(overviews, IsQuietHero(SummaryOf(overviews, percent).teamIwqPercentage), o);
    }
  }

  /** The maps hold what the statistics queries return. */
  ghost predicate ReadFrom(stats: Stats, db: Database, team: int, bounds: TeamStats.Bounds) {
    forall user ::
      && stats.JournalsOf(user).totalJournals == TeamStats.TotalJournals(db, team, bounds, user)
      && stats.FoundationOf(user) == TeamStats.FoundationJournals(db, team, bounds, user)
  }

  /** Statistics from the database are consistent. */
  lemma DatabaseIsConsistent(members: seq<Member>, stats: Stats, percent: Percentage, overviews: seq<MemberOverview>,
                             db: Database, team: int, bounds: TeamStats.Bounds)
    requires db.Valid() && ReadFrom(stats, db, team, bounds)
    requires |overviews| == |members|
    requires forall i :: 0 <= i < |members| ==> overviews[i] == OverviewOf(stats, percent, members[i])
    ensures Consistent(overviews)
  {
    forall o | o in overviews ensures Foundation(o) <= Journals(o) {
      var i :| 0 <= i < |overviews| && overviews[i] == o;
      TeamStats.FoundationWithinTotal(db, team, bounds, members[i].id);
    }
  }

  // ----- Who is a quiet hero -----

  /** A quiet hero is an employee with journals, at least 29 percent of them foundation work, and exactly
      counted more than 12 points above the team, however the percentages are cut. */
  lemma HeroesAreOutstanding(overviews: seq<MemberOverview>, percent: Percentage, o: MemberOverview)
    requires Consistent(overviews) && NearExact(percent) && Rated(overviews, percent)
    requires o in QuietHeroes(overviews, SummaryOf(overviews, percent).teamIwqPercentage)
    ensures o in overviews && o.member.role == "employee" && Journals(o) > 0
    ensures 100 * Foundation(o) >= 29 * Journals(o)
    ensures var t, f := Sum(overviews, Journals), Sum(overviews, Foundation);
            t > 0 && 100 * (Foundation(o) * t) > 100 * (f * Journals(o)) + 12 * (Journals(o) * t)
  {
    var t, f := Sum(overviews, Journals), Sum(overviews, Foundation);
    FilterMembers(overviews, IsQuietHero(SummaryOf(overviews, percent).teamIwqPercentage), o);
    SumsAreConsistent(overviews);
    SumCounts(overviews, o);
    var p, q := o.iwqPercentage, percent(f, t);
    NearBounds(percent, Foundation(o), Journals(o));
    NearBounds(percent, f, t);
    AtLeastTimes(29, p - 1, Journals(o));
    Compare(Foundation(o), Journals(o), p, f, t, q);
  }

  /** An employee with at least 31 percent and, exactly counted, at least 17 points above the team is a
      quiet hero, however the percentages are cut. */
  lemma OutstandingAreHeroes(overviews: seq<MemberOverview>, percent: Percentage, o: MemberOverview)
    requires Consistent(overviews) && NearExact(percent) && Rated(overviews, percent)
    requires o in overviews && o.member.role == "employee" && Journals(o) > 0
    requires 100 * Foundation(o) >= 31 * Journals(o)
    requires var t, f := Sum(overviews, Journals), Sum(overviews, Foundation);
             100 * (Foundation(o) * t) >= 100 * (f * Journals(o)) + 17 * (Journals(o) * t)
    ensures o in QuietHeroes(overviews, SummaryOf(overviews, percent).teamIwqPercentage)
  {
    var t, f := Sum(overviews, Journals), Sum(overviews, Foundation);
    SumsAreConsistent(overviews);
    SumCounts(overviews, o);
    var p, q := o.iwqPercentage, percent(f, t);
    NearBounds(percent, Foundation(o), Journals(o));
    NearBounds(percent, f, t);
    LessTimes(31, p + 2, Journals(o));
    CompareBack(Foundation(o), Journals(o), p, f, t, q);
    FilterMembers(overviews, IsQuietHero(SummaryOf(overviews, percent).teamIwqPercentage), o);
  }

  /** A percentage within a point, multiplied out. */
  lemma NearBounds(percent: Percentage, f: nat, t: nat)
    requires NearExact(percent) && 0 < t && f <= t
    ensures (percent(f, t) - 1) * t <= 100 * f < (percent(f, t) + 2) * t
  {
    var e, p := Exact(f, t), percent(f, t);
    QuotientBounds(100 * f, t);
    AtLeastTimes(p - 1, e, t);
    AtLeastTimes(e + 1, p + 2, t);
  }

  lemma QuotientBounds(x: nat, t: nat)
    requires t > 0
    ensures x / t * t <= x < (x / t + 1) * t
  {
  }

  lemma AtLeastTimes(a: int, b: int, t: nat)
    requires a <= b
    ensures a * t <= b * t
  {
  }

  lemma LessTimes(a: int, b: int, t: nat)
    requires a * t < b * t
    ensures a < b
  {
    if b <= a { AtLeastTimes(b, a, t); }
  }

  lemma Swapped(a: int, b: int, c: int)
    ensures a * b * c == a * (b * c) == a * (c * b)
  {
  }

  lemma Compare(fo: nat, to: nat, p: int, f: nat, t: nat, q: int)
    requires to > 0 && t > 0 && (p - 1) * to <= 100 * fo && 100 * f < (q + 2) * t && p >= q + 15
    ensures 100 * (fo * t) > 100 * (f * to) + 12 * (to * t)
  {
    AtLeastTimes((p - 1) * to, 100 * fo, t);
    if 100 * f * to >= (q + 2) * t * to { Cancel((q + 2) * t, 100 * f, to); }
    Swapped(p - 1, to, t);
    Swapped(q + 2, t, to);
    Swapped(100, fo, t);
    Swapped(100, f, to);
    AtLeastTimes(q + 14, p - 1, to * t);
    Split(q + 2, 12, to * t);
  }

  lemma Split(a: int, b: int, t: int)
    ensures (a + b) * t == a * t + b * t
  {
  }

  lemma CompareBack(fo: nat, to: nat, p: int, f: nat, t: nat, q: int)
    requires to > 0 && t > 0 && 100 * fo < (p + 2) * to && (q - 1) * t <= 100 * f
    requires 100 * (fo * t) >= 100 * (f * to) + 17 * (to * t)
    ensures p >= q + 15
  {
    if 100 * fo * t >= (p + 2) * to * t { Cancel((p + 2) * to, 100 * fo, t); }
    AtLeastTimes((q - 1) * t, 100 * f, to);
    Swapped(p + 2, to, t);
    Swapped(q - 1, t, to);
    Swapped(100, fo, t);
    Swapped(100, f, to);
    Split(q - 1, 17, to * t);
    LessTimes(q + 16, p + 2, to * t);
  }
}
