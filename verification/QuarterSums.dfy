/** The bounded team statistics of the four quarters, against those of the whole year. */
module QuarterSums {
  import opened Options
  import opened FiniteSets
  import opened Schema
  import opened Gregorian
  import opened Quarters
  import opened TeamStats

  function QuarterBounds(year: int, quarter: int): Bounds {
    Bounded(GetQuarterBounds(year, quarter).0, GetQuarterBounds(year, quarter).1)
  }

  /** From the first day of the first quarter to the last day of the last. */
  function YearBounds(year: int): Bounds { Bounded(GetQuarterBounds(year, 1).0, GetQuarterBounds(year, 4).1) }

  lemma QuartersAdjoin(year: int, quarter: int)
    ensures GetQuarterBounds(year, quarter).1 + 1 == GetQuarterBounds(year, quarter + 1).0
    ensures GetQuarterBounds(year, quarter).0 <= GetQuarterBounds(year, quarter).1
  {
    FirstDayIsInQuarter(year, quarter);
    assert quarter * 3 == (quarter - 1) * 3 + 3;
  }

  /** A day of the year is in exactly the quarter it falls in. */
  lemma QuarterOfDay(year: int, day: int)
    ensures YearBounds(year).Contains(day) <==> GetFullYear(day) == ConstructorYear(year)
    ensures forall q :: 1 <= q <= 4 ==>
              (QuarterBounds(year, q).Contains(day) <==> YearBounds(year).Contains(day) && GetQuarter(day) == q)
  {
    forall q | 1 <= q <= 4
      ensures QuarterBounds(year, q).Contains(day)
              <==> GetFullYear(day) == ConstructorYear(year) && GetQuarter(day) == q
    {
      BoundsCoverQuarter(day, year, q);
      assert QuarterBounds(year, q).Contains(day) <==> InQuarter(day, year, q);
    }
    YearIsQuarters(year, day);
    OneQuarterPerDay(day);
  }

  lemma YearIsQuarters(year: int, day: int)
    ensures YearBounds(year).Contains(day)
        <==> || QuarterBounds(year, 1).Contains(day) || QuarterBounds(year, 2).Contains(day)
             || QuarterBounds(year, 3).Contains(day) || QuarterBounds(year, 4).Contains(day)
  {
    QuartersAdjoin(year, 1);
    QuartersAdjoin(year, 2);
    QuartersAdjoin(year, 3);
    QuartersAdjoin(year, 4);
  }

  /** The quarters' parts of a year add up when they do not overlap and make up the year's. */
  lemma PartsAddUp(year: int, part: Bounds -> set<int>)
    requires forall p, q :: 1 <= p <= 4 && 1 <= q <= 4 && p != q ==>
               part(QuarterBounds(year, p)) !! part(QuarterBounds(year, q))
    requires forall x :: x in part(YearBounds(year)) <==> exists q :: 1 <= q <= 4 && x in part(QuarterBounds(year, q))
    ensures |part(YearBounds(year))|
         == |part(QuarterBounds(year, 1))| + |part(QuarterBounds(year, 2))|
            + |part(QuarterBounds(year, 3))| + |part(QuarterBounds(year, 4))|
  {
    var a, b := part(QuarterBounds(year, 1)), part(QuarterBounds(year, 2));
    var c, d := part(QuarterBounds(year, 3)), part(QuarterBounds(year, 4));
    assert a !! b && (a + b) !! c && (a + b + c) !! d;
    forall x ensures x in part(YearBounds(year)) <==> x in a + b + c + d {
      if x in part(YearBounds(year)) {
        var q :| 1 <= q <= 4 && x in part(QuarterBounds(year, q));
        assert q == 1 || q == 2 || q == 3 || q == 4;
      }
    }
    assert part(YearBounds(year)) == a + b + c + d;
  }

  lemma CountedInYear(db: Database, team: int, user: int, year: int, j: Journal)
    ensures Counted(db, team, YearBounds(year), user, j)
        <==> exists q :: 1 <= q <= 4 && Counted(db, team, QuarterBounds(year, q), user, j)
  {
    QuarterOfDay(year, j.entryDate);
    OneQuarterPerDay(j.entryDate);
    if Counted(db, team, YearBounds(year), user, j) {
      assert Counted(db, team, QuarterBounds(year, GetQuarter(j.entryDate)), user, j);
    }
  }

  lemma OneQuarterEach(year: int, p: int, q: int, day: int)
    requires 1 <= p <= 4 && 1 <= q <= 4
    ensures p != q ==> !(QuarterBounds(year, p).Contains(day) && QuarterBounds(year, q).Contains(day))
  {
    QuarterOfDay(year, day);
  }

  /** Journal counts: a journal is dated in one quarter. */
  lemma TotalsAddUp(db: Database, team: int, user: int, year: int)
    requires db.Valid()
    ensures TotalJournals(db, team, YearBounds(year), user)
         == TotalJournals(db, team, QuarterBounds(year, 1), user)
            + TotalJournals(db, team, QuarterBounds(year, 2), user)
            + TotalJournals(db, team, QuarterBounds(year, 3), user)
            + TotalJournals(db, team, QuarterBounds(year, 4), user)
  {
    var ids := (bounds: Bounds) => CountedIds(db, team, bounds, user);
    forall p, q, x | 1 <= p <= 4 && 1 <= q <= 4 && p != q
      ensures !(x in ids(QuarterBounds(year, p)) && x in ids(QuarterBounds(year, q)))
    {
      DifferentJournals(db, team, user, year, p, q, x);
    }
    forall j ensures Counted(db, team, YearBounds(year), user, j)
                 <==> exists q :: 1 <= q <= 4 && Counted(db, team, QuarterBounds(year, q), user, j) {
      CountedInYear(db, team, user, year, j);
    }
    PartsAddUp(year, ids);
    forall bounds
      ensures TotalJournals(db, team, bounds, user) == |ids(bounds)|
    {
      TotalMeaning(db, team, bounds, user);
    }
  }

  lemma DifferentJournals(db: Database, team: int, user: int, year: int, p: int, q: int, x: int)
    requires db.Valid() && 1 <= p <= 4 && 1 <= q <= 4 && p != q
    ensures !(x in CountedIds(db, team, QuarterBounds(year, p), user)
              && x in CountedIds(db, team, QuarterBounds(year, q), user))
  {
    forall i, j | Counted(db, team, QuarterBounds(year, p), user, i)
                  && Counted(db, team, QuarterBounds(year, q), user, j)
      ensures i.id != j.id
    {
      OneQuarterEach(year, p, q, j.entryDate);
    }
  }

  /** Active days: a date is in one quarter. */
  lemma ActiveDaysAddUp(db: Database, team: int, user: int, year: int)
    ensures ActiveDays(db, team, YearBounds(year), user)
         == ActiveDays(db, team, QuarterBounds(year, 1), user) + ActiveDays(db, team, QuarterBounds(year, 2), user)
            + ActiveDays(db, team, QuarterBounds(year, 3), user) + ActiveDays(db, team, QuarterBounds(year, 4), user)
  {
    var dates := (bounds: Bounds) => CountedDates(db, team, bounds, user);
    forall p, q, x | 1 <= p <= 4 && 1 <= q <= 4 && p != q
      ensures !(x in dates(QuarterBounds(year, p)) && x in dates(QuarterBounds(year, q)))
    {
      OneQuarterEach(year, p, q, x);
    }
    forall j ensures Counted(db, team, YearBounds(year), user, j)
                 <==> exists q :: 1 <= q <= 4 && Counted(db, team, QuarterBounds(year, q), user, j) {
      CountedInYear(db, team, user, year, j);
    }
    PartsAddUp(year, dates);
    forall bounds
      ensures ActiveDays(db, team, bounds, user) == |dates(bounds)|
    {
      ActiveMeaning(db, team, bounds, user);
    }
  }

  /** Foundation journals: whether a journal is foundation work does not depend on the range. */
  lemma FoundationAddsUp(db: Database, team: int, user: int, year: int)
    requires db.Valid()
    ensures FoundationJournals(db, team, YearBounds(year), user)
         == FoundationJournals(db, team, QuarterBounds(year, 1), user)
            + FoundationJournals(db, team, QuarterBounds(year, 2), user)
            + FoundationJournals(db, team, QuarterBounds(year, 3), user)
            + FoundationJournals(db, team, QuarterBounds(year, 4), user)
  {
    var ids := (bounds: Bounds) => FoundationIds(db, team, bounds, user);
    forall p, q, x | 1 <= p <= 4 && 1 <= q <= 4 && p != q
      ensures !(x in ids(QuarterBounds(year, p)) && x in ids(QuarterBounds(year, q)))
    {
      DifferentJournals(db, team, user, year, p, q, x);
    }
    forall j ensures Counted(db, team, YearBounds(year), user, j)
                 <==> exists q :: 1 <= q <= 4 && Counted(db, team, QuarterBounds(year, q), user, j) {
      CountedInYear(db, team, user, year, j);
    }
    PartsAddUp(year, ids);
    forall bounds
      ensures FoundationJournals(db, team, bounds, user) == |ids(bounds)|
    {
      FoundationMeaning(db, team, bounds, user);
    }
  }
}
