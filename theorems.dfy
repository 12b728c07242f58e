/** What the statistics pass reports for a constructed schedule, whatever
    order the shuffle left the days in: the number of days, every team
    once per day, the half-crosstable (`Gi` within a division, `Gx`
    across) and the byes of each team. The facts are first stated for any
    reordering `days` of the built days, then for a schedule object. */
module Theorems {
  import opened Types
  import opened Stats
  import opened Days
  import opened Counts
  import opened Cover
  import opened Totals
  import opened Byes
  import opened Meets
  import opened Balance
  import opened Schedule

  /** The days of the schedule, in the shuffled order. */
  ghost predicate Shuffled(days: seq<Day>, p: Params)
  {
    Supported(p) && multiset(days) == multiset(Built(p))
  }

  /** Each team plays at most once on a day in which it plays exactly once. */
  lemma OnceIsNoTwice(day: Day, n: nat)
    requires EveryTeamOnce(day, n)
    ensures NoTeamTwice(day)
  {
    forall t: nat
      ensures Appearances(day, t) <= 1
    {
      assert Appearances(day, t) == if t < n then 1 else 0;
    }
  }

  /** Shuffling keeps the number of days. */
  lemma ShuffledLength(days: seq<Day>, p: Params)
    requires Shuffled(days, p)
    ensures |days| == DayCount(p)
  {
    BuiltLength(p);
    assert |days| == |multiset(days)| == |multiset(Built(p))| == |Built(p)|;
  }

  /** Every shuffled day has each of its `n = D T` teams exactly once, so
      the statistics pass never sees a team twice on one day. */
  lemma ShuffledDay(days: seq<Day>, p: Params, i: nat, n: nat)
    requires Shuffled(days, p) && i < |days|
    requires n == p.numDivisions * p.teamsPerDivision
    ensures EveryTeamOnce(days[i], n) && NoTeamTwice(days[i])
  {
    var built := Built(p);
    BuiltCover(p);
    assert days[i] in multiset(days);
    assert days[i] in built;
    var j :| 0 <= j < |built| && built[j] == days[i];
    assert EveryTeamOnce(built[j], n);
    OnceIsNoTwice(days[i], n);
  }

  /** Two teams of division `d`, which starts at team `O`, meet `Gi`
      times, in any order of the days. */
  lemma ShuffledSameDivision(days: seq<Day>, p: Params, d: nat, O: nat, u: nat, v: nat)
    requires Shuffled(days, p) && d < p.numDivisions && O == d * p.teamsPerDivision
    requires u < p.teamsPerDivision && v < p.teamsPerDivision && u != v
    ensures MeetCount(days, O + u, O + v) == p.gamesVsDivision
  {
    SameDivisionMeetsFrom(p, d, O, u, v);
    TotalPermutation(days, Built(p), MeetsP(O + u, O + v));
  }

  /** With two divisions, a team of one meets a team of the other `Gx`
      times, in any order of the days. */
  lemma ShuffledCrossDivision(days: seq<Day>, p: Params, x: nat, y: nat)
    requires Shuffled(days, p) && p.numDivisions == 2
    requires x < p.teamsPerDivision && y < p.teamsPerDivision
    ensures MeetCount(days, x, p.teamsPerDivision + y) == p.gamesVsNonDivision
  {
    CrossDivisionMeets(p, x, y);
    TotalPermutation(days, Built(p), MeetsP(x, p.teamsPerDivision + y));
  }

  /** Every team of division `d`, which starts at team `O`, takes one
      bye per round with byes, in any order of the days. */
  lemma ShuffledByes(days: seq<Day>, p: Params, d: nat, O: nat, u: nat)
    requires Shuffled(days, p) && d < p.numDivisions && O == d * p.teamsPerDivision
    requires u < p.teamsPerDivision
    ensures ByeCount(days, O + u) == ByeRounds(p)
  {
    TotalByesFrom(p, d, O, u);
    TotalPermutation(days, Built(p), ByesP(O + u));
  }

  /** Every team is at home at most once more, and away at most once
      more, than the other way round, in any order of the days. */
  lemma ShuffledBalance(days: seq<Day>, p: Params, t: nat)
    requires Shuffled(days, p) && t < p.numDivisions * p.teamsPerDivision
    ensures -1 <= HomeCount(days, t) - AwayCount(days, t) <= 1
  {
    BuiltBalance(p, t);
    TotalPermutation(days, Built(p), HomesP(t));
    TotalPermutation(days, Built(p), AwaysP(t));
  }

  /** The crosstable of a pair: `t` is away at `o` as often as `o` is away
      at `t`, except one game to the side the sign of round 0 picks when
      the pair meets an odd number of times; in any order of the days. */
  lemma ShuffledPairDiff(days: seq<Day>, p: Params, t: nat, o: nat)
    requires Shuffled(days, p) && t < p.numDivisions * p.teamsPerDivision
    requires o < p.numDivisions * p.teamsPerDivision && t != o
    ensures PairDiff(days, t, o) == LeftOver(p, t, o)
  {
    PairDiffBuilt(p, p.numDivisions * p.teamsPerDivision, t, o);
    TotalPermutation(days, Built(p), AwayVsD(t, o));
    TotalPermutation(days, Built(p), AwayVsD(o, t));
  }

  /** The schedule has `num_days` days, each with every team once; the
      teams of division `d`, which starts at team `O`, meet `Gi` times within a division and `Gx` times across,
      each takes one bye per round with byes, and each is at home at most
      once more or once less than away. */
  lemma ScheduleFacts(s: SsSchedule, d: nat, O: nat, u: nat, v: nat)
    requires s.Valid() && d < s.params.numDivisions && O == d * s.params.teamsPerDivision
    requires u < s.params.teamsPerDivision && v < s.params.teamsPerDivision
    ensures |s.matches| == DayCount(s.params)
    ensures forall i :: 0 <= i < |s.matches| ==> NoTeamTwice(s.matches[i])
    ensures u != v ==> MeetCount(s.matches, O + u, O + v) == s.params.gamesVsDivision
    ensures s.params.numDivisions == 2 ==>
      MeetCount(s.matches, u, s.params.teamsPerDivision + v) == s.params.gamesVsNonDivision
    ensures ByeCount(s.matches, O + u) == ByeRounds(s.params)
    ensures -1 <= HomeCount(s.matches, O + u) - AwayCount(s.matches, O + u) <= 1
  {
    var days, p := s.matches, s.params;
    assert Shuffled(days, p);
    ShuffledLength(days, p);
    forall i | 0 <= i < |days|
      ensures NoTeamTwice(days[i])
    {
      ShuffledDay(days, p, i, p.numDivisions * p.teamsPerDivision);
    }
    if u != v {
      ShuffledSameDivision(days, p, d, O, u, v);
    }
    if p.numDivisions == 2 {
      ShuffledCrossDivision(days, p, u, v);
    }
    ShuffledByes(days, p, d, O, u);
    BlockBelow(d, p.numDivisions, p.teamsPerDivision, u);
    ShuffledBalance(days, p, O + u);
  }
}
