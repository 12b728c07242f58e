/** The half-crosstable of the whole schedule: two teams of one division
    meet once per intra-division round, `Gi` times in all; a team of the
    first division meets a team of the second once per inter-division
    round, `Gx` times in all, whether the shift that pairs them falls in
    a coupled round or on an inter-division day. */
module Totals {
  import opened Types
  import opened Ring
  import opened Stats
  import opened Days
  import opened Counts
  import opened Meets
  import opened OddMeets

  /** Division `d` of two starts at 0 or at T. */
  lemma SecondDivision(d: nat, O: nat, T: nat)
    requires d < 2 && O == d * T
    ensures (d == 0 && O == 0) || (d == 1 && O == T)
  {
  }

  /** The meetings in the first `k` rounds and the round after them. */
  lemma MeetsAppend(days: seq<Day>, round: seq<Day>, x: nat, y: nat)
    ensures MeetCount(days + round, x, y) == MeetCount(days, x, y) + MeetCount(round, x, y)
  {
    TotalAppend(days, round, MeetsP(x, y));
  }

  /** Two teams of one division meet once in an intra-division round,
      whichever kind it is. */
  lemma IntraRoundMeetSame(p: Params, r: nat, c: Counters, d: nat, O: nat, u: nat, v: nat)
    requires Supported(p) && d < p.numDivisions && O == d * p.teamsPerDivision
    requires u < p.teamsPerDivision && v < p.teamsPerDivision && u != v
    requires c.interMatchIdx < p.teamsPerDivision
    ensures MeetCount(IntraRound(p, r, c), O + u, O + v) == 1
  {
    var T := p.teamsPerDivision;
    if T % 2 == 0 {
      EvenRoundMeet(r, p.numDivisions, T, d, O, u, v);
    } else if Coupled(p, c) {
      SecondDivision(d, O, T);
      CoupledRoundMeet(r, T, c, d, O, u, v);
    } else {
      ByeRoundMeet(r, p.numDivisions, T, d, O, u, v);
    }
  }

  /** Two teams of one division meet once in each of the first `k`
      intra-division rounds. */
  lemma {:induction false} IntraMeetSame(p: Params, k: nat, d: nat, O: nat, u: nat, v: nat)
    requires Supported(p) && d < p.numDivisions && O == d * p.teamsPerDivision
    requires u < p.teamsPerDivision && v < p.teamsPerDivision && u != v
    ensures MeetCount(IntraRounds(p, k).0, O + u, O + v) == k
  {
    if k > 0 {
      IntraMeetSame(p, k - 1, d, O, u, v);
      var (days, c) := IntraRounds(p, k - 1);
      assert IntraRounds(p, k) == (days + IntraRound(p, k - 1, c), AfterRound(p, c));
      MeetsAppend(days, IntraRound(p, k - 1, c), O + u, O + v);
      IntraRoundMeetSame(p, k - 1, c, d, O, u, v);
    }
  }

  /** Two teams of one division never meet on an inter-division day. */
  lemma {:induction false} InterMeetSame(p: Params, c: Counters, d: nat, O: nat, u: nat, v: nat)
    requires Supported(p) && d < p.numDivisions && O == d * p.teamsPerDivision
    requires u < p.teamsPerDivision && v < p.teamsPerDivision && u != v
    ensures MeetCount(InterFrom(p, c), O + u, O + v) == 0
    decreases InterLimit(p) - c.interRound, p.teamsPerDivision - c.interMatchIdx
  {
    var T := p.teamsPerDivision;
    if c.interRound >= InterLimit(p) {
    } else if c.interMatchIdx >= T {
      InterMeetSame(p, Counters(c.interRound + 1, 0), d, O, u, v);
    } else {
      var rest := InterFrom(p, Counters(c.interRound, c.interMatchIdx + 1));
      InterMeetSame(p, Counters(c.interRound, c.interMatchIdx + 1), d, O, u, v);
      SecondDivision(d, O, T);
      InterDayMeet(c.interRound, T, c.interMatchIdx, O, u, v);
      MeetsAppend([InterDay(c.interRound, T, c.interMatchIdx)], rest, O + u, O + v);
    }
  }

  /** Every two teams of one division meet exactly `Gi` times. */
  lemma SameDivisionMeets(p: Params, d: nat, u: nat, v: nat)
    requires Supported(p) && d < p.numDivisions
    requires u < p.teamsPerDivision && v < p.teamsPerDivision && u != v
    ensures MeetCount(Built(p), d * p.teamsPerDivision + u, d * p.teamsPerDivision + v) == p.gamesVsDivision
  {
    SameDivisionMeetsFrom(p, d, d * p.teamsPerDivision, u, v);
  }

  /** The same count, with the division's first team `O` named. */
  lemma SameDivisionMeetsFrom(p: Params, d: nat, O: nat, u: nat, v: nat)
    requires Supported(p) && d < p.numDivisions && O == d * p.teamsPerDivision
    requires u < p.teamsPerDivision && v < p.teamsPerDivision && u != v
    ensures MeetCount(Built(p), O + u, O + v) == p.gamesVsDivision
  {
    IntraMeetSame(p, p.gamesVsDivision, d, O, u, v);
    InterMeetSame(p, IntraRounds(p, p.gamesVsDivision).1, d, O, u, v);
    BuiltTotal(p, MeetsP(O + u, O + v), p.gamesVsDivision);
  }

  /** A tally that the inter-division days leave at zero counts over the
      whole schedule what it counts over the intra-division rounds. */
  lemma BuiltTotal(p: Params, F: Day -> nat, k: nat)
    requires Supported(p)
    requires Total(IntraRounds(p, p.gamesVsDivision).0, F) == k
    requires Total(InterFrom(p, IntraRounds(p, p.gamesVsDivision).1), F) == 0
    ensures Total(Built(p), F) == k
  {
    TotalAppend(IntraRounds(p, p.gamesVsDivision).0, InterFrom(p, IntraRounds(p, p.gamesVsDivision).1), F);
  }

  /** The shifts equal to `s` that the counters have passed: one per
      finished inter-division round, and one more when the current round
      is past shift `s`. */
  function HitsBefore(c: Counters, s: nat): nat
  {
    c.interRound + (if c.interMatchIdx > s then 1 else 0)
  }

  /** Using up shift `c.interMatchIdx` passes shift `s` once when the two
      are equal. */
  lemma HitsAdvance(c: Counters, s: nat, T: nat)
    requires c.interMatchIdx < T && s < T
    ensures HitsBefore(Advance(c, T), s) == HitsBefore(c, s) + if c.interMatchIdx == s then 1 else 0
  {
  }

  /** In one intra-division round, team `x` of the first division meets
      team `T + y` of the second exactly when the round is coupled and its
      shift is the distance from `x` forward to `y`; that is when the
      round's advance of the counters passes that shift. */
  lemma IntraRoundMeetCross(p: Params, r: nat, c: Counters, x: nat, y: nat)
    requires Supported(p) && p.numDivisions == 2
    requires x < p.teamsPerDivision && y < p.teamsPerDivision
    requires c.interMatchIdx < p.teamsPerDivision
    ensures var s := Back(y, x, p.teamsPerDivision);
      HitsBefore(c, s) + MeetCount(IntraRound(p, r, c), x, p.teamsPerDivision + y)
      == HitsBefore(AfterRound(p, c), s)
  {
    var T := p.teamsPerDivision;
    if T % 2 == 0 {
      EvenRoundCross(r, T, x, y);
    } else if Coupled(p, c) {
      CoupledRoundCross(r, T, c, x, y);
      HitsAdvance(c, Back(y, x, T), T);
    } else {
      ByeRoundCross(r, T, x, y);
    }
  }

  /** In the first `k` intra-division rounds, team `x` of the first
      division meets team `T + y` of the second once for every coupled
      round whose shift is the distance from `x` forward to `y`. */
  lemma {:induction false} IntraMeetCross(p: Params, k: nat, x: nat, y: nat)
    requires Supported(p) && p.numDivisions == 2
    requires x < p.teamsPerDivision && y < p.teamsPerDivision
    ensures MeetCount(IntraRounds(p, k).0, x, p.teamsPerDivision + y)
            == HitsBefore(IntraRounds(p, k).1, Back(y, x, p.teamsPerDivision))
  {
    if k > 0 {
      IntraMeetCross(p, k - 1, x, y);
      var (days, c) := IntraRounds(p, k - 1);
      assert IntraRounds(p, k) == (days + IntraRound(p, k - 1, c), AfterRound(p, c));
      MeetsAppend(days, IntraRound(p, k - 1, c), x, p.teamsPerDivision + y);
      IntraRoundMeetCross(p, k - 1, c, x, y);
    }
  }

  /** The shifts equal to `s` still to come on inter-division days. */
  function HitsFrom(p: Params, c: Counters, s: nat): nat
  {
    if c.interRound < InterLimit(p)
    then InterLimit(p) - c.interRound - 1 + (if c.interMatchIdx <= s then 1 else 0)
    else 0
  }

  /** On the inter-division days still owed, team `x` meets team `T + y`
      once for every remaining shift equal to the distance between them. */
  lemma {:induction false} InterMeetCross(p: Params, c: Counters, x: nat, y: nat)
    requires Supported(p) && p.numDivisions == 2
    requires x < p.teamsPerDivision && y < p.teamsPerDivision && c.interMatchIdx <= p.teamsPerDivision
    ensures MeetCount(InterFrom(p, c), x, p.teamsPerDivision + y)
            == HitsFrom(p, c, Back(y, x, p.teamsPerDivision))
    decreases InterLimit(p) - c.interRound, p.teamsPerDivision - c.interMatchIdx
  {
    var T := p.teamsPerDivision;
    if c.interRound >= InterLimit(p) {
    } else if c.interMatchIdx >= T {
      InterMeetCross(p, Counters(c.interRound + 1, 0), x, y);
    } else {
      var rest := InterFrom(p, Counters(c.interRound, c.interMatchIdx + 1));
      InterMeetCross(p, Counters(c.interRound, c.interMatchIdx + 1), x, y);
      InterDayCross(c.interRound, T, c.interMatchIdx, x, y);
      MeetsAppend([InterDay(c.interRound, T, c.interMatchIdx)], rest, x, T + y);
    }
  }

  /** With two divisions, every team of the first meets every team of
      the second exactly `Gx` times. */
  lemma CrossDivisionMeets(p: Params, x: nat, y: nat)
    requires Supported(p) && p.numDivisions == 2
    requires x < p.teamsPerDivision && y < p.teamsPerDivision
    ensures MeetCount(Built(p), x, p.teamsPerDivision + y) == p.gamesVsNonDivision
  {
    var T := p.teamsPerDivision;
    var (days, c) := IntraRounds(p, p.gamesVsDivision);
    IntraMeetCross(p, p.gamesVsDivision, x, y);
    IntraCounters(p, p.gamesVsDivision);
    InterMeetCross(p, c, x, y);
    MeetsAppend(days, InterFrom(p, c), x, T + y);
  }
}
