/** The crosstable of the statistics pass and the home/away balance.
    `AwayVs(days, t, o)` is the cell `num_games_crosstable[t][o]`: the
    games in which team `t` is away at team `o`. Every game between two
    teams follows the parity rule of its round, and two teams meet once
    in each intra-division round `0 .. Gi - 1` (same division) or once in
    each inter-division round `0 .. Gx - 1` (different divisions), so the
    side a team takes against one opponent alternates from meeting to
    meeting. Summed over the opponents, the sides cancel up to one game:
    every team's home and away counts differ by at most one. */
module Balance {
  import opened Types
  import opened Ring
  import opened Stats
  import opened Days
  import opened Counts
  import opened Cover
  import opened Meets
  import opened OddMeets
  import opened Totals
  import opened Hosts

  function AwayVsP(t: nat, o: nat): Game -> bool { (g: Game) => g.away == Team(t) && g.home == Team(o) }
  function AwayVsD(t: nat, o: nat): Day -> nat { d => Count(d, AwayVsP(t, o)) }

  /** The crosstable cell: games of `days` in which `t` is away at `o`. */
  function AwayVs(days: seq<Day>, t: nat, o: nat): nat { Total(days, AwayVsD(t, o)) }

  /** Away games of `t` at `o` less away games of `o` at `t`. */
  function PairDiff(days: seq<Day>, t: nat, o: nat): int { AwayVs(days, t, o) - AwayVs(days, o, t) }

  /** One row and one column of the crosstable, and their difference. */
  function DayRow(day: Day, t: nat): nat -> int { (o: nat) => Count(day, AwayVsP(t, o)) }
  function DayCol(day: Day, t: nat): nat -> int { (o: nat) => Count(day, AwayVsP(o, t)) }
  function Row(days: seq<Day>, t: nat): nat -> int { (o: nat) => AwayVs(days, t, o) }
  function Col(days: seq<Day>, t: nat): nat -> int { (o: nat) => AwayVs(days, o, t) }
  function DiffRow(days: seq<Day>, t: nat): nat -> int { (o: nat) => PairDiff(days, t, o) }

  /** The parity rule of round `r` puts team `t` away at team `o`. */
  predicate AwayRule(r: nat, t: nat, o: nat)
  {
    (t < o) == ((r + t + o) % 2 == 0)
  }

  /** The rounds among `0 .. k - 1` whose rule puts `t` away at `o`. */
  function RuleCount(k: nat, t: nat, o: nat): nat
  {
    if k == 0 then 0 else RuleCount(k - 1, t, o) + (if AwayRule(k - 1, t, o) then 1 else 0)
  }

  /** 1 when round 0 puts `t` away at `o`, -1 when it puts `t` at home. */
  function Sgn(t: nat, o: nat): int
  {
    if AwayRule(0, t, o) then 1 else -1
  }

  // ------------------------------------------------------------ sums

  /** `f(lo) + ... + f(hi - 1)`. */
  function Sum(lo: nat, hi: nat, f: nat -> int): int
  {
    if hi <= lo then 0 else Sum(lo, hi - 1, f) + f(hi - 1)
  }

  lemma {:induction false} SumSame(lo: nat, hi: nat, f: nat -> int, g: nat -> int)
    requires forall i :: lo <= i < hi ==> f(i) == g(i)
    ensures Sum(lo, hi, f) == Sum(lo, hi, g)
  {
    if hi > lo {
      SumSame(lo, hi - 1, f, g);
    }
  }

  lemma {:induction false} SumAdd(lo: nat, hi: nat, f: nat -> int, g: nat -> int, h: nat -> int)
    requires forall i :: lo <= i < hi ==> h(i) == f(i) + g(i)
    ensures Sum(lo, hi, h) == Sum(lo, hi, f) + Sum(lo, hi, g)
  {
    if hi > lo {
      SumAdd(lo, hi - 1, f, g, h);
    }
  }

  lemma {:induction false} SumSub(lo: nat, hi: nat, f: nat -> int, g: nat -> int, h: nat -> int)
    requires forall i :: lo <= i < hi ==> h(i) == f(i) - g(i)
    ensures Sum(lo, hi, h) == Sum(lo, hi, f) - Sum(lo, hi, g)
  {
    if hi > lo {
      SumSub(lo, hi - 1, f, g, h);
    }
  }

  /** `f` is 1 at `k` and 0 elsewhere. */
  lemma {:induction false} SumPoint(lo: nat, hi: nat, f: nat -> int, k: int)
    requires forall i :: lo <= i < hi ==> f(i) == if i == k then 1 else 0
    ensures Sum(lo, hi, f) == if lo <= k < hi then 1 else 0
  {
    if hi > lo {
      SumPoint(lo, hi - 1, f, k);
    }
  }

  lemma {:induction false} SumSplit(lo: nat, mid: nat, hi: nat, f: nat -> int)
    requires lo <= mid <= hi
    ensures Sum(lo, hi, f) == Sum(lo, mid, f) + Sum(mid, hi, f)
  {
    if hi > mid {
      SumSplit(lo, mid, hi - 1, f);
    }
  }

  // ------------------------------------------- splitting by opponent

  /** Every team named on the day is below `n`. */
  predicate TeamsBelow(day: Day, n: nat)
  {
    forall i :: 0 <= i < |day| ==>
      (day[i].away.Team? ==> day[i].away.id < n) && (day[i].home.Team? ==> day[i].home.id < n)
  }

  lemma {:induction false} CountHit(s: seq<Game>, P: Game -> bool, i: nat)
    requires i < |s| && P(s[i])
    ensures Count(s, P) >= 1
  {
    if i > 0 {
      CountHit(s[1..], P, i - 1);
    }
  }

  /** A day on which exactly the teams below `n` appear names no other team. */
  lemma CoveredBelow(day: Day, n: nat)
    requires EveryTeamOnce(day, n)
    ensures TeamsBelow(day, n)
  {
    forall i | 0 <= i < |day|
      ensures (day[i].away.Team? ==> day[i].away.id < n) && (day[i].home.Team? ==> day[i].home.id < n)
    {
      if day[i].away.Team? {
        CountHit(day, InvolvesP(day[i].away.id), i);
        assert Appearances(day, day[i].away.id) >= 1;
      }
      if day[i].home.Team? {
        CountHit(day, InvolvesP(day[i].home.id), i);
        assert Appearances(day, day[i].home.id) >= 1;
      }
    }
  }

  /** On a day naming only teams below `n`, team `t`'s away games are the
      sum of its crosstable row and its home games the sum of its column. */
  lemma {:induction false} DayAwaySplit(day: Day, n: nat, t: nat)
    requires TeamsBelow(day, n)
    ensures Count(day, AwayP(t)) == Sum(0, n, DayRow(day, t))
    ensures Count(day, HomeP(t)) == Sum(0, n, DayCol(day, t))
  {
    if day == [] {
      SumPoint(0, n, DayRow(day, t), -1);
      SumPoint(0, n, DayCol(day, t), -1);
    } else {
      var g, rest := day[0], day[1..];
      assert TeamsBelow(rest, n) by {
        forall i | 0 <= i < |rest|
          ensures (rest[i].away.Team? ==> rest[i].away.id < n) && (rest[i].home.Team? ==> rest[i].home.id < n)
        {
          assert rest[i] == day[i + 1];
        }
      }
      DayAwaySplit(rest, n, t);
      var away: nat -> int := (o: nat) => if AwayVsP(t, o)(g) then 1 else 0;
      SumAdd(0, n, away, DayRow(rest, t), DayRow(day, t));
      SumPoint(0, n, away, if g.away == Team(t) && g.home.Team? then g.home.id else -1);
      var home: nat -> int := (o: nat) => if AwayVsP(o, t)(g) then 1 else 0;
      SumAdd(0, n, home, DayCol(rest, t), DayCol(day, t));
      SumPoint(0, n, home, if g.home == Team(t) && g.away.Team? then g.away.id else -1);
    }
  }

  /** Over days naming only teams below `n`, team `t`'s away count is the
      sum of its crosstable row and its home count the sum of its column. */
  lemma {:induction false} TotalAwaySplit(days: seq<Day>, n: nat, t: nat)
    requires forall j :: 0 <= j < |days| ==> TeamsBelow(days[j], n)
    ensures AwayCount(days, t) == Sum(0, n, Row(days, t))
    ensures HomeCount(days, t) == Sum(0, n, Col(days, t))
  {
    if days == [] {
      SumPoint(0, n, Row(days, t), -1);
      SumPoint(0, n, Col(days, t), -1);
    } else {
      var rest := days[1..];
      assert forall j :: 0 <= j < |rest| ==> rest[j] == days[j + 1];
      TotalAwaySplit(rest, n, t);
      DayAwaySplit(days[0], n, t);
      SumAdd(0, n, DayRow(days[0], t), Row(rest, t), Row(days, t));
      SumAdd(0, n, DayCol(days[0], t), Col(rest, t), Col(days, t));
    }
  }

  // ------------------------------------------------- cells of a round

  lemma AwayVsAppend(a: seq<Day>, b: seq<Day>, t: nat, o: nat)
    ensures AwayVs(a + b, t, o) == AwayVs(a, t, o) + AwayVs(b, t, o)
  {
    TotalAppend(a, b, AwayVsD(t, o));
  }

  /** A cell never exceeds the meetings of the two teams. */
  lemma {:induction false} AwayVsAtMost(days: seq<Day>, t: nat, o: nat)
    ensures AwayVs(days, t, o) <= MeetCount(days, t, o)
  {
    if days != [] {
      AwayVsAtMost(days[1..], t, o);
      CountMono(days[0], AwayVsP(t, o), BetweenP(t, o));
    }
  }

  lemma {:induction false} CountBothWays(s: seq<Game>, t: nat, o: nat)
    requires t != o
    ensures Count(s, AwayVsP(t, o)) + Count(s, AwayVsP(o, t)) == GamesBetween(s, t, o)
  {
    if s != [] {
      CountBothWays(s[1..], t, o);
    }
  }

  /** In every meeting of two teams one of them is away: the two cells of
      a pair add up to the half-crosstable entry. */
  lemma {:induction false} AwayVsSum(days: seq<Day>, t: nat, o: nat)
    requires t != o
    ensures AwayVs(days, t, o) + AwayVs(days, o, t) == MeetCount(days, t, o)
  {
    if days != [] {
      AwayVsSum(days[1..], t, o);
      CountBothWays(days[0], t, o);
    }
  }

  /** On the day, `t` is away at `o` in every game between them or in none,
      as the rule of round `r` says. */
  predicate DayRuled(day: Day, t: nat, o: nat, r: nat)
  {
    Count(day, AwayVsP(t, o)) == if AwayRule(r, t, o) then GamesBetween(day, t, o) else 0
  }

  /** Games that follow the rule of round `r` put `t` away at `o` exactly
      when the rule says so. */
  lemma {:induction false} FollowRuled(s: seq<Game>, t: nat, o: nat, r: nat)
    requires t != o && AllFollow(s, r)
    ensures DayRuled(s, t, o, r)
  {
    if s != [] {
      assert AllFollow(s[1..], r) by {
        forall i | 0 <= i < |s[1..]|
          ensures Follows(s[1..][i], r)
        {
          assert s[1..][i] == s[i + 1];
        }
      }
      FollowRuled(s[1..], t, o, r);
      assert Follows(s[0], r);
    }
  }

  /** Over days on which the rule of round `r` decides, the cell is all the
      meetings or none. */
  lemma {:induction false} RoundRuled(days: seq<Day>, t: nat, o: nat, r: nat)
    requires forall j :: 0 <= j < |days| ==> DayRuled(days[j], t, o, r)
    ensures AwayVs(days, t, o) == if AwayRule(r, t, o) then MeetCount(days, t, o) else 0
  {
    if days != [] {
      assert forall j :: 0 <= j < |days[1..]| ==> days[1..][j] == days[j + 1];
      RoundRuled(days[1..], t, o, r);
    }
  }

  /** A day whose counts are those of two parts is decided by a rule that
      decides both parts. */
  lemma PartsRuled(day: Day, a: seq<Game>, b: seq<Game>, t: nat, o: nat, r: nat)
    requires Count(day, AwayVsP(t, o)) == Count(a, AwayVsP(t, o)) + Count(b, AwayVsP(t, o))
    requires GamesBetween(day, t, o) == GamesBetween(a, t, o) + GamesBetween(b, t, o)
    requires DayRuled(a, t, o, r) && DayRuled(b, t, o, r)
    ensures DayRuled(day, t, o, r)
  {
  }

  /** Parts in which the two teams do not meet are decided by any rule. */
  lemma NoMeetRuled(s: seq<Game>, t: nat, o: nat, r: nat)
    requires GamesBetween(s, t, o) == 0
    ensures DayRuled(s, t, o, r)
  {
    CountMono(s, AwayVsP(t, o), BetweenP(t, o));
  }

  /** A coupled day is decided by a rule that decides both its
      cross-division game and its rings. */
  lemma CoupledDayRuled(r: nat, T: nat, c: Counters, m: nat, t: nat, o: nat, q: nat)
    requires Odd(T) && 1 <= m <= T && c.interMatchIdx < T
    requires DayRuled([CrossGame(c.interRound, T, m - 1, c.interMatchIdx)], t, o, q)
    requires DayRuled(CoupledDivs(r, T, m - 1, Fwd(m - 1, c.interMatchIdx, T), 2), t, o, q)
    ensures DayRuled(CoupledDay(r, T, c, m), t, o, q)
  {
    CoupledDayParts(r, T, c, m, AwayVsP(t, o));
    CoupledDayParts(r, T, c, m, BetweenP(t, o));
    PartsRuled(CoupledDay(r, T, c, m), [CrossGame(c.interRound, T, m - 1, c.interMatchIdx)],
               CoupledDivs(r, T, m - 1, Fwd(m - 1, c.interMatchIdx, T), 2), t, o, q);
  }

  /** Two teams of one division meet on a coupled day only in the rings,
      whose games follow the rule of the intra-division round. */
  lemma CoupledDayRuledSame(r: nat, T: nat, c: Counters, m: nat, O: nat, u: nat, v: nat)
    requires Odd(T) && 1 <= m <= T && c.interMatchIdx < T
    requires (O == 0 || O == T) && u < T && v < T && u != v
    ensures DayRuled(CoupledDay(r, T, c, m), O + u, O + v, r)
  {
    CrossRuledSame(c.interRound, T, m - 1, c.interMatchIdx, O, u, v, r);
    CoupledDayRuledApart(r, T, c, m, O + u, O + v);
  }

  /** The cross-division game never joins two teams of one division, so it
      leaves their cell empty. */
  lemma CrossRuledSame(ir: nat, T: nat, a: nat, k: nat, O: nat, u: nat, v: nat, q: nat)
    requires a < T && k < T && (O == 0 || O == T) && u < T && v < T && u != v
    ensures DayRuled([CrossGame(ir, T, a, k)], O + u, O + v, q)
  {
    CrossNotSame(ir, T, a, k, O, u, v);
    CrossRuledApart(CrossGame(ir, T, a, k), O + u, O + v, q);
  }

  /** Two teams whose cell the cross-division game leaves to the rule of
      the intra-division round are placed by that rule on the whole
      coupled day. */
  lemma CoupledDayRuledApart(r: nat, T: nat, c: Counters, m: nat, t: nat, o: nat)
    requires Odd(T) && 1 <= m <= T && c.interMatchIdx < T && t != o
    requires DayRuled([CrossGame(c.interRound, T, m - 1, c.interMatchIdx)], t, o, r)
    ensures DayRuled(CoupledDay(r, T, c, m), t, o, r)
  {
    RingsRuledSame(r, T, m - 1, Fwd(m - 1, c.interMatchIdx, T), t, o);
    CoupledDayRuled(r, T, c, m, t, o, r);
  }

  /** The rings of a coupled day follow the rule of the intra-division
      round. */
  lemma RingsRuledSame(r: nat, T: nat, a: nat, b: nat, t: nat, o: nat)
    requires Odd(T) && a < T && b < T && t != o
    ensures DayRuled(CoupledDivs(r, T, a, b, 2), t, o, r)
  {
    CoupledDivsFollow(r, T, a, b, 2);
    FollowRuled(CoupledDivs(r, T, a, b, 2), t, o, r);
  }

  /** A game that is not between two teams leaves their cell empty. */
  lemma CrossRuledApart(g: Game, t: nat, o: nat, q: nat)
    requires !Between(g, t, o)
    ensures DayRuled([g], t, o, q)
  {
    CountSingle(g, BetweenP(t, o));
    NoMeetRuled([g], t, o, q);
  }

  /** Teams of different divisions meet on a coupled day only in the
      cross-division game, which follows the rule of the inter-division
      round. */
  lemma CoupledDayRuledCross(r: nat, T: nat, c: Counters, m: nat, x: nat, y: nat)
    requires Odd(T) && 1 <= m <= T && c.interMatchIdx < T && x < T && y < T
    ensures DayRuled(CoupledDay(r, T, c, m), x, T + y, c.interRound)
  {
    CoupledPartsRuledCross(r, T, c, m, x, y);
    CoupledDayRuled(r, T, c, m, x, T + y, c.interRound);
  }

  /** Both parts of a coupled day place a team of one division against a
      team of the other by the rule of `inter_round`. */
  lemma CoupledPartsRuledCross(r: nat, T: nat, c: Counters, m: nat, x: nat, y: nat)
    requires Odd(T) && 1 <= m <= T && c.interMatchIdx < T && x < T && y < T
    ensures DayRuled([CrossGame(c.interRound, T, m - 1, c.interMatchIdx)], x, T + y, c.interRound)
    ensures DayRuled(CoupledDivs(r, T, m - 1, Fwd(m - 1, c.interMatchIdx, T), 2), x, T + y, c.interRound)
  {
    CrossRuled(c.interRound, T, m - 1, c.interMatchIdx, x, T + y);
    RingsRuledCross(r, T, m - 1, Fwd(m - 1, c.interMatchIdx, T), x, y, c.interRound);
  }

  /** The cross-division game follows the rule of the inter-division round. */
  lemma CrossRuled(ir: nat, T: nat, a: nat, k: nat, t: nat, o: nat)
    requires a < T && t != o
    ensures DayRuled([CrossGame(ir, T, a, k)], t, o, ir)
  {
    CrossFollows(ir, T, a, k);
    FollowRuled([CrossGame(ir, T, a, k)], t, o, ir);
  }

  /** The rings of a coupled day hold no game across divisions. */
  lemma RingsRuledCross(r: nat, T: nat, a: nat, b: nat, x: nat, y: nat, ir: nat)
    requires Odd(T) && a < T && b < T && x < T
    ensures DayRuled(CoupledDivs(r, T, a, b, 2), x, T + y, ir)
  {
    CoupledDivsCross(r, T, a, b, x, y);
    NoMeetRuled(CoupledDivs(r, T, a, b, 2), x, T + y, ir);
  }

  /** In an intra-division round, the rule of the round decides every
      game between two teams of one division. */
  lemma IntraRoundRuledSame(p: Params, r: nat, c: Counters, d: nat, O: nat, u: nat, v: nat)
    requires Supported(p) && d < p.numDivisions && O == d * p.teamsPerDivision
    requires u < p.teamsPerDivision && v < p.teamsPerDivision && u != v
    requires c.interMatchIdx < p.teamsPerDivision
    ensures var days := IntraRound(p, r, c);
      forall j :: 0 <= j < |days| ==> DayRuled(days[j], O + u, O + v, r)
  {
    var T := p.teamsPerDivision;
    var days := IntraRound(p, r, c);
    if T % 2 == 0 {
      EvenRoundFollows(r, p.numDivisions, T);
      forall j | 0 <= j < |days|
        ensures DayRuled(days[j], O + u, O + v, r)
      {
        FollowRuled(days[j], O + u, O + v, r);
      }
    } else if Coupled(p, c) {
      SecondDivision(d, O, T);
      forall j | 0 <= j < |days|
        ensures DayRuled(days[j], O + u, O + v, r)
      {
        CoupledDayRuledSame(r, T, c, j + 1, O, u, v);
      }
    } else {
      ByeRoundFollows(r, p.numDivisions, T);
      forall j | 0 <= j < |days|
        ensures DayRuled(days[j], O + u, O + v, r)
      {
        FollowRuled(days[j], O + u, O + v, r);
      }
    }
  }

  // ------------------------------------------- cells within a division

  /** In intra-division round `r`, team `O + u` is away at `O + v` once
      when the rule of round `r` says so, and otherwise not at all. */
  lemma IntraRoundAwaySame(p: Params, r: nat, c: Counters, d: nat, O: nat, u: nat, v: nat)
    requires Supported(p) && d < p.numDivisions && O == d * p.teamsPerDivision
    requires u < p.teamsPerDivision && v < p.teamsPerDivision && u != v
    requires c.interMatchIdx < p.teamsPerDivision
    ensures AwayVs(IntraRound(p, r, c), O + u, O + v) == if AwayRule(r, O + u, O + v) then 1 else 0
  {
    IntraRoundRuledSame(p, r, c, d, O, u, v);
    RoundRuled(IntraRound(p, r, c), O + u, O + v, r);
    IntraRoundMeetSame(p, r, c, d, O, u, v);
  }

  /** Over the first `k` intra-division rounds, the cell counts the rounds
      whose rule puts `O + u` away. */
  lemma {:induction false} IntraAwaySame(p: Params, k: nat, d: nat, O: nat, u: nat, v: nat)
    requires Supported(p) && d < p.numDivisions && O == d * p.teamsPerDivision
    requires u < p.teamsPerDivision && v < p.teamsPerDivision && u != v
    ensures AwayVs(IntraRounds(p, k).0, O + u, O + v) == RuleCount(k, O + u, O + v)
  {
    if k > 0 {
      IntraAwaySame(p, k - 1, d, O, u, v);
      var c := IntraRounds(p, k - 1).1;
      IntraRoundsStep(p, k);
      IntraRoundAwaySame(p, k - 1, c, d, O, u, v);
      TotalStep(IntraRounds(p, k - 1).0, IntraRound(p, k - 1, c), AwayVsD(O + u, O + v),
                RuleCount(k - 1, O + u, O + v), RuleCount(k, O + u, O + v));
    }
  }

  /** Over the whole schedule, team `O + u` is away at `O + v` in the
      intra-division rounds whose rule says so: `RuleCount(Gi, ...)` times. */
  lemma SameDivisionAways(p: Params, d: nat, O: nat, u: nat, v: nat)
    requires Supported(p) && d < p.numDivisions && O == d * p.teamsPerDivision
    requires u < p.teamsPerDivision && v < p.teamsPerDivision && u != v
    ensures AwayVs(Built(p), O + u, O + v) == RuleCount(p.gamesVsDivision, O + u, O + v)
  {
    IntraAwaySame(p, p.gamesVsDivision, d, O, u, v);
    InterMeetSame(p, IntraRounds(p, p.gamesVsDivision).1, d, O, u, v);
    NoMeetsNoAways(InterFrom(p, IntraRounds(p, p.gamesVsDivision).1), O + u, O + v);
    BuiltTotal(p, AwayVsD(O + u, O + v), RuleCount(p.gamesVsDivision, O + u, O + v));
  }

  /** Days on which two teams never meet leave their cell empty. */
  lemma NoMeetsNoAways(days: seq<Day>, t: nat, o: nat)
    requires MeetCount(days, t, o) == 0
    ensures AwayVs(days, t, o) == 0
  {
    AwayVsAtMost(days, t, o);
  }

  // ------------------------------------------ cells across divisions

  /** `HitsBefore` counted only in the inter-division rounds whose rule
      puts `t` away at `o`. */
  function AwayHits(c: Counters, s: nat, t: nat, o: nat): nat
  {
    RuleCount(c.interRound, t, o) + (if c.interMatchIdx > s && AwayRule(c.interRound, t, o) then 1 else 0)
  }

  lemma AwayHitsAdvance(c: Counters, s: nat, T: nat, t: nat, o: nat)
    requires c.interMatchIdx < T && s < T
    ensures AwayHits(Advance(c, T), s, t, o)
            == AwayHits(c, s, t, o) + if c.interMatchIdx == s && AwayRule(c.interRound, t, o) then 1 else 0
  {
  }

  /** In one intra-division round, team `x` is away at `T + y` once when
      the round is coupled, its shift pairs them and the rule of the
      inter-division round puts `x` away. */
  lemma IntraRoundAwayCross(p: Params, r: nat, c: Counters, x: nat, y: nat)
    requires Supported(p) && p.numDivisions == 2
    requires x < p.teamsPerDivision && y < p.teamsPerDivision
    requires c.interMatchIdx < p.teamsPerDivision
    ensures var T := p.teamsPerDivision; var s := Back(y, x, T);
      AwayHits(c, s, x, T + y) + AwayVs(IntraRound(p, r, c), x, T + y)
      == AwayHits(AfterRound(p, c), s, x, T + y)
  {
    var T := p.teamsPerDivision;
    var days := IntraRound(p, r, c);
    if Coupled(p, c) {
      forall j | 0 <= j < |days|
        ensures DayRuled(days[j], x, T + y, c.interRound)
      {
        CoupledDayRuledCross(r, T, c, j + 1, x, y);
      }
      RoundRuled(days, x, T + y, c.interRound);
      CoupledRoundCross(r, T, c, x, y);
      AwayHitsAdvance(c, Back(y, x, T), T, x, T + y);
    } else {
      IntraRoundMeetCross(p, r, c, x, y);
      AwayVsAtMost(days, x, T + y);
    }
  }

  lemma {:induction false} IntraAwayCross(p: Params, k: nat, x: nat, y: nat)
    requires Supported(p) && p.numDivisions == 2
    requires x < p.teamsPerDivision && y < p.teamsPerDivision
    ensures var T := p.teamsPerDivision;
      AwayVs(IntraRounds(p, k).0, x, T + y) == AwayHits(IntraRounds(p, k).1, Back(y, x, T), x, T + y)
  {
    if k > 0 {
      var T := p.teamsPerDivision;
      IntraAwayCross(p, k - 1, x, y);
      var c := IntraRounds(p, k - 1).1;
      IntraRoundsStep(p, k);
      IntraRoundAwayCross(p, k - 1, c, x, y);
      TotalStep(IntraRounds(p, k - 1).0, IntraRound(p, k - 1, c), AwayVsD(x, T + y),
                AwayHits(c, Back(y, x, T), x, T + y), AwayHits(AfterRound(p, c), Back(y, x, T), x, T + y));
    }
  }

  /** `HitsFrom` counted only in the inter-division rounds whose rule
      puts `t` away at `o`. */
  function AwayHitsFrom(p: Params, c: Counters, s: nat, t: nat, o: nat): int
  {
    if c.interRound < InterLimit(p)
    then RuleCount(InterLimit(p), t, o) - RuleCount(c.interRound + 1, t, o)
         + (if c.interMatchIdx <= s && AwayRule(c.interRound, t, o) then 1 else 0)
    else 0
  }

  lemma {:induction false} InterAwayCross(p: Params, c: Counters, x: nat, y: nat)
    requires Supported(p) && p.numDivisions == 2
    requires x < p.teamsPerDivision && y < p.teamsPerDivision && c.interMatchIdx <= p.teamsPerDivision
    ensures var T := p.teamsPerDivision;
      AwayVs(InterFrom(p, c), x, T + y) == AwayHitsFrom(p, c, Back(y, x, T), x, T + y)
    decreases InterLimit(p) - c.interRound, p.teamsPerDivision - c.interMatchIdx
  {
    var T := p.teamsPerDivision;
    if c.interRound >= InterLimit(p) {
    } else if c.interMatchIdx >= T {
      InterAwayCross(p, Counters(c.interRound + 1, 0), x, y);
    } else {
      var day := InterDay(c.interRound, T, c.interMatchIdx);
      var rest := InterFrom(p, Counters(c.interRound, c.interMatchIdx + 1));
      InterAwayCross(p, Counters(c.interRound, c.interMatchIdx + 1), x, y);
      InterDayFollows(c.interRound, T, c.interMatchIdx);
      FollowRuled(day, x, T + y, c.interRound);
      InterDayCross(c.interRound, T, c.interMatchIdx, x, y);
      AwayVsAppend([day], rest, x, T + y);
      assert [day][1..] == [];
    }
  }

  /** With two divisions, team `x` of the first is away at team `T + y` of
      the second in the inter-division rounds whose rule says so:
      `RuleCount(Gx, ...)` times, whether the meeting falls in a coupled
      round or on an inter-division day. */
  lemma CrossDivisionAways(p: Params, x: nat, y: nat)
    requires Supported(p) && p.numDivisions == 2
    requires x < p.teamsPerDivision && y < p.teamsPerDivision
    ensures AwayVs(Built(p), x, p.teamsPerDivision + y) == RuleCount(p.gamesVsNonDivision, x, p.teamsPerDivision + y)
  {
    var T := p.teamsPerDivision;
    var (days, c) := IntraRounds(p, p.gamesVsDivision);
    assert Built(p) == days + InterFrom(p, c);
    IntraAwayCross(p, p.gamesVsDivision, x, y);
    IntraCounters(p, p.gamesVsDivision);
    InterAwayCross(p, c, x, y);
    AwayVsAppend(days, InterFrom(p, c), x, T + y);
    HitsJoin(p, c, Back(y, x, T), x, T + y);
  }

  /** The rounds passed before the counters reached `c` and those still
      to come make up all `InterLimit(p)` inter-division rounds. */
  lemma HitsJoin(p: Params, c: Counters, s: nat, t: nat, o: nat)
    requires c.interRound <= InterLimit(p) && (c.interRound == InterLimit(p) ==> c.interMatchIdx == 0)
    ensures AwayHits(c, s, t, o) + AwayHitsFrom(p, c, s, t, o) == RuleCount(InterLimit(p), t, o)
  {
  }

  // ------------------------------------------------------ the balance

  /** The side alternates from round to round: over `k` rounds, `t` is
      away at `o` as often as at home when `k` is even, and once more or
      once less, as round 0 says, when `k` is odd. */
  lemma {:induction false} RuleCountClosed(k: nat, t: nat, o: nat)
    ensures 2 * RuleCount(k, t, o) - k == if k % 2 == 0 then 0 else Sgn(t, o)
  {
    if k > 0 {
      RuleCountClosed(k - 1, t, o);
      assert AwayRule(k - 1, t, o) == (AwayRule(0, t, o) == ((k - 1) % 2 == 0));
    }
  }

  /** What one opponent `o` leaves over for team `t`: the sign of round 0
      when the two meet an odd number of times (`Gi` within a division,
      `Gx` across), nothing otherwise, and nothing against `t` itself. */
  function LeftOver(p: Params, t: nat, o: nat): int
  {
    var T := p.teamsPerDivision;
    if o == t then 0
    else if (t < T) == (o < T) then (if p.gamesVsDivision % 2 == 1 then Sgn(t, o) else 0)
    else (if p.gamesVsNonDivision % 2 == 1 then Sgn(t, o) else 0)
  }

  /** Over the whole schedule, the two cells of a pair differ by the sign
      of round 0 when the pair meets an odd number of times (`Gi` within a
      division, `Gx` across), and are equal otherwise. */
  lemma PairDiffBuilt(p: Params, n: nat, t: nat, o: nat)
    requires Supported(p) && n == p.numDivisions * p.teamsPerDivision
    requires t < n && o < n && t != o
    ensures PairDiff(Built(p), t, o) == LeftOver(p, t, o)
  {
    var T := p.teamsPerDivision;
    assert p.numDivisions == 2 || (t < T && o < T) by {
      if p.numDivisions == 1 {
        assert n == T;
      }
    }
    if t < T && o < T {
      SameDivisionDiff(p, 0, 0, t, o);
    } else {
      assert n == T + T;
      if T <= t && T <= o {
        SameDivisionDiff(p, 1, T, t - T, o - T);
      } else if t < T {
        CrossDivisionDiff(p, t, o - T);
      } else {
        CrossDivisionDiff(p, o, t - T);
      }
    }
  }

  /** Within a division, the two cells of a pair differ by the sign of
      round 0 when `Gi` is odd, and are equal when it is even. */
  lemma SameDivisionDiff(p: Params, d: nat, O: nat, u: nat, v: nat)
    requires Supported(p) && d < p.numDivisions && O == d * p.teamsPerDivision
    requires u < p.teamsPerDivision && v < p.teamsPerDivision && u != v
    ensures PairDiff(Built(p), O + u, O + v) == if p.gamesVsDivision % 2 == 1 then Sgn(O + u, O + v) else 0
  {
    SameDivisionAways(p, d, O, u, v);
    SameDivisionMeetsFrom(p, d, O, u, v);
    AwayVsSum(Built(p), O + u, O + v);
    RuleCountClosed(p.gamesVsDivision, O + u, O + v);
  }

  /** Across divisions, the two cells of a pair differ by the sign of
      round 0 when `Gx` is odd, and are equal when it is even. */
  lemma CrossDivisionDiff(p: Params, x: nat, y: nat)
    requires Supported(p) && p.numDivisions == 2
    requires x < p.teamsPerDivision && y < p.teamsPerDivision
    ensures var o := p.teamsPerDivision + y;
      PairDiff(Built(p), x, o) == (if p.gamesVsNonDivision % 2 == 1 then Sgn(x, o) else 0)
      && PairDiff(Built(p), o, x) == (if p.gamesVsNonDivision % 2 == 1 then Sgn(o, x) else 0)
  {
    var o := p.teamsPerDivision + y;
    CrossDivisionAways(p, x, y);
    CrossDivisionMeets(p, x, y);
    AwayVsSum(Built(p), x, o);
    RuleCountClosed(p.gamesVsNonDivision, x, o);
  }

  /** The sign of round 0 against every opponent but `t` itself. */
  function SgnTerm(t: nat): nat -> int { (o: nat) => if o == t then 0 else Sgn(t, o) }

  /** Opponents above `t` alternate in sign: they cancel in pairs. */
  lemma {:induction false} SgnAbove(t: nat, lo: nat, hi: nat)
    requires t < lo <= hi
    ensures Sum(lo, hi, SgnTerm(t)) == if (hi - lo) % 2 == 0 then 0 else Sgn(t, lo)
  {
    if hi > lo {
      SgnAbove(t, lo, hi - 1);
      assert Sgn(t, hi - 1) == if (hi - 1 - lo) % 2 == 0 then Sgn(t, lo) else -Sgn(t, lo);
    }
  }

  /** Opponents below `t` alternate in sign: they cancel in pairs. */
  lemma {:induction false} SgnBelow(t: nat, lo: nat, hi: nat)
    requires lo <= hi <= t
    ensures Sum(lo, hi, SgnTerm(t)) == if (hi - lo) % 2 == 0 then 0 else Sgn(t, lo)
  {
    if hi > lo {
      SgnBelow(t, lo, hi - 1);
      assert Sgn(t, hi - 1) == if (hi - 1 - lo) % 2 == 0 then Sgn(t, lo) else -Sgn(t, lo);
    }
  }

  /** Over its own division `lo .. hi - 1`, the signs of `t` leave at most
      one game, and none when the division has an odd number of teams. */
  lemma SgnOwn(t: nat, lo: nat, hi: nat)
    requires lo <= t < hi
    ensures Sum(lo, hi, SgnTerm(t)) == (t - lo) % 2 - (hi - t - 1) % 2
  {
    SumSplit(lo, t, hi, SgnTerm(t));
    SumSplit(t, t + 1, hi, SgnTerm(t));
    SgnBelow(t, lo, t);
    SgnAbove(t, t + 1, hi);
  }

  /** Over its own division, a team's signs leave at most one game, and
      none when the division has an odd number of teams. */
  lemma OwnBlock(t: nat, lo: nat, T: nat)
    requires lo <= t < lo + T
    ensures -1 <= Sum(lo, lo + T, SgnTerm(t)) <= 1
    ensures T % 2 == 1 ==> Sum(lo, lo + T, SgnTerm(t)) == 0
  {
    SgnOwn(t, lo, lo + T);
    assert (t - lo) + (lo + T - t - 1) == T - 1;
  }

  /** Over another division, a team's signs leave at most one game, and
      none when the division has an even number of teams. */
  lemma OtherBlock(t: nat, lo: nat, T: nat)
    requires t < lo || lo + T <= t
    ensures -1 <= Sum(lo, lo + T, SgnTerm(t)) <= 1
    ensures T % 2 == 0 ==> Sum(lo, lo + T, SgnTerm(t)) == 0
  {
    if t < lo {
      SgnAbove(t, lo, lo + T);
    } else {
      SgnBelow(t, lo, lo + T);
    }
  }

  /** The differences against the block of `T` teams from `lo` on. */
  lemma BlockDiff(f: nat -> int, p: Params, n: nat, t: nat, lo: nat, G: nat)
    requires forall o :: 0 <= o < n ==> f(o) == LeftOver(p, t, o)
    requires (lo == 0 || lo == p.teamsPerDivision) && lo + p.teamsPerDivision <= n
    requires G == if (t < p.teamsPerDivision) == (lo == 0) then p.gamesVsDivision else p.gamesVsNonDivision
    ensures Sum(lo, lo + p.teamsPerDivision, f)
            == if G % 2 == 1 then Sum(lo, lo + p.teamsPerDivision, SgnTerm(t)) else 0
  {
    var T := p.teamsPerDivision;
    if G % 2 == 1 {
      SumSame(lo, lo + T, f, SgnTerm(t));
    } else {
      SumPoint(lo, lo + T, f, -1);
    }
  }

  /** A team's away count less its home count is the sum of its
      differences against every opponent. */
  lemma BuiltDiffSplit(p: Params, n: nat, t: nat)
    requires Supported(p) && n == p.numDivisions * p.teamsPerDivision
    ensures AwayCount(Built(p), t) - HomeCount(Built(p), t) == Sum(0, n, DiffRow(Built(p), t))
  {
    var B := Built(p);
    BuiltCover(p);
    forall j | 0 <= j < |B|
      ensures TeamsBelow(B[j], n)
    {
      CoveredBelow(B[j], n);
    }
    TotalAwaySplit(B, n, t);
    SumSub(0, n, Row(B, t), Col(B, t), DiffRow(B, t));
  }

  /** Every team's home and away counts over the whole schedule differ by
      at most one: with an even number of teams per division only the
      intra-division games can leave one over, with an odd number only the
      inter-division games. */
  lemma BuiltBalance(p: Params, t: nat)
    requires Supported(p) && t < p.numDivisions * p.teamsPerDivision
    ensures -1 <= HomeCount(Built(p), t) - AwayCount(Built(p), t) <= 1
  {
    var n := p.numDivisions * p.teamsPerDivision;
    var f := DiffRow(Built(p), t);
    BuiltDiffSplit(p, n, t);
    forall o | 0 <= o < n
      ensures f(o) == LeftOver(p, t, o)
    {
      if o != t {
        PairDiffBuilt(p, n, t, o);
      }
    }
    DiffRowBound(f, p, n, t);
  }

  /** Differences that are what each opponent leaves over add up to at
      most one game. */
  lemma DiffRowBound(f: nat -> int, p: Params, n: nat, t: nat)
    requires Supported(p) && n == p.numDivisions * p.teamsPerDivision && t < n
    requires forall o :: 0 <= o < n ==> f(o) == LeftOver(p, t, o)
    ensures -1 <= Sum(0, n, f) <= 1
  {
    var T := p.teamsPerDivision;
    if p.numDivisions == 1 {
      assert n == T;
      BlockDiff(f, p, n, t, 0, p.gamesVsDivision);
      OwnBlock(t, 0, T);
    } else {
      assert n == T + T;
      TwoDivisionsBound(f, p, n, t);
    }
  }

  /** With two divisions, the own division and the other one together
      leave at most one game. */
  lemma TwoDivisionsBound(f: nat -> int, p: Params, n: nat, t: nat)
    requires n == p.teamsPerDivision + p.teamsPerDivision && t < n
    requires forall o :: 0 <= o < n ==> f(o) == LeftOver(p, t, o)
    ensures -1 <= Sum(0, n, f) <= 1
  {
    var T := p.teamsPerDivision;
    SumSplit(0, T, n, f);
    if t < T {
      BlockDiff(f, p, n, t, 0, p.gamesVsDivision);
      BlockDiff(f, p, n, t, T, p.gamesVsNonDivision);
      BlocksBound(f, t, T, 0, T, p.gamesVsDivision, p.gamesVsNonDivision);
    } else {
      BlockDiff(f, p, n, t, T, p.gamesVsDivision);
      BlockDiff(f, p, n, t, 0, p.gamesVsNonDivision);
      BlocksBound(f, t, T, T, 0, p.gamesVsDivision, p.gamesVsNonDivision);
    }
  }

  /** What is left over within the own division and across divisions
      cannot both be a game: with an even number of teams per division
      nothing is left across, with an odd number nothing within. */
  lemma BlocksBound(f: nat -> int, t: nat, T: nat, own: nat, other: nat, Gi: nat, Gx: nat)
    requires own <= t < own + T && (t < other || other + T <= t)
    requires Sum(own, own + T, f) == if Gi % 2 == 1 then Sum(own, own + T, SgnTerm(t)) else 0
    requires Sum(other, other + T, f) == if Gx % 2 == 1 then Sum(other, other + T, SgnTerm(t)) else 0
    ensures -1 <= Sum(own, own + T, f) + Sum(other, other + T, f) <= 1
  {
    OwnBlock(t, own, T);
    OtherBlock(t, other, T);
  }
}
