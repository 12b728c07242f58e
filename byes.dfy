/** Where the byes fall. A game with the BYE sentinel exists only in a
    round with byes: there each division has exactly one bye game a day,
    stored with the team in the away slot and BYE in the home slot, and
    each team takes exactly one bye per such round. Even days, coupled
    days and inter-division days hold no bye at all. */
module Byes {
  import opened Types
  import opened Ring
  import opened Stats
  import opened Days
  import opened Cover
  import opened Counts
  import opened Meets
  import opened OddMeets

  /** A game between two teams, with no BYE in it. */
  predicate Real(g: Game)
  {
    g.away.Team? && g.home.Team?
  }

  /** Every game of `s` is between two teams. */
  predicate AllReal(s: seq<Game>)
  {
    forall i :: 0 <= i < |s| ==> Real(s[i])
  }

  /** A game with BYE in it, in either slot. */
  predicate HasBye(g: Game)
  {
    g.away == Bye || g.home == Bye
  }

  function HasByeP(): Game -> bool { g => HasBye(g) }

  // ------------------------------------------------------------ bye rounds

  /** The day of a round with byes on which local team `u` takes its bye:
      the last day for the division's first team, otherwise the day whose
      ring centre is the Mid of the team's ring position and the phantom's. */
  function ByeDay(T: nat, u: nat): (m: nat)
    requires Odd(T) && u < T
    ensures 1 <= m <= T
  {
    if u == 0 then T else Mid(T, u - 1, T - 1) + 1
  }

  /** Only the games of team `t` are its bye games. */
  lemma ByeOnlyOf(t: nat)
    ensures OnlyOf(ByeP(t), t)
  {
  }

  /** Game `k` of the ring is the bye of team `O + u` exactly when it pairs
      the team's ring position with the phantom's. */
  lemma ByeRingByeAt(r: nat, T: nat, O: nat, m: nat, k: nat, u: nat)
    requires Odd(T) && 1 <= m <= T && k < Half(T) && u < T
    ensures IsByeOf(ByeRing(r, T, O, m)[k], O + u)
            <==> IsPair(Back(m - 1, k + 1, T), Fwd(m - 1, k + 1, T), u - 1, T - 1)
  {
    var p := Back(m - 1, k + 1, T);
    var q := Fwd(m - 1, k + 1, T);
    PairShape(T, m - 1, k + 1);
    if p != T - 1 && q != T - 1 {
      PairingFacts(r, O + 1 + p, O + 1 + q);
    }
  }

  lemma ByeRingByes(r: nat, T: nat, O: nat, m: nat, u: nat)
    requires Odd(T) && 1 <= m <= T && u < T
    ensures |ByeRing(r, T, O, m)| == Half(T)
    ensures PicksPair(ByeRing(r, T, O, m), ByeP(O + u), T, m - 1, u - 1, T - 1)
  {
    forall k | 0 <= k < Half(T)
      ensures IsByeOf(ByeRing(r, T, O, m)[k], O + u)
              <==> IsPair(Back(m - 1, k + 1, T), Fwd(m - 1, k + 1, T), u - 1, T - 1)
    {
      ByeRingByeAt(r, T, O, m, k, u);
    }
  }

  /** On the ring, team `O + u` takes its bye on the day whose centre is
      the Mid of its position and the phantom's. */
  lemma ByeRingByeCount(r: nat, T: nat, O: nat, m: nat, u: nat)
    requires Odd(T) && 1 <= m <= T && u < T
    ensures Count(ByeRing(r, T, O, m), ByeP(O + u))
            == if 1 <= u && m - 1 == Mid(T, u - 1, T - 1) then 1 else 0
  {
    ByeRingByes(r, T, O, m, u);
    DayRingMeet(ByeRing(r, T, O, m), ByeP(O + u), T, m, u, T);
  }

  /** In one division on day `m`, team `O + u` takes a bye exactly on
      day `ByeDay(T, u)`. */
  lemma ByeBlockByes(r: nat, T: nat, O: nat, m: nat, u: nat)
    requires Odd(T) && 1 <= m <= T && u < T
    ensures Count(ByeBlock(r, T, O, m), ByeP(O + u)) == if m == ByeDay(T, u) then 1 else 0
  {
    var first := if m == T then Game(Team(O), Bye) else Host(r, O, O + m);
    CountAppend([first], ByeRing(r, T, O, m), ByeP(O + u));
    CountSingle(first, ByeP(O + u));
    ByeRingByeCount(r, T, O, m, u);
  }

  /** On a day with byes, team `O + u` of division `d` takes a bye exactly
      on day `ByeDay(T, u)`. */
  lemma ByeDivsByes(r: nat, T: nat, m: nat, D: nat, d: nat, O: nat, u: nat)
    requires Odd(T) && 1 <= m <= T && d < D && O == d * T && u < T
    ensures Count(ByeDivs(r, T, m, D), ByeP(O + u)) == if m == ByeDay(T, u) then 1 else 0
  {
    ByeOnlyOf(O + u);
    ByeDivsFocus(r, T, m, D, d, O, O + u, ByeP(O + u));
    ByeBlockByes(r, T, O, m, u);
  }

  /** Over a round with byes, every team takes exactly one bye. */
  lemma ByeRoundByes(r: nat, D: nat, T: nat, d: nat, O: nat, u: nat)
    requires Odd(T) && d < D && O == d * T && u < T
    ensures ByeCount(ByeRound(r, D, T), O + u) == 1
  {
    forall j | 0 <= j < T
      ensures ByesP(O + u)(ByeRound(r, D, T)[j]) == if j == ByeDay(T, u) - 1 then 1 else 0
    {
      ByeRoundDay(r, D, T, j, ByesP(O + u));
      ByeDivsByes(r, T, j + 1, D, d, O, u);
    }
    TotalIndicator(ByeRound(r, D, T), ByesP(O + u), ByeDay(T, u) - 1);
  }

  /** Game `k` of the ring holds BYE exactly when it holds the phantom. */
  lemma ByeRingGameAt(r: nat, T: nat, O: nat, m: nat, k: nat)
    requires Odd(T) && 1 <= m <= T && k < Half(T)
    ensures HasBye(ByeRing(r, T, O, m)[k])
            <==> (T - 1 == Back(m - 1, k + 1, T) || T - 1 == Fwd(m - 1, k + 1, T))
    ensures ByeRing(r, T, O, m)[k].away.Team?
  {
    var p := Back(m - 1, k + 1, T);
    var q := Fwd(m - 1, k + 1, T);
    PairShape(T, m - 1, k + 1);
    if p != T - 1 && q != T - 1 {
      PairingFacts(r, O + 1 + p, O + 1 + q);
    }
  }

  /** Each division has exactly one bye game on each day of a round with
      byes: the first team's on the last day, the ring's on the others. */
  lemma ByeBlockOneBye(r: nat, T: nat, O: nat, m: nat)
    requires Odd(T) && 1 <= m <= T
    ensures Count(ByeBlock(r, T, O, m), HasByeP()) == 1
  {
    var ring := ByeRing(r, T, O, m);
    forall k | 0 <= k < |ring|
      ensures HasByeP()(ring[k]) <==> (T - 1 != -1
        && (T - 1 == Back(m - 1, k + 1, T) || T - 1 == Fwd(m - 1, k + 1, T)))
    {
      ByeRingGameAt(r, T, O, m, k);
    }
    RingCount(ring, HasByeP(), T, m - 1, T - 1, -1);
    var first := if m == T then Game(Team(O), Bye) else Host(r, O, O + m);
    CountAppend([first], ring, HasByeP());
    CountSingle(first, HasByeP());
  }

  /** A day with byes has one bye game per division. */
  lemma {:induction false} ByeDivsByeGames(r: nat, T: nat, m: nat, div: nat)
    requires Odd(T) && 1 <= m <= T
    ensures Count(ByeDivs(r, T, m, div), HasByeP()) == div
  {
    if div > 0 {
      var e := div - 1;
      ByeDivsByeGames(r, T, m, e);
      ByeDivsParts(r, T, m, e, HasByeP());
      ByeBlockOneBye(r, T, e * T, m);
    }
  }

  // ------------------------------------------------ days without any bye

  lemma CountNoBye(s: seq<Game>, t: nat)
    requires AllReal(s)
    ensures Count(s, ByeP(t)) == 0
  {
    CountNone(s, ByeP(t));
  }

  lemma AllRealAppend(s: seq<Game>, u: seq<Game>)
    requires AllReal(s) && AllReal(u)
    ensures AllReal(s + u)
  {
    forall i | 0 <= i < |s + u|
      ensures Real((s + u)[i])
    {
      if i >= |s| {
        assert (s + u)[i] == u[i - |s|];
      }
    }
  }

  lemma HostReal(r: nat, a: nat, b: nat)
    ensures Real(Host(r, a, b))
  {
  }

  lemma PairingReal(r: nat, a: nat, b: nat)
    ensures Real(Pairing(r, a, b))
  {
  }

  /** An even day holds no bye. */
  lemma {:induction false} EvenDivsReal(r: nat, T: nat, m: nat, div: nat)
    requires T % 2 == 0 && 1 <= m < T
    ensures AllReal(EvenDivs(r, T, m, div))
  {
    if div > 0 {
      EvenDivsReal(r, T, m, div - 1);
      var O := (div - 1) * T;
      var ring := EvenRing(r, T, O, m);
      forall k | 0 <= k < |ring|
        ensures Real(ring[k])
      {
        PairingReal(r, O + 1 + Back(m - 1, k + 1, T - 1), O + 1 + Fwd(m - 1, k + 1, T - 1));
      }
      HostReal(r, O, O + m);
      AllRealAppend([Host(r, O, O + m)], ring);
      AllRealAppend(EvenDivs(r, T, m, div - 1), EvenBlock(r, T, O, m));
    }
  }

  /** The rings of a coupled day hold no bye. */
  lemma {:induction false} CoupledDivsReal(r: nat, T: nat, a: nat, b: nat, div: nat)
    requires Odd(T) && a < T && b < T
    ensures AllReal(CoupledDivs(r, T, a, b, div))
  {
    if div > 0 {
      CoupledDivsReal(r, T, a, b, div - 1);
      var O := (div - 1) * T;
      var s := if div == 1 then a else b;
      var ring := CoupledBlock(r, T, O, s);
      forall k | 0 <= k < |ring|
        ensures Real(ring[k])
      {
        PairingReal(r, O + Back(s, k + 1, T), O + Fwd(s, k + 1, T));
      }
      AllRealAppend(CoupledDivs(r, T, a, b, div - 1), ring);
    }
  }

  /** A coupled day holds no bye: the would-be-bye teams play each other. */
  lemma CoupledDayReal(r: nat, T: nat, c: Counters, m: nat)
    requires Odd(T) && 1 <= m <= T
    ensures AllReal(CoupledDay(r, T, c, m))
  {
    var a := m - 1;
    var b := (a + c.interMatchIdx) % T;
    CoupledDivsReal(r, T, a, b, 2);
    HostReal(c.interRound, a, b + T);
    var cross := CrossGame(c.interRound, T, a, c.interMatchIdx);
    if a == 0 {
      AllRealAppend([cross], CoupledDivs(r, T, a, b, 2));
    } else {
      AllRealAppend(CoupledDivs(r, T, a, b, 2), [cross]);
    }
  }

  /** An inter-division day holds no bye. */
  lemma InterDayReal(ir: nat, T: nat, k: nat)
    requires T > 0
    ensures AllReal(InterDay(ir, T, k))
  {
    forall i | 0 <= i < T
      ensures Real(InterDay(ir, T, k)[i])
    {
      HostReal(ir, i, (i + k) % T + T);
    }
  }

  lemma EvenRoundNoBye(r: nat, D: nat, T: nat, t: nat)
    requires T % 2 == 0 && T >= 2
    ensures ByeCount(EvenRound(r, D, T), t) == 0
  {
    forall j | 0 <= j < T - 1
      ensures ByesP(t)(EvenRound(r, D, T)[j]) == 0
    {
      EvenRoundDay(r, D, T, j, ByesP(t));
      EvenDivsReal(r, T, j + 1, D);
      CountNoBye(EvenDivs(r, T, j + 1, D), t);
    }
    TotalConstant(EvenRound(r, D, T), ByesP(t), 0);
  }

  lemma CoupledRoundNoBye(r: nat, T: nat, c: Counters, t: nat)
    requires Odd(T)
    ensures ByeCount(CoupledRound(r, T, c), t) == 0
  {
    forall j | 0 <= j < T
      ensures ByesP(t)(CoupledRound(r, T, c)[j]) == 0
    {
      CoupledRoundDay(r, T, c, j, ByesP(t));
      CoupledDayReal(r, T, c, j + 1);
      CountNoBye(CoupledDay(r, T, c, j + 1), t);
    }
    TotalConstant(CoupledRound(r, T, c), ByesP(t), 0);
  }

  // --------------------------------------------------- the whole schedule

  /** Round `k` has byes: T is odd, and either there is one division or
      the `Gx T` shifts were used up by the rounds before it. */
  predicate IsByeRound(p: Params, k: nat)
  {
    p.teamsPerDivision % 2 == 1
    && !(p.numDivisions == 2 && k < p.gamesVsNonDivision * p.teamsPerDivision)
  }

  /** Rounds with byes among the first `k` intra-division rounds. */
  function ByeRoundsBefore(p: Params, k: nat): nat
  {
    if k == 0 then 0 else ByeRoundsBefore(p, k - 1) + if IsByeRound(p, k - 1) then 1 else 0
  }

  /** All rounds of an odd T once the `Gx T` shifts are used up, every
      round of an odd T with one division, none for an even T. */
  lemma {:induction false} ByeRoundsClosed(p: Params, k: nat)
    ensures ByeRoundsBefore(p, k)
            == if p.teamsPerDivision % 2 == 0 then 0
               else if p.numDivisions == 2 then k - Min(k, p.gamesVsNonDivision * p.teamsPerDivision)
               else k
  {
    if k > 0 {
      ByeRoundsClosed(p, k - 1);
      var M := p.gamesVsNonDivision * p.teamsPerDivision;
      assert k - Min(k, M) == k - 1 - Min(k - 1, M) + if k - 1 < M then 0 else 1;
    }
  }

  /** Round `k` of an odd T is coupled exactly when there are two
      divisions and fewer than `Gx T` rounds came before it. */
  lemma CoupledAt(p: Params, k: nat)
    requires Supported(p) && p.teamsPerDivision % 2 == 1
    ensures Coupled(p, IntraRounds(p, k).1)
            <==> p.numDivisions == 2 && k < p.gamesVsNonDivision * p.teamsPerDivision
  {
    var c := IntraRounds(p, k).1;
    IntraCounters(p, k);
    BeforeEnd(c.interRound, c.interMatchIdx, p.teamsPerDivision, p.gamesVsNonDivision);
  }

  /** A team takes one bye in a round with byes and none in another round. */
  lemma IntraRoundByes(p: Params, r: nat, c: Counters, d: nat, O: nat, u: nat)
    requires Supported(p) && d < p.numDivisions && O == d * p.teamsPerDivision
    requires u < p.teamsPerDivision
    ensures ByeCount(IntraRound(p, r, c), O + u)
            == if p.teamsPerDivision % 2 == 1 && !Coupled(p, c) then 1 else 0
  {
    var T := p.teamsPerDivision;
    if T % 2 == 0 {
      EvenRoundNoBye(r, p.numDivisions, T, O + u);
    } else if Coupled(p, c) {
      CoupledRoundNoBye(r, T, c, O + u);
    } else {
      ByeRoundByes(r, p.numDivisions, T, d, O, u);
    }
  }

  lemma ByesAppend(days: seq<Day>, round: seq<Day>, t: nat)
    ensures ByeCount(days + round, t) == ByeCount(days, t) + ByeCount(round, t)
  {
    TotalAppend(days, round, ByesP(t));
  }

  /** The byes of one team in round `k` of the construction. */
  lemma IntraRoundByesAt(p: Params, k: nat, d: nat, O: nat, u: nat)
    requires Supported(p) && d < p.numDivisions && O == d * p.teamsPerDivision
    requires u < p.teamsPerDivision
    ensures ByeCount(IntraRound(p, k, IntraRounds(p, k).1), O + u) == if IsByeRound(p, k) then 1 else 0
  {
    IntraRoundByes(p, k, IntraRounds(p, k).1, d, O, u);
    if p.teamsPerDivision % 2 == 1 {
      CoupledAt(p, k);
    }
  }

  /** Over the first `k` intra-division rounds, a team takes one bye per
      round with byes. */
  lemma {:induction false} IntraByes(p: Params, k: nat, d: nat, O: nat, u: nat)
    requires Supported(p) && d < p.numDivisions && O == d * p.teamsPerDivision
    requires u < p.teamsPerDivision
    ensures ByeCount(IntraRounds(p, k).0, O + u) == ByeRoundsBefore(p, k)
  {
    if k > 0 {
      IntraByes(p, k - 1, d, O, u);
      var (days, c) := IntraRounds(p, k - 1);
      assert IntraRounds(p, k) == (days + IntraRound(p, k - 1, c), AfterRound(p, c));
      ByesAppend(days, IntraRound(p, k - 1, c), O + u);
      IntraRoundByesAt(p, k - 1, d, O, u);
    }
  }

  /** Inter-division days hold no bye. */
  lemma {:induction false} InterNoByes(p: Params, c: Counters, t: nat)
    requires Supported(p)
    ensures ByeCount(InterFrom(p, c), t) == 0
    decreases InterLimit(p) - c.interRound, p.teamsPerDivision - c.interMatchIdx
  {
    var T := p.teamsPerDivision;
    if c.interRound >= InterLimit(p) {
    } else if c.interMatchIdx >= T {
      InterNoByes(p, Counters(c.interRound + 1, 0), t);
    } else {
      var day := InterDay(c.interRound, T, c.interMatchIdx);
      var rest := InterFrom(p, Counters(c.interRound, c.interMatchIdx + 1));
      InterNoByes(p, Counters(c.interRound, c.interMatchIdx + 1), t);
      InterDayReal(c.interRound, T, c.interMatchIdx);
      CountNoBye(day, t);
      ByesAppend([day], rest, t);
    }
  }

  /** Over the whole schedule every team takes exactly one bye per round
      with byes: `Gi` of them with one division and an odd T, the rounds
      left after the `Gx T` coupled ones with two, none for an even T. */
  lemma TotalByes(p: Params, d: nat, u: nat)
    requires Supported(p) && d < p.numDivisions && u < p.teamsPerDivision
    ensures ByeCount(Built(p), d * p.teamsPerDivision + u) == ByeRounds(p)
  {
    TotalByesFrom(p, d, d * p.teamsPerDivision, u);
  }

  lemma TotalByesFrom(p: Params, d: nat, O: nat, u: nat)
    requires Supported(p) && d < p.numDivisions && O == d * p.teamsPerDivision
    requires u < p.teamsPerDivision
    ensures ByeCount(Built(p), O + u) == ByeRounds(p)
  {
    var (days, c) := IntraRounds(p, p.gamesVsDivision);
    assert Built(p) == days + InterFrom(p, c);
    IntraByes(p, p.gamesVsDivision, d, O, u);
    ByeRoundsClosed(p, p.gamesVsDivision);
    InterNoByes(p, c, O + u);
    ByesAppend(days, InterFrom(p, c), O + u);
  }
}
