/** The schedule in closed form, before the days are shuffled. Every day
    is listed division by division; within a division, the first game is
    the one of the division's first team (or, on a coupled day, of the
    team that crosses over), followed by the games around the circle. */
module Days {
  import opened Types
  import opened Ring

  /** Even number of teams, division starting at team `O`, day `m` of the
      round (1 <= m < T): team `O` meets `O + m`, and the other T - 1 teams
      sit on a ring whose centre is `O + m`. */
  function EvenBlock(r: nat, T: nat, O: nat, m: nat): seq<Game>
    requires T % 2 == 0 && 1 <= m < T
  {
    [Host(r, O, O + m)] + EvenRing(r, T, O, m)
  }

  /** The games around the ring of an even division: team `O + 1 + p` is at
      ring position `p`, and the ring has T - 1 positions. */
  function EvenRing(r: nat, T: nat, O: nat, m: nat): seq<Game>
    requires T % 2 == 0 && 1 <= m < T
  {
    seq(T / 2 - 1, k requires 0 <= k < T / 2 - 1 =>
      Pairing(r, O + 1 + Back(m - 1, k + 1, T - 1), O + 1 + Fwd(m - 1, k + 1, T - 1)))
  }

  /** The blocks of the first `div` divisions on an even day. */
  function EvenDivs(r: nat, T: nat, m: nat, div: nat): seq<Game>
    requires T % 2 == 0 && 1 <= m < T
  {
    if div == 0 then [] else EvenDivs(r, T, m, div - 1) + EvenBlock(r, T, (div - 1) * T, m)
  }

  /** A game around the ring of an odd division, with team numbers local to
      the division; local number T is the phantom bye team. */
  function RingGame(r: nat, T: nat, O: nat, l1: nat, l2: nat): Game
  {
    if l1 == T then Game(Team(O + l2), Bye)
    else if l2 == T then Game(Team(O + l1), Bye)
    else Pairing(r, O + l1, O + l2)
  }

  /** Odd number of teams with byes, day `m` (1 <= m <= T): team `O` meets
      `O + m` (or takes the bye when m == T), and the other T teams,
      the phantom included, sit on a ring whose centre is `O + m`. */
  function ByeBlock(r: nat, T: nat, O: nat, m: nat): seq<Game>
    requires Odd(T) && 1 <= m <= T
  {
    [if m == T then Game(Team(O), Bye) else Host(r, O, O + m)] + ByeRing(r, T, O, m)
  }

  /** The games around the ring of an odd division with byes: team
      `O + 1 + p` is at ring position `p`, position T - 1 is the phantom. */
  function ByeRing(r: nat, T: nat, O: nat, m: nat): seq<Game>
    requires Odd(T) && 1 <= m <= T
  {
    seq(Half(T), k requires 0 <= k < Half(T) =>
      RingGame(r, T, O, 1 + Back(m - 1, k + 1, T), 1 + Fwd(m - 1, k + 1, T)))
  }

  /** The blocks of the first `div` divisions on a day with byes. */
  function ByeDivs(r: nat, T: nat, m: nat, div: nat): seq<Game>
    requires Odd(T) && 1 <= m <= T
  {
    if div == 0 then [] else ByeDivs(r, T, m, div - 1) + ByeBlock(r, T, (div - 1) * T, m)
  }

  /** Odd number of teams, coupled day: all T teams of the division sit on
      the ring, and the centre `O + s` plays across divisions instead. */
  function CoupledBlock(r: nat, T: nat, O: nat, s: nat): seq<Game>
    requires Odd(T) && s < T
  {
    seq(Half(T), k requires 0 <= k < Half(T) =>
      Pairing(r, O + Back(s, k + 1, T), O + Fwd(s, k + 1, T)))
  }

  /** The blocks of the first `div` divisions on a coupled day; division 0
      is centred at local team `a`, division 1 at local team `b`. */
  function CoupledDivs(r: nat, T: nat, a: nat, b: nat, div: nat): seq<Game>
    requires Odd(T) && a < T && b < T
  {
    if div == 0 then []
    else CoupledDivs(r, T, a, b, div - 1) + CoupledBlock(r, T, (div - 1) * T, if div == 1 then a else b)
  }

  /** An even day so far has T / 2 games per division. */
  lemma {:induction false} EvenDivsLength(r: nat, T: nat, m: nat, div: nat)
    requires T % 2 == 0 && 1 <= m < T
    ensures |EvenDivs(r, T, m, div)| == div * (T / 2)
  {
    if div > 0 {
      EvenDivsLength(r, T, m, div - 1);
      assert div * (T / 2) == (div - 1) * (T / 2) + T / 2;
    }
  }

  /** A day with byes so far has (T - 1) / 2 + 1 games per division. */
  lemma {:induction false} ByeDivsLength(r: nat, T: nat, m: nat, div: nat)
    requires Odd(T) && 1 <= m <= T
    ensures |ByeDivs(r, T, m, div)| == div * (Half(T) + 1)
  {
    if div > 0 {
      ByeDivsLength(r, T, m, div - 1);
      assert div * (Half(T) + 1) == (div - 1) * (Half(T) + 1) + Half(T) + 1;
    }
  }

  /** The rings of a coupled day so far have (T - 1) / 2 games per division. */
  lemma {:induction false} CoupledDivsLength(r: nat, T: nat, a: nat, b: nat, div: nat)
    requires Odd(T) && a < T && b < T
    ensures |CoupledDivs(r, T, a, b, div)| == div * Half(T)
  {
    if div > 0 {
      CoupledDivsLength(r, T, a, b, div - 1);
      assert div * Half(T) == (div - 1) * Half(T) + Half(T);
    }
  }

  /** Where the two cross-division counters stand: the inter-division
      round and the shift within it. */
  datatype Counters = Counters(interRound: nat, interMatchIdx: nat)

  /** The counters after one shift is used up. */
  function Advance(c: Counters, T: nat): Counters
  {
    if c.interMatchIdx + 1 >= T then Counters(c.interRound + 1, 0)
    else Counters(c.interRound, c.interMatchIdx + 1)
  }

  /** Team `a` of division 0 against team `(a + k) mod T` of division 1. */
  function CrossGame(ir: nat, T: nat, a: nat, k: nat): Game
    requires T > 0
  {
    Host(ir, a, (a + k) % T + T)
  }

  /** Coupled day `m`: the would-be-bye teams `m - 1` and `(m - 1 + k) mod T`
      of the two divisions meet each other; that game comes first when
      it is team 0's, last otherwise. */
  function CoupledDay(r: nat, T: nat, c: Counters, m: nat): Day
    requires Odd(T) && 1 <= m <= T
  {
    var a := m - 1;
    var b := (a + c.interMatchIdx) % T;
    var cross := CrossGame(c.interRound, T, a, c.interMatchIdx);
    if a == 0 then [cross] + CoupledDivs(r, T, a, b, 2) else CoupledDivs(r, T, a, b, 2) + [cross]
  }

  /** Inter-division day with shift `k`: team `i` meets `(i + k) mod T + T`. */
  function InterDay(ir: nat, T: nat, k: nat): Day
    requires T > 0
  {
    seq(T, i requires 0 <= i < T => CrossGame(ir, T, i, k))
  }

  /** The T - 1 days of intra-division round `r` for an even T. */
  function EvenRound(r: nat, D: nat, T: nat): seq<Day>
    requires T % 2 == 0 && T >= 2
  {
    seq(T - 1, j requires 0 <= j < T - 1 => EvenDivs(r, T, j + 1, D))
  }

  /** The T days of intra-division round `r` for an odd T, with byes. */
  function ByeRound(r: nat, D: nat, T: nat): seq<Day>
    requires Odd(T)
  {
    seq(T, j requires 0 <= j < T => ByeDivs(r, T, j + 1, D))
  }

  /** The T days of intra-division round `r` for an odd T, coupled. */
  function CoupledRound(r: nat, T: nat, c: Counters): seq<Day>
    requires Odd(T)
  {
    seq(T, j requires 0 <= j < T => CoupledDay(r, T, c, j + 1))
  }

  /** A round of an odd T is coupled when there are two divisions and
      inter-division games are still owed when it starts. */
  predicate Coupled(p: Params, c: Counters)
  {
    p.teamsPerDivision % 2 == 1 && !(p.numDivisions == 1 || c.interRound >= p.gamesVsNonDivision)
  }

  /** The days of intra-division round `r` when the counters stand at `c`. */
  function IntraRound(p: Params, r: nat, c: Counters): seq<Day>
    requires Supported(p)
  {
    var T := p.teamsPerDivision;
    if T % 2 == 0 then EvenRound(r, p.numDivisions, T)
    else if Coupled(p, c) then CoupledRound(r, T, c)
    else ByeRound(r, p.numDivisions, T)
  }

  /** The counters after a round: a coupled round uses up one shift. */
  function AfterRound(p: Params, c: Counters): Counters
  {
    if Coupled(p, c) then Advance(c, p.teamsPerDivision) else c
  }

  /** The days of the first `k` intra-division rounds, and the counters
      after them. */
  function IntraRounds(p: Params, k: nat): (res: (seq<Day>, Counters))
    requires Supported(p)
    ensures res.1.interMatchIdx < p.teamsPerDivision
  {
    if k == 0 then ([], Counters(0, 0))
    else
      var (days, c) := IntraRounds(p, k - 1);
      (days + IntraRound(p, k - 1, c), AfterRound(p, c))
  }

  /** Round `k - 1` extends the first `k - 1` rounds and advances the
      counters they left. */
  lemma IntraRoundsStep(p: Params, k: nat)
    requires Supported(p) && k > 0
    ensures IntraRounds(p, k).0 == IntraRounds(p, k - 1).0 + IntraRound(p, k - 1, IntraRounds(p, k - 1).1)
    ensures IntraRounds(p, k).1 == AfterRound(p, IntraRounds(p, k - 1).1)
  {
  }

  /** Inter-division rounds owed: none with a single division. */
  function InterLimit(p: Params): nat
  {
    if p.numDivisions > 1 then p.gamesVsNonDivision else 0
  }

  /** The inter-division days still owed when the counters stand at `c`. */
  function InterFrom(p: Params, c: Counters): seq<Day>
    requires Supported(p)
    decreases InterLimit(p) - c.interRound, p.teamsPerDivision - c.interMatchIdx
  {
    if c.interRound >= InterLimit(p) then []
    else if c.interMatchIdx >= p.teamsPerDivision then InterFrom(p, Counters(c.interRound + 1, 0))
    else [InterDay(c.interRound, p.teamsPerDivision, c.interMatchIdx)]
         + InterFrom(p, Counters(c.interRound, c.interMatchIdx + 1))
  }

  /** The whole schedule before its days are shuffled. */
  function Built(p: Params): seq<Day>
    requires Supported(p)
  {
    var (days, c) := IntraRounds(p, p.gamesVsDivision);
    days + InterFrom(p, c)
  }
}
