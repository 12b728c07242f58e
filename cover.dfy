/** Every team plays exactly once on every day: in one game against
    another team, or in its bye game. This is the property `print_stats`
    checks with `team_plays`, and it is proved here day shape by day
    shape, from the ring of the circle method up to the whole schedule. */
module Cover {
  import opened Types
  import opened Ring
  import opened Stats
  import opened Days

  /** The games of a pairing are the games of its two teams. */
  lemma InvolvesPairing(r: nat, x: nat, y: nat, t: nat)
    requires x != y
    ensures Involves(Pairing(r, x, y), t) <==> t == x || t == y
  {
    PairingFacts(r, x, y);
  }

  lemma CountSingle(g: Game, P: Game -> bool)
    ensures Count([g], P) == if P(g) then 1 else 0
  {
    assert [g][1..] == [];
  }

  /** A ring of games in which `P` picks out the games holding position
      `x` (never the excluded position `ex`, the phantom of a ring with
      byes): exactly one game when `x` is a position other than the
      centre and `ex`, none otherwise. */
  lemma RingCount(s: seq<Game>, P: Game -> bool, n: int, c: int, x: int, ex: int)
    requires Odd(n) && 0 <= c < n && |s| == Half(n)
    requires forall k :: 0 <= k < |s| ==>
      (P(s[k]) <==> x != ex && (x == Back(c, k + 1, n) || x == Fwd(c, k + 1, n)))
    ensures Count(s, P) == if 0 <= x < n && x != c && x != ex then 1 else 0
  {
    if 0 <= x < n && x != c && x != ex {
      var i := PairIndex(n, c, x);
      forall k | 0 <= k < |s| && k != i - 1
        ensures !P(s[k])
      {
        PairsDisjoint(n, c, i, k + 1);
      }
      CountOne(s, P, i - 1);
    } else {
      if 0 <= x < n {
        Covered(n, c, x);
      }
      CountNone(s, P);
    }
  }

  /** Game `k` of the ring of an even division holds the teams at ring
      positions `Back` and `Fwd` of the centre `m - 1`. */
  lemma EvenRingAt(r: nat, T: nat, O: nat, m: nat, k: nat, t: nat)
    requires T % 2 == 0 && 1 <= m < T && k < T / 2 - 1
    ensures Involves(EvenRing(r, T, O, m)[k], t) <==> (t - O - 1 != -1
      && (t - O - 1 == Back(m - 1, k + 1, T - 1) || t - O - 1 == Fwd(m - 1, k + 1, T - 1)))
  {
    PairShape(T - 1, m - 1, k + 1);
    InvolvesPairing(r, O + 1 + Back(m - 1, k + 1, T - 1), O + 1 + Fwd(m - 1, k + 1, T - 1), t);
  }

  /** The ring of an even division holds every team of the division but
      its first team `O` and its centre `O + m`. */
  lemma EvenRingCover(r: nat, T: nat, O: nat, m: nat, t: nat)
    requires T % 2 == 0 && 1 <= m < T
    ensures Appearances(EvenRing(r, T, O, m), t) == if O < t < O + T && t != O + m then 1 else 0
  {
    var ring := EvenRing(r, T, O, m);
    forall k | 0 <= k < |ring|
      ensures InvolvesP(t)(ring[k]) <==> (t - O - 1 != -1
        && (t - O - 1 == Back(m - 1, k + 1, T - 1) || t - O - 1 == Fwd(m - 1, k + 1, T - 1)))
    {
      EvenRingAt(r, T, O, m, k, t);
    }
    RingCount(ring, InvolvesP(t), T - 1, m - 1, t - O - 1, -1);
  }

  /** Team `O` and team `O + m` play the first game of an even division;
      the other teams of the division are on its ring. */
  lemma EvenBlockCover(r: nat, T: nat, O: nat, m: nat, t: nat)
    requires T % 2 == 0 && 1 <= m < T
    ensures Appearances(EvenBlock(r, T, O, m), t) == if O <= t < O + T then 1 else 0
  {
    EvenRingCover(r, T, O, m, t);
    CountAppend([Host(r, O, O + m)], EvenRing(r, T, O, m), InvolvesP(t));
    CountSingle(Host(r, O, O + m), InvolvesP(t));
  }

  /** On an even day, every team of the first `div` divisions plays once. */
  lemma {:induction false} EvenDivsCover(r: nat, T: nat, m: nat, div: nat, t: nat)
    requires T % 2 == 0 && 1 <= m < T
    ensures Appearances(EvenDivs(r, T, m, div), t) == if t < div * T then 1 else 0
  {
    if div > 0 {
      var O := (div - 1) * T;
      assert O + T == div * T;
      assert EvenDivs(r, T, m, div) == EvenDivs(r, T, m, div - 1) + EvenBlock(r, T, O, m);
      EvenDivsCover(r, T, m, div - 1, t);
      EvenBlockCover(r, T, O, m, t);
      CountAppend(EvenDivs(r, T, m, div - 1), EvenBlock(r, T, O, m), InvolvesP(t));
    }
  }

  /** A game of a ring with byes holds the real teams among its two
      positions; the phantom bye team `O + T` is in no game. */
  lemma InvolvesRingGame(r: nat, T: nat, O: nat, l1: nat, l2: nat, t: nat)
    requires l1 != l2
    ensures Involves(RingGame(r, T, O, l1, l2), t)
            <==> (t == O + l1 && l1 != T) || (t == O + l2 && l2 != T)
  {
    if l1 != T && l2 != T {
      InvolvesPairing(r, O + l1, O + l2, t);
    }
  }

  /** Game `k` of the ring of a division with byes holds the real teams at
      ring positions `Back` and `Fwd` of the centre `m - 1`. */
  lemma ByeRingAt(r: nat, T: nat, O: nat, m: nat, k: nat, t: nat)
    requires Odd(T) && 1 <= m <= T && k < Half(T)
    ensures Involves(ByeRing(r, T, O, m)[k], t) <==> (t - O - 1 != T - 1
      && (t - O - 1 == Back(m - 1, k + 1, T) || t - O - 1 == Fwd(m - 1, k + 1, T)))
  {
    PairShape(T, m - 1, k + 1);
    InvolvesRingGame(r, T, O, 1 + Back(m - 1, k + 1, T), 1 + Fwd(m - 1, k + 1, T), t);
  }

  /** The ring of a division with byes holds every team of the division
      but its first team `O` and its centre `O + m`; when the centre is the
      phantom, every team but `O`. */
  lemma ByeRingCover(r: nat, T: nat, O: nat, m: nat, t: nat)
    requires Odd(T) && 1 <= m <= T
    ensures Appearances(ByeRing(r, T, O, m), t) == if O < t < O + T && t != O + m then 1 else 0
  {
    var ring := ByeRing(r, T, O, m);
    forall k | 0 <= k < |ring|
      ensures InvolvesP(t)(ring[k]) <==> (t - O - 1 != T - 1
        && (t - O - 1 == Back(m - 1, k + 1, T) || t - O - 1 == Fwd(m - 1, k + 1, T)))
    {
      ByeRingAt(r, T, O, m, k, t);
    }
    RingCount(ring, InvolvesP(t), T, m - 1, t - O - 1, T - 1);
  }

  /** Team `O` meets `O + m` or takes the bye; the others are on the ring,
      where the team paired with the phantom takes the bye. */
  lemma ByeBlockCover(r: nat, T: nat, O: nat, m: nat, t: nat)
    requires Odd(T) && 1 <= m <= T
    ensures Appearances(ByeBlock(r, T, O, m), t) == if O <= t < O + T then 1 else 0
  {
    ByeRingCover(r, T, O, m, t);
    var first := if m == T then Game(Team(O), Bye) else Host(r, O, O + m);
    CountAppend([first], ByeRing(r, T, O, m), InvolvesP(t));
    CountSingle(first, InvolvesP(t));
  }

  /** On a day with byes, every team of the first `div` divisions plays
      or takes its bye once. */
  lemma {:induction false} ByeDivsCover(r: nat, T: nat, m: nat, div: nat, t: nat)
    requires Odd(T) && 1 <= m <= T
    ensures Appearances(ByeDivs(r, T, m, div), t) == if t < div * T then 1 else 0
  {
    if div > 0 {
      var O := (div - 1) * T;
      assert O + T == div * T;
      assert ByeDivs(r, T, m, div) == ByeDivs(r, T, m, div - 1) + ByeBlock(r, T, O, m);
      ByeDivsCover(r, T, m, div - 1, t);
      ByeBlockCover(r, T, O, m, t);
      CountAppend(ByeDivs(r, T, m, div - 1), ByeBlock(r, T, O, m), InvolvesP(t));
    }
  }

  /** On a coupled day every team of a division but its centre `O + s` is
      on the ring. */
  lemma CoupledBlockCover(r: nat, T: nat, O: nat, s: nat, t: nat)
    requires Odd(T) && s < T
    ensures Appearances(CoupledBlock(r, T, O, s), t) == if O <= t < O + T && t != O + s then 1 else 0
  {
    var ring := CoupledBlock(r, T, O, s);
    forall k | 0 <= k < |ring|
      ensures InvolvesP(t)(ring[k]) <==> (t - O != -1
        && (t - O == Back(s, k + 1, T) || t - O == Fwd(s, k + 1, T)))
    {
      PairShape(T, s, k + 1);
      InvolvesPairing(r, O + Back(s, k + 1, T), O + Fwd(s, k + 1, T), t);
    }
    RingCount(ring, InvolvesP(t), T, s, t - O, -1);
  }

  /** The shift of the counters, taken modulo T, as a step around the ring. */
  lemma ShiftIsFwd(a: nat, k: nat, T: nat)
    requires a < T && k < T
    ensures (a + k) % T == Fwd(a, k, T)
  {
    var q := Fwd(a, k, T);
    assert a + k == (if a + k < T then 0 else 1) * T + q;
    ModUnique(a + k, T, if a + k < T then 0 else 1, q);
  }

  /** The remainder is the only `q` in range with `x == d * T + q`. */
  lemma ModUnique(x: int, T: int, d: int, q: int)
    requires T > 0 && 0 <= q < T && x == d * T + q
    ensures x % T == q
  {
    var e := x / T - d;
    assert e * T == q - x % T;
    if e >= 1 {
      MulAtLeast(e, T);
    } else if e <= -1 {
      MulAtLeast(-e, T);
    }
  }

  lemma MulAtLeast(e: int, T: int)
    requires e >= 1 && T > 0
    ensures e * T >= T
  {
  }

  /** The cross-division game of team `a` with shift `k`. */
  lemma InvolvesCross(ir: nat, T: nat, a: nat, k: nat, t: nat)
    requires a < T && k < T
    ensures Involves(CrossGame(ir, T, a, k), t) <==> t == a || t == T + Fwd(a, k, T)
  {
    ShiftIsFwd(a, k, T);
  }

  /** The cross-division game counts once for each of its two teams. */
  lemma CrossCover(ir: nat, T: nat, a: nat, k: nat, t: nat)
    requires a < T && k < T
    ensures Appearances([CrossGame(ir, T, a, k)], t) == if t == a || t == T + Fwd(a, k, T) then 1 else 0
  {
    InvolvesCross(ir, T, a, k, t);
    CountSingle(CrossGame(ir, T, a, k), InvolvesP(t));
  }

  /** The two rings of a coupled day hold every team of both divisions
      but the two centres. */
  lemma CoupledDivsCover(r: nat, T: nat, a: nat, b: nat, t: nat)
    requires Odd(T) && a < T && b < T
    ensures Appearances(CoupledDivs(r, T, a, b, 2), t) == if t < 2 * T && t != a && t != T + b then 1 else 0
  {
    CoupledDivsParts(r, T, a, b, InvolvesP(t));
    CoupledBlockCover(r, T, 0, a, t);
    CoupledBlockCover(r, T, T, b, t);
  }

  /** On a coupled day the centres of the two rings, the would-be-bye
      teams, meet across divisions; so every team plays exactly once. */
  lemma CoupledDayCover(r: nat, T: nat, c: Counters, m: nat, t: nat)
    requires Odd(T) && 1 <= m <= T && c.interMatchIdx < T
    ensures Appearances(CoupledDay(r, T, c, m), t) == if t < 2 * T then 1 else 0
  {
    var a := m - 1;
    var b := Fwd(a, c.interMatchIdx, T);
    CoupledDayParts(r, T, c, m, InvolvesP(t));
    CrossCover(c.interRound, T, a, c.interMatchIdx, t);
    CoupledDivsCover(r, T, a, b, t);
    CoverSum(t, T, a, b,
      Appearances([CrossGame(c.interRound, T, a, c.interMatchIdx)], t),
      Appearances(CoupledDivs(r, T, a, b, 2), t));
  }

  /** The two rings of a coupled day, division by division. */
  lemma CoupledDivsParts(r: nat, T: nat, a: nat, b: nat, P: Game -> bool)
    requires Odd(T) && a < T && b < T
    ensures Count(CoupledDivs(r, T, a, b, 2), P)
      == Count(CoupledBlock(r, T, 0, a), P) + Count(CoupledBlock(r, T, T, b), P)
  {
    var b0 := CoupledBlock(r, T, 0, a);
    var b1 := CoupledBlock(r, T, T, b);
    assert CoupledDivs(r, T, a, b, 1) == b0;
    assert CoupledDivs(r, T, a, b, 2) == b0 + b1;
    CountAppend(b0, b1, P);
  }

  /** A coupled day is its cross-division game and its two rings. */
  lemma CoupledDayParts(r: nat, T: nat, c: Counters, m: nat, P: Game -> bool)
    requires Odd(T) && 1 <= m <= T && c.interMatchIdx < T
    ensures Count(CoupledDay(r, T, c, m), P)
      == Count([CrossGame(c.interRound, T, m - 1, c.interMatchIdx)], P)
       + Count(CoupledDivs(r, T, m - 1, Fwd(m - 1, c.interMatchIdx, T), 2), P)
  {
    ShiftIsFwd(m - 1, c.interMatchIdx, T);
    var cross := [CrossGame(c.interRound, T, m - 1, c.interMatchIdx)];
    var rings := CoupledDivs(r, T, m - 1, (m - 1 + c.interMatchIdx) % T, 2);
    if m == 1 {
      assert CoupledDay(r, T, c, m) == cross + rings;
      CountAppend(cross, rings, P);
    } else {
      assert CoupledDay(r, T, c, m) == rings + cross;
      CountAppend(rings, cross, P);
    }
  }

  lemma CoverSum(t: nat, T: nat, a: nat, b: nat, x: nat, y: nat)
    requires a < T && b < T
    requires x == if t == a || t == T + b then 1 else 0
    requires y == if t < 2 * T && t != a && t != T + b then 1 else 0
    ensures x + y == if t < 2 * T then 1 else 0
  {
  }

  /** On an inter-division day with shift `k`, team `a` of the first
      division plays game `a`, and team `T + y` of the second plays the
      game of the team `k` steps behind `y`. */
  lemma InterDayCover(ir: nat, T: nat, k: nat, t: nat)
    requires k < T
    ensures Appearances(InterDay(ir, T, k), t) == if t < 2 * T then 1 else 0
  {
    var day := InterDay(ir, T, k);
    forall i | 0 <= i < T
      ensures Involves(day[i], t) <==> t == i || t == T + Fwd(i, k, T)
    {
      InvolvesCross(ir, T, i, k, t);
    }
    if t < T {
      CountOne(day, InvolvesP(t), t);
    } else if t < 2 * T {
      var i := Back(t - T, k, T);
      forall j | 0 <= j < T && j != i
        ensures !InvolvesP(t)(day[j])
      {
      }
      CountOne(day, InvolvesP(t), i);
    } else {
      CountNone(day, InvolvesP(t));
    }
  }

  /** Teams `0 .. n - 1` each play exactly once on the day, and no other
      team appears. */
  ghost predicate EveryTeamOnce(day: Day, n: nat)
  {
    forall t: nat :: Appearances(day, t) == if t < n then 1 else 0
  }

  ghost predicate AllCovered(days: seq<Day>, n: nat)
  {
    forall i :: 0 <= i < |days| ==> EveryTeamOnce(days[i], n)
  }

  lemma AllCoveredAppend(s: seq<Day>, u: seq<Day>, n: nat)
    requires AllCovered(s, n) && AllCovered(u, n)
    ensures AllCovered(s + u, n)
  {
    forall i | 0 <= i < |s + u|
      ensures EveryTeamOnce((s + u)[i], n)
    {
      if i < |s| {
        assert (s + u)[i] == s[i];
      } else {
        assert (s + u)[i] == u[i - |s|];
      }
    }
  }

  lemma EvenRoundCover(r: nat, D: nat, T: nat)
    requires T % 2 == 0 && T >= 2
    ensures AllCovered(EvenRound(r, D, T), D * T)
  {
    forall i, t: nat | 0 <= i < T - 1
      ensures Appearances(EvenRound(r, D, T)[i], t) == if t < D * T then 1 else 0
    {
      EvenDivsCover(r, T, i + 1, D, t);
    }
  }

  lemma ByeRoundCover(r: nat, D: nat, T: nat)
    requires Odd(T)
    ensures AllCovered(ByeRound(r, D, T), D * T)
  {
    forall i, t: nat | 0 <= i < T
      ensures Appearances(ByeRound(r, D, T)[i], t) == if t < D * T then 1 else 0
    {
      ByeDivsCover(r, T, i + 1, D, t);
    }
  }

  lemma CoupledRoundCover(r: nat, T: nat, c: Counters)
    requires Odd(T) && c.interMatchIdx < T
    ensures AllCovered(CoupledRound(r, T, c), 2 * T)
  {
    forall i, t: nat | 0 <= i < T
      ensures Appearances(CoupledRound(r, T, c)[i], t) == if t < 2 * T then 1 else 0
    {
      CoupledDayCover(r, T, c, i + 1, t);
    }
  }

  /** Every day of one intra-division round, whichever kind it is. */
  lemma IntraRoundCover(p: Params, r: nat, c: Counters)
    requires Supported(p) && c.interMatchIdx < p.teamsPerDivision
    ensures AllCovered(IntraRound(p, r, c), p.numDivisions * p.teamsPerDivision)
  {
    var T := p.teamsPerDivision;
    if T % 2 == 0 {
      EvenRoundCover(r, p.numDivisions, T);
    } else if Coupled(p, c) {
      CoupledRoundCover(r, T, c);
    } else {
      ByeRoundCover(r, p.numDivisions, T);
    }
  }

  /** Every day of the first `k` intra-division rounds. */
  lemma {:induction false} IntraCover(p: Params, k: nat)
    requires Supported(p)
    ensures AllCovered(IntraRounds(p, k).0, p.numDivisions * p.teamsPerDivision)
  {
    if k > 0 {
      IntraCover(p, k - 1);
      var (days, c) := IntraRounds(p, k - 1);
      IntraRoundCover(p, k - 1, c);
      AllCoveredAppend(days, IntraRound(p, k - 1, c), p.numDivisions * p.teamsPerDivision);
    }
  }

  /** Every inter-division day still owed from counters `c`. */
  lemma {:induction false} InterCover(p: Params, c: Counters)
    requires Supported(p)
    ensures AllCovered(InterFrom(p, c), p.numDivisions * p.teamsPerDivision)
    decreases InterLimit(p) - c.interRound, p.teamsPerDivision - c.interMatchIdx
  {
    var T := p.teamsPerDivision;
    var n := p.numDivisions * T;
    if c.interRound >= InterLimit(p) {
    } else if c.interMatchIdx >= T {
      InterCover(p, Counters(c.interRound + 1, 0));
    } else {
      InterCover(p, Counters(c.interRound, c.interMatchIdx + 1));
      var day := InterDay(c.interRound, T, c.interMatchIdx);
      forall t: nat ensures Appearances(day, t) == if t < n then 1 else 0 {
        InterDayCover(c.interRound, T, c.interMatchIdx, t);
      }
      AllCoveredAppend([day], InterFrom(p, Counters(c.interRound, c.interMatchIdx + 1)), n);
    }
  }

  /** Every day of the schedule: each of the D * T teams plays exactly
      once, in a game or in its bye. */
  lemma BuiltCover(p: Params)
    requires Supported(p)
    ensures AllCovered(Built(p), p.numDivisions * p.teamsPerDivision)
  {
    var (days, c) := IntraRounds(p, p.gamesVsDivision);
    IntraCover(p, p.gamesVsDivision);
    InterCover(p, c);
    AllCoveredAppend(days, InterFrom(p, c), p.numDivisions * p.teamsPerDivision);
  }
}
