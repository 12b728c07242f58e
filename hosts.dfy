/** Home and away. Every game stores a team in its away slot; a game
    between two teams follows the parity rule of its round: the intra-
    division round `r` for the games inside a division, the inter-division
    round for a game across divisions. Raising the round by one swaps the
    two sides of every game between two teams and leaves bye games alone,
    so two consecutive rounds give every team as many home as away games. */
module Hosts {
  import opened Types
  import opened Ring
  import opened Stats
  import opened Days
  import opened Counts

  /** The away slot holds a team, and a game between two teams follows
      the parity rule of round `r`. */
  predicate Follows(g: Game, r: nat)
  {
    g.away.Team? && ParityRule(r, g)
  }

  predicate AllFollow(s: seq<Game>, r: nat)
  {
    forall i :: 0 <= i < |s| ==> Follows(s[i], r)
  }

  lemma AllFollowAppend(s: seq<Game>, u: seq<Game>, r: nat)
    requires AllFollow(s, r) && AllFollow(u, r)
    ensures AllFollow(s + u, r)
  {
    forall i | 0 <= i < |s + u|
      ensures Follows((s + u)[i], r)
    {
      if i >= |s| {
        assert (s + u)[i] == u[i - |s|];
      }
    }
  }

  lemma HostFollows(r: nat, a: nat, b: nat)
    requires a < b
    ensures Follows(Host(r, a, b), r)
  {
  }

  lemma PairingFollows(r: nat, a: nat, b: nat)
    requires a != b
    ensures Follows(Pairing(r, a, b), r)
  {
    PairingFacts(r, a, b);
  }

  /** A game of a ring with byes: a pairing, or a team and BYE. */
  lemma RingGameFollows(r: nat, T: nat, O: nat, l1: nat, l2: nat)
    requires l1 != l2
    ensures Follows(RingGame(r, T, O, l1, l2), r)
  {
    if l1 != T && l2 != T {
      PairingFollows(r, O + l1, O + l2);
    }
  }

  // --------------------------------------------------------- the rule

  lemma EvenBlockFollows(r: nat, T: nat, O: nat, m: nat)
    requires T % 2 == 0 && 1 <= m < T
    ensures AllFollow(EvenBlock(r, T, O, m), r)
  {
    var ring := EvenRing(r, T, O, m);
    forall k | 0 <= k < |ring|
      ensures Follows(ring[k], r)
    {
      PairShape(T - 1, m - 1, k + 1);
      PairingFollows(r, O + 1 + Back(m - 1, k + 1, T - 1), O + 1 + Fwd(m - 1, k + 1, T - 1));
    }
    HostFollows(r, O, O + m);
    AllFollowAppend([Host(r, O, O + m)], ring, r);
  }

  /** Every game of an even day follows the rule of its round. */
  lemma {:induction false} EvenDivsFollow(r: nat, T: nat, m: nat, div: nat)
    requires T % 2 == 0 && 1 <= m < T
    ensures AllFollow(EvenDivs(r, T, m, div), r)
  {
    if div > 0 {
      var e := div - 1;
      var O := e * T;
      EvenDivsFollow(r, T, m, e);
      EvenBlockFollows(r, T, O, m);
      assert EvenDivs(r, T, m, div) == EvenDivs(r, T, m, e) + EvenBlock(r, T, O, m);
      AllFollowAppend(EvenDivs(r, T, m, e), EvenBlock(r, T, O, m), r);
    }
  }

  /** The bye games store the team away and BYE at home. */
  lemma ByeBlockFollows(r: nat, T: nat, O: nat, m: nat)
    requires Odd(T) && 1 <= m <= T
    ensures AllFollow(ByeBlock(r, T, O, m), r)
  {
    var ring := ByeRing(r, T, O, m);
    forall k | 0 <= k < |ring|
      ensures Follows(ring[k], r)
    {
      PairShape(T, m - 1, k + 1);
      RingGameFollows(r, T, O, 1 + Back(m - 1, k + 1, T), 1 + Fwd(m - 1, k + 1, T));
    }
    var first := if m == T then Game(Team(O), Bye) else Host(r, O, O + m);
    HostFollows(r, O, O + m);
    AllFollowAppend([first], ring, r);
  }

  /** Every game of a day with byes follows the rule of its round; the
      bye games store the team away and BYE at home. */
  lemma {:induction false} ByeDivsFollow(r: nat, T: nat, m: nat, div: nat)
    requires Odd(T) && 1 <= m <= T
    ensures AllFollow(ByeDivs(r, T, m, div), r)
  {
    if div > 0 {
      var e := div - 1;
      var O := e * T;
      ByeDivsFollow(r, T, m, e);
      ByeBlockFollows(r, T, O, m);
      assert ByeDivs(r, T, m, div) == ByeDivs(r, T, m, e) + ByeBlock(r, T, O, m);
      AllFollowAppend(ByeDivs(r, T, m, e), ByeBlock(r, T, O, m), r);
    }
  }

  lemma CoupledBlockFollows(r: nat, T: nat, O: nat, s: nat)
    requires Odd(T) && s < T
    ensures AllFollow(CoupledBlock(r, T, O, s), r)
  {
    var ring := CoupledBlock(r, T, O, s);
    forall k | 0 <= k < |ring|
      ensures Follows(ring[k], r)
    {
      PairShape(T, s, k + 1);
      PairingFollows(r, O + Back(s, k + 1, T), O + Fwd(s, k + 1, T));
    }
  }

  /** The games inside the divisions of a coupled day follow the rule of
      the intra-division round. */
  lemma {:induction false} CoupledDivsFollow(r: nat, T: nat, a: nat, b: nat, div: nat)
    requires Odd(T) && a < T && b < T
    ensures AllFollow(CoupledDivs(r, T, a, b, div), r)
  {
    if div > 0 {
      var e := div - 1;
      var O := e * T;
      var s := if div == 1 then a else b;
      CoupledDivsFollow(r, T, a, b, e);
      CoupledBlockFollows(r, T, O, s);
      assert CoupledDivs(r, T, a, b, div) == CoupledDivs(r, T, a, b, e) + CoupledBlock(r, T, O, s);
      AllFollowAppend(CoupledDivs(r, T, a, b, e), CoupledBlock(r, T, O, s), r);
    }
  }

  /** A game across divisions follows the rule of the inter-division round. */
  lemma CrossFollows(ir: nat, T: nat, a: nat, k: nat)
    requires a < T
    ensures Follows(CrossGame(ir, T, a, k), ir)
  {
    HostFollows(ir, a, (a + k) % T + T);
  }

  /** Where the cross-division game of coupled day `m` sits: first on
      day 1, when it is team 0's, last otherwise. */
  function CrossIndex(T: nat, m: nat): (i: nat)
    requires T >= 1
    ensures i < T
  {
    if m == 1 then 0 else T - 1
  }

  /** A game in front of games of another round. */
  lemma FrontFollows(x: Game, s: seq<Game>, rx: nat, r: nat)
    requires Follows(x, rx) && AllFollow(s, r)
    ensures forall i :: 0 <= i < |[x] + s| ==> Follows(([x] + s)[i], if i == 0 then rx else r)
  {
    forall i | 0 < i < |[x] + s|
      ensures Follows(([x] + s)[i], r)
    {
      assert ([x] + s)[i] == s[i - 1];
    }
  }

  /** A game behind games of another round. */
  lemma BackFollows(s: seq<Game>, x: Game, rx: nat, r: nat)
    requires Follows(x, rx) && AllFollow(s, r)
    ensures forall i :: 0 <= i < |s + [x]| ==> Follows((s + [x])[i], if i == |s| then rx else r)
  {
    forall i | 0 <= i < |s|
      ensures Follows((s + [x])[i], r)
    {
      assert (s + [x])[i] == s[i];
    }
  }

  /** A coupled day has T games, and the cross-division game sits at
      `CrossIndex`. */
  lemma CoupledDayShape(r: nat, T: nat, c: Counters, m: nat)
    requires Odd(T) && 1 <= m <= T
    ensures var day := CoupledDay(r, T, c, m);
      |day| == T && day[CrossIndex(T, m)] == CrossGame(c.interRound, T, m - 1, c.interMatchIdx)
  {
    CoupledDayLength(r, T, c, m);
  }

  /** The cross-division game of a coupled day follows the rule of the
      inter-division round; every other game follows the rule of the
      intra-division round. */
  lemma CoupledDayFollows(r: nat, T: nat, c: Counters, m: nat)
    requires Odd(T) && 1 <= m <= T
    ensures var day := CoupledDay(r, T, c, m);
      forall i :: 0 <= i < |day| ==>
        Follows(day[i], if i == CrossIndex(T, m) then c.interRound else r)
  {
    var a := m - 1;
    var b := (a + c.interMatchIdx) % T;
    var rings := CoupledDivs(r, T, a, b, 2);
    var cross := CrossGame(c.interRound, T, a, c.interMatchIdx);
    CoupledDivsLength(r, T, a, b, 2);
    assert |rings| == T - 1;
    CoupledDivsFollow(r, T, a, b, 2);
    CrossFollows(c.interRound, T, a, c.interMatchIdx);
    if a == 0 {
      FrontFollows(cross, rings, c.interRound, r);
    } else {
      BackFollows(rings, cross, c.interRound, r);
    }
  }

  /** Every game of an inter-division day follows the rule of its round. */
  lemma InterDayFollows(ir: nat, T: nat, k: nat)
    requires T > 0
    ensures AllFollow(InterDay(ir, T, k), ir)
  {
    forall i | 0 <= i < T
      ensures Follows(InterDay(ir, T, k)[i], ir)
    {
      CrossFollows(ir, T, i, k);
    }
  }

  /** Every game of an even round follows the rule of the round. */
  lemma EvenRoundFollows(r: nat, D: nat, T: nat)
    requires T % 2 == 0 && T >= 2
    ensures var days := EvenRound(r, D, T);
      forall j :: 0 <= j < |days| ==> AllFollow(days[j], r)
  {
    forall j | 0 <= j < T - 1
      ensures AllFollow(EvenRound(r, D, T)[j], r)
    {
      EvenDivsFollow(r, T, j + 1, D);
    }
  }

  /** Every game of a round with byes follows the rule of the round. */
  lemma ByeRoundFollows(r: nat, D: nat, T: nat)
    requires Odd(T)
    ensures var days := ByeRound(r, D, T);
      forall j :: 0 <= j < |days| ==> AllFollow(days[j], r)
  {
    forall j | 0 <= j < T
      ensures AllFollow(ByeRound(r, D, T)[j], r)
    {
      ByeDivsFollow(r, T, j + 1, D);
    }
  }

  /** In a coupled round, the cross-division game of every day follows
      the rule of the inter-division round, every other game the rule of
      the intra-division round. */
  lemma CoupledRoundFollows(r: nat, T: nat, c: Counters)
    requires Odd(T)
    ensures var days := CoupledRound(r, T, c);
      forall j, i :: 0 <= j < |days| && 0 <= i < |days[j]| ==>
        Follows(days[j][i], if i == CrossIndex(T, j + 1) then c.interRound else r)
  {
    forall j | 0 <= j < T
      ensures var day := CoupledRound(r, T, c)[j];
        forall i :: 0 <= i < |day| ==> Follows(day[i], if i == CrossIndex(T, j + 1) then c.interRound else r)
    {
      CoupledDayFollows(r, T, c, j + 1);
    }
  }

  // --------------------------------------------------------- the flip

  /** The game with its two sides exchanged; a bye game stays as it is. */
  function Swap(g: Game): Game
  {
    if g.home == Bye then g else Game(g.home, g.away)
  }

  /** Every game of `s` swapped. */
  function Flipped(s: seq<Game>): (f: seq<Game>)
    ensures |f| == |s|
  {
    seq(|s|, i requires 0 <= i < |s| => Swap(s[i]))
  }

  /** Every day of `days` flipped. */
  function FlipDays(days: seq<Day>): (f: seq<Day>)
    ensures |f| == |days|
  {
    seq(|days|, j requires 0 <= j < |days| => Flipped(days[j]))
  }

  lemma FlippedAppend(s: seq<Game>, u: seq<Game>)
    ensures Flipped(s + u) == Flipped(s) + Flipped(u)
  {
    assert forall i :: 0 <= i < |s + u| ==> Flipped(s + u)[i] == (Flipped(s) + Flipped(u))[i];
  }

  /** One round later the rule picks the other side. */
  lemma HostFlip(r: nat, a: nat, b: nat)
    ensures Host(r + 1, a, b) == Swap(Host(r, a, b))
  {
  }

  lemma PairingFlip(r: nat, a: nat, b: nat)
    ensures Pairing(r + 1, a, b) == Swap(Pairing(r, a, b))
  {
  }

  lemma RingGameFlip(r: nat, T: nat, O: nat, l1: nat, l2: nat)
    ensures RingGame(r + 1, T, O, l1, l2) == Swap(RingGame(r, T, O, l1, l2))
  {
  }

  lemma EvenBlockFlip(r: nat, T: nat, O: nat, m: nat)
    requires T % 2 == 0 && 1 <= m < T
    ensures EvenBlock(r + 1, T, O, m) == Flipped(EvenBlock(r, T, O, m))
  {
    var ring := EvenRing(r, T, O, m);
    forall k | 0 <= k < |ring|
      ensures EvenRing(r + 1, T, O, m)[k] == Flipped(ring)[k]
    {
      PairingFlip(r, O + 1 + Back(m - 1, k + 1, T - 1), O + 1 + Fwd(m - 1, k + 1, T - 1));
    }
    assert EvenRing(r + 1, T, O, m) == Flipped(ring);
    HostFlip(r, O, O + m);
    FlippedAppend([Host(r, O, O + m)], ring);
  }

  /** An even day of round `r + 1` is the same day of round `r` with every
      game's sides exchanged. */
  lemma {:induction false} EvenDivsFlip(r: nat, T: nat, m: nat, div: nat)
    requires T % 2 == 0 && 1 <= m < T
    ensures EvenDivs(r + 1, T, m, div) == Flipped(EvenDivs(r, T, m, div))
  {
    if div > 0 {
      var e := div - 1;
      var O := e * T;
      EvenDivsFlip(r, T, m, e);
      EvenBlockFlip(r, T, O, m);
      assert EvenDivs(r + 1, T, m, div) == EvenDivs(r + 1, T, m, e) + EvenBlock(r + 1, T, O, m);
      assert EvenDivs(r, T, m, div) == EvenDivs(r, T, m, e) + EvenBlock(r, T, O, m);
      FlippedAppend(EvenDivs(r, T, m, e), EvenBlock(r, T, O, m));
    }
  }

  lemma ByeRingFlip(r: nat, T: nat, O: nat, m: nat)
    requires Odd(T) && 1 <= m <= T
    ensures ByeRing(r + 1, T, O, m) == Flipped(ByeRing(r, T, O, m))
  {
    var ring := ByeRing(r, T, O, m);
    forall k | 0 <= k < |ring|
      ensures ByeRing(r + 1, T, O, m)[k] == Flipped(ring)[k]
    {
      RingGameFlip(r, T, O, 1 + Back(m - 1, k + 1, T), 1 + Fwd(m - 1, k + 1, T));
    }
  }

  lemma ByeBlockFlip(r: nat, T: nat, O: nat, m: nat)
    requires Odd(T) && 1 <= m <= T
    ensures ByeBlock(r + 1, T, O, m) == Flipped(ByeBlock(r, T, O, m))
  {
    var ring := ByeRing(r, T, O, m);
    ByeRingFlip(r, T, O, m);
    var first := if m == T then Game(Team(O), Bye) else Host(r, O, O + m);
    var next := if m == T then Game(Team(O), Bye) else Host(r + 1, O, O + m);
    HostFlip(r, O, O + m);
    assert next == Swap(first);
    assert ByeBlock(r + 1, T, O, m) == [next] + Flipped(ring);
    FlippedAppend([first], ring);
    assert Flipped([first]) == [next];
  }

  /** A day with byes of round `r + 1` is the same day of round `r` with
      every game between two teams swapped and the bye games unchanged. */
  lemma {:induction false} ByeDivsFlip(r: nat, T: nat, m: nat, div: nat)
    requires Odd(T) && 1 <= m <= T
    ensures ByeDivs(r + 1, T, m, div) == Flipped(ByeDivs(r, T, m, div))
  {
    if div > 0 {
      var e := div - 1;
      var O := e * T;
      ByeDivsFlip(r, T, m, e);
      ByeBlockFlip(r, T, O, m);
      assert ByeDivs(r + 1, T, m, div) == ByeDivs(r + 1, T, m, e) + ByeBlock(r + 1, T, O, m);
      assert ByeDivs(r, T, m, div) == ByeDivs(r, T, m, e) + ByeBlock(r, T, O, m);
      FlippedAppend(ByeDivs(r, T, m, e), ByeBlock(r, T, O, m));
    }
  }

  /** Round `r + 1` of an even T is round `r` flipped, day by day. */
  lemma EvenRoundFlip(r: nat, D: nat, T: nat)
    requires T % 2 == 0 && T >= 2
    ensures EvenRound(r + 1, D, T) == FlipDays(EvenRound(r, D, T))
  {
    forall j | 0 <= j < T - 1
      ensures EvenRound(r + 1, D, T)[j] == FlipDays(EvenRound(r, D, T))[j]
    {
      EvenDivsFlip(r, T, j + 1, D);
    }
  }

  /** Round `r + 1` with byes is round `r` with byes flipped, day by day. */
  lemma ByeRoundFlip(r: nat, D: nat, T: nat)
    requires Odd(T)
    ensures ByeRound(r + 1, D, T) == FlipDays(ByeRound(r, D, T))
  {
    forall j | 0 <= j < T
      ensures ByeRound(r + 1, D, T)[j] == FlipDays(ByeRound(r, D, T))[j]
    {
      ByeDivsFlip(r, T, j + 1, D);
    }
  }

  /** Inter-division round `ir + 1` swaps every game of round `ir`. */
  lemma InterDayFlip(ir: nat, T: nat, k: nat)
    requires T > 0
    ensures InterDay(ir + 1, T, k) == Flipped(InterDay(ir, T, k))
  {
    forall i | 0 <= i < T
      ensures InterDay(ir + 1, T, k)[i] == Flipped(InterDay(ir, T, k))[i]
    {
      HostFlip(ir, i, (i + k) % T + T);
    }
  }

  // --------------------------------------------------------- the balance

  /** A flipped day has a team at home as often as the day has it away. */
  lemma {:induction false} FlippedHomes(s: seq<Game>, t: nat)
    ensures Count(Flipped(s), HomeP(t)) == Count(s, AwayP(t))
  {
    if s != [] {
      FlippedHomes(s[1..], t);
      assert Flipped(s)[1..] == Flipped(s[1..]);
    }
  }

  lemma {:induction false} FlipDaysHomes(days: seq<Day>, t: nat)
    ensures HomeCount(FlipDays(days), t) == AwayCount(days, t)
  {
    if days != [] {
      FlipDaysHomes(days[1..], t);
      assert FlipDays(days)[1..] == FlipDays(days[1..]);
      FlippedHomes(days[0], t);
    }
  }

  lemma {:induction false} FlippedAways(s: seq<Game>, t: nat)
    ensures Count(Flipped(s), AwayP(t)) == Count(s, HomeP(t))
  {
    if s != [] {
      FlippedAways(s[1..], t);
      assert Flipped(s)[1..] == Flipped(s[1..]);
    }
  }

  lemma {:induction false} FlipDaysAways(days: seq<Day>, t: nat)
    ensures AwayCount(FlipDays(days), t) == HomeCount(days, t)
  {
    if days != [] {
      FlipDaysAways(days[1..], t);
      assert FlipDays(days)[1..] == FlipDays(days[1..]);
      FlippedAways(days[0], t);
    }
  }

  /** Days followed by the same days flipped: every team is at home as
      often as away. */
  lemma Balanced(days: seq<Day>, t: nat)
    ensures HomeCount(days + FlipDays(days), t) == AwayCount(days + FlipDays(days), t)
  {
    TotalAppend(days, FlipDays(days), HomesP(t));
    TotalAppend(days, FlipDays(days), AwaysP(t));
    FlipDaysHomes(days, t);
    FlipDaysAways(days, t);
  }

  /** Two consecutive even rounds give every team as many home games as
      away games. */
  lemma EvenRoundsBalanced(r: nat, D: nat, T: nat, t: nat)
    requires T % 2 == 0 && T >= 2
    ensures var days := EvenRound(r, D, T) + EvenRound(r + 1, D, T);
      HomeCount(days, t) == AwayCount(days, t)
  {
    EvenRoundFlip(r, D, T);
    Balanced(EvenRound(r, D, T), t);
  }

  /** Two consecutive rounds with byes give every team as many home games
      as away games. */
  lemma ByeRoundsBalanced(r: nat, D: nat, T: nat, t: nat)
    requires Odd(T)
    ensures var days := ByeRound(r, D, T) + ByeRound(r + 1, D, T);
      HomeCount(days, t) == AwayCount(days, t)
  {
    ByeRoundFlip(r, D, T);
    Balanced(ByeRound(r, D, T), t);
  }
}
