/** The order of the games within a day. The first game of a day is the
    first game of division 0: on an even day or a day with byes that is
    team 0's game against team `m` (or team 0's bye on the last day of a
    round with byes). On a coupled day the cross-division game comes first
    only on day 1; on the other days the day opens with the first game of
    division 0's ring, which holds team 0 only on days 2 and T. */
module Order {
  import opened Types
  import opened Ring
  import opened Stats
  import opened Days

  /** The first game of an even day is that of its first division. */
  lemma {:induction false} EvenDivsFront(r: nat, T: nat, m: nat, div: nat)
    requires T % 2 == 0 && 1 <= m < T && div >= 1
    ensures |EvenDivs(r, T, m, div)| > 0 && EvenDivs(r, T, m, div)[0] == Host(r, 0, m)
  {
    if div > 1 {
      EvenDivsFront(r, T, m, div - 1);
    }
  }

  /** On day `m` of an even round team 0 plays team `m`, in the first game. */
  lemma EvenDayFront(r: nat, D: nat, T: nat, j: nat)
    requires T % 2 == 0 && T >= 2 && D >= 1 && j < T - 1
    ensures var day := EvenRound(r, D, T)[j];
      |day| > 0 && Between(day[0], 0, j + 1)
  {
    EvenDivsFront(r, T, j + 1, D);
  }

  /** The first game of a day with byes is that of its first division. */
  lemma {:induction false} ByeDivsFront(r: nat, T: nat, m: nat, div: nat)
    requires Odd(T) && 1 <= m <= T && div >= 1
    ensures |ByeDivs(r, T, m, div)| > 0
    ensures ByeDivs(r, T, m, div)[0] == if m == T then Game(Team(0), Bye) else Host(r, 0, m)
  {
    if div > 1 {
      ByeDivsFront(r, T, m, div - 1);
    }
  }

  /** On day `m` of a round with byes team 0 plays team `m` in the first
      game, or takes its bye there on the last day. */
  lemma ByeDayFront(r: nat, D: nat, T: nat, j: nat)
    requires Odd(T) && D >= 1 && j < T
    ensures var day := ByeRound(r, D, T)[j];
      |day| > 0
      && (j + 1 < T ==> Between(day[0], 0, j + 1))
      && (j + 1 == T ==> IsByeOf(day[0], 0))
  {
    ByeDivsFront(r, T, j + 1, D);
  }

  /** The first game of division 0's ring on a coupled day centred at `a`
      pairs the teams one step behind and one step ahead of the centre. */
  lemma CoupledDivsFront(r: nat, T: nat, a: nat, b: nat)
    requires Odd(T) && T >= 3 && a < T && b < T
    ensures |CoupledDivs(r, T, a, b, 2)| > 0
    ensures CoupledDivs(r, T, a, b, 2)[0] == Pairing(r, Back(a, 1, T), Fwd(a, 1, T))
  {
    assert CoupledDivs(r, T, a, b, 2) == CoupledDivs(r, T, a, b, 1) + CoupledBlock(r, T, T, b);
    assert CoupledDivs(r, T, a, b, 1) == CoupledBlock(r, T, 0, a);
  }

  /** On a coupled day, team 0's game comes first exactly on days 1, 2
      and T: on day 1 it is the cross-division game, on days 2 and T the
      first game of the ring. On every other day (from T = 5 on) the day
      opens with a game of two other teams of division 0. */
  lemma CoupledDayFront(r: nat, T: nat, c: Counters, m: nat)
    requires Odd(T) && 1 <= m <= T
    ensures var day := CoupledDay(r, T, c, m);
      |day| > 0 && (Involves(day[0], 0) <==> m == 1 || m == 2 || m == T)
  {
    var a := m - 1;
    var b := (a + c.interMatchIdx) % T;
    if a != 0 {
      assert T >= 3;
      CoupledDivsFront(r, T, a, b);
      PairShape(T, a, 1);
      PairingFacts(r, Back(a, 1, T), Fwd(a, 1, T));
    }
  }

  /** From day 2 on, a coupled day opens with the first game of division
      0's ring: teams `m - 2` and `m mod T`, the neighbours of the centre
      `m - 1`, placed by the parity rule of the round. */
  lemma CoupledDayOpens(r: nat, T: nat, c: Counters, m: nat)
    requires Odd(T) && 2 <= m <= T
    ensures var day := CoupledDay(r, T, c, m);
      |day| > 0 && day[0] == Pairing(r, m - 2, if m < T then m else 0)
      && Between(day[0], m - 2, if m < T then m else 0)
  {
    var a := m - 1;
    CoupledDivsFront(r, T, a, (a + c.interMatchIdx) % T);
    PairingFacts(r, m - 2, if m < T then m else 0);
  }
}
