/** How often two teams meet in the rounds of an odd number of teams:
    once per round when they share a division, whether the round has
    byes or is coupled; across divisions, only on the day of a coupled
    round whose shift carries the one team onto the other, and never on
    a day with byes. */
module OddMeets {
  import opened Types
  import opened Ring
  import opened Stats
  import opened Days
  import opened Cover
  import opened Counts
  import opened Meets

  // ------------------------------------------------------- days with byes

  /** The day of a round with byes on which local teams `u` and `v` meet:
      day `v` when `u` is the division's first team, day `u` when `v` is,
      and otherwise the day whose ring centre is the Mid of their ring
      positions. */
  function ByeMeetDay(T: nat, u: nat, v: nat): (m: nat)
    requires Odd(T) && u < T && v < T && u != v
    ensures 1 <= m <= T
  {
    if u == 0 then v else if v == 0 then u else Mid(T, u - 1, v - 1) + 1
  }

  /** Game `k` of the ring of a division with byes is a game between the
      division's teams `u` and `v` exactly when it pairs their ring
      positions; a game with the phantom is a bye, never a meeting. */
  lemma ByeRingPairAt(r: nat, T: nat, O: nat, m: nat, k: nat, u: nat, v: nat)
    requires Odd(T) && 1 <= m <= T && k < Half(T) && u < T && v < T
    ensures Between(ByeRing(r, T, O, m)[k], O + u, O + v)
            <==> IsPair(Back(m - 1, k + 1, T), Fwd(m - 1, k + 1, T), u - 1, v - 1)
  {
    var p := Back(m - 1, k + 1, T);
    var q := Fwd(m - 1, k + 1, T);
    PairShape(T, m - 1, k + 1);
    if p != T - 1 && q != T - 1 {
      PairingBetween(r, O + 1 + p, O + 1 + q, O + u, O + v);
    }
  }

  lemma ByeRingPairs(r: nat, T: nat, O: nat, m: nat, u: nat, v: nat)
    requires Odd(T) && 1 <= m <= T && u < T && v < T
    ensures |ByeRing(r, T, O, m)| == Half(T)
    ensures PicksPair(ByeRing(r, T, O, m), BetweenP(O + u, O + v), T, m - 1, u - 1, v - 1)
  {
    forall k | 0 <= k < Half(T)
      ensures Between(ByeRing(r, T, O, m)[k], O + u, O + v)
              <==> IsPair(Back(m - 1, k + 1, T), Fwd(m - 1, k + 1, T), u - 1, v - 1)
    {
      ByeRingPairAt(r, T, O, m, k, u, v);
    }
  }

  /** On the ring of a division with byes, two teams other than the
      division's first meet on the day centred at the Mid of their ring
      positions. */
  lemma ByeRingMeet(r: nat, T: nat, O: nat, m: nat, u: nat, v: nat)
    requires Odd(T) && 1 <= m <= T && u < T && v < T && u != v
    ensures GamesBetween(ByeRing(r, T, O, m), O + u, O + v)
            == if 0 <= u - 1 < T && 0 <= v - 1 < T && m - 1 == Mid(T, u - 1, v - 1) then 1 else 0
  {
    ByeRingPairs(r, T, O, m, u, v);
    DayRingMeet(ByeRing(r, T, O, m), BetweenP(O + u, O + v), T, m, u, v);
  }

  /** The ring of a division with byes holds positions 0 .. T - 1 for the
      teams 1 .. T of the division, centred at day `m` minus one. */
  lemma DayRingMeet(s: seq<Game>, P: Game -> bool, T: nat, m: nat, u: nat, v: nat)
    requires Odd(T) && 1 <= m <= T && u != v && |s| == Half(T)
    requires PicksPair(s, P, T, m - 1, u - 1, v - 1)
    ensures Count(s, P) == if 0 <= u - 1 < T && 0 <= v - 1 < T && m - 1 == Mid(T, u - 1, v - 1) then 1 else 0
  {
    RingMeet(s, P, T, m - 1, u - 1, v - 1);
  }

  /** Exactly one of the first game and the ring pairs `u` and `v`, on
      day `ByeMeetDay`. */
  lemma ByeMeetDayIff(T: nat, m: nat, u: nat, v: nat)
    requires Odd(T) && 1 <= m <= T && u < T && v < T && u != v
    ensures (if m != T && IsPair(0, m, u, v) then 1 else 0)
          + (if 0 <= u - 1 < T && 0 <= v - 1 < T && m - 1 == Mid(T, u - 1, v - 1) then 1 else 0)
         == if m == ByeMeetDay(T, u, v) then 1 else 0
  {
  }

  /** Two teams of a division with byes meet on day `ByeMeetDay` only. */
  lemma ByeBlockMeet(r: nat, T: nat, O: nat, m: nat, u: nat, v: nat)
    requires Odd(T) && 1 <= m <= T && u < T && v < T && u != v
    ensures GamesBetween(ByeBlock(r, T, O, m), O + u, O + v) == if m == ByeMeetDay(T, u, v) then 1 else 0
  {
    var first := if m == T then Game(Team(O), Bye) else Host(r, O, O + m);
    FirstAndRest(first, ByeRing(r, T, O, m), O + u, O + v);
    HostBetween(r, O, O + m, O + u, O + v);
    ByeRingMeet(r, T, O, m, u, v);
    ByeMeetDayIff(T, m, u, v);
  }

  /** A day with byes so far is the earlier divisions and one more block. */
  lemma ByeDivsParts(r: nat, T: nat, m: nat, e: nat, P: Game -> bool)
    requires Odd(T) && 1 <= m <= T
    ensures Count(ByeDivs(r, T, m, e + 1), P)
         == Count(ByeDivs(r, T, m, e), P) + Count(ByeBlock(r, T, e * T, m), P)
  {
    assert ByeDivs(r, T, m, e + 1) == ByeDivs(r, T, m, e) + ByeBlock(r, T, e * T, m);
    CountAppend(ByeDivs(r, T, m, e), ByeBlock(r, T, e * T, m), P);
  }

  /** On a day with byes, a predicate that only games of team `t` of
      division `d` (whose first team is `O`) satisfy counts the same over
      the day as over the block of the team's division. */
  lemma {:induction false} ByeDivsFocus(r: nat, T: nat, m: nat, div: nat, d: nat, O: nat, t: nat, P: Game -> bool)
    requires Odd(T) && 1 <= m <= T && d < div && O == d * T && O <= t < O + T
    requires OnlyOf(P, t)
    ensures Count(ByeDivs(r, T, m, div), P) == Count(ByeBlock(r, T, O, m), P)
  {
    var e := div - 1;
    assert div == e + 1;
    if d == e {
      ByeDivsFocusLast(r, T, m, d, O, t, P);
    } else {
      ByeDivsFocus(r, T, m, e, d, O, t, P);
      ByeDivsFocusEarlier(r, T, m, e, d, O, t, P);
    }
  }

  /** The team's division is the last block of the day so far. */
  lemma ByeDivsFocusLast(r: nat, T: nat, m: nat, d: nat, O: nat, t: nat, P: Game -> bool)
    requires Odd(T) && 1 <= m <= T && O == d * T && O <= t < O + T
    requires OnlyOf(P, t)
    ensures Count(ByeDivs(r, T, m, d + 1), P) == Count(ByeBlock(r, T, O, m), P)
  {
    ByeDivsParts(r, T, m, d, P);
    ByeDivsCover(r, T, m, d, t);
    AbsentNone(ByeDivs(r, T, m, d), P, t);
  }

  /** A later division's block adds nothing. */
  lemma ByeDivsFocusEarlier(r: nat, T: nat, m: nat, e: nat, d: nat, O: nat, t: nat, P: Game -> bool)
    requires Odd(T) && 1 <= m <= T && d < e && O == d * T && O <= t < O + T
    requires OnlyOf(P, t)
    ensures Count(ByeDivs(r, T, m, e + 1), P) == Count(ByeDivs(r, T, m, e), P)
  {
    ByeDivsParts(r, T, m, e, P);
    BlockBelow(d, e, T, t - O);
    ByeBlockCover(r, T, e * T, m, t);
    AbsentNone(ByeBlock(r, T, e * T, m), P, t);
  }

  /** On a day with byes, two teams of one division meet only on day
      `ByeMeetDay`. */
  lemma ByeDivsMeet(r: nat, T: nat, m: nat, div: nat, d: nat, O: nat, u: nat, v: nat)
    requires Odd(T) && 1 <= m <= T && d < div && O == d * T && u < T && v < T && u != v
    ensures GamesBetween(ByeDivs(r, T, m, div), O + u, O + v)
            == if m == ByeMeetDay(T, u, v) then 1 else 0
  {
    BetweenOnlyOf(O + u, O + v);
    ByeDivsFocus(r, T, m, div, d, O, O + u, BetweenP(O + u, O + v));
    ByeBlockMeet(r, T, O, m, u, v);
  }

  /** Teams of different divisions never meet on a day with byes. */
  lemma ByeDivsCross(r: nat, T: nat, m: nat, a: nat, b: nat)
    requires Odd(T) && 1 <= m <= T && a < T && b < T
    ensures GamesBetween(ByeDivs(r, T, m, 2), a, T + b) == 0
  {
    BetweenOnlyOf(a, T + b);
    ByeDivsFocus(r, T, m, 2, 0, 0, a, BetweenP(a, T + b));
    ByeBlockCover(r, T, 0, m, T + b);
    AbsentNone(ByeBlock(r, T, 0, m), BetweenP(a, T + b), T + b);
  }

  /** A measure of day `j` of a round with byes is that of its closed form. */
  lemma ByeRoundDay(r: nat, D: nat, T: nat, j: nat, F: Day -> nat)
    requires Odd(T) && j < T
    ensures F(ByeRound(r, D, T)[j]) == F(ByeDivs(r, T, j + 1, D))
  {
    assert ByeRound(r, D, T)[j] == ByeDivs(r, T, j + 1, D);
  }

  /** Over a round with byes, two teams of one division meet exactly once. */
  lemma ByeRoundMeet(r: nat, D: nat, T: nat, d: nat, O: nat, u: nat, v: nat)
    requires Odd(T) && d < D && O == d * T && u < T && v < T && u != v
    ensures MeetCount(ByeRound(r, D, T), O + u, O + v) == 1
  {
    ByeRoundMeetDays(r, D, T, d, O, u, v);
    TotalIndicator(ByeRound(r, D, T), MeetsP(O + u, O + v), ByeMeetDay(T, u, v) - 1);
  }

  lemma ByeRoundMeetDays(r: nat, D: nat, T: nat, d: nat, O: nat, u: nat, v: nat)
    requires Odd(T) && d < D && O == d * T && u < T && v < T && u != v
    ensures var days := ByeRound(r, D, T);
      forall j :: 0 <= j < |days| ==>
        MeetsP(O + u, O + v)(days[j]) == if j == ByeMeetDay(T, u, v) - 1 then 1 else 0
  {
    forall j | 0 <= j < T
      ensures MeetsP(O + u, O + v)(ByeRound(r, D, T)[j])
              == if j == ByeMeetDay(T, u, v) - 1 then 1 else 0
    {
      ByeRoundDay(r, D, T, j, MeetsP(O + u, O + v));
      ByeDivsMeet(r, T, j + 1, D, d, O, u, v);
    }
  }

  /** Over a round with byes, teams of different divisions never meet. */
  lemma ByeRoundCross(r: nat, T: nat, a: nat, b: nat)
    requires Odd(T) && a < T && b < T
    ensures MeetCount(ByeRound(r, 2, T), a, T + b) == 0
  {
    forall j | 0 <= j < T
      ensures MeetsP(a, T + b)(ByeRound(r, 2, T)[j]) == 0
    {
      ByeRoundDay(r, 2, T, j, MeetsP(a, T + b));
      ByeDivsCross(r, T, j + 1, a, b);
    }
    TotalConstant(ByeRound(r, 2, T), MeetsP(a, T + b), 0);
  }

  // --------------------------------------------------------- coupled days

  /** The cross-division game of team `a` with shift `k` is a game between
      `x` of the first division and `T + y` of the second exactly when `x`
      is `a` and `y` is `k` steps ahead of it. */
  lemma CrossBetween(ir: nat, T: nat, a: nat, k: nat, x: nat, y: nat)
    requires a < T && k < T && x < T
    ensures Between(CrossGame(ir, T, a, k), x, T + y) <==> x == a && y == Fwd(a, k, T)
  {
    ShiftIsFwd(a, k, T);
    HostBetween(ir, a, (a + k) % T + T, x, T + y);
  }

  /** A cross-division game is never between two teams of one division. */
  lemma CrossNotSame(ir: nat, T: nat, a: nat, k: nat, O: nat, u: nat, v: nat)
    requires a < T && k < T && (O == 0 || O == T) && u < T && v < T && u != v
    ensures !Between(CrossGame(ir, T, a, k), O + u, O + v)
  {
    ShiftIsFwd(a, k, T);
    HostBetween(ir, a, (a + k) % T + T, O + u, O + v);
  }

  /** Game `k` of the ring of a coupled day centred at `s` is a game
      between the division's teams `u` and `v` exactly when it pairs them. */
  lemma CoupledBlockPairAt(r: nat, T: nat, O: nat, s: nat, k: nat, u: nat, v: nat)
    requires Odd(T) && s < T && k < Half(T)
    ensures Between(CoupledBlock(r, T, O, s)[k], O + u, O + v)
            <==> IsPair(Back(s, k + 1, T), Fwd(s, k + 1, T), u, v)
  {
    PairShape(T, s, k + 1);
    PairingBetween(r, O + Back(s, k + 1, T), O + Fwd(s, k + 1, T), O + u, O + v);
  }

  lemma CoupledBlockPairs(r: nat, T: nat, O: nat, s: nat, u: nat, v: nat)
    requires Odd(T) && s < T
    ensures |CoupledBlock(r, T, O, s)| == Half(T)
    ensures PicksPair(CoupledBlock(r, T, O, s), BetweenP(O + u, O + v), T, s, u, v)
  {
    forall k | 0 <= k < Half(T)
      ensures Between(CoupledBlock(r, T, O, s)[k], O + u, O + v)
              <==> IsPair(Back(s, k + 1, T), Fwd(s, k + 1, T), u, v)
    {
      CoupledBlockPairAt(r, T, O, s, k, u, v);
    }
  }

  /** A ring of T positions centred at `c` pairs `u` and `v` once when
      `c` is their Mid. */
  lemma CentredRingMeet(s: seq<Game>, P: Game -> bool, T: nat, c: nat, u: nat, v: nat)
    requires Odd(T) && c < T && u < T && v < T && u != v && |s| == Half(T)
    requires PicksPair(s, P, T, c, u, v)
    ensures Count(s, P) == if c == Mid(T, u, v) then 1 else 0
  {
    RingMeet(s, P, T, c, u, v);
  }

  /** On a coupled day, two teams of a division meet when the division's
      ring is centred at the Mid of the two. */
  lemma CoupledBlockMeet(r: nat, T: nat, O: nat, s: nat, u: nat, v: nat)
    requires Odd(T) && s < T && u < T && v < T && u != v
    ensures GamesBetween(CoupledBlock(r, T, O, s), O + u, O + v) == if s == Mid(T, u, v) then 1 else 0
  {
    CoupledBlockPairs(r, T, O, s, u, v);
    CentredRingMeet(CoupledBlock(r, T, O, s), BetweenP(O + u, O + v), T, s, u, v);
  }

  /** The centre of the ring of division `d` on coupled day `m` with
      shift `k`: the team that plays across divisions. */
  function Centre(T: nat, k: nat, d: nat, m: nat): (s: nat)
    requires Odd(T) && k < T && 1 <= m <= T
    ensures s < T
  {
    if d == 0 then m - 1 else Fwd(m - 1, k, T)
  }

  /** On a coupled day only the first division's ring holds games of
      its teams. */
  lemma CoupledDivsFirst(r: nat, T: nat, a: nat, b: nat, u: nat, v: nat)
    requires Odd(T) && a < T && b < T && u < T
    ensures GamesBetween(CoupledDivs(r, T, a, b, 2), u, v) == GamesBetween(CoupledBlock(r, T, 0, a), u, v)
  {
    var P := BetweenP(u, v);
    CoupledDivsParts(r, T, a, b, P);
    BetweenOnlyOf(u, v);
    CoupledBlockCover(r, T, T, b, u);
    AbsentNone(CoupledBlock(r, T, T, b), P, u);
  }

  /** The same for the second division. */
  lemma CoupledDivsSecond(r: nat, T: nat, a: nat, b: nat, u: nat, v: nat)
    requires Odd(T) && a < T && b < T
    ensures GamesBetween(CoupledDivs(r, T, a, b, 2), T + u, T + v)
         == GamesBetween(CoupledBlock(r, T, T, b), T + u, T + v)
  {
    var P := BetweenP(T + u, T + v);
    CoupledDivsParts(r, T, a, b, P);
    BetweenOnlyOf(T + u, T + v);
    CoupledBlockCover(r, T, 0, a, T + u);
    AbsentNone(CoupledBlock(r, T, 0, a), P, T + u);
  }

  /** The two rings of a coupled day hold no game across divisions. */
  lemma CoupledDivsCross(r: nat, T: nat, a: nat, b: nat, x: nat, y: nat)
    requires Odd(T) && a < T && b < T && x < T
    ensures GamesBetween(CoupledDivs(r, T, a, b, 2), x, T + y) == 0
  {
    CoupledDivsFirst(r, T, a, b, x, T + y);
    BetweenOnlyOf(x, T + y);
    CoupledBlockCover(r, T, 0, a, T + y);
    AbsentNone(CoupledBlock(r, T, 0, a), BetweenP(x, T + y), T + y);
  }

  /** Two teams of division `d` meet on a coupled day exactly when the
      division's ring is centred at their Mid. */
  lemma CoupledDayMeet(r: nat, T: nat, c: Counters, m: nat, d: nat, O: nat, u: nat, v: nat)
    requires Odd(T) && 1 <= m <= T && c.interMatchIdx < T
    requires (d == 0 && O == 0) || (d == 1 && O == T)
    requires u < T && v < T && u != v
    ensures GamesBetween(CoupledDay(r, T, c, m), O + u, O + v)
            == if Centre(T, c.interMatchIdx, d, m) == Mid(T, u, v) then 1 else 0
  {
    var k := c.interMatchIdx;
    var a := m - 1;
    var b := Fwd(a, k, T);
    var s := Centre(T, k, d, m);
    CoupledDayRings(r, T, c, m, O, u, v);
    if d == 0 {
      assert s == a;
      CoupledDivsFirst(r, T, a, b, u, v);
    } else {
      assert s == b;
      CoupledDivsSecond(r, T, a, b, u, v);
    }
    CoupledBlockMeet(r, T, O, s, u, v);
  }

  /** Two teams of one division can only meet in the rings of a coupled
      day, not in its cross-division game. */
  lemma CoupledDayRings(r: nat, T: nat, c: Counters, m: nat, O: nat, u: nat, v: nat)
    requires Odd(T) && 1 <= m <= T && c.interMatchIdx < T
    requires (O == 0 || O == T) && u < T && v < T && u != v
    ensures GamesBetween(CoupledDay(r, T, c, m), O + u, O + v)
         == GamesBetween(CoupledDivs(r, T, m - 1, Fwd(m - 1, c.interMatchIdx, T), 2), O + u, O + v)
  {
    var P := BetweenP(O + u, O + v);
    CoupledDayParts(r, T, c, m, P);
    CrossNotSame(c.interRound, T, m - 1, c.interMatchIdx, O, u, v);
    CountSingle(CrossGame(c.interRound, T, m - 1, c.interMatchIdx), P);
  }

  /** Across divisions, a coupled day has one meeting: the game of the
      first division's centre with the second division's. */
  lemma CoupledDayCross(r: nat, T: nat, c: Counters, m: nat, x: nat, y: nat)
    requires Odd(T) && 1 <= m <= T && c.interMatchIdx < T && x < T && y < T
    ensures GamesBetween(CoupledDay(r, T, c, m), x, T + y)
            == if x == m - 1 && y == Fwd(m - 1, c.interMatchIdx, T) then 1 else 0
  {
    var k := c.interMatchIdx;
    var a := m - 1;
    var b := Fwd(a, k, T);
    var P := BetweenP(x, T + y);
    CoupledDayParts(r, T, c, m, P);
    CrossBetween(c.interRound, T, a, k, x, y);
    CountSingle(CrossGame(c.interRound, T, a, k), P);
    CoupledDivsCross(r, T, a, b, x, y);
  }

  /** Stepping `k` ahead of `j` reaches `z` exactly when `j` is `k` steps
      behind `z`. */
  lemma FwdBack(j: nat, k: nat, z: nat, T: nat)
    requires j < T && k < T && z < T
    ensures Fwd(j, k, T) == z <==> j == Back(z, k, T)
  {
  }

  /** The day of a coupled round on which two teams of division `d` meet. */
  function CoupledMeetDay(T: nat, k: nat, d: nat, u: nat, v: nat): (m: nat)
    requires Odd(T) && k < T && u < T && v < T
    ensures 1 <= m <= T
  {
    if d == 0 then Mid(T, u, v) + 1 else Back(Mid(T, u, v), k, T) + 1
  }

  lemma CoupledRoundDay(r: nat, T: nat, c: Counters, j: nat, F: Day -> nat)
    requires Odd(T) && j < T
    ensures F(CoupledRound(r, T, c)[j]) == F(CoupledDay(r, T, c, j + 1))
  {
    assert CoupledRound(r, T, c)[j] == CoupledDay(r, T, c, j + 1);
  }

  /** Over a coupled round, two teams of one division meet exactly once. */
  lemma CoupledRoundMeet(r: nat, T: nat, c: Counters, d: nat, O: nat, u: nat, v: nat)
    requires Odd(T) && c.interMatchIdx < T && ((d == 0 && O == 0) || (d == 1 && O == T))
    requires u < T && v < T && u != v
    ensures MeetCount(CoupledRound(r, T, c), O + u, O + v) == 1
  {
    var k := c.interMatchIdx;
    var F := MeetsP(O + u, O + v);
    forall j | 0 <= j < T
      ensures F(CoupledRound(r, T, c)[j]) == if j == CoupledMeetDay(T, k, d, u, v) - 1 then 1 else 0
    {
      CoupledRoundDay(r, T, c, j, F);
      CoupledDayMeet(r, T, c, j + 1, d, O, u, v);
      FwdBack(j, k, Mid(T, u, v), T);
    }
    TotalIndicator(CoupledRound(r, T, c), F, CoupledMeetDay(T, k, d, u, v) - 1);
  }

  /** Over a coupled round with shift `k`, team `x` of the first division
      meets team `T + y` of the second once when `k` carries `x` onto `y`,
      that is when `k` is the distance from `x` forward to `y`. */
  lemma CoupledRoundCross(r: nat, T: nat, c: Counters, x: nat, y: nat)
    requires Odd(T) && c.interMatchIdx < T && x < T && y < T
    ensures MeetCount(CoupledRound(r, T, c), x, T + y) == if c.interMatchIdx == Back(y, x, T) then 1 else 0
  {
    var k := c.interMatchIdx;
    var F := MeetsP(x, T + y);
    var hit := if Fwd(x, k, T) == y then x else -1;
    forall j | 0 <= j < T
      ensures F(CoupledRound(r, T, c)[j]) == if j == hit then 1 else 0
    {
      CoupledRoundDay(r, T, c, j, F);
      CoupledDayCross(r, T, c, j + 1, x, y);
    }
    TotalIndicator(CoupledRound(r, T, c), F, hit);
    FwdBack(k, x, y, T);
  }

  // ---------------------------------------------------- inter-division days

  /** Teams of one division never meet on an inter-division day. */
  lemma InterDayMeet(ir: nat, T: nat, k: nat, O: nat, u: nat, v: nat)
    requires k < T && (O == 0 || O == T) && u < T && v < T && u != v
    ensures GamesBetween(InterDay(ir, T, k), O + u, O + v) == 0
  {
    forall i | 0 <= i < T
      ensures !BetweenP(O + u, O + v)(InterDay(ir, T, k)[i])
    {
      CrossNotSame(ir, T, i, k, O, u, v);
    }
    CountNone(InterDay(ir, T, k), BetweenP(O + u, O + v));
  }

  /** On the inter-division day with shift `k`, team `x` meets `T + y`
      once when `k` is the distance from `x` forward to `y`. */
  lemma InterDayCross(ir: nat, T: nat, k: nat, x: nat, y: nat)
    requires k < T && x < T && y < T
    ensures GamesBetween(InterDay(ir, T, k), x, T + y) == if k == Back(y, x, T) then 1 else 0
  {
    var day := InterDay(ir, T, k);
    var P := BetweenP(x, T + y);
    forall i | 0 <= i < T
      ensures P(day[i]) <==> i == x && y == Fwd(x, k, T)
    {
      CrossBetween(ir, T, i, k, x, y);
    }
    FwdBack(k, x, y, T);
    if y == Fwd(x, k, T) {
      CountOne(day, P, x);
    } else {
      CountNone(day, P);
    }
  }
}
