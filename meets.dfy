/** How often two teams meet: the half-crosstable `print_stats` fills.
    Two teams of one division meet once per intra-division round; a team
    of division 0 and a team of division 1 meet once per inter-division
    round, whether their game falls on a coupled day or on an
    inter-division day. */
module Meets {
  import opened Types
  import opened Ring
  import opened Stats
  import opened Days
  import opened Cover
  import opened Counts

  /** A game between `p` and `q` is a game between `x` and `y` exactly
      when the two pairs agree. */
  lemma BetweenGame(g: Game, p: nat, q: nat, x: nat, y: nat)
    requires Between(g, p, q)
    ensures Between(g, x, y) <==> IsPair(p, q, x, y)
  {
  }

  /** Counting a weaker predicate never gives less. */
  lemma {:induction false} CountMono(s: seq<Game>, P: Game -> bool, Q: Game -> bool)
    requires forall k :: 0 <= k < |s| && P(s[k]) ==> Q(s[k])
    ensures Count(s, P) <= Count(s, Q)
  {
    if s != [] {
      CountMono(s[1..], P, Q);
    }
  }

  /** No game of `s` satisfies a predicate that only games of team `t`
      can satisfy, when `t` is not in `s`. */
  lemma AbsentNone(s: seq<Game>, P: Game -> bool, t: nat)
    requires Appearances(s, t) == 0 && OnlyOf(P, t)
    ensures Count(s, P) == 0
  {
    CountMono(s, P, InvolvesP(t));
  }

  /** Only games of team `t` satisfy `P`. */
  ghost predicate OnlyOf(P: Game -> bool, t: nat)
  {
    forall g :: P(g) ==> Involves(g, t)
  }

  /** A game between `x` and `y` is a game of `x` and a game of `y`. */
  lemma BetweenOnlyOf(x: nat, y: nat)
    ensures OnlyOf(BetweenP(x, y), x) && OnlyOf(BetweenP(x, y), y)
  {
  }

  /** `P` holds of game `k` of ring `s` exactly when that game pairs the
      positions `x` and `y`. */
  ghost predicate PicksPair(s: seq<Game>, P: Game -> bool, n: int, c: int, x: int, y: int)
    requires Odd(n) && 0 <= c < n && |s| == Half(n)
  {
    forall k :: 0 <= k < |s| ==> (P(s[k]) <==> IsPair(Back(c, k + 1, n), Fwd(c, k + 1, n), x, y))
  }

  /** A ring in which `P` picks out the game pairing positions `x` and
      `y`: one game on the day centred at their Mid, none otherwise. */
  lemma RingMeet(s: seq<Game>, P: Game -> bool, n: int, c: int, x: int, y: int)
    requires Odd(n) && 0 <= c < n && |s| == Half(n) && x != y
    requires PicksPair(s, P, n, c, x, y)
    ensures Count(s, P) == if 0 <= x < n && 0 <= y < n && c == Mid(n, x, y) then 1 else 0
  {
    if 0 <= x < n && 0 <= y < n && c == Mid(n, x, y) {
      RingMeetOnce(s, P, n, c, x, y);
    } else {
      RingMeetNever(s, P, n, c, x, y);
    }
  }

  lemma RingMeetOnce(s: seq<Game>, P: Game -> bool, n: int, c: int, x: int, y: int)
    requires Odd(n) && 0 <= c < n && |s| == Half(n) && x != y
    requires PicksPair(s, P, n, c, x, y)
    requires 0 <= x < n && 0 <= y < n && c == Mid(n, x, y)
    ensures Count(s, P) == 1
  {
    PairedAtMid(n, x, y);
    var i := PairIndex(n, c, x);
    forall k | 0 <= k < |s| && k != i - 1
      ensures !P(s[k])
    {
      PairsDisjoint(n, c, i, k + 1);
    }
    CountOne(s, P, i - 1);
  }

  lemma RingMeetNever(s: seq<Game>, P: Game -> bool, n: int, c: int, x: int, y: int)
    requires Odd(n) && 0 <= c < n && |s| == Half(n) && x != y
    requires PicksPair(s, P, n, c, x, y)
    requires !(0 <= x < n && 0 <= y < n && c == Mid(n, x, y))
    ensures Count(s, P) == 0
  {
    forall k | 0 <= k < |s|
      ensures !P(s[k])
    {
      if 0 <= x < n && 0 <= y < n && IsPair(Back(c, k + 1, n), Fwd(c, k + 1, n), x, y) {
        PairedOnlyAtMid(n, c, k + 1, x, y);
      }
    }
    CountNone(s, P);
  }

  lemma HostBetween(r: nat, a: nat, b: nat, x: nat, y: nat)
    ensures Between(Host(r, a, b), x, y) <==> IsPair(a, b, x, y)
  {
  }

  /** A team of division `d` comes before every team of a later division. */
  lemma BlockBelow(d: nat, e: nat, T: nat, u: nat)
    requires d < e && u < T
    ensures d * T + u < e * T
  {
    MulMono(d + 1, e, T);
    assert d * T + T == (d + 1) * T;
  }

  // ---------------------------------------------------------------- even T

  /** The day of an even round on which local teams `u` and `v` meet:
      day `v` when `u` is the fixed team 0, day `u` when `v` is, and
      otherwise the day whose ring centre is the Mid of their positions. */
  function EvenMeetDay(T: nat, u: nat, v: nat): (m: nat)
    requires T % 2 == 0 && u < T && v < T && u != v
    ensures 1 <= m < T
  {
    if u == 0 then v else if v == 0 then u else Mid(T - 1, u - 1, v - 1) + 1
  }

  /** The rule's game between two different teams is a game between
      `x` and `y` exactly when the two pairs agree. */
  lemma PairingBetween(r: nat, p: nat, q: nat, x: nat, y: nat)
    requires p != q
    ensures Between(Pairing(r, p, q), x, y) <==> IsPair(p, q, x, y)
  {
    PairingFacts(r, p, q);
    BetweenGame(Pairing(r, p, q), p, q, x, y);
  }

  lemma EvenRingPairAt(r: nat, T: nat, O: nat, m: nat, k: nat, u: nat, v: nat)
    requires T % 2 == 0 && 1 <= m < T && k < T / 2 - 1
    ensures Between(EvenRing(r, T, O, m)[k], O + u, O + v)
            <==> IsPair(Back(m - 1, k + 1, T - 1), Fwd(m - 1, k + 1, T - 1), u - 1, v - 1)
  {
    var p := O + 1 + Back(m - 1, k + 1, T - 1);
    var q := O + 1 + Fwd(m - 1, k + 1, T - 1);
    PairShape(T - 1, m - 1, k + 1);
    PairingBetween(r, p, q, O + u, O + v);
  }

  lemma EvenRingPairs(r: nat, T: nat, O: nat, m: nat, u: nat, v: nat)
    requires T % 2 == 0 && 1 <= m < T
    ensures PicksPair(EvenRing(r, T, O, m), BetweenP(O + u, O + v), T - 1, m - 1, u - 1, v - 1)
  {
    forall k | 0 <= k < T / 2 - 1
      ensures Between(EvenRing(r, T, O, m)[k], O + u, O + v)
              <==> IsPair(Back(m - 1, k + 1, T - 1), Fwd(m - 1, k + 1, T - 1), u - 1, v - 1)
    {
      EvenRingPairAt(r, T, O, m, k, u, v);
    }
  }

  /** On the ring of an even division, two teams other than the fixed team
      meet on the day centred at the Mid of their ring positions. */
  lemma EvenRingMeet(r: nat, T: nat, O: nat, m: nat, u: nat, v: nat)
    requires T % 2 == 0 && 1 <= m < T && u != v
    ensures GamesBetween(EvenRing(r, T, O, m), O + u, O + v)
            == if 0 <= u - 1 < T - 1 && 0 <= v - 1 < T - 1 && m - 1 == Mid(T - 1, u - 1, v - 1) then 1 else 0
  {
    EvenRingLength(r, T, O, m);
    EvenRingPairs(r, T, O, m, u, v);
    ShiftedRingMeet(EvenRing(r, T, O, m), BetweenP(O + u, O + v), T, m, u, v);
  }

  /** The ring of an even division holds positions 0 .. T - 2 for the
      teams 1 .. T - 1 of the division. */
  lemma ShiftedRingMeet(s: seq<Game>, P: Game -> bool, T: nat, m: nat, u: nat, v: nat)
    requires T % 2 == 0 && 1 <= m < T && u != v && Odd(T - 1) && |s| == Half(T - 1)
    requires PicksPair(s, P, T - 1, m - 1, u - 1, v - 1)
    ensures Count(s, P) == if 0 <= u - 1 < T - 1 && 0 <= v - 1 < T - 1 && m - 1 == Mid(T - 1, u - 1, v - 1) then 1 else 0
  {
    RingMeet(s, P, T - 1, m - 1, u - 1, v - 1);
  }

  lemma EvenRingLength(r: nat, T: nat, O: nat, m: nat)
    requires T % 2 == 0 && 1 <= m < T
    ensures Odd(T - 1) && |EvenRing(r, T, O, m)| == Half(T - 1)
  {
  }

  /** The first game of a block, and the rest. */
  lemma FirstAndRest(first: Game, rest: seq<Game>, x: nat, y: nat)
    ensures GamesBetween([first] + rest, x, y)
            == (if Between(first, x, y) then 1 else 0) + GamesBetween(rest, x, y)
  {
    CountAppend([first], rest, BetweenP(x, y));
    CountSingle(first, BetweenP(x, y));
  }

  /** Exactly one of the first game and the ring pairs `u` and `v`, on
      day `EvenMeetDay`. */
  lemma EvenMeetDayIff(T: nat, m: nat, u: nat, v: nat)
    requires T % 2 == 0 && 1 <= m < T && u < T && v < T && u != v
    ensures (if IsPair(0, m, u, v) then 1 else 0)
          + (if 0 <= u - 1 < T - 1 && 0 <= v - 1 < T - 1 && m - 1 == Mid(T - 1, u - 1, v - 1) then 1 else 0)
         == if m == EvenMeetDay(T, u, v) then 1 else 0
  {
  }

  /** Two teams of an even division meet on day `EvenMeetDay` only. */
  lemma EvenBlockMeet(r: nat, T: nat, O: nat, m: nat, u: nat, v: nat)
    requires T % 2 == 0 && 1 <= m < T && u < T && v < T && u != v
    ensures GamesBetween(EvenBlock(r, T, O, m), O + u, O + v) == if m == EvenMeetDay(T, u, v) then 1 else 0
  {
    FirstAndRest(Host(r, O, O + m), EvenRing(r, T, O, m), O + u, O + v);
    HostBetween(r, O, O + m, O + u, O + v);
    EvenRingMeet(r, T, O, m, u, v);
    EvenMeetDayIff(T, m, u, v);
  }

  /** An even day so far is the earlier divisions and one more block. */
  lemma EvenDivsParts(r: nat, T: nat, m: nat, e: nat, P: Game -> bool)
    requires T % 2 == 0 && 1 <= m < T
    ensures Count(EvenDivs(r, T, m, e + 1), P)
         == Count(EvenDivs(r, T, m, e), P) + Count(EvenBlock(r, T, e * T, m), P)
  {
    assert EvenDivs(r, T, m, e + 1) == EvenDivs(r, T, m, e) + EvenBlock(r, T, e * T, m);
    CountAppend(EvenDivs(r, T, m, e), EvenBlock(r, T, e * T, m), P);
  }

  /** On an even day, a predicate that only games of team `t` of
      division `d` (whose first team is `O`) satisfy counts the same over
      the day as over the block of the team's division. */
  lemma {:induction false} EvenDivsFocus(r: nat, T: nat, m: nat, div: nat, d: nat, O: nat, t: nat, P: Game -> bool)
    requires T % 2 == 0 && 1 <= m < T && d < div && O == d * T && O <= t < O + T
    requires OnlyOf(P, t)
    ensures Count(EvenDivs(r, T, m, div), P) == Count(EvenBlock(r, T, O, m), P)
  {
    var e := div - 1;
    assert div == e + 1;
    if d == e {
      EvenDivsFocusLast(r, T, m, d, O, t, P);
    } else {
      EvenDivsFocus(r, T, m, e, d, O, t, P);
      EvenDivsFocusEarlier(r, T, m, e, d, O, t, P);
    }
  }

  /** The team's division is the last block of the day so far. */
  lemma EvenDivsFocusLast(r: nat, T: nat, m: nat, d: nat, O: nat, t: nat, P: Game -> bool)
    requires T % 2 == 0 && 1 <= m < T && O == d * T && O <= t < O + T
    requires OnlyOf(P, t)
    ensures Count(EvenDivs(r, T, m, d + 1), P) == Count(EvenBlock(r, T, O, m), P)
  {
    EvenDivsParts(r, T, m, d, P);
    EvenDivsCover(r, T, m, d, t);
    AbsentNone(EvenDivs(r, T, m, d), P, t);
  }

  /** A later division's block adds nothing. */
  lemma EvenDivsFocusEarlier(r: nat, T: nat, m: nat, e: nat, d: nat, O: nat, t: nat, P: Game -> bool)
    requires T % 2 == 0 && 1 <= m < T && d < e && O == d * T && O <= t < O + T
    requires OnlyOf(P, t)
    ensures Count(EvenDivs(r, T, m, e + 1), P) == Count(EvenDivs(r, T, m, e), P)
  {
    EvenDivsParts(r, T, m, e, P);
    BlockBelow(d, e, T, t - O);
    EvenBlockCover(r, T, e * T, m, t);
    AbsentNone(EvenBlock(r, T, e * T, m), P, t);
  }

  /** On an even day, two teams of one division meet only on day
      `EvenMeetDay`. */
  lemma EvenDivsMeet(r: nat, T: nat, m: nat, div: nat, d: nat, O: nat, u: nat, v: nat)
    requires T % 2 == 0 && 1 <= m < T && d < div && O == d * T && u < T && v < T && u != v
    ensures GamesBetween(EvenDivs(r, T, m, div), O + u, O + v)
            == if m == EvenMeetDay(T, u, v) then 1 else 0
  {
    BetweenOnlyOf(O + u, O + v);
    EvenDivsFocus(r, T, m, div, d, O, O + u, BetweenP(O + u, O + v));
    EvenBlockMeet(r, T, O, m, u, v);
  }

  /** Teams of different divisions never meet on an even day. */
  lemma EvenDivsCross(r: nat, T: nat, m: nat, a: nat, b: nat)
    requires T % 2 == 0 && 1 <= m < T && a < T && b < T
    ensures GamesBetween(EvenDivs(r, T, m, 2), a, T + b) == 0
  {
    BetweenOnlyOf(a, T + b);
    EvenDivsFocus(r, T, m, 2, 0, 0, a, BetweenP(a, T + b));
    EvenBlockCover(r, T, 0, m, T + b);
    AbsentNone(EvenBlock(r, T, 0, m), BetweenP(a, T + b), T + b);
  }

  /** A measure of day `j` of an even round is that of its closed form. */
  lemma EvenRoundDay(r: nat, D: nat, T: nat, j: nat, F: Day -> nat)
    requires T % 2 == 0 && T >= 2 && j < T - 1
    ensures F(EvenRound(r, D, T)[j]) == F(EvenDivs(r, T, j + 1, D))
  {
    assert EvenRound(r, D, T)[j] == EvenDivs(r, T, j + 1, D);
  }

  /** Over an even round, two teams of one division meet exactly once. */
  lemma EvenRoundMeet(r: nat, D: nat, T: nat, d: nat, O: nat, u: nat, v: nat)
    requires T % 2 == 0 && T >= 2 && d < D && O == d * T && u < T && v < T && u != v
    ensures MeetCount(EvenRound(r, D, T), O + u, O + v) == 1
  {
    EvenRoundMeetDays(r, D, T, d, O, u, v);
    TotalIndicator(EvenRound(r, D, T), MeetsP(O + u, O + v), EvenMeetDay(T, u, v) - 1);
  }

  lemma EvenRoundMeetDays(r: nat, D: nat, T: nat, d: nat, O: nat, u: nat, v: nat)
    requires T % 2 == 0 && T >= 2 && d < D && O == d * T && u < T && v < T && u != v
    ensures var days := EvenRound(r, D, T);
      forall j :: 0 <= j < |days| ==>
        MeetsP(O + u, O + v)(days[j]) == if j == EvenMeetDay(T, u, v) - 1 then 1 else 0
  {
    forall j | 0 <= j < T - 1
      ensures MeetsP(O + u, O + v)(EvenRound(r, D, T)[j])
              == if j == EvenMeetDay(T, u, v) - 1 then 1 else 0
    {
      EvenRoundDay(r, D, T, j, MeetsP(O + u, O + v));
      EvenDivsMeet(r, T, j + 1, D, d, O, u, v);
    }
  }

  lemma EvenRoundCross(r: nat, T: nat, a: nat, b: nat)
    requires T % 2 == 0 && T >= 2 && a < T && b < T
    ensures MeetCount(EvenRound(r, 2, T), a, T + b) == 0
  {
    EvenRoundCrossDays(r, T, a, b);
    TotalConstant(EvenRound(r, 2, T), MeetsP(a, T + b), 0);
  }

  lemma EvenRoundCrossDays(r: nat, T: nat, a: nat, b: nat)
    requires T % 2 == 0 && T >= 2 && a < T && b < T
    ensures var days := EvenRound(r, 2, T);
      forall j :: 0 <= j < |days| ==> MeetsP(a, T + b)(days[j]) == 0
  {
    forall j | 0 <= j < T - 1
      ensures MeetsP(a, T + b)(EvenRound(r, 2, T)[j]) == 0
    {
      EvenRoundDay(r, 2, T, j, MeetsP(a, T + b));
      EvenDivsCross(r, T, j + 1, a, b);
    }
  }
}
