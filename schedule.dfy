/** The schedule object: the constructor builds the days, writing each
    day's games in place division by division and game by game, exactly as
    the closed form in module Days lists them, then shuffles the days and
    stores them in the object, which never changes them afterwards. */
module Schedule {
  import opened Types
  import opened Ring
  import opened Days
  import opened Counts

  /** src/schedule.cpp lines 77-84: move `team1` one step back and `team2`
      one step forward around the ring of an even division, which holds
      teams `offset + 1 .. offset + T - 1`. */
  method StepEvenTeams(team1: int, team2: int, offset: nat, T: nat, ghost c: int, ghost i: int)
    returns (next1: int, next2: int)
    requires T % 2 == 0 && 0 <= c < T - 1 && 1 <= i < T - 1
    requires team1 == offset + 1 + Back(c, i - 1, T - 1)
    requires team2 == offset + 1 + Fwd(c, i - 1, T - 1)
    ensures next1 == offset + 1 + Back(c, i, T - 1)
    ensures next2 == offset + 1 + Fwd(c, i, T - 1)
  {
    next1 := team1 - 1;
    if next1 <= offset {
      next1 := offset + T - 1;
    }
    next2 := team2 + 1;
    if next2 >= offset + T {
      next2 := offset + 1;
    }
  }

  /** src/schedule.cpp lines 73-93: starting from `team1 = team2 =
      offset + matchIdx`, step `team1` back and `team2` forward around the
      ring of teams `offset + 1 .. offset + T - 1`, writing one game per
      step from slot `gameNum0` on. */
  method EvenRingLoop(a: array<Game>, gameNum0: nat, round: nat, T: nat, offset: nat, matchIdx: nat)
    returns (gameNum: nat)
    requires T % 2 == 0 && 1 <= matchIdx < T
    requires gameNum0 + T / 2 - 1 <= a.Length
    modifies a
    ensures gameNum == gameNum0 + T / 2 - 1
    ensures forall j :: gameNum0 <= j < gameNum ==> a[j] == EvenRing(round, T, offset, matchIdx)[j - gameNum0]
    ensures forall j :: 0 <= j < a.Length && !(gameNum0 <= j < gameNum) ==> a[j] == old(a[j])
  {
    ghost var ring := EvenRing(round, T, offset, matchIdx);
    var team1: int := offset + matchIdx;
    var team2: int := offset + matchIdx;
    gameNum := gameNum0;
    var i := 1;
    while i < T / 2
      invariant 1 <= i <= T / 2
      invariant gameNum == gameNum0 + i - 1
      invariant team1 == offset + 1 + Back(matchIdx - 1, i - 1, T - 1)
      invariant team2 == offset + 1 + Fwd(matchIdx - 1, i - 1, T - 1)
      invariant forall j :: gameNum0 <= j < gameNum ==> a[j] == ring[j - gameNum0]
      invariant forall j :: 0 <= j < a.Length && !(gameNum0 <= j < gameNum) ==> a[j] == old(a[j])
    {
      team1, team2 := StepEvenTeams(team1, team2, offset, T, matchIdx - 1, i);
      var flag := (round + team1 + team2) % 2;
      a[gameNum] := Place(flag, if team1 < team2 then team1 else team2, if team1 < team2 then team2 else team1);
      assert a[gameNum] == Pairing(round, team1, team2);
      gameNum := gameNum + 1;
      i := i + 1;
    }
  }

  /** The ring part of a division on a day of an odd round, in either
      mode, as the closed form lists it: its game `k` is the one of the
      positions `k + 1` steps behind and ahead of the centre. With byes
      the ring holds teams `offset + 1 .. offset + T`; on a coupled day it
      holds `offset .. offset + T - 1`. */
  ghost function OddRing(round: nat, T: nat, offset: nat, start: int, doByes: bool): (ring: seq<Game>)
    requires Odd(T)
    requires doByes ==> offset + 1 <= start <= offset + T
    requires !doByes ==> offset <= start < offset + T
    ensures |ring| == Half(T)
  {
    if doByes then ByeRing(round, T, offset, start - offset) else CoupledBlock(round, T, offset, start - offset)
  }

  /** Game `i - 1` of the ring is the one of the positions `i` steps
      behind and ahead of the centre `c`. */
  lemma OddRingAt(round: nat, T: nat, offset: nat, start: int, doByes: bool, c: int, i: nat)
    requires Odd(T) && 1 <= i <= Half(T)
    requires doByes ==> offset + 1 <= start <= offset + T
    requires !doByes ==> offset <= start < offset + T
    requires c == start - offset - (if doByes then 1 else 0)
    ensures var lo := if doByes then 1 else 0;
      OddRing(round, T, offset, start, doByes)[i - 1] == RingGame(round, T, offset, lo + Back(c, i, T), lo + Fwd(c, i, T))
  {
  }

  /** src/schedule.cpp lines 184-192: move `team1` one step back and `team2` one step
      forward around the ring of an odd division. */
  method StepOddTeams(team1: int, team2: int, offset: nat, T: nat, doByes: bool, ghost c: int, ghost i: int)
    returns (next1: int, next2: int)
    requires Odd(T) && 0 <= c < T && 1 <= i < T
    requires team1 == offset + (if doByes then 1 else 0) + Back(c, i - 1, T)
    requires team2 == offset + (if doByes then 1 else 0) + Fwd(c, i - 1, T)
    ensures next1 == offset + (if doByes then 1 else 0) + Back(c, i, T)
    ensures next2 == offset + (if doByes then 1 else 0) + Fwd(c, i, T)
  {
    var byeTeam := offset + T;
    next1 := team1 - 1;
    if (next1 <= offset && doByes) || next1 < offset {
      next1 := byeTeam - (if doByes then 0 else 1);
    }
    next2 := team2 + 1;
    if (next2 >= byeTeam && !doByes) || next2 > byeTeam {
      next2 := offset + (if doByes then 1 else 0);
    }
  }

  /** src/schedule.cpp lines 194-207: store the game between `team1` and `team2`, or the
      bye of the real one when the other is the phantom team `offset + T`. */
  method SetOddGame(a: array<Game>, gameNum: nat, round: nat, T: nat, offset: nat, team1: nat, team2: nat)
    requires gameNum < a.Length && team1 >= offset && team2 >= offset
    modifies a
    ensures a[gameNum] == RingGame(round, T, offset, team1 - offset, team2 - offset)
    ensures forall j :: 0 <= j < a.Length && j != gameNum ==> a[j] == old(a[j])
  {
    var byeTeam := offset + T;
    if team1 == byeTeam {
      a[gameNum] := Game(Team(team2), Bye);
    } else if team2 == byeTeam {
      a[gameNum] := Game(Team(team1), Bye);
    } else {
      var flag := (round + team1 + team2) % 2;
      a[gameNum] := Place(flag, if team1 < team2 then team1 else team2, if team1 < team2 then team2 else team1);
    }
  }

  /** One pass of the ring loop: step both teams and store their game,
      which is game `i - 1` of the ring. */
  method OddRingStep(a: array<Game>, gameNum: nat, round: nat, T: nat, offset: nat, start: int, doByes: bool,
                     team1: int, team2: int, ghost c: int, ghost i: int)
    returns (next1: int, next2: int)
    requires Odd(T) && 1 <= i <= Half(T) && gameNum < a.Length
    requires doByes ==> offset + 1 <= start <= offset + T
    requires !doByes ==> offset <= start < offset + T
    requires c == start - offset - (if doByes then 1 else 0)
    requires team1 == offset + (if doByes then 1 else 0) + Back(c, i - 1, T)
    requires team2 == offset + (if doByes then 1 else 0) + Fwd(c, i - 1, T)
    modifies a
    ensures next1 == offset + (if doByes then 1 else 0) + Back(c, i, T)
    ensures next2 == offset + (if doByes then 1 else 0) + Fwd(c, i, T)
    ensures a[gameNum] == OddRing(round, T, offset, start, doByes)[i - 1]
    ensures forall j :: 0 <= j < a.Length && j != gameNum ==> a[j] == old(a[j])
  {
    next1, next2 := StepOddTeams(team1, team2, offset, T, doByes, c, i);
    SetOddGame(a, gameNum, round, T, offset, next1, next2);
    OddRingAt(round, T, offset, start, doByes, c, i);
  }

  /** src/schedule.cpp lines 180-209: starting from `team1 = team2 = start`,
      step around the ring of the division. With byes the ring holds teams
      `O + 1 .. O + T`, the last being the phantom bye team; on a coupled
      day it holds the real teams `O .. O + T - 1`. */
  method OddRingLoop(a: array<Game>, gameNum0: nat, round: nat, T: nat, offset: nat, start: int, doByes: bool)
    returns (gameNum: nat)
    requires Odd(T)
    requires doByes ==> offset + 1 <= start <= offset + T
    requires !doByes ==> offset <= start < offset + T
    requires gameNum0 + Half(T) <= a.Length
    modifies a
    ensures gameNum == gameNum0 + Half(T)
    ensures forall j :: gameNum0 <= j < gameNum ==> a[j] == OddRing(round, T, offset, start, doByes)[j - gameNum0]
    ensures forall j :: 0 <= j < a.Length && !(gameNum0 <= j < gameNum) ==> a[j] == old(a[j])
  {
    ghost var ring := OddRing(round, T, offset, start, doByes);
    ghost var lo := if doByes then 1 else 0;
    ghost var c := start - offset - lo;
    var team1: int := start;
    var team2: int := start;
    gameNum := gameNum0;
    var i := 1;
    while i < (T + 1) / 2
      invariant 1 <= i <= (T + 1) / 2
      invariant gameNum == gameNum0 + i - 1
      invariant team1 == offset + lo + Back(c, i - 1, T)
      invariant team2 == offset + lo + Fwd(c, i - 1, T)
      invariant forall j :: gameNum0 <= j < gameNum ==> a[j] == ring[j - gameNum0]
      invariant forall j :: 0 <= j < a.Length && !(gameNum0 <= j < gameNum) ==> a[j] == old(a[j])
    {
      team1, team2 := OddRingStep(a, gameNum, round, T, offset, start, doByes, team1, team2, c, i);
      gameNum := gameNum + 1;
      i := i + 1;
    }
  }

  /** With T even, the T * D / 2 games of a day are T / 2 per division. */
  lemma EvenDaySize(T: nat, D: nat)
    requires T % 2 == 0
    ensures T * D / 2 == D * (T / 2)
  {
    var h := T / 2;
    assert T * D == 2 * (h * D);
  }

  /** One more block of `h` slots still fits when `div < D`. */
  lemma BlockFits(div: nat, D: nat, h: nat)
    requires div < D
    ensures div * h + h <= D * h
  {
    assert (div + 1) * h <= D * h;
  }

  /** One more division on an even day: its first game and its ring
      follow the blocks of the divisions before it. */
  lemma EvenDivsStep(games: array<Game>, g0: nat, round: nat, T: nat, m: nat, div: nat, offset: nat)
    requires T % 2 == 0 && 1 <= m < T && offset == div * T
    requires g0 == div * (T / 2) && g0 + T / 2 <= games.Length
    requires |EvenDivs(round, T, m, div)| == g0
    requires forall j :: 0 <= j < g0 ==> games[j] == EvenDivs(round, T, m, div)[j]
    requires games[g0] == Host(round, offset, offset + m)
    requires forall j :: g0 + 1 <= j < g0 + T / 2 ==> games[j] == EvenRing(round, T, offset, m)[j - (g0 + 1)]
    ensures |EvenDivs(round, T, m, div + 1)| == g0 + T / 2
    ensures forall j :: 0 <= j < g0 + T / 2 ==> games[j] == EvenDivs(round, T, m, div + 1)[j]
  {
    var prev := EvenDivs(round, T, m, div);
    var block := EvenBlock(round, T, offset, m);
    assert EvenDivs(round, T, m, div + 1) == prev + block;
    forall j | 0 <= j < g0 + T / 2
      ensures games[j] == (prev + block)[j]
    {
      if j > g0 {
        assert (prev + block)[j] == block[j - g0];
      }
    }
  }

  /** src/schedule.cpp lines 52-95: the games of day `matchIdx` of an even
      round, division after division, each division's first game being the
      one of its team `offset`. Every slot of the day is overwritten. */
  method FillEvenDay(a: array<Game>, round: nat, T: nat, D: nat, matchIdx: nat)
    requires T % 2 == 0 && 1 <= matchIdx < T
    requires a.Length == D * (T / 2)
    modifies a
    ensures a[..] == EvenDivs(round, T, matchIdx, D)
  {
    var gameNum: nat := 0;
    var div: nat := 0;
    while div < D
      invariant div <= D
      invariant gameNum == div * (T / 2)
      invariant |EvenDivs(round, T, matchIdx, div)| == gameNum
      invariant forall j :: 0 <= j < gameNum ==> a[j] == EvenDivs(round, T, matchIdx, div)[j]
    {
      BlockFits(div, D, T / 2);
      var offset := div * T;
      var team1 := offset;
      var team2 := offset + matchIdx;
      var flag := (round + team1 + team2) % 2;
      ghost var g0 := gameNum;
      a[gameNum] := Place(flag, team1, team2);
      gameNum := gameNum + 1;
      gameNum := EvenRingLoop(a, gameNum, round, T, offset, matchIdx);
      EvenDivsStep(a, g0, round, T, matchIdx, div, offset);
      div := div + 1;
    }
    assert gameNum == a.Length;
  }

  /** The size of the day vector of an odd round, `T * D / 2` plus the
      bye slot, is the size of the closed-form day. */
  lemma OddDaySize(T: nat, D: nat)
    requires Odd(T) && 1 <= D <= 2
    ensures T * D / 2 + 1 == D * (Half(T) + 1)
    ensures D == 2 ==> T * D / 2 == 2 * Half(T) + 1
  {
  }

  /** src/schedule.cpp lines 152-209: the games of division `div` on a day
      of an odd round. With byes, team `offset` meets `offset + matchIdx`
      (or takes the bye) before the ring; on a coupled day the ring of the
      division is centred at `start`, its team that plays across. */
  method FillOddDivision(a: array<Game>, gameNum0: nat, round: nat, T: nat, offset: nat, matchIdx: nat,
                         doByes: bool, start: nat)
    returns (gameNum: nat)
    requires Odd(T) && 1 <= matchIdx <= T
    requires !doByes ==> offset <= start < offset + T
    requires gameNum0 + Half(T) + (if doByes then 1 else 0) <= a.Length
    modifies a
    ensures gameNum == gameNum0 + Half(T) + (if doByes then 1 else 0)
    ensures doByes ==> forall j :: gameNum0 <= j < gameNum ==> a[j] == ByeBlock(round, T, offset, matchIdx)[j - gameNum0]
    ensures !doByes ==> forall j :: gameNum0 <= j < gameNum ==> a[j] == CoupledBlock(round, T, offset, start - offset)[j - gameNum0]
    ensures forall j :: 0 <= j < a.Length && !(gameNum0 <= j < gameNum) ==> a[j] == old(a[j])
  {
    var byeTeam := offset + T;
    var team2: int := start;
    gameNum := gameNum0;
    if doByes {
      var team1 := offset;
      team2 := offset + matchIdx;
      if team2 == byeTeam {
        a[gameNum] := Game(Team(team1), Bye);
      } else {
        var flag := (round + team1 + team2) % 2;
        a[gameNum] := Place(flag, team1, team2);
      }
      gameNum := gameNum + 1;
    }
    ghost var mid := gameNum;
    gameNum := OddRingLoop(a, gameNum, round, T, offset, team2, doByes);
    ghost var ring := OddRing(round, T, offset, team2, doByes);
    if doByes {
      ghost var block := ByeBlock(round, T, offset, matchIdx);
      assert ring == ByeRing(round, T, offset, matchIdx);
      assert a[gameNum0] == block[0];
      forall j | mid <= j < gameNum
        ensures a[j] == block[j - gameNum0]
      {
        assert block[j - gameNum0] == ring[j - mid];
      }
    } else {
      assert ring == CoupledBlock(round, T, offset, start - offset);
    }
  }

  /** One more division on a coupled day: its block follows the blocks
      of the divisions before it. */
  lemma CoupledDivsStep(s: seq<Game>, first: nat, g0: nat, round: nat, T: nat, a: nat, b: nat, div: nat)
    requires Odd(T) && a < T && b < T && div < 2
    requires g0 == first + div * Half(T) && g0 + Half(T) <= |s|
    requires |CoupledDivs(round, T, a, b, div)| == g0 - first
    requires forall j :: first <= j < g0 ==> s[j] == CoupledDivs(round, T, a, b, div)[j - first]
    requires forall j :: g0 <= j < g0 + Half(T) ==>
      s[j] == CoupledBlock(round, T, div * T, if div == 0 then a else b)[j - g0]
    ensures |CoupledDivs(round, T, a, b, div + 1)| == g0 + Half(T) - first
    ensures forall j :: first <= j < g0 + Half(T) ==> s[j] == CoupledDivs(round, T, a, b, div + 1)[j - first]
  {
    var prev := CoupledDivs(round, T, a, b, div);
    var block := CoupledBlock(round, T, div * T, if div == 0 then a else b);
    assert CoupledDivs(round, T, a, b, div + 1) == prev + block;
    forall j | first <= j < g0 + Half(T)
      ensures s[j] == (prev + block)[j - first]
    {
      if j >= g0 {
        assert (prev + block)[j - first] == block[j - g0];
      }
    }
  }

  /** One more division on a day with byes. */
  lemma ByeDivsStep(s: seq<Game>, first: nat, g0: nat, round: nat, T: nat, m: nat, div: nat)
    requires Odd(T) && 1 <= m <= T
    requires g0 == first + div * (Half(T) + 1) && g0 + Half(T) + 1 <= |s|
    requires |ByeDivs(round, T, m, div)| == g0 - first
    requires forall j :: first <= j < g0 ==> s[j] == ByeDivs(round, T, m, div)[j - first]
    requires forall j :: g0 <= j < g0 + Half(T) + 1 ==> s[j] == ByeBlock(round, T, div * T, m)[j - g0]
    ensures |ByeDivs(round, T, m, div + 1)| == g0 + Half(T) + 1 - first
    ensures forall j :: first <= j < g0 + Half(T) + 1 ==> s[j] == ByeDivs(round, T, m, div + 1)[j - first]
  {
    var prev := ByeDivs(round, T, m, div);
    var block := ByeBlock(round, T, div * T, m);
    assert ByeDivs(round, T, m, div + 1) == prev + block;
    forall j | first <= j < g0 + Half(T) + 1
      ensures s[j] == (prev + block)[j - first]
    {
      if j >= g0 {
        assert (prev + block)[j - first] == block[j - g0];
      }
    }
  }

  /** The filled coupled day: the cross-division game in slot 0 when it is
      team 0's and in the last slot otherwise, the two division blocks in
      the other slots. */
  lemma CoupledDayLayout(games: array<Game>, round: nat, T: nat, ir: nat, imi: nat, matchIdx: nat,
                         crossAt: nat, first: nat, b: nat)
    requires Odd(T) && 1 <= matchIdx <= T && games.Length == 2 * Half(T) + 1
    requires crossAt == (if matchIdx == 1 then 0 else games.Length - 1)
    requires first == (if matchIdx == 1 then 1 else 0)
    requires b == (matchIdx - 1 + imi) % T
    requires games[crossAt] == CrossGame(ir, T, matchIdx - 1, imi)
    requires |CoupledDivs(round, T, matchIdx - 1, b, 2)| == 2 * Half(T)
    requires forall j :: first <= j < first + 2 * Half(T) ==>
      games[j] == CoupledDivs(round, T, matchIdx - 1, b, 2)[j - first]
    ensures games[..] == CoupledDay(round, T, Counters(ir, imi), matchIdx)
  {
    DayLayout(games, first, crossAt, CrossGame(ir, T, matchIdx - 1, imi), CoupledDivs(round, T, matchIdx - 1, b, 2));
  }

  /** A day vector holding `cross` in slot 0 and `divs` after it, or
      `divs` first and `cross` in the last slot. */
  lemma DayLayout(games: array<Game>, first: nat, crossAt: nat, cross: Game, divs: seq<Game>)
    requires games.Length == |divs| + 1 && (first == 0 || first == 1)
    requires crossAt == (if first == 1 then 0 else |divs|) && games[crossAt] == cross
    requires forall j :: first <= j < first + |divs| ==> games[j] == divs[j - first]
    ensures games[..] == if first == 1 then [cross] + divs else divs + [cross]
  {
    if first == 1 {
      assert games[..] == [cross] + divs;
    } else {
      assert games[..] == divs + [cross];
    }
  }

  /** src/schedule.cpp lines 126-145: on a coupled day, store the game of
      team `matchIdx - 1` against team `(matchIdx - 1 + interMatchIdx) mod T`
      of the other division, in slot 0 when it is team 0's and in the last
      slot otherwise, and return the slot the divisions start from. */
  method PlaceCrossGame(a: array<Game>, T: nat, matchIdx: nat, interRound: nat, interMatchIdx: nat)
    returns (gameNum: nat, teamA: nat, teamB: nat)
    requires Odd(T) && 1 <= matchIdx <= T && a.Length == 2 * Half(T) + 1
    modifies a
    ensures teamA == matchIdx - 1 && teamB == (matchIdx - 1 + interMatchIdx) % T + T
    ensures gameNum == if teamA == 0 then 1 else 0
    ensures a[if teamA == 0 then 0 else a.Length - 1] == CrossGame(interRound, T, teamA, interMatchIdx)
    ensures forall j :: 0 <= j < a.Length && j != (if teamA == 0 then 0 else a.Length - 1) ==> a[j] == old(a[j])
  {
    gameNum := 0;
    teamA := matchIdx - 1;
    teamB := (matchIdx - 1 + interMatchIdx) % T + T;
    var flag := (teamA + teamB + interRound) % 2;
    if teamA != 0 {
      gameNum := a.Length - 1;
    }
    a[gameNum] := Place(flag, teamA, teamB);
    if teamA == 0 {
      gameNum := 1;
    } else {
      gameNum := 0;
    }
  }

  /** The blocks of the first `div` divisions of a day of an odd round,
      in either mode. */
  ghost function OddDivs(round: nat, T: nat, m: nat, doByes: bool, a: nat, b: nat, div: nat): (games: seq<Game>)
    requires Odd(T) && 1 <= m <= T && a < T && b < T
    ensures |games| == div * (Half(T) + (if doByes then 1 else 0))
  {
    ByeDivsLength(round, T, m, div);
    CoupledDivsLength(round, T, a, b, div);
    if doByes then ByeDivs(round, T, m, div) else CoupledDivs(round, T, a, b, div)
  }

  /** One more division, in either mode. */
  lemma OddDivsStep(games: array<Game>, first: nat, g0: nat, round: nat, T: nat, m: nat,
                    doByes: bool, a: nat, b: nat, div: nat, offset: nat, centre: int)
    requires Odd(T) && 1 <= m <= T && a < T && b < T && (div == 0 || div == 1) && offset == div * T
    requires !doByes ==> centre == if div == 0 then a else b
    requires g0 == first + div * (Half(T) + (if doByes then 1 else 0))
    requires g0 + Half(T) + (if doByes then 1 else 0) <= games.Length
    requires forall j :: first <= j < g0 ==> games[j] == OddDivs(round, T, m, doByes, a, b, div)[j - first]
    requires doByes ==> forall j :: g0 <= j < g0 + Half(T) + 1 ==> games[j] == ByeBlock(round, T, offset, m)[j - g0]
    requires !doByes ==> forall j :: g0 <= j < g0 + Half(T) ==>
      games[j] == CoupledBlock(round, T, offset, centre)[j - g0]
    ensures forall j :: first <= j < g0 + Half(T) + (if doByes then 1 else 0) ==>
      games[j] == OddDivs(round, T, m, doByes, a, b, div + 1)[j - first]
  {
    if doByes {
      ByeDivsStep(games[..], first, g0, round, T, m, div);
    } else {
      CoupledDivsStep(games[..], first, g0, round, T, a, b, div);
    }
  }

  /** src/schedule.cpp lines 152-209: the block of division `div`, stored
      after the blocks of the divisions before it. */
  method FillOddBlock(a: array<Game>, first: nat, gameNum0: nat, round: nat, T: nat, matchIdx: nat,
                      doByes: bool, teamA: nat, teamB: nat, div: nat, offset: nat, start: nat)
    returns (gameNum: nat)
    requires Odd(T) && 1 <= matchIdx <= T && (div == 0 || div == 1) && offset == div * T
    requires teamA < T <= teamB < 2 * T
    requires !doByes ==> start == if div == 0 then teamA else teamB
    requires gameNum0 == first + div * (Half(T) + (if doByes then 1 else 0))
    requires gameNum0 + Half(T) + (if doByes then 1 else 0) <= a.Length
    requires forall j :: first <= j < gameNum0 ==>
      a[j] == OddDivs(round, T, matchIdx, doByes, teamA, teamB - T, div)[j - first]
    modifies a
    ensures gameNum == gameNum0 + Half(T) + (if doByes then 1 else 0)
    ensures forall j :: first <= j < gameNum ==>
      a[j] == OddDivs(round, T, matchIdx, doByes, teamA, teamB - T, div + 1)[j - first]
    ensures forall j :: 0 <= j < a.Length && !(gameNum0 <= j < gameNum) ==> a[j] == old(a[j])
  {
    gameNum := FillOddDivision(a, gameNum0, round, T, offset, matchIdx, doByes, start);
    OddDivsStep(a, first, gameNum0, round, T, matchIdx, doByes, teamA, teamB - T, div, offset, start - offset);
  }

  /** src/schedule.cpp lines 147-210: the blocks of all divisions of a day
      of an odd round, stored from slot `gameNum0` on. */
  method FillOddDivisions(a: array<Game>, gameNum0: nat, round: nat, T: nat, D: nat, matchIdx: nat,
                          doByes: bool, teamA: nat, teamB: nat)
    returns (gameNum: nat)
    requires Odd(T) && 1 <= matchIdx <= T && 1 <= D <= 2
    requires teamA < T <= teamB < 2 * T
    requires !doByes ==> D == 2
    requires gameNum0 + D * (Half(T) + (if doByes then 1 else 0)) <= a.Length
    modifies a
    ensures gameNum == gameNum0 + D * (Half(T) + (if doByes then 1 else 0))
    ensures forall j :: gameNum0 <= j < gameNum ==>
      a[j] == OddDivs(round, T, matchIdx, doByes, teamA, teamB - T, D)[j - gameNum0]
    ensures forall j :: 0 <= j < a.Length && !(gameNum0 <= j < gameNum) ==> a[j] == old(a[j])
  {
    gameNum := gameNum0;
    ghost var h := Half(T) + (if doByes then 1 else 0);
    var div: nat := 0;
    while div < D
      invariant div <= D
      invariant gameNum == gameNum0 + div * h
      invariant forall j :: gameNum0 <= j < gameNum ==>
        a[j] == OddDivs(round, T, matchIdx, doByes, teamA, teamB - T, div)[j - gameNum0]
      invariant forall j :: 0 <= j < a.Length && !(gameNum0 <= j < gameNum) ==> a[j] == old(a[j])
    {
      BlockFits(div, D, h);
      var offset := div * T;
      var start: nat := 0;
      if doByes {
      } else if div == 0 {
        start := teamA;
      } else if div == 1 {
        start := teamB;
      } else {
        assert false;
      }
      ghost var g0 := gameNum;
      gameNum := FillOddBlock(a, gameNum0, gameNum, round, T, matchIdx, doByes, teamA, teamB, div, offset, start);
      assert gameNum == gameNum0 + (div + 1) * h by {
        assert (div + 1) * h == div * h + h;
      }
      div := div + 1;
    }
  }

  /** src/schedule.cpp lines 122-215: the games of day `matchIdx` of an odd
      round: on a coupled day (`doByes` false) the cross-division game
      first, then the blocks of the divisions. */
  method FillOddDay(a: array<Game>, round: nat, T: nat, D: nat, matchIdx: nat,
                    doByes: bool, interRound: nat, interMatchIdx: nat)
    requires Odd(T) && 1 <= matchIdx <= T && 1 <= D <= 2
    requires !doByes ==> D == 2
    requires a.Length == D * (Half(T) + (if doByes then 1 else 0)) + (if doByes then 0 else 1)
    modifies a
    ensures doByes ==> a[..] == ByeDivs(round, T, matchIdx, D)
    ensures !doByes ==> a[..] == CoupledDay(round, T, Counters(interRound, interMatchIdx), matchIdx)
  {
    var gameNum: nat := 0;
    var teamA: nat := 0;
    var teamB: nat := T;
    if !doByes {
      gameNum, teamA, teamB := PlaceCrossGame(a, T, matchIdx, interRound, interMatchIdx);
    }
    ghost var first := gameNum;
    ghost var crossAt := if teamA == 0 then 0 else a.Length - 1;
    gameNum := FillOddDivisions(a, gameNum, round, T, D, matchIdx, doByes, teamA, teamB);
    if !doByes && matchIdx > 1 {
      assert gameNum == a.Length - 1;
    } else {
      assert gameNum == a.Length;
    }
    if !doByes {
      assert OddDivs(round, T, matchIdx, doByes, teamA, teamB - T, D) == CoupledDivs(round, T, teamA, teamB - T, 2);
      CoupledDayLayout(a, round, T, interRound, interMatchIdx, matchIdx, crossAt, first, teamB - T);
    } else {
      assert OddDivs(round, T, matchIdx, doByes, teamA, teamB - T, D) == ByeDivs(round, T, matchIdx, D);
      assert a[..] == ByeDivs(round, T, matchIdx, D);
    }
  }

  /** src/schedule.cpp lines 243-253: inter-division day with shift `k`:
      team `i` of the first division meets team `(i + k) mod T` of the
      second, in game `i`. */
  method FillInterDay(a: array<Game>, interRound: nat, T: nat, k: nat)
    requires a.Length == T > 0
    modifies a
    ensures a[..] == InterDay(interRound, T, k)
  {
    var i := 0;
    while i < T
      invariant 0 <= i <= T
      invariant forall j :: 0 <= j < i ==> a[j] == CrossGame(interRound, T, j, k)
    {
      var team1 := i;
      var team2 := (i + k) % T + T;
      var flag := (interRound + team1 + team2) % 2;
      a[i] := Place(flag, team1, team2);
      i := i + 1;
    }
  }

  /** The schedule: the parameters it was built with and its days, each a
      list of games in output order. Only the constructor writes the days. */
  /** src/schedule.cpp lines 39-99: one intra-division round for an even
      number of teams: the T - 1 days of the circle method, one day per
      `matchIdx`, all written through the same day vector and appended to
      the days built so far. */
  method AppendEvenRound(p: Params, days: seq<Day>, round: nat) returns (out: seq<Day>)
    requires Supported(p) && p.teamsPerDivision % 2 == 0
    ensures out == days + EvenRound(round, p.numDivisions, p.teamsPerDivision)
  {
    var T := p.teamsPerDivision;
    var D := p.numDivisions;
    ghost var round_ := EvenRound(round, D, T);
    var thisMatches := new Game[T * D / 2];
    EvenDaySize(T, D);
    out := days;
    var matchIdx := 1;
    while matchIdx < T
      invariant 1 <= matchIdx <= T
      invariant out == days + round_[..matchIdx - 1]
    {
      FillEvenDay(thisMatches, round, T, D, matchIdx);
      assert round_[..matchIdx] == round_[..matchIdx - 1] + [thisMatches[..]];
      out := out + [thisMatches[..]];
      matchIdx := matchIdx + 1;
    }
    assert round_[..T - 1] == round_;
  }

  /** src/schedule.cpp lines 101-229: one intra-division round for an odd
      number of teams. It is coupled when there are two divisions and
      inter-division rounds are still owed; a coupled round uses up one
      shift of the counters, a round with byes leaves them alone. */
  method AppendOddRound(p: Params, days: seq<Day>, round: nat, interRound: nat, interMatchIdx: nat)
    returns (out: seq<Day>, nextRound: nat, nextIdx: nat)
    requires Supported(p) && p.teamsPerDivision % 2 == 1
    ensures var c := Counters(interRound, interMatchIdx);
      Coupled(p, c) ==>
        out == days + CoupledRound(round, p.teamsPerDivision, c)
        && Counters(nextRound, nextIdx) == Advance(c, p.teamsPerDivision)
    ensures var c := Counters(interRound, interMatchIdx);
      !Coupled(p, c) ==>
        out == days + ByeRound(round, p.numDivisions, p.teamsPerDivision)
        && nextRound == interRound && nextIdx == interMatchIdx
  {
    var T := p.teamsPerDivision;
    var D := p.numDivisions;
    var doByes := D == 1 || interRound >= p.gamesVsNonDivision;
    ghost var round_ := if doByes then ByeRound(round, D, T)
                        else CoupledRound(round, T, Counters(interRound, interMatchIdx));
    var thisMatches := new Game[T * D / 2 + (if doByes then 1 else 0)];
    OddDaySize(T, D);
    out := days;
    var matchIdx := 1;
    while matchIdx < T + 1
      invariant 1 <= matchIdx <= T + 1
      invariant out == days + round_[..matchIdx - 1]
    {
      FillOddDay(thisMatches, round, T, D, matchIdx, doByes, interRound, interMatchIdx);
      assert round_[..matchIdx] == round_[..matchIdx - 1] + [thisMatches[..]];
      out := out + [thisMatches[..]];
      matchIdx := matchIdx + 1;
    }
    assert round_[..T] == round_;
    nextRound, nextIdx := interRound, interMatchIdx;
    if !doByes {
      nextIdx := nextIdx + 1;
      if nextIdx >= T {
        nextRound := nextRound + 1;
        nextIdx := 0;
      }
    }
  }

  /** src/schedule.cpp lines 238-255: the days of inter-division round
      `ir` from shift `imi` on, one day per shift, appended to `days`. */
  method AppendInterRound(p: Params, days: seq<Day>, ir: nat, imi: nat) returns (out: seq<Day>)
    requires Supported(p) && ir < InterLimit(p) && imi <= p.teamsPerDivision
    ensures days + InterFrom(p, Counters(ir, imi)) == out + InterFrom(p, Counters(ir + 1, 0))
  {
    var T := p.teamsPerDivision;
    out := days;
    var k := imi;
    while k < T
      invariant k <= T
      invariant days + InterFrom(p, Counters(ir, imi)) == out + InterFrom(p, Counters(ir, k))
      decreases T - k
    {
      var thisMatches := new Game[T];
      FillInterDay(thisMatches, ir, T, k);
      out := out + [thisMatches[..]];
      k := k + 1;
    }
  }

  /** src/schedule.cpp lines 234-256: the inter-division days still owed,
      resuming from the counters the coupled rounds left behind. */
  method AppendInterDays(p: Params, days: seq<Day>, interRound: nat, interMatchIdx: nat)
    returns (out: seq<Day>)
    requires Supported(p) && interMatchIdx <= p.teamsPerDivision
    ensures out == days + InterFrom(p, Counters(interRound, interMatchIdx))
  {
    var numGamesVsNonDivision := if p.numDivisions > 1 then p.gamesVsNonDivision else 0;
    out := days;
    var ir: nat := interRound;
    var imi: nat := interMatchIdx;
    while ir < numGamesVsNonDivision
      invariant imi <= p.teamsPerDivision
      invariant days + InterFrom(p, Counters(interRound, interMatchIdx))
                == out + InterFrom(p, Counters(ir, imi))
      decreases numGamesVsNonDivision - ir
    {
      out := AppendInterRound(p, out, ir, imi);
      ir, imi := ir + 1, 0;
    }
  }

  /** src/schedule.cpp lines 258-267: put the days in random order. The
      random engine is the parameter `draw`; each step swaps the day at
      index `i` with one at an index in `[0, i]`. */
  method Shuffle(days: seq<Day>, draw: nat -> nat) returns (out: seq<Day>)
    ensures multiset(out) == multiset(days)
  {
    out := days;
    var i := |out|;
    while i > 1
      invariant i <= |out| == |days|
      invariant multiset(out) == multiset(days)
    {
      i := i - 1;
      var j := draw(i) % (i + 1);
      out := out[i := out[j]][j := out[i]];
    }
  }

  class SsSchedule {
    const params: Params
    /** The days, private to the object: only the constructor writes them. */
    const matches: seq<Day>

    /** The days are the constructed days in some order. */
    ghost predicate Valid()
    {
      Supported(params) && multiset(matches) == multiset(Built(params))
    }

    /** src/schedule.cpp lines 20-268 for at most two divisions: the
        intra-division rounds, then the inter-division days still owed,
        then the shuffle. */
    constructor (params: Params, draw: nat -> nat)
      requires Supported(params)
      ensures this.params == params
      ensures Valid()
    {
      var days: seq<Day> := [];
      var interRound: nat := 0;
      var interMatchIdx: nat := 0;
      var round := 0;
      while round < params.gamesVsDivision
        invariant round <= params.gamesVsDivision
        invariant (days, Counters(interRound, interMatchIdx)) == IntraRounds(params, round)
      {
        if params.teamsPerDivision % 2 == 0 {
          days := AppendEvenRound(params, days, round);
        } else {
          days, interRound, interMatchIdx := AppendOddRound(params, days, round, interRound, interMatchIdx);
        }
        round := round + 1;
      }
      days := AppendInterDays(params, days, interRound, interMatchIdx);
      days := Shuffle(days, draw);
      this.params := params;
      this.matches := days;
    }

    /** src/schedule.hpp line 43: the number of days. */
    function NumDays(): (n: nat)
      requires Valid()
      ensures n == |Built(params)| == DayCount(params)
    {
      assert |multiset(matches)| == |multiset(Built(params))|;
      BuiltLength(params);
      |matches|
    }

    /** src/schedule.hpp lines 45-47: the games of day `day`, which must
        exist: the accessor does no bounds check. The day is one of the
        constructed days. */
    function GetMatches(day: nat): (games: Day)
      requires Valid() && day < NumDays()
      ensures games == matches[day]
      ensures games in multiset(Built(params))
    {
      matches[day]
    }
  }

  /** src/schedule.cpp lines 20-27: construction fails, before any day is
      built, exactly when there are more than two divisions. */
  method NewSchedule(params: Params, draw: nat -> nat) returns (r: Result<SsSchedule>)
    requires CallerValid(params)
    ensures r.Err? <==> params.numDivisions > 2
    ensures r.Err? ==> r.error == TooManyDivisions
    ensures r.Ok? ==> fresh(r.value) && r.value.params == params && r.value.Valid()
  {
    if params.numDivisions > 2 {
      return Err(TooManyDivisions);
    }
    var s := new SsSchedule(params, draw);
    return Ok(s);
  }
}
