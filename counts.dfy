/** How many days the construction produces, and where the two
    inter-division counters stand after the intra-division rounds. */
module Counts {
  import opened Types
  import opened Ring
  import opened Days

  function Min(a: int, b: int): int { if a <= b then a else b }

  /** The number of coupled intra-division rounds: one per inter-division
      shift, as long as inter-division shifts are owed. */
  function CoupledRounds(p: Params): nat
  {
    if p.teamsPerDivision % 2 == 1 && p.numDivisions == 2
    then Min(p.gamesVsDivision, p.gamesVsNonDivision * p.teamsPerDivision)
    else 0
  }

  /** The number of days before the shuffle:
      even T: Gi (T - 1) days, plus Gx T with two divisions;
      odd T: Gi T days, plus the Gx T shifts the coupled rounds left over. */
  function DayCount(p: Params): nat
    requires Supported(p)
  {
    var T := p.teamsPerDivision;
    var Gi := p.gamesVsDivision;
    var Gx := p.gamesVsNonDivision;
    if T % 2 == 0 then Gi * (T - 1) + (if p.numDivisions == 2 then Gx * T else 0)
    else Gi * T + (if p.numDivisions == 2 then Gx * T - Min(Gi, Gx * T) else 0)
  }

  /** The number of rounds with byes: every round of an odd T that is not
      coupled. */
  function ByeRounds(p: Params): nat
  {
    if p.teamsPerDivision % 2 == 1 then p.gamesVsDivision - CoupledRounds(p) else 0
  }

  lemma MulMono(a: nat, b: nat, n: nat)
    requires a <= b
    ensures a * n <= b * n
  {
    assert b * n - a * n == (b - a) * n;
  }

  /** With `imi < T`, the counters stand before shift `Gx T` exactly when
      fewer than `Gx` inter-division rounds are done. */
  lemma BeforeEnd(ir: nat, imi: nat, T: nat, Gx: nat)
    requires imi < T
    ensures ir < Gx <==> ir * T + imi < Gx * T
  {
    if ir < Gx {
      MulMono(ir + 1, Gx, T);
    } else {
      MulMono(Gx, ir, T);
    }
  }

  /** After `k` intra-division rounds the counters have consumed exactly
      one shift per coupled round, and never go past the last shift owed. */
  lemma {:induction false} IntraCounters(p: Params, k: nat)
    requires Supported(p)
    ensures var c := IntraRounds(p, k).1;
      c.interRound * p.teamsPerDivision + c.interMatchIdx
      == if p.teamsPerDivision % 2 == 1 && p.numDivisions == 2
         then Min(k, p.gamesVsNonDivision * p.teamsPerDivision) else 0
    ensures var c := IntraRounds(p, k).1;
      c.interRound <= p.gamesVsNonDivision
      && (c.interRound == p.gamesVsNonDivision ==> c.interMatchIdx == 0)
    ensures var c := IntraRounds(p, k).1;
      !(p.teamsPerDivision % 2 == 1 && p.numDivisions == 2) ==> c == Counters(0, 0)
  {
    if k > 0 {
      IntraCounters(p, k - 1);
      var c := IntraRounds(p, k - 1).1;
      var T := p.teamsPerDivision;
      BeforeEnd(c.interRound, c.interMatchIdx, T, p.gamesVsNonDivision);
      if T % 2 == 1 && Coupled(p, c) {
        assert (c.interRound + 1) * T == c.interRound * T + T;
      }
    }
  }

  /** Days of one intra-division round: T - 1 for an even T, T for an odd T. */
  function RoundDays(T: nat): nat
    requires T >= 1
  {
    if T % 2 == 0 then T - 1 else T
  }

  lemma RoundLength(p: Params, k: nat)
    requires Supported(p) && k > 0
    ensures |IntraRounds(p, k).0| == |IntraRounds(p, k - 1).0| + RoundDays(p.teamsPerDivision)
  {
    var c := IntraRounds(p, k - 1).1;
    assert |IntraRound(p, k - 1, c)| == RoundDays(p.teamsPerDivision);
  }

  /** Days of the first `k` intra-division rounds. */
  lemma {:induction false} IntraLength(p: Params, k: nat)
    requires Supported(p)
    ensures |IntraRounds(p, k).0| == k * RoundDays(p.teamsPerDivision)
  {
    if k > 0 {
      IntraLength(p, k - 1);
      RoundLength(p, k);
      assert k * RoundDays(p.teamsPerDivision)
          == (k - 1) * RoundDays(p.teamsPerDivision) + RoundDays(p.teamsPerDivision);
    }
  }

  /** The inter-division days still owed: every shift from the counters
      to the end of the last inter-division round. */
  lemma {:induction false} InterFromLength(p: Params, c: Counters)
    requires Supported(p) && c.interMatchIdx <= p.teamsPerDivision
    ensures |InterFrom(p, c)|
            == if c.interRound < InterLimit(p)
               then (InterLimit(p) - c.interRound) * p.teamsPerDivision - c.interMatchIdx
               else 0
    decreases InterLimit(p) - c.interRound, p.teamsPerDivision - c.interMatchIdx
  {
    var T := p.teamsPerDivision;
    if c.interRound >= InterLimit(p) {
    } else if c.interMatchIdx >= T {
      InterFromLength(p, Counters(c.interRound + 1, 0));
      assert (InterLimit(p) - c.interRound) * T == (InterLimit(p) - c.interRound - 1) * T + T;
    } else {
      InterFromLength(p, Counters(c.interRound, c.interMatchIdx + 1));
    }
  }

  /** The inter-division days left after `M` shifts were used up by the
      coupled rounds, with the counters at `ir * T + imi == M`. */
  lemma InterLeft(T: nat, Gx: nat, ir: nat, imi: nat, M: nat)
    requires ir * T + imi == M && ir <= Gx && (ir == Gx ==> imi == 0)
    ensures (if ir < Gx then (Gx - ir) * T - imi else 0) == Gx * T - M
  {
    if ir < Gx {
      assert (Gx - ir) * T == Gx * T - ir * T;
    }
  }

  /** The number of days the construction produces. */
  lemma BuiltLength(p: Params)
    requires Supported(p)
    ensures |Built(p)| == DayCount(p)
  {
    var T := p.teamsPerDivision;
    var Gi := p.gamesVsDivision;
    var c := IntraRounds(p, Gi).1;
    IntraLength(p, Gi);
    IntraCounters(p, Gi);
    InterFromLength(p, c);
    assert |Built(p)| == |IntraRounds(p, Gi).0| + |InterFrom(p, c)|;
    if T % 2 == 1 && p.numDivisions == 2 {
      InterLeft(T, p.gamesVsNonDivision, c.interRound, c.interMatchIdx, Min(Gi, p.gamesVsNonDivision * T));
    }
  }

  /** Every day of an even round has `T D / 2` games. */
  lemma EvenRoundSizes(r: nat, D: nat, T: nat)
    requires T % 2 == 0 && T >= 2
    ensures var days := EvenRound(r, D, T);
      forall j :: 0 <= j < |days| ==> |days[j]| == T * D / 2
  {
    var h := T / 2;
    assert T * D == 2 * (h * D);
    forall j | 0 <= j < T - 1
      ensures |EvenRound(r, D, T)[j]| == T * D / 2
    {
      EvenDivsLength(r, T, j + 1, D);
    }
  }

  /** Every day of a round with byes has `T D / 2` games and the extra
      bye slot. */
  lemma ByeRoundSizes(r: nat, D: nat, T: nat)
    requires Odd(T) && 1 <= D <= 2
    ensures var days := ByeRound(r, D, T);
      forall j :: 0 <= j < |days| ==> |days[j]| == T * D / 2 + 1
  {
    forall j | 0 <= j < T
      ensures |ByeRound(r, D, T)[j]| == T * D / 2 + 1
    {
      ByeDivsLength(r, T, j + 1, D);
    }
  }

  /** A coupled day has `T` games: `T - 1` inside the two divisions and
      the one across them. */
  lemma CoupledDayLength(r: nat, T: nat, c: Counters, m: nat)
    requires Odd(T) && 1 <= m <= T
    ensures |CoupledDay(r, T, c, m)| == T
  {
    var a := m - 1;
    var b := (a + c.interMatchIdx) % T;
    CoupledDivsLength(r, T, a, b, 2);
    assert |CoupledDivs(r, T, a, b, 2)| == T - 1;
  }

  /** Every day of a coupled round has `T` games. */
  lemma CoupledRoundSizes(r: nat, T: nat, c: Counters)
    requires Odd(T)
    ensures var days := CoupledRound(r, T, c);
      forall j :: 0 <= j < |days| ==> |days[j]| == T
  {
    forall j | 0 <= j < T
      ensures |CoupledRound(r, T, c)[j]| == T
    {
      CoupledDayLength(r, T, c, j + 1);
    }
  }
}
