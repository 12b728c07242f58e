/** The counting pass of `print_stats`: how often two teams meet, how
    often a team is away, at home or on a bye, and the check that no
    team plays twice on one day. Each count is a sum over games, and the
    lemmas here give the sums over concatenations and over sequences in
    which at most one element counts. */
module Stats {
  import opened Types

  /** Number of games in `s` that satisfy `P`. */
  function Count(s: seq<Game>, P: Game -> bool): (k: nat)
    ensures k <= |s|
  {
    if s == [] then 0 else (if P(s[0]) then 1 else 0) + Count(s[1..], P)
  }

  /** Sum of `F` over the days of `days`. */
  function Total(days: seq<Day>, F: Day -> nat): nat
  {
    if days == [] then 0 else F(days[0]) + Total(days[1..], F)
  }

  predicate Involves(g: Game, t: nat)
  {
    g.away == Team(t) || g.home == Team(t)
  }

  /** The bye game of team `t`: the team away, BYE at home. */
  predicate IsByeOf(g: Game, t: nat)
  {
    g == Game(Team(t), Bye)
  }

  function InvolvesP(t: nat): Game -> bool { g => Involves(g, t) }
  function BetweenP(a: nat, b: nat): Game -> bool { g => Between(g, a, b) }
  function ByeP(t: nat): Game -> bool { g => IsByeOf(g, t) }
  function AwayP(t: nat): Game -> bool { (g: Game) => g.away == Team(t) && g.home.Team? }
  function HomeP(t: nat): Game -> bool { (g: Game) => g.home == Team(t) && g.away.Team? }

  /** Number of games of the day in which team `t` takes part. */
  function Appearances(day: Day, t: nat): nat { Count(day, InvolvesP(t)) }

  /** Number of games of the day between teams `a` and `b`. */
  function GamesBetween(day: Day, a: nat, b: nat): nat { Count(day, BetweenP(a, b)) }

  function MeetsP(a: nat, b: nat): Day -> nat { d => GamesBetween(d, a, b) }
  function ByesP(t: nat): Day -> nat { d => Count(d, ByeP(t)) }
  function AwaysP(t: nat): Day -> nat { d => Count(d, AwayP(t)) }
  function HomesP(t: nat): Day -> nat { d => Count(d, HomeP(t)) }

  /** The half-crosstable entry: games between `a` and `b` over all days. */
  function MeetCount(days: seq<Day>, a: nat, b: nat): nat { Total(days, MeetsP(a, b)) }

  /** Number of byes team `t` gets over all days. */
  function ByeCount(days: seq<Day>, t: nat): nat { Total(days, ByesP(t)) }

  /** The per-team line of the statistics: away and home games against a team. */
  function AwayCount(days: seq<Day>, t: nat): nat { Total(days, AwaysP(t)) }
  function HomeCount(days: seq<Day>, t: nat): nat { Total(days, HomesP(t)) }

  /** The check `assert( !team_plays[...] )`: no team is in two games of a day. */
  ghost predicate NoTeamTwice(day: Day)
  {
    forall t: nat :: Appearances(day, t) <= 1
  }

  lemma {:induction false} CountAppend(s: seq<Game>, u: seq<Game>, P: Game -> bool)
    ensures Count(s + u, P) == Count(s, P) + Count(u, P)
  {
    if s == [] {
      assert s + u == u;
    } else {
      assert (s + u)[1..] == s[1..] + u;
      CountAppend(s[1..], u, P);
    }
  }

  lemma {:induction false} TotalAppend(s: seq<Day>, u: seq<Day>, F: Day -> nat)
    ensures Total(s + u, F) == Total(s, F) + Total(u, F)
  {
    if s == [] {
      assert s + u == u;
    } else {
      assert (s + u)[1..] == s[1..] + u;
      TotalAppend(s[1..], u, F);
    }
  }

  /** A tally over days followed by more days is the sum of the two. */
  lemma TotalStep(a: seq<Day>, b: seq<Day>, F: Day -> nat, before: int, after: int)
    requires Total(a, F) == before && before + Total(b, F) == after
    ensures Total(a + b, F) == after
  {
    TotalAppend(a, b, F);
  }

  /** No game satisfies `P`: the count is 0. */
  lemma {:induction false} CountNone(s: seq<Game>, P: Game -> bool)
    requires forall j :: 0 <= j < |s| ==> !P(s[j])
    ensures Count(s, P) == 0
  {
    if s != [] {
      CountNone(s[1..], P);
    }
  }

  /** Only the game at index `k` satisfies `P`: the count is 1. */
  lemma {:induction false} CountOne(s: seq<Game>, P: Game -> bool, k: int)
    requires 0 <= k < |s| && P(s[k])
    requires forall j :: 0 <= j < |s| && j != k ==> !P(s[j])
    ensures Count(s, P) == 1
  {
    if k == 0 {
      CountNone(s[1..], P);
    } else {
      CountOne(s[1..], P, k - 1);
    }
  }

  /** `F` is 1 on the day at index `k` and 0 on every other day. */
  lemma {:induction false} TotalIndicator(days: seq<Day>, F: Day -> nat, k: int)
    requires forall j :: 0 <= j < |days| ==> F(days[j]) == if j == k then 1 else 0
    ensures Total(days, F) == if 0 <= k < |days| then 1 else 0
  {
    if days != [] {
      TotalIndicator(days[1..], F, k - 1);
    }
  }

  /** `F` is the same on every day. */
  lemma {:induction false} TotalConstant(days: seq<Day>, F: Day -> nat, v: nat)
    requires forall j :: 0 <= j < |days| ==> F(days[j]) == v
    ensures Total(days, F) == |days| * v
  {
    if days != [] {
      TotalConstant(days[1..], F, v);
    }
  }

  /** A sum over days does not depend on the order of the days. */
  lemma {:induction false} TotalPermutation(a: seq<Day>, b: seq<Day>, F: Day -> nat)
    requires multiset(a) == multiset(b)
    ensures Total(a, F) == Total(b, F)
    decreases |a|
  {
    if a == [] {
      assert |b| == |multiset(b)| == 0;
    } else {
      var x := a[0];
      assert x in multiset(b);
      var i :| 0 <= i < |b| && b[i] == x;
      var rest := b[..i] + b[i + 1..];
      RemoveAt(b, i);
      RemoveAt(a, 0);
      assert a[..0] + a[1..] == a[1..];
      MultisetCancel(multiset(a[1..]), multiset(rest), x);
      TotalPermutation(a[1..], rest, F);
      TotalRemoveAt(b, i, F);
    }
  }

  /** Taking the day at index `i` out of `b`. */
  lemma RemoveAt(b: seq<Day>, i: nat)
    requires i < |b|
    ensures multiset(b) == multiset(b[..i] + b[i + 1..]) + multiset{b[i]}
  {
    assert b == b[..i] + [b[i]] + b[i + 1..];
  }

  lemma MultisetCancel(A: multiset<Day>, B: multiset<Day>, x: Day)
    requires A + multiset{x} == B + multiset{x}
    ensures A == B
  {
    assert A == (A + multiset{x}) - multiset{x};
    assert B == (B + multiset{x}) - multiset{x};
  }

  lemma TotalRemoveAt(b: seq<Day>, i: nat, F: Day -> nat)
    requires i < |b|
    ensures Total(b, F) == F(b[i]) + Total(b[..i] + b[i + 1..], F)
  {
    assert b == b[..i] + ([b[i]] + b[i + 1..]);
    TotalAppend(b[..i], [b[i]] + b[i + 1..], F);
    TotalAppend([b[i]], b[i + 1..], F);
    TotalAppend(b[..i], b[i + 1..], F);
    assert [b[i]][1..] == [];
  }
}
