/** Value types of the scheduler: teams, games, parameters and the
    home/away parity rule shared by every part of the construction. */
module Types {

  /** One side of a game: a 0-based team id, or the BYE sentinel. */
  datatype Side = Team(id: nat) | Bye

  /** A game between an away side and a home side. */
  datatype Game = Game(away: Side, home: Side)
  {
    /** The side stored in slot `i` of the two-slot `teams` array. */
    function Slot(i: int): (s: Side)
      requires i == AWAY || i == HOME
      ensures i == AWAY ==> s == away
      ensures i == HOME ==> s == home
    {
      if i == AWAY then away else home
    }
  }

  /** One day of concurrent games, in output order. */
  type Day = seq<Game>

  /** The parameter record handed to the constructor. The four counts
      are never negative: the command-line front end rejects negative
      values before a record is built. */
  datatype Params = Params(
    numDivisions: nat,
    teamsPerDivision: nat,
    gamesVsDivision: nat,
    gamesVsNonDivision: nat,
    seed: int)

  /** Slot indices and the sentinel used by the integer encoding of a game. */
  const AWAY: int := 0
  const HOME: int := 1
  const BYE: int := -1

  datatype Error = TooManyDivisions

  datatype Result<T> = Ok(value: T) | Err(error: Error)

  /** What every caller guarantees before constructing a schedule: the
      command-line front end rejects non-positive division and team counts. */
  predicate CallerValid(p: Params)
  {
    p.numDivisions >= 1 && p.teamsPerDivision >= 1
  }

  /** The parameters the construction accepts: at most two divisions. */
  predicate Supported(p: Params)
  {
    CallerValid(p) && p.numDivisions <= 2
  }

  /** The integer the source stores for a side. */
  function Encode(s: Side): (x: int)
    ensures x >= BYE
    ensures x == BYE <==> s == Bye
  {
    match s
    case Team(t) => t
    case Bye => BYE
  }

  /** The side an integer slot holds. */
  function Decode(x: int): (s: Side)
    requires x >= BYE
  {
    if x == BYE then Bye else Team(x)
  }

  /** BYE never collides with a team id: the encoding is a bijection
      between sides and the integers from -1 up. */
  lemma EncodingRoundTrip(s: Side, x: int)
    requires x >= BYE
    ensures Decode(Encode(s)) == s
    ensures Encode(Decode(x)) == x
    ensures s.Team? ==> Encode(s) != BYE
  {
  }

  /** `teams[flag] = first; teams[1 - flag] = second`. */
  function Place(flag: int, first: nat, second: nat): (g: Game)
    requires flag == AWAY || flag == HOME
    ensures g.Slot(flag) == Team(first) && g.Slot(1 - flag) == Team(second)
  {
    if flag == AWAY then Game(Team(first), Team(second)) else Game(Team(second), Team(first))
  }

  /** The parity rule for a game between `a < b` in round `r`:
      `flag = (r + a + b) % 2`, and `a` goes into slot `flag`. */
  function Host(r: nat, a: nat, b: nat): Game
  {
    Place((r + a + b) % 2, a, b)
  }

  /** The rule applied to an unordered pair: the smaller id goes first. */
  function Pairing(r: nat, x: nat, y: nat): Game
  {
    if x < y then Host(r, x, y) else Host(r, y, x)
  }

  /** In a game between two teams, the smaller id is away exactly when
      `(r + a + b) % 2 == 0`. */
  predicate ParityRule(r: nat, g: Game)
  {
    g.away.Team? && g.home.Team? ==>
      (g.away.id < g.home.id <==> (r + g.away.id + g.home.id) % 2 == 0)
  }

  /** A game with exactly the two teams `x` and `y`, in either order. */
  predicate Between(g: Game, x: nat, y: nat)
  {
    (g.away == Team(x) && g.home == Team(y)) || (g.away == Team(y) && g.home == Team(x))
  }

  /** The rule puts the two teams in the game, follows the parity rule,
      and gives the same pairing opposite hosts in rounds r and r + 1. */
  lemma PairingFacts(r: nat, x: nat, y: nat)
    requires x != y
    ensures Between(Pairing(r, x, y), x, y)
    ensures ParityRule(r, Pairing(r, x, y))
    ensures Pairing(r + 1, x, y) == Game(Pairing(r, x, y).home, Pairing(r, x, y).away)
  {
  }
}
