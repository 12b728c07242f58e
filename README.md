# sports-scheduling: a Dafny model of the schedule constructor

The library builds the schedule of a sports league with one or two divisions.
Each division has `T` teams. Every two teams of a division meet `Gi` times.
With two divisions, every team of one meets every team of the other `Gx` times.
Teams are numbered from 0; division `d` holds teams `d T .. d T + T - 1`.

A schedule is a list of days, and a day is a list of games `(away, home)`.
A game against `BYE` (encoded as -1) means the team sits out that day.
The constructor of `SsSchedule` works in three stages:

1. **Intra-division rounds.** It runs `Gi` rounds with the circle method.
   - Even `T`: a round has `T - 1` days.
   - Odd `T`, one division: a round has `T` days, and each team takes one bye per round.
   - Odd `T`, two divisions: the two teams that would take the bye instead play each other across divisions. Such a round is coupled. It uses up one inter-division shift, tracked by the counters `inter_round` and `inter_match_idx`. Rounds are coupled as long as inter-division games are still owed.
2. **Inter-division days.** It adds the inter-division days still owed. On such a day team `i` meets team `(i + k) mod T + T` for the shift `k`.
3. **Shuffle.** It puts the days in random order.

Hosts follow a parity rule:
- In round `r`, the lower of two ids `a < b` is away exactly when `(r + a + b)` is even.
- Consecutive rounds therefore swap hosts.

`print_stats` counts the following over all days:
- for every pair of teams, how often they meet;
- how often each team is away and how often at home;
- a check that no team plays twice in one day.

The model has two parts:
- A closed form of the schedule (module `Days`). It gives every day as a function of the parameters, and the properties are proved about it.
- Imperative methods (module `Schedule`). They fill arrays step by step as the source does, and their contracts prove that they produce exactly the closed form.

On top of these, the `print_stats` tallies are defined as functions (module `Stats`). The module `Theorems` proves what the tallies report for any order of the days.

Modules:
- `Types`: sides, games, parameters, the integer encoding, the parity rule.
- `Ring`: positions around the circle (linear arithmetic only), who is paired with whom on which day.
- `Days`: the closed-form schedule (`Built`).
- `Stats`: the counting pass of `print_stats`.
- `Cover`, `Counts`, `Meets`, `OddMeets`, `Totals`, `Byes`, `Hosts`, `Order`: the properties of `Built`.
- `Balance`: the crosstable `num_games_crosstable` (who is away at whom) and the home/away balance of every team.
- `Schedule`: the loops that fill the days, and the class `SsSchedule`, whose constructor runs them and keeps the result.
- `Theorems`: the counts for the shuffled schedule.

How the code behaves where this is not obvious:
- **Counter advance.** The inter-division counters advance once per coupled round (src/schedule.cpp:222-229).
  - Each coupled round uses up a single shift.
  - There are `min(Gi, Gx T)` coupled rounds.
  - For odd `T` and two divisions there are `Gi - min(Gi, Gx T)` rounds with byes.
- **Team 0 first.** Team 0's game is put at the front only when team 0 plays the cross-division game (src/schedule.cpp:134-137).
  - On a coupled day where team 0 does not play across, the day opens with the first game of division 0's ring.
  - That game holds team 0 only on days 2 and `T` (`Order.CoupledDayFront`). On day `m >= 2` it is the game of teams `m - 2` and `m mod T` (`Order.CoupledDayOpens`).
- **Home and away.** The parity rule (src/schedule.cpp:64-68) gives every team as many home games as away games, up to one (`Balance.BuiltBalance`).
  - Against one opponent the side alternates from meeting to meeting, so a pair that meets an odd number of times leaves one game to the side round 0 picks.
  - With an even `T` only the intra-division games can leave one over, with an odd `T` only the inter-division games.
- **Team check.** The source's check that no team plays twice in a day skips games against `BYE` (src/schedule.cpp:319, 330-333). The model proves the stronger fact that every team appears exactly once on every day, byes included.

## Model

| member | source | states |
|---|---|---|
| Types.Game.Slot | src/schedule.hpp:28-35 | slot `AWAY` of a game is its away side and slot `HOME` its home side |
| Types.Encode | src/schedule.hpp:31 | a side is stored as an integer no less than -1, and the integer is -1 exactly for `BYE` |
| Types.EncodingRoundTrip | src/schedule.hpp:28-35 | decoding an encoded side gives it back, encoding a decoded integer gives it back, and no team id collides with `BYE` |
| Types.Place | src/schedule.cpp:68-70 | `teams[flag] = first; teams[1 - flag] = second` puts `first` in slot `flag` and `second` in the other slot |
| Types.PairingFacts | src/schedule.cpp:64-70 | a pairing holds exactly the two teams, follows the parity rule, and swaps hosts between rounds `r` and `r + 1` |
| Ring.Covered | src/schedule.cpp:73-93 | around a ring of odd size centred at `c`, every position except the centre is reached by one of the `(n - 1) / 2` steps |
| Ring.PairsDisjoint | src/schedule.cpp:180-209 | different steps around the ring pair different positions, so no team is in two ring games of a day |
| Ring.PairedIff | src/schedule.cpp:180-209 | two positions are paired on the ring centred at `c` if and only if `c` is their midpoint `Mid` |
| Stats.TotalPermutation | src/schedule.cpp:316-336 | a tally summed over days does not depend on the order of the days |
| Stats.TotalStep | src/schedule.cpp:316-336 | a tally over two runs of days is the tally of the first plus the tally of the second |
| Days.EvenDivsLength | src/schedule.cpp:47-48 | an even day holds `T / 2` games per division |
| Days.ByeDivsLength | src/schedule.cpp:117-119 | a day with byes holds `(T - 1) / 2 + 1` games per division |
| Days.CoupledDivsLength | src/schedule.cpp:117-119 | the rings of a coupled day hold `(T - 1) / 2` games per division |
| Days.IntraRounds | src/schedule.cpp:222-229 | the shift counter always stays below `T` between rounds |
| Days.IntraRoundsStep | src/schedule.cpp:36-231 | the first `k` rounds are the first `k - 1` followed by round `k - 1`, which starts from the counters they leave |
| Cover.EvenBlockCover | src/schedule.cpp:60-93 | on an even day every team of a division appears exactly once in that division's games, and no other team does |
| Cover.EvenDivsCover | src/schedule.cpp:52-94 | on an even day every team of the first `div` divisions appears exactly once |
| Cover.ByeBlockCover | src/schedule.cpp:158-209 | on a day with byes every team of a division appears exactly once, its bye included |
| Cover.ByeDivsCover | src/schedule.cpp:147-210 | on a day with byes every team of the first `div` divisions appears exactly once |
| Cover.CoupledBlockCover | src/schedule.cpp:172-209 | a coupled division ring holds every team of the division except its centre, once each |
| Cover.CoupledDayCover | src/schedule.cpp:122-215 | on a coupled day each of the `2 T` teams appears exactly once, the two centres in the cross-division game |
| Cover.InterDayCover | src/schedule.cpp:243-253 | on an inter-division day each of the `2 T` teams appears exactly once |
| Cover.EvenRoundCover | src/schedule.cpp:49-99 | every day of an even round has every team exactly once |
| Cover.ByeRoundCover | src/schedule.cpp:120-220 | every day of a round with byes has every team exactly once |
| Cover.CoupledRoundCover | src/schedule.cpp:120-220 | every day of a coupled round has each of the `2 T` teams exactly once |
| Cover.IntraRoundCover | src/schedule.cpp:36-231 | every day of an intra-division round, of whichever kind, has every team exactly once |
| Cover.IntraCover | src/schedule.cpp:36-231 | every day of the first `k` intra-division rounds has every team exactly once |
| Cover.InterCover | src/schedule.cpp:234-256 | every inter-division day still owed has every team exactly once |
| Cover.BuiltCover | src/schedule.cpp:20-256 | every day of the schedule has each of the `D T` teams exactly once, so the check of lines 330-333 always passes |
| Counts.IntraCounters | src/schedule.cpp:222-229 | after `k` rounds the counters have used up one shift per coupled round, `min(k, Gx T)` in all |
| Counts.IntraLength | src/schedule.cpp:36-231 | `k` intra-division rounds give `k (T - 1)` days for an even `T` and `k T` days for an odd `T` |
| Counts.InterFromLength | src/schedule.cpp:234-256 | the inter-division loop adds one day for every shift from the counters to the end of the last inter-division round |
| Counts.BuiltLength | src/schedule.cpp:20-256 | the schedule has `Gi (T - 1) + Gx T` days for an even `T` (the `Gx` part only with two divisions), and `Gi T` plus the shifts the coupled rounds left over for an odd `T` |
| Counts.EvenRoundSizes | src/schedule.cpp:47-48 | every day of an even round has `T D / 2` games, the size the assertion of line 95 checks |
| Counts.ByeRoundSizes | src/schedule.cpp:117-119 | every day of a round with byes has `T D / 2 + 1` games, the size the assertion of line 214 checks |
| Counts.CoupledDayLength | src/schedule.cpp:211-215 | a coupled day has `T` games: `T - 1` in the rings and one across |
| Counts.CoupledRoundSizes | src/schedule.cpp:117-119 | every day of a coupled round has `T` games |
| Meets.EvenBlockMeet | src/schedule.cpp:60-93 | two teams of a division meet on an even day exactly when it is their day `EvenMeetDay` |
| Meets.EvenDivsMeet | src/schedule.cpp:52-94 | the same for the whole even day, with both divisions present |
| Meets.EvenDivsCross | src/schedule.cpp:52-94 | teams of different divisions never meet on an even day |
| Meets.EvenRoundMeet | src/schedule.cpp:49-99 | two teams of a division meet exactly once per even round |
| Meets.EvenRoundMeetDays | src/schedule.cpp:49-99 | they meet on day `EvenMeetDay` of the round and on no other day |
| Meets.EvenRoundCross | src/schedule.cpp:49-99 | teams of different divisions never meet in an even round |
| OddMeets.ByeBlockMeet | src/schedule.cpp:158-209 | two teams of a division meet on a day with byes exactly when it is their day `ByeMeetDay` |
| OddMeets.ByeDivsMeet | src/schedule.cpp:147-210 | the same for the whole day with byes |
| OddMeets.ByeDivsCross | src/schedule.cpp:147-210 | teams of different divisions never meet on a day with byes |
| OddMeets.ByeRoundMeet | src/schedule.cpp:120-220 | two teams of a division meet exactly once per round with byes |
| OddMeets.ByeRoundMeetDays | src/schedule.cpp:120-220 | they meet on day `ByeMeetDay` of the round and on no other day |
| OddMeets.ByeRoundCross | src/schedule.cpp:120-220 | teams of different divisions never meet in a round with byes |
| OddMeets.CrossBetween | src/schedule.cpp:129-132 | the cross-division game of day `m` is between team `m - 1` and team `T + (m - 1 + k) mod T`, and no other pair |
| OddMeets.CoupledBlockMeet | src/schedule.cpp:172-209 | two teams of a division meet in a coupled ring exactly when the ring's centre is their midpoint |
| OddMeets.CoupledDayMeet | src/schedule.cpp:122-215 | two teams of one division meet on a coupled day exactly when the division's centre that day is their midpoint |
| OddMeets.CoupledDayCross | src/schedule.cpp:126-145 | on coupled day `m` with shift `k`, team `x` meets team `T + y` exactly when `x = m - 1` and `y = (x + k) mod T` |
| OddMeets.CoupledRoundMeet | src/schedule.cpp:120-220 | two teams of a division meet exactly once per coupled round |
| OddMeets.CoupledRoundCross | src/schedule.cpp:126-145 | in a coupled round with shift `k`, team `x` meets team `T + y` once if `k` is the distance from `x` forward to `y`, otherwise never |
| OddMeets.InterDayMeet | src/schedule.cpp:243-253 | two teams of one division never meet on an inter-division day |
| OddMeets.InterDayCross | src/schedule.cpp:243-253 | on the inter-division day with shift `k`, team `x` meets team `T + y` exactly when `k` is the distance from `x` forward to `y` |
| Totals.IntraRoundMeetSame | src/schedule.cpp:36-231 | two teams of a division meet once in every intra-division round, whichever kind it is |
| Totals.IntraMeetSame | src/schedule.cpp:36-231 | they meet `k` times in the first `k` rounds |
| Totals.InterMeetSame | src/schedule.cpp:234-256 | they never meet on the inter-division days |
| Totals.SameDivisionMeets | src/schedule.cpp:20-256 | every two teams of one division meet exactly `Gi` times, the entry `print_stats` reports |
| Totals.BuiltTotal | src/schedule.cpp:20-256 | a tally the inter-division days leave at zero counts over the whole schedule what it counts over the intra-division rounds |
| Totals.HitsAdvance | src/schedule.cpp:222-229 | using up a shift passes shift `s` once exactly when it is `s` |
| Totals.IntraRoundMeetCross | src/schedule.cpp:36-231 | an intra-division round adds a cross-division meeting of `x` and `T + y` exactly when its advance of the counters uses up their shift |
| Totals.IntraMeetCross | src/schedule.cpp:36-231 | in the first `k` rounds, `x` meets `T + y` once for every time the counters passed their shift |
| Totals.InterMeetCross | src/schedule.cpp:234-256 | on the inter-division days still owed, `x` meets `T + y` once for every remaining use of their shift |
| Totals.CrossDivisionMeets | src/schedule.cpp:20-256 | with two divisions, every team of the first meets every team of the second exactly `Gx` times, whether in coupled rounds or on inter-division days |
| Byes.ByeRingGameAt | src/schedule.cpp:195-200 | a ring game holds the bye exactly when one of its positions is the phantom team, and its away side is always a real team |
| Byes.ByeBlockByes | src/schedule.cpp:158-209 | a team of a division takes the bye on exactly one day of a round with byes, day `ByeDay` |
| Byes.ByeBlockOneBye | src/schedule.cpp:158-209 | each division has exactly one bye game on a day with byes |
| Byes.ByeDivsByeGames | src/schedule.cpp:117-119 | a day with byes holds one bye game per division, the slot the `+ 1` in the day size provides |
| Byes.ByeDivsByes | src/schedule.cpp:147-210 | on day `m` of a round with byes, a team takes a bye exactly when `m` is its `ByeDay` |
| Byes.ByeRoundByes | src/schedule.cpp:120-220 | every team takes exactly one bye per round with byes |
| Byes.EvenRoundNoBye | src/schedule.cpp:39-99 | an even round has no byes |
| Byes.CoupledRoundNoBye | src/schedule.cpp:126-209 | a coupled round has no byes |
| Byes.InterNoByes | src/schedule.cpp:234-256 | the inter-division days have no byes |
| Byes.CoupledAt | src/schedule.cpp:111-115 | round `k` is coupled (`do_byes` is false) if and only if there are two divisions and `k < Gx T` |
| Byes.ByeRoundsClosed | src/schedule.cpp:111-115 | the rounds with byes among the first `k` number `k - min(k, Gx T)` for an odd `T` with two divisions, `k` with one, and 0 for an even `T` |
| Byes.IntraRoundByes | src/schedule.cpp:111-220 | a team takes one bye in an intra-division round exactly when `T` is odd and the round is not coupled |
| Byes.IntraByes | src/schedule.cpp:36-231 | a team's byes in the first `k` rounds are the rounds with byes among them |
| Byes.TotalByes | src/schedule.cpp:20-256 | every team takes exactly `ByeRounds` byes, `Gi - min(Gi, Gx T)` with two divisions of odd size |
| Hosts.HostFollows | src/schedule.cpp:64-70 | the game of team `offset` follows the parity rule of its round |
| Hosts.PairingFollows | src/schedule.cpp:86-91 | a ring game, with the lower id placed by `flag`, follows the parity rule |
| Hosts.RingGameFollows | src/schedule.cpp:194-207 | a ring game of an odd division follows the parity rule, and a bye game has the team away |
| Hosts.EvenDivsFollow | src/schedule.cpp:52-94 | every game of an even day follows the parity rule of its round |
| Hosts.ByeDivsFollow | src/schedule.cpp:147-210 | every game of a day with byes follows the parity rule of its round |
| Hosts.CoupledDivsFollow | src/schedule.cpp:147-210 | every ring game of a coupled day follows the parity rule of its round |
| Hosts.CrossFollows | src/schedule.cpp:133 | the cross-division game follows the parity rule of the inter-division round `inter_round` |
| Hosts.CoupledDayShape | src/schedule.cpp:134-144 | a coupled day has `T` games with the cross-division game first on day 1 and last on every other day |
| Hosts.CoupledDayFollows | src/schedule.cpp:126-209 | on a coupled day the cross-division game follows the parity of `inter_round` and every other game that of the round |
| Hosts.InterDayFollows | src/schedule.cpp:250-252 | every game of an inter-division day follows the parity of `inter_round` |
| Hosts.EvenRoundFollows | src/schedule.cpp:39-99 | every game of an even round follows the round's parity |
| Hosts.ByeRoundFollows | src/schedule.cpp:101-220 | every game of a round with byes follows the round's parity |
| Hosts.CoupledRoundFollows | src/schedule.cpp:101-220 | every game of a coupled round follows the round's parity, except the cross-division game, which follows `inter_round`'s |
| Hosts.HostFlip | src/schedule.cpp:68-70 | the same game in the next round has home and away swapped |
| Hosts.EvenRoundFlip | src/schedule.cpp:39-99 | even round `r + 1` is round `r` with every game's hosts swapped |
| Hosts.ByeRoundFlip | src/schedule.cpp:101-220 | round `r + 1` with byes is round `r` with every game between two teams swapped, bye games unchanged |
| Hosts.InterDayFlip | src/schedule.cpp:250-252 | the inter-division day of round `ir + 1` is that of round `ir` with hosts swapped |
| Hosts.FlipDaysHomes | src/schedule.cpp:328-329 | swapping hosts turns a team's away games into its home games |
| Hosts.FlipDaysAways | src/schedule.cpp:328-329 | swapping hosts turns a team's home games into its away games |
| Hosts.Balanced | src/schedule.cpp:328-329 | over days followed by their swapped copy, every team has as many home games as away games |
| Hosts.EvenRoundsBalanced | src/schedule.cpp:64-70 | over two consecutive even rounds every team is at home as often as away |
| Hosts.ByeRoundsBalanced | src/schedule.cpp:201-207 | over two consecutive rounds with byes every team is at home as often as away |
| Balance.DayAwaySplit | src/schedule.cpp:318-329 | on a day naming teams below `n`, a team's away games are the sum of its crosstable row and its home games the sum of its column |
| Balance.TotalAwaySplit | src/schedule.cpp:316-336 | over all days, `total_num_games_by_team[t][AWAY]` is the sum of row `t` of `num_games_crosstable` and `[t][HOME]` the sum of column `t` |
| Balance.AwayVsAppend | src/schedule.cpp:316-336 | the crosstable cell over two runs of days is the sum of the cells over each |
| Balance.AwayVsAtMost | src/schedule.cpp:319-326 | a crosstable cell never exceeds the half-crosstable entry of the pair |
| Balance.CountBothWays | src/schedule.cpp:319-326 | each game between two teams counts in exactly one of the cells `[t][o]` and `[o][t]` |
| Balance.AwayVsSum | src/schedule.cpp:319-326 | the cells `[t][o]` and `[o][t]` add up to the half-crosstable entry of the pair |
| Balance.FollowRuled | src/schedule.cpp:64-70 | games that follow the parity rule of round `r` put `t` away at `o` in every meeting of the two when the rule says so, and in none otherwise |
| Balance.RoundRuled | src/schedule.cpp:64-70 | over days decided by the rule of round `r`, the cell is all the meetings of the pair or none |
| Balance.NoMeetRuled | src/schedule.cpp:319-320 | games in which the pair does not meet leave its cell empty |
| Balance.CoupledDayRuled | src/schedule.cpp:122-215 | a coupled day is decided by a rule that decides both its cross-division game and its rings |
| Balance.CrossRuledApart | src/schedule.cpp:319-320 | a game that is not between two teams leaves their cell empty |
| Balance.RingsRuledSame | src/schedule.cpp:147-209 | the rings of a coupled day follow the rule of the intra-division round |
| Balance.CrossRuledSame | src/schedule.cpp:126-133 | the cross-division game never joins two teams of one division, so it leaves their cell empty |
| Balance.CoupledDayRuledApart | src/schedule.cpp:122-215 | when the cross-division game leaves two teams to the rule of the intra-division round, the whole coupled day places them by that rule |
| Balance.CoupledDayRuledSame | src/schedule.cpp:122-215 | on a coupled day, two teams of one division are placed by the rule of the intra-division round |
| Balance.CrossRuled | src/schedule.cpp:126-133 | the cross-division game places its teams by the rule of `inter_round` |
| Balance.RingsRuledCross | src/schedule.cpp:147-209 | the rings of a coupled day put no team away at a team of the other division |
| Balance.CoupledPartsRuledCross | src/schedule.cpp:126-209 | on a coupled day, the cross-division game and the rings both place a team of one division against a team of the other by the rule of `inter_round` |
| Balance.CoupledDayRuledCross | src/schedule.cpp:122-215 | on a coupled day, a team of one division is placed against a team of the other by the rule of `inter_round` |
| Balance.IntraRoundRuledSame | src/schedule.cpp:36-231 | in every kind of intra-division round, two teams of a division are placed by the rule of the round |
| Balance.IntraRoundAwaySame | src/schedule.cpp:36-231 | in intra-division round `r`, `O + u` is away at `O + v` once when the rule of `r` says so, otherwise never |
| Balance.IntraAwaySame | src/schedule.cpp:36-231 | over the first `k` rounds, the cell counts the rounds among `0 .. k - 1` whose rule puts `O + u` away |
| Balance.NoMeetsNoAways | src/schedule.cpp:319-320 | days on which two teams never meet leave their cell empty |
| Balance.SameDivisionAways | src/schedule.cpp:20-256 | over the whole schedule, `num_games_crosstable[O + u][O + v]` is the number of rounds among `0 .. Gi - 1` whose rule puts `O + u` away |
| Balance.AwayHitsAdvance | src/schedule.cpp:222-229 | using up shift `s` adds an away game of `t` at `o` exactly when the rule of `inter_round` says so |
| Balance.IntraRoundAwayCross | src/schedule.cpp:101-229 | an intra-division round adds an away game of `x` at `T + y` exactly when it is coupled, uses up their shift and the rule of `inter_round` puts `x` away |
| Balance.IntraAwayCross | src/schedule.cpp:36-231 | in the first `k` rounds, `x` is away at `T + y` once for every used-up shift of theirs in a round whose rule puts `x` away |
| Balance.InterAwayCross | src/schedule.cpp:234-256 | on the inter-division days still owed, `x` is away at `T + y` once for every remaining round whose rule puts `x` away |
| Balance.HitsJoin | src/schedule.cpp:222-256 | the inter-division rounds passed in coupled rounds and those still owed make up all `Gx` rounds |
| Balance.CrossDivisionAways | src/schedule.cpp:20-256 | with two divisions, `num_games_crosstable[x][T + y]` is the number of rounds among `0 .. Gx - 1` whose rule puts `x` away |
| Balance.RuleCountClosed | src/schedule.cpp:64-68 | over `k` rounds the parity rule puts `t` away at `o` exactly `k / 2` times when `k` is even, and once more or once less, as round 0 says, when `k` is odd |
| Balance.PairDiffBuilt | src/schedule.cpp:20-256 | over the whole schedule, cells `[t][o]` and `[o][t]` differ by one game when the pair meets an odd number of times, and are equal otherwise |
| Balance.SameDivisionDiff | src/schedule.cpp:36-231 | within a division the two cells of a pair differ by the sign of round 0 when `Gi` is odd, and are equal when it is even |
| Balance.CrossDivisionDiff | src/schedule.cpp:101-256 | across divisions the two cells of a pair differ by the sign of round 0 when `Gx` is odd, and are equal when it is even |
| Balance.SgnAbove | src/schedule.cpp:64-68 | against consecutive opponents above `t`, round 0's sides alternate and cancel in pairs |
| Balance.SgnBelow | src/schedule.cpp:64-68 | against consecutive opponents below `t`, round 0's sides alternate and cancel in pairs |
| Balance.SgnOwn | src/schedule.cpp:64-68 | over its own division, round 0's sides of `t` add up to `(t - lo) mod 2 - (hi - t - 1) mod 2` |
| Balance.OwnBlock | src/schedule.cpp:64-68 | over its own division, round 0's sides of a team leave at most one game, none with an odd number of teams |
| Balance.OtherBlock | src/schedule.cpp:64-68 | over the other division, round 0's sides of a team leave at most one game, none with an even number of teams |
| Balance.BlockDiff | src/schedule.cpp:64-68 | against one division, the pair differences add up to round 0's sides when the pair meets an odd number of times, otherwise to 0 |
| Balance.BuiltDiffSplit | src/schedule.cpp:316-336 | a team's away total less its home total is the sum of its pair differences against every opponent |
| Balance.BlocksBound | src/schedule.cpp:64-68 | what the own division and the other division leave over cannot both be a game |
| Balance.TwoDivisionsBound | src/schedule.cpp:64-68 | with two divisions, a team's pair differences add up to at most one game |
| Balance.DiffRowBound | src/schedule.cpp:64-68 | a team's pair differences add up to at most one game, with one division or two |
| Balance.BuiltBalance | src/schedule.cpp:64-67 | the "equal number of home / away games" the parity rule aims at: every team's home and away totals over the whole schedule differ by at most one |
| Order.EvenDivsFront | src/schedule.cpp:60-71 | an even day opens with team 0's game against team `m` |
| Order.EvenDayFront | src/schedule.cpp:60-71 | on day `j + 1` of an even round the first game is between teams 0 and `j + 1` |
| Order.ByeDivsFront | src/schedule.cpp:159-171 | a day with byes opens with team 0's game against team `m`, or team 0's bye on the last day |
| Order.ByeDayFront | src/schedule.cpp:159-171 | on day `j + 1` of a round with byes the first game is team 0's, against `j + 1` or the bye |
| Order.CoupledDayFront | src/schedule.cpp:134-145 | on a coupled day the first game involves team 0 exactly on days 1, 2 and `T` |
| Order.CoupledDayOpens | src/schedule.cpp:172-192 | from day 2 on, a coupled day opens with division 0's first ring game, between teams `m - 2` and `m mod T`, placed by the round's parity |
| Schedule.StepEvenTeams | src/schedule.cpp:77-84 | stepping `team1` back and `team2` forward with the wrap-around moves both one position around the even ring |
| Schedule.EvenRingLoop | src/schedule.cpp:73-93 | the loop over `i` writes the ring games of the circle method into the day, one slot each, and nothing else |
| Schedule.FillEvenDay | src/schedule.cpp:52-95 | the day vector of an even day equals the closed form `EvenDivs` |
| Schedule.StepOddTeams | src/schedule.cpp:184-192 | the stepping of lines 184-192 moves both teams one position around the odd ring, in either mode |
| Schedule.SetOddGame | src/schedule.cpp:194-207 | the slot receives the bye game of the other team or the pairing by the parity rule |
| Schedule.OddRingStep | src/schedule.cpp:184-208 | one pass of the loop steps both teams and stores the next ring game |
| Schedule.OddRingLoop | src/schedule.cpp:180-209 | the loop writes the `(T - 1) / 2` ring games of an odd division and nothing else |
| Schedule.FillOddDivision | src/schedule.cpp:152-209 | a division's block equals `ByeBlock` with byes and `CoupledBlock` around the crossing team without |
| Schedule.FillOddBlock | src/schedule.cpp:147-209 | one pass of the loop over divisions fills that division's block after the earlier ones and leaves the slots before it as they were |
| Schedule.PlaceCrossGame | src/schedule.cpp:126-145 | the cross-division game of `teamA = m - 1` and `teamB` goes first for team 0, last otherwise, and `game_num` is set after it |
| Schedule.DayLayout | src/schedule.cpp:126-145 | a day whose cross-division game sits first or last, around the division blocks, is that game followed or preceded by the blocks |
| Schedule.FillOddDivisions | src/schedule.cpp:147-210 | the blocks of all divisions fill the slots after the cross-division game |
| Schedule.FillOddDay | src/schedule.cpp:122-215 | the day vector of an odd day equals `ByeDivs` with byes and `CoupledDay` without |
| Schedule.FillInterDay | src/schedule.cpp:243-253 | the day vector of an inter-division day equals `InterDay` |
| Schedule.AppendEvenRound | src/schedule.cpp:39-99 | an even round appends exactly the `T - 1` days of `EvenRound` |
| Schedule.AppendOddRound | src/schedule.cpp:101-229 | an odd round appends `CoupledRound` and advances the counters by one shift when coupled, and appends `ByeRound` with the counters unchanged otherwise |
| Schedule.AppendInterRound | src/schedule.cpp:238-255 | the inner loop appends the inter-division days from the current shift to the end of the round |
| Schedule.AppendInterDays | src/schedule.cpp:234-256 | the outer loop appends every inter-division day still owed, none with one division |
| Schedule.Shuffle | src/schedule.cpp:258-267 | the shuffle only reorders the days |
| Schedule.SsSchedule.constructor | src/schedule.cpp:20-268 | the constructed object keeps its parameters and holds exactly the days of `Built`, in some order; the days are constant afterwards, as the private `matches` of src/schedule.hpp is |
| Schedule.SsSchedule.NumDays | src/schedule.hpp:43 | `num_days` is the number of days, `DayCount` |
| Schedule.SsSchedule.GetMatches | src/schedule.hpp:45-47 | `get_matches(day)` returns the stored day `day` unchanged, and that day is one of the constructed days |
| Schedule.NewSchedule | src/schedule.cpp:20-27 | construction fails with the too-many-divisions error if and only if there are more than two divisions, and otherwise yields a valid schedule |
| Theorems.OnceIsNoTwice | src/schedule.cpp:330-333 | a day in which every team appears once passes the no-team-twice check |
| Theorems.ShuffledLength | src/schedule.cpp:258-267 | any order of the days has `DayCount` days |
| Theorems.ShuffledDay | src/schedule.cpp:316-336 | every day in any order has each team exactly once and passes the check of lines 330-333 |
| Theorems.ShuffledSameDivision | src/schedule.cpp:316-327 | in any order of the days, two teams of a division meet `Gi` times |
| Theorems.ShuffledCrossDivision | src/schedule.cpp:316-327 | in any order of the days, teams of different divisions meet `Gx` times |
| Theorems.ShuffledByes | src/schedule.cpp:316-336 | in any order of the days, every team takes `ByeRounds` byes |
| Theorems.ShuffledBalance | src/schedule.cpp:328-329 | in any order of the days, every team's home and away totals differ by at most one |
| Theorems.ShuffledPairDiff | src/schedule.cpp:320 | in any order of the days, the crosstable cells `[t][o]` and `[o][t]` differ by `LeftOver`: by one game, to the side round 0 picks, when the pair meets an odd number of times, otherwise not at all |
| Theorems.ScheduleFacts | src/schedule.cpp:316-336 | for a constructed schedule: `num_days` days, no team twice on a day, `Gi` meetings within a division, `Gx` across, `ByeRounds` byes per team, and home and away totals that differ by at most one |

## Left out

- `print` and the printing half of `print_stats` (src/schedule.cpp:270-301, 338-375): formatted output only. The tallies they print are modelled as functions in `Stats`.
- The random engine and the clock seed (src/schedule.cpp:259-267): the shuffle takes the random draw as a parameter `draw`.
  - Only the fact that the days are reordered is proved, not the distribution.
  - `params.seed` is kept in `Params` but not used.
- `Schedule.Shuffle`: its contract states only that the days are permuted, not which permutation `std::shuffle` picks for a given seed.
- The command-line front end (src/test.cpp) is not part of this model. Its checks (divisions and teams at least 1, game counts at least 0) are the precondition `CallerValid` and the `nat` fields of `Params`.
- C++ `int` overflow: counts are unbounded integers. The source would overflow only for parameters whose schedules do not fit in memory.
- The `assert`s of src/schedule.cpp:95, 112, 128 and 211-215 are not run-time checks in the model. Their facts are proved instead:
  - day sizes: `Counts.EvenRoundSizes`, `Counts.ByeRoundSizes`, `Counts.CoupledDayLength`;
  - the coupled days have two divisions: `Schedule.FillOddDay`'s requires.
- The throw "Too many divisions" (src/schedule.cpp:176-178) is the `assert false` branch of `Schedule.FillOddDivisions`. It is proved unreachable: the method requires at most two divisions, which the check at lines 24-27 guarantees.
- Coupled rounds: their hosts are proved to follow the parity rule (`Hosts.CoupledRoundFollows`), but no flip between consecutive coupled rounds is stated. Two such rounds use different shifts, so their days are not swapped copies of each other.
