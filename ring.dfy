/** The circle of the round-robin method. An odd number `n` of positions
    sit on a ring; on the day whose centre is `c`, the game with index `i`
    (1 <= i <= (n-1)/2) pairs the position `i` steps behind `c` with the
    position `i` steps ahead of it. The centre itself is left over: it
    meets the fixed team, takes the bye, or plays across divisions. */
module Ring {

  predicate Odd(n: int) { n > 0 && n % 2 == 1 }

  /** Number of paired games around the ring. */
  function Half(n: int): int { (n - 1) / 2 }

  /** The position `i` steps behind `c`, wrapping around. */
  function Back(c: int, i: int, n: int): (p: int)
    requires 0 <= c < n && 0 <= i < n
    ensures 0 <= p < n
  {
    if c >= i then c - i else c - i + n
  }

  /** The position `i` steps ahead of `c`, wrapping around. */
  function Fwd(c: int, i: int, n: int): (p: int)
    requires 0 <= c < n && 0 <= i < n
    ensures 0 <= p < n
  {
    if c + i < n then c + i else c + i - n
  }

  /** `{p, q} == {x, y}` for two positions. */
  predicate IsPair(p: int, q: int, x: int, y: int)
  {
    (p == x && q == y) || (p == y && q == x)
  }

  /** The centre of the day on which `x` and `y` are paired: the solution
      of `2c == x + y (mod n)`. */
  function Mid(n: int, x: int, y: int): (c: int)
    requires Odd(n) && 0 <= x < n && 0 <= y < n
    ensures 0 <= c < n
    ensures 2 * c == x + y || 2 * c == x + y + n || 2 * c == x + y - n
  {
    if (x + y) % 2 == 0 then (x + y) / 2
    else if x + y < n then (x + y + n) / 2
    else (x + y - n) / 2
  }

  /** A game pairs two different positions, neither of them the centre,
      and its two positions add up to twice the centre. */
  lemma PairShape(n: int, c: int, i: int)
    requires Odd(n) && 0 <= c < n && 1 <= i <= Half(n)
    ensures Back(c, i, n) != Fwd(c, i, n)
    ensures Back(c, i, n) != c && Fwd(c, i, n) != c
    ensures var s := Back(c, i, n) + Fwd(c, i, n); s == 2 * c || s == 2 * c + n || s == 2 * c - n
  {
  }

  /** Two different games of one day share no position. */
  lemma PairsDisjoint(n: int, c: int, i: int, j: int)
    requires Odd(n) && 0 <= c < n && 1 <= i <= Half(n) && 1 <= j <= Half(n) && i != j
    ensures Back(c, i, n) != Back(c, j, n) && Back(c, i, n) != Fwd(c, j, n)
    ensures Fwd(c, i, n) != Fwd(c, j, n) && Fwd(c, i, n) != Back(c, j, n)
  {
  }

  /** The index of the game that holds position `x` on the day centred at `c`. */
  function PairIndex(n: int, c: int, x: int): (i: int)
    requires Odd(n) && 0 <= c < n && 0 <= x < n && x != c
    ensures 1 <= i <= Half(n)
    ensures x == Back(c, i, n) || x == Fwd(c, i, n)
  {
    var d := if x >= c then x - c else x - c + n;
    if d <= Half(n) then d else n - d
  }

  /** Every position except the centre is in exactly one game of the day. */
  lemma {:induction false} Covered(n: int, c: int, x: int)
    requires Odd(n) && 0 <= c < n && 0 <= x < n
    ensures x == c <==> forall i :: 1 <= i <= Half(n) ==> Back(c, i, n) != x && Fwd(c, i, n) != x
  {
    if x == c {
      forall i | 1 <= i <= Half(n) ensures Back(c, i, n) != x && Fwd(c, i, n) != x {
        PairShape(n, c, i);
      }
    } else {
      var i := PairIndex(n, c, x);
    }
  }

  /** A game whose two positions are `x` and `y` only happens on the day
      centred at their Mid. */
  lemma PairedOnlyAtMid(n: int, c: int, i: int, x: int, y: int)
    requires Odd(n) && 0 <= c < n && 0 <= x < n && 0 <= y < n && x != y
    requires 1 <= i <= Half(n) && IsPair(Back(c, i, n), Fwd(c, i, n), x, y)
    ensures c == Mid(n, x, y)
  {
    PairShape(n, c, i);
    var m := Mid(n, x, y);
    assert 2 * c - 2 * m == 0 || 2 * c - 2 * m == n || 2 * c - 2 * m == -n
        || 2 * c - 2 * m == 2 * n || 2 * c - 2 * m == -2 * n;
  }

  /** On the day centred at their Mid, `x` and `y` are paired by the game
      that holds `x`. */
  lemma PairedAtMid(n: int, x: int, y: int)
    requires Odd(n) && 0 <= x < n && 0 <= y < n && x != y
    ensures Mid(n, x, y) != x
    ensures var c := Mid(n, x, y);
      IsPair(Back(c, PairIndex(n, c, x), n), Fwd(c, PairIndex(n, c, x), n), x, y)
  {
    var c := Mid(n, x, y);
    assert c != x;
    var i := PairIndex(n, c, x);
    PairShape(n, c, i);
  }

  /** Two different positions meet on exactly one day of a turn of the
      ring: the day whose centre is their Mid. */
  lemma {:induction false} PairedIff(n: int, c: int, x: int, y: int)
    requires Odd(n) && 0 <= c < n && 0 <= x < n && 0 <= y < n && x != y
    ensures (exists i :: 1 <= i <= Half(n) && IsPair(Back(c, i, n), Fwd(c, i, n), x, y))
            <==> c == Mid(n, x, y)
  {
    if exists i :: 1 <= i <= Half(n) && IsPair(Back(c, i, n), Fwd(c, i, n), x, y) {
      var i :| 1 <= i <= Half(n) && IsPair(Back(c, i, n), Fwd(c, i, n), x, y);
      PairedOnlyAtMid(n, c, i, x, y);
    }
    if c == Mid(n, x, y) {
      PairedAtMid(n, x, y);
    }
  }
}
