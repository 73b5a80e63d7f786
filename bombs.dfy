// Bomb placement in three-game.js: the random bomb count and the rejection
// sampling of generateBombs. Math.random is an oracle: the count is drawn
// from a real `r` in [0, 1), and the loop reads a stream `rand` of reals in
// [0, 1), rand(t) being the value Math.random() returns at the loop's t-th
// attempt; the candidate cell is computed from it as the loop computes it.

module BombPlacement {

  /** The global `totalBombs`: Math.floor(Math.random() * 20) + 10. */
  function TotalBombsFor(r: real): (n: int)
    requires 0.0 <= r < 1.0
    ensures 10 <= n <= 29
  {
    (r * 20.0).Floor + 10
  }

  /** Each count in 10..29 comes from some random value; so 29, not 30, is
      the largest bomb count. */
  lemma TotalBombsAttained(n: int)
    requires 10 <= n <= 29
    ensures 0.0 <= (n - 10) as real / 20.0 < 1.0
    ensures TotalBombsFor((n - 10) as real / 20.0) == n
  {
  }

  predicate NoDuplicates(s: seq<int>)
  {
    forall i, j :: 0 <= i < j < |s| ==> s[i] != s[j]
  }

  /** A random value in [0, 1) scaled by a positive count lies in [0, count). */
  lemma ScaledBelow(u: real, n: real)
    requires 0.0 <= u < 1.0 && n > 0.0
    ensures 0.0 <= u * n < n
  {
    var gap := 1.0 - u;
    assert gap > 0.0;
    assert gap * n > 0.0;
    assert n - u * n == gap * n;
  }

  /** The candidate of one attempt: Math.floor(u * cellCount) + 1 for the
      random value u. */
  function Candidate(u: real, cellCount: nat): (c: int)
    ensures 0.0 <= u < 1.0 ==> 1 <= c && (cellCount > 0 ==> c <= cellCount)
  {
    var x := u * cellCount as real;
    if 0.0 <= u < 1.0 && cellCount > 0 then
      ScaledBelow(u, cellCount as real);
      x.Floor + 1
    else
      x.Floor + 1
  }

  /** The first n candidates the random source produces. */
  function Draws(rand: nat -> real, cellCount: nat, n: nat): (s: seq<int>)
    ensures |s| == n && forall t :: 0 <= t < n ==> s[t] == Candidate(rand(t), cellCount)
  {
    seq(n, t requires 0 <= t => Candidate(rand(t), cellCount))
  }

  /** The set of values among the first n candidates. */
  function DrawnValues(rand: nat -> real, cellCount: nat, n: nat): set<int>
  {
    set x | x in Draws(rand, cellCount, n)
  }

  /** The candidates of s with repeats dropped, in order of first
      appearance: what the loop of generateBombs builds from them. */
  function Distinct(s: seq<int>): (d: seq<int>)
    ensures NoDuplicates(d)
    ensures forall x :: x in d <==> x in s
    ensures |d| <= |s|
  {
    if s == [] then []
    else
      var prefix := Distinct(s[..|s| - 1]);
      var x := s[|s| - 1];
      assert forall y :: y in s <==> y in s[..|s| - 1] || y == x by {
        assert s == s[..|s| - 1] + [x];
      }
      if x in prefix then prefix else prefix + [x]
  }

  /** A sequence without repeats has as many distinct elements as entries. */
  lemma {:induction false} NoDuplicatesCardinality(s: seq<int>)
    requires NoDuplicates(s)
    ensures |set x | x in s| == |s|
  {
    if s != [] {
      var init, last := s[..|s| - 1], s[|s| - 1];
      assert s == init + [last];
      NoDuplicatesCardinality(init);
      assert last !in init;
      assert (set x | x in s) == (set x | x in init) + {last};
    }
  }

  /** One more candidate: the loop of generateBombs keeps it when it is new
      and drops it otherwise. */
  lemma {:induction false} DistinctStep(rand: nat -> real, cellCount: nat, t: nat)
    ensures var before := Distinct(Draws(rand, cellCount, t));
      var c := Candidate(rand(t), cellCount);
      Distinct(Draws(rand, cellCount, t + 1)) == if c in before then before else before + [c]
  {
    var s := Draws(rand, cellCount, t + 1);
    assert s[..|s| - 1] == Draws(rand, cellCount, t);
  }

  /** The distinct candidates are as many as the values drawn. */
  lemma {:induction false} DistinctCountsDrawnValues(rand: nat -> real, cellCount: nat, t: nat)
    ensures |Distinct(Draws(rand, cellCount, t))| == |DrawnValues(rand, cellCount, t)|
  {
    var d := Distinct(Draws(rand, cellCount, t));
    NoDuplicatesCardinality(d);
    assert (set x | x in d) == DrawnValues(rand, cellCount, t);
  }

  /** Every candidate kept is a cell index: Math.random() lies in [0, 1), so
      the candidate lies in 1..cellCount. */
  lemma DistinctDrawsInRange(rand: nat -> real, cellCount: nat, t: nat)
    requires forall u :: 0.0 <= rand(u) < 1.0
    requires cellCount > 0
    ensures forall x :: x in Distinct(Draws(rand, cellCount, t)) ==> 1 <= x <= cellCount
  {
  }
}
