/** The random source of the game as an oracle: draw k of the stream is
    rand(k), a natural number the consumer reduces to the range it needs,
    as random.shuffle and random.randint do. */
module Randomness {
  import opened Grid

  /** The Fisher-Yates pass of random.shuffle: for i from |s|-1 down to 1,
      draw j in [0, i] and swap positions i and j. `draws[k]` is the k-th
      draw, reduced to the range the k-th swap needs. After the swap at i,
      position i is final, so the rest of the pass works on s[..i]. */
  function Shuffled<T>(s: seq<T>, draws: seq<nat>): (r: seq<T>)
    requires |draws| + 1 >= |s|
    ensures |r| == |s|
    ensures multiset(r) == multiset(s)
    decreases |s|
  {
    if |s| <= 1 then s
    else
      var i := |s| - 1;
      var j := draws[0] % (i + 1);
      var t := s[i := s[j]][j := s[i]];
      assert multiset(t) == multiset(s) by { SwapPreservesMultiset(s, i, j); }
      assert t == t[..i] + [t[i]];
      Shuffled(t[..i], draws[1..]) + [t[i]]
  }

  lemma {:induction false} SwapPreservesMultiset<T>(s: seq<T>, i: nat, j: nat)
    requires i < |s| && j < |s|
    ensures multiset(s[i := s[j]][j := s[i]]) == multiset(s)
  {
    var t := s[i := s[j]];
    assert multiset(t) == multiset(s) - multiset{s[i]} + multiset{s[j]};
    assert t[j] == s[j];
    assert multiset(t[j := s[i]]) == multiset(t) - multiset{t[j]} + multiset{s[i]};
  }

  /** A shuffle only rearranges: every element of the result is an element of the input. */
  lemma {:induction false} ShuffledElements<T>(s: seq<T>, draws: seq<nat>, x: T)
    requires |draws| + 1 >= |s|
    ensures x in Shuffled(s, draws) <==> x in s
  {
    var r := Shuffled(s, draws);
    assert x in r <==> x in multiset(r);
    assert x in s <==> x in multiset(s);
  }

  /** rand(start), rand(start + 1), ..., n draws in all. */
  function DrawsFrom(rand: nat -> nat, start: nat, n: nat): (r: seq<nat>)
    ensures |r| == n
    ensures forall k | 0 <= k < n :: r[k] == rand(start + k)
    decreases n
  {
    if n == 0 then [] else [rand(start)] + DrawsFrom(rand, start + 1, n - 1)
  }

  /** random.randint(1, COLS - 2), random.randint(1, ROWS - 2) taken from
      draws k and k + 1. */
  function DrawCell(rand: nat -> nat, k: nat): (c: Cell)
    ensures 1 <= c.0 <= COLS - 2 && 1 <= c.1 <= ROWS - 2
  {
    (1 + rand(k) % (COLS - 2), 1 + rand(k + 1) % (ROWS - 2))
  }

  /** The first draw of the t-th cell drawn from cursor k on. */
  function PairStart(k: nat, t: nat): nat {
    k + 2 * t
  }

  /** Inner cells: the range of DrawCell. */
  predicate Inner(c: Cell) {
    1 <= c.0 <= COLS - 2 && 1 <= c.1 <= ROWS - 2
  }

  /** A fair stream: from any cursor on, every inner cell is drawn again.
      Under this assumption the retry loops of get_random_spawn and
      generate_key_positions end, as they do with probability one. */
  ghost predicate Fair(rand: nat -> nat) {
    forall c: Cell, k: nat | Inner(c) :: DrawnFrom(rand, c, k)
  }

  /** Cell c is drawn at some pair from cursor k on. */
  ghost predicate DrawnFrom(rand: nat -> nat, c: Cell, k: nat) {
    exists t: nat :: DrawCell(rand, PairStart(k, t)) == c
  }
}
