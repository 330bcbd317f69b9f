/**
 * The pseudo-random engine shared by dataset generation and task shuffling
 * (std::mt19937 with uniform_int_distribution and std::shuffle). Its internal
 * state is not modelled: every draw is an unconstrained choice within its range.
 */
module Random {
  import opened Types

  class Engine {
    /**
     * Fairness of the engine, standing for its unmodelled internal state: the
     * number of draws that may still return a value the caller has already seen.
     * Once it reaches zero, every draw is fresh.
     */
    var collisionBudget: nat
    /** The values UniformInt has returned so far, oldest first. */
    ghost var draws: seq<u64>

    /**
     * Seeding the engine. The seed's effect on the stream is not modelled, and
     * the collision budget starts at an arbitrary value.
     */
    constructor (seed: int)
      ensures draws == []
    {
      var budget: nat :| true;
      collisionBudget := budget;
      draws := [];
    }

    /**
     * A draw uniform over [lo, hi]. `seen` is the caller's set of values already
     * accepted; a draw inside it spends one unit of the collision budget.
     */
    method UniformInt(lo: u64, hi: u64, seen: set<u64>) returns (x: u64)
      requires lo <= hi
      requires |seen| <= (hi - lo) as int
      modifies this
      ensures lo <= x <= hi
      ensures draws == old(draws) + [x]
      ensures collisionBudget <= old(collisionBudget)
      ensures x in seen ==> collisionBudget < old(collisionBudget)
    {
      if collisionBudget == 0 {
        FreshValueExists(lo, hi, seen);
        x :| lo <= x <= hi && x !in seen;
      } else {
        x :| lo <= x <= hi;
        if x in seen {
          collisionBudget := collisionBudget - 1;
        }
      }
      draws := draws + [x];
    }

    /**
     * std::shuffle: a Fisher-Yates pass that swaps each position, from the last
     * down, with a drawn position at or below it. The result is a permutation.
     */
    method Shuffle<T>(a: array<T>)
      modifies a
      ensures multiset(a[..]) == old(multiset(a[..]))
    {
      var i := a.Length;
      while i > 1
        invariant 0 <= i <= a.Length
        invariant multiset(a[..]) == old(multiset(a[..]))
      {
        i := i - 1;
        var j :| 0 <= j <= i;
        a[i], a[j] := a[j], a[i];
      }
    }
  }

  /** The values lo, lo + 1, ..., hi, as a set. */
  function Span(lo: u64, hi: u64): (r: set<u64>)
    requires lo <= hi
    ensures forall y :: y in r <==> lo <= y <= hi
    ensures |r| == (hi - lo) as int + 1
    decreases hi - lo
  {
    if lo == hi then {lo} else Span(lo, hi - 1) + {hi}
  }

  /** Pigeonhole: a set smaller than [lo, hi] misses some value of it. */
  lemma FreshValueExists(lo: u64, hi: u64, seen: set<u64>)
    requires lo <= hi
    requires |seen| <= (hi - lo) as int
    ensures exists y :: lo <= y <= hi && y !in seen
  {
    var range := Span(lo, hi);
    var hit := range * seen;
    assert seen == hit + (seen - range);
    assert range == hit + (range - seen);
    var y :| y in range - seen;
  }
}
