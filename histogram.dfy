/**
 * The specification side of the hourly access histogram: how often an hour
 * occurs among the log entries, the sum of a table of counts, and the 24-slot
 * table that a sequence of entry hours should produce.
 */
module Histogram {

  /** Number of slots in the hourly table, one per hour of the day. */
  const HOURS: nat := 24

  /** An hour a log entry may carry, and therefore an index of the table. */
  predicate IsHour(h: int) {
    0 <= h < HOURS
  }

  /** Every entry hour in `s` indexes the table. */
  predicate AllHours(s: seq<int>) {
    forall i :: 0 <= i < |s| ==> IsHour(s[i])
  }

  /** Number of occurrences of `h` in `s`, counted from the end so that it
      follows a pass that appends one entry at a time. */
  ghost function CountOf(s: seq<int>, h: int): nat
    decreases |s|
  {
    if s == [] then 0
    else CountOf(s[..|s| - 1], h) + (if s[|s| - 1] == h then 1 else 0)
  }

  /** Sum of a table of counts, taken from the left like a forward scan. */
  ghost function Sum(s: seq<int>): int
    decreases |s|
  {
    if s == [] then 0 else Sum(s[..|s| - 1]) + s[|s| - 1]
  }

  /** The hourly table that the entry hours `s` should produce from zero. */
  ghost function Tally(s: seq<int>): seq<int> {
    seq(HOURS, h => CountOf(s, h))
  }

  /** Counting distributes over concatenation: counting two stretches of the
      log one after the other is counting the whole. */
  lemma {:induction false} CountOfSplit(s: seq<int>, t: seq<int>, h: int)
    ensures CountOf(s + t, h) == CountOf(s, h) + CountOf(t, h)
    decreases |t|
  {
    if t == [] {
      assert s + t == s;
    } else {
      var t' := t[..|t| - 1];
      assert (s + t)[..|s + t| - 1] == s + t';
      CountOfSplit(s, t', h);
    }
  }

  /** CountOf agrees with the multiplicity of `h` in the multiset of `s`,
      an independent definition of "how many entries have hour h". */
  lemma {:induction false} CountOfIsMultiplicity(s: seq<int>, h: int)
    ensures CountOf(s, h) == multiset(s)[h]
    decreases |s|
  {
    if s != [] {
      var init := s[..|s| - 1];
      assert s == init + [s[|s| - 1]];
      CountOfIsMultiplicity(init, h);
    }
  }

  /** Raising one slot by `d` raises the sum by `d`. */
  lemma {:induction false} SumUpdate(a: seq<int>, i: int, d: int)
    requires 0 <= i < |a|
    ensures Sum(a[i := a[i] + d]) == Sum(a) + d
    decreases |a|
  {
    var b := a[i := a[i] + d];
    var n := |a|;
    if i == n - 1 {
      assert b[..n - 1] == a[..n - 1];
    } else {
      assert b[..n - 1] == a[..n - 1][i := a[i] + d];
      SumUpdate(a[..n - 1], i, d);
    }
  }

  /** A table of zeros sums to zero. */
  lemma {:induction false} SumOfZeros(n: nat)
    ensures Sum(seq(n, _ => 0)) == 0
    decreases n
  {
    if n > 0 {
      assert seq(n, _ => 0)[..n - 1] == seq(n - 1, _ => 0);
      SumOfZeros(n - 1);
    }
  }

  /** The table for no entries is all zeros. */
  lemma TallyEmpty()
    ensures Tally([]) == seq(HOURS, _ => 0)
  {
  }

  /** Consuming one more entry with a valid hour increments exactly that
      hour's slot and leaves the other 23 as they were. */
  lemma TallyStep(s: seq<int>, x: int)
    requires IsHour(x)
    ensures Tally(s + [x]) == Tally(s)[x := Tally(s)[x] + 1]
  {
  }

  /** Every entry with a valid hour lands in exactly one slot, so the table
      of a log sums to the number of its entries. */
  lemma {:induction false} SumOfTally(s: seq<int>)
    requires AllHours(s)
    ensures Sum(Tally(s)) == |s|
    decreases |s|
  {
    if s == [] {
      TallyEmpty();
      SumOfZeros(HOURS);
    } else {
      var init, x := s[..|s| - 1], s[|s| - 1];
      assert s == init + [x];
      SumOfTally(init);
      TallyStep(init, x);
      SumUpdate(Tally(init), x, 1);
    }
  }
}
