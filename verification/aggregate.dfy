/**
 * The duration aggregator: the duration of one entry and the summation loop
 * of the total command, on 64-bit nanosecond durations.
 *
 * Timestamps stay opaque strings; `seconds` stands for parsing one with the
 * times file's layout and gives its instant in whole seconds (a string that
 * does not parse gives the zero time, as the source ignores the parse error).
 */
module Aggregate {
  import opened Csv

  const Second := 1_000_000_000
  const MinDuration := -0x8000_0000_0000_0000
  const MaxDuration := 0x7FFF_FFFF_FFFF_FFFF
  const Modulus := 0x1_0000_0000_0000_0000

  predicate InRange(x: int)
  {
    MinDuration <= x <= MaxDuration
  }

  /** A difference of instants as a Duration: saturated at the bounds of 64 bits. */
  function Saturate(x: int): (r: int)
    ensures InRange(r)
    ensures InRange(x) ==> r == x
    ensures x < MinDuration ==> r == MinDuration
    ensures x > MaxDuration ==> r == MaxDuration
    ensures (r < 0 <==> x < 0) && (r == 0 <==> x == 0)
  {
    if x < MinDuration then MinDuration else if x > MaxDuration then MaxDuration else x
  }

  /** A sum of Durations: wraps around at 64 bits. */
  function Wrap(x: int): (r: int)
    ensures InRange(r)
    ensures InRange(x) ==> r == x
  {
    (x - MinDuration) % Modulus + MinDuration
  }

  /** Wrapping once in the middle of a sum changes nothing. */
  lemma WrapAdd(x: int, y: int)
    ensures Wrap(Wrap(x) + y) == Wrap(x + y)
  {
    var q := (x - MinDuration) / Modulus;
    assert x - MinDuration == q * Modulus + (x - MinDuration) % Modulus;
    assert Wrap(x) + y - MinDuration == (x + y - MinDuration) - q * Modulus;
  }

  /** duration(a, b): the time from b to a; negative when a is earlier than b. */
  function Duration(seconds: string -> int, a: string, b: string): (d: int)
    ensures InRange(d)
    ensures d < 0 <==> seconds(a) < seconds(b)
    ensures d == 0 <==> seconds(a) == seconds(b)
    ensures InRange((seconds(a) - seconds(b)) * Second) ==> d == (seconds(a) - seconds(b)) * Second
    ensures (seconds(a) - seconds(b)) * Second < MinDuration ==> d == MinDuration
    ensures (seconds(a) - seconds(b)) * Second > MaxDuration ==> d == MaxDuration
  {
    Saturate((seconds(a) - seconds(b)) * Second)
  }

  predicate HasEnd(rows: seq<Row>)
  {
    forall i :: 0 <= i < |rows| ==> |rows[i]| >= 2
  }

  /** The exact sum of duration(row[0], row[1]) over the rows, as the source adds them. */
  function Sum(seconds: string -> int, rows: seq<Row>): int
    requires HasEnd(rows)
  {
    if rows == [] then 0
    else
      var last := rows[|rows| - 1];
      Sum(seconds, rows[..|rows| - 1]) + Duration(seconds, last[0], last[1])
  }

  /** Total's loop: one Duration per entry added into a 64-bit sum. */
  method SumDurations(seconds: string -> int, entries: seq<Row>) returns (sum: int)
    requires HasEnd(entries)
    ensures sum == Wrap(Sum(seconds, entries))
  {
    sum := 0;
    for k := 0 to |entries|
      invariant sum == Wrap(Sum(seconds, entries[..k]))
    {
      assert entries[..k + 1][..k] == entries[..k];
      var d := Duration(seconds, entries[k][0], entries[k][1]);
      WrapAdd(Sum(seconds, entries[..k]), d);
      sum := Wrap(sum + d);
    }
    assert entries[..|entries|] == entries;
  }

  lemma {:induction false} SumConcat(seconds: string -> int, a: seq<Row>, b: seq<Row>)
    requires HasEnd(a) && HasEnd(b)
    ensures HasEnd(a + b)
    ensures Sum(seconds, a + b) == Sum(seconds, a) + Sum(seconds, b)
    decreases |b|
  {
    if b == [] {
      assert a + b == a;
    } else {
      assert (a + b)[..|a + b| - 1] == a + b[..|b| - 1];
      SumConcat(seconds, a, b[..|b| - 1]);
    }
  }

  /** The total does not depend on the order of the entries. */
  lemma {:induction false} SumPermutation(seconds: string -> int, a: seq<Row>, b: seq<Row>)
    requires HasEnd(a) && HasEnd(b)
    requires multiset(a) == multiset(b)
    ensures Sum(seconds, a) == Sum(seconds, b)
    decreases |a|
  {
    if a == [] {
      assert |multiset(b)| == 0;
    } else {
      var j := MatchLast(a, b);
      var init := SumWithout(seconds, a, |a| - 1);
      var rest := SumWithout(seconds, b, j);
      SumPermutation(seconds, init, rest);
    }
  }

  /** The last of the entries is somewhere in any reordering of them, and what remains on both sides is again a reordering. */
  lemma MatchLast(a: seq<Row>, b: seq<Row>) returns (j: nat)
    requires a != [] && multiset(a) == multiset(b)
    ensures j < |b| && b[j] == a[|a| - 1]
    ensures multiset(a[..|a| - 1] + a[|a|..]) == multiset(b[..j] + b[j + 1..])
  {
    var x := a[|a| - 1];
    assert x in b by {
      assert x in multiset(a);
    }
    j :| 0 <= j < |b| && b[j] == x;
    RemoveOne(a, |a| - 1);
    RemoveOne(b, j);
  }

  /** Taking the entry at `j` out of the entries takes one copy of it out of their multiset. */
  lemma RemoveOne(b: seq<Row>, j: nat)
    requires j < |b|
    ensures multiset(b[..j] + b[j + 1..]) == multiset(b) - multiset{b[j]}
  {
    assert b == b[..j] + [b[j]] + b[j + 1..];
  }

  /** Taking one entry out of the sum subtracts its duration. */
  lemma SumWithout(seconds: string -> int, b: seq<Row>, j: nat) returns (rest: seq<Row>)
    requires HasEnd(b) && j < |b|
    ensures rest == b[..j] + b[j + 1..] && HasEnd(rest)
    ensures |b[j]| >= 2 && Sum(seconds, b) == Sum(seconds, rest) + Duration(seconds, b[j][0], b[j][1])
  {
    var pre, x, post := b[..j], b[j], b[j + 1..];
    rest := pre + post;
    assert HasEnd(pre) && HasEnd(post) && |x| >= 2 by {
      assert forall i :: 0 <= i < |pre| ==> pre[i] == b[i];
      assert forall i :: 0 <= i < |post| ==> post[i] == b[j + 1 + i];
    }
    var d := Duration(seconds, x[0], x[1]);
    assert Sum(seconds, b) == Sum(seconds, pre) + d + Sum(seconds, post) by {
      var one: seq<Row> := [x];
      assert one[..0] == [];
      assert b == pre + one + post;
      SumConcat(seconds, pre, one);
      SumConcat(seconds, pre + one, post);
    }
    SumConcat(seconds, pre, post);
  }

  /** The 64-bit total of any reordering of the entries is the same. */
  lemma WrappedSumPermutation(seconds: string -> int, a: seq<Row>, b: seq<Row>)
    requires HasEnd(a) && HasEnd(b)
    requires multiset(a) == multiset(b)
    ensures Wrap(Sum(seconds, a)) == Wrap(Sum(seconds, b))
  {
    SumPermutation(seconds, a, b);
  }

  /** An entry whose end is not before its start. */
  predicate Ordered(seconds: string -> int, r: Row)
    requires |r| >= 2
  {
    seconds(r[0]) <= seconds(r[1])
  }

  /**
   * As written, an entry's duration is its start minus its end, so a log of
   * ordered entries never totals more than zero.
   */
  lemma {:induction false} SumNotPositive(seconds: string -> int, rows: seq<Row>)
    requires HasEnd(rows)
    requires forall i :: 0 <= i < |rows| ==> Ordered(seconds, rows[i])
    ensures Sum(seconds, rows) <= 0
  {
    if rows != [] {
      SumNotPositive(seconds, rows[..|rows| - 1]);
    }
  }

  /** As written, an entry lasting one hour counts as minus one hour. */
  lemma HourEntryCountsNegative(seconds: string -> int, start: string, end: string)
    requires seconds(end) == seconds(start) + 3600
    ensures Sum(seconds, [[start, end]]) == -3600 * Second
  {
    assert [[start, end]][..0] == [];
  }

  /** The intended duration of an entry: from its start (first field) to its end (second field). */
  function Elapsed(seconds: string -> int, r: Row): (d: int)
    requires |r| >= 2
    ensures InRange(d)
    ensures d >= 0 <==> Ordered(seconds, r)
    ensures InRange((seconds(r[1]) - seconds(r[0])) * Second) ==> d == (seconds(r[1]) - seconds(r[0])) * Second
  {
    Duration(seconds, r[1], r[0])
  }

  /** The intended total: the sum of Elapsed over the entries. */
  function ElapsedSum(seconds: string -> int, rows: seq<Row>): int
    requires HasEnd(rows)
  {
    if rows == [] then 0
    else
      var last := rows[|rows| - 1];
      ElapsedSum(seconds, rows[..|rows| - 1]) + Elapsed(seconds, last)
  }

  /** The intended total of ordered entries is never negative. */
  lemma {:induction false} ElapsedSumNotNegative(seconds: string -> int, rows: seq<Row>)
    requires HasEnd(rows)
    requires forall i :: 0 <= i < |rows| ==> Ordered(seconds, rows[i])
    ensures ElapsedSum(seconds, rows) >= 0
  {
    if rows != [] {
      ElapsedSumNotNegative(seconds, rows[..|rows| - 1]);
    }
  }

  /** Neither duration of the entry, forwards or backwards, reaches the 64-bit bounds. */
  predicate Unsaturated(seconds: string -> int, r: Row)
    requires |r| >= 2
  {
    InRange((seconds(r[1]) - seconds(r[0])) * Second) && InRange((seconds(r[0]) - seconds(r[1])) * Second)
  }

  /** Away from the bounds, the total as written is exactly the intended total negated. */
  lemma {:induction false} SumNegatesElapsed(seconds: string -> int, rows: seq<Row>)
    requires HasEnd(rows)
    requires forall i :: 0 <= i < |rows| ==> Unsaturated(seconds, rows[i])
    ensures Sum(seconds, rows) == -ElapsedSum(seconds, rows)
  {
    if rows != [] {
      SumNegatesElapsed(seconds, rows[..|rows| - 1]);
    }
  }
}
