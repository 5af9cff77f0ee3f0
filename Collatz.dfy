/** The Collatz stopping-time histogram, with its worker threads replaced by one
    sequential pass over the shared counter. */
module Collatz {

  /** The cap on a stopping time, and the last bucket of the histogram. */
  const MAX_STOPPING_TIME: nat := 1000
  const BUCKETS: nat := MAX_STOPPING_TIME + 1

  /** One Collatz step: halve an even number, map an odd one to 3n+1. */
  function CollatzStep(num: int): int
  {
    if num % 2 == 0 then num / 2 else 3 * num + 1
  }

  /** The number reached from `n` after `k` steps. */
  function Iterate(n: int, k: nat): int
    decreases k
  {
    if k == 0 then n else CollatzStep(Iterate(n, k - 1))
  }

  /** The loop of the stopping-time computation, resumed at `num` after `steps` steps. */
  function StopFrom(num: int, steps: nat): (r: nat)
    requires steps <= MAX_STOPPING_TIME
    ensures steps <= r <= MAX_STOPPING_TIME
    decreases MAX_STOPPING_TIME - steps
  {
    if num == 1 then steps
    else if steps + 1 > MAX_STOPPING_TIME then MAX_STOPPING_TIME
    else StopFrom(CollatzStep(num), steps + 1)
  }

  function StoppingTime(n: int): (t: nat)
    ensures t <= MAX_STOPPING_TIME
  {
    StopFrom(n, 0)
  }

  /** What the resumed loop computes, given that none of the first `steps`
      numbers was 1. */
  lemma {:induction false} StopFromCharacterized(n: int, steps: nat)
    requires steps <= MAX_STOPPING_TIME
    requires forall k :: 0 <= k < steps ==> Iterate(n, k) != 1
    ensures var s := StopFrom(Iterate(n, steps), steps);
      && steps <= s <= MAX_STOPPING_TIME
      && (forall k :: 0 <= k < s ==> Iterate(n, k) != 1)
      && (s < MAX_STOPPING_TIME ==> Iterate(n, s) == 1)
    decreases MAX_STOPPING_TIME - steps
  {
    if Iterate(n, steps) != 1 && steps + 1 <= MAX_STOPPING_TIME {
      assert Iterate(n, steps + 1) == CollatzStep(Iterate(n, steps));
      StopFromCharacterized(n, steps + 1);
    }
  }

  /** The stopping time is at most 1000; below 1000 it is the least number of
      steps that reach 1; 1000 means that none of the first 1000 numbers is 1.
      So it is the first step that reaches 1, capped at 1000. */
  lemma StoppingTimeCharacterized(n: int)
    ensures var s := StoppingTime(n);
      && s <= MAX_STOPPING_TIME
      && (forall k :: 0 <= k < s ==> Iterate(n, k) != 1)
      && (s < MAX_STOPPING_TIME ==> Iterate(n, s) == 1)
  {
    StopFromCharacterized(n, 0);
  }

  /** The two properties above pin the stopping time down. */
  lemma StoppingTimeUnique(n: int, s: nat)
    requires s <= MAX_STOPPING_TIME
    requires forall k :: 0 <= k < s ==> Iterate(n, k) != 1
    requires s < MAX_STOPPING_TIME ==> Iterate(n, s) == 1
    ensures s == StoppingTime(n)
  {
    StoppingTimeCharacterized(n);
  }

  /** The stopping time of 1 is 0; of 0, which halves to itself, it is the cap. */
  lemma StoppingTimeExamples()
    ensures StoppingTime(1) == 0
    ensures StoppingTime(0) == MAX_STOPPING_TIME
  {
    StoppingTimeCharacterized(0);
    var s := StoppingTime(0);
    if s < MAX_STOPPING_TIME {
      IterateZero(s);
    }
  }

  lemma {:induction false} IterateZero(k: nat)
    ensures Iterate(0, k) == 0
  {
    if k > 0 {
      IterateZero(k - 1);
    }
  }

  /** The stopping-time loop: apply the step until 1 is reached, giving up with
      the cap once more than 1000 steps have been taken. It terminates for every
      input, including zero and negative numbers. */
  method CalculateStoppingTime(n: int) returns (steps: nat)
    ensures steps == StoppingTime(n)
  {
    steps := 0;
    var num := n;
    while num != 1
      invariant steps <= MAX_STOPPING_TIME
      invariant StopFrom(num, steps) == StoppingTime(n)
      decreases MAX_STOPPING_TIME - steps
    {
      num := if num % 2 == 0 then num / 2 else 3 * num + 1;
      steps := steps + 1;
      if steps > MAX_STOPPING_TIME {
        return MAX_STOPPING_TIME;
      }
    }
  }

  // ---------------------------------------------------------------------------
  // The histogram

  /** How many of the numbers lo..hi have stopping time `b`. */
  function CountIn(lo: int, hi: int, b: int): nat
    decreases hi - lo
  {
    if hi < lo then 0 else CountIn(lo, hi - 1, b) + (if StoppingTime(hi) == b then 1 else 0)
  }

  lemma CountInEmpty(lo: int, hi: int)
    requires hi < lo
    ensures forall b :: CountIn(lo, hi, b) == 0
  {
  }

  /** Counting one more number adds one to its own bucket and nothing elsewhere. */
  lemma CountInStep(lo: int, hi: int)
    requires lo <= hi
    ensures forall b :: CountIn(lo, hi, b) == CountIn(lo, hi - 1, b) + (if StoppingTime(hi) == b then 1 else 0)
  {
  }

  /** The counts of buckets 0 .. upto-1 added up. */
  function SumBuckets(lo: int, hi: int, upto: nat): nat
    decreases upto
  {
    if upto == 0 then 0 else SumBuckets(lo, hi, upto - 1) + CountIn(lo, hi, upto - 1)
  }

  /** Each number adds to exactly one bucket. */
  lemma {:induction false} OneBucket(n: int, upto: nat)
    ensures SumBuckets(n, n, upto) == if StoppingTime(n) < upto then 1 else 0
    decreases upto
  {
    if upto > 0 {
      OneBucket(n, upto - 1);
      var t := StoppingTime(n);
      assert CountIn(n, n - 1, upto - 1) == 0;
      assert CountIn(n, n, upto - 1) == if t == upto - 1 then 1 else 0;
    }
  }

  /** Extending the range by one number adds one to the sum at that number's bucket. */
  lemma {:induction false} SumBucketsExtend(lo: int, hi: int, upto: nat)
    requires lo <= hi
    ensures SumBuckets(lo, hi, upto) == SumBuckets(lo, hi - 1, upto) + SumBuckets(hi, hi, upto)
    decreases upto
  {
    if upto > 0 {
      SumBucketsExtend(lo, hi, upto - 1);
      assert CountIn(hi, hi, upto - 1) == CountIn(hi, hi - 1, upto - 1) + (if StoppingTime(hi) == upto - 1 then 1 else 0);
    }
  }

  /** Processing 1..N puts every number in one of the 1001 buckets, so the
      histogram adds up to N. */
  lemma {:induction false} HistogramTotal(lo: int, hi: int)
    ensures SumBuckets(lo, hi, BUCKETS) == if hi < lo then 0 else hi - lo + 1
    decreases hi - lo
  {
    if hi < lo {
      SumBucketsZero(lo, hi, BUCKETS);
    } else {
      HistogramTotal(lo, hi - 1);
      SumBucketsExtend(lo, hi, BUCKETS);
      OneBucket(hi, BUCKETS);
      StoppingTimeCharacterized(hi);
    }
  }

  lemma {:induction false} SumBucketsZero(lo: int, hi: int, upto: nat)
    requires hi < lo
    ensures SumBuckets(lo, hi, upto) == 0
    decreases upto
  {
    if upto > 0 {
      SumBucketsZero(lo, hi, upto - 1);
    }
  }

  /** The shared work state: the next number to hand out, the upper limit and
      the histogram of stopping times. */
  class Workload {
    var counter: int
    const limit: int
    const histogram: array<int>

    ghost predicate Valid()
      reads this
    {
      histogram.Length == BUCKETS
    }

    constructor (n: int)
      ensures Valid() && fresh(histogram)
      ensures counter == 1 && limit == n
      ensures forall b :: 0 <= b < BUCKETS ==> histogram[b] == 0
    {
      counter := 1;
      limit := n;
      histogram := new int[BUCKETS](_ => 0);
    }

    /** Hands out the next number, or nothing once the counter is past the limit. */
    method Next() returns (num: int, more: bool)
      modifies this`counter
      ensures more <==> old(counter) <= limit
      ensures more ==> num == old(counter) && counter == old(counter) + 1
      ensures !more ==> counter == old(counter)
    {
      if counter > limit {
        return 0, false;
      }
      num := counter;
      counter := counter + 1;
      more := true;
    }

    /** One worker, run alone: takes numbers until the counter passes the limit
        and counts each number's stopping time in the histogram. Every number
        from the starting counter to the limit is handed out exactly once, in
        increasing order. */
    method Work()
      requires Valid()
      modifies this`counter, histogram
      ensures Valid()
      ensures counter == if old(counter) <= limit then limit + 1 else old(counter)
      ensures Tallied(histogram[..], old(histogram[..]), old(counter), counter)
    {
      ghost var start := counter;
      ghost var initial := histogram[..];
      TalliedNone(initial, start);
      while true
        invariant Valid()
        invariant start <= counter && (counter <= limit + 1 || counter == start)
        invariant Tallied(histogram[..], initial, start, counter)
        decreases limit + 1 - counter
      {
        var num, more := Next();
        if !more {
          break;
        }
        var stoppingTime := CalculateStoppingTime(num);
        ghost var before := histogram[..];
        Count(stoppingTime);
        TalliedStep(before, histogram[..], initial, start, num, counter);
      }
    }

    /** The increment of one bucket, done under the histogram lock. */
    method Count(bucket: nat)
      requires Valid() && bucket < BUCKETS
      modifies histogram
      ensures histogram[..] == old(histogram[..])[bucket := old(histogram[bucket]) + 1]
    {
      histogram[bucket] := histogram[bucket] + 1;
    }
  }

  /** The histogram `h` is `initial` with the stopping time of every number from
      `lo` up to, but not including, `next` counted in its bucket. */
  ghost predicate Tallied(h: seq<int>, initial: seq<int>, lo: int, next: int)
  {
    |h| == BUCKETS && |initial| == BUCKETS
    && forall b :: 0 <= b < BUCKETS ==> h[b] == initial[b] + CountIn(lo, next - 1, b)
  }

  lemma TalliedNone(initial: seq<int>, lo: int)
    requires |initial| == BUCKETS
    ensures Tallied(initial, initial, lo, lo)
  {
    CountInEmpty(lo, lo - 1);
  }

  /** Counting one more number increments its bucket. */
  lemma TalliedStep(h: seq<int>, h': seq<int>, initial: seq<int>, lo: int, n: int, next: int)
    requires Tallied(h, initial, lo, n) && lo <= n && next == n + 1
    requires h' == h[StoppingTime(n) := h[StoppingTime(n)] + 1]
    ensures Tallied(h', initial, lo, next)
  {
    CountInStep(lo, n);
  }

  /** The entries of buckets 0 .. upto-1 added up. */
  function Total(h: seq<int>, upto: nat): int
    requires upto <= |h|
    decreases upto
  {
    if upto == 0 then 0 else Total(h, upto - 1) + h[upto - 1]
  }

  /** An array that holds the bucket counts of lo..hi adds up to their sum. */
  lemma {:induction false} TotalCounts(h: seq<int>, lo: int, hi: int, upto: nat)
    requires upto <= |h|
    requires forall b :: 0 <= b < upto ==> h[b] == CountIn(lo, hi, b)
    ensures Total(h, upto) == SumBuckets(lo, hi, upto)
    decreases upto
  {
    if upto > 0 {
      TotalCounts(h, lo, hi, upto - 1);
    }
  }

  /** The whole computation with one worker: a fresh workload for 1..n, worked
      to the end. Every bucket holds the number of values in 1..n with that
      stopping time, so the histogram adds up to n (to nothing when n < 1). */
  method Tabulate(n: int) returns (histogram: array<int>)
    ensures histogram.Length == BUCKETS
    ensures forall b :: 0 <= b < BUCKETS ==> histogram[b] == CountIn(1, n, b)
    ensures Total(histogram[..], BUCKETS) == if n < 1 then 0 else n
  {
    var w := new Workload(n);
    ghost var initial := w.histogram[..];
    w.Work();
    histogram := w.histogram;
    FreshTally(histogram[..], initial, n, w.counter);
  }

  /** A tally from a zeroed histogram, starting at 1, once the counter has passed n. */
  lemma FreshTally(h: seq<int>, initial: seq<int>, n: int, next: int)
    requires Tallied(h, initial, 1, next)
    requires forall b :: 0 <= b < BUCKETS ==> initial[b] == 0
    requires next == if 1 <= n then n + 1 else 1
    ensures forall b :: 0 <= b < BUCKETS ==> h[b] == CountIn(1, n, b)
    ensures Total(h, BUCKETS) == if n < 1 then 0 else n
  {
    if n < 1 {
      CountInEmpty(1, n);
      CountInEmpty(1, 0);
    }
    TotalCounts(h, 1, n, BUCKETS);
    HistogramTotal(1, n);
  }

  /** A row of the printed histogram. */
  datatype Row = Row(bucket: int, count: int)

  /** The printed histogram: buckets 1 to 1000 whose count is positive, in
      ascending order. Bucket 0, the stopping time of 1, is never listed. */
  method NonzeroRows(histogram: array<int>) returns (rows: seq<Row>)
    requires histogram.Length == BUCKETS
    ensures forall k :: 0 <= k < |rows| ==>
      1 <= rows[k].bucket <= MAX_STOPPING_TIME && rows[k].count == histogram[rows[k].bucket] > 0
    ensures forall k, l :: 0 <= k < l < |rows| ==> rows[k].bucket < rows[l].bucket
    ensures forall b :: 1 <= b <= MAX_STOPPING_TIME && histogram[b] > 0 ==> Row(b, histogram[b]) in rows
  {
    rows := [];
    for i := 1 to MAX_STOPPING_TIME + 1
      invariant forall k :: 0 <= k < |rows| ==>
        1 <= rows[k].bucket < i && rows[k].count == histogram[rows[k].bucket] > 0
      invariant forall k, l :: 0 <= k < l < |rows| ==> rows[k].bucket < rows[l].bucket
      invariant forall b :: 1 <= b < i && histogram[b] > 0 ==> Row(b, histogram[b]) in rows
    {
      if histogram[i] > 0 {
        rows := rows + [Row(i, histogram[i])];
      }
    }
  }
}
