/**
 The piece scheduler `get_next_piece` of ctorrent/torrentfilemanager.cpp as a function on the
 priority list, and its behaviour over whole runs.
 */
module Scheduler {
  import opened Wrappers

  /** `std::numeric_limits<int32_t>::max()`: a piece that reached it is not handed out again. */
  const MAX_PRIORITY: nat := 0x7fff_ffff

  predicate Priorities(pri: seq<int>) {
    forall i :: 0 <= i < |pri| ==> 0 <= pri[i] <= MAX_PRIORITY
  }

  predicate Candidate(pri: seq<int>, eligible: set<nat>, i: nat) {
    i < |pri| && i in eligible && pri[i] < MAX_PRIORITY
  }

  /** A piece is left out for good once its priority is the largest signed 32-bit number. */
  lemma {:induction false} CandidateIff(pri: seq<int>, eligible: set<nat>, i: nat)
    requires Priorities(pri) && i < |pri| && i in eligible
    ensures Candidate(pri, eligible, i) <==> pri[i] != 0x7fff_ffff
  {
  }

  /** `i` is the leftmost candidate of least priority among the first `k` pieces. */
  ghost predicate IsPick(pri: seq<int>, eligible: set<nat>, k: nat, i: nat) {
    && Candidate(pri, eligible, i) && i < k
    && forall j: nat :: j < k && Candidate(pri, eligible, j) ==> pri[i] < pri[j] || (pri[i] == pri[j] && i <= j)
  }

  function PickBelow(pri: seq<int>, eligible: set<nat>, k: nat): (r: Option<nat>)
    requires k <= |pri|
    ensures r.Some? ==> IsPick(pri, eligible, k, r.value)
    ensures r.None? ==> forall j: nat :: j < k ==> !Candidate(pri, eligible, j)
  {
    if k == 0 then None
    else
      var r := PickBelow(pri, eligible, k - 1);
      if !Candidate(pri, eligible, k - 1) then r
      else if r.Some? && pri[r.value] <= pri[k - 1] then r
      else Some(k - 1)
  }

  /** The piece handed out: the leftmost of least priority, or none if there is no candidate. */
  function Pick(pri: seq<int>, eligible: set<nat>): (r: Option<nat>)
    ensures r.Some? ==> IsPick(pri, eligible, |pri|, r.value)
    ensures r.None? <==> forall j: nat :: !Candidate(pri, eligible, j)
  {
    PickBelow(pri, eligible, |pri|)
  }

  function Bump(pri: seq<int>, pick: Option<nat>): seq<int>
    requires pick.Some? ==> pick.value < |pri|
  {
    if pick.None? then pri else pri[pick.value := pri[pick.value] + 1]
  }

  lemma {:induction false} PickUnique(pri: seq<int>, eligible: set<nat>, i: nat)
    requires IsPick(pri, eligible, |pri|, i)
    ensures Pick(pri, eligible) == Some(i)
  {
  }

  /** What the scan loop knows after the first `i` pieces when it has not returned early. */
  ghost predicate Scanned(pri: seq<int>, eligible: set<nat>, i: nat, index: nat, priority: int) {
    && i <= |pri|
    && 0 <= priority <= MAX_PRIORITY
    && (forall j: nat :: j < i && j in eligible ==> pri[j] != 0)
    && if priority == MAX_PRIORITY then forall j: nat :: j < i ==> !Candidate(pri, eligible, j)
       else IsPick(pri, eligible, i, index) && pri[index] == priority
  }

  lemma {:induction false} ScanSkips(pri: seq<int>, eligible: set<nat>, i: nat, index: nat, priority: int)
    requires Scanned(pri, eligible, i, index, priority) && i < |pri| && i !in eligible
    ensures Scanned(pri, eligible, i + 1, index, priority)
  {
  }

  lemma {:induction false} ScanReturns(pri: seq<int>, eligible: set<nat>, i: nat, index: nat, priority: int)
    requires Priorities(pri) && Scanned(pri, eligible, i, index, priority)
    requires i < |pri| && i in eligible && pri[i] == 0
    ensures Pick(pri, eligible) == Some(i)
  {
    assert IsPick(pri, eligible, |pri|, i);
    PickUnique(pri, eligible, i);
  }

  lemma {:induction false} ScanCompares(pri: seq<int>, eligible: set<nat>, i: nat, index: nat, priority: int)
    requires Priorities(pri) && Scanned(pri, eligible, i, index, priority)
    requires i < |pri| && i in eligible && pri[i] != 0
    ensures if priority > pri[i] then Scanned(pri, eligible, i + 1, i, pri[i])
            else Scanned(pri, eligible, i + 1, index, priority)
  {
  }

  lemma {:induction false} ScanEnds(pri: seq<int>, eligible: set<nat>, index: nat, priority: int)
    requires Scanned(pri, eligible, |pri|, index, priority)
    ensures Pick(pri, eligible) == if priority == MAX_PRIORITY then None else Some(index)
  {
    if priority != MAX_PRIORITY {
      PickUnique(pri, eligible, index);
    }
  }

  // ---------- Runs of calls ----------

  /** The priorities after one call for each eligible set in turn. */
  function Run(pri: seq<int>, calls: seq<set<nat>>): (r: seq<int>)
    ensures |r| == |pri|
    decreases |calls|
  {
    if calls == [] then pri
    else
      var before := Run(pri, calls[..|calls| - 1]);
      Bump(before, Pick(before, calls[|calls| - 1]))
  }

  /** What call number `j` of the run returned. */
  function Returned(pri: seq<int>, calls: seq<set<nat>>, j: nat): Option<nat>
    requires j < |calls|
  {
    Pick(Run(pri, calls[..j]), calls[j])
  }

  /** How many of the calls returned piece `i`. */
  function HandedOut(pri: seq<int>, calls: seq<set<nat>>, i: nat): nat {
    if calls == [] then 0
    else
      var n := |calls| - 1;
      HandedOut(pri, calls[..n], i) + if Pick(Run(pri, calls[..n]), calls[n]) == Some(i) then 1 else 0
  }

  /** How many of the calls returned a piece. */
  function Successes(pri: seq<int>, calls: seq<set<nat>>): nat {
    if calls == [] then 0
    else
      var n := |calls| - 1;
      Successes(pri, calls[..n]) + if Pick(Run(pri, calls[..n]), calls[n]).Some? then 1 else 0
  }

  function Sum(pri: seq<int>): int {
    if pri == [] then 0 else Sum(pri[..|pri| - 1]) + pri[|pri| - 1]
  }

  lemma {:induction false} SumUpdate(pri: seq<int>, i: nat, v: int)
    requires i < |pri|
    ensures Sum(pri[i := v]) == Sum(pri) - pri[i] + v
  {
    var n := |pri| - 1;
    if i == n {
      assert pri[i := v][..n] == pri[..n];
    } else {
      SumUpdate(pri[..n], i, v);
      assert pri[i := v][..n] == pri[..n][i := v];
    }
  }

  lemma {:induction false} BumpAccounts(pri: seq<int>, eligible: set<nat>)
    requires Priorities(pri)
    ensures var pick := Pick(pri, eligible);
            var after := Bump(pri, pick);
            && Priorities(after)
            && Sum(after) == Sum(pri) + (if pick.Some? then 1 else 0)
            && |after| == |pri|
            && forall i: nat :: i < |pri| ==> after[i] == pri[i] + if pick == Some(i) then 1 else 0
  {
    var pick := Pick(pri, eligible);
    if pick.Some? {
      SumUpdate(pri, pick.value, pri[pick.value] + 1);
    }
  }

  /**
   Whatever the eligible sets are, the total priority grows by exactly the number of successful
   calls, each piece's priority by exactly the number of times it was handed out, and priorities
   stay in range.
   */
  lemma {:induction false} RunAccounts(pri: seq<int>, calls: seq<set<nat>>)
    requires Priorities(pri)
    ensures Priorities(Run(pri, calls))
    ensures Sum(Run(pri, calls)) == Sum(pri) + Successes(pri, calls)
    ensures forall i: nat :: i < |pri| ==> Run(pri, calls)[i] == pri[i] + HandedOut(pri, calls, i)
    decreases |calls|
  {
    hide Priorities, Sum, Bump, Pick;
    if calls == [] {
    } else {
      var n := |calls| - 1;
      RunAccounts(pri, calls[..n]);
      BumpAccounts(Run(pri, calls[..n]), calls[n]);
    }
  }

  // ---------- Balance ----------

  /** Priorities of eligible pieces differ by at most `d`. */
  predicate SpreadAtMost(pri: seq<int>, eligible: set<nat>, d: nat) {
    forall i: nat, j: nat :: i < |pri| && j < |pri| && i in eligible && j in eligible ==> pri[i] - pri[j] <= d
  }

  lemma {:induction false} StepKeepsSpread(pri: seq<int>, eligible: set<nat>, d: nat)
    requires Priorities(pri) && SpreadAtMost(pri, eligible, d) && d >= 1
    ensures SpreadAtMost(Bump(pri, Pick(pri, eligible)), eligible, d)
  {
    var pick := Pick(pri, eligible);
    if pick.Some? {
      var p := pick.value;
      var after := Bump(pri, pick);
      forall i: nat, j: nat | i < |pri| && j < |pri| && i in eligible && j in eligible
        ensures after[i] - after[j] <= d
      {
        assert pri[i] - pri[j] <= d;
        if i == p && j != p {
          assert Candidate(pri, eligible, j) || pri[j] == MAX_PRIORITY;
        }
      }
    }
  }

  function Repeat(eligible: set<nat>, k: nat): (r: seq<set<nat>>)
    ensures |r| == k
  {
    seq(k, _ => eligible)
  }

  lemma {:induction false} RepeatStep(eligible: set<nat>, k: nat)
    requires k > 0
    ensures Repeat(eligible, k)[..k - 1] == Repeat(eligible, k - 1)
    ensures Repeat(eligible, k)[k - 1] == eligible
  {
  }

  /** With a fixed eligible set the spread never exceeds the larger of its start value and one. */
  lemma {:induction false} RunKeepsSpread(pri: seq<int>, eligible: set<nat>, d: nat, k: nat)
    requires Priorities(pri) && SpreadAtMost(pri, eligible, d)
    ensures SpreadAtMost(Run(pri, Repeat(eligible, k)), eligible, if d > 1 then d else 1)
  {
    hide SpreadAtMost;
    if k == 0 {
      WiderSpread(pri, eligible, d, if d > 1 then d else 1);
    } else {
      RunKeepsSpread(pri, eligible, d, k - 1);
      RepeatStep(eligible, k);
      RunAccounts(pri, Repeat(eligible, k - 1));
      StepKeepsSpread(Run(pri, Repeat(eligible, k - 1)), eligible, if d > 1 then d else 1);
    }
  }

  lemma {:induction false} WiderSpread(pri: seq<int>, eligible: set<nat>, d: nat, e: nat)
    requires SpreadAtMost(pri, eligible, d) && d <= e
    ensures SpreadAtMost(pri, eligible, e)
  {
  }

  /** The priorities of the eligible pieces below `n`, added up, and their number. */
  function SumOver(pri: seq<int>, eligible: set<nat>, n: nat): int
    requires n <= |pri|
  {
    if n == 0 then 0 else SumOver(pri, eligible, n - 1) + if n - 1 in eligible then pri[n - 1] else 0
  }

  function CountOver(eligible: set<nat>, n: nat): nat {
    if n == 0 then 0 else CountOver(eligible, n - 1) + if n - 1 in eligible then 1 else 0
  }

  ghost function Under(eligible: set<nat>, n: nat): set<nat> {
    set i | i in eligible && i < n
  }

  lemma {:induction false} CountOverIs(eligible: set<nat>, n: nat)
    ensures CountOver(eligible, n) == |Under(eligible, n)|
  {
    if n == 0 {
      assert Under(eligible, 0) == {};
    } else {
      CountOverIs(eligible, n - 1);
      if n - 1 in eligible {
        assert Under(eligible, n) == Under(eligible, n - 1) + {n - 1};
      } else {
        assert Under(eligible, n) == Under(eligible, n - 1);
      }
    }
  }

  lemma {:induction false} CountOverAll(eligible: set<nat>, n: nat)
    requires forall i :: i in eligible ==> i < n
    ensures CountOver(eligible, n) == |eligible|
  {
    CountOverIs(eligible, n);
    assert Under(eligible, n) == eligible;
  }

  lemma {:induction false} SumOverUpdate(pri: seq<int>, eligible: set<nat>, n: nat, i: nat, v: int)
    requires n <= |pri| && i < |pri| && i in eligible
    ensures SumOver(pri[i := v], eligible, n) == SumOver(pri, eligible, n) + if i < n then v - pri[i] else 0
  {
    if n == 0 {
    } else {
      SumOverUpdate(pri, eligible, n - 1, i, v);
    }
  }

  // If all eligible priorities are at least lo, and piece i (if counted) is at least hi.
  lemma {:induction false} SumOverAtLeast(pri: seq<int>, eligible: set<nat>, n: nat, lo: int, i: nat, hi: int)
    requires n <= |pri| && lo <= hi
    requires forall j: nat :: j < n && j in eligible ==> pri[j] >= lo
    requires i < n && i in eligible ==> pri[i] >= hi
    ensures SumOver(pri, eligible, n) >= CountOver(eligible, n) * lo + if i < n && i in eligible then hi - lo else 0
  {
    if n == 0 {
    } else {
      SumOverAtLeast(pri, eligible, n - 1, lo, i, hi);
      var c := CountOver(eligible, n - 1);
      assert (c + 1) * lo == c * lo + lo;
    }
  }

  lemma {:induction false} SumOverAtMost(pri: seq<int>, eligible: set<nat>, n: nat, hi: int, i: nat, lo: int)
    requires n <= |pri| && lo <= hi
    requires forall j: nat :: j < n && j in eligible ==> pri[j] <= hi
    requires i < n && i in eligible ==> pri[i] <= lo
    ensures SumOver(pri, eligible, n) <= CountOver(eligible, n) * hi - if i < n && i in eligible then hi - lo else 0
  {
    if n == 0 {
    } else {
      SumOverAtMost(pri, eligible, n - 1, hi, i, lo);
      var c := CountOver(eligible, n - 1);
      assert (c + 1) * hi == c * hi + hi;
    }
  }

  lemma {:induction false} SumOverZero(pri: seq<int>, eligible: set<nat>, n: nat)
    requires n <= |pri|
    requires forall j: nat :: j < n && j in eligible ==> pri[j] == 0
    ensures SumOver(pri, eligible, n) == 0
  {
    if n == 0 {
    } else {
      SumOverZero(pri, eligible, n - 1);
    }
  }

  // As long as not every eligible piece is worn out, a call succeeds.
  lemma {:induction false} NotWornOut(pri: seq<int>, eligible: set<nat>)
    requires Priorities(pri)
    requires forall i :: i in eligible ==> i < |pri|
    requires SumOver(pri, eligible, |pri|) < |eligible| * MAX_PRIORITY
    ensures Pick(pri, eligible).Some?
  {
    if Pick(pri, eligible).None? {
      forall j: nat | j < |pri| && j in eligible
        ensures pri[j] >= MAX_PRIORITY
      {
        assert !Candidate(pri, eligible, j);
      }
      SumOverAtLeast(pri, eligible, |pri|, MAX_PRIORITY, 0, MAX_PRIORITY);
      CountOverAll(eligible, |pri|);
    }
  }

  lemma {:induction false} RunSums(pri: seq<int>, eligible: set<nat>, k: nat)
    requires Priorities(pri)
    requires forall i :: i in eligible ==> i < |pri| && pri[i] == 0
    requires k <= |eligible| * MAX_PRIORITY
    ensures SumOver(Run(pri, Repeat(eligible, k)), eligible, |pri|) == k
    ensures Successes(pri, Repeat(eligible, k)) == k
  {
    if k == 0 {
      SumOverZero(pri, eligible, |pri|);
    } else {
      hide *;
      RunSums(pri, eligible, k - 1);
      RunRepeatStep(pri, eligible, k);
      RunAccounts(pri, Repeat(eligible, k - 1));
      SumOverBump(Run(pri, Repeat(eligible, k - 1)), eligible);
    }
  }

  lemma {:induction false} RunRepeatStep(pri: seq<int>, eligible: set<nat>, k: nat)
    requires k > 0
    ensures var before := Run(pri, Repeat(eligible, k - 1));
            && Run(pri, Repeat(eligible, k)) == Bump(before, Pick(before, eligible))
            && Successes(pri, Repeat(eligible, k))
            == Successes(pri, Repeat(eligible, k - 1)) + if Pick(before, eligible).Some? then 1 else 0
  {
    RepeatStep(eligible, k);
    hide Repeat, Pick, Bump;
  }

  // A call on priorities that are not worn out raises one eligible priority.
  lemma {:induction false} SumOverBump(pri: seq<int>, eligible: set<nat>)
    requires Priorities(pri)
    requires forall i :: i in eligible ==> i < |pri|
    requires SumOver(pri, eligible, |pri|) < |eligible| * MAX_PRIORITY
    ensures Pick(pri, eligible).Some?
    ensures SumOver(Bump(pri, Pick(pri, eligible)), eligible, |pri|) == SumOver(pri, eligible, |pri|) + 1
  {
    NotWornOut(pri, eligible);
    var p := Pick(pri, eligible).value;
    SumOverUpdate(pri, eligible, |pri|, p, pri[p] + 1);
  }

  lemma {:induction false} DivBelow(k: nat, e: nat, x: int)
    requires e > 0 && k < e * (x + 1)
    ensures k / e <= x
  {
    assert k == e * (k / e) + k % e;
    MulLeft(e, x + 1, k / e);
  }

  lemma {:induction false} DivAbove(k: nat, e: nat, x: int)
    requires e > 0 && e * (x - 1) < k
    ensures x <= (k + e - 1) / e
  {
    var q := (k + e - 1) / e;
    assert k + e - 1 == e * q + (k + e - 1) % e;
    assert e * (x - 1) == e * x - e;
    assert e * (q + 1) == e * q + e;
    MulLeft(e, q + 1, x);
  }

  lemma {:induction false} MulLeft(e: nat, x: int, y: int)
    ensures x <= y ==> e * x <= e * y
  {
  }

  /** `x` is `k / e`, rounded down or up. */
  predicate FairShare(k: nat, e: nat, x: int)
    requires e > 0
  {
    k / e <= x <= (k + e - 1) / e
  }

  // Priorities within one of each other that add up to k are all k / e, rounded down or up.
  lemma {:induction false} EvenShare(r: seq<int>, eligible: set<nat>, k: nat, i: nat)
    requires SpreadAtMost(r, eligible, 1)
    requires forall j :: j in eligible ==> j < |r|
    requires i in eligible
    requires SumOver(r, eligible, |r|) == k
    ensures |eligible| > 0
    ensures FairShare(k, |eligible|, r[i])
  {
    var e, n, x := |eligible|, |r|, r[i];
    forall j: nat | j < n && j in eligible
      ensures x - 1 <= r[j] <= x + 1
    {
      assert r[i] - r[j] <= 1 && r[j] - r[i] <= 1;
    }
    hide SumOver, CountOver, SpreadAtMost;
    CountOverAll(eligible, n);
    SumOverAtLeast(r, eligible, n, x - 1, i, x);
    SumOverAtMost(r, eligible, n, x + 1, i, x);
    assert e > 0 by {
      assert eligible != {};
    }
    DivBelow(k, e, x);
    DivAbove(k, e, x);
  }

  // Once every eligible piece has reached the largest priority, no call succeeds any more.
  lemma {:induction false} WornOut(pri: seq<int>, eligible: set<nat>)
    requires Priorities(pri)
    requires forall i :: i in eligible ==> i < |pri|
    requires SumOver(pri, eligible, |pri|) >= |eligible| * MAX_PRIORITY
    ensures Pick(pri, eligible).None?
  {
    var r := Pick(pri, eligible);
    if r.Some? {
      CountOverAll(eligible, |pri|);
      SumOverAtMost(pri, eligible, |pri|, MAX_PRIORITY, r.value, MAX_PRIORITY - 1);
    }
  }

  /** All that `k` calls in a row can hand out: one piece a call, until every eligible piece is worn out. */
  function Supply(eligible: set<nat>, k: nat): nat {
    if k <= |eligible| * MAX_PRIORITY then k else |eligible| * MAX_PRIORITY
  }

  lemma {:induction false} RunsDry(pri: seq<int>, eligible: set<nat>, k: nat)
    requires Priorities(pri)
    requires forall i :: i in eligible ==> i < |pri| && pri[i] == 0
    requires k >= |eligible| * MAX_PRIORITY
    ensures Run(pri, Repeat(eligible, k)) == Run(pri, Repeat(eligible, |eligible| * MAX_PRIORITY))
    ensures Successes(pri, Repeat(eligible, k)) == |eligible| * MAX_PRIORITY
    decreases k
  {
    hide *;
    var n := |eligible| * MAX_PRIORITY;
    RunSums(pri, eligible, n);
    if k > n {
      RunsDry(pri, eligible, k - 1);
      RunRepeatStep(pri, eligible, k);
      RunAccounts(pri, Repeat(eligible, n));
      WornOut(Run(pri, Repeat(eligible, n)), eligible);
      NoBump(Run(pri, Repeat(eligible, n)));
    }
  }

  lemma {:induction false} NoBump(pri: seq<int>)
    ensures Bump(pri, None) == pri
  {
  }

  // The run as far as it hands out pieces.
  lemma {:induction false} RunUpToSupply(pri: seq<int>, eligible: set<nat>, k: nat)
    requires Priorities(pri)
    requires forall i :: i in eligible ==> i < |pri| && pri[i] == 0
    ensures Run(pri, Repeat(eligible, k)) == Run(pri, Repeat(eligible, Supply(eligible, k)))
    ensures Successes(pri, Repeat(eligible, k)) == Supply(eligible, k)
    ensures SumOver(Run(pri, Repeat(eligible, k)), eligible, |pri|) == Supply(eligible, k)
  {
    hide Run, Successes, SumOver, Repeat, Priorities;
    RunSums(pri, eligible, Supply(eligible, k));
    if k > |eligible| * MAX_PRIORITY {
      RunsDry(pri, eligible, k);
    }
  }

  /**
   Fairness of a whole run of any length: when the eligible set stays the same and starts with
   priority zero, every call succeeds until all its pieces have been handed out the largest
   possible number of times, and the n successful calls among `k` have handed out each eligible
   piece n / |eligible| times, rounded down or up.
   */
  lemma {:induction false} Balance(pri: seq<int>, eligible: set<nat>, k: nat, i: nat)
    requires Priorities(pri)
    requires forall j :: j in eligible ==> j < |pri| && pri[j] == 0
    requires i in eligible
    ensures |eligible| > 0
    ensures var n := Supply(eligible, k);
            && Successes(pri, Repeat(eligible, k)) == n
            && FairShare(n, |eligible|, HandedOut(pri, Repeat(eligible, k), i))
  {
    assert SpreadAtMost(pri, eligible, 0);
    hide *;
    RunUpToSupply(pri, eligible, k);
    RunAccounts(pri, Repeat(eligible, k));
    RunKeepsSpread(pri, eligible, 0, k);
    EvenShare(Run(pri, Repeat(eligible, k)), eligible, Supply(eligible, k), i);
  }
}
