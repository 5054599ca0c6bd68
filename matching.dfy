/**
 * The greedy first-fit matching pass of Reconcile (main.go:234-267), as a
 * specification: the state after the first n system transactions have been
 * processed, threaded through one Step per transaction.
 *
 * The state also records which pairs were formed (`pairs`); the source never
 * stores them, they are here so that "no bank line is used twice" and "the
 * discrepancy total sums the matched pairs" can be stated.
 */
module Matching {
  import opened Records

  datatype Pair = Pair(sysIndex: nat, bankIndex: nat)

  datatype MatchState = MatchState(
    consumed: seq<bool>,            // alreadyMatch
    matched: int,                   // TotalMatchedTransactions
    discrepancy: real,              // TotalDiscrepanciesAmount
    missingCount: int,              // TotalSystemTransMissingBank
    missing: seq<SystemTransaction>,// SystemTransMissingBankList
    pairs: seq<Pair>)

  /** Bank line j is still free and is a candidate for s. */
  predicate Available(s: SystemTransaction, bank: seq<BankStatement>, consumed: seq<bool>, j: int)
    requires |consumed| == |bank|
  {
    0 <= j < |bank| && !consumed[j] && IsCandidate(s, bank[j])
  }

  /**
   * The bank line s takes when the scan starts at `from`: the lowest index
   * at or after `from` that is available, or None when there is none.
   */
  function FirstFitFrom(s: SystemTransaction, bank: seq<BankStatement>, consumed: seq<bool>, from: nat): (r: Option<nat>)
    requires |consumed| == |bank| && from <= |bank|
    ensures r.Some? ==> from <= r.value < |bank| && Available(s, bank, consumed, r.value)
    ensures forall j :: from <= j < (if r.Some? then r.value else |bank|) ==> !Available(s, bank, consumed, j)
    decreases |bank| - from
  {
    if from == |bank| then None
    else if Available(s, bank, consumed, from) then Some(from)
    else FirstFitFrom(s, bank, consumed, from + 1)
  }

  function InitialState(bank: seq<BankStatement>): (st: MatchState)
    ensures |st.consumed| == |bank| && forall j :: 0 <= j < |bank| ==> !st.consumed[j]
  {
    MatchState(seq(|bank|, _ => false), 0, 0.0, 0, [], [])
  }

  /** Processing system transaction number k (one iteration of the outer loop). */
  function Step(sys: seq<SystemTransaction>, bank: seq<BankStatement>, k: nat, st: MatchState): (r: MatchState)
    requires k < |sys| && |st.consumed| == |bank|
    ensures |r.consumed| == |bank|
  {
    var s := sys[k];
    match FirstFitFrom(s, bank, st.consumed, 0)
    case Some(i) =>
      st.(consumed := st.consumed[i := true],
          matched := st.matched + 1,
          discrepancy := st.discrepancy + BandContribution(Abs(s.amount - bank[i].amount)),
          pairs := st.pairs + [Pair(k, i)])
    case None =>
      st.(missingCount := st.missingCount + 1,
          missing := st.missing + [s])
  }

  /** The state after the first n system transactions. */
  function MatchAll(sys: seq<SystemTransaction>, bank: seq<BankStatement>, n: nat): (st: MatchState)
    requires n <= |sys|
    ensures |st.consumed| == |bank|
  {
    if n == 0 then InitialState(bank)
    else Step(sys, bank, n - 1, MatchAll(sys, bank, n - 1))
  }

  /**
   * Turn k, when it matches, takes the lowest-index free candidate, takes
   * only that one line, and that line was free before; when it does not
   * match, no free candidate existed and s is appended to the missing list.
   */
  lemma StepFirstFit(sys: seq<SystemTransaction>, bank: seq<BankStatement>, k: nat, st: MatchState)
    requires k < |sys| && |st.consumed| == |bank|
    ensures var r := Step(sys, bank, k, st);
      (r.matched == st.matched + 1 && r.missing == st.missing && r.missingCount == st.missingCount &&
        exists i :: Available(sys[k], bank, st.consumed, i)
          && (forall j :: 0 <= j < i ==> !Available(sys[k], bank, st.consumed, j))
          && r.consumed == st.consumed[i := true]
          && r.pairs == st.pairs + [Pair(k, i)])
      || (r.matched == st.matched && r.consumed == st.consumed && r.pairs == st.pairs &&
          r.missing == st.missing + [sys[k]] && r.missingCount == st.missingCount + 1 &&
          forall j :: !Available(sys[k], bank, st.consumed, j))
  {
    match FirstFitFrom(sys[k], bank, st.consumed, 0)
    case Some(i) =>
      assert Available(sys[k], bank, st.consumed, i);
    case None =>
  }

  /** A system transaction is reported missing exactly when no free candidate existed at its turn. */
  lemma MissingIffNoCandidate(sys: seq<SystemTransaction>, bank: seq<BankStatement>, k: nat)
    requires k < |sys|
    ensures var before := MatchAll(sys, bank, k);
      var after := MatchAll(sys, bank, k + 1);
      ((after.missing == before.missing + [sys[k]])
         <==> (forall j :: !Available(sys[k], bank, before.consumed, j)))
      && (after.missing == before.missing || after.missing == before.missing + [sys[k]])
  {
    var before := MatchAll(sys, bank, k);
    StepFirstFit(sys, bank, k, before);
  }

  // ---- counting and order helpers ----

  function CountTrue(c: seq<bool>): (r: nat)
    ensures r <= |c|
  {
    if c == [] then 0 else CountTrue(c[..|c| - 1]) + (if c[|c| - 1] then 1 else 0)
  }

  lemma {:induction false} CountTrueAllFalse(n: nat)
    ensures CountTrue(seq(n, _ => false)) == 0
  {
    if n > 0 {
      assert seq(n, _ => false)[..n - 1] == seq(n - 1, _ => false);
      CountTrueAllFalse(n - 1);
    }
  }

  /** Consuming a free line raises the consumed count by exactly one. */
  lemma {:induction false} CountTrueFlip(c: seq<bool>, i: nat)
    requires i < |c| && !c[i]
    ensures CountTrue(c[i := true]) == CountTrue(c) + 1
  {
    var c' := c[i := true];
    if i == |c| - 1 {
      assert c'[..|c| - 1] == c[..|c| - 1];
    } else {
      assert c'[..|c| - 1] == c[..|c| - 1][i := true];
      CountTrueFlip(c[..|c| - 1], i);
    }
  }

  /** a is b with some elements left out, the rest kept in order. */
  predicate IsSubsequence<T(==)>(a: seq<T>, b: seq<T>)
    decreases |b|
  {
    if a == [] then true
    else if b == [] then false
    else if a[0] == b[0] then IsSubsequence(a[1..], b[1..])
    else IsSubsequence(a, b[1..])
  }

  lemma {:induction false} SubsequenceSkipLast<T>(a: seq<T>, b: seq<T>, x: T)
    requires IsSubsequence(a, b)
    ensures IsSubsequence(a, b + [x])
    decreases |b|
  {
    if a != [] {
      assert (b + [x])[1..] == b[1..] + [x];
      if a[0] == b[0] {
        SubsequenceSkipLast(a[1..], b[1..], x);
      } else {
        SubsequenceSkipLast(a, b[1..], x);
      }
    }
  }

  lemma {:induction false} SubsequenceKeepLast<T>(a: seq<T>, b: seq<T>, x: T)
    requires IsSubsequence(a, b)
    ensures IsSubsequence(a + [x], b + [x])
    decreases |b|
  {
    if b == [] {
      assert a == [];
      assert [x][1..] == [];
    } else {
      assert (b + [x])[1..] == b[1..] + [x];
      if a == [] {
        if x != b[0] {
          SubsequenceKeepLast(a, b[1..], x);
        } else {
          assert (a + [x])[1..] == [];
        }
      } else {
        assert (a + [x])[1..] == a[1..] + [x];
        if a[0] == b[0] {
          SubsequenceKeepLast(a[1..], b[1..], x);
        } else {
          SubsequenceKeepLast(a, b[1..], x);
        }
      }
    }
  }

  // ---- the invariant of the matching pass ----

  predicate PairsInRange(sys: seq<SystemTransaction>, bank: seq<BankStatement>, pairs: seq<Pair>)
  {
    forall k :: 0 <= k < |pairs| ==> pairs[k].sysIndex < |sys| && pairs[k].bankIndex < |bank|
  }

  /** The sum of the band contributions of the given pairs. */
  function BandSum(sys: seq<SystemTransaction>, bank: seq<BankStatement>, pairs: seq<Pair>): (r: real)
    requires PairsInRange(sys, bank, pairs)
    ensures r >= 0.0
  {
    if pairs == [] then 0.0
    else
      var p := pairs[|pairs| - 1];
      BandSum(sys, bank, pairs[..|pairs| - 1])
        + BandContribution(Abs(sys[p.sysIndex].amount - bank[p.bankIndex].amount))
  }

  /** Bank line i is the partner of some recorded pair. */
  predicate Paired(pairs: seq<Pair>, i: int)
  {
    exists k :: 0 <= k < |pairs| && pairs[k].bankIndex == i
  }

  /** Each pair joins a processed transaction to a consumed candidate line. */
  ghost predicate PairsValid(sys: seq<SystemTransaction>, bank: seq<BankStatement>, n: nat, st: MatchState)
    requires |st.consumed| == |bank|
  {
    PairsInRange(sys, bank, st.pairs)
    && forall k :: 0 <= k < |st.pairs| ==>
         st.pairs[k].sysIndex < n && st.consumed[st.pairs[k].bankIndex]
         && IsCandidate(sys[st.pairs[k].sysIndex], bank[st.pairs[k].bankIndex])
  }

  /** A transaction takes at most one line, and a line is taken at most once. */
  ghost predicate PairsDistinct(pairs: seq<Pair>)
  {
    forall k, l :: 0 <= k < l < |pairs| ==>
      pairs[k].sysIndex < pairs[l].sysIndex && pairs[k].bankIndex != pairs[l].bankIndex
  }

  /** A line is consumed only as the partner of a pair. */
  ghost predicate ConsumedArePaired(st: MatchState)
  {
    forall i :: 0 <= i < |st.consumed| && st.consumed[i] ==> Paired(st.pairs, i)
  }

  ghost predicate PairsSound(sys: seq<SystemTransaction>, bank: seq<BankStatement>, n: nat, st: MatchState)
    requires |st.consumed| == |bank|
  {
    PairsValid(sys, bank, n, st) && PairsDistinct(st.pairs) && ConsumedArePaired(st)
  }

  lemma StepPairsValid(sys: seq<SystemTransaction>, bank: seq<BankStatement>, k: nat, st: MatchState)
    requires k < |sys| && |st.consumed| == |bank| && PairsValid(sys, bank, k, st)
    ensures PairsValid(sys, bank, k + 1, Step(sys, bank, k, st))
  {
    match FirstFitFrom(sys[k], bank, st.consumed, 0)
    case Some(i) =>
      var r := Step(sys, bank, k, st);
      assert r.pairs == st.pairs + [Pair(k, i)];
      assert r.consumed == st.consumed[i := true];
    case None =>
  }

  lemma StepPairsDistinct(sys: seq<SystemTransaction>, bank: seq<BankStatement>, k: nat, st: MatchState)
    requires k < |sys| && |st.consumed| == |bank| && PairsValid(sys, bank, k, st) && PairsDistinct(st.pairs)
    ensures PairsDistinct(Step(sys, bank, k, st).pairs)
  {
    match FirstFitFrom(sys[k], bank, st.consumed, 0)
    case Some(i) =>
      var r := Step(sys, bank, k, st);
      assert r.pairs == st.pairs + [Pair(k, i)];
      forall l | 0 <= l < |st.pairs|
        ensures st.pairs[l].bankIndex != i
      {
        assert st.consumed[st.pairs[l].bankIndex];
      }
    case None =>
  }

  lemma StepConsumedArePaired(sys: seq<SystemTransaction>, bank: seq<BankStatement>, k: nat, st: MatchState)
    requires k < |sys| && |st.consumed| == |bank| && ConsumedArePaired(st)
    ensures ConsumedArePaired(Step(sys, bank, k, st))
  {
    match FirstFitFrom(sys[k], bank, st.consumed, 0)
    case Some(i) =>
      var r := Step(sys, bank, k, st);
      assert r.pairs == st.pairs + [Pair(k, i)];
      forall j | 0 <= j < |r.consumed| && r.consumed[j]
        ensures Paired(r.pairs, j)
      {
        if j == i {
          assert r.pairs[|st.pairs|].bankIndex == j;
        } else {
          var l :| 0 <= l < |st.pairs| && st.pairs[l].bankIndex == j;
          assert r.pairs[l].bankIndex == j;
        }
      }
    case None =>
  }

  /** The counters agree with the lists they summarise. */
  ghost predicate CountsAgree(sys: seq<SystemTransaction>, n: nat, st: MatchState)
    requires n <= |sys|
  {
    st.matched == |st.pairs| == CountTrue(st.consumed)
    && st.missingCount == |st.missing|
    && st.matched + st.missingCount == n
    && IsSubsequence(st.missing, sys[..n])
  }

  ghost predicate Consistent(sys: seq<SystemTransaction>, bank: seq<BankStatement>, n: nat, st: MatchState)
  {
    n <= |sys| && |st.consumed| == |bank|
    && PairsSound(sys, bank, n, st)
    && CountsAgree(sys, n, st)
    && st.discrepancy == BandSum(sys, bank, st.pairs)
  }

  lemma {:induction false} MatchAllPairsValid(sys: seq<SystemTransaction>, bank: seq<BankStatement>, n: nat)
    requires n <= |sys|
    ensures PairsValid(sys, bank, n, MatchAll(sys, bank, n))
  {
    if n > 0 {
      MatchAllPairsValid(sys, bank, n - 1);
      StepPairsValid(sys, bank, n - 1, MatchAll(sys, bank, n - 1));
    }
  }

  lemma {:induction false} MatchAllPairsDistinct(sys: seq<SystemTransaction>, bank: seq<BankStatement>, n: nat)
    requires n <= |sys|
    ensures PairsDistinct(MatchAll(sys, bank, n).pairs)
  {
    if n > 0 {
      MatchAllPairsDistinct(sys, bank, n - 1);
      MatchAllPairsValid(sys, bank, n - 1);
      StepPairsDistinct(sys, bank, n - 1, MatchAll(sys, bank, n - 1));
    }
  }

  lemma {:induction false} MatchAllConsumedArePaired(sys: seq<SystemTransaction>, bank: seq<BankStatement>, n: nat)
    requires n <= |sys|
    ensures ConsumedArePaired(MatchAll(sys, bank, n))
  {
    if n > 0 {
      MatchAllConsumedArePaired(sys, bank, n - 1);
      StepConsumedArePaired(sys, bank, n - 1, MatchAll(sys, bank, n - 1));
    }
  }

  lemma {:induction false} MatchAllCountsAgree(sys: seq<SystemTransaction>, bank: seq<BankStatement>, n: nat)
    requires n <= |sys|
    ensures CountsAgree(sys, n, MatchAll(sys, bank, n))
  {
    if n == 0 {
      CountTrueAllFalse(|bank|);
    } else {
      var st := MatchAll(sys, bank, n - 1);
      MatchAllCountsAgree(sys, bank, n - 1);
      assert sys[..n] == sys[..n - 1] + [sys[n - 1]];
      match FirstFitFrom(sys[n - 1], bank, st.consumed, 0)
      case Some(i) =>
        CountTrueFlip(st.consumed, i);
        SubsequenceSkipLast(st.missing, sys[..n - 1], sys[n - 1]);
      case None =>
        SubsequenceKeepLast(st.missing, sys[..n - 1], sys[n - 1]);
    }
  }

  lemma {:induction false} MatchAllBandSum(sys: seq<SystemTransaction>, bank: seq<BankStatement>, n: nat)
    requires n <= |sys|
    ensures PairsInRange(sys, bank, MatchAll(sys, bank, n).pairs)
    ensures MatchAll(sys, bank, n).discrepancy == BandSum(sys, bank, MatchAll(sys, bank, n).pairs)
  {
    MatchAllPairsValid(sys, bank, n);
    if n > 0 {
      var st := MatchAll(sys, bank, n - 1);
      MatchAllBandSum(sys, bank, n - 1);
      var r := Step(sys, bank, n - 1, st);
      match FirstFitFrom(sys[n - 1], bank, st.consumed, 0)
      case Some(i) =>
        assert r.pairs[..|r.pairs| - 1] == st.pairs;
      case None =>
    }
  }

  /** The matching pass keeps all of the above after every transaction. */
  lemma MatchAllConsistent(sys: seq<SystemTransaction>, bank: seq<BankStatement>, n: nat)
    requires n <= |sys|
    ensures Consistent(sys, bank, n, MatchAll(sys, bank, n))
  {
    MatchAllPairsValid(sys, bank, n);
    MatchAllPairsDistinct(sys, bank, n);
    MatchAllConsumedArePaired(sys, bank, n);
    MatchAllCountsAgree(sys, bank, n);
    MatchAllBandSum(sys, bank, n);
  }

  /** Before any transaction, and after each, consumed lines only ever accumulate. */
  lemma {:induction false} ConsumedGrows(sys: seq<SystemTransaction>, bank: seq<BankStatement>, m: nat, n: nat)
    requires m <= n <= |sys|
    ensures forall i :: 0 <= i < |bank| && MatchAll(sys, bank, m).consumed[i] ==> MatchAll(sys, bank, n).consumed[i]
    decreases n - m
  {
    if m < n {
      ConsumedGrows(sys, bank, m, n - 1);
      StepFirstFit(sys, bank, n - 1, MatchAll(sys, bank, n - 1));
    }
  }
}
