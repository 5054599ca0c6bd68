/**
 * The report Reconcile returns (main.go:229-291), as a function of its two
 * inputs, and the properties the report has for every input.
 */
module Report {
  import opened Records
  import opened Matching
  import opened Grouping

  /** The report for the given ledger and bank lines. */
  function Spec(sys: seq<SystemTransaction>, bank: seq<BankStatement>): (r: ReconciliationResult)
    ensures r.totalTransactions == |sys| + |bank|
    ensures r.sysUnmatchedDetail.totalSystemTransMissingBank == |r.sysUnmatchedDetail.systemTransMissingBankList|
    ensures 0 <= r.totalMatchedTransactions <= |sys| && r.totalMatchedTransactions <= |bank|
    ensures r.totalDiscrepanciesAmount >= 0.0
  {
    var st := MatchAll(sys, bank, |sys|);
    MatchAllConsistent(sys, bank, |sys|);
    ReconciliationResult(
      |sys| + |bank|,
      st.matched,
      SysUnmatchedDetails(st.missingCount, st.missing),
      ToDetails(GroupUnmatched(bank, st.consumed, |bank|)),
      st.discrepancy)
  }

  /**
   * Conservation: every ledger transaction is either matched or reported
   * missing, and every bank line is either consumed by exactly one match or
   * reported under its file.
   */
  lemma Conservation(sys: seq<SystemTransaction>, bank: seq<BankStatement>)
    ensures var r := Spec(sys, bank);
      2 * r.totalMatchedTransactions
        + r.sysUnmatchedDetail.totalSystemTransMissingBank
        + TotalUnmatchedCount(r.bankUnmatchedTransactionsDetail)
      == |sys| + |bank|
  {
    var st := MatchAll(sys, bank, |sys|);
    MatchAllCountsAgree(sys, bank, |sys|);
    GroupTotal(bank, st.consumed, |bank|);
    assert st.consumed[..|bank|] == st.consumed;
  }

  /**
   * No reuse: each matched ledger transaction took one bank line, no bank line
   * was taken twice, a line is consumed exactly when it was taken, and a
   * line that was taken is not reported under any file.
   */
  lemma NoReuse(sys: seq<SystemTransaction>, bank: seq<BankStatement>)
    ensures var st := MatchAll(sys, bank, |sys|);
      var groups := Spec(sys, bank).bankUnmatchedTransactionsDetail;
      |st.pairs| == Spec(sys, bank).totalMatchedTransactions
      && (forall k, l :: 0 <= k < l < |st.pairs| ==>
            st.pairs[k].sysIndex < st.pairs[l].sysIndex && st.pairs[k].bankIndex != st.pairs[l].bankIndex)
      && (forall i :: 0 <= i < |bank| ==> (st.consumed[i] <==> Paired(st.pairs, i)))
      && (forall f, x :: f in groups && x in groups[f].thisBankUnmatchedTransList ==>
            exists i :: 0 <= i < |bank| && !st.consumed[i] && !Paired(st.pairs, i) && bank[i] == x)
  {
    var st := MatchAll(sys, bank, |sys|);
    MatchAllConsistent(sys, bank, |sys|);
    GroupIsFilter(bank, st.consumed, |bank|);
    forall i | 0 <= i < |bank| && Paired(st.pairs, i)
      ensures st.consumed[i]
    {
      var k :| 0 <= k < |st.pairs| && st.pairs[k].bankIndex == i;
    }
  }

  /**
   * Grouping: a file has a key exactly when one of its lines is unconsumed;
   * its list is its unconsumed lines in original order, all from that file,
   * and its count is the list's length.
   */
  lemma GroupedByFile(sys: seq<SystemTransaction>, bank: seq<BankStatement>)
    ensures var st := MatchAll(sys, bank, |sys|);
      var groups := Spec(sys, bank).bankUnmatchedTransactionsDetail;
      (forall f :: f in groups <==> exists i :: 0 <= i < |bank| && !st.consumed[i] && bank[i].filePath == f)
      && (forall f :: f in groups ==>
            groups[f].thisBankUnmatchedTransList == UnmatchedInFile(bank, st.consumed, f, |bank|)
            && groups[f].thisBankUnmatchedTransCount == |groups[f].thisBankUnmatchedTransList|
            && forall x :: x in groups[f].thisBankUnmatchedTransList ==> x.filePath == f)
  {
    var st := MatchAll(sys, bank, |sys|);
    GroupIsFilter(bank, st.consumed, |bank|);
    forall f | exists i :: 0 <= i < |bank| && !st.consumed[i] && bank[i].filePath == f
      ensures UnmatchedInFile(bank, st.consumed, f, |bank|) != []
    {
      var i :| 0 <= i < |bank| && !st.consumed[i] && bank[i].filePath == f;
      assert bank[i] in UnmatchedInFile(bank, st.consumed, f, |bank|);
    }
    forall f | f in GroupUnmatched(bank, st.consumed, |bank|)
      ensures exists i :: 0 <= i < |bank| && !st.consumed[i] && bank[i].filePath == f
    {
      var r := UnmatchedInFile(bank, st.consumed, f, |bank|);
      assert r[0] in r;
    }
  }

  /**
   * Every unconsumed bank line is reported, under its own file.
   */
  lemma UnconsumedReported(sys: seq<SystemTransaction>, bank: seq<BankStatement>, i: nat)
    requires i < |bank| && !MatchAll(sys, bank, |sys|).consumed[i]
    ensures var groups := Spec(sys, bank).bankUnmatchedTransactionsDetail;
      bank[i].filePath in groups && bank[i] in groups[bank[i].filePath].thisBankUnmatchedTransList
  {
    var st := MatchAll(sys, bank, |sys|);
    GroupIsFilter(bank, st.consumed, |bank|);
    assert bank[i] in UnmatchedInFile(bank, st.consumed, bank[i].filePath, |bank|);
  }

  /**
   * The missing list: its count is its length, it keeps the ledger's order,
   * and together with the matches it accounts for every ledger transaction.
   */
  lemma MissingList(sys: seq<SystemTransaction>, bank: seq<BankStatement>)
    ensures var r := Spec(sys, bank);
      r.sysUnmatchedDetail.totalSystemTransMissingBank == |r.sysUnmatchedDetail.systemTransMissingBankList|
      && IsSubsequence(r.sysUnmatchedDetail.systemTransMissingBankList, sys)
      && r.totalMatchedTransactions + r.sysUnmatchedDetail.totalSystemTransMissingBank == |sys|
  {
    MatchAllCountsAgree(sys, bank, |sys|);
    assert sys[..|sys|] == sys;
  }

  /**
   * The discrepancy total is the sum, over the matched pairs, of each
   * pair's difference when it lies in the band (0.01, 5.0).
   */
  lemma DiscrepancyTotal(sys: seq<SystemTransaction>, bank: seq<BankStatement>)
    ensures var st := MatchAll(sys, bank, |sys|);
      PairsInRange(sys, bank, st.pairs)
      && Spec(sys, bank).totalDiscrepanciesAmount == BandSum(sys, bank, st.pairs)
  {
    MatchAllBandSum(sys, bank, |sys|);
  }

  /** Pairs whose amounts agree to within 0.01 add nothing to the discrepancy total. */
  lemma {:induction false} ExactPairsAddNothing(sys: seq<SystemTransaction>, bank: seq<BankStatement>, pairs: seq<Pair>)
    requires PairsInRange(sys, bank, pairs)
    requires forall k :: 0 <= k < |pairs| ==>
      Abs(sys[pairs[k].sysIndex].amount - bank[pairs[k].bankIndex].amount) <= DiscrepancyMin
    ensures BandSum(sys, bank, pairs) == 0.0
  {
    if pairs != [] {
      ExactPairsAddNothing(sys, bank, pairs[..|pairs| - 1]);
    }
  }
}
