/**
 * Reconcile (main.go:229-291) as the source writes it: a bool array marks the
 * consumed bank lines, nested loops with continue/break do the first-fit
 * scan, counters and lists grow step by step, and the unmatched lines are
 * appended into a map by file before the per-file report is built.
 */
module Reconciler {
  import opened Records
  import opened Matching
  import opened Grouping
  import opened Report

  /**
   * The error result is always None: nothing in the routine can fail.
   */
  method Reconcile(sysTxs: seq<SystemTransaction>, bankTxs: seq<BankStatement>)
    returns (result: ReconciliationResult, err: Option<string>)
    ensures err == None
    ensures result == Spec(sysTxs, bankTxs)
  {
    var totalTransactions := |sysTxs| + |bankTxs|;
    var totalMatched := 0;
    var totalDiscrepancies := 0.0;
    var totalMissing := 0;
    var missingList: seq<SystemTransaction> := [];

    var alreadyMatch := new bool[|bankTxs|](_ => false);
    for k := 0 to |sysTxs|
      invariant alreadyMatch[..] == MatchAll(sysTxs, bankTxs, k).consumed
      invariant totalMatched == MatchAll(sysTxs, bankTxs, k).matched
      invariant totalDiscrepancies == MatchAll(sysTxs, bankTxs, k).discrepancy
      invariant totalMissing == MatchAll(sysTxs, bankTxs, k).missingCount
      invariant missingList == MatchAll(sysTxs, bankTxs, k).missing
    {
      var sysTx := sysTxs[k];
      ghost var before := alreadyMatch[..];
      ghost var st := MatchAll(sysTxs, bankTxs, k);
      var matched := false;
      for i := 0 to alreadyMatch.Length
        invariant !matched
        invariant alreadyMatch[..] == before
        invariant totalMatched == st.matched && totalDiscrepancies == st.discrepancy
        invariant FirstFitFrom(sysTx, bankTxs, before, i) == FirstFitFrom(sysTx, bankTxs, before, 0)
      {
        if alreadyMatch[i] {
          continue;
        }
        var bankTx := bankTxs[i];
        if IsCandidate(sysTx, bankTx) {
          var amtDiff := Abs(sysTx.amount - bankTx.amount);
          alreadyMatch[i] := true;
          matched := true;
          totalMatched := totalMatched + 1;
          if InDiscrepancyBand(amtDiff) {
            totalDiscrepancies := totalDiscrepancies + amtDiff;
          }
          break;
        }
      }
      if !matched {
        totalMissing := totalMissing + 1;
        missingList := missingList + [sysTx];
      }
    }

    // every bank line not consumed is appended to the list of its file
    var missingBank: map<string, seq<BankStatement>> := map[];
    for i := 0 to alreadyMatch.Length
      invariant missingBank == GroupUnmatched(bankTxs, alreadyMatch[..], i)
    {
      if !alreadyMatch[i] {
        var path := bankTxs[i].filePath;
        missingBank := missingBank[path := (if path in missingBank then missingBank[path] else []) + [bankTxs[i]]];
      }
    }

    // one report entry per file, in whatever order the keys are visited
    var details: map<string, BankUnmatchedDetails> := map[];
    var paths := missingBank.Keys;
    while paths != {}
      invariant paths <= missingBank.Keys
      invariant details.Keys == missingBank.Keys - paths
      invariant forall p :: p in details ==> details[p] == BankUnmatchedDetails(|missingBank[p]|, missingBank[p])
      decreases paths
    {
      var path :| path in paths;
      details := details[path := BankUnmatchedDetails(|missingBank[path]|, missingBank[path])];
      paths := paths - {path};
    }
    assert details == ToDetails(missingBank);

    result := ReconciliationResult(
      totalTransactions,
      totalMatched,
      SysUnmatchedDetails(totalMissing, missingList),
      details,
      totalDiscrepancies);
    err := None;
  }
}
