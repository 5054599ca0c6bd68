/**
 * The scenario of main_test.go (TestReconcile_MatchedAndDiscrepant), and a
 * small case showing that the partner is the first candidate, not the best.
 */
module Fixture {
  import opened Records
  import opened Matching
  import opened Grouping
  import opened Report

  function LedgerFixture(): (r: seq<SystemTransaction>)
  {
    [ SystemTransaction("TXN001", 1500.50, "DEBIT", "2025-07-08"),
      SystemTransaction("TXN002", 250.75, "CREDIT", "2025-07-10"),
      SystemTransaction("TXN003", 100.00, "CREDIT", "2025-07-08") ]
  }

  function BankFixture(): (r: seq<BankStatement>)
  {
    [ BankStatement("BS001", 1500.20, "2025-07-08", "bank_A.csv"),
      BankStatement("BS002", 250.75, "2025-07-10", "bank_A.csv"),
      BankStatement("BS003", 105.00, "2025-07-08", "bank_A.csv") ]
  }

  /**
   * Two matches, TXN003 is the one ledger transaction without a partner, and
   * BS003 is the one bank line left over, reported under bank_A.csv.
   */
  lemma FixtureReport()
    ensures var r := Spec(LedgerFixture(), BankFixture());
      r.totalTransactions == 6
      && r.totalMatchedTransactions == 2
      && r.sysUnmatchedDetail.totalSystemTransMissingBank == 1
      && r.sysUnmatchedDetail.systemTransMissingBankList == [LedgerFixture()[2]]
      && r.bankUnmatchedTransactionsDetail.Keys == {"bank_A.csv"}
      && r.bankUnmatchedTransactionsDetail["bank_A.csv"].thisBankUnmatchedTransCount == 1
      && r.bankUnmatchedTransactionsDetail["bank_A.csv"].thisBankUnmatchedTransList == [BankFixture()[2]]
  {
    var sys, bank := LedgerFixture(), BankFixture();
    var s0 := MatchAll(sys, bank, 0);
    assert FirstFitFrom(sys[0], bank, s0.consumed, 0) == Some(0);
    var s1 := MatchAll(sys, bank, 1);
    assert s1.consumed == [true, false, false];
    assert !Available(sys[1], bank, s1.consumed, 0);
    assert FirstFitFrom(sys[1], bank, s1.consumed, 0) == Some(1);
    var s2 := MatchAll(sys, bank, 2);
    assert s2.consumed == [true, true, false];
    assert !Available(sys[2], bank, s2.consumed, 2);
    assert FirstFitFrom(sys[2], bank, s2.consumed, 0) == None;
    var s3 := MatchAll(sys, bank, 3);
    assert s3.consumed == [true, true, false];
    assert s3.matched == 2 && s3.missing == [sys[2]];
  }

  /**
   * First fit, not best fit: with two free candidates the earlier one is
   * taken even when the later one has the exact amount, and listing the
   * bank lines the other way round changes the partner.
   */
  lemma FirstCandidateWins()
    ensures var s := SystemTransaction("T1", 10.00, "DEBIT", "2025-07-08");
      var near := BankStatement("B1", 10.40, "2025-07-08", "bank_A.csv");
      var exact := BankStatement("B2", 10.00, "2025-07-08", "bank_B.csv");
      MatchAll([s], [near, exact], 1).pairs == [Pair(0, 0)]
      && MatchAll([s], [exact, near], 1).pairs == [Pair(0, 0)]
      && Spec([s], [near, exact]).bankUnmatchedTransactionsDetail.Keys == {"bank_B.csv"}
      && Spec([s], [exact, near]).bankUnmatchedTransactionsDetail.Keys == {"bank_A.csv"}
  {
    var s := SystemTransaction("T1", 10.00, "DEBIT", "2025-07-08");
    var near := BankStatement("B1", 10.40, "2025-07-08", "bank_A.csv");
    var exact := BankStatement("B2", 10.00, "2025-07-08", "bank_B.csv");
    assert FirstFitFrom(s, [near, exact], [false, false], 0) == Some(0);
    assert FirstFitFrom(s, [exact, near], [false, false], 0) == Some(0);
    assert MatchAll([s], [near, exact], 1).consumed == [true, false];
    assert MatchAll([s], [exact, near], 1).consumed == [true, false];
    assert GroupUnmatched([near, exact], [true, false], 1) == map[];
    assert [] + [exact] == [exact] && [] + [near] == [near];
    assert GroupUnmatched([near, exact], [true, false], 2) == map["bank_B.csv" := [exact]];
    assert GroupUnmatched([exact, near], [true, false], 1) == map[];
    assert GroupUnmatched([exact, near], [true, false], 2) == map["bank_A.csv" := [near]];
  }
}
