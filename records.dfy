/**
 * The records the reconciler reads and the report it writes
 * (main.go: SystemTransaction, BankStatement, ReconcillationResult,
 * SysUnMatchedTransDetails, ThisBankUnMatchedTransDetails), together with
 * the matching rule and the discrepancy band.
 *
 * Amounts are exact reals: the model does not reproduce float64 rounding.
 */
module Records {

  datatype Option<T> = None | Some(value: T)

  /** Two amounts match when they differ by strictly less than this. */
  const MatchTolerance: real := 0.50
  /** A matched difference is a discrepancy when it lies strictly between these two. */
  const DiscrepancyMin: real := 0.01
  const DiscrepancyMax: real := 5.0

  /** A ledger entry; `kind` is DEBIT or CREDIT and is never read by matching. */
  datatype SystemTransaction = SystemTransaction(
    trxId: string,
    amount: real,
    kind: string,
    transactionTime: string)

  /** A bank statement line, tagged with the file it was read from. */
  datatype BankStatement = BankStatement(
    uniqueIdentifier: string,
    amount: real,
    date: string,
    filePath: string)

  datatype SysUnmatchedDetails = SysUnmatchedDetails(
    totalSystemTransMissingBank: int,
    systemTransMissingBankList: seq<SystemTransaction>)

  datatype BankUnmatchedDetails = BankUnmatchedDetails(
    thisBankUnmatchedTransCount: int,
    thisBankUnmatchedTransList: seq<BankStatement>)

  datatype ReconciliationResult = ReconciliationResult(
    totalTransactions: int,
    totalMatchedTransactions: int,
    sysUnmatchedDetail: SysUnmatchedDetails,
    bankUnmatchedTransactionsDetail: map<string, BankUnmatchedDetails>,
    totalDiscrepanciesAmount: real)

  function Abs(x: real): (r: real)
    ensures r >= 0.0
    ensures r == x || r == -x
  {
    if x < 0.0 then -x else x
  }

  /** The matching rule: same date, and amounts closer than the tolerance. */
  predicate IsCandidate(s: SystemTransaction, b: BankStatement)
    ensures IsCandidate(s, b) <==>
      s.transactionTime == b.date && -MatchTolerance < s.amount - b.amount < MatchTolerance
  {
    s.transactionTime == b.date && Abs(s.amount - b.amount) < MatchTolerance
  }

  /**
   * A difference in the band is never zero, and for a difference below the
   * match tolerance only the lower end of the band decides.
   */
  predicate InDiscrepancyBand(diff: real)
    ensures InDiscrepancyBand(diff) ==> diff > 0.0
    ensures diff < MatchTolerance ==> (InDiscrepancyBand(diff) <==> diff > DiscrepancyMin)
  {
    DiscrepancyMin < diff < DiscrepancyMax
  }

  /**
   * What one matched pair adds to the discrepancy total: its difference when
   * that lies in the band, nothing otherwise.
   */
  function BandContribution(diff: real): (r: real)
    requires diff >= 0.0
    ensures 0.0 <= r <= diff
    ensures DiscrepancyMin < diff < DiscrepancyMax ==> r == diff
    ensures r == 0.0 <==> diff <= DiscrepancyMin || diff >= DiscrepancyMax
  {
    if InDiscrepancyBand(diff) then diff else 0.0
  }

  /**
   * The upper end of the band never applies to a matched pair: every
   * candidate pair differs by less than the match tolerance, which is below
   * DiscrepancyMax, so only the lower end decides.
   */
  lemma UpperBandUnreachable(s: SystemTransaction, b: BankStatement)
    requires IsCandidate(s, b)
    ensures BandContribution(Abs(s.amount - b.amount))
            == if Abs(s.amount - b.amount) > DiscrepancyMin then Abs(s.amount - b.amount) else 0.0
  {
  }
}
