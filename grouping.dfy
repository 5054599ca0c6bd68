/**
 * The aggregation step of Reconcile (main.go:269-288): the bank lines left
 * unconsumed are grouped by the file they came from, and each group is
 * reported with its length.
 */
module Grouping {
  import opened Records
  import opened Matching

  /** Every group is non-empty and holds only lines of its own file. */
  predicate GroupsWellFormed(groups: map<string, seq<BankStatement>>)
  {
    forall f :: f in groups ==> groups[f] != [] && forall x :: x in groups[f] ==> x.filePath == f
  }

  /**
   * The map built by appending, in index order, each of the first n bank
   * lines that is not consumed to the list under its file path (an absent
   * key reads as the empty list, as a nil slice does).
   */
  function GroupUnmatched(bank: seq<BankStatement>, consumed: seq<bool>, n: nat): (r: map<string, seq<BankStatement>>)
    requires |consumed| == |bank| && n <= |bank|
    ensures GroupsWellFormed(r)
  {
    if n == 0 then map[]
    else
      var g := GroupUnmatched(bank, consumed, n - 1);
      if consumed[n - 1] then g
      else
        var path := bank[n - 1].filePath;
        g[path := (if path in g then g[path] else []) + [bank[n - 1]]]
  }

  /**
   * Reference definition: the unconsumed lines among the first n that come
   * from file f, in their original order.
   */
  function UnmatchedInFile(bank: seq<BankStatement>, consumed: seq<bool>, f: string, n: nat): (r: seq<BankStatement>)
    requires |consumed| == |bank| && n <= |bank|
    ensures |r| <= n
    ensures forall x :: x in r ==> x.filePath == f && exists i :: 0 <= i < n && !consumed[i] && bank[i] == x
    ensures forall i :: 0 <= i < n && !consumed[i] && bank[i].filePath == f ==> bank[i] in r
  {
    if n == 0 then []
    else
      UnmatchedInFile(bank, consumed, f, n - 1)
        + (if !consumed[n - 1] && bank[n - 1].filePath == f then [bank[n - 1]] else [])
  }

  /** The per-file report: each group with its count. */
  function ToDetails(groups: map<string, seq<BankStatement>>): (d: map<string, BankUnmatchedDetails>)
    ensures d.Keys == groups.Keys
    ensures forall f :: f in d ==>
      d[f].thisBankUnmatchedTransList == groups[f]
      && d[f].thisBankUnmatchedTransCount == |d[f].thisBankUnmatchedTransList|
  {
    map f | f in groups :: BankUnmatchedDetails(|groups[f]|, groups[f])
  }

  /** Grouping is filtering by file: a key exists exactly for the files with an unconsumed line. */
  lemma {:induction false} GroupIsFilter(bank: seq<BankStatement>, consumed: seq<bool>, n: nat)
    requires |consumed| == |bank| && n <= |bank|
    ensures forall f :: (f in GroupUnmatched(bank, consumed, n) <==> UnmatchedInFile(bank, consumed, f, n) != [])
    ensures forall f :: f in GroupUnmatched(bank, consumed, n) ==>
      GroupUnmatched(bank, consumed, n)[f] == UnmatchedInFile(bank, consumed, f, n)
  {
    if n > 0 {
      GroupIsFilter(bank, consumed, n - 1);
    }
  }

  // ---- the sum of the per-file counts ----

  ghost function PickKey(d: map<string, BankUnmatchedDetails>): (k: string)
    requires d.Keys != {}
    ensures k in d
  {
    var k :| k in d.Keys; k
  }

  /** The sum of ThisBankUnMatchedTransCount over all files. */
  ghost function TotalUnmatchedCount(d: map<string, BankUnmatchedDetails>): (r: int)
    decreases d.Keys
  {
    if d.Keys == {} then 0
    else
      var k := PickKey(d);
      d[k].thisBankUnmatchedTransCount + TotalUnmatchedCount(d - {k})
  }

  /** The sum does not depend on which key is taken out first. */
  lemma {:induction false} TotalRemove(d: map<string, BankUnmatchedDetails>, f: string)
    requires f in d
    ensures TotalUnmatchedCount(d) == d[f].thisBankUnmatchedTransCount + TotalUnmatchedCount(d - {f})
    decreases d.Keys
  {
    var k := PickKey(d);
    if k != f {
      TotalRemove(d - {k}, f);
      TotalRemove(d - {f}, k);
      assert d - {k} - {f} == d - {f} - {k};
    }
  }

  lemma TotalUpdate(d: map<string, BankUnmatchedDetails>, f: string, v: BankUnmatchedDetails)
    ensures TotalUnmatchedCount(d[f := v])
      == TotalUnmatchedCount(d) + v.thisBankUnmatchedTransCount
         - (if f in d then d[f].thisBankUnmatchedTransCount else 0)
  {
    TotalRemove(d[f := v], f);
    assert d[f := v] - {f} == d - {f};
    if f in d {
      TotalRemove(d, f);
    } else {
      assert d - {f} == d;
    }
  }

  /** The per-file counts add up to the number of unconsumed lines. */
  lemma {:induction false} GroupTotal(bank: seq<BankStatement>, consumed: seq<bool>, n: nat)
    requires |consumed| == |bank| && n <= |bank|
    ensures TotalUnmatchedCount(ToDetails(GroupUnmatched(bank, consumed, n))) == n - CountTrue(consumed[..n])
  {
    if n > 0 {
      GroupTotal(bank, consumed, n - 1);
      assert consumed[..n][..n - 1] == consumed[..n - 1];
      var g := GroupUnmatched(bank, consumed, n - 1);
      if !consumed[n - 1] {
        var path := bank[n - 1].filePath;
        var v := (if path in g then g[path] else []) + [bank[n - 1]];
        assert ToDetails(g[path := v]) == ToDetails(g)[path := BankUnmatchedDetails(|v|, v)];
        TotalUpdate(ToDetails(g), path, BankUnmatchedDetails(|v|, v));
      }
    }
  }
}
