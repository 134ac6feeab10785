/**
 * The feature aggregator (`feature_engineering`): the normalized log is
 * grouped by exact wallet id and every group becomes one row of counts,
 * amount sums and the borrow/deposit ratio.
 */
module Features {
  import opened Ingest

  const Deposit: string := "deposit"
  const Borrow: string := "borrow"
  const Repay: string := "repay"
  const Liquidation: string := "liquidationcall"

  /** One row of the feature table. */
  datatype WalletFeatures = WalletFeatures(
    wallet: string,
    depositCount: nat,
    borrowCount: nat,
    repayCount: nat,
    liquidationCount: nat,
    depositAmount: real,
    borrowAmount: real,
    borrowDepositRatio: real)

  // ---------------------------------------------------------------------
  // Reference definitions

  /** The wallet ids that occur in the log. */
  function Wallets(txns: seq<Txn>): set<string> {
    WalletsUpTo(txns, |txns|)
  }

  /** The wallet ids that occur in the first `n` transactions. */
  function WalletsUpTo(txns: seq<Txn>, n: nat): set<string>
    requires n <= |txns|
  {
    if n == 0 then {} else WalletsUpTo(txns, n - 1) + {txns[n - 1].wallet}
  }

  /** The group of wallet `w`: its transactions, in log order, matched by exact string equality. */
  function Group(txns: seq<Txn>, w: string): seq<Txn> {
    GroupUpTo(txns, |txns|, w)
  }

  /** The group of wallet `w` among the first `n` transactions. */
  function GroupUpTo(txns: seq<Txn>, n: nat, w: string): (g: seq<Txn>)
    requires n <= |txns|
    ensures |g| <= n
  {
    if n == 0 then []
    else GroupUpTo(txns, n - 1, w) + (if txns[n - 1].wallet == w then [txns[n - 1]] else [])
  }

  /** The transactions of `txns` whose action tag is exactly `action`, in order. */
  function WithAction(txns: seq<Txn>, action: string): (m: seq<Txn>)
    ensures |m| <= |txns|
  {
    if txns == [] then []
    else WithAction(txns[..|txns| - 1], action) + (if txns[|txns| - 1].action == action then [txns[|txns| - 1]] else [])
  }

  /** `len(group[group['action'] == action])`. */
  function Count(txns: seq<Txn>, action: string): nat {
    |WithAction(txns, action)|
  }

  function SumAmounts(txns: seq<Txn>): real {
    if txns == [] then 0.0 else SumAmounts(txns[..|txns| - 1]) + txns[|txns| - 1].amount
  }

  /** `group[group['action'] == action]['amount'].sum()`. */
  function Total(txns: seq<Txn>, action: string): real {
    SumAmounts(WithAction(txns, action))
  }

  /** `borrow_count / deposit_count if deposit_count > 0 else 1.0`. */
  function BorrowDepositRatio(borrows: nat, deposits: nat): (r: real)
    ensures deposits == 0 ==> r == 1.0
    ensures deposits > 0 ==> r * deposits as real == borrows as real
    ensures r >= 0.0
  {
    if deposits > 0 then borrows as real / deposits as real else 1.0
  }

  /** The row the aggregator produces for wallet `w` from its group `g`. */
  function Summarize(w: string, g: seq<Txn>): WalletFeatures {
    var deposits := Count(g, Deposit);
    var borrows := Count(g, Borrow);
    WalletFeatures(w, deposits, borrows, Count(g, Repay), Count(g, Liquidation),
                   Total(g, Deposit), Total(g, Borrow), BorrowDepositRatio(borrows, deposits))
  }

  predicate Distinct(ws: seq<string>) {
    forall i, j :: 0 <= i < j < |ws| ==> ws[i] != ws[j]
  }

  function WalletColumn(rows: seq<WalletFeatures>): (ws: seq<string>)
    ensures |ws| == |rows|
    ensures forall i :: 0 <= i < |rows| ==> ws[i] == rows[i].wallet
  {
    seq(|rows|, i requires 0 <= i < |rows| => rows[i].wallet)
  }

  /** `rows` is a feature table of `txns`: one row per wallet of the log, each summarizing that wallet's group. */
  ghost predicate IsFeatureTable(rows: seq<WalletFeatures>, txns: seq<Txn>) {
    && Distinct(WalletColumn(rows))
    && (forall w :: w in WalletColumn(rows) <==> w in Wallets(txns))
    && forall r :: r in rows ==> r == Summarize(r.wallet, Group(txns, r.wallet))
  }

  // ---------------------------------------------------------------------
  // The aggregator

  /**
   * `df.groupby('wallet')`: the distinct wallets of the log and the group
   * of each; the order of the wallets is not specified.
   */
  method GroupByWallet(txns: seq<Txn>) returns (order: seq<string>, groups: map<string, seq<Txn>>)
    ensures Distinct(order)
    ensures forall w :: w in order <==> w in groups
    ensures groups.Keys == Wallets(txns)
    ensures forall w :: w in groups ==> groups[w] == Group(txns, w)
  {
    order, groups := [], map[];
    var i := 0;
    while i < |txns|
      invariant 0 <= i <= |txns|
      invariant Distinct(order)
      invariant forall w :: w in order <==> w in groups
      invariant groups.Keys == WalletsUpTo(txns, i)
      invariant forall w :: w in groups ==> groups[w] == GroupUpTo(txns, i, w)
    {
      var t := txns[i];
      if t.wallet in groups {
        groups := groups[t.wallet := groups[t.wallet] + [t]];
      } else {
        EmptyGroupOutsideLog(txns, i, t.wallet);
        order := order + [t.wallet];
        groups := groups[t.wallet := [t]];
      }
      i := i + 1;
    }
  }

  /** A wallet id absent from the first `n` transactions has an empty group there, and a present one a non-empty group. */
  lemma {:induction false} EmptyGroupOutsideLog(txns: seq<Txn>, n: nat, w: string)
    requires n <= |txns|
    ensures w !in WalletsUpTo(txns, n) <==> GroupUpTo(txns, n, w) == []
  {
    if n > 0 {
      EmptyGroupOutsideLog(txns, n - 1, w);
    }
  }

  /**
   * `feature_engineering`: the groups of `groupby('wallet')`, then one row
   * per group appended to `features`.
   */
  method FeatureEngineering(txns: seq<Txn>) returns (features: seq<WalletFeatures>)
    ensures IsFeatureTable(features, txns)
    ensures |features| == |Wallets(txns)|
  {
    var order, groups := GroupByWallet(txns);
    features := [];
    var j := 0;
    while j < |order|
      invariant 0 <= j <= |order|
      invariant WalletColumn(features) == order[..j]
      invariant forall r :: r in features ==> r == Summarize(r.wallet, Group(txns, r.wallet))
    {
      var wallet := order[j];
      var group := groups[wallet];
      var depositCount := Count(group, Deposit);
      var borrowCount := Count(group, Borrow);
      var repayCount := Count(group, Repay);
      var liquidationCount := Count(group, Liquidation);
      var depositAmount := Total(group, Deposit);
      var borrowAmount := Total(group, Borrow);
      var borrowDepositRatio := if depositCount > 0 then borrowCount as real / depositCount as real else 1.0;
      features := features + [WalletFeatures(wallet, depositCount, borrowCount, repayCount, liquidationCount,
                                             depositAmount, borrowAmount, borrowDepositRatio)];
      j := j + 1;
    }
    assert order[..j] == order;
    DistinctCardinality(order, groups.Keys);
  }

  /** A list of distinct ids that enumerates a set is as long as the set is large. */
  lemma {:induction false} DistinctCardinality(ws: seq<string>, s: set<string>)
    requires Distinct(ws)
    requires forall w :: w in ws <==> w in s
    ensures |s| == |ws|
  {
    if ws != [] {
      var init, last := ws[..|ws| - 1], ws[|ws| - 1];
      assert last !in init;
      assert forall w :: w in init <==> w in s - {last} by {
        assert forall w :: w in ws <==> w in init || w == last;
      }
      DistinctCardinality(init, s - {last});
    } else {
      assert forall w :: w !in s;
      assert s == {};
    }
  }

  // ---------------------------------------------------------------------
  // What a group and a count are

  lemma {:induction false} GroupMembersUpTo(txns: seq<Txn>, n: nat, w: string)
    requires n <= |txns|
    ensures forall t :: t in GroupUpTo(txns, n, w) <==> t in txns[..n] && t.wallet == w
  {
    if n > 0 {
      GroupMembersUpTo(txns, n - 1, w);
      assert txns[..n] == txns[..n - 1] + [txns[n - 1]];
    }
  }

  /** Grouping is by exact string equality: a group holds every transaction of its wallet and nothing else. */
  lemma GroupMembers(txns: seq<Txn>, w: string)
    ensures forall t :: t in Group(txns, w) <==> t in txns && t.wallet == w
  {
    GroupMembersUpTo(txns, |txns|, w);
    assert txns[..|txns|] == txns;
  }

  /** Every wallet of the log, and only those, has a non-empty group. */
  lemma WalletsHaveGroups(txns: seq<Txn>, w: string)
    ensures w in Wallets(txns) <==> Group(txns, w) != []
  {
    EmptyGroupOutsideLog(txns, |txns|, w);
  }

  /** The positions among the first `n` of the log whose action tag is exactly `action`. */
  function Positions(txns: seq<Txn>, n: nat, action: string): set<nat> {
    set i: nat | i < n && i < |txns| && txns[i].action == action
  }

  lemma PositionsStep(txns: seq<Txn>, n: nat, action: string)
    requires 0 < n <= |txns|
    ensures n - 1 !in Positions(txns, n - 1, action)
    ensures Positions(txns, n, action) ==
            Positions(txns, n - 1, action) + (if txns[n - 1].action == action then {n - 1} else {})
  {
  }

  /** `Count` is the number of positions carrying the tag. */
  lemma {:induction false} CountIsNumberOfPositions(txns: seq<Txn>, n: nat, action: string)
    requires n <= |txns|
    ensures Count(txns[..n], action) == |Positions(txns, n, action)|
  {
    if n > 0 {
      CountIsNumberOfPositions(txns, n - 1, action);
      assert txns[..n] == txns[..n - 1] + [txns[n - 1]];
      CountSnoc(txns[..n - 1], txns[n - 1], action);
      PositionsStep(txns, n, action);
    } else {
      assert Positions(txns, n, action) == {};
    }
  }

  /** The four counted tags are distinct, so no transaction is counted twice: the counts add up to at most the group size. */
  lemma {:induction false} CountsWithinGroup(g: seq<Txn>)
    ensures Count(g, Deposit) + Count(g, Borrow) + Count(g, Repay) + Count(g, Liquidation) <= |g|
  {
    if g != [] {
      CountsWithinGroup(g[..|g| - 1]);
    }
  }

  lemma {:induction false} TotalNonNegative(txns: seq<Txn>, action: string)
    requires forall t :: t in txns ==> t.amount >= 0.0
    ensures Total(txns, action) >= 0.0
  {
    var m := WithAction(txns, action);
    WithActionMembers(txns, action);
    SumNonNegative(m);
  }

  lemma {:induction false} SumNonNegative(txns: seq<Txn>)
    requires forall t :: t in txns ==> t.amount >= 0.0
    ensures SumAmounts(txns) >= 0.0
  {
    if txns != [] {
      SumNonNegative(txns[..|txns| - 1]);
    }
  }

  lemma {:induction false} WithActionMembers(txns: seq<Txn>, action: string)
    ensures forall t :: t in WithAction(txns, action) <==> t in txns && t.action == action
  {
    if txns != [] {
      var init := txns[..|txns| - 1];
      WithActionMembers(init, action);
      assert txns == init + [txns[|txns| - 1]];
    }
  }

  /** The ratio is exactly 1.0 when the wallet has no deposits or as many borrows as deposits, and only then. */
  lemma RatioIsOneExactly(borrows: nat, deposits: nat)
    ensures BorrowDepositRatio(borrows, deposits) == 1.0 <==> deposits == 0 || borrows == deposits
  {
    var r := BorrowDepositRatio(borrows, deposits);
    if deposits > 0 && r == 1.0 {
      assert r * deposits as real == deposits as real;
    }
  }

  // ---------------------------------------------------------------------
  // Nothing is lost or counted twice across the table

  /** The six summed columns of a row. */
  datatype Column = DepositCount | BorrowCount | RepayCount | LiquidationCount | DepositAmount | BorrowAmount

  function Cell(r: WalletFeatures, c: Column): real {
    match c
    case DepositCount => r.depositCount as real
    case BorrowCount => r.borrowCount as real
    case RepayCount => r.repayCount as real
    case LiquidationCount => r.liquidationCount as real
    case DepositAmount => r.depositAmount
    case BorrowAmount => r.borrowAmount
  }

  /** The statistic of column `c` over a run of transactions, as the aggregator computes it for a group. */
  function Tally(txns: seq<Txn>, c: Column): real {
    match c
    case DepositCount => Count(txns, Deposit) as real
    case BorrowCount => Count(txns, Borrow) as real
    case RepayCount => Count(txns, Repay) as real
    case LiquidationCount => Count(txns, Liquidation) as real
    case DepositAmount => Total(txns, Deposit)
    case BorrowAmount => Total(txns, Borrow)
  }

  /** What one transaction adds to column `c` of its wallet's row. */
  function Contribution(t: Txn, c: Column): real {
    match c
    case DepositCount => if t.action == Deposit then 1.0 else 0.0
    case BorrowCount => if t.action == Borrow then 1.0 else 0.0
    case RepayCount => if t.action == Repay then 1.0 else 0.0
    case LiquidationCount => if t.action == Liquidation then 1.0 else 0.0
    case DepositAmount => if t.action == Deposit then t.amount else 0.0
    case BorrowAmount => if t.action == Borrow then t.amount else 0.0
  }

  function Statistic(c: Column): Txn -> real {
    (t: Txn) => Contribution(t, c)
  }

  /** The sum of a per-transaction statistic `f` over a run of transactions. */
  function SumOf(txns: seq<Txn>, f: Txn -> real): real {
    if txns == [] then 0.0 else SumOf(txns[..|txns| - 1], f) + f(txns[|txns| - 1])
  }

  lemma CountSnoc(xs: seq<Txn>, t: Txn, action: string)
    ensures Count(xs + [t], action) == Count(xs, action) + (if t.action == action then 1 else 0)
  {
    assert (xs + [t])[..|xs + [t]| - 1] == xs;
  }

  lemma TotalSnoc(xs: seq<Txn>, t: Txn, action: string)
    ensures Total(xs + [t], action) == Total(xs, action) + (if t.action == action then t.amount else 0.0)
  {
    assert (xs + [t])[..|xs + [t]| - 1] == xs;
    var m := WithAction(xs, action);
    if t.action == action {
      assert WithAction(xs + [t], action) == m + [t];
      assert (m + [t])[..|m + [t]| - 1] == m;
    } else {
      assert WithAction(xs + [t], action) == m;
    }
  }

  /** Each column statistic is the sum of what the transactions contribute to it one by one. */
  lemma {:induction false} TallyIsSum(g: seq<Txn>, c: Column)
    ensures Tally(g, c) == SumOf(g, Statistic(c))
  {
    if g != [] {
      var init, t := g[..|g| - 1], g[|g| - 1];
      TallyIsSum(init, c);
      assert g == init + [t];
      match c
      case DepositCount => CountSnoc(init, t, Deposit);
      case BorrowCount => CountSnoc(init, t, Borrow);
      case RepayCount => CountSnoc(init, t, Repay);
      case LiquidationCount => CountSnoc(init, t, Liquidation);
      case DepositAmount => TotalSnoc(init, t, Deposit);
      case BorrowAmount => TotalSnoc(init, t, Borrow);
    }
  }

  /** The sum of `f` over the groups of the wallets `ws` among the first `n` transactions. */
  function SumByWallet(txns: seq<Txn>, n: nat, ws: seq<string>, f: Txn -> real): real
    requires n <= |txns|
  {
    if ws == [] then 0.0
    else SumByWallet(txns, n, ws[..|ws| - 1], f) + SumOf(GroupUpTo(txns, n, ws[|ws| - 1]), f)
  }

  lemma {:induction false} SumByWalletEmpty(txns: seq<Txn>, ws: seq<string>, f: Txn -> real)
    ensures SumByWallet(txns, 0, ws, f) == 0.0
  {
    if ws != [] {
      SumByWalletEmpty(txns, ws[..|ws| - 1], f);
    }
  }

  /** Reading one more transaction adds its statistic to its own wallet's group only. */
  lemma GroupSumStep(txns: seq<Txn>, n: nat, w: string, f: Txn -> real)
    requires n < |txns|
    ensures SumOf(GroupUpTo(txns, n + 1, w), f) ==
            SumOf(GroupUpTo(txns, n, w), f) + (if txns[n].wallet == w then f(txns[n]) else 0.0)
  {
    var before, after := GroupUpTo(txns, n, w), GroupUpTo(txns, n + 1, w);
    if txns[n].wallet == w {
      assert after[..|after| - 1] == before;
    } else {
      assert after == before;
    }
  }

  /** Splitting the last wallet off a list without repetitions. */
  lemma DistinctLast(ws: seq<string>)
    requires Distinct(ws) && ws != []
    ensures Distinct(ws[..|ws| - 1]) && ws[|ws| - 1] !in ws[..|ws| - 1]
    ensures forall x :: x in ws <==> x in ws[..|ws| - 1] || x == ws[|ws| - 1]
  {
    assert ws == ws[..|ws| - 1] + [ws[|ws| - 1]];
  }

  lemma {:induction false} SumByWalletStep(txns: seq<Txn>, n: nat, ws: seq<string>, f: Txn -> real)
    requires n < |txns| && Distinct(ws)
    ensures SumByWallet(txns, n + 1, ws, f) ==
            SumByWallet(txns, n, ws, f) + (if txns[n].wallet in ws then f(txns[n]) else 0.0)
  {
    if ws != [] {
      var init, w := ws[..|ws| - 1], ws[|ws| - 1];
      DistinctLast(ws);
      SumByWalletStep(txns, n, init, f);
      GroupSumStep(txns, n, w, f);
    }
  }

  /** Summing group by group over wallets that cover the first `n` transactions loses and repeats nothing. */
  lemma {:induction false} SumConserved(txns: seq<Txn>, n: nat, ws: seq<string>, f: Txn -> real)
    requires n <= |txns| && Distinct(ws)
    requires forall k :: 0 <= k < n ==> txns[k].wallet in ws
    ensures SumByWallet(txns, n, ws, f) == SumOf(txns[..n], f)
  {
    if n == 0 {
      SumByWalletEmpty(txns, ws, f);
      assert txns[..n] == [];
    } else {
      SumConserved(txns, n - 1, ws, f);
      SumConservedStep(txns, n, ws, f);
    }
  }

  lemma SumConservedStep(txns: seq<Txn>, n: nat, ws: seq<string>, f: Txn -> real)
    requires 0 < n <= |txns| && Distinct(ws) && txns[n - 1].wallet in ws
    requires SumByWallet(txns, n - 1, ws, f) == SumOf(txns[..n - 1], f)
    ensures SumByWallet(txns, n, ws, f) == SumOf(txns[..n], f)
  {
    SumByWalletStep(txns, n - 1, ws, f);
    SumOfPrefixStep(txns, n, f);
  }

  lemma SumOfPrefixStep(txns: seq<Txn>, n: nat, f: Txn -> real)
    requires 0 < n <= |txns|
    ensures SumOf(txns[..n], f) == SumOf(txns[..n - 1], f) + f(txns[n - 1])
  {
    assert txns[..n][..n - 1] == txns[..n - 1];
  }

  /** The sum of column `c` over the rows of a table. */
  function ColumnTotal(rows: seq<WalletFeatures>, c: Column): real {
    if rows == [] then 0.0 else ColumnTotal(rows[..|rows| - 1], c) + Cell(rows[|rows| - 1], c)
  }

  lemma {:induction false} ColumnTotalByWallet(rows: seq<WalletFeatures>, txns: seq<Txn>, c: Column)
    requires forall r :: r in rows ==> r == Summarize(r.wallet, Group(txns, r.wallet))
    ensures ColumnTotal(rows, c) == SumByWallet(txns, |txns|, WalletColumn(rows), Statistic(c))
  {
    if rows != [] {
      var init, r := rows[..|rows| - 1], rows[|rows| - 1];
      ColumnTotalByWallet(init, txns, c);
      assert WalletColumn(rows)[..|rows| - 1] == WalletColumn(init);
      TallyIsSum(Group(txns, r.wallet), c);
      assert Cell(r, c) == Tally(Group(txns, r.wallet), c);
    }
  }

  lemma {:induction false} WalletsMembers(txns: seq<Txn>, n: nat)
    requires n <= |txns|
    ensures forall k :: 0 <= k < n ==> txns[k].wallet in WalletsUpTo(txns, n)
  {
    if n > 0 {
      WalletsMembers(txns, n - 1);
    }
  }

  /**
   * Every transaction is counted in exactly one row: over a feature table,
   * each count and amount column adds up to the same statistic over the
   * whole log.
   */
  lemma FeatureTableTotals(rows: seq<WalletFeatures>, txns: seq<Txn>, c: Column)
    requires IsFeatureTable(rows, txns)
    ensures ColumnTotal(rows, c) == Tally(txns, c)
  {
    var ws := WalletColumn(rows);
    ColumnTotalByWallet(rows, txns, c);
    WalletsMembers(txns, |txns|);
    forall k | 0 <= k < |txns|
      ensures txns[k].wallet in ws
    {
      assert txns[..|txns|] == txns;
    }
    SumConserved(txns, |txns|, ws, Statistic(c));
    assert txns[..|txns|] == txns;
    TallyIsSum(txns, c);
  }

  // ---------------------------------------------------------------------
  // Rows of a feature table

  /** What every row of a feature table says about its wallet's transactions. */
  lemma FeatureRowFacts(rows: seq<WalletFeatures>, txns: seq<Txn>, r: WalletFeatures)
    requires IsFeatureTable(rows, txns) && r in rows
    ensures r.wallet in Wallets(txns) && Group(txns, r.wallet) != []
    ensures r.depositCount == Count(Group(txns, r.wallet), Deposit)
    ensures r.borrowCount == Count(Group(txns, r.wallet), Borrow)
    ensures r.repayCount == Count(Group(txns, r.wallet), Repay)
    ensures r.liquidationCount == Count(Group(txns, r.wallet), Liquidation)
    ensures r.depositCount + r.borrowCount + r.repayCount + r.liquidationCount <= |Group(txns, r.wallet)|
    ensures r.depositCount == 0 ==> r.borrowDepositRatio == 1.0
    ensures (forall t :: t in txns ==> t.amount >= 0.0) ==> r.depositAmount >= 0.0 && r.borrowAmount >= 0.0
  {
    var i :| 0 <= i < |rows| && rows[i] == r;
    assert WalletColumn(rows)[i] == r.wallet;
    WalletsHaveGroups(txns, r.wallet);
    CountsWithinGroup(Group(txns, r.wallet));
    GroupMembers(txns, r.wallet);
    if forall t :: t in txns ==> t.amount >= 0.0 {
      TotalNonNegative(Group(txns, r.wallet), Deposit);
      TotalNonNegative(Group(txns, r.wallet), Borrow);
    }
  }

  /** Grouping is by exact id: transactions of two different ids never share a group, and both ids occur. */
  lemma SeparateGroups(txns: seq<Txn>, t: Txn, u: Txn)
    requires t in txns && u in txns && t.wallet != u.wallet
    ensures t !in Group(txns, u.wallet)
    ensures t.wallet in Wallets(txns) && u.wallet in Wallets(txns)
  {
    GroupMembers(txns, u.wallet);
    GroupMembers(txns, t.wallet);
    WalletsHaveGroups(txns, t.wallet);
    WalletsHaveGroups(txns, u.wallet);
  }

  /** Example: two ids that differ only in letter case are two wallets. */
  lemma NoCaseFolding()
    ensures |Wallets([Txn("0xAbC", Deposit, 1.0), Txn("0xabc", Deposit, 1.0)])| == 2
  {
    var txns := [Txn("0xAbC", Deposit, 1.0), Txn("0xabc", Deposit, 1.0)];
    assert "0xAbC"[2] != "0xabc"[2];
    assert WalletsUpTo(txns, 1) == {"0xAbC"};
    assert WalletsUpTo(txns, 2) == {"0xAbC", "0xabc"};
  }

  /**
   * A worked log: wallet A deposits 10, 20 and 30 and borrows 5; wallet B
   * borrows 1 and never deposits.
   */
  function ExampleLog(): seq<Txn> {
    [Txn("A", Deposit, 10.0), Txn("A", Deposit, 20.0), Txn("A", Deposit, 30.0),
     Txn("A", Borrow, 5.0), Txn("B", Borrow, 1.0)]
  }

  lemma ExampleWallets()
    ensures Wallets(ExampleLog()) == {"A", "B"}
  {
    var txns := ExampleLog();
    assert WalletsUpTo(txns, 1) == {"A"};
    assert WalletsUpTo(txns, 2) == {"A"};
    assert WalletsUpTo(txns, 3) == {"A"};
    assert WalletsUpTo(txns, 4) == {"A"};
  }

  lemma ExampleGroupA()
    ensures Group(ExampleLog(), "A") == ExampleLog()[..4]
  {
    var txns := ExampleLog();
    var a := txns[..4];
    assert GroupUpTo(txns, 1, "A") == a[..1];
    assert GroupUpTo(txns, 2, "A") == a[..2];
    assert GroupUpTo(txns, 3, "A") == a[..3];
    assert GroupUpTo(txns, 4, "A") == a;
  }

  lemma ExampleDepositsA(a: seq<Txn>)
    requires a == ExampleLog()[..4]
    ensures WithAction(a, Deposit) == a[..3] && SumAmounts(a[..3]) == 60.0
  {
    var d := a[..3];
    assert d[..2] == a[..2] && d[..1] == a[..1] && a[..2][..1] == a[..1];
    assert WithAction(a[..1], Deposit) == a[..1];
    assert WithAction(a[..2], Deposit) == a[..2];
    assert WithAction(d, Deposit) == d;
    assert SumAmounts(a[..1]) == 10.0;
    assert SumAmounts(a[..2]) == 30.0;
  }

  lemma ExampleOthersA(a: seq<Txn>)
    requires a == ExampleLog()[..4]
    ensures WithAction(a, Borrow) == [a[3]] && SumAmounts([a[3]]) == 5.0
    ensures WithAction(a, Repay) == [] && WithAction(a, Liquidation) == []
  {
    var d := a[..3];
    assert d[..2] == a[..2] && d[..1] == a[..1] && a[..2][..1] == a[..1];
    assert WithAction(a[..1], Borrow) == [] && WithAction(a[..1], Repay) == [] && WithAction(a[..1], Liquidation) == [];
    assert WithAction(a[..2], Borrow) == [] && WithAction(a[..2], Repay) == [] && WithAction(a[..2], Liquidation) == [];
    assert WithAction(d, Borrow) == [] && WithAction(d, Repay) == [] && WithAction(d, Liquidation) == [];
    assert [a[3]][..0] == [];
  }

  lemma ExampleWalletA()
    ensures Summarize("A", Group(ExampleLog(), "A")) == WalletFeatures("A", 3, 1, 0, 0, 60.0, 5.0, 1.0 / 3.0)
  {
    var a := ExampleLog()[..4];
    ExampleGroupA();
    ExampleDepositsA(a);
    ExampleOthersA(a);
  }

  lemma ExampleWalletB()
    ensures Summarize("B", Group(ExampleLog(), "B")) == WalletFeatures("B", 0, 1, 0, 0, 0.0, 1.0, 1.0)
  {
    var txns := ExampleLog();
    var b := [txns[4]];
    assert Group(txns, "B") == b by {
      assert GroupUpTo(txns, 1, "B") == [];
      assert GroupUpTo(txns, 2, "B") == [];
      assert GroupUpTo(txns, 3, "B") == [];
      assert GroupUpTo(txns, 4, "B") == [];
    }
    assert b[..0] == [];
    assert WithAction(b, Deposit) == [];
    assert WithAction(b, Borrow) == b;
    assert WithAction(b, Repay) == [];
    assert WithAction(b, Liquidation) == [];
    assert SumAmounts(b) == 1.0;
  }
}
