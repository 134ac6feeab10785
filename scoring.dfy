/**
 * The scorer (`ml_credit_scoring`): the wallet column is set aside, the
 * numeric features are cleaned of non-finite values and fed to the
 * outlier model, and the model's anomaly scores are rescaled from their
 * batch minimum and maximum onto the integers 0 to 1000.
 */
module Scoring {
  import opened Wrappers
  import opened Features

  /** A float cell of the numeric feature matrix. */
  datatype Float = Finite(value: real) | PosInf | NegInf | NaN

  /** A feature row with the two columns the scorer attaches. */
  datatype ScoredWallet = ScoredWallet(features: WalletFeatures, anomalyScore: real, creditScore: int)

  // ---------------------------------------------------------------------
  // Sanitization

  /** `drop(columns=['wallet'])` for one row: its seven numeric columns, in table order. */
  function NumericColumns(r: WalletFeatures): (cells: seq<Float>)
    ensures |cells| == 7
    ensures forall i :: 0 <= i < |cells| ==> cells[i].Finite?
  {
    [Finite(r.depositCount as real), Finite(r.borrowCount as real), Finite(r.repayCount as real),
     Finite(r.liquidationCount as real), Finite(r.depositAmount), Finite(r.borrowAmount),
     Finite(r.borrowDepositRatio)]
  }

  predicate IsCount(x: Float) {
    x.Finite? && x.value >= 0.0 && x.value == x.value.Floor as real
  }

  /** Put the wallet id back in front of seven numeric columns, if they can be a row at all. */
  function Restore(wallet: string, cells: seq<Float>): (r: Option<WalletFeatures>)
    ensures r.Some? ==> r.value.wallet == wallet
  {
    if |cells| == 7 && IsCount(cells[0]) && IsCount(cells[1]) && IsCount(cells[2]) && IsCount(cells[3])
       && cells[4].Finite? && cells[5].Finite? && cells[6].Finite?
    then Some(WalletFeatures(wallet, cells[0].value.Floor, cells[1].value.Floor, cells[2].value.Floor,
                             cells[3].value.Floor, cells[4].value, cells[5].value, cells[6].value))
    else None
  }

  /** Dropping the wallet column loses nothing else: the row comes back from its wallet and its numeric cells. */
  lemma DropsOnlyWallet(r: WalletFeatures)
    ensures Restore(r.wallet, NumericColumns(r)) == Some(r)
  {
    var cells := NumericColumns(r);
    assert cells[0].value.Floor == r.depositCount;
    assert cells[1].value.Floor == r.borrowCount;
    assert cells[2].value.Floor == r.repayCount;
    assert cells[3].value.Floor == r.liquidationCount;
  }

  /** `replace([inf, -inf], nan).fillna(0)` on one cell. */
  function Clean(x: Float): (y: Float)
    ensures y.Finite?
    ensures x.Finite? ==> y == x
    ensures !x.Finite? ==> y.value == 0.0
  {
    if x.Finite? then x else Finite(0.0)
  }

  /** The sanitized matrix: same shape, every cell finite, finite cells kept, +inf, -inf and NaN set to 0. */
  function Sanitize(table: seq<seq<Float>>): (clean: seq<seq<Float>>)
    ensures |clean| == |table|
    ensures forall i :: 0 <= i < |table| ==> |clean[i]| == |table[i]|
    ensures forall i, j :: 0 <= i < |table| && 0 <= j < |table[i]| ==> clean[i][j].Finite?
    ensures forall i, j :: 0 <= i < |table| && 0 <= j < |table[i]| && table[i][j].Finite? ==>
      clean[i][j] == table[i][j]
    ensures forall i, j :: 0 <= i < |table| && 0 <= j < |table[i]| && !table[i][j].Finite? ==>
      clean[i][j] == Finite(0.0)
  {
    seq(|table|, i requires 0 <= i < |table| => seq(|table[i]|, j requires 0 <= j < |table[i]| => Clean(table[i][j])))
  }

  lemma SanitizeIdempotent(table: seq<seq<Float>>)
    ensures Sanitize(Sanitize(table)) == Sanitize(table)
  {
    var once := Sanitize(table);
    var twice := Sanitize(once);
    assert forall i :: 0 <= i < |once| ==> twice[i] == once[i];
  }

  /** The numeric matrix the model is fed: the feature table without its wallet column. */
  function NumericFeatures(rows: seq<WalletFeatures>): (m: seq<seq<Float>>)
    ensures |m| == |rows|
    ensures forall i :: 0 <= i < |rows| ==> m[i] == NumericColumns(rows[i])
  {
    seq(|rows|, i requires 0 <= i < |rows| => NumericColumns(rows[i]))
  }

  /**
   * With exact arithmetic and the ratio's 1.0 policy, the aggregator never
   * produces a non-finite feature, so sanitization changes nothing.
   */
  lemma SanitizeKeepsFeatureTable(rows: seq<WalletFeatures>)
    ensures Sanitize(NumericFeatures(rows)) == NumericFeatures(rows)
  {
    var m := NumericFeatures(rows);
    var clean := Sanitize(m);
    forall i | 0 <= i < |m|
      ensures clean[i] == m[i]
    {
      assert forall j :: 0 <= j < |m[i]| ==> m[i][j].Finite?;
    }
  }

  // ---------------------------------------------------------------------
  // Credit-score rescaling

  /** `min()` of a non-empty batch. */
  function Min(s: seq<real>): (m: real)
    requires |s| > 0
    ensures m in s
    ensures forall i :: 0 <= i < |s| ==> m <= s[i]
  {
    MinOfFirst(s, |s|)
  }

  function MinOfFirst(s: seq<real>, n: nat): (m: real)
    requires 0 < n <= |s|
    ensures m in s
    ensures forall i :: 0 <= i < n ==> m <= s[i]
  {
    if n == 1 then s[0]
    else
      var rest := MinOfFirst(s, n - 1);
      if s[n - 1] < rest then s[n - 1] else rest
  }

  /** `max()` of a non-empty batch. */
  function Max(s: seq<real>): (m: real)
    requires |s| > 0
    ensures m in s
    ensures forall i :: 0 <= i < |s| ==> s[i] <= m
  {
    MaxOfFirst(s, |s|)
  }

  function MaxOfFirst(s: seq<real>, n: nat): (m: real)
    requires 0 < n <= |s|
    ensures m in s
    ensures forall i :: 0 <= i < n ==> s[i] <= m
  {
    if n == 1 then s[0]
    else
      var rest := MaxOfFirst(s, n - 1);
      if s[n - 1] > rest then s[n - 1] else rest
  }

  /** `astype(int)`: truncation toward zero. */
  function Truncate(x: real): (n: int)
    ensures x >= 0.0 ==> 0 <= n && n as real <= x < n as real + 1.0
    ensures x < 0.0 ==> n <= 0 && n as real - 1.0 < x <= n as real
  {
    if x >= 0.0 then x.Floor else -((-x).Floor)
  }

  /** Where `a` lies between the batch minimum and maximum, as a fraction. */
  function Position(anomaly: seq<real>, a: real): real
    requires |anomaly| > 0 && Min(anomaly) < Max(anomaly)
  {
    (a - Min(anomaly)) / (Max(anomaly) - Min(anomaly))
  }

  /**
   * `((scores - min) / (max - min) * 1000).astype(int)`: every anomaly
   * score mapped linearly from [min, max] onto [0, 1000] and truncated.
   */
  function CreditScores(anomaly: seq<real>): (scores: seq<int>)
    requires |anomaly| > 0 && Min(anomaly) < Max(anomaly)
    ensures |scores| == |anomaly|
    ensures forall i :: 0 <= i < |anomaly| ==> 0 <= scores[i] <= 1000
  {
    seq(|anomaly|, i requires 0 <= i < |anomaly| => CreditScore(anomaly, anomaly[i]))
  }

  function CreditScore(anomaly: seq<real>, a: real): (score: int)
    requires |anomaly| > 0 && Min(anomaly) < Max(anomaly)
    requires Min(anomaly) <= a <= Max(anomaly)
    ensures 0 <= score <= 1000
  {
    var p := Position(anomaly, a);
    PositionInUnitInterval(anomaly, a);
    Truncate(p * 1000.0)
  }

  lemma PositionInUnitInterval(anomaly: seq<real>, a: real)
    requires |anomaly| > 0 && Min(anomaly) < Max(anomaly)
    requires Min(anomaly) <= a <= Max(anomaly)
    ensures 0.0 <= Position(anomaly, a) <= 1.0
  {
    var lo, hi := Min(anomaly), Max(anomaly);
    FractionBounds(a - lo, hi - lo);
  }

  lemma FractionBounds(x: real, d: real)
    requires d > 0.0 && 0.0 <= x <= d
    ensures 0.0 <= x / d <= 1.0
  {
    var q := x / d;
    assert q * d == x;
  }

  /** A credit score is the largest integer not above 1000 times the score's position in the batch range. */
  lemma CreditScoreIsFloor(anomaly: seq<real>, i: nat)
    requires |anomaly| > 0 && Min(anomaly) < Max(anomaly) && i < |anomaly|
    ensures CreditScores(anomaly)[i] as real <= Position(anomaly, anomaly[i]) * 1000.0
    ensures Position(anomaly, anomaly[i]) * 1000.0 < CreditScores(anomaly)[i] as real + 1.0
  {
    PositionInUnitInterval(anomaly, anomaly[i]);
  }

  /** The wallets with the batch's lowest anomaly score get 0. */
  lemma MinimumScoresZero(anomaly: seq<real>, i: nat)
    requires |anomaly| > 0 && Min(anomaly) < Max(anomaly) && i < |anomaly|
    requires anomaly[i] == Min(anomaly)
    ensures CreditScores(anomaly)[i] == 0
  {
    var lo, hi := Min(anomaly), Max(anomaly);
    var p := Position(anomaly, anomaly[i]);
    assert p == 0.0 / (hi - lo);
    assert CreditScores(anomaly)[i] == CreditScore(anomaly, anomaly[i]) == Truncate(p * 1000.0);
  }

  /** The wallets with the batch's highest anomaly score get 1000. */
  lemma MaximumScoresThousand(anomaly: seq<real>, i: nat)
    requires |anomaly| > 0 && Min(anomaly) < Max(anomaly) && i < |anomaly|
    requires anomaly[i] == Max(anomaly)
    ensures CreditScores(anomaly)[i] == 1000
  {
    var lo, hi := Min(anomaly), Max(anomaly);
    var p := Position(anomaly, anomaly[i]);
    SelfQuotient(hi - lo);
    assert p == (hi - lo) / (hi - lo) == 1.0;
    assert CreditScores(anomaly)[i] == CreditScore(anomaly, anomaly[i]) == Truncate(p * 1000.0);
  }

  /** A higher anomaly score never earns a lower credit score. */
  lemma CreditScoresMonotone(anomaly: seq<real>, i: nat, j: nat)
    requires |anomaly| > 0 && Min(anomaly) < Max(anomaly) && i < |anomaly| && j < |anomaly|
    requires anomaly[i] <= anomaly[j]
    ensures CreditScores(anomaly)[i] <= CreditScores(anomaly)[j]
  {
    var p, q := Position(anomaly, anomaly[i]), Position(anomaly, anomaly[j]);
    PositionMonotone(anomaly, anomaly[i], anomaly[j]);
    PositionInUnitInterval(anomaly, anomaly[i]);
    PositionInUnitInterval(anomaly, anomaly[j]);
    TruncateMonotone(p * 1000.0, q * 1000.0);
    assert CreditScores(anomaly)[i] == Truncate(p * 1000.0);
    assert CreditScores(anomaly)[j] == Truncate(q * 1000.0);
  }

  lemma PositionMonotone(anomaly: seq<real>, a: real, b: real)
    requires |anomaly| > 0 && Min(anomaly) < Max(anomaly) && a <= b
    ensures Position(anomaly, a) <= Position(anomaly, b)
  {
    var lo, hi := Min(anomaly), Max(anomaly);
    QuotientMonotone(a - lo, b - lo, hi - lo);
  }

  lemma TruncateMonotone(x: real, y: real)
    requires 0.0 <= x <= y
    ensures Truncate(x) <= Truncate(y)
  {
  }

  lemma SelfQuotient(d: real)
    requires d > 0.0
    ensures d / d == 1.0
  {
    var q := d / d;
    assert q * d == d;
    assert (q - 1.0) * d == 0.0;
  }

  lemma QuotientMonotone(x: real, y: real, d: real)
    requires d > 0.0 && x <= y
    ensures x / d <= y / d
  {
    assert (y - x) / d >= 0.0;
    assert y / d - x / d == (y - x) / d;
  }

  /** An anomaly score measured in other units: a positive factor `k` and an offset `c`. */
  function InUnits(k: real, c: real, x: real): real {
    k * x + c
  }

  /** The whole batch measured in other units. */
  function Affine(anomaly: seq<real>, k: real, c: real): (t: seq<real>)
    ensures |t| == |anomaly|
    ensures forall i :: 0 <= i < |anomaly| ==> t[i] == InUnits(k, c, anomaly[i])
  {
    seq(|anomaly|, i requires 0 <= i < |anomaly| => InUnits(k, c, anomaly[i]))
  }

  /** Min and Max are determined by their contracts. */
  lemma MinMaxUnique(s: seq<real>, lo: real, hi: real)
    requires |s| > 0
    requires lo in s && forall i :: 0 <= i < |s| ==> lo <= s[i]
    requires hi in s && forall i :: 0 <= i < |s| ==> s[i] <= hi
    ensures Min(s) == lo && Max(s) == hi
  {
  }

  lemma InUnitsMonotone(k: real, c: real, x: real, y: real)
    requires k > 0.0 && x <= y
    ensures InUnits(k, c, x) <= InUnits(k, c, y)
  {
    assert k * y - k * x == k * (y - x);
  }

  lemma AffineBounds(anomaly: seq<real>, k: real, c: real, ilo: nat, ihi: nat)
    requires k > 0.0 && ilo < |anomaly| && ihi < |anomaly|
    requires forall i :: 0 <= i < |anomaly| ==> anomaly[ilo] <= anomaly[i] <= anomaly[ihi]
    ensures forall i :: 0 <= i < |anomaly| ==>
      Affine(anomaly, k, c)[ilo] <= Affine(anomaly, k, c)[i] <= Affine(anomaly, k, c)[ihi]
  {
    var t := Affine(anomaly, k, c);
    forall i | 0 <= i < |t|
      ensures t[ilo] <= t[i] <= t[ihi]
    {
      InUnitsMonotone(k, c, anomaly[ilo], anomaly[i]);
      InUnitsMonotone(k, c, anomaly[i], anomaly[ihi]);
    }
  }

  lemma AffineExtremes(anomaly: seq<real>, k: real, c: real)
    requires |anomaly| > 0 && k > 0.0
    ensures Min(Affine(anomaly, k, c)) == InUnits(k, c, Min(anomaly))
    ensures Max(Affine(anomaly, k, c)) == InUnits(k, c, Max(anomaly))
  {
    var t := Affine(anomaly, k, c);
    var ilo :| 0 <= ilo < |anomaly| && anomaly[ilo] == Min(anomaly);
    var ihi :| 0 <= ihi < |anomaly| && anomaly[ihi] == Max(anomaly);
    assert forall i :: 0 <= i < |anomaly| ==> Min(anomaly) <= anomaly[i] <= Max(anomaly);
    AffineBounds(anomaly, k, c, ilo, ihi);
    MinMaxUnique(t, t[ilo], t[ihi]);
  }

  /** The position of a score among the converted scores is its position among the original ones. */
  lemma InUnitsPosition(k: real, c: real, x: real, lo: real, hi: real)
    requires k > 0.0 && lo < hi
    ensures InUnits(k, c, lo) < InUnits(k, c, hi)
    ensures (InUnits(k, c, x) - InUnits(k, c, lo)) / (InUnits(k, c, hi) - InUnits(k, c, lo)) == (x - lo) / (hi - lo)
  {
    var n, d := x - lo, hi - lo;
    assert InUnits(k, c, x) - InUnits(k, c, lo) == k * n;
    assert InUnits(k, c, hi) - InUnits(k, c, lo) == k * d;
    assert k * d > 0.0;
    CancelFactor(k, n, d);
  }

  lemma CancelFactor(k: real, x: real, d: real)
    requires k > 0.0 && d > 0.0
    ensures (k * x) / (k * d) == x / d
  {
    var q := x / d;
    assert q * d == x;
    assert (k * d) * q == k * x;
  }

  /**
   * Rescaling is batch-relative: measuring every anomaly score in other
   * units (a positive factor and an offset) yields the same credit scores.
   */
  lemma CreditScoresIgnoreUnits(anomaly: seq<real>, k: real, c: real)
    requires |anomaly| > 0 && Min(anomaly) < Max(anomaly) && k > 0.0
    ensures Min(Affine(anomaly, k, c)) < Max(Affine(anomaly, k, c))
    ensures CreditScores(Affine(anomaly, k, c)) == CreditScores(anomaly)
  {
    var t := Affine(anomaly, k, c);
    var lo, hi := Min(anomaly), Max(anomaly);
    AffineExtremes(anomaly, k, c);
    InUnitsPosition(k, c, lo, lo, hi);
    forall i | 0 <= i < |anomaly|
      ensures CreditScores(t)[i] == CreditScores(anomaly)[i]
    {
      InUnitsPosition(k, c, anomaly[i], lo, hi);
      assert Position(t, t[i]) == Position(anomaly, anomaly[i]);
    }
  }

  // ---------------------------------------------------------------------
  // Attaching the scores

  /**
   * `features_df['anomaly_score'] = ...; features_df['credit_score'] = ...`:
   * the model's scores, one per row, are attached positionally, so the
   * rows, their order and their wallets are kept.
   */
  function AttachScores(rows: seq<WalletFeatures>, anomaly: seq<real>): (scored: seq<ScoredWallet>)
    requires |anomaly| == |rows| > 0 && Min(anomaly) < Max(anomaly)
    ensures |scored| == |rows|
    ensures forall i :: 0 <= i < |rows| ==> scored[i].features == rows[i] && scored[i].anomalyScore == anomaly[i]
    ensures forall i :: 0 <= i < |rows| ==> scored[i].creditScore == CreditScores(anomaly)[i]
    ensures forall i :: 0 <= i < |rows| ==> 0 <= scored[i].creditScore <= 1000
  {
    var scores := CreditScores(anomaly);
    seq(|rows|, i requires 0 <= i < |rows| => ScoredWallet(rows[i], anomaly[i], scores[i]))
  }

  /** Scoring a feature table keeps exactly one row per wallet of the log. */
  lemma ScoredTableOneRowPerWallet(rows: seq<WalletFeatures>, txns: seq<Ingest.Txn>, anomaly: seq<real>)
    requires IsFeatureTable(rows, txns)
    requires |anomaly| == |rows| > 0 && Min(anomaly) < Max(anomaly)
    ensures var scored := AttachScores(rows, anomaly);
      && (forall i, j :: 0 <= i < j < |scored| ==> scored[i].features.wallet != scored[j].features.wallet)
      && (forall w :: w in Wallets(txns) <==> exists i :: 0 <= i < |scored| && scored[i].features.wallet == w)
  {
    var scored := AttachScores(rows, anomaly);
    var ws := WalletColumn(rows);
    forall w | w in Wallets(txns)
      ensures exists i :: 0 <= i < |scored| && scored[i].features.wallet == w
    {
      assert w in ws;
      var i :| 0 <= i < |ws| && ws[i] == w;
      assert scored[i].features.wallet == w;
    }
    forall i, j | 0 <= i < j < |scored|
      ensures scored[i].features.wallet != scored[j].features.wallet
    {
      assert ws[i] != ws[j];
    }
    forall i | 0 <= i < |scored|
      ensures scored[i].features.wallet in Wallets(txns)
    {
      assert ws[i] in ws;
    }
  }
}
