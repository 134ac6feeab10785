# Wallet credit scoring: a Dafny model of the feature and score arithmetic

The pipeline reads a log of Aave-style lending transactions. Each transaction has a
`userWallet`, an `action` tag and an `actionData` payload. The pipeline:

- normalizes every transaction's `amount` to whole USDC;
- groups the log by wallet into one feature row per wallet. A row holds the counts of the
  `deposit`, `borrow`, `repay` and `liquidationcall` transactions, the deposit and borrow
  amount sums, and the borrow/deposit ratio;
- cleans the numeric features of non-finite values and feeds them to an outlier model;
- rescales the model's anomaly scores linearly onto the integer credit scores 0 to 1000.

The project has four modules:

- `Wrappers` (`wrappers.dfy`): `Option` and `Result`.
- `Ingest` (`ingest.dfy`): the amount extraction of `load_data`. This covers JSON values,
  Python's `float` on them, the `amount` default of 0 and the division by 10^6. It also covers
  the row-by-row conversion of the whole log, which fails on the first bad amount.
- `Features` (`features.dfy`): `feature_engineering`. The grouping is the imperative method
  `GroupByWallet`. The aggregation loop is the method `FeatureEngineering`. Both are proved
  against reference functions (`Wallets`, `Group`, `Count`, `Total`, `Summarize`). Lemmas state
  what every row means and that every transaction is counted in exactly one row.
- `Scoring` (`scoring.dfy`): the `ml_credit_scoring` steps around the model. These are
  dropping the wallet column, replacing ±inf/NaN with 0, the manual min-max rescaling with
  truncation, and attaching the scores to the rows by position.

## Model

| member | source | states |
|---|---|---|
| Ingest.ToFloat | main.py:20 | `float` fails exactly on null, lists, dicts and strings that are not decimals. It returns a number unchanged, maps booleans to 1.0/0.0 and returns the value of a decimal string |
| Ingest.Amount | main.py:20 | A missing `amount` key gives 0. Otherwise the result times 10^6 is `float` of the value, and a `float` error is passed on unchanged |
| Ingest.AmountOfBaseUnits | main.py:20 | An amount given as an integer string of base units comes back as that integer divided by 10^6 |
| Ingest.ParseFormatInt | main.py:20 | `float` reads back every integer written in decimal, negative ones included |
| Ingest.ParseFractionExample | main.py:20 | `float("-2.5")` is -2.5: the sign and the fractional digits are honoured |
| Ingest.Normalize | main.py:17-20 | The log converts only if every amount converts. The records then keep their positions, take `wallet` from `userWallet` and keep the action tag. Otherwise the error is that of the first record that fails |
| Ingest.Load | main.py:14-20 | An empty record list fails with the missing `userWallet` column, as the column-less frame does. A non-empty list is normalized, and a successful load has one transaction per record |
| Features.GroupByWallet | main.py:29 | Returns a list of wallets without repetitions whose members are exactly the wallets of the log, and for each the group of exactly its transactions in log order |
| Features.FeatureEngineering | main.py:27-55 | The result is a feature table: one row per distinct wallet of the log, each row the summary of that wallet's group, and as many rows as wallets |
| Features.GroupMembers | main.py:29-32 | A transaction is in wallet `w`'s group exactly when it is in the log with wallet id `w` |
| Features.WalletsHaveGroups | main.py:29-32 | A wallet occurs in the log exactly when its group is non-empty |
| Features.SeparateGroups | main.py:29-32 | For any log, a transaction never lands in the group of a different wallet id, and both ids occur as wallets: grouping is by exact string equality |
| Features.NoCaseFolding | main.py:29 | Example: in a log with ids "0xAbC" and "0xabc", which differ only in letter case, there are two wallets |
| Features.CountIsNumberOfPositions | main.py:33-36 | A count is the number of positions whose action tag is exactly that string |
| Features.CountsWithinGroup | main.py:33-36 | The four counts together are at most the group size: no transaction is counted twice and other tags are ignored |
| Features.TotalNonNegative | main.py:37-38 | With non-negative amounts, an action's amount sum is non-negative |
| Features.BorrowDepositRatio | main.py:40 | The ratio is 1.0 when there are no deposits. Otherwise ratio × deposits = borrows. It is never negative |
| Features.RatioIsOneExactly | main.py:40 | The ratio is exactly 1.0 if and only if there are no deposits or as many borrows as deposits |
| Features.FeatureRowFacts | main.py:33-43 | Each row of a feature table belongs to a wallet of the log with a non-empty group. Its four counts are the filtered lengths of that group and add up to at most its size. Its ratio is 1.0 without deposits. Its sums are non-negative when all amounts are |
| Features.TallyIsSum | main.py:33-38 | Each count and amount column of a group is the sum of what its transactions contribute one by one |
| Features.SumConserved | main.py:29-38 | Summing a per-transaction statistic group by group over wallets that cover the log gives its sum over the log |
| Features.FeatureTableTotals | main.py:33-38 | Over a feature table, each count and amount column adds up to the same statistic over the whole log |
| Features.ExampleWallets | main.py:29 | A five-transaction log has exactly the wallets A and B |
| Features.ExampleWalletA | main.py:33-51 | Wallet A of that log has 3 deposits, 1 borrow, deposit sum 60, borrow sum 5 and ratio 1/3 |
| Features.ExampleWalletB | main.py:33-51 | Wallet B, with one borrow and no deposits, has ratio 1.0 |
| Scoring.DropsOnlyWallet | main.py:60 | Dropping the wallet column loses nothing else: the row is recovered from its wallet and its seven numeric cells |
| Scoring.Clean | main.py:60 | One cell: finite values are kept, and +inf, -inf and NaN become 0 |
| Scoring.Sanitize | main.py:60 | Same number of rows and cells. Every cell is finite afterwards, finite cells are unchanged and non-finite cells become 0 |
| Scoring.SanitizeIdempotent | main.py:60 | Sanitizing twice is the same as sanitizing once |
| Scoring.SanitizeKeepsFeatureTable | main.py:60 | The numeric matrix of any feature table is already clean, so sanitizing it changes nothing |
| Scoring.Min | main.py:74 | The batch minimum is one of the scores and at most every score |
| Scoring.Max | main.py:74 | The batch maximum is one of the scores and at least every score |
| Scoring.Truncate | main.py:75 | `astype(int)` truncates toward zero: for non-negative x it is the floor, for negative x the ceiling |
| Scoring.CreditScores | main.py:74-75 | With max > min there is one credit score per anomaly score, each in [0, 1000] |
| Scoring.CreditScoreIsFloor | main.py:74-75 | Each credit score is the floor of 1000 × (a − min)/(max − min) |
| Scoring.MinimumScoresZero | main.py:74-75 | The wallets with the minimum anomaly score get 0 |
| Scoring.MaximumScoresThousand | main.py:74-75 | The wallets with the maximum anomaly score get 1000 |
| Scoring.CreditScoresMonotone | main.py:74-75 | A higher anomaly score never gets a lower credit score |
| Scoring.CreditScoresIgnoreUnits | main.py:74-75 | The scores are batch-relative: rescaling every anomaly score by a positive factor and an offset changes no credit score |
| Scoring.AttachScores | main.py:69-77 | The rows keep their number, order and contents. Row i gets anomaly score i and credit score i, in [0, 1000] |
| Scoring.ScoredTableOneRowPerWallet | main.py:69-77 | A scored feature table has pairwise distinct wallets, and a wallet occurs in it exactly when it occurs in the log |

## Left out

- Reading the JSON file, building the DataFrame, the input-file existence check in `main`, writing the CSV in `save_scores`, the plot and every `print` are I/O. The log arrives as a sequence of `RawTxn` values, and the scored table is the result.
- The IsolationForest fit and `decision_function` (main.py:65-68) is a randomized third-party model. The anomaly scores are an input sequence of reals, one per row.
- The two `MinMaxScaler` calls (main.py:62-63, 71-72) are library numerics. The first only feeds the model, which is not modelled. The credit column set at line 72 is overwritten at line 77.
- All arithmetic is exact. The model uses `real` for floats, so float rounding and the summation order of pandas `.sum()` are not modelled. Nor are overflow to inf in a sum or a ratio, or a scaled value (a − min)/(max − min) × 1000 that rounds up to a whole number in floating point.
- Ingest.ToFloat: it accepts only `[+|-]digits[.digits]` strings. Python's `float` also accepts surrounding whitespace, exponents, underscores between digits and `inf`/`nan`; those strings are rejected here.
- Ingest.Normalize: a record without `userWallet` or `action`, or with `actionData` that is not a dict, cannot be represented. In the source, `pd.DataFrame` fills a key missing from some records with NaN. `groupby` then drops a NaN wallet from every group, and a NaN action matches none of the four tags. Only a key missing from every record raises a KeyError (main.py:17 or main.py:33). An `actionData` that is not a dict makes `x.get` raise an AttributeError.
- Ingest.ToFloat: the JSON numbers `NaN`, `Infinity` and `-Infinity` that `json.load` accepts, and literals such as `1e400` that it reads as inf, cannot be represented, since `JNumber` holds a real. Nor can the OverflowError of `float` on an integer beyond about 1.8e308, pandas `.sum()` skipping a NaN amount, or `float` accepting non-ASCII decimal digits. These inputs are how a non-finite deposit or borrow amount reaches the cleaning at main.py:60. Scoring.SanitizeKeepsFeatureTable holds only because the model has no such amounts.
- Features.GroupByWallet: the groups come out in first-seen order. pandas `groupby` sorts the keys. Row order is treated as unspecified: no property depends on it, and scores are attached by position to whatever order the table has.
- Scoring.CreditScores: the batch must be non-empty with max > min. The source divides by zero when all anomaly scores are equal. An empty log never reaches the division: `pd.DataFrame([])` has no columns, so reading `userWallet` at main.py:17 raises a KeyError (Ingest.Load returns that error). An empty feature table needs a non-empty log whose every `userWallet` is null, which the model cannot represent; the source would then fail at the drop on main.py:60, and numpy's `.min()` of an empty array raises a ValueError in any case. The model makes both conditions a precondition and does not invent a policy for them, such as a midpoint of 500.
- Scoring.AttachScores: the source adds the two columns to the DataFrame in place, so its caller sees the change. The model returns a new sequence of scored rows.
