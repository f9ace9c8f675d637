# Call-centre data pipeline: a verified model

This project models the part of the call-centre analytics repository that
turns raw tables into one model-ready table. That part is two files:

- `src/data_preparation.py` does three things:
  - cleans the telephony call log (`prepare_calls`);
  - cleans the debt-collection records (`prepare_collections`);
  - left-joins the calls with the CRM, collections, QA and satisfaction
    tables and then drops every column that does not vary (`join_datasets`).
- `src/feature_engineering.py` derives features and selects the data for
  the repayment model:
  - calendar features (`add_temporal_features`);
  - the service-level and repeat-contact flags (`add_performance_flags`);
  - the payment-plan realism ratio (`add_debt_features`);
  - the modelling dataset (`build_modelling_dataset`).

The project has these files:

- `cells.dfy`: one DataFrame cell (a number, a timestamp in whole seconds,
  a string, or missing for NaN/NaT/None), timestamp arithmetic, and the
  order `sort_values` uses.
- `tables.dfy`: a DataFrame as a list of labels plus a sequence of rows.
  Each row maps labels to cells. The file also holds `drop_duplicates`,
  boolean-mask filtering, `nunique`, column assignment, column selection,
  and a `Table` class for a frame that a function changes in place.
- `sorting.dfy`: `sort_values`.
- `merging.dfy`: `merge(how="left", suffixes=("", s))`.
- `data_preparation.dfy` and `feature_engineering.dfy`: the seven pipeline
  functions, one section each.

Three of the pipeline functions change the caller's frame in place:
`add_temporal_features`, `add_debt_features`, and the `sla_met` line of
`add_performance_flags`. They are methods on `Tables.Table`. Each method
states the frame's new state as a function of the old one. The pruning loop
at the end of `join_datasets` is a method with a `while` loop; its
invariant is proved against `Pruned`, the frame without its non-varying
columns. The rest of the pipeline builds new frames, so it is modelled as
functions, with lemmas stating what the pandas code promises. Missing
columns make pandas raise `KeyError`. The model returns that as an `Err`
result.

The current date that `pd.Timestamp("today")` reads in
`prepare_collections` is a parameter, `today`, in seconds.

The repeat-contact flag of a call is set from the gap to the same
customer's *next* call in customer-then-start order. So of two calls by one
customer, only the earlier can be flagged, and a customer's last call never
is. `FeatureEngineering.LastCallNotRepeat` proves the second point for
every input. `FeatureEngineering.TwoCallsFourDaysApart` works through the
case of calls on day 1 and day 5 with the default seven-day window: only
the day-1 call is flagged.

## Model

| member | source | states |
|---|---|---|
| `DataPreparation.PrepareCallsRows` | src/data_preparation.py:3-11 | `prepare_calls` fails exactly when one of its five columns is absent. Otherwise the output holds, in input order, each input row that is the first of its `call_id` and does not end before it starts, with its durations added. |
| `DataPreparation.PrepareCallsClean` | src/data_preparation.py:4-5 | No two output rows share a `call_id`. Every output row has `call_end >= call_start` and comes from the first input row of its id. Every first row that meets the condition is kept. |
| `DataPreparation.SurvivorsSpec` | src/data_preparation.py:4-5 | The surviving rows are exactly the valid first occurrences, with unique call ids. |
| `DataPreparation.DedupThenFilterIsSurvivors` | src/data_preparation.py:4-5 | Deduplicating and then filtering any prefix of the input gives exactly the survivors of that prefix. |
| `DataPreparation.PrepareCallsDropsInvalidFirst` | src/data_preparation.py:4-5 | Deduplication comes first. If the first row of a call id ends before it starts, that id is absent from the output, even when a later duplicate is valid. |
| `DataPreparation.PrepareCallsDurations` | src/data_preparation.py:7-9 | In every output row, `talk_time` is `call_end` minus `answer_time` in seconds and `queue_time` is `answer_time` minus `call_start`. Either is missing when one of its two timestamps is missing. `aht` is talk time plus after-call work. When all three timestamps are present, talk time plus queue time equals end minus start, which is not negative. |
| `DataPreparation.DurationsSpec` | src/data_preparation.py:7-9 | For one row, talk time is end minus answer and queue time is answer minus start, in seconds, each missing when one of its timestamps is missing. `aht` is talk time plus after-call work. No other cell changes, and for a valid call queue time plus talk time is the whole call. |
| `DataPreparation.PrepareCallsShape` | src/data_preparation.py:3-11 | The output keeps the input labels in order and appends `talk_time`, `queue_time` and `aht`, each only when the input lacks it. A well-formed input gives a well-formed output. |
| `DataPreparation.AddDurationsRows` | src/data_preparation.py:7-9 | Assigning the three duration columns one after another treats each row on its own and keeps the row count. |
| `DataPreparation.AccountFeaturesSpec` | src/data_preparation.py:15-17 | `days_past_due` is the number of whole days, rounded down, from `due_date` to midnight today. `arrangement_length_days` is the number of whole days from start to end. Either is missing when a date is missing. `arrangement_kept` is 0 or 1, and it is 1 exactly when the status is the string "KEPT". No other cell changes. |
| `DataPreparation.PrepareCollectionsRows` | src/data_preparation.py:13-23 | `prepare_collections` fails exactly when one of its seven columns is absent. Otherwise it returns the account-deduplicated rows with their derived columns, sorted by balance with the highest first, keeping the first row of each customer. |
| `DataPreparation.PrepareCollectionsShape` | src/data_preparation.py:13-23 | The output keeps the input labels in order and appends `days_past_due`, `arrangement_length_days` and `arrangement_kept`, each only when the input lacks it. A well-formed input gives a well-formed output. |
| `DataPreparation.PrepareCollectionsOnePerCustomer` | src/data_preparation.py:14-21 | Each customer has exactly one output row. No customer of the deduplicated accounts is lost. Every output row is one of those accounts. The rows are in descending balance order. |
| `DataPreparation.PrepareCollectionsHighestBalance` | src/data_preparation.py:21 | The row kept for a customer has a balance at least as large as that of any of the customer's accounts. It is missing only when every one of them is missing. |
| `DataPreparation.FirstOfSortedLeads` | src/data_preparation.py:21 | In rows sorted by descending balance, the first row of a customer sorts no later than any other row of that customer. |
| `DataPreparation.DropConstantColumns` | src/data_preparation.py:37-39 | The loop that drops each column with at most one distinct non-missing value leaves exactly `Pruned` of the merged frame. |
| `DataPreparation.JoinDatasets` | src/data_preparation.py:25-41 | `join_datasets` returns the error of the first failing merge. Otherwise it returns the pruned result of the four left merges. |
| `DataPreparation.PrunedSpec` | src/data_preparation.py:37-39 | After pruning, a label remains exactly when its column has more than one distinct non-missing value. The remaining labels keep their order and their cells. No row is lost, and the frame stays well formed. |
| `DataPreparation.ConstantColumnDropped` | src/data_preparation.py:38-39 | Pruning drops a column whose present cells are all equal. That includes an all-missing column. |
| `DataPreparation.MergeAllWellFormed` | src/data_preparation.py:27-34 | Merging well-formed tables gives a well-formed table. |
| `DataPreparation.MergeAllKeepsCalls` | src/data_preparation.py:27-34 | The four merges have at least as many rows as the calls table. Each call row appears in the result with all of its own cells. |
| `DataPreparation.MergeAllHasCallColumns` | src/data_preparation.py:27-34 | Every calls label is a label of the merged table. |
| `DataPreparation.JoinDatasetsKeepsCalls` | src/data_preparation.py:25-41 | Every call row appears in the output of `join_datasets`, with its cells in each call column that survives pruning. |
| `DataPreparation.CollectionsMergeAddsNoRows` | src/data_preparation.py:30 | Merging the prepared collections on `customer_id` gives exactly one row per left row, in order, with the left cells unchanged. |
| `DataPreparation.CollectionsMergeCells` | src/data_preparation.py:30 | With one collections row per customer, output row `i` is left row `i` with, under the collections labels, the cells of the account with its `customer_id`. Those cells are missing when no account has that customer id. |
| `DataPreparation.MergeAllCollectionsCells` | src/data_preparation.py:27-34 | With one collections row per customer, every row of the four merges holds, under the collections labels, the cells of the account whose `customer_id` is its own, or missing cells when there is none. |
| `DataPreparation.PreparedCollectionsCells` | src/data_preparation.py:21-34 | The same holds when the collections table is the output of `prepare_collections`. |
| `DataPreparation.MergeAllTracesCalls` | src/data_preparation.py:27-34 | Every row of the four merges agrees with some call row on every call column. |
| `DataPreparation.JoinDatasetsTracesCalls` | src/data_preparation.py:25-41 | Every row `join_datasets` returns agrees with some call row on every call column that survives pruning. |
| `Merging.LeftMergeShape` | src/data_preparation.py:27 | A left merge fails exactly when the key is absent from either side or the suffixed labels collide. On success the labels are exactly the left labels followed by the right-hand labels other than the key, in right-hand order, each suffixed when the left side has it. The result is well formed. |
| `Merging.LeftMergeRowsFrom` | src/data_preparation.py:27-34 | Every merged row is a left row joined with a right row of the same key: the left cells unchanged, and each carried right-hand cell under its new label. When no right row has that key, the new cells are missing. |
| `Merging.LeftMergeAllPairs` | src/data_preparation.py:27-34 | Every pair of a left row and a right row with the same key is joined in some merged row. |
| `Merging.LeftMergeUniqueCells` | src/data_preparation.py:27-34 | With a unique right-hand key, merged row `i` is left row `i` joined with the right row of its key, or with missing cells when there is none. |
| `Merging.LeftMergeRowCount` | src/data_preparation.py:27-34 | A left merge keeps at least one row per left row. With a unique right-hand key it keeps exactly one, in order, with the left cells unchanged. |
| `Merging.LeftMergeTracesLeft` | src/data_preparation.py:27-34 | Every left row shows up in the merge with its own cells, and every merged row comes from some left row. |
| `Merging.AttachSpec` | src/data_preparation.py:27 | The right-hand cells are filed under their renamed labels, and the left cells are untouched. |
| `Tables.DropDuplicatesUnique` | src/data_preparation.py:4 | After `drop_duplicates(subset=[key])` no two rows share a key. |
| `Tables.DropDuplicatesKeepsOrder` | src/data_preparation.py:4 | The kept rows are input rows in input order, and every key of the input survives. |
| `Tables.DropDuplicatesKeepsFirst` | src/data_preparation.py:4 | A kept row comes no later than any input row with the same key. |
| `Tables.NUniqueAtMostOne` | src/data_preparation.py:38 | `nunique() <= 1` holds exactly when all present cells of the column are equal. |
| `Tables.WithColumnLabels` | src/data_preparation.py:7-9 | Assigning a column that is new appends its label, and assigning one the frame already has leaves the labels as they are. |
| `Tables.WithColumnShape` | src/data_preparation.py:7-9 | Assigning a column keeps the rows, adds the label, fills it with the given values and changes no other cell. |
| `Tables.Table.Assign` | src/feature_engineering.py:4 | `df[c] = vals` replaces the object's frame with the frame that has the assigned column. |
| `Sorting.SortValuesSpec` | src/feature_engineering.py:12 | `sort_values` returns the input rows rearranged (same multiset, same length), in key order. |
| `Sorting.SortedSubsequence` | src/data_preparation.py:21 | Leaving rows out of sorted rows keeps them sorted. |
| `Cells.DayOfWeekAdvances` | src/feature_engineering.py:5-6 | 1 January 1970 is a Thursday (weekday 3). Every moment of a day has the weekday of that day's midnight. One day later the weekday is the next one, wrapping from Sunday to Monday, and the hour is the same. |
| `Cells.LeTotalOrder` | src/feature_engineering.py:12 | The ascending cell order used by `sort_values` is reflexive, antisymmetric, transitive and total. |
| `Cells.SortsBeforeTotalOrder` | src/data_preparation.py:21 | Ascending and descending order are both total orders, and in both missing cells come last. |
| `FeatureEngineering.AddTemporalFeatures` | src/feature_engineering.py:3-7 | Without `call_start` it fails and the frame is unchanged. Otherwise it adds `call_date`, `call_hour` and `call_dow` to the caller's frame in place. |
| `FeatureEngineering.CalendarFeatures` | src/feature_engineering.py:4-6 | For a present start, `call_date` is the midnight that starts its day, `call_hour` is in 0..23 and `call_dow` is in 0..6 with Monday 0. All three are missing for a missing start. |
| `FeatureEngineering.TemporalFeaturesRows` | src/feature_engineering.py:3-7 | Each row gets the calendar features of its own `call_start`, and nothing else changes. |
| `FeatureEngineering.TemporalFeaturesShape` | src/feature_engineering.py:3-7 | The frame stays well formed. Its labels are the old ones followed by `call_date`, `call_hour` and `call_dow`, each appended only when it is new. |
| `FeatureEngineering.AddPerformanceFlags` | src/feature_engineering.py:9-18 | Without `queue_time` it fails and the frame is unchanged. Otherwise `sla_met` is added to the caller's frame in place, and the result is the sorted, flagged copy of that frame. The threshold defaults to 20 seconds and the window to 7 days, as in the source. |
| `FeatureEngineering.SlaMetSpec` | src/feature_engineering.py:10 | `sla_met` is 0 or 1. It is 1 exactly when the queue time is present and at most the threshold, so a missing queue time gives 0. |
| `FeatureEngineering.SlaShape` | src/feature_engineering.py:10 | `sla_met` is appended to the labels when it is new. Each row's `sla_met` cell is the flag of its own queue time, and no other cell changes. A well-formed frame stays well formed. |
| `FeatureEngineering.RepeatFlagsShape` | src/feature_engineering.py:12-17 | The flagged copy keeps the input labels in order and appends `next_call_date`, `days_to_next_call`, `repeat_contact_flag` and `fcr_flag`, each only when it is new. A well-formed input gives a well-formed copy. |
| `FeatureEngineering.RepeatFlagsRows` | src/feature_engineering.py:12-17 | The flagged copy fails exactly without `customer_id` or `call_start`. Otherwise its rows are the input rows sorted by customer and then start time (a permutation), each given the flags computed from the same customer's next start. |
| `FeatureEngineering.FlagRowSpec` | src/feature_engineering.py:13-17 | Both flags are 0 or 1 and `fcr_flag` is 1 minus `repeat_contact_flag`. The repeat flag is 1 exactly when a next start exists and lies within `repeat_days` whole days, rounded down. Other cells are unchanged. |
| `FeatureEngineering.NextCallIsAdjacent` | src/feature_engineering.py:12-13 | In sorted order, a customer's next call is the following row when that row has the same customer, and it starts no earlier. Otherwise there is no next call. |
| `FeatureEngineering.LastCallNotRepeat` | src/feature_engineering.py:13-17 | A customer's last call is never a repeat contact and always counts as resolved first time. |
| `FeatureEngineering.RepeatMeansLaterCallWithin` | src/feature_engineering.py:12-15 | A row is flagged exactly when a later row of the same customer starts within `repeat_days` whole days of it. The days to the next call are never negative. |
| `FeatureEngineering.TwoCallsFourDaysApart` | src/feature_engineering.py:12-17 | Calls on day 1 and day 5, given in either order, with the default window: only the day-1 call is flagged. |
| `FeatureEngineering.TwoCallsInOrder` | src/feature_engineering.py:12 | Sorting two calls of one customer puts the earlier one first, whatever the input order. |
| `FeatureEngineering.AddDebtFeatures` | src/feature_engineering.py:20-24 | The method adds `payment_plan_realism` in place when both of its inputs are columns, and otherwise leaves the frame unchanged. |
| `FeatureEngineering.RealismSpec` | src/feature_engineering.py:22-23 | Adding the ratio appends the one label when it is new, keeps every row and changes no other cell. Each row's new cell is its instalment divided by its disposable income. |
| `Cells.Ratio` | src/feature_engineering.py:23 | A quotient of two cells is present exactly when both cells are numbers and the divisor is not zero. It is then the number that, multiplied by the divisor, gives the dividend. |
| `FeatureEngineering.CandidatesDistinct` | src/feature_engineering.py:28-40 | The ten candidate features are distinct, and none of them is the target. |
| `FeatureEngineering.PresentFeaturesSpec` | src/feature_engineering.py:29-41 | The features are the candidates that are columns, in candidate order. Together with the target they are distinct. |
| `FeatureEngineering.ModellingDatasetColumns` | src/feature_engineering.py:26-43 | Building the dataset fails exactly without the target column. Its columns are the present features followed by `arrangement_kept`. |
| `FeatureEngineering.ModellingDatasetRows` | src/feature_engineering.py:42 | No output row lacks the target. The rows are the labelled input rows in input order, each cut down to the output columns. |
| `FeatureEngineering.ModellingDatasetWellFormed` | src/feature_engineering.py:42 | A well-formed frame gives a well-formed dataset. |
| `DataPreparation.PrepareCalls` | src/data_preparation.py:3-11 | Specified by the `PrepareCallsRows`, `PrepareCallsShape`, `PrepareCallsClean`, `PrepareCallsDropsInvalidFirst` and `PrepareCallsDurations` rows. |
| `DataPreparation.WithDurations` | src/data_preparation.py:7-9 | Specified by the `DurationsSpec` row. |
| `DataPreparation.PrepareCollections` | src/data_preparation.py:13-23 | Specified by the `PrepareCollectionsRows`, `PrepareCollectionsShape`, `PrepareCollectionsOnePerCustomer` and `PrepareCollectionsHighestBalance` rows. |
| `DataPreparation.WithAccountColumns` | src/data_preparation.py:15-17 | The three column assignments of `prepare_collections`. The `AccountColumnsRows` row ties them to the row-wise `WithAccountFeatures`, which the `AccountFeaturesSpec` row specifies. |
| `DataPreparation.AccountColumnsRows` | src/data_preparation.py:15-17 | Assigning the three account columns one after another treats each row on its own and keeps the row count. |
| `DataPreparation.AccountRows` | src/data_preparation.py:14-17 | There is one derived row per account left after deduplication. Its cells are specified by the `AccountFeaturesSpec` row. |
| `DataPreparation.MergeAll` | src/data_preparation.py:27-34 | Specified by the `MergeAllWellFormed`, `MergeAllKeepsCalls`, `MergeAllTracesCalls`, `MergeAllHasCallColumns` and `MergeAllCollectionsCells` rows. |
| `DataPreparation.Pruned` | src/data_preparation.py:36-39 | Specified by the `PrunedSpec` and `ConstantColumnDropped` rows. |
| `Merging.LeftMerge` | src/data_preparation.py:27 | Specified by the `LeftMergeShape`, `LeftMergeRowCount`, `LeftMergeTracesLeft`, `LeftMergeRowsFrom`, `LeftMergeAllPairs` and `LeftMergeUniqueCells` rows. |
| `Tables.DropDuplicates` | src/data_preparation.py:4 | Specified by the `DropDuplicatesUnique`, `DropDuplicatesKeepsOrder` and `DropDuplicatesKeepsFirst` rows. |
| `Tables.Filter` | src/data_preparation.py:5 | The result is no longer than the input. Every element of the result is an input element that passes the mask, and every input element that passes is in the result. |
| `Tables.NUnique` | src/data_preparation.py:38 | Specified by the `NUniqueAtMostOne` row. |
| `Sorting.SortValues` | src/feature_engineering.py:12 | Specified by the `SortValuesSpec` row. |
| `Cells.Midnight` | src/data_preparation.py:15 | `normalize()` gives a multiple of a day that is at most the timestamp and less than a day before it. |
| `Cells.FloorDays` | src/data_preparation.py:15-16 | `.days` is the whole number of days rounded down: `d * 86400 <= delta < (d + 1) * 86400`, also for negative durations. |
| `Cells.HourOfDay` | src/feature_engineering.py:5 | `.dt.hour` is in 0..23, and the timestamp falls within that hour of its day. |
| `Cells.DayOfWeek` | src/feature_engineering.py:6 | `.dt.dayofweek` is in 0..6. The `DayOfWeekAdvances` row fixes its value: the epoch's weekday, the same weekday throughout a day, and one step per day. |
| `FeatureEngineering.WithTemporal` | src/feature_engineering.py:3-7 | Specified by the `TemporalFeaturesRows`, `TemporalFeaturesShape` and `CalendarFeatures` rows. |
| `FeatureEngineering.SlaMet` | src/feature_engineering.py:10 | Specified by the `SlaMetSpec` row. |
| `FeatureEngineering.WithSla` | src/feature_engineering.py:10 | Specified by the `SlaShape` row. |
| `FeatureEngineering.NextStart` | src/feature_engineering.py:13 | Specified by the `NextCallIsAdjacent` row. |
| `FeatureEngineering.WithRepeatFlags` | src/feature_engineering.py:12-17 | Specified by the `RepeatFlagsRows`, `RepeatFlagsShape`, `LastCallNotRepeat` and `RepeatMeansLaterCallWithin` rows. |
| `FeatureEngineering.FlagRow` | src/feature_engineering.py:14-17 | Specified by the `FlagRowSpec` row. |
| `FeatureEngineering.BuildModellingDataset` | src/feature_engineering.py:26-43 | Specified by the `ModellingDatasetColumns`, `ModellingDatasetRows` and `ModellingDatasetWellFormed` rows. |

## Left out

- The rest of the repository is not part of this model: CSV loading (`src/data_extraction.py`), the dashboards, plotting and the model training and explanation.
- The system clock: the date `pd.Timestamp("today")` reads is the parameter `today`.
- Comparisons between cells of different kinds, such as a number and a string. pandas may raise `TypeError`. In the model, an elementwise `<=` or `>=` between them is false, and sorting ranks the kinds in a fixed order, so it does not fail.
- Missing cells sort last, as pandas places NaN by default. No tie-break among rows with equal keys is claimed, because the default sort is not stable.
- `Cells.ElapsedSeconds`, `Cells.ElapsedDays`, `Cells.Plus` and `Cells.Ratio` give a missing cell when their operands are of mismatched kinds, where pandas raises `TypeError`. Examples are a text `after_call_work_sec` in `aht` (src/data_preparation.py:9), a numeric `due_date` in `days_past_due` (src/data_preparation.py:15), and a text `instalment_amount` in the realism ratio (src/feature_engineering.py:23).
- `.dt` accessors on columns that are not datetime. The model returns missing where pandas would raise.
- Timestamps are whole seconds on a naive clock with no time zone. Sub-second parts and daylight-saving shifts are not modelled.
- Floating point: numbers are exact reals. `total_seconds()` and the realism ratio do not round.
- `payment_plan_realism` is computed as an exact ratio. A zero denominator gives a missing cell, where pandas gives infinity or NaN.
- `call_date` is kept as the midnight timestamp that starts the day, not as a Python `date` object.
- The integer dtype that `astype(int)` produces: flags and day counts are stored as numbers.
- Duplicate column labels are not representable. A merge whose labels would collide fails with `MergeError`. pandas raises `MergeError` itself when two right-hand labels collide once suffixed. When a suffixed right-hand label collides with a left label (left has `x` and `x_crm`, right has `x`), pandas instead keeps two `x_crm` columns. `join_datasets` then fails in its pruning loop (src/data_preparation.py:38): `df[col]` is a DataFrame there, so `nunique() <= 1` raises `ValueError`. The model differs only in which error is raised and where.
- `Merging.LeftMerge` compares keys as cells, so a text key never matches a numeric or timestamp key, and the left row gets missing cells. pandas instead raises `ValueError` when the two key columns have incompatible dtypes.
- Merge fan-out: several CRM, QA or satisfaction rows with the same `call_id` give several output rows, and no bound on their number is claimed.
- `DataPreparation.JoinDatasets` requires well-formed input frames (distinct labels, every row with every label). A pandas DataFrame always has this shape.
- `DataPreparation.JoinDatasetsKeepsCalls`: the cells of call columns that pruning drops are not claimed to survive. A constant `call_id` or `customer_id` column is itself dropped by the source's loop.
- `FeatureEngineering.AddPerformanceFlags` models the sorted copy as a new frame. The index labels that pandas carries along with the rows are not modelled.
