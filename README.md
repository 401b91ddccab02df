# Glacier melt-risk pipeline: a Dafny model of its tabular core

The repository turns glacier inventories, climate rasters and WGMS mass-balance series into a
glacier-level melt-risk map. This project models the deterministic table logic of its batch
scripts. One Dafny module per script:

- `FillArea` (`fill_area_km2.py`): the numeric glacier key, one mean area per key, a left merge
  and the area replacement.
- `KeyMatch` (regular expressions of `fill_area_km2.py` and `03_mass_balance.py`): hand-written
  leftmost-match scanners for `\d+\.\d+`, `I-(\d{2})-(\d+)` and `(\d{2}\.\d+)`.
- `MassBalance` (`03_mass_balance.py`): climate keys, the ID-column search, year-column
  selection, the wide-to-long melt, the inner join, the seven output columns and `dropna`.
- `Hydrology` (`04_hydrology_link.py`): melt depth, runoff volume and runoff depth per row.
- `BasinAggregation` (`05_basin_aggregation.py`): the required-column check, the constant
  basin tag, the (basin, year) group-by and the basin-wide runoff depth.
- `ExtremeMelt` (`06_extreme_melt_years.py`): anomalies, z-scores, four melt categories and
  the descending sort.
- `FloodRisk` (`07_flood_risk_index.py`): min-max normalisation of the z-score, the category
  score map, the 0.6/0.4 index and three risk levels.
- `Trend` (`07_trend_analysis.py`): the degree-1 least-squares slope, its label and the
  one-row result.
- `Projection` (`08_future_melt_projection.py`): the training filter, the per-glacier
  baseline and the 2025–2040 drift loop around an abstract predictor.
- `Explain` (`10_explainable_ai.py`): the sorted importance table and the partial-effect sweep
  around an abstract predictor.
- `Merge` (`merge_glacier_datasets.py`): column aliasing, latest-per-key selection, left joins
  with "Unknown" defaults, the integer risk score and its bins, the coordinate repair and the
  export.

Shared modules:

- `Common`: `Option` stands for NaN, `Result` for a raised exception, plus sums, means,
  minima and maxima.
- `Order`: Python string order, sorted distinct group keys, and a sort promising order and
  permutation.
- `Frames`: tables whose columns are only known at run time (the WGMS file and the merge
  script), with pandas' `rename`, `df[c] = …`, `fillna`, `drop`, `df[cols]`, `dropna(subset=…)`,
  left `merge` and `groupby(…).tail(1)`.

Numbers are mathematical reals and a missing cell is `None` or `Blank`. A comparison with a
missing value is false, as it is with NaN in the scripts. So each classifier sends a missing
input to its last branch.

Where the scripts mutate state step by step, the model is imperative. This covers:

- the ID-column scan with `break`;
- the area back-fill;
- the scenario loop, which copies the baseline into an array and updates it in place;
- the partial-effect sweep, which overwrites one cell of a copied vector;
- `compute_risk`, which accumulates `score += …`;
- the merge script, a method threading one frame through the steps.

Each method is proved against a specification function. The rest is functions and lemmas.

Several things the scripts do differ from what their comments say. The model follows the code
and states the behaviour as lemmas:

- `extract_numeric_id` returns the version tag `7.0` for `RGI2000-v7.0-G-14.03456`, not the
  glacier number its docstring names.
- The statistics of the anomaly, flood and trend stages are taken over the whole file, not
  per basin.
- `basin_runoff_mm` is an area-weighted melt depth in metres, not millimetres.
- The projection baseline is a mean over all years, not the latest year.
- In the merge, `temp_mean` arrives from both the climate and the projection tables. The join
  suffixes both copies, and the default step recreates `temp_mean` as missing, so it never
  scores.
- With no `basin` column, both category columns are "Unknown".
- The climate key raises `TypeError` for an ID without an `I-dd-d…` part, since joining the
  two captured groups meets a missing value. The script then prints the keys after `dropna()`,
  as if such IDs gave a missing key; the model follows the code and raises (`Err`).

## Model

| member | source | states |
|---|---|---|
| KeyMatch.ExtractNumericIdSpec | backend/scripts/fill_area_km2.py:29-32 | a missing ID gives None; otherwise the result is the leftmost-longest `\d+\.\d+` substring of the ID, or None exactly when the ID has no such substring |
| KeyMatch.ExtractNumericIdShape | backend/scripts/fill_area_km2.py:31-32 | any returned key is digits, a dot, digits |
| KeyMatch.SearchNumDotNumSpec | backend/scripts/fill_area_km2.py:31 | the scanner started past positions where no match begins returns the regex's leftmost match, or None when there is none anywhere |
| KeyMatch.NumDotNumEndSound | backend/scripts/fill_area_km2.py:31 | a match found at a position spans digits '.' digits and stops before a digit (greedy `+`) |
| KeyMatch.NumDotNumEndComplete | backend/scripts/fill_area_km2.py:31 | wherever some `\d+\.\d+` text starts, the scanner finds a match there |
| KeyMatch.VersionTagFirst | backend/scripts/fill_area_km2.py:24-32 | for any ID laid out `RGI dddd -v d.d …`, the key is the version tag |
| KeyMatch.ExtractNumericIdOfRgi7 | backend/scripts/fill_area_km2.py:24-32 | `RGI2000-v7.0-G-14.03456` gives "7.0", not the docstring's 14.03456 |
| KeyMatch.ExtractNumericIdOfRgi5 | backend/scripts/fill_area_km2.py:24-28 | the docstring's older layout `RGI2000-v5.0-14.03456` gives "5.0" |
| KeyMatch.ExtractNumericIdOfMissing | backend/scripts/fill_area_km2.py:29-32 | a missing ID and an ID without a dotted number give None |
| KeyMatch.SearchClimate | backend/scripts/03_mass_balance.py:20-21 | a reported span is an `I-dd-d…` match inside the ID |
| KeyMatch.SearchClimateSpec | backend/scripts/03_mass_balance.py:20-21 | the climate scanner returns the leftmost, greedy `I-(\d{2})-(\d+)` match or None when the ID has none |
| KeyMatch.ClimateEndSound | backend/scripts/03_mass_balance.py:21 | a climate match has the `I-dd-d…` shape and its digit run is maximal |
| KeyMatch.ClimateEndNone | backend/scripts/03_mass_balance.py:21 | where no match is found, no text starting there has the climate shape |
| KeyMatch.ClimateKeySpec | backend/scripts/03_mass_balance.py:18-22 | the climate key is the two region digits, '.', and the full digit run of the leftmost match; None when there is no match |
| KeyMatch.ClimateKeyExample | backend/scripts/03_mass_balance.py:18-19 | `RGI2000-v7.0-I-15-03456` has key "15.03456" |
| KeyMatch.ClimateMatchOfRgi7 | backend/scripts/03_mass_balance.py:18-21 | the leftmost climate match of that ID spans the `I-15-03456` part |
| KeyMatch.WgmsKeySpec | backend/scripts/03_mass_balance.py:58 | the WGMS key is the leftmost greedy `\d{2}\.\d+` substring, or None when the ID has none |
| KeyMatch.WgmsEndSound | backend/scripts/03_mass_balance.py:58 | a WGMS match has two digits, a dot and a maximal digit run |
| KeyMatch.WgmsEndNone | backend/scripts/03_mass_balance.py:58 | where no match is found, no text starting there has the WGMS shape |
| KeyMatch.WgmsKeyOfRgi6 | backend/scripts/03_mass_balance.py:56-58 | `RGI60-15.03456` has key "15.03456" |
| KeyMatch.WgmsKeyExample | backend/scripts/03_mass_balance.py:18-58 | the RGI 6 and RGI 7 IDs of one glacier get the same key on both sides of the join |
| FillArea.Pairs | backend/scripts/fill_area_km2.py:34-40 | the (key, area) pairs are exactly the attribute rows whose key and area are both present |
| FillArea.AreasOf | backend/scripts/fill_area_km2.py:43 | a key has recorded areas exactly when it occurs among the pairs |
| FillArea.GroupMeansSpec | backend/scripts/fill_area_km2.py:43 | the area table has one row per surviving key, keys strictly ascending, each holding the mean of that key's areas |
| FillArea.LookupGroupMeans | backend/scripts/fill_area_km2.py:43-52 | looking a master key up in the area table gives the mean of every attribute area recorded under it, or None |
| FillArea.LeftJoinKeepsRows | backend/scripts/fill_area_km2.py:48-52 | with unique right keys, the left merge keeps every master row once, in order, paired with its looked-up area |
| FillArea.FillAreaStage | backend/scripts/fill_area_km2.py:34-58 | every master row survives once, in order, with only `area_km2` replaced by the expected mean area (None when unmatched) |
| FillArea.Rgi7RowKeyedByVersion | backend/scripts/fill_area_km2.py:34-57 | a master row with an RGI 7 ID is matched under key "7.0", so it only gets an area recorded under that key |
| MassBalance.ClimateKeys | backend/scripts/03_mass_balance.py:20-22 | the key column succeeds exactly when the table is non-empty and every climate ID has a key, and then holds each row's key in order |
| MassBalance.RowKeys | backend/scripts/03_mass_balance.py:20-22 | the row-wise join succeeds exactly when every climate ID matches the pattern, giving one key per row in order |
| MassBalance.FindIdColumn | backend/scripts/03_mass_balance.py:45-52 | the scan returns the first column whose lower-cased name is `rgiid` or `rgid`, or None when no column is |
| MassBalance.FirstIdColumnUnique | backend/scripts/03_mass_balance.py:46-49 | the first ID column is unique |
| MassBalance.WgmsKeys | backend/scripts/03_mass_balance.py:58 | one key per WGMS row: the WGMS key of its ID cell, None for a missing or non-text cell |
| MassBalance.YearColumns | backend/scripts/03_mass_balance.py:65-68 | the selected positions are exactly the all-digit column names with a value in [2000, 2024], in header order |
| MassBalance.MeltLength | backend/scripts/03_mass_balance.py:73-78 | the long table has one row per (year column, WGMS row) |
| MassBalance.MeltAt | backend/scripts/03_mass_balance.py:73-80 | position `j·n + r` holds WGMS row r's key, the integer year of column j and that cell as `mass_change` |
| MassBalance.MatchLong | backend/scripts/03_mass_balance.py:85-89 | the long rows paired with a climate key are exactly those with that key |
| MassBalance.InnerJoinSpec | backend/scripts/03_mass_balance.py:85-89 | a joined pair is exactly a climate row and a long row with equal keys; a WGMS row without a key never joins |
| MassBalance.SelectComplete | backend/scripts/03_mass_balance.py:96-106 | the output rows are exactly the joined rows whose seven selected columns are all present |
| MassBalance.MlTableSpec | backend/scripts/03_mass_balance.py:58-106 | every output row comes from a climate row and a WGMS row with equal keys, with that climate row's features, the year of a selected column and that cell's mass change |
| MassBalance.MlTableComplete | backend/scripts/03_mass_balance.py:58-106 | every climate row and WGMS row with equal keys give an output row for each selected year whose cell is a number and whose climate features are all present |
| MassBalance.MlTableYears | backend/scripts/03_mass_balance.py:65-80 | only years 2000..2024 reach the table |
| MassBalance.MassBalanceStage | backend/scripts/03_mass_balance.py:16-106 | the stage raises exactly when the climate table is empty, a climate ID has no key, no column holds RGI IDs, the first ID column of a non-empty table holds no text (so `.str` is refused), or no year column is selected; otherwise it writes the joined complete rows using the first ID column |
| Hydrology.ClipUpper | backend/scripts/04_hydrology_link.py:27 | the clipped value never exceeds the bound and equals the input below it |
| Hydrology.Abs | backend/scripts/04_hydrology_link.py:27 | the absolute value is non-negative and is the input or its negation |
| Hydrology.MeltM | backend/scripts/04_hydrology_link.py:27 | melt is the lost depth for a mass loss, 0 otherwise, and never negative |
| Hydrology.HydroOf | backend/scripts/04_hydrology_link.py:27-53 | the seven carried columns are unchanged; runoff depth is non-negative, and so is the volume for a non-negative area |
| Hydrology.HydrologyTable | backend/scripts/04_hydrology_link.py:43-53 | row count and order are preserved, one converted row per input row |
| Hydrology.NoLossNoRunoff | backend/scripts/04_hydrology_link.py:27-38 | a mass gain or no change gives zero melt, zero volume and zero depth |
| Hydrology.LossIsMelt | backend/scripts/04_hydrology_link.py:27-38 | a mass loss melts exactly the lost depth; volume is that depth × area × 1e6 and depth in mm is 1000 × it |
| Hydrology.VolumeIsDepthTimesArea | backend/scripts/04_hydrology_link.py:33-38 | the volume is the runoff depth in metres times the area in square metres |
| BasinAggregation.MissingFrom | backend/scripts/05_basin_aggregation.py:36 | the positions listed are exactly the required columns the header lacks, ascending |
| BasinAggregation.Missing | backend/scripts/05_basin_aggregation.py:36 | the missing list holds exactly the absent required names, in required order |
| BasinAggregation.BasinStage | backend/scripts/05_basin_aggregation.py:28-38 | the stage raises exactly when some required column is absent, with a `ValueError` whose message lists the missing columns in required order as Python prints a list; otherwise it returns the aggregation |
| BasinAggregation.BasinStageMessage | backend/scripts/05_basin_aggregation.py:36-38 | with only the two runoff columns absent the message lists `glacier_runoff_m3`, then `runoff_mm` |
| BasinAggregation.TwoNamesRepr | backend/scripts/05_basin_aggregation.py:38 | a two-name list prints as `['a', 'b']`, as Python formats it |
| BasinAggregation.KeyLessIsStrictTotal | backend/scripts/05_basin_aggregation.py:49-50 | the (basin, year) group order is a strict total order |
| BasinAggregation.Members | backend/scripts/05_basin_aggregation.py:49-50 | a group holds exactly the rows with its (basin, year) |
| BasinAggregation.AggregateKeys | backend/scripts/05_basin_aggregation.py:44-58 | one output row per (basin, year) present, strictly ascending, every row in basin "Himalayas" |
| BasinAggregation.GlacierCount | backend/scripts/05_basin_aggregation.py:49-58 | `nunique` of a group's IDs is the number of distinct glacier IDs, between 1 and the group size for a non-empty group |
| BasinAggregation.AggregateGroups | backend/scripts/05_basin_aggregation.py:49-58 | each output row is a non-empty input group with runoff and area sums, the mean runoff depth, and `glacier_count` equal to the number of distinct glacier IDs in the group (so between 1 and the group size) |
| BasinAggregation.AggregateConserves | backend/scripts/05_basin_aggregation.py:51-54 | summed over output rows, total runoff and total area equal their input sums |
| BasinAggregation.GroupSumsConserve | backend/scripts/05_basin_aggregation.py:51-54 | group totals over distinct covering keys add up to the column total |
| BasinAggregation.MemberSumIsSum | backend/scripts/05_basin_aggregation.py:51-54 | a group total accumulated row by row is the sum over the group's members |
| BasinAggregation.BasinRunoffIsAreaWeightedMelt | backend/scripts/05_basin_aggregation.py:64-67 | for hydrology rows, `basin_runoff_mm` is Σ melt·area / Σ area: an area-weighted melt in metres, not mm |
| BasinAggregation.RunoffIsScaledMelt | backend/scripts/05_basin_aggregation.py:64-67 | each group's runoff column is 1e6 × melt × area |
| BasinAggregation.TwoGlacierExample | backend/scripts/05_basin_aggregation.py:51-67 | melts 0.5 m over 10 km² and 0.1 m over 2 km² give 5.2e6 m³, basin depth 13/30 and mean depth 300 mm |
| ExtremeMelt.Classify | backend/scripts/06_extreme_melt_years.py:41-51 | exactly one of four labels: Extreme for z ≥ 2, High for 1 ≤ z < 2, Low for z ≤ −1, else Normal, including a missing z |
| ExtremeMelt.ClassifyBoundaries | backend/scripts/06_extreme_melt_years.py:41-49 | z = 2, 1, −1, 0 and a missing z give Extreme, High, Low, Normal, Normal |
| ExtremeMelt.AnnotateAll | backend/scripts/06_extreme_melt_years.py:35-51 | one annotated row per input row, in order, carrying the input row |
| ExtremeMelt.AnomaliesAreDeviations | backend/scripts/06_extreme_melt_years.py:26-35 | the anomaly column is each present depth minus the mean over the whole file |
| ExtremeMelt.AnomaliesSumToZero | backend/scripts/06_extreme_melt_years.py:26-35 | the present anomalies sum to zero |
| ExtremeMelt.ZScorePreservesOrder | backend/scripts/06_extreme_melt_years.py:27-36 | with a positive standard deviation, z orders rows exactly as their runoff depth does |
| ExtremeMelt.ZDescendingIsTotalPreorder | backend/scripts/06_extreme_melt_years.py:56 | the descending z order is total and transitive |
| ExtremeMelt.ExtremeMeltTableSpec | backend/scripts/06_extreme_melt_years.py:56 | the output is a permutation of the annotated rows, non-increasing in z with missing z last |
| FloodRisk.ZScores | backend/scripts/07_flood_risk_index.py:28 | the column normalised is the z-score column |
| FloodRisk.RunoffNorm | backend/scripts/07_flood_risk_index.py:31-34 | the norm is defined exactly when the row has a z and the file's present z-scores are not all equal |
| FloodRisk.RunoffNormRange | backend/scripts/07_flood_risk_index.py:31-34 | a norm lies in [0, 1], and is 1 exactly at the largest z and 0 exactly at the smallest |
| FloodRisk.MeltScore | backend/scripts/07_flood_risk_index.py:39-46 | the four labels map to 0.2, 0.4, 0.7, 1.0; any other label gives a missing score |
| FloodRisk.RiskIndex | backend/scripts/07_flood_risk_index.py:51-54 | the index is present exactly when both parts are |
| FloodRisk.RiskIndexMonotone | backend/scripts/07_flood_risk_index.py:51-54 | the index never falls when either part rises |
| FloodRisk.RiskIndexRange | backend/scripts/07_flood_risk_index.py:51-54 | for a norm in [0, 1] and a mapped label the index lies in [0.08, 1.0]; it is 1.0 at (1, Extreme) and 0.08 at (0, Low) |
| FloodRisk.ClassifyRisk | backend/scripts/07_flood_risk_index.py:59-67 | High for ≥ 0.75, Moderate for [0.45, 0.75), Low otherwise, including a missing index |
| FloodRisk.ClassifyRiskBoundaries | backend/scripts/07_flood_risk_index.py:59-65 | 0.75, 0.45, 0.44 and a missing index give High, Moderate, Low, Low |
| FloodRisk.FloodTable | backend/scripts/07_flood_risk_index.py:28-81 | one output row per input row, in order, carrying basin, year, category and z-score unchanged; its index is 0.6 × the z-score min-max normalised over the whole file plus 0.4 × the category score, and its level is the classification of that index |
| FloodRisk.SpreadIff | backend/scripts/07_flood_risk_index.py:31-34 | the normalisation is defined exactly when two rows of the whole file have different present z-scores |
| FloodRisk.FloodTableIndexRange | backend/scripts/07_flood_risk_index.py:31-54 | a row's index is present exactly when it has a z, a mapped label and the file has spread; it then lies in [0.08, 1.0] |
| FloodRisk.FloodTableNormEnds | backend/scripts/07_flood_risk_index.py:31-34 | when the file's z-scores are not all equal, a row holding the largest z gets norm 1 and one holding the smallest gets 0 |
| Trend.TrendType | backend/scripts/07_trend_analysis.py:32 | "Increasing" exactly when slope > 0; a zero slope is "Decreasing" |
| Trend.MinYear | backend/scripts/07_trend_analysis.py:39 | the start year is the smallest year of the file |
| Trend.MaxYear | backend/scripts/07_trend_analysis.py:40 | the end year is the largest year of the file |
| Trend.Points | backend/scripts/07_trend_analysis.py:26-27 | one point per row in file order, whatever its basin |
| Trend.TrendStage | backend/scripts/07_trend_analysis.py:26-43 | the fit succeeds exactly when every depth is present and there are two distinct years |
| Trend.TrendStageSpec | backend/scripts/07_trend_analysis.py:30-43 | exactly one row: the first row's basin, the file's year range, the least-squares slope and its label |
| Trend.SxxPositive | backend/scripts/07_trend_analysis.py:30 | the slope's denominator is positive exactly when there are two distinct years |
| Trend.YearsAroundMean | backend/scripts/07_trend_analysis.py:30 | with two distinct years some year lies above the mean and some below |
| Trend.DevXSumsToZero | backend/scripts/07_trend_analysis.py:30 | the year deviations sum to zero |
| Trend.SxyAnyCentre | backend/scripts/07_trend_analysis.py:30 | the numerator is unchanged when the runoff is centred at any constant |
| Trend.SumOfPermutation | backend/scripts/07_trend_analysis.py:30 | sums over the points depend only on their multiset |
| Trend.SlopePermutation | backend/scripts/07_trend_analysis.py:30 | the fit does not depend on the order of the rows |
| Trend.IncreasingSlope | backend/scripts/07_trend_analysis.py:30-32 | runoff strictly increasing in year gives a positive slope |
| Trend.DecreasingSlope | backend/scripts/07_trend_analysis.py:30-32 | runoff strictly decreasing in year gives a negative slope |
| Trend.TrendOfMonotoneRunoff | backend/scripts/07_trend_analysis.py:30-32 | increasing runoff is labelled "Increasing" and decreasing runoff "Decreasing" |
| Projection.TrainingRowsMembers | backend/scripts/08_future_melt_projection.py:28 | the training rows are exactly the rows with 2000 ≤ year ≤ 2024 |
| Projection.NoTrainingRows | backend/scripts/08_future_melt_projection.py:28 | the training set is empty exactly when no row has a year in 2000..2024 |
| Projection.OfGlacier | backend/scripts/08_future_melt_projection.py:52 | a glacier's group holds exactly its rows |
| Projection.FirstArea | backend/scripts/08_future_melt_projection.py:54 | the area aggregate is the area of the glacier's first row in file order |
| Projection.BaselineAscending | backend/scripts/08_future_melt_projection.py:51-60 | baseline rows are strictly ascending by glacier ID |
| Projection.BaselineCovers | backend/scripts/08_future_melt_projection.py:51-60 | every glacier of the file has a baseline row and every baseline row is a glacier of the file |
| Projection.BaselineAt | backend/scripts/08_future_melt_projection.py:50-60 | a baseline area is the glacier's first area; temp, prec and srad are means over all its rows, whatever the year |
| Projection.YearBlock | backend/scripts/08_future_melt_projection.py:69-78 | a year's block has one drifted, predicted row per baseline glacier, in baseline order |
| Projection.PredictedDrift | backend/scripts/08_future_melt_projection.py:65-76 | a row keeps glacier and area, shifts temp by 0.04 and scales prec by 0.2 % and srad by 0.1 % per year since 2024, and predicts on exactly those values |
| Projection.FutureTableShape | backend/scripts/08_future_melt_projection.py:48-83 | the table has 16 × (glaciers) rows, every year in 2025..2040 |
| Projection.FutureTableAt | backend/scripts/08_future_melt_projection.py:62-83 | position k·n + i is baseline glacier i in year 2025 + k: year blocks ascending, each glacier once per block |
| Projection.DriftInPlace | backend/scripts/08_future_melt_projection.py:69-73 | the in-place updates leave each copied row drifted from its own starting value |
| Projection.ProjectFuture | backend/scripts/08_future_melt_projection.py:62-83 | the loop produces the projection table; every year starts from a fresh copy, so the drift does not compound |
| Projection.FutureMeltProjection | backend/scripts/08_future_melt_projection.py:28-83 | the stage raises exactly when no row has a year in 2000..2024 (the fit gets no samples); otherwise the output is the projection table of the baseline of the whole file |
| Explain.FeatureColumn | backend/scripts/10_explainable_ai.py:30-33 | one value per row of the feature named by its position in `features` |
| Explain.Means | backend/scripts/10_explainable_ai.py:73 | the base vector holds each feature's column mean, in feature order |
| Explain.ImportanceRows | backend/scripts/10_explainable_ai.py:51-53 | one row per feature, in `features` order, with its importance |
| Explain.ImportanceTableSpec | backend/scripts/10_explainable_ai.py:51-54 | the table is a permutation of the four feature rows, non-increasing in importance, each feature present with its own importance |
| Explain.LinspaceSpec | backend/scripts/10_explainable_ai.py:67-71 | the sweep starts at the lower quantile, ends at the upper one, moves in equal steps and never falls when lo ≤ hi |
| Explain.Query | backend/scripts/10_explainable_ai.py:76-77 | the query equals the mean vector except at the swept feature, which holds the swept value |
| Explain.EffectsTableAt | backend/scripts/10_explainable_ai.py:64-84 | 80 rows; row 20f + k names feature f, its k-th sweep value and the prediction at its query |
| Explain.PartialEffects | backend/scripts/10_explainable_ai.py:64-84 | the nested loop builds the effects table; the base vector is never modified by a query |
| Explain.ExplainableAi | backend/scripts/10_explainable_ai.py:24-87 | fitting on an empty file raises; otherwise the outputs are the sorted importances and the sweep |
| Frames.LowerColumns | backend/scripts/merge_glacier_datasets.py:26-52 | every header name is lower-cased; rows are unchanged |
| Frames.Rename | backend/scripts/merge_glacier_datasets.py:31-39 | only the renamed header entry changes |
| Frames.SetColumn | backend/scripts/merge_glacier_datasets.py:91-99 | the column holds the new values; other cells are unchanged; a new name is appended at the right |
| Frames.FillNa | backend/scripts/merge_glacier_datasets.py:101-102 | missing cells of the column get the fill value; every other cell is unchanged |
| Frames.DropColumns | backend/scripts/merge_glacier_datasets.py:170-174 | exactly the columns not named remain, with their cells |
| Frames.Select | backend/scripts/merge_glacier_datasets.py:179 | selecting succeeds exactly when all names are present; the result has those columns in that order and the same cells |
| Frames.DropNa | backend/scripts/merge_glacier_datasets.py:179 | the kept rows are exactly the rows with all named cells present |
| Frames.MergeLeft | backend/scripts/merge_glacier_datasets.py:76-77 | a left merge raises without the key on both sides; otherwise it keeps at least the left rows under the merged header |
| Frames.MergeLeftSpec | backend/scripts/merge_glacier_datasets.py:76-77 | every merged row is a left row followed by the non-key cells of a right row with the same key, or by missing cells when no right row has it; every matching left/right pair gives a merged row; the left rows survive in order as the starts of merged rows |
| Frames.MergeLeftFrom | backend/scripts/merge_glacier_datasets.py:76-77 | every row of a left merge starts with a whole left row |
| Frames.LeftRowsPrefixes | backend/scripts/merge_glacier_datasets.py:76-77 | every row the merge loop builds starts with a whole left row |
| Frames.PrefixesCompose | backend/scripts/merge_glacier_datasets.py:76-92 | rows kept in order through two joins are kept in order through both |
| Frames.SetColumnKeepsPrefix | backend/scripts/merge_glacier_datasets.py:90-92 | writing a column outside the first `w` keeps every row and its first `w` cells |
| Frames.MergeLeftKeepsRows | backend/scripts/merge_glacier_datasets.py:76-89 | with unique right keys, every left row appears once, in order, as the prefix of its merged row |
| Frames.LatestPerKeySpec | backend/scripts/merge_glacier_datasets.py:64-71 | the kept rows are keyed input rows with distinct keys, and every keyed input row has a kept row with its key and a year at least as large |
| Merge.AliasColumn | backend/scripts/merge_glacier_datasets.py:29-39 | the alias exists exactly when it or one of its two sources does, and takes its cells from the first of them present |
| Merge.AliasCoordinates | backend/scripts/merge_glacier_datasets.py:28-39 | `lat` exists exactly when lat, latitude or cenlat did; likewise `lon` |
| Merge.AliasCoordinatesSource | backend/scripts/merge_glacier_datasets.py:29-39 | `lat` comes from lat, else latitude, else cenlat; `lon` likewise, unaffected by the `lat` rename |
| Merge.PrepareBase | backend/scripts/merge_glacier_datasets.py:25-41 | the base assertion fails exactly when a coordinate has none of its three names after lower-casing; on success `lat` and `lon` are columns of the aliased table |
| Merge.Latest | backend/scripts/merge_glacier_datasets.py:64-71 | with a year column the selection raises if the key is absent; without one the frame passes through |
| Merge.LatestSpec | backend/scripts/merge_glacier_datasets.py:64-71 | each key keeps one input row, with the largest year of its group |
| Merge.LatestJoinKeepsRows | backend/scripts/merge_glacier_datasets.py:64-89 | joining on a latest-per-key table keeps every left row once and in order |
| Merge.JoinCategories | backend/scripts/merge_glacier_datasets.py:79-92 | without `basin` the category joins cannot fail and add both category columns |
| Merge.CategoryJoin | backend/scripts/merge_glacier_datasets.py:80-88 | joining on a two-column cut of a category table appends that column, keeps the left rows in order, and gives each row the category of a table row with its key, or a missing value when there is none |
| Merge.JoinCategoriesFromBasin | backend/scripts/merge_glacier_datasets.py:79-88 | with a basin and no categories yet, the output adds `melt_category` and `flood_risk_level`, and each row is a merged row followed by the melt category and flood level of its basin, or missing values where the tables lack the basin |
| Merge.JoinCategoriesKeepsRows | backend/scripts/merge_glacier_datasets.py:79-92 | both branches keep every merged row, in order, as far as its non-category columns |
| Merge.NoBasinUnknown | backend/scripts/merge_glacier_datasets.py:90-92 | without `basin` every row's melt category and flood level is "Unknown" |
| Merge.JoinAll | backend/scripts/merge_glacier_datasets.py:76-92 | the join chain keeps at least every base row |
| Merge.JoinAllKeepsBase | backend/scripts/merge_glacier_datasets.py:76-92 | every master-table row survives the join chain, in order, as the start of an output row |
| Merge.JoinAllFromBase | backend/scripts/merge_glacier_datasets.py:76-92 | every output row of the join chain starts with a whole master-table row |
| Merge.JoinAllIdColumn | backend/scripts/merge_glacier_datasets.py:76-92 | a successful chain needs `glacier_id` in the master table and keeps it at the same position |
| Merge.JoinAllCoordinate | backend/scripts/merge_glacier_datasets.py:76-92 | a master coordinate the projections do not carry stays at its position, under its own name or its `_x` name |
| Merge.SharedColumnSuffixed | backend/scripts/merge_glacier_datasets.py:76-77 | a column both sides carry leaves the merged header under its own name |
| Merge.MergedColumnOrigin | backend/scripts/merge_glacier_datasets.py:76-77 | an unsuffixed merged column comes from one of the two sides |
| Merge.TempMeanShadowed | backend/scripts/merge_glacier_datasets.py:76-115 | with the headers the earlier stages write, `temp_mean` is suffixed away, recreated missing, and scores 0 |
| Merge.DefaultColumn | backend/scripts/merge_glacier_datasets.py:97-99 | an absent column is added missing in every row; existing cells are unchanged |
| Merge.AddDefaults | backend/scripts/merge_glacier_datasets.py:97-99 | the three numeric columns exist afterwards, missing where they were absent, other cells unchanged |
| Merge.FillUnknown | backend/scripts/merge_glacier_datasets.py:101-102 | raises exactly when the column is absent; otherwise exactly the missing cells become "Unknown", and every other cell and column is unchanged |
| Merge.TempPoints | backend/scripts/merge_glacier_datasets.py:110-114 | 2 above 0, 1 in (−1, 0], 0 otherwise or when missing |
| Merge.PredPoints | backend/scripts/merge_glacier_datasets.py:116-120 | 2 below −0.6, 1 in [−0.6, −0.3), 0 otherwise or when missing |
| Merge.AreaPoints | backend/scripts/merge_glacier_datasets.py:122-123 | 1 exactly for a present area below 5 |
| Merge.LabelPoints | backend/scripts/merge_glacier_datasets.py:125-128 | 2 exactly for an exact label match, else 0 |
| Merge.RiskScore | backend/scripts/merge_glacier_datasets.py:107-128 | the score lies in [0, 9] |
| Merge.RiskLevel | backend/scripts/merge_glacier_datasets.py:130-135 | High for score ≥ 5, Medium for 3..4, Low below 3 |
| Merge.RiskLevelMonotone | backend/scripts/merge_glacier_datasets.py:130-135 | a higher score never gives a lower level |
| Merge.CategoryHitNeverLowers | backend/scripts/merge_glacier_datasets.py:125-135 | an "Extreme Melt" or "High Risk" hit never lowers the level |
| Merge.RiskBoundaries | backend/scripts/merge_glacier_datasets.py:110-123 | temp 0 scores 1, temp −1 scores 0, predicted −0.6 scores 1, −0.3 scores 0, area 5 scores 0, missing numbers score 0 |
| Merge.RiskOf | backend/scripts/merge_glacier_datasets.py:107-135 | a row raises exactly when a numeric input holds text; otherwise it gets one of the three levels |
| Merge.ComputeRisk | backend/scripts/merge_glacier_datasets.py:107-135 | the accumulated score, binned, is the row's grade |
| Merge.RiskColumn | backend/scripts/merge_glacier_datasets.py:137 | the apply succeeds exactly when every row does, giving each row its own grade |
| Merge.RestoreCoord | backend/scripts/merge_glacier_datasets.py:157-167 | the coordinate exists afterwards exactly when it, its `_x` copy or its long name did, taken in that order |
| Merge.FixCoordinates | backend/scripts/merge_glacier_datasets.py:157-174 | no `_x`/`_y` coordinate duplicate remains; every other column keeps its cells |
| Merge.FixCoordinatesFromBase | backend/scripts/merge_glacier_datasets.py:157-174 | when the merges suffixed the base coordinates, `lat`/`lon` are the base's `lat_x`/`lon_x` and no suffixed coordinate remains |
| Merge.Export | backend/scripts/merge_glacier_datasets.py:142-179 | the export succeeds exactly when all nine final columns are present, and has exactly those columns in order |
| Merge.ExportRows | backend/scripts/merge_glacier_datasets.py:179 | every exported row is a selected row with both coordinates present |
| Merge.ExportLocated | backend/scripts/merge_glacier_datasets.py:179 | every exported row carries the ID and coordinates of some row of the repaired frame |
| Merge.ExportKeeps | backend/scripts/merge_glacier_datasets.py:179 | every repaired row with both coordinates present is exported |
| Merge.ExportOk | backend/scripts/merge_glacier_datasets.py:142-179 | after the risk column, the repair and export succeed exactly when `glacier_id` and a source for each coordinate are present |
| Merge.RepairHeader | backend/scripts/merge_glacier_datasets.py:157-174 | the repaired frame has `lat` exactly when `lat`, `lat_x` or `latitude` was there; likewise `lon`; `glacier_id` is untouched |
| Merge.RepairLocation | backend/scripts/merge_glacier_datasets.py:157-174 | a repaired row keeps its ID and takes each coordinate from the first of its three sources present |
| Merge.GradedAfterRisk | backend/scripts/merge_glacier_datasets.py:101-137 | after the fills and the risk column, every row's `risk_level` is the grade of its own inputs |
| Merge.GradedAfterCoordinates | backend/scripts/merge_glacier_datasets.py:157-174 | the coordinate repair keeps every row's categories, risk inputs and grade |
| Merge.StepsKeepNumeric | backend/scripts/merge_glacier_datasets.py:97-137 | after defaults and fills, a row's grade can be computed exactly when its numeric inputs in the joined frame are numbers or missing |
| Merge.StepsKeepLocation | backend/scripts/merge_glacier_datasets.py:97-137 | the defaults, fills and risk column leave the ID and coordinate sources of every row unchanged |
| Merge.Repaired | backend/scripts/merge_glacier_datasets.py:157-174 | the repaired frame holds, row for row, the ID and the coordinates taken from each joined row |
| Merge.FinishLocated | backend/scripts/merge_glacier_datasets.py:157-179 | every exported row starts with the ID and coordinates of a joined row |
| Merge.FinishComplete | backend/scripts/merge_glacier_datasets.py:157-179 | every joined row with both coordinates present is exported |
| Merge.FillsNeedCategories | backend/scripts/merge_glacier_datasets.py:101-102 | the fills raise exactly when a category column is absent |
| Merge.RiskFails | backend/scripts/merge_glacier_datasets.py:107-137 | a failing risk column means the joined frame does not finish |
| Merge.FinishCondition | backend/scripts/merge_glacier_datasets.py:97-177 | after a successful risk column, the script finishes exactly when `glacier_id` and a source for each coordinate are present |
| Merge.LocationFromMaster | backend/scripts/merge_glacier_datasets.py:76-92 | a joined row that starts with a master row carries its ID, and its coordinates too when the projections have none |
| Merge.RowsFromMaster | backend/scripts/merge_glacier_datasets.py:76-92 | rows that start with the location of a joined row start with the ID of a master row, and its coordinates when the projections have none |
| Merge.MasterRowsKept | backend/scripts/merge_glacier_datasets.py:76-92 | when the projections carry no coordinates, every master row with both coordinates reaches rows that keep every located joined row |
| Merge.ExportGraded | backend/scripts/merge_glacier_datasets.py:101-179 | every exported row has coordinates, both categories and one of the three risk levels, and its `risk_level` is the grade of its own `temp_mean`, `predicted_melt`, `area_km2` and categories |
| Merge.FinishMerged | backend/scripts/merge_glacier_datasets.py:97-179 | the finishing steps succeed exactly when the categories exist, every numeric input is a number or missing, and the ID and coordinate sources exist; the output has the nine final columns, every row has coordinates, both categories and the risk level its own inputs grade to, starts with the ID and coordinates of a joined row, and every joined row with both coordinates is exported |
| Merge.Joined | backend/scripts/merge_glacier_datasets.py:25-92 | the loading, latest-record and join steps succeed only on a valid master table and keep at least its rows |
| Merge.JoinedFromMaster | backend/scripts/merge_glacier_datasets.py:25-92 | rows located in the joined frame carry the ID of a master row, and its coordinates when the projections have none |
| Merge.JoinedKeepsMaster | backend/scripts/merge_glacier_datasets.py:25-92 | when the projections carry no coordinates, every master row with both coordinates is located in the exported rows |
| Merge.MergeGlacierDatasets | backend/scripts/merge_glacier_datasets.py:25-179 | the script completes exactly when the joins succeed and the joined frame finishes; then the output has the nine final columns, every row has coordinates, both categories and the risk level its own inputs grade to, and carries the ID of a master-table row (and its coordinates when the projections have none); with no coordinates in the projections, every master row with both coordinates is exported |

## Left out

- File paths, existence asserts, CSV reading and writing, prints and head/describe summaries.
- `01_glacier_master.py`, `02_climate_features.py`, `07_climate_sensitivity.py`,
  `09_visualization.py`, `app.py` and the front end are not part of this model.
- The WGMS glob and `pd.concat` of the files found: `MassBalance.MassBalanceStage` takes the
  concatenated frame.
- Random forest training and prediction, and `feature_importances_`: the predictor and the
  importance vector are parameters. So are the sample standard deviation (a value whose square
  is the sample variance) and the 5 % / 95 % quantiles, since `sqrt` and pandas' quantile
  interpolation are floating point.
- Floating-point rounding: all numbers are reals.
- `Projection.FutureMeltProjection`: the training filter is modelled, and fitting on no rows
  raises; the fitted forest itself is the `predict` parameter.
- `\d` and `str.isdigit` are ASCII digits only, and `str.lower` is ASCII lower-casing; pandas
  accepts other Unicode digits and letters.
- IDs are strings. A numeric ID cell (`str(rgi_id)` of a float) is not modelled.
- `MassBalance.MassBalanceStage`: a text cell in a year column is read as a missing mass change,
  so its row is dropped. pandas reads that column as text, keeps the string through `dropna`
  and writes it to the table; a table row here holds numbers only.
- `Merge.MergeGlacierDatasets`: requires each input's lower-cased header to have distinct
  names. A header that collides after lower-casing is not modelled.
- `Merge.MergeGlacierDatasets`: where an exported row comes from is stated only when the master
  table has no `melt_category` or `flood_risk_level` column of its own. Its coordinates are the
  master row's only when the projections carry no `lat`, `lat_x`, `lon` or `lon_x`; otherwise
  the suffixing can let a projection coordinate take their place, and the model then promises
  only the ID. Completeness (every located master row is exported) is stated under the same
  condition.
- `Frames.MergeLeft`: models the column layout of current pandas (left columns, then right
  columns without the key, with `_x`/`_y` on shared names). Other join orders are not modelled.
- `Frames.MergeLeft`: a clash between a left name and a suffixed right name, or the reverse
  (left `k, a, a_y` merged with right `k, a`), is an error here. pandas raises only for
  repeated names within one side and otherwise returns a frame with a repeated column name,
  which a frame here cannot hold.
- `Frames.LatestPerKeySpec`: pandas sorts with an unstable quicksort. The model uses a stable
  sort and promises only what pandas does: a year at least as large as every row of the group.
  Which of several rows sharing the largest year survives is left open.
- `ExtremeMelt.ExtremeMeltTableSpec`: states order and permutation only, for the same reason.
- `BasinAggregation.GroupRow`: a zero total area gives a missing `basin_runoff_mm`. pandas gives
  NaN for 0/0 but ±inf for a non-zero runoff over zero area; the infinite case is not
  distinguished.
- `Trend.TrendStage`: `np.polyfit` on fewer than two distinct years or on missing values returns
  a rank-deficient fit or NaN. The model refuses the fit (`Err`) instead.
- `Projection.Baseline` assumes `glacier_id` is never missing; pandas drops rows with a missing
  group key.
- `Merge.JoinAll`: duplicate `glacier_id` rows in the climate table fan out the left join, so the
  chain promises every base row in order at the start of an output row
  (`Merge.JoinAllKeepsBase`) and the cells of each join (`Frames.MergeLeftSpec`), not one output
  row per glacier. `Merge.JoinAllKeepsBase` assumes the master table has no category column of
  its own; one would be overwritten by the "Unknown" default.
