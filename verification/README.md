# March Madness bracket engine, modelled in Dafny

This project models the data core of the 2021 March Madness predictor: the
steps that turn scraped tables into training rows and simulate a bracket.
The predictor itself is a Python/pandas pipeline. The model covers:

- **Scrape to rows.** Scraped tournament games, rankings, coach records and
  the current bracket become rows (`data_fetch.py`, and its copy under
  `API/fetch/`, which adds `get_null_rows` and `get_feature_null_counts`).
- **Cleaning.** Season tables are cut down to tournament teams. Every game
  is reframed as a *favorite* and an *underdog* side. The lower seed is the
  favorite; on equal seeds the better regular-season W-L% decides.
- **Merging.** Both sides' season statistics are joined onto each matchup,
  suffixed `_Favorite` and `_Underdog` (`data_merge.py`).
- **Labelling.** The historical target `Underdog_Upset` is attached.
- **Feature engineering.** Points differentials, the Round-name conversion,
  underdog-relative differences and scaling.
- **Bracket simulation.** The predictions of one round become the next
  round's matchups: winners paired in order, play-in winners written into the
  first round, and the seven rounds assembled into one formatted bracket with
  a `Winner` column (`API/preprocess/data_pipeline.py`, `data_clean.py`).
- **Model evaluation.** Probabilities become upset predictions at a threshold.
  The per-threshold performance table is built and deduplicated.

**Tables and labels.** DataFrames are sequences of records (`Tables`).
- A column label is a plain name or a label with a role suffix.
- A missing cell reads as `Null`.
- Row positions are the index: every indexed table in the pipeline is
  reindexed densely first.

**Errors.** Each Python exception the code lets escape (`KeyError`,
`IndexError`, `TypeError`, `ValueError`, `AttributeError`) is an `Err` value
of `Results`. Every `try/except` of the source is modelled as the branch it
takes.

**Parameters.** Some inputs are parameters rather than fixed values:
- the calendar year the program runs in (`data_clean.py:25`), which the
  cleaning compares with the year being processed, in the dataset and the
  bracket pipeline alike;
- the alias dictionaries;
- the round-name dictionaries;
- the fitted scaler;
- the classifier.

**Deduplicating a round.** `Rounds.DedupePairs` drops duplicates on the
ordered pair (`Team`, `Team.1`) and keeps the first, as `data_clean.py:214`
and `:218` do.

**Modules.** One Dafny module per concern:
- `Results`: results and errors.
- `Text`: Python string behaviour.
- `Tables`: DataFrame operations.
- `Dedupe`: `drop_duplicates`.
- `Framing`: favorite/underdog framing, both revisions.
- `Outcomes`: next round, winners, target.
- `Features`: feature engineering.
- `Cleaning`: `data_clean.py` up to `clean_tourney_data`.
- `Merge`: `data_merge.py`.
- `Rounds`: bookkeeping between rounds.
- `Pipeline`: `data_pipeline.py`.
- `Fetch`: row building in `data_fetch.py`.
- `Evaluation`: `model_evaluation.py`.

## Model

| member | source | states |
|---|---|---|
| Text.Show | API/preprocess/feature_engineering.py:213 | An integer as numpy writes it into a text array: a non-empty digit string with no leading zero. |
| Text.ParseShow | API/preprocess/data_pipeline.py:265 | Reading the decimal text of a natural number back gives that number. |
| Text.ParseInt | API/preprocess/data_pipeline.py:265 | The integer parse behind `astype(int)` on text succeeds exactly on a non-empty run of ASCII digits, optionally preceded by `-`. |
| Text.ParseIntText | API/preprocess/data_pipeline.py:265 | Casting the text numpy wrote for an integer back with `astype(int)` gives the integer again: a round trip. |
| Text.DigitPrefix | API/fetch/data_fetch.py:168 | The longest leading run of digits: all digits, followed by a non-digit or the end. |
| Text.DigitRunsSkip | API/fetch/data_fetch.py:168-169 | `re.findall(r'\d+')` ignores digit-free text in front of the first number. |
| Text.DigitRunsShow | API/fetch/data_fetch.py:168-169 | A number written in decimal at the front is the first match, and matching resumes after it. |
| Text.DigitRunsRender | API/fetch/data_fetch.py:168-169 | Numbers written between digit-free separators are read back, in order, as exactly those numbers. |
| Text.LexLessEqualLength | API/preprocess/feature_engineering.py:252 | On digit strings of equal length, Python's string `<` agrees with numeric `<`, in both directions. |
| Text.LexLessMisordersScores | API/preprocess/feature_engineering.py:252 | As strings "100" sorts before "99", although 100 > 99. |
| Text.AbsentLeadNotContained | API/preprocess/feature_engineering.py:255 | A text lacking the first character of `sub` does not contain `sub`. |
| Text.Strip | data_clean.py:145 | `str.strip()`: the text between a whitespace-only prefix and a whitespace-only suffix, beginning and ending with a non-space. |
| Text.DropLast | data_merge.py:36 | `s[:-n]`: all but the last `n` characters, or the empty text when `s` is shorter. |
| Text.HalveDoubled | data_clean.py:145 | A name the scrape wrote twice, `w + w`, is restored to `w` stripped. |
| Text.HalveShort | data_clean.py:145 | A one-character name halves to the empty text. |
| Tables.Lookup | API/preprocess/feature_engineering.py:119 | `df[c]` is the column's cells, in row order; a missing label raises KeyError naming it. |
| Tables.Assign | API/preprocess/feature_engineering.py:119 | `df[c] = vals`: an existing label keeps its place, a new one is appended; row `i` gets `vals[i]` under `c`, and nothing else changes. |
| Tables.Drop | API/preprocess/feature_engineering.py:121 | `drop(cs, axis=1)` raises exactly when some label is missing. It otherwise removes those labels and keeps every other cell. |
| Tables.Select | API/preprocess/data_pipeline.py:275 | `df[cs]` succeeds exactly when every label exists and none repeats, and holds those cells under those labels. |
| Tables.RenameCol | data_clean.py:179-184 | Renaming `a` to `b` fails exactly when it would put two columns under `b`. Otherwise `b` takes `a`'s place and cells, and other cells stay. |
| Tables.ConcatRows | API/preprocess/data_pipeline.py:197 | `pd.concat([a, b], ignore_index=True)`: `a`'s rows then `b`'s, labels of `b` not in `a` appended. |
| Tables.ConcatAll | data_clean.py:263-264 | Stacking frames gives as many rows as they hold together. |
| Tables.ConcatAllRow | data_clean.py:263-264 | Row `j` of frame `k` lands after the rows of every earlier frame. |
| Tables.ConcatCols | data_clean.py:208 | `pd.concat(axis=1)` on dense indexes fails exactly on a shared label. Its rows number the longer side's, and each cell comes from its side at the same position. |
| Tables.ConcatColsLeft | data_clean.py:208 | A left cell of the side-by-side frame is the left frame's cell in the same row. |
| Tables.ConcatColsRight | data_clean.py:208 | A right cell of the side-by-side frame is the right frame's cell in the same row. |
| Tables.FilterRows | data_clean.py:49-52 | A boolean row filter keeps exactly the rows that satisfy it. |
| Tables.FilterRowsAppend | data_clean.py:49-52 | Filtering distributes over stacked rows. |
| Tables.FilterRowsTwice | data_clean.py:49-52 | Two filters in a row are one filter on the conjunction. |
| Tables.Lt | API/preprocess/feature_engineering.py:77 | Python `<`: numeric on integers, lexicographic on strings. |
| Tables.ScalarEqOnCells | feature_engineering.py:9 | Python's `==` on two scalars from a row agrees with pandas' element-wise `==` except on two missing cells, which it counts as equal. |
| Tables.Sub | API/preprocess/feature_engineering.py:119 | Column subtraction fails on text. It gives the numeric difference of numbers, and a missing cell on either side gives a missing cell. |
| Tables.SubAll | API/preprocess/feature_engineering.py:119 | Element-wise subtraction succeeds exactly when every pair does, and holds each difference. |
| Tables.NumpyArray | API/preprocess/feature_engineering.py:101-104 | `np.array` of side rows keeps the shape. One text cell with no missing cell turns every integer into its decimal text. |
| Tables.CastInt | API/preprocess/data_pipeline.py:265 | `astype(int)` yields an integer and leaves integers as they are. |
| Tables.CastIntText | API/preprocess/data_pipeline.py:265 | An integer turned into text by a numpy array is cast back to the same integer. |
| Tables.CastAll | API/preprocess/data_pipeline.py:265 | A column cast succeeds exactly when every cell casts, and holds each cast cell. |
| Dedupe.FirstMask | data_clean.py:214 | `~duplicated(keep='first')`: a record is kept exactly when no earlier record has its key. |
| Dedupe.LastMask | API/fetch/data_fetch.py:106 | `~duplicated(keep='last')`: a record is kept exactly when no later record has its key. |
| Dedupe.KeepFirst | data_clean.py:214 | After `keep='first'` no two records share a key, and every key of the input is still represented. |
| Dedupe.KeepLast | API/fetch/data_fetch.py:106 | After `keep='last'` no two records share a key, and every key of the input is still represented. |
| Dedupe.KeepFirstSelects | data_clean.py:214 | The survivors of `keep='first'` are exactly the first records of their key, in input order. |
| Dedupe.KeepLastSelects | API/fetch/data_fetch.py:106 | The survivors of `keep='last'` are exactly the last records of their key, in input order. |
| Dedupe.KeepLastAt | API/model/model_evaluation.py:119 | Every survivor of `keep='last'` is an input record that no later record shares a key with. |
| Dedupe.KeptFrom | API/model/model_evaluation.py:119 | Survivors are records of the input. |
| Dedupe.FirstOccurrence | data_clean.py:214 | Every record's key has a first occurrence at or before it, which `keep='first'` keeps. |
| Dedupe.LastOccurrence | API/fetch/data_fetch.py:106 | Every record's key has a last occurrence at or after it, which `keep='last'` keeps. |
| Dedupe.KeepFirstAligned | data_clean.py:214-218 | Two tables that agree on the key at every position lose the same positions. |
| Framing.Cells | API/preprocess/feature_engineering.py:68-74 | A side is `[seed, team, score]` when the frame has scores, and `[seed, team]` when the `Score` lookup raises KeyError. |
| Framing.WinPct | API/preprocess/feature_engineering.py:89-90 | `float(...)` of a team's W-L% needs exactly one matching season row, otherwise TypeError. |
| Framing.FrameRow | API/preprocess/feature_engineering.py:65-98 | One game: a missing game label raises KeyError. Both sides carry a score exactly when the frame has scores. The pair is the game's two sides, in one order or the other. |
| Framing.SeedsDecide | API/preprocess/feature_engineering.py:77-98 | The strictly lower seed is the favorite. On equal seeds `Team` is the favorite exactly when its W-L% is strictly greater, so a tie makes `Team.1` the favorite. |
| Framing.FavoriteSeedNotWorse | API/preprocess/feature_engineering.py:77-84 | With integer seeds the favorite's seed is never larger than the underdog's. |
| Framing.FrameRows | API/preprocess/feature_engineering.py:65-98 | Framing every game succeeds exactly when each game does, keeps game order, and fails with a game's error. |
| Framing.FavCells | API/preprocess/feature_engineering.py:102 | The favorites' rows handed to numpy are each game's favorite side. |
| Framing.UndCells | API/preprocess/feature_engineering.py:103 | The underdogs' rows handed to numpy are each game's underdog side. |
| Framing.Frame | API/preprocess/feature_engineering.py:48-106 | `create_faves_underdogs`: one favorite and one underdog array row per game, in game order. It succeeds exactly when every game frames. |
| Framing.FavoriteCell | API/preprocess/feature_engineering.py:101-104 | A favorite's array cell is its own cell, rendered as text when the array holds text and no missing cell. |
| Framing.FrameRowEarlier | feature_engineering.py:8-26 | The earlier revision always reads scores, and its pair is the game's two sides in one order or the other. The seeds are compared with Python's scalar `==`, and on equal seeds the season's School is read before the game's `Team`. |
| Framing.FrameRowsEarlier | feature_engineering.py:8-26 | The earlier revision over every game, in order, succeeding exactly when each game does. |
| Framing.FrameEarlier | feature_engineering.py:5-33 | `teams_to_faves_underdogs`: one favorite and one underdog per game, succeeding exactly when each game frames. |
| Framing.EarlierEqualSeedsUseRecords | feature_engineering.py:9-18 | On equal seeds, two missing seeds included, `Team` is the favorite exactly on a strictly better W-L%, and only the records can fail. |
| Framing.EarlierMissingSeedsUseRecords | feature_engineering.py:9-18 | Two `None` seeds are equal under `==`, so the records decide; the element-wise comparison would instead have raised TypeError on `None > None`. |
| Framing.EarlierReadsSchoolFirst | feature_engineering.py:10 | On equal seeds a season table without School raises KeyError on School, before the game's `Team` is read. |
| Framing.EarlierReadsUnderdogFirst | feature_engineering.py:20-22 | With `Seed.1 > Seed` the underdog's `.1` cells are read first, so a game lacking both scores raises KeyError on `Score.1`. |
| Framing.EarlierSeedsDecide | feature_engineering.py:20-26 | The earlier revision makes `Team` the favorite on `Seed.1 > Seed`, and `Team.1` on `Seed.1 < Seed`. |
| Framing.RevisionsAgreeOnRow | feature_engineering.py:9-26 | On a scored game with numeric seeds, the earlier and newer framings of a game coincide. |
| Framing.RowsAgree | feature_engineering.py:8-26 | On scored games with numeric seeds, both revisions frame every game the same way. |
| Framing.RevisionsAgree | feature_engineering.py:5-33 | On scored games with numeric seeds, both revisions build the same two arrays. |
| Outcomes.TeamAt | API/preprocess/feature_engineering.py:208 | `matchups.iloc[i, k]` succeeds exactly for an integer `k` in -2..1, reading `Team` on even and `Team.1` on odd positions. |
| Outcomes.GameWinner | API/preprocess/feature_engineering.py:205-210 | A game's winner is a seed and a team; without `Underdog_Upset` it raises KeyError. |
| Outcomes.GameWinnerFlag | API/preprocess/feature_engineering.py:206-208 | On a 0/1 flag the winner is exactly the flagged side: `Seed`/`Team` on 0, `Seed.1`/`Team.1` on 1. |
| Outcomes.GameWinnerBadFlag | API/preprocess/feature_engineering.py:208 | An integer flag outside -2..1 raises IndexError, and a non-integer flag raises TypeError. |
| Outcomes.Winners | API/preprocess/feature_engineering.py:205-210 | The winners list has one entry per game, in order, and fails exactly when some game does. |
| Outcomes.PairUp | API/preprocess/feature_engineering.py:213 | The reshape makes winners `2j` and `2j + 1` meet in row `j`, in that order. |
| Outcomes.CreateBracketRound | API/preprocess/feature_engineering.py:187-216 | The next round succeeds exactly when both team labels exist, every game has a winner and the count is even. It has half as many games as the previous round. |
| Outcomes.NextRoundRow | API/preprocess/feature_engineering.py:213-214 | Next-round row `j` holds, coerced as the array holds them, the winners of games `2j` and `2j + 1`. |
| Outcomes.PlainWinners | API/preprocess/feature_engineering.py:205-210 | On a round with 0/1 flags, seeds that cast to integers (numbers or numpy's decimal text) and text names, every game's winner is its flagged side, and the winners hold no null. |
| Outcomes.NextRoundOfPlainRound | API/preprocess/feature_engineering.py:205-214 | On a plain round of even size, game `2j`'s winner meets game `2j + 1`'s. The names are kept, and each seed casts to the same integer as its winner's seed. |
| Outcomes.TextSeedIsSeed | API/preprocess/feature_engineering.py:213 | The decimal text numpy writes for a seed is a seed a plain round accepts, and casts back to that seed. |
| Outcomes.CastCoerced | API/preprocess/feature_engineering.py:213 | Casting a winners' cell after the text array coerced it gives the same result as casting the cell itself. |
| Outcomes.OddRoundFails | API/preprocess/feature_engineering.py:213 | An odd number of games cannot be reshaped and raises ValueError. |
| Outcomes.WinnerCell | API/preprocess/feature_engineering.py:231 | A game's winner is its underdog or its favorite team; without the flag it raises KeyError. |
| Outcomes.WinnerCells | API/preprocess/feature_engineering.py:230-232 | One winner per bracket row, in order, failing exactly when some row does. |
| Outcomes.CreateBracketWinners | API/preprocess/feature_engineering.py:219-235 | The bracket gains a `Winner` column and keeps its rows; an empty bracket cannot fail. |
| Outcomes.BracketWinner | API/preprocess/feature_engineering.py:230-235 | A row's winner is `Team_Underdog` exactly when the flag equals 1, otherwise `Team_Favorite`, and the rest of the row is kept. |
| Outcomes.ScoreCols | API/preprocess/feature_engineering.py:255 | Exactly the labels whose text contains `Score`. |
| Outcomes.Bits | API/preprocess/feature_engineering.py:252 | `astype(int)` of booleans: 1 exactly where the comparison held. |
| Outcomes.CompareAll | API/preprocess/feature_engineering.py:252 | The column comparison holds one result per game and fails exactly when a cell comparison does, never with KeyError. |
| Outcomes.Target | API/preprocess/feature_engineering.py:238-258 | A missing `Score_Underdog` raises KeyError. Otherwise there is one label per game, and every label containing `Score` is gone from the rest. |
| Outcomes.TargetLabel | API/preprocess/feature_engineering.py:252 | A game's label is 1 exactly when the underdog's score is greater under the chosen comparison. |
| Outcomes.TargetAsWrittenIsTextual | API/preprocess/feature_engineering.py:252 | As written, on text scores the label is 1 exactly when the underdog's score is the greater string. |
| Outcomes.ComparisonsAgreeOnEqualWidths | API/preprocess/feature_engineering.py:252 | On decimal scores with the same number of digits, the text and the numeric comparison agree. |
| Outcomes.TargetsAgreeOnEqualWidths | API/preprocess/feature_engineering.py:252 | So on such games the as-written and the numeric labels are equal. |
| Outcomes.ComparisonsOnUpsetByOne | API/preprocess/feature_engineering.py:252 | "100" > "99" is false as text and true as numbers. |
| Outcomes.TargetMislabelsUpsetByOne | API/preprocess/feature_engineering.py:252 | A 100 to 99 underdog win is labelled 0 as written and 1 by the numeric comparison. |
| Features.PointsLabelsDiffer | API/preprocess/feature_engineering.py:118-121 | The differential labels of one side never clash with the source labels of either side. |
| Features.DiffRows | API/preprocess/feature_engineering.py:119-121 | Row by row, the difference is written under `n` and the two source cells go. It fails exactly when some row's subtraction does. |
| Features.Differential | API/preprocess/feature_engineering.py:119-121 | `t[n] = t[a] - t[b]` then `drop([a, b])`. A missing `a` raises first, then a missing `b`. The result's labels are the old ones plus `n`, minus `a` and `b`. |
| Features.DifferentialOrder | API/preprocess/feature_engineering.py:119-121 | Labels keep their order, and a new `n` comes last. |
| Features.DifferentialCell | API/preprocess/feature_engineering.py:119-121 | Each row holds the difference under `n`, nothing under `a` and `b`, and every other cell unchanged. |
| Features.DifferentialByPartsCols | API/preprocess/feature_engineering.py:119-121 | The labels equal assigning the difference column and dropping the pair with the general table operations. |
| Features.DifferentialByParts | API/preprocess/feature_engineering.py:119-121 | The cells equal assigning the difference column and dropping the pair with the general table operations. |
| Features.AssignedCell | API/preprocess/feature_engineering.py:119 | After `df[n] = d`, row `i` holds `d[i]` under `n` and its old cell elsewhere. |
| Features.DroppedPairCell | API/preprocess/feature_engineering.py:121 | Dropping two present labels empties their cells and keeps the rest. |
| Features.PointsDifferentials | API/preprocess/feature_engineering.py:109-121 | The favorite side is converted before the underdog side. A missing `Tm./Game_Favorite` raises KeyError, and the rows are kept. |
| Features.PointsDifferentialsCell | API/preprocess/feature_engineering.py:118-121 | Each row gains both sides' `Tm./Game - Opp./Game` differentials, and every other cell is kept. |
| Features.PointsDifferentialsCols | API/preprocess/feature_engineering.py:118-121 | The four per-game point labels are replaced by the two differential labels. |
| Features.PointsDifferentialsOnce | API/preprocess/feature_engineering.py:118-121 | A second pass raises KeyError on `Tm./Game_Favorite`: the conversion cannot be applied twice. |
| Features.ReplaceCells | API/preprocess/feature_engineering.py:134 | `Series.replace(m)` swaps exactly the cells that are keys of `m`. |
| Features.ConvertRounds | API/preprocess/feature_engineering.py:124-134 | A missing Round raises KeyError. A text Round is mapped to numbers, a numeric one to names, and nothing else changes. |
| Features.RoundsRoundTrip | API/preprocess/feature_engineering.py:124-134 | When the two dictionaries are inverse on the round names, converting twice restores the table. |
| Features.Uniq | API/preprocess/feature_engineering.py:146 | The set of bases: each element once, nothing added or lost. |
| Features.BaseAll | API/preprocess/feature_engineering.py:146 | Every label with its `_Underdog`/`_Favorite` suffixes removed. |
| Features.RelBases | API/preprocess/feature_engineering.py:146-148 | The bases made relative: distinct, each the base of some label, and never Round, Seed or Underdog_Upset. |
| Features.RelativeFold | API/preprocess/feature_engineering.py:151-154 | The conversion loop keeps the rows. |
| Features.RelativeFoldNeedsSides | API/preprocess/feature_engineering.py:152 | The loop succeeds only when every base has both its side columns. |
| Features.RelStepKeepsSides | API/preprocess/feature_engineering.py:151-154 | One base's step leaves the other bases' sides present and numeric. |
| Features.RelStepCell | API/preprocess/feature_engineering.py:151-154 | One base's step leaves the other bases' side cells as they were. |
| Features.RelativeFoldSucceeds | API/preprocess/feature_engineering.py:151-154 | Distinct bases whose two sides are present and numeric always convert. |
| Features.RelativeFoldKeeps | API/preprocess/feature_engineering.py:151-154 | Cells under labels the loop does not touch are kept. |
| Features.RelativeFoldKeepsCol | API/preprocess/feature_engineering.py:151-154 | Labels the loop does not touch stay in the table. |
| Features.RelativeFoldCols | API/preprocess/feature_engineering.py:151-154 | Afterwards every base has its `Underdog_Rel_` label and has lost both side labels. |
| Features.RelativeFoldKeepsPlain | API/preprocess/feature_engineering.py:151-154 | The loop never removes a plain label. |
| Features.RelativeFoldGone | API/preprocess/feature_engineering.py:151-154 | The loop never adds a side label. |
| Features.RelativeFoldWrites | API/preprocess/feature_engineering.py:152 | Each relative column holds underdog minus favorite, when no other base spells the same relative label. |
| Features.UnderdogRelative | API/preprocess/feature_engineering.py:137-154 | It succeeds only when every base has both sides, and always when those sides are numeric; rows are kept. |
| Features.RelColNotPlain | API/preprocess/feature_engineering.py:148-152 | No relative label is spelled Round or Underdog_Upset. |
| Features.UnrelatedUntouched | API/preprocess/feature_engineering.py:148 | Round, both seeds and the target are never rewritten. |
| Features.UnpairedColumnRaises | API/preprocess/feature_engineering.py:146-152 | A plain label with no side partner, other than the excluded ones, makes the conversion raise. |
| Features.ScaledRow | API/preprocess/feature_engineering.py:176-177 | A scaled row holds the scaler's value under every scaled label, and nothing else. |
| Features.Rescale | API/preprocess/feature_engineering.py:181-182 | The scaler's output framed with the original labels and row positions. |
| Features.ScaleFeatures | API/preprocess/feature_engineering.py:157-184 | Every label but the target is scaled, and the target is reattached last, with rows kept. Without a target the whole frame is scaled. |
| Features.ScaleFeaturesCell | API/preprocess/feature_engineering.py:174-182 | The target keeps its values, and every feature cell is a scaled number. |
| Features.ScaledTargetCell | API/preprocess/feature_engineering.py:178 | The reattached target keeps each row's value. |
| Features.ScaledFeatureCell | API/preprocess/feature_engineering.py:175-177 | Every feature cell after scaling is a number. |
| Cleaning.FormattingCols | data_clean.py:42-43 | Exactly the labels containing `Unnamed`, `W.` or `L.`, in column order. |
| Cleaning.CleanBasicStats | data_clean.py:42-54 | The drop raises KeyError when a dropped label is missing. It otherwise keeps the other labels, and only statistics rows of NCAA teams. |
| Cleaning.BasicStatsRows | data_clean.py:49-52 | A row survives exactly when it is no repeated header and its School contains `NCAA`. |
| Cleaning.CoachRows | data_clean.py:88-91 | Every coach row keeps its labels, and each cell becomes its cleaned value. |
| Cleaning.CoachRowCells | data_clean.py:88-91 | A cleaned row has the same labels, each cell cleaned. |
| Cleaning.CleanCoachStats | data_clean.py:74-93 | It fails exactly when Coach_Team is missing (KeyError). Otherwise it keeps labels and rows, aliases the team names and fills blanks after the first column with '0'. |
| Cleaning.CoachBlanksFilled | data_clean.py:88-91 | No column after the first holds a blank afterwards. The first column changes only by the alias table, and only when it is Coach_Team. |
| Cleaning.HalveAll | data_clean.py:145 | Halving a column fails with TypeError exactly when a cell is not text, and otherwise halves every cell. |
| Cleaning.HalveCol | data_clean.py:144-145 | Halving one label fails exactly when it is missing or holds non-text. Otherwise it halves that label's cells and keeps the others. |
| Cleaning.HalveNames | data_clean.py:143-145 | Round, Team and Team.1 are halved; a missing Round raises KeyError first. |
| Cleaning.HalveNamesCell | data_clean.py:143-145 | Every name cell is halved, and all other cells are kept. |
| Cleaning.HalveThreeCell | data_clean.py:144-145 | Halving three distinct labels in turn halves exactly their cells. |
| Cleaning.HalveNamesDoubled | data_clean.py:145 | A name scraped as `w + w` is restored to `w` stripped. |
| Cleaning.ArrayColumn | data_clean.py:155-157 | `arr[:, j]` exists exactly when the array is non-empty and every row is long enough, and then is column `j`. |
| Cleaning.Put | data_clean.py:155 | `df[c] = vals` cell by cell: `c` gets the values, and everything else stays. |
| Cleaning.AddSide | data_clean.py:152-157 | Each available array column becomes its `<Seed or Team or Score>_<role>` column. An unavailable one is skipped, and other cells stay. |
| Cleaning.AddSides | data_clean.py:151-157 | Adding the favorite's then the underdog's columns keeps the rows. |
| Cleaning.BitCells | API/preprocess/feature_engineering.py:252 | The target's 0/1 values as integer cells. |
| Cleaning.WithTarget | data_clean.py:158-162 | Without both score labels the table passes unchanged. Otherwise the target is attached after the score labels are dropped, using the numeric comparison. |
| Cleaning.CleanTourneyData | data_clean.py:125-168 | Past years without Round raise KeyError; rows are kept, and the raw `Seed`, `Team`, `Seed.1`, `Team.1` labels are gone. |
| Cleaning.SeedLabelScoreFree | data_clean.py:155 | The side seed labels never contain `Score`, so the score drop spares them. |
| Cleaning.TeamLabelScoreFree | data_clean.py:155 | Neither the side team labels nor `Underdog_Upset` contain `Score`. |
| Cleaning.AddedValue | data_clean.py:152-157 | The labels written for a side are one per array column that does not raise. |
| Cleaning.FramedWidth | API/preprocess/feature_engineering.py:68-74 | The arrays have three columns when games carry scores, two otherwise, and none when empty. |
| Cleaning.Sided | data_clean.py:143-157 | The sided table exists only when naming and framing succeed. |
| Cleaning.CleanTourneyBySides | data_clean.py:143-166 | The cleaned games are the sided table with its target attached and the raw game labels dropped. |
| Cleaning.AddSidesCol | data_clean.py:151-157 | A label is in the sided table exactly when it was already there or was written for a side. |
| Cleaning.AddedOfWidth | data_clean.py:152-157 | A side's array of width 2 or 3 writes its seed and team, and its score exactly when the width is 3. |
| Cleaning.SidesCol | data_clean.py:151-157 | With games present a label is sided exactly when it is a game label or a side's seed or team, or a side's score when scored. |
| Cleaning.SidedCol | data_clean.py:143-157 | The same membership stated for the whole reframing step. |
| Cleaning.TourneyColsScored | data_clean.py:143-168 | With scores, the cleaned games carry both sides' seed and team and the target, and no score label. |
| Cleaning.TargetedLabels | data_clean.py:158-166 | Once the target replaces the scores and the raw labels go, both sides' seed and team remain, the target remains, and nothing contains `Score`. |
| Cleaning.NoScoreSurvives | API/preprocess/feature_engineering.py:255-256 | No label containing `Score` survives the target step. |
| Cleaning.UpsetSurvivesDrop | data_clean.py:165-166 | Dropping the raw game labels keeps `Underdog_Upset`. |
| Cleaning.SeedAndTeamSurvive | data_clean.py:165-166 | Dropping the raw game labels keeps each side's seed and team. |
| Cleaning.SideSurvives | data_clean.py:159-166 | A side label written by the reframing survives the target step and the raw drop. |
| Cleaning.UnscoredSidedLacks | data_clean.py:151-162 | Without scores no underdog score and no target are written. |
| Cleaning.TourneyColsUnscored | data_clean.py:143-168 | Without scores, the cleaned games carry both sides' seed and team and no target. |
| Merge.Partners | data_merge.py:32 | The right rows whose key matches, each as often as it occurs. |
| Merge.Overlap | data_merge.py:107 | The labels suffixed: present on both sides, except a key shared by name. |
| Merge.Relabel | data_merge.py:107 | Overlapping labels take the side's suffix, and the others keep their name. |
| Merge.MakePlan | data_merge.py:107 | The output labels: the left's, then the right's not merged into a shared key, each suffixed when overlapping. |
| Merge.JoinRows | data_merge.py:32 | An output row holds the left row's cells under the left labels and the right row's under the right labels, and nothing else. |
| Merge.Pairs | data_merge.py:32 | The joined rows number the matching pairs, and are exactly the joins of pairs with equal keys. |
| Merge.MergeTables | data_merge.py:102-108 | `pd.merge` raises KeyError for a missing key, the left's first, and MergeError when suffixes collide. Otherwise the output has the planned labels and one row per matching pair. |
| Merge.MergeRowsAreMatches | data_merge.py:32 | A row is in the output exactly when it joins a left and a right row with matching keys. |
| Merge.UnmatchedContributesNothing | data_merge.py:32 | An unmatched left row adds no row and does not raise: the join is inner. |
| Merge.NoOverlapNoSuffix | data_merge.py:57-58 | Without shared labels nothing is suffixed. |
| Merge.CutTags | data_merge.py:36 | Every School loses its last five characters; a non-text cell raises TypeError. |
| Merge.CutUndoesTag | data_merge.py:36 | Cutting five characters undoes the scraper's ` NCAA` tag exactly. |
| Merge.TagContains | data_merge.py:35 | A tagged name contains `NCAA`. |
| Merge.StripTags | data_merge.py:34-36 | Without School it raises KeyError, and on a column without text AttributeError. With no tag the table is unchanged; with one, every School is cut. |
| Merge.MergeTeamStats | data_merge.py:16-38 | The basic and advanced tables joined on School, with the join's labels and one row per matching pair. |
| Merge.MergeRankings | data_merge.py:41-60 | Joined on School = Team, `Team` then dropped, one row per matching pair. |
| Merge.MergeCoaches | data_merge.py:63-83 | Joined on School = Coach_Team, `Coach_Team` then dropped, one row per matching pair. |
| Merge.MergeFavorites | data_merge.py:102-103 | The favorite's season data beside each matchup, School dropped. |
| Merge.MergeTourneyGames | data_merge.py:86-110 | Both teams' season data beside each matchup, with the second join's labels minus School. |
| Merge.MatchedPairs | data_merge.py:102-108 | Joining the paired rows again counts, per left row, the product of its two match counts. |
| Merge.UnderdogLabelCarried | data_merge.py:102-103 | `Team_Underdog` reaches the second join unsuffixed, at its own position. |
| Merge.TourneyRowCount | data_merge.py:102-108 | One output row per matchup, favorite season row and underdog season row that all match. |
| Rounds.RenameEach | data_clean.py:179-184 | Renaming pair by pair keeps the rows. |
| Rounds.RenamedFresh | data_clean.py:179-184 | A label that is not a rename source stays where it is. |
| Rounds.RenameEachMaps | data_clean.py:179-184 | The renames fail exactly when a source and its target are both present. Otherwise every label moves under its target, cells included. |
| Rounds.RenamedAt | data_clean.py:179-184 | A label goes under the target of the first pair naming it. |
| Rounds.RenamedCases | data_clean.py:179-184 | A label is either a source and goes to its target, or no source and stays. |
| Rounds.RenamedBack | data_clean.py:179-184 | Swapping every pair undoes the renames. |
| Rounds.RenameEachUndo | data_clean.py:179-184 | Renaming back restores a table that held no target label: same labels, order and cells. |
| Rounds.RoundRenamesFresh | data_clean.py:179-184 | No target of the four scraped-to-plain renames is itself renamed, so pair-by-pair renaming equals pandas' all-at-once rename. |
| Rounds.CleanRoundCols | data_clean.py:171-184 | The four side labels become `Seed`, `Team`, `Seed.1`, `Team.1`, refused exactly on a clash. Label order and cells are kept. |
| Rounds.RoundNames | data_clean.py:179-184 | Where each side label goes, and that no other label moves. |
| Rounds.CleanRoundColsUndone | data_clean.py:179-184 | Renaming back restores a table that held none of the scraped labels. |
| Rounds.Aligned | data_clean.py:207 | A column of another table laid against the rows by position, missing past its end. |
| Rounds.PutAligned | data_clean.py:207 | `t[cs] = src[cs]` keeps the rows and the old labels in front, adding `cs`. |
| Rounds.PutAlignedCell | data_clean.py:207 | Cells under `cs` come from `src` at the same position; all others are kept. |
| Rounds.DedupePairs | data_clean.py:214-215 | The dedupe succeeds exactly when both pair labels exist, and keeps the first row of each ordered pair. |
| Rounds.Relabelled | data_clean.py:206-211 | Missing seeds in the merged data raise KeyError. |
| Rounds.CleanCurrRoundData | data_clean.py:187-221 | Seeds come from the merged data; predictions and features sit side by side under the scraped labels. Both tables are deduplicated on the ordered team pair, keeping the first. |
| Rounds.RelabelledTeams | data_clean.py:208-211 | A relabelled row takes its teams, under `Team`/`Team.1`, from the predictions at the same position. |
| Rounds.RelabelledSeeds | data_clean.py:207-211 | A relabelled row takes its seeds from the merged data at the same position. |
| Rounds.SeedsJoined | data_clean.py:207-208 | Before the renames the seeds sit under the side labels. |
| Rounds.CurrRoundAligned | data_clean.py:213-219 | When predictions cover every feature row, the two cleaned tables have equal length and the same matchup at each position. |
| Rounds.RelabelledPairs | data_clean.py:208-211 | Before the dedupe each row carries the summary's team pair at the same position. |
| Rounds.DedupeAligned | data_clean.py:214-218 | Tables agreeing on the team pair at every position keep the same positions. |
| Rounds.NullRows | data_clean.py:235 | Exactly the positions of rows holding a missing cell, in increasing order. |
| Rounds.PlayinWinner | data_clean.py:239-240 | The flag is read first (KeyError). Flag 0 gives `Seed`/`Team`, anything else `Seed.1`/`Team.1`, and it succeeds when all labels exist. |
| Rounds.Place | data_clean.py:243-244 | Writing a winner keeps the rows and adds `Seed.1`/`Team.1` when missing. |
| Rounds.FillFrom | data_clean.py:237-244 | The loop keeps rows and labels. With every winner decided, it raises IndexError exactly when there are more winners than null rows. |
| Rounds.FillPlayin | data_clean.py:224-244 | It raises exactly when play-in games outnumber first-round null rows; rows and labels are kept. |
| Rounds.FillFromKeeps | data_clean.py:237-244 | A row no remaining winner targets is left as it was. |
| Rounds.FillFromWrites | data_clean.py:243-244 | Winner `j` lands in `Seed.1`/`Team.1` of row `nulls[j]`. |
| Rounds.FillFromCells | data_clean.py:243-244 | No cell outside `Seed.1` and `Team.1` changes. |
| Rounds.PlayinWinnerPlaced | data_clean.py:237-244 | Play-in winner `j` fills `Seed.1`/`Team.1` of the `j`-th first-round row with a missing cell. |
| Rounds.PlayinKeepsCompleteRows | data_clean.py:235-244 | A first-round row without a missing cell is untouched. |
| Rounds.PlayinKeepsSpareRows | data_clean.py:237-244 | Null rows beyond the play-in games are untouched. |
| Rounds.PlayinKeepsCells | data_clean.py:243-244 | Only `Seed.1` and `Team.1` change. |
| Rounds.Tail | data_clean.py:268 | `iloc[:, 1:]`: every label but the first, cells kept. |
| Rounds.Front | data_clean.py:268 | The two seed series and the favorite series side by side, padded to the longer length. |
| Rounds.Assemble | data_clean.py:267-270 | The side-by-side bracket raises KeyError without `Seed` in the matchups. Its labels are the three series then the rest of the results, with the longer side's row count. |
| Rounds.AssembleRow | data_clean.py:267-270 | Row `i` takes its seeds from the matchups and its favorite from the results at position `i`. |
| Rounds.AssembleTail | data_clean.py:268 | The remaining result cells of row `i` come from the results at position `i`. |
| Rounds.CleanBracket | data_clean.py:247-281 | No rounds raises ValueError. The labels are the two renamed seeds, the favorite, then the rest; there are as many rows as the longer stack. |
| Rounds.RenameSeeds | data_clean.py:273-276 | `Seed`/`Seed.1` become `Seed_Favorite`/`Seed_Underdog`, rows kept. |
| Rounds.RenameSeedsCell | data_clean.py:273-276 | The renames move the seed cells and keep every other cell. |
| Rounds.SeedsRenamed | data_clean.py:273-276 | On the assembled bracket's leading labels, the two seed renames give `Seed_Favorite`, `Team_Favorite`, `Seed_Underdog`. |
| Rounds.BracketByParts | data_clean.py:263-279 | The bracket is the seed-renamed, round-converted assembly of the stacked tables. |
| Rounds.ConvertKeeps | API/preprocess/feature_engineering.py:134 | Converting the rounds changes no cell but the round's. |
| Rounds.BracketRow | data_clean.py:263-270 | Bracket row `i` holds the favorite's seed and team and the underdog's seed from position `i` of the stacks. |
| Rounds.BracketResult | data_clean.py:263-279 | Every other result cell, the round aside, is the stacked results' cell at position `i`. |
| Rounds.BracketRound | data_clean.py:279 | The round of row `i` is the stacked results' round, named when the column is numeric and numbered when it is text. |
| Rounds.NamedRound | data_clean.py:268-276 | After the seed renames the round column is the stacked results' round, padded. |
| Pipeline.Reclassified | API/preprocess/data_pipeline.py:215-219 | The Round conversion is applied when Round exists. Otherwise the table passes unchanged, with the KeyError swallowed. Other cells never change. |
| Pipeline.FeaturePipeline | API/preprocess/data_pipeline.py:202-230 | The rows are kept, and the model's input is the scaled engineered frame with the target last. A missing `Tm./Game_Favorite` raises KeyError. |
| Pipeline.PointsKeep | API/preprocess/data_pipeline.py:222 | The points step keeps the seeds and the target, label and cells. |
| Pipeline.RelativeKeep | API/preprocess/data_pipeline.py:225 | The relative step keeps the seeds and the target, label and cells. |
| Pipeline.FeatureFrameKeeps | API/preprocess/data_pipeline.py:215-225 | Seeds and target pass through feature engineering untouched. |
| Pipeline.FeatureTarget | API/preprocess/data_pipeline.py:215-230 | A labelled frame's target is the last model column and keeps every row's value. |
| Pipeline.ScaledTarget | API/preprocess/data_pipeline.py:228 | Scaling puts the target last and keeps its cells. |
| Pipeline.IntSeeds | API/preprocess/data_pipeline.py:265 | The seed cast succeeds exactly when both seed labels exist and every seed casts. It casts each seed and keeps everything else. |
| Pipeline.Summary | API/preprocess/data_pipeline.py:274-276 | The round's team pair per game with the round number, succeeding exactly when both team labels exist. |
| Pipeline.MergedRound | API/preprocess/data_pipeline.py:259-271 | Reading a round not yet stored raises IndexError. |
| Pipeline.PastYearGeneratedRoundFails | API/preprocess/data_pipeline.py:259-268 | When the bracket's year is not the calendar year, every generated round fails: with seeds that cast, the cleaning raises KeyError on the missing `Round`. |
| Pipeline.Prepared | API/preprocess/data_pipeline.py:274-280 | The summary is taken before the drops; the model input is the scaled engineered frame, rows kept. |
| Pipeline.RoundPipeline | API/preprocess/data_pipeline.py:233-282 | A round's summary, data and model input all come from its games merged for the bracket's year against the calendar year, with rows kept. A missing round raises IndexError. |
| Pipeline.Predicted | API/preprocess/data_pipeline.py:319 | One prediction per game becomes the `Underdog_Upset` cell; a length mismatch raises ValueError. |
| Pipeline.Stored | API/preprocess/data_pipeline.py:325-334 | Each list grows by one slot per round from the third round on. Rounds from 1 on store their data in their slot. After the play-in its winners fill the first round of both lists. Other slots are unchanged. |
| Pipeline.BracketPipeline | API/preprocess/data_pipeline.py:306-338 | The bracket is the seven-round run, formatted and given winners, with a row per stacked game. |
| Pipeline.RunRounds | API/preprocess/data_pipeline.py:314-334 | The loop leaves at the first failing round, and otherwise yields the state after all rounds. |
| Pipeline.RunStops | API/preprocess/data_pipeline.py:314-334 | A failed round fails every longer run the same way. |
| Pipeline.RunPrefix | API/preprocess/data_pipeline.py:314-334 | A run that got through `k` rounds got through every shorter one. |
| Pipeline.RunShape | API/preprocess/data_pipeline.py:311-330 | Both lists hold two frames at first and one per round from the third round on. |
| Pipeline.RunSettles | API/preprocess/data_pipeline.py:325-330 | Once round `j` is stored, slot `j` of both lists never changes again. |
| Pipeline.LaterStepKeeps | API/preprocess/data_pipeline.py:328-330 | A round from 1 on leaves every earlier slot alone. |
| Pipeline.RoundStored | API/preprocess/data_pipeline.py:325-330 | Round `r` (from 1 on) stores its matchups and summary in slot `r`. |
| Pipeline.PlayinStored | API/preprocess/data_pipeline.py:325-334 | After the play-in, both lists hold the filled first round, and slot 0 holds the play-in's cleaned data. |
| Pipeline.GeneratedFromPrevious | API/preprocess/data_pipeline.py:259-260 | From the third round on a round's games are generated from the matchups the previous round stored, which the final state still holds. |
| Pipeline.HistTournamentGames | API/preprocess/data_pipeline.py:164-169 | A year without games contributes an empty frame. A past year whose games lack Round raises KeyError. |
| Pipeline.YearTables | API/preprocess/data_pipeline.py:189-197 | Every year's frame in order, succeeding exactly when each year does. |
| Pipeline.DatasetPipeline | API/preprocess/data_pipeline.py:174-199 | The loop's result is every year's frame stacked in year order. |
| Pipeline.YearTablesStop | API/preprocess/data_pipeline.py:189-197 | A failing year ends the whole list with its error. |
| Pipeline.DatasetRow | API/preprocess/data_pipeline.py:197 | Row `j` of year `k` sits after the rows of every earlier year. |
| Pipeline.EmptyYearAddsNothing | API/preprocess/data_pipeline.py:165-169 | A year without games leaves the dataset's rows as they were. |
| Fetch.TeamData | API/fetch/data_fetch.py:40-47 | A scrape raising ValueError gives an empty frame, other errors escape, and otherwise the first table is returned. |
| Fetch.Matchup | API/fetch/data_fetch.py:173 | The bracket row `[seed, team, seed1, team1]` under `Seed`, `Team`, `Seed.1`, `Team.1`. |
| Fetch.GameRow | API/fetch/data_fetch.py:163-177 | A row exists exactly when the game names a team. It raises IndexError exactly when a named team has no seed. A row has a missing cell exactly when the game is incomplete. |
| Fetch.PageRowsCount | API/fetch/data_fetch.py:163-177 | A page gives one row per item that yields a row. |
| Fetch.PageRowsAt | API/fetch/data_fetch.py:163-177 | An item's row sits right after the rows of the items before it: page order is kept. |
| Fetch.PageRowIndex | API/fetch/data_fetch.py:96-104 | Every row of a page belongs to an item that yields one. |
| Fetch.CountGrows | API/fetch/data_fetch.py:96-104 | An item that yields a row puts every later item's row further down. |
| Fetch.BracketRows | API/fetch/data_fetch.py:163-177 | One row per game naming a team, succeeding exactly when every game does. |
| Fetch.CurrentBracket | API/fetch/data_fetch.py:145-179 | The bracket has the four labels and one row per game naming a team, succeeding exactly when every game does. |
| Fetch.BracketRowAt | API/fetch/data_fetch.py:163-179 | A game's row follows the rows of the games before it: page order is kept. |
| Fetch.ReadCompleteGame | API/fetch/data_fetch.py:166-173 | Text spelling seeds `a` and `b` with two team links yields `[a, x, b, y]`. |
| Fetch.ReadPlaceholderGame | API/fetch/data_fetch.py:174-177 | A game with one seed and one team yields the placeholder `[a, x, 0, None]`. |
| Fetch.RankRows | API/fetch/data_fetch.py:68-73 | One row per linked entry, holding its team, flagged top 25 while fewer than 25 rows exist. |
| Fetch.Anchors | API/fetch/data_fetch.py:69-70 | One link text per linked entry. |
| Fetch.Rankings | API/fetch/data_fetch.py:50-75 | The ranking frame has `Team` and `Top_25` and one row per linked entry. |
| Fetch.RankingsFlagTop25 | API/fetch/data_fetch.py:73 | With `n` rows already present, exactly `25 - n` linked teams are flagged (all of them when fewer, none once 25 exist). |
| Fetch.CoachRow | API/fetch/data_fetch.py:97-104 | A row exists exactly for entries with links, named by the second link. One link raises IndexError, and a missing stat cell raises AttributeError. |
| Fetch.CoachRows | API/fetch/data_fetch.py:96-104 | The coach rows succeed exactly when every entry does, one row per linked entry. |
| Fetch.CoachRowsAt | API/fetch/data_fetch.py:96-104 | A linked entry's row sits right after the rows of the linked entries before it, so page order is kept. |
| Fetch.CoachRowIndex | API/fetch/data_fetch.py:96-104 | Every coach row belongs to a linked entry of the page. |
| Fetch.CoachData | API/fetch/data_fetch.py:78-106 | One row per team, every scraped team represented, failing exactly when an entry does. |
| Fetch.CoachKeepsLast | API/fetch/data_fetch.py:106 | Every kept row is the last row of its team among the coach rows. |
| Fetch.CoachKeepsLastEntry | API/fetch/data_fetch.py:96-106 | Every kept row is the row of a page entry that no later entry names the same team as: each team keeps its last entry on the page. |
| Fetch.NullRowsOf | API/fetch/data_fetch.py:109-125 | A missing fill label raises KeyError. The result has `Year` plus the fills, and exactly the rows with a missing cell under a fill. |
| Fetch.NullCount | API/fetch/data_fetch.py:141 | A column's missing cells number at most its rows. |
| Fetch.Positive | API/fetch/data_fetch.py:141-142 | Exactly the columns with missing cells, paired with their counts. |
| Fetch.Insert | API/fetch/data_fetch.py:141 | Inserting into a descending list keeps it descending and adds exactly that entry. |
| Fetch.SortDescending | API/fetch/data_fetch.py:141 | The sort is descending and a permutation of its input. |
| Fetch.FeatureNullCounts | API/fetch/data_fetch.py:128-142 | Every column with missing cells appears with its count, largest first, as a permutation of those columns. |
| Evaluation.ProbsToPreds | API/model/model_evaluation.py:84 | One prediction per probability, 1 exactly when it is strictly above the threshold. |
| Evaluation.PredsMonotone | API/model/model_evaluation.py:84 | Raising the threshold never turns a 0 into a 1. |
| Evaluation.UpsetsMonotone | API/model/model_evaluation.py:114 | So the number of predicted upsets never grows with the threshold. |
| Evaluation.Upsert | API/model/model_evaluation.py:117 | `performances.loc[k] = v` overwrites every row labelled `k`, or appends one when there is none. |
| Evaluation.UpsertKeeps | API/model/model_evaluation.py:117 | Storing a threshold's metrics keeps the labels distinct and every row holding the metrics of its own threshold. |
| Evaluation.Performances | API/model/model_evaluation.py:107-117 | The loop's table has one row per distinct threshold, exactly the given ones, each holding its own metrics, in order of each threshold's first appearance. |
| Evaluation.PerformancesInOrder | API/model/model_evaluation.py:107-117 | On distinct thresholds the table's rows are the thresholds in the order given. |
| Evaluation.ThresholdTable | API/model/model_evaluation.py:87-119 | No two rows share (Accuracy, AUC). Every row is a given threshold with its own metrics, and every threshold's pair is represented. |
| Evaluation.ThresholdRows | API/model/model_evaluation.py:119 | The dedupe keeps rows holding their own thresholds' metrics. |
| Evaluation.ThresholdPairs | API/model/model_evaluation.py:119 | Every threshold's (Accuracy, AUC) survives the dedupe. |
| Evaluation.ThresholdKeepsLast | API/model/model_evaluation.py:119 | Each surviving row is the last row of the table with its (Accuracy, AUC). |
| Evaluation.ThresholdKeepsLastThreshold | API/model/model_evaluation.py:107-119 | A surviving row holds a given threshold's metrics, and no threshold first given after it has the same (Accuracy, AUC). |
| Evaluation.LaterThresholdsDiffer | API/model/model_evaluation.py:119 | In a table ordered by the thresholds' first appearances, a last-of-its-pair row differs in (Accuracy, AUC) from every later threshold. |

## Left out

- Scraping, HTML navigation and the network (`web_scraper_types.py` and the `bs4`/`read_html` calls) are not part of this model. Each scraped element arrives as the strings the code reads from it.
- `get_team_data` is modelled as a choice over the scrape's outcome; `read_html` itself is not modelled.
- Python's `datetime.now()` is not modelled; the calendar year is a parameter (`Pipeline.Env.currentYear`, and the `currentYear` argument of the dataset pipeline).
- The alias dictionaries and the round-name dictionaries are not modelled; their contents are parameters.
- `data_integrity` is not part of this model; its dictionaries are not in the repository's files.
- `StandardScaler`, the classifier, `accuracy_score`, `roc_auc_score`, `np.mean` and rounding to three places are uninterpreted functions. Floating-point arithmetic and NaN are not modelled; a missing W-L% is `None`.
- `totals_to_game_average`, `clean_adv_stats` and `clean_merged_season_stats` are left out: they are float division, positional slicing and alias replacement over the season table. The season table reaches the model already cleaned.
- `evaluate_cv_models`, `get_classification_report`, `model_selection.py` and `data_visualizations.py` are left out: model search, reports and plots.
- The stale root `data_pipeline.py` is left out; the model follows the pipeline under `API/preprocess/`.
- Column labels are kept distinct. A rename, side-by-side concat or merge that would put two columns under one label is refused (`DuplicateLabel`, `MergeError`), where pandas sometimes builds a frame with duplicate labels.
- Rounds.RenameEach: renames one pair at a time, where pandas renames all labels at once. The two agree whenever no target is also a source, which is the case for every dictionary the code uses (`Rounds.RoundRenamesFresh`).
- Merge.KeyEq: missing keys never match (pandas can match NaN keys to each other). Int and float keys match by value.
- Row order in the model equals index order. Positional reads (`iloc`, `iterrows`, index alignment) are modelled on dense indexes, which the code restores before each of them.
- Fetch.FeatureNullCounts: the descending sort is stated up to ties. The order numpy's unstable sort gives equal counts is not modelled.
- Text.IsDigit: `\d` is modelled as the ASCII digits; Python's regex also matches other Unicode decimal digits.
- Evaluation.Upsert: a float threshold is a `real` label, compared exactly.
- Framing.FrameRow: `np.array` of the sides is modelled for integer, text and missing cells only. Float cells in side rows are not modelled.
- Text.ParseInt: accepts an optional `-` and ASCII digits only. Python's `int()` also accepts a leading `+`, surrounding whitespace, `_` between digits and other Unicode decimal digits. The cells the pipeline casts are integers or the decimal text numpy writes for them (`Text.ParseIntText`), which contain none of these.
- Cleaning.WithTarget: labels `Underdog_Upset` with the corrected numeric comparison (`Outcomes.Target(t, true)`). The program compares the scores as text (see Findings), so an underdog win of 100 to 99 is labelled 1 here and 0 by the program. The two labels agree when both scores have the same number of digits (`Outcomes.TargetsAgreeOnEqualWidths`).
- Cleaning.CleanTourneyData: inherits the corrected label of `Cleaning.WithTarget`, and so do `Pipeline.HistTournamentGames` and `Pipeline.DatasetPipeline`.
- Features.RelBases: Python iterates the set of bases in an order set by string hashing. The model takes them in order of first appearance. That order decides the order of the `Underdog_Rel_*` columns and which missing side's KeyError is raised; no contract depends on it.
- Framing.WinPct: a text W-L% is refused with ValueError, while `float()` would parse numeric text such as ".781". The season table is cast to float before framing (`API/preprocess/feature_engineering.py:36-38`), so no text W-L% reaches this step.
- Framing.FrameRowEarlier: a missing seed is modelled as `None`, which equals `None`. A seed column that pandas stores as float holds NaN instead; NaN equals nothing and compares false, so the program would send such a game to the last branch rather than to the records.
- Merge.MergeTables: the rows of an inner join come left row by left row, each followed by its right matches in right order. That is the order of pandas 2.2 and later. Earlier pandas, the program's era, grouped the rows by key in order of first appearance whenever a left key repeats. Left keys repeat in the historical games, since a team is `Team_Favorite` in several rounds (`data_merge.py:102-108`). So the row order within each year of `Pipeline.DatasetPipeline` may differ from the program's. The rows themselves and their count do not differ (`Merge.MergeRowsAreMatches`, `Merge.TourneyRowCount`). Bracket rounds have one row per key and are unaffected.
- Merge.Pairs: builds that left-row-major order; its contract states the rows and their count, not their order.
- Features.ScaleFeatures: rows are kept and cells become numbers, but the values the scaler computes are not stated.

## Findings

| source | as written | input that shows it | evidently intended | confidence | as-written member | corrected member |
|---|---|---|---|---|---|---|
| API/preprocess/feature_engineering.py:252 | `Score_Underdog > Score_Favorite` compares scores that `np.array` turned into text (`feature_engineering.py:101-104`), so `>` orders them as strings | an underdog winning 100 to 99: `"100" > "99"` is false, so the upset is labelled 0 | compare the scores as numbers, labelling that game 1 | not executed | Outcomes.TargetMislabelsUpsetByOne | Outcomes.TargetLabel |

The as-written comparison is `Outcomes.Target(t, false)`. Its behaviour on text scores is `Outcomes.TargetAsWrittenIsTextual`. The corrected comparison is `Outcomes.Target(t, true)`, which casts both scores to integers first. `Outcomes.TargetLabel` proves that it labels a game 1 exactly when the underdog's integer score is greater. `Outcomes.TargetsAgreeOnEqualWidths` shows that the two labels agree whenever both scores have the same number of digits. `Cleaning.WithTarget`, and so the rest of the model, uses the corrected comparison.
