# Student score analysis — a Dafny model

This project models the score-analysis core of a small Streamlit app
(`app.py`). A teacher uploads a spreadsheet with a score column. The page then
does four things:

- drops the missing cells of that column;
- shows how many scores there are and their average;
- lists every student whose score equals the column's maximum, and likewise
  for the minimum (ties are all kept);
- counts the scores in five fixed grade bands (`90-100`, `80-89`, `70-79`,
  `60-69`, `<60`) for a pie chart.

Scores are modelled as `real`. A row is a record whose score is an
`Option<real>`, with `None` standing for a missing (NaN) cell.

Modules, one per concern of `app.py`:

- `Wrappers` (Wrappers.dfy): `Option`.
- `Bands` (Bands.dfy): `percentage_distribution`. It holds the band cascade
  `Classify`, the counter dictionary `Bins` (one field per key, plus `AsDict`
  for the string-keyed view), and the specification function `Distribution`.
  `PercentageDistribution` is the source's loop, written as a method that is
  proved equal to `Distribution`.
- `Statistics` (Statistics.dfy): `sum`, the column maximum and minimum, and
  `calculate_average`.
- `Roster` (Roster.dfy): the missing-cell filter (`dropna`) and the row
  selections `df[df[col] == max]` and `df[df[col] == min]`.
- `Analysis` (Analysis.dfy): the computation `show_analysis_page` runs after
  reading the file. It returns `None` when no score is present, because the
  `if scores:` guard then skips everything. The module also holds a worked
  three-student roster, proved end to end.

## Model

| member | source | states |
|---|---|---|
| `Bands.Classify` | app.py:19-28 | The band chosen by the threshold cascade contains the score as a half-open interval, and it is the only band that does, so the five bands partition the reals. |
| `Bands.ClassifyEdges` | app.py:19-28 | Exactly 90 goes to `90-100`. Just below 90 goes to `80-89`, and just below 60 goes to `<60`. Scores above 100 go to `90-100` and negative scores to `<60`, because there is no range check. |
| `Bands.Bins.Inc` | app.py:20-28 | `bins[key] += 1` raises the chosen band by exactly one, leaves the other four bands unchanged, and raises the total by one. |
| `Bands.Bins.AsDict` | app.py:17 | The dictionary has exactly the five keys `90-100`, `80-89`, `70-79`, `60-69`, `<60`. Each key maps to its band's counter. |
| `Bands.EmptyDistribution` | app.py:17 | An empty score list gives every key a count of 0. |
| `Bands.DistributionStep` | app.py:18-28 | Processing one more score raises exactly one counter, the one for that score's band, by one. The other four are unchanged. |
| `Bands.DistributionTotal` | app.py:17-29 | The five counters always add up to the number of scores, so no score is dropped or counted twice. |
| `Bands.DistributionCounts` | app.py:18-29 | Each counter equals the number of positions whose score lies in that band's interval. |
| `Bands.PercentageDistribution` | app.py:16-29 | The loop returns the specified distribution. Its counters sum to `len(scores)`, and each counter is the number of scores in its band. |
| `Statistics.Max` | app.py:61 | The column maximum is one of the scores and no score exceeds it. |
| `Statistics.Min` | app.py:62 | The column minimum is one of the scores and no score is below it. |
| `Statistics.SumAppend` | app.py:13 | `sum` works element by element: the sum of `a + b` is the sum of `a` plus the sum of `b`. |
| `Statistics.SumBounds` | app.py:13 | If every score lies in [lo, hi], then the sum of n scores lies in [n·lo, n·hi]. |
| `Statistics.Average` | app.py:12-13 | For a non-empty list, the mean lies between the minimum and the maximum. |
| `Statistics.AverageOfEqualScores` | app.py:12-13 | A list whose scores are all equal averages to that score. |
| `Roster.ExtractScores` | app.py:54 | The extracted list is no longer than the column. A value is in it exactly when some row has that value as a present score. |
| `Roster.ExtractAppend` | app.py:54 | Extraction works row by row: extracting `a + b` gives the extraction of `a` followed by that of `b`, so row order is kept. |
| `Roster.ExtractOne` | app.py:54 | A single row contributes its score if present and nothing if missing. Only missing cells are removed. |
| `Roster.ExtractCount` | app.py:54 | The extracted list is exactly as long as the number of rows with a present score. |
| `Roster.WithScore` | app.py:64-65 | Selecting by exact score keeps exactly the rows whose present score equals the value. Rows with a missing cell never match. |
| `Roster.WithScoreAppend` | app.py:64-65 | Selection keeps row order: selecting from `a + b` gives the selection from `a` followed by that from `b`. |
| `Roster.WithScoreCount` | app.py:64-65 | The number of selected rows equals the number of times the value occurs among the extracted scores. |
| `Roster.TopRows` | app.py:61-64 | When some score is present, the top rows are non-empty. A row is a top row exactly when its score is present and no present score is higher, so all ties are kept. |
| `Roster.TopRowsCount` | app.py:61-64 | All ties on the maximum are kept: there are as many top rows as occurrences of the maximum among the present scores. |
| `Roster.BottomRowsCount` | app.py:62-65 | All ties on the minimum are kept: there are as many bottom rows as occurrences of the minimum among the present scores. |
| `Roster.BottomRows` | app.py:62-65 | When some score is present, the bottom rows are non-empty. A row is a bottom row exactly when its score is present and no present score is lower. |
| `Analysis.AnalyzeScores` | app.py:54-77 | There is no result exactly when no score is present. Otherwise: the count is the number of present scores; the average lies between the minimum and the maximum; the top and bottom rows are the exact-tie selections and are non-empty; the distribution's counters sum to the count. |
| `Analysis.ExampleAnalysis` | app.py:54-77 | Worked roster A:95, B:95, C:40. The mean is 230/3. The top rows are A and B, and the bottom row is C. The counters are 2 in `90-100` and 1 in `<60`. |

## Left out

- The Streamlit page itself is left out: titles, markdown, the instruction image, the start button, `st.session_state.start`, `st.rerun`, `show_home_page` and `main` (app.py:8-9, 32-50, 95-139). These are presentation and navigation, not computation.
- File upload and `pd.read_excel` are left out (app.py:50-53). The model takes rows whose cells are already parsed.
- Looking up the score column is left out. In the source a missing column raises a `KeyError` inside pandas; here every row always carries a score cell.
- The `.astype(float)` conversion (app.py:54) is left out. In the source a non-numeric cell makes it raise an error. Such a cell is not skipped silently, and this model follows that code behaviour. The model only represents present numbers and missing cells, so a non-numeric cell cannot arise.
- Rounding the average to two decimals for display (app.py:58) is left out.
- The pie chart, PNG buffer and image display (app.py:81-93) are left out. So is turning the dictionary into label and value lists for the chart (app.py:78-79), apart from the key order, which `Keys` records.
- Scores are reals, not binary floating point. NaN appears only as a missing cell (`None`), and infinities are not modelled. Exact equality in the top and bottom selections is kept exactly as the source has it.
- The maximum and minimum are taken over the extracted scores. The source takes them over the raw column (app.py:61-62), skipping NaN as pandas does by default. For a numeric column the two give the same value.
- A score column holding numbers stored as text is not modelled. `.astype(float)` (app.py:54) accepts such cells, so the extracted scores are the numbers. But `.max()` and `.min()` on the raw column (app.py:61-62) then compare strings: for "95", "100", "40" the maximum is "95". When text cells are mixed with numbers or missing cells, they raise a `TypeError` instead. The `== max_score` selections (app.py:64-65) then differ from `TopRows` and `BottomRows`, which always use the numeric extremes.
- `Statistics.Average`: does not state that the result equals `sum / len` as a separate contract, because that is its definition. The contract states what the mean means: it lies between the minimum and the maximum.
- `factorial_app.py` is not part of this model. It holds a user-file lookup (file I/O), a login flow driven by session state, and a call to a `factorial` module whose source is not available.
