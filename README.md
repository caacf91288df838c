# Lotto number generation service: a Dafny model

This project models the number-generation core of a small lotto prediction service
(`app.py`). A trained sequence model is fed the most recent rows of the draw history.
Each row it predicts is turned into one "game": six distinct numbers in [1,45], sorted
ascending. The service produces five games per request. After each game the prediction
is pushed into the input window, so the next game is predicted from it.

The model is written in four modules, plus one for the optional-value type:

- `LottoData` is the row parser of `load_lotto_data`. It works on the lines of the history
  file once they have been read. Each line is stripped, split on `,`, and every field is
  read with `int`. A field `int` rejects makes the whole load fail (`None`). `strip()`
  removes every `str.isspace` character. `int` skips a smaller set: it keeps the ASCII
  separators U+001C to U+001F, so a field padded with one of them is refused.
- `Fill` is `remove_duplicates_and_fill`. It takes the row's distinct values, then draws
  fresh numbers in [1,45] until six are held, and returns them sorted.
- `Predict` holds the clamp `np.clip(..., 1, 45)`, the first window `scaled_data[-60:]`,
  the window slide, and the five-game loop of `predict_lotto_numbers`.
- `Seqs` holds shared facts: distinctness, element sets, and the sort that stands for
  Python's `sorted`.
- `Wrappers` holds `Option` and `Traverse`. `Traverse` maps a function over a sequence
  and fails as soon as one application fails, as a list comprehension does when a call raises.

`PredictLottoNumbers` and `RemoveDuplicatesAndFill` are methods with loops, as in the
source. Each is proved against a specification:

- `IsFillOf(row, game)` says what a game drawn from a row is.
- `WindowAt(w0, infer, k)` is the window the network sees for game `k`.

The lemmas then prove what the service promises about these. When the predictor gives
six numbers, each game is six distinct sorted numbers in [1,45]. The window keeps
`min(60, |history|)` rows. Every slide shifts the older rows forward unchanged and
appends the clamped prediction as the newest row. A field `int` reads gives the value
of its digits, whatever padding, sign and leading zeros surround them (`ParseIntNumber`).

Collaborators the model cannot see are parameters:

- `scaler` stands for `MinMaxScaler.fit_transform`.
- `infer` stands for the Keras network's `predict`, followed by `inverse_transform`,
  `np.around` and `.astype(int)`, giving one integer row per window.
- The window's rows are `Row.Scaled(features)` at first (the scaled history) and
  `Row.Denormalised(numbers)` for appended predictions.

This makes one behaviour of line 55 visible. Line 55 appends the clamped, de-normalised
integer row, not a scaled one, so after the first game the window mixes two scales
(`NewestRow`, `WindowOfPredictions`).

The window is the last 60 rows, or the whole history when it is shorter
(`scaled_data[-60:]`, `InitialWindow`).

With an empty history, `fit_transform` raises. `PredictLottoNumbers` returns `None` in
that case, and only then.

## Model

| member | source | states |
|---|---|---|
| `Fill.RemoveDuplicatesAndFill` | app.py:34-40 | the game it returns is strictly ascending, holds every value of the input row, is as long as six or the row's number of distinct values (whichever is more), and every value not from the row is in [1,45] |
| `Fill.Dedup` | app.py:35 | `list(set(row))`: no value twice, and exactly the values of the row |
| `Fill.FreshDrawExists` | app.py:36-39 | while fewer than six distinct values are held, some number in [1,45] is not held, so a draw can always be accepted and the fill loop terminates |
| `Fill.FillOfShortRow` | app.py:35-40 | a row of at most six numbers (the predicted row) gives a game of exactly six |
| `Fill.FillInRange` | app.py:37-39 | if every input value is in [1,45], so is every value of the game |
| `Fill.FillOfCompleteRow` | app.py:35-36 | a row of six distinct values gets no draws: the game holds exactly the row's values |
| `Seqs.Sort` | app.py:40 | `sorted`: an ascending permutation of its input |
| `Seqs.SortDistinct` | app.py:40 | sorting distinct values gives a strictly ascending list of the same values and length |
| `Predict.Clip` | app.py:52 | the clamp gives a number in [1,45], leaves in-range values unchanged, and gives the number of [1,45] nearest to its input |
| `Predict.ClipRow` | app.py:52 | the clamped row has the same length, every component in [1,45], in-range components unchanged, low ones raised to 1 and high ones lowered to 45 |
| `Predict.InitialWindow` | app.py:45-46 | the first window is the last `min(60, n)` rows of the scaled history, in order |
| `Predict.Slide` | app.py:55-56 | a slide drops the oldest row, shifts the others forward unchanged and puts the new row last; an empty window becomes one row |
| `Predict.WindowLength` | app.py:55-56 | sliding keeps a non-empty window at its length, whatever the predictions |
| `Predict.WindowShift` | app.py:55-56 | after k slides (at most the window length) the remaining first-window rows sit k places further forward, unchanged |
| `Predict.NewestRow` | app.py:52-56 | after a slide the newest row is the clamped, de-normalised prediction of the previous game |
| `Predict.PredictionsAtBack` | app.py:52-56 | after k slides the newest k rows are the clamped predictions of games 0 to k-1, in order |
| `Predict.WindowOfFirstPredictions` | app.py:52-56 | after as many slides as the window has rows, row i is the clamped prediction for game i |
| `Predict.WindowOfPredictions` | app.py:52-56 | once the first window has been pushed out, row i of window k is the prediction for game k - n + i |
| `Predict.PredictLottoNumbers` | app.py:43-59 | `None` exactly for an empty history; otherwise exactly five games, in iteration order, game k being a fill of the clamped prediction for the k-th window; when that prediction has six components, game k is six distinct numbers in [1,45], sorted ascending |
| `Predict.GameIsValid` | app.py:52-54 | when the predictor gives six numbers, each game is six distinct numbers in [1,45], sorted ascending |
| `Predict.WindowSizeKept` | app.py:45-56 | every window the network sees holds `min(60, n)` rows for a scaled history of n > 0 rows |
| `LottoData.LeadingSpace` | app.py:24 | the length of the run of whitespace (in the given sense) a string starts with |
| `LottoData.TrimEnd` | app.py:24 | the longest prefix not ending in whitespace, everything cut off being whitespace |
| `LottoData.Strip` | app.py:24 | stripping (with `str.isspace`, `strip()`) gives the infix after the leading whitespace with no whitespace at either end, and only whitespace follows it |
| `LottoData.Split` | app.py:24 | `split(',')` gives one more piece than there are commas, none holding a comma |
| `LottoData.JoinSplit` | app.py:24 | joining the pieces with the separator gives the string back |
| `LottoData.SplitJoin` | app.py:24 | splitting comma-free pieces joined by commas gives back the same pieces |
| `LottoData.ParseInt` | app.py:24 | `int(field)` succeeds exactly on fields that, stripped of the whitespace `int` skips, are an optional sign and one to 4300 ASCII digits, with no underscores |
| `LottoData.ParseSigned` | app.py:24 | a stripped field is a number exactly when it is an optional sign and one to 4300 ASCII digits, with no underscores |
| `LottoData.IsSpace` | app.py:24 | `str.isspace`, the set `strip()` removes: never a digit, a comma or a sign |
| `LottoData.IsIntSpace` | app.py:24 | the characters `int` skips around a number: every one is `str.isspace` whitespace; among ASCII characters exactly blank, tab, line feed, vertical tab, form feed and carriage return; among the others exactly the `str.isspace` ones |
| `LottoData.StripPadded` | app.py:24 | stripping a field padded with whitespace (in the given sense) on either side gives the field back, when it neither starts nor ends with whitespace |
| `LottoData.LeadingZeros` | app.py:24 | zeros put before a digit string leave its value unchanged |
| `LottoData.SignedValue` | app.py:24 | no sign or `+` before a digit string of at most 4300 digits gives its value, `-` gives the negated value |
| `LottoData.ParseIntValue` | app.py:24 | `int` of a field made of padding `int` skips, an optional sign, one to 4300 digits and more padding gives the signed value of the digits |
| `LottoData.ParseIntNumber` | app.py:24 | `int` of a padded field holding an optional sign, any number of leading zeros and then the digits of n (4300 digits in all at most) gives n, or -n after a minus sign |
| `LottoData.IntKeepsSeparator` | app.py:24 | a field starting with U+001C is refused: `int` does not skip it, though `str.isspace` counts it as whitespace |
| `LottoData.SeparatorPaddedFieldFails` | app.py:24 | a line with a field starting with U+001C makes the whole load fail |
| `LottoData.ShowNatValue` | app.py:24 | the digits printed for a natural number read back as that number |
| `LottoData.ParseShowInt` | app.py:24 | `int(str(n)) == n` for every integer of at most 4300 digits; the digit string of a longer one is refused |
| `LottoData.Fields` | app.py:24 | a line has one field more than its stripped text has commas |
| `LottoData.ParseLine` | app.py:24 | a line parses exactly when each of its fields does, into one integer per field, each the value of that field |
| `LottoData.LoadLottoData` | app.py:21-25 | the load succeeds exactly when every line parses, giving one row per line, in order |
| `LottoData.FormatRowRoundTrip` | app.py:24 | a non-empty row of numbers of at most 4300 digits, written as comma-separated numbers and a newline, loads back as the same row |
| `LottoData.BlankLineFails` | app.py:24 | a blank or whitespace-only line makes the whole load fail |
| `Wrappers.Traverse` | app.py:24 | the comprehension succeeds exactly when every application does, giving one result per element in order |

## Left out

- Keras model loading and inference (app.py:5, app.py:18, app.py:50) is an opaque trained network with floating-point outputs. Together with `inverse_transform`, `np.around` and `.astype(int)` (app.py:51-52) it is the parameter `infer`, a function from a window to an integer row.
- `MinMaxScaler` fitting and scaling (app.py:28-31) is floating point. It is the parameter `scaler`, of which only "one scaled row per history row" is required. Its inversion is folded into `infer`, and the precision of scaling and inverting is not modelled.
- Errors the scaler or the network raise for rows of unequal width, or for a window shorter than the network expects, are not modelled. Only the empty-history failure is.
- `Fill.RemoveDuplicatesAndFill`: the random draws are a nondeterministic choice, not a uniform distribution. Only accepted draws are modelled: a draw already held leaves the list as it was (app.py:38), and modelling it would make termination depend on the random source. The order in which `list(set(...))` lists values is fixed to one choice, which `sorted` makes invisible.
- `LottoData.ParseInt` and `LottoData.ParseSigned`: Python's `int` also accepts underscores between digits and non-ASCII decimal digits. These are not modelled, so such fields are rejected here. The 4300-digit limit is CPython's default since 3.11 (and in the 3.7 to 3.10 security releases of September 2022). A program can change it with `sys.set_int_max_str_digits` or the `PYTHONINTMAXSTRDIGITS` environment variable, and older releases have no limit; neither is modelled.
- File opening and `readlines` (app.py:22-23) are I/O. The model starts from the sequence of lines.
- The Flask application, CORS, the route, the JSON response, logging and the port taken from the environment (app.py:11-15, app.py:58, app.py:61-71) are framework and I/O glue.
- `auth.py` is session, database and password-hashing glue. Its collaborators (`db`, `bcrypt`, `User`) are not defined in `app.py`, so they are not part of this model.
- `script.js` and `static/script.js` are browser display code. They hold a "next Saturday" date offset and a fixed round label, with no round computation.
