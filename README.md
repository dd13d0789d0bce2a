# Geographic coordinate extractor: a Dafny model

`app.py` is a small Streamlit tool. It reads a spreadsheet, finds
degree-minute-second (DMS) coordinate pairs in the free text of one
column, and writes out a table with one row per point found. Two
functions in it do the real work, and this project models both:

- `extrair_coordenadas(texto)` returns an empty list for a missing cell or
  a "no coordinates" phrase. Otherwise it runs `re.findall` with one fixed
  pattern: a latitude (`deg º min ' sec " N|S`), separators, then a
  longitude (`... W|O`). For each match it:
  - turns decimal commas in the seconds into dots;
  - computes `deg + min/60 + sec/3600`, negated for `S` and for `W`;
  - rebuilds two DMS strings from the captured tokens.
- `expandir_dataframe(df, coluna)` walks the rows in order. It extracts
  the points of each row's cell and emits one copy of the row per point.
  Each copy gets a `PONTO` label (`P01`, `P02`, ...) and the point's four
  fields.

The modules follow that structure:

- `results.dfy` (`Results`): the `Option` and `Result` types, and the two
  exceptions the code can raise (`ValueError` from `float()`, `KeyError`
  from a missing column). `Collect` is the loop shape both functions
  share: append each outcome and stop at the first exception.
- `text.dfy` (`Text`): the Python built-ins involved:
  - `strip`, `upper` and `replace`;
  - `int()` on digit strings;
  - `float()` on digit-and-dot strings (exact reals);
  - the `02d` format.
- `pattern.dfy` (`Pattern`): the regular expression and `re.findall`.
  - The pattern is a sequence of greedy character-class items.
  - `PiecesFit` and `At` say what a match is.
  - `MatchItems` is a greedy matcher with no backtracking. It is proved
    sound, and complete for deterministic item sequences.
  - The pattern is proved deterministic.
  - `Scan` is proved to be exactly the leftmost, non-overlapping matches.
- `extractor.dfy` (`Extractor`): `extrair_coordenadas`:
  - the specification function `Extract`;
  - the method `ExtractCoordinates` with the source's loop, proved equal
    to `Extract`;
  - the properties of the conversion.
- `expander.dfy` (`Expander`): `expandir_dataframe`:
  - the specification functions `RowBlock`, `Blocks` and `Expand`;
  - the nested-loop methods `AppendBlock` and `ExpandTable`, proved
    equal to them;
  - the properties of order, count, labels and row contents.
- `scenarios.dfy` (`Scenarios`): concrete inputs, each proved to give a
  stated result. The first is the pair quoted in the comment next to the
  pattern.

Four behaviours of the code worth knowing:

- **Hemisphere letters are case-sensitive.** The pattern has no
  IGNORECASE flag, so only `N`, `S`, `W` and `O` match. Lower-case letters
  are never extracted (`HemisphereLettersKept`, `UpperCaseHemispheresOnly`,
  `LowerCaseExample`).
- **`O` does not negate.** Only `W` negates the longitude; `O` leaves it
  positive.
- **Bad seconds raise.** Some seconds tokens fit the pattern but are not
  decimals once the commas become dots (`1,2,3`, `,`, `1..2`). `float()`
  raises `ValueError` on them, and the whole call fails.
- **A missing column raises `KeyError`** on the first row that lacks it.
  There is no dedicated "column not found" error. An empty table yields an
  empty result, because no row is ever indexed.

## Model

| member | source | states |
|---|---|---|
| Results.Collect | app.py:21-43 | The loop that appends each outcome's value and stops at the first exception. Specified by CollectSuccess, CollectFailure and FailureSticks. |
| Results.CollectSuccess | app.py:21-43 | Appending outcomes succeeds exactly when every outcome succeeds. It then yields one value per outcome, in order. |
| Results.CollectFailure | app.py:21-43 | When appending fails, the error is that of the first failing outcome, and every earlier outcome succeeded. |
| Results.FailureSticks | app.py:21-43 | Once a prefix of the outcomes fails, the whole fails with that error: nothing after the first exception matters. |
| Text.DigitsValue | app.py:28-31 | `int()` on a string of digits, leading zeros allowed: the value is below ten to the length. Also DigitsValueConcat and LeadingZerosIgnored. |
| Text.DigitsValueConcat | app.py:28-31 | Reading `a + b` is reading `a`, shifted by the length of `b`, plus `b`. |
| Text.Decimal | app.py:54 | `str(n)`. Specified by DecimalSpec. |
| Text.FormatPadded | app.py:54 | `f"{n:02d}"` for width 2. Specified by FormatPaddedSpec. |
| Text.DecimalSpec | app.py:54 | `str(n)` is a nonempty digit string with no leading zero, and `int()` reads it back as `n`. |
| Text.ZeroPadSpec | app.py:54 | Zero-padding to a width keeps the string as a suffix and adds only `'0'`s, up to that width. |
| Text.FormatPaddedSpec | app.py:54 | `f"{n:02d}"` is `max(width, len(str(n)))` digits long and reads back as `n`. |
| Text.LeadingZerosIgnored | app.py:54 | Leading zeros do not change what `int()` reads. |
| Text.StripLeft | app.py:15 | The result is a suffix of the text, everything removed is whitespace, and it does not start with whitespace. |
| Text.StripRight | app.py:15 | The result is a prefix of the text, everything removed is whitespace, and it does not end with whitespace. |
| Text.Strip | app.py:15 | `str.strip()`. Its halves StripLeft and StripRight state that exactly the outer whitespace is removed. Used by StripKeeps. |
| Text.Upper | app.py:15 | `str.upper()` on the characters it models. Specified by UpperKeepsDigits. |
| Text.Replace | app.py:25-26 | `s.replace(',', '.')`: the same length, each comma replaced by a dot and every other character kept. Also ReplaceIdempotent. |
| Text.ParseDecimal | app.py:28-31 | `float()` on a digit-and-dot string, with `None` for the `ValueError`. Specified by ParseDecimalSpec and ParseDotted. |
| Text.StripKeeps | app.py:15 | A character that is not whitespace survives `strip()`. |
| Text.UpperKeepsDigits | app.py:15 | A digit survives `upper()`. |
| Text.ReplaceIdempotent | app.py:25-26 | Replacing `,` by `.` a second time changes nothing. |
| Text.ParseDecimalSpec | app.py:28-31 | On digits and dots, `float()` succeeds exactly when there is at most one dot and at least one digit. The value is then the digits read without the dot, divided by ten to the number of digits after it. |
| Text.ParseDotted | app.py:28-31 | `float("w.f")` is `w + f / 10^len(f)`. |
| Pattern.InClass | app.py:19 | The pattern's character classes: `\d`, `[º°]`, `'`, `[\d,\.]`, `"`, `\s`, `[NS]`, `[\s,;eE]` and `[WO]`, each as its set of characters. |
| Pattern.HalfItems | app.py:19 | One half of the pattern, item by item: `\d{1,3}`, `[º°]`, `\d{1,2}`, `'`, `[\d,\.]+`, `"?`, `\s*` and the hemisphere class. The constant `CoordinatePair` is the latitude half, the separator item `[\s,;eE]*` and the longitude half; CoordinatePairDeterministic and GroupsOf are stated about it. |
| Pattern.NoMatchIn | app.py:20 | No match of the pattern starts in a range of positions: the declarative half of find-all. Used by Leftmost. |
| Pattern.Leftmost | app.py:20 | The declarative `re.findall`: each match starts at or after the search position, no match starts between that position and it, and the search resumes where it ends; after the last one no match starts anywhere. ScanIsFindAll is proved against it. |
| Pattern.MatchItems | app.py:19 | The greedy matcher over the pattern's items. Specified by MatchItemsSound and MatchItemsComplete. |
| Pattern.Scan | app.py:20 | The scan behind `re.findall`. Specified by ScanSound, ScanLeftmost and ScanIsFindAll. |
| Pattern.MatchItemsSound | app.py:19 | Whatever the greedy matcher returns is a match: one fitting piece per item, spelling the text at that position. |
| Pattern.MatchItemsComplete | app.py:19 | For a deterministic item sequence, every match at a position is the one the greedy matcher returns. |
| Pattern.CoordinatePairDeterministic | app.py:19 | Every variable-length run of the pattern is followed by items whose classes it cannot consume. So the regex needs no backtracking. |
| Pattern.MatchAt | app.py:19 | A result of the matcher at `i` fits the pattern and spells the text at `i`. |
| Pattern.MatchAtExact | app.py:19 | `MatchAt(s, i) == Some(ps)` exactly when `ps` is a match at `i`. So there is at most one match per position. |
| Pattern.MatchNonEmpty | app.py:19-20 | A match is at least one character long, so the scan always advances. |
| Pattern.ScanSound | app.py:20 | Every recorded match lies where it says, fits the pattern, and ends before the next one begins. |
| Pattern.ScanLeftmost | app.py:20 | The scan's matches are the successive leftmost matches, each search resuming where the last match ended. |
| Pattern.LeftmostUnique | app.py:20 | The text determines the sequence of leftmost matches uniquely. |
| Pattern.ScanIsFindAll | app.py:20 | A sequence of matches is the leftmost non-overlapping one exactly when it is the scan. |
| Pattern.FindAll | app.py:20-23 | One group tuple per match of the scan, in order, each shaped as the pattern captures it. |
| Pattern.GroupsOf | app.py:23 | The eight captured groups have the capture shapes: 1-3 degree digits, 1-2 minute digits, nonempty seconds from `[\d,.]`, and the hemisphere letter. |
| Pattern.SingleMatch | app.py:19-20 | A text that is exactly one match gives exactly that match. |
| Pattern.MatchStartsWithDigit | app.py:19 | Every match begins with a digit. |
| Pattern.NeedsHemisphereLetter | app.py:19 | A text with no upper-case `N` or `S` has no match. |
| Pattern.SeparatorRun | app.py:19 | Between the latitude letter and the longitude degrees there is only whitespace, `,`, `;`, `e` or `E`, and the longitude starts with a digit. |
| Extractor.IsSentinel | app.py:15 | `strip().upper()` of the text is in the constant `Sentinels`: `NÃO CONSTA`, `NAO CONSTA`, `NOT INFORMED` and `''`. Its consequence is stated by SentinelHasNoMatch and ExtractMatches. |
| Extractor.Extract | app.py:9-43 | The specification of `extrair_coordenadas`: nothing for a missing or sentinel cell, else the collected conversions of `FindAll`. Specified by ExtractMatches and HemisphereLettersKept, and implemented by ExtractCoordinates. |
| Extractor.Convert | app.py:25-42 | The body of the loop for one match, giving a `Point` with the four fields of the dictionary at app.py:37-42. Specified by ConvertSpec, ConvertOutcome and CommaOrDot. |
| Extractor.Degrees | app.py:28-33 | `deg + min/60 + sec/3600`, negated when the upper-cased letter is the negative one. Specified by HalfValue. |
| Extractor.Dms | app.py:35-36 | The rebuilt DMS string. Specified by DmsEndsWithLetter, DmsSpellsGroups and DmsRoundTrip. |
| Extractor.Seconds | app.py:25-26 | After the replacement the seconds hold only digits and dots, and no comma. |
| Extractor.Magnitude | app.py:28-33 | The unsigned value of a half, read from its digits and not through `float()`, is never negative. |
| Extractor.ExtractCoordinates | app.py:9-43 | The loop returns exactly `Extract`. That is nothing for a missing or sentinel cell. Otherwise it is the conversions of the matches in order, or the first conversion's error. |
| Pattern.NoDigitNoMatch | app.py:19-20 | A text without a digit has no match. |
| Extractor.NoDigitNoPoints | app.py:15-43 | A text without a digit yields no points, whether or not it is a sentinel. |
| Extractor.SentinelHasNoMatch | app.py:15-20 | A sentinel phrase has no match, because none holds a digit. So the early return agrees with the scan. |
| Extractor.ConvertAll | app.py:21-43 | The loop over the matches returns the collected conversions: every point in order, or the error of the first match that fails. |
| Extractor.SentinelIrrelevant | app.py:15-20 | Skipping a sentinel cell gives the same result as running the loop on its matches, since a sentinel has none. |
| Extractor.CollectMatches | app.py:21-43 | The loop succeeds exactly when every match converts, then with one point per match in order; otherwise its error is that of the first match that fails. |
| Extractor.ExtractMatches | app.py:15-43 | The result is the conversion of every match, in text order, one point per match, and no match gives `[]`. Otherwise it is the error of the first match that does not convert. |
| Extractor.ConvertSpec | app.py:25-42 | A match converts exactly when both seconds are decimals; otherwise it fails with the latitude's token first. The values are `±(deg + min/60 + sec/3600)`: negated exactly for `S` and for `W`, so `<= 0` for those and `>= 0` for `N` and `O`, with no range check. The DMS strings are kept. |
| Extractor.ConvertOutcome | app.py:28-31 | The success and error cases of one conversion, in the order `float()` is called. |
| Extractor.HalfValue | app.py:28-33 | One half's degrees equal its magnitude, negated exactly when the letter is the negative one. |
| Extractor.CommaOrDot | app.py:25-36 | Seconds written with a comma and with a dot give identical points. |
| Extractor.UpperCaseHemispheresOnly | app.py:19 | A text with no upper-case `N` or `S` yields no points. |
| Extractor.HemisphereLettersKept | app.py:19-36 | Every point of a successful extraction, whatever else the text holds, has a latitude DMS string ending in `N` or `S` and a longitude DMS string ending in `W` or `O`. So a pair written with lower-case letters is never extracted. |
| Extractor.ExtractedPoint | app.py:20-43 | The `k`-th point of a successful extraction is the conversion of the `k`-th match. |
| Extractor.PointLetters | app.py:35-36 | A converted point's DMS strings end with its match's upper-case hemisphere letters. |
| Extractor.DmsEndsWithLetter | app.py:35-36 | A DMS string ends with the captured hemisphere letter, unchanged. |
| Extractor.DmsSpellsGroups | app.py:35-36 | A point's two DMS strings, joined by a space, spell its normalised groups, which convert to the same point. |
| Extractor.DmsRoundTrip | app.py:35-36 | Extracting from a point's own DMS strings, separated by a space, gives back exactly that point. |
| Extractor.SinglePair | app.py:19-43 | A text that is one pair in DMS form gives that pair's conversion alone. |
| Expander.Extracted | app.py:51 | What the inner loop sees for one row: `KeyError` for the column when the row lacks it; otherwise the extractor on `str(row[col])`. Specified by MissingColumn, MissingCellHasNoPoints and ExpandSpec. |
| Expander.Str | app.py:51 | `str(row[col])`: text as itself, a missing cell as `nan`, and a number through the `render` parameter. Used by MissingCellHasNoPoints. |
| Expander.Label | app.py:54 | `f"P{i:02d}"`. Specified by LabelSpec and LabelExamples. |
| Expander.PointRow | app.py:53-55 | `row.to_dict()`, then `PONTO` set, then `update` with the point. Specified by PointRowSpec. |
| Expander.RowBlock | app.py:52-56 | The copies of one row, one per point, labelled from 1. Specified by RowBlockLength and RowBlockAt. |
| Expander.Blocks | app.py:49-57 | The rows' blocks in row order. Specified by BlocksCount, BlocksAt, BlocksCover and ThreeRowsExample. |
| Expander.Expand | app.py:45-57 | The specification of `expandir_dataframe`. Specified by ExpandSpec, EmptyTable and MissingColumn, and implemented by ExpandTable. |
| Expander.LabelSpec | app.py:54 | The label is `P` then digits reading back as `k`: three characters below 100, and distinct for distinct `k`. |
| Expander.LabelBelowTen | app.py:54 | A point number below ten is padded with a single zero. |
| Expander.LabelExamples | app.py:54 | The labels are `P01`, `P02` and `P100`: the width is a minimum, never a truncation. |
| Expander.PointRowSpec | app.py:53-55 | A copy keeps every source column and adds the five new ones. `PONTO` is the label and the four point columns hold the point, overwriting same-named source columns. Every other column keeps its value. |
| Expander.RowBlockLength | app.py:52-56 | A row contributes one copy per point. |
| Expander.RowBlockAt | app.py:52-56 | The `j`-th copy of a row is for point `j`, labelled `j + 1`. |
| Expander.AppendBlock | app.py:52-56 | The inner loop appends exactly the row's block to the lines built so far. |
| Expander.ExpandTable | app.py:45-57 | The nested loops return exactly `Expand`: the first row error, or the blocks in row order. |
| Expander.BlocksCount | app.py:49-57 | The output has as many rows as there are points over all rows. |
| Expander.BlocksAt | app.py:49-57 | Source row `k`'s copies start after those of the rows before it, in point order. |
| Expander.BlocksCover | app.py:49-57 | Every output row is some source row's copy for one of its points. |
| Expander.ExpandSpec | app.py:45-57 | Expansion succeeds exactly when every row has the column and extracts. It is then the concatenation of the rows' blocks, one row per point. Otherwise it fails with the first failing row's error. |
| Expander.EmptyTable | app.py:49-50 | An empty table gives no rows and no error. |
| Expander.MissingColumn | app.py:51 | A first row without the column raises `KeyError` for that column. |
| Expander.MissingCellHasNoPoints | app.py:51 | A missing cell prints as `nan` and contributes no rows. |
| Expander.ThreeRowsExample | app.py:50-56 | Rows with 2, 0 and 1 points give the first row's copies 1 and 2, then the third row's copy 1. |
| Scenarios.CommentExample | app.py:18 | The quoted pair gives one point: latitude `-(3 + 3/60 + 52.9838/3600)` and longitude `-(59 + 54/60 + 46.6013/3600)` with dotted DMS strings. |
| Scenarios.ListExample | app.py:19-31 | Seconds `1,2,3` fit the pattern but become `1.2.3`, so `float()` raises, with that token. |
| Scenarios.LowerCaseExample | app.py:19 | The quoted pair with `s` and `w` yields no points. |
| Scenarios.BlankExample | app.py:15-16 | A whitespace-only cell strips to the empty sentinel and yields no points. |

## Left out

- The Streamlit interface (page setup, upload, selection, buttons, messages) is presentation and session state.
- Reading Excel and writing CSV or XLSX files are file I/O in foreign libraries.
- `configurar_exportacao` is pandas formatting: `applymap`, six-decimal float formatting and `fillna`.
- `gerar_nome_arquivo` depends on the wall clock.
- The DataFrame built from the list of row dictionaries leaves out pandas' column union and column order. The model returns the list of rows.
- Python's dictionary key order is not modelled: a row is a map.
- Extractor.ConvertSpec: values are exact reals, not IEEE doubles. Python's `int()/60`, `float()` and `/3600` round, so its results approximate the model's. The exception is a seconds token too large for a double (about 310 digits or more): `float()` returns `inf` without raising, so Python's point is `inf` or `-inf` where the model's is a finite real.
- Text.ParseDecimal: models `float()` only on strings of digits and dots, the only ones it receives after the replacement. The exponent, sign, `inf`/`nan` and underscore syntax are not modelled.
- `\d` is restricted to the ASCII digits; Python's Unicode digits are not modelled.
- `\s` and `strip()` are restricted to six whitespace characters: space, `\t`, `\n`, `\r`, `\v` and `\f`. Python also treats `\x1c` to `\x1f`, `\x85`, the no-break space U+00A0 (common as a separator in spreadsheet text) and other Unicode spaces as whitespace; these are not modelled.
- `upper()` is modelled on ASCII, the Latin-1 letters, `ı`, `ſ` and `ß`. Other characters stay unchanged, including the ligatures U+FB00 to U+FB06 that Python upper-cases to ASCII (`ﬁ` to `FI`). So a text that Python's `upper()` turns into a sentinel may not be one for `IsSentinel` (`NÃO CONﬆA`, where U+FB06 upper-cases to `ST`). Such a text still yields no points in the model: Python's `upper()` maps digits to themselves and no other character to an ASCII digit, so the text holds no digit, and `NoDigitNoPoints` proves that a text without a digit yields no points.
- Expander.Str: how Python prints a float cell is a parameter (`render`), not a definition. A missing cell prints as `nan`, and text prints as itself.
- Extractor.Extract: `None` stands for a missing (`NaN`) cell. Through `expandir_dataframe` the cell is always passed as `str(...)`, so that path is reached only by calling the extractor directly.
- The row-copy semantics of `to_dict()` need no model: rows are values, so the source table cannot be changed.
- A worked example for the phrase `NÃO CONSTA` is not included. The sentinel list and `IsSentinel` model it, and `SentinelHasNoMatch` covers every sentinel.
