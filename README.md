# UnderstatData shot scraper, modelled in Dafny

`ShotDataScraper` in `Scraper_Script.py` has three steps, and this project models all three.

**Match discovery** (`match_id_retrieval`)
- For every league it asks the statistics provider for the season's matches.
- It parses each match's `datetime` with `datetime.strptime(..., '%Y-%m-%d %H:%M:%S')`.
- It keeps the matches whose kick-off is earlier than `datetime.today()`, as `{'id', 'league'}` entries.

**Shot aggregation** (`match_shots`)
- For every entry it asks the provider for the match's shots.
- It builds one frame from the home (`'h'`) records followed by the away (`'a'`) records.
- It tags every row with the entry's league.
- It concatenates the match frames in order.

**Cleaning** (`clean_shot_data`)
- For X, Y and xG in turn, it writes each cell as text, removes apostrophes and converts the text back with `float()`.
- It then multiplies X by 120 and Y by 80. This rescales the unit pitch to a 120 by 80 pitch.
- The frame is changed in place.

The modules:

| Module | File | What it holds |
|---|---|---|
| `Text` | `text.dfy` | ASCII digits, digit strings, and two kinds of whitespace: that of `str.isspace()` and of `\s`, and the narrower set `float()` trims. |
| `Frames` | `frames.dfy` | Cell values, rows (one dict per record) and the exceptions the scraper lets escape. It also holds the `ShotFrame` class, whose column assignments reassign its rows, and `pd.concat`. |
| `Dates` | `dates.dfy` | `strptime` for the one format the scraper uses, following CPython's `_strptime`: a regular expression group per directive, then the `datetime` constructor's checks. It also holds the order `<` on naive datetimes. |
| `FloatText` | `floattext.dfy` | `str.replace("'", "")`, `float()` on a string, and `str()` of a cell. |
| `Discovery` | `discovery.dfy` | `match_id_retrieval` as a method with nested loops, proved against the function `Retrieve`. It also holds a reference definition of "the past matches" (`PastEntries`) and the lemmas relating the two. |
| `Shots` | `shots.dfy` | `match_shots` as a method over `ShotFrame`s, proved against the function `Shots`, and lemmas on row count, placement and league tags. |
| `Cleaning` | `cleaning.dfy` | `clean_shot_data` as a method that changes a `ShotFrame` in place, proved against the function `CleanShots`. The lemmas state when it raises and what each row becomes. |

The model follows the code on four points where a reader might expect otherwise:
- **Empty league list.** `match_id_retrieval` raises nothing and returns `[]`.
- **The clock.** `datetime.today()` is read again for every match rather than once per call. The clock is therefore a list of readings, one per listed match.
- **A failed shot-data request.** It aborts `match_shots`; no match is skipped.
- **An empty entry list.** `match_shots` raises the `ValueError` of `pd.concat([])`; it does not return an empty table.

## Model

| member | source | states |
|---|---|---|
| Discovery.MatchIdRetrieval | Scraper_Script.py:11-22 | The nested loops return exactly `Retrieve`. That is the entries of the listed matches that are over, league by league in the provider's order, or the first exception one of them raises. |
| Discovery.VisitMatch | Scraper_Script.py:17-20 | One pass of the inner loop body gives exactly `Classify` of the match: a missing `datetime` or unparseable date raises, a past match without `id` raises `KeyError('id')`, a past match appends its entry and a later one appends nothing. |
| Discovery.CandidatesMember | Scraper_Script.py:13-17 | The matches the loops visit are exactly the provider's records. Each is paired with its own clock reading and the league it was listed under. |
| Discovery.Strptime | Scraper_Script.py:17 | Parsing succeeds only on a str. The result is then a valid datetime with no microseconds. |
| Discovery.CollectIsFilter | Scraper_Script.py:16-20 | The loop returns iff every visited match has a parseable `datetime`, and an `id` when it is over. It then returns exactly the reference list `PastEntries`. |
| Discovery.CollectFirstError | Scraper_Script.py:16-20 | The exception raised is that of the first visited match that cannot be read; every match before it can be. |
| Discovery.PastEntriesMember | Scraper_Script.py:19-20 | An entry is in the list iff some visited match is over and carries that id and league. |
| Discovery.PastEntriesLength | Scraper_Script.py:12-20 | There is at most one entry per visited match, and none when no match is over. |
| Discovery.RetrieveOkIff | Scraper_Script.py:11-22 | `match_id_retrieval` returns normally iff every listed match is well formed. |
| Discovery.RetrieveIsFilter | Scraper_Script.py:11-22 | When it returns, it returns the past matches in loop order. The list is no longer than the number of listed matches. It is empty for an empty league list, or when no match is over. |
| Dates.ParseDatetime | Scraper_Script.py:17 | `strptime` either returns a datetime or raises `ValueError`, modelled as `BadDatetime(s)`. |
| Dates.ParsedText | Scraper_Script.py:17 | Accepted text holds only digits, whitespace, `-` and `:`. An ISO `T`, a `Z` or a named time zone makes it raise. |
| Dates.TrailingRejected | Scraper_Script.py:17 | Nothing may follow the seconds. A valid `YYYY-MM-DD HH:MM:SS` followed by any text, such as a `-05:00` offset, raises. |
| Dates.ParsedFields | Scraper_Script.py:17 | A parsed datetime holds the numbers written in the text, one per directive, and no microseconds. |
| Dates.LayoutParses | Scraper_Script.py:17 | Six numbers written as `YYYY-MM-DD HH:MM:SS` parse iff they form a valid datetime, and then parse to that datetime. So `2023-02-29 00:00:00` and `2024-13-01 00:00:00` raise. |
| Dates.ParsedIsValid | Scraper_Script.py:17 | Whatever `strptime` accepts is a real calendar date and time: day within its month, second at most 59, no microseconds. |
| Dates.FormatRoundTrip | Scraper_Script.py:17 | The provider's `YYYY-MM-DD HH:MM:SS` text of any valid datetime parses back to that datetime. |
| Dates.DaysInMonth | Scraper_Script.py:17 | A month has 28 to 31 days, and 29 exactly for February of a leap year. |
| Dates.Before | Scraper_Script.py:19 | `game_date < today` compares naive datetimes field by field, most significant first. |
| Dates.BeforeIsOrdinal | Scraper_Script.py:19 | On valid datetimes that order is the order of instants, counted in microseconds from a day number and a time of day. |
| Dates.BeforeIsStrict | Scraper_Script.py:19 | `<` on datetimes is a strict total order. |
| Shots.MatchShots | Scraper_Script.py:24-38 | The loop plus `pd.concat` returns a new frame whose rows are exactly `Shots`, or the same exception as `Shots`. |
| Shots.MatchFrame | Scraper_Script.py:27-33 | One match's new frame holds its home rows then its away rows. Each row has `league` set to the entry's league. |
| Shots.MatchRows | Scraper_Script.py:28-33 | Row `j` is home record `j` with the league added. Row `|home| + j` is away record `j` with the league added. |
| Shots.FetchOk | Scraper_Script.py:26-35 | Every request succeeds iff the provider knows every id. There is then one row list per entry, in entry order. |
| Shots.ShotsOkIff | Scraper_Script.py:25-37 | `match_shots` returns iff the entry list is non-empty and every request succeeds. An empty list raises "no objects to concatenate". |
| Shots.ShotsFirstMissing | Scraper_Script.py:26-27 | A failed call reports the first entry whose request fails. |
| Shots.ShotsRowCount | Scraper_Script.py:26-37 | The table has the sum over entries of home plus away shots as rows. |
| Shots.ShotsHomeRow | Scraper_Script.py:26-37 | Home shot `j` of match `m` sits at `Offset(m) + j`: the provider's record, unchanged apart from the added league. `Offset(m)` is the number of shots of the matches before `m`. |
| Shots.ShotsAwayRow | Scraper_Script.py:26-37 | Away shot `j` of match `m` follows that match's home shots, tagged the same way. |
| Shots.ShotsTagged | Scraper_Script.py:33 | Every row of the table is a row of some listed match, and its `league` is that match's league. |
| Frames.ScaleDecimal | Scraper_Script.py:53-54 | Multiplying a decimal by an integer multiplies its real value by that integer. |
| Frames.WithColumn | Scraper_Script.py:50-54 | `df[col] = values` sets row `i`'s `col` to `values[i]` and keeps every other field of every row. |
| Frames.WithColumnOther | Scraper_Script.py:50-54 | Assigning one column leaves every other column, and which columns exist, as they were. |
| Frames.WithColumnTwice | Scraper_Script.py:50-51 | Assigning a column twice is assigning the second values once. |
| Frames.ShotFrame.constructor | Scraper_Script.py:28-29 | `pd.DataFrame(records)` holds the records in order. |
| Frames.ShotFrame.Column | Scraper_Script.py:50-51 | `df[col]` on an existing column reads row `i`'s cell, or NaN where the row lacks the field. On a column no row carries, pandas raises `KeyError`; callers check `HasColumn` first. |
| Frames.WithColumnHas | Scraper_Script.py:50-51 | After an assignment the column exists iff the frame has rows. |
| Frames.ShotFrame.Assign | Scraper_Script.py:50-54 | Assigning a column replaces the frame's rows by `WithColumn` of the old rows. |
| Frames.ShotFrame.Broadcast | Scraper_Script.py:33 | Assigning a scalar sets the field in every row and keeps the number of rows. |
| Frames.Concat | Scraper_Script.py:32-37 | `pd.concat(frames, ignore_index=True)` raises iff the list is empty. Otherwise it returns a new frame holding every frame's rows in order. |
| Frames.Flatten | Scraper_Script.py:37 | The concatenation has as many rows as the lists together. |
| Frames.FlattenIndex | Scraper_Script.py:32-37 | Row `j` of list `m` lands after every row of the lists before it. |
| Frames.FlattenOrigin | Scraper_Script.py:32-37 | Every row of the concatenation comes from some place in some list. |
| Frames.FlattenPlaceUnique | Scraper_Script.py:32-37 | No two places land on the same row, so that place is the only one. |
| FloatText.StripQuotes | Scraper_Script.py:50 | Removing apostrophes leaves no apostrophe and never lengthens the text. |
| FloatText.StripQuotesAppend | Scraper_Script.py:50 | Removing apostrophes distributes over concatenation. |
| FloatText.QuoteInsensitive | Scraper_Script.py:50 | An apostrophe anywhere makes no difference once stripped. |
| FloatText.QuoteWrapped | Scraper_Script.py:50 | `'s'` strips to `s`. |
| FloatText.ToFloat | Scraper_Script.py:51 | `float()` never yields a string, and its only exception is "could not convert string to float" on that text. |
| FloatText.ToFloatKeepsSeparators | Scraper_Script.py:51 | The separators 0x1C-0x1F count as whitespace for `str.isspace()` but not for `float()`, so a cell that starts with one raises. |
| FloatText.ToFloatRejectsOtherText | Scraper_Script.py:51 | Text holding a character that is neither part of a number nor of nan/inf/infinity raises, so it never becomes a silent NaN. |
| FloatText.ParsedIsNumeric | Scraper_Script.py:51 | Whatever the decimal parser accepts consists of digits, signs, a point and exponent marks. |
| FloatText.QuotedLiteral | Scraper_Script.py:50-51 | `'0.42'` and `0.42` convert to the same number, namely the digits over a power of ten. |
| FloatText.RenderRoundTrip | Scraper_Script.py:50-51 | The text `str()` writes for a number parses back to that number. |
| FloatText.AsTextRoundTrip | Scraper_Script.py:50-51 | For every non-string cell, `float(str(x).replace("'", "")) == x`. |
| Cleaning.CleanColumnInPlace | Scraper_Script.py:49-51 | One pass of the loop body leaves the frame and outcome `CleanColumn` gives. On success, every row has the column. No row loses a field. |
| Cleaning.CleanShotData | Scraper_Script.py:48-55 | The loop and the two rescalings leave the frame exactly as `CleanShots` says, including the partly cleaned frame left behind when an exception escapes. |
| Cleaning.Rescale | Scraper_Script.py:53-54 | Row `i` becomes the old row with X scaled by 120 and Y by 80, Y read after X was set. Every other field is kept. |
| Cleaning.StripCell | Scraper_Script.py:50 | The cell becomes a string holding no apostrophe. |
| Cleaning.ScaleCell | Scraper_Script.py:53-54 | Multiplying a number multiplies its value by `k`. NaN and the infinities are left as they are. |
| Cleaning.GatherOk | Scraper_Script.py:51 | Converting a column succeeds iff each cell's conversion does. The values are then the cells' own, in order. |
| Cleaning.GatherFirstError | Scraper_Script.py:51 | The exception is that of the first failing cell. |
| Cleaning.CoerceColumn | Scraper_Script.py:51 | `astype(float)` succeeds iff every cell converts, and converts each cell on its own. |
| Cleaning.CoerceColumnFirstError | Scraper_Script.py:51 | A failed `astype(float)` names the first cell, from the top, that is not a number. |
| Cleaning.ColumnParsesIff | Scraper_Script.py:49-51 | The loop body gets through a column iff the column exists and each cell, apostrophes removed, is a number. It then puts each cell's own number in its place. |
| Cleaning.CleanColumnSpec | Scraper_Script.py:49-51 | The loop body on one column passes iff the column parses, and then sets the column to the parsed numbers. In both cases no row is added or lost and every other column is kept. |
| Cleaning.LoopSpec | Scraper_Script.py:49-51 | The loop completes iff X, Y and xG all parse, and then leaves the three parsed columns in place. |
| Cleaning.CleanOkIff | Scraper_Script.py:48-55 | `clean_shot_data` returns iff X, Y and xG exist and each of their cells, apostrophes removed, is a number. |
| Cleaning.CleanRows | Scraper_Script.py:49-54 | On success, every row is the original row with three changes and nothing else: X is its parsed value times 120, Y is its parsed value times 80, and xG is its parsed value, unscaled. |
| Cleaning.CleanedNumbers | Scraper_Script.py:49-54 | On success, every row holds numbers, not strings, in X, Y and xG. |
| Cleaning.CleanFailureKeepsRest | Scraper_Script.py:48-51 | When an exception escapes, every column other than X, Y and xG is still as it was. |
| Cleaning.CleanMissingX | Scraper_Script.py:50 | A frame without X raises `KeyError('X')` and is left untouched. |
| Cleaning.ParsedQuoteInsensitive | Scraper_Script.py:50-51 | An apostrophe anywhere in a cell does not change the number it becomes. |
| Cleaning.ParsedQuotedDecimal | Scraper_Script.py:50-51 | The provider's quote-wrapped decimals, such as `'0.885'`, become that decimal. |
| Cleaning.ParsedNumber | Scraper_Script.py:50-51 | A cell that already holds a number, NaN or an infinity becomes itself again. |
| Cleaning.CleanTwice | Scraper_Script.py:48-55 | The call is not idempotent. Cleaning a cleaned frame succeeds and scales X and Y a second time, leaving xG and every other field unchanged. |

## Left out

- **The provider.** The understat client and its network calls are not modelled.
  - `get_match_data` becomes the parameter `responses`, one list of match records per league.
  - `get_shot_data` becomes the parameter `provider`, a map from match id to home and away records.
  - A failing request is an id missing from that map.
  - The season argument only selects what the provider returns, so it is folded into `responses`.
- **The clock.** `datetime.today()` becomes the parameter `clock`, one reading per listed match.
- **Records without `'h'` or `'a'`.** A shot-data reply without these keys is not modelled: `ShotGroups` always has both lists.
- **Entries without `'id'` or `'league'`.** The entries `match_shots` receives are always `match_id_retrieval`'s own, so they always have both keys.
- **pandas internals.** Dtypes, the index, column order and the block manager are not modelled.
  - A frame is its list of row dicts, and a column exists once any row carries it.
  - A row that lacks a field reads as NaN.
- **Floating point.** IEEE doubles are replaced by exact decimals: `float()` parses exactly and `* 120` multiplies exactly.
  - Rounding, overflow to infinity and the shortest-repr printing of floats are not modelled.
  - `str()` of a number is modelled by a scientific form that reads back as the same number, in place of Python's `repr`.
- **Text.** Only ASCII is modelled.
  - Non-ASCII digits and whitespace are not, although `\d`, `\s` and `float()` accept them.
  - Underscores between digits in `float()` literals are not modelled.
  - `float()` trims only TAB, LF, VT, FF, CR and space from ASCII text. `strptime`'s `\s` also matches the separators 0x1C-0x1F. The model keeps the two sets apart.
- **`strptime`.** Only the one format the scraper uses is modelled. The locale and the `%`-directives it does not use are left out.
- **Exception messages.** Every `ValueError` from `strptime` is `BadDatetime(s)`, and every one from `float()` is `NotAFloat(s)`. The wording of CPython's messages is not modelled.
- **`collect_shot_data`** is fixed configuration and two calls, so it is not modelled.
- **The `__main__` block and the CSV output** are file I/O, so they are not modelled.
- **`Pitch_Image.py`** is visualisation only, so it is not part of this model.
