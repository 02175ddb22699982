# Olympic medalists dashboard — a Dafny model of its data core

The dashboard shows Olympic medalists in two ways. The first is a table that
can be filtered. The second is an animated bubble chart with one frame per
Games. In each frame, every sport is a bubble:

- its x position is the female-over-male ratio of medalists in the selected
  age range;
- its y position is the share of that sport's medalists who fall in the
  range;
- its size is the number of medalists in the range.

This project models the data logic behind both views:

- `FilterQuery` (filter_query.dfy): the parser for one clause of the table's
  filter query, `split_filter_part`, together with the operator table it
  searches.
- `TableFilter` (table_filter.dfy): `update_table`, which splits a query on
  ` && ` and narrows the rows clause by clause. Also the age-range caption
  `update_ageRange`.
- `Roster` (roster.dfy): the hover text of a bubble. This covers
  `format_info_by_gender_country`, which groups the medalists of a sport by
  gender and country and breaks long lines every six names. It also covers
  the bilingual sport label `format_sport_en_cn`.
- `Medals` (medals.dfy): the per-Games table `get_df_bub_1_yr`. That is the
  per-sport counts, the ratios, the sentinel values, the in-place update of
  the age bound, and the display column. Also `get_dfs_bub`, which
  concatenates the years and attaches the sport category and label.
- `Frames` (frames.dfy): `get_fig_data`. This builds one frame per year, made
  of the "% of Age" reference line and one bubble series per sport category.
  The figure's initial data is the last frame's data.
- `Text` (text.dfy): the Python string operations the code relies on, such as
  `in`, `split`, `join`, `strip`, `index`, slicing and `str(int)`. Also
  ordering, sorted de-duplication and first-appearance de-duplication.
- `Wrappers` (wrappers.dfy): `Option`, and `Result` with the Python exception
  kinds the core can raise.
- `Settings` (settings.dfy): the slider's upper age bound.

The model has the following form:

- Pure code becomes functions with contracts and lemmas.
- Code that loops or mutates becomes methods proved equal to those functions:
  - `UpdateTable`, `InsertBreaks`, `GroupByGender`, `FormatInfo`,
    `FormatBlock`;
  - `BubblesForYear`, `BubblesForYears`, `ConcatYears`, `AddCategories`,
    `AddDisplays`;
  - `ReplaceSentinelsInPlace`, `FillFoMInPlace`, `FigData`.
- The in-place overwrite of `age[1]` is an `array<int>` the methods modify.
- The `replace(…, inplace=True)` on the per-year table is an array of rows
  updated in place. The `fillna` that follows rebinds `temp` to a new frame.
  The model applies it to the same array, which has the same effect because
  nothing else refers to the old frame.

Python's float division is modelled by `Medals.Quotient`, which is a finite
real, infinity or NaN. The model rounds `round(…, 2)` half up on exact reals;
pandas rounds binary floats half to even (see "Left out"). Exceptions are `Failure` values that carry the exception kind.

## Model

| member | source | states |
|---|---|---|
| FilterQuery.FindOperator | app_goFrames.py:147-158 | the token found occurs in the clause, and no token earlier in table order (group by group, token by token) occurs; None exactly when no token of the table occurs |
| FilterQuery.SearchFrom | app_goFrames.py:156-158 | a search resumed at a table position finds the first occurring token at or after it, or None when none from there occurs |
| FilterQuery.OperatorName | app_goFrames.py:174 | the operator a clause carries is the group's first token without its trailing space |
| FilterQuery.ColumnNameBetweenBraces | app_goFrames.py:160 | the column name is the text between the first `{` and the last `}` of the part before the operator |
| FilterQuery.Unescape | app_goFrames.py:164-165 | the inverse of escaping each quote character (the round trip is UnescapeEscape); the result is never longer than the text |
| FilterQuery.UnescapeEscape | app_goFrames.py:164-165 | unescaping a text in which each quote was escaped gives the text back |
| FilterQuery.ParseMagnitudeDigits | app_goFrames.py:166-168 | a non-empty run of digits reads as that whole number |
| FilterQuery.ParseFloatInt | app_goFrames.py:166-168 | an integer written in decimal parses as that number |
| FilterQuery.ParseValue | app_goFrames.py:162-170 | the value is an IndexError exactly when the stripped value text is empty; its three branches (quoted text, number, plain text) are given by ParseValueQuoted, ParseValueInt and ParseValueText |
| FilterQuery.ParseStripped | app_goFrames.py:163-170 | on a stripped text, the IndexError of `value_part[0]` happens exactly on the empty text (the value of each branch is given by the three ParseValue lemmas) |
| FilterQuery.ParseValueQuoted | app_goFrames.py:162-165 | a padded, quoted, escaped text parses back to the original text |
| FilterQuery.ParseValueInt | app_goFrames.py:162-168 | a padded integer parses to that number |
| FilterQuery.ParseValueText | app_goFrames.py:162-170 | a padded, unquoted text that `float` rejects parses to the stripped text itself |
| FilterQuery.ChinaIsText | app_goFrames.py:162-170 | ` China` is not a number and parses to the text `China` |
| FilterQuery.SplitFilterPart | app_goFrames.py:155-176 | a recognised clause carries one of the eight operator words; a failure is the IndexError of `value_part[0]` |
| FilterQuery.SplitFilterPartAt | app_goFrames.py:155-174 | when the earliest token in table order first occurs right after `namePart`, the clause splits there: the column is the braced name of `namePart`, the operator is the group's word and the value is the parsed rest, or IndexError when the rest is blank |
| FilterQuery.SplitNumericClause | app_goFrames.py:155-174 | `{name}`, blanks, an operator token, blanks and a decimal integer parse to that column, operator word and number |
| FilterQuery.SplitQuotedClause | app_goFrames.py:155-174 | `{name}`, blanks, an operator token, blanks and a quoted, escaped text parse to that column, operator word and the original text |
| FilterQuery.SplitTextClause | app_goFrames.py:155-174 | `{name}`, blanks, an operator token, blanks and an unquoted text that is not a number (as in `{Country} contains China`) parse to that column, operator word and the text |
| FilterQuery.AgeAtLeastEighteen | app_goFrames.py:155-174 | `{Age} ge 18` parses to the column `Age`, the operator `ge` and the number 18 |
| FilterQuery.ColumnName | app_goFrames.py:160 | the slice between the braces is never longer than the name part (its value is given by ColumnNameBetweenBraces) |
| FilterQuery.ParseFloat | app_goFrames.py:166-170 | `float` of the empty text is a ValueError (the value of a decimal integer is given by ParseFloatInt) |
| FilterQuery.ParseMagnitude | app_goFrames.py:166-168 | an unsigned literal needs at least one character (whole numbers are read by ParseMagnitudeDigits) |
| FilterQuery.SplitAt | app_goFrames.py:159-174 | once an operator is found, the clause is recognised with that group's word, or fails with IndexError exactly when nothing but blanks follows the operator |
| FilterQuery.UnrecognisedIff | app_goFrames.py:155-176 | a clause parses to `[None] * 3` exactly when no operator token occurs in it |
| TableFilter.UpdateTable | app_goFrames.py:181-197 | the loop over the ` && `-separated clauses returns the rows the whole query keeps, or its first error |
| TableFilter.Compare | app_goFrames.py:187-189 | a comparison fails exactly when it orders a number against a text; `eq` and `ne` never fail; the failure is a TypeError |
| TableFilter.Holds | app_goFrames.py:187-195 | a clause on a missing column is a KeyError; every failure is a KeyError or a TypeError |
| TableFilter.KeepMatching | app_goFrames.py:187-195 | masking with one clause never adds rows; a failure is a KeyError or a TypeError |
| TableFilter.Step | app_goFrames.py:185-195 | one clause never adds rows; a failure is an IndexError, KeyError or TypeError |
| TableFilter.Run | app_goFrames.py:184-195 | the clauses together never add rows; a failure is an IndexError, KeyError or TypeError |
| TableFilter.ApplyFilter | app_goFrames.py:181-197 | the query never adds rows; a failure is an IndexError, KeyError or TypeError (exactly what is kept is given by FilterIsSubsequence) |
| TableFilter.KeepMatchingSelects | app_goFrames.py:187-195 | a clause that raises no error keeps exactly the rows that satisfy it, in order |
| TableFilter.SelectAllMembers | app_goFrames.py:184-195 | every selected row is a row of the table and satisfies every clause |
| TableFilter.SelectAllCompose | app_goFrames.py:184-195 | narrowing by one clause and then by the rest equals narrowing by all of them |
| TableFilter.SelectAllAppend | app_goFrames.py:184-195 | selection distributes over concatenation of row lists |
| TableFilter.RunSelects | app_goFrames.py:182-195 | a query without error parses every clause, names only existing columns, and keeps exactly the rows satisfying all clauses |
| TableFilter.SelectAllIsSubsequence | app_goFrames.py:184-195 | the selected rows are a subsequence of the table's rows |
| TableFilter.FilterIsSubsequence | app_goFrames.py:181-197 | a query without error returns the rows satisfying all of its clauses, in the table's order, as a subsequence of the table |
| TableFilter.UnrecognisedClauseKeepsRows | app_goFrames.py:185-195 | a clause with no operator leaves the rows unchanged |
| TableFilter.EmptyQueryKeepsTable | app_goFrames.py:181-197 | the empty query returns the whole table |
| TableFilter.KeepMatchingAll | app_goFrames.py:187-195 | when every row satisfies the clause, masking keeps them all |
| TableFilter.RunOnMatchingRows | app_goFrames.py:184-195 | rows that satisfy every clause of a valid query pass through it unchanged |
| TableFilter.FilterIdempotent | app_goFrames.py:181-197 | filtering the filtered rows with the same query gives the same rows |
| TableFilter.AgeLabel | app_goFrames.py:121-123 | the caption shows `+` exactly when the upper bound is the slider's maximum |
| TableFilter.NoPlusInNumber | app_goFrames.py:122 | a decimal integer never contains `+` |
| Text.JoinSplit | utils.py:36 | joining the pieces of a split with the separator gives the text back |
| Text.StripPadded | app_goFrames.py:162 | stripping removes exactly the blank padding around a text that neither starts nor ends with a blank |
| Text.ParseNatToString | app_goFrames.py:122 | the decimal text of a natural number is all digits and reads back as that number |
| Text.IntToStringRoundTrip | app_goFrames.py:122 | `str` of an integer is an optional minus followed by digits, and reads back as that integer |
| Text.IntToStringInjective | utils.py:180 | different years give different frame names |
| Text.SortedDistinct | utils.py:68 | the groupby keys are strictly increasing and are exactly the values present |
| Text.DedupSpec | utils.py:41 | de-duplication keeps each value once, in order of first appearance |
| Roster.ParseEntry | utils.py:36 | an entry that unpacks joins back, with `::`, to the original text; unpacking fails exactly when the text does not split into four fields |
| Roster.ParseEntries | utils.py:35-36 | the parsed entries correspond one to one with the roster texts; a failure is a ValueError |
| Roster.Label | utils.py:38 | a player's label is non-empty and ends with the closing parenthesis of the age |
| Roster.OfGender | utils.py:37 | the entries routed to one gender are exactly those whose gender is (or is not) `Male` |
| Roster.OfGenderIsFilter | utils.py:35-38 | the entries routed to one gender are the roster's entries of that gender, each as often as in the roster, in roster order |
| Roster.Add | utils.py:38 | appending to a defaultdict: the country's list (empty when new) grows by the item, the keys gain the country, and no other list changes |
| Roster.Group | utils.py:32-38 | grouping the entries gives at most one country per entry |
| Roster.Countries | utils.py:38 | the countries of the entries, one per entry |
| Roster.GroupCountries | utils.py:38 | the grouped countries are distinct, are exactly the dictionary's keys, and are exactly the countries present |
| Roster.GroupPlayers | utils.py:38 | each country's list holds that country's labels in roster order |
| Roster.PlayersOfAbsent | utils.py:38 | a country with no entry has no players |
| Roster.GroupOrder | utils.py:32-38 | dictionary order is the de-duplicated order of the entries' countries |
| Roster.GroupFirstAppearance | utils.py:32-38 | countries appear once each, in order of their first entry |
| Roster.WithBreaks | utils.py:42-44 | the list grows by one marker per complete run of six players |
| Roster.WithBreaksAppendRun | utils.py:42-44 | a full run of six players is followed by a line-break marker |
| Roster.WithBreaksAppendTail | utils.py:42-44 | a final run shorter than six players gets no marker |
| Roster.InsertBreaks | utils.py:41-44 | the insertion loop at index (b+1)*6+b produces the list with a marker after every sixth player |
| Roster.InsertStep | utils.py:42-44 | inserting at (b+1)*6+b after b markers puts the next marker right after the next run of six players |
| Roster.InsertDone | utils.py:42-44 | once every complete run has its marker, the list is the players with a marker after every sixth |
| Roster.BreaksRemovable | utils.py:42-44 | removing the markers gives the players back, and there are exactly len/6 markers |
| Roster.BreakPositions | utils.py:43-44 | the k-th marker sits at index 7k+6 |
| Roster.LabelsAreNotBreaks | utils.py:38 | no player label is the line-break marker |
| Roster.GroupComplete | utils.py:32-38 | every grouped country has a player list |
| Roster.Route | utils.py:31-38 | routing leaves both dictionaries with a list per key; a failure is a ValueError |
| Roster.FormatInfoSpec | utils.py:30-56 | the display text, or the ValueError of a malformed entry |
| Roster.CountryLine | utils.py:45-46 | a country's line starts with the country and `: ` and ends with `<br>` |
| Roster.Block | utils.py:41-46 | the lines accumulate: the text of the first m countries is a proper prefix of the text of more countries |
| Roster.Display | utils.py:56 | the text starts with the Females header; with no medalists it is the two headers alone |
| Roster.FormatBlock | utils.py:41-46 | the per-country loop produces the `country: players<br>` lines in dictionary order |
| Roster.GroupByGender | utils.py:32-38 | the roster loop fills the male and female dictionaries as the grouping functions say |
| Roster.FormatInfo | utils.py:30-56 | the whole formatter equals its specification, errors included |
| Roster.RouteFailsAt | utils.py:35-36 | the first malformed entry makes routing fail with ValueError |
| Roster.RouteOfAll | utils.py:32-38 | when every entry unpacks, routing groups the male and the female entries |
| Roster.ParseFailurePropagates | utils.py:35-36 | a malformed entry anywhere makes the whole roster fail |
| Roster.NoRosterGivesEmptyBlocks | utils.py:34-56 | a row whose roster is not a list shows only the two headers |
| Roster.SportLabel | utils.py:58-61 | the label fails with ValueError exactly when the name has no `(`; otherwise it is four characters longer |
| Roster.SportLabelSplitsAtFirstParen | utils.py:60-61 | `<br>` is inserted before the first `(`, and deleting it gives the name back |
| Roster.BilingualSportLabel | utils.py:58-61 | `English(Chinese)` becomes `English<br>(Chinese)` |
| Medals.NormalizeUpperIdempotent | utils.py:71-72 | widening the top age bound is idempotent and never leaves the slider maximum in place |
| Medals.KeepCountries | utils.py:64-65 | the rows kept are exactly those of the chosen countries |
| Medals.KeepCountriesIsFilter | utils.py:64-65 | `isin` keeps the rows of the chosen countries, each as often as in the table, in table order |
| Medals.ByCountry | utils.py:64-67 | `['All']` keeps every row; otherwise exactly the rows of the chosen countries |
| Medals.ByCountryIsFilter | utils.py:64-67 | the selected rows are the table's rows of the chosen countries (all of them for `['All']`), with their multiplicities, in table order |
| Medals.CountAll | utils.py:75 | a sport's count that year never exceeds the number of rows |
| Medals.CountGender | utils.py:76-77 | a gender's count within the age range never exceeds the sport's count that year |
| Medals.Tally | utils.py:75-86 | the row belongs to the sport and the year; FaM = Female + Male ≤ All; iMeta is `_info`, the list of the in-range roster strings (MetaListIsFilter), or NaN (None) when it is empty |
| Medals.RangeRowsIsFilter | utils.py:73-78 | the rows `_info` draws from are the medalists of the sport in the year within the age range, of any gender, each as often as in the table, in table order |
| Medals.MetaListOfRangeRows | utils.py:78 | `_info` is the `iMeta` column of those rows |
| Medals.MetasSubsequence | utils.py:78 | taking the `iMeta` column keeps a subsequence a subsequence |
| Medals.MetaListIsFilter | utils.py:73-78 | `_info` lists the roster strings of exactly the in-range medalists of the sport and year, in table order, as a subsequence of the table's `iMeta` column |
| Medals.ReplaceSentinels | utils.py:87 | after the replace, FoM is never 0 nor infinity, is NaN exactly when it was, and any other finite value is unchanged |
| Medals.FillNaN | utils.py:88 | after the fill, FoM is never NaN, and any other value is unchanged |
| Medals.Round2 | utils.py:85-86 | the rounded value is a whole number of hundredths |
| Medals.SportsIn | utils.py:68 | the sports are exactly those of the rows |
| Medals.Sports | utils.py:68-90 | the table's sports are strictly sorted and are exactly the sports of the selected countries over all years |
| Medals.CountsBounded | utils.py:75-77 | male plus female medalists in the range never exceed the sport's medalists that year |
| Medals.AbsentSportCountsZero | utils.py:75-82 | a sport absent that year gets counts of zero |
| Medals.Divide | utils.py:85-86 | float division: exact for a positive divisor; NaN for 0/0 and infinity for n/0 |
| Medals.Round2Close | utils.py:85-86 | rounding to two decimals moves a value by at most 0.005 |
| Medals.Round2Zero | utils.py:85-87 | a non-negative value rounds to 0 exactly when it is below 0.005 |
| Medals.Round2Percent | utils.py:86 | rounding keeps a percentage within [0, 100] |
| Medals.PercentRange | utils.py:86 | AoAll is a percentage in [0, 100] when the sport has medalists, and NaN otherwise |
| Medals.RatioThreshold | utils.py:85-87 | the ratio rounds to 0 exactly when 200 females are fewer than the males |
| Medals.FoMSentinelLaw | utils.py:85-88 | after the replacements and the fill, FoM is −100 when there are no medalists in the range, 100 when only women, 0.01 when the rounded ratio is 0, and the rounded ratio otherwise; never 0 |
| Medals.WithDisplay | utils.py:89 | the display column is each row's formatted roster, the other columns are unchanged, and a failure is a ValueError |
| Medals.YearTable | utils.py:63-90 | the only failure of a year's table is the ValueError of a malformed roster (shape, counts, roster list and ratios are given by YearTableShape, YearTableCounts and YearTableRatios; the display by WithDisplay) |
| Medals.YearTableShape | utils.py:68-90 | one row per sport of the selected countries, sorted by sport, all stamped with the year |
| Medals.YearTableCounts | utils.py:71-84 | All counts the year's medalists of the sport; Male and Female count those within the (widened) age range; FaM is their sum and at most All; iMeta is the list of the in-range roster strings of the sport, or None when there are none |
| Medals.TallyRatios | utils.py:83-88 | one sport's row gets the FoM sentinel law, and AoAll is a percentage when the sport has medalists and NaN otherwise |
| Medals.ShareAtMostOne | utils.py:86 | a part of a non-empty whole is a share in [0, 1] |
| Medals.YearTableRatios | utils.py:83-88 | FoM follows the sentinel law, and AoAll is a percentage or NaN exactly when All is 0 |
| Medals.DisplayFailurePropagates | utils.py:89 | one malformed roster makes the whole year fail |
| Medals.ReplaceSentinelsInPlace | utils.py:87 | the in-place replace maps FoM 0 to 0.01 and infinity to 100 and changes nothing else |
| Medals.FillFoMInPlace | utils.py:88 | the fill (a rebinding of `temp` in the source, applied to the same row array here) turns a NaN FoM into −100 and changes nothing else |
| Medals.AddDisplays | utils.py:89 | the row-by-row apply equals the display specification |
| Medals.BubblesForYear | utils.py:63-90 | the year's table is computed as specified; `age[1]` becomes 1000 when it was the slider maximum and is otherwise unchanged; `age[0]` is untouched |
| Medals.AllYears | utils.py:92-96 | a failure of the concatenation is the ValueError of a malformed roster |
| Medals.Categorise | utils.py:97-98 | each row keeps its data and gets its category (None when unmapped) and its label; failure (ValueError) exactly when some sport name has no `(` |
| Medals.BlocksLength | utils.py:94-96 | a table made of one block of all sports per year has years × sports rows |
| Medals.AllYearsBlocks | utils.py:94-96 | the concatenation is, year by year, one block of one row per sport in sorted order, stamped with the year (the counts of each row are given by Frames.AllYearsRows) |
| Medals.BubbleTableRowCount | utils.py:92-99 | a successful table needs at least one year and has one row per year and sport |
| Medals.YearsFailurePropagates | utils.py:94-96 | a failing year makes the whole concatenation fail |
| Medals.ConcatYears | utils.py:93-96 | the year loop equals the concatenation, and the age bound is widened once any year ran |
| Medals.AddCategories | utils.py:97-98 | the two column assignments equal the categorisation specification |
| Medals.BubbleTable | utils.py:92-99 | a failure is a KeyError exactly when no year is requested, and otherwise a ValueError |
| Medals.BubblesForYears | utils.py:92-99 | `get_dfs_bub` computes the bubble table, KeyError on no years, with the age-bound side effect |
| Frames.OfYearMembers | utils.py:181 | the query keeps exactly the rows of that year |
| Frames.OfYearIsFilter | utils.py:181 | the year's rows are the table's rows of that year, each as often as in the table, in table order |
| Frames.SumsBounded | utils.py:182 | summed FaM never exceeds summed All |
| Frames.PercentOfAge | utils.py:182-184 | `.values[0]` raises IndexError exactly when the year has no rows |
| Frames.PercentOfAgeRange | utils.py:182-184 | the reference line's height is a percentage in [0, 100], or NaN when no medalists |
| Frames.InCategory | utils.py:198 | the rows of one category; a missing category selects nothing |
| Frames.InCategoryIsFilter | utils.py:198 | the category's rows are the year's rows of that category, with their multiplicities, in order; a missing category selects nothing |
| Frames.PointOf | utils.py:200-208 | a bubble's x and y are never NaN (filled with 0), and equal FoM and AoAll when those are not NaN |
| Frames.FrameFor | utils.py:180-219 | a frame is named after its year and fails with IndexError exactly when that year has no rows |
| Frames.FramesFor | utils.py:179-220 | one frame per year; a failure is an IndexError |
| Frames.FramesForEach | utils.py:179-220 | frame i is the frame built for the i-th requested year |
| Frames.BuildFrame | utils.py:180-219 | one pass of the year loop, with its inner loop over categories, builds exactly that year's frame or its IndexError |
| Frames.FigureFailsAt | utils.py:182-184 | a requested year without rows makes the whole figure fail with IndexError |
| Frames.SomeYearEmptyIff | utils.py:179-184 | some requested year has no rows exactly when one at some index has none |
| Frames.FigureSpec | utils.py:176-223 | a figure has one frame per requested year and at least one; its only failure is an IndexError |
| Frames.FigureFrames | utils.py:176-223 | the figure has one frame per requested year, named by the year, and starts on the last frame's data |
| Frames.FrameNamesDistinct | utils.py:180 | distinct years give distinctly named frames |
| Frames.FramesFailure | utils.py:179-184 | building frames fails exactly when some requested year has no rows |
| Frames.FigureFailure | utils.py:176-223 | the figure fails (IndexError) exactly when no year is requested or some year has no rows |
| Frames.CategoriesSpec | utils.py:197 | `unique()` lists each category present once, in order of first appearance |
| Frames.FrameShape | utils.py:185-219 | a frame's data is the reference line at the year's percentage, followed by one series per category with that category's points |
| Frames.FigureOfBubbleTable | utils.py:201-202 | for a table from `get_dfs_bub`, every bubble's x is the FoM sentinel law and its y a percentage in [0, 100] |
| Frames.AllYearsRows | utils.py:73-96 | every row of the concatenation belongs to a requested year; All counts its sport's medalists that year and Male and Female those within the widened age range; FaM = Female + Male ≤ All; FoM follows the sentinel law and AoAll is in [0, 100] |
| Frames.PointInFrame | utils.py:197-208 | every point of a category series in a year's frame is the point of a row of that year and that category |
| Frames.FramePointsOfBubbleTable | utils.py:197-208 | for a table from `get_dfs_bub`, every point of a year's category series comes from a row of that year and category, has x the FoM sentinel law, y in [0, 100], and size FaM = Female + Male ≤ All |
| Frames.FigurePointsOfBubbleTable | utils.py:176-223 | the same holds for every point of every category series of every frame of the figure |
| Frames.FramesFailurePropagates | utils.py:179-184 | a year without rows makes frame building fail |
| Frames.FigData | utils.py:176-223 | the nested frame/series loops build exactly the specified figure |

## Left out

- Reading the CSV and JSON files (the medalist table, the host cities, the
  sport-category map): the table and the category map are parameters.
- The Dash layout, the callbacks' wiring, `main_button_callback`,
  `get_default_fig` and the server: these are UI, not data logic.
- Plot styling: colours, fonts, `sizeref` (the maximum FaM over 1000),
  annotations, and the hover templates. The reference line's
  `{yy:.2f}` text is not modelled; a frame's line keeps the height itself.
- FilterQuery.ParseFloat: accepts plain decimal notation with an optional
  sign and the ASCII digits 0–9 only. Exponents, `inf`, `nan`, underscores
  and non-ASCII Unicode decimal digits, which Python's `float` also accepts,
  are left out.
- TableFilter.Holds: `contains` is modelled as a case-insensitive literal
  substring test on letters A–Z. The pattern is not treated as a regular
  expression, and Unicode case folding is not applied.
- TableFilter.Holds: `contains` and `datestartswith` on a numeric cell or
  with a numeric value are modelled as a TypeError. pandas turns the number
  into a pattern text, or raises an AttributeError from the `.str` accessor.
- TableFilter.Compare: ordering a number against a text fails per cell. pandas
  decides by column type, so a column can fail even on rows that would not be
  compared.
- Medals.Round2: rounds half up on exact reals. pandas (through numpy)
  rounds binary floats half to even, so the two can differ in the last
  digit.
- NaN cells in the medalist table and NaN ages are not modelled. Every
  medalist has an integer age and text fields.
- Medals.Sports: the sort in `sort_values` is taken as exact. Sport keys are
  unique in a year's table, so stability does not matter.
- Medals.BubblesForYears: pandas' `apply` on an empty frame, which returns an
  empty frame rather than a column, is not modelled. The label and display
  columns of an empty table are simply empty.
