# User/department report: a Dafny model

`process_users.py` reads a device export in CSV form and prints one line per
person, `user,department`, sorted by user. Each record contributes
its `AssignedTo` and `Department` fields, with surrounding whitespace
stripped. A record is dropped when its user is empty or is one of the status
words `active`, `broken` or `retired`. These words match exactly and
case-sensitively. A user may appear in several records. The department of
the last such record wins. The finished map is printed in ascending user
order.

The model has four modules: one per stage of the script, and one of small situations.

- `Text` (`text.dfy`). `Trim` models `str.strip()` with no arguments. It
  strips the ASCII code points that Python's `str.isspace()` accepts. `Less`
  models Python's `<` on strings: lexicographic on code points, with a proper
  prefix first. The file also holds the order lemmas the sort relies on.
- `Aggregation` (`aggregate.dfy`) models the per-record loop.
  - Records are maps from column name to field.
  - `Extract` is the two lookups with their `''` default, then the strips.
  - `Qualifies` is the filter.
  - `Record` is the assignment into the map.
  - `Aggregate` is the fold over all records.
  - `ProcessRows` is the loop as the source writes it, with a mutable map.
- `Report` (`report.dfy`) models the second loop.
  - `SortedEntries` models `sorted(users.items())`: it builds the items in
    strictly ascending user order.
  - `FormatLine` is the f-string `user,dept`.
  - `Run` is the whole pass from records to lines.
- `Scenarios` (`scenarios.dfy`) holds small, concrete situations. Each is
  stated for any users and departments of the right shape.

## Model

| member | source | states |
|---|---|---|
| Text.Trim | process_users.py:9-10 | the stripped field has no whitespace at either end |
| Text.TrimIsSlice | process_users.py:9-10 | stripping only removes whitespace: the result is a middle slice of the field with nothing but whitespace on each side |
| Text.TrimOfPadded | process_users.py:9-10 | a trimmed text padded with any whitespace on both ends strips back to exactly that text, so the result is determined |
| Text.TrimOfTrimmed | process_users.py:9-10 | a field with no surrounding whitespace is left unchanged |
| Text.TrimIdempotent | process_users.py:9-10 | stripping twice gives the same as stripping once |
| Text.TrimLeftIsSuffix | process_users.py:9-10 | stripping the front leaves a suffix of the field |
| Text.TrimRightIsPrefix | process_users.py:9-10 | stripping the back leaves a prefix of the field |
| Text.TrimLeftDropsSpace | process_users.py:9-10 | the leading part that is removed is all whitespace |
| Text.TrimRightDropsSpace | process_users.py:9-10 | the trailing part that is removed is all whitespace |
| Text.LessIrreflexive | process_users.py:16 | no user sorts before itself |
| Text.LessAsymmetric | process_users.py:16 | two users never sort before each other |
| Text.LessTransitive | process_users.py:16 | the string order used by `sorted` is transitive |
| Text.LessTotal | process_users.py:16 | any two different users are ordered one way or the other |
| Aggregation.Extract | process_users.py:9-10 | a present column gives its own value stripped, a missing column gives the empty string; both fields come back with no surrounding whitespace |
| Aggregation.Record | process_users.py:12-13 | a dropped pair leaves the map unchanged; a kept pair adds or overwrites exactly its user with its department; every other user keeps its value |
| Aggregation.FoldKeys | process_users.py:8-13 | a user is in the map iff some pair in the sequence qualifies with that user |
| Aggregation.FoldLastWins | process_users.py:8-13 | a user's value is the department of the last qualifying pair for that user |
| Aggregation.FoldSkip | process_users.py:12 | a non-qualifying pair anywhere in the sequence has no effect |
| Aggregation.FoldWellFormed | process_users.py:9-13 | if all pairs are stripped, the map holds only non-empty, stripped, non-sentinel users with stripped departments |
| Aggregation.AggregateSnoc | process_users.py:8-13 | processing one more record is one more loop step on the map built so far |
| Aggregation.AggregatePrefixStep | process_users.py:8-13 | the map after the first k+1 records is the map after the first k records with record k applied |
| Aggregation.AggregateWellFormed | process_users.py:9-13 | every key of the map is non-empty, stripped and not a sentinel, and every value is stripped |
| Aggregation.KeysExactly | process_users.py:9-13 | a user is a key iff some record's stripped user equals it and qualifies |
| Aggregation.KeySet | process_users.py:9-13 | the keys are exactly the distinct qualifying users, so there are as many entries as such users |
| Aggregation.LastWriteWins | process_users.py:13 | a user's value is the stripped department of the last qualifying record for that user |
| Aggregation.SkippedRowAppended | process_users.py:12 | a dropped record at the end of the input changes nothing |
| Aggregation.SkippedRowAnywhere | process_users.py:12 | a dropped record changes nothing wherever it stands in the input |
| Aggregation.MissingUserSkipped | process_users.py:9-12 | a record without an `AssignedTo` column is dropped |
| Aggregation.MissingDepartmentEmpty | process_users.py:10-13 | a kept record without a `Department` column records its user with the empty department |
| Aggregation.ProcessRows | process_users.py:5-13 | the imperative loop over the records builds exactly the map `Aggregate` describes |
| Report.Insert | process_users.py:16 | inserting a new user into a strictly sorted listing keeps it strictly sorted, adds exactly that entry and lengthens the listing by one |
| Report.SortedEntries | process_users.py:16 | the listing is strictly ascending by user, holds exactly the map's items and has one entry per key |
| Report.SortedUsersDistinct | process_users.py:16 | no user appears twice in a sorted listing |
| Report.SortedUnique | process_users.py:16 | two strictly sorted listings with the same entries are equal |
| Report.ReportDeterministic | process_users.py:16 | any two sorted listings of the same map are equal, so the output does not depend on map iteration order |
| Report.FormatLine | process_users.py:17 | the line is the user, one comma, then the department |
| Report.FormatLineSplits | process_users.py:17 | a line can be read back into its entry whenever the user holds no comma |
| Report.FormatLineAmbiguous | process_users.py:17 | with no quoting, two different entries can print the same line |
| Report.FormatLines | process_users.py:16-17 | one line per entry, in order, each the formatted entry |
| Report.Run | process_users.py:5-17 | the printed lines follow the strictly sorted items of the aggregated map, one line per distinct qualifying user |
| Scenarios.AppendKept | process_users.py:12-13 | a kept record whose fields need no stripping sets its user to its department |
| Scenarios.AppendDropped | process_users.py:12 | a record whose stripped user is a sentinel changes nothing |
| Scenarios.SentinelBetweenUsers | process_users.py:12-13 | in user, sentinel, user order only the two users are recorded |
| Scenarios.SentinelBetweenUsersReport | process_users.py:12-17 | two users around a sentinel print as exactly two lines, in order |
| Scenarios.RepeatedUserLastWins | process_users.py:13 | a user given twice keeps the second department |
| Scenarios.BlankUserDropped | process_users.py:9-12 | a user field of only whitespace is dropped |
| Scenarios.PaddedSentinelDropped | process_users.py:9-12 | a sentinel with surrounding whitespace is still dropped |
| Scenarios.CapitalisedSentinelsKept | process_users.py:12-13 | sentinels match case-sensitively: a record for `Active` or `RETIRED` is recorded, one for `active` is dropped |
| Scenarios.AliceActiveBob | process_users.py:9-13 | records Alice/Eng, active/X, Bob/Sales give the map {Alice: Eng, Bob: Sales} |
| Scenarios.AliceActiveBobReport | process_users.py:16-17 | every sorted listing of that map is Alice/Eng then Bob/Sales |

## Left out

- Opening the export file (line 6): the records are the input, a sequence of maps from column name to field.
- CSV parsing by `csv.DictReader` (line 7): quoting, the header row and dialects are not modelled.
- `None` fields: DictReader fills short rows with `None`, and the source would then fail on `.strip()`. The model's fields are always strings.
- Writing to standard output (line 17): the model produces the list of line strings, without the newline `print` adds.
- The unused `import re` (line 2).
- Unicode whitespace above U+007F (for example U+00A0 and U+2028). Python's `strip()` removes these, but `Text.IsSpace` covers only the ASCII whitespace set.
- Output quoting: the source does not escape commas, and neither does the model. `Report.FormatLineAmbiguous` shows the consequence.
- The sentinel list holds `''` alongside the emptiness test. The model keeps both, as written.
