# csv2shp translator model

csv2shp converts a CSV table of points into a shapefile (point geometries) plus a
dBase attribute table. Its core is a pair of callbacks driven by the CSV tokenizer:
`field_cb` handles one field and `record_cb` handles the end of a row. Between them
they share a cursor: the pending x and y, the field ordinal and the record ordinal.
Record 0 is the header row. Each header field becomes a string column. In every later
row, field 0 is X and field 1 is Y. Every field of such a row is also stored as a string
attribute at row `record-1`, column `field`. When a data row ends, its point is appended,
provided the row had at least two fields. Any failure exits the program.

This project models that core as a pure state machine:

- `Translator`: the state, the `Field`/`RecordEnd` events, one step per callback, and the
  fold `Run` over an event stream. Every `exit(EXIT_FAILURE)` becomes an `Err`/`Aborted`
  outcome. The writers become an append-only log of operations: `AddField`, `WriteAttr`
  and `AppendPoint`.
- `UInt32`: the `unsigned int` counters, including their wrap-around.
- `Shapefile`: the log entries and the string column declaration (width 255, 0 decimals).
- `Rows`: how an event stream splits into completed rows and the still-open row.
- `StreamProperties`: whole-stream facts. These cover the counters, the number of points,
  header-only streams, fail-fast behaviour and the append-only log. They hold with 32-bit
  wrap-around included.
- `ReferenceLog`: an independent definition of the log a table should produce. It comes
  with the theorem that a run completes exactly when the table is convertible, and that it
  then writes exactly that log.
- `OutputName`: the output file stem (the input path without its last extension).

The foreign collaborators are parameters, bundled in `Translator.Env`. `parse` stands for
`sscanf("%lf")` and returns None when no number is found. `accepts(written, op)` stands
for the shapelib writer: it says whether the writer accepts `op` after the operations
`written`.

Two consequences of how the code is written:
- The code converts coordinates with `sscanf("%lf")`, which accepts a numeric prefix
  followed by other text. The model claims no whole-field strictness.
- The code checks only that a data row has at least 2 fields, never that its field
  count matches the header.

A field's bytes are copied into a zero-filled buffer and then used as a C string. So the
parse and both writers see only the text before the first NUL byte, and the model applies
`Translator.CString` to every field before it is parsed or written. Coordinates are
`Shapefile.Double` values: a finite number, NaN or an infinity. `sscanf("%lf")` accepts
"nan" and "inf", and such a point is written as it is.

## Model

| member | source | states |
|---|---|---|
| UInt32.Inc | trunk/csv2shp/csv2shp/csv2shp.c:13-14 | incrementing an `unsigned int` counter gives one more, except that the largest value wraps to 0 |
| Shapefile.StringColumn | trunk/csv2shp/csv2shp/csv2shp.c:50 | a header field is declared as a string column named after the field, width 255, 0 decimals |
| Translator.CString | trunk/csv2shp/csv2shp/csv2shp.c:24-29 | a field's text is the longest prefix of its bytes that holds no NUL: it ends at the first NUL, or at the end when there is none |
| Translator.FieldOp | trunk/csv2shp/csv2shp/csv2shp.c:31-52 | a field is sent as a column declaration named by its C-string text on record 0, and otherwise as that text stored as a string attribute at row record-1, column field |
| Translator.FieldStep | trunk/csv2shp/csv2shp/csv2shp.c:20-58 | a successful field advances the field cursor by one and keeps the record ordinal. The field is used as its C-string text. On record 0 it emits exactly one `AddField` and leaves x and y unchanged; it fails exactly when the writer rejects the column. On a data record it emits exactly one `WriteAttr(record-1, field, value)`. Only field 0 sets x and only field 1 sets y, to the parsed value; a failed parse of field 0 or 1 is a `CoordinateParse` error. Success happens exactly when both the parse and the attribute write succeed |
| Translator.RecordStep | trunk/csv2shp/csv2shp/csv2shp.c:60-84 | a successful row end resets the field cursor, advances the record ordinal and keeps x and y. The header row never yields a point, however few fields it has. A data row with fewer than 2 fields is an `IncompleteRecord` error. Otherwise the row emits exactly one `AppendPoint(x, y)`, and it succeeds exactly when the writer accepts that point |
| Translator.Step | trunk/csv2shp/csv2shp/csv2shp.c:152 | each event writes at most one operation, and a field event writes exactly one |
| Translator.Run | trunk/csv2shp/csv2shp/csv2shp.c:150-159 | the events are fed in order and the run stops at the first failure. A stopped run names an event inside the stream, and the log never has more entries than there were events |
| Translator.Convert | trunk/csv2shp/csv2shp/csv2shp.c:150-159 | the conversion succeeds exactly when every delivered event succeeds and the tokenizer and the reader report no error. A tokenizer or read error after the events is reported as such, and it keeps what was already written |
| StreamProperties.CountersTrackStream | trunk/csv2shp/csv2shp/csv2shp.c:57-83 | after a successful run, the record counter equals the number of record boundaries and the field cursor equals the number of fields in the open row, both modulo 2^32 |
| StreamProperties.StepPoints | trunk/csv2shp/csv2shp/csv2shp.c:66-80 | an event writes a point exactly when it ends a data row |
| StreamProperties.OnePointPerDataRow | trunk/csv2shp/csv2shp/csv2shp.c:60-84 | a successful run writes exactly one point per completed data row, where a data row is a row whose ordinal is not 0 modulo 2^32 |
| StreamProperties.PointsBelowWrap | trunk/csv2shp/csv2shp/csv2shp.c:66-83 | with n completed rows (1 <= n <= 2^32), exactly n-1 points are written |
| StreamProperties.FieldWritesAtCounters | trunk/csv2shp/csv2shp/csv2shp.c:31-52 | each field of a successful stream appends exactly one operation to the log. It is placed by the counters: (number of rows so far, field's position in its row), both modulo 2^32 |
| StreamProperties.HeaderReenteredAfterWrap | trunk/csv2shp/csv2shp/csv2shp.c:31-83 | after 2^32 completed rows the record counter has wrapped to 0, so the next field is declared as a column rather than stored as an attribute |
| StreamProperties.HeaderOnlyDeclaresColumns | trunk/csv2shp/csv2shp/csv2shp.c:48-52 | a header-only stream writes only column declarations: one string column per field, named by the field's C-string text, in order |
| StreamProperties.AbortIsFinal | trunk/csv2shp/csv2shp/csv2shp.c:36-76 | once a run has failed, no later event writes anything or changes the outcome |
| StreamProperties.AbortPinpointsEvent | trunk/csv2shp/csv2shp/csv2shp.c:150-159 | a failed run failed at its first failing event: every earlier event succeeded, the log is what those events wrote, and the reported event fails with the reported failure |
| StreamProperties.LogIsAppendOnly | trunk/csv2shp/csv2shp/csv2shp.c:45-75 | every prefix of a successful stream succeeds, and what it wrote is a prefix of the full log |
| ReferenceLog.FieldStepAgrees | trunk/csv2shp/csv2shp/csv2shp.c:20-58 | for one field event, the callback succeeds exactly when the extended table is convertible, and it extends the log exactly as the reference does |
| ReferenceLog.RecordStepAgrees | trunk/csv2shp/csv2shp/csv2shp.c:60-84 | for one row end, the callback succeeds exactly when the closed row keeps the table convertible, and it appends the reference's point for that row |
| ReferenceLog.RunMatchesReference | trunk/csv2shp/csv2shp/csv2shp.c:20-84 | for fewer than 2^32 events, a run completes exactly when its table is convertible: each data row has 2 or more fields, fields 0 and 1 parse, and the writer accepts every operation. The run then writes exactly the reference log: the header columns, then for each data row r its fields at attribute row r-1 followed by its point. Its counters are the table's row count and open-row field count |
| OutputName.LastIndex | trunk/csv2shp/csv2shp/csv2shp.c:125 | the search finds the last occurrence of the character, or reports that there is none exactly when the character is absent |
| OutputName.Stem | trunk/csv2shp/csv2shp/csv2shp.c:125-134 | the stem is a prefix of the path. With no '.', it is the whole path. Otherwise it is a proper prefix, the path has '.' at index \|stem\|, and no '.' comes after that index |
| OutputName.StemUnique | trunk/csv2shp/csv2shp/csv2shp.c:125-134 | the stem is the only prefix of the path that ends at the last '.', or at the end of the path when there is no '.' |
| OutputName.StemMayCutDirectory | trunk/csv2shp/csv2shp/csv2shp.c:125-129 | the last '.' is searched for in the whole path. For dir/name where dir contains a '.' and name contains none, the stem cuts inside dir (`./points` gives the empty stem) |

## Left out

- The CSV tokenizer (`csv_init`, `csv_parse`, `csv_fini`, `csv_free` from `csv.h`) is a foreign library and is not part of this model. Its output appears only as the `Field`/`RecordEnd` event sequence. Its verdict appears as `Translator.FeedEnd`.
- The shapelib encoders (`DBFAddField`, `DBFWriteStringAttribute`, `SHPCreateSimpleObject`, `SHPWriteObject`, `SHPCreate`, `DBFCreate`, the `*Close` calls) are foreign binary encoders. They appear as log entries, and their success or failure is the `Env.accepts` parameter. A failure of `SHPCreateSimpleObject` and a failure of `SHPWriteObject` are merged into `GeometryWrite`. Creating the output files, which happens before any event, is not modelled.
- `sscanf("%lf")` is floating-point libc behaviour. It is the uninterpreted `Env.parse`. Its finite results are exact `real` values, so rounding to double precision and the sign of zero are not modelled.
- The `malloc`/`memset`/`memcpy`/`free` buffer handling is not modelled beyond its effect: a field is its text up to the first NUL (`Translator.CString`). A failing `malloc` is not modelled.
- `fopen`/`fread`/`ferror`/`fclose`, the argument-count check and process exit codes are I/O and are not modelled: a read error is only the `ReadFailed` end of the feed.
- The `int result` argument of `record_cb` is ignored by the source and has no counterpart.
- `DBFWriteStringAttribute` takes `int` row and column numbers. Converting an `unsigned int` above 2^31-1 into them is not modelled: `WriteAttr` carries unbounded naturals.
- Paths are character sequences without the C terminating NUL. A NUL inside an argument cannot occur.
- ReferenceLog.RunMatchesReference: stated only for streams of fewer than 2^32 events, so that neither counter wraps. What wrap-around does is stated separately by CountersTrackStream, OnePointPerDataRow and HeaderReenteredAfterWrap.
