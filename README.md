# Google Sheets as a database, modelled in Dafny

The repository exposes a Google Sheets tab as a small table store through
three AWS Lambda handlers:

- the **sheet writer** (`gsheet_write_handler.py`) merges an incoming table
  into a tab. It can overwrite the tab, append every row, append only rows
  with a new primary key, or combine and deduplicate on the key. It then
  optionally drops empty rows and columns, restores the existing column order,
  and writes the result cell by cell;
- the **sheet reader** (`handlers/gsheet_read_handler.py`) returns a tab as a
  list of row records, after optional clean-ups and a check for repeated
  header labels;
- the **S3 sync handler** (`s3_gsheets_sync_handler.py`) checks the same
  parameters as the writer and answers.

All three first normalise the Lambda event. Query-string or body parameters
are merged in, keys are title-cased, stripped and have spaces replaced by
`_`, and the string `"false"` becomes `False`. Then they check the required
parameters and wrap the reply as `{"statusCode", "body": {"data": ...}}`.

The model has these modules:

- `Basics`: `Option`, `Result` and the Python exceptions the handlers can raise
- `PyStrings`: ASCII `str.title`, `strip`, `replace`, `split`, `join`, `startswith`
- `PyValues`: the dynamically typed values of events and cells, with truthiness, `str` and `repr`
- `PyDicts`: insertion-ordered dicts with Python's override rules; the event dict as a class whose `update` mutates it
- `Frames`: pandas tables with column labels; `dropna`, column selection, `concat`/`append`, `drop_duplicates(keep="last")`, records in and out
- `Merge`: `deduplicate_df`, `append_all`, `append_uniques`, `combine_and_deduplicate`
- `SheetWriter`: `_cellrepr` and `set_with_dataframe`, as imperative loops building the cell-update list
- `Lambda`: `package_response` and `validate_params` (shared by all copies)
- `SheetEvents`: `standardize_event`/`validate_params` of the writer and of the sync handler
- `UtilEvents`: `standardize_event`/`validate_params` of `util/util.py`, including the `k=v&k=v` body parser
- `WriteHandler`: the writer's `lambda_handler`: guards, dispatch, clean-ups, `overwrite_gsheet_tab`, the worksheet operations
- `SyncHandler`: the sync handler's `lambda_handler`
- `ReadHandler`: the reader's `lambda_handler` and `read_from_gsheet`

How the handlers are modelled:

- The worksheet calls become data. A handler returns its reply (or the
  exception that escapes) together with the list of worksheet operations it
  would perform: `Clear`, `Resize(rows, cols)` and one `UpdateCells` batch.
- The tables a handler fetches are inputs. For the writer these are the
  request's table and the existing tab (`None` for a newly created tab). For
  the reader they are the tab's records.
- `package_response` is the same in all three copies: `gsheet_write_handler.py:277-282`,
  `s3_gsheets_sync_handler.py:57-62` and `util/util.py:37-48`. So are the two
  `validate_params` bodies, except for how they build the overlap list. Each
  is therefore modelled once.

## Model

| member | source | states |
|---|---|---|
| `Lambda.PackageResponse` | gsheet_write_handler.py:277-282 | the status is the given one when truthy, else the string "200"; the body is `{"data": message}`, the content type JSON |
| `Lambda.PackageResponseSpec` | gsheet_write_handler.py:277-282 | every response has a truthy status, gives the message back under `data`, and repackaging with its own status changes nothing |
| `Lambda.Reply` | gsheet_write_handler.py:22 | a handler reply with a non-zero status carries that status and hands the message back under `data` |
| `Lambda.MissingNames` | gsheet_write_handler.py:258 | the missing list holds exactly the required names absent from the event, and is no longer than the required list |
| `Lambda.MissingNamesInOrder` | gsheet_write_handler.py:258 | the missing names sit at increasing positions of the required list, and every absent required name is among them: the declared order is kept |
| `Lambda.PresentNames` | gsheet_write_handler.py:250 | the overlap of the event's keys with the required names holds exactly the required names present |
| `Lambda.ValidateParams` | gsheet_write_handler.py:248-261 | the param dict keeps exactly the required and optional keys with their event values; `False` when the overlap equals the required list, otherwise a list of exactly the absent required names |
| `Lambda.PresentMissingCount` | gsheet_write_handler.py:250-258 | present and missing names partition the required list; no missing name means all are present |
| `Lambda.ValidateParamsMissing` | gsheet_write_handler.py:250-261 | for an overlap list in any order, params are reported missing exactly when some required name is absent from the event |
| `Lambda.MissingMessage` | gsheet_write_handler.py:22 | the reply text is "Missing required params " followed by the `repr` of the list of names, each name quoted by `repr` and joined by ", " |
| `PyStrings.TitleFromCased` | gsheet_write_handler.py:271 | `title()` keeps every character's casedness and leaves uncased characters as they are |
| `PyStrings.TitleIdempotent` | gsheet_write_handler.py:271 | titling twice is titling once |
| `PyStrings.TitledSliceStable` | gsheet_write_handler.py:271 | a slice of titled text that starts after an uncased character is already titled |
| `PyStrings.TitleReplaceUncased` | gsheet_write_handler.py:271 | replacing one uncased character by another commutes with titling |
| `PyStrings.Strip` | gsheet_write_handler.py:271 | the result is the input with its leading whitespace cut off, followed only by whitespace, and neither starts nor ends with whitespace |
| `PyStrings.StripSpec` | gsheet_write_handler.py:271 | text wrapped in whitespace on both sides strips to exactly the text inside |
| `PyStrings.StripUnchanged` | gsheet_write_handler.py:271 | text without surrounding whitespace is its own strip |
| `PyStrings.Split` | util/util.py:28 | `split` gives at least one piece, no piece holds the separator, two or more pieces exactly when the separator occurs, and the first piece is the text before it |
| `PyStrings.SplitJoin` | util/util.py:28 | joining the pieces of a split with the separator gives the text back |
| `PyStrings.JoinSplit` | util/util.py:28 | splitting a join of separator-free pieces gives the pieces back |
| `PyStrings.FindUnique` | util/util.py:28 | the first occurrence of a character is the only index holding it with none before |
| `PyDicts.Get` | gsheet_write_handler.py:61 | a lookup finds a value exactly when the key is present |
| `PyDicts.GetSet` | gsheet_write_handler.py:271 | assigning a key changes the lookup of that key only |
| `PyDicts.SetKeepsUnique` | gsheet_write_handler.py:271 | assignment keeps the keys unique |
| `PyDicts.LastValue` | gsheet_write_handler.py:266 | the last value paired with a key is found exactly when the key occurs, and it is the value of the last pair carrying the key, no later pair carrying it |
| `PyDicts.LastValueSole` | gsheet_write_handler.py:270-273 | a key occurring once keeps its only value |
| `PyDicts.GetUpdated` | gsheet_write_handler.py:266 | after `update`, a key of the argument has its last value there; any other key keeps its old lookup |
| `PyDicts.UpdatedKeepsUnique` | gsheet_write_handler.py:266 | `update` keeps the keys unique |
| `PyDicts.GetAt` | gsheet_write_handler.py:270-273 | in a dict with unique keys, the lookup of an entry's key is that entry's value |
| `PyDicts.Restrict` | gsheet_write_handler.py:253 | the filtered dict holds exactly the allowed keys of the event, with their values |
| `PyDicts.PyDict.Update` | gsheet_write_handler.py:266 | the in-place `event.update(pairs)` leaves the dict valid and equal to the functional update of its old contents |
| `Frames.NonEmptyRows` | gsheet_write_handler.py:77-80 | `dropna(how='all', axis=0)` keeps only rows of the input, none of them all null, and every row with a non-null cell; a table without empty rows is unchanged |
| `Frames.NonEmptyRowsAppend` | gsheet_write_handler.py:77-80 | dropping empty rows distributes over stacking |
| `Frames.DropEmptyRows` | gsheet_write_handler.py:77-80 | dropping rows keeps the columns and the table's shape |
| `Frames.NonEmptyColumnsFrom` | gsheet_write_handler.py:83-86 | the kept column positions are increasing and in range |
| `Frames.NonEmptyColumnsFromSpec` | gsheet_write_handler.py:83-86 | a column position is kept exactly when the column holds a non-null cell |
| `Frames.DropEmptyColumns` | gsheet_write_handler.py:83-86 | dropping columns keeps the table rectangular and every row |
| `Frames.DropEmptyColumnsValid` | gsheet_write_handler.py:83-86 | the kept labels are distinct and are labels of the input |
| `Frames.DropEmptyColumnsNonEmpty` | gsheet_write_handler.py:83-86 | every kept column holds a non-null cell |
| `Frames.DropEmptyColumnsKeeps` | gsheet_write_handler.py:83-86 | every column with a non-null cell survives with its label and cells |
| `Frames.DropEmptyColumnsNoop` | gsheet_write_handler.py:83-86 | a table without empty columns is unchanged |
| `Frames.ProjectRowAllNull` | gsheet_write_handler.py:83-86 | dropping empty columns never makes a row empty or non-empty |
| `Frames.RowsKeepColumnValues` | gsheet_write_handler.py:61-64 | dropping empty rows never empties a column |
| `Frames.DropEmptyCommutes` | gsheet_write_handler.py:61-64 | dropping empty rows and empty columns commute |
| `Frames.Select` | gsheet_write_handler.py:65-66 | `df[cols]` succeeds exactly when all columns exist, and then holds those columns in that order with their cells |
| `Frames.SelectOwnColumns` | gsheet_write_handler.py:65-66 | selecting a table's own columns gives it back |
| `Frames.Union` | gsheet_write_handler.py:123 | the columns of a concatenation are the first table's labels then the new ones, distinct |
| `Frames.UnionOfSubset` | gsheet_write_handler.py:123 | appending a table whose labels are all present keeps the labels |
| `Frames.Conform` | gsheet_write_handler.py:123 | rows laid out on other columns keep their count and get one cell per column |
| `Frames.ConformOwnColumns` | gsheet_write_handler.py:123 | laying rows out on their own columns changes nothing |
| `Frames.Concat` | gsheet_write_handler.py:142 | a concatenation is rectangular, has the united labels, and holds the rows of the first table then those of the second, each cell taken by label and null where a table lacks the label |
| `Frames.DedupLast` | gsheet_write_handler.py:89-92 | `drop_duplicates(keep="last")` leaves distinct keys, loses no key, and keeps only rows of the input |
| `Frames.LastWithKey` | gsheet_write_handler.py:89-92 | the last row with a key is a row of the table, carries the key, and no later row carries it |
| `Frames.DedupKeepsLast` | gsheet_write_handler.py:89-92 | every kept row is the last row with its key |
| `Merge.DedupLastAppend` | gsheet_write_handler.py:89-92 | deduplicating stacked tables keeps the upper table's deduplicated rows whose key the lower lacks, then the lower's: each kept row stays at its own position |
| `Frames.LastWithKeyAppend` | gsheet_write_handler.py:143-144 | in stacked tables the last row of a key comes from the lower table when it has the key |
| `Frames.RecordColumns` | gsheet_write_handler.py:98 | the columns of a table built from records are distinct, start with the labels already collected, include every record key and hold nothing else |
| `Frames.RecordColumnsAppend` | gsheet_write_handler.py:98 | collecting the labels of two batches of records is collecting those of the first, then adding the second's |
| `Frames.RecordColumnsPrefix` | gsheet_write_handler.py:98 | the labels of the first records are a prefix of the labels of all records: later records only add labels at the end |
| `Frames.UnionFirstSeen` | gsheet_write_handler.py:98 | new labels enter a label list in the order they are first seen |
| `Frames.FromRecords` | gsheet_write_handler.py:98 | `pd.DataFrame(records)` gives a valid table with one row per record, whose labels are exactly the record keys, a record's missing key giving a null cell |
| `Frames.ToRecords` | handlers/gsheet_read_handler.py:53 | `to_dict("records")` gives one record per row |
| `Frames.ToRecordsColumns` | handlers/gsheet_read_handler.py:53 | each record maps the labels to the row's cells in order |
| `Frames.RecordsRoundTrip` | handlers/gsheet_read_handler.py:33-53 | building a table from the records of a non-empty table gives that table back |
| `Merge.DeduplicateDf` | gsheet_write_handler.py:89-92 | raises KeyError for an unknown column; otherwise keys become distinct, none is lost, each kept row is the last with its key, and the rows are `DedupLast`'s, which keeps the input order |
| `Merge.AppendAll` | gsheet_write_handler.py:122-125 | the existing rows come first, then every input row, each cell taken by label; the length is the sum, so nothing is deduplicated |
| `Merge.AppendAllSpec` | gsheet_write_handler.py:122-125 | appending keeps the existing columns and rows, then adds every input row on those columns; the length is the sum |
| `Merge.KeyNotIn` | gsheet_write_handler.py:130 | `~isin` keeps exactly the rows whose key is not an existing key |
| `Merge.KeyNotInAppend` | gsheet_write_handler.py:130 | the `~isin` filter distributes over stacking, so it keeps the surviving rows in their order |
| `Merge.KeyNotInKeeps` | gsheet_write_handler.py:130 | every key absent from the existing keys survives the filter |
| `Merge.KeyNotInLast` | gsheet_write_handler.py:130-131 | filtering does not change which row is last for a surviving key |
| `Merge.UniqueRowsToAdd` | gsheet_write_handler.py:130-131 | the net-new rows are input rows with new keys, each key once |
| `Merge.UniqueRowsToAddAppend` | gsheet_write_handler.py:130-131 | the net-new rows of stacked inputs are those of the upper input whose key the lower does not add, then those of the lower, in input order |
| `Merge.UniqueRowsToAddSpec` | gsheet_write_handler.py:130-133 | every new key is added, carried by its last input row; nothing is added exactly when every input key exists |
| `Merge.KeyIndex` | gsheet_write_handler.py:130 | a `Primary_Key` names a column or raises KeyError |
| `Merge.AppendUniques` | gsheet_write_handler.py:129-138 | KeyError without a `Primary_Key`; the "no unique rows" message exactly when every input key exists; otherwise the existing table followed by the net-new rows |
| `Merge.CombineAndDeduplicate` | gsheet_write_handler.py:141-145 | KeyError without a `Primary_Key` or for an unknown one; otherwise a table on the united columns |
| `Merge.CombineExistingWins` | gsheet_write_handler.py:141-145 | with a `Primary_Key` naming a column, combining succeeds; combined keys are distinct, none is lost, and a key the existing table has keeps the existing table's last row |
| `Merge.AddedCoversInputKeys` | gsheet_write_handler.py:130-138 | after the net-new rows are appended, every input key is a key of the written table, whose columns are the existing ones |
| `Merge.AppendUniquesIdempotent` | gsheet_write_handler.py:129-138 | running `append_uniques` again with the same input against the table the first run wrote finds no unique rows to add |
| `SheetWriter.CellText` | gsheet_write_handler.py:158-163 | null gives "", a float its `repr`, anything else its `str` |
| `SheetWriter.CellRepr` | gsheet_write_handler.py:164-166 | an apostrophe is prefixed exactly when the text starts with `'`, or with `=` while formulas are off |
| `SheetWriter.CellReprRoundTrip` | gsheet_write_handler.py:164-166 | the sheet keeps the cell's text exactly, and with formulas off no cell becomes a formula |
| `SheetWriter.RowUpdates` | gsheet_write_handler.py:226-232 | one update per cell of the row, update `j` at the row and column `col + j`, holding the cell's text |
| `SheetWriter.GridUpdatesLayout` | gsheet_write_handler.py:226-232 | a grid of `h` rows of `w` cells gives `h * w` updates in row-major order |
| `SheetWriter.GridUpdatesFootprint` | gsheet_write_handler.py:226-232 | every update lies inside the grid's footprint |
| `SheetWriter.EmitRow` | gsheet_write_handler.py:213-218 | the loop over one row appends exactly that row's updates |
| `SheetWriter.EmitRows` | gsheet_write_handler.py:226-232 | the nested loop appends exactly the updates of all data rows |
| `SheetWriter.ValueRows` | gsheet_write_handler.py:221-225 | the `values` loop builds the data rows, each with its index value in front when the index is written |
| `SheetWriter.SetWithDataframe` | gsheet_write_handler.py:169-242 | a resize to exactly the footprint only when asked for, then one batch with the updates of the header row and data rows, none when there are no updates |
| `SheetWriter.SetWithDataframeLayout` | gsheet_write_handler.py:199-236 | the batch holds `height * width` updates inside the footprint, and is empty exactly when the height or the width is zero |
| `SheetWriter.SetWithDataframeHeader` | gsheet_write_handler.py:209-219 | update `j` enters header cell `j` (the index name first when the index is written, then the labels) at the origin row, column `col + j` |
| `SheetWriter.SetWithDataframeBody` | gsheet_write_handler.py:219-232 | update `(h + i) * width + j` enters cell `j` of data row `i` (its index value first when the index is written) at row `row + h + i`, column `col + j`, with `h` 1 under a header row |
| `SheetEvents.NormalizeKeyTitled` | gsheet_write_handler.py:271 | a normalised key is already titled |
| `SheetEvents.NormalizeKeySpec` | gsheet_write_handler.py:271 | a normalised key has no space and no surrounding whitespace, and normalising it again changes nothing |
| `SheetEvents.Coerce` | gsheet_write_handler.py:271 | the string "false" becomes `False`, and every other value stays as it is |
| `SheetEvents.NormalizedPairs` | gsheet_write_handler.py:270-273 | one normalised pair per event entry, in event order |
| `SheetEvents.NormalizeItemsKeys` | gsheet_write_handler.py:270-273 | the keys of the result are exactly the normalised event keys |
| `SheetEvents.NormalizeItemsSpec` | gsheet_write_handler.py:270-273 | the result has unique keys; every event key normalised is one, and each comes from an event key |
| `SheetEvents.NormalizeItemsValue` | gsheet_write_handler.py:270-273 | every entry is a normalised event pair, so no value is the string "false" |
| `SheetEvents.NormalizeItemsGet` | gsheet_write_handler.py:270-273 | a key no other event key collides with keeps its coerced value |
| `SheetEvents.UpdateWith` | gsheet_write_handler.py:266-268 | `update` succeeds exactly on a dict argument |
| `SheetEvents.QueryValue` | gsheet_write_handler.py:265-268 | the value to merge is that of `queryStringParameters` when it is a key, else that of `query`; nothing is merged exactly when neither is a key |
| `SheetEvents.MergedQuerySpec` | gsheet_write_handler.py:265-268 | `queryStringParameters` wins over `query`, which is merged only when the former is not a key; a merge fails exactly on a non-dict; merged parameters override, other keys keep their values |
| `SheetEvents.StandardizeEvent` | gsheet_write_handler.py:264-274 | the caller's event is updated in place on a merge and left alone on failure; the normalised merged event is returned |
| `SheetEvents.ValidateEvent` | gsheet_write_handler.py:248-261 | the normalised event validated, with the set's iteration order as a parameter |
| `UtilEvents.BodyPair` | util/util.py:28 | a part without `=` raises IndexError; otherwise the key is the text before the first `=` and the value the text after it up to the next `=` or the end |
| `UtilEvents.BodyPairs` | util/util.py:28 | the parse succeeds exactly when every part holds `=`, with one pair per part |
| `UtilEvents.ParseBody` | util/util.py:28 | a body parses exactly when every `&`-part holds `=` |
| `UtilEvents.BodyRoundTrip` | util/util.py:28 | parsing an encoded body of plain pairs gives back those pairs, later ones winning |
| `UtilEvents.MergedEventSpec` | util/util.py:27-33 | a body wins and never touches the caller's event, and its keys override; otherwise a given `queryStringParameters` dict is merged and `query` ignored, and a given `query` dict is merged only without it; a non-dict raises TypeError; nothing is merged when all three are absent or empty |
| `UtilEvents.MergedQueryDictSpec` | util/util.py:29-33 | without a body, the caller's event becomes the merged event, in which a key of the merged dict has its last value there and any other key its old value |
| `UtilEvents.StandardizeEvent` | util/util.py:26-35 | the caller's event changes only on a query merge; the merged event goes to `standardize_dict`, or the parse or merge error comes back |
| `UtilEvents.ValidateEvent` | util/util.py:10-23 | the standardised event validated with `get_list_overlap` as a parameter |
| `WriteHandler.OverwriteFrame` | gsheet_write_handler.py:112-119 | an overwrite writes the input table, unchanged without `Drop_Empty_Rows`, and with it minus exactly its empty rows |
| `WriteHandler.Strategy` | gsheet_write_handler.py:46-58 | a merge keeps the existing columns; only the keyed types raise, and they do so without a `Primary_Key`; only Append_Uniques replies early, with the "no unique rows" message; any other titled type is unsupported |
| `WriteHandler.PostProcess` | gsheet_write_handler.py:60-66 | the clean-ups keep the table rectangular and cannot fail without `Maintain_Column_Order` |
| `WriteHandler.MaintainColumnOrderNeverRaises` | gsheet_write_handler.py:60-66 | restoring the order never raises on a merged table; it gives exactly the existing columns, unless empty columns were dropped, which leaves the dropped table |
| `WriteHandler.PostProcessClean` | gsheet_write_handler.py:60-66 | with both drops, no written row or column is empty |
| `WriteHandler.PostProcessNoDrops` | gsheet_write_handler.py:60-66 | without drops, a table already on the existing columns is written as it is |
| `WriteHandler.Plan` | gsheet_write_handler.py:29-58 | a planned write always has a valid table; the guards run with the `Type` spelling compared as written |
| `WriteHandler.PlanOnExisting` | gsheet_write_handler.py:37-58 | writes against an existing tab never clear it |
| `WriteHandler.PlanStrategy` | gsheet_write_handler.py:46-66 | the dispatched write never clears the tab |
| `WriteHandler.PlanFailures` | gsheet_write_handler.py:29-58 | the plan raises only for a missing or non-string `Type`, or in a keyed strategy |
| `WriteHandler.PlanOverwrite` | gsheet_write_handler.py:29-35 | an overwrite or a new tab clears the sheet and writes the input table, resizing as the `Resize` flag says |
| `WriteHandler.PlanNotSubset` | gsheet_write_handler.py:37-41 | input columns outside the existing tab get the 422 reply before any strategy |
| `WriteHandler.PlanAppendAll` | gsheet_write_handler.py:46-70 | any spelling of Append_All writes the existing rows then the input rows on the existing columns, and reports the spelling given |
| `WriteHandler.PlanAppendUniques` | gsheet_write_handler.py:49-53 | any spelling of Append_Uniques with a `Primary_Key`: KeyError when the key is not an input column; the "no unique rows" reply exactly when every input key exists; otherwise the existing rows then the net-new input rows, cleaned as asked |
| `WriteHandler.PlanCombineUniques` | gsheet_write_handler.py:54-55 | any spelling of Combine_Uniques with a `Primary_Key`: KeyError when the key is not an existing column; otherwise the combined, deduplicated table, cleaned as asked |
| `WriteHandler.PlanUnsupported` | gsheet_write_handler.py:57-58 | an unknown titled type gets the 422 "Unsupported Type" reply, whichever guard runs |
| `WriteHandler.KeyedTypesTitled` | gsheet_write_handler.py:42 | the two keyed type names are already titled |
| `WriteHandler.PrimaryKeyGuardRaw` | gsheet_write_handler.py:42-55 | without a `Primary_Key`, the exact spellings "Append_Uniques" and "Combine_Uniques" get the 422 "You need a Primary_Key" reply, and any other spelling of them raises KeyError("Primary_Key") |
| `WriteHandler.PrimaryKeyGuardCorrected` | gsheet_write_handler.py:42-43 | with the titled guard, no string `Type` without a `Primary_Key` raises; the keyed types get the 422 reply |
| `WriteHandler.RangeIndex` | gsheet_write_handler.py:222 | the default index has one value per row |
| `WriteHandler.DispatchWritesOnSuccess` | gsheet_write_handler.py:16-70 | the tab is cleared, resized or updated only by a request answered with 200, and cleared only for an overwrite or a new tab |
| `WriteHandler.DispatchMissing` | gsheet_write_handler.py:21-22 | a request lacking a required parameter gets 422 naming all the missing ones, and nothing is written |
| `WriteHandler.Perform` | gsheet_write_handler.py:21-70 | the steps after validation, with the `Type` guard as written, perform exactly the reply and worksheet operations of the plan |
| `WriteHandler.LambdaHandler` | gsheet_write_handler.py:16-70 | the caller's event keeps its contents on a merge error and holds the merged query parameters otherwise; the handler raises the merge error, or answers and writes as the plan for the normalised event says, the `Primary_Key` guard comparing the `Type` as written |
| `SyncHandler.SyncReplySpec` | s3_gsheets_sync_handler.py:13-21 | for an overlap list in any order, the handler never raises: 422 exactly when a required parameter is absent, with the message naming exactly the absent ones, else 200 with "<Type> successful" |
| `SyncHandler.LambdaHandler` | s3_gsheets_sync_handler.py:13-54 | the event gets the query merge in place, and the reply is the one for the normalised, validated event |
| `ReadHandler.RecordsValue` | handlers/gsheet_read_handler.py:53 | the success result is a list with one record per row |
| `ReadHandler.Cleaned` | handlers/gsheet_read_handler.py:38-45 | without a flag nothing changes; only columns without a value go, and with `Drop_Empty_Rows` exactly the non-empty rows remain; the table stays rectangular |
| `ReadHandler.CleanedSpec` | handlers/gsheet_read_handler.py:38-45 | with both drops, no row and no column of the result is empty |
| `ReadHandler.ReadTable` | handlers/gsheet_read_handler.py:35-53 | the result is a list exactly when the labels as read are distinct, and otherwise the duplicate-header message |
| `ReadHandler.DuplicateCheckBeforeDrop` | handlers/gsheet_read_handler.py:35-50 | a repeated label on empty columns still gives the message, though the cleaned table has distinct labels |
| `ReadHandler.ReadFromGsheet` | handlers/gsheet_read_handler.py:30-53 | KeyError exactly when `Gsheet` or `Tab` is missing |
| `ReadHandler.ReadFromGsheetRecords` | handlers/gsheet_read_handler.py:33-50 | a table built from records never has repeated labels, so the reader always returns records |
| `ReadHandler.ReadRoundTrip` | handlers/gsheet_read_handler.py:33-53 | without clean-ups, reading the records of a non-empty table gives those records back |
| `ReadHandler.ReadReplySpec` | handlers/gsheet_read_handler.py:13-26 | for an overlap list in any order, the reader never raises: 422 exactly when `Gsheet` or `Tab` is absent, with the message naming the absent ones, else 200 with the records of the cleaned table |
| `ReadHandler.LambdaHandler` | handlers/gsheet_read_handler.py:13-26 | the event is merged as `standardize_event` says, and the reply is the one for the validated event and the tab's records |

## Left out

- Spreadsheet I/O is not performed. `clear`, `resize` and `update_cells` are modelled as the list of operations a handler returns. Opening a sheet and fetching a tab are not modelled; the tables they give are inputs.
- Creating a tab is not modelled. `validate_gsheet_tab` adds a missing tab (gsheet_write_handler.py:25, :106) before `Type` is read at :29, so a request for a new tab that then raises, for example on a non-string `Type`, still leaves the added tab behind; the operation lists of the model do not show that tab.
- `invoke_lambda` and `handlers/s3_gsheets_sync_handler.py` are not part of this model (network plumbing).
- Logging and the JSON encoding of the response body are left out; the body is kept as a value.
- `standardize_dict` and `get_list_overlap` of the utility module are not part of this model. They are function parameters of `UtilEvents`.
- The order in which `list(set(...))` yields names depends on string hashing. It is a parameter `order`. The properties that matter are proved for every order that yields the present names.
- Case mapping (`title`) covers ASCII letters only; `isspace` covers the characters CPython treats as whitespace. Unicode titlecase and digraphs are not modelled.
- Floats are kept as the text `repr` gives them; their arithmetic and NaN-ness are not modelled. Null stands for both `None` and NaN.
- Cell equality in `isin` and `drop_duplicates` is structural equality of values. Python's cross-type numeric equality (`1 == 1.0 == True`) is not modelled.
- Dtypes are not modelled. `str` of a cell uses the value's own text; pandas' upcasting of integer columns that contain nulls to float is not modelled.
- The table index is not written by the handler, so index values are only the row positions (`RangeIndex`).
- `Merge.KeyIndex`: a list-valued `Primary_Key` (a multi-column key in pandas) is treated as an unknown column.
- `PyValues.EscapeChar`: `repr` escapes the non-printable characters up to U+00FF; non-printable characters above U+00FF (such as U+2028) are passed through, where Python writes a `\u` or `\U` escape, because the Unicode category tables are not modelled.
- `SheetEvents.UpdateWith`: `dict.update` with an iterable of pairs and its ValueError are not modelled; any non-dict argument raises TypeError.
- `UtilEvents.QueryMerged`: the same simplification for util/util.py:31 and :33; a truthy list of pairs, which `dict.update` accepts, raises TypeError in the model.
- A body value that is not a string raises AttributeError in the model; the exact exception text is not modelled. The same goes for messages of other exceptions raised.
- The concurrency of several requests on one tab is left out: there is none inside the code.

## Notes on the source

- The combined table of `combine_and_deduplicate` keeps each key's last row at that row's own position, which is what `drop_duplicates(keep="last")` does. `Merge.DedupLastAppend` states this order.
- After `Drop_Empty_Columns`, the column order that `Maintain_Column_Order` restores is that of the cleaned merged table, not the existing tab's (gsheet_write_handler.py:63-66). `WriteHandler.MaintainColumnOrderNeverRaises` states this.
- The reader's duplicate-header check can never fire on a table built from records, because record keys are unique (`ReadHandler.ReadFromGsheetRecords`). The 500 reply is therefore unreachable for records fetched as dicts.
- `overwrite_gsheet_tab` honours `Drop_Empty_Rows` and `Resize` only; `Drop_Empty_Columns` and `Maintain_Column_Order` do not apply to overwrites or new tabs.

## Findings

| source | as written | input that shows it | evidently intended | confidence | as-written member | corrected member |
|---|---|---|---|---|---|---|
| gsheet_write_handler.py:42-43 | the Primary_Key guard compares the raw `Type` with "Append_Uniques"/"Combine_Uniques", while dispatch compares `Type.title()` | `Type` = "append_uniques", no `Primary_Key`, input columns a subset of the tab's: the guard lets it through and `append_uniques` raises KeyError("Primary_Key") | compare the titled `Type`, so every spelling gets the 422 "You need a Primary_Key" reply | not executed | `WriteHandler.PrimaryKeyGuardRaw` | `WriteHandler.PrimaryKeyGuardCorrected` |
