# Bol F1s enrichment pipeline — a Dafny model

The Streamlit app in `main.py` turns a seller's listing export into an enriched workbook
in four stages. The model follows each stage, pure and table-shaped:

1. **Rating filter** (`update_excel_with_rating`). Every listing row's EAN goes to the
   bol.com ratings endpoint (`get_product_ratings`). A row is kept when some rating of 1,
   2 or 3 stars has votes. The row is recorded as `[ean, sku, id, lowest such rating]`.
2. **Description join** (`update_excel_with_sku_description`). A left join of the kept
   rows, on the text of `sku`, with a reference table's `Sku code`. It adds
   `Sku description` and then drops `Sku code`.
3. **"F1 to Use" lookup** (`update_excel_with_f1_to_use`):
   - for each sku, find the first reference row with a cell, at positions 1 to 15 and read
     as text, that contains the sku;
   - take that row's last non-empty cell in the same window.
4. **Barcode lookup** (`update_excel_with_barcodes`). This stage is not wired into `main`.
   - Every sheet with an `F1 to Use` column gets `Barcode` and `GS1 Brand` columns, both
     taken from the first barcode-table row whose `SKU` equals the F1 value.
   - The `=` and `"` characters are stripped from the number.
   - Sheets without the column are left out of the written workbook.

Files:

- `wrappers.dfy`: the generic `Option` the other modules share.
- `tables.dfy`: cells, sheets and the two pandas operations the stages use on them:
  reading a column and assigning a column. A cell is `Option<string>`. An empty (NaN) cell
  reads `"nan"` as text.
- `sequences.dfy`: the "emit at most one item per element, in order" walk. Both the
  rating loop and the barcode stage's sheet loop have this shape.
- `ratings_fetch.dfy`: one ratings call. The HTTP endpoint and the token endpoint are
  replaced by the replies they give.
- `rating_filter.dfy`: stage 1, including the shared `headers` dict across calls.
- `description_join.dfy`: stage 2.
- `substitute_lookup.dfy`: stage 3.
- `barcode_lookup.dfy`: stage 4.
- `pipeline.dfy`: the workbook each stage stores. The F1 stage reads the stored sheet's
  `sku` column, which holds the joined rows' skus (`Pipeline.DescribedSheetCells`), so the
  model hands it the joined rows. The barcode stage reads the stored workbook itself.

What the code does not do, and the model therefore does not do either:

- Description keys are not trimmed, and there is no numeric-prefix fallback join.
- The "F1 to Use" value is not cleared when it equals the sku itself
  (`SubstituteLookup.SelfReferenceKept`).
- On 401 the code asks for a new token once, and retries the request once only if it gets
  one; there is no retry loop. There is no 429 backoff: a 429 is an error status like any
  other, and the row is dropped.
- There is no grouping by platform: the description stage writes a single `Sheet1`.

## Model

| member | source | states |
|---|---|---|
| RatingsFetch.FetchRatings | main.py:258-283 | One request is made; a second one is made exactly when the first reply is 401 and the token endpoint hands out a token, and it carries that token, which is also left in the shared headers. A payload comes back only from the last request's reply, only when that reply exists and its status is below 400, and it is then that reply's body. |
| RatingsFetch.ErrorStatusGivesNothing | main.py:271-280 | A last reply with status 404, or any other status from 400 up, gives no payload. |
| RatingsFetch.FetchReadsOnlyIssuedReplies | main.py:262-268 | Replies beyond the requests actually issued are never looked at. |
| RatingsFetch.RetryAfterUnauthorised | main.py:265-268 | 401 followed by 200 with a working token endpoint gives the second reply's body after two requests, the second under the new token. |
| RatingFilter.ValidRatings | main.py:57 | A star value is collected exactly when some entry has it, with a rating of 1, 2 or 3 and a count above 0. Every collected value lies in 1..3. |
| RatingFilter.MinOf | main.py:60 | `min` returns a member of the list that is no larger than any member. |
| RatingFilter.Screen | main.py:52-61 | A row is kept exactly when its ratings answer has a qualifying entry. The kept row copies ean, sku and id, and its rating is attained by a qualifying entry and is no larger than any qualifying rating. |
| RatingFilter.FilteredSelects | main.py:51-66 | The output has one row per qualifying listing row and no other rows: the qualifying positions increase, hold exactly the rows with a qualifying entry, and the k-th output row is the screened row of the k-th qualifying position. |
| RatingFilter.NoAnswerDropsRow | main.py:53-59 | A call that gives no payload (404, an error, a failed re-authorisation) drops the row. |
| RatingFilter.ExampleKeepsTwo | main.py:57-61 | Ratings (1 star, 0 votes), (2, 5), (4, 9) keep the row with rating 2. |
| RatingFilter.TokenAfterIssued | main.py:46-49 | The token in the shared headers is always the initial one or one that some row's call wrote there after re-authorising. |
| RatingFilter.SentTokensCount | main.py:51-53 | Each listing row costs one or two requests, and the very first request carries the initial token. |
| RatingFilter.SentTokensIssued | main.py:265-268 | Every request carries the initial token or a token that some row's call re-authorised with. |
| RatingFilter.ScreenRow | main.py:46-61 | One pass of the loop keeps the row exactly when its answer has a qualifying entry, with the row's own ean, sku and id and the least qualifying rating. Its first request carries the token in force; a second one is made exactly when the call renewed the token, carries the renewed token, and that token stays in force. |
| RatingFilter.ScreenUnique | main.py:52-61 | Those properties of the decision pin it down: any result that has them is `Screen`'s. |
| RatingFilter.CallTokensUnique | main.py:46-53 | Those properties of one call's tokens pin them down: the tokens are the call's requests under the token in force, and the token in force afterwards is the renewed one, if any. |
| RatingFilter.UpdateWithRating | main.py:44-66 | The loop returns exactly the filtered rows. It issues between n and 2n requests for n rows, the first under the initial token, each under the initial token or a re-issued one. |
| DescriptionJoin.MatchesSelects | main.py:107-108 | The merge pairs a key with one description per reference row whose key text equals it, in reference order: the matching positions increase, include every matching row and no other, and the k-th description is the k-th matching row's. |
| DescriptionJoin.JoinRow | main.py:107-111 | A left row becomes one row per matching reference row, carrying that row's description, or one row with a null description when nothing matches. `Sku code` is not kept. |
| DescriptionJoin.JoinAppend | main.py:107-108 | Joining two stacked tables gives the two joins stacked: the merge treats every left row on its own. |
| DescriptionJoin.JoinBlock | main.py:107-108 | Every left row contributes exactly its own block of joined rows, after the blocks of the rows above it and before those of the rows below it. |
| DescriptionJoin.Describe | main.py:107-108 | The intended lookup: a description comes only from a reference row with the key; with no such row it is null. |
| DescriptionJoin.DescribeFirst | main.py:107-108 | The intended lookup returns the description of the first reference row with the key. |
| DescriptionJoin.UniqueKeyMatchesOnce | main.py:107-108 | With distinct reference keys a key matches at most once, and then the match gives `Describe`'s description. |
| DescriptionJoin.JoinPreservesRows | main.py:104-111 | With distinct reference keys the join keeps every row, once and in order, each with its own description or null. |
| DescriptionJoin.DuplicateKeysDuplicateRow | main.py:107-108 | When two reference rows share the left row's key, the left row is duplicated: one joined row per matching reference row (so at least two), in reference order, the k-th carrying the k-th match's description and the left row's other fields. |
| SubstituteLookup.Window | main.py:151 | `iloc[:, 1:16]`: 15 cells at positions 1 to 15, fewer for a short row. |
| SubstituteLookup.AnyContainsMeans | main.py:151-152 | A row matches exactly when some window cell, read as text, contains the sku. |
| SubstituteLookup.EmptyCellMatchesNan | main.py:152 | An empty cell reads "nan", so it matches every sku that is a piece of "nan". |
| SubstituteLookup.LastPresent | main.py:156 | `dropna().iloc[-1]` finds nothing exactly when every cell is empty. |
| SubstituteLookup.LastPresentAt | main.py:156 | The value found is the cell at the last non-empty position. |
| SubstituteLookup.ContainingCellIsPresent | main.py:151-156 | Unless the sku is a piece of "nan", a matching row has a non-empty window cell. |
| SubstituteLookup.FirstMentionSpec | main.py:154-156 | The scan finds no row exactly when no row matches; otherwise it finds a matching row with no matching row before it. |
| SubstituteLookup.SubstituteAt | main.py:154-157 | Given the first matching row, the value is that row's last non-empty window cell, and the lookup raises IndexError when the window is all empty. |
| SubstituteLookup.SubstituteForSpec | main.py:150-159 | The value is null exactly when no row matches. The lookup can raise only for a sku that is a piece of "nan". |
| SubstituteLookup.FoundUnlessNan | main.py:149-159 | When no sku is a piece of "nan", every lookup gives a value. |
| SubstituteLookup.LookupOne | main.py:151-159 | One pass of the loop gives null exactly when no reference row mentions the sku. Otherwise it gives the first mentioning row's last non-empty window cell, or raises when that window is all empty, which only a sku that is a piece of "nan" can cause. |
| SubstituteLookup.LookupUnique | main.py:151-159 | Those properties pin the lookup down: any result that has them is the lookup's. |
| SubstituteLookup.UpdateWithSubstitute | main.py:149-161 | The loop fails exactly when some lookup raises. Otherwise it yields one value per row, in row order, each the lookup of that row's sku. |
| SubstituteLookup.SelfReferenceKept | main.py:151-157 | If the last non-empty window cell of the first matching row is the sku itself, at any window position, the sku is its own "F1 to Use"; no self-reference is excluded. |
| BarcodeLookup.RemoveChar | main.py:200 | `replace(ch, '')` leaves no `ch`, keeps every other character present, and never lengthens the text. |
| BarcodeLookup.CleanNumber | main.py:200 | The cleaned number holds no `=` and no `"`, and every other character of the input. |
| BarcodeLookup.RemoveAbsent | main.py:200 | Removing a character that does not occur changes nothing. |
| BarcodeLookup.CleanNumberFixes | main.py:200 | Cleaning leaves a text unchanged exactly when it has no `=` and no `"`. |
| BarcodeLookup.CleanNumberIdempotent | main.py:200 | Cleaning twice is cleaning once. |
| BarcodeLookup.CleanNumberIsDropQuoting | main.py:200 | The two replaces in a row equal one pass that drops exactly `=` and `"` and keeps the order of the rest. |
| BarcodeLookup.CleanQuotedNumber | main.py:200 | A number exported as the text formula `="digits"` cleans back to its digits. |
| BarcodeLookup.FirstMatch | main.py:197-199 | No position is found exactly when no row's SKU equals the non-empty F1 value; otherwise it is the first such row. |
| BarcodeLookup.BarcodeFor | main.py:196-207 | The barcode is null exactly when the F1 value is empty or no SKU equals it, and then the brand is null too. Otherwise both come from the first row whose SKU equals it: its Number as text with the quoting removed, and its Main Brand. |
| BarcodeLookup.AddBarcodes | main.py:209-210 | A processed sheet keeps its name and rows and gains `Barcode` and `GS1 Brand`. If it had neither, they are appended in that order. |
| BarcodeLookup.AddBarcodesCells | main.py:196-210 | Row i's barcode and brand are those of row i's F1 value, and every other column keeps its cells. |
| BarcodeLookup.BarcodeStageSelects | main.py:187-213 | The written workbook holds exactly the sheets that have an `F1 to Use` column, in workbook order, each with the barcode columns added. |
| Tables.Assigned | main.py:209-210 | After a column assignment the header holds the assigned name and otherwise the same names. |
| Tables.AssignedTwice | main.py:209-210 | Assigning two distinct new names appends both, in order. |
| Tables.SetColumn | main.py:161 | `df[name] = values` keeps the sheet's name and row count, and overwrites an existing column in place or appends a new one on the right. |
| Tables.SetColumnCells | main.py:209-210 | After `df[name] = values` the column holds `values` and every other column keeps its cells. |
| Pipeline.DescribedSheet | main.py:107-117 | The description stage stores one sheet, `Sheet1`, with one row per joined row and the header ean, sku, id, rating, Sku description, without `Sku code`. |
| Pipeline.DescribedSheetCells | main.py:115-117 | Under each column of the stored sheet, row i holds that field of joined row i, with the rating as decimal text. So the `sku` column the F1 stage reads back (main.py:146-150) is the joined rows' sku. |
| Pipeline.SubstituteStage | main.py:161-171 | The corrected F1 stage stores one sheet, `Sheet1`, with the described rows. It gains the `F1 to Use` column exactly when every lookup succeeds; when a lookup raises, the stored workbook is exactly the described one. |
| Pipeline.SubstituteStageCells | main.py:161 | In the corrected F1 stage, row i's `F1 to Use` cell is the lookup of row i's sku, and every described column keeps its cells. |
| Pipeline.SingleSheetSkipped | main.py:192-213 | A workbook whose only sheet lacks `F1 to Use` comes out of the barcode stage empty. |
| Pipeline.AsWrittenLosesSubstitutes | main.py:144-167 | The F1 stage as written never stores a sheet with `F1 to Use`, so the barcode stage writes nothing after it. The corrected stage hands it one sheet whenever every lookup succeeds. |
| Pipeline.BarcodeSheetShape | main.py:188-211 | After the corrected F1 stage, the barcode stage writes one sheet exactly when every lookup succeeded. That sheet has the same row count and the header extended by `Barcode` and `GS1 Brand`. |
| Pipeline.BarcodesFollowSubstitutes | main.py:196-210 | After the corrected F1 stage, row i's barcode and brand are the barcode-table entry for row i's own "F1 to Use" value. |
| Pipeline.EnrichedRowCount | main.py:318-323 | With distinct description keys, the chain main runs, with the corrected F1 stage and the barcode stage enabled, writes one sheet exactly when some listing row qualifies (the `if filtered_rating_data:` guard) and every lookup succeeds. That sheet has one row per qualifying listing row, under the header ean, sku, id, rating, Sku description, F1 to Use, Barcode, GS1 Brand. |

## Left out

- The Streamlit page, file upload/download widgets, `st.session_state`, logging and
  `print` are left out: they are presentation only. A stage's workbook is passed on as a
  value.
- File parsing and writing are left out; the model starts from parsed tables. This covers
  `read_csv` with its header rows, `read_excel`, `xlsxwriter` and the `BytesIO` buffers.
  Cells are text or empty. Numeric cells, and their float text such as `123.0`, are not
  modelled. Neither are the values `read_excel` takes for missing, such as an empty text.
- `analyze_listing` and `write_filtered_ratings` are left out: they only read and write
  files.
- HTTP is left out. The ratings endpoint is replaced by the sequence of replies it gives,
  and `get_access_token`, including the Basic-auth encoding, by the token it hands out or
  none. A JSON body that is not an object, or whose `ratings` is `null`, is not modelled.
  The `ratings` value is either absent or a list of entries with both fields.
- Status codes outside 100..599 are left out, because section 15 of RFC 9110 defines no
  others.
- `time.sleep(1.2)` is left out: the model has no clock.
- `str.contains` interprets the sku as a regular expression. The model uses plain
  substring search, so skus with regular-expression metacharacters are not modelled.
- Missing reference columns are left out. In the code, `KeyError` and similar errors are
  caught by each stage's handler, which leaves the stored workbook as it was.
- In the merge, name collisions with existing `Sku code` or `Sku description` columns are
  left out: the filtered table never has them.
- When a workbook has no sheet to write, `xlsxwriter` writes a default empty sheet. The
  model keeps the workbook empty.
- The barcode stage is modelled, but `main` does not call it (main.py:323 is commented
  out). `Pipeline.Enriched` composes it as if it were called, after the corrected F1
  stage; with the F1 stage as written no data sheet reaches it
  (`Pipeline.AsWrittenLosesSubstitutes`).
- RatingFilter.UpdateWithRating: the model says a re-issued token was written into the
  headers by some listing row's re-authorising call, not specifically by an earlier one.

## Findings

| source | as written | input that shows it | evidently intended | confidence | as-written member | corrected member |
|---|---|---|---|---|---|---|
| main.py:144-167 | The F1 stage computes `df_excel['F1 to Use']`, but writes the workbook from `df_dict`, which is initialised empty and never filled. The stored workbook has no data sheet, and the computed column is lost. | Any described table whose lookups all succeed, e.g. one row with sku "A" and any reference table: the stored workbook holds no data sheet | Store `df_excel`, with its new column, as `Sheet1` | high; not executed | Pipeline.AsWrittenLosesSubstitutes | Pipeline.SubstituteStage |
