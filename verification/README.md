# Training-data pipeline of the finetuning dashboard

This project models the client-side training-data pipeline of the finetuning
dashboard's task page (`src/content/dashboards/Tasks/index.tsx`) and proves
properties of the model in Dafny. The pipeline is the part of the page that
holds logic rather than markup:

- **CSV importer** (`handleCSVUpload` and `sanitizeUrl`). It trims the uploaded
  text and picks `;` or `,` as delimiter. It splits the text into non-empty
  lines, normalises the header cells and finds the `input`, `output` and
  optional `image_url` columns. It turns each long-enough data line into a row,
  fetches each row's image, and appends the rows to the table.
- **Row store.** Add a blank row, delete a row (`filter` by index), tick a
  row's checkbox, edit its input or output, attach an image by hand. A
  page window over the table shows `rowsPerPage` rows starting at
  `page * rowsPerPage`.
- **Validation gate** (`validateFields`). One message per form field and a
  message pair per row. The verdict passes only when every message is empty.
- **Submission payload.** The metadata with its `data` array of
  `{rowIndex, input, output}`, and the ordered `files` parts built in
  `handleStartFinetuning`.

Modules, one file each:

- `Wrappers`: `Option` and `Result`.
- `Text`: the JavaScript string operations the importer uses, written out:
  - `trim` and regex `\s` over the ECMAScript whitespace and line-terminator
    set;
  - `split` on one character;
  - `split(/\r?\n/)` and `filter(Boolean)`;
  - the one-quote-each-end strip;
  - ASCII `toLowerCase`;
  - `indexOf`.
- `Sanitize`: `sanitizeUrl` with its two regular expressions.
- `Rows`: the row datatype and the table edits.
- `Pagination`: `slice` and the page window.
- `CsvImport`: the upload handler.
- `Validation`: `validateFields`.
- `Submission`: the request body and the gate in front of it.
- `Scenarios`: whole uploads traced end to end for arbitrary unquoted cell
  values.

The image request is a parameter of the importer. `ImageFetcher` maps a row's
position in the batch and the sanitised URL to either `Fetched(file, preview)`
or `FetchFailed`. `FetchFailed` stands for a non-2xx status, a network error
and an unreadable body alike, because the handler catches all three.

On a failed request the code leaves the row exactly as parsed. The row keeps
its raw, unsanitised URL string as `image`, and `file` stays unset
(`index.tsx:289-291`, `index.tsx:300-302`).

## Model

| member | source | states |
|---|---|---|
| Text.Trim | src/content/dashboards/Tasks/index.tsx:224 | `trim` keeps exactly the stretch of the text from its first to its last non-whitespace character: no whitespace at either end, and no non-whitespace character of the input is lost |
| Text.IndexOf | src/content/dashboards/Tasks/index.tsx:245-247 | `indexOf` gives nothing exactly when the value is absent, otherwise the position of its first occurrence |
| Text.Split | src/content/dashboards/Tasks/index.tsx:241 | `split(d)` yields at least one part and no part contains the separator |
| Text.JoinSplit | src/content/dashboards/Tasks/index.tsx:241 | the parts of a split, joined with the separator, give the text back |
| Text.SplitJoin | src/content/dashboards/Tasks/index.tsx:261 | separator-free parts joined with the separator split back into exactly those parts, so a split is the unique such decomposition |
| Text.SplitLines | src/content/dashboards/Tasks/index.tsx:235 | the `\r?\n` split yields at least one line and no line contains a line feed |
| Text.SplitCrLfJoin | src/content/dashboards/Tasks/index.tsx:235 | text written with CRLF line endings splits into exactly the lines it was written from |
| Text.SplitLfJoin | src/content/dashboards/Tasks/index.tsx:235 | text written with LF line endings splits into the lines it was written from, when no line but the last ends in a carriage return |
| Text.NonEmpty | src/content/dashboards/Tasks/index.tsx:235 | `filter(Boolean)` keeps every non-empty line, drops every empty one, and adds nothing; a single line is kept exactly when it is non-empty |
| Text.NonEmptyConcat | src/content/dashboards/Tasks/index.tsx:235 | the filter works block by block, so with the single-line case it keeps the non-empty lines in their order and with their repetitions |
| Text.StripQuotes | src/content/dashboards/Tasks/index.tsx:242 | the quote strip keeps a contiguous stretch of the cell, losing at most one character at each end; it drops the first character exactly when that is a double quote |
| Text.StripQuotesOfOpening | src/content/dashboards/Tasks/index.tsx:242 | a cell with an opening quote and no closing one loses just the opening quote; a lone `"` becomes empty |
| Text.StripQuotesOfClosing | src/content/dashboards/Tasks/index.tsx:242 | a cell with a closing quote and no opening one loses just the closing quote |
| Text.StripQuotesOfQuoted | src/content/dashboards/Tasks/index.tsx:261 | a cell wrapped in double quotes loses exactly those two quotes, whatever it holds |
| Text.StripQuotesOfBare | src/content/dashboards/Tasks/index.tsx:261 | a cell that neither starts nor ends with a quote is left alone |
| Text.ToLower | src/content/dashboards/Tasks/index.tsx:242 | lowercasing keeps the length, maps each character on its own and leaves no ASCII capital |
| Text.TrimReplace | src/content/dashboards/Tasks/index.tsx:224 | swapping one non-whitespace character for another commutes with `trim` |
| Text.SplitReplace | src/content/dashboards/Tasks/index.tsx:241 | splitting on `a` gives the same cells as splitting on `b` after turning every `a` into `b`, when `b` was absent |
| Text.SplitLinesReplace | src/content/dashboards/Tasks/index.tsx:235 | replacing a character other than CR and LF commutes with the line split |
| Sanitize.RemoveQuotes | src/content/dashboards/Tasks/index.tsx:255 | `replace(/['"]/g, '')` leaves no quote, only characters of the input, and is no longer than it |
| Sanitize.RemoveQuotesConcat | src/content/dashboards/Tasks/index.tsx:255 | quote removal works piece by piece over a concatenation |
| Sanitize.FirstAltMatch | src/content/dashboards/Tasks/index.tsx:255 | the match of `/\s+alt=.*$/` is the leftmost position where it can match: a whitespace run that reaches `alt=`, with no line terminator after it |
| Sanitize.CutAltSuffix | src/content/dashboards/Tasks/index.tsx:255 | the `alt=` replacement keeps a prefix of the URL: all of it when the pattern never matches, otherwise everything before the leftmost match |
| Sanitize.SanitizeUrl | src/content/dashboards/Tasks/index.tsx:254-256 | the sanitised URL holds no `'` or `"` and has no whitespace at either end |
| Sanitize.SanitizeCleanUrl | src/content/dashboards/Tasks/index.tsx:254-256 | a URL without quotes or whitespace is requested unchanged |
| Sanitize.SanitizeDropsAltFragment | src/content/dashboards/Tasks/index.tsx:255 | a clean URL followed by ` alt=…` on the same line is requested without the fragment, whatever the fragment holds |
| CsvImport.Delimiter | src/content/dashboards/Tasks/index.tsx:230-233 | the delimiter is `;` exactly when the text contains `;` and no `,`, and `,` otherwise |
| CsvImport.HeaderCells | src/content/dashboards/Tasks/index.tsx:241-243 | one normalised header cell per part of the header line's split |
| CsvImport.DataCells | src/content/dashboards/Tasks/index.tsx:261 | one cleaned cell per part of the data line's split |
| Scenarios.DataCellsOfJoin | src/content/dashboards/Tasks/index.tsx:261 | any number of cells without the delimiter and without edge quotes or whitespace, written out with the delimiter, read back as exactly those cells |
| Scenarios.HeaderCellsOfJoin | src/content/dashboards/Tasks/index.tsx:241-243 | any number of lower-case column names written out with the delimiter read back as exactly those names |
| CsvImport.LocateColumns | src/content/dashboards/Tasks/index.tsx:245-252 | the lookup fails exactly when `input` or `output` is missing; otherwise each column is the first header cell with its name, and the image column is absent exactly when no cell is `image_url` |
| CsvImport.RowFromCells | src/content/dashboards/Tasks/index.tsx:264-278 | a new row is unchecked, has no file, takes `input` and `output` from their columns, and has an image exactly when there is an image column whose cell is non-empty, in which case the image is that cell |
| CsvImport.DataRows | src/content/dashboards/Tasks/index.tsx:260-279 | at most one row per data line, each unchecked and without a file |
| CsvImport.DataRowsConcat | src/content/dashboards/Tasks/index.tsx:260-279 | the rows of consecutive blocks of lines are the rows of each block in order, so rows keep the order of their lines |
| CsvImport.DataRowsAllLong | src/content/dashboards/Tasks/index.tsx:262 | when no line is short, line `k` yields row `k` |
| CsvImport.DataRowsAllShort | src/content/dashboards/Tasks/index.tsx:262 | lines with fewer cells than the header yield no rows |
| CsvImport.DataRowsSameCells | src/content/dashboards/Tasks/index.tsx:261 | lines that split into the same cells give the same rows |
| CsvImport.ParseCsv | src/content/dashboards/Tasks/index.tsx:222-279 | parsing fails exactly on the three aborts (empty trimmed text, fewer than two non-empty lines, missing `input` or `output` header); it reports the empty text exactly when the trimmed text is empty; otherwise it yields at most one unchecked, file-less row per data line |
| CsvImport.ResolveImage | src/content/dashboards/Tasks/index.tsx:283-303 | a row without an image is not fetched; otherwise its sanitised URL is requested; a failure leaves the row exactly as it was and a success sets the file and the preview; checkbox and text never change |
| CsvImport.ResolveImages | src/content/dashboards/Tasks/index.tsx:282-304 | row `i` of the batch is resolved with request number `i` |
| CsvImport.Import | src/content/dashboards/Tasks/index.tsx:222-307 | the existing table is a prefix of the result; a failed parse leaves it unchanged; otherwise one row is appended per parsed row, unchecked, with that row's input and output |
| CsvImport.Append | src/content/dashboards/Tasks/index.tsx:307 | `[...prev, ...newRows]`: the old table followed by the batch, with each new row's text and checkbox as parsed |
| CsvImport.ImportCsv | src/content/dashboards/Tasks/index.tsx:282-307 | the handler's statement sequence (parse, image loop, append) computes exactly the table `Import` describes |
| CsvImport.FetchImages | src/content/dashboards/Tasks/index.tsx:282-304 | the in-place image loop leaves each row `k` as `ResolveImage` makes it, whatever the other requests return |
| CsvImport.FailedFetchKeepsRow | src/content/dashboards/Tasks/index.tsx:289-302 | a row whose image request fails is appended exactly as parsed, raw URL included, with no file |
| CsvImport.FetchesAreIndependent | src/content/dashboards/Tasks/index.tsx:282-304 | a new row depends on its own image request only: two fetchers that agree on it give the same row |
| CsvImport.SemicolonParsesLikeComma | src/content/dashboards/Tasks/index.tsx:230-261 | a semicolon-separated upload parses to the same rows (or the same error) as the same upload with commas |
| Rows.AddRow | src/content/dashboards/Tasks/index.tsx:331-341 | the table grows by one blank row (unchecked, no image, empty text) at its end, and the other rows are untouched |
| Rows.RemoveRow | src/content/dashboards/Tasks/index.tsx:343-345 | exactly the row at the target goes and the rest keep their order; a target outside the table removes nothing |
| Rows.RemoveAddedRow | src/content/dashboards/Tasks/index.tsx:331-345 | deleting the row just added gives the table back |
| Rows.ToggleChecked | src/content/dashboards/Tasks/index.tsx:192-198 | only row `i`'s checkbox flips, and no other row or field changes |
| Rows.ToggleTwice | src/content/dashboards/Tasks/index.tsx:192-198 | ticking a checkbox twice restores the table |
| Rows.SetInput | src/content/dashboards/Tasks/index.tsx:315-321 | only row `i`'s input changes, to the typed value |
| Rows.SetOutput | src/content/dashboards/Tasks/index.tsx:323-329 | only row `i`'s output changes, to the typed value |
| Rows.AttachImage | src/content/dashboards/Tasks/index.tsx:203-215 | with a chosen file, only row `i` changes, taking the file and its preview URL; with no file chosen, nothing changes |
| Rows.EditsOfDifferentRowsCommute | src/content/dashboards/Tasks/index.tsx:315-329 | edits to two different rows can be made in either order |
| Pagination.Slice | src/content/dashboards/Tasks/index.tsx:837 | `slice(start, end)` clamps both bounds to the length; its entries are the sequence's entries from `start` on |
| Pagination.PageView | src/content/dashboards/Tasks/index.tsx:836-839 | the window has `min(rowsPerPage, rows left)` entries (none past the end); entry `i` has `actualIndex = page * rowsPerPage + i` and shows the table row at that index |
| Pagination.ChangePage | src/content/dashboards/Tasks/index.tsx:183-185 | the page arrows set the page and keep the page size |
| Pagination.ChangeRowsPerPage | src/content/dashboards/Tasks/index.tsx:187-190 | a new page size resets the page to 0 |
| Pagination.RowOnItsPage | src/content/dashboards/Tasks/index.tsx:836-839 | every row is shown on page `k / rowsPerPage`, at position `k % rowsPerPage`, under its own index |
| Pagination.RowOnlyOnItsPage | src/content/dashboards/Tasks/index.tsx:836-839 | a row never shows on any other page |
| Pagination.ResizeShowsFirstRows | src/content/dashboards/Tasks/index.tsx:187-190 | after a page-size change the table shows the first rows under their own indices |
| Pagination.InitialViewShowsFirstRows | src/content/dashboards/Tasks/index.tsx:180-181 | the page opens on page 0 with ten rows per page, so it shows the first ten rows under their own indices |
| Validation.RowErrors | src/content/dashboards/Tasks/index.tsx:387-390 | one message pair per row; each message is empty exactly when that text is present |
| Validation.ValidateFields | src/content/dashboards/Tasks/index.tsx:386-420 | the gate passes exactly when the model and base-model names, description and optimizer are non-empty, epoch, learning rate, gradient steps, LoRA rank and alpha are positive, the warmup ratio and dropout lie in [0, 1], and every row has input and output; each of the eleven field messages is empty exactly when its own requirement holds, and the row messages match the rows one for one |
| Validation.ErrorsOf | src/content/dashboards/Tasks/index.tsx:392-406 | the error record: each field's message is empty exactly when that field's requirement holds, and the row messages are those of `RowErrors` |
| Validation.NoErrorsIffValid | src/content/dashboards/Tasks/index.tsx:411-419 | no row message and no field message is set exactly when the form requirements hold and every row is complete |
| Validation.DefaultsNeedOnlyNames | src/content/dashboards/Tasks/index.tsx:350-369 | with the page's default hyperparameters the gate passes exactly when a model name and a description are given and all rows are complete |
| Validation.AddedRowBlocks | src/content/dashboards/Tasks/index.tsx:331-341 | a freshly added blank row makes the gate fail |
| Validation.InitialTableBlocks | src/content/dashboards/Tasks/index.tsx:172-179 | the starting table is a single blank row, the same as adding a row to an empty table, so a fresh page fails the gate until that row is filled in |
| Validation.ToggleKeepsValidation | src/content/dashboards/Tasks/index.tsx:192-198 | ticking a checkbox changes neither the verdict nor any message |
| Validation.AttachKeepsValidation | src/content/dashboards/Tasks/index.tsx:203-215 | attaching an image changes neither the verdict nor any message |
| Validation.FillingInputClearsItsError | src/content/dashboards/Tasks/index.tsx:315-321 | typing a non-empty input into a row clears that row's input message and changes no other row's messages |
| Submission.FileRows | src/content/dashboards/Tasks/index.tsx:491-496 | the positions of the rows with a file, strictly increasing, each such row listed |
| Submission.BuildData | src/content/dashboards/Tasks/index.tsx:479-483 | one `data` entry per row, in order, with `rowIndex` equal to its position and the row's input and output |
| Submission.CollectFiles | src/content/dashboards/Tasks/index.tsx:490-496 | the `files` parts are exactly the rows' files, in row order |
| Submission.BuildRequest | src/content/dashboards/Tasks/index.tsx:466-496 | each metadata field carries its form field (`gradient_accumulation_steps` from the gradient steps) and the user's email; `data` and `files` are as above |
| Submission.StartFinetuning | src/content/dashboards/Tasks/index.tsx:429-496 | a request is built exactly when the gate passes on the table at the click and `/finetune` succeeds; every metadata field carries its form field and the user's email; `data` has one entry per row of the captured table, in order, with the text those rows hold after the countdown, and `files` are exactly those rows' files in row order; only when the rows were not edited during the countdown is every `data` entry known to have non-empty input and output |
| Submission.CountdownEditEscapesGate | src/content/dashboards/Tasks/index.tsx:315-321 | a table that passes the gate can have a row's input cleared during the countdown, and the cleared row is incomplete, so the gate does not bound what is sent |
| Submission.FileRowsAppendFileless | src/content/dashboards/Tasks/index.tsx:491-496 | appending rows without files adds no file part |
| Submission.FailedImportAddsNoFiles | src/content/dashboards/Tasks/index.tsx:282-307 | an import whose image requests all fail adds no file part to the next submission |
| Scenarios.HeaderInputOutput | src/content/dashboards/Tasks/index.tsx:241-243 | the header line `input,output` reads as the cells `input`, `output` |
| Scenarios.HeaderWithImage | src/content/dashboards/Tasks/index.tsx:241-243 | the header line `input,output,image_url` reads as those three cells |
| Scenarios.ParseOneExample | src/content/dashboards/Tasks/index.tsx:222-279 | the upload `input,output` + `a,b` parses to the single row `{input: a, output: b}`, unchecked, with no image and no file, for any cells with no separator or line feed and no quote or whitespace at either end, including an empty output |
| Scenarios.ImportOneExample | src/content/dashboards/Tasks/index.tsx:222-307 | importing that upload appends exactly that row to any table |
| Scenarios.ParseExampleWithImage | src/content/dashboards/Tasks/index.tsx:258-279 | with an `image_url` column, the one data line parses to a row whose image is the raw URL cell |
| Scenarios.ImportExampleWithImage | src/content/dashboards/Tasks/index.tsx:281-307 | importing it requests the image at the sanitised URL; success gives the row the file and the preview, failure leaves the raw URL and no file |

## Left out

- Reading the upload (`FileReader`) is not modelled: the importer starts from the file's text. An unreadable or empty file ends the handler as empty text does.
- The image request itself (`fetch`, the response body, `new File`, `URL.createObjectURL`) is an oracle parameter. The generated file name (`image_${i}_${Date.now()}.jpg`) is not modelled because it depends on the clock.
- The image picker's object URL is a parameter of `Rows.AttachImage`.
- `console.error` diagnostics are not modelled; they have no effect on the table.
- In `handleStartFinetuning`, only the validation gate, the `/finetune` outcome (a parameter: a success status and a body that parses as JSON), the metadata and the `files` parts are modelled. The `/finetune` request, the 40-second countdown, the pod lookup, the `/run_model` POST and the `isFinetuning` flag are left out, because they are network and timers. What users do to the table during the countdown is a parameter too: the rows that are sent.
- The pod polling, the `EventSource` log stream and the user loaded from `localStorage` are left out: timers, network and browser storage.
- All rendering is left out: JSX, MUI components, the advanced-settings toggle, the tabs. So are `src/content/dashboards/Tasks/Checklist.tsx` and `src/content/dashboards/Tasks/PageHeader.tsx`, which are presentational only.
- Hyperparameters are Dafny `real`s. IEEE-754 behaviour (NaN fails every comparison) and the string-to-number coercion of the text fields are not modelled.
- `Rows.RemoveRow` takes any integer. `Rows.ToggleChecked`, `Rows.SetInput`, `Rows.SetOutput` and `Rows.AttachImage` require an index into the table, because the handlers dereference `rows[index]` and would throw otherwise.
- The row store is modelled as immutable values. The source's handlers copy the array but edit the shared row objects in place (`index.tsx:195`, `210-211`, `318`, `326`). That is observable in two places. First, an array captured earlier sees later edits: `Submission.StartFinetuning` takes the sent rows as a separate parameter for this reason. Second, React may run an updater twice in development strict mode; that double run is not modelled.
- Text.ToLower: only ASCII letters are lowercased. No non-ASCII lowercasing can produce `input`, `output` or `image_url` except U+212A KELVIN SIGN, which lowercases to `k`. None of the three names contains a `k`, so column lookup is unaffected.
- Strings are sequences of Unicode scalar values, not UTF-16 code units. Lone surrogates are not modelled.
- `Pagination.PageView` takes non-negative page numbers and page sizes. The rows-per-page selector only offers positive sizes; `parseInt` of another value is not modelled.
