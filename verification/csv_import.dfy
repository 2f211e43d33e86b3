/** The CSV importer: the text of an uploaded file becomes new table rows,
    each image URL is fetched once, and the rows are appended to the table.
    Reading the file and the network are abstracted: the text is a
    parameter, and each image request is answered by an oracle. */
module CsvImport {
  import opened Wrappers
  import opened Text
  import opened Rows
  import opened Sanitize

  /** Why an import stops without adding rows. */
  datatype ImportError = EmptyText | NoDataLines | MissingColumns

  /** The field separator: `;` only for text that has a `;` and no `,`. */
  function Delimiter(text: string): (d: char)
    ensures d == ';' || d == ','
    ensures d == ';' <==> ';' in text && ',' !in text
  {
    if ';' in text && ',' !in text then ';' else ','
  }

  /** `text.split(/\r?\n/).filter(Boolean)`. */
  function Lines(text: string): seq<string> {
    NonEmpty(SplitLines(text))
  }

  /** A header line's cells: quotes stripped, trimmed, lower-cased. */
  function HeaderCells(line: string, d: char): (cells: seq<string>)
    ensures |cells| == |Split(line, d)|
  {
    var raw := Split(line, d);
    seq(|raw|, k requires 0 <= k < |raw| => ToLower(Trim(StripQuotes(raw[k]))))
  }

  /** A data line's cells: quotes stripped and trimmed, case kept. */
  function DataCells(line: string, d: char): (cells: seq<string>)
    ensures |cells| == |Split(line, d)|
  {
    var raw := Split(line, d);
    seq(|raw|, k requires 0 <= k < |raw| => Trim(StripQuotes(raw[k])))
  }

  /** Where the `input`, `output` and (optional) `image_url` columns are. */
  datatype Columns = Columns(input: nat, output: nat, image: Option<nat>)

  predicate FitsWidth(cols: Columns, width: nat) {
    cols.input < width && cols.output < width && (cols.image.Some? ==> cols.image.value < width)
  }

  /** The three `indexOf` lookups on the header. Each column is the first
      cell with that name; the lookup fails exactly when `input` or `output`
      is missing, and `image_url` may be missing. */
  function LocateColumns(header: seq<string>): (c: Option<Columns>)
    ensures c.None? <==> "input" !in header || "output" !in header
    ensures c.Some? ==> FitsWidth(c.value, |header|)
    ensures c.Some? ==> header[c.value.input] == "input" && "input" !in header[..c.value.input]
    ensures c.Some? ==> header[c.value.output] == "output" && "output" !in header[..c.value.output]
    ensures c.Some? ==> (c.value.image.None? <==> "image_url" !in header)
    ensures c.Some? && c.value.image.Some? ==>
      header[c.value.image.value] == "image_url" && "image_url" !in header[..c.value.image.value]
  {
    match (IndexOf(header, "input"), IndexOf(header, "output"))
    case (Some(i), Some(o)) => Some(Columns(i, o, IndexOf(header, "image_url")))
    case _ => None
  }

  /** The row one long-enough data line yields: unchecked, no file, the
      cells under `input` and `output`, and the `image_url` cell as its image
      unless there is no such column or the cell is empty. */
  function RowFromCells(cells: seq<string>, cols: Columns): (r: Row)
    requires FitsWidth(cols, |cells|)
    ensures !r.checked && r.file.None?
    ensures r.input == cells[cols.input] && r.output == cells[cols.output]
    ensures r.image.None? <==> cols.image.None? || cells[cols.image.value] == ""
    ensures r.image.Some? ==> cols.image.Some? && r.image.value == cells[cols.image.value]
  {
    var url := match cols.image case Some(k) => cells[k] case None => "";
    Row(false, if url == "" then None else Some(url), None, cells[cols.input], cells[cols.output])
  }

  /** A data line with at least as many cells as the header. */
  predicate LongEnough(line: string, d: char, width: nat) {
    |Split(line, d)| >= width
  }

  /** The row of a data line that is long enough. */
  function LineRow(line: string, d: char, width: nat, cols: Columns): Row
    requires FitsWidth(cols, width) && LongEnough(line, d, width)
  {
    RowFromCells(DataCells(line, d), cols)
  }

  /** The rows of the data lines, in line order; a line with fewer cells
      than the header is skipped. At most one row per line, all unchecked
      and without a file. */
  function DataRows(lines: seq<string>, d: char, width: nat, cols: Columns): (r: seq<Row>)
    requires FitsWidth(cols, width)
    ensures |r| <= |lines|
    ensures forall k | 0 <= k < |r| :: !r[k].checked && r[k].file.None?
    decreases |lines|
  {
    if |lines| == 0 then []
    else LineRows(lines[0], d, width, cols) + DataRows(lines[1..], d, width, cols)
  }

  /** The row of one data line, or none when the line is short. */
  function LineRows(line: string, d: char, width: nat, cols: Columns): (r: seq<Row>)
    requires FitsWidth(cols, width)
    ensures |r| <= 1
  {
    if !LongEnough(line, d, width) then [] else [LineRow(line, d, width, cols)]
  }

  /** Rows of consecutive blocks of lines are the concatenated rows of each
      block: with the single-line case this pins `DataRows` down as an
      in-order filter. */
  lemma {:induction false} DataRowsConcat(a: seq<string>, b: seq<string>, d: char, width: nat, cols: Columns)
    requires FitsWidth(cols, width)
    ensures DataRows(a + b, d, width, cols) == DataRows(a, d, width, cols) + DataRows(b, d, width, cols)
    decreases |a|
  {
    if |a| == 0 {
      assert a + b == b;
    } else {
      assert (a + b)[0] == a[0];
      assert (a + b)[1..] == a[1..] + b;
      DataRowsConcat(a[1..], b, d, width, cols);
      var first := LineRows(a[0], d, width, cols);
      assert DataRows(a + b, d, width, cols) == first + DataRows(a[1..] + b, d, width, cols);
    }
  }

  /** When no data line is short, each line yields exactly its own row,
      position for position. */
  lemma {:induction false} DataRowsAllLong(lines: seq<string>, d: char, width: nat, cols: Columns)
    requires FitsWidth(cols, width)
    requires forall k | 0 <= k < |lines| :: LongEnough(lines[k], d, width)
    ensures |DataRows(lines, d, width, cols)| == |lines|
    ensures forall k | 0 <= k < |lines| ::
      DataRows(lines, d, width, cols)[k] == LineRow(lines[k], d, width, cols)
    decreases |lines|
  {
    if |lines| > 0 {
      DataRowsAllLong(lines[1..], d, width, cols);
      var rest := DataRows(lines[1..], d, width, cols);
      var r := DataRows(lines, d, width, cols);
      assert r == [LineRow(lines[0], d, width, cols)] + rest;
      forall k | 1 <= k < |lines|
        ensures r[k] == LineRow(lines[k], d, width, cols)
      {
        assert r[k] == rest[k - 1];
        assert lines[1..][k - 1] == lines[k];
      }
    }
  }

  /** When every data line is short, no row is produced. */
  lemma {:induction false} DataRowsAllShort(lines: seq<string>, d: char, width: nat, cols: Columns)
    requires FitsWidth(cols, width)
    requires forall k | 0 <= k < |lines| :: !LongEnough(lines[k], d, width)
    ensures DataRows(lines, d, width, cols) == []
    decreases |lines|
  {
    if |lines| > 0 {
      DataRowsAllShort(lines[1..], d, width, cols);
    }
  }

  /** Lines that split into the same cells give the same rows, whatever the separator. */
  lemma {:induction false} DataRowsSameCells(a: seq<string>, d: char, b: seq<string>, e: char, width: nat, cols: Columns)
    requires FitsWidth(cols, width)
    requires |a| == |b|
    requires forall k | 0 <= k < |a| :: Split(a[k], d) == Split(b[k], e)
    ensures DataRows(a, d, width, cols) == DataRows(b, e, width, cols)
    decreases |a|
  {
    if |a| > 0 {
      DataRowsSameCells(a[1..], d, b[1..], e, width, cols);
    }
  }

  /** The three conditions under which the importer logs an error and
      returns before touching the table. */
  ghost predicate Aborts(raw: string) {
    var text := Trim(raw);
    || text == ""
    || |Lines(text)| < 2
    || var header := HeaderCells(Lines(text)[0], Delimiter(text));
       "input" !in header || "output" !in header
  }

  /** The parsing half of the upload handler. It fails exactly under
      `Aborts`; otherwise it yields at most one unchecked, file-less row per
      data line. */
  function ParseCsv(raw: string): (r: Result<seq<Row>, ImportError>)
    ensures r.Failure? <==> Aborts(raw)
    ensures r == Failure(EmptyText) <==> Trim(raw) == ""
    ensures r.Success? ==> |r.value| <= |Lines(Trim(raw))| - 1
    ensures r.Success? ==> forall k | 0 <= k < |r.value| :: !r.value[k].checked && r.value[k].file.None?
  {
    var text := Trim(raw);
    if text == "" then Failure(EmptyText)
    else
      var d := Delimiter(text);
      var lines := Lines(text);
      if |lines| < 2 then Failure(NoDataLines)
      else ParseLines(lines, d)
  }

  /** The header line locates the columns; the data lines become rows. */
  function ParseLines(lines: seq<string>, d: char): Result<seq<Row>, ImportError>
    requires |lines| >= 2
  {
    var header := HeaderCells(lines[0], d);
    match LocateColumns(header)
    case None => Failure(MissingColumns)
    case Some(cols) => Success(DataRows(lines[1..], d, |header|, cols))
  }

  /** What the image request of one row came to: the downloaded file and
      the object URL made for its preview, or a failure (a non-2xx status,
      a network error or an unreadable body; all are caught). */
  datatype FetchOutcome = Fetched(file: Attachment, preview: string) | FetchFailed

  /** The network, as an oracle: the outcome of requesting the given URL
      for the new row at the given position of the batch. */
  type ImageFetcher = (nat, string) -> FetchOutcome

  /** One step of the image loop for new row `i`. Only a row with an image
      URL is fetched, at its sanitised URL. On success the row gets the file
      and the preview URL; on failure it is left exactly as it was, raw
      (unsanitised) URL included. Its text and checkbox never change. */
  function ResolveImage(row: Row, i: nat, fetch: ImageFetcher): (r: Row)
    ensures r.checked == row.checked && r.input == row.input && r.output == row.output
    ensures row.image.None? ==> r == row
    ensures row.image.Some? ==>
      match fetch(i, SanitizeUrl(row.image.value))
      case FetchFailed => r == row
      case Fetched(f, p) => r.file == Some(f) && r.image == Some(p)
  {
    match row.image
    case None => row
    case Some(url) =>
      match fetch(i, SanitizeUrl(url))
      case FetchFailed => row
      case Fetched(f, p) => row.(file := Some(f), image := Some(p))
  }

  /** The image loop over the whole batch, row by row. */
  function ResolveImages(rows: seq<Row>, fetch: ImageFetcher): (r: seq<Row>)
    ensures |r| == |rows|
    ensures forall i | 0 <= i < |rows| :: r[i] == ResolveImage(rows[i], i, fetch)
  {
    seq(|rows|, i requires 0 <= i < |rows| => ResolveImage(rows[i], i, fetch))
  }

  /** The whole upload handler on table `store`. The table only grows at
      its end: on an abort it is unchanged, otherwise one row is appended per
      parsed row, with that row's text and an unchecked box. */
  function Import(store: seq<Row>, raw: string, fetch: ImageFetcher): (r: seq<Row>)
    ensures |store| <= |r| && r[..|store|] == store
    ensures ParseCsv(raw).Failure? ==> r == store
    ensures ParseCsv(raw).Success? ==>
      var parsed := ParseCsv(raw).value;
      && |r| == |store| + |parsed|
      && forall k | 0 <= k < |parsed| ::
           && r[|store| + k].input == parsed[k].input
           && r[|store| + k].output == parsed[k].output
           && !r[|store| + k].checked
  {
    match ParseCsv(raw)
    case Failure(_) => store
    case Success(parsed) => Append(store, parsed, fetch)
  }

  /** The batch with its images resolved, appended to the table. */
  function Append(store: seq<Row>, parsed: seq<Row>, fetch: ImageFetcher): (r: seq<Row>)
    ensures |r| == |store| + |parsed| && r[..|store|] == store
    ensures forall k | 0 <= k < |parsed| ::
      && r[|store| + k].input == parsed[k].input
      && r[|store| + k].output == parsed[k].output
      && r[|store| + k].checked == parsed[k].checked
  {
    store + ResolveImages(parsed, fetch)
  }

  /** The handler as written: parse, fetch the images, append. It computes
      the table `Import` describes. */
  method ImportCsv(store: seq<Row>, raw: string, fetch: ImageFetcher) returns (rows: seq<Row>)
    ensures rows == Import(store, raw, fetch)
  {
    var parsed := ParseCsv(raw);
    if parsed.Failure? {
      return store;
    }
    var newRows := FetchImages(parsed.value, fetch);
    rows := store + newRows;
    assert newRows == ResolveImages(parsed.value, fetch);
  }

  /** The image loop as written: one row at a time, in batch order, each
      fetched row updated in place. Row `i` ends up as `ResolveImage` makes
      it, whatever the other requests return. */
  method FetchImages(batch: seq<Row>, fetch: ImageFetcher) returns (newRows: seq<Row>)
    ensures |newRows| == |batch|
    ensures forall k | 0 <= k < |batch| :: newRows[k] == ResolveImage(batch[k], k, fetch)
  {
    newRows := batch;
    var i := 0;
    while i < |newRows|
      invariant 0 <= i <= |newRows| == |batch|
      invariant forall k | 0 <= k < i :: newRows[k] == ResolveImage(batch[k], k, fetch)
      invariant forall k | i <= k < |newRows| :: newRows[k] == batch[k]
    {
      var row := newRows[i];
      if row.image.Some? {
        var outcome := fetch(i, SanitizeUrl(row.image.value));
        if outcome.Fetched? {
          newRows := newRows[i := row.(file := Some(outcome.file), image := Some(outcome.preview))];
        }
      }
      i := i + 1;
    }
  }

  /** A failed image request leaves its row as parsed: the raw image URL
      stays as the preview, no file is attached, the text is intact. */
  lemma FailedFetchKeepsRow(store: seq<Row>, raw: string, fetch: ImageFetcher, i: nat)
    requires ParseCsv(raw).Success? && i < |ParseCsv(raw).value|
    requires var row := ParseCsv(raw).value[i];
      row.image.Some? && fetch(i, SanitizeUrl(row.image.value)).FetchFailed?
    ensures Import(store, raw, fetch)[|store| + i] == ParseCsv(raw).value[i]
    ensures Import(store, raw, fetch)[|store| + i].file.None?
  {
  }

  /** Each new row depends only on its own image request: two networks that
      answer row `i`'s request alike give the same row `i`, so a failure
      elsewhere in the batch changes nothing here. */
  lemma FetchesAreIndependent(store: seq<Row>, raw: string, f: ImageFetcher, g: ImageFetcher, i: nat)
    requires ParseCsv(raw).Success? && i < |ParseCsv(raw).value|
    requires var row := ParseCsv(raw).value[i];
      row.image.Some? ==> f(i, SanitizeUrl(row.image.value)) == g(i, SanitizeUrl(row.image.value))
    ensures Import(store, raw, f)[|store| + i] == Import(store, raw, g)[|store| + i]
  {
  }

  /** Text that uses `;` between fields and has no `,` anywhere parses
      exactly like the same text with every `;` turned into `,`. */
  lemma SemicolonParsesLikeComma(raw: string)
    requires ',' !in raw
    ensures ParseCsv(Replace(raw, ';', ',')) == ParseCsv(raw)
  {
    var text := Trim(raw);
    TrimReplace(raw, ';', ',');
    TrimKeepsAbsence(raw, ',');
    var text' := Replace(text, ';', ',');
    assert Trim(Replace(raw, ';', ',')) == text';
    if ';' !in text {
      ReplaceAbsent(text, ';', ',');
    } else {
      assert Delimiter(text) == ';' && Delimiter(text') == ',';
      LinesReplace(text);
      var lines := Lines(text);
      if |lines| >= 2 {
        ParseLinesReplace(lines);
      }
    }
  }

  /** Turning `;` into `,` in comma-free text turns it into each line. */
  lemma LinesReplace(text: string)
    requires ',' !in text
    ensures Lines(Replace(text, ';', ',')) == ReplaceEach(Lines(text), ';', ',')
    ensures forall k | 0 <= k < |Lines(text)| :: ',' !in Lines(text)[k]
  {
    SplitLinesReplace(text, ';', ',');
    NonEmptyReplace(SplitLines(text), ';', ',');
    SplitLinesKeepAbsence(text, ',');
    var lines := Lines(text);
    forall k | 0 <= k < |lines|
      ensures ',' !in lines[k]
    {
      assert lines[k] in SplitLines(text);
    }
  }

  /** Comma-free lines split on `;` parse like the lines with `,` in place of `;`. */
  lemma ParseLinesReplace(lines: seq<string>)
    requires |lines| >= 2
    requires forall k | 0 <= k < |lines| :: ',' !in lines[k]
    ensures ParseLines(ReplaceEach(lines, ';', ','), ',') == ParseLines(lines, ';')
  {
    var lines' := ReplaceEach(lines, ';', ',');
    forall k | 0 <= k < |lines|
      ensures Split(lines'[k], ',') == Split(lines[k], ';')
    {
      SplitReplace(lines[k], ';', ',');
    }
    assert HeaderCells(lines'[0], ',') == HeaderCells(lines[0], ';');
    var header := HeaderCells(lines[0], ';');
    match LocateColumns(header)
    case None =>
    case Some(cols) =>
      DataRowsSameCells(lines'[1..], ',', lines[1..], ';', |header|, cols);
  }
}
