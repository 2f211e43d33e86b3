/** Worked imports: small uploads traced through the whole pipeline, for
    any cell values that need no quoting. */
module Scenarios {
  import opened Wrappers
  import opened Text
  import opened Rows
  import opened Sanitize
  import opened CsvImport

  /** A cell value that survives the importer unchanged: no separator, no
      line feed, and no quote or whitespace at either end. */
  predicate BareCell(x: string) {
    CleanCell(x, ',') && CleanCell(x, ';') && '\n' !in x
  }

  /** A column name as the importer expects it: lower-case letters and `_`. */
  predicate PlainName(x: string) {
    |x| > 0 && forall i | 0 <= i < |x| :: 'a' <= x[i] <= 'z' || x[i] == '_'
  }

  lemma BareCellIsItsOwnCell(x: string)
    requires BareCell(x)
    ensures Trim(StripQuotes(x)) == x
  {
    StripQuotesOfBare(x);
    TrimIdentity(x);
  }

  lemma PlainNameIsItsOwnHeader(x: string)
    requires PlainName(x)
    ensures ToLower(Trim(StripQuotes(x))) == x
  {
    StripQuotesOfBare(x);
    TrimIdentity(x);
    assert ToLower(x) == x;
  }

  /** A cell that the data-cell cleaning leaves alone under delimiter `d`:
      no delimiter inside, and no quote or whitespace at either end. */
  predicate CleanCell(x: string, d: char) {
    && d !in x
    && (|x| > 0 ==> x[0] != '"' && x[|x| - 1] != '"' && !IsSpace(x[0]) && !IsSpace(x[|x| - 1]))
  }

  /** Writing clean cells out with the delimiter and reading the line back
      gives the same cells, for any number of cells. */
  lemma DataCellsOfJoin(parts: seq<string>, d: char)
    requires |parts| >= 1
    requires forall k | 0 <= k < |parts| :: CleanCell(parts[k], d)
    ensures DataCells(JoinWith(parts, [d]), d) == parts
  {
    SplitJoin(parts, d);
    var cells := DataCells(JoinWith(parts, [d]), d);
    forall k | 0 <= k < |parts|
      ensures cells[k] == parts[k]
    {
      StripQuotesOfBare(parts[k]);
      TrimIdentity(parts[k]);
    }
  }

  /** Writing plain column names out with the delimiter and reading the
      header back gives the same names, for any number of columns. */
  lemma HeaderCellsOfJoin(names: seq<string>, d: char)
    requires |names| >= 1
    requires forall k | 0 <= k < |names| :: PlainName(names[k]) && d !in names[k]
    ensures HeaderCells(JoinWith(names, [d]), d) == names
  {
    SplitJoin(names, d);
    var cells := HeaderCells(JoinWith(names, [d]), d);
    forall k | 0 <= k < |names|
      ensures cells[k] == names[k]
    {
      PlainNameIsItsOwnHeader(names[k]);
    }
  }

  /** A comma-separated header of two plain names reads as those names. */
  lemma HeaderOfTwo(x: string, y: string)
    requires PlainName(x) && PlainName(y)
    ensures HeaderCells(x + "," + y, ',') == [x, y]
  {
    assert ',' !in x && ',' !in y;
    assert JoinWith([x, y], [',']) == x + "," + y;
    HeaderCellsOfJoin([x, y], ',');
  }

  lemma HeaderOfThree(x: string, y: string, z: string)
    requires PlainName(x) && PlainName(y) && PlainName(z)
    ensures HeaderCells(x + "," + y + "," + z, ',') == [x, y, z]
  {
    assert ',' !in x && ',' !in y && ',' !in z;
    assert JoinWith([x, y, z][1..], [',']) == y + "," + z;
    assert JoinWith([x, y, z], [',']) == x + "," + y + "," + z;
    HeaderCellsOfJoin([x, y, z], ',');
  }

  /** Bare cells joined by commas come back as themselves. */
  lemma CellsOfTwo(a: string, b: string)
    requires BareCell(a) && BareCell(b)
    ensures DataCells(a + "," + b, ',') == [a, b]
  {
    assert JoinWith([a, b], [',']) == a + "," + b;
    DataCellsOfJoin([a, b], ',');
  }

  lemma CellsOfThree(a: string, b: string, c: string)
    requires BareCell(a) && BareCell(b) && BareCell(c)
    ensures DataCells(a + "," + b + "," + c, ',') == [a, b, c]
  {
    assert JoinWith([a, b, c][1..], [',']) == b + "," + c;
    assert JoinWith([a, b, c], [',']) == a + "," + b + "," + c;
    DataCellsOfJoin([a, b, c], ',');
  }

  /** A header line and one data line, separated by a line feed, are the
      two lines of the upload and need no trimming. */
  lemma TwoLines(header: string, line: string)
    requires header != "" && line != "" && '\n' !in header && '\n' !in line
    requires header[|header| - 1] != '\r'
    requires !IsSpace(header[0]) && !IsSpace(line[|line| - 1])
    ensures Trim(header + "\n" + line) == header + "\n" + line
    ensures Lines(header + "\n" + line) == [header, line]
  {
    TwoLinesTrimmed(header, line);
    TwoLinesSplit(header, line);
    assert NonEmpty([header, line]) == [header, line];
  }

  lemma TwoLinesTrimmed(header: string, line: string)
    requires header != "" && line != ""
    requires !IsSpace(header[0]) && !IsSpace(line[|line| - 1])
    ensures Trim(header + "\n" + line) == header + "\n" + line
  {
    var text := header + "\n" + line;
    assert text[0] == header[0] && text[|text| - 1] == line[|line| - 1];
    TrimIdentity(text);
  }

  lemma TwoLinesSplit(header: string, line: string)
    requires '\n' !in header && '\n' !in line
    requires header == [] || header[|header| - 1] != '\r'
    ensures SplitLines(header + "\n" + line) == [header, line]
  {
    SplitLinesAtLf(header, line);
    assert IndexOf(line, '\n') == None;
  }

  /** A comma in the header line makes the comma the delimiter. */
  lemma DelimiterOfHeader(header: string, line: string, i: nat)
    requires i < |header| && header[i] == ','
    ensures Delimiter(header + "\n" + line) == ','
  {
    assert (header + "\n" + line)[i] == ',';
  }

  /** An untrimmed-alike upload of exactly two lines is parsed from those
      two lines with its delimiter. */
  lemma ParseOfTwoLines(text: string, header: string, line: string)
    requires text != "" && Trim(text) == text && Lines(text) == [header, line]
    ensures ParseCsv(text) == ParseLines([header, line], Delimiter(text))
  {
  }

  /** One data line as wide as the header gives exactly one row. */
  lemma ParseOneDataLine(header: string, line: string, d: char, names: seq<string>, cells: seq<string>, cols: Columns)
    requires HeaderCells(header, d) == names && LocateColumns(names) == Some(cols)
    requires DataCells(line, d) == cells && |cells| == |names|
    ensures FitsWidth(cols, |cells|)
    ensures ParseLines([header, line], d) == Success([RowFromCells(cells, cols)])
  {
    assert [header, line][1..] == [line];
    DataRowsOfOne(line, d, |names|, cols);
  }

  /** A single data line wide enough for the header yields its row. */
  lemma DataRowsOfOne(line: string, d: char, width: nat, cols: Columns)
    requires FitsWidth(cols, width) && LongEnough(line, d, width)
    ensures DataRows([line], d, width, cols) == [LineRow(line, d, width, cols)]
  {
    DataRowsAllLong([line], d, width, cols);
  }

  lemma ColumnNamesArePlain()
    ensures PlainName("input") && PlainName("output") && PlainName("image_url")
  {
  }

  /** The two-column header the upload handler needs at least. */
  lemma HeaderInputOutput()
    ensures HeaderCells("input,output", ',') == ["input", "output"]
  {
    ColumnNamesArePlain();
    assert "input" + "," + "output" == "input,output";
    HeaderOfTwo("input", "output");
  }

  /** The header with the optional image column as well. */
  lemma HeaderWithImage()
    ensures HeaderCells("input,output,image_url", ',') == ["input", "output", "image_url"]
  {
    ColumnNamesArePlain();
    assert "input" + "," + "output" + "," + "image_url" == "input,output,image_url";
    HeaderOfThree("input", "output", "image_url");
  }

  lemma LocateInputOutput()
    ensures LocateColumns(["input", "output"]) == Some(Columns(0, 1, None))
  {
    assert ["input", "output"][0] == "input";
    assert ["input", "output"][1] == "output";
    assert "image_url" !in ["input", "output"];
  }

  lemma LocateWithImage()
    ensures LocateColumns(["input", "output", "image_url"]) == Some(Columns(0, 1, Some(2)))
  {
    var names := ["input", "output", "image_url"];
    assert names[0] == "input" && names[1] == "output" && names[2] == "image_url";
  }

  /** A header line that holds a comma and needs no trimming or line
      splitting of its own. */
  predicate HeaderLine(header: string) {
    && header != "" && ',' in header && '\n' !in header
    && header[|header| - 1] != '\r' && !IsSpace(header[0])
  }

  lemma ColumnHeadersAreHeaderLines()
    ensures HeaderLine("input,output") && HeaderLine("input,output,image_url")
  {
    assert "input,output"[5] == ',';
    assert "input,output,image_url"[5] == ',';
  }

  /** An upload of a header line and one data line is parsed from exactly
      those two lines, with the comma as delimiter. */
  lemma UploadOfTwoLines(header: string, line: string)
    requires HeaderLine(header)
    requires line != "" && '\n' !in line && !IsSpace(line[|line| - 1])
    ensures ParseCsv(header + "\n" + line) == ParseLines([header, line], ',')
  {
    var i :| 0 <= i < |header| && header[i] == ',';
    DelimiterOfHeader(header, line, i);
    TwoLines(header, line);
    ParseOfTwoLines(header + "\n" + line, header, line);
  }

  /** The whole parse of such an upload, once the header's columns and the
      data line's cells are known. */
  lemma ParseUpload(header: string, line: string, names: seq<string>, cells: seq<string>, cols: Columns)
    requires HeaderLine(header)
    requires line != "" && '\n' !in line && !IsSpace(line[|line| - 1])
    requires HeaderCells(header, ',') == names && LocateColumns(names) == Some(cols)
    requires DataCells(line, ',') == cells && |cells| == |names|
    ensures FitsWidth(cols, |cells|)
    ensures ParseCsv(header + "\n" + line) == Success([RowFromCells(cells, cols)])
  {
    UploadOfTwoLines(header, line);
    ParseOneDataLine(header, line, ',', names, cells, cols);
  }

  /** The header lines as the uploads below spell them. */
  lemma HeaderTexts()
    ensures "input,output\n" == "input,output" + "\n"
    ensures "input,output,image_url\n" == "input,output,image_url" + "\n"
  {
  }

  /** Any one data line under the plain `input,output` header. */
  lemma ParseUnderPlainHeader(line: string, cells: seq<string>)
    requires line != "" && '\n' !in line && !IsSpace(line[|line| - 1])
    requires DataCells(line, ',') == cells && |cells| == 2
    ensures ParseCsv("input,output\n" + line) == Success([RowFromCells(cells, Columns(0, 1, None))])
  {
    HeaderTexts();
    ColumnHeadersAreHeaderLines();
    HeaderInputOutput();
    LocateInputOutput();
    ParseUpload("input,output", line, ["input", "output"], cells, Columns(0, 1, None));
  }

  /** Any one data line under the header with the image column. */
  lemma ParseUnderImageHeader(line: string, cells: seq<string>)
    requires line != "" && '\n' !in line && !IsSpace(line[|line| - 1])
    requires DataCells(line, ',') == cells && |cells| == 3
    ensures ParseCsv("input,output,image_url\n" + line) == Success([RowFromCells(cells, Columns(0, 1, Some(2)))])
  {
    HeaderTexts();
    ColumnHeadersAreHeaderLines();
    HeaderWithImage();
    LocateWithImage();
    ParseUpload("input,output,image_url", line, ["input", "output", "image_url"], cells, Columns(0, 1, Some(2)));
  }

  /** `input,output` over one line `a,b` parses to exactly the example
      `{input: a, output: b}`: unchecked, with no image and no file. */
  lemma ParseOneExample(a: string, b: string)
    requires BareCell(a) && BareCell(b)
    ensures ParseCsv("input,output\n" + a + "," + b) == Success([Row(false, None, None, a, b)])
  {
    CellsOfTwo(a, b);
    var line := a + "," + b;
    assert "input,output\n" + a + "," + b == "input,output\n" + line;
    if b == "" {
      assert line[|line| - 1] == ',';
    } else {
      assert line[|line| - 1] == b[|b| - 1];
    }
    assert '\n' !in line;
    ParseUnderPlainHeader(line, [a, b]);
  }

  /** Importing that upload appends that one example and nothing else:
      with no image column there is nothing to fetch. */
  lemma ImportOneExample(store: seq<Row>, a: string, b: string, fetch: ImageFetcher)
    requires BareCell(a) && BareCell(b)
    ensures Import(store, "input,output\n" + a + "," + b, fetch) == store + [Row(false, None, None, a, b)]
  {
    ParseOneExample(a, b);
    ImportOfOneRow(store, "input,output\n" + a + "," + b, Row(false, None, None, a, b), fetch);
  }

  /** With an `image_url` column, the one data line parses to a row whose
      image is the raw URL cell. */
  lemma ParseExampleWithImage(a: string, b: string, url: string)
    requires BareCell(a) && BareCell(b) && BareCell(url) && url != ""
    ensures ParseCsv("input,output,image_url\n" + a + "," + b + "," + url) == Success([Row(false, Some(url), None, a, b)])
  {
    CellsOfThree(a, b, url);
    var line := a + "," + b + "," + url;
    assert "input,output,image_url\n" + a + "," + b + "," + url == "input,output,image_url\n" + line;
    assert line[|line| - 1] == url[|url| - 1];
    assert '\n' !in line;
    ParseUnderImageHeader(line, [a, b, url]);
  }

  /** Importing it requests the image at the sanitised URL. A successful
      request gives the row the file and the preview URL; a failed one
      leaves the raw URL and no file. */
  lemma ImportExampleWithImage(store: seq<Row>, a: string, b: string, url: string, fetch: ImageFetcher)
    requires BareCell(a) && BareCell(b) && BareCell(url) && url != ""
    ensures Import(store, "input,output,image_url\n" + a + "," + b + "," + url, fetch) ==
      store + [match fetch(0, SanitizeUrl(url))
               case Fetched(f, p) => Row(false, Some(p), Some(f), a, b)
               case FetchFailed => Row(false, Some(url), None, a, b)]
  {
    var row := Row(false, Some(url), None, a, b);
    ParseExampleWithImage(a, b, url);
    ImportOfOneRow(store, "input,output,image_url\n" + a + "," + b + "," + url, row, fetch);
  }

  /** A parse of one row is appended with that row's image resolved. */
  lemma ImportOfOneRow(store: seq<Row>, raw: string, row: Row, fetch: ImageFetcher)
    requires ParseCsv(raw) == Success([row])
    ensures Import(store, raw, fetch) == store + [ResolveImage(row, 0, fetch)]
  {
    ImportOfParsed(store, raw, [row], fetch);
    AppendOne(store, row, fetch);
  }

  lemma ImportOfParsed(store: seq<Row>, raw: string, parsed: seq<Row>, fetch: ImageFetcher)
    requires ParseCsv(raw) == Success(parsed)
    ensures Import(store, raw, fetch) == Append(store, parsed, fetch)
  {
  }

  lemma AppendOne(store: seq<Row>, row: Row, fetch: ImageFetcher)
    ensures Append(store, [row], fetch) == store + [ResolveImage(row, 0, fetch)]
  {
    assert ResolveImages([row], fetch) == [ResolveImage(row, 0, fetch)];
  }
}
