/** What "Start Finetuning" posts to the job runner: the JSON metadata and
    the attached files. The outcome of the `/finetune` call and the rows as
    they stand after the countdown are parameters; the calls themselves and
    the timers are not part of this module. */
module Submission {
  import opened Wrappers
  import opened Rows
  import opened Validation
  import CsvImport

  /** One training example as it appears in the metadata's `data` array. */
  datatype DataEntry = DataEntry(rowIndex: nat, input: string, output: string)

  /** The JSON metadata; `userEmail` is absent when nobody is signed in. */
  datatype Metadata = Metadata(
    userEmail: Option<string>, modelName: string, baseModel: string, description: string,
    epoch: real, learningRate: real, warmupRatio: real, optimizer: string,
    gradientAccumulationSteps: real, peftR: real, peftAlpha: real, peftDropout: real,
    data: seq<DataEntry>)

  /** The multipart body: the metadata and one `files` part per attached file. */
  datatype RunModelRequest = RunModelRequest(metadata: Metadata, files: seq<Attachment>)

  /** The positions of the rows that carry a file, in table order: every
      such row is listed, once, and nothing else is. */
  function FileRows(rows: seq<Row>): (idx: seq<nat>)
    ensures forall k | 0 <= k < |idx| :: idx[k] < |rows| && rows[idx[k]].file.Some?
    ensures forall k, l | 0 <= k < l < |idx| :: idx[k] < idx[l]
    ensures forall j | 0 <= j < |rows| && rows[j].file.Some? :: j in idx
  {
    if |rows| == 0 then []
    else
      var last := |rows| - 1;
      var before := FileRows(rows[..last]);
      assert forall j | 0 <= j < last :: rows[..last][j] == rows[j];
      before + (if rows[last].file.Some? then [last] else [])
  }

  /** The metadata's `data` array, `rows.map((row, idx) => ...)`: one entry
      per row, in order, carrying the row's position and text. */
  method BuildData(rows: seq<Row>) returns (data: seq<DataEntry>)
    ensures |data| == |rows|
    ensures forall i | 0 <= i < |rows| :: data[i] == DataEntry(i, rows[i].input, rows[i].output)
  {
    data := [];
    var i := 0;
    while i < |rows|
      invariant 0 <= i <= |rows| && |data| == i
      invariant forall j | 0 <= j < i :: data[j] == DataEntry(j, rows[j].input, rows[j].output)
    {
      data := data + [DataEntry(i, rows[i].input, rows[i].output)];
      i := i + 1;
    }
  }

  /** The `files` parts, `rows.forEach(row => if (row.file) append(row.file))`:
      exactly the rows' files, in table order. */
  method CollectFiles(rows: seq<Row>) returns (files: seq<Attachment>)
    ensures |files| == |FileRows(rows)|
    ensures forall k | 0 <= k < |files| :: files[k] == rows[FileRows(rows)[k]].file.value
  {
    files := [];
    var i := 0;
    while i < |rows|
      invariant 0 <= i <= |rows|
      invariant |files| == |FileRows(rows[..i])|
      invariant forall k | 0 <= k < |files| :: files[k] == rows[FileRows(rows[..i])[k]].file.value
    {
      assert rows[..i + 1][..i] == rows[..i];
      if rows[i].file.Some? {
        files := files + [rows[i].file.value];
      }
      i := i + 1;
    }
    assert rows[..|rows|] == rows;
  }

  /** The request built after the countdown, from the validated form and table. */
  method BuildRequest(user: Option<string>, cfg: JobConfig, rows: seq<Row>) returns (req: RunModelRequest)
    ensures var m := req.metadata;
      && m.userEmail == user && m.modelName == cfg.modelName && m.baseModel == cfg.baseModel
      && m.description == cfg.description && m.epoch == cfg.epoch
      && m.learningRate == cfg.learningRate && m.warmupRatio == cfg.warmupRatio
      && m.optimizer == cfg.optimizer && m.gradientAccumulationSteps == cfg.gradientSteps
      && m.peftR == cfg.peftR && m.peftAlpha == cfg.peftAlpha && m.peftDropout == cfg.peftDropout
    ensures |req.metadata.data| == |rows|
    ensures forall i | 0 <= i < |rows| :: req.metadata.data[i] == DataEntry(i, rows[i].input, rows[i].output)
    ensures |req.files| == |FileRows(rows)|
    ensures forall k | 0 <= k < |req.files| :: req.files[k] == rows[FileRows(rows)[k]].file.value
  {
    var data := BuildData(rows);
    var files := CollectFiles(rows);
    var meta := Metadata(user, cfg.modelName, cfg.baseModel, cfg.description,
      cfg.epoch, cfg.learningRate, cfg.warmupRatio, cfg.optimizer,
      cfg.gradientSteps, cfg.peftR, cfg.peftAlpha, cfg.peftDropout, data);
    req := RunModelRequest(meta, files);
  }

  /** `handleStartFinetuning` up to the POST. The gate runs on `clicked`,
      the table as it stood at the click. The request is built only when
      `/finetune` succeeded (`finetuneOk`: a success status and a body that
      parses as JSON), after the countdown, and it is built from `sent`:
      the rows of that same array by then. Every table edit makes a new
      array, so the captured one keeps its length; but the handlers edit
      the row objects in place and the table stays editable during the
      countdown, so `sent` may differ from `clicked` in any field. Only an
      unedited table is known to be complete when it is sent. */
  method StartFinetuning(user: Option<string>, cfg: JobConfig, clicked: seq<Row>, finetuneOk: bool, sent: seq<Row>)
    returns (req: Option<RunModelRequest>)
    requires |sent| == |clicked|
    ensures req.Some? <==> ValidateFields(cfg, clicked).passed && finetuneOk
    ensures req.Some? ==> ConfigValid(cfg)
    ensures req.Some? ==> var m := req.value.metadata;
      && m.userEmail == user && m.modelName == cfg.modelName && m.baseModel == cfg.baseModel
      && m.description == cfg.description && m.epoch == cfg.epoch
      && m.learningRate == cfg.learningRate && m.warmupRatio == cfg.warmupRatio
      && m.optimizer == cfg.optimizer && m.gradientAccumulationSteps == cfg.gradientSteps
      && m.peftR == cfg.peftR && m.peftAlpha == cfg.peftAlpha && m.peftDropout == cfg.peftDropout
    ensures req.Some? ==> |req.value.metadata.data| == |clicked| == |sent|
    ensures req.Some? ==> forall i | 0 <= i < |sent| ::
      req.value.metadata.data[i] == DataEntry(i, sent[i].input, sent[i].output)
    ensures req.Some? ==> |req.value.files| == |FileRows(sent)|
    ensures req.Some? ==> forall k | 0 <= k < |req.value.files| ::
      req.value.files[k] == sent[FileRows(sent)[k]].file.value
    ensures req.Some? && sent == clicked ==> forall i | 0 <= i < |req.value.metadata.data| ::
      req.value.metadata.data[i].input != "" && req.value.metadata.data[i].output != ""
  {
    if !ValidateFields(cfg, clicked).passed {
      return None;
    }
    if !finetuneOk {
      return None;
    }
    var built := BuildRequest(user, cfg, sent);
    req := Some(built);
  }

  /** The gate does not cover the countdown: a table that passes can have
      a row's input cleared before it is sent, and the cleared row is sent
      as it is. */
  lemma CountdownEditEscapesGate(cfg: JobConfig)
    requires ConfigValid(cfg)
    ensures var clicked := [Row(false, None, None, "x", "y")];
      && ValidateFields(cfg, clicked).passed
      && !RowsComplete(SetInput(clicked, 0, ""))
  {
    var clicked := [Row(false, None, None, "x", "y")];
    assert RowsComplete(clicked);
    assert SetInput(clicked, 0, "")[0].input == "";
  }

  /** Rows without files appended to a table add no file to the upload. */
  lemma {:induction false} FileRowsAppendFileless(store: seq<Row>, extra: seq<Row>)
    requires forall k | 0 <= k < |extra| :: extra[k].file.None?
    ensures FileRows(store + extra) == FileRows(store)
    decreases |extra|
  {
    if |extra| == 0 {
      assert store + extra == store;
    } else {
      var all := store + extra;
      var last := |all| - 1;
      assert all[..last] == store + extra[..|extra| - 1];
      FileRowsAppendFileless(store, extra[..|extra| - 1]);
    }
  }

  /** An import whose image requests all fail adds no file to the upload. */
  lemma FailedImportAddsNoFiles(store: seq<Row>, raw: string, fetch: CsvImport.ImageFetcher)
    requires forall i: nat, url: string :: fetch(i, url) == CsvImport.FetchFailed
    ensures FileRows(CsvImport.Import(store, raw, fetch)) == FileRows(store)
  {
    match CsvImport.ParseCsv(raw)
    case Failure(_) =>
    case Success(parsed) =>
      var extra := CsvImport.ResolveImages(parsed, fetch);
      assert CsvImport.Import(store, raw, fetch) == store + extra;
      FileRowsAppendFileless(store, extra);
  }
}
