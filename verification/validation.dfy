/** The validation gate run on every "Start Finetuning" click: one message
    per invalid form field, one pair of messages per table row, and a
    verdict that lets the submission go ahead only when all are empty. */
module Validation {
  import opened Wrappers
  import opened Rows

  /** The form. Hyperparameters are numbers typed into text fields; only
      their comparisons with 0 and 1 matter here, so they are reals. */
  datatype JobConfig = JobConfig(
    modelName: string, baseModel: string, description: string,
    epoch: real, learningRate: real, warmupRatio: real,
    optimizer: string, gradientSteps: real,
    peftR: real, peftAlpha: real, peftDropout: real)

  /** The form as the page first shows it. */
  const InitialConfig := JobConfig("", "Phi3-V", "", 1.0, 0.0001, 0.1, "adamw_torch", 64.0, 8.0, 16.0, 0.05)

  /** The messages under one row's input and output; empty when fine. */
  datatype RowError = RowError(input: string, output: string)

  /** The error record: one message per field, empty when the field is fine. */
  datatype Errors = Errors(
    modelName: string, baseModel: string, description: string,
    epoch: string, learningRate: string, warmupRatio: string,
    optimizer: string, gradientSteps: string,
    peftR: string, peftAlpha: string, peftDropout: string,
    rows: seq<RowError>)

  /** What the gate returns and what it stores for the form to display. */
  datatype Validation = Validation(passed: bool, errors: Errors)

  /** `cond ? '' : text`: empty exactly when the condition holds. */
  function Message(ok: bool, text: string): (m: string)
    requires text != ""
    ensures m == "" <==> ok
  {
    if ok then "" else text
  }

  /** The per-row messages, `rows.map(...)`. */
  function RowErrors(rows: seq<Row>): (errs: seq<RowError>)
    ensures |errs| == |rows|
    ensures forall k | 0 <= k < |rows| ::
      && (errs[k].input == "" <==> rows[k].input != "")
      && (errs[k].output == "" <==> rows[k].output != "")
  {
    seq(|rows|, k requires 0 <= k < |rows| =>
      RowError(Message(rows[k].input != "", "Input is required"),
               Message(rows[k].output != "", "Output is required")))
  }

  /** Each field's message is empty exactly when that field's requirement
      holds, as `validateFields` sets them. */
  predicate FieldMessagesMatch(e: Errors, cfg: JobConfig) {
    && (e.modelName == "" <==> cfg.modelName != "")
    && (e.baseModel == "" <==> cfg.baseModel != "")
    && (e.description == "" <==> cfg.description != "")
    && (e.epoch == "" <==> cfg.epoch > 0.0)
    && (e.learningRate == "" <==> cfg.learningRate > 0.0)
    && (e.warmupRatio == "" <==> 0.0 <= cfg.warmupRatio <= 1.0)
    && (e.optimizer == "" <==> cfg.optimizer != "")
    && (e.gradientSteps == "" <==> cfg.gradientSteps > 0.0)
    && (e.peftR == "" <==> cfg.peftR > 0.0)
    && (e.peftAlpha == "" <==> cfg.peftAlpha > 0.0)
    && (e.peftDropout == "" <==> 0.0 <= cfg.peftDropout <= 1.0)
  }

  /** The full error record for the form and the table: one message per
      field, empty exactly when that field's requirement holds. */
  function ErrorsOf(cfg: JobConfig, rows: seq<Row>): (e: Errors)
    ensures FieldMessagesMatch(e, cfg)
    ensures e.rows == RowErrors(rows)
  {
    Errors(
      Message(cfg.modelName != "", "Model name is required"),
      Message(cfg.baseModel != "", "Base model is required"),
      Message(cfg.description != "", "Description is required"),
      Message(cfg.epoch > 0.0, "Epoch must be greater than 0"),
      Message(cfg.learningRate > 0.0, "Learning rate must be greater than 0"),
      Message(0.0 <= cfg.warmupRatio <= 1.0, "Warmup ratio must be between 0 and 1"),
      Message(cfg.optimizer != "", "Optimizer is required"),
      Message(cfg.gradientSteps > 0.0, "Gradient steps must be greater than 0"),
      Message(cfg.peftR > 0.0, "Peft R is required"),
      Message(cfg.peftAlpha > 0.0, "Peft Alpha is required"),
      Message(0.0 <= cfg.peftDropout <= 1.0, "Peft Dropout must be between 0 and 1"),
      RowErrors(rows))
  }

  /** Some row carries a non-empty message. */
  predicate HasRowErrors(errs: seq<RowError>) {
    exists k | 0 <= k < |errs| :: errs[k].input != "" || errs[k].output != ""
  }

  /** Some field other than `rows` carries a non-empty message. */
  predicate HasFieldErrors(e: Errors) {
    || e.modelName != "" || e.baseModel != "" || e.description != ""
    || e.epoch != "" || e.learningRate != "" || e.warmupRatio != ""
    || e.optimizer != "" || e.gradientSteps != ""
    || e.peftR != "" || e.peftAlpha != "" || e.peftDropout != ""
  }

  /** The form requirements, stated directly: names and choices filled in,
      counts and rates positive, ratios within [0, 1]. */
  predicate ConfigValid(cfg: JobConfig) {
    && cfg.modelName != "" && cfg.baseModel != "" && cfg.description != ""
    && cfg.optimizer != ""
    && cfg.epoch > 0.0 && cfg.learningRate > 0.0 && cfg.gradientSteps > 0.0
    && cfg.peftR > 0.0 && cfg.peftAlpha > 0.0
    && 0.0 <= cfg.warmupRatio <= 1.0 && 0.0 <= cfg.peftDropout <= 1.0
  }

  /** Every row has both an input and an output. */
  predicate RowsComplete(rows: seq<Row>) {
    forall k | 0 <= k < |rows| :: rows[k].input != "" && rows[k].output != ""
  }

  /** `validateFields`. It passes exactly when the form requirements hold
      and every row is complete; it reports one message pair per row, empty
      exactly where the row's text is present. */
  function ValidateFields(cfg: JobConfig, rows: seq<Row>): (v: Validation)
    ensures v.passed <==> ConfigValid(cfg) && RowsComplete(rows)
    ensures |v.errors.rows| == |rows|
    ensures forall k | 0 <= k < |rows| ::
      && (v.errors.rows[k].input == "" <==> rows[k].input != "")
      && (v.errors.rows[k].output == "" <==> rows[k].output != "")
    ensures FieldMessagesMatch(v.errors, cfg)
  {
    var errors := ErrorsOf(cfg, rows);
    NoErrorsIffValid(cfg, rows, errors);
    Validation(!HasRowErrors(errors.rows) && !HasFieldErrors(errors), errors)
  }

  /** No message is set exactly when the form requirements hold and every
      row is complete. */
  lemma NoErrorsIffValid(cfg: JobConfig, rows: seq<Row>, errors: Errors)
    requires errors == ErrorsOf(cfg, rows)
    ensures !HasRowErrors(errors.rows) && !HasFieldErrors(errors) <==> ConfigValid(cfg) && RowsComplete(rows)
  {
  }


  /** The hyperparameter defaults are valid: a fresh form needs only a model
      name, a description and complete rows to pass. */
  lemma DefaultsNeedOnlyNames(name: string, description: string, rows: seq<Row>)
    ensures ValidateFields(InitialConfig.(modelName := name, description := description), rows).passed
      <==> name != "" && description != "" && RowsComplete(rows)
  {
  }

  /** A freshly added row is blank, so it blocks submission until filled in. */
  lemma AddedRowBlocks(cfg: JobConfig, rows: seq<Row>)
    ensures !ValidateFields(cfg, AddRow(rows)).passed
  {
    assert AddRow(rows)[|rows|] == BlankRow;
  }

  /** The table the page starts with is one blank row, so a fresh page
      cannot submit before that row is filled in. */
  lemma InitialTableBlocks(cfg: JobConfig)
    ensures InitialRows == AddRow([])
    ensures !ValidateFields(cfg, InitialRows).passed
  {
    AddedRowBlocks(cfg, []);
  }

  /** Ticking a checkbox changes neither the verdict nor any message. */
  lemma ToggleKeepsValidation(cfg: JobConfig, rows: seq<Row>, i: nat)
    requires i < |rows|
    ensures ValidateFields(cfg, ToggleChecked(rows, i)) == ValidateFields(cfg, rows)
  {
    assert RowErrors(ToggleChecked(rows, i)) == RowErrors(rows);
  }

  /** Attaching an image changes neither the verdict nor any message. */
  lemma AttachKeepsValidation(cfg: JobConfig, rows: seq<Row>, i: nat, picked: Option<Attachment>, preview: string)
    requires i < |rows|
    ensures ValidateFields(cfg, AttachImage(rows, i, picked, preview)) == ValidateFields(cfg, rows)
  {
    assert RowErrors(AttachImage(rows, i, picked, preview)) == RowErrors(rows);
  }

  /** Typing a non-empty input into row `i` clears that row's input message
      and leaves every other row's messages as they were. */
  lemma FillingInputClearsItsError(cfg: JobConfig, rows: seq<Row>, i: nat, value: string)
    requires i < |rows| && value != ""
    ensures var before := ValidateFields(cfg, rows).errors.rows;
      var after := ValidateFields(cfg, SetInput(rows, i, value)).errors.rows;
      && after[i].input == "" && after[i].output == before[i].output
      && forall j | 0 <= j < |rows| && j != i :: after[j] == before[j]
  {
  }
}
