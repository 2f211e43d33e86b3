/** The table of training examples held by the page, and the edits the
    table's controls make to it. Every edit replaces the whole sequence. */
module Rows {
  import opened Wrappers

  /** A file attached to a row: the bytes and their media type. The file
      name, built from a timestamp, is not modelled. */
  datatype Attachment = Attachment(content: seq<bv8>, contentType: string)

  /** One training example: `image` is the preview URL shown in the table,
      `file` the upload that goes with the submission. */
  datatype Row = Row(checked: bool, image: Option<string>, file: Option<Attachment>,
                     input: string, output: string)

  /** The row that "Add Row" appends, and the table's only row at start. */
  const BlankRow := Row(false, None, None, "", "")

  const InitialRows := [BlankRow]

  /** "Add Row": one blank row at the end, the others untouched. */
  function AddRow(rows: seq<Row>): (r: seq<Row>)
    ensures |r| == |rows| + 1
    ensures r[..|rows|] == rows && r[|rows|] == BlankRow
  {
    rows + [BlankRow]
  }

  /** The row delete button: `rows.filter((_, i) => i !== target)`, walking
      the indices in order. Exactly position `target` goes, the rest keep
      their order; an index outside the table removes nothing. */
  function RemoveRow(rows: seq<Row>, target: int): (r: seq<Row>)
    ensures 0 <= target < |rows| ==> r == rows[..target] + rows[target + 1..]
    ensures !(0 <= target < |rows|) ==> r == rows
  {
    if |rows| == 0 then []
    else
      var last := |rows| - 1;
      var kept := if last == target then [] else [rows[last]];
      assert rows == rows[..last] + [rows[last]];
      RemoveRow(rows[..last], target) + kept
  }

  /** Deleting the row just added gives back the table as it was. */
  lemma RemoveAddedRow(rows: seq<Row>)
    ensures RemoveRow(AddRow(rows), |rows|) == rows
  {
  }

  /** The row checkbox. The source dereferences `rows[i]`, so `i` must be a
      row of the table. Only that row's `checked` flag changes. */
  function ToggleChecked(rows: seq<Row>, i: nat): (r: seq<Row>)
    requires i < |rows|
    ensures |r| == |rows|
    ensures r[i] == rows[i].(checked := !rows[i].checked)
    ensures forall j | 0 <= j < |rows| && j != i :: r[j] == rows[j]
  {
    rows[i := rows[i].(checked := !rows[i].checked)]
  }

  /** Ticking a checkbox twice leaves the table as it was. */
  lemma ToggleTwice(rows: seq<Row>, i: nat)
    requires i < |rows|
    ensures ToggleChecked(ToggleChecked(rows, i), i) == rows
  {
  }

  /** The input text field of row `i`: only that row's `input` changes. */
  function SetInput(rows: seq<Row>, i: nat, value: string): (r: seq<Row>)
    requires i < |rows|
    ensures |r| == |rows|
    ensures r[i] == rows[i].(input := value)
    ensures forall j | 0 <= j < |rows| && j != i :: r[j] == rows[j]
  {
    rows[i := rows[i].(input := value)]
  }

  /** The output text field of row `i`: only that row's `output` changes. */
  function SetOutput(rows: seq<Row>, i: nat, value: string): (r: seq<Row>)
    requires i < |rows|
    ensures |r| == |rows|
    ensures r[i] == rows[i].(output := value)
    ensures forall j | 0 <= j < |rows| && j != i :: r[j] == rows[j]
  {
    rows[i := rows[i].(output := value)]
  }

  /** The image picker of row `i`. When a file was chosen, the row gets it
      as its upload and `preview` (an object URL) as its image; when the
      picker closed without a file, nothing changes. */
  function AttachImage(rows: seq<Row>, i: nat, picked: Option<Attachment>, preview: string): (r: seq<Row>)
    requires i < |rows|
    ensures |r| == |rows|
    ensures picked.None? ==> r == rows
    ensures picked.Some? ==> r[i] == rows[i].(image := Some(preview), file := picked)
    ensures forall j | 0 <= j < |rows| && j != i :: r[j] == rows[j]
  {
    match picked
    case None => rows
    case Some(_) => rows[i := rows[i].(image := Some(preview), file := picked)]
  }

  /** Edits to different rows do not interfere: they can be made in either order. */
  lemma EditsOfDifferentRowsCommute(rows: seq<Row>, i: nat, j: nat, v: string, w: string)
    requires i < |rows| && j < |rows| && i != j
    ensures SetOutput(SetInput(rows, i, v), j, w) == SetInput(SetOutput(rows, j, w), i, v)
  {
  }
}
