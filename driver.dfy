/**
 * The batch driver (`main`) and the row formatting of `save_results` in
 * evaluation_model.py. Reading `query_logs.json` and writing the CSV file
 * are I/O and are not modelled: the driver takes the decoded records and
 * returns the rows, header first, that the CSV writer would be handed.
 */
module Driver {
  import opened Validity

  /** One output record: the record's own coin, query and answers, with its status. */
  datatype ValidationResult = ValidationResult(coin: string, query: string, status: string, answers: seq<Answer>)

  type Row = seq<string>

  const Header: Row := ["coin", "query", "status", "answers"]

  /** The prefix put in front of the first answer's text in the answers column. */
  const TextLabel: string := "text: "

  /** The status word written for a verdict. */
  function StatusText(valid: bool): (word: string)
    ensures word == "valid" <==> valid
    ensures word == "invalid" <==> !valid
  {
    if valid then "valid" else "invalid"
  }

  /** The result tuple appended for one record. */
  function ResultFor(e: Entry, similar: Similarity): (r: ValidationResult)
    ensures r.coin == e.coin && r.query == e.query && r.answers == e.answers
    ensures r.status == "valid" <==> IsValidEntry(e, similar)
    ensures r.status == "invalid" <==> !IsValidEntry(e, similar)
  {
    ValidationResult(e.coin, e.query, StatusText(IsValidEntry(e, similar)), e.answers)
  }

  /** The loop of `main`: one result per record, appended in input order. */
  method ValidateAll(data: seq<Entry>, similar: Similarity) returns (results: seq<ValidationResult>)
    ensures |results| == |data|
    ensures forall i :: 0 <= i < |data| ==>
      results[i].coin == data[i].coin && results[i].query == data[i].query &&
      results[i].answers == data[i].answers
    ensures forall i :: 0 <= i < |data| ==>
      (results[i].status == "valid" <==> IsValidEntry(data[i], similar)) &&
      (results[i].status == "invalid" <==> !IsValidEntry(data[i], similar))
  {
    results := [];
    for n := 0 to |data|
      invariant |results| == n
      invariant forall i :: 0 <= i < n ==> results[i] == ResultFor(data[i], similar)
    {
      results := results + [ResultFor(data[n], similar)];
    }
  }

  /** The answers column: the label followed by the first answer's text, or
      the bare label when there are no answers. */
  function AnswersCell(answers: seq<Answer>): (cell: string)
    ensures |cell| >= |TextLabel| && cell[..|TextLabel|] == TextLabel
    ensures answers == [] ==> cell == TextLabel
    ensures answers != [] ==> cell[|TextLabel|..] == answers[0].text
  {
    var texts := AnswerTexts(answers);
    var text := if |texts| > 0 then texts[0] else "";
    TextLabel + text
  }

  /** The rows `save_results` writes: the header, then one row per result, in order. */
  method SaveRows(results: seq<ValidationResult>) returns (rows: seq<Row>)
    ensures |rows| == |results| + 1
    ensures rows[0] == Header
    ensures forall i :: 0 <= i < |results| ==>
      rows[i + 1] == [results[i].coin, results[i].query, results[i].status, AnswersCell(results[i].answers)]
  {
    rows := [Header];
    for n := 0 to |results|
      invariant |rows| == n + 1
      invariant rows[0] == Header
      invariant forall i :: 0 <= i < n ==>
        rows[i + 1] == [results[i].coin, results[i].query, results[i].status, AnswersCell(results[i].answers)]
    {
      var r := results[n];
      var answersStr := AnswersCell(r.answers);
      rows := rows + [[r.coin, r.query, r.status, answersStr]];
    }
  }

  /** `main` without its file I/O: validate every record, then format the rows. */
  method Run(data: seq<Entry>, similar: Similarity) returns (rows: seq<Row>)
    ensures |rows| == |data| + 1
    ensures rows[0] == Header
    ensures forall i :: 1 <= i < |rows| ==>
      |rows[i]| == 4 && rows[i][0] == data[i - 1].coin && rows[i][1] == data[i - 1].query
    ensures forall i :: 1 <= i < |rows| ==>
      (rows[i][2] == "valid" <==> IsValidEntry(data[i - 1], similar)) &&
      (rows[i][2] == "invalid" <==> !IsValidEntry(data[i - 1], similar))
    ensures forall i :: 1 <= i < |rows| ==> rows[i][3] == AnswersCell(data[i - 1].answers)
  {
    var results := ValidateAll(data, similar);
    rows := SaveRows(results);
    forall i | 1 <= i < |rows|
      ensures rows[i] == [data[i - 1].coin, data[i - 1].query, results[i - 1].status, AnswersCell(data[i - 1].answers)]
    {
      assert rows[(i - 1) + 1] == rows[i];
    }
  }
}
