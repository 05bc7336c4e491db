/** The tail of the upload handler: the header row is sanitised in place, the
    statement is built and prepared once, and it is executed once per CSV
    record (the header record included) with the project id in front of the
    record's cells, stopping at the first failed execution.

    The database is not modelled. Preparing the statement succeeds or not as
    `prepareOk` says, and execution number `k` (counted from 0) with
    parameters `values` succeeds exactly when `accept(k, values)` holds. */
module UploadIngest {
  import opened GoStrings
  import opened HeaderSanitizer
  import opened InsertBuilder

  /** One bound parameter of `stmt.Exec`: the project id, or a CSV cell. */
  datatype Param = ProjectId(id: int) | Cell(text: string)

  /** The cells of one record as parameters, in cell order. */
  function Cells(row: seq<string>): (r: seq<Param>)
    ensures |r| == |row|
  {
    if row == [] then [] else [Cell(row[0])] + Cells(row[1..])
  }

  /** The parameter vector of one execution (lines 129-134). */
  function RowParams(projectID: int, row: seq<string>): (values: seq<Param>)
    ensures |values| == |row| + 1
    ensures values[0] == ProjectId(projectID)
  {
    [ProjectId(projectID)] + Cells(row)
  }

  /** The texts of the cell parameters of a vector, in order. */
  function Texts(values: seq<Param>): seq<string>
  {
    if values == [] then []
    else (if values[0].Cell? then [values[0].text] else []) + Texts(values[1..])
  }

  lemma {:induction false} TextsAppend(a: seq<Param>, b: seq<Param>)
    ensures Texts(a + b) == Texts(a) + Texts(b)
  {
    if a == [] {
      assert a + b == b;
    } else {
      assert (a + b)[0] == a[0];
      assert (a + b)[1..] == a[1..] + b;
      TextsAppend(a[1..], b);
    }
  }

  lemma {:induction false} TextsOfCells(row: seq<string>)
    ensures Texts(Cells(row)) == row
  {
    if row != [] {
      TextsAppend([Cell(row[0])], Cells(row[1..]));
      TextsOfCells(row[1..]);
      assert [row[0]] + row[1..] == row;
    }
  }

  /** A parameter vector is the project id followed by exactly the record's
      cells, in cell order: reading the cell texts back gives the record. */
  lemma RowParamsReadBack(projectID: int, row: seq<string>)
    ensures RowParams(projectID, row)[0] == ProjectId(projectID)
    ensures Texts(RowParams(projectID, row)) == row
  {
    TextsAppend([ProjectId(projectID)], Cells(row));
    TextsOfCells(row);
  }

  lemma {:induction false} CellsSnoc(row: seq<string>, c: string)
    ensures Cells(row + [c]) == Cells(row) + [Cell(c)]
  {
    if row != [] {
      assert (row + [c])[0] == row[0];
      assert (row + [c])[1..] == row[1..] + [c];
      CellsSnoc(row[1..], c);
    } else {
      assert row + [c] == [c];
    }
  }

  /** A record's parameter vector fills every placeholder of the statement
      built from the sanitised header row, whenever the record is as wide as
      the header row. */
  lemma ParamsFillStatement(projectID: int, header: seq<string>, row: seq<string>)
    requires |row| == |header|
    ensures |RowParams(projectID, row)| == Count(InsertQuery(SanitizeAll(header)), '?')
  {
    QueryPlaceholderCount(header);
  }

  /** Lines 129-134: the parameter vector grown by `append`. */
  method RowValues(projectID: int, row: array<string>) returns (values: seq<Param>)
    ensures values == RowParams(projectID, row[..])
  {
    values := [ProjectId(projectID)];
    for k := 0 to row.Length
      invariant values == RowParams(projectID, row[..k])
    {
      CellsSnoc(row[..k], row[k]);
      assert row[..k + 1] == row[..k] + [row[k]];
      values := values + [Cell(row[k])];
    }
    assert row[..row.Length] == row[..];
  }

  /** Executions `0..n-1` all succeeded. */
  predicate AcceptedBefore(accept: (nat, seq<Param>) -> bool, attempted: seq<seq<Param>>, n: nat)
    requires n <= |attempted|
  {
    forall k :: 0 <= k < n ==> accept(k, attempted[k])
  }

  /** How the insert loop ended. */
  datatype InsertOutcome = AllInserted | FailedAt(row: nat)

  /** Lines 128-141: one execution per record, in order, returning at the
      first failure. `attempted` lists the parameter vectors of the
      executions made, the failed one included. */
  method InsertRows(records: seq<array<string>>, projectID: int, accept: (nat, seq<Param>) -> bool)
    returns (outcome: InsertOutcome, attempted: seq<seq<Param>>)
    ensures |attempted| <= |records|
    ensures forall k :: 0 <= k < |attempted| ==> attempted[k] == RowParams(projectID, records[k][..])
    ensures outcome.AllInserted? <==>
              |attempted| == |records| && AcceptedBefore(accept, attempted, |attempted|)
    ensures outcome.FailedAt? ==>
              && outcome.row == |attempted| - 1
              && !accept(outcome.row, attempted[outcome.row])
              && AcceptedBefore(accept, attempted, outcome.row)
  {
    attempted := [];
    for i := 0 to |records|
      invariant |attempted| == i
      invariant forall k :: 0 <= k < i ==> attempted[k] == RowParams(projectID, records[k][..])
      invariant AcceptedBefore(accept, attempted, i)
    {
      var values := RowValues(projectID, records[i]);
      attempted := attempted + [values];
      if !accept(i, values) {
        return FailedAt(i), attempted;
      }
    }
    outcome := AllInserted;
  }

  /** What the handler reports after line 99. */
  datatype UploadResult = Inserted | PrepareFailed | RowFailed(row: nat)

  const SuccessMessage := "Data inserted successfully"

  /** The HTTP reply. Success goes out as the JSON envelope of
      `models.Response` (line 149); a database error goes out through
      `http.Error` as plain text, the error text followed by a newline. */
  datatype Reply = JsonReply(status: int, message: string) | TextReply(status: int, body: string)

  /** Lines 121-123, 137-139 and 143-149: the reply for each way the handler
      ends once the records are parsed. */
  function Respond(result: UploadResult, dbError: string): (r: Reply)
    ensures r.status == 200 <==> result.Inserted?
    ensures r.status == 200 || r.status == 500
    ensures result.Inserted? ==> r == JsonReply(200, SuccessMessage)
    ensures !result.Inserted? ==> r == TextReply(500, dbError + "\n")
  {
    if result.Inserted? then JsonReply(200, SuccessMessage) else TextReply(500, dbError + "\n")
  }

  /** Lines 100-150 of the handler, from the parsed records on. The records
      are distinct arrays of equal width, as the CSV reader returns them. */
  method UploadRecords(records: seq<array<string>>, projectID: int, prepareOk: bool,
                       accept: (nat, seq<Param>) -> bool, dbError: string)
    returns (query: string, result: UploadResult, attempted: seq<seq<Param>>, reply: Reply)
    requires |records| > 0
    requires forall j :: 0 < j < |records| ==> records[j] != records[0]
    requires forall j :: 0 <= j < |records| ==> records[j].Length == records[0].Length
    modifies records[0]
    ensures records[0][..] == SanitizeAll(old(records[0][..]))
    ensures forall j :: 0 < j < |records| ==> records[j][..] == old(records[j][..])
    ensures query == InsertQuery(records[0][..])
    ensures result.PrepareFailed? <==> !prepareOk
    ensures !prepareOk ==> attempted == []
    ensures |attempted| <= |records|
    ensures forall k :: 0 <= k < |attempted| ==> attempted[k] == RowParams(projectID, records[k][..])
    ensures result.Inserted? <==>
              prepareOk && |attempted| == |records| && AcceptedBefore(accept, attempted, |attempted|)
    ensures result.RowFailed? ==>
              && result.row == |attempted| - 1
              && !accept(result.row, attempted[result.row])
              && AcceptedBefore(accept, attempted, result.row)
    ensures forall k :: 0 <= k < |attempted| ==> |attempted[k]| == Count(query, '?')
    ensures reply == Respond(result, dbError)
    ensures reply.status == 200 <==>
              prepareOk && |attempted| == |records| && AcceptedBefore(accept, attempted, |attempted|)
    ensures reply.JsonReply? <==> reply.status == 200
  {
    var headers := SanitizeHeaderRow(records);
    var columnCount := records[0].Length;
    var placeholders := Placeholders(columnCount);
    var escapedHeaders := EscapeHeaders(headers);
    query := Statement(Join(escapedHeaders[..], Separator), placeholders);
    if !prepareOk {
      result, attempted := PrepareFailed, [];
      reply := Respond(result, dbError);
      return;
    }
    var outcome;
    outcome, attempted := InsertRows(records, projectID, accept);
    result := if outcome.AllInserted? then Inserted else RowFailed(outcome.row);
    reply := Respond(result, dbError);
    forall k | 0 <= k < |attempted|
      ensures |attempted[k]| == Count(query, '?')
    {
      ParamsFillStatement(projectID, old(records[0][..]), records[k][..]);
    }
  }

  /** As written, an upload in which the database accepts everything
      executes the statement once per record, the header record included:
      one execution more than there are data records, and the first one
      carries the cleaned header cells as values. */
  method HeaderRowIsInserted(records: seq<array<string>>, projectID: int)
    returns (result: UploadResult, attempted: seq<seq<Param>>)
    requires |records| > 0
    requires forall j :: 0 < j < |records| ==> records[j] != records[0]
    requires forall j :: 0 <= j < |records| ==> records[j].Length == records[0].Length
    modifies records[0]
    ensures result.Inserted?
    ensures |attempted| == |records[1..]| + 1
    ensures attempted[0] == RowParams(projectID, SanitizeAll(old(records[0][..])))
    ensures Texts(attempted[0]) == SanitizeAll(old(records[0][..]))
  {
    var query, reply;
    query, result, attempted, reply := UploadRecords(records, projectID, true, (k, values) => true, "");
    RowParamsReadBack(projectID, records[0][..]);
  }

  /** The loop as evidently intended: the header record names the columns and
      is not data, so only records 1.. are executed, each once and in order. */
  method InsertDataRows(records: seq<array<string>>, projectID: int, accept: (nat, seq<Param>) -> bool)
    returns (outcome: InsertOutcome, attempted: seq<seq<Param>>)
    requires |records| > 0
    ensures |attempted| <= |records| - 1
    ensures forall k :: 0 <= k < |attempted| ==> attempted[k] == RowParams(projectID, records[k + 1][..])
    ensures outcome.AllInserted? <==>
              |attempted| == |records| - 1 && AcceptedBefore(accept, attempted, |attempted|)
    ensures outcome.FailedAt? ==>
              && outcome.row == |attempted| - 1
              && !accept(outcome.row, attempted[outcome.row])
              && AcceptedBefore(accept, attempted, outcome.row)
  {
    outcome, attempted := InsertRows(records[1..], projectID, accept);
  }
}
