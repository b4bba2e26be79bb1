/**
  The read handler of the sheets function: validates the `sheet` query
  parameter, reads the whole tab through the spreadsheet service, converts
  the rows with the tabular adapter, and shapes the response. The service
  call is a parameter of the model; its outcome is either the `values`
  field of the reply (absent for an empty tab) or the message of the error
  it threw.
 */
module SheetsHandler {
  import opened Wrappers
  import opened Table

  /** Name of the query parameter that selects the tab to read. */
  const SheetParam: string := "sheet"

  /** Message thrown when the `sheet` parameter is missing or empty. */
  const MissingSheetMessage: string := "Parâmetro 'sheet' é obrigatório."

  /** Fixed `error` field of every failure response. */
  const AccessFailure: string := "Falha ao aceder aos dados da planilha."

  const StatusOk: int := 200
  const StatusServerError: int := 500

  /** Response header set when converted rows are returned. */
  const JsonContentType: map<string, string> := map["Content-Type" := "application/json"]

  /** What the response body carries before JSON serialisation. */
  datatype Body =
    | RecordList(records: seq<Record>)
    | ErrorObject(error: string, message: string)

  datatype Response = Response(statusCode: int, headers: map<string, string>, body: Body)

  /** Outcome of reading a whole tab: the optional `values` field, or the
      thrown error's message. */
  type FetchOutcome = Result<Option<seq<Row>>, string>

  /** The guard on the `sheet` parameter: a missing or empty value (both
      falsy) is refused; anything else names the tab to read. */
  function SheetName(query: map<string, string>): (r: Result<string, string>)
    ensures r.Success? <==> SheetParam in query && query[SheetParam] != ""
    ensures r.Success? ==> r.value == query[SheetParam]
    ensures r.Failure? ==> r.error == MissingSheetMessage
  {
    if SheetParam in query && query[SheetParam] != "" then Success(query[SheetParam])
    else Failure(MissingSheetMessage)
  }

  /** The catch block: every thrown error becomes a 500 whose body carries the
      fixed `error` text and the thrown message. */
  function ErrorResponse(message: string): Response {
    Response(StatusServerError, map[], ErrorObject(AccessFailure, message))
  }

  /** One invocation of the handler for the given query parameters, with
      `fetch` standing for the range read of the named tab. */
  function Handle(query: map<string, string>, fetch: string -> FetchOutcome): (resp: Response)
    ensures resp.statusCode == StatusOk || resp.statusCode == StatusServerError
    ensures resp.statusCode == StatusOk <==>
              SheetName(query).Success? && fetch(query[SheetParam]).Success?
    ensures SheetName(query).Failure? ==> resp == ErrorResponse(MissingSheetMessage)
    ensures SheetName(query).Success? && fetch(query[SheetParam]).Failure? ==>
              resp == ErrorResponse(fetch(query[SheetParam]).error)
    ensures resp.statusCode == StatusOk ==>
              resp.body == RecordList(ToRecords(fetch(query[SheetParam]).value))
    ensures resp.headers == map[] || resp.headers == JsonContentType
    ensures "Content-Type" in resp.headers <==>
              && resp.statusCode == StatusOk
              && fetch(query[SheetParam]).value.Some?
              && 0 < |fetch(query[SheetParam]).value.value|
  {
    match SheetName(query)
    case Failure(message) => ErrorResponse(message)
    case Success(name) =>
      match fetch(name)
      case Failure(message) => ErrorResponse(message)
      case Success(values) =>
        if values.None? || |values.value| == 0 then Response(StatusOk, map[], RecordList([]))
        else Response(StatusOk, JsonContentType, RecordList(ToRecords(values)))
  }

  /** A request without a usable `sheet` parameter is answered before the
      spreadsheet is read: the response does not depend on the service. */
  lemma MissingSheetNeverReads(query: map<string, string>, f: string -> FetchOutcome, g: string -> FetchOutcome)
    requires !(SheetParam in query && query[SheetParam] != "")
    ensures Handle(query, f) == Handle(query, g)
    ensures Handle(query, f).statusCode == StatusServerError
    ensures Handle(query, f).body.message == MissingSheetMessage
  {
  }

  /** A tab that holds only its header row is answered with an empty list. */
  lemma HeaderOnlySheetGivesNoRecords(query: map<string, string>, fetch: string -> FetchOutcome, header: Row)
    requires SheetName(query).Success?
    requires fetch(query[SheetParam]) == Success(Some([header]))
    ensures Handle(query, fetch) == Response(StatusOk, JsonContentType, RecordList([]))
  {
  }

  /** The worked example of the products tab: header
      `Produto_ID, Nome, Status` and one row `p1, Widget, Ativo`. */
  lemma ProductsTabExample(fetch: string -> FetchOutcome)
    requires fetch("produtos") ==
             Success(Some([["Produto_ID", "Nome", "Status"], ["p1", "Widget", "Ativo"]]))
    ensures Handle(map[SheetParam := "produtos"], fetch).body ==
            RecordList([map["Produto_ID" := Some("p1"), "Nome" := Some("Widget"), "Status" := Some("Ativo")]])
  {
    ProductsRowExample();
  }

  /** The data row of the example, converted against the full header. */
  lemma ProductsRowExample()
    ensures RowToRecord(["Produto_ID", "Nome", "Status"], ["p1", "Widget", "Ativo"]) ==
            map["Produto_ID" := Some("p1"), "Nome" := Some("Widget"), "Status" := Some("Ativo")]
  {
    // Not needed for the proof: unfolding the last column by hand keeps the
    // solver's work small.
    ProductsPrefixExample();
    assert ["Produto_ID", "Nome", "Status"][..2] == ["Produto_ID", "Nome"];
    assert IsStoredKey("Status");
  }

  /** The same row against the first two header columns only. */
  lemma ProductsPrefixExample()
    ensures RowToRecord(["Produto_ID", "Nome"], ["p1", "Widget", "Ativo"]) ==
            map["Produto_ID" := Some("p1"), "Nome" := Some("Widget")]
  {
    assert ["Produto_ID", "Nome"][..1] == ["Produto_ID"];
    assert ["Produto_ID"][..0] == [];
    assert IsStoredKey("Produto_ID") && IsStoredKey("Nome");
  }
}
