/**
 * The four `get_json_file_*` endpoints of main.py around the shared
 * reshaping: the file-name check, the lookup in the output folder and the
 * error replies.
 */
module Endpoints {
  import opened Wrappers
  import opened PyStr
  import opened PyDict
  import opened Reshape
  import opened ReportConfig

  /** What the output folder holds under a file name. */
  datatype StoredFile = Unparsable | Parsed(rows: seq<Row>)

  /**
   * `jsonify({"error": error}, code)` produces a JSON list of the error
   * object and the number, sent with the default status; a report is sent
   * as the response payload with the HTTP status `status`.
   */
  datatype Reply = ErrorReply(error: string, code: int) | ReportReply(report: Report, status: int)

  /** A report without records is sent with 404, any other with 200. */
  function ReportStatusCode(report: Report): int {
    if report.read == [] then 404 else 200
  }

  const JsonSuffix := ".json"
  const SuffixError := "Nama file harus berakhiran .json"
  const MissingError := "File tidak ditemukan."
  const InvalidJsonError := "File bukan JSON yang valid."

  /**
   * One endpoint. The suffix is checked before anything is looked up, a
   * missing file and a file that is not JSON have their own replies, and a
   * parsed file is reshaped with the endpoint's constants.
   */
  method Serve(kind: ReportKind, filename: string, folder: map<string, StoredFile>) returns (reply: Reply)
    ensures !EndsWith(filename, JsonSuffix) ==> reply == ErrorReply(SuffixError, 400)
    ensures EndsWith(filename, JsonSuffix) && filename !in folder ==> reply == ErrorReply(MissingError, 404)
    ensures EndsWith(filename, JsonSuffix) && filename in folder && folder[filename].Unparsable? ==>
      reply == ErrorReply(InvalidJsonError, 400)
    ensures EndsWith(filename, JsonSuffix) && filename in folder && folder[filename].Parsed? ==>
      var report := ReportOf(folder[filename].rows, Accounts(kind), KeyOrder(kind));
      reply == ReportReply(report, ReportStatusCode(report))
  {
    if !EndsWith(filename, JsonSuffix) {
      return ErrorReply(SuffixError, 400);
    }
    if filename !in folder {
      return ErrorReply(MissingError, 404);
    }
    match folder[filename]
    case Unparsable =>
      reply := ErrorReply(InvalidJsonError, 400);
    case Parsed(rows) =>
      var report := ReshapeReport(rows, Accounts(kind), KeyOrder(kind));
      reply := ReportReply(report, if report.read == [] then 404 else 200);
  }

  /** A parsed file is answered with 404 exactly when it holds no year column, and then with the FAILED report. */
  lemma ServedFailure(kind: ReportKind, rows: seq<Row>)
    ensures var report := ReportOf(rows, Accounts(kind), KeyOrder(kind));
      && (ReportStatusCode(report) == 404 <==> YearsIn(rows) == {})
      && (ReportStatusCode(report) == 404 ==> report.status == Failed && report.reason == NoYearReason)
  {
    ReportStatus(rows, Accounts(kind), KeyOrder(kind));
  }

  /**
   * Syariah income-statement records carry no "year" field, and the
   * "SISA HASIL USAHA BRUTO" row never reaches them.
   */
  lemma SyariahIncomeRecordsOmit(rows: seq<Row>, i: int)
    requires 0 <= i < |ReportOf(rows, Accounts(SyariahIncome), KeyOrder(SyariahIncome)).read|
    ensures var rec := ReportOf(rows, Accounts(SyariahIncome), KeyOrder(SyariahIncome)).read[i];
      && Get(rec, "year") == None
      && Get(rec, "remaining_profit_bruto") == None
  {
    YearListed(SyariahIncome);
    BrutoTargetUnlisted();
    ReportRecords(rows, Accounts(SyariahIncome), KeyOrder(SyariahIncome), i, "year");
    ReportRecords(rows, Accounts(SyariahIncome), KeyOrder(SyariahIncome), i, "remaining_profit_bruto");
  }

  /** Every endpoint's records list its fields in its order, each once. */
  lemma EndpointKeyOrder(kind: ReportKind, rows: seq<Row>, i: int)
    requires 0 <= i < |ReportOf(rows, Accounts(kind), KeyOrder(kind)).read|
    ensures Keys(ReportOf(rows, Accounts(kind), KeyOrder(kind)).read[i]) == KeyOrder(kind)
  {
    KeyOrderNoRepeats(kind);
    ReportKeyOrder(rows, Accounts(kind), KeyOrder(kind), i);
  }
}
