/** The request handler for "/" (index): route the request, and when both
    uploads are acceptable run the merge-and-report pipeline on their sheets. */
module App {
  import opened Nullable
  import opened Upload
  import opened Report

  datatype HttpMethod = Get | Post

  /** One file field of the multipart form: the client's file name and the
      sheet it holds, already parsed into (Reference, Price) rows. */
  datatype FilePart = FilePart(filename: string, sheet: seq<Row>)

  /** A request to "/"; file1 and file2 are None when the field is absent. */
  datatype Request = Request(verb: HttpMethod, file1: Option<FilePart>, file2: Option<FilePart>)

  /** What index decides before it reads any sheet. */
  datatype Gate = Redirect | ShowForm | Process(sheet1: seq<Row>, sheet2: seq<Row>)

  /** What index answers: a redirect to the form, the form page, the report
      page with its rows, or the server error of an unhandled exception. */
  datatype Response = Redirected | FormPage | ReportPage(results: seq<ReportRow>) | ServerError

  /** A file field is truthy when its file name is non-empty. */
  predicate Truthy(f: FilePart)
  {
    f.filename != ""
  }

  /** The branches of index before the merge. A missing field or an empty
      file name redirects. A name allowed_file rejects, or a GET, falls
      through to the form page. Only two allowed names reach the merge.
      savedName stands for secure_filename (joined to the upload folder):
      file1 is saved first and file2 second, so when both names are saved
      under the same path, file2 overwrites file1 and both sheets read back
      are file2's. */
  function Decide(req: Request, savedName: string -> string): (g: Gate)
    ensures g == Redirect <==>
              req.verb == Post &&
              (req.file1.None? || req.file2.None? ||
               req.file1.value.filename == "" || req.file2.value.filename == "")
    ensures g.Process? <==>
              req.verb == Post && req.file1.Some? && req.file2.Some? &&
              AllowedFile(req.file1.value.filename) && AllowedFile(req.file2.value.filename)
    ensures g.Process? ==> g.sheet2 == req.file2.value.sheet
    ensures g.Process? ==>
              g.sheet1 == if savedName(req.file1.value.filename) == savedName(req.file2.value.filename)
                          then req.file2.value.sheet else req.file1.value.sheet
  {
    if req.verb == Post then
      if req.file1.None? || req.file2.None? then Redirect
      else
        var file1, file2 := req.file1.value, req.file2.value;
        if file1.filename == "" || file2.filename == "" then Redirect
        else if Truthy(file1) && AllowedFile(file1.filename) && Truthy(file2) && AllowedFile(file2.filename) then
          var path1, path2 := savedName(file1.filename), savedName(file2.filename);
          var stored1 := if path1 == path2 then file2.sheet else file1.sheet;
          Process(stored1, file2.sheet)
        else ShowForm
    else ShowForm
  }

  /** index: the report is produced only for a POST with two allowed file
      names, from the two sheets read back from the saved files (Autocab
      from file1's path, CMAC from file2's); every other request gets the
      redirect or the form without any merge. Two empty sheets make the
      Description step raise, which the caller sees as a server error. */
  method Index(req: Request, savedName: string -> string) returns (resp: Response)
    requires Decide(req, savedName).Process? ==>
               UniqueRefs(Decide(req, savedName).sheet1) && UniqueRefs(Decide(req, savedName).sheet2)
    ensures resp == Redirected <==> Decide(req, savedName) == Redirect
    ensures resp == FormPage <==> Decide(req, savedName) == ShowForm
    ensures resp == ServerError <==>
              Decide(req, savedName).Process? && Decide(req, savedName).sheet1 == [] && Decide(req, savedName).sheet2 == []
    ensures resp.ReportPage? ==>
              Decide(req, savedName).Process? &&
              IsReport(resp.results, Decide(req, savedName).sheet1, Decide(req, savedName).sheet2)
  {
    match Decide(req, savedName)
    case Redirect =>
      resp := Redirected;
    case ShowForm =>
      resp := FormPage;
    case Process(sheet1, sheet2) =>
      var results := MergeReport(sheet1, sheet2);
      resp := if results.Some? then ReportPage(results.value) else ServerError;
  }

  /** Two uploads saved under the same name: file2 overwrites file1 before
      either is read, so CMAC's prices are compared with themselves and a
      reference the two uploads priced differently is reported as a match. */
  lemma CollidingUploadsCompareCmacWithItself(savedName: string -> string)
    ensures var a, b := [Row(1, Some(100))], [Row(1, Some(200))];
            var g := Decide(Request(Post, Some(FilePart("p.xlsx", a)), Some(FilePart("p.xlsx", b))), savedName);
            g == Process(b, b) &&
            ExpectedRow(g.sheet1, g.sheet2, 1).description == MatchDescription
  {
    assert "p.xlsx"[1] == '.' && "p.xlsx"[2..] == "xlsx";
    assert Lower("xlsx") == "xlsx";
    EndsInXlsxAccepted("p.xlsx");
  }

  /** A file with a spreadsheet name in the wrong format is turned away with
      the form, not with a redirect: "prices.csv" beside an accepted file. */
  lemma WrongExtensionShowsForm(sheet1: seq<Row>, sheet2: seq<Row>, savedName: string -> string)
    ensures Decide(Request(Post, Some(FilePart("prices.csv", sheet1)), Some(FilePart("a.xlsx", sheet2))), savedName) == ShowForm
    ensures Decide(Request(Post, Some(FilePart("", sheet1)), Some(FilePart("a.xlsx", sheet2))), savedName) == Redirect
  {
    assert "prices.csv"[5] != '.';
    if AllowedFile("prices.csv") {
      AcceptedEndsInXlsx("prices.csv");
    }
  }
}
