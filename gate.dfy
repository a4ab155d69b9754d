/** The start gate of the page (the spreadsheet's columns, the credentials and
    the uploads are checked before `send_emails` runs) and the whole pipeline
    behind the start button. */
module Gate {
  import opened Archive
  import opened Batch

  /** What pressing the start button leads to. */
  datatype Verdict = MissingColumns | MissingCredentials | MissingArchive | Start

  const RequiredColumns: set<string> := {"PAN", "Name", "Mail"}

  /** The checks in the order the page makes them: the columns as soon as the
      spreadsheet is loaded, then the credentials, then the uploads. */
  function StartGate(columns: set<string>, senderEmail: string, senderPassword: string,
                     zip1Uploaded: bool, zip2Uploaded: bool): (v: Verdict)
    ensures v == Start <==>
      RequiredColumns <= columns && senderEmail != "" && senderPassword != "" &&
      (zip1Uploaded || zip2Uploaded)
    ensures v == MissingColumns <==> !("PAN" in columns && "Name" in columns && "Mail" in columns)
    ensures v == MissingCredentials ==> RequiredColumns <= columns && (senderEmail == "" || senderPassword == "")
    ensures v == MissingArchive ==>
      RequiredColumns <= columns && senderEmail != "" && senderPassword != "" &&
      !zip1Uploaded && !zip2Uploaded
  {
    if !(RequiredColumns <= columns) then MissingColumns
    else if senderEmail == "" || senderPassword == "" then MissingCredentials
    else if !zip1Uploaded && !zip2Uploaded then MissingArchive
    else Start
  }

  /** The page after the spreadsheet is loaded and the start button pressed:
      the pool is built from the uploads, and the batch runs only past the
      gate, logging in as the sender. */
  method StartSending(columns: set<string>, senderEmail: string, senderPassword: string,
                      zip1: Option<seq<Entry>>, zip2: Option<seq<Entry>>, rows: seq<Row>,
                      loginOk: bool, delivered: nat -> bool)
    returns (verdict: Verdict, result: Option<RunResult>)
    ensures verdict == StartGate(columns, senderEmail, senderPassword, zip1.Some?, zip2.Some?)
    ensures verdict == Start <==> result.Some?
    ensures result.Some? ==> result.value == Run(loginOk, senderEmail, Pool(zip1, zip2), rows, delivered)
  {
    var pool := BuildPool(zip1, zip2);
    verdict := StartGate(columns, senderEmail, senderPassword, zip1.Some?, zip2.Some?);
    if verdict == Start {
      var run := SendEmails(loginOk, senderEmail, pool, rows, delivered);
      result := Some(run);
    } else {
      result := None;
    }
  }
}
