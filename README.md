# PAN document mailer: a Dafny model of its matching and batch pipeline

`MailAuto.py` is a small page for sending documents by bulk email. An operator
uploads a spreadsheet of recipients (`PAN`, `Name`, `Mail`) and up to two ZIP
archives of PDFs named `<PAN>_<anything>.pdf`. It then sends each recipient one
email with that recipient's documents attached, over one SMTP session. When it
finishes it shows how many rows were sent, skipped and failed.

This project models the logic behind that page, in six modules:

- `Text` (`text.dfy`) has the string operations the script uses:
  `str.strip()`, `split("_")[0]`, `split("/")[-1]` and the case-insensitive
  `.pdf` test.
- `Archive` (`archive.dfy`) models `extract_pdfs_from_zip` and the document
  pool. An archive is given as its listing: entry names and entry bytes, in
  listing order, repeated names included. An absent upload is `None`.
- `Matching` (`matching.dfy`) models the document key and `find_attachments`.
- `Composer` (`composer.dfy`) models the message built for one row. The
  message is a record: sender, recipient, subject, body from `BODY_TEMPLATE`,
  and the list of attachments.
- `Batch` (`batch.dfy`) models the `send_emails` loop and its three counters.
  The login result is an input `loginOk`. The result of composing and sending
  row `i`'s message is an input `delivered(i)`.
- `Gate` (`gate.dfy`) models the start checks (required columns, credentials,
  at least one archive) and the whole pipeline behind the start button.

`Scenarios` (`scenarios.dfy`) proves two concrete runs.

Each loop of the script is a Dafny method with a `while` or `for` loop:
`ExtractPdfs`, `FindAttachments`, the attachment loop in `ComposeMessage`, and
`SendEmails`. Each method is proved equal to a pure specification function:
`PdfDocuments`, `Matches`, `Compose` and `Run`. The lemmas state what the
script promises about those functions.

The script's imports (lines 1-9) are commented out, so the file as written
fails at its first line of code. The model describes the behaviour the script
has with those imports in place.

Each attachment is named by the document's whole basename, so the entry
`ABC123_doc.pdf` is attached as `ABC123_doc.pdf` (`Scenarios.OneMatchOneSkip`).

The bytes of a PDF are read by name (`z.read(file_name)`), and Python's
`zipfile` resolves a name to the last entry recorded under it. So when an
archive lists the same name twice, `namelist()` yields it twice and both reads
return the later entry's bytes. The model reads the same way (`ReadEntry`,
`Archive.RepeatedNameReadsLast`).

## Model

| member | source | states |
|---|---|---|
| `Text.Trim` | MailAuto.py:87 | `str.strip()`: the string without its leading and trailing whitespace; its properties are the lemmas below. |
| `Text.BeforeFirst` | MailAuto.py:87 | `split(c)[0]`: the part of the string before the first `c`, the whole string when there is none; see `Text.BeforeFirstSpec`. |
| `Text.AfterLast` | MailAuto.py:67 | `split("/")[-1]`: the part of the string after the last `/`, the whole string when there is none; see `Text.AfterLastSpec`. |
| `Text.TrimStartSpec` | MailAuto.py:87 | Dropping leading whitespace removes a prefix that is all whitespace. The rest is a suffix of the input, and it is empty or starts with a non-whitespace character. |
| `Text.TrimEndSpec` | MailAuto.py:87 | Dropping trailing whitespace removes a suffix that is all whitespace. The rest is a prefix of the input, and it is empty or ends with a non-whitespace character. |
| `Text.TrimSpec` | MailAuto.py:117 | `strip()` leaves no whitespace at either end, and the result is never longer than the input. |
| `Text.TrimDecompose` | MailAuto.py:117 | Every string is some whitespace, then its stripped form, then some more whitespace. |
| `Text.TrimExact` | MailAuto.py:117 | Any text with no whitespace at its ends, padded with whitespace on both sides, strips back to exactly that text. So `strip()` has only one possible result. |
| `Text.BeforeFirstSpec` | MailAuto.py:87 | `split(c)[0]` is a prefix of the string that contains no `c`. Unless it is the whole string, the next character is `c`. |
| `Text.AfterLastSpec` | MailAuto.py:67 | `split("/")[-1]` is a suffix of the string that contains no `/`. Unless it is the whole string, the character before it is `/`. |
| `Archive.IsPdfName` | MailAuto.py:64 | `file_name.lower().endswith(".pdf")`; characterised by `Archive.PdfNameCases`. |
| `Archive.PdfNameCases` | MailAuto.py:64 | A name passes the `.pdf` test if and only if it ends in `.` followed by `p`/`P`, `d`/`D`, `f`/`F`. |
| `Archive.NameList` | MailAuto.py:63 | `namelist()` has one name per entry, in listing order, repeated names included. |
| `Archive.ReadEntry` | MailAuto.py:65 | `z.read(name)`: the bytes of the last entry recorded under that name. |
| `Archive.ReadEntryLast` | MailAuto.py:65 | Reading the name of entry k returns the bytes of an entry j at or after k with the same name, and no later entry has that name. |
| `Archive.DistinctNamesReadOwnBytes` | MailAuto.py:65 | When no name repeats in an archive, every entry reads back its own bytes. |
| `Archive.ReadEntryAppend` | MailAuto.py:65 | A read from two listings joined is answered by the second listing when it has the name, and by the first otherwise. |
| `Archive.ExtractPdfs` | MailAuto.py:56-71 | An absent archive gives the empty list. Otherwise the loop over the name list, which reads each PDF name, returns exactly `PdfDocuments` of the listing. |
| `Archive.ExtractedAppend` | MailAuto.py:63-69 | Walking two runs of names gives the first run's documents followed by the second run's, so name order is kept. |
| `Archive.ExtractedSameReads` | MailAuto.py:63-69 | Two walks over the same names give the same documents when every name reads the same bytes in both listings. |
| `Archive.ExtractedFrom` | MailAuto.py:63-69 | Every document of a walk is the basename and read bytes of one of the walked PDF names. |
| `Archive.ExtractedHas` | MailAuto.py:63-69 | Every walked PDF name contributes its basename and read bytes to the walk. |
| `Archive.PdfDocumentsSingle` | MailAuto.py:64-69 | A one-entry listing gives one document, named by the entry's basename and holding its bytes, when the entry is a PDF, and nothing otherwise. |
| `Archive.RepeatedNameReadsLast` | MailAuto.py:63-69 | An archive that lists one PDF name twice gives two documents, and both hold the second entry's bytes. |
| `Archive.PdfDocumentsSound` | MailAuto.py:63-69 | Every extracted document comes from some PDF entry k. Its name is that entry's basename and its bytes are entry k's bytes, where k is the last entry carrying that name. |
| `Archive.PdfDocumentsComplete` | MailAuto.py:63-69 | Every PDF entry of the listing yields a document in the result, named by its basename and holding the bytes read for its name. |
| `Archive.BuildPool` | MailAuto.py:74-77 | The pool is the part-1 extraction followed by the part-2 extraction. |
| `Archive.PoolParts` | MailAuto.py:77 | The pool's first part is exactly the part-1 documents and the rest is exactly the part-2 documents. As a multiset, the pool is the sum of the two parts: nothing is dropped or duplicated. |
| `Archive.PoolIsJoinedListing` | MailAuto.py:74-77 | When no name occurs in both archives, the pool equals the extraction of the two listings joined end to end. |
| `Matching.Key` | MailAuto.py:87 | `filename.split("_")[0].strip()`: the stripped part of the name before the first `_`; characterised by `Matching.KeyOfConventionalName` and `Matching.KeyWithoutSeparator`. |
| `Matching.KeyOfConventionalName` | MailAuto.py:87 | For a name of the form `<ws><KEY><ws>_<rest>`, where KEY has no `_` and no whitespace at its ends, the key is exactly KEY. |
| `Matching.KeyWithoutSeparator` | MailAuto.py:87 | A name with no `_` has as its key the whole name, stripped. |
| `Matching.BeforeFirstIs` | MailAuto.py:87 | `split(c)[0]` stops exactly at the first `c`. |
| `Matching.FindAttachments` | MailAuto.py:82-92 | The loop returns exactly `Matches(pool, pan)`: the pool's documents whose key equals `pan`. |
| `Matching.FilterSubsequence` | MailAuto.py:85-90 | Filtering a sequence gives a subsequence of it. |
| `Matching.FilterExact` | MailAuto.py:85-90 | A filter keeps every element that satisfies the test as often as it occurs, and keeps no other element. |
| `Matching.FilterAppend` | MailAuto.py:85-90 | Filtering a concatenation gives the filter of the first part followed by the filter of the second. |
| `Matching.MatchesSubsequence` | MailAuto.py:85-90 | The matches are a subsequence of the pool, so they keep pool order. |
| `Matching.MatchesExact` | MailAuto.py:85-90 | Each document occurs in the matches as often as it occurs in the pool if its key is `pan`, and not at all otherwise. |
| `Matching.MatchesMembership` | MailAuto.py:85-90 | A document is matched if and only if it is in the pool and its key is `pan`. |
| `Matching.MatchesSingle` | MailAuto.py:87-90 | A one-document pool matches exactly when the document's key is `pan`. |
| `Matching.MatchesAppend` | MailAuto.py:74-92 | Matching the joined pool gives the part-1 matches followed by the part-2 matches. |
| `Composer.Body` | MailAuto.py:135 | `BODY_TEMPLATE.format(Name=name, PAN=pan)`; its text is stated by `Composer.BodyText`. |
| `Composer.Compose` | MailAuto.py:130-147 | The message for one row and its matched documents; its fields are stated by `Composer.ComposeFields`. |
| `Composer.BodyText` | MailAuto.py:31-38 | Filling the template gives "Dear <Name>, ... your PAN: <PAN>. ..." with the template's fixed wording. |
| `Composer.AttachmentsOfAt` | MailAuto.py:138-147 | There is one attachment per matched document, in match order. Attachment k has document k's name as its filename and document k's bytes as its payload. |
| `Composer.AttachmentsOfAppend` | MailAuto.py:138-147 | The attachments for two groups of documents are the first group's attachments followed by the second group's. |
| `Composer.ComposeFields` | MailAuto.py:130-147 | The message has From = sender, To = the row's Mail, Subject = "Official Document(s) for " + Name, and the filled template as body. It has one attachment per document, in order, with the document's name and bytes. |
| `Composer.ComposeMessage` | MailAuto.py:130-147 | Setting the headers and attaching the files one by one builds exactly `Compose` of the row and its documents. |
| `Composer.OneDocumentPerArchive` | MailAuto.py:138-147 | If a PAN keys one document in each archive, its message carries both documents, the part-1 document first. |
| `Composer.TwoAttachments` | MailAuto.py:138-147 | Two documents give two attachments, in order, with their names and bytes. |
| `Batch.RowOutcome` | MailAuto.py:121-155 | A row is Skipped when its stripped PAN matches no document, otherwise Sent or Failed by its attempt; characterised row by row in `Batch.RunRowOutcomes`. |
| `Batch.Outcomes` | MailAuto.py:116-158 | The per-row log has exactly one outcome per row. |
| `Batch.SendEmails` | MailAuto.py:98-160 | A failed login returns `LoginFailed` before any row is processed. Otherwise the loop's counters, log and outbox are exactly `Run`. |
| `Batch.StepSpec` | MailAuto.py:116-158 | Processing row i appends one outcome to the log. It is Skipped when the row's stripped PAN matches nothing, else Sent or Failed depending on the attempt. It adds a message to the outbox only when there are matches. |
| `Batch.CountSnoc` | MailAuto.py:124-155 | Logging one outcome adds one to that outcome's counter and leaves the other counters unchanged. |
| `Batch.CountSum` | MailAuto.py:99-101 | Every logged outcome is counted by exactly one of sent, skipped and failed. |
| `Batch.CountMonotone` | MailAuto.py:99-158 | A counter taken over a longer prefix of the log is never smaller. |
| `Batch.OutcomesAt` | MailAuto.py:116-158 | Row i's outcome depends only on row i and the result of its own attempt. |
| `Batch.OutcomesPrefix` | MailAuto.py:116-158 | The log after i rows is the first i entries of the final log, so later rows never change an earlier outcome. |
| `Batch.RowStep` | MailAuto.py:116-158 | Each processed row increments exactly one of sent, skipped and failed, by one. |
| `Batch.CountersNeverDecrease` | MailAuto.py:99-158 | From any row to any later row, no counter decreases. |
| `Batch.RunTotals` | MailAuto.py:114-166 | After a successful login, every row is processed: once the loop ends, sent + skipped + failed equals the number of rows. |
| `Batch.RunRowOutcomes` | MailAuto.py:117-155 | Row i is Skipped if and only if its stripped PAN matches no document. It is Sent if and only if it has matches and the attempt succeeded. It is Failed if and only if it has matches and the attempt failed. |
| `Batch.OutboxCount` | MailAuto.py:121-149 | A message is composed for exactly the rows that are not skipped: the outbox holds sent + failed messages, which is the number of rows minus skipped. |
| `Batch.OutboxAppend` | MailAuto.py:116-149 | The outbox for a batch of rows is the first part's messages followed by the rest's. |
| `Batch.EmptyPoolSkipsAll` | MailAuto.py:121-127 | With no documents every row is skipped: nothing is sent or failed, and no message is composed. |
| `Batch.NoneCounted` | MailAuto.py:99-101 | A log without a given outcome counts zero of it. |
| `Scenarios.OneMatchOneSkip` | MailAuto.py:56-158 | Take one archive holding `ABC123_doc.pdf` and the rows ABC123 and ZZZ999, with the first attempt succeeding. The report is sent 1, skipped 1, failed 0. The one message goes to the first row's address and has the subject and body for that row. It carries one attachment named `ABC123_doc.pdf` with the entry's bytes. |
| `Scenarios.TwoRowsOneDocument` | MailAuto.py:116-158 | Over a one-document pool, a matched and delivered row followed by an unmatched row gives [Sent, Skipped], counters 1/1/0, and one message. |
| `Scenarios.ComposeOne` | MailAuto.py:130-147 | The message for a single document has that document as its only attachment. |
| `Scenarios.PanIsStripped` | MailAuto.py:117 | A PAN cell with no whitespace at its ends is used for matching exactly as it is. |
| `Scenarios.ScenarioPool` | MailAuto.py:63-77 | A top-level `ABC123_doc.pdf` entry is extracted under its own name. |
| `Scenarios.DocumentKey` | MailAuto.py:87 | The key of `ABC123_doc.pdf` is `ABC123`. |
| `Scenarios.LoginFailureProcessesNothing` | MailAuto.py:103-109 | When the login fails, the run ends with no row outcome, whatever the rows and documents are. |
| `Gate.StartGate` | MailAuto.py:176-191 | Sending starts if and only if the columns PAN, Name and Mail are all present, both credentials are non-empty and at least one archive is uploaded. Missing columns are reported first, then credentials, then archives. |
| `Gate.StartSending` | MailAuto.py:172-191 | The batch runs, over the pool of both uploads, if and only if the gate says Start, and its result is then `Run`. |

## Left out

- SMTP connection, STARTTLS, login, `send_message` and `quit` (MailAuto.py:104-106, 149, 160) are network I/O. The login result is the input `loginOk`, and each row's attempt result is the input `delivered(i)`. Closing the session is not modelled. `quit()` at MailAuto.py:160 is outside any `try`, so it can raise, for example after the server has dropped the session partway through the batch. The counters are then never reported (MailAuto.py:162-166). `Completed` is the state after the row loop, not a promise that the summary is shown.
- Exceptions raised while building the MIME message (MailAuto.py:130-147) are caught by the same `except` as send errors. The model folds them into `delivered(i)`: a failed attempt still counts the composed message as handed to the session.
- ZIP decompression and malformed archives (MailAuto.py:62, 65) come from the `zipfile` library. The model takes the decompressed listing as input, so a corrupt archive is not modelled.
- Excel reading and `iterrows` (MailAuto.py:116, 174) come from pandas. All three cells PAN, Name and Mail (MailAuto.py:117-119) are taken as text. So the model does not capture `str(...)` of a non-text PAN. It also does not capture how a non-text Name is rendered into the subject and body: a blank cell, for example, becomes `nan` (MailAuto.py:133, 135). Nor does it capture a non-text Mail being stored into `To` unconverted (MailAuto.py:132).
- MIME parts, content types and base64 encoding (MailAuto.py:139-146) are library code. Only the attachment's filename and payload are kept. The Content-Disposition header is built without quoting the filename (MailAuto.py:145), so a name holding `;` or spaces may not reach the recipient intact; `Attachment.filename` keeps the intended, whole name.
- The page layout, sidebar inputs, uploaders, buttons, progress bar, status lines and final summary output (MailAuto.py:14-51, 111-112, 125-126, 151, 156-158, 162-166) are UI. The progress fraction is floating point. The per-row log is kept as the `outcomes` list instead.
- The `time.sleep(1.5)` throttle after each sent message (MailAuto.py:152) is timing, not logic. The model assumes that this call and the log write at MailAuto.py:151 never raise. Both run after `sent += 1` inside the same `try`, so an exception from either would count the row as both sent and failed. `Batch.RowStep`'s one-counter-per-row promise relies on this assumption.
- The check that the spreadsheet was uploaded at all (MailAuto.py:172) and the button press itself (MailAuto.py:184) are UI events. `StartSending` models the page after both have happened.
- Trim: whitespace is the ASCII set that Python's `str.isspace` accepts (codes 9-13 and 28-32). Unicode whitespace such as U+00A0, which Python's `strip()` also removes, is not modelled.
- IsPdfName: lower-casing covers ASCII letters only. No other character lower-cases to `.`, `p`, `d` or `f`, so the `.pdf` suffix test agrees with Python's Unicode `lower()`.
