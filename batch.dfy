/** The batch loop of `send_emails`: one SMTP session, then every spreadsheet
    row in order is skipped (no documents), sent, or failed, and three counters
    record the outcomes. The login and each delivery attempt are network I/O;
    their results are inputs here. */
module Batch {
  import opened Text
  import opened Archive
  import opened Matching
  import opened Composer

  /** One spreadsheet row: the `PAN`, `Name` and `Mail` cells as text. */
  datatype Row = Row(pan: string, name: string, mail: string)

  datatype Outcome = Sent | Skipped | Failed

  /** The counters printed at the end, with the per-row status log and the
      messages handed to the SMTP session, in row order. */
  datatype Report = Report(
    sent: nat,
    skipped: nat,
    failed: nat,
    outcomes: seq<Outcome>,
    outbox: seq<Message>)

  /** `send_emails` either stops at a failed login, with nothing processed and
      no report, or processes every row; `Completed` is the state after the row
      loop, before the session is closed. */
  datatype RunResult = LoginFailed | Completed(report: Report)

  /** The row's PAN as used for matching and in the body: stripped. */
  function RowPan(row: Row): string {
    Trim(row.pan)
  }

  /** The documents a row is sent, in pool order. */
  function RowFiles(pool: seq<Document>, row: Row): seq<Document> {
    Matches(pool, RowPan(row))
  }

  /** A row with no documents is skipped; otherwise the attempt's result
      decides between sent and failed. */
  function RowOutcome(pool: seq<Document>, row: Row, delivered: bool): Outcome {
    if |RowFiles(pool, row)| == 0 then Skipped
    else if delivered then Sent
    else Failed
  }

  /** The message composed for a row that has documents. */
  function RowMessage(sender: string, pool: seq<Document>, row: Row): Message {
    Compose(sender, row.name, row.mail, RowPan(row), RowFiles(pool, row))
  }

  /** The outcome of every row; `delivered(i)` says whether composing and
      sending the message of row `i` succeeded. */
  function Outcomes(pool: seq<Document>, rows: seq<Row>, delivered: nat -> bool): (os: seq<Outcome>)
    ensures |os| == |rows|
  {
    if |rows| == 0 then []
    else
      var i := |rows| - 1;
      Outcomes(pool, rows[..i], delivered) + [RowOutcome(pool, rows[i], delivered(i))]
  }

  /** The messages handed to the session: one per row that has documents. */
  function Outbox(sender: string, pool: seq<Document>, rows: seq<Row>): seq<Message> {
    if |rows| == 0 then []
    else
      var row := rows[|rows| - 1];
      Outbox(sender, pool, rows[..|rows| - 1]) +
        (if |RowFiles(pool, row)| == 0 then [] else [RowMessage(sender, pool, row)])
  }

  /** How many of `os` are `o`. */
  function Count(os: seq<Outcome>, o: Outcome): nat {
    if |os| == 0 then 0
    else Count(os[..|os| - 1], o) + (if os[|os| - 1] == o then 1 else 0)
  }

  /** The whole run of `send_emails`. */
  function Run(loginOk: bool, sender: string, pool: seq<Document>, rows: seq<Row>,
               delivered: nat -> bool): RunResult {
    if !loginOk then LoginFailed
    else
      var os := Outcomes(pool, rows, delivered);
      Completed(Report(Count(os, Sent), Count(os, Skipped), Count(os, Failed), os,
                       Outbox(sender, pool, rows)))
  }

  /** `send_emails`: log in, then run the row loop with its three counters. A
      skipped row `continue`s before anything is composed. */
  method SendEmails(loginOk: bool, sender: string, pool: seq<Document>, rows: seq<Row>,
                    delivered: nat -> bool) returns (result: RunResult)
    ensures result == Run(loginOk, sender, pool, rows, delivered)
    ensures result.LoginFailed? <==> !loginOk
  {
    if !loginOk {
      return LoginFailed;
    }
    var sent, skipped, failed := 0, 0, 0;
    var outcomes: seq<Outcome> := [];
    var outbox: seq<Message> := [];
    var i := 0;
    while i < |rows|
      invariant 0 <= i <= |rows|
      invariant outcomes == Outcomes(pool, rows[..i], delivered)
      invariant outbox == Outbox(sender, pool, rows[..i])
      invariant sent == Count(outcomes, Sent)
      invariant skipped == Count(outcomes, Skipped)
      invariant failed == Count(outcomes, Failed)
    {
      var row := rows[i];
      var pan := Trim(row.pan);
      var filesFound := FindAttachments(pool, pan);
      StepSpec(sender, pool, rows, delivered, i);
      if |filesFound| == 0 {
        skipped := skipped + 1;
        CountSnoc(outcomes, Skipped);
        outcomes := outcomes + [Skipped];
        i := i + 1;
        continue;
      }
      var msg := ComposeMessage(sender, row.name, row.mail, pan, filesFound);
      outbox := outbox + [msg];
      if delivered(i) {
        sent := sent + 1;
        CountSnoc(outcomes, Sent);
        outcomes := outcomes + [Sent];
      } else {
        failed := failed + 1;
        CountSnoc(outcomes, Failed);
        outcomes := outcomes + [Failed];
      }
      i := i + 1;
    }
    assert rows[..|rows|] == rows;
    result := Completed(Report(sent, skipped, failed, outcomes, outbox));
  }

  /** What processing row `i` adds to the log and to the outbox. */
  lemma StepSpec(sender: string, pool: seq<Document>, rows: seq<Row>, delivered: nat -> bool, i: nat)
    requires i < |rows|
    ensures var files := Matches(pool, Trim(rows[i].pan));
      Outcomes(pool, rows[..i + 1], delivered) ==
        Outcomes(pool, rows[..i], delivered) +
        [if |files| == 0 then Skipped else if delivered(i) then Sent else Failed] &&
      Outbox(sender, pool, rows[..i + 1]) ==
        Outbox(sender, pool, rows[..i]) +
        (if |files| == 0 then [] else [Compose(sender, rows[i].name, rows[i].mail, Trim(rows[i].pan), files)])
  {
    assert rows[..i + 1][..i] == rows[..i] && rows[..i + 1][i] == rows[i];
  }

  /** Appending one outcome adds one to its own counter and leaves the others. */
  lemma CountSnoc(os: seq<Outcome>, x: Outcome)
    ensures forall o :: Count(os + [x], o) == Count(os, o) + (if x == o then 1 else 0)
  {
    assert (os + [x])[..|os|] == os;
  }

  /** Every outcome is counted by exactly one of the three counters. */
  lemma {:induction false} CountSum(os: seq<Outcome>)
    ensures Count(os, Sent) + Count(os, Skipped) + Count(os, Failed) == |os|
  {
    if |os| > 0 {
      CountSum(os[..|os| - 1]);
    }
  }

  /** A counter taken over a longer prefix of the log is never smaller. */
  lemma {:induction false} CountMonotone(os: seq<Outcome>, i: nat, j: nat, o: Outcome)
    requires i <= j <= |os|
    ensures Count(os[..i], o) <= Count(os[..j], o)
    decreases j - i
  {
    if i < j {
      CountMonotone(os, i, j - 1, o);
      assert os[..j][..j - 1] == os[..j - 1];
    }
  }

  /** The log has one outcome per row, and row `i`'s outcome depends only on
      that row and the result of its own delivery attempt. */
  lemma {:induction false} OutcomesAt(pool: seq<Document>, rows: seq<Row>, delivered: nat -> bool)
    ensures forall i :: 0 <= i < |rows| ==>
      Outcomes(pool, rows, delivered)[i] == RowOutcome(pool, rows[i], delivered(i))
  {
    if |rows| > 0 {
      var init := rows[..|rows| - 1];
      OutcomesAt(pool, init, delivered);
      forall i | 0 <= i < |rows| - 1
        ensures Outcomes(pool, rows, delivered)[i] == RowOutcome(pool, rows[i], delivered(i))
      {
        assert rows[i] == init[i];
      }
    }
  }

  /** Processing the first `i` rows logs the first `i` outcomes of the whole run:
      later rows never change an outcome already recorded. */
  lemma {:induction false} OutcomesPrefix(pool: seq<Document>, rows: seq<Row>, delivered: nat -> bool, i: nat)
    requires i <= |rows|
    ensures Outcomes(pool, rows[..i], delivered) == Outcomes(pool, rows, delivered)[..i]
    decreases |rows| - i
  {
    if i < |rows| {
      var os := Outcomes(pool, rows, delivered);
      OutcomesPrefix(pool, rows, delivered, i + 1);
      assert rows[..i + 1][..i] == rows[..i];
      assert os[..i + 1][..i] == os[..i];
    } else {
      assert rows[..i] == rows;
    }
  }

  /** After row `i`, exactly one of the three counters has grown, by one, and
      none has shrunk. */
  lemma RowStep(pool: seq<Document>, rows: seq<Row>, delivered: nat -> bool, i: nat)
    requires i < |rows|
    ensures var before, after := Outcomes(pool, rows[..i], delivered), Outcomes(pool, rows[..i + 1], delivered);
      forall o :: Count(after, o) == Count(before, o) + (if o == RowOutcome(pool, rows[i], delivered(i)) then 1 else 0)
  {
    assert rows[..i + 1][..i] == rows[..i];
    CountSnoc(Outcomes(pool, rows[..i], delivered), RowOutcome(pool, rows[i], delivered(i)));
  }

  /** The counters never decrease as rows are processed. */
  lemma CountersNeverDecrease(pool: seq<Document>, rows: seq<Row>, delivered: nat -> bool, i: nat, j: nat, o: Outcome)
    requires i <= j <= |rows|
    ensures Count(Outcomes(pool, rows[..i], delivered), o) <= Count(Outcomes(pool, rows[..j], delivered), o)
  {
    OutcomesPrefix(pool, rows, delivered, i);
    OutcomesPrefix(pool, rows, delivered, j);
    OutcomesAt(pool, rows, delivered);
    CountMonotone(Outcomes(pool, rows, delivered), i, j, o);
  }

  /** A run that logs in accounts for every row: sent + skipped + failed is the
      number of rows. */
  lemma RunTotals(loginOk: bool, sender: string, pool: seq<Document>, rows: seq<Row>, delivered: nat -> bool)
    requires loginOk
    ensures var r := Run(loginOk, sender, pool, rows, delivered);
      r.Completed? && r.report.sent + r.report.skipped + r.report.failed == |rows| &&
      |r.report.outcomes| == |rows|
  {
    OutcomesAt(pool, rows, delivered);
    CountSum(Outcomes(pool, rows, delivered));
  }

  /** Row by row: skipped exactly when no document has the row's stripped PAN,
      sent exactly when some does and the attempt succeeded, and failed exactly
      when some does and the attempt failed. */
  lemma RunRowOutcomes(sender: string, pool: seq<Document>, rows: seq<Row>, delivered: nat -> bool, i: nat)
    requires i < |rows|
    ensures var os := Run(true, sender, pool, rows, delivered).report.outcomes;
      i < |os| &&
      (os[i] == Skipped <==> Matches(pool, Trim(rows[i].pan)) == []) &&
      (os[i] == Sent <==> Matches(pool, Trim(rows[i].pan)) != [] && delivered(i)) &&
      (os[i] == Failed <==> Matches(pool, Trim(rows[i].pan)) != [] && !delivered(i))
  {
    OutcomesAt(pool, rows, delivered);
  }

  /** A message is composed and handed to the session for exactly the rows that
      are not skipped. */
  lemma {:induction false} OutboxCount(sender: string, pool: seq<Document>, rows: seq<Row>, delivered: nat -> bool)
    ensures var os := Outcomes(pool, rows, delivered);
      |Outbox(sender, pool, rows)| == Count(os, Sent) + Count(os, Failed) == |rows| - Count(os, Skipped)
  {
    var os := Outcomes(pool, rows, delivered);
    if |rows| > 0 {
      OutboxCount(sender, pool, rows[..|rows| - 1], delivered);
    }
    OutcomesAt(pool, rows, delivered);
    CountSum(os);
  }

  /** The outbox of a batch is the outbox of its first rows followed by that of
      the rest. */
  lemma {:induction false} OutboxAppend(sender: string, pool: seq<Document>, a: seq<Row>, b: seq<Row>)
    ensures Outbox(sender, pool, a + b) == Outbox(sender, pool, a) + Outbox(sender, pool, b)
  {
    if |b| == 0 {
      assert a + b == a;
    } else {
      var b' := b[..|b| - 1];
      assert (a + b)[..|a + b| - 1] == a + b';
      OutboxAppend(sender, pool, a, b');
    }
  }

  /** With no documents at all, every row is skipped and nothing is sent. */
  lemma EmptyPoolSkipsAll(sender: string, rows: seq<Row>, delivered: nat -> bool)
    ensures var r := Run(true, sender, [], rows, delivered).report;
      r.sent == 0 && r.failed == 0 && r.skipped == |rows| && r.outbox == []
  {
    var os := Outcomes([], rows, delivered);
    OutcomesAt([], rows, delivered);
    NoneCounted(os, Sent);
    NoneCounted(os, Failed);
    OutboxCount(sender, [], rows, delivered);
    CountSum(os);
  }

  lemma {:induction false} NoneCounted(os: seq<Outcome>, o: Outcome)
    requires forall k :: 0 <= k < |os| ==> os[k] != o
    ensures Count(os, o) == 0
  {
    if |os| > 0 {
      NoneCounted(os[..|os| - 1], o);
    }
  }
}
