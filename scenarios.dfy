/** Concrete runs of the whole pipeline: one archive, two spreadsheet rows. */
module Scenarios {
  import opened Text
  import opened Archive
  import opened Matching
  import opened Composer
  import opened Batch

  /** The row whose PAN keys the one PDF in the archive is sent that PDF, under
      its basename and with its bytes; the row with an unknown PAN is skipped
      and gets no message. Only the first delivery attempt matters; the rows'
      names and addresses are arbitrary. */
  lemma OneMatchOneSkip(sender: string, data: seq<byte>, alice: string, aliceMail: string,
                        bob: string, bobMail: string, delivered: nat -> bool)
    requires delivered(0)
    ensures var pool := Pool(Some([("ABC123_doc.pdf", data)]), None);
      var rows := [Row("ABC123", alice, aliceMail), Row("ZZZ999", bob, bobMail)];
      Run(true, sender, pool, rows, delivered) ==
        Completed(Report(1, 1, 0, [Sent, Skipped],
          [Message(sender, aliceMail, "Official Document(s) for " + alice, Body(alice, "ABC123"),
                   [Attachment("ABC123_doc.pdf", data)])]))
  {
    var doc := Document("ABC123_doc.pdf", data);
    var first, second := Row("ABC123", alice, aliceMail), Row("ZZZ999", bob, bobMail);
    ScenarioPool(data);
    assert RowPan(first) == "ABC123" by { PanIsStripped("ABC123", alice, aliceMail); }
    assert RowPan(second) == "ZZZ999" by { PanIsStripped("ZZZ999", bob, bobMail); }
    DocumentKey();
    MatchesSingle(doc, "ABC123");
    MatchesSingle(doc, "ZZZ999");
    TwoRowsOneDocument(sender, doc, first, second, delivered);
    ComposeOne(sender, alice, aliceMail, "ABC123", doc);
  }

  lemma ComposeOne(sender: string, name: string, mail: string, pan: string, doc: Document)
    ensures Compose(sender, name, mail, pan, [doc]) ==
            Message(sender, mail, "Official Document(s) for " + name, Body(name, pan),
                    [Attachment(doc.name, doc.data)])
  {
    assert [doc][..0] == [];
    assert AttachmentsOf([doc]) == AttachmentsOf([]) + [Attachment(doc.name, doc.data)];
  }

  /** A PAN cell without surrounding whitespace is used as it is. */
  lemma PanIsStripped(pan: string, name: string, mail: string)
    requires NoEdgeSpace(pan)
    ensures RowPan(Row(pan, name, mail)) == pan
  {
    TrimExact("", pan, "");
    assert "" + pan + "" == pan;
  }

  /** Two rows over a one-document pool, the first matched and delivered, the
      second unmatched: one sent, one skipped, one message. */
  lemma TwoRowsOneDocument(sender: string, doc: Document, first: Row, second: Row, delivered: nat -> bool)
    requires Matches([doc], RowPan(first)) == [doc] && Matches([doc], RowPan(second)) == []
    requires delivered(0)
    ensures Run(true, sender, [doc], [first, second], delivered) ==
      Completed(Report(1, 1, 0, [Sent, Skipped],
        [Compose(sender, first.name, first.mail, RowPan(first), [doc])]))
  {
    var rows := [first, second];
    var msg := Compose(sender, first.name, first.mail, RowPan(first), [doc]);
    StepSpec(sender, [doc], rows, delivered, 0);
    StepSpec(sender, [doc], rows, delivered, 1);
    assert rows[..2] == rows;
    assert rows[..0] == [];
    assert Outcomes([doc], rows[..1], delivered) == [Sent];
    assert Outcomes([doc], rows, delivered) == [Sent, Skipped];
    assert Outbox(sender, [doc], rows[..1]) == [msg];
    assert Outbox(sender, [doc], rows) == [msg];
    var os := [Sent, Skipped];
    assert os[..1] == [Sent] && os[..1][..0] == [];
    assert Count(os, Sent) == 1 && Count(os, Skipped) == 1 && Count(os, Failed) == 0;
  }

  /** The archive holds one PDF at its top level, kept under its own name. */
  lemma ScenarioPool(data: seq<byte>)
    ensures Pool(Some([("ABC123_doc.pdf", data)]), None) == [Document("ABC123_doc.pdf", data)]
  {
    var entry: Entry := ("ABC123_doc.pdf", data);
    assert IsPdfName(entry.0) by { PdfNameCases(entry.0); }
    assert AfterLast(entry.0, '/') == entry.0 by { AfterLastSpec(entry.0, '/'); }
    PdfDocumentsSingle(entry);
    assert PdfDocuments(Listing(None)) == [];
  }

  lemma DocumentKey()
    ensures Key("ABC123_doc.pdf") == "ABC123"
  {
    KeyOfConventionalName("", "ABC123", "", "doc.pdf");
    assert "" + "ABC123" + "" + "_" + "doc.pdf" == "ABC123_doc.pdf";
  }

  /** When the login fails, the run ends with no row outcome at all, whatever
      the rows and documents. */
  lemma LoginFailureProcessesNothing(sender: string, pool: seq<Document>, rows: seq<Row>, delivered: nat -> bool)
    ensures Run(false, sender, pool, rows, delivered) == LoginFailed
  {
  }
}
