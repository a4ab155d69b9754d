/** Composition of the message for one matched row (`send_emails`, the body of
    its `try` block): headers, a body rendered from the template, and one
    attachment per matched document. MIME structure and base64 encoding are
    abstracted to a list of named attachments. */
module Composer {
  import opened Archive
  import opened Matching

  /** A piece of a `str.format` template: literal text or a named field. */
  datatype Segment = Literal(text: string) | NameField | PanField

  /** `BODY_TEMPLATE`, with its `{Name}` and `{PAN}` fields. */
  const BodyTemplate: seq<Segment> := [
    Literal("Dear "), NameField,
    Literal(",\n\nPlease find attached the document(s) corresponding to your PAN: "), PanField,
    Literal(".\nIf you have any questions, please reply to this email.\n\nBest Regards,\nAccount Team\n")
  ]

  /** `template.format(Name=name, PAN=pan)`. */
  function Render(template: seq<Segment>, name: string, pan: string): string {
    if |template| == 0 then ""
    else
      var piece := match template[0]
        case Literal(text) => text
        case NameField => name
        case PanField => pan;
      piece + Render(template[1..], name, pan)
  }

  /** A body: the recipient is greeted by name and told the PAN the documents
      belong to, in the template's fixed wording. */
  function Body(name: string, pan: string): string {
    Render(BodyTemplate, name, pan)
  }

  lemma BodyText(name: string, pan: string)
    ensures Body(name, pan) ==
      "Dear " + name +
      ",\n\nPlease find attached the document(s) corresponding to your PAN: " + pan +
      ".\nIf you have any questions, please reply to this email.\n\nBest Regards,\nAccount Team\n"
  {
    var t := BodyTemplate;
    assert Render(t[4..], name, pan) == t[4].text + Render(t[5..], name, pan);
    assert Render(t[3..], name, pan) == pan + Render(t[4..], name, pan);
    assert Render(t[2..], name, pan) == t[2].text + Render(t[3..], name, pan);
    assert Render(t[1..], name, pan) == name + Render(t[2..], name, pan);
    assert Render(t, name, pan) == t[0].text + Render(t[1..], name, pan);
  }

  /** One attachment: the filename in its Content-Disposition header and its
      payload. */
  datatype Attachment = Attachment(filename: string, data: seq<byte>)

  datatype Message = Message(
    sender: string,
    recipient: string,
    subject: string,
    body: string,
    attachments: seq<Attachment>)

  const SubjectPrefix := "Official Document(s) for "

  /** One attachment per document, in the documents' order. */
  function AttachmentsOf(files: seq<Document>): seq<Attachment> {
    if |files| == 0 then []
    else AttachmentsOf(files[..|files| - 1]) + [Attachment(files[|files| - 1].name, files[|files| - 1].data)]
  }

  lemma {:induction false} AttachmentsOfAt(files: seq<Document>)
    ensures |AttachmentsOf(files)| == |files|
    ensures forall k :: 0 <= k < |files| ==>
      AttachmentsOf(files)[k].filename == files[k].name && AttachmentsOf(files)[k].data == files[k].data
  {
    if |files| > 0 {
      var init := files[..|files| - 1];
      AttachmentsOfAt(init);
      forall k | 0 <= k < |files| - 1
        ensures AttachmentsOf(files)[k] == Attachment(files[k].name, files[k].data)
      {
        assert files[k] == init[k];
      }
    }
  }

  lemma {:induction false} AttachmentsOfAppend(a: seq<Document>, b: seq<Document>)
    ensures AttachmentsOf(a + b) == AttachmentsOf(a) + AttachmentsOf(b)
  {
    if |b| == 0 {
      assert a + b == a;
    } else {
      var b' := b[..|b| - 1];
      assert (a + b)[..|a + b| - 1] == a + b';
      AttachmentsOfAppend(a, b');
    }
  }

  /** The message sent to a row's address for its matched documents. */
  function Compose(sender: string, name: string, mail: string, pan: string, files: seq<Document>): Message {
    Message(sender, mail, SubjectPrefix + name, Body(name, pan), AttachmentsOf(files))
  }

  /** What a composed message holds, field by field. */
  lemma ComposeFields(sender: string, name: string, mail: string, pan: string, files: seq<Document>)
    ensures var m := Compose(sender, name, mail, pan, files);
      m.sender == sender && m.recipient == mail &&
      m.subject == "Official Document(s) for " + name &&
      m.body == "Dear " + name +
        ",\n\nPlease find attached the document(s) corresponding to your PAN: " + pan +
        ".\nIf you have any questions, please reply to this email.\n\nBest Regards,\nAccount Team\n" &&
      |m.attachments| == |files| &&
      forall k :: 0 <= k < |files| ==>
        m.attachments[k].filename == files[k].name && m.attachments[k].data == files[k].data
  {
    BodyText(name, pan);
    AttachmentsOfAt(files);
  }

  /** The composition step of `send_emails`: set the headers, attach the
      rendered body, then attach the documents one by one. */
  method ComposeMessage(sender: string, name: string, mail: string, pan: string, files: seq<Document>)
    returns (msg: Message)
    ensures msg == Compose(sender, name, mail, pan, files)
  {
    var attachments: seq<Attachment> := [];
    for i := 0 to |files|
      invariant attachments == AttachmentsOf(files[..i])
    {
      attachments := attachments + [Attachment(files[i].name, files[i].data)];
      assert files[..i + 1][..i] == files[..i];
    }
    assert files[..|files|] == files;
    msg := Message(sender, mail, SubjectPrefix + name, Render(BodyTemplate, name, pan), attachments);
  }

  /** A row whose PAN keys one document in each uploaded archive gets one
      message carrying both, the part-1 document first. */
  lemma OneDocumentPerArchive(sender: string, name: string, mail: string, pan: string,
                              part1: seq<Document>, part2: seq<Document>, d1: Document, d2: Document)
    requires Matches(part1, pan) == [d1] && Matches(part2, pan) == [d2]
    ensures Compose(sender, name, mail, pan, Matches(part1 + part2, pan)).attachments ==
            [Attachment(d1.name, d1.data), Attachment(d2.name, d2.data)]
  {
    MatchesAppend(part1, part2, pan);
    TwoAttachments(d1, d2);
  }

  lemma TwoAttachments(d1: Document, d2: Document)
    ensures AttachmentsOf([d1] + [d2]) == [Attachment(d1.name, d1.data), Attachment(d2.name, d2.data)]
  {
    var files := [d1] + [d2];
    assert files[..1] == [d1] && [d1][..0] == [];
    assert AttachmentsOf([d1]) == [Attachment(d1.name, d1.data)];
    assert AttachmentsOf(files) == AttachmentsOf([d1]) + [Attachment(d2.name, d2.data)];
  }
}
