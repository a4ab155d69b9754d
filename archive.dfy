/** PDF selection from an archive listing (`extract_pdfs_from_zip`) and the
    document pool built from the two uploaded archives. An archive is modelled by
    its listing: the entry names with their (already decompressed) bytes, in
    listing order. */
module Archive {
  import opened Text

  newtype byte = x: int | 0 <= x < 256

  /** One archive entry: its full name inside the archive and its bytes. */
  type Entry = (string, seq<byte>)

  /** An upload that may be absent. */
  datatype Option<T> = None | Some(value: T)

  /** An extracted document: the entry's basename and its bytes. */
  datatype Document = Document(name: string, data: seq<byte>)

  /** The entry name, lower-cased, ends with ".pdf". */
  predicate IsPdfName(name: string) {
    EndsWith(Lower(name), ".pdf")
  }

  /** The extension test is case-insensitive in each letter and nothing else. */
  lemma PdfNameCases(name: string)
    ensures IsPdfName(name) <==>
      |name| >= 4 && name[|name| - 4] == '.' &&
      (name[|name| - 3] == 'p' || name[|name| - 3] == 'P') &&
      (name[|name| - 2] == 'd' || name[|name| - 2] == 'D') &&
      (name[|name| - 1] == 'f' || name[|name| - 1] == 'F')
  {
    if |name| >= 4 {
      var l := Lower(name);
      var n := |name|;
      assert l[n - 4..] == [l[n - 4], l[n - 3], l[n - 2], l[n - 1]];
    }
  }

  /** `namelist()`: every entry's name, in listing order, repeated names included. */
  function NameList(listing: seq<Entry>): (names: seq<string>)
    ensures |names| == |listing|
    ensures forall i :: 0 <= i < |listing| ==> names[i] == listing[i].0
  {
    if |listing| == 0 then []
    else NameList(listing[..|listing| - 1]) + [listing[|listing| - 1].0]
  }

  /** `read(name)`: the bytes of the LAST entry carrying that name, since the
      archive's name index keeps the last record written for each name. A name
      that is not listed reads as empty; the extraction never asks for one. */
  function ReadEntry(listing: seq<Entry>, name: string): seq<byte> {
    if |listing| == 0 then []
    else if listing[|listing| - 1].0 == name then listing[|listing| - 1].1
    else ReadEntry(listing[..|listing| - 1], name)
  }

  /** Reading a listed name yields the bytes of the last entry with that name. */
  lemma {:induction false} ReadEntryLast(listing: seq<Entry>, k: nat) returns (j: nat)
    requires k < |listing|
    ensures k <= j < |listing| && listing[j].0 == listing[k].0
    ensures ReadEntry(listing, listing[k].0) == listing[j].1
    ensures forall i :: j < i < |listing| ==> listing[i].0 != listing[k].0
  {
    var n := |listing| - 1;
    if listing[n].0 == listing[k].0 {
      j := n;
    } else {
      var init := listing[..n];
      assert init[k] == listing[k];
      j := ReadEntryLast(init, k);
    }
  }

  /** When no name repeats, every entry reads back its own bytes. */
  lemma DistinctNamesReadOwnBytes(listing: seq<Entry>, k: nat)
    requires k < |listing|
    requires forall i, j :: 0 <= i < j < |listing| ==> listing[i].0 != listing[j].0
    ensures ReadEntry(listing, listing[k].0) == listing[k].1
  {
    var j := ReadEntryLast(listing, k);
  }

  /** A read from a joined listing is answered by the second part whenever it
      lists the name, and by the first part otherwise. */
  lemma {:induction false} ReadEntryAppend(a: seq<Entry>, b: seq<Entry>, name: string)
    ensures ReadEntry(a + b, name) == if name in NameList(b) then ReadEntry(b, name) else ReadEntry(a, name)
  {
    if |b| == 0 {
      assert a + b == a;
    } else {
      var b' := b[..|b| - 1];
      assert (a + b)[..|a + b| - 1] == a + b';
      assert NameList(b) == NameList(b') + [b[|b| - 1].0];
      ReadEntryAppend(a, b', name);
    }
  }

  /** The documents extracted while walking `names`, reading each PDF name's
      bytes from `listing`; recursion from the back follows the loop. */
  function Extracted(listing: seq<Entry>, names: seq<string>): seq<Document> {
    if |names| == 0 then []
    else
      var name := names[|names| - 1];
      Extracted(listing, names[..|names| - 1]) +
        (if IsPdfName(name) then [Document(AfterLast(name, '/'), ReadEntry(listing, name))] else [])
  }

  /** The documents extracted from a listing, in listing order. */
  function PdfDocuments(entries: seq<Entry>): seq<Document> {
    Extracted(entries, NameList(entries))
  }

  /** The listing of an upload; an absent upload lists nothing. */
  function Listing(archive: Option<seq<Entry>>): seq<Entry> {
    match archive
    case None => []
    case Some(entries) => entries
  }

  /** `extract_pdfs_from_zip`: the loop over the name list that reads every PDF
      name and appends one document for it. */
  method ExtractPdfs(archive: Option<seq<Entry>>) returns (docs: seq<Document>)
    ensures archive.None? ==> docs == []
    ensures docs == PdfDocuments(Listing(archive))
  {
    docs := [];
    if archive.None? {
      return;
    }
    var entries := archive.value;
    var names := NameList(entries);
    for i := 0 to |names|
      invariant docs == Extracted(entries, names[..i])
    {
      var fileName := names[i];
      if IsPdfName(fileName) {
        var fileData := ReadEntry(entries, fileName);
        docs := docs + [Document(AfterLast(fileName, '/'), fileData)];
      }
      assert names[..i + 1][..i] == names[..i];
    }
    assert names[..|names|] == names;
  }

  /** The walk keeps name order: walking two runs of names gives the first
      run's documents followed by the second run's. */
  lemma {:induction false} ExtractedAppend(listing: seq<Entry>, a: seq<string>, b: seq<string>)
    ensures Extracted(listing, a + b) == Extracted(listing, a) + Extracted(listing, b)
  {
    if |b| == 0 {
      assert a + b == a;
    } else {
      var b' := b[..|b| - 1];
      assert (a + b)[..|a + b| - 1] == a + b';
      ExtractedAppend(listing, a, b');
    }
  }

  /** Two walks over the same names agree when every name reads the same. */
  lemma {:induction false} ExtractedSameReads(l1: seq<Entry>, l2: seq<Entry>, names: seq<string>)
    requires forall n :: n in names ==> ReadEntry(l1, n) == ReadEntry(l2, n)
    ensures Extracted(l1, names) == Extracted(l2, names)
  {
    if |names| > 0 {
      ExtractedSameReads(l1, l2, names[..|names| - 1]);
    }
  }

  /** A one-entry listing gives one document when the entry is a PDF and none
      otherwise. */
  lemma PdfDocumentsSingle(e: Entry)
    ensures PdfDocuments([e]) == if IsPdfName(e.0) then [Document(AfterLast(e.0, '/'), e.1)] else []
  {
    assert [e][..0] == [];
    assert NameList([e]) == [e.0];
    assert ReadEntry([e], e.0) == e.1;
    var names := [e.0];
    assert names[..0] == [];
    assert Extracted([e], names) == Extracted([e], []) +
      (if IsPdfName(e.0) then [Document(AfterLast(e.0, '/'), e.1)] else []);
  }

  /** A name listed twice is read twice from its last entry: both documents
      hold the second entry's bytes. */
  lemma RepeatedNameReadsLast(name: string, first: seq<byte>, second: seq<byte>)
    requires IsPdfName(name)
    ensures var d := Document(AfterLast(name, '/'), second);
            PdfDocuments([(name, first), (name, second)]) == [d, d]
  {
    var listing: seq<Entry> := [(name, first), (name, second)];
    assert listing[..1] == [(name, first)];
    assert NameList(listing) == [name, name];
    assert ReadEntry(listing, name) == second;
    var names := [name, name];
    assert names[..1] == [name] && names[..1][..0] == [];
    assert Extracted(listing, names[..1]) == [Document(AfterLast(name, '/'), second)];
  }

  /** Every extracted document is named by the basename of some PDF entry k and
      holds the bytes of entry k, the last entry carrying that name. */
  lemma PdfDocumentsSound(entries: seq<Entry>)
    ensures forall d :: d in PdfDocuments(entries) ==>
      exists k :: 0 <= k < |entries| && IsPdfName(entries[k].0) &&
                  d.name == AfterLast(entries[k].0, '/') && d.data == entries[k].1 &&
                  forall i :: k < i < |entries| ==> entries[i].0 != entries[k].0
  {
    var names := NameList(entries);
    forall d | d in PdfDocuments(entries)
      ensures exists k :: 0 <= k < |entries| && IsPdfName(entries[k].0) &&
                          d.name == AfterLast(entries[k].0, '/') && d.data == entries[k].1 &&
                          forall i :: k < i < |entries| ==> entries[i].0 != entries[k].0
    {
      var m := ExtractedFrom(entries, names, d);
      var j := ReadEntryLast(entries, m);
    }
  }

  /** A document of a walk comes from one of the walked PDF names. */
  lemma {:induction false} ExtractedFrom(listing: seq<Entry>, names: seq<string>, d: Document) returns (m: nat)
    requires d in Extracted(listing, names)
    ensures m < |names| && IsPdfName(names[m])
    ensures d == Document(AfterLast(names[m], '/'), ReadEntry(listing, names[m]))
  {
    var init := names[..|names| - 1];
    if d in Extracted(listing, init) {
      m := ExtractedFrom(listing, init, d);
    } else {
      m := |names| - 1;
    }
  }

  /** Every PDF entry of the listing is extracted, none is dropped. */
  lemma PdfDocumentsComplete(entries: seq<Entry>)
    ensures forall k :: 0 <= k < |entries| && IsPdfName(entries[k].0) ==>
      Document(AfterLast(entries[k].0, '/'), ReadEntry(entries, entries[k].0)) in PdfDocuments(entries)
  {
    forall k | 0 <= k < |entries| && IsPdfName(entries[k].0)
      ensures Document(AfterLast(entries[k].0, '/'), ReadEntry(entries, entries[k].0)) in PdfDocuments(entries)
    {
      ExtractedHas(entries, NameList(entries), k);
    }
  }

  /** A walked PDF name contributes its document to the walk. */
  lemma {:induction false} ExtractedHas(listing: seq<Entry>, names: seq<string>, k: nat)
    requires k < |names| && IsPdfName(names[k])
    ensures Document(AfterLast(names[k], '/'), ReadEntry(listing, names[k])) in Extracted(listing, names)
  {
    var init := names[..|names| - 1];
    if k < |init| {
      ExtractedHas(listing, init, k);
      assert init[k] == names[k];
    }
  }

  /** The document pool: the documents of part 1 followed by those of part 2. */
  function Pool(zip1: Option<seq<Entry>>, zip2: Option<seq<Entry>>): seq<Document> {
    PdfDocuments(Listing(zip1)) + PdfDocuments(Listing(zip2))
  }

  /** The two extractions and their concatenation into the pool. */
  method BuildPool(zip1: Option<seq<Entry>>, zip2: Option<seq<Entry>>) returns (pool: seq<Document>)
    ensures pool == Pool(zip1, zip2)
  {
    var folder1 := ExtractPdfs(zip1);
    var folder2 := ExtractPdfs(zip2);
    pool := folder1 + folder2;
  }

  /** The pool keeps each part's order and drops or duplicates nothing. */
  lemma PoolParts(zip1: Option<seq<Entry>>, zip2: Option<seq<Entry>>)
    ensures var part1, part2, pool := PdfDocuments(Listing(zip1)), PdfDocuments(Listing(zip2)), Pool(zip1, zip2);
            |pool| == |part1| + |part2| &&
            pool[..|part1|] == part1 && pool[|part1|..] == part2 &&
            multiset(pool) == multiset(part1) + multiset(part2)
  {
  }

  /** When no name occurs in both archives, the pool is what extraction gives
      for the two listings joined end to end. */
  lemma PoolIsJoinedListing(zip1: Option<seq<Entry>>, zip2: Option<seq<Entry>>)
    requires forall n :: n in NameList(Listing(zip1)) ==> n !in NameList(Listing(zip2))
    ensures Pool(zip1, zip2) == PdfDocuments(Listing(zip1) + Listing(zip2))
  {
    var a, b := Listing(zip1), Listing(zip2);
    assert NameList(a + b) == NameList(a) + NameList(b);
    ExtractedAppend(a + b, NameList(a), NameList(b));
    forall n | n in NameList(a)
      ensures ReadEntry(a, n) == ReadEntry(a + b, n)
    {
      ReadEntryAppend(a, b, n);
    }
    ExtractedSameReads(a, a + b, NameList(a));
    forall n | n in NameList(b)
      ensures ReadEntry(b, n) == ReadEntry(a + b, n)
    {
      ReadEntryAppend(a, b, n);
    }
    ExtractedSameReads(b, a + b, NameList(b));
  }
}
