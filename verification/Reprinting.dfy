/** Printing a linked document and parsing the text again. */
module Reprinting {
  import opened Bytes
  import opened Nodes
  import opened Xml
  import Edits
  import Machine
  import Membuf
  import Parse
  import Printing
  import Printer
  import RoundTrip
  import TreeBuilder
  import Validity
  import Waiting

  /** The children of a document, as values. */
  ghost function Roots(f: Forest, doc: Node): seq<Tree>
    requires doc in f
  {
    Printer.Values(f, f[doc].tree.kids)
  }

  /** A document has elements as children only. */
  lemma RootsAreElements(f: Forest, doc: Node)
    requires WF(f) && Edits.Proper(f) && doc in f && f[doc].lab.typ == DocumentNode
    ensures forall i | 0 <= i < |Roots(f, doc)| :: Roots(f, doc)[i].Element?
  {
    Ok(f, doc);
    hide WF;
    assert Edits.ProperAt(f, doc);
    forall i | 0 <= i < |Roots(f, doc)| ensures Roots(f, doc)[i].Element? {
      KidTree(f, doc, i);
      assert Edits.Kinds(f, doc, f[doc].kids[i]);
    }
  }

  /**
   The text of a document is parsed to a document that says the same if and only if the first one has at most one
   top-level element, is canonical and valid, and no attribute of it is refused while an element waits for its
   namespace; of a valid one with at most one top-level element, what printing preserves is delivered, unless an
   attribute is refused, which is an error.
   */
  method Reprint(doc: Node, ghost f: Forest)
    returns (err: Option<Machine.Code>, retDoc: Node?, ghost g: Forest)
    requires Holds(f) && Edits.Proper(f) && doc in f && f[doc].lab.typ == DocumentNode
    requires Printer.PlainTrees(f, f[doc].tree.kids) && NoNul(Printing.PrintDocument(Roots(f, doc)))
    ensures var roots := Roots(f, doc);
            err == None && retDoc != null && TreeBuilder.Delivers(g, retDoc, roots) <==>
              |roots| <= 1 && Printing.Canonical(roots) && Validity.Valid(roots) && Waiting.Served(roots)
    ensures var roots := Roots(f, doc);
            |roots| <= 1 && Validity.Valid(roots) ==>
              if Waiting.Served(Printing.Normal(roots)) then
                err == None && retDoc != null && TreeBuilder.Delivers(g, retDoc, Printing.Normal(roots))
              else err == Some(Machine.Failed)
  {
    hide Holds, WF, Rep, Edits.Proper, Printer.PlainTrees, Printing.PrintDocument, NoNul, Roots, Printing.Canonical,
         Validity.Valid, Printing.Normal, Parse.ParseDocument, TreeBuilder.Delivers, Waiting.Served;
    ghost var roots := Roots(f, doc);
    HoldsWF(f);
    RootsAreElements(f, doc);
    RootsAre(f, doc);
    var buf := Printer.DocumentToString(doc, f);
    var text := BufferText(buf);
    PrintedSome(roots);
    err, retDoc, g := TreeBuilder.ParseBuffer(Some(text));
    RoundTrip.PrintParse(roots);
    if Validity.Valid(roots) && |roots| <= 1 {
      RoundTrip.ParsePrinted(roots);
      RoundTrip.ServedRoot(roots);
    }
    DeliversOne(g, retDoc, roots);
  }

  lemma HoldsWF(f: Forest)
    requires Holds(f)
    ensures WF(f)
  {
  }

  lemma RootsAre(f: Forest, doc: Node)
    requires doc in f
    ensures Roots(f, doc) == Printer.Values(f, f[doc].tree.kids)
  {
  }

  method BufferText(buf: Membuf.Buffer) returns (text: bytes)
    requires buf.Valid()
    ensures text == buf.Contents()
  {
    text := if buf.buf == null then [] else buf.buf[..buf.length];
  }

  lemma PrintedSome(roots: seq<Tree>)
    ensures Printing.PrintDocument(roots) != []
    ensures Parse.ParseBuffer(Printing.PrintDocument(roots)) == Parse.ParseDocument(Printing.PrintDocument(roots))
  {
    assert |Printing.HEADER| > 0;
  }

  /** What a document delivers is determined. */
  lemma DeliversOne(g: Forest, doc: Node?, roots: seq<Tree>)
    ensures doc != null && TreeBuilder.Delivers(g, doc, roots) ==>
              forall rs | TreeBuilder.Delivers(g, doc, rs) :: rs == roots
  {
  }
}
