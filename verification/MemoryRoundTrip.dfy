/** Printing a tree and parsing what was printed, or any JSON text, through
    buffers and nodes. */
module MemoryRoundTrip {
  import opened Bytes
  import opened JsonValues
  import opened Printer
  import opened RoundTrip
  import opened Minifier
  import opened MinifyPrinted
  import opened Memory
  import opened Nodes
  import opened NodeMeaning
  import opened Deletion
  import opened TreePrinter
  import opened NodePrinter
  import opened ParsedTrees
  import opened NodeParser
  import G = Grammar
  import GrammarRead
  import LaxGrammar
  import Layout
  import PrintedGrammar

  // A tree, printed in either layout and parsed to the end of the text, comes
  // back as a new tree that stands for the same value; the printed buffer and
  // everything in between is freed again.
  method PrintAndParse(mem: Heap, err: Errors, item: Node, fmt: bool, ghost t: Tree) returns (c: Node?, ghost d: Tree)
    requires item == t.node && View(t) && ReadyToPrint(t) && Owned(t) <= mem.live
    modifies mem, err
    ensures c != null && c == d.node && Linked(d) && Separate(d) && View(d) && ReadyToPrint(d)
    ensures Meaning(d) == Meaning(t) && err.ep == NullPointer
    ensures fresh(Owned(d)) && mem.live == old(mem.live) + Owned(d)
  {
    var out := PrintEither(mem, item, fmt, t);
    c, d := ParseBack(mem, err, out, fmt, Meaning(t));
    mem.Free(out);
  }

  // The text is parsed; what the tree owns is new, and so not the text.
  method ParseBack(mem: Heap, err: Errors, out: array<Byte>, ghost fmt: bool, ghost j: Json)
    returns (c: Node?, ghost d: Tree)
    requires Printable(j) && Holds(out, Print(j, 0, fmt))
    modifies mem, err
    ensures c != null && c == d.node && Linked(d) && Separate(d) && View(d) && ReadyToPrint(d)
    ensures Meaning(d) == j && err.ep == NullPointer
    ensures fresh(Owned(d)) && mem.live == old(mem.live) + Owned(d)
  {
    PrintedTextReadsBack(j, fmt);
    var end;
    c, end, d := ParseWithOpts(mem, err, out, true, Print(j, 0, fmt));
    ParsedOwnsAll(d);
    OwnerIsReader(d);
    ParsedIsReadyToPrint(d);
  }

  // Either entry point renders the value in its layout.
  method PrintEither(mem: Heap, item: Node, fmt: bool, ghost t: Tree) returns (out: array<Byte>)
    requires item == t.node && View(t) && ReadyToPrint(t) && Owned(t) <= mem.live
    modifies mem
    ensures fresh(out) && mem.live == old(mem.live) + {out}
    ensures Printable(Meaning(t)) && Holds(out, Print(Meaning(t), 0, fmt))
    ensures Holds(out, G.SyntaxText(Layout.SyntaxOf(Meaning(t), 0, fmt)))
  {
    var p: array?<Byte>;
    if fmt {
      p := RenderFormatted(mem, item, t);
    } else {
      p := RenderUnformatted(mem, item, t);
    }
    out := p;
    PrintedGrammar.PrintedIsSyntax(Meaning(t), 0, fmt);
  }

  // Minifying the formatted text in place leaves the unformatted one.
  method PrintAndMinify(mem: Heap, item: Node, ghost t: Tree) returns (out: array<Byte>)
    requires item == t.node && View(t) && ReadyToPrint(t) && Owned(t) <= mem.live
    modifies mem
    ensures fresh(out) && mem.live == old(mem.live) + {out}
    ensures Printable(Meaning(t)) && Holds(out, Print(Meaning(t), 0, false))
  {
    out := PrintEither(mem, item, true, t);
    PrintedMinifiesToCompact(Meaning(t), true);
    MinifyInPlace(out, Print(Meaning(t), 0, true));
  }

  // A buffer that holds a JSON text, whatever its white space and spelling,
  // gives a tree that stands for its value, unless a character is lost.
  method ParseJsonText(mem: Heap, err: Errors, a: array<Byte>,
      ghost before: Text, ghost x: G.Syntax, ghost behind: Text)
    returns (c: Node?, ghost t: Tree)
    requires G.Ws(before) && G.IsSyntax(x) && G.Ws(behind) && Holds(a, before + (G.SyntaxText(x) + behind))
    modifies mem, err
    ensures c != null && c == t.node && Linked(t) && Separate(t) && Meaning(t) == LaxGrammar.SyntaxLeft(x)
    ensures Meaning(t) == G.SyntaxValue(x) <==> !LaxGrammar.SyntaxLoses(x)
    ensures err.ep == NullPointer && fresh(Owned(t)) && mem.live == old(mem.live) + Owned(t)
  {
    GrammarRead.GrammarIsAccepted(before, x, behind);
    var end;
    c, end, t := ParseWithOpts(mem, err, a, true, before + (G.SyntaxText(x) + behind));
  }
}
