/** TiXmlPrinter. */
module XmlPrinter {
  import opened Chars
  import opened Sequences
  import opened XmlChars
  import opened XmlText
  import opened XmlTree

  datatype Format = Format(indent: string, lineBreak: string)

  function Indentation(f: Format, depth: nat): string {
    if depth == 0 then "" else Indentation(f, depth - 1) + f.indent
  }

  function PrintedAttr(a: Attr): string {
    if QUOTE in a.value then Encode(a.name) + ("='" + (Encode(a.value) + "'"))
    else Encode(a.name) + ("=\"" + (Encode(a.value) + "\""))
  }

  function PrintedAttrs(attrs: seq<Attr>): string {
    if attrs == [] then "" else " " + (PrintedAttr(attrs[0]) + PrintedAttrs(attrs[1..]))
  }

  lemma NothingPrinted(attrs: seq<Attr>)
    ensures PrintedAttrs(attrs[..0]) == ""
  {
  }

  lemma {:induction false} OneMorePrinted(attrs: seq<Attr>, k: nat)
    requires k < |attrs|
    ensures PrintedAttrs(attrs[..k + 1]) == PrintedAttrs(attrs[..k]) + " " + PrintedAttr(attrs[k])
  {
    hide PrintedAttr;
    if k > 0 {
      OneMorePrinted(attrs[1..], k - 1);
      TakeTail(attrs, k + 1);
      TakeTail(attrs, k);
      Assoc3(" ", PrintedAttr(attrs[0]), PrintedAttrs(attrs[1..][..k - 1]), " " + PrintedAttr(attrs[k]));
    }
  }

  /** A value of a declaration, which is not escaped; an empty one is left out. */
  function DeclarationPart(name: string, value: string): string {
    if value == "" then "" else name + ("=\"" + (value + "\" "))
  }

  function PrintedDeclaration(version: string, encoding: string, standalone: string): string {
    "<?xml " + (DeclarationPart("version", version)
                + (DeclarationPart("encoding", encoding) + (DeclarationPart("standalone", standalone) + "?>")))
  }

  /** A node without the indentation in front of it and the line break behind it. */
  function Body(f: Format, n: XmlNode, depth: nat): string
    decreases n, 0
  {
    match n
    case Comment(value) => "<!--" + (value + "-->")
    case Text(value, cdata) => if cdata then "<![CDATA[" + (value + "]]>") else Encode(value)
    case Unknown(value) => "<" + (value + ">")
    case Declaration(version, encoding, standalone) => PrintedDeclaration(version, encoding, standalone)
    case Element(name, attrs, kids) =>
      "<" + (name + (PrintedAttrs(Shown(attrs)) + (
        if kids == [] then " />"
        else ">" + (Inner(f, kids, depth) + ("</" + (name + ">"))))))
  }

  /** What stands between the two tags of an element at `depth`. */
  function Inner(f: Format, kids: seq<XmlNode>, depth: nat): string
    decreases kids, 1
  {
    if OneText(kids) then Encode(kids[0].value)
    else f.lineBreak + (Lines(f, kids, depth + 1) + Indentation(f, depth))
  }

  function Lines(f: Format, nodes: seq<XmlNode>, depth: nat): string
    decreases nodes, 0
  {
    if nodes == [] then ""
    else Line(f, nodes[0], depth) + Lines(f, nodes[1..], depth)
  }

  function Line(f: Format, n: XmlNode, depth: nat): string
    decreases n, 1
  {
    Indentation(f, depth) + (Body(f, n, depth) + f.lineBreak)
  }

  /** What child `i` of an element adds to the output. */
  function Piece(f: Format, kids: seq<XmlNode>, i: nat, depth: nat): string
    requires i < |kids|
  {
    if OneText(kids) then Body(f, kids[i], depth) else Line(f, kids[i], depth)
  }

  function Pieces(f: Format, kids: seq<XmlNode>, i: nat, depth: nat): string
    requires i <= |kids|
    decreases |kids| - i
  {
    if i == |kids| then "" else Piece(f, kids, i, depth) + Pieces(f, kids, i + 1, depth)
  }

  /** The buffer after a start tag. */
  function Entered(b: string, f: Format, name: string, attrs: seq<Attr>, kids: seq<XmlNode>, depth: nat): string {
    b + Indentation(f, depth) + "<" + name + PrintedAttrs(Shown(attrs))
    + (if kids == [] then " />" else ">") + (if OneText(kids) then "" else f.lineBreak)
  }

  /** The buffer after an end tag, which an element without children does not have. */
  function Exited(b: string, f: Format, name: string, kids: seq<XmlNode>, depth: nat): string {
    if kids == [] then b
    else b + (if OneText(kids) then "" else Indentation(f, depth)) + "</" + name + ">" + f.lineBreak
  }

  class Printer {
    var depth: nat
    var simpleTextPrint: bool
    var buffer: string
    var indent: string
    var lineBreak: string

    constructor (indent: string, lineBreak: string)
      ensures depth == 0 && !simpleTextPrint && buffer == ""
      ensures this.indent == indent && this.lineBreak == lineBreak
    {
      depth, simpleTextPrint, buffer := 0, false, "";
      this.indent, this.lineBreak := indent, lineBreak;
    }

    ghost function Fmt(): Format
      reads this
    {
      Format(indent, lineBreak)
    }

    method DoIndent()
      modifies `buffer
      ensures buffer == old(buffer) + Indentation(Fmt(), depth)
    {
      for i := 0 to depth
        invariant buffer == old(buffer) + Indentation(Fmt(), i)
      {
        buffer := buffer + indent;
      }
    }

    method DoLineBreak()
      modifies `buffer
      ensures buffer == old(buffer) + lineBreak
    {
      buffer := buffer + lineBreak;
    }

    method PrintAttribute(a: Attr)
      modifies `buffer
      ensures buffer == old(buffer) + PrintedAttr(a)
    {
      hide Encode;
      var n := EncodeString(a.name);
      var v := EncodeString(a.value);
      if QUOTE !in a.value {
        buffer := buffer + n + "=\"" + v + "\"";
        Assoc4(old(buffer), n, "=\"", v, "\"");
      } else {
        buffer := buffer + n + "='" + v + "'";
        Assoc4(old(buffer), n, "='", v, "'");
      }
    }

    /** The loop over the attributes, which goes by `Next`. */
    method PrintAttributes(attrs: seq<Attr>)
      modifies `buffer
      ensures buffer == old(buffer) + PrintedAttrs(Shown(attrs))
    {
      hide PrintedAttr, PrintedAttrs, Shown, Progress;
      ghost var done := "";
      StartProgress(attrs);
      NothingPrinted(attrs);
      var i := 0;
      var more := attrs != [];
      while more
        invariant i <= |attrs| && Progress(attrs, i, more)
        invariant buffer == old(buffer) + done && done == PrintedAttrs(attrs[..i])
        decreases |attrs| - i
      {
        StepProgress(attrs, i);
        OneMorePrinted(attrs, i);
        ghost var a := PrintedAttr(attrs[i]);
        buffer := buffer + " ";
        PrintAttribute(attrs[i]);
        Assoc3(old(buffer), done, " ", a);
        Regroup(done, " ", a);
        done := done + " " + a;
        i := i + 1;
        more := i < |attrs| && !Blank(attrs[i]);
      }
      EndProgress(attrs, i);
    }

    method VisitEnter(name: string, attrs: seq<Attr>, kids: seq<XmlNode>)
      requires !simpleTextPrint
      modifies `buffer, `depth, `simpleTextPrint
      ensures depth == old(depth) + 1 && simpleTextPrint == OneText(kids)
      ensures buffer == Entered(old(buffer), Fmt(), name, attrs, kids, old(depth))
    {
      hide PrintedAttrs, Indentation;
      DoIndent();
      buffer := buffer + "<";
      buffer := buffer + name;
      PrintAttributes(attrs);
      ghost var b := buffer;
      if kids == [] {
        buffer := buffer + " />";
        DoLineBreak();
      } else {
        buffer := buffer + ">";
        if kids[0].Text? && |kids| == 1 && !kids[0].cdata {
          simpleTextPrint := true;
          assert b + ">" + "" == b + ">";
        } else {
          DoLineBreak();
        }
      }
      depth := depth + 1;
    }

    method VisitExit(name: string, kids: seq<XmlNode>)
      requires depth > 0 && simpleTextPrint == OneText(kids)
      modifies `buffer, `depth, `simpleTextPrint
      ensures depth == old(depth) - 1 && !simpleTextPrint
      ensures buffer == Exited(old(buffer), Fmt(), name, kids, depth)
    {
      hide Indentation;
      depth := depth - 1;
      if kids != [] {
        if simpleTextPrint {
          simpleTextPrint := false;
          assert buffer + "" == buffer;
        } else {
          DoIndent();
        }
        buffer := buffer + "</";
        buffer := buffer + name;
        buffer := buffer + ">";
        DoLineBreak();
      }
    }

    /** One of the three values of a declaration. */
    method PrintPart(name: string, value: string)
      modifies `buffer
      ensures buffer == old(buffer) + DeclarationPart(name, value)
    {
      if value != "" {
        ghost var b := buffer;
        buffer := buffer + name + "=\"";
        buffer := buffer + value;
        buffer := buffer + "\" ";
        Assoc3(b, name, "=\"", value + "\" ");
        Regroup(b + name + "=\"", value, "\" ");
      } else {
        assert buffer + "" == buffer;
      }
    }

    /** `TiXmlDeclaration::Print`. */
    method PrintDeclaration(version: string, encoding: string, standalone: string)
      modifies `buffer
      ensures buffer == old(buffer) + PrintedDeclaration(version, encoding, standalone)
    {
      hide DeclarationPart;
      ghost var b := buffer;
      buffer := buffer + "<?xml ";
      PrintPart("version", version);
      PrintPart("encoding", encoding);
      PrintPart("standalone", standalone);
      buffer := buffer + "?>";
      Assoc4(b, "<?xml ", DeclarationPart("version", version), DeclarationPart("encoding", encoding),
             DeclarationPart("standalone", standalone) + "?>");
      Regroup(b + "<?xml " + DeclarationPart("version", version) + DeclarationPart("encoding", encoding),
              DeclarationPart("standalone", standalone), "?>");
    }

    /** `Visit` of the leaves. */
    method Visit(n: XmlNode)
      requires !n.Element?
      modifies `buffer
      ensures buffer == old(buffer) +
                        if simpleTextPrint && IsPlainText(n) then Body(Fmt(), n, depth) else Line(Fmt(), n, depth)
    {
      hide Encode, Indentation;
      ghost var ind, b := Indentation(Fmt(), depth), old(buffer);
      var str := if n.Text? then n.value else "";
      if IsPlainText(n) && simpleTextPrint {
        str := EncodeString(str);
        buffer := buffer + str;
      } else {
        DoIndent();
        match n {
          case Text(value, cdata) =>
            if cdata {
              buffer := buffer + "<![CDATA[" + value + "]]>";
              Assoc3(b + ind, "<![CDATA[", value, "]]>");
            } else {
              str := EncodeString(str);
              buffer := buffer + str;
            }
          case Comment(value) =>
            buffer := buffer + "<!--" + value + "-->";
            Assoc3(b + ind, "<!--", value, "-->");
          case Unknown(value) =>
            buffer := buffer + "<" + value + ">";
            Assoc3(b + ind, "<", value, ">");
          case Declaration(version, encoding, standalone) =>
            PrintDeclaration(version, encoding, standalone);
        }
        assert buffer == b + ind + Body(Fmt(), n, depth);
        DoLineBreak();
        Assoc3(b, ind, Body(Fmt(), n, depth), lineBreak);
      }
    }

    /** `Accept` of a node: prints it and leaves depth and mode as they were. */
    method Accept(n: XmlNode)
      requires simpleTextPrint ==> IsPlainText(n)
      modifies `buffer, `depth, `simpleTextPrint
      ensures depth == old(depth) && simpleTextPrint == old(simpleTextPrint)
      ensures buffer == old(buffer) +
                        if old(simpleTextPrint) then Body(Fmt(), n, depth) else Line(Fmt(), n, depth)
      decreases n, 1
    {
      hide Entered, Exited, Pieces, Line, Body, Indentation, OneText, IsPlainText;
      PlainIsText(n);
      if n.Element? {
        VisitEnter(n.name, n.attrs, n.kids);
        AcceptChildren(n.kids);
        VisitExit(n.name, n.kids);
        ElementLine(Fmt(), n, depth, old(buffer));
      } else {
        Visit(n);
      }
    }

    /** The loop of `TiXmlElement::Accept`. */
    method AcceptChildren(kids: seq<XmlNode>)
      requires simpleTextPrint == OneText(kids)
      modifies `buffer, `depth, `simpleTextPrint
      ensures depth == old(depth) && simpleTextPrint == old(simpleTextPrint)
      ensures buffer == old(buffer) + Pieces(Fmt(), kids, 0, depth)
      decreases kids, 0
    {
      hide Line, Body;
      ghost var f, done := Fmt(), "";
      for i := 0 to |kids|
        invariant depth == old(depth) && simpleTextPrint == OneText(kids) && Fmt() == f
        invariant buffer == old(buffer) + done
        invariant Pieces(f, kids, 0, depth) == done + Pieces(f, kids, i, depth)
      {
        Accept(kids[i]);
        ghost var piece := Piece(f, kids, i, depth);
        Regroup(old(buffer), done, piece);
        Regroup(done, piece, Pieces(f, kids, i + 1, depth));
        done := done + piece;
      }
      assert done + "" == done;
    }
  }

  lemma PiecesAreLines(f: Format, kids: seq<XmlNode>, i: nat, depth: nat)
    requires i <= |kids| && !OneText(kids)
    ensures Pieces(f, kids, i, depth) == Lines(f, kids[i..], depth)
    decreases |kids| - i
  {
    hide Line;
    if i < |kids| {
      PiecesAreLines(f, kids, i + 1, depth);
      assert kids[i..][1..] == kids[i + 1..];
    }
  }

  lemma PlainIsText(n: XmlNode)
    ensures IsPlainText(n) ==> n.Text?
  {
  }

  /** The pieces the visitor methods append make up the line of the element. */
  lemma ElementLine(f: Format, n: XmlNode, depth: nat, b: string)
    requires n.Element?
    ensures Exited(Entered(b, f, n.name, n.attrs, n.kids, depth) + Pieces(f, n.kids, 0, depth + 1), f, n.name, n.kids, depth)
            == b + Line(f, n, depth)
  {
    hide Encode, Indentation, PrintedAttrs;
    var ind, attrs, lb := Indentation(f, depth), PrintedAttrs(Shown(n.attrs)), f.lineBreak;
    var start := b + ind + "<" + n.name + attrs;
    var close := if n.kids == [] then " />" else ">" + (Inner(f, n.kids, depth) + ("</" + (n.name + ">")));
    assert Body(f, n, depth) == "<" + (n.name + (attrs + close));
    Assoc3(b + ind, "<", n.name, attrs + close);
    Regroup(b + ind + "<" + n.name, attrs, close);
    assert b + ind + Body(f, n, depth) == start + close;
    Assoc3(b, ind, Body(f, n, depth), lb);
    assert b + Line(f, n, depth) == start + close + lb;
    var pieces := Pieces(f, n.kids, 0, depth + 1);
    if n.kids == [] {
      assert start + " />" + lb + "" == start + " />" + lb;
    } else {
      Assoc4(start + ">", Inner(f, n.kids, depth), "</", n.name, ">");
      Regroup(start, ">", Inner(f, n.kids, depth) + ("</" + (n.name + ">")));
      if OneText(n.kids) {
        assert Pieces(f, n.kids, 1, depth + 1) == "";
        assert pieces == Inner(f, n.kids, depth) + "";
        assert start + ">" + "" + pieces + "" == start + ">" + Inner(f, n.kids, depth);
      } else {
        PiecesAreLines(f, n.kids, 0, depth + 1);
        assert n.kids[0..] == n.kids;
        Assoc3(start + ">", lb, pieces, ind);
      }
    }
  }

  /** `TiXmlDocument::Accept`: the children of a document one after the other. */
  method PrintDocument(nodes: seq<XmlNode>, indent: string, lineBreak: string) returns (text: string)
    ensures text == Lines(Format(indent, lineBreak), nodes, 0)
  {
    hide Line;
    var printer := new Printer(indent, lineBreak);
    ghost var f := Format(indent, lineBreak);
    for i := 0 to |nodes|
      invariant printer.depth == 0 && !printer.simpleTextPrint && printer.Fmt() == f
      invariant printer.buffer + Lines(f, nodes[i..], 0) == Lines(f, nodes, 0)
    {
      ghost var b := printer.buffer;
      printer.Accept(nodes[i]);
      assert nodes[i..][1..] == nodes[i + 1..];
      Regroup(b, Line(f, nodes[i], 0), Lines(f, nodes[i + 1..], 0));
    }
    text := printer.buffer;
    assert text + "" == text;
  }
}
