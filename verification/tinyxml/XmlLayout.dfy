/** The layout of printed XML: which rows there are, what stands in them and how far they are indented. */
module XmlLayout {
  import opened Chars
  import opened Sequences
  import opened XmlChars
  import opened XmlText
  import opened XmlTree
  import opened XmlPrinter

  /** A row of the output with its depth. */
  datatype Row = Row(depth: nat, text: string)

  /** The attributes in their order, in the quotes they do not hold. */
  function Attributes(attrs: seq<Attr>, k: nat): string
    requires k <= |attrs|
  {
    if k == 0 then ""
    else
      var a := attrs[k - 1];
      var q := if '\"' in a.value then "'" else "\"";
      Attributes(attrs, k - 1) + " " + Encode(a.name) + "=" + q + Encode(a.value) + q
  }

  /** The start tag of an element up to its end mark: with the attributes that are shown. */
  function Opening(n: XmlNode): string
    requires n.Element?
  {
    "<" + n.name + Attributes(Shown(n.attrs), |Shown(n.attrs)|)
  }

  /** An element without children has one row, and so has one with a single text; all others have their tags in rows of
      their own around the rows of their children. */
  function Rows(n: XmlNode, depth: nat): seq<Row> {
    match n
    case Comment(value) => [Row(depth, "<!--" + value + "-->")]
    case Text(value, cdata) => [Row(depth, if cdata then "<![CDATA[" + value + "]]>" else Encode(value))]
    case Unknown(value) => [Row(depth, "<" + value + ">")]
    case Declaration(version, encoding, standalone) =>
      [Row(depth, "<?xml " + (if version == "" then "" else "version=\"" + version + "\" ")
                  + (if encoding == "" then "" else "encoding=\"" + encoding + "\" ")
                  + (if standalone == "" then "" else "standalone=\"" + standalone + "\" ") + "?>")]
    case Element(name, attrs, kids) =>
      if kids == [] then [Row(depth, Opening(n) + " />")]
      else if |kids| == 1 && kids[0].Text? && !kids[0].cdata then
        [Row(depth, Opening(n) + ">" + Encode(kids[0].value) + "</" + name + ">")]
      else [Row(depth, Opening(n) + ">")] + AllRows(kids, depth + 1) + [Row(depth, "</" + name + ">")]
  }

  function AllRows(nodes: seq<XmlNode>, depth: nat): seq<Row> {
    if nodes == [] then [] else AllRows(nodes[..|nodes| - 1], depth) + Rows(nodes[|nodes| - 1], depth)
  }

  function Repeated(s: string, n: nat): string {
    if n == 0 then "" else s + Repeated(s, n - 1)
  }

  /** The rows as text. */
  function Laid(f: Format, rows: seq<Row>): string {
    if rows == [] then ""
    else Laid(f, rows[..|rows| - 1]) + Repeated(f.indent, rows[|rows| - 1].depth) + rows[|rows| - 1].text + f.lineBreak
  }

  // ---------- text ----------

  lemma {:induction false} LaidConcat(f: Format, a: seq<Row>, b: seq<Row>)
    ensures Laid(f, a + b) == Laid(f, a) + Laid(f, b)
    decreases |b|
  {
    if b == [] {
      assert a + b == a;
    } else {
      var n := |b| - 1;
      assert (a + b)[..|a + b| - 1] == a + b[..n];
      LaidConcat(f, a, b[..n]);
      Assoc4(Laid(f, a), Laid(f, b[..n]), Repeated(f.indent, b[n].depth), b[n].text, f.lineBreak);
      Assoc3(Laid(f, b[..n]), Repeated(f.indent, b[n].depth), b[n].text, f.lineBreak);
    }
  }

  lemma {:induction false} RepeatedIs(s: string, n: nat)
    ensures s + Repeated(s, n) == Repeated(s, n) + s
  {
    if n > 0 {
      RepeatedIs(s, n - 1);
      Regroup(s, Repeated(s, n - 1), s);
    } else {
      assert s + "" == s && "" + s == s;
    }
  }

  lemma {:induction false} IndentationRepeats(f: Format, depth: nat)
    ensures Indentation(f, depth) == Repeated(f.indent, depth)
  {
    if depth > 0 {
      IndentationRepeats(f, depth - 1);
      RepeatedIs(f.indent, depth - 1);
    }
  }

  lemma LaidOne(f: Format, depth: nat, text: string)
    ensures Laid(f, [Row(depth, text)]) == Indentation(f, depth) + (text + f.lineBreak)
  {
    IndentationRepeats(f, depth);
    assert [Row(depth, text)][..0] == [];
    var i := Repeated(f.indent, depth);
    assert "" + i == i;
    Regroup(i, text, f.lineBreak);
  }

  lemma AttributesStep(attrs: seq<Attr>, k: nat)
    requires k <= |attrs|
    ensures k == 0 ==> Attributes(attrs, k) == ""
    ensures k > 0 ==> var a := attrs[k - 1]; var q := if '\"' in a.value then "'" else "\"";
                      Attributes(attrs, k) == Attributes(attrs, k - 1) + " " + Encode(a.name) + "=" + q + Encode(a.value) + q
  {
    hide Encode;
  }

  lemma {:induction false} AttributesAre(attrs: seq<Attr>, k: nat)
    requires k <= |attrs|
    ensures PrintedAttrs(attrs[..k]) == Attributes(attrs, k)
  {
    hide PrintedAttrs, PrintedAttr, Attributes, Encode;
    AttributesStep(attrs, k);
    if k == 0 {
      NothingPrinted(attrs);
    } else {
      AttributesAre(attrs, k - 1);
      OneMorePrinted(attrs, k - 1);
      AttributeIs(Attributes(attrs, k - 1), attrs[k - 1]);
    }
  }

  lemma AttributeIs(before: string, a: Attr)
    ensures var q := if '\"' in a.value then "'" else "\"";
            before + " " + PrintedAttr(a) == before + " " + Encode(a.name) + "=" + q + Encode(a.value) + q
  {
    hide Encode;
    var q := if '\"' in a.value then "'" else "\"";
    var x, n, v := before + " ", Encode(a.name), Encode(a.value);
    assert PrintedAttr(a) == n + (("=" + q) + (v + q)) by {
      assert "=" + "'" == "='" && "=" + "\"" == "=\"";
      assert '\"' == QUOTE;
    }
    Assoc3(x, n, "=" + q, v + q);
    Regroup(x + n, "=", q);
    Regroup(x + n + "=" + q, v, q);
  }

  lemma OpeningIs(n: XmlNode)
    requires n.Element?
    ensures "<" + (n.name + PrintedAttrs(Shown(n.attrs))) == Opening(n)
  {
    var s := Shown(n.attrs);
    AttributesAre(s, |s|);
    assert s[..|s|] == s;
    Regroup("<", n.name, PrintedAttrs(s));
  }

  // ---------- nodes ----------

  lemma LeafRow(f: Format, n: XmlNode, depth: nat)
    requires !n.Element?
    ensures Rows(n, depth) == [Row(depth, Body(f, n, depth))]
  {
    match n
    case Comment(value) => Regroup("<!--", value, "-->");
    case Text(value, _) => Regroup("<![CDATA[", value, "]]>");
    case Unknown(value) => Regroup("<", value, ">");
    case Declaration(version, encoding, standalone) =>
      var a, b, c := DeclarationPart("version", version), DeclarationPart("encoding", encoding),
                     DeclarationPart("standalone", standalone);
      PartIs("version", version);
      PartIs("encoding", encoding);
      PartIs("standalone", standalone);
      Assoc4("<?xml ", a, b, c, "?>");
      assert "version" + "=\"" == "version=\"" && "encoding" + "=\"" == "encoding=\"";
      assert "standalone" + "=\"" == "standalone=\"";
  }

  lemma PartIs(name: string, value: string)
    ensures DeclarationPart(name, value) == if value == "" then "" else name + "=\"" + value + "\" "
  {
    Regroup("=\"", value, "\" ");
    Regroup(name, "=\"", value + "\" ");
    Regroup(name + "=\"", value, "\" ");
  }

  lemma OneRow(open: string, text: string, name: string)
    ensures open + (">" + (text + ("</" + (name + ">")))) == open + ">" + text + "</" + name + ">"
  {
    Assoc3(open, ">", text, "</" + (name + ">"));
    Assoc3(open + ">" + text, "</", name, ">");
    Regroup(open + ">" + text, "</", name + ">");
  }

  /** A printed node is its rows. */
  lemma {:induction false} LineIs(f: Format, n: XmlNode, depth: nat)
    ensures Line(f, n, depth) == Laid(f, Rows(n, depth))
    decreases n, 0
  {
    hide Laid, Indentation;
    if !n.Element? {
      LeafRow(f, n, depth);
      LaidOne(f, depth, Body(f, n, depth));
    } else {
      OpeningIs(n);
      hide Opening, PrintedAttrs;
      var open := "<" + (n.name + PrintedAttrs(Shown(n.attrs)));
      if n.kids == [] {
        LaidOne(f, depth, Opening(n) + " />");
        BodyIs(n.name, PrintedAttrs(Shown(n.attrs)), " />");
      } else if OneText(n.kids) {
        var text := Encode(n.kids[0].value);
        var close := "</" + (n.name + ">");
        LaidOne(f, depth, Opening(n) + ">" + text + "</" + n.name + ">");
        BodyIs(n.name, PrintedAttrs(Shown(n.attrs)), ">" + (text + close));
        assert Inner(f, n.kids, depth) == text;
        OneRow(open, text, n.name);
      } else {
        LinesAre(f, n.kids, depth + 1);
        BodyIs(n.name, PrintedAttrs(Shown(n.attrs)), ">" + (Inner(f, n.kids, depth) + ("</" + (n.name + ">"))));
        ElementRows(f, open, n.name, Lines(f, n.kids, depth + 1), AllRows(n.kids, depth + 1), depth);
      }
    }
  }

  lemma BodyIs(name: string, attrs: string, rest: string)
    ensures "<" + (name + (attrs + rest)) == "<" + (name + attrs) + rest
  {
    Regroup(name, attrs, rest);
    Regroup("<", name + attrs, rest);
  }

  /** The rows of an element around those of its children. */
  lemma ElementRows(f: Format, open: string, name: string, lines: string, rows: seq<Row>, depth: nat)
    requires lines == Laid(f, rows)
    ensures Laid(f, [Row(depth, open + ">")] + rows + [Row(depth, "</" + name + ">")])
            == Indentation(f, depth) + (open + (">" + ((f.lineBreak + (lines + Indentation(f, depth)))
                                                       + ("</" + (name + ">")))) + f.lineBreak)
  {
    hide Laid, Indentation;
    var i, e, close := Indentation(f, depth), f.lineBreak, "</" + (name + ">");
    var first, last := [Row(depth, open + ">")], [Row(depth, "</" + name + ">")];
    LaidConcat(f, first + rows, last);
    LaidConcat(f, first, rows);
    LaidOne(f, depth, open + ">");
    LaidOne(f, depth, "</" + name + ">");
    Regroup("</", name, ">");
    Around(i, open, e, lines, close);
  }

  lemma Around(i: string, open: string, e: string, lines: string, close: string)
    ensures i + (open + ">" + e) + lines + (i + (close + e))
            == i + (open + (">" + ((e + (lines + i)) + close)) + e)
  {
  }

  /** Printed children, and a printed document, are their rows. */
  lemma {:induction false} LinesAre(f: Format, nodes: seq<XmlNode>, depth: nat)
    ensures Lines(f, nodes, depth) == Laid(f, AllRows(nodes, depth))
    decreases nodes, 1
  {
    hide Line, Rows;
    if nodes == [] {
      assert Laid(f, []) == "";
    } else {
      hide Laid;
      var n := |nodes| - 1;
      LinesAre(f, nodes[..n], depth);
      LineIs(f, nodes[n], depth);
      LaidConcat(f, AllRows(nodes[..n], depth), Rows(nodes[n], depth));
      LinesAppended(f, nodes[..n], nodes[n], depth);
      assert nodes[..n] + [nodes[n]] == nodes;
    }
  }

  lemma {:induction false} LinesAppended(f: Format, nodes: seq<XmlNode>, n: XmlNode, depth: nat)
    ensures Lines(f, nodes + [n], depth) == Lines(f, nodes, depth) + Line(f, n, depth)
  {
    hide Line;
    if nodes == [] {
      assert [] + [n] == [n] && [n][1..] == [];
      assert Line(f, n, depth) + "" == Line(f, n, depth) && "" + Line(f, n, depth) == Line(f, n, depth);
    } else {
      assert (nodes + [n])[1..] == nodes[1..] + [n];
      LinesAppended(f, nodes[1..], n, depth);
      Regroup(Line(f, nodes[0], depth), Lines(f, nodes[1..], depth), Line(f, n, depth));
    }
  }
}
