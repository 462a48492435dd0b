/** What the encoding that a document declares does to the characters in it. */
module XmlEncodings {
  import opened Chars
  import opened Decimals
  import opened Sequences
  import opened XmlChars
  import opened XmlText
  import opened XmlTextRoundTrip
  import opened XmlTree
  import opened XmlPrinter
  import opened XmlParser
  import opened XmlReferences
  import opened XmlRoundTrip

  function Lower(s: string): string {
    seq(|s|, i requires 0 <= i < |s| => ToLower(s[i]))
  }

  /** A declared encoding that means UTF-8: none, or one that starts with `UTF-8` or `UTF8`. */
  predicate SaysUtf8(encoding: string) {
    encoding == "" || "utf-8" <= Lower(encoding) || "utf8" <= Lower(encoding)
  }

  /** The mode in which a document that starts with a declaration is read: the one asked for, if any, or else the one that
      the declaration says. */
  function ModeOf(enc: Encoding, encoding: string): Encoding {
    if enc != Undeclared then enc else if SaysUtf8(encoding) then Utf8 else Legacy
  }

  /** An element that holds one character reference. */
  function WithReference(name: string, n: nat): string {
    "<" + (name + (">" + ("&#" + (Decimal(n) + (";" + ("</" + (name + ">")))))))
  }

  /** That element as it is read, if the reference gives `v`. */
  function Holding(name: string, v: string): XmlNode {
    Element(name, [], if AllWhite(v) then [] else [Text(v, false)])
  }

  // ---------- the element ----------

  /** A text of one character in front of a tag. */
  lemma CondensedOnce(enc: Encoding, s: string, v: string, tail: string)
    requires s != "" && !IsWhiteSpace(s[0]) && !HasPrefix(s, "<") && Char(enc, s) == (v, To(tail)) && HasPrefix(tail, "<")
    ensures CondensedText(enc, s, "<", false) == (v, To(tail))
  {
    hide Char;
    assert v + "" == v;
  }

  lemma ReferenceText(enc: Encoding, n: nat, tail: string) returns (v: string)
    requires n < 5_000_000_000 && tail != "" && tail[0] == '<'
    ensures var s := "&#" + (Decimal(n) + (";" + tail));
            s[0] == '&' && SkipSpace(enc, To(s)) == To(s) && TextOf(enc, To(s), true, "<") == (v, To(tail))
    ensures Stands(enc, v, n)
  {
    hide Decimal, Entity, Stands;
    var s := "&#" + (Decimal(n) + (";" + tail));
    NumberReference(enc, n, tail);
    v := Entity(enc, s).0;
    assert s[0] == '&' && Char(enc, s) == Entity(enc, s);
    assert HasPrefix(tail, "<") && !HasPrefix(s, "<");
    CondensedOnce(enc, s, v, tail);
  }

  lemma ReferenceNodes(enc: Encoding, name: string, n: nat) returns (v: string)
    requires n < 5_000_000_000
    ensures var closing := "</" + (name + ">"); var s := "&#" + (Decimal(n) + (";" + closing));
            NodesAt(enc, SkipSpace(enc, To(s))) == ParsedNodes(Holding(name, v).kids, To(closing), NoError)
    ensures Stands(enc, v, n)
  {
    hide Decimal, TextOf, SkipWs, NodeAt, Stands;
    var closing := "</" + (name + ">");
    v := ReferenceText(enc, n, closing);
    TagStays(enc, closing);
    EndTagNodes(enc, closing);
  }

  lemma TagHolds(enc: Encoding, name: string, s: string, kids: seq<XmlNode>)
    requires NodesAt(enc, SkipSpace(enc, To(s))) == ParsedNodes(kids, To("</" + (name + ">")), NoError)
    ensures TagAt(enc, ">" + s, name, []) == Parsed(Element(name, [], kids), To(""), NoError)
  {
    hide NodesAt, AttributeAt, SkipWs;
    assert (">" + s)[0] == '>' && (">" + s)[1..] == s;
    TagStaysClose(enc, ">" + s);
    assert "</" + (name + ">") == "</" + name + ">";
  }

  lemma ReferenceElement(enc: Encoding, name: string, n: nat) returns (v: string)
    requires n < 5_000_000_000 && GoodName(enc, name)
    ensures NodeAt(enc, WithReference(name, n)) == Parsed(Holding(name, v), To(""), NoError)
    ensures Stands(enc, v, n)
  {
    hide Decimal, NodeAt, TagAt, NodesAt, SkipWs, Stands;
    var s := "&#" + (Decimal(n) + (";" + ("</" + (name + ">"))));
    v := ReferenceNodes(enc, name, n);
    TagHolds(enc, name, s, Holding(name, v).kids);
    ElementStart(enc, name, ">" + s);
  }

  // ---------- the document ----------

  lemma LowerPrefix(s: string, t: string)
    requires forall k :: 0 <= k < |t| ==> ToLower(t[k]) == Lower(t)[k]
    ensures HasPrefixNoCase(s, t) <==> Lower(t) <= Lower(s)
  {
    if HasPrefixNoCase(s, t) {
      assert Lower(s)[..|t|] == Lower(t);
    }
    if Lower(t) <= Lower(s) {
      assert forall k :: 0 <= k < |t| ==> Lower(s)[k] == Lower(t)[k];
    }
  }

  /** The first declaration sets the mode, and later ones do not. */
  lemma ModeIs(enc: Encoding, d: XmlNode)
    requires d.Declaration?
    ensures EncodingAfter(enc, d) == ModeOf(enc, d.encoding)
  {
    LowerPrefix(d.encoding, "UTF-8");
    LowerPrefix(d.encoding, "UTF8");
    assert Lower("UTF-8") == "utf-8" && Lower("UTF8") == "utf8";
    hide HasPrefixNoCase, Lower;
  }

  /** A declaration that reads back as it was printed, in every mode. */
  predicate PlainDeclaration(d: XmlNode) {
    d.Declaration? && IsPlain(d.version) && IsPlain(d.encoding) && IsPlain(d.standalone)
    && WellFormed(Utf8, d.version) && WellFormed(Utf8, d.encoding) && WellFormed(Utf8, d.standalone)
  }

  predicate PlainDeclarations(ds: seq<XmlNode>) {
    forall k :: 0 <= k < |ds| ==> PlainDeclaration(ds[k])
  }

  /** The printed declarations, one after the other, and the element behind them. */
  function Printed(ds: seq<XmlNode>, name: string, n: nat): string
    requires PlainDeclarations(ds)
  {
    if ds == [] then WithReference(name, n)
    else PrintedDeclaration(ds[0].version, ds[0].encoding, ds[0].standalone) + Printed(ds[1..], name, n)
  }

  lemma PrintedStarts(ds: seq<XmlNode>, name: string, n: nat)
    requires PlainDeclarations(ds)
    ensures Printed(ds, name, n) != "" && Printed(ds, name, n)[0] == '<'
  {
    hide Decimal, DeclarationPart;
  }

  /** The mode behind the declarations: the first of them decides. */
  function ModeAfter(enc: Encoding, ds: seq<XmlNode>): Encoding
    requires PlainDeclarations(ds)
  {
    if ds == [] then enc else ModeOf(enc, ds[0].encoding)
  }

  lemma FirstDecides(enc: Encoding, ds: seq<XmlNode>)
    requires PlainDeclarations(ds) && ds != []
    ensures PlainDeclarations(ds[1..]) && ModeAfter(ModeOf(enc, ds[0].encoding), ds[1..]) == ModeAfter(enc, ds)
  {
    hide SaysUtf8, PlainDeclaration;
  }

  lemma DocumentStep(enc: Encoding, s: string, n: XmlNode, t: string, e: Encoding, more: ParsedNodes)
    requires s != "" && s[0] == '<' && NodeAt(enc, s) == Parsed(n, To(t), NoError) && e == EncodingAfter(enc, n)
    requires DocumentNodesAt(e, SkipSpace(e, To(t))) == more
    ensures DocumentNodesAt(enc, To(s)) == ParsedNodes([n] + more.nodes, more.rest, more.err)
  {
    hide NodeAt, EncodingAfter, SkipWs;
    TagStays(enc, s);
  }

  lemma LastNode(enc: Encoding, s: string, n: XmlNode)
    requires s != "" && s[0] == '<' && NodeAt(enc, s) == Parsed(n, To(""), NoError)
    ensures DocumentNodesAt(enc, To(s)) == ParsedNodes([n], Null, NoError)
  {
    hide NodeAt, EncodingAfter, SkipWs;
    TagStays(enc, s);
  }

  lemma NoDeclaration(enc: Encoding, ds: seq<XmlNode>)
    requires ds == []
    ensures ModeAfter(enc, ds) == enc
  {
  }

  lemma WellFormedAnyway(enc: Encoding, d: XmlNode)
    requires PlainDeclaration(d)
    ensures WellFormed(enc, d.version) && WellFormed(enc, d.encoding) && WellFormed(enc, d.standalone)
  {
  }

  lemma {:induction false} NodesOf(enc: Encoding, ds: seq<XmlNode>, name: string, n: nat) returns (v: string)
    requires PlainDeclarations(ds) && n < 5_000_000_000 && GoodName(Utf8, name)
    ensures DocumentNodesAt(enc, To(Printed(ds, name, n))) == ParsedNodes(ds + [Holding(name, v)], Null, NoError)
    ensures Stands(ModeAfter(enc, ds), v, n)
    decreases |ds|
  {
    hide DocumentNodesAt, NodeAt, SkipWs, Stands, Decimal, WithReference, Holding, ModeAfter, EncodingAfter, IsPlain, WellFormed,
         PrintedDeclaration;
    var s := Printed(ds, name, n);
    PrintedStarts(ds, name, n);
    if ds == [] {
      v := ReferenceElement(enc, name, n);
      LastNode(enc, s, Holding(name, v));
      assert ModeAfter(enc, ds) == enc by { NoDeclaration(enc, ds); }
      assert ds + [Holding(name, v)] == [Holding(name, v)];
    } else {
      var d, rest := ds[0], ds[1..];
      var e := ModeOf(enc, d.encoding);
      FirstDecides(enc, ds);
      v := NodesOf(e, rest, name, n);
      PrintedStarts(rest, name, n);
      TagStays(e, Printed(rest, name, n));
      ModeIs(enc, d);
      WellFormedAnyway(enc, d);
      DeclarationRoundTripIff(enc, d.version, d.encoding, d.standalone, Printed(rest, name, n));
      DocumentStep(enc, s, d, Printed(rest, name, n), e, ParsedNodes(rest + [Holding(name, v)], Null, NoError));
      assert [d] + (rest + [Holding(name, v)]) == ds + [Holding(name, v)];
    }
  }

  /** The first declaration of a document decides how its characters are read, unless the caller has; a second one changes
      nothing. A text that is only white space is dropped. */
  lemma EncodingDecides(enc: Encoding, ds: seq<XmlNode>, name: string, n: nat)
    requires PlainDeclarations(ds) && n < 5_000_000_000 && GoodName(Utf8, name)
    ensures exists v :: Stands(ModeAfter(enc, ds), v, n)
                        && DocumentAt(enc, Printed(ds, name, n)) == ParsedNodes(ds + [Holding(name, v)], Null, NoError)
  {
    hide DocumentNodesAt, SkipWs, Stands, Holding, ModeAfter, Printed;
    var s := Printed(ds, name, n);
    PrintedStarts(ds, name, n);
    var v := NodesOf(enc, ds, name, n);
    TagStays(enc, s);
    assert DocumentAt(enc, s) == ParsedNodes(ds + [Holding(name, v)], Null, NoError);
  }

  const BOM: string := [0xEF as char, 0xBB as char, 0xBF as char]

  lemma BomSkipped(s: string)
    requires s != "" && s[0] == '<'
    ensures BOM + s != "" && StartsWithBom(BOM + s) && SkipSpace(Utf8, To(BOM + s)) == To(s)
  {
    var t := BOM + s;
    assert t[3..] == s && t[0] == BOM[0] && t[1] == BOM[1] && t[2] == BOM[2];
    assert IsSkipMark(t) && SkipWs(Utf8, s) == s;
  }

  lemma Utf8Stays(ds: seq<XmlNode>)
    requires PlainDeclarations(ds)
    ensures ModeAfter(Utf8, ds) == Utf8
  {
  }

  /** A document that starts with the bytes EF BB BF is read in UTF-8, whatever it declares. */
  lemma BomDecides(ds: seq<XmlNode>, name: string, n: nat)
    requires PlainDeclarations(ds) && n < 5_000_000_000 && GoodName(Utf8, name)
    ensures exists v :: Stands(Utf8, v, n) && DocumentAt(Undeclared, BOM + Printed(ds, name, n))
                                             == ParsedNodes(ds + [Holding(name, v)], Null, NoError)
  {
    hide DocumentNodesAt, SkipWs, Stands, Holding, Printed, ModeAfter, StartsWithBom;
    var s := Printed(ds, name, n);
    PrintedStarts(ds, name, n);
    BomSkipped(s);
    var v := NodesOf(Utf8, ds, name, n);
    Utf8Stays(ds);
    assert Stands(Utf8, v, n);
    assert DocumentAt(Undeclared, BOM + s) == ParsedNodes(ds + [Holding(name, v)], Null, NoError);
  }

  lemma VersionIsPlain()
    ensures IsPlain("1.0") && WellFormed(Utf8, "1.0") && IsPlain("") && WellFormed(Utf8, "")
  {
    var v := "1.0";
    assert v[1..][1..][1..] == "" && v[1..][1..][0] == '0' && v[1..][0] == '.';
    assert WellFormed(Utf8, v[1..][1..]);
    assert WellFormed(Utf8, v[1..]);
  }

  lemma OneDeclaration(d: XmlNode, name: string, n: nat)
    requires d.Declaration? && d.version == "1.0" && d.standalone == "" && IsPlain(d.encoding) && WellFormed(Utf8, d.encoding)
    ensures PlainDeclarations([d])
    ensures Printed([d], name, n) == PrintedDeclaration(d.version, d.encoding, d.standalone) + WithReference(name, n)
    ensures GoodName(Utf8, "a")
  {
    assert [d][1..] == [];
    VersionIsPlain();
    hide PrintedDeclaration, WithReference, IsPlain;
  }

  /** With no encoding, `UTF-8` or `UTF8` declared, a reference to a number from 0x80 on is a text of its UTF-8 bytes. */
  lemma DeclaredUtf8(encoding: string, n: nat)
    requires SaysUtf8(encoding) && IsPlain(encoding) && WellFormed(Utf8, encoding) && 0x80 <= n < 0x20_0000
    ensures exists t :: Utf8Sequence(t, n)
                        && DocumentAt(Undeclared, PrintedDeclaration("1.0", encoding, "") + WithReference("a", n)).nodes
                           == [Declaration("1.0", encoding, ""), Element("a", [], [Text(t, false)])]
  {
    hide DocumentAt, SaysUtf8, PrintedDeclaration, WithReference, IsPlain;
    var d := Declaration("1.0", encoding, "");
    OneDeclaration(d, "a", n);
    EncodingDecides(Undeclared, [d], "a", n);
    var v :| Stands(ModeAfter(Undeclared, [d]), v, n)
             && DocumentAt(Undeclared, Printed([d], "a", n)) == ParsedNodes([d] + [Holding("a", v)], Null, NoError);
    assert Utf8Sequence(v, n) && !IsWhiteSpace(v[0]);
  }

  /** With any other encoding declared it is a text of the last byte of the number, if that is no white space. */
  lemma DeclaredOther(encoding: string, n: nat)
    requires !SaysUtf8(encoding) && IsPlain(encoding) && WellFormed(Utf8, encoding) && n < 5_000_000_000
    ensures var t := [(n % 256) as char];
            DocumentAt(Undeclared, PrintedDeclaration("1.0", encoding, "") + WithReference("a", n)).nodes
            == [Declaration("1.0", encoding, ""), Element("a", [], if IsWhiteSpace(t[0]) then [] else [Text(t, false)])]
  {
    hide DocumentAt, SaysUtf8, PrintedDeclaration, WithReference, IsPlain;
    var d := Declaration("1.0", encoding, "");
    OneDeclaration(d, "a", n);
    EncodingDecides(Undeclared, [d], "a", n);
  }
}
