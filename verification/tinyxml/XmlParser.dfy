/** The parse methods of TinyXML with condensed white space, and the functions they compute. */
module XmlParser {
  import opened Chars
  import opened Sequences
  import opened XmlChars
  import opened XmlText
  import opened XmlTree

  /** The error codes of TiXmlBase that parsing can set. */
  datatype XmlError =
    | NoError | ParsingElement | FailedToReadElementName | ReadingElementValue | ReadingAttributes
    | ParsingEmpty | ReadingEndTag | ParsingUnknown | ParsingComment | ParsingCData | DocumentEmpty
    | ParsingDeclaration

  /** `SetError`: the first error of a document stays. */
  function First(a: XmlError, b: XmlError): XmlError {
    if a.NoError? then b else a
  }

  datatype Kind = KDeclaration | KComment | KCData | KUnknown | KElement

  datatype Parsed = Parsed(node: XmlNode, rest: Ptr, err: XmlError)
  datatype ParsedAttr = ParsedAttr(attr: Attr, rest: Ptr, err: XmlError)
  datatype ParsedNodes = ParsedNodes(nodes: seq<XmlNode>, rest: Ptr, err: XmlError)

  const XML_HEADER := "<?xml"
  const COMMENT_HEADER := "<!--"
  const DTD_HEADER := "<!"
  const CDATA_HEADER := "<![CDATA["

  // ---------- classification ----------

  predicate HasPrefixNoCase(s: string, t: string) {
    |t| <= |s| && forall k :: 0 <= k < |t| ==> ToLower(s[k]) == ToLower(t[k])
  }

  function KindOf(s: string): Kind {
    if HasPrefixNoCase(s, XML_HEADER) then KDeclaration
    else if HasPrefix(s, COMMENT_HEADER) then KComment
    else if HasPrefix(s, CDATA_HEADER) then KCData
    else if HasPrefix(s, DTD_HEADER) then KUnknown
    else if |s| > 1 && (IsAlpha(s[1]) || s[1] == '_') then KElement
    else KUnknown
  }

  /** What `Identify` decides in front of a `<`. */
  method Identify(s: string) returns (kind: Kind)
    requires s != ""
    ensures kind == KindOf(s)
  {
    var isHeader := StringEqual(s, XML_HEADER, true);
    if isHeader {
      return KDeclaration;
    }
    var isComment := StringEqual(s, COMMENT_HEADER, false);
    if isComment {
      return KComment;
    }
    var isCData := StringEqual(s, CDATA_HEADER, false);
    if isCData {
      return KCData;
    }
    var isDtd := StringEqual(s, DTD_HEADER, false);
    if isDtd {
      return KUnknown;
    }
    kind := if |s| > 1 && (IsAlpha(s[1]) || s[1] == '_') then KElement else KUnknown;
  }

  // ---------- leaves ----------

  /** How far it is to `end`, or to the terminator. */
  function DistanceTo(s: string, end: string): (n: nat)
    ensures n <= |s|
    ensures HasPrefix(s[n..], end) || n == |s|
    ensures forall k :: 0 <= k < n ==> !HasPrefix(s[k..], end)
  {
    if s == "" || HasPrefix(s, end) then 0
    else
      var n := 1 + DistanceTo(s[1..], end);
      assert s[1..][n - 1..] == s[n..];
      assert forall k :: 1 <= k < n ==> s[1..][k - 1..] == s[k..];
      n
  }

  /** The loop that collects raw characters up to `end`. */
  method CollectTo(p: string, end: string) returns (value: string, stop: string)
    requires end != ""
    ensures var n := DistanceTo(p, end); value == p[..n] && stop == p[n..]
  {
    hide DistanceTo;
    value, stop := "", p;
    assert "" + p == p;
    while stop != ""
      invariant p == value + stop && DistanceTo(p, end) == |value| + DistanceTo(stop, end)
      decreases |stop|
    {
      var atEnd := StringEqual(stop, end, false);
      if atEnd {
        break;
      }
      DistanceStep(stop, end);
      Regroup(value, [stop[0]], stop[1..]);
      assert [stop[0]] + stop[1..] == stop;
      value := value + [stop[0]];
      stop := stop[1..];
    }
    DistanceHere(stop, end);
    CutAt(value, stop);
  }

  lemma DistanceHere(s: string, end: string)
    requires s == "" || HasPrefix(s, end)
    ensures DistanceTo(s, end) == 0
  {
  }

  lemma DistanceStep(s: string, end: string)
    requires s != "" && !HasPrefix(s, end)
    ensures DistanceTo(s, end) == 1 + DistanceTo(s[1..], end)
  {
  }

  function CommentAt(s: string): (r: Parsed)
    ensures s != "" && r.rest.To? ==> |r.rest.s| < |s|
  {
    if !HasPrefix(s, COMMENT_HEADER) then Parsed(Comment(""), Null, ParsingComment)
    else
      var t := s[|COMMENT_HEADER|..];
      var n := DistanceTo(t, "-->");
      Parsed(Comment(t[..n]), To(Advance(t[n..], 3)), NoError)
  }

  method ParseComment(s: string) returns (r: Parsed)
    requires s != ""
    ensures r == CommentAt(s)
  {
    var starts := StringEqual(s, COMMENT_HEADER, false);
    if !starts {
      return Parsed(Comment(""), Null, ParsingComment);
    }
    var value, stop := CollectTo(s[|COMMENT_HEADER|..], "-->");
    r := Parsed(Comment(value), To(Advance(stop, 3)), NoError);
  }

  function CDataAt(s: string): (r: Parsed)
    ensures s != "" && r.rest.To? ==> |r.rest.s| < |s|
  {
    if !HasPrefix(s, CDATA_HEADER) then Parsed(Text("", true), Null, ParsingCData)
    else
      var t := s[|CDATA_HEADER|..];
      var n := DistanceTo(t, "]]>");
      Parsed(Text(t[..n], true), To(Advance(t[n..], 3)), NoError)
  }

  method ParseCData(s: string, enc: Encoding) returns (r: Parsed)
    requires s != ""
    ensures r == CDataAt(s)
  {
    var starts := StringEqual(s, CDATA_HEADER, false);
    if !starts {
      return Parsed(Text("", true), Null, ParsingCData);
    }
    var value, stop := CollectTo(s[|CDATA_HEADER|..], "]]>");
    var dummy, q := ReadText(To(stop), false, "]]>", enc);
    assert q == To(stop);
    r := Parsed(Text(value, true), To(Advance(stop, 3)), NoError);
  }

  function UnknownAt(enc: Encoding, s: string): (r: Parsed)
    ensures s != "" && r.rest.To? ==> |r.rest.s| < |s|
  {
    var p := SkipSpace(enc, To(s));
    if AtEnd(p) || p.s[0] != '<' then Parsed(Unknown(""), Null, ParsingUnknown)
    else
      var t := p.s[1..];
      var n := DistanceTo(t, ">");
      Parsed(Unknown(t[..n]), To(Advance(t[n..], 1)), NoError)
  }

  method ParseUnknown(s: string, enc: Encoding) returns (r: Parsed)
    ensures r == UnknownAt(enc, s)
  {
    var p := SkipWhiteSpace(To(s), enc);
    if AtEnd(p) || p.s[0] != '<' {
      return Parsed(Unknown(""), Null, ParsingUnknown);
    }
    var value, stop := CollectTo(p.s[1..], ">");
    r := Parsed(Unknown(value), To(Advance(stop, 1)), NoError);
  }

  /** A text that does not start with its end tag takes at least one character. */
  lemma TextProgress(enc: Encoding, s: string)
    requires s != "" && s[0] != '<'
    ensures var stop := TextOf(enc, To(s), true, "<").1; stop.To? ==> |stop.s| < |s|
  {
  }

  // ---------- attributes ----------

  predicate EndsUnquoted(c: char) {
    IsWhiteSpace(c) || c == '/' || c == '>'
  }

  /** A value without quotes; a quote inside it is an error. */
  function UnquotedAt(s: string): (r: (string, Ptr, XmlError))
    ensures r.1.To? ==> |r.1.s| <= |s|
  {
    if s == "" || EndsUnquoted(s[0]) then ("", To(s), NoError)
    else if s[0] == APOS || s[0] == QUOTE then ("", Null, ReadingAttributes)
    else
      var (v, q, e) := UnquotedAt(s[1..]);
      ([s[0]] + v, q, e)
  }

  method ReadUnquoted(s: string) returns (value: string, q: Ptr, err: XmlError)
    ensures (value, q, err) == UnquotedAt(s)
  {
    value, q := "", To(s);
    ghost var want := UnquotedAt(s);
    assert "" + want.0 == want.0;
    while q.s != "" && !EndsUnquoted(q.s[0])
      invariant q.To?
      invariant var (v, p, e) := UnquotedAt(q.s); want == (value + v, p, e)
      decreases |q.s|
    {
      if q.s[0] == APOS || q.s[0] == QUOTE {
        assert value + "" == value;
        return value, Null, ReadingAttributes;
      }
      Regroup(value, [q.s[0]], UnquotedAt(q.s[1..]).0);
      value := value + [q.s[0]];
      q := To(q.s[1..]);
    }
    assert value + "" == value;
    err := NoError;
  }

  function AttributeAt(enc: Encoding, s: string): (r: ParsedAttr)
    ensures r.rest.To? ==> |r.rest.s| < |s|
  {
    var p := SkipSpace(enc, To(s));
    if AtEnd(p) then ParsedAttr(Attr("", ""), Null, NoError)
    else
      var (name, q) := NameOf(p);
      var eq := SkipSpace(enc, q);
      if AtEnd(q) || AtEnd(eq) || eq.s[0] != '=' then ParsedAttr(Attr(name, ""), Null, ReadingAttributes)
      else
        var v := SkipSpace(enc, To(eq.s[1..]));
        if AtEnd(v) then ParsedAttr(Attr(name, ""), Null, ReadingAttributes)
        else if v.s[0] == APOS || v.s[0] == QUOTE then
          var (value, stop) := TextOf(enc, To(v.s[1..]), false, [v.s[0]]);
          ParsedAttr(Attr(name, value), if stop.Null? then Null else To(Advance(stop.s, 1)), NoError)
        else
          var (value, rest, err) := UnquotedAt(v.s);
          ParsedAttr(Attr(name, value), rest, err)
  }

  method ParseAttribute(s: string, enc: Encoding) returns (r: ParsedAttr)
    ensures r == AttributeAt(enc, s)
  {
    hide TextOf, UnquotedAt, SkipSpace, NameOf;
    var p := SkipWhiteSpace(To(s), enc);
    if AtEnd(p) {
      return ParsedAttr(Attr("", ""), Null, NoError);
    }
    var name;
    name, p := ReadName(p);
    if AtEnd(p) {
      return ParsedAttr(Attr(name, ""), Null, ReadingAttributes);
    }
    p := SkipWhiteSpace(p, enc);
    if AtEnd(p) || p.s[0] != '=' {
      return ParsedAttr(Attr(name, ""), Null, ReadingAttributes);
    }
    p := SkipWhiteSpace(To(p.s[1..]), enc);
    if AtEnd(p) {
      return ParsedAttr(Attr(name, ""), Null, ReadingAttributes);
    }
    if p.s[0] == APOS || p.s[0] == QUOTE {
      var value, stop := ReadText(To(p.s[1..]), false, [p.s[0]], enc);
      return ParsedAttr(Attr(name, value), if stop.Null? then Null else To(Advance(stop.s, 1)), NoError);
    }
    var value, rest, err := ReadUnquoted(p.s);
    r := ParsedAttr(Attr(name, value), rest, err);
  }

  /** The position of an attribute in a set, or the size of the set. */
  function FindAttr(attrs: seq<Attr>, name: string): (k: nat)
    ensures k <= |attrs|
    ensures k < |attrs| ==> attrs[k].name == name
    ensures forall j :: 0 <= j < k ==> attrs[j].name != name
  {
    if attrs == [] || attrs[0].name == name then 0 else 1 + FindAttr(attrs[1..], name)
  }

  // ---------- declarations ----------

  /** What is left behind a word that is read over. */
  function AfterWord(s: string): (t: string)
    ensures |t| <= |s| && (s != "" && s[0] != '>' && !IsWhiteSpace(s[0]) ==> |t| < |s|)
  {
    if s == "" || s[0] == '>' || IsWhiteSpace(s[0]) then s else AfterWord(s[1..])
  }

  lemma SkipTakesOne(enc: Encoding, s: string)
    requires s != "" && s[0] != '>'
    ensures var p := SkipSpace(enc, To(s)); p.To? && |p.s| <= |s| && |AfterWord(p.s)| < |s|
  {
  }

  /** The loop over the values, with those read so far; the errors of the attributes are not recorded. */
  function DeclarationFrom(enc: Encoding, s: string, version: string, encoding: string, standalone: string): (r: Parsed)
    ensures r.node.Declaration? && (r.rest.To? ==> |r.rest.s| < |s|)
    decreases |s|
  {
    if s == "" then Parsed(Declaration(version, encoding, standalone), Null, NoError)
    else if s[0] == '>' then Parsed(Declaration(version, encoding, standalone), To(s[1..]), NoError)
    else
      SkipTakesOne(enc, s);
      var p := SkipSpace(enc, To(s));
      var a := AttributeAt(enc, p.s);
      var rest := if a.rest.Null? then "" else a.rest.s;
      if HasPrefixNoCase(p.s, "version") then DeclarationFrom(enc, rest, a.attr.value, encoding, standalone)
      else if HasPrefixNoCase(p.s, "encoding") then DeclarationFrom(enc, rest, version, a.attr.value, standalone)
      else if HasPrefixNoCase(p.s, "standalone") then DeclarationFrom(enc, rest, version, encoding, a.attr.value)
      else DeclarationFrom(enc, AfterWord(p.s), version, encoding, standalone)
  }

  function DeclarationAt(enc: Encoding, s: string): (r: Parsed)
    ensures r.node.Declaration? && (r.rest.To? ==> |r.rest.s| < |s|)
  {
    var p := SkipSpace(enc, To(s));
    if AtEnd(p) || !HasPrefixNoCase(p.s, XML_HEADER) then Parsed(Declaration("", "", ""), Null, ParsingDeclaration)
    else DeclarationFrom(enc, p.s[|XML_HEADER|..], "", "", "")
  }

  lemma DeclarationStops(enc: Encoding, s: string, version: string, encoding: string, standalone: string)
    requires s == "" || s[0] == '>'
    ensures DeclarationFrom(enc, s, version, encoding, standalone)
            == Parsed(Declaration(version, encoding, standalone), if s == "" then Null else To(s[1..]), NoError)
  {
  }

  /** One round of the loop. */
  lemma DeclarationStep(enc: Encoding, s: string, version: string, encoding: string, standalone: string)
    requires s != "" && s[0] != '>'
    ensures var p := SkipSpace(enc, To(s)); p.To? && |p.s| <= |s| && |AfterWord(p.s)| < |s|
    ensures var p := SkipSpace(enc, To(s)).s;
            var a := AttributeAt(enc, p);
            var rest := if a.rest.Null? then "" else a.rest.s;
            DeclarationFrom(enc, s, version, encoding, standalone) ==
            if HasPrefixNoCase(p, "version") then DeclarationFrom(enc, rest, a.attr.value, encoding, standalone)
            else if HasPrefixNoCase(p, "encoding") then DeclarationFrom(enc, rest, version, a.attr.value, standalone)
            else if HasPrefixNoCase(p, "standalone") then DeclarationFrom(enc, rest, version, encoding, a.attr.value)
            else DeclarationFrom(enc, AfterWord(p), version, encoding, standalone)
  {
    hide SkipSpace, AttributeAt, HasPrefixNoCase, AfterWord;
    SkipTakesOne(enc, s);
  }

  /** The inner loop, which reads over anything else. */
  method ReadWord(s: string) returns (t: string)
    ensures t == AfterWord(s)
  {
    t := s;
    while t != "" && t[0] != '>' && !IsWhiteSpace(t[0])
      invariant AfterWord(s) == AfterWord(t)
      decreases |t|
    {
      t := t[1..];
    }
  }

  method ParseDeclaration(s: string, enc: Encoding) returns (r: Parsed)
    ensures r == DeclarationAt(enc, s)
  {
    hide SkipSpace, AttributeAt, DeclarationFrom, AfterWord;
    var p := SkipWhiteSpace(To(s), enc);
    if AtEnd(p) {
      return Parsed(Declaration("", "", ""), Null, ParsingDeclaration);
    }
    var starts := StringEqual(p.s, XML_HEADER, true);
    if !starts {
      return Parsed(Declaration("", "", ""), Null, ParsingDeclaration);
    }
    var version, encoding, standalone := "", "", "";
    p := To(p.s[|XML_HEADER|..]);
    while p.To? && p.s != ""
      invariant DeclarationAt(enc, s)
                == DeclarationFrom(enc, if p.Null? then "" else p.s, version, encoding, standalone)
      decreases p.To?, if p.To? then |p.s| else 0
    {
      if p.s[0] == '>' {
        DeclarationStops(enc, p.s, version, encoding, standalone);
        return Parsed(Declaration(version, encoding, standalone), To(p.s[1..]), NoError);
      }
      DeclarationStep(enc, p.s, version, encoding, standalone);
      p := SkipWhiteSpace(p, enc);
      var isVersion := StringEqual(p.s, "version", true);
      var isEncoding := StringEqual(p.s, "encoding", true);
      var isStandalone := StringEqual(p.s, "standalone", true);
      if isVersion {
        var a := ParseAttribute(p.s, enc);
        version, p := a.attr.value, a.rest;
      } else if isEncoding {
        var a := ParseAttribute(p.s, enc);
        encoding, p := a.attr.value, a.rest;
      } else if isStandalone {
        var a := ParseAttribute(p.s, enc);
        standalone, p := a.attr.value, a.rest;
      } else {
        var t := ReadWord(p.s);
        p := To(t);
      }
    }
    DeclarationStops(enc, "", version, encoding, standalone);
    r := Parsed(Declaration(version, encoding, standalone), Null, NoError);
  }

  // ---------- elements ----------

  function NodeAt(enc: Encoding, s: string): (r: Parsed)
    requires s != ""
    ensures r.rest.To? ==> |r.rest.s| < |s|
    decreases |s|, 1
  {
    match KindOf(s)
    case KComment => CommentAt(s)
    case KCData => CDataAt(s)
    case KUnknown => UnknownAt(enc, s)
    case KElement => ElementAt(enc, s)
    case KDeclaration => DeclarationAt(enc, s)
  }

  function ElementAt(enc: Encoding, s: string): (r: Parsed)
    ensures r.node.Element? && (r.rest.To? ==> |r.rest.s| < |s|)
    decreases |s|, 0
  {
    var p := SkipSpace(enc, To(s));
    if AtEnd(p) || p.s[0] != '<' then Parsed(Element("", [], []), Null, ParsingElement)
    else
      var (name, q) := NameOf(SkipSpace(enc, To(p.s[1..])));
      if AtEnd(q) then Parsed(Element(name, [], []), Null, FailedToReadElementName)
      else
        assert |q.s| < |s|;
        TagAt(enc, q.s, name, [])
  }

  /** The rest of a start tag, and what follows it, when `attrs` have been read. */
  function TagAt(enc: Encoding, s: string, name: string, attrs: seq<Attr>): (r: Parsed)
    ensures r.node.Element? && (r.rest.To? ==> |r.rest.s| <= |s|)
    decreases |s|, 0
  {
    if s == "" then Parsed(Element(name, attrs, []), To(s), NoError)
    else
      var p := SkipSpace(enc, To(s));
      if AtEnd(p) then Parsed(Element(name, attrs, []), Null, ReadingAttributes)
      else if p.s[0] == '/' then
        if |p.s| == 1 || p.s[1] != '>' then Parsed(Element(name, attrs, []), Null, ParsingEmpty)
        else Parsed(Element(name, attrs, []), To(p.s[2..]), NoError)
      else if p.s[0] == '>' then
        var v := NodesAt(enc, SkipSpace(enc, To(p.s[1..])));
        var node := Element(name, attrs, v.nodes);
        if AtEnd(v.rest) then Parsed(node, Null, First(v.err, ReadingEndTag))
        else
          var endTag := "</" + name + ">";
          if HasPrefix(v.rest.s, endTag) then Parsed(node, To(v.rest.s[|endTag|..]), v.err)
          else Parsed(node, Null, First(v.err, ReadingEndTag))
      else
        var a := AttributeAt(enc, p.s);
        if AtEnd(a.rest) then Parsed(Element(name, attrs, []), Null, First(a.err, ParsingElement))
        else
          var k := FindAttr(attrs, a.attr.name);
          if k < |attrs| then Parsed(Element(name, attrs[k := Attr(attrs[k].name, a.attr.value)], []), Null, a.err)
          else
            var t := TagAt(enc, a.rest.s, name, attrs + [a.attr]);
            t.(err := First(a.err, t.err))
  }

  /** The children from `p` on, white space already skipped, up to the end tag. */
  function NodesAt(enc: Encoding, p: Ptr): (r: ParsedNodes)
    ensures r.rest.To? ==> p.To? && |r.rest.s| <= |p.s|
    decreases if p.To? then |p.s| else 0, 2
  {
    if p.Null? then ParsedNodes([], Null, ReadingElementValue)
    else if p.s == "" then ParsedNodes([], p, NoError)
    else if p.s[0] != '<' then
      var (value, stop) := TextOf(enc, p, true, "<");
      assert stop.To? ==> |stop.s| < |p.s| by { TextProgress(enc, p.s); }
      var more := NodesAt(enc, SkipSpace(enc, stop));
      if AllWhite(value) then more else more.(nodes := [Text(value, false)] + more.nodes)
    else if HasPrefix(p.s, "</") then ParsedNodes([], p, NoError)
    else
      var n := NodeAt(enc, p.s);
      var more := NodesAt(enc, SkipSpace(enc, n.rest));
      ParsedNodes([n.node] + more.nodes, more.rest, First(n.err, more.err))
  }

  // ---------- the methods ----------

  /** `Parse` of the node `Identify` created. */
  method ParseNode(s: string, enc: Encoding) returns (r: Parsed)
    requires s != ""
    ensures r == NodeAt(enc, s)
    decreases |s|, 1
  {
    var kind := Identify(s);
    match kind
    case KComment => r := ParseComment(s);
    case KCData => r := ParseCData(s, enc);
    case KUnknown => r := ParseUnknown(s, enc);
    case KElement => r := ParseElement(s, enc);
    case KDeclaration => r := ParseDeclaration(s, enc);
  }

  method ParseElement(s: string, enc: Encoding) returns (r: Parsed)
    ensures r == ElementAt(enc, s)
    decreases |s|, 0
  {
    hide TextOf, UnquotedAt, AttributeAt, NodesAt;
    var p := SkipWhiteSpace(To(s), enc);
    if AtEnd(p) || p.s[0] != '<' {
      return Parsed(Element("", [], []), Null, ParsingElement);
    }
    p := SkipWhiteSpace(To(p.s[1..]), enc);
    var name;
    name, p := ReadName(p);
    if AtEnd(p) {
      return Parsed(Element(name, [], []), Null, FailedToReadElementName);
    }
    var endTag := "</" + name + ">";
    var attrs: seq<Attr> := [];
    var err := NoError;
    while p.s != ""
      invariant p.To? && |p.s| < |s|
      invariant ElementAt(enc, s) == var t := TagAt(enc, p.s, name, attrs); t.(err := First(err, t.err))
      decreases |p.s|
    {
      var q := SkipWhiteSpace(p, enc);
      if AtEnd(q) {
        return Parsed(Element(name, attrs, []), Null, First(err, ReadingAttributes));
      }
      if q.s[0] == '/' {
        if |q.s| == 1 || q.s[1] != '>' {
          return Parsed(Element(name, attrs, []), Null, First(err, ParsingEmpty));
        }
        return Parsed(Element(name, attrs, []), To(q.s[2..]), err);
      } else if q.s[0] == '>' {
        var v := ReadValue(q.s[1..], enc);
        var node := Element(name, attrs, v.nodes);
        if AtEnd(v.rest) {
          return Parsed(node, Null, First(err, First(v.err, ReadingEndTag)));
        }
        var closes := StringEqual(v.rest.s, endTag, false);
        if closes {
          return Parsed(node, To(v.rest.s[|endTag|..]), First(err, v.err));
        }
        return Parsed(node, Null, First(err, First(v.err, ReadingEndTag)));
      } else {
        var a := ParseAttribute(q.s, enc);
        if AtEnd(a.rest) {
          return Parsed(Element(name, attrs, []), Null, First(err, First(a.err, ParsingElement)));
        }
        var k := FindAttr(attrs, a.attr.name);
        if k < |attrs| {
          attrs := attrs[k := Attr(attrs[k].name, a.attr.value)];
          return Parsed(Element(name, attrs, []), Null, First(err, a.err));
        }
        attrs := attrs + [a.attr];
        err := First(err, a.err);
        p := a.rest;
      }
    }
    r := Parsed(Element(name, attrs, []), p, err);
  }

  /** What has been read before the rest `t`. */
  function Before(nodes: seq<XmlNode>, err: XmlError, t: ParsedNodes): ParsedNodes {
    ParsedNodes(nodes + t.nodes, t.rest, First(err, t.err))
  }

  lemma BeforeOne(nodes: seq<XmlNode>, err: XmlError, n: XmlNode, e: XmlError, t: ParsedNodes)
    ensures Before(nodes, err, ParsedNodes([n] + t.nodes, t.rest, First(e, t.err)))
            == Before(nodes + [n], First(err, e), t)
    ensures Before([], NoError, t) == t
  {
    assert nodes + ([n] + t.nodes) == nodes + [n] + t.nodes;
    assert [] + t.nodes == t.nodes;
  }

  method ReadValue(s: string, enc: Encoding) returns (r: ParsedNodes)
    ensures r == NodesAt(enc, SkipSpace(enc, To(s)))
    decreases |s|, 2
  {
    hide TextOf, NodeAt, SkipSpace, AllWhite;
    var p := SkipWhiteSpace(To(s), enc);
    var nodes: seq<XmlNode> := [];
    var err := NoError;
    ghost var want := NodesAt(enc, p);
    BeforeOne([], NoError, Comment(""), NoError, want);
    SkipSpaceShrinks(enc, To(s));
    while p.To? && p.s != ""
      invariant p.To? ==> |p.s| <= |s|
      invariant want == Before(nodes, err, NodesAt(enc, p))
      decreases p.To?, if p.To? then |p.s| else 0
    {
      ghost var more;
      if p.s[0] != '<' {
        TextProgress(enc, p.s);
        var value;
        value, p := ReadText(p, true, "<", enc);
        more := NodesAt(enc, SkipSpace(enc, p));
        if !AllWhite(value) {
          BeforeOne(nodes, err, Text(value, false), NoError, more);
          nodes := nodes + [Text(value, false)];
        }
      } else {
        var closes := StringEqual(p.s, "</", false);
        if closes {
          assert nodes + [] == nodes;
          return ParsedNodes(nodes, p, err);
        }
        var n := ParseNode(p.s, enc);
        more := NodesAt(enc, SkipSpace(enc, n.rest));
        BeforeOne(nodes, err, n.node, n.err, more);
        nodes := nodes + [n.node];
        err := First(err, n.err);
        p := n.rest;
      }
      SkipSpaceShrinks(enc, p);
      p := SkipWhiteSpace(p, enc);
    }
    assert nodes + [] == nodes;
    r := ParsedNodes(nodes, p, if p.Null? then First(err, ReadingElementValue) else err);
  }

  lemma SkipSpaceShrinks(enc: Encoding, p: Ptr)
    ensures SkipSpace(enc, p).To? ==> p.To? && |SkipSpace(enc, p).s| <= |p.s|
  {
  }

  // ---------- the document ----------

  /** The encoding after a child of the document: a declaration sets it unless it is set already. */
  function EncodingAfter(enc: Encoding, n: XmlNode): Encoding {
    if !enc.Undeclared? || !n.Declaration? then enc
    else if n.encoding == "" || HasPrefixNoCase(n.encoding, "UTF-8") || HasPrefixNoCase(n.encoding, "UTF8") then Utf8
    else Legacy
  }

  method TakeEncoding(enc: Encoding, n: XmlNode) returns (e: Encoding)
    ensures e == EncodingAfter(enc, n)
  {
    e := enc;
    if enc == Undeclared && n.Declaration? {
      if n.encoding == "" {
        return Utf8;
      }
      var isUtf8 := StringEqual(n.encoding, "UTF-8", true);
      if isUtf8 {
        return Utf8;
      }
      isUtf8 := StringEqual(n.encoding, "UTF8", true);
      e := if isUtf8 then Utf8 else Legacy;
    }
  }

  /** The children of a document from `p` on, white space already skipped. */
  function DocumentNodesAt(enc: Encoding, p: Ptr): ParsedNodes
    decreases if p.To? then |p.s| else 0
  {
    if AtEnd(p) then ParsedNodes([], p, NoError)
    else
      var q := SkipSpace(enc, p);
      if AtEnd(q) || q.s[0] != '<' then ParsedNodes([], p, NoError)
      else
        var n := NodeAt(enc, p.s);
        var e := EncodingAfter(enc, n.node);
        var more := DocumentNodesAt(e, SkipSpace(e, n.rest));
        ParsedNodes([n.node] + more.nodes, more.rest, First(n.err, more.err))
  }

  predicate StartsWithBom(s: string) {
    |s| >= 3 && s[0] as int == 0xEF && s[1] as int == 0xBB && s[2] as int == 0xBF
  }

  function DocumentAt(enc: Encoding, s: string): ParsedNodes {
    if s == "" then ParsedNodes([], Null, DocumentEmpty)
    else
      var e := if enc.Undeclared? && StartsWithBom(s) then Utf8 else enc;
      var d := DocumentNodesAt(e, SkipSpace(e, To(s)));
      if d.nodes == [] then ParsedNodes([], Null, DocumentEmpty) else d
  }

  method ParseDocument(s: string, enc: Encoding) returns (r: ParsedNodes)
    ensures r == DocumentAt(enc, s)
  {
    hide NodeAt, SkipSpace;
    if s == "" {
      return ParsedNodes([], Null, DocumentEmpty);
    }
    var e := enc;
    if enc == Undeclared && StartsWithBom(s) {
      e := Utf8;
    }
    var p := SkipWhiteSpace(To(s), e);
    var nodes: seq<XmlNode> := [];
    var err := NoError;
    ghost var want := DocumentNodesAt(e, p);
    BeforeOne([], NoError, Comment(""), NoError, want);
    while p.To? && p.s != ""
      invariant want == Before(nodes, err, DocumentNodesAt(e, p))
      decreases p.To?, if p.To? then |p.s| else 0
    {
      var q := SkipWhiteSpace(p, e);
      if AtEnd(q) || q.s[0] != '<' {
        break;
      }
      var n := ParseNode(p.s, e);
      e := TakeEncoding(e, n.node);
      BeforeOne(nodes, err, n.node, n.err, DocumentNodesAt(e, SkipSpace(e, n.rest)));
      nodes := nodes + [n.node];
      err := First(err, n.err);
      SkipSpaceShrinks(e, n.rest);
      p := SkipWhiteSpace(n.rest, e);
    }
    assert nodes + [] == nodes;
    if nodes == [] {
      return ParsedNodes([], Null, DocumentEmpty);
    }
    r := ParsedNodes(nodes, p, err);
  }
}
