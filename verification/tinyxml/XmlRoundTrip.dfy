/** Printing a TinyXML document and parsing the output gives the document back. */
module XmlRoundTrip {
  import opened Chars
  import opened Sequences
  import opened XmlChars
  import opened XmlText
  import opened XmlTextRoundTrip
  import opened XmlTree
  import opened XmlPrinter
  import opened XmlParser

  // ---------- what can be printed and read back ----------

  /** A name `ReadName` takes as a whole. */
  predicate GoodName(enc: Encoding, s: string) {
    StartsName(s) && (forall k :: 0 <= k < |s| ==> IsNameChar(s[k])) && !(enc.Utf8? && IsSkipMark(s))
  }

  predicate GoodValue(enc: Encoding, v: string) {
    WellFormed(enc, v) && NoHexRef(v)
  }

  predicate GoodText(enc: Encoding, v: string) {
    GoodValue(enc, v) && Tidy(enc, v) && !AllWhite(v)
  }

  predicate GoodAttrs(enc: Encoding, attrs: seq<Attr>) {
    (forall k :: 0 <= k < |attrs| ==> GoodName(enc, attrs[k].name) && GoodValue(enc, attrs[k].value))
    && (forall j, k :: 0 <= j < k < |attrs| ==> attrs[j].name != attrs[k].name)
  }

  /** Raw contents that do not contain their own end marker. */
  predicate GoodRaw(v: string, end: string) {
    NulFree(v) && forall k :: 0 <= k <= |v| ==> !HasPrefix(v[k..], end)
  }

  /** A value of a declaration that reads back. */
  predicate GoodPart(enc: Encoding, v: string) {
    NulFree(v) && WellFormed(enc, v) && IsPlain(v)
  }

  /** `Identify` takes the node for an unknown one. */
  predicate GoodUnknown(v: string) {
    GoodRaw(v, ">") && KindOf("<" + v + ">").KUnknown?
  }

  /** Inside an element `</` would be the end tag. */
  predicate NotClosing(n: XmlNode) {
    n.Unknown? ==> n.value == "" || n.value[0] != '/'
  }

  predicate NoAdjacentTexts(nodes: seq<XmlNode>) {
    forall k :: 0 < k < |nodes| ==> !(IsPlainText(nodes[k - 1]) && IsPlainText(nodes[k]))
  }

  predicate Printable(enc: Encoding, n: XmlNode) {
    match n
    case Comment(v) => GoodRaw(v, "-->")
    case Text(v, cdata) => if cdata then GoodRaw(v, "]]>") else GoodText(enc, v)
    case Unknown(v) => GoodUnknown(v)
    case Declaration(version, encoding, standalone) =>
      GoodPart(enc, version) && GoodPart(enc, encoding) && GoodPart(enc, standalone)
    case Element(name, attrs, kids) =>
      GoodName(enc, name) && GoodAttrs(enc, attrs) && NoAdjacentTexts(kids)
      && forall k :: 0 <= k < |kids| ==> Printable(enc, kids[k]) && NotClosing(kids[k])
  }

  predicate PrintableKids(enc: Encoding, kids: seq<XmlNode>) {
    NoAdjacentTexts(kids) && forall k :: 0 <= k < |kids| ==> Printable(enc, kids[k]) && NotClosing(kids[k])
  }

  predicate BlankFormat(f: Format) {
    AllWhite(f.indent) && AllWhite(f.lineBreak)
  }

  // ---------- white space ----------

  lemma {:induction false} DropWhiteOf(w: string, t: string)
    requires AllWhite(w)
    ensures DropWhite(w + t) == DropWhite(t)
  {
    if w == "" {
      assert w + t == t;
    } else {
      assert (w + t)[1..] == w[1..] + t;
      DropWhiteOf(w[1..], t);
    }
  }

  lemma {:induction false} SkipWsOf(enc: Encoding, w: string, t: string)
    requires AllWhite(w)
    ensures SkipWs(enc, w + t) == SkipWs(enc, t)
  {
    if w == "" {
      assert w + t == t;
    } else {
      assert (w + t)[1..] == w[1..] + t;
      assert !IsSkipMark(w + t);
      SkipWsOf(enc, w[1..], t);
    }
  }

  lemma IndentationIsWhite(f: Format, depth: nat)
    requires BlankFormat(f)
    ensures AllWhite(Indentation(f, depth))
  {
  }

  /** In front of a tag, skipping white space leads to the tag. */
  lemma SkipToTag(enc: Encoding, s: string)
    requires TagAhead(s)
    ensures s != "" && SkipSpace(enc, To(s)) == To(DropWhite(s)) && TagAhead(DropWhite(s))
    ensures DropWhite(s)[0] == '<' && SkipSpace(enc, To(DropWhite(s))) == To(DropWhite(s))
  {
    SkipWsIsDropWhite(enc, s);
  }

  lemma SkipSpaceIs(enc: Encoding, s: string)
    requires s != ""
    ensures SkipSpace(enc, To(s)) == To(SkipWs(enc, s))
  {
  }

  lemma TagStays(enc: Encoding, s: string)
    requires s != "" && s[0] == '<'
    ensures SkipSpace(enc, To(s)) == To(s)
  {
  }

  // ---------- raw contents ----------

  lemma StartsNoEnd(v: string, end: string, rest: string)
    requires v != "" && !HasPrefix(v, end) && (end == "-->" || end == "]]>" || end == ">")
    ensures !HasPrefix(v + (end + rest), end)
  {
    var s, last := v + (end + rest), |end| - 1;
    assert end[last] == '>' && forall j :: 0 <= j < last ==> end[j] != '>';
    if |v| <= last {
      assert s[last] == end[last - |v|];
    } else {
      assert forall j :: 0 <= j < |end| ==> s[j] == v[j];
    }
  }

  lemma {:induction false} DistanceToEnd(v: string, end: string, rest: string)
    requires GoodRaw(v, end) && (end == "-->" || end == "]]>" || end == ">")
    ensures DistanceTo(v + (end + rest), end) == |v|
  {
    var s := v + (end + rest);
    if v == "" {
      assert s == end + rest;
    } else {
      assert !HasPrefix(v[0..], end) && v[0..] == v;
      StartsNoEnd(v, end, rest);
      assert s[1..] == v[1..] + (end + rest);
      assert forall k :: 0 <= k < |v| ==> v[1..][k..] == v[k + 1..];
      DistanceToEnd(v[1..], end, rest);
    }
  }

  lemma RawStop(v: string, end: string, rest: string)
    requires GoodRaw(v, end) && (end == "-->" || end == "]]>" || end == ">")
    ensures var s := v + (end + rest); var n := DistanceTo(s, end);
            s[..n] == v && Advance(s[n..], |end|) == rest
  {
    var s := v + (end + rest);
    DistanceToEnd(v, end, rest);
    assert s[|v|..] == end + rest && (end + rest)[|end|..] == rest;
  }

  lemma KindOfComment(t: string)
    ensures KindOf("<!--" + t).KComment?
  {
    assert ("<!--" + t)[1] == '!';
  }

  lemma KindOfCData(t: string)
    ensures KindOf("<![CDATA[" + t).KCData?
  {
    assert ("<![CDATA[" + t)[1] == '!' && ("<![CDATA[" + t)[2] == '[';
  }

  lemma KindOfElement(name: string, t: string)
    requires StartsName(name)
    ensures KindOf("<" + (name + t)).KElement?
  {
    assert ("<" + (name + t))[1] == name[0];
  }

  /** No header has a `>`, so what follows the node does not matter. */
  lemma KindOfUnknown(v: string, rest: string)
    requires GoodUnknown(v)
    ensures KindOf("<" + (v + (">" + rest))).KUnknown?
  {
    var a := "<" + v + ">";
    var b := "<" + (v + (">" + rest));
    assert b == a + rest;
    assert forall k :: 0 <= k < |a| ==> b[k] == a[k];
    assert a[|a| - 1] == '>';
    KeepsPrefix(a, b, DTD_HEADER);
    KeepsPrefix(a, b, COMMENT_HEADER);
    KeepsPrefix(a, b, CDATA_HEADER);
    assert ToLower(b[|a| - 1]) == '>' && forall k :: 0 <= k < 5 ==> ToLower(XML_HEADER[k]) != '>';
  }

  lemma KeepsPrefix(a: string, b: string, t: string)
    requires a <= b && a != "" && a[|a| - 1] == '>' && '>' !in t
    ensures HasPrefix(a, t) <==> HasPrefix(b, t)
  {
    assert |t| > |a| ==> t[|a| - 1] != '>';
    assert forall k :: 0 <= k < |a| ==> a[k] == b[k];
  }

  /** What `Parse` does with each kind of node. */
  lemma NodeAtIs(enc: Encoding, s: string)
    requires s != ""
    ensures KindOf(s).KComment? ==> NodeAt(enc, s) == CommentAt(s)
    ensures KindOf(s).KCData? ==> NodeAt(enc, s) == CDataAt(s)
    ensures KindOf(s).KUnknown? ==> NodeAt(enc, s) == UnknownAt(enc, s)
    ensures KindOf(s).KDeclaration? ==> NodeAt(enc, s) == DeclarationAt(enc, s)
    ensures KindOf(s).KElement? ==> NodeAt(enc, s) == ElementAt(enc, s)
  {
    hide KindOf, CommentAt, CDataAt, UnknownAt, DeclarationAt, ElementAt;
  }

  lemma CommentRoundTrip(enc: Encoding, v: string, rest: string)
    requires GoodRaw(v, "-->")
    ensures NodeAt(enc, "<!--" + (v + ("-->" + rest))) == Parsed(Comment(v), To(rest), NoError)
  {
    hide KindOf, NodeAt, GoodRaw, DistanceTo;
    var t := v + ("-->" + rest);
    KindOfComment(t);
    NodeAtIs(enc, "<!--" + t);
    RawStop(v, "-->", rest);
    CutAt("<!--", t);
  }

  lemma CDataRoundTrip(enc: Encoding, v: string, rest: string)
    requires GoodRaw(v, "]]>")
    ensures NodeAt(enc, "<![CDATA[" + (v + ("]]>" + rest))) == Parsed(Text(v, true), To(rest), NoError)
  {
    hide KindOf, NodeAt, GoodRaw, DistanceTo;
    var t := v + ("]]>" + rest);
    KindOfCData(t);
    NodeAtIs(enc, "<![CDATA[" + t);
    RawStop(v, "]]>", rest);
    CutAt("<![CDATA[", t);
  }

  lemma UnknownRoundTrip(enc: Encoding, v: string, rest: string)
    requires GoodUnknown(v)
    ensures NodeAt(enc, "<" + (v + (">" + rest))) == Parsed(Unknown(v), To(rest), NoError)
  {
    hide KindOf, NodeAt, GoodRaw, DistanceTo, SkipWs;
    var t := v + (">" + rest);
    KindOfUnknown(v, rest);
    NodeAtIs(enc, "<" + t);
    RawStop(v, ">", rest);
    CutAt("<", t);
    TagStays(enc, "<" + t);
  }

  // ---------- names and attributes ----------

  lemma {:induction false} NameLengthOf(name: string, t: string)
    requires (forall k :: 0 <= k < |name| ==> IsNameChar(name[k])) && (t == "" || !IsNameChar(t[0]))
    ensures NameLength(name + t) == |name|
  {
    if name == "" {
      assert name + t == t;
    } else {
      assert (name + t)[1..] == name[1..] + t;
      NameLengthOf(name[1..], t);
    }
  }

  lemma NameRoundTrip(enc: Encoding, name: string, t: string)
    requires GoodName(enc, name) && (t == "" || !IsNameChar(t[0])) && !(t != "" && t[0] as int >= 0x80)
    ensures SkipSpace(enc, To(name + t)) == To(name + t)
    ensures NameOf(To(name + t)) == (name, To(t))
  {
    NameLengthOf(name, t);
    assert (name + t)[|name|..] == t && (name + t)[..|name|] == name;
    assert t != "" ==> (name + t)[|name|] == t[0];
    assert enc.Utf8? ==> !IsSkipMark(name + t);
  }

  lemma {:induction false} EncodeName(s: string)
    requires forall k :: 0 <= k < |s| ==> IsNameChar(s[k])
    ensures Encode(s) == s
  {
    if s != "" {
      EncodePlain(s);
      EncodeName(s[1..]);
      assert EncodeChar(s[0]) == [s[0]];
      assert [s[0]] + s[1..] == s;
    }
  }

  lemma AttributeValue(enc: Encoding, v: string, q: char, t: string)
    requires GoodValue(enc, v) && (q == QUOTE || q == APOS)
    ensures var (value, stop) := TextOf(enc, To(Encode(v) + ([q] + t)), false, [q]);
            value == v && stop == To([q] + t) && Advance([q] + t, 1) == t
  {
    RawIdentityIff(enc, v, q, t);
  }

  lemma AttributeRoundTrip(enc: Encoding, a: Attr, t: string)
    requires GoodName(enc, a.name) && GoodValue(enc, a.value)
    ensures PrintedAttr(a) + t != "" && SkipSpace(enc, To(PrintedAttr(a) + t)) == To(PrintedAttr(a) + t)
    ensures AttributeAt(enc, PrintedAttr(a) + t) == ParsedAttr(a, To(t), NoError)
    ensures (PrintedAttr(a) + t)[0] == a.name[0]
  {
    hide Encode, TextOf, NameOf, WellFormed, NoHexRef;
    var q := if QUOTE in a.value then APOS else QUOTE;
    var value := Encode(a.value) + ([q] + t);
    var u := "=" + ([q] + value);
    EncodeName(a.name);
    assert PrintedAttr(a) + t == a.name + u by {
      var head := if QUOTE in a.value then "='" else "=\"";
      assert head + value == u;
      Regroup(Encode(a.value), [q], t);
      Regroup(head, Encode(a.value) + [q], t);
      Regroup(a.name, head + (Encode(a.value) + [q]), t);
    }
    NameRoundTrip(enc, a.name, u);
    assert u[0] == '=' && u[1..] == [q] + value && ([q] + value)[0] == q && ([q] + value)[1..] == value;
    assert SkipSpace(enc, To(u)) == To(u);
    assert SkipSpace(enc, To([q] + value)) == To([q] + value);
    AttributeValue(enc, a.value, q, t);
    assert (a.name + u)[0] == a.name[0];
  }

  lemma FindAttrNone(attrs: seq<Attr>, name: string)
    requires forall k :: 0 <= k < |attrs| ==> attrs[k].name != name
    ensures FindAttr(attrs, name) == |attrs|
  {
  }

  lemma TagStep(enc: Encoding, s: string, name: string, done: seq<Attr>, a: Attr, x: string, u: string)
    requires SkipSpace(enc, To(s)) == To(x) && s != "" && x != "" && x[0] != '/' && x[0] != '>'
    requires AttributeAt(enc, x) == ParsedAttr(a, To(u), NoError) && u != "" && FindAttr(done, a.name) == |done|
    ensures TagAt(enc, s, name, done) == TagAt(enc, u, name, done + [a])
  {
    hide AttributeAt, SkipSpace, FindAttr;
  }

  lemma FirstAttributeRoundTrip(enc: Encoding, name: string, attrs: seq<Attr>, done: seq<Attr>, t: string)
    requires GoodAttrs(enc, done + attrs) && attrs != [] && t != ""
    ensures TagAt(enc, PrintedAttrs(attrs) + t, name, done)
            == TagAt(enc, PrintedAttrs(attrs[1..]) + t, name, done + [attrs[0]])
  {
    hide PrintedAttr, PrintedAttrs, AttributeAt, TagAt, SkipWs, FindAttr, GoodValue, GoodAttrs;
    var a, u := attrs[0], PrintedAttrs(attrs[1..]) + t;
    FirstOfGoodAttrs(enc, done, attrs);
    AttributeRoundTrip(enc, a, u);
    PrintedAttrsStep(attrs, t);
    SkipWsOf(enc, " ", PrintedAttr(a) + u);
    FindAttrNone(done, a.name);
    TagStep(enc, " " + (PrintedAttr(a) + u), name, done, a, PrintedAttr(a) + u, u);
  }

  lemma NoAttributes(t: string)
    ensures PrintedAttrs([]) + t == t
  {
  }

  /** Reading the printed attributes adds them in their order. */
  lemma {:induction false} AttributesRoundTrip(enc: Encoding, name: string, attrs: seq<Attr>, done: seq<Attr>, t: string)
    requires GoodAttrs(enc, done + attrs) && t != ""
    ensures TagAt(enc, PrintedAttrs(attrs) + t, name, done) == TagAt(enc, t, name, done + attrs)
    decreases |attrs|
  {
    hide TagAt, GoodAttrs, PrintedAttrs;
    if attrs == [] {
      NoAttributes(t);
      assert done + attrs == done;
    } else {
      FirstAttributeRoundTrip(enc, name, attrs, done, t);
      assert done + [attrs[0]] + attrs[1..] == done + attrs;
      AttributesRoundTrip(enc, name, attrs[1..], done + [attrs[0]], t);
    }
  }

  lemma PrintedAttrsStep(attrs: seq<Attr>, t: string)
    requires attrs != []
    ensures PrintedAttrs(attrs) + t == " " + (PrintedAttr(attrs[0]) + (PrintedAttrs(attrs[1..]) + t))
  {
    hide PrintedAttr;
    Regroup(" ", PrintedAttr(attrs[0]) + PrintedAttrs(attrs[1..]), t);
    Regroup(PrintedAttr(attrs[0]), PrintedAttrs(attrs[1..]), t);
  }

  lemma FirstOfGoodAttrs(enc: Encoding, done: seq<Attr>, attrs: seq<Attr>)
    requires GoodAttrs(enc, done + attrs) && attrs != []
    ensures GoodName(enc, attrs[0].name) && GoodValue(enc, attrs[0].value)
    ensures forall k :: 0 <= k < |done| ==> done[k].name != attrs[0].name
  {
    var all := done + attrs;
    assert all[|done|] == attrs[0];
    assert forall k :: 0 <= k < |done| ==> all[k] == done[k];
  }

  // ---------- declarations ----------

  /** An attribute in double quotes, whatever they hold. */
  lemma QuotedAttribute(enc: Encoding, name: string, value: string)
    requires GoodName(enc, name)
    ensures var x := name + ("=\"" + value); var (v, stop) := RawText(enc, value, [QUOTE]);
            SkipSpace(enc, To(x)) == To(x)
            && AttributeAt(enc, x) == ParsedAttr(Attr(name, v), if stop.Null? then Null else To(Advance(stop.s, 1)), NoError)
  {
    hide RawText, NameOf, GoodName;
    var w := "=\"" + value;
    NameRoundTrip(enc, name, w);
    assert w[0] == '=' && w[1..] == "\"" + value && ("\"" + value)[0] == QUOTE && ("\"" + value)[1..] == value;
    assert SkipSpace(enc, To(w)) == To(w) && SkipSpace(enc, To("\"" + value)) == To("\"" + value);
  }

  predicate IsPartName(name: string) {
    name == "version" || name == "encoding" || name == "standalone"
  }

  function Behind(a: ParsedAttr): string {
    if a.rest.Null? then "" else a.rest.s
  }

  function Part(d: XmlNode, name: string): string
    requires d.Declaration? && IsPartName(name)
  {
    if name == "version" then d.version else if name == "encoding" then d.encoding else d.standalone
  }

  function WithPart(d: XmlNode, name: string, v: string): (r: XmlNode)
    requires d.Declaration? && IsPartName(name)
    ensures r.Declaration?
  {
    if name == "version" then d.(version := v)
    else if name == "encoding" then d.(encoding := v)
    else d.(standalone := v)
  }

  /** Reading on with the values of `d`. */
  function ReadOn(enc: Encoding, s: string, d: XmlNode): (r: Parsed)
    requires d.Declaration?
    ensures r.node.Declaration?
  {
    DeclarationFrom(enc, s, d.version, d.encoding, d.standalone)
  }

  lemma DifferentNames(s: string, name: string)
    requires IsPartName(name) && HasPrefixNoCase(s, name)
    ensures HasPrefixNoCase(s, "version") <==> name == "version"
    ensures HasPrefixNoCase(s, "encoding") <==> name == "encoding"
    ensures HasPrefixNoCase(s, "standalone") <==> name == "standalone"
  {
    assert ToLower(s[0]) == ToLower(name[0]);
  }

  lemma PartTaken(enc: Encoding, s: string, d: XmlNode, name: string)
    requires s != "" && s[0] != '>' && d.Declaration? && IsPartName(name) && HasPrefixNoCase(SkipWs(enc, s), name)
    ensures var a := AttributeAt(enc, SkipWs(enc, s));
            |Behind(a)| < |s| && ReadOn(enc, s, d) == ReadOn(enc, Behind(a), WithPart(d, name, a.attr.value))
  {
    hide AttributeAt, HasPrefixNoCase, SkipWs, DeclarationFrom, AfterWord;
    SkipSpaceIs(enc, s);
    DeclarationStep(enc, s, d.version, d.encoding, d.standalone);
    DifferentNames(SkipWs(enc, s), name);
  }

  lemma PartNameIsGood(enc: Encoding, name: string, t: string)
    requires IsPartName(name)
    ensures GoodName(enc, name) && HasPrefixNoCase(name + t, name)
  {
    assert forall k :: 0 <= k < |name| ==> (name + t)[k] == name[k];
  }

  lemma PartText(name: string, v: string, t: string)
    requires v != ""
    ensures DeclarationPart(name, v) + t == name + ("=\"" + (v + ("\"" + (" " + t))))
  {
    assert "\" " + t == "\"" + (" " + t);
    Regroup(v, "\" ", t);
    Regroup("=\"", v + "\" ", t);
    Regroup(name, "=\"" + (v + "\" "), t);
  }

  /** A printed value is read as an attribute. */
  lemma PartAttribute(enc: Encoding, name: string, v: string, t: string, d: XmlNode)
    requires IsPartName(name) && v != "" && d.Declaration?
    ensures var (w, stop) := RawText(enc, v + ("\"" + (" " + t)), [QUOTE]);
            ReadOn(enc, " " + (DeclarationPart(name, v) + t), d)
            == ReadOn(enc, if stop.Null? then "" else Advance(stop.s, 1), WithPart(d, name, w))
  {
    hide RawText, AttributeAt, ReadOn, SkipWs, HasPrefixNoCase, WithPart;
    var value := v + ("\"" + (" " + t));
    var x := name + ("=\"" + value);
    PartText(name, v, t);
    PartNameIsGood(enc, name, "=\"" + value);
    QuotedAttribute(enc, name, value);
    SkipWsOf(enc, " ", x);
    SkipSpaceIs(enc, x);
    assert (" " + x)[0] == ' ';
    PartTaken(enc, " " + x, d, name);
  }

  /** A plain value is taken, and the space behind it is left; an empty one is not printed. */
  lemma PartStep(enc: Encoding, name: string, v: string, t: string, d: XmlNode)
    requires IsPartName(name) && WellFormed(enc, v) && IsPlain(v) && d.Declaration? && Part(d, name) == ""
    ensures ReadOn(enc, " " + (DeclarationPart(name, v) + t), d) == ReadOn(enc, " " + t, WithPart(d, name, v))
  {
    hide ReadOn, RawText, WellFormed, IsPlain;
    if v == "" {
      assert "" + t == t;
    } else {
      PartAttribute(enc, name, v, t, d);
      PlainIff(enc, v, "\"" + (" " + t));
      assert Advance("\"" + (" " + t), 1) == " " + t;
    }
  }

  lemma QuestionMarkStays(enc: Encoding, rest: string)
    ensures var p := "?>" + rest;
            p[0] == '?' && SkipWs(enc, p) == p && AfterWord(p) == ">" + rest
            && !HasPrefixNoCase(p, "version") && !HasPrefixNoCase(p, "encoding") && !HasPrefixNoCase(p, "standalone")
  {
    var p := "?>" + rest;
    assert p[1..] == ">" + rest && (">" + rest)[0] == '>';
  }

  lemma DeclarationEnd(enc: Encoding, d: XmlNode, rest: string)
    requires d.Declaration?
    ensures ReadOn(enc, " " + ("?>" + rest), d) == Parsed(d, To(rest), NoError)
  {
    hide AttributeAt, DeclarationFrom, SkipWs, AfterWord;
    var p, end := "?>" + rest, ">" + rest;
    var s := " " + p;
    QuestionMarkStays(enc, rest);
    assert s[0] == ' ';
    SkipWsOf(enc, " ", p);
    SkipSpaceIs(enc, s);
    DeclarationStep(enc, s, d.version, d.encoding, d.standalone);
    assert end[0] == '>' && end[1..] == rest;
    DeclarationStops(enc, end, d.version, d.encoding, d.standalone);
  }

  lemma DeclarationHeader(enc: Encoding, t: string)
    ensures NodeAt(enc, "<?xml" + t) == ReadOn(enc, t, Declaration("", "", ""))
  {
    hide DeclarationFrom, CommentAt, CDataAt, UnknownAt, ElementAt;
    var s := "<?xml" + t;
    assert s[0] == '<' && s[5..] == t;
    assert SkipSpace(enc, To(s)) == To(s);
    assert HasPrefixNoCase(s, XML_HEADER);
  }

  /** Where an unquoted value ends, a character follows that no value starts with. */
  function Stopper(s: string): nat {
    if s != "" && EndsUnquoted(s[0]) then 1 else 0
  }

  lemma {:induction false} UnquotedAtMost(s: string)
    requires UnquotedAt(s).1.To?
    ensures var (v, q, _) := UnquotedAt(s); |v| + |q.s| <= |s| && (q.s == "" || EndsUnquoted(q.s[0]))
  {
    if s != "" && !EndsUnquoted(s[0]) {
      UnquotedAtMost(s[1..]);
    }
  }

  lemma PartNameLength(enc: Encoding, s: string, name: string)
    requires IsPartName(name) && HasPrefixNoCase(s, name)
    ensures s != "" && !EndsUnquoted(s[0]) && SkipWs(enc, s) == s && StartsName(s) && NameLength(s) >= |name|
  {
    assert forall k :: 0 <= k < |name| ==> 'a' <= ToLower(name[k]) <= 'z' && ToLower(s[k]) == ToLower(name[k]);
    assert IsNameChar(s[0]) && forall k :: 0 <= k < |name| ==> IsNameChar(s[k]);
  }

  /** An attribute takes its name, its value, the `=` and the two characters around the value. */
  lemma AttributeAtMost(enc: Encoding, s: string, name: string)
    requires IsPartName(name) && HasPrefixNoCase(s, name)
    requires Behind(AttributeAt(enc, s)) != ""
    ensures var a := AttributeAt(enc, s); |name| + |a.attr.value| + 2 + |Behind(a)| <= |s| + Stopper(Behind(a))
  {
    hide RawText, UnquotedAt, HasPrefixNoCase, SkipWs, EndsUnquoted;
    PartNameLength(enc, s, name);
    var eq := SkipSpace(enc, NameOf(To(s)).1);
    var v := SkipSpace(enc, To(eq.s[1..])).s;
    if v[0] == APOS || v[0] == QUOTE {
      RawAtMost(enc, v[1..], v[0]);
    } else {
      UnquotedAtMost(v);
    }
  }

  lemma WordPassed(enc: Encoding, s: string, d: XmlNode)
    requires s != "" && s[0] != '>' && d.Declaration?
    requires forall name :: IsPartName(name) ==> !HasPrefixNoCase(SkipWs(enc, s), name)
    ensures var t := AfterWord(SkipWs(enc, s)); |t| + Stopper(s) <= |s| && |t| < |s| && ReadOn(enc, s, d) == ReadOn(enc, t, d)
  {
    hide AttributeAt, HasPrefixNoCase, SkipWs, DeclarationFrom, AfterWord, Stopper;
    SkipSpaceIs(enc, s);
    DeclarationStep(enc, s, d.version, d.encoding, d.standalone);
    assert IsPartName("version") && IsPartName("encoding") && IsPartName("standalone");
    WordAtMost(enc, s);
  }

  lemma WordAtMost(enc: Encoding, s: string)
    requires s != "" && s[0] != '>'
    ensures |AfterWord(SkipWs(enc, s))| + Stopper(s) <= |s|
  {
  }

  lemma NameAtMost(enc: Encoding, s: string, name: string)
    requires s != "" && s[0] != '>' && IsPartName(name) && HasPrefixNoCase(SkipWs(enc, s), name)
    ensures |SkipWs(enc, s)| + Stopper(s) <= |s|
  {
    assert ToLower(SkipWs(enc, s)[0]) == ToLower(name[0]);
  }

  /** The characters that a value of the result takes, if it is not the one there was. */
  function Taken(was: XmlNode, now: XmlNode, name: string): nat
    requires was.Declaration? && now.Declaration? && IsPartName(name)
  {
    if Part(now, name) == Part(was, name) then 0 else |name| + 2 + |Part(now, name)|
  }

  function AllTaken(was: XmlNode, now: XmlNode): nat
    requires was.Declaration? && now.Declaration?
  {
    Taken(was, now, "version") + Taken(was, now, "encoding") + Taken(was, now, "standalone")
  }

  lemma TakenStep(was: XmlNode, now: XmlNode, name: string, v: string)
    requires was.Declaration? && now.Declaration? && IsPartName(name)
    ensures AllTaken(was, now) <= |name| + 2 + |v| + AllTaken(WithPart(was, name, v), now)
  {
  }

  lemma DeclarationEnds(enc: Encoding, s: string, d: XmlNode)
    requires d.Declaration? && (s == "" || s[0] == '>')
    ensures var r := ReadOn(enc, s, d);
            if s == "" then r.rest.Null?
            else AllTaken(d, r.node) == 0 && r.rest.To? && |r.rest.s| + 1 == |s| && Stopper(s) == 1
  {
    hide DeclarationFrom;
    DeclarationStops(enc, s, d.version, d.encoding, d.standalone);
  }

  /** The values of a declaration stand in front of what is left, each in a place of its own. */
  lemma {:induction false} DeclarationAtMost(enc: Encoding, s: string, d: XmlNode)
    requires d.Declaration? && ReadOn(enc, s, d).rest.To?
    ensures var r := ReadOn(enc, s, d); AllTaken(d, r.node) + |r.rest.s| + Stopper(s) <= |s|
    decreases |s|
  {
    hide *;
    if s == "" || s[0] == '>' {
      DeclarationEnds(enc, s, d);
    } else if name :| IsPartName(name) && HasPrefixNoCase(SkipWs(enc, s), name) {
      var p := SkipWs(enc, s);
      var a := AttributeAt(enc, p);
      PartTaken(enc, s, d, name);
      NameAtMost(enc, s, name);
      var d1 := WithPart(d, name, a.attr.value);
      if Behind(a) == "" {
        DeclarationEnds(enc, "", d1);
      }
      DeclarationAtMost(enc, Behind(a), d1);
      AttributeAtMost(enc, p, name);
      TakenStep(d, ReadOn(enc, s, d).node, name, a.attr.value);
    } else {
      WordPassed(enc, s, d);
      DeclarationAtMost(enc, AfterWord(SkipWs(enc, s)), d);
    }
  }

  /** What is printed behind a value. */
  function After(d: XmlNode, name: string, rest: string): string
    requires d.Declaration? && IsPartName(name)
  {
    if name == "standalone" then "?>" + rest
    else
      var last := DeclarationPart("standalone", d.standalone) + ("?>" + rest);
      if name == "encoding" then last else DeclarationPart("encoding", d.encoding) + last
  }

  /** The characters that the values printed behind a value take at least. */
  function TakenAfter(d: XmlNode, name: string): nat
    requires d.Declaration? && IsPartName(name)
  {
    var none := Declaration("", "", "");
    if name == "standalone" then 0
    else
      var last := Taken(none, d, "standalone");
      if name == "encoding" then last else Taken(none, d, "encoding") + last
  }

  lemma QuoteInPart(name: string, v: string, t: string, k: nat)
    requires IsPartName(name) && v != "" && k < |DeclarationPart(name, v) + t|
             && (DeclarationPart(name, v) + t)[k] == QUOTE
    ensures k > |name| && |DeclarationPart(name, v) + t| == |name| + |v| + 4 + |t|
  {
    var s := DeclarationPart(name, v) + t;
    assert forall j :: 0 <= j < |name| ==> s[j] == name[j];
    assert s[|name|] == '=';
  }

  lemma PartLength(name: string, v: string)
    ensures |DeclarationPart(name, v)| == if v == "" then 0 else |name| + |v| + 4
  {
  }

  lemma AfterLength(d: XmlNode, name: string, rest: string)
    requires d.Declaration? && IsPartName(name)
    ensures |After(d, name, rest)| <= |rest| + TakenAfter(d, name) + 6
  {
    PartLength("encoding", d.encoding);
    PartLength("standalone", d.standalone);
  }

  lemma AfterStep(d: XmlNode, name: string, next: string, rest: string)
    requires d.Declaration?
    requires (name == "version" && next == "encoding") || (name == "encoding" && next == "standalone")
    ensures After(d, name, rest) == DeclarationPart(next, Part(d, next)) + After(d, next, rest)
    ensures Part(d, next) == "" ==> After(d, name, rest) == After(d, next, rest)
    ensures TakenAfter(d, name)
            == TakenAfter(d, next) + (if Part(d, next) == "" then 0 else |next| + 2 + |Part(d, next)|)
  {
    assert "" + After(d, next, rest) == After(d, next, rest);
  }

  /** A quote behind a value leaves too little for the values that follow. */
  lemma {:induction false} QuoteInAfter(d: XmlNode, name: string, rest: string, k: nat)
    requires d.Declaration? && IsPartName(name) && k < |After(d, name, rest)| && After(d, name, rest)[k] == QUOTE
    ensures |After(d, name, rest)| - k <= |rest| + TakenAfter(d, name)
    decreases name == "version", name == "encoding"
  {
    hide DeclarationPart, TakenAfter, After;
    if name == "standalone" {
      QuoteInRest(d, rest, k);
    } else {
      var next := if name == "version" then "encoding" else "standalone";
      AfterStep(d, name, next, rest);
      if Part(d, next) == "" {
        QuoteInAfter(d, next, rest, k);
      } else {
        QuoteInPart(next, Part(d, next), After(d, next, rest), k);
        AfterLength(d, next, rest);
      }
    }
  }

  lemma QuoteInRest(d: XmlNode, rest: string, k: nat)
    requires d.Declaration? && k < |After(d, "standalone", rest)| && After(d, "standalone", rest)[k] == QUOTE
    ensures |After(d, "standalone", rest)| - k <= |rest|
  {
    var end := "?>" + rest;
    assert end[0] == '?' && end[1] == '>';
  }

  /** A suffix that starts with a quote, but not with the one behind the value. */
  lemma QuoteBehind(v: string, t: string, s: string)
    requires var e := v + ("\"" + (" " + t)); 0 < |s| <= |t| + 2 && s == e[|e| - |s|..] && s[0] == QUOTE
    requires s != "\"" + (" " + t)
    ensures |s| <= |t| && t[|t| - |s|] == QUOTE
  {
    var tail := "\"" + (" " + t);
    var e := v + tail;
    CutAt(v, tail);
    assert e[|v| + 1] == ' ';
    assert forall k :: 0 <= k < |t| ==> e[|v| + 2 + k] == t[k];
    assert s[0] == e[|e| - |s|];
  }

  /** Reading up to a quote either misses the value, or stops at a later quote. */
  lemma ValueMisread(enc: Encoding, v: string, tail: string)
    requires WellFormed(enc, v) && !IsPlain(v) && tail != "" && tail[0] == QUOTE
    requires var r := RawText(enc, v + tail, [QUOTE]); r.1.To? && r.1.s != ""
    ensures var (w, q) := RawText(enc, v + tail, [QUOTE]); var e := v + tail;
            |w| + |q.s| <= |e| && q.s == e[|e| - |q.s|..] && q.s[0] == QUOTE && (w == v ==> q.s != tail)
  {
    hide *;
    RawAtMost(enc, v + tail, QUOTE);
    PlainIff(enc, v, tail);
  }

  /** A value that is not plain reads as another one, or reading goes on behind a later quote. */
  lemma PartMisread(enc: Encoding, name: string, v: string, t: string, d: XmlNode) returns (w: string, u: string)
    requires IsPartName(name) && WellFormed(enc, v) && !IsPlain(v) && d.Declaration?
    ensures ReadOn(enc, " " + (DeclarationPart(name, v) + t), d) == ReadOn(enc, u, WithPart(d, name, w))
    ensures u != "" ==> |u| <= |v| + |t| + 1
    ensures u != "" && w == v ==> exists k :: 0 <= k < |t| && t[k] == QUOTE && |u| < |t| - k
  {
    hide RawText, ReadOn, WellFormed, WithPart, DeclarationPart;
    var tail := "\"" + (" " + t);
    var (value, stop) := RawText(enc, v + tail, [QUOTE]);
    PartAttribute(enc, name, v, t, d);
    w, u := value, if stop.Null? then "" else Advance(stop.s, 1);
    if u != "" {
      ValueMisread(enc, v, tail);
      if w == v {
        QuoteBehind(v, t, stop.s);
      }
    }
  }

  /** The values behind one that was misread, and that one if it still has to be found, do not fit into what is left. */
  lemma TooLittleLeft(enc: Encoding, name: string, rest: string, d: XmlNode, want: XmlNode, w: string, u: string)
    requires IsPartName(name) && d.Declaration? && want.Declaration?
    requires TakenAfter(d, name) == 0 && u != ""
    requires |u| <= |Part(want, name)| + |After(want, name, rest)| + 1
    requires w == Part(want, name) ==> |u| < |rest| + TakenAfter(want, name)
    ensures ReadOn(enc, u, WithPart(d, name, w)) != Parsed(want, To(rest), NoError)
  {
    hide ReadOn, After;
    var d1 := WithPart(d, name, w);
    if ReadOn(enc, u, d1) == Parsed(want, To(rest), NoError) {
      DeclarationAtMost(enc, u, d1);
      AfterLength(want, name, rest);
    }
  }

  /** A value that is not plain spoils a printed declaration. */
  lemma PartSpoils(enc: Encoding, name: string, rest: string, d: XmlNode, want: XmlNode)
    requires IsPartName(name) && d.Declaration? && want.Declaration? && TakenAfter(d, name) == 0
    requires WellFormed(enc, Part(want, name)) && !IsPlain(Part(want, name))
    ensures ReadOn(enc, " " + (DeclarationPart(name, Part(want, name)) + After(want, name, rest)), d)
            != Parsed(want, To(rest), NoError)
  {
    hide ReadOn, After, TakenAfter, DeclarationPart, WithPart, WellFormed, IsPlain;
    var v, t := Part(want, name), After(want, name, rest);
    var w, u := PartMisread(enc, name, v, t, d);
    if u == "" {
      DeclarationEnds(enc, u, WithPart(d, name, w));
    } else {
      if w == v {
        var k :| 0 <= k < |t| && t[k] == QUOTE && |u| < |t| - k;
        QuoteInAfter(want, name, rest, k);
      }
      TooLittleLeft(enc, name, rest, d, want, w, u);
    }
  }

  lemma PrintedText(enc: Encoding, d: XmlNode, rest: string)
    requires d.Declaration?
    ensures NodeAt(enc, PrintedDeclaration(d.version, d.encoding, d.standalone) + rest)
            == ReadOn(enc, " " + (DeclarationPart("version", d.version) + After(d, "version", rest)), Declaration("", "", ""))
  {
    hide ReadOn, DeclarationPart, NodeAt;
    var a, b, c := DeclarationPart("version", d.version), DeclarationPart("encoding", d.encoding),
                   DeclarationPart("standalone", d.standalone);
    var t := a + (b + (c + ("?>" + rest)));
    assert PrintedDeclaration(d.version, d.encoding, d.standalone) + rest == "<?xml" + (" " + t) by {
      Regroup(c, "?>", rest);
      Regroup(b, c + "?>", rest);
      Regroup(a, b + (c + "?>"), rest);
      Regroup("<?xml ", a + (b + (c + "?>")), rest);
      assert "<?xml " == "<?xml" + " ";
      Regroup("<?xml", " ", t);
    }
    DeclarationHeader(enc, " " + t);
  }

  /** A printed declaration reads back as itself, up to what follows, exactly if its values are plain. */
  lemma DeclarationRoundTripIff(enc: Encoding, version: string, encoding: string, standalone: string, rest: string)
    requires WellFormed(enc, version) && WellFormed(enc, encoding) && WellFormed(enc, standalone)
    ensures NodeAt(enc, PrintedDeclaration(version, encoding, standalone) + rest)
            == Parsed(Declaration(version, encoding, standalone), To(rest), NoError)
            <==> IsPlain(version) && IsPlain(encoding) && IsPlain(standalone)
  {
    hide ReadOn, DeclarationPart, NodeAt, IsPlain, WellFormed;
    var want := Declaration(version, encoding, standalone);
    var d0, d1, d2 := Declaration("", "", ""), Declaration(version, "", ""), Declaration(version, encoding, "");
    PrintedText(enc, want, rest);
    if !IsPlain(version) {
      PartSpoils(enc, "version", rest, d0, want);
    } else {
      PartStep(enc, "version", version, After(want, "version", rest), d0);
      if !IsPlain(encoding) {
        PartSpoils(enc, "encoding", rest, d1, want);
      } else {
        PartStep(enc, "encoding", encoding, After(want, "encoding", rest), d1);
        if !IsPlain(standalone) {
          PartSpoils(enc, "standalone", rest, d2, want);
        } else {
          PartStep(enc, "standalone", standalone, After(want, "standalone", rest), d2);
          DeclarationEnd(enc, want, rest);
        }
      }
    }
  }

  // ---------- children ----------

  lemma LinesSplit(f: Format, kids: seq<XmlNode>, depth: nat, tail: string)
    requires kids != []
    ensures Lines(f, kids, depth) + tail
            == Indentation(f, depth) + (Body(f, kids[0], depth) + (f.lineBreak + (Lines(f, kids[1..], depth) + tail)))
  {
    hide Body, Indentation;
    var i, b, more := Indentation(f, depth), Body(f, kids[0], depth), Lines(f, kids[1..], depth);
    Regroup(i, b + f.lineBreak, more);
    Regroup(i, b + f.lineBreak + more, tail);
    Regroup(b, f.lineBreak, more);
    Regroup(b, f.lineBreak + more, tail);
    Regroup(f.lineBreak, more, tail);
  }

  lemma BodyStartsTag(f: Format, n: XmlNode, depth: nat, rest: string)
    requires !IsPlainText(n)
    ensures var s := Body(f, n, depth) + rest; s != "" && s[0] == '<'
  {
    hide Inner, PrintedAttrs;
  }

  /** The lines of children that do not start with a text lead to a tag. */
  lemma LinesLeadToTag(enc: Encoding, f: Format, kids: seq<XmlNode>, depth: nat, tail: string)
    requires BlankFormat(f) && TagAhead(tail) && PrintableKids(enc, kids)
    requires kids != [] ==> !IsPlainText(kids[0])
    ensures TagAhead(Lines(f, kids, depth) + tail)
    ensures DropWhite(Lines(f, kids, depth) + tail) ==
            if kids == [] then DropWhite(tail)
            else Body(f, kids[0], depth) + (f.lineBreak + (Lines(f, kids[1..], depth) + tail))
  {
    if kids == [] {
      assert Lines(f, kids, depth) + tail == tail;
    } else {
      hide Body, Lines;
      LinesSplit(f, kids, depth, tail);
      var more := f.lineBreak + (Lines(f, kids[1..], depth) + tail);
      assert Printable(enc, kids[0]);
      BodyStartsTag(f, kids[0], depth, more);
      IndentationIsWhite(f, depth);
      DropWhiteOf(Indentation(f, depth), Body(f, kids[0], depth) + more);
    }
  }

  lemma RestOfKids(enc: Encoding, kids: seq<XmlNode>)
    requires PrintableKids(enc, kids) && kids != []
    ensures PrintableKids(enc, kids[1..]) && Printable(enc, kids[0]) && NotClosing(kids[0])
    ensures IsPlainText(kids[0]) && |kids| > 1 ==> !IsPlainText(kids[1])
  {
  }

  lemma TextNodesAt(enc: Encoding, v: string, tail: string)
    requires GoodText(enc, v) && TagAhead(tail)
    ensures SkipSpace(enc, To(Encode(v) + tail)) == To(Encode(v) + tail)
    ensures var more := NodesAt(enc, To(DropWhite(tail)));
            NodesAt(enc, To(Encode(v) + tail)) == more.(nodes := [Text(v, false)] + more.nodes)
  {
    hide Encode, SkipWs, TextOf, NodeAt;
    TrimmedIdentityIff(enc, v, tail);
    SkipToTag(enc, tail);
    TextStart(enc, v, tail);
  }

  lemma TextStart(enc: Encoding, v: string, tail: string)
    requires GoodText(enc, v)
    ensures var s := Encode(v) + tail; s != "" && s[0] != '<' && SkipWs(enc, s) == s
  {
    assert v != "" by { assert AllWhite(""); }
    hide Encode, SkipWs;
    LeadIdentityIff(enc, v);
    SkipWsOfEncode(enc, v, tail);
    NoHexRefStart(v);
    EncodedHead(enc, v);
    assert (Encode(v) + tail)[0] == Head(enc, v)[0];
  }

  lemma NoHexRefStart(v: string)
    requires NoHexRef(v)
    ensures !StartsHexRef(v)
  {
    if |v| >= 3 {
      assert 0 <= 0 < |v| - 2 && (v[0] == v[0]);
    }
  }

  lemma EndTagNodes(enc: Encoding, s: string)
    requires HasPrefix(s, "</")
    ensures NodesAt(enc, To(s)) == ParsedNodes([], To(s), NoError)
  {
    hide NodeAt, TextOf;
    assert s[0] == "</"[0];
  }

  lemma NotEndTag(f: Format, enc: Encoding, n: XmlNode, depth: nat, rest: string)
    requires Printable(enc, n) && NotClosing(n) && !IsPlainText(n)
    ensures !HasPrefix(Body(f, n, depth) + rest, "</")
  {
    hide Inner, PrintedAttrs, KindOf;
    var s := Body(f, n, depth) + rest;
    assert |Body(f, n, depth)| >= 2 && s[1] == Body(f, n, depth)[1] && s[1] != '/' && "</"[1] == '/';
  }

  /** A child that is no text, once it reads back by itself. */
  lemma TagKid(enc: Encoding, f: Format, n: XmlNode, depth: nat, t: string)
    requires Printable(enc, n) && NotClosing(n) && !IsPlainText(n)
    requires NodeAt(enc, Body(f, n, depth) + t) == Parsed(n, To(t), NoError)
    ensures var more := NodesAt(enc, SkipSpace(enc, To(t)));
            NodesAt(enc, To(Body(f, n, depth) + t)) == ParsedNodes([n] + more.nodes, more.rest, more.err)
  {
    BodyStartsTag(f, n, depth, t);
    NotEndTag(f, enc, n, depth, t);
    hide Body, NodeAt, TextOf, SkipSpace, Printable;
  }

  /** A text child in front of further children or the end tag. */
  lemma TextKid(enc: Encoding, f: Format, kids: seq<XmlNode>, depth: nat, tail: string)
    requires BlankFormat(f) && PrintableKids(enc, kids) && TagAhead(tail)
    requires kids != [] && IsPlainText(kids[0])
    ensures var rest := Lines(f, kids[1..], depth) + tail;
            var more := NodesAt(enc, SkipSpace(enc, To(rest)));
            NodesAt(enc, SkipSpace(enc, To(Lines(f, kids, depth) + tail)))
            == more.(nodes := [kids[0]] + more.nodes)
  {
    hide Encode, Lines, NodesAt, SkipWs, DropWhite, GoodText, Indentation;
    var v, rest := kids[0].value, Lines(f, kids[1..], depth) + tail;
    assert Printable(enc, kids[0]);
    RestOfKids(enc, kids);
    LinesLeadToTag(enc, f, kids[1..], depth, tail);
    DropWhiteOf(f.lineBreak, rest);
    TextNodesAt(enc, v, f.lineBreak + rest);
    SkipToTag(enc, rest);
    LinesSplit(f, kids, depth, tail);
    IndentationIsWhite(f, depth);
    SkipWsOf(enc, Indentation(f, depth), Encode(v) + (f.lineBreak + rest));
    TextStart(enc, v, f.lineBreak + rest);
    SkipSpaceIs(enc, Lines(f, kids, depth) + tail);
  }

  /** Reading the lines of the children up to an end tag gives the children. */
  lemma {:induction false} KidsRoundTrip(enc: Encoding, f: Format, kids: seq<XmlNode>, depth: nat, tail: string)
    requires BlankFormat(f) && PrintableKids(enc, kids) && TagAhead(tail) && HasPrefix(DropWhite(tail), "</")
    ensures NodesAt(enc, SkipSpace(enc, To(Lines(f, kids, depth) + tail)))
            == ParsedNodes(kids, To(DropWhite(tail)), NoError)
    decreases kids, 0
  {
    hide NodeAt, TextOf, SkipWs, DropWhite, Printable, GoodText, HasPrefix, NodesAt, Body, Indentation;
    if kids == [] {
      assert Lines(f, kids, depth) + tail == tail;
      SkipToTag(enc, tail);
      EndTagNodes(enc, DropWhite(tail));
    } else {
      var n, rest := kids[0], kids[1..];
      assert [n] + rest == kids;
      RestOfKids(enc, kids);
      KidsRoundTrip(enc, f, rest, depth, tail);
      if IsPlainText(n) {
        TextKid(enc, f, kids, depth, tail);
      } else {
        var more := Lines(f, rest, depth) + tail;
        hide Lines;
        NodeRoundTrip(enc, f, n, depth, f.lineBreak + more);
        TagKid(enc, f, n, depth, f.lineBreak + more);
        TagLine(enc, f, kids, depth, tail);
      }
    }
  }

  /** The white space around a child that is no text does not matter. */
  lemma TagLine(enc: Encoding, f: Format, kids: seq<XmlNode>, depth: nat, tail: string)
    requires BlankFormat(f) && PrintableKids(enc, kids) && TagAhead(tail) && kids != [] && !IsPlainText(kids[0])
    ensures var more := Lines(f, kids[1..], depth) + tail;
            SkipSpace(enc, To(Lines(f, kids, depth) + tail)) == To(Body(f, kids[0], depth) + (f.lineBreak + more))
            && SkipSpace(enc, To(f.lineBreak + more)) == SkipSpace(enc, To(more))
  {
    hide Lines, Body, SkipWs, Indentation, Printable;
    var more := Lines(f, kids[1..], depth) + tail;
    RestOfKids(enc, kids);
    LinesLeadToTag(enc, f, kids, depth, tail);
    SkipToTag(enc, Lines(f, kids, depth) + tail);
    SkipWsOf(enc, f.lineBreak, more);
    SkipSpaceIs(enc, more);
    SkipSpaceIs(enc, f.lineBreak + more);
  }

  // ---------- nodes ----------

  /** What stands between the tags of an element reads back as its children. */
  lemma InnerRoundTrip(enc: Encoding, f: Format, kids: seq<XmlNode>, depth: nat, closing: string)
    requires BlankFormat(f) && PrintableKids(enc, kids) && HasPrefix(closing, "</")
    ensures NodesAt(enc, SkipSpace(enc, To(Inner(f, kids, depth) + closing))) == ParsedNodes(kids, To(closing), NoError)
    decreases kids, 1
  {
    hide Encode, Lines, NodesAt, SkipWs, Indentation, GoodText;
    assert closing[0] == "</"[0] && !IsWhiteSpace(closing[0]);
    assert DropWhite(closing) == closing;
    EndTagNodes(enc, closing);
    if OneText(kids) {
      assert Printable(enc, kids[0]);
      TextNodesAt(enc, kids[0].value, closing);
      assert [Text(kids[0].value, false)] + [] == kids;
    } else {
      var lines, ind := Lines(f, kids, depth + 1), Indentation(f, depth);
      var tail := ind + closing;
      IndentationIsWhite(f, depth);
      DropWhiteOf(ind, closing);
      KidsRoundTrip(enc, f, kids, depth + 1, tail);
      Regroup(f.lineBreak, lines + ind, closing);
      Regroup(lines, ind, closing);
      SkipWsOf(enc, f.lineBreak, lines + tail);
      SkipSpaceIs(enc, f.lineBreak + (lines + tail));
      SkipSpaceIs(enc, lines + tail);
    }
  }

  lemma ClosingTag(name: string, rest: string)
    ensures var closing := "</" + (name + (">" + rest)); var endTag := "</" + name + ">";
            closing == endTag + rest && HasPrefix(closing, endTag) && HasPrefix(closing, "</")
            && closing[|endTag|..] == rest
  {
    Regroup("</", name, ">" + rest);
    Regroup("</" + name, ">", rest);
    CutAt("</" + name + ">", rest);
  }

  /** The end of an element without children. */
  lemma EmptyTagAt(enc: Encoding, name: string, attrs: seq<Attr>, rest: string)
    ensures TagAt(enc, " />" + rest, name, attrs) == Parsed(Element(name, attrs, []), To(rest), NoError)
  {
    hide NodesAt, AttributeAt;
    var s := " />" + rest;
    assert s[0] == ' ' && s[1..] == "/>" + rest;
    assert SkipWs(enc, "/>" + rest) == "/>" + rest;
    assert ("/>" + rest)[2..] == rest && ("/>" + rest)[1] == '>';
  }

  /** The end of the start tag, the children and the end tag. */
  lemma FullTagAt(enc: Encoding, f: Format, name: string, attrs: seq<Attr>, kids: seq<XmlNode>, depth: nat, rest: string)
    requires BlankFormat(f) && PrintableKids(enc, kids)
    ensures TagAt(enc, ">" + (Inner(f, kids, depth) + ("</" + (name + (">" + rest)))), name, attrs)
            == Parsed(Element(name, attrs, kids), To(rest), NoError)
    decreases kids, 2
  {
    hide NodesAt, AttributeAt, Inner;
    var closing := "</" + (name + (">" + rest));
    var s := ">" + (Inner(f, kids, depth) + closing);
    ClosingTag(name, rest);
    InnerRoundTrip(enc, f, kids, depth, closing);
    assert s[0] == '>' && s[1..] == Inner(f, kids, depth) + closing;
    assert SkipSpace(enc, To(s)) == To(s);
  }

  lemma ElementStart(enc: Encoding, name: string, t: string)
    requires GoodName(enc, name) && t != "" && (t[0] == ' ' || t[0] == '>')
    ensures NodeAt(enc, "<" + (name + t)) == TagAt(enc, t, name, [])
  {
    hide TagAt, NameOf;
    var s := "<" + (name + t);
    KindOfElement(name, t);
    NameRoundTrip(enc, name, t);
    assert s[0] == '<' && s[1..] == name + t;
    assert SkipSpace(enc, To(s)) == To(s);
    assert NodeAt(enc, s) == ElementAt(enc, s) by { hide ElementAt; }
    hide KindOf;
  }

  /** Attributes with names are all printed. */
  lemma GoodAttrsShown(enc: Encoding, attrs: seq<Attr>)
    requires GoodAttrs(enc, attrs)
    ensures Shown(attrs) == attrs
  {
    ShownIff(attrs);
  }

  lemma ElementBody(f: Format, n: XmlNode, depth: nat, rest: string)
    requires n.Element? && Shown(n.attrs) == n.attrs
    ensures Body(f, n, depth) + rest == "<" + (n.name + (PrintedAttrs(n.attrs) + (
              if n.kids == [] then " />" + rest
              else ">" + (Inner(f, n.kids, depth) + ("</" + (n.name + (">" + rest)))))))
  {
    hide Inner, PrintedAttrs;
    var close := if n.kids == [] then " />" else ">" + (Inner(f, n.kids, depth) + ("</" + (n.name + ">")));
    Regroup("<", n.name + (PrintedAttrs(n.attrs) + close), rest);
    Regroup(n.name, PrintedAttrs(n.attrs) + close, rest);
    Regroup(PrintedAttrs(n.attrs), close, rest);
    var inner := Inner(f, n.kids, depth);
    Regroup(">", inner + ("</" + (n.name + ">")), rest);
    Regroup(inner, "</" + (n.name + ">"), rest);
    Regroup("</", n.name + ">", rest);
    Regroup(n.name, ">", rest);
  }

  lemma ElementRoundTrip(enc: Encoding, f: Format, n: XmlNode, depth: nat, rest: string)
    requires BlankFormat(f) && Printable(enc, n) && n.Element?
    ensures NodeAt(enc, Body(f, n, depth) + rest) == Parsed(n, To(rest), NoError)
    decreases n, 1
  {
    hide Inner, PrintedAttrs, NodeAt, TagAt, Body;
    var t := if n.kids == [] then " />" + rest
             else ">" + (Inner(f, n.kids, depth) + ("</" + (n.name + (">" + rest))));
    GoodAttrsShown(enc, n.attrs);
    ElementBody(f, n, depth, rest);
    assert [] + n.attrs == n.attrs;
    AttributesRoundTrip(enc, n.name, n.attrs, [], t);
    AttributesStart(n.attrs, t);
    ElementStart(enc, n.name, PrintedAttrs(n.attrs) + t);
    if n.kids == [] {
      EmptyTagAt(enc, n.name, n.attrs, rest);
    } else {
      FullTagAt(enc, f, n.name, n.attrs, n.kids, depth, rest);
    }
  }

  lemma AttributesStart(attrs: seq<Attr>, t: string)
    requires t != "" && (t[0] == ' ' || t[0] == '>')
    ensures var s := PrintedAttrs(attrs) + t; s != "" && (s[0] == ' ' || s[0] == '>')
  {
    hide PrintedAttr;
    if attrs == [] {
      assert PrintedAttrs(attrs) + t == t;
    }
  }

  /** A printed node that is no plain text parses back to itself, up to what follows it. */
  lemma {:induction false} NodeRoundTrip(enc: Encoding, f: Format, n: XmlNode, depth: nat, rest: string)
    requires BlankFormat(f) && Printable(enc, n) && !IsPlainText(n)
    ensures NodeAt(enc, Body(f, n, depth) + rest) == Parsed(n, To(rest), NoError)
    decreases n, 2
  {
    hide NodeAt;
    match n
    case Element(_, _, _) =>
      ElementRoundTrip(enc, f, n, depth, rest);
    case Comment(v) =>
      CommentRoundTrip(enc, v, rest);
      Regroup("<!--", v + "-->", rest);
      Regroup(v, "-->", rest);
    case Text(v, _) =>
      CDataRoundTrip(enc, v, rest);
      Regroup("<![CDATA[", v + "]]>", rest);
      Regroup(v, "]]>", rest);
    case Declaration(version, encoding, standalone) =>
      DeclarationRoundTripIff(enc, version, encoding, standalone, rest);
    case Unknown(v) =>
      UnknownRoundTrip(enc, v, rest);
      Regroup("<", v + ">", rest);
      Regroup(v, ">", rest);
  }

  // ---------- documents ----------

  /** Nodes that can be printed in the encodings that the declarations among them set. */
  predicate PrintableNodes(enc: Encoding, nodes: seq<XmlNode>)
    decreases |nodes|
  {
    nodes == [] || (Printable(enc, nodes[0]) && PrintableNodes(EncodingAfter(enc, nodes[0]), nodes[1..]))
  }

  /** The children a document can have: no plain text. */
  predicate PrintableDocument(enc: Encoding, nodes: seq<XmlNode>) {
    PrintableNodes(enc, nodes) && forall k :: 0 <= k < |nodes| ==> !IsPlainText(nodes[k])
  }

  lemma {:induction false} DocumentNodesRoundTrip(enc: Encoding, f: Format, nodes: seq<XmlNode>)
    requires BlankFormat(f) && PrintableDocument(enc, nodes)
    ensures var d := DocumentNodesAt(enc, SkipSpace(enc, To(Lines(f, nodes, 0))));
            d.nodes == nodes && AtEnd(d.rest) && d.err.NoError?
    decreases |nodes|
  {
    hide NodeAt, SkipWs, Body, Printable, EncodingAfter;
    if nodes != [] {
      var n, rest := nodes[0], nodes[1..];
      var more, e := Lines(f, rest, 0), EncodingAfter(enc, n);
      assert forall k :: 0 <= k < |rest| ==> rest[k] == nodes[k + 1];
      DocumentNodesRoundTrip(e, f, rest);
      NodeRoundTrip(enc, f, n, 0, f.lineBreak + more);
      BodyStartsTag(f, n, 0, f.lineBreak + more);
      DocumentLine(f, nodes);
      TagStays(enc, Body(f, n, 0) + (f.lineBreak + more));
      SkipWsOf(e, f.lineBreak, more);
      SkipWsEmpty(e);
      assert [n] + rest == nodes;
      hide Lines;
      assert AtEnd(SkipSpace(e, To(f.lineBreak + more))) || SkipSpace(e, To(f.lineBreak + more)) == SkipSpace(e, To(more));
    }
  }

  lemma SkipWsEmpty(enc: Encoding)
    ensures SkipWs(enc, "") == ""
  {
  }

  lemma DocumentLine(f: Format, nodes: seq<XmlNode>)
    requires nodes != []
    ensures Lines(f, nodes, 0) == Body(f, nodes[0], 0) + (f.lineBreak + Lines(f, nodes[1..], 0))
  {
    hide Body;
    LinesSplit(f, nodes, 0, "");
    assert Lines(f, nodes, 0) + "" == Lines(f, nodes, 0);
    assert Lines(f, nodes[1..], 0) + "" == Lines(f, nodes[1..], 0);
    var b := Body(f, nodes[0], 0) + (f.lineBreak + Lines(f, nodes[1..], 0));
    assert "" + b == b;
  }

  /** Printing a document and parsing the output gives the same document without an error, also when a declaration sets
      the encoding on the way; only a document without children is reported as empty. */
  lemma DocumentRoundTrip(enc: Encoding, f: Format, nodes: seq<XmlNode>)
    requires BlankFormat(f) && PrintableDocument(enc, nodes)
    ensures var d := DocumentAt(enc, Lines(f, nodes, 0));
            d.nodes == nodes && AtEnd(d.rest) && (d.err.NoError? <==> nodes != [])
  {
    if nodes != [] {
      hide Body, DocumentNodesAt, Lines, SkipSpace;
      DocumentNodesRoundTrip(enc, f, nodes);
      DocumentLine(f, nodes);
      BodyStartsTag(f, nodes[0], 0, f.lineBreak + Lines(f, nodes[1..], 0));
    }
  }

  /** No input makes the parser read a plain text among the children of the document itself. */
  lemma {:induction false} DocumentReadsNoText(enc: Encoding, p: Ptr)
    ensures forall k :: 0 <= k < |DocumentNodesAt(enc, p).nodes| ==> !IsPlainText(DocumentNodesAt(enc, p).nodes[k])
    decreases if p.To? then |p.s| else 0
  {
    hide NodeAt, SkipSpace;
    if !AtEnd(p) {
      NodeIsNoText(enc, p.s);
      var n := NodeAt(enc, p.s);
      var e := EncodingAfter(enc, n.node);
      NodeShrinks(enc, p.s, e);
      var next := SkipSpace(e, n.rest);
      DocumentReadsNoText(e, next);
      var d, more := DocumentNodesAt(enc, p), DocumentNodesAt(e, next);
      assert d.nodes == [] || d.nodes == [NodeAt(enc, p.s).node] + more.nodes;
      forall k | 0 <= k < |d.nodes|
        ensures !IsPlainText(d.nodes[k])
      {
        assert k == 0 || d.nodes[k] == more.nodes[k - 1];
      }
    }
  }

  lemma NodeShrinks(enc: Encoding, s: string, e: Encoding)
    requires s != ""
    ensures var p := SkipSpace(e, NodeAt(enc, s).rest); p.To? ==> |p.s| < |s|
  {
  }

  lemma NodeIsNoText(enc: Encoding, s: string)
    requires s != ""
    ensures !IsPlainText(NodeAt(enc, s).node)
  {
  }

  /** So a document of nodes that can be printed comes back exactly when none of them is a plain text. */
  lemma DocumentRoundTripIff(enc: Encoding, f: Format, nodes: seq<XmlNode>)
    requires BlankFormat(f) && PrintableNodes(enc, nodes)
    ensures DocumentAt(enc, Lines(f, nodes, 0)).nodes == nodes <==> forall k :: 0 <= k < |nodes| ==>
              !IsPlainText(nodes[k])
  {
    hide Printable, PrintableNodes, Lines;
    if forall k :: 0 <= k < |nodes| ==> !IsPlainText(nodes[k]) {
      DocumentRoundTrip(enc, f, nodes);
    } else {
      hide DocumentNodesAt, SkipSpace;
      var s := Lines(f, nodes, 0);
      var e := if enc.Undeclared? && StartsWithBom(s) then Utf8 else enc;
      DocumentReadsNoText(e, SkipSpace(e, To(s)));
    }
  }

  /** The whole way through the printer object and the parser. */
  method PrintAndParse(nodes: seq<XmlNode>, indent: string, lineBreak: string, enc: Encoding) returns (d: ParsedNodes)
    requires AllWhite(indent) && AllWhite(lineBreak) && PrintableDocument(enc, nodes)
    ensures d.nodes == nodes && AtEnd(d.rest) && (d.err.NoError? <==> nodes != [])
  {
    var text := PrintDocument(nodes, indent, lineBreak);
    d := ParseDocument(text, enc);
    DocumentRoundTrip(enc, Format(indent, lineBreak), nodes);
  }

  // ---------- unknown nodes that look like an end tag ----------

  lemma LinesConcat(f: Format, a: seq<XmlNode>, b: seq<XmlNode>, depth: nat, tail: string)
    ensures Lines(f, a + b, depth) + tail == Lines(f, a, depth) + (Lines(f, b, depth) + tail)
  {
    hide Line;
    if a == [] {
      assert a + b == b;
      assert Lines(f, a, depth) + (Lines(f, b, depth) + tail) == Lines(f, b, depth) + tail;
    } else {
      assert (a + b)[1..] == a[1..] + b;
      LinesConcat(f, a[1..], b, depth, tail);
      Regroup(Line(f, a[0], depth), Lines(f, a[1..] + b, depth), tail);
      Regroup(Line(f, a[0], depth), Lines(f, a[1..], depth), Lines(f, b, depth) + tail);
    }
  }

  /** The children in front of an unknown node that starts with a slash are all that is read. */
  lemma StopsAtClosing(enc: Encoding, f: Format, kids: seq<XmlNode>, j: nat, depth: nat, tail: string)
    requires BlankFormat(f) && NoAdjacentTexts(kids) && j < |kids|
    requires forall k :: 0 <= k < |kids| ==> Printable(enc, kids[k])
    requires !NotClosing(kids[j]) && forall k :: 0 <= k < j ==> NotClosing(kids[k])
    ensures NodesAt(enc, SkipSpace(enc, To(Lines(f, kids, depth) + tail))).nodes == kids[..j]
  {
    hide NodesAt, Printable, Lines, Indentation, SkipSpace;
    var before, after := kids[..j], kids[j..];
    assert before + after == kids;
    LinesConcat(f, before, after, depth, tail);
    var t := Lines(f, after, depth) + tail;
    LinesSplit(f, after, depth, tail);
    IndentationIsWhite(f, depth);
    var body := Body(f, kids[j], depth) + (f.lineBreak + (Lines(f, after[1..], depth) + tail));
    assert body[0] == '<' && body[1] == '/' by {
      assert Body(f, kids[j], depth)[1] == kids[j].value[0];
    }
    DropWhiteOf(Indentation(f, depth), body);
    assert DropWhite(t) == body && HasPrefix(body, "</");
    KidsRoundTrip(enc, f, before, depth, t);
  }

  /** An element whose parts can all be printed reads back exactly when no unknown child of it starts
      with a slash: such a child is taken for the end tag. */
  lemma ElementRoundTripIff(enc: Encoding, f: Format, n: XmlNode, depth: nat, rest: string)
    requires BlankFormat(f) && n.Element? && GoodName(enc, n.name) && GoodAttrs(enc, n.attrs)
    requires NoAdjacentTexts(n.kids) && forall k :: 0 <= k < |n.kids| ==> Printable(enc, n.kids[k])
    ensures NodeAt(enc, Body(f, n, depth) + rest) == Parsed(n, To(rest), NoError)
            <==> forall k :: 0 <= k < |n.kids| ==> NotClosing(n.kids[k])
  {
    hide NodeAt, Body, GoodAttrs, GoodName;
    if forall k :: 0 <= k < |n.kids| ==> NotClosing(n.kids[k]) {
      assert Printable(enc, n);
      ElementRoundTrip(enc, f, n, depth, rest);
    } else {
      hide Printable;
      var j := FirstClosing(n.kids);
      assert n.kids[..j] != n.kids;
      ElementLosesKids(enc, f, n, j, depth, rest);
    }
  }

  lemma FirstClosing(kids: seq<XmlNode>) returns (j: nat)
    requires exists k :: 0 <= k < |kids| && !NotClosing(kids[k])
    ensures j < |kids| && !NotClosing(kids[j]) && forall k :: 0 <= k < j ==> NotClosing(kids[k])
  {
    j := 0;
    while NotClosing(kids[j])
      invariant j < |kids| && forall k :: 0 <= k < j ==> NotClosing(kids[k])
      decreases |kids| - j
    {
      j := j + 1;
    }
  }

  lemma ElementLosesKids(enc: Encoding, f: Format, n: XmlNode, j: nat, depth: nat, rest: string)
    requires BlankFormat(f) && n.Element? && GoodName(enc, n.name) && GoodAttrs(enc, n.attrs)
    requires NoAdjacentTexts(n.kids) && forall k :: 0 <= k < |n.kids| ==> Printable(enc, n.kids[k])
    requires j < |n.kids| && !NotClosing(n.kids[j]) && forall k :: 0 <= k < j ==> NotClosing(n.kids[k])
    ensures NodeAt(enc, Body(f, n, depth) + rest).node == Element(n.name, n.attrs, n.kids[..j])
  {
    hide Inner, PrintedAttrs, NodeAt, TagAt, Body, Printable, GoodName, GoodAttrs;
    var closing := "</" + (n.name + (">" + rest));
    var t := ">" + (Inner(f, n.kids, depth) + closing);
    GoodAttrsShown(enc, n.attrs);
    ElementBody(f, n, depth, rest);
    assert [] + n.attrs == n.attrs;
    AttributesRoundTrip(enc, n.name, n.attrs, [], t);
    AttributesStart(n.attrs, t);
    ElementStart(enc, n.name, PrintedAttrs(n.attrs) + t);
    InnerLosesKids(enc, f, n.kids, j, depth, closing);
    TagWithKids(enc, Inner(f, n.kids, depth) + closing, n.name, n.attrs);
  }

  lemma InnerLosesKids(enc: Encoding, f: Format, kids: seq<XmlNode>, j: nat, depth: nat, closing: string)
    requires BlankFormat(f) && NoAdjacentTexts(kids) && j < |kids| && closing != ""
    requires forall k :: 0 <= k < |kids| ==> Printable(enc, kids[k])
    requires !NotClosing(kids[j]) && forall k :: 0 <= k < j ==> NotClosing(kids[k])
    ensures NodesAt(enc, SkipSpace(enc, To(Inner(f, kids, depth) + closing))).nodes == kids[..j]
  {
    hide NodesAt, Printable, Lines, Indentation, SkipWs;
    var lines, ind := Lines(f, kids, depth + 1), Indentation(f, depth);
    assert !OneText(kids);
    Regroup(f.lineBreak, lines + ind, closing);
    Regroup(lines, ind, closing);
    StopsAtClosing(enc, f, kids, j, depth + 1, ind + closing);
    SkipWsOf(enc, f.lineBreak, lines + (ind + closing));
    SkipSpaceIs(enc, f.lineBreak + (lines + (ind + closing)));
    SkipSpaceIs(enc, lines + (ind + closing));
  }

  lemma TagWithKids(enc: Encoding, s: string, name: string, attrs: seq<Attr>)
    ensures TagAt(enc, ">" + s, name, attrs).node == Element(name, attrs, NodesAt(enc, SkipSpace(enc, To(s))).nodes)
  {
    hide NodesAt, AttributeAt;
    assert (">" + s)[0] == '>' && (">" + s)[1..] == s;
    TagStaysClose(enc, ">" + s);
  }

  lemma TagStaysClose(enc: Encoding, s: string)
    requires s != "" && s[0] == '>'
    ensures SkipSpace(enc, To(s)) == To(s)
  {
  }
}
