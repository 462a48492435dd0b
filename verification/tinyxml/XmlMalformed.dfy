/** What the parser makes of text that it does not print itself: names, space, errors, unquoted values, repeated attributes. */
module XmlMalformed {
  import opened Chars
  import opened Sequences
  import opened XmlChars
  import opened XmlText
  import opened XmlTextRoundTrip
  import opened XmlTree
  import opened XmlPrinter
  import opened XmlParser
  import opened XmlRoundTrip

  // ---------- names and space ----------

  /** A letter, or any byte from 127 on. */
  predicate Letter(c: char) {
    c as int >= 127 || 'a' <= ToLower(c) <= 'z'
  }

  predicate NameCharacter(c: char) {
    Letter(c) || c in "0123456789_-.:"
  }

  lemma LetterIs(c: char)
    ensures IsAlpha(c) <==> Letter(c)
  {
  }

  lemma NameCharacterIs(c: char)
    ensures IsNameChar(c) <==> NameCharacter(c)
  {
    hide Letter, IsAlpha;
    LetterIs(c);
    if '0' <= c <= '9' {
      assert "0123456789_-.:"[c as int - '0' as int] == c;
    }
  }

  /** A name starts with a letter or an underscore, and ends in front of the first character that names do not have. */
  lemma NameIsRead(name: string, t: string)
    requires name != "" && (Letter(name[0]) || name[0] == '_') && forall k :: 0 <= k < |name| ==> NameCharacter(name[k])
    requires t == "" || !NameCharacter(t[0])
    ensures NameOf(To(name + t)) == (name, To(t))
  {
    hide Letter, NameCharacter, IsNameChar, IsAlpha;
    var s := name + t;
    LetterIs(name[0]);
    var n := NameLength(s);
    if n < |name| {
      NameCharacterIs(name[n]);
    } else if n > |name| {
      NameCharacterIs(s[|name|]);
    }
    CutAt(name, t);
  }

  lemma NoNameIsRead(s: string)
    requires s == "" || (!Letter(s[0]) && s[0] != '_')
    ensures NameOf(To(s)) == ("", Null)
  {
    hide Letter, IsAlpha;
    if s != "" {
      LetterIs(s[0]);
    }
  }

  /** Space, tab, line feed, vertical tab, form feed and carriage return. */
  predicate Space(c: char) {
    c as int in {32, 9, 10, 11, 12, 13}
  }

  /** A byte sequence that is read over like white space in UTF-8 mode. */
  predicate Mark(s: string) {
    s == [0xEF as char, 0xBB as char, 0xBF as char] || s == [0xEF as char, 0xBF as char, 0xBE as char]
    || s == [0xEF as char, 0xBF as char, 0xBF as char]
  }

  predicate MarkAhead(enc: Encoding, s: string) {
    enc.Utf8? && |s| >= 3 && Mark(s[..3])
  }

  lemma MarkAheadIs(enc: Encoding, s: string)
    ensures MarkAhead(enc, s) <==> enc.Utf8? && IsSkipMark(s)
  {
    assert |s| >= 3 ==> s[..3] == [s[0], s[1], s[2]];
  }

  /** White space, in UTF-8 mode with marks in between. */
  predicate Gap(enc: Encoding, w: string) {
    w == "" || if MarkAhead(enc, w) then Gap(enc, w[3..]) else Space(w[0]) && Gap(enc, w[1..])
  }

  predicate NoGap(enc: Encoding, s: string) {
    s == "" || (!Space(s[0]) && !MarkAhead(enc, s))
  }

  /** Just the gap is skipped. */
  lemma {:induction false} GapIsSkipped(enc: Encoding, w: string, t: string)
    requires Gap(enc, w) && NoGap(enc, t)
    ensures SkipWs(enc, w + t) == t
    decreases |w|
  {
    hide MarkAhead, IsSkipMark;
    var s := w + t;
    MarkAheadIs(enc, s);
    if w == "" {
      assert s == t;
    } else if MarkAhead(enc, w) {
      MarkGoesOn(enc, w, t);
      GapIsSkipped(enc, w[3..], t);
    } else {
      assert Space(w[0]) && s[0] == w[0] && s[1..] == w[1..] + t;
      SpaceIsNoMark(enc, s);
      GapIsSkipped(enc, w[1..], t);
    }
  }

  lemma MarkGoesOn(enc: Encoding, w: string, t: string)
    requires MarkAhead(enc, w)
    ensures |w| >= 3 && MarkAhead(enc, w + t) && (w + t)[3..] == w[3..] + t
  {
    assert (w + t)[..3] == w[..3];
  }

  lemma SpaceIsNoMark(enc: Encoding, s: string)
    requires s != "" && Space(s[0])
    ensures !MarkAhead(enc, s)
  {
    assert |s| >= 3 ==> s[..3][0] == s[0];
  }

  // ---------- elements ----------

  /** The start of an element with attributes. */
  function Opened(name: string, attrs: seq<Attr>, t: string): string {
    "<" + (name + (PrintedAttrs(attrs) + t))
  }

  lemma OpenedIs(enc: Encoding, name: string, attrs: seq<Attr>, t: string)
    requires GoodName(enc, name) && GoodAttrs(enc, attrs) && t != "" && (t[0] == ' ' || t[0] == '>')
    ensures NodeAt(enc, Opened(name, attrs, t)) == TagAt(enc, t, name, attrs)
  {
    hide NodeAt, TagAt, PrintedAttrs, GoodAttrs, GoodName;
    assert [] + attrs == attrs;
    AttributesRoundTrip(enc, name, attrs, [], t);
    AttributesStart(attrs, t);
    ElementStart(enc, name, PrintedAttrs(attrs) + t);
  }

  lemma TagEnds(enc: Encoding, s: string, name: string, attrs: seq<Attr>, kids: seq<XmlNode>, rest: Ptr, err: XmlError)
    requires NodesAt(enc, SkipSpace(enc, To(s))) == ParsedNodes(kids, rest, err)
    requires AtEnd(rest) || !HasPrefix(rest.s, "</" + name + ">")
    ensures TagAt(enc, ">" + s, name, attrs) == Parsed(Element(name, attrs, kids), Null, First(err, ReadingEndTag))
  {
    hide NodesAt, AttributeAt, SkipWs;
    assert (">" + s)[0] == '>' && (">" + s)[1..] == s;
    TagStaysClose(enc, ">" + s);
  }

  /** Another end tag than the one that is due ends the element, and nothing behind it is read. */
  lemma WrongEndTag(enc: Encoding, f: Format, name: string, attrs: seq<Attr>, kids: seq<XmlNode>, depth: nat, t: string)
    requires GoodName(enc, name) && GoodAttrs(enc, attrs) && BlankFormat(f) && PrintableKids(enc, kids)
    requires !HasPrefix("</" + t, "</" + name + ">")
    ensures NodeAt(enc, Opened(name, attrs, ">" + (Inner(f, kids, depth) + ("</" + t))))
            == Parsed(Element(name, attrs, kids), Null, ReadingEndTag)
  {
    hide NodeAt, TagAt, NodesAt, SkipWs, Inner, Opened, GoodAttrs, GoodName, PrintableKids, HasPrefix;
    var s := Inner(f, kids, depth) + ("</" + t);
    assert HasPrefix("</" + t, "</") by {
      PrefixOf("</", t);
    }
    InnerRoundTrip(enc, f, kids, depth, "</" + t);
    OpenedIs(enc, name, attrs, ">" + s);
    TagEnds(enc, s, name, attrs, kids, To("</" + t), NoError);
  }

  lemma PrefixOf(a: string, b: string)
    ensures HasPrefix(a + b, a)
  {
  }

  /** A text that ends behind a start tag. */
  lemma NoEndTag(enc: Encoding, name: string, attrs: seq<Attr>)
    requires GoodName(enc, name) && GoodAttrs(enc, attrs)
    ensures NodeAt(enc, Opened(name, attrs, ">")) == Parsed(Element(name, attrs, []), Null, ReadingElementValue)
  {
    hide NodeAt, TagAt, Opened, GoodAttrs, GoodName;
    OpenedIs(enc, name, attrs, ">");
    assert NodesAt(enc, SkipSpace(enc, To(""))) == ParsedNodes([], Null, ReadingElementValue);
    TagEnds(enc, "", name, attrs, [], Null, ReadingElementValue);
    assert ">" + "" == ">";
  }

  /** A slash in a start tag must be followed by its end. */
  lemma BadEmptyTag(enc: Encoding, name: string, attrs: seq<Attr>, t: string)
    requires GoodName(enc, name) && GoodAttrs(enc, attrs) && (t == "" || t[0] != '>')
    ensures NodeAt(enc, Opened(name, attrs, " /" + t)) == Parsed(Element(name, attrs, []), Null, ParsingEmpty)
  {
    hide NodeAt, NodesAt, AttributeAt, Opened, GoodAttrs, GoodName;
    var s := " /" + t;
    OpenedIs(enc, name, attrs, s);
    assert s[0] == ' ' && s[1..] == "/" + t && ("/" + t)[0] == '/';
    assert SkipWs(enc, "/" + t) == "/" + t;
  }

  /** A repeated attribute takes the new value, and the rest of the element is not read. */
  lemma RepeatedAttribute(enc: Encoding, name: string, attrs: seq<Attr>, k: nat, value: string, t: string)
    requires GoodName(enc, name) && GoodAttrs(enc, attrs) && k < |attrs| && GoodValue(enc, value) && t != ""
    ensures var a := Attr(attrs[k].name, value);
            NodeAt(enc, Opened(name, attrs, " " + (PrintedAttr(a) + t)))
            == Parsed(Element(name, attrs[k := a], []), Null, NoError)
  {
    hide NodeAt, NodesAt, AttributeAt, Opened, GoodName, GoodValue, PrintedAttr, SkipWs;
    var a := Attr(attrs[k].name, value);
    var x := PrintedAttr(a) + t;
    OpenedIs(enc, name, attrs, " " + x);
    AttributeRoundTrip(enc, a, t);
    SkipWsOf(enc, " ", x);
    NameStart(enc, a.name);
    FirstOfName(attrs, k);
    SkipSpaceIs(enc, x);
    SkipSpaceIs(enc, " " + x);
    RepeatedTag(enc, " " + x, x, name, attrs, k, a, t);
  }

  lemma RepeatedTag(enc: Encoding, s: string, x: string, name: string, attrs: seq<Attr>, k: nat, a: Attr, t: string)
    requires s != "" && SkipSpace(enc, To(s)) == To(x) && x != "" && x[0] != '/' && x[0] != '>'
    requires AttributeAt(enc, x) == ParsedAttr(a, To(t), NoError) && t != "" && k < |attrs| && FindAttr(attrs, a.name) == k
    requires attrs[k].name == a.name
    ensures TagAt(enc, s, name, attrs) == Parsed(Element(name, attrs[k := a], []), Null, NoError)
  {
    hide AttributeAt, SkipWs, FindAttr, NodesAt;
  }

  lemma NameStart(enc: Encoding, name: string)
    requires GoodName(enc, name)
    ensures name != "" && name[0] != '/' && name[0] != '>'
  {
  }

  lemma FirstOfName(attrs: seq<Attr>, k: nat)
    requires k < |attrs| && forall i, j :: 0 <= i < j < |attrs| ==> attrs[i].name != attrs[j].name
    ensures FindAttr(attrs, attrs[k].name) == k
  {
  }

  // ---------- attributes ----------

  /** A character that no white space is skipped in front of. */
  predicate Solid(enc: Encoding, s: string) {
    s != "" && !IsWhiteSpace(s[0]) && !(enc.Utf8? && IsSkipMark(s))
  }

  lemma SkipTo(enc: Encoding, w: string, s: string)
    requires AllWhite(w) && Solid(enc, s)
    ensures SkipSpace(enc, To(w + s)) == To(s)
  {
    hide SkipWs;
    SkipWsOf(enc, w, s);
    SolidStays(enc, s);
    SkipSpaceIs(enc, w + s);
  }

  lemma SolidStays(enc: Encoding, s: string)
    requires Solid(enc, s)
    ensures SkipWs(enc, s) == s
  {
  }

  /** What comes behind a name, if it is not a name character. */
  predicate EndsName(t: string) {
    t == "" || (!IsNameChar(t[0]) && t[0] as int < 0x80)
  }

  lemma WhiteEndsName(w: string, t: string)
    requires AllWhite(w) && EndsName(t)
    ensures EndsName(w + t)
  {
    assert w == "" ==> w + t == t;
  }

  /** An attribute's value after its `=`, with white space around. */
  lemma ValueAt(enc: Encoding, name: string, w1: string, w2: string, s: string)
    requires GoodName(enc, name) && AllWhite(w1) && AllWhite(w2) && Solid(enc, s)
    ensures AttributeAt(enc, name + (w1 + ("=" + (w2 + s))))
            == if s[0] == APOS || s[0] == QUOTE then
                 var (value, stop) := TextOf(enc, To(s[1..]), false, [s[0]]);
                 ParsedAttr(Attr(name, value), if stop.Null? then Null else To(Advance(stop.s, 1)), NoError)
               else
                 var (value, rest, err) := UnquotedAt(s);
                 ParsedAttr(Attr(name, value), rest, err)
  {
    hide TextOf, UnquotedAt, NameOf, GoodName, SkipWs, Solid;
    var eq := "=" + (w2 + s);
    assert eq[0] == '=' && eq[1..] == w2 + s;
    EqualsIsSolid(enc, w2 + s);
    WhiteEndsName(w1, eq);
    NameRoundTrip(enc, name, w1 + eq);
    SkipTo(enc, w1, eq);
    SkipTo(enc, w2, s);
    NotEmpty(enc, s);
  }

  lemma NotEmpty(enc: Encoding, s: string)
    requires Solid(enc, s)
    ensures s != ""
  {
  }

  lemma EqualsIsSolid(enc: Encoding, t: string)
    ensures Solid(enc, "=" + t) && EndsName("=" + t)
  {
    assert ("=" + t)[0] == '=';
  }

  predicate Unquoted(v: string) {
    forall i :: 0 <= i < |v| ==> !EndsUnquoted(v[i]) && v[i] != APOS && v[i] != QUOTE
  }

  lemma {:induction false} UnquotedIs(v: string, t: string)
    requires Unquoted(v) && (t == "" || EndsUnquoted(t[0]) || t[0] == APOS || t[0] == QUOTE)
    ensures UnquotedAt(v + t) == if t == "" || EndsUnquoted(t[0]) then (v, To(t), NoError) else (v, Null, ReadingAttributes)
  {
    if v == "" {
      assert v + t == t;
    } else {
      assert (v + t)[1..] == v[1..] + t && (v + t)[0] == v[0];
      UnquotedIs(v[1..], t);
      assert [v[0]] + v[1..] == v;
    }
  }

  /** A value without quotes ends at white space or at the end of the tag; a quote inside it is an error. */
  lemma UnquotedAttribute(enc: Encoding, name: string, w1: string, w2: string, v: string, t: string)
    requires GoodName(enc, name) && AllWhite(w1) && AllWhite(w2) && v != "" && Unquoted(v) && Solid(enc, v + t)
    requires t == "" || EndsUnquoted(t[0]) || t[0] == APOS || t[0] == QUOTE
    ensures AttributeAt(enc, name + (w1 + ("=" + (w2 + (v + t)))))
            == if t == "" || EndsUnquoted(t[0]) then ParsedAttr(Attr(name, v), To(t), NoError)
               else ParsedAttr(Attr(name, v), Null, ReadingAttributes)
  {
    hide AttributeAt, UnquotedAt, GoodName, Solid;
    ValueAt(enc, name, w1, w2, v + t);
    UnquotedIs(v, t);
    assert (v + t)[0] == v[0];
  }

  /** A value in quotes may hold the other quote, and white space around the `=` does not matter. */
  lemma QuotedWithSpaces(enc: Encoding, name: string, w1: string, w2: string, q: char, v: string, t: string)
    requires GoodName(enc, name) && AllWhite(w1) && AllWhite(w2) && GoodValue(enc, v) && (q == QUOTE || q == APOS)
    ensures AttributeAt(enc, name + (w1 + ("=" + (w2 + ([q] + (Encode(v) + ([q] + t)))))))
            == ParsedAttr(Attr(name, v), To(t), NoError)
  {
    hide AttributeAt, TextOf, Encode, GoodName, WellFormed, NoHexRef;
    var s := [q] + (Encode(v) + ([q] + t));
    assert s[0] == q && s[1..] == Encode(v) + ([q] + t);
    ValueAt(enc, name, w1, w2, s);
    AttributeValue(enc, v, q, t);
  }

  /** A name without a value is an error. */
  lemma NoValue(enc: Encoding, name: string, w: string, t: string)
    requires GoodName(enc, name) && AllWhite(w) && EndsName(t) && (t == "" || (Solid(enc, t) && t[0] != '='))
    ensures AttributeAt(enc, name + (w + t)) == ParsedAttr(Attr(name, ""), Null, ReadingAttributes)
  {
    hide TextOf, UnquotedAt, NameOf, GoodName, SkipWs, Solid;
    WhiteEndsName(w, t);
    NameRoundTrip(enc, name, w + t);
    if t == "" {
      assert w + t == w;
      WhiteEnds(enc, w);
    } else {
      SkipTo(enc, w, t);
    }
  }

  lemma {:induction false} WhiteEnds(enc: Encoding, w: string)
    requires AllWhite(w)
    ensures AtEnd(SkipSpace(enc, To(w)))
  {
    if w != "" {
      WhiteEnds(enc, w[1..]);
    }
  }

  /** An attribute without a value ends the element. */
  lemma AttributeWithoutValue(enc: Encoding, name: string, attrs: seq<Attr>, attribute: string, t: string)
    requires GoodName(enc, name) && GoodAttrs(enc, attrs) && GoodName(enc, attribute)
    requires EndsName(t) && (t == "" || (Solid(enc, t) && t[0] != '='))
    ensures NodeAt(enc, Opened(name, attrs, " " + (attribute + t)))
            == Parsed(Element(name, attrs, []), Null, ReadingAttributes)
  {
    hide NodeAt, NodesAt, AttributeAt, Opened, GoodName, GoodAttrs, SkipWs, EndsName, Solid;
    var x := attribute + t;
    OpenedIs(enc, name, attrs, " " + x);
    NoValue(enc, attribute, "", t);
    assert "" + t == t;
    NameStart(enc, attribute);
    assert x[0] == attribute[0] && (" " + x)[0] == ' ';
    SolidName(enc, attribute, t);
    SkipTo(enc, " ", x);
  }

  lemma SolidName(enc: Encoding, name: string, t: string)
    requires GoodName(enc, name) && EndsName(t)
    ensures Solid(enc, name + t)
  {
    NameRoundTrip(enc, name, t);
    assert (name + t)[0] == name[0];
    hide NameOf;
  }

  // ---------- comments and documents ----------

  /** A comment that is not ended takes all of the text, without an error. */
  lemma CommentToTheEnd(enc: Encoding, v: string)
    requires forall k :: 0 <= k <= |v| ==> !HasPrefix(v[k..], "-->")
    ensures NodeAt(enc, "<!--" + v) == Parsed(Comment(v), To(""), NoError)
  {
    hide KindOf, NodeAt, DistanceTo;
    KindOfComment(v);
    NodeAtIs(enc, "<!--" + v);
    CutAt("<!--", v);
    NoEnd(v, "-->");
    assert v[..|v|] == v && v[|v|..] == "";
  }

  lemma NoEnd(v: string, end: string)
    requires forall k :: 0 <= k <= |v| ==> !HasPrefix(v[k..], end)
    ensures DistanceTo(v, end) == |v|
  {
    var n := DistanceTo(v, end);
    assert !HasPrefix(v[n..], end);
  }

  /** A document without a tag at its start has no children, and that is an error. */
  lemma NoDocument(enc: Encoding, w: string, t: string)
    requires AllWhite(w) && (t == "" || (Solid(enc, t) && t[0] as int < 0x80 && t[0] != '<'))
    ensures DocumentAt(enc, w + t) == ParsedNodes([], Null, DocumentEmpty)
  {
    hide NodeAt, SkipWs, Solid;
    assert !StartsWithBom(w + t) by {
      assert w != "" ==> (w + t)[0] == w[0];
      assert w == "" ==> w + t == t;
    }
    if t == "" {
      assert w + t == w;
      WhiteEnds(enc, w);
    } else {
      SkipTo(enc, w, t);
      SkipTo(enc, "", t);
      assert "" + t == t;
    }
  }

  /** The first error of a document is the one that it has in the end. */
  lemma FirstErrorStays(enc: Encoding, s: string, n: Parsed)
    requires s != "" && s[0] == '<' && n == NodeAt(enc, s) && !n.err.NoError?
    ensures DocumentAt(enc, s).err == n.err && DocumentAt(enc, s).nodes != [] && DocumentAt(enc, s).nodes[0] == n.node
  {
    hide NodeAt, SkipWs, EncodingAfter;
    TagStays(enc, s);
  }
}
