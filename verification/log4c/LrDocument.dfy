/** What is in an accepted document: a walk over it gives what the tokens say, read from left to right. */
module LrDocument {
  import opened LrTables
  import opened LrParser
  import opened LrSoundness
  import opened LrLanguage
  import opened Sequences

  // The codes that the scanner returns.
  const EQ_CODE := 258
  const SLASH_CODE := 259
  const CLOSE_CODE := 260
  const END_CODE := 261
  const NAME_CODE := 262
  const VALUE_CODE := 263
  const DATA_CODE := 264
  const COMMENT_CODE := 265
  const START_CODE := 266

  /** What a walk over a document meets: the start of a node, its attributes, and its end with its value. */
  datatype Event = Begins(name: string) | Has(key: string, text: string) | Ends(value: Option<string>)

  function AttributeEvents(attrs: seq<(string, string)>): seq<Event> {
    seq(|attrs|, i requires 0 <= i < |attrs| => Has(attrs[i].0, attrs[i].1))
  }

  /** A node in document order; a comment is a node named `#comment`. */
  function Walk(d: Dom): seq<Event>
    decreases d, 0
  {
    [Begins(d.name)] + (AttributeEvents(d.attrs) + (WalkAll(d.children) + [Ends(d.value)]))
  }

  function WalkAll(ds: seq<Dom>): seq<Event>
    decreases ds, 1
  {
    if ds == [] then [] else Walk(ds[0]) + WalkAll(ds[1..])
  }

  /** The same from the tokens alone. `open` has the last data of every element whose end is still to come. */
  function EventsFrom(tokens: seq<Token>, open: seq<Option<string>>): seq<Event>
    decreases |tokens|
  {
    if tokens == [] || tokens[0].code <= 0 then []
    else
      var code, text, rest := tokens[0].code, tokens[0].text, tokens[1..];
      var n := |open| - 1;
      if code == START_CODE then [Begins(text)] + EventsFrom(rest, open + [None])
      else if code == NAME_CODE then
        if |rest| >= 2 && rest[0].code == EQ_CODE then [Has(text, rest[1].text)] + EventsFrom(rest[2..], open)
        else [Has(text, "")] + EventsFrom(rest, open)
      else if open == [] then EventsFrom(rest, open)
      else if code == DATA_CODE then EventsFrom(rest, open[..n] + [Some(text)])
      else if code == COMMENT_CODE then [Begins("#comment"), Ends(Some(text))] + EventsFrom(rest, open)
      else if code == SLASH_CODE then [Ends(open[n])] + EventsFrom(rest, open[..n])
      else if code == END_CODE then
        // The name of the end tag is no attribute.
        [Ends(open[n])] + EventsFrom(if rest == [] then [] else rest[1..], open[..n])
      else EventsFrom(rest, open)
  }

  function Events(tokens: seq<Token>): seq<Event> {
    EventsFrom(tokens, [])
  }

  // ---------- a walk is the whole document ----------

  lemma {:induction false} WalkAppended(ds: seq<Dom>, d: Dom)
    ensures WalkAll(ds + [d]) == WalkAll(ds) + Walk(d)
  {
    hide Walk;
    if ds == [] {
      assert [] + [d] == [d] && WalkAll([]) == [];
    } else {
      assert (ds + [d])[1..] == ds[1..] + [d];
      WalkAppended(ds[1..], d);
      Regroup(Walk(ds[0]), WalkAll(ds[1..]), Walk(d));
    }
  }

  lemma WalkIs(d: Dom, x: seq<Event>)
    ensures Walk(d) + x
            == [Begins(d.name)] + (AttributeEvents(d.attrs) + (WalkAll(d.children) + ([Ends(d.value)] + x)))
  {
    hide WalkAll, AttributeEvents;
    var a, b := AttributeEvents(d.attrs), WalkAll(d.children);
    Regroup(b, [Ends(d.value)], x);
    Regroup(a, b + [Ends(d.value)], x);
    Regroup([Begins(d.name)], a + (b + [Ends(d.value)]), x);
  }

  predicate AfterAttributes(x: seq<Event>) {
    x != [] && !x[0].Has?
  }

  lemma TailsAgree(a: Event, x: seq<Event>, b: Event, y: seq<Event>)
    requires [a] + x == [b] + y
    ensures a == b && x == y
  {
    assert ([a] + x)[0] == a && ([a] + x)[1..] == x && ([b] + y)[0] == b && ([b] + y)[1..] == y;
  }

  lemma FirstAttribute(a: seq<(string, string)>, x: seq<Event>)
    ensures a == [] ==> AttributeEvents(a) + x == x
    ensures a != [] ==> AttributeEvents(a) + x == [Has(a[0].0, a[0].1)] + (AttributeEvents(a[1..]) + x)
    ensures a != [] ==> AttributeEvents(a) + x != [] && (AttributeEvents(a) + x)[0].Has?
  {
  }

  lemma {:induction false} SameAttributes(a: seq<(string, string)>, x: seq<Event>, b: seq<(string, string)>, y: seq<Event>)
    requires AttributeEvents(a) + x == AttributeEvents(b) + y && AfterAttributes(x) && AfterAttributes(y)
    ensures a == b && x == y
  {
    hide AttributeEvents;
    FirstAttribute(a, x);
    FirstAttribute(b, y);
    if a != [] && b != [] {
      TailsAgree(Has(a[0].0, a[0].1), AttributeEvents(a[1..]) + x, Has(b[0].0, b[0].1), AttributeEvents(b[1..]) + y);
      SameAttributes(a[1..], x, b[1..], y);
      assert a == [a[0]] + a[1..] && b == [b[0]] + b[1..];
    }
  }

  lemma WalkAfter(ds: seq<Dom>, v: Option<string>, x: seq<Event>)
    ensures AfterAttributes(WalkAll(ds) + ([Ends(v)] + x))
  {
    if ds != [] {
      WalkIs(ds[0], WalkAll(ds[1..]));
    }
  }

  /** A walk tells everything about a document. */
  lemma {:induction false} SameWalk(d: Dom, x: seq<Event>, e: Dom, y: seq<Event>)
    requires Walk(d) + x == Walk(e) + y
    ensures d == e && x == y
    decreases d, 0
  {
    hide *;
    WalkIs(d, x);
    WalkIs(e, y);
    var a, b := WalkAll(d.children) + ([Ends(d.value)] + x), WalkAll(e.children) + ([Ends(e.value)] + y);
    WalkAfter(d.children, d.value, x);
    WalkAfter(e.children, e.value, y);
    TailsAgree(Begins(d.name), AttributeEvents(d.attrs) + a, Begins(e.name), AttributeEvents(e.attrs) + b);
    SameAttributes(d.attrs, a, e.attrs, b);
    SameWalks(d.children, d.value, x, e.children, e.value, y);
  }

  lemma NoWalks(v: Option<string>, x: seq<Event>)
    ensures WalkAll([]) + ([Ends(v)] + x) == [Ends(v)] + x
  {
  }

  lemma {:induction false} SameWalks(ds: seq<Dom>, v: Option<string>, x: seq<Event>, es: seq<Dom>, w: Option<string>,
      y: seq<Event>)
    requires WalkAll(ds) + ([Ends(v)] + x) == WalkAll(es) + ([Ends(w)] + y)
    ensures ds == es && v == w && x == y
    decreases ds, 1
  {
    hide Walk;
    if ds == [] && es == [] {
      NoWalks(v, x);
      NoWalks(w, y);
      TailsAgree(Ends(v), x, Ends(w), y);
    } else if ds == [] {
      FirstBegins(es, [Ends(w)] + y);
      assert false;
    } else if es == [] {
      FirstBegins(ds, [Ends(v)] + x);
      assert false;
    } else {
      Regroup(Walk(ds[0]), WalkAll(ds[1..]), [Ends(v)] + x);
      Regroup(Walk(es[0]), WalkAll(es[1..]), [Ends(w)] + y);
      SameWalk(ds[0], WalkAll(ds[1..]) + ([Ends(v)] + x), es[0], WalkAll(es[1..]) + ([Ends(w)] + y));
      SameWalks(ds[1..], v, x, es[1..], w, y);
    }
  }

  lemma FirstBegins(ds: seq<Dom>, x: seq<Event>)
    requires ds != []
    ensures WalkAll(ds) + x != [] && (WalkAll(ds) + x)[0].Begins?
  {
    WalkIs(ds[0], WalkAll(ds[1..]) + x);
  }

  // ---------- one token ----------

  lemma DataRead(t: Token, rest: seq<Token>, open: seq<Option<string>>, v: Option<string>)
    requires t.code == DATA_CODE
    ensures EventsFrom([t] + rest, open + [v]) == EventsFrom(rest, open + [Some(t.text)])
  {
    assert ([t] + rest)[1..] == rest && (open + [v])[..|open|] == open;
  }

  lemma CommentRead(t: Token, rest: seq<Token>, open: seq<Option<string>>)
    requires t.code == COMMENT_CODE
    ensures EventsFrom([t] + rest, open)
            == (if open == [] then [] else [Begins("#comment"), Ends(Some(t.text))]) + EventsFrom(rest, open)
  {
    assert ([t] + rest)[1..] == rest && [] + EventsFrom(rest, open) == EventsFrom(rest, open);
  }

  lemma StartRead(t: Token, rest: seq<Token>, open: seq<Option<string>>)
    requires t.code == START_CODE
    ensures EventsFrom([t] + rest, open) == [Begins(t.text)] + EventsFrom(rest, open + [None])
  {
    assert ([t] + rest)[1..] == rest;
  }

  lemma CloseRead(t: Token, rest: seq<Token>, open: seq<Option<string>>)
    requires t.code == CLOSE_CODE
    ensures EventsFrom([t] + rest, open) == EventsFrom(rest, open)
  {
    assert ([t] + rest)[1..] == rest;
  }

  lemma SlashRead(t: Token, u: Token, rest: seq<Token>, open: seq<Option<string>>, v: Option<string>)
    requires t.code == SLASH_CODE && u.code == CLOSE_CODE
    ensures EventsFrom([t] + ([u] + rest), open + [v]) == [Ends(v)] + EventsFrom(rest, open)
  {
    assert ([t] + ([u] + rest))[1..] == [u] + rest && (open + [v])[..|open|] == open;
    CloseRead(u, rest, open);
  }

  lemma EndRead(t: Token, name: Token, u: Token, rest: seq<Token>, open: seq<Option<string>>, v: Option<string>)
    requires t.code == END_CODE && u.code == CLOSE_CODE
    ensures EventsFrom([t] + ([name] + ([u] + rest)), open + [v]) == [Ends(v)] + EventsFrom(rest, open)
  {
    var s := [name] + ([u] + rest);
    assert ([t] + s)[1..] == s && s[1..] == [u] + rest && (open + [v])[..|open|] == open;
    CloseRead(u, rest, open);
  }

  lemma NameRead(t: Token, rest: seq<Token>, open: seq<Option<string>>)
    requires t.code == NAME_CODE && (rest == [] || rest[0].code != EQ_CODE)
    ensures EventsFrom([t] + rest, open) == [Has(t.text, "")] + EventsFrom(rest, open)
  {
    assert ([t] + rest)[1..] == rest;
  }

  lemma NameValueRead(t: Token, u: Token, v: Token, rest: seq<Token>, open: seq<Option<string>>)
    requires t.code == NAME_CODE && u.code == EQ_CODE
    ensures EventsFrom([t] + ([u] + ([v] + rest)), open) == [Has(t.text, v.text)] + EventsFrom(rest, open)
  {
    var s := [u] + ([v] + rest);
    assert ([t] + s)[1..] == s && s[2..] == rest && s[1] == v;
  }

  // ---------- trees ----------

  /** The code of a token leaf. */
  lemma LeafCode(t: Tree)
    requires t.Leaf? && EQ <= Root(t) <= START
    ensures Yield(t) == [t.token] && t.token.code == Root(t) + 254 && Text(t) == t.token.text
  {
  }

  lemma Yields2(ts: seq<Tree>)
    requires |ts| == 2
    ensures Yields(ts) == Yield(ts[0]) + Yield(ts[1])
  {
    hide Yield;
    assert ts[..1] == [ts[0]];
    OneYield(ts[0]);
  }

  lemma Yields3(ts: seq<Tree>)
    requires |ts| == 3
    ensures Yields(ts) == Yield(ts[0]) + Yield(ts[1]) + Yield(ts[2])
  {
    hide Yield;
    Yields2(ts[..2]);
  }

  lemma Yields4(ts: seq<Tree>)
    requires |ts| == 4
    ensures Yields(ts) == Yield(ts[0]) + Yield(ts[1]) + Yield(ts[2]) + Yield(ts[3])
  {
    hide Yield;
    Yields3(ts[..3]);
  }

  lemma Yields5(ts: seq<Tree>)
    requires |ts| == 5
    ensures Yields(ts) == Yield(ts[0]) + Yield(ts[1]) + Yield(ts[2]) + Yield(ts[3]) + Yield(ts[4])
  {
    hide Yield;
    Yields4(ts[..4]);
  }

  lemma AttrAdded(d: Dom, name: string, value: string, x: seq<Event>)
    ensures var e := AddAttr(d, name, value);
            e.name == d.name && e.value == d.value && e.children == d.children
            && AttributeEvents(d.attrs) + ([Has(name, value)] + x) == AttributeEvents(e.attrs) + x
  {
  }

  lemma ChildAdded(d: Dom, child: Dom, x: seq<Event>)
    ensures var e := AddChild(d, child);
            e.name == d.name && e.value == d.value && e.attrs == d.attrs
            && WalkAll(d.children) + (Walk(child) + x) == WalkAll(e.children) + x
  {
    hide Walk, WalkAll;
    WalkAppended(d.children, child);
    Regroup(WalkAll(d.children), Walk(child), x);
  }

  /** One attribute. */
  lemma AttributeIs(t: Tree, d: Dom, rest: seq<Token>, open: seq<Option<string>>)
    requires Derives(t) && NamesMatch(t) && Root(t) == ATTRIBUTE && Kind(rest) != EQ
    ensures var e := AttrOf(t, d);
            e.name == d.name && e.value == d.value && e.children == d.children
            && AttributeEvents(d.attrs) + EventsFrom(Yield(t) + rest, open)
               == AttributeEvents(e.attrs) + EventsFrom(rest, open)
  {
    hide EventsFrom, AttributeEvents, Text, Derives, NamesMatch, Yields;
    NonterminalIsNode(t);
    RuleOf(t);
    KidOf(t, 0);
    LeafCode(t.kids[0]);
    if t.rule == 16 {
      OneYield(t.kids[0]);
      assert t.kids == [t.kids[0]];
      NameRead(t.kids[0].token, rest, open);
      AttrAdded(d, Text(t.kids[0]), "", EventsFrom(rest, open));
    } else {
      KidOf(t, 1);
      KidOf(t, 2);
      LeafCode(t.kids[1]);
      LeafCode(t.kids[2]);
      Yields3(t.kids);
      var a, b, c := t.kids[0].token, t.kids[1].token, t.kids[2].token;
      assert [a] + [b] + [c] + rest == [a] + ([b] + ([c] + rest));
      NameValueRead(a, b, c, rest, open);
      AttrAdded(d, Text(t.kids[0]), Text(t.kids[2]), EventsFrom(rest, open));
    }
  }

  /** The attributes of an element, in their order. */
  lemma {:induction false} AttributesAre(t: Tree, d: Dom, rest: seq<Token>, open: seq<Option<string>>)
    requires Derives(t) && NamesMatch(t) && Root(t) == ATTRIBUTES && Kind(rest) != EQ
    ensures var e := AttrsOf(t, d);
            e.name == d.name && e.value == d.value && e.children == d.children
            && AttributeEvents(d.attrs) + EventsFrom(Yield(t) + rest, open)
               == AttributeEvents(e.attrs) + EventsFrom(rest, open)
    decreases t
  {
    hide EventsFrom, AttributeEvents, AttrOf, Derives, NamesMatch, Yields, Kind;
    NonterminalIsNode(t);
    RuleOf(t);
    if t.rule == 14 {
      KidOf(t, 0);
      KidOf(t, 1);
      Yields2(t.kids);
      var more := Yield(t.kids[1]) + rest;
      FirstToken(t.kids[1], rest);
      Regroup(Yield(t.kids[0]), Yield(t.kids[1]), rest);
      AttributesAre(t.kids[0], d, more, open);
      AttributeIs(t.kids[1], AttrsOf(t.kids[0], d), rest, open);
    } else {
      NoYield(t);
      assert [] + rest == rest;
    }
  }

  lemma NoYield(t: Tree)
    requires t.Node? && t.kids == []
    ensures Yield(t) == []
  {
  }

  /** A comment inside an element. */
  lemma NoteIs(t: Tree, rest: seq<Token>, open: seq<Option<string>>)
    requires Derives(t) && NamesMatch(t) && Root(t) == NOTE
    ensures EventsFrom(Yield(t) + rest, open) == (if open == [] then [] else Walk(NoteOf(t))) + EventsFrom(rest, open)
  {
    hide EventsFrom, Text, Derives, NamesMatch, Yields;
    NonterminalIsNode(t);
    RuleOf(t);
    KidOf(t, 0);
    LeafCode(t.kids[0]);
    OneYield(t.kids[0]);
    assert t.kids == [t.kids[0]];
    CommentRead(t.kids[0].token, rest, open);
    assert Walk(CommentDom(Text(t.kids[0]))) == [Begins("#comment"), Ends(Some(Text(t.kids[0])))];
  }

  /** Comments outside the root element leave no trace. */
  lemma {:induction false} MiscIs(t: Tree, rest: seq<Token>)
    requires Derives(t) && NamesMatch(t) && Root(t) == MISC
    ensures EventsFrom(Yield(t) + rest, []) == EventsFrom(rest, [])
    decreases t
  {
    hide EventsFrom, Derives, NamesMatch, Yields, NoteOf, Walk;
    NonterminalIsNode(t);
    RuleOf(t);
    if t.rule == 2 {
      KidOf(t, 0);
      KidOf(t, 1);
      Yields2(t.kids);
      Regroup(Yield(t.kids[0]), Yield(t.kids[1]), rest);
      MiscIs(t.kids[0], Yield(t.kids[1]) + rest);
      NoteIs(t.kids[1], rest, []);
      assert [] + EventsFrom(rest, []) == EventsFrom(rest, []);
    } else {
      NoYield(t);
      assert [] + rest == rest;
    }
  }

  lemma NothingBefore(x: seq<Event>)
    ensures WalkAll([]) + x == x && AttributeEvents([]) + x == x
  {
  }

  lemma EndNameToken(t: Tree)
    requires Derives(t) && NamesMatch(t) && Root(t) == ENDNAME
    ensures |Yield(t)| == 1
  {
    hide Derives, NamesMatch, Yields;
    NonterminalIsNode(t);
    RuleOf(t);
    KidOf(t, 0);
    LeafCode(t.kids[0]);
    OneYield(t.kids[0]);
    assert t.kids == [t.kids[0]];
  }

  /** The data, elements and comments in an element; the last data is its value. */
  lemma {:induction false} ContentIs(t: Tree, d: Dom, rest: seq<Token>, open: seq<Option<string>>)
    requires Derives(t) && NamesMatch(t) && Root(t) == CONTENT
    ensures var e := ContentOf(t, d);
            e.name == d.name && e.attrs == d.attrs
            && WalkAll(d.children) + EventsFrom(Yield(t) + rest, open + [d.value])
               == WalkAll(e.children) + EventsFrom(rest, open + [e.value])
    decreases t
  {
    hide EventsFrom, WalkAll, Walk, ElementOf, NoteOf, Derives, NamesMatch, Yields, Text;
    NonterminalIsNode(t);
    RuleOf(t);
    if t.rule == 12 {
      NoYield(t);
      assert [] + rest == rest;
    } else {
      KidOf(t, 0);
      KidOf(t, 1);
      Yields2(t.kids);
      var last, e := t.kids[1], ContentOf(t.kids[0], d);
      var all := open + [e.value];
      Regroup(Yield(t.kids[0]), Yield(last), rest);
      ContentIs(t.kids[0], d, Yield(last) + rest, open);
      if t.rule == 9 {
        LeafCode(last);
        DataRead(last.token, rest, open, e.value);
      } else if t.rule == 10 {
        ElementIs(last, rest, all);
        ChildAdded(e, ElementOf(last), EventsFrom(rest, all));
      } else {
        NoteIs(last, rest, all);
        ChildAdded(e, NoteOf(last), EventsFrom(rest, all));
      }
    }
  }

  /** The rest of an element from its `/>` or its `>` on. */
  lemma {:induction false} BodyIs(t: Tree, d: Dom, rest: seq<Token>, open: seq<Option<string>>)
    requires Derives(t) && NamesMatch(t) && Root(t) == BODY
    ensures var e := BodyOf(t, d);
            e.name == d.name && e.attrs == d.attrs
            && WalkAll(d.children) + EventsFrom(Yield(t) + rest, open + [d.value])
               == WalkAll(e.children) + ([Ends(e.value)] + EventsFrom(rest, open))
    decreases t
  {
    hide EventsFrom, WalkAll, ContentOf, Derives, NamesMatch, Yields, Text;
    NonterminalIsNode(t);
    RuleOf(t);
    KidOf(t, 0);
    KidOf(t, 1);
    LeafCode(t.kids[0]);
    var a := t.kids[0].token;
    if t.rule == 7 {
      LeafCode(t.kids[1]);
      Yields2(t.kids);
      var b := t.kids[1].token;
      Regroup([a], [b], rest);
      SlashRead(a, b, rest, open, d.value);
    } else {
      KidOf(t, 2);
      KidOf(t, 3);
      KidOf(t, 4);
      LeafCode(t.kids[2]);
      LeafCode(t.kids[4]);
      EndNameToken(t.kids[3]);
      Yields5(t.kids);
      var c, x, u := t.kids[2].token, Yield(t.kids[3])[0], t.kids[4].token;
      var tail := [c] + ([x] + ([u] + rest));
      assert Yield(t.kids[3]) == [x];
      FiveParts(a, Yield(t.kids[1]), c, x, u, rest);
      CloseRead(a, Yield(t.kids[1]) + tail, open + [d.value]);
      ContentIs(t.kids[1], d, tail, open);
      EndRead(c, x, u, rest, open, ContentOf(t.kids[1], d).value);
    }
  }

  lemma FiveParts(a: Token, content: seq<Token>, c: Token, x: Token, u: Token, rest: seq<Token>)
    ensures [a] + content + [c] + [x] + [u] + rest == [a] + (content + ([c] + ([x] + ([u] + rest))))
  {
    Regroup([x], [u], rest);
    Regroup([c], [x] + [u], rest);
    Regroup(content, [c] + ([x] + [u]), rest);
  }

  lemma MarkYields(t: Tree)
    requires Derives(t) && Root(t) == MARK
    ensures Yield(t) == []
  {
    hide Derives;
    NonterminalIsNode(t);
    RuleOf(t);
  }

  lemma FourParts(a: Token, attributes: seq<Token>, body: seq<Token>, rest: seq<Token>)
    ensures [a] + [] + attributes + body + rest == [a] + (attributes + (body + rest))
  {
    assert [a] + [] == [a];
  }

  /** A whole element. */
  lemma {:induction false} ElementIs(t: Tree, rest: seq<Token>, open: seq<Option<string>>)
    requires Derives(t) && NamesMatch(t) && Root(t) == ELEMENT
    ensures EventsFrom(Yield(t) + rest, open) == Walk(ElementOf(t)) + EventsFrom(rest, open)
    decreases t
  {
    hide EventsFrom, WalkAll, AttributeEvents, AttrsOf, BodyOf, Derives, NamesMatch, Yields, Text, Kind;
    NonterminalIsNode(t);
    RuleOf(t);
    KidOf(t, 0);
    KidOf(t, 1);
    KidOf(t, 2);
    KidOf(t, 3);
    LeafCode(t.kids[0]);
    MarkYields(t.kids[1]);
    Yields4(t.kids);
    var a, attributes, body := t.kids[0].token, t.kids[2], t.kids[3];
    var d, tail := NewDom(Text(t.kids[0])), Yield(t.kids[3]) + rest;
    var e := AttrsOf(attributes, d);
    FourParts(a, Yield(attributes), Yield(body), rest);
    StartRead(a, Yield(attributes) + tail, open);
    FirstToken(body, rest);
    AttributesAre(attributes, d, tail, open + [None]);
    BodyIs(body, e, rest, open);
    NothingBefore(EventsFrom(Yield(attributes) + tail, open + [None]));
    NothingBefore(EventsFrom(tail, open + [None]));
    var all := BodyOf(body, e);
    WalkIs(all, EventsFrom(rest, open));
  }

  /** The document of a parse tree, walked from its start to its end, is what the tokens say. */
  lemma DocumentIs(t: Tree, tokens: seq<Token>)
    requires ParseOf(t, tokens)
    ensures Walk(RootOf(t)) == Events(tokens)
  {
    hide EventsFrom, Walk, ElementOf, Derives, NamesMatch, Yields, Upto;
    NonterminalIsNode(t);
    RuleOf(t);
    KidOf(t, 0);
    KidOf(t, 1);
    KidOf(t, 2);
    Yields3(t.kids);
    var rest := UptoSplits(tokens);
    var a, b, c := Yield(t.kids[0]), Yield(t.kids[1]), Yield(t.kids[2]);
    assert a + b + c + rest == a + (b + (c + rest));
    MiscIs(t.kids[0], b + (c + rest));
    ElementIs(t.kids[1], c + rest, []);
    MiscIs(t.kids[2], rest);
    NothingLeft(rest);
    assert Walk(RootOf(t)) + [] == Walk(RootOf(t));
  }

  lemma NothingLeft(rest: seq<Token>)
    requires Kind(rest) == EOF
    ensures EventsFrom(rest, []) == []
  {
    TranslateIsPositive(rest);
  }

  /** An accepted document, walked from its start to its end, is what the tokens say from left to right, and no other
      document is. */
  lemma AcceptedDocument(tokens: seq<Token>)
    ensures Parse(tokens).Accepted? ==>
              var root := Parse(tokens).root;
              root.Some? && Walk(root.value) == Events(tokens) && forall d :: Walk(d) == Events(tokens) ==> d == root.value
  {
    hide *;
    Soundness(tokens);
    if Parse(tokens).Accepted? {
      var t :| ParseOf(t, tokens) && Parse(tokens) == Accepted(Some(RootOf(t)));
      DocumentIs(t, tokens);
      forall d | Walk(d) == Events(tokens)
        ensures d == RootOf(t)
      {
        SameWalk(d, [], RootOf(t), []);
      }
    }
  }
}
