/** Parse trees of the 17-rule grammar, the document a tree stands for, and the soundness of the driver. */
module LrSoundness {
  import opened LrTables
  import opened LrParser
  import opened Sequences

  datatype Tree = Leaf(token: Token) | Node(rule: nat, kids: seq<Tree>)

  function Root(t: Tree): nat {
    match t
    case Leaf(token) => if token.code <= 0 then EOF else Translate(token.code)
    case Node(rule, _) => Lhs(rule)
  }

  function Roots(ts: seq<Tree>): seq<int> {
    seq(|ts|, i requires 0 <= i < |ts| => Root(ts[i]) as int)
  }

  /** Every node applies a rule of the grammar. */
  predicate Derives(t: Tree) {
    t.Node? ==> 1 <= t.rule <= 17 && Roots(t.kids) == Rhs(t.rule) && forall k :: k in t.kids ==> Derives(k)
  }

  function Yield(t: Tree): seq<Token>
    decreases t, 0
  {
    match t
    case Leaf(token) => if token.code <= 0 then [] else [token]
    case Node(_, kids) => Yields(kids)
  }

  function Yields(ts: seq<Tree>): seq<Token>
    decreases ts, 1
  {
    if ts == [] then [] else Yields(ts[..|ts| - 1]) + Yield(ts[|ts| - 1])
  }

  /** The lexeme of a token, or of the name in an end tag. */
  function Text(t: Tree): string {
    match t
    case Leaf(token) => token.text
    case Node(rule, kids) => if rule == 13 && |kids| == 1 && kids[0].Leaf? then kids[0].token.text else ""
  }

  /** In every element the name of the end tag is that of the start tag. */
  predicate NamesMatch(t: Tree) {
    t.Node? ==>
      (forall k :: k in t.kids ==> NamesMatch(k))
      && (t.rule == 6 && |t.kids| == 4 && t.kids[3].Node? && t.kids[3].rule == 8 && |t.kids[3].kids| == 5
          ==> Text(t.kids[3].kids[3]) == Text(t.kids[0]))
  }

  // ---------- the document of a tree ----------

  function AttrOf(t: Tree, d: Dom): Dom {
    if t.Node? && t.rule == 16 && |t.kids| == 1 then AddAttr(d, Text(t.kids[0]), "")
    else if t.Node? && t.rule == 17 && |t.kids| == 3 then AddAttr(d, Text(t.kids[0]), Text(t.kids[2]))
    else d
  }

  function AttrsOf(t: Tree, d: Dom): Dom {
    if t.Node? && t.rule == 14 && |t.kids| == 2 then AttrOf(t.kids[1], AttrsOf(t.kids[0], d)) else d
  }

  function NoteOf(t: Tree): Dom {
    CommentDom(if t.Node? && |t.kids| == 1 then Text(t.kids[0]) else "")
  }

  /** The element `d` with the data, elements and comments of its content. */
  function ContentOf(t: Tree, d: Dom): Dom
    decreases t
  {
    if t.Node? && |t.kids| == 2 then
      var e := ContentOf(t.kids[0], d);
      if t.rule == 9 then e.(value := Some(Text(t.kids[1])))
      else if t.rule == 10 then AddChild(e, ElementOf(t.kids[1]))
      else if t.rule == 11 then AddChild(e, NoteOf(t.kids[1]))
      else d
    else d
  }

  function BodyOf(t: Tree, d: Dom): Dom
    decreases t
  {
    if t.Node? && t.rule == 8 && |t.kids| == 5 then ContentOf(t.kids[1], d) else d
  }

  function ElementOf(t: Tree): Dom
    decreases t
  {
    if t.Node? && t.rule == 6 && |t.kids| == 4 then
      BodyOf(t.kids[3], AttrsOf(t.kids[2], NewDom(Text(t.kids[0]))))
    else NewDom("")
  }

  /** The root element of a document tree. */
  function RootOf(t: Tree): Dom {
    if t.Node? && t.rule == 1 && |t.kids| == 3 then ElementOf(t.kids[1]) else NewDom("")
  }

  // ---------- the stacks and the trees ----------

  /** What the tree above state `s` has done to the document; `left` is the tree below it. */
  function Effect(s: nat, t: Tree, left: Tree, m: Maker): Maker {
    if s == 6 then m.(elements := m.elements + [NewDom(Text(left))])
    else if s == 5 || s == 20 then Finish(m, ElementOf(t))
    else if s == 25 then Finish(m, RootOf(t))
    else if m.elements == [] then m
    else if s == 8 then WithTop(m, AttrsOf(t, Peek(m)))
    else if s == 13 then WithTop(m, AttrOf(t, Peek(m)))
    else if s == 15 then WithTop(m, ContentOf(t, Peek(m)))
    else if s == 19 then WithTop(m, AddChild(Peek(m), NoteOf(t)))
    else if s == 12 then Close(WithTop(m, BodyOf(t, Peek(m))))
    else m
  }

  lemma EffectNone(s: nat, t: Tree, left: Tree, m: Maker)
    requires s !in {5, 6, 8, 12, 13, 15, 19, 20, 25}
    ensures Effect(s, t, left, m) == m
  {
  }

  /** The document as the trees on the stack describe it, from the bottom up. */
  function Fold(ss: seq<nat>, ts: seq<Tree>): Maker
    requires |ss| == |ts| + 1
  {
    if ts == [] then Maker([], None)
    else
      var n := |ts| - 1;
      Effect(ss[n + 1], ts[n], if n == 0 then ts[0] else ts[n - 1], Fold(ss[..n + 1], ts[..n]))
  }

  lemma FoldPush(ss: seq<nat>, ts: seq<Tree>, q: nat, t: Tree)
    requires |ss| == |ts| + 1
    ensures Fold(ss + [q], ts + [t]) == Effect(q, t, if ts == [] then t else ts[|ts| - 1], Fold(ss, ts))
  {
    hide Effect;
    assert (ss + [q])[..|ts| + 1] == ss && (ts + [t])[..|ts|] == ts;
  }

  /** The document before the last `n` trees. */
  function Below(ss: seq<nat>, ts: seq<Tree>, n: nat): Maker
    requires |ss| == |ts| + 1 && n <= |ts|
  {
    Fold(ss[..|ss| - n], ts[..|ts| - n])
  }

  lemma BelowZero(ss: seq<nat>, ts: seq<Tree>)
    requires |ss| == |ts| + 1
    ensures Below(ss, ts, 0) == Fold(ss, ts)
  {
    assert ss[..|ss| - 0] == ss && ts[..|ts| - 0] == ts;
  }

  lemma BelowStep(ss: seq<nat>, ts: seq<Tree>, n: nat)
    requires |ss| == |ts| + 1 && n < |ts|
    ensures Below(ss, ts, 0) == Fold(ss, ts)
    ensures var k := |ts| - n - 1;
            Below(ss, ts, n) == Effect(ss[k + 1], ts[k], if k == 0 then ts[0] else ts[k - 1], Below(ss, ts, n + 1))
  {
    hide Effect;
    assert ss[..|ss| - 0] == ss && ts[..|ts| - 0] == ts;
    var k := |ts| - n - 1;
    assert ss[..k + 2][..k + 1] == ss[..k + 1] && ts[..k + 1][..k] == ts[..k];
  }

  /** A tree that does nothing to the document. */
  lemma BelowPlain(ss: seq<nat>, ts: seq<Tree>, n: nat)
    requires |ss| == |ts| + 1 && n < |ts| && ss[|ts| - n] !in {5, 6, 8, 12, 13, 15, 19, 20, 25}
    ensures Below(ss, ts, 0) == Fold(ss, ts)
    ensures Below(ss, ts, n) == Below(ss, ts, n + 1)
  {
    hide *;
    BelowStep(ss, ts, n);
    var k := |ts| - n - 1;
    EffectNone(ss[k + 1], ts[k], if k == 0 then ts[0] else ts[k - 1], Below(ss, ts, n + 1));
  }

  /** The names of the start tags whose end tag is still to come. */
  function OpenTags(ss: seq<nat>, ts: seq<Tree>): seq<string>
    requires |ss| == |ts| + 1
  {
    if ts == [] then []
    else
      var n := |ts| - 1;
      TagEffect(ss[n + 1], if n == 0 then ts[0] else ts[n - 1], OpenTags(ss[..n + 1], ts[..n]))
  }

  function TagEffect(s: nat, left: Tree, before: seq<string>): seq<string> {
    if s == 6 then before + [Text(left)]
    else if s == 12 && before != [] then before[..|before| - 1]
    else before
  }

  function Names(ds: seq<Dom>): seq<string> {
    seq(|ds|, i requires 0 <= i < |ds| => ds[i].name)
  }

  lemma AttrsKeepName(t: Tree, d: Dom)
    ensures AttrsOf(t, d).name == d.name
  {
  }

  lemma ContentKeepsName(t: Tree, d: Dom)
    ensures ContentOf(t, d).name == d.name
    decreases t
  {
    if t.Node? && |t.kids| == 2 {
      ContentKeepsName(t.kids[0], d);
    }
  }

  lemma NamesWithTop(m: Maker, d: Dom)
    requires m.elements != [] && d.name == Peek(m).name
    ensures Names(WithTop(m, d).elements) == Names(m.elements)
  {
  }

  lemma NamesClose(m: Maker)
    requires m.elements != []
    ensures Names(Close(m).elements) == Names(m.elements)[..|m.elements| - 1]
  {
  }

  lemma NamesOfEffect(s: nat, t: Tree, left: Tree, m: Maker)
    ensures Names(Effect(s, t, left, m).elements) == TagEffect(s, left, Names(m.elements))
  {
    hide AttrsOf, ContentOf, ElementOf, AttrOf, RootOf, NoteOf, BodyOf, Text;
    if m.elements != [] && s != 6 {
      var d := Peek(m);
      AttrsKeepName(t, d);
      BodyKeepsName(t, d);
      ContentKeepsName(t, d);
      AttrKeepsName(t, d);
      if s == 12 {
        NamesWithTop(m, BodyOf(t, d));
        NamesClose(WithTop(m, BodyOf(t, d)));
      } else if s == 5 || s == 20 {
        NamesWithTop(m, AddChild(d, ElementOf(t)));
      } else if s == 25 {
        NamesWithTop(m, AddChild(d, RootOf(t)));
      } else if s == 8 {
        NamesWithTop(m, AttrsOf(t, d));
      } else if s == 13 {
        NamesWithTop(m, AttrOf(t, d));
      } else if s == 15 {
        NamesWithTop(m, ContentOf(t, d));
      } else if s == 19 {
        NamesWithTop(m, AddChild(d, NoteOf(t)));
      }
    }
  }

  lemma AttrKeepsName(t: Tree, d: Dom)
    ensures AttrOf(t, d).name == d.name
  {
  }

  lemma BodyKeepsName(t: Tree, d: Dom)
    ensures BodyOf(t, d).name == d.name
  {
    hide ContentOf;
    if t.Node? && t.rule == 8 && |t.kids| == 5 {
      ContentKeepsName(t.kids[1], d);
    }
  }

  /** The element stack is always the chain of the open start tags. */
  lemma {:induction false} ElementsAreOpenTags(ss: seq<nat>, ts: seq<Tree>)
    requires |ss| == |ts| + 1
    ensures Names(Fold(ss, ts).elements) == OpenTags(ss, ts)
    decreases |ts|
  {
    hide Effect, TagEffect, Names;
    if ts != [] {
      var n := |ts| - 1;
      ElementsAreOpenTags(ss[..n + 1], ts[..n]);
      NamesOfEffect(ss[n + 1], ts[n], if n == 0 then ts[0] else ts[n - 1], Fold(ss[..n + 1], ts[..n]));
    } else {
      NoNames();
    }
  }

  lemma NoNames()
    ensures Names([]) == []
  {
  }

  // ---------- the invariant of the driver ----------

  /** Tree `t` with value `v` belongs above state `s`. */
  predicate Fits(s: nat, t: Tree, v: string) {
    Root(t) == Symbol(s) && Derives(t) && NamesMatch(t) && (t.Leaf? || t.rule == 13 ==> v == Text(t))
  }

  predicate AllFit(ss: seq<nat>, ts: seq<Tree>, vs: seq<string>) {
    |ss| == |ts| + 1 && |vs| == |ts| && forall i :: 0 <= i < |ts| ==> Fits(ss[i + 1], ts[i], vs[i])
  }

  /** The stack of trees that belongs to a configuration reached on `tokens`. */
  predicate TreesOf(c: Config, ts: seq<Tree>, tokens: seq<Token>) {
    Sound(c) && AllFit(c.ss, ts, c.vs) && Yields(ts) + c.input == tokens && c.maker == Fold(c.ss, ts)
    && BodyFits(c.ss, ts)
  }

  /** A finished body with an end tag on top fits the start tag three places below. */
  predicate BodyFits(ss: seq<nat>, ts: seq<Tree>)
    requires |ss| == |ts| + 1
  {
    Top(ss) == 12 && ts != [] && ts[|ts| - 1].Node? && ts[|ts| - 1].rule == 8 ==>
      |ts| >= 4 && |ts[|ts| - 1].kids| == 5 && Text(ts[|ts| - 1].kids[3]) == Text(ts[|ts| - 4])
  }

  lemma {:induction false} YieldsSplit(a: seq<Tree>, b: seq<Tree>)
    ensures Yields(a + b) == Yields(a) + Yields(b)
    decreases |b|
  {
    if b == [] {
      assert a + b == a;
    } else {
      var n := |b| - 1;
      assert (a + b)[..|a + b| - 1] == a + b[..n];
      YieldsSplit(a, b[..n]);
      assert Yields(a) + Yields(b[..n]) + Yield(b[n]) == Yields(a) + (Yields(b[..n]) + Yield(b[n]));
    }
  }

  lemma OneYield(t: Tree)
    ensures Yields([t]) == Yield(t)
  {
    assert [t][..0] == [];
    assert [] + Yield(t) == Yield(t);
  }

  /** The top of a chain of states, spelled out. */
  lemma ChainTop(ss: seq<nat>)
    requires Chain(ss)
    ensures var n := |ss|;
            (n >= 2 ==> Edge(ss[n - 2], ss[n - 1])) && (n >= 3 ==> Edge(ss[n - 3], ss[n - 2]))
            && (n >= 4 ==> Edge(ss[n - 4], ss[n - 3])) && (n >= 5 ==> Edge(ss[n - 5], ss[n - 4]))
            && (n >= 6 ==> Edge(ss[n - 6], ss[n - 5])) && (n >= 7 ==> Edge(ss[n - 7], ss[n - 6]))
            && (n >= 8 ==> Edge(ss[n - 8], ss[n - 7]))
            && forall i :: 0 < i < n ==> ss[i] != 0
  {
    forall i | 0 < i < |ss|
      ensures ss[i] != 0
    {
      assert Edge(ss[i - 1], ss[i]);
    }
  }

  /** Outside the root element no element is open. */
  lemma NothingOpen(ss: seq<nat>, ts: seq<Tree>)
    requires Chain(ss) && |ss| == |ts| + 1 && (Top(ss) == 1 || Top(ss) == 7)
    ensures Fold(ss, ts).elements == []
    ensures Top(ss) == 1 ==> Fold(ss, ts) == Maker([], None) && |ts| == 1
    ensures Top(ss) == 7 ==> |ts| == 3 && Fold(ss, ts) == Maker([], Some(ElementOf(ts[1])))
  {
    hide Edge, ElementOf;
    TopsOutside(ss);
    BelowStep(ss, ts, 0);
    if Top(ss) == 7 {
      BelowStep(ss, ts, 1);
      BelowStep(ss, ts, 2);
    }
  }

  lemma TopsOutside(ss: seq<nat>)
    requires Chain(ss)
    ensures Top(ss) == 1 ==> ss == [0, 1]
    ensures Top(ss) == 7 ==> ss == [0, 1, 5, 7]
  {
    ChainTop(ss);
  }

  lemma FoldLast(ss: seq<nat>, ts: seq<Tree>)
    requires |ss| == |ts| + 1 && ts != []
    ensures var n := |ts| - 1;
            Fold(ss, ts) == Effect(ss[n + 1], ts[n], if n == 0 then ts[0] else ts[n - 1], Fold(ss[..n + 1], ts[..n]))
            && Below(ss, ts, 1) == Fold(ss[..n + 1], ts[..n])
  {
    hide Effect;
  }

  /** Attributes and content change the element on top, but not its name. */
  lemma EffectKeepsTop(s: nat, t: Tree, left: Tree, m: Maker)
    requires (s == 8 || s == 10 || s == 15) && m.elements != []
    ensures Effect(s, t, left, m).elements != [] && Peek(Effect(s, t, left, m)).name == Peek(m).name
    ensures s == 10 ==> Effect(s, t, left, m) == m
  {
    hide AttrsOf, ContentOf;
    AttrsKeepName(t, Peek(m));
    ContentKeepsName(t, Peek(m));
  }

  lemma EffectOpens(t: Tree, left: Tree, m: Maker)
    ensures Effect(6, t, left, m).elements != [] && Peek(Effect(6, t, left, m)).name == Text(left)
  {
    hide Text;
  }

  /** How far below the top the start tag is, in a state within an element. */
  function NameAt(q: nat): nat {
    if q == 6 then 2 else if q == 8 then 3 else if q == 10 then 4 else if q == 15 then 5 else 0
  }

  /** The states below the top within an element. */
  lemma ElementStates(ss: seq<nat>)
    requires Chain(ss) && NameAt(Top(ss)) > 0
    ensures |ss| >= 3 && Chain(ss[..|ss| - 1])
    ensures Top(ss) == 6 || NameAt(ss[|ss| - 2]) + 1 == NameAt(Top(ss))
  {
    ChainTop(ss);
  }

  lemma {:induction false} StartTagBelow(ss: seq<nat>, ts: seq<Tree>)
    requires Chain(ss) && |ss| == |ts| + 1 && NameAt(Top(ss)) > 0
    ensures |ts| >= NameAt(Top(ss)) && Fold(ss, ts).elements != []
    ensures Peek(Fold(ss, ts)).name == Text(ts[|ts| - NameAt(Top(ss))])
    ensures Top(ss) == 10 ==> Fold(ss, ts) == Below(ss, ts, 1)
    decreases |ts|
  {
    ElementStates(ss);
    hide Chain, Effect, Text, Fold, Below;
    FoldLast(ss, ts);
    var n := |ts| - 1;
    var t, left, m := ts[n], ts[n - 1], Fold(ss[..n + 1], ts[..n]);
    if Top(ss) == 6 {
      EffectOpens(t, left, m);
    } else {
      StartTagBelow(ss[..n + 1], ts[..n]);
      EffectKeepsTop(Top(ss), t, left, m);
    }
  }

  /** Within an element the element is on top of the stack. */
  lemma InElement(ss: seq<nat>, ts: seq<Tree>)
    requires Chain(ss) && |ss| == |ts| + 1 && ss[|ts|] in {6, 8, 10, 15}
    ensures |ts| >= 2
    ensures Fold(ss, ts).elements != []
    ensures ss[|ts|] == 6 ==> Peek(Fold(ss, ts)).name == Text(ts[|ts| - 2])
    ensures ss[|ts|] == 8 ==> |ts| >= 3 && Peek(Fold(ss, ts)).name == Text(ts[|ts| - 3])
    ensures ss[|ts|] == 10 ==>
              |ts| >= 4 && Fold(ss, ts) == Below(ss, ts, 1) && Peek(Fold(ss, ts)).name == Text(ts[|ts| - 4])
    ensures ss[|ts|] == 15 ==> |ts| >= 5 && Peek(Fold(ss, ts)).name == Text(ts[|ts| - 5])
  {
    hide Chain, Text, Fold, Below;
    StartTagBelow(ss, ts);
  }

  // ---------- one round keeps the invariant ----------

  function LeafOf(input: seq<Token>): Tree {
    Leaf(if Kind(input) == EOF then Token(0, Lexeme(input)) else input[0])
  }

  lemma LeafIs(input: seq<Token>)
    ensures Root(LeafOf(input)) == Kind(input) && Text(LeafOf(input)) == Lexeme(input)
    ensures Yield(LeafOf(input)) + AfterShift(input) == input
  {
    if Kind(input) != EOF {
      assert [input[0]] + input[1..] == input;
    } else {
      TranslateIsPositive(input);
      assert [] + input == input;
    }
  }

  lemma TranslateIsPositive(input: seq<Token>)
    ensures Kind(input) == EOF <==> input == [] || input[0].code <= 0
  {
  }

  lemma ShiftKeeps(c: Config, ts: seq<Tree>, tokens: seq<Token>)
    requires TreesOf(c, ts, tokens) && ShiftOf(Top(c.ss), Kind(c.input)) > 0
    ensures var q := ShiftOf(Top(c.ss), Kind(c.input));
            TreesOf(Config(c.ss + [q], c.vs + [Lexeme(c.input)], AfterShift(c.input), c.maker),
                    ts + [LeafOf(c.input)], tokens)
  {
    var q, leaf := ShiftOf(Top(c.ss), Kind(c.input)), LeafOf(c.input);
    ShiftTargets(Top(c.ss), Kind(c.input));
    ShiftEdge(Top(c.ss), Kind(c.input));
    LeafIs(c.input);
    LeafDerives(c.input);
    FoldPush(c.ss, ts, q, leaf);
    var left := if ts == [] then leaf else ts[|ts| - 1];
    assert Effect(q, leaf, left, c.maker) == c.maker;
    YieldsSplit(ts, [leaf]);
    OneYield(leaf);
    var k, next := |ts|, Config(c.ss + [q], c.vs + [Lexeme(c.input)], AfterShift(c.input), c.maker);
    assert c.ss[..k + 1] == c.ss && c.vs[..k] == c.vs && ts[..k] == ts;
    assert Yields(ts) + (Yield(leaf) + AfterShift(c.input)) == tokens;
    hide ShiftOf, Edge, Symbol, Fold, Derives, NamesMatch, LeafOf, Root, Text, Yield, Yields, Kind, Effect;
    Assemble(c, ts, tokens, k, q, leaf, next);
  }

  lemma AppendYield(a: seq<Tree>, t: Tree, input: seq<Token>)
    ensures Yields(a + [t]) + input == Yields(a) + (Yield(t) + input)
  {
    YieldsSplit(a, [t]);
    OneYield(t);
    hide Yields, Yield;
    assert Yields(a) + Yield(t) + input == Yields(a) + (Yield(t) + input);
  }

  lemma AppendFits(ss: seq<nat>, ts: seq<Tree>, vs: seq<string>, q: nat, t: Tree, v: string)
    requires AllFit(ss, ts, vs) && Fits(q, t, v)
    ensures AllFit(ss + [q], ts + [t], vs + [v])
  {
    hide Fits;
  }

  lemma PrefixFits(ss: seq<nat>, ts: seq<Tree>, vs: seq<string>, k: nat)
    requires AllFit(ss, ts, vs) && k <= |ts|
    ensures AllFit(ss[..k + 1], ts[..k], vs[..k])
  {
    hide Fits;
  }

  /** The invariant after the trees above position `k` are replaced by one. */
  lemma Assemble(c: Config, ts: seq<Tree>, tokens: seq<Token>, k: nat, q: nat, t: Tree, next: Config)
    requires Sound(c) && AllFit(c.ss, ts, c.vs) && k <= |ts| && Edge(c.ss[k], q)
    requires |next.vs| == k + 1
    requires next.ss == c.ss[..k + 1] + [q] && next.vs == c.vs[..k] + [next.vs[k]] && Fits(q, t, next.vs[k])
    requires Yields(ts[..k]) + (Yield(t) + next.input) == tokens
    requires next.maker == Effect(q, t, if k == 0 then t else ts[k - 1], Fold(c.ss[..k + 1], ts[..k]))
    requires BodyFits(next.ss, ts[..k] + [t])
    ensures TreesOf(next, ts[..k] + [t], tokens)
  {
    PushKeepsChain(c.ss, k, q);
    FoldPush(c.ss[..k + 1], ts[..k], q, t);
    hide Edge, Symbol, Fold, Yield, Yields, Effect, Chain, BodyFits, Fits, AllFit;
    AppendYield(ts[..k], t, next.input);
    PrefixFits(c.ss, ts, c.vs, k);
    AppendFits(c.ss[..k + 1], ts[..k], c.vs[..k], q, t, next.vs[k]);
  }

  lemma LeafDerives(input: seq<Token>)
    ensures Derives(LeafOf(input)) && NamesMatch(LeafOf(input)) && LeafOf(input).Leaf?
  {
  }

  /** A shifted token does nothing to the document. */
  lemma ShiftTargets(s: nat, k: nat)
    requires ShiftOf(s, k) > 0
    ensures ShiftOf(s, k) !in {5, 6, 8, 12, 13, 15, 19, 20, 25}
    ensures k == EOF ==> Symbol(ShiftOf(s, k)) == EOF
  {
  }

  /** A token tree is a leaf. */
  lemma TerminalIsLeaf(t: Tree)
    requires Root(t) < YYNTBASE && Derives(t)
    ensures t.Leaf?
  {
  }

  function Kids(ts: seq<Tree>, r: nat): seq<Tree>
    requires Length(r) <= |ts|
  {
    ts[|ts| - Length(r)..]
  }

  function NewTrees(ts: seq<Tree>, r: nat): seq<Tree>
    requires Length(r) <= |ts|
  {
    ts[..|ts| - Length(r)] + [Node(r, Kids(ts, r))]
  }

  /** The tree below the one a reduction makes. */
  function LeftOf(ts: seq<Tree>, r: nat): Tree
    requires Length(r) <= |ts|
  {
    var k := |ts| - Length(r);
    if k == 0 then Node(r, Kids(ts, r)) else ts[k - 1]
  }

  /** What a reduction has to do to the document. */
  predicate ActsAs(ss: seq<nat>, ts: seq<Tree>, vs: seq<string>, r: nat)
    requires |ss| == |ts| + 1 && Length(r) <= |ts|
  {
    var m := Action(r, Fold(ss, ts), vs);
    var q := GotoOf(ss[|ss| - 1 - Length(r)], Lhs(r));
    m == Some(Effect(q, Node(r, Kids(ts, r)), LeftOf(ts, r), Below(ss, ts, Length(r))))
  }

  /** The values on top of the value stack that the action of rule `r` reads. */
  predicate ReadsTexts(ts: seq<Tree>, vs: seq<string>, r: nat)
    requires |vs| == |ts| && Length(r) <= |ts|
  {
    var n := |ts|;
    (r in {4, 9, 16, 17} ==> Val(vs, 0) == Text(ts[n - 1]))
    && (r == 5 ==> n > 0 && Val(vs, 0) == Text(ts[n - 1]))
    && (r == 17 ==> Val(vs, 2) == Text(ts[n - 3]))
    && (r == 8 ==> Val(vs, 1) == Text(ts[n - 2]))
  }

  lemma DocumentRule(ss: seq<nat>, ts: seq<Tree>, vs: seq<string>)
    requires Chain(ss) && |ss| == |ts| + 1 && Top(ss) == 7
    ensures Length(1) <= |ts| && ActsAs(ss, ts, vs, 1)
  {
    NothingOpen(ss, ts);
    TopsOutside(ss);
    assert Kids(ts, 1)[1] == ts[1];
    assert Below(ss, ts, 3) == Maker([], None);
  }

  lemma MiscRules(ss: seq<nat>, ts: seq<Tree>, vs: seq<string>, r: nat)
    requires Chain(ss) && |ss| == |ts| + 1 && r == DefaultOf(Top(ss)) && (r == 2 || r == 3 || r == 13)
    ensures Length(r) <= |ts| && ActsAs(ss, ts, vs, r)
  {
    hide AttrsOf, ContentOf, ElementOf, RootOf, NoteOf, AttrOf, Text, BodyOf;
    ChainTop(ss);
    BelowZero(ss, ts);
    if r == 2 {
      BelowStep(ss, ts, 0);
      BelowStep(ss, ts, 1);
    } else if r == 13 {
      BelowStep(ss, ts, 0);
    }
  }

  lemma CommentRule(ss: seq<nat>, ts: seq<Tree>, vs: seq<string>)
    requires Chain(ss) && |ss| == |ts| + 1 && |vs| == |ts| && Top(ss) == 2
    requires Length(4) <= |ts| && ReadsTexts(ts, vs, 4)
    ensures ActsAs(ss, ts, vs, 4)
  {
    hide AttrsOf, ContentOf, ElementOf, RootOf, AttrOf, Text, BodyOf;
    ChainTop(ss);
    BelowStep(ss, ts, 0);
    var n := |ts|;
    var s0, t0 := ss[..n], ts[..n - 1];
    assert Kids(ts, 4) == [ts[n - 1]];
    assert Top(s0) == ss[n - 1] && Chain(s0);
    if Top(s0) == 15 {
      InElement(s0, t0);
    } else {
      NothingOpen(s0, t0);
    }
  }

  lemma EmptyRules(ss: seq<nat>, ts: seq<Tree>, vs: seq<string>, r: nat)
    requires Chain(ss) && |ss| == |ts| + 1 && r == DefaultOf(Top(ss)) && (r == 12 || r == 15)
    ensures ActsAs(ss, ts, vs, r)
  {
    hide *;
    TopIs(ss);
    EmptyRuleTop(Top(ss), r, Fold(ss, ts), vs);
    BelowZero(ss, ts);
    StaysOpen(ss, ts);
    NothingAdded(r, Kids(ts, r), LeftOf(ts, r), Fold(ss, ts));
    ActsIs(ss, ts, vs, r);
  }

  lemma ActsIs(ss: seq<nat>, ts: seq<Tree>, vs: seq<string>, r: nat)
    requires |ss| == |ts| + 1 && Length(r) <= |ts|
    ensures ActsAs(ss, ts, vs, r)
            <==> Action(r, Fold(ss, ts), vs)
                 == Some(Effect(GotoOf(ss[|ss| - 1 - Length(r)], Lhs(r)), Node(r, Kids(ts, r)), LeftOf(ts, r),
                                Below(ss, ts, Length(r))))
  {
    hide Effect, GotoOf, Fold, Action, Kids, Lhs, LeftOf, Below, Length;
  }

  lemma TopIs(ss: seq<nat>)
    requires ss != []
    ensures Top(ss) == ss[|ss| - 1]
  {
  }

  lemma StaysOpen(ss: seq<nat>, ts: seq<Tree>)
    requires Chain(ss) && |ss| == |ts| + 1 && (Top(ss) == 6 || Top(ss) == 8 || Top(ss) == 10 || Top(ss) == 15)
    ensures Fold(ss, ts).elements != []
  {
    hide Fold, Below, Text;
    InElement(ss, ts);
  }

  lemma EmptyRuleTop(s: nat, r: nat, m: Maker, vs: seq<string>)
    requires r == DefaultOf(s) && (r == 12 || r == 15)
    ensures s == (if r == 12 then 10 else 6) && Length(r) == 0
    ensures GotoOf(s, Lhs(r)) == (if r == 12 then 15 else 8) && Action(r, m, vs) == Some(m)
  {
  }

  lemma NothingAdded(r: nat, kids: seq<Tree>, left: Tree, m: Maker)
    requires (r == 12 || r == 15) && m.elements != []
    ensures Effect(if r == 12 then 15 else 8, Node(r, kids), left, m) == m
  {
    assert WithTop(m, Peek(m)) == m;
  }

  lemma StartRule(ss: seq<nat>, ts: seq<Tree>, vs: seq<string>)
    requires Chain(ss) && |ss| == |ts| + 1 && |vs| == |ts| && Top(ss) == 3 && ReadsTexts(ts, vs, 5)
    ensures ActsAs(ss, ts, vs, 5)
  {
    hide AttrsOf, ContentOf, ElementOf, RootOf, NoteOf, AttrOf, Text, BodyOf;
    BelowZero(ss, ts);
  }

  /** Start tag, attributes and body together make the element and hand it on. */
  lemma ElementEffect(start: Tree, mark: Tree, attrs: Tree, body: Tree, m: Maker)
    ensures Effect(12, body, attrs, Effect(8, attrs, mark, Effect(6, mark, start, m)))
            == Finish(m, BodyOf(body, AttrsOf(attrs, NewDom(Text(start)))))
  {
    hide AttrsOf, BodyOf, Text;
    var d := NewDom(Text(start));
    var open1 := m.(elements := m.elements + [d]);
    assert Effect(6, mark, start, m) == open1;
    var open2 := Effect(8, attrs, mark, open1);
    assert open2 == m.(elements := m.elements + [AttrsOf(attrs, d)]);
    var e := BodyOf(body, AttrsOf(attrs, d));
    assert WithTop(open2, e) == m.(elements := m.elements + [e]);
    assert (m.elements + [e])[..|m.elements|] == m.elements;
  }

  lemma ElementRule(ss: seq<nat>, ts: seq<Tree>, vs: seq<string>)
    requires Chain(ss) && |ss| == |ts| + 1 && Top(ss) == 12
    ensures Length(6) <= |ts| && ActsAs(ss, ts, vs, 6)
  {
    ElementStack(ss);
    ElementFold(ss, ts);
    hide AttrsOf, BodyOf, Text, Fold, Below, Chain;
    var n, kids := |ts|, Kids(ts, 6);
    assert kids[0] == ts[n - 4] && kids[2] == ts[n - 2] && kids[3] == ts[n - 1] && |kids| == 4;
  }

  lemma ElementStack(ss: seq<nat>)
    requires Chain(ss) && Top(ss) == 12
    ensures |ss| >= 6 && Length(6) == 4
    ensures var n := |ss| - 1; ss[n] == 12 && ss[n - 1] == 8 && ss[n - 2] == 6 && ss[n - 3] == 3 && ss[n - 4] in {1, 15}
  {
    ChainTop(ss);
  }

  lemma ElementFold(ss: seq<nat>, ts: seq<Tree>)
    requires |ss| == |ts| + 1 && |ts| >= 5
    requires var n := |ts|; ss[n] == 12 && ss[n - 1] == 8 && ss[n - 2] == 6 && ss[n - 3] == 3
    ensures var n := |ts|;
            Fold(ss, ts) == Finish(Below(ss, ts, 4), BodyOf(ts[n - 1], AttrsOf(ts[n - 2], NewDom(Text(ts[n - 4])))))
  {
    hide *;
    var n := |ts|;
    BelowStep(ss, ts, 0);
    BelowStep(ss, ts, 1);
    BelowStep(ss, ts, 2);
    BelowPlain(ss, ts, 3);
    ElementEffect(ts[n - 4], ts[n - 3], ts[n - 2], ts[n - 1], Below(ss, ts, 4));
  }

  lemma EmptyBodyStates(ss: seq<nat>)
    requires Chain(ss) && Top(ss) == 14
    ensures |ss| >= 5 && ss[|ss| - 1] == 14 && ss[|ss| - 2] == 9 && ss[|ss| - 3] == 8
    ensures Chain(ss[..|ss| - 2]) && Top(ss[..|ss| - 2]) == 8
    ensures Length(7) == 2 && ss[|ss| - 1 - Length(7)] == 8 && GotoOf(8, Lhs(7)) == 12
  {
    ChainTop(ss);
  }

  lemma EmptyBodyRule(ss: seq<nat>, ts: seq<Tree>, vs: seq<string>)
    requires Chain(ss) && |ss| == |ts| + 1 && Top(ss) == 14
    ensures Length(7) <= |ts| && ActsAs(ss, ts, vs, 7)
  {
    hide *;
    EmptyBodyStates(ss);
    EmptyBodyFold(ss, ts);
    BelowIs(ss, ts, 2);
    StaysOpen(ss[..|ss| - 2], ts[..|ts| - 2]);
    EmptyBodyEffect(Node(7, Kids(ts, 7)), LeftOf(ts, 7), Below(ss, ts, 2));
    CloseActs(Below(ss, ts, 2), vs);
    ActsIs(ss, ts, vs, 7);
  }

  lemma CloseActs(m: Maker, vs: seq<string>)
    requires m.elements != []
    ensures Action(7, m, vs) == Some(Close(m))
  {
  }

  lemma EmptyBodyFold(ss: seq<nat>, ts: seq<Tree>)
    requires |ss| == |ts| + 1 && |ts| >= 4 && ss[|ts|] == 14 && ss[|ts| - 1] == 9
    ensures Fold(ss, ts) == Below(ss, ts, 2)
  {
    hide *;
    BelowPlain(ss, ts, 0);
    BelowPlain(ss, ts, 1);
  }

  lemma EmptyBodyEffect(t: Tree, left: Tree, m: Maker)
    requires t.Node? && t.rule == 7 && m.elements != []
    ensures Effect(12, t, left, m) == Close(m)
  {
    assert WithTop(m, Peek(m)) == m;
  }

  lemma BodyStack(ss: seq<nat>, ts: seq<Tree>)
    requires Chain(ss) && |ss| == |ts| + 1 && Top(ss) == 24
    ensures |ts| >= 8
    ensures var n := |ts|; ss[n] == 24 && ss[n - 1] == 23 && ss[n - 2] == 17 && ss[n - 3] == 15 && ss[n - 4] == 10
                           && ss[n - 5] == 8
    ensures Chain(ss[..|ts| - 4]) && ss[|ts| - 5] == 8 && |ss[..|ts| - 4]| == |ts| - 4
  {
    ChainTop(ss);
  }

  lemma BodyName(ss: seq<nat>, ts: seq<Tree>)
    requires |ss| == |ts| + 1 && |ts| >= 8 && Chain(ss[..|ts| - 4]) && ss[|ts| - 5] == 8
    ensures Below(ss, ts, 5).elements != [] && Peek(Below(ss, ts, 5)).name == Text(ts[|ts| - 8])
  {
    hide *;
    var n := |ts|;
    BelowIs(ss, ts, 5);
    InElement(ss[..n - 4], ts[..n - 5]);
    assert ts[..n - 5][n - 8] == ts[n - 8];
  }

  lemma BodyFold(ss: seq<nat>, ts: seq<Tree>)
    requires Chain(ss) && |ss| == |ts| + 1 && Top(ss) == 24
    ensures |ts| >= 8
    ensures Fold(ss, ts) == Below(ss, ts, 3)
    ensures Below(ss, ts, 5).elements != [] && Peek(Below(ss, ts, 5)).name == Text(ts[|ts| - 8])
    ensures Below(ss, ts, 3) == WithTop(Below(ss, ts, 5), ContentOf(ts[|ts| - 4], Peek(Below(ss, ts, 5))))
  {
    hide *;
    BodyStack(ss, ts);
    var n := |ts|;
    BodyPlain(ss, ts);
    BodyName(ss, ts);
    var m := Below(ss, ts, 5);
    BelowStep(ss, ts, 3);
    ContentEffect(ts[n - 4], ts[n - 5], m);
  }

  lemma BodyPlain(ss: seq<nat>, ts: seq<Tree>)
    requires |ss| == |ts| + 1 && |ts| >= 8
    requires var n := |ts|; ss[n] == 24 && ss[n - 1] == 23 && ss[n - 2] == 17 && ss[n - 4] == 10
    ensures Fold(ss, ts) == Below(ss, ts, 3) && Below(ss, ts, 4) == Below(ss, ts, 5)
  {
    hide *;
    BelowPlain(ss, ts, 0);
    BelowPlain(ss, ts, 1);
    BelowPlain(ss, ts, 2);
    BelowPlain(ss, ts, 4);
  }

  lemma BelowIs(ss: seq<nat>, ts: seq<Tree>, n: nat)
    requires |ss| == |ts| + 1 && n <= |ts|
    ensures Below(ss, ts, n) == Fold(ss[..|ss| - n], ts[..|ts| - n])
  {
  }

  lemma ContentEffect(t: Tree, left: Tree, m: Maker)
    requires m.elements != []
    ensures Effect(15, t, left, m) == WithTop(m, ContentOf(t, Peek(m)))
  {
  }

  lemma BodyRule(ss: seq<nat>, ts: seq<Tree>, vs: seq<string>)
    requires Chain(ss) && |ss| == |ts| + 1 && |vs| == |ts| && Top(ss) == 24
    requires Length(8) <= |ts| && ReadsTexts(ts, vs, 8)
    ensures |ts| >= 8 && (Action(8, Fold(ss, ts), vs).Some? <==> Text(ts[|ts| - 2]) == Text(ts[|ts| - 8]))
    ensures Action(8, Fold(ss, ts), vs).Some? ==> ActsAs(ss, ts, vs, 8)
  {
    hide ContentOf, Text, Edge, Below;
    BodyFold(ss, ts);
    BodyStack(ss, ts);
    ContentKeepsName(ts[|ts| - 4], Peek(Below(ss, ts, 5)));
    assert Kids(ts, 8)[1] == ts[|ts| - 4] && |Kids(ts, 8)| == 5;
  }

  lemma LeftIs(ts: seq<Tree>, r: nat)
    requires Length(r) < |ts|
    ensures LeftOf(ts, r) == ts[|ts| - Length(r) - 1]
  {
  }

  /** Within an element there is something below the top. */
  lemma TreesBelow(ss: seq<nat>, ts: seq<Tree>)
    requires Chain(ss) && |ss| == |ts| + 1 && (Top(ss) == 6 || Top(ss) == 8 || Top(ss) == 10 || Top(ss) == 15)
    ensures |ts| >= 2
  {
    hide Fold, Below, Text;
    InElement(ss, ts);
  }

  lemma ContentStates(ss: seq<nat>, r: nat)
    requires Chain(ss) && r == DefaultOf(Top(ss)) && (r == 9 || r == 10 || r == 11)
    ensures |ss| >= 3 && Chain(ss[..|ss| - 2]) && Top(ss[..|ss| - 2]) == 10
    ensures ss[|ss| - 2] == 15 && ss[|ss| - 1] == if r == 9 then 18 else if r == 10 then 20 else 19
    ensures Length(r) == 2 && ss[|ss| - 1 - Length(r)] == 10 && GotoOf(10, Lhs(r)) == 15
  {
    ChainTop(ss);
  }

  /** Content and what follows it make a longer content. */
  lemma ContentActs(ts: seq<Tree>, vs: seq<string>, r: nat, q: nat, left: Tree, m: Maker)
    requires (r == 9 || r == 10 || r == 11) && q == if r == 9 then 18 else if r == 10 then 20 else 19
    requires |vs| == |ts| && Length(r) == 2 <= |ts| && ReadsTexts(ts, vs, r) && m.elements != []
    ensures var last, prev := ts[|ts| - 1], ts[|ts| - 2];
            Action(r, Effect(q, last, prev, Effect(15, prev, left, m)), vs) == Some(Effect(15, Node(r, Kids(ts, r)), left, m))
  {
    hide ElementOf, NoteOf, Text;
    var kids := Kids(ts, r);
    assert kids[0] == ts[|ts| - 2] && kids[1] == ts[|ts| - 1] && |kids| == 2;
    var e := ContentOf(kids[0], Peek(m));
    assert ContentOf(Node(r, kids), Peek(m)) ==
           if r == 9 then e.(value := Some(Text(kids[1])))
           else if r == 10 then AddChild(e, ElementOf(kids[1])) else AddChild(e, NoteOf(kids[1]));
    hide ContentOf;
    assert Effect(15, kids[0], left, m) == WithTop(m, e);
  }

  lemma ContentRules(ss: seq<nat>, ts: seq<Tree>, vs: seq<string>, r: nat)
    requires Chain(ss) && |ss| == |ts| + 1 && |vs| == |ts| && r == DefaultOf(Top(ss)) && (r == 9 || r == 10 || r == 11)
    requires Length(r) <= |ts| && ReadsTexts(ts, vs, r)
    ensures ActsAs(ss, ts, vs, r)
  {
    hide *;
    ContentStates(ss, r);
    var n := |ts|;
    StaysOpen(ss[..n - 1], ts[..n - 2]);
    BelowIs(ss, ts, 2);
    BelowStep(ss, ts, 0);
    BelowStep(ss, ts, 1);
    TreesBelow(ss[..n - 1], ts[..n - 2]);
    LeftIs(ts, r);
    ContentActs(ts, vs, r, ss[n], ts[n - 3], Below(ss, ts, 2));
    ActsIs(ss, ts, vs, r);
  }

  lemma AttributesStates(ss: seq<nat>)
    requires Chain(ss) && Top(ss) == 13
    ensures |ss| >= 3 && Chain(ss[..|ss| - 2]) && Top(ss[..|ss| - 2]) == 6
    ensures ss[|ss| - 2] == 8 && ss[|ss| - 1] == 13
    ensures Length(14) == 2 && ss[|ss| - 1 - Length(14)] == 6 && GotoOf(6, Lhs(14)) == 8
  {
    ChainTop(ss);
  }

  lemma AttributesAct(ts: seq<Tree>, vs: seq<string>, left: Tree, m: Maker)
    requires |ts| >= 2 && Length(14) == 2 && m.elements != []
    ensures var last, prev := ts[|ts| - 1], ts[|ts| - 2];
            Action(14, Effect(13, last, prev, Effect(8, prev, left, m)), vs) == Some(Effect(8, Node(14, Kids(ts, 14)), left, m))
  {
    hide AttrOf;
    var kids := Kids(ts, 14);
    assert kids[0] == ts[|ts| - 2] && kids[1] == ts[|ts| - 1] && |kids| == 2;
    var d := AttrsOf(kids[0], Peek(m));
    assert AttrsOf(Node(14, kids), Peek(m)) == AttrOf(kids[1], d);
    hide AttrsOf;
    assert Effect(8, kids[0], left, m) == WithTop(m, d);
  }

  lemma AttributesRule(ss: seq<nat>, ts: seq<Tree>, vs: seq<string>)
    requires Chain(ss) && |ss| == |ts| + 1 && Top(ss) == 13
    ensures Length(14) <= |ts| && ActsAs(ss, ts, vs, 14)
  {
    hide *;
    AttributesStates(ss);
    var n := |ts|;
    StaysOpen(ss[..n - 1], ts[..n - 2]);
    TreesBelow(ss[..n - 1], ts[..n - 2]);
    BelowIs(ss, ts, 2);
    BelowStep(ss, ts, 0);
    BelowStep(ss, ts, 1);
    LeftIs(ts, 14);
    AttributesAct(ts, vs, ts[n - 3], Below(ss, ts, 2));
    ActsIs(ss, ts, vs, 14);
  }

  lemma BareAttributeStates(ss: seq<nat>)
    requires Chain(ss) && Top(ss) == 11
    ensures |ss| >= 4 && ss[|ss| - 1] == 11 && ss[|ss| - 2] == 8 && Chain(ss[..|ss| - 1]) && Top(ss[..|ss| - 1]) == 8
    ensures Length(16) == 1 && ss[|ss| - 1 - Length(16)] == 8 && GotoOf(8, Lhs(16)) == 13
  {
    ChainTop(ss);
  }

  lemma BareAttributeActs(ts: seq<Tree>, vs: seq<string>, left: Tree, m: Maker)
    requires |vs| == |ts| && |ts| >= 1 && Length(16) == 1 && ReadsTexts(ts, vs, 16) && m.elements != []
    ensures Action(16, m, vs) == Some(Effect(13, Node(16, Kids(ts, 16)), left, m))
  {
    hide Text;
    assert Kids(ts, 16) == [ts[|ts| - 1]];
  }

  lemma BareAttributeRule(ss: seq<nat>, ts: seq<Tree>, vs: seq<string>)
    requires Chain(ss) && |ss| == |ts| + 1 && |vs| == |ts| && Top(ss) == 11 && Length(16) <= |ts|
             && ReadsTexts(ts, vs, 16)
    ensures ActsAs(ss, ts, vs, 16)
  {
    hide *;
    BareAttributeStates(ss);
    BelowPlain(ss, ts, 0);
    BelowIs(ss, ts, 1);
    StaysOpen(ss[..|ts|], ts[..|ts| - 1]);
    BareAttributeActs(ts, vs, LeftOf(ts, 16), Below(ss, ts, 1));
    ActsIs(ss, ts, vs, 16);
  }

  lemma AttributeStates(ss: seq<nat>)
    requires Chain(ss) && Top(ss) == 21
    ensures |ss| >= 4 && Chain(ss[..|ss| - 3]) && Top(ss[..|ss| - 3]) == 8
    ensures ss[|ss| - 1] == 21 && ss[|ss| - 2] == 16 && ss[|ss| - 3] == 11 && ss[|ss| - 4] == 8
  {
    ChainTop(ss);
  }

  lemma AttributeActs(ts: seq<Tree>, vs: seq<string>, left: Tree, m: Maker)
    requires |vs| == |ts| && |ts| >= 3 && Length(17) == 3 && ReadsTexts(ts, vs, 17) && m.elements != []
    ensures Action(17, m, vs) == Some(Effect(13, Node(17, Kids(ts, 17)), left, m))
  {
    hide Text;
    var kids := Kids(ts, 17);
    assert kids[0] == ts[|ts| - 3] && kids[2] == ts[|ts| - 1] && |kids| == 3;
  }

  lemma AttributeGoto()
    ensures Length(17) == 3 && GotoOf(8, Lhs(17)) == 13
  {
  }

  lemma AttributeRule(ss: seq<nat>, ts: seq<Tree>, vs: seq<string>)
    requires Chain(ss) && |ss| == |ts| + 1 && |vs| == |ts| && Top(ss) == 21 && Length(17) <= |ts|
             && ReadsTexts(ts, vs, 17)
    ensures ActsAs(ss, ts, vs, 17)
  {
    hide *;
    AttributeGoto();
    AttributeStates(ss);
    BelowPlain(ss, ts, 0);
    BelowPlain(ss, ts, 1);
    BelowPlain(ss, ts, 2);
    BelowIs(ss, ts, 3);
    StaysOpen(ss[..|ss| - 3], ts[..|ts| - 3]);
    AttributeActs(ts, vs, LeftOf(ts, 17), Below(ss, ts, 3));
    ActsIs(ss, ts, vs, 17);
  }

  lemma ValuesRead(c: Config, ts: seq<Tree>, tokens: seq<Token>, r: nat)
    requires TreesOf(c, ts, tokens) && r > 0 && r == DefaultOf(Top(c.ss)) && Length(r) <= |ts|
    ensures ReadsTexts(ts, c.vs, r)
    ensures r == 13 ==> Val(c.vs, 0) == Text(ts[|ts| - 1]) && ts[|ts| - 1].Leaf?
  {
    hide Fold, Yields, BodyFits, Text, NamesMatch;
    var n := |ts|;
    ChainTop(c.ss);
    assert n > 0 ==> Fits(c.ss[n], ts[n - 1], c.vs[n - 1]);
    assert n > 1 ==> Fits(c.ss[n - 1], ts[n - 2], c.vs[n - 2]);
    assert n > 2 ==> Fits(c.ss[n - 2], ts[n - 3], c.vs[n - 3]);
    if r in {4, 5, 9, 13, 16, 17} {
      TerminalIsLeaf(ts[n - 1]);
    }
    if r == 17 {
      TerminalIsLeaf(ts[n - 3]);
    }
    if r == 8 {
      EndNameIsRule13(ts[n - 2]);
    }
  }

  lemma EndNameIsRule13(t: Tree)
    requires Root(t) == ENDNAME && Derives(t)
    ensures t.Node? && t.rule == 13
  {
  }

  /** Every reduction does to the document what its tree stands for; only a wrong end name stops one. */
  lemma ReduceActs(c: Config, ts: seq<Tree>, tokens: seq<Token>, r: nat)
    requires TreesOf(c, ts, tokens) && r > 0 && r == DefaultOf(Top(c.ss)) && Length(r) <= |ts|
    ensures r != 8 ==> ActsAs(c.ss, ts, c.vs, r)
    ensures r == 8 ==> |ts| >= 8
                       && (Action(8, c.maker, c.vs).Some? <==> Text(ts[|ts| - 2]) == Text(ts[|ts| - 8]))
                       && (Action(8, c.maker, c.vs).Some? ==> ActsAs(c.ss, ts, c.vs, 8))
  {
    ValuesRead(c, ts, tokens, r);
    hide ActsAs, ReadsTexts, Fold, AllFit, Action, Text;
    var ss, vs := c.ss, c.vs;
    DefaultTop(Top(ss));
    if r == 1 {
      DocumentRule(ss, ts, vs);
    } else if r == 2 || r == 3 || r == 13 {
      MiscRules(ss, ts, vs, r);
    } else if r == 4 {
      CommentRule(ss, ts, vs);
    } else if r == 5 {
      StartRule(ss, ts, vs);
    } else if r == 6 {
      ElementRule(ss, ts, vs);
    } else if r == 7 {
      EmptyBodyRule(ss, ts, vs);
    } else if r == 8 {
      BodyRule(ss, ts, vs);
    } else if r == 9 || r == 10 || r == 11 {
      ContentRules(ss, ts, vs, r);
    } else if r == 12 || r == 15 {
      EmptyRules(ss, ts, vs, r);
    } else if r == 14 {
      AttributesRule(ss, ts, vs);
    } else if r == 16 {
      BareAttributeRule(ss, ts, vs);
    } else {
      AttributeRule(ss, ts, vs);
    }
  }

  lemma DefaultTop(s: nat)
    ensures var r := DefaultOf(s);
            (r == 1 ==> s == 7) && (r == 4 ==> s == 2) && (r == 5 ==> s == 3) && (r == 6 ==> s == 12)
            && (r == 7 ==> s == 14) && (r == 8 ==> s == 24) && (r == 14 ==> s == 13) && (r == 16 ==> s == 11)
            && (r == 17 ==> s == 21)
  {
  }

  lemma KidsFit(c: Config, ts: seq<Tree>, r: nat, i: nat)
    requires AllFit(c.ss, ts, c.vs) && Length(r) <= |ts| && i < Length(r)
    ensures Kids(ts, r)[i] == ts[|ts| - Length(r) + i]
    ensures Root(Kids(ts, r)[i]) == Symbol(c.ss[|c.ss| - Length(r) + i])
    ensures Derives(Kids(ts, r)[i]) && NamesMatch(Kids(ts, r)[i])
  {
    hide Root, Symbol, Derives, NamesMatch, Text;
    var j := |ts| - Length(r) + i;
    assert Fits(c.ss[j + 1], ts[j], c.vs[j]);
  }

  lemma NodeDerives(c: Config, ts: seq<Tree>, r: nat)
    requires Sound(c) && AllFit(c.ss, ts, c.vs) && r > 0 && r == DefaultOf(Top(c.ss)) && Length(r) <= |ts|
    ensures Derives(Node(r, Kids(ts, r)))
    ensures forall t :: t in Kids(ts, r) ==> NamesMatch(t)
  {
    ReduceEdge(c.ss, r);
    RhsIs(r);
    RulesAre(r);
    var kids := Kids(ts, r);
    hide Edge, GotoOf, Rhs, Symbol, DefaultOf, Root, NamesMatch, AllFit, Length;
    forall i | 0 <= i < |kids|
      ensures Roots(kids)[i] == Rhs(r)[i]
    {
      KidsFit(c, ts, r, i);
    }
    assert Roots(kids) == Rhs(r);
    forall t | t in kids
      ensures Derives(t) && NamesMatch(t)
    {
      var i :| 0 <= i < |kids| && kids[i] == t;
      KidsFit(c, ts, r, i);
    }
  }

  lemma NewNodeFits(c: Config, ts: seq<Tree>, tokens: seq<Token>, r: nat)
    requires TreesOf(c, ts, tokens) && r > 0 && r == DefaultOf(Top(c.ss)) && Length(r) <= |ts|
    ensures var k := |ts| - Length(r);
            Fits(GotoOf(c.ss[k], Lhs(r)), Node(r, Kids(ts, r)), DefaultValue(c.vs, Length(r)))
  {
    ValuesRead(c, ts, tokens, r);
    ReduceEdge(c.ss, r);
    NodeDerives(c, ts, r);
    DefaultTop(Top(c.ss));
    hide Edge, Fold, Yields, GotoOf, Action, Derives, AllFit, DefaultOf, Symbol, Rhs, ReadsTexts;
    var kids := Kids(ts, r);
    if r == 6 {
      assert |kids| == 4 && kids[3] == ts[|ts| - 1] && kids[0] == ts[|ts| - 4];
    }
    if r == 13 {
      assert kids == [ts[|ts| - 1]];
    }
  }

  lemma NewBodyFits(c: Config, ts: seq<Tree>, tokens: seq<Token>, r: nat)
    requires TreesOf(c, ts, tokens) && r > 0 && r == DefaultOf(Top(c.ss)) && Length(r) <= |ts|
    requires Action(r, c.maker, c.vs).Some?
    ensures var k := |ts| - Length(r);
            BodyFits(c.ss[..k + 1] + [GotoOf(c.ss[k], Lhs(r))], NewTrees(ts, r))
  {
    if r == 8 {
      ReduceActs(c, ts, tokens, 8);
      hide TreesOf, ActsAs, Action, DefaultOf, GotoOf, Text;
      var n, kids := |ts|, Kids(ts, 8);
      assert kids[3] == ts[n - 2] && NewTrees(ts, 8)[n - 8] == ts[n - 8] && |kids| == 5;
    }
  }

  lemma TreesSize(c: Config, ts: seq<Tree>, tokens: seq<Token>)
    requires TreesOf(c, ts, tokens)
    ensures Sound(c) && AllFit(c.ss, ts, c.vs) && |c.ss| == |ts| + 1 && c.maker == Fold(c.ss, ts)
  {
    hide Fits, Fold, Yields, BodyFits;
  }

  lemma TreesYield(c: Config, ts: seq<Tree>, tokens: seq<Token>)
    requires TreesOf(c, ts, tokens)
    ensures Yields(ts) + c.input == tokens
  {
    hide Fits, Fold, Yields, BodyFits, Sound;
  }

  lemma ReduceYield(c: Config, ts: seq<Tree>, tokens: seq<Token>, r: nat)
    requires TreesOf(c, ts, tokens) && Length(r) <= |ts|
    ensures Yields(ts[..|ts| - Length(r)]) + (Yield(Node(r, Kids(ts, r))) + c.input) == tokens
  {
    hide *;
    var k := |ts| - Length(r);
    TreesYield(c, ts, tokens);
    YieldsOfNode(ts, r);
    var a, b := Yields(ts[..k]), Yield(Node(r, Kids(ts, r)));
    assert a + b + c.input == a + (b + c.input);
  }

  lemma YieldsOfNode(ts: seq<Tree>, r: nat)
    requires Length(r) <= |ts|
    ensures Yields(ts) == Yields(ts[..|ts| - Length(r)]) + Yield(Node(r, Kids(ts, r)))
  {
    hide Length;
    var k := |ts| - Length(r);
    assert ts == ts[..k] + ts[k..];
    YieldsSplit(ts[..k], ts[k..]);
  }

  lemma ReduceMaker(c: Config, ts: seq<Tree>, tokens: seq<Token>, r: nat, m: Maker)
    requires TreesOf(c, ts, tokens) && r > 0 && r == DefaultOf(Top(c.ss)) && Action(r, c.maker, c.vs) == Some(m)
    requires Length(r) <= |ts|
    ensures var k, t := |ts| - Length(r), Node(r, Kids(ts, r));
            m == Effect(GotoOf(c.ss[k], Lhs(r)), t, if k == 0 then t else ts[k - 1], Fold(c.ss[..k + 1], ts[..k]))
  {
    hide *;
    ReduceActs(c, ts, tokens, r);
    TreesSize(c, ts, tokens);
    ActsMaker(c.ss, ts, c.vs, r, m);
  }

  lemma ActsMaker(ss: seq<nat>, ts: seq<Tree>, vs: seq<string>, r: nat, m: Maker)
    requires |ss| == |ts| + 1 && Length(r) <= |ts| && ActsAs(ss, ts, vs, r) && Action(r, Fold(ss, ts), vs) == Some(m)
    ensures var k, t := |ts| - Length(r), Node(r, Kids(ts, r));
            m == Effect(GotoOf(ss[k], Lhs(r)), t, if k == 0 then t else ts[k - 1], Fold(ss[..k + 1], ts[..k]))
  {
    hide Effect, GotoOf, Fold, Action, Kids, Lhs;
  }

  lemma StacksSize(c: Config)
    requires Sound(c)
    ensures Chain(c.ss) && |c.vs| == |c.ss| - 1
  {
  }

  lemma ReducedIs(c: Config, ts: seq<Tree>, r: nat, m: Maker)
    requires Length(r) <= |ts| && |c.ss| == |ts| + 1 && |c.vs| == |ts|
    ensures var k, next := |ts| - Length(r), Reduced(c, r, m);
            next.ss == c.ss[..k + 1] + [GotoOf(c.ss[k], Lhs(r))] && |next.vs| == k + 1
            && next.vs[k] == DefaultValue(c.vs, Length(r)) && next.vs == c.vs[..k] + [next.vs[k]]
            && next.input == c.input && next.maker == m && NewTrees(ts, r) == ts[..k] + [Node(r, Kids(ts, r))]
  {
    hide Length, GotoOf, Lhs, DefaultValue, Kids;
  }

  /** A reduction keeps the invariant. */
  lemma ReduceKeeps(c: Config, ts: seq<Tree>, tokens: seq<Token>, r: nat, m: Maker)
    requires TreesOf(c, ts, tokens) && r > 0 && r == DefaultOf(Top(c.ss)) && Action(r, c.maker, c.vs) == Some(m)
    requires Length(r) < |c.ss|
    ensures TreesOf(Reduced(c, r, m), NewTrees(ts, r), tokens)
  {
    hide *;
    TreesSize(c, ts, tokens);
    StacksSize(c);
    var k := |ts| - Length(r);
    var q := GotoOf(c.ss[k], Lhs(r));
    ReduceEdge(c.ss, r);
    NewNodeFits(c, ts, tokens, r);
    NewBodyFits(c, ts, tokens, r);
    ReduceYield(c, ts, tokens, r);
    ReduceMaker(c, ts, tokens, r, m);
    ReducedIs(c, ts, r, m);
    Assemble(c, ts, tokens, k, q, Node(r, Kids(ts, r)), Reduced(c, r, m));
  }
}
