/** The language of the parser: it accepts exactly the derivable token sequences whose end tags fit. */
module LrLanguage {
  import opened LrTables
  import opened LrParser
  import opened LrSoundness
  import opened Sequences

  /** The tokens before the end of the input. */
  function Upto(tokens: seq<Token>): seq<Token> {
    if tokens == [] || tokens[0].code <= 0 then [] else [tokens[0]] + Upto(tokens[1..])
  }

  /** Tree `t` is a parse of the tokens, and every end tag has the name of its start tag. */
  predicate ParseOf(t: Tree, tokens: seq<Token>) {
    Derives(t) && Root(t) == DOCUMENT && NamesMatch(t) && Yield(t) == Upto(tokens)
  }

  predicate AllTokens(ts: seq<Token>) {
    forall k :: k in ts ==> k.code > 0
  }

  lemma {:induction false} UptoOf(a: seq<Token>, rest: seq<Token>)
    requires AllTokens(a) && Kind(rest) == EOF
    ensures Upto(a + rest) == a
  {
    if a == [] {
      TranslateIsPositive(rest);
      assert a + rest == rest;
    } else {
      assert (a + rest)[1..] == a[1..] + rest;
      UptoOf(a[1..], rest);
    }
  }

  /** What is left after the tokens before the end. */
  lemma {:induction false} UptoSplits(tokens: seq<Token>) returns (rest: seq<Token>)
    ensures tokens == Upto(tokens) + rest && Kind(rest) == EOF
  {
    TranslateIsPositive(tokens);
    if tokens == [] || tokens[0].code <= 0 {
      rest := tokens;
    } else {
      rest := UptoSplits(tokens[1..]);
      assert tokens == [tokens[0]] + tokens[1..];
      assert [tokens[0]] + (Upto(tokens[1..]) + rest) == [tokens[0]] + Upto(tokens[1..]) + rest;
    }
  }

  lemma {:induction false} YieldIsTokens(t: Tree)
    ensures AllTokens(Yield(t))
    decreases t, 0
  {
    if t.Node? {
      YieldsAreTokens(t.kids);
    }
  }

  lemma {:induction false} YieldsAreTokens(ts: seq<Tree>)
    ensures AllTokens(Yields(ts))
    decreases ts, 1
  {
    if ts != [] {
      YieldsAreTokens(ts[..|ts| - 1]);
      YieldIsTokens(ts[|ts| - 1]);
    }
  }

  // ---------- soundness ----------

  lemma StartHasTrees(tokens: seq<Token>)
    ensures TreesOf(Start(tokens), [], tokens)
  {
    assert [] + tokens == tokens;
  }

  lemma AcceptStack(ss: seq<nat>)
    requires Chain(ss) && Top(ss) == 26
    ensures ss == [0, 25, 26]
  {
    ChainTop(ss);
  }

  /** In the accepting state the stack holds one document tree, and its document has been made. */
  lemma AtAccept(c: Config, ts: seq<Tree>, tokens: seq<Token>)
    requires TreesOf(c, ts, tokens) && Top(c.ss) == 26 && Kind(c.input) == EOF
    ensures |ts| == 2 && ParseOf(ts[0], tokens) && c.maker == Maker([], Some(RootOf(ts[0])))
  {
    AcceptStack(c.ss);
    TreesSize(c, ts, tokens);
    hide RootOf;
    AcceptFold(c.ss, ts);
    hide Fold, Effect, BodyFits, Derives, NamesMatch, Text;
    assert Fits(c.ss[1], ts[0], c.vs[0]) && Fits(c.ss[2], ts[1], c.vs[1]);
    AcceptYield(ts);
    YieldIsTokens(ts[0]);
    UptoOf(Yield(ts[0]), c.input);
  }

  lemma AcceptFold(ss: seq<nat>, ts: seq<Tree>)
    requires ss == [0, 25, 26] && |ts| == 2
    ensures Fold(ss, ts) == Maker([], Some(RootOf(ts[0])))
  {
    hide RootOf;
    BelowStep(ss, ts, 0);
    BelowStep(ss, ts, 1);
    assert Below(ss, ts, 2) == Maker([], None);
  }

  lemma AcceptYield(ts: seq<Tree>)
    requires |ts| == 2 && Root(ts[1]) == EOF
    ensures Yields(ts) == Yield(ts[0])
  {
    assert ts == [ts[0]] + [ts[1]];
    YieldsSplit([ts[0]], [ts[1]]);
    OneYield(ts[0]);
    OneYield(ts[1]);
    EofYieldsNothing(ts[1]);
  }

  lemma EofYieldsNothing(t: Tree)
    requires Root(t) == EOF
    ensures Yield(t) == []
  {
    if t.Leaf? {
      TranslateIsPositive([t.token]);
    }
  }

  lemma {:induction false} RunIsSound(c: Config, ts: seq<Tree>, tokens: seq<Token>)
    requires TreesOf(c, ts, tokens)
    ensures Run(c).Accepted? ==>
            exists t :: ParseOf(t, tokens) && Run(c) == Accepted(Some(RootOf(t)))
    decreases |c.input|, Measure(c)
  {
    TreesSize(c, ts, tokens);
    hide TreesOf, ParseOf, RootOf, Edge, Symbol, DefaultOf, ShiftOf, Step, Reduced, NewTrees, Measure, Sound, AllFit, Fold;
    StepIs(c);
    StepDecreases(c);
    var d := DecisionOf(Top(c.ss), Kind(c.input));
    if |c.ss| < YYMAXDEPTH {
      if d.Accept? {
        AtAccept(c, ts, tokens);
        assert Run(c) == Accepted(c.maker.root);
      } else if d.Shift? {
        ShiftKeeps(c, ts, tokens);
        RunIsSound(Step(c).config, ts + [LeafOf(c.input)], tokens);
      } else if d.Reduce? {
        var m := Action(d.rule, c.maker, c.vs);
        if m.Some? {
          ReduceKeeps(c, ts, tokens, d.rule, m.value);
          RunIsSound(Step(c).config, NewTrees(ts, d.rule), tokens);
        }
      }
    }
  }

  /** If the parser accepts, the tokens are derivable, all end tags fit, and the root is the tree's document. */
  lemma Soundness(tokens: seq<Token>)
    ensures Parse(tokens).Accepted? ==>
            exists t :: ParseOf(t, tokens) && Parse(tokens) == Accepted(Some(RootOf(t)))
  {
    StartHasTrees(tokens);
    RunIsSound(Start(tokens), [], tokens);
  }

  // ---------- completeness ----------

  /** State `s` contains rule `r` with its first `i` symbols read. */
  predicate Item(r: nat, i: nat, s: nat) {
    if i == 0 then
      if r <= 1 then r == 1 && s == 0
      else if r <= 3 then s == 0 || s == 5
      else if r == 4 then s == 1 || s == 7 || s == 15
      else if r == 5 then s == 3
      else if r == 6 then s == 1 || s == 15
      else if r <= 8 then s == 8
      else if r <= 12 then s == 10
      else if r == 13 then s == 17
      else if r <= 15 then s == 6
      else r <= 17 && s == 8
    else if r == 1 then (i == 1 && s == 1) || (i == 2 && s == 5) || (i == 3 && s == 7)
    else if r == 2 then (i == 1 && (s == 1 || s == 7)) || (i == 2 && s == 4)
    else if r == 4 then i == 1 && s == 2
    else if r == 6 then (i == 1 && s == 3) || (i == 2 && s == 6) || (i == 3 && s == 8) || (i == 4 && s == 12)
    else if r == 7 then (i == 1 && s == 9) || (i == 2 && s == 14)
    else if r == 8 then
      (i == 1 && s == 10) || (i == 2 && s == 15) || (i == 3 && s == 17) || (i == 4 && s == 23) || (i == 5 && s == 24)
    else if r == 9 || r == 10 || r == 11 then
      (i == 1 && s == 15) || (i == 2 && s == if r == 9 then 18 else if r == 10 then 20 else 19)
    else if r == 13 then i == 1 && s == 22
    else if r == 14 then (i == 1 && s == 8) || (i == 2 && s == 13)
    else if r == 16 then i == 1 && s == 11
    else r == 17 && ((i == 1 && s == 11) || (i == 2 && s == 16) || (i == 3 && s == 21))
  }

  /** The symbol of rule `r` after its first `i`. */
  function At(r: nat, i: nat): nat
    requires i < Length(r)
  {
    if r == 1 then (if i == 1 then ELEMENT else MISC)
    else if r == 2 then (if i == 0 then MISC else NOTE)
    else if r == 4 then COMMENT
    else if r == 6 then (if i == 0 then START else if i == 1 then MARK else if i == 2 then ATTRIBUTES else BODY)
    else if r == 7 then (if i == 0 then SLASH else CLOSE)
    else if r == 8 then (if i == 1 then CONTENT else if i == 2 then END else if i == 3 then ENDNAME else CLOSE)
    else if r == 9 then (if i == 0 then CONTENT else DATA)
    else if r == 10 then (if i == 0 then CONTENT else ELEMENT)
    else if r == 11 then (if i == 0 then CONTENT else NOTE)
    else if r == 14 then (if i == 0 then ATTRIBUTES else ATTRIBUTE)
    else if r == 17 then (if i == 0 then NAME else if i == 1 then EQ else VALUE)
    else NAME
  }

  lemma AtIsRhs(r: nat, i: nat)
    requires 1 <= r <= 17 && i < Length(r)
    ensures |Rhs(r)| == Length(r) && Rhs(r)[i] == At(r, i)
  {
    RhsIs(r);
    RulesAre(r);
    hide Rhs;
  }

  lemma ItemShift(r: nat, i: nat, s: nat)
    requires Item(r, i, s) && i < Length(r) && At(r, i) < YYNTBASE
    ensures ShiftOf(s, At(r, i)) > 0 && Item(r, i + 1, ShiftOf(s, At(r, i)))
  {
  }

  lemma ItemGoto(r: nat, i: nat, s: nat, q: nat)
    requires Item(r, i, s) && i < Length(r) && At(r, i) >= YYNTBASE && 1 <= q <= 17 && Lhs(q) == At(r, i)
    ensures Item(r, i + 1, GotoOf(s, At(r, i))) && Item(q, 0, s)
  {
  }

  /** Two rules are chosen by their lookahead; `k` comes after a tree of symbol `x`. */
  predicate MayFollow(x: nat, k: nat) {
    (x == DOCUMENT ==> k != COMMENT) && (x == ATTRIBUTE || x == ATTRIBUTES ==> k != EQ)
  }

  lemma ItemReduce(r: nat, s: nat, k: nat)
    requires Item(r, Length(r), s) && 1 <= r <= 17 && MayFollow(Lhs(r), k)
    ensures DecisionOf(s, k) == Reduce(r) && r == DefaultOf(s)
  {
  }

  /** What an attribute or a body starts with. */
  lemma FirstToken(t: Tree, rest: seq<Token>)
    requires Derives(t) && (Root(t) == ATTRIBUTE || Root(t) == BODY)
    ensures Kind(Yield(t) + rest) != EQ
  {
    var r := t.rule;
    RhsIs(r);
    RulesAre(r);
    hide Rhs;
    assert Roots(t.kids)[0] == Root(t.kids[0]) as int;
    TerminalIsLeaf(t.kids[0]);
    HeadOfYields(t.kids, rest);
  }

  lemma {:induction false} HeadOfYields(ts: seq<Tree>, rest: seq<Token>)
    requires ts != [] && ts[0].Leaf? && Root(ts[0]) != EOF
    ensures Kind(Yields(ts) + rest) == Root(ts[0])
  {
    assert ts == [ts[0]] + ts[1..];
    YieldsSplit([ts[0]], ts[1..]);
    OneYield(ts[0]);
    LeafYield(ts[0]);
    assert (Yields(ts) + rest)[0] == ts[0].token;
  }

  lemma LeafYield(t: Tree)
    requires t.Leaf? && Root(t) != EOF
    ensures Yield(t) == [t.token] && Root(t) == Translate(t.token.code) && t.token.code > 0
  {
  }

  function Max(a: nat, b: nat): nat {
    if a < b then b else a
  }

  /** How many states a node has on the stack at most from its first `i` children on until it is reduced. */
  function Peak(t: Tree, i: nat): (n: nat)
    requires t.Node? && i <= |t.kids|
    ensures n >= |t.kids|
    decreases t, 1, |t.kids| - i
  {
    if i == |t.kids| then i
    else Max(i + KidPeak(t, i), Peak(t, i + 1))
  }

  function KidPeak(t: Tree, i: nat): nat
    requires t.Node? && i < |t.kids|
    decreases t, 0, 0
  {
    if t.kids[i].Leaf? then 0 else Peak(t.kids[i], 0)
  }

  /** The parser gets from `c` to `c2` with at most `top` states on the stack, unless that is too many. */
  predicate Leads(c: Config, c2: Config, top: nat) {
    Sound(c) && Sound(c2) && Run(c) == if top < YYMAXDEPTH then Run(c2) else Overflowed
  }

  /** An end tag that closes the element whose start tag is three trees below it. */
  predicate Closes(t: Tree, below: seq<Tree>) {
    t.Node? && t.rule == 8 ==> |below| >= 3 && |t.kids| == 5 && Text(t.kids[3]) == Text(below[|below| - 3])
  }

  /** The parser is inside node `t`: `i` of its children are on the stack, above `ss` and `below`. */
  predicate Inside(c: Config, ts: seq<Tree>, tokens: seq<Token>, t: Tree, i: nat, ss: seq<nat>, below: seq<Tree>,
      rest: seq<Token>) {
    t.Node? && 1 <= t.rule <= 17 && Derives(t) && NamesMatch(t) && |t.kids| == Length(t.rule) && i <= |t.kids|
    && |ss| == |below| + 1 && c.ss != [] && ss <= c.ss && ts == below + t.kids[..i] && TreesOf(c, ts, tokens)
    && Item(t.rule, 0, Top(ss)) && Item(t.rule, i, Top(c.ss)) && Closes(t, below)
    && c.input == Yields(t.kids[i..]) + rest && MayFollow(Lhs(t.rule), Kind(rest))
  }

  /** Where the parser is after it has read tree `t`. */
  predicate After(c2: Config, tokens: seq<Token>, t: Tree, ss: seq<nat>, below: seq<Tree>, rest: seq<Token>) {
    ss != [] && c2.ss == ss + [GotoOf(Top(ss), Root(t))] && c2.input == rest && TreesOf(c2, below + [t], tokens)
  }

  lemma KidOf(t: Tree, i: nat)
    requires t.Node? && 1 <= t.rule <= 17 && Derives(t) && NamesMatch(t) && i < Length(t.rule)
    ensures |t.kids| == Length(t.rule) && Root(t.kids[i]) == At(t.rule, i)
    ensures Derives(t.kids[i]) && NamesMatch(t.kids[i])
    ensures t.kids[i].Leaf? <==> At(t.rule, i) < YYNTBASE
  {
    AtIsRhs(t.rule, i);
    hide Rhs, At, Length;
    assert Roots(t.kids)[i] == Root(t.kids[i]) as int;
    if Root(t.kids[i]) < YYNTBASE {
      TerminalIsLeaf(t.kids[i]);
    } else {
      NonterminalIsNode(t.kids[i]);
    }
  }

  lemma NonterminalIsNode(t: Tree)
    requires YYNTBASE <= Root(t) <= 22
    ensures t.Node?
  {
    hide Lhs;
    if t.Leaf? {
      TranslateRange(t.token.code);
    }
  }

  lemma TranslateRange(code: int)
    ensures Translate(code) < YYNTBASE || Translate(code) == 23
  {
  }

  /** The next tree of a node, and what comes after it. */
  lemma NextKid(t: Tree, i: nat, rest: seq<Token>)
    requires t.Node? && i < |t.kids|
    ensures Yields(t.kids[i..]) + rest == Yield(t.kids[i]) + (Yields(t.kids[i + 1..]) + rest)
    ensures t.kids[..i + 1] == t.kids[..i] + [t.kids[i]]
  {
    var a, b := [t.kids[i]], t.kids[i + 1..];
    assert t.kids[i..] == a + b;
    YieldsSplit(a, b);
    OneYield(t.kids[i]);
    hide Yields, Yield;
    assert Yield(t.kids[i]) + Yields(b) + rest == Yield(t.kids[i]) + (Yields(b) + rest);
  }

  lemma KeepsBelow(below: seq<Tree>, t: Tree, i: nat)
    requires t.Node? && i < |t.kids|
    ensures below + t.kids[..i] + [t.kids[i]] == below + t.kids[..i + 1]
  {
  }

  lemma LeafIsNext(t: Tree, rest: seq<Token>)
    requires t.Leaf? && Root(t) != EOF
    ensures var input := Yield(t) + rest; Kind(input) == Root(t) && LeafOf(input) == t && AfterShift(input) == rest
  {
    LeafYield(t);
    var input := Yield(t) + rest;
    assert input[0] == t.token && input[1..] == rest;
    TranslateIsPositive(input);
  }

  /** Reading a token of a node. */
  lemma ReadLeaf(c: Config, ts: seq<Tree>, tokens: seq<Token>, t: Tree, i: nat, ss: seq<nat>, below: seq<Tree>,
      rest: seq<Token>)
    returns (c2: Config)
    requires Inside(c, ts, tokens, t, i, ss, below, rest) && i < |t.kids| && t.kids[i].Leaf?
    ensures Inside(c2, ts + [t.kids[i]], tokens, t, i + 1, ss, below, rest) && Leads(c, c2, |c.ss|)
  {
    hide TreesOf, Edge, Symbol, ShiftOf, Step, Sound, AllFit, Fold, Derives, NamesMatch, Item, Yields, Yield, At,
         Closes, Length,
         MayFollow, Root, Kind, Lhs, Leads, LeafOf, AfterShift;
    var kid, after := t.kids[i], Yields(t.kids[i + 1..]) + rest;
    KidOf(t, i);
    NextKid(t, i, rest);
    KeepsBelow(below, t, i);
    TreesSize(c, ts, tokens);
    ItemShift(t.rule, i, Top(c.ss));
    SymbolIsToken(t.rule, i);
    LeafIsNext(kid, after);
    ShiftKeeps(c, ts, tokens);
    var q := ShiftOf(Top(c.ss), Kind(c.input));
    c2 := Config(c.ss + [q], c.vs + [Lexeme(c.input)], after, c.maker);
    TreesSize(c2, ts + [kid], tokens);
    ShiftLeads(c, c2);
  }

  lemma SymbolIsToken(r: nat, i: nat)
    requires i < Length(r)
    ensures At(r, i) != EOF
  {
  }

  lemma ShiftLeads(c: Config, c2: Config)
    requires Sound(c) && c.ss != [] && ShiftOf(Top(c.ss), Kind(c.input)) > 0 && Sound(c2)
    requires c2 == Config(c.ss + [ShiftOf(Top(c.ss), Kind(c.input))], c.vs + [Lexeme(c.input)], AfterShift(c.input), c.maker)
    ensures Leads(c, c2, |c.ss|)
  {
    StepIs(c);
    hide Step, ShiftOf, DefaultOf, Edge, Symbol, Sound, Kind;
  }

  /** Entering a child that is a node. */
  lemma EnterKid(c: Config, ts: seq<Tree>, tokens: seq<Token>, t: Tree, i: nat, ss: seq<nat>, below: seq<Tree>,
      rest: seq<Token>)
    requires Inside(c, ts, tokens, t, i, ss, below, rest) && i < |t.kids| && t.kids[i].Node?
    ensures Inside(c, ts, tokens, t.kids[i], 0, c.ss, ts, Yields(t.kids[i + 1..]) + rest)
  {
    var kid, after := t.kids[i], Yields(t.kids[i + 1..]) + rest;
    KidOf(t, i);
    TreesSize(c, ts, tokens);
    NextKid(t, i, rest);
    KidRule(kid, t.rule, i);
    KidCloses(t, i, below);
    KidFollow(t, i, rest);
    assert kid.kids[0..] == kid.kids && ts + kid.kids[..0] == ts;
    hide TreesOf, Derives, NamesMatch, Yields, At, Closes, Item, Rhs, Length, MayFollow, ShiftOf, GotoOf, DefaultOf,
         Edge, Symbol;
    ItemGoto(t.rule, i, Top(c.ss), kid.rule);
    assert Yield(kid) == Yields(kid.kids);
  }

  lemma KidRule(kid: Tree, r: nat, i: nat)
    requires kid.Node? && Derives(kid) && 1 <= r <= 17 && i < Length(r) && Root(kid) == At(r, i)
    ensures 1 <= kid.rule <= 17 && |kid.kids| == Length(kid.rule) && Lhs(kid.rule) == At(r, i) && At(r, i) >= YYNTBASE
  {
    RhsIs(kid.rule);
    RulesAre(kid.rule);
    hide Rhs, Length, At;
    assert |Roots(kid.kids)| == |kid.kids|;
  }

  /** In an element the end tag in its body closes its start tag. */
  lemma KidCloses(t: Tree, i: nat, below: seq<Tree>)
    requires t.Node? && 1 <= t.rule <= 17 && Derives(t) && NamesMatch(t) && |t.kids| == Length(t.rule) && i < |t.kids|
    ensures Closes(t.kids[i], below + t.kids[..i])
  {
    var kid := t.kids[i];
    if kid.Node? && kid.rule == 8 {
      KidOf(t, i);
      KidRule(kid, t.rule, i);
      assert t.rule == 6 && i == 3;
      assert (below + t.kids[..3])[|below|] == t.kids[0];
    }
  }

  lemma KidFollow(t: Tree, i: nat, rest: seq<Token>)
    requires t.Node? && 1 <= t.rule <= 17 && Derives(t) && NamesMatch(t) && |t.kids| == Length(t.rule) && i < |t.kids|
    requires MayFollow(Lhs(t.rule), Kind(rest))
    ensures MayFollow(Root(t.kids[i]), Kind(Yields(t.kids[i + 1..]) + rest))
  {
    KidOf(t, i);
    var x := Root(t.kids[i]);
    if x == ATTRIBUTES {
      assert i + 1 < |t.kids|;
      KidOf(t, i + 1);
      NextKid(t, i + 1, rest);
      FirstToken(t.kids[i + 1], Yields(t.kids[i + 2..]) + rest);
    } else if x == ATTRIBUTE {
      assert t.kids[i + 1..] == [];
      assert Yields(t.kids[i + 1..]) + rest == rest;
    }
  }

  /** Back from a child that is a node. */
  lemma LeaveKid(c: Config, ts: seq<Tree>, c2: Config, tokens: seq<Token>, t: Tree, i: nat, ss: seq<nat>, below: seq<Tree>,
                 rest: seq<Token>)
    requires Inside(c, ts, tokens, t, i, ss, below, rest) && i < |t.kids| && t.kids[i].Node?
    requires After(c2, tokens, t.kids[i], c.ss, ts, Yields(t.kids[i + 1..]) + rest)
    ensures Inside(c2, ts + [t.kids[i]], tokens, t, i + 1, ss, below, rest)
  {
    var kid := t.kids[i];
    KidOf(t, i);
    KidRule(kid, t.rule, i);
    KeepsBelow(below, t, i);
    hide TreesOf, Derives, NamesMatch, Yields, Closes, Item, Rhs, Length, MayFollow, ShiftOf, GotoOf, DefaultOf,
         Edge, Symbol, At, Lhs;
    ItemGoto(t.rule, i, Top(c.ss), kid.rule);
  }

  lemma ReduceLeads(c: Config, r: nat, m: Maker, c2: Config)
    requires Sound(c) && Sound(c2) && r > 0 && DecisionOf(Top(c.ss), Kind(c.input)) == Reduce(r) && Length(r) < |c.ss|
    requires Action(r, c.maker, c.vs) == Some(m) && c2 == Reduced(c, r, m)
    ensures Leads(c, c2, |c.ss|)
  {
    StepIs(c);
    hide Step, ShiftOf, DefaultOf, Edge, Symbol, Kind, Chain, Reduced, Action, DecisionOf;
  }

  /** The action of the rule does not fail: an end tag has the right name. */
  lemma NodeActs(c: Config, ts: seq<Tree>, tokens: seq<Token>, t: Tree, below: seq<Tree>)
    requires t.Node? && |t.kids| == Length(t.rule) && TreesOf(c, ts, tokens) && ts == below + t.kids && t.rule > 0
    requires t.rule == DefaultOf(Top(c.ss)) && Closes(t, below)
    ensures Action(t.rule, c.maker, c.vs).Some?
  {
    hide TreesOf, DefaultOf, Text, Action, ActsAs;
    TreesSize(c, ts, tokens);
    ReduceActs(c, ts, tokens, t.rule);
    if t.rule == 8 {
      EndTagPlaces(ts, t.kids, below);
    } else {
      hide *;
      ActsSome(c.ss, ts, c.vs, t.rule);
    }
  }

  lemma EndTagPlaces(ts: seq<Tree>, kids: seq<Tree>, below: seq<Tree>)
    requires ts == below + kids && |kids| == 5 && |below| >= 3
    ensures ts[|ts| - 2] == kids[3] && ts[|ts| - 8] == below[|below| - 3]
  {
  }

  lemma ActsSome(ss: seq<nat>, ts: seq<Tree>, vs: seq<string>, r: nat)
    requires |ss| == |ts| + 1 && Length(r) <= |ts| && ActsAs(ss, ts, vs, r)
    ensures Action(r, Fold(ss, ts), vs).Some?
  {
    hide Effect, GotoOf, Fold, Action, Kids, Lhs, LeftOf, Below, Length;
  }

  lemma NodeStacks(ts: seq<Tree>, ss0: seq<nat>, ss: seq<nat>, t: Tree, below: seq<Tree>)
    requires t.Node? && |t.kids| == Length(t.rule) && ts == below + t.kids && ss0 <= ss && |ss| == |ts| + 1
    requires |ss0| == |below| + 1
    ensures Kids(ts, t.rule) == t.kids && NewTrees(ts, t.rule) == below + [t]
    ensures ss[..|ss| - Length(t.rule)] == ss0 && ss[|ss| - 1 - Length(t.rule)] == Top(ss0)
  {
    hide Length;
    assert ts[|ts| - Length(t.rule)..] == t.kids;
    assert ts[..|ts| - Length(t.rule)] == below;
  }

  /** The rule of a node whose children have all been read is reduced. */
  lemma NodeReduces(c: Config, ts: seq<Tree>, tokens: seq<Token>, t: Tree, ss: seq<nat>, below: seq<Tree>, rest: seq<Token>)
    requires t.Node? && Inside(c, ts, tokens, t, |t.kids|, ss, below, rest)
    ensures t.rule > 0 && |t.kids| == Length(t.rule) && TreesOf(c, ts, tokens) && Closes(t, below)
    ensures ts == below + t.kids && |ss| == |below| + 1 && ss <= c.ss && c.input == rest && c.ss != []
    ensures DecisionOf(Top(c.ss), Kind(c.input)) == Reduce(t.rule) && t.rule == DefaultOf(Top(c.ss))
  {
    hide TreesOf, Derives, NamesMatch, Closes, Item, MayFollow, ShiftOf, DefaultOf, DecisionOf, Kind, Length, Lhs;
    assert t.kids[|t.kids|..] == [] && t.kids[..|t.kids|] == t.kids;
    assert Yields([]) + rest == rest;
    ItemReduce(t.rule, Top(c.ss), Kind(c.input));
  }

  /** Reducing a node when all its children have been read. */
  lemma ReduceNode(c: Config, ts: seq<Tree>, tokens: seq<Token>, t: Tree, ss: seq<nat>, below: seq<Tree>, rest: seq<Token>)
    returns (c2: Config)
    requires t.Node? && Inside(c, ts, tokens, t, |t.kids|, ss, below, rest)
    ensures After(c2, tokens, t, ss, below, rest) && Leads(c, c2, |c.ss|)
  {
    hide *;
    var r := t.rule;
    NodeReduces(c, ts, tokens, t, ss, below, rest);
    TreesSize(c, ts, tokens);
    StacksSize(c);
    NodeActs(c, ts, tokens, t, below);
    NodeStacks(ts, ss, c.ss, t, below);
    var m := Action(r, c.maker, c.vs).value;
    c2 := Reduced(c, r, m);
    ReduceKeeps(c, ts, tokens, r, m);
    TreesSize(c2, below + [t], tokens);
    ReduceLeads(c, r, m, c2);
    NodeAfter(c, ts, r, m, tokens, t, ss, below, rest);
  }

  lemma NodeAfter(c: Config, ts: seq<Tree>, r: nat, m: Maker, tokens: seq<Token>, t: Tree, ss: seq<nat>, below: seq<Tree>,
                  rest: seq<Token>)
    requires t.Node? && r == t.rule && Length(r) < |c.ss| && |c.vs| == |c.ss| - 1 && ss != [] && c.input == rest
    requires c.ss[..|c.ss| - Length(r)] == ss && c.ss[|c.ss| - 1 - Length(r)] == Top(ss)
    requires TreesOf(Reduced(c, r, m), below + [t], tokens)
    ensures After(Reduced(c, r, m), tokens, t, ss, below, rest)
  {
    hide TreesOf, Length, GotoOf, DefaultValue;
  }

  lemma {:induction false} LeadsOn(c: Config, c1: Config, c2: Config, a: nat, b: nat)
    requires Leads(c, c1, a) && Leads(c1, c2, b)
    ensures Leads(c, c2, Max(a, b))
  {
    hide Run, Sound;
  }

  /** How high the stack is inside a node. */
  lemma InsideHeight(c: Config, ts: seq<Tree>, tokens: seq<Token>, t: Tree, i: nat, ss: seq<nat>, below: seq<Tree>,
      rest: seq<Token>)
    requires Inside(c, ts, tokens, t, i, ss, below, rest)
    ensures t.Node? && i <= |t.kids| && |c.ss| == |ss| + i
  {
    TreesSize(c, ts, tokens);
    hide TreesOf, Derives, NamesMatch, Closes, Item, MayFollow, Length, Yields;
    assert |t.kids[..i]| == i;
  }

  lemma KidPeakIs(t: Tree, i: nat)
    requires t.Node? && i < |t.kids|
    ensures KidPeak(t, i) == if t.kids[i].Leaf? then 0 else Peak(t.kids[i], 0)
  {
  }

  lemma PeakAt(t: Tree, i: nat)
    requires t.Node? && i <= |t.kids|
    ensures i == |t.kids| ==> Peak(t, i) == i
    ensures i < |t.kids| ==> Peak(t, i) == Max(i + KidPeak(t, i), Peak(t, i + 1))
  {
  }

  lemma MaxPlus(h: nat, a: nat, b: nat)
    ensures Max(h + a, h + b) == h + Max(a, b)
  {
  }

  /** Read to the end of a node: the parser gets there exactly if the node's peak fits the stack. */
  lemma {:induction false} ReadNode(c: Config, ts: seq<Tree>, tokens: seq<Token>, t: Tree, i: nat, ss: seq<nat>,
      below: seq<Tree>, rest: seq<Token>)
    returns (c2: Config)
    requires t.Node? && i <= |t.kids| && Inside(c, ts, tokens, t, i, ss, below, rest)
    ensures After(c2, tokens, t, ss, below, rest) && Leads(c, c2, |ss| + Peak(t, i))
    decreases t, |t.kids| - i
  {
    hide *;
    InsideHeight(c, ts, tokens, t, i, ss, below, rest);
    PeakAt(t, i);
    if i == |t.kids| {
      c2 := ReduceNode(c, ts, tokens, t, ss, below, rest);
    } else {
      var c1: Config;
      var kid, after := t.kids[i], Yields(t.kids[i + 1..]) + rest;
      var more := KidPeak(t, i);
      KidPeakIs(t, i);
      if kid.Leaf? {
        c1 := ReadLeaf(c, ts, tokens, t, i, ss, below, rest);
      } else {
        EnterKid(c, ts, tokens, t, i, ss, below, rest);
        c1 := ReadNode(c, ts, tokens, kid, 0, c.ss, ts, after);
        LeaveKid(c, ts, c1, tokens, t, i, ss, below, rest);
      }
      c2 := ReadNode(c1, ts + [kid], tokens, t, i + 1, ss, below, rest);
      LeadsOn(c, c1, c2, |ss| + (i + more), |ss| + Peak(t, i + 1));
      MaxPlus(|ss|, i + more, Peak(t, i + 1));
    }
  }

  /** From the end of the document the parser accepts. */
  lemma FromDocument(c: Config, tokens: seq<Token>, t: Tree, rest: seq<Token>)
    requires After(c, tokens, t, [0], [], rest) && Root(t) == DOCUMENT && Kind(rest) == EOF
    ensures Run(c) == Accepted(Some(RootOf(t)))
  {
    var ts := [] + [t];
    TreesSize(c, ts, tokens);
    ShiftKeeps(c, ts, tokens);
    var c2 := Config(c.ss + [26], c.vs + [Lexeme(rest)], rest, c.maker);
    AtAccept(c2, ts + [LeafOf(rest)], tokens);
    hide TreesOf, ParseOf, RootOf, Step, AllFit, Fold, Derives, NamesMatch;
    StepIs(c);
    StepIs(c2);
    assert Run(c) == Run(c2);
  }

  /** How many states the parser has on the stack at most while it reads a document tree. */
  function StackHeight(t: Tree): nat {
    1 + if t.Node? then Peak(t, 0) else 0
  }

  /** Before the first token the parser is at the start of the document. */
  lemma DocumentStart(tokens: seq<Token>, t: Tree) returns (rest: seq<Token>)
    requires ParseOf(t, tokens)
    ensures t.Node? && Inside(Start(tokens), [], tokens, t, 0, [0], [], rest) && Root(t) == DOCUMENT
            && Kind(rest) == EOF
  {
    rest := UptoSplits(tokens);
    NonterminalIsNode(t);
    RhsIs(t.rule);
    RulesAre(t.rule);
    StartHasTrees(tokens);
    assert |Roots(t.kids)| == |t.kids|;
    assert [] + t.kids[..0] == [] && t.kids[0..] == t.kids;
    hide TreesOf, Derives, NamesMatch, Rhs, Run, RootOf;
  }

  /** A derivable token sequence whose end tags fit is accepted, with its tree's document as root, if the stack can be as
      high as its tree needs, and else the stack overflows. */
  lemma Completeness(tokens: seq<Token>, t: Tree)
    requires ParseOf(t, tokens)
    ensures Parse(tokens) == if StackHeight(t) < YYMAXDEPTH then Accepted(Some(RootOf(t))) else Overflowed
  {
    hide *;
    var rest := DocumentStart(tokens, t);
    var c := ReadNode(Start(tokens), [], tokens, t, 0, [0], [], rest);
    FromDocument(c, tokens, t, rest);
    ParseIs(tokens, t, c);
  }

  lemma ParseIs(tokens: seq<Token>, t: Tree, c: Config)
    requires t.Node? && Leads(Start(tokens), c, 1 + Peak(t, 0))
    ensures Parse(tokens) == if StackHeight(t) < YYMAXDEPTH then Run(c) else Overflowed
  {
    hide Peak, Run, Sound, Start;
  }

  // ---------- nesting ----------

  /** How deep elements are nested in a tree. */
  function Nesting(t: Tree): nat
    decreases t, 1, 0
  {
    if t.Leaf? then 0 else (if t.rule == 6 then 1 else 0) + NestingFrom(t, 0)
  }

  /** The deepest nesting of the children from `i` on. */
  function NestingFrom(t: Tree, i: nat): nat
    requires t.Node? && i <= |t.kids|
    decreases t, 0, |t.kids| - i
  {
    if i == |t.kids| then 0 else Max(Nesting(t.kids[i]), NestingFrom(t, i + 1))
  }

  /** Lists are left recursive, so only an element within an element needs more of the stack, five states of it. */
  predicate PeakFits(x: nat, p: nat, d: nat) {
    if x == NOTE || x == ENDNAME then p == 1 && d == 0
    else if x == MARK then p == 0 && d == 0
    else if x == MISC then p <= 2 && d == 0
    else if x == ATTRIBUTE then p <= 3 && d == 0
    else if x == ATTRIBUTES then p <= 4 && d == 0
    else if x == CONTENT then if d == 0 then p <= 2 else 5 * d + 1 <= p <= 5 * d + 4
    else if x == BODY then 5 * d + 2 <= p <= 5 * d + 5
    else if x == ELEMENT then d >= 1 && 5 * d <= p <= 5 * d + 3
    else if x == DOCUMENT then d >= 1 && 5 * d + 1 <= p <= 5 * d + 4
    else p == 0 && d == 0
  }

  lemma PeaksOf(t: Tree)
    requires t.Node? && |t.kids| <= 5
    ensures var n := |t.kids|;
            Peak(t, 0) == (if n == 0 then 0 else Max(KidPeak(t, 0),
                           if n == 1 then 1 else Max(1 + KidPeak(t, 1),
                           if n == 2 then 2 else Max(2 + KidPeak(t, 2),
                           if n == 3 then 3 else Max(3 + KidPeak(t, 3),
                           if n == 4 then 4 else Max(4 + KidPeak(t, 4), 5))))))
  {
    hide Peak, Max, KidPeak;
    var n := |t.kids|;
    PeakAt(t, 0);
    PeakAt(t, if n > 1 then 1 else n);
    PeakAt(t, if n > 2 then 2 else n);
    PeakAt(t, if n > 3 then 3 else n);
    PeakAt(t, if n > 4 then 4 else n);
    PeakAt(t, n);
  }

  lemma NestingAt(t: Tree, i: nat)
    requires t.Node? && i <= |t.kids|
    ensures NestingFrom(t, i) == if i == |t.kids| then 0 else Max(Nesting(t.kids[i]), NestingFrom(t, i + 1))
  {
    hide Max, Nesting;
  }

  lemma NestingsOf(t: Tree)
    requires t.Node? && |t.kids| <= 5
    ensures var n := |t.kids|;
            NestingFrom(t, 0) == (if n == 0 then 0 else Max(Nesting(t.kids[0]),
                                  if n == 1 then 0 else Max(Nesting(t.kids[1]),
                                  if n == 2 then 0 else Max(Nesting(t.kids[2]),
                                  if n == 3 then 0 else Max(Nesting(t.kids[3]),
                                  if n == 4 then 0 else Max(Nesting(t.kids[4]), 0))))))
  {
    hide Nesting, NestingFrom, Max;
    var n := |t.kids|;
    NestingAt(t, 0);
    NestingAt(t, if n > 1 then 1 else n);
    NestingAt(t, if n > 2 then 2 else n);
    NestingAt(t, if n > 3 then 3 else n);
    NestingAt(t, if n > 4 then 4 else n);
    NestingAt(t, n);
  }

  lemma NestingIs(t: Tree)
    requires t.Node?
    ensures Nesting(t) == (if t.rule == 6 then 1 else 0) + NestingFrom(t, 0)
  {
  }

  /** The bounds of a node from those of its children. */
  lemma NodeFits(t: Tree)
    requires t.Node? && 1 <= t.rule <= 17 && |t.kids| == Length(t.rule)
    requires forall i :: 0 <= i < |t.kids| ==> PeakFits(At(t.rule, i), KidPeak(t, i), Nesting(t.kids[i]))
    ensures PeakFits(Lhs(t.rule), Peak(t, 0), Nesting(t))
  {
    hide Peak, KidPeak, Nesting, NestingFrom;
    PeaksOf(t);
    NestingsOf(t);
    NestingIs(t);
    assert forall i :: 0 <= i < |t.kids| ==> PeakFits(At(t.rule, i), KidPeak(t, i), Nesting(t.kids[i]));
  }

  lemma {:induction false} PeakBounds(t: Tree)
    requires t.Node? && Derives(t) && NamesMatch(t)
    ensures PeakFits(Root(t), Peak(t, 0), Nesting(t))
  {
    hide Peak, Nesting, Derives, NamesMatch, PeakFits, At, Lhs, Length;
    RuleOf(t);
    forall i | 0 <= i < |t.kids|
      ensures PeakFits(At(t.rule, i), KidPeak(t, i), Nesting(t.kids[i]))
    {
      KidOf(t, i);
      if t.kids[i].Node? {
        PeakBounds(t.kids[i]);
      } else {
        LeafFits(t.kids[i], At(t.rule, i));
      }
    }
    NodeFits(t);
  }

  lemma RuleOf(t: Tree)
    requires t.Node? && Derives(t)
    ensures 1 <= t.rule <= 17 && |t.kids| == Length(t.rule)
  {
    RhsIs(t.rule);
    RulesAre(t.rule);
    hide Rhs, Length;
    assert |Roots(t.kids)| == |t.kids|;
  }

  lemma LeafFits(t: Tree, x: nat)
    requires t.Leaf? && x < YYNTBASE
    ensures PeakFits(x, 0, Nesting(t))
  {
  }

  /** A document is accepted if its elements are nested at most 1998 deep, and overflows the stack from 2000 on. */
  lemma NestingDecides(tokens: seq<Token>, t: Tree)
    requires ParseOf(t, tokens)
    ensures 5 * Nesting(t) + 2 <= StackHeight(t) <= 5 * Nesting(t) + 5
    ensures Nesting(t) <= 1998 ==> Parse(tokens) == Accepted(Some(RootOf(t)))
    ensures Nesting(t) >= 2000 ==> Parse(tokens) == Overflowed
  {
    hide Derives, NamesMatch, RootOf, Peak, Nesting, Yield, Upto, Parse;
    NonterminalIsNode(t);
    PeakBounds(t);
    Completeness(tokens, t);
  }

  /** The parser accepts exactly the sequences of the grammar with fitting end tags that its stack is high enough for. */
  lemma AcceptsIff(tokens: seq<Token>)
    ensures Parse(tokens).Accepted? <==> exists t :: ParseOf(t, tokens) && StackHeight(t) < YYMAXDEPTH
  {
    Soundness(tokens);
    hide ParseOf, RootOf, Run, StackHeight;
    forall t | ParseOf(t, tokens)
      ensures Parse(tokens).Accepted? <==> StackHeight(t) < YYMAXDEPTH
    {
      Completeness(tokens, t);
    }
  }
}
