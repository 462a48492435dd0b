/** The driver as the code runs it: stacks, a one-token lookahead, the element stack, and error unwinding. */
module LrDriver {
  import opened LrTables
  import opened LrParser
  import opened LrSoundness
  import opened LrLanguage
  import opened LrDocument
  import opened Sequences

  const YYEMPTY := -2
  const YYEOF := 0

  /** Configuration `c` is reached on `tokens`, with the trees `ts` on the stack. The elements are the open start tags. */
  ghost predicate Tracked(c: Config, ts: seq<Tree>, tokens: seq<Token>) {
    TreesOf(c, ts, tokens) && Run(c) == Parse(tokens) && Names(c.maker.elements) == OpenTags(c.ss, ts)
  }

  lemma StartTracked(tokens: seq<Token>)
    ensures Tracked(Start(tokens), [], tokens)
  {
    StartHasTrees(tokens);
  }

  lemma TrackedStack(c: Config, ts: seq<Tree>, tokens: seq<Token>)
    requires Tracked(c, ts, tokens)
    ensures Sound(c) && Chain(c.ss) && c.ss != [] && |c.vs| == |c.ss| - 1 && |c.ss| == |ts| + 1 && Top(c.ss) < 28
  {
    TreesSize(c, ts, tokens);
    TopBound(c.ss);
  }

  lemma NextTracked(c: Config, next: Config, ts: seq<Tree>, tokens: seq<Token>)
    requires Sound(c) && Step(c) == Next(next) && Run(c) == Parse(tokens) && TreesOf(next, ts, tokens)
    ensures Tracked(next, ts, tokens)
  {
    hide Step, Fold, OpenTags, Names;
    TreesSize(next, ts, tokens);
    ElementsAreOpenTags(next.ss, ts);
  }

  /** Where the code asserts that an element is open, one is. */
  lemma ElementIsOpen(c: Config, ts: seq<Tree>, tokens: seq<Token>, r: nat)
    requires TreesOf(c, ts, tokens) && Length(r) <= |ts| && r == DefaultOf(Top(c.ss)) && r in {7, 8, 9, 16, 17}
    ensures c.maker.elements != []
  {
    TreesSize(c, ts, tokens);
    ReduceActs(c, ts, tokens, r);
    if r == 8 {
      DefaultTop(Top(c.ss));
      hide TreesOf, Action, Text;
      BodyFold(c.ss, ts);
    } else {
      hide TreesOf;
      ActsSome(c.ss, ts, c.vs, r);
    }
  }

  predicate Lower(next: Config, c: Config) {
    next.ss != [] && c.ss != []
    && (|next.input| < |c.input| || (next.input == c.input && Measure(next) < Measure(c)))
  }

  /** What one round of the driver does to a configuration on its way. */
  lemma Round(c: Config, ts: seq<Tree>, tokens: seq<Token>)
    requires Tracked(c, ts, tokens) && Sound(c) && Chain(c.ss) && Top(c.ss) < 28 && |c.ss| == |ts| + 1
    ensures |c.ss| >= YYMAXDEPTH ==> Parse(tokens) == Overflowed
    ensures |c.ss| < YYMAXDEPTH ==>
            match Decide(Top(c.ss), Kind(c.input))
            case Error => Parse(tokens) == Aborted
            case Accept => Parse(tokens) == Accepted(c.maker.root) && c.maker.elements == []
            case Shift(q) =>
              var next := Config(c.ss + [q], c.vs + [Lexeme(c.input)], AfterShift(c.input), c.maker);
              Tracked(next, ts + [LeafOf(c.input)], tokens) && Lower(next, c)
            case Reduce(r) =>
              1 <= r <= 17 && Length(r) < |c.ss| && c.ss[|c.ss| - 1 - Length(r)] < 28
              && (r in {7, 8, 9, 16, 17} ==> c.maker.elements != [])
              && (match Action(r, c.maker, c.vs)
                  case None => Parse(tokens) == Aborted
                  case Some(m) => Tracked(Reduced(c, r, m), NewTrees(ts, r), tokens) && Lower(Reduced(c, r, m), c))
  {
    hide TreesOf, Sound, Action, Step, Reduced, DefaultOf, ShiftOf, Edge, Symbol, Measure, Parse, Decide, Kind,
         Names, OpenTags;
    StepIs(c);
    StepDecreases(c);
    DecideIs(Top(c.ss), Kind(c.input));
    var d := DecisionOf(Top(c.ss), Kind(c.input));
    if |c.ss| < YYMAXDEPTH {
      if d.Accept? {
        AtAccept(c, ts, tokens);
      } else if d.Shift? {
        ShiftKeeps(c, ts, tokens);
        NextTracked(c, Step(c).config, ts + [LeafOf(c.input)], tokens);
      } else if d.Reduce? {
        ReduceEdge(c.ss, d.rule);
        if d.rule in {7, 8, 9, 16, 17} {
          ElementIsOpen(c, ts, tokens, d.rule);
        }
        var m := Action(d.rule, c.maker, c.vs);
        if m.Some? {
          ReduceKeeps(c, ts, tokens, d.rule, m.value);
          NextTracked(c, Step(c).config, NewTrees(ts, d.rule), tokens);
          TrackedStack(Step(c).config, NewTrees(ts, d.rule), tokens);
        }
      }
    }
  }

  lemma NotAccepted(tokens: seq<Token>)
    ensures Parse(tokens) == Aborted ==> !exists t :: ParseOf(t, tokens)
  {
    hide *;
    forall t | ParseOf(t, tokens)
      ensures Parse(tokens) != Aborted
    {
      Completeness(tokens, t);
    }
  }

  /** If there is a parse, only the height of its stack decides. */
  lemma ParseDecides(tokens: seq<Token>)
    ensures forall t :: ParseOf(t, tokens) ==>
              Parse(tokens) == if StackHeight(t) < YYMAXDEPTH then Accepted(Some(RootOf(t))) else Overflowed
  {
    hide *;
    forall t | ParseOf(t, tokens)
      ensures Parse(tokens) == if StackHeight(t) < YYMAXDEPTH then Accepted(Some(RootOf(t))) else Overflowed
    {
      Completeness(tokens, t);
    }
  }

  class Parser {
    const tokens: seq<Token>
    var yyss: seq<nat>
    var yyvs: seq<string>
    /** `YYEMPTY`, `YYEOF` or the code of the token that was read but not shifted. */
    var yychar: int
    var yylval: string
    /** How many tokens the scanner has delivered. */
    var scanned: nat
    var elements: seq<Dom>
    var root: Option<Dom>
    /** The tokens that are still to be shifted. */
    ghost var input: seq<Token>

    ghost predicate Valid()
      reads this
    {
      scanned <= |tokens|
      && (yychar == YYEMPTY ==> input == tokens[scanned..])
      && (yychar == YYEOF ==> Kind(input) == EOF && Lexeme(input) == yylval)
      && (yychar != YYEMPTY && yychar != YYEOF ==> yychar > 0 && input == [Token(yychar, yylval)] + tokens[scanned..])
    }

    ghost function State(): Config
      reads this
    {
      Config(yyss, yyvs, input, Maker(elements, root))
    }

    constructor (tokens: seq<Token>)
      ensures Valid() && State() == Start(tokens) && this.tokens == tokens
    {
      this.tokens := tokens;
      yyss, yyvs, yychar, yylval, scanned := [0], [], YYEMPTY, "", 0;
      elements, root, input := [], None, tokens;
    }

    /** `YYLEX`: the next token, or 0 when there is none. */
    method Lex()
      requires Valid() && yychar == YYEMPTY
      modifies this`yychar, this`yylval, this`scanned
      ensures yychar != YYEMPTY && Valid()
    {
      if scanned == |tokens| {
        yychar, yylval := YYEOF, "";
      } else {
        yychar, yylval := tokens[scanned].code, tokens[scanned].text;
        TranslateIsPositive(input);
        scanned := scanned + 1;
        if yychar <= 0 {
          yychar := YYEOF;
        }
      }
    }

    /** `yybackup`: what to do in the current state. */
    method Backup() returns (d: Decision)
      requires Valid() && yyss != [] && Top(yyss) < 28
      modifies this`yychar, this`yylval, this`scanned
      ensures Valid() && State() == old(State())
      ensures d == Decide(Top(yyss), Kind(input)) && (d.Shift? ==> yychar != YYEMPTY)
    {
      hide Pact, Check, Table, Default, Translate;
      var yystate := Top(yyss);
      var yyn := Pact(yystate);
      if yyn == YYFLAG {
        return Default(yystate);
      }
      if yychar == YYEMPTY {
        Lex();
      }
      var yychar1 := if yychar == YYEOF then EOF else Translate(yychar);
      yyn := yyn + yychar1;
      if yyn < 0 || yyn > YYLAST || Check(yyn) != yychar1 {
        return Default(yystate);
      }
      yyn := Table(yyn);
      if yyn < 0 {
        return if yyn == YYFLAG then Error else Reduce(-yyn);
      } else if yyn == 0 {
        return Error;
      } else if yyn == YYFINAL {
        return Accept;
      }
      return Shift(yyn);
    }

    /** Shift the lookahead token; the end of the input stays. */
    method ShiftToken(q: nat)
      requires Valid() && yychar != YYEMPTY
      modifies this
      ensures Valid()
              && State() == old(Config(yyss + [q], yyvs + [Lexeme(input)], AfterShift(input), Maker(elements, root)))
    {
      hide Translate;
      TranslateIsPositive(input);
      yyvs := yyvs + [yylval];
      yyss := yyss + [q];
      if yychar != YYEOF {
        yychar := YYEMPTY;
        input := input[1..];
      }
    }

    /** `sd_stack_pop`: the element on top is complete. */
    method PopElement()
      requires elements != []
      modifies this`elements, this`root
      ensures Maker(elements, root) == old(Close(Maker(elements, root)))
    {
      var node := elements[|elements| - 1];
      elements := elements[..|elements| - 1];
      if elements == [] {
        root := Some(node);
      } else {
        ReplacePeek(AddChild(elements[|elements| - 1], node));
      }
    }

    /** A change to the element on top of the stack. */
    method ReplacePeek(d: Dom)
      requires elements != []
      modifies this`elements
      ensures Maker(elements, root) == old(WithTop(Maker(elements, root), d))
    {
      elements := elements[..|elements| - 1] + [d];
    }

    /** The action of a rule; false if it raises an error. */
    method Act(r: nat) returns (ok: bool)
      requires r in {7, 8, 9, 16, 17} ==> elements != []
      modifies this`elements, this`root
      ensures ok <==> old(Action(r, Maker(elements, root), yyvs)).Some?
      ensures ok ==> Maker(elements, root) == old(Action(r, Maker(elements, root), yyvs)).value
      ensures !ok ==> elements == old(elements) && root == old(root)
    {
      hide WithTop, Close;
      ok := true;
      if r == 5 {
        elements := elements + [NewDom(Val(yyvs, 0))];
      } else if elements != [] {
        var node := elements[|elements| - 1];
        if r == 4 {
          ReplacePeek(AddChild(node, CommentDom(Val(yyvs, 0))));
        } else if r == 7 {
          PopElement();
        } else if r == 8 {
          if node.name != Val(yyvs, 1) {
            ok := false;
          } else {
            PopElement();
          }
        } else if r == 9 {
          ReplacePeek(node.(value := Some(Val(yyvs, 0))));
        } else if r == 16 {
          ReplacePeek(AddAttr(node, Val(yyvs, 0), ""));
        } else if r == 17 {
          ReplacePeek(AddAttr(node, Val(yyvs, 2), Val(yyvs, 0)));
        }
      }
    }

    /** `yyreduce`. */
    method ReduceRule(r: nat) returns (ok: bool)
      requires Valid() && 1 <= r <= 17 && |yyvs| == |yyss| - 1 && Length(r) < |yyss|
      requires yyss[|yyss| - 1 - Length(r)] < 28
      requires r in {7, 8, 9, 16, 17} ==> elements != []
      modifies this
      ensures ok <==> old(Action(r, State().maker, yyvs)).Some?
      ensures ok ==> Valid() && State() == old(Reduced(State(), r, Action(r, State().maker, yyvs).value))
      ensures !ok ==> yyss == old(yyss) && yyvs == old(yyvs)
    {
      RulesAre(r);
      hide Length, Lhs, Action, GotoOf;
      var yylen := yyr2[r];
      var yyval := DefaultValue(yyvs, yylen);
      ok := Act(r);
      if ok {
        yyvs := yyvs[..|yyvs| - yylen];
        yyss := yyss[..|yyss| - yylen];
        yyvs := yyvs + [yyval];
        GotoIs(Top(yyss), yyr1[r]);
        yyss := yyss + [Goto(Top(yyss), yyr1[r])];
      }
    }

    /** `yyerrlab`: states are popped until one takes the error token. None does, so the stack runs empty. */
    method Unwind()
      requires Chain(yyss) && |yyvs| == |yyss| - 1
      modifies this`yyss, this`yyvs
      ensures yyss == [0] && yyvs == []
    {
      hide Edge;
      while true
        invariant Chain(yyss) && |yyvs| == |yyss| - 1
        decreases |yyss|
      {
        TopBound(yyss);
        var yyn := Pact(Top(yyss));
        if yyn != YYFLAG {
          ErrorTokenIsNeverTaken(Top(yyss));
          yyn := yyn + YYTERROR;
          if 0 <= yyn <= YYLAST && Check(yyn) == YYTERROR {
            assert false;
          }
        }
        if |yyss| == 1 {
          return;
        }
        yyvs := yyvs[..|yyvs| - 1];
        yyss := yyss[..|yyss| - 1];
      }
    }

    /** `yyparse`: 0 if the tokens are accepted, 1 on an error, 2 if the stack overflows. */
    method Yyparse() returns (yyresult: int)
      requires Valid() && State() == Start(tokens)
      modifies this
      ensures yyresult == match Parse(tokens) case Accepted(_) => 0 case Aborted => 1 case Overflowed => 2
      ensures yyresult == 0 ==> elements == [] && exists t :: ParseOf(t, tokens) && root == Some(RootOf(t))
      ensures yyresult == 0 ==> root.Some? && Walk(root.value) == Events(tokens)
      ensures yyresult == 1 ==> !exists t :: ParseOf(t, tokens)
      ensures forall t :: ParseOf(t, tokens) ==> yyresult == if StackHeight(t) < YYMAXDEPTH then 0 else 2
    {
      ghost var ts: seq<Tree> := [];
      StartTracked(tokens);
      Soundness(tokens);
      ParseDecides(tokens);
      AcceptedDocument(tokens);
      hide Walk, EventsFrom, ParseOf, RootOf, StackHeight, Fold, Sound, AllFit, TreesOf, Chain, Edge, Symbol, ShiftOf,
           DefaultOf, Step, Reduced, Action, Run, Decide, Kind, Names, OpenTags, Tracked, Parse, Measure;
      while true
        invariant Valid() && Tracked(State(), ts, tokens) && yyss != []
        decreases |input|, Measure(State())
      {
        ghost var c := State();
        TrackedStack(c, ts, tokens);
        Round(c, ts, tokens);
        if |yyss| >= YYMAXDEPTH {
          return 2;
        }
        var d := Backup();
        match d
        case Error =>
          Unwind();
          NotAccepted(tokens);
          return 1;
        case Accept =>
          return 0;
        case Shift(q) =>
          ShiftToken(q);
          ts := ts + [LeafOf(c.input)];
        case Reduce(r) =>
          var ok := ReduceRule(r);
          if !ok {
            Unwind();
            NotAccepted(tokens);
            return 1;
          }
          ts := NewTrees(ts, r);
      }
    }
  }
}
