/** log4c's XML parser: the bison driver, its actions on the document being made, and parse trees. */
module LrParser {
  import opened LrTables
  import opened Sequences

  datatype Token = Token(code: int, text: string)

  /** An `sd_domnode_t`. */
  datatype Dom = Dom(name: string, value: Option<string>, attrs: seq<(string, string)>, children: seq<Dom>)

  /** The element stack and the root. A finished element is handed to its parent when it is closed. */
  datatype Maker = Maker(elements: seq<Dom>, root: Option<Dom>)

  function NewDom(name: string): Dom {
    Dom(name, None, [], [])
  }

  function CommentDom(text: string): Dom {
    Dom("#comment", Some(text), [], [])
  }

  function Peek(m: Maker): Dom
    requires m.elements != []
  {
    m.elements[|m.elements| - 1]
  }

  function WithTop(m: Maker, d: Dom): Maker
    requires m.elements != []
  {
    m.(elements := m.elements[..|m.elements| - 1] + [d])
  }

  function AddChild(d: Dom, child: Dom): Dom {
    d.(children := d.children + [child])
  }

  function AddAttr(d: Dom, name: string, value: string): Dom {
    d.(attrs := d.attrs + [(name, value)])
  }

  /** A finished element goes to its parent, or becomes the root. */
  function Finish(m: Maker, d: Dom): Maker {
    if m.elements == [] then m.(root := Some(d)) else WithTop(m, AddChild(Peek(m), d))
  }

  /** `sd_stack_pop` of the element that ends. */
  function Close(m: Maker): Maker
    requires m.elements != []
  {
    Finish(m.(elements := m.elements[..|m.elements| - 1]), Peek(m))
  }

  // ---------- the driver as a function ----------

  /** State stack, value stack, tokens not yet shifted, and the document being made. */
  datatype Config = Config(ss: seq<nat>, vs: seq<string>, input: seq<Token>, maker: Maker)
  datatype Outcome = Accepted(root: Option<Dom>) | Aborted | Overflowed
  datatype StepResult = Done(outcome: Outcome) | Next(config: Config)

  function Kind(input: seq<Token>): (k: nat)
    ensures k <= 23
  {
    if input == [] || input[0].code <= 0 then EOF else Translate(input[0].code)
  }

  function Lexeme(input: seq<Token>): string {
    if input == [] then "" else input[0].text
  }

  function AfterShift(input: seq<Token>): (r: seq<Token>)
    ensures |r| <= |input|
  {
    if Kind(input) == EOF then input else input[1..]
  }

  /** The value `yyvsp[-i]`. */
  function Val(vs: seq<string>, i: nat): string {
    if i < |vs| then vs[|vs| - 1 - i] else ""
  }

  /** The default value `$$ = $1` of a rule with `n` symbols; for `n == 0` the code reads a value above
      the stack, which nothing uses. */
  function DefaultValue(vs: seq<string>, n: nat): string {
    if n == 0 then "" else Val(vs, n - 1)
  }

  /** The action of a rule; `None` if an end name does not match or no element is open. */
  function Action(r: nat, m: Maker, vs: seq<string>): Option<Maker> {
    if r == 4 then Some(if m.elements == [] then m else WithTop(m, AddChild(Peek(m), CommentDom(Val(vs, 0)))))
    else if r == 5 then Some(m.(elements := m.elements + [NewDom(Val(vs, 0))]))
    else if r == 7 || r == 8 || r == 9 || r == 16 || r == 17 then
      if m.elements == [] then None
      else if r == 7 then Some(Close(m))
      else if r == 8 then (if Peek(m).name != Val(vs, 1) then None else Some(Close(m)))
      else if r == 9 then Some(WithTop(m, Peek(m).(value := Some(Val(vs, 0)))))
      else if r == 16 then Some(WithTop(m, AddAttr(Peek(m), Val(vs, 0), "")))
      else Some(WithTop(m, AddAttr(Peek(m), Val(vs, 2), Val(vs, 0))))
    else Some(m)
  }

  /** The states in which the automaton can be below state `q`. */
  predicate Edge(p: nat, q: nat) {
    if q == 1 then p == 0
    else if q == 2 then p == 1 || p == 7 || p == 15
    else if q == 3 then p == 1 || p == 15
    else if q == 4 then p == 1 || p == 7
    else if q == 5 then p == 1
    else if q == 6 then p == 3
    else if q == 7 then p == 5
    else if q == 8 then p == 6
    else if 9 <= q <= 13 then p == 8
    else if q == 14 then p == 9
    else if q == 15 then p == 10
    else if q == 16 then p == 11
    else if 17 <= q <= 20 then p == 15
    else if q == 21 then p == 16
    else if q == 22 || q == 23 then p == 17
    else if q == 24 then p == 23
    else if q == 25 then p == 0
    else q == 26 && p == 25
  }

  predicate Chain(ss: seq<nat>) {
    |ss| > 0 && ss[0] == 0 && forall i, j :: 0 <= i < |ss| && 0 <= j < |ss| && j == i + 1 ==> Edge(ss[i], ss[j])
  }

  function Top(ss: seq<nat>): nat
    requires ss != []
  {
    ss[|ss| - 1]
  }

  lemma TopBound(ss: seq<nat>)
    requires Chain(ss)
    ensures Top(ss) < 27
  {
    assert |ss| > 1 ==> Edge(ss[|ss| - 2], ss[|ss| - 1]);
  }

  function Length(r: nat): nat {
    if r == 1 || r == 17 then 3
    else if r == 2 || r == 7 || r == 9 || r == 10 || r == 11 || r == 14 then 2
    else if r == 4 || r == 13 || r == 16 then 1
    else if r == 6 then 4
    else if r == 8 then 5
    else 0
  }

  function Lhs(r: nat): nat {
    if r <= 1 then DOCUMENT
    else if r <= 3 then MISC
    else if r == 4 then NOTE
    else if r == 5 then MARK
    else if r == 6 then ELEMENT
    else if r <= 8 then BODY
    else if r <= 12 then CONTENT
    else if r == 13 then ENDNAME
    else if r <= 15 then ATTRIBUTES
    else ATTRIBUTE
  }

  lemma RulesAre(r: nat)
    requires 1 <= r <= 17
    ensures yyr2[r] == Length(r) && yyr1[r] == Lhs(r)
  {
  }

  /** The accessing symbol of a state. */
  function Symbol(q: nat): nat {
    if q == 1 || q == 7 then MISC
    else if q == 2 then COMMENT
    else if q == 3 then START
    else if q == 4 || q == 19 then NOTE
    else if q == 5 || q == 20 then ELEMENT
    else if q == 6 then MARK
    else if q == 8 then ATTRIBUTES
    else if q == 9 then SLASH
    else if q == 10 || q == 14 || q == 24 then CLOSE
    else if q == 11 || q == 22 then NAME
    else if q == 12 then BODY
    else if q == 13 then ATTRIBUTE
    else if q == 15 then CONTENT
    else if q == 16 then EQ
    else if q == 17 then END
    else if q == 18 then DATA
    else if q == 21 then VALUE
    else if q == 23 then ENDNAME
    else if q == 25 then DOCUMENT
    else EOF
  }

  /** A shift keeps the chain of states. */
  lemma ShiftEdge(s: nat, k: nat)
    requires ShiftOf(s, k) > 0
    ensures Edge(s, ShiftOf(s, k)) && Symbol(ShiftOf(s, k)) == k
  {
  }

  /** When a rule is reduced, its right-hand side is on top of the stack, and the goto keeps the chain. */
  lemma ReduceEdge(ss: seq<nat>, r: nat)
    requires Chain(ss) && r > 0 && r == DefaultOf(Top(ss))
    ensures Length(r) < |ss| && 1 <= r <= 17
    ensures forall i :: 0 <= i < Length(r) ==> Symbol(ss[|ss| - Length(r) + i]) == Rhs(r)[i]
    ensures var p := ss[|ss| - 1 - Length(r)]; p < 28 && Edge(p, GotoOf(p, Lhs(r))) && Symbol(GotoOf(p, Lhs(r))) == Lhs(r)
  {
    TopBound(ss);
    RhsIs(r);
    hide Rhs;
    if Length(r) <= 2 {
      ReduceShort(ss, r);
    } else {
      ReduceLong(ss, r);
    }
  }

  lemma ReduceShort(ss: seq<nat>, r: nat)
    requires Chain(ss) && r > 0 && r == DefaultOf(Top(ss)) && Length(r) <= 2
    ensures var n := |ss|;
            Length(r) < n && 1 <= r <= 17 && r !in {1, 6, 8, 17}
            && (var p := ss[n - 1 - Length(r)]; p < 28 && Edge(p, GotoOf(p, Lhs(r))) && Symbol(GotoOf(p, Lhs(r))) == Lhs(r))
            && (r == 4 ==> Symbol(ss[n - 1]) == COMMENT) && (r == 13 || r == 16 ==> Symbol(ss[n - 1]) == NAME)
            && (r == 2 ==> Symbol(ss[n - 2]) == MISC && Symbol(ss[n - 1]) == NOTE)
            && (r == 7 ==> Symbol(ss[n - 2]) == SLASH && Symbol(ss[n - 1]) == CLOSE)
            && (9 <= r <= 11 ==> Symbol(ss[n - 2]) == CONTENT
                                 && Symbol(ss[n - 1]) == if r == 9 then DATA else if r == 10 then ELEMENT else NOTE)
            && (r == 14 ==> Symbol(ss[n - 2]) == ATTRIBUTES && Symbol(ss[n - 1]) == ATTRIBUTE)
  {
    var n := |ss|;
    assert n >= 2 ==> Edge(ss[n - 2], ss[n - 1]);
    assert n >= 3 ==> Edge(ss[n - 3], ss[n - 2]);
  }

  lemma ReduceLong(ss: seq<nat>, r: nat)
    requires Chain(ss) && r > 0 && r == DefaultOf(Top(ss)) && Length(r) > 2
    ensures var n := |ss|;
            Length(r) < n && r in {1, 6, 8, 17}
            && (var p := ss[n - 1 - Length(r)]; p < 28 && Edge(p, GotoOf(p, Lhs(r))) && Symbol(GotoOf(p, Lhs(r))) == Lhs(r))
            && (r == 1 ==> Symbol(ss[n - 3]) == MISC && Symbol(ss[n - 2]) == ELEMENT && Symbol(ss[n - 1]) == MISC)
            && (r == 6 ==> Symbol(ss[n - 4]) == START && Symbol(ss[n - 3]) == MARK
                           && Symbol(ss[n - 2]) == ATTRIBUTES && Symbol(ss[n - 1]) == BODY)
            && (r == 8 ==> Symbol(ss[n - 5]) == CLOSE && Symbol(ss[n - 4]) == CONTENT && Symbol(ss[n - 3]) == END
                           && Symbol(ss[n - 2]) == ENDNAME && Symbol(ss[n - 1]) == CLOSE)
            && (r == 17 ==> Symbol(ss[n - 3]) == NAME && Symbol(ss[n - 2]) == EQ && Symbol(ss[n - 1]) == VALUE)
  {
    var n := |ss|;
    assert n >= 2 ==> Edge(ss[n - 2], ss[n - 1]);
    assert n >= 3 ==> Edge(ss[n - 3], ss[n - 2]);
    assert n >= 4 ==> Edge(ss[n - 4], ss[n - 3]);
    assert n >= 5 ==> Edge(ss[n - 5], ss[n - 4]);
    assert n >= 6 ==> Edge(ss[n - 6], ss[n - 5]);
  }

  lemma PushKeepsChain(ss: seq<nat>, k: nat, q: nat)
    requires Chain(ss) && k < |ss| && Edge(ss[k], q)
    ensures Chain(ss[..k + 1] + [q])
  {
  }

  predicate Sound(c: Config) {
    Chain(c.ss) && |c.vs| == |c.ss| - 1
  }

  /** What makes the round below well defined: the tables never lead out of the stacks. */
  lemma RoundIsSafe(c: Config)
    requires Sound(c)
    ensures c.ss != [] && |c.vs| == |c.ss| - 1 && Top(c.ss) < 28
    ensures match Decide(Top(c.ss), Kind(c.input))
            case Shift(q) => Chain(c.ss + [q])
            case Reduce(r) =>
              1 <= r <= 17 && 0 <= yyr2[r] < |c.ss| && YYNTBASE <= yyr1[r] <= 22
              && (var k := |c.ss| - 1 - yyr2[r];
                  c.ss[k] < 28 && Goto(c.ss[k], yyr1[r]) >= 0 && Chain(c.ss[..k + 1] + [Goto(c.ss[k], yyr1[r])]))
            case _ => true
  {
    hide Edge, Symbol, ShiftOf, DefaultOf, Decide, Goto, GotoOf;
    TopBound(c.ss);
    var s, k := Top(c.ss), Kind(c.input);
    DecideIs(s, k);
    var d := DecisionOf(s, k);
    if d.Shift? {
      ShiftEdge(s, k);
      PushKeepsChain(c.ss, |c.ss| - 1, d.state);
      assert c.ss[..|c.ss|] == c.ss;
    } else if d.Reduce? {
      ReduceEdge(c.ss, d.rule);
      RulesAre(d.rule);
      var i := |c.ss| - 1 - Length(d.rule);
      GotoIs(c.ss[i], Lhs(d.rule));
      PushKeepsChain(c.ss, i, GotoOf(c.ss[i], Lhs(d.rule)));
    }
  }

  /** One round of the driver: `yysetstate`, `yybackup`, then a shift or a reduction. */
  function Step(c: Config): (r: StepResult)
    requires Sound(c)
    ensures r.Next? ==> Sound(r.config)
  {
    hide Chain, Decide, Goto, Action, Edge;
    RoundIsSafe(c);
    if |c.ss| >= YYMAXDEPTH then Done(Overflowed)
    else
      match Decide(Top(c.ss), Kind(c.input))
      case Error => Done(Aborted)
      case Accept => Done(Accepted(c.maker.root))
      case Shift(q) =>
        Next(Config(c.ss + [q], c.vs + [Lexeme(c.input)], AfterShift(c.input), c.maker))
      case Reduce(r) =>
        match Action(r, c.maker, c.vs)
        case None => Done(Aborted)
        case Some(m) =>
          var k := |c.ss| - 1 - yyr2[r];
          Next(Config(c.ss[..k + 1] + [Goto(c.ss[k], yyr1[r])], c.vs[..k] + [DefaultValue(c.vs, yyr2[r])], c.input, m))
  }

  /** The configuration after reducing rule `r`. */
  function Reduced(c: Config, r: nat, m: Maker): Config
    requires Length(r) < |c.ss| && |c.vs| == |c.ss| - 1
  {
    var k := |c.ss| - 1 - Length(r);
    Config(c.ss[..k + 1] + [GotoOf(c.ss[k], Lhs(r))], c.vs[..k] + [DefaultValue(c.vs, Length(r))], c.input, m)
  }

  /** The round in terms of the automaton the tables encode. */
  lemma StepIs(c: Config)
    requires Sound(c)
    ensures |c.ss| >= YYMAXDEPTH ==> Step(c) == Done(Overflowed)
    ensures |c.ss| < YYMAXDEPTH ==>
            match DecisionOf(Top(c.ss), Kind(c.input))
            case Error => Step(c) == Done(Aborted)
            case Accept => Step(c) == Done(Accepted(c.maker.root))
            case Shift(q) =>
              Edge(Top(c.ss), q) && Symbol(q) == Kind(c.input)
              && Step(c) == Next(Config(c.ss + [q], c.vs + [Lexeme(c.input)], AfterShift(c.input), c.maker))
            case Reduce(r) =>
              r > 0 && r == DefaultOf(Top(c.ss)) && Length(r) < |c.ss|
              && (match Action(r, c.maker, c.vs)
                  case None => Step(c) == Done(Aborted)
                  case Some(m) => Step(c) == Next(Reduced(c, r, m)))
  {
    hide Action, DefaultOf, Edge, Symbol, Chain, Decide, Goto, Kind, ShiftOf, GotoOf;
    RoundIsSafe(c);
    TopBound(c.ss);
    var s, k := Top(c.ss), Kind(c.input);
    DecideIs(s, k);
    var d := DecisionOf(s, k);
    if d.Shift? {
      ShiftEdge(s, k);
    } else if d.Reduce? {
      StepReduces(c, d.rule);
    }
  }

  lemma StepReduces(c: Config, r: nat)
    requires Sound(c) && r > 0 && r == DefaultOf(Top(c.ss)) && Top(c.ss) < 28
             && Decide(Top(c.ss), Kind(c.input)) == Reduce(r)
    ensures Length(r) < |c.ss|
    ensures |c.ss| < YYMAXDEPTH ==>
            match Action(r, c.maker, c.vs)
            case None => Step(c) == Done(Aborted)
            case Some(m) => Step(c) == Next(Reduced(c, r, m))
  {
    hide Action, DefaultOf, Edge, Symbol, Chain, Decide, Goto, Kind, GotoOf, Length, Lhs;
    RoundIsSafe(c);
    ReduceEdge(c.ss, r);
    RulesAre(r);
    GotoIs(c.ss[|c.ss| - 1 - Length(r)], Lhs(r));
  }

  // ---------- termination ----------

  /** What the reductions of a state still cost. */
  function Weight(s: nat): nat {
    if s == 3 then 6
    else if s == 0 || s == 5 || s == 6 || s == 10 || s == 25 then 3
    else if s == 2 || s == 11 || s == 22 then 1
    else 0
  }

  function Measure(c: Config): nat
    requires c.ss != []
  {
    2 * |c.ss| + Weight(Top(c.ss))
  }

  /** Every round consumes a token or lowers the measure: the driver cannot reduce for ever. */
  lemma StepDecreases(c: Config)
    requires Sound(c)
    ensures var r := Step(c);
            r.Next? ==> |r.config.input| < |c.input|
                        || (r.config.input == c.input && Measure(r.config) < Measure(c))
  {
    hide Action, Symbol, Edge, Step, ShiftOf, DefaultOf, Weight;
    StepIs(c);
    var d := DecisionOf(Top(c.ss), Kind(c.input));
    if |c.ss| < YYMAXDEPTH {
      if d.Reduce? {
        ReduceWeight(c.ss, d.rule);
      } else if d.Shift? && Kind(c.input) == EOF {
        EofShiftWeight(Top(c.ss));
      }
    }
  }

  lemma EofShiftWeight(s: nat)
    requires ShiftOf(s, EOF) > 0
    ensures Weight(ShiftOf(s, EOF)) + 2 < Weight(s)
  {
  }

  lemma ReduceWeight(ss: seq<nat>, r: nat)
    requires Chain(ss) && r > 0 && r == DefaultOf(Top(ss)) && Length(r) < |ss|
    ensures var q := GotoOf(ss[|ss| - 1 - Length(r)], Lhs(r));
            Weight(q) + 2 < Weight(Top(ss)) + 2 * Length(r)
  {
    var n := |ss|;
    assert n >= 2 ==> Edge(ss[n - 2], ss[n - 1]);
    assert n >= 3 ==> Edge(ss[n - 3], ss[n - 2]);
  }

  /** `yyparse` from a configuration on. */
  function Run(c: Config): Outcome
    requires Sound(c)
    decreases |c.input|, Measure(c)
  {
    StepDecreases(c);
    match Step(c)
    case Done(o) => o
    case Next(next) => Run(next)
  }

  function Start(tokens: seq<Token>): Config {
    Config([0], [], tokens, Maker([], None))
  }

  /** The result of `yyparse` on a token sequence. */
  function Parse(tokens: seq<Token>): Outcome {
    Run(Start(tokens))
  }
}
