/** The generated tables of log4c's XML parser and what they make the driver do. */
module LrTables {
  const YYFINAL := 27
  const YYFLAG := -32768
  const YYNTBASE := 13
  const YYLAST := 24
  const YYMAXDEPTH := 10000
  const YYTERROR := 1

  // Token numbers of the grammar.
  const EOF := 0
  const EQ := 4
  const SLASH := 5
  const CLOSE := 6
  const END := 7
  const NAME := 8
  const VALUE := 9
  const DATA := 10
  const COMMENT := 11
  const START := 12
  // Its nonterminals.
  const DOCUMENT := 13
  const MISC := 14
  const NOTE := 15
  const ELEMENT := 16
  const MARK := 17
  const BODY := 18
  const CONTENT := 19
  const ENDNAME := 20
  const ATTRIBUTES := 21
  const ATTRIBUTE := 22

  const yyr1: seq<int> := [0, 13, 14, 14, 15, 17, 16, 18, 18, 19, 19, 19, 19, 20, 21, 21, 22, 22]
  const yyr2: seq<int> := [0, 3, 2, 0, 1, 0, 4, 2, 5, 2, 2, 2, 0, 1, 2, 0, 1, 3]
  const yyprhs: seq<int> := [0, 0, 4, 7, 8, 10, 11, 16, 19, 25, 28, 31, 34, 35, 37, 40, 41, 43]
  const yyrhs: seq<int> :=
    [14, 16, 14, 0, 14, 15, 0, 0, 11, 0]
    + [0, 12, 17, 21, 18, 0, 5, 6, 0, 6]
    + [19, 7, 20, 6, 0, 19, 10, 0, 19, 16]
    + [0, 19, 15, 0, 0, 8, 0, 21, 22, 0]
    + [0, 8, 0, 8, 4, 9, 0]
  const yydefact: seq<int> := [
    3, 0, 4, 5, 2, 3, 15, 1, 0, 0, 12, 16, 6, 14, 7, 0, 0, 0, 9, 11, 10, 17, 13, 0, 8, 0, 0, 0]
  const yydefgoto: seq<int> := [25, 1, 4, 5, 6, 12, 15, 23, 8, 13]
  const yypact: seq<int> := [
    -32768, -10, -32768, -32768, -32768, -32768, -32768, -3, 1, 4, -32768, 7, -32768, -32768, -32768, -7, 3, 5,
    -32768, -32768, -32768, -32768, -32768, 8, -32768, 15, 16, -32768]
  const yypgoto: seq<int> := [-32768, 12, 6, 9, -32768, -32768, -32768, -32768, -32768, -32768]
  const yytable: seq<int> := [
    17, 2, 3, 18, 2, 3, 9, 10, 2, 11, 14, 16, 21, 22, 24, 26, 27, 7, 0, 0, 0, 19, 0, 0, 20]
  const yycheck: seq<int> := [
    7, 11, 12, 10, 11, 12, 5, 6, 11, 8, 6, 4, 9, 8, 6, 0, 0, 5, -1, -1, -1, 15, -1, -1, 15]

  /** `YYTRANSLATE`: the codes 257 to 266 are the tokens 3 to 12. */
  function Translate(code: int): (k: nat)
    ensures k <= 23
  {
    if code > 266 then 23 else if code >= 257 then code - 254 else if code == 256 then 1 else if code == 0 then 0 else 2
  }

  /** The right-hand side of a rule. */
  function Rhs(r: nat): seq<int>
    requires 1 <= r <= 17
  {
    yyrhs[yyprhs[r]..yyprhs[r] + yyr2[r]]
  }

  function Pact(s: nat): int
    requires s < 28
  {
    yypact[s]
  }

  function Check(n: int): int
    requires 0 <= n <= YYLAST
  {
    yycheck[n]
  }

  function Table(n: int): int
    requires 0 <= n <= YYLAST
  {
    yytable[n]
  }

  datatype Decision = Error | Accept | Shift(state: nat) | Reduce(rule: nat)

  function Default(s: nat): (d: Decision)
    requires s < 28
    ensures d.Error? || d.Reduce?
  {
    if yydefact[s] <= 0 then Error else Reduce(yydefact[s])
  }

  /** What `yybackup` decides in state `s` with lookahead token `k`. */
  function Decide(s: nat, k: nat): Decision
    requires s < 28
  {
    var p := Pact(s);
    if p == YYFLAG then Default(s)
    else
      var n := p + k;
      if n < 0 || n > YYLAST || Check(n) != k then Default(s)
      else
        var a := Table(n);
        if a < 0 then (if a == YYFLAG then Error else Reduce(-a))
        else if a == 0 then Error
        else if a == YYFINAL then Accept
        else Shift(a)
  }

  /** The state after reducing to nonterminal `x` in state `s`. */
  function Goto(s: nat, x: nat): int
    requires s < 28 && YYNTBASE <= x <= 22
  {
    var n := yypgoto[x - YYNTBASE] + s;
    if 0 <= n <= YYLAST && yycheck[n] == s then yytable[n] else yydefgoto[x - YYNTBASE]
  }

  // ---------- the automaton in the tables ----------

  function ShiftOf(s: nat, k: nat): (q: nat)
    ensures q < 28
  {
    if s == 1 || s == 7 || s == 15 then
      if k == COMMENT then 2
      else if k == START && s != 7 then 3
      else if s == 15 && k == END then 17
      else if s == 15 && k == DATA then 18
      else 0
    else if s == 8 then (if k == SLASH then 9 else if k == CLOSE then 10 else if k == NAME then 11 else 0)
    else if s == 9 && k == CLOSE then 14
    else if s == 11 && k == EQ then 16
    else if s == 16 && k == VALUE then 21
    else if s == 17 && k == NAME then 22
    else if s == 23 && k == CLOSE then 24
    else if s == 25 && k == EOF then 26
    else 0
  }

  function DefaultOf(s: nat): (r: nat)
    ensures r <= 17
  {
    if s == 0 || s == 5 then 3
    else if s == 2 then 4
    else if s == 3 then 5
    else if s == 4 then 2
    else if s == 6 then 15
    else if s == 7 then 1
    else if s == 10 then 12
    else if s == 11 then 16
    else if s == 12 then 6
    else if s == 13 then 14
    else if s == 14 then 7
    else if s == 18 then 9
    else if s == 19 then 11
    else if s == 20 then 10
    else if s == 21 then 17
    else if s == 22 then 13
    else if s == 24 then 8
    else 0
  }

  function DecisionOf(s: nat, k: nat): Decision {
    if s == 26 && k == EOF then Accept
    else if ShiftOf(s, k) > 0 then Shift(ShiftOf(s, k))
    else if DefaultOf(s) > 0 then Reduce(DefaultOf(s))
    else Error
  }

  function GotoOf(s: nat, x: nat): nat {
    if x == DOCUMENT then 25
    else if x == MISC then (if s == 5 then 7 else 1)
    else if x == NOTE then (if s == 15 then 19 else 4)
    else if x == ELEMENT then (if s == 15 then 20 else 5)
    else if x == MARK then 6
    else if x == BODY then 12
    else if x == CONTENT then 15
    else if x == ENDNAME then 23
    else if x == ATTRIBUTES then 8
    else 13
  }

  lemma DefaultIs(s: nat)
    requires s < 28
    ensures Default(s) == if DefaultOf(s) > 0 then Reduce(DefaultOf(s)) else Error
  {
  }

  lemma NoTableRow(s: nat, k: nat)
    requires s < 28 && k <= 23 && s !in {1, 7, 8, 9, 11, 15, 16, 17, 23, 25, 26}
    ensures yypact[s] == YYFLAG && ShiftOf(s, k) == 0
  {
  }

  /** What the table holds for lookahead `k` in a row that starts at `p`. */
  function Entry(p: int, k: nat): int {
    var n := p + k;
    if n < 0 || n > YYLAST || Check(n) != k then 0 else Table(n)
  }

  /** The table row of state `s`: its shifts, and nothing for any other token. */
  lemma Row1(k: nat)
    requires k <= 23
    ensures Entry(yypact[1], k) == ShiftOf(1, k)
  {
  }

  lemma Row7(k: nat)
    requires k <= 23
    ensures Entry(yypact[7], k) == ShiftOf(7, k)
  {
  }

  lemma Row8(k: nat)
    requires k <= 23
    ensures Entry(yypact[8], k) == ShiftOf(8, k)
  {
  }

  lemma Row9(k: nat)
    requires k <= 23
    ensures Entry(yypact[9], k) == ShiftOf(9, k)
  {
  }

  lemma Row11(k: nat)
    requires k <= 23
    ensures Entry(yypact[11], k) == ShiftOf(11, k)
  {
  }

  lemma Row15(k: nat)
    requires k <= 23
    ensures Entry(yypact[15], k) == ShiftOf(15, k)
  {
  }

  lemma Row16(k: nat)
    requires k <= 23
    ensures Entry(yypact[16], k) == ShiftOf(16, k)
  {
  }

  lemma Row17(k: nat)
    requires k <= 23
    ensures Entry(yypact[17], k) == ShiftOf(17, k)
  {
  }

  lemma Row23(k: nat)
    requires k <= 23
    ensures Entry(yypact[23], k) == ShiftOf(23, k)
  {
  }

  lemma Row25(k: nat)
    requires k <= 23
    ensures Entry(yypact[25], k) == ShiftOf(25, k)
  {
  }

  lemma Row26(k: nat)
    requires k <= 23
    ensures Entry(yypact[26], k) == if k == EOF then YYFINAL else 0
  {
  }

  /** The packed tables encode exactly this automaton. */
  lemma DecideIs(s: nat, k: nat)
    requires s < 28 && k <= 23
    ensures Decide(s, k) == DecisionOf(s, k)
  {
    DefaultIs(s);
    hide Default, DefaultOf, ShiftOf;
    if s !in {1, 7, 8, 9, 11, 15, 16, 17, 23, 25, 26} {
      NoTableRow(s, k);
    } else {
      EntryIs(s, k);
      DecideByEntry(s, k);
    }
  }

  lemma EntryIs(s: nat, k: nat)
    requires s in {1, 7, 8, 9, 11, 15, 16, 17, 23, 25, 26} && k <= 23
    ensures yypact[s] != YYFLAG
    ensures Entry(yypact[s], k) == if s == 26 && k == EOF then YYFINAL else ShiftOf(s, k)
    ensures s == 26 ==> ShiftOf(s, k) == 0
  {
    hide Entry;
    if s == 1 {
      Row1(k);
    } else if s == 7 {
      Row7(k);
    } else if s == 8 {
      Row8(k);
    } else if s == 9 {
      Row9(k);
    } else if s == 11 {
      Row11(k);
    } else if s == 15 {
      Row15(k);
    } else if s == 16 {
      Row16(k);
    } else if s == 17 {
      Row17(k);
    } else if s == 23 {
      Row23(k);
    } else if s == 25 {
      Row25(k);
    } else if s == 26 {
      Row26(k);
    }
  }

  lemma DecideByEntry(s: nat, k: nat)
    requires s < 28 && k <= 23 && Pact(s) != YYFLAG && Entry(Pact(s), k) >= 0
    ensures Decide(s, k) ==
            var a := Entry(Pact(s), k);
            if a == 0 then Default(s) else if a == YYFINAL then Accept else Shift(a)
  {
    var n := Pact(s) + k;
    if 0 <= n <= YYLAST {
      EntryMisses(n);
    }
    hide Pact, Check, Table, Default;
  }

  /** A table slot that holds 0 is never matched by its check. */
  lemma EntryMisses(n: int)
    requires 0 <= n <= YYLAST
    ensures Table(n) == 0 ==> Check(n) < 0
  {
  }

  lemma GotoIs(s: nat, x: nat)
    requires s < 28 && YYNTBASE <= x <= 22
    ensures Goto(s, x) == GotoOf(s, x)
  {
  }

  lemma RhsIs(r: nat)
    requires 1 <= r <= 17
    ensures |Rhs(r)| == yyr2[r]
    ensures Rhs(r) ==
            if r == 1 then [MISC, ELEMENT, MISC] else if r == 2 then [MISC, NOTE] else if r == 4 then [COMMENT]
            else if r == 6 then [START, MARK, ATTRIBUTES, BODY] else if r == 7 then [SLASH, CLOSE]
            else if r == 8 then [CLOSE, CONTENT, END, ENDNAME, CLOSE] else if r == 9 then [CONTENT, DATA]
            else if r == 10 then [CONTENT, ELEMENT] else if r == 11 then [CONTENT, NOTE] else if r == 13 then [NAME]
            else if r == 14 then [ATTRIBUTES, ATTRIBUTE] else if r == 16 then [NAME]
            else if r == 17 then [NAME, EQ, VALUE] else []
  {
    RhsEntries();
  }

  lemma RhsEntries()
    ensures yyrhs[0] == 14 && yyrhs[1] == 16 && yyrhs[2] == 14 && yyrhs[4] == 14 && yyrhs[5] == 15 && yyrhs[8] == 11
            && yyrhs[11] == 12
    ensures yyrhs[12] == 17 && yyrhs[13] == 21 && yyrhs[14] == 18 && yyrhs[16] == 5 && yyrhs[17] == 6
            && yyrhs[19] == 6 && yyrhs[20] == 19 && yyrhs[21] == 7 && yyrhs[22] == 20 && yyrhs[23] == 6
    ensures yyrhs[25] == 19 && yyrhs[26] == 10 && yyrhs[28] == 19 && yyrhs[29] == 16 && yyrhs[31] == 19
            && yyrhs[32] == 15 && yyrhs[35] == 8
    ensures yyrhs[37] == 21 && yyrhs[38] == 22 && yyrhs[41] == 8 && yyrhs[43] == 8 && yyrhs[44] == 4 && yyrhs[45] == 9
  {
  }

  /** No state accepts the error token. */
  lemma ErrorTokenIsNeverTaken(s: nat)
    requires s < 28 && yypact[s] != YYFLAG
    ensures var n := yypact[s] + YYTERROR; n < 0 || n > YYLAST || yycheck[n] != YYTERROR
  {
  }
}
