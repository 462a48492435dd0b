/** CIniFile: sections, values and comments, and the text they are written as. */
module IniFile {
  import opened Chars
  import opened Sequences

  datatype Key = Key(names: seq<string>, values: seq<string>, comments: seq<string>)

  /** Section names with their sections, and the header comments. */
  datatype Ini = Ini(names: seq<string>, keys: seq<Key>, comments: seq<string>)

  const noID := -1
  const EMPTY := Ini([], [], [])

  // ---------- strings ----------

  function TrimLeft(s: string): (r: string)
    ensures |r| <= |s|
  {
    if s != "" && IsSpace(s[0]) then TrimLeft(s[1..]) else s
  }

  function TrimRight(s: string): (r: string)
    ensures |r| <= |s|
  {
    if s != "" && IsSpace(s[|s| - 1]) then TrimRight(s[..|s| - 1]) else s
  }

  function Trim(s: string): string {
    TrimRight(TrimLeft(s))
  }

  predicate Trimmed(s: string) {
    s == "" || (!IsSpace(s[0]) && !IsSpace(s[|s| - 1]))
  }

  /** Trimming changes nothing exactly if there is no space at either end. */
  lemma TrimIff(s: string)
    ensures Trim(s) == s <==> Trimmed(s)
  {
    if s != "" && IsSpace(s[0]) {
      assert |TrimLeft(s)| < |s|;
    } else if s != "" && IsSpace(s[|s| - 1]) {
      assert |TrimRight(s)| < |s|;
    }
  }

  lemma {:induction false} TrimLeftIs(s: string)
    ensures TrimLeft(s) == s[|s| - |TrimLeft(s)|..] && (TrimLeft(s) == "" || !IsSpace(TrimLeft(s)[0]))
    ensures forall j :: 0 <= j < |s| - |TrimLeft(s)| ==> IsSpace(s[j])
  {
    if s != "" && IsSpace(s[0]) {
      TrimLeftIs(s[1..]);
    }
  }

  lemma {:induction false} TrimRightIs(s: string)
    ensures TrimRight(s) == s[..|TrimRight(s)|] && (TrimRight(s) == "" || !IsSpace(TrimRight(s)[|TrimRight(s)| - 1]))
    ensures forall j :: |TrimRight(s)| <= j < |s| ==> IsSpace(s[j])
  {
    if s != "" && IsSpace(s[|s| - 1]) {
      TrimRightIs(s[..|s| - 1]);
    }
  }

  lemma TrimIs(s: string)
    ensures Trimmed(Trim(s)) && forall c :: c in Trim(s) ==> c in s
  {
    TrimLeftIs(s);
    TrimRightIs(TrimLeft(s));
  }

  predicate AllSpaces(s: string) {
    forall j :: 0 <= j < |s| ==> IsSpace(s[j])
  }

  lemma CutLeft(s: string) returns (a: string)
    ensures s == a + TrimLeft(s) && AllSpaces(a)
  {
    hide TrimLeft;
    TrimLeftIs(s);
    a := s[..|s| - |TrimLeft(s)|];
  }

  lemma CutRight(s: string) returns (b: string)
    ensures s == TrimRight(s) + b && AllSpaces(b)
  {
    hide TrimRight;
    TrimRightIs(s);
    b := s[|TrimRight(s)|..];
  }

  /** Trimming takes off just the spaces at both ends. */
  lemma TrimSplits(s: string) returns (a: string, b: string)
    ensures s == a + Trim(s) + b && AllSpaces(a) && AllSpaces(b) && Trimmed(Trim(s))
  {
    hide TrimLeft, TrimRight, AllSpaces, Trimmed;
    TrimIs(s);
    a := CutLeft(s);
    b := CutRight(TrimLeft(s));
    Regroup(a, Trim(s), b);
  }

  /** `CheckCase`: names are compared in lower case, if so wanted. */
  function Fold(s: string, insensitive: bool): string {
    if insensitive then seq(|s|, i requires 0 <= i < |s| => ToLower(s[i])) else s
  }

  // ---------- looking up and setting ----------

  /** The first name that matches. */
  function Find(names: seq<string>, name: string, ci: bool): (id: int)
    ensures id == noID || (0 <= id < |names| && Fold(names[id], ci) == Fold(name, ci))
    ensures id == noID <==> forall i :: 0 <= i < |names| ==> Fold(names[i], ci) != Fold(name, ci)
    ensures id != noID ==> forall i :: 0 <= i < id ==> Fold(names[i], ci) != Fold(name, ci)
  {
    if names == [] then noID
    else if Fold(names[0], ci) == Fold(name, ci) then 0
    else
      var r := Find(names[1..], name, ci);
      if r == noID then noID else r + 1
  }

  lemma FindIs(names: seq<string>, name: string, ci: bool)
    ensures var id := Find(names, name, ci);
            (id == noID && forall i :: 0 <= i < |names| ==> Fold(names[i], ci) != Fold(name, ci)) || 0 <= id < |names|
  {
  }

  function AddedKeyName(ini: Ini, name: string): Ini {
    ini.(names := ini.names + [Trim(name)], keys := ini.keys + [Key([], [], [])])
  }

  function SetInKey(k: Key, name: string, value: string, ci: bool): Key {
    var id := Find(k.names, name, ci);
    if id == noID then k.(names := k.names + [name], values := k.values + [value])
    else if id < |k.values| then k.(values := k.values[id := value])
    else k
  }

  predicate Wellformed(ini: Ini) {
    |ini.keys| == |ini.names| && forall k :: k in ini.keys ==> |k.names| == |k.values|
  }

  function WithValue(ini: Ini, name: string, valueName: string, value: string, ci: bool): Ini
    requires Wellformed(ini)
  {
    var id := Find(ini.names, Trim(name), ci);
    var at := if id == noID then AddedKeyName(ini, Trim(name)) else ini;
    var k := if id == noID then |ini.keys| else id;
    at.(keys := at.keys[k := SetInKey(at.keys[k], Trim(valueName), Trim(value), ci)])
  }

  function WithKeyComment(ini: Ini, name: string, comment: string, ci: bool): Ini
    requires Wellformed(ini)
  {
    var id := Find(ini.names, name, ci);
    if id == noID then ini
    else ini.(keys := ini.keys[id := ini.keys[id].(comments := ini.keys[id].comments + [comment])])
  }

  predicate Matches(a: string, b: string, ci: bool) {
    Fold(a, ci) == Fold(b, ci)
  }

  predicate IsFirst(names: seq<string>, name: string, ci: bool, i: nat) {
    i < |names| && Matches(names[i], name, ci) && forall j :: 0 <= j < i ==> !Matches(names[j], name, ci)
  }

  /** There is a value of that name in the first section of that name. */
  ghost predicate HasValue(ini: Ini, name: string, valueName: string, ci: bool)
    requires Wellformed(ini)
  {
    exists i: nat, k: nat :: IsFirst(ini.names, name, ci, i) && IsFirst(ini.keys[i].names, valueName, ci, k)
  }

  /** The names after one was looked for: as before if there is a match, and else with the new one at the end. */
  predicate NamesAfter(before: seq<string>, after: seq<string>, name: string, ci: bool) {
    if exists j :: 0 <= j < |before| && Matches(before[j], name, ci) then after == before else after == before + [name]
  }

  /** A value was set: the first value of that name in the first section of that name holds it, and everything else is as
      before. */
  predicate ValueSet(b: Ini, a: Ini, name: string, valueName: string, value: string, ci: bool, i: nat, k: nat) {
    NamesAfter(b.names, a.names, name, ci) && IsFirst(a.names, name, ci, i) && a.comments == b.comments
    && |a.keys| == |a.names| && (forall j :: 0 <= j < |b.keys| && j < |a.keys| && j != i ==> a.keys[j] == b.keys[j])
    && (var key, was := a.keys[i], if i < |b.keys| then b.keys[i] else Key([], [], []);
        NamesAfter(was.names, key.names, valueName, ci) && IsFirst(key.names, valueName, ci, k)
        && key.comments == was.comments && |key.values| == |key.names| && key.values[k] == value
        && forall j :: 0 <= j < |was.values| && j < |key.values| && j != k ==> key.values[j] == was.values[j])
  }

  lemma SetValueWellformed(ini: Ini, name: string, valueName: string, value: string, ci: bool)
    requires Wellformed(ini)
    ensures Wellformed(WithValue(ini, name, valueName, value, ci))
  {
    hide Find, Trim;
  }

  lemma FindFirst(names: seq<string>, name: string, ci: bool)
    ensures var id := Find(names, name, ci);
            if id == noID then IsFirst(names + [name], name, ci, |names|) && NamesAfter(names, names + [name], name, ci)
            else IsFirst(names, name, ci, id) && NamesAfter(names, names, name, ci)
  {
    hide Fold;
  }

  /** What `WithValue` does, told by the names alone. */
  lemma WithValueIs(ini: Ini, name: string, valueName: string, value: string, ci: bool)
    requires Wellformed(ini)
    ensures exists i, k ::
              ValueSet(ini, WithValue(ini, name, valueName, value, ci), Trim(name), Trim(valueName), Trim(value), ci, i, k)
  {
    hide Fold, Find, Trim, IsFirst, NamesAfter;
    TrimIs(name);
    TrimIff(Trim(name));
    FindFirst(ini.names, Trim(name), ci);
    FindIs(ini.names, Trim(name), ci);
    var id := Find(ini.names, Trim(name), ci);
    var i := if id == noID then |ini.names| else id;
    var key := if id == noID then Key([], [], []) else ini.keys[id];
    FindFirst(key.names, Trim(valueName), ci);
    FindIs(key.names, Trim(valueName), ci);
    var v := Find(key.names, Trim(valueName), ci);
    var k := if v == noID then |key.names| else v;
    assert ValueSet(ini, WithValue(ini, name, valueName, value, ci), Trim(name), Trim(valueName), Trim(value), ci, i, k);
  }

  /** The first value of that name in the first section of that name. */
  function ValueOf(ini: Ini, name: string, valueName: string, defValue: string, ci: bool): string
    requires Wellformed(ini)
  {
    var i := Find(ini.names, name, ci);
    if i == noID then defValue
    else
      var k := Find(ini.keys[i].names, valueName, ci);
      if k == noID then defValue else ini.keys[i].values[k]
  }

  lemma FindIsFirst(names: seq<string>, name: string, ci: bool, i: nat)
    requires IsFirst(names, name, ci, i)
    ensures Find(names, name, ci) == i
  {
    hide Fold;
  }

  lemma FindOther(before: seq<string>, after: seq<string>, name: string, other: string, ci: bool)
    requires NamesAfter(before, after, name, ci) && !Matches(other, name, ci)
    ensures Find(after, other, ci) == Find(before, other, ci)
  {
    hide Fold;
    if after != before {
      var r := Find(after, other, ci);
      assert forall j :: 0 <= j < |before| ==> after[j] == before[j];
    }
  }

  /** A value that was set is what is got by its names, and nothing else is got differently. */
  lemma SetThenGet(ini: Ini, name: string, valueName: string, value: string, name2: string, valueName2: string,
      defValue: string, ci: bool)
    requires Wellformed(ini)
    ensures var after := WithValue(ini, name, valueName, value, ci);
            Wellformed(after) && ValueOf(after, name2, valueName2, defValue, ci)
            == if Matches(name2, Trim(name), ci) && Matches(valueName2, Trim(valueName), ci) then Trim(value)
               else ValueOf(ini, name2, valueName2, defValue, ci)
  {
    hide Fold, Find, Trim, NamesAfter, IsFirst, WithValue;
    SetValueWellformed(ini, name, valueName, value, ci);
    WithValueIs(ini, name, valueName, value, ci);
    var after := WithValue(ini, name, valueName, value, ci);
    var i, k :| ValueSet(ini, after, Trim(name), Trim(valueName), Trim(value), ci, i, k);
    GotAfter(ini, after, Trim(name), Trim(valueName), Trim(value), name2, valueName2, defValue, ci, i, k);
  }

  lemma SameMatch(names: seq<string>, name: string, other: string, ci: bool, i: nat)
    requires IsFirst(names, name, ci, i) && Matches(other, name, ci)
    ensures IsFirst(names, other, ci, i)
  {
    hide Fold;
  }

  /** The first match after a name was looked for is the first before, or none was there. */
  lemma FindBefore(before: seq<string>, after: seq<string>, name: string, ci: bool, i: nat)
    requires NamesAfter(before, after, name, ci) && IsFirst(after, name, ci, i)
    ensures Find(before, name, ci) == if i < |before| then i else noID
  {
    hide Fold;
    assert forall j :: 0 <= j < |before| ==> after[j] == before[j];
  }

  lemma FoundName(before: seq<string>, after: seq<string>, name: string, other: string, ci: bool, i: nat)
    requires NamesAfter(before, after, name, ci) && IsFirst(after, name, ci, i)
    ensures if Matches(other, name, ci) then
              Find(after, other, ci) == i && Find(before, other, ci) == if i < |before| then i else noID
            else Find(after, other, ci) == Find(before, other, ci) && Find(before, other, ci) != i
  {
    hide Fold, NamesAfter, IsFirst;
    if Matches(other, name, ci) {
      SameMatch(after, name, other, ci, i);
      FindIsFirst(after, other, ci, i);
      FindBefore(before, after, name, ci, i);
      SameFind(before, name, other, ci);
    } else {
      FindOther(before, after, name, other, ci);
      NotFirst(after, name, other, ci, i);
    }
  }

  lemma SameFind(names: seq<string>, name: string, other: string, ci: bool)
    requires Matches(other, name, ci)
    ensures Find(names, other, ci) == Find(names, name, ci)
  {
    hide Fold;
  }

  lemma NotFirst(names: seq<string>, name: string, other: string, ci: bool, i: nat)
    requires IsFirst(names, name, ci, i) && !Matches(other, name, ci)
    ensures Find(names, other, ci) != i
  {
    hide Fold;
  }

  lemma GotAfter(b: Ini, a: Ini, name: string, valueName: string, value: string, name2: string, valueName2: string,
      defValue: string, ci: bool, i: nat, k: nat)
    requires Wellformed(b) && Wellformed(a) && ValueSet(b, a, name, valueName, value, ci, i, k)
    ensures ValueOf(a, name2, valueName2, defValue, ci)
            == if Matches(name2, name, ci) && Matches(valueName2, valueName, ci) then value
               else ValueOf(b, name2, valueName2, defValue, ci)
  {
    hide Fold, Find, Matches;
    FoundName(b.names, a.names, name, name2, ci, i);
    var was := if i < |b.keys| then b.keys[i] else Key([], [], []);
    FoundName(was.names, a.keys[i].names, valueName, valueName2, ci, k);
    FindIs(b.names, name2, ci);
    FindIs(was.names, valueName2, ci);
  }

  lemma HasValueIs(ini: Ini, name: string, valueName: string, ci: bool)
    requires Wellformed(ini)
    ensures var i := Find(ini.names, name, ci);
            HasValue(ini, name, valueName, ci) <==> i != noID && Find(ini.keys[i].names, valueName, ci) != noID
  {
    hide Fold, Find;
    FindIs(ini.names, name, ci);
    FindFirst(ini.names, name, ci);
    var i := Find(ini.names, name, ci);
    if i != noID {
      FindIs(ini.keys[i].names, valueName, ci);
      FindFirst(ini.keys[i].names, valueName, ci);
    }
    forall j: nat, k: nat | IsFirst(ini.names, name, ci, j) && IsFirst(ini.keys[j].names, valueName, ci, k)
      ensures i == j && Find(ini.keys[j].names, valueName, ci) == k
    {
      FindIsFirst(ini.names, name, ci, j);
      FindIsFirst(ini.keys[j].names, valueName, ci, k);
    }
  }

  /** The same letter, up to its case. */
  predicate SameLetter(c: char, d: char) {
    c == d || ('A' <= c <= 'Z' && d as int == c as int + 32) || ('A' <= d <= 'Z' && c as int == d as int + 32)
  }

  /** Names match if they are equal, or, if case does not matter, if they have the same letters. */
  lemma MatchesIff(a: string, b: string, ci: bool)
    ensures Matches(a, b, ci) <==>
              if ci then |a| == |b| && forall i :: 0 <= i < |a| ==> SameLetter(a[i], b[i]) else a == b
  {
    if ci {
      var x, y := Fold(a, ci), Fold(b, ci);
      assert |x| == |a| && |y| == |b|;
      assert forall i :: 0 <= i < |a| ==> x[i] == ToLower(a[i]);
      assert forall i :: 0 <= i < |b| ==> y[i] == ToLower(b[i]);
      if |a| == |b| && forall i :: 0 <= i < |a| ==> SameLetter(a[i], b[i]) {
        assert x == y;
      }
    }
  }

  // ---------- reading ----------

  predicate IsSpecial(c: char) {
    c == ';' || c == '#' || c == '[' || c == '='
  }

  /** `find_first_of(";#[=")`, or the length if there is none. */
  function FirstSpecial(line: string): (i: nat)
    ensures i <= |line| && (i < |line| ==> IsSpecial(line[i])) && forall j :: 0 <= j < i ==> !IsSpecial(line[j])
  {
    if line == "" || IsSpecial(line[0]) then 0 else 1 + FirstSpecial(line[1..])
  }

  /** `find_last_of("]")`, or -1 if there is none. */
  function LastBracket(line: string): (i: int)
    ensures -1 <= i < |line| && (i >= 0 ==> line[i] == ']') && forall j :: i < j < |line| ==> line[j] != ']'
  {
    if line == "" then -1 else if line[|line| - 1] == ']' then |line| - 1 else LastBracket(line[..|line| - 1])
  }

  /** The object being read, and the section that values and comments go to. */
  datatype Reading = Reading(ini: Ini, keyName: string)

  function DropCr(line: string): string {
    if line != "" && line[|line| - 1] == '\r' then line[..|line| - 1] else line
  }

  /** What a line does, without its line end. */
  function ReadLine(r: Reading, line: string, ci: bool): (s: Reading)
    requires Wellformed(r.ini)
  {
    var p := FirstSpecial(line);
    if p == |line| then r
    else if line[p] == '[' then
      var q := LastBracket(line);
      if q > p then Reading(AddedKeyName(r.ini, line[p + 1..q]), line[p + 1..q]) else r
    else if line[p] == '=' then r.(ini := WithValue(r.ini, r.keyName, line[..p], line[p + 1..], ci))
    else if r.ini.names == [] then r.(ini := r.ini.(comments := r.ini.comments + [line[p + 1..]]))
    else r.(ini := WithKeyComment(r.ini, r.keyName, line[p + 1..], ci))
  }

  lemma ReadLineWellformed(r: Reading, line: string, ci: bool)
    requires Wellformed(r.ini)
    ensures Wellformed(ReadLine(r, line, ci).ini)
  {
    hide Find, Trim, FirstSpecial, LastBracket, WithValue, SetInKey;
    var p := FirstSpecial(line);
    SetValueWellformed(r.ini, r.keyName, line[..if p <= |line| then p else 0], line[if p < |line| then p + 1 else 0..], ci);
  }

  function ReadLines(r: Reading, lines: seq<string>, ci: bool): (s: Reading)
    requires Wellformed(r.ini)
    ensures Wellformed(s.ini)
    decreases |lines|
  {
    if lines == [] then r
    else
      ReadLineWellformed(r, DropCr(lines[0]), ci);
      ReadLines(ReadLine(r, DropCr(lines[0]), ci), lines[1..], ci)
  }

  lemma {:induction false} ReadLinesConcat(r: Reading, a: seq<string>, b: seq<string>, ci: bool)
    requires Wellformed(r.ini)
    ensures ReadLines(r, a + b, ci) == ReadLines(ReadLines(r, a, ci), b, ci)
    decreases |a|
  {
    hide ReadLine, DropCr;
    if a == [] {
      assert a + b == b;
    } else {
      ReadLineWellformed(r, DropCr(a[0]), ci);
      assert (a + b)[1..] == a[1..] + b;
      ReadLinesConcat(ReadLine(r, DropCr(a[0]), ci), a[1..], b, ci);
    }
  }

  /** The lines that `getline` delivers. */
  function Lines(text: string): seq<string>
    decreases |text|
  {
    if text == "" then []
    else
      var i := Newline(text);
      [text[..i]] + (if i == |text| then [] else Lines(text[i + 1..]))
  }

  lemma LineEndIs(line: string, rest: string)
    requires '\n' !in line
    ensures Newline(line + "\n" + rest) == |line|
  {
    NewlineIs(line + "\n" + rest, |line|);
  }

  lemma LinesStep(line: string, rest: string)
    requires '\n' !in line
    ensures Lines(line + "\n" + rest) == [line] + Lines(rest)
  {
    LineEndIs(line, rest);
    var text := line + "\n" + rest;
    assert text[..|line|] == line && text[|line| + 1..] == rest;
  }

  // ---------- writing ----------

  /** The lines as they are written. */
  function Join(lines: seq<string>): string {
    if lines == [] then "" else Join(lines[..|lines| - 1]) + lines[|lines| - 1] + "\r\n"
  }

  function CommentLines(comments: seq<string>): seq<string> {
    seq(|comments|, i requires 0 <= i < |comments| => ";" + comments[i])
  }

  function ValueLines(k: Key): seq<string>
    requires |k.names| == |k.values|
  {
    seq(|k.names|, i requires 0 <= i < |k.names| => k.names[i] + "=" + k.values[i])
  }

  function HeaderLines(comments: seq<string>): seq<string> {
    CommentLines(comments) + (if comments == [] then [] else [""])
  }

  function SectionLines(name: string, k: Key): seq<string>
    requires |k.names| == |k.values|
  {
    ["[" + name + "]"] + CommentLines(k.comments) + ValueLines(k) + [""]
  }

  /** The lines of the first `n` sections. */
  function SectionsLines(ini: Ini, n: nat): seq<string>
    requires Wellformed(ini) && n <= |ini.keys|
  {
    if n == 0 then [] else SectionsLines(ini, n - 1) + SectionLines(ini.names[n - 1], ini.keys[n - 1])
  }

  function WrittenLines(ini: Ini): seq<string>
    requires Wellformed(ini)
  {
    HeaderLines(ini.comments) + SectionsLines(ini, |ini.keys|)
  }

  /** The contents of the file. */
  function Written(ini: Ini): string
    requires Wellformed(ini)
  {
    Join(WrittenLines(ini))
  }

  /** A file with a comment, and a section with a comment and a value. */
  lemma WrittenText(header: string, section: string, comment: string, name: string, value: string)
    ensures Written(Ini([section], [Key([name], [value], [comment])], [header]))
            == (";" + header) + "\r\n" + "" + "\r\n" + ("[" + section + "]") + "\r\n"
               + (";" + comment) + "\r\n" + (name + "=" + value) + "\r\n" + "" + "\r\n"
  {
    hide Join, WrittenLines;
    var ini := Ini([section], [Key([name], [value], [comment])], [header]);
    WrittenSix(ini, header, section, comment, name, value);
    JoinSix(";" + header, "", "[" + section + "]", ";" + comment, name + "=" + value, "");
  }

  lemma WrittenSix(ini: Ini, header: string, section: string, comment: string, name: string, value: string)
    requires ini == Ini([section], [Key([name], [value], [comment])], [header])
    ensures WrittenLines(ini) == [";" + header, "", "[" + section + "]", ";" + comment, name + "=" + value, ""]
  {
    assert SectionsLines(ini, 0) == [];
    assert [] + SectionLines(section, ini.keys[0]) == SectionLines(section, ini.keys[0]);
  }

  lemma JoinSix(a: string, b: string, c: string, d: string, e: string, f: string)
    ensures Join([a, b, c, d, e, f])
            == a + "\r\n" + b + "\r\n" + c + "\r\n" + d + "\r\n" + e + "\r\n" + f + "\r\n"
  {
    var l1, l2, l3, l4, l5, l6 := [a], [a, b], [a, b, c], [a, b, c, d], [a, b, c, d, e], [a, b, c, d, e, f];
    assert l1[..0] == [] && l2[..1] == l1 && l3[..2] == l2 && l4[..3] == l3 && l5[..4] == l4 && l6[..5] == l5;
    assert Join(l1) == a + "\r\n";
    assert Join(l3) == Join(l2) + c + "\r\n";
    assert Join(l5) == Join(l4) + e + "\r\n";
  }

  lemma {:induction false} JoinConcat(a: seq<string>, b: seq<string>)
    ensures Join(a + b) == Join(a) + Join(b)
    decreases |b|
  {
    if b == [] {
      assert a + b == a;
    } else {
      var n := |b| - 1;
      assert (a + b)[..|a + b| - 1] == a + b[..n];
      JoinConcat(a, b[..n]);
      assert Join(a) + Join(b[..n]) + b[n] + "\r\n" == Join(a) + (Join(b[..n]) + b[n] + "\r\n");
    }
  }

  lemma JoinOne(line: string)
    ensures Join([line]) == line + "\r\n"
  {
    assert [line][..0] == [];
    assert "" + line + "\r\n" == line + "\r\n";
  }

  function WithCr(lines: seq<string>): seq<string> {
    seq(|lines|, i requires 0 <= i < |lines| => lines[i] + "\r")
  }

  lemma WithCrFirst(line: string, rest: seq<string>)
    ensures WithCr([line] + rest) == [line + "\r"] + WithCr(rest)
  {
  }

  lemma JoinFirst(line: string, rest: seq<string>)
    ensures Join([line] + rest) == (line + "\r") + "\n" + Join(rest)
  {
    hide Join;
    JoinConcat([line], rest);
    JoinOne(line);
    assert line + "\r\n" == (line + "\r") + "\n";
  }

  /** Reading back the lines that were written. */
  lemma {:induction false} LinesOfJoin(lines: seq<string>)
    requires forall i :: 0 <= i < |lines| ==> '\n' !in lines[i]
    ensures Lines(Join(lines)) == WithCr(lines)
  {
    if lines != [] {
      hide Join, Lines, WithCr;
      var rest := lines[1..];
      assert lines == [lines[0]] + rest;
      JoinFirst(lines[0], rest);
      LinesStep(lines[0] + "\r", Join(rest));
      LinesOfJoin(rest);
      WithCrFirst(lines[0], rest);
    }
  }

  // ---------- the round trip ----------

  predicate NoNewline(s: string) {
    '\n' !in s
  }

  predicate Distinct(names: seq<string>, ci: bool) {
    forall i, j :: 0 <= i < j < |names| ==> Fold(names[i], ci) != Fold(names[j], ci)
  }

  predicate GoodName(s: string) {
    Trimmed(s) && NoNewline(s)
  }

  predicate Plain(s: string) {
    forall c :: c in s ==> !IsSpecial(c)
  }

  predicate GoodKey(k: Key, ci: bool) {
    |k.names| == |k.values| && Distinct(k.names, ci)
    && (forall i :: 0 <= i < |k.names| ==> GoodName(k.names[i]) && Plain(k.names[i]) && GoodName(k.values[i]))
    && (forall i :: 0 <= i < |k.comments| ==> NoNewline(k.comments[i]))
  }

  /** No section before `k` has its name. */
  predicate FirstOfName(names: seq<string>, k: nat, ci: bool)
    requires k < |names|
  {
    forall j :: 0 <= j < k ==> Fold(names[j], ci) != Fold(names[k], ci)
  }

  /** A section that has the name of an earlier one is empty. */
  predicate Unrepeated(ini: Ini, ci: bool) {
    |ini.names| == |ini.keys|
    && forall k :: 0 <= k < |ini.names| && ini.keys[k] != Key([], [], []) ==> FirstOfName(ini.names, k, ci)
  }

  predicate Clean(ini: Ini, ci: bool) {
    Wellformed(ini)
    && (forall i :: 0 <= i < |ini.names| ==> GoodName(ini.names[i]) && GoodKey(ini.keys[i], ci))
    && (forall i :: 0 <= i < |ini.comments| ==> NoNewline(ini.comments[i]))
  }

  /** What the text keeps. */
  predicate Good(ini: Ini, ci: bool) {
    Unrepeated(ini, ci) && Clean(ini, ci)
  }

  lemma DropCrOf(line: string)
    ensures DropCr(line + "\r") == line
  {
  }

  lemma {:induction false} FirstSpecialAt(s: string, c: char, t: string)
    requires Plain(s) && IsSpecial(c)
    ensures FirstSpecial(s + [c] + t) == |s|
  {
    if s != "" {
      assert (s + [c] + t)[1..] == s[1..] + [c] + t;
      FirstSpecialAt(s[1..], c, t);
    }
  }

  lemma SectionLine(r: Reading, name: string, ci: bool)
    requires Wellformed(r.ini) && Trimmed(name)
    ensures ReadLine(r, "[" + name + "]", ci)
            == Reading(r.ini.(names := r.ini.names + [name], keys := r.ini.keys + [Key([], [], [])]), name)
  {
    var line := "[" + name + "]";
    assert FirstSpecial(line) == 0;
    assert LastBracket(line) == |line| - 1;
    assert line[1..|line| - 1] == name;
    TrimIff(name);
    hide FirstSpecial, LastBracket, Trim;
  }

  lemma HeaderLine(r: Reading, c: string, ci: bool)
    requires Wellformed(r.ini) && r.ini.names == []
    ensures ReadLine(r, ";" + c, ci) == r.(ini := r.ini.(comments := r.ini.comments + [c]))
  {
    assert (";" + c)[1..] == c;
  }

  lemma BlankLine(r: Reading, ci: bool)
    requires Wellformed(r.ini)
    ensures ReadLine(r, "", ci) == r
  {
  }

  /** The reading of one more line. */
  lemma OneLine(r: Reading, lines: seq<string>, line: string, ci: bool)
    requires Wellformed(r.ini)
    ensures ReadLines(r, WithCr(lines + [line]), ci) == ReadLine(ReadLines(r, WithCr(lines), ci), line, ci)
  {
    hide ReadLine, DropCr;
    assert WithCr(lines + [line]) == WithCr(lines) + [line + "\r"];
    ReadLinesConcat(r, WithCr(lines), [line + "\r"], ci);
    DropCrOf(line);
    var m := ReadLines(r, WithCr(lines), ci);
    ReadLineWellformed(m, line, ci);
    assert ReadLines(m, [line + "\r"], ci) == ReadLines(ReadLine(m, line, ci), [], ci);
  }

  lemma NoLines(r: Reading, ci: bool)
    requires Wellformed(r.ini)
    ensures ReadLines(r, WithCr([]), ci) == r
  {
  }

  /** The state while section `k` is being read. */
  function Building(ini: Ini, k: nat, key: Key): Reading
    requires k < |ini.names| == |ini.keys|
  {
    Reading(Ini(ini.names[..k + 1], ini.keys[..k] + [key], ini.comments), ini.names[k])
  }

  lemma BuildingWellformed(ini: Ini, k: nat, key: Key)
    requires Wellformed(ini) && k < |ini.names| && |key.names| == |key.values|
    ensures Wellformed(Building(ini, k, key).ini)
  {
  }

  lemma FindLast(names: seq<string>, k: nat, ci: bool)
    requires k < |names| && FirstOfName(names, k, ci)
    ensures Find(names[..k + 1], names[k], ci) == k
  {
    assert names[..k + 1][k] == names[k];
    hide Fold;
  }

  lemma FindNone(names: seq<string>, k: nat, ci: bool)
    requires Distinct(names, ci) && k < |names|
    ensures Find(names[..k], names[k], ci) == noID
  {
    hide Fold;
  }

  lemma CommentLine(ini: Ini, k: nat, key: Key, c: string, ci: bool)
    requires Good(ini, ci) && k < |ini.names| && |key.names| == |key.values| && FirstOfName(ini.names, k, ci)
    ensures Wellformed(Building(ini, k, key).ini)
    ensures ReadLine(Building(ini, k, key), ";" + c, ci) == Building(ini, k, key.(comments := key.comments + [c]))
  {
    hide Find, GoodKey, GoodName, Distinct, Unrepeated, FirstOfName;
    BuildingWellformed(ini, k, key);
    FindLast(ini.names, k, ci);
    assert (";" + c)[1..] == c;
    assert FirstSpecial(";" + c) == 0;
    var keys := ini.keys[..k] + [key];
    var after := key.(comments := key.comments + [c]);
    assert keys[k := after] == ini.keys[..k] + [after];
  }

  lemma ValueLine(ini: Ini, k: nat, key: Key, n: string, v: string, ci: bool)
    requires Good(ini, ci) && k < |ini.names| && |key.names| == |key.values| && FirstOfName(ini.names, k, ci)
    requires Trimmed(n) && Plain(n) && Trimmed(v) && Find(key.names, n, ci) == noID
    ensures Wellformed(Building(ini, k, key).ini)
    ensures ReadLine(Building(ini, k, key), n + "=" + v, ci)
            == Building(ini, k, key.(names := key.names + [n], values := key.values + [v]))
  {
    hide Find, GoodKey, Distinct, Trim, FirstSpecial, Unrepeated, FirstOfName;
    BuildingWellformed(ini, k, key);
    FindLast(ini.names, k, ci);
    FirstSpecialAt(n, '=', v);
    TrimIff(n);
    TrimIff(v);
    TrimIff(ini.names[k]);
    var line := n + "=" + v;
    assert line == n + ['='] + v && line[..|n|] == n && line[|n| + 1..] == v;
    var keys := ini.keys[..k] + [key];
    var after := key.(names := key.names + [n], values := key.values + [v]);
    assert keys[k := after] == ini.keys[..k] + [after];
  }

  lemma {:induction false} CommentsRead(ini: Ini, k: nat, key: Key, j: nat, ci: bool)
    requires Good(ini, ci) && k < |ini.names| && j <= |ini.keys[k].comments| && key == Key([], [], [])
    ensures Wellformed(Building(ini, k, key).ini)
    ensures ReadLines(Building(ini, k, key), WithCr(CommentLines(ini.keys[k].comments[..j])), ci)
            == Building(ini, k, Key([], [], ini.keys[k].comments[..j]))
  {
    hide Good, ReadLine, Building, Find, FirstOfName;
    BuildingWellformedGood(ini, k, ci);
    var cs := ini.keys[k].comments;
    if j == 0 {
      assert CommentLines(cs[..0]) == [];
      NoLines(Building(ini, k, key), ci);
    } else {
      CommentsRead(ini, k, key, j - 1, ci);
      assert cs[..j] == cs[..j - 1] + [cs[j - 1]];
      assert CommentLines(cs[..j]) == CommentLines(cs[..j - 1]) + [";" + cs[j - 1]];
      OneLine(Building(ini, k, key), CommentLines(cs[..j - 1]), ";" + cs[j - 1], ci);
      CommentLine(ini, k, Key([], [], cs[..j - 1]), cs[j - 1], ci);
    }
  }

  lemma BuildingWellformedGood(ini: Ini, k: nat, ci: bool)
    requires Good(ini, ci) && k < |ini.names|
    ensures Wellformed(ini) && Wellformed(Building(ini, k, Key([], [], [])).ini)
    ensures GoodKey(ini.keys[k], ci) && Trimmed(ini.names[k])
    ensures ini.keys[k] != Key([], [], []) ==> FirstOfName(ini.names, k, ci)
  {
  }

  function KeyPart(key: Key, j: nat): Key
    requires j <= |key.names| == |key.values|
  {
    Key(key.names[..j], key.values[..j], key.comments)
  }

  lemma KeyPartStep(key: Key, j: nat)
    requires j < |key.names| == |key.values|
    ensures var p, q := KeyPart(key, j), KeyPart(key, j + 1);
            p.names == key.names[..j] && |p.names| == |p.values| && |q.names| == |q.values|
            && q == p.(names := p.names + [key.names[j]], values := p.values + [key.values[j]])
            && ValueLines(q) == ValueLines(p) + [key.names[j] + "=" + key.values[j]]
  {
    assert key.names[..j + 1] == key.names[..j] + [key.names[j]];
    assert key.values[..j + 1] == key.values[..j] + [key.values[j]];
  }

  lemma {:induction false} ValuesRead(ini: Ini, k: nat, j: nat, ci: bool)
    requires Good(ini, ci) && k < |ini.names| && |ini.keys[k].names| == |ini.keys[k].values| && j <= |ini.keys[k].names|
    ensures Wellformed(Building(ini, k, KeyPart(ini.keys[k], 0)).ini)
    ensures ReadLines(Building(ini, k, KeyPart(ini.keys[k], 0)), WithCr(ValueLines(KeyPart(ini.keys[k], j))), ci)
            == Building(ini, k, KeyPart(ini.keys[k], j))
  {
    hide Good, ReadLine, Building, Find, Distinct, Plain, Trimmed, FirstOfName;
    BuildingWellformedGood(ini, k, ci);
    var key := ini.keys[k];
    BuildingWellformed(ini, k, KeyPart(key, 0));
    var r := Building(ini, k, KeyPart(key, 0));
    if j == 0 {
      assert ValueLines(KeyPart(key, 0)) == [];
      NoLines(r, ci);
    } else {
      ValuesRead(ini, k, j - 1, ci);
      KeyPartStep(key, j - 1);
      hide ValueLines, KeyPart;
      OneLine(r, ValueLines(KeyPart(key, j - 1)), key.names[j - 1] + "=" + key.values[j - 1], ci);
      FindNone(key.names, j - 1, ci);
      ValueLine(ini, k, KeyPart(key, j - 1), key.names[j - 1], key.values[j - 1], ci);
    }
  }

  function Prefix(ini: Ini, k: nat): Ini
    requires k <= |ini.names| == |ini.keys|
  {
    Ini(ini.names[..k], ini.keys[..k], ini.comments)
  }

  /** Reading a section after the sections before it. */
  lemma SectionRead(ini: Ini, k: nat, keyName: string, ci: bool)
    requires Good(ini, ci) && k < |ini.names|
    ensures Wellformed(Prefix(ini, k)) && |ini.keys[k].names| == |ini.keys[k].values|
    ensures ReadLines(Reading(Prefix(ini, k), keyName), WithCr(SectionLines(ini.names[k], ini.keys[k])), ci)
            == Reading(Prefix(ini, k + 1), ini.names[k])
  {
    hide Good, ReadLine, Find, ReadLines;
    BuildingWellformedGood(ini, k, ci);
    PrefixWellformed(ini, k);
    var name, key, r := ini.names[k], ini.keys[k], Reading(Prefix(ini, k), keyName);
    var a, b, c := ["[" + name + "]"], CommentLines(key.comments), ValueLines(key);
    SectionLine(r, name, ci);
    NoLines(r, ci);
    OneLine(r, [], "[" + name + "]", ci);
    assert [] + a == a;
    assert ini.names[..k] + [name] == ini.names[..k + 1];
    var r1 := Building(ini, k, Key([], [], []));
    assert ReadLines(r, WithCr(a), ci) == r1;
    CommentsRead(ini, k, Key([], [], []), |key.comments|, ci);
    assert key.comments[..|key.comments|] == key.comments;
    var r2 := Building(ini, k, KeyPart(key, 0));
    assert ReadLines(r1, WithCr(b), ci) == r2;
    ValuesRead(ini, k, |key.names|, ci);
    assert KeyPart(key, |key.names|) == key;
    var r3 := Building(ini, k, key);
    assert ReadLines(r2, WithCr(c), ci) == r3;
    BlankLine(r3, ci);
    FourParts(r, a, b, c, r1, r2, r3, ci);
    assert ini.keys[..k] + [key] == ini.keys[..k + 1];
  }

  lemma PrefixWellformed(ini: Ini, k: nat)
    requires Wellformed(ini) && k <= |ini.names|
    ensures Wellformed(Prefix(ini, k))
  {
  }

  /** A section: its name, its comments, its values and a blank line. */
  lemma WithCrConcat(a: seq<string>, b: seq<string>)
    ensures WithCr(a + b) == WithCr(a) + WithCr(b)
  {
  }

  lemma FourParts(r: Reading, a: seq<string>, b: seq<string>, c: seq<string>, r1: Reading, r2: Reading, r3: Reading,
      ci: bool)
    requires Wellformed(r.ini) && Wellformed(r1.ini) && Wellformed(r2.ini) && Wellformed(r3.ini)
    requires ReadLines(r, WithCr(a), ci) == r1 && ReadLines(r1, WithCr(b), ci) == r2
             && ReadLines(r2, WithCr(c), ci) == r3
    ensures ReadLines(r, WithCr(a + b + c + [""]), ci) == r3
  {
    hide ReadLines, ReadLine, WithCr;
    WithCrConcat(a, b);
    WithCrConcat(a + b, c);
    ReadLinesConcat(r, WithCr(a), WithCr(b), ci);
    ReadLinesConcat(r, WithCr(a + b), WithCr(c), ci);
    OneLine(r, a + b + c, "", ci);
    BlankLine(r3, ci);
  }

  lemma {:induction false} SectionsRead(ini: Ini, n: nat, ci: bool)
    requires Good(ini, ci) && n <= |ini.names|
    ensures Wellformed(ini) && Wellformed(Prefix(ini, 0))
    ensures ReadLines(Reading(Prefix(ini, 0), ""), WithCr(SectionsLines(ini, n)), ci)
            == Reading(Prefix(ini, n), if n == 0 then "" else ini.names[n - 1])
  {
    hide Good, ReadLines, SectionLines;
    GoodIsWellformed(ini, ci);
    PrefixWellformed(ini, 0);
    var r := Reading(Prefix(ini, 0), "");
    if n == 0 {
      NoLines(r, ci);
    } else {
      SectionsRead(ini, n - 1, ci);
      var a, b := SectionsLines(ini, n - 1), SectionLines(ini.names[n - 1], ini.keys[n - 1]);
      assert WithCr(a + b) == WithCr(a) + WithCr(b);
      ReadLinesConcat(r, WithCr(a), WithCr(b), ci);
      SectionRead(ini, n - 1, if n == 1 then "" else ini.names[n - 2], ci);
    }
  }

  lemma GoodIsWellformed(ini: Ini, ci: bool)
    requires Good(ini, ci)
    ensures Wellformed(ini)
  {
  }

  lemma {:induction false} HeaderCommentsRead(comments: seq<string>, j: nat, ci: bool)
    requires j <= |comments|
    ensures ReadLines(Reading(EMPTY, ""), WithCr(CommentLines(comments[..j])), ci) == Reading(Ini([], [], comments[..j]), "")
  {
    hide ReadLine, ReadLines;
    if j == 0 {
      assert CommentLines(comments[..0]) == [];
      NoLines(Reading(EMPTY, ""), ci);
    } else {
      HeaderCommentsRead(comments, j - 1, ci);
      assert comments[..j] == comments[..j - 1] + [comments[j - 1]];
      assert CommentLines(comments[..j]) == CommentLines(comments[..j - 1]) + [";" + comments[j - 1]];
      OneLine(Reading(EMPTY, ""), CommentLines(comments[..j - 1]), ";" + comments[j - 1], ci);
      HeaderLine(Reading(Ini([], [], comments[..j - 1]), ""), comments[j - 1], ci);
    }
  }

  lemma HeaderRead(comments: seq<string>, ci: bool)
    ensures ReadLines(Reading(EMPTY, ""), WithCr(HeaderLines(comments)), ci) == Reading(Ini([], [], comments), "")
  {
    hide ReadLine, ReadLines;
    var a := CommentLines(comments);
    HeaderCommentsRead(comments, |comments|, ci);
    assert comments[..|comments|] == comments;
    if comments == [] {
      assert a + [] == a;
    } else {
      OneLine(Reading(EMPTY, ""), a, "", ci);
      BlankLine(Reading(Ini([], [], comments), ""), ci);
    }
  }

  predicate AllNoNewline(lines: seq<string>) {
    forall i :: 0 <= i < |lines| ==> NoNewline(lines[i])
  }

  lemma SectionNoNewline(name: string, k: Key, ci: bool)
    requires GoodName(name) && GoodKey(k, ci)
    ensures AllNoNewline(SectionLines(name, k))
  {
    hide Distinct, Trimmed, Plain, Fold;
  }

  lemma {:induction false} SectionsNoNewline(ini: Ini, n: nat, ci: bool)
    requires Good(ini, ci) && n <= |ini.keys|
    ensures AllNoNewline(SectionsLines(ini, n))
  {
    hide GoodKey, GoodName, SectionLines, Distinct;
    if n > 0 {
      SectionsNoNewline(ini, n - 1, ci);
      SectionNoNewline(ini.names[n - 1], ini.keys[n - 1], ci);
    }
  }

  lemma WrittenNoNewline(ini: Ini, ci: bool)
    requires Good(ini, ci)
    ensures AllNoNewline(WrittenLines(ini))
  {
    hide SectionsLines;
    SectionsNoNewline(ini, |ini.keys|, ci);
    hide GoodKey, Distinct, GoodName;
    assert AllNoNewline(HeaderLines(ini.comments));
  }

  /** What reading makes of a text. */
  function ReadText(text: string, ci: bool): Ini {
    ReadLines(Reading(EMPTY, ""), Lines(text), ci).ini
  }

  /** Reading what was written into an empty object restores sections, values and comments, all in order. */
  lemma RoundTrip(ini: Ini, ci: bool)
    requires Good(ini, ci)
    ensures ReadText(Written(ini), ci) == ini
  {
    hide Lines, Join, ReadLines, Good, SectionsLines, HeaderLines;
    GoodIsWellformed(ini, ci);
    WrittenNoNewline(ini, ci);
    LinesOfJoin(WrittenLines(ini));
    var a, b := HeaderLines(ini.comments), SectionsLines(ini, |ini.keys|);
    assert WithCr(a + b) == WithCr(a) + WithCr(b);
    ReadLinesConcat(Reading(EMPTY, ""), WithCr(a), WithCr(b), ci);
    HeaderRead(ini.comments, ci);
    assert Prefix(ini, 0) == Ini([], [], ini.comments);
    SectionsRead(ini, |ini.keys|, ci);
    assert Prefix(ini, |ini.keys|) == ini;
  }

  // ---------- what is needed for the round trip ----------

  lemma SetInKeyClean(k: Key, name: string, value: string, ci: bool)
    requires GoodKey(k, ci) && GoodName(name) && Plain(name) && GoodName(value)
    ensures GoodKey(SetInKey(k, name, value, ci), ci)
  {
    hide Fold, Trimmed, Plain, NoNewline, Find;
    FindIs(k.names, name, ci);
  }

  lemma SetValueClean(ini: Ini, name: string, valueName: string, value: string, ci: bool)
    requires Clean(ini, ci) && NoNewline(name) && NoNewline(valueName) && Plain(valueName) && NoNewline(value)
    ensures Clean(WithValue(ini, name, valueName, value, ci), ci)
  {
    hide Find, Trim, SetInKey, GoodKey, Trimmed;
    TrimIs(name);
    TrimIs(Trim(name));
    TrimIs(valueName);
    TrimIs(value);
    EmptyKey(ci);
    SetValueWellformed(ini, name, valueName, value, ci);
    FindIs(ini.names, Trim(name), ci);
    var id := Find(ini.names, Trim(name), ci);
    var k := if id == noID then Key([], [], []) else ini.keys[id];
    SetInKeyClean(k, Trim(valueName), Trim(value), ci);
  }

  lemma EmptyKey(ci: bool)
    ensures GoodKey(Key([], [], []), ci)
  {
  }

  lemma KeyCommentClean(ini: Ini, name: string, comment: string, ci: bool)
    requires Clean(ini, ci) && NoNewline(comment)
    ensures Clean(WithKeyComment(ini, name, comment, ci), ci)
  {
    hide Find, Fold, Distinct, Trimmed, Plain;
    FindIs(ini.names, name, ci);
  }

  lemma ReadLineClean(r: Reading, line: string, ci: bool)
    requires Clean(r.ini, ci) && NoNewline(line) && NoNewline(r.keyName)
    ensures Clean(ReadLine(r, line, ci).ini, ci) && NoNewline(ReadLine(r, line, ci).keyName)
  {
    hide Trim, Trimmed, GoodKey, LastBracket, WithValue, WithKeyComment, Distinct;
    var p := FirstSpecial(line);
    hide FirstSpecial;
    ReadLineWellformed(r, line, ci);
    if p < |line| {
      if line[p] == '[' {
        EmptyKey(ci);
        var q := LastBracket(line);
        if q > p {
          TrimIs(line[p + 1..q]);
        }
      } else if line[p] == '=' {
        SetValueClean(r.ini, r.keyName, line[..p], line[p + 1..], ci);
      } else {
        KeyCommentClean(r.ini, r.keyName, line[p + 1..], ci);
      }
    }
  }

  lemma EmptyText()
    ensures Lines("") == []
  {
  }

  lemma NextLine(text: string)
    requires text != ""
    ensures Newline(text) <= |text| && '\n' !in text[..Newline(text)]
    ensures var n := Newline(text); Lines(text) == [text[..n]] + Lines(if n == |text| then "" else text[n + 1..])
  {
    hide Newline;
    EmptyText();
  }

  lemma {:induction false} LinesHaveNoNewline(text: string)
    ensures AllNoNewline(Lines(text))
    decreases |text|
  {
    hide Newline, Lines;
    if text == "" {
      EmptyText();
    } else {
      NextLine(text);
      var n := Newline(text);
      LinesHaveNoNewline(if n == |text| then "" else text[n + 1..]);
    }
  }

  lemma {:induction false} ReadLinesClean(r: Reading, lines: seq<string>, ci: bool)
    requires Clean(r.ini, ci) && NoNewline(r.keyName) && AllNoNewline(lines)
    ensures Clean(ReadLines(r, lines, ci).ini, ci)
    decreases |lines|
  {
    hide Clean, ReadLine;
    CleanIsWellformed(r.ini, ci);
    if lines != [] {
      assert NoNewline(lines[0]);
      ReadLineClean(r, DropCr(lines[0]), ci);
      assert AllNoNewline(lines[1..]);
      ReadLinesClean(ReadLine(r, DropCr(lines[0]), ci), lines[1..], ci);
    }
  }

  lemma CleanIsWellformed(ini: Ini, ci: bool)
    requires Clean(ini, ci)
    ensures Wellformed(ini)
  {
  }

  /** Whatever the text, what is read is trimmed and free of line ends, and no section has two values of one name. */
  lemma ReadTextClean(text: string, ci: bool)
    ensures Clean(ReadText(text, ci), ci)
  {
    LinesHaveNoNewline(text);
    assert Clean(EMPTY, ci);
    ReadLinesClean(Reading(EMPTY, ""), Lines(text), ci);
  }

  /** Only the first section of a name is ever given values and comments. */
  lemma SetKeyUnrepeated(ini: Ini, name: string, key: Key, ci: bool)
    requires Unrepeated(ini, ci)
    ensures var id := Find(ini.names, name, ci);
            id != noID ==> Unrepeated(ini.(keys := ini.keys[id := key]), ci)
  {
    var id := Find(ini.names, name, ci);
    if id != noID {
      assert FirstOfName(ini.names, id, ci);
    }
    hide Find, Fold;
  }

  lemma AddKeyUnrepeated(ini: Ini, name: string, key: Key, ci: bool)
    requires Unrepeated(ini, ci)
    requires key == Key([], [], []) || Find(ini.names, name, ci) == noID
    ensures Unrepeated(ini.(names := ini.names + [name], keys := ini.keys + [key]), ci)
  {
    var names := ini.names + [name];
    forall k | 0 <= k < |names| && (ini.keys + [key])[k] != Key([], [], [])
      ensures FirstOfName(names, k, ci)
    {
      if k < |ini.names| {
        assert FirstOfName(ini.names, k, ci);
      }
    }
  }

  lemma ReadLineUnrepeated(r: Reading, line: string, ci: bool)
    requires Wellformed(r.ini) && Unrepeated(r.ini, ci)
    ensures Unrepeated(ReadLine(r, line, ci).ini, ci)
  {
    hide Find, Trim, FirstSpecial, LastBracket, SetInKey, Unrepeated, Fold;
    var ini, p := r.ini, FirstSpecial(line);
    FirstSpecialBound(line);
    if p < |line| {
      if line[p] == '[' {
        if LastBracket(line) > p {
          AddKeyUnrepeated(ini, Trim(line[p + 1..LastBracket(line)]), Key([], [], []), ci);
        }
      } else if line[p] == '=' {
        ValueUnrepeated(ini, r.keyName, line[..p], line[p + 1..], ci);
      } else if ini.names != [] {
        FindIs(ini.names, r.keyName, ci);
        var id := Find(ini.names, r.keyName, ci);
        var key := if id == noID then Key([], [], []) else ini.keys[id];
        SetKeyUnrepeated(ini, r.keyName, key.(comments := key.comments + [line[p + 1..]]), ci);
      } else {
        OtherCommentUnrepeated(ini, ini.comments + [line[p + 1..]], ci);
      }
    }
  }

  lemma OtherCommentUnrepeated(ini: Ini, comments: seq<string>, ci: bool)
    requires Unrepeated(ini, ci)
    ensures Unrepeated(ini.(comments := comments), ci)
  {
  }

  lemma ValueUnrepeated(ini: Ini, name: string, valueName: string, value: string, ci: bool)
    requires Wellformed(ini) && Unrepeated(ini, ci)
    ensures Unrepeated(WithValue(ini, name, valueName, value, ci), ci)
  {
    hide Find, Trim, SetInKey, Unrepeated;
    var id, n := Find(ini.names, Trim(name), ci), Trim(name);
    TrimIs(name);
    TrimIff(n);
    FindIs(ini.names, n, ci);
    if id == noID {
      var key := SetInKey(Key([], [], []), Trim(valueName), Trim(value), ci);
      AddKeyUnrepeated(ini, n, key, ci);
      assert (ini.keys + [Key([], [], [])])[|ini.keys| := key] == ini.keys + [key];
    } else {
      SetKeyUnrepeated(ini, n, SetInKey(ini.keys[id], Trim(valueName), Trim(value), ci), ci);
    }
  }

  lemma {:induction false} ReadLinesUnrepeated(r: Reading, lines: seq<string>, ci: bool)
    requires Wellformed(r.ini) && Unrepeated(r.ini, ci)
    ensures Unrepeated(ReadLines(r, lines, ci).ini, ci)
    decreases |lines|
  {
    hide ReadLine, Unrepeated, Wellformed, DropCr;
    if lines != [] {
      ReadLineUnrepeated(r, DropCr(lines[0]), ci);
      ReadLineWellformed(r, DropCr(lines[0]), ci);
      ReadLinesUnrepeated(ReadLine(r, DropCr(lines[0]), ci), lines[1..], ci);
    }
  }

  /** The round trip restores an object exactly if names and values are trimmed, nothing holds a line end, the value names
      of a section are distinct and free of the characters that start other lines, and a section whose name an earlier
      one has is empty. */
  lemma RoundTripIff(ini: Ini, ci: bool)
    requires Wellformed(ini)
    ensures ReadText(Written(ini), ci) == ini <==> Good(ini, ci)
  {
    hide Written, Clean, ReadLines, Unrepeated;
    ReadTextClean(Written(ini), ci);
    NothingRepeated(ci);
    ReadLinesUnrepeated(Reading(EMPTY, ""), Lines(Written(ini)), ci);
    if Good(ini, ci) {
      RoundTrip(ini, ci);
    }
  }

  lemma NothingRepeated(ci: bool)
    ensures Unrepeated(EMPTY, ci)
  {
  }

  // ---------- what a line means ----------

  /** No character that decides what a line is. */
  predicate NoMark(s: string) {
    forall i :: 0 <= i < |s| ==> s[i] != ';' && s[i] != '#' && s[i] != '[' && s[i] != '='
  }

  /** A comment was added: to the file in front of the first section, and later to the first section of that name. */
  predicate CommentSet(b: Ini, a: Ini, name: string, comment: string, ci: bool) {
    if b.names == [] then a == b.(comments := b.comments + [comment])
    else
      a.names == b.names && a.comments == b.comments && |a.keys| == |b.keys|
      && forall i :: 0 <= i < |b.keys| ==>
           a.keys[i] == if IsFirst(b.names, name, ci, i) then b.keys[i].(comments := b.keys[i].comments + [comment])
                        else b.keys[i]
  }

  /** A section was added: what is in front of the last bracket is its name. */
  predicate SectionSet(b: Ini, s: Reading, line: string, q: nat) {
    q < |line| && line[q] == ']' && (forall j :: q < j < |line| ==> line[j] != ']') && s.keyName == line[..q]
    && s.ini == b.(names := b.names + [Trim(line[..q])], keys := b.keys + [Key([], [], [])])
  }

  lemma {:induction false} MarkFirst(a: string, c: char, b: string)
    requires NoMark(a) && IsSpecial(c)
    ensures FirstSpecial(a + ([c] + b)) == |a|
  {
    if a == "" {
      assert a + ([c] + b) == [c] + b;
    } else {
      assert (a + ([c] + b))[1..] == a[1..] + ([c] + b);
      MarkFirst(a[1..], c, b);
    }
  }

  /** What each kind of line does. */
  lemma LineMeans(r: Reading, a: string, c: char, b: string, ci: bool)
    requires Wellformed(r.ini) && NoMark(a)
    ensures var s := ReadLine(r, a + ([c] + b), ci);
            (c == '=' ==> s.keyName == r.keyName
                          && exists i, k :: ValueSet(r.ini, s.ini, Trim(r.keyName), Trim(a), Trim(b), ci, i, k))
            && (c == ';' || c == '#' ==> s.keyName == r.keyName && CommentSet(r.ini, s.ini, r.keyName, b, ci))
            && (c == '[' ==> if ']' in b then exists q :: SectionSet(r.ini, s, b, q) else s == r)
  {
    hide Fold, Find, Trim, FirstSpecial, LastBracket, WithValue, ValueSet, IsFirst;
    var line := a + ([c] + b);
    if IsSpecial(c) {
      MarkFirst(a, c, b);
      assert line[|a|] == c && line[..|a|] == a && line[|a| + 1..] == b;
      if c == '=' {
        WithValueIs(r.ini, r.keyName, a, b, ci);
      } else if c == '[' {
        BracketIs(a, c, b);
        if ']' in b {
          assert SectionSet(r.ini, ReadLine(r, line, ci), b, LastBracket(line) - |a| - 1);
        }
      } else if r.ini.names != [] {
        CommentIs(r.ini, r.keyName, b, ci);
      }
    }
  }

  lemma BracketIs(a: string, c: char, b: string)
    requires c != ']'
    ensures var q := LastBracket(a + ([c] + b)); var line := a + ([c] + b);
            if ']' in b then
              |a| < q < |line| && b[q - |a| - 1] == ']' && line[|a| + 1..q] == b[..q - |a| - 1]
              && forall j :: q - |a| - 1 < j < |b| ==> b[j] != ']'
            else q <= |a|
  {
    var line := a + ([c] + b);
    var q := LastBracket(line);
    assert forall j :: 0 <= j < |b| ==> line[|a| + 1 + j] == b[j];
    assert line[|a|] == c;
  }

  lemma CommentIs(ini: Ini, name: string, comment: string, ci: bool)
    requires Wellformed(ini) && ini.names != []
    ensures CommentSet(ini, WithKeyComment(ini, name, comment, ci), name, comment, ci)
  {
    hide Fold, Find;
    FindFirst(ini.names, name, ci);
    FindIs(ini.names, name, ci);
    forall i | 0 <= i < |ini.keys|
      ensures IsFirst(ini.names, name, ci, i) <==> Find(ini.names, name, ci) == i
    {
      if IsFirst(ini.names, name, ci, i) {
        FindIsFirst(ini.names, name, ci, i);
      }
    }
  }

  /** A line without any of these characters does nothing. */
  lemma NoMarkMeansNothing(r: Reading, line: string, ci: bool)
    requires Wellformed(r.ini)
    ensures NoMark(line) ==> ReadLine(r, line, ci) == r
  {
    hide Find, Trim, WithValue;
  }

  // ---------- the last value wins ----------

  /** A line that sets a value of a name that matches. */
  predicate SetsName(line: string, name: string, ci: bool) {
    exists p :: 0 <= p < |line| && line[p] == '=' && NoMark(line[..p]) && Matches(Trim(line[..p]), name, ci)
  }

  /** The line does not set a value of that name in that section. */
  predicate Passes(r: Reading, line: string, name: string, valueName: string, ci: bool) {
    !(Matches(Trim(r.keyName), name, ci) && SetsName(line, valueName, ci))
  }

  predicate AllPass(r: Reading, lines: seq<string>, name: string, valueName: string, ci: bool)
    requires Wellformed(r.ini)
    decreases |lines|
  {
    lines == []
    || (Passes(r, DropCr(lines[0]), name, valueName, ci)
        && (ReadLineWellformed(r, DropCr(lines[0]), ci);
            AllPass(ReadLine(r, DropCr(lines[0]), ci), lines[1..], name, valueName, ci)))
  }

  lemma OtherLine(r: Reading, line: string, name: string, valueName: string, defValue: string, ci: bool)
    requires Wellformed(r.ini) && Passes(r, line, name, valueName, ci)
    ensures Wellformed(ReadLine(r, line, ci).ini)
            && ValueOf(ReadLine(r, line, ci).ini, name, valueName, defValue, ci) == ValueOf(r.ini, name, valueName, defValue, ci)
  {
    hide Fold, Find, Trim, FirstSpecial, LastBracket, WithValue, ValueOf, Matches, Wellformed, AddedKeyName, WithKeyComment;
    ReadLineWellformed(r, line, ci);
    FirstSpecialBound(line);
    var p := FirstSpecial(line);
    if p < |line| {
      if line[p] == '=' {
        MarksBefore(line);
        SetThenGet(r.ini, r.keyName, line[..p], line[p + 1..], name, valueName, defValue, ci);
        SameMatching(valueName, Trim(line[..p]), ci);
        SameMatching(name, Trim(r.keyName), ci);
      } else if line[p] == '[' {
        var q := LastBracket(line);
        if q > p {
          NewSection(r.ini, line[p + 1..q], name, valueName, defValue, ci);
        }
      } else {
        CommentsAside(r.ini, r.keyName, line[p + 1..], name, valueName, defValue, ci);
      }
    }
  }

  lemma SameMatching(a: string, b: string, ci: bool)
    ensures Matches(a, b, ci) <==> Matches(b, a, ci)
  {
    hide Fold;
  }

  lemma MarksBefore(line: string)
    ensures FirstSpecial(line) <= |line| && NoMark(line[..FirstSpecial(line)])
  {
  }

  lemma NewSection(ini: Ini, section: string, name: string, valueName: string, defValue: string, ci: bool)
    requires Wellformed(ini)
    ensures var after := AddedKeyName(ini, section);
            Wellformed(after) && ValueOf(after, name, valueName, defValue, ci) == ValueOf(ini, name, valueName, defValue, ci)
  {
    hide Fold, Trim;
    var after := AddedKeyName(ini, section);
    var i := Find(after.names, name, ci);
    assert forall j :: 0 <= j < |ini.names| ==> after.names[j] == ini.names[j];
    assert i < |ini.names| ==> i == Find(ini.names, name, ci);
  }

  lemma CommentsAside(ini: Ini, section: string, comment: string, name: string, valueName: string, defValue: string, ci: bool)
    requires Wellformed(ini)
    ensures ValueOf(ini.(comments := ini.comments + [comment]), name, valueName, defValue, ci)
            == ValueOf(ini, name, valueName, defValue, ci)
    ensures var after := WithKeyComment(ini, section, comment, ci);
            Wellformed(after) && ValueOf(after, name, valueName, defValue, ci) == ValueOf(ini, name, valueName, defValue, ci)
  {
    hide Fold, Find;
    FindIs(ini.names, section, ci);
    FindIs(ini.names, name, ci);
  }

  lemma {:induction false} OtherLines(r: Reading, lines: seq<string>, name: string, valueName: string, defValue: string, ci: bool)
    requires Wellformed(r.ini) && AllPass(r, lines, name, valueName, ci)
    ensures ValueOf(ReadLines(r, lines, ci).ini, name, valueName, defValue, ci) == ValueOf(r.ini, name, valueName, defValue, ci)
    decreases |lines|
  {
    hide ReadLine, ValueOf, Passes, DropCr;
    if lines != [] {
      var next := ReadLine(r, DropCr(lines[0]), ci);
      OtherLine(r, DropCr(lines[0]), name, valueName, defValue, ci);
      OtherLines(next, lines[1..], name, valueName, defValue, ci);
    }
  }

  lemma TrimMore(s: string, c: char)
    requires IsSpace(c)
    ensures Trim(s + [c]) == Trim(s)
  {
    TrimLeftMore(s, c);
    var t := TrimLeft(s);
    if t != "" {
      assert (t + [c])[..|t + [c]| - 1] == t;
    }
  }

  lemma {:induction false} TrimLeftMore(s: string, c: char)
    requires IsSpace(c)
    ensures TrimLeft(s + [c]) == if TrimLeft(s) == "" then "" else TrimLeft(s) + [c]
  {
    if s == "" {
      assert s + [c] == [c] && [c][1..] == "";
    } else if IsSpace(s[0]) {
      assert (s + [c])[1..] == s[1..] + [c];
      TrimLeftMore(s[1..], c);
    }
  }

  /** A value line, with or without a carriage return at its end. */
  lemma ValueLineSets(r: Reading, n: string, v: string, defValue: string, ci: bool)
    requires Wellformed(r.ini) && NoMark(n)
    ensures var s := ReadLine(r, DropCr(n + ("=" + v)), ci);
            Wellformed(s.ini) && ValueOf(s.ini, Trim(r.keyName), Trim(n), defValue, ci) == Trim(v)
  {
    hide Fold, Find, Trim, FirstSpecial, LastBracket, WithValue, ValueOf, Wellformed, AddedKeyName, WithKeyComment;
    var w := if v != "" && v[|v| - 1] == '\r' then v[..|v| - 1] else v;
    var line := n + ("=" + w);
    assert DropCr(n + ("=" + v)) == line by {
      assert w != v ==> n + ("=" + v) == line + "\r";
    }
    assert Trim(w) == Trim(v) by {
      if w != v {
        assert v == w + ['\r'];
        TrimMore(w, '\r');
      }
    }
    MarkFirst(n, '=', w);
    assert line[|n|] == '=' && line[..|n|] == n && line[|n| + 1..] == w;
    SetThenGet(r.ini, r.keyName, n, w, Trim(r.keyName), Trim(n), defValue, ci);
  }

  /** Of several values of one name in a section of a file the last one stays, whatever the other lines are. */
  lemma LastValueWins(ini: Ini, before: seq<string>, n: string, v: string, rest: seq<string>, defValue: string, ci: bool)
    requires Wellformed(ini) && NoMark(n)
    requires var r := ReadLines(Reading(ini, ""), before, ci);
             AllPass(ReadLines(r, [n + ("=" + v)], ci), rest, Trim(r.keyName), Trim(n), ci)
    ensures var section := ReadLines(Reading(ini, ""), before, ci).keyName;
            ValueOf(ReadLines(Reading(ini, ""), before + ([n + ("=" + v)] + rest), ci).ini, Trim(section), Trim(n), defValue, ci)
            == Trim(v)
  {
    hide ReadLine, ValueOf, AllPass, DropCr, Trim, NoMark;
    var r, line := ReadLines(Reading(ini, ""), before, ci), n + ("=" + v);
    ReadLinesConcat(Reading(ini, ""), before, [line] + rest, ci);
    ReadLineWellformed(r, DropCr(line), ci);
    assert ([line] + rest)[1..] == rest && [line][1..] == [];
    ValueLineSets(r, n, v, defValue, ci);
    OtherLines(ReadLine(r, DropCr(line), ci), rest, Trim(r.keyName), Trim(n), defValue, ci);
  }

  // ---------- the object ----------

  lemma FirstSpecialBound(line: string)
    ensures FirstSpecial(line) <= |line|
    ensures LastBracket(line) < |line|
  {
  }

  lemma NothingRead(r: Reading, ci: bool)
    requires Wellformed(r.ini)
    ensures ReadLines(r, [], ci) == r
  {
  }

  lemma OneMore(r: Reading, done: seq<string>, line: string, ci: bool)
    requires Wellformed(r.ini)
    ensures ReadLines(r, done + [line], ci) == ReadLine(ReadLines(r, done, ci), DropCr(line), ci)
  {
    hide ReadLine, DropCr;
    ReadLinesConcat(r, done, [line], ci);
    var m := ReadLines(r, done, ci);
    ReadLineWellformed(m, DropCr(line), ci);
    assert ReadLines(m, [line], ci) == ReadLines(ReadLine(m, DropCr(line), ci), [], ci);
  }

  class CIniFile {
    var caseInsensitive: bool
    var names: seq<string>
    var keys: seq<Key>
    var comments: seq<string>

    constructor ()
      ensures Contents() == EMPTY && caseInsensitive
    {
      caseInsensitive, names, keys, comments := true, [], [], [];
    }

    function Contents(): Ini
      reads this
    {
      Ini(names, keys, comments)
    }

    static method TrimInPlace(s: string) returns (ss: string)
      ensures ss == Trim(s)
    {
      ss := s;
      while ss != "" && IsSpace(ss[0])
        invariant TrimLeft(ss) == TrimLeft(s)
        decreases |ss|
      {
        ss := ss[1..];
      }
      ghost var left := ss;
      while ss != "" && IsSpace(ss[|ss| - 1])
        invariant TrimRight(ss) == TrimRight(left)
        decreases |ss|
      {
        ss := ss[..|ss| - 1];
      }
    }

    method CheckCase(name: string) returns (s: string)
      ensures s == Fold(name, caseInsensitive)
    {
      s := name;
      if caseInsensitive {
        var i := 0;
        while i < |s|
          invariant |s| == |name| && i <= |s|
          invariant forall j :: 0 <= j < |s| ==> s[j] == if j < i then ToLower(name[j]) else name[j]
        {
          s := s[i := ToLower(s[i])];
          i := i + 1;
        }
      }
    }

    /** The loop of `FindKey` and of `FindValue`. */
    method FindIn(list: seq<string>, name: string) returns (id: int)
      ensures id == Find(list, name, caseInsensitive)
    {
      var keyID := 0;
      var wanted := CheckCase(name);
      while keyID < |list|
        invariant 0 <= keyID <= |list|
        invariant forall i :: 0 <= i < keyID ==> Fold(list[i], caseInsensitive) != wanted
      {
        var s := CheckCase(list[keyID]);
        if s == wanted {
          return keyID;
        }
        keyID := keyID + 1;
      }
      return noID;
    }

    method AddKeyName(keyname: string) returns (id: nat)
      modifies this`names, this`keys
      ensures Contents() == AddedKeyName(old(Contents()), keyname) && id == |names| - 1
    {
      var name := TrimInPlace(keyname);
      names := names + [name];
      keys := keys + [Key([], [], [])];
      return |names| - 1;
    }

    method SetValue(keyname: string, valuename: string, value: string, create: bool) returns (done: bool)
      requires Wellformed(Contents())
      modifies this`names, this`keys
      ensures done <==> create || HasValue(old(Contents()), Trim(keyname), Trim(valuename), caseInsensitive)
      ensures Contents() == if done then WithValue(old(Contents()), keyname, valuename, value, caseInsensitive)
                            else old(Contents())
      ensures done ==> exists i, k :: ValueSet(old(Contents()), Contents(), Trim(keyname), Trim(valuename), Trim(value),
                                               caseInsensitive, i, k)
    {
      hide Find, Trim, ValueSet, HasValue;
      ghost var before := Contents();
      HasValueIs(before, Trim(keyname), Trim(valuename), caseInsensitive);
      var name := TrimInPlace(keyname);
      var vname := TrimInPlace(valuename);
      var v := TrimInPlace(value);
      var keyID := FindIn(names, name);
      FindIs(names, name, caseInsensitive);
      if keyID == noID {
        if !create {
          return false;
        }
        keyID := AddKeyName(name);
      }
      var k := keys[keyID];
      var valueID := FindIn(k.names, vname);
      FindIs(k.names, vname, caseInsensitive);
      if valueID == noID {
        if !create {
          return false;
        }
        k := k.(names := k.names + [vname], values := k.values + [v]);
      } else {
        k := k.(values := k.values[valueID := v]);
      }
      keys := keys[keyID := k];
      done := true;
      WithValueIs(before, keyname, valuename, value, caseInsensitive);
    }

    /** `GetValue`: the names are not trimmed. */
    method GetValue(keyname: string, valuename: string, defValue: string) returns (value: string)
      requires Wellformed(Contents())
      ensures value == ValueOf(Contents(), keyname, valuename, defValue, caseInsensitive)
    {
      hide Fold;
      var keyID := FindIn(names, keyname);
      if keyID == noID {
        return defValue;
      }
      var valueID := FindIn(keys[keyID].names, valuename);
      if valueID == noID {
        return defValue;
      }
      return keys[keyID].values[valueID];
    }

    method HeaderComment(comment: string)
      modifies this`comments
      ensures comments == old(comments) + [comment]
    {
      comments := comments + [comment];
    }

    method KeyComment(keyname: string, comment: string) returns (done: bool)
      requires Wellformed(Contents())
      modifies this`keys
      ensures Contents() == WithKeyComment(old(Contents()), keyname, comment, caseInsensitive)
      ensures done <==> Find(names, keyname, caseInsensitive) != noID
    {
      var keyID := FindIn(names, keyname);
      if keyID == noID {
        return false;
      }
      keys := keys[keyID := keys[keyID].(comments := keys[keyID].comments + [comment])];
      return true;
    }

    /** What `ReadFile` does with a line; `keyname` is the current section. */
    method TakeLine(line: string, keyname: string) returns (section: string)
      requires Wellformed(Contents())
      modifies this`names, this`keys, this`comments
      ensures Wellformed(Contents())
      ensures Reading(Contents(), section) == ReadLine(Reading(old(Contents()), keyname), line, caseInsensitive)
    {
      hide Find, Trim, FirstSpecial, LastBracket, WithValue, WithKeyComment;
      ReadLineWellformed(Reading(Contents(), keyname), line, caseInsensitive);
      FirstSpecialBound(line);
      section := keyname;
      var pLeft := FirstSpecial(line);
      if pLeft < |line| {
        if line[pLeft] == '[' {
          var pRight := LastBracket(line);
          if pRight > pLeft {
            section := line[pLeft + 1..pRight];
            var id := AddKeyName(section);
          }
        } else if line[pLeft] == '=' {
          var done := SetValue(keyname, line[..pLeft], line[pLeft + 1..], true);
        } else if |names| == 0 {
          HeaderComment(line[pLeft + 1..]);
        } else {
          var done := KeyComment(keyname, line[pLeft + 1..]);
        }
      }
    }

    /** `ReadFile`; `file` is what the file holds, if it can be opened. */
    method ReadFile(file: string, opens: bool) returns (ok: bool)
      requires Wellformed(Contents())
      modifies this`names, this`keys, this`comments
      ensures Wellformed(Contents())
      ensures !opens ==> !ok && Contents() == old(Contents())
      ensures opens ==> Contents() == ReadLines(Reading(old(Contents()), ""), Lines(file), caseInsensitive).ini
      ensures opens ==> (ok <==> names != [])
    {
      hide ReadLine, ReadLines, Lines, Newline, Wellformed;
      if !opens {
        return false;
      }
      ghost var ci, start, done := caseInsensitive, Reading(Contents(), ""), [];
      var rest, keyname, atEnd := file, "", file == "";
      NothingRead(start, ci);
      while !atEnd
        invariant Wellformed(Contents()) && caseInsensitive == ci && (atEnd ==> rest == "")
        invariant Lines(file) == done + Lines(rest)
        invariant Reading(Contents(), keyname) == ReadLines(start, done, ci)
        invariant !atEnd ==> rest != ""
        decreases |rest|
      {
        var n := Newline(rest);
        var line := rest[..n];
        NextLine(rest);
        ghost var more := done + [line];
        Regroup(done, [line], Lines(if n == |rest| then "" else rest[n + 1..]));
        OneMore(start, done, line, ci);
        rest := if n == |rest| then "" else rest[n + 1..];
        if line != "" && line[|line| - 1] == '\r' {
          line := line[..|line| - 1];
        }
        keyname := TakeLine(line, keyname);
        done := more;
        atEnd := rest == "";
      }
      EmptyText();
      assert done + [] == done;
      ok := |names| > 0;
    }

    /** `WriteFile`: the text that the file holds afterwards, if it can be opened. */
    method WriteFile(opens: bool) returns (ok: bool, file: string)
      requires Wellformed(Contents())
      ensures ok == opens && (opens ==> file == Written(Contents()))
    {
      hide Join, CommentLines, SectionLines;
      file := "";
      if !opens {
        return false, "";
      }
      file := CommentText(comments);
      ghost var header := CommentLines(comments);
      if |comments| != 0 {
        JoinOneMore(header, "");
        file := file + "\r\n";
        header := header + [""];
      } else {
        assert header + [] == header;
      }
      assert header == HeaderLines(comments);
      assert header + SectionsLines(Contents(), 0) == header;
      var keyID := 0;
      while keyID < |keys|
        invariant keyID <= |keys| && file == Join(header + SectionsLines(Contents(), keyID))
      {
        ghost var done := header + SectionsLines(Contents(), keyID);
        var section := WriteSection(names[keyID], keys[keyID]);
        JoinConcat(done, SectionLines(names[keyID], keys[keyID]));
        file := file + section;
        assert done + SectionLines(names[keyID], keys[keyID]) == header + SectionsLines(Contents(), keyID + 1);
        keyID := keyID + 1;
      }
      ok := true;
    }

    /** The lines of comments that `WriteFile` writes. */
    static method CommentText(list: seq<string>) returns (text: string)
      ensures text == Join(CommentLines(list))
    {
      hide Join, CommentLines;
      JoinNothing();
      text := "";
      var commentID := 0;
      assert list[..0] == [];
      while commentID < |list|
        invariant commentID <= |list| && text == Join(CommentLines(list[..commentID]))
      {
        CommentStep(list, commentID);
        JoinOneMore(CommentLines(list[..commentID]), ";" + list[commentID]);
        text := text + (";" + list[commentID]) + "\r\n";
        commentID := commentID + 1;
      }
      assert list[..|list|] == list;
    }

    /** The lines of values that `WriteFile` writes. */
    static method ValueText(key: Key) returns (text: string)
      requires |key.names| == |key.values|
      ensures text == Join(ValueLines(key))
    {
      hide Join, ValueLines, KeyPart;
      JoinNothing();
      NoValues(key);
      text := "";
      var valueID := 0;
      while valueID < |key.names|
        invariant valueID <= |key.names| && |KeyPart(key, valueID).names| == |KeyPart(key, valueID).values|
        invariant text == Join(ValueLines(KeyPart(key, valueID)))
      {
        KeyPartStep(key, valueID);
        JoinOneMore(ValueLines(KeyPart(key, valueID)), key.names[valueID] + "=" + key.values[valueID]);
        text := text + (key.names[valueID] + "=" + key.values[valueID]) + "\r\n";
        valueID := valueID + 1;
      }
    }

    /** The part of `WriteFile` for one section. */
    static method WriteSection(name: string, key: Key) returns (text: string)
      requires |key.names| == |key.values|
      ensures text == Join(SectionLines(name, key))
    {
      hide Join, CommentLines, ValueLines;
      JoinOne("[" + name + "]");
      text := "[" + name + "]" + "\r\n";
      var comments := CommentText(key.comments);
      JoinConcat(["[" + name + "]"], CommentLines(key.comments));
      text := text + comments;
      var values := ValueText(key);
      JoinConcat(["[" + name + "]"] + CommentLines(key.comments), ValueLines(key));
      text := text + values;
      JoinOneMore(["[" + name + "]"] + CommentLines(key.comments) + ValueLines(key), "");
      text := text + "\r\n";
    }
  }

  lemma NoValues(key: Key)
    requires |key.names| == |key.values|
    ensures |KeyPart(key, 0).names| == |KeyPart(key, 0).values| && ValueLines(KeyPart(key, 0)) == []
    ensures KeyPart(key, |key.names|) == key
  {
  }

  lemma JoinNothing()
    ensures Join([]) == "" && CommentLines([]) == []
  {
  }

  lemma JoinOneMore(lines: seq<string>, line: string)
    ensures Join(lines + [line]) == Join(lines) + line + "\r\n"
    ensures Join(lines + [""]) == Join(lines) + "\r\n"
  {
    assert (lines + [line])[..|lines|] == lines && (lines + [""])[..|lines|] == lines;
    assert Join(lines) + "" + "\r\n" == Join(lines) + "\r\n";
  }

  lemma CommentStep(comments: seq<string>, i: nat)
    requires i < |comments|
    ensures CommentLines(comments[..i + 1]) == CommentLines(comments[..i]) + [";" + comments[i]]
  {
  }

  /** Writing an object and reading the file into a new one. */
  method SaveAndLoad(a: CIniFile) returns (b: CIniFile, ok: bool)
    requires Good(a.Contents(), a.caseInsensitive) && a.caseInsensitive
    ensures b.Contents() == a.Contents() && (ok <==> a.names != [])
  {
    hide Good, Written, ReadText;
    GoodIsWellformed(a.Contents(), true);
    RoundTrip(a.Contents(), true);
    b := new CIniFile();
    var written, file := a.WriteFile(true);
    ok := b.ReadFile(file, true);
    ReadTextIs(file);
  }

  lemma ReadTextIs(text: string)
    ensures ReadText(text, true) == ReadLines(Reading(EMPTY, ""), Lines(text), true).ini
  {
  }
}
