/** log4cpp's pattern layout: a compiler from patterns to components, and what a pattern means. */
module PatternLayout {
  import opened Chars
  import opened Decimals
  import opened Sequences

  datatype Result<T> = Ok(value: T) | ConfigureFailure

  const INT_MAX := 0x7fff_ffff
  const SIZE_MAX := 0xffff_ffff_ffff_ffff
  const NPOS := SIZE_MAX
  /** The longest a string can be. */
  const MAX_SIZE := 0x7fff_ffff_ffff_ffff

  // ---------- numbers read from a stream ----------

  function SkipSpaces(s: string): (r: string)
    ensures |r| <= |s|
  {
    if s != "" && IsSpace(s[0]) then SkipSpaces(s[1..]) else s
  }

  function DigitCount(s: string): (n: nat)
    ensures n <= |s| && forall i :: 0 <= i < n ==> IsDigit(s[i])
  {
    if s != "" && IsDigit(s[0]) then 1 + DigitCount(s[1..]) else 0
  }

  /** What `operator>>` reads: whether it fails, the number, and what is left. */
  datatype Read = Read(failed: bool, number: int, rest: string)

  function ReadDigits(s: string): (bool, int, string) {
    var n := DigitCount(s);
    (n > 0, Value(s[..n]), s[n..])
  }

  /** `operator>>` for `int`. */
  function ReadInt(s: string): (r: Read)
    ensures |r.rest| <= |s|
  {
    var t := SkipSpaces(s);
    var signed := t != "" && (t[0] == '-' || t[0] == '+');
    var d := ReadDigits(if signed then t[1..] else t);
    var v := if signed && t[0] == '-' then -d.1 else d.1;
    if !d.0 then Read(true, 0, d.2)
    else if v > INT_MAX then Read(true, INT_MAX, d.2)
    else if v < -INT_MAX - 1 then Read(true, -INT_MAX - 1, d.2)
    else Read(false, v, d.2)
  }

  /** `operator>>` for `size_t`, which takes a minus sign and wraps around. */
  function ReadSize(s: string): (r: Read)
    ensures |r.rest| <= |s| && 0 <= r.number
  {
    var t := SkipSpaces(s);
    var signed := t != "" && (t[0] == '-' || t[0] == '+');
    var d := ReadDigits(if signed then t[1..] else t);
    DigitsAreNat(if signed then t[1..] else t);
    if !d.0 then Read(true, 0, d.2)
    else if d.1 > SIZE_MAX then Read(true, SIZE_MAX, d.2)
    else if signed && t[0] == '-' && d.1 > 0 then Read(false, SIZE_MAX + 1 - d.1, d.2)
    else Read(false, d.1, d.2)
  }

  lemma {:induction false} ValueIsNat(s: string)
    requires forall i :: 0 <= i < |s| ==> IsDigit(s[i])
    ensures Value(s) >= 0
  {
    if s != "" {
      ValueIsNat(s[..|s| - 1]);
    }
  }

  lemma DigitsAreNat(s: string)
    ensures ReadDigits(s).1 >= 0 && |ReadDigits(s).2| <= |s|
  {
    ValueIsNat(s[..DigitCount(s)]);
  }

  // ---------- one conversion specifier ----------

  /** A specifier with what came before and after its letter; the widths hold until a field uses them. */
  datatype Item = Unterminated | Item(letter: char, postfix: string, minWidth: int, maxWidth: nat, rest: string)

  /** The text up to a closing brace, and what follows it. */
  function Braced(s: string): (r: (string, string))
    ensures |r.1| <= |s|
  {
    if s == "" then ("", "")
    else if s[0] == '}' then ("", s[1..])
    else
      var r := Braced(s[1..]);
      ([s[0]] + r.0, r.1)
  }

  /** The letter of a specifier and its postfix. */
  function Letter(s: string, minWidth: int, maxWidth: nat): (r: Item)
    ensures r.Item? ==> |r.rest| < |s|
  {
    if s == "" then Unterminated
    else if |s| > 1 && s[1] == '{' then
      var b := Braced(s[2..]);
      Item(s[0], b.0, minWidth, maxWidth, b.1)
    else Item(s[0], "", minWidth, maxWidth, s[1..])
  }

  lemma NoLetter()
    ensures forall m: int, n: nat :: Letter("", m, n).Unterminated?
  {
  }

  /** The optional maximal width, and the rest. */
  function Maximum(s: string, minWidth: int, maxWidth: nat): (r: Item)
    ensures r.Item? ==> |r.rest| < |s|
  {
    if s != "" && s[0] == '.' then
      var m := ReadSize(s[1..]);
      if m.failed then Unterminated else Letter(m.rest, minWidth, m.number)
    else Letter(s, minWidth, maxWidth)
  }

  /** What follows a percent sign, when widths are pending. */
  function ReadItem(s: string, minWidth: int, maxWidth: nat): (r: Item)
    ensures r.Item? ==> |r.rest| < |s|
  {
    if s != "" && (s[0] == '-' || IsDigit(s[0])) then
      var m := ReadInt(s);
      if m.failed then Unterminated else Maximum(m.rest, m.number, maxWidth)
    else Maximum(s, minWidth, maxWidth)
  }

  // ---------- events and components ----------

  type CppString = s: string | |s| <= MAX_SIZE

  /** A logging event, with the texts that the clock and the operating system supply. */
  datatype Event = Event(categoryName: CppString, message: string, ndc: string, priorityName: string, threadName: string,
                         clock: string, seconds: string, sinceStart: string, millis: nat, strftime: string -> string)

  datatype Component =
    | StringLiteral(literal: string)
    | CategoryName(precision: int)
    | Message | Ndc | PriorityName | ThreadName | ProcessorTime | SecondsSinceEpoch | MillisSinceEpoch
    | TimeStamp(before: string, after: string, printMillis: bool)
    | FormatModifier(component: Component, minWidth: nat, maxWidth: nat, alignLeft: bool)

  /** The place of `%l`, or the length. */
  function FindMillis(s: string): (i: nat)
    ensures i <= |s| && (i < |s| ==> i + 2 <= |s| && s[i] == '%' && s[i + 1] == 'l')
  {
    if |s| < 2 then |s| else if s[0] == '%' && s[1] == 'l' then 0 else 1 + FindMillis(s[1..])
  }

  function NewTimeStamp(postfix: string): Component {
    var f := if postfix == "" || postfix == "ISO8601" then "%Y-%m-%d %H:%M:%S,%l"
             else if postfix == "ABSOLUTE" then "%H:%M:%S,%l"
             else if postfix == "DATE" then "%d %b %Y %H:%M:%S,%l"
             else postfix;
    var p := FindMillis(f);
    if p == |f| then TimeStamp(f, "", false) else TimeStamp(f[..p], f[p + 2..], true)
  }

  /** `setw(3) << setfill('0')`. */
  function ThreeDigits(n: nat): string {
    var d := Decimal(n);
    (if |d| == 1 then "00" else if |d| == 2 then "0" else "") + d
  }

  function Spaces(n: nat): (s: string)
    ensures |s| == n && forall c :: c in s ==> c == ' '
  {
    if n == 0 then "" else Spaces(n - 1) + " "
  }

  // ---------- the last segments of a category name ----------

  /** `rfind('.', pos)`. */
  function RFind(s: string, pos: nat): (p: nat)
    requires |s| <= MAX_SIZE
    ensures p == NPOS || (p < |s| && p <= pos && s[p] == '.')
    ensures p == NPOS ==> forall i :: 0 <= i < |s| && i <= pos ==> s[i] != '.'
    ensures p != NPOS ==> forall i :: p < i < |s| && i <= pos ==> s[i] != '.'
    decreases if pos < |s| then pos else |s|
  {
    if s == "" then NPOS
    else if pos >= |s| then RFind(s, |s| - 1)
    else if s[pos] == '.' then pos
    else if pos == 0 then NPOS
    else RFind(s, pos - 1)
  }

  /** `begin - 2` in `size_t`. */
  function MinusTwo(begin: nat): nat {
    if begin >= 2 then begin - 2 else begin + SIZE_MAX - 1
  }

  /** The loop of `CategoryNameComponent`, with `n` rounds to go. */
  function Begin(name: string, begin: nat, n: nat): (b: nat)
    requires |name| <= MAX_SIZE && (begin <= |name| || begin == NPOS)
    ensures b <= |name| || (b == NPOS && n == 0 && begin == NPOS)
    decreases n
  {
    if n == 0 then begin
    else
      var p := RFind(name, MinusTwo(begin));
      if p == NPOS then 0 else Begin(name, p + 1, n - 1)
  }

  /** What the component writes; nothing if `substr` throws. */
  function CategoryText(name: string, precision: int): Option<string>
    requires |name| <= MAX_SIZE
  {
    if precision == -1 then Some(name)
    else
      var b := Begin(name, NPOS, if precision > 0 then precision else 0);
      if b > |name| then None else Some(name[b..])
  }

  function Dots(s: string): nat {
    if s == "" then 0 else Dots(s[..|s| - 1]) + (if s[|s| - 1] == '.' then 1 else 0)
  }

  /** `r` is the last `n` dotted segments of `name`, or all of it if it has no more. */
  predicate IsLastSegments(name: string, n: nat, r: string) {
    exists b :: 0 <= b <= |name| && r == name[b..] && LastSegmentsFrom(name, n, b)
  }

  predicate LastSegmentsFrom(name: string, n: nat, b: nat)
    requires b <= |name|
  {
    if b == 0 then Dots(name) < n else name[b - 1] == '.' && Dots(name[b..]) == n - 1
  }

  lemma {:induction false} DotsSplit(s: string, b: nat)
    requires b <= |s|
    ensures Dots(s) == Dots(s[..b]) + Dots(s[b..])
    decreases |s| - b
  {
    if b < |s| {
      var t := s[..|s| - 1];
      DotsSplit(t, b);
      assert t[..b] == s[..b] && t[b..] == s[b..][..|s[b..]| - 1];
    } else {
      assert s[..b] == s;
    }
  }

  lemma {:induction false} NoDots(s: string)
    ensures Dots(s) == 0 <==> '.' !in s
  {
    if s != "" {
      NoDots(s[..|s| - 1]);
      assert s == s[..|s| - 1] + [s[|s| - 1]];
    }
  }

  /** One dot, and none between it and `b`. */
  lemma OneDot(name: string, p: nat, b: nat)
    requires p < b <= |name| && name[p] == '.' && forall i :: p < i < b ==> name[i] != '.'
    ensures Dots(name[p + 1..]) == Dots(name[b..]) && Dots(name[p..]) == Dots(name[b..]) + 1
  {
    var t := name[p + 1..];
    DotsSplit(t, b - p - 1);
    assert t[b - p - 1..] == name[b..];
    NoDots(t[..b - p - 1]);
    DotsSplit(name[p..], 1);
    assert name[p..][1..] == t && name[p..][..1] == ".";
    assert Dots(".") == Dots("") + 1;
  }

  lemma LeadDots(name: string, i: nat)
    requires name != "" && i >= 1 && LastSegmentsFrom(name, i, 1)
    ensures Dots(name) == i
  {
    assert name[0..] == name;
    OneDot(name, 0, 1);
  }

  /** A round of the search from a segment that is not the first. */
  lemma RoundStep(name: string, b: nat, i: nat)
    requires |name| <= MAX_SIZE && 1 < b <= |name| && i >= 1 && LastSegmentsFrom(name, i, b)
    ensures var p := RFind(name, MinusTwo(b));
            (p == NPOS ==> Dots(name) == i) && (p != NPOS ==> p < |name| && LastSegmentsFrom(name, i + 1, p + 1))
  {
    hide RFind, Dots;
    RFindIs(name, MinusTwo(b));
    DotsSplit(name, b - 1);
    OneDot(name, b - 1, b);
    var p := RFind(name, MinusTwo(b));
    if p == NPOS {
      NoDots(name[..b - 1]);
    } else {
      OneDot(name, p, b - 1);
    }
  }

  /** The rounds after the first, as long as the search does not start over. */
  lemma {:induction false} RoundsLead(name: string, b: nat, i: nat, n: nat)
    requires |name| <= MAX_SIZE && 0 < b <= |name| && 1 <= i <= n && LastSegmentsFrom(name, i, b)
    requires name[0] == '.' ==> Dots(name) >= n
    ensures Begin(name, b, n - i) <= |name| && LastSegmentsFrom(name, n, Begin(name, b, n - i))
    decreases n - i
  {
    if i < n {
      hide RFind, Dots;
      if b == 1 {
        LeadDots(name, i);
      }
      RoundStep(name, b, i);
      var p := RFind(name, MinusTwo(b));
      if p != NPOS {
        RoundsLead(name, p + 1, i + 1, n);
      }
    }
  }

  lemma RFindIs(s: string, pos: nat)
    requires |s| <= MAX_SIZE
    ensures var p := RFind(s, pos);
            (p == NPOS && forall i :: 0 <= i < |s| && i <= pos ==> s[i] != '.')
            || (p < |s| && p <= pos && s[p] == '.' && forall i :: p < i < |s| && i <= pos ==> s[i] != '.')
  {
  }

  /** After a leading dot the search never comes to the start of the name. */
  lemma {:induction false} NeverAtStart(name: string, begin: nat, n: nat)
    requires |name| <= MAX_SIZE && name != "" && name[0] == '.' && (begin <= |name| || begin == NPOS)
    requires begin > 0
    ensures Begin(name, begin, n) > 0
    decreases n
  {
    if n > 0 {
      RFindIs(name, MinusTwo(begin));
      NeverAtStart(name, RFind(name, MinusTwo(begin)) + 1, n - 1);
    }
  }

  lemma FirstRound(name: string, n: nat)
    requires |name| <= MAX_SIZE && n >= 1
    ensures var p := RFind(name, MinusTwo(NPOS));
            (p == NPOS ==> Begin(name, NPOS, n) == 0 && Dots(name) == 0)
            && (p != NPOS ==> p < |name| && Begin(name, NPOS, n) == Begin(name, p + 1, n - 1)
                              && LastSegmentsFrom(name, 1, p + 1))
  {
    hide RFind;
    RFindIs(name, MinusTwo(NPOS));
    var p := RFind(name, MinusTwo(NPOS));
    if p == NPOS {
      NoDots(name);
    } else {
      NoDots(name[p + 1..]);
    }
  }

  lemma From(name: string, n: nat, b: nat)
    requires b <= |name| && LastSegmentsFrom(name, n, b)
    ensures IsLastSegments(name, n, name[b..])
  {
  }

  lemma WholeName(name: string, n: nat)
    requires n >= 1
    ensures Dots(name) == 0 ==> LastSegmentsFrom(name, n, 0)
    ensures name != "" && name[0] == '.' ==> Dots(name) > 0
  {
    NoDots(name);
  }

  lemma CategoryIs(name: string, n: nat)
    requires |name| <= MAX_SIZE && n >= 1
    ensures Begin(name, NPOS, n) <= |name| && CategoryText(name, n) == Some(name[Begin(name, NPOS, n)..])
  {
    hide Begin;
  }

  lemma BeginLeads(name: string, n: nat)
    requires |name| <= MAX_SIZE && n >= 1 && !(Dots(name) < n && name != "" && name[0] == '.')
    ensures Begin(name, NPOS, n) <= |name| && LastSegmentsFrom(name, n, Begin(name, NPOS, n))
  {
    hide RFind, Begin, Dots, LastSegmentsFrom;
    FirstRound(name, n);
    var p := RFind(name, MinusTwo(NPOS));
    if p == NPOS {
      WholeName(name, n);
    } else {
      RoundsLead(name, p + 1, 1, n);
    }
  }

  /** With fewer than `n` dots, only the whole name will do. */
  lemma OnlyAll(name: string, n: nat, r: string)
    requires Dots(name) < n
    ensures IsLastSegments(name, n, r) ==> r == name
  {
    forall b | 0 < b <= |name| && LastSegmentsFrom(name, n, b)
      ensures false
    {
      DotsSplit(name, b - 1);
      OneDot(name, b - 1, b);
    }
  }

  /** `%c{n}` writes the last `n` segments exactly if the name does not both start with a dot and have fewer than `n` dots. */
  lemma LastSegmentsIff(name: string, n: nat)
    requires |name| <= MAX_SIZE && n >= 1
    ensures CategoryText(name, n).Some?
    ensures IsLastSegments(name, n, CategoryText(name, n).value) <==> !(Dots(name) < n && name != "" && name[0] == '.')
  {
    hide RFind, Begin, Dots, LastSegmentsFrom, IsLastSegments, CategoryText, MinusTwo;
    var b := Begin(name, NPOS, n);
    CategoryIs(name, n);
    if Dots(name) < n && name != "" && name[0] == '.' {
      NeverAtStart(name, NPOS, n);
      OnlyAll(name, n, name[b..]);
    } else {
      BeginLeads(name, n);
      From(name, n, b);
    }
  }

  // ---------- running components ----------

  /** `FormatModifierComponent`: cut to the maximum, then filled up to the minimum. */
  function Fit(msg: string, minWidth: nat, maxWidth: nat, alignLeft: bool): string {
    var m := if 0 < maxWidth < |msg| then msg[..maxWidth] else msg;
    if minWidth <= |m| then m
    else if alignLeft then m + Spaces(minWidth - |m|)
    else Spaces(minWidth - |m|) + m
  }

  /** Cutting comes first: the text shown is a prefix of the message, at one end of a field filled with spaces. */
  lemma FitIs(msg: string, minWidth: nat, maxWidth: nat, alignLeft: bool)
    ensures var r, k := Fit(msg, minWidth, maxWidth, alignLeft), if 0 < maxWidth < |msg| then maxWidth else |msg|;
            |r| == (if minWidth > k then minWidth else k)
            && (if alignLeft then r[..k] == msg[..k] && forall i :: k <= i < |r| ==> r[i] == ' '
                else r[|r| - k..] == msg[..k] && forall i :: 0 <= i < |r| - k ==> r[i] == ' ')
  {
    var k := if 0 < maxWidth < |msg| then maxWidth else |msg|;
    var m := msg[..k];
    assert msg[..|msg|] == msg;
    var r := Fit(msg, minWidth, maxWidth, alignLeft);
    if minWidth > k {
      var fill := Spaces(minWidth - k);
      assert |fill| == minWidth - k && forall i :: 0 <= i < |fill| ==> fill[i] in fill;
      if alignLeft {
        assert r == m + fill && r[..k] == m;
        assert forall i :: k <= i < |r| ==> r[i] == fill[i - k];
      } else {
        assert r == fill + m && r[|r| - k..] == m;
      }
    } else {
      assert r == m && r[..k] == m && r[0..] == m;
    }
  }

  function TimeText(before: string, after: string, printMillis: bool, e: Event): string {
    e.strftime(if printMillis then before + ThreeDigits(e.millis) + after else before)
  }

  function Run(c: Component, e: Event): Option<string> {
    match c
    case StringLiteral(literal) => Some(literal)
    case CategoryName(precision) => CategoryText(e.categoryName, precision)
    case Message => Some(e.message)
    case Ndc => Some(e.ndc)
    case PriorityName => Some(e.priorityName)
    case ThreadName => Some(e.threadName)
    case ProcessorTime => Some(e.clock)
    case SecondsSinceEpoch => Some(e.seconds)
    case MillisSinceEpoch => Some(e.sinceStart)
    case TimeStamp(before, after, printMillis) => Some(TimeText(before, after, printMillis, e))
    case FormatModifier(component, minWidth, maxWidth, alignLeft) =>
      var r := Run(component, e);
      if r.None? then None else Some(Fit(r.value, minWidth, maxWidth, alignLeft))
  }

  function Append(a: Option<string>, b: Option<string>): Option<string> {
    if a.None? || b.None? then None else Some(a.value + b.value)
  }

  function RunAll(cs: seq<Component>, e: Event): Option<string> {
    if cs == [] then Some("") else Append(Run(cs[0], e), RunAll(cs[1..], e))
  }

  // ---------- compiling ----------

  /** The component of a letter; none for percent and newline, which are literal, and for unknown letters. */
  function FieldComponent(letter: char, postfix: string): Option<Component> {
    if letter == 'm' then Some(Message)
    else if letter == 'c' then Some(CategoryName(if postfix == "" then -1 else ReadInt(postfix).number))
    else if letter == 'd' then Some(NewTimeStamp(postfix))
    else if letter == 'p' then Some(PriorityName)
    else if letter == 'r' then Some(MillisSinceEpoch)
    else if letter == 'R' then Some(SecondsSinceEpoch)
    else if letter == 't' then Some(ThreadName)
    else if letter == 'u' then Some(ProcessorTime)
    else if letter == 'x' then Some(Ndc)
    else None
  }

  function Abs(n: int): nat {
    if n < 0 then -n else n
  }

  function Wrapped(c: Component, minWidth: int, maxWidth: nat): Component {
    if minWidth != 0 || maxWidth != 0 then FormatModifier(c, Abs(minWidth), maxWidth, minWidth < 0) else c
  }

  function Flushed(literal: string): seq<Component> {
    if literal == "" then [] else [StringLiteral(literal)]
  }

  /** What the compiler makes of a pattern, when a literal has been gathered and widths are pending. */
  function Compile(s: string, literal: string, minWidth: int, maxWidth: nat): Result<seq<Component>>
    decreases |s|
  {
    if s == "" then Ok(Flushed(literal))
    else if s[0] != '%' then Compile(s[1..], literal + [s[0]], minWidth, maxWidth)
    else
      var item := ReadItem(s[1..], minWidth, maxWidth);
      if item.Unterminated? then ConfigureFailure
      else if item.letter == '%' then Compile(item.rest, literal + "%", item.minWidth, item.maxWidth)
      else if item.letter == 'n' then Compile(item.rest, literal + "\n", item.minWidth, item.maxWidth)
      else
        var field := FieldComponent(item.letter, item.postfix);
        if field.None? then ConfigureFailure
        else
          var rest := Compile(item.rest, "", 0, 0);
          if rest.ConfigureFailure? then ConfigureFailure
          else Ok(Flushed(literal) + [Wrapped(field.value, item.minWidth, item.maxWidth)] + rest.value)
  }

  // ---------- what a pattern means ----------

  datatype Outcome = Rejected | Throws | Text(text: string)

  /** The text of a field; `Rejected` for letters that name none. */
  function Field(letter: char, postfix: string, e: Event): Outcome {
    if letter == 'm' then Text(e.message)
    else if letter == 'p' then Text(e.priorityName)
    else if letter == 't' then Text(e.threadName)
    else if letter == 'x' then Text(e.ndc)
    else if letter == 'r' then Text(e.sinceStart)
    else if letter == 'R' then Text(e.seconds)
    else if letter == 'u' then Text(e.clock)
    else if letter == 'd' then
      var f := if postfix == "" || postfix == "ISO8601" then "%Y-%m-%d %H:%M:%S,%l"
               else if postfix == "ABSOLUTE" then "%H:%M:%S,%l"
               else if postfix == "DATE" then "%d %b %Y %H:%M:%S,%l"
               else postfix;
      var p := FindMillis(f);
      Text(e.strftime(if p < |f| then f[..p] + ThreeDigits(e.millis) + f[p + 2..] else f))
    else if letter == 'c' then
      var r := CategoryText(e.categoryName, if postfix == "" then -1 else ReadInt(postfix).number);
      if r.None? then Throws else Text(r.value)
    else Rejected
  }

  /** Text in front of what the rest of a pattern gives. */
  function Then(first: Outcome, rest: Outcome): Outcome {
    if first.Rejected? || rest.Rejected? then Rejected
    else if first.Throws? || rest.Throws? then Throws
    else Text(first.text + rest.text)
  }

  function FitOutcome(o: Outcome, minWidth: int, maxWidth: nat): Outcome {
    if o.Text? then Text(Fit(o.text, Abs(minWidth), maxWidth, minWidth < 0)) else o
  }

  /** A pattern read from left to right, one character or one specifier at a time; widths wait for the next field. */
  function Meaning(s: string, minWidth: int, maxWidth: nat, e: Event): Outcome
    decreases |s|
  {
    if s == "" then Text("")
    else if s[0] != '%' then Then(Text([s[0]]), Meaning(s[1..], minWidth, maxWidth, e))
    else
      var item := ReadItem(s[1..], minWidth, maxWidth);
      if item.Unterminated? then Rejected
      else if item.letter == '%' then Then(Text("%"), Meaning(item.rest, item.minWidth, item.maxWidth, e))
      else if item.letter == 'n' then Then(Text("\n"), Meaning(item.rest, item.minWidth, item.maxWidth, e))
      else Then(FitOutcome(Field(item.letter, item.postfix, e), item.minWidth, item.maxWidth), Meaning(item.rest, 0, 0, e))
  }

  function Ran(cs: Result<seq<Component>>, e: Event): Outcome {
    if cs.ConfigureFailure? then Rejected
    else
      var r := RunAll(cs.value, e);
      if r.None? then Throws else Text(r.value)
  }

  lemma ThenText(a: string, b: string, o: Outcome)
    ensures Then(Text(a), Then(Text(b), o)) == Then(Text(a + b), o)
    ensures Then(Text(""), o) == o
  {
    if o.Text? {
      assert a + (b + o.text) == a + b + o.text;
    }
  }

  lemma {:induction false} RunAllConcat(a: seq<Component>, b: seq<Component>, e: Event)
    ensures RunAll(a + b, e) == Append(RunAll(a, e), RunAll(b, e))
  {
    if a == [] {
      assert a + b == b;
      assert RunAll(b, e).Some? ==> "" + RunAll(b, e).value == RunAll(b, e).value;
    } else {
      assert (a + b)[1..] == a[1..] + b;
      RunAllConcat(a[1..], b, e);
      var x, y, z := Run(a[0], e), RunAll(a[1..], e), RunAll(b, e);
      if x.Some? && y.Some? && z.Some? {
        assert x.value + (y.value + z.value) == x.value + y.value + z.value;
      }
    }
  }

  lemma RunFlushed(literal: string, e: Event)
    ensures RunAll(Flushed(literal), e) == Some(literal)
  {
    if literal != "" {
      assert RunAll([StringLiteral(literal)], e) == Append(Some(literal), RunAll([], e));
      assert literal + "" == literal;
    }
  }

  /** The component of a field writes what the field means. */
  lemma FieldRuns(letter: char, postfix: string, minWidth: int, maxWidth: nat, e: Event)
    ensures var c := FieldComponent(letter, postfix);
            if c.None? then Field(letter, postfix, e).Rejected?
            else FitOutcome(Field(letter, postfix, e), minWidth, maxWidth)
                 == match Run(Wrapped(c.value, minWidth, maxWidth), e) case None => Throws case Some(t) => Text(t)
  {
    hide CategoryText, ReadInt, ThreeDigits, FindMillis;
    var c := FieldComponent(letter, postfix);
    if c.Some? {
      PlainRuns(letter, postfix, e);
      hide Field, FieldComponent;
      assert Run(c.value, e).Some? ==> Fit(Run(c.value, e).value, 0, 0, false) == Run(c.value, e).value;
    }
  }

  lemma PlainRuns(letter: char, postfix: string, e: Event)
    ensures var c := FieldComponent(letter, postfix);
            c.Some? ==> Field(letter, postfix, e) == match Run(c.value, e) case None => Throws case Some(t) => Text(t)
  {
    hide CategoryText, ReadInt, ThreeDigits, FindMillis, Field, FieldComponent, Run;
    if letter == 'd' {
      TimeRuns(postfix, e);
    } else {
      TextRuns(letter, postfix, e);
    }
  }

  lemma TimeRuns(postfix: string, e: Event)
    ensures FieldComponent('d', postfix) == Some(NewTimeStamp(postfix))
    ensures Run(NewTimeStamp(postfix), e) == Some(Field('d', postfix, e).text) && Field('d', postfix, e).Text?
  {
    hide CategoryText, ReadInt, ThreeDigits;
  }

  lemma TextRuns(letter: char, postfix: string, e: Event)
    requires letter != 'd'
    ensures var c := FieldComponent(letter, postfix);
            c.Some? ==> Field(letter, postfix, e) == match Run(c.value, e) case None => Throws case Some(t) => Text(t)
  {
    hide CategoryText, ReadInt, ThreeDigits, FindMillis, NewTimeStamp, TimeText;
  }

  /** Running the compiled components writes what the pattern means, for every pattern and every event. */
  lemma {:induction false} CompileCorrect(s: string, literal: string, minWidth: int, maxWidth: nat, e: Event)
    ensures Ran(Compile(s, literal, minWidth, maxWidth), e) == Then(Text(literal), Meaning(s, minWidth, maxWidth, e))
    decreases |s|
  {
    hide ReadItem, FieldComponent, Field, Run, Wrapped, FitOutcome;
    RunFlushed(literal, e);
    if s == "" {
      assert literal + "" == literal;
    } else if s[0] != '%' {
      CompileCorrect(s[1..], literal + [s[0]], minWidth, maxWidth, e);
      ThenText(literal, [s[0]], Meaning(s[1..], minWidth, maxWidth, e));
    } else {
      var item := ReadItem(s[1..], minWidth, maxWidth);
      ItemShrinks(s[1..], minWidth, maxWidth);
      if item.Item? {
        if item.letter == '%' {
          CompileCorrect(item.rest, literal + "%", item.minWidth, item.maxWidth, e);
          ThenText(literal, "%", Meaning(item.rest, item.minWidth, item.maxWidth, e));
        } else if item.letter == 'n' {
          CompileCorrect(item.rest, literal + "\n", item.minWidth, item.maxWidth, e);
          ThenText(literal, "\n", Meaning(item.rest, item.minWidth, item.maxWidth, e));
        } else {
          FieldRuns(item.letter, item.postfix, item.minWidth, item.maxWidth, e);
          CompileCorrect(item.rest, "", 0, 0, e);
          var field := FieldComponent(item.letter, item.postfix);
          if field.Some? {
            FieldStep(literal, Wrapped(field.value, item.minWidth, item.maxWidth), Compile(item.rest, "", 0, 0),
                      FitOutcome(Field(item.letter, item.postfix, e), item.minWidth, item.maxWidth), Meaning(item.rest, 0, 0, e), e);
          } else {
            RejectedStays(item.letter, item.postfix, item.minWidth, item.maxWidth, e);
          }
        }
      }
    }
  }

  lemma ItemShrinks(s: string, minWidth: int, maxWidth: nat)
    ensures var r := ReadItem(s, minWidth, maxWidth); r.Item? ==> |r.rest| < |s|
  {
  }

  lemma RejectedStays(letter: char, postfix: string, minWidth: int, maxWidth: nat, e: Event)
    requires Field(letter, postfix, e).Rejected?
    ensures FitOutcome(Field(letter, postfix, e), minWidth, maxWidth).Rejected?
  {
  }

  /** The literal so far, a component, and the rest. */
  lemma FieldStep(literal: string, c: Component, rest: Result<seq<Component>>, o: Outcome, m: Outcome, e: Event)
    requires o == match Run(c, e) case None => Throws case Some(t) => Text(t)
    requires Ran(rest, e) == Then(Text(""), m)
    ensures rest.ConfigureFailure? ==> Then(Text(literal), Then(o, m)).Rejected?
    ensures rest.Ok? ==> Ran(Ok(Flushed(literal) + [c] + rest.value), e) == Then(Text(literal), Then(o, m))
  {
    hide Run;
    ThenText("", "", m);
    if rest.Ok? {
      RunFlushed(literal, e);
      RunAllConcat(Flushed(literal), [c] + rest.value, e);
      assert Flushed(literal) + [c] + rest.value == Flushed(literal) + ([c] + rest.value);
      assert ([c] + rest.value)[1..] == rest.value;
    }
  }

  // ---------- the code ----------

  /** `std::istringstream`: what is left, and whether an operation has failed. Nothing works after a failure. */
  class IStream {
    var rest: string
    var failed: bool

    constructor (text: string)
      ensures rest == text && !failed
    {
      rest, failed := text, false;
    }

    /** `get(ch)`, which keeps the old character if it fails. */
    method Get(before: char) returns (ok: bool, ch: char)
      modifies this
      ensures ok <==> !old(failed) && old(rest) != ""
      ensures ok ==> ch == old(rest)[0] && rest == old(rest)[1..] && !failed
      ensures !ok ==> ch == before && failed && rest == old(rest)
    {
      if failed || rest == "" {
        failed := true;
        return false, before;
      }
      ok, ch, rest := true, rest[0], rest[1..];
    }

    method Putback(ch: char)
      modifies this`rest
      ensures rest == if failed then old(rest) else [ch] + old(rest)
    {
      if !failed {
        rest := [ch] + rest;
      }
    }

    method GetInt(before: int) returns (n: int)
      requires !failed
      modifies this
      ensures Read(failed, n, rest) == ReadInt(old(rest))
    {
      var r := ReadInt(rest);
      failed, n, rest := r.failed, r.number, r.rest;
    }

    method GetSize() returns (n: nat)
      requires !failed
      modifies this
      ensures Read(failed, n, rest) == ReadSize(old(rest))
    {
      var r := ReadSize(rest);
      failed, n, rest := r.failed, r.number, r.rest;
    }
  }

  /** Components already made, in front of those still to be made. */
  function After(cs: seq<Component>, r: Result<seq<Component>>): Result<seq<Component>> {
    if r.ConfigureFailure? then r else Ok(cs + r.value)
  }

  class PatternLayout {
    var components: seq<Component>
    var conversionPattern: string

    constructor ()
      ensures components == [] && conversionPattern == ""
    {
      components, conversionPattern := [], "";
    }

    /** `setConversionPattern`; false if it throws `ConfigureFailure`. */
    method SetConversionPattern(pattern: string) returns (ok: bool)
      modifies this
      ensures ok <==> Compile(pattern, "", 0, 0).Ok?
      ensures ok ==> components == Compile(pattern, "", 0, 0).value && conversionPattern == pattern
      ensures !ok ==> conversionPattern == ""
    {
      hide ReadItem, FieldComponent;
      var stream := new IStream(pattern);
      var literal, minWidth, maxWidth := "", 0, 0;
      components, conversionPattern := [], "";
      AfterNothing(Compile(pattern, "", 0, 0));
      var ch: char := *;
      var more;
      more, ch := stream.Get(ch);
      while more
        invariant fresh(stream) && (more <==> !stream.failed) && (!more ==> stream.rest == "") && conversionPattern == ""
        invariant Compile(pattern, "", 0, 0)
                  == After(components, Compile((if more then [ch] else "") + stream.rest, literal, minWidth, maxWidth))
        decreases |stream.rest| + if more then 1 else 0
      {
        ghost var text := stream.rest;
        assert ([ch] + text)[1..] == text;
        if ch == '%' {
          ItemShrinks(text, minWidth, maxWidth);
          var ok1, letter, specPostfix;
          ok1, letter, specPostfix, minWidth, maxWidth := ReadSpecifier(stream, minWidth, maxWidth);
          if !ok1 {
            return false;
          }
          if letter == '%' {
            literal := literal + "%";
          } else if letter == 'n' {
            literal := literal + "\n";
          } else {
            var field := FieldComponent(letter, specPostfix);
            if field.None? {
              return false;
            }
            AfterField(components, literal, Wrapped(field.value, minWidth, maxWidth), Compile(stream.rest, "", 0, 0));
            if literal != "" {
              components := components + [StringLiteral(literal)];
              literal := "";
            }
            var component := field.value;
            if minWidth != 0 || maxWidth != 0 {
              component := FormatModifier(component, Abs(minWidth), maxWidth, minWidth < 0);
              minWidth, maxWidth := 0, 0;
            }
            components := components + [component];
          }
        } else {
          literal := literal + [ch];
        }
        NextChar(stream.rest);
        more, ch := stream.Get(ch);
      }
      if literal != "" {
        components := components + [StringLiteral(literal)];
      }
      conversionPattern := pattern;
      ok := true;
    }

    /** `format`: the text, or nothing if a component throws. */
    method Format(e: Event) returns (text: Option<string>)
      ensures text == RunAll(components, e)
    {
      hide Run;
      var message, i := "", 0;
      NothingRuns(components, e);
      while i < |components|
        invariant i <= |components| && RunAll(components, e) == Append(Some(message), RunAll(components[i..], e))
      {
        NextRuns(message, components[i..], e);
        var t := Run(components[i], e);
        if t.None? {
          return None;
        }
        message := message + t.value;
        i := i + 1;
      }
      assert components[|components|..] == [];
      assert message + "" == message;
      return Some(message);
    }

    /** Compiling a pattern and formatting an event with it gives what the pattern means. */
    method Layout(pattern: string, e: Event) returns (o: Outcome)
      modifies this
      ensures o == Meaning(pattern, 0, 0, e)
    {
      hide RunAll, Compile, Meaning;
      CompileCorrect(pattern, "", 0, 0, e);
      ThenText("", "", Meaning(pattern, 0, 0, e));
      var ok := SetConversionPattern(pattern);
      if !ok {
        return Rejected;
      }
      var text := Format(e);
      o := if text.None? then Throws else Text(text.value);
    }

    /** The prefix, letter and postfix of a specifier; false if it is not terminated. */
    static method ReadSpecifier(stream: IStream, minWidth0: int, maxWidth0: nat)
      returns (ok: bool, ch: char, specPostfix: string, minWidth: int, maxWidth: nat)
      requires !stream.failed
      modifies stream
      ensures var item := ReadItem(old(stream.rest), minWidth0, maxWidth0);
              ok == item.Item?
              && (ok ==> item == Item(ch, specPostfix, minWidth, maxWidth, stream.rest) && (stream.failed ==> stream.rest == ""))
    {
      hide ReadInt, ReadSize, Letter;
      NoLetter();
      minWidth, maxWidth := minWidth0, maxWidth0;
      var ch2: char := *;
      var got;
      NextChar(stream.rest);
      got, ch2 := stream.Get(ch2);
      if ch2 == '-' || '0' <= ch2 <= '9' {
        stream.Putback(ch2);
        if !stream.failed {
          minWidth := stream.GetInt(minWidth);
        }
        NextChar(stream.rest);
        got, ch2 := stream.Get(ch2);
      }
      if ch2 == '.' {
        if !stream.failed {
          maxWidth := stream.GetSize();
        }
      } else {
        stream.Putback(ch2);
      }
      ok, ch, specPostfix := ReadLetter(stream, minWidth, maxWidth);
    }

    /** The letter of a specifier and its postfix. */
    static method ReadLetter(stream: IStream, ghost minWidth: int, ghost maxWidth: nat)
      returns (ok: bool, ch: char, specPostfix: string)
      modifies stream
      ensures old(stream.failed) ==> !ok
      ensures !old(stream.failed) ==>
                var item := Letter(old(stream.rest), minWidth, maxWidth);
                ok == item.Item?
                && (ok ==> item == Item(ch, specPostfix, minWidth, maxWidth, stream.rest) && (stream.failed ==> stream.rest == ""))
    {
      hide Braced;
      specPostfix := "";
      ch := *;
      ok, ch := stream.Get(ch);
      if !ok {
        return;
      }
      var ch2: char := *;
      var got;
      got, ch2 := stream.Get(ch2);
      if got {
        if ch2 == '{' {
          specPostfix := ReadPostfix(stream);
        } else {
          stream.Putback(ch2);
        }
      }
    }

    /** The text up to the closing brace. */
    static method ReadPostfix(stream: IStream) returns (specPostfix: string)
      requires !stream.failed
      modifies stream
      ensures (specPostfix, stream.rest) == Braced(old(stream.rest)) && (stream.failed ==> stream.rest == "")
    {
      hide Braced;
      specPostfix := "";
      var ch2: char := *;
      var got;
      BracedStep("", 'x', stream.rest);
      got, ch2 := stream.Get(ch2);
      while got && ch2 != '}'
        invariant got <==> !stream.failed
        invariant !got ==> stream.rest == "" && Braced(old(stream.rest)) == (specPostfix, "")
        invariant got ==> Braced(old(stream.rest))
                          == (specPostfix + Braced([ch2] + stream.rest).0, Braced([ch2] + stream.rest).1)
        decreases |stream.rest|, got
      {
        BracedStep(specPostfix, ch2, stream.rest);
        specPostfix := specPostfix + [ch2];
        got, ch2 := stream.Get(ch2);
      }
      BracedEnd(specPostfix, stream.rest);
    }
  }

  lemma AfterNothing(r: Result<seq<Component>>)
    ensures After([], r) == r
  {
    if r.Ok? {
      assert [] + r.value == r.value;
    }
  }

  lemma AfterField(cs: seq<Component>, literal: string, c: Component, rest: Result<seq<Component>>)
    ensures rest.Ok? ==> After(cs, Ok(Flushed(literal) + [c] + rest.value))
                         == After((if literal == "" then cs else cs + [StringLiteral(literal)]) + [c], rest)
  {
    if rest.Ok? {
      assert cs + (Flushed(literal) + [c] + rest.value)
             == (if literal == "" then cs else cs + [StringLiteral(literal)]) + [c] + rest.value;
    }
  }

  lemma NextChar(rest: string)
    ensures rest != "" ==> [rest[0]] + rest[1..] == rest
    ensures "" + rest == rest
  {
  }

  lemma NothingRuns(cs: seq<Component>, e: Event)
    ensures RunAll(cs, e) == Append(Some(""), RunAll(cs[0..], e))
  {
    hide Run;
    assert cs[0..] == cs;
    assert RunAll(cs, e).Some? ==> "" + RunAll(cs, e).value == RunAll(cs, e).value;
  }

  lemma NextRuns(message: string, cs: seq<Component>, e: Event)
    requires cs != []
    ensures Append(Some(message), RunAll(cs, e))
            == if Run(cs[0], e).None? then None else Append(Some(message + Run(cs[0], e).value), RunAll(cs[1..], e))
  {
    hide Run;
    var a, b := Run(cs[0], e), RunAll(cs[1..], e);
    if a.Some? && b.Some? {
      assert message + (a.value + b.value) == message + a.value + b.value;
    }
  }

  lemma BracedStep(done: string, c: char, rest: string)
    requires c != '}'
    ensures done + Braced([c] + rest).0 == done + [c] + Braced(rest).0 && Braced([c] + rest).1 == Braced(rest).1
    ensures rest != "" ==> [rest[0]] + rest[1..] == rest
    ensures Braced("") == ("", "") && done + [c] + "" == done + [c]
    ensures "" + Braced(rest).0 == Braced(rest).0
  {
    hide Braced;
    BracedFirst(c, rest);
    Regroup(done, [c], Braced(rest).0);
  }

  lemma BracedFirst(c: char, rest: string)
    requires c != '}'
    ensures Braced([c] + rest) == ([c] + Braced(rest).0, Braced(rest).1) && Braced("") == ("", "")
  {
    assert ([c] + rest)[1..] == rest;
  }

  lemma BracedEnd(done: string, rest: string)
    ensures done + Braced("}" + rest).0 == done && Braced("}" + rest).1 == rest
  {
    assert ("}" + rest)[1..] == rest;
  }
}
