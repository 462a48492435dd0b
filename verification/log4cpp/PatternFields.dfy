/** What the conversion specifiers of a pattern show, told by the text of the pattern alone. */
module PatternFields {
  import opened Chars
  import opened Decimals
  import opened Sequences
  import opened PatternLayout

  predicate Digits(s: string) {
    forall i :: 0 <= i < |s| ==> IsDigit(s[i])
  }

  predicate NoDigitAhead(s: string) {
    s == "" || !IsDigit(s[0])
  }

  // ---------- numbers ----------

  lemma {:induction false} DigitsCounted(ds: string, tail: string)
    requires Digits(ds) && NoDigitAhead(tail)
    ensures DigitCount(ds + tail) == |ds|
  {
    if ds == "" {
      assert ds + tail == tail;
    } else {
      assert (ds + tail)[1..] == ds[1..] + tail;
      DigitsCounted(ds[1..], tail);
    }
  }

  lemma DigitsRead(ds: string, tail: string)
    requires Digits(ds) && NoDigitAhead(tail)
    ensures ReadDigits(ds + tail) == (ds != "", Value(ds), tail) && Value(ds) >= 0
  {
    DigitsCounted(ds, tail);
    ValueIsNat(ds);
    assert (ds + tail)[..|ds|] == ds && (ds + tail)[|ds|..] == tail;
  }

  lemma {:induction false} SpacesSkipped(w: string, s: string)
    requires (forall i :: 0 <= i < |w| ==> IsSpace(w[i])) && (s == "" || !IsSpace(s[0]))
    ensures SkipSpaces(w + s) == s
  {
    if w == "" {
      assert w + s == s;
    } else {
      assert (w + s)[1..] == w[1..] + s;
      SpacesSkipped(w[1..], s);
    }
  }

  /** A number after spaces and a sign: with a minus sign it is negative, and what does not fit is an error. */
  lemma IntIsRead(w: string, sign: string, ds: string, tail: string)
    requires (forall i :: 0 <= i < |w| ==> IsSpace(w[i])) && sign in {"", "-", "+"} && Digits(ds) && NoDigitAhead(tail)
    requires ds == "" && sign == "" ==> tail == "" || (!IsSpace(tail[0]) && tail[0] != '-' && tail[0] != '+')
    ensures var v := if sign == "-" then -Value(ds) else Value(ds);
            ReadInt(w + (sign + (ds + tail)))
            == if ds == "" then Read(true, 0, tail)
               else if v > 0x7fff_ffff then Read(true, 0x7fff_ffff, tail)
               else if v < -0x8000_0000 then Read(true, -0x8000_0000, tail)
               else Read(false, v, tail)
  {
    hide ReadDigits;
    var t := sign + (ds + tail);
    DigitsRead(ds, tail);
    SignStarts(sign, ds, tail);
    SpacesSkipped(w, t);
  }

  lemma SignStarts(sign: string, ds: string, tail: string)
    requires sign in {"", "-", "+"} && Digits(ds)
    requires ds == "" && sign == "" ==> tail == "" || (!IsSpace(tail[0]) && tail[0] != '-' && tail[0] != '+')
    ensures var t := sign + (ds + tail);
            (t == "" || !IsSpace(t[0])) && (sign != "" ==> t[0] == sign[0] && t[1..] == ds + tail)
            && (sign == "" ==> t == ds + tail && (t == "" || (t[0] != '-' && t[0] != '+')))
  {
    var t := sign + (ds + tail);
    assert sign == "" && ds != "" ==> t[0] == ds[0];
    assert sign == "" && ds == "" ==> t == tail;
  }

  /** The same without a negative result: `-n` is read as the size type wraps it. */
  lemma SizeIsRead(w: string, sign: string, ds: string, tail: string)
    requires (forall i :: 0 <= i < |w| ==> IsSpace(w[i])) && sign in {"", "-", "+"} && Digits(ds) && NoDigitAhead(tail)
    requires ds == "" && sign == "" ==> tail == "" || (!IsSpace(tail[0]) && tail[0] != '-' && tail[0] != '+')
    ensures Value(ds) >= 0
    ensures ReadSize(w + (sign + (ds + tail)))
            == if ds == "" then Read(true, 0, tail)
               else if Value(ds) > SIZE_MAX then Read(true, SIZE_MAX, tail)
               else Read(false, if sign == "-" then -Value(ds) % (SIZE_MAX + 1) else Value(ds), tail)
  {
    hide ReadDigits;
    var t := sign + (ds + tail);
    DigitsRead(ds, tail);
    SignStarts(sign, ds, tail);
    SpacesSkipped(w, t);
  }

  lemma DecimalDigits(n: nat)
    ensures Digits(Decimal(n)) && Decimal(n) != "" && Value(Decimal(n)) == n
  {
    ValueOfDecimal(n);
  }

  // ---------- specifiers ----------

  /** The width of a specifier: none, `n`, or `-n`. */
  datatype Width = NoWidth | Right(n: nat) | Left(n: nat)
  datatype Cut = NoCut | Cut(k: nat)

  function WidthText(w: Width): string {
    match w
    case NoWidth => ""
    case Right(n) => Decimal(n)
    case Left(n) => "-" + Decimal(n)
  }

  function CutText(c: Cut): string {
    match c
    case NoCut => ""
    case Cut(k) => "." + Decimal(k)
  }

  /** A field shown in a width: cut to its first characters, and filled up with spaces on the other side. */
  predicate Shown(r: string, text: string, w: Width, c: Cut) {
    var m := if c.Cut? && 0 < c.k < |text| then text[..c.k] else text;
    match w
    case NoWidth => r == m
    case Right(n) => |r| == (if n > |m| then n else |m|) && r[|r| - |m|..] == m && forall i :: 0 <= i < |r| - |m| ==> r[i] == ' '
    case Left(n) => |r| == (if n > |m| then n else |m|) && r[..|m|] == m && forall i :: |m| <= i < |r| ==> r[i] == ' '
  }

  predicate Fits(w: Width, c: Cut) {
    (w.NoWidth? || w.n <= INT_MAX) && (c.NoCut? || c.k <= SIZE_MAX)
  }

  function MinWidth(w: Width): int {
    if w.NoWidth? then 0 else if w.Left? then 0 - w.n else w.n
  }

  function MaxWidth(c: Cut): nat {
    if c.Cut? then c.k else 0
  }

  lemma LetterRead(letter: char, rest: string, minWidth: int, maxWidth: nat)
    requires rest == "" || rest[0] != '{'
    ensures Letter([letter] + rest, minWidth, maxWidth) == Item(letter, "", minWidth, maxWidth, rest)
  {
    assert ([letter] + rest)[1..] == rest && ([letter] + rest)[0] == letter;
  }

  predicate FieldLetter(letter: char) {
    !IsDigit(letter) && letter != '-' && letter != '.' && letter != '+' && !IsSpace(letter)
  }

  lemma NothingInFront(t: string)
    ensures "" + t == t
  {
  }

  lemma TailOf(c: string, t: string)
    requires |c| == 1
    ensures (c + t)[0] == c[0] && (c + t)[1..] == t
  {
  }

  /** The number of a cut. */
  lemma CutNumber(k: nat, t: string)
    requires k <= SIZE_MAX && NoDigitAhead(t)
    ensures ReadSize(Decimal(k) + t) == Read(false, k, t)
  {
    hide ReadSize, Decimal, Value;
    DecimalDigits(k);
    SizeIsRead("", "", Decimal(k), t);
    NothingInFront(Decimal(k) + t);
  }

  lemma SignedNumber(sign: string, d: string, t: string)
    requires Digits(d) && d != "" && sign in {"", "-"}
    ensures var s := sign + d + t;
            s == "" + (sign + (d + t)) && s != "" && (s[0] == '-' || IsDigit(s[0]))
  {
    assert sign + d + t == sign + (d + t);
    assert sign == "" ==> (sign + d + t)[0] == d[0];
  }

  /** The number of a width. */
  lemma WidthNumber(w: Width, t: string)
    requires Fits(w, NoCut) && !w.NoWidth? && NoDigitAhead(t)
    ensures var s := WidthText(w) + t;
            s != "" && (s[0] == '-' || IsDigit(s[0])) && ReadInt(s) == Read(false, MinWidth(w), t)
  {
    hide ReadInt, Decimal, Value, Digits, NoDigitAhead;
    var d, sign := Decimal(w.n), if w.Left? then "-" else "";
    DecimalDigits(w.n);
    NothingInFront(d);
    SignedNumber(sign, d, t);
    IntIsRead("", sign, d, t);
  }

  lemma CutRead(c: Cut, letter: char, rest: string, minWidth: int)
    requires Fits(NoWidth, c) && FieldLetter(letter) && (rest == "" || rest[0] != '{')
    ensures Maximum(CutText(c) + ([letter] + rest), minWidth, 0) == Item(letter, "", minWidth, MaxWidth(c), rest)
  {
    hide ReadSize, Letter, Decimal;
    var t := [letter] + rest;
    LetterRead(letter, rest, minWidth, MaxWidth(c));
    TailOf([letter], rest);
    if c.Cut? {
      CutNumber(c.k, t);
      Regroup(".", Decimal(c.k), t);
      TailOf(".", Decimal(c.k) + t);
    } else {
      NothingInFront(t);
    }
  }

  lemma CutFirst(c: Cut, letter: char, rest: string)
    requires FieldLetter(letter)
    ensures var t := CutText(c) + ([letter] + rest); t != "" && t[0] != '-' && !IsDigit(t[0])
  {
  }

  /** The width in front of what `Maximum` reads. */
  lemma WidthRead(w: Width, t: string)
    requires Fits(w, NoCut) && NoDigitAhead(t) && (w.NoWidth? ==> t == "" || t[0] != '-')
    ensures ReadItem(WidthText(w) + t, 0, 0) == Maximum(t, MinWidth(w), 0)
  {
    hide ReadInt, Maximum, Decimal;
    if w.NoWidth? {
      NothingInFront(t);
    } else {
      hide WidthText;
      WidthNumber(w, t);
    }
  }

  /** A specifier is read as it was written. */
  lemma SpecifierRead(w: Width, c: Cut, letter: char, rest: string)
    requires Fits(w, c) && FieldLetter(letter) && (rest == "" || rest[0] != '{')
    ensures ReadItem(WidthText(w) + (CutText(c) + ([letter] + rest)), 0, 0)
            == Item(letter, "", MinWidth(w), MaxWidth(c), rest)
  {
    hide ReadItem, Maximum, CutText, WidthText;
    CutRead(c, letter, rest, MinWidth(w));
    CutFirst(c, letter, rest);
    WidthRead(w, CutText(c) + ([letter] + rest));
  }

  lemma FitShows(text: string, w: Width, c: Cut)
    requires Fits(w, c)
    ensures Shown(Fit(text, Abs(MinWidth(w)), MaxWidth(c), MinWidth(w) < 0), text, w, c)
  {
    FitIs(text, Abs(MinWidth(w)), MaxWidth(c), MinWidth(w) < 0);
    assert text[..|text|] == text;
  }

  lemma FieldAlone(s: string, item: Item, text: string, e: Event)
    requires item.Item? && item.rest == "" && ReadItem(s, 0, 0) == item && item.letter != '%' && item.letter != 'n'
    requires Field(item.letter, item.postfix, e) == Text(text)
    ensures Meaning("%" + s, 0, 0, e) == Text(Fit(text, Abs(item.minWidth), item.maxWidth, item.minWidth < 0))
  {
    hide ReadItem, Field, Fit;
    assert ("%" + s)[0] == '%' && ("%" + s)[1..] == s;
    var t := Fit(text, Abs(item.minWidth), item.maxWidth, item.minWidth < 0);
    assert t + "" == t;
  }

  /** Every letter that names a text shows it in the width and with the cut that are written in front of the letter. */
  lemma WidthsAreShown(w: Width, c: Cut, letter: char, e: Event)
    requires Fits(w, c) && letter in {'m', 'p', 't', 'x', 'r', 'R', 'u'}
    ensures var text := if letter == 'm' then e.message else if letter == 'p' then e.priorityName
                        else if letter == 't' then e.threadName else if letter == 'x' then e.ndc
                        else if letter == 'r' then e.sinceStart else if letter == 'R' then e.seconds else e.clock;
            var o := Meaning("%" + (WidthText(w) + (CutText(c) + [letter])), 0, 0, e);
            o.Text? && Shown(o.text, text, w, c)
  {
    hide Meaning, ReadItem, Fit, Shown, WidthText, CutText;
    SpecifierRead(w, c, letter, "");
    assert [letter] + "" == [letter];
    var text := Field(letter, "", e).text;
    FieldAlone(WidthText(w) + (CutText(c) + [letter]), Item(letter, "", MinWidth(w), MaxWidth(c), ""), text, e);
    FitShows(text, w, c);
  }

  // ---------- postfixes ----------

  lemma {:induction false} BracedIs(f: string, rest: string)
    requires '}' !in f
    ensures Braced(f + ("}" + rest)) == (f, rest)
  {
    var s := f + ("}" + rest);
    if f == "" {
      assert s == "}" + rest && s[1..] == rest;
    } else {
      assert s[1..] == f[1..] + ("}" + rest) && s[0] == f[0];
      BracedIs(f[1..], rest);
      assert [f[0]] + f[1..] == f;
    }
  }

  lemma PostfixRead(letter: char, f: string)
    requires FieldLetter(letter) && '}' !in f
    ensures ReadItem([letter] + ("{" + (f + "}")), 0, 0) == Item(letter, f, 0, 0, "")
  {
    hide ReadInt, ReadSize, Braced;
    BracedIs(f, "");
    var t := "{" + (f + "}");
    assert "}" + "" == "}" && ([letter] + t)[2..] == f + "}" && ([letter] + t)[1] == '{' && ([letter] + t)[0] == letter;
  }

  lemma WithPostfix(letter: char, f: string, text: string, e: Event)
    requires FieldLetter(letter) && letter != 'n' && letter != '%' && '}' !in f && Field(letter, f, e) == Text(text)
    ensures Meaning("%" + ([letter] + ("{" + (f + "}"))), 0, 0, e) == Text(text)
  {
    hide ReadItem, Field, Meaning;
    PostfixRead(letter, f);
    FieldAlone([letter] + ("{" + (f + "}")), Item(letter, f, 0, 0, ""), text, e);
  }

  lemma PrecisionRead(n: nat)
    requires n <= INT_MAX
    ensures Decimal(n) != "" && '}' !in Decimal(n) && ReadInt(Decimal(n)).number == n
  {
    hide ReadInt, Decimal;
    DecimalDigits(n);
    IntIsRead("", "", Decimal(n), "");
    assert "" + ("" + (Decimal(n) + "")) == Decimal(n);
  }

  /** `%c{n}` shows what `LastSegmentsIff` speaks of. */
  lemma CategoryIsShown(n: nat, e: Event)
    requires 1 <= n <= INT_MAX
    ensures CategoryText(e.categoryName, n).Some?
    ensures Meaning("%c{" + (Decimal(n) + "}"), 0, 0, e) == Text(CategoryText(e.categoryName, n).value)
  {
    hide CategoryText, ReadInt, Meaning, Decimal, ReadItem;
    PrecisionRead(n);
    LastSegmentsIff(e.categoryName, n);
    var f := Decimal(n);
    WithPostfix('c', f, CategoryText(e.categoryName, n).value, e);
    Regroup("%", "c", "{" + (f + "}"));
    Regroup("%c", "{", f + "}");
    assert "%" + "c" == "%c" && "%c" + "{" == "%c{" && ['c'] == "c";
  }

  lemma ThrowsAlone(s: string, item: Item, e: Event)
    requires item.Item? && item.rest == "" && ReadItem(s, 0, 0) == item && item.letter != '%' && item.letter != 'n'
    requires Field(item.letter, item.postfix, e) == Throws
    ensures Meaning("%" + s, 0, 0, e) == Throws
  {
    hide ReadItem, Field;
    assert ("%" + s)[0] == '%' && ("%" + s)[1..] == s;
  }

  lemma NegativeRead(minus: bool, n: nat)
    requires n <= INT_MAX + 1 && (!minus ==> n == 0)
    ensures var f := (if minus then "-" else "") + Decimal(n); f != "" && '}' !in f && ReadInt(f).number == 0 - n
  {
    hide ReadInt, Decimal, Value;
    var d, sign := Decimal(n), if minus then "-" else "";
    DecimalDigits(n);
    IntIsRead("", sign, d, "");
    NothingInFront(sign + (d + ""));
    assert d + "" == d;
  }

  /** `%c` alone, and `%c{-1}`, show the whole name; with 0 or any other negative number `substr` throws. */
  lemma NoSegments(minus: bool, n: nat, e: Event)
    requires n <= INT_MAX + 1 && (!minus ==> n == 0)
    ensures Meaning("%c", 0, 0, e) == Text(e.categoryName)
    ensures Meaning("%" + ("c" + ("{" + ((if minus then "-" else "") + Decimal(n) + "}"))), 0, 0, e)
            == if n == 1 then Text(e.categoryName) else Throws
  {
    hide ReadInt, Meaning, Decimal, ReadItem;
    var f := (if minus then "-" else "") + Decimal(n);
    assert "%" + "c" == "%c" && ['c'] == "c" && "" + ("" + ("c" + "")) == "c";
    SpecifierRead(NoWidth, NoCut, 'c', "");
    FieldAlone("c", Item('c', "", 0, 0, ""), e.categoryName, e);
    NegativeRead(minus, n);
    PostfixRead('c', f);
    if n == 1 {
      WithPostfix('c', f, e.categoryName, e);
    } else {
      ThrowsAlone(['c'] + ("{" + (f + "}")), Item('c', f, 0, 0, ""), e);
    }
  }

  // ---------- time ----------

  /** Milliseconds always take three digits. */
  lemma ThreeDigitsAre(n: nat)
    requires n <= 999
    ensures var t := ThreeDigits(n); |t| == 3 && Digits(t) && Value(t) == n
  {
    hide Decimal, Value;
    var d := Decimal(n);
    DecimalDigits(n);
    DecimalLength(n);
    ZerosInFront(d);
    ZerosInFront("0" + d);
    assert "0" + ("0" + d) == "00" + d && "" + d == d;
  }

  lemma DecimalLength(n: nat)
    requires n <= 999
    ensures |Decimal(n)| == if n < 10 then 1 else if n < 100 then 2 else 3
  {
    if n >= 10 {
      DecimalLength(n / 10);
    }
  }

  lemma {:induction false} ZerosInFront(d: string)
    ensures Value("0" + d) == Value(d)
  {
    if d == "" {
      assert "0" + d == "0" && "0"[..0] == "" && Value("") == 0;
    } else {
      assert ("0" + d)[..|d|] == "0" + d[..|d| - 1];
      ZerosInFront(d[..|d| - 1]);
    }
  }

  predicate MillisAt(g: string, p: nat) {
    p + 2 <= |g| && g[p] == '%' && g[p + 1] == 'l'
  }

  lemma {:induction false} MillisFound(g: string)
    ensures var p := FindMillis(g);
            (p < |g| ==> MillisAt(g, p)) && forall i :: 0 <= i < p ==> !MillisAt(g, i)
  {
    if |g| >= 2 && !(g[0] == '%' && g[1] == 'l') {
      MillisFound(g[1..]);
      forall i | 0 <= i < FindMillis(g)
        ensures !MillisAt(g, i)
      {
        assert i > 0 ==> (MillisAt(g, i) <==> MillisAt(g[1..], i - 1));
      }
    }
  }

  /** The formats that have names. */
  function FormatOf(postfix: string): string {
    if postfix == "" || postfix == "ISO8601" then "%Y-%m-%d %H:%M:%S,%l"
    else if postfix == "ABSOLUTE" then "%H:%M:%S,%l"
    else if postfix == "DATE" then "%d %b %Y %H:%M:%S,%l"
    else postfix
  }

  /** The format that is given to `strftime`: the first `%l` has become the milliseconds. */
  ghost predicate Filled(g: string, millis: nat, h: string) {
    if exists p: nat :: MillisAt(g, p) then
      exists p: nat, t: string ::
        MillisAt(g, p) && (forall i :: 0 <= i < p ==> !MillisAt(g, i)) && h == g[..p] + t + g[p + 2..]
        && |t| == 3 && Digits(t) && Value(t) == millis
    else h == g
  }

  lemma FieldOfTime(postfix: string, e: Event) returns (h: string)
    requires e.millis <= 999
    ensures Field('d', postfix, e) == Text(e.strftime(h)) && Filled(FormatOf(postfix), e.millis, h)
  {
    hide ThreeDigits, FindMillis, Digits;
    var g := FormatOf(postfix);
    var p, t := FindMillis(g), ThreeDigits(e.millis);
    MillisFound(g);
    ThreeDigitsAre(e.millis);
    if p < |g| {
      h := g[..p] + t + g[p + 2..];
      assert MillisAt(g, p) && h == g[..p] + t + g[p + 2..];
    } else {
      h := g;
    }
  }

  /** `%d` shows the time in its format, with three digits for the milliseconds. */
  lemma TimeIsShown(postfix: string, e: Event)
    requires '}' !in postfix && e.millis <= 999
    ensures exists h :: Filled(FormatOf(postfix), e.millis, h)
                        && Meaning("%d{" + (postfix + "}"), 0, 0, e) == Text(e.strftime(h))
  {
    hide Field, Meaning, Filled, FormatOf;
    var h := FieldOfTime(postfix, e);
    WithPostfix('d', postfix, e.strftime(h), e);
    assert "%" + ("d" + ("{" + (postfix + "}"))) == "%d{" + (postfix + "}");
  }

  // ---------- literal text ----------

  /** Text without a percent sign shows itself, whatever follows. */
  lemma {:induction false} LiteralIsShown(text: string, rest: string, e: Event)
    requires '%' !in text
    ensures Meaning(text + rest, 0, 0, e) == Then(Text(text), Meaning(rest, 0, 0, e))
  {
    if text == "" {
      assert text + rest == rest;
      ThenText("", "", Meaning(rest, 0, 0, e));
    } else {
      assert (text + rest)[1..] == text[1..] + rest && (text + rest)[0] == text[0];
      LiteralIsShown(text[1..], rest, e);
      ThenText([text[0]], text[1..], Meaning(rest, 0, 0, e));
      assert [text[0]] + text[1..] == text;
    }
  }

  /** `%%` is a percent sign, `%n` a line end, and a letter that names nothing is rejected. */
  lemma OtherLetters(letter: char, rest: string, e: Event)
    requires FieldLetter(letter) && (rest == "" || rest[0] != '{')
    ensures letter == '%' ==> Meaning("%%" + rest, 0, 0, e) == Then(Text("%"), Meaning(rest, 0, 0, e))
    ensures letter == 'n' ==> Meaning("%n" + rest, 0, 0, e) == Then(Text("\n"), Meaning(rest, 0, 0, e))
    ensures letter !in {'m', 'p', 't', 'x', 'r', 'R', 'u', 'd', 'c', 'n', '%'} ==>
              Meaning("%" + ([letter] + rest), 0, 0, e) == Rejected
  {
    hide ReadItem, Fit;
    var s := [letter] + rest;
    SpecifierRead(NoWidth, NoCut, letter, rest);
    assert "" + ("" + s) == s && ("%" + s)[1..] == s && ("%" + s)[0] == '%';
    assert letter == '%' ==> "%%" + rest == "%" + s;
    assert letter == 'n' ==> "%n" + rest == "%" + s;
  }

  lemma CutAlone(c: Cut, minWidth: int)
    requires Fits(NoWidth, c)
    ensures Maximum(CutText(c), minWidth, 0).Unterminated? && (CutText(c) == "" || CutText(c)[0] == '.')
  {
    hide ReadSize, Decimal;
    if c.Cut? {
      CutNumber(c.k, "");
      assert Decimal(c.k) + "" == Decimal(c.k);
      TailOf(".", Decimal(c.k));
    }
  }

  /** A pattern that ends in a specifier without a letter is rejected. */
  lemma NoLetterIsRejected(w: Width, c: Cut, e: Event)
    requires Fits(w, c)
    ensures Meaning("%" + (WidthText(w) + CutText(c)), 0, 0, e) == Rejected
  {
    hide ReadItem, Field, Maximum, WidthText, CutText;
    CutAlone(c, MinWidth(w));
    WidthRead(w, CutText(c));
    var s := WidthText(w) + CutText(c);
    assert ("%" + s)[1..] == s && ("%" + s)[0] == '%';
  }

  // ---------- widths that do not fit, and widths that wait ----------

  lemma Unread(s: string, e: Event)
    requires ReadItem(s, 0, 0).Unterminated?
    ensures Meaning("%" + s, 0, 0, e) == Rejected
  {
    hide ReadItem;
    assert ("%" + s)[1..] == s && ("%" + s)[0] == '%';
  }

  /** A width without a digit, or one that does not fit an `int`, rejects the pattern. */
  lemma BadWidthIsRejected(minus: bool, ds: string, rest: string, e: Event)
    requires Digits(ds) && NoDigitAhead(rest) && (ds == "" ==> minus)
    requires ds == "" || Value(ds) > if minus then 0x8000_0000 else 0x7fff_ffff
    ensures Meaning("%" + ((if minus then "-" else "") + (ds + rest)), 0, 0, e) == Rejected
  {
    hide ReadInt, Meaning, Value;
    var sign := if minus then "-" else "";
    var s := sign + (ds + rest);
    IntIsRead("", sign, ds, rest);
    NothingInFront(s);
    assert s[0] == if minus then '-' else ds[0];
    Unread(s, e);
  }

  /** So does a cut without a digit, or one that does not fit a `size_t`. */
  lemma BadCutIsRejected(ds: string, rest: string, e: Event)
    requires Digits(ds) && NoDigitAhead(rest) && (ds == "" || Value(ds) > 0xffff_ffff_ffff_ffff)
    requires ds == "" ==> rest == "" || (!IsSpace(rest[0]) && rest[0] != '-' && rest[0] != '+')
    ensures Meaning("%" + ("." + (ds + rest)), 0, 0, e) == Rejected
  {
    hide ReadSize, Meaning, Value;
    var t := ds + rest;
    SizeIsRead("", "", ds, rest);
    NothingInFront(t);
    TailOf(".", t);
    Unread("." + t, e);
  }

  lemma Passed(s: string, item: Item, e: Event)
    requires item.Item? && ReadItem(s, 0, 0) == item && item.letter in {'%', 'n'}
    ensures Meaning("%" + s, 0, 0, e)
            == Then(Text(if item.letter == 'n' then "\n" else "%"), Meaning(item.rest, item.minWidth, item.maxWidth, e))
  {
    hide ReadItem;
    assert ("%" + s)[0] == '%' && ("%" + s)[1..] == s;
  }

  lemma MessageAt(minWidth: int, maxWidth: nat, e: Event)
    ensures Meaning("%m", minWidth, maxWidth, e) == Text(Fit(e.message, Abs(minWidth), maxWidth, minWidth < 0))
  {
    hide Fit;
    assert "%m"[1..] == "m" && "m"[1..] == "";
    assert ReadItem("m", minWidth, maxWidth) == Item('m', "", minWidth, maxWidth, "");
    var t := Fit(e.message, Abs(minWidth), maxWidth, minWidth < 0);
    assert t + "" == t;
  }

  /** Widths in front of `%%` or `%n` wait for the next field. */
  lemma WidthsWait(w: Width, c: Cut, letter: char, e: Event)
    requires Fits(w, c) && letter in {'%', 'n'}
    ensures var o := Meaning("%" + (WidthText(w) + (CutText(c) + ([letter] + "%m"))), 0, 0, e);
            o.Text? && o.text != "" && o.text[0] == (if letter == 'n' then '\n' else '%') && Shown(o.text[1..], e.message, w, c)
  {
    hide Meaning, ReadItem, Fit, Shown, WidthText, CutText;
    SpecifierRead(w, c, letter, "%m");
    Passed(WidthText(w) + (CutText(c) + ([letter] + "%m")), Item(letter, "", MinWidth(w), MaxWidth(c), "%m"), e);
    MessageAt(MinWidth(w), MaxWidth(c), e);
    FitShows(e.message, w, c);
    var t := Fit(e.message, Abs(MinWidth(w)), MaxWidth(c), MinWidth(w) < 0);
    assert ("%" + t)[1..] == t && ("\n" + t)[1..] == t;
  }
}
