/** White space, names, entities and text: the leaves of the TinyXML parser and of its printer. */
module XmlText {
  import opened Chars
  import opened Sequences
  import opened XmlChars

  // ---------- white space ----------

  /** The three byte sequences the UTF-8 scanner skips: EF BB BF, EF BF BE and EF BF BF. */
  predicate IsSkipMark(s: string) {
    |s| >= 3 && s[0] as int == 0xEF
    && ((s[1] as int == 0xBB && s[2] as int == 0xBF)
        || (s[1] as int == 0xBF && (s[2] as int == 0xBE || s[2] as int == 0xBF)))
  }

  function SkipWs(enc: Encoding, s: string): (r: string)
    ensures |r| <= |s|
  {
    if s == "" then s
    else if enc.Utf8? && IsSkipMark(s) then SkipWs(enc, s[3..])
    else if IsWhiteSpace(s[0]) then SkipWs(enc, s[1..])
    else s
  }

  function SkipSpace(enc: Encoding, p: Ptr): Ptr {
    if AtEnd(p) then Null else To(SkipWs(enc, p.s))
  }

  method SkipWhiteSpace(p: Ptr, enc: Encoding) returns (q: Ptr)
    ensures q == SkipSpace(enc, p)
  {
    if AtEnd(p) {
      return Null;
    }
    var s := p.s;
    if enc == Utf8 {
      while s != ""
        invariant SkipWs(enc, s) == SkipWs(enc, p.s)
        decreases |s|
      {
        if IsSkipMark(s) {
          s := s[3..];
          continue;
        }
        if IsWhiteSpace(s[0]) {
          s := s[1..];
        } else {
          break;
        }
      }
    } else {
      while s != "" && IsWhiteSpace(s[0])
        invariant SkipWs(enc, s) == SkipWs(enc, p.s)
        decreases |s|
      {
        s := s[1..];
      }
    }
    q := To(s);
  }

  // ---------- names ----------

  function NameLength(s: string): (n: nat)
    ensures n <= |s|
    ensures forall k :: 0 <= k < n ==> IsNameChar(s[k])
    ensures n < |s| ==> !IsNameChar(s[n])
  {
    if s != "" && IsNameChar(s[0]) then 1 + NameLength(s[1..]) else 0
  }

  predicate StartsName(s: string) {
    s != "" && (IsAlpha(s[0]) || s[0] == '_')
  }

  function NameOf(p: Ptr): (string, Ptr) {
    if p.To? && StartsName(p.s) then
      var n := NameLength(p.s);
      (p.s[..n], To(p.s[n..]))
    else ("", Null)
  }

  method ReadName(p: Ptr) returns (name: string, q: Ptr)
    ensures (name, q) == NameOf(p)
  {
    name := "";
    if p.To? && StartsName(p.s) {
      var n := 0;
      while n < |p.s| && IsNameChar(p.s[n])
        invariant 0 <= n <= |p.s|
        invariant NameLength(p.s) == n + NameLength(p.s[n..])
      {
        assert p.s[n..][1..] == p.s[n + 1..];
        n := n + 1;
      }
      return p.s[..n], To(p.s[n..]);
    }
    return "", Null;
  }

  // ---------- entities ----------

  const ULONG: int := 0x1_0000_0000_0000_0000
  const UINT: int := 0x1_0000_0000

  /** `utf8ByteTable`: how many bytes the sequence with this first byte has. */
  function Utf8Length(c: char): (n: nat)
    ensures 1 <= n <= 4
  {
    var b := c as int;
    if 0xC2 <= b <= 0xDF then 2
    else if 0xE0 <= b <= 0xEF then 3
    else if 0xF0 <= b <= 0xF4 then 4
    else 1
  }

  /** The continuation byte `(input | 0x80) & 0xBF`. */
  function Tail(u: nat): char {
    (0x80 + u % 64) as char
  }

  function Utf8Bytes(u: nat): (b: string)
    ensures |b| <= 4
  {
    if u < 0x80 then [u as char]
    else if u < 0x800 then [(0xC0 + u / 64) as char, Tail(u)]
    else if u < 0x10000 then [(0xE0 + u / 64 / 64) as char, Tail(u / 64), Tail(u)]
    else if u < 0x200000 then
      [(0xF0 + u / 64 / 64 / 64) as char, Tail(u / 64 / 64), Tail(u / 64), Tail(u)]
    else []
  }

  method ConvertUTF32ToUTF8(input: nat) returns (output: string)
    ensures output == Utf8Bytes(input)
  {
    var length := if input < 0x80 then 1 else if input < 0x800 then 2
                  else if input < 0x10000 then 3 else if input < 0x200000 then 4 else 0;
    if length == 0 {
      return "";
    }
    var u := input;
    output := "";
    var k := length;
    while k > 1
      invariant 1 <= k <= length
      invariant |output| == length - k
      invariant k == length ==> u == input
      invariant k == length - 1 ==> u == input / 64 && output == [Tail(input)]
      invariant k == length - 2 ==> u == input / 64 / 64 && output == [Tail(input / 64), Tail(input)]
      invariant k == length - 3 ==> u == input / 64 / 64 / 64
                                    && output == [Tail(input / 64 / 64), Tail(input / 64), Tail(input)]
    {
      output := [Tail(u)] + output;
      u := u / 64;
      k := k - 1;
    }
    var mark := if length == 1 then 0 else if length == 2 then 0xC0 else if length == 3 then 0xE0 else 0xF0;
    output := [(mark + u) as char] + output;
  }

  function IndexFrom(s: string, i: nat, c: char): (k: nat)
    requires i <= |s|
    ensures i <= k <= |s|
    ensures k < |s| ==> s[k] == c
    ensures forall j :: i <= j < k ==> s[j] != c
    decreases |s| - i
  {
    if i == |s| || s[i] == c then i else IndexFrom(s, i + 1, c)
  }

  method StrChr(s: string, i: nat, c: char) returns (k: nat)
    requires i <= |s|
    ensures k == IndexFrom(s, i, c)
  {
    k := i;
    while k < |s| && s[k] != c
      invariant i <= k <= |s|
      invariant IndexFrom(s, i, c) == IndexFrom(s, k, c)
    {
      k := k + 1;
    }
  }

  function DigitValue(hex: bool, c: char): int {
    if '0' <= c <= '9' then c as int - '0' as int
    else if hex && 'a' <= c <= 'f' then c as int - 'a' as int + 10
    else if hex && 'A' <= c <= 'F' then c as int - 'A' as int + 10
    else -1
  }

  /** `ucs += mult * digit` with a 32-bit product and a 64-bit sum. */
  function AddDigit(ucs: nat, mult: nat, digit: nat): nat {
    (ucs + mult * digit % UINT) % ULONG
  }

  function NextMult(hex: bool, mult: nat): nat {
    mult * (if hex then 16 else 10) % UINT
  }

  /** The value of the digits of a character reference, read backwards from `q` to the marker
      (`x` or `#`), or -1 for a character that is no digit.  `mult` is a 32-bit unsigned. */
  function RefValue(hex: bool, s: string, q: nat, ucs: nat, mult: nat): int
    requires q < |s|
    requires exists k :: 0 <= k <= q && s[k] == (if hex then 'x' else '#')
  {
    if s[q] == (if hex then 'x' else '#') then ucs
    else
      var d := DigitValue(hex, s[q]);
      if d < 0 then -1
      else
        assert q > 0;
        RefValue(hex, s, q - 1, AddDigit(ucs, mult, d), NextMult(hex, mult))
  }

  function RefBytes(enc: Encoding, ucs: nat): string {
    if enc.Utf8? then Utf8Bytes(ucs) else [(ucs % 256) as char]
  }

  /** A reference `&#...;` whose digits start at `start`. */
  function NumericRef(enc: Encoding, s: string, hex: bool): (r: (string, Ptr))
    requires |s| >= 3 && s[0] == '&' && s[1] == '#' && (hex <==> s[2] == 'x')
    ensures r.1.To? ==> |r.1.s| < |s|
  {
    var start := if hex then 3 else 2;
    if |s| == start then ("", Null)
    else
      var e := IndexFrom(s, start, ';');
      if e == |s| then ("", Null)
      else
        assert s[start - 1] == (if hex then 'x' else '#');
        var ucs := RefValue(hex, s, e - 1, 0, 1);
        if ucs < 0 then ("", Null) else (RefBytes(enc, ucs), To(s[e + 1..]))
  }

  /** The `entity` table. */
  function EntityText(k: nat): string
    requires k < 5
  {
    ["&amp;", "&lt;", "&gt;", "&quot;", "&apos;"][k]
  }

  function EntityChar(k: nat): char
    requires k < 5
  {
    ['&', '<', '>', QUOTE, APOS][k]
  }

  function NamedEntity(s: string, k: nat): (r: (string, Ptr))
    requires s != "" && k <= 5
    ensures r.1.To? && |r.1.s| < |s|
    decreases 5 - k
  {
    if k == 5 then ("", To(s[1..]))
    else if HasPrefix(s, EntityText(k)) then ([EntityChar(k)], To(s[|EntityText(k)|..]))
    else NamedEntity(s, k + 1)
  }

  function Entity(enc: Encoding, s: string): (r: (string, Ptr))
    requires s != "" && s[0] == '&'
    ensures r.1.To? ==> |r.1.s| < |s|
  {
    if |s| >= 3 && s[1] == '#' then NumericRef(enc, s, s[2] == 'x') else NamedEntity(s, 0)
  }

  method GetEntity(s: string, enc: Encoding) returns (value: string, q: Ptr)
    requires s != "" && s[0] == '&'
    ensures (value, q) == Entity(enc, s)
  {
    if |s| >= 3 && s[1] == '#' {
      var hex := s[2] == 'x';
      var start := if hex then 3 else 2;
      if |s| == start {
        return "", Null;
      }
      var e := StrChr(s, start, ';');
      if e == |s| {
        return "", Null;
      }
      var marker := if hex then 'x' else '#';
      assert s[start - 1] == marker;
      var k, ucs, mult := e - 1, 0, 1;
      while s[k] != marker
        invariant start - 1 <= k < e && 0 <= ucs && 0 <= mult
        invariant RefValue(hex, s, e - 1, 0, 1) == RefValue(hex, s, k, ucs, mult)
        decreases k
      {
        var d := DigitValue(hex, s[k]);
        if d < 0 {
          return "", Null;
        }
        ucs := AddDigit(ucs, mult, d);
        mult := NextMult(hex, mult);
        k := k - 1;
      }
      if enc == Utf8 {
        value := ConvertUTF32ToUTF8(ucs);
      } else {
        value := [(ucs % 256) as char];
      }
      return value, To(s[e + 1..]);
    }
    var i := 0;
    while i < 5
      invariant 0 <= i <= 5
      invariant NamedEntity(s, 0) == NamedEntity(s, i)
    {
      if HasPrefix(s, EntityText(i)) {
        return [EntityChar(i)], To(s[|EntityText(i)|..]);
      }
      i := i + 1;
    }
    return "", To(s[1..]);
  }

  // ---------- characters and text ----------

  /** `GetChar`: the bytes of the next character and the pointer behind it. A sequence cut short by
      the terminator is filled up with the zero bytes of the character buffer. */
  function Char(enc: Encoding, s: string): (r: (string, Ptr))
    requires s != ""
    ensures r.1.To? ==> |r.1.s| < |s|
  {
    var n := if enc.Utf8? then Utf8Length(s[0]) else 1;
    if n > 1 then
      (if n <= |s| then s[..n] else s + seq(n - |s|, _ => 0 as char), To(Advance(s, n)))
    else if s[0] == '&' then Entity(enc, s)
    else ([s[0]], To(s[1..]))
  }

  method GetChar(s: string, enc: Encoding) returns (value: string, q: Ptr)
    requires s != ""
    ensures (value, q) == Char(enc, s)
  {
    var n := if enc == Utf8 then Utf8Length(s[0]) else 1;
    if n == 1 {
      if s[0] == '&' {
        value, q := GetEntity(s, enc);
        return;
      }
      return [s[0]], To(s[1..]);
    }
    value := seq(n, _ => 0 as char);
    var i := 0;
    while i < |s| && i < n
      invariant 0 <= i <= n && i <= |s|
      invariant value == s[..i] + seq(n - i, _ => 0 as char)
    {
      value := value[i := s[i]];
      i := i + 1;
    }
    assert if n <= |s| then value == s[..n] else value == s + seq(n - |s|, _ => 0 as char);
    q := To(Advance(s, n));
  }

  /** A piece of text read before the rest `r`. */
  function Glue(piece: string, r: (string, Ptr)): (string, Ptr) {
    (piece + r.0, r.1)
  }

  lemma GlueTwice(a: string, b: string, r: (string, Ptr))
    ensures Glue(a, Glue(b, r)) == Glue(a + b, r)
    ensures Glue("", r) == r
  {
    assert a + (b + r.0) == (a + b) + r.0;
    assert "" + r.0 == r.0;
  }

  /** Text up to `end` with every byte kept: the decoded text and where reading stopped. */
  function RawText(enc: Encoding, s: string, end: string): (r: (string, Ptr))
    ensures r.1.To? ==> |r.1.s| <= |s|
    decreases |s|
  {
    if s == "" || HasPrefix(s, end) then ("", To(s))
    else
      var (v, q) := Char(enc, s);
      if q.Null? then (v, Null) else Glue(v, RawText(enc, q.s, end))
  }

  /** Text up to `end` with runs of white space condensed; `white` says that a run is pending. */
  function CondensedText(enc: Encoding, s: string, end: string, white: bool): (r: (string, Ptr))
    ensures r.1.To? ==> |r.1.s| <= |s|
    decreases |s|
  {
    if s == "" || HasPrefix(s, end) then ("", To(s))
    else if IsWhiteSpace(s[0]) then CondensedText(enc, s[1..], end, true)
    else
      var (v, q) := Char(enc, s);
      var piece := if white then " " + v else v;
      if q.Null? then (piece, Null) else Glue(piece, CondensedText(enc, q.s, end, false))
  }

  function TextOf(enc: Encoding, p: Ptr, trim: bool, end: string): (r: (string, Ptr))
    ensures r.1.To? ==> p.To? && |r.1.s| <= |p.s|
  {
    if trim then
      var q := SkipSpace(enc, p);
      if q.Null? then ("", Null) else CondensedText(enc, q.s, end, false)
    else if p.Null? then ("", Null)
    else RawText(enc, p.s, end)
  }

  /** The loop of `ReadText` that keeps white space. */
  method ReadRawText(p: string, end: string, enc: Encoding) returns (text: string, stop: Ptr)
    requires end != ""
    ensures (text, stop) == RawText(enc, p, end)
  {
    text, stop := "", To(p);
    ghost var want := RawText(enc, p, end);
    GlueTwice("", "", want);
    while stop.To? && stop.s != ""
      invariant want == if stop.Null? then (text, Null) else Glue(text, RawText(enc, stop.s, end))
      decreases stop.To?, if stop.To? then |stop.s| else 0
    {
      var atEnd := StringEqual(stop.s, end, false);
      if atEnd {
        break;
      }
      ghost var before := text;
      var v;
      v, stop := GetChar(stop.s, enc);
      text := text + v;
      if stop.To? {
        GlueTwice(before, v, RawText(enc, stop.s, end));
      }
    }
    assert text + "" == text;
  }

  /** The loop of `ReadText` that condenses white space. */
  method ReadCondensedText(p: string, end: string, enc: Encoding) returns (text: string, stop: Ptr)
    requires end != ""
    ensures (text, stop) == CondensedText(enc, p, end, false)
  {
    text, stop := "", To(p);
    var white := false;
    ghost var want := CondensedText(enc, p, end, false);
    GlueTwice("", "", want);
    while stop.To? && stop.s != ""
      invariant want == if stop.Null? then (text, Null) else Glue(text, CondensedText(enc, stop.s, end, white))
      decreases stop.To?, if stop.To? then |stop.s| else 0
    {
      var atEnd := StringEqual(stop.s, end, false);
      if atEnd {
        break;
      }
      if IsWhiteSpace(stop.s[0]) {
        white := true;
        stop := To(stop.s[1..]);
      } else {
        ghost var before, gap := text, white;
        if white {
          text := text + " ";
          white := false;
        }
        var v;
        v, stop := GetChar(stop.s, enc);
        text := text + v;
        ghost var piece := if gap then " " + v else v;
        assert text == before + piece;
        if stop.To? {
          GlueTwice(before, piece, CondensedText(enc, stop.s, end, false));
        }
      }
    }
    assert text + "" == text;
  }

  /** `ReadText` before it steps over the end tag: `stop` is where that tag, or the terminator, is. */
  method ReadText(p: Ptr, trim: bool, end: string, enc: Encoding) returns (text: string, stop: Ptr)
    requires end != ""
    ensures (text, stop) == TextOf(enc, p, trim, end)
  {
    text, stop := "", p;
    if trim {
      stop := SkipWhiteSpace(p, enc);
      if stop.To? {
        text, stop := ReadCondensedText(stop.s, end, enc);
      }
    } else if p.To? {
      text, stop := ReadRawText(p.s, end, enc);
    }
  }

  // ---------- EncodeString ----------

  /** `&#x` with at least one character before the last: copied through unescaped. */
  predicate StartsHexRef(s: string) {
    |s| >= 3 && s[0] == '&' && s[1] == '#' && s[2] == 'x'
  }

  /** How many characters the copy takes: up to the next `;`, but never the last character. */
  function PassLength(s: string): (n: nat)
    requires StartsHexRef(s)
    ensures 2 <= n < |s|
  {
    var k := IndexFrom(s, 1, ';');
    if k == |s| then |s| - 1 else k
  }

  function HexDigit(d: nat): char
    requires d < 16
  {
    if d < 10 then ('0' as int + d) as char else ('A' as int + d - 10) as char
  }

  function EncodeChar(c: char): (e: string)
    ensures e != ""
  {
    if c == '&' then "&amp;"
    else if c == '<' then "&lt;"
    else if c == '>' then "&gt;"
    else if c == QUOTE then "&quot;"
    else if c == APOS then "&apos;"
    else if c as int < 32 then "&#x" + [HexDigit(c as int / 16), HexDigit(c as int % 16)] + ";"
    else [c]
  }

  function Encode(s: string): string
    decreases |s|
  {
    if s == "" then ""
    else if StartsHexRef(s) then s[..PassLength(s)] + Encode(s[PassLength(s)..])
    else EncodeChar(s[0]) + Encode(s[1..])
  }

  /** The inner loop of `EncodeString`: copies a reference and returns where it stopped. */
  method CopyReference(str: string, start: nat) returns (copied: string, i: nat)
    requires start <= |str| && StartsHexRef(str[start..])
    ensures i == start + PassLength(str[start..]) && copied == str[start..i]
  {
    ghost var rest := str[start..];
    copied, i := "", start;
    while i < |str| - 1
      invariant start <= i < |str|
      invariant forall j :: 1 <= j <= i - start ==> rest[j] != ';'
      invariant copied == str[start..i]
    {
      copied := copied + [str[i]];
      i := i + 1;
      assert str[i] == rest[i - start];
      if str[i] == ';' {
        break;
      }
    }
  }

  /** The branches of `EncodeString` that handle one character. */
  method EscapeChar(c: char) returns (e: string)
    ensures e == EncodeChar(c)
  {
    if c == '&' {
      e := EntityText(0);
    } else if c == '<' {
      e := EntityText(1);
    } else if c == '>' {
      e := EntityText(2);
    } else if c == QUOTE {
      e := EntityText(3);
    } else if c == APOS {
      e := EntityText(4);
    } else if c as int < 32 {
      e := "&#x" + [HexDigit(c as int / 16), HexDigit(c as int % 16)] + ";";
    } else {
      e := [c];
    }
  }

  lemma HexRefAt(str: string, i: nat)
    requires i < |str|
    ensures StartsHexRef(str[i..]) <==> i + 2 < |str| && str[i] == '&' && str[i + 1] == '#' && str[i + 2] == 'x'
  {
  }

  lemma EncodeNothing(s: string)
    ensures s + Encode("") == s
  {
  }

  lemma EncodeStep(s: string, n: nat)
    requires s != "" && n == if StartsHexRef(s) then PassLength(s) else 1
    ensures Encode(s) == (if StartsHexRef(s) then s[..n] else EncodeChar(s[0])) + Encode(s[n..])
  {
    hide EncodeChar, PassLength;
  }

  method EncodeString(str: string) returns (out: string)
    ensures out == Encode(str)
  {
    hide Encode, EncodeChar, PassLength, StartsHexRef;
    out := "";
    var i := 0;
    assert str[0..] == str && "" + Encode(str) == Encode(str);
    while i < |str|
      invariant 0 <= i <= |str|
      invariant Encode(str) == out + Encode(str[i..])
    {
      ghost var was, start, rest := out, i, str[i..];
      HexRefAt(str, i);
      var piece;
      if str[i] == '&' && i < |str| - 2 && str[i + 1] == '#' && str[i + 2] == 'x' {
        piece, i := CopyReference(str, i);
      } else {
        piece := EscapeChar(str[i]);
        i := i + 1;
      }
      EncodeStep(rest, i - start);
      assert rest[i - start..] == str[i..] && rest[..i - start] == str[start..i];
      out := out + piece;
      Regroup(was, piece, Encode(str[i..]));
    }
    assert str[i..] == "" && out + Encode("") == out by {
      EncodeNothing(out);
    }
  }
}
