/** What TinyXML's reader makes of what its printer escaped: `EncodeString` followed by `ReadText`. */
module XmlTextRoundTrip {
  import opened Chars
  import opened Sequences
  import opened XmlChars
  import opened XmlText

  /** The characters that end a text: either quote, or the `<` of the next tag. */
  predicate IsTextEnd(q: char) {
    q == QUOTE || q == APOS || q == '<'
  }

  /** Nowhere does a copied-through reference start. */
  predicate NoHexRef(s: string) {
    forall i {:trigger s[i]} :: 0 <= i < |s| - 2 ==> !(s[i] == '&' && s[i + 1] == '#' && s[i + 2] == 'x')
  }

  /** In UTF-8 every leading byte is followed by all its continuation bytes. */
  predicate WellFormed(enc: Encoding, s: string)
    decreases |s|
  {
    !enc.Utf8? || s == "" ||
    (var n := Utf8Length(s[0]);
     n <= |s| && (forall k :: 1 <= k < n ==> s[k] as int >= 0x80) && WellFormed(enc, s[n..]))
  }

  /** How many bytes of `s` the reader takes at once. */
  function Step(enc: Encoding, s: string): (n: nat)
    requires s != "" && WellFormed(enc, s)
    ensures 1 <= n <= |s|
  {
    if enc.Utf8? then Utf8Length(s[0]) else 1
  }

  lemma NoHexRefTail(s: string, n: nat)
    requires n <= |s| && NoHexRef(s)
    ensures NoHexRef(s[n..])
  {
    var t := s[n..];
    forall i | 0 <= i < |t| - 2
      ensures !(t[i] == '&' && t[i + 1] == '#' && t[i + 2] == 'x')
    {
      assert t[i] == s[n + i];
    }
  }

  // ---------- one character ----------

  /** The value of a two-digit reference, read backwards. */
  lemma TwoDigits(e: string, m: nat, c: char)
    requires c as int < 32 && 3 <= m < |e| && e[m - 3] == 'x'
    requires e[m - 2] == HexDigit(c as int / 16) && e[m - 1] == HexDigit(c as int % 16)
    ensures RefValue(true, e, m - 1, 0, 1) == c as int
  {
    hide RefValue;
    var h, l := c as int / 16, c as int % 16;
    assert DigitValue(true, e[m - 2]) == h && DigitValue(true, e[m - 1]) == l;
    RefStep(e, m - 1, 0, 1);
    RefStep(e, m - 2, l, 16);
    RefStep(e, m - 3, l + 16 * h, 256);
  }

  lemma RefStep(e: string, q: nat, ucs: nat, mult: nat)
    requires q < |e| && (exists k :: 0 <= k <= q && e[k] == 'x')
    requires ucs < 256 && (mult == 1 || mult == 16 || mult == 256)
    ensures RefValue(true, e, q, ucs, mult) ==
            if e[q] == 'x' then ucs
            else if DigitValue(true, e[q]) < 0 then -1
            else RefValue(true, e, q - 1, ucs + mult * DigitValue(true, e[q]), mult * 16)
  {
    hide AddDigit, NextMult;
    if e[q] != 'x' && DigitValue(true, e[q]) >= 0 {
      SmallDigit(ucs, mult, DigitValue(true, e[q]));
    }
  }

  lemma SmallDigit(ucs: nat, mult: nat, d: nat)
    requires ucs < 256 && (mult == 1 || mult == 16 || mult == 256) && d < 16
    ensures AddDigit(ucs, mult, d) == ucs + mult * d && NextMult(true, mult) == mult * 16
  {
    var more := mult * d;
    assert 0 <= more < 4096;
    SmallMod(more, UINT);
    SmallMod(ucs + more, ULONG);
    SmallMod(mult * 16, UINT);
  }

  lemma SmallMod(n: nat, m: nat)
    requires n < m
    ensures n % m == n
  {
  }

  lemma IndexFromIs(s: string, i: nat, c: char, k: nat)
    requires i <= k < |s| && s[k] == c && forall j :: i <= j < k ==> s[j] != c
    ensures IndexFrom(s, i, c) == k
  {
  }

  /** A hexadecimal reference whose semicolon is at `m`. */
  lemma HexRefIs(enc: Encoding, e: string, m: nat)
    requires 3 <= m < |e| && e[0] == '&' && e[1] == '#' && e[2] == 'x'
    requires e[m] == ';' && forall j :: 3 <= j < m ==> e[j] != ';'
    ensures var ucs := RefValue(true, e, m - 1, 0, 1);
            Char(enc, e) == if ucs < 0 then ("", Null) else (RefBytes(enc, ucs), To(e[m + 1..]))
  {
    hide RefValue, RefBytes, IndexFrom;
    IndexFromIs(e, 3, ';', m);
  }

  lemma EscapedControl(c: char)
    requires c as int < 32
    ensures EncodeChar(c) == ['&', '#', 'x', HexDigit(c as int / 16), HexDigit(c as int % 16), ';']
    ensures HexDigit(c as int / 16) != ';' && HexDigit(c as int % 16) != ';'
  {
  }

  lemma ControlBytes(enc: Encoding, c: char)
    requires c as int < 32
    ensures RefBytes(enc, c as int) == [c]
  {
  }

  lemma ControlRef(enc: Encoding, c: char, t: string)
    requires c as int < 32
    ensures Char(enc, EncodeChar(c) + t) == ([c], To(t))
  {
    hide *;
    var h, l := HexDigit(c as int / 16), HexDigit(c as int % 16);
    var e := ['&', '#', 'x', h, l, ';'] + t;
    EscapedControl(c);
    HexRefIs(enc, e, 5);
    TwoDigits(e, 5, c);
    ControlBytes(enc, c);
    assert e[6..] == t;
  }

  lemma EntityRef(enc: Encoding, k: nat, t: string)
    requires k < 5
    ensures Char(enc, EntityText(k) + t) == ([EntityChar(k)], To(t))
  {
    var e := EntityText(k) + t;
    assert e[0] == '&' && e[1] != '#' && e[1] == EntityText(k)[1] && e[2] == EntityText(k)[2];
    var i := k;
    assert NamedEntity(e, i) == ([EntityChar(k)], To(t));
    while i > 0
      invariant 0 <= i <= k
      invariant NamedEntity(e, i) == ([EntityChar(k)], To(t))
    {
      i := i - 1;
      assert EntityText(i)[1] != e[1] || EntityText(i)[2] != e[2];
    }
  }

  /** The reader undoes the escaping of one single-byte character. */
  lemma CharOfEncodeChar(enc: Encoding, c: char, t: string)
    requires enc.Utf8? ==> Utf8Length(c) == 1
    ensures Char(enc, EncodeChar(c) + t) == ([c], To(t))
  {
    if c == '&' {
      EntityRef(enc, 0, t);
    } else if c == '<' {
      EntityRef(enc, 1, t);
    } else if c == '>' {
      EntityRef(enc, 2, t);
    } else if c == QUOTE {
      EntityRef(enc, 3, t);
    } else if c == APOS {
      EntityRef(enc, 4, t);
    } else if c as int < 32 {
      ControlRef(enc, c, t);
    } else {
      assert ([c] + t)[1..] == t;
    }
  }

  lemma EncodeEmpty(t: string)
    ensures Encode("") + t == t
  {
  }

  lemma EncodePlain(s: string)
    requires s != "" && !StartsHexRef(s)
    ensures Encode(s) == EncodeChar(s[0]) + Encode(s[1..])
  {
    hide EncodeChar;
  }

  lemma EncodeCharHigh(c: char)
    requires c as int >= 0x80
    ensures EncodeChar(c) == [c]
  {
  }

  /** Bytes of 0x80 and above are printed as they are. */
  lemma {:induction false} EncodeHigh(s: string, n: nat)
    requires n <= |s| && forall k :: 0 <= k < n ==> s[k] as int >= 0x80
    ensures Encode(s) == s[..n] + Encode(s[n..])
  {
    if n == 0 {
      assert s[n..] == s;
    } else {
      hide Encode;
      var t := s[1..];
      EncodeHigh(t, n - 1);
      assert t[n - 1..] == s[n..];
      assert s[..n] == [s[0]] + t[..n - 1];
      EncodePlain(s);
      EncodeCharHigh(s[0]);
      Regroup([s[0]], t[..n - 1], Encode(s[n..]));
    }
  }

  /** The escaped form of the next character the reader takes. */
  function Head(enc: Encoding, s: string): string
    requires s != "" && WellFormed(enc, s)
  {
    if Step(enc, s) == 1 then EncodeChar(s[0]) else s[..Step(enc, s)]
  }

  lemma EncodedHead(enc: Encoding, s: string)
    requires s != "" && WellFormed(enc, s) && !StartsHexRef(s)
    ensures Encode(s) == Head(enc, s) + Encode(s[Step(enc, s)..])
    ensures var h := Head(enc, s);
            h != "" && !IsTextEnd(h[0]) && (IsWhiteSpace(h[0]) <==> s[0] == ' ') && (s[0] == ' ' ==> h == " ")
  {
    var n := Step(enc, s);
    if n == 1 {
      EncodePlain(s);
    } else {
      EncodeHigh(s, n);
    }
  }

  lemma CharOfHead(enc: Encoding, s: string, u: string)
    requires s != "" && WellFormed(enc, s)
    ensures Char(enc, Head(enc, s) + u) == (s[..Step(enc, s)], To(u))
  {
    var n := Step(enc, s);
    if n == 1 {
      CharOfEncodeChar(enc, s[0], u);
      assert s[..1] == [s[0]];
    } else {
      assert (s[..n] + u)[n..] == u && (s[..n] + u)[..n] == s[..n];
    }
  }

  /** One step of the reader over the escaped form of `s`, followed by `t`. */
  lemma EncodedStep(enc: Encoding, s: string, t: string)
    requires s != "" && WellFormed(enc, s) && !StartsHexRef(s)
    ensures var n := Step(enc, s); var h := Head(enc, s); var u := Encode(s[n..]) + t;
            WellFormed(enc, s[n..])
            && Encode(s) + t == h + u && h != ""
            && Char(enc, h + u) == (s[..n], To(u))
            && !IsTextEnd(h[0]) && (IsWhiteSpace(h[0]) <==> s[0] == ' ') && (s[0] == ' ' ==> h == " ")
  {
    hide Encode, Char, Head;
    var n := Step(enc, s);
    EncodedHead(enc, s);
    Regroup(Head(enc, s), Encode(s[n..]), t);
    CharOfHead(enc, s, Encode(s[n..]) + t);
  }

  // ---------- white space kept ----------

  lemma RawUnfold(enc: Encoding, e: string, q: char)
    ensures e == "" || e[0] == q ==> RawText(enc, e, [q]) == ("", To(e))
    ensures e != "" && e[0] != q ==>
            RawText(enc, e, [q]) == var (v, p) := Char(enc, e);
                                    if p.Null? then (v, Null) else Glue(v, RawText(enc, p.s, [q]))
  {
  }

  lemma RawStep(enc: Encoding, s: string, tail: string)
    requires tail != "" && IsTextEnd(tail[0]) && s != "" && WellFormed(enc, s) && !StartsHexRef(s)
    ensures var n := Step(enc, s);
            WellFormed(enc, s[n..])
            && RawText(enc, Encode(s) + tail, [tail[0]])
               == Glue(s[..n], RawText(enc, Encode(s[n..]) + tail, [tail[0]]))
  {
    hide Encode, Char, Head, RawText;
    EncodedStep(enc, s, tail);
    assert (Encode(s) + tail)[0] == Head(enc, s)[0];
    RawUnfold(enc, Encode(s) + tail, tail[0]);
  }

  /** Reading back escaped text gives the text and stops at the end character. */
  lemma {:induction false} RawRoundTrip(enc: Encoding, s: string, tail: string)
    requires tail != "" && IsTextEnd(tail[0]) && WellFormed(enc, s) && NoHexRef(s)
    ensures RawText(enc, Encode(s) + tail, [tail[0]]) == (s, To(tail))
    decreases |s|
  {
    hide Encode, RawText;
    if s == "" {
      assert Encode(s) + tail == tail by { EncodeEmpty(tail); }
      RawUnfold(enc, tail, tail[0]);
    } else {
      var n := Step(enc, s);
      RawStep(enc, s, tail);
      NoHexRefTail(s, n);
      RawRoundTrip(enc, s[n..], tail);
      assert s[..n] + s[n..] == s;
    }
  }

  /** An ASCII byte ends a character, so what follows it is well formed too. */
  lemma {:induction false} WellFormedAfterAscii(enc: Encoding, s: string, j: nat)
    requires j < |s| && s[j] as int < 0x80 && WellFormed(enc, s)
    ensures WellFormed(enc, s[j + 1..])
    decreases |s|
  {
    if enc.Utf8? && j > 0 {
      var n := Utf8Length(s[0]);
      WellFormedAfterAscii(enc, s[n..], j - n);
      assert s[n..][j - n + 1..] == s[j + 1..];
    }
  }

  /** A copied-through reference that is ended by a semicolon loses bytes, if it is read at all. */
  lemma RefWithSemicolonShrinks(enc: Encoding, s: string, k: nat, t: string)
    requires StartsHexRef(s) && k == PassLength(s) && s[k] == ';'
    ensures var r := Char(enc, s[..k + 1] + t);
            r.1.Null? || (r.1 == To(t) && |r.0| <= k)
  {
    var e := s[..k + 1] + t;
    assert k >= 3;
    assert forall j :: 0 <= j <= k ==> e[j] == s[j];
    IndexFromIs(e, 3, ';', k);
    assert e[k + 1..] == t;
    if k == 3 {
      assert RefValue(true, e, 2, 0, 1) == 0;
    }
  }

  /** One that runs up to a last character that is no escape is read past the end of the text. */
  lemma RefToPlainCharOverruns(enc: Encoding, s: string, tail: string)
    requires StartsHexRef(s) && PassLength(s) == |s| - 1 && s[|s| - 1] != ';'
    requires tail != "" && IsTextEnd(tail[0])
    ensures var r := Char(enc, s + tail); r.1.To? ==> |r.1.s| < |tail|
  {
    var e := s + tail;
    assert forall j :: 1 <= j < |s| ==> s[j] != ';';
    assert forall j :: 0 <= j < |s| ==> e[j] == s[j];
    assert e[|s|] == tail[0];
    assert IndexFrom(e, 3, ';') > |s|;
  }

  lemma EscapeShape(c: char)
    requires |EncodeChar(c)| > 1
    ensures var code := EncodeChar(c);
            |code| >= 4 && code[|code| - 1] == ';' && (forall j :: 0 <= j < |code| - 1 ==> code[j] != ';')
    ensures var code := EncodeChar(c);
            if c as int < 32 then
              |code| == 6 && code[2] == 'x' && code[3] == HexDigit(c as int / 16) && code[4] == HexDigit(c as int % 16)
            else code[|code| - 2] == 'p' || code[|code| - 2] == 't' || code[|code| - 2] == 's'
  {
  }

  /** One that runs up to an escaped last character loses bytes, if it is read at all. */
  lemma RefToEscapeShrinks(enc: Encoding, s: string, c: char, tail: string)
    requires StartsHexRef(s) && (forall j :: 1 <= j < |s| ==> s[j] != ';') && |EncodeChar(c)| > 1
    ensures var r := Char(enc, s + EncodeChar(c) + tail); r.1.To? ==> r.1 == To(tail) && |r.0| == 1
  {
    hide RefValue, EncodeChar, HexDigit, Char;
    var code := EncodeChar(c);
    EscapeShape(c);
    var e := s + code + tail;
    var m := |s| + |code| - 1;
    assert forall j :: 0 <= j < |s| ==> e[j] == s[j];
    assert forall j :: 0 <= j < |code| ==> e[|s| + j] == code[j];
    assert forall j :: 3 <= j < m ==> e[j] != ';' by {
      forall j | |s| <= j < m
        ensures e[j] != ';'
      {
        assert e[|s| + (j - |s|)] == code[j - |s|];
      }
    }
    assert e[m] == code[|code| - 1];
    HexRefIs(enc, e, m);
    assert e[m + 1..] == tail;
    EscapeIsOneByte(e, m, c, |s|);
  }

  lemma EscapeIsOneByte(e: string, m: nat, c: char, at: nat)
    requires |EncodeChar(c)| > 1 && m == at + |EncodeChar(c)| - 1 && m < |e| && at >= 3 && e[2] == 'x'
    requires forall j :: 0 <= j < |EncodeChar(c)| ==> e[at + j] == EncodeChar(c)[j]
    ensures RefValue(true, e, m - 1, 0, 1) == if c as int < 32 then c as int else -1
  {
    hide RefValue, EncodeChar, HexDigit;
    EscapeShape(c);
    assert e[m - 1] == EncodeChar(c)[|EncodeChar(c)| - 2];
    if c as int < 32 {
      assert e[at + 2] == 'x' && e[at + 3] == HexDigit(c as int / 16);
      TwoDigits(e, m, c);
    } else {
      RefStep(e, m - 1, 0, 1);
    }
  }

  lemma RefWithoutSemicolonShrinks(enc: Encoding, s: string, tail: string)
    requires StartsHexRef(s) && PassLength(s) == |s| - 1 && s[|s| - 1] != ';'
    requires tail != "" && IsTextEnd(tail[0])
    ensures var k := |s| - 1; var r := Char(enc, s[..k] + EncodeChar(s[k]) + tail);
            r.1.To? ==> |r.1.s| < |tail| || (r.1 == To(tail) && |r.0| < |s|)
  {
    hide Char;
    var k := |s| - 1;
    var c := s[k];
    if |EncodeChar(c)| == 1 {
      assert EncodeChar(c) == [c] && s[..k] + [c] == s;
      RefToPlainCharOverruns(enc, s, tail);
    } else {
      assert k == 2 ==> c == 'x';
      RefToEscapeShrinks(enc, s[..k], c, tail);
    }
  }

  lemma EncodeRefWithSemicolon(s: string, tail: string)
    requires StartsHexRef(s) && s[PassLength(s)] == ';'
    ensures var k := PassLength(s); Encode(s) + tail == s[..k + 1] + (Encode(s[k + 1..]) + tail)
    ensures Encode(s) + tail != "" && (Encode(s) + tail)[0] == '&'
  {
    var k := PassLength(s);
    EncodePlain(s[k..]);
    assert s[k..][1..] == s[k + 1..];
    assert s[..k] + [';'] == s[..k + 1];
    Regroup(s[..k], [';'], Encode(s[k + 1..]));
    Regroup(s[..k + 1], Encode(s[k + 1..]), tail);
  }

  lemma EncodeRefWithoutSemicolon(s: string, tail: string)
    requires StartsHexRef(s) && PassLength(s) == |s| - 1
    ensures Encode(s) + tail == s[..|s| - 1] + EncodeChar(s[|s| - 1]) + tail
    ensures Encode(s) + tail != "" && (Encode(s) + tail)[0] == '&'
  {
    var c := s[|s| - 1];
    assert s[|s| - 1..] == [c];
    EncodePlain([c]);
    assert EncodeChar(c) + Encode("") == EncodeChar(c);
  }

  lemma HexRefInHead(enc: Encoding, s: string)
    requires s != "" && WellFormed(enc, s) && !StartsHexRef(s)
    ensures NoHexRef(s[Step(enc, s)..]) ==> NoHexRef(s)
  {
    var n := Step(enc, s);
    if NoHexRef(s[n..]) {
      forall i | 0 <= i < |s| - 2
        ensures !(s[i] == '&' && s[i + 1] == '#' && s[i + 2] == 'x')
      {
        if i >= n {
          assert s[n..][i - n] == s[i];
        }
      }
    }
  }

  /** If reading stops at the closing character, it gave no more bytes than were escaped, and strictly
      fewer when a reference was copied through. */
  lemma {:induction false} RawNeverLonger(enc: Encoding, s: string, tail: string)
    requires tail != "" && IsTextEnd(tail[0]) && WellFormed(enc, s)
    requires RawText(enc, Encode(s) + tail, [tail[0]]).1 == To(tail)
    ensures var v := RawText(enc, Encode(s) + tail, [tail[0]]).0;
            |v| <= |s| && (!NoHexRef(s) ==> |v| < |s|)
    decreases |s|
  {
    hide Encode, Char, RawText;
    if s == "" {
      RawRoundTrip(enc, s, tail);
    } else if !StartsHexRef(s) {
      RawStep(enc, s, tail);
      RawNeverLonger(enc, s[Step(enc, s)..], tail);
      HexRefInHead(enc, s);
    } else {
      var k := PassLength(s);
      if s[k] == ';' {
        EncodeRefWithSemicolon(s, tail);
        RawUnfold(enc, Encode(s) + tail, tail[0]);
        RefWithSemicolonShrinks(enc, s, k, Encode(s[k + 1..]) + tail);
        WellFormedAfterAscii(enc, s, k);
        RawNeverLonger(enc, s[k + 1..], tail);
      } else {
        EncodeRefWithoutSemicolon(s, tail);
        RawUnfold(enc, Encode(s) + tail, tail[0]);
        RawUnfold(enc, tail, tail[0]);
        RefWithoutSemicolonShrinks(enc, s, tail);
      }
    }
  }

  /** The escape of attribute values and texts is undone by the reader exactly when no `&#x` is copied
      through. */
  lemma RawIdentityIff(enc: Encoding, s: string, q: char, rest: string)
    requires IsTextEnd(q) && WellFormed(enc, s)
    ensures RawText(enc, Encode(s) + ([q] + rest), [q]) == (s, To([q] + rest)) <==> NoHexRef(s)
  {
    var tail := [q] + rest;
    if NoHexRef(s) {
      RawRoundTrip(enc, s, tail);
    } else if RawText(enc, Encode(s) + tail, [q]).1 == To(tail) {
      RawNeverLonger(enc, s, tail);
    }
  }

  // ---------- white space condensed ----------

  /** Runs of spaces become one space, and one at the end is dropped; `white` says a run is pending. */
  function Squeeze(s: string, white: bool): string {
    if s == "" then ""
    else if s[0] == ' ' then Squeeze(s[1..], true)
    else (if white then [' ', s[0]] else [s[0]]) + Squeeze(s[1..], false)
  }

  /** What the reader skips at the start of a text. */
  function Lead(enc: Encoding, s: string): (r: string)
    ensures |r| <= |s|
    decreases |s|
  {
    if s == "" then ""
    else if enc.Utf8? && IsSkipMark(s) then Lead(enc, s[3..])
    else if s[0] == ' ' then Lead(enc, s[1..])
    else s
  }

  /** `s` without the white space it starts with. */
  function DropWhite(s: string): string {
    if s != "" && IsWhiteSpace(s[0]) then DropWhite(s[1..]) else s
  }

  predicate TagAhead(s: string) {
    var t := DropWhite(s); t != "" && t[0] == '<'
  }

  lemma {:induction false} SqueezeSpaceFree(s: string, n: nat, white: bool)
    requires 1 <= n <= |s| && forall k :: 0 <= k < n ==> s[k] != ' '
    ensures Squeeze(s, white) == (if white then " " + s[..n] else s[..n]) + Squeeze(s[n..], false)
  {
    var t := s[1..];
    if n == 1 {
      assert s[..1] == [s[0]];
      assert " " + [s[0]] == [' ', s[0]];
    } else {
      SqueezeSpaceFree(t, n - 1, false);
      var u := Squeeze(s[n..], false);
      assert t[n - 1..] == s[n..];
      assert s[..n] == [s[0]] + t[..n - 1];
      assert Squeeze(t, false) == t[..n - 1] + u;
      assert [s[0]] + (t[..n - 1] + u) == s[..n] + u;
      assert [' ', s[0]] + (t[..n - 1] + u) == " " + s[..n] + u;
    }
  }

  lemma {:induction false} CondensedOfWhite(enc: Encoding, s: string, white: bool)
    requires TagAhead(s)
    ensures CondensedText(enc, s, "<", white) == ("", To(DropWhite(s)))
  {
    if IsWhiteSpace(s[0]) {
      CondensedOfWhite(enc, s[1..], true);
    }
  }

  lemma {:induction false} CondensedIsSqueeze(enc: Encoding, s: string, tail: string, white: bool)
    requires WellFormed(enc, s) && NoHexRef(s) && TagAhead(tail)
    ensures CondensedText(enc, Encode(s) + tail, "<", white) == (Squeeze(s, white), To(DropWhite(tail)))
    decreases |s|
  {
    hide Encode, EncodeChar;
    if s == "" {
      EncodeEmpty(tail);
      CondensedOfWhite(enc, tail, white);
    } else {
      var n := Step(enc, s);
      EncodedStep(enc, s, tail);
      NoHexRefTail(s, n);
      CondensedIsSqueeze(enc, s[n..], tail, s[0] == ' ');
      var h, u := Head(enc, s), Encode(s[n..]) + tail;
      if s[0] == ' ' {
        assert (h + u)[1..] == u;
      } else {
        SqueezeSpaceFree(s, n, white);
        assert (h + u)[0] == h[0];
      }
    }
  }

  lemma {:induction false} SkipWsIsDropWhite(enc: Encoding, s: string)
    requires TagAhead(s)
    ensures SkipWs(enc, s) == DropWhite(s)
  {
    if IsWhiteSpace(s[0]) {
      SkipWsIsDropWhite(enc, s[1..]);
    }
  }

  /** Skipping in front of escaped text removes just what `Lead` removes from the text. */
  lemma {:induction false} SkipWsOfEncode(enc: Encoding, s: string, t: string)
    requires WellFormed(enc, s) && NoHexRef(s)
    ensures WellFormed(enc, Lead(enc, s)) && NoHexRef(Lead(enc, s))
    ensures SkipWs(enc, Encode(s) + t) ==
            if Lead(enc, s) == "" then SkipWs(enc, t) else Encode(Lead(enc, s)) + t
    decreases |s|
  {
    hide Encode, Char;
    if s == "" {
      EncodeEmpty(t);
    } else {
      var n := Step(enc, s);
      EncodedStep(enc, s, t);
      NoHexRefTail(s, n);
      var h, u := Head(enc, s), Encode(s[n..]) + t;
      assert forall k :: 0 <= k < |h| ==> (h + u)[k] == h[k];
      if enc.Utf8? && IsSkipMark(s) {
        assert n == 3 && h == s[..3] && (h + u)[3..] == u;
        SkipWsOfEncode(enc, s[3..], t);
      } else if s[0] == ' ' {
        assert (h + u)[1..] == u;
        SkipWsOfEncode(enc, s[1..], t);
      } else {
        assert enc.Utf8? ==> !IsSkipMark(h + u);
      }
    }
  }

  /** What the trimming reader makes of escaped text in front of a tag. */
  lemma TrimmedText(enc: Encoding, s: string, tail: string)
    requires WellFormed(enc, s) && NoHexRef(s) && TagAhead(tail)
    ensures TextOf(enc, To(Encode(s) + tail), true, "<") == (Squeeze(Lead(enc, s), false), To(DropWhite(tail)))
  {
    SkipWsOfEncode(enc, s, tail);
    var l := Lead(enc, s);
    if l == "" {
      SkipWsIsDropWhite(enc, tail);
      assert DropWhite(DropWhite(tail)) == DropWhite(tail);
      CondensedOfWhite(enc, DropWhite(tail), false);
    } else {
      CondensedIsSqueeze(enc, l, tail, false);
    }
  }

  /** No space is last, and none is followed by another. */
  predicate SingleSpaces(s: string) {
    forall i :: 0 <= i < |s| && s[i] == ' ' ==> i + 1 < |s| && s[i + 1] != ' '
  }

  /** No leading, trailing or doubled space, and in UTF-8 no leading mark. */
  predicate Tidy(enc: Encoding, s: string) {
    SingleSpaces(s) && (s != "" ==> s[0] != ' ') && !(enc.Utf8? && IsSkipMark(s))
  }

  lemma SqueezeLength(s: string, white: bool)
    ensures |Squeeze(s, white)| <= |s| + (if white then 1 else 0)
    ensures s == "" ==> Squeeze(s, white) == ""
  {
  }

  lemma SingleSpacesTail(s: string)
    requires s != ""
    ensures SingleSpaces(s) <==> SingleSpaces(s[1..]) && (s[0] == ' ' ==> |s| > 1 && s[1] != ' ')
  {
    var t := s[1..];
    if SingleSpaces(t) && (s[0] == ' ' ==> t != "" && t[0] != ' ') {
      forall i | 0 <= i < |s| && s[i] == ' '
        ensures i + 1 < |s| && s[i + 1] != ' '
      {
        if i > 0 {
          assert t[i - 1] == s[i];
        }
      }
    }
    if SingleSpaces(s) {
      forall i | 0 <= i < |t| && t[i] == ' '
        ensures i + 1 < |t| && t[i + 1] != ' '
      {
        assert s[i + 1] == ' ';
      }
    }
  }

  lemma {:induction false} SqueezeIdentityIff(s: string)
    ensures Squeeze(s, false) == s <==> SingleSpaces(s)
    decreases |s|
  {
    if s != "" {
      var t := s[1..];
      SingleSpacesTail(s);
      assert s == [s[0]] + t;
      if s[0] != ' ' {
        SqueezeIdentityIff(t);
        assert ([s[0]] + Squeeze(t, false))[1..] == Squeeze(t, false);
      } else if t != "" && t[0] != ' ' {
        SqueezeIdentityIff(t[1..]);
        SingleSpacesTail(t);
        assert ([' ', t[0]] + Squeeze(t[1..], false))[2..] == Squeeze(t[1..], false);
        assert s[2..] == t[1..] && s == [' ', t[0]] + t[1..];
      } else if t != "" {
        SqueezeLength(t[1..], true);
      }
    }
  }

  lemma LeadIdentityIff(enc: Encoding, s: string)
    ensures Lead(enc, s) == s <==> (s != "" ==> s[0] != ' ') && !(enc.Utf8? && IsSkipMark(s))
  {
  }

  /** A printed text reads back as itself exactly when it is tidy. */
  lemma TrimmedIdentityIff(enc: Encoding, s: string, tail: string)
    requires WellFormed(enc, s) && NoHexRef(s) && TagAhead(tail)
    ensures TextOf(enc, To(Encode(s) + tail), true, "<") == (s, To(DropWhite(tail))) <==> Tidy(enc, s)
  {
    TrimmedText(enc, s, tail);
    SqueezeIdentityIff(s);
    LeadIdentityIff(enc, s);
    SqueezeLength(Lead(enc, s), false);
  }

  // ---------- values that are printed as they are ----------

  /** Nothing that the reader takes for the end of the value or for an entity. */
  predicate IsPlain(v: string) {
    QUOTE !in v && '&' !in v
  }

  lemma EntityTextIs(k: nat)
    requires k < 5
    ensures var t := EntityText(k); |t| >= 4 && t[|t| - 1] == ';' && forall j :: 0 <= j < |t| ==> t[j] != QUOTE
  {
  }

  /** A text without quotes that starts here ends before the quote. */
  lemma PrefixBeforeQuote(v: string, t: string, p: string)
    requires t != "" && t[0] == QUOTE && HasPrefix(v + t, p) && forall j :: 0 <= j < |p| ==> p[j] != QUOTE
    ensures |p| <= |v| && p == v[..|p|] && (v + t)[|p|..] == v[|p|..] + t
  {
    assert (v + t)[|v|] == QUOTE;
    assert forall j :: 0 <= j < |p| ==> (v + t)[j] == p[j];
  }

  /** A named entity, or an `&` that is none, gives fewer bytes than it takes. */
  lemma NamedShrinks(v: string, t: string, k: nat) returns (m: nat)
    requires v != "" && v[0] == '&' && t != "" && t[0] == QUOTE && k <= 5
    ensures 1 <= m <= |v| && v[m - 1] as int < 0x80
    ensures var r := NamedEntity(v + t, k); r.1 == To(v[m..] + t) && |r.0| < m
    decreases 5 - k
  {
    hide EntityText, EntityChar, HasPrefix;
    if k == 5 {
      m := 1;
      assert (v + t)[1..] == v[1..] + t;
    } else if HasPrefix(v + t, EntityText(k)) {
      EntityTextIs(k);
      PrefixBeforeQuote(v, t, EntityText(k));
      m := |EntityText(k)|;
    } else {
      m := NamedShrinks(v, t, k + 1);
    }
  }

  lemma SmallerMod(n: nat, m: nat)
    requires m > 0
    ensures n % m <= n
  {
  }

  lemma AddDigitBound(ucs: nat, mult: nat, d: nat)
    requires mult <= 16 && d <= 15
    ensures AddDigit(ucs, mult, d) <= ucs + 15 * mult
  {
    var more := mult * d;
    assert more <= 15 * mult;
    SmallerMod(more, UINT);
    SmallerMod(ucs + more % UINT, ULONG);
  }

  /** At most two digits stand for less than 256. */
  lemma FewDigits(hex: bool, s: string, q: nat, d: nat)
    requires d <= 2 && d <= q < |s| && s[q - d] == if hex then 'x' else '#'
    ensures RefValue(hex, s, q, 0, 1) < 0x100
  {
    var marker := if hex then 'x' else '#';
    if s[q] != marker && DigitValue(hex, s[q]) >= 0 {
      var d0 := DigitValue(hex, s[q]);
      AddDigitBound(0, 1, d0);
      var ucs, mult := AddDigit(0, 1, d0), NextMult(hex, 1);
      assert mult <= 16 && ucs <= 15;
      assert RefValue(hex, s, q, 0, 1) == RefValue(hex, s, q - 1, ucs, mult);
      if s[q - 1] != marker && DigitValue(hex, s[q - 1]) >= 0 {
        var d1 := DigitValue(hex, s[q - 1]);
        AddDigitBound(ucs, mult, d1);
        assert RefValue(hex, s, q - 1, ucs, mult) == RefValue(hex, s, q - 2, AddDigit(ucs, mult, d1), NextMult(hex, mult));
      }
    }
  }

  /** A numeric reference ends in a semicolon and gives fewer bytes than it takes. */
  lemma NumericAtMost(enc: Encoding, s: string)
    requires |s| >= 3 && s[0] == '&' && s[1] == '#' && NumericRef(enc, s, s[2] == 'x').1.To?
    ensures var (v, q) := NumericRef(enc, s, s[2] == 'x'); var m := |s| - |q.s|;
            0 < m <= |s| && q.s == s[m..] && s[m - 1] == ';' && |v| < m
  {
    hide RefValue, IndexFrom;
    var hex := s[2] == 'x';
    var start := if hex then 3 else 2;
    var i := IndexFrom(s, start, ';');
    if i - start <= 2 {
      FewDigits(hex, s, i - 1, i - start);
    }
  }

  /** One that ends in front of the quote leaves the rest of the value. */
  lemma NumericShrinks(enc: Encoding, v: string, t: string) returns (m: nat)
    requires |v + t| >= 3 && v != "" && v[0] == '&' && (v + t)[1] == '#' && t != "" && t[0] == QUOTE
    ensures var r := NumericRef(enc, v + t, (v + t)[2] == 'x');
            r.1.Null? || |r.1.s| < |t|
            || (1 <= m <= |v| && v[m - 1] as int < 0x80 && r.1 == To(v[m..] + t) && |r.0| < m)
  {
    hide *;
    var e := v + t;
    var r := NumericRef(enc, e, e[2] == 'x');
    m := 1;
    if r.1.To? && |r.1.s| >= |t| {
      NumericAtMost(enc, e);
      m := |e| - |r.1.s|;
      assert e[m..] == v[m..] + t && e[m - 1] == v[m - 1];
    }
  }

  lemma EntityShrinks(enc: Encoding, v: string, t: string) returns (m: nat)
    requires v != "" && v[0] == '&' && t != "" && t[0] == QUOTE
    ensures var r := Char(enc, v + t);
            r.1.Null? || |r.1.s| < |t|
            || (1 <= m <= |v| && v[m - 1] as int < 0x80 && r.1 == To(v[m..] + t) && |r.0| < m)
  {
    hide NumericRef, NamedEntity;
    var e := v + t;
    if |e| >= 3 && e[1] == '#' {
      m := NumericShrinks(enc, v, t);
    } else {
      m := NamedShrinks(v, t, 0);
    }
  }

  lemma PlainConcat(a: string, b: string)
    ensures IsPlain(a + b) <==> IsPlain(a) && IsPlain(b)
  {
    assert forall c :: c in a + b <==> c in a || c in b;
  }

  /** A character that is no entity is taken as it is. */
  lemma PlainChar(enc: Encoding, v: string, t: string)
    requires v != "" && v[0] != '&' && WellFormed(enc, v)
    ensures var n := Step(enc, v);
            WellFormed(enc, v[n..]) && Char(enc, v + t) == (v[..n], To(v[n..] + t))
  {
    var n := Step(enc, v);
    assert (v + t)[n..] == v[n..] + t && (v + t)[..n] == v[..n] && [v[0]] == v[..1];
  }

  lemma PlainStep(enc: Encoding, v: string)
    requires v != "" && v[0] != '&' && v[0] != QUOTE && WellFormed(enc, v)
    ensures IsPlain(v) <==> IsPlain(v[Step(enc, v)..])
  {
    var n := Step(enc, v);
    var head := v[..n];
    assert forall k :: 1 <= k < n ==> head[k] as int >= 0x80;
    assert forall k :: 0 <= k < n ==> head[k] != QUOTE && head[k] != '&';
    assert v == head + v[n..];
    PlainConcat(head, v[n..]);
  }

  /** Reading a value up to the quote gives it back exactly if it is plain; it never gives more than it takes. */
  lemma {:induction false} PlainIff(enc: Encoding, v: string, t: string)
    requires WellFormed(enc, v) && t != "" && t[0] == QUOTE
    ensures RawText(enc, v + t, [QUOTE]) == (v, To(t)) <==> IsPlain(v)
    ensures RawText(enc, v + t, [QUOTE]).1 == To(t) ==> |RawText(enc, v + t, [QUOTE]).0| <= |v|
    decreases |v|
  {
    hide Char, RawText;
    var e := v + t;
    RawUnfold(enc, e, QUOTE);
    if v == "" {
      assert e == t;
    } else if v[0] == QUOTE {
      assert |e| > |t|;
    } else if v[0] == '&' {
      AmpersandShrinks(enc, v, t);
    } else {
      var n := Step(enc, v);
      PlainChar(enc, v, t);
      PlainStep(enc, v);
      PlainIff(enc, v[n..], t);
      assert v[..n] + v[n..] == v;
    }
  }

  lemma {:induction false} AmpersandShrinks(enc: Encoding, v: string, t: string)
    requires WellFormed(enc, v) && v != "" && v[0] == '&' && t != "" && t[0] == QUOTE
    ensures RawText(enc, v + t, [QUOTE]).1 == To(t) ==> |RawText(enc, v + t, [QUOTE]).0| < |v|
    decreases |v|, 0
  {
    hide Char, RawText;
    var e := v + t;
    RawUnfold(enc, e, QUOTE);
    var r := Char(enc, e);
    var m := EntityShrinks(enc, v, t);
    if r.1.To? {
      if |r.1.s| < |t| {
        RawStops(enc, r.1.s);
      } else {
        WellFormedAfterAscii(enc, v, m - 1);
        PlainIff(enc, v[m..], t);
      }
    }
  }

  lemma RawStops(enc: Encoding, s: string)
    ensures var p := RawText(enc, s, [QUOTE]).1; p.To? ==> |p.s| <= |s|
  {
  }

  /** A character is read from the front, and unless the text ends it has no more bytes than that. */
  lemma CharAtMost(enc: Encoding, s: string)
    requires s != "" && Char(enc, s).1.To?
    ensures var r := Char(enc, s);
            |r.1.s| < |s| && r.1.s == s[|s| - |r.1.s|..] && (r.1.s != "" ==> |r.0| + |r.1.s| <= |s|)
  {
    hide NumericRef, NamedEntity;
    if !(enc.Utf8? && Utf8Length(s[0]) > 1) && s[0] == '&' {
      if |s| >= 3 && s[1] == '#' {
        NumericAtMost(enc, s);
      } else {
        NamedAtMost(s, 0);
      }
    }
  }

  lemma NamedAtMost(s: string, k: nat)
    requires s != "" && k <= 5
    ensures var r := NamedEntity(s, k); r.1.To? && r.1.s == s[|s| - |r.1.s|..] && |r.0| + |r.1.s| <= |s|
    decreases 5 - k
  {
    hide EntityText, EntityChar;
    if k < 5 {
      EntityTextIs(k);
      NamedAtMost(s, k + 1);
    }
  }

  /** Reading stops at the end character, with no more bytes than it has taken. */
  lemma {:induction false} RawAtMost(enc: Encoding, s: string, q: char)
    requires RawText(enc, s, [q]).1.To? && RawText(enc, s, [q]).1.s != ""
    ensures var r := RawText(enc, s, [q]);
            r.1.s[0] == q && |r.1.s| <= |s| && r.1.s == s[|s| - |r.1.s|..] && |r.0| + |r.1.s| <= |s|
    decreases |s|
  {
    hide Char, RawText;
    RawUnfold(enc, s, q);
    if s != "" && s[0] != q {
      CharAtMost(enc, s);
      var u := Char(enc, s).1.s;
      if u == "" {
        RawUnfold(enc, u, q);
      }
      RawAtMost(enc, u, q);
      SuffixOf(s, u, RawText(enc, u, [q]).1.s);
    }
  }

  lemma SuffixOf(s: string, u: string, w: string)
    requires |u| <= |s| && u == s[|s| - |u|..] && |w| <= |u| && w == u[|u| - |w|..]
    ensures w == s[|s| - |w|..]
  {
  }

  // ---------- UTF-8 ----------

  /** The value the bytes of a sequence stand for. */
  function Utf8Value(b: string): int
    requires 1 <= |b| <= 4
  {
    var c0 := b[0] as int;
    if |b| == 1 then c0
    else
      var c1 := b[1] as int - 0x80;
      if |b| == 2 then (c0 - 0xC0) * 64 + c1
      else
        var c2 := b[2] as int - 0x80;
        if |b| == 3 then ((c0 - 0xE0) * 64 + c1) * 64 + c2
        else (((c0 - 0xF0) * 64 + c1) * 64 + c2) * 64 + (b[3] as int - 0x80)
  }

  lemma Div64(u: nat)
    ensures u == u / 64 * 64 + u % 64
  {
  }

  /** The converter loses nothing below 0x200000, and the table that steps over characters agrees with
      it exactly below 0x140000. */
  lemma Utf8TableAgreesIff(u: nat)
    requires u < 0x200000
    ensures Utf8Bytes(u) != "" && Utf8Value(Utf8Bytes(u)) == u
    ensures Utf8Length(Utf8Bytes(u)[0]) == |Utf8Bytes(u)| <==> u < 0x140000
  {
    Div64(u);
    Div64(u / 64);
    Div64(u / 64 / 64);
  }
}
