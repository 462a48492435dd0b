/** Character references: the value of a numeral as the reader adds it up from its last digit on. */
module XmlReferences {
  import opened Chars
  import opened Decimals
  import opened Sequences
  import opened XmlChars
  import opened XmlText
  import opened XmlTextRoundTrip

  predicate Digits(s: string) {
    forall i :: 0 <= i < |s| ==> '0' <= s[i] <= '9'
  }

  predicate HexDigits(s: string) {
    forall i :: 0 <= i < |s| ==> '0' <= s[i] <= '9' || 'a' <= ToLower(s[i]) <= 'f'
  }

  /** The place of a digit among the sixteen. */
  function Place(c: char): (d: nat)
    requires '0' <= c <= '9' || 'a' <= ToLower(c) <= 'f'
    ensures d < 16 && "0123456789abcdef"[d] == ToLower(c)
  {
    if c <= '9' then c as int - '0' as int else ToLower(c) as int - 'a' as int + 10
  }

  /** The number that hexadecimal digits stand for, read from the left. */
  function HexNumber(s: string): nat
    requires HexDigits(s)
  {
    if s == "" then 0 else 16 * HexNumber(s[..|s| - 1]) + Place(s[|s| - 1])
  }

  predicate Numeral(hex: bool, s: string) {
    if hex then HexDigits(s) else Digits(s)
  }

  /** What the loop adds up, with 32-bit products and a 32-bit weight. */
  function Sum(hex: bool, s: string, mult: nat): nat
    requires Numeral(hex, s)
  {
    if s == "" then 0
    else
      var n := |s| - 1;
      mult * DigitValue(hex, s[n]) % UINT + Sum(hex, s[..n], NextMult(hex, mult))
  }

  lemma NumeralPart(hex: bool, e: string, start: nat, k: nat)
    requires 0 < k && start + k <= |e| && Numeral(hex, e[start..start + k])
    ensures var s := e[start..start + k];
            s[..k - 1] == e[start..start + k - 1] && Numeral(hex, s[..k - 1]) && s[k - 1] == e[start + k - 1]
            && DigitValue(hex, s[k - 1]) >= 0 && s[k - 1] != if hex then 'x' else '#'
  {
  }

  lemma Distribute(a: int, b: int, w: int)
    ensures (a + b) * w == a * w + b * w
  {
  }

  lemma Associate(a: int, b: int, c: int)
    ensures a * b * c == a * (b * c)
  {
  }

  lemma Monotone(a: int, b: int, w: nat)
    requires a <= b
    ensures a * w <= b * w
  {
  }

  lemma DivMod(h: nat, c: nat)
    requires c > 0
    ensures h == h / c * c + h % c && 0 <= h % c < c
  {
  }

  lemma AtLeastOnce(p: int, m: nat)
    ensures (p > 0 ==> p * m >= m) && (p < 0 ==> p * m + m <= 0)
  {
    if p > 0 {
      Monotone(1, p, m);
    } else if p < 0 {
      Monotone(p, -1, m);
    }
  }

  lemma ModIs(a: int, q: int, r: nat, m: nat)
    requires r < m && a == q * m + r
    ensures a % m == r
  {
    var k := a / m;
    assert a == k * m + a % m;
    Distribute(k - q, q, m);
    AtLeastOnce(k - q, m);
  }

  lemma ModOfSum(a: nat, b: nat, m: nat)
    requires m > 0
    ensures (a % m + b) % m == (a + b) % m
  {
    var c := a % m + b;
    assert a + b == (a / m + c / m) * m + c % m by {
      assert a == a / m * m + a % m && c == c / m * m + c % m;
    }
    ModIs(a + b, a / m + c / m, c % m, m);
  }

  /** One round of the loop. */
  lemma RoundIs(hex: bool, e: string, q: nat, ucs: nat, mult: nat)
    requires q < |e| && (exists k :: 0 <= k <= q && e[k] == if hex then 'x' else '#')
    ensures e[q] == (if hex then 'x' else '#') ==> RefValue(hex, e, q, ucs, mult) == ucs
    ensures var d := DigitValue(hex, e[q]);
            e[q] != (if hex then 'x' else '#') && d >= 0 ==>
              q > 0 && RefValue(hex, e, q, ucs, mult)
                       == RefValue(hex, e, q - 1, (ucs + mult * d % UINT) % ULONG, NextMult(hex, mult))
  {
    hide NextMult, DigitValue;
  }

  lemma SumIs(hex: bool, s: string, mult: nat)
    requires Numeral(hex, s)
    ensures s == "" ==> Sum(hex, s, mult) == 0
    ensures s != "" ==>
              var n := |s| - 1;
              Numeral(hex, s[..n]) && DigitValue(hex, s[n]) >= 0
              && Sum(hex, s, mult) == mult * DigitValue(hex, s[n]) % UINT + Sum(hex, s[..n], NextMult(hex, mult))
  {
    hide NextMult;
  }

  /** The loop that reads a numeral backwards up to its marker. */
  lemma {:induction false} LoopIs(hex: bool, e: string, start: nat, k: nat, ucs: nat, mult: nat)
    requires 0 < start && start + k <= |e| && e[start - 1] == (if hex then 'x' else '#')
    requires Numeral(hex, e[start..start + k]) && ucs < ULONG
    ensures RefValue(hex, e, start + k - 1, ucs, mult) == (ucs + Sum(hex, e[start..start + k], mult)) % ULONG
    decreases k
  {
    hide RefValue, Sum, Numeral, DigitValue, NextMult;
    RoundIs(hex, e, start + k - 1, ucs, mult);
    SumIs(hex, e[start..start + k], mult);
    if k > 0 {
      NumeralPart(hex, e, start, k);
      var more := mult * DigitValue(hex, e[start + k - 1]) % UINT;
      LoopIs(hex, e, start, k - 1, (ucs + more) % ULONG, NextMult(hex, mult));
      ModOfSum(ucs + more, Sum(hex, e[start..start + k - 1], NextMult(hex, mult)), ULONG);
    } else {
      ModIs(ucs, 0, ucs, ULONG);
    }
  }

  /** A reference whose semicolon is at `m`. */
  lemma EntityIs(enc: Encoding, e: string, hex: bool, m: nat)
    requires var start := if hex then 3 else 2;
             start <= m < |e| && e[m] == ';' && (forall j :: start <= j < m ==> e[j] != ';') && (hex || m > 2)
             && e[start - 1] == if hex then 'x' else '#'
    requires e[0] == '&' && e[1] == '#' && (hex <==> e[2] == 'x')
    ensures var ucs := RefValue(hex, e, m - 1, 0, 1);
            Entity(enc, e) == if ucs < 0 then ("", Null) else (RefBytes(enc, ucs), To(e[m + 1..]))
  {
    hide RefValue, RefBytes, IndexFrom;
    IndexFromIs(e, if hex then 3 else 2, ';', m);
  }

  lemma TextAt(mark: string, s: string, rest: string)
    ensures var e := mark + (s + (";" + rest)); var m := |mark| + |s|;
            e[..|mark|] == mark && e[|mark|..m] == s && e[m] == ';' && e[m + 1..] == rest
  {
  }

  lemma NumeralAt(mark: string, s: string, rest: string, hex: bool)
    requires Numeral(hex, s)
    ensures var e := mark + (s + (";" + rest)); var m := |mark| + |s|;
            e[..|mark|] == mark && e[|mark|..m] == s && e[m] == ';' && e[m + 1..] == rest
            && (forall j :: |mark| <= j < m ==> e[j] != ';') && (s != "" ==> e[|mark|] == s[0] && s[0] != 'x')
  {
    var e := mark + (s + (";" + rest));
    assert forall j :: |mark| <= j < |mark| + |s| ==> e[j] == s[j - |mark|];
  }

  /** A numeral between the marker and the semicolon. */
  lemma ReferenceIs(enc: Encoding, hex: bool, s: string, rest: string)
    requires Numeral(hex, s) && (hex || s != "")
    ensures Entity(enc, (if hex then "&#x" else "&#") + (s + (";" + rest)))
            == (RefBytes(enc, Sum(hex, s, 1) % ULONG), To(rest))
  {
    hide Entity, RefBytes, RefValue, Sum, Numeral;
    var mark := if hex then "&#x" else "&#";
    var e := mark + (s + (";" + rest));
    NumeralAt(mark, s, rest, hex);
    assert forall j :: 0 <= j < |mark| ==> e[j] == mark[j];
    EntityIs(enc, e, hex, |mark| + |s|);
    LoopIs(hex, e, |mark|, |s|, 0, 1);
  }

  // ---------- hexadecimal ----------

  lemma PlaceIs(c: char)
    requires '0' <= c <= '9' || 'a' <= ToLower(c) <= 'f'
    ensures DigitValue(true, c) == Place(c)
  {
  }

  /** A weight of the loop: a power of 16 below 2 to the 32, and then 0. */
  predicate HexWeight(m: nat) {
    m in {1, 0x10, 0x100, 0x1000, 0x1_0000, 0x10_0000, 0x100_0000, 0x1000_0000, 0}
  }

  /** Multiples of `w`, of which `c` make up the range `u`. */
  lemma WithinRange(h: nat, w: nat, c: nat, u: nat)
    requires c > 0 && c * w == u
    ensures h * w == h / c * u + h % c * w && h % c * w + w <= u
  {
    var q, r := h / c, h % c;
    DivMod(h, c);
    Distribute(q * c, r, w);
    Associate(q, c, w);
    Monotone(r, c - 1, w);
    Distribute(c - 1, 1, w);
  }

  /** Less than `w` on top of a multiple of `w` does not lead out of the range. */
  lemma OnTop(h: nat, x: nat, w: nat, c: nat, u: nat)
    requires x < w && c > 0 && c * w == u
    ensures u > 0 && (h * w + x) % u == h * w % u + x
  {
    WithinRange(h, w, c, u);
    var a, r := h * w, h % c * w;
    ModIs(a, h / c, r, u);
    ModIs(a + x, h / c, r + x, u);
  }

  lemma FullWeight(h: nat, w: nat, c: nat, u: nat)
    requires 0 < w && c > 0 && c * w == u
    ensures u > 0 && h * (w % u) % u == h * w % u
  {
    Monotone(1, c, w);
    if w == u {
      ModIs(h * w, h, 0, u);
      ModIs(w, 1, 0, u);
    } else {
      ModIs(w, 0, w, u);
    }
  }

  /** How many numbers of the next weight make up the range. */
  function HexCount(m: nat): nat {
    if m == 1 then 0x1000_0000 else if m == 0x10 then 0x100_0000 else if m == 0x100 then 0x10_0000
    else if m == 0x1000 then 0x1_0000 else if m == 0x1_0000 then 0x1000 else if m == 0x10_0000 then 0x100
    else if m == 0x100_0000 then 0x10 else 1
  }

  lemma HexCountIs(m: nat, d: nat)
    requires HexWeight(m) && m != 0 && d < 16
    ensures HexCount(m) * (16 * m) == UINT && m * d < 16 * m && m * d < UINT
  {
  }

  lemma NextHex(m: nat)
    requires HexWeight(m)
    ensures HexWeight(NextMult(true, m)) && NextMult(true, m) == 16 * m % UINT
  {
  }

  lemma HexStep(h: nat, d: nat, m: nat)
    requires HexWeight(m) && d < 16
    ensures m * d % UINT + h * NextMult(true, m) % UINT == (16 * h + d) * m % UINT
  {
    hide HexWeight, HexCount, NextMult;
    NextHex(m);
    Distribute(16 * h, d, m);
    Associate(h, 16, m);
    if m != 0 {
      var c := HexCount(m);
      HexCountIs(m, d);
      ModIs(m * d, 0, m * d, UINT);
      OnTop(h, m * d, 16 * m, c, UINT);
      FullWeight(h, 16 * m, c, UINT);
    }
  }

  lemma {:induction false} HexSum(s: string, m: nat)
    requires HexDigits(s) && HexWeight(m)
    ensures Sum(true, s, m) == HexNumber(s) * m % UINT
  {
    hide NextMult, HexWeight, DigitValue, Place;
    if s != "" {
      var n := |s| - 1;
      PlaceIs(s[n]);
      NextHex(m);
      HexStep(HexNumber(s[..n]), Place(s[n]), m);
      HexSum(s[..n], NextMult(true, m));
    }
  }

  // ---------- decimal ----------

  /** The weight of a decimal digit before it is cut to 32 bits. */
  predicate Weight(w: nat) {
    w in {1, 10, 100, 1000, 10_000, 100_000, 1_000_000, 10_000_000, 100_000_000, 1_000_000_000} || w >= 10_000_000_000
  }

  const LIMIT := 5_000_000_000

  lemma NextWeight(w: nat)
    requires Weight(w)
    ensures Weight(10 * w) && NextMult(false, w % UINT) == 10 * w % UINT
  {
    var q := w / UINT;
    assert w == q * UINT + w % UINT;
    ModOfProduct(w % UINT, q);
  }

  lemma ModOfProduct(m: nat, q: nat)
    ensures 10 * (q * UINT + m) % UINT == m * 10 % UINT
  {
    var k := m * 10 / UINT;
    assert m * 10 == k * UINT + m * 10 % UINT;
    ModIs(10 * (q * UINT + m), 10 * q + k, m * 10 % UINT, UINT);
  }

  lemma Scaled(x: nat, y: nat, w: nat)
    requires w > 0
    ensures x * w < y * w <==> x < y
  {
    Distribute(y - x, x, w);
    AtLeastOnce(y - x, w);
  }

  lemma ModLoss(a: nat, m: nat)
    requires m > 0
    ensures a % m <= a && (a % m == a <==> a < m)
  {
  }

  /** A digit loses nothing exactly as long as its product fits 32 bits. */
  lemma DigitLoss(w: nat, d: nat, u: nat)
    requires u > 0
    ensures var p := w % u * d % u; p <= d * w && (p == d * w <==> d * w < u)
  {
    ModLoss(w, u);
    ModLoss(w % u * d, u);
    if w >= u {
      AtLeastOnce(d, w);
      if d > 0 {
        Scaled(w % u, w, d);
      }
    } else {
      ModIs(w, 0, w, u);
    }
  }

  /** The limit in units of a weight. */
  function LimitIn(w: nat): nat {
    if w == 1 then 5_000_000_000 else if w == 10 then 500_000_000 else if w == 100 then 50_000_000
    else if w == 1000 then 5_000_000 else if w == 10_000 then 500_000 else if w == 100_000 then 50_000
    else if w == 1_000_000 then 5000 else if w == 10_000_000 then 500 else if w == 100_000_000 then 50 else 5
  }

  lemma LimitInIs(w: nat, d: nat)
    requires Weight(w) && w < 10_000_000_000 && d <= 9
    ensures w > 0 && LimitIn(w) * w == LIMIT
    ensures if LimitIn(w) == 5 then d * w < UINT <==> d < 5 else LimitIn(w) % 10 == 0 && d * w < UINT
  {
  }

  /** No digit of a numeral loses anything exactly if its number is below the limit. */
  lemma LimitSplits(v: nat, d: nat, w: nat)
    requires Weight(w) && d <= 9
    ensures (10 * v + d) * w == v * (10 * w) + d * w
    ensures (10 * v + d) * w < LIMIT <==> d * w < UINT && v * (10 * w) < LIMIT
  {
    var x := 10 * v;
    Distribute(x, d, w);
    Associate(v, 10, w);
    if w < 10_000_000_000 {
      hide Weight;
      var l := LimitIn(w);
      LimitInIs(w, d);
      Scaled(x + d, l, w);
      Scaled(x, l, w);
    } else {
      AtLeastOnce(x, w);
      AtLeastOnce(d, w);
    }
  }

  lemma {:induction false} DecimalSum(s: string, w: nat)
    requires Digits(s) && Weight(w)
    ensures Value(s) >= 0 && Sum(false, s, w % UINT) <= Value(s) * w
    ensures Sum(false, s, w % UINT) == Value(s) * w <==> Value(s) * w < LIMIT
  {
    hide Weight, NextMult;
    if s != "" {
      var n := |s| - 1;
      var d := DigitValue(false, s[n]);
      NextWeight(w);
      DecimalSum(s[..n], 10 * w);
      DigitLoss(w, d, UINT);
      LimitSplits(Value(s[..n]), d, w);
    }
  }

  // ---------- what a reference gives ----------

  /** The shortest UTF-8 sequence of a number, by its bits (RFC 2279, section 2). */
  predicate Utf8Sequence(v: string, n: nat) {
    1 <= |v| <= 4 && Utf8Value(v) == n
    && (forall k :: 1 <= k < |v| ==> 0x80 <= v[k] as int <= 0xBF)
    && (if |v| == 1 then n < 0x80
        else if |v| == 2 then 0x80 <= n && 0xC0 <= v[0] as int <= 0xDF
        else if |v| == 3 then 0x800 <= n && 0xE0 <= v[0] as int <= 0xEF
        else 0x1_0000 <= n && 0xF0 <= v[0] as int <= 0xF7)
  }

  /** The bytes for a number: its UTF-8 sequence, or a single byte in byte mode. */
  predicate Stands(enc: Encoding, v: string, n: nat) {
    if !enc.Utf8? then v == [(n % 256) as char]
    else if n < 0x20_0000 then Utf8Sequence(v, n)
    else v == ""
  }

  lemma BytesStand(enc: Encoding, n: nat)
    ensures Stands(enc, RefBytes(enc, n), n)
  {
    if enc.Utf8? && n < 0x20_0000 {
      Utf8TableAgreesIff(n);
    }
  }

  /** A hexadecimal reference of any length stands for its number, of which the last 32 bits are kept. */
  lemma HexReference(enc: Encoding, s: string, rest: string)
    requires HexDigits(s)
    ensures var (v, q) := Entity(enc, "&#x" + (s + (";" + rest)));
            q == To(rest) && Stands(enc, v, HexNumber(s) % 0x1_0000_0000)
  {
    hide Stands, RefBytes, Entity, Sum;
    ReferenceIs(enc, true, s, rest);
    HexSum(s, 1);
    BytesStand(enc, HexNumber(s) % UINT);
  }

  /** A decimal reference stands for its number if that is below 5000000000, and else its value comes out too small. */
  lemma DecimalReference(enc: Encoding, s: string, rest: string)
    requires Digits(s) && s != ""
    ensures var (v, q) := Entity(enc, "&#" + (s + (";" + rest)));
            q == To(rest) && exists n: nat ::
              Stands(enc, v, n) && n <= Value(s) && (n == Value(s) <==> Value(s) < 5_000_000_000)
  {
    hide Stands, RefBytes, Entity, Sum;
    ReferenceIs(enc, false, s, rest);
    DecimalSum(s, 1);
    assert 1 % UINT == 1;
    var n := Sum(false, s, 1) % ULONG;
    BytesStand(enc, n);
  }

  /** A number as `printf` writes it comes back. */
  lemma NumberReference(enc: Encoding, n: nat, rest: string)
    requires n < 5_000_000_000
    ensures var (v, q) := Entity(enc, "&#" + (Decimal(n) + (";" + rest))); q == To(rest) && Stands(enc, v, n)
  {
    hide Stands, Entity, Decimal;
    ValueOfDecimal(n);
    DecimalReference(enc, Decimal(n), rest);
  }

  // ---------- what is no numeral ----------

  lemma DigitIs(hex: bool, c: char)
    ensures DigitValue(hex, c) >= 0 <==> Numeral(hex, [c])
  {
    assert [c][0] == c;
  }

  lemma NumeralSplits(hex: bool, e: string, start: nat, k: nat)
    requires 0 < k && start + k <= |e|
    ensures Numeral(hex, e[start..start + k]) <==>
              Numeral(hex, e[start..start + k - 1]) && Numeral(hex, [e[start + k - 1]])
  {
    var s := e[start..start + k];
    assert s[..k - 1] == e[start..start + k - 1] && s == s[..k - 1] + [s[k - 1]];
    assert forall i :: 0 <= i < k - 1 ==> s[i] == s[..k - 1][i];
  }

  lemma {:induction false} LoopFails(hex: bool, e: string, start: nat, k: nat, ucs: nat, mult: nat)
    requires 0 < start && start + k <= |e| && e[start - 1] == (if hex then 'x' else '#')
    requires forall j :: start <= j < start + k ==> e[j] != if hex then 'x' else '#'
    requires !Numeral(hex, e[start..start + k])
    ensures RefValue(hex, e, start + k - 1, ucs, mult) == -1
    decreases k
  {
    if k > 0 {
      hide Numeral, DigitValue, NextMult, AddDigit;
      NumeralSplits(hex, e, start, k);
      DigitIs(hex, e[start + k - 1]);
      var d := DigitValue(hex, e[start + k - 1]);
      if d >= 0 {
        LoopFails(hex, e, start, k - 1, AddDigit(ucs, mult, d), NextMult(hex, mult));
      }
    }
  }

  /** A reference that is no numeral ends the text. */
  lemma BadReference(enc: Encoding, hex: bool, s: string, rest: string)
    requires !Numeral(hex, s) && s != "" && (hex || s[0] != 'x')
    requires forall j :: 0 <= j < |s| ==> s[j] != ';' && s[j] != if hex then 'x' else '#'
    ensures Entity(enc, (if hex then "&#x" else "&#") + (s + (";" + rest))) == ("", Null)
  {
    hide Entity, RefBytes, RefValue, Numeral;
    var mark := if hex then "&#x" else "&#";
    var e := mark + (s + (";" + rest));
    TextAt(mark, s, rest);
    assert forall j :: 0 <= j < |mark| ==> e[j] == mark[j];
    assert forall j :: |mark| <= j < |mark| + |s| ==> e[j] == s[j - |mark|];
    EntityIs(enc, e, hex, |mark| + |s|);
    LoopFails(hex, e, |mark|, |s|, 0, 1);
  }

  // ---------- names ----------

  /** The text of the five entities that have names, and what it stands for. */
  lemma NamedEntities(enc: Encoding, t: string)
    ensures Char(enc, "&amp;" + t) == ("&", To(t)) && Char(enc, "&lt;" + t) == ("<", To(t))
    ensures Char(enc, "&gt;" + t) == (">", To(t)) && Char(enc, "&quot;" + t) == ("\"", To(t))
    ensures Char(enc, "&apos;" + t) == ("'", To(t))
  {
    hide Char;
    forall k: nat | k < 5
      ensures Char(enc, EntityText(k) + t) == ([EntityChar(k)], To(t))
    {
      EntityRef(enc, k, t);
    }
    assert EntityText(0) == "&amp;" && EntityText(1) == "&lt;" && EntityText(2) == "&gt;";
    assert EntityText(3) == "&quot;" && EntityText(4) == "&apos;";
  }

  lemma PrefixTail(s: string, e: string)
    requires s != "" && e != ""
    ensures HasPrefix(s, e) ==> e[1..] <= s[1..]
  {
  }

  /** Of any other name just the `&` is lost. */
  lemma UnknownEntity(enc: Encoding, t: string)
    requires t == "" || t[0] != '#'
    requires !("amp;" <= t) && !("lt;" <= t) && !("gt;" <= t) && !("quot;" <= t) && !("apos;" <= t)
    ensures Char(enc, "&" + t) == ("", To(t))
  {
    var s := "&" + t;
    assert s[0] == '&' && s[1..] == t;
    forall k: nat | k < 5
      ensures !HasPrefix(s, EntityText(k))
    {
      assert EntityText(k)[1..] == ["amp;", "lt;", "gt;", "quot;", "apos;"][k];
      PrefixTail(s, EntityText(k));
    }
    NoneOfThem(s, 0);
  }

  lemma {:induction false} NoneOfThem(s: string, k: nat)
    requires s != "" && k <= 5 && forall i: nat :: i < 5 ==> !HasPrefix(s, EntityText(i))
    ensures NamedEntity(s, k) == ("", To(s[1..]))
    decreases 5 - k
  {
    if k < 5 {
      NoneOfThem(s, k + 1);
    }
  }

  /** What is written for a character: its entity, two hexadecimal digits for one below 32, and else the character. */
  lemma EscapeIs(c: char)
    ensures c == '&' ==> EncodeChar(c) == "&amp;"
    ensures c == '<' ==> EncodeChar(c) == "&lt;"
    ensures c == '>' ==> EncodeChar(c) == "&gt;"
    ensures c == '\"' ==> EncodeChar(c) == "&quot;"
    ensures c == '\'' ==> EncodeChar(c) == "&apos;"
    ensures c as int >= 32 && c !in "&<>\"'" ==> EncodeChar(c) == [c]
    ensures c as int < 32 ==> var e := EncodeChar(c);
                              |e| == 6 && e[..3] == "&#x" && e[5] == ';' && HexDigits(e[3..5]) && HexNumber(e[3..5]) == c as int
  {
    if c as int < 32 {
      TwoHexDigits(c as int / 16, c as int % 16);
    }
  }

  lemma TwoHexDigits(x: nat, y: nat)
    requires x < 16 && y < 16
    ensures var d := [HexDigit(x), HexDigit(y)];
            HexDigits(d) && HexNumber(d) == 16 * x + y && ("&#x" + d + ";")[3..5] == d
  {
    hide HexDigit, Place;
    var d := [HexDigit(x), HexDigit(y)];
    DigitPlace(x);
    DigitPlace(y);
    assert HexDigits(d) by {
      assert forall i :: 0 <= i < 2 ==> [d[i]][0] == d[i];
    }
    assert d[..1] == [d[0]] && d[..1][..0] == "";
    assert HexNumber(d[..1]) == 16 * HexNumber("") + Place(d[0]);
  }

  lemma DigitPlace(d: nat)
    requires d < 16
    ensures HexDigits([HexDigit(d)]) && Place(HexDigit(d)) == d
  {
    assert HexDigit(d) == "0123456789ABCDEF"[d];
  }
}
