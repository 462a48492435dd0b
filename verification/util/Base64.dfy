/** base64.cpp: the encoding of RFC 4648, section 4. */
module Base64 {
  type Byte = b: int | 0 <= b < 256

  import opened Sequences

  const base64digits := "ABCDEFGHIJKLMNOPQRSTUVWXYZ" + "abcdefghijklmnopqrstuvwxyz" + "0123456789+/"
  const BAD := -1

  // The table `base64val`, in rows of sixteen characters.
  const VAL20: seq<int> := [BAD, BAD, BAD, BAD, BAD, BAD, BAD, BAD, BAD, BAD, BAD, 62, BAD, BAD, BAD, 63]
  const VAL30: seq<int> := [52, 53, 54, 55, 56, 57, 58, 59, 60, 61, BAD, BAD, BAD, BAD, BAD, BAD]
  const VAL40: seq<int> := [BAD, 0, 1, 2, 3, 4, 5, 6, 7, 8, 9, 10, 11, 12, 13, 14]
  const VAL50: seq<int> := [15, 16, 17, 18, 19, 20, 21, 22, 23, 24, 25, BAD, BAD, BAD, BAD, BAD]
  const VAL60: seq<int> := [BAD, 26, 27, 28, 29, 30, 31, 32, 33, 34, 35, 36, 37, 38, 39, 40]
  const VAL70: seq<int> := [41, 42, 43, 44, 45, 46, 47, 48, 49, 50, 51, BAD, BAD, BAD, BAD, BAD]

  function Row20(k: nat): int
    requires k < 16
  {
    VAL20[k]
  }

  function Row30(k: nat): int
    requires k < 16
  {
    VAL30[k]
  }

  function Row40(k: nat): int
    requires k < 16
  {
    VAL40[k]
  }

  function Row50(k: nat): int
    requires k < 16
  {
    VAL50[k]
  }

  function Row60(k: nat): int
    requires k < 16
  {
    VAL60[k]
  }

  function Row70(k: nat): int
    requires k < 16
  {
    VAL70[k]
  }

  /** `DECODE64`. */
  function Decode64(c: char): int {
    var n := c as int;
    if n < 0x20 || n >= 0x80 then BAD
    else if n < 0x30 then Row20(n - 0x20)
    else if n < 0x40 then Row30(n - 0x30)
    else if n < 0x50 then Row40(n - 0x40)
    else if n < 0x60 then Row50(n - 0x50)
    else if n < 0x70 then Row60(n - 0x60)
    else Row70(n - 0x70)
  }

  function Digit(v: nat): char
    requires v < 64
  {
    base64digits[v]
  }

  /** The value of the character with code `n`. */
  function ByCode(n: int): int {
    if 65 <= n <= 90 then n - 65 else if 97 <= n <= 122 then n - 71 else if 48 <= n <= 57 then n + 4
    else if n == 43 then 62 else if n == 47 then 63 else BAD
  }

  function RangeDigit(v: nat): char
    requires v < 64
  {
    if v < 26 then 'A' + v as char else if v < 52 then 'a' + (v - 26) as char
    else if v < 62 then '0' + (v - 52) as char else if v == 62 then '+' else '/'
  }

  lemma DigitChars(v: nat)
    requires v < 64
    ensures |base64digits| == 64 && base64digits[v] == RangeDigit(v)
  {
  }

  lemma DigitIs(v: nat)
    requires v < 64
    ensures v < 26 ==> Digit(v) as int == v + 65
    ensures 26 <= v < 52 ==> Digit(v) as int == v + 71
    ensures 52 <= v < 62 ==> Digit(v) as int == v - 4
    ensures v >= 62 ==> Digit(v) as int == if v == 62 then 43 else 47
  {
    DigitChars(v);
  }

  lemma Decode64Is(c: char)
    ensures Decode64(c) == ByCode(c as int)
  {
    hide Row20, Row30, Row40, Row50, Row60, Row70;
    var n := c as int;
    if 0x20 <= n < 0x80 {
      var r := n / 16;
      RowsAre(n - 16 * r);
      assert n - 16 * r == if r == 2 then n - 0x20 else if r == 3 then n - 0x30 else if r == 4 then n - 0x40
                           else if r == 5 then n - 0x50 else if r == 6 then n - 0x60 else n - 0x70;
    }
  }

  lemma RowsAre(k: nat)
    requires k < 16
    ensures Row20(k) == if k == 11 then 62 else if k == 15 then 63 else BAD
    ensures Row30(k) == if k < 10 then 52 + k else BAD
    ensures Row40(k) == if k > 0 then k - 1 else BAD
    ensures Row50(k) == if k < 11 then k + 15 else BAD
    ensures Row60(k) == if k > 0 then k + 25 else BAD
    ensures Row70(k) == if k < 11 then k + 41 else BAD
  {
  }

  /** The two tables are inverse to each other. */
  lemma DigitsInverse(v: nat)
    requires v < 64
    ensures Decode64(Digit(v)) == v && Digit(v) != '=' && Digit(v) != '\r' && Digit(v) != '\0' && Digit(v) != ' '
  {
    hide Digit, Decode64;
    DigitIs(v);
    Decode64Is(Digit(v));
    assert '=' as int == 61 && '\r' as int == 13 && '\0' as int == 0 && ' ' as int == 32;
  }

  lemma CharsInverse(c: char)
    ensures Decode64(c) != BAD ==> 0 <= Decode64(c) < 64 && Digit(Decode64(c)) == c
  {
    hide Digit, Decode64;
    Decode64Is(c);
    if Decode64(c) != BAD {
      DigitIs(Decode64(c));
      SameCode(Digit(Decode64(c)), c);
    }
  }

  lemma SameCode(a: char, b: char)
    ensures a as int == b as int ==> a == b
  {
  }

  // ---------- encoding ----------

  /** The four characters of one, two or three bytes. */
  function Group(b: seq<Byte>): (s: string)
    requires 1 <= |b| <= 3
    ensures |s| == 4
  {
    var x, y, z := b[0], if |b| > 1 then b[1] else 0, if |b| > 2 then b[2] else 0;
    [Digit(x / 4), Digit(x % 4 * 16 + y / 16)]
    + (if |b| < 2 then "=" else [Digit(y % 16 * 4 + z / 64)])
    + (if |b| < 3 then "=" else [Digit(z % 64)])
  }

  function Encode(b: seq<Byte>): string {
    if b == [] then ""
    else if |b| <= 3 then Group(b)
    else Group(b[..3]) + Encode(b[3..])
  }

  lemma InBase64(n: nat, a: nat, b: nat, c: nat, d: nat)
    requires b < 64 && c < 64 && d < 64 && n == 262144 * a + 4096 * b + 64 * c + d
    ensures n / 262144 == a && n / 4096 % 64 == b && n / 64 % 64 == c && n % 64 == d
  {
    assert n / 64 == 4096 * a + 64 * b + c;
    assert n / 4096 == 64 * a + b;
  }

  /** Three bytes cut into four numbers of six bits, the highest first. */
  lemma SixBits(x: nat, y: nat, z: nat)
    requires x < 256 && y < 256 && z < 256
    ensures var n := x * 65536 + y * 256 + z;
            n / 262144 == x / 4 && n / 4096 % 64 == x % 4 * 16 + y / 16 && n / 64 % 64 == y % 16 * 4 + z / 64
            && n % 64 == z % 64
  {
    InBase64(x * 65536 + y * 256 + z, x / 4, x % 4 * 16 + y / 16, y % 16 * 4 + z / 64, z % 64);
  }

  /** A group is the number of its bytes in base 64, with `=` for the digits that hold none of their bits: section 4 of RFC
      4648. */
  lemma GroupIsNumber(b: seq<Byte>)
    requires 1 <= |b| <= 3
    ensures var y: int, z: int := if |b| > 1 then b[1] else 0, if |b| > 2 then b[2] else 0;
            var n, s := b[0] * 65536 + y * 256 + z, Group(b);
            |s| == 4 && s[0] == Digit(n / 262144) && s[1] == Digit(n / 4096 % 64)
            && s[2] == (if |b| < 2 then '=' else Digit(n / 64 % 64)) && s[3] == if |b| < 3 then '=' else Digit(n % 64)
  {
    hide Digit;
    SixBits(b[0], if |b| > 1 then b[1] else 0, if |b| > 2 then b[2] else 0);
  }

  // ---------- decoding ----------

  /** The character at `i` of a string that ends with NUL. */
  function At(s: string, i: nat): char {
    if i < |s| then s[i] else '\0'
  }

  /** The bytes of a group of four characters. */
  function Ungroup(s: string): Option<seq<Byte>>
  {
    var d1, d2, c3, c4 := Decode64(At(s, 0)), Decode64(At(s, 1)), At(s, 2), At(s, 3);
    if d1 == BAD || d2 == BAD || (c3 != '=' && Decode64(c3) == BAD) || (c4 != '=' && Decode64(c4) == BAD) then None
    else
      CharsInverse(At(s, 0));
      CharsInverse(At(s, 1));
      CharsInverse(c3);
      CharsInverse(c4);
      Some([d1 * 4 + d2 / 16] + (if c3 == '=' then []
                                 else [d2 % 16 * 16 + Decode64(c3) / 4]
                                      + (if c4 == '=' then [] else [Decode64(c3) % 4 * 64 + Decode64(c4)])))
  }

  /** Whether the loop goes on after a group. */
  predicate GoesOn(s: string) {
    At(s, 4) != '\0' && At(s, 4) != '\r' && At(s, 3) != '='
  }

  lemma UngroupLength(s: string)
    requires '\0' !in s
    ensures Ungroup(s).Some? ==> |s| >= 4
  {
    Decode64Is('\0');
    hide Decode64;
  }

  /** The loop of `base64_decode`. */
  function DecodeGroups(s: string): Option<seq<Byte>>
    requires '\0' !in s
  {
    UngroupLength(s);
    var g := Ungroup(s);
    if g.None? then None
    else if !GoesOn(s) then g
    else
      var rest := DecodeGroups(s[4..]);
      if rest.None? then None else Some(g.value + rest.value)
  }

  /** The bytes that `base64_decode` makes of a text, or nothing if it returns -1. */
  function Decode(s: string): Option<seq<Byte>>
    requires '\0' !in s
  {
    var t := if At(s, 0) == '+' && At(s, 1) == ' ' then s[2..] else s;
    if At(t, 0) == '\r' then Some([]) else DecodeGroups(t)
  }

  // ---------- decoding what was encoded ----------

  lemma EncodeEmpty()
    ensures Encode([]) == ""
  {
  }

  lemma {:induction false} EncodeLength(b: seq<Byte>)
    ensures |Encode(b)| == 4 * ((|b| + 2) / 3)
    decreases |b|
  {
    hide Group;
    if 0 < |b| <= 3 {
      GroupLength(b);
    } else if b != [] {
      GroupLength(b[..3]);
      EncodeLength(b[3..]);
    }
  }

  lemma GroupLength(b: seq<Byte>)
    requires 1 <= |b| <= 3
    ensures |Group(b)| == 4
  {
  }

  predicate Alphabet(c: char) {
    Decode64(c) != BAD
  }

  lemma GroupChars(b: seq<Byte>)
    requires 1 <= |b| <= 3
    ensures var s := Group(b);
            |s| == 4 && Alphabet(s[0]) && Alphabet(s[1]) && (if |b| < 2 then s[2] == '=' else Alphabet(s[2]))
            && (if |b| < 3 then s[3] == '=' else Alphabet(s[3]))
    ensures '\0' !in Group(b) && '\r' !in Group(b) && ' ' !in Group(b)
  {
    hide Digit, Decode64;
    var x, y, z := b[0], if |b| > 1 then b[1] else 0, if |b| > 2 then b[2] else 0;
    DigitsInverse(x / 4);
    DigitsInverse(x % 4 * 16 + y / 16);
    DigitsInverse(y % 16 * 4 + z / 64);
    DigitsInverse(z % 64);
  }

  /** A group decodes to its bytes, whatever follows it. */
  lemma UngroupGroup(b: seq<Byte>, rest: string)
    requires 1 <= |b| <= 3
    ensures Ungroup(Group(b) + rest) == Some(b)
  {
    hide Digit, Decode64;
    var x, y, z := b[0], if |b| > 1 then b[1] else 0, if |b| > 2 then b[2] else 0;
    DigitsInverse(x / 4);
    DigitsInverse(x % 4 * 16 + y / 16);
    DigitsInverse(y % 16 * 4 + z / 64);
    DigitsInverse(z % 64);
    assert x / 4 * 4 + (x % 4 * 16 + y / 16) / 16 == x;
    assert (x % 4 * 16 + y / 16) % 16 * 16 + (y % 16 * 4 + z / 64) / 4 == y;
    assert (y % 16 * 4 + z / 64) % 4 * 64 + z % 64 == z;
    assert b == [x] + (if |b| > 1 then [y] + (if |b| > 2 then [z] else []) else []);
    var s := Group(b) + rest;
    assert At(s, 0) == Group(b)[0] && At(s, 1) == Group(b)[1] && At(s, 2) == Group(b)[2] && At(s, 3) == Group(b)[3];
  }

  lemma {:induction false} EncodeChars(b: seq<Byte>)
    ensures '\0' !in Encode(b) && '\r' !in Encode(b) && ' ' !in Encode(b)
    ensures b != [] ==> |Encode(b)| >= 4 && Alphabet(Encode(b)[0])
    decreases |b|
  {
    hide Group, Alphabet;
    if 0 < |b| <= 3 {
      GroupChars(b);
    } else if b != [] {
      GroupChars(b[..3]);
      EncodeChars(b[3..]);
    }
  }

  lemma {:induction false} DecodeGroupsEncode(b: seq<Byte>)
    requires b != []
    ensures '\0' !in Encode(b) && DecodeGroups(Encode(b)) == Some(b)
    decreases |b|
  {
    hide Group, Ungroup;
    EncodeChars(b);
    if |b| <= 3 {
      GroupChars(b);
      UngroupGroup(b, "");
      assert Group(b) + "" == Group(b);
    } else {
      GroupChars(b[..3]);
      UngroupGroup(b[..3], Encode(b[3..]));
      EncodeChars(b[3..]);
      DecodeGroupsEncode(b[3..]);
      assert Encode(b)[4..] == Encode(b[3..]);
      Decode64Is('=');
      Decode64Is(Encode(b[3..])[0]);
      hide Decode64;
      assert b[..3] + b[3..] == b;
    }
  }

  /** Decoding what was encoded gives the bytes back exactly if there are any. */
  lemma DecodeEncodeIff(b: seq<Byte>)
    ensures '\0' !in Encode(b)
    ensures Decode(Encode(b)) == Some(b) <==> b != []
  {
    hide Encode, DecodeGroups;
    EncodeChars(b);
    if b != [] {
      DecodeGroupsEncode(b);
    } else {
      EncodeEmpty();
      DecodeNothing();
    }
  }

  lemma DecodeNothing()
    ensures DecodeGroups("") == None
  {
    Decode64Is('\0');
    hide Decode64;
  }

  // ---------- encoding what was decoded ----------

  /** A group of four characters with its padding, and no bits set that the padding makes meaningless. */
  predicate CanonicalGroup(s: string, last: bool) {
    |s| == 4 && Alphabet(s[0]) && Alphabet(s[1])
    && ((Alphabet(s[2]) && Alphabet(s[3]))
        || (last && Alphabet(s[2]) && s[3] == '=' && Decode64(s[2]) % 4 == 0)
        || (last && s[2] == '=' && s[3] == '=' && Decode64(s[1]) % 16 == 0))
  }

  /** A text that encoding can give: section 3.5 of RFC 4648. */
  predicate Canonical(s: string) {
    if |s| <= 4 then CanonicalGroup(s, true) else CanonicalGroup(s[..4], false) && Canonical(s[4..])
  }

  /** Splitting four six-bit values into bytes and back. */
  lemma FourDigits(d1: nat, d2: nat, d3: nat, d4: nat)
    requires d1 < 64 && d2 < 64 && d3 < 64 && d4 < 64
    ensures var x, y, z := d1 * 4 + d2 / 16, d2 % 16 * 16 + d3 / 4, d3 % 4 * 64 + d4;
            x < 256 && y < 256 && z < 256
            && x / 4 == d1 && x % 4 * 16 + y / 16 == d2 && y % 16 * 4 + z / 64 == d3 && z % 64 == d4
            && (d3 % 4 == 0 ==> y % 16 * 4 == d3) && (d2 % 16 == 0 ==> x % 4 * 16 == d2)
  {
  }

  /** A canonical group is the encoding of its bytes. */
  lemma GroupUngroup(s: string, rest: string)
    requires CanonicalGroup(s, true)
    ensures Ungroup(s + rest).Some? && 1 <= |Ungroup(s + rest).value| <= 3 && Group(Ungroup(s + rest).value) == s
    ensures CanonicalGroup(s, false) ==> |Ungroup(s + rest).value| == 3
  {
    hide Digit, Decode64, Ungroup, Group;
    CharsInverse(s[0]);
    CharsInverse(s[1]);
    CharsInverse(s[2]);
    CharsInverse(s[3]);
    EqualsIsNoDigit();
    var t := s + rest;
    assert At(t, 0) == s[0] && At(t, 1) == s[1] && At(t, 2) == s[2] && At(t, 3) == s[3];
    assert s == [s[0], s[1], s[2], s[3]];
    UngroupIs(t);
    GroupIs(Ungroup(t).value);
    FourDigits(Decode64(s[0]), Decode64(s[1]), if s[2] == '=' then 0 else Decode64(s[2]),
               if s[3] == '=' then 0 else Decode64(s[3]));
  }

  lemma EqualsIsNoDigit()
    ensures Decode64('=') == BAD && Decode64('\0') == BAD && Decode64('\r') == BAD && Decode64(' ') == BAD
  {
    Decode64Is('=');
    Decode64Is('\0');
    Decode64Is('\r');
    Decode64Is(' ');
    hide Decode64;
  }

  lemma {:induction false} CanonicalChars(s: string)
    requires Canonical(s)
    ensures '\0' !in s && '\r' !in s && ' ' !in s && |s| >= 4 && Alphabet(s[0])
    decreases |s|
  {
    hide Decode64;
    EqualsIsNoDigit();
    if |s| > 4 {
      CanonicalChars(s[4..]);
      assert s == s[..4] + s[4..];
    }
  }

  lemma {:induction false} EncodeDecodeGroups(s: string)
    requires Canonical(s)
    ensures '\0' !in s && DecodeGroups(s).Some? && DecodeGroups(s).value != [] && Encode(DecodeGroups(s).value) == s
    decreases |s|
  {
    hide Group, Ungroup, Decode64, CanonicalGroup;
    CanonicalChars(s);
    if |s| <= 4 {
      CanonicalFour(s, true);
      GroupUngroup(s, "");
      assert s + "" == s;
    } else {
      var a, b := s[..4], s[4..];
      CanonicalFour(a, false);
      CanonicalChars(b);
      EncodeDecodeGroups(b);
      GroupUngroup(a, b);
      assert s == a + b;
      assert GoesOn(s) by {
        EqualsIsNoDigit();
      }
      var g, rest := Ungroup(s).value, DecodeGroups(b).value;
      assert (g + rest)[..3] == g && (g + rest)[3..] == rest;
    }
  }

  lemma CanonicalFour(s: string, last: bool)
    requires CanonicalGroup(s, last)
    ensures |s| == 4 && CanonicalGroup(s, true) && (!last ==> s[3] != '=')
  {
    hide Decode64;
    EqualsIsNoDigit();
  }

  lemma {:induction false} EncodeIsCanonical(b: seq<Byte>)
    requires b != []
    ensures Canonical(Encode(b))
    decreases |b|
  {
    hide Group;
    if |b| <= 3 {
      GroupIsCanonical(b);
    } else {
      GroupIsCanonical(b[..3]);
      EncodeIsCanonical(b[3..]);
      EncodeChars(b[3..]);
      assert Encode(b)[..4] == Group(b[..3]) && Encode(b)[4..] == Encode(b[3..]);
    }
  }

  lemma GroupIsCanonical(b: seq<Byte>)
    requires 1 <= |b| <= 3
    ensures CanonicalGroup(Group(b), true) && (|b| == 3 ==> CanonicalGroup(Group(b), false))
  {
    hide Digit, Decode64;
    var x, y, z := b[0], if |b| > 1 then b[1] else 0, if |b| > 2 then b[2] else 0;
    DigitsInverse(x / 4);
    DigitsInverse(x % 4 * 16 + y / 16);
    DigitsInverse(y % 16 * 4 + z / 64);
    DigitsInverse(z % 64);
  }

  /** Encoding what was decoded gives the text back exactly if the text is canonical. */
  lemma EncodeDecodeIff(s: string)
    requires '\0' !in s
    ensures Decode(s).Some? && Encode(Decode(s).value) == s <==> Canonical(s)
  {
    hide Encode, DecodeGroups, Canonical, Decode64;
    if Canonical(s) {
      CanonicalChars(s);
      EqualsIsNoDigit();
      EncodeDecodeGroups(s);
    } else if Decode(s).Some? && Encode(Decode(s).value) == s {
      if Decode(s).value == [] {
        EncodeEmpty();
        DecodeNothing();
      } else {
        EncodeIsCanonical(Decode(s).value);
      }
    }
  }

  // ---------- where decoding stops ----------

  /** A group depends on its four characters alone. */
  lemma UngroupFirst(s: string, x: string)
    requires |s| >= 4
    ensures Ungroup(s + x) == Ungroup(s)
  {
    hide Decode64;
    var t := s + x;
    assert At(t, 0) == At(s, 0) && At(t, 1) == At(s, 1) && At(t, 2) == At(s, 2) && At(t, 3) == At(s, 3);
  }

  /** Behind a carriage return, and behind the padding, nothing is read. */
  lemma {:induction false} StopsBehind(s: string, x: string)
    requires Canonical(s) && '\0' !in x && (x == "" || x[0] == '\r' || s[|s| - 1] == '=')
    ensures '\0' !in s + x && '\0' !in s && DecodeGroups(s + x) == DecodeGroups(s)
    decreases |s|
  {
    hide Ungroup, Decode64, CanonicalGroup;
    CanonicalChars(s);
    assert forall c :: c in s + x <==> c in s || c in x;
    UngroupFirst(s, x);
    if |s| <= 4 {
      CanonicalFour(s, true);
      assert At(s + x, 3) == s[3] && (x != "" ==> At(s + x, 4) == x[0]);
    } else {
      assert (s + x)[4..] == s[4..] + x && At(s + x, 4) == At(s, 4) && At(s + x, 3) == At(s, 3);
      assert s[4..][|s| - 5] == s[|s| - 1];
      StopsBehind(s[4..], x);
    }
  }

  /** A carriage return ends a text, a text that begins with one is empty, and a plus sign and a space in front of a text
      are read over. */
  lemma LineEndsText(s: string, rest: string)
    requires Canonical(s) && '\0' !in rest
    ensures '\0' !in s && Decode(s) == DecodeGroups(s)
    ensures '\0' !in s + ("\r" + rest) && Decode(s + ("\r" + rest)) == Decode(s)
    ensures '\0' !in "+ " + s && Decode("+ " + s) == Decode(s)
    ensures '\0' !in "+ " + (s + ("\r" + rest)) && Decode("+ " + (s + ("\r" + rest))) == Decode(s)
    ensures Decode("\r" + rest) == Some([]) && Decode("+ \r" + rest) == Some([])
  {
    hide DecodeGroups, Canonical, Decode64;
    var x := "\r" + rest;
    CanonicalChars(s);
    EqualsIsNoDigit();
    assert '\0' !in x && x[0] == '\r';
    StopsBehind(s, x);
    NoMark(s, x);
    NoMark(s, "");
    assert s + "" == s;
    MarkSkipped(s);
    MarkSkipped(s + x);
    MarkSkipped(x);
    assert "+ \r" + rest == "+ " + x;
  }

  /** A canonical text does not begin like a marked or an empty one. */
  lemma NoMark(s: string, x: string)
    requires Canonical(s) && '\0' !in s + x
    ensures Decode(s + x) == DecodeGroups(s + x)
  {
    hide DecodeGroups, Canonical, Decode64;
    CanonicalChars(s);
    EqualsIsNoDigit();
    assert At(s + x, 0) == s[0] && At(s + x, 1) == s[1];
    assert s[1] in s;
  }

  lemma MarkSkipped(s: string)
    requires '\0' !in s && !(At(s, 0) == '+' && At(s, 1) == ' ')
    ensures '\0' !in "+ " + s && Decode("+ " + s) == Decode(s)
  {
    hide DecodeGroups;
    var t := "+ " + s;
    assert t[2..] == s && t[0] == '+' && t[1] == ' ';
    assert forall c :: c in t ==> c == '+' || c == ' ' || c in s;
  }

  // ---------- the code ----------

  /** `base64_encode`: the characters and a NUL; returns the place of the NUL. */
  method EncodeInto(out: array<char>, bytes: seq<Byte>) returns (end: nat)
    requires out.Length > 4 * ((|bytes| + 2) / 3)
    modifies out
    ensures end == 4 * ((|bytes| + 2) / 3) && out[..end] == Encode(bytes) && out[end] == '\0'
    ensures forall i :: end < i < out.Length ==> out[i] == old(out[i])
  {
    hide Encode, Group, Digit;
    EncodeLength(bytes);
    EncodeEmpty();
    var p, left := 0, bytes;
    while |left| >= 3
      invariant |left| <= |bytes| && p + |Encode(left)| == |Encode(bytes)| && |Encode(left)| == 4 * ((|left| + 2) / 3)
      invariant out[..p] + Encode(left) == Encode(bytes)
      invariant forall i :: |Encode(bytes)| <= i < out.Length ==> out[i] == old(out[i])
      decreases |left|
    {
      GroupIs(left[..3]);
      EncodeStep(left);
      EncodeLength(left[3..]);
      ghost var done := out[..p];
      PutFour(out, p, Digit(left[0] / 4), Digit(left[0] % 4 * 16 + left[1] / 16),
              Digit(left[1] % 16 * 4 + left[2] / 64), Digit(left[2] % 64));
      Regroup(done, Group(left[..3]), Encode(left[3..]));
      p := p + 4;
      left := left[3..];
    }
    if |left| > 0 {
      GroupIs(left);
      EncodeStep(left);
      ghost var done := out[..p];
      var fragment := left[0] % 4 * 16;
      if |left| > 1 {
        fragment := fragment + left[1] / 16;
      }
      PutFour(out, p, Digit(left[0] / 4), Digit(fragment), if |left| < 2 then '=' else Digit(left[1] % 16 * 4), '=');
      p := p + 4;
    } else {
      assert out[..p] + "" == out[..p];
    }
    out[p] := '\0';
    end := p;
  }

  /** Four characters at `out`. */
  method PutFour(out: array<char>, p: nat, a: char, b: char, c: char, d: char)
    requires p + 4 <= out.Length
    modifies out
    ensures out[..p + 4] == old(out[..p]) + [a, b, c, d]
    ensures forall i :: p + 4 <= i < out.Length ==> out[i] == old(out[i])
  {
    out[p], out[p + 1], out[p + 2], out[p + 3] := a, b, c, d;
  }

  lemma GroupIs(b: seq<Byte>)
    requires 1 <= |b| <= 3
    ensures |b| == 3 ==>
              Group(b) == [Digit(b[0] / 4), Digit(b[0] % 4 * 16 + b[1] / 16), Digit(b[1] % 16 * 4 + b[2] / 64), Digit(b[2] % 64)]
    ensures |b| == 2 ==> Group(b) == [Digit(b[0] / 4), Digit(b[0] % 4 * 16 + b[1] / 16), Digit(b[1] % 16 * 4), '=']
    ensures |b| == 1 ==> Group(b) == [Digit(b[0] / 4), Digit(b[0] % 4 * 16), '=', '=']
  {
    hide Digit;
  }

  lemma EncodeStep(b: seq<Byte>)
    requires b != []
    ensures |b| >= 3 ==> Encode(b) == Group(b[..3]) + Encode(b[3..])
    ensures |b| <= 3 ==> Encode(b) == Group(b)
  {
    hide Group;
    if |b| == 3 {
      assert b[..3] == b && b[3..] == [];
      assert Group(b) + "" == Group(b);
    }
  }

  lemma ValuesBound(c1: char, c2: char, c3: char, c4: char)
    ensures (Decode64(c1) != BAD ==> 0 <= Decode64(c1) < 64) && (Decode64(c2) != BAD ==> 0 <= Decode64(c2) < 64)
    ensures (Decode64(c3) != BAD ==> 0 <= Decode64(c3) < 64) && (Decode64(c4) != BAD ==> 0 <= Decode64(c4) < 64)
  {
    hide Decode64, Digit;
    CharsInverse(c1);
    CharsInverse(c2);
    CharsInverse(c3);
    CharsInverse(c4);
  }

  /** One more group behind what is done. */
  lemma DecodeStep(done: seq<Byte>, s: string)
    requires '\0' !in s && Ungroup(s).Some?
    ensures |s| >= 4 && '\0' !in s[4..]
    ensures DecodeGroups(s).None? <==> GoesOn(s) && DecodeGroups(s[4..]).None?
    ensures DecodeGroups(s).Some? ==>
              done + DecodeGroups(s).value == done + Ungroup(s).value + (if GoesOn(s) then DecodeGroups(s[4..]).value else [])
  {
    hide Ungroup;
    GroupsStep(s);
  }

  /** The bytes of a group at `out`. */
  method PutBytes(out: array<Byte>, len: nat, d1: nat, d2: nat, digit3: char, digit4: char) returns (n: nat)
    requires len + 3 <= out.Length && d1 < 64 && d2 < 64
    requires digit3 == '=' || 0 <= Decode64(digit3) < 64
    requires digit4 == '=' || 0 <= Decode64(digit4) < 64
    modifies out
    ensures len < n <= len + 3
    ensures out[..n] == old(out[..len]) + (if digit3 == '=' then [d1 * 4 + d2 / 16]
                                           else if digit4 == '=' then [d1 * 4 + d2 / 16, d2 % 16 * 16 + Decode64(digit3) / 4]
                                           else [d1 * 4 + d2 / 16, d2 % 16 * 16 + Decode64(digit3) / 4,
                                                 Decode64(digit3) % 4 * 64 + Decode64(digit4)])
  {
    hide Decode64;
    n := len;
    out[n] := d1 * 4 + d2 / 16;
    n := n + 1;
    if digit3 != '=' {
      out[n] := d2 % 16 * 16 + Decode64(digit3) / 4;
      n := n + 1;
      if digit4 != '=' {
        out[n] := Decode64(digit3) % 4 * 64 + Decode64(digit4);
        n := n + 1;
      }
    }
  }

  lemma GroupsStep(s: string)
    requires '\0' !in s
    ensures var g := Ungroup(s);
            (g.None? ==> DecodeGroups(s) == None)
            && (g.Some? ==> |s| >= 4 && '\0' !in s[4..]
                            && DecodeGroups(s) == if !GoesOn(s) then g else if DecodeGroups(s[4..]).None? then None
                                                  else Some(g.value + DecodeGroups(s[4..]).value))
  {
    hide Ungroup;
    UngroupLength(s);
  }

  lemma UngroupIs(s: string)
    ensures var d1, d2, c3, c4 := Decode64(At(s, 0)), Decode64(At(s, 1)), At(s, 2), At(s, 3);
            (Ungroup(s).None? <==> d1 == BAD || d2 == BAD || (c3 != '=' && Decode64(c3) == BAD) || (c4 != '=' && Decode64(c4) == BAD))
            && (Ungroup(s).Some? ==>
                  Ungroup(s).value == if c3 == '=' then [d1 * 4 + d2 / 16]
                  else if c4 == '=' then [d1 * 4 + d2 / 16, d2 % 16 * 16 + Decode64(c3) / 4]
                  else [d1 * 4 + d2 / 16, d2 % 16 * 16 + Decode64(c3) / 4, Decode64(c3) % 4 * 64 + Decode64(c4)])
  {
    hide Decode64;
  }

  /** One group: where its bytes end in `out`, or -1. */
  method DecodeGroup(out: array<Byte>, len: nat, s: string) returns (n: int)
    requires '\0' !in s && len + |s| / 4 * 3 <= out.Length
    modifies out
    ensures n == -1 <==> Ungroup(s).None?
    ensures n != -1 ==> len < n <= len + 3 <= out.Length && out[..n] == old(out[..len]) + Ungroup(s).value
    ensures n == -1 ==> out[..] == old(out[..])
  {
    hide Ungroup, Decode64;
    GroupsStep(s);
    UngroupIs(s);
    var digit1, digit2, digit3, digit4 := At(s, 0), At(s, 1), At(s, 2), At(s, 3);
    if Decode64(digit1) == BAD {
      return -1;
    }
    if Decode64(digit2) == BAD {
      return -1;
    }
    if digit3 != '=' && Decode64(digit3) == BAD {
      return -1;
    }
    if digit4 != '=' && Decode64(digit4) == BAD {
      return -1;
    }
    ValuesBound(digit1, digit2, digit3, digit4);
    n := PutBytes(out, len, Decode64(digit1), Decode64(digit2), digit3, digit4);
  }

  /** `base64_decode`: the number of bytes, or -1. */
  method DecodeInto(out: array<Byte>, text: string) returns (len: int)
    requires '\0' !in text && out.Length >= |text| / 4 * 3
    modifies out
    ensures len == -1 <==> Decode(text).None?
    ensures len >= 0 ==> len <= out.Length && out[..len] == Decode(text).value
    ensures len >= -1
  {
    hide DecodeGroups, Ungroup, Decode64, GoesOn;
    var s := text;
    if At(s, 0) == '+' && At(s, 1) == ' ' {
      s := s[2..];
    }
    if At(s, 0) == '\r' {
      assert out[..0] == [];
      return 0;
    }
    ghost var all := DecodeGroups(s);
    len := 0;
    assert out[..0] == [];
    assert all.Some? ==> [] + all.value == all.value;
    var more := true;
    while more
      invariant 0 <= len <= out.Length && '\0' !in s && (more ==> len + |s| / 4 * 3 <= out.Length)
      invariant more ==> all == if DecodeGroups(s).None? then None else Some(out[..len] + DecodeGroups(s).value)
      invariant !more ==> all == Some(out[..len])
      decreases |s|, more
    {
      GroupsStep(s);
      ghost var done := out[..len];
      var n := DecodeGroup(out, len, s);
      if n < 0 {
        return -1;
      }
      len := n;
      more := GoesOn(s);
      DecodeStep(done, s);
      s := s[4..];
    }
  }
}
