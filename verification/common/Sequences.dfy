/** Sequences with an element put in or taken out, suffixes, and optional values. */
module Sequences {
  datatype Option<T> = None | Some(value: T)

  function Inserted<T>(s: seq<T>, i: nat, c: T): seq<T>
    requires i <= |s|
  {
    s[..i] + [c] + s[i..]
  }

  lemma InsertedIs<T>(s: seq<T>, i: nat, c: T)
    requires i <= |s|
    ensures |Inserted(s, i, c)| == |s| + 1
    ensures forall j :: 0 <= j < |s| + 1 ==>
              Inserted(s, i, c)[j] == if j < i then s[j] else if j == i then c else s[j - 1]
  {
  }

  lemma InsertedEnds<T>(s: seq<T>, c: T)
    ensures Inserted(s, 0, c) == [c] + s && Inserted(s, |s|, c) == s + [c]
  {
  }

  function Without<T>(s: seq<T>, i: nat): seq<T>
    requires i < |s|
  {
    s[..i] + s[i + 1..]
  }

  lemma WithoutIs<T>(s: seq<T>, i: nat)
    requires i < |s|
    ensures |Without(s, i)| == |s| - 1
    ensures forall j :: 0 <= j < |s| - 1 ==> Without(s, i)[j] == if j < i then s[j] else s[j + 1]
  {
  }

  predicate IsSuffix<T(==)>(s: seq<T>, t: seq<T>) {
    |s| <= |t| && t[|t| - |s|..] == s
  }

  lemma SuffixGrows<T>(s: seq<T>, t: seq<T>, m: seq<T>)
    requires IsSuffix(s, t)
    ensures IsSuffix(s + m, t + m)
  {
  }

  lemma SuffixDrops<T>(lost: seq<T>, s: seq<T>, t: seq<T>)
    requires IsSuffix(lost + s, t)
    ensures IsSuffix(s, t)
  {
    assert t[|t| - |s|..] == t[|t| - |lost + s|..][|lost|..];
  }

  lemma Regroup<T>(a: seq<T>, b: seq<T>, c: seq<T>)
    ensures a + (b + c) == a + b + c
  {
  }

  lemma TakeTail<T>(s: seq<T>, k: nat)
    requires 0 < k <= |s|
    ensures s[..k][1..] == s[1..][..k - 1]
  {
  }
}
