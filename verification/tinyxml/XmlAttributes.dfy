/** TiXmlAttributeSet: a ring of attributes through a sentinel. */
module XmlAttributes {
  import opened Sequences
  import opened XmlTree

  class Attribute {
    const name: string
    var value: string
    var next: Attribute?
    var prev: Attribute?

    constructor (name: string, value: string)
      ensures this.name == name && this.value == value && next == null && prev == null
    {
      this.name, this.value, next, prev := name, value, null, null;
    }
  }

  /** The attribute at `i`, or the sentinel on both sides. */
  ghost function Ring(list: seq<Attribute>, sentinel: Attribute, i: int): Attribute {
    if 0 <= i < |list| then list[i] else sentinel
  }

  /** The ring is linked in both directions. */
  ghost predicate Linked(list: seq<Attribute>, sentinel: Attribute)
    reads sentinel`next, sentinel`prev, list`next, list`prev
  {
    sentinel.next == Ring(list, sentinel, 0) && sentinel.prev == Ring(list, sentinel, |list| - 1)
    && (forall i {:trigger list[i].next} :: 0 <= i < |list| ==> list[i].next == Ring(list, sentinel, i + 1))
    && (forall i {:trigger list[i].prev} :: 0 <= i < |list| ==> list[i].prev == Ring(list, sentinel, i - 1))
  }

  predicate DistinctNames(list: seq<Attribute>) {
    forall i, j :: 0 <= i < j < |list| ==> list[i].name != list[j].name
  }

  lemma OnlyOne(list: seq<Attribute>, k: nat)
    requires DistinctNames(list) && k < |list|
    ensures forall i :: 0 <= i < |list| && i != k ==> list[i].name != list[k].name && list[i] != list[k]
  {
  }

  /** The links that joining the neighbours of attribute `k` leaves. */
  ghost predicate Spliced(list: seq<Attribute>, sentinel: Attribute, k: nat)
    requires k < |list|
    reads sentinel`next, sentinel`prev, list`next, list`prev
  {
    sentinel.next == Ring(list, sentinel, if k == 0 then 1 else 0)
    && sentinel.prev == Ring(list, sentinel, if k == |list| - 1 then k - 1 else |list| - 1)
    && (forall i {:trigger list[i].next} :: 0 <= i < |list| && i != k ==>
          list[i].next == Ring(list, sentinel, if i == k - 1 then k + 1 else i + 1))
    && (forall i {:trigger list[i].prev} :: 0 <= i < |list| && i != k ==>
          list[i].prev == Ring(list, sentinel, if i == k + 1 then k - 1 else i - 1))
  }

  lemma WithoutNext(list: seq<Attribute>, sentinel: Attribute, k: nat, i: nat)
    requires k < |list| && Spliced(list, sentinel, k) && i < |list| - 1
    ensures Without(list, k)[i].next == Ring(Without(list, k), sentinel, i + 1)
  {
    if i < k {
      assert list[i].next == Ring(list, sentinel, if i == k - 1 then k + 1 else i + 1);
    } else {
      assert list[i + 1].next == Ring(list, sentinel, i + 2);
    }
  }

  lemma WithoutPrev(list: seq<Attribute>, sentinel: Attribute, k: nat, i: nat)
    requires k < |list| && Spliced(list, sentinel, k) && i < |list| - 1
    ensures Without(list, k)[i].prev == Ring(Without(list, k), sentinel, i - 1)
  {
    if i < k {
      assert list[i].prev == Ring(list, sentinel, i - 1);
    } else {
      assert list[i + 1].prev == Ring(list, sentinel, if i == k then k - 1 else i);
    }
  }

  lemma WithoutEnds(list: seq<Attribute>, sentinel: Attribute, k: nat)
    requires k < |list| && Spliced(list, sentinel, k)
    ensures sentinel.next == Ring(Without(list, k), sentinel, 0)
    ensures sentinel.prev == Ring(Without(list, k), sentinel, |list| - 2) && |Without(list, k)| == |list| - 1
  {
  }

  lemma SplicedIsLinked(list: seq<Attribute>, sentinel: Attribute, k: nat)
    requires k < |list| && Spliced(list, sentinel, k)
    ensures Linked(Without(list, k), sentinel)
  {
    hide Without, Ring, Spliced;
    WithoutEnds(list, sentinel, k);
    forall i | 0 <= i < |Without(list, k)|
      ensures Without(list, k)[i].next == Ring(Without(list, k), sentinel, i + 1)
    {
      WithoutNext(list, sentinel, k, i);
    }
    forall i | 0 <= i < |Without(list, k)|
      ensures Without(list, k)[i].prev == Ring(Without(list, k), sentinel, i - 1)
    {
      WithoutPrev(list, sentinel, k, i);
    }
  }

  lemma AddLinks(s: seq<Attribute>, a: Attribute, sentinel: Attribute)
    requires a.next == sentinel && a.prev == Ring(s, sentinel, |s| - 1) && sentinel.prev == a
    requires sentinel.next == if s == [] then a else s[0]
    requires forall i {:trigger s[i].next} :: 0 <= i < |s| ==>
              s[i].next == if i == |s| - 1 then a else Ring(s, sentinel, i + 1)
    requires forall i {:trigger s[i].prev} :: 0 <= i < |s| ==> s[i].prev == Ring(s, sentinel, i - 1)
    ensures Linked(s + [a], sentinel)
  {
  }

  ghost predicate DistinctValues(vs: seq<Attr>) {
    forall i, j :: 0 <= i < j < |vs| ==> vs[i].name != vs[j].name
  }

  ghost function Values(list: seq<Attribute>): (vs: seq<Attr>)
    reads list
    ensures |vs| == |list| && forall i :: 0 <= i < |vs| ==> vs[i] == Attr(list[i].name, list[i].value)
  {
    seq(|list|, i requires 0 <= i < |list| reads list => Attr(list[i].name, list[i].value))
  }

  /** What setting an attribute means: a known name keeps its place, a new one goes to the end. */
  function SetIn(attrs: seq<Attr>, name: string, value: string): seq<Attr> {
    if attrs == [] then [Attr(name, value)]
    else if attrs[0].name == name then [Attr(name, value)] + attrs[1..]
    else [attrs[0]] + SetIn(attrs[1..], name, value)
  }

  class AttributeSet {
    const sentinel: Attribute
    ghost var list: seq<Attribute>
    /** The attributes as values. */
    ghost var contents: seq<Attr>

    ghost predicate Valid()
      reads this, sentinel`next, sentinel`prev, sentinel`value, list
    {
      contents == Values(list) && Linked(list, sentinel) && DistinctNames(list)
      && sentinel.name == "" && sentinel.value == "" && sentinel !in list
    }

    constructor ()
      ensures Valid() && list == [] && contents == [] && fresh(sentinel)
    {
      sentinel := new Attribute("", "");
      list, contents := [], [];
      new;
      sentinel.next := sentinel;
      sentinel.prev := sentinel;
    }

    method First() returns (a: Attribute?)
      requires Valid()
      ensures a == if list == [] then null else list[0]
    {
      a := if sentinel.next == sentinel then null else sentinel.next;
    }

    method Find(name: string) returns (a: Attribute?, ghost k: nat)
      requires Valid()
      ensures a == null <==> forall i :: 0 <= i < |list| ==> list[i].name != name
      ensures a != null ==> k < |list| && a == list[k] && a.name == name
    {
      k := 0;
      var node := sentinel.next;
      while node != sentinel
        invariant k <= |list| && node == Ring(list, sentinel, k)
        invariant forall j :: 0 <= j < k ==> list[j].name != name
        decreases |list| - k
      {
        if node.name == name {
          return node, k;
        }
        node := node.next;
        k := k + 1;
      }
      return null, k;
    }

    /** The assignments of `Add`. */
    method Hook(addMe: Attribute)
      requires Linked(list, sentinel) && addMe != sentinel && addMe !in list && sentinel !in list
      modifies addMe`next, addMe`prev, sentinel`next, sentinel`prev, list`next
      ensures addMe.next == sentinel && addMe.prev == old(sentinel.prev) && sentinel.prev == addMe
      ensures sentinel.next == if list == [] then addMe else old(sentinel.next)
      ensures forall i {:trigger list[i].next} :: 0 <= i < |list| ==>
                list[i].next == if i == |list| - 1 then addMe else old(list[i].next)
    {
      addMe.next := sentinel;
      addMe.prev := sentinel.prev;
      sentinel.prev.next := addMe;
      sentinel.prev := addMe;
    }

    method Add(addMe: Attribute)
      requires Valid() && addMe != sentinel && forall i :: 0 <= i < |list| ==> list[i].name != addMe.name
      modifies this, addMe`next, addMe`prev, sentinel`next, sentinel`prev, list`next
      ensures Valid() && list == old(list) + [addMe] && contents == old(contents) + [Attr(addMe.name, addMe.value)]
    {
      ghost var s := list;
      Hook(addMe);
      assert list == s;
      AddLinks(s, addMe, sentinel);
      list := s + [addMe];
      contents := Values(list);
      assert contents == old(contents) + [Attr(addMe.name, addMe.value)];
    }

    /** The neighbours of an attribute are joined. */
    method Splice(node: Attribute, ghost k: nat)
      requires Linked(list, sentinel) && DistinctNames(list) && sentinel !in list && k < |list| && node == list[k]
      modifies sentinel`next, sentinel`prev, list`next, list`prev
      ensures Spliced(list, sentinel, k) && node.next == null && node.prev == null
    {
      hide DistinctNames;
      OnlyOne(list, k);
      if k > 0 {
        OnlyOne(list, k - 1);
      }
      if k + 1 < |list| {
        OnlyOne(list, k + 1);
      }
      var prev, next := node.prev, node.next;
      assert prev == Ring(list, sentinel, k - 1) && next == Ring(list, sentinel, k + 1);
      prev.next := next;
      next.prev := prev;
      node.next := null;
      node.prev := null;
    }

    /** `Remove`; the attribute must be in the list. */
    method Remove(removeMe: Attribute, ghost k: nat)
      requires Valid() && k < |list| && removeMe == list[k]
      modifies this, sentinel`next, sentinel`prev, list`next, list`prev
      ensures Valid() && list == Without(old(list), k) && removeMe.next == null && removeMe.prev == null
    {
      hide Spliced, Without, DistinctNames;
      ghost var i := 0;
      var node := sentinel.next;
      while node != removeMe
        invariant i <= k && node == Ring(list, sentinel, i)
        decreases k - i
      {
        node := node.next;
        i := i + 1;
      }
      WithoutNames(list, k, sentinel);
      Splice(node, k);
      SplicedIsLinked(list, sentinel, k);
      list := Without(list, k);
      contents := Values(list);
    }

    /** `TiXmlElement::SetAttribute`. */
    method SetAttribute(name: string, value: string)
      requires Valid()
      modifies this, sentinel`next, sentinel`prev, list
      ensures Valid() && contents == SetIn(old(contents), name, value)
      ensures forall i :: 0 <= i < |list| ==> (i < |old(list)| && list[i] == old(list[i])) || fresh(list[i])
    {
      hide SetIn, Linked, DistinctNames;
      ghost var vs := Values(list);
      var node, k := Find(name);
      if node != null {
        OnlyOne(list, k);
        SetKnown(vs, k, name, value);
        node.value := value;
        contents := Values(list);
        assert Values(list) == vs[k := Attr(name, value)];
        return;
      }
      SetNew(vs, name, value);
      var attrib := new Attribute(name, value);
      Add(attrib);
      assert Values(list) == vs + [Attr(name, value)];
    }

    /** `TiXmlAttribute::Next`: an attribute without name and value is taken for the sentinel. */
    method Next(a: Attribute, ghost k: nat) returns (n: Attribute?)
      requires Valid() && k < |list| && a == list[k]
      ensures n == if k + 1 == |list| || (list[k + 1].name == "" && list[k + 1].value == "") then null else list[k + 1]
    {
      n := if a.next.value == "" && a.next.name == "" then null else a.next;
    }

    lemma ContentsAre()
      requires Valid()
      ensures DistinctNames(list) && |contents| == |list|
      ensures forall i :: 0 <= i < |list| ==> contents[i] == Attr(list[i].name, list[i].value)
    {
    }

    /** The first loop of `TiXmlElement::CopyTo`: the attributes that iteration shows are set on a new element. */
    method CopyTo(target: AttributeSet)
      requires Valid() && target.Valid() && target.list == [] && target != this && target.sentinel != sentinel
               && target.sentinel !in list
      modifies target, target.sentinel`next, target.sentinel`prev
      ensures Valid() && target.Valid() && list == old(list) && contents == old(contents)
      ensures target.contents == Shown(contents) && forall i :: 0 <= i < |target.list| ==> fresh(target.list[i])
    {
      hide Valid, SetIn, Shown, Progress, DistinctValues, Values;
      ContentsAre();
      target.ContentsAre();
      ghost var vs := contents;
      ghost var k := 0;
      StartProgress(vs);
      ValuesDistinct(list);
      var attribute := First();
      while attribute != null
        invariant Valid() && list == old(list) && contents == vs && target.Valid()
        invariant k <= |list| && (attribute != null ==> k < |list| && attribute == list[k])
        invariant forall i :: 0 <= i < |target.list| ==> fresh(target.list[i])
        invariant target.contents == vs[..k] && Progress(vs, k, attribute != null)
        decreases |list| - k
      {
        ContentsAre();
        StepProgress(vs, k);
        EarlierDiffer(vs, k);
        SetNew(vs[..k], attribute.name, attribute.value);
        target.SetAttribute(attribute.name, attribute.value);
        attribute := Next(attribute, k);
        k := k + 1;
      }
      EndProgress(vs, k);
    }
  }

  lemma EarlierDiffer(vs: seq<Attr>, k: nat)
    requires k < |vs| && DistinctValues(vs)
    ensures forall i :: 0 <= i < k ==> vs[..k][i].name != vs[k].name
  {
  }

  lemma ValuesDistinct(list: seq<Attribute>)
    requires DistinctNames(list)
    ensures DistinctValues(Values(list))
  {
  }

  lemma {:induction false} SetKnown(attrs: seq<Attr>, k: nat, name: string, value: string)
    requires k < |attrs| && attrs[k].name == name && forall i :: 0 <= i < k ==> attrs[i].name != name
    ensures SetIn(attrs, name, value) == attrs[k := Attr(name, value)]
  {
    if k > 0 {
      SetKnown(attrs[1..], k - 1, name, value);
    }
  }

  lemma {:induction false} SetNew(attrs: seq<Attr>, name: string, value: string)
    requires forall i :: 0 <= i < |attrs| ==> attrs[i].name != name
    ensures SetIn(attrs, name, value) == attrs + [Attr(name, value)]
  {
    if attrs != [] {
      SetNew(attrs[1..], name, value);
      assert [attrs[0]] + (attrs[1..] + [Attr(name, value)]) == attrs + [Attr(name, value)];
    }
  }

  lemma WithoutNames(list: seq<Attribute>, k: nat, sentinel: Attribute)
    requires k < |list| && DistinctNames(list) && sentinel !in list
    ensures DistinctNames(Without(list, k)) && sentinel !in Without(list, k)
  {
  }
}
