/** The document tree of TinyXML as a value. */
module XmlTree {
  datatype Attr = Attr(name: string, value: string)

  datatype XmlNode =
    | Element(name: string, attrs: seq<Attr>, kids: seq<XmlNode>)
    | Comment(value: string)
    | Text(value: string, cdata: bool)
    | Unknown(value: string)
    | Declaration(version: string, encoding: string, standalone: string)

  predicate IsPlainText(n: XmlNode) {
    n.Text? && !n.cdata
  }

  /** An element with these children is printed on one line. */
  predicate OneText(kids: seq<XmlNode>) {
    |kids| == 1 && IsPlainText(kids[0])
  }

  // ---------- iterating over attributes ----------

  /** `TiXmlAttribute::Next` takes such an attribute for the end. */
  predicate Blank(a: Attr) {
    a.name == "" && a.value == ""
  }

  /** The attributes that iteration shows: those before the first blank one that is not itself the first. */
  function Shown(attrs: seq<Attr>): (r: seq<Attr>)
    ensures r <= attrs
  {
    if attrs == [] then [] else [attrs[0]] + UptoBlank(attrs[1..])
  }

  function UptoBlank(attrs: seq<Attr>): (r: seq<Attr>)
    ensures r <= attrs
  {
    if attrs == [] || Blank(attrs[0]) then [] else [attrs[0]] + UptoBlank(attrs[1..])
  }

  lemma {:induction false} UptoBlankIs(attrs: seq<Attr>, k: nat)
    requires k <= |attrs| && (k < |attrs| ==> Blank(attrs[k])) && forall i :: 0 <= i < k ==> !Blank(attrs[i])
    ensures UptoBlank(attrs) == attrs[..k]
  {
    if k > 0 {
      UptoBlankIs(attrs[1..], k - 1);
      assert attrs[..k] == [attrs[0]] + attrs[1..][..k - 1];
    }
  }

  lemma ShownIs(attrs: seq<Attr>, k: nat)
    requires 0 < k <= |attrs|
    ensures (k < |attrs| ==> Blank(attrs[k])) && (forall i :: 0 < i < k ==> !Blank(attrs[i])) ==>
              Shown(attrs) == attrs[..k]
  {
    if (k < |attrs| ==> Blank(attrs[k])) && (forall i :: 0 < i < k ==> !Blank(attrs[i])) {
      UptoBlankIs(attrs[1..], k - 1);
      assert attrs[..k] == [attrs[0]] + attrs[1..][..k - 1];
    }
  }

  /** Iteration shows every attribute exactly if none but the first has an empty name and an empty value. */
  lemma ShownIff(attrs: seq<Attr>)
    ensures Shown(attrs) == attrs <==> forall i :: 0 < i < |attrs| ==> attrs[i] != Attr("", "")
  {
    assert forall a: Attr :: Blank(a) <==> a == Attr("", "");
    if forall i :: 0 < i < |attrs| ==> !Blank(attrs[i]) {
      if attrs != [] {
        ShownIs(attrs, |attrs|);
      }
    } else {
      var k := 1;
      while !Blank(attrs[k])
        invariant 0 < k < |attrs| && forall i :: 0 < i < k ==> !Blank(attrs[i])
        invariant exists i :: k <= i < |attrs| && Blank(attrs[i])
        decreases |attrs| - k
      {
        k := k + 1;
      }
      ShownIs(attrs, k);
    }
  }

  /** Iteration has shown the first `k` attributes, and whether it shows another. */
  ghost predicate Progress(vs: seq<Attr>, k: nat, more: bool) {
    k <= |vs| && (forall i :: 0 < i < k ==> !Blank(vs[i]))
    && (more <==> k < |vs| && (k > 0 ==> !Blank(vs[k])))
  }

  lemma StartProgress(vs: seq<Attr>)
    ensures Progress(vs, 0, vs != [])
  {
  }

  lemma StepProgress(vs: seq<Attr>, k: nat)
    requires Progress(vs, k, true)
    ensures k < |vs| && Progress(vs, k + 1, k + 1 < |vs| && !Blank(vs[k + 1]))
    ensures vs[..k] + [vs[k]] == vs[..k + 1]
  {
  }

  lemma EndProgress(vs: seq<Attr>, k: nat)
    requires Progress(vs, k, false)
    ensures vs[..k] == Shown(vs)
  {
    if k > 0 {
      ShownIs(vs, k);
    }
  }
}
