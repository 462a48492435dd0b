/** TiXmlNode: the document object model as linked nodes. */
module XmlDom {
  import opened Sequences
  import opened XmlTree
  import opened XmlAttributes

  datatype Kind = DocumentNode | ElementNode | CommentNode | UnknownNode | TextNode

  ghost function At(s: seq<Node>, i: int): Node? {
    if 0 <= i < |s| then s[i] else null
  }

  /** Walking from the first child of `p` by `next` and from the last by `prev` both show `s`. */
  ghost predicate Links(p: Node, s: seq<Node>)
    reads p, s
  {
    p.firstChild == At(s, 0) && p.lastChild == At(s, |s| - 1)
    && (forall i {:trigger s[i].next} :: 0 <= i < |s| ==> s[i].next == At(s, i + 1))
    && (forall i {:trigger s[i].prev} :: 0 <= i < |s| ==> s[i].prev == At(s, i - 1))
  }

  /** `s` are the children of `p`, linked in both directions. */
  ghost predicate Chain(p: Node, s: seq<Node>)
    reads p, s
  {
    Links(p, s) && forall i :: 0 <= i < |s| ==> s[i].parent == p && s[i].home == p && s[i].index == i && s[i] != p
  }

  // ---------- sequences with one element more or less ----------

  lemma InsertedAt(s: seq<Node>, i: nat, c: Node, j: int)
    requires i <= |s|
    ensures |Inserted(s, i, c)| == |s| + 1
    ensures At(Inserted(s, i, c), j) == if j < i then At(s, j) else if j == i then c else At(s, j - 1)
  {
  }

  lemma WithoutAt(s: seq<Node>, i: nat, j: int)
    requires i < |s|
    ensures |Without(s, i)| == |s| - 1
    ensures At(Without(s, i), j) == if j < i then At(s, j) else At(s, j + 1)
  {
  }

  /** Node `c` has been put between the nodes of `s`, at `i`. */
  ghost predicate Threaded(p: Node, s: seq<Node>, i: nat, c: Node)
    requires i <= |s|
    reads p, c, s
  {
    p.firstChild == (if i == 0 then c else At(s, 0)) && p.lastChild == (if i == |s| then c else At(s, |s| - 1))
    && (forall j {:trigger s[j].next} :: 0 <= j < |s| ==> s[j].next == if j == i - 1 then c else At(s, j + 1))
    && (forall j {:trigger s[j].prev} :: 0 <= j < |s| ==> s[j].prev == if j == i then c else At(s, j - 1))
    && (forall j :: 0 <= j < |s| ==>
          s[j].parent == p && s[j].home == p && s[j].index == (if j < i then j else j + 1) && s[j] != p)
    && c.next == At(s, i) && c.prev == At(s, i - 1) && c.parent == p && c.home == p && c.index == i && c != p
  }

  /** Child `j` is linked to the children next to it. */
  ghost predicate LinkedAt(p: Node, s: seq<Node>, j: nat)
    requires j < |s|
    reads s
  {
    s[j].next == At(s, j + 1) && s[j].prev == At(s, j - 1) && s[j].parent == p && s[j].home == p && s[j].index == j
    && s[j] != p
  }

  lemma MakeChain(p: Node, s: seq<Node>)
    requires p.firstChild == At(s, 0) && p.lastChild == At(s, |s| - 1)
    requires forall j {:trigger LinkedAt(p, s, j)} :: 0 <= j < |s| ==> LinkedAt(p, s, j)
    ensures Chain(p, s)
  {
    assert forall j {:trigger s[j]} :: 0 <= j < |s| ==> LinkedAt(p, s, j);
  }

  lemma ThreadedAt(p: Node, s: seq<Node>, i: nat, c: Node, j: nat)
    requires i <= |s| && Threaded(p, s, i, c) && j <= |s|
    ensures j < |Inserted(s, i, c)| && LinkedAt(p, Inserted(s, i, c), j)
  {
    InsertedAt(s, i, c, j);
    InsertedAt(s, i, c, j + 1);
    InsertedAt(s, i, c, j - 1);
    InsertedIs(s, i, c);
    hide Inserted;
  }

  lemma ThreadedIsChain(p: Node, s: seq<Node>, i: nat, c: Node)
    requires i <= |s| && Threaded(p, s, i, c)
    ensures Chain(p, Inserted(s, i, c))
  {
    hide Inserted, Chain, LinkedAt;
    var t := Inserted(s, i, c);
    InsertedAt(s, i, c, 0);
    InsertedAt(s, i, c, |s|);
    forall j | 0 <= j < |t|
      ensures LinkedAt(p, t, j)
    {
      ThreadedAt(p, s, i, c, j);
    }
    MakeChain(p, t);
  }

  /** Node `i` of `s` has been passed over. */
  ghost predicate Skipped(p: Node, s: seq<Node>, i: nat)
    requires i < |s|
    reads p, s
  {
    p.firstChild == At(s, if i == 0 then 1 else 0) && p.lastChild == At(s, if i == |s| - 1 then i - 1 else |s| - 1)
    && (forall j {:trigger s[j].next} :: 0 <= j < |s| && j != i ==> s[j].next == At(s, if j == i - 1 then i + 1 else j + 1))
    && (forall j {:trigger s[j].prev} :: 0 <= j < |s| && j != i ==> s[j].prev == At(s, if j == i + 1 then i - 1 else j - 1))
    && (forall j :: 0 <= j < |s| && j != i ==>
          s[j].parent == p && s[j].home == p && s[j].index == (if j < i then j else j - 1) && s[j] != p)
  }

  lemma SkippedAt(p: Node, s: seq<Node>, i: nat, j: nat)
    requires i < |s| && Skipped(p, s, i) && j < |s| - 1
    ensures j < |Without(s, i)| && LinkedAt(p, Without(s, i), j)
  {
    var k := if j < i then j else j + 1;
    assert s[k].next == At(s, if k == i - 1 then i + 1 else k + 1);
    assert s[k].prev == At(s, if k == i + 1 then i - 1 else k - 1);
  }

  lemma SkippedIsChain(p: Node, s: seq<Node>, i: nat)
    requires i < |s| && Skipped(p, s, i)
    ensures Chain(p, Without(s, i))
  {
    hide Without, Chain, LinkedAt;
    var t := Without(s, i);
    WithoutAt(s, i, 0);
    WithoutAt(s, i, |s| - 2);
    assert p.firstChild == At(t, 0) && p.lastChild == At(t, |t| - 1);
    forall j | 0 <= j < |t|
      ensures LinkedAt(p, t, j)
    {
      SkippedAt(p, s, i, j);
    }
    MakeChain(p, t);
  }

  /** Node `c` has taken the place of node `i` of `s`. */
  ghost predicate Exchanged(p: Node, s: seq<Node>, i: nat, c: Node)
    requires i < |s|
    reads p, c, s
  {
    p.firstChild == (if i == 0 then c else At(s, 0)) && p.lastChild == (if i + 1 == |s| then c else At(s, |s| - 1))
    && (forall j {:trigger s[j].next} :: 0 <= j < |s| && j != i ==> s[j].next == if j == i - 1 then c else At(s, j + 1))
    && (forall j {:trigger s[j].prev} :: 0 <= j < |s| && j != i ==> s[j].prev == if j == i + 1 then c else At(s, j - 1))
    && (forall j :: 0 <= j < |s| && j != i ==> s[j].parent == p && s[j].home == p && s[j].index == j && s[j] != p)
    && c.next == At(s, i + 1) && c.prev == At(s, i - 1) && c.parent == p && c.home == p && c.index == i && c != p
  }

  lemma ExchangedAt(p: Node, s: seq<Node>, i: nat, c: Node, j: nat)
    requires i < |s| && Exchanged(p, s, i, c) && j < |s|
    ensures LinkedAt(p, s[i := c], j)
  {
    if j != i {
      assert s[i := c][j] == s[j];
      assert s[j].next == if j == i - 1 then c else At(s, j + 1);
      assert s[j].prev == if j == i + 1 then c else At(s, j - 1);
    }
  }

  lemma ExchangedIsChain(p: Node, s: seq<Node>, i: nat, c: Node)
    requires i < |s| && Exchanged(p, s, i, c)
    ensures Chain(p, s[i := c])
  {
    hide Chain, LinkedAt;
    var t := s[i := c];
    assert p.firstChild == At(t, 0) && p.lastChild == At(t, |t| - 1);
    forall j | 0 <= j < |t|
      ensures LinkedAt(p, t, j)
    {
      ExchangedAt(p, s, i, c, j);
    }
    MakeChain(p, t);
  }

  // ---------- worlds, what is below a node, and its tree as a value ----------

  /** Nodes that are linked among themselves only, with a rank that falls from parent to child. */
  datatype World = World(nodes: set<Node>, rank: map<Node, nat>, bound: nat)

  ghost predicate Ranked(w: World, n: Node)
    reads n
  {
    n in w.rank && w.rank[n] < w.bound
    && forall i :: 0 <= i < |n.kids| ==> n.kids[i] in w.nodes && n.kids[i] in w.rank && w.rank[n.kids[i]] < w.rank[n]
  }

  /** A linked node is among the children of its parent. */
  ghost predicate Placed(w: World, n: Node)
    reads w.nodes, n
  {
    n.home != null ==> n.home in w.nodes && At(n.home.kids, n.index) == n
  }

  /** All links agree and there is no cycle. */
  ghost predicate Forest(w: World)
    reads w.nodes
  {
    forall n :: n in w.nodes ==> Ranked(w, n) && Chain(n, n.kids) && Placed(w, n)
  }

  /** Two worlds together, with the first above the second. */
  ghost function Merge(w: World, v: World): World {
    World(w.nodes + v.nodes,
          map n | n in w.nodes + v.nodes :: if n in v.nodes then (if n in v.rank then v.rank[n] else 0)
                                            else (if n in w.rank then w.rank[n] + v.bound else 0),
          w.bound + v.bound)
  }

  lemma HomeRank(w: World, x: Node)
    requires Forest(w) && x in w.nodes
    ensures x in w.rank && w.rank[x] < w.bound
    ensures x.home != null ==> x.home in w.nodes && x.home in w.rank && w.rank[x] < w.rank[x.home] < w.bound
  {
    assert Ranked(w, x) && Placed(w, x);
    if x.home != null {
      assert Ranked(w, x.home);
    }
  }

  /** Node `n` is `x` or above it. */
  ghost predicate Under(w: World, x: Node, n: Node)
    requires Forest(w) && x in w.nodes
    reads w.nodes
    decreases w.bound - (if x in w.rank then w.rank[x] else 0)
  {
    HomeRank(w, x);
    x == n || (x.home != null && Under(w, x.home, n))
  }

  ghost function Subtree(w: World, n: Node): set<Node>
    requires Forest(w)
    reads w.nodes
  {
    set x | x in w.nodes && Under(w, x, n)
  }

  ghost function Homes(nodes: set<Node>): map<Node, Node?>
    reads nodes`home
  {
    map n | n in nodes :: n.home
  }

  /** Links lead up. */
  ghost predicate Rising(h: map<Node, Node?>, rank: map<Node, nat>, bound: nat) {
    forall n :: n in h ==>
      n in rank && rank[n] < bound && (h[n] != null ==> h[n] in h && h[n] in rank && rank[n] < rank[h[n]])
  }

  ghost predicate Below(h: map<Node, Node?>, rank: map<Node, nat>, bound: nat, x: Node, n: Node)
    requires Rising(h, rank, bound) && x in h
    decreases bound - rank[x]
  {
    x == n || (h[x] != null && Below(h, rank, bound, h[x], n))
  }

  ghost function Part(w: World, nodes: set<Node>): World {
    World(nodes, w.rank, w.bound)
  }

  /** A node that is linked nowhere and what is below it can be split off. */
  lemma SplitOff(w: World, c: Node)
    requires Forest(w) && c in w.nodes && c.home == null
    ensures Forest(Part(w, Subtree(w, c))) && Forest(Part(w, w.nodes - Subtree(w, c))) && c in Subtree(w, c)
  {
    var t := Subtree(w, c);
    forall n, j | n in w.nodes && 0 <= j < |n.kids|
      ensures n.kids[j] in w.nodes && (n.kids[j] in t <==> n in t)
    {
      assert Ranked(w, n) && Chain(n, n.kids);
    }
    forall n | n in w.nodes
      ensures Ranked(w, n) && Chain(n, n.kids) && Placed(w, n)
      ensures n.home != null ==> (n in t <==> n.home in t)
    {
    }
    forall n | n in t
      ensures Ranked(Part(w, t), n) && Chain(n, n.kids) && Placed(Part(w, t), n)
    {
    }
    var u := w.nodes - t;
    forall n | n in u
      ensures Ranked(Part(w, u), n) && Chain(n, n.kids) && Placed(Part(w, u), n)
    {
    }
  }

  /** The world without a node that is linked nowhere and what is below it. */
  ghost function Delete(w: World, c: Node): World
    requires Forest(w) && c in w.nodes && c.home == null
    reads w.nodes
    ensures Forest(Delete(w, c)) && c !in Delete(w, c).nodes && Delete(w, c).nodes <= w.nodes
  {
    SplitOff(w, c);
    Part(w, w.nodes - Subtree(w, c))
  }

  datatype Tree = Tree(kind: Kind, value: string, cdata: bool, attrs: seq<Attr>, kids: seq<Tree>)

  datatype NodeData = NodeData(kind: Kind, value: string, cdata: bool, attrs: seq<Attr>, kids: seq<Node>)

  /** What the nodes hold. */
  ghost function Data(nodes: set<Node>): map<Node, NodeData>
    reads nodes`value, nodes`cdata, nodes`attrs, nodes`kids
  {
    map n | n in nodes :: NodeData(n.kind, n.value, n.cdata, n.attrs, n.kids)
  }

  ghost predicate Closed(d: map<Node, NodeData>, rank: map<Node, nat>) {
    forall n, i :: n in d && 0 <= i < |d[n].kids| ==>
      n in rank && d[n].kids[i] in d && d[n].kids[i] in rank && rank[d[n].kids[i]] < rank[n]
  }

  ghost function RankOf(rank: map<Node, nat>, n: Node): nat {
    if n in rank then rank[n] else 0
  }

  /** The trees of the first `i` children. */
  ghost function TreesOf(d: map<Node, NodeData>, rank: map<Node, nat>, n: Node, i: nat): (ts: seq<Tree>)
    requires Closed(d, rank) && n in d && i <= |d[n].kids|
    ensures |ts| == i
    decreases RankOf(rank, n), 0, i
  {
    if i == 0 then [] else TreesOf(d, rank, n, i - 1) + [TreeOf(d, rank, d[n].kids[i - 1])]
  }

  ghost function TreeOf(d: map<Node, NodeData>, rank: map<Node, nat>, n: Node): Tree
    requires Closed(d, rank) && n in d
    decreases RankOf(rank, n), 1, 0
  {
    Tree(d[n].kind, d[n].value, d[n].cdata, d[n].attrs, TreesOf(d, rank, n, |d[n].kids|))
  }

  lemma ForestIsClosed(w: World)
    requires Forest(w)
    ensures Closed(Data(w.nodes), w.rank)
  {
    forall n, i | n in w.nodes && 0 <= i < |n.kids|
      ensures n in w.rank && n.kids[i] in w.nodes && n.kids[i] in w.rank && w.rank[n.kids[i]] < w.rank[n]
    {
      assert Ranked(w, n);
    }
  }

  /** The tree below node `n` of a world. */
  ghost function NodeTree(w: World, n: Node): Tree
    requires Forest(w) && n in w.nodes
    reads w.nodes
  {
    ForestIsClosed(w);
    TreeOf(Data(w.nodes), w.rank, n)
  }

  /** No element has two attributes of one name, and a node that is linked nowhere has no parent. */
  ghost predicate Tidy(nodes: set<Node>)
    reads nodes`attrs, nodes`home, nodes`parent
  {
    forall n :: n in nodes ==> DistinctValues(n.attrs) && (n.home == null ==> n.parent == null)
  }

  /** A clone in the making: a node that is linked nowhere, with the trees `ts` below it. */
  ghost predicate Grown(v: World, c: Node, ts: seq<Tree>)
    reads v.nodes, c
  {
    Forest(v) && c in v.nodes && c.home == null && Tidy(v.nodes)
    && (ForestIsClosed(v); TreesOf(Data(v.nodes), v.rank, c, |c.kids|) == ts)
  }

  function ClonesOf(ts: seq<Tree>): seq<Tree>
    decreases ts, 1
  {
    if ts == [] then []
    else
      var last := ts[|ts| - 1];
      ClonesOf(ts[..|ts| - 1]) + (if last.kind == DocumentNode then [] else [CloneOf(last)])
  }

  /** `Clone`: attributes as far as iteration shows them, and the children of elements and documents, but no documents. */
  function CloneOf(t: Tree): Tree
    decreases t, 0
  {
    Tree(t.kind, t.value, t.kind == TextNode && t.cdata, if t.kind == ElementNode then Shown(t.attrs) else [],
         if t.kind == ElementNode || t.kind == DocumentNode then ClonesOf(t.kids) else [])
  }

  ghost predicate Unlinked(d: map<Node, NodeData>, c: Node) {
    forall n, i :: n in d && 0 <= i < |d[n].kids| ==> d[n].kids[i] != c
  }

  /** The last child is child `i`, which has been linked again. */
  ghost predicate LinkedTwice(p: Node, kids: seq<Node>, i: nat)
    requires i < |kids|
    reads p, kids
  {
    p.firstChild == kids[0] && p.lastChild == kids[i] && kids[i].prev == kids[|kids| - 1]
    && (forall j {:trigger kids[j].next} :: 0 <= j < |kids| ==>
          kids[j].next == if j == |kids| - 1 then kids[i] else if j == i then null else kids[j + 1])
    && forall j :: 0 <= j < |kids| ==> kids[j].index == j
  }

  /** What fits the links starts and ends with the first and the last child. */
  lemma FitEnds(p: Node, s: seq<Node>)
    requires Links(p, s) && p.firstChild != null && p.lastChild != null
    ensures p.firstChild.prev == null && p.lastChild.next == null
  {
    assert s[0].prev == null && s[|s| - 1].next == null;
  }

  /** What fits the links starts with the nodes that lead on from the first child. */
  lemma {:induction false} FitFollows(p: Node, kids: seq<Node>, j: nat, s: seq<Node>)
    requires Links(p, s) && j < |kids| && p.firstChild == kids[0]
    requires forall k {:trigger kids[k].next} :: 0 <= k < j ==> kids[k].next == kids[k + 1]
    ensures j < |s| && s[j] == kids[j] && (j > 0 ==> kids[j].prev == kids[j - 1])
  {
    if j > 0 {
      FitFollows(p, kids, j - 1, s);
      assert s[j - 1].next == At(s, j) == kids[j];
      assert s[j].prev == At(s, j - 1);
    }
  }

  /** The links that are left when a child is linked again fit no sequence. */
  lemma NothingFits(p: Node, kids: seq<Node>, i: nat, s: seq<Node>)
    requires i < |kids| && LinkedTwice(p, kids, i)
    ensures !Links(p, s)
  {
    if Links(p, s) {
      FitEnds(p, s);
      hide Links;
      if 0 < i < |kids| - 1 {
        FitFollows(p, kids, i, s);
      }
    }
  }

  class Node {
    const kind: Kind
    var value: string
    var cdata: bool
    /** The contents of the attribute set. */
    var attrs: seq<Attr>
    var parent: Node?
    var firstChild: Node?
    var lastChild: Node?
    var prev: Node?
    var next: Node?
    /** The children in order. */
    ghost var kids: seq<Node>
    /** The node this one is linked under, and its place there. */
    ghost var home: Node?
    ghost var index: nat

    constructor (kind: Kind, value: string)
      ensures this.kind == kind && this.value == value && !cdata && kids == [] && home == null
      ensures parent == null && firstChild == null && lastChild == null && prev == null && next == null
      ensures attrs == []
    {
      this.kind, this.value, cdata, attrs := kind, value, false, [];
      parent, firstChild, lastChild, prev, next := null, null, null, null, null;
      kids, home, index := [], null, 0;
    }

    // ---------- the assignments of the editing methods ----------

    /** The assignments of `LinkEndChild`. */
    method Attach(node: Node)
      requires lastChild == At(kids, |kids| - 1) && node != this && this !in kids
      modifies this`firstChild, this`lastChild, node`parent, node`prev, node`next, kids`next
      ensures node.parent == this && node.prev == old(lastChild) && lastChild == node
      ensures firstChild == if kids == [] then node else old(firstChild)
      ensures forall x {:trigger x.next} :: x in kids + [node] ==>
                x.next == if x == old(lastChild) then node else if x == node then null else old(x.next)
    {
      node.parent := this;
      node.prev := lastChild;
      node.next := null;
      if lastChild != null {
        lastChild.next := node;
      } else {
        firstChild := node;
      }
      lastChild := node;
    }

    /** `LinkEndChild` of a node that is not among the children. */
    method AppendNode(node: Node)
      requires Chain(this, kids) && node != this && node.home != this
      modifies this`firstChild, this`lastChild, this`kids, node`parent, node`prev, node`next, node`home, node`index,
               kids`next
      ensures Chain(this, kids) && kids == Inserted(old(kids), |old(kids)|, node)
    {
      hide Inserted;
      ghost var s := kids;
      assert s != [] ==> s[|s| - 1].home == this;
      Attach(node);
      assert forall j :: 0 <= j < |s| ==> s[j] in s + [node];
      assert node in s + [node];
      node.home, node.index := this, |s|;
      kids := Inserted(s, |s|, node);
      ThreadedIsChain(this, s, |s|, node);
    }

    /** `LinkEndChild` of a node that is a child already: after it no sequence fits the links of the children. */
    method LinkAgain(node: Node) returns (r: Node?)
      requires Chain(this, kids) && node.home == this && node in kids && node.kind != DocumentNode
      modifies this`firstChild, this`lastChild, node`parent, node`prev, node`next, kids`next
      ensures r == node && forall s: seq<Node> :: !Links(this, s)
    {
      ghost var i :| 0 <= i < |kids| && kids[i] == node;
      Attach(node);
      forall j | 0 <= j < |kids|
        ensures kids[j].next == if j == |kids| - 1 then node else if j == i then null else kids[j + 1]
      {
        assert kids[j] in kids + [node];
      }
      forall s: seq<Node>
        ensures !Links(this, s)
      {
        if Links(this, s) {
          NothingFits(this, kids, i, s);
        }
      }
      r := node;
    }

    /** The assignments of `InsertBeforeChild`. */
    method SetBefore(node: Node, beforeThis: Node, ghost i: nat)
      requires i < |kids| && beforeThis == kids[i] && node != this && beforeThis.prev == At(kids, i - 1)
      requires forall j :: 0 <= j < |kids| ==> kids[j].index == j && kids[j] != this && kids[j] != node
      modifies this`firstChild, node`parent, node`prev, node`next, node`home, node`index, kids`index, kids`prev, kids`next
      ensures node.parent == this && node.next == beforeThis && node.prev == old(beforeThis.prev)
      ensures firstChild == (if i == 0 then node else old(firstChild)) && node.home == this && node.index == i
      ensures forall j {:trigger kids[j].next} :: 0 <= j < |kids| ==>
                kids[j].next == if j == i - 1 then node else old(kids[j].next)
      ensures forall j {:trigger kids[j].prev} :: 0 <= j < |kids| ==>
                kids[j].prev == if j == i then node else old(kids[j].prev)
      ensures forall j {:trigger kids[j].index} :: 0 <= j < |kids| ==> kids[j].index == if j < i then j else j + 1
    {
      node.parent := this;
      node.next := beforeThis;
      node.prev := beforeThis.prev;
      if beforeThis.prev != null {
        beforeThis.prev.next := node;
      } else {
        firstChild := node;
      }
      beforeThis.prev := node;
      forall j | i <= j < |kids| {
        kids[j].index := j + 1;
      }
      node.home, node.index := this, i;
    }

    /** The assignments of `InsertAfterChild`. */
    method SetAfter(node: Node, afterThis: Node, ghost i: nat)
      requires i < |kids| && afterThis == kids[i] && node != this && afterThis.next == At(kids, i + 1)
      requires forall j :: 0 <= j < |kids| ==> kids[j].index == j && kids[j] != this && kids[j] != node
      modifies this`lastChild, node`parent, node`prev, node`next, node`home, node`index, kids`index, kids`prev, kids`next
      ensures node.parent == this && node.prev == afterThis && node.next == old(afterThis.next)
      ensures lastChild == (if i + 1 == |kids| then node else old(lastChild)) && node.home == this
              && node.index == i + 1
      ensures forall j {:trigger kids[j].next} :: 0 <= j < |kids| ==>
                kids[j].next == if j == i then node else old(kids[j].next)
      ensures forall j {:trigger kids[j].prev} :: 0 <= j < |kids| ==>
                kids[j].prev == if j == i + 1 then node else old(kids[j].prev)
      ensures forall j {:trigger kids[j].index} :: 0 <= j < |kids| ==> kids[j].index == if j <= i then j else j + 1
    {
      node.parent := this;
      node.prev := afterThis;
      node.next := afterThis.next;
      if afterThis.next != null {
        afterThis.next.prev := node;
      } else {
        lastChild := node;
      }
      afterThis.next := node;
      forall j | i < j < |kids| {
        kids[j].index := j + 1;
      }
      node.home, node.index := this, i + 1;
    }

    /** The assignments of `ReplaceChild`. */
    method SetInPlace(node: Node, replaceThis: Node, ghost i: nat)
      requires i < |kids| && replaceThis == kids[i] && node != this
      requires replaceThis.prev == At(kids, i - 1) && replaceThis.next == At(kids, i + 1)
      requires forall j :: 0 <= j < |kids| ==> kids[j].index == j && kids[j] != this && kids[j] != node
      modifies this`firstChild, this`lastChild, node`parent, node`prev, node`next, node`home, node`index
      modifies replaceThis`home, kids`prev, kids`next
      ensures node.parent == this && node.prev == old(replaceThis.prev) && node.next == old(replaceThis.next)
      ensures firstChild == (if i == 0 then node else old(firstChild))
              && lastChild == (if i + 1 == |kids| then node else old(lastChild))
      ensures node.home == this && node.index == i && replaceThis.home == null
      ensures forall j {:trigger kids[j].next} :: 0 <= j < |kids| && j != i ==>
                kids[j].next == if j == i - 1 then node else old(kids[j].next)
      ensures forall j {:trigger kids[j].prev} :: 0 <= j < |kids| && j != i ==>
                kids[j].prev == if j == i + 1 then node else old(kids[j].prev)
    {
      node.next := replaceThis.next;
      node.prev := replaceThis.prev;
      if replaceThis.next != null {
        replaceThis.next.prev := node;
      } else {
        lastChild := node;
      }
      if replaceThis.prev != null {
        replaceThis.prev.next := node;
      } else {
        firstChild := node;
      }
      node.parent := this;
      replaceThis.home := null;
      node.home, node.index := this, i;
    }

    /** The assignments of `RemoveChild`. */
    method SetOut(removeThis: Node, ghost i: nat)
      requires i < |kids| && removeThis == kids[i]
      requires removeThis.prev == At(kids, i - 1) && removeThis.next == At(kids, i + 1)
      requires forall j :: 0 <= j < |kids| ==> kids[j].index == j && kids[j] != this
      modifies this`firstChild, this`lastChild, removeThis`home, kids`index, kids`prev, kids`next
      ensures firstChild == (if i == 0 then old(removeThis.next) else old(firstChild))
      ensures lastChild == (if i + 1 == |kids| then old(removeThis.prev) else old(lastChild)) && removeThis.home == null
      ensures forall j {:trigger kids[j].next} :: 0 <= j < |kids| && j != i ==>
                kids[j].next == if j == i - 1 then old(removeThis.next) else old(kids[j].next)
      ensures forall j {:trigger kids[j].prev} :: 0 <= j < |kids| && j != i ==>
                kids[j].prev == if j == i + 1 then old(removeThis.prev) else old(kids[j].prev)
      ensures forall j {:trigger kids[j].index} :: 0 <= j < |kids| && j != i ==>
                kids[j].index == if j < i then j else j - 1
    {
      if removeThis.next != null {
        removeThis.next.prev := removeThis.prev;
      } else {
        lastChild := removeThis.prev;
      }
      if removeThis.prev != null {
        removeThis.prev.next := removeThis.next;
      } else {
        firstChild := removeThis.next;
      }
      removeThis.home := null;
      forall j | i < j < |kids| {
        kids[j].index := j - 1;
      }
    }

    /** A child is put before, after or in the place of another, or taken out: the children stay linked. */
    method PutBefore(node: Node, beforeThis: Node, ghost i: nat)
      requires Chain(this, kids) && i < |kids| && beforeThis == kids[i] && node != this && node.home != this
      modifies this`firstChild, this`kids, node`parent, node`prev, node`next, node`home, node`index, kids`index,
               kids`prev, kids`next
      ensures Chain(this, kids) && kids == Inserted(old(kids), i, node)
    {
      hide Inserted;
      ghost var s := kids;
      SetBefore(node, beforeThis, i);
      assert kids == s;
      assert Threaded(this, s, i, node);
      kids := Inserted(s, i, node);
      ThreadedIsChain(this, s, i, node);
    }

    method PutAfter(node: Node, afterThis: Node, ghost i: nat)
      requires Chain(this, kids) && i < |kids| && afterThis == kids[i] && node != this && node.home != this
      modifies this`lastChild, this`kids, node`parent, node`prev, node`next, node`home, node`index, kids`index,
               kids`prev, kids`next
      ensures Chain(this, kids) && kids == Inserted(old(kids), i + 1, node)
    {
      hide Inserted;
      ghost var s := kids;
      SetAfter(node, afterThis, i);
      assert kids == s;
      assert Threaded(this, s, i + 1, node);
      kids := Inserted(s, i + 1, node);
      ThreadedIsChain(this, s, i + 1, node);
    }

    method PutInPlace(node: Node, replaceThis: Node, ghost i: nat)
      requires Chain(this, kids) && i < |kids| && replaceThis == kids[i] && node != this && node.home != this
      modifies this`firstChild, this`lastChild, this`kids, node`parent, node`prev, node`next, node`home, node`index
      modifies replaceThis`home, kids`prev, kids`next
      ensures Chain(this, kids) && kids == old(kids)[i := node] && replaceThis.home == null
    {
      ghost var s := kids;
      SetInPlace(node, replaceThis, i);
      assert kids == s;
      assert Exchanged(this, s, i, node);
      kids := s[i := node];
      ExchangedIsChain(this, s, i, node);
    }

    method PassOver(removeThis: Node, ghost i: nat)
      requires Chain(this, kids) && i < |kids| && removeThis == kids[i]
      modifies this`firstChild, this`lastChild, removeThis`home, kids`index, kids`prev, kids`next
      ensures Skipped(this, kids, i) && removeThis.home == null
    {
      ghost var s := kids;
      SetOut(removeThis, i);
      assert kids == s;
    }

    method TakeOut(removeThis: Node, ghost i: nat)
      requires Chain(this, kids) && i < |kids| && removeThis == kids[i]
      modifies this`firstChild, this`lastChild, this`kids, removeThis`home, kids`index, kids`prev, kids`next
      ensures Chain(this, kids) && kids == Without(old(kids), i) && removeThis.home == null
    {
      hide Without, Chain, At;
      ghost var s := kids;
      PassOver(removeThis, i);
      kids := Without(s, i);
      SkippedIsChain(this, s, i);
    }

    // ---------- editing in one world ----------

    /** A change to the children of this node leaves the other nodes as they are. */
    twostate lemma OthersStay(m: World)
      requires old(Forest(m)) && this in m.nodes
      requires forall n :: n in m.nodes && n != this ==>
                 n.kids == old(n.kids) && n.firstChild == old(n.firstChild) && n.lastChild == old(n.lastChild)
      requires forall x :: x in m.nodes && old(x.home) != null && old(x.home) != this ==>
                 x.parent == old(x.parent) && x.home == old(x.home) && x.index == old(x.index)
                 && x.next == old(x.next) && x.prev == old(x.prev)
      requires forall x :: x in m.nodes && (old(x.home) == null || old(x.home) == this) ==>
                x.home == null || x.home == this
      ensures forall n :: n in m.nodes && n != this ==> Ranked(m, n) && Chain(n, n.kids)
      ensures forall n :: n in m.nodes && n.home != this ==> Placed(m, n)
    {
      forall n | n in m.nodes && n != this
        ensures Ranked(m, n) && Chain(n, n.kids)
      {
        assert old(Ranked(m, n)) && old(Chain(n, n.kids));
      }
      forall n | n in m.nodes && n.home != this
        ensures Placed(m, n)
      {
        assert old(Placed(m, n));
      }
    }

    /** Links made or kept do not make a node untidy. */
    twostate lemma StillTidy(m: World)
      requires old(Tidy(m.nodes))
      requires forall n :: n in m.nodes ==> n.attrs == old(n.attrs)
      requires forall n :: n in m.nodes && n.home == null && old(n.home) == null ==> n.parent == old(n.parent)
      ensures forall n :: n in m.nodes ==>
                DistinctValues(n.attrs) && (n.home == null && old(n.home) == null ==> n.parent == null)
    {
      hide DistinctValues;
    }

    method LinkLast(node: Node, ghost m: World)
      requires Tidy(m.nodes - {node}) && DistinctValues(node.attrs)
      requires Forest(m) && this in m.nodes && node in m.nodes && node.home == null && m.rank[node] < m.rank[this]
      modifies this`firstChild, this`lastChild, this`kids, node`parent, node`prev, node`next, node`home, node`index,
               kids`next
      ensures Tidy(m.nodes)
      ensures Forest(m) && node.home == this && kids == old(kids) + [node]
    {
      hide Inserted, At, Chain;
      ghost var s := kids;
      Settled(m, this);
      Settled(m, node);
      AppendNode(node);
      InsertedHas(s, |s|, node);
      InsertedLast(s, node);
      ChainFacts(this, kids);
      OthersStay(m);
      KidsPlaced(m, this);
    }

    method InsertAfter(node: Node, afterThis: Node, ghost m: World)
      requires Tidy(m.nodes)
      requires Forest(m) && this in m.nodes && node in m.nodes && node.home == null && m.rank[node] < m.rank[this]
      requires afterThis in m.nodes && afterThis.home == this
      modifies this`lastChild, this`kids, node`parent, node`prev, node`next, node`home, node`index, kids`index,
               kids`prev, kids`next
      ensures Tidy(m.nodes)
      ensures Forest(m) && node.home == this
      ensures old(afterThis.index) < |old(kids)| && kids == Inserted<Node>(old(kids), old(afterThis.index) + 1, node)
    {
      hide Inserted, At, Chain;
      ghost var s, i := kids, afterThis.index;
      Settled(m, this);
      Settled(m, node);
      IndexOf(m, afterThis);
      PutAfter(node, afterThis, i);
      InsertedHas(s, i + 1, node);
      ChainFacts(this, kids);
      OthersStay(m);
      StillTidy(m);
      KidsPlaced(m, this);
    }

    method Replace(node: Node, replaceThis: Node, ghost m: World)
      requires Tidy(m.nodes)
      requires Forest(m) && this in m.nodes && node in m.nodes && node.home == null && m.rank[node] < m.rank[this]
      requires replaceThis in m.nodes && replaceThis.home == this
      modifies this`firstChild, this`lastChild, this`kids, node`parent, node`prev, node`next, node`home, node`index
      modifies replaceThis`home, kids`prev, kids`next
      ensures Tidy(m.nodes - {replaceThis})
      ensures Forest(m) && node.home == this && replaceThis.home == null
      ensures replaceThis.index < |old(kids)| && kids == old(kids)[replaceThis.index := node]
    {
      hide At, Chain;
      ghost var s, i := kids, replaceThis.index;
      Settled(m, this);
      Settled(m, node);
      IndexOf(m, replaceThis);
      PutInPlace(node, replaceThis, i);
      ReplacedHas(s, i, node);
      ChainFacts(this, kids);
      OthersStay(m);
      StillTidy(m);
      KidsPlaced(m, this);
    }

    method Detach(removeThis: Node, ghost m: World)
      requires Tidy(m.nodes)
      requires Forest(m) && this in m.nodes && removeThis in m.nodes && removeThis.home == this
      modifies this`firstChild, this`lastChild, this`kids, removeThis`home, kids`index, kids`prev, kids`next
      ensures Tidy(m.nodes - {removeThis})
      ensures Forest(m) && removeThis.home == null
      ensures old(removeThis.index) < |old(kids)| && kids == Without(old(kids), old(removeThis.index))
    {
      hide Without, At, Chain;
      ghost var s, i := kids, removeThis.index;
      Settled(m, this);
      IndexOf(m, removeThis);
      TakeOut(removeThis, i);
      WithoutHas(s, i);
      ChainFacts(this, kids);
      OthersStay(m);
      StillTidy(m);
      KidsPlaced(m, this);
    }

    method InsertBefore(node: Node, beforeThis: Node, ghost m: World)
      requires Tidy(m.nodes)
      requires Forest(m) && this in m.nodes && node in m.nodes && node.home == null && m.rank[node] < m.rank[this]
      requires beforeThis in m.nodes && beforeThis.home == this
      modifies this`firstChild, this`kids, node`parent, node`prev, node`next, node`home, node`index, kids`index,
               kids`prev, kids`next
      ensures Tidy(m.nodes)
      ensures Forest(m) && node.home == this
      ensures old(beforeThis.index) < |old(kids)| && kids == Inserted<Node>(old(kids), old(beforeThis.index), node)
    {
      hide Inserted, At, Chain;
      ghost var s, i := kids, beforeThis.index;
      Settled(m, this);
      Settled(m, node);
      IndexOf(m, beforeThis);
      PutBefore(node, beforeThis, i);
      InsertedHas(s, i, node);
      ChainFacts(this, kids);
      OthersStay(m);
      StillTidy(m);
      KidsPlaced(m, this);
    }

    // ---------- the editing methods ----------

    /** `LinkEndChild` of a node that is linked nowhere, from a world of its own; it may name this node as its parent, as
        `Identify` leaves it. */
    method LinkEndChild(node: Node, ghost w: World, ghost v: World) returns (r: Node?, ghost m: World)
      requires Forest(w) && Tidy(w.nodes) && Forest(v) && w.nodes !! v.nodes
      requires Tidy(v.nodes - {node}) && DistinctValues(node.attrs)
      requires this in w.nodes && node in v.nodes && node.home == null && (node.parent == null || node.parent == this)
      modifies this`firstChild, this`lastChild, this`kids, node`parent, node`prev, node`next, node`home, node`index,
               kids`next
      ensures Forest(m) && Tidy(m.nodes)
      ensures node.kind == DocumentNode ==> r == null && m == w && kids == old(kids)
      ensures node.kind != DocumentNode ==>
                r == node && m == Merge(w, v) && kids == old(kids) + [node] && node.home == this
    {
      if node.kind == DocumentNode {
        return null, w;
      }
      MergeForest(w, v);
      m := Merge(w, v);
      TidyParts(m.nodes - {node}, w.nodes, v.nodes - {node});
      LinkLast(node, m);
      r := node;
    }

    /** `LinkEndChild` of a clone, and what it does to the tree. */
    method LinkClone(k: Node, ghost v: World, ghost vk: World, ghost ts: seq<Tree>) returns (ghost m: World)
      requires Grown(v, this, ts) && Forest(vk) && v.nodes !! vk.nodes && this in v.nodes
      requires k in vk.nodes && k.home == null && Tidy(vk.nodes)
      modifies this`firstChild, this`lastChild, this`kids, k`parent, k`prev, k`next, k`home, k`index, kids`next
      ensures v.nodes <= m.nodes <= v.nodes + vk.nodes
      ensures Grown(m, this, if k.kind == DocumentNode then ts else ts + [old(NodeTree(vk, k))])
    {
      hide Chain, Ranked, Placed, Forest, Closed, TreesOf, TreeOf, CloneOf, Merge, Unlinked, Tidy;
      ghost var d, dk := Data(v.nodes), Data(vk.nodes);
      ForestIsClosed(v);
      ForestIsClosed(vk);
      RootIsUnlinked(v, this);
      MergeNodes(v, vk);
      TidyBut(vk.nodes, k);
      var r;
      r, m := LinkEndChild(k, v, vk);
      ForestIsClosed(m);
      if k.kind != DocumentNode {
        OneMoreTree(d, v.rank, dk, vk.rank, Data(m.nodes), m.rank, this, k);
      }
    }

    /** The first loop of `TiXmlElement::CopyTo`. */
    method CopyAttributes() returns (copy: seq<Attr>)
      requires DistinctValues(attrs)
      ensures copy == Shown(attrs) && DistinctValues(copy)
    {
      hide SetIn, Shown;
      copy := [];
      StartProgress(attrs);
      var k := 0;
      var more := attrs != [];
      while more
        invariant k <= |attrs| && copy == attrs[..k] && Progress(attrs, k, more)
        decreases |attrs| - k
      {
        StepProgress(attrs, k);
        EarlierDiffer(attrs, k);
        SetNew(copy, attrs[k].name, attrs[k].value);
        copy := SetIn(copy, attrs[k].name, attrs[k].value);
        k := k + 1;
        more := k < |attrs| && !Blank(attrs[k]);
      }
      EndProgress(attrs, k);
    }

    /** `Clone`: a tree of new nodes. */
    method Clone(ghost u: World) returns (c: Node, ghost v: World)
      requires Forest(u) && this in u.nodes && Tidy(u.nodes)
      ensures Forest(v) && c in v.nodes && fresh(v.nodes) && c.home == null && Tidy(v.nodes)
      ensures NodeTree(v, c) == CloneOf(NodeTree(u, this)) && c.kind == kind
      decreases RankOf(u.rank, this), 1
    {
      hide Forest, Closed, Data, TreesOf, TreeOf, NodeTree, ClonesOf, Shown, Grown, Tidy, RankOf;
      NodeTreeIs(u, this);
      TidyAt(u.nodes, this);
      c := new Node(kind, value);
      v := World({c}, map[c := 0], 1);
      if kind == TextNode {
        c.cdata := cdata;
      }
      if kind == ElementNode {
        c.attrs := CopyAttributes();
      }
      LeafForest(v, c);
      if kind == ElementNode || kind == DocumentNode {
        v := CloneKids(c, v, u);
        GrownTree(v, c, ClonesOf(NodeTree(u, this).kids));
      }
    }

    /** The second loop of `CopyTo`: the children are cloned and linked under the new node. */
    method CloneKids(target: Node, ghost v0: World, ghost u: World) returns (ghost v: World)
      requires Forest(u) && this in u.nodes && Tidy(u.nodes) && target !in u.nodes
      requires Grown(v0, target, []) && v0.nodes == {target}
      modifies target`firstChild, target`lastChild, target`kids
      ensures target in v.nodes && fresh(v.nodes - {target}) && Grown(v, target, ClonesOf(NodeTree(u, this).kids))
      decreases RankOf(u.rank, this), 0
    {
      hide Forest, Closed, Data, TreesOf, TreeOf, NodeTree, CloneOf, ClonesOf, Tidy, Grown;
      v := v0;
      ghost var i := 0;
      NodeTreeIs(u, this);
      ghost var du := Data(u.nodes);
      NoTrees(du, u.rank, this);
      FirstKid(u, this);
      var node := firstChild;
      while node != null
        invariant i <= |kids| && node == At(kids, i)
        invariant Forest(u) && Tidy(u.nodes) && Data(u.nodes) == du
        invariant target in v.nodes && fresh(v.nodes - {target})
        invariant Grown(v, target, ClonesOf(TreesOf(du, u.rank, this, i)))
        decreases |kids| - i
      {
        NextKid(u, this, i);
        NextTree(du, u.rank, this, i);
        GrownKids(v, target, ClonesOf(TreesOf(du, u.rank, this, i)));
        var k, vk := node.Clone(u);
        NodeTreeIs(u, node);
        v := target.LinkClone(k, v, vk, ClonesOf(TreesOf(du, u.rank, this, i)));
        i := i + 1;
        node := node.next;
      }
    }

    /** A clone of `addThis` in a world below this one. */
    method CloneInto(addThis: Node, ghost w: World, ghost u: World) returns (node: Node, ghost m: World, ghost v: World)
      requires Forest(w) && Tidy(w.nodes) && this in w.nodes && Forest(u) && addThis in u.nodes && Tidy(u.nodes)
      ensures Tidy(m.nodes) && Forest(m) && Forest(v) && m.nodes == w.nodes + v.nodes && fresh(v.nodes)
              && node in v.nodes
      ensures node.home == null && m.rank[node] < m.rank[this]
      ensures node.kind == addThis.kind && NodeTree(v, node) == CloneOf(NodeTree(u, addThis))
    {
      hide Chain, Ranked, Placed, Forest, NodeTree, CloneOf, Tidy;
      node, v := addThis.Clone(u);
      MergeForest(w, v);
      m := Merge(w, v);
      TidyParts(m.nodes, w.nodes, v.nodes);
    }

    /** `InsertEndChild`. */
    method InsertEndChild(addThis: Node, ghost w: World, ghost u: World) returns (node: Node?, ghost m: World)
      requires Forest(w) && Tidy(w.nodes) && this in w.nodes && Forest(u) && addThis in u.nodes && Tidy(u.nodes)
      modifies this`firstChild, this`lastChild, this`kids, kids`next
      ensures Forest(m) && Tidy(m.nodes) && w.nodes <= m.nodes && fresh(m.nodes - w.nodes)
      ensures addThis.kind == DocumentNode ==> node == null && m == w && kids == old(kids)
      ensures addThis.kind != DocumentNode ==>
                node != null && fresh(node) && node in m.nodes && kids == old(kids) + [node]
                && NodeTree(m, node) == old(CloneOf(NodeTree(u, addThis)))
    {
      hide Chain, Ranked, Placed, Forest, NodeTree, CloneOf, Tidy, TreeOf;
      if addThis.kind == DocumentNode {
        return null, w;
      }
      ghost var v;
      node, m, v := CloneInto(addThis, w, u);
      ghost var d := Data(v.nodes);
      NodeTreeIs(v, node);
      TidyBut(m.nodes, node);
      LinkLast(node, m);
      TreeStays(d, v.rank, m, node);
    }

    /** `InsertBeforeChild`. */
    method InsertBeforeChild(beforeThis: Node?, addThis: Node, ghost w: World, ghost u: World)
      returns (node: Node?, ghost m: World)
      requires Forest(w) && Tidy(w.nodes) && this in w.nodes && Forest(u) && addThis in u.nodes && Tidy(u.nodes)
      requires beforeThis != null ==> beforeThis in w.nodes
      modifies this`firstChild, this`kids, kids`index, kids`prev, kids`next
      ensures Forest(m) && Tidy(m.nodes) && w.nodes <= m.nodes && fresh(m.nodes - w.nodes)
      ensures var refused := beforeThis == null || old(beforeThis.home) != this || addThis.kind == DocumentNode;
              if refused then node == null && m == w && kids == old(kids)
              else node != null && fresh(node) && node in m.nodes
                   && old(beforeThis.index) < |old(kids)| && kids == Inserted<Node>(old(kids), old(beforeThis.index), node)
                   && NodeTree(m, node) == old(CloneOf(NodeTree(u, addThis)))
    {
      hide Chain, Ranked, Placed, Forest, NodeTree, CloneOf, Tidy, TreeOf, Inserted;
      if beforeThis != null {
        ParentIs(w, this, beforeThis);
      }
      if beforeThis == null || beforeThis.parent != this {
        return null, w;
      }
      if addThis.kind == DocumentNode {
        return null, w;
      }
      ghost var v;
      node, m, v := CloneInto(addThis, w, u);
      ghost var d := Data(v.nodes);
      NodeTreeIs(v, node);
      InsertBefore(node, beforeThis, m);
      TreeStays(d, v.rank, m, node);
    }

    /** `InsertAfterChild`. */
    method InsertAfterChild(afterThis: Node?, addThis: Node, ghost w: World, ghost u: World)
      returns (node: Node?, ghost m: World)
      requires Forest(w) && Tidy(w.nodes) && this in w.nodes && Forest(u) && addThis in u.nodes && Tidy(u.nodes)
      requires afterThis != null ==> afterThis in w.nodes
      modifies this`lastChild, this`kids, kids`index, kids`prev, kids`next
      ensures Forest(m) && Tidy(m.nodes) && w.nodes <= m.nodes && fresh(m.nodes - w.nodes)
      ensures var refused := afterThis == null || old(afterThis.home) != this || addThis.kind == DocumentNode;
              if refused then node == null && m == w && kids == old(kids)
              else node != null && fresh(node) && node in m.nodes
                   && old(afterThis.index) < |old(kids)| && kids == Inserted<Node>(old(kids), old(afterThis.index) + 1, node)
                   && NodeTree(m, node) == old(CloneOf(NodeTree(u, addThis)))
    {
      hide Chain, Ranked, Placed, Forest, NodeTree, CloneOf, Tidy, TreeOf, Inserted;
      if afterThis != null {
        ParentIs(w, this, afterThis);
      }
      if afterThis == null || afterThis.parent != this {
        return null, w;
      }
      if addThis.kind == DocumentNode {
        return null, w;
      }
      ghost var v;
      node, m, v := CloneInto(addThis, w, u);
      ghost var d := Data(v.nodes);
      NodeTreeIs(v, node);
      InsertAfter(node, afterThis, m);
      TreeStays(d, v.rank, m, node);
    }

    /** `ReplaceChild`, which also takes a document; the node that is replaced goes with all that is below it. */
    method ReplaceChild(replaceThis: Node, withThis: Node, ghost w: World, ghost u: World)
      returns (node: Node?, ghost m: World)
      requires Forest(w) && Tidy(w.nodes) && this in w.nodes && Forest(u) && withThis in u.nodes && Tidy(u.nodes)
      requires replaceThis in w.nodes
      modifies this`firstChild, this`lastChild, this`kids, replaceThis`home, kids`prev, kids`next
      ensures Forest(m) && Tidy(m.nodes) && this in m.nodes && fresh(m.nodes - w.nodes)
      ensures old(replaceThis.home) != this ==> node == null && m == w && kids == old(kids)
      ensures old(replaceThis.home) == this ==>
                node != null && fresh(node) && node in m.nodes && replaceThis !in m.nodes
                && replaceThis.index < |old(kids)| && kids == old(kids)[replaceThis.index := node]
                && NodeTree(m, node) == old(CloneOf(NodeTree(u, withThis)))
                && forall x :: x in w.nodes ==> (x in m.nodes <==> x !in old(Subtree(w, replaceThis)))
    {
      hide Chain, Ranked, Placed, Forest, NodeTree, CloneOf, Tidy, TreeOf, Under, Subtree, Below, Rising;
      ParentIs(w, this, replaceThis);
      if replaceThis.parent != this {
        return null, w;
      }
      SubtreeIs(w, replaceThis);
      ghost var h := Homes(w.nodes);
      ghost var v, all;
      node, all, v := CloneInto(withThis, w, u);
      ghost var d := Data(v.nodes);
      NodeTreeIs(v, node);
      HomeRank(all, replaceThis);
      HomesIn(v);
      Replace(node, replaceThis, all);
      m := Delete(all, replaceThis);
      Replaced(all, this, replaceThis, node, h, w.rank, w.bound, d, v.rank);
    }

    /** `RemoveChild`; the node goes with all that is below it. */
    method RemoveChild(removeThis: Node, ghost w: World) returns (removed: bool, ghost m: World)
      requires Forest(w) && Tidy(w.nodes) && this in w.nodes && removeThis in w.nodes
      modifies this`firstChild, this`lastChild, this`kids, removeThis`home, kids`index, kids`prev, kids`next
      ensures Forest(m) && Tidy(m.nodes) && this in m.nodes && removed == (old(removeThis.home) == this)
      ensures !removed ==> m == w && kids == old(kids)
      ensures removed ==> removeThis !in m.nodes && m.nodes == w.nodes - old(Subtree(w, removeThis))
                          && old(removeThis.index) < |old(kids)| && kids == Without(old(kids), old(removeThis.index))
    {
      hide Chain, Ranked, Placed, Forest, Under, Without, Subtree, Below, Rising;
      ParentIs(w, this, removeThis);
      if removeThis.parent != this {
        return false, w;
      }
      HomeRank(w, removeThis);
      SubtreeIs(w, removeThis);
      ghost var h := Homes(w.nodes);
      Detach(removeThis, w);
      m := Delete(w, removeThis);
      TidyParts(m.nodes, w.nodes - {removeThis}, {});
      StaysBehind(w, this, removeThis);
      RemainsIs(w, removeThis, h, w.rank, w.bound);
      removed := true;
    }
  }

  ghost predicate Agrees(d: map<Node, NodeData>, e: map<Node, NodeData>) {
    forall n :: n in d ==> n in e && d[n] == e[n]
  }

  /** What is there after a child was replaced by a node with the trees `d` below it, and was deleted. */
  lemma Replaced(all: World, p: Node, c: Node, node: Node, h: map<Node, Node?>, rank: map<Node, nat>, bound: nat,
                 d: map<Node, NodeData>, rank2: map<Node, nat>)
    requires Forest(all) && Tidy(all.nodes - {c}) && p in all.nodes && c in all.nodes && c.home == null
    requires RankOf(all.rank, p) > RankOf(all.rank, c)
    requires Rising(h, rank, bound) && h.Keys <= all.nodes && forall n :: n in h && n != c ==> n.home == h[n]
    requires Closed(d, rank2) && node in d && node.home == p && c !in d && d.Keys <= all.nodes
             && Agrees(d, Data(all.nodes))
    requires forall y :: y in d && y != node && y.home != null ==> y.home in d
    ensures var m := Delete(all, c);
            Tidy(m.nodes) && p in m.nodes && node in m.nodes && NodeTree(m, node) == TreeOf(d, rank2, node)
            && forall x :: x in h ==> (x in m.nodes <==> !Below(h, rank, bound, x, c))
  {
    hide Forest, Chain, Ranked, Placed, NodeTree, Tidy, TreeOf, Under, Subtree, Below, Rising;
    var m := Delete(all, c);
    TidyParts(m.nodes, all.nodes - {c}, {});
    StaysBehind(all, p, c);
    RemainsIs(all, c, h, rank, bound);
    PartStays(all, d.Keys, node, c);
    TreeStays(d, rank2, m, node);
  }

  /** What is known of the children of `p`. */
  lemma Settled(m: World, p: Node)
    requires Forest(m) && p in m.nodes
    ensures Chain(p, p.kids) && Ranked(m, p)
    ensures forall j :: 0 <= j < |p.kids| ==> p.kids[j].home == p && p.kids[j] in m.nodes
    ensures forall n :: n in m.nodes && n.home == p ==> n in p.kids
    ensures p in m.rank && m.rank[p] < m.bound && forall x :: x in p.kids ==>
              x in m.nodes && x in m.rank && m.rank[x] < m.rank[p]
  {
    assert Ranked(m, p) && Chain(p, p.kids);
    forall n | n in m.nodes && n.home == p
      ensures n in p.kids
    {
      assert Placed(m, n);
    }
  }

  lemma IndexOf(m: World, c: Node)
    requires Forest(m) && c in m.nodes && c.home != null
    ensures c.index < |c.home.kids| && c.home.kids[c.index] == c
  {
    assert Placed(m, c);
  }

  lemma InsertedHas(s: seq<Node>, i: nat, c: Node)
    requires i <= |s|
    ensures |Inserted(s, i, c)| == |s| + 1 && Inserted(s, i, c)[i] == c
    ensures forall x :: x in Inserted(s, i, c) <==> x in s || x == c
  {
  }

  lemma InsertedLast(s: seq<Node>, c: Node)
    ensures Inserted(s, |s|, c) == s + [c]
  {
  }

  lemma ReplacedHas(s: seq<Node>, i: nat, c: Node)
    requires i < |s|
    ensures s[i := c][i] == c && forall x :: x in s && x != s[i] ==> x in s[i := c]
    ensures forall x :: x in s[i := c] ==> x in s || x == c
  {
    forall x | x in s && x != s[i]
      ensures x in s[i := c]
    {
      var j :| 0 <= j < |s| && s[j] == x;
      assert s[i := c][j] == x;
    }
  }

  lemma WithoutHas(s: seq<Node>, i: nat)
    requires i < |s|
    ensures |Without(s, i)| == |s| - 1 && forall x :: x in s && x != s[i] ==> x in Without(s, i)
    ensures forall x :: x in Without(s, i) ==> x in s
  {
  }

  lemma ChainFacts(p: Node, s: seq<Node>)
    requires Chain(p, s)
    ensures forall j :: 0 <= j < |s| ==> s[j].home == p
  {
  }

  lemma KidsPlaced(m: World, p: Node)
    requires Chain(p, p.kids) && p in m.nodes && forall n :: n in m.nodes && n.home == p ==> n in p.kids
    requires p in m.rank && m.rank[p] < m.bound && forall x :: x in p.kids ==>
              x in m.nodes && x in m.rank && m.rank[x] < m.rank[p]
    ensures forall n :: n in m.nodes && n.home == p ==> Placed(m, n)
    ensures Ranked(m, p)
  {
    forall n | n in m.nodes && n.home == p
      ensures Placed(m, n)
    {
      var j :| 0 <= j < |p.kids| && p.kids[j] == n;
    }
  }

  // ---------- what worlds keep ----------

  lemma MergeNodes(w: World, v: World)
    ensures Merge(w, v).nodes == w.nodes + v.nodes
  {
  }

  lemma MergeForest(w: World, v: World)
    requires Forest(w) && Forest(v) && w.nodes !! v.nodes
    ensures Forest(Merge(w, v))
    ensures forall n, c :: n in w.nodes && c in v.nodes ==> Merge(w, v).rank[c] < Merge(w, v).rank[n]
  {
    var m := Merge(w, v);
    forall n | n in m.nodes
      ensures Ranked(m, n) && Chain(n, n.kids) && Placed(m, n)
    {
      if n in v.nodes {
        assert Ranked(v, n) && Chain(n, n.kids) && Placed(v, n);
      } else {
        assert Ranked(w, n) && Chain(n, n.kids) && Placed(w, n);
      }
    }
    forall n, c | n in w.nodes && c in v.nodes
      ensures m.rank[c] < m.rank[n]
    {
      assert Ranked(v, c) && Ranked(w, n);
    }
  }

  // ---------- what is below a node ----------

  // The same for links that are given as a map.

  lemma {:induction false} UnderIs(w: World, x: Node, n: Node)
    requires Forest(w) && x in w.nodes
    ensures Rising(Homes(w.nodes), w.rank, w.bound)
    ensures Under(w, x, n) <==> Below(Homes(w.nodes), w.rank, w.bound, x, n)
    decreases w.bound - RankOf(w.rank, x)
  {
    HomesRise(w);
    HomeRank(w, x);
    if x != n && x.home != null {
      UnderIs(w, x.home, n);
    }
  }

  lemma HomesRise(w: World)
    requires Forest(w)
    ensures Rising(Homes(w.nodes), w.rank, w.bound)
  {
    forall n | n in w.nodes
      ensures n in w.rank && w.rank[n] < w.bound
      ensures n.home != null ==> n.home in w.nodes && n.home in w.rank && w.rank[n] < w.rank[n.home]
    {
      HomeRank(w, n);
    }
  }

  /** What is below `c` does not depend on where `c` is linked, nor on further nodes. */
  lemma {:induction false} BelowSame(h: map<Node, Node?>, rank: map<Node, nat>, bound: nat,
                                     g: map<Node, Node?>, rank2: map<Node, nat>, bound2: nat, c: Node, x: Node)
    requires Rising(h, rank, bound) && Rising(g, rank2, bound2) && h.Keys <= g.Keys && x in h
    requires forall n :: n in h && n != c ==> g[n] == h[n]
    ensures Below(h, rank, bound, x, c) <==> Below(g, rank2, bound2, x, c)
    decreases bound - RankOf(rank, x)
  {
    if x != c && h[x] != null {
      BelowSame(h, rank, bound, g, rank2, bound2, c, h[x]);
    }
  }

  /** Deleting a node after it was taken out of where it was in `h` leaves exactly what was not below it. */
  lemma RemainsIs(w: World, c: Node, h: map<Node, Node?>, rank: map<Node, nat>, bound: nat)
    requires Forest(w) && c in w.nodes && c.home == null && Rising(h, rank, bound) && h.Keys <= w.nodes
    requires forall n :: n in h && n != c ==> n.home == h[n]
    ensures forall x :: x in h ==> (x in Delete(w, c).nodes <==> !Below(h, rank, bound, x, c))
  {
    HomesRise(w);
    var g := Homes(w.nodes);
    forall x | x in h
      ensures x in Delete(w, c).nodes <==> !Below(h, rank, bound, x, c)
    {
      UnderIs(w, x, c);
      BelowSame(h, rank, bound, g, w.rank, w.bound, c, x);
    }
  }

  lemma SubtreeIs(w: World, c: Node)
    requires Forest(w)
    ensures Rising(Homes(w.nodes), w.rank, w.bound)
    ensures forall x :: x in w.nodes ==> (x in Subtree(w, c) <==> Below(Homes(w.nodes), w.rank, w.bound, x, c))
  {
    HomesRise(w);
    forall x | x in w.nodes
      ensures x in Subtree(w, c) <==> Below(Homes(w.nodes), w.rank, w.bound, x, c)
    {
      UnderIs(w, x, c);
    }
  }

  /** A node of a higher rank than the deleted one stays, and so do its other children. */
  lemma StaysBehind(w: World, x: Node, c: Node)
    requires Forest(w) && x in w.nodes && c in w.nodes && c.home == null && RankOf(w.rank, x) > RankOf(w.rank, c)
    ensures x in Delete(w, c).nodes
    ensures forall k :: k in w.nodes && k.home == x && k != c ==> k in Delete(w, c).nodes
  {
    HomeRank(w, x);
    HomeRank(w, c);
    if Under(w, x, c) {
      UnderRank(w, x, c);
    }
    forall k | k in w.nodes && k.home == x && k != c
      ensures !Under(w, k, c)
    {
      HomeRank(w, k);
    }
  }

  lemma HomesIn(v: World)
    requires Forest(v)
    ensures forall y :: y in v.nodes && y.home != null ==> y.home in v.nodes
  {
    forall y | y in v.nodes && y.home != null
      ensures y.home in v.nodes
    {
      assert Placed(v, y);
    }
  }

  /** Nodes whose chain of parents leads to a node that stays, stay. */
  lemma {:induction false} ChainStays(w: World, nodes: set<Node>, top: Node, c: Node, x: Node)
    requires Forest(w) && nodes <= w.nodes && c in w.nodes && c !in nodes && top in nodes && !Under(w, top, c)
             && x in nodes
    requires forall y :: y in nodes && y != top && y.home != null ==> y.home in nodes
    ensures !Under(w, x, c)
    decreases w.bound - RankOf(w.rank, x)
  {
    if x != top && x.home != null {
      HomeRank(w, x);
      ChainStays(w, nodes, top, c, x.home);
    }
  }

  lemma PartStays(w: World, nodes: set<Node>, top: Node, c: Node)
    requires Forest(w) && nodes <= w.nodes && c in w.nodes && c.home == null && c !in nodes
             && top in Delete(w, c).nodes && top in nodes
    requires forall y :: y in nodes && y != top && y.home != null ==> y.home in nodes
    ensures nodes <= Delete(w, c).nodes
  {
    forall x | x in nodes
      ensures !Under(w, x, c)
    {
      ChainStays(w, nodes, top, c, x);
    }
  }

  lemma {:induction false} UnderStays(w: World, a: World, x: Node, c: Node)
    requires Forest(w) && Forest(a) && x in w.nodes && x in a.nodes && Under(w, x, c)
    ensures c in a.nodes
    decreases w.bound - (if x in w.rank then w.rank[x] else 0)
  {
    if x != c {
      HomeRank(w, x);
      HomeRank(a, x);
      UnderStays(w, a, x.home, c);
    }
  }

  ghost predicate Separates(a: World, b: World, w: World, p: Node, c: Node)
    reads a.nodes, b.nodes
  {
    Forest(a) && Forest(b) && a.nodes !! b.nodes && a.nodes + b.nodes == w.nodes && p in a.nodes && c in b.nodes
  }

  /** An unlinked node `c` can be told apart from `p`, as linking needs, exactly if `p` is not below it. */
  lemma CanLinkIff(w: World, p: Node, c: Node)
    requires Forest(w) && p in w.nodes && c in w.nodes && c.home == null
    ensures !Under(w, p, c) ==> Separates(Part(w, w.nodes - Subtree(w, c)), Part(w, Subtree(w, c)), w, p, c)
    ensures Under(w, p, c) ==> forall a, b :: !Separates(a, b, w, p, c)
  {
    if Under(w, p, c) {
      forall a, b
        ensures !Separates(a, b, w, p, c)
      {
        if Separates(a, b, w, p, c) {
          UnderStays(w, a, p, c);
        }
      }
    } else {
      SplitOff(w, c);
    }
  }

  lemma {:induction false} UnderRank(w: World, x: Node, n: Node)
    requires Forest(w) && x in w.nodes && Under(w, x, n)
    ensures n in w.nodes && x in w.rank && n in w.rank && w.rank[x] <= w.rank[n]
    decreases w.bound - (if x in w.rank then w.rank[x] else 0)
  {
    HomeRank(w, x);
    if x != n {
      UnderRank(w, x.home, n);
    }
  }

  /** No node is below its own child: a link that makes a cycle leaves no world. */
  lemma NoCycle(w: World, c: Node)
    requires Forest(w) && c in w.nodes && c.home != null
    ensures c.home in w.nodes && !Under(w, c.home, c)
  {
    HomeRank(w, c);
    if Under(w, c.home, c) {
      UnderRank(w, c.home, c);
    }
  }

  // ---------- the tree below a node, as a value ----------

  /** The tree below a node depends only on what is below it. */
  lemma {:induction false} SameTree(d: map<Node, NodeData>, rank: map<Node, nat>, e: map<Node, NodeData>,
      rank2: map<Node, nat>, n: Node)
    requires Closed(d, rank) && Closed(e, rank2) && n in d && Agrees(d, e)
    ensures TreeOf(d, rank, n) == TreeOf(e, rank2, n)
    decreases RankOf(rank, n), 1, 0
  {
    SameTrees(d, rank, e, rank2, n, |d[n].kids|);
  }

  lemma {:induction false} SameTrees(d: map<Node, NodeData>, rank: map<Node, nat>, e: map<Node, NodeData>,
      rank2: map<Node, nat>, n: Node, i: nat)
    requires Closed(d, rank) && Closed(e, rank2) && n in d && Agrees(d, e) && i <= |d[n].kids|
    ensures TreesOf(d, rank, n, i) == TreesOf(e, rank2, n, i)
    decreases RankOf(rank, n), 0, i
  {
    if i > 0 {
      SameTrees(d, rank, e, rank2, n, i - 1);
      SameTree(d, rank, e, rank2, d[n].kids[i - 1]);
    }
  }

  lemma NodeTreeIs(w: World, n: Node)
    requires Forest(w) && n in w.nodes
    ensures Closed(Data(w.nodes), w.rank) && n in Data(w.nodes) && Data(w.nodes)[n].kids == n.kids
    ensures NodeTree(w, n) == TreeOf(Data(w.nodes), w.rank, n)
    ensures NodeTree(w, n) == Tree(n.kind, n.value, n.cdata, n.attrs, TreesOf(Data(w.nodes), w.rank, n, |n.kids|))
  {
    ForestIsClosed(w);
  }

  lemma LeafForest(w: World, c: Node)
    requires w == World({c}, map[c := 0], 1) && c.kids == [] && c.home == null && c.firstChild == null
             && c.lastChild == null
    ensures Forest(w) && NodeTree(w, c) == Tree(c.kind, c.value, c.cdata, c.attrs, [])
    ensures DistinctValues(c.attrs) && c.parent == null ==> Grown(w, c, [])
  {
    ForestIsClosed(w);
  }

  /** The tree below a new node is the same in a larger world. */
  lemma TreeStays(d: map<Node, NodeData>, rank: map<Node, nat>, m: World, n: Node)
    requires Forest(m) && Closed(d, rank) && n in d && n in m.nodes && Agrees(d, Data(m.nodes))
    ensures NodeTree(m, n) == TreeOf(d, rank, n)
  {
    ForestIsClosed(m);
    SameTree(d, rank, Data(m.nodes), m.rank, n);
  }

  lemma GrownKids(v: World, c: Node, ts: seq<Tree>)
    requires Grown(v, c, ts)
    ensures forall j :: 0 <= j < |c.kids| ==> c.kids[j] in v.nodes && c.kids[j] != c
  {
    assert Ranked(v, c);
  }

  lemma GrownTree(v: World, c: Node, ts: seq<Tree>)
    requires Grown(v, c, ts)
    ensures Forest(v) && c in v.nodes && c.home == null && Tidy(v.nodes)
    ensures NodeTree(v, c) == Tree(c.kind, c.value, c.cdata, c.attrs, ts)
  {
    NodeTreeIs(v, c);
  }

  lemma NoTrees(d: map<Node, NodeData>, rank: map<Node, nat>, n: Node)
    requires Closed(d, rank) && n in d
    ensures TreesOf(d, rank, n, 0) == [] && ClonesOf([]) == []
  {
  }

  lemma FirstKid(w: World, n: Node)
    requires Forest(w) && n in w.nodes
    ensures n.firstChild == At(n.kids, 0)
  {
    assert Chain(n, n.kids);
  }

  lemma NextKid(w: World, n: Node, i: nat)
    requires Forest(w) && n in w.nodes && i < |n.kids|
    ensures n.kids[i] in w.nodes && n.kids[i].next == At(n.kids, i + 1) && RankOf(w.rank, n.kids[i]) < RankOf(w.rank, n)
  {
    assert Chain(n, n.kids) && Ranked(w, n);
  }

  // ---------- what cloning keeps ----------

  /** A tree of the kind that parsing and the constructors make. */
  predicate Regular(t: Tree)
    decreases t
  {
    (t.cdata ==> t.kind == TextNode) && (t.attrs != [] ==> t.kind == ElementNode)
    && (t.kids != [] ==> t.kind == ElementNode || t.kind == DocumentNode)
    && (forall i :: 0 < i < |t.attrs| ==> t.attrs[i] != Attr("", ""))
    && (forall k :: k in t.kids ==> k.kind != DocumentNode && Regular(k))
  }

  lemma {:induction false} ClonesLength(ts: seq<Tree>)
    ensures |ClonesOf(ts)| <= |ts|
    ensures |ClonesOf(ts)| == |ts| ==> forall i :: 0 <= i < |ts| ==>
              ts[i].kind != DocumentNode && ClonesOf(ts)[i] == CloneOf(ts[i])
  {
    hide CloneOf;
    if ts != [] {
      ClonesLength(ts[..|ts| - 1]);
    }
  }

  lemma {:induction false} ClonesAll(ts: seq<Tree>)
    requires forall i :: 0 <= i < |ts| ==> ts[i].kind != DocumentNode
    ensures |ClonesOf(ts)| == |ts|
    ensures forall i :: 0 <= i < |ts| ==> ClonesOf(ts)[i] == CloneOf(ts[i])
  {
    hide CloneOf;
    if ts != [] {
      ClonesAll(ts[..|ts| - 1]);
    }
  }

  /** A clone is the same tree exactly if the tree is regular. */
  lemma {:induction false} CloneIff(t: Tree)
    ensures CloneOf(t) == t <==> Regular(t)
    decreases t, 1
  {
    hide Shown, Blank, ClonesOf;
    ShownIff(t.attrs);
    ClonesIff(t.kids);
    NoClones();
  }

  lemma NoClones()
    ensures ClonesOf([]) == [] && Shown([]) == []
  {
  }

  lemma {:induction false} ClonesIff(ts: seq<Tree>)
    ensures ClonesOf(ts) == ts <==> forall k :: k in ts ==> k.kind != DocumentNode && Regular(k)
    decreases ts, 0
  {
    forall k | k in ts
      ensures CloneOf(k) == k <==> Regular(k)
    {
      CloneIff(k);
    }
    hide CloneOf, ClonesOf, Regular;
    if forall k :: k in ts ==> k.kind != DocumentNode && Regular(k) {
      ClonesAll(ts);
    } else if ClonesOf(ts) == ts {
      ClonesLength(ts);
    }
  }

  // ---------- linking and trees ----------

  ghost function Drop(d: map<Node, NodeData>, c: Node): map<Node, NodeData> {
    map n | n in d && n != c :: d[n]
  }

  lemma DropClosed(d: map<Node, NodeData>, rank: map<Node, nat>, c: Node)
    requires Closed(d, rank) && Unlinked(d, c)
    ensures Closed(Drop(d, c), rank) && Agrees(Drop(d, c), d)
  {
  }

  /** The trees of the children do not depend on the node itself. */
  lemma {:induction false} KidTreesStay(d: map<Node, NodeData>, rank: map<Node, nat>, e: map<Node, NodeData>,
      rank2: map<Node, nat>, c: Node, i: nat)
    requires Closed(d, rank) && Closed(e, rank2) && c in d && c in e && Unlinked(d, c) && Agrees(Drop(d, c), e)
    requires i <= |d[c].kids| && d[c].kids <= e[c].kids
    ensures TreesOf(d, rank, c, i) == TreesOf(e, rank2, c, i)
  {
    if i > 0 {
      KidTreesStay(d, rank, e, rank2, c, i - 1);
      var k := d[c].kids[i - 1];
      DropClosed(d, rank, c);
      SameTree(Drop(d, c), rank, d, rank, k);
      SameTree(Drop(d, c), rank, e, rank2, k);
    }
  }

  /** One more child means one more tree. */
  lemma OneMoreTree(d: map<Node, NodeData>, rank: map<Node, nat>, dk: map<Node, NodeData>, rankK: map<Node, nat>,
                    e: map<Node, NodeData>, rank2: map<Node, nat>, c: Node, k: Node)
    requires Closed(d, rank) && Closed(dk, rankK) && Closed(e, rank2) && c in d && k in dk && c in e
    requires Unlinked(d, c) && Agrees(Drop(d, c), e) && Agrees(dk, e) && e[c].kids == d[c].kids + [k]
    ensures TreesOf(e, rank2, c, |e[c].kids|) == TreesOf(d, rank, c, |d[c].kids|) + [TreeOf(dk, rankK, k)]
  {
    KidTreesStay(d, rank, e, rank2, c, |d[c].kids|);
    SameTree(dk, rankK, e, rank2, k);
  }

  lemma NextTree(d: map<Node, NodeData>, rank: map<Node, nat>, n: Node, i: nat)
    requires Closed(d, rank) && n in d && i < |d[n].kids|
    ensures d[n].kids[i] in d
    ensures var ts, t := TreesOf(d, rank, n, i), TreeOf(d, rank, d[n].kids[i]);
            TreesOf(d, rank, n, i + 1) == ts + [t]
            && ClonesOf(ts + [t]) == if t.kind == DocumentNode then ClonesOf(ts) else ClonesOf(ts) + [CloneOf(t)]
  {
    var ts, t := TreesOf(d, rank, n, i), TreeOf(d, rank, d[n].kids[i]);
    assert (ts + [t])[..i] == ts;
  }

  lemma RootIsUnlinked(w: World, c: Node)
    requires Forest(w) && c in w.nodes && c.home == null
    ensures Unlinked(Data(w.nodes), c)
  {
    forall n, i | n in w.nodes && 0 <= i < |n.kids|
      ensures n.kids[i] != c
    {
      assert Chain(n, n.kids);
    }
  }

  lemma TidyAt(nodes: set<Node>, n: Node)
    requires Tidy(nodes) && n in nodes
    ensures DistinctValues(n.attrs)
  {
  }

  lemma TidyBut(nodes: set<Node>, n: Node)
    requires Tidy(nodes) && n in nodes
    ensures Tidy(nodes - {n}) && DistinctValues(n.attrs) && (n.home == null ==> n.parent == null)
  {
  }

  lemma TidyParts(nodes: set<Node>, a: set<Node>, b: set<Node>)
    requires nodes <= a + b && Tidy(a) && Tidy(b)
    ensures Tidy(nodes)
  {
  }

  /** What a node says of its parent is where it is linked. */
  lemma ParentIs(w: World, p: Node, c: Node)
    requires Forest(w) && Tidy(w.nodes) && c in w.nodes
    ensures c.parent == p <==> c.home == p
  {
    if c.home != null {
      IndexOf(w, c);
      assert Chain(c.home, c.home.kids);
    }
  }
}
