/** log4c's doubly linked list, with deletion during a walk. */
module SdList {
  import opened Sequences

  class Iter {
    const data: int
    var next: Iter?
    var prev: Iter?
    /** `__foreach`: set while a walk is at this node. */
    var walking: bool
    /** The place in the list. */
    ghost var index: nat

    constructor (data: int)
      ensures this.data == data && next == null && prev == null && !walking
    {
      this.data, next, prev, walking := data, null, null, false;
    }
  }

  ghost function At(s: seq<Iter>, i: int): Iter? {
    if 0 <= i < |s| then s[i] else null
  }

  /** The nodes are linked in both directions, and know their places. */
  ghost predicate Chain(head: Iter?, tail: Iter?, s: seq<Iter>)
    reads s`next, s`prev, s`index
  {
    head == At(s, 0) && tail == At(s, |s| - 1)
    && (forall i {:trigger s[i].next} :: 0 <= i < |s| ==> s[i].next == At(s, i + 1))
    && (forall i {:trigger s[i].prev} :: 0 <= i < |s| ==> s[i].prev == At(s, i - 1))
    && (forall i :: 0 <= i < |s| ==> s[i].index == i)
  }

  lemma InsertedAt(s: seq<Iter>, i: nat, c: Iter, j: int)
    requires i <= |s|
    ensures |Inserted(s, i, c)| == |s| + 1
    ensures At(Inserted(s, i, c), j) == if j < i then At(s, j) else if j == i then c else At(s, j - 1)
  {
  }

  lemma WithoutAt(s: seq<Iter>, i: nat, j: int)
    requires i < |s|
    ensures |Without(s, i)| == |s| - 1
    ensures At(Without(s, i), j) == if j < i then At(s, j) else At(s, j + 1)
  {
  }

  /** Node `c` has been put between the nodes of `s`, at `i`. */
  ghost predicate Threaded(head: Iter?, tail: Iter?, s: seq<Iter>, i: nat, c: Iter)
    requires i <= |s|
    reads c`next, c`prev, c`index, s`next, s`prev, s`index
  {
    head == (if i == 0 then c else At(s, 0)) && tail == (if i == |s| then c else At(s, |s| - 1))
    && (forall j {:trigger s[j].next} :: 0 <= j < |s| ==> s[j].next == if j == i - 1 then c else At(s, j + 1))
    && (forall j {:trigger s[j].prev} :: 0 <= j < |s| ==> s[j].prev == if j == i then c else At(s, j - 1))
    && (forall j :: 0 <= j < |s| ==> s[j].index == if j < i then j else j + 1)
    && c.next == At(s, i) && c.prev == At(s, i - 1) && c.index == i
  }

  lemma ThreadedIsChain(head: Iter?, tail: Iter?, s: seq<Iter>, i: nat, c: Iter)
    requires i <= |s| && Threaded(head, tail, s, i, c)
    ensures Chain(head, tail, Inserted(s, i, c))
  {
    hide Inserted;
    var t := Inserted(s, i, c);
    InsertedAt(s, i, c, 0);
    InsertedAt(s, i, c, |s|);
    forall j | 0 <= j < |t|
      ensures t[j].next == At(t, j + 1) && t[j].prev == At(t, j - 1) && t[j].index == j
    {
      InsertedAt(s, i, c, j);
      InsertedAt(s, i, c, j + 1);
      InsertedAt(s, i, c, j - 1);
      if j < i {
        assert t[j] == s[j];
      } else if j > i {
        assert t[j] == s[j - 1];
      }
    }
  }

  /** Node `i` of `s` has been passed over. */
  ghost predicate Skipped(head: Iter?, tail: Iter?, s: seq<Iter>, i: nat)
    requires i < |s|
    reads s`next, s`prev, s`index
  {
    head == At(s, if i == 0 then 1 else 0) && tail == At(s, if i == |s| - 1 then i - 1 else |s| - 1)
    && (forall j {:trigger s[j].next} :: 0 <= j < |s| && j != i ==> s[j].next == At(s, if j == i - 1 then i + 1 else j + 1))
    && (forall j {:trigger s[j].prev} :: 0 <= j < |s| && j != i ==> s[j].prev == At(s, if j == i + 1 then i - 1 else j - 1))
    && (forall j :: 0 <= j < |s| && j != i ==> s[j].index == if j < i then j else j - 1)
  }

  lemma SkippedNext(head: Iter?, tail: Iter?, s: seq<Iter>, i: nat, j: nat)
    requires i < |s| && Skipped(head, tail, s, i) && j < |s| - 1
    ensures j < |Without(s, i)| && Without(s, i)[j].next == At(Without(s, i), j + 1) && Without(s, i)[j].index == j
  {
    if j < i {
      assert s[j].next == At(s, if j == i - 1 then i + 1 else j + 1);
    } else {
      assert s[j + 1].next == At(s, j + 2);
    }
  }

  lemma SkippedPrev(head: Iter?, tail: Iter?, s: seq<Iter>, i: nat, j: nat)
    requires i < |s| && Skipped(head, tail, s, i) && j < |s| - 1
    ensures j < |Without(s, i)| && Without(s, i)[j].prev == At(Without(s, i), j - 1)
  {
    if j < i {
      assert s[j].prev == At(s, j - 1);
    } else {
      assert s[j + 1].prev == At(s, if j == i then i - 1 else j);
    }
  }

  lemma SkippedIsChain(head: Iter?, tail: Iter?, s: seq<Iter>, i: nat)
    requires i < |s| && Skipped(head, tail, s, i)
    ensures Chain(head, tail, Without(s, i))
  {
    hide Without, Skipped, At;
    var t := Without(s, i);
    SkippedEnds(head, tail, s, i);
    forall j | 0 <= j < |t|
      ensures t[j].next == At(t, j + 1) && t[j].index == j
    {
      SkippedNext(head, tail, s, i, j);
    }
    forall j | 0 <= j < |t|
      ensures t[j].prev == At(t, j - 1)
    {
      SkippedPrev(head, tail, s, i, j);
    }
  }

  lemma SkippedEnds(head: Iter?, tail: Iter?, s: seq<Iter>, i: nat)
    requires i < |s| && Skipped(head, tail, s, i)
    ensures |Without(s, i)| == |s| - 1 && head == At(Without(s, i), 0) && tail == At(Without(s, i), |s| - 2)
  {
    hide Without;
    WithoutAt(s, i, 0);
    WithoutAt(s, i, |s| - 2);
  }

  /** No walk is at any of the nodes. */
  ghost predicate Still(s: seq<Iter>)
    reads s`walking
  {
    forall i :: 0 <= i < |s| ==> !s[i].walking
  }

  lemma StillInserted(s: seq<Iter>, i: nat, c: Iter)
    requires i <= |s| && Still(s) && !c.walking
    ensures Still(Inserted(s, i, c))
  {
    InsertedIs(s, i, c);
    hide Inserted;
  }

  lemma StillWithout(s: seq<Iter>, i: nat)
    requires i < |s| && forall j :: 0 <= j < |s| && j != i ==> !s[j].walking
    ensures Still(Without(s, i))
  {
    WithoutIs(s, i);
    hide Without;
  }

  /** What the nodes hold. */
  function Datas(s: seq<Iter>): (d: seq<int>)
    ensures |d| == |s| && forall i :: 0 <= i < |s| ==> d[i] == s[i].data
  {
    seq(|s|, i requires 0 <= i < |s| => s[i].data)
  }

  /** What is left of the first `k` nodes. */
  ghost function Kept(all: seq<Iter>, k: nat, deletes: (nat, int) -> bool): seq<Iter>
    requires k <= |all|
  {
    if k == 0 then []
    else
      var before, c := Kept(all, k - 1, deletes), all[k - 1];
      if deletes(k - 1, c.data) then before else before + [c]
  }

  /**
   * A finished walk: the first nodes were visited once each, in order, up to the one that stopped it or to the end,
   * those deleted are gone, and the others are where they were.
   */
  ghost predicate WalkedOver(all: seq<Iter>, nodes: seq<Iter>, visited: seq<int>, deletes: (nat, int) -> bool,
      stops: (nat, int) -> bool) {
    |visited| <= |all| && nodes == Kept(all, |visited|, deletes) + all[|visited|..]
    && (forall j :: 0 <= j < |visited| ==> visited[j] == all[j].data)
    && (forall j :: 0 <= j < |visited| - 1 ==> !stops(j, visited[j]))
    && (|visited| < |all| ==> 0 < |visited| && stops(|visited| - 1, visited[|visited| - 1]))
  }

  /** The walk is at node `p` of the list. */
  ghost predicate Ahead(all: seq<Iter>, nodes: seq<Iter>, p: nat, visited: seq<int>, deletes: (nat, int) -> bool,
      stops: (nat, int) -> bool) {
    |visited| <= |all| && nodes == Kept(all, |visited|, deletes) + all[|visited|..] && p == |Kept(all, |visited|, deletes)|
    && (forall j :: 0 <= j < |visited| ==> visited[j] == all[j].data && !stops(j, visited[j]))
  }

  /** What is left of the last `k` nodes. */
  ghost function KeptLast(all: seq<Iter>, k: nat, deletes: (nat, int) -> bool): seq<Iter>
    requires k <= |all|
  {
    if k == 0 then []
    else
      var rest, c := KeptLast(all, k - 1, deletes), all[|all| - k];
      if deletes(k - 1, c.data) then rest else [c] + rest
  }

  /** A finished walk from the tail. */
  ghost predicate WalkedBack(all: seq<Iter>, nodes: seq<Iter>, visited: seq<int>, deletes: (nat, int) -> bool,
      stops: (nat, int) -> bool) {
    |visited| <= |all| && nodes == all[..|all| - |visited|] + KeptLast(all, |visited|, deletes)
    && (forall j :: 0 <= j < |visited| ==> visited[j] == all[|all| - 1 - j].data)
    && (forall j :: 0 <= j < |visited| - 1 ==> !stops(j, visited[j]))
    && (|visited| < |all| ==> 0 < |visited| && stops(|visited| - 1, visited[|visited| - 1]))
  }

  /** The walk from the tail is at node `p` of the list. */
  ghost predicate Behind(all: seq<Iter>, nodes: seq<Iter>, p: int, visited: seq<int>, deletes: (nat, int) -> bool,
      stops: (nat, int) -> bool) {
    |visited| <= |all| && nodes == all[..|all| - |visited|] + KeptLast(all, |visited|, deletes) && p == |all| - |visited| - 1
    && (forall j :: 0 <= j < |visited| ==> visited[j] == all[|all| - 1 - j].data && !stops(j, visited[j]))
  }

  /** No element comes after one that follows it. */
  ghost predicate Sorted(d: seq<int>, after: (int, int) -> bool) {
    forall i, j :: 0 <= i < j < |d| ==> !after(d[i], d[j])
  }

  /** `sd_list_sortadd` would put `x` at `k`. */
  ghost predicate Goes(d: seq<int>, k: nat, x: int, after: (int, int) -> bool) {
    k <= |d| && (forall j :: 0 <= j < k ==> !after(d[j], x)) && (k < |d| ==> after(d[k], x))
  }

  ghost predicate StrictOrder(after: (int, int) -> bool) {
    (forall a, b :: after(a, b) ==> !after(b, a))
    && (forall a, b, c :: after(a, b) && after(b, c) ==> after(a, c))
  }

  class List {
    var head: Iter?
    var tail: Iter?
    var nelem: nat
    ghost var nodes: seq<Iter>

    ghost predicate Valid()
      reads this, nodes
    {
      Chain(head, tail, nodes) && nelem == |nodes| && Still(nodes)
    }

    lemma ValidEnds()
      requires Valid()
      ensures head == At(nodes, 0) && tail == At(nodes, |nodes| - 1)
    {
    }

    constructor ()
      ensures Valid() && nodes == []
    {
      head, tail, nelem, nodes := null, null, 0, [];
    }

    /** The assignments that put a node in at the front. */
    method SetFirst(i: Iter)
      requires i !in nodes && Chain(head, tail, nodes)
      modifies this`head, this`tail, i`next, i`prev, i`index, nodes`prev, nodes`index
      ensures Threaded(head, tail, nodes, 0, i)
    {
      i.prev := null;
      i.next := head;
      head := i;
      if i.next != null {
        i.next.prev := i;
      } else {
        tail := i;
      }
      i.index := 0;
      forall j | 0 <= j < |nodes| {
        nodes[j].index := j + 1;
      }
    }

    /** `sd_list_prepend` and `sd_list_add`. */
    method Prepend(data: int) returns (i: Iter)
      requires Valid()
      modifies this, nodes`prev, nodes`index
      ensures Valid() && fresh(i) && i.data == data && nodes == [i] + old(nodes)
    {
      hide Inserted, Still, Chain, Threaded;
      ghost var s := nodes;
      i := new Iter(data);
      SetFirst(i);
      StillInserted(s, 0, i);
      ThreadedIsChain(head, tail, s, 0, i);
      InsertedEnds(s, i);
      nodes := Inserted(s, 0, i);
      nelem := nelem + 1;
    }

    method SetLast(i: Iter)
      requires i !in nodes && Chain(head, tail, nodes)
      modifies this`head, this`tail, i`next, i`prev, i`index, nodes`next
      ensures Threaded(head, tail, nodes, |nodes|, i)
    {
      i.prev := tail;
      i.next := null;
      tail := i;
      if i.prev != null {
        i.prev.next := i;
      } else {
        head := i;
      }
      i.index := |nodes|;
    }

    /** `sd_list_append`. */
    method Append(data: int) returns (i: Iter)
      requires Valid()
      modifies this, nodes`next
      ensures Valid() && fresh(i) && i.data == data && nodes == old(nodes) + [i]
    {
      hide Inserted, Still, Chain, Threaded;
      ghost var s := nodes;
      i := new Iter(data);
      SetLast(i);
      StillInserted(s, |s|, i);
      ThreadedIsChain(head, tail, s, |s|, i);
      InsertedEnds(s, i);
      nodes := Inserted(s, |s|, i);
      nelem := nelem + 1;
    }

    method SetBefore(i: Iter, p: Iter, ghost k: nat)
      requires i !in nodes && Chain(head, tail, nodes) && 0 < k < |nodes| && p == nodes[k]
      modifies i`next, i`prev, i`index, nodes`next, nodes`prev, nodes`index
      ensures i.prev == old(p.prev) && i.next == p && i.index == k
      ensures forall j {:trigger nodes[j].next} :: 0 <= j < |nodes| ==>
                nodes[j].next == if j == k - 1 then i else old(nodes[j].next)
      ensures forall j {:trigger nodes[j].prev} :: 0 <= j < |nodes| ==>
                nodes[j].prev == if j == k then i else old(nodes[j].prev)
      ensures forall j {:trigger nodes[j].index} :: 0 <= j < |nodes| ==> nodes[j].index == if j < k then j else j + 1
    {
      i.prev := p.prev;
      i.next := p;
      p.prev.next := i;
      p.prev := i;
      i.index := k;
      forall j | k <= j < |nodes| {
        nodes[j].index := j + 1;
      }
    }

    method ThreadBefore(i: Iter, p: Iter, ghost k: nat)
      requires i !in nodes && Chain(head, tail, nodes) && 0 < k < |nodes| && p == nodes[k]
      modifies i`next, i`prev, i`index, nodes`next, nodes`prev, nodes`index
      ensures Threaded(head, tail, nodes, k, i)
    {
      ghost var s := nodes;
      SetBefore(i, p, k);
      assert nodes == s;
    }

    lemma HeadIs(p: Iter)
      requires Valid() && p.index < |nodes| && nodes[p.index] == p
      ensures head == p <==> p.index == 0
    {
    }

    /** `sd_list_iter_insert`: a node before node `p`. */
    method IterInsert(p: Iter, data: int) returns (i: Iter)
      requires Valid() && p.index < |nodes| && nodes[p.index] == p
      modifies this, nodes`next, nodes`prev, nodes`index
      ensures Valid() && fresh(i) && i.data == data && nodes == Inserted(old(nodes), old(p.index), i)
    {
      hide Inserted, Still, Chain, Threaded;
      ghost var s, k := nodes, p.index;
      HeadIs(p);
      if head == p {
        i := Prepend(data);
        InsertedEnds(s, i);
        return;
      }
      i := new Iter(data);
      ThreadBefore(i, p, k);
      StillInserted(s, k, i);
      ThreadedIsChain(head, tail, s, k, i);
      InsertedIs(s, k, i);
      nodes := Inserted(s, k, i);
      nelem := nelem + 1;
    }

    /** The assignments of `sd_list_iter_del`. */
    method SetOut(p: Iter, ghost k: nat)
      requires Chain(head, tail, nodes) && k < |nodes| && p == nodes[k]
      modifies this`head, this`tail, nodes`next, nodes`prev, nodes`index
      ensures head == (if k == 0 then old(p.next) else old(head))
              && tail == (if k + 1 == |nodes| then old(p.prev) else old(tail))
      ensures forall j {:trigger nodes[j].next} :: 0 <= j < |nodes| && j != k ==>
                nodes[j].next == if j == k - 1 then old(p.next) else old(nodes[j].next)
      ensures forall j {:trigger nodes[j].prev} :: 0 <= j < |nodes| && j != k ==>
                nodes[j].prev == if j == k + 1 then old(p.prev) else old(nodes[j].prev)
      ensures forall j {:trigger nodes[j].index} :: 0 <= j < |nodes| && j != k ==>
                nodes[j].index == if j < k then j else j - 1
    {
      if p.next != null {
        p.next.prev := p.prev;
      } else {
        tail := p.prev;
      }
      if p.prev != null {
        p.prev.next := p.next;
      } else {
        head := p.next;
      }
      forall j | k < j < |nodes| {
        nodes[j].index := j - 1;
      }
    }

    /** The list apart from the marks that a walk sets. */
    ghost predicate Linked()
      reads this, nodes`next, nodes`prev, nodes`index
    {
      Chain(head, tail, nodes) && nelem == |nodes|
    }

    /** `sd_list_iter_del`: during the walk that is at the node, it only takes back the mark. */
    method IterDel(p: Iter)
      requires Linked() && p.index < |nodes| && nodes[p.index] == p
      modifies this`head, this`tail, this`nelem, this`nodes, p`walking, nodes`next, nodes`prev, nodes`index
      ensures Linked() && (old(p.walking) ==> !p.walking) && (!old(p.walking) ==> p.walking == old(p.walking))
      ensures nodes == if old(p.walking) then old(nodes) else Without(old(nodes), old(p.index))
      ensures p.walking == false
    {
      hide Without;
      if p.walking {
        p.walking := false;
        return;
      }
      ghost var s, k := nodes, p.index;
      SetOut(p, k);
      assert nodes == s;
      assert Skipped(head, tail, s, k);
      SkippedIsChain(head, tail, s, k);
      WithoutAt(s, k, 0);
      nodes := Without(s, k);
      nelem := nelem - 1;
    }

    /** `sd_list_lookup` and the search of `sd_list_del`: the first node with the data. */
    method Lookup(data: int) returns (i: Iter?)
      requires Linked()
      ensures i == null <==> data !in Datas(nodes)
      ensures i != null ==> i.index < |nodes| && nodes[i.index] == i && i.data == data && data !in Datas(nodes)[..i.index]
    {
      ghost var k := 0;
      i := head;
      while i != null
        invariant k <= |nodes| && i == At(nodes, k)
        invariant forall j :: 0 <= j < k ==> nodes[j].data != data
        decreases |nodes| - k
      {
        if i.data == data {
          return;
        }
        i := i.next;
        k := k + 1;
      }
    }

    /** `sd_list_del`. */
    method Del(data: int) returns (rc: int)
      requires Valid()
      modifies this, nodes
      ensures Valid() && (rc == 0 <==> data in Datas(old(nodes)))
      ensures rc == -1 ==> nodes == old(nodes)
      ensures rc == 0 ==>
                exists k: nat :: k < |old(nodes)| && Datas(old(nodes))[k] == data && data !in Datas(old(nodes))[..k]
                                       && nodes == Without(old(nodes), k)
    {
      hide Without;
      var i := Lookup(data);
      if i == null {
        return -1;
      }
      ghost var s, k := nodes, i.index;
      assert Datas(s)[k] == data;
      IterDel(i);
      StillWithout(s, k);
      return 0;
    }

    /** `sd_list_sortadd`; `after(a, b)` is the test of the code, that the function returns a number above 0. */
    method SortAdd(after: (int, int) -> bool, data: int) returns (i: Iter)
      requires Valid()
      modifies this, nodes`next, nodes`prev, nodes`index
      ensures Valid() && fresh(i) && i.data == data
      ensures exists k: nat :: k <= |old(nodes)| && nodes == Inserted(old(nodes), k, i) && Goes(Datas(old(nodes)), k, data, after)
      ensures StrictOrder(after) && Sorted(Datas(old(nodes)), after) ==> Sorted(Datas(nodes), after)
    {
      hide Inserted, Sorted, StrictOrder;
      ghost var s, k := nodes, 0;
      var p := head;
      while p != null && !after(p.data, data)
        invariant k <= |s| && p == At(s, k)
        invariant forall j :: 0 <= j < k ==> !after(s[j].data, data)
        decreases |s| - k
      {
        p := p.next;
        k := k + 1;
      }
      if p != null {
        i := IterInsert(p, data);
      } else {
        i := Append(data);
        InsertedEnds(s, i);
      }
      InsertedSorted(s, k, i, after);
    }

    /** The callback of a walk, at the `k`-th node visited: it may delete the node it is called on. */
    method Callback(i: Iter, k: nat, deletes: (nat, int) -> bool, stops: (nat, int) -> bool) returns (ret: bool)
      requires Linked() && i.index < |nodes| && nodes[i.index] == i && i.walking
      modifies this`head, this`tail, this`nelem, this`nodes, i`walking, nodes`next, nodes`prev, nodes`index
      ensures Linked() && nodes == old(nodes)
      ensures i.walking == !deletes(k, i.data) && ret == stops(k, i.data)
    {
      if deletes(k, i.data) {
        IterDel(i);
      }
      ret := stops(k, i.data);
    }

    lemma Neighbours(p: nat)
      requires Linked() && p < |nodes|
      ensures nodes[p].next == At(nodes, p + 1) && nodes[p].prev == At(nodes, p - 1) && nodes[p].index == p
    {
    }

    /** What the walk does with one node: the callback, and the deletion that was put off. */
    method Visit(i: Iter, ghost p: nat, k: nat, deletes: (nat, int) -> bool, stops: (nat, int) -> bool, forward: bool)
      returns (ret: bool, j: Iter?)
      requires Valid() && p < |nodes| && nodes[p] == i
      modifies this`head, this`tail, this`nelem, this`nodes, nodes`walking, nodes`next, nodes`prev, nodes`index
      ensures Valid() && ret == stops(k, i.data) && j == At(old(nodes), if forward then p + 1 else p - 1)
      ensures nodes == if deletes(k, i.data) then Without(old(nodes), p) else old(nodes)
    {
      hide Without, Chain, At;
      ghost var s := nodes;
      Neighbours(p);
      i.walking := true;
      ret := Callback(i, k, deletes, stops);
      assert nodes == s;
      Neighbours(p);
      j := if forward then i.next else i.prev;
      if !i.walking {
        IterDel(i);
        StillWithout(s, p);
      } else {
        i.walking := false;
      }
    }

    /**
     * `sd_list_foreach` with a callback that deletes some of the nodes it is called on and may stop the walk.
     */
    method Foreach(deletes: (nat, int) -> bool, stops: (nat, int) -> bool) returns (visited: seq<int>)
      requires Valid()
      modifies this, nodes`walking, nodes`next, nodes`prev, nodes`index
      ensures Valid() && WalkedOver(old(nodes), nodes, visited, deletes, stops)
    {
      hide Without, At, Valid, Ahead, WalkedOver;
      ghost var all := nodes;
      ghost var p := 0;
      visited := [];
      var i := head;
      ValidEnds();
      AheadAtStart(all, deletes, stops);
      while i != null
        invariant Valid() && Ahead(all, nodes, p, visited, deletes, stops) && i == At(nodes, p)
        decreases |all| - |visited|
      {
        ghost var s, v := nodes, visited;
        AheadHere(all, s, p, v, deletes, stops);
        var ret, j := Visit(i, p, |visited|, deletes, stops, true);
        visited := visited + [i.data];
        AheadStep(all, s, nodes, p, v, deletes, stops);
        if ret {
          return;
        }
        p := if deletes(|v|, i.data) then p else p + 1;
        i := j;
      }
      AheadAtEnd(all, nodes, p, visited, deletes, stops);
    }

    /** `sd_list_rforeach`: the same, from the tail. */
    method RForeach(deletes: (nat, int) -> bool, stops: (nat, int) -> bool) returns (visited: seq<int>)
      requires Valid()
      modifies this, nodes`walking, nodes`next, nodes`prev, nodes`index
      ensures Valid() && WalkedBack(old(nodes), nodes, visited, deletes, stops)
    {
      hide Without, At, Valid, Behind, WalkedBack;
      ghost var all := nodes;
      ghost var p := |nodes| - 1;
      visited := [];
      var i := tail;
      ValidEnds();
      BehindAtStart(all, deletes, stops);
      while i != null
        invariant Valid() && Behind(all, nodes, p, visited, deletes, stops) && i == At(nodes, p)
        decreases |all| - |visited|
      {
        ghost var s, v := nodes, visited;
        BehindHere(all, s, p, v, deletes, stops);
        var ret, j := Visit(i, p, |visited|, deletes, stops, false);
        visited := visited + [i.data];
        BehindStep(all, s, nodes, p, v, deletes, stops);
        if ret {
          return;
        }
        p := p - 1;
        i := j;
      }
      BehindAtEnd(all, nodes, p, visited, deletes, stops);
    }
  }

  lemma AheadAtStart(all: seq<Iter>, deletes: (nat, int) -> bool, stops: (nat, int) -> bool)
    ensures Ahead(all, all, 0, [], deletes, stops)
  {
  }

  lemma AheadHere(all: seq<Iter>, s: seq<Iter>, p: nat, visited: seq<int>, deletes: (nat, int) -> bool, stops: (nat,
      int) -> bool)
    requires Ahead(all, s, p, visited, deletes, stops) && At(s, p) != null
    ensures |visited| < |all| && p < |s| && s[p] == At(s, p)
    ensures forall j :: 0 <= j < |s| ==> s[j] in all
  {
    KeptWithin(all, |visited|, deletes);
  }

  lemma KeptWithin(all: seq<Iter>, k: nat, deletes: (nat, int) -> bool)
    requires k <= |all|
    ensures forall j :: 0 <= j < |Kept(all, k, deletes)| ==> Kept(all, k, deletes)[j] in all
  {
  }

  lemma AheadStep(all: seq<Iter>, s: seq<Iter>, t: seq<Iter>, p: nat, visited: seq<int>, deletes: (nat, int) -> bool,
      stops: (nat, int) -> bool)
    requires Ahead(all, s, p, visited, deletes, stops) && |visited| < |all| && p < |s|
    requires t == if deletes(|visited|, s[p].data) then Without(s, p) else s
    ensures var k, v, q := |visited|, visited + [s[p].data], if deletes(|visited|, s[p].data) then p else p + 1;
            if stops(k, s[p].data) then WalkedOver(all, t, v, deletes, stops)
            else Ahead(all, t, q, v, deletes, stops) && At(s, p + 1) == At(t, q)
  {
    hide Kept, Without, At;
    AheadRest(all, s, t, p, visited, deletes);
  }

  lemma AheadRest(all: seq<Iter>, s: seq<Iter>, t: seq<Iter>, p: nat, visited: seq<int>, deletes: (nat, int) -> bool)
    requires |visited| < |all| && p == |Kept(all, |visited|, deletes)| < |s|
    requires s == Kept(all, |visited|, deletes) + all[|visited|..]
    requires t == if deletes(|visited|, s[p].data) then Without(s, p) else s
    ensures s[p] == all[|visited|]
    ensures var kept := Kept(all, |visited| + 1, deletes); var q := if deletes(|visited|, s[p].data) then p else p + 1;
            t == kept + all[|visited| + 1..] && |kept| == q && At(s, p + 1) == At(t, q)
  {
    hide *;
    var k := |visited|;
    KeptStep(all, k, deletes);
    SplitFirst(all, k);
    MiddleKept(Kept(all, k, deletes), all[k], all[k..], all[k + 1..], Kept(all, k + 1, deletes), s, deletes(k, all[k].data));
  }

  lemma MiddleKept(a: seq<Iter>, c: Iter, rest: seq<Iter>, more: seq<Iter>, kept: seq<Iter>, s: seq<Iter>, gone: bool)
    requires rest == [c] + more && s == a + rest && kept == if gone then a else a + [c]
    ensures |a| < |s| && s[|a|] == c
    ensures var t := if gone then Without(s, |a|) else s; var q := if gone then |a| else |a| + 1;
            t == kept + more && |kept| == q && At(s, |a| + 1) == At(t, q)
  {
    if gone {
      assert s[|a| + 1..] == more;
    } else {
      Regroup(a, [c], more);
    }
  }

  lemma KeptStep(all: seq<Iter>, k: nat, deletes: (nat, int) -> bool)
    requires k < |all|
    ensures var c, before := all[k], Kept(all, k, deletes);
            Kept(all, k + 1, deletes) == if deletes(k, c.data) then before else before + [c]
  {
  }

  lemma SplitFirst<T>(all: seq<T>, k: nat)
    requires k < |all|
    ensures all[k..] == [all[k]] + all[k + 1..]
  {
  }

  lemma AheadAtEnd(all: seq<Iter>, s: seq<Iter>, p: nat, visited: seq<int>, deletes: (nat, int) -> bool, stops: (nat,
      int) -> bool)
    requires Ahead(all, s, p, visited, deletes, stops) && At(s, p) == null
    ensures WalkedOver(all, s, visited, deletes, stops)
  {
  }

  lemma BehindAtStart(all: seq<Iter>, deletes: (nat, int) -> bool, stops: (nat, int) -> bool)
    ensures Behind(all, all, |all| - 1, [], deletes, stops)
  {
  }

  lemma BehindHere(all: seq<Iter>, s: seq<Iter>, p: int, visited: seq<int>, deletes: (nat, int) -> bool, stops: (nat,
      int) -> bool)
    requires Behind(all, s, p, visited, deletes, stops) && At(s, p) != null
    ensures |visited| < |all| && 0 <= p < |s| && s[p] == At(s, p)
    ensures forall j :: 0 <= j < |s| ==> s[j] in all
  {
    KeptLastWithin(all, |visited|, deletes);
  }

  lemma KeptLastWithin(all: seq<Iter>, k: nat, deletes: (nat, int) -> bool)
    requires k <= |all|
    ensures forall j :: 0 <= j < |KeptLast(all, k, deletes)| ==> KeptLast(all, k, deletes)[j] in all
  {
  }

  lemma BehindStep(all: seq<Iter>, s: seq<Iter>, t: seq<Iter>, p: int, visited: seq<int>, deletes: (nat,
      int) -> bool, stops: (nat, int) -> bool)
    requires Behind(all, s, p, visited, deletes, stops) && |visited| < |all| && 0 <= p < |s|
    requires t == if deletes(|visited|, s[p].data) then Without(s, p) else s
    ensures var k, v := |visited|, visited + [s[p].data];
            if stops(k, s[p].data) then WalkedBack(all, t, v, deletes, stops)
            else Behind(all, t, p - 1, v, deletes, stops) && At(s, p - 1) == At(t, p - 1)
  {
    hide KeptLast, Without, At;
    BehindRest(all, s, t, p, visited, deletes);
  }

  lemma BehindRest(all: seq<Iter>, s: seq<Iter>, t: seq<Iter>, p: int, visited: seq<int>, deletes: (nat, int) -> bool)
    requires |visited| < |all| && p == |all| - |visited| - 1 && s == all[..p + 1] + KeptLast(all, |visited|, deletes)
    requires t == if deletes(|visited|, s[p].data) then Without(s, p) else s
    ensures s[p] == all[p] && t == all[..p] + KeptLast(all, |visited| + 1, deletes) && At(s, p - 1) == At(t, p - 1)
  {
    hide *;
    var k := |visited|;
    KeptLastStep(all, k, p, deletes);
    RestAt(all, p, KeptLast(all, k, deletes), KeptLast(all, k + 1, deletes), s, deletes(k, all[p].data));
  }

  lemma RestAt(all: seq<Iter>, p: nat, rest: seq<Iter>, kept: seq<Iter>, s: seq<Iter>, gone: bool)
    requires p < |all| && s == all[..p + 1] + rest && kept == if gone then rest else [all[p]] + rest
    ensures s[p] == all[p]
    ensures var t := if gone then Without(s, p) else s; t == all[..p] + kept && At(s, p - 1) == At(t, p - 1)
  {
    hide *;
    SplitLast(all, p);
    MiddleGone(all[..p], all[p], all[..p + 1], rest, kept, s, p, gone);
  }

  lemma MiddleGone(a: seq<Iter>, c: Iter, ac: seq<Iter>, rest: seq<Iter>, kept: seq<Iter>, s: seq<Iter>, p: nat, gone: bool)
    requires ac == a + [c] && s == ac + rest && p == |a| && kept == if gone then rest else [c] + rest
    ensures s[p] == c
    ensures var t := if gone then Without(s, p) else s; t == a + kept && At(s, p - 1) == At(t, p - 1)
  {
    WithoutMiddle(a, c, rest);
  }

  lemma KeptLastStep(all: seq<Iter>, k: nat, p: nat, deletes: (nat, int) -> bool)
    requires k < |all| && p == |all| - k - 1
    ensures var c, rest := all[p], KeptLast(all, k, deletes);
            KeptLast(all, k + 1, deletes) == if deletes(k, c.data) then rest else [c] + rest
  {
  }

  lemma SplitLast<T>(all: seq<T>, p: nat)
    requires p < |all|
    ensures all[..p + 1] == all[..p] + [all[p]]
  {
  }

  lemma WithoutMiddle(a: seq<Iter>, c: Iter, rest: seq<Iter>)
    ensures a + [c] + rest == a + ([c] + rest) && (a + [c] + rest)[|a|] == c
    ensures Without(a + [c] + rest, |a|) == a + rest
    ensures At(a + [c] + rest, |a| - 1) == At(a + rest, |a| - 1)
  {
  }

  lemma BehindAtEnd(all: seq<Iter>, s: seq<Iter>, p: int, visited: seq<int>, deletes: (nat, int) -> bool,
      stops: (nat, int) -> bool)
    requires Behind(all, s, p, visited, deletes, stops) && At(s, p) == null
    ensures WalkedBack(all, s, visited, deletes, stops)
  {
  }

  /** The nodes whose data is not among those to go, in their order. */
  ghost function Survivors(s: seq<Iter>, gone: int -> bool): seq<Iter> {
    if s == [] then []
    else
      var rest := Survivors(s[1..], gone);
      if gone(s[0].data) then rest else [s[0]] + rest
  }

  lemma {:induction false} SurvivorsSnoc(s: seq<Iter>, c: Iter, gone: int -> bool)
    ensures Survivors(s + [c], gone) == Survivors(s, gone) + if gone(c.data) then [] else [c]
  {
    if s != [] {
      assert (s + [c])[1..] == s[1..] + [c];
      SurvivorsSnoc(s[1..], c, gone);
    } else {
      assert s + [c] == [c];
    }
  }

  lemma {:induction false} KeptIsSurvivors(all: seq<Iter>, k: nat, gone: int -> bool)
    requires k <= |all|
    ensures Kept(all, k, (n, x) => gone(x)) == Survivors(all[..k], gone)
  {
    if k > 0 {
      assert all[..k] == all[..k - 1] + [all[k - 1]];
      KeptIsSurvivors(all, k - 1, gone);
      SurvivorsSnoc(all[..k - 1], all[k - 1], gone);
    }
  }

  lemma {:induction false} KeptLastIsSurvivors(all: seq<Iter>, k: nat, gone: int -> bool)
    requires k <= |all|
    ensures KeptLast(all, k, (n, x) => gone(x)) == Survivors(all[|all| - k..], gone)
  {
    if k > 0 {
      var s := all[|all| - k..];
      assert s[0] == all[|all| - k] && s[1..] == all[|all| - (k - 1)..];
      KeptLastIsSurvivors(all, k - 1, gone);
    }
  }

  lemma Whole(all: seq<Iter>, kept: seq<Iter>, last: seq<Iter>)
    ensures all[..|all|] == all && all[|all| - |all|..] == all
    ensures kept + all[|all|..] == kept && all[..|all| - |all|] + last == last
  {
  }

  /** A walk that never stops keeps what the callback leaves. */
  lemma WholeWalks(all: seq<Iter>, forth: seq<Iter>, back: seq<Iter>, there: seq<int>, andBack: seq<int>,
      deletes: (nat, int) -> bool, stops: (nat, int) -> bool)
    requires WalkedOver(all, forth, there, deletes, stops) && WalkedBack(all, back, andBack, deletes, stops)
    requires forall n, x :: !stops(n, x)
    ensures forth == Kept(all, |all|, deletes) && back == KeptLast(all, |all|, deletes)
    ensures there == Datas(all) && |andBack| == |all|
            && forall j :: 0 <= j < |all| ==> andBack[j] == there[|all| - 1 - j]
  {
    hide Kept, KeptLast;
    Whole(all, Kept(all, |all|, deletes), KeptLast(all, |all|, deletes));
  }

  /** When the callback goes by the data alone and never stops, both walks visit everything and leave the same list. */
  lemma BothWaysAgree(all: seq<Iter>, forth: seq<Iter>, back: seq<Iter>, there: seq<int>, andBack: seq<int>,
      gone: int -> bool)
    requires WalkedOver(all, forth, there, (n, x) => gone(x), (n, x) => false)
    requires WalkedBack(all, back, andBack, (n, x) => gone(x), (n, x) => false)
    ensures forth == back == Survivors(all, gone)
    ensures there == Datas(all) && |andBack| == |all|
            && forall j :: 0 <= j < |all| ==> andBack[j] == there[|all| - 1 - j]
  {
    hide *;
    WholeWalks(all, forth, back, there, andBack, (n, x) => gone(x), (n, x) => false);
    KeptIsSurvivors(all, |all|, gone);
    KeptLastIsSurvivors(all, |all|, gone);
    Whole(all, forth, back);
  }

  ghost predicate KeepsSorted(after: (int, int) -> bool) {
    forall d, k: nat, x :: Sorted(d, after) && Goes(d, k, x, after) ==> Sorted(Inserted(d, k, x), after)
  }

  lemma AfterTheFirst(d: seq<int>, k: nat, x: int, j: nat, after: (int, int) -> bool)
    requires StrictOrder(after) && Sorted(d, after) && Goes(d, k, x, after) && k <= j < |d|
    ensures !after(x, d[j])
  {
    var a, c := d[k], d[j];
    assert after(a, x);
    assert k == j || !after(a, c);
  }

  lemma StrictOrderKeepsSorted(d: seq<int>, k: nat, x: int, after: (int, int) -> bool)
    requires StrictOrder(after) && Sorted(d, after) && Goes(d, k, x, after)
    ensures Sorted(Inserted(d, k, x), after)
  {
    var e := Inserted(d, k, x);
    forall j | k <= j < |d|
      ensures !after(x, d[j])
    {
      AfterTheFirst(d, k, x, j, after);
    }
    forall i, j | 0 <= i < j < |e|
      ensures !after(e[i], e[j])
    {
      assert e[i] == if i < k then d[i] else if i == k then x else d[i - 1];
      assert e[j] == if j < k then d[j] else if j == k then x else d[j - 1];
    }
  }

  lemma InsertedSorted(s: seq<Iter>, k: nat, i: Iter, after: (int, int) -> bool)
    requires Goes(Datas(s), k, i.data, after)
    ensures StrictOrder(after) && Sorted(Datas(s), after) ==> Sorted(Datas(Inserted(s, k, i)), after)
  {
    hide Sorted, StrictOrder;
    assert Datas(Inserted(s, k, i)) == Inserted(Datas(s), k, i.data);
    if StrictOrder(after) && Sorted(Datas(s), after) {
      StrictOrderKeepsSorted(Datas(s), k, i.data, after);
    }
  }

  /** Sorted insertion keeps every list sorted exactly when the function's "not zero" is a strict order. */
  lemma SortAddKeepsSortedIff(after: (int, int) -> bool)
    ensures KeepsSorted(after) <==> StrictOrder(after)
  {
    if StrictOrder(after) {
      forall d, k: nat, x | Sorted(d, after) && Goes(d, k, x, after)
        ensures Sorted(Inserted(d, k, x), after)
      {
        StrictOrderKeepsSorted(d, k, x, after);
      }
    }
    if KeepsSorted(after) {
      forall a, b | after(a, b)
        ensures !after(b, a)
      {
        Keeps(after, [a], 0, b);
        var e := Inserted([a], 0, b);
        assert e[0] == b && e[1] == a;
      }
      forall a, b, c | after(a, b) && after(b, c)
        ensures after(a, c)
      {
        if !after(a, c) {
          GoesBeforeBoth(after, a, b, c);
          assert false;
        }
      }
    }
  }

  lemma GoesBeforeBoth(after: (int, int) -> bool, a: int, b: int, c: int)
    requires KeepsSorted(after) && after(a, b) && !after(a, c)
    ensures !after(b, c)
  {
    Keeps(after, [a, c], 0, b);
    var e := Inserted([a, c], 0, b);
    assert e[0] == b && e[2] == c;
  }

  lemma Keeps(after: (int, int) -> bool, d: seq<int>, k: nat, x: int)
    requires KeepsSorted(after) && Sorted(d, after) && Goes(d, k, x, after)
    ensures Sorted(Inserted(d, k, x), after)
  {
  }

  ghost predicate Ascending(d: seq<int>) {
    forall i, j :: 0 <= i < j < |d| ==> d[i] <= d[j]
  }

  /**
   * The function returns an unsigned number, so one that compares like `strcmp` says "after" of any two different
   * elements. An ascending list then stays ascending exactly when the new element belongs at its head.
   */
  lemma ThreeWaySortsIff(d: seq<int>, k: nat, x: int, after: (int, int) -> bool)
    requires (forall a, b :: after(a, b) <==> a != b) && Goes(d, k, x, after) && Ascending(d)
    ensures Ascending(Inserted(d, k, x)) <==> d == [] || x <= d[0]
  {
    var e := Inserted(d, k, x);
    InsertedIs(d, k, x);
    if k > 0 {
      assert d[0] == x;
    } else if d != [] {
      assert e[0] == x && e[1] == d[0];
    }
  }

  /** 2 is inserted in front of 1. */
  lemma ThreeWayDoesNotSort(after: (int, int) -> bool)
    requires forall a, b :: after(a, b) <==> a != b
    ensures Ascending([1]) && Goes([1], 0, 2, after) && Inserted([1], 0, 2) == [2, 1] && !Ascending([2, 1])
  {
    var e := Inserted([1], 0, 2);
    assert e[0] == 2 && e[1] == 1 && e == [2, 1];
  }
}
