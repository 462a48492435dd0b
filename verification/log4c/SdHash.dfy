/** log4c's chained hash table with string keys: it refines a finite map. */
module SdHash {
  import opened Sequences

  const SD_HASH_FULLTAB := 2
  const SD_HASH_GROWTAB := 4
  const SD_HASH_DEFAULT_SIZE := 10

  class Iter {
    const key: string
    const hkey: nat
    var data: int
    var next: Iter?
    var prev: Iter?
    /** `__foreach`: set while a walk is at this node. */
    var walking: bool

    constructor (key: string, hkey: nat)
      ensures this.key == key && this.hkey == hkey && data == 0 && next == null && prev == null && !walking
    {
      this.key, this.hkey, data, next, prev, walking := key, hkey, 0, null, null, false;
    }
  }

  function HashIndex(h: nat, n: nat): (i: nat)
    ensures n > 0 ==> i < n
  {
    if n == 0 then 0 else h % n
  }

  ghost function Slot(x: Iter, n: nat): (i: nat)
    ensures n > 0 ==> i < n
  {
    HashIndex(x.hkey, n)
  }

  /** The element at `i`, or null outside the sequence. */
  ghost function At(s: seq<Iter>, i: int): Iter? {
    if 0 <= i < |s| then s[i] else null
  }

  /** The links of a bucket agree in both directions. */
  ghost predicate Linked(head: Iter?, s: seq<Iter>)
    reads s`next, s`prev
  {
    head == At(s, 0)
    && (forall i {:trigger s[i].next} :: 0 <= i < |s| ==> s[i].next == At(s, i + 1))
    && (forall i {:trigger s[i].prev} :: 0 <= i < |s| ==> s[i].prev == At(s, i - 1))
  }

  /** The forward links of a bucket. */
  ghost predicate Forward(head: Iter?, s: seq<Iter>)
    reads s`next
  {
    head == At(s, 0) && forall i {:trigger s[i].next} :: 0 <= i < |s| ==> s[i].next == At(s, i + 1)
  }

  ghost predicate NoDup(s: seq<Iter>) {
    forall i, j :: 0 <= i < j < |s| ==> s[i] != s[j]
  }

  /** Every node is in the bucket of its hash. */
  ghost predicate Placed(buckets: seq<seq<Iter>>, size: nat) {
    |buckets| == size > 0
    && forall b, i :: 0 <= b < size && 0 <= i < |buckets[b]| ==> Slot(buckets[b][i], size) == b
  }

  /** No node is in two places. */
  ghost predicate Spread(buckets: seq<seq<Iter>>, size: nat) {
    Placed(buckets, size) && forall b :: 0 <= b < size ==> NoDup(buckets[b])
  }

  lemma SpreadStep(buckets: seq<seq<Iter>>, size: nat, p: Iter, h: nat)
    requires Spread(buckets, size) && h < size && Slot(p, size) == h && p !in buckets[h]
    ensures Spread(buckets[h := [p] + buckets[h]], size)
  {
  }

  lemma SpreadIs(buckets: seq<seq<Iter>>, size: nat)
    requires Spread(buckets, size)
    ensures size > 0 && |buckets| == size && forall b :: 0 <= b < size ==> NoDup(buckets[b])
  {
  }

  /** Node `x` is among the first `i` old buckets or the first `j` nodes of bucket `i`. */
  ghost predicate Before(old0: seq<seq<Iter>>, i: nat, j: nat, x: Iter) {
    |old0| > 0 && x in old0[Slot(x, |old0|)]
    && (Slot(x, |old0|) < i || (Slot(x, |old0|) == i && j <= |old0[i]| && x in old0[i][..j]))
  }

  /** The new buckets hold just those nodes, each in its place. */
  ghost predicate Moved(nb: seq<seq<Iter>>, old0: seq<seq<Iter>>, i: nat, j: nat) {
    |nb| > 0 && (forall c, x :: 0 <= c < |nb| && x in nb[c] ==> Before(old0, i, j, x))
    && (forall b, x :: 0 <= b < |old0| && x in old0[b] && Before(old0, i, j, x) ==> x in nb[Slot(x, |nb|)])
  }

  lemma MovedStep(nb: seq<seq<Iter>>, old0: seq<seq<Iter>>, i: nat, j: nat)
    requires Spread(old0, |old0|) && i < |old0| && j < |old0[i]| && Moved(nb, old0, i, j)
    ensures var p := old0[i][j]; var h := Slot(p, |nb|);
            p !in nb[h] && Moved(nb[h := [p] + nb[h]], old0, i, j + 1)
  {
    hide Slot;
    var p := old0[i][j];
    assert p in old0[i] && Slot(p, |old0|) == i;
    assert p !in old0[i][..j] && p in old0[i][..j + 1];
    var h := Slot(p, |nb|);
    var next := nb[h := [p] + nb[h]];
    assert old0[i][..j + 1] == old0[i][..j] + [p];
    assert p in nb[h] ==> Before(old0, i, j, p);
    assert !Before(old0, i, j, p);
    forall c, x | 0 <= c < |next| && x in next[c]
      ensures Before(old0, i, j + 1, x)
    {
      assert x == p || Before(old0, i, j, x);
      assert x in old0[Slot(x, |old0|)];
      assert Slot(x, |old0|) < i || x in old0[i][..j + 1];
    }
    forall b, x | 0 <= b < |old0| && x in old0[b] && Before(old0, i, j + 1, x)
      ensures x in next[Slot(x, |next|)]
    {
      assert x == p || Before(old0, i, j, x);
    }
  }

  lemma MovedBucket(nb: seq<seq<Iter>>, old0: seq<seq<Iter>>, i: nat)
    requires i < |old0| && Moved(nb, old0, i, |old0[i]|)
    ensures Moved(nb, old0, i + 1, 0)
  {
    hide Slot;
    assert old0[i][..|old0[i]|] == old0[i];
    forall c, x | 0 <= c < |nb| && x in nb[c]
      ensures Before(old0, i + 1, 0, x)
    {
      assert Before(old0, i, |old0[i]|, x);
      assert Slot(x, |old0|) < i + 1;
    }
    forall b, x | 0 <= b < |old0| && x in old0[b] && Before(old0, i + 1, 0, x)
      ensures x in nb[Slot(x, |nb|)]
    {
      assert Before(old0, i, |old0[i]|, x);
    }
  }

  lemma MovedNodes(nb: seq<seq<Iter>>, old0: seq<seq<Iter>>, i: nat, j: nat, cells: set<Iter>)
    requires Moved(nb, old0, i, j) && forall b, x :: 0 <= b < |old0| && x in old0[b] ==> x in cells
    ensures forall c, x :: 0 <= c < |nb| && x in nb[c] ==> x in cells
  {
    hide Slot;
    forall c, x | 0 <= c < |nb| && x in nb[c]
      ensures x in cells
    {
      assert Before(old0, i, j, x);
      assert x in old0[Slot(x, |old0|)];
    }
  }

  /** Every cell is in the bucket of its hash. */
  ghost predicate Reached(buckets: seq<seq<Iter>>, cells: set<Iter>) {
    forall x :: x in cells ==> |buckets| > 0 && x in buckets[Slot(x, |buckets|)]
  }

  ghost predicate IndexedBy(nodes: map<string, Iter>, cells: set<Iter>, hash: string -> nat) {
    (forall n :: n in cells ==> n.key in nodes && nodes[n.key] == n && n.hkey == hash(n.key))
    && (forall k :: k in nodes ==> nodes[k] in cells && nodes[k].key == k)
  }

  ghost predicate AllIn(buckets: seq<seq<Iter>>, cells: set<Iter>) {
    forall b, i :: 0 <= b < |buckets| && 0 <= i < |buckets[b]| ==> buckets[b][i] in cells
  }

  ghost predicate AllLinked(tab: array<Iter?>, buckets: seq<seq<Iter>>, cells: set<Iter>)
    reads tab, cells`next, cells`prev
  {
    AllIn(buckets, cells) && tab.Length == |buckets| && forall b :: 0 <= b < |buckets| ==> Linked(tab[b], buckets[b])
  }

  lemma GrowCells(tab: array<Iter?>, buckets: seq<seq<Iter>>, cells: set<Iter>, p: Iter)
    requires AllLinked(tab, buckets, cells)
    ensures AllLinked(tab, buckets, cells + {p})
  {
    hide Linked;
  }

  lemma LinkedAllIn(tab: array<Iter?>, buckets: seq<seq<Iter>>, cells: set<Iter>)
    requires AllLinked(tab, buckets, cells)
    ensures AllIn(buckets, cells)
  {
  }

  ghost function NoBuckets(n: nat): (r: seq<seq<Iter>>)
    ensures |r| == n
  {
    seq(n, _ => [])
  }

  lemma EmptyBuckets(tab: array<Iter?>, old0: seq<seq<Iter>>, cells: set<Iter>)
    requires tab.Length > 0 && forall b :: 0 <= b < tab.Length ==> tab[b] == null
    ensures var nb := NoBuckets(tab.Length);
            Spread(nb, tab.Length) && Moved(nb, old0, 0, 0) && AllLinked(tab, nb, cells)
  {
  }

  /** Puts a node at the front of its bucket and links the node that was first back to it. */
  method LinkFront(tab: array<Iter?>, p: Iter, h: nat, ghost buckets: seq<seq<Iter>>, ghost cells: set<Iter>)
    requires p in cells
    requires AllLinked(tab, buckets, cells) && h < |buckets|
    requires Spread(buckets, tab.Length) && Slot(p, tab.Length) == h && p !in buckets[h]
    modifies tab, p`next, p`prev, buckets[h]`prev
    ensures AllLinked(tab, buckets[h := [p] + buckets[h]], cells)
  {
    ghost var s := buckets[h];
    p.next := tab[h];
    tab[h] := p;
    p.prev := null;
    if p.next != null {
      assert p.next == s[0];
      p.next.prev := p;
    }
    ghost var t := [p] + s;
    assert old(Linked(tab[h], s));
    forall i | 0 <= i < |t|
      ensures t[i].next == At(t, i + 1)
    {
      if i > 0 {
        assert t[i] == s[i - 1] && s[i - 1] != p;
        assert s[i - 1].next == old(s[i - 1].next) == At(s, i);
      }
    }
    forall i | 0 <= i < |t|
      ensures t[i].prev == At(t, i - 1)
    {
      if i > 1 {
        assert t[i] == s[i - 1] && s[i - 1] != p && s[0] != s[i - 1];
        assert s[i - 1].prev == old(s[i - 1].prev) == At(s, i - 2);
      }
    }
    assert Linked(tab[h], t);
    forall b | 0 <= b < |buckets| && b != h
      ensures Linked(tab[b], buckets[b])
    {
      assert old(Linked(tab[b], buckets[b]));
      forall i | 0 <= i < |buckets[b]|
        ensures buckets[b][i] != p && buckets[b][i] !in buckets[h]
      {
        var n := buckets[b][i];
        assert n in buckets[b];
        assert Slot(n, tab.Length) == b;
      }
    }
  }

  /** The neighbours of a node are joined. */
  method JoinNeighbours(tab: array<Iter?>, p: Iter, h: nat, ghost cells: set<Iter>)
    requires h < tab.Length && (p.next == null || p.next in cells) && (p.prev == null || p.prev in cells)
    modifies tab, cells`next, cells`prev
    ensures forall b :: 0 <= b < tab.Length ==>
              tab[b] == if b == h && old(p.prev) == null then old(p.next) else old(tab[b])
    ensures forall x :: x in cells ==> x.next == if x == old(p.prev) then old(p.next) else old(x.next)
    ensures forall x :: x in cells ==> x.prev == if x == old(p.next) then old(p.prev) else old(x.prev)
  {
    if p.next != null {
      p.next.prev := p.prev;
    }
    if p.prev != null {
      p.prev.next := p.next;
    } else {
      tab[h] := p.next;
    }
  }

  /** The end of `sd_hash_iter_del`: a node leaves its bucket. */
  method Unlink(tab: array<Iter?>, p: Iter, h: nat, ghost i: nat, ghost buckets: seq<seq<Iter>>, ghost cells: set<Iter>)
    requires AllLinked(tab, buckets, cells) && Spread(buckets, tab.Length)
    requires h < |buckets| && i < |buckets[h]| && p == buckets[h][i]
    modifies tab, cells`next, cells`prev
    ensures AllLinked(tab, buckets[h := Without(buckets[h], i)], cells - {p})
  {
    hide Slot, Spread, AllIn, Without;
    ghost var s := buckets[h];
    ghost var n := tab.Length;
    LinkedAt(tab, buckets, cells, h);
    PlacedAll(buckets, n, cells);
    WithoutAllIn(buckets, n, h, i, cells);
    JoinNeighbours(tab, p, h, cells);
    ghost var t := Without(s, i);
    WithoutIs(s, i);
    forall k | 0 <= k < |t|
      ensures t[k].next == At(t, k + 1) && t[k].prev == At(t, k - 1)
    {
      WithoutAt(s, i, k);
      var m := if k < i then k else k + 1;
      assert t[k] == s[m];
      assert old(s[m].next) == At(s, m + 1) && old(s[m].prev) == At(s, m - 1);
    }
    forall b, m | 0 <= b < |buckets| && b != h && 0 <= m < |buckets[b]|
      ensures buckets[b][m].next == old(buckets[b][m].next) && buckets[b][m].prev == old(buckets[b][m].prev)
    {
      assert Slot(buckets[b][m], n) == b;
    }
  }

  lemma PlacedAll(buckets: seq<seq<Iter>>, n: nat, cells: set<Iter>)
    requires Spread(buckets, n) && AllIn(buckets, cells)
    ensures |buckets| == n
    ensures forall b, m :: 0 <= b < n && 0 <= m < |buckets[b]| ==> Slot(buckets[b][m], n) == b && buckets[b][m] in cells
  {
  }

  lemma WithoutAt(s: seq<Iter>, i: nat, k: nat)
    requires i < |s| && k < |s| - 1
    ensures |Without(s, i)| == |s| - 1 && Without(s, i)[k] == s[if k < i then k else k + 1]
    ensures At(Without(s, i), k + 1) == At(s, if k + 1 < i then k + 1 else k + 2)
    ensures At(Without(s, i), k - 1) == At(s, if k - 1 < i then k - 1 else k)
  {
  }

  lemma LinkedAt(tab: array<Iter?>, buckets: seq<seq<Iter>>, cells: set<Iter>, h: nat)
    requires AllLinked(tab, buckets, cells) && Spread(buckets, tab.Length) && h < |buckets|
    ensures Linked(tab[h], buckets[h]) && NoDup(buckets[h])
  {
  }

  lemma WithoutAllIn(buckets: seq<seq<Iter>>, n: nat, h: nat, i: nat, cells: set<Iter>)
    requires AllIn(buckets, cells) && Spread(buckets, n) && h < n && i < |buckets[h]|
    ensures AllIn(buckets[h := Without(buckets[h], i)], cells - {buckets[h][i]})
    ensures Spread(buckets[h := Without(buckets[h], i)], n)
  {
    hide Slot;
    var p := buckets[h][i];
    assert Slot(p, n) == h;
    var after := buckets[h := Without(buckets[h], i)];
    forall b, m | 0 <= b < n && 0 <= m < |after[b]|
      ensures after[b][m] in cells - {p} && Slot(after[b][m], n) == b
    {
      var k := if b != h || m < i then m else m + 1;
      assert after[b][m] == buckets[b][k] && Slot(buckets[b][k], n) == b;
    }
  }

  lemma WithoutReached(buckets: seq<seq<Iter>>, h: nat, i: nat, cells: set<Iter>)
    requires Reached(buckets, cells) && h < |buckets| && i < |buckets[h]|
    ensures Reached(buckets[h := Without(buckets[h], i)], cells - {buckets[h][i]})
  {
    hide Slot;
    var after := buckets[h := Without(buckets[h], i)];
    forall x | x in cells && x != buckets[h][i]
      ensures x in after[Slot(x, |after|)]
    {
      var b := Slot(x, |buckets|);
      SlotBound(x, |buckets|);
      var k :| 0 <= k < |buckets[b]| && buckets[b][k] == x;
      if b == h {
        assert after[b][if k < i then k else k - 1] == x;
      }
    }
  }

  lemma SlotBound(x: Iter, n: nat)
    ensures n > 0 ==> Slot(x, n) < n
  {
  }

  // ---------- the order of iteration ----------

  ghost function Flat(bs: seq<seq<Iter>>): seq<Iter> {
    if bs == [] then [] else bs[0] + Flat(bs[1..])
  }

  /** Where bucket `b` starts. */
  ghost function Off(bs: seq<seq<Iter>>, b: nat): nat
    requires b <= |bs|
  {
    if b == 0 then 0 else |bs[0]| + Off(bs[1..], b - 1)
  }

  lemma {:induction false} OffStep(bs: seq<seq<Iter>>, b: nat)
    requires b < |bs|
    ensures Off(bs, b + 1) == Off(bs, b) + |bs[b]|
  {
    if b > 0 {
      OffStep(bs[1..], b - 1);
    }
  }

  lemma {:induction false} OffEnds(bs: seq<seq<Iter>>)
    ensures Off(bs, 0) == 0 && Off(bs, |bs|) == |Flat(bs)|
  {
    if bs != [] {
      OffEnds(bs[1..]);
    }
  }

  lemma {:induction false} FlatAt(bs: seq<seq<Iter>>, b: nat, i: nat)
    requires b < |bs| && i < |bs[b]|
    ensures Off(bs, b) + i < |Flat(bs)| && Flat(bs)[Off(bs, b) + i] == bs[b][i]
  {
    if b > 0 {
      FlatAt(bs[1..], b - 1, i);
    }
  }

  lemma {:induction false} FlatBucket(bs: seq<seq<Iter>>, x: Iter) returns (b: nat)
    requires x in Flat(bs)
    ensures b < |bs| && x in bs[b]
  {
    if x in bs[0] {
      b := 0;
    } else {
      b := FlatBucket(bs[1..], x);
      b := b + 1;
    }
  }

  lemma FlatNoDup(bs: seq<seq<Iter>>, n: nat)
    requires Spread(bs, n)
    ensures NoDup(Flat(bs))
  {
    assert bs[0..] == bs;
    TailNoDup(bs, n, 0);
  }

  lemma {:induction false} TailNoDup(bs: seq<seq<Iter>>, n: nat, b: nat)
    requires Spread(bs, n) && b <= n
    ensures NoDup(Flat(bs[b..])) && forall x :: x in Flat(bs[b..]) ==> Slot(x, n) >= b
    decreases n - b
  {
    hide Slot;
    if b < n {
      TailNoDup(bs, n, b + 1);
      assert bs[b..][0] == bs[b] && bs[b..][1..] == bs[b + 1..];
      var s, t := bs[b], Flat(bs[b + 1..]);
      assert Flat(bs[b..]) == s + t;
      forall i, j | 0 <= i < |s| && 0 <= j < |t|
        ensures s[i] != t[j]
      {
        assert Slot(s[i], n) == b && t[j] in t;
      }
      forall x | x in s + t
        ensures Slot(x, n) >= b
      {
      }
    } else {
      assert bs[b..] == [];
    }
  }

  /** A bucket holds the hash values of one remainder, so a walk meets the nodes by rising remainders. */
  lemma WalkGoesByHash(bs: seq<seq<Iter>>, n: nat, i: nat, j: nat)
    requires n > 0 && Spread(bs, n) && i < j < |Flat(bs)|
    ensures Flat(bs)[i].hkey % n <= Flat(bs)[j].hkey % n
  {
    assert bs[0..] == bs;
    TailGoesByHash(bs, n, 0, i, j);
  }

  lemma {:induction false} TailGoesByHash(bs: seq<seq<Iter>>, n: nat, b: nat, i: nat, j: nat)
    requires n > 0 && Spread(bs, n) && b <= n && i < j < |Flat(bs[b..])|
    ensures Flat(bs[b..])[i].hkey % n <= Flat(bs[b..])[j].hkey % n
    decreases n - b
  {
    assert |bs[b..]| > 0;
    assert bs[b..][0] == bs[b] && bs[b..][1..] == bs[b + 1..];
    var s, t := bs[b], Flat(bs[b + 1..]);
    assert Flat(bs[b..]) == s + t;
    if |s| <= i {
      TailGoesByHash(bs, n, b + 1, i - |s|, j - |s|);
    } else {
      assert Slot(s[i], n) == b;
      if j < |s| {
        assert Slot(s[j], n) == b;
      } else {
        TailNoDup(bs, n, b + 1);
        assert t[j - |s|] in t;
      }
    }
  }

  lemma AtIs(s: seq<Iter>, i: int)
    ensures At(s, i) == if 0 <= i < |s| then s[i] else null
  {
  }

  /** The calls a client makes, each with what `calloc` gives it, a node or a table. */
  datatype Op =
    | OpAdd(key: string, data: int, callocNode: bool, callocTab: bool)
    | OpLookAdd(key: string, callocNode: bool, callocTab: bool)
    | OpLookup(key: string)
    | OpDel(key: string)
    | OpIterDel(key: string)

  /** What a call does to the map. */
  function Apply(m: map<string, int>, op: Op): map<string, int> {
    match op
    case OpAdd(key, data, callocNode, _) => if key in m || callocNode then m[key := data] else m
    case OpLookAdd(key, callocNode, _) => if key !in m && callocNode then m[key := 0] else m
    case OpLookup(_) => m
    case OpDel(key) => m - {key}
    case OpIterDel(key) => m - {key}
  }

  /** The data of the node that a call returns. */
  function Answer(m: map<string, int>, op: Op): Option<int> {
    if (op.OpAdd? || op.OpLookAdd? || op.OpLookup?) && op.key in Apply(m, op) then Some(Apply(m, op)[op.key]) else None
  }

  /** The call is not refused the larger table. */
  predicate TableGrows(op: Op) {
    op.OpAdd? || op.OpLookAdd? ==> op.callocTab
  }

  // ---------- deletion during a walk ----------

  /** The buckets have lost one node. */
  ghost predicate Lost(before: seq<seq<Iter>>, after: seq<seq<Iter>>, p: Iter) {
    exists h, i :: 0 <= h < |before| && 0 <= i < |before[h]| && before[h][i] == p && after == before[h := Without(before[h], i)]
  }

  lemma LostAt(before: seq<seq<Iter>>, after: seq<seq<Iter>>, p: Iter, n: nat, h: nat, i: nat)
    requires Lost(before, after, p) && Spread(before, n) && h < n && i < |before[h]| && before[h][i] == p
    ensures after == before[h := Without(before[h], i)]
  {
    hide Slot;
    var g, j :| 0 <= g < |before| && 0 <= j < |before[g]| && before[g][j] == p && after == before[g := Without(before[g], j)];
    assert Slot(before[g][j], n) == g && Slot(before[h][i], n) == h;
  }

  /** What is left of the first nodes of a walk. */
  ghost function Kept(all: seq<Iter>, visited: seq<(string, int)>, deletes: (nat, string, int) -> bool): seq<Iter>
    requires |visited| <= |all|
  {
    if visited == [] then []
    else
      var k := |visited| - 1;
      Kept(all, visited[..k], deletes) + if deletes(k, visited[k].0, visited[k].1) then [] else [all[k]]
  }

  /** The keys deleted in a walk. */
  function Deleted(visited: seq<(string, int)>, deletes: (nat, string, int) -> bool): set<string> {
    if visited == [] then {}
    else
      var k := |visited| - 1;
      Deleted(visited[..k], deletes) + if deletes(k, visited[k].0, visited[k].1) then {visited[k].0} else {}
  }

  /** The nodes visited so far are the first ones in order, those deleted are gone and the others are where they were. */
  ghost predicate WalkedTo(all: seq<Iter>, items: seq<(string, int)>, order: seq<Iter>, visited: seq<(string, int)>,
      deletes: (nat, string, int) -> bool) {
    |items| == |all| && |visited| <= |all| && visited == items[..|visited|]
    && order == Kept(all, visited, deletes) + all[|visited|..]
  }

  /** No node visited before the last has stopped the walk. */
  predicate NoStop(visited: seq<(string, int)>, k: int, stops: (nat, string, int) -> bool)
    requires k <= |visited|
  {
    forall j :: 0 <= j < k ==> !stops(j, visited[j].0, visited[j].1)
  }

  lemma WalkedNone(all: seq<Iter>, items: seq<(string, int)>, deletes: (nat, string, int) -> bool)
    requires |items| == |all|
    ensures WalkedTo(all, items, all, [], deletes) && Kept(all, [], deletes) == [] && Deleted([], deletes) == {}
  {
  }

  /** The node the walk is at. */
  lemma WalkedHere(all: seq<Iter>, items: seq<(string, int)>, order: seq<Iter>, visited: seq<(string, int)>,
      deletes: (nat, string, int) -> bool)
    requires WalkedTo(all, items, order, visited, deletes)
    ensures |order| == |Kept(all, visited, deletes)| + |all| - |visited|
    ensures |visited| < |all| ==> order[|Kept(all, visited, deletes)|] == all[|visited|]
  {
  }

  lemma KeptStep(all: seq<Iter>, visited: seq<(string, int)>, item: (string, int), deletes: (nat, string, int) -> bool)
    requires |visited| < |all|
    ensures var k, v := |visited|, visited + [item];
            Kept(all, v, deletes) == Kept(all, visited, deletes) + (if deletes(k, item.0, item.1) then [] else [all[k]])
            && Deleted(v, deletes) == Deleted(visited, deletes) + (if deletes(k, item.0, item.1) then {item.0} else {})
  {
    assert (visited + [item])[..|visited|] == visited;
  }

  lemma WalkedStep(all: seq<Iter>, items: seq<(string, int)>, order: seq<Iter>, visited: seq<(string, int)>,
      deletes: (nat, string, int) -> bool)
    requires WalkedTo(all, items, order, visited, deletes) && |visited| < |all|
    ensures var k, pos := |visited|, |Kept(all, visited, deletes)|;
            pos < |order|
            && WalkedTo(all, items, if deletes(k, items[k].0, items[k].1) then Without(order, pos) else order,
                        visited + [items[k]], deletes)
  {
    hide Kept;
    var k, kept := |visited|, Kept(all, visited, deletes);
    KeptStep(all, visited, items[k], deletes);
    assert all[k..] == [all[k]] + all[k + 1..];
    assert items[..k + 1] == visited + [items[k]];
    assert (kept + all[k..])[|kept| + 1..] == all[k + 1..];
  }

  /** A node less in a bucket is that node less in order. */
  lemma {:induction false} FlatWithout(bs: seq<seq<Iter>>, h: nat, i: nat)
    requires h < |bs| && i < |bs[h]|
    ensures Off(bs, h) + i < |Flat(bs)|
    ensures Flat(bs[h := Without(bs[h], i)]) == Without(Flat(bs), Off(bs, h) + i)
  {
    var after := bs[h := Without(bs[h], i)];
    if h == 0 {
      assert after[1..] == bs[1..];
    } else {
      FlatWithout(bs[1..], h - 1, i);
      assert after[1..] == bs[1..][h - 1 := Without(bs[1..][h - 1], i)];
      WithoutBehind(bs[0], Flat(bs[1..]), Off(bs[1..], h - 1) + i);
    }
  }

  lemma WithoutBehind(a: seq<Iter>, b: seq<Iter>, k: nat)
    requires k < |b|
    ensures Without(a + b, |a| + k) == a + Without(b, k)
  {
  }

  /** The places before a bucket do not depend on it. */
  lemma {:induction false} OffStays(bs: seq<seq<Iter>>, h: nat, s: seq<Iter>)
    requires h < |bs|
    ensures Off(bs[h := s], h) == Off(bs, h)
  {
    if h > 0 {
      OffStays(bs[1..], h - 1, s);
      assert bs[h := s][1..] == bs[1..][h - 1 := s];
    }
  }

  /** The walk is at place `i` of bucket `h`. */
  ghost predicate WalkAt(all: seq<Iter>, items: seq<(string, int)>, bs: seq<seq<Iter>>, h: nat, i: nat,
      visited: seq<(string, int)>, deletes: (nat, string, int) -> bool) {
    h < |bs| && i <= |bs[h]| && WalkedTo(all, items, Flat(bs), visited, deletes)
    && Off(bs, h) + i == |Kept(all, visited, deletes)|
  }

  /** The node at that place is the next one to visit, and after the visit the walk is at the one behind it. */
  lemma WalkOne(all: seq<Iter>, items: seq<(string, int)>, bs: seq<seq<Iter>>, h: nat, i: nat,
      visited: seq<(string, int)>, deletes: (nat, string, int) -> bool)
    requires WalkAt(all, items, bs, h, i, visited, deletes) && i < |bs[h]|
    ensures |visited| < |all| == |items| && bs[h][i] == all[|visited|]
    ensures var item := items[|visited|];
            if deletes(|visited|, item.0, item.1) then
              var next := bs[h := Without(bs[h], i)];
              WalkAt(all, items, next, h, i, visited + [item], deletes) && At(next[h], i) == At(bs[h], i + 1)
            else WalkAt(all, items, bs, h, i + 1, visited + [item], deletes)
  {
    hide Kept, Flat, Off, Without, WalkedTo, At;
    WalkedSizes(all, items, Flat(bs), visited, deletes);
    FlatAt(bs, h, i);
    WalkedHere(all, items, Flat(bs), visited, deletes);
    WalkedStep(all, items, Flat(bs), visited, deletes);
    KeptStep(all, visited, items[|visited|], deletes);
    FlatWithout(bs, h, i);
    OffStays(bs, h, Without(bs[h], i));
    WithoutNext(bs[h], i);
  }

  lemma WalkAtBucket(all: seq<Iter>, items: seq<(string, int)>, bs: seq<seq<Iter>>, h: nat, i: nat,
      visited: seq<(string, int)>, deletes: (nat, string, int) -> bool)
    requires WalkAt(all, items, bs, h, i, visited, deletes)
    ensures h < |bs| && i <= |bs[h]| && WalkedTo(all, items, Flat(bs), visited, deletes)
  {
  }

  lemma NoStopLess(visited: seq<(string, int)>, k: int, stops: (nat, string, int) -> bool)
    requires k <= |visited| && NoStop(visited, k, stops)
    ensures NoStop(visited, k - 1, stops)
  {
  }

  lemma OthersDiffer(all: seq<Iter>, k: nat)
    requires NoDup(all) && k < |all|
    ensures forall j :: k < j < |all| ==> all[j] != all[k]
  {
  }

  lemma NoStopStep(visited: seq<(string, int)>, item: (string, int), stops: (nat, string, int) -> bool)
    requires NoStop(visited, |visited|, stops)
    ensures NoStop(visited + [item], |visited|, stops)
    ensures !stops(|visited|, item.0, item.1) ==> NoStop(visited + [item], |visited| + 1, stops)
  {
  }

  lemma LessDeleted(m: map<string, int>, gone: set<string>, key: string)
    ensures m - gone - {key} == m - (gone + {key}) && m - (gone + {}) == m - gone
  {
    assert gone + {} == gone;
  }

  lemma WalkedSizes(all: seq<Iter>, items: seq<(string, int)>, order: seq<Iter>, visited: seq<(string, int)>,
      deletes: (nat, string, int) -> bool)
    requires WalkedTo(all, items, order, visited, deletes)
    ensures |items| == |all| && |visited| <= |all|
  {
  }

  lemma WithoutNext(s: seq<Iter>, i: nat)
    requires i < |s|
    ensures |Without(s, i)| == |s| - 1 && At(Without(s, i), i) == At(s, i + 1)
  {
  }

  /** From the end of a bucket to the start of the next. */
  lemma WalkOn(all: seq<Iter>, items: seq<(string, int)>, bs: seq<seq<Iter>>, h: nat, visited: seq<(string, int)>,
      deletes: (nat, string, int) -> bool)
    requires h < |bs| && WalkAt(all, items, bs, h, |bs[h]|, visited, deletes)
    ensures Off(bs, h + 1) == |Kept(all, visited, deletes)|
    ensures h + 1 < |bs| ==> WalkAt(all, items, bs, h + 1, 0, visited, deletes)
  {
    hide Kept, Flat, Off, WalkedTo;
    OffStep(bs, h);
  }

  /** Behind the last bucket every node has been visited. */
  lemma WalkEnds(all: seq<Iter>, items: seq<(string, int)>, bs: seq<seq<Iter>>, visited: seq<(string, int)>,
      deletes: (nat, string, int) -> bool)
    requires WalkedTo(all, items, Flat(bs), visited, deletes) && Off(bs, |bs|) == |Kept(all, visited, deletes)|
    ensures |visited| == |all|
  {
    hide Kept, Flat, Off, WalkedTo;
    OffEnds(bs);
    WalkedHere(all, items, Flat(bs), visited, deletes);
    WalkedSizes(all, items, Flat(bs), visited, deletes);
  }

  class Hash {
    const hash: string -> nat
    var nelem: nat
    var size: nat
    var tab: array<Iter?>
    /** The nodes of each bucket, in chain order. */
    ghost var buckets: seq<seq<Iter>>
    /** The node of each key. */
    ghost var nodes: map<string, Iter>
    ghost var cells: set<Iter>

    ghost predicate Valid()
      reads this, tab, cells`next, cells`prev
    {
      Stored() && AllLinked(tab, buckets, cells)
    }

    /** Which node is where, apart from the links. */
    ghost predicate Stored()
      reads this
    {
      size == tab.Length && Spread(buckets, size) && Indexed() && nelem == |nodes|
      && AllIn(buckets, cells)
      && Reached(buckets, cells)
    }

    /** Each node is found under its own key. */
    ghost predicate Indexed()
      reads this`nodes, this`cells
    {
      IndexedBy(nodes, cells, hash)
    }

    /** The bucket of a key. */
    ghost function Bucket(key: string): seq<Iter>
      reads this
    {
      if size > 0 && HashIndex(hash(key), size) < |buckets| then buckets[HashIndex(hash(key), size)] else []
    }

    /** What the table holds. */
    ghost function Contents(): map<string, int>
      reads this, cells
    {
      map k | k in nodes :: if nodes[k] in cells then nodes[k].data else 0
    }

    /** No walk is at any node. */
    ghost predicate Idle()
      reads this`cells, cells`walking
    {
      forall x :: x in cells ==> !x.walking
    }

    constructor (a_size: nat, hash: string -> nat)
      ensures Idle()
      ensures Valid() && fresh(tab) && Contents() == map[] && nodes == map[] && this.hash == hash
      ensures nelem == 0 && cells == {}
      ensures size == if a_size == 0 then SD_HASH_DEFAULT_SIZE else a_size
    {
      var n := if a_size == 0 then SD_HASH_DEFAULT_SIZE else a_size;
      this.hash := hash;
      nelem, size := 0, n;
      tab := new Iter?[n](_ => null);
      buckets, nodes, cells := seq(n, _ => []), map[], {};
    }

    lemma BucketIs(key: string)
      requires Valid()
      ensures HashIndex(hash(key), size) < tab.Length && Linked(tab[HashIndex(hash(key), size)], Bucket(key))
              && NoDup(Bucket(key))
      ensures forall n :: n in Bucket(key) ==> n.key in nodes && nodes[n.key] == n
    {
    }

    /** `sd_hash_lookup`. */
    method Lookup(key: string) returns (p: Iter?)
      requires Valid()
      ensures p == if key in nodes then nodes[key] else null
    {
      BucketIs(key);
      var h := HashIndex(hash(key), size);
      ghost var s := Bucket(key);
      ghost var i := 0;
      hide Stored, NoDup, AllLinked, Bucket;
      p := tab[h];
      while p != null
        invariant i <= |s| && p == At(s, i)
        invariant forall j :: 0 <= j < i ==> s[j].key != key
        decreases |s| - i
      {
        if p.key == key {
          return;
        }
        p := p.next;
        i := i + 1;
      }
    }

    /** The inner loop of `rehash`: the nodes of bucket `i` go to the new table. */
    method MoveBucket(i: nat, newTab: array<Iter?>, ghost nb0: seq<seq<Iter>>) returns (ghost nb: seq<seq<Iter>>)
      requires Stored() && i < size && Forward(tab[i], buckets[i]) && newTab != tab
      requires AllLinked(newTab, nb0, cells) && Spread(nb0, newTab.Length) && Moved(nb0, buckets, i, 0)
      modifies newTab, cells`next, cells`prev
      ensures AllLinked(newTab, nb, cells) && Spread(nb, newTab.Length) && Moved(nb, buckets, i + 1, 0)
      ensures forall x :: x in cells && Slot(x, size) != i ==> x.next == old(x.next)
    {
      hide Stored, Moved, Spread, AllLinked, AllIn, Linked, Slot;
      StoredIs();
      SpreadIs(buckets, size);
      nb := nb0;
      ghost var s := buckets[i];
      ghost var j := 0;
      var n := newTab.Length;
      var p := tab[i];
      while p != null
        invariant j <= |s| && p == At(s, j)
        invariant Linking(newTab, nb, i, j)
        invariant forall m {:trigger s[m].next} :: j <= m < |s| ==> s[m].next == At(s, m + 1)
        invariant forall x :: x in cells && Slot(x, size) != i ==> x.next == old(x.next)
        decreases |s| - j
      {
        var q := p.next;
        nb := MoveNode(newTab, p, nb, i, j);
        j := j + 1;
        p := q;
      }
      MovedBucket(nb, buckets, i);
    }

    /** The new table while bucket `i` is being moved. */
    ghost predicate Linking(newTab: array<Iter?>, nb: seq<seq<Iter>>, i: nat, j: nat)
      reads this, newTab, cells
    {
      newTab != tab && AllLinked(newTab, nb, cells) && Spread(nb, newTab.Length) && Moved(nb, buckets, i, j)
    }

    /** One round of the inner loop, without the step to the next node. */
    method MoveNode(newTab: array<Iter?>, p: Iter, ghost nb0: seq<seq<Iter>>, ghost i: nat, ghost j: nat)
      returns (ghost nb: seq<seq<Iter>>)
      requires Stored() && i < size && j < |buckets[i]| && p == buckets[i][j] && Linking(newTab, nb0, i, j)
      modifies newTab, p`next, cells`prev
      ensures Linking(newTab, nb, i, j + 1)
    {
      SpreadIs(nb0, newTab.Length);
      MovedStep(nb0, buckets, i, j);
      var h := HashIndex(p.hkey, newTab.Length);
      SpreadStep(nb0, newTab.Length, p, h);
      hide Stored, Moved, Spread;
      LinkFront(newTab, p, h, nb0, cells);
      nb := nb0[h := [p] + nb0[h]];
    }

    lemma RehashedIsStored(nb: seq<seq<Iter>>)
      requires Stored() && Moved(nb, buckets, size, 0)
      ensures AllIn(nb, cells)
      ensures Reached(nb, cells) && Indexed() && nelem == |nodes|
    {
      MovedNodes(nb, buckets, size, 0, cells);
      hide Slot;
      forall x | x in cells
        ensures x in nb[Slot(x, |nb|)]
      {
        assert x in buckets[Slot(x, |buckets|)];
        assert Before(buckets, size, 0, x);
      }
    }

    ghost predicate ForwardFrom(i: nat)
      requires Stored()
      reads this, tab, cells
    {
      SpreadIs(buckets, size);
      (forall b :: i <= b < size ==> tab[b] == At(buckets[b], 0))
      && forall b, m {:trigger buckets[b][m].next} :: i <= b < size && 0 <= m < |buckets[b]| ==>
            InCells(b, m) && buckets[b][m].next == At(buckets[b], m + 1)
    }

    ghost predicate InCells(b: nat, m: nat)
      reads this
    {
      b < |buckets| && m < |buckets[b]| && buckets[b][m] in cells
    }

    lemma ValidForward()
      requires Valid()
      ensures ForwardFrom(0)
    {
      hide Slot, Indexed, NoDup, At;
      forall b, m | 0 <= b < size && 0 <= m < |buckets[b]|
        ensures InCells(b, m) && buckets[b][m].next == At(buckets[b], m + 1)
      {
        assert buckets[b][m] in buckets[b];
        assert Linked(tab[b], buckets[b]);
      }
    }

    lemma FirstForward(i: nat)
      requires Stored() && i < size && ForwardFrom(i)
      ensures Forward(tab[i], buckets[i])
    {
    }

    /** Changing bucket `i` leaves the buckets after it linked. */
    twostate lemma StillForward(i: nat)
      requires old(Stored()) && Stored() && i < size && old(ForwardFrom(i))
      requires buckets == old(buckets) && tab == old(tab) && cells == old(cells) && size == old(size)
      requires forall b :: 0 <= b < size ==> tab[b] == old(tab[b])
      requires forall x :: x in cells && Slot(x, size) != i ==> x.next == old(x.next)
      ensures ForwardFrom(i + 1)
    {
      forall b, m | i + 1 <= b < size && 0 <= m < |buckets[b]|
        ensures InCells(b, m) && buckets[b][m].next == At(buckets[b], m + 1)
      {
        assert Slot(buckets[b][m], size) == b && InCells(b, m);
        assert old(buckets[b][m].next) == At(buckets[b], m + 1);
      }
    }

    /** The outer loop of `rehash`. */
    method MoveAll(newTab: array<Iter?>, ghost nb0: seq<seq<Iter>>) returns (ghost nb: seq<seq<Iter>>)
      requires Valid() && newTab != tab && AllLinked(newTab, nb0, cells) && Spread(nb0, newTab.Length)
               && Moved(nb0, buckets, 0, 0)
      modifies newTab, cells`next, cells`prev
      ensures |nb| == newTab.Length && AllLinked(newTab, nb, cells) && Spread(nb, newTab.Length)
              && Moved(nb, buckets, size, 0)
    {
      hide Stored, Spread, Moved, AllLinked, ForwardFrom, Forward, AllIn, Linked, Slot, NoDup;
      nb := nb0;
      StoredIs();
      ValidForward();
      var i := 0;
      while i < size
        invariant i <= size
        invariant AllLinked(newTab, nb, cells) && Spread(nb, newTab.Length) && Moved(nb, buckets, i, 0)
        invariant ForwardFrom(i)
      {
        label before:
        FirstForward(i);
        nb := MoveBucket(i, newTab, nb);
        StillForward@before(i);
        i := i + 1;
      }
      SpreadIs(nb, newTab.Length);
    }

    lemma StoredSizes()
      requires Stored()
      ensures size == tab.Length == |buckets| && size > 0 && Spread(buckets, size)
    {
    }

    lemma StoredIs()
      requires Stored()
      ensures size == tab.Length == |buckets| && size > 0 && Spread(buckets, size)
      ensures forall m, i :: 0 <= i < size && 0 <= m < |buckets[i]| ==>
                buckets[i][m] in cells && Slot(buckets[i][m], size) == i
    {
    }

    lemma MakeStored()
      requires size == tab.Length && Spread(buckets, size) && Indexed() && nelem == |nodes|
      requires AllIn(buckets, cells)
      requires Reached(buckets, cells)
      ensures Stored()
    {
    }

    twostate lemma SameContents()
      requires nodes == old(nodes) && cells == old(cells) && forall x :: x in cells ==> x.data == old(x.data)
      ensures Contents() == old(Contents())
    {
    }

    /** `rehash`: a table four times as large with the same nodes; nothing happens if `calloc` fails. */
    method Rehash(calloc: bool)
      requires Valid()
      modifies this`tab, this`size, this`buckets, cells`next, cells`prev
      ensures Valid() && (tab == old(tab) || fresh(tab))
      ensures size == if calloc then SD_HASH_GROWTAB * old(size) else old(size)
      ensures Contents() == old(Contents())
    {
      hide Stored, Spread, Moved, Indexed, AllLinked, Contents, Reached, AllIn, Slot, Linked, At, NoDup;
      if !calloc {
        return;
      }
      StoredIs();
      var n := SD_HASH_GROWTAB * size;
      var newTab := new Iter?[n](_ => null);
      ghost var nb := NoBuckets(n);
      EmptyBuckets(newTab, buckets, cells);
      nb := MoveAll(newTab, nb);
      RehashedIsStored(nb);
      tab, size, buckets := newTab, n, nb;
      MakeStored();
      SameContents();
    }

    // ---------- adding ----------

    /** The end of `sd_hash_lookadd`: a new node goes to the front of its bucket. */
    method Insert(p: Iter)
      requires Valid() && p !in cells && p.key !in nodes && p.hkey == hash(p.key)
      modifies this`nelem, this`buckets, this`nodes, this`cells, tab, p`next, p`prev, cells`prev
      ensures Valid() && nodes == old(nodes)[p.key := p] && cells == old(cells) + {p} && nelem == old(nelem) + 1
    {
      hide Stored, Spread, Indexed, AllLinked, Reached, AllIn, Linked, At, NoDup;
      StoredIs();
      NotInBucket(p);
      GrowCells(tab, buckets, cells, p);
      var h := HashIndex(p.hkey, size);
      SpreadStep(buckets, size, p, h);
      InsertReached(p, h);
      InsertIndexed(p);
      LinkFront(tab, p, h, buckets, cells + {p});
      buckets := buckets[h := [p] + buckets[h]];
      nodes, cells := nodes[p.key := p], cells + {p};
      nelem := nelem + 1;
      LinkedAllIn(tab, buckets, cells);
      MakeStored();
    }

    lemma NotInBucket(p: Iter)
      requires Stored() && p !in cells
      ensures p !in buckets[HashIndex(p.hkey, size)] && size == |buckets| > HashIndex(p.hkey, size)
      ensures Reached(buckets, cells) && Indexed() && nelem == |nodes|
    {
    }

    lemma InsertReached(p: Iter, h: nat)
      requires Reached(buckets, cells) && h < |buckets| && h == Slot(p, |buckets|)
      ensures Reached(buckets[h := [p] + buckets[h]], cells + {p})
    {
      hide Slot;
    }

    lemma InsertIndexed(p: Iter)
      requires Indexed() && p !in cells && p.key !in nodes && p.hkey == hash(p.key)
      ensures IndexedBy(nodes[p.key := p], cells + {p}, hash) && |nodes[p.key := p]| == |nodes| + 1
    {
    }

    // ---------- deleting ----------

    lemma InBucket(p: Iter) returns (i: nat)
      requires Stored() && p in cells
      ensures HashIndex(p.hkey, size) < size == |buckets| && i < |buckets[HashIndex(p.hkey, size)]|
              && buckets[HashIndex(p.hkey, size)][i] == p
      ensures Reached(buckets, cells) && Indexed() && AllIn(buckets, cells) && nelem == |nodes|
    {
      var s := buckets[HashIndex(p.hkey, size)];
      assert p in s;
      i :| 0 <= i < |s| && s[i] == p;
    }

    /** The nodes without the one of a key. */
    ghost function Dropped(key: string): map<string, Iter>
      reads this`nodes
    {
      nodes - {key}
    }

    /** Where a node is, and that everything but the links is in order once it has gone from there. */
    lemma Deletable(p: Iter) returns (i: nat)
      requires Stored() && p in cells
      ensures size == tab.Length == |buckets| && Spread(buckets, size) && HashIndex(p.hkey, size) < size
      ensures i < |buckets[HashIndex(p.hkey, size)]| && buckets[HashIndex(p.hkey, size)][i] == p
      ensures var h := HashIndex(p.hkey, size);
              var after := buckets[h := Without(buckets[h], i)];
              Spread(after, size) && AllIn(after, cells - {p}) && Reached(after, cells - {p})
      ensures IndexedBy(Dropped(p.key), cells - {p}, hash) && |Dropped(p.key)| == nelem - 1
    {
      StoredSizes();
      i := InBucket(p);
      hide Stored, Without, AllIn, Reached, Spread;
      WithoutAllIn(buckets, size, HashIndex(p.hkey, size), i, cells);
      WithoutReached(buckets, HashIndex(p.hkey, size), i, cells);
      assert (nodes - {p.key}).Keys == nodes.Keys - {p.key};
    }

    /** A node leaves the table. */
    method Detach(p: Iter)
      requires Valid() && p in cells
      modifies this`nelem, this`buckets, this`nodes, this`cells, tab, cells`next, cells`prev
      ensures Valid() && nodes == old(Dropped(p.key)) && cells == old(cells) - {p} && nelem == old(nelem) - 1
      ensures Lost(old(buckets), buckets, p)
    {
      hide Stored, Spread, Indexed, IndexedBy, AllLinked, Reached, AllIn, Without, Linked, At, NoDup, Placed, Dropped;
      ghost var i := Deletable(p);
      var h := HashIndex(p.hkey, size);
      Unlink(tab, p, h, i, buckets, cells);
      buckets := buckets[h := Without(buckets[h], i)];
      nodes, cells := Dropped(p.key), cells - {p};
      nelem := nelem - 1;
      MakeStored();
    }

    /** `sd_hash_iter_del`: during the walk that is at the node, it only takes back the mark. */
    method IterDel(p: Iter)
      requires Valid() && p in cells
      modifies this`nelem, this`buckets, this`nodes, this`cells, tab, cells`next, cells`prev, p`data, p`walking
      ensures Valid() && p.data == 0 && !p.walking
      ensures old(p.walking) ==>
                buckets == old(buckets) && nodes == old(nodes) && cells == old(cells) && nelem == old(nelem)
                && p.next == old(p.next) && Contents() == old(Contents())[p.key := 0]
      ensures !old(p.walking) ==>
                Lost(old(buckets), buckets, p) && nodes == old(nodes) - {p.key} && cells == old(cells) - {p}
                && nelem == old(nelem) - 1 && Contents() == old(Contents()) - {p.key}
    {
      hide Valid, Contents, Lost;
      NodesIn();
      p.data := 0;
      if p.walking {
        p.walking := false;
        DataSet(p);
        return;
      }
      Detach(p);
      LessContents(p);
    }

    twostate lemma DataSet(p: Iter)
      requires nodes == old(nodes) && cells == old(cells) && p in cells && p.key in nodes && nodes[p.key] == p
      requires forall k :: k in nodes ==> nodes[k].key == k
      requires forall x :: x in cells && x != p ==> x.data == old(x.data)
      ensures Contents() == old(Contents())[p.key := p.data]
    {
    }

    twostate lemma LessContents(p: Iter)
      requires nodes == old(nodes) - {p.key} && cells == old(cells) - {p}
      requires forall k :: k in old(nodes) ==> old(nodes)[k] in old(cells) && old(nodes)[k].key == k
      requires forall x :: x in cells ==> x.data == old(x.data)
      ensures Contents() == old(Contents()) - {p.key}
    {
    }

    /** `sd_hash_del`. */
    method Del(key: string)
      requires Valid() && Idle()
      modifies this`nelem, this`buckets, this`nodes, this`cells, tab, cells`next, cells`prev, cells`data, cells`walking
      ensures Idle()
      ensures Valid() && nodes == old(nodes) - {key} && cells <= old(cells) && nelem <= old(nelem)
      ensures Contents() == old(Contents()) - {key}
    {
      hide Stored, AllLinked, Indexed, Contents;
      NodesIn();
      ContentsKeys();
      var p := Lookup(key);
      if p != null {
        IterDel(p);
      } else {
        assert Contents() - {key} == Contents();
        assert nodes - {key} == nodes;
      }
    }

    lemma ContentsKeys()
      ensures Contents().Keys == nodes.Keys
    {
    }

    lemma CountIs()
      requires Valid()
      ensures nelem == |Contents()|
    {
      ContentsKeys();
      assert |Contents()| == |Contents().Keys| && |nodes| == |nodes.Keys|;
    }

    lemma NodesIn()
      requires Valid()
      ensures size > 0
      ensures forall k :: k in nodes ==> nodes[k] in cells && nodes[k].key == k
      ensures forall x :: x in cells ==> x.key in nodes && nodes[x.key] == x
      ensures nelem == |nodes|
    {
    }

    /** `sd_hash_lookadd`; `calloc` says which of the two allocations, of a node and of a table, succeed. */
    method LookAdd(key: string, callocNode: bool, callocTab: bool) returns (p: Iter?)
      requires Valid()
      modifies this`tab, this`size, this`nelem, this`buckets, this`nodes, this`cells, tab, cells`next, cells`prev
      ensures Valid() && (tab == old(tab) || fresh(tab))
      ensures key in old(nodes) ==> p == old(nodes[key]) && nodes == old(nodes) && cells == old(cells)
      ensures key !in old(nodes) && !callocNode ==> p == null && nodes == old(nodes) && cells == old(cells)
      ensures key !in old(nodes) && callocNode ==>
                p != null && fresh(p) && p.data == 0 && p.key == key && !p.walking
                && nodes == old(nodes)[key := p] && cells == old(cells) + {p}
      ensures Contents() == if key !in old(nodes) && callocNode then old(Contents())[key := 0] else old(Contents())
      ensures callocTab && old(nelem <= SD_HASH_FULLTAB * size + 1) ==> nelem <= SD_HASH_FULLTAB * size + 1
    {
      hide Stored, Indexed, AllLinked, Contents;
      NodesIn();
      p := Lookup(key);
      if p != null {
        return;
      }
      if !callocNode {
        return;
      }
      var node := new Iter(key, hash(key));
      if nelem > SD_HASH_FULLTAB * size {
        Rehash(callocTab);
      }
      Insert(node);
      p := node;
      NodesIn();
      MoreContents(node);
    }

    twostate lemma MoreContents(new p: Iter)
      requires cells == old(cells) + {p} && p !in old(cells) && nodes == old(nodes)[p.key := p] && p.data == 0
      requires forall x :: x in old(cells) ==> x.data == old(x.data)
      requires forall k :: k in old(nodes) ==> old(nodes)[k] in old(cells)
      ensures Contents() == old(Contents())[p.key := 0]
    {
    }

    /** `sd_hash_add`. */
    method Add(key: string, data: int, callocNode: bool, callocTab: bool) returns (p: Iter?)
      requires Valid()
      modifies this`tab, this`size, this`nelem, this`buckets, this`nodes, this`cells, tab, cells`next, cells`prev, cells`data
      ensures Valid() && (tab == old(tab) || fresh(tab)) && fresh(cells - old(cells)) && (old(Idle()) ==> Idle())
      ensures key in old(nodes) || callocNode ==>
                p != null && key in nodes && nodes[key] == p && Contents() == old(Contents())[key := data]
      ensures key !in old(nodes) && !callocNode ==> p == null && Contents() == old(Contents())
      ensures callocTab && old(nelem <= SD_HASH_FULLTAB * size + 1) ==> nelem <= SD_HASH_FULLTAB * size + 1
    {
      hide Stored, Indexed, AllLinked, Contents;
      NodesIn();
      p := LookAdd(key, callocNode, callocTab);
      if p != null {
        SetData(p, data);
      }
    }

    method SetData(p: Iter, data: int)
      requires Valid() && p in cells
      modifies p`data
      ensures Valid() && Contents() == old(Contents())[p.key := data] && p.data == data
    {
      hide Stored, Indexed, AllLinked;
      NodesIn();
      p.data := data;
    }

    // ---------- iterating ----------

    /** All nodes, bucket by bucket. */
    ghost function Order(): seq<Iter>
      reads this`buckets
    {
      Flat(buckets)
    }

    /** `sd_hash_begin`. */
    method Begin() returns (p: Iter?)
      requires Valid()
      ensures p == At(Order(), 0)
    {
      hide AllLinked, Stored, Flat, At, Linked;
      Heads();
      StoredIs();
      OffEnds(buckets);
      var h := 0;
      while h < size
        invariant h <= size && Off(buckets, h) == 0
      {
        OffStep(buckets, h);
        if tab[h] != null {
          FlatAt(buckets, h, 0);
          AtIs(Order(), 0);
          return tab[h];
        }
        h := h + 1;
      }
      AtIs(Order(), 0);
      return null;
    }

    /** `sd_hash_iter_next`: the node after `p`, which is the `k`-th. */
    method IterNext(p: Iter, ghost k: nat) returns (q: Iter?)
      requires Valid() && k < |Order()| && Order()[k] == p && p in cells
      ensures q == At(Order(), k + 1)
    {
      hide AllLinked, Stored, Flat, At, Linked, Indexed, AllIn, Reached, Spread, Off, HashIndex;
      Heads();
      StoredIs();
      OffEnds(buckets);
      var h := HashIndex(p.hkey, size);
      ghost var i := InBucket(p);
      FlatAt(buckets, h, i);
      FlatNoDup(buckets, size);
      assert k == Off(buckets, h) + i;
      OffStep(buckets, h);
      AtIs(Order(), k + 1);
      AtIs(buckets[h], i + 1);
      NextIs(h, i);
      if p.next != null {
        FlatAt(buckets, h, i + 1);
        return p.next;
      }
      var j := h + 1;
      while j < size
        invariant h < j <= size && Off(buckets, j) == k + 1
      {
        OffStep(buckets, j);
        if tab[j] != null {
          FlatAt(buckets, j, 0);
          return tab[j];
        }
        j := j + 1;
      }
      return null;
    }

    lemma Heads()
      requires Valid()
      ensures |buckets| == size == tab.Length
      ensures forall b :: 0 <= b < size ==> if buckets[b] == [] then tab[b] == null else tab[b] == buckets[b][0]
    {
    }

    lemma NextIs(h: nat, i: nat)
      requires Valid() && h < |buckets| && i < |buckets[h]|
      ensures buckets[h][i].next == At(buckets[h], i + 1)
    {
      assert Linked(tab[h], buckets[h]);
    }

    lemma PrevIs(h: nat, i: nat)
      requires Valid() && h < |buckets| && i < |buckets[h]|
      ensures buckets[h][i].prev == At(buckets[h], i - 1)
    {
      assert Linked(tab[h], buckets[h]);
    }

    /** The node at `k` is the first after those of bucket 0. */
    ghost predicate AfterFirstBucket(k: nat)
      requires k < |Order()|
      reads this`buckets, this`size
    {
      k > 0 && Slot(Order()[k - 1], size) == 0 && Slot(Order()[k], size) != 0
    }

    /** `sd_hash_iter_prev`: its loop ends before bucket 0, so it misses the way back into it and no other. */
    method IterPrev(p: Iter, ghost k: nat) returns (q: Iter?)
      requires Valid() && k < |Order()| && Order()[k] == p && p in cells
      ensures q == At(Order(), k - 1) <==> !AfterFirstBucket(k)
      ensures AfterFirstBucket(k) ==> q == null
    {
      hide AllLinked, Stored, Flat, At, Linked, Indexed, AllIn, Reached, Spread, Off, HashIndex, NoDup;
      Heads();
      StoredIs();
      var h: int := HashIndex(p.hkey, size);
      ghost var i: int := PlaceOf(p, k);
      AtIs(Order(), k - 1);
      AtIs(buckets[h], i - 1);
      PrevIs(h, i);
      if p.prev != null {
        FlatAt(buckets, h, i - 1);
        return p.prev;
      }
      var j: int := h - 1;
      while j > 0
        invariant -1 <= j < h && Off(buckets, j + 1) == k
      {
        OffStep(buckets, j);
        q := LastOf(j);
        AtIs(buckets[j], |buckets[j]| - 1);
        if q != null {
          FlatAt(buckets, j, |buckets[j]| - 1);
          return q;
        }
        j := j - 1;
      }
      FirstBucketEnds(k, h, j);
      return null;
    }

    /** Where the `k`-th node is. */
    lemma PlaceOf(p: Iter, k: nat) returns (i: nat)
      requires Stored() && k < |Order()| && Order()[k] == p && p in cells
      ensures Slot(p, size) == HashIndex(p.hkey, size) < |buckets| && i < |buckets[HashIndex(p.hkey, size)]|
      ensures buckets[HashIndex(p.hkey, size)][i] == p && k == Off(buckets, HashIndex(p.hkey, size)) + i
    {
      i := InBucket(p);
      StoredSizes();
      hide Stored, Flat, Spread, HashIndex;
      FlatAt(buckets, HashIndex(p.hkey, size), i);
      FlatNoDup(buckets, size);
    }

    lemma FirstBucketEnds(k: nat, h: nat, j: int)
      requires Stored() && h < size && -1 <= j <= 0 && j < h && Off(buckets, j + 1) == k
      requires k < |Order()| && Slot(Order()[k], size) == h
      ensures k > 0 <==> AfterFirstBucket(k)
    {
      StoredIs();
      hide Stored, Flat, Spread, Slot;
      OffEnds(buckets);
      if j == 0 {
        OffStep(buckets, 0);
        if k > 0 {
          FlatAt(buckets, 0, k - 1);
        }
      }
    }

    /** The inner loop of `sd_hash_iter_prev`: the last node of a bucket, or null. */
    method LastOf(j: nat) returns (p: Iter?)
      requires Valid() && j < size
      ensures j < |buckets| && p == At(buckets[j], |buckets[j]| - 1)
    {
      hide AllLinked, Stored, NoDup, Spread, At, Linked;
      Heads();
      ghost var s, i := buckets[j], 0;
      AtIs(s, 0);
      p := tab[j];
      while p != null
        invariant i <= |s| && p == At(s, i) && (s != [] ==> i < |s|)
        decreases |s| - i
      {
        AtIs(s, i);
        AtIs(s, i + 1);
        NextIs(j, i);
        if p.next == null {
          AtIs(s, |s| - 1);
          return;
        }
        p := p.next;
        i := i + 1;
      }
      AtIs(s, i);
      AtIs(s, |s| - 1);
    }

    lemma DataIs(key: string)
      requires Valid() && key in nodes
      ensures key in Contents() && Contents()[key] == nodes[key].data
    {
    }

    /** `sd_hash_iter_del` of the node that `sd_hash_lookup` finds; it does nothing with null. */
    method IterDelFound(key: string)
      requires Valid() && Idle()
      modifies this`nelem, this`buckets, this`nodes, this`cells, tab, cells`next, cells`prev, cells`data, cells`walking
      ensures Idle()
      ensures Valid() && cells <= old(cells) && nelem <= old(nelem)
      ensures Contents() == old(Contents()) - {key}
    {
      hide Valid, Contents;
      NodesIn();
      ContentsKeys();
      var p := Lookup(key);
      if p != null {
        IterDel(p);
      } else {
        assert Contents() - {key} == Contents();
      }
    }

    /** The data of the node of a key that has been looked up, or none. */
    method Found(key: string) returns (answer: Option<int>)
      requires Valid()
      ensures answer == if key in Contents() then Some(Contents()[key]) else None
    {
      hide Valid, Contents;
      ContentsKeys();
      var p := Lookup(key);
      if p == null {
        return None;
      }
      DataIs(key);
      return Some(p.data);
    }

    /** One call of a run. */
    method Do(op: Op) returns (answer: Option<int>)
      requires Valid() && Idle()
      modifies this`tab, this`size, this`nelem, this`buckets, this`nodes, this`cells, tab, cells
      ensures Idle()
      ensures Valid() && (tab == old(tab) || fresh(tab)) && fresh(cells - old(cells))
      ensures Contents() == Apply(old(Contents()), op) && answer == Answer(old(Contents()), op)
      ensures TableGrows(op) && old(nelem <= SD_HASH_FULLTAB * size + 1) ==> nelem <= SD_HASH_FULLTAB * size + 1
    {
      hide Valid, Contents;
      ContentsKeys();
      answer := None;
      match op
      case OpAdd(key, data, callocNode, callocTab) =>
        var p := Add(key, data, callocNode, callocTab);
        if p != null {
          DataIs(key);
          answer := Some(p.data);
        }
      case OpLookAdd(key, callocNode, callocTab) =>
        var p := LookAdd(key, callocNode, callocTab);
        if p != null {
          DataIs(key);
          answer := Some(p.data);
        }
      case OpLookup(key) => answer := Found(key);
      case OpDel(key) => Del(key);
      case OpIterDel(key) => IterDelFound(key);
    }

    /** Walking from `sd_hash_begin` by `sd_hash_iter_next` visits every node exactly once. */
    method IterateAll() returns (visited: seq<Iter>)
      requires Valid()
      ensures NoDup(visited) && forall x :: x in cells <==> x in visited
    {
      hide AllLinked, Flat, NoDup;
      visited := [];
      OrderIsCells();
      var p := Begin();
      while p != null
        invariant |visited| <= |Order()| && visited == Order()[..|visited|] && p == At(Order(), |visited|)
        decreases |Order()| - |visited|
      {
        assert p in Order();
        var q := IterNext(p, |visited|);
        visited := visited + [p];
        p := q;
      }
      assert visited == Order();
      OrderIsCells();
    }

    /** The callback of a walk, at the `k`-th node visited: it may delete the node it is called on. */
    method Callback(p: Iter, k: nat, deletes: (nat, string, int) -> bool, stops: (nat, string, int) -> bool)
      returns (ret: bool)
      requires Valid() && p in cells && p.walking
      modifies this`nelem, this`buckets, this`nodes, this`cells, tab, cells`next, cells`prev, p`data, p`walking
      ensures Valid() && buckets == old(buckets) && nodes == old(nodes) && cells == old(cells) && nelem == old(nelem)
      ensures ret == stops(k, p.key, old(p.data)) && p.walking == !deletes(k, p.key, old(p.data))
              && p.next == old(p.next)
      ensures Contents() == if deletes(k, p.key, old(p.data)) then old(Contents())[p.key := 0] else old(Contents())
    {
      ret := stops(k, p.key, p.data);
      if deletes(k, p.key, p.data) {
        IterDel(p);
      }
    }

    /** What the walk does with one node: the callback, and the deletion that was put off. */
    method Visit(p: Iter, k: nat, ghost h: nat, ghost i: nat, deletes: (nat, string, int) -> bool,
        stops: (nat, string, int) -> bool)
      returns (ret: bool, q: Iter?)
      requires Valid() && Idle() && h < |buckets| && i < |buckets[h]| && buckets[h][i] == p && p in cells
      modifies this`nelem, this`buckets, this`nodes, this`cells, tab, cells`next, cells`prev, p`data, p`walking
      ensures Valid() && Idle() && cells <= old(cells)
      ensures ret == stops(k, p.key, old(p.data)) && q == old(At(buckets[h], i + 1))
      ensures deletes(k, p.key, old(p.data)) ==>
                buckets == old(buckets[h := Without(buckets[h], i)]) && cells == old(cells) - {p}
                && Contents() == old(Contents()) - {p.key}
      ensures !deletes(k, p.key, old(p.data)) ==>
                buckets == old(buckets) && cells == old(cells) && Contents() == old(Contents())
    {
      hide Valid, Contents, Lost, Without, At;
      ghost var bs, m := buckets, Contents();
      NextIs(h, i);
      SpreadNow();
      p.walking := true;
      SameContents();
      ret := Callback(p, k, deletes, stops);
      q := p.next;
      if !p.walking {
        IterDel(p);
        LostAt(bs, buckets, p, |bs|, h, i);
        assert m[p.key := 0] - {p.key} == m - {p.key};
      } else {
        label marked:
        p.walking := false;
        SameContents@marked();
      }
    }

    lemma SpreadNow()
      requires Valid()
      ensures Spread(buckets, |buckets|)
    {
    }

    /** The keys and the data of the nodes in order. */
    ghost function Items(): (items: seq<(string, int)>)
      reads this`buckets, Order()
      ensures |items| == |Order()|
      ensures forall j :: 0 <= j < |items| ==> items[j] == (Order()[j].key, Order()[j].data)
    {
      var order := Order();
      seq(|order|, j requires 0 <= j < |order| reads order => (order[j].key, order[j].data))
    }

    /** The nodes that are still to be visited are as they were. */
    ghost predicate Untouched(all: seq<Iter>, items: seq<(string, int)>, k: nat)
      reads this`cells, all
    {
      |items| == |all| && forall j :: k <= j < |all| ==> all[j] in cells && items[j] == (all[j].key, all[j].data)
    }

    /** The inner loop of `sd_hash_foreach`. */
    method WalkBucket(h: nat, visited0: seq<(string, int)>, deletes: (nat, string, int) -> bool,
        stops: (nat, string, int) -> bool, ghost all: seq<Iter>, ghost items: seq<(string, int)>, ghost m: map<string, int>)
      returns (visited: seq<(string, int)>, stopped: bool)
      requires Valid() && Idle() && h < size && NoDup(all) && WalkAt(all, items, buckets, h, 0, visited0, deletes)
      requires Untouched(all, items, |visited0|) && NoStop(visited0, |visited0|, stops)
      requires Contents() == m - Deleted(visited0, deletes)
      modifies this`nelem, this`buckets, this`nodes, this`cells, tab, cells`next, cells`prev, cells`data, cells`walking
      ensures Valid() && Idle() && cells <= old(cells) && |buckets| == |old(buckets)|
      ensures WalkedTo(all, items, Order(), visited, deletes) && Contents() == m - Deleted(visited, deletes)
      ensures NoStop(visited, |visited| - 1, stops) && Untouched(all, items, |visited|)
      ensures if stopped then
                visited != [] && stops(|visited| - 1, visited[|visited| - 1].0, visited[|visited| - 1].1)
              else
                NoStop(visited, |visited|, stops) && Off(buckets, h + 1) == |Kept(all, visited, deletes)|
                && (h + 1 < size ==> WalkAt(all, items, buckets, h + 1, 0, visited, deletes))
    {
      hide Valid, Contents, WalkedTo, WalkAt, Kept, Deleted, Flat, Off, NoStop, NoDup, At;
      visited, stopped := visited0, false;
      WalkAtBucket(all, items, buckets, h, 0, visited, deletes);
      HeadIs(h);
      ghost var i := 0;
      var p := tab[h];
      while p != null
        invariant Valid() && Idle() && cells <= old(cells) && |buckets| == |old(buckets)|
        invariant WalkAt(all, items, buckets, h, i, visited, deletes) && h < |buckets| && p == At(buckets[h], i)
        invariant Untouched(all, items, |visited|) && NoStop(visited, |visited|, stops)
        invariant Contents() == m - Deleted(visited, deletes)
        decreases |all| - |visited|
      {
        WalkAtBucket(all, items, buckets, h, i, visited, deletes);
        AtIs(buckets[h], i);
        WalkOne(all, items, buckets, h, i, visited, deletes);
        ghost var k, item := |visited|, items[|visited|];
        KeptStep(all, visited, item, deletes);
        NoStopStep(visited, item, stops);
        var data := p.data;
        var ret, q := Visit(p, |visited|, h, i, deletes, stops);
        OthersDiffer(all, k);
        LessDeleted(m, Deleted(visited, deletes), p.key);
        visited := visited + [(p.key, data)];
        if ret {
          WalkAtBucket(all, items, buckets, h, if deletes(k, p.key, data) then i else i + 1, visited, deletes);
          return visited, true;
        }
        i := if deletes(k, p.key, data) then i else i + 1;
        p := q;
      }
      WalkAtBucket(all, items, buckets, h, i, visited, deletes);
      AtIs(buckets[h], i);
      WalkOn(all, items, buckets, h, visited, deletes);
      NoStopLess(visited, |visited|, stops);
    }

    lemma HeadIs(h: nat)
      requires Valid() && h < size
      ensures size == tab.Length == |buckets| && tab[h] == At(buckets[h], 0)
    {
    }

    lemma StartWalk(all: seq<Iter>, items: seq<(string, int)>, deletes: (nat, string, int) -> bool,
        stops: (nat, string, int) -> bool)
      requires Valid() && all == Order() && items == Items()
      ensures |buckets| == size > 0 && WalkAt(all, items, buckets, 0, 0, [], deletes) && Untouched(all, items, 0)
      ensures WalkedTo(all, items, Order(), [], deletes) && Off(buckets, 0) == |Kept(all, [], deletes)|
      ensures NoStop([], 0, stops) && Deleted([], deletes) == {}
    {
      OrderIsCells();
      WalkedNone(all, items, deletes);
      hide Flat, WalkedTo, Deleted, Kept, NoDup, AllLinked;
      OffEnds(buckets);
      forall j | 0 <= j < |all|
        ensures all[j] in cells
      {
        assert all[j] in Order();
      }
    }

    /** `sd_hash_foreach` with a callback that deletes some of the nodes it is called on and may stop the walk. */
    method Foreach(deletes: (nat, string, int) -> bool, stops: (nat, string, int) -> bool)
      returns (visited: seq<(string, int)>)
      requires Valid() && Idle()
      modifies this`nelem, this`buckets, this`nodes, this`cells, tab, cells`next, cells`prev, cells`data, cells`walking
      ensures Valid() && Idle() && WalkedTo(old(Order()), old(Items()), Order(), visited, deletes)
      ensures NoStop(visited, |visited| - 1, stops)
      ensures |visited| < |old(Order())| ==>
                visited != [] && stops(|visited| - 1, visited[|visited| - 1].0, visited[|visited| - 1].1)
      ensures Contents() == old(Contents()) - Deleted(visited, deletes)
    {
      hide Valid, Contents, WalkedTo, WalkAt, Kept, Deleted, Flat, Off, NoStop, NoDup;
      ghost var all, items, m := Order(), Items(), Contents();
      visited := [];
      NodesIn();
      OrderIsCells();
      StartWalk(all, items, deletes, stops);
      assert m - {} == m;
      var h := 0;
      while h < size
        invariant Valid() && Idle() && cells <= old(cells) && h <= size == |buckets|
        invariant WalkedTo(all, items, Order(), visited, deletes) && Contents() == m - Deleted(visited, deletes)
        invariant |visited| <= |all|
        invariant Off(buckets, h) == |Kept(all, visited, deletes)| && NoStop(visited, |visited|, stops)
        invariant h < size ==> WalkAt(all, items, buckets, h, 0, visited, deletes)
        invariant Untouched(all, items, |visited|)
      {
        var stopped;
        visited, stopped := WalkBucket(h, visited, deletes, stops, all, items, m);
        WalkedSizes(all, items, Order(), visited, deletes);
        if stopped {
          return;
        }
        h := h + 1;
      }
      WalkEnds(all, items, buckets, visited, deletes);
      NoStopLess(visited, |visited|, stops);
    }

    lemma OrderIsCells()
      requires Valid()
      ensures NoDup(Order()) && forall x :: x in cells <==> x in Order()
    {
      FlatNoDup(buckets, size);
      hide Flat, NoDup, AllLinked;
      forall x | x in Order()
        ensures x in cells
      {
        var b := FlatBucket(buckets, x);
        StoredIs();
      }
      forall x | x in cells
        ensures x in Order()
      {
        var i := InBucket(x);
        FlatAt(buckets, HashIndex(x.hkey, size), i);
      }
    }
  }

  // ---------- whole runs ----------

  function ApplyAll(m: map<string, int>, ops: seq<Op>): map<string, int> {
    if ops == [] then m else Apply(ApplyAll(m, ops[..|ops| - 1]), ops[|ops| - 1])
  }

  lemma EmptyRun(m: map<string, int>, ops: seq<Op>)
    ensures ApplyAll(m, ops[..0]) == m
  {
  }

  lemma ApplyAllStep(m: map<string, int>, ops: seq<Op>, k: nat)
    requires k < |ops|
    ensures ApplyAll(m, ops[..k + 1]) == Apply(ApplyAll(m, ops[..k]), ops[k])
  {
    assert ops[..k + 1][..k] == ops[..k];
  }

  /**
   * Any run on a new table refines the same run on a map, and keeps the table loaded at most twice its size plus one
   * while no table is refused.
   */
  method Replay(size: nat, hash: string -> nat, ops: seq<Op>) returns (h: Hash, answers: seq<Option<int>>)
    ensures h.Valid() && h.Contents() == ApplyAll(map[], ops) && |answers| == |ops|
    ensures forall i :: 0 <= i < |ops| ==> answers[i] == Answer(ApplyAll(map[], ops[..i]), ops[i])
    ensures h.nelem == |ApplyAll(map[], ops)|
    ensures (forall op :: op in ops ==> TableGrows(op)) ==> h.nelem <= SD_HASH_FULLTAB * h.size + 1
  {
    hide Apply, ApplyAll, Answer, TableGrows, Hash.Valid, Hash.Contents, Hash.Idle;
    h := new Hash(size, hash);
    answers := [];
    EmptyRun(map[], ops);
    while |answers| < |ops|
      invariant |answers| <= |ops| && h.Valid() && h.Idle() && fresh(h) && fresh(h.tab) && fresh(h.cells)
      invariant h.Contents() == ApplyAll(map[], ops[..|answers|])
      invariant forall i :: 0 <= i < |answers| ==> answers[i] == Answer(ApplyAll(map[], ops[..i]), ops[i])
      invariant (forall op :: op in ops ==> TableGrows(op)) ==> h.nelem <= SD_HASH_FULLTAB * h.size + 1
    {
      var k := |answers|;
      ApplyAllStep(map[], ops, k);
      var answer := h.Do(ops[k]);
      answers := answers + [answer];
    }
    assert ops[..|ops|] == ops;
    h.CountIs();
  }
}
