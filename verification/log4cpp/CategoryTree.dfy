/** log4cpp's categories: a tree by dotted names, with inherited priorities and appenders. */
module CategoryTree {
  const INFO := 600
  const NOTSET := 800

  /** Where events go; what it does with them is not modelled here. */
  class Appender {
    const name: string

    constructor (name: string)
      ensures this.name == name
    {
      this.name := name;
    }
  }

  /** `find_last_of('.')`, with -1 for `npos`. */
  function LastDot(name: string): (d: int)
    ensures -1 <= d < |name|
    ensures d >= 0 ==> name[d] == '.'
    ensures forall i :: d < i < |name| ==> name[i] != '.'
  {
    if name == "" then -1
    else if name[|name| - 1] == '.' then |name| - 1
    else LastDot(name[..|name| - 1])
  }

  function ParentName(name: string): string {
    if LastDot(name) < 0 then "" else name[..LastDot(name)]
  }

  /** The parent's name is what comes before the last dot, and nothing when there is none. */
  lemma ParentIsIff(name: string, parent: string)
    ensures parent == ParentName(name) <==>
              (parent == "" && '.' !in name) || exists last :: '.' !in last && name == parent + "." + last
  {
    var d := LastDot(name);
    if d >= 0 && parent == ParentName(name) {
      assert name == parent + "." + name[d + 1..];
    }
    forall last | '.' !in last && name == parent + "." + last
      ensures d == |parent| && parent == ParentName(name)
    {
      assert name[|parent|] == '.';
      assert forall i :: |parent| < i < |name| ==> name[i] == last[i - |parent| - 1];
    }
  }

  /** What a category holds. */
  datatype Entry = Entry(priority: int, additive: bool, appenders: set<Appender>)

  type Tree = map<string, Entry>

  predicate Closed(keys: set<string>) {
    forall n :: n in keys && n != "" ==> ParentName(n) in keys
  }

  /** Every parent is there, and the root has a priority. */
  predicate Rooted(t: Tree) {
    Closed(t.Keys) && ("" in t ==> t[""].priority < NOTSET)
  }

  /** A name and those of its ancestors, up to the root's. */
  function Ancestors(name: string): (s: seq<string>)
    ensures |s| > 0 && s[0] == name && s[|s| - 1] == ""
    decreases |name|
  {
    if name == "" then [""] else [name] + Ancestors(ParentName(name))
  }

  lemma {:induction false} AncestorsPresent(keys: set<string>, name: string)
    requires Closed(keys) && name in keys
    ensures forall i :: 0 <= i < |Ancestors(name)| ==> Ancestors(name)[i] in keys
    decreases |name|
  {
    if name != "" {
      AncestorsPresent(keys, ParentName(name));
    }
  }

  /** `_getInstance`: the category and those of its ancestors that are missing. */
  function Made(t: Tree, name: string): (r: Tree)
    ensures name in r && t.Keys <= r.Keys && forall n :: n in t ==> r[n] == t[n]
    ensures Rooted(t) ==> Rooted(r)
    decreases |name|
  {
    if name in t then t
    else if name == "" then t[name := Entry(INFO, true, {})]
    else Made(t, ParentName(name))[name := Entry(NOTSET, true, {})]
  }

  /** Exactly the name and its ancestors are added. */
  lemma {:induction false} MadeIs(t: Tree, name: string)
    requires Closed(t.Keys)
    ensures forall n :: n in Made(t, name) <==> n in t || n in Ancestors(name)
    ensures forall n :: n in Made(t, name) && n !in t ==>
                          Made(t, name)[n] == Entry(if n == "" then INFO else NOTSET, true, {})
    decreases |name|
  {
    if name in t {
      AncestorsPresent(t.Keys, name);
    } else if name != "" {
      MadeIs(t, ParentName(name));
    }
  }

  /** `setPriority`: refused for NOTSET on the root. */
  predicate MaySet(name: string, priority: int) {
    priority < NOTSET || name != ""
  }

  datatype Op =
    | GetInstance(name: string)
    | SetPriority(name: string, priority: int)
    | SetAdditivity(name: string, additive: bool)
    | AddAppender(name: string, appender: Appender?)
    | RemoveAppender(name: string, appender: Appender?)

  /** What an operation does to the category that it is called on. */
  function Change(e: Entry, op: Op): Entry {
    match op
    case GetInstance(_) => e
    case SetPriority(n, p) => if MaySet(n, p) then e.(priority := p) else e
    case SetAdditivity(_, b) => e.(additive := b)
    case AddAppender(_, a) => if a == null then e else e.(appenders := e.appenders + {a})
    case RemoveAppender(_, a) => e.(appenders := e.appenders - {a})
  }

  function Apply(t: Tree, op: Op): (r: Tree)
    ensures Rooted(t) ==> Rooted(r)
  {
    var m := Made(t, op.name);
    m[op.name := Change(m[op.name], op)]
  }

  function ApplyAll(ops: seq<Op>): (t: Tree)
    ensures Rooted(t)
  {
    if ops == [] then map[] else Apply(ApplyAll(ops[..|ops| - 1]), ops[|ops| - 1])
  }

  /** `getChainedPriority`. */
  function Chained(t: Tree, name: string): int
    requires Rooted(t) && name in t
    decreases |name|
  {
    if t[name].priority < NOTSET then t[name].priority else Chained(t, ParentName(name))
  }

  /** It is the priority of the nearest of the category and its ancestors that has one. */
  lemma {:induction false} ChainedIs(t: Tree, name: string) returns (k: nat)
    requires Rooted(t) && name in t
    ensures var s := Ancestors(name);
            k < |s| && s[k] in t && t[s[k]].priority == Chained(t, name) < NOTSET
            && forall i :: 0 <= i < k ==> s[i] in t && t[s[i]].priority >= NOTSET
    decreases |name|
  {
    if t[name].priority < NOTSET {
      k := 0;
    } else {
      var j := ChainedIs(t, ParentName(name));
      k := j + 1;
      assert Ancestors(name) == [name] + Ancestors(ParentName(name));
    }
  }

  /** A change in one category leaves the priority of all that are not below it. */
  lemma {:induction false} ChainedElsewhere(t: Tree, u: Tree, changed: string, name: string)
    requires Rooted(t) && Rooted(u) && name in t && t.Keys <= u.Keys && changed !in Ancestors(name)
    requires forall n :: n in t && n != changed ==> u[n] == t[n]
    ensures Chained(u, name) == Chained(t, name)
    decreases |name|
  {
    if t[name].priority >= NOTSET {
      ChainedElsewhere(t, u, changed, ParentName(name));
    }
  }

  lemma ApplyElsewhere(t: Tree, op: Op)
    requires Rooted(t)
    ensures Rooted(Apply(t, op)) && t.Keys <= Apply(t, op).Keys
    ensures forall n :: n in t && n != op.name ==> Apply(t, op)[n] == t[n]
  {
    hide Change;
  }

  /** An operation on one category leaves the inherited priority of every category that is not below it. */
  lemma SetPriorityReachesBelowOnly(t: Tree, op: Op, name: string)
    requires Rooted(t) && name in t && op.name !in Ancestors(name)
    ensures Chained(Apply(t, op), name) == Chained(t, name)
  {
    hide Change, Rooted, Made;
    ApplyElsewhere(t, op);
    ChainedElsewhere(t, Apply(t, op), op.name, name);
  }

  /** The categories whose appenders get an event: up to the first that is not additive. */
  function Reached(t: Tree, name: string): seq<string>
    requires Rooted(t) && name in t
    decreases |name|
  {
    [name] + if t[name].additive && name != "" then Reached(t, ParentName(name)) else []
  }

  lemma {:induction false} ReachedIs(t: Tree, name: string)
    requires Rooted(t) && name in t
    ensures var s, r := Ancestors(name), Reached(t, name);
            0 < |r| <= |s| && r == s[..|r|] && (forall i :: 0 <= i < |r| ==> r[i] in t)
            && (forall i :: 0 <= i < |r| - 1 ==> t[r[i]].additive)
            && (|r| < |s| ==> !t[r[|r| - 1]].additive)
    decreases |name|
  {
    hide ParentName;
    if t[name].additive && name != "" {
      ParentIn(t, name);
      ReachedIs(t, ParentName(name));
      ConsPrefix(name, Reached(t, ParentName(name)), Ancestors(ParentName(name)));
    }
  }

  lemma ParentIn(t: Tree, name: string)
    requires Rooted(t) && name in t && name != ""
    ensures ParentName(name) in t && |ParentName(name)| < |name|
  {
  }

  lemma ConsPrefix(name: string, r: seq<string>, s: seq<string>)
    requires |r| <= |s| && r == s[..|r|]
    ensures [name] + r == ([name] + s)[..|r| + 1]
  {
  }

  /** The calls of `doAppend`. */
  function Delivered(t: Tree, name: string): multiset<Appender>
    requires Rooted(t) && name in t
    decreases |name|
  {
    multiset(t[name].appenders) + if t[name].additive && name != "" then Delivered(t, ParentName(name)) else multiset{}
  }

  /** How many of the categories have the appender. */
  function Holders(t: Tree, names: seq<string>, a: Appender): nat
    requires forall i :: 0 <= i < |names| ==> names[i] in t
  {
    if names == [] then 0 else (if a in t[names[0]].appenders then 1 else 0) + Holders(t, names[1..], a)
  }

  /** An appender is called once for each category reached that has it. */
  lemma {:induction false} DeliveredIs(t: Tree, name: string, a: Appender)
    requires Rooted(t) && name in t
    ensures forall i :: 0 <= i < |Reached(t, name)| ==> Reached(t, name)[i] in t
    ensures Delivered(t, name)[a] == Holders(t, Reached(t, name), a)
    decreases |name|
  {
    ReachedIs(t, name);
    if t[name].additive && name != "" {
      DeliveredIs(t, ParentName(name), a);
      assert Reached(t, name)[1..] == Reached(t, ParentName(name));
    } else {
      assert Reached(t, name)[1..] == [];
    }
  }

  lemma AppliedAt(t: Tree, op: Op)
    requires Rooted(t)
    ensures var r := Apply(t, op);
            Rooted(r) && op.name in r && op.name in Made(t, op.name) && r[op.name] == Change(Made(t, op.name)[op.name], op)
    ensures op.name != "" ==> ParentName(op.name) in Apply(t, op)
  {
    hide Change;
    MadeIs(t, op.name);
  }

  /** A priority below NOTSET counts for the category it is set on; another one lets the parent's count, and the root refuses
      it. Nothing else is changed. */
  lemma SetThenInherited(t: Tree, name: string, priority: int)
    requires Rooted(t)
    ensures var m, r := Apply(t, GetInstance(name)), Apply(t, SetPriority(name, priority));
            Rooted(r) && name in m && name in r
            && (priority < 800 ==> Chained(r, name) == priority)
            && (priority >= 800 && name != "" ==> ParentName(name) in r && Chained(r, name) == Chained(r, ParentName(name)))
            && (priority >= 800 && name == "" ==> r[name] == m[name])
            && r[name].additive == m[name].additive && r[name].appenders == m[name].appenders
  {
    hide Rooted, Made, Apply;
    AppliedAt(t, GetInstance(name));
    AppliedAt(t, SetPriority(name, priority));
  }

  /** Without additivity an event stays in the category, with it the parent's appenders get it too. */
  lemma SetThenReached(t: Tree, name: string, additive: bool)
    requires Rooted(t)
    ensures var m, r := Apply(t, GetInstance(name)), Apply(t, SetAdditivity(name, additive));
            Rooted(r) && name in m && name in r
            && (additive && name != "" ==> ParentName(name) in r && Reached(r, name) == [name] + Reached(r, ParentName(name)))
            && (!additive || name == "" ==> Reached(r, name) == [name])
            && r[name].priority == m[name].priority && r[name].appenders == m[name].appenders
  {
    hide Rooted, Made, Apply;
    AppliedAt(t, GetInstance(name));
    AppliedAt(t, SetAdditivity(name, additive));
  }

  /** An appender that was added is there, one that was removed is not, and all others are as before. */
  lemma AppendersChange(t: Tree, name: string, a: Appender, x: Appender)
    requires Rooted(t)
    ensures var m, r, q := Apply(t, GetInstance(name)), Apply(t, AddAppender(name, a)), Apply(t, RemoveAppender(name, a));
            name in m && name in r && name in q
            && (x in r[name].appenders <==> x == a || x in m[name].appenders)
            && (x in q[name].appenders <==> x != a && x in m[name].appenders)
            && r[name].priority == q[name].priority == m[name].priority
            && r[name].additive == q[name].additive == m[name].additive
    ensures Apply(t, AddAppender(name, null)) == Apply(t, GetInstance(name))
  {
    hide Rooted, Made;
    AppliedAt(t, GetInstance(name));
    AppliedAt(t, AddAppender(name, a));
    AppliedAt(t, RemoveAppender(name, a));
  }

  /** The loop of `callAppenders` over the set, in an order of its own. */
  method CallEach(appenders: set<Appender>) returns (calls: multiset<Appender>)
    ensures calls == multiset(appenders)
  {
    calls := multiset{};
    var left := appenders;
    while left != {}
      invariant left <= appenders && calls == multiset(appenders - left)
    {
      var a :| a in left;
      left := left - {a};
      calls := calls + multiset{a};
    }
  }

  class Category {
    const name: string
    const parent: Category?
    var priority: int
    var isAdditive: bool
    var appender: set<Appender>

    constructor (name: string, parent: Category?, priority: int)
      ensures this.name == name && this.parent == parent && this.priority == priority && isAdditive && appender == {}
    {
      this.name, this.parent, this.priority, isAdditive, appender := name, parent, priority, true, {};
    }

    function Holds(): Entry
      reads this
    {
      Entry(priority, isAdditive, appender)
    }

    /** `setPriority`; false for the exception. */
    method SetPriority(priority: int) returns (ok: bool)
      modifies this
      ensures ok <==> priority < NOTSET || parent != null
      ensures Holds() == if ok then old(Holds()).(priority := priority) else old(Holds())
    {
      if priority < NOTSET || parent != null {
        this.priority := priority;
        return true;
      }
      return false;
    }

    method SetAdditivity(additivity: bool)
      modifies this
      ensures Holds() == old(Holds()).(additive := additivity)
    {
      isAdditive := additivity;
    }

    /** `addAppender`; false for the exception. */
    method AddAppender(a: Appender?) returns (ok: bool)
      modifies this
      ensures ok <==> a != null
      ensures Holds() == if ok then old(Holds()).(appenders := old(Holds()).appenders + {a}) else old(Holds())
    {
      if a == null {
        return false;
      }
      if a !in appender {
        appender := appender + {a};
      }
      return true;
    }

    method RemoveAppender(a: Appender?)
      modifies this
      ensures Holds() == old(Holds()).(appenders := old(Holds()).appenders - {a})
    {
      appender := appender - {a};
    }

    ghost predicate In(h: HierarchyMaintainer)
      reads h, h.categoryMap.Values
    {
      h.Valid() && name in h.categoryMap && h.categoryMap[name] == this
    }

    /** What the tree says of this category. */
    lemma Here(h: HierarchyMaintainer)
      requires In(h)
      ensures Rooted(h.State()) && name in h.State() && h.State()[name] == Holds()
      ensures parent == null <==> name == ""
      ensures parent == null ==> priority < NOTSET
      ensures parent != null ==> parent.In(h) && parent.name == ParentName(name) && |parent.name| < |name|
    {
    }

    /** `getChainedPriority`. */
    method GetChainedPriority(ghost h: HierarchyMaintainer) returns (p: int)
      requires In(h)
      ensures p == Chained(h.State(), name)
    {
      hide In, Rooted, HierarchyMaintainer.State, HierarchyMaintainer.Valid;
      Here(h);
      ghost var t := h.State();
      var c: Category := this;
      while c.priority >= NOTSET
        invariant c.In(h) && h.State() == t && Rooted(t) && c.name in t && name in t
        invariant Chained(t, c.name) == Chained(t, name)
        decreases |c.name|
      {
        c.Here(h);
        c := c.parent;
        c.Here(h);
      }
      c.Here(h);
      return c.priority;
    }

    /** `callAppenders`. */
    method CallAppenders(ghost h: HierarchyMaintainer) returns (calls: multiset<Appender>)
      requires In(h)
      ensures calls == Delivered(h.State(), name)
      decreases |name|
    {
      hide In, Rooted, HierarchyMaintainer.State, HierarchyMaintainer.Valid;
      Here(h);
      calls := CallEach(appender);
      if isAdditive && parent != null {
        var more := parent.CallAppenders(h);
        calls := calls + more;
      }
    }

    /** `log`: the calls it makes. */
    method Log(priority: int, ghost h: HierarchyMaintainer) returns (calls: multiset<Appender>)
      requires In(h)
      ensures calls == if Chained(h.State(), name) >= priority then Delivered(h.State(), name) else multiset{}
    {
      hide In, Rooted, HierarchyMaintainer.State, HierarchyMaintainer.Valid;
      Here(h);
      var chained := GetChainedPriority(h);
      if chained >= priority {
        calls := CallAppenders(h);
      } else {
        calls := multiset{};
      }
    }
  }

  ghost function TreeOf(m: map<string, Category>): Tree
    reads m.Values
  {
    map n | n in m :: m[n].Holds()
  }

  /** Every category knows its name and has the category of its parent's name as its parent. */
  predicate Linked(m: map<string, Category>) {
    Closed(m.Keys)
    && forall n :: n in m ==> m[n].name == n && m[n].parent == if n == "" then null else m[ParentName(n)]
  }

  lemma LinkedGrows(m: map<string, Category>, name: string, c: Category)
    requires Linked(m) && name !in m && c.name == name
    requires if name == "" then c.parent == null else ParentName(name) in m && c.parent == m[ParentName(name)]
    ensures Linked(m[name := c])
  {
    var g := m[name := c];
    forall n | n in g
      ensures g[n].name == n && (n != "" ==> ParentName(n) in g) && g[n].parent == if n == "" then null else g[ParentName(n)]
    {
      if n != name && n != "" {
        assert ParentName(n) in m && ParentName(n) != name;
      } else if name != "" {
        assert |ParentName(name)| < |name|;
      }
    }
  }

  lemma TreeGrows(m: map<string, Category>, name: string, c: Category)
    ensures TreeOf(m[name := c]) == TreeOf(m)[name := c.Holds()]
  {
  }

  lemma TreeKeys(m: map<string, Category>)
    ensures TreeOf(m).Keys == m.Keys
  {
  }

  class HierarchyMaintainer {
    var categoryMap: map<string, Category>

    /** The tree that the categories make. */
    ghost function State(): Tree
      reads this, categoryMap.Values
    {
      TreeOf(categoryMap)
    }

    ghost predicate Valid()
      reads this, categoryMap.Values
    {
      Linked(categoryMap) && Rooted(State())
    }

    constructor ()
      ensures Valid() && State() == map[] && categoryMap == map[]
    {
      categoryMap := map[];
    }

    /** `_getExistingInstance`. */
    method GetExistingInstance(name: string) returns (c: Category?)
      ensures c == if name in categoryMap then categoryMap[name] else null
    {
      if name in categoryMap {
        return categoryMap[name];
      }
      return null;
    }

    /** `_getInstance`. */
    method GetInstance(name: string) returns (result: Category)
      requires Valid()
      modifies this
      ensures Valid() && name in categoryMap && categoryMap[name] == result
      ensures State() == Made(old(State()), name)
      ensures forall n :: n in old(categoryMap) ==> n in categoryMap && categoryMap[n] == old(categoryMap)[n]
      ensures forall n :: n in categoryMap && n !in old(categoryMap) ==> fresh(categoryMap[n])
      decreases |name|
    {
      hide Linked, Rooted, TreeOf;
      var found := GetExistingInstance(name);
      TreeKeys(categoryMap);
      if found != null {
        return found;
      }
      ghost var t := State();
      if name == "" {
        result := new Category(name, null, INFO);
      } else {
        var dotIndex := LastDot(name);
        var parentName := if dotIndex < 0 then "" else name[..dotIndex];
        var parent := GetInstance(parentName);
        MadeUpTo(t, parentName);
        TreeKeys(categoryMap);
        result := new Category(name, parent, NOTSET);
      }
      LinkedGrows(categoryMap, name, result);
      TreeGrows(categoryMap, name, result);
      MadeRooted(t, name);
      categoryMap := categoryMap[name := result];
    }

    /** `getInstance` and one call on what it returns. */
    method Do(op: Op)
      requires Valid()
      modifies this, categoryMap.Values
      ensures Valid() && State() == Apply(old(State()), op)
      ensures fresh(categoryMap.Values - old(categoryMap.Values))
    {
      hide Rooted, TreeOf, Made, Linked;
      ghost var before := State();
      var c := GetInstance(op.name);
      ghost var t, m := State(), categoryMap;
      ApplyRooted(before, op);
      TreeEntries(m);
      NamesAre(m, op.name);
      match op {
        case GetInstance(_) =>
        case SetPriority(_, p) =>
          var _ := c.SetPriority(p);
        case SetAdditivity(_, b) =>
          c.SetAdditivity(b);
        case AddAppender(_, a) =>
          var _ := c.AddAppender(a);
        case RemoveAppender(_, a) =>
          c.RemoveAppender(a);
      }
      TreeChanges(m, t, op.name, c.Holds());
    }
  }

  lemma ApplyRooted(t: Tree, op: Op)
    requires Rooted(t)
    ensures Rooted(Apply(t, op))
  {
  }

  lemma TreeEntries(m: map<string, Category>)
    ensures TreeOf(m).Keys == m.Keys && forall n :: n in m ==> TreeOf(m)[n] == m[n].Holds()
  {
  }

  lemma NamesAre(m: map<string, Category>, name: string)
    requires Linked(m) && name in m
    ensures m[name].parent == null <==> name == ""
    ensures forall n :: n in m ==> m[n].name == n
  {
  }

  lemma TreeChanges(m: map<string, Category>, t: Tree, name: string, e: Entry)
    requires t.Keys == m.Keys && name in m
    requires forall n :: n in m ==> m[n].Holds() == if n == name then e else t[n]
    ensures TreeOf(m) == t[name := e]
  {
  }

  /** Any run of operations gives the tree of its specification. */
  method Replay(ops: seq<Op>) returns (h: HierarchyMaintainer)
    ensures fresh(h) && h.Valid() && h.State() == ApplyAll(ops)
  {
    hide HierarchyMaintainer.Valid, HierarchyMaintainer.State, Apply;
    h := new HierarchyMaintainer();
    var i := 0;
    while i < |ops|
      invariant i <= |ops| && fresh(h) && fresh(h.categoryMap.Values)
      invariant h.Valid() && h.State() == ApplyAll(ops[..i])
    {
      assert ops[..i + 1][..i] == ops[..i];
      h.Do(ops[i]);
      i := i + 1;
    }
    assert ops[..|ops|] == ops;
  }

  /** No name longer than the one asked for is made. */
  lemma {:induction false} MadeUpTo(t: Tree, name: string)
    ensures forall n :: n in Made(t, name) && |n| > |name| ==> n in t
    decreases |name|
  {
    if name !in t && name != "" {
      MadeUpTo(t, ParentName(name));
    }
  }

  lemma MadeRooted(t: Tree, name: string)
    requires Rooted(t)
    ensures Rooted(Made(t, name))
  {
  }
}
