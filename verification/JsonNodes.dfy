/** cJSON trees as linked nodes, and `cJSON_Duplicate` on them. */
module JsonNodes {
  import opened Bytes
  import opened Json

  datatype Kind = InvalidKind | NullKind | FalseKind | TrueKind | NumberKind | StringKind | ArrayKind | ObjectKind

  /** `struct cJSON`: `text` is the string or the number, `name` the key in an object, if it is `named`. */
  class Node {
    var kind: Kind
    var text: Bytes
    var named: bool
    var name: Bytes
    var child: Node?
    var next: Node?
    var prev: Node?

    constructor (kind: Kind, text: Bytes, named: bool, name: Bytes)
      ensures this.kind == kind && this.text == text && this.named == named && this.name == name
      ensures child == null && next == null && prev == null
    {
      this.kind, this.text, this.named, this.name := kind, text, named, name;
      child, next, prev := null, null, null;
    }
  }

  /** The nodes of a tree with what they hold. */
  datatype Tree = Tree(node: Node, kind: Kind, text: Bytes, named: bool, name: Bytes, kids: seq<Tree>)

  /** The nodes of the trees in `kids`. */
  ghost function Nodes(kids: seq<Tree>): set<Node>
    decreases kids
  {
    if kids == [] then {} else {kids[0].node} + Nodes(kids[0].kids) + Nodes(kids[1..])
  }

  /** All nodes of a tree. */
  ghost function Footprint(t: Tree): set<Node> {
    {t.node} + Nodes(t.kids)
  }

  lemma {:induction false} NodesHave(kids: seq<Tree>, i: nat)
    requires i < |kids|
    ensures Footprint(kids[i]) <= Nodes(kids)
    decreases i
  {
    if i > 0 {
      NodesHave(kids[1..], i - 1);
    }
  }

  lemma {:induction false} NodesSnoc(kids: seq<Tree>, t: Tree)
    ensures Nodes(kids + [t]) == Nodes(kids) + Footprint(t)
    decreases |kids|
  {
    if kids == [] {
      assert kids + [t] == [t] && [t][1..] == [];
    } else {
      assert (kids + [t])[0] == kids[0] && (kids + [t])[1..] == kids[1..] + [t];
      NodesSnoc(kids[1..], t);
    }
  }

  ghost function NodeAt(kids: seq<Tree>, i: nat): Node? {
    if i < |kids| then kids[i].node else null
  }

  /** The node holds what the tree says, its key is a C string, and its children are chained in order, all the way
      down. */
  ghost predicate Holds(t: Tree)
    reads t.node`kind, t.node`text, t.node`named, t.node`name, t.node`child, Nodes(t.kids)
    decreases t
  {
    && t.node.kind == t.kind && t.node.text == t.text && t.node.named == t.named && t.node.name == t.name
    && NulFree(t.name)
    && t.node.child == NodeAt(t.kids, 0)
    && forall i :: 0 <= i < |t.kids| ==> ChildHolds(t.kids, i)
  }

  ghost predicate ChildHolds(kids: seq<Tree>, i: nat)
    requires i < |kids|
    reads Nodes(kids)
    decreases kids
  {
    NodesHave(kids, i);
    && Holds(kids[i]) && kids[i].node.next == NodeAt(kids, i + 1)
    && (i > 0 ==> kids[i].node.prev == (NodesHave(kids, i - 1); kids[i - 1].node))
  }

  /** The value the nodes stand for, if no node is of an invalid type. */
  function ToValue(t: Tree): Value
    decreases t
  {
    match t.kind
    case InvalidKind => Null
    case NullKind => Null
    case FalseKind => False
    case TrueKind => True
    case NumberKind => Number(t.text)
    case StringKind => String(t.text)
    case ArrayKind => Array(ToItems(t.kids))
    case ObjectKind => Object(ToMembers(t.kids))
  }

  function ToItems(kids: seq<Tree>): Items
    decreases kids
  {
    if kids == [] then NoItem else Item(ToValue(kids[0]), ToItems(kids[1..]))
  }

  function ToMembers(kids: seq<Tree>): Members
    decreases kids
  {
    if kids == [] then NoMember else Member(kids[0].name, ToValue(kids[0]), ToMembers(kids[1..]))
  }

  /** The children `copies` are linked one behind the other, each whole, and share no nodes. */
  ghost predicate Linked(copies: seq<Tree>)
    reads Nodes(copies)
  {
    && (forall i :: 0 <= i < |copies| ==> ChildHolds(copies, i))
    && (forall i, j :: 0 <= i < |copies| && 0 <= j < |copies| && i != j ==> copies[i].node !in Footprint(copies[j]))
    && (forall i :: 0 <= i < |copies| ==> copies[i].node !in Nodes(copies[i].kids))
  }

  /** The trees hold the same, node by node. */
  ghost predicate Alike(a: Tree, b: Tree)
    decreases a
  {
    && a.kind == b.kind && a.text == b.text && a.named == b.named && a.name == b.name && |a.kids| == |b.kids|
    && forall i :: 0 <= i < |a.kids| ==> Alike(a.kids[i], b.kids[i])
  }

  /** Alike trees stand for the same value. */
  lemma {:induction false} AlikeSameValue(a: Tree, b: Tree)
    requires Alike(a, b)
    ensures ToValue(a) == ToValue(b)
    decreases a, 1
  {
    hide ToItems, ToMembers;
    AlikeSameKids(a.kids, b.kids);
  }

  lemma {:induction false} AlikeSameKids(x: seq<Tree>, y: seq<Tree>)
    requires |x| == |y| && forall i :: 0 <= i < |x| ==> Alike(x[i], y[i])
    ensures ToItems(x) == ToItems(y) && ToMembers(x) == ToMembers(y)
    decreases x, 0
  {
    hide ToValue;
    if x != [] {
      AlikeSameValue(x[0], y[0]);
      assert forall i :: 0 <= i < |x| - 1 ==> x[1..][i] == x[i + 1] && y[1..][i] == y[i + 1];
      AlikeSameKids(x[1..], y[1..]);
    }
  }

  ghost predicate SameKids(kids: seq<Tree>, copies: seq<Tree>) {
    |copies| <= |kids| && forall i :: 0 <= i < |copies| ==> Alike(kids[i], copies[i])
  }

  /** No node occurs twice in the trees. */
  ghost predicate Disjoint(kids: seq<Tree>)
    decreases kids
  {
    kids != [] ==>
      && kids[0].node !in Nodes(kids[0].kids) && Footprint(kids[0]) !! Nodes(kids[1..])
      && Disjoint(kids[0].kids) && Disjoint(kids[1..])
  }

  lemma {:induction false} DisjointSnoc(kids: seq<Tree>, t: Tree)
    requires Disjoint(kids) && Disjoint(t.kids) && t.node !in Nodes(t.kids) && Footprint(t) !! Nodes(kids)
    ensures Disjoint(kids + [t])
    decreases |kids|
  {
    if kids == [] {
      assert kids + [t] == [t] && [t][1..] == [];
    } else {
      assert (kids + [t])[0] == kids[0] && (kids + [t])[1..] == kids[1..] + [t];
      NodesSnoc(kids[1..], t);
      DisjointSnoc(kids[1..], t);
    }
  }

  /** Whether the next `n` requests are granted; a plan that is used up grants all. */
  predicate Granted(plan: seq<bool>, n: nat) {
    forall i :: 0 <= i < n && i < |plan| ==> plan[i]
  }

  function Left(plan: seq<bool>, n: nat): seq<bool> {
    if n <= |plan| then plan[n..] else []
  }

  lemma GrantedBoth(plan: seq<bool>, m: nat, n: nat)
    ensures Granted(plan, m + n) <==> Granted(plan, m) && Granted(Left(plan, m), n)
    ensures Left(Left(plan, m), n) == Left(plan, m + n)
  {
    if Granted(plan, m) && Granted(Left(plan, m), n) {
      forall i | 0 <= i < m + n && i < |plan| ensures plan[i] {
        if i >= m {
          assert plan[i] == Left(plan, m)[i - m];
        }
      }
    }
    if Granted(plan, m + n) {
      forall i | 0 <= i < n && i < |Left(plan, m)| ensures Left(plan, m)[i] {
        assert Left(plan, m)[i] == plan[m + i];
      }
    }
  }

  /** The allocator: which requests it is going to grant, and the nodes that are allocated. */
  class Heap {
    var plan: seq<bool>
    ghost var live: set<Node>

    method Request() returns (ok: bool)
      modifies this`plan
      ensures ok == Granted(old(plan), 1) && plan == Left(old(plan), 1)
    {
      ok := true;
      if plan != [] {
        ok, plan := plan[0], plan[1..];
      }
    }

    /** `deallocate` of a node that is allocated. */
    ghost method Free(node: Node)
      requires node in live
      modifies this`live
      ensures live == old(live) - {node}
    {
      live := live - {node};
    }
  }

  /** `cJSON_Delete`: every node of the chain and below it is freed once. */
  method Delete(heap: Heap, first: Node?, ghost chain: seq<Tree>, ghost foot: set<Node>)
    requires first == NodeAt(chain, 0) && foot == Nodes(chain) && Disjoint(chain) && foot <= heap.live
    requires forall i :: 0 <= i < |chain| ==> ChildHolds(chain, i)
    modifies heap`live
    ensures heap.live == old(heap.live) - foot
    decreases chain
  {
    hide Holds, Nodes, Disjoint;
    ghost var base := heap.live - foot;
    var item := first;
    ghost var i := 0;
    assert chain[0..] == chain;
    while item != null
      invariant i <= |chain| && item == NodeAt(chain, i) && forall i :: 0 <= i < |chain| ==> ChildHolds(chain, i)
      invariant heap.live == base + Nodes(chain[i..]) && Nodes(chain[i..]) <= foot && Disjoint(chain[i..])
      decreases |chain| - i
    {
      ghost var t := chain[i];
      DisjointStep(chain, i);
      assert ChildHolds(chain, i);
      var next := item.next;
      KidsOf(t);
      FirstChild(t);
      if item.child != null {
        Delete(heap, item.child, t.kids, set n | n in foot && n in Nodes(t.kids));
      } else {
        NoKids(t);
      }
      heap.Free(item);
      item, i := next, i + 1;
    }
    assert chain[i..] == [];
    NoTrees();
  }

  lemma DisjointStep(chain: seq<Tree>, i: nat)
    requires i < |chain| && Disjoint(chain[i..])
    ensures var t := chain[i];
            && t.node !in Nodes(t.kids) && Footprint(t) !! Nodes(chain[i + 1..]) && Disjoint(t.kids)
            && Disjoint(chain[i + 1..])
            && Nodes(chain[i..]) == Footprint(t) + Nodes(chain[i + 1..])
  {
    assert chain[i..][0] == chain[i] && chain[i..][1..] == chain[i + 1..];
  }

  lemma KidsOf(t: Tree)
    requires Holds(t)
    ensures forall i :: 0 <= i < |t.kids| ==> ChildHolds(t.kids, i)
  {
  }

  lemma NoKids(t: Tree)
    requires Holds(t) && t.node.child == null
    ensures t.kids == [] && Nodes(t.kids) == {}
  {
  }

  /** How many requests the copy of a node makes: for the node, its string and its key. */
  ghost function Own(t: Tree): nat {
    1 + (if t.kind == StringKind then 1 else 0) + (if t.named then 1 else 0)
  }

  /** How many the copy of a tree makes. */
  ghost function Requests(t: Tree): nat
    decreases t
  {
    Own(t) + KidsRequests(t.kids)
  }

  ghost function KidsRequests(kids: seq<Tree>): nat
    decreases kids
  {
    if kids == [] then 0 else KidsRequests(kids[..|kids| - 1]) + Requests(kids[|kids| - 1])
  }

  /** The first part of `cJSON_Duplicate`: a node with copies of the strings, or nothing. */
  method NewNode(heap: Heap, item: Node, ghost t: Tree) returns (newitem: Node?)
    requires t.node == item && Holds(t)
    modifies heap
    ensures newitem != null <==> Granted(old(heap.plan), Own(t))
    ensures Own(t) == 1 + (if t.kind == StringKind then 1 else 0) + (if t.named then 1 else 0)
    ensures newitem == null ==> heap.live == old(heap.live)
    ensures newitem != null ==>
            && fresh(newitem) && heap.live == old(heap.live) + {newitem} && heap.plan == Left(old(heap.plan), Own(t))
            && newitem.kind == t.kind && newitem.text == t.text && newitem.named == t.named && newitem.name == t.name
            && newitem.child == null && newitem.next == null && newitem.prev == null
  {
    hide Granted, Left, Holds, NulFree;
    ghost var plan := heap.plan;
    KindsHold(t);
    var kind, text, named, name := item.kind, item.text, item.named, item.name;
    GrantedBoth(plan, 1, 1);
    GrantedBoth(plan, 2, 1);
    var ok := heap.Request();
    if !ok {
      GrantedBoth(plan, 1, Own(t) - 1);
      return null;
    }
    var node := new Node(kind, text, named, name);
    heap.live := heap.live + {node};
    if kind == StringKind {
      ok := heap.Request();
    }
    if ok && named {
      ok := heap.Request();
    }
    if !ok {
      GrantedBoth(plan, 2, Own(t) - 2);
      heap.Free(node);
      return null;
    }
    newitem := node;
  }

  /** `cJSON_Duplicate`: a tree of new nodes that stands for the same value, if all its requests are granted;
      otherwise nothing, and every node allocated on the way has been freed. */
  method Duplicate(heap: Heap, item: Node, recurse: bool, ghost t: Tree, ghost foot: set<Node>)
    returns (newitem: Node?, ghost t': Tree, ghost foot': set<Node>)
    requires t.node == item && Holds(t) && foot == Footprint(t)
    modifies heap
    ensures newitem != null <==> Granted(old(heap.plan), if recurse then Requests(t) else Own(t))
    ensures newitem == null ==> heap.live == old(heap.live)
    ensures newitem != null ==>
            && foot' == Footprint(t') && fresh(foot') && heap.live == old(heap.live) + foot'
            && heap.plan == Left(old(heap.plan), if recurse then Requests(t) else Own(t))
            && t'.node == newitem && Holds(t') && newitem !in Nodes(t'.kids) && Disjoint(t'.kids)
            && newitem.next == null
            && t'.kind == t.kind && t'.text == t.text && t'.named == t.named && t'.name == t.name
            && (if recurse then Alike(t, t') && ToValue(t') == ToValue(t) else t'.kids == [])
    decreases t, 2
  {
    hide Granted, Left, Disjoint, KidsRequests, Own, NulFree, ToValue, Holds, Alike, Nodes, Linked, SameKids;
    KindsHold(t);
    RequestsOf(t);
    ghost var plan := heap.plan;
    t', foot' := t, {};
    NoTrees();
    LinkedNothing([]);
    newitem := NewNode(heap, item, t);
    if newitem == null {
      GrantedBoth(plan, Own(t), KidsRequests(t.kids));
      return;
    }
    t', foot' := Tree(newitem, t.kind, t.text, t.named, t.name, []), {newitem};
    if !recurse {
      ParentHolds(t');
      return;
    }
    var ok;
    ghost var copies, used;
    ok, copies, used := DuplicateChildren(heap, item, newitem, t, foot);
    GrantedBoth(plan, Own(t), KidsRequests(t.kids));
    t', foot' := Tree(newitem, t.kind, t.text, t.named, t.name, copies), {newitem} + used;
    ParentHolds(t');
    if !ok {
      DeleteOne(heap, newitem, t', foot');
      newitem := null;
      return;
    }
    ParentAlike(t, t');
    AlikeSameValue(t, t');
  }

  lemma ParentHolds(t: Tree)
    requires t.node.kind == t.kind && t.node.text == t.text && t.node.named == t.named && t.node.name == t.name
    requires NulFree(t.name)
    requires t.node.child == NodeAt(t.kids, 0) && Linked(t.kids)
    ensures Holds(t)
  {
  }

  lemma ParentAlike(a: Tree, b: Tree)
    requires a.kind == b.kind && a.text == b.text && a.named == b.named && a.name == b.name && |a.kids| == |b.kids|
    requires SameKids(a.kids, b.kids)
    ensures Alike(a, b)
  {
  }

  lemma RequestsOf(t: Tree)
    ensures Requests(t) == Own(t) + KidsRequests(t.kids)
  {
  }

  lemma NoTrees()
    ensures Nodes([]) == {} && Disjoint([])
  {
  }

  /** A single tree is deleted. */
  method DeleteOne(heap: Heap, item: Node, ghost t: Tree, ghost foot: set<Node>)
    requires t.node == item && item.next == null && Holds(t) && foot == Footprint(t) && foot <= heap.live
    requires item !in Nodes(t.kids) && Disjoint(t.kids)
    modifies heap`live
    ensures heap.live == old(heap.live) - foot
  {
    hide Holds;
    OneKid(t);
    assert [t][1..] == [];
    assert ChildHolds([t], 0);
    Delete(heap, item, [t], foot);
  }

  /** A new child is linked behind the last one. */
  method AppendKid(next: Node, newchild: Node, ghost copies: seq<Tree>, ghost ct: Tree)
    requires Linked(copies) && copies != [] && next == copies[|copies| - 1].node
    requires Holds(ct) && ct.node == newchild && newchild.next == null && newchild !in Nodes(ct.kids)
    requires Footprint(ct) !! Nodes(copies)
    modifies next`next, newchild`prev
    ensures Linked(copies + [ct])
  {
    hide Nodes, Holds;
    ghost var n, copies' := |copies|, copies + [ct];
    Separate(copies, ct);
    NodesHave(copies, n - 1);
    assert next in Nodes(copies) && next !in Footprint(ct);
    label before:
    next.next := newchild;
    newchild.prev := next;
    forall i | 0 <= i < n + 1 ensures ChildHolds(copies', i) {
      if i < n {
        assert old@before(ChildHolds(copies, i));
        assert old@before(Holds(copies[i]));
        NodesHave(copies, i);
        assert next !in Nodes(copies[i].kids) && newchild !in Footprint(copies[i]);
        assert Holds(copies[i]);
      } else {
        assert Holds(ct);
      }
    }
  }

  /** Appending a tree that shares no nodes keeps the children apart. */
  lemma Separate(copies: seq<Tree>, ct: Tree)
    requires Footprint(ct) !! Nodes(copies) && ct.node !in Nodes(ct.kids)
    requires forall i, j :: 0 <= i < |copies| && 0 <= j < |copies| && i != j ==> copies[i].node !in Footprint(copies[j])
    requires forall i :: 0 <= i < |copies| ==> copies[i].node !in Nodes(copies[i].kids)
    ensures var copies' := copies + [ct];
            && (forall i, j :: 0 <= i < |copies'| && 0 <= j < |copies'| && i != j ==>
                 copies'[i].node !in Footprint(copies'[j]))
            && (forall i :: 0 <= i < |copies'| ==> copies'[i].node !in Nodes(copies'[i].kids))
    ensures Nodes(copies + [ct]) == Nodes(copies) + Footprint(ct)
  {
    NodesSnoc(copies, ct);
    forall i | 0 <= i < |copies| ensures copies[i].node !in Footprint(ct) && ct.node !in Footprint(copies[i]) {
      NodesHave(copies, i);
    }
  }

  lemma OneKid(ct: Tree)
    requires ct.node !in Nodes(ct.kids)
    ensures Nodes([ct]) == Footprint(ct)
  {
    assert [ct][1..] == [];
  }

  /** The walk along the chain of children, up to the first copy that fails. */
  method DuplicateChildren(heap: Heap, item: Node, newitem: Node, ghost t: Tree, ghost foot: set<Node>)
    returns (ok: bool, ghost copies: seq<Tree>, ghost used: set<Node>)
    requires t.node == item && Holds(t) && foot == Footprint(t) && newitem.child == null && newitem !in foot
    modifies heap, newitem`child
    ensures ok <==> Granted(old(heap.plan), KidsRequests(t.kids))
    ensures ok ==> |copies| == |t.kids| && heap.plan == Left(old(heap.plan), KidsRequests(t.kids))
    ensures SameKids(t.kids, copies) && used == Nodes(copies) && fresh(used) && newitem.child == NodeAt(copies, 0)
    ensures Linked(copies) && Disjoint(copies) && heap.live == old(heap.live) + used
    decreases t, 1
  {
    hide Alike, Nodes, Holds, ChildHolds, Linked, SameKids, Disjoint, Granted, Left, KidsRequests, Requests;
    ghost var plan := heap.plan;
    FirstChild(t);
    LinkedNothing(t.kids);
    NoTrees();
    PlanStarts(plan);
    assert t.kids[..0] == [];
    var child, next: Node? := item.child, null;
    copies, used := [], {};
    while child != null
      invariant |copies| <= |t.kids| && child == NodeAt(t.kids, |copies|) && Holds(t)
      invariant used == Nodes(copies) && fresh(used) && Linked(copies) && SameKids(t.kids, copies) && Disjoint(copies)
      invariant newitem.child == NodeAt(copies, 0) && next == if copies == [] then null else copies[|copies| - 1].node
      invariant heap.live == old(heap.live) + used
      invariant Granted(plan, KidsRequests(t.kids[..|copies|]))
      invariant heap.plan == Left(plan, KidsRequests(t.kids[..|copies|]))
      decreases |t.kids| - |copies|
    {
      ghost var k := |copies|;
      PlanStep(plan, t.kids, k);
      var newchild, ct, more := DuplicateOne(heap, child, t, foot, k);
      if newchild == null {
        return false, copies, used;
      }
      Adopt(newitem, next, newchild, copies, ct);
      DisjointSnoc(copies, ct);
      NodesSnoc(copies, ct);
      NextChild(t, k);
      OneMoreSame(t.kids, copies, ct);
      next, used, copies := newchild, used + more, copies + [ct];
      child := child.next;
    }
    ok := true;
    assert t.kids[..|copies|] == t.kids;
  }

  /** The new child becomes the first or is linked behind the last one. */
  method Adopt(newitem: Node, next: Node?, newchild: Node, ghost copies: seq<Tree>, ghost ct: Tree)
    requires Linked(copies) && next == (if copies == [] then null else copies[|copies| - 1].node)
    requires Holds(ct) && ct.node == newchild && newchild.next == null && newchild !in Nodes(ct.kids)
    requires Footprint(ct) !! Nodes(copies)
    requires newitem !in Footprint(ct) && newitem !in Nodes(copies) && newitem.child == NodeAt(copies, 0)
    modifies newitem`child, Nodes(copies), newchild`prev
    ensures Linked(copies + [ct]) && newitem.child == NodeAt(copies + [ct], 0)
  {
    hide Nodes, Holds, Linked;
    if next != null {
      NodesHave(copies, |copies| - 1);
      AppendKid(next, newchild, copies, ct);
    } else {
      newitem.child := newchild;
      FirstKid(ct);
      assert copies + [ct] == [ct];
    }
  }

  lemma PlanStarts(plan: seq<bool>)
    ensures Granted(plan, KidsRequests([])) && plan == Left(plan, KidsRequests([]))
  {
  }

  lemma OneMoreRequested(kids: seq<Tree>, k: nat)
    requires k < |kids|
    ensures KidsRequests(kids[..k + 1]) == KidsRequests(kids[..k]) + Requests(kids[k])
  {
    hide Requests;
    assert kids[..k + 1][..k] == kids[..k];
  }

  /** One more child and its requests. */
  lemma PlanStep(plan: seq<bool>, kids: seq<Tree>, k: nat)
    requires k < |kids|
    ensures var m, n := KidsRequests(kids[..k]), Requests(kids[k]);
            && KidsRequests(kids[..k + 1]) == m + n
            && (Granted(plan, m + n) <==> Granted(plan, m) && Granted(Left(plan, m), n))
            && Left(Left(plan, m), n) == Left(plan, m + n)
    ensures Granted(plan, KidsRequests(kids)) ==> Granted(plan, KidsRequests(kids[..k + 1]))
  {
    hide Requests, Granted, Left, KidsRequests;
    OneMoreRequested(kids, k);
    GrantedBoth(plan, KidsRequests(kids[..k]), Requests(kids[k]));
    MoreRequests(kids, k + 1);
    GrantedBoth(plan, KidsRequests(kids[..k + 1]), KidsRequests(kids) - KidsRequests(kids[..k + 1]));
  }

  lemma {:induction false} MoreRequests(kids: seq<Tree>, k: nat)
    requires k <= |kids|
    ensures KidsRequests(kids[..k]) <= KidsRequests(kids)
    decreases |kids|
  {
    hide Requests;
    if k < |kids| {
      var n := |kids| - 1;
      assert kids[..n][..k] == kids[..k];
      MoreRequests(kids[..n], k);
    } else {
      assert kids[..k] == kids;
    }
  }

  lemma KindsHold(t: Tree)
    requires Holds(t)
    ensures t.node.kind == t.kind && t.node.text == t.text && t.node.named == t.named && t.node.name == t.name
    ensures NulFree(t.name)
  {
  }

  lemma FirstChild(t: Tree)
    requires Holds(t)
    ensures t.node.child == NodeAt(t.kids, 0)
  {
  }

  /** What a child holds, and what comes behind it. */
  lemma NextChild(t: Tree, i: nat)
    requires Holds(t) && i < |t.kids|
    ensures Holds(t.kids[i]) && t.kids[i].node.next == NodeAt(t.kids, i + 1) && t.kids[i].node.name == t.kids[i].name
    ensures NulFree(t.kids[i].name)
  {
    assert ChildHolds(t.kids, i);
    KindsHold(t.kids[i]);
  }

  lemma LinkedNothing(kids: seq<Tree>)
    ensures Linked([]) && Nodes([]) == {} && SameKids(kids, [])
  {
  }

  lemma OneMoreSame(kids: seq<Tree>, copies: seq<Tree>, ct: Tree)
    requires SameKids(kids, copies) && |copies| < |kids| && Alike(kids[|copies|], ct)
    ensures SameKids(kids, copies + [ct])
  {
    hide Alike;
  }

  /** The part of `foot` that a tree covers. */
  ghost function Part(foot: set<Node>, t: Tree): set<Node> {
    set n | n in foot && n in Footprint(t)
  }

  lemma PartOfKid(t: Tree, i: nat)
    requires i < |t.kids|
    ensures Part(Footprint(t), t.kids[i]) == Footprint(t.kids[i])
  {
    NodesHave(t.kids, i);
  }

  /** The copy of one child. */
  method DuplicateOne(heap: Heap, child: Node, ghost t: Tree, ghost foot: set<Node>, ghost i: nat)
    returns (newchild: Node?, ghost ct: Tree, ghost more: set<Node>)
    requires Holds(t) && foot == Footprint(t) && i < |t.kids| && child == t.kids[i].node
    modifies heap
    ensures newchild != null <==> Granted(old(heap.plan), Requests(t.kids[i]))
    ensures newchild == null ==> heap.live == old(heap.live)
    ensures newchild != null ==>
            && more == Footprint(ct) && fresh(more) && heap.live == old(heap.live) + more
            && heap.plan == Left(old(heap.plan), Requests(t.kids[i]))
            && ct.node == newchild && Holds(ct) && newchild !in Nodes(ct.kids) && Disjoint(ct.kids)
            && newchild.next == null
            && Alike(t.kids[i], ct)
    decreases t, 0
  {
    hide ToValue, Alike, Granted, Left, Requests, Disjoint;
    NextChild(t, i);
    PartOfKid(t, i);
    newchild, ct, more := Duplicate(heap, child, true, t.kids[i], Part(foot, t.kids[i]));
  }

  lemma FirstKid(ct: Tree)
    requires Holds(ct) && ct.node !in Nodes(ct.kids) && ct.node.next == null
    ensures Linked([ct])
  {
    OneKid(ct);
    assert ChildHolds([ct], 0);
  }
}
