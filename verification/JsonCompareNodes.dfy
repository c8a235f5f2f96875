/** `get_object_item` and `cJSON_Compare` on linked nodes. */
module JsonCompareNodes {
  import opened Bytes
  import opened Json
  import opened JsonCompare
  import opened JsonCompareKeys
  import opened JsonNodes

  /** The first child with the key, or the number of children. */
  ghost function FirstNamed(kids: seq<Tree>, name: Bytes, norm: Norm): (k: nat)
    ensures k <= |kids| && (k < |kids| ==> norm(name) == norm(kids[k].name))
    ensures forall i :: 0 <= i < k ==> norm(name) != norm(kids[i].name)
  {
    if kids == [] || norm(name) == norm(kids[0].name) then 0 else 1 + FirstNamed(kids[1..], name, norm)
  }

  lemma {:induction false} FirstNamedIs(kids: seq<Tree>, name: Bytes, norm: Norm, k: nat)
    requires k <= |kids| && (k < |kids| ==> norm(name) == norm(kids[k].name))
    requires forall i :: 0 <= i < k ==> norm(name) != norm(kids[i].name)
    ensures FirstNamed(kids, name, norm) == k
  {
  }

  /** `strcmp` or `case_insensitive_strcmp` finds no difference. */
  method SameKey(a: Bytes, b: Bytes, caseSensitive: bool) returns (same: bool)
    requires NulFree(a) && NulFree(b)
    ensures same == SameName(a, b, caseSensitive)
  {
    NormIsName(a, b, caseSensitive);
    if caseSensitive {
      same := a == b;
    } else {
      same := CaseInsensitiveEqual(a, b);
    }
  }

  /** `get_object_item` on the chain of children. */
  method GetObjectItem(obj: Node, name: Bytes, caseSensitive: bool, ghost t: Tree, ghost foot: set<Node>)
    returns (found: Node?, ghost k: nat)
    requires t.node == obj && Holds(t) && foot == Footprint(t) && NulFree(name)
    ensures k == FirstNamed(t.kids, name, KeyNorm(caseSensitive))
    ensures found == NodeAt(t.kids, FirstNamed(t.kids, name, KeyNorm(caseSensitive)))
    ensures k <= |t.kids| && (k < |t.kids| ==> SameName(name, t.kids[k].name, caseSensitive))
    ensures forall i :: 0 <= i < k ==> !SameName(name, t.kids[i].name, caseSensitive)
  {
    hide Holds, NulFree, KeyNorm, SameName;
    ghost var norm := KeyNorm(caseSensitive);
    FirstChild(t);
    found, k := obj.child, 0;
    while found != null
      invariant Holds(t) && k <= |t.kids| && found == NodeAt(t.kids, k)
      invariant forall i :: 0 <= i < k ==> norm(name) != norm(t.kids[i].name)
      invariant forall i :: 0 <= i < k ==> !SameName(name, t.kids[i].name, caseSensitive)
      decreases |t.kids| - k
    {
      NextChild(t, k);
      NormIsName(name, t.kids[k].name, caseSensitive);
      var same := SameKey(name, found.name, caseSensitive);
      if same {
        break;
      }
      found, k := found.next, k + 1;
    }
    FirstNamedIs(t.kids, name, norm, k);
  }

  /** Looking up a key among the nodes is looking it up in the value. */
  lemma {:induction false} FindAtIndex(kids: seq<Tree>, name: Bytes, norm: Norm)
    ensures var k := FirstNamed(kids, name, norm);
            Find(ToMembers(kids), name, norm) == if k < |kids| then Found(ToValue(kids[k])) else Missing
    decreases kids
  {
    hide ToValue;
    if kids != [] && norm(name) != norm(kids[0].name) {
      FindAtIndex(kids[1..], name, norm);
    }
  }

  /** Number of nodes of a tree. */
  ghost function Size(t: Tree): nat
    decreases t
  {
    1 + Sizes(t.kids)
  }

  ghost function Sizes(kids: seq<Tree>): nat
    decreases kids
  {
    if kids == [] then 0 else Size(kids[0]) + Sizes(kids[1..])
  }

  lemma {:induction false} KidIsSmaller(kids: seq<Tree>, i: nat)
    requires i < |kids|
    ensures Size(kids[i]) <= Sizes(kids)
    decreases i
  {
    hide Size;
    if i > 0 {
      KidIsSmaller(kids[1..], i - 1);
    }
  }

  /** What `cJSON_Compare` decides: a node of a valid type equals itself, nodes of the same type are compared by
      what they hold. */
  ghost predicate Equal(a: Tree, b: Tree, norm: Norm)
    decreases Size(a) + Size(b), 1
  {
    a.kind == b.kind && a.kind != InvalidKind && (a.node == b.node ||
    match a.kind
    case NumberKind => a.text == b.text
    case StringKind => a.text == b.text
    case ArrayKind => EqualKids(a.kids, b.kids, norm)
    case ObjectKind => AllIn(a.kids, b.kids, norm) && AllIn(b.kids, a.kids, norm)
    case _ => true)
  }

  ghost predicate EqualKids(x: seq<Tree>, y: seq<Tree>, norm: Norm)
    decreases Sizes(x) + Sizes(y), 2
  {
    if x == [] || y == [] then x == y else Equal(x[0], y[0], norm) && EqualKids(x[1..], y[1..], norm)
  }

  /** Each child is found among the others and equal there. */
  ghost predicate AllIn(x: seq<Tree>, y: seq<Tree>, norm: Norm)
    decreases Sizes(x) + Sizes(y), 2
  {
    x != [] ==>
      var k := FirstNamed(y, x[0].name, norm);
      k < |y| && (KidIsSmaller(y, k); Equal(x[0], y[k], norm)) && AllIn(x[1..], y, norm)
  }

  lemma EqualFrom(x: seq<Tree>, y: seq<Tree>, norm: Norm, i: nat)
    requires i < |x| && i < |y|
    ensures EqualKids(x[i..], y[i..], norm) == (Equal(x[i], y[i], norm) && EqualKids(x[i + 1..], y[i + 1..], norm))
  {
    hide Equal;
    assert x[i..][1..] == x[i + 1..] && y[i..][1..] == y[i + 1..];
  }

  lemma AllInFrom(x: seq<Tree>, y: seq<Tree>, norm: Norm, i: nat)
    requires i < |x|
    ensures var k := FirstNamed(y, x[i].name, norm);
            AllIn(x[i..], y, norm) == (k < |y| && Equal(x[i], y[k], norm) && AllIn(x[i + 1..], y, norm))
  {
    hide Equal;
    assert x[i..][1..] == x[i + 1..];
  }

  lemma KidsAreSmaller(a: Tree, b: Tree, i: nat, j: nat)
    requires i < |a.kids| && j < |b.kids|
    ensures Size(a.kids[i]) < Size(a) && Size(b.kids[j]) < Size(b)
  {
    KidIsSmaller(a.kids, i);
    KidIsSmaller(b.kids, j);
  }

  /** `cJSON_Compare` of two nodes. */
  method CompareNodes(a: Node, b: Node, caseSensitive: bool, ghost ta: Tree, ghost tb: Tree, ghost fa: set<Node>,
                      ghost fb: set<Node>)
    returns (r: bool)
    requires fa == Footprint(ta) && fb == Footprint(tb) && ta.node == a && tb.node == b
    requires Holds(ta) && Holds(tb)
    ensures r == Equal(ta, tb, KeyNorm(caseSensitive))
    decreases Size(ta) + Size(tb), 3
  {
    hide Holds, Size, KeyNorm, EqualKids, AllIn;
    KindsHold(ta);
    KindsHold(tb);
    if a.kind != b.kind || a.kind == InvalidKind {
      return false;
    }
    if a == b {
      return true;
    }
    match a.kind {
      case ArrayKind =>
        r := CompareArrays(a, b, caseSensitive, ta, tb, fa, fb);
      case ObjectKind =>
        r := FindAllNodes(a, b, caseSensitive, ta, tb, fa, fb);
        if r {
          r := FindAllNodes(b, a, caseSensitive, tb, ta, fb, fa);
        }
      case NumberKind =>
        r := a.text == b.text;
      case StringKind =>
        r := a.text == b.text;
      case _ =>
        r := true;
    }
  }

  /** The loop over the elements of two arrays. */
  method CompareArrays(a: Node, b: Node, caseSensitive: bool, ghost ta: Tree, ghost tb: Tree, ghost fa: set<Node>,
                       ghost fb: set<Node>)
    returns (r: bool)
    requires fa == Footprint(ta) && fb == Footprint(tb) && ta.node == a && tb.node == b
    requires Holds(ta) && Holds(tb)
    ensures r == EqualKids(ta.kids, tb.kids, KeyNorm(caseSensitive))
    decreases Size(ta) + Size(tb), 2
  {
    hide Holds, Size, KeyNorm, Equal;
    ghost var norm := KeyNorm(caseSensitive);
    FirstChild(ta);
    FirstChild(tb);
    var x, y := a.child, b.child;
    ghost var i := 0;
    assert ta.kids[0..] == ta.kids && tb.kids[0..] == tb.kids;
    while x != null && y != null
      invariant Holds(ta) && Holds(tb) && i <= |ta.kids| && i <= |tb.kids| && x == NodeAt(ta.kids, i)
      invariant y == NodeAt(tb.kids, i)
      invariant EqualKids(ta.kids, tb.kids, norm) == EqualKids(ta.kids[i..], tb.kids[i..], norm)
      decreases |ta.kids| - i
    {
      NextChild(ta, i);
      NextChild(tb, i);
      PartOfKid(ta, i);
      PartOfKid(tb, i);
      KidsAreSmaller(ta, tb, i, i);
      EqualFrom(ta.kids, tb.kids, norm, i);
      var same := CompareNodes(x, y, caseSensitive, ta.kids[i], tb.kids[i], Part(fa, ta.kids[i]), Part(fb, tb.kids[i]));
      if !same {
        return false;
      }
      x, y, i := x.next, y.next, i + 1;
    }
    r := x == y;
  }

  /** One turn of a loop over members: the member is looked up in the other object and compared. */
  method FindOne(x: Node, b: Node, caseSensitive: bool, ghost ta: Tree, ghost i: nat, ghost tb: Tree,
                 ghost fa: set<Node>, ghost fb: set<Node>)
    returns (same: bool)
    requires fa == Footprint(ta) && fb == Footprint(tb) && i < |ta.kids| && ta.kids[i].node == x && tb.node == b
    requires Holds(ta) && Holds(tb)
    ensures var k := FirstNamed(tb.kids, ta.kids[i].name, KeyNorm(caseSensitive));
            same == (k < |tb.kids| && Equal(ta.kids[i], tb.kids[k], KeyNorm(caseSensitive)))
    decreases Size(ta) + Size(tb), 1
  {
    hide Holds, Size, KeyNorm, Equal, FirstNamed, NulFree;
    NextChild(ta, i);
    var found, k := GetObjectItem(b, x.name, caseSensitive, tb, fb);
    if found == null {
      return false;
    }
    NextChild(ta, i);
    NextChild(tb, k);
    PartOfKid(ta, i);
    PartOfKid(tb, k);
    KidsAreSmaller(ta, tb, i, k);
    same := CompareNodes(x, found, caseSensitive, ta.kids[i], tb.kids[k], Part(fa, ta.kids[i]), Part(fb, tb.kids[k]));
  }

  /** One loop over the members of an object. */
  method FindAllNodes(a: Node, b: Node, caseSensitive: bool, ghost ta: Tree, ghost tb: Tree, ghost fa: set<Node>,
                      ghost fb: set<Node>)
    returns (r: bool)
    requires fa == Footprint(ta) && fb == Footprint(tb) && ta.node == a && tb.node == b
    requires Holds(ta) && Holds(tb)
    ensures r == AllIn(ta.kids, tb.kids, KeyNorm(caseSensitive))
    decreases Size(ta) + Size(tb), 2
  {
    hide Holds, Size, KeyNorm, Equal, FirstNamed, NulFree;
    ghost var norm := KeyNorm(caseSensitive);
    FirstChild(ta);
    var x := a.child;
    ghost var i := 0;
    assert ta.kids[0..] == ta.kids;
    while x != null
      invariant Holds(ta) && Holds(tb) && i <= |ta.kids| && x == NodeAt(ta.kids, i)
      invariant AllIn(ta.kids, tb.kids, norm) == AllIn(ta.kids[i..], tb.kids, norm)
      decreases |ta.kids| - i
    {
      AllInFrom(ta.kids, tb.kids, norm, i);
      var same := FindOne(x, b, caseSensitive, ta, i, tb, fa, fb);
      if !same {
        return false;
      }
      NextChild(ta, i);
      x, i := x.next, i + 1;
    }
    r := true;
  }

  /** A pointer with the tree behind it, if it is not null. */
  datatype Pointer = NoTree | To(tree: Tree, foot: set<Node>)

  ghost predicate Points(a: Node?, p: Pointer)
    reads if p.To? then Footprint(p.tree) else {}
  {
    if a == null then p.NoTree? else p.To? && p.tree.node == a && p.foot == Footprint(p.tree) && Holds(p.tree)
  }

  /** Sane trees that share no nodes and in which no object has the same key twice. */
  ghost predicate Comparable(a: Tree, b: Tree, caseSensitive: bool) {
    && Sane(a) && Sane(b) && Apart(a, b)
    && KeysDiffer(ToValue(a), caseSensitive) && KeysDiffer(ToValue(b), caseSensitive)
  }

  /** `cJSON_Compare`. If no object has the same key twice it is equality up to the order of members. */
  method CompareAny(a: Node?, b: Node?, caseSensitive: bool, ghost pa: Pointer, ghost pb: Pointer) returns (r: bool)
    requires Points(a, pa) && Points(b, pb)
    ensures r == (a != null && b != null && Equal(pa.tree, pb.tree, KeyNorm(caseSensitive)))
    ensures a != null && b != null && Comparable(pa.tree, pb.tree, caseSensitive) ==>
            r == Same(ToValue(pa.tree), ToValue(pb.tree), caseSensitive)
  {
    hide Sane, Apart, Same, Equal, Compare, KeyNorm, ToValue, KeysDiffer;
    if a == null || b == null {
      return false;
    }
    r := CompareNodes(a, b, caseSensitive, pa.tree, pb.tree, pa.foot, pb.foot);
    if Comparable(pa.tree, pb.tree, caseSensitive) {
      EqualIsCompare(pa.tree, pb.tree, KeyNorm(caseSensitive));
      CompareIsSame(ToValue(pa.tree), ToValue(pb.tree), caseSensitive);
    }
  }

  /** No node is of an invalid type. */
  ghost predicate Sane(t: Tree)
    decreases t
  {
    t.kind != InvalidKind && forall i :: 0 <= i < |t.kids| ==> Sane(t.kids[i])
  }

  /** The two trees share no nodes. */
  ghost predicate Apart(a: Tree, b: Tree) {
    Footprint(a) !! Footprint(b)
  }

  lemma KidsApart(a: Tree, b: Tree, i: nat, j: nat)
    requires Apart(a, b) && i < |a.kids| && j < |b.kids|
    ensures Apart(a.kids[i], b.kids[j]) && Apart(b.kids[j], a.kids[i])
  {
    NodesHave(a.kids, i);
    NodesHave(b.kids, j);
  }

  /** On sane trees that share no nodes comparison is what it is of the values they stand for. */
  lemma {:induction false} EqualIsCompare(a: Tree, b: Tree, norm: Norm)
    requires Sane(a) && Sane(b) && Apart(a, b)
    ensures Equal(a, b, norm) == Compare(ToValue(a), ToValue(b), norm)
    decreases Size(a) + Size(b), 1
  {
    hide ToItems, ToMembers, AllFound, CompareItems, EqualKids, AllIn;
    if a.kind == b.kind == ArrayKind {
      KidsCompare(a, b, norm, 0);
      assert a.kids[0..] == a.kids && b.kids[0..] == b.kids;
    } else if a.kind == b.kind == ObjectKind {
      MembersCompare(a, b, norm, 0);
      MembersCompare(b, a, norm, 0);
      assert a.kids[0..] == a.kids && b.kids[0..] == b.kids;
    }
  }

  lemma {:induction false} KidsCompare(a: Tree, b: Tree, norm: Norm, i: nat)
    requires Sane(a) && Sane(b) && Apart(a, b) && i <= |a.kids| && i <= |b.kids|
    ensures EqualKids(a.kids[i..], b.kids[i..], norm) == CompareItems(ToItems(a.kids[i..]), ToItems(b.kids[i..]), norm)
    decreases Size(a) + Size(b), 0, |a.kids| - i
  {
    hide Equal, Compare, ToValue, Apart, Size, Sane;
    if i < |a.kids| && i < |b.kids| {
      SaneKid(a, i);
      SaneKid(b, i);
      KidsApart(a, b, i, i);
      KidsAreSmaller(a, b, i, i);
      EqualIsCompare(a.kids[i], b.kids[i], norm);
      EqualFrom(a.kids, b.kids, norm, i);
      KidsCompare(a, b, norm, i + 1);
      assert a.kids[i..][1..] == a.kids[i + 1..] && b.kids[i..][1..] == b.kids[i + 1..];
    }
  }

  lemma SaneKid(t: Tree, i: nat)
    requires Sane(t) && i < |t.kids|
    ensures Sane(t.kids[i])
  {
  }

  lemma {:induction false} MembersCompare(a: Tree, b: Tree, norm: Norm, i: nat)
    requires Sane(a) && Sane(b) && Apart(a, b) && i <= |a.kids|
    ensures AllIn(a.kids[i..], b.kids, norm) == AllFound(ToMembers(a.kids[i..]), ToMembers(b.kids), norm)
    decreases Size(a) + Size(b), 0, |a.kids| - i
  {
    hide Equal, Compare, ToValue, Apart, Size, Sane, FirstNamed, Find;
    if i < |a.kids| {
      var k := FirstNamed(b.kids, a.kids[i].name, norm);
      FindAtIndex(b.kids, a.kids[i].name, norm);
      if k < |b.kids| {
        SaneKid(a, i);
        SaneKid(b, k);
        KidsApart(a, b, i, k);
        KidsAreSmaller(a, b, i, k);
        EqualIsCompare(a.kids[i], b.kids[k], norm);
      }
      AllInFrom(a.kids, b.kids, norm, i);
      MembersCompare(a, b, norm, i + 1);
      assert a.kids[i..][1..] == a.kids[i + 1..];
    }
  }

  lemma {:induction false} AlikeIsSane(a: Tree, b: Tree)
    requires Alike(a, b) && Sane(a)
    ensures Sane(b)
    decreases a
  {
    forall i | 0 <= i < |b.kids| ensures Sane(b.kids[i]) {
      AlikeIsSane(a.kids[i], b.kids[i]);
    }
  }

  /** A recursive copy is compared with its source. If it could be made, they are equal if and only if no object has
      two members with the same key and different meanings. */
  method CopyAndCompare(heap: Heap, item: Node, caseSensitive: bool, ghost t: Tree, ghost foot: set<Node>)
    returns (r: bool)
    requires t.node == item && Holds(t) && foot == Footprint(t) && Sane(t)
    modifies heap
    ensures r == (Granted(old(heap.plan), Requests(t)) && Consistent(ToValue(t), KeyNorm(caseSensitive)))
  {
    hide ToValue, Compare, Consistent, KeyNorm, Equal, Sane, Alike, Granted, Left, Requests;
    var copy, t', foot' := Duplicate(heap, item, true, t, foot);
    if copy == null {
      r := CompareAny(item, copy, caseSensitive, To(t, foot), NoTree);
      return;
    }
    AlikeIsSane(t, t');
    assert foot !! foot' && item in foot && copy in foot';
    r := CompareAny(item, copy, caseSensitive, To(t, foot), To(t', foot'));
    EqualIsCompare(t, t', KeyNorm(caseSensitive));
    CopyComparesEqual(ToValue(t), KeyNorm(caseSensitive));
  }
}
