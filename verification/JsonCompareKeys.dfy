/** What comparison with and without regard to case means, on the bytes of the keys. */
module JsonCompareKeys {
  import opened Bytes
  import opened Json
  import opened JsonCompare

  /** The letter `a` in upper case is `b` in lower case. */
  predicate CaseOf(a: byte, b: byte) {
    0x41 <= a <= 0x5A && b as int == a as int + 0x20
  }

  /** The keys are the same: byte for byte, or position by position up to the case of letters. */
  predicate SameName(a: Bytes, b: Bytes, caseSensitive: bool) {
    if caseSensitive then a == b
    else |a| == |b| && forall i :: 0 <= i < |a| ==> a[i] == b[i] || CaseOf(a[i], b[i]) || CaseOf(b[i], a[i])
  }

  /** How the code tells keys apart. */
  function KeyNorm(caseSensitive: bool): Norm {
    if caseSensitive then Exact else Lower
  }

  lemma NormIsName(a: Bytes, b: Bytes, caseSensitive: bool)
    ensures KeyNorm(caseSensitive)(a) == KeyNorm(caseSensitive)(b) <==> SameName(a, b, caseSensitive)
  {
    if !caseSensitive {
      LowerIsName(a, b);
    }
  }

  lemma LowerByteIsCase(a: byte, b: byte)
    ensures LowerByte(a) == LowerByte(b) <==> a == b || CaseOf(a, b) || CaseOf(b, a)
  {
  }

  lemma LowerIsName(a: Bytes, b: Bytes)
    ensures Lower(a) == Lower(b) <==> SameName(a, b, false)
  {
    hide LowerByte, CaseOf;
    if |a| == |b| {
      forall i | 0 <= i < |a|
        ensures Lower(a)[i] == Lower(b)[i] <==> a[i] == b[i] || CaseOf(a[i], b[i]) || CaseOf(b[i], a[i])
      {
        LowerByteIsCase(a[i], b[i]);
      }
      if SameName(a, b, false) {
        assert Lower(a) == Lower(b);
      }
    } else {
      assert |Lower(a)| != |Lower(b)|;
    }
  }

  /** Equality up to the order of members: every member of each object is among those of the other. */
  predicate Same(a: Value, b: Value, caseSensitive: bool)
    decreases Nodes(a) + Nodes(b), 1
  {
    match (a, b)
    case (Array(x), Array(y)) => SameItems(x, y, caseSensitive)
    case (Object(x), Object(y)) => Included(x, y, caseSensitive) && Included(y, x, caseSensitive)
    case (Array(_), _) => false
    case (Object(_), _) => false
    case _ => a == b
  }

  predicate SameItems(x: Items, y: Items, caseSensitive: bool)
    decreases ItemNodes(x) + ItemNodes(y), 2
  {
    if x.NoItem? || y.NoItem? then x == y
    else Same(x.head, y.head, caseSensitive) && SameItems(x.tail, y.tail, caseSensitive)
  }

  predicate Included(x: Members, y: Members, caseSensitive: bool)
    decreases MemberNodes(x) + MemberNodes(y), 0
  {
    x.Member? ==> Among(x.key, x.value, y, caseSensitive) && Included(x.rest, y, caseSensitive)
  }

  predicate Among(key: Bytes, v: Value, members: Members, caseSensitive: bool)
    decreases Nodes(v) + MemberNodes(members), 1
  {
    members.Member? &&
    ((SameName(key, members.key, caseSensitive) && Same(v, members.value, caseSensitive)) ||
     Among(key, v, members.rest, caseSensitive))
  }

  /** No object has the same key twice. */
  predicate KeysDiffer(v: Value, caseSensitive: bool) {
    match v
    case Array(items) => ItemKeysDiffer(items, caseSensitive)
    case Object(members) => MemberKeysDiffer(members, caseSensitive)
    case _ => true
  }

  predicate ItemKeysDiffer(items: Items, caseSensitive: bool) {
    items.Item? ==> KeysDiffer(items.head, caseSensitive) && ItemKeysDiffer(items.tail, caseSensitive)
  }

  predicate MemberKeysDiffer(members: Members, caseSensitive: bool) {
    members.Member? ==>
      && KeysDiffer(members.value, caseSensitive) && Unused(members.key, members.rest, caseSensitive)
      && MemberKeysDiffer(members.rest, caseSensitive)
  }

  predicate Unused(key: Bytes, members: Members, caseSensitive: bool) {
    members.Member? ==> !SameName(key, members.key, caseSensitive) && Unused(key, members.rest, caseSensitive)
  }

  /** Sameness of keys is an equivalence. */
  lemma NamesChain(a: Bytes, b: Bytes, c: Bytes, caseSensitive: bool)
    requires SameName(a, b, caseSensitive) && SameName(a, c, caseSensitive)
    ensures SameName(b, c, caseSensitive)
  {
    hide KeyNorm, SameName;
    NormIsName(a, b, caseSensitive);
    NormIsName(a, c, caseSensitive);
    NormIsName(b, c, caseSensitive);
  }

  lemma {:induction false} UnusedIsNotAmong(key: Bytes, key': Bytes, v: Value, members: Members, caseSensitive: bool)
    requires Unused(key, members, caseSensitive) && SameName(key', key, caseSensitive)
    ensures !Among(key', v, members, caseSensitive)
    decreases members
  {
    hide SameName, Same;
    if members.Member? {
      if SameName(key', members.key, caseSensitive) {
        NamesChain(key', key, members.key, caseSensitive);
      }
      UnusedIsNotAmong(key, key', v, members.rest, caseSensitive);
    }
  }

  /** If keys differ, comparison is equality up to the order of members. */
  lemma {:induction false} CompareIsSame(a: Value, b: Value, caseSensitive: bool)
    requires KeysDiffer(a, caseSensitive) && KeysDiffer(b, caseSensitive)
    ensures Compare(a, b, KeyNorm(caseSensitive)) <==> Same(a, b, caseSensitive)
    decreases Nodes(a) + Nodes(b), 1
  {
    hide KeyNorm, AllFound, Included;
    match (a, b) {
      case (Array(x), Array(y)) =>
        ItemsAreSame(x, y, caseSensitive);
      case (Object(x), Object(y)) =>
        FoundIsIncluded(x, y, caseSensitive);
        FoundIsIncluded(y, x, caseSensitive);
      case _ =>
    }
  }

  lemma {:induction false} ItemsAreSame(x: Items, y: Items, caseSensitive: bool)
    requires ItemKeysDiffer(x, caseSensitive) && ItemKeysDiffer(y, caseSensitive)
    ensures CompareItems(x, y, KeyNorm(caseSensitive)) <==> SameItems(x, y, caseSensitive)
    decreases ItemNodes(x) + ItemNodes(y), 2
  {
    hide KeyNorm, Compare, Same, KeysDiffer;
    if x.Item? && y.Item? {
      CompareIsSame(x.head, y.head, caseSensitive);
      ItemsAreSame(x.tail, y.tail, caseSensitive);
    }
  }

  lemma {:induction false} FoundIsIncluded(x: Members, y: Members, caseSensitive: bool)
    requires MemberKeysDiffer(x, caseSensitive) && MemberKeysDiffer(y, caseSensitive)
    ensures AllFound(x, y, KeyNorm(caseSensitive)) <==> Included(x, y, caseSensitive)
    decreases MemberNodes(x) + MemberNodes(y), 0
  {
    hide KeyNorm, Compare, Same, KeysDiffer, Find, Among, SameName;
    if x.Member? {
      FirstIsAmong(x.key, x.value, y, caseSensitive);
      FoundIsIncluded(x.rest, y, caseSensitive);
    }
  }

  lemma {:induction false} FirstIsAmong(key: Bytes, v: Value, members: Members, caseSensitive: bool)
    requires KeysDiffer(v, caseSensitive) && MemberKeysDiffer(members, caseSensitive)
    ensures var r := Find(members, key, KeyNorm(caseSensitive));
            r.Found? && Compare(v, r.value, KeyNorm(caseSensitive)) <==> Among(key, v, members, caseSensitive)
    decreases Nodes(v) + MemberNodes(members), 1
  {
    hide KeyNorm, Compare, Same, KeysDiffer, SameName;
    if members.Member? {
      NormIsName(key, members.key, caseSensitive);
      CompareIsSame(v, members.value, caseSensitive);
      if SameName(key, members.key, caseSensitive) {
        UnusedIsNotAmong(members.key, key, v, members.rest, caseSensitive);
      } else {
        FirstIsAmong(key, v, members.rest, caseSensitive);
      }
    }
  }
}
