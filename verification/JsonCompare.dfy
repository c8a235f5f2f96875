/** `cJSON_Compare` against what the trees mean. */
module JsonCompare {
  import opened Bytes
  import opened Json

  /** How object keys are told apart: the key itself, or its lower-case form. */
  type Norm = Bytes -> Bytes

  function Exact(key: Bytes): Bytes {
    key
  }

  /** `tolower` in the C locale. */
  function Lower(key: Bytes): Bytes {
    seq(|key|, i requires 0 <= i < |key| => LowerByte(key[i]))
  }

  function LowerByte(c: byte): byte {
    if 0x41 <= c <= 0x5A then c + 0x20 else c
  }

  /** The byte at `i` of a C string, or its terminator. */
  function CharAt(s: Bytes, i: nat): byte {
    if i < |s| then s[i] else NUL
  }

  /** `case_insensitive_strcmp` tells keys apart by their lower-case forms. */
  method CaseInsensitiveEqual(a: Bytes, b: Bytes) returns (equal: bool)
    requires NulFree(a) && NulFree(b)
    ensures equal == (Lower(a) == Lower(b))
  {
    var i := 0;
    while LowerByte(CharAt(a, i)) == LowerByte(CharAt(b, i))
      invariant 0 <= i <= |a| && i <= |b| && forall j :: 0 <= j < i ==> LowerByte(a[j]) == LowerByte(b[j])
      decreases |a| - i
    {
      if CharAt(a, i) == NUL {
        assert i == |a| == |b|;
        assert Lower(a) == Lower(b);
        return true;
      }
      i := i + 1;
    }
    LowerDiffers(a, b, i);
    equal := false;
  }

  lemma LowerDiffers(a: Bytes, b: Bytes, i: nat)
    requires LowerByte(CharAt(a, i)) != LowerByte(CharAt(b, i))
    ensures Lower(a) != Lower(b)
  {
    if i < |a| && i < |b| {
      assert Lower(a)[i] != Lower(b)[i];
    } else {
      assert |Lower(a)| != |Lower(b)|;
    }
  }

  datatype Found = Missing | Found(value: Value)

  /** `get_object_item` */
  function Find(members: Members, key: Bytes, norm: Norm): (r: Found)
    ensures r.Found? ==> Nodes(r.value) < MemberNodes(members)
  {
    match members
    case NoMember => Missing
    case Member(k, v, rest) => if norm(key) == norm(k) then Found(v) else Find(rest, key, norm)
  }

  function Nodes(v: Value): nat {
    match v
    case Array(items) => 1 + ItemNodes(items)
    case Object(members) => 1 + MemberNodes(members)
    case _ => 1
  }

  function ItemNodes(items: Items): nat {
    if items.Item? then Nodes(items.head) + ItemNodes(items.tail) else 0
  }

  function MemberNodes(members: Members): nat {
    if members.Member? then 1 + Nodes(members.value) + MemberNodes(members.rest) else 0
  }

  /** `cJSON_Compare` of trees that share no nodes. */
  predicate Compare(a: Value, b: Value, norm: Norm)
    decreases Nodes(a) + Nodes(b), 1
  {
    match (a, b)
    case (Null, Null) => true
    case (False, False) => true
    case (True, True) => true
    case (Number(s), Number(t)) => s == t
    case (String(s), String(t)) => s == t
    case (Array(x), Array(y)) => CompareItems(x, y, norm)
    case (Object(x), Object(y)) => AllFound(x, y, norm) && AllFound(y, x, norm)
    case _ => false
  }

  predicate CompareItems(x: Items, y: Items, norm: Norm)
    decreases ItemNodes(x) + ItemNodes(y), 2
  {
    match (x, y)
    case (NoItem, NoItem) => true
    case (Item(a, x'), Item(b, y')) => Compare(a, b, norm) && CompareItems(x', y', norm)
    case _ => false
  }

  /** One of the two loops over object members: each is found among the others and compares equal. */
  predicate AllFound(members: Members, others: Members, norm: Norm)
    decreases MemberNodes(members) + MemberNodes(others), 0
  {
    members.Member? ==>
      && Find(others, members.key, norm).Found?
      && Compare(members.value, Find(others, members.key, norm).value, norm)
      && AllFound(members.rest, others, norm)
  }

  /** What a tree means: arrays are sequences, objects are maps in which the first member with a key
      counts. */
  datatype Meaning = Atom(v: Value) | Elements(s: seq<Meaning>) | Fields(m: map<Bytes, Meaning>)

  function Means(v: Value, norm: Norm): Meaning {
    match v
    case Array(items) => Elements(ItemsMean(items, norm))
    case Object(members) => Fields(MembersMean(members, norm))
    case _ => Atom(v)
  }

  function ItemsMean(items: Items, norm: Norm): seq<Meaning> {
    if items.Item? then [Means(items.head, norm)] + ItemsMean(items.tail, norm) else []
  }

  function MembersMean(members: Members, norm: Norm): map<Bytes, Meaning> {
    if members.Member? then MembersMean(members.rest, norm)[norm(members.key) := Means(members.value, norm)] else map[]
  }

  /** No object has two members with the same key and different meanings. */
  predicate Consistent(v: Value, norm: Norm)
    decreases v, 0
  {
    match v
    case Array(items) => ConsistentItems(items, norm)
    case Object(members) => ConsistentMembers(members, MembersMean(members, norm), norm)
    case _ => true
  }

  predicate ConsistentItems(items: Items, norm: Norm)
    decreases items, 0
  {
    items.Item? ==> Consistent(items.head, norm) && ConsistentItems(items.tail, norm)
  }

  /** Every member is consistent and agrees with the map `m`. */
  predicate ConsistentMembers(members: Members, m: map<Bytes, Meaning>, norm: Norm)
    decreases members, 0
  {
    members.Member? ==>
      && Consistent(members.value, norm)
      && norm(members.key) in m && m[norm(members.key)] == Means(members.value, norm)
      && ConsistentMembers(members.rest, m, norm)
  }

  /** `get_object_item` is the look-up in the meaning. */
  lemma {:induction false} FindIsLookup(members: Members, key: Bytes, norm: Norm)
    ensures Find(members, key, norm).Found? <==> norm(key) in MembersMean(members, norm)
    ensures Find(members, key, norm).Found? ==>
            Means(Find(members, key, norm).value, norm) == MembersMean(members, norm)[norm(key)]
    decreases members
  {
    if members.Member? {
      FindIsLookup(members.rest, key, norm);
    }
  }

  /** What is found in a consistent object is consistent. */
  lemma {:induction false} FindIsConsistent(members: Members, m: map<Bytes, Meaning>, key: Bytes, norm: Norm)
    requires ConsistentMembers(members, m, norm) && Find(members, key, norm).Found?
    ensures Consistent(Find(members, key, norm).value, norm)
    decreases members
  {
    if norm(key) != norm(members.key) {
      FindIsConsistent(members.rest, m, key, norm);
    }
  }

  /** Comparison is equality of meanings, for consistent trees; an inconsistent tree equals nothing. */
  lemma {:induction false} CompareIsMeaning(a: Value, b: Value, norm: Norm)
    ensures Compare(a, b, norm) <==> Consistent(a, norm) && Consistent(b, norm) && Means(a, norm) == Means(b, norm)
    decreases Nodes(a) + Nodes(b), 3
  {
    match (a, b) {
      case (Array(x), Array(y)) =>
        CompareItemsIsMeaning(x, y, norm);
      case (Object(x), Object(y)) =>
        ObjectsCompare(x, y, norm);
      case _ =>
    }
  }

  lemma {:induction false} CompareItemsIsMeaning(x: Items, y: Items, norm: Norm)
    ensures CompareItems(x, y, norm) <==>
            ConsistentItems(x, norm) && ConsistentItems(y, norm) && ItemsMean(x, norm) == ItemsMean(y, norm)
    decreases ItemNodes(x) + ItemNodes(y), 4
  {
    if x.Item? && y.Item? {
      CompareIsMeaning(x.head, y.head, norm);
      CompareItemsIsMeaning(x.tail, y.tail, norm);
      ConsEqual(Means(x.head, norm), ItemsMean(x.tail, norm), Means(y.head, norm), ItemsMean(y.tail, norm));
    }
  }

  lemma ConsEqual<T>(a: T, s: seq<T>, b: T, t: seq<T>)
    ensures [a] + s == [b] + t <==> a == b && s == t
  {
    if [a] + s == [b] + t {
      assert ([a] + s)[0] == a && ([b] + t)[0] == b;
      assert ([a] + s)[1..] == s && ([b] + t)[1..] == t;
    }
  }

  lemma {:induction false} ObjectsCompare(x: Members, y: Members, norm: Norm)
    ensures AllFound(x, y, norm) && AllFound(y, x, norm) <==>
            && ConsistentMembers(x, MembersMean(x, norm), norm) && ConsistentMembers(y, MembersMean(y, norm), norm)
            && MembersMean(x, norm) == MembersMean(y, norm)
    decreases MemberNodes(x) + MemberNodes(y), 3
  {
    hide Compare, Consistent;
    if AllFound(x, y, norm) && AllFound(y, x, norm) {
      FoundAgrees(x, y, norm);
      FoundAgrees(y, x, norm);
      AgreeingMapsEqual(x, y, norm);
    } else if MembersMean(x, norm) == MembersMean(y, norm) && ConsistentMembers(x, MembersMean(x, norm), norm)
        && ConsistentMembers(y, MembersMean(y, norm), norm) {
      AgreementIsFound(x, y, norm);
      AgreementIsFound(y, x, norm);
    }
  }

  /** If all members are found equal among the others, they are consistent with the others' meaning. */
  lemma {:induction false} FoundAgrees(x: Members, y: Members, norm: Norm)
    requires AllFound(x, y, norm)
    ensures ConsistentMembers(x, MembersMean(y, norm), norm)
    decreases MemberNodes(x) + MemberNodes(y), 2
  {
    hide Compare, Consistent;
    if x.Member? {
      FindIsLookup(y, x.key, norm);
      CompareIsMeaning(x.value, Find(y, x.key, norm).value, norm);
      FoundAgrees(x.rest, y, norm);
    }
  }

  lemma {:induction false} AgreementIsFound(x: Members, y: Members, norm: Norm)
    requires ConsistentMembers(x, MembersMean(y, norm), norm) && ConsistentMembers(y, MembersMean(y, norm), norm)
    ensures AllFound(x, y, norm)
    decreases MemberNodes(x) + MemberNodes(y), 2
  {
    hide Compare, Consistent;
    if x.Member? {
      FindIsLookup(y, x.key, norm);
      FindIsConsistent(y, MembersMean(y, norm), x.key, norm);
      CompareIsMeaning(x.value, Find(y, x.key, norm).value, norm);
      AgreementIsFound(x.rest, y, norm);
    }
  }

  /** Members that agree with a map mean a part of it. */
  lemma {:induction false} AgreementIsPart(x: Members, m: map<Bytes, Meaning>, norm: Norm)
    requires ConsistentMembers(x, m, norm)
    ensures forall key :: key in MembersMean(x, norm) ==> key in m && m[key] == MembersMean(x, norm)[key]
    decreases x
  {
    if x.Member? {
      AgreementIsPart(x.rest, m, norm);
    }
  }

  lemma AgreeingMapsEqual(x: Members, y: Members, norm: Norm)
    requires ConsistentMembers(x, MembersMean(y, norm), norm) && ConsistentMembers(y, MembersMean(x, norm), norm)
    ensures MembersMean(x, norm) == MembersMean(y, norm)
  {
    AgreementIsPart(x, MembersMean(y, norm), norm);
    AgreementIsPart(y, MembersMean(x, norm), norm);
  }

  /** Keys of an object are pairwise different, all the way down. */
  predicate Distinct(v: Value, norm: Norm) {
    match v
    case Array(items) => DistinctItems(items, norm)
    case Object(members) => DistinctMembers(members, norm)
    case _ => true
  }

  predicate DistinctItems(items: Items, norm: Norm) {
    items.Item? ==> Distinct(items.head, norm) && DistinctItems(items.tail, norm)
  }

  predicate DistinctMembers(members: Members, norm: Norm) {
    members.Member? ==>
      && Distinct(members.value, norm) && Find(members.rest, members.key, norm).Missing?
      && DistinctMembers(members.rest, norm)
  }

  lemma {:induction false} DistinctIsConsistent(v: Value, norm: Norm)
    requires Distinct(v, norm)
    ensures Consistent(v, norm)
    decreases v, 1
  {
    match v {
      case Array(items) =>
        DistinctItemsAreConsistent(items, norm);
      case Object(members) =>
        DistinctMembersAreConsistent(members, MembersMean(members, norm), norm);
      case _ =>
    }
  }

  lemma {:induction false} DistinctItemsAreConsistent(items: Items, norm: Norm)
    requires DistinctItems(items, norm)
    ensures ConsistentItems(items, norm)
    decreases items, 0
  {
    if items.Item? {
      DistinctIsConsistent(items.head, norm);
      DistinctItemsAreConsistent(items.tail, norm);
    }
  }

  lemma {:induction false} DistinctMembersAreConsistent(members: Members, m: map<Bytes, Meaning>, norm: Norm)
    requires DistinctMembers(members, norm)
    requires forall key :: key in MembersMean(members, norm) ==> key in m && m[key] == MembersMean(members, norm)[key]
    ensures ConsistentMembers(members, m, norm)
    decreases members, 0
  {
    hide Consistent, Distinct;
    if members.Member? {
      assert norm(members.key) in MembersMean(members, norm);
      DistinctIsConsistent(members.value, norm);
      FindIsLookup(members.rest, members.key, norm);
      DistinctMembersAreConsistent(members.rest, m, norm);
    }
  }

  /** On trees with pairwise different keys, comparison is structural equality up to the order of object
      members. */
  lemma CompareIsEquality(a: Value, b: Value, norm: Norm)
    requires Distinct(a, norm) && Distinct(b, norm)
    ensures Compare(a, b, norm) <==> Means(a, norm) == Means(b, norm)
  {
    DistinctIsConsistent(a, norm);
    DistinctIsConsistent(b, norm);
    CompareIsMeaning(a, b, norm);
  }

  /** A copy compares equal to its source exactly when no object has two members with the same key and
      different meanings. */
  lemma CopyComparesEqual(v: Value, norm: Norm)
    ensures Compare(v, v, norm) <==> Consistent(v, norm)
  {
    CompareIsMeaning(v, v, norm);
  }

  /** With a repeated key a copy need not compare equal to its source. */
  lemma RepeatedKeyBreaksCopy(key: Bytes, norm: Norm)
    ensures var v := Object(Member(key, True, Member(key, False, NoMember))); !Compare(v, v, norm)
  {
    var last := Member(key, False, NoMember);
    var members := Member(key, True, last);
    assert Find(members, key, norm) == Found(True);
    assert !AllFound(last, members, norm);
    assert !AllFound(members, members, norm);
  }
}
