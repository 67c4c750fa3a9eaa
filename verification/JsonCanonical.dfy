/**
  Sorted JSON as a canonical form: two documents that differ only in the order
  of their members become the same document, wherever the sort reaches.
 */
module JsonCanonical {
  import opened Sequences
  import opened Text
  import opened Sorting
  import opened JsonSort

  // ---------------------------------------------------------------- sorting twice

  lemma {:induction false} PlaceLast(ms: seq<Member>, m: Member)
    requires forall k :: 0 <= k < |ms| ==> !Less(m.name, ms[k].name)
    ensures Place(ms, m, NameOf) == ms + [m]
  {
    if ms != [] {
      PlaceLast(ms[1..], m);
      assert ms + [m] == [ms[0]] + (ms[1..] + [m]);
    }
  }

  lemma {:induction false} SortOfSorted(ms: seq<Member>)
    requires SortedBy(ms, NameOf)
    ensures SortMembers(ms) == ms
  {
    if ms != [] {
      SortOfSorted(ms[..|ms| - 1]);
      PlaceLast(ms[..|ms| - 1], ms[|ms| - 1]);
      assert ms == ms[..|ms| - 1] + [ms[|ms| - 1]];
    }
  }

  /** Sorting a sorted document changes nothing. */
  lemma {:induction false} CanonIdempotent(v: Json)
    ensures Canon(Canon(v)) == Canon(v)
  {
    match v {
      case Obj(ms) =>
        var cs := CanonMembers(ms);
        var t := SortMembers(cs);
        StableSortSorts(cs, NameOf);
        SameElements(t, cs);
        forall k | 0 <= k < |t| ensures CanonMembers(t)[k] == t[k] {
          assert t[k] in cs;
          var i :| 0 <= i < |ms| && cs[i] == t[k];
          CanonIdempotent(ms[i].value);
        }
        assert CanonMembers(t) == t;
        SortOfSorted(t);
      case Arr(items) =>
        forall i | 0 <= i < |items| ensures CanonItem(CanonItem(items[i])) == CanonItem(items[i]) {
          CanonIdempotent(items[i]);
        }
        assert Canon(Canon(v)).items == Canon(v).items;
      case _ =>
    }
  }

  // ---------------------------------------------------------------- documents up to member order

  /** The same document, but for the order of members (an object is unordered: RFC 8259, section 4). */
  ghost predicate SameDoc(a: Json, b: Json)
    decreases a
  {
    match a
    case Obj(ms) =>
      && b.Obj?
      && (forall i :: 0 <= i < |ms| ==> HasMatch(ms[i], b.members))
      && (forall j :: 0 <= j < |b.members| ==> IsMatched(ms, b.members[j]))
    case Arr(items) =>
      b.Arr? && |b.items| == |items| && forall i :: 0 <= i < |items| ==> SameDoc(items[i], b.items[i])
    case _ => a == b
  }

  ghost predicate HasMatch(m: Member, ns: seq<Member>)
    decreases m
  {
    exists j :: 0 <= j < |ns| && ns[j].name == m.name && SameDoc(m.value, ns[j].value)
  }

  ghost predicate IsMatched(ms: seq<Member>, n: Member)
    decreases ms
  {
    exists i :: 0 <= i < |ms| && ms[i].name == n.name && SameDoc(ms[i].value, n.value)
  }

  lemma {:induction false} SameDocReflexive(a: Json)
    ensures SameDoc(a, a)
  {
    match a {
      case Obj(ms) =>
        forall i | 0 <= i < |ms| ensures HasMatch(ms[i], ms) && IsMatched(ms, ms[i]) {
          SameDocReflexive(ms[i].value);
        }
      case Arr(items) =>
        forall i | 0 <= i < |items| ensures SameDoc(items[i], items[i]) { SameDocReflexive(items[i]); }
      case _ =>
    }
  }

  /** There is only one way to write it: no object in it has two members. */
  ghost predicate Rigid(v: Json) {
    match v
    case Obj(ms) => |ms| <= 1 && forall i :: 0 <= i < |ms| ==> Rigid(ms[i].value)
    case Arr(items) => forall i :: 0 <= i < |items| ==> Rigid(items[i])
    case _ => true
  }

  /**
    The sort reaches every object that has an order to fix: an array nested
    directly in an array, which the sort passes over, holds none.
   */
  ghost predicate Covered(v: Json)
    decreases v, 0
  {
    match v
    case Obj(ms) => forall i :: 0 <= i < |ms| ==> Covered(ms[i].value)
    case Arr(items) => forall i :: 0 <= i < |items| ==> CoveredItem(items[i])
    case _ => true
  }

  ghost predicate CoveredItem(v: Json)
    decreases v, 1
  {
    if v.Arr? then Rigid(v) else Covered(v)
  }

  lemma OneMember(ms: seq<Member>, ns: seq<Member>)
    requires |ms| <= 1 && UniqueNames(ns) && forall k :: 0 <= k < |ns| ==> ms != [] && ns[k] == ms[0]
    requires ms == [] || HasMatch(ms[0], ns)
    ensures ns == ms
  {
    var first := if ns == [] then Member("", Null) else ns[0];
    assert |ns| < 2 || ns[0].name != ns[1].name;
    assert ms == [] || ns != [];
  }

  lemma {:induction false} RigidIsAlone(a: Json, b: Json)
    requires Distinct(a) && Distinct(b) && Rigid(a) && SameDoc(a, b)
    ensures a == b
  {
    match a {
      case Obj(ms) =>
        forall k | 0 <= k < |b.members| ensures ms != [] && b.members[k] == ms[0] {
          assert IsMatched(ms, b.members[k]);
          var i :| 0 <= i < |ms| && ms[i].name == b.members[k].name && SameDoc(ms[i].value, b.members[k].value);
          RigidIsAlone(ms[i].value, b.members[k].value);
        }
        OneMember(ms, b.members);
      case Arr(items) =>
        forall i | 0 <= i < |items| ensures items[i] == b.items[i] { RigidIsAlone(items[i], b.items[i]); }
      case _ =>
    }
  }

  /** What two documents share if they sort to the same one. */
  lemma {:induction false} CanonEqualIsSame(a: Json, b: Json)
    requires Canon(a) == Canon(b)
    ensures SameDoc(a, b)
  {
    match a {
      case Obj(ms) =>
        SameSortedMembers(ms, b);
        forall i | 0 <= i < |ms| ensures HasMatch(ms[i], b.members) {
          assert CanonMembers(ms)[i] in CanonMembers(b.members);
          var j :| 0 <= j < |b.members| && CanonMembers(b.members)[j] == CanonMembers(ms)[i];
          CanonEqualIsSame(ms[i].value, b.members[j].value);
        }
        forall j | 0 <= j < |b.members| ensures IsMatched(ms, b.members[j]) {
          assert CanonMembers(b.members)[j] in CanonMembers(ms);
          var i :| 0 <= i < |ms| && CanonMembers(ms)[i] == CanonMembers(b.members)[j];
          CanonEqualIsSame(ms[i].value, b.members[j].value);
        }
      case Arr(items) =>
        SameSortedItems(items, b);
        forall i | 0 <= i < |items| ensures SameDoc(items[i], b.items[i]) {
          SameSortedItem(items[i], b.items[i]);
          if items[i].Obj? {
            CanonEqualIsSame(items[i], b.items[i]);
          } else {
            SameDocReflexive(items[i]);
          }
        }
      case _ =>
    }
  }

  lemma SameSortedMembers(ms: seq<Member>, b: Json)
    requires Canon(Obj(ms)) == Canon(b)
    ensures b.Obj? && forall m :: m in CanonMembers(ms) <==> m in CanonMembers(b.members)
  {
    SortedElements(ms);
    SortedElements(b.members);
  }

  lemma SameSortedItems(items: seq<Json>, b: Json)
    requires Canon(Arr(items)) == Canon(b)
    ensures b.Arr? && |b.items| == |items|
    ensures forall i :: 0 <= i < |items| ==> CanonItem(items[i]) == CanonItem(b.items[i])
  {
    var one, other := Canon(Arr(items)).items, Canon(b).items;
    assert |one| == |items| && |other| == |b.items|;
    forall i | 0 <= i < |items| ensures CanonItem(items[i]) == CanonItem(b.items[i]) {
      assert one[i] == CanonItem(items[i]) && other[i] == CanonItem(b.items[i]);
    }
  }

  lemma SameSortedItem(x: Json, y: Json)
    requires CanonItem(x) == CanonItem(y)
    ensures if x.Obj? then y.Obj? && Canon(x) == Canon(y) else x == y
  {}

  lemma SortedElements(ms: seq<Member>)
    ensures forall m :: m in SortMembers(CanonMembers(ms)) <==> m in CanonMembers(ms)
  {
    StableSortSorts(CanonMembers(ms), NameOf);
    SameElements(SortMembers(CanonMembers(ms)), CanonMembers(ms));
  }

  lemma {:induction false} SameIsCanonEqual(a: Json, b: Json)
    requires Distinct(a) && Distinct(b) && Covered(a) && SameDoc(a, b)
    ensures Canon(a) == Canon(b)
  {
    match a {
      case Obj(ms) =>
        var ca, cb := CanonMembers(ms), CanonMembers(b.members);
        forall i | 0 <= i < |ms| ensures ca[i] in cb {
          assert HasMatch(ms[i], b.members);
          var j :| 0 <= j < |b.members| && b.members[j].name == ms[i].name && SameDoc(ms[i].value, b.members[j].value);
          SameIsCanonEqual(ms[i].value, b.members[j].value);
          assert cb[j] == ca[i];
        }
        forall j | 0 <= j < |b.members| ensures cb[j] in ca {
          assert IsMatched(ms, b.members[j]);
          var i :| 0 <= i < |ms| && ms[i].name == b.members[j].name && SameDoc(ms[i].value, b.members[j].value);
          SameIsCanonEqual(ms[i].value, b.members[j].value);
          assert ca[i] == cb[j];
        }
        assert forall m :: m in ca <==> m in cb;
        SortedElements(ms);
        SortedElements(b.members);
        CanonIsStrict(ms);
        CanonIsStrict(b.members);
        StrictlySortedIsUnique(SortMembers(ca), SortMembers(cb));
      case Arr(items) =>
        forall i | 0 <= i < |items| ensures CanonItem(items[i]) == CanonItem(b.items[i]) {
          if items[i].Arr? {
            RigidIsAlone(items[i], b.items[i]);
          } else {
            SameIsCanonEqual(items[i], b.items[i]);
          }
        }
      case _ =>
    }
  }

  lemma CanonIsStrict(ms: seq<Member>)
    requires UniqueNames(ms)
    ensures StrictlySorted(SortMembers(CanonMembers(ms)))
  {
    StableSortSorts(CanonMembers(ms), NameOf);
    UniqueKeysPermute(CanonMembers(ms), SortMembers(CanonMembers(ms)), NameOf);
    SortedUniqueIsStrict(SortMembers(CanonMembers(ms)));
  }

  /** Sorted documents are equal exactly when the documents differ only in member order. */
  lemma CanonEqualIff(a: Json, b: Json)
    requires Distinct(a) && Distinct(b) && Covered(a)
    ensures Canon(a) == Canon(b) <==> SameDoc(a, b)
  {
    if Canon(a) == Canon(b) { CanonEqualIsSame(a, b); }
    if SameDoc(a, b) { SameIsCanonEqual(a, b); }
  }

  // ---------------------------------------------------------------- where the sort does not reach

  /** Anything not rigid can be written another way. */
  lemma {:induction false} Rewritten(v: Json) returns (w: Json)
    requires Distinct(v) && !Rigid(v)
    ensures Distinct(w) && SameDoc(v, w) && w != v
  {
    match v {
      case Obj(ms) =>
        if |ms| >= 2 {
          w := Swapped(ms);
        } else {
          var x := Rewritten(ms[0].value);
          w := MemberReplaced(ms, 0, x);
        }
      case Arr(items) =>
        var k :| 0 <= k < |items| && !Rigid(items[k]);
        var x := Rewritten(items[k]);
        w := ItemReplaced(items, k, x);
      case _ =>
        w := v;
    }
  }

  /** The first two members change places. */
  function Swap(ms: seq<Member>): (r: seq<Member>)
    requires |ms| >= 2
  {
    [ms[1], ms[0]] + ms[2..]
  }

  function SwapIndex(i: nat): (j: nat)
  {
    if i == 0 then 1 else if i == 1 then 0 else i
  }

  lemma SwapAt(ms: seq<Member>, i: nat)
    requires |ms| >= 2 && i < |ms|
    ensures SwapIndex(i) < |ms| && Swap(ms)[SwapIndex(i)] == ms[i] && ms[SwapIndex(i)] == Swap(ms)[i]
  {}

  lemma Swapped(ms: seq<Member>) returns (w: Json)
    requires |ms| >= 2 && Distinct(Obj(ms))
    ensures Distinct(w) && SameDoc(Obj(ms), w) && w != Obj(ms)
  {
    w := Obj(Swap(ms));
    SwappedDistinct(ms);
    SwappedMatches(ms);
    assert ms[0].name != ms[1].name;
    assert w.members[0] != ms[0];
  }

  lemma SwappedMatches(ms: seq<Member>)
    requires |ms| >= 2
    ensures SameDoc(Obj(ms), Obj(Swap(ms)))
  {
    forall i | 0 <= i < |ms| ensures HasMatch(ms[i], Swap(ms)) && IsMatched(ms, Swap(ms)[i]) {
      SwapAt(ms, i);
      SameDocReflexive(ms[i].value);
      SameDocReflexive(ms[SwapIndex(i)].value);
    }
  }

  lemma SwappedDistinct(ms: seq<Member>)
    requires |ms| >= 2 && Distinct(Obj(ms))
    ensures Distinct(Obj(Swap(ms)))
  {
    var ns := Swap(ms);
    forall i, j | 0 <= i < j < |ns| ensures ns[i].name != ns[j].name {
      SwapAt(ms, i);
      SwapAt(ms, j);
    }
    forall i | 0 <= i < |ns| ensures Distinct(ns[i].value) {
      SwapAt(ms, i);
    }
  }

  lemma ItemReplaced(items: seq<Json>, k: nat, x: Json) returns (w: Json)
    requires k < |items| && Distinct(Arr(items)) && Distinct(x) && SameDoc(items[k], x)
    ensures w == Arr(items[k := x]) && Distinct(w) && SameDoc(Arr(items), w)
  {
    w := Arr(items[k := x]);
    forall i | 0 <= i < |items| ensures SameDoc(items[i], w.items[i]) {
      SameDocReflexive(items[i]);
    }
  }

  lemma MemberReplaced(ms: seq<Member>, k: nat, x: Json) returns (w: Json)
    requires k < |ms| && Distinct(Obj(ms)) && Distinct(x) && SameDoc(ms[k].value, x)
    ensures w == Obj(ms[k := Member(ms[k].name, x)]) && Distinct(w) && SameDoc(Obj(ms), w)
  {
    var ns := ms[k := Member(ms[k].name, x)];
    w := Obj(ns);
    forall i | 0 <= i < |ms|
      ensures ns[i].name == ms[i].name && SameDoc(ms[i].value, ns[i].value) && Distinct(ns[i].value)
    {
      SameDocReflexive(ms[i].value);
    }
    SamePlaces(ms, ns);
  }

  lemma SamePlaces(ms: seq<Member>, ns: seq<Member>)
    requires |ms| == |ns| && UniqueNames(ms)
    requires forall i :: 0 <= i < |ms| ==> ns[i].name == ms[i].name && SameDoc(ms[i].value, ns[i].value)
    ensures UniqueNames(ns) && SameDoc(Obj(ms), Obj(ns))
  {
    forall i | 0 <= i < |ms| ensures HasMatch(ms[i], ns) && IsMatched(ms, ns[i]) {}
  }

  /** A document the sort does not cover has another order that sorts differently. */
  lemma {:induction false} UncoveredDiffers(a: Json) returns (b: Json)
    requires Distinct(a) && !Covered(a)
    ensures Distinct(b) && SameDoc(a, b) && Canon(b) != Canon(a)
  {
    match a {
      case Obj(ms) =>
        var k :| 0 <= k < |ms| && !Covered(ms[k].value);
        var x := UncoveredDiffers(ms[k].value);
        b := MemberReplaced(ms, k, x);
        FindIsTheMember(ms, k);
        FindIsTheMember(b.members, k);
        FindInCanon(ms, ms[k].name);
        FindInCanon(b.members, ms[k].name);
      case Arr(items) =>
        var k :| 0 <= k < |items| && !CoveredItem(items[k]);
        var x;
        if items[k].Arr? {
          x := Rewritten(items[k]);
        } else {
          x := UncoveredDiffers(items[k]);
        }
        b := ItemReplaced(items, k, x);
        assert Canon(a).items[k] == CanonItem(items[k]) && Canon(b).items[k] == CanonItem(x);
      case _ =>
        b := a;
    }
  }

  /**
    Sorting is a canonical form for a document, in that every other order of its
    members sorts to the same result, if and only if the sort covers it.
   */
  lemma CanonicalIff(a: Json)
    requires Distinct(a)
    ensures (forall b :: Distinct(b) && SameDoc(a, b) ==> Canon(b) == Canon(a)) <==> Covered(a)
  {
    if Covered(a) {
      forall b | Distinct(b) && SameDoc(a, b) ensures Canon(b) == Canon(a) { SameIsCanonEqual(a, b); }
    } else {
      var b := UncoveredDiffers(a);
    }
  }
}
