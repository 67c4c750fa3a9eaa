/**
  In-place sorting of JSON keys (common.shared/json_helper.cpp) and the lookups
  it must preserve (common.shared/json_unserialize_helpers.h). Documents are
  rapidjson values: a number is an integer within 64 bits or a double.
 */
module JsonSort {
  import opened Sequences
  import opened Text
  import opened Sorting

  datatype Member = Member(name: string, value: Json)

  datatype Json =
    | Null
    | Bool(b: bool)
    | Int(i: int)
    | Double(d: real)
    | Str(s: string)
    | Arr(items: seq<Json>)
    | Obj(members: seq<Member>)

  // ---------------------------------------------------------------- lookups

  /** `FindMember`: the value of the first member with the name. */
  function Find(ms: seq<Member>, name: string): (r: Option<Json>)
  {
    if ms == [] then None
    else if ms[0].name == name then Some(ms[0].value)
    else Find(ms[1..], name)
  }

  /** The types `get_value` is specialised for; both string types read alike. */
  datatype Kind = AsString | AsInt | AsUint | AsInt64 | AsUint64 | AsDouble | AsBool

  /** What `get_value<T>` makes of a member's value. */
  function Read(v: Json, kind: Kind): (r: Option<Json>)
  {
    match kind
    case AsString => if v.Str? then Some(v) else None
    case AsInt => if v.Int? && -0x8000_0000 <= v.i < 0x8000_0000 then Some(v) else None
    case AsUint => if v.Int? && 0 <= v.i < 0x1_0000_0000 then Some(v) else None
    case AsInt64 => if v.Int? && -0x8000_0000_0000_0000 <= v.i < 0x8000_0000_0000_0000 then Some(v) else None
    case AsUint64 => if v.Int? && 0 <= v.i < 0x1_0000_0000_0000_0000 then Some(v) else None
    case AsDouble => if v.Double? then Some(v) else None
    case AsBool =>
      if v.Bool? then Some(v)
      else if v.Int? && -0x8000_0000 <= v.i < 0x1_0000_0000 then Some(Bool(v.i != 0))
      else None
  }

  /** `get_value<T>(node, name)`. */
  function GetValue(node: Json, name: string, kind: Kind): (r: Option<Json>)
  {
    if !node.Obj? then None
    else match Find(node.members, name)
      case None => None
      case Some(v) => Read(v, kind)
  }

  datatype Hop = Key(name: string) | At(index: nat)

  /** One step into a document: a member by name or an array element by position. */
  function Step(v: Json, hop: Hop): (r: Option<Json>)
  {
    match hop
    case Key(name) => if v.Obj? then Find(v.members, name) else None
    case At(i) => if v.Arr? && i < |v.items| then Some(v.items[i]) else None
  }

  /** The node at the end of a path. */
  function Resolve(v: Json, path: seq<Hop>): (r: Option<Json>)
    decreases |path|
  {
    if path == [] then Some(v)
    else match Step(v, path[0])
      case None => None
      case Some(w) => Resolve(w, path[1..])
  }

  function GetAt(v: Json, path: seq<Hop>, name: string, kind: Kind): (r: Option<Json>)
  {
    match Resolve(v, path)
    case None => None
    case Some(node) => GetValue(node, name, kind)
  }

  /** The member found is the first of that name. */
  lemma {:induction false} FindIsFirst(ms: seq<Member>, name: string) returns (k: nat)
    requires exists m :: m in ms && m.name == name
    ensures k < |ms| && ms[k].name == name && (forall j :: 0 <= j < k ==> ms[j].name != name)
    ensures Find(ms, name) == Some(ms[k].value)
  {
    if ms[0].name == name {
      k := 0;
    } else {
      var m :| m in ms && m.name == name;
      assert m in ms[1..];
      var j := FindIsFirst(ms[1..], name);
      k := j + 1;
    }
  }

  /** A reading is the node itself, but for numbers read as truth values. */
  lemma ReadIsTheNode(v: Json, kind: Kind)
    ensures Read(v, kind).Some? && !(kind == AsBool && v.Int?) ==> Read(v, kind) == Some(v)
    ensures Read(v, AsBool).Some? && v.Int? ==> Read(v, AsBool) == Some(Bool(v.i != 0))
  {}

  /** Strings, doubles and truth values are read as what they are and as nothing else. */
  lemma ReadByType(v: Json, kind: Kind)
    requires v.Str? || v.Double? || v.Bool?
    ensures Read(v, kind) ==
      if (v.Str? && kind == AsString) || (v.Double? && kind == AsDouble) || (v.Bool? && kind == AsBool)
      then Some(v) else None
  {}

  /** An integer is read as every integer type that can hold it, as `bool` when 32 bits can, and as nothing else. */
  lemma ReadOfInt(i: int, kind: Kind)
    ensures var (low, high) := match kind
        case AsInt => (-0x8000_0000, 0x7fff_ffff)
        case AsUint => (0, 0xffff_ffff)
        case AsInt64 => (-0x8000_0000_0000_0000, 0x7fff_ffff_ffff_ffff)
        case AsUint64 => (0, 0xffff_ffff_ffff_ffff)
        case AsBool => (-0x8000_0000, 0xffff_ffff)
        case _ => (1, 0);
      Read(Int(i), kind).Some? <==> low <= i <= high
  {}

  /** A lookup by path goes one step, then on from there. */
  lemma GetAtStep(v: Json, hop: Hop, path: seq<Hop>, name: string, kind: Kind)
    ensures GetAt(v, [], name, kind) == GetValue(v, name, kind)
    ensures GetAt(v, [hop] + path, name, kind)
         == match Step(v, hop) case None => None case Some(w) => GetAt(w, path, name, kind)
  {
    assert ([hop] + path)[0] == hop && ([hop] + path)[1..] == path;
  }

  /** A step into an array is by position, a step into an object with unique names by name. */
  lemma StepIsTheChild(items: seq<Json>, ms: seq<Member>, i: nat)
    ensures i < |items| ==> Step(Arr(items), At(i)) == Some(items[i])
    ensures i >= |items| ==> Step(Arr(items), At(i)) == None
    ensures i < |ms| && UniqueNames(ms) ==> Step(Obj(ms), Key(ms[i].name)) == Some(ms[i].value)
  {
    if i < |ms| && UniqueNames(ms) { FindIsTheMember(ms, i); }
  }

  /** `get_value` of a member that is the only one of its name reads that member. */
  lemma GetValueReadsTheMember(ms: seq<Member>, i: nat, kind: Kind)
    requires UniqueNames(ms) && i < |ms|
    ensures GetValue(Obj(ms), ms[i].name, kind) == Read(ms[i].value, kind)
  {
    FindIsTheMember(ms, i);
  }

  // ---------------------------------------------------------------- sorting members

  function NameOf(m: Member): (s: string)
  {
    m.name
  }

  ghost predicate UniqueNames(ms: seq<Member>) {
    UniqueKeys(ms, NameOf)
  }

  /** One sort of the members. When names are unique it is the only one. */
  function SortMembers(ms: seq<Member>): (r: seq<Member>)
  {
    StableSort(ms, NameOf)
  }

  ghost predicate StrictlySorted(ms: seq<Member>) {
    forall i, j :: 0 <= i < j < |ms| ==> Less(ms[i].name, ms[j].name)
  }

  lemma SortedUniqueIsStrict(ms: seq<Member>)
    requires SortedBy(ms, NameOf) && UniqueNames(ms)
    ensures StrictlySorted(ms)
  {
    forall i, j | 0 <= i < j < |ms| ensures Less(ms[i].name, ms[j].name) {
      LessTotal(ms[i].name, ms[j].name);
    }
  }

  /** Strictly sorted lists with the same members are the same list. */
  lemma {:induction false} StrictlySortedIsUnique(a: seq<Member>, b: seq<Member>)
    requires StrictlySorted(a) && StrictlySorted(b) && forall m :: m in a <==> m in b
    ensures a == b
  {
    if a != [] || b != [] {
      assert (a != [] ==> a[0] in a) && (b != [] ==> b[0] in b);
      assert a[0] in b && b[0] in a;
      if a[0] != b[0] {
        LessAsymmetric(a[0].name, b[0].name);
        assert false;
      }
      LessIrreflexive(a[0].name);
      forall m ensures m in a[1..] <==> m in b[1..] {
        assert m in a <==> m == a[0] || m in a[1..];
        assert m in b <==> m == b[0] || m in b[1..];
      }
      StrictlySortedIsUnique(a[1..], b[1..]);
      assert a == [a[0]] + a[1..] && b == [b[0]] + b[1..];
    }
  }

  /** When names are unique, `std::sort` has one possible result. */
  lemma SortIsUnique(r: seq<Member>, ms: seq<Member>)
    requires UniqueNames(ms) && IsSortOf(r, ms, NameOf)
    ensures r == SortMembers(ms)
  {
    StableSortSorts(ms, NameOf);
    var t := SortMembers(ms);
    UniqueKeysPermute(ms, r, NameOf);
    UniqueKeysPermute(ms, t, NameOf);
    SortedUniqueIsStrict(r);
    SortedUniqueIsStrict(t);
    SameElements(r, ms);
    SameElements(t, ms);
    StrictlySortedIsUnique(r, t);
  }

  // ---------------------------------------------------------------- sorting documents

  /**
    A document sorted: members of objects in order, values of members sorted in
    turn. An array below a member has its object elements sorted; an array that
    is itself an element of an array is left alone.
   */
  function Canon(v: Json): (r: Json)
    decreases v, 0
  {
    match v
    case Obj(ms) => Obj(SortMembers(CanonMembers(ms)))
    case Arr(items) => Arr(seq(|items|, i requires 0 <= i < |items| => CanonItem(items[i])))
    case _ => v
  }

  /** An array element: only objects are sorted. */
  function CanonItem(v: Json): (r: Json)
    decreases v, 1
  {
    if v.Obj? then Canon(v) else v
  }

  function CanonMembers(ms: seq<Member>): (r: seq<Member>)
    decreases ms, 0
  {
    seq(|ms|, i requires 0 <= i < |ms| => Member(ms[i].name, Canon(ms[i].value)))
  }

  /** Names are unique in every object of the document. */
  ghost predicate Distinct(v: Json) {
    match v
    case Obj(ms) => UniqueNames(ms) && forall i :: 0 <= i < |ms| ==> Distinct(ms[i].value)
    case Arr(items) => forall i :: 0 <= i < |items| ==> Distinct(items[i])
    case _ => true
  }

  /**
    What the sort may make of a document, repeated names or not: some sorted
    permutation of the members of an object, with the value of each sorted in turn.
   */
  ghost predicate SortsTo(v: Json, r: Json)
    decreases v, 0
  {
    match v
    case Obj(ms) =>
      r.Obj? && exists order: seq<Member> :: IsSortOf(order, ms, NameOf) && MembersSortTo(order, ms, r.members)
    case Arr(items) =>
      r.Arr? && |r.items| == |items| && forall i :: 0 <= i < |items| ==> ItemSortsTo(items[i], r.items[i])
    case _ => r == v
  }

  ghost predicate ItemSortsTo(v: Json, r: Json)
    decreases v, 1
  {
    if v.Obj? then SortsTo(v, r) else r == v
  }

  ghost predicate MembersSortTo(order: seq<Member>, ms: seq<Member>, rs: seq<Member>)
    decreases ms, 1
  {
    |rs| == |order| && forall k :: 0 <= k < |order| ==> MemberSortsTo(order[k], ms, rs[k])
  }

  /** `m`, one of `ms`, came out as `r`. */
  ghost predicate MemberSortsTo(m: Member, ms: seq<Member>, r: Member)
    decreases ms, 0
  {
    r.name == m.name && exists j :: 0 <= j < |ms| && ms[j] == m && SortsTo(ms[j].value, r.value)
  }

  /** `sort_json_keys_by_name`; rapidjson demands an object. */
  method SortKeys(node: Json) returns (r: Json)
    requires node.Obj?
    ensures SortsTo(node, r)
    ensures r.Obj? && SortedBy(r.members, NameOf)
    ensures Distinct(node) ==> r == Canon(node)
    decreases node, 1
  {
    var ms := StdSort(node.members, NameOf);
    SameElements(ms, node.members);
    var out: seq<Member> := [];
    for i := 0 to |ms|
      invariant |out| == i && forall k :: 0 <= k < i ==> MemberSortsTo(ms[k], node.members, out[k])
    {
      assert ms[i] in node.members;
      var j :| 0 <= j < |node.members| && node.members[j] == ms[i];
      var value := SortValue(node.members[j].value);
      out := out + [Member(ms[i].name, value)];
    }
    r := Obj(out);
    assert MembersSortTo(ms, node.members, out);
    if Distinct(node) { SortsToIsCanon(node, r); }
  }

  /** The value of a member, in the loop of `sort_json_keys_by_name`. */
  method SortValue(v: Json) returns (r: Json)
    ensures SortsTo(v, r)
    ensures Distinct(v) ==> r == Canon(v)
    decreases v, 2
  {
    if v.Obj? {
      r := SortKeys(v);
    } else if v.Arr? {
      var out: seq<Json> := [];
      for i := 0 to |v.items|
        invariant |out| == i && forall k :: 0 <= k < i ==> ItemSortsTo(v.items[k], out[k])
      {
        var item := v.items[i];
        if item.Obj? {
          item := SortKeys(item);
        }
        out := out + [item];
      }
      r := Arr(out);
    } else {
      r := v;
    }
    if Distinct(v) { SortsToIsCanon(v, r); }
  }

  /** Without repeated names the sort has one result. */
  lemma {:induction false} SortsToIsCanon(v: Json, r: Json)
    requires Distinct(v) && SortsTo(v, r)
    ensures r == Canon(v)
  {
    match v {
      case Obj(ms) =>
        var order: seq<Member> :| IsSortOf(order, ms, NameOf) && MembersSortTo(order, ms, r.members);
        forall k | 0 <= k < |order| ensures r.members[k] == CanonMembers(order)[k] {
          assert MemberSortsTo(order[k], ms, r.members[k]);
          var j :| 0 <= j < |ms| && ms[j] == order[k] && SortsTo(ms[j].value, r.members[k].value);
          SortsToIsCanon(ms[j].value, r.members[k].value);
        }
        assert r.members == CanonMembers(order);
        SortCommutes(order, ms);
      case Arr(items) =>
        forall i | 0 <= i < |items| ensures r.items[i] == Canon(v).items[i] {
          assert ItemSortsTo(items[i], r.items[i]);
          if items[i].Obj? { SortsToIsCanon(items[i], r.items[i]); }
        }
        assert r.items == Canon(v).items;
      case _ =>
    }
  }

  function Names(ms: seq<Member>): (r: seq<string>)
  {
    seq(|ms|, i requires 0 <= i < |ms| => ms[i].name)
  }

  /** The names of an object come out as they went in, repetitions included. */
  lemma SortKeepsNames(ms: seq<Member>, r: Json)
    requires SortsTo(Obj(ms), r)
    ensures r.Obj? && multiset(Names(r.members)) == multiset(Names(ms))
  {
    var order: seq<Member> :| IsSortOf(order, ms, NameOf) && MembersSortTo(order, ms, r.members);
    forall k | 0 <= k < |order| ensures r.members[k].name == order[k].name {
      assert MemberSortsTo(order[k], ms, r.members[k]);
    }
    assert Names(r.members) == Names(order);
    PermutedNames(order, ms);
  }

  lemma {:induction false} PermutedNames(a: seq<Member>, b: seq<Member>)
    requires multiset(a) == multiset(b)
    ensures multiset(Names(a)) == multiset(Names(b))
  {
    if a == [] {
      assert |b| == |multiset(b)| == |multiset(a)| == 0;
    } else {
      assert a[0] in multiset(b);
      var j :| 0 <= j < |b| && b[j] == a[0];
      SameRest(a, 0, b, j);
      PermutedNames(RemoveAt(a, 0), RemoveAt(b, j));
      NamesTakenOut(a, 0);
      NamesTakenOut(b, j);
    }
  }

  lemma NamesTakenOut(ms: seq<Member>, i: nat)
    requires i < |ms|
    ensures multiset(Names(ms)) == multiset(Names(RemoveAt(ms, i))) + multiset{ms[i].name}
  {
    assert Names(RemoveAt(ms, i)) == RemoveAt(Names(ms), i);
    TakenOut(Names(ms), i);
  }

  /** Sorting the members and then their values is the same as the other way round. */
  lemma SortCommutes(sorted: seq<Member>, ms: seq<Member>)
    requires IsSortOf(sorted, ms, NameOf) && UniqueNames(ms)
    ensures CanonMembers(sorted) == SortMembers(CanonMembers(ms))
  {
    UniqueKeysPermute(ms, sorted, NameOf);
    SortedUniqueIsStrict(sorted);
    var a, b := CanonMembers(sorted), SortMembers(CanonMembers(ms));
    StableSortSorts(CanonMembers(ms), NameOf);
    UniqueKeysPermute(CanonMembers(ms), b, NameOf);
    SortedUniqueIsStrict(b);
    SameElements(sorted, ms);
    SameElements(b, CanonMembers(ms));
    forall m ensures m in a <==> m in b {
      InCanonMembers(sorted, ms, m);
      InCanonMembers(ms, sorted, m);
    }
    StrictlySortedIsUnique(a, b);
  }

  lemma InCanonMembers(xs: seq<Member>, ys: seq<Member>, m: Member)
    requires forall x :: x in xs ==> x in ys
    ensures m in CanonMembers(xs) ==> m in CanonMembers(ys)
  {
    if m in CanonMembers(xs) {
      var i :| 0 <= i < |xs| && CanonMembers(xs)[i] == m;
      assert xs[i] in ys;
      var j :| 0 <= j < |ys| && ys[j] == xs[i];
      assert CanonMembers(ys)[j] == m;
    }
  }

  // ---------------------------------------------------------------- lookups are preserved

  lemma {:induction false} FindIsTheMember(ms: seq<Member>, k: nat)
    requires UniqueNames(ms) && k < |ms|
    ensures Find(ms, ms[k].name) == Some(ms[k].value)
  {
    if k > 0 {
      FindIsTheMember(ms[1..], k - 1);
    }
  }

  lemma {:induction false} FindNothing(ms: seq<Member>, name: string)
    ensures Find(ms, name) == None <==> forall k :: 0 <= k < |ms| ==> ms[k].name != name
  {
    if ms != [] {
      FindNothing(ms[1..], name);
      assert forall k :: 1 <= k < |ms| ==> ms[k] == ms[1..][k - 1];
    }
  }

  /** In the sorted object a name finds the sorted value it found before, or still nothing. */
  lemma FindInCanon(ms: seq<Member>, name: string)
    requires UniqueNames(ms)
    ensures Find(SortMembers(CanonMembers(ms)), name)
         == match Find(ms, name) case None => None case Some(v) => Some(Canon(v))
  {
    var cs := CanonMembers(ms);
    var t := SortMembers(cs);
    StableSortSorts(cs, NameOf);
    UniqueKeysPermute(cs, t, NameOf);
    SameElements(t, cs);
    FindNothing(ms, name);
    FindNothing(t, name);
    if k :| 0 <= k < |ms| && ms[k].name == name {
      FindIsTheMember(ms, k);
      assert cs[k] in t;
      var j :| 0 <= j < |t| && t[j] == cs[k];
      FindIsTheMember(t, j);
    } else {
      forall j | 0 <= j < |t| ensures t[j].name != name {
        assert t[j] in cs;
      }
    }
  }

  /** The same node of a document before and after sorting. */
  ghost predicate Alike(v: Json, w: Json) {
    w == v || w == Canon(v)
  }

  lemma StepAlike(v: Json, w: Json, hop: Hop)
    requires Distinct(v) && Alike(v, w)
    ensures Step(v, hop).None? <==> Step(w, hop).None?
    ensures Step(v, hop).Some? ==> Distinct(Step(v, hop).value) && Alike(Step(v, hop).value, Step(w, hop).value)
  {
    if v.Obj? && hop.Key? {
      FindInCanon(v.members, hop.name);
      FindNothing(v.members, hop.name);
      if k :| 0 <= k < |v.members| && v.members[k].name == hop.name {
        FindIsTheMember(v.members, k);
      }
    } else if v.Arr? && hop.At? && hop.index < |v.items| {
      var item := v.items[hop.index];
      assert Distinct(item) && Step(v, hop) == Some(item);
      assert Step(w, hop) == Some(if w == v then item else CanonItem(item));
    }
  }

  /** Sorting changes no lookup: every `get_value` on every path reads what it read before. */
  lemma {:induction false} SortKeepsLookups(v: Json, w: Json, path: seq<Hop>, name: string, kind: Kind)
    requires Distinct(v) && Alike(v, w)
    ensures GetAt(w, path, name, kind) == GetAt(v, path, name, kind)
    decreases |path|
  {
    if path == [] {
      if v.Obj? {
        FindInCanon(v.members, name);
      }
    } else {
      StepAlike(v, w, path[0]);
      if Step(v, path[0]).Some? {
        SortKeepsLookups(Step(v, path[0]).value, Step(w, path[0]).value, path[1..], name, kind);
      }
    }
  }

  /**
    With repeated names the sort may change lookups: whatever order `std::sort`
    gives, a name is found with the same value if and only if all members of
    that name have equal values.
   */
  lemma RepeatedNameIsSafeIff(ms: seq<Member>, name: string)
    ensures (forall r :: IsSortOf(r, ms, NameOf) ==> Find(r, name) == Find(ms, name))
       <==> (forall a, b :: a in ms && b in ms && a.name == name && b.name == name ==> a.value == b.value)
  {
    if forall a, b :: a in ms && b in ms && a.name == name && b.name == name ==> a.value == b.value {
      forall r | IsSortOf(r, ms, NameOf) ensures Find(r, name) == Find(ms, name) {
        SameElements(r, ms);
        FoundIsMember(r, name);
        FoundIsMember(ms, name);
      }
    } else {
      var a, b :| a in ms && b in ms && a.name == name && b.name == name && a.value != b.value;
      var ra := SortWithFirst(ms, a);
      var rb := SortWithFirst(ms, b);
    }
  }

  /** A stable sort finds what was found before. */
  lemma {:induction false} StableSortFinds(ms: seq<Member>, name: string)
    ensures Find(SortMembers(ms), name) == Find(ms, name)
  {
    if ms != [] {
      var front, last := ms[..|ms| - 1], ms[|ms| - 1];
      StableSortFinds(front, name);
      StableSortSorts(front, NameOf);
      PlaceFinds(SortMembers(front), last, name);
      AppendFinds(front, last, name);
      assert ms == front + [last];
    }
  }

  lemma {:induction false} PlaceFinds(ms: seq<Member>, m: Member, name: string)
    requires SortedBy(ms, NameOf)
    ensures Find(Place(ms, m, NameOf), name)
         == if Find(ms, name).Some? then Find(ms, name) else if m.name == name then Some(m.value) else None
  {
    if ms == [] {
    } else if Less(m.name, ms[0].name) {
      assert ([m] + ms)[1..] == ms;
      if m.name == name {
        forall k | 0 <= k < |ms| ensures ms[k].name != name {
          assert k == 0 || !Less(ms[k].name, ms[0].name);
          LessIrreflexive(name);
        }
        FindNothing(ms, name);
      }
    } else {
      PlaceFinds(ms[1..], m, name);
      assert ([ms[0]] + Place(ms[1..], m, NameOf))[1..] == Place(ms[1..], m, NameOf);
    }
  }

  lemma {:induction false} AppendFinds(ms: seq<Member>, m: Member, name: string)
    ensures Find(ms + [m], name)
         == if Find(ms, name).Some? then Find(ms, name) else if m.name == name then Some(m.value) else None
  {
    if ms == [] {
      assert [m][1..] == [];
    } else {
      AppendFinds(ms[1..], m, name);
      assert (ms + [m])[1..] == ms[1..] + [m];
    }
  }

  /** Any of the members of a name can come out first. */
  lemma SortWithFirst(ms: seq<Member>, a: Member) returns (r: seq<Member>)
    requires a in ms
    ensures IsSortOf(r, ms, NameOf) && Find(r, a.name) == Some(a.value)
  {
    var i :| 0 <= i < |ms| && ms[i] == a;
    var rest := ms[..i] + ms[i + 1..];
    assert ms == ms[..i] + [a] + ms[i + 1..];
    r := SortMembers([a] + rest);
    StableSortSorts([a] + rest, NameOf);
    StableSortFinds([a] + rest, a.name);
  }

  lemma {:induction false} FoundIsMember(ms: seq<Member>, name: string)
    ensures Find(ms, name).Some? <==> exists m :: m in ms && m.name == name
    ensures Find(ms, name).Some? ==> Member(name, Find(ms, name).value) in ms
  {
    if ms != [] {
      FoundIsMember(ms[1..], name);
      assert ms == [ms[0]] + ms[1..];
      assert ms[0] == Member(ms[0].name, ms[0].value);
    }
  }
}
