/**
  The value graph in motion. `Graph` is the heap of reference-counted objects
  with the `ifptr` variables that point into it (corelib/ifptr.h); its methods
  are the operations of corelib/collection.cpp and of `coll_helper`
  (corelib/collection_helper.h).

  `raw` holds the references owned by plain pointers: those a caller got from a
  create function or an addref, and those a running destructor has taken over
  from the slots of the object it destroys.
 */
module ValueGraph {
  import opened Sequences
  import opened RefCounting

  // ---------------------------------------------------------------- collections by name

  function FindEntry(es: seq<Entry>, name: string): (r: Option<nat>)
    ensures r.Some? ==> r.value < |es| && es[r.value].name == name
    ensures r.None? <==> forall e :: e in es ==> e.name != name
  {
    if es == [] then None
    else if es[0].name == name then Some(0)
    else match FindEntry(es[1..], name)
      case None => None
      case Some(i) => Some(i + 1)
  }

  /** What `get_value` returns: a borrowed pointer, or null. */
  function Lookup(es: seq<Entry>, name: string): (r: Option<Id>)
  {
    match FindEntry(es, name)
    case None => None
    case Some(i) => Some(es[i].value)
  }

  /** The entries left once `name` is erased. */
  function Without(es: seq<Entry>, name: string): (r: seq<Entry>)
  {
    match FindEntry(es, name)
    case None => es
    case Some(i) => RemoveAt(es, i)
  }

  predicate UniqueNames(es: seq<Entry>) {
    forall i, j :: 0 <= i < j < |es| ==> es[i].name != es[j].name
  }

  /** Storing under a name makes it the one entry of that name and leaves the others. */
  lemma StoreThenLookup(es: seq<Entry>, name: string, v: Id, other: string)
    requires UniqueNames(es)
    ensures UniqueNames(Without(es, name) + [Entry(name, v)])
    ensures Lookup(Without(es, name) + [Entry(name, v)], other) == if other == name then Some(v) else Lookup(es, other)
  {
    var rest := Without(es, name);
    var now := rest + [Entry(name, v)];
    WithoutUnique(es, name);
    if other == name {
      UniqueLookup(now, name, |rest|);
    } else {
      match FindEntry(es, other) {
        case None =>
          assert forall e :: e in now ==> e in es || e.name == name;
        case Some(j) =>
          var k := MovedTo(es, name, j);
          UniqueLookup(now, other, k);
      }
    }
  }

  lemma WithoutUnique(es: seq<Entry>, name: string)
    requires UniqueNames(es)
    ensures UniqueNames(Without(es, name)) && forall e :: e in Without(es, name) ==> e in es && e.name != name
  {
    var rest := Without(es, name);
    match FindEntry(es, name) {
      case None =>
      case Some(i) =>
        assert forall k :: 0 <= k < |rest| ==> rest[k] == es[if k < i then k else k + 1];
    }
  }

  /** Where an entry of another name ends up. */
  lemma MovedTo(es: seq<Entry>, name: string, j: nat) returns (k: nat)
    requires j < |es| && es[j].name != name
    ensures k < |Without(es, name)| && Without(es, name)[k] == es[j]
  {
    k := match FindEntry(es, name) case None => j case Some(i) => if j < i then j else j - 1;
  }

  lemma UniqueLookup(es: seq<Entry>, name: string, k: nat)
    requires UniqueNames(es) && k < |es| && es[k].name == name
    ensures Lookup(es, name) == Some(es[k].value)
  {
    assert es[k] in es;
  }

  lemma RemovedTarget(es: seq<Entry>, i: nat)
    requires i < |es|
    ensures multiset(EntryTargets(es)) == multiset(EntryTargets(RemoveAt(es, i))) + multiset{es[i].value}
  {
    var ts := EntryTargets(es);
    assert EntryTargets(RemoveAt(es, i)) == ts[..i] + ts[i + 1..];
    assert ts == ts[..i] + [ts[i]] + ts[i + 1..];
  }

  /** What `set_value` does to the names and to the slots of a collection. */
  lemma StoreFacts(es: seq<Entry>, name: string, v: Id)
    requires UniqueNames(es)
    ensures var rest := Without(es, name);
      && UniqueNames(rest) && UniqueNames(rest + [Entry(name, v)])
      && multiset(EntryTargets(rest + [Entry(name, v)])) == multiset(EntryTargets(rest)) + multiset{v}
      && match FindEntry(es, name)
         case None => rest == es
         case Some(i) => multiset(EntryTargets(es)) == multiset(EntryTargets(rest)) + multiset{es[i].value}
  {
    var rest := Without(es, name);
    StoreThenLookup(es, name, v, name);
    assert rest == (rest + [Entry(name, v)])[..|rest|];
    AddedTarget(rest, Entry(name, v));
    if i :| FindEntry(es, name) == Some(i) { RemovedTarget(es, i); }
  }

  lemma AddedTarget(es: seq<Entry>, e: Entry)
    ensures multiset(EntryTargets(es + [e])) == multiset(EntryTargets(es)) + multiset{e.value}
  {
    assert EntryTargets(es + [e]) == EntryTargets(es) + [e.value];
  }

  ghost predicate Named(cells: seq<Cell>) {
    forall x: Id :: IsLive(cells, x) && cells[x].node.Collection? ==> UniqueNames(cells[x].node.entries)
  }

  // ---------------------------------------------------------------- dropping and adding one slot

  /** The heap with the contents of object `x` replaced, counts untouched. */
  function Rewrite(cells: seq<Cell>, x: Id, node: Node): (r: seq<Cell>)
    requires IsLive(cells, x)
  {
    cells[x := Live(cells[x].count, node)]
  }

  function Recount(cells: seq<Cell>, x: Id, n: int): (r: seq<Cell>)
    requires IsLive(cells, x)
  {
    cells[x := Live(n, cells[x].node)]
  }

  /** The heap once `x` has new contents that hold `t`, which is counted. */
  function Link(cells: seq<Cell>, x: Id, node: Node, t: Id): (r: seq<Cell>)
    requires IsLive(cells, x) && IsLive(cells, t)
  {
    Rewrite(Recount(cells, t, cells[t].count + 1), x, node)
  }

  /** The conservation law, and unique names in every collection. */
  ghost predicate Sound(cells: seq<Cell>, refs: multiset<Id>) {
    Counted(cells, refs) && Named(cells)
  }

  /** A new object owns nothing yet. */
  predicate IsFresh(node: Node) {
    node == Value(Empty) || node == Collection([]) || node == Array([]) || node == Stream || node == Headers
  }

  predicate WellNamed(node: Node) {
    node.Collection? ==> UniqueNames(node.entries)
  }

  lemma CreateSound(cells: seq<Cell>, refs: multiset<Id>, node: Node)
    requires Sound(cells, refs) && IsFresh(node)
    ensures Sound(cells + [Live(1, node)], refs + multiset{|cells|})
  {
    var now := cells + [Live(1, node)];
    forall y: Id ensures LawAt(now, refs + multiset{|cells|}, y) {
      assert LawAt(cells, refs, y);
      SlotAppend(cells, Live(1, node), y);
    }
  }

  lemma AddRefSound(cells: seq<Cell>, refs: multiset<Id>, x: Id)
    requires Sound(cells, refs) && IsLive(cells, x)
    ensures Sound(Recount(cells, x, cells[x].count + 1), refs + multiset{x})
  {
    var now := Recount(cells, x, cells[x].count + 1);
    forall y: Id ensures LawAt(now, refs + multiset{x}, y) {
      assert LawAt(cells, refs, y);
      SlotUpdate(cells, x, now[x], y);
    }
  }

  /** The law just before the object `x`, whose count has reached zero, is deleted. */
  ghost predicate Dying(cells: seq<Cell>, refs: multiset<Id>, x: Id) {
    && IsLive(cells, x) && cells[x].count == 0 && refs[x] == 0 && Slots(cells, x) == 0
    && Named(cells)
    && forall y: Id :: y != x ==> LawAt(cells, refs, y)
  }

  /** One reference to `x` less: the law holds still, or `x` is about to die. */
  lemma LowerCount(cells: seq<Cell>, refs: multiset<Id>, x: Id, keep: set<Id>)
    requires Sound(cells, refs + multiset{x}) && Supported(cells, refs, keep)
    ensures IsLive(cells, x)
    ensures var now := Recount(cells, x, cells[x].count - 1);
      && (if cells[x].count == 1 then Dying(now, refs, x) else Sound(now, refs))
      && Survives(cells, now) && LiveCount(now) == LiveCount(cells) && Supported(now, refs, keep)
  {
    assert LawAt(cells, refs + multiset{x}, x);
    var now := Recount(cells, x, cells[x].count - 1);
    forall y: Id ensures Slots(now, y) == Slots(cells, y) && (y != x ==> LawAt(now, refs, y)) {
      assert LawAt(cells, refs + multiset{x}, y);
      SlotUpdate(cells, x, now[x], y);
    }
    if cells[x].count != 1 { assert LawAt(now, refs, x); }
    LiveUpdate(cells, x, now[x]);
    SupportedAfter(cells, now, refs, refs, keep);
  }

  /** Freeing an object whose count is zero hands its slots to the running destructor. */
  lemma FreeSound(cells: seq<Cell>, refs: multiset<Id>, x: Id, keep: set<Id>)
    requires Dying(cells, refs, x) && Supported(cells, refs, keep)
    ensures var now := cells[x := Freed];
      && Sound(now, refs + multiset(Kids(cells[x].node)))
      && Survives(cells, now) && LiveCount(now) < LiveCount(cells) && Supported(now, refs, keep)
  {
    var now := cells[x := Freed];
    forall y: Id ensures LawAt(now, refs + multiset(Kids(cells[x].node)), y) {
      assert y != x ==> LawAt(cells, refs, y);
      SlotUpdate(cells, x, Freed, y);
    }
    LiveUpdate(cells, x, Freed);
    if x in keep {
      var h :| h in keep && Holds(cells, h, x);
      SlotCounts(cells, h, x);
    }
    SupportedAfter(cells, now, refs, refs, keep);
  }

  /** Rewriting one object, at one address: the slots it gains or loses are made up for by references. */
  lemma RewriteAt(cells: seq<Cell>, refs: multiset<Id>, x: Id, node: Node, more: multiset<Id>, y: Id)
    requires IsLive(cells, x) && LawAt(cells, refs, y)
    requires more[y] + multiset(Kids(node))[y] == refs[y] + multiset(Kids(cells[x].node))[y]
    ensures LawAt(Rewrite(cells, x, node), more, y)
  {
    SlotUpdate(cells, x, Live(cells[x].count, node), y);
  }

  lemma RewriteNamed(cells: seq<Cell>, x: Id, node: Node)
    requires IsLive(cells, x) && Named(cells) && WellNamed(node)
    ensures Named(Rewrite(cells, x, node)) && LiveSet(Rewrite(cells, x, node)) == LiveSet(cells)
  {}

  /** Rewriting an object to hold one slot less leaves that reference with the caller. */
  lemma UnlinkSound(cells: seq<Cell>, refs: multiset<Id>, x: Id, node: Node, t: Id)
    requires Sound(cells, refs) && IsLive(cells, x) && WellNamed(node)
    requires multiset(Kids(cells[x].node)) == multiset(Kids(node)) + multiset{t}
    ensures Sound(Rewrite(cells, x, node), refs + multiset{t})
  {
    RewriteNamed(cells, x, node);
    forall y: Id ensures LawAt(Rewrite(cells, x, node), refs + multiset{t}, y) {
      assert LawAt(cells, refs, y);
      RewriteAt(cells, refs, x, node, refs + multiset{t}, y);
    }
  }

  /** Rewriting an object to hold one slot more uses up a reference of the caller. */
  lemma LinkSound(cells: seq<Cell>, refs: multiset<Id>, x: Id, node: Node, t: Id)
    requires Sound(cells, refs + multiset{t}) && IsLive(cells, x) && WellNamed(node)
    requires multiset(Kids(node)) == multiset(Kids(cells[x].node)) + multiset{t}
    ensures Sound(Rewrite(cells, x, node), refs) && LiveSet(Rewrite(cells, x, node)) == LiveSet(cells)
  {
    RewriteNamed(cells, x, node);
    forall y: Id ensures LawAt(Rewrite(cells, x, node), refs, y) {
      assert LawAt(cells, refs + multiset{t}, y);
      RewriteAt(cells, refs + multiset{t}, x, node, refs, y);
    }
  }

  /** Moving one reference out of the plain owners and back. */
  lemma TakeOne(raw: multiset<Id>, owned: multiset<Id>, x: Id)
    requires x in raw
    ensures (raw + owned) - multiset{x} == (raw - multiset{x}) + owned
    ensures ((raw + owned) - multiset{x}) + multiset{x} == raw + owned
  {}

  lemma CancelOne(a: multiset<Id>, b: multiset<Id>, x: Id)
    requires a + multiset{x} == b + multiset{x}
    ensures a == b
  {
    assert a == (a + multiset{x}) - multiset{x};
    assert b == (b + multiset{x}) - multiset{x};
  }

  lemma Regroup(a: multiset<Id>, b: multiset<Id>, c: multiset<Id>)
    ensures a + (b + c) == (a + b) + c == (a + c) + b
  {}

  /** Rewriting without changing the slots keeps the law. */
  lemma RewriteSound(cells: seq<Cell>, refs: multiset<Id>, x: Id, node: Node)
    requires Sound(cells, refs) && IsLive(cells, x) && WellNamed(node)
    requires multiset(Kids(cells[x].node)) == multiset(Kids(node))
    ensures Sound(Rewrite(cells, x, node), refs) && LiveSet(Rewrite(cells, x, node)) == LiveSet(cells)
  {
    RewriteNamed(cells, x, node);
    forall y: Id ensures LawAt(Rewrite(cells, x, node), refs, y) {
      assert LawAt(cells, refs, y);
      RewriteAt(cells, refs, x, node, refs, y);
    }
  }

  lemma CountedKeepsAll(cells: seq<Cell>, refs: multiset<Id>)
    requires Counted(cells, refs)
    ensures Kept(cells, refs) == LiveSet(cells)
  {
    LiveIsSupported(cells, refs);
    KeptIsLargest(cells, refs);
    assert forall y :: y in Kept(cells, refs) ==> IsLive(cells, y);
  }

  lemma SupportedWiden(cells: seq<Cell>, refs: multiset<Id>, more: multiset<Id>, s: set<Id>)
    requires Supported(cells, refs, s) && refs <= more
    ensures Supported(cells, more, s)
  {}

  /** What a release leaves is what was reachable, when the graph had no cycle. */
  lemma ReleaseIsReachability(before: seq<Cell>, after: seq<Cell>, refs: multiset<Id>, x: Id)
    requires Sound(before, refs + multiset{x}) && Acyclic(before) && Survives(before, after)
    requires LiveSet(after) == Kept(before, refs)
    ensures Acyclic(after) && forall y: Id :: IsLive(after, y) <==> Reachable(before, refs, y)
  {
    CountedIsGrounded(before, refs + multiset{x});
    assert Grounded(before, refs) by {
      forall y: Id | y in refs ensures IsLive(before, y) { assert y in refs + multiset{x}; }
    }
    AcyclicKeptIsReachable(before, refs);
    assert forall y: Id :: IsLive(after, y) <==> y in LiveSet(after);
    assert forall a: Id, b: Id :: Holds(after, a, b) ==> Holds(before, a, b);
    AcyclicShrinks(before, after);
  }

  lemma SupportedAfter(before: seq<Cell>, after: seq<Cell>, refs: multiset<Id>, more: multiset<Id>, s: set<Id>)
    requires Supported(before, refs, s) && Survives(before, after) && refs <= more
    requires forall y :: y in s ==> IsLive(after, y)
    ensures Supported(after, more, s)
  {
    forall y | y in s && y !in more ensures exists h :: h in s && Holds(after, h, y) {
      assert y !in refs;
      var h :| h in s && Holds(before, h, y);
      assert Holds(after, h, y);
    }
  }

  /** An object that can be reached still can once one of its own slots is dropped. */
  lemma ReachableWithoutOwnSlot(cells: seq<Cell>, refs: multiset<Id>, x: Id, node: Node)
    requires IsLive(cells, x) && Reachable(cells, refs, x)
    ensures Reachable(Rewrite(cells, x, node), refs, x)
  {
    var cut := Rewrite(cells, x, node);
    var r :| r in refs && Reaches(cells, r, x);
    var p :| PathFromTo(cells, p, r, x);
    var i := FirstOf(p, x);
    assert forall k :: 0 <= k < i ==> Holds(cells, p[k], p[k + 1]) && p[k] != x;
    assert PathFromTo(cut, p[..i + 1], r, x);
    assert Reaches(cut, r, x);
  }

  lemma FirstOf(p: seq<Id>, x: Id) returns (i: nat)
    requires x in p
    ensures i < |p| && p[i] == x && forall k :: 0 <= k < i ==> p[k] != x
  {
    i := 0;
    while p[i] != x
      invariant i < |p| && forall k :: 0 <= k < i ==> p[k] != x
      decreases |p| - i
    {
      var j :| 0 <= j < |p| && p[j] == x;
      assert j > i;
      i := i + 1;
    }
  }

  /**
    When does storing `t` in `x`, after `x` gave up a slot, touch no freed
    memory? The stores release the old content before they take a reference to
    the new one, so both objects must survive that release. `cut` is the heap
    with the old slot dropped. It is safe when `x` was reachable and `t` is
    reachable without the dropped slot, and in an acyclic graph only then. In any
    graph it is safe exactly when both are reachable then or held by a cycle.
   */
  lemma StoreIsSafeIff(cells: seq<Cell>, refs: multiset<Id>, x: Id, node: Node, t: Id)
    requires Counted(cells, refs) && IsLive(cells, x) && IsLive(cells, t)
    requires multiset(Kids(node)) <= multiset(Kids(cells[x].node))
    ensures var cut := Rewrite(cells, x, node);
      && (Reachable(cells, refs, x) && Reachable(cut, refs, t) ==> x in Kept(cut, refs) && t in Kept(cut, refs))
      && (Acyclic(cells) ==> (x in Kept(cut, refs) && t in Kept(cut, refs) <==> Reachable(cut, refs, t)))
      && (x in Kept(cut, refs) && t in Kept(cut, refs) <==> Anchored(cut, refs, x) && Anchored(cut, refs, t))
      && (t in refs ==> Reachable(cut, refs, t))
  {
    var cut := Rewrite(cells, x, node);
    CountedIsGrounded(cells, refs);
    GroundedCut(cells, refs, x, node);
    KeptIsAnchored(cut, refs);
    if Reachable(cells, refs, x) {
      ReachableWithoutOwnSlot(cells, refs, x, node);
      ReachableIsKept(cut, refs, x);
    }
    if Reachable(cut, refs, t) { ReachableIsKept(cut, refs, t); }
    ReachesSelf(cut, t);
    if Acyclic(cells) {
      HoldsOfCut(cells, x, node);
      AcyclicShrinks(cells, cut);
      AcyclicKeptIsReachable(cut, refs);
      CountedKeepsAll(cells, refs);
      AcyclicKeptIsReachable(cells, refs);
      assert x in LiveSet(cells);
      ReachableWithoutOwnSlot(cells, refs, x, node);
    }
  }

  lemma HoldsOfCut(cells: seq<Cell>, x: Id, node: Node)
    requires IsLive(cells, x) && multiset(Kids(node)) <= multiset(Kids(cells[x].node))
    ensures forall a: Id, b: Id :: Holds(Rewrite(cells, x, node), a, b) ==> Holds(cells, a, b)
  {
    forall b | b in Kids(node) ensures b in Kids(cells[x].node) {
      assert b in multiset(Kids(node));
    }
  }

  lemma GroundedCut(cells: seq<Cell>, refs: multiset<Id>, x: Id, node: Node)
    requires Grounded(cells, refs) && IsLive(cells, x)
    requires multiset(Kids(node)) <= multiset(Kids(cells[x].node))
    ensures Grounded(Rewrite(cells, x, node), refs)
  {
    var cut := Rewrite(cells, x, node);
    HoldsOfCut(cells, x, node);
    forall y: Id | Slots(cut, y) > 0 ensures IsLive(cut, y) {
      var h := SlotOwner(cut, y);
      SlotCounts(cells, h, y);
    }
  }

  /**
    The outcome of a store into `x`: exactly the objects that survive dropping
    the old slot are alive, `x` has its new contents, all others have their old.
   */
  ghost predicate Stored(before: seq<Cell>, after: seq<Cell>, refs: multiset<Id>, x: Id, cut: Node, node: Node)
    requires IsLive(before, x)
  {
    && |after| == |before|
    && LiveSet(after) == Kept(Rewrite(before, x, cut), refs)
    && IsLive(after, x) && after[x].node == node
    && forall y: Id :: IsLive(after, y) && y != x ==> IsLive(before, y) && after[y].node == before[y].node
  }

  /** The outcome of giving up references: survivors keep their contents, and only they had support. */
  ghost predicate Exact(before: seq<Cell>, after: seq<Cell>, refs: multiset<Id>) {
    Survives(before, after) && LiveSet(after) == Kept(before, refs)
  }

  /**
    The outcome of a store is that of a release: had `x` got its new contents at
    once, exactly the objects supported then would be alive.
   */
  lemma StoredIsExact(before: seq<Cell>, after: seq<Cell>, refs: multiset<Id>, x: Id, cut: Node, node: Node)
    requires Sound(before, refs) && Sound(after, refs) && IsLive(before, x) && Stored(before, after, refs, x, cut, node)
    requires multiset(Kids(cut)) <= multiset(Kids(before[x].node)) && multiset(Kids(cut)) <= multiset(Kids(node))
    ensures Grounded(Rewrite(before, x, node), refs) && Exact(Rewrite(before, x, node), after, refs)
  {
    var full, lost := Rewrite(before, x, node), Rewrite(before, x, cut);
    HoldsOfCut(before, x, cut);
    HoldsOfCut(full, x, cut);
    assert Rewrite(full, x, cut) == lost;
    StoredTargets(before, after, refs, x, cut, node);
    CountedIsGrounded(before, refs);
    GroundedRewrite(before, refs, x, node);
    KeptWithMoreSlots(lost, full, refs);
  }

  lemma StoredTargets(before: seq<Cell>, after: seq<Cell>, refs: multiset<Id>, x: Id, cut: Node, node: Node)
    requires Counted(after, refs) && IsLive(before, x) && Stored(before, after, refs, x, cut, node)
    ensures forall b :: b in Kids(node) ==> IsLive(before, b) && b in Kept(Rewrite(before, x, cut), refs)
  {
    CountedIsGrounded(after, refs);
    forall b | b in Kids(node) ensures IsLive(before, b) && b in Kept(Rewrite(before, x, cut), refs) {
      assert Holds(after, x, b);
      SlotCounts(after, x, b);
      assert b in LiveSet(after);
    }
  }

  lemma GroundedRewrite(cells: seq<Cell>, refs: multiset<Id>, x: Id, node: Node)
    requires Grounded(cells, refs) && IsLive(cells, x) && forall b :: b in Kids(node) ==> IsLive(cells, b)
    ensures Grounded(Rewrite(cells, x, node), refs)
  {
    var now := Rewrite(cells, x, node);
    forall y: Id | Slots(now, y) > 0 ensures IsLive(now, y) {
      var h := SlotOwner(now, y);
      if h != x {
        assert Holds(cells, h, y);
        SlotCounts(cells, h, y);
      }
    }
  }

  /**
    A store that adds the slot `x` -> `t` to an acyclic graph leaves it acyclic
    if and only if `t` does not lead to `x` once the old slot is gone.
   */
  lemma StoreAcyclicIff(before: seq<Cell>, after: seq<Cell>, refs: multiset<Id>, x: Id, cut: Node, node: Node, t: Id)
    requires Sound(before, refs) && Sound(after, refs) && IsLive(before, x) && Stored(before, after, refs, x, cut, node)
    requires multiset(Kids(cut)) <= multiset(Kids(before[x].node))
    requires multiset(Kids(node)) == multiset(Kids(cut)) + multiset{t} && Acyclic(before)
    ensures Acyclic(after) <==> !Reaches(Rewrite(before, x, cut), t, x)
  {
    StoredIsExact(before, after, refs, x, cut, node);
    ExactKeepsCycles(Rewrite(before, x, node), after, refs);
    HoldsOfCut(before, x, cut);
    AcyclicShrinks(before, Rewrite(before, x, cut));
    HoldsOfLink(before, x, cut, node, t);
    LinkAcyclicIff(Rewrite(before, x, cut), Rewrite(before, x, node), x, t);
  }

  lemma HoldsOfLink(cells: seq<Cell>, x: Id, cut: Node, node: Node, t: Id)
    requires IsLive(cells, x) && multiset(Kids(node)) == multiset(Kids(cut)) + multiset{t}
    ensures forall a: Id, b: Id ::
      Holds(Rewrite(cells, x, node), a, b) <==> Holds(Rewrite(cells, x, cut), a, b) || (a == x && b == t)
  {
    forall b ensures b in Kids(node) <==> b in Kids(cut) || b == t {
      assert b in Kids(node) <==> b in multiset(Kids(node));
      assert b in Kids(cut) <==> b in multiset(Kids(cut));
    }
  }

  /** A release, seen from the laws before and after it, changes nothing about cycles. */
  lemma ReleaseKeepsCycles(before: seq<Cell>, more: multiset<Id>, after: seq<Cell>, refs: multiset<Id>)
    requires Sound(before, more) && Sound(after, refs) && Exact(before, after, refs)
    ensures Acyclic(after) <==> Acyclic(before)
  {
    CountedIsGrounded(before, more);
    CountedIsGrounded(after, refs);
    ExactKeepsCycles(before, after, refs);
  }

  ghost predicate SameReferents(a: multiset<Id>, b: multiset<Id>) {
    forall x: Id :: x in a <==> x in b
  }

  /** Support depends on which references there are, not on how many. */
  lemma KeptByReferents(cells: seq<Cell>, a: multiset<Id>, b: multiset<Id>)
    requires SameReferents(a, b)
    ensures Kept(cells, a) == Kept(cells, b)
  {
    KeptIsLargest(cells, a);
    KeptIsLargest(cells, b);
    assert Supported(cells, a, Kept(cells, b));
    assert Supported(cells, b, Kept(cells, a));
  }

  /** The heap once handle `h` has taken its reference. */
  ghost function Counting(cells: seq<Cell>, h: Handle): (r: seq<Cell>)
    requires Owns(h) ==> IsLive(cells, h.p.value)
  {
    if Owns(h) then Recount(cells, h.p.value, cells[h.p.value].count + 1) else cells
  }

  /** An empty handle becomes a copy of another: only a count changes. */
  lemma ShareSound(cells: seq<Cell>, raw: multiset<Id>, hs: seq<Handle>, dst: nat, src: nat)
    requires Sound(cells, raw + HandleRefs(hs))
    requires dst < |hs| && src < |hs| && !Owns(hs[dst])
    ensures Owns(hs[src]) ==> IsLive(cells, hs[src].p.value)
    ensures var now := Counting(cells, hs[src]);
      var refs := raw + HandleRefs(hs[dst := hs[src]]);
      && Sound(now, refs) && Survives(cells, now) && LiveSet(now) == LiveSet(cells)
      && SameReferents(raw + HandleRefs(hs), refs)
  {
    var refs, more := raw + HandleRefs(hs), HandleRef(hs[src]);
    HandleFilled(hs, dst, hs[src]);
    HandleOwns(hs, src);
    Regroup(raw, HandleRefs(hs), more);
    SharedSound(cells, refs, hs[src]);
  }

  lemma SharedSound(cells: seq<Cell>, refs: multiset<Id>, h: Handle)
    requires Sound(cells, refs) && HandleRef(h) <= refs
    ensures Owns(h) ==> IsLive(cells, h.p.value)
    ensures var now := Counting(cells, h);
      && Sound(now, refs + HandleRef(h)) && Survives(cells, now) && LiveSet(now) == LiveSet(cells)
      && SameReferents(refs, refs + HandleRef(h))
  {
    if Owns(h) {
      assert LawAt(cells, refs, h.p.value);
      AddRefSound(cells, refs, h.p.value);
    } else {
      assert refs + HandleRef(h) == refs;
    }
  }

  /** What references and slots still lead to is alive, whatever else changed. */
  lemma {:induction false} PathStaysLive(before: seq<Cell>, after: seq<Cell>, refs: multiset<Id>, p: seq<Id>)
    requires Grounded(after, refs) && IsPath(before, p) && p[0] in refs
    requires forall a: Id, b: Id :: IsLive(after, a) && Holds(before, a, b) ==> Holds(after, a, b)
    ensures IsLive(after, p[|p| - 1]) && IsPath(after, p)
  {
    if |p| > 1 {
      var q := p[..|p| - 1];
      PathStaysLive(before, after, refs, q);
      var a, b := q[|q| - 1], p[|p| - 1];
      assert a == p[|p| - 2] && Holds(before, p[|p| - 2], p[|p| - 2 + 1]);
      assert Holds(after, a, b);
      SlotCounts(after, a, b);
      forall i | 0 <= i < |p| - 1 ensures Holds(after, p[i], p[i + 1]) {
        if i < |q| - 1 { assert Holds(after, q[i], q[i + 1]); }
      }
    }
  }

  lemma ReachableStaysLive(before: seq<Cell>, after: seq<Cell>, refs: multiset<Id>, more: multiset<Id>, y: Id)
    requires Grounded(after, more) && Reachable(before, refs, y) && refs <= more
    requires forall a: Id, b: Id :: IsLive(after, a) && Holds(before, a, b) ==> Holds(after, a, b)
    ensures IsLive(after, y) && Reachable(after, more, y)
  {
    var x :| x in refs && Reaches(before, x, y);
    var p :| PathFromTo(before, p, x, y);
    PathStaysLive(before, after, more, p);
    assert PathFromTo(after, p, x, y) && Reaches(after, x, y) && x in more;
  }

  /** A reference from outside keeps its object. */
  lemma ReferentIsKept(cells: seq<Cell>, refs: multiset<Id>, x: Id)
    requires x in refs && Grounded(cells, refs)
    ensures x in Kept(cells, refs) && Reachable(cells, refs, x)
  {
    ReachesSelf(cells, x);
    ReachableIsKept(cells, refs, x);
  }

  /** Storing an owned value under a name of a reachable collection always succeeds. */
  lemma OwnedStoreSucceeds(cells: seq<Cell>, refs: multiset<Id>, c: Id, node: Node, v: Id)
    requires Sound(cells, refs) && IsLive(cells, c) && Reachable(cells, refs, c) && v in refs
    requires multiset(Kids(node)) <= multiset(Kids(cells[c].node))
    ensures c in Kept(Rewrite(cells, c, node), refs) && v in Kept(Rewrite(cells, c, node), refs)
  {
    CountedIsGrounded(cells, refs);
    GroundedCut(cells, refs, c, node);
    ReachableWithoutOwnSlot(cells, refs, c, node);
    ReachableIsKept(Rewrite(cells, c, node), refs, c);
    ReferentIsKept(Rewrite(cells, c, node), refs, v);
  }

  lemma FewerTargets(es: seq<Entry>, name: string)
    ensures multiset(EntryTargets(Without(es, name))) <= multiset(EntryTargets(es))
  {
    match FindEntry(es, name)
    case None =>
    case Some(i) => RemovedTarget(es, i);
  }

  predicate Storable(cells: seq<Cell>, p: Payload) {
    match p
    case Empty => false
    case Scalar(_) => true
    case RefTo(kind, t) => IsLive(cells, t) && MatchesKind(kind, cells[t].node)
  }

  /** Storing `t` in `x` once the old slot is gone: the law holds and only `x` has new contents. */
  lemma StoreSound(before: seq<Cell>, mid: seq<Cell>, refs: multiset<Id>, x: Id, cut: Node, node: Node, t: Id)
    requires IsLive(before, x) && IsLive(mid, x) && IsLive(mid, t) && WellNamed(node)
    requires Sound(mid, refs) && Survives(Rewrite(before, x, cut), mid)
    requires LiveSet(mid) == Kept(Rewrite(before, x, cut), refs)
    requires multiset(Kids(node)) == multiset(Kids(cut)) + multiset{t}
    ensures Sound(Link(mid, x, node, t), refs) && Stored(before, Link(mid, x, node, t), refs, x, cut, node)
  {
    var up := Recount(mid, t, mid[t].count + 1);
    AddRefSound(mid, refs, t);
    assert LiveSet(up) == LiveSet(mid);
    LinkSound(up, refs, x, node, t);
  }

  /** `before` is the heap as a store began, `mid` once it gave up the old slot of `x`. */
  ghost predicate Dropped(before: seq<Cell>, mid: seq<Cell>, refs: multiset<Id>, x: Id, cut: Node) {
    && IsLive(before, x) && Sound(before, refs) && multiset(Kids(cut)) <= multiset(Kids(before[x].node))
    && Survives(Rewrite(before, x, cut), mid) && LiveSet(mid) == Kept(Rewrite(before, x, cut), refs)
  }

  /** What is alive then is what survives without that slot. */
  lemma DroppedKeeps(before: seq<Cell>, mid: seq<Cell>, refs: multiset<Id>, x: Id, cut: Node)
    requires Dropped(before, mid, refs, x, cut)
    ensures forall y: Id :: IsLive(mid, y) <==> y in Kept(Rewrite(before, x, cut), refs)
  {
    assert forall y: Id :: IsLive(mid, y) <==> y in LiveSet(mid);
  }

  /** The contents of a value without and with a reference. */
  lemma RefNodes(kind: RefKind, t: Id)
    ensures WellNamed(Value(Empty)) && WellNamed(Value(RefTo(kind, t)))
    ensures multiset(Kids(Value(Empty))) == multiset{}
    ensures multiset(Kids(Value(RefTo(kind, t)))) == multiset(Kids(Value(Empty))) + multiset{t}
  {}

  /** The contents of a collection before, without and with an entry. */
  lemma EntryNodes(es: seq<Entry>, name: string, v: Id)
    requires UniqueNames(es)
    ensures var cut, node := Collection(Without(es, name)), Collection(Without(es, name) + [Entry(name, v)]);
      && WellNamed(cut) && WellNamed(node)
      && multiset(Kids(cut)) <= multiset(Kids(Collection(es)))
      && multiset(Kids(node)) == multiset(Kids(cut)) + multiset{v}
  {
    StoreFacts(es, name, v);
    FewerTargets(es, name);
  }

  /** A store of `t`, and what it means for cycles. */
  ghost predicate Linked(before: seq<Cell>, after: seq<Cell>, refs: multiset<Id>, x: Id, cut: Node, node: Node, t: Id)
    requires IsLive(before, x)
  {
    && Stored(before, after, refs, x, cut, node)
    && (Acyclic(before) ==> (Acyclic(after) <==> !Reaches(Rewrite(before, x, cut), t, x)))
  }

  lemma StoreLinks(before: seq<Cell>, mid: seq<Cell>, refs: multiset<Id>, x: Id, cut: Node, node: Node, t: Id)
    requires Dropped(before, mid, refs, x, cut) && Sound(mid, refs)
    requires IsLive(mid, x) && IsLive(mid, t) && WellNamed(node)
    requires multiset(Kids(node)) == multiset(Kids(cut)) + multiset{t}
    ensures Sound(Link(mid, x, node, t), refs) && Linked(before, Link(mid, x, node, t), refs, x, cut, node, t)
  {
    StoreSound(before, mid, refs, x, cut, node, t);
    if Acyclic(before) {
      StoreAcyclicIff(before, Link(mid, x, node, t), refs, x, cut, node, t);
    }
  }

  lemma MovedHandles(hs: seq<Handle>, dst: nat, src: nat, left: Handle)
    requires dst < |hs| && src < |hs|
    ensures if dst == src then hs[dst := left] == hs[dst := hs[src]][src := left]
      else hs[dst := left][dst := hs[dst := left][src]][src := left] == hs[dst := hs[src]][src := left]
  {}

  // ---------------------------------------------------------------- the heap and its operations

  class Graph {
    var cells: seq<Cell>
    var handles: seq<Handle>
    ghost var raw: multiset<Id>

    /** Every reference that is not a slot: plain owners and owning `ifptr` variables. */
    ghost function Refs(): multiset<Id>
      reads this
    {
      raw + HandleRefs(handles)
    }

    ghost predicate Valid()
      reads this
    {
      Sound(cells, Refs())
    }

    constructor ()
      ensures Valid() && cells == [] && handles == [] && raw == multiset{}
    {
      cells, handles, raw := [], [], multiset{};
    }

    /** `create_value`, `create_collection`, `create_array`, ...: count 1, owned by the caller. */
    method Create(node: Node) returns (x: Id)
      requires Valid() && IsFresh(node)
      modifies `cells, `raw
      ensures Valid() && x == |old(cells)| && raw == old(raw) + multiset{x}
      ensures cells == old(cells) + [Live(1, node)]
    {
      x := |cells|;
      CreateSound(cells, Refs(), node);
      cells := cells + [Live(1, node)];
      raw := raw + multiset{x};
      assert Refs() == old(Refs()) + multiset{x};
    }

    method AddRef(x: Id)
      requires Valid() && IsLive(cells, x)
      modifies `cells, `raw
      ensures Valid() && raw == old(raw) + multiset{x}
      ensures cells == Recount(old(cells), x, old(cells)[x].count + 1)
    {
      AddRefSound(cells, Refs(), x);
      cells := cells[x := Live(cells[x].count + 1, cells[x].node)];
      raw := raw + multiset{x};
      assert Refs() == old(Refs()) + multiset{x};
    }

    /**
      `release`: the count drops, and at zero the object is deleted. `refs` are
      the references left outside the slots; every object in `keep` survives.
     */
    method ReleaseRef(x: Id, ghost refs: multiset<Id>, ghost keep: set<Id>)
      requires Sound(cells, refs + multiset{x}) && Supported(cells, refs, keep)
      modifies `cells
      ensures Sound(cells, refs) && Supported(cells, refs, keep)
      ensures Survives(old(cells), cells) && LiveCount(cells) <= old(LiveCount(cells))
      decreases LiveCount(cells), 1
    {
      LowerCount(cells, refs, x, keep);
      var r := cells[x].count - 1;
      cells := cells[x := Live(r, cells[x].node)];
      if r == 0 {
        Delete(x, refs, keep);
      }
    }

    /** `delete this`: the destructor takes over the references of the slots and releases them in order. */
    method Delete(x: Id, ghost refs: multiset<Id>, ghost keep: set<Id>)
      requires Dying(cells, refs, x) && Supported(cells, refs, keep)
      modifies `cells
      ensures Sound(cells, refs) && Supported(cells, refs, keep)
      ensures Survives(old(cells), cells) && LiveCount(cells) <= old(LiveCount(cells))
      decreases LiveCount(cells), 0
    {
      var kids := Kids(cells[x].node);
      FreeSound(cells, refs, x, keep);
      cells := cells[x := Freed];
      var i := 0;
      while i < |kids|
        invariant 0 <= i <= |kids|
        invariant Sound(cells, refs + multiset(kids[i..])) && Supported(cells, refs, keep)
        invariant Survives(old(cells), cells) && LiveCount(cells) < old(LiveCount(cells))
      {
        ghost var rest := refs + multiset(kids[i + 1..]);
        assert kids[i..] == [kids[i]] + kids[i + 1..];
        assert refs + multiset(kids[i..]) == rest + multiset{kids[i]};
        SupportedWiden(cells, refs, rest, keep);
        label L:
        ReleaseRef(kids[i], rest, keep);
        SupportedAfter(old@L(cells), cells, refs, refs, keep);
        i := i + 1;
      }
      assert refs + multiset(kids[i..]) == refs;
    }

    /**
      Giving up one reference deletes exactly what nothing supports any more; in
      an acyclic graph that is exactly what can no longer be reached.
     */
    method Release(x: Id)
      requires Valid() && x in raw
      modifies `cells, `raw
      ensures Valid() && raw == old(raw) - multiset{x}
      ensures Survives(old(cells), cells) && LiveSet(cells) == Kept(old(cells), Refs())
      ensures Acyclic(cells) <==> Acyclic(old(cells))
      ensures Acyclic(old(cells)) ==> forall y: Id :: IsLive(cells, y) <==> Reachable(old(cells), Refs(), y)
    {
      TakeOne(raw, HandleRefs(handles), x);
      raw := raw - multiset{x};
      ReleaseExactly(x);
      ReleaseKeepsCycles(old(cells), old(Refs()), cells, Refs());
      if Acyclic(old(cells)) {
        ReleaseIsReachability(old(cells), cells, Refs(), x);
      }
    }

    /** A release of a reference that is no longer among `Refs()`. */
    method ReleaseExactly(x: Id)
      requires Sound(cells, Refs() + multiset{x})
      modifies `cells
      ensures Valid() && Survives(old(cells), cells) && LiveSet(cells) == Kept(old(cells), Refs())
    {
      ghost var refs := Refs();
      ghost var keep := Kept(cells, refs);
      KeptIsLargest(cells, refs);
      ReleaseRef(x, refs, keep);
      SurvivorsAreKept(old(cells), cells, refs);
    }

    /** Rewrites `x` to hold one slot less and releases what that slot held. */
    method DropSlot(x: Id, node: Node, t: Id)
      requires Valid() && IsLive(cells, x) && WellNamed(node)
      requires multiset(Kids(cells[x].node)) == multiset(Kids(node)) + multiset{t}
      modifies `cells
      ensures Valid() && Dropped(old(cells), cells, Refs(), x, node)
    {
      UnlinkSound(cells, Refs(), x, node, t);
      cells := Rewrite(cells, x, node);
      ReleaseExactly(t);
    }

    /** Takes a reference to `t` and rewrites `x` to hold it. `before` is the heap before the store began. */
    method AddSlot(x: Id, ghost before: seq<Cell>, ghost cut: Node, node: Node, t: Id)
      requires Valid() && Dropped(before, cells, Refs(), x, cut)
      requires IsLive(cells, x) && IsLive(cells, t) && WellNamed(node)
      requires multiset(Kids(node)) == multiset(Kids(cut)) + multiset{t}
      modifies `cells
      ensures Valid() && Linked(before, cells, Refs(), x, cut, node, t)
    {
      StoreLinks(before, cells, Refs(), x, cut, node, t);
      cells := Link(cells, x, node, t);
    }

    /** `collection_value::clear`. */
    method ClearPayload(v: Id)
      requires Valid() && IsLive(cells, v) && cells[v].node.Value?
      modifies `cells
      ensures Valid() && Dropped(old(cells), cells, Refs(), v, Value(Empty))
    {
      match cells[v].node.payload {
        case RefTo(_, t) =>
          DropSlot(v, Value(Empty), t);
        case _ =>
          RewriteSound(cells, Refs(), v, Value(Empty));
          cells := Rewrite(cells, v, Value(Empty));
          CountedKeepsAll(cells, Refs());
      }
    }

    /** `set_as_int` and the other scalar setters; `ok` is false if the value was freed by `clear`. */
    method SetScalar(v: Id, plain: Plain) returns (ok: bool)
      requires Valid() && IsLive(cells, v) && cells[v].node.Value?
      modifies `cells
      ensures Valid()
      ensures ok <==> v in Kept(Rewrite(old(cells), v, Value(Empty)), Refs())
      ensures ok ==> Stored(old(cells), cells, Refs(), v, Value(Empty), Value(Scalar(plain)))
    {
      ClearPayload(v);
      DroppedKeeps(old(cells), cells, Refs(), v, Value(Empty));
      ok := IsLive(cells, v);
      if ok {
        RewriteSound(cells, Refs(), v, Value(Scalar(plain)));
        cells := Rewrite(cells, v, Value(Scalar(plain)));
      }
    }

    /**
      `set_as_collection`, `set_as_array`, `set_as_stream`, `set_as_hheaders`:
      clear first, then addref. `ok` is false when the value or the new content
      was freed by that clear, so that the addref touches freed memory.
     */
    method SetRef(v: Id, kind: RefKind, t: Id) returns (ok: bool)
      requires Valid() && IsLive(cells, v) && cells[v].node.Value?
      requires IsLive(cells, t) && MatchesKind(kind, cells[t].node)
      modifies `cells
      ensures Valid()
      ensures var kept := Kept(Rewrite(old(cells), v, Value(Empty)), Refs());
        ok <==> v in kept && t in kept
      ensures ok ==> Linked(old(cells), cells, Refs(), v, Value(Empty), Value(RefTo(kind, t)), t)
    {
      ClearPayload(v);
      DroppedKeeps(old(cells), cells, Refs(), v, Value(Empty));
      ok := IsLive(cells, v) && IsLive(cells, t);
      RefNodes(kind, t);
      if ok {
        AddSlot(v, old(cells), Value(Empty), Value(RefTo(kind, t)), t);
      }
    }

    /** `collection::set_value`: the old entry is released and erased before the new one is counted. */
    method SetValue(c: Id, name: string, v: Id) returns (ok: bool)
      requires Valid() && IsLive(cells, c) && cells[c].node.Collection?
      requires IsLive(cells, v) && cells[v].node.Value?
      modifies `cells
      ensures Valid()
      ensures var rest := Without(old(cells)[c].node.entries, name);
        var kept := Kept(Rewrite(old(cells), c, Collection(rest)), Refs());
        && (ok <==> c in kept && v in kept)
        && (ok ==> Linked(old(cells), cells, Refs(), c, Collection(rest), Collection(rest + [Entry(name, v)]), v))
    {
      var rest := Without(cells[c].node.entries, name);
      EntryNodes(cells[c].node.entries, name, v);
      DropEntry(c, name);
      DroppedKeeps(old(cells), cells, Refs(), c, Collection(rest));
      ok := IsLive(cells, c) && IsLive(cells, v);
      if ok {
        AddSlot(c, old(cells), Collection(rest), Collection(rest + [Entry(name, v)]), v);
      }
    }

    /** The first half of `set_value`: the entry of that name, if any, is released and erased. */
    method DropEntry(c: Id, name: string)
      requires Valid() && IsLive(cells, c) && cells[c].node.Collection?
      modifies `cells
      ensures Valid() && Dropped(old(cells), cells, Refs(), c, Collection(Without(old(cells)[c].node.entries, name)))
    {
      var es := cells[c].node.entries;
      StoreFacts(es, name, c);
      match FindEntry(es, name) {
        case Some(i) =>
          DropSlot(c, Collection(Without(es, name)), es[i].value);
        case None =>
          assert cells == Rewrite(cells, c, Collection(es));
          CountedKeepsAll(cells, Refs());
      }
    }

    /** `coll_array::push_back`. */
    method PushBack(a: Id, v: Id)
      requires Valid() && IsLive(cells, a) && cells[a].node.Array?
      requires IsLive(cells, v) && cells[v].node.Value?
      modifies `cells
      ensures Valid()
      ensures Linked(old(cells), cells, Refs(), a, old(cells)[a].node, Array(old(cells)[a].node.items + [v]), v)
    {
      CountedKeepsAll(cells, Refs());
      assert cells == Rewrite(cells, a, cells[a].node);
      AddSlot(a, cells, cells[a].node, Array(cells[a].node.items + [v]), v);
    }

    // -------------------------------------------------------------- ifptr

    predicate IsHandle(h: nat)
      reads this
    {
      h < |handles| && handles[h].Handle?
    }

    /** `ifptr(p, auto_release)`: an owning handle takes over the caller's reference. */
    method Adopt(p: Option<Id>, auto: bool) returns (h: nat)
      requires Valid() && (p.Some? && auto ==> p.value in raw)
      modifies `handles, `raw
      ensures Valid() && h == |old(handles)| && handles == old(handles) + [Handle(p, auto)]
      ensures raw == old(raw) - HandleRef(Handle(p, auto)) && Refs() == old(Refs())
    {
      h := |handles|;
      HandleAppend(handles, Handle(p, auto));
      handles := handles + [Handle(p, auto)];
      raw := raw - HandleRef(Handle(p, auto));
      assert Refs() == old(Refs());
    }

    /** `release_owned_p`, with what the handle holds afterwards. */
    method ReleaseOwned(h: nat, left: Handle)
      requires Valid() && IsHandle(h) && !Owns(left)
      modifies `cells, `handles
      ensures Valid() && handles == old(handles)[h := left]
      ensures old(Refs()) == Refs() + HandleRef(old(handles)[h])
      ensures Exact(old(cells), cells, Refs())
    {
      var was := handles[h];
      HandleCleared(handles, h, left);
      handles := handles[h := left];
      Regroup(raw, HandleRefs(handles), HandleRef(was));
      if Owns(was) {
        ReleaseExactly(was.p.value);
      } else {
        CountedKeepsAll(cells, Refs());
      }
    }

    /** Takes over another handle's pointer and flag, then `addref_owned_p`. */
    method ShareInto(dst: nat, src: nat)
      requires Valid() && dst < |handles| && IsHandle(src)
      requires dst != src && !Owns(handles[dst])
      modifies `cells, `handles
      ensures Valid() && handles == old(handles)[dst := old(handles)[src]]
      ensures Survives(old(cells), cells) && LiveSet(cells) == old(LiveSet(cells))
      ensures SameReferents(old(Refs()), Refs())
    {
      var s := handles[src];
      ShareSound(cells, raw, handles, dst, src);
      ghost var now := Counting(cells, s);
      handles := handles[dst := s];
      if Owns(s) {
        var x := s.p.value;
        cells := cells[x := Live(cells[x].count + 1, cells[x].node)];
      }
      assert cells == now;
    }

    /** A handle that holds nothing yet. */
    method AppendEmpty()
      requires Valid()
      modifies `handles
      ensures Valid() && handles == old(handles) + [Handle(None, false)] && Refs() == old(Refs())
    {
      HandleAppend(handles, Handle(None, false));
      handles := handles + [Handle(None, false)];
      assert Refs() == old(Refs());
    }

    /** The copy constructor. */
    method CopyConstruct(src: nat) returns (h: nat)
      requires Valid() && IsHandle(src)
      modifies `cells, `handles
      ensures Valid() && h == |old(handles)| && handles == old(handles) + [old(handles)[src]]
      ensures Exact(old(cells), cells, Refs()) && LiveSet(cells) == old(LiveSet(cells))
    {
      h := |handles|;
      ghost var refs := Refs();
      CountedKeepsAll(cells, refs);
      AppendEmpty();
      ShareInto(h, src);
      KeptByReferents(old(cells), refs, Refs());
    }

    /** Copy assignment; assigning a handle to itself does nothing. */
    method Assign(dst: nat, src: nat)
      requires Valid() && IsHandle(dst) && IsHandle(src)
      modifies `cells, `handles
      ensures Valid() && handles == old(handles)[dst := old(handles)[src]]
      ensures Exact(old(cells), cells, Refs())
    {
      if dst == src {
        CountedKeepsAll(cells, Refs());
        return;
      }
      ReleaseOwned(dst, Handle(None, false));
      ghost var refs := Refs();
      ShareInto(dst, src);
      KeptByReferents(old(cells), refs, Refs());
    }

    /** The move constructor. */
    method MoveConstruct(src: nat) returns (h: nat)
      requires Valid() && IsHandle(src)
      modifies `handles
      ensures Valid() && h == |old(handles)| && Refs() == old(Refs())
      ensures handles == old(handles)[src := Handle(None, false)] + [old(handles)[src]]
    {
      h := |handles|;
      var s := handles[src];
      HandleCleared(handles, src, Handle(None, false));
      HandleAppend(handles[src := Handle(None, false)], s);
      handles := handles[src := Handle(None, false)] + [s];
    }

    /**
      Move assignment. There is no guard against moving a handle to itself: the
      handle then gives up its reference and ends up empty.
     */
    method MoveAssign(dst: nat, src: nat)
      requires Valid() && IsHandle(dst) && IsHandle(src)
      modifies `cells, `handles
      ensures Valid() && Exact(old(cells), cells, Refs())
      ensures handles == old(handles)[dst := old(handles)[src]][src := Handle(None, false)]
    {
      ghost var hs := handles;
      ReleaseOwned(dst, Handle(None, false));
      ghost var refs := Refs();
      if dst != src {
        Transfer(dst, src);
      }
      assert Refs() == refs;
      MovedHandles(hs, dst, src, Handle(None, false));
    }

    /** Moves pointer and flag from one handle to an empty one. */
    method Transfer(dst: nat, src: nat)
      requires Valid() && IsHandle(src) && dst < |handles| && dst != src && !Owns(handles[dst])
      modifies `handles
      ensures Valid() && Refs() == old(Refs())
      ensures handles == old(handles)[dst := old(handles)[src]][src := Handle(None, false)]
    {
      HandleMoved(handles, dst, src, Handle(None, false));
      handles := handles[dst := handles[src]][src := Handle(None, false)];
    }

    /** `detach`: an owned reference goes back to the caller. */
    method Detach(h: nat) returns (p: Option<Id>)
      requires Valid() && IsHandle(h)
      modifies `handles, `raw
      ensures Valid() && p == old(handles)[h].p && Refs() == old(Refs())
      ensures handles == old(handles)[h := Handle(None, false)]
      ensures raw == old(raw) + HandleRef(old(handles)[h])
    {
      p := handles[h].p;
      ghost var given := HandleRef(handles[h]);
      HandleCleared(handles, h, Handle(None, false));
      handles := handles[h := Handle(None, false)];
      Regroup(raw, HandleRefs(handles), given);
      raw := raw + given;
    }

    /** The destructor of a handle. */
    method Destruct(h: nat)
      requires Valid() && IsHandle(h)
      modifies `cells, `handles
      ensures Valid() && handles == old(handles)[h := Gone]
      ensures old(Refs()) == Refs() + HandleRef(old(handles)[h])
      ensures Exact(old(cells), cells, Refs())
    {
      ReleaseOwned(h, Gone);
    }

    // -------------------------------------------------------------- coll_helper

    /** The setter a `set_value_as_*` applies to its fresh value, which it owns. */
    method Fill(v: Id, p: Payload, ghost before: seq<Cell>)
      requires Valid() && v in Refs() && v == |before| && cells == before + [Live(1, Value(Empty))]
      requires Storable(before, p)
      modifies `cells
      ensures Valid() && Extended(before, cells, v, p)
    {
      assert cells == Rewrite(cells, v, Value(Empty));
      CountedKeepsAll(cells, Refs());
      assert v in LiveSet(cells);
      match p {
        case Scalar(plain) =>
          var ok := SetScalar(v, plain);
        case RefTo(kind, t) =>
          assert t in LiveSet(cells);
          var ok := SetRef(v, kind, t);
      }
      FilledIsExtended(before, cells, Refs(), v, p);
    }

    /** `ifptr<ivalue> val(create_value())`, then the setter. */
    method MakeValue(p: Payload) returns (v: Id, h: nat)
      requires Valid() && Storable(cells, p)
      modifies this
      ensures Valid() && raw == old(raw) && h == |old(handles)| && handles == old(handles) + [Handle(Some(v), true)]
      ensures Refs() == old(Refs()) + multiset{v} && Extended(old(cells), cells, v, p)
    {
      ghost var before := cells;
      v := Create(Value(Empty));
      h := Adopt(Some(v), true);
      assert Refs() == old(Refs()) + multiset{v};
      Fill(v, p, before);
      assert raw == old(raw);
    }

    /** Stores the value a handle owns, then destructs the handle; `before` is the heap without that value. */
    method StoreOwned(c: Id, name: string, v: Id, h: nat, p: Payload, ghost before: seq<Cell>, ghost refs: multiset<Id>)
      requires Valid() && Sound(before, refs) && Storable(before, p) && Extended(before, cells, v, p)
      requires h < |handles| && handles[h] == Handle(Some(v), true) && Refs() == refs + multiset{v}
      requires IsLive(before, c) && before[c].node.Collection? && Reachable(before, refs, c)
      modifies `cells, `handles
      ensures Valid() && handles == old(handles)[h := Gone] && Refs() == refs
      ensures HelperOutcome(before, cells, refs, c, Without(before[c].node.entries, name), name, v, p)
    {
      ghost var rest := Without(before[c].node.entries, name);
      HelperReady(before, cells, refs, c, rest, name, v, p);
      label filled:
      var ok := SetValue(c, name, v);
      label stored:
      Destruct(h);
      CancelOne(Refs(), refs, v);
      HelperDone(before, old@filled(cells), old@stored(cells), cells, refs, c, rest, name, v, p);
    }

    /**
      `coll_helper::set_value_as_*`: a fresh value is created, filled and stored,
      and the local handle dropped. On a collection that can be reached this
      never touches freed memory and leaves no reference behind. The new value is
      the one entry of that name, with the collection as its one owner; no other
      object changes; exactly the objects supported then are alive. A cycle arises
      only if the new content leads to the collection.
     */
    method SetValueAs(c: Id, name: string, p: Payload) returns (v: Id)
      requires Valid() && IsLive(cells, c) && cells[c].node.Collection? && Reachable(cells, Refs(), c)
      requires Storable(cells, p)
      modifies this
      ensures Valid() && raw == old(raw) && handles == old(handles) + [Gone] && Refs() == old(Refs())
      ensures HelperOutcome(old(cells), cells, Refs(), c, Without(old(cells)[c].node.entries, name), name, v, p)
    {
      ghost var refs := Refs();
      var h;
      v, h := MakeValue(p);
      StoreOwned(c, name, v, h, p, old(cells), refs);
      assert handles == old(handles) + [Gone];
    }
  }

  /** `cells1` is `cells0` with one more object, a value with payload `p`. */
  ghost predicate Extended(cells0: seq<Cell>, cells1: seq<Cell>, v: Id, p: Payload) {
    && v == |cells0| && |cells1| == v + 1 && IsLive(cells1, v) && cells1[v].node == Value(p)
    && forall y: Id :: y < v ==>
      (IsLive(cells1, y) <==> IsLive(cells0, y)) && (IsLive(cells1, y) ==> cells1[y].node == cells0[y].node)
  }

  lemma FilledIsExtended(before: seq<Cell>, after: seq<Cell>, refs: multiset<Id>, v: Id, p: Payload)
    requires v == |before|
    requires var made := before + [Live(1, Value(Empty))];
      Stored(made, after, refs, v, Value(Empty), Value(p)) &&
        Kept(Rewrite(made, v, Value(Empty)), refs) == LiveSet(made)
    ensures Extended(before, after, v, p)
  {
    var made := before + [Live(1, Value(Empty))];
    forall y: Id | y < v ensures IsLive(after, y) <==> IsLive(before, y) {
      assert IsLive(after, y) <==> y in LiveSet(after);
      assert IsLive(made, y) <==> y in LiveSet(made);
    }
  }

  /** The heap as a helper should leave it, before anything is freed: one more value, one changed collection. */
  ghost function WithValue(before: seq<Cell>, c: Id, rest: seq<Entry>, name: string, p: Payload): (r: seq<Cell>)
    requires IsLive(before, c)
  {
    Rewrite(before + [Live(1, Value(p))], c, Collection(rest + [Entry(name, |before|)]))
  }

  /** The new content, which is not there for scalars, leads to the collection. */
  ghost predicate LeadsBack(cut: seq<Cell>, c: Id, p: Payload) {
    p.RefTo? && Reaches(cut, p.target, c)
  }

  /** The new value and its entry are there, held by nobody else, and exactly what is supported lives. */
  ghost predicate HelperResult(before: seq<Cell>, after: seq<Cell>, refs: multiset<Id>, c: Id,
                               rest: seq<Entry>, name: string, v: Id, p: Payload)
    requires IsLive(before, c)
  {
    && v == |before| && IsLive(after, c) && IsLive(after, v) && after[v].count == 1
    && Exact(WithValue(before, c, rest, name, p), after, refs)
  }

  /** That, and what it means for cycles. */
  ghost predicate HelperOutcome(before: seq<Cell>, after: seq<Cell>, refs: multiset<Id>, c: Id,
                                rest: seq<Entry>, name: string, v: Id, p: Payload)
    requires IsLive(before, c)
  {
    && HelperResult(before, after, refs, c, rest, name, v, p)
    && (Acyclic(before) ==> (Acyclic(after) <==> !LeadsBack(Rewrite(before, c, Collection(rest)), c, p)))
  }

  lemma HelperReady(cells0: seq<Cell>, cells1: seq<Cell>, refs: multiset<Id>, c: Id,
                    rest: seq<Entry>, name: string, v: Id, p: Payload)
    requires Extended(cells0, cells1, v, p) && Sound(cells1, refs + multiset{v})
    requires IsLive(cells0, c) && cells0[c].node.Collection? && Reachable(cells0, refs, c)
    requires rest == Without(cells0[c].node.entries, name)
    ensures var cut := Rewrite(cells1, c, Collection(rest));
      c in Kept(cut, refs + multiset{v}) && v in Kept(cut, refs + multiset{v})
  {
    var more := refs + multiset{v};
    CountedIsGrounded(cells1, more);
    assert forall a: Id, b: Id :: Holds(cells0, a, b) ==> Holds(cells1, a, b);
    ReachableStaysLive(cells0, cells1, refs, more, c);
    FewerTargets(cells0[c].node.entries, name);
    OwnedStoreSucceeds(cells1, more, c, Collection(rest), v);
  }

  lemma HelperDone(cells0: seq<Cell>, cells1: seq<Cell>, cells2: seq<Cell>, now: seq<Cell>, refs: multiset<Id>,
                   c: Id, rest: seq<Entry>, name: string, v: Id, p: Payload)
    requires Sound(cells0, refs) && Storable(cells0, p) && Extended(cells0, cells1, v, p)
    requires IsLive(cells0, c) && cells0[c].node.Collection? && Reachable(cells0, refs, c)
    requires rest == Without(cells0[c].node.entries, name)
    requires Sound(cells1, refs + multiset{v}) && Sound(cells2, refs + multiset{v}) && Sound(now, refs)
    requires Stored(cells1, cells2, refs + multiset{v}, c, Collection(rest), Collection(rest + [Entry(name, v)]))
    requires Exact(cells2, now, refs)
    ensures HelperOutcome(cells0, now, refs, c, rest, name, v, p)
  {
    HelperExact(cells0, cells1, cells2, now, refs, c, rest, name, v, p);
    HelperKeeps(cells0, now, refs, c, rest, name, v, p);
    FewerTargets(cells0[c].node.entries, name);
    HelperCount(cells0, now, refs, c, rest, name, v, p);
    if Acyclic(cells0) { HelperAcyclicIff(cells0, now, refs, c, rest, name, v, p); }
  }

  /** A helper on an acyclic graph leaves a cycle exactly when the content leads to the collection. */
  lemma HelperAcyclicIff(before: seq<Cell>, after: seq<Cell>, refs: multiset<Id>, c: Id,
                         rest: seq<Entry>, name: string, v: Id, p: Payload)
    requires Sound(before, refs) && Acyclic(before) && Storable(before, p)
    requires IsLive(before, c) && before[c].node.Collection? && rest == Without(before[c].node.entries, name)
    requires HelperResult(before, after, refs, c, rest, name, v, p)
    ensures Acyclic(after) <==> !LeadsBack(Rewrite(before, c, Collection(rest)), c, p)
  {
    FewerTargets(before[c].node.entries, name);
    HelperCycles(before, refs, c, rest, name, v, p);
    WithValueGrounded(before, refs, c, rest, name, p);
    ExactKeepsCycles(WithValue(before, c, rest, name, p), after, refs);
  }

  lemma WithValueGrounded(before: seq<Cell>, refs: multiset<Id>, c: Id, rest: seq<Entry>, name: string, p: Payload)
    requires Counted(before, refs) && Storable(before, p) && IsLive(before, c)
    requires multiset(EntryTargets(rest)) <= multiset(Kids(before[c].node))
    ensures Grounded(WithValue(before, c, rest, name, p), refs)
  {
    var v, made := |before|, before + [Live(1, Value(p))];
    CountedIsGrounded(before, refs);
    forall y: Id | Slots(made, y) > 0 ensures IsLive(made, y) {
      SlotAppend(before, Live(1, Value(p)), y);
    }
    forall y | y in Kids(Collection(rest + [Entry(name, v)])) ensures IsLive(made, y) {
      AddedTarget(rest, Entry(name, v));
      assert y in multiset(EntryTargets(rest)) + multiset{v};
      if y != v {
        assert y in multiset(Kids(before[c].node));
        SlotCounts(before, c, y);
      }
    }
    GroundedRewrite(made, refs, c, Collection(rest + [Entry(name, v)]));
  }

  /** Fill, store and drop together leave what is supported in the heap with the new value. */
  lemma HelperExact(cells0: seq<Cell>, cells1: seq<Cell>, cells2: seq<Cell>, now: seq<Cell>, refs: multiset<Id>,
                    c: Id, rest: seq<Entry>, name: string, v: Id, p: Payload)
    requires Extended(cells0, cells1, v, p) && IsLive(cells0, c) && cells0[c].node.Collection?
    requires rest == Without(cells0[c].node.entries, name)
    requires Sound(cells1, refs + multiset{v}) && Sound(cells2, refs + multiset{v}) && Sound(now, refs)
    requires Stored(cells1, cells2, refs + multiset{v}, c, Collection(rest), Collection(rest + [Entry(name, v)]))
    requires Exact(cells2, now, refs)
    ensures Exact(WithValue(cells0, c, rest, name, p), now, refs)
  {
    var more, node := refs + multiset{v}, Collection(rest + [Entry(name, v)]);
    var full, filled := WithValue(cells0, c, rest, name, p), Rewrite(cells1, c, node);
    FewerTargets(cells0[c].node.entries, name);
    AddedTarget(rest, Entry(name, v));
    StoredIsExact(cells1, cells2, more, c, Collection(rest), node);
    FilledNodes(cells0, cells1, c, rest, name, v, p);
    ExactTwice(full, filled, cells2, now, more, refs);
  }

  lemma FilledNodes(cells0: seq<Cell>, cells1: seq<Cell>, c: Id, rest: seq<Entry>, name: string, v: Id, p: Payload)
    requires Extended(cells0, cells1, v, p) && IsLive(cells0, c)
    ensures SameNodes(WithValue(cells0, c, rest, name, p), Rewrite(cells1, c, Collection(rest + [Entry(name, v)])))
  {}

  /** One release after another is one release of all their references. */
  lemma ExactTwice(same: seq<Cell>, before: seq<Cell>, mid: seq<Cell>, after: seq<Cell>, more: multiset<Id>,
                   refs: multiset<Id>)
    requires SameNodes(same, before) && Exact(before, mid, more) && Exact(mid, after, refs) && refs <= more
    ensures Exact(same, after, refs)
  {
    KeptTwice(before, mid, more, refs);
    SameNodesKept(same, before, refs);
  }

  /** The collection stays, and the new value with it. */
  lemma HelperKeeps(before: seq<Cell>, now: seq<Cell>, refs: multiset<Id>, c: Id, rest: seq<Entry>, name: string,
                    v: Id, p: Payload)
    requires v == |before| && IsLive(before, c) && Reachable(before, refs, c) && Counted(now, refs)
    requires Survives(WithValue(before, c, rest, name, p), now)
    ensures IsLive(now, c) && IsLive(now, v) && Holds(now, c, v)
  {
    var cut := Rewrite(before, c, Collection(rest));
    CountedIsGrounded(now, refs);
    assert EntryTargets(rest + [Entry(name, v)]) == EntryTargets(rest) + [v];
    forall a: Id, b: Id | IsLive(now, a) && Holds(cut, a, b) ensures Holds(now, a, b) {}
    ReachableWithoutOwnSlot(before, refs, c, Collection(rest));
    ReachableStaysLive(cut, now, refs, refs, c);
    SlotCounts(now, c, v);
  }

  /** The collection is the one owner of the new value. */
  lemma HelperCount(before: seq<Cell>, now: seq<Cell>, refs: multiset<Id>, c: Id, rest: seq<Entry>, name: string,
                    v: Id, p: Payload)
    requires Counted(before, refs) && Counted(now, refs) && Storable(before, p) && v == |before|
    requires IsLive(before, c) && multiset(EntryTargets(rest)) <= multiset(Kids(before[c].node))
    requires Survives(WithValue(before, c, rest, name, p), now) && IsLive(now, v)
    ensures now[v].count == 1
  {
    var made, full := before + [Live(1, Value(p))], WithValue(before, c, rest, name, p);
    assert LawAt(before, refs, v) && LawAt(now, refs, v);
    SlotAppend(before, Live(1, Value(p)), v);
    SlotUpdate(made, c, full[c], v);
    AddedTarget(rest, Entry(name, v));
    FewerSlots(full, now, v);
  }

  /** A new value and its entry make a cycle if and only if the content leads to the collection. */
  lemma HelperCycles(before: seq<Cell>, refs: multiset<Id>, c: Id, rest: seq<Entry>, name: string, v: Id, p: Payload)
    requires Counted(before, refs) && Acyclic(before) && Storable(before, p) && v == |before|
    requires IsLive(before, c) && before[c].node.Collection?
    requires multiset(EntryTargets(rest)) <= multiset(Kids(before[c].node))
    ensures Acyclic(WithValue(before, c, rest, name, p)) <==> !LeadsBack(Rewrite(before, c, Collection(rest)), c, p)
  {
    var cut, made := Rewrite(before, c, Collection(rest)), before + [Live(1, Value(p))];
    var node := Collection(rest + [Entry(name, v)]);
    var lost := Rewrite(made, c, Collection(rest));
    HoldsOfCut(before, c, Collection(rest));
    AcyclicShrinks(before, cut);
    CountedIsGrounded(before, refs);
    GroundedCut(before, refs, c, Collection(rest));
    assert lost == cut + [Live(1, Value(p))];
    FreshValueAcyclic(cut, refs, c, v, p);
    AddedTarget(rest, Entry(name, v));
    HoldsOfLink(made, c, Collection(rest), node, v);
    LinkAcyclicIff(lost, Rewrite(made, c, node), c, v);
  }

  /** A value nobody holds yet makes no cycle, and leads to `c` only through its content. */
  lemma FreshValueAcyclic(cells: seq<Cell>, refs: multiset<Id>, c: Id, v: Id, p: Payload)
    requires Grounded(cells, refs) && Acyclic(cells) && Storable(cells, p) && v == |cells| && IsLive(cells, c)
    ensures var made := cells + [Live(1, Value(p))];
      Acyclic(made) && (Reaches(made, v, c) <==> LeadsBack(cells, c, p))
  {
    var made := cells + [Live(1, Value(p))];
    if p.RefTo? {
      var t := p.target;
      assert forall a: Id, b: Id :: Holds(made, a, b) <==> Holds(cells, a, b) || (a == v && b == t);
      NobodyReaches(cells, refs, t, v);
      LinkAcyclicIff(cells, made, v, t);
      FreshValueReaches(cells, refs, c, v, p);
    } else {
      assert forall a: Id, b: Id :: Holds(made, a, b) <==> Holds(cells, a, b);
      AcyclicShrinks(cells, made);
      DeadEnd(made, v, c);
    }
  }

  lemma FreshValueReaches(cells: seq<Cell>, refs: multiset<Id>, c: Id, v: Id, p: Payload)
    requires Grounded(cells, refs) && Storable(cells, p) && p.RefTo? && v == |cells| && IsLive(cells, c)
    ensures Reaches(cells + [Live(1, Value(p))], v, c) <==> Reaches(cells, p.target, c)
  {
    var made, t := cells + [Live(1, Value(p))], p.target;
    assert forall a: Id, b: Id :: Holds(made, a, b) <==> Holds(cells, a, b) || (a == v && b == t);
    if Reaches(made, v, c) {
      var q :| PathFromTo(made, q, v, c);
      assert Holds(made, q[0], q[1]);
      PathThroughLink(cells, made, v, t, q[1..]);
      NobodyReaches(cells, refs, t, v);
    }
    if Reaches(cells, t, c) {
      var q :| PathFromTo(cells, q, t, c);
      assert PathFromTo(made, q, t, c);
      ReachesStep(made, v, t);
      ReachesTrans(made, v, t, c);
    }
  }

  lemma DeadEnd(cells: seq<Cell>, v: Id, c: Id)
    requires v != c && forall b: Id :: !Holds(cells, v, b)
    ensures !Reaches(cells, v, c)
  {
    forall q: seq<Id> ensures !PathFromTo(cells, q, v, c) {
      if |q| > 1 && q[0] == v {
        assert !Holds(cells, q[0], q[0 + 1]);
      }
    }
  }

  /** No path leads to an address without an object. */
  lemma NobodyReaches(cells: seq<Cell>, refs: multiset<Id>, t: Id, v: Id)
    requires Grounded(cells, refs) && !IsLive(cells, v) && t != v
    ensures !Reaches(cells, t, v)
  {
    if Reaches(cells, t, v) {
      var q :| PathFromTo(cells, q, t, v);
      assert Holds(cells, q[|q| - 2], q[|q| - 2 + 1]);
      SlotCounts(cells, q[|q| - 2], v);
    }
  }

  /** A value, owned from outside, that alone holds a collection. */
  function SoleHolder(): seq<Cell> {
    [Live(1, Value(RefTo(ToCollection, 1))), Live(1, Collection([]))]
  }

  /**
    The hazard of releasing before counting: a value that alone holds an object
    is given that same object again by `set_as_collection`. The clear frees it,
    and the store then touches freed memory.
   */
  lemma StoringTheSameObjectFaults()
    ensures Sound(SoleHolder(), multiset{0})
    ensures 1 !in Kept(Rewrite(SoleHolder(), 0, Value(Empty)), multiset{0})
  {
    var cells := SoleHolder();
    assert cells[..1] == [cells[0]] && [cells[0]][..0] == [];
    forall x: Id ensures LawAt(cells, multiset{0}, x) {
      assert Slots([cells[0]], x) == Slots([cells[0]][..0], x) + CellSlots(cells[0], x);
    }
    NotHeldNotKept(Rewrite(cells, 0, Value(Empty)), multiset{0}, 1);
  }

  /** Without a reference from outside and without a slot nothing survives. */
  lemma NotHeldNotKept(cells: seq<Cell>, refs: multiset<Id>, x: Id)
    requires x !in refs && forall h: Id :: !Holds(cells, h, x)
    ensures x !in Kept(cells, refs)
  {
    KeptIsLargest(cells, refs);
  }

  /** A collection, owned from outside, with an entry that alone holds a value. */
  function SoleEntry(): seq<Cell> {
    [Live(1, Collection([Entry("k", 1)])), Live(1, Value(Empty))]
  }

  /** The same hazard in `set_value`: the entry is set again to the value it holds. */
  lemma StoringTheSameEntryFaults()
    ensures Sound(SoleEntry(), multiset{0}) && Lookup(SoleEntry()[0].node.entries, "k") == Some(1)
    ensures Without(SoleEntry()[0].node.entries, "k") == []
    ensures 1 !in Kept(Rewrite(SoleEntry(), 0, Collection([])), multiset{0})
  {
    var cells := SoleEntry();
    var es := [Entry("k", 1)];
    assert FindEntry(es, "k") == Some(0);
    assert cells[..1] == [cells[0]] && [cells[0]][..0] == [];
    assert EntryTargets(es) == [1] && EntryTargets([]) == [];
    forall x: Id ensures LawAt(cells, multiset{0}, x) {
      assert Slots([cells[0]], x) == Slots([cells[0]][..0], x) + CellSlots(cells[0], x);
    }
    NotHeldNotKept(Rewrite(cells, 0, Collection([])), multiset{0}, 1);
  }
}
