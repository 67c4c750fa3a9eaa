/**
  The reference-counted value graph behind every message between the GUI and
  the core: `collection_value`, `collection`, `coll_array`, `coll_stream` and
  `hheaders_list` (corelib/collection.cpp).

  Objects live in a sequence of cells; an object's address is its position, and
  a position is never reused. This module holds the data and the pure theory:
  what the counts must be, what a release may delete, and when nothing leaks.
 */
module RefCounting {
  import opened Sequences

  type Id = nat

  datatype Plain =
    | Int32(i: int)
    | Int64(l: int)
    | UInt32(u: nat)
    | Double(d: real)
    | Bool(b: bool)
    | Text(s: string)

  datatype RefKind = ToCollection | ToStream | ToArray | ToHeaders

  datatype Payload = Empty | Scalar(plain: Plain) | RefTo(kind: RefKind, target: Id)

  datatype Entry = Entry(name: string, value: Id)

  datatype Node =
    | Value(payload: Payload)
    | Collection(entries: seq<Entry>)
    | Array(items: seq<Id>)
    | Stream
    | Headers

  /** One heap position: an object with its `ref_count_`, or freed memory. */
  datatype Cell = Freed | Live(count: int, node: Node)

  /** An `ifptr` variable: `p_` and `auto_release_`, or one already destructed. */
  datatype Handle = Handle(p: Option<Id>, auto: bool) | Gone

  // ---------------------------------------------------------------- slots

  function EntryTargets(es: seq<Entry>): (r: seq<Id>)
  {
    seq(|es|, i requires 0 <= i < |es| => es[i].value)
  }

  /** The owning slots of an object, in the order its destructor releases them. */
  function Kids(n: Node): (r: seq<Id>)
  {
    match n
    case Value(RefTo(_, t)) => [t]
    case Value(_) => []
    case Collection(es) => EntryTargets(es)
    case Array(items) => items
    case Stream => []
    case Headers => []
  }

  predicate MatchesKind(kind: RefKind, n: Node) {
    match kind
    case ToCollection => n.Collection?
    case ToStream => n.Stream?
    case ToArray => n.Array?
    case ToHeaders => n.Headers?
  }

  predicate IsLive(cells: seq<Cell>, x: Id) {
    x < |cells| && cells[x].Live?
  }

  /** How many slots of one cell hold `x`. */
  ghost function CellSlots(c: Cell, x: Id): nat {
    if c.Live? then multiset(Kids(c.node))[x] else 0
  }

  /** How many container and value slots hold `x`. */
  ghost function Slots(cells: seq<Cell>, x: Id): nat {
    if cells == [] then 0
    else Slots(cells[..|cells| - 1], x) + CellSlots(cells[|cells| - 1], x)
  }

  predicate Owns(h: Handle) {
    h.Handle? && h.p.Some? && h.auto
  }

  /** The reference an `ifptr` variable owns, if any. */
  ghost function HandleRef(h: Handle): multiset<Id> {
    if Owns(h) then multiset{h.p.value} else multiset{}
  }

  /** All references held by owning `ifptr` variables. */
  ghost function HandleRefs(hs: seq<Handle>): multiset<Id> {
    if hs == [] then multiset{}
    else HandleRefs(hs[..|hs| - 1]) + HandleRef(hs[|hs| - 1])
  }

  lemma {:induction false} SlotUpdate(cells: seq<Cell>, i: nat, c: Cell, x: Id)
    requires i < |cells|
    ensures Slots(cells[i := c], x) + CellSlots(cells[i], x) == Slots(cells, x) + CellSlots(c, x)
  {
    var n := |cells| - 1;
    if i == n {
      assert cells[i := c][..n] == cells[..n];
    } else {
      SlotUpdate(cells[..n], i, c, x);
      assert cells[i := c][..n] == cells[..n][i := c];
    }
  }

  lemma SlotAppend(cells: seq<Cell>, c: Cell, x: Id)
    ensures Slots(cells + [c], x) == Slots(cells, x) + CellSlots(c, x)
  {
    assert (cells + [c])[..|cells|] == cells;
  }

  /** How many owning `ifptr` variables point to `x`. */
  ghost function HandleCount(hs: seq<Handle>, x: Id): nat {
    if hs == [] then 0
    else HandleCount(hs[..|hs| - 1], x) + Points(hs[|hs| - 1], x)
  }

  ghost function Points(h: Handle, x: Id): nat {
    if Owns(h) && h.p.value == x then 1 else 0
  }

  lemma {:induction false} HandleRefsCount(hs: seq<Handle>, x: Id)
    ensures HandleRefs(hs)[x] == HandleCount(hs, x)
  {
    if hs != [] {
      HandleRefsCount(hs[..|hs| - 1], x);
    }
  }

  lemma {:induction false} HandleUpdate(hs: seq<Handle>, i: nat, h: Handle, x: Id)
    requires i < |hs|
    ensures HandleCount(hs[i := h], x) + Points(hs[i], x) == HandleCount(hs, x) + Points(h, x)
  {
    var n := |hs| - 1;
    if i == n {
      assert hs[i := h][..n] == hs[..n];
    } else {
      HandleUpdate(hs[..n], i, h, x);
      assert hs[i := h][..n] == hs[..n][i := h];
    }
  }

  lemma HandleUpdateAt(hs: seq<Handle>, i: nat, h: Handle, x: Id)
    requires i < |hs|
    ensures HandleRefs(hs[i := h])[x] + Points(hs[i], x) == HandleRefs(hs)[x] + Points(h, x)
  {
    HandleUpdate(hs, i, h, x);
    HandleRefsCount(hs, x);
    HandleRefsCount(hs[i := h], x);
  }

  /** A handle that stops owning gives its reference up. */
  lemma HandleCleared(hs: seq<Handle>, i: nat, left: Handle)
    requires i < |hs| && !Owns(left)
    ensures HandleRefs(hs[i := left]) + HandleRef(hs[i]) == HandleRefs(hs)
    ensures !Owns(hs[i]) ==> HandleRefs(hs[i := left]) == HandleRefs(hs)
  {
    forall x: Id
      ensures HandleRefs(hs[i := left])[x] + HandleRef(hs[i])[x] == HandleRefs(hs)[x]
    {
      HandleUpdateAt(hs, i, left, x);
    }
  }

  /** A handle that owned nothing starts to own. */
  lemma HandleFilled(hs: seq<Handle>, i: nat, h: Handle)
    requires i < |hs| && !Owns(hs[i])
    ensures HandleRefs(hs[i := h]) == HandleRefs(hs) + HandleRef(h)
    ensures !Owns(h) ==> HandleRefs(hs[i := h]) == HandleRefs(hs)
  {
    forall x: Id
      ensures HandleRefs(hs[i := h])[x] == HandleRefs(hs)[x] + HandleRef(h)[x]
    {
      HandleUpdateAt(hs, i, h, x);
    }
  }

  /** A reference moves from one handle to another that owned none. */
  lemma HandleMoved(hs: seq<Handle>, dst: nat, src: nat, left: Handle)
    requires dst < |hs| && src < |hs| && dst != src && !Owns(hs[dst]) && !Owns(left)
    ensures HandleRefs(hs[dst := hs[src]][src := left]) == HandleRefs(hs)
  {
    forall x: Id
      ensures HandleRefs(hs[dst := hs[src]][src := left])[x] == HandleRefs(hs)[x]
    {
      HandleUpdateAt(hs, dst, hs[src], x);
      HandleUpdateAt(hs[dst := hs[src]], src, left, x);
    }
  }

  lemma HandleOwns(hs: seq<Handle>, i: nat)
    requires i < |hs|
    ensures HandleRef(hs[i]) <= HandleRefs(hs)
  {
    HandleCleared(hs, i, Gone);
  }

  lemma HandleAppend(hs: seq<Handle>, h: Handle)
    ensures HandleRefs(hs + [h]) == HandleRefs(hs) + HandleRef(h)
  {
    assert (hs + [h])[..|hs|] == hs;
  }

  /** A slot of a live cell is counted. */
  lemma {:induction false} SlotCounts(cells: seq<Cell>, h: Id, x: Id)
    requires Holds(cells, h, x)
    ensures Slots(cells, x) > 0
  {
    var n := |cells| - 1;
    if h != n { SlotCounts(cells[..n], h, x); }
  }

  /** Every counted slot belongs to some live cell. */
  lemma {:induction false} SlotOwner(cells: seq<Cell>, x: Id) returns (h: Id)
    requires Slots(cells, x) > 0
    ensures Holds(cells, h, x)
  {
    var n := |cells| - 1;
    if CellSlots(cells[n], x) > 0 { h := n; }
    else { h := SlotOwner(cells[..n], x); }
  }

  // ---------------------------------------------------------------- conservation

  /** Live object `h` has a slot that holds `x`. */
  ghost predicate Holds(cells: seq<Cell>, h: Id, x: Id) {
    IsLive(cells, h) && x in Kids(cells[h].node)
  }

  /** No reference, in a slot or outside, names freed memory. */
  ghost predicate Grounded(cells: seq<Cell>, refs: multiset<Id>) {
    forall x: Id :: x in refs || Slots(cells, x) > 0 ==> IsLive(cells, x)
  }

  /**
    At one address: a live object's count is the references outside plus the
    slots that hold it, and is positive; freed memory is not referenced.
   */
  ghost predicate LawAt(cells: seq<Cell>, refs: multiset<Id>, x: Id) {
    if IsLive(cells, x) then cells[x].count == refs[x] + Slots(cells, x) && cells[x].count >= 1
    else refs[x] == 0 && Slots(cells, x) == 0
  }

  /** The conservation law, at every address. */
  ghost predicate Counted(cells: seq<Cell>, refs: multiset<Id>) {
    forall x: Id :: LawAt(cells, refs, x)
  }

  lemma CountedIsGrounded(cells: seq<Cell>, refs: multiset<Id>)
    requires Counted(cells, refs)
    ensures Grounded(cells, refs)
  {
    forall x: Id | x in refs || Slots(cells, x) > 0 ensures IsLive(cells, x) {
      assert LawAt(cells, refs, x);
    }
  }

  /** Only deletions and count changes happened: survivors keep their contents. */
  ghost predicate Survives(before: seq<Cell>, after: seq<Cell>) {
    && |after| == |before|
    && forall x: Id :: IsLive(after, x) ==> IsLive(before, x) && after[x].node == before[x].node
  }

  ghost function LiveCount(cells: seq<Cell>): nat {
    if cells == [] then 0
    else LiveCount(cells[..|cells| - 1]) + (if cells[|cells| - 1].Live? then 1 else 0)
  }

  lemma {:induction false} LiveUpdate(cells: seq<Cell>, i: nat, c: Cell)
    requires i < |cells|
    ensures LiveCount(cells[i := c]) + (if cells[i].Live? then 1 else 0) ==
      LiveCount(cells) + (if c.Live? then 1 else 0)
  {
    var n := |cells| - 1;
    if i == n {
      assert cells[i := c][..n] == cells[..n];
    } else {
      LiveUpdate(cells[..n], i, c);
      assert cells[i := c][..n] == cells[..n][i := c];
    }
  }

  // ---------------------------------------------------------------- reachability

  ghost predicate IsPath(cells: seq<Cell>, p: seq<Id>) {
    |p| > 0 && forall i :: 0 <= i < |p| - 1 ==> Holds(cells, p[i], p[i + 1])
  }

  ghost predicate PathFromTo(cells: seq<Cell>, p: seq<Id>, x: Id, y: Id) {
    IsPath(cells, p) && p[0] == x && p[|p| - 1] == y
  }

  /** `y` is `x` or is held, through any number of slots, by `x`. */
  ghost predicate Reaches(cells: seq<Cell>, x: Id, y: Id) {
    exists p: seq<Id> :: PathFromTo(cells, p, x, y)
  }

  ghost predicate Reachable(cells: seq<Cell>, refs: multiset<Id>, y: Id) {
    exists x: Id :: x in refs && Reaches(cells, x, y)
  }

  /** No object holds one that leads back to it. */
  ghost predicate Acyclic(cells: seq<Cell>) {
    forall x: Id, y: Id :: Holds(cells, x, y) ==> !Reaches(cells, y, x)
  }

  lemma ReachesSelf(cells: seq<Cell>, x: Id)
    ensures Reaches(cells, x, x)
  {
    assert PathFromTo(cells, [x], x, x);
  }

  lemma ReachesTrans(cells: seq<Cell>, x: Id, y: Id, z: Id)
    requires Reaches(cells, x, y) && Reaches(cells, y, z)
    ensures Reaches(cells, x, z)
  {
    var p :| PathFromTo(cells, p, x, y);
    var q :| PathFromTo(cells, q, y, z);
    assert PathFromTo(cells, p + q[1..], x, z);
  }

  lemma ReachesStep(cells: seq<Cell>, x: Id, y: Id)
    requires Holds(cells, x, y)
    ensures Reaches(cells, x, y)
  {
    assert PathFromTo(cells, [x, y], x, y);
  }

  lemma ReachableStep(cells: seq<Cell>, refs: multiset<Id>, x: Id, y: Id)
    requires Reachable(cells, refs, x) && Holds(cells, x, y)
    ensures Reachable(cells, refs, y)
  {
    var r :| r in refs && Reaches(cells, r, x);
    ReachesStep(cells, x, y);
    ReachesTrans(cells, r, x, y);
  }

  // ---------------------------------------------------------------- what a release keeps

  /** Each member is referenced from outside or held by another member. */
  ghost predicate Supported(cells: seq<Cell>, refs: multiset<Id>, s: set<Id>) {
    forall y :: y in s ==>
      IsLive(cells, y) && (y in refs || exists h :: h in s && Holds(cells, h, y))
  }

  ghost predicate InSupported(cells: seq<Cell>, refs: multiset<Id>, y: Id) {
    exists s: set<Id> :: Supported(cells, refs, s) && y in s
  }

  /** The largest supported set of live objects: what a cascade must leave alive. */
  ghost function Kept(cells: seq<Cell>, refs: multiset<Id>): (k: set<Id>) {
    set y: Id | 0 <= y < |cells| && InSupported(cells, refs, y)
  }

  lemma KeptIsLargest(cells: seq<Cell>, refs: multiset<Id>)
    ensures Supported(cells, refs, Kept(cells, refs))
    ensures forall s: set<Id> :: Supported(cells, refs, s) ==> s <= Kept(cells, refs)
  {
    var k := Kept(cells, refs);
    forall s: set<Id> | Supported(cells, refs, s) ensures s <= k {
      forall y | y in s ensures y in k {}
    }
    forall y | y in k
      ensures IsLive(cells, y) && (y in refs || exists h :: h in k && Holds(cells, h, y))
    {
      var s: set<Id> :| Supported(cells, refs, s) && y in s;
      assert s <= k;
    }
  }

  ghost function LiveSet(cells: seq<Cell>): set<Id> {
    set x: Id | 0 <= x < |cells| && cells[x].Live?
  }

  /** Under the conservation law no live object is unsupported. */
  lemma LiveIsSupported(cells: seq<Cell>, refs: multiset<Id>)
    requires Counted(cells, refs)
    ensures Supported(cells, refs, LiveSet(cells))
  {
    var s := LiveSet(cells);
    forall y | y in s && y !in refs
      ensures exists h :: h in s && Holds(cells, h, y)
    {
      assert LawAt(cells, refs, y);
      var h := SlotOwner(cells, y);
      assert h in s;
    }
  }

  /** Survivors of any release are among the largest supported set of the old heap. */
  lemma SurvivorsAreKept(before: seq<Cell>, after: seq<Cell>, refs: multiset<Id>)
    requires Survives(before, after) && Counted(after, refs)
    ensures LiveSet(after) <= Kept(before, refs)
  {
    LiveIsSupported(after, refs);
    var s := LiveSet(after);
    forall y | y in s
      ensures IsLive(before, y) && (y in refs || exists h :: h in s && Holds(before, h, y))
    {
      if y !in refs {
        var h :| h in s && Holds(after, h, y);
        assert Holds(before, h, y);
      }
    }
    assert Supported(before, refs, s);
    KeptIsLargest(before, refs);
  }

  // ---------------------------------------------------------------- kept versus reachable

  /** Nothing reachable is ever deleted. */
  lemma ReachableIsKept(cells: seq<Cell>, refs: multiset<Id>, y: Id)
    requires Grounded(cells, refs) && Reachable(cells, refs, y)
    ensures y in Kept(cells, refs)
  {
    var x :| x in refs && Reaches(cells, x, y);
    var p :| PathFromTo(cells, p, x, y);
    var s := set z | z in p;
    forall z | z in s
      ensures IsLive(cells, z) && (z in refs || exists h :: h in s && Holds(cells, h, z))
    {
      var i :| 0 <= i < |p| && p[i] == z;
      if i > 0 {
        assert Holds(cells, p[i - 1], p[i]);
        SlotCounts(cells, p[i - 1], p[i]);
        assert p[i - 1] in s;
      }
    }
    assert Supported(cells, refs, s);
    KeptIsLargest(cells, refs);
    assert y in s;
  }

  /** A chain of holders of `y` of any length, or a way in from outside. */
  lemma {:induction false} HolderChain(cells: seq<Cell>, refs: multiset<Id>, s: set<Id>, y: Id, n: nat)
    returns (p: seq<Id>)
    requires Supported(cells, refs, s) && y in s && !Reachable(cells, refs, y)
    ensures |p| == n + 1 && IsPath(cells, p) && p[n] == y
    ensures forall i :: 0 <= i <= n ==> p[i] in s && !Reachable(cells, refs, p[i])
    decreases n
  {
    if n == 0 {
      p := [y];
    } else {
      ReachesSelf(cells, y);
      assert y !in refs;
      var h :| h in s && Holds(cells, h, y);
      if Reachable(cells, refs, h) {
        ReachableStep(cells, refs, h, y);
        assert false;
      }
      var q := HolderChain(cells, refs, s, h, n - 1);
      p := q + [y];
      assert q[|q| - 1] == h;
    }
  }

  lemma {:induction false} Pigeonhole(p: seq<nat>, n: nat) returns (i: nat, j: nat)
    requires |p| > n && forall k :: 0 <= k < |p| ==> p[k] < n
    ensures i < j < |p| && p[i] == p[j]
    decreases n
  {
    var m := |p| - 1;
    if k :| 0 <= k < m && p[k] == p[m] {
      i, j := k, m;
    } else {
      // p[m] occurs once: rename n - 1 to p[m] in the rest and recurse
      var q := seq(m, k requires 0 <= k < m => if p[k] == n - 1 then p[m] else p[k]);
      assert forall k :: 0 <= k < m ==> p[k] != p[m] && q[k] < n;
      if p[m] == n - 1 {
        assert forall k :: 0 <= k < m ==> p[k] != n - 1;
      }
      assert forall k :: 0 <= k < m ==> q[k] < n - 1;
      i, j := Pigeonhole(q, n - 1);
    }
  }

  lemma ReachesAlong(cells: seq<Cell>, p: seq<Id>, i: nat, j: nat)
    requires IsPath(cells, p) && i < j < |p|
    ensures Holds(cells, p[i], p[i + 1]) && Reaches(cells, p[i + 1], p[j])
  {
    assert PathFromTo(cells, p[i + 1..j + 1], p[i + 1], p[j]);
  }

  /** What survives keeps what it holds. */
  lemma KeptClosed(cells: seq<Cell>, refs: multiset<Id>, h: Id, y: Id)
    requires Grounded(cells, refs) && h in Kept(cells, refs) && Holds(cells, h, y)
    ensures y in Kept(cells, refs)
  {
    var k := Kept(cells, refs);
    KeptIsLargest(cells, refs);
    SlotCounts(cells, h, y);
    assert Supported(cells, refs, k + {y});
  }

  lemma {:induction false} KeptAlong(cells: seq<Cell>, refs: multiset<Id>, p: seq<Id>)
    requires Grounded(cells, refs) && IsPath(cells, p) && p[0] in Kept(cells, refs)
    ensures p[|p| - 1] in Kept(cells, refs)
  {
    if |p| > 1 {
      assert Holds(cells, p[0], p[0 + 1]);
      KeptClosed(cells, refs, p[0], p[1]);
      KeptAlong(cells, refs, p[1..]);
    }
  }

  /** An object on a cycle of slots stays. */
  lemma CycleIsKept(cells: seq<Cell>, refs: multiset<Id>, x: Id, y: Id)
    requires Grounded(cells, refs) && Holds(cells, x, y) && Reaches(cells, y, x)
    ensures x in Kept(cells, refs)
  {
    var p :| PathFromTo(cells, p, y, x);
    var s := set z | z in p;
    forall z | z in s
      ensures IsLive(cells, z) && exists h :: h in s && Holds(cells, h, z)
    {
      var i :| 0 <= i < |p| && p[i] == z;
      var h := if i > 0 then p[i - 1] else x;
      assert Holds(cells, h, z) && h in p;
      SlotCounts(cells, h, z);
    }
    assert Supported(cells, refs, s);
    KeptIsLargest(cells, refs);
    assert x in s;
  }

  /** A cycle of slots leads to `y`. */
  ghost predicate FromCycle(cells: seq<Cell>, y: Id) {
    exists x: Id, z: Id :: Holds(cells, x, z) && Reaches(cells, z, x) && Reaches(cells, x, y)
  }

  /** What keeps an object alive: a way in from outside, or a cycle that leads to it. */
  ghost predicate Anchored(cells: seq<Cell>, refs: multiset<Id>, y: Id) {
    Reachable(cells, refs, y) || FromCycle(cells, y)
  }

  lemma UnreachedIsFromCycle(cells: seq<Cell>, refs: multiset<Id>, y: Id)
    requires y in Kept(cells, refs) && !Reachable(cells, refs, y)
    ensures FromCycle(cells, y)
  {
    var k, n := Kept(cells, refs), |cells|;
    KeptIsLargest(cells, refs);
    var p := HolderChain(cells, refs, k, y, n);
    var i, j := Pigeonhole(p, n);
    ReachesAlong(cells, p, i, j);
    assert PathFromTo(cells, p[i..], p[i], y);
  }

  /** In any graph, what a cascade keeps is what can be reached or what a cycle leads to, and nothing else. */
  lemma KeptIsAnchored(cells: seq<Cell>, refs: multiset<Id>)
    requires Grounded(cells, refs)
    ensures forall y: Id :: y in Kept(cells, refs) <==> Anchored(cells, refs, y)
  {
    forall y: Id ensures y in Kept(cells, refs) <==> Anchored(cells, refs, y) {
      if Reachable(cells, refs, y) {
        ReachableIsKept(cells, refs, y);
      } else if FromCycle(cells, y) {
        var x: Id, z: Id :| Holds(cells, x, z) && Reaches(cells, z, x) && Reaches(cells, x, y);
        CycleIsKept(cells, refs, x, z);
        var p :| PathFromTo(cells, p, x, y);
        KeptAlong(cells, refs, p);
      } else if y in Kept(cells, refs) {
        UnreachedIsFromCycle(cells, refs, y);
      }
    }
  }

  lemma ReachableOnward(cells: seq<Cell>, refs: multiset<Id>, x: Id, y: Id)
    requires Reachable(cells, refs, x) && Reaches(cells, x, y)
    ensures Reachable(cells, refs, y)
  {
    var r :| r in refs && Reaches(cells, r, x);
    ReachesTrans(cells, r, x, y);
  }

  /**
    What a cascade keeps is exactly what is still reachable, if and only if no
    unreachable object lies on a cycle. This is when reference counting is exact.
   */
  lemma KeptIsReachableIff(cells: seq<Cell>, refs: multiset<Id>)
    requires Grounded(cells, refs)
    ensures (forall y :: y in Kept(cells, refs) <==> Reachable(cells, refs, y))
       <==> (forall x: Id, y: Id :: Holds(cells, x, y) && Reaches(cells, y, x) ==> Reachable(cells, refs, x))
  {
    KeptIsAnchored(cells, refs);
    if forall x: Id, y: Id :: Holds(cells, x, y) && Reaches(cells, y, x) ==> Reachable(cells, refs, x) {
      forall y | y in Kept(cells, refs) && FromCycle(cells, y) ensures Reachable(cells, refs, y) {
        var x: Id, z: Id :| Holds(cells, x, z) && Reaches(cells, z, x) && Reaches(cells, x, y);
        ReachableOnward(cells, refs, x, y);
      }
    }
    if forall y :: y in Kept(cells, refs) <==> Reachable(cells, refs, y) {
      forall x: Id, y: Id | Holds(cells, x, y) && Reaches(cells, y, x) ensures Reachable(cells, refs, x) {
        CycleIsKept(cells, refs, x, y);
      }
    }
  }

  /** In an acyclic graph a cascade keeps exactly what is still reachable. */
  lemma AcyclicKeptIsReachable(cells: seq<Cell>, refs: multiset<Id>)
    requires Grounded(cells, refs) && Acyclic(cells)
    ensures forall y :: y in Kept(cells, refs) <==> Reachable(cells, refs, y)
  {
    KeptIsReachableIff(cells, refs);
  }

  /** Without outside references an acyclic graph has no live object: nothing leaks. */
  lemma NothingOutsideNothingLive(cells: seq<Cell>)
    requires Counted(cells, multiset{}) && Acyclic(cells)
    ensures forall x: Id :: !IsLive(cells, x)
  {
    CountedIsGrounded(cells, multiset{});
    LiveIsSupported(cells, multiset{});
    KeptIsLargest(cells, multiset{});
    AcyclicKeptIsReachable(cells, multiset{});
    forall x: Id ensures x !in LiveSet(cells) {
      assert !Reachable(cells, multiset{}, x);
    }
    forall x: Id ensures !IsLive(cells, x) {
      assert IsLive(cells, x) ==> x in LiveSet(cells);
    }
  }

  /** A value and a collection that hold each other stay alive with no handle left. */
  function TwoCycle(): seq<Cell> {
    [Live(1, Value(RefTo(ToCollection, 1))), Live(1, Collection([Entry("self", 0)]))]
  }

  lemma CycleLeaks()
    ensures Counted(TwoCycle(), multiset{}) && IsLive(TwoCycle(), 0) && !Acyclic(TwoCycle())
  {
    var c := TwoCycle();
    assert c[..1] == [c[0]] && [c[0]][..0] == [];
    assert EntryTargets(c[1].node.entries) == [0];
    forall x: Id
      ensures Slots(c, x) == if x < 2 then 1 else 0
    {
      assert Slots([c[0]], x) == Slots([c[0]][..0], x) + CellSlots(c[0], x);
    }
    assert Holds(c, 0, 1) && Holds(c, 1, 0);
    ReachesStep(c, 1, 0);
  }

  // ---------------------------------------------------------------- graph changes and cycles

  /** Removing objects or slots creates no cycle. */
  lemma AcyclicShrinks(before: seq<Cell>, after: seq<Cell>)
    requires Acyclic(before)
    requires forall x: Id, y: Id :: Holds(after, x, y) ==> Holds(before, x, y)
    ensures Acyclic(after)
  {
    forall x: Id, y: Id | Holds(after, x, y) ensures !Reaches(after, y, x) {
      if Reaches(after, y, x) {
        var p :| PathFromTo(after, p, y, x);
        assert PathFromTo(before, p, y, x);
        assert Reaches(before, y, x);
      }
    }
  }

  /** With one more slot x -> y, every path either was there or goes through that slot. */
  lemma {:induction false} PathThroughLink(before: seq<Cell>, after: seq<Cell>, x: Id, y: Id, p: seq<Id>)
    requires forall a: Id, b: Id :: Holds(after, a, b) ==> Holds(before, a, b) || (a == x && b == y)
    requires IsPath(after, p)
    ensures Reaches(before, p[0], p[|p| - 1]) || (Reaches(before, p[0], x) && Reaches(before, y, p[|p| - 1]))
  {
    var a, b := p[0], p[|p| - 1];
    if |p| == 1 {
      ReachesSelf(before, a);
    } else {
      assert Holds(after, p[0], p[1]);
      PathThroughLink(before, after, x, y, p[1..]);
      if Holds(before, a, p[1]) {
        ReachesStep(before, a, p[1]);
        if Reaches(before, p[1], b) { ReachesTrans(before, a, p[1], b); }
        else { ReachesTrans(before, a, p[1], x); }
      } else {
        ReachesSelf(before, x);
        // a == x and p[1] == y
      }
    }
  }

  /** Storing `y` in an object `x` keeps the graph acyclic exactly when `y` does not lead to `x`. */
  lemma LinkAcyclicIff(before: seq<Cell>, after: seq<Cell>, x: Id, y: Id)
    requires Acyclic(before)
    requires forall a: Id, b: Id :: Holds(after, a, b) <==> Holds(before, a, b) || (a == x && b == y)
    ensures Acyclic(after) <==> !Reaches(before, y, x)
  {
    assert Holds(after, x, y);
    if Reaches(before, y, x) {
      var p :| PathFromTo(before, p, y, x);
      assert PathFromTo(after, p, y, x);
      assert Reaches(after, y, x);
    } else {
      forall a: Id, b: Id | Holds(after, a, b) ensures !Reaches(after, b, a) {
        if Reaches(after, b, a) {
          var p :| PathFromTo(after, p, b, a);
          PathThroughLink(before, after, x, y, p);
          if Holds(before, a, b) {
            // b leads to x and y to a in the old graph
            ReachesStep(before, a, b);
            ReachesTrans(before, y, a, b);
            ReachesTrans(before, y, b, x);
          }
        }
      }
    }
  }

  lemma {:induction false} PathIsKept(before: seq<Cell>, after: seq<Cell>, refs: multiset<Id>, p: seq<Id>)
    requires Grounded(before, refs) && Survives(before, after) && LiveSet(after) == Kept(before, refs)
    requires IsPath(before, p) && p[0] in Kept(before, refs)
    ensures IsPath(after, p) && p[|p| - 1] in Kept(before, refs)
  {
    if |p| > 1 {
      var q := p[..|p| - 1];
      PathIsKept(before, after, refs, q);
      var a, b := q[|q| - 1], p[|p| - 1];
      assert Holds(before, p[|q| - 1], p[|q| - 1 + 1]);
      KeptClosed(before, refs, a, b);
      assert a in LiveSet(after) && Holds(after, a, b);
      forall i | 0 <= i < |p| - 1 ensures Holds(after, p[i], p[i + 1]) {
        if i < |q| - 1 { assert Holds(after, q[i], q[i + 1]); }
      }
    }
  }

  /** A release frees no cycle and makes none. */
  lemma ExactKeepsCycles(before: seq<Cell>, after: seq<Cell>, refs: multiset<Id>)
    requires Grounded(before, refs) && Survives(before, after) && LiveSet(after) == Kept(before, refs)
    ensures Acyclic(after) <==> Acyclic(before)
  {
    assert forall x: Id, y: Id :: Holds(after, x, y) ==> Holds(before, x, y);
    if Acyclic(before) {
      AcyclicShrinks(before, after);
    } else {
      var x: Id, y: Id :| Holds(before, x, y) && Reaches(before, y, x);
      CycleIsKept(before, refs, x, y);
      KeptClosed(before, refs, x, y);
      var p :| PathFromTo(before, p, y, x);
      PathIsKept(before, after, refs, p);
      assert PathFromTo(after, p, y, x) && Reaches(after, y, x);
      assert x in LiveSet(after) && Holds(after, x, y);
    }
  }

  /** More slots that hold only survivors let nothing more survive. */
  lemma KeptWithMoreSlots(cells: seq<Cell>, more: seq<Cell>, refs: multiset<Id>)
    requires |cells| == |more| && forall x: Id :: IsLive(cells, x) <==> IsLive(more, x)
    requires forall a: Id, b: Id :: Holds(cells, a, b) ==> Holds(more, a, b)
    requires forall a: Id, b: Id :: Holds(more, a, b) ==> Holds(cells, a, b) || b in Kept(cells, refs)
    ensures Kept(more, refs) == Kept(cells, refs)
  {
    var k, l := Kept(cells, refs), Kept(more, refs);
    KeptIsLargest(cells, refs);
    KeptIsLargest(more, refs);
    assert Supported(more, refs, k);
    forall y | y in k + l && y !in refs ensures exists h :: h in k + l && Holds(cells, h, y) {
      if y in k {
        var h :| h in k && Holds(cells, h, y);
        assert h in k + l;
      } else {
        var h :| h in l && Holds(more, h, y);
        assert h in k + l && Holds(cells, h, y);
      }
    }
    assert Supported(cells, refs, k + l);
  }

  /** Objects in the same places with the same contents; counts may differ. */
  ghost predicate SameNodes(a: seq<Cell>, b: seq<Cell>) {
    Survives(a, b) && Survives(b, a)
  }

  lemma SameNodesKept(a: seq<Cell>, b: seq<Cell>, refs: multiset<Id>)
    requires SameNodes(a, b)
    ensures Kept(a, refs) == Kept(b, refs) && (Acyclic(a) <==> Acyclic(b))
  {
    assert forall x: Id, y: Id :: Holds(a, x, y) <==> Holds(b, x, y);
    KeptWithMoreSlots(a, b, refs);
    if Acyclic(a) { AcyclicShrinks(a, b); }
    if Acyclic(b) { AcyclicShrinks(b, a); }
  }

  /** Two releases in a row leave what one release of both references would. */
  lemma KeptTwice(before: seq<Cell>, mid: seq<Cell>, more: multiset<Id>, refs: multiset<Id>)
    requires Survives(before, mid) && LiveSet(mid) == Kept(before, more) && refs <= more
    ensures Kept(mid, refs) == Kept(before, refs)
  {
    var k, l := Kept(before, refs), Kept(mid, refs);
    KeptIsLargest(before, refs);
    KeptIsLargest(before, more);
    KeptIsLargest(mid, refs);
    assert Supported(before, more, k);
    assert forall x :: x in k ==> x in LiveSet(mid);
    forall y | y in k && y !in refs ensures exists h :: h in k && Holds(mid, h, y) {
      var h :| h in k && Holds(before, h, y);
      assert Holds(mid, h, y);
    }
    assert Supported(mid, refs, k);
    forall y | y in l && y !in refs ensures exists h :: h in l && Holds(before, h, y) {
      var h :| h in l && Holds(mid, h, y);
      assert Holds(before, h, y);
    }
    assert Supported(before, refs, l);
  }

  /** Deletions leave no more slots. */
  lemma {:induction false} FewerSlots(before: seq<Cell>, after: seq<Cell>, x: Id)
    requires Survives(before, after)
    ensures Slots(after, x) <= Slots(before, x)
  {
    if before != [] {
      var n := |before| - 1;
      forall y: Id | IsLive(after[..n], y) ensures IsLive(before[..n], y) && after[..n][y].node == before[..n][y].node {
        assert IsLive(after, y);
      }
      FewerSlots(before[..n], after[..n], x);
      assert IsLive(after, n) ==> IsLive(before, n) && after[n].node == before[n].node;
    }
  }
}
