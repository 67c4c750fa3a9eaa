/**
  Whole runs of the value graph: any sequence of the operations of corelib, from
  the empty heap, and what it leaves alive.
 */
module GraphRuns {
  import opened Sequences
  import opened RefCounting
  import opened ValueGraph

  /** The heap, the `ifptr` variables and the references of plain pointers. */
  datatype Snapshot = Snapshot(cells: seq<Cell>, handles: seq<Handle>, raw: multiset<Id>)

  datatype Op =
    | Make(node: Node)                                    // create_value, create_collection, ...
    | TakeRef(x: Id)                                      // addref
    | GiveUp(x: Id)                                       // release
    | PutScalar(v: Id, plain: Plain)                      // set_as_int, ...
    | PutRef(v: Id, kind: RefKind, t: Id)                 // set_as_collection, ...
    | PutEntry(c: Id, name: string, v: Id)                // set_value
    | Append(a: Id, v: Id)                                // push_back
    | Wrap(p: Option<Id>, auto: bool)                     // ifptr(p, auto_release)
    | Copy(h: nat)
    | Assign(dst: nat, h: nat)
    | MoveNew(h: nat)
    | MoveInto(dst: nat, h: nat)
    | Detach(h: nat)
    | Destroy(h: nat)
    | Put(c: Id, name: string, content: Payload)          // coll_helper::set_value_as_*

  ghost function RefsOf(s: Snapshot): multiset<Id> {
    s.raw + HandleRefs(s.handles)
  }

  ghost predicate Lawful(s: Snapshot) {
    Sound(s.cells, RefsOf(s))
  }

  predicate HasHandle(s: Snapshot, h: nat) {
    h < |s.handles| && s.handles[h].Handle?
  }

  /** Entries of a collection but the one to be replaced. */
  function Rest(s: Snapshot, c: Id, name: string): (r: Node)
    requires IsLive(s.cells, c) && s.cells[c].node.Collection?
  {
    Collection(Without(s.cells[c].node.entries, name))
  }

  /** What the code asks of a caller: live objects of the right kind, and owned references only are given up. */
  ghost predicate Legal(s: Snapshot, op: Op) {
    match op
    case Make(node) => IsFresh(node)
    case TakeRef(x) => IsLive(s.cells, x)
    case GiveUp(x) => x in s.raw
    case PutScalar(v, _) => IsLive(s.cells, v) && s.cells[v].node.Value?
    case PutRef(v, kind, t) =>
      IsLive(s.cells, v) && s.cells[v].node.Value? && IsLive(s.cells, t) && MatchesKind(kind, s.cells[t].node)
    case PutEntry(c, _, v) =>
      IsLive(s.cells, c) && s.cells[c].node.Collection? && IsLive(s.cells, v) && s.cells[v].node.Value?
    case Append(a, v) => IsLive(s.cells, a) && s.cells[a].node.Array? && IsLive(s.cells, v) && s.cells[v].node.Value?
    case Wrap(p, auto) => p.Some? && auto ==> p.value in s.raw
    case Copy(h) => HasHandle(s, h)
    case Assign(dst, h) => HasHandle(s, dst) && HasHandle(s, h)
    case MoveNew(h) => HasHandle(s, h)
    case MoveInto(dst, h) => HasHandle(s, dst) && HasHandle(s, h)
    case Detach(h) => HasHandle(s, h)
    case Destroy(h) => HasHandle(s, h)
    case Put(c, _, content) =>
      IsLive(s.cells, c) && s.cells[c].node.Collection? && Reachable(s.cells, RefsOf(s), c) &&
        Storable(s.cells, content)
  }

  /** The store would touch memory that its own release of the old content has freed. */
  ghost predicate Faults(s: Snapshot, op: Op)
    requires Legal(s, op)
  {
    match op
    case PutScalar(v, _) => v !in Kept(Rewrite(s.cells, v, Value(Empty)), RefsOf(s))
    case PutRef(v, _, t) =>
      var kept := Kept(Rewrite(s.cells, v, Value(Empty)), RefsOf(s));
      v !in kept || t !in kept
    case PutEntry(c, name, v) =>
      var kept := Kept(Rewrite(s.cells, c, Rest(s, c, name)), RefsOf(s));
      c !in kept || v !in kept
    case _ => false
  }

  /** The new content leads to its container, the old content gone. */
  ghost predicate ClosesCycle(s: Snapshot, op: Op)
    requires Legal(s, op)
  {
    match op
    case PutRef(v, _, t) => Reaches(Rewrite(s.cells, v, Value(Empty)), t, v)
    case PutEntry(c, name, v) => Reaches(Rewrite(s.cells, c, Rest(s, c, name)), v, c)
    case Append(a, v) => Reaches(s.cells, v, a)
    case Put(c, name, content) => LeadsBack(Rewrite(s.cells, c, Rest(s, c, name)), c, content)
    case _ => false
  }

  /** What an operation that does not fault makes of the heap and the references. */
  ghost predicate Outcome(s: Snapshot, op: Op, t: Snapshot)
    requires Legal(s, op)
  {
    var refs := RefsOf(t);
    match op
    case Make(node) => t == Snapshot(s.cells + [Live(1, node)], s.handles, s.raw + multiset{|s.cells|})
    case TakeRef(x) => t == Snapshot(Recount(s.cells, x, s.cells[x].count + 1), s.handles, s.raw + multiset{x})
    case GiveUp(x) => t.handles == s.handles && t.raw == s.raw - multiset{x} && Exact(s.cells, t.cells, refs)
    case PutScalar(v, plain) => SameOwners(s, t) &&
      Stored(s.cells, t.cells, refs, v, Value(Empty), Value(Scalar(plain)))
    case PutRef(v, kind, x) => SameOwners(s, t) &&
      Stored(s.cells, t.cells, refs, v, Value(Empty), Value(RefTo(kind, x)))
    case PutEntry(c, name, v) =>
      SameOwners(s, t) &&
      Stored(s.cells, t.cells, refs, c, Rest(s, c, name), Collection(Rest(s, c, name).entries + [Entry(name, v)]))
    case Append(a, v) =>
      SameOwners(s, t) && Stored(s.cells, t.cells, refs, a, s.cells[a].node, Array(s.cells[a].node.items + [v]))
    case Wrap(p, auto) =>
      t == Snapshot(s.cells, s.handles + [Handle(p, auto)], s.raw - HandleRef(Handle(p, auto)))
    case Copy(h) => t.raw == s.raw && t.handles == s.handles + [s.handles[h]] && Exact(s.cells, t.cells, refs)
    case Assign(dst, h) => t.raw == s.raw && t.handles == s.handles[dst := s.handles[h]] &&
      Exact(s.cells, t.cells, refs)
    case MoveNew(h) => t == Snapshot(s.cells, s.handles[h := Handle(None, false)] + [s.handles[h]], s.raw)
    case MoveInto(dst, h) =>
      t.raw == s.raw && t.handles == s.handles[dst := s.handles[h]][h := Handle(None, false)] &&
        Exact(s.cells, t.cells, refs)
    case Detach(h) => t == Snapshot(s.cells, s.handles[h := Handle(None, false)], s.raw + HandleRef(s.handles[h]))
    case Destroy(h) => t.raw == s.raw && t.handles == s.handles[h := Gone] && Exact(s.cells, t.cells, refs)
    case Put(c, name, content) =>
      t.raw == s.raw && t.handles == s.handles + [Gone] &&
      HelperResult(s.cells, t.cells, refs, c, Rest(s, c, name).entries, name, |s.cells|, content)
  }

  ghost predicate SameOwners(s: Snapshot, t: Snapshot) {
    t.handles == s.handles && t.raw == s.raw
  }

  /** A step of a run: a legal operation that does not fault, and its outcome, which obeys the law. */
  ghost predicate Took(s: Snapshot, op: Op, t: Snapshot) {
    Legal(s, op) && !Faults(s, op) && Outcome(s, op, t) && Lawful(t)
  }

  ghost function Now(g: Graph): Snapshot
    reads g
  {
    Snapshot(g.cells, g.handles, g.raw)
  }

  predicate IsStore(op: Op) {
    op.PutScalar? || op.PutRef? || op.PutEntry? || op.Append?
  }

  predicate IsCounting(op: Op) {
    op.Make? || op.TakeRef? || op.GiveUp?
  }

  predicate IsTakeover(op: Op) {
    op.Wrap? || op.MoveNew? || op.Detach?
  }

  predicate IsHandling(op: Op) {
    op.Copy? || op.Assign? || op.MoveInto? || op.Destroy?
  }

  /** The operations of the heap are these steps. `ok` is false exactly when a store faults. */
  method Perform(g: Graph, op: Op) returns (ok: bool)
    requires g.Valid() && Legal(Now(g), op)
    modifies g
    ensures g.Valid() && (ok <==> !Faults(old(Now(g)), op))
    ensures ok ==> Took(old(Now(g)), op, Now(g))
  {
    ok := true;
    if IsStore(op) {
      ok := PerformStore(g, op);
    } else if IsCounting(op) {
      PerformCounting(g, op);
    } else if IsTakeover(op) {
      PerformTakeover(g, op);
    } else if op.Put? {
      PerformPut(g, op);
    } else {
      PerformHandle(g, op);
    }
  }

  method PerformStore(g: Graph, op: Op) returns (ok: bool)
    requires g.Valid() && Legal(Now(g), op) && IsStore(op)
    modifies g
    ensures g.Valid() && (ok <==> !Faults(old(Now(g)), op))
    ensures ok ==> Took(old(Now(g)), op, Now(g))
  {
    match op {
      case PutScalar(v, plain) => ok := g.SetScalar(v, plain);
      case PutRef(v, kind, t) => ok := g.SetRef(v, kind, t);
      case PutEntry(c, name, v) => ok := g.SetValue(c, name, v);
      case Append(a, v) => g.PushBack(a, v); ok := true;
    }
  }

  method PerformCounting(g: Graph, op: Op)
    requires g.Valid() && Legal(Now(g), op) && IsCounting(op)
    modifies g
    ensures g.Valid() && Took(old(Now(g)), op, Now(g))
  {
    match op {
      case Make(node) => var x := g.Create(node);
      case TakeRef(x) => g.AddRef(x);
      case GiveUp(x) => g.Release(x);
    }
  }

  method PerformTakeover(g: Graph, op: Op)
    requires g.Valid() && Legal(Now(g), op) && IsTakeover(op)
    modifies g
    ensures g.Valid() && Took(old(Now(g)), op, Now(g))
  {
    if op.Wrap? {
      var h := g.Adopt(op.p, op.auto);
    } else if op.Detach? {
      var p := g.Detach(op.h);
    } else {
      PerformMoveNew(g, op);
    }
  }

  method PerformMoveNew(g: Graph, op: Op)
    requires g.Valid() && Legal(Now(g), op) && op.MoveNew?
    modifies g
    ensures g.Valid() && Took(old(Now(g)), op, Now(g))
  {
    var x := g.MoveConstruct(op.h);
  }

  method PerformPut(g: Graph, op: Op)
    requires g.Valid() && Legal(Now(g), op) && op.Put?
    modifies g
    ensures g.Valid() && Took(old(Now(g)), op, Now(g))
  {
    var v := g.SetValueAs(op.c, op.name, op.content);
  }

  method PerformHandle(g: Graph, op: Op)
    requires g.Valid() && Legal(Now(g), op) && IsHandling(op)
    modifies g
    ensures g.Valid() && Took(old(Now(g)), op, Now(g))
  {
    match op {
      case Copy(h) => var x := g.CopyConstruct(h);
      case Assign(dst, h) => g.Assign(dst, h);
      case MoveInto(dst, h) => g.MoveAssign(dst, h);
      case Destroy(h) => g.Destruct(h);
    }
  }

  // ---------------------------------------------------------------- cycles in one step

  /** Rewriting an object to hold nothing more, and freeing, make no cycle. */
  lemma ScalarKeepsAcyclic(before: seq<Cell>, after: seq<Cell>, refs: multiset<Id>, v: Id, plain: Plain)
    requires Sound(before, refs) && Sound(after, refs) && Acyclic(before) && IsLive(before, v)
    requires Stored(before, after, refs, v, Value(Empty), Value(Scalar(plain)))
    ensures Acyclic(after)
  {
    StoredIsExact(before, after, refs, v, Value(Empty), Value(Scalar(plain)));
    HoldsOfCut(before, v, Value(Scalar(plain)));
    AcyclicShrinks(before, Rewrite(before, v, Value(Scalar(plain))));
    ExactKeepsCycles(Rewrite(before, v, Value(Scalar(plain))), after, refs);
  }

  lemma FreshKeepsAcyclic(cells: seq<Cell>, node: Node)
    requires Acyclic(cells) && IsFresh(node)
    ensures Acyclic(cells + [Live(1, node)])
  {
    assert Kids(node) == [];
    AcyclicShrinks(cells, cells + [Live(1, node)]);
  }

  /** The stores that add a slot. */
  lemma StoreStepAcyclicIff(s: Snapshot, op: Op, t: Snapshot)
    requires Lawful(s) && Took(s, op, t) && Acyclic(s.cells) && (op.PutRef? || op.PutEntry? || op.Append?)
    ensures Acyclic(t.cells) <==> !ClosesCycle(s, op)
  {
    var refs := RefsOf(s);
    match op {
      case PutRef(v, kind, x) =>
        RefNodes(kind, x);
        StoreAcyclicIff(s.cells, t.cells, refs, v, Value(Empty), Value(RefTo(kind, x)), x);
      case PutEntry(c, name, v) =>
        var rest := Rest(s, c, name);
        EntryNodes(s.cells[c].node.entries, name, v);
        StoreAcyclicIff(s.cells, t.cells, refs, c, rest, Collection(rest.entries + [Entry(name, v)]), v);
      case Append(a, v) =>
        assert Rewrite(s.cells, a, s.cells[a].node) == s.cells;
        StoreAcyclicIff(s.cells, t.cells, refs, a, s.cells[a].node, Array(s.cells[a].node.items + [v]), v);
    }
  }

  lemma PutIsResult(s: Snapshot, op: Op, t: Snapshot)
    requires Legal(s, op) && op.Put? && Outcome(s, op, t)
    ensures HelperResult(s.cells, t.cells, RefsOf(s), op.c, Rest(s, op.c, op.name).entries, op.name, |s.cells|,
                         op.content)
  {
    HandleAppend(s.handles, Gone);
    assert RefsOf(t) == RefsOf(s);
  }

  lemma PutStepAcyclicIff(s: Snapshot, op: Op, t: Snapshot)
    requires Lawful(s) && Took(s, op, t) && Acyclic(s.cells) && op.Put?
    ensures Acyclic(t.cells) <==> !ClosesCycle(s, op)
  {
    PutIsResult(s, op, t);
    HelperAcyclicIff(s.cells, t.cells, RefsOf(s), op.c, Rest(s, op.c, op.name).entries, op.name, |s.cells|, op.content);
  }

  lemma CountingStepAcyclicIff(s: Snapshot, op: Op, t: Snapshot)
    requires Lawful(s) && Took(s, op, t) && Acyclic(s.cells) && IsCounting(op)
    ensures Acyclic(t.cells)
  {
    match op {
      case Make(node) => FreshKeepsAcyclic(s.cells, node);
      case TakeRef(x) => AcyclicShrinks(s.cells, t.cells);
      case GiveUp(_) => ReleaseKeepsCycles(s.cells, RefsOf(s), t.cells, RefsOf(t));
    }
  }

  lemma HandlingIsExact(s: Snapshot, op: Op, t: Snapshot)
    requires Legal(s, op) && IsHandling(op) && Outcome(s, op, t)
    ensures Exact(s.cells, t.cells, RefsOf(t))
  {}

  lemma TakeoverLeavesHeap(s: Snapshot, op: Op, t: Snapshot)
    requires Legal(s, op) && IsTakeover(op) && Outcome(s, op, t)
    ensures t.cells == s.cells
  {}

  /** From an acyclic graph, a step leads to one exactly when it is not a store that closes a cycle. */
  lemma StepAcyclicIff(s: Snapshot, op: Op, t: Snapshot)
    requires Lawful(s) && Took(s, op, t) && Acyclic(s.cells)
    ensures Acyclic(t.cells) <==> !ClosesCycle(s, op)
  {
    if op.PutScalar? {
      ScalarKeepsAcyclic(s.cells, t.cells, RefsOf(t), op.v, op.plain);
    } else if IsStore(op) {
      StoreStepAcyclicIff(s, op, t);
    } else if op.Put? {
      PutStepAcyclicIff(s, op, t);
    } else if IsCounting(op) {
      CountingStepAcyclicIff(s, op, t);
    } else if IsTakeover(op) {
      TakeoverLeavesHeap(s, op, t);
    } else {
      HandlingIsExact(s, op, t);
      ReleaseKeepsCycles(s.cells, RefsOf(s), t.cells, RefsOf(t));
    }
  }

  // ---------------------------------------------------------------- runs

  ghost predicate IsRun(states: seq<Snapshot>, ops: seq<Op>) {
    && |states| == |ops| + 1 && states[0] == Snapshot([], [], multiset{})
    && forall i :: 0 <= i < |ops| ==> StepAt(states, ops, i)
  }

  ghost predicate StepAt(states: seq<Snapshot>, ops: seq<Op>, i: nat)
    requires i < |ops| && |states| == |ops| + 1
  {
    Took(states[i], ops[i], states[i + 1])
  }

  /** A run starts with a new heap. */
  method Begin() returns (g: Graph)
    ensures fresh(g) && g.Valid() && IsRun([Now(g)], [])
  {
    g := new Graph();
  }

  /**
    Operations executed one after the other on that heap are a run, and the law
    holds after each. A run ends where a store faults.
   */
  method Execute(g: Graph, op: Op, ghost states: seq<Snapshot>, ghost ops: seq<Op>) returns (ok: bool)
    requires IsRun(states + [Now(g)], ops) && Legal(Now(g), op)
    modifies g
    ensures g.Valid() && (ok <==> !Faults(old(Now(g)), op))
    ensures ok ==> IsRun(states + [old(Now(g))] + [Now(g)], ops + [op])
  {
    ghost var before := states + [Now(g)];
    LawfulAt(before, ops, |ops|);
    ok := Perform(g, op);
    if ok {
      RunGrows(before, ops, op, Now(g));
    }
  }

  lemma LawfulAt(states: seq<Snapshot>, ops: seq<Op>, i: nat)
    requires IsRun(states, ops) && i <= |ops|
    ensures Lawful(states[i])
  {
    if i > 0 { assert StepAt(states, ops, i - 1); }
  }

  lemma RunGrows(states: seq<Snapshot>, ops: seq<Op>, op: Op, t: Snapshot)
    requires IsRun(states, ops) && Took(states[|ops|], op, t)
    ensures IsRun(states + [t], ops + [op])
  {
    var now, all := states + [t], ops + [op];
    forall i | 0 <= i < |all| ensures StepAt(now, all, i) {
      if i < |ops| { assert StepAt(states, ops, i); }
    }
  }

  ghost predicate MakesCycle(s: Snapshot, op: Op) {
    Legal(s, op) && ClosesCycle(s, op)
  }

  /** No store among the first `n` operations closes a cycle. */
  ghost predicate NoCycleMade(states: seq<Snapshot>, ops: seq<Op>, n: nat)
    requires n <= |ops| <= |states|
  {
    forall i :: 0 <= i < n ==> !MakesCycle(states[i], ops[i])
  }

  ghost predicate AcyclicThroughout(states: seq<Snapshot>, n: nat)
    requires n < |states|
  {
    forall i :: 0 <= i <= n ==> Acyclic(states[i].cells)
  }

  lemma AcyclicOneMore(states: seq<Snapshot>, n: nat)
    requires 0 < n < |states|
    ensures AcyclicThroughout(states, n) <==> AcyclicThroughout(states, n - 1) && Acyclic(states[n].cells)
  {}

  lemma NoCycleOneMore(states: seq<Snapshot>, ops: seq<Op>, n: nat)
    requires 0 < n <= |ops| <= |states|
    ensures NoCycleMade(states, ops, n) <==> NoCycleMade(states, ops, n - 1) && !MakesCycle(states[n - 1], ops[n - 1])
  {}

  lemma RunStep(states: seq<Snapshot>, ops: seq<Op>, i: nat)
    requires IsRun(states, ops) && i < |ops|
    ensures Acyclic(states[i].cells) ==> (Acyclic(states[i + 1].cells) <==> !MakesCycle(states[i], ops[i]))
  {
    LawfulAt(states, ops, i);
    assert StepAt(states, ops, i);
    if Acyclic(states[i].cells) { StepAcyclicIff(states[i], ops[i], states[i + 1]); }
  }

  /** The graph stays acyclic throughout a run if and only if no store of the run closes a cycle. */
  lemma {:induction false} RunAcyclicIff(states: seq<Snapshot>, ops: seq<Op>, n: nat)
    requires IsRun(states, ops) && n <= |ops|
    ensures AcyclicThroughout(states, n) <==> NoCycleMade(states, ops, n)
  {
    if n == 0 {
      StartIsAcyclic(states[0]);
    } else {
      RunAcyclicIff(states, ops, n - 1);
      RunStep(states, ops, n - 1);
      AcyclicOneMore(states, n);
      NoCycleOneMore(states, ops, n);
      assert AcyclicThroughout(states, n - 1) ==> Acyclic(states[n - 1].cells);
    }
  }

  lemma StartIsAcyclic(s: Snapshot)
    requires s.cells == []
    ensures Acyclic(s.cells)
  {}

  /**
    No leak: in a run none of whose stores closes a cycle, exactly the objects that
    outside references can reach are alive at the end, and without any, none is.
   */
  lemma NothingLeaks(states: seq<Snapshot>, ops: seq<Op>)
    requires IsRun(states, ops) && NoCycleMade(states, ops, |ops|)
    ensures var last := states[|ops|];
      && (forall y: Id :: IsLive(last.cells, y) <==> Reachable(last.cells, RefsOf(last), y))
      && (RefsOf(last) == multiset{} ==> forall y: Id :: !IsLive(last.cells, y))
  {
    RunAcyclicIff(states, ops, |ops|);
    LawfulAt(states, ops, |ops|);
    LiveIsReachable(states[|ops|].cells, RefsOf(states[|ops|]));
  }

  lemma LiveIsReachable(cells: seq<Cell>, refs: multiset<Id>)
    requires Counted(cells, refs) && Acyclic(cells)
    ensures forall y: Id :: IsLive(cells, y) <==> Reachable(cells, refs, y)
  {
    CountedIsGrounded(cells, refs);
    AcyclicKeptIsReachable(cells, refs);
    CountedKeepsAll(cells, refs);
    assert forall y: Id :: IsLive(cells, y) <==> y in LiveSet(cells);
  }
}
