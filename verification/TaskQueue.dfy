/**
  The waiting queue of the multi-transfer engine (core/curl_multi_handler.cpp):
  a deque ordered by priority, where a lower number is a higher priority.
 */
module TaskQueue {
  import opened Sequences

  /**
    A `curl_task`. `token` is the identity of the object, `id` and `priority`
    are what its context reports and several tasks may share them.
   */
  datatype Task = Task(token: nat, id: int, priority: int)

  const PRIORITY_PROTOCOL := 2

  ghost predicate Sorted(q: seq<Task>) {
    forall i, j :: 0 <= i < j < |q| ==> q[i].priority <= q[j].priority
  }

  /** Before the first task that has a larger number, or at the end. */
  function Position(q: seq<Task>, t: Task): (i: nat)
    ensures i <= |q|
    ensures forall k :: 0 <= k < i ==> q[k].priority <= t.priority
    ensures i < |q| ==> t.priority < q[i].priority
  {
    if q == [] || t.priority < q[0].priority then 0 else 1 + Position(q[1..], t)
  }

  function Insert(q: seq<Task>, t: Task): (r: seq<Task>)
  {
    var i := Position(q, t);
    q[..i] + [t] + q[i..]
  }

  function IndexOfId(q: seq<Task>, id: int): (i: nat)
    ensures i <= |q|
    ensures forall k :: 0 <= k < i ==> q[k].id != id
    ensures i < |q| ==> q[i].id == id
  {
    if q == [] || q[0].id == id then 0 else 1 + IndexOfId(q[1..], id)
  }

  /** The first task with the id is taken out and put back by its priority. */
  function Raise(q: seq<Task>, id: int): (r: seq<Task>)
  {
    var i := IndexOfId(q, id);
    if i == |q| then q else Insert(RemoveAt(q, i), q[i])
  }

  /** The tasks of one priority, in queue order. */
  ghost function Class(q: seq<Task>, p: int): seq<Task> {
    if q == [] then []
    else if q[|q| - 1].priority == p then Class(q[..|q| - 1], p) + [q[|q| - 1]]
    else Class(q[..|q| - 1], p)
  }

  lemma {:induction false} ClassConcat(a: seq<Task>, b: seq<Task>, p: int)
    ensures Class(a + b, p) == Class(a, p) + Class(b, p)
  {
    if b == [] {
      assert a + b == a;
    } else {
      ClassConcat(a, b[..|b| - 1], p);
      assert (a + b)[..|a + b| - 1] == a + b[..|b| - 1];
    }
  }

  lemma {:induction false} ClassEmpty(q: seq<Task>, p: int)
    requires forall k :: 0 <= k < |q| ==> q[k].priority != p
    ensures Class(q, p) == []
  {
    if q != [] { ClassEmpty(q[..|q| - 1], p); }
  }

  lemma InsertIsSorted(q: seq<Task>, t: Task)
    requires Sorted(q)
    ensures Sorted(Insert(q, t))
  {
    var i := Position(q, t);
    var r := Insert(q, t);
    forall k | 0 <= k < |q| ensures k < i ==> q[k].priority <= t.priority
      ensures i <= k ==> t.priority < q[k].priority {
      if i <= k { assert q[i].priority <= q[k].priority; }
    }
    assert forall k :: 0 <= k < |r| ==> r[k] == if k < i then q[k] else if k == i then t else q[k - 1];
  }

  lemma InsertIsPermutation(q: seq<Task>, t: Task)
    ensures multiset(Insert(q, t)) == multiset(q) + multiset{t}
  {
    var i := Position(q, t);
    assert q == q[..i] + q[i..];
  }

  lemma BehindPosition(q: seq<Task>, t: Task)
    requires Sorted(q)
    ensures Class(q[Position(q, t)..], t.priority) == []
  {
    var i := Position(q, t);
    forall k | i <= k < |q| ensures q[k].priority != t.priority {
      assert k == i || q[i].priority <= q[k].priority;
    }
    ClassEmpty(q[i..], t.priority);
  }

  lemma ClassAround(front: seq<Task>, t: Task, back: seq<Task>, p: int)
    ensures Class((front + [t]) + back, p)
         == (if t.priority == p then Class(front, p) + [t] else Class(front, p)) + Class(back, p)
  {
    ClassConcat(front + [t], back, p);
    assert (front + [t])[..|front|] == front;
  }

  lemma InsertByClass(q: seq<Task>, t: Task, p: int)
    requires Sorted(q)
    ensures Class(Insert(q, t), p) == Class(q, p) + (if t.priority == p then [t] else [])
  {
    var i := Position(q, t);
    assert q == q[..i] + q[i..];
    if t.priority == p { BehindPosition(q, t); }
    ClassBetween(q[..i], t, q[i..], p);
  }

  /** A task between two parts, the second without its class, comes last in its class. */
  lemma ClassBetween(front: seq<Task>, t: Task, back: seq<Task>, p: int)
    requires t.priority == p ==> Class(back, p) == []
    ensures Class((front + [t]) + back, p) == Class(front + back, p) + (if t.priority == p then [t] else [])
  {
    ClassAround(front, t, back, p);
    ClassConcat(front, back, p);
    if t.priority == p {
      assert Class(front + back, p) == Class(front, p);
    }
  }

  /**
    Insertion into a sorted queue keeps it sorted and is first in, first out
    within a priority: the new task comes last of its own class and no other
    class changes.
   */
  lemma InsertIsFair(q: seq<Task>, t: Task, p: int)
    requires Sorted(q)
    ensures Sorted(Insert(q, t)) && multiset(Insert(q, t)) == multiset(q) + multiset{t}
    ensures Class(Insert(q, t), p) == Class(q, p) + (if t.priority == p then [t] else [])
  {
    InsertIsSorted(q, t);
    InsertIsPermutation(q, t);
    InsertByClass(q, t, p);
  }

  ghost predicate SameClasses(a: seq<Task>, b: seq<Task>) {
    forall p :: Class(a, p) == Class(b, p)
  }

  lemma SomeClass(q: seq<Task>) returns (p: int)
    ensures q != [] ==> Class(q, p) != []
  {
    p := if q == [] then 0 else q[|q| - 1].priority;
  }

  /** A sorted queue is determined by its classes: priority and arrival order say it all. */
  lemma {:induction false} SortedByClasses(a: seq<Task>, b: seq<Task>)
    requires Sorted(a) && Sorted(b) && SameClasses(a, b)
    ensures a == b
  {
    if a == [] || b == [] {
      var p := SomeClass(a);
      var r := SomeClass(b);
      assert Class(a, p) == Class(b, p) && Class(a, r) == Class(b, r);
    } else {
      var a', b' := a[..|a| - 1], b[..|b| - 1];
      var x, y := a[|a| - 1], b[|b| - 1];
      LastIsGreatest(a, b);
      LastIsGreatest(b, a);
      assert Class(a', x.priority) + [x] == Class(a, x.priority) == Class(b, x.priority) == Class(b', x.priority) + [y];
      assert x == (Class(a', x.priority) + [x])[|Class(a, x.priority)| - 1] == y;
      forall p ensures Class(a', p) == Class(b', p) {
        assert Class(a, p) == Class(b, p);
        assert Class(a', p) == Class(a, p)[..|Class(a', p)|];
        assert Class(b', p) == Class(b, p)[..|Class(b', p)|];
      }
      SortedByClasses(a', b');
    }
  }

  lemma LastIsGreatest(a: seq<Task>, b: seq<Task>)
    requires Sorted(b) && a != [] && b != []
    requires SameClasses(a, b)
    ensures a[|a| - 1].priority <= b[|b| - 1].priority
  {
    var p := a[|a| - 1].priority;
    assert Class(a, p) == Class(b, p);
    if b[|b| - 1].priority < p {
      forall k | 0 <= k < |b| ensures b[k].priority != p {
        assert k == |b| - 1 || b[k].priority <= b[|b| - 1].priority;
      }
      ClassEmpty(b, p);
    }
  }

  /**
    Raising a task keeps the queue a sorted permutation and leaves the order of
    all other tasks alone. The raised task goes behind every task of its own
    priority, so it never overtakes one: it may only move back.
   */
  lemma RaiseKeepsOrder(q: seq<Task>, id: int, p: int)
    requires Sorted(q)
    ensures Sorted(Raise(q, id)) && multiset(Raise(q, id)) == multiset(q)
    ensures var i := IndexOfId(q, id);
      if i == |q| then Raise(q, id) == q
      else
        var t, rest := q[i], RemoveAt(q, i);
        var j := Position(rest, t);
        && i <= j < |Raise(q, id)| && Raise(q, id)[j] == t && RemoveAt(Raise(q, id), j) == rest
        && Class(Raise(q, id), p) == Class(rest, p) + (if t.priority == p then [t] else [])
  {
    var i := IndexOfId(q, id);
    if i < |q| {
      RestIsSorted(q, i);
      InsertIsSorted(RemoveAt(q, i), q[i]);
      InsertByClass(RemoveAt(q, i), q[i], p);
      TakenOut(q, i);
      InsertIsPermutation(RemoveAt(q, i), q[i]);
      InsertedAt(RemoveAt(q, i), q[i]);
    }
  }

  lemma InsertedAt(q: seq<Task>, t: Task)
    ensures var j := Position(q, t);
      j < |Insert(q, t)| && Insert(q, t)[j] == t && RemoveAt(Insert(q, t), j) == q
  {
    var j := Position(q, t);
    assert RemoveAt(Insert(q, t), j) == q[..j] + q[j..] == q;
  }

  lemma RestIsSorted(q: seq<Task>, i: nat)
    requires Sorted(q) && i < |q|
    ensures Sorted(RemoveAt(q, i))
    ensures i <= Position(RemoveAt(q, i), q[i])
  {
    var rest := RemoveAt(q, i);
    assert forall k :: 0 <= k < |rest| ==> rest[k] == q[if k < i then k else k + 1];
    assert forall k :: 0 <= k < i ==> rest[k].priority <= q[i].priority;
  }

  lemma RaiseIsSorted(q: seq<Task>, id: int)
    requires Sorted(q)
    ensures Sorted(Raise(q, id))
  {
    RaiseKeepsOrder(q, id, 0);
  }
}
