/**
  The multi-transfer request engine (core/curl_multi_handler.cpp and the
  `curl_task` of core/curl_handler.cpp): what it keeps track of, and what must
  be true of it between two steps. A step is one locked section of a caller or
  one action of the service thread.
 */
module RequestEngine {
  import opened Sequences
  import opened TaskQueue

  type Easy = nat
  type Socket = s: int | -1 <= s

  const SOCKET_BAD: Socket := -1
  const MAX_TIMEOUTS := 3

  datatype CurlCode =
    | Ok | AbortedByCallback | CouldntResolveHost | OperationTimedOut | CouldntConnect | FailedInit | OtherError

  datatype Completion = Success | Cancelled | Failed | ResolveFailed

  /** `get_completion_code`. */
  function CompletionCode(err: CurlCode, resolveFailed: bool): (c: Completion)
    ensures c == Success <==> err == Ok
    ensures c == Cancelled <==> err == AbortedByCallback
    ensures c == ResolveFailed <==> err == CouldntResolveHost || (err == OperationTimedOut && resolveFailed)
  {
    match err
    case Ok => Success
    case AbortedByCallback => Cancelled
    case CouldntResolveHost => ResolveFailed
    case OperationTimedOut => if resolveFailed then ResolveFailed else Failed
    case _ => Failed
  }

  /** What becomes of a task taken from the queue, up to `execute_multi`. */
  datatype Admission = InitStopped | InitFailed | ExecuteStopped | ExecuteRejected | Starts

  /** A message of `curl_multi_info_read`. */
  datatype Message = Done(easy: Easy, result: CurlCode) | OtherMessage

  /**
    What the engine finds out about contexts (by task token) and about curl (by
    handle) during one step: stop functions, the resolve flag, the active socket
    of a handle, and the sockets curl closes when the handle is removed.
   */
  datatype World = World(
    admission: nat -> Admission,
    stopped: nat -> bool,
    resolveFailed: nat -> bool,
    active: Easy -> Socket,
    drops: Easy -> set<Socket>)

  /** A promise set or a completion function called. */
  datatype Delivery = Delivery(token: nat, code: Completion)

  /** What `finish_multi` reports for a task when curl says `res`. */
  function FinishCode(w: World, token: nat, res: CurlCode): (c: Completion)
    ensures c == Cancelled <==> w.stopped(token) || res == AbortedByCallback
    ensures c == Success <==> !w.stopped(token) && res == Ok
    ensures c == ResolveFailed <==>
      !w.stopped(token) && (res == CouldntResolveHost || (res == OperationTimedOut && w.resolveFailed(token)))
  {
    CompletionCode(if w.stopped(token) then AbortedByCallback else res, w.resolveFailed(token))
  }

  // ---------------------------------------------------------------- where the tasks are

  ghost function InQueue(q: seq<Task>, k: nat): nat {
    if q == [] then 0
    else InQueue(q[..|q| - 1], k) + (if q[|q| - 1].token == k then 1 else 0)
  }

  ghost function Runners(r: map<Easy, Task>, k: nat): set<Easy> {
    set h | h in r && r[h].token == k
  }

  ghost function InDelivered(d: seq<Delivery>, k: nat): nat {
    if d == [] then 0
    else InDelivered(d[..|d| - 1], k) + (if d[|d| - 1].token == k then 1 else 0)
  }

  /**
    A task handed in is in one place, once: waiting, running or completed.
    Tasks are numbered in the order of submission and `next` is the next number.
   */
  ghost predicate OnePlace(q: seq<Task>, r: map<Easy, Task>, d: seq<Delivery>, next: nat, k: nat) {
    InQueue(q, k) + |Runners(r, k)| + InDelivered(d, k) == if k < next then 1 else 0
  }

  ghost predicate Tracked(q: seq<Task>, r: map<Easy, Task>, d: seq<Delivery>, next: nat) {
    forall k: nat :: OnePlace(q, r, d, next, k)
  }

  lemma {:induction false} QueueSplit(a: seq<Task>, b: seq<Task>, k: nat)
    ensures InQueue(a + b, k) == InQueue(a, k) + InQueue(b, k)
  {
    if b == [] {
      assert a + b == a;
    } else {
      QueueSplit(a, b[..|b| - 1], k);
      assert (a + b)[..|a + b| - 1] == a + b[..|b| - 1];
    }
  }

  lemma QueueOne(t: Task, k: nat)
    ensures InQueue([t], k) == if t.token == k then 1 else 0
  {
    assert [t][..0] == [];
  }

  lemma QueuePop(q: seq<Task>, k: nat)
    requires q != []
    ensures InQueue(q, k) == InQueue(q[1..], k) + (if q[0].token == k then 1 else 0)
  {
    assert q == [q[0]] + q[1..];
    QueueSplit([q[0]], q[1..], k);
    QueueOne(q[0], k);
  }

  lemma QueueInsert(q: seq<Task>, t: Task, k: nat)
    ensures InQueue(Insert(q, t), k) == InQueue(q, k) + (if t.token == k then 1 else 0)
  {
    var i := Position(q, t);
    assert q == q[..i] + q[i..] && Insert(q, t) == (q[..i] + [t]) + q[i..];
    QueueSplit(q[..i], q[i..], k);
    QueueSplit(q[..i] + [t], q[i..], k);
    QueueSplit(q[..i], [t], k);
    QueueOne(t, k);
  }

  lemma QueueRaise(q: seq<Task>, id: int, k: nat)
    ensures InQueue(Raise(q, id), k) == InQueue(q, k)
  {
    var i := IndexOfId(q, id);
    if i < |q| {
      QueueInsert(RemoveAt(q, i), q[i], k);
      QueueTakeOut(q, i, k);
    }
  }

  lemma QueueTakeOut(q: seq<Task>, i: nat, k: nat)
    requires i < |q|
    ensures InQueue(q, k) == InQueue(RemoveAt(q, i), k) + (if q[i].token == k then 1 else 0)
  {
    QueueSplit(q[..i], q[i..], k);
    QueuePop(q[i..], k);
    assert q == q[..i] + q[i..] && q[i..][1..] == q[i + 1..];
    QueueSplit(q[..i], q[i + 1..], k);
  }

  lemma DeliverOne(d: seq<Delivery>, x: Delivery, k: nat)
    ensures InDelivered(d + [x], k) == InDelivered(d, k) + (if x.token == k then 1 else 0)
  {
    assert (d + [x])[..|d|] == d;
  }

  lemma RunRemove(r: map<Easy, Task>, h: Easy, k: nat)
    requires h in r
    ensures |Runners(r - {h}, k)| == |Runners(r, k)| - (if r[h].token == k then 1 else 0)
  {
    if r[h].token == k {
      assert Runners(r - {h}, k) == Runners(r, k) - {h};
    } else {
      assert Runners(r - {h}, k) == Runners(r, k);
    }
  }

  lemma RunAdd(r: map<Easy, Task>, h: Easy, t: Task, k: nat)
    requires h !in r
    ensures |Runners(r[h := t], k)| == |Runners(r, k)| + (if t.token == k then 1 else 0)
  {
    if t.token == k {
      assert Runners(r[h := t], k) == Runners(r, k) + {h};
    } else {
      assert Runners(r[h := t], k) == Runners(r, k);
    }
  }

  lemma SubmitTracked(q: seq<Task>, r: map<Easy, Task>, d: seq<Delivery>, next: nat, t: Task)
    requires Tracked(q, r, d, next) && t.token == next
    ensures Tracked(Insert(q, t), r, d, next + 1)
  {
    var q', next' := Insert(q, t), next + 1;
    forall k: nat ensures OnePlace(q', r, d, next', k) {
      assert OnePlace(q, r, d, next, k);
      QueueInsert(q, t, k);
    }
  }

  lemma RefuseTracked(q: seq<Task>, r: map<Easy, Task>, d: seq<Delivery>, next: nat, c: Completion)
    requires Tracked(q, r, d, next)
    ensures Tracked(q, r, d + [Delivery(next, c)], next + 1)
  {
    var d', next' := d + [Delivery(next, c)], next + 1;
    forall k: nat ensures OnePlace(q, r, d', next', k) {
      assert OnePlace(q, r, d, next, k);
      DeliverOne(d, Delivery(next, c), k);
    }
  }

  lemma RaiseTracked(q: seq<Task>, r: map<Easy, Task>, d: seq<Delivery>, next: nat, id: int)
    requires Tracked(q, r, d, next)
    ensures Tracked(Raise(q, id), r, d, next)
  {
    forall k: nat ensures OnePlace(Raise(q, id), r, d, next, k) {
      assert OnePlace(q, r, d, next, k);
      QueueRaise(q, id, k);
    }
  }

  lemma StartTracked(q: seq<Task>, r: map<Easy, Task>, d: seq<Delivery>, next: nat, h: Easy)
    requires Tracked(q, r, d, next) && q != [] && h !in r
    ensures Tracked(q[1..], r[h := q[0]], d, next)
  {
    var q', r' := q[1..], r[h := q[0]];
    forall k: nat ensures OnePlace(q', r', d, next, k) {
      assert OnePlace(q, r, d, next, k);
      QueuePop(q, k);
      RunAdd(r, h, q[0], k);
    }
  }

  lemma PopTracked(q: seq<Task>, r: map<Easy, Task>, d: seq<Delivery>, next: nat, c: Completion)
    requires Tracked(q, r, d, next) && q != []
    ensures Tracked(q[1..], r, d + [Delivery(q[0].token, c)], next)
  {
    var q', d' := q[1..], d + [Delivery(q[0].token, c)];
    forall k: nat ensures OnePlace(q', r, d', next, k) {
      assert OnePlace(q, r, d, next, k);
      QueuePop(q, k);
      DeliverOne(d, Delivery(q[0].token, c), k);
    }
  }

  lemma FinishTracked(q: seq<Task>, r: map<Easy, Task>, d: seq<Delivery>, next: nat, h: Easy, c: Completion)
    requires Tracked(q, r, d, next) && h in r
    ensures Tracked(q, r - {h}, d + [Delivery(r[h].token, c)], next)
  {
    var r', d' := r - {h}, d + [Delivery(r[h].token, c)];
    forall k: nat ensures OnePlace(q, r', d', next, k) {
      assert OnePlace(q, r, d, next, k);
      RunRemove(r, h, k);
      DeliverOne(d, Delivery(r[h].token, c), k);
    }
  }

  /** With nothing waiting and nothing running, every task was completed, once. */
  lemma IdleMeansAllCompleted(d: seq<Delivery>, next: nat)
    requires Tracked([], map[], d, next)
    ensures forall k: nat :: InDelivered(d, k) == if k < next then 1 else 0
  {
    forall k: nat ensures InDelivered(d, k) == if k < next then 1 else 0 {
      assert OnePlace([], map[], d, next, k);
    }
  }

  /** How many places an unfinished task has: one while it waits or runs. */
  ghost function Places(q: seq<Task>, r: map<Easy, Task>, k: nat): nat {
    InQueue(q, k) + |Runners(r, k)|
  }

  /** Read at every number at once. */
  lemma EachInItsPlace(q: seq<Task>, r: map<Easy, Task>, d: seq<Delivery>, next: nat)
    requires Tracked(q, r, d, next)
    ensures forall k: nat :: Places(q, r, k) + InDelivered(d, k) == if k < next then 1 else 0
  {
    forall k: nat ensures Places(q, r, k) + InDelivered(d, k) == if k < next then 1 else 0 {
      assert OnePlace(q, r, d, next, k);
    }
  }

  /** Every task handed in before was delivered as often as it left a place since. */
  ghost predicate Settles(q: seq<Task>, r: map<Easy, Task>, d: seq<Delivery>, next: nat,
                          q': seq<Task>, r': map<Easy, Task>, d': seq<Delivery>)
  {
    forall k: nat :: k < next ==> InDelivered(d', k) + Places(q', r', k) == InDelivered(d, k) + Places(q, r, k)
  }

  lemma LeftMeansDelivered(q: seq<Task>, r: map<Easy, Task>, d: seq<Delivery>, next: nat,
                           q': seq<Task>, r': map<Easy, Task>, d': seq<Delivery>, next': nat)
    requires Tracked(q, r, d, next) && Tracked(q', r', d', next') && next <= next'
    ensures Settles(q, r, d, next, q', r', d')
  {
    forall k: nat | k < next
      ensures InDelivered(d', k) + Places(q', r', k) == InDelivered(d, k) + Places(q, r, k)
    {
      assert OnePlace(q, r, d, next, k) && OnePlace(q', r', d', next', k);
    }
  }

  // ---------------------------------------------------------------- sockets

  datatype SocketEvent = Opened(s: Socket) | Succeeded(s: Socket) | TimedOut(s: Socket) | Closed(s: Socket)

  /** The sockets that are open after these events. */
  ghost function OpenNow(h: seq<SocketEvent>): set<Socket> {
    if h == [] then {}
    else match h[|h| - 1]
      case Opened(s) => OpenNow(h[..|h| - 1]) + {s}
      case Closed(s) => OpenNow(h[..|h| - 1]) - {s}
      case _ => OpenNow(h[..|h| - 1])
  }

  /** Only closed sockets are opened and only open sockets are closed. */
  ghost predicate Disciplined(h: seq<SocketEvent>) {
    h == [] ||
    (Disciplined(h[..|h| - 1]) &&
     match h[|h| - 1]
     case Opened(s) => s !in OpenNow(h[..|h| - 1])
     case _ => h[|h| - 1].s in OpenNow(h[..|h| - 1]))
  }

  /** Time-outs of a socket since it was opened or last succeeded. */
  ghost function Strikes(h: seq<SocketEvent>, s: Socket): nat {
    if h == [] then 0
    else match h[|h| - 1]
      case TimedOut(x) => Strikes(h[..|h| - 1], s) + (if x == s then 1 else 0)
      case Opened(x) => if x == s then 0 else Strikes(h[..|h| - 1], s)
      case Succeeded(x) => if x == s then 0 else Strikes(h[..|h| - 1], s)
      case Closed(_) => Strikes(h[..|h| - 1], s)
  }

  ghost function Opens(h: seq<SocketEvent>): nat {
    if h == [] then 0 else Opens(h[..|h| - 1]) + (if h[|h| - 1].Opened? then 1 else 0)
  }

  ghost function Closes(h: seq<SocketEvent>): nat {
    if h == [] then 0 else Closes(h[..|h| - 1]) + (if h[|h| - 1].Closed? then 1 else 0)
  }

  /** Sockets are conserved: opened less closed are the ones open. */
  lemma {:induction false} SocketsConserved(h: seq<SocketEvent>)
    requires Disciplined(h)
    ensures Opens(h) == Closes(h) + |OpenNow(h)|
  {
    if h != [] {
      SocketsConserved(h[..|h| - 1]);
    }
  }

  /** The socket table is exactly what the events say. */
  ghost predicate Booked(sockets: map<Socket, nat>, h: seq<SocketEvent>) {
    && Disciplined(h) && OpenNow(h) == sockets.Keys
    && forall s :: s in sockets ==> sockets[s] == Strikes(h, s) && s != SOCKET_BAD
  }

  lemma EventLast(h: seq<SocketEvent>, e: SocketEvent)
    ensures (h + [e])[..|h + [e]| - 1] == h
  {}

  lemma OpenBooked(sockets: map<Socket, nat>, h: seq<SocketEvent>, s: Socket)
    requires Booked(sockets, h) && s !in sockets && s != SOCKET_BAD
    ensures Booked(sockets[s := 0], h + [Opened(s)])
  {
    EventLast(h, Opened(s));
  }

  lemma CloseBooked(sockets: map<Socket, nat>, h: seq<SocketEvent>, s: Socket)
    requires Booked(sockets, h) && s in sockets
    ensures Booked(sockets - {s}, h + [Closed(s)])
  {
    EventLast(h, Closed(s));
  }

  lemma StrikeBooked(sockets: map<Socket, nat>, h: seq<SocketEvent>, s: Socket)
    requires Booked(sockets, h) && s in sockets
    ensures Booked(sockets[s := sockets[s] + 1], h + [TimedOut(s)])
  {
    EventLast(h, TimedOut(s));
  }

  lemma SuccessBooked(sockets: map<Socket, nat>, h: seq<SocketEvent>, s: Socket)
    requires Booked(sockets, h) && s in sockets
    ensures Booked(sockets[s := 0], h + [Succeeded(s)])
  {
    EventLast(h, Succeeded(s));
  }

  // ---------------------------------------------------------------- the admission limit

  ghost function Ordinary(r: map<Easy, Task>): set<Easy> {
    set h | h in r && r[h].priority > PRIORITY_PROTOCOL
  }

  lemma FewerOrdinary(r: map<Easy, Task>, less: map<Easy, Task>)
    requires forall h :: h in less ==> h in r && less[h] == r[h]
    ensures |Ordinary(less)| <= |Ordinary(r)|
  {
    assert Ordinary(less) <= Ordinary(r);
    SubsetSize(Ordinary(less), Ordinary(r));
  }

  lemma {:induction false} SubsetSize<T>(a: set<T>, b: set<T>)
    requires a <= b
    ensures |a| <= |b|
  {
    if x :| x in a {
      SubsetSize(a - {x}, b - {x});
    }
  }

  lemma StartOrdinary(r: map<Easy, Task>, h: Easy, t: Task)
    requires h !in r
    ensures |Ordinary(r[h := t])| <= |r| + 1
    ensures t.priority <= PRIORITY_PROTOCOL ==> Ordinary(r[h := t]) == Ordinary(r)
  {
    SubsetSize(Ordinary(r[h := t]), r[h := t].Keys);
  }

  /** A handle that curl has not handed out. */
  lemma FreshEasy(r: map<Easy, Task>) returns (h: Easy)
    ensures h !in r
  {
    h := Above(r.Keys);
  }

  lemma {:induction false} Above(s: set<nat>) returns (n: nat)
    ensures forall x :: x in s ==> x < n
  {
    if x :| x in s {
      var m := Above(s - {x});
      n := if x < m then m else x + 1;
      assert forall y :: y in s ==> y == x || y in s - {x};
    } else {
      n := 0;
    }
  }
}
