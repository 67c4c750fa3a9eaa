/**
  `curl_multi_handler` in motion: the tables of core/curl_multi_handler.cpp and
  every step that changes them. Curl itself is the `World` passed to a step.
 */
module MultiHandler {
  import opened Sequences
  import opened TaskQueue
  import opened RequestEngine

  ghost predicate Submap<K, V>(a: map<K, V>, b: map<K, V>) {
    forall k :: k in a ==> k in b && a[k] == b[k]
  }

  /** Every new delivery reports `res` for a task that left the running table. */
  ghost predicate Reported(w: World, res: CurlCode, r0: map<Easy, Task>, r1: map<Easy, Task>,
                           d0: seq<Delivery>, d1: seq<Delivery>) {
    && d0 <= d1
    && forall i :: |d0| <= i < |d1| ==> LeftWith(w, res, r0, r1, d1[i])
  }

  ghost predicate LeftWith(w: World, res: CurlCode, r0: map<Easy, Task>, r1: map<Easy, Task>, d: Delivery) {
    exists h :: h in r0 && h !in r1 && d == Delivery(r0[h].token, FinishCode(w, r0[h].token, res))
  }

  /**
    What the caller of a finished task is told: cancelled when the request was
    stopped or curl aborted, else by curl's result and the resolve flag alone.
   */
  ghost predicate Reports(w: World, token: nat, res: CurlCode, code: Completion) {
    if w.stopped(token) || res == AbortedByCallback then code == Cancelled
    else if res == Ok then code == Success
    else if res == CouldntResolveHost || (res == OperationTimedOut && w.resolveFailed(token)) then code == ResolveFailed
    else code == Failed
  }

  /** What the caller of a task that does not start is told. */
  ghost predicate ReportsRefusal(a: Admission, code: Completion) {
    if a.InitStopped? || a.ExecuteStopped? then code == Cancelled else code == Failed
  }

  /** What a task that does not start is completed with. */
  function AdmissionCode(a: Admission): (c: Completion)
    ensures c == Cancelled <==> a.InitStopped? || a.ExecuteStopped?
    ensures c == Failed <==> a.InitFailed? || a.ExecuteRejected?
  {
    match a
    case InitStopped => CompletionCode(AbortedByCallback, false)
    case InitFailed => CompletionCode(FailedInit, false)
    case ExecuteStopped => CompletionCode(AbortedByCallback, false)
    case ExecuteRejected => CompletionCode(FailedInit, false)
    case Starts => Success
  }

  /** An admitted task runs, or was completed on the spot with the reason. */
  ghost predicate Admitted(w: World, t: Task, r: map<Easy, Task>, d: seq<Delivery>) {
    if w.admission(t.token) == Starts then exists h :: h in r && r[h] == t
    else Delivery(t.token, AdmissionCode(w.admission(t.token))) in d
  }

  class Engine {
    var queue: seq<Task>
    var running: map<Easy, Task>
    var sockets: map<Socket, nat>
    var stopped: bool
    var limit: nat
    var next: nat
    var delivered: seq<Delivery>
    ghost var history: seq<SocketEvent>
    ghost var peak: nat

    /** Queue order, one place per task, conserved sockets, the admission limit. */
    ghost predicate Core()
      reads this
    {
      && Sorted(queue)
      && Tracked(queue, running, delivered, next)
      && Booked(sockets, history)
      && limit <= peak && |Ordinary(running)| <= peak
    }

    ghost predicate Valid()
      reads this
    {
      Core() && forall s :: s in sockets ==> sockets[s] < MAX_TIMEOUTS
    }

    constructor (initialLimit: nat)
      ensures Valid() && queue == [] && running == map[] && delivered == [] && sockets == map[]
      ensures next == 0 && !stopped && limit == peak == initialLimit && history == []
    {
      queue, running, sockets, delivered, next, stopped := [], map[], map[], [], 0, false;
      limit, peak, history := initialLimit, initialLimit, [];
    }

    // -------------------------------------------------------------- callers

    /** `add_task_to_queue`. */
    method AddTaskToQueue(t: Task)
      modifies `queue
      ensures queue == Insert(old(queue), t)
    {
      var i := 0;
      while i < |queue| && !(t.priority < queue[i].priority)
        invariant 0 <= i <= |queue| && i <= Position(queue, t)
        invariant Position(queue, t) == i + Position(queue[i..], t)
      {
        assert queue[i..][1..] == queue[i + 1..];
        i := i + 1;
      }
      assert i == Position(queue, t);
      queue := queue[..i] + [t] + queue[i..];
    }

    /** `perform` and `perform_async`: once stopped, a request is cancelled on the spot. */
    method Submit(id: int, priority: int) returns (t: Task)
      requires Valid()
      modifies `queue, `delivered, `next
      ensures Valid() && t == Task(old(next), id, priority) && next == old(next) + 1
      ensures stopped ==> queue == old(queue) && delivered == old(delivered) + [Delivery(t.token, Cancelled)]
      ensures !stopped ==> queue == Insert(old(queue), t) && delivered == old(delivered)
    {
      t := Task(next, id, priority);
      next := next + 1;
      if stopped {
        RefuseTracked(queue, running, delivered, t.token, Cancelled);
        delivered := delivered + [Delivery(t.token, Cancelled)];
      } else {
        InsertIsSorted(queue, t);
        SubmitTracked(queue, running, delivered, t.token, t);
        AddTaskToQueue(t);
      }
    }

    method FindById(id: int) returns (i: nat)
      ensures i == IndexOfId(queue, id)
    {
      i := 0;
      while i < |queue| && queue[i].id != id
        invariant i <= |queue| && i <= IndexOfId(queue, id)
      {
        i := i + 1;
      }
    }

    method RaiseTask(id: int)
      requires Valid()
      modifies `queue
      ensures Valid() && queue == Raise(old(queue), id)
    {
      ghost var raised := Raise(queue, id);
      RaiseIsSorted(queue, id);
      RaiseTracked(queue, running, delivered, next, id);
      var i := FindById(id);
      if i == |queue| {
        return;
      }
      var t := queue[i];
      queue := RemoveAt(queue, i);
      AddTaskToQueue(t);
      assert queue == raised;
    }

    method SetMaxParallelPacketsCount(count: nat)
      requires Valid()
      modifies `limit, `peak
      ensures Valid() && limit == count && peak == if count > old(peak) then count else old(peak)
    {
      limit := count;
      peak := if count > peak then count else peak;
    }

    method Stop()
      requires Valid()
      modifies `stopped
      ensures Valid() && stopped
    {
      stopped := true;
    }

    // -------------------------------------------------------------- sockets

    /** The open callback: curl gets a socket number that is not in use. */
    method OpenSocket(s: Socket)
      requires Valid() && s != SOCKET_BAD && s !in sockets
      modifies `sockets, `history
      ensures Valid() && sockets == old(sockets)[s := 0] && history == old(history) + [Opened(s)]
    {
      OpenBooked(sockets, history, s);
      sockets := sockets[s := 0];
      history := history + [Opened(s)];
    }

    /** The close callback: only a socket of the table is closed. */
    method CloseSocket(s: Socket)
      requires Core()
      modifies `sockets, `history
      ensures Core() && sockets == old(sockets) - {s}
      ensures history == if s in old(sockets) then old(history) + [Closed(s)] else old(history)
    {
      if s in sockets {
        CloseBooked(sockets, history, s);
        sockets := sockets - {s};
        history := history + [Closed(s)];
      } else {
        assert sockets - {s} == sockets;
      }
    }

    method CloseSockets(ss: set<Socket>)
      requires Core()
      modifies `sockets, `history
      ensures Core() && sockets == old(sockets) - ss
    {
      var todo := ss;
      while todo != {}
        invariant Core() && todo <= ss && sockets == old(sockets) - (ss - todo)
        decreases todo
      {
        var s :| s in todo;
        MinusOneMore(old(sockets), ss, todo, s);
        CloseSocket(s);
        todo := todo - {s};
      }
      assert ss - todo == ss;
    }

    /** `on_socket_ok`. */
    method OnSocketOk(s: Socket)
      requires Valid()
      modifies `sockets, `history
      ensures Valid()
      ensures s in old(sockets) ==> sockets == old(sockets)[s := 0] && history == old(history) + [Succeeded(s)]
      ensures s !in old(sockets) ==> sockets == old(sockets) && history == old(history)
    {
      if s == SOCKET_BAD || s !in sockets {
        return;
      }
      SuccessBooked(sockets, history, s);
      sockets := sockets[s := 0];
      history := history + [Succeeded(s)];
    }

    // -------------------------------------------------------------- completing tasks

    /** `finish_multi`, and the removal of the task from the table. */
    method Finish(h: Easy, res: CurlCode, w: World)
      requires Core() && h in running
      modifies `running, `delivered, `sockets, `history
      ensures Core() && running == old(running) - {h} && sockets == old(sockets) - w.drops(h)
      ensures var k := old(running)[h].token; delivered == old(delivered) + [Delivery(k, FinishCode(w, k, res))]
      ensures var k := old(running)[h].token; Reports(w, k, res, delivered[|old(delivered)|].code)
    {
      var k := running[h].token;
      FinishTracked(queue, running, delivered, next, h, FinishCode(w, k, res));
      FewerOrdinary(running, running - {h});
      running := running - {h};
      delivered := delivered + [Delivery(k, FinishCode(w, k, res))];
      CloseSockets(w.drops(h));
    }

    /** A loop over the running table that finishes the tasks of some handles. */
    method FinishAll(victims: set<Easy>, res: CurlCode, w: World)
      requires Core() && victims <= running.Keys
      modifies `running, `delivered, `sockets, `history
      ensures Core() && running == old(running) - victims && DroppedBy(w, victims, old(sockets), sockets)
      ensures Reported(w, res, old(running), running, old(delivered), delivered)
    {
      var todo := victims;
      ghost var r0, s0, d0 := running, sockets, delivered;
      FinishNone(w, res, victims, r0, s0, d0);
      while todo != {}
        invariant Core() && Finished(w, res, victims, todo, r0, running, s0, sockets, d0, delivered)
        decreases todo
      {
        var h :| h in todo;
        FinishedOne(w, res, victims, todo, h, r0, running, s0, sockets, d0, delivered);
        Finish(h, res, w);
        todo := todo - {h};
      }
      FinishedAll(w, res, victims, r0, running, s0, sockets, d0, delivered);
    }

    /** `on_socket_timed_out`: the third time-out in a row kills the socket and every task on it. */
    method OnSocketTimedOut(s: Socket, w: World)
      requires Valid()
      modifies `running, `delivered, `sockets, `history
      ensures Valid() && Submap(running, old(running))
      ensures Reported(w, AbortedByCallback, old(running), running, old(delivered), delivered)
      ensures AllCancelled(old(delivered), delivered)
      ensures s !in old(sockets) ==>
        running == old(running) && delivered == old(delivered) && sockets == old(sockets) && history == old(history)
      ensures s in old(sockets) && old(sockets)[s] < 2 ==>
        running == old(running) && delivered == old(delivered) && sockets == old(sockets)[s := old(sockets)[s] + 1]
      ensures s in old(sockets) && old(sockets)[s] == 2 ==>
        && running == (map h | h in old(running) && w.active(h) != s :: old(running)[h])
        && DroppedBy(w, OnSocket(w, old(running), s), old(sockets) - {s}, sockets)
    {
      if s == SOCKET_BAD || s !in sockets {
        return;
      }
      StrikeBooked(sockets, history, s);
      sockets := sockets[s := sockets[s] + 1];
      history := history + [TimedOut(s)];
      if sockets[s] >= MAX_TIMEOUTS {
        KillSocket(s, w);
      }
    }

    /** Cancels every task on a socket and closes it. */
    method KillSocket(s: Socket, w: World)
      requires Core()
      modifies `running, `delivered, `sockets, `history
      ensures Core() && Submap(running, old(running))
      ensures running == (map h | h in old(running) && w.active(h) != s :: old(running)[h])
      ensures DroppedBy(w, OnSocket(w, old(running), s), old(sockets) - {s}, sockets)
      ensures Reported(w, AbortedByCallback, old(running), running, old(delivered), delivered)
      ensures AllCancelled(old(delivered), delivered)
    {
      WithoutSocket(w, running, s);
      FinishAll(OnSocket(w, running, s), AbortedByCallback, w);
      AbortsAreCancelled(w, old(running), running, old(delivered), delivered);
      DroppedOneMore(w, OnSocket(w, old(running), s), old(sockets), sockets, s);
      CloseSocket(s);
    }

    /** `process_stopped_tasks_internal`. */
    method ProcessStoppedTasks(w: World)
      requires Valid()
      modifies `running, `delivered, `sockets, `history
      ensures Valid() && running == map h | h in old(running) && !w.stopped(old(running)[h].token) :: old(running)[h]
      ensures Reported(w, AbortedByCallback, old(running), running, old(delivered), delivered)
      ensures DroppedBy(w, (set h | h in old(running) && w.stopped(old(running)[h].token)), old(sockets), sockets)
      ensures AllCancelled(old(delivered), delivered)
    {
      FinishAll((set h | h in running && w.stopped(running[h].token)), AbortedByCallback, w);
      AbortsAreCancelled(w, old(running), running, old(delivered), delivered);
    }

    /** `cancel_tasks`: everything waiting or running is cancelled and every socket closed. */
    method CancelTasks(w: World)
      requires Valid()
      modifies `queue, `running, `delivered, `sockets, `history
      ensures Valid() && queue == [] && running == map[] && sockets == map[]
      ensures old(delivered) <= delivered
      ensures forall i :: |old(delivered)| <= i < |delivered| ==> delivered[i].code == Cancelled
      ensures forall k: nat :: InDelivered(delivered, k) == if k < next then 1 else 0
    {
      CancelWaiting();
      ghost var mid := delivered;
      FinishAll(running.Keys, AbortedByCallback, w);
      assert running == map[];
      assert forall i :: |mid| <= i < |delivered| ==>
        LeftWith(w, AbortedByCallback, old(running), running, delivered[i]);
      CloseSockets(sockets.Keys);
      assert sockets == map[];
      IdleMeansAllCompleted(delivered, next);
    }

    /** The waiting tasks are taken out of the queue and cancelled. */
    method CancelWaiting()
      requires Valid()
      modifies `queue, `delivered
      ensures Valid() && queue == [] && old(delivered) <= delivered
      ensures forall i :: |old(delivered)| <= i < |delivered| ==> delivered[i].code == Cancelled
    {
      while queue != []
        invariant Valid() && old(delivered) <= delivered
        invariant forall i :: |old(delivered)| <= i < |delivered| ==> delivered[i].code == Cancelled
        decreases |queue|
      {
        PopTracked(queue, running, delivered, next, CompletionCode(AbortedByCallback, false));
        delivered := delivered + [Delivery(queue[0].token, CompletionCode(AbortedByCallback, false))];
        queue := queue[1..];
      }
    }

    /** `reset_sockets_internal`: the tasks on sockets of the table fail, then all sockets are closed. */
    method ResetSockets(networkIsDown: bool, w: World)
      requires Valid()
      modifies `running, `delivered, `sockets, `history
      ensures Valid() && sockets == map[] && Submap(running, old(running))
      ensures var res := if networkIsDown then CouldntConnect else AbortedByCallback;
        Reported(w, res, old(running), running, old(delivered), delivered)
      ensures AllReport(w, if networkIsDown then CouldntConnect else AbortedByCallback, old(delivered), delivered)
      ensures forall h :: h in old(running) && w.active(h) !in old(sockets) ==> h in running
      ensures forall h :: h in running ==> w.active(h) !in old(sockets) || Lost(w, old(running), running, w.active(h))
    {
      var res := if networkIsDown then CouldntConnect else AbortedByCallback;
      var todo := running.Keys;
      assert Swept(w, todo, running, running, sockets, sockets);
      while todo != {}
        invariant Core() && todo <= running.Keys && Submap(running, old(running))
        invariant Reported(w, res, old(running), running, old(delivered), delivered)
        invariant Swept(w, todo, old(running), running, old(sockets), sockets)
        decreases todo
      {
        var h :| h in todo;
        todo := todo - {h};
        if w.active(h) in sockets {
          label before:
          Finish(h, res, w);
          ReportOneMore(w, res, old(running), old@before(running), h, old(delivered), old@before(delivered), delivered);
          SweptOneMore(w, todo, h, old(running), old@before(running), old(sockets), old@before(sockets));
        }
      }
      SweptAll(w, old(running), running, old(sockets), sockets);
      ReportedCodes(w, res, old(running), running, old(delivered), delivered);
      CloseSockets(sockets.Keys);
      assert sockets == map[];
    }

    // -------------------------------------------------------------- the service thread

    /** What the messages of curl change. */
    ghost function Now(): Tables
      reads this
    {
      Tables(running, sockets, delivered)
    }

    /** `check_multi_info`: each finished transfer completes its task, and its socket is judged. */
    method CheckMultiInfo(msgs: seq<Message>, w: World)
      requires Valid()
      modifies `running, `delivered, `sockets, `history
      ensures Valid() && BatchRead(w, msgs, old(Now()), Now())
      ensures MessagesRead(w, msgs, old(running), running, old(delivered), delivered)
    {
      var i := 0;
      assert msgs[..0] == [];
      ghost var start := Now();
      while i < |msgs|
        invariant 0 <= i <= |msgs| && Valid()
        invariant BatchRead(w, msgs[..i], start, Now())
      {
        ghost var mid := Now();
        ReadMessage(msgs[i], w);
        BatchOneMore(w, msgs, i, start, mid, Now());
        i := i + 1;
      }
      assert msgs[..i] == msgs;
      BatchIsExplained(w, msgs, start, Now());
    }

    /** The body of that loop. */
    method ReadMessage(m: Message, w: World)
      requires Valid()
      modifies `running, `delivered, `sockets, `history
      ensures Valid() && OneRead(w, m, old(Now()), Now())
    {
      if m.Done? && m.easy in running {
        CompleteTransfer(m.easy, m.result, w);
      }
    }

    /** One finished transfer: its task is completed, then its socket is judged by the result. */
    method CompleteTransfer(h: Easy, res: CurlCode, w: World)
      requires Valid() && h in running
      modifies `running, `delivered, `sockets, `history
      ensures Valid() && TransferDone(w, h, res, old(running), running, old(delivered), delivered)
      ensures Judged(w, old(running) - {h}, w.active(h), res, old(sockets) - w.drops(h), sockets)
    {
      var s := w.active(h);
      Finish(h, res, w);
      label finished:
      Judge(s, res, w);
      ReportedBefore(w, AbortedByCallback, old(running), old@finished(running), running,
        old@finished(delivered), delivered);
    }

    /** What the result of a transfer means for its socket. */
    method Judge(s: Socket, res: CurlCode, w: World)
      requires Valid()
      modifies `running, `delivered, `sockets, `history
      ensures Valid() && Judged(w, old(running), s, res, old(sockets), sockets) && Submap(running, old(running))
      ensures Reported(w, AbortedByCallback, old(running), running, old(delivered), delivered)
      ensures res != OperationTimedOut ==> running == old(running) && delivered == old(delivered)
    {
      if s != SOCKET_BAD {
        if res == OperationTimedOut {
          OnSocketTimedOut(s, w);
        } else if res == Ok {
          OnSocketOk(s);
        }
      }
    }

    /**
      The loop of `add_task`: tasks are taken from the front of the queue, and
      only a full running table stops it, and only before an ordinary task.
     */
    method AdmitTasks(w: World) returns (admitted: nat)
      requires Valid()
      modifies `queue, `running, `delivered
      ensures Valid() && admitted <= |old(queue)| && queue == old(queue)[admitted..]
      ensures Submap(old(running), running) && old(delivered) <= delivered
      ensures forall i :: 0 <= i < admitted ==> Admitted(w, old(queue)[i], running, delivered)
      ensures queue == [] || (|running| >= limit && forall i :: 0 <= i < |queue| ==>
        queue[i].priority > PRIORITY_PROTOCOL)
      ensures forall i, j :: 0 <= i < admitted && 0 <= j < |queue| ==> old(queue)[i].priority <= queue[j].priority
    {
      admitted := 0;
      while queue != [] && (|running| < limit || queue[0].priority <= PRIORITY_PROTOCOL)
        invariant Valid() && admitted <= |old(queue)| && queue == old(queue)[admitted..]
        invariant Submap(old(running), running) && old(delivered) <= delivered
        invariant forall i :: 0 <= i < admitted ==> Admitted(w, old(queue)[i], running, delivered)
        decreases |queue|
      {
        label top:
        AdmitFront(w);
        AdmittedStays(w, old@top(running), running, old@top(delivered), delivered);
        admitted := admitted + 1;
      }
    }

    /** One turn of that loop: the front task starts, or is completed with the reason it cannot. */
    method AdmitFront(w: World)
      requires Valid() && queue != [] && (|running| < limit || queue[0].priority <= PRIORITY_PROTOCOL)
      modifies `queue, `running, `delivered
      ensures Valid() && queue == old(queue)[1..]
      ensures Submap(old(running), running) && old(delivered) <= delivered
      ensures Admitted(w, old(queue)[0], running, delivered)
      ensures w.admission(old(queue)[0].token) != Starts ==>
        && |delivered| == |old(delivered)| + 1 && delivered[|old(delivered)|].token == old(queue)[0].token
        && ReportsRefusal(w.admission(old(queue)[0].token), delivered[|old(delivered)|].code)
    {
      var t := queue[0];
      if w.admission(t.token) == Starts {
        ghost var unused := FreshEasy(running);
        var h :| h !in running;
        StartTracked(queue, running, delivered, next, h);
        StartOrdinary(running, h, t);
        running := running[h := t];
        assert running[h] == t;
      } else {
        var d := Delivery(t.token, AdmissionCode(w.admission(t.token)));
        PopTracked(queue, running, delivered, next, d.code);
        delivered := delivered + [d];
      }
      queue := queue[1..];
    }

    /**
      `add_task`: admission, then the messages. The ghost results are the number
      of tasks admitted and the tables in between.
     */
    method AddTask(msgs: seq<Message>, w: World)
      returns (ghost admitted: nat, ghost mid: map<Easy, Task>, ghost told: seq<Delivery>)
      requires Valid()
      modifies `queue, `running, `delivered, `sockets, `history
      ensures Valid() && admitted <= |old(queue)| && queue == old(queue)[admitted..]
      ensures Submap(old(running), mid) && old(delivered) <= told <= delivered
      ensures forall i :: 0 <= i < admitted ==> Admitted(w, old(queue)[i], mid, told)
      ensures queue == [] || (|mid| >= limit && forall i :: 0 <= i < |queue| ==> queue[i].priority > PRIORITY_PROTOCOL)
      ensures MessagesRead(w, msgs, mid, running, told, delivered)
      ensures BatchRead(w, msgs, Tables(mid, old(sockets), told), Now())
    {
      admitted := AdmitTasks(w);
      mid, told := running, delivered;
      CheckMultiInfo(msgs, w);
    }
  }

  // ---------------------------------------------------------------- lemmas for the loops

  /** Half way through a socket reset, with the handles of `todo` still to look at. */
  ghost predicate Swept(w: World, todo: set<Easy>, r0: map<Easy, Task>, r: map<Easy, Task>,
                        s0: map<Socket, nat>, s: map<Socket, nat>) {
    && DroppedBy(w, r0.Keys - r.Keys, s0, s)
    && (forall h :: h in r0 && w.active(h) !in s0 ==> h in r)
    && (forall h :: h in r && h !in todo ==> w.active(h) !in s)
  }

  /** Curl closed this socket with a transfer that was ended. */
  ghost predicate Lost(w: World, r0: map<Easy, Task>, r: map<Easy, Task>, x: Socket) {
    exists h :: h in r0 && h !in r && x in w.drops(h)
  }

  lemma SweptOneMore(w: World, todo: set<Easy>, h: Easy, r0: map<Easy, Task>, r: map<Easy, Task>,
                     s0: map<Socket, nat>, s: map<Socket, nat>)
    requires Swept(w, todo + {h}, r0, r, s0, s) && Submap(r, r0) && h in r && w.active(h) in s
    ensures Swept(w, todo, r0, r - {h}, s0, s - w.drops(h))
  {
    DropOneMore(w, r0.Keys - r.Keys, h, s0, s);
    assert r0.Keys - (r - {h}).Keys == (r0.Keys - r.Keys) + {h};
  }

  lemma SweptAll(w: World, r0: map<Easy, Task>, r: map<Easy, Task>, s0: map<Socket, nat>, s: map<Socket, nat>)
    requires Swept(w, {}, r0, r, s0, s)
    ensures forall h :: h in r ==> w.active(h) !in s0 || Lost(w, r0, r, w.active(h))
  {
    forall h | h in r && w.active(h) in s0 ensures Lost(w, r0, r, w.active(h)) {
      var g :| g in r0.Keys - r.Keys && w.active(h) in w.drops(g);
    }
  }

  lemma DropOneMore(w: World, gone: set<Easy>, h: Easy, s0: map<Socket, nat>, s: map<Socket, nat>)
    requires DroppedBy(w, gone, s0, s)
    ensures DroppedBy(w, gone + {h}, s0, s - w.drops(h))
  {}

  /** Exactly the sockets that curl closes with these handles are gone from the table. */
  ghost predicate DroppedBy(w: World, gone: set<Easy>, s0: map<Socket, nat>, s: map<Socket, nat>) {
    && Submap(s, s0)
    && forall x :: x in s <==> x in s0 && forall h :: h in gone ==> x !in w.drops(h)
  }

  lemma DroppedOneMore(w: World, gone: set<Easy>, s0: map<Socket, nat>, s: map<Socket, nat>, x: Socket)
    requires DroppedBy(w, gone, s0, s)
    ensures DroppedBy(w, gone, s0 - {x}, s - {x})
  {}

  lemma WithoutSocket(w: World, r: map<Easy, Task>, s: Socket)
    ensures r - OnSocket(w, r, s) == (map h | h in r && w.active(h) != s :: r[h])
    ensures Submap(r - OnSocket(w, r, s), r)
  {}

  /** The tasks of `victims` were finished, one by one, but for those of `todo`. */
  ghost predicate Finished(w: World, res: CurlCode, victims: set<Easy>, todo: set<Easy>, r0: map<Easy, Task>,
                           r: map<Easy, Task>,
                           s0: map<Socket, nat>, s: map<Socket, nat>, d0: seq<Delivery>, d: seq<Delivery>) {
    && todo <= victims <= r0.Keys && r == r0 - (victims - todo)
    && DroppedBy(w, victims - todo, s0, s) && Reported(w, res, r0, r, d0, d)
  }

  lemma FinishNone(w: World, res: CurlCode, victims: set<Easy>, r0: map<Easy, Task>, s0: map<Socket, nat>,
                   d0: seq<Delivery>)
    requires victims <= r0.Keys
    ensures Finished(w, res, victims, victims, r0, r0, s0, s0, d0, d0)
  {
    assert r0 == r0 - (victims - victims);
  }

  lemma FinishedOne(w: World, res: CurlCode, victims: set<Easy>, todo: set<Easy>, h: Easy, r0: map<Easy, Task>,
                    r: map<Easy, Task>,
                    s0: map<Socket, nat>, s: map<Socket, nat>, d0: seq<Delivery>, d: seq<Delivery>)
    requires Finished(w, res, victims, todo, r0, r, s0, s, d0, d) && h in todo
    ensures h in r && Finished(w, res, victims, todo - {h}, r0, r - {h}, s0, s - w.drops(h), d0,
                               d + [Delivery(r[h].token, FinishCode(w, r[h].token, res))])
  {
    var rest := todo - {h};
    assert victims - rest == (victims - todo) + {h};
    ReportOneMore(w, res, r0, r, h, d0, d, d + [Delivery(r[h].token, FinishCode(w, r[h].token, res))]);
    assert r - {h} == r0 - (victims - rest);
  }

  lemma FinishedAll(w: World, res: CurlCode, victims: set<Easy>, r0: map<Easy, Task>, r: map<Easy, Task>,
                    s0: map<Socket, nat>, s: map<Socket, nat>, d0: seq<Delivery>, d: seq<Delivery>)
    requires Finished(w, res, victims, {}, r0, r, s0, s, d0, d)
    ensures r == r0 - victims && DroppedBy(w, victims, s0, s) && Reported(w, res, r0, r, d0, d)
  {
    assert victims - {} == victims;
  }

  /** The running transfers whose connection is this socket. */
  function OnSocket(w: World, r: map<Easy, Task>, s: Socket): (hs: set<Easy>)
  {
    set h | h in r && w.active(h) == s
  }

  lemma MinusOneMore<K, V>(m: map<K, V>, all: set<K>, todo: set<K>, k: K)
    requires k in todo && todo <= all
    ensures (m - (all - todo)) - {k} == m - (all - (todo - {k}))
    ensures k in m ==> k in m - (all - todo)
  {}

  lemma ReportOneMore(w: World, res: CurlCode, r0: map<Easy, Task>, r: map<Easy, Task>, h: Easy,
                      d0: seq<Delivery>, d: seq<Delivery>, d': seq<Delivery>)
    requires Reported(w, res, r0, r, d0, d) && Submap(r, r0) && h in r
    requires d' == d + [Delivery(r[h].token, FinishCode(w, r[h].token, res))]
    ensures Reported(w, res, r0, r - {h}, d0, d')
  {
    forall i | |d0| <= i < |d'| ensures LeftWith(w, res, r0, r - {h}, d'[i]) {
      if i < |d| {
        assert LeftWith(w, res, r0, r, d[i]);
      } else {
        assert h in r0 && r0[h] == r[h];
      }
    }
  }

  lemma ReportedBefore(w: World, res: CurlCode, r0: map<Easy, Task>, r: map<Easy, Task>, r': map<Easy, Task>,
                       d: seq<Delivery>, d': seq<Delivery>)
    requires Submap(r, r0) && Reported(w, res, r, r', d, d')
    ensures Reported(w, res, r0, r', d, d')
  {
    forall i | |d| <= i < |d'| ensures LeftWith(w, res, r0, r', d'[i]) {
      assert LeftWith(w, res, r, r', d'[i]);
    }
  }

  function DoneHandles(msgs: seq<Message>): (s: set<Easy>)
  {
    set i | 0 <= i < |msgs| && msgs[i].Done? :: msgs[i].easy
  }

  /**
    Why a delivery happened while messages were read: curl reported the transfer
    done, or the task shared a socket that was given up.
   */
  ghost predicate Explained(w: World, msgs: seq<Message>, r0: map<Easy, Task>, r1: map<Easy, Task>, d: Delivery) {
    || LeftWith(w, AbortedByCallback, r0, r1, d)
    || exists i :: 0 <= i < |msgs| && msgs[i].Done? && msgs[i].easy in r0 && msgs[i].easy !in r1 &&
         d == Delivery(r0[msgs[i].easy].token, FinishCode(w, r0[msgs[i].easy].token, msgs[i].result))
  }

  /**
    The outcome of one finished transfer: its task leaves and is completed first;
    others leave only when its socket timed out, as cancelled.
   */
  ghost predicate TransferDone(w: World, h: Easy, res: CurlCode, r: map<Easy, Task>, r': map<Easy, Task>,
                               d: seq<Delivery>, d': seq<Delivery>)
    requires h in r
  {
    && h !in r' && Submap(r', r) && (res != OperationTimedOut ==> r' == r - {h})
    && d < d' && d'[|d|] == Delivery(r[h].token, FinishCode(w, r[h].token, res))
    && forall j :: |d| < j < |d'| ==> LeftWith(w, AbortedByCallback, r, r', d'[j])
  }

  /**
    What one result means for the socket it came over: a success clears its
    time-outs, a time-out adds one and at the third the socket goes with whatever
    curl drops for the tasks `r` still had on it, and any other result leaves the table as curl left it.
   */
  ghost predicate Judged(w: World, r: map<Easy, Task>, s: Socket, res: CurlCode, before: map<Socket, nat>,
                         after: map<Socket, nat>)
  {
    if s !in before || (res != Ok && res != OperationTimedOut) then after == before
    else if res == Ok then after == before[s := 0]
    else if before[s] + 1 < MAX_TIMEOUTS then after == before[s := before[s] + 1]
    else DroppedBy(w, OnSocket(w, r, s), before - {s}, after)
  }

  datatype Tables = Tables(running: map<Easy, Task>, sockets: map<Socket, nat>, delivered: seq<Delivery>)

  /** What one message changes: the task of a transfer that is done, and its socket. */
  ghost predicate OneRead(w: World, m: Message, t: Tables, t': Tables) {
    if m.Done? && m.easy in t.running then
      && TransferDone(w, m.easy, m.result, t.running, t'.running, t.delivered, t'.delivered)
      && Judged(w, t.running - {m.easy}, w.active(m.easy), m.result, t.sockets - w.drops(m.easy), t'.sockets)
    else t' == t
  }

  /** What the messages change, one after the other. */
  ghost predicate BatchRead(w: World, msgs: seq<Message>, t0: Tables, t: Tables) {
    if msgs == [] then t == t0
    else
      var front, m := msgs[..|msgs| - 1], msgs[|msgs| - 1];
      exists mid: Tables :: BatchRead(w, front, t0, mid) && OneRead(w, m, mid, t)
  }

  lemma BatchOneMore(w: World, msgs: seq<Message>, i: nat, t0: Tables, mid: Tables, t: Tables)
    requires i < |msgs| && BatchRead(w, msgs[..i], t0, mid) && OneRead(w, msgs[i], mid, t)
    ensures BatchRead(w, msgs[..i + 1], t0, t)
  {
    var read := msgs[..i + 1];
    assert read[..|read| - 1] == msgs[..i] && read[|read| - 1] == msgs[i];
  }

  lemma {:induction false} BatchIsExplained(w: World, msgs: seq<Message>, t0: Tables, t: Tables)
    requires BatchRead(w, msgs, t0, t)
    ensures MessagesRead(w, msgs, t0.running, t.running, t0.delivered, t.delivered)
  {
    if msgs == [] {
      assert DoneHandles(msgs) == {};
    } else {
      var front, m := msgs[..|msgs| - 1], msgs[|msgs| - 1];
      var mid: Tables :| BatchRead(w, front, t0, mid) && OneRead(w, m, mid, t);
      BatchIsExplained(w, front, t0, mid);
      ReadOneMore(w, front, m, t0.running, mid.running, t.running, t0.delivered, mid.delivered, t.delivered);
      assert msgs == front + [m];
    }
  }

  /** The outcome of reading messages: no transfer reported done is left, and every completion is explained. */
  ghost predicate MessagesRead(w: World, msgs: seq<Message>, r0: map<Easy, Task>, r: map<Easy, Task>,
                               d0: seq<Delivery>, d: seq<Delivery>) {
    && Submap(r, r0) && d0 <= d
    && (forall i :: 0 <= i < |msgs| && msgs[i].Done? ==> msgs[i].easy !in r)
    && ((forall i :: 0 <= i < |msgs| && msgs[i].Done? ==> msgs[i].result != OperationTimedOut) ==>
      r == r0 - DoneHandles(msgs))
    && (forall j :: |d0| <= j < |d| ==> Explained(w, msgs, r0, r, d[j]))
  }

  lemma ReadOneMore(w: World, msgs: seq<Message>, m: Message, r0: map<Easy, Task>, r: map<Easy, Task>,
                    r': map<Easy, Task>,
                    d0: seq<Delivery>, d: seq<Delivery>, d': seq<Delivery>)
    requires MessagesRead(w, msgs, r0, r, d0, d)
    requires if m.Done? && m.easy in r then TransferDone(w, m.easy, m.result, r, r', d, d') else d' == d && r' == r
    ensures MessagesRead(w, msgs + [m], r0, r', d0, d')
  {
    var now := msgs + [m];
    forall j | |d0| <= j < |d'| ensures Explained(w, now, r0, r', d'[j]) {
      if j < |d| {
        assert Explained(w, msgs, r0, r, d[j]);
        ExplainedStays(w, msgs, m, r0, r, r', d[j]);
      } else if j == |d| {
        assert now[|msgs|] == m;
      } else {
        assert LeftWith(w, AbortedByCallback, r, r', d'[j]);
        assert LeftWith(w, AbortedByCallback, r0, r', d'[j]);
      }
    }
    DoneOneMore(msgs, m);
    if forall i :: 0 <= i < |now| && now[i].Done? ==> now[i].result != OperationTimedOut {
      assert forall i :: 0 <= i < |msgs| ==> now[i] == msgs[i];
      assert now[|msgs|] == m;
    }
  }

  lemma DoneOneMore(msgs: seq<Message>, m: Message)
    ensures DoneHandles(msgs + [m]) == DoneHandles(msgs) + (if m.Done? then {m.easy} else {})
  {
    var now := msgs + [m];
    forall h | h in DoneHandles(msgs) ensures h in DoneHandles(now) {
      var i :| 0 <= i < |msgs| && msgs[i].Done? && msgs[i].easy == h;
      assert now[i] == msgs[i];
    }
    assert now[|msgs|] == m;
  }

  lemma ExplainedStays(w: World, msgs: seq<Message>, m: Message, r0: map<Easy, Task>, r: map<Easy, Task>,
                       r': map<Easy, Task>,
                       d: Delivery)
    requires Explained(w, msgs, r0, r, d) && Submap(r', r)
    ensures Explained(w, msgs + [m], r0, r', d)
  {
    if LeftWith(w, AbortedByCallback, r0, r, d) {
      assert LeftWith(w, AbortedByCallback, r0, r', d);
    } else {
      var i :| 0 <= i < |msgs| && msgs[i].Done? && msgs[i].easy in r0 && msgs[i].easy !in r &&
               d == Delivery(r0[msgs[i].easy].token, FinishCode(w, r0[msgs[i].easy].token, msgs[i].result));
      assert (msgs + [m])[i] == msgs[i];
    }
  }

  /** All that was delivered in between was cancelled. */
  ghost predicate AllCancelled(d0: seq<Delivery>, d: seq<Delivery>) {
    d0 <= d && forall i :: |d0| <= i < |d| ==> d[i].code == Cancelled
  }

  /** All that was delivered in between says what this result means. */
  ghost predicate AllReport(w: World, res: CurlCode, d0: seq<Delivery>, d: seq<Delivery>) {
    d0 <= d && forall i :: |d0| <= i < |d| ==> Reports(w, d[i].token, res, d[i].code)
  }

  lemma ReportedCodes(w: World, res: CurlCode, r0: map<Easy, Task>, r: map<Easy, Task>,
                      d0: seq<Delivery>, d: seq<Delivery>)
    requires Reported(w, res, r0, r, d0, d)
    ensures AllReport(w, res, d0, d)
  {
    forall i | |d0| <= i < |d| ensures Reports(w, d[i].token, res, d[i].code) {
      assert LeftWith(w, res, r0, r, d[i]);
    }
  }

  lemma AbortsAreCancelled(w: World, r0: map<Easy, Task>, r: map<Easy, Task>, d0: seq<Delivery>, d: seq<Delivery>)
    requires Reported(w, AbortedByCallback, r0, r, d0, d)
    ensures AllCancelled(d0, d)
  {
    ReportedCodes(w, AbortedByCallback, r0, r, d0, d);
  }

  lemma AdmittedStays(w: World, r: map<Easy, Task>, r': map<Easy, Task>, d: seq<Delivery>, d': seq<Delivery>)
    requires Submap(r, r') && d <= d'
    ensures forall t: Task :: Admitted(w, t, r, d) ==> Admitted(w, t, r', d')
  {
    forall t: Task | Admitted(w, t, r, d) ensures Admitted(w, t, r', d') {
      if w.admission(t.token) == Starts {
        var h :| h in r && r[h] == t;
        assert h in r' && r'[h] == t;
      }
    }
  }

  // ---------------------------------------------------------------- whole runs

  /** One step of a run, with what the environment does in it. */
  datatype Step =
    | Request(id: int, priority: int)
    | Prioritise(id: int)
    | Limit(count: nat)
    | Shutdown
    | Open(s: Socket)
    | Close(s: Socket)
    | Admit(msgs: seq<Message>, w: World)
    | Check(msgs: seq<Message>, w: World)
    | SweepStopped(w: World)
    | DropSockets(networkIsDown: bool, w: World)
    | Cancel(w: World)

  /** Everything the engine keeps. */
  datatype State = State(queue: seq<Task>, running: map<Easy, Task>, sockets: map<Socket, nat>, stopped: bool,
                         limit: nat, next: nat, delivered: seq<Delivery>)

  ghost function View(e: Engine): (s: State)
    reads e
  {
    State(e.queue, e.running, e.sockets, e.stopped, e.limit, e.next, e.delivered)
  }

  ghost function TablesOf(s: State): Tables {
    Tables(s.running, s.sockets, s.delivered)
  }

  /** Nothing waits or runs, and every task ever handed in was completed once. */
  ghost predicate AllCompleted(s: State) {
    s.queue == [] && s.running == map[] && s.sockets == map[] &&
    forall k: nat :: InDelivered(s.delivered, k) == if k < s.next then 1 else 0
  }

  /** A request: a new task with these attributes waits, or is cancelled at once by a stopped engine. */
  ghost predicate Requested(s: State, id: int, priority: int, t: State) {
    var task := Task(s.next, id, priority);
    if s.stopped then t == s.(next := s.next + 1, delivered := s.delivered + [Delivery(s.next, Cancelled)])
    else
      && t == s.(next := s.next + 1, queue := t.queue)
      && task in t.queue && multiset(t.queue) == multiset(s.queue) + multiset{task}
      && Sorted(t.queue) && forall p :: Class(t.queue, p) == Class(s.queue, p) + (if p == priority then [task] else [])
  }

  /** A raise: only the first task of that id moves, behind all others of its priority. */
  ghost predicate Raised(s: State, id: int, t: State) {
    t == s.(queue := t.queue) && RaisedQueue(s.queue, id, t.queue)
  }

  ghost predicate RaisedQueue(q: seq<Task>, id: int, r: seq<Task>) {
    if forall x :: x in q ==> x.id != id then r == q
    else exists i: nat :: FirstWithId(q, id, i) && Reinserted(RemoveAt(q, i), q[i], r)
  }

  ghost predicate FirstWithId(q: seq<Task>, id: int, i: nat) {
    i < |q| && q[i].id == id && forall k :: 0 <= k < i ==> q[k].id != id
  }

  ghost predicate Reinserted(rest: seq<Task>, task: Task, q: seq<Task>) {
    && Sorted(q) && multiset(q) == multiset(rest) + multiset{task}
    && forall p :: Class(q, p) == Class(rest, p) + (if p == task.priority then [task] else [])
  }

  /** An admission: tasks from the front of the queue, then the messages; what waits on had no room. */
  ghost predicate AdmittedSome(s: State, msgs: seq<Message>, w: World, t: State) {
    && t == s.(queue := t.queue, running := t.running, sockets := t.sockets, delivered := t.delivered)
    && exists n: nat, mid: Tables :: AdmittedFirst(s, w, n, mid, t.queue) && BatchRead(w, msgs, mid, TablesOf(t))
  }

  /** The first `n` tasks of the queue left it, for the running table or with the code of their refusal. */
  ghost predicate AdmittedFirst(s: State, w: World, n: nat, mid: Tables, waiting: seq<Task>) {
    && n <= |s.queue| && waiting == s.queue[n..]
    && Submap(s.running, mid.running) && mid.sockets == s.sockets && s.delivered <= mid.delivered
    && (forall i :: 0 <= i < n ==> Placed(w, s.queue[i], mid))
    && (waiting == [] || (|mid.running| >= s.limit && forall i :: 0 <= i < |waiting| ==> waiting[i].priority > 2))
  }

  ghost predicate Placed(w: World, task: Task, t: Tables) {
    if w.admission(task.token) == Starts then exists h :: h in t.running && t.running[h] == task
    else exists d :: d in t.delivered && d.token == task.token && ReportsRefusal(w.admission(task.token), d.code)
  }

  /** What a step makes of the engine. */
  ghost predicate Did(step: Step, s: State, t: State) {
    match step
    case Request(id, priority) => Requested(s, id, priority, t)
    case Prioritise(id) => Raised(s, id, t)
    case Limit(count) => t == s.(limit := count)
    case Shutdown => t == s.(stopped := true)
    case Open(x) => t == if x == SOCKET_BAD || x in s.sockets then s else s.(sockets := s.sockets[x := 0])
    case Close(x) => t == s.(sockets := s.sockets - {x})
    case Admit(msgs, w) => AdmittedSome(s, msgs, w, t)
    case Check(msgs, w) =>
      t == s.(running := t.running, sockets := t.sockets, delivered := t.delivered) &&
      BatchRead(w, msgs, TablesOf(s), TablesOf(t))
    case SweepStopped(w) =>
      && t == s.(running := t.running, sockets := t.sockets, delivered := t.delivered)
      && t.running == (map h | h in s.running && !w.stopped(s.running[h].token) :: s.running[h])
      && AllCancelled(s.delivered, t.delivered)
    case DropSockets(down, w) =>
      && t == s.(running := t.running, sockets := map[], delivered := t.delivered)
      && Submap(t.running, s.running)
      && AllReport(w, if down then CouldntConnect else AbortedByCallback, s.delivered, t.delivered)
      && (forall h :: h in s.running && w.active(h) !in s.sockets ==> h in t.running)
      && (forall h :: h in t.running ==> w.active(h) !in s.sockets || Lost(w, s.running, t.running, w.active(h)))
    case Cancel(w) =>
      && t == s.(queue := [], running := map[], sockets := map[], delivered := t.delivered)
      && AllCompleted(t) && AllCancelled(s.delivered, t.delivered)
  }

  /** How many requests were made. */
  function Requests(steps: seq<Step>): (n: nat)
  {
    if steps == [] then 0 else Requests(steps[..|steps| - 1]) + (if steps[|steps| - 1].Request? then 1 else 0)
  }

  /**
    Any interleaving of the steps, from the empty engine: every invariant holds
    at the end, every request was accepted as a task, the sockets opened are those
    closed and those in the table, and every task waits, runs or was completed, once.
   */
  method Run(steps: seq<Step>, initialLimit: nat) returns (e: Engine, ghost states: seq<State>)
    ensures fresh(e) && e.Valid() && IsRun(steps, initialLimit, states) && View(e) == states[|steps|]
    ensures e.next == Requests(steps) && (e.stopped <==> Shutdown in steps)
    ensures Opens(e.history) == Closes(e.history) + |e.sockets|
    ensures forall k: nat :: Places(e.queue, e.running, k) + InDelivered(e.delivered, k) == if k < e.next then 1 else 0
    ensures steps != [] && steps[|steps| - 1].Cancel? ==> AllCompleted(View(e))
  {
    e := new Engine(initialLimit);
    states := PerformAll(e, steps, initialLimit);
    SocketsConserved(e.history);
    EachInItsPlace(e.queue, e.running, e.delivered, e.next);
    RunCounts(steps, initialLimit, states);
    if steps != [] { assert StepTaken(steps, states, |steps| - 1); }
  }

  /** The states between the steps, each what its step makes of the one before. */
  ghost predicate IsRun(steps: seq<Step>, initialLimit: nat, states: seq<State>) {
    && |states| == |steps| + 1
    && states[0] == State([], map[], map[], false, initialLimit, 0, [])
    && forall i :: 0 <= i < |steps| ==> StepTaken(steps, states, i)
  }

  ghost predicate StepTaken(steps: seq<Step>, states: seq<State>, i: nat)
    requires i < |steps| && |states| == |steps| + 1
  {
    Did(steps[i], states[i], states[i + 1])
  }

  lemma RunGrows(steps: seq<Step>, initialLimit: nat, states: seq<State>, step: Step, t: State)
    requires IsRun(steps, initialLimit, states) && Did(step, states[|steps|], t)
    ensures IsRun(steps + [step], initialLimit, states + [t])
  {
    var all, now := steps + [step], states + [t];
    forall i | 0 <= i < |all| ensures StepTaken(all, now, i) {
      if i < |steps| { assert StepTaken(steps, states, i); }
    }
  }

  /** Only a request numbers a new task. */
  lemma StepCounts(step: Step, s: State, t: State)
    requires Did(step, s, t)
    ensures t.next == s.next + (if step.Request? then 1 else 0) && (t.stopped <==> s.stopped || step.Shutdown?)
  {}

  lemma {:induction false} RunCounts(steps: seq<Step>, initialLimit: nat, states: seq<State>)
    requires IsRun(steps, initialLimit, states)
    ensures states[|steps|].next == Requests(steps) && (states[|steps|].stopped <==> Shutdown in steps)
  {
    if steps != [] {
      var n := |steps| - 1;
      var front, past := steps[..n], states[..n + 1];
      forall i | 0 <= i < n ensures StepTaken(front, past, i) {
        assert StepTaken(steps, states, i);
      }
      RunCounts(front, initialLimit, past);
      assert StepTaken(steps, states, n);
      StepCounts(steps[n], states[n], states[n + 1]);
      assert steps == steps[..n] + [steps[n]];
    }
  }

  method PerformAll(e: Engine, steps: seq<Step>, initialLimit: nat) returns (ghost states: seq<State>)
    requires e.Valid() && View(e) == State([], map[], map[], false, initialLimit, 0, [])
    modifies e
    ensures e.Valid() && IsRun(steps, initialLimit, states) && View(e) == states[|steps|]
  {
    states := [View(e)];
    var i := 0;
    assert steps[..0] == [];
    while i < |steps|
      invariant 0 <= i <= |steps| && e.Valid()
      invariant IsRun(steps[..i], initialLimit, states) && View(e) == states[i]
    {
      Perform(e, steps[i]);
      RunGrows(steps[..i], initialLimit, states, steps[i], View(e));
      states := states + [View(e)];
      assert steps[..i + 1] == steps[..i] + [steps[i]];
      i := i + 1;
    }
    assert steps[..i] == steps;
  }

  /**
    One step does what it should, and a task is delivered in the step in which it
    leaves the queue or the running table for good.
   */
  method Perform(e: Engine, step: Step)
    requires e.Valid()
    modifies e
    ensures e.Valid() && Did(step, old(View(e)), View(e)) && old(e.delivered) <= e.delivered
    ensures Settles(old(e.queue), old(e.running), old(e.delivered), old(e.next), e.queue, e.running, e.delivered)
  {
    match step {
      case Request(id, priority) => TakeRequest(e, id, priority);
      case Prioritise(id) => TakeRaise(e, id);
      case Admit(msgs, w) => TakeAdmission(e, msgs, w);
      case _ => TakeOther(e, step);
    }
    LeftMeansDelivered(old(e.queue), old(e.running), old(e.delivered), old(e.next),
                       e.queue, e.running, e.delivered, e.next);
  }

  method TakeRequest(e: Engine, id: int, priority: int)
    requires e.Valid()
    modifies e
    ensures e.Valid() && old(e.delivered) <= e.delivered && old(e.next) <= e.next
    ensures Requested(old(View(e)), id, priority, View(e))
  {
    ghost var task := Task(e.next, id, priority);
    Reinsertion(e.queue, task);
    var t := e.Submit(id, priority);
  }

  /** What insertion does, without saying where. */
  lemma Reinsertion(q: seq<Task>, task: Task)
    requires Sorted(q)
    ensures Reinserted(q, task, Insert(q, task)) && task in Insert(q, task)
  {
    forall p ensures Class(Insert(q, task), p) == Class(q, p) + (if p == task.priority then [task] else []) {
      InsertIsFair(q, task, p);
    }
    InsertIsFair(q, task, 0);
    assert task in multiset(Insert(q, task));
  }

  method TakeRaise(e: Engine, id: int)
    requires e.Valid()
    modifies e
    ensures e.Valid() && old(e.delivered) <= e.delivered && old(e.next) <= e.next
    ensures Raised(old(View(e)), id, View(e))
  {
    RaiseReinserts(e.queue, id);
    e.RaiseTask(id);
  }

  lemma RaiseReinserts(q: seq<Task>, id: int)
    requires Sorted(q)
    ensures RaisedQueue(q, id, Raise(q, id))
  {
    var i := IndexOfId(q, id);
    if i < |q| {
      RestIsSorted(q, i);
      Reinsertion(RemoveAt(q, i), q[i]);
      assert q[i] in q && FirstWithId(q, id, i);
    }
  }

  method TakeAdmission(e: Engine, msgs: seq<Message>, w: World)
    requires e.Valid()
    modifies e
    ensures e.Valid() && old(e.delivered) <= e.delivered && old(e.next) <= e.next
    ensures AdmittedSome(old(View(e)), msgs, w, View(e))
  {
    ghost var s := View(e);
    ghost var n, running, told := e.AddTask(msgs, w);
    ghost var mid := Tables(running, s.sockets, told);
    forall i | 0 <= i < n ensures Placed(w, s.queue[i], mid) {
      AdmittedIsPlaced(w, s.queue[i], mid);
    }
    assert AdmittedFirst(s, w, n, mid, e.queue);
  }

  lemma AdmittedIsPlaced(w: World, task: Task, t: Tables)
    requires Admitted(w, task, t.running, t.delivered)
    ensures Placed(w, task, t)
  {
    if w.admission(task.token) != Starts {
      var d := Delivery(task.token, AdmissionCode(w.admission(task.token)));
      assert d in t.delivered && ReportsRefusal(w.admission(task.token), d.code);
    }
  }

  method TakeOther(e: Engine, step: Step)
    requires e.Valid() && !step.Request? && !step.Prioritise? && !step.Admit?
    modifies e
    ensures e.Valid() && old(e.delivered) <= e.delivered && old(e.next) <= e.next
    ensures Did(step, old(View(e)), View(e))
  {
    match step {
      case Limit(count) => e.SetMaxParallelPacketsCount(count);
      case Shutdown => e.Stop();
      case Open(s) => if s != SOCKET_BAD && s !in e.sockets { e.OpenSocket(s); }
      case Close(s) => e.CloseSocket(s);
      case Check(msgs, w) => e.CheckMultiInfo(msgs, w);
      case SweepStopped(w) => e.ProcessStoppedTasks(w);
      case DropSockets(down, w) => e.ResetSockets(down, w);
      case Cancel(w) => e.CancelTasks(w);
    }
  }
}
