/**
  The timer scheduler (core/scheduler.cpp). A thread wakes about every 100 ms;
  only a wait that timed out evaluates the list, at the steady clock's time.
 */
module Scheduler {

  datatype Timer = Timer(id: nat, timeout: int, last: int, single: bool)

  /** `execute_core_context` was called for a timer at a time. */
  datatype Post = Post(id: nat, time: int)

  datatype State = State(timers: seq<Timer>, posts: seq<Post>, next: nat)

  datatype Event =
    | Tick(now: int)
    | Wake                                                // signalled, or spurious: nothing is evaluated
    | Push(timeout: int, single: bool, now: int)
    | Stop(id: nat)

  predicate Due(t: Timer, now: int) {
    now - t.last >= t.timeout
  }

  /** The list after a tick: due timers have run now, and single-shot ones are gone. */
  function Ticked(ts: seq<Timer>, now: int): (r: seq<Timer>)
  {
    if ts == [] then []
    else (if !Due(ts[0], now) then [ts[0]] else if ts[0].single then [] else [ts[0].(last := now)])
         + Ticked(ts[1..], now)
  }

  function Posted(ts: seq<Timer>, now: int): (r: seq<Post>)
  {
    if ts == [] then []
    else (if Due(ts[0], now) then [Post(ts[0].id, now)] else []) + Posted(ts[1..], now)
  }

  function Without(ts: seq<Timer>, id: nat): (r: seq<Timer>)
  {
    if ts == [] then [] else if ts[0].id == id then ts[1..] else [ts[0]] + Without(ts[1..], id)
  }

  /** One event. Timer ids are numbered from 1 and never reused. */
  function Apply(st: State, e: Event): (r: State)
  {
    match e
    case Tick(now) => State(Ticked(st.timers, now), st.posts + Posted(st.timers, now), st.next)
    case Wake => st
    case Push(timeout, single, now) => State(st.timers + [Timer(st.next + 1, timeout, now, single)], st.posts,
      st.next + 1)
    case Stop(id) => State(Without(st.timers, id), st.posts, st.next)
  }

  function Run(st: State, es: seq<Event>): (r: State)
  {
    if es == [] then st else Apply(Run(st, es[..|es| - 1]), es[|es| - 1])
  }

  // ---------------------------------------------------------------- the scheduler object

  class TimerList {
    var timers: seq<Timer>
    var posts: seq<Post>
    var next: nat

    ghost function View(): State
      reads this
    {
      State(timers, posts, next)
    }

    constructor ()
      ensures View() == State([], [], 0)
    {
      timers, posts, next := [], [], 0;
    }

    /** The loop of the scheduler thread, run when the wait timed out. */
    method OnTick(now: int)
      modifies this
      ensures View() == Apply(old(View()), Tick(now))
    {
      var i := 0;
      ghost var goal := Apply(View(), Tick(now));
      while i < |timers|
        invariant 0 <= i <= |timers| && next == old(next)
        invariant Midway(timers[..i], timers[i..], posts, now, goal)
        decreases |timers| - i
      {
        var t := timers[i];
        ghost var done, rest := timers[..i], timers[i + 1..];
        assert timers[i..] == [t] + rest;
        MidwayOne(done, t, rest, posts, now, goal);
        if now - t.last >= t.timeout {
          timers := timers[i := t.(last := now)];
          posts := posts + [Post(t.id, now)];
          if t.single {
            timers := timers[..i] + timers[i + 1..];
            assert timers[..i] == done && timers[i..] == rest;
            continue;
          }
        }
        i := i + 1;
        assert timers[..i] == done + [timers[i - 1]] && timers[i..] == rest;
      }
      assert timers[..i] == timers && timers[i..] == [];
    }

    /** `push_timer` and `push_single_shot_timer`. */
    method PushTimer(timeout: int, single: bool, now: int) returns (id: nat)
      modifies this
      ensures View() == Apply(old(View()), Push(timeout, single, now))
      ensures id == next == old(next) + 1 && timers == old(timers) + [Timer(id, timeout, now, single)]
    {
      next := next + 1;
      id := next;
      timers := timers + [Timer(id, timeout, now, single)];
    }

    /** `stop_timer`: the first timer with the id is spliced out. */
    method StopTimer(id: nat)
      modifies this
      ensures View() == Apply(old(View()), Stop(id))
    {
      var i := 0;
      while i < |timers| && timers[i].id != id
        invariant 0 <= i <= |timers| && forall k :: 0 <= k < i ==> timers[k].id != id
      {
        i := i + 1;
      }
      WithoutAt(timers, id, i);
      if i < |timers| {
        timers := timers[..i] + timers[i + 1..];
      }
    }
  }

  lemma {:induction false} WithoutAt(ts: seq<Timer>, id: nat, i: nat)
    requires i <= |ts| && (forall k :: 0 <= k < i ==> ts[k].id != id) && (i < |ts| ==> ts[i].id == id)
    ensures Without(ts, id) == if i < |ts| then ts[..i] + ts[i + 1..] else ts
  {
    if i > 0 {
      var rest := ts[1..];
      WithoutAt(rest, id, i - 1);
      if i < |ts| {
        assert [ts[0]] + (rest[..i - 1] + rest[i..]) == ts[..i] + ts[i + 1..];
      } else {
        assert [ts[0]] + rest == ts;
      }
    }
  }

  /** In the middle of a tick: `done` was looked at, `rest` was not. */
  ghost predicate Midway(done: seq<Timer>, rest: seq<Timer>, posts: seq<Post>, now: int, goal: State) {
    done + Ticked(rest, now) == goal.timers && posts + Posted(rest, now) == goal.posts
  }

  lemma MidwayOne(done: seq<Timer>, t: Timer, rest: seq<Timer>, posts: seq<Post>, now: int, goal: State)
    requires Midway(done, [t] + rest, posts, now, goal)
    ensures if !Due(t, now) then Midway(done + [t], rest, posts, now, goal)
      else Midway(if t.single then done else done + [t.(last := now)], rest, posts + [Post(t.id, now)], now, goal)
  {
    var all := [t] + rest;
    assert all[0] == t && all[1..] == rest;
    var kept := if !Due(t, now) then [t] else if t.single then [] else [t.(last := now)];
    var told := if Due(t, now) then [Post(t.id, now)] else [];
    assert done + (kept + Ticked(rest, now)) == (done + kept) + Ticked(rest, now);
    assert posts + (told + Posted(rest, now)) == (posts + told) + Posted(rest, now);
    assert done + [] == done && posts + [] == posts;
  }

  // ---------------------------------------------------------------- one timer in a run

  /** Ids in the list are distinct and already handed out; so are those of the posts. */
  ghost predicate Numbered(st: State) {
    && DistinctIds(st.timers)
    && (forall t :: t in st.timers ==> t.id <= st.next)
    && (forall p :: p in st.posts ==> p.id <= st.next)
  }

  /** When a timer was posted. */
  ghost function PostsOf(ps: seq<Post>, id: nat): seq<int> {
    if ps == [] then []
    else PostsOf(ps[..|ps| - 1], id) + (if ps[|ps| - 1].id == id then [ps[|ps| - 1].time] else [])
  }

  lemma {:induction false} PostsOfConcat(a: seq<Post>, b: seq<Post>, id: nat)
    ensures PostsOf(a + b, id) == PostsOf(a, id) + PostsOf(b, id)
  {
    if b == [] {
      assert a + b == a;
    } else {
      PostsOfConcat(a, b[..|b| - 1], id);
      assert (a + b)[..|a + b| - 1] == a + b[..|b| - 1];
    }
  }

  lemma {:induction false} PostsOfNone(ps: seq<Post>, id: nat)
    requires forall p :: p in ps ==> p.id != id
    ensures PostsOf(ps, id) == []
  {
    if ps != [] { PostsOfNone(ps[..|ps| - 1], id); }
  }

  lemma {:induction false} TickedTimers(ts: seq<Timer>, now: int)
    ensures forall x :: x in Ticked(ts, now) <==>
      exists t :: t in ts && (if !Due(t, now) then x == t else !t.single && x == t.(last := now))
    ensures forall p :: p in Posted(ts, now) <==> exists t :: t in ts && Due(t, now) && p == Post(t.id, now)
  {
    if ts != [] {
      TickedTimers(ts[1..], now);
      assert forall t :: t in ts <==> t == ts[0] || t in ts[1..];
    }
  }

  ghost predicate DistinctIds(ts: seq<Timer>) {
    forall i, j :: 0 <= i < j < |ts| ==> ts[i].id != ts[j].id
  }

  lemma ConsDistinct(t: Timer, ts: seq<Timer>)
    requires DistinctIds(ts) && forall x :: x in ts ==> x.id != t.id
    ensures DistinctIds([t] + ts)
  {
    var r := [t] + ts;
    forall i, j | 0 <= i < j < |r| ensures r[i].id != r[j].id {
      assert r[j] == ts[j - 1] && ts[j - 1] in ts;
    }
  }

  lemma TailDistinct(ts: seq<Timer>)
    requires ts != [] && DistinctIds(ts)
    ensures DistinctIds(ts[1..]) && forall x :: x in ts[1..] ==> x.id != ts[0].id
  {
    forall x | x in ts[1..] ensures x.id != ts[0].id {
      var k :| 0 <= k < |ts[1..]| && ts[1..][k] == x;
      assert ts[k + 1] == x;
    }
  }

  lemma {:induction false} TickedDistinct(ts: seq<Timer>, now: int)
    requires DistinctIds(ts)
    ensures DistinctIds(Ticked(ts, now))
  {
    if ts != [] {
      TailDistinct(ts);
      TickedDistinct(ts[1..], now);
      TickedTimers(ts[1..], now);
      if !Due(ts[0], now) {
        ConsDistinct(ts[0], Ticked(ts[1..], now));
      } else if ts[0].single {
        assert Ticked(ts, now) == Ticked(ts[1..], now);
      } else {
        ConsDistinct(ts[0].(last := now), Ticked(ts[1..], now));
      }
    }
  }

  lemma {:induction false} WithoutTimers(ts: seq<Timer>, id: nat)
    requires DistinctIds(ts)
    ensures forall t :: t in Without(ts, id) <==> t in ts && t.id != id
    ensures DistinctIds(Without(ts, id))
  {
    if ts != [] {
      var rest := ts[1..];
      TailDistinct(ts);
      assert forall t :: t in ts <==> t == ts[0] || t in rest;
      if ts[0].id != id {
        WithoutTimers(rest, id);
        ConsDistinct(ts[0], Without(rest, id));
      }
    }
  }

  lemma ApplyNumbered(st: State, e: Event)
    requires Numbered(st)
    ensures Numbered(Apply(st, e))
  {
    match e {
      case Tick(now) =>
        TickedTimers(st.timers, now);
        TickedDistinct(st.timers, now);
      case Wake =>
      case Push(_, _, _) =>
      case Stop(id) =>
        WithoutTimers(st.timers, id);
    }
  }

  lemma {:induction false} RunNumbered(st: State, es: seq<Event>)
    requires Numbered(st)
    ensures Numbered(Run(st, es))
  {
    if es != [] {
      RunNumbered(st, es[..|es| - 1]);
      ApplyNumbered(Run(st, es[..|es| - 1]), es[|es| - 1]);
    }
  }

  /** No timer of this id is left. */
  ghost predicate Dead(st: State, id: nat) {
    id <= st.next && forall t :: t in st.timers ==> t.id != id
  }

  lemma DeadStays(st: State, e: Event, id: nat)
    requires Numbered(st) && Dead(st, id)
    ensures Dead(Apply(st, e), id) && PostsOf(Apply(st, e).posts, id) == PostsOf(st.posts, id)
  {
    match e {
      case Tick(now) =>
        TickedTimers(st.timers, now);
        PostsOfConcat(st.posts, Posted(st.timers, now), id);
        PostsOfNone(Posted(st.timers, now), id);
      case Wake =>
      case Push(_, _, _) =>
      case Stop(x) =>
        WithoutTimers(st.timers, x);
    }
  }

  /** A stopped id never posts again, whatever happens afterwards. */
  lemma {:induction false} StoppedNeverPosts(st: State, id: nat, es: seq<Event>)
    requires Numbered(st) && id <= st.next
    ensures var stopped := Apply(st, Stop(id));
      PostsOf(Run(stopped, es).posts, id) == PostsOf(st.posts, id) && Dead(Run(stopped, es), id)
  {
    var stopped := Apply(st, Stop(id));
    ApplyNumbered(st, Stop(id));
    if es == [] {
      WithoutTimers(st.timers, id);
    } else {
      StoppedNeverPosts(st, id, es[..|es| - 1]);
      RunNumbered(stopped, es[..|es| - 1]);
      DeadStays(Run(stopped, es[..|es| - 1]), es[|es| - 1], id);
    }
  }

  // ---------------------------------------------------------------- the times of a repeating timer

  /** The times at which the list was evaluated. */
  function Ticks(es: seq<Event>): (r: seq<int>)
  {
    if es == [] then []
    else Ticks(es[..|es| - 1]) + (if es[|es| - 1].Tick? then [es[|es| - 1].now] else [])
  }

  /** When a repeating timer pushed at `start` last ran, after these ticks. */
  function LastRun(start: int, timeout: int, ticks: seq<int>): (r: int)
  {
    if ticks == [] then start
    else
      var l, now := LastRun(start, timeout, ticks[..|ticks| - 1]), ticks[|ticks| - 1];
      if now - l >= timeout then now else l
  }

  /** All the times it ran. */
  function Fires(start: int, timeout: int, ticks: seq<int>): (r: seq<int>)
  {
    if ticks == [] then []
    else
      var l, now := LastRun(start, timeout, ticks[..|ticks| - 1]), ticks[|ticks| - 1];
      Fires(start, timeout, ticks[..|ticks| - 1]) + (if now - l >= timeout then [now] else [])
  }

  /** The list holds the timer with the state these ticks leave it in. */
  ghost predicate Follows(st: State, id: nat, start: int, timeout: int, ticks: seq<int>) {
    && Timer(id, timeout, LastRun(start, timeout, ticks), false) in st.timers
    && PostsOf(st.posts, id) == Fires(start, timeout, ticks)
  }

  lemma {:induction false} PostedOf(ts: seq<Timer>, now: int, t: Timer)
    requires DistinctIds(ts) && t in ts
    ensures PostsOf(Posted(ts, now), t.id) == if Due(t, now) then [now] else []
  {
    TailDistinct(ts);
    var head := if Due(ts[0], now) then [Post(ts[0].id, now)] else [];
    PostsOfConcat(head, Posted(ts[1..], now), t.id);
    TickedTimers(ts[1..], now);
    assert head != [] ==> head[..0] == [];
    if t == ts[0] {
      PostsOfNone(Posted(ts[1..], now), t.id);
    } else {
      PostedOf(ts[1..], now, t);
    }
  }

  lemma FollowsTick(st: State, id: nat, start: int, timeout: int, ticks: seq<int>, now: int)
    requires Numbered(st) && Follows(st, id, start, timeout, ticks)
    ensures Follows(Apply(st, Tick(now)), id, start, timeout, ticks + [now])
  {
    var t := Timer(id, timeout, LastRun(start, timeout, ticks), false);
    PostsOfConcat(st.posts, Posted(st.timers, now), id);
    PostedOf(st.timers, now, t);
    assert (ticks + [now])[..|ticks|] == ticks;
    StaysInList(st.timers, now, t);
  }

  lemma StaysInList(ts: seq<Timer>, now: int, t: Timer)
    requires t in ts && !t.single
    ensures (if Due(t, now) then t.(last := now) else t) in Ticked(ts, now)
  {
    TickedTimers(ts, now);
  }

  lemma FollowsOne(st: State, id: nat, start: int, timeout: int, ticks: seq<int>, e: Event)
    requires Numbered(st) && Follows(st, id, start, timeout, ticks) && e != Stop(id)
    ensures Follows(Apply(st, e), id, start, timeout, ticks + (if e.Tick? then [e.now] else []))
  {
    assert ticks + [] == ticks;
    match e {
      case Tick(now) => FollowsTick(st, id, start, timeout, ticks, now);
      case Stop(x) => WithoutTimers(st.timers, x);
      case _ =>
    }
  }

  /**
    In any run in which it is not stopped, a repeating timer is posted exactly at
    the times given by its own start, its timeout and the ticks.
   */
  lemma {:induction false} RepeatingTimerFires(st: State, timeout: int, start: int, es: seq<Event>)
    requires Numbered(st) && Stop(st.next + 1) !in es
    ensures var id, pushed := st.next + 1, Apply(st, Push(timeout, false, start));
      PostsOf(Run(pushed, es).posts, id) == Fires(start, timeout, Ticks(es)) &&
        Follows(Run(pushed, es), id, start, timeout, Ticks(es))
  {
    var id, pushed := st.next + 1, Apply(st, Push(timeout, false, start));
    ApplyNumbered(st, Push(timeout, false, start));
    if es == [] {
      PostsOfNone(st.posts, id);
      assert pushed.timers[|st.timers|] == Timer(id, timeout, start, false);
    } else {
      var front, e := es[..|es| - 1], es[|es| - 1];
      assert e in es;
      RepeatingTimerFires(st, timeout, start, front);
      RunNumbered(pushed, front);
      FollowsOne(Run(pushed, front), id, start, timeout, Ticks(front), e);
      assert Ticks(es) == Ticks(front) + (if e.Tick? then [e.now] else []);
    }
  }

  /** The latest of some times, or the start. */
  function Latest(start: int, times: seq<int>): (r: int)
  {
    if times == [] then start else times[|times| - 1]
  }

  /** Each time comes at least `low` and at most `high` after the one before it, from `start` on. */
  ghost predicate Spaced(start: int, times: seq<int>, low: int, high: int) {
    times == [] ||
    (Spaced(start, times[..|times| - 1], low, high) &&
     low <= times[|times| - 1] - Latest(start, times[..|times| - 1]) <= high)
  }

  lemma {:induction false} FiresSpaced(start: int, timeout: int, ticks: seq<int>, d: int)
    requires timeout > 0 && d >= 0 && Spaced(start, ticks, 0, d)
    ensures Spaced(start, Fires(start, timeout, ticks), timeout, timeout + d - 1)
    ensures LastRun(start, timeout, ticks) == Latest(start, Fires(start, timeout, ticks))
    ensures 0 <= Latest(start, ticks) - LastRun(start, timeout, ticks) < timeout
  {
    if ticks != [] {
      var front, now := ticks[..|ticks| - 1], ticks[|ticks| - 1];
      FiresSpaced(start, timeout, front, d);
      var before := Fires(start, timeout, front);
      assert (before + [now])[..|before|] == before && before + [] == before;
    }
  }

  /** `n` spaced times reach between `n` lows and `n` highs. */
  lemma {:induction false} SpacedSpan(start: int, times: seq<int>, low: int, high: int)
    requires Spaced(start, times, low, high)
    ensures |times| * low <= Latest(start, times) - start <= |times| * high
  {
    if times != [] {
      var n := |times| - 1;
      SpacedSpan(start, times[..n], low, high);
      assert (n + 1) * low == n * low + low && (n + 1) * high == n * high + high;
    }
  }

  /**
    With ticks at most `d` apart, consecutive runs are at least the timeout and
    less than timeout plus `d` apart. After `n` runs the time elapsed at the
    latest tick is at least `n` timeouts and less than `n + 1` such intervals.
   */
  lemma RepeatingTimerRate(start: int, timeout: int, ticks: seq<int>, d: int)
    requires timeout > 0 && d >= 0 && Spaced(start, ticks, 0, d)
    ensures var fires := Fires(start, timeout, ticks);
      && Spaced(start, fires, timeout, timeout + d - 1)
      && |fires| * timeout <= Latest(start, ticks) - start < (|fires| + 1) * (timeout + d)
  {
    var fires := Fires(start, timeout, ticks);
    FiresSpaced(start, timeout, ticks, d);
    SpacedSpan(start, fires, timeout, timeout + d - 1);
    OneMoreSpan(|fires|, timeout + d - 1);
  }

  /**
    The posts of a repeating timer in any run that does not stop it, with ticks at
    most `d` apart: the gaps between them and their number have both bounds.
   */
  lemma PostsAtRate(st: State, timeout: int, start: int, es: seq<Event>, d: int)
    requires Numbered(st) && Stop(st.next + 1) !in es
    requires timeout > 0 && d >= 0 && Spaced(start, Ticks(es), 0, d)
    ensures var posts := PostsOf(Run(Apply(st, Push(timeout, false, start)), es).posts, st.next + 1);
      && Spaced(start, posts, timeout, timeout + d - 1)
      && |posts| * timeout <= Latest(start, Ticks(es)) - start < (|posts| + 1) * (timeout + d)
  {
    RepeatingTimerFires(st, timeout, start, es);
    RepeatingTimerRate(start, timeout, Ticks(es), d);
  }

  lemma OneMoreSpan(n: nat, high: int)
    ensures (n + 1) * (high + 1) == n * high + n + high + 1
  {
    assert (n + 1) * (high + 1) == n * (high + 1) + (high + 1);
  }

  // ---------------------------------------------------------------- single-shot timers

  /** A single-shot timer waits unposted, or was posted once and is gone. */
  ghost predicate AtMostOnce(st: State, id: nat) {
    || (PostsOf(st.posts, id) == [] && id <= st.next && forall t :: t in st.timers && t.id == id ==> t.single)
    || (|PostsOf(st.posts, id)| == 1 && Dead(st, id))
  }

  lemma AtMostOnceOne(st: State, id: nat, e: Event)
    requires Numbered(st) && AtMostOnce(st, id)
    ensures AtMostOnce(Apply(st, e), id)
  {
    if Dead(st, id) {
      DeadStays(st, e, id);
    } else {
      match e {
        case Tick(now) =>
          var t :| t in st.timers && t.id == id;
          AtMostOnceTick(st, t, now);
        case Stop(x) =>
          WithoutTimers(st.timers, x);
        case _ =>
      }
    }
  }

  lemma AtMostOnceTick(st: State, t: Timer, now: int)
    requires Numbered(st) && t in st.timers && t.single && PostsOf(st.posts, t.id) == []
    ensures AtMostOnce(Apply(st, Tick(now)), t.id)
  {
    TickedTimers(st.timers, now);
    PostsOfConcat(st.posts, Posted(st.timers, now), t.id);
    PostedOf(st.timers, now, t);
    SameIdSameTimer(st.timers, t);
    forall x | x in Ticked(st.timers, now) && x.id == t.id ensures x == t && !Due(t, now) {
      var y :| y in st.timers && (if !Due(y, now) then x == y else !y.single && x == y.(last := now));
      assert y.id == t.id;
    }
  }

  lemma SameIdSameTimer(ts: seq<Timer>, t: Timer)
    requires DistinctIds(ts) && t in ts
    ensures forall x :: x in ts && x.id == t.id ==> x == t
  {}

  /** Whatever happens, a single-shot timer is posted at most once. */
  lemma {:induction false} SingleShotPostsOnce(st: State, timeout: int, now: int, es: seq<Event>)
    requires Numbered(st)
    ensures |PostsOf(Run(Apply(st, Push(timeout, true, now)), es).posts, st.next + 1)| <= 1
    ensures AtMostOnce(Run(Apply(st, Push(timeout, true, now)), es), st.next + 1)
  {
    var pushed := Apply(st, Push(timeout, true, now));
    ApplyNumbered(st, Push(timeout, true, now));
    if es == [] {
      PostsOfNone(st.posts, st.next + 1);
    } else {
      SingleShotPostsOnce(st, timeout, now, es[..|es| - 1]);
      RunNumbered(pushed, es[..|es| - 1]);
      AtMostOnceOne(Run(pushed, es[..|es| - 1]), st.next + 1, es[|es| - 1]);
    }
  }

  /** No tick so far came `timeout` after `start`. */
  ghost predicate NoneDue(ticks: seq<int>, start: int, timeout: int) {
    forall i :: 0 <= i < |ticks| ==> ticks[i] - start < timeout
  }

  /** The first tick that came at least `timeout` after `start` is the one post; without such a tick there is none. */
  ghost predicate FirstDue(ticks: seq<int>, start: int, timeout: int, posts: seq<int>) {
    if NoneDue(ticks, start, timeout) then posts == []
    else exists i: nat :: DueAt(ticks, i, start, timeout) && posts == [ticks[i]]
  }

  ghost predicate DueAt(ticks: seq<int>, i: nat, start: int, timeout: int) {
    i < |ticks| && ticks[i] - start >= timeout && NoneDue(ticks[..i], start, timeout)
  }

  /** A single-shot timer after these ticks: waiting as it was pushed, or posted by the first due one and gone. */
  ghost predicate OneShot(st: State, id: nat, start: int, timeout: int, ticks: seq<int>) {
    && FirstDue(ticks, start, timeout, PostsOf(st.posts, id))
    && if NoneDue(ticks, start, timeout) then Timer(id, timeout, start, true) in st.timers else Dead(st, id)
  }

  lemma FirstDueWaits(ticks: seq<int>, now: int, start: int, timeout: int)
    requires NoneDue(ticks, start, timeout)
    ensures now - start < timeout ==> NoneDue(ticks + [now], start, timeout)
    ensures now - start >= timeout ==>
      !NoneDue(ticks + [now], start, timeout) && FirstDue(ticks + [now], start, timeout, [now])
  {
    var more := ticks + [now];
    assert more[..|ticks|] == ticks && more[|ticks|] == now;
    assert now - start >= timeout ==> DueAt(more, |ticks|, start, timeout);
  }

  lemma FirstDueStays(ticks: seq<int>, now: int, start: int, timeout: int, posts: seq<int>)
    requires !NoneDue(ticks, start, timeout) && FirstDue(ticks, start, timeout, posts)
    ensures !NoneDue(ticks + [now], start, timeout) && FirstDue(ticks + [now], start, timeout, posts)
  {
    var more := ticks + [now];
    var i: nat :| DueAt(ticks, i, start, timeout) && posts == [ticks[i]];
    assert more[..i] == ticks[..i] && more[i] == ticks[i];
    assert DueAt(more, i, start, timeout);
  }

  lemma OneShotTick(st: State, id: nat, start: int, timeout: int, ticks: seq<int>, now: int)
    requires Numbered(st) && id <= st.next && OneShot(st, id, start, timeout, ticks)
    ensures OneShot(Apply(st, Tick(now)), id, start, timeout, ticks + [now])
  {
    if NoneDue(ticks, start, timeout) {
      var t := Timer(id, timeout, start, true);
      FirstDueWaits(ticks, now, start, timeout);
      PostsOfConcat(st.posts, Posted(st.timers, now), id);
      PostedOf(st.timers, now, t);
      OneShotTimers(st, t, now);
    } else {
      FirstDueStays(ticks, now, start, timeout, PostsOf(st.posts, id));
      DeadStays(st, Tick(now), id);
    }
  }

  lemma OneShotTimers(st: State, t: Timer, now: int)
    requires Numbered(st) && t in st.timers && t.single
    ensures if Due(t, now) then Dead(Apply(st, Tick(now)), t.id) else t in Ticked(st.timers, now)
  {
    TickedTimers(st.timers, now);
    SameIdSameTimer(st.timers, t);
  }

  lemma OneShotOne(st: State, id: nat, start: int, timeout: int, ticks: seq<int>, e: Event)
    requires Numbered(st) && id <= st.next && OneShot(st, id, start, timeout, ticks) && e != Stop(id)
    ensures OneShot(Apply(st, e), id, start, timeout, ticks + (if e.Tick? then [e.now] else []))
  {
    assert ticks + [] == ticks;
    match e {
      case Tick(now) => OneShotTick(st, id, start, timeout, ticks, now);
      case Stop(x) => WithoutTimers(st.timers, x);
      case _ =>
    }
  }

  /**
    In any run in which it is not stopped, a single-shot timer is posted exactly
    once, at the first tick that comes its timeout after its start, or not yet.
   */
  lemma {:induction false} SingleShotPosts(st: State, timeout: int, start: int, es: seq<Event>)
    requires Numbered(st) && Stop(st.next + 1) !in es
    ensures var end := Run(Apply(st, Push(timeout, true, start)), es);
      FirstDue(Ticks(es), start, timeout, PostsOf(end.posts, st.next + 1)) &&
      OneShot(end, st.next + 1, start, timeout, Ticks(es)) && st.next + 1 <= end.next
  {
    var id, pushed := st.next + 1, Apply(st, Push(timeout, true, start));
    ApplyNumbered(st, Push(timeout, true, start));
    if es == [] {
      PostsOfNone(st.posts, id);
      assert pushed.timers[|st.timers|] == Timer(id, timeout, start, true);
    } else {
      var front, e := es[..|es| - 1], es[|es| - 1];
      assert e in es;
      SingleShotPosts(st, timeout, start, front);
      RunNumbered(pushed, front);
      OneShotOne(Run(pushed, front), id, start, timeout, Ticks(front), e);
      assert Ticks(es) == Ticks(front) + (if e.Tick? then [e.now] else []);
    }
  }
}
