/**
  The callbacks the GUI keeps while it waits for the core's replies
  (gui/core_dispatcher.cpp). A reply runs the callback of its own sequence number;
  old callbacks are swept at most every 30 seconds; a destroyed object takes its
  callbacks with it. Times are in milliseconds.
 */
module Callbacks {
  import opened Sequences

  const SWEEP_INTERVAL := 30000
  const MAX_AGE := 60000

  /** A `callback_info`. `callback` stands for the function stored. */
  datatype Info = Info(callback: nat, date: int, owner: Option<nat>)

  /** How a callback left the table. */
  datatype Fate = Ran(callback: nat, at: int) | Expired(at: int) | Orphaned

  /**
    The dispatcher (`callbacks`, `watched`: the objects whose destruction it
    listens to, `lastSweep`, `next`) and the history it does not keep: everything
    ever registered, what became of it, the objects destroyed, the latest time.
   */
  datatype State = State(
    callbacks: map<nat, Info>, watched: set<nat>, lastSweep: int, next: nat,
    registered: map<nat, Info>, fates: map<nat, Fate>, gone: set<nat>, clock: int)

  /**
    `Reply` and `Sweep` are the two halves of `received`: the callback that runs
    between them may post and destroy objects itself.
   */
  datatype Event =
    | Post(callback: Option<nat>, owner: Option<nat>, now: int)
    | Reply(number: int, now: int)
    | Sweep(now: int)
    | Destroy(gone: nat)

  /** The clock does not go back, and nobody posts for an object that is gone. */
  predicate Allowed(st: State, e: Event) {
    match e
    case Post(_, owner, now) => st.clock <= now && (owner.Some? ==> owner.value !in st.gone)
    case Reply(_, now) => st.clock <= now
    case Sweep(now) => st.clock <= now
    case Destroy(_) => true
  }

  predicate TooOld(info: Info, now: int) {
    now - info.date > MAX_AGE
  }

  function Posted(st: State, callback: Option<nat>, owner: Option<nat>, now: int): (r: State)
  {
    var number := st.next + 1;
    var watched := if owner.Some? then st.watched + {owner.value} else st.watched;
    var next := st.(next := number, watched := watched, clock := now);
    if callback.None? then next
    else
      var info := Info(callback.value, now, owner);
      next.(callbacks := st.callbacks[number := info], registered := st.registered[number := info])
  }

  function Replied(st: State, number: int, now: int): (r: State)
  {
    if number > 0 && number in st.callbacks then
      var ran := Ran(st.callbacks[number].callback, now);
      st.(callbacks := st.callbacks - {number}, fates := st.fates[number := ran], clock := now)
    else st.(clock := now)
  }

  function Swept(st: State, now: int): (r: State)
  {
    if now - st.lastSweep < SWEEP_INTERVAL then st.(clock := now)
    else
      st.(callbacks := map k | k in st.callbacks && !TooOld(st.callbacks[k], now) :: st.callbacks[k],
          fates := st.fates + map k | k in st.callbacks && TooOld(st.callbacks[k], now) :: Expired(now),
          lastSweep := now, clock := now)
  }

  function Destroyed(st: State, owner: nat): (r: State)
  {
    if owner !in st.watched then st.(gone := st.gone + {owner})
    else
      st.(callbacks := map k | k in st.callbacks && st.callbacks[k].owner != Some(owner) :: st.callbacks[k],
          fates := st.fates + map k | k in st.callbacks && st.callbacks[k].owner == Some(owner) :: Orphaned,
          gone := st.gone + {owner})
  }

  function Apply(st: State, e: Event): (r: State)
  {
    match e
    case Post(callback, owner, now) => Posted(st, callback, owner, now)
    case Reply(number, now) => Replied(st, number, now)
    case Sweep(now) => Swept(st, now)
    case Destroy(owner) => Destroyed(st, owner)
  }

  function Run(st: State, es: seq<Event>): (r: State)
  {
    if es == [] then st else Apply(Run(st, es[..|es| - 1]), es[|es| - 1])
  }

  ghost predicate AllAllowed(st: State, es: seq<Event>) {
    es == [] || (AllAllowed(st, es[..|es| - 1]) && Allowed(Run(st, es[..|es| - 1]), es[|es| - 1]))
  }

  // ---------------------------------------------------------------- the dispatcher object

  class Dispatcher {
    var callbacks: map<nat, Info>
    var watched: set<nat>
    var lastSweep: int
    var next: nat
    ghost var registered: map<nat, Info>
    ghost var fates: map<nat, Fate>
    ghost var gone: set<nat>
    ghost var clock: int

    ghost function View(): State
      reads this
    {
      State(callbacks, watched, lastSweep, next, registered, fates, gone, clock)
    }

    constructor (now: int)
      ensures View() == Start(now)
    {
      callbacks, watched, lastSweep, next := map[], {}, now, 0;
      registered, fates, gone, clock := map[], map[], {}, now;
    }

    /** `post_message_to_core`, after the message went out. */
    method PostMessage(callback: Option<nat>, owner: Option<nat>, now: int) returns (number: nat)
      modifies this
      ensures View() == Apply(old(View()), Post(callback, owner, now)) && number == next == old(next) + 1
      ensures callback.Some? ==>
        var info := Info(callback.value, now, owner);
        callbacks == old(callbacks)[number := info] && registered == old(registered)[number := info]
      ensures callback.None? ==> callbacks == old(callbacks) && registered == old(registered)
    {
      next := next + 1;
      number := next;
      if callback.Some? {
        var info := Info(callback.value, now, owner);
        callbacks := callbacks[number := info];
        registered := registered[number := info];
      }
      if owner.Some? {
        watched := watched + {owner.value};
      }
      clock := now;
    }

    /** `executeCallback`: the callback that runs, if any, is out of the table first. */
    method ExecuteCallback(number: int, now: int) returns (ran: Option<nat>)
      modifies this
      ensures View() == Apply(old(View()), Reply(number, now))
      ensures ran == if number > 0 && number in old(callbacks) then Some(old(callbacks)[number].callback) else None
    {
      ran := None;
      if number > 0 && number in callbacks {
        ran := Some(callbacks[number].callback);
        fates := fates[number := Ran(callbacks[number].callback, now)];
        callbacks := callbacks - {number};
      }
      clock := now;
    }

    /** `cleanupCallbacks`. */
    method CleanupCallbacks(now: int)
      modifies this
      ensures View() == Apply(old(View()), Sweep(now))
      ensures now - old(lastSweep) < 30000 ==> callbacks == old(callbacks) && lastSweep == old(lastSweep)
      ensures now - old(lastSweep) >= 30000 ==> lastSweep == now
      ensures now - old(lastSweep) >= 30000 ==>
        callbacks == map k | k in old(callbacks) && now - old(callbacks)[k].date <= 60000 :: old(callbacks)[k]
    {
      clock := now;
      if now - lastSweep < SWEEP_INTERVAL {
        return;
      }
      EraseOld(now);
      lastSweep := now;
    }

    /** The loop of `cleanupCallbacks`. */
    method EraseOld(now: int)
      modifies `callbacks, `fates
      ensures callbacks == map k | k in old(callbacks) && !TooOld(old(callbacks)[k], now) :: old(callbacks)[k]
      ensures fates == old(fates) + map k | k in old(callbacks) && TooOld(old(callbacks)[k], now) :: Expired(now)
    {
      ghost var pending, told := callbacks, fates;
      ghost var aged := map k | k in pending && TooOld(pending[k], now) :: Expired(now);
      var todo := callbacks.Keys;
      while todo != {}
        invariant Midway(pending, told, aged, callbacks, fates, todo)
        decreases todo
      {
        var number :| number in todo;
        MidwayOne(pending, told, aged, callbacks, fates, todo, number);
        todo := todo - {number};
        if now - callbacks[number].date > MAX_AGE {
          callbacks := callbacks - {number};
          fates := fates[number := Expired(now)];
        }
      }
      MidwayDone(pending, told, aged, callbacks, fates);
    }

    /** The slot that `post_message_to_core` connects to an object's `destroyed` signal. */
    method OnDestroyed(owner: nat)
      modifies this
      ensures View() == Apply(old(View()), Destroy(owner))
      ensures owner in old(watched) ==>
        callbacks == map k | k in old(callbacks) && old(callbacks)[k].owner != Some(owner) :: old(callbacks)[k]
      ensures owner !in old(watched) ==> callbacks == old(callbacks)
    {
      gone := gone + {owner};
      if owner in watched {
        EraseOf(owner);
      }
    }

    /** The loop of that slot. */
    method EraseOf(owner: nat)
      modifies `callbacks, `fates
      ensures callbacks == map k | k in old(callbacks) && old(callbacks)[k].owner != Some(owner) :: old(callbacks)[k]
      ensures fates == old(fates) + map k | k in old(callbacks) && old(callbacks)[k].owner == Some(owner) :: Orphaned
    {
      ghost var pending, told := callbacks, fates;
      ghost var orphans := map k | k in pending && pending[k].owner == Some(owner) :: Orphaned;
      var todo := callbacks.Keys;
      while todo != {}
        invariant Midway(pending, told, orphans, callbacks, fates, todo)
        decreases todo
      {
        var number :| number in todo;
        MidwayOne(pending, told, orphans, callbacks, fates, todo, number);
        todo := todo - {number};
        if callbacks[number].owner == Some(owner) {
          callbacks := callbacks - {number};
          fates := fates[number := Orphaned];
        }
      }
      MidwayDone(pending, told, orphans, callbacks, fates);
    }
  }

  /** In the middle of an erasing loop: `leaving` says who is to go, `todo` was not looked at. */
  ghost predicate Midway(pending: map<nat, Info>, told: map<nat, Fate>, leaving: map<nat, Fate>,
                         callbacks: map<nat, Info>, fates: map<nat, Fate>, todo: set<nat>) {
    && leaving.Keys <= pending.Keys && todo <= pending.Keys
    && (forall k :: k in callbacks <==> k in pending && (k in todo || k !in leaving))
    && (forall k :: k in callbacks ==> callbacks[k] == pending[k])
    && (forall k :: k in fates <==> k in told || (k in leaving && k !in todo))
    && (forall k :: k in fates ==> fates[k] == if k in leaving && k !in todo then leaving[k] else told[k])
  }

  lemma MidwayOne(pending: map<nat, Info>, told: map<nat, Fate>, leaving: map<nat, Fate>,
                  callbacks: map<nat, Info>, fates: map<nat, Fate>, todo: set<nat>, k: nat)
    requires Midway(pending, told, leaving, callbacks, fates, todo) && k in todo
    ensures k in callbacks && callbacks[k] == pending[k]
    ensures if k in leaving then Midway(pending, told, leaving, callbacks - {k}, fates[k := leaving[k]], todo - {k})
      else Midway(pending, told, leaving, callbacks, fates, todo - {k})
  {}

  lemma MidwayDone(pending: map<nat, Info>, told: map<nat, Fate>, leaving: map<nat, Fate>,
                   callbacks: map<nat, Info>, fates: map<nat, Fate>)
    requires Midway(pending, told, leaving, callbacks, fates, {})
    ensures callbacks == map k | k in pending && k !in leaving :: pending[k]
    ensures fates == told + leaving
  {
    assert fates.Keys == (told + leaving).Keys;
  }

  // ---------------------------------------------------------------- what every run keeps

  /** The story of one sequence number: registered, it waits or has exactly one fate that fits it. */
  ghost predicate Accounted(st: State, k: nat) {
    && (k in st.registered <==> k in st.callbacks || k in st.fates)
    && !(k in st.callbacks && k in st.fates)
    && (k in st.callbacks ==> Waiting(st, k))
    && (k in st.fates && k in st.registered ==> Fits(st, st.registered[k], st.fates[k]))
  }

  ghost predicate Waiting(st: State, k: nat)
    requires k in st.callbacks
  {
    var info := st.callbacks[k];
    && 0 < k <= st.next
    && k in st.registered && st.registered[k] == info
    && st.lastSweep - MAX_AGE <= info.date <= st.clock
    && (info.owner.Some? ==> info.owner.value in st.watched && info.owner.value !in st.gone)
  }

  /** Only the callback registered can have run; only old ones expire; only those of a dead object are orphaned. */
  ghost predicate Fits(st: State, info: Info, fate: Fate) {
    match fate
    case Ran(callback, at) => callback == info.callback && info.date <= at <= st.clock
    case Expired(at) => TooOld(info, at) && at <= st.clock
    case Orphaned => info.owner.Some? && info.owner.value in st.gone
  }

  ghost predicate Valid(st: State) {
    && st.lastSweep <= st.clock
    && (forall k :: k in st.registered ==> k <= st.next)
    && (forall k :: Accounted(st, k))
  }

  /** What has happened to a callback is never undone or repeated. */
  ghost predicate Extends(st: State, later: State) {
    && st.clock <= later.clock && st.next <= later.next && st.gone <= later.gone
    && (forall k :: k in st.registered ==> k in later.registered && later.registered[k] == st.registered[k])
    && (forall k :: k in st.fates ==> k in later.fates && later.fates[k] == st.fates[k])
  }

  /** The state of a new dispatcher. */
  function Start(now: int): (st: State)
    ensures Valid(st)
  {
    State(map[], {}, now, 0, map[], map[], {}, now)
  }

  lemma AccountedOne(st: State, e: Event, k: nat)
    requires Valid(st) && Allowed(st, e)
    ensures Accounted(Apply(st, e), k)
  {
    assert Accounted(st, k);
    if e.Post? {
      assert Accounted(st, st.next + 1);
    }
  }

  lemma ApplyValid(st: State, e: Event)
    requires Valid(st) && Allowed(st, e)
    ensures Valid(Apply(st, e)) && Extends(st, Apply(st, e))
  {
    forall k: nat ensures Accounted(Apply(st, e), k) { AccountedOne(st, e, k); }
    FatesStay(st, e);
  }

  lemma FatesStay(st: State, e: Event)
    requires Valid(st)
    ensures forall k :: k in st.fates ==> k in Apply(st, e).fates && Apply(st, e).fates[k] == st.fates[k]
  {
    forall k | k in st.fates ensures k in Apply(st, e).fates && Apply(st, e).fates[k] == st.fates[k] {
      assert Accounted(st, k);
    }
  }

  /** Every run keeps the accounts, and only adds to what has happened. */
  lemma {:induction false} RunValid(st: State, es: seq<Event>)
    requires Valid(st) && AllAllowed(st, es)
    ensures Valid(Run(st, es)) && Extends(st, Run(st, es))
  {
    if es != [] {
      RunValid(st, es[..|es| - 1]);
      ApplyValid(Run(st, es[..|es| - 1]), es[|es| - 1]);
    }
  }

  // ---------------------------------------------------------------- consequences

  /** The number whose callback an event runs, if any. */
  function Fired(before: State, e: Event): (r: seq<int>)
  {
    if e.Reply? && e.number > 0 && e.number in before.callbacks then [e.number] else []
  }

  /** The sequence numbers whose callback has run, in order of events. */
  function RanIn(st: State, es: seq<Event>): (r: seq<int>)
  {
    if es == [] then []
    else
      var before, e := Run(st, es[..|es| - 1]), es[|es| - 1];
      RanIn(st, es[..|es| - 1]) + Fired(before, e)
  }

  /** The numbers in `ran` are distinct, and exactly those that ran since `st`. */
  ghost predicate RanSince(st: State, now: State, ran: seq<int>) {
    && (forall i, j :: 0 <= i < j < |ran| ==> ran[i] != ran[j])
    && (forall s :: s in ran <==> s >= 0 && s in now.fates && s !in st.fates && now.fates[s].Ran?)
  }

  /** Nothing that happens brings back a callback that has left, so each runs at most once. */
  lemma {:induction false} RunsAtMostOnce(st: State, es: seq<Event>)
    requires Valid(st) && AllAllowed(st, es)
    ensures RanSince(st, Run(st, es), RanIn(st, es))
  {
    if es != [] {
      var front, e := es[..|es| - 1], es[|es| - 1];
      RunsAtMostOnce(st, front);
      RunValid(st, front);
      RunAddsOne(st, Run(st, front), e, RanIn(st, front));
    }
  }

  lemma RunAddsOne(st: State, before: State, e: Event, ran: seq<int>)
    requires Valid(st) && Valid(before) && Extends(st, before) && Allowed(before, e) && RanSince(st, before, ran)
    ensures RanSince(st, Apply(before, e), ran + Fired(before, e))
  {
    if Fired(before, e) != [] {
      assert Accounted(before, e.number) && e.number !in ran;
    } else {
      assert ran + [] == ran;
      forall k: nat ensures k in before.callbacks ==> k !in before.fates { assert Accounted(before, k); }
    }
  }

  /**
    Any run of a new dispatcher: everything registered waits or has its one fate,
    and the numbers whose callback ran are distinct and exactly those with that fate.
   */
  lemma StartedRun(now: int, es: seq<Event>)
    requires AllAllowed(Start(now), es)
    ensures Valid(Run(Start(now), es)) && RanSince(Start(now), Run(Start(now), es), RanIn(Start(now), es))
    ensures forall k: nat :: k in Run(Start(now), es).registered <==>
      k in Run(Start(now), es).callbacks || k in Run(Start(now), es).fates
  {
    RunsAtMostOnce(Start(now), es);
    RunValid(Start(now), es);
    RegisteredAreAccounted(Run(Start(now), es));
  }

  lemma RegisteredAreAccounted(st: State)
    requires Valid(st)
    ensures forall k: nat :: k in st.registered <==> k in st.callbacks || k in st.fates
  {
    forall k: nat ensures k in st.registered <==> k in st.callbacks || k in st.fates {
      assert Accounted(st, k);
    }
  }

  /** A callback of a destroyed object never runs after the destruction. */
  lemma DestroyedNeverRuns(st: State, owner: nat, es: seq<Event>, k: nat)
    requires Valid(st) && k in st.registered && st.registered[k].owner == Some(owner)
    requires AllAllowed(Destroyed(st, owner), es)
    ensures var end := Run(Destroyed(st, owner), es);
      && k !in end.callbacks && k in end.fates
      && (end.fates[k].Ran? ==> k in st.fates && end.fates[k] == st.fates[k])
  {
    var dead := Destroyed(st, owner);
    assert Accounted(st, k);
    ApplyValid(st, Destroy(owner));
    assert Accounted(dead, k);
    RunValid(dead, es);
    assert Accounted(Run(dead, es), k);
  }

  /** Right after any received event, every callback still waiting was registered less than 90 seconds ago. */
  lemma SweptIsRecent(st: State, now: int, k: nat)
    requires Valid(st) && Allowed(st, Sweep(now)) && k in Swept(st, now).callbacks
    ensures now - 90000 < Swept(st, now).callbacks[k].date <= now
  {
    ApplyValid(st, Sweep(now));
    assert Accounted(Swept(st, now), k);
  }

  /**
    A reply runs a callback if and only if it was registered under the reply's
    number, has not run, has not expired and has not lost its object.
    Within the age limit and while the object lives, a first reply always runs it.
   */
  lemma ReplyInTimeRuns(st: State, k: nat, now: int)
    requires Valid(st) && k in st.registered && Allowed(st, Reply(k, now))
    requires now - st.registered[k].date <= 60000
    requires st.registered[k].owner.Some? ==> st.registered[k].owner.value !in st.gone
    ensures k !in st.fates <==> k in st.callbacks
    ensures k in st.fates ==> st.fates[k].Ran? && Replied(st, k, now) == st.(clock := now)
    ensures k !in st.fates ==> Replied(st, k, now).fates == st.fates[k := Ran(st.registered[k].callback, now)]
  {
    assert Accounted(st, k);
  }

  // ---------------------------------------------------------------- from the post to the reply

  /** Nothing in this event can take the callback `k`, registered so, out of the table. */
  predicate Spares(e: Event, k: nat, info: Info) {
    match e
    case Post(_, _, _) => true
    case Reply(number, _) => number != k
    case Sweep(now) => now <= info.date + 60000
    case Destroy(gone) => info.owner != Some(gone)
  }

  lemma SparedOne(st: State, e: Event, k: nat, info: Info)
    requires k <= st.next && k in st.callbacks && st.callbacks[k] == info && Spares(e, k, info)
    ensures k <= Apply(st, e).next && k in Apply(st, e).callbacks && Apply(st, e).callbacks[k] == info
  {}

  /** A callback in the table stays there while nothing takes it out. */
  lemma {:induction false} SparedStays(st: State, es: seq<Event>, k: nat, info: Info)
    requires k <= st.next && k in st.callbacks && st.callbacks[k] == info && forall e :: e in es ==> Spares(e, k, info)
    ensures var end := Run(st, es); k <= end.next && k in end.callbacks && end.callbacks[k] == info
  {
    if es != [] {
      var front, e := es[..|es| - 1], es[|es| - 1];
      assert e in es;
      SparedStays(st, front, k, info);
      SparedOne(Run(st, front), e, k, info);
    }
  }

  /** One event at the dispatcher. */
  method Handle(d: Dispatcher, e: Event)
    modifies d
    ensures d.View() == Apply(old(d.View()), e)
  {
    match e {
      case Post(callback, owner, now) => var number := d.PostMessage(callback, owner, now);
      case Reply(number, now) => var ran := d.ExecuteCallback(number, now);
      case Sweep(now) => d.CleanupCallbacks(now);
      case Destroy(gone) => d.OnDestroyed(gone);
    }
  }

  method HandleAll(d: Dispatcher, es: seq<Event>)
    modifies d
    ensures d.View() == Run(old(d.View()), es)
  {
    var i := 0;
    assert es[..0] == [];
    while i < |es|
      invariant 0 <= i <= |es| && d.View() == Run(old(d.View()), es[..i])
    {
      assert es[..i + 1][..i] == es[..i] && es[..i + 1][i] == es[i];
      Handle(d, es[i]);
      i := i + 1;
    }
    assert es[..i] == es;
  }

  /**
    From the post to the reply: whatever happens in between, as long as no other
    reply carries the number, the owner lives and no sweep comes after the age
    limit, the reply runs the callback that was posted.
   */
  method PostAndReply(d: Dispatcher, callback: nat, owner: Option<nat>, now: int, es: seq<Event>, later: int)
    returns (ran: Option<nat>)
    requires forall e :: e in es ==> Spares(e, d.next + 1, Info(callback, now, owner))
    modifies d
    ensures ran == Some(callback)
  {
    var number := d.PostMessage(Some(callback), owner, now);
    SparedStays(d.View(), es, number, Info(callback, now, owner));
    HandleAll(d, es);
    ran := d.ExecuteCallback(number, later);
  }
}
