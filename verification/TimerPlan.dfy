/** The timer queue without its heap: which timers live, when each is due, and when the timerfd fires, as a function
    of everything that happened. */
module TimerPlans {
  import opened Options

  datatype Entry = Entry(due: int, interval: int)

  /** Timers are named by the order of their creation. */
  datatype Plan = Plan(
    timers: seq<Entry>,
    live: set<nat>,           // added and not yet freed
    batch: set<nat>,          // the live ones that are just being expired
    canceled: set<nat>,       // named in a cancel
    posted: seq<nat>,         // created by other threads, waiting for the loop thread to add them
    armed: Option<int>)       // when the timerfd will fire

  const NEW_PLAN := Plan([], {}, {}, {}, [], None)

  /** What the loop thread, a callback included, may do. */
  datatype Act = Add(when: int, interval: int, clock: int) | Cancel(id: nat)

  /** What happens to a queue: an action of the loop thread, the creation of a timer by another thread and its
      addition by the loop thread, or the end of a poll with the timerfd readable (fired: by its deadline). Each
      callback of the batch follows one of the scripts, in the order they run. */
  datatype Op =
    | Do(act: Act)
    | Post(when: int, interval: int)
    | Turn(clock: int)
    | Fire(now: int, clock: int, fired: bool, scripts: seq<seq<Act>>)

  ghost function Due(p: Plan, i: nat): int { if i < |p.timers| then p.timers[i].due else 0 }

  /** Timer i is in the heap. */
  ghost predicate Pending(p: Plan, i: nat) { i in p.live && i !in p.batch }

  /** Strictly before all timers in the heap. */
  ghost predicate Earliest(p: Plan, when: int) {
    forall i: nat :: Pending(p, i) ==> when < Due(p, i)
  }

  ghost predicate IsFirst(p: Plan, i: nat) {
    Pending(p, i) && forall j: nat :: Pending(p, j) ==> Due(p, i) <= Due(p, j)
  }

  /** The earliest deadline in the heap. */
  ghost function FirstDue(p: Plan): Option<int> {
    if exists i: nat :: IsFirst(p, i) then
      var i: nat :| IsFirst(p, i);
      Some(Due(p, i))
    else None
  }

  lemma FirstDueIs(p: Plan, i: nat)
    requires IsFirst(p, i)
    ensures FirstDue(p) == Some(Due(p, i))
  {
  }

  /** A new timer is the earliest, or is not, whether or not it has been created already. */
  lemma CreatedEarliest(p: Plan, when: int, interval: int)
    requires forall i: nat :: i in p.live ==> i < |p.timers|
    ensures Earliest(Created(p, when, interval), when) <==> Earliest(p, when)
    ensures Due(Created(p, when, interval), |p.timers|) == when
  {
    var c := Created(p, when, interval);
    assert forall i: nat :: Pending(p, i) <==> Pending(c, i);
    assert forall i: nat :: Pending(p, i) ==> Due(c, i) == Due(p, i);
  }

  // ---------- the timerfd ----------

  ghost predicate InTime(armed: Option<int>, when: int) {
    armed.Some? && armed.value <= when
  }

  /** What timerfd_settime does with the time left: arms if it lies ahead, disarms if it is exactly now,
      and rejects a negative time, leaving the timerfd as it was. */
  ghost function Rearmed(armed: Option<int>, when: int, clock: int): Option<int> {
    if when > clock then Some(when) else if when == clock then None else armed
  }

  /** A deadline is covered by its arming exactly when it lies ahead of the clock, or is rejected as past while an
      earlier arming stands. */
  ghost predicate Covers(armed: Option<int>, when: int, clock: int) {
    when > clock || (when < clock && InTime(armed, when))
  }

  lemma RearmedInTime(armed: Option<int>, when: int, clock: int)
    ensures InTime(Rearmed(armed, when, clock), when) <==> Covers(armed, when, clock)
  {
  }

  // ---------- the steps ----------

  ghost function Created(p: Plan, when: int, interval: int): Plan {
    p.(timers := p.timers + [Entry(when, interval)])
  }

  /** Timer id joins the heap; the timerfd is armed for it if it is the earliest. */
  ghost function Entered(p: Plan, id: nat, clock: int): Plan {
    p.(live := p.live + {id},
       armed := if Earliest(p, Due(p, id)) then Rearmed(p.armed, Due(p, id), clock) else p.armed)
  }

  /** A live timer is cancelled: freed at once if it is pending. Handles to other timers are outside this model. */
  ghost function Canceled(p: Plan, id: nat): Plan {
    if id !in p.live then p
    else p.(live := if id in p.batch then p.live else p.live - {id}, canceled := p.canceled + {id})
  }

  ghost function Acted(p: Plan, a: Act): Plan {
    match a
    case Add(when, interval, clock) => Entered(Created(p, when, interval), |p.timers|, clock)
    case Cancel(id) => Canceled(p, id)
  }

  ghost function ActedAll(p: Plan, acts: seq<Act>): Plan {
    if acts == [] then p else Acted(ActedAll(p, acts[..|acts| - 1]), acts[|acts| - 1])
  }

  /** The i-th callback of a batch; without a script it does nothing to the queue. */
  function Script(scripts: seq<seq<Act>>, i: nat): seq<Act> { if i < |scripts| then scripts[i] else [] }

  ghost function Ran(p: Plan, scripts: seq<seq<Act>>, n: nat): Plan {
    if n == 0 then p else ActedAll(Ran(p, scripts, n - 1), Script(scripts, n - 1))
  }

  /** The due timers become the batch; a timerfd that fired is no longer armed. */
  ghost function Begun(p: Plan, now: int, fired: bool): Plan {
    p.(batch := (set i: nat | i in p.live && Due(p, i) <= now), armed := if fired then None else p.armed)
  }

  /** Repeating timers of the batch that no callback cancelled. */
  ghost predicate Survives(p: Plan, i: nat) {
    i in p.batch && i < |p.timers| && p.timers[i].interval > 0 && i !in p.canceled
  }

  /** The kept timers are due one interval after now, the rest of the batch is freed. */
  ghost function Restarted(p: Plan, now: int): Plan {
    p.(timers := seq(|p.timers|, i requires 0 <= i < |p.timers| =>
                   if Survives(p, i) then Entry(now + p.timers[i].interval, p.timers[i].interval) else p.timers[i]),
       live := (set i: nat | i in p.live && (i in p.batch ==> Survives(p, i))),
       batch := {})
  }

  /** The timerfd is armed for the earliest deadline, if there is one after the epoch. */
  ghost function ArmedForFirst(p: Plan, clock: int): Plan {
    match FirstDue(p)
    case None => p
    case Some(d) => if d > 0 then p.(armed := Rearmed(p.armed, d, clock)) else p
  }

  /** The state after the callbacks of a batch. */
  ghost function AfterCallbacks(p: Plan, now: int, fired: bool, scripts: seq<seq<Act>>): Plan {
    var b := Begun(p, now, fired);
    Ran(b, scripts, |b.batch|)
  }

  ghost function Fired(p: Plan, now: int, clock: int, fired: bool, scripts: seq<seq<Act>>): Plan {
    ArmedForFirst(Restarted(AfterCallbacks(p, now, fired, scripts), now), clock)
  }

  ghost function Posted(p: Plan, when: int, interval: int): Plan {
    Created(p, when, interval).(posted := p.posted + [|p.timers|])
  }

  ghost function Turned(p: Plan, clock: int): Plan {
    if p.posted == [] then p else Entered(p.(posted := p.posted[1..]), p.posted[0], clock)
  }

  lemma NothingPosted(p: Plan, clock: int)
    requires p.posted == []
    ensures Turned(p, clock) == p
  {
  }

  ghost function Next(p: Plan, op: Op): Plan {
    match op
    case Do(act) => Acted(p, act)
    case Post(when, interval) => Posted(p, when, interval)
    case Turn(clock) => Turned(p, clock)
    case Fire(now, clock, fired, scripts) => Fired(p, now, clock, fired, scripts)
  }

  /** The plan after everything that happened. */
  ghost function After(ops: seq<Op>): Plan {
    if ops == [] then NEW_PLAN else Next(After(ops[..|ops| - 1]), ops[|ops| - 1])
  }

  // ---------- when the timerfd is armed in time ----------

  /** The timerfd fires no later than any timer in the heap is due. */
  ghost predicate AllInTime(p: Plan) {
    forall i: nat :: Pending(p, i) ==> InTime(p.armed, Due(p, i))
  }

  /** The deadline a step arms the timerfd for, if there is one, is covered by it. */
  ghost predicate StepCovers(p: Plan, op: Op) {
    match op
    case Do(Add(when, interval, clock)) => Earliest(p, when) ==> Covers(p.armed, when, clock)
    case Do(Cancel(id)) => true
    case Post(when, interval) => true
    case Turn(clock) =>
      p.posted != [] && Earliest(p, Due(p, p.posted[0])) ==> Covers(p.armed, Due(p, p.posted[0]), clock)
    case Fire(now, clock, fired, scripts) =>
      EndCovers(AfterCallbacks(p, now, fired, scripts), now, clock)
  }

  /** The end of a batch covers the first deadline then: it arms the timerfd for any deadline after the epoch. */
  ghost predicate EndCovers(q: Plan, now: int, clock: int) {
    match FirstDue(Restarted(q, now))
    case None => true
    case Some(d) => if d > 0 then Covers(q.armed, d, clock) else InTime(q.armed, d)
  }

  ghost predicate AllStepsCover(ops: seq<Op>) {
    ops == [] || (AllStepsCover(ops[..|ops| - 1]) && StepCovers(After(ops[..|ops| - 1]), ops[|ops| - 1]))
  }

  /** Names are those of created timers, and what is posted is not yet live. */
  ghost predicate WellNamed(p: Plan) {
    && (forall i: nat :: i in p.live ==> i < |p.timers|) && p.batch <= p.live
    && (forall k :: 0 <= k < |p.posted| ==> p.posted[k] < |p.timers| && p.posted[k] !in p.live)
    && (forall j, k :: 0 <= j < k < |p.posted| ==> p.posted[j] != p.posted[k])
  }

  lemma EnteredNamed(p: Plan, id: nat, clock: int)
    requires WellNamed(p) && id < |p.timers| && id !in p.live && id !in p.posted
    ensures WellNamed(Entered(p, id, clock))
  {
  }

  lemma ActedNamed(p: Plan, a: Act)
    requires WellNamed(p)
    ensures WellNamed(Acted(p, a)) && Acted(p, a).batch == p.batch && Acted(p, a).posted == p.posted
  {
    if a.Add? {
      EnteredNamed(Created(p, a.when, a.interval), |p.timers|, a.clock);
    }
  }

  lemma {:induction false} ActedAllNamed(p: Plan, acts: seq<Act>)
    requires WellNamed(p)
    ensures WellNamed(ActedAll(p, acts))
  {
    if acts != [] {
      ActedAllNamed(p, acts[..|acts| - 1]);
      ActedNamed(ActedAll(p, acts[..|acts| - 1]), acts[|acts| - 1]);
    }
  }

  lemma {:induction false} RanNamed(p: Plan, scripts: seq<seq<Act>>, n: nat)
    requires WellNamed(p)
    ensures WellNamed(Ran(p, scripts, n))
  {
    if n > 0 {
      RanNamed(p, scripts, n - 1);
      ActedAllNamed(Ran(p, scripts, n - 1), Script(scripts, n - 1));
    }
  }

  lemma StepNamed(p: Plan, op: Op)
    requires WellNamed(p) && p.batch == {}
    ensures WellNamed(Next(p, op)) && Next(p, op).batch == {}
  {
    hide Fired, Earliest;
    match op
    case Do(act) => ActedNamed(p, act);
    case Post(when, interval) =>
    case Turn(clock) =>
      if p.posted != [] {
        EnteredNamed(p.(posted := p.posted[1..]), p.posted[0], clock);
      }
    case Fire(now, clock, fired, scripts) =>
      FireNamed(p, now, clock, fired, scripts);
  }

  lemma FireNamed(p: Plan, now: int, clock: int, fired: bool, scripts: seq<seq<Act>>)
    requires WellNamed(p)
    ensures WellNamed(Fired(p, now, clock, fired, scripts)) && Fired(p, now, clock, fired, scripts).batch == {}
  {
    hide FirstDue, Ran, Restarted;
    RanNamed(Begun(p, now, fired), scripts, |Begun(p, now, fired).batch|);
    RestartedNamed(AfterCallbacks(p, now, fired, scripts), now);
  }

  lemma RestartedNamed(p: Plan, now: int)
    requires WellNamed(p)
    ensures WellNamed(Restarted(p, now)) && Restarted(p, now).batch == {}
  {
  }

  /** A finite set of timers has an earliest one. */
  lemma {:induction false} FirstOf(p: Plan, some: set<nat>) returns (i: nat)
    requires some != {}
    ensures i in some && forall j :: j in some ==> Due(p, i) <= Due(p, j)
  {
    i :| i in some;
    if some != {i} {
      var k := FirstOf(p, some - {i});
      assert forall j :: j in some ==> j == i || j in some - {i};
      i := if Due(p, k) <= Due(p, i) then k else i;
    }
  }

  lemma FirstExists(p: Plan)
    requires p.batch == {}
    ensures FirstDue(p).None? ==> p.live == {}
    ensures FirstDue(p).Some? ==> exists i: nat :: IsFirst(p, i) && FirstDue(p).value == Due(p, i)
  {
    if p.live != {} {
      var i := FirstOf(p, p.live);
      assert IsFirst(p, i);
    }
  }

  /** Adding a timer keeps the timerfd armed in time exactly when the step covers its deadline. */
  lemma EnteredInTime(p: Plan, id: nat, clock: int)
    requires AllInTime(p) && id < |p.timers| && id !in p.live && id !in p.batch
    ensures AllInTime(Entered(p, id, clock)) <==> (Earliest(p, Due(p, id)) ==> Covers(p.armed, Due(p, id), clock))
  {
    var d, q := Due(p, id), Entered(p, id, clock);
    RearmedInTime(p.armed, d, clock);
    assert forall i: nat :: Pending(q, i) <==> Pending(p, i) || i == id;
    assert forall i: nat :: Due(q, i) == Due(p, i);
    if !Earliest(p, d) {
      var i: nat :| Pending(p, i) && !(d < Due(p, i));
      assert InTime(p.armed, Due(p, i)) && Due(p, i) <= d;
    } else {
      assert Pending(q, id);
      assert InTime(q.armed, d) ==> forall i: nat :: Pending(p, i) ==> InTime(q.armed, Due(p, i));
    }
  }

  lemma StepInTime(p: Plan, op: Op)
    requires WellNamed(p) && p.batch == {} && AllInTime(p)
    ensures AllInTime(Next(p, op)) <==> StepCovers(p, op)
  {
    hide WellNamed, Earliest, IsFirst, FirstDue, Ran, Restarted;
    match op
    case Do(act) =>
      match act {
        case Add(when, interval, clock) => AddInTime(p, when, interval, clock);
        case Cancel(id) => FewerInTime(Canceled(p, id), p);
      }
    case Post(when, interval) => PostInTime(p, when, interval);
    case Turn(clock) =>
      if p.posted != [] {
        TurnInTime(p, clock);
      }
    case Fire(now, clock, fired, scripts) => FireInTime(p, now, clock, fired, scripts);
  }

  lemma PostInTime(p: Plan, when: int, interval: int)
    requires WellNamed(p) && AllInTime(p)
    ensures AllInTime(Created(p, when, interval)) && AllInTime(Posted(p, when, interval))
  {
    FewerInTime(Created(p, when, interval), p);
    FewerInTime(Posted(p, when, interval), p);
  }

  lemma FewerInTime(q: Plan, p: Plan)
    requires AllInTime(p) && q.armed == p.armed && q.batch == p.batch && q.live <= p.live
    requires forall i: nat :: i in p.live ==> Due(q, i) == Due(p, i)
    ensures AllInTime(q)
  {
    assert forall i: nat :: Pending(q, i) ==> Pending(p, i);
  }

  lemma AddInTime(p: Plan, when: int, interval: int, clock: int)
    requires WellNamed(p) && AllInTime(p)
    ensures AllInTime(Acted(p, Add(when, interval, clock))) <==> StepCovers(p, Do(Add(when, interval, clock)))
  {
    var c := Created(p, when, interval);
    PostInTime(p, when, interval);
    assert Due(c, |p.timers|) == when;
    assert forall i: nat :: Pending(p, i) <==> Pending(c, i);
    assert forall i: nat :: Pending(p, i) ==> Due(c, i) == Due(p, i);
    assert Earliest(p, when) <==> Earliest(c, when);
    EnteredInTime(c, |p.timers|, clock);
  }

  lemma TurnInTime(p: Plan, clock: int)
    requires WellNamed(p) && AllInTime(p) && p.posted != []
    ensures AllInTime(Turned(p, clock)) <==> StepCovers(p, Turn(clock))
  {
    var q := p.(posted := p.posted[1..]);
    assert forall i: nat :: Pending(p, i) <==> Pending(q, i);
    assert forall i: nat :: Due(q, i) == Due(p, i);
    EnteredInTime(q, p.posted[0], clock);
  }

  /** A batch leaves the timerfd armed in time exactly when it covers the first deadline then, whatever was before. */
  lemma FireInTime(p: Plan, now: int, clock: int, fired: bool, scripts: seq<seq<Act>>)
    requires WellNamed(p) && p.batch == {}
    ensures AllInTime(Fired(p, now, clock, fired, scripts)) <==> StepCovers(p, Fire(now, clock, fired, scripts))
  {
    hide WellNamed, Earliest, Ran, Restarted, FirstDue, IsFirst;
    var q := Restarted(AfterCallbacks(p, now, fired, scripts), now);
    RestartedArmed(AfterCallbacks(p, now, fired, scripts), now);
    FirstExists(q);
    FirstIsEnough(ArmedForFirst(q, clock), q);
    if FirstDue(q).Some? {
      RearmedInTime(q.armed, FirstDue(q).value, clock);
    }
  }

  lemma RestartedArmed(p: Plan, now: int)
    ensures Restarted(p, now).armed == p.armed && Restarted(p, now).batch == {}
  {
  }

  lemma FirstIsEnough(r: Plan, q: Plan)
    requires q.batch == {} && r.timers == q.timers && r.live == q.live && r.batch == q.batch
    ensures AllInTime(r) <==> match FirstDue(q) case None => true case Some(d) => InTime(r.armed, d)
  {
    hide FirstDue;
    FirstExists(q);
    assert forall i: nat :: Due(r, i) == Due(q, i);
    assert forall i: nat :: Pending(r, i) <==> Pending(q, i);
  }

  // ---------- what the timerfd is armed for ----------

  lemma RearmedIs(armed: Option<int>, when: int, clock: int)
    ensures when > clock ==> Rearmed(armed, when, clock) == Some(when)
    ensures when == clock ==> Rearmed(armed, when, clock) == None
    ensures when < clock ==> Rearmed(armed, when, clock) == armed
  {
  }

  /** An action adds an earliest timer whose deadline d lies ahead. */
  ghost predicate ActArms(p: Plan, a: Act, d: int) {
    a.Add? && a.when == d && d > a.clock && Earliest(p, d)
  }

  /** A step arms the timerfd for d: it adds an earliest timer whose deadline d lies ahead, one of the callbacks it runs
      does, or d is the first deadline at the end of its batch and lies ahead. */
  ghost predicate ArmsFor(p: Plan, op: Op, d: int) {
    match op
    case Do(act) => ActArms(p, act, d)
    case Post(when, interval) => false
    case Turn(clock) => p.posted != [] && Due(p, p.posted[0]) == d && d > clock && Earliest(p, d)
    case Fire(now, clock, fired, scripts) =>
      CallbacksArm(Begun(p, now, fired), scripts, |Begun(p, now, fired).batch|, d)
      || EndArms(AfterCallbacks(p, now, fired, scripts), now, clock, d)
  }

  ghost predicate CallbacksArm(p: Plan, scripts: seq<seq<Act>>, n: nat, d: int) {
    exists m: nat, k: nat :: m < n && k < |Script(scripts, m)| &&
      ActArms(ActedAll(Ran(p, scripts, m), Script(scripts, m)[..k]), Script(scripts, m)[k], d)
  }

  ghost predicate EndArms(q: Plan, now: int, clock: int, d: int) {
    FirstDue(Restarted(q, now)) == Some(d) && d > 0 && d > clock
  }

  lemma EnteredArms(p: Plan, id: nat, clock: int, d: int)
    ensures Entered(p, id, clock).armed == Some(d) ==>
            p.armed == Some(d) || (Due(p, id) == d && d > clock && Earliest(p, d))
    ensures Due(p, id) == d && d > clock && Earliest(p, d) ==> Entered(p, id, clock).armed == Some(d)
  {
    hide Earliest, Due;
  }

  lemma ActedArms(p: Plan, a: Act, d: int)
    requires WellNamed(p)
    ensures Acted(p, a).armed == Some(d) ==> p.armed == Some(d) || ActArms(p, a, d)
    ensures ActArms(p, a, d) ==> Acted(p, a).armed == Some(d)
  {
    hide Earliest, Due, Entered;
    if a.Add? {
      CreatedEarliest(p, a.when, a.interval);
      EnteredArms(Created(p, a.when, a.interval), |p.timers|, a.clock, d);
    }
  }

  lemma {:induction false} ActedAllArms(p: Plan, acts: seq<Act>, d: int)
    requires WellNamed(p)
    ensures ActedAll(p, acts).armed == Some(d) ==>
            p.armed == Some(d) || exists k: nat :: k < |acts| && ActArms(ActedAll(p, acts[..k]), acts[k], d)
  {
    hide ActArms, Acted, WellNamed;
    if acts != [] {
      var n := |acts| - 1;
      ActedAllArms(p, acts[..n], d);
      ActedAllNamed(p, acts[..n]);
      ActedArms(ActedAll(p, acts[..n]), acts[n], d);
      assert forall k: nat :: k < n ==> acts[..n][..k] == acts[..k] && acts[..n][k] == acts[k];
    }
  }

  lemma {:induction false} RanArms(p: Plan, scripts: seq<seq<Act>>, n: nat, d: int)
    requires WellNamed(p)
    ensures Ran(p, scripts, n).armed == Some(d) ==> p.armed == Some(d) || CallbacksArm(p, scripts, n, d)
  {
    hide ActArms, ActedAll, WellNamed;
    if n > 0 {
      RanArms(p, scripts, n - 1, d);
      RanNamed(p, scripts, n - 1);
      ActedAllArms(Ran(p, scripts, n - 1), Script(scripts, n - 1), d);
    }
  }

  lemma EndOfBatchArms(q: Plan, now: int, clock: int, d: int)
    ensures ArmedForFirst(Restarted(q, now), clock).armed == Some(d) ==> q.armed == Some(d) || EndArms(q, now, clock, d)
    ensures EndArms(q, now, clock, d) ==> ArmedForFirst(Restarted(q, now), clock).armed == Some(d)
  {
    hide FirstDue;
    RestartedArmed(q, now);
  }

  /** After a step the timerfd is armed as before, or for what the step arms it for; and a step that ends by arming it
      for d does so. */
  lemma StepArms(p: Plan, op: Op, d: int)
    requires WellNamed(p)
    ensures Next(p, op).armed == Some(d) ==> p.armed == Some(d) || ArmsFor(p, op, d)
    ensures !op.Fire? && ArmsFor(p, op, d) ==> Next(p, op).armed == Some(d)
    ensures op.Fire? && EndArms(AfterCallbacks(p, op.now, op.fired, op.scripts), op.now, op.clock, d) ==>
            Next(p, op).armed == Some(d)
  {
    hide ActArms, Acted, Earliest, Ran, CallbacksArm, EndArms, ArmedForFirst, Restarted, WellNamed;
    match op
    case Do(act) => ActedArms(p, act, d);
    case Post(when, interval) =>
    case Turn(clock) =>
      if p.posted != [] {
        var q := p.(posted := p.posted[1..]);
        EarliestOf(p, q, d);
        EnteredArms(q, p.posted[0], clock, d);
      }
    case Fire(now, clock, fired, scripts) =>
      var b := Begun(p, now, fired);
      BegunNamed(p, now, fired);
      RanArms(b, scripts, |b.batch|, d);
      EndOfBatchArms(AfterCallbacks(p, now, fired, scripts), now, clock, d);
  }

  lemma EarliestOf(p: Plan, q: Plan, d: int)
    requires q.timers == p.timers && q.live == p.live && q.batch == p.batch
    ensures Earliest(q, d) <==> Earliest(p, d)
  {
    assert forall i: nat :: Pending(q, i) <==> Pending(p, i);
    assert forall i: nat :: Due(q, i) == Due(p, i);
  }

  lemma BegunNamed(p: Plan, now: int, fired: bool)
    requires WellNamed(p)
    ensures WellNamed(Begun(p, now, fired))
  {
  }

  /** In every run the timerfd is never armed for anything but a deadline that some step armed it for. */
  lemma {:induction false} ArmedForADeadline(ops: seq<Op>, d: int)
    requires After(ops).armed == Some(d)
    ensures exists k :: 0 <= k < |ops| && ArmsFor(After(ops[..k]), ops[k], d)
  {
    hide Next, ArmsFor, WellNamed;
    if ops != [] {
      var n := |ops| - 1;
      var front := ops[..n];
      RunNamed(front);
      StepArms(After(front), ops[n], d);
      if !ArmsFor(After(front), ops[n], d) {
        ArmedForADeadline(front, d);
        var k :| 0 <= k < n && ArmsFor(After(front[..k]), front[k], d);
        assert front[..k] == ops[..k];
        assert ArmsFor(After(ops[..k]), ops[k], d);
      }
    }
  }

  // ---------- what a batch's callbacks create ----------

  /** The timers a list of actions creates, in order. */
  ghost function CreatedByActs(acts: seq<Act>): seq<Entry> {
    if acts == [] then [] else
    CreatedByActs(acts[..|acts| - 1]) +
      match acts[|acts| - 1]
      case Add(when, interval, clock) => [Entry(when, interval)]
      case Cancel(id) => []
  }

  ghost function CreatedBy(scripts: seq<seq<Act>>, n: nat): seq<Entry> {
    if n == 0 then [] else CreatedBy(scripts, n - 1) + CreatedByActs(Script(scripts, n - 1))
  }

  lemma {:induction false} ActedAllCreates(p: Plan, acts: seq<Act>)
    ensures ActedAll(p, acts).timers == p.timers + CreatedByActs(acts)
  {
    if acts != [] {
      ActedAllCreates(p, acts[..|acts| - 1]);
    }
  }

  /** Exactly the timers live when cancelled are cancelled. */
  lemma {:induction false} ActedAllCancels(p: Plan, acts: seq<Act>, id: nat)
    ensures id in ActedAll(p, acts).canceled <==>
            || id in p.canceled
            || exists k :: 0 <= k < |acts| && acts[k] == Cancel(id) && id in ActedAll(p, acts[..k]).live
  {
    hide Entered;
    if acts != [] {
      var n := |acts| - 1;
      ActedAllCancels(p, acts[..n], id);
      assert forall k :: 0 <= k < n ==> acts[..n][..k] == acts[..k] && acts[..n][k] == acts[k];
      if acts[n].Add? {
        EnteredKeeps(ActedAll(p, acts[..n]), acts[n]);
      }
    }
  }

  lemma EnteredKeeps(p: Plan, a: Act)
    requires a.Add?
    ensures Acted(p, a).canceled == p.canceled
  {
  }

  /** The callbacks of a batch create exactly the timers of their scripts, in order. */
  lemma {:induction false} RanCreates(p: Plan, scripts: seq<seq<Act>>, n: nat)
    ensures Ran(p, scripts, n).timers == p.timers + CreatedBy(scripts, n)
  {
    if n > 0 {
      RanCreates(p, scripts, n - 1);
      ActedAllCreates(Ran(p, scripts, n - 1), Script(scripts, n - 1));
    }
  }

  // ---------- all runs ----------

  lemma {:induction false} RunNamed(ops: seq<Op>)
    ensures WellNamed(After(ops)) && After(ops).batch == {}
  {
    if ops != [] {
      RunNamed(ops[..|ops| - 1]);
      StepNamed(After(ops[..|ops| - 1]), ops[|ops| - 1]);
    }
  }

  /** At no point of the run is the timerfd late for a timer in the heap. */
  ghost predicate InTimeThroughout(ops: seq<Op>) {
    forall k :: 0 <= k <= |ops| ==> AllInTime(After(ops[..k]))
  }

  lemma ThroughoutStep(ops: seq<Op>)
    requires ops != []
    ensures InTimeThroughout(ops) <==> InTimeThroughout(ops[..|ops| - 1]) && AllInTime(After(ops))
    ensures InTimeThroughout(ops[..|ops| - 1]) ==> AllInTime(After(ops[..|ops| - 1]))
  {
    hide AllInTime, After;
    var n := |ops| - 1;
    assert ops[..n + 1] == ops;
    assert forall k :: 0 <= k <= n ==> ops[..n][..k] == ops[..k];
    assert ops[..n][..n] == ops[..n];
    if InTimeThroughout(ops) {
      forall k | 0 <= k <= n ensures AllInTime(After(ops[..n][..k])) {
        assert AllInTime(After(ops[..k]));
      }
      assert AllInTime(After(ops[..n + 1]));
    }
    if InTimeThroughout(ops[..n]) && AllInTime(After(ops)) {
      forall k | 0 <= k <= |ops| ensures AllInTime(After(ops[..k])) {
        assert k <= n ==> AllInTime(After(ops[..n][..k]));
      }
    }
  }

  /** In every run the timerfd is armed in time throughout if and only if each step covers the deadline it arms
      the timerfd for. */
  lemma {:induction false} InTimeThroughoutIff(ops: seq<Op>)
    ensures AllStepsCover(ops) <==> InTimeThroughout(ops)
  {
    if ops == [] {
      assert ops[..0] == [];
      assert AllInTime(After(ops[..0]));
    } else {
      hide AllInTime, StepCovers, Next, WellNamed, InTimeThroughout;
      var front := ops[..|ops| - 1];
      InTimeThroughoutIff(front);
      ThroughoutStep(ops);
      RunNamed(front);
      if AllInTime(After(front)) {
        StepInTime(After(front), ops[|ops| - 1]);
      }
    }
  }

  /** A batch mends what was missed before it, if it covers the first deadline then. */
  lemma BatchMends(ops: seq<Op>)
    requires ops != [] && ops[|ops| - 1].Fire? && StepCovers(After(ops[..|ops| - 1]), ops[|ops| - 1])
    ensures AllInTime(After(ops))
  {
    var op := ops[|ops| - 1];
    RunNamed(ops[..|ops| - 1]);
    FireInTime(After(ops[..|ops| - 1]), op.now, op.clock, op.fired, op.scripts);
  }

  /** A deadline already reached when it is armed is lost: the only timer is due at 5, added at clock 7. */
  lemma LateDeadlineIsLost()
    ensures !AllInTime(After([Do(Add(5, 0, 7))]))
  {
    var ops := [Do(Add(5, 0, 7))];
    assert ops[..0] == [];
    var p := After(ops);
    assert Pending(p, 0);
  }

  /** A repeating timer whose batch lasts longer than its interval has no wake-up of its own any more: due at 5 with
      interval 1, and the batch of time 5 ends at clock 7, after its next deadline. */
  lemma SlowBatchIsLost()
    ensures var p := After([Do(Add(5, 1, 0)), Fire(5, 7, true, [])]);
            p.live == {0} && Due(p, 0) == 6 && p.armed == None && !AllInTime(p)
  {
    var first, second := Do(Add(5, 1, 0)), Fire(5, 7, true, []);
    AfterOneMore([], first);
    AfterOneMore([first], second);
    assert [] + [first] == [first] && [first] + [second] == [first, second];
    var p := Acted(NEW_PLAN, first.act);
    assert Earliest(Created(NEW_PLAN, 5, 1), 5);
    assert p.timers == [Entry(5, 1)] && p.live == {0} && p.armed == Some(5);
    var b := Begun(p, 5, true);
    assert b.batch == {0} && Ran(b, [], 0) == b && ActedAll(b, []) == b;
    assert AfterCallbacks(p, 5, true, []) == b;
    var q := Restarted(b, 5);
    assert q.live == {0} && q.timers == [Entry(6, 1)];
    assert IsFirst(q, 0);
    FirstDueIs(q, 0);
    assert Pending(After([first, second]), 0);
  }

  lemma AfterOneMore(ops: seq<Op>, op: Op)
    ensures After(ops + [op]) == Next(After(ops), op)
  {
    hide Next;
    assert (ops + [op])[..|ops|] == ops;
  }
}
