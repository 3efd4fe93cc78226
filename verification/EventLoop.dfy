/** The event loop's functor queue and its eventfd wake-up, as a step relation over all interleavings of the
    loop thread with any number of other threads. One locked region or system call is one step. */
module EventLoops {
  import opened Options
  import opened Prefixes

  /** Where the loop thread stands. */
  datatype Place =
    | Outside                 // before loop()
    | Testing                 // about to test quit_
    | Polling                 // about to block in poll
    | Handling(wake: bool)    // in the events of one poll; wake: the eventfd's event is still to be handled
    | Draining                // callingPendingFunctors_ set, queue not swapped yet
    | Running(owes: bool)     // running the swapped functors; owes: between a push and its wake-up
    | Stopped

  datatype Loop = Loop(
    place: Place,
    pending: seq<int>,      // pendingFunctors_
    batch: seq<int>,        // the rest of the swapped functors
    executed: seq<int>,
    pushed: seq<int>,       // everything ever queued, in order
    counter: nat,           // the eventfd's counter
    quit: bool,
    owing: set<int>)        // other threads between their push (or their quit_ store) and their write

  datatype Action =
    | Start
    | Test
    | PollReturns(wake: bool)
    | ReadEventfd
    | EndEvents
    | Swap
    | RunNext
    | EndBatch
    | LoopPush(f: int)
    | LoopWrite
    | LoopQuit
    | Push(t: int, f: int)
    | Quit(t: int)
    | Write(t: int)

  const INITIAL := Loop(Outside, [], [], [], [], 0, false, {})

  /** Whether an action can happen in a state. */
  predicate Enabled(s: Loop, a: Action) {
    match a
    case Start => s.place == Outside
    case Test => s.place == Testing
    case PollReturns(wake) => s.place == Polling && (wake ==> s.counter > 0)
    case ReadEventfd => s.place == Handling(true)
    case EndEvents => s.place == Handling(false)
    case Swap => s.place == Draining
    case RunNext => s.place == Running(false) && s.batch != []
    case EndBatch => s.place == Running(false) && s.batch == []
    case LoopPush(f) => s.place == Outside || s.place.Handling? || s.place == Running(false)
    case LoopWrite => s.place == Running(true)
    case LoopQuit => s.place == Outside || s.place.Handling? || s.place == Running(false)
    case Push(t, f) => t !in s.owing
    case Quit(t) => t !in s.owing
    case Write(t) => t in s.owing
  }

  function Next(s: Loop, a: Action): Loop
    requires Enabled(s, a)
  {
    match a
    case Start => s.(place := Testing)
    case Test => s.(place := if s.quit then Stopped else Polling)
    case PollReturns(wake) => s.(place := Handling(wake))
    case ReadEventfd => s.(place := Handling(false), counter := 0)
    case EndEvents => s.(place := Draining)
    case Swap => s.(place := Running(false), batch := s.pending, pending := [])
    case RunNext => s.(executed := s.executed + [s.batch[0]], batch := s.batch[1..])
    case EndBatch => s.(place := Testing)
    case LoopPush(f) =>
      s.(pending := s.pending + [f], pushed := s.pushed + [f],
         place := if s.place.Running? then Running(true) else s.place)
    case LoopWrite => s.(place := Running(false), counter := s.counter + 1)
    case LoopQuit => s.(quit := true)
    case Push(t, f) => s.(pending := s.pending + [f], pushed := s.pushed + [f], owing := s.owing + {t})
    case Quit(t) => s.(quit := true, owing := s.owing + {t})
    case Write(t) => s.(counter := s.counter + 1, owing := s.owing - {t})
  }

  /** The state after a run, if each of its actions could happen in turn. */
  ghost function After(run: seq<Action>): Option<Loop> {
    if run == [] then Some(INITIAL) else
    match After(run[..|run| - 1])
    case None => None
    case Some(s) => if Enabled(s, run[|run| - 1]) then Some(Next(s, run[|run| - 1])) else None
  }

  /** The part of a run before the loop thread enters loop(). */
  ghost function BeforeStart(run: seq<Action>): seq<Action> {
    if run == [] || run[0] == Start then [] else [run[0]] + BeforeStart(run[1..])
  }

  /** What happened before loop() leaves no functor asleep: the loop thread queued nothing, or another thread
      queued something too, or somebody asked to quit. */
  ghost predicate Harmless(pre: seq<Action>) {
    || (forall a :: a in pre ==> !a.LoopPush?)
    || (exists a :: a in pre && (a.Push? || a.Quit? || a.LoopQuit?))
  }

  /** The loop is about to block although there is work, or a request to quit, and nobody will wake it. */
  ghost predicate Asleep(s: Loop) {
    s.place == Polling && (s.pending != [] || s.quit) && !WakeUpComing(s)
  }

  // ---------- the invariants ----------

  /** Some thread has made, or is about to make, the eventfd readable. */
  ghost predicate WakeUpComing(s: Loop) {
    s.counter > 0 || s.owing != {} || s.place == Running(true)
  }

  /** Between the swap and the next poll, new functors come with a wake-up, unless the loop will not poll again;
      so does a request to quit that came after the test. */
  ghost predicate NoLostWakeUp(s: Loop) {
    && (s.place.Running? && s.pending != [] ==> WakeUpComing(s))
    && (s.place == Testing && s.pending != [] ==> WakeUpComing(s) || s.quit)
    && !Asleep(s)
  }

  ghost predicate InOrder(s: Loop) {
    s.executed + s.batch + s.pending == s.pushed
  }

  ghost predicate BatchOnlyWhileRunning(s: Loop) { s.batch != [] ==> s.place.Running? }

  lemma StepKeepsOrder(s: Loop, a: Action)
    requires InOrder(s) && BatchOnlyWhileRunning(s) && Enabled(s, a)
    ensures InOrder(Next(s, a)) && BatchOnlyWhileRunning(Next(s, a))
  {
    var t := Next(s, a);
    match a {
      case RunNext =>
        assert s.batch == [s.batch[0]] + s.batch[1..];
        assert t.executed + t.batch + t.pending == s.executed + ([s.batch[0]] + s.batch[1..]) + s.pending;
      case Swap =>
        assert s.batch == [];
        assert t.executed + t.batch + t.pending == s.executed + s.pending;
      case LoopPush(f) =>
        assert t.executed + t.batch + t.pending == (s.executed + s.batch + s.pending) + [f];
      case Push(_, f) =>
        assert t.executed + t.batch + t.pending == (s.executed + s.batch + s.pending) + [f];
      case _ =>
    }
  }

  lemma StepKeepsWakeUp(s: Loop, a: Action)
    requires NoLostWakeUp(s) && Enabled(s, a) && s.place != Outside
    ensures NoLostWakeUp(Next(s, a)) && Next(s, a).place != Outside
  {
  }

  // ---------- all runs ----------

  /** In every run functors are executed in the order they were queued, each once: what was executed, what is
      left of the batch and what is queued are together exactly what was pushed. */
  lemma {:induction false} ExecutedInOrder(run: seq<Action>, s: Loop)
    requires After(run) == Some(s)
    ensures InOrder(s) && BatchOnlyWhileRunning(s)
  {
    if run != [] {
      var n := |run| - 1;
      var r := After(run[..n]).value;
      ExecutedInOrder(run[..n], r);
      StepKeepsOrder(r, run[n]);
    }
  }

  /** Until it enters loop() the loop thread stays outside; functors queued until then are waiting, and all that
      other threads did has left or will leave a wake-up. */
  lemma {:induction false} WhileOutside(pre: seq<Action>, s: Loop)
    requires After(pre) == Some(s) && Start !in pre
    ensures s.place == Outside
    ensures s.quit <==> exists a :: a in pre && (a.Quit? || a.LoopQuit?)
    ensures WakeUpComing(s) <==> exists a :: a in pre && (a.Push? || a.Quit?)
    ensures s.pending != [] <==> exists a :: a in pre && (a.LoopPush? || a.Push?)
  {
    if pre != [] {
      var n := |pre| - 1;
      WhileOutside(pre[..n], After(pre[..n]).value);
      assert pre == pre[..n] + [pre[n]];
      assert forall a :: a in pre <==> a in pre[..n] || a == pre[n];
    }
  }

  lemma {:induction false} StartSplits(run: seq<Action>)
    ensures BeforeStart(run) <= run && Start !in BeforeStart(run)
    ensures Start in run <==> BeforeStart(run) + [Start] <= run
    ensures Start !in run ==> BeforeStart(run) == run
  {
    if run != [] && run[0] != Start {
      StartSplits(run[1..]);
      var pre := BeforeStart(run[1..]);
      assert run == [run[0]] + run[1..];
      assert pre + [Start] <= run[1..] ==> run[1..][|pre|] == Start;
    }
  }

  lemma {:induction false} BeforeStartOf(pre: seq<Action>, rest: seq<Action>)
    requires Start !in pre
    ensures BeforeStart(pre + [Start] + rest) == pre
  {
    var run := pre + [Start] + rest;
    if pre != [] {
      BeforeStartOf(pre[1..], rest);
      assert run[1..] == pre[1..] + [Start] + rest;
    }
  }

  lemma PrefixIs(a: seq<Action>, s: seq<Action>)
    requires a <= s
    ensures s[..|a|] == a
  {
  }

  lemma PrefixOf(run: seq<Action>)
    requires run != [] && Start in run[..|run| - 1]
    ensures BeforeStart(run[..|run| - 1]) == BeforeStart(run)
  {
    hide *;
    var front := run[..|run| - 1];
    var pre := BeforeStart(front);
    StartSplits(front);
    var k := |pre| + 1;
    PrefixOfPrefix(run, k, |run| - 1);
    PrefixIs(pre + [Start], front);
    BeforeStartOf(pre, run[k..]);
  }

  /** In every run that is harmless before loop(): whenever the loop is about to block with functors queued, or
      after a request to quit, the eventfd is readable or some thread is about to write to it. */
  lemma {:induction false} NeverSleepsOnWork(run: seq<Action>, s: Loop)
    requires After(run) == Some(s) && Harmless(BeforeStart(run))
    ensures NoLostWakeUp(s) && (Start in run ==> s.place != Outside)
  {
    hide BeforeStart, Enabled;
    StartSplits(run);
    if Start !in run {
      WhileOutside(run, s);
    } else {
      var n := |run| - 1;
      var r := After(run[..n]).value;
      if Start in run[..n] {
        PrefixOf(run);
        NeverSleepsOnWork(run[..n], r);
        StepKeepsWakeUp(r, run[n]);
      } else {
        assert run == run[..n] + [Start] + [];
        BeforeStartOf(run[..n], []);
        WhileOutside(run[..n], r);
      }
    }
  }

  /** The condition is exact: after what happened before loop(), no run can put the loop to sleep on its work if
      and only if that was harmless. */
  lemma NeverSleepsIff(pre: seq<Action>)
    requires Start !in pre && After(pre).Some?
    ensures Harmless(pre) <==>
            forall run, s :: pre + [Start] <= run && After(run) == Some(s) ==> !Asleep(s)
  {
    if Harmless(pre) {
      forall run, s | pre + [Start] <= run && After(run) == Some(s) ensures !Asleep(s) {
        assert run == pre + [Start] + run[|pre| + 1..];
        BeforeStartOf(pre, run[|pre| + 1..]);
        NeverSleepsOnWork(run, s);
      }
    } else {
      EarlyPushSleeps(pre);
    }
  }

  /** The shortest such run: one functor queued by the loop thread before loop(). */
  lemma OneEarlyPush()
    ensures var s := After([LoopPush(7), Start, Test]); s.Some? && Asleep(s.value) && s.value.pending == [7]
  {
    assert [LoopPush(7), Start, Test][..2] == [LoopPush(7), Start] && [LoopPush(7), Start][..1] == [LoopPush(7)];
    assert After([LoopPush(7)]) == Some(Next(INITIAL, LoopPush(7)));
    assert After([LoopPush(7), Start]) == Some(Next(Next(INITIAL, LoopPush(7)), Start));
  }

  /** Otherwise the loop goes to sleep at once: it enters loop(), tests quit_ and blocks. */
  lemma EarlyPushSleeps(pre: seq<Action>)
    requires Start !in pre && After(pre).Some? && !Harmless(pre)
    ensures var s := After(pre + [Start] + [Test]);
            s.Some? && Asleep(s.value) && pre + [Start] <= pre + [Start] + [Test]
  {
    WhileOutside(pre, After(pre).value);
    var started := pre + [Start];
    assert started[..|pre|] == pre && (started + [Test])[..|pre| + 1] == started;
    assert After(started) == Some(Next(After(pre).value, Start));
  }

  // ---------- what a run did ----------

  /** Somebody asked the loop to quit. */
  ghost predicate QuitAsked(run: seq<Action>) {
    exists a :: a in run && (a.Quit? || a.LoopQuit?)
  }

  /** The functors queued in a run, in order. */
  ghost function Pushes(run: seq<Action>): seq<int> {
    if run == [] then [] else
    Pushes(run[..|run| - 1]) +
      match run[|run| - 1]
      case LoopPush(f) => [f]
      case Push(t, f) => [f]
      case _ => []
  }

  /** How many functors were run. */
  ghost function Executions(run: seq<Action>): nat {
    if run == [] then 0 else Executions(run[..|run| - 1]) + if run[|run| - 1].RunNext? then 1 else 0
  }

  /** How often the eventfd was written since it was read last. */
  ghost function Writes(run: seq<Action>): nat {
    if run == [] || run[|run| - 1].ReadEventfd? then 0 else
    Writes(run[..|run| - 1]) + if run[|run| - 1].Write? || run[|run| - 1].LoopWrite? then 1 else 0
  }

  /** Thread t pushed or asked to quit and has not written to the eventfd since. */
  ghost predicate Owes(run: seq<Action>, t: int) {
    run != [] &&
    match run[|run| - 1]
    case Push(u, f) => u == t || Owes(run[..|run| - 1], t)
    case Quit(u) => u == t || Owes(run[..|run| - 1], t)
    case Write(u) => u != t && Owes(run[..|run| - 1], t)
    case _ => Owes(run[..|run| - 1], t)
  }

  lemma {:induction false} PushFacts(run: seq<Action>, s: Loop)
    requires After(run) == Some(s)
    ensures s.pushed == Pushes(run) && |s.executed| == Executions(run)
  {
    if run != [] {
      PushFacts(run[..|run| - 1], After(run[..|run| - 1]).value);
    }
  }

  lemma {:induction false} QuitFacts(run: seq<Action>, s: Loop)
    requires After(run) == Some(s)
    ensures s.quit <==> QuitAsked(run)
  {
    hide QuitAsked;
    if run == [] {
      QuitAskedStep(run);
    } else {
      QuitAskedStep(run);
      QuitFacts(run[..|run| - 1], After(run[..|run| - 1]).value);
    }
  }

  lemma QuitAskedStep(run: seq<Action>)
    ensures QuitAsked(run) <==>
            run != [] && (QuitAsked(run[..|run| - 1]) || run[|run| - 1].Quit? || run[|run| - 1].LoopQuit?)
  {
    if run != [] {
      assert run == run[..|run| - 1] + [run[|run| - 1]];
    }
  }

  lemma {:induction false} WriteFacts(run: seq<Action>, s: Loop)
    requires After(run) == Some(s)
    ensures s.counter == Writes(run) && forall t :: t in s.owing <==> Owes(run, t)
  {
    if run != [] {
      WriteFacts(run[..|run| - 1], After(run[..|run| - 1]).value);
    }
  }

  /** The fields of the state in terms of what happened. */
  lemma RunFacts(run: seq<Action>, s: Loop)
    requires After(run) == Some(s)
    ensures s.pushed == Pushes(run) && |s.executed| == Executions(run)
    ensures s.quit <==> QuitAsked(run)
    ensures s.counter == Writes(run) && forall t :: t in s.owing <==> Owes(run, t)
  {
    hide *;
    PushFacts(run, s);
    QuitFacts(run, s);
    WriteFacts(run, s);
  }

  /** In every run the functors run so far are the first ones queued, as many as were run. */
  lemma RunInQueueOrder(run: seq<Action>, s: Loop)
    requires After(run) == Some(s)
    ensures Executions(run) <= |Pushes(run)| && s.executed == Pushes(run)[..Executions(run)]
  {
    RunFacts(run, s);
    ExecutedInOrder(run, s);
  }

  lemma Extend(run: seq<Action>, a: Action)
    requires After(run).Some?
    ensures After(run + [a]) ==
            if Enabled(After(run).value, a) then Some(Next(After(run).value, a)) else None
  {
    hide Next, Enabled;
    assert (run + [a])[..|run|] == run;
  }

  /** A test of quit_ ends the loop exactly when somebody asked it to quit, and else leads to the poll. */
  lemma TestEndsIff(run: seq<Action>, s: Loop)
    requires After(run + [Test]) == Some(s)
    ensures s.place == if QuitAsked(run) then Stopped else Polling
  {
    hide QuitAsked;
    assert (run + [Test])[..|run|] == run;
    QuitFacts(run, After(run).value);
  }

  /** In every run the loop has ended only if somebody asked it to quit. */
  lemma {:induction false} StopsOnlyWhenAsked(run: seq<Action>, s: Loop)
    requires After(run) == Some(s) && s.place == Stopped
    ensures QuitAsked(run)
  {
    if run != [] {
      var n := |run| - 1;
      var r := After(run[..n]).value;
      QuitAskedStep(run);
      if r.place == Stopped {
        StopsOnlyWhenAsked(run[..n], r);
      } else {
        QuitFacts(run[..n], r);
      }
    }
  }

  /** Another thread may push or ask to quit whenever it owes no write, and write exactly when it owes one. */
  lemma OthersMayAct(run: seq<Action>, t: int, f: int)
    requires After(run).Some?
    ensures After(run + [Push(t, f)]).Some? <==> !Owes(run, t)
    ensures After(run + [Quit(t)]).Some? <==> !Owes(run, t)
    ensures After(run + [Write(t)]).Some? <==> Owes(run, t)
  {
    hide Next, After, Owes, Pushes, Executions, QuitAsked, Writes;
    RunFacts(run, After(run).value);
    Extend(run, Push(t, f));
    Extend(run, Quit(t));
    Extend(run, Write(t));
  }

  // ---------- everything queued can run ----------

  /** Steps the loop thread makes on its own; from a poll only the eventfd wakes it. */
  predicate OfLoop(a: Action) {
    || a.Test? || a == PollReturns(true) || a.ReadEventfd? || a.EndEvents?
    || a.Swap? || a.RunNext? || a.EndBatch? || a.LoopWrite?
  }

  ghost predicate AllOfLoop(ext: seq<Action>) { forall a :: a in ext ==> OfLoop(a) }

  /** The loop thread's steps ext lead on from a run to state s. */
  ghost predicate Leads(run: seq<Action>, ext: seq<Action>, s: Loop) {
    After(run + ext) == Some(s) && AllOfLoop(ext)
  }

  lemma LeadsNowhere(run: seq<Action>, s: Loop)
    requires After(run) == Some(s)
    ensures Leads(run, [], s)
  {
    assert run + [] == run;
  }

  lemma LeadsOn(run: seq<Action>, ext: seq<Action>, s: Loop, a: Action)
    requires Leads(run, ext, s) && Enabled(s, a) && OfLoop(a)
    ensures Leads(run, ext + [a], Next(s, a))
  {
    hide Next, Enabled, OfLoop;
    Extend(run + ext, a);
    assert (run + ext) + [a] == run + (ext + [a]);
  }

  /** The rest of the batch can run. */
  lemma {:induction false} BatchCanRun(run: seq<Action>, before: seq<Action>, s: Loop)
      returns (ext: seq<Action>, t: Loop)
    requires Leads(run, before, s) && s.place == Running(false)
    ensures Leads(run, ext, t) && t == s.(executed := s.executed + s.batch, batch := [])
    decreases |s.batch|
  {
    hide Leads;
    if s.batch == [] {
      ext, t := before, s;
      assert s.executed + s.batch == s.executed;
    } else {
      LeadsOn(run, before, s, RunNext);
      SuffixStep(s.batch, 0);
      PrefixEnds(s.batch);
      AppendAssociates(s.executed, [s.batch[0]], s.batch[1..]);
      ext, t := BatchCanRun(run, before + [RunNext], Next(s, RunNext));
    }
  }

  /** What is pending at the swap can run. */
  lemma PendingCanRun(run: seq<Action>, before: seq<Action>, s: Loop) returns (ext: seq<Action>, t: Loop)
    requires Leads(run, before, s) && (s.place == Draining || s.place.Handling?) && InOrder(s) && s.batch == []
    ensures Leads(run, ext, t) && t.executed == s.pushed
  {
    hide Leads;
    ext, t := before, s;
    if t.place == Handling(true) {
      LeadsOn(run, ext, t, ReadEventfd);
      ext, t := ext + [ReadEventfd], Next(t, ReadEventfd);
    }
    if t.place == Handling(false) {
      LeadsOn(run, ext, t, EndEvents);
      ext, t := ext + [EndEvents], Next(t, EndEvents);
    }
    LeadsOn(run, ext, t, Swap);
    assert s.executed + [] == s.executed;
    ext, t := BatchCanRun(run, ext + [Swap], Next(t, Swap));
  }

  /** From a poll with work queued the eventfd wakes the loop, which then runs it all. */
  lemma FromPoll(run: seq<Action>, before: seq<Action>, s: Loop) returns (ext: seq<Action>, t: Loop)
    requires Leads(run, before, s) && s.place == Polling && (s.pending != [] ==> s.counter > 0)
    requires InOrder(s) && s.batch == []
    ensures Leads(run, ext, t) && t.executed == s.pushed
  {
    hide Leads;
    ext, t := before, s;
    if s.pending == [] {
      assert s.executed + [] + [] == s.executed;
    } else {
      LeadsOn(run, before, s, PollReturns(true));
      ext, t := PendingCanRun(run, before + [PollReturns(true)], Next(s, PollReturns(true)));
    }
  }

  /** From anywhere in loop() the loop thread can go on until everything queued has run. */
  lemma AllCanRun(run: seq<Action>, s: Loop) returns (ext: seq<Action>, t: Loop)
    requires Leads(run, [], s) && s.place != Outside && s.place != Stopped && !s.quit && s.owing == {}
    requires NoLostWakeUp(s) && InOrder(s) && BatchOnlyWhileRunning(s)
    ensures Leads(run, ext, t) && t.executed == s.pushed
  {
    hide Leads;
    ext, t := [], s;
    if s.place == Draining || s.place.Handling? {
      ext, t := PendingCanRun(run, [], s);
    } else {
      if t.place == Running(true) {
        LeadsOn(run, ext, t, LoopWrite);
        ext, t := ext + [LoopWrite], Next(t, LoopWrite);
      }
      if t.place == Running(false) {
        assert t.executed + t.batch + [] == t.executed + t.batch;
        ext, t := BatchCanRun(run, ext, t);
        LeadsOn(run, ext, t, EndBatch);
        ext, t := ext + [EndBatch], Next(t, EndBatch);
        assert t.executed + [] == t.executed;
      }
      if t.place == Testing {
        LeadsOn(run, ext, t, Test);
        ext, t := ext + [Test], Next(t, Test);
      }
      ext, t := FromPoll(run, ext, t);
    }
  }

  /** In every run that is harmless before loop(), once nobody has a wake-up outstanding and nobody asked to quit, the
      loop thread by itself, woken by nothing but the eventfd, can go on to run everything queued. */
  lemma EverythingCanRun(run: seq<Action>, s: Loop) returns (ext: seq<Action>)
    requires After(run) == Some(s) && Harmless(BeforeStart(run)) && Start in run
    requires !QuitAsked(run) && forall t :: !Owes(run, t)
    ensures AllOfLoop(ext) && After(run + ext).Some? && After(run + ext).value.executed == Pushes(run)
  {
    hide AllOfLoop, Harmless, QuitAsked, Owes, Pushes, Writes, Executions, After, BeforeStart, NoLostWakeUp, InOrder;
    RunFacts(run, s);
    ExecutedInOrder(run, s);
    NeverSleepsOnWork(run, s);
    LeadsNowhere(run, s);
    assert forall t :: t !in s.owing;
    if s.place == Stopped {
      StopsOnlyWhenAsked(run, s);
    } else {
      var t;
      ext, t := AllCanRun(run, s);
    }
  }
}
