/** The thread pool's bounded queue with its two condition variables, as a step relation over all
    interleavings. One region under the mutex is one step, a wait splits a step in two, and a waiting thread
    may also wake for no reason. */
module ThreadPools {
  import opened Options
  import opened Prefixes

  datatype Pool = Pool(
    maxSize: nat,                 // maxQueueSize_, 0 for no bound
    running: bool,
    queue: seq<int>,
    submitted: seq<int>,          // all tasks ever queued, in order
    taken: seq<int>,              // all tasks ever taken, in order
    sleepingWorkers: set<int>,    // waiting on notEmpty_
    wokenWorkers: set<int>,       // woken, but not yet holding the mutex again
    sleepingProducers: set<int>,  // waiting on notFull_
    wokenProducers: set<int>,
    blocked: map<int, int>)       // the task of each producer still inside run()

  datatype Action =
    | Take(w: int, notified: int)             // take() by a worker: from the start, or resumed if woken
    | Run(p: int, task: int, notified: int)   // run(task) by a producer, likewise
    | WorkerWakes(w: int)                     // spuriously
    | ProducerWakes(p: int)
    | Stop

  predicate IsFull(s: Pool) { s.maxSize > 0 && |s.queue| >= s.maxSize }

  /** notify_one wakes one of the waiting threads, if there is any. */
  predicate Notifies(waiting: set<int>, notified: int) { waiting != {} ==> notified in waiting }

  predicate Enabled(s: Pool, a: Action) {
    match a
    case Take(w, notified) => w !in s.sleepingWorkers && Notifies(s.sleepingProducers, notified)
    case Run(p, task, notified) =>
      && p !in s.sleepingProducers && (p in s.blocked ==> task == s.blocked[p])
      && Notifies(s.sleepingWorkers, notified)
    case WorkerWakes(w) => w in s.sleepingWorkers
    case ProducerWakes(p) => p in s.sleepingProducers
    case Stop => true
  }

  function NotifyWorker(s: Pool, w: int): Pool {
    if s.sleepingWorkers == {} then s else
    s.(sleepingWorkers := s.sleepingWorkers - {w}, wokenWorkers := s.wokenWorkers + {w})
  }

  function NotifyProducer(s: Pool, p: int): Pool {
    if s.sleepingProducers == {} then s else
    s.(sleepingProducers := s.sleepingProducers - {p}, wokenProducers := s.wokenProducers + {p})
  }

  function Next(s: Pool, a: Action): Pool
    requires Enabled(s, a)
  {
    match a
    case Take(w, notified) =>
      var t := s.(wokenWorkers := s.wokenWorkers - {w});
      if s.queue == [] then
        if s.running then t.(sleepingWorkers := t.sleepingWorkers + {w}) else t
      else
        var u := t.(queue := s.queue[1..], taken := s.taken + [s.queue[0]]);
        if s.maxSize > 0 then NotifyProducer(u, notified) else u
    case Run(p, task, notified) =>
      var t := s.(wokenProducers := s.wokenProducers - {p});
      if IsFull(s) then t.(sleepingProducers := t.sleepingProducers + {p}, blocked := s.blocked[p := task])
      else
        var u := t.(queue := s.queue + [task], submitted := s.submitted + [task], blocked := s.blocked - {p});
        NotifyWorker(u, notified)
    case WorkerWakes(w) =>
      s.(sleepingWorkers := s.sleepingWorkers - {w}, wokenWorkers := s.wokenWorkers + {w})
    case ProducerWakes(p) =>
      s.(sleepingProducers := s.sleepingProducers - {p}, wokenProducers := s.wokenProducers + {p})
    case Stop =>
      s.(running := false, sleepingWorkers := {}, wokenWorkers := s.wokenWorkers + s.sleepingWorkers)
  }

  function Initial(maxSize: nat): Pool { Pool(maxSize, true, [], [], [], {}, {}, {}, {}, map[]) }

  /** The state after a run, if each of its actions could happen in turn. */
  ghost function After(maxSize: nat, run: seq<Action>): Option<Pool> {
    if run == [] then Some(Initial(maxSize)) else
    match After(maxSize, run[..|run| - 1])
    case None => None
    case Some(s) => if Enabled(s, run[|run| - 1]) then Some(Next(s, run[|run| - 1])) else None
  }

  // ---------- the invariants ----------

  /** A worker sleeps only if every queued task has a woken worker coming for it. */
  ghost predicate WorkersSuffice(s: Pool) {
    s.sleepingWorkers != {} ==> |s.queue| <= |s.wokenWorkers|
  }

  /** A producer sleeps only if every free place has a woken producer coming for it. */
  ghost predicate ProducersSuffice(s: Pool) {
    s.sleepingProducers != {} ==> s.maxSize > 0 && s.maxSize - |s.queue| <= |s.wokenProducers|
  }

  ghost predicate Consistent(s: Pool) {
    && (s.maxSize > 0 ==> |s.queue| <= s.maxSize)
    && s.taken + s.queue == s.submitted
  }

  /** No thread both sleeps and is woken, and exactly the producers that do either hold a task. */
  ghost predicate Separate(s: Pool) {
    && s.sleepingWorkers !! s.wokenWorkers && s.sleepingProducers !! s.wokenProducers
    && s.blocked.Keys == s.sleepingProducers + s.wokenProducers
  }

  lemma StepKeepsConsistent(s: Pool, a: Action)
    requires Consistent(s) && Enabled(s, a)
    ensures Consistent(Next(s, a)) && Next(s, a).maxSize == s.maxSize
  {
    var t := Next(s, a);
    match a {
      case Take(w, notified) =>
        if s.queue != [] {
          SuffixStep(s.queue, 0);
          AppendAssociates(s.taken, [s.queue[0]], s.queue[1..]);
          PrefixEnds(s.queue);
        }
      case Run(p, task, notified) =>
        AppendAssociates(s.taken, s.queue, [task]);
      case _ =>
    }
  }

  lemma StepKeepsSeparate(s: Pool, a: Action)
    requires Separate(s) && Enabled(s, a)
    ensures Separate(Next(s, a))
  {
  }

  /** A blocked producer keeps its task until that very task is queued. */
  lemma BlockedTaskKept(s: Pool, a: Action, p: int)
    requires Enabled(s, a) && p in s.blocked
    ensures var t := Next(s, a);
            || (p in t.blocked && t.blocked[p] == s.blocked[p])
            || (a.Run? && a.p == p && t.submitted == s.submitted + [s.blocked[p]])
  {
  }

  lemma WokenCount(woken: set<int>, x: int)
    ensures |woken| - 1 <= |woken - {x}| <= |woken|
    ensures x !in woken ==> |woken - {x}| == |woken| && |woken + {x}| == |woken| + 1
    ensures x in woken ==> |woken - {x}| == |woken| - 1
  {
    if x in woken {
      assert woken == (woken - {x}) + {x};
    } else {
      assert woken - {x} == woken;
    }
  }

  lemma StepKeepsWorkers(s: Pool, a: Action)
    requires Consistent(s) && Separate(s) && WorkersSuffice(s) && Enabled(s, a)
    ensures WorkersSuffice(Next(s, a))
  {
    match a {
      case Take(w, _) => WokenCount(s.wokenWorkers, w);
      case Run(_, _, notified) => WokenCount(s.wokenWorkers, notified);
      case WorkerWakes(w) => WokenCount(s.wokenWorkers, w);
      case _ =>
    }
  }

  lemma StepKeepsProducers(s: Pool, a: Action)
    requires Consistent(s) && Separate(s) && ProducersSuffice(s) && Enabled(s, a)
    ensures ProducersSuffice(Next(s, a))
  {
    match a {
      case Take(w, notified) => TakeKeepsProducers(s, w, notified);
      case Run(p, task, notified) => RunKeepsProducers(s, p, task, notified);
      case ProducerWakes(p) => WokenCount(s.wokenProducers, p);
      case _ =>
    }
  }

  lemma TakeKeepsProducers(s: Pool, w: int, notified: int)
    requires Separate(s) && ProducersSuffice(s) && Enabled(s, Take(w, notified))
    ensures ProducersSuffice(Next(s, Take(w, notified)))
  {
    WokenCount(s.wokenProducers, notified);
  }

  lemma RunKeepsProducers(s: Pool, p: int, task: int, notified: int)
    requires Separate(s) && ProducersSuffice(s) && Enabled(s, Run(p, task, notified))
    ensures ProducersSuffice(Next(s, Run(p, task, notified)))
  {
    WokenCount(s.wokenProducers, p);
  }

  /** In every run tasks are taken in the order submitted, each once, the bound is kept, and no wake-up is
      lost on either side. */
  lemma {:induction false} NoWakeUpLost(maxSize: nat, run: seq<Action>, s: Pool)
    requires After(maxSize, run) == Some(s)
    ensures s.maxSize == maxSize && Consistent(s) && Separate(s) && WorkersSuffice(s) && ProducersSuffice(s)
  {
    if run != [] {
      var n := |run| - 1;
      var r := After(maxSize, run[..n]).value;
      NoWakeUpLost(maxSize, run[..n], r);
      StepKeepsConsistent(r, run[n]);
      StepKeepsSeparate(r, run[n]);
      StepKeepsWorkers(r, run[n]);
      StepKeepsProducers(r, run[n]);
    }
  }

  /** So a pool in which nobody is on the way has no idle worker beside a task, and no blocked producer
      beside a free place. */
  lemma WorkConserving(maxSize: nat, run: seq<Action>, s: Pool)
    requires After(maxSize, run) == Some(s)
    ensures s.wokenWorkers == {} && s.queue != [] ==> s.sleepingWorkers == {}
    ensures s.wokenProducers == {} && !IsFull(s) ==> s.sleepingProducers == {}
  {
    NoWakeUpLost(maxSize, run, s);
  }

  // ---------- what the steps do, in every run ----------

  lemma Extend(maxSize: nat, run: seq<Action>, a: Action)
    requires After(maxSize, run).Some?
    ensures After(maxSize, run + [a]) ==
            if Enabled(After(maxSize, run).value, a) then Some(Next(After(maxSize, run).value, a)) else None
  {
    hide Next, Enabled;
    assert (run + [a])[..|run|] == run;
  }

  /** The pool runs until it is stopped, and from then on no worker sleeps. */
  lemma {:induction false} StopWakesAll(maxSize: nat, run: seq<Action>, s: Pool)
    requires After(maxSize, run) == Some(s)
    ensures s.running <==> Stop !in run
    ensures Stop in run ==> s.sleepingWorkers == {}
  {
    hide Next;
    if run != [] {
      var n := |run| - 1;
      var r := After(maxSize, run[..n]).value;
      StopWakesAll(maxSize, run[..n], r);
      StepWhenStopped(r, run[n]);
      assert run == run[..n] + [run[n]];
    }
  }

  lemma StepWhenStopped(s: Pool, a: Action)
    requires Enabled(s, a) && (!s.running ==> s.sleepingWorkers == {})
    ensures Next(s, a).running <==> s.running && a != Stop
    ensures !Next(s, a).running ==> Next(s, a).sleepingWorkers == {}
  {
  }

  /** A worker that is not asleep takes the front task, waking one waiting producer of a bounded queue; without a task
      it goes to sleep unless the pool has been stopped. */
  lemma TakeStep(maxSize: nat, run: seq<Action>, s: Pool, w: int, notified: int, t: Pool)
    requires After(maxSize, run) == Some(s) && After(maxSize, run + [Take(w, notified)]) == Some(t)
    ensures w !in s.sleepingWorkers && t.submitted == s.submitted
    ensures s.queue != [] ==>
              && t.taken == s.taken + [s.queue[0]] && t.queue == s.queue[1..] && w !in t.sleepingWorkers
              && if maxSize == 0 || s.sleepingProducers == {} then t.sleepingProducers == s.sleepingProducers
                 else notified in s.sleepingProducers && t.sleepingProducers == s.sleepingProducers - {notified}
                      && notified in t.wokenProducers
    ensures s.queue == [] ==>
              t.taken == s.taken && t.queue == [] && (w in t.sleepingWorkers <==> Stop !in run)
  {
    NoWakeUpLost(maxSize, run, s);
    StopWakesAll(maxSize, run, s);
    Extend(maxSize, run, Take(w, notified));
  }

  /** A producer queues its task at the end and wakes one waiting worker, unless the queue is full: then it waits. */
  lemma RunStep(maxSize: nat, run: seq<Action>, s: Pool, p: int, task: int, notified: int, t: Pool)
    requires After(maxSize, run) == Some(s) && After(maxSize, run + [Run(p, task, notified)]) == Some(t)
    ensures p !in s.sleepingProducers && t.taken == s.taken
    ensures maxSize > 0 && |s.queue| == maxSize ==>
              t.queue == s.queue && t.submitted == s.submitted && p in t.sleepingProducers
    ensures maxSize == 0 || |s.queue| < maxSize ==>
              && t.queue == s.queue + [task] && t.submitted == s.submitted + [task] && p !in t.sleepingProducers
              && if s.sleepingWorkers == {} then t.sleepingWorkers == {}
                 else notified in s.sleepingWorkers && t.sleepingWorkers == s.sleepingWorkers - {notified}
                      && notified in t.wokenWorkers
  {
    NoWakeUpLost(maxSize, run, s);
    Extend(maxSize, run, Run(p, task, notified));
  }

  /** The takes ext of worker w lead on from a run to state s. */
  ghost predicate Leads(maxSize: nat, run: seq<Action>, ext: seq<Action>, w: int, s: Pool) {
    After(maxSize, run + ext) == Some(s) && forall a :: a in ext ==> a.Take? && a.w == w
  }

  lemma LeadsOn(maxSize: nat, run: seq<Action>, ext: seq<Action>, w: int, s: Pool, notified: int)
    requires Leads(maxSize, run, ext, w, s) && Enabled(s, Take(w, notified))
    ensures Leads(maxSize, run, ext + [Take(w, notified)], w, Next(s, Take(w, notified)))
  {
    hide Next, Enabled;
    Extend(maxSize, run + ext, Take(w, notified));
    assert (run + ext) + [Take(w, notified)] == run + (ext + [Take(w, notified)]);
  }

  lemma SomeMember(threads: set<int>) returns (p: int)
    ensures threads != {} ==> p in threads
  {
    p := 0;
    if q: int :| q in threads {
      p := q;
    } else {
      var none: set<int> := {};
      assert forall q :: q in threads <==> q in none;
    }
  }

  lemma {:induction false} TakesCanGoOn(maxSize: nat, run: seq<Action>, before: seq<Action>, w: int, s: Pool)
      returns (ext: seq<Action>, t: Pool)
    requires Leads(maxSize, run, before, w, s) && w !in s.sleepingWorkers
    ensures Leads(maxSize, run, ext, w, t) && t.taken == s.taken + s.queue
    decreases |s.queue|
  {
    hide Leads;
    if s.queue == [] {
      ext, t := before, s;
    } else {
      var notified := SomeMember(s.sleepingProducers);
      LeadsOn(maxSize, run, before, w, s, notified);
      SuffixStep(s.queue, 0);
      PrefixEnds(s.queue);
      AppendAssociates(s.taken, [s.queue[0]], s.queue[1..]);
      ext, t := TakesCanGoOn(maxSize, run, before + [Take(w, notified)], w, Next(s, Take(w, notified)));
    }
  }

  /** In every run any worker that is not asleep can go on to take everything submitted, in order. */
  lemma QueueCanDrain(maxSize: nat, run: seq<Action>, s: Pool, w: int) returns (ext: seq<Action>)
    requires After(maxSize, run) == Some(s) && w !in s.sleepingWorkers
    ensures (forall a :: a in ext ==> a.Take? && a.w == w) && After(maxSize, run + ext).Some?
    ensures After(maxSize, run + ext).value.taken == s.submitted
  {
    NoWakeUpLost(maxSize, run, s);
    assert run + [] == run;
    var t;
    ext, t := TakesCanGoOn(maxSize, run, [], w, s);
  }
}
