/** The timer queue: a binary heap of deadlines with back-pointers, expiry batches and the timerfd. */
module TimerQueues {
  import opened Options
  import opened TimerPlans

  class Timer {
    var expiration: int
    const interval: int
    const repeat: bool
    var heapIndex: int

    constructor (when: int, interval: int)
      ensures expiration == when && this.interval == interval && repeat == (interval > 0) && heapIndex == -1
    {
      expiration := when;
      this.interval := interval;
      repeat := interval > 0;
      heapIndex := -1;
    }

    method Restart(now: int)
      modifies this`expiration
      ensures expiration == if repeat then now + interval else 0
    {
      if repeat {
        expiration := now + interval;
      } else {
        expiration := 0;
      }
    }
  }

  datatype HeapEntry = HeapEntry(expirationTime: int, timer: Timer)

  function Parent(i: int): int { if i <= 0 then 0 else (i - 1) / 2 }

  class TimerQueue {
    var heap: seq<HeapEntry>
    var callingExpiredTimers: bool
    var cancelingTimers: seq<Timer>
    var armed: Option<int>          // when the timerfd will fire

    var made: seq<Timer>            // all timers ever created, in order; a handle is a place in it
    var posted: seq<nat>            // timers of other threads the loop thread has still to add
    var live: set<Timer>            // the timers a handle may name: added and not yet freed
    ghost var freed: set<Timer>
    ghost var canceled: set<Timer>  // the timers named in a cancel
    ghost var ran: seq<Timer>       // the callbacks run so far, in order

    constructor ()
      ensures Settled() && heap == [] && !callingExpiredTimers
      ensures live == {} && freed == {} && canceled == {} && ran == [] && Shows(NEW_PLAN, {})
    {
      heap := [];
      callingExpiredTimers := false;
      cancelingTimers := [];
      armed := None;
      made, posted := [], [];
      live, freed, canceled, ran := {}, {}, {}, [];
    }

    // ---------- the heap ----------

    /** Every entry and its timer agree on deadline and place, and timers in no entry have index -1,
        except those in loose. */
    ghost predicate Linked(loose: set<Timer>)
      reads this`heap, this`live, live
    {
      && (forall i :: 0 <= i < |heap| ==> EntryLinked(i, loose))
      && (forall t :: t in live && t !in loose ==>
            t.heapIndex == -1 || (0 <= t.heapIndex < |heap| && heap[t.heapIndex].timer == t))
    }

    ghost predicate EntryLinked(i: int, loose: set<Timer>)
      requires 0 <= i < |heap|
      reads this`heap, this`live, live
    {
      var e := heap[i];
      e.timer in live && e.timer !in loose && e.timer.heapIndex == i && e.timer.expiration == e.expirationTime
    }

    ghost predicate Valid()
      reads this`heap, this`live, live
    {
      Linked({}) && IsMinHeap(heap)
    }

    method SwapHeap(index1: int, index2: int, ghost loose: set<Timer>)
      requires Linked(loose) && 0 <= index1 < |heap| && 0 <= index2 < |heap|
      modifies this`heap, live`heapIndex
      ensures heap == Swapped(old(heap), index1, index2) && Linked(loose)
      ensures forall t :: t in loose && t in live ==> t.heapIndex == old(t.heapIndex)
    {
      var tmp := heap[index1];
      heap := heap[index1 := heap[index2]];
      heap := heap[index2 := tmp];
      assert old(EntryLinked(index1, loose) && EntryLinked(index2, loose));
      heap[index1].timer.heapIndex := index1;
      heap[index2].timer.heapIndex := index2;
      forall i | 0 <= i < |heap| ensures EntryLinked(i, loose) {
        assert old(EntryLinked(i, loose));
      }
    }

    /** Moves an entry that may be smaller than its parent up to its place. */
    method UpHeap(start: int, ghost loose: set<Timer>)
      requires Linked(loose) && 0 <= start < |heap| && OrderedAbove(heap, start)
      modifies this`heap, live`heapIndex
      ensures Linked(loose) && IsMinHeap(heap) && |heap| == |old(heap)| && multiset(heap) == multiset(old(heap))
      ensures heap[0] ==
                if old(heap[start].expirationTime < heap[0].expirationTime) then old(heap[start]) else old(heap[0])
      ensures forall t :: t in loose && t in live ==> t.heapIndex == old(t.heapIndex)
    {
      hide Linked, OrderedAbove, IsMinHeap, Swapped;
      var index := start;
      var parent := Parent(index);
      while index > 0 && heap[index].expirationTime < heap[parent].expirationTime
        invariant 0 <= index < |heap| == |old(heap)| && parent == Parent(index)
        invariant Linked(loose) && OrderedAbove(heap, index) && multiset(heap) == multiset(old(heap))
        invariant heap[index] == old(heap[start])
        invariant index > 0 ==> heap[0] == old(heap[0])
        invariant index == 0 && start != 0 ==> old(heap[start].expirationTime < heap[0].expirationTime)
        invariant forall t :: t in loose && t in live ==> t.heapIndex == old(t.heapIndex)
        decreases index
      {
        SiftUpStep(heap, index);
        SwapHeap(index, parent, loose);
        index := parent;
        parent := Parent(index);
      }
      SiftUpDone(heap, index);
      RootIsLeast(heap, index);
    }

    /** Moves an entry that may be larger than its children down to its place. */
    method DownHeap(start: int, ghost loose: set<Timer>)
      requires Linked(loose) && 0 <= start < |heap| && OrderedBelow(heap, start)
      modifies this`heap, live`heapIndex
      ensures Linked(loose) && IsMinHeap(heap) && |heap| == |old(heap)| && multiset(heap) == multiset(old(heap))
      ensures forall t :: t in loose && t in live ==> t.heapIndex == old(t.heapIndex)
    {
      hide Linked, OrderedBelow, IsMinHeap, Swapped;
      var index := start;
      var child := index * 2 + 1;
      while child < |heap|
        invariant 0 <= index < |heap| == |old(heap)| && child == index * 2 + 1
        invariant Linked(loose) && OrderedBelow(heap, index) && multiset(heap) == multiset(old(heap))
        invariant forall t :: t in loose && t in live ==> t.heapIndex == old(t.heapIndex)
        decreases |heap| - index
      {
        var minChild := if child + 1 == |heap| || heap[child].expirationTime < heap[child + 1].expirationTime
                        then child else child + 1;
        if heap[index].expirationTime < heap[minChild].expirationTime {
          break;
        }
        SiftDownStep(heap, index, minChild);
        SwapHeap(index, minChild, loose);
        index := minChild;
        child := index * 2 + 1;
      }
      SiftDownDone(heap, index);
    }

    /** Adds a timer that is in no heap; tells whether it becomes the earliest. */
    method Insert(timer: Timer) returns (earliestChanged: bool)
      requires Valid() && timer in live && timer.heapIndex == -1
      modifies this`heap, live`heapIndex
      ensures Valid() && |heap| == |old(heap)| + 1
      ensures multiset(heap) == multiset(old(heap)) + multiset{HeapEntry(timer.expiration, timer)}
      ensures timer.heapIndex != -1
      ensures forall t :: t in live && t != timer ==> (t.heapIndex == -1 <==> old(t.heapIndex) == -1)
      ensures earliestChanged <==> heap[0].timer == timer
      ensures earliestChanged <==> old(heap) == [] || timer.expiration < old(heap)[0].expirationTime
      ensures !earliestChanged ==> |old(heap)| > 0 && heap[0] == old(heap[0])
    {
      hide *;
      HeapValid();
      AllPlaces();
      RootElsewhere(timer);
      earliestChanged := false;
      var when := timer.expiration;
      if heap == [] || when < heap[0].expirationTime {
        earliestChanged := true;
      }
      PushBack(timer);
      AppendedOrder(old(heap), heap[|heap| - 1]);
      UpHeap(|heap| - 1, {});
      PlacesWith(timer, multiset(old(heap)));
      HeapValid();
    }

    lemma HeapValid()
      ensures Valid() <==> Linked({}) && IsMinHeap(heap)
    {
    }

    /** A timer outside the heap is not the root's. */
    lemma RootElsewhere(timer: Timer)
      requires Linked({}) && timer.heapIndex == -1
      ensures heap != [] ==> heap[0].timer != timer
    {
      assert heap != [] ==> EntryLinked(0, {});
    }

    /** Puts a timer's entry at the end of the heap. */
    method PushBack(timer: Timer)
      requires Linked({}) && timer in live && timer.heapIndex == -1
      modifies this`heap, timer`heapIndex
      ensures heap == old(heap) + [HeapEntry(timer.expiration, timer)] && Linked({})
    {
      timer.heapIndex := |heap|;
      var entry := HeapEntry(timer.expiration, timer);
      heap := heap + [entry];
      forall i | 0 <= i < |heap| ensures EntryLinked(i, {}) {
        assert i < |old(heap)| ==> old(EntryLinked(i, {}));
      }
    }

    /** Takes a timer out of the heap, wherever it stands. */
    method RemoveTimer(timer: Timer)
      requires Valid() && timer in live && 0 <= timer.heapIndex
      modifies this`heap, live`heapIndex
      ensures Valid() && timer.heapIndex == -1 && |heap| == |old(heap)| - 1
      ensures forall t :: t in live && t != timer ==> (t.heapIndex == -1 <==> old(t.heapIndex) == -1)
      ensures multiset(heap) + multiset{HeapEntry(timer.expiration, timer)} == multiset(old(heap))
    {
      hide *;
      HeapValid();
      AllPlaces();
      var index := timer.heapIndex;
      PlaceOf(timer);
      if heap != [] && index < |heap| {
        if index == |heap| - 1 {
          RemovedMultiset(heap, index);
          RemovedOrder(heap, index);
          PopBack(timer);
        } else {
          MoveLastTo(index, timer);
        }
      }
      Unplace(timer);
      PlacesWithout(timer, multiset(old(heap)));
      HeapValid();
    }

    /** Moves the last entry into the place of a timer's, drops that, and restores the order. */
    method MoveLastTo(index: int, ghost timer: Timer)
      requires Linked({}) && IsMinHeap(heap) && 0 <= index < |heap| - 1
      requires heap[index] == HeapEntry(timer.expiration, timer)
      modifies this`heap, live`heapIndex
      ensures Linked({timer}) && IsMinHeap(heap) && |heap| == |old(heap)| - 1
      ensures multiset(heap) + multiset{HeapEntry(timer.expiration, timer)} == multiset(old(heap))
    {
      hide *;
      RemovedMultiset(heap, index);
      RemovedOrder(heap, index);
      SwapHeap(index, |heap| - 1, {});
      PopBack(timer);
      var parent := Parent(index);
      if index > 0 && heap[index].expirationTime < heap[parent].expirationTime {
        UpHeap(index, {timer});
      } else {
        DownHeap(index, {timer});
      }
    }

    method Unplace(timer: Timer)
      requires Linked({timer}) && timer in live
      modifies timer`heapIndex
      ensures Linked({}) && timer.heapIndex == -1
    {
      timer.heapIndex := -1;
      forall i | 0 <= i < |heap| ensures EntryLinked(i, {}) {
        assert old(EntryLinked(i, {timer}));
      }
    }

    /** A live timer has an index exactly when the heap holds its entry. */
    lemma AllPlaces()
      requires Linked({})
      ensures forall t :: t in live ==> (t.heapIndex == -1 <==> HeapEntry(t.expiration, t) !in multiset(heap))
    {
      forall t | t in live ensures t.heapIndex == -1 <==> HeapEntry(t.expiration, t) !in multiset(heap) {
        if t.heapIndex != -1 {
          PlaceOf(t);
        }
        if HeapEntry(t.expiration, t) in multiset(heap) {
          var i :| 0 <= i < |heap| && heap[i] == HeapEntry(t.expiration, t);
          assert EntryLinked(i, {});
        }
      }
    }

    /** The same in terms of the heap before a timer came in, for all other timers. */
    lemma PlacesWith(timer: Timer, before: multiset<HeapEntry>)
      requires Linked({}) && timer in live && multiset(heap) == before + multiset{HeapEntry(timer.expiration, timer)}
      ensures timer.heapIndex != -1
      ensures forall t :: t in live && t != timer ==> (t.heapIndex == -1 <==> HeapEntry(t.expiration, t) !in before)
    {
      hide *;
      AllPlaces();
    }

    /** The same in terms of the heap before a timer went out. */
    lemma PlacesWithout(timer: Timer, before: multiset<HeapEntry>)
      requires Linked({}) && multiset(heap) + multiset{HeapEntry(timer.expiration, timer)} == before
      ensures forall t :: t in live && t != timer ==> (t.heapIndex == -1 <==> HeapEntry(t.expiration, t) !in before)
    {
      hide *;
      AllPlaces();
    }

    lemma PlaceOf(timer: Timer)
      requires Linked({}) && timer in live && 0 <= timer.heapIndex
      ensures timer.heapIndex < |heap| && heap[timer.heapIndex] == HeapEntry(timer.expiration, timer)
    {
      assert EntryLinked(timer.heapIndex, {});
    }

    lemma IndexAtLeastMinusOne(timer: Timer)
      requires Linked({}) && timer in live
      ensures timer.heapIndex >= -1
    {
    }

    /** Takes the last entry off the heap; its timer keeps a stale index. */
    method PopBack(ghost timer: Timer)
      requires Linked({}) && |heap| > 0 && timer == heap[|heap| - 1].timer
      modifies this`heap
      ensures heap == old(heap)[..|old(heap)| - 1] && Linked({timer})
    {
      assert EntryLinked(|heap| - 1, {});
      heap := heap[..|heap| - 1];
      forall i | 0 <= i < |heap| ensures EntryLinked(i, {timer}) {
        assert old(EntryLinked(i, {}));
      }
    }

    // ---------- the batch being expired ----------

    /** Every live timer is in the heap, and none of them was ever cancelled. */
    ghost predicate Settled()
      reads this`heap, this`live, this`freed, this`canceled, live
    {
      Valid() && live !! freed && live !! canceled && forall t :: t in live ==> t.heapIndex != -1
    }

    /** Every live timer is either in the heap or in the batch taken out of it; only those of the batch may
        have been cancelled. */
    ghost predicate Busy(batch: set<Timer>)
      reads this`heap, this`live, this`freed, this`canceled, live
    {
      && Valid() && live !! freed && batch <= live && live * canceled <= batch
      && forall t :: t in live ==> (t.heapIndex == -1 <==> t in batch)
    }

    /** The batch's cancelled timers are exactly those noted. */
    ghost predicate Noted(batch: set<Timer>)
      reads this`cancelingTimers, this`canceled
    {
      && (forall t :: t in cancelingTimers ==> t in batch)
      && (forall t :: t in batch ==> (t in cancelingTimers <==> t in canceled))
    }

    /** In a settled queue every live timer stands in the heap exactly once, at its index, under its deadline. */
    lemma LiveOnce(t: Timer)
      requires Settled() && t in live
      ensures 0 <= t.heapIndex < |heap| && heap[t.heapIndex] == HeapEntry(t.expiration, t)
      ensures forall i :: 0 <= i < |heap| && heap[i].timer == t ==> i == t.heapIndex
    {
      PlaceOf(t);
      forall i | 0 <= i < |heap| && heap[i].timer == t ensures i == t.heapIndex {
        assert EntryLinked(i, {});
      }
    }

    /** The timerfd will fire by the time the earliest timer is due. */
    ghost predicate ArmedInTime()
      reads this`heap, this`armed
    {
      heap != [] ==> InTime(armed, heap[0].expirationTime)
    }

    /** Takes all timers that are due out of the heap, earliest first. */
    method GetExpired(now: int) returns (expired: seq<Timer>)
      requires Settled()
      modifies this`heap, live`heapIndex
      ensures Busy(Members(expired)) && NoDuplicates(expired)
      ensures forall t :: t in live ==> (t in expired <==> t.expiration <= now)
      ensures forall i, j :: 0 <= i < j < |expired| ==> expired[i].expiration <= expired[j].expiration
      ensures forall i :: 0 <= i < |heap| ==> heap[i].expirationTime > now
      ensures multiset(heap) <= multiset(old(heap))
    {
      expired := [];
      while heap != [] && heap[0].expirationTime <= now
        invariant Busy(Members(expired)) && NoDuplicates(expired) && multiset(heap) <= multiset(old(heap))
        invariant forall t :: t in expired ==> t.expiration <= now
        invariant forall i, j :: 0 <= i < j < |expired| ==> expired[i].expiration <= expired[j].expiration
        invariant NotBefore(expired, heap)
        decreases |heap|
      {
        var timer := TakeFirst(expired);
        expired := expired + [timer];
      }
      NoneDue(now);
      forall t | t in live ensures t in expired <==> t.expiration <= now {
        if t.heapIndex != -1 {
          PlaceOf(t);
        }
      }
    }

    lemma NoneDue(now: int)
      requires Valid() && (heap == [] || heap[0].expirationTime > now)
      ensures forall i :: 0 <= i < |heap| ==> heap[i].expirationTime > now
    {
      forall i | 0 <= i < |heap| ensures heap[i].expirationTime > now {
        RootIsLeast(heap, i);
      }
    }

    /** Takes the earliest timer out of the heap and into the batch. */
    method TakeFirst(ghost expired: seq<Timer>) returns (timer: Timer)
      requires Busy(Members(expired)) && NotBefore(expired, heap) && heap != []
      modifies this`heap, live`heapIndex
      ensures Busy(Members(expired + [timer])) && NotBefore(expired + [timer], heap) && timer !in expired
      ensures timer.expiration == old(heap)[0].expirationTime
      ensures forall t :: t in expired ==> t.expiration <= timer.expiration
      ensures multiset(heap) <= multiset(old(heap)) && |heap| < |old(heap)|
    {
      hide Linked, IsMinHeap, Parent;
      RootLinked();
      ghost var before := heap;
      timer := heap[0].timer;
      RootHasIndex(timer);
      RemoveTimer(timer);
      StillIn(before, heap);
      forall i | 0 <= i < |heap| ensures timer.expiration <= heap[i].expirationTime {
        assert heap[i] in before;
        var j :| 0 <= j < |before| && before[j] == heap[i];
        RootIsLeast(before, j);
      }
    }

    lemma RootHasIndex(timer: Timer)
      requires Linked({}) && heap != [] && heap[0].timer == timer
      ensures timer.heapIndex == 0
    {
      assert EntryLinked(0, {});
    }

    /** No entry of h is due before a timer of expired. */
    ghost predicate NotBefore(expired: seq<Timer>, h: seq<HeapEntry>)
      reads expired
    {
      forall t, i :: t in expired && 0 <= i < |h| ==> t.expiration <= h[i].expirationTime
    }

    // ---------- arming the timerfd ----------

    /** Sets the timerfd to fire at a time; clock is the time of the call. */
    method ResetTimerfd(when: int, clock: int)
      modifies this`armed
      ensures when > clock ==> armed == Some(when)
      ensures when == clock ==> armed == None
      ensures when < clock ==> armed == old(armed)
      ensures armed == Rearmed(old(armed), when, clock)
    {
      var left := when - clock;
      if left > 0 {
        armed := Some(when);
      } else if left == 0 {
        armed := None;
      }
    }

    // ---------- the operations of the loop thread ----------

    /** Adds a timer that is in no heap; from now on its handle may be used. */
    method AddTimerInLoop(timer: Timer, clock: int, ghost batch: set<Timer>)
      requires Busy(batch) && timer !in live && timer !in freed && timer !in canceled && timer.heapIndex == -1
      modifies this`heap, this`armed, this`live, live`heapIndex, timer`heapIndex
      ensures Busy(batch) && timer.heapIndex != -1 && live == old(live) + {timer}
      ensures multiset(heap) == multiset(old(heap)) + multiset{HeapEntry(timer.expiration, timer)}
      ensures heap[0].timer == timer <==> old(heap) == [] || timer.expiration < old(heap)[0].expirationTime
      ensures armed == if old(heap) == [] || timer.expiration < old(heap)[0].expirationTime
                       then Rearmed(old(armed), timer.expiration, clock) else old(armed)
      ensures heap[0].timer == timer && timer.expiration > clock ==> armed == Some(timer.expiration)
      ensures heap[0].timer == timer && timer.expiration == clock ==> armed == None
      ensures heap[0].timer != timer || timer.expiration < clock ==> armed == old(armed)
      ensures old(ArmedInTime()) ==>
                (ArmedInTime() <==> heap[0].timer != timer || Covers(old(armed), timer.expiration, clock))
      ensures old(PostedApart({timer})) && timer in made ==> PostedApart({})
    {
      hide Linked, IsMinHeap, Parent, Covers, Rearmed;
      RearmedInTime(armed, timer.expiration, clock);
      Enlist(timer);
      var earliestChanged := Insert(timer);
      RootLinked();
      if earliestChanged {
        ResetTimerfd(timer.expiration, clock);
      }
    }

    method Enlist(timer: Timer)
      requires Valid() && timer.heapIndex == -1
      modifies this`live
      ensures Valid() && live == old(live) + {timer}
    {
      live := live + {timer};
      forall i | 0 <= i < |heap| ensures EntryLinked(i, {}) {
        assert old(EntryLinked(i, {}));
      }
    }

    /** Creates a timer and adds it; another thread leaves that to the loop thread. */
    method AddTimer(when: int, interval: int, clock: int, inLoop: bool, ghost batch: set<Timer>) returns (timer: Timer)
      requires Busy(batch)
      modifies this`heap, this`armed, this`live, this`made, this`posted, live`heapIndex
      ensures fresh(timer) && Busy(batch) && made == old(made) + [timer]
      ensures timer.expiration == when && timer.interval == interval && timer.repeat == (interval > 0)
      ensures inLoop ==>
                && live == old(live) + {timer} && posted == old(posted)
                && multiset(heap) == multiset(old(heap)) + multiset{HeapEntry(when, timer)}
                && armed == (if old(heap) == [] || when < old(heap)[0].expirationTime
                             then Rearmed(old(armed), when, clock) else old(armed))
                && (when > clock && (old(heap) == [] || when < old(heap)[0].expirationTime) ==> armed == Some(when))
      ensures inLoop && old(ArmedInTime()) ==>
                (ArmedInTime() <==> (old(heap) == [] || when < old(heap)[0].expirationTime) ==>
                                    Covers(old(armed), when, clock))
      ensures !inLoop ==>
                && live == old(live) && posted == old(posted) + [|old(made)|] && heap == old(heap)
                && armed == old(armed) && timer.heapIndex == -1
    {
      hide Valid, Covers, Rearmed, InTime;
      timer := new Timer(when, interval);
      made := made + [timer];
      if inLoop {
        AddTimerInLoop(timer, clock, batch);
      } else {
        posted := posted + [|made| - 1];
      }
    }

    /** The loop thread adds the first timer another thread has left to it. */
    method AddPosted(clock: int, ghost p: Plan)
      requires Settled() && Shows(p, {})
      modifies this`heap, this`armed, this`live, this`posted, live`heapIndex, made`heapIndex
      ensures Settled() && Shows(Turned(p, clock), {})
      ensures if old(posted) == [] then live == old(live) && armed == old(armed) && heap == old(heap)
              else old(posted)[0] < |made| && var t := made[old(posted)[0]];
                   && posted == old(posted)[1..] && live == old(live) + {t}
                   && multiset(heap) == multiset(old(heap)) + multiset{HeapEntry(t.expiration, t)}
                   && (heap[0].timer == t && t.expiration > clock ==> armed == Some(t.expiration))
    {
      hide *;
      ShowsIs(p, {});
      SettledIs();
      if posted != [] {
        EarliestIs(p, {});
        var timer := TakePosted(p);
        AddTimerInLoop(timer, clock, {});
        TurnedShows(p, old(posted[0]), clock, old(live));
        SettledIs();
      } else {
        NothingPosted(p, clock);
      }
    }

    /** The first timer handed over, which is now to be added. */
    method TakePosted(ghost p: Plan) returns (timer: Timer)
      requires PostedApart({}) && posted != [] && ShowsTimers(p.timers)
      modifies this`posted
      ensures old(posted)[0] < |made| && timer == made[old(posted)[0]] && old(posted) == [old(posted)[0]] + posted
      ensures PostedApart({timer}) && timer in made
      ensures timer !in live && timer !in freed && timer !in canceled && timer.heapIndex == -1
    {
      timer := made[posted[0]];
      DistinctPlaces(p, posted[0]);
      posted := posted[1..];
    }

    lemma ShowsIs(p: Plan, batch: set<Timer>)
      requires Shows(p, batch)
      ensures ShowsTimers(p.timers) && PostedApart({}) && p.posted == posted && p.armed == armed
      ensures ShowsSet(p.live, live) && ShowsSet(p.batch, batch) && ShowsSet(p.canceled, canceled)
    {
    }

    lemma SettledIs()
      ensures Settled() <==> Busy({})
    {
    }

    lemma DistinctPlaces(p: Plan, id: nat)
      requires ShowsTimers(p.timers) && id < |made|
      ensures Due(p, id) == made[id].expiration
      ensures forall i: nat :: i < |made| && made[i] == made[id] ==> i == id
    {
    }

    /** The timer added moves from the posted ones to the live ones. */
    lemma TurnedShows(p: Plan, id: nat, clock: int, before: set<Timer>)
      requires ShowsTimers(p.timers) && PostedApart({}) && p.posted == [id] + posted && id < |made|
      requires live == before + {made[id]}
      requires ShowsSet(p.live, before) && ShowsSet(p.batch, {}) && ShowsSet(p.canceled, canceled)
      requires armed == if Earliest(p, made[id].expiration) then Rearmed(p.armed, made[id].expiration, clock)
               else p.armed
      ensures Shows(Turned(p, clock), {})
    {
      var q := p.(posted := posted);
      assert forall i: nat :: Pending(q, i) <==> Pending(p, i);
      assert forall i: nat :: Due(q, i) == Due(p, i);
      assert p.posted[1..] == posted;
      assert Turned(p, clock) == Entered(q, id, clock);
    }

    /** Frees a timer. */
    method Delete(timer: Timer)
      requires Valid() && timer in live && timer !in freed && timer.heapIndex == -1
      modifies this`live, this`freed
      ensures Valid() && live == old(live) - {timer} && freed == old(freed) + {timer}
    {
      live := live - {timer};
      freed := freed + {timer};
      forall i | 0 <= i < |heap| ensures EntryLinked(i, {}) {
        assert old(EntryLinked(i, {}));
      }
    }

    /** Cancels a live timer: at once if it is pending, after the batch if it has just expired. */
    method CancelInLoop(timer: Timer, ghost batch: set<Timer>)
      requires Busy(batch) && timer in live && (batch != {} ==> callingExpiredTimers)
      modifies this`heap, this`live, this`freed, this`cancelingTimers, this`canceled, live`heapIndex
      ensures Busy(batch) && canceled == old(canceled) + {timer} && (old(PostedApart({})) ==> PostedApart({}))
      ensures timer !in batch ==>
                live == old(live) - {timer} && freed == old(freed) + {timer} && cancelingTimers == old(cancelingTimers)
                && multiset(heap) + multiset{HeapEntry(timer.expiration, timer)} == multiset(old(heap))
      ensures timer in batch ==>
                live == old(live) && freed == old(freed) && cancelingTimers == old(cancelingTimers) + [timer]
                && heap == old(heap)
      ensures old(ArmedInTime()) ==> ArmedInTime()
    {
      hide IsMinHeap, Linked, Parent, InTime;
      IndexAtLeastMinusOne(timer);
      var index := timer.heapIndex;
      if index >= 0 {
        ghost var before := heap;
        RemoveAndDelete(timer, batch);
        RootLater(armed, before, heap);
      } else if callingExpiredTimers {
        cancelingTimers := cancelingTimers + [timer];
      }
      canceled := canceled + {timer};
    }

    /** Takes a pending timer out of the heap and frees it. */
    method RemoveAndDelete(timer: Timer, ghost batch: set<Timer>)
      requires Busy(batch) && timer in live && timer.heapIndex >= 0
      modifies this`heap, this`live, this`freed, live`heapIndex
      ensures Busy(batch) && live == old(live) - {timer} && freed == old(freed) + {timer}
      ensures old(PostedApart({})) ==> PostedApart({})
      ensures multiset(heap) + multiset{HeapEntry(timer.expiration, timer)} == multiset(old(heap))
    {
      hide IsMinHeap, Linked;
      RemoveTimer(timer);
      Delete(timer);
    }

    // ---------- expiring a batch ----------

    /** Runs one callback: adds of timers and cancels of live ones, in any number and order. A timer cancelled
        outside the batch is freed; nothing else is. */
    method RunCallback(timer: Timer, script: seq<Act>, ghost batch: set<Timer>, ghost p: Plan)
      requires Busy(batch) && Noted(batch) && timer in batch && callingExpiredTimers && Shows(p, batch)
      modifies this`heap, this`armed, this`live, this`made, this`posted, this`freed, this`cancelingTimers, this`canceled
      modifies this`ran, live`heapIndex
      ensures Busy(batch) && Noted(batch) && ran == old(ran) + [timer] && Shows(ActedAll(p, script), batch)
      ensures forall t :: t in made ==> t in old(made) || fresh(t)
      ensures fresh(live - old(live)) && old(live) <= live + freed && old(canceled) <= canceled
      ensures freed == old(freed) + (canceled - old(canceled) - batch)
    {
      hide Valid, Shows, Acted, Noted;
      ran := ran + [timer];
      for k := 0 to |script|
        invariant Busy(batch) && Noted(batch) && ran == old(ran) + [timer] && Shows(ActedAll(p, script[..k]), batch)
        invariant forall t :: t in made ==> t in old(made) || fresh(t)
        invariant fresh(live - old(live)) && old(live) <= live + freed && old(canceled) <= canceled
        invariant freed == old(freed) + (canceled - old(canceled) - batch)
      {
        assert script[..k + 1][..k] == script[..k];
        Perform(script[k], batch, ActedAll(p, script[..k]));
      }
      assert script[..|script|] == script;
    }

    /** One action of the loop thread. */
    method Perform(a: Act, ghost batch: set<Timer>, ghost p: Plan)
      requires Busy(batch) && Shows(p, batch) && (batch != {} ==> callingExpiredTimers)
      modifies this`heap, this`armed, this`live, this`made, this`posted, this`freed, this`cancelingTimers, this`canceled
      modifies live`heapIndex
      ensures Busy(batch) && (old(Noted(batch)) ==> Noted(batch)) && Shows(Acted(p, a), batch)
      ensures forall t :: t in made ==> t in old(made) || fresh(t)
      ensures fresh(live - old(live)) && old(live) <= live + freed && old(canceled) <= canceled
      ensures freed == old(freed) + (canceled - old(canceled) - batch)
    {
      hide Valid, Shows, Noted, Acted, Busy;
      match a
      case Add(when, interval, clock) => PerformAdd(when, interval, clock, batch, p);
      case Cancel(id) => PerformCancel(id, batch, p);
    }

    method PerformAdd(when: int, interval: int, clock: int, ghost batch: set<Timer>, ghost p: Plan)
      requires Busy(batch) && Shows(p, batch)
      modifies this`heap, this`armed, this`live, this`made, this`posted, live`heapIndex
      ensures Busy(batch) && Shows(Acted(p, Add(when, interval, clock)), batch)
      ensures forall t :: t in made ==> t in old(made) || fresh(t)
      ensures fresh(live - old(live)) && old(live) <= live
    {
      hide Valid, NoDuplicates, IsMinHeap, Earliest;
      EarliestIs(p, batch);
      CreatedEarliest(p, when, interval);
      var timer := AddTimer(when, interval, clock, true, batch);
      CreatedShows(p, when, interval, timer, old(made), old(live));
    }

    /** A new timer extends the list of those created. */
    lemma CreatedShows(p: Plan, when: int, interval: int, timer: Timer, before: seq<Timer>, liveBefore: set<Timer>)
      requires made == before + [timer] && timer !in before && NoDuplicates(before) && |p.timers| == |before|
      requires forall i :: 0 <= i < |before| ==>
                 var t := before[i];
                 t.expiration == p.timers[i].due && t.interval == p.timers[i].interval && t.repeat == (t.interval > 0)
      requires timer.expiration == when && timer.interval == interval && timer.repeat == (interval > 0)
      ensures ShowsTimers(Created(p, when, interval).timers)
    {
    }

    /** Another thread creates a timer. */
    method PerformPost(when: int, interval: int, clock: int, ghost p: Plan)
      requires Settled() && Shows(p, {})
      modifies this`heap, this`armed, this`live, this`made, this`posted, live`heapIndex
      ensures Settled() && Shows(Posted(p, when, interval), {}) && live == old(live)
      ensures forall t :: t in made ==> t in old(made) || fresh(t)
    {
      hide Valid, NoDuplicates, IsMinHeap, Earliest;
      var timer := AddTimer(when, interval, clock, false, {});
      CreatedShows(p, when, interval, timer, old(made), old(live));
    }

    method PerformCancel(id: nat, ghost batch: set<Timer>, ghost p: Plan)
      requires Busy(batch) && Shows(p, batch) && (batch != {} ==> callingExpiredTimers)
      modifies this`heap, this`live, this`freed, this`cancelingTimers, this`canceled, live`heapIndex
      ensures Busy(batch) && (old(Noted(batch)) ==> Noted(batch)) && Shows(Acted(p, Cancel(id)), batch)
      ensures live <= old(live) <= live + freed && old(canceled) <= canceled
      ensures freed == old(freed) + (canceled - old(canceled) - batch)
    {
      hide Valid, ShowsTimers, PostedApart, ShowsSet, NoDuplicates;
      NamesLive(p.live, id);
      if id < |made| && made[id] in live {
        CancelInLoop(made[id], batch);
        CanceledShows(p, id, batch, old(live), old(canceled));
      }
    }

    lemma NamesLive(ids: set<nat>, id: nat)
      requires ShowsSet(ids, live)
      ensures id in ids <==> id < |made| && made[id] in live
    {
    }

    lemma CanceledShows(p: Plan, id: nat, batch: set<Timer>, before: set<Timer>, canceledBefore: set<Timer>)
      requires ShowsTimers(p.timers) && PostedApart({}) && p.posted == posted && p.armed == armed
      requires ShowsSet(p.live, before) && ShowsSet(p.batch, batch) && ShowsSet(p.canceled, canceledBefore)
      requires id < |made| && made[id] in before && canceled == canceledBefore + {made[id]}
      requires live == if made[id] in batch then before else before - {made[id]}
      ensures Shows(Canceled(p, id), batch)
    {
    }

    // ---------- the queue as a plan ----------

    /** When each timer ever created is due. */
    ghost predicate ShowsTimers(timers: seq<Entry>)
      reads this`made, made`expiration
    {
      && |timers| == |made| && NoDuplicates(made)
      && forall i :: 0 <= i < |made| ==>
           var t := made[i];
           t.expiration == timers[i].due && t.interval == timers[i].interval && t.repeat == (t.interval > 0)
    }

    /** Some timers by their places. */
    ghost predicate ShowsSet(ids: set<nat>, some: set<Timer>)
      reads this`made
    {
      forall i: nat :: i in ids <==> i < |made| && made[i] in some
    }

    /** The timers still to be added are neither live nor freed, and every other timer is one or the other, or among
        those that are just being added. */
    ghost predicate PostedApart(adding: set<Timer>)
      reads this`made, this`live, this`freed, this`canceled, this`posted, made`heapIndex
    {
      && (forall t :: t in live ==> t in made)
      && (forall k :: 0 <= k < |posted| ==>
            && posted[k] < |made| && made[posted[k]] !in live && made[posted[k]] !in freed
            && made[posted[k]] !in canceled
            && made[posted[k]] !in adding && made[posted[k]].heapIndex == -1)
      && (forall j, k :: 0 <= j < k < |posted| ==> posted[j] != posted[k])
      && (forall i: nat :: i < |made| ==> made[i] in live || made[i] in freed || i in posted || made[i] in adding)
    }

    /** p is what the queue stands for, heap aside. */
    ghost predicate Shows(p: Plan, batch: set<Timer>)
      reads this`made, this`live, this`canceled, this`freed, this`posted, this`armed, made`expiration, made`heapIndex
    {
      && ShowsTimers(p.timers) && PostedApart({}) && p.posted == posted && p.armed == armed
      && ShowsSet(p.live, live) && ShowsSet(p.batch, batch) && ShowsSet(p.canceled, canceled)
    }

    /** The root of the heap is the first of the pending timers. */
    lemma RootIsFirst(p: Plan, batch: set<Timer>)
      requires Busy(batch) && Shows(p, batch)
      ensures heap == [] ==> forall i: nat :: !Pending(p, i)
      ensures heap != [] ==> exists i: nat :: IsFirst(p, i) && Due(p, i) == heap[0].expirationTime
    {
      forall i: nat | Pending(p, i) ensures heap != [] && heap[0].expirationTime <= Due(p, i) {
        PlaceOf(made[i]);
        RootIsLeast(heap, made[i].heapIndex);
      }
      if heap != [] {
        assert EntryLinked(0, {});
        var i: nat :| i < |made| && made[i] == heap[0].timer;
        assert IsFirst(p, i) && Due(p, i) == heap[0].expirationTime;
      }
    }

    lemma ArmedIs(p: Plan)
      requires Shows(p, {})
      ensures armed == p.armed
    {
    }

    lemma LiveMade(p: Plan)
      requires Shows(p, {})
      ensures forall t :: t in live ==> t in made
    {
    }

    /** The timerfd is armed in time for the heap's root exactly when it is for every pending timer. */
    lemma InTimeIs(p: Plan)
      requires Settled() && Shows(p, {})
      ensures ArmedInTime() <==> AllInTime(p)
    {
      RootIsFirst(p, {});
    }

    lemma EarliestIs(p: Plan, batch: set<Timer>)
      requires Busy(batch) && Shows(p, batch)
      ensures forall when: int :: Earliest(p, when) <==> heap == [] || when < heap[0].expirationTime
      ensures forall i: nat :: i in p.live ==> i < |p.timers|
    {
      RootIsFirst(p, batch);
    }

    /** Repeating timers of the batch that no callback cancelled. */
    ghost predicate Kept(t: Timer, canceled: seq<Timer>) {
      t.repeat && t !in canceled
    }

    /** The timers a batch frees at its end, and those freed while it ran, in terms of what was cancelled. */
    lemma FreedByBatch(batch: seq<Timer>, before: set<Timer>, freedBefore: set<Timer>)
      requires Noted(Members(batch)) && Members(batch) !! before
      requires freed == freedBefore + (canceled - before - Members(batch))
      ensures freed + (set t | t in batch && !Kept(t, cancelingTimers)) ==
              freedBefore + (canceled - before) + (set t | t in batch && !t.repeat)
    {
    }

    /** Ends a batch: restarts the kept timers, frees the others, and arms the timerfd for the earliest. */
    method Reset(expired: seq<Timer>, now: int, clock: int, ghost p: Plan)
      requires Busy(Members(expired)) && Noted(Members(expired)) && NoDuplicates(expired) && Shows(p, Members(expired))
      modifies this`heap, this`armed, this`live, this`freed, live`heapIndex, live`expiration
      ensures Settled() && Shows(ArmedForFirst(Restarted(p, now), clock), {})
      ensures live == old(live) - (set t | t in expired && !Kept(t, cancelingTimers))
      ensures freed == old(freed) + (set t | t in expired && !Kept(t, cancelingTimers))
      ensures forall t :: t in expired && Kept(t, cancelingTimers) ==> t.expiration == now + t.interval
      ensures forall t :: t in old(live) && t !in expired ==> t.expiration == old(t.expiration)
      ensures armed == if heap != [] && heap[0].expirationTime > 0
                       then Rearmed(old(armed), heap[0].expirationTime, clock) else old(armed)
      ensures ArmedInTime() <==>
                heap == [] || (if heap[0].expirationTime > 0 then Covers(old(armed), heap[0].expirationTime, clock)
                               else InTime(old(armed), heap[0].expirationTime))
      ensures ArmedInTime() <==> EndCovers(p, now, clock)
      ensures heap != [] && heap[0].expirationTime > 0 && heap[0].expirationTime > clock ==>
                armed == Some(heap[0].expirationTime)
    {
      hide Valid, ShowsTimers, ShowsSet, PostedApart, Kept, NoDuplicates, Noted, Restarted;
      RestartAll(expired, now, p);
      FirstIs(Restarted(p, now));
      var nextExpire := 0;
      if heap != [] {
        RootLinked();
        nextExpire := heap[0].timer.expiration;
      }
      if nextExpire > 0 {
        RearmedInTime(armed, nextExpire, clock);
        ResetTimerfd(nextExpire, clock);
      }
    }

    lemma RootLinked()
      requires Valid() && heap != []
      ensures heap[0].timer in live && heap[0].timer.expiration == heap[0].expirationTime
    {
      assert EntryLinked(0, {});
    }

    /** Restarts and reinserts the kept timers of a batch, and frees the others. */
    method RestartAll(expired: seq<Timer>, now: int, ghost p: Plan)
      requires Busy(Members(expired)) && Noted(Members(expired)) && NoDuplicates(expired) && Shows(p, Members(expired))
      modifies this`heap, this`live, this`freed, live`heapIndex, live`expiration
      ensures Settled() && Shows(Restarted(p, now), {})
      ensures live == old(live) - (set t | t in expired && !Kept(t, cancelingTimers))
      ensures freed == old(freed) + (set t | t in expired && !Kept(t, cancelingTimers))
      ensures forall t :: t in expired && Kept(t, cancelingTimers) ==> t.expiration == now + t.interval
      ensures forall t :: t in old(live) && t !in expired ==> t.expiration == old(t.expiration)
    {
      hide Valid, Kept, NoDuplicates, PostedApart, ShowsSet, Noted;
      var i := 0;
      assert expired[0..] == expired;
      while i < |expired|
        invariant 0 <= i <= |expired|
        invariant Busy(Members(expired[i..]))
        invariant live == old(live) - (set t | t in expired[..i] && !Kept(t, cancelingTimers))
        invariant freed == old(freed) + (set t | t in expired[..i] && !Kept(t, cancelingTimers))
        invariant forall t :: t in old(live) ==>
                    t.expiration == if t in expired[..i] && Kept(t, cancelingTimers) then now + t.interval
                        else old(t.expiration)
        invariant PostedApart({})
      {
        NotedAt(expired, i);
        EndOne(expired[i], now, Members(expired[i..]));
        NextOfBatch(expired, i);
        i := i + 1;
      }
      assert expired[..i] == expired;
      assert HalfRestarted(p, expired, now);
      RestartShows(expired, now, p, old(live));
    }

    lemma NotedAt(batch: seq<Timer>, i: int)
      requires Noted(Members(batch)) && 0 <= i < |batch|
      ensures batch[i] in cancelingTimers <==> batch[i] in canceled
    {
      assert batch[i] in Members(batch);
    }

    /** The timers in done have been restarted, as far as they are kept. */
    ghost predicate HalfRestarted(p: Plan, done: seq<Timer>, now: int)
      reads this`made, this`cancelingTimers, made`expiration
    {
      && |p.timers| == |made| && NoDuplicates(made)
      && forall k :: 0 <= k < |made| ==>
           var t := made[k];
           && t.interval == p.timers[k].interval && t.repeat == (t.interval > 0)
           && t.expiration == if t in done && Kept(t, cancelingTimers) then now + t.interval else p.timers[k].due
    }

    /** What the end of a batch did to timers and sets is what the plan says. */
    lemma RestartShows(expired: seq<Timer>, now: int, p: Plan, before: set<Timer>)
      requires HalfRestarted(p, expired, now) && PostedApart({}) && p.posted == posted && p.armed == armed
      requires ShowsSet(p.live, before) && ShowsSet(p.batch, Members(expired)) && ShowsSet(p.canceled, canceled)
      requires Noted(Members(expired)) && live == before - (set t | t in expired && !Kept(t, cancelingTimers))
      ensures Shows(Restarted(p, now), {})
    {
      forall i: nat | i < |made| ensures Survives(p, i) <==> made[i] in expired && Kept(made[i], cancelingTimers) {
        assert made[i] in Members(expired) <==> made[i] in expired;
      }
    }

    /** One timer of the batch: restarted and reinserted, or freed. */
    method EndOne(it: Timer, now: int, ghost batch: set<Timer>)
      requires Busy(batch) && it in batch && (it in cancelingTimers <==> it in canceled)
      modifies this`heap, this`live, this`freed, live`heapIndex, it`expiration
      ensures Busy(batch - {it}) && (old(PostedApart({})) ==> PostedApart({}))
      ensures if Kept(it, cancelingTimers)
              then live == old(live) && freed == old(freed) && it.expiration == now + it.interval
              else live == old(live) - {it} && freed == old(freed) + {it} && it.expiration == old(it.expiration)
    {
      if it.repeat && it !in cancelingTimers {
        it.Restart(now);
        forall i | 0 <= i < |heap| ensures EntryLinked(i, {}) {
          assert old(EntryLinked(i, {}));
        }
        var earliestChanged := Insert(it);
      } else {
        Delete(it);
      }
    }

    /** The heap's root is the plan's first deadline. */
    lemma FirstIs(p: Plan)
      requires Busy({}) && Shows(p, {})
      ensures FirstDue(p) == if heap == [] then None else Some(heap[0].expirationTime)
    {
      RootIsFirst(p, {});
      if heap != [] {
        var i: nat :| IsFirst(p, i) && Due(p, i) == heap[0].expirationTime;
        FirstDueIs(p, i);
      }
    }

    /** Runs the callbacks of the batch, in order. */
    method RunBatch(expired: seq<Timer>, scripts: seq<seq<Act>>, ghost p: Plan)
      requires Busy(Members(expired)) && callingExpiredTimers && cancelingTimers == [] && Members(expired) !! canceled
      requires Shows(p, Members(expired))
      modifies this`heap, this`armed, this`live, this`made, this`posted, this`freed, this`cancelingTimers, this`canceled
      modifies this`ran, live`heapIndex
      ensures Busy(Members(expired)) && Noted(Members(expired)) && ran == old(ran) + expired
      ensures Shows(Ran(p, scripts, |expired|), Members(expired))
      ensures forall t :: t in made ==> t in old(made) || fresh(t)
      ensures fresh(live - old(live)) && old(live) <= live + freed && old(canceled) <= canceled
      ensures freed == old(freed) + (canceled - old(canceled) - Members(expired))
    {
      hide Valid, Shows, ActedAll;
      var i := 0;
      while i < |expired|
        invariant 0 <= i <= |expired|
        invariant Busy(Members(expired)) && Noted(Members(expired)) && ran == old(ran) + expired[..i]
        invariant Shows(Ran(p, scripts, i), Members(expired))
        invariant forall t :: t in made ==> t in old(made) || fresh(t)
        invariant fresh(live - old(live)) && old(live) <= live + freed && old(canceled) <= canceled
        invariant freed == old(freed) + (canceled - old(canceled) - Members(expired))
      {
        assert expired[i] in Members(expired);
        RunCallback(expired[i], Script(scripts, i), Members(expired), Ran(p, scripts, i));
        assert expired[..i + 1] == expired[..i] + [expired[i]];
        i := i + 1;
      }
      assert expired[..i] == expired;
    }

    /** The timerfd fires: runs every due timer once, then restarts or frees the batch. Each callback follows its
        script. */
    method HandleRead(now: int, clock: int, fired: bool, scripts: seq<seq<Act>>, ghost p: Plan)
        returns (ghost batch: seq<Timer>)
      requires Settled() && Shows(p, {})
      modifies this, live`heapIndex, live`expiration
      ensures Settled() && fresh(live - old(live)) && old(live) <= live + freed && old(canceled) <= canceled
      ensures Shows(Fired(p, now, clock, fired, scripts), {})
      ensures forall t :: t in made ==> t in old(made) || fresh(t)
      ensures NoDuplicates(batch) && Members(batch) <= old(live)
      ensures forall t :: t in old(live) ==> (t in batch <==> old(t.expiration) <= now)
      ensures forall i, j :: 0 <= i < j < |batch| && batch[i] in old(live) && batch[j] in old(live) ==>
                old(batch[i].expiration) <= old(batch[j].expiration)
      ensures ran == old(ran) + batch
      ensures freed == old(freed) + (canceled - old(canceled)) + (set t | t in batch && !t.repeat)
      ensures forall t :: t in batch && t in live ==> t.expiration == now + t.interval
      ensures forall t :: t in old(live) && t !in batch ==> t.expiration == old(t.expiration)
      ensures ArmedInTime() <==> StepCovers(p, Fire(now, clock, fired, scripts))
      ensures heap != [] && heap[0].expirationTime > 0 && heap[0].expirationTime > clock ==>
                armed == Some(heap[0].expirationTime)
      ensures !callingExpiredTimers
    {
      hide Valid, Shows, Kept, NotBefore, NoDuplicates, Rearmed, InTime, IsMinHeap, Parent, ArmedInTime, Noted, Busy,
           Settled;
      hide Ran, Begun, Restarted, ArmedForFirst, EndCovers, Covers;
      var expired := StartBatch(now, fired, p);
      batch := expired;
      callingExpiredTimers := true;
      cancelingTimers := [];
      RunBatch(expired, scripts, Begun(p, now, fired));
      callingExpiredTimers := false;
      FreedByBatch(expired, old(canceled), old(freed));
      Reset(expired, now, clock, AfterCallbacks(p, now, fired, scripts));
    }

    /** The timerfd is read, and the due timers are taken out of the heap. */
    method StartBatch(now: int, fired: bool, ghost p: Plan) returns (expired: seq<Timer>)
      requires Settled() && Shows(p, {})
      modifies this`heap, this`armed, live`heapIndex
      ensures Busy(Members(expired)) && NoDuplicates(expired) && Members(expired) !! canceled
              && Members(expired) <= live
      ensures forall t :: t in live ==> (t in expired <==> t.expiration <= now)
      ensures forall i, j :: 0 <= i < j < |expired| ==> expired[i].expiration <= expired[j].expiration
      ensures Shows(Begun(p, now, fired), Members(expired)) && |Begun(p, now, fired).batch| == |expired|
    {
      hide Valid, NotBefore, ShowsTimers, NoDuplicates, IsMinHeap, Parent;
      if fired {
        armed := None;
      }
      expired := GetExpired(now);
      BegunShows(p, now, fired, expired);
    }

    lemma BegunShows(p: Plan, now: int, fired: bool, expired: seq<Timer>)
      requires ShowsTimers(p.timers) && PostedApart({}) && p.posted == posted && ShowsSet(p.live, live)
               && ShowsSet(p.canceled, canceled)
      requires armed == (if fired then None else p.armed) && Members(expired) <= live && NoDuplicates(expired)
      requires forall t :: t in live ==> (t in expired <==> t.expiration <= now)
      ensures Shows(Begun(p, now, fired), Members(expired)) && |Begun(p, now, fired).batch| == |expired|
    {
      CountPlaces(made, expired, Begun(p, now, fired).batch);
    }
  }

  /** After every run: the queue is in order and stands for exactly the plan, and the timerfd is armed in time for the
      earliest timer exactly when the plan says so, in particular whenever each step covered its deadline. */
  method Run(ops: seq<Op>) returns (q: TimerQueue)
    ensures q.Settled() && q.Shows(After(ops), {})
    ensures q.ArmedInTime() <==> AllInTime(After(ops))
    ensures AllStepsCover(ops) ==> q.ArmedInTime()
    ensures q.armed.Some? ==> exists k :: 0 <= k < |ops| && ArmsFor(After(ops[..k]), ops[k], q.armed.value)
  {
    hide AllInTime, AllStepsCover, Next, ArmsFor;
    q := new TimerQueue();
    for i := 0 to |ops|
      invariant fresh(q) && q.Settled() && q.Shows(After(ops[..i]), {})
      invariant forall t :: t in q.made ==> fresh(t)
    {
      assert ops[..i + 1][..i] == ops[..i];
      q.LiveMade(After(ops[..i]));
      forall k | 0 <= k < |q.made| ensures fresh(q.made[k]) {
        assert q.made[k] in q.made;
      }
      Apply(q, ops[i], After(ops[..i]));
    }
    assert ops[..|ops|] == ops;
    q.InTimeIs(After(ops));
    if AllStepsCover(ops) {
      InTimeThroughoutIff(ops);
    }
    q.ArmedIs(After(ops));
    if q.armed.Some? {
      ArmedForADeadline(ops, q.armed.value);
    }
  }

  /** One step more. */
  method Apply(q: TimerQueue, op: Op, ghost p: Plan)
    requires q.Settled() && q.Shows(p, {})
    modifies q, q.live`heapIndex, q.live`expiration, q.made`heapIndex
    ensures q.Settled() && q.Shows(Next(p, op), {})
    ensures forall t :: t in q.made ==> t in old(q.made) || fresh(t)
  {
    hide TimerQueue.Valid, TimerQueue.Shows, TimerQueue.Noted, Acted, Posted, Turned, Fired, StepCovers;
    match op
    case Do(act) =>
      q.Perform(act, {}, p);
    case Post(when, interval) =>
      q.PerformPost(when, interval, 0, p);
    case Turn(clock) =>
      q.AddPosted(clock, p);
    case Fire(now, clock, fired, scripts) =>
      ghost var batch := q.HandleRead(now, clock, fired, scripts, p);
  }

  /** A deadline already reached when it is armed is lost: one timer due at 5, added at clock 7. */
  method LateTimer() returns (q: TimerQueue)
    ensures q.Settled() && q.Shows(After([Do(Add(5, 0, 7))]), {}) && q.heap != [] && !q.ArmedInTime()
  {
    q := Run([Do(Add(5, 0, 7))]);
    LateDeadlineIsLost();
  }

  /** A repeating timer whose batch lasts longer than its interval has no wake-up of its own any more: it is in the
      heap, and the timerfd is not armed at all. */
  method SlowBatch() returns (q: TimerQueue)
    ensures q.Settled() && q.Shows(After([Do(Add(5, 1, 0)), Fire(5, 7, true, [])]), {})
    ensures q.heap != [] && q.armed == None
  {
    q := Run([Do(Add(5, 1, 0)), Fire(5, 7, true, [])]);
    SlowBatchIsLost();
  }

  /** A list without duplicates has as many members as places. */
  lemma {:induction false} CountPlaces(made: seq<Timer>, s: seq<Timer>, ids: set<nat>)
    requires NoDuplicates(made) && NoDuplicates(s) && forall t :: t in s ==> t in made
    requires forall i: nat :: i in ids <==> i < |made| && made[i] in s
    ensures |ids| == |s|
  {
    if s == [] {
      assert ids == {};
    } else {
      var n := |s| - 1;
      assert s[n] in s && s[n] !in s[..n];
      var k: nat :| k < |made| && made[k] == s[n];
      CountPlaces(made, s[..n], ids - {k});
    }
  }

  lemma NextOfBatch(s: seq<Timer>, i: int)
    requires 0 <= i < |s| && NoDuplicates(s)
    ensures Members(s[i..]) - {s[i]} == Members(s[i + 1..])
    ensures forall t :: t in s[..i + 1] <==> t in s[..i] || t == s[i]
    ensures s[i] in Members(s[i..]) && s[i] !in s[..i]
  {
    assert s[i..] == [s[i]] + s[i + 1..];
    assert s[..i + 1] == s[..i] + [s[i]];
  }

  ghost function Members(s: seq<Timer>): set<Timer> { set t | t in s }

  ghost predicate NoDuplicates(s: seq<Timer>) {
    forall i, j :: 0 <= i < j < |s| ==> s[i] != s[j]
  }

  // ---------- heap order ----------

  ghost predicate IsMinHeap(h: seq<HeapEntry>) {
    forall i :: 0 < i < |h| ==> h[Parent(i)].expirationTime <= h[i].expirationTime
  }

  function Swapped(h: seq<HeapEntry>, i: int, j: int): (r: seq<HeapEntry>)
    requires 0 <= i < |h| && 0 <= j < |h|
    ensures |r| == |h|
  {
    h[i := h[j]][j := h[i]]
  }

  /** The order holds except that entry k may be smaller than its parent. */
  ghost predicate OrderedAbove(h: seq<HeapEntry>, k: int) {
    && (forall i :: 0 < i < |h| && i != k ==> h[Parent(i)].expirationTime <= h[i].expirationTime)
    && (forall i :: 0 < i < |h| && Parent(i) == k && 0 < k < |h| ==> h[Parent(k)].expirationTime <= h[i].expirationTime)
  }

  /** The order holds except that entry k may be larger than its children. */
  ghost predicate OrderedBelow(h: seq<HeapEntry>, k: int) {
    && (forall i :: 0 < i < |h| && Parent(i) != k ==> h[Parent(i)].expirationTime <= h[i].expirationTime)
    && (forall i :: 0 < i < |h| && Parent(i) == k && 0 < k < |h| ==> h[Parent(k)].expirationTime <= h[i].expirationTime)
  }

  lemma SwappedMultiset(h: seq<HeapEntry>, i: int, j: int)
    requires 0 <= i < |h| && 0 <= j < |h|
    ensures multiset(Swapped(h, i, j)) == multiset(h)
  {
  }

  lemma SiftUpStep(h: seq<HeapEntry>, k: int)
    requires 0 < k < |h| && OrderedAbove(h, k) && h[k].expirationTime < h[Parent(k)].expirationTime
    ensures var r := Swapped(h, k, Parent(k));
            && OrderedAbove(r, Parent(k)) && multiset(r) == multiset(h) && |r| == |h|
            && r[Parent(k)] == h[k] && (Parent(k) > 0 ==> r[0] == h[0])
  {
    SwappedMultiset(h, k, Parent(k));
  }

  lemma SiftUpDone(h: seq<HeapEntry>, k: int)
    requires 0 <= k < |h| && OrderedAbove(h, k) && (k == 0 || h[Parent(k)].expirationTime <= h[k].expirationTime)
    ensures IsMinHeap(h)
  {
  }

  lemma SiftDownStep(h: seq<HeapEntry>, k: int, c: int)
    requires 0 <= k < |h| && k < c < |h| && Parent(c) == k && OrderedBelow(h, k)
    requires h[c].expirationTime <= h[k].expirationTime
    requires forall i :: 0 < i < |h| && Parent(i) == k ==> h[c].expirationTime <= h[i].expirationTime
    ensures OrderedBelow(Swapped(h, k, c), c) && multiset(Swapped(h, k, c)) == multiset(h)
  {
    SwappedMultiset(h, k, c);
  }

  lemma SiftDownDone(h: seq<HeapEntry>, k: int)
    requires 0 <= k < |h| && OrderedBelow(h, k)
    requires forall i :: 0 < i < |h| && Parent(i) == k ==> h[k].expirationTime <= h[i].expirationTime
    ensures IsMinHeap(h)
  {
  }

  lemma AppendedOrder(h: seq<HeapEntry>, e: HeapEntry)
    requires IsMinHeap(h)
    ensures OrderedAbove(h + [e], |h|)
  {
  }

  /** Moving the last entry into place k leaves an order broken at k only, upwards or downwards. */
  lemma RemovedOrder(h: seq<HeapEntry>, k: int)
    requires IsMinHeap(h) && 0 <= k < |h|
    ensures k > 0 ==> 0 <= Parent(k) < k
    ensures var r := Swapped(h, k, |h| - 1)[..|h| - 1];
            if k == |h| - 1 then IsMinHeap(r)
            else if k > 0 && r[k].expirationTime < r[Parent(k)].expirationTime then OrderedAbove(r, k)
            else OrderedBelow(r, k)
  {
  }

  lemma RemovedMultiset(h: seq<HeapEntry>, k: int)
    requires 0 <= k < |h|
    ensures multiset(Swapped(h, k, |h| - 1)[..|h| - 1]) + multiset{h[k]} == multiset(h)
    ensures Swapped(h, k, |h| - 1)[|h| - 1] == h[k] && (k == |h| - 1 ==> Swapped(h, k, |h| - 1) == h)
  {
    var r := Swapped(h, k, |h| - 1);
    SwappedMultiset(h, k, |h| - 1);
    assert r == r[..|h| - 1] + [h[k]];
  }

  lemma StillIn(before: seq<HeapEntry>, h: seq<HeapEntry>)
    requires multiset(h) <= multiset(before)
    ensures forall i :: 0 <= i < |h| ==> h[i] in before
  {
    forall i | 0 <= i < |h| ensures h[i] in before {
      assert h[i] in multiset(h);
    }
  }

  /** Taking entries out never makes the earliest deadline earlier, so what is armed in time stays so. */
  lemma RootLater(armed: Option<int>, before: seq<HeapEntry>, h: seq<HeapEntry>)
    requires IsMinHeap(before) && multiset(h) <= multiset(before)
    ensures (before != [] ==> InTime(armed, before[0].expirationTime)) ==>
            (h != [] ==> InTime(armed, h[0].expirationTime))
  {
    if h != [] {
      StillIn(before, h);
      var j :| 0 <= j < |before| && before[j] == h[0];
      RootIsLeast(before, j);
    }
  }

  /** The root of a heap is its minimum. */
  lemma {:induction false} RootIsLeast(h: seq<HeapEntry>, i: int)
    requires IsMinHeap(h) && 0 <= i < |h|
    ensures h[0].expirationTime <= h[i].expirationTime
  {
    if i > 0 {
      RootIsLeast(h, Parent(i));
    }
  }
}
