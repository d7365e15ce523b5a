/** `RecursiveSharedMutex`: the code under its internal mutex, and every run of any number of
    threads using it. */
module SharedMutex {
  const NO_THREAD := -1

  /** The fields of the lock. */
  datatype Counters = Counters(shared: int, exclusive: int, owner: int, recursion: int)

  const UNLOCKED := Counters(0, 0, NO_THREAD, 0)

  // ---- one critical section ----

  /** A pass through the loop of `lock_shared`: acquire, or wait. */
  function EnterShared(k: Counters): (Counters, bool) {
    if k.exclusive > 0 then (k, false) else (k.(shared := k.shared + 1), true)
  }

  /** A pass through the loop of `lock`. */
  function Enter(k: Counters, me: int): (Counters, bool) {
    if k.shared > 0 || k.exclusive > 0
    then if k.owner == me then (k.(recursion := k.recursion + 1), true) else (k, false)
    else (Counters(k.shared, k.exclusive + 1, me, 1), true)
  }

  /** `unlock_shared`, and whether it notifies a writer. */
  function LeaveShared(k: Counters): (Counters, bool) {
    (k.(shared := k.shared - 1), k.shared - 1 == 0)
  }

  /** `unlock`, and whether it notifies all readers and a writer. */
  function Leave(k: Counters, me: int): (Counters, bool) {
    if k.owner == me && k.recursion > 1 then (k.(recursion := k.recursion - 1), false)
    else (Counters(k.shared, k.exclusive - 1, NO_THREAD, 0), k.exclusive - 1 == 0)
  }

  // ---- who holds the lock ----

  /** The counters are what the holders make them, `readers` and `writers` telling how often each
      thread holds the lock in which mode: readers exclude a writer, and there is one writer at most. */
  ghost predicate Accounts(k: Counters, readers: multiset<int>, writers: multiset<int>) {
    && (readers == multiset{} || writers == multiset{})
    && (forall t, u :: t in writers && u in writers ==> t == u)
    && (forall t :: t in readers || t in writers ==> t >= 0)
    && (forall t :: t in writers ==> t == k.owner)
    && (k.owner == NO_THREAD <==> writers == multiset{})
    && k.shared == |readers| && k.recursion == |writers|
    && k.exclusive == (if writers == multiset{} then 0 else 1)
  }

  lemma EnterSharedOk(k: Counters, readers: multiset<int>, writers: multiset<int>, t: int)
    requires Accounts(k, readers, writers) && t >= 0
    ensures var (after, ok) := EnterShared(k);
      && (ok <==> writers == multiset{})
      && Accounts(after, if ok then readers + multiset{t} else readers, writers)
  {
  }

  lemma EnterOk(k: Counters, readers: multiset<int>, writers: multiset<int>, t: int)
    requires Accounts(k, readers, writers) && t >= 0
    ensures var (after, ok) := Enter(k, t);
      && (ok <==> t in writers || (readers == multiset{} && writers == multiset{}))
      && Accounts(after, readers, if ok then writers + multiset{t} else writers)
  {
    assert |readers| == 0 ==> readers == multiset{};
    assert |writers| == 0 ==> writers == multiset{};
    assert (forall u :: u !in writers) ==> writers == multiset{};
  }

  lemma LeaveSharedOk(k: Counters, readers: multiset<int>, writers: multiset<int>, t: int)
    requires Accounts(k, readers, writers) && t in readers
    ensures var (after, notify) := LeaveShared(k); var rest := readers - multiset{t};
      (notify <==> rest == multiset{}) && Accounts(after, rest, writers)
  {
    var rest := readers - multiset{t};
    assert |rest| == |readers| - 1;
    assert |rest| == 0 ==> rest == multiset{};
  }

  lemma LeaveOk(k: Counters, readers: multiset<int>, writers: multiset<int>, t: int)
    requires Accounts(k, readers, writers) && t in writers
    ensures var (after, notify) := Leave(k, t); var rest := writers - multiset{t};
      (notify <==> rest == multiset{}) && Accounts(after, readers, rest)
  {
    var rest := writers - multiset{t};
    assert |rest| == |writers| - 1;
    assert |rest| == 0 ==> rest == multiset{};
  }

  /** The lock. Each method is one critical section under the internal mutex; its contract speaks of
      the holders, and ties the counters to the functions that the step system below is made of. */
  class RecursiveSharedMutex {
    var sharedLockCount: int
    var exclusiveLockCount: int
    var recursiveOwner: int
    var recursiveCount: int
    ghost var readers: multiset<int>
    ghost var writers: multiset<int>

    function State(): Counters
      reads this
    {
      Counters(sharedLockCount, exclusiveLockCount, recursiveOwner, recursiveCount)
    }

    ghost predicate Valid()
      reads this
    {
      Accounts(State(), readers, writers)
    }

    constructor ()
      ensures Valid() && State() == UNLOCKED && readers == multiset{} && writers == multiset{}
    {
      sharedLockCount, exclusiveLockCount, recursiveOwner, recursiveCount := 0, 0, NO_THREAD, 0;
      readers, writers := multiset{}, multiset{};
    }

    /** `lock_shared` up to the point where it returns or waits: it waits exactly if somebody, the
        caller included, holds the write lock. */
    method LockSharedPass(ghost me: int) returns (acquired: bool)
      requires Valid() && me >= 0
      modifies this
      ensures Valid() && (State(), acquired) == EnterShared(old(State()))
      ensures acquired <==> old(writers) == multiset{}
      ensures readers == (if acquired then old(readers) + multiset{me} else old(readers)) && writers == old(writers)
    {
      EnterSharedOk(State(), readers, writers, me);
      if exclusiveLockCount > 0 {
        return false;
      }
      sharedLockCount := sharedLockCount + 1;
      readers := readers + multiset{me};
      return true;
    }

    method TryLockShared(ghost me: int) returns (ok: bool)
      requires Valid() && me >= 0
      modifies this
      ensures Valid() && (State(), ok) == EnterShared(old(State()))
      ensures ok <==> old(writers) == multiset{}
      ensures readers == (if ok then old(readers) + multiset{me} else old(readers)) && writers == old(writers)
    {
      EnterSharedOk(State(), readers, writers, me);
      if exclusiveLockCount == 0 {
        sharedLockCount := sharedLockCount + 1;
        readers := readers + multiset{me};
        return true;
      }
      return false;
    }

    /** `lock` up to the point where it returns or waits: it returns exactly if nobody holds the lock
        or the caller is the writer. */
    method LockPass(me: int) returns (acquired: bool)
      requires Valid() && me >= 0
      modifies this
      ensures Valid() && (State(), acquired) == Enter(old(State()), me)
      ensures acquired <==> me in old(writers) || (old(readers) == multiset{} && old(writers) == multiset{})
      ensures writers == (if acquired then old(writers) + multiset{me} else old(writers)) && readers == old(readers)
    {
      ghost var k, rs, ws := State(), readers, writers;
      EnterOk(k, rs, ws, me);
      if sharedLockCount > 0 || exclusiveLockCount > 0 {
        if recursiveOwner == me {
          recursiveCount := recursiveCount + 1;
          writers := ws + multiset{me};
          assert (State(), true) == Enter(k, me);
          return true;
        }
        assert (State(), false) == Enter(k, me);
        return false;
      }
      recursiveOwner := me;
      recursiveCount := 1;
      exclusiveLockCount := exclusiveLockCount + 1;
      writers := ws + multiset{me};
      assert (State(), true) == Enter(k, me);
      return true;
    }

    /** A holder gives up one of its shared locks; a writer is notified exactly if it was the last one. */
    method UnlockShared(ghost me: int) returns (notifyWriter: bool)
      requires Valid() && me in readers
      modifies this
      ensures Valid() && (State(), notifyWriter) == LeaveShared(old(State()))
      ensures readers == old(readers) - multiset{me} && writers == old(writers)
      ensures notifyWriter <==> readers == multiset{}
    {
      LeaveSharedOk(State(), readers, writers, me);
      sharedLockCount := sharedLockCount - 1;
      readers := readers - multiset{me};
      notifyWriter := sharedLockCount == 0;
    }

    /** The writer unlocks once; the waiting threads are notified exactly if it holds the lock no more. */
    method Unlock(me: int) returns (notify: bool)
      requires Valid() && me in writers
      modifies this
      ensures Valid() && (State(), notify) == Leave(old(State()), me)
      ensures writers == old(writers) - multiset{me} && readers == old(readers)
      ensures notify <==> writers == multiset{}
    {
      ghost var k, rs, ws := State(), readers, writers;
      LeaveOk(k, rs, ws, me);
      notify := false;
      writers := ws - multiset{me};
      if recursiveOwner == me && recursiveCount > 1 {
        recursiveCount := recursiveCount - 1;
      } else {
        recursiveOwner := NO_THREAD;
        recursiveCount := 0;
        exclusiveLockCount := exclusiveLockCount - 1;
        notify := exclusiveLockCount == 0;
      }
      assert (State(), notify) == Leave(k, me);
    }
  }

  // ---- threads ----

  /** The lock and its threads: who holds it how often, who sleeps on which condition variable, and
      who has been woken but not run yet. */
  datatype System = System(
    k: Counters,
    readers: multiset<int>,
    writers: multiset<int>,
    sleepingReaders: set<int>,
    sleepingWriters: set<int>,
    wokenReaders: set<int>,
    wokenWriters: set<int>)

  const START := System(UNLOCKED, multiset{}, multiset{}, {}, {}, {}, {})

  /** What can happen next. `chosen` is the sleeping writer that `notify_one` wakes, if there is one. */
  datatype Step =
    | LockShared(t: int)
    | TryShared(t: int)
    | Lock(t: int)
    | ResumeShared(t: int)
    | Resume(t: int)
    | UnlockShared(t: int, chosen: int)
    | Unlock(t: int, chosen: int)
    | SpuriousReader(t: int)
    | SpuriousWriter(t: int)

  ghost predicate Running(s: System, t: int) {
    && t >= 0
    && t !in s.sleepingReaders && t !in s.sleepingWriters && t !in s.wokenReaders && t !in s.wokenWriters
  }

  ghost predicate Choice(s: System, chosen: int) {
    s.sleepingWriters != {} ==> chosen in s.sleepingWriters
  }

  /** Threads release only what they hold; everything else is up to the scheduler. */
  ghost predicate Enabled(s: System, st: Step) {
    match st
    case LockShared(t) => Running(s, t)
    case TryShared(t) => Running(s, t)
    case Lock(t) => Running(s, t)
    case ResumeShared(t) => t in s.wokenReaders
    case Resume(t) => t in s.wokenWriters
    case UnlockShared(t, chosen) => Running(s, t) && t in s.readers && Choice(s, chosen)
    case Unlock(t, chosen) => Running(s, t) && t in s.writers && Choice(s, chosen)
    case SpuriousReader(t) => t in s.sleepingReaders
    case SpuriousWriter(t) => t in s.sleepingWriters
  }

  function PassShared(s: System, t: int): System {
    var (k, ok) := EnterShared(s.k);
    if ok then s.(k := k, readers := s.readers + multiset{t}) else s.(sleepingReaders := s.sleepingReaders + {t})
  }

  function Pass(s: System, t: int): System {
    var (k, ok) := Enter(s.k, t);
    if ok then s.(k := k, writers := s.writers + multiset{t}) else s.(sleepingWriters := s.sleepingWriters + {t})
  }

  function NotifyOne(s: System, chosen: int): System {
    if s.sleepingWriters == {} then s
    else s.(sleepingWriters := s.sleepingWriters - {chosen}, wokenWriters := s.wokenWriters + {chosen})
  }

  function NotifyAll(s: System): System {
    s.(sleepingReaders := {}, wokenReaders := s.wokenReaders + s.sleepingReaders)
  }

  function Apply(s: System, st: Step): System {
    match st
    case LockShared(t) => PassShared(s, t)
    case TryShared(t) =>
      var (k, ok) := EnterShared(s.k);
      if ok then s.(k := k, readers := s.readers + multiset{t}) else s
    case Lock(t) => Pass(s, t)
    case ResumeShared(t) => PassShared(s.(wokenReaders := s.wokenReaders - {t}), t)
    case Resume(t) => Pass(s.(wokenWriters := s.wokenWriters - {t}), t)
    case UnlockShared(t, chosen) =>
      var (k, notify) := LeaveShared(s.k);
      var s' := s.(k := k, readers := s.readers - multiset{t});
      if notify then NotifyOne(s', chosen) else s'
    case Unlock(t, chosen) =>
      var (k, notify) := Leave(s.k, t);
      var s' := s.(k := k, writers := s.writers - multiset{t});
      if notify then NotifyOne(NotifyAll(s'), chosen) else s'
    case SpuriousReader(t) => s.(sleepingReaders := s.sleepingReaders - {t}, wokenReaders := s.wokenReaders + {t})
    case SpuriousWriter(t) => s.(sleepingWriters := s.sleepingWriters - {t}, wokenWriters := s.wokenWriters + {t})
  }

  // ---- what every step keeps ----

  ghost predicate Free(s: System) {
    s.readers == multiset{} && s.writers == multiset{}
  }

  /** Nobody sleeps through an opportunity: readers sleep only while a writer holds the lock, and a
      free lock with a sleeping writer has a woken one. */
  ghost predicate Awake(s: System) {
    && (s.writers == multiset{} ==> s.sleepingReaders == {})
    && (Free(s) && s.sleepingWriters != {} ==> s.wokenWriters != {})
  }

  ghost predicate Apart(s: System) {
    && s.sleepingReaders !! s.sleepingWriters !! s.wokenReaders !! s.wokenWriters
    && (forall t :: t in s.sleepingReaders || t in s.sleepingWriters || t in s.wokenReaders || t in s.wokenWriters ==> t >= 0)
  }

  ghost predicate Inv(s: System) {
    Accounts(s.k, s.readers, s.writers) && Awake(s) && Apart(s)
  }

  lemma PassSharedOk(s: System, t: int)
    requires Inv(s) && Running(s, t)
    ensures Inv(PassShared(s, t))
  {
    EnterSharedOk(s.k, s.readers, s.writers, t);
  }

  /** A writer that gives up its turn finds the lock taken, so `Awake` may be missing its wake-up. */
  lemma PassOk(s: System, t: int)
    requires Accounts(s.k, s.readers, s.writers) && Apart(s) && Running(s, t)
    requires s.writers == multiset{} ==> s.sleepingReaders == {}
    requires Awake(s) || Free(s)
    ensures Inv(Pass(s, t))
  {
    EnterOk(s.k, s.readers, s.writers, t);
  }

  lemma UnlockSharedOk(s: System, t: int, chosen: int)
    requires Inv(s) && Enabled(s, Step.UnlockShared(t, chosen))
    ensures Inv(Apply(s, Step.UnlockShared(t, chosen)))
  {
    LeaveSharedOk(s.k, s.readers, s.writers, t);
  }

  lemma NotifyOk(s: System, chosen: int)
    requires Accounts(s.k, s.readers, s.writers) && Apart(s) && Choice(s, chosen)
    ensures Inv(NotifyOne(NotifyAll(s), chosen))
  {
  }

  lemma UnlockOk(s: System, t: int, chosen: int)
    requires Inv(s) && Enabled(s, Step.Unlock(t, chosen))
    ensures Inv(Apply(s, Step.Unlock(t, chosen)))
  {
    LeaveOk(s.k, s.readers, s.writers, t);
    var (k, notify) := Leave(s.k, t);
    var s' := s.(k := k, writers := s.writers - multiset{t});
    if notify {
      NotifyOk(s', chosen);
    } else {
      assert Awake(s');
    }
  }

  lemma ResumeSharedOk(s: System, t: int)
    requires Inv(s) && t in s.wokenReaders
    ensures Inv(Apply(s, ResumeShared(t)))
  {
    PassSharedOk(s.(wokenReaders := s.wokenReaders - {t}), t);
  }

  lemma ResumeOk(s: System, t: int)
    requires Inv(s) && t in s.wokenWriters
    ensures Inv(Apply(s, Resume(t)))
  {
    PassOk(s.(wokenWriters := s.wokenWriters - {t}), t);
  }

  lemma SpuriousOk(s: System, t: int)
    ensures Inv(s) && t in s.sleepingReaders ==> Inv(Apply(s, SpuriousReader(t)))
    ensures Inv(s) && t in s.sleepingWriters ==> Inv(Apply(s, SpuriousWriter(t)))
  {
  }

  /** Every step keeps the invariant. */
  lemma StepOk(s: System, st: Step)
    requires Inv(s) && Enabled(s, st)
    ensures Inv(Apply(s, st))
  {
    match st
    case LockShared(t) => PassSharedOk(s, t);
    case TryShared(t) => EnterSharedOk(s.k, s.readers, s.writers, t);
    case Lock(t) => PassOk(s, t);
    case ResumeShared(t) => ResumeSharedOk(s, t);
    case Resume(t) => ResumeOk(s, t);
    case UnlockShared(t, chosen) => UnlockSharedOk(s, t, chosen);
    case Unlock(t, chosen) => UnlockOk(s, t, chosen);
    case SpuriousReader(t) => SpuriousOk(s, t);
    case SpuriousWriter(t) => SpuriousOk(s, t);
  }

  // ---- whole runs ----

  /** `states` is a run: it starts with the unlocked lock and each state follows by an enabled step. */
  ghost predicate IsRun(states: seq<System>, steps: seq<Step>) {
    && |states| == |steps| + 1 && states[0] == START
    && forall i :: 0 <= i < |steps| ==> Enabled(states[i], steps[i]) && states[i + 1] == Apply(states[i], steps[i])
  }

  lemma {:induction false} Reached(states: seq<System>, steps: seq<Step>, n: nat)
    requires IsRun(states, steps) && n <= |steps|
    ensures Inv(states[n])
  {
    if n > 0 {
      Reached(states, steps, n - 1);
      StepOk(states[n - 1], steps[n - 1]);
    }
  }

  /** In every state of every run of any number of threads: never a writer beside readers or a
      second writer; the recursion count is positive exactly when there is an owner and counts that
      owner's acquisitions; no reader sleeps while no writer holds the lock; and a free lock with a
      sleeping writer has a woken writer. */
  lemma Safe(states: seq<System>, steps: seq<Step>, n: nat)
    requires IsRun(states, steps) && n <= |steps|
    ensures states[n].readers == multiset{} || states[n].writers == multiset{}
    ensures forall t, u :: t in states[n].writers && u in states[n].writers ==> t == u
    ensures states[n].k.recursion > 0 <==> states[n].k.owner != NO_THREAD
    ensures states[n].k.owner != NO_THREAD ==> states[n].writers[states[n].k.owner] == states[n].k.recursion
    ensures states[n].writers == multiset{} ==> states[n].sleepingReaders == {}
    ensures Free(states[n]) && states[n].sleepingWriters != {} ==> states[n].wokenWriters != {}
  {
    Reached(states, steps, n);
    OneWriter(states[n]);
  }

  lemma OneWriter(s: System)
    requires Accounts(s.k, s.readers, s.writers)
    ensures s.k.owner != NO_THREAD ==> s.writers[s.k.owner] == |s.writers|
    ensures s.k.recursion > 0 <==> s.k.owner != NO_THREAD
  {
    var w := s.writers - multiset{}[s.k.owner := s.writers[s.k.owner]];
    assert forall t :: w[t] == 0;
    assert w == multiset{};
    assert s.writers == multiset{}[s.k.owner := s.writers[s.k.owner]];
    assert s.writers == multiset{} <==> |s.writers| == 0;
  }

  lemma Pick(ts: set<int>) returns (t: int)
    requires ts != {}
    ensures t in ts
  {
    assert (forall u :: u !in ts) ==> ts == {};
    t :| t in ts;
  }

  /** No thread waits for ever on a free lock: whenever nobody holds the lock and somebody waits for
      it, some woken thread acquires it as soon as it runs. */
  lemma Progress(states: seq<System>, steps: seq<Step>, n: nat) returns (st: Step)
    requires IsRun(states, steps) && n <= |steps| && Free(states[n])
    requires states[n].sleepingReaders != {} || states[n].sleepingWriters != {}
      || states[n].wokenReaders != {} || states[n].wokenWriters != {}
    ensures Enabled(states[n], st) && !Free(Apply(states[n], st))
  {
    var s := states[n];
    Reached(states, steps, n);
    if s.wokenWriters != {} {
      var t := Pick(s.wokenWriters);
      st := Resume(t);
      assert t in Apply(s, st).writers;
    } else {
      assert s.wokenReaders != {};
      var t := Pick(s.wokenReaders);
      st := ResumeShared(t);
      assert t in Apply(s, st).readers;
    }
  }

  /** The lock is recursive: its owner locks again without waiting, and only the matching number of
      unlocks frees it. */
  lemma Recursive(states: seq<System>, steps: seq<Step>, n: nat, t: int, chosen: int)
    requires IsRun(states, steps) && n <= |steps| && t in states[n].writers && Running(states[n], t)
    ensures Apply(states[n], Step.Lock(t)) ==
      states[n].(k := states[n].k.(recursion := states[n].k.recursion + 1), writers := states[n].writers + multiset{t})
    ensures Apply(states[n], Step.Unlock(t, chosen)).k.owner == NO_THREAD <==> states[n].writers == multiset{t}
  {
    Reached(states, steps, n);
    OneWriter(states[n]);
    assert states[n].writers[t] == 1 ==> states[n].writers == multiset{t} by {
      if states[n].writers[t] == 1 {
        assert forall u :: states[n].writers[u] == multiset{t}[u];
      }
    }
  }

  /** A reader that waits for the write lock. */
  ghost predicate Upgrading(s: System, t: int) {
    t in s.readers && (t in s.sleepingWriters || t in s.wokenWriters)
  }

  lemma UpgradingStep(s: System, st: Step, t: int)
    requires Inv(s) && Enabled(s, st) && Upgrading(s, t)
    ensures Upgrading(Apply(s, st), t)
  {
    assert s.k.shared > 0 && s.k.owner != t;
  }

  /** The lock cannot be upgraded: a thread that holds a shared lock and asks for the write lock
      waits in every later state of the run, whatever the other threads do. */
  lemma {:induction false} UpgradeDeadlocks(states: seq<System>, steps: seq<Step>, n: nat, m: nat, t: int)
    requires IsRun(states, steps) && n < m <= |steps| && steps[n] == Step.Lock(t) && t in states[n].readers
    ensures Upgrading(states[m], t)
    decreases m
  {
    if m == n + 1 {
      Reached(states, steps, n);
      assert states[n].k.shared > 0;
    } else {
      UpgradeDeadlocks(states, steps, n, m - 1, t);
      Reached(states, steps, m - 1);
      UpgradingStep(states[m - 1], steps[m - 1], t);
    }
  }

  /** A writer that waits for a shared lock. */
  ghost predicate Downgrading(s: System, t: int) {
    t in s.writers && (t in s.sleepingReaders || t in s.wokenReaders)
  }

  lemma DowngradingStep(s: System, st: Step, t: int)
    requires Inv(s) && Enabled(s, st) && Downgrading(s, t)
    ensures Downgrading(Apply(s, st), t)
  {
    assert s.k.exclusive > 0 && s.k.owner == t;
  }

  /** Nor does the owner get a shared lock: `lock_shared` does not look at the owner, so the writer
      that calls it waits in every later state of the run, and `try_lock_shared` refuses it. */
  lemma {:induction false} OwnerDeadlocks(states: seq<System>, steps: seq<Step>, n: nat, m: nat, t: int)
    requires IsRun(states, steps) && n < m <= |steps| && t in states[n].writers
    ensures steps[n] == Step.LockShared(t) ==> Downgrading(states[m], t)
    ensures steps[n] == TryShared(t) ==> states[n + 1] == states[n]
    decreases m
  {
    if m == n + 1 {
      Reached(states, steps, n);
      assert states[n].k.exclusive > 0;
    } else {
      OwnerDeadlocks(states, steps, n, m - 1, t);
      if steps[n] == Step.LockShared(t) {
        Reached(states, steps, m - 1);
        DowngradingStep(states[m - 1], steps[m - 1], t);
      }
    }
  }
}
