/** The writer-preferring read/write lock (aodbm_rwlock.c), for any number of threads.  Every stretch
    of code between taking the mutex and giving it up, in pthread_mutex_unlock or in
    pthread_cond_wait, is one step. */
module RwLock {
  /** Where a thread is: asleep on the condition variable, or woken and about to test its wait
      condition again, or holding the lock, or none of these. */
  datatype Phase = Idle | ReaderAsleep | ReaderAwake | WriterAsleep | WriterAwake | Reading | Writing

  /** The three counters, and the phase of every thread. */
  datatype State = State(readers: nat, isWriting: bool, writersWaiting: nat, threads: map<nat, Phase>)

  datatype Action =
    | RdLock(t: nat)    // aodbm_rwlock_rdlock up to its first wait, or to its end
    | RdRetry(t: nat)   // aodbm_rwlock_rdlock after a wait
    | WrLock(t: nat)    // aodbm_rwlock_wrlock up to its first wait, or to its end
    | WrRetry(t: nat)   // aodbm_rwlock_wrlock after a wait
    | Unlock(t: nat)
    | TryRdLock(t: nat)
    | TryWrLock(t: nat)
    | Wake(t: nat)      // a spurious return of pthread_cond_wait

  ghost function Woken(phase: Phase): Phase {
    match phase
    case ReaderAsleep => ReaderAwake
    case WriterAsleep => WriterAwake
    case _ => phase
  }

  /** pthread_cond_broadcast */
  ghost function Broadcast(threads: map<nat, Phase>): map<nat, Phase> {
    map t | t in threads :: Woken(threads[t])
  }

  ghost predicate ReaderWaits(s: State) {
    s.isWriting || s.writersWaiting != 0
  }

  ghost predicate WriterWaits(s: State) {
    s.readers != 0 || s.isWriting
  }

  /** Each thread calls what it may: it takes the lock when it holds nothing, and gives up what it holds.
      The code does not test writersWaiting in WrRetry; the condition is there so that the subtraction is
      defined, and Inv implies it (HolderCounted), so it stops no thread in a reachable state. */
  ghost predicate Enabled(s: State, a: Action) {
    a.t in s.threads &&
    match a
    case RdLock(t) => s.threads[t] == Idle
    case RdRetry(t) => s.threads[t] == ReaderAwake
    case WrLock(t) => s.threads[t] == Idle
    case WrRetry(t) => s.threads[t] == WriterAwake && s.writersWaiting > 0
    case Unlock(t) => s.threads[t] == Reading || s.threads[t] == Writing
    case TryRdLock(t) => s.threads[t] == Idle
    case TryWrLock(t) => s.threads[t] == Idle
    case Wake(t) => s.threads[t] == ReaderAsleep || s.threads[t] == WriterAsleep
  }

  ghost function ReaderTest(s: State, t: nat): State {
    if ReaderWaits(s) then s.(threads := s.threads[t := ReaderAsleep])
    else s.(readers := s.readers + 1, threads := s.threads[t := Reading])
  }

  ghost function WriterTest(s: State, t: nat): State
    requires s.writersWaiting > 0
  {
    if WriterWaits(s) then s.(threads := s.threads[t := WriterAsleep])
    else s.(isWriting := true, writersWaiting := s.writersWaiting - 1, threads := s.threads[t := Writing])
  }

  ghost function After(s: State, a: Action): State
    requires Enabled(s, a)
  {
    match a
    case RdLock(t) => ReaderTest(s, t)
    case RdRetry(t) => ReaderTest(s, t)
    case WrLock(t) => WriterTest(s.(writersWaiting := s.writersWaiting + 1), t)
    case WrRetry(t) => WriterTest(s, t)
    case Unlock(t) =>
      var idle := s.threads[t := Idle];
      if s.isWriting then s.(isWriting := false, threads := Broadcast(idle))
      else if s.readers > 1 then s.(readers := s.readers - 1, threads := idle)
      else if s.readers == 1 then s.(readers := 0, threads := Broadcast(idle))
      else s
    case TryRdLock(t) =>
      if ReaderWaits(s) then s else s.(readers := s.readers + 1, threads := s.threads[t := Reading])
    case TryWrLock(t) =>
      if WriterWaits(s) then s else s.(isWriting := true, threads := s.threads[t := Writing])
    case Wake(t) =>
      s.(threads := s.threads[t := if s.threads[t] == ReaderAsleep then ReaderAwake else WriterAwake])
  }

  // ----- The invariant

  ghost function Who(threads: map<nat, Phase>, phases: set<Phase>): set<nat> {
    set t | t in threads && threads[t] in phases
  }

  /** The counters are the numbers of threads that they stand for; a writer excludes everyone else; and
      a thread that is asleep has reason to be, so no wakeup is ever lost. */
  ghost predicate Inv(s: State) {
    && s.readers == |Who(s.threads, {Reading})|
    && (if s.isWriting then 1 else 0) == |Who(s.threads, {Writing})|
    && s.writersWaiting == |Who(s.threads, {WriterAsleep, WriterAwake})|
    && (s.isWriting ==> s.readers == 0)
    && (forall t :: t in s.threads && s.threads[t] == ReaderAsleep ==> ReaderWaits(s))
    && (forall t :: t in s.threads && s.threads[t] == WriterAsleep ==> WriterWaits(s))
  }

  lemma WhoUpdate(threads: map<nat, Phase>, t: nat, phase: Phase, phases: set<Phase>)
    requires t in threads
    ensures Who(threads[t := phase], phases) ==
      if phase in phases then Who(threads, phases) + {t} else Who(threads, phases) - {t}
    ensures t in Who(threads, phases) <==> threads[t] in phases
  {
  }

  lemma WhoBroadcast(threads: map<nat, Phase>)
    ensures Broadcast(threads).Keys == threads.Keys
    ensures Who(Broadcast(threads), {Reading}) == Who(threads, {Reading})
    ensures Who(Broadcast(threads), {Writing}) == Who(threads, {Writing})
    ensures Who(Broadcast(threads), {WriterAsleep, WriterAwake}) == Who(threads, {WriterAsleep, WriterAwake})
    ensures forall t :: t in threads ==> Broadcast(threads)[t] != ReaderAsleep && Broadcast(threads)[t] != WriterAsleep
  {
  }

  lemma CountUpdate(s: State, t: nat, phase: Phase)
    requires t in s.threads
    ensures var now := s.threads[t := phase];
      && |Who(now, {Reading})| == |Who(s.threads, {Reading})|
           - (if s.threads[t] == Reading then 1 else 0) + (if phase == Reading then 1 else 0)
      && |Who(now, {Writing})| == |Who(s.threads, {Writing})|
           - (if s.threads[t] == Writing then 1 else 0) + (if phase == Writing then 1 else 0)
      && |Who(now, {WriterAsleep, WriterAwake})| == |Who(s.threads, {WriterAsleep, WriterAwake})|
           - (if s.threads[t] in {WriterAsleep, WriterAwake} then 1 else 0)
           + (if phase in {WriterAsleep, WriterAwake} then 1 else 0)
  {
    WhoUpdate(s.threads, t, phase, {Reading});
    WhoUpdate(s.threads, t, phase, {Writing});
    WhoUpdate(s.threads, t, phase, {WriterAsleep, WriterAwake});
  }

  /** Every step keeps the invariant. */
  lemma StepKeepsInv(s: State, a: Action)
    requires Inv(s) && Enabled(s, a)
    ensures Inv(After(s, a)) && After(s, a).threads.Keys == s.threads.Keys
  {
    hide Who, Broadcast;
    var s' := After(s, a);
    HolderCounted(s, a.t);
    if a.Unlock? {
      CountUpdate(s, a.t, Idle);
      WhoBroadcast(s.threads[a.t := Idle]);
    } else if s'.threads != s.threads {
      CountUpdate(s, a.t, s'.threads[a.t]);
    }
  }

  /** A thread that holds the lock is counted. */
  lemma HolderCounted(s: State, t: nat)
    requires Inv(s) && t in s.threads
    ensures s.threads[t] == Reading ==> s.readers > 0 && !s.isWriting
    ensures s.threads[t] == Writing ==> s.isWriting
    ensures s.threads[t] in {WriterAsleep, WriterAwake} ==> s.writersWaiting > 0
  {
    assert s.threads[t] == Reading ==> t in Who(s.threads, {Reading});
    assert s.threads[t] == Writing ==> t in Who(s.threads, {Writing});
    assert s.threads[t] in {WriterAsleep, WriterAwake} ==> t in Who(s.threads, {WriterAsleep, WriterAwake});
  }

  // ----- What the steps mean, in terms of the threads alone

  /** Some thread is in one of these phases. */
  ghost predicate Any(threads: map<nat, Phase>, phases: set<Phase>) {
    exists t :: t in threads && threads[t] in phases
  }

  lemma AnyCounted(s: State)
    requires Inv(s)
    ensures Any(s.threads, {Reading}) <==> s.readers > 0
    ensures Any(s.threads, {Writing}) <==> s.isWriting
    ensures Any(s.threads, {WriterAsleep, WriterAwake}) <==> s.writersWaiting > 0
  {
    hide Inv;
    SomeWho(s.threads, {Reading});
    SomeWho(s.threads, {Writing});
    SomeWho(s.threads, {WriterAsleep, WriterAwake});
    CountsOf(s);
  }

  lemma CountsOf(s: State)
    requires Inv(s)
    ensures s.readers == |Who(s.threads, {Reading})|
    ensures s.writersWaiting == |Who(s.threads, {WriterAsleep, WriterAwake})|
    ensures (s.isWriting <==> |Who(s.threads, {Writing})| > 0) && (s.isWriting ==> s.readers == 0)
  {
  }

  lemma SomeWho(threads: map<nat, Phase>, phases: set<Phase>)
    ensures Any(threads, phases) <==> |Who(threads, phases)| > 0
  {
    var who := Who(threads, phases);
    if who != {} {
      var t :| t in who;
    }
    if t :| t in threads && threads[t] in phases {
      assert t in who;
    }
  }

  ghost predicate Reader(a: Action) {
    a.RdLock? || a.RdRetry? || a.TryRdLock?
  }

  ghost predicate Writer(a: Action) {
    a.WrLock? || a.WrRetry? || a.TryWrLock?
  }

  /** Who is admitted: a reader exactly when no thread writes or waits to write, so readers share the lock
      and give way to waiting writers; a writer exactly when no thread reads or writes.  Who is not
      admitted sleeps, or goes on without the lock after a mere try. */
  lemma Admission(s: State, a: Action)
    requires Inv(s) && Enabled(s, a)
    ensures Reader(a) ==>
      After(s, a).threads[a.t] ==
        if !Any(s.threads, {Writing, WriterAsleep, WriterAwake}) then Reading
        else if a.TryRdLock? then Idle else ReaderAsleep
    ensures Writer(a) ==>
      After(s, a).threads[a.t] ==
        if !Any(s.threads, {Reading, Writing}) then Writing
        else if a.TryWrLock? then Idle else WriterAsleep
    ensures a.Unlock? ==> After(s, a).threads[a.t] == Idle
  {
    hide Inv;
    AnyCounted(s);
    AnyUnion(s.threads, {Writing}, {WriterAsleep, WriterAwake}, {Writing, WriterAsleep, WriterAwake});
    AnyUnion(s.threads, {Reading}, {Writing}, {Reading, Writing});
    HolderCounted(s, a.t);
  }

  lemma AnyUnion(threads: map<nat, Phase>, a: set<Phase>, b: set<Phase>, c: set<Phase>)
    requires a + b == c
    ensures Any(threads, c) <==> Any(threads, a) || Any(threads, b)
  {
    if t :| t in threads && threads[t] in c {
      assert threads[t] in a || threads[t] in b;
    }
    if t :| t in threads && threads[t] in a {
      assert threads[t] in c;
    }
    if t :| t in threads && threads[t] in b {
      assert threads[t] in c;
    }
  }

  /** What a step does to the other threads: nothing, except that giving the lock up wakes all that sleep
      when no other thread reads. */
  lemma OthersKept(s: State, a: Action, u: nat)
    requires Inv(s) && Enabled(s, a) && u in s.threads && u != a.t
    ensures After(s, a).threads.Keys == s.threads.Keys
    ensures After(s, a).threads[u] ==
      if a.Unlock? && !Any(s.threads - {a.t}, {Reading}) then Woken(s.threads[u]) else s.threads[u]
  {
    hide Inv;
    if a.Unlock? {
      HolderCounted(s, a.t);
      OthersReading(s, a.t);
      CountsOf(s);
    }
  }

  lemma AllOthersKept(s: State, a: Action)
    requires Inv(s) && Enabled(s, a)
    ensures forall u :: u in s.threads && u != a.t ==>
      && u in After(s, a).threads
      && After(s, a).threads[u] ==
        if a.Unlock? && !Any(s.threads - {a.t}, {Reading}) then Woken(s.threads[u]) else s.threads[u]
  {
    hide Inv, After, Enabled, Any, Woken;
    forall u | u in s.threads && u != a.t
      ensures u in After(s, a).threads
      ensures After(s, a).threads[u] ==
        if a.Unlock? && !Any(s.threads - {a.t}, {Reading}) then Woken(s.threads[u]) else s.threads[u]
    {
      OthersKept(s, a, u);
    }
  }

  lemma OthersReading(s: State, t: nat)
    requires Inv(s) && t in s.threads && (s.threads[t] == Reading || s.threads[t] == Writing)
    ensures Any(s.threads - {t}, {Reading}) <==> s.readers > if s.threads[t] == Reading then 1 else 0
  {
    var rest := s.threads - {t};
    assert Who(rest, {Reading}) == Who(s.threads, {Reading}) - {t};
    assert t in Who(s.threads, {Reading}) <==> s.threads[t] == Reading;
    SomeWho(rest, {Reading});
  }

  // ----- Runs

  ghost predicate Run(ss: seq<State>, acts: seq<Action>) {
    && |ss| == |acts| + 1
    && ss[0].readers == 0 && !ss[0].isWriting && ss[0].writersWaiting == 0
    && (forall t :: t in ss[0].threads ==> ss[0].threads[t] == Idle)
    && forall i :: 0 <= i < |acts| ==> Enabled(ss[i], acts[i]) && ss[i + 1] == After(ss[i], acts[i])
  }

  lemma {:induction false} RunKeepsInv(ss: seq<State>, acts: seq<Action>, i: nat)
    requires Run(ss, acts) && i < |ss|
    ensures Inv(ss[i])
  {
    if i == 0 {
      assert Who(ss[0].threads, {Reading}) == {};
      assert Who(ss[0].threads, {Writing}) == {};
      assert Who(ss[0].threads, {WriterAsleep, WriterAwake}) == {};
    } else {
      RunKeepsInv(ss, acts, i - 1);
      StepKeepsInv(ss[i - 1], acts[i - 1]);
    }
  }

  /** Mutual exclusion: in every reachable state, whoever writes holds the lock alone. */
  lemma MutualExclusion(ss: seq<State>, acts: seq<Action>, i: nat, t: nat, u: nat)
    requires Run(ss, acts) && i < |ss| && t in ss[i].threads && u in ss[i].threads && t != u
    ensures ss[i].threads[t] == Writing ==> ss[i].threads[u] != Writing && ss[i].threads[u] != Reading
  {
    RunKeepsInv(ss, acts, i);
    var s := ss[i];
    HolderCounted(s, t);
    HolderCounted(s, u);
    if s.threads[t] == Writing && s.threads[u] == Writing {
      assert {t, u} <= Who(s.threads, {Writing});
      SubsetSize({t, u}, Who(s.threads, {Writing}));
    }
  }

  /** A thread that holds the lock goes on holding it until it unlocks. */
  lemma {:induction false} HolderKeeps(ss: seq<State>, acts: seq<Action>, i: nat, j: nat, t: nat)
    requires Run(ss, acts) && i <= j < |ss| && t in ss[i].threads && ss[i].threads[t] in {Reading, Writing}
    requires forall k :: i <= k < j ==> acts[k] != Unlock(t)
    ensures t in ss[j].threads && ss[j].threads[t] == ss[i].threads[t]
    decreases j
  {
    hide Inv;
    if i < j {
      HolderKeeps(ss, acts, i, j - 1, t);
      RunKeepsInv(ss, acts, j - 1);
      var s, a := ss[j - 1], acts[j - 1];
      assert Enabled(s, a) && ss[j] == After(s, a) && a != Unlock(t);
      assert a.t != t;
      OthersKept(s, a, t);
    }
  }

  lemma SubsetSize(a: set<nat>, b: set<nat>)
    requires a <= b
    ensures |a| <= |b|
  {
    assert b == a + (b - a);
  }

  /** A waiter that can take the lock at once. */
  ghost predicate CanEnter(s: State, a: Action) {
    && (a.RdRetry? || a.WrRetry?) && Enabled(s, a)
    && After(s, a).threads[a.t] in {Reading, Writing}
  }

  /** Progress: in every reachable state in which nobody holds the lock and somebody waits for it, some
      waiter is awake and enters at its next step. */
  lemma Progress(ss: seq<State>, acts: seq<Action>, i: nat, t: nat)
    requires Run(ss, acts) && i < |ss| && t in ss[i].threads
    requires forall u :: u in ss[i].threads ==> ss[i].threads[u] != Reading && ss[i].threads[u] != Writing
    requires ss[i].threads[t] in {ReaderAsleep, ReaderAwake, WriterAsleep, WriterAwake}
    ensures exists a :: CanEnter(ss[i], a)
  {
    RunKeepsInv(ss, acts, i);
    var s := ss[i];
    assert Who(s.threads, {Reading}) == {} && Who(s.threads, {Writing}) == {};
    if s.writersWaiting > 0 {
      var w :| w in Who(s.threads, {WriterAsleep, WriterAwake});
      assert CanEnter(s, WrRetry(w));
    } else {
      HolderCounted(s, t);
      assert CanEnter(s, RdRetry(t));
    }
  }

  /** Some writer that waited takes the lock. */
  ghost predicate WaiterAcquires(s: State, a: Action) {
    a.WrRetry? && Enabled(s, a) && After(s, a).threads[a.t] == Writing
  }

  /** Writer preference: from the moment a writer is counted as waiting until a waiting writer takes the
      lock, no reader is let in, whatever the other threads do. */
  lemma {:induction false} WriterPreference(ss: seq<State>, acts: seq<Action>, i: nat, j: nat)
    requires Run(ss, acts) && i <= j < |ss| && ss[i].writersWaiting > 0
    requires forall k :: i <= k < j ==> !WaiterAcquires(ss[k], acts[k])
    ensures ss[j].writersWaiting >= ss[i].writersWaiting
    ensures Who(ss[j].threads, {Reading}) <= Who(ss[i].threads, {Reading})
    ensures ss[j].readers <= ss[i].readers
    decreases j
  {
    RunKeepsInv(ss, acts, i);
    RunKeepsInv(ss, acts, j);
    if i < j {
      WriterPreference(ss, acts, i, j - 1);
      var s, a := ss[j - 1], acts[j - 1];
      assert Enabled(s, a) && ss[j] == After(s, a) && !WaiterAcquires(s, a);
      NoReaderEnters(s, a);
    }
    SubsetSize(Who(ss[j].threads, {Reading}), Who(ss[i].threads, {Reading}));
  }

  lemma NoReaderEnters(s: State, a: Action)
    requires Enabled(s, a) && s.writersWaiting > 0 && !WaiterAcquires(s, a)
    ensures After(s, a).writersWaiting >= s.writersWaiting
    ensures Who(After(s, a).threads, {Reading}) <= Who(s.threads, {Reading})
  {
    if a.Unlock? {
      WhoBroadcast(s.threads[a.t := Idle]);
    }
  }

  // ----- The code

  /** aodbm_rwlock_t.  The ghost field says which phase each thread is in; the methods are the critical
      sections of the functions, run by thread t while it holds the mutex. */
  class Lock {
    var readers: nat
    var isWriting: bool
    var writersWaiting: nat
    ghost var threads: map<nat, Phase>

    ghost function Abs(): State
      reads this
    {
      State(readers, isWriting, writersWaiting, threads)
    }

    /** aodbm_rwlock_init */
    constructor (ghost ids: set<nat>)
      ensures Inv(Abs()) && readers == 0 && !isWriting && writersWaiting == 0
      ensures threads == map t | t in ids :: Idle
    {
      readers, isWriting, writersWaiting := 0, false, 0;
      threads := map t | t in ids :: Idle;
      new;
      assert Who(threads, {Reading}) == {};
      assert Who(threads, {Writing}) == {};
      assert Who(threads, {WriterAsleep, WriterAwake}) == {};
    }

    /** aodbm_rwlock_rdlock, from taking or retaking the mutex to its end or its next wait. */
    method RdLockSection(ghost t: nat, ghost retry: bool) returns (entered: bool)
      requires Inv(Abs()) && Enabled(Abs(), if retry then RdRetry(t) else RdLock(t))
      modifies this
      ensures Inv(Abs()) && Abs() == After(old(Abs()), if retry then RdRetry(t) else RdLock(t))
      ensures entered <==> threads[t] == Reading
      ensures var was := old(threads);
        && (entered <==> !Any(was, {Writing, WriterAsleep, WriterAwake})) && (!entered ==> threads[t] == ReaderAsleep)
        && forall u :: u in was && u != t ==> u in threads && threads[u] == was[u]
    {
      StepKeepsInv(Abs(), if retry then RdRetry(t) else RdLock(t));
      Admission(Abs(), if retry then RdRetry(t) else RdLock(t));
      AllOthersKept(Abs(), if retry then RdRetry(t) else RdLock(t));
      if isWriting || writersWaiting != 0 {
        threads := threads[t := ReaderAsleep];
        return false;
      }
      readers := readers + 1;
      threads := threads[t := Reading];
      return true;
    }

    /** aodbm_rwlock_wrlock, likewise. */
    method WrLockSection(ghost t: nat, retry: bool) returns (entered: bool)
      requires Inv(Abs()) && Enabled(Abs(), if retry then WrRetry(t) else WrLock(t))
      modifies this
      ensures Inv(Abs()) && Abs() == After(old(Abs()), if retry then WrRetry(t) else WrLock(t))
      ensures entered <==> threads[t] == Writing
      ensures var was := old(threads);
        && (entered <==> !Any(was, {Reading, Writing})) && (!entered ==> threads[t] == WriterAsleep)
        && forall u :: u in was && u != t ==> u in threads && threads[u] == was[u]
    {
      StepKeepsInv(Abs(), if retry then WrRetry(t) else WrLock(t));
      Admission(Abs(), if retry then WrRetry(t) else WrLock(t));
      AllOthersKept(Abs(), if retry then WrRetry(t) else WrLock(t));
      if !retry {
        writersWaiting := writersWaiting + 1;
      }
      if readers != 0 || isWriting {
        threads := threads[t := WriterAsleep];
        return false;
      }
      isWriting := true;
      writersWaiting := writersWaiting - 1;
      threads := threads[t := Writing];
      return true;
    }

    /** aodbm_rwlock_unlock by a thread that holds the lock; it never finds the lock free. */
    method UnlockSection(ghost t: nat) returns (ok: bool)
      requires Inv(Abs()) && Enabled(Abs(), Unlock(t))
      modifies this
      ensures ok && Inv(Abs()) && Abs() == After(old(Abs()), Unlock(t))
      ensures threads[t] == Idle
      ensures var was := old(threads);
        forall u :: u in was && u != t ==>
          u in threads && threads[u] == if Any(was - {t}, {Reading}) then was[u] else Woken(was[u])
    {
      StepKeepsInv(Abs(), Unlock(t));
      Admission(Abs(), Unlock(t));
      AllOthersKept(Abs(), Unlock(t));
      HolderCounted(Abs(), t);
      ok := true;
      threads := threads[t := Idle];
      if isWriting {
        isWriting := false;
        threads := Broadcast(threads);
      } else if readers > 0 {
        readers := readers - 1;
        if readers == 0 {
          threads := Broadcast(threads);
        }
      } else {
        ok := false;
      }
    }

    /** aodbm_rwlock_tryrdlock */
    method TryRdLockSection(ghost t: nat) returns (result: bool)
      requires Inv(Abs()) && Enabled(Abs(), TryRdLock(t))
      modifies this
      ensures Inv(Abs()) && Abs() == After(old(Abs()), TryRdLock(t))
      ensures result <==> threads[t] == Reading
      ensures var was := old(threads);
        && (result <==> !Any(was, {Writing, WriterAsleep, WriterAwake})) && (!result ==> threads[t] == Idle)
        && forall u :: u in was && u != t ==> u in threads && threads[u] == was[u]
    {
      StepKeepsInv(Abs(), TryRdLock(t));
      Admission(Abs(), TryRdLock(t));
      AllOthersKept(Abs(), TryRdLock(t));
      result := !isWriting && writersWaiting == 0;
      if result {
        readers := readers + 1;
        threads := threads[t := Reading];
      }
    }

    /** aodbm_rwlock_trywrlock */
    method TryWrLockSection(ghost t: nat) returns (result: bool)
      requires Inv(Abs()) && Enabled(Abs(), TryWrLock(t))
      modifies this
      ensures Inv(Abs()) && Abs() == After(old(Abs()), TryWrLock(t))
      ensures result <==> threads[t] == Writing
      ensures var was := old(threads);
        && (result <==> !Any(was, {Reading, Writing})) && (!result ==> threads[t] == Idle)
        && forall u :: u in was && u != t ==> u in threads && threads[u] == was[u]
    {
      StepKeepsInv(Abs(), TryWrLock(t));
      Admission(Abs(), TryWrLock(t));
      AllOthersKept(Abs(), TryWrLock(t));
      result := readers == 0 && !isWriting;
      if result {
        isWriting := true;
        threads := threads[t := Writing];
      }
    }
  }
}
