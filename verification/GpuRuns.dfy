/** Interleaved runs of the GPU insertion, and the order of insertions each of them amounts to. */
module GpuRuns {
  import opened Bytes
  import opened Gpu
  import I = Items

  type Locks = l: seq<nat> | |l| == LOCKS witness seq(LOCKS, _ => 0)

  datatype System = System(table: Table, mutex: Locks, threads: seq<Thread>)

  /** A thread about to insert an item with counter 1. */
  function Starting(hash: nat -> nat, key: nat, ts: nat): (t: Thread)
    ensures Sound(t)
  {
    Thread(Try, hash(key) % FIRST, key, 1, ts, 0, TRIES, 0, 0, 0)
  }

  ghost predicate AllSound(threads: seq<Thread>) {
    forall i | 0 <= i < |threads| :: Sound(threads[i])
  }

  /** Thread i makes its next access: a compare-and-swap on its lock, an access inside, or the release. */
  function Step(st: System, i: nat): System
    requires i < |st.threads| && Sound(st.threads[i])
  {
    var t := st.threads[i];
    var lock := LockOf(t.home);
    if t.pc == Try then
      if t.tries == 0 then st.(threads := st.threads[i := t.(pc := GaveUp)])
      else if st.mutex[lock] == 0 then
        System(st.table, st.mutex[lock := 1], st.threads[i := t.(pc := ReadFreq, tries := t.tries - 1)])
      else st.(threads := st.threads[i := t.(tries := t.tries - 1)])
    else if t.pc == Release then System(st.table, st.mutex[lock := 0], st.threads[i := t.(pc := Done)])
    else if InCs(t) then
      var e := Access(st.table, t);
      System(e.table, st.mutex, st.threads[i := e.t])
    else st
  }

  lemma StepSound(st: System, i: nat)
    requires i < |st.threads| && AllSound(st.threads)
    ensures AllSound(Step(st, i).threads) && |Step(st, i).threads| == |st.threads|
  {
    var t := st.threads[i];
    if InCs(t) && t.pc != Release { AccessAdvances(st.table, t); }
  }

  /** The system after threads took their steps in the order of a schedule. */
  function Interleave(st: System, schedule: seq<nat>): (st': System)
    requires AllSound(st.threads) && forall j | 0 <= j < |schedule| :: schedule[j] < |st.threads|
    ensures AllSound(st'.threads) && |st'.threads| == |st.threads|
  {
    if schedule == [] then st
    else
      var before := Interleave(st, schedule[..|schedule| - 1]);
      StepSound(before, schedule[|schedule| - 1]);
      Step(before, schedule[|schedule| - 1])
  }

  /** The insertions of `log`, one after the other. */
  function Sequential(table: Table, jobs: seq<Thread>, log: seq<nat>): Table
    requires AllSound(jobs) && forall j | 0 <= j < |log| :: log[j] < |jobs|
  {
    if log == [] then table
    else
      var t := jobs[log[|log| - 1]];
      InsertAlone(Sequential(table, jobs, log[..|log| - 1]), t.home, 0, t.key, t.freq, t.ts)
  }

  // ----- the invariant

  /** The table of a lock once its holder, if it has one, has finished. */
  function Settled(st: System, holder: map<nat, nat>, lock: nat): Table
    requires AllSound(st.threads) && (lock in holder ==> holder[lock] < |st.threads|)
  {
    if lock in holder then Finish(st.table, st.threads[holder[lock]]) else st.table
  }

  /** `holder` names the one thread inside the critical section of each lock that is taken. */
  ghost predicate Exclusive(st: System, holder: map<nat, nat>)
    requires AllSound(st.threads)
  {
    && (forall lock | lock in holder :: lock < LOCKS && holder[lock] < |st.threads|
                                        && InCs(st.threads[holder[lock]])
                                           && LockOf(st.threads[holder[lock]].home) == lock)
    && (forall i | 0 <= i < |st.threads| && InCs(st.threads[i]) ::
          LockOf(st.threads[i].home) in holder && holder[LockOf(st.threads[i].home)] == i)
    && (forall lock: nat | lock < LOCKS :: st.mutex[lock] == 0 <==> lock !in holder)
  }

  /** The log lists each thread that got its lock once; the others still carry their own item. */
  ghost predicate Logged(st: System, jobs: seq<Thread>, log: seq<nat>) {
    && NoDup(log) && AllLoggedAs(st.threads, jobs, log)
    && (forall j | 0 <= j < |log| :: log[j] < |jobs|)
  }

  ghost predicate AllLoggedAs(threads: seq<Thread>, jobs: seq<Thread>, log: seq<nat>) {
    |jobs| == |threads| && forall i: nat | i < |jobs| :: LoggedAs(threads[i], jobs[i], i in log)
  }

  predicate LoggedAs(t: Thread, job: Thread, inLog: bool) {
    (inLog <==> InCs(t) || t.pc == Done) && t.home == job.home && (t.pc == Try ==> SameJob(t, job))
  }

  predicate SameJob(t: Thread, job: Thread) {
    t.home == job.home && t.key == job.key && t.freq == job.freq && t.ts == job.ts && t.layer == 0
      && t.tries <= job.tries
  }

  /** Lock by lock, the table is on its way to what the log says. */
  ghost predicate Serial(st: System, holder: map<nat, nat>, goal: Table)
    requires AllSound(st.threads) && Exclusive(st, holder)
  {
    forall lock: nat | lock < LOCKS :: Agree(Settled(st, holder, lock), goal, lock)
  }

  lemma FinishAgrees(a: Table, b: Table, t: Thread, lock: nat)
    requires Sound(t) && LockOf(t.home) == lock && Agree(a, b, lock)
    ensures Agree(Finish(a, t), Finish(b, t), lock)
  {
    FinishLocal(a, b, t);
  }

  lemma AgreeTrans(a: Table, b: Table, c: Table, lock: nat)
    requires Agree(a, b, lock) && Agree(b, c, lock)
    ensures Agree(a, c, lock)
  {
  }

  /** An access inside the critical section. */
  lemma AccessKeepsSerial(st: System, holder: map<nat, nat>, goal: Table, i: nat)
    requires AllSound(st.threads) && Exclusive(st, holder) && Serial(st, holder, goal)
    requires i < |st.threads| && InCs(st.threads[i]) && st.threads[i].pc != Release
    ensures var st' := Step(st, i); AllSound(st'.threads) && Exclusive(st', holder) && Serial(st', holder, goal)
  {
    var st', t := Step(st, i), st.threads[i];
    StepSound(st, i);
    AccessAdvances(st.table, t);
    AccessLocal(st.table, st.table, t);
    OneAccess(st.table, t);
    forall lock: nat | lock < LOCKS ensures Agree(Settled(st', holder, lock), goal, lock) {
      assert Agree(Settled(st, holder, lock), goal, lock);
      if lock != LockOf(t.home) {
        assert Agree(st'.table, st.table, lock);
        if lock in holder {
          FinishAgrees(st'.table, st.table, st.threads[holder[lock]], lock);
        }
      }
    }
  }

  /** The release. */
  lemma ReleaseKeepsSerial(st: System, holder: map<nat, nat>, goal: Table, i: nat) returns (holder': map<nat, nat>)
    requires AllSound(st.threads) && Exclusive(st, holder) && Serial(st, holder, goal)
    requires i < |st.threads| && st.threads[i].pc == Release
    ensures var st' := Step(st, i); AllSound(st'.threads) && Exclusive(st', holder') && Serial(st', holder', goal)
  {
    var st', l := Step(st, i), LockOf(st.threads[i].home);
    holder' := map lock | lock in holder && lock != l :: holder[lock];
    StepSound(st, i);
    forall lock: nat | lock < LOCKS ensures Agree(Settled(st', holder', lock), goal, lock) {
      assert Agree(Settled(st, holder, lock), goal, lock);
    }
  }

  /** Taking the lock: from now on the thread's insertion counts as done. */
  lemma AcquireKeepsSerial(st: System, holder: map<nat, nat>, goal: Table, i: nat) returns (holder': map<nat, nat>)
    requires AllSound(st.threads) && Exclusive(st, holder) && Serial(st, holder, goal)
    requires i < |st.threads| && st.threads[i].pc == Try && st.threads[i].tries > 0
    requires st.mutex[LockOf(st.threads[i].home)] == 0 && st.threads[i].layer == 0
    ensures var st', t := Step(st, i), st.threads[i];
            AllSound(st'.threads) && Exclusive(st', holder')
            && Serial(st', holder', InsertAlone(goal, t.home, 0, t.key, t.freq, t.ts))
  {
    var st', t := Step(st, i), st.threads[i];
    var l, entered := LockOf(t.home), st'.threads[i];
    holder' := holder[l := i];
    StepSound(st, i);
    FinishIsInsert(st.table, entered);
    FinishIsInsert(goal, entered);
    var goal' := Finish(goal, entered);
    FinishLocal(goal, goal, entered);
    forall lock: nat | lock < LOCKS ensures Agree(Settled(st', holder', lock), goal', lock) {
      assert Agree(Settled(st, holder, lock), goal, lock);
      if lock == l {
        FinishAgrees(st.table, goal, entered, lock);
      } else {
        assert Settled(st', holder', lock) == Settled(st, holder, lock);
        AgreeTrans(Settled(st, holder, lock), goal, goal', lock);
      }
    }
  }

  /** Steps that touch neither table nor lock: a failed try, giving up, or nothing to do. */
  lemma IdleKeepsSerial(st: System, holder: map<nat, nat>, goal: Table, i: nat)
    requires AllSound(st.threads) && Exclusive(st, holder) && Serial(st, holder, goal)
    requires i < |st.threads| && !InCs(st.threads[i])
    requires st.threads[i].pc == Try && st.threads[i].tries > 0 ==> st.mutex[LockOf(st.threads[i].home)] != 0
    ensures var st' := Step(st, i); AllSound(st'.threads) && Exclusive(st', holder) && Serial(st', holder, goal)
    ensures Step(st, i).table == st.table && Step(st, i).mutex == st.mutex
  {
    var st' := Step(st, i);
    StepSound(st, i);
    forall lock: nat | lock < LOCKS ensures Agree(Settled(st', holder, lock), goal, lock) {
      assert Agree(Settled(st, holder, lock), goal, lock);
    }
  }

  ghost predicate Fresh(st: System, jobs: seq<Thread>) {
    st.threads == jobs && AllSound(jobs) && (forall lock: nat | lock < LOCKS :: st.mutex[lock] == 0)
    && forall i | 0 <= i < |jobs| :: jobs[i].pc == Try && jobs[i].layer == 0
  }

  /** Thread i takes its lock with its next step. */
  predicate Acquires(st: System, i: nat)
    requires i < |st.threads| && Sound(st.threads[i])
  {
    st.threads[i].pc == Try && st.threads[i].tries > 0 && st.mutex[LockOf(st.threads[i].home)] == 0
  }

  lemma LoggedStep(st: System, i: nat, job: Thread, inLog: bool)
    requires AllSound(st.threads) && i < |st.threads| && LoggedAs(st.threads[i], job, inLog)
    ensures LoggedAs(Step(st, i).threads[i], job, inLog || Acquires(st, i))
    ensures Acquires(st, i) ==> !inLog
  {
    var t := st.threads[i];
    if InCs(t) && t.pc != Release { AccessAdvances(st.table, t); }
  }

  lemma NoDupMore(log: seq<nat>, i: nat)
    requires NoDup(log) && i !in log
    ensures NoDup(log + [i])
  {
    assert (log + [i])[..|log|] == log;
  }

  lemma StepOthers(st: System, i: nat)
    requires AllSound(st.threads) && i < |st.threads|
    ensures |Step(st, i).threads| == |st.threads|
    ensures Step(st, i).threads == st.threads[i := Step(st, i).threads[i]]
  {
  }

  /** One thread has changed, and has been appended to the log if it now belongs there. */
  lemma LogKept(before: seq<Thread>, jobs: seq<Thread>, log: seq<nat>, i: nat, t: Thread, takes: bool)
    requires AllLoggedAs(before, jobs, log) && i < |before| && LoggedAs(t, jobs[i], i in log || takes)
    ensures AllLoggedAs(before[i := t], jobs, if takes then log + [i] else log)
  {
    var log' := if takes then log + [i] else log;
    forall j: nat | j < |jobs| ensures LoggedAs(before[i := t][j], jobs[j], j in log') {
      assert j in log' <==> j in log || (j == i && takes);
      assert LoggedAs(before[j], jobs[j], j in log);
    }
  }

  lemma LoggedNext(st: System, jobs: seq<Thread>, log: seq<nat>, i: nat)
    requires AllSound(st.threads) && AllLoggedAs(st.threads, jobs, log) && i < |st.threads|
    ensures AllLoggedAs(Step(st, i).threads, jobs, if Acquires(st, i) then log + [i] else log)
    ensures Acquires(st, i) ==> i !in log
  {
    assert LoggedAs(st.threads[i], jobs[i], i in log);
    LoggedStep(st, i, jobs[i], i in log);
    StepOthers(st, i);
    LogKept(st.threads, jobs, log, i, Step(st, i).threads[i], Acquires(st, i));
  }

  lemma LogNext(st: System, jobs: seq<Thread>, log: seq<nat>, i: nat)
    requires AllSound(st.threads) && Logged(st, jobs, log) && i < |st.threads|
    ensures Logged(Step(st, i), jobs, if Acquires(st, i) then log + [i] else log)
  {
    LoggedNext(st, jobs, log, i);
    if Acquires(st, i) { NoDupMore(log, i); }
  }

  /** Every interleaving, at every moment, is on its way to the table of the insertions in the order they got their
      lock. */
  lemma {:induction false} InterleavingIsSerial(st0: System, jobs: seq<Thread>, schedule: seq<nat>)
    returns (log: seq<nat>, holder: map<nat, nat>)
    requires Fresh(st0, jobs) && forall j | 0 <= j < |schedule| :: schedule[j] < |jobs|
    ensures var st := Interleave(st0, schedule);
            Logged(st, jobs, log) && Exclusive(st, holder) && Serial(st, holder, Sequential(st0.table, jobs, log))
  {
    if schedule == [] {
      log, holder := [], map[];
      forall lock: nat | lock < LOCKS ensures Agree(Settled(st0, holder, lock), st0.table, lock) {
      }
    } else {
      var i, rest := schedule[|schedule| - 1], schedule[..|schedule| - 1];
      log, holder := InterleavingIsSerial(st0, jobs, rest);
      var st := Interleave(st0, rest);
      var t, goal := st.threads[i], Sequential(st0.table, jobs, log);
      LogNext(st, jobs, log, i);
      assert LoggedAs(t, jobs[i], i in log);
      if Acquires(st, i) {
        holder := AcquireKeepsSerial(st, holder, goal, i);
        assert (log + [i])[..|log|] == log;
        log := log + [i];
      } else if t.pc == Release {
        holder := ReleaseKeepsSerial(st, holder, goal, i);
      } else if InCs(t) {
        AccessKeepsSerial(st, holder, goal, i);
      } else {
        IdleKeepsSerial(st, holder, goal, i);
      }
    }
  }

  /** Serializability: when all threads are through, the table is exactly the result of some sequential order of the
      insertions that got their lock, each once; a thread that gave up changed nothing, and all locks are free. */
  lemma Serializable(st0: System, jobs: seq<Thread>, schedule: seq<nat>) returns (log: seq<nat>)
    requires Fresh(st0, jobs) && forall j | 0 <= j < |schedule| :: schedule[j] < |jobs|
    requires forall i | 0 <= i < |jobs| :: !InCs(Interleave(st0, schedule).threads[i])
    ensures NoDup(log) && forall j | 0 <= j < |log| :: log[j] < |jobs|
    ensures forall i: nat | i < |jobs| :: i in log <==> Interleave(st0, schedule).threads[i].pc == Done
    ensures Interleave(st0, schedule).table == Sequential(st0.table, jobs, log)
    ensures forall lock: nat | lock < LOCKS :: Interleave(st0, schedule).mutex[lock] == 0
  {
    var holder;
    log, holder := InterleavingIsSerial(st0, jobs, schedule);
    forall i: nat | i < |jobs| ensures i in log <==> Interleave(st0, schedule).threads[i].pc == Done {
      assert LoggedAs(Interleave(st0, schedule).threads[i], jobs[i], i in log);
    }
    var st, goal := Interleave(st0, schedule), Sequential(st0.table, jobs, log);
    forall lock: nat | lock < LOCKS ensures lock !in holder && Agree(st.table, goal, lock) {
      assert Agree(Settled(st, holder, lock), goal, lock);
    }
    forall c | 0 <= c < CELLS ensures st.table[c] == goal[c] {
      assert Agree(st.table, goal, Owner(c));
    }
  }

  /** Whether thread i makes a compare-and-swap when thread s takes a step. */
  predicate Tries(st: System, s: nat, i: nat)
    requires i < |st.threads|
  {
    s == i && st.threads[i].pc == Try && st.threads[i].tries > 0
  }

  lemma StepTries(st: System, s: nat, i: nat)
    requires AllSound(st.threads) && s < |st.threads| && i < |st.threads|
    ensures |Step(st, s).threads| == |st.threads|
    ensures Step(st, s).threads[i].tries + (if Tries(st, s, i) then 1 else 0) == st.threads[i].tries
  {
  }

  /** A thread makes at most as many tries as it was given. */
  lemma {:induction false} TriesBounded(st0: System, jobs: seq<Thread>, schedule: seq<nat>, i: nat)
    requires Fresh(st0, jobs) && i < |jobs| && forall j | 0 <= j < |schedule| :: schedule[j] < |jobs|
    ensures Interleave(st0, schedule).threads[i].tries + Tried(st0, schedule, i) == jobs[i].tries
  {
    if schedule != [] {
      var rest := schedule[..|schedule| - 1];
      TriesBounded(st0, jobs, rest, i);
      StepTries(Interleave(st0, rest), schedule[|schedule| - 1], i);
    }
  }

  /** How many compare-and-swaps thread i made. */
  function Tried(st0: System, schedule: seq<nat>, i: nat): nat
    requires AllSound(st0.threads) && i < |st0.threads| && forall j | 0 <= j < |schedule| :: schedule[j] < |st0.threads|
  {
    if schedule == [] then 0
    else
      var rest := schedule[..|schedule| - 1];
      Tried(st0, rest, i) + if Tries(Interleave(st0, rest), schedule[|schedule| - 1], i) then 1 else 0
  }

  // ----- every thread comes to an end

  predicate Finished(t: Thread) {
    t.pc == Done || t.pc == GaveUp
  }

  /** Steps a thread may still take, at most: its tries, its accesses, and the release. */
  function Work(t: Thread): nat {
    if Finished(t) then 0 else if t.pc == Try then t.tries + 49 else Rank(t) + 1
  }

  /** Outside the critical section a thread is still at its first layer. */
  predicate AtStart(t: Thread) {
    t.pc == Try ==> t.layer == 0
  }

  lemma StepWorks(st: System, i: nat)
    requires AllSound(st.threads) && i < |st.threads| && AtStart(st.threads[i])
    ensures AtStart(Step(st, i).threads[i])
    ensures Work(Step(st, i).threads[i]) + 1 <= Work(st.threads[i])
            || Work(st.threads[i]) == 0 == Work(Step(st, i).threads[i])
  {
    var t := st.threads[i];
    if InCs(t) && t.pc != Release { AccessAdvances(st.table, t); }
  }

  /** How often a schedule serves thread i. */
  function Turns(schedule: seq<nat>, i: nat): nat {
    if schedule == [] then 0 else Turns(schedule[..|schedule| - 1], i) + if schedule[|schedule| - 1] == i then 1 else 0
  }

  /** Each turn lowers a thread's work by one at least, until there is none. */
  lemma {:induction false} WorkFalls(st0: System, jobs: seq<Thread>, schedule: seq<nat>, i: nat)
    requires Fresh(st0, jobs) && i < |jobs| && forall j | 0 <= j < |schedule| :: schedule[j] < |jobs|
    ensures var t := Interleave(st0, schedule).threads[i];
            AtStart(t) && (Work(t) + Turns(schedule, i) <= Work(jobs[i]) || Work(t) == 0)
  {
    if schedule != [] {
      var rest, s := schedule[..|schedule| - 1], schedule[|schedule| - 1];
      WorkFalls(st0, jobs, rest, i);
      if s == i { StepWorks(Interleave(st0, rest), i); }
    }
  }

  /** A thread that is served as often as it has work, 89 times for 40 tries, is through or has given up, whatever the
      others do. */
  lemma ServedFinish(st0: System, jobs: seq<Thread>, schedule: seq<nat>, i: nat)
    requires Fresh(st0, jobs) && i < |jobs| && forall j | 0 <= j < |schedule| :: schedule[j] < |jobs|
    requires Turns(schedule, i) >= jobs[i].tries + 49
    ensures Finished(Interleave(st0, schedule).threads[i])
  {
    WorkFalls(st0, jobs, schedule, i);
  }

  /** Serializability of every run that serves all threads long enough. */
  lemma SerializableIfServed(st0: System, jobs: seq<Thread>, schedule: seq<nat>) returns (log: seq<nat>)
    requires Fresh(st0, jobs) && forall j | 0 <= j < |schedule| :: schedule[j] < |jobs|
    requires forall i: nat | i < |jobs| :: Turns(schedule, i) >= jobs[i].tries + 49
    ensures NoDup(log) && forall j | 0 <= j < |log| :: log[j] < |jobs|
    ensures forall i: nat | i < |jobs| :: Interleave(st0, schedule).threads[i].pc == if i in log then Done else GaveUp
    ensures Interleave(st0, schedule).table == Sequential(st0.table, jobs, log)
    ensures forall lock: nat | lock < LOCKS :: Interleave(st0, schedule).mutex[lock] == 0
  {
    forall i: nat | i < |jobs|
      ensures Finished(Interleave(st0, schedule).threads[i])
    {
      ServedFinish(st0, jobs, schedule, i);
    }
    log := Serializable(st0, jobs, schedule);
  }

  // ----- the threads of a kernel launch

  /** One thread per key, with its number behind `start` as the time. */
  function Launch(hash: nat -> nat, keys: seq<nat>, start: nat): (jobs: seq<Thread>)
    ensures |jobs| == |keys|
  {
    seq(|keys|, id requires 0 <= id < |keys| => Starting(hash, keys[id], I.Add32(start, id)))
  }

  lemma LaunchIsFresh(hash: nat -> nat, st0: System, keys: seq<nat>, start: nat)
    requires st0.threads == Launch(hash, keys, start) && forall lock: nat | lock < LOCKS :: st0.mutex[lock] == 0
    ensures Fresh(st0, st0.threads)
    // one thread per key, that carries one packet of it, and one tick later than the thread before
    ensures |st0.threads| == |keys|
    ensures forall id | 0 <= id < |keys| :: st0.threads[id].key == keys[id] && st0.threads[id].freq == 1
    ensures forall id | 0 <= id < |keys| ::
              st0.threads[id].ts == (start + id) % 0x1_0000_0000 && st0.threads[id].home == hash(keys[id]) % 16384
              && st0.threads[id].tries == 40
  {
  }
}
