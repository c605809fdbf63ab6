// Whole runs of the server: what holds after every schedule, and that every request is
// answered and counted in the end.
module ServerRuns {
  import opened Basics
  import opened Text
  import opened ServerState
  import opened ServerCounters
  import opened ServerMemes

  // What holds in every run, whatever the requests are.
  ghost predicate Inv(s: State) {
    LocksInv(s) && CountersInv(s) && IdsInv(s)
  }

  lemma InitialInv(queues: seq<seq<Job>>)
    ensures Inv(Initial(queues)) && MemesInv(Initial(queues))
  {
    hide PathOf, Dec;
    var s := Initial(queues);
    assert forall t: nat :: t < |s.threads| ==> s.threads[t].pc == Idle;
    PathsLength([]);
    assert Paths([]) == [];
    assert !SomeoneInserting(s) && !SomeoneBetween(s);
  }

  lemma StepKeepsInv(s: State, t: nat)
    requires Inv(s) && t < |s.threads| && !Blocked(s, s.threads[t])
    ensures Inv(Step(s, t))
  {
    hide Step, Blocked, LocksInv, CountersInv, IdsInv;
    StepKeepsLocks(s, t);
    StepKeepsCounters(s, t);
    StepKeepsIds(s, t);
  }

  lemma {:induction false} ExecKeepsInv(s: State, schedule: seq<nat>)
    requires Inv(s)
    ensures Inv(Exec(s, schedule))
    decreases |schedule|
  {
    hide Step, Blocked, Inv;
    if schedule != [] {
      var t := schedule[0];
      if t < |s.threads| && !Blocked(s, s.threads[t]) {
        StepKeepsInv(s, t);
        ExecKeepsInv(Step(s, t), schedule[1..]);
      } else {
        ExecKeepsInv(s, schedule[1..]);
      }
    }
  }

  // After every schedule of any number of threads with any requests: the locks exclude, the
  // counters are exact, the ids are handed out in order.
  lemma EveryRunKeepsInv(queues: seq<seq<Job>>, schedule: seq<nat>)
    ensures Inv(Exec(Initial(queues), schedule))
    ensures var s := Exec(Initial(queues), schedule);
            |s.issued| == s.memeCount && forall k: nat :: k < |s.issued| ==> s.issued[k] == Dec(k + 1)
  {
    hide Exec, Initial, LocksInv, CountersInv, CarriesInv, Dec;
    InitialInv(queues);
    ExecKeepsInv(Initial(queues), schedule);
  }

  // ---------------------------------------------------------------------------
  // No request is lost or counted twice

  // The thread has a request in hand that is not counted yet.
  predicate HasJob(pc: PC) {
    !(pc.Idle? || pc.CodeInit? || pc.CodeLoad? || pc.CodeStore? || pc.LeavingCount? || pc.WantWrite? || pc.Writing?)
  }

  function InHand(pc: PC): Option<Job> { if HasJob(pc) then Some(pc.job) else None }

  function AsMultiset(j: Option<Job>): multiset<Job> { if j.Some? then multiset{j.value} else multiset{} }

  // The requests a thread has not counted yet.
  function PendingOf(th: Thread): multiset<Job> { AsMultiset(InHand(th.pc)) + multiset(th.queue) }

  function Pending(ths: seq<Thread>): multiset<Job> {
    if ths == [] then multiset{} else PendingOf(ths[0]) + Pending(ths[1..])
  }

  lemma {:induction false} PendingUpdate(ths: seq<Thread>, t: nat, th: Thread)
    requires t < |ths|
    ensures Pending(ths[t := th]) + PendingOf(ths[t]) == Pending(ths) + PendingOf(th)
  {
    hide PendingOf;
    var ths' := ths[t := th];
    if t == 0 {
      assert ths'[1..] == ths[1..];
      Swap(PendingOf(th), Pending(ths[1..]), PendingOf(ths[0]));
    } else {
      PendingUpdate(ths[1..], t - 1, th);
      assert ths'[1..] == ths[1..][t - 1 := th];
      AddLeft(PendingOf(ths[0]), Pending(ths'[1..]), PendingOf(ths[t]), Pending(ths[1..]), PendingOf(th));
    }
  }

  lemma Swap<T>(a: multiset<T>, r: multiset<T>, b: multiset<T>)
    ensures (a + r) + b == (b + r) + a
  {
  }

  lemma AddLeft<T>(h: multiset<T>, p: multiset<T>, x: multiset<T>, q: multiset<T>, y: multiset<T>)
    requires p + x == q + y
    ensures (h + p) + x == (h + q) + y
  {
    assert (h + p) + x == h + (p + x);
    assert (h + q) + y == h + (q + y);
  }

  lemma Cancel<T>(m: multiset<T>, m': multiset<T>, p: multiset<T>, p': multiset<T>, a: multiset<T>, b: multiset<T>)
    requires p' + a == p + b && m' + b == m + a
    ensures m' + p' == m + p
  {
    assert (m' + p') + (a + b) == (m' + b) + (p' + a);
    assert (m + p) + (a + b) == (m + a) + (p + b);
    assert m' + p' == ((m' + p') + (a + b)) - (a + b);
    assert m + p == ((m + p) + (a + b)) - (a + b);
  }

  lemma {:induction false} PendingHas(ths: seq<Thread>, j: Job)
    ensures j in Pending(ths) <==> exists t: nat :: t < |ths| && j in PendingOf(ths[t])
  {
    hide PendingOf;
    if ths != [] {
      var rest := ths[1..];
      PendingHas(rest, j);
      assert forall t: nat :: 0 < t < |ths| ==> ths[t] == rest[t - 1];
      assert forall t: nat :: t < |rest| ==> rest[t] == ths[t + 1];
    }
  }

  lemma HandHas(th: Thread)
    requires HasJob(th.pc)
    ensures th.pc.job in PendingOf(th)
  {
    assert th.pc.job in AsMultiset(InHand(th.pc));
  }

  // All requests of a run: those counted and those still to be counted.
  ghost function AllJobs(s: State): multiset<Job> { multiset(s.counted) + Pending(s.threads) }

  // A step keeps the thread's request in hand, except that it may pick one up or count it.
  lemma PcJob(s: State, t: nat)
    requires t < |s.threads| && !Blocked(s, s.threads[t])
    ensures var th, now := s.threads[t], InHand(NextPC(s, t));
            if th.pc == Idle then th.queue != [] && now == Some(th.queue[0]) && NextQueue(th) == th.queue[1..]
            else NextQueue(th) == th.queue && now == if th.pc.UrlStore? then None else InHand(th.pc)
    ensures s.threads[t].pc.UrlStore? ==> InHand(s.threads[t].pc) == Some(s.threads[t].pc.job)
    ensures s.threads[t].pc == Idle ==> InHand(s.threads[t].pc) == None
    ensures NextCounters(s, s.threads[t].pc).counted ==
              if s.threads[t].pc.UrlStore? then s.counted + [s.threads[t].pc.job] else s.counted
  {
    hide PathOf, IsValid, Dec, QueryCode, InsertCode, Get;
  }

  lemma PcConserves(s: State, t: nat)
    requires t < |s.threads| && !Blocked(s, s.threads[t])
    ensures var th := s.threads[t];
            multiset(NextCounters(s, th.pc).counted) + PendingOf(Thread(NextPC(s, t), NextQueue(th))) ==
              multiset(s.counted) + PendingOf(th)
  {
    hide NextPC, NextQueue, NextCounters, Blocked, InHand;
    var th := s.threads[t];
    PcJob(s, t);
    if th.pc == Idle {
      assert th.queue == [th.queue[0]] + th.queue[1..];
    } else if th.pc.UrlStore? {
      assert multiset(s.counted + [th.pc.job]) == multiset(s.counted) + multiset{th.pc.job};
    }
  }

  lemma StepConserves(s: State, t: nat)
    requires t < |s.threads| && !Blocked(s, s.threads[t])
    ensures AllJobs(Step(s, t)) == AllJobs(s)
  {
    hide Step, NextPC, NextCounters, PendingOf, Pending, Blocked, NextQueue;
    StepLocks(s, t);
    StepCounters(s, t);
    PcConserves(s, t);
    var th' := Thread(NextPC(s, t), NextQueue(s.threads[t]));
    PendingUpdate(s.threads, t, th');
    Cancel(multiset(s.counted), multiset(Step(s, t).counted), Pending(s.threads), Pending(Step(s, t).threads),
           PendingOf(s.threads[t]), PendingOf(th'));
  }

  lemma {:induction false} ExecConserves(s: State, schedule: seq<nat>)
    ensures AllJobs(Exec(s, schedule)) == AllJobs(s)
    decreases |schedule|
  {
    hide Step, Blocked, AllJobs;
    if schedule != [] {
      var t := schedule[0];
      if t < |s.threads| && !Blocked(s, s.threads[t]) {
        StepConserves(s, t);
        ExecConserves(Step(s, t), schedule[1..]);
      } else {
        ExecConserves(s, schedule[1..]);
      }
    }
  }

  // The requests of a run are those of its queues.
  lemma InitialJobs(queues: seq<seq<Job>>, j: Job)
    ensures j in AllJobs(Initial(queues)) <==> exists i :: 0 <= i < |queues| && j in queues[i]
  {
    hide Pending;
    var s := Initial(queues);
    assert forall i: nat :: i < |queues| ==> PendingOf(s.threads[i]) == multiset(queues[i]);
    assert AllJobs(s) == Pending(s.threads);
    PendingHas(s.threads, j);
    if i: nat :| i < |queues| && j in queues[i] {
      assert j in PendingOf(s.threads[i]);
    }
  }

  lemma JobIsKnown(s: State, t: nat)
    requires t < |s.threads| && HasJob(s.threads[t].pc)
    ensures s.threads[t].pc.job in AllJobs(s)
  {
    hide PendingOf, Pending;
    HandHas(s.threads[t]);
    PendingHas(s.threads, s.threads[t].pc.job);
  }

  ghost predicate Finished(s: State) {
    forall t: nat :: t < |s.threads| ==> IsFinished(s.threads[t])
  }

  lemma {:induction false} FinishedIsEmpty(ths: seq<Thread>)
    requires forall t: nat :: t < |ths| ==> IsFinished(ths[t])
    ensures Pending(ths) == multiset{}
  {
    if ths != [] {
      assert IsFinished(ths[0]);
      FinishedIsEmpty(ths[1..]);
    }
  }

  // When a run has finished, each path's count is the number of requests for it that were
  // ever received, in whatever order the threads ran.
  lemma FinishedRunCountsEverything(queues: seq<seq<Job>>, schedule: seq<nat>)
    requires Finished(Exec(Initial(queues), schedule))
    ensures var s := Exec(Initial(queues), schedule);
            && multiset(s.counted) == Pending(Initial(queues).threads)
            && |s.codesCounted| == |s.counted|
            && IsTally(s.urls, Paths(s.counted)) && IsTally(s.codes, s.codesCounted)
  {
    hide Exec, Pending, LocksInv, IdsInv, LoadsInv, IsTally;
    var s := Exec(Initial(queues), schedule);
    ExecConserves(Initial(queues), schedule);
    FinishedIsEmpty(s.threads);
    EveryRunKeepsInv(queues, schedule);
    assert Initial(queues).counted == [];
    assert multiset(s.counted) + multiset{} == multiset(s.counted);
    assert multiset{} + Pending(Initial(queues).threads) == Pending(Initial(queues).threads);
    assert !SomeoneBetween(s) by {
      if t: nat :| t < |s.threads| && IsBetween(s.threads[t].pc) {
        assert IsFinished(s.threads[t]);
      }
    }
  }

  // ---------------------------------------------------------------------------
  // The meme table

  ghost predicate ModelledQueues(queues: seq<seq<Job>>) {
    forall i, j :: 0 <= i < |queues| && j in queues[i] ==> IsModelled(j.op)
  }

  // All requests of the run are modelled, and the table is in order.
  ghost predicate TableRunInv(s: State) {
    Inv(s) && MemesInv(s) && forall j :: j in AllJobs(s) ==> IsModelled(j.op)
  }

  lemma AtTableIsModelled(s: State, t: nat)
    requires TableRunInv(s) && t < |s.threads|
    ensures IsModelledAt(s.threads[t].pc)
  {
    hide Inv, MemesInv, AllJobs, IsModelled;
    if s.threads[t].pc.Inserting? || s.threads[t].pc.Querying? {
      JobIsKnown(s, t);
    }
  }

  lemma StepKeepsTableRun(s: State, t: nat)
    requires TableRunInv(s) && t < |s.threads| && !Blocked(s, s.threads[t])
    ensures TableRunInv(Step(s, t))
  {
    hide Step, Blocked, LocksInv, CountersInv, IdsInv, MemesInv, AllJobs, IsModelled, IsModelledAt;
    AtTableIsModelled(s, t);
    StepKeepsInv(s, t);
    StepKeepsMemes(s, t);
    StepConserves(s, t);
  }

  lemma {:induction false} ExecKeepsTableRun(s: State, schedule: seq<nat>)
    requires TableRunInv(s)
    ensures TableRunInv(Exec(s, schedule))
    decreases |schedule|
  {
    hide Step, Blocked, TableRunInv;
    if schedule != [] {
      var t := schedule[0];
      if t < |s.threads| && !Blocked(s, s.threads[t]) {
        StepKeepsTableRun(s, t);
        ExecKeepsTableRun(Step(s, t), schedule[1..]);
      } else {
        ExecKeepsTableRun(s, schedule[1..]);
      }
    }
  }

  lemma ExecNothing(s: State)
    ensures Exec(s, []) == s
  {
  }

  // After every schedule of any number of threads with modelled requests, the meme table is in
  // order.
  lemma EveryRunKeepsTable(queues: seq<seq<Job>>, schedule: seq<nat>)
    requires ModelledQueues(queues)
    ensures TableRunInv(Exec(Initial(queues), schedule))
  {
    hide Exec, Initial, Inv, MemesInv, AllJobs, IsModelled;
    InitialInv(queues);
    forall j | j in AllJobs(Initial(queues)) ensures IsModelled(j.op) {
      InitialJobs(queues, j);
    }
    ExecKeepsTableRun(Initial(queues), schedule);
  }

  // Once a meme has been deleted, then in whatever way the run goes on, the id is not in the
  // table and is not handed out again.
  lemma DeletedMemeStaysDeleted(queues: seq<seq<Job>>, before: seq<nat>, after: seq<nat>, id: string)
    requires ModelledQueues(queues) && id in Exec(Initial(queues), before).deleted
    ensures var s := Exec(Exec(Initial(queues), before), after);
            && id in s.deleted && id !in s.table
            && forall t: nat :: t < |s.threads| && s.threads[t].pc.Inserting? ==> s.threads[t].pc.id != id
  {
    hide Exec, Initial, LocksInv, CountersInv, AllJobs, IsModelled, ModelledQueues;
    var s0 := Exec(Initial(queues), before);
    EveryRunKeepsTable(queues, before);
    ExecKeepsTableRun(s0, after);
    DeletedForGood(s0, after);
    var s := Exec(s0, after);
    forall t: nat | t < |s.threads| && s.threads[t].pc.Inserting? ensures s.threads[t].pc.id != id {
      AtTableIsModelled(s, t);
      InsertSucceedsIff(s, t);
    }
  }

  // ---------------------------------------------------------------------------
  // Progress

  function Rank(pc: PC): nat {
    match pc
    case Idle => 0
    case Writing => 1
    case WantWrite => 2
    case LeavingCount => 3
    case CodeStore(_, _) => 4
    case CodeLoad(_) => 5
    case CodeInit(_) => 6
    case UrlStore(_, _, _) => 7
    case UrlLoad(_, _) => 8
    case UrlInit(_, _) => 9
    case WantCount(_, _) => 10
    case LeavingTable(_, _) => 11
    case Querying(_) => 12
    case Inserting(_, _) => 12
    case Bumping(_) => 13
    case WantTable(_) => 14
    case Handling(_) => 15
    case Creating(_) => 16
    case WantCreate(_) => 17
  }

  function WorkOf(th: Thread): nat { 18 * |th.queue| + Rank(th.pc) }

  // An upper bound on the steps still to come.
  function Work(ths: seq<Thread>): nat {
    if ths == [] then 0 else WorkOf(ths[0]) + Work(ths[1..])
  }

  lemma {:induction false} WorkUpdate(ths: seq<Thread>, t: nat, th: Thread)
    requires t < |ths|
    ensures Work(ths[t := th]) + WorkOf(ths[t]) == Work(ths) + WorkOf(th)
  {
    hide WorkOf;
    var ths' := ths[t := th];
    if t == 0 {
      assert ths'[1..] == ths[1..];
    } else {
      WorkUpdate(ths[1..], t - 1, th);
      assert ths'[1..] == ths[1..][t - 1 := th];
    }
  }

  lemma PcWorks(s: State, t: nat)
    requires t < |s.threads| && !Blocked(s, s.threads[t])
    ensures WorkOf(Thread(NextPC(s, t), NextQueue(s.threads[t]))) < WorkOf(s.threads[t])
  {
    hide PathOf, IsValid, Dec, QueryCode, InsertCode, Get;
  }

  lemma StepWorks(s: State, t: nat)
    requires t < |s.threads| && !Blocked(s, s.threads[t])
    ensures Work(Step(s, t).threads) < Work(s.threads)
  {
    hide Step, NextPC, NextQueue, WorkOf, Work, Blocked;
    StepLocks(s, t);
    PcWorks(s, t);
    WorkUpdate(s.threads, t, Thread(NextPC(s, t), NextQueue(s.threads[t])));
  }

  lemma HolderCanStep(s: State, t: nat)
    requires t < |s.threads| && (HoldsMtx(s.threads[t].pc) || HoldsId(s.threads[t].pc))
    ensures !Blocked(s, s.threads[t])
  {
  }

  // No deadlock: while a thread is unfinished, some thread can step.
  lemma SomeoneCanStep(s: State) returns (t: nat)
    requires LocksInv(s) && !Finished(s)
    ensures t < |s.threads| && !Blocked(s, s.threads[t])
  {
    if s.mtx.Some? {
      t := s.mtx.value;
      LockHolders(s, t);
      HolderCanStep(s, t);
    } else if s.idLock.Some? {
      t := s.idLock.value;
      LockHolders(s, t);
      HolderCanStep(s, t);
    } else {
      t :| t < |s.threads| && !IsFinished(s.threads[t]);
    }
  }

  // From every state a run can reach, it can go on to answer every request.
  lemma {:induction false} CanFinish(s: State) returns (schedule: seq<nat>)
    requires Inv(s)
    ensures Finished(Exec(s, schedule))
    decreases Work(s.threads)
  {
    hide Step, Blocked, Work, Finished, LocksInv, CountersInv, IdsInv;
    if Finished(s) {
      schedule := [];
    } else {
      var t := SomeoneCanStep(s);
      StepKeepsInv(s, t);
      StepWorks(s, t);
      var rest := CanFinish(Step(s, t));
      schedule := [t] + rest;
      assert schedule[0] == t && schedule[1..] == rest;
    }
  }
}
