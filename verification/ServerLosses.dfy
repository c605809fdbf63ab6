// Ids that are used up without a row: exactly which requests cause them.
module ServerLosses {
  import opened Text
  import opened ServerState
  import opened ServerCounters
  import opened ServerMemes
  import opened ServerRuns
  import opened ServerAnswers

  // A valid create whose row breaks the statement that is to insert it.
  ghost predicate IsLossy(j: Job) { IsValid(j) && j.op.Create? && SqlRow(j.op.row).None? }

  ghost predicate HasLossy(queues: seq<seq<Job>>) {
    exists i, j :: 0 <= i < |queues| && j in queues[i] && IsLossy(j)
  }

  // Before its statement a request is valid; after it, a lossy one has lost an id.
  ghost predicate StageInv(pc: PC, lost: bool) {
    match pc
    case WantCreate(j) => IsValid(j)
    case Creating(j) => IsValid(j)
    case Handling(j) => IsValid(j)
    case WantTable(j) => IsValid(j)
    case Bumping(j) => IsValid(j)
    case Inserting(j, _) => IsValid(j)
    case Querying(j) => !j.op.Create?
    case LeavingTable(j, _) => IsLossy(j) ==> lost
    case WantCount(j, _) => IsLossy(j) ==> lost
    case UrlInit(j, _) => IsLossy(j) ==> lost
    case UrlLoad(j, _) => IsLossy(j) ==> lost
    case UrlStore(j, _, _) => IsLossy(j) ==> lost
    case _ => true
  }

  ghost predicate SomeLossy(jobs: multiset<Job>) { exists j :: j in jobs && IsLossy(j) }

  // An id has been lost if a lossy request has been counted, and only if there is one at all.
  ghost predicate LossInv(s: State) {
    && (forall t: nat :: t < |s.threads| ==> StageInv(s.threads[t].pc, s.failed != {}))
    && (forall j :: j in s.counted && IsLossy(j) ==> s.failed != {})
    && (s.failed != {} ==> SomeLossy(AllJobs(s)))
  }

  // One thread's step: it loses an id exactly when it is the insert of a lossy request.
  lemma PcLoss(s: State, t: nat)
    requires t < |s.threads| && !Blocked(s, s.threads[t])
    requires Carries(s, s.threads[t].pc) && StageInv(s.threads[t].pc, s.failed != {})
    requires IsModelledAt(s.threads[t].pc)
    requires s.threads[t].pc.Inserting? ==> s.threads[t].pc.id !in s.table
    ensures var pc, n := s.threads[t].pc, NextMemes(s, s.threads[t].pc);
            && StageInv(NextPC(s, t), n.failed != {})
            && s.failed <= n.failed
            && (n.failed != s.failed ==> pc.Inserting? && IsLossy(pc.job))
  {
    hide PathOf, IsValid, SqlRow, Dec, IsModelled, QueryCode, QueryTable, QueryDeleted, QueryWrites, Get;
  }

  lemma PcCounts(s: State, t: nat, j: Job)
    requires t < |s.threads| && !Blocked(s, s.threads[t])
    requires StageInv(s.threads[t].pc, s.failed != {})
    ensures j in NextCounters(s, s.threads[t].pc).counted && IsLossy(j) ==> j in s.counted || s.failed != {}
  {
    hide PathOf, IsLossy;
  }

  lemma InsertMeetsNoRow(s: State, t: nat)
    requires TableRunInv(s) && t < |s.threads|
    ensures Carries(s, s.threads[t].pc) && IsModelledAt(s.threads[t].pc)
    ensures s.threads[t].pc.Inserting? ==> s.threads[t].pc.id !in s.table
  {
    hide LocksInv, CountersInv, IssuedInv, MemesInv, Carries, AllJobs, IsModelled;
    AtTableIsModelled(s, t);
    if s.threads[t].pc.Inserting? {
      InsertSucceedsIff(s, t);
    }
  }

  lemma StepKeepsLoss(s: State, t: nat)
    requires TableRunInv(s) && LossInv(s) && t < |s.threads| && !Blocked(s, s.threads[t])
    ensures LossInv(Step(s, t))
  {
    hide Step, NextPC, NextMemes, NextCounters, NextQueue, TableRunInv, StageInv, IsLossy, IsModelledAt,
         Blocked, AllJobs, Carries;
    StepLocks(s, t);
    StepMemes(s, t);
    StepCounters(s, t);
    StepConserves(s, t);
    InsertMeetsNoRow(s, t);
    PcLoss(s, t);
    var s', pc := Step(s, t), s.threads[t].pc;
    forall u: nat | u < |s'.threads| ensures StageInv(s'.threads[u].pc, s'.failed != {}) {
      if u != t {
        StageGrows(s.threads[u].pc, s.failed != {}, s'.failed != {});
      }
    }
    forall j | j in s'.counted && IsLossy(j) ensures s'.failed != {} {
      PcCounts(s, t, j);
    }
    if s'.failed != s.failed {
      JobIsKnown(s, t);
    }
  }

  lemma StageGrows(pc: PC, lost: bool, lost': bool)
    requires StageInv(pc, lost) && (lost ==> lost')
    ensures StageInv(pc, lost')
  {
    hide IsLossy, IsValid;
  }

  lemma {:induction false} ExecKeepsLoss(s: State, schedule: seq<nat>)
    requires TableRunInv(s) && LossInv(s)
    ensures LossInv(Exec(s, schedule))
    decreases |schedule|
  {
    hide Step, Blocked, TableRunInv, LossInv;
    if schedule != [] {
      var t := schedule[0];
      if t < |s.threads| && !Blocked(s, s.threads[t]) {
        StepKeepsTableRun(s, t);
        StepKeepsLoss(s, t);
        ExecKeepsLoss(Step(s, t), schedule[1..]);
      } else {
        ExecKeepsLoss(s, schedule[1..]);
      }
    }
  }

  lemma EveryRunKeepsLoss(queues: seq<seq<Job>>, schedule: seq<nat>)
    requires ModelledQueues(queues)
    ensures LossInv(Exec(Initial(queues), schedule))
    ensures SomeLossy(AllJobs(Exec(Initial(queues), schedule))) <==> HasLossy(queues)
  {
    hide Exec, TableRunInv, AllJobs, IsLossy, IsValid;
    EveryRunKeepsTable(queues, []);
    assert Exec(Initial(queues), []) == Initial(queues) by { ExecNothing(Initial(queues)); }
    ExecKeepsLoss(Initial(queues), schedule);
    ExecConserves(Initial(queues), schedule);
    forall j ensures j in AllJobs(Initial(queues)) <==> exists i :: 0 <= i < |queues| && j in queues[i] {
      InitialJobs(queues, j);
    }
  }

  // A run of modelled requests that has answered them all has lost an id exactly when a valid
  // create among them had a text that is no literal, in whatever order the threads ran.
  lemma FinishedRunLosesIff(queues: seq<seq<Job>>, schedule: seq<nat>)
    requires ModelledQueues(queues) && Finished(Exec(Initial(queues), schedule))
    ensures Exec(Initial(queues), schedule).failed != {} <==> HasLossy(queues)
  {
    hide Exec, Initial, Pending, HasLossy, IsLossy, StageInv, ModelledQueues;
    var s := Exec(Initial(queues), schedule);
    EveryRunKeepsLoss(queues, schedule);
    FinishedIsEmpty(s.threads);
    assert AllJobs(s) == multiset(s.counted);
  }

  // Some run of the requests loses an id exactly when there is such a create.
  lemma RunLosesIff(queues: seq<seq<Job>>)
    requires ModelledQueues(queues)
    ensures (exists schedule :: Exec(Initial(queues), schedule).failed != {}) <==> HasLossy(queues)
  {
    hide Exec, Initial, AllJobs, SomeLossy, HasLossy, StageInv, Inv, MemesInv, Finished, ModelledQueues;
    if schedule :| Exec(Initial(queues), schedule).failed != {} {
      EveryRunKeepsLoss(queues, schedule);
    }
    if HasLossy(queues) {
      InitialInv(queues);
      var schedule := CanFinish(Initial(queues));
      FinishedRunLosesIff(queues, schedule);
    }
  }

  // Without such a create the ids whose insert is over are, at every moment of every run, those
  // in the table and those deleted.
  lemma NoIdIsLost(queues: seq<seq<Job>>, schedule: seq<nat>)
    requires ModelledQueues(queues) && !HasLossy(queues)
    ensures var s := Exec(Initial(queues), schedule);
            && s.failed == {} && Stored(s) >= 0
            && s.table.Keys + s.deleted == Ids(Stored(s)) && s.table.Keys !! s.deleted
  {
    hide Exec, Initial, Inv, Ids, WritesInv, Stored, AllJobs, SomeLossy, HasLossy, StageInv, IsModelled, ModelledQueues;
    EveryRunKeepsTable(queues, schedule);
    EveryRunKeepsLoss(queues, schedule);
    var s := Exec(Initial(queues), schedule);
    assert s.table.Keys + s.deleted + {} == s.table.Keys + s.deleted;
  }

  // ---------------------------------------------------------------------------
  // Every valid create gets exactly one id

  ghost predicate IsCreate(j: Job) { IsValid(j) && j.op.Create? }

  ghost function Creates(js: seq<Job>): nat {
    if js == [] then 0 else (if IsCreate(js[0]) then 1 else 0) + Creates(js[1..])
  }

  predicate BeforeBump(pc: PC) { pc.WantCreate? || pc.Creating? || pc.Handling? || pc.WantTable? || pc.Bumping? }

  // The ids that a thread has still to take.
  ghost function ToTake(th: Thread): nat {
    Creates(th.queue) + if BeforeBump(th.pc) && IsCreate(th.pc.job) then 1 else 0
  }

  ghost function ToTakeAll(ths: seq<Thread>): nat {
    if ths == [] then 0 else ToTake(ths[0]) + ToTakeAll(ths[1..])
  }

  lemma {:induction false} ToTakeUpdate(ths: seq<Thread>, t: nat, th: Thread)
    requires t < |ths|
    ensures ToTakeAll(ths[t := th]) + ToTake(ths[t]) == ToTakeAll(ths) + ToTake(th)
  {
    hide ToTake;
    var ths' := ths[t := th];
    if t == 0 {
      assert ths'[1..] == ths[1..];
    } else {
      ToTakeUpdate(ths[1..], t - 1, th);
      assert ths'[1..] == ths[1..][t - 1 := th];
    }
  }

  lemma PcTakes(s: State, t: nat)
    requires t < |s.threads| && !Blocked(s, s.threads[t]) && OnTheWay(s.threads[t].pc)
    ensures var th := s.threads[t];
            NextMemes(s, th.pc).memeCount + ToTake(Thread(NextPC(s, t), NextQueue(th))) == s.memeCount + ToTake(th)
  {
    hide PathOf, IsValid, Dec, QueryCode, QueryTable, QueryDeleted, QueryWrites, InsertCode, InsertFails, IsModelled,
         IsFaulty, SqlRow, Get;
    var th := s.threads[t];
    if th.pc == Idle {
      assert Creates(th.queue) == (if IsCreate(th.queue[0]) then 1 else 0) + Creates(th.queue[1..]);
    }
  }

  lemma StepTakes(s: State, t: nat)
    requires t < |s.threads| && !Blocked(s, s.threads[t]) && OnTheWay(s.threads[t].pc)
    ensures Step(s, t).memeCount + ToTakeAll(Step(s, t).threads) == s.memeCount + ToTakeAll(s.threads)
  {
    hide Step, NextPC, NextMemes, NextQueue, ToTake, ToTakeAll, OnTheWay, Blocked;
    StepLocks(s, t);
    StepMemes(s, t);
    PcTakes(s, t);
    ToTakeUpdate(s.threads, t, Thread(NextPC(s, t), NextQueue(s.threads[t])));
  }

  lemma {:induction false} ExecTakes(s: State, schedule: seq<nat>)
    requires Inv(s) && AnswersInv(s, false)
    ensures var s' := Exec(s, schedule); s'.memeCount + ToTakeAll(s'.threads) == s.memeCount + ToTakeAll(s.threads)
    decreases |schedule|
  {
    hide Step, Blocked, Inv, LogInv, ToTakeAll;
    if schedule != [] {
      var t := schedule[0];
      if t < |s.threads| && !Blocked(s, s.threads[t]) {
        assert HoldsReply(s.held, s.counted, s.threads[t].pc, t, false);
        StepTakes(s, t);
        StepKeepsInv(s, t);
        StepKeepsAnswers(s, t, false);
        ExecTakes(Step(s, t), schedule[1..]);
      } else {
        ExecTakes(s, schedule[1..]);
      }
    }
  }

  lemma {:induction false} CreatesAdd(a: seq<Job>, b: seq<Job>)
    ensures Creates(a + b) == Creates(a) + Creates(b)
  {
    hide IsCreate;
    if a == [] {
      assert a + b == b;
    } else {
      CreatesAdd(a[1..], b);
      assert (a + b)[1..] == a[1..] + b;
    }
  }

  lemma {:induction false} ToTakeAtStart(queues: seq<seq<Job>>)
    ensures ToTakeAll(Initial(queues).threads) == Creates(Requests(queues))
  {
    hide IsCreate;
    if queues != [] {
      ToTakeAtStart(queues[1..]);
      CreatesAdd(queues[0], Requests(queues[1..]));
      assert Initial(queues).threads[1..] == Initial(queues[1..]).threads;
    }
  }

  lemma {:induction false} NothingToTake(ths: seq<Thread>)
    requires forall t: nat :: t < |ths| ==> IsFinished(ths[t])
    ensures ToTakeAll(ths) == 0
  {
    if ths != [] {
      assert IsFinished(ths[0]);
      NothingToTake(ths[1..]);
    }
  }

  // In a finished run as many ids have been handed out as there were valid creates; when the
  // requests are modelled, each of these ids is in the table, or deleted, or lost, and nothing
  // else is.
  lemma FinishedRunTakesOneIdEach(queues: seq<seq<Job>>, schedule: seq<nat>)
    requires Finished(Exec(Initial(queues), schedule))
    ensures var s := Exec(Initial(queues), schedule);
            && |s.issued| == s.memeCount == Creates(Requests(queues))
            && (ModelledQueues(queues) ==> s.table.Keys + s.deleted + s.failed == Ids(Creates(Requests(queues))))
  {
    hide Exec, Initial, Creates, Requests, ToTakeAll, Ids, LocksInv, CountersInv, CarriesInv, WritesInv, AllJobs,
         ModelledQueues, HoldsReply, LogInv, IsModelled;
    var s := Exec(Initial(queues), schedule);
    InitialInv(queues);
    EveryRunCountsItsAnswers(queues, []);
    ExecNothing(Initial(queues));
    ExecTakes(Initial(queues), schedule);
    ToTakeAtStart(queues);
    NothingToTake(s.threads);
    EveryRunKeepsInv(queues, schedule);
    NoneAtStart(queues);
    forall t: nat | t < |s.threads| ensures !s.threads[t].pc.Inserting? {
      assert IsFinished(s.threads[t]);
    }
    if ModelledQueues(queues) {
      EveryRunKeepsTable(queues, schedule);
    }
  }

  lemma NoneAtStart(queues: seq<seq<Job>>)
    ensures Initial(queues).memeCount == 0
  {
  }
}
