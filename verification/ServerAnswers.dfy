// The code that is counted for a request is the code it was answered with, in every
// interleaving, and what that code is.
module ServerAnswers {
  import opened Basics
  import opened Text
  import opened ServerState
  import opened ServerCounters
  import opened ServerMemes
  import opened ServerRuns

  // ---------------------------------------------------------------------------
  // What a request is answered with

  // The answer to a modelled request at the table, whatever other threads do.
  lemma TableAnswers(s: State, t: nat)
    requires t < |s.threads| && s.threads[t].pc.Querying? && IsModelled(s.threads[t].pc.job.op)
    ensures var j := s.threads[t].pc.job;
            match j.op
            case View(id) => NextPC(s, t) == LeavingTable(j, if Literal(id).Some? && Key(id) in s.table then 200 else 404)
            case EditForm(id, pageCode) =>
              NextPC(s, t) == LeavingTable(j, if Literal(id).Some? && Key(id) in s.table then pageCode else 404)
            case Edit(_, row) => NextPC(s, t) == LeavingTable(j, if SqlRow(row).Some? then 200 else 404)
            case List(query) => NextPC(s, t) == LeavingTable(j, if Literal(query).Some? then 200 else 404)
            case Delete(id) => NextPC(s, t) == LeavingTable(j, if Literal(id).Some? then 200 else 404)
            case _ => true
  {
    hide IsModelled, Literal, SqlRow, Key;
  }

  // The answers that are possible. That an insert never meets a row with its id, and so succeeds
  // whenever its texts are literals, is known while the table is in order.
  ghost predicate IsAnswer(a: Answer, inOrder: bool) {
    if !IsValid(a.job) then a.code == 400
    else if !IsModelled(a.job.op) then true
    else
      match a.job.op
      case Other(code) => a.code == code
      case Create(row) => if inOrder then a.code == (if SqlRow(row).Some? then 200 else 404) else a.code in {200, 404}
      case Edit(_, row) => a.code == if SqlRow(row).Some? then 200 else 404
      case EditForm(_, pageCode) => a.code in {pageCode, 404}
      case View(_) => a.code in {200, 404}
      case List(query) => a.code == if Literal(query).Some? then 200 else 404
      case Delete(id) => a.code == if Literal(id).Some? then 200 else 404
  }

  // ---------------------------------------------------------------------------
  // The code a thread carries

  function Carried(pc: PC): Option<int> {
    match pc
    case LeavingTable(_, c) => Some(c)
    case WantCount(_, c) => Some(c)
    case UrlInit(_, c) => Some(c)
    case UrlLoad(_, c) => Some(c)
    case UrlStore(_, c, _) => Some(c)
    case CodeInit(c) => Some(c)
    case CodeLoad(c) => Some(c)
    case CodeStore(c, _) => Some(c)
    case _ => None
  }

  // From the reply to the counter the code never changes.
  lemma CodeIsKept(s: State, t: nat)
    requires t < |s.threads| && !Blocked(s, s.threads[t]) && Carried(s.threads[t].pc).Some?
    ensures var pc, pc' := s.threads[t].pc, NextPC(s, t);
            if pc.CodeStore? then pc'.LeavingCount? && NextCounters(s, pc).codesCounted == s.codesCounted + [pc.code]
            else Carried(pc') == Carried(pc) && NextCounters(s, pc).codesCounted == s.codesCounted
    ensures NextHeld(s, t) == s.held
  {
    hide PathOf, IsValid, Get;
  }

  // On the way to its reply a request is valid, and what goes to the table belongs there.
  ghost predicate OnTheWay(pc: PC) {
    match pc
    case WantCreate(j) => IsValid(j)
    case Creating(j) => IsValid(j)
    case Handling(j) => IsValid(j)
    case WantTable(j) => IsValid(j) && !j.op.Other?
    case Bumping(j) => IsValid(j) && j.op.Create?
    case Inserting(j, _) => IsValid(j) && j.op.Create?
    case Querying(j) => IsValid(j) && !j.op.Create? && !j.op.Other?
    case _ => true
  }

  // The thread's part of the invariant: what it carries is what it holds.
  ghost predicate HoldsReply(held: map<nat, Answer>, counted: seq<Job>, pc: PC, t: nat, inOrder: bool) {
    && OnTheWay(pc)
    && (Carried(pc).Some? ==>
          && t in held && held[t].code == Carried(pc).value && IsAnswer(held[t], inOrder)
          && (HasJob(pc) ==> held[t].job == pc.job)
          && (IsBetween(pc) ==> counted != [] && held[t].job == counted[|counted| - 1]))
  }

  // The replies counted, in order: their codes are those counted by code, their requests those
  // counted by url.
  ghost predicate LogInv(s: State, inOrder: bool) {
    && |s.answered| == |s.codesCounted| <= |s.counted|
    && forall i :: 0 <= i < |s.answered| ==>
         && s.answered[i] == Answer(s.counted[i], s.codesCounted[i])
         && IsAnswer(s.answered[i], inOrder)
  }

  ghost predicate AnswersInv(s: State, inOrder: bool) {
    && LogInv(s, inOrder)
    && forall t: nat :: t < |s.threads| ==> HoldsReply(s.held, s.counted, s.threads[t].pc, t, inOrder)
  }

  lemma StepAnswers(s: State, t: nat)
    requires t < |s.threads| && !Blocked(s, s.threads[t])
    ensures Step(s, t).held == NextHeld(s, t) && Step(s, t).answered == NextAnswered(s, t, s.threads[t].pc)
  {
    hide NextPC, NextHeld, NextAnswered, NextCounters, NextMemes, NextMtx, NextIdLock, Blocked;
  }

  // A reply is right when it is made.
  lemma ReplyIsMade(s: State, t: nat, inOrder: bool)
    requires t < |s.threads| && !Blocked(s, s.threads[t])
    requires OnTheWay(s.threads[t].pc) && Carried(s.threads[t].pc).None?
    requires inOrder && s.threads[t].pc.Inserting? ==> s.threads[t].pc.id !in s.table
    ensures OnTheWay(NextPC(s, t)) && !IsBetween(NextPC(s, t))
    ensures Carried(NextPC(s, t)).Some? ==>
              && HasJob(NextPC(s, t))
              && t in NextHeld(s, t)
              && NextHeld(s, t)[t] == Answer(NextPC(s, t).job, Carried(NextPC(s, t)).value)
              && IsAnswer(NextHeld(s, t)[t], inOrder)
    ensures NextCounters(s, s.threads[t].pc).codesCounted == s.codesCounted
    ensures NextCounters(s, s.threads[t].pc).counted == s.counted
    ensures !s.threads[t].pc.CodeStore?
  {
    hide PathOf, IsValid, Dec, Get, IsModelled, Literal, SqlRow, Key;
  }

  lemma ReplyIsKept(s: State, t: nat, inOrder: bool)
    requires t < |s.threads| && !Blocked(s, s.threads[t]) && Carried(s.threads[t].pc).Some?
    requires HoldsReply(s.held, s.counted, s.threads[t].pc, t, inOrder)
    ensures HoldsReply(s.held, NextCounters(s, s.threads[t].pc).counted, NextPC(s, t), t, inOrder)
  {
    hide PathOf, IsValid, Get, IsAnswer;
  }

  lemma OthersAreHeld(s: State, t: nat, u: nat)
    requires t < |s.threads| && !Blocked(s, s.threads[t]) && u != t
    ensures u in NextHeld(s, t) <==> u in s.held
    ensures u in s.held ==> NextHeld(s, t)[u] == s.held[u]
  {
    hide IsValid, InsertCode, QueryCode;
  }

  lemma CountedOrNot(s: State, pc: PC)
    ensures pc.UrlStore? || NextCounters(s, pc).counted == s.counted
    ensures pc.UrlStore? ==> HoldsMtx(pc) && NextCounters(s, pc).counted == s.counted + [pc.job]
  {
    hide PathOf, Get;
  }

  lemma OtherKeepsReply(s: State, t: nat, u: nat, inOrder: bool)
    requires LocksInv(s) && t < |s.threads| && u < |s.threads| && u != t && !Blocked(s, s.threads[t])
    requires HoldsReply(s.held, s.counted, s.threads[u].pc, u, inOrder)
    ensures HoldsReply(NextHeld(s, t), NextCounters(s, s.threads[t].pc).counted, s.threads[u].pc, u, inOrder)
  {
    hide NextHeld, NextCounters, LocksInv, OnTheWay, IsAnswer, HoldsMtx, Carried, HasJob, IsBetween, Blocked;
    OthersAreHeld(s, t, u);
    CountedOrNot(s, s.threads[t].pc);
    if s.threads[t].pc.UrlStore? && IsBetween(s.threads[u].pc) {
      BetweenHolds(s.threads[u].pc);
      LocksExclude(s, t, u);
    }
  }

  lemma StepKeepsLog(s: State, t: nat, inOrder: bool)
    requires GapInv(s) && LogInv(s, inOrder)
    requires t < |s.threads| && !Blocked(s, s.threads[t])
    requires HoldsReply(s.held, s.counted, s.threads[t].pc, t, inOrder)
    ensures LogInv(Step(s, t), inOrder)
  {
    hide Step, NextPC, NextHeld, PathOf, OnTheWay, IsAnswer, Get, Blocked;
    var pc := s.threads[t].pc;
    StepCounters(s, t);
    StepAnswers(s, t);
    if pc.CodeStore? {
      assert IsBetween(pc) && SomeoneBetween(s);
      assert s.held[t] == Answer(s.counted[|s.answered|], pc.code);
    }
  }

  lemma StepKeepsAnswers(s: State, t: nat, inOrder: bool)
    requires Inv(s) && AnswersInv(s, inOrder) && (inOrder ==> TableRunInv(s))
    requires t < |s.threads| && !Blocked(s, s.threads[t])
    ensures AnswersInv(Step(s, t), inOrder)
  {
    hide Step, NextPC, NextHeld, NextCounters, LocksInv, CountsInv, LoadsInv, GapInv, LogInv, OnTheWay, IsAnswer,
         Carried, HasJob, IsBetween, Blocked, IsModelled, MemesInv, AllJobs, IdsInv;
    var s', pc := Step(s, t), s.threads[t].pc;
    StepKeepsLog(s, t, inOrder);
    StepLocks(s, t);
    StepCounters(s, t);
    StepAnswers(s, t);
    assert HoldsReply(s.held, s.counted, pc, t, inOrder);
    forall u: nat | u < |s'.threads| ensures HoldsReply(s'.held, s'.counted, s'.threads[u].pc, u, inOrder) {
      if u != t {
        OtherKeepsReply(s, t, u, inOrder);
      } else if Carried(pc).Some? {
        CodeIsKept(s, t);
        ReplyIsKept(s, t, inOrder);
      } else {
        if inOrder && pc.Inserting? {
          AtTableIsModelled(s, t);
          InsertSucceedsIff(s, t);
        }
        ReplyIsMade(s, t, inOrder);
      }
    }
  }

  lemma {:induction false} ExecKeepsAnswers(s: State, schedule: seq<nat>, inOrder: bool)
    requires Inv(s) && AnswersInv(s, inOrder) && (inOrder ==> TableRunInv(s))
    ensures AnswersInv(Exec(s, schedule), inOrder)
    decreases |schedule|
  {
    hide Step, Blocked, Inv, AnswersInv, TableRunInv;
    if schedule != [] {
      var t := schedule[0];
      if t < |s.threads| && !Blocked(s, s.threads[t]) {
        StepKeepsInv(s, t);
        StepKeepsAnswers(s, t, inOrder);
        if inOrder {
          StepKeepsTableRun(s, t);
        }
        ExecKeepsAnswers(Step(s, t), schedule[1..], inOrder);
      } else {
        ExecKeepsAnswers(s, schedule[1..], inOrder);
      }
    }
  }

  // In every run the codes counted are, in order, those of the replies made to the requests
  // counted, and every reply is a right one.
  lemma EveryRunCountsItsAnswers(queues: seq<seq<Job>>, schedule: seq<nat>)
    ensures var s := Exec(Initial(queues), schedule);
            && AnswersInv(s, false)
            && (ModelledQueues(queues) ==> AnswersInv(s, true))
  {
    hide Exec, Inv, IsAnswer, IsValid, TableRunInv, ModelledQueues;
    InitialInv(queues);
    ExecKeepsAnswers(Initial(queues), schedule, false);
    if ModelledQueues(queues) {
      EveryRunKeepsTable(queues, []);
      ExecNothing(Initial(queues));
      ExecKeepsAnswers(Initial(queues), schedule, true);
    }
  }

  // ---------------------------------------------------------------------------
  // A finished run

  // All requests of the queues, and the codes that `code` gives them.
  function Requests(queues: seq<seq<Job>>): seq<Job> {
    if queues == [] then [] else queues[0] + Requests(queues[1..])
  }

  ghost function CodesOf(js: seq<Job>, code: Job -> int): (cs: seq<int>)
    ensures |cs| == |js| && forall i :: 0 <= i < |js| ==> cs[i] == code(js[i])
  {
    seq(|js|, i requires 0 <= i < |js| => code(js[i]))
  }

  lemma {:induction false} PendingAtStart(queues: seq<seq<Job>>)
    ensures Pending(Initial(queues).threads) == multiset(Requests(queues))
  {
    hide PendingOf;
    var ths := Initial(queues).threads;
    if queues != [] {
      PendingAtStart(queues[1..]);
      assert ths[1..] == Initial(queues[1..]).threads;
      IdlePending(queues[0]);
    }
  }

  lemma IdlePending(queue: seq<Job>)
    ensures PendingOf(Thread(Idle, queue)) == multiset(queue)
  {
  }

  lemma CodesAdd(a: seq<Job>, b: seq<Job>, code: Job -> int)
    ensures CodesOf(a + b, code) == CodesOf(a, code) + CodesOf(b, code)
  {
  }

  // Taking one request out takes its code out.
  lemma CodesWithout(l: seq<Job>, x: Job, r: seq<Job>, code: Job -> int)
    ensures multiset(CodesOf(l + [x] + r, code)) == multiset(CodesOf(l + r, code)) + multiset{code(x)}
    ensures multiset(l + [x] + r) == multiset(l + r) + multiset{x}
  {
    CodesAdd(l + [x], r, code);
    CodesAdd(l, [x], code);
    CodesAdd(l, r, code);
    assert CodesOf([x], code) == [code(x)];
  }

  lemma FindOne(js: seq<Job>, x: Job) returns (l: seq<Job>, r: seq<Job>)
    requires x in multiset(js)
    ensures js == l + [x] + r
  {
    var i :| 0 <= i < |js| && js[i] == x;
    l, r := js[..i], js[i + 1..];
  }

  lemma CancelOne<T>(a: multiset<T>, b: multiset<T>, x: T)
    requires a + multiset{x} == b + multiset{x}
    ensures a == b
  {
    assert a == a + multiset{x} - multiset{x} && b == b + multiset{x} - multiset{x};
  }

  lemma {:induction false} SameCodes(a: seq<Job>, b: seq<Job>, code: Job -> int)
    requires multiset(a) == multiset(b)
    ensures multiset(CodesOf(a, code)) == multiset(CodesOf(b, code))
    decreases |a|
  {
    hide CodesOf;
    if a == [] {
      assert |multiset(b)| == 0;
      assert a == b;
    } else {
      var x, more := a[0], a[1..];
      assert a == [] + [x] + more && [] + more == more;
      CodesWithout([], x, more, code);
      var l, r := FindOne(b, x);
      CodesWithout(l, x, r, code);
      CancelOne(multiset(more), multiset(l + r), x);
      SameCodes(more, l + r, code);
    }
  }

  // When every request has only one right answer, the codes counted in a finished run are
  // exactly those answers, in whatever order the threads ran.
  lemma FinishedRunCountsCodes(queues: seq<seq<Job>>, schedule: seq<nat>, code: Job -> int, inOrder: bool)
    requires Finished(Exec(Initial(queues), schedule)) && (inOrder ==> ModelledQueues(queues))
    requires forall a: Answer :: a.job in Requests(queues) && IsAnswer(a, inOrder) ==> a.code == code(a.job)
    ensures var s := Exec(Initial(queues), schedule);
            && multiset(s.codesCounted) == multiset(CodesOf(Requests(queues), code))
            && IsTally(s.codes, s.codesCounted)
  {
    hide Exec, Initial, Pending, IsAnswer, IsTally, Finished, HoldsReply, ModelledQueues, Requests;
    var s := Exec(Initial(queues), schedule);
    EveryRunCountsItsAnswers(queues, schedule);
    FinishedRunCountsEverything(queues, schedule);
    PendingAtStart(queues);
    forall i | 0 <= i < |s.counted| ensures s.codesCounted[i] == code(s.counted[i]) {
      assert s.answered[i].job in multiset(s.counted);
    }
    assert s.codesCounted == CodesOf(s.counted, code);
    SameCodes(s.counted, Requests(queues), code);
  }

  // So an invalid request is counted under 400, and one that is answered without the table
  // under the code its handler gave.
  lemma OtherRequestsAreCounted(queues: seq<seq<Job>>, schedule: seq<nat>, code: Job -> int)
    requires Finished(Exec(Initial(queues), schedule))
    requires forall j :: j in Requests(queues) ==> !IsValid(j) || j.op.Other?
    requires forall j :: j in Requests(queues) ==> code(j) == if IsValid(j) then j.op.code else 400
    ensures multiset(Exec(Initial(queues), schedule).codesCounted) == multiset(CodesOf(Requests(queues), code))
  {
    hide Exec, Initial, IsTally, Finished, Requests, IsValid;
    FinishedRunCountsCodes(queues, schedule, code, false);
  }
}
