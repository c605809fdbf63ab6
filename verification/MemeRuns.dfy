// From the bytes of the requests to what a later view finds, in every schedule.
module MemeRuns {
  import opened Basics
  import opened Text
  import opened HttpRequest
  import opened ServerState
  import opened ServerCounters
  import opened ServerMemes
  import opened ServerRuns
  import opened ServerLosses
  import opened ServerAnswers
  import opened MemeDispatch
  import MemeForm

  // ---------------------------------------------------------------------------
  // The histories only grow

  ghost predicate Extends(s: State, s': State) {
    s.writes <= s'.writes && s.failed <= s'.failed
  }

  lemma StepExtends(s: State, t: nat)
    requires t < |s.threads| && !Blocked(s, s.threads[t])
    ensures Extends(s, Step(s, t))
  {
    hide Step, QueryTable, QueryDeleted, QueryWrites, InsertFails, IsModelled, Dec, NextPC;
    StepMemes(s, t);
  }

  lemma {:induction false} ExecExtends(s: State, schedule: seq<nat>)
    ensures Extends(s, Exec(s, schedule))
    decreases |schedule|
  {
    hide Step, Blocked;
    if schedule != [] {
      var t := schedule[0];
      if t < |s.threads| && !Blocked(s, s.threads[t]) {
        StepExtends(s, t);
        ExecExtends(Step(s, t), schedule[1..]);
      } else {
        ExecExtends(s, schedule[1..]);
      }
    }
  }

  // No change between the two states was to the number `k`.
  ghost predicate Untouched(s: State, s': State, k: string) {
    |s.writes| <= |s'.writes| && forall i :: |s.writes| <= i < |s'.writes| ==> s'.writes[i].id != k
  }

  lemma {:induction false} LookupPast(ws: seq<Write>, n: nat, k: string)
    requires n <= |ws| && forall i :: n <= i < |ws| ==> ws[i].id != k
    ensures Lookup(ws, k) == Lookup(ws[..n], k)
    decreases |ws|
  {
    if n < |ws| {
      var front := ws[..|ws| - 1];
      LookupPast(front, n, k);
      assert front[..n] == ws[..n];
    } else {
      assert ws[..n] == ws;
    }
  }

  // The table holds the same under a number that has not been touched since.
  lemma UntouchedStays(s: State, s': State, k: string)
    requires MemesInv(s) && MemesInv(s') && Extends(s, s') && Untouched(s, s', k)
    ensures RowAt(s'.table, k) == RowAt(s.table, k)
  {
    hide TableInv, Lookup, RowAt;
    LookupPast(s'.writes, |s.writes|, k);
    assert s'.writes[..|s.writes|] == s.writes;
    assert Lookup(s.writes, k) == Lookup(s'.writes, k);
  }

  // ---------------------------------------------------------------------------
  // From the bytes of one request to the answer to another

  // A run of the server: every request's operation is that of its bytes, and is modelled.
  ghost predicate ServedQueues(sv: Server, queues: seq<seq<Job>>) {
    forall i, j :: 0 <= i < |queues| && j in queues[i] ==> IsServed(sv, j) && IsModelled(j.op)
  }

  ghost predicate ServedRunInv(sv: Server, s: State) {
    TableRunInv(s) && forall j :: j in AllJobs(s) ==> IsServed(sv, j)
  }

  lemma ServedRunStarts(sv: Server, queues: seq<seq<Job>>, before: seq<nat>)
    requires ServedQueues(sv, queues)
    ensures ServedRunInv(sv, Exec(Initial(queues), before))
  {
    hide Exec, Initial, TableRunInv, AllJobs, IsServed, IsModelled;
    EveryRunKeepsTable(queues, before);
    ExecConserves(Initial(queues), before);
    forall j | j in AllJobs(Initial(queues)) ensures IsServed(sv, j) {
      InitialJobs(queues, j);
    }
  }

  lemma ServedRunGoesOn(sv: Server, s: State, schedule: seq<nat>)
    requires ServedRunInv(sv, s)
    ensures ServedRunInv(sv, Exec(s, schedule))
  {
    hide Exec, TableRunInv, AllJobs, IsServed;
    ExecKeepsTableRun(s, schedule);
    ExecConserves(s, schedule);
  }

  // What a thread at the table is doing is what the bytes of its request ask for.
  lemma AtTableAsks(sv: Server, s: State, t: nat, path: string)
    requires HasMemes(sv) && ServedRunInv(sv, s)
    requires t < |s.threads| && (s.threads[t].pc.Querying? || s.threads[t].pc.Inserting?)
    requires IsFor(s.threads[t].pc.job.text, path) && "/meme/" <= path
    ensures Asks(sv, s.threads[t].pc.job.text, s.threads[t].pc.job.op)
    ensures IsModelledAt(s.threads[t].pc)
  {
    hide HasMemes, TableRunInv, AllJobs, IsServed, IsFor, Asks, IsModelledAt;
    JobIsKnown(s, t);
    ServedAsks(sv, s.threads[t].pc.job, path);
    AtTableIsModelled(s, t);
  }

  // The request posts a row, as a new meme or to change an old one.
  ghost predicate IsPost(text: string, row: Row, update: Option<string>) {
    IsFilledIn(row) && IsFor(text, "/meme/create") && ParseRequest(text).body == PostedBody(row, update)
  }

  // Thread `u` is about to view the number `id`.
  ghost predicate IsViewing(s: State, u: nat, id: string) {
    && u < |s.threads| && s.threads[u].pc.Querying?
    && IsNumber(id) && IsFor(s.threads[u].pc.job.text, "/meme/view?id=" + id)
  }

  // The view finds the row, and is answered with 200, or finds none, and is answered with 404.
  ghost predicate Finds(s: State, u: nat, id: string, found: Option<Row>) {
    && u < |s.threads| && s.threads[u].pc.Querying?
    && NextPC(s, u) == LeavingTable(s.threads[u].pc.job, if found.Some? then 200 else 404)
    && RowAt(s.table, Key(id)) == found
  }

  lemma ViewFinds(sv: Server, s: State, u: nat, id: string)
    requires HasMemes(sv) && ServedRunInv(sv, s) && IsViewing(s, u, id)
    ensures Finds(s, u, id, RowAt(s.table, Key(id)))
  {
    hide HasMemes, Asks, IsFor, Key, RowAt, Inv, TableInv, Lookup, AllJobs, IsModelled, IsServed, MemeForm.Fits;
    var j := s.threads[u].pc.job;
    AtTableAsks(sv, s, u, "/meme/view?id=" + id);
    ViewReachesItsMeme(sv, j.text, id, j.op);
    ViewSeesLastWrite(s, u);
  }

  lemma OneTurn(s: State, t: nat)
    requires t < |s.threads| && !Blocked(s, s.threads[t])
    ensures Exec(s, [t]) == Step(s, t)
  {
    hide Step, Blocked;
    assert [t][1..] == [];
  }

  lemma ViewFindsUntouched(sv: Server, s: State, between: seq<nat>, u: nat, id: string)
    requires HasMemes(sv) && ServedRunInv(sv, s)
    requires var s' := Exec(s, between); IsViewing(s', u, id) && Untouched(s, s', Key(id))
    ensures Finds(Exec(s, between), u, id, RowAt(s.table, Key(id)))
  {
    hide HasMemes, IsViewing, Finds, Exec, Inv, MemesInv, AllJobs, IsModelled, IsServed, Key, RowAt, Untouched, Extends;
    ServedRunGoesOn(sv, s, between);
    ExecExtends(s, between);
    UntouchedStays(s, Exec(s, between), Key(id));
    ViewFinds(sv, Exec(s, between), u, id);
  }

  // A meme posted to the server, whatever its other threads do: once its insert is done, and
  // as long as no request changes or deletes it, viewing its number finds exactly the row that
  // the texts typed into the form are literals of; if they are none it is never found at all.
  lemma PostedMemeIsSeen(sv: Server, queues: seq<seq<Job>>, before: seq<nat>, t: nat, between: seq<nat>, u: nat,
                         row: Row, id: string)
    requires HasMemes(sv) && ServedQueues(sv, queues)
    requires var s := Exec(Initial(queues), before);
             && t < |s.threads| && s.threads[t].pc.Inserting? && IsPost(s.threads[t].pc.job.text, row, None)
             && Key(id) == Dec(s.memeCount) && IsViewing(Exec(Exec(s, [t]), between), u, id)
    ensures var s := Exec(Initial(queues), before);
            var s' := Exec(Exec(s, [t]), between);
            && NextPC(s, t) == LeavingTable(s.threads[t].pc.job, if SqlRow(row).Some? then 200 else 404)
            && (SqlRow(row).None? || Untouched(Exec(s, [t]), s', Key(id)) ==> Finds(s', u, id, SqlRow(row)))
  {
    hide HasMemes, IsFilledIn, Asks, IsFor, PostedBody, BodyFits, ParseRequest, IsViewing, Finds, Exec, Step, NextPC,
         LocksInv, CountersInv, IdsInv, MemesInv, AllJobs, IsModelled, IsServed, ServedQueues, Key, Untouched, SqlRow;
    var s := Exec(Initial(queues), before);
    var j := s.threads[t].pc.job;
    ServedRunStarts(sv, queues, before);
    AtTableAsks(sv, s, t, "/meme/create");
    PostReachesTheTable(sv, j.text, row, None, j.op);
    InsertSucceedsIff(s, t);
    OneTurn(s, t);
    ServedRunGoesOn(sv, s, [t]);
    if SqlRow(row).None? {
      LostIsNotFound(sv, Exec(s, [t]), between, u, id);
    } else if Untouched(Exec(s, [t]), Exec(Exec(s, [t]), between), Key(id)) {
      ViewFindsUntouched(sv, Exec(s, [t]), between, u, id);
    }
  }

  // A number whose insert failed is not found, however the run goes on.
  lemma LostIsNotFound(sv: Server, s: State, between: seq<nat>, u: nat, id: string)
    requires HasMemes(sv) && ServedRunInv(sv, s) && Key(id) in s.failed && IsViewing(Exec(s, between), u, id)
    ensures Finds(Exec(s, between), u, id, None)
  {
    hide HasMemes, IsViewing, Finds, Exec, Inv, AllJobs, IsModelled, IsServed, Key, WritesInv, Ids;
    ServedRunGoesOn(sv, s, between);
    ExecExtends(s, between);
    ViewFinds(sv, Exec(s, between), u, id);
  }

  // A new version posted for a number: a later view of the number, untouched since, finds the
  // new row exactly when the number was there and the texts are literals; otherwise it finds
  // what was there before.
  lemma PostedChangeIsSeen(sv: Server, queues: seq<seq<Job>>, before: seq<nat>, t: nat, between: seq<nat>, u: nat,
                           row: Row, number: string, id: string)
    requires HasMemes(sv) && ServedQueues(sv, queues) && IsNumber(number) && Key(id) == Key(number)
    requires var s := Exec(Initial(queues), before);
             && t < |s.threads| && s.threads[t].pc.Querying? && IsPost(s.threads[t].pc.job.text, row, Some(number))
             && IsViewing(Exec(Exec(s, [t]), between), u, id)
             && Untouched(Exec(s, [t]), Exec(Exec(s, [t]), between), Key(id))
    ensures var s := Exec(Initial(queues), before);
            var was := RowAt(s.table, Key(id));
            && NextPC(s, t) == LeavingTable(s.threads[t].pc.job, if SqlRow(row).Some? then 200 else 404)
            && Finds(Exec(Exec(s, [t]), between), u, id, if was.Some? && SqlRow(row).Some? then SqlRow(row) else was)
  {
    hide HasMemes, IsFilledIn, Asks, IsFor, PostedBody, BodyFits, ParseRequest, IsViewing, Finds, Exec, Step, NextPC,
         LocksInv, CountersInv, IdsInv, MemesInv, AllJobs, IsModelled, IsServed, ServedQueues, Key, Untouched, SqlRow;
    var s := Exec(Initial(queues), before);
    var j := s.threads[t].pc.job;
    ServedRunStarts(sv, queues, before);
    AtTableAsks(sv, s, t, "/meme/create");
    NumberHasNoQuote(number);
    PostReachesTheTable(sv, j.text, row, Some(number), j.op);
    TableAnswers(s, t);
    StepMemes(s, t);
    OneTurn(s, t);
    ServedRunGoesOn(sv, s, [t]);
    ViewFindsUntouched(sv, Exec(s, [t]), between, u, id);
  }

  // A meme whose deletion has been asked for is never found again.
  lemma DeletedMemeIsNotSeen(sv: Server, queues: seq<seq<Job>>, before: seq<nat>, t: nat, between: seq<nat>, u: nat,
                             number: string, id: string)
    requires HasMemes(sv) && ServedQueues(sv, queues) && IsNumber(number) && Key(id) == Key(number)
    requires var s := Exec(Initial(queues), before);
             && t < |s.threads| && s.threads[t].pc.Querying?
             && IsFor(s.threads[t].pc.job.text, "/meme/delete?id=" + number)
             && Key(id) in s.table && IsViewing(Exec(Exec(s, [t]), between), u, id)
    ensures var s := Exec(Initial(queues), before);
            && NextPC(s, t) == LeavingTable(s.threads[t].pc.job, 200)
            && Finds(Exec(Exec(s, [t]), between), u, id, None)
  {
    hide HasMemes, Asks, IsFor, IsViewing, Finds, Exec, Step, NextPC, Inv, Key,
         AllJobs, IsModelled, IsServed, ServedQueues, WritesInv, Ids;
    var s := Exec(Initial(queues), before);
    var j := s.threads[t].pc.job;
    ServedRunStarts(sv, queues, before);
    AtTableAsks(sv, s, t, "/meme/delete?id=" + number);
    NumberHasNoQuote(number);
    DeleteReachesItsMeme(sv, j.text, number, j.op);
    TableAnswers(s, t);
    StepMemes(s, t);
    OneTurn(s, t);
    ServedRunGoesOn(sv, s, [t]);
    ServedRunGoesOn(sv, Exec(s, [t]), between);
    DeletedForGood(Exec(s, [t]), between);
    ViewFinds(sv, Exec(Exec(s, [t]), between), u, id);
  }

  // A request for the edit page of a number gets that page exactly when the number has a row;
  // one for the list gets it exactly when its search text is a literal.
  lemma PagesAreAnswered(sv: Server, queues: seq<seq<Job>>, before: seq<nat>, t: nat, number: string, query: string)
    requires HasMemes(sv) && ServedQueues(sv, queues) && IsNumber(number) && query != "" && '&' !in query
    requires t < |Exec(Initial(queues), before).threads| && Exec(Initial(queues), before).threads[t].pc.Querying?
    ensures var s := Exec(Initial(queues), before);
            var j := s.threads[t].pc.job;
            && (IsFor(j.text, "/meme/edit?update=" + number) ==>
                  NextPC(s, t) == LeavingTable(j, if Key(number) in s.table then sv.editPage else 404))
            && (IsFor(j.text, "/meme/list") ==> NextPC(s, t) == LeavingTable(j, 200))
            && (IsFor(j.text, "/meme/list?query=" + query) ==>
                  NextPC(s, t) == LeavingTable(j, if Literal(MemeForm.FieldText(query)).Some? then 200 else 404))
  {
    hide HasMemes, Asks, IsFor, Exec, NextPC, AllJobs, Inv, MemesInv, IsServed, ServedQueues, Key, Literal,
         MemeForm.FieldText, IsModelled;
    var s := Exec(Initial(queues), before);
    var j := s.threads[t].pc.job;
    ServedRunStarts(sv, queues, before);
    AtTableIsModelled(s, t);
    TableAnswers(s, t);
    NumberHasNoQuote(number);
    if IsFor(j.text, "/meme/edit?update=" + number) {
      AtTableAsks(sv, s, t, "/meme/edit?update=" + number);
      EditReachesItsMeme(sv, j.text, number, j.op);
    }
    if IsFor(j.text, "/meme/list") {
      AtTableAsks(sv, s, t, "/meme/list");
      ListReachesTheTable(sv, j.text, query, j.op);
      NothingIsLiteral();
    }
    if IsFor(j.text, "/meme/list?query=" + query) {
      AtTableAsks(sv, s, t, "/meme/list?query=" + query);
      ListReachesTheTable(sv, j.text, query, j.op);
    }
  }

  lemma NothingIsLiteral()
    ensures Literal("").Some?
  {
  }

  // ---------------------------------------------------------------------------
  // The requests that lose an id

  // Every finished run of the server in which a meme was posted whose texts break off has lost
  // an id.
  lemma BrokenPostLosesAnId(sv: Server, queues: seq<seq<Job>>, schedule: seq<nat>, i: nat, j: Job, row: Row)
    requires HasMemes(sv) && ServedQueues(sv, queues) && Finished(Exec(Initial(queues), schedule))
    requires i < |queues| && j in queues[i] && IsPost(j.text, row, None) && BreaksOff(Texts(row))
    ensures Exec(Initial(queues), schedule).failed != {}
  {
    hide HasMemes, Asks, ParseRequest, IsFilledIn, PostedBody, BodyFits, Exec, Initial, BreaksOff, SqlRow, Finished,
         IsServed, IsModelled;
    ServedAsks(sv, j, "/meme/create");
    PostReachesTheTable(sv, j.text, row, None, j.op);
    BrokenIsNoLiteral("", row);
    assert IsLossy(j);
    FinishedRunLosesIff(queues, schedule);
  }

  // An apostrophe in the top text is enough: the server makes a create of the form, and there is
  // a run that loses its id.
  lemma ApostropheLosesAnId(sv: Server, text: string, wild: Outcome)
    requires HasMemes(sv) && IsPost(text, Row("a.jpg", "it's", "b"), None)
    ensures var j := Job(text, Create(Row("a.jpg", "it's", "b")), wild);
            IsServed(sv, j) && exists schedule :: Exec(Initial([[j]]), schedule).failed != {}
  {
    hide HasMemes, Asks, ParseRequest, PostedBody, BreaksOff, SqlRow, MemeForm.TextsFit, MemeForm.Encode, Exec, Initial,
         Inv, MemesInv, Finished, IsForMemes, Literal;
    var row := Row("a.jpg", "it's", "b");
    var j := Job(text, Create(row), wild);
    MemeForm.ShortTextsFit(row.template, row.top, row.bottom);
    PostReachesTheTable(sv, text, row, None, Create(row));
    AskedIsForMemes(sv, text, j.op);
    ApostropheBreaksOff();
    InitialInv([[j]]);
    var schedule := CanFinish(Initial([[j]]));
    var queues := [[j]];
    assert ServedQueues(sv, queues);
    BrokenPostLosesAnId(sv, queues, schedule, 0, j, row);
  }

  lemma ApostropheBreaksOff()
    ensures BreaksOff(Texts(Row("a.jpg", "it's", "b")))
  {
    hide Quotes;
    var texts := "a.jpg" + "it's" + "b";
    assert texts == "a.jpgit" + ("'" + "sb");
    QuotesAdd("a.jpgit", "'" + "sb");
    QuotesAdd("'", "sb");
    QuotesNone("a.jpgit");
    QuotesNone("sb");
    assert Quotes("'") == 1 by { OneQuote(); }
  }

  lemma OneQuote()
    ensures Quotes("'") == 1
  {
    assert "'"[1..] == "";
  }
}
