// The state that the threads of the server share, and the steps of handle_read on it.
//
// Any number of threads run handle_read. They share the url and code counters under `mtx` and
// the meme table and id counter under `id_lock`. A step is one access to shared state by one
// thread; a schedule is any sequence of thread numbers. The table stands for the MEMES
// relation; its key is the decimal text of the ID column.
module ServerState {
  import opened Basics
  import opened Text
  import opened HttpRequest

  datatype Row = Row(template: string, top: string, bottom: string)

  // What the handler of a valid request does. `Other` covers everything decided without the
  // meme table, including the checks that precede it.
  datatype Op =
    | Other(code: int)
    | Create(row: Row)
    | Edit(id: string, row: Row)
    | EditForm(id: string, pageCode: int)
    | View(id: string)
    | List(query: string)
    | Delete(id: string)

  // The text between the quotes of an SQL literal: two quotes in a row stand for one, and a
  // single one ends the literal too early.
  function Literal(s: string): Option<string> {
    if s == "" then Some("")
    else if s[0] != '\'' then Cons(s[0], Literal(s[1..]))
    else if |s| > 1 && s[1] == '\'' then Cons('\'', Literal(s[2..]))
    else None
  }

  function Cons(c: char, s: Option<string>): Option<string> {
    if s.Some? then Some([c] + s.value) else None
  }

  // What a statement stores when it is given the row; None when a text breaks it.
  function SqlRow(row: Row): Option<Row> {
    var template, top, bottom := Literal(row.template), Literal(row.top), Literal(row.bottom);
    if template.Some? && top.Some? && bottom.Some? then Some(Row(template.value, top.value, bottom.value)) else None
  }

  lemma {:induction false} LiteralIsPlainIff(s: string)
    ensures Literal(s) == Some(s) <==> '\'' !in s
    ensures Literal(s).Some? ==> |Literal(s).value| <= |s|
  {
    if s != "" {
      if s[0] != '\'' {
        LiteralIsPlainIff(s[1..]);
        assert s == [s[0]] + s[1..];
      } else if |s| > 1 && s[1] == '\'' {
        LiteralIsPlainIff(s[2..]);
      }
    }
  }

  // The text with every quote doubled.
  function Doubled(s: string): string {
    if s == "" then "" else (if s[0] == '\'' then "\'\'" else [s[0]]) + Doubled(s[1..])
  }

  // A text is a literal of another one exactly when it is that one with every quote doubled.
  lemma {:induction false} LiteralUndoublesIff(s: string, r: string)
    ensures Literal(s) == Some(r) <==> s == Doubled(r)
    decreases |s| + |r|
  {
    if s == "" {
    } else if s[0] != '\'' {
      if r != "" {
        LiteralUndoublesIff(s[1..], r[1..]);
        assert s == [s[0]] + s[1..] && r == [r[0]] + r[1..];
        assert r[0] == s[0] ==> Doubled(r)[1..] == Doubled(r[1..]);
      }
    } else if |s| > 1 && s[1] == '\'' {
      if r != "" {
        LiteralUndoublesIff(s[2..], r[1..]);
        assert s == "\'\'" + s[2..] && r == [r[0]] + r[1..];
        assert r[0] == '\'' ==> Doubled(r)[2..] == Doubled(r[1..]);
      }
    } else if r != "" && r[0] == '\'' {
      assert Doubled(r)[1] == '\'';
    }
  }

  // A row is stored as it is exactly when it holds no quote.
  lemma RowIsStoredIff(row: Row)
    ensures SqlRow(row) == Some(row) <==> '\'' !in row.template && '\'' !in row.top && '\'' !in row.bottom
  {
    hide Literal;
    LiteralIsPlainIff(row.template);
    LiteralIsPlainIff(row.top);
    LiteralIsPlainIff(row.bottom);
  }

  function Quotes(s: string): nat {
    if s == "" then 0 else Quotes(s[1..]) + if s[0] == '\'' then 1 else 0
  }

  // Characters that neither end a statement nor hide a quote from it, wherever they stand.
  predicate IsHarmless(c: char) {
    || 'A' <= c <= 'Z' || 'a' <= c <= 'z' || IsDigit(c) || c as int >= 128
    || c == ' ' || c == '.' || c == ',' || c == '!' || c == '?' || c == '_'
  }

  // Put between quotes, the texts leave the last literal of their statement open, up to its
  // end and over its semicolon: an SQL error, and nothing is executed.
  predicate BreaksOff(texts: string) {
    Quotes(texts) % 2 == 1 && forall i :: 0 <= i < |texts| ==> texts[i] == '\'' || IsHarmless(texts[i])
  }

  // Harmless characters leave out everything that may end a statement, begin a comment, an
  // identifier in quotes of another kind or a variable.
  lemma HarmlessIsHarmless(c: char)
    ensures c in {'\'', ';', '"', '`', '[', ']', '-', '/', '*', '$', '@', '#', ':', '(', ')', '%', '\0', '\n'} ==>
              !IsHarmless(c)
    ensures c in {' ', '.', ',', '!', '?', '_'} || 'a' <= c <= 'z' || 'A' <= c <= 'Z' || '0' <= c <= '9'
            || c as int >= 128 ==>
              IsHarmless(c)
  {
  }

  // The quotes are counted wherever they stand.
  lemma {:induction false} QuotesAreCounted(s: string)
    ensures Quotes(s) == multiset(s)['\'']
  {
    if s != "" {
      QuotesAreCounted(s[1..]);
      assert s == [s[0]] + s[1..];
    }
  }

  lemma BreaksOffIff(texts: string)
    ensures BreaksOff(texts) <==>
              multiset(texts)['\''] % 2 == 1 && forall c :: c in texts && c != '\'' ==> IsHarmless(c)
  {
    hide Quotes, IsHarmless;
    QuotesAreCounted(texts);
  }

  function Texts(row: Row): string { row.template + row.top + row.bottom }

  lemma {:induction false} QuotesAdd(a: string, b: string)
    ensures Quotes(a + b) == Quotes(a) + Quotes(b)
  {
    if a == "" {
      assert a + b == b;
    } else {
      QuotesAdd(a[1..], b);
      assert (a + b)[1..] == a[1..] + b;
    }
  }

  lemma {:induction false} LiteralIsEven(s: string)
    requires Literal(s).Some?
    ensures Quotes(s) % 2 == 0
  {
    hide Quotes;
    if s == "" {
      QuotesNone(s);
    } else if s[0] != '\'' {
      assert s == s[..1] + s[1..];
      QuotesAdd(s[..1], s[1..]);
      QuotesNone(s[..1]);
      LiteralIsEven(s[1..]);
    } else {
      assert s == "\'\'" + s[2..];
      QuotesAdd("\'\'", s[2..]);
      QuotePair();
      LiteralIsEven(s[2..]);
    }
  }

  lemma QuotePair()
    ensures Quotes("\'\'") == 2
  {
    assert "\'\'"[1..] == "\'" && "\'"[1..] == "";
  }

  lemma {:induction false} QuotesNone(s: string)
    requires '\'' !in s
    ensures Quotes(s) == 0
  {
    if s != "" {
      QuotesNone(s[1..]);
    }
  }

  // What breaks off is no literal.
  lemma BrokenIsNoLiteral(id: string, row: Row)
    ensures BreaksOff(id) ==> Literal(id).None?
    ensures BreaksOff(Texts(row)) ==> SqlRow(row).None?
  {
    hide Literal, Quotes;
    if Literal(id).Some? {
      LiteralIsEven(id);
    }
    if SqlRow(row).Some? {
      LiteralIsEven(row.template);
      LiteralIsEven(row.top);
      LiteralIsEven(row.bottom);
      QuotesAdd(row.template + row.top, row.bottom);
      QuotesAdd(row.template, row.top);
    }
  }

  predicate IsNumber(id: string) { id != "" && AllDigits(id) }

  // The ID column holds integers: a number is compared by its value, so "01" is the row 1.
  function Key(id: string): string { if IsNumber(id) then Dec(DecValue(id)) else id }

  // Two numbers are the same key exactly when they have the same value.
  lemma KeyIsValue(a: string, b: string)
    requires IsNumber(a) && IsNumber(b)
    ensures Key(a) == Key(b) <==> DecValue(a) == DecValue(b)
    ensures Key("0" + a) == Key(a)
  {
    hide Dec;
    if Key(a) == Key(b) {
      DecInjective(DecValue(a), DecValue(b));
    }
    LeadingZero(a);
  }

  lemma {:induction false} LeadingZero(a: string)
    requires AllDigits(a)
    ensures AllDigits("0" + a) && DecValue("0" + a) == DecValue(a)
  {
    if a == "" {
      assert ("0" + a)[..0] == "";
    } else {
      var front := a[..|a| - 1];
      LeadingZero(front);
      assert ("0" + a)[..|a|] == "0" + front;
    }
  }

  // The statement of the request is an SQL error, because a quote breaks a literal.
  predicate IsFaulty(op: Op) {
    match op
    case Create(row) => SqlRow(row).None?
    case Edit(_, row) => SqlRow(row).None?
    case EditForm(id, _) => Literal(id).None?
    case View(id) => Literal(id).None?
    case List(query) => Literal(query).None?
    case Delete(id) => Literal(id).None?
    case Other(_) => false
  }

  // A text with no digit in it is never taken for a number.
  predicate HasNoDigit(id: string) { forall i :: 0 <= i < |id| ==> !IsDigit(id[i]) }

  predicate IsModelledId(id: string) {
    IsNumber(id) || (HasNoDigit(id) && Literal(id).Some?) || BreaksOff(id)
  }

  predicate IsModelledRow(row: Row) { SqlRow(row).Some? || BreaksOff(Texts(row)) }

  // It is known what the statement of the request does: its texts are literals, or surely break
  // it off, and its id is a plain number, or surely none. Any other text may go on as SQL of
  // its own, or be converted to a number.
  predicate IsModelled(op: Op) {
    match op
    case Create(row) => IsModelledRow(row)
    case Edit(id, row) => IsNumber(id) && IsModelledRow(row)
    case EditForm(id, _) => IsModelledId(id)
    case View(id) => IsModelledId(id)
    case List(query) => Literal(query).Some?
    case Delete(id) => IsModelledId(id)
    case Other(_) => true
  }

  lemma LiteralIff(s: string)
    ensures Literal(s).Some? <==> exists r :: s == Doubled(r)
  {
    hide Doubled, Literal;
    if Literal(s).Some? {
      LiteralUndoublesIff(s, Literal(s).value);
    }
    if r :| s == Doubled(r) {
      LiteralUndoublesIff(s, r);
    }
  }

  // That is, character by character.
  lemma ModelledIff(id: string, pageCode: int, row: Row)
    ensures var number := id != "" && forall c :: c in id ==> '0' <= c <= '9';
            var word := (forall c :: c in id ==> !('0' <= c <= '9')) && exists r :: id == Doubled(r);
            && (IsModelled(View(id)) <==> number || word || BreaksOff(id))
            && (IsModelled(EditForm(id, pageCode)) <==> IsModelled(View(id)))
            && (IsModelled(Delete(id)) <==> IsModelled(View(id)))
            && (IsModelled(Edit(id, row)) <==> number && IsModelled(Create(row)))
            && (IsModelled(List(id)) <==> exists r :: id == Doubled(r))
    ensures IsModelled(Create(row)) <==>
              || BreaksOff(Texts(row))
              || ((exists r :: row.template == Doubled(r)) && (exists r :: row.top == Doubled(r))
                  && exists r :: row.bottom == Doubled(r))
  {
    hide Literal, BreaksOff, Doubled;
    LiteralIff(id);
    LiteralIff(row.template);
    LiteralIff(row.top);
    LiteralIff(row.bottom);
    forall i | 0 <= i < |id| ensures id[i] in id {
    }
  }

  // Some that are not: a decimal is compared as a number, a column name is an expression, and
  // two quotes apart may enclose anything.
  lemma NotModelled(row: Row)
    ensures !IsModelled(Delete("1.0")) && !IsModelled(View("1.0")) && !IsModelled(Edit("ID", row))
    ensures !IsModelled(Create(Row("a.jpg", "a'||'b", "c"))) && !IsModelled(List("'"))
  {
    hide Quotes;
    var id, top := "1.0", "a'||'b";
    assert id[0] == '1' && id[1] == '.' && "ID"[0] == 'I';
    QuotesNone(id);
    assert top[1..] == "'||'b" && Literal(top[1..]).None?;
    var texts := Texts(Row("a.jpg", top, "c"));
    assert texts[7] == '|';
  }

  // What a statement that is not modelled leaves in the table, and the code of its reply:
  // anything at all.
  datatype Outcome = Outcome(table: map<string, Row>, code: int)

  // A request: the text read from the socket, what its handler will do, and the outcome if that
  // is not modelled.
  datatype Job = Job(text: string, op: Op, wild: Outcome)

  ghost function PathOf(j: Job): string { ParseRequest(j.text).path }
  ghost predicate IsValid(j: Job) { ParseRequest(j.text).valid }

  // A change to the table, in the order in which the lock let them through.
  datatype Write = Put(id: string, row: Row) | Change(id: string, row: Row) | Drop(id: string)

  // Where a thread is in handle_read.
  datatype PC =
    | Idle                                      // waiting for the next request
    | WantCreate(job: Job) | Creating(job: Job) // mtx around createByName
    | Handling(job: Job)                        // HandleRequest, outside any lock
    | WantTable(job: Job)                       // waiting for id_lock
    | Bumping(job: Job)                         // meme_count++
    | Inserting(job: Job, id: string)           // INSERT
    | Querying(job: Job)                        // any other statement on the table
    | LeavingTable(job: Job, code: int)
    | WantCount(job: Job, code: int)            // waiting for mtx
    | UrlInit(job: Job, code: int) | UrlLoad(job: Job, code: int) | UrlStore(job: Job, code: int, n: int)
    | CodeInit(code: int) | CodeLoad(code: int) | CodeStore(code: int, n: int)
    | LeavingCount
    | WantWrite | Writing                       // mtx around async_write

  datatype Thread = Thread(pc: PC, queue: seq<Job>)

  // What a request is answered with.
  datatype Answer = Answer(job: Job, code: int)

  // The shared state, the threads, and eight histories: the requests counted by url and by
  // code, the ids handed out, the ids deleted from the table, the ids whose insert failed, the
  // changes made to the table, the reply that each thread is holding, and the replies counted.
  datatype State = State(
    mtx: Option<nat>, idLock: Option<nat>,
    urls: map<string, int>, codes: map<int, int>,
    table: map<string, Row>, memeCount: nat,
    threads: seq<Thread>,
    counted: seq<Job>, codesCounted: seq<int>, issued: seq<string>, deleted: set<string>, failed: set<string>,
    writes: seq<Write>, held: map<nat, Answer>, answered: seq<Answer>)

  function Initial(queues: seq<seq<Job>>): State {
    State(None, None, map[], map[], map[], 0,
          seq(|queues|, i requires 0 <= i < |queues| => Thread(Idle, queues[i])), [], [], [], {}, {}, [], map[], [])
  }

  predicate HoldsMtx(pc: PC) {
    pc.Creating? || pc.UrlInit? || pc.UrlLoad? || pc.UrlStore? || pc.CodeInit? || pc.CodeLoad? || pc.CodeStore?
    || pc.LeavingCount? || pc.Writing?
  }

  predicate HoldsId(pc: PC) {
    pc.Bumping? || pc.Inserting? || pc.Querying? || pc.LeavingTable?
  }

  predicate IsFinished(th: Thread) { th.pc == Idle && th.queue == [] }

  function Get<K>(m: map<K, int>, k: K): int { if k in m then m[k] else 0 }

  // ---------------------------------------------------------------------------
  // The steps. Each gives the new state without the thread's own program counter, and the
  // new program counter.

  // Waiting for and leaving the locks, and picking up a request.
  predicate Blocked(s: State, th: Thread) {
    || IsFinished(th)
    || ((th.pc.WantCreate? || th.pc.WantCount? || th.pc.WantWrite?) && s.mtx.Some?)
    || (th.pc.WantTable? && s.idLock.Some?)
  }

  function AfterLock(pc: PC): PC
    requires pc.WantCreate? || pc.WantCount? || pc.WantWrite?
  {
    match pc
    case WantCreate(j) => Creating(j)
    case WantCount(j, c) => UrlInit(j, c)
    case WantWrite => Writing
  }

  // The statement run by a request other than a create: the code of the reply.
  function QueryCode(table: map<string, Row>, j: Job): int {
    if !IsModelled(j.op) then j.wild.code
    else if IsFaulty(j.op) then 404
    else
      match j.op
      case View(id) => if Key(id) in table then 200 else 404
      case EditForm(id, pageCode) => if Key(id) in table then pageCode else 404
      case _ => 200
  }

  function QueryTable(table: map<string, Row>, j: Job): map<string, Row> {
    if !IsModelled(j.op) then j.wild.table
    else if IsFaulty(j.op) then table
    else
      match j.op
      case Edit(id, row) => if Key(id) in table then table[Key(id) := SqlRow(row).value] else table
      case Delete(id) => table - {Key(id)}
      case _ => table
  }

  function QueryDeleted(table: map<string, Row>, op: Op): set<string> {
    if op.Delete? && IsModelled(op) && !IsFaulty(op) && Key(op.id) in table then {Key(op.id)} else {}
  }

  function QueryWrites(op: Op): seq<Write> {
    if !IsModelled(op) || IsFaulty(op) then []
    else
      match op
      case Edit(id, row) => [Change(Key(id), SqlRow(row).value)]
      case Delete(id) => [Drop(Key(id))]
      case _ => []
  }

  // A duplicate key or a broken literal.
  predicate InsertFails(s: State, op: Op, id: string) { id in s.table || !op.Create? || IsFaulty(op) }

  function InsertCode(s: State, j: Job, id: string): int {
    if !IsModelled(j.op) then j.wild.code else if InsertFails(s, j.op, id) then 404 else 200
  }

  ghost function NextPC(s: State, t: nat): PC
    requires t < |s.threads| && !Blocked(s, s.threads[t])
  {
    var th := s.threads[t];
    match th.pc
    case Idle => if IsValid(th.queue[0]) then WantCreate(th.queue[0]) else WantCount(th.queue[0], 400)
    case WantCreate(j) => AfterLock(th.pc)
    case Creating(j) => Handling(j)
    case Handling(j) => if j.op.Other? then WantCount(j, j.op.code) else WantTable(j)
    case WantTable(j) => if j.op.Create? then Bumping(j) else Querying(j)
    case Bumping(j) => Inserting(j, Dec(s.memeCount + 1))
    case Inserting(j, id) => LeavingTable(j, InsertCode(s, j, id))
    case Querying(j) => LeavingTable(j, QueryCode(s.table, j))
    case LeavingTable(j, c) => WantCount(j, c)
    case WantCount(j, c) => AfterLock(th.pc)
    case UrlInit(j, c) => UrlLoad(j, c)
    case UrlLoad(j, c) => UrlStore(j, c, Get(s.urls, PathOf(j)))
    case UrlStore(j, c, n) => CodeInit(c)
    case CodeInit(c) => CodeLoad(c)
    case CodeLoad(c) => CodeStore(c, Get(s.codes, c))
    case CodeStore(c, n) => LeavingCount
    case LeavingCount => WantWrite
    case WantWrite => AfterLock(th.pc)
    case Writing => Idle
  }

  function NextQueue(th: Thread): seq<Job> {
    if th.pc == Idle && th.queue != [] then th.queue[1..] else th.queue
  }

  function NextMtx(s: State, t: nat, pc: PC): Option<nat> {
    if pc.WantCreate? || pc.WantCount? || pc.WantWrite? then Some(t)
    else if pc.Creating? || pc.LeavingCount? || pc.Writing? then None
    else s.mtx
  }

  function NextIdLock(s: State, t: nat, pc: PC): Option<nat> {
    if pc.WantTable? then Some(t) else if pc.LeavingTable? then None else s.idLock
  }

  ghost function NextCounters(s: State, pc: PC): State {
    match pc
    case UrlInit(j, _) => if PathOf(j) in s.urls then s else s.(urls := s.urls[PathOf(j) := 0])
    case UrlStore(j, _, n) => s.(urls := s.urls[PathOf(j) := n + 1], counted := s.counted + [j])
    case CodeInit(c) => if c in s.codes then s else s.(codes := s.codes[c := 0])
    case CodeStore(c, n) => s.(codes := s.codes[c := n + 1], codesCounted := s.codesCounted + [c])
    case _ => s
  }

  function NextMemes(s: State, pc: PC): State {
    match pc
    case Bumping(_) => s.(memeCount := s.memeCount + 1, issued := s.issued + [Dec(s.memeCount + 1)])
    case Inserting(j, id) =>
      if !IsModelled(j.op) then s.(table := j.wild.table)
      else if InsertFails(s, j.op, id) then s.(failed := s.failed + {id})
      else
        var row := SqlRow(j.op.row).value;
        s.(table := s.table[id := row], writes := s.writes + [Put(id, row)])
    case Querying(j) =>
      s.(table := QueryTable(s.table, j), deleted := s.deleted + QueryDeleted(s.table, j.op),
         writes := s.writes + QueryWrites(j.op))
    case _ => s
  }

  // The reply is made where its code is decided, and is gone once it is written.
  ghost function NextHeld(s: State, t: nat): map<nat, Answer>
    requires t < |s.threads| && !Blocked(s, s.threads[t])
  {
    var th := s.threads[t];
    match th.pc
    case Idle => if IsValid(th.queue[0]) then s.held else s.held[t := Answer(th.queue[0], 400)]
    case Handling(j) => if j.op.Other? then s.held[t := Answer(j, j.op.code)] else s.held
    case Inserting(j, id) => s.held[t := Answer(j, InsertCode(s, j, id))]
    case Querying(j) => s.held[t := Answer(j, QueryCode(s.table, j))]
    case Writing => s.held - {t}
    case _ => s.held
  }

  function NextAnswered(s: State, t: nat, pc: PC): seq<Answer> {
    if pc.CodeStore? && t in s.held then s.answered + [s.held[t]] else s.answered
  }

  // Thread `t` takes one step.
  ghost function Step(s: State, t: nat): State
    requires t < |s.threads| && !Blocked(s, s.threads[t])
  {
    var th := s.threads[t];
    NextMemes(NextCounters(s, th.pc), th.pc).(
      mtx := NextMtx(s, t, th.pc),
      idLock := NextIdLock(s, t, th.pc),
      held := NextHeld(s, t),
      answered := NextAnswered(s, t, th.pc),
      threads := s.threads[t := Thread(NextPC(s, t), NextQueue(th))])
  }

  // A schedule names threads one after the other; the turn of a thread that cannot step is
  // skipped.
  ghost function Exec(s: State, schedule: seq<nat>): State
    decreases |schedule|
  {
    if schedule == [] then s
    else
      var t := schedule[0];
      Exec(if t < |s.threads| && !Blocked(s, s.threads[t]) then Step(s, t) else s, schedule[1..])
  }

  // ---------------------------------------------------------------------------
  // Locks

  ghost predicate LocksInv(s: State) {
    && (forall t: nat :: t < |s.threads| ==> (HoldsMtx(s.threads[t].pc) <==> s.mtx == Some(t)))
    && (forall t: nat :: t < |s.threads| ==> (HoldsId(s.threads[t].pc) <==> s.idLock == Some(t)))
    && (s.mtx.Some? ==> s.mtx.value < |s.threads|)
    && (s.idLock.Some? ==> s.idLock.value < |s.threads|)
  }

  lemma StepLocks(s: State, t: nat)
    requires t < |s.threads| && !Blocked(s, s.threads[t])
    ensures var s' := Step(s, t);
            && |s'.threads| == |s.threads|
            && s'.threads == s.threads[t := Thread(NextPC(s, t), NextQueue(s.threads[t]))]
            && s'.mtx == NextMtx(s, t, s.threads[t].pc)
            && s'.idLock == NextIdLock(s, t, s.threads[t].pc)
  {
    hide NextPC, NextHeld, NextAnswered, NextCounters, NextMemes;
  }

  // One thread's locks: it takes only a free lock and gives back only its own.
  lemma PcLocks(s: State, t: nat)
    requires t < |s.threads| && !Blocked(s, s.threads[t])
    requires HoldsMtx(s.threads[t].pc) <==> s.mtx == Some(t)
    requires HoldsId(s.threads[t].pc) <==> s.idLock == Some(t)
    ensures var pc, pc' := s.threads[t].pc, NextPC(s, t);
            var mtx, id := NextMtx(s, t, pc), NextIdLock(s, t, pc);
            && (HoldsMtx(pc') <==> mtx == Some(t))
            && (HoldsId(pc') <==> id == Some(t))
            && (mtx != s.mtx ==> (s.mtx.None? && mtx == Some(t)) || (s.mtx == Some(t) && mtx.None?))
            && (id != s.idLock ==> (s.idLock.None? && id == Some(t)) || (s.idLock == Some(t) && id.None?))
  {
    hide PathOf, IsValid, Dec, QueryCode, InsertCode, Get;
  }

  lemma StepKeepsLocks(s: State, t: nat)
    requires LocksInv(s) && t < |s.threads| && !Blocked(s, s.threads[t])
    ensures LocksInv(Step(s, t))
  {
    hide Step, NextPC, NextMtx, NextIdLock, HoldsMtx, HoldsId, Blocked;
    StepLocks(s, t);
    PcLocks(s, t);
  }

  // Each lock has at most one holder, and nobody holds both.
  lemma LocksExclude(s: State, t: nat, u: nat)
    requires LocksInv(s) && t < |s.threads| && u < |s.threads|
    ensures HoldsMtx(s.threads[t].pc) && HoldsMtx(s.threads[u].pc) ==> t == u
    ensures HoldsId(s.threads[t].pc) && HoldsId(s.threads[u].pc) ==> t == u
    ensures !(HoldsMtx(s.threads[t].pc) && HoldsId(s.threads[t].pc))
  {
    hide LocksInv;
    LockHolders(s, t);
    LockHolders(s, u);
  }

  lemma LockHolders(s: State, t: nat)
    requires LocksInv(s) && t < |s.threads|
    ensures HoldsMtx(s.threads[t].pc) <==> s.mtx == Some(t)
    ensures HoldsId(s.threads[t].pc) <==> s.idLock == Some(t)
  {
  }
}
