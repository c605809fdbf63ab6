// The meme table and its id counter: ids are handed out once, in order, and a deleted id
// never comes back.
module ServerMemes {
  import opened Basics
  import opened Text
  import opened ServerState
  import MemeForm

  // The ids of the first n creates.
  ghost function Ids(n: nat): set<string> {
    if n == 0 then {} else Ids(n - 1) + {Dec(n)}
  }

  lemma {:induction false} LaterIdIsNew(n: nat, k: nat)
    requires n < k
    ensures Dec(k) !in Ids(n)
  {
    hide Dec;
    if n > 0 {
      LaterIdIsNew(n - 1, k);
      if Dec(k) == Dec(n) {
        DecInjective(k, n);
      }
    }
  }

  ghost predicate SomeoneInserting(s: State) {
    exists t: nat :: t < |s.threads| && s.threads[t].pc.Inserting?
  }

  // How many of the ids handed out have had their insert, done or failed.
  ghost function Stored(s: State): int {
    s.memeCount - if SomeoneInserting(s) then 1 else 0
  }

  // The k-th create got the id k.
  predicate IssuedInv(s: State) {
    |s.issued| == s.memeCount && forall k :: 0 <= k < |s.issued| ==> s.issued[k] == Dec(k + 1)
  }

  // Every id whose insert is over is in the table, or has been deleted, or was lost because
  // its insert failed, and only one of the three.
  ghost predicate TableInv(s: State) {
    Stored(s) >= 0 && Partitions(s, Stored(s))
  }

  ghost predicate Partitions(s: State, n: nat) {
    && s.table.Keys + s.deleted + s.failed == Ids(n)
    && s.table.Keys !! s.deleted !! s.failed
  }

  // A thread about to insert carries the id handed out last.
  ghost predicate CarriesInv(s: State) {
    forall t: nat :: t < |s.threads| ==> Carries(s, s.threads[t].pc)
  }

  predicate Carries(s: State, pc: PC) {
    && (pc.Bumping? ==> pc.job.op.Create?)
    && (pc.Inserting? ==> pc.job.op.Create? && pc.id == Dec(s.memeCount) && s.memeCount >= 1)
  }

  // What the changes made so far leave under an id: the row of the last one that put it there
  // or changed it, nothing if it was dropped since or never put.
  function Lookup(ws: seq<Write>, id: string): Option<Row> {
    if ws == [] then None
    else
      var front, w := ws[..|ws| - 1], ws[|ws| - 1];
      if w.id != id then Lookup(front, id)
      else
        match w
        case Put(_, row) => Some(row)
        case Change(_, row) => if Lookup(front, id).Some? then Some(row) else None
        case Drop(_) => None
  }

  function RowAt(table: map<string, Row>, id: string): Option<Row> {
    if id in table then Some(table[id]) else None
  }

  // The table shows, under every id, what the changes left there.
  ghost predicate WritesInv(s: State) {
    forall id :: Lookup(s.writes, id) == RowAt(s.table, id)
  }

  // What holds whatever the statements are.
  ghost predicate IdsInv(s: State) { IssuedInv(s) && CarriesInv(s) }

  // What holds as long as they are modelled.
  ghost predicate MemesInv(s: State) { TableInv(s) && WritesInv(s) }

  predicate IsModelledAt(pc: PC) { pc.Inserting? || pc.Querying? ==> IsModelled(pc.job.op) }

  // ---------------------------------------------------------------------------
  // Every step keeps the table in order

  lemma StepMemes(s: State, t: nat)
    requires t < |s.threads| && !Blocked(s, s.threads[t])
    ensures var s', n := Step(s, t), NextMemes(s, s.threads[t].pc);
            s'.table == n.table && s'.memeCount == n.memeCount && s'.issued == n.issued && s'.deleted == n.deleted
            && s'.failed == n.failed && s'.writes == n.writes
  {
    hide NextPC, NextHeld, NextAnswered, PathOf, Dec, QueryTable, QueryDeleted, QueryWrites, InsertFails, IsModelled;
  }

  // Only a holder of id_lock touches the table or the counter.
  lemma PcMemes(s: State, t: nat)
    requires t < |s.threads| && !Blocked(s, s.threads[t])
    ensures var pc, pc', n := s.threads[t].pc, NextPC(s, t), NextMemes(s, s.threads[t].pc);
            && (!HoldsId(pc) ==> n == s)
            && (pc'.Inserting? <==> pc.Bumping?)
            && (pc.Bumping? || pc.Inserting? ==> HoldsId(pc))
            && (Carries(s, pc) ==> Carries(n, pc'))
            && n.memeCount == s.memeCount + (if pc.Bumping? then 1 else 0)
  {
    hide PathOf, IsValid, Dec, QueryCode, QueryTable, QueryDeleted, QueryWrites, InsertCode, InsertFails, IsModelled, Get;
  }

  lemma InsertingIsUnique(s: State, t: nat)
    requires LocksInv(s) && t < |s.threads| && HoldsId(s.threads[t].pc)
    ensures forall u: nat :: u < |s.threads| && u != t ==> !s.threads[u].pc.Inserting? && !s.threads[u].pc.Bumping?
    ensures SomeoneInserting(s) <==> s.threads[t].pc.Inserting?
  {
    hide LocksInv, HoldsMtx;
    forall u: nat | u < |s.threads| && u != t ensures !s.threads[u].pc.Inserting? && !s.threads[u].pc.Bumping? {
      LocksExclude(s, t, u);
    }
  }

  // The effect of a holder's step on the table, deleted ids and stored ids.
  lemma HolderKeepsTable(s: State, pc: PC)
    requires Carries(s, pc) && HoldsId(pc) && IsModelledAt(pc)
    requires var stored := s.memeCount - (if pc.Inserting? then 1 else 0); stored >= 0 && Partitions(s, stored)
    ensures var n := NextMemes(s, pc);
            var stored' := n.memeCount - (if pc.Bumping? then 1 else 0);
            stored' >= 0 && Partitions(n, stored')
  {
    hide Dec, Carries, IsModelled;
    if pc.Inserting? {
      InsertIsNew(s, pc);
    } else if pc.Querying? {
      QueryKeepsTable(s.table, s.deleted, s.failed, pc.job);
    }
  }

  lemma InsertIsNew(s: State, pc: PC)
    requires Carries(s, pc) && pc.Inserting? && s.memeCount >= 1 && Partitions(s, s.memeCount - 1)
    ensures pc.job.op.Create? && pc.id == Dec(s.memeCount)
    ensures pc.id !in s.table && pc.id !in s.deleted && pc.id !in s.failed
    ensures Ids(s.memeCount) == Ids(s.memeCount - 1) + {pc.id}
  {
    hide Dec;
    LaterIdIsNew(s.memeCount - 1, s.memeCount);
  }

  lemma QueryKeepsTable(table: map<string, Row>, deleted: set<string>, failed: set<string>, j: Job)
    requires table.Keys !! deleted !! failed && IsModelled(j.op)
    ensures var table', deleted' := QueryTable(table, j), deleted + QueryDeleted(table, j.op);
            table'.Keys + deleted' + failed == table.Keys + deleted + failed && table'.Keys !! deleted' !! failed
  {
    hide Key, SqlRow, IsModelled;
    if !IsFaulty(j.op) {
      match j.op
      case Edit(id, row) =>
        if Key(id) in table {
          assert table[Key(id) := SqlRow(row).value].Keys == table.Keys;
        }
      case Delete(id) =>
        assert (table - {Key(id)}).Keys == table.Keys - {Key(id)};
      case _ =>
    }
  }

  lemma StepKeepsTable(s: State, t: nat)
    requires LocksInv(s) && CarriesInv(s) && TableInv(s)
    requires t < |s.threads| && !Blocked(s, s.threads[t]) && IsModelledAt(s.threads[t].pc)
    ensures TableInv(Step(s, t))
  {
    hide Step, NextPC, NextMemes, LocksInv, HoldsId, HoldsMtx, Blocked, Ids, Carries, IsModelledAt;
    var s', pc, pc' := Step(s, t), s.threads[t].pc, NextPC(s, t);
    StepLocks(s, t);
    StepMemes(s, t);
    PcMemes(s, t);
    assert Carries(s, pc);
    assert s'.threads[t].pc == pc';
    assert forall u: nat :: u < |s.threads| && u != t ==> s'.threads[u] == s.threads[u];
    if HoldsId(pc) {
      InsertingIsUnique(s, t);
      assert SomeoneInserting(s') <==> pc'.Inserting?;
      HolderKeepsTable(s, pc);
    } else {
      SameInserting(s, s', t);
    }
  }

  lemma SameInserting(s: State, s': State, t: nat)
    requires |s.threads| == |s'.threads| && t < |s.threads|
    requires !s.threads[t].pc.Inserting? && !s'.threads[t].pc.Inserting?
    requires forall u: nat :: u < |s.threads| && u != t ==> s'.threads[u] == s.threads[u]
    ensures SomeoneInserting(s) <==> SomeoneInserting(s')
  {
    if SomeoneInserting(s) {
      var u: nat :| u < |s.threads| && s.threads[u].pc.Inserting?;
      assert s'.threads[u].pc.Inserting?;
    }
    if SomeoneInserting(s') {
      var u: nat :| u < |s'.threads| && s'.threads[u].pc.Inserting?;
      assert s.threads[u].pc.Inserting?;
    }
  }

  lemma StepKeepsCarries(s: State, t: nat, u: nat)
    requires LocksInv(s) && CarriesInv(s)
    requires t < |s.threads| && u < |s.threads| && !Blocked(s, s.threads[t])
    ensures u < |Step(s, t).threads| && Carries(Step(s, t), Step(s, t).threads[u].pc)
  {
    hide Step, NextPC, NextMemes, LocksInv, HoldsMtx, Blocked;
    StepLocks(s, t);
    StepMemes(s, t);
    PcMemes(s, t);
    LocksExclude(s, t, u);
    assert Carries(s, s.threads[t].pc) && Carries(s, s.threads[u].pc);
  }

  lemma StepKeepsIssued(s: State, t: nat)
    requires IssuedInv(s)
    requires t < |s.threads| && !Blocked(s, s.threads[t])
    ensures IssuedInv(Step(s, t))
  {
    hide Step, Dec, QueryTable, QueryDeleted, IsModelled, NextPC;
    StepMemes(s, t);
  }

  lemma LookupSnoc(ws: seq<Write>, w: Write, id: string)
    ensures Lookup(ws + [w], id) ==
              if w.id != id then Lookup(ws, id)
              else if w.Put? then Some(w.row)
              else if w.Change? && Lookup(ws, id).Some? then Some(w.row)
              else None
  {
    assert (ws + [w])[..|ws|] == ws;
  }

  lemma StepKeepsWrites(s: State, t: nat)
    requires WritesInv(s)
    requires t < |s.threads| && !Blocked(s, s.threads[t]) && IsModelledAt(s.threads[t].pc)
    ensures WritesInv(Step(s, t))
  {
    hide Step, Dec, NextPC, Lookup, Blocked, Key, SqlRow, IsModelled;
    var s', pc := Step(s, t), s.threads[t].pc;
    StepMemes(s, t);
    forall id ensures Lookup(s'.writes, id) == RowAt(s'.table, id) {
      assert s.writes + [] == s.writes;
      if pc.Inserting? && pc.job.op.Create? && !IsFaulty(pc.job.op) {
        LookupSnoc(s.writes, Put(pc.id, SqlRow(pc.job.op.row).value), id);
      } else if pc.Querying? && pc.job.op.Edit? && !IsFaulty(pc.job.op) {
        LookupSnoc(s.writes, Change(Key(pc.job.op.id), SqlRow(pc.job.op.row).value), id);
      } else if pc.Querying? && pc.job.op.Delete? {
        LookupSnoc(s.writes, Drop(Key(pc.job.op.id)), id);
      }
    }
  }

  lemma StepKeepsIds(s: State, t: nat)
    requires LocksInv(s) && IdsInv(s)
    requires t < |s.threads| && !Blocked(s, s.threads[t])
    ensures IdsInv(Step(s, t))
  {
    hide Step, LocksInv, Blocked, IssuedInv, Carries, NextPC, NextQueue, NextMtx, NextIdLock;
    StepKeepsIssued(s, t);
    StepLocks(s, t);
    var s' := Step(s, t);
    forall u: nat | u < |s'.threads| ensures Carries(s', s'.threads[u].pc) {
      StepKeepsCarries(s, t, u);
    }
  }

  lemma StepKeepsMemes(s: State, t: nat)
    requires LocksInv(s) && IdsInv(s) && MemesInv(s)
    requires t < |s.threads| && !Blocked(s, s.threads[t]) && IsModelledAt(s.threads[t].pc)
    ensures MemesInv(Step(s, t))
  {
    hide Step, LocksInv, Blocked, TableInv, IssuedInv, CarriesInv, WritesInv, IsModelledAt;
    StepKeepsTable(s, t);
    StepKeepsWrites(s, t);
  }

  // That the statements are modelled is needed: any other one leaves the table in order exactly
  // when it happens to leave it alone.
  lemma UnmodelledKeepsIff(s: State, t: nat)
    requires MemesInv(s)
    requires t < |s.threads| && s.threads[t].pc.Querying? && !IsModelledAt(s.threads[t].pc)
    ensures WritesInv(Step(s, t)) <==> s.threads[t].pc.job.wild.table == s.table
  {
    hide Step, Lookup, TableInv, IsModelled, Dec, NextPC;
    var s', wild := Step(s, t), s.threads[t].pc.job.wild.table;
    StepMemes(s, t);
    assert s'.writes == s.writes && s'.table == wild;
    if WritesInv(s') {
      forall id ensures RowAt(wild, id) == RowAt(s.table, id) {
        assert Lookup(s'.writes, id) == Lookup(s.writes, id);
      }
      SameRows(wild, s.table);
    }
  }

  lemma SameRows(a: map<string, Row>, b: map<string, Row>)
    requires forall id :: RowAt(a, id) == RowAt(b, id)
    ensures a == b
  {
    forall id ensures id in a <==> id in b {
      assert RowAt(a, id) == RowAt(b, id);
    }
    forall id | id in a ensures a[id] == b[id] {
      assert RowAt(a, id) == RowAt(b, id);
    }
  }

  // ---------------------------------------------------------------------------
  // What this means for requests

  // An insert never meets a row with its id. It succeeds exactly when its texts are literals;
  // otherwise the id is used up without a row.
  lemma InsertSucceedsIff(s: State, t: nat)
    requires LocksInv(s) && IdsInv(s) && MemesInv(s)
    requires t < |s.threads| && s.threads[t].pc.Inserting? && IsModelled(s.threads[t].pc.job.op)
    ensures var pc := s.threads[t].pc;
            && !Blocked(s, s.threads[t]) && pc.job.op.Create?
            && pc.id == Dec(s.memeCount) && pc.id !in s.table && pc.id !in s.deleted
            && match SqlRow(pc.job.op.row)
               case Some(row) =>
                 && NextPC(s, t) == LeavingTable(pc.job, 200) && Step(s, t).table == s.table[pc.id := row]
                 && Step(s, t).failed == s.failed && Step(s, t).writes == s.writes + [Put(pc.id, row)]
               case None =>
                 && NextPC(s, t) == LeavingTable(pc.job, 404) && Step(s, t).table == s.table
                 && Step(s, t).failed == s.failed + {pc.id}
  {
    hide LocksInv, Dec, Ids, SqlRow, IsModelled, NextHeld, NextAnswered;
    assert Carries(s, s.threads[t].pc);
    InsertingIsUnique(s, t);
    InsertIsNew(s, s.threads[t].pc);
  }

  // What would happen if it did meet one: the primary key refuses it.
  lemma CollisionIsRefused(s: State, t: nat)
    requires t < |s.threads| && s.threads[t].pc.Inserting? && IsModelled(s.threads[t].pc.job.op)
    requires s.threads[t].pc.id in s.table
    ensures NextPC(s, t) == LeavingTable(s.threads[t].pc.job, 404) && Step(s, t).table == s.table
  {
    hide IsModelled, IsFaulty, NextHeld, NextAnswered;
  }

  // A view is answered by the changes that went before it: it finds the meme exactly when the
  // last change to its number left a row there.
  lemma ViewSeesLastWrite(s: State, t: nat)
    requires MemesInv(s)
    requires t < |s.threads| && s.threads[t].pc.Querying?
    requires s.threads[t].pc.job.op.View? && IsNumber(s.threads[t].pc.job.op.id)
    ensures var j := s.threads[t].pc.job;
            var k := Key(j.op.id);
            && NextPC(s, t) == LeavingTable(j, if Lookup(s.writes, k).Some? then 200 else 404)
            && Lookup(s.writes, k) == RowAt(s.table, k)
            && Step(s, t).table == s.table
  {
    hide Lookup, TableInv, Dec, Key, Literal;
    NumberHasNoQuote(s.threads[t].pc.job.op.id);
    assert s.writes + [] == s.writes;
  }

  lemma NumberHasNoQuote(id: string)
    requires IsNumber(id)
    ensures Literal(id) == Some(id)
  {
    hide Literal;
    LiteralIsPlainIff(id);
  }

  // The numbers handed out are their own keys.
  lemma IssuedKey(k: nat)
    ensures IsNumber(Dec(k)) && Key(Dec(k)) == Dec(k)
  {
    DecRoundTrip(k);
  }

  // ---------------------------------------------------------------------------
  // The form handler's requests

  // What prepare_create_request does with a body; None when a field overruns its buffer.
  function FormOp(body: string): Option<Op> {
    match MemeForm.Decide(body)
    case BadRequest => Some(Other(400))
    case NewMeme(image, top, bottom) => Some(Create(Row(image, top, bottom)))
    case UpdateMeme(id, image, top, bottom) => Some(Edit(id, Row(image, top, bottom)))
    case Overrun => None
  }

  // A body with an empty field is answered with 400 and the table is not touched.
  lemma EmptyFieldChangesNothing(s: State, t: nat, image: string, top: string, bottom: string, rest: string)
    requires '&' !in image && '&' !in top && '&' !in bottom && MemeForm.IsTail(rest)
    requires image == "" || top == "" || bottom == ""
    requires t < |s.threads| && s.threads[t].pc.Handling?
    ensures Some(s.threads[t].pc.job.op) == FormOp("image=" + image + "&top=" + top + "&bottom=" + bottom + rest) ==>
              && NextPC(s, t) == WantCount(s.threads[t].pc.job, 400)
              && Step(s, t).table == s.table && Step(s, t).memeCount == s.memeCount
  {
    hide MemeForm.Decide, Dec;
    MemeForm.EmptyFieldIsRefused(image, top, bottom, rest);
  }

  // A new meme typed into the form, short enough for the buffers, is under its fresh id right
  // after its insert, as the row that its texts are literals of, or not there if they are none.
  lemma NewMemeIsStored(s: State, t: nat, image: string, top: string, bottom: string)
    requires LocksInv(s) && IdsInv(s) && MemesInv(s)
    requires MemeForm.IsText(image) && MemeForm.IsText(top) && MemeForm.IsText(bottom) && image != "Choose..."
    requires t < |s.threads| && s.threads[t].pc.Inserting? && IsModelled(s.threads[t].pc.job.op)
    ensures !Blocked(s, s.threads[t]) && Dec(s.memeCount) !in s.table
    ensures FormOp(MemeForm.FormBody(image, top, bottom)) == Some(s.threads[t].pc.job.op) ==>
              var row := SqlRow(Row(image, top, bottom));
              && MemeForm.TextsFit(image, top, bottom)
              && Step(s, t).table == if row.Some? then s.table[Dec(s.memeCount) := row.value] else s.table
  {
    hide MemeForm.Decide, MemeForm.FormBody, MemeForm.TextsFit, Dec, Step, NextPC, LocksInv, IdsInv, MemesInv,
         SqlRow, IsModelled, Blocked;
    InsertSucceedsIff(s, t);
    MemeForm.NewMemeRoundTrip(image, top, bottom);
  }

  // A deleted number is gone: viewing it, or asking for its edit form, is answered with 404,
  // and editing it leaves the table as it is.
  lemma DeletedIsNotFound(s: State, t: nat, id: string)
    requires MemesInv(s) && Key(id) in s.deleted
    requires t < |s.threads| && s.threads[t].pc.Querying? && IsModelled(s.threads[t].pc.job.op)
    ensures Key(id) !in s.table
    ensures var op := s.threads[t].pc.job.op;
            && (op == View(id) ==> NextPC(s, t) == LeavingTable(s.threads[t].pc.job, 404))
            && (op.EditForm? && op.id == id ==> NextPC(s, t) == LeavingTable(s.threads[t].pc.job, 404))
            && (op.Edit? && op.id == id ==> Step(s, t).table == s.table)
  {
    hide Dec, Ids, PathOf, IsValid, Key, IsFaulty, IsModelled;
    assert s.table.Keys !! s.deleted;
  }

  lemma StepKeepsDeleted(s: State, t: nat)
    requires t < |s.threads| && !Blocked(s, s.threads[t])
    ensures s.deleted <= Step(s, t).deleted
  {
    hide Step, QueryTable, QueryDeleted, Dec, NextPC, IsModelled;
    StepMemes(s, t);
  }

  lemma {:induction false} DeletedForGood(s: State, schedule: seq<nat>)
    ensures s.deleted <= Exec(s, schedule).deleted
    decreases |schedule|
  {
    hide Step, Blocked;
    if schedule != [] {
      var t := schedule[0];
      if t < |s.threads| && !Blocked(s, s.threads[t]) {
        StepKeepsDeleted(s, t);
        DeletedForGood(Step(s, t), schedule[1..]);
      } else {
        DeletedForGood(s, schedule[1..]);
      }
    }
  }
}
