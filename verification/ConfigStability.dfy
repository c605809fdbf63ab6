// Once closed, a statement of the tree under construction never changes again, and it is
// found at the same place in the finished tree.
module ConfigStability {
  import opened Basics
  import opened ConfigSyntax
  import opened ConfigLexer
  import opened ConfigMachine

  // The address of a statement: its index at the bottom level, then its index in the block of
  // that statement, and so on. The block of the last statement of a level that is not the top
  // is the level above.
  type Address = seq<nat>

  function At(levels: seq<seq<Stmt>>, a: Address): Option<Stmt>
    decreases |a|
  {
    if levels == [] || a == [] || a[0] >= |levels[0]| then None
    else
      var s := levels[0][a[0]];
      if |a| == 1 then Some(s)
      else if |levels| > 1 && a[0] == |levels[0]| - 1 then At(levels[1..], a[1..])
      else if s.block.Block? then At([s.block.stmts], a[1..])
      else None
  }

  // The statement at the address is there and is closed. `topOpen` says that the last
  // statement of the top level is still being read.
  predicate IsClosed(levels: seq<seq<Stmt>>, topOpen: bool, a: Address)
    decreases |a|
  {
    && levels != [] && a != [] && a[0] < |levels[0]|
    && var s := levels[0][a[0]];
       if |a| == 1 then a[0] < |levels[0]| - 1 || (|levels| == 1 && !topOpen)
       else if |levels| > 1 && a[0] == |levels[0]| - 1 then IsClosed(levels[1..], topOpen, a[1..])
       else s.block.Block? && IsClosed([s.block.stmts], false, a[1..])
  }

  // Whatever is closed before is closed and the same after.
  ghost predicate Keeps(levels: seq<seq<Stmt>>, topOpen: bool, levels': seq<seq<Stmt>>, topOpen': bool) {
    forall a :: IsClosed(levels, topOpen, a) ==> IsClosed(levels', topOpen', a) && At(levels', a) == At(levels, a)
  }

  // What the top of the stack keeps, the whole stack keeps.
  lemma KeepsAbove(bottom: seq<Stmt>, up: seq<seq<Stmt>>, open: bool, up': seq<seq<Stmt>>, open': bool)
    requires up != [] && up' != [] && Keeps(up, open, up', open')
    ensures Keeps([bottom] + up, open, [bottom] + up', open')
  {
    var all, all' := [bottom] + up, [bottom] + up';
    assert all[1..] == up && all'[1..] == up';
    forall a | IsClosed(all, open, a) ensures IsClosed(all', open', a) && At(all', a) == At(all, a) {
      if |a| > 1 && a[0] == |bottom| - 1 {
        assert IsClosed(up, open, a[1..]);
      }
    }
  }

  lemma {:induction false} KeepsOnStack(below: seq<seq<Stmt>>, up: seq<seq<Stmt>>, open: bool,
                                        up': seq<seq<Stmt>>, open': bool)
    requires up != [] && up' != [] && Keeps(up, open, up', open')
    ensures Keeps(below + up, open, below + up', open')
    decreases |below|
  {
    hide Keeps;
    if below == [] {
      assert below + up == up && below + up' == up';
    } else {
      KeepsOnStack(below[1..], up, open, up', open');
      KeepsAbove(below[0], below[1..] + up, open, below[1..] + up', open');
      assert below + up == [below[0]] + (below[1..] + up);
      assert below + up' == [below[0]] + (below[1..] + up');
    }
  }

  // A new statement, or a further word of the open one.
  lemma KeepsWord(top: seq<Stmt>, open: bool, s: Stmt)
    requires open ==> OpenLevel(top)
    ensures !open ==> Keeps([top], false, [top + [s]], true)
    ensures open ==> Keeps([top], true, [Front(top) + [s]], true)
  {
    hide WellFormed;
    var top' := if open then Front(top) + [s] else top + [s];
    forall a | IsClosed([top], open, a) ensures IsClosed([top'], true, a) && At([top'], a) == At([top], a) {
      assert top'[a[0]] == top[a[0]];
    }
  }

  lemma KeepsSemi(top: seq<Stmt>)
    ensures Keeps([top], true, [top], false)
  {
  }

  lemma KeepsOpen(top: seq<Stmt>)
    requires OpenLevel(top)
    ensures Keeps([top], true, [top, []], false)
  {
    hide WellFormed;
  }

  // Closing a block: the top level becomes the block of the statement below.
  lemma KeepsClose(parent: seq<Stmt>, top: seq<Stmt>)
    requires parent != []
    ensures Keeps([parent, top], false, [Front(parent) + [Last(parent).(block := Block(top))]], false)
  {
    var parent' := Front(parent) + [Last(parent).(block := Block(top))];
    assert [parent, top][1..] == [top];
    forall a | IsClosed([parent, top], false, a)
      ensures IsClosed([parent'], false, a) && At([parent'], a) == At([parent, top], a)
    {
      if a[0] < |parent| - 1 {
        assert parent'[a[0]] == parent[a[0]];
      }
    }
  }

  lemma StepKeeps(m: Machine, t: Terminal)
    requires Inv(m) && Step(m, t).Some?
    ensures var m' := Step(m, t).value; Keeps(m.levels, m.last == NORMAL, m'.levels, m'.last == NORMAL)
  {
    hide Keeps, WellFormed;
    var below, top := Front(m.levels), Last(m.levels);
    assert m.levels == below + [top];
    match t
    case Word(w) =>
      var s := if m.last == NORMAL then Last(top).(words := Last(top).words + [w]) else Stmt([w], NoBlock);
      KeepsWord(top, m.last == NORMAL, s);
      KeepsOnStack(below, [top], m.last == NORMAL, [if m.last == NORMAL then Front(top) + [s] else top + [s]], true);
    case Semi =>
      KeepsSemi(top);
      KeepsOnStack(below, [top], true, [top], false);
    case Open =>
      KeepsOpen(top);
      KeepsOnStack(below, [top], true, [top, []], false);
      assert m.levels + [[]] == below + [top, []];
    case Close =>
      var parent := Last(below);
      KeepsClose(parent, top);
      KeepsOnStack(Front(below), [parent, top], false, [Front(parent) + [Last(parent).(block := Block(top))]], false);
      assert m.levels == Front(below) + [parent, top];
  }

  // Through every later token, whatever they are: a statement that is closed stays closed,
  // stays where it is, and stays as it is.
  lemma {:induction false} ClosedStatementsStay(m: Machine, ts: seq<Terminal>, a: Address)
    requires Inv(m) && Run(m, ts).Some? && IsClosed(m.levels, m.last == NORMAL, a)
    ensures var m' := Run(m, ts).value;
            IsClosed(m'.levels, m'.last == NORMAL, a) && At(m'.levels, a) == At(m.levels, a)
    decreases |ts|
  {
    hide Inv, Step, IsClosed, At;
    if ts != [] {
      StepKeepsInv(m, ts[0]);
      StepKeeps(m, ts[0]);
      ClosedStatementsStay(Step(m, ts[0]).value, ts[1..], a);
    }
  }

  lemma {:induction false} ClosedIsThere(levels: seq<seq<Stmt>>, topOpen: bool, a: Address)
    requires IsClosed(levels, topOpen, a)
    ensures At(levels, a).Some?
    decreases |a|
  {
    if |a| > 1 {
      if |levels| > 1 && a[0] == |levels[0]| - 1 {
        ClosedIsThere(levels[1..], topOpen, a[1..]);
      } else {
        ClosedIsThere([levels[0][a[0]].block.stmts], false, a[1..]);
      }
    }
  }

  // A statement closed at any moment of a parse that succeeds sits at its address in the tree.
  lemma ClosedStatementsReachTheTree(text: string, read: seq<Terminal>, m: Machine, unread: string, a: Address)
    requires IsReading(text, read, m, unread) && IsClosed(m.levels, m.last == NORMAL, a)
    requires ParseText(text).Some?
    ensures At([ParseText(text).value], a) == At(m.levels, a) && At(m.levels, a).Some?
  {
    hide Step, IsClosed, At, Terminals;
    var rest := Terminals(unread).terms;
    StartIsGood();
    RunKeepsInv(INITIAL, read);
    RunAppend(INITIAL, read, rest);
    RunKeepsInv(INITIAL, read + rest);
    ClosedStatementsStay(m, rest, a);
    ClosedIsThere(m.levels, m.last == NORMAL, a);
    var final := Run(m, rest).value;
    assert final.levels == [final.levels[0]];
  }

  lemma StartIsGood()
    ensures Inv(INITIAL)
  {
  }

  // In a finished tree every statement is closed: a top-level one has its index for address, one
  // in a block the address of the block's statement followed by its own.
  lemma EveryStatementIsClosed(tree: seq<Stmt>, i: nat, a: Address)
    requires i < |tree|
    ensures At([tree], [i]) == Some(tree[i]) && IsClosed([tree], false, [i])
    ensures a != [] && tree[i].block.Block? ==>
              && At([tree], [i] + a) == At([tree[i].block.stmts], a)
              && (IsClosed([tree], false, [i] + a) <==> IsClosed([tree[i].block.stmts], false, a))
  {
    assert ([i] + a)[1..] == a;
  }

  // While the parse goes on, so is every statement of the top level but an open last one, and
  // every statement before the open one of a level below.
  lemma StatementsAreClosed(levels: seq<seq<Stmt>>, topOpen: bool, i: nat)
    requires levels != [] && i < |levels[0]|
    ensures IsClosed(levels, topOpen, [i]) <==> i < |levels[0]| - 1 || (|levels| == 1 && !topOpen)
    ensures At(levels, [i]) == Some(levels[0][i])
  {
  }
}
