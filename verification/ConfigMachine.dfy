// The token-at-a-time stack machine inside NginxConfigParser::Parse, on values, and the
// proof that it accepts exactly the grammar of ConfigSyntax and builds the one derivation.
module ConfigMachine {
  import opened Basics
  import opened ConfigSyntax
  import opened ConfigLexer

  // `levels` is the config stack, bottom first. The last statement of every level but the
  // top is open: its child block is the level above. The last statement of the top level is
  // open while `last` is NORMAL.
  datatype Machine = Machine(last: TokenType, levels: seq<seq<Stmt>>, starts: nat, ends: nat)

  const INITIAL := Machine(START, [[]], 0, 0)

  function Front<T>(s: seq<T>): seq<T> requires s != [] { s[..|s| - 1] }
  function Last<T>(s: seq<T>): T requires s != [] { s[|s| - 1] }

  function AddWord(level: seq<Stmt>, w: string): seq<Stmt>
    requires level != []
  {
    Front(level) + [Last(level).(words := Last(level).words + [w])]
  }

  function CloseTop(levels: seq<seq<Stmt>>): seq<seq<Stmt>>
    requires |levels| >= 2 && levels[|levels| - 2] != []
  {
    var parent := Last(Front(levels));
    Front(Front(levels)) + [Front(parent) + [Last(parent).(block := Block(Last(levels)))]]
  }

  // The stack has a config to work on and, where it matters, an open statement in it.
  predicate Workable(m: Machine, t: Terminal) {
    && m.levels != []
    && (m.last == NORMAL ==> Last(m.levels) != [])
    && (t == Close ==> |m.levels| >= 2 && m.levels[|m.levels| - 2] != [])
  }

  // One turn of Parse's loop on a terminal; None is the "bad transition" exit. StepIsDefined
  // shows that Workable never fails where the source would go on.
  function Step(m: Machine, t: Terminal): Option<Machine> {
    match t
    case Word(w) =>
      if !Workable(m, t) then None
      else
        var top := if m.last != NORMAL then Last(m.levels) + [Stmt([w], NoBlock)] else AddWord(Last(m.levels), w);
        Some(Machine(NORMAL, Front(m.levels) + [top], m.starts, m.ends))
    case Semi =>
      if m.last != NORMAL then None else Some(m.(last := STATEMENT_END))
    case Open =>
      if m.last != NORMAL then None
      else Some(Machine(START_BLOCK, m.levels + [[]], m.starts + 1, m.ends))
    case Close =>
      if m.last != STATEMENT_END && m.last != END_BLOCK then None
      else if m.starts <= m.ends || !Workable(m, t) then None
      else Some(Machine(END_BLOCK, CloseTop(m.levels), m.starts, m.ends + 1))
  }

  predicate Accepting(m: Machine) {
    && (m.last == STATEMENT_END || m.last == END_BLOCK || m.last == START)
    && m.starts == m.ends
  }

  // An open statement: it has words and no block of its own yet, below only closed ones.
  predicate OpenLevel(level: seq<Stmt>) {
    level != [] && WellFormed(Front(level)) && Last(level).words != [] && Last(level).block == NoBlock
  }

  predicate TopLevel(last: TokenType, level: seq<Stmt>) {
    match last
    case START => level == []
    case START_BLOCK => level == []
    case NORMAL => OpenLevel(level)
    case STATEMENT_END => level != [] && WellFormed(level)
    case END_BLOCK => level != [] && WellFormed(level)
    case _ => false
  }

  // What holds of the stack at every turn of the loop.
  predicate Inv(m: Machine) {
    && m.ends <= m.starts
    && |m.levels| == 1 + m.starts - m.ends
    && (forall i :: 0 <= i < |m.levels| - 1 ==> OpenLevel(m.levels[i]))
    && TopLevel(m.last, Last(m.levels))
    && (m.last == START ==> |m.levels| == 1)
    && (m.last == START_BLOCK ==> |m.levels| > 1)
  }

  lemma TopIsClosed(last: TokenType, level: seq<Stmt>)
    requires TopLevel(last, level) && last != NORMAL
    ensures WellFormed(level)
  {
  }

  lemma OpenLevelCloses(level: seq<Stmt>, block: Child)
    requires OpenLevel(level) && (block.Block? ==> block.stmts != [] && WellFormed(block.stmts))
    ensures WellFormed(Front(level) + [Last(level).(block := block)])
  {
    WellFormedAppend(Front(level), Last(level).(block := block));
  }

  lemma WordKeepsInv(m: Machine, w: string)
    requires Inv(m) && Step(m, Word(w)).Some?
    ensures Inv(Step(m, Word(w)).value)
  {
    hide WellFormed;
    var m' := Step(m, Word(w)).value;
    var top, top' := Last(m.levels), Last(m'.levels);
    if m.last != NORMAL {
      TopIsClosed(m.last, top);
      assert Front(top') == top;
    } else {
      assert Front(top') == Front(top);
    }
  }

  lemma PunctKeepsInv(m: Machine, t: Terminal)
    requires Inv(m) && Step(m, t).Some? && (t == Semi || t == Open)
    ensures Inv(Step(m, t).value)
  {
    hide WellFormed;
    var top := Last(m.levels);
    OpenLevelCloses(top, NoBlock);
    assert top == Front(top) + [Last(top).(block := NoBlock)];
  }

  lemma CloseKeepsInv(m: Machine)
    requires Inv(m) && Step(m, Close).Some?
    ensures Inv(Step(m, Close).value)
  {
    hide WellFormed;
    var parent := Last(Front(m.levels));
    assert parent == m.levels[|m.levels| - 2];
    OpenLevelCloses(parent, Block(Last(m.levels)));
  }

  lemma StepKeepsInv(m: Machine, t: Terminal)
    requires Inv(m) && Step(m, t).Some?
    ensures Inv(Step(m, t).value)
  {
    hide Inv, Step;
    match t
    case Word(w) => WordKeepsInv(m, w);
    case Close => CloseKeepsInv(m);
    case _ => PunctKeepsInv(m, t);
  }

  // In every state the loop can reach, Workable holds of the transitions the source allows, so
  // that these are exactly the ones taken; and the end of the file is good exactly after a
  // whole statement, or with nothing read, and with every block closed.
  lemma StepIsDefined(m: Machine, t: Terminal)
    requires Inv(m)
    ensures t.Word? || (t == Close && m.starts > m.ends) ==> Workable(m, t)
    ensures t.Word? ==> Step(m, t).Some?
    ensures t == Semi || t == Open ==> (Step(m, t).Some? <==> m.last == NORMAL)
    ensures t == Close ==> (Step(m, t).Some? <==> m.last in {STATEMENT_END, END_BLOCK} && m.starts > m.ends)
    ensures Accepting(m) <==> m.last in {STATEMENT_END, END_BLOCK, START} && m.starts == m.ends
  {
  }

  function Run(m: Machine, ts: seq<Terminal>): Option<Machine>
    decreases |ts|
  {
    if ts == [] then Some(m)
    else
      match Step(m, ts[0])
      case None => None
      case Some(m') => Run(m', ts[1..])
  }

  // Every state reached from a good one, by any tokens, is good.
  lemma {:induction false} RunKeepsInv(m: Machine, ts: seq<Terminal>)
    requires Inv(m) && Run(m, ts).Some?
    ensures Inv(Run(m, ts).value)
    decreases |ts|
  {
    if ts == [] {
    } else {
      StepKeepsInv(m, ts[0]);
      RunKeepsInv(Step(m, ts[0]).value, ts[1..]);
    }
  }

  // What Parse comes to when it goes on from state `m` with `s` unread: the tree it leaves in
  // its config when it returns true, None when it returns false.
  function ParseFrom(m: Machine, s: string): Option<seq<Stmt>> {
    var stream := Terminals(s);
    var r := Run(m, stream.terms);
    if stream.clean && r.Some? && Accepting(r.value) && r.value.levels != [] then Some(r.value.levels[0]) else None
  }

  function ParseText(s: string): Option<seq<Stmt>> {
    ParseFrom(INITIAL, s)
  }

  // One turn of the loop, whatever the token.
  lemma ParseFromTurn(m: Machine, s: string)
    requires m.levels != []
    ensures var l := NextToken(s);
            ParseFrom(m, s) ==
              match l.kind
              case EOF => if Accepting(m) then Some(m.levels[0]) else None
              case ERROR => None
              case COMMENT => ParseFrom(m, l.rest)
              case START => None
              case _ =>
                var r := Step(m, TerminalsOf(l)[0]);
                if r.None? then None else ParseFrom(r.value, l.rest)
  {
    hide NextToken, Step, Accepting;
    var l := NextToken(s);
    if !IsFinal(l.kind) {
      var more := Terminals(l.rest).terms;
      if TerminalsOf(l) == [] {
        assert [] + more == more;
      } else {
        assert (TerminalsOf(l) + more)[1..] == more;
      }
    }
  }

  // The tokens `read` are those the loop has taken in from the front of `text` when it is in
  // state `m` and `unread` is left.
  predicate IsReading(text: string, read: seq<Terminal>, m: Machine, unread: string) {
    Run(INITIAL, read) == Some(m) && Terminals(text).terms == read + Terminals(unread).terms
  }

  // The loop has taken in all tokens of `text`, or stands before one it has no transition for.
  predicate IsAtEnd(text: string, read: seq<Terminal>) {
    && read <= Terminals(text).terms
    && Run(INITIAL, read).Some?
    && (read == Terminals(text).terms || Step(Run(INITIAL, read).value, Terminals(text).terms[|read|]).None?)
  }

  // Then no longer front of the tokens can be taken in.
  lemma AtEndIsLongest(text: string, read: seq<Terminal>, n: nat)
    requires IsAtEnd(text, read) && |read| < n <= |Terminals(text).terms|
    ensures Run(INITIAL, Terminals(text).terms[..n]).None?
  {
    hide Step, Terminals;
    var ts := Terminals(text).terms[..n];
    var next := ts[|read|..];
    assert ts == read + next;
    RunAppend(INITIAL, read, next);
  }

  lemma ReadOn(text: string, read: seq<Terminal>, m: Machine, unread: string)
    requires IsReading(text, read, m, unread)
    ensures var l := NextToken(unread);
            var ts := TerminalsOf(l);
            && (IsFinal(l.kind) ==> IsAtEnd(text, read))
            && (!IsFinal(l.kind) && ts == [] ==> IsReading(text, read, m, l.rest))
            && (ts != [] ==>
                  match Step(m, ts[0])
                  case None => IsAtEnd(text, read)
                  case Some(m') => IsReading(text, read + ts, m', l.rest))
  {
    hide Run, Step, NextToken;
    var l := NextToken(unread);
    var ts, more := TerminalsOf(l), Terminals(l.rest).terms;
    if IsFinal(l.kind) {
      assert read + [] == read;
    } else if ts == [] {
      assert [] + more == more;
    } else {
      assert read + (ts + more) == (read + ts) + more;
      assert ts == [ts[0]];
      RunAppend(INITIAL, read, ts);
      RunOne(m, ts[0]);
    }
  }

  // ---------------------------------------------------------------------------
  // Soundness: the stack spells the tokens read so far

  // The tokens of a level whose last statement is open.
  function OpenYield(level: seq<Stmt>): seq<Terminal> {
    if level == [] then [] else Yield(Front(level)) + Words(Last(level).words)
  }

  // The tokens of the levels below the top, each up to and including its open brace.
  function Below(levels: seq<seq<Stmt>>): seq<Terminal> {
    if levels == [] then [] else Below(Front(levels)) + OpenYield(Last(levels)) + [Open]
  }

  // The tokens that the whole stack stands for.
  function Spelled(m: Machine): seq<Terminal>
    requires m.levels != []
  {
    Below(Front(m.levels)) + TopYield(m.last, Last(m.levels))
  }

  function TopYield(last: TokenType, top: seq<Stmt>): seq<Terminal> {
    if last == NORMAL then OpenYield(top) else Yield(top)
  }

  lemma WordsSnoc(ws: seq<string>, w: string)
    ensures Words(ws + [w]) == Words(ws) + [Word(w)]
  {
  }

  lemma CloseOpen(level: seq<Stmt>, s: Stmt)
    requires level != [] && s.words == Last(level).words
    ensures Yield(Front(level) + [s]) == OpenYield(level) + Tail(s.block)
  {
    hide Yield, Words;
    YieldAppend(Front(level), [s]);
    YieldOne(s);
  }

  lemma WordSpells(m: Machine, w: string)
    requires Inv(m)
    ensures Spelled(Step(m, Word(w)).value) == Spelled(m) + [Word(w)]
  {
    hide Yield, WellFormed;
    var m' := Step(m, Word(w)).value;
    var top, top' := Last(m.levels), Last(m'.levels);
    assert Front(m'.levels) == Front(m.levels);
    assert OpenYield(top') == TopYield(m.last, top) + [Word(w)] by {
      if m.last != NORMAL {
        assert Front(top') == top && Words([w]) == [Word(w)];
      } else {
        assert Front(top') == Front(top);
        WordsSnoc(Last(top).words, w);
      }
    }
  }

  lemma SemiSpells(m: Machine)
    requires Inv(m) && m.last == NORMAL
    ensures Spelled(Step(m, Semi).value) == Spelled(m) + [Semi]
  {
    hide Yield, Words, WellFormed;
    var top := Last(m.levels);
    assert top == Front(top) + [Last(top)];
    assert Tail(Last(top).block) == [Semi];
    CloseOpen(top, Last(top));
  }

  lemma OpenSpells(m: Machine)
    requires Inv(m) && m.last == NORMAL
    ensures Spelled(Step(m, Open).value) == Spelled(m) + [Open]
  {
  }

  lemma CloseSpells(m: Machine)
    requires Inv(m) && Step(m, Close).Some?
    ensures Spelled(Step(m, Close).value) == Spelled(m) + [Close]
  {
    hide Yield, Words, WellFormed;
    var below, top := Front(m.levels), Last(m.levels);
    var parent := Last(below);
    var levels' := CloseTop(m.levels);
    var closed := Last(parent).(block := Block(top));
    assert Last(levels') == Front(parent) + [closed] && Front(levels') == Front(below);
    CloseOpen(parent, closed);
    assert Below(below) == Below(Front(below)) + OpenYield(parent) + [Open];
  }

  lemma StepSpells(m: Machine, t: Terminal)
    requires Inv(m) && Step(m, t).Some?
    ensures Step(m, t).value.levels != []
    ensures Spelled(Step(m, t).value) == Spelled(m) + [t]
  {
    StepKeepsInv(m, t);
    match t
    case Word(w) => WordSpells(m, w);
    case Semi => SemiSpells(m);
    case Open => OpenSpells(m);
    case Close => CloseSpells(m);
  }

  lemma Shift<T>(a: seq<T>, b: seq<T>)
    requires b != []
    ensures a + [b[0]] + b[1..] == a + b
  {
  }

  lemma {:induction false} RunSpells(m: Machine, ts: seq<Terminal>)
    requires Inv(m) && Run(m, ts).Some?
    ensures Run(m, ts).value.levels != []
    ensures Spelled(Run(m, ts).value) == Spelled(m) + ts
    decreases |ts|
  {
    if ts == [] {
    } else {
      var m' := Step(m, ts[0]).value;
      StepKeepsInv(m, ts[0]);
      StepSpells(m, ts[0]);
      RunSpells(m', ts[1..]);
      Shift(Spelled(m), ts);
    }
  }

  // ---------------------------------------------------------------------------
  // Completeness: the machine follows every derivation

  lemma {:induction false} RunAppend(m: Machine, a: seq<Terminal>, b: seq<Terminal>)
    requires Run(m, a).Some?
    ensures Run(m, a + b) == Run(Run(m, a).value, b)
    decreases |a|
  {
    hide Step;
    if a == [] {
      assert a + b == b;
    } else {
      RunAppend(Step(m, a[0]).value, a[1..], b);
      assert (a + b)[1..] == a[1..] + b;
    }
  }

  lemma RunOne(m: Machine, t: Terminal)
    ensures Run(m, [t]) == Step(m, t)
  {
  }

  // The machine after the closed statements `ss` have been read on the top level.
  function Extended(m: Machine, ss: seq<Stmt>, blocks: nat): Machine
    requires m.levels != []
  {
    Machine(if ss == [] then m.last else if Last(ss).block.Block? then END_BLOCK else STATEMENT_END,
            Front(m.levels) + [Last(m.levels) + ss], m.starts + blocks, m.ends + blocks)
  }

  function BlocksIn(ss: seq<Stmt>): nat {
    if ss == [] then 0
    else (match ss[0].block case NoBlock => 0 case Block(b) => 1 + BlocksIn(b)) + BlocksIn(ss[1..])
  }

  lemma BlocksInCons(ss: seq<Stmt>)
    requires ss != []
    ensures BlocksIn(ss) == BlocksIn([ss[0]]) + BlocksIn(ss[1..])
  {
  }

  // The machine with `ws` added to the open statement on top.
  function WithWords(m: Machine, ws: seq<string>): Machine
    requires m.levels != [] && Last(m.levels) != []
  {
    var top := Last(m.levels);
    m.(levels := Front(m.levels) + [Front(top) + [Last(top).(words := Last(top).words + ws)]])
  }

  lemma WithWordsTwice(m: Machine, w: string, ws: seq<string>)
    requires m.levels != [] && Last(m.levels) != []
    ensures var m' := WithWords(m, [w]);
            Last(m'.levels) != [] && WithWords(m', ws) == WithWords(m, [w] + ws)
  {
    var m' := WithWords(m, [w]);
    var top := Last(m.levels);
    assert Front(Last(m'.levels)) == Front(top) && Front(m'.levels) == Front(m.levels);
    assert Last(top).words + [w] + ws == Last(top).words + ([w] + ws);
  }

  lemma {:induction false} RunWords(m: Machine, ws: seq<string>)
    requires m.levels != [] && Last(m.levels) != [] && m.last == NORMAL
    ensures Run(m, Words(ws)) == Some(WithWords(m, ws))
    decreases |ws|
  {
    if ws == [] {
      var top := Last(m.levels);
      assert Last(top).words + ws == Last(top).words;
      assert top == Front(top) + [Last(top)];
      assert m.levels == Front(m.levels) + [top];
    } else {
      assert Step(m, Word(ws[0])) == Some(WithWords(m, [ws[0]]));
      WithWordsTwice(m, ws[0], ws[1..]);
      RunWords(WithWords(m, [ws[0]]), ws[1..]);
      assert Words(ws)[1..] == Words(ws[1..]);
      assert ws == [ws[0]] + ws[1..];
    }
  }

  // The machine with the words of `s` read and the statement still open.
  function WithOpen(m: Machine, s: Stmt): Machine
    requires m.levels != []
  {
    Machine(NORMAL, Front(m.levels) + [Last(m.levels) + [Stmt(s.words, NoBlock)]], m.starts, m.ends)
  }

  lemma {:induction false} RunFirstWords(m: Machine, s: Stmt)
    requires Inv(m) && m.last != NORMAL && s.words != []
    ensures m.levels != []
    ensures var m' := WithOpen(m, s); m'.last == NORMAL && m'.starts == m.starts && m'.ends == m.ends
    ensures Run(m, Words(s.words)) == Some(WithOpen(m, s))
  {
    hide WellFormed, TopLevel, OpenLevel;
    var ws := s.words;
    var m' := Step(m, Word(ws[0])).value;
    RunWords(m', ws[1..]);
    assert Words(ws)[1..] == Words(ws[1..]);
    assert ws == [ws[0]] + ws[1..];
    assert Front(Last(m'.levels)) == Last(m.levels) && Front(m'.levels) == Front(m.levels);
  }

  lemma ExtendedTwice(m: Machine, a: seq<Stmt>, b: seq<Stmt>, j: nat, k: nat)
    requires m.levels != []
    ensures Extended(Extended(m, a, j), b, k) == Extended(m, a + b, j + k)
  {
    var m' := Extended(m, a, j);
    assert Front(m'.levels) == Front(m.levels);
    assert Last(m.levels) + a + b == Last(m.levels) + (a + b);
    if b == [] {
      assert a + b == a;
    }
  }

  lemma {:induction false} RunBlock(m: Machine, b: seq<Stmt>)
    requires Inv(m) && m.last == NORMAL && b != [] && WellFormed(b)
    ensures Run(m, [Open] + Yield(b) + [Close]) ==
              Some(Machine(END_BLOCK, CloseTop(m.levels + [b]), m.starts + 1 + BlocksIn(b), m.ends + 1 + BlocksIn(b)))
    decreases b, 1
  {
    hide Run, Yield, BlocksIn, WellFormed;
    StepKeepsInv(m, Open);
    RunOne(m, Open);
    var m2 := Step(m, Open).value;
    RunStmts(m2, b);
    var m3 := Extended(m2, b, BlocksIn(b));
    RunKeepsInv(m2, Yield(b));
    assert Front(m2.levels) == m.levels && [] + b == b;
    assert m3.levels == m.levels + [b];
    RunOne(m3, Close);
    RunAppend(m2, Yield(b), [Close]);
    RunAppend(m, [Open], Yield(b) + [Close]);
    assert [Open] + Yield(b) + [Close] == [Open] + (Yield(b) + [Close]);
  }

  // Closing the block of the statement just opened completes the statement.
  lemma CloseTopCompletes(m: Machine, s: Stmt)
    requires m.levels != [] && s.block.Block?
    ensures var b := s.block.stmts;
            Extended(m, [s], BlocksIn([s])) ==
              Machine(END_BLOCK, CloseTop(WithOpen(m, s).levels + [b]), m.starts + 1 + BlocksIn(b), m.ends + 1 + BlocksIn(b))
  {
  }

  lemma SemiCompletes(m: Machine, s: Stmt)
    requires m.levels != [] && s.block == NoBlock
    ensures Step(WithOpen(m, s), Semi) == Some(Extended(m, [s], BlocksIn([s])))
  {
  }

  lemma {:induction false} RunStmt(m: Machine, s: Stmt)
    requires Inv(m) && m.last != NORMAL && WellFormedStmt(s)
    ensures Run(m, YieldStmt(s)) == Some(Extended(m, [s], BlocksIn([s])))
    decreases s
  {
    hide Run, Step, Inv, Extended, WithOpen, CloseTop, WellFormed, BlocksIn;
    RunFirstWords(m, s);
    var m1 := WithOpen(m, s);
    RunKeepsInv(m, Words(s.words));
    RunAppend(m, Words(s.words), Tail(s.block));
    assert Run(m, YieldStmt(s)) == Run(m1, Tail(s.block));
    match s.block
    case NoBlock =>
      assert Tail(s.block) == [Semi];
      RunOne(m1, Semi);
      SemiCompletes(m, s);
    case Block(b) =>
      assert Tail(s.block) == [Open] + Yield(b) + [Close];
      RunBlock(m1, b);
      CloseTopCompletes(m, s);
  }

  lemma {:induction false} RunStmts(m: Machine, ss: seq<Stmt>)
    requires Inv(m) && m.last != NORMAL && WellFormed(ss)
    ensures Run(m, Yield(ss)) == Some(Extended(m, ss, BlocksIn(ss)))
    decreases ss, 0
  {
    hide Step, Inv, WellFormedStmt, YieldStmt, OpenLevel, TopLevel;
    if ss == [] {
      InvHasLevels(m);
      assert Last(m.levels) + ss == Last(m.levels);
      assert m.levels == Front(m.levels) + [Last(m.levels)];
    } else {
      RunStmt(m, ss[0]);
      RunRest(m, ss);
    }
  }

  lemma InvHasLevels(m: Machine)
    requires Inv(m)
    ensures m.levels != []
  {
  }

  lemma {:induction false} RunRest(m: Machine, ss: seq<Stmt>)
    requires Inv(m) && ss != [] && WellFormed(ss)
    requires Run(m, YieldStmt(ss[0])) == Some(Extended(m, [ss[0]], BlocksIn([ss[0]])))
    ensures Run(m, Yield(ss)) == Some(Extended(m, ss, BlocksIn(ss)))
    decreases ss[1..], 1
  {
    hide Run, Step, YieldStmt, BlocksIn, WellFormedStmt;
    var s, rest := ss[0], ss[1..];
    var m' := Extended(m, [s], BlocksIn([s]));
    RunKeepsInv(m, YieldStmt(s));
    RunAppend(m, YieldStmt(s), Yield(rest));
    RunStmts(m', rest);
    assert Extended(m', rest, BlocksIn(rest)) == Extended(m, ss, BlocksIn(ss)) by {
      ExtendedTwice(m, [s], rest, BlocksIn([s]), BlocksIn(rest));
      BlocksInCons(ss);
      assert ss == [s] + rest;
    }
    assert Yield(ss) == YieldStmt(s) + Yield(rest);
  }

  // ---------------------------------------------------------------------------
  // The main results about Parse

  // Parse succeeds with tree `tree` exactly when the whole text lexes cleanly and its
  // comment-free tokens are derived by `tree`.
  lemma ParseIsTheGrammar(s: string, tree: seq<Stmt>)
    ensures ParseText(s) == Some(tree) <==>
              Terminals(s).clean && WellFormed(tree) && Yield(tree) == Terminals(s).terms
  {
    var ts := Terminals(s).terms;
    if WellFormed(tree) && Yield(tree) == ts {
      RunTree(tree);
    }
    if ParseText(s).Some? {
      RunAccepted(ts);
    }
  }

  lemma RunTree(tree: seq<Stmt>)
    requires WellFormed(tree)
    ensures var r := Run(INITIAL, Yield(tree));
            r.Some? && Accepting(r.value) && r.value.levels == [tree]
  {
    hide Run, Yield, BlocksIn, WellFormed, Step;
    RunStmts(INITIAL, tree);
    assert [] + tree == tree && Front(INITIAL.levels) == [];
  }

  lemma RunAccepted(ts: seq<Terminal>)
    requires Run(INITIAL, ts).Some? && Accepting(Run(INITIAL, ts).value)
    ensures Run(INITIAL, ts).value.levels != []
    ensures var tree := Run(INITIAL, ts).value.levels[0];
            WellFormed(tree) && Yield(tree) == ts
  {
    var m := Run(INITIAL, ts).value;
    RunKeepsInv(INITIAL, ts);
    RunSpells(INITIAL, ts);
    assert Front(m.levels) == [] && m.levels[0] == Last(m.levels);
    assert Spelled(m) == [] + Yield(m.levels[0]);
    assert Front(INITIAL.levels) == [] && Spelled(INITIAL) == [];
    assert [] + ts == ts;
  }

  lemma ParseAccepts(s: string)
    ensures ParseText(s).Some? <==>
              Terminals(s).clean && exists tree :: WellFormed(tree) && Yield(tree) == Terminals(s).terms
  {
    if ParseText(s).Some? {
      ParseIsTheGrammar(s, ParseText(s).value);
    }
    if tree :| WellFormed(tree) && Yield(tree) == Terminals(s).terms {
      ParseIsTheGrammar(s, tree);
    }
  }

  // The grammar is unambiguous.
  lemma DerivationIsUnique(a: seq<Stmt>, b: seq<Stmt>)
    requires WellFormed(a) && WellFormed(b) && Yield(a) == Yield(b)
    ensures a == b
  {
    RunTree(a);
    RunTree(b);
  }
}
