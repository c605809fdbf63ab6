// The configuration parser as it runs: an input stream, a tree of objects built in place
// through a stack of pointers, and the printer that walks that tree.
module ConfigParser {
  import opened Basics
  import opened ConfigSyntax
  import opened ConfigLexer
  import opened ConfigMachine
  import opened ConfigPrinter
  import opened HandlerPaths
  import opened Text

  // std::istream over a text: get() past the end clears good().
  class InputStream {
    const data: string
    var pos: nat
    var good: bool

    ghost predicate Valid()
      reads this
    {
      pos <= |data| && (!good ==> pos == |data|)
    }

    // The text not read yet.
    ghost function Rest(): string
      requires Valid()
      reads this
    {
      data[pos..]
    }

    constructor (text: string)
      ensures Valid() && Rest() == text
    {
      data, pos, good := text, 0, true;
    }

    method Get() returns (c: char)
      requires Valid() && good
      modifies this
      ensures Valid()
      ensures good <==> old(Rest()) != ""
      ensures good ==> old(Rest()) == [c] + Rest() && pos == old(pos) + 1
      ensures !good ==> Rest() == ""
    {
      if pos < |data| {
        c := data[pos];
        pos := pos + 1;
      } else {
        c := '\0';
        good := false;
      }
    }

    // Put back the character just read.
    method Unget(ghost c: char)
      requires Valid() && good && pos > 0 && data[pos - 1] == c
      modifies this
      ensures Valid() && Rest() == [c] + old(Rest())
    {
      pos := pos - 1;
    }
  }

  method ParseToken(input: InputStream) returns (kind: TokenType, value: string)
    requires input.Valid()
    modifies input
    ensures input.Valid()
    ensures Lexed(kind, value, input.Rest()) == NextToken(old(input.Rest()))
    ensures kind != EOF && kind != ERROR ==> |input.Rest()| < |old(input.Rest())|
  {
    value := "";
    var state := InitialWhitespace;
    while input.good
      invariant input.Valid()
      invariant Scan(state, value, input.Rest()) == NextToken(old(input.Rest()))
      decreases |input.data| - input.pos, input.good
    {
      ghost var unread := input.Rest();
      var c := input.Get();
      if !input.good {
        break;
      }
      assert unread[0] == c && unread[1..] == input.Rest();
      match state
      case InitialWhitespace =>
        if c == '{' { return START_BLOCK, [c]; }
        else if c == '}' { return END_BLOCK, [c]; }
        else if c == '#' { value := [c]; state := InComment; }
        else if c == '"' { value := [c]; state := DoubleQuote; }
        else if c == '\'' { value := [c]; state := SingleQuote; }
        else if c == ';' { return STATEMENT_END, [c]; }
        else if IsBlank(c) { }
        else { value := value + [c]; state := InNormal; }
      case SingleQuote =>
        value := value + [c];
        if c == '\'' { return NORMAL, value; }
      case DoubleQuote =>
        value := value + [c];
        if c == '"' { return NORMAL, value; }
      case InComment =>
        if c == '\n' || c == '\r' { return COMMENT, value; }
        value := value + [c];
      case InNormal =>
        if EndsBare(c) {
          input.Unget(c);
          return NORMAL, value;
        }
        value := value + [c];
    }
    if state == SingleQuote || state == DoubleQuote {
      return ERROR, value;
    }
    return EOF, value;
  }

  // ---------------------------------------------------------------------------
  // The tree of objects

  class NginxConfigStatement {
    var tokens: seq<string>
    var child: NginxConfig?

    constructor ()
      ensures tokens == [] && child == null
    {
      tokens, child := [], null;
    }

    // NginxConfigStatement::ToString, on an object that stands for `v`.
    method ToString(depth: int, ghost v: Stmt, ghost foot: set<object>) returns (s: string)
      requires StmtIs(this, v, foot)
      ensures s == PrintStmt(v, depth)
      decreases v, 1
    {
      hide Print, StmtsAre, Indent, JoinWords;
      var indent := Spaces(depth);
      var words := JoinTokens(tokens);
      s := indent + words;
      if child != null {
        var inner := child.ToString(depth + 1, v.block.stmts, foot);
        var spaces := Spaces(depth);
        s := s + (" {\n" + inner + spaces + "}");
      } else {
        s := s + ";";
      }
      s := s + "\n";
    }

    // The body of get_handler_paths' loop.
    method AddHandlerPaths(paths: map<string, (string, NginxConfig)>, ghost v: Stmt,
                           ghost table: PathMap, ghost foot: set<object>)
      returns (paths': map<string, (string, NginxConfig)>)
      requires StmtIs(this, v, foot) && TableIs(paths, table, foot)
      ensures TableIs(paths', FlattenStmt(v, table), foot)
      decreases v
    {
      hide KeyValue, StmtsAre;
      paths' := paths;
      if |tokens| == 2 && tokens[0] == "handler" && child != null {
        var path := child.GetKeyValue("location", v.block.stmts, foot);
        if path != "" {
          if tokens[1] !in paths {
            var copy := new NginxConfig();
            copy.statements := child.statements;
            paths' := paths[path := (tokens[1], copy)];
          }
        }
      } else if child != null {
        paths' := child.GetHandlerPaths(paths, v.block.stmts, table, foot);
      }
    }
  }

  // The table of pointers stands for the table of values.
  ghost predicate TableIs(paths: map<string, (string, NginxConfig)>, table: PathMap, foot: set<object>)
    reads foot, set p | p in paths :: paths[p].1
  {
    && paths.Keys == table.Keys
    && forall p :: p in paths ==> paths[p].0 == table[p].kind && StmtsAre(paths[p].1.statements, table[p].config, foot)
  }

  method JoinTokens(tokens: seq<string>) returns (s: string)
    ensures s == JoinWords(tokens)
  {
    s := "";
    var i := 0;
    while i < |tokens|
      invariant 0 <= i <= |tokens|
      invariant s == JoinWords(tokens[..i])
    {
      JoinWordsSnoc(tokens[..i], tokens[i]);
      assert tokens[..i + 1] == tokens[..i] + [tokens[i]];
      if i != 0 {
        s := s + " ";
      }
      s := s + tokens[i];
      i := i + 1;
    }
    assert tokens[..i] == tokens;
  }

  method Spaces(depth: int) returns (s: string)
    ensures s == Indent(depth)
  {
    s := "";
    var i := 0;
    while i < depth
      invariant 0 <= i && (depth >= 0 ==> i <= depth) && (depth < 0 ==> i == 0)
      invariant s == Indent(i)
    {
      s := s + "  ";
      i := i + 1;
    }
  }

  lemma {:induction false} JoinWordsSnoc(ws: seq<string>, w: string)
    ensures JoinWords(ws + [w]) == if ws == [] then w else JoinWords(ws) + " " + w
  {
    if |ws| == 0 {
      assert ws + [w] == [w];
    } else if |ws| == 1 {
      assert (ws + [w])[1..] == [w];
    } else {
      JoinWordsSnoc(ws[1..], w);
      assert (ws + [w])[1..] == ws[1..] + [w];
    }
  }

  lemma {:induction false} PrintSnoc(ss: seq<Stmt>, st: Stmt, depth: int)
    ensures Print(ss + [st], depth) == Print(ss, depth) + PrintStmt(st, depth)
  {
    hide PrintStmt;
    if ss == [] {
      assert ss + [st] == [st] && [st][1..] == [];
      assert Print([st], depth) == PrintStmt(st, depth) + Print([], depth);
    } else {
      PrintSnoc(ss[1..], st, depth);
      assert (ss + [st])[1..] == ss[1..] + [st];
    }
  }

  class NginxConfig {
    var statements: seq<NginxConfigStatement>

    constructor ()
      ensures statements == []
    {
      statements := [];
    }

    // NginxConfig::ToString.
    method ToString(depth: int, ghost vs: seq<Stmt>, ghost foot: set<object>) returns (s: string)
      requires StmtsAre(statements, vs, foot)
      ensures s == Print(vs, depth)
      decreases vs, 0
    {
      hide PrintStmt, StmtIs;
      s := "";
      assert vs[..0] == [];
      for i := 0 to |statements|
        invariant s == Print(vs[..i], depth)
      {
        var one := statements[i].ToString(depth, vs[i], foot);
        s := s + one;
        PrintSnoc(vs[..i], vs[i], depth);
        assert vs[..i + 1] == vs[..i] + [vs[i]];
      }
      assert vs[..|vs|] == vs;
    }

    // NginxConfig::get_key_value.
    method GetKeyValue(key: string, ghost vs: seq<Stmt>, ghost foot: set<object>) returns (value: string)
      requires StmtsAre(statements, vs, foot)
      ensures value == KeyValue(vs, key)
    {
      assert vs[0..] == vs;
      for i := 0 to |statements|
        invariant KeyValue(vs, key) == KeyValue(vs[i..], key)
      {
        var st := statements[i];
        assert StmtIs(st, vs[i], foot);
        assert vs[i..][1..] == vs[i + 1..];
        if |st.tokens| == 2 && st.tokens[0] == key && st.child == null {
          return st.tokens[1];
        }
      }
      return "";
    }

    // NginxConfig::get_port.
    method GetPort(ghost vs: seq<Stmt>, ghost foot: set<object>) returns (port: int)
      requires StmtsAre(statements, vs, foot)
      ensures port == Port(vs)
    {
      hide DecValue;
      assert vs[0..] == vs;
      for i := 0 to |statements|
        invariant Port(vs) == Port(vs[i..])
      {
        var st := statements[i];
        assert StmtIs(st, vs[i], foot);
        assert vs[i..][1..] == vs[i + 1..];
        if |st.tokens| == 2 && st.tokens[0] == "port" {
          var n := st.tokens[1];
          var k := 0;
          while k < |n| && IsDigit(n[k])
            invariant 0 <= k <= |n| && forall j :: 0 <= j < k ==> IsDigit(n[j])
          {
            k := k + 1;
          }
          if n == "" || k != |n| {
            return -1;
          }
          return DecValue(n);
        }
      }
      return -1;
    }

    // NginxConfig::get_handler_paths. The entries hold copies of the handler blocks; a copy
    // shares its statements with the original.
    method GetHandlerPaths(paths: map<string, (string, NginxConfig)>, ghost vs: seq<Stmt>,
                           ghost table: PathMap, ghost foot: set<object>)
      returns (paths': map<string, (string, NginxConfig)>)
      requires StmtsAre(statements, vs, foot) && TableIs(paths, table, foot)
      ensures TableIs(paths', Flatten(vs, table), foot)
      decreases vs
    {
      hide StmtIs, FlattenStmt, KeyValue, Register;
      paths' := paths;
      ghost var table' := table;
      assert vs[0..] == vs;
      for i := 0 to |statements|
        invariant TableIs(paths', table', foot)
        invariant Flatten(vs, table) == Flatten(vs[i..], table')
      {
        paths' := statements[i].AddHandlerPaths(paths', vs[i], table', foot);
        assert vs[i..][1..] == vs[i + 1..];
        table' := FlattenStmt(vs[i], table');
      }
    }
  }

  // The object `st` stands for the value `v`, all of it within the objects of `foot`.
  ghost predicate StmtIs(st: NginxConfigStatement, v: Stmt, foot: set<object>)
    reads foot
    decreases v
  {
    && st in foot
    && st.tokens == v.words
    && match v.block
       case NoBlock => st.child == null
       case Block(b) => st.child != null && st.child in foot && StmtsAre(st.child.statements, b, foot)
  }

  ghost predicate StmtsAre(sts: seq<NginxConfigStatement>, vs: seq<Stmt>, foot: set<object>)
    reads foot
    decreases vs
  {
    |sts| == |vs| && forall i :: 0 <= i < |sts| ==> StmtIs(sts[i], vs[i], foot)
  }

  lemma {:induction false} StmtIsGrows(st: NginxConfigStatement, v: Stmt, foot: set<object>, more: set<object>)
    requires StmtIs(st, v, foot) && foot <= more
    ensures StmtIs(st, v, more)
    decreases v
  {
    if v.block.Block? {
      StmtsAreGrow(st.child.statements, v.block.stmts, foot, more);
    }
  }

  lemma {:induction false} StmtsAreGrow(sts: seq<NginxConfigStatement>, vs: seq<Stmt>, foot: set<object>, more: set<object>)
    requires StmtsAre(sts, vs, foot) && foot <= more
    ensures StmtsAre(sts, vs, more)
    decreases vs
  {
    forall i | 0 <= i < |sts| ensures StmtIs(sts[i], vs[i], more) {
      StmtIsGrows(sts[i], vs[i], foot, more);
    }
  }

  // ---------------------------------------------------------------------------
  // The stack of pointers

  // `cfg` holds the statements `before` that were there already and then `level`, all closed.
  ghost predicate ClosedIn(cfg: NginxConfig, before: seq<NginxConfigStatement>, level: seq<Stmt>, frozen: set<object>)
    reads cfg, frozen
  {
    && |cfg.statements| == |before| + |level|
    && cfg.statements[..|before|] == before
    && StmtsAre(cfg.statements[|before|..], level, frozen)
  }

  // Likewise, but the last statement is the open object `st`.
  ghost predicate OpenIn(cfg: NginxConfig, before: seq<NginxConfigStatement>, level: seq<Stmt>,
                         st: NginxConfigStatement, frozen: set<object>)
    reads cfg, st, frozen
  {
    && level != []
    && |cfg.statements| == |before| + |level|
    && cfg.statements[..|before|] == before
    && StmtsAre(Front(cfg.statements[|before|..]), Front(level), frozen)
    && Last(cfg.statements) == st
    && st.tokens == Last(level).words
  }

  function Before(i: nat, before: seq<NginxConfigStatement>): seq<NginxConfigStatement> {
    if i == 0 then before else []
  }

  predicate Distinct<T(==)>(s: seq<T>) {
    forall i, j :: 0 <= i < j < |s| ==> s[i] != s[j]
  }

  // The stack and the open statements stand for `levels`: each stacked config is the child of
  // the open statement below it, and everything closed lies in `frozen`, which holds nothing
  // that is still being written.
  ghost predicate Spine(stack: seq<NginxConfig>, opens: seq<NginxConfigStatement>, levels: seq<seq<Stmt>>,
                        before: seq<NginxConfigStatement>, frozen: set<object>)
    reads stack, opens, frozen
  {
    && |stack| == |levels|
    && stack != []
    && |stack| - 1 <= |opens| <= |stack|
    && Distinct(stack) && Distinct(opens)
    && (forall c :: c in stack ==> c !in frozen)
    && (forall o :: o in opens ==> o !in frozen)
    && (forall i :: 0 <= i < |opens| ==> OpenIn(stack[i], Before(i, before), levels[i], opens[i], frozen))
    && (forall i :: 0 <= i < |opens| && i + 1 < |stack| ==> opens[i].child == stack[i + 1])
    && (if |opens| == |stack| then Last(opens).child == null
        else ClosedIn(Last(stack), Before(|stack| - 1, before), Last(levels), frozen))
  }

  lemma OpenInGrows(cfg: NginxConfig, before: seq<NginxConfigStatement>, level: seq<Stmt>,
                    st: NginxConfigStatement, frozen: set<object>, more: set<object>)
    requires OpenIn(cfg, before, level, st, frozen) && frozen <= more
    ensures OpenIn(cfg, before, level, st, more)
  {
    hide StmtsAre;
    StmtsAreGrow(Front(cfg.statements[|before|..]), Front(level), frozen, more);
  }

  // Once the open statement is complete, the level is closed.
  lemma OpenInCloses(cfg: NginxConfig, before: seq<NginxConfigStatement>, level: seq<Stmt>,
                     st: NginxConfigStatement, v: Stmt, frozen: set<object>, more: set<object>)
    requires OpenIn(cfg, before, level, st, frozen) && frozen <= more
    requires StmtIs(st, v, more)
    ensures ClosedIn(cfg, before, Front(level) + [v], more)
  {
    hide StmtsAre, StmtIs;
    var own, closed := cfg.statements[|before|..], Front(level) + [v];
    assert Front(closed) == Front(level);
    StmtsAreGrow(Front(own), Front(level), frozen, more);
    StmtsAreSnoc(own, closed, more);
  }

  lemma StmtsAreSnoc(sts: seq<NginxConfigStatement>, vs: seq<Stmt>, foot: set<object>)
    requires sts != [] && vs != []
    requires StmtsAre(Front(sts), Front(vs), foot) && StmtIs(Last(sts), Last(vs), foot)
    ensures StmtsAre(sts, vs, foot)
  {
  }

  // A ';' closes the open statement on top: nothing is written.
  lemma SpineSemi(stack: seq<NginxConfig>, opens: seq<NginxConfigStatement>, levels: seq<seq<Stmt>>,
                  before: seq<NginxConfigStatement>, frozen: set<object>)
    requires Spine(stack, opens, levels, before, frozen) && |opens| == |stack|
    requires Last(levels) != [] && Last(Last(levels)).block == NoBlock
    ensures Spine(stack, Front(opens), levels, before, frozen + {Last(opens)})
  {
    hide OpenIn, ClosedIn, StmtsAre;
    var st, n := Last(opens), |stack| - 1;
    var frozen' := frozen + {st};
    forall i | 0 <= i < n ensures OpenIn(stack[i], Before(i, before), levels[i], opens[i], frozen') {
      OpenInGrows(stack[i], Before(i, before), levels[i], opens[i], frozen, frozen');
    }
    assert OpenIn(stack[n], Before(n, before), levels[n], opens[n], frozen);
    OpenInWords(stack[n], Before(n, before), levels[n], opens[n], frozen);
    var level := Last(levels);
    assert StmtIs(st, Last(level), frozen');
    OpenInCloses(stack[n], Before(n, before), level, st, Last(level), frozen, frozen');
    assert Front(level) + [Last(level)] == level;
  }

  lemma OpenInWords(cfg: NginxConfig, before: seq<NginxConfigStatement>, level: seq<Stmt>,
                    st: NginxConfigStatement, frozen: set<object>)
    requires OpenIn(cfg, before, level, st, frozen)
    ensures level != [] && st.tokens == Last(level).words
  {
  }

  // A '}' closes the block on top and the statement it belongs to: nothing is written.
  lemma SpineClose(stack: seq<NginxConfig>, opens: seq<NginxConfigStatement>, levels: seq<seq<Stmt>>,
                   before: seq<NginxConfigStatement>, frozen: set<object>)
    requires Spine(stack, opens, levels, before, frozen) && |opens| == |stack| - 1 && |stack| >= 2
    requires levels[|levels| - 2] != []
    ensures Spine(Front(stack), Front(opens), CloseTop(levels), before, frozen + {Last(opens), Last(stack)})
  {
    hide OpenIn, ClosedIn, StmtsAre;
    var st, top, n := Last(opens), Last(stack), |stack| - 2;
    var frozen' := frozen + {st, top};
    forall i | 0 <= i < n ensures OpenIn(stack[i], Before(i, before), levels[i], opens[i], frozen') {
      OpenInGrows(stack[i], Before(i, before), levels[i], opens[i], frozen, frozen');
    }
    assert OpenIn(stack[n], Before(n, before), levels[n], opens[n], frozen);
    OpenInWords(stack[n], Before(n, before), levels[n], opens[n], frozen);
    var v := Last(levels[n]).(block := Block(Last(levels)));
    assert StmtIs(st, v, frozen') by {
      assert opens[n].child == stack[n + 1];
      BlockContents(top, Last(levels), frozen, frozen');
    }
    OpenInCloses(stack[n], Before(n, before), levels[n], st, v, frozen, frozen');
    assert Last(CloseTop(levels)) == Front(levels[n]) + [v];
    assert CloseTop(levels)[..n] == levels[..n];
  }

  lemma BlockContents(cfg: NginxConfig, level: seq<Stmt>, frozen: set<object>, more: set<object>)
    requires ClosedIn(cfg, [], level, frozen) && frozen <= more
    ensures StmtsAre(cfg.statements, level, more)
  {
    hide StmtsAre;
    assert cfg.statements[0..] == cfg.statements;
    StmtsAreGrow(cfg.statements, level, frozen, more);
  }

  // ---------------------------------------------------------------------------
  // The three writes to the tree, first on the top config alone, then on the whole stack

  method NewStatement(top: NginxConfig, token: string, ghost before: seq<NginxConfigStatement>,
                      ghost level: seq<Stmt>, ghost frozen: set<object>)
    returns (st: NginxConfigStatement)
    requires ClosedIn(top, before, level, frozen) && top !in frozen
    modifies top
    ensures fresh(st) && st.child == null
    ensures OpenIn(top, before, level + [Stmt([token], NoBlock)], st, frozen)
  {
    st := new NginxConfigStatement();
    st.tokens := st.tokens + [token];
    ghost var own := top.statements[|before|..];
    top.statements := top.statements + [st];
    assert Front(top.statements[|before|..]) == own;
    assert Front(level + [Stmt([token], NoBlock)]) == level;
  }

  method PushToken(top: NginxConfig, token: string, ghost before: seq<NginxConfigStatement>,
                   ghost level: seq<Stmt>, ghost st: NginxConfigStatement, ghost frozen: set<object>)
    requires OpenIn(top, before, level, st, frozen) && st !in frozen
    modifies st
    ensures st.child == old(st.child)
    ensures OpenIn(top, before, AddWord(level, token), st, frozen)
  {
    var last := top.statements[|top.statements| - 1];
    last.tokens := last.tokens + [token];
    assert Front(AddWord(level, token)) == Front(level);
  }

  method NewBlock(top: NginxConfig, ghost before: seq<NginxConfigStatement>, ghost level: seq<Stmt>,
                  ghost st: NginxConfigStatement, ghost frozen: set<object>)
    returns (inner: NginxConfig)
    requires OpenIn(top, before, level, st, frozen) && st !in frozen
    modifies st
    ensures fresh(inner) && st.child == inner
    ensures OpenIn(top, before, level, st, frozen) && ClosedIn(inner, [], [], frozen)
  {
    inner := new NginxConfig();
    var last := top.statements[|top.statements| - 1];
    last.child := inner;
  }

  // The first word of a statement: a new statement object at the end of the top config.
  method StartStatement(stack: seq<NginxConfig>, token: string, ghost opens: seq<NginxConfigStatement>,
                        ghost levels: seq<seq<Stmt>>, ghost before: seq<NginxConfigStatement>, ghost frozen: set<object>)
    returns (st: NginxConfigStatement)
    requires Spine(stack, opens, levels, before, frozen) && |opens| == |stack| - 1
    modifies Last(stack)
    ensures fresh(st)
    ensures Spine(stack, opens + [st], Front(levels) + [Last(levels) + [Stmt([token], NoBlock)]], before, frozen)
  {
    hide OpenIn, ClosedIn;
    st := NewStatement(Last(stack), token, Before(|stack| - 1, before), Last(levels), frozen);
  }

  // A further word of the open statement.
  method AddToStatement(stack: seq<NginxConfig>, token: string, ghost opens: seq<NginxConfigStatement>,
                        ghost levels: seq<seq<Stmt>>, ghost before: seq<NginxConfigStatement>, ghost frozen: set<object>)
    requires Spine(stack, opens, levels, before, frozen) && |opens| == |stack|
    requires Last(levels) != []
    modifies Last(opens)
    ensures Spine(stack, opens, Front(levels) + [AddWord(Last(levels), token)], before, frozen)
  {
    hide OpenIn, ClosedIn, AddWord;
    ghost var n := |stack| - 1;
    PushToken(Last(stack), token, Before(n, before), Last(levels), opens[n], frozen);
  }

  // A '{': a new config becomes the child of the open statement and goes on the stack.
  method OpenBlock(stack: seq<NginxConfig>, ghost opens: seq<NginxConfigStatement>, ghost levels: seq<seq<Stmt>>,
                   ghost before: seq<NginxConfigStatement>, ghost frozen: set<object>)
    returns (inner: NginxConfig)
    requires Spine(stack, opens, levels, before, frozen) && |opens| == |stack|
    modifies Last(opens)
    ensures fresh(inner)
    ensures Spine(stack + [inner], opens, levels + [[]], before, frozen)
  {
    hide OpenIn, ClosedIn;
    ghost var n := |stack| - 1;
    inner := NewBlock(Last(stack), Before(n, before), levels[n], opens[n], frozen);
  }

  // ---------------------------------------------------------------------------
  // NginxConfigParser::Parse

  lemma SpineStart(config: NginxConfig)
    ensures Spine([config], [], INITIAL.levels, config.statements, {})
    ensures Inv(INITIAL)
  {
  }

  // What the stack says about its bottom, the config Parse was given.
  lemma SpineBase(stack: seq<NginxConfig>, opens: seq<NginxConfigStatement>, levels: seq<seq<Stmt>>,
                  before: seq<NginxConfigStatement>, frozen: set<object>)
    requires Spine(stack, opens, levels, before, frozen)
    ensures |stack[0].statements| >= |before| && stack[0].statements[..|before|] == before
    ensures |stack| == 1 && opens == [] ==> StmtsAre(stack[0].statements[|before|..], levels[0], frozen)
  {
  }

  // Each turn of the loop as a step of the machine, in the terms the loop uses.
  lemma Turn(m: Machine, token: string)
    requires Inv(m)
    ensures m.levels != [] && m.last in {START, NORMAL, STATEMENT_END, START_BLOCK, END_BLOCK}
    ensures m.last == NORMAL ==> Last(m.levels) != [] && Last(Last(m.levels)).block == NoBlock
    ensures m.starts > m.ends ==> |m.levels| >= 2 && m.levels[|m.levels| - 2] != []
    ensures m.starts == m.ends ==> |m.levels| == 1
    ensures Step(m, Word(token)) == Some(AfterWord(m, token)) && Inv(AfterWord(m, token))
    ensures Step(m, Semi) == if m.last == NORMAL then Some(m.(last := STATEMENT_END)) else None
    ensures Step(m, Open) == if m.last == NORMAL then Some(AfterOpen(m)) else None
    ensures Step(m, Close) ==
              if (m.last == STATEMENT_END || m.last == END_BLOCK) && m.starts > m.ends then Some(AfterClose(m)) else None
    ensures m.last == NORMAL ==> Inv(m.(last := STATEMENT_END)) && Inv(AfterOpen(m))
    ensures (m.last == STATEMENT_END || m.last == END_BLOCK) && m.starts > m.ends ==> Inv(AfterClose(m))
  {
    StepIsDefined(m, Close);
    StepKeepsInv(m, Word(token));
    if m.last == NORMAL {
      StepKeepsInv(m, Semi);
      StepKeepsInv(m, Open);
    }
    if (m.last == STATEMENT_END || m.last == END_BLOCK) && m.starts > m.ends {
      StepKeepsInv(m, Close);
    }
  }

  ghost function AfterWord(m: Machine, token: string): Machine
    requires m.levels != [] && (m.last == NORMAL ==> Last(m.levels) != [])
  {
    var top := if m.last != NORMAL then Last(m.levels) + [Stmt([token], NoBlock)] else AddWord(Last(m.levels), token);
    Machine(NORMAL, Front(m.levels) + [top], m.starts, m.ends)
  }

  ghost function AfterOpen(m: Machine): Machine {
    Machine(START_BLOCK, m.levels + [[]], m.starts + 1, m.ends)
  }

  ghost function AfterClose(m: Machine): Machine
    requires |m.levels| >= 2 && m.levels[|m.levels| - 2] != []
  {
    Machine(END_BLOCK, CloseTop(m.levels), m.starts, m.ends + 1)
  }

  // How far Parse got: the tokens it took in, and the objects that now stand for them.
  datatype Trace = Trace(read: seq<Terminal>, stack: seq<NginxConfig>, opens: seq<NginxConfigStatement>,
                         foot: set<object>)

  // The objects of the trace, with `config` at the bottom, stand for the machine's stack after
  // the tokens read, and no token was skipped.
  ghost predicate Reached(text: string, tr: Trace, config: NginxConfig, before: seq<NginxConfigStatement>)
    reads tr.stack, tr.opens, tr.foot
  {
    && IsAtEnd(text, tr.read)
    && Spine(tr.stack, tr.opens, Run(INITIAL, tr.read).value.levels, before, tr.foot)
    && tr.stack[0] == config
  }

  // Parse appends to whatever `config` holds already. It returns true exactly when the text
  // is in the language, and then what it appended stands for the tree of the text. Either way
  // it never touches the statements that were there, and what it appended stands for the
  // tokens up to the end of the text or the first one that has no place.
  method Parse(input: InputStream, config: NginxConfig) returns (ok: bool, ghost tr: Trace)
    requires input.Valid()
    modifies input, config
    ensures ok <==> ParseText(old(input.Rest())).Some?
    ensures Reached(old(input.Rest()), tr, config, old(config.statements))
    ensures fresh(tr.foot) && fresh(tr.opens) && fresh(tr.stack[1..])
    ensures |config.statements| >= |old(config.statements)|
    ensures config.statements[..|old(config.statements)|] == old(config.statements)
    ensures ok ==> StmtsAre(config.statements[|old(config.statements)|..], ParseText(old(input.Rest())).value, tr.foot)
  {
    hide StmtsAre, NextToken, Step, Inv, ParseFrom, Spine, CloseTop, AddWord, IsReading, IsAtEnd, Reached, Run;
    var stack := [config];
    var last := START;
    var starts, ends := 0, 0;
    ghost var text := input.Rest();
    ghost var before := config.statements;
    ghost var m := INITIAL;
    ghost var read: seq<Terminal> := [];
    ghost var opens: seq<NginxConfigStatement> := [];
    ghost var foot: set<object> := {};
    SpineStart(config);
    ReadNothing(text);
    while true
      invariant input.Valid()
      invariant Inv(m) && m.last == last && m.starts == starts && m.ends == ends
      invariant ParseFrom(m, input.Rest()) == ParseText(text)
      invariant IsReading(text, read, m, input.Rest())
      invariant stack != [] && stack[0] == config
      invariant Spine(stack, opens, m.levels, before, foot)
      invariant |m.levels| == |stack| && |opens| == |stack| - (if last == NORMAL then 0 else 1)
      invariant fresh(foot) && fresh(opens) && fresh(stack[1..])
      decreases |input.Rest()|
    {
      var kind, token;
      ghost var unread := input.Rest();
      kind, token := ParseToken(input);
      Turn(m, token);
      ParseFromTurn(m, unread);
      ReadOn(text, read, m, unread);
      SpineBase(stack, opens, m.levels, before, foot);
      tr := Trace(read, stack, opens, foot);
      ReachedAtEnd(text, tr, m, unread, before);
      if kind == ERROR {
        return false, tr;
      }
      if kind == COMMENT {
        continue;
      }
      if kind == NORMAL {
        if last == START || last == STATEMENT_END || last == START_BLOCK || last == END_BLOCK || last == NORMAL {
          if last != NORMAL {
            var st := StartStatement(stack, token, opens, m.levels, before, foot);
            opens := opens + [st];
          } else {
            AddToStatement(stack, token, opens, m.levels, before, foot);
          }
          m, read := AfterWord(m, token), read + [Word(token)];
        } else {
          return false, tr;
        }
      } else if kind == STATEMENT_END {
        if last != NORMAL {
          return false, tr;
        }
        SpineSemi(stack, opens, m.levels, before, foot);
        foot, opens := foot + {Last(opens)}, Front(opens);
        m, read := m.(last := STATEMENT_END), read + [Semi];
      } else if kind == START_BLOCK {
        if last != NORMAL {
          return false, tr;
        }
        starts := starts + 1;
        var inner := OpenBlock(stack, opens, m.levels, before, foot);
        stack := stack + [inner];
        m, read := AfterOpen(m), read + [Open];
      } else if kind == END_BLOCK {
        if last != STATEMENT_END && last != END_BLOCK {
          return false, tr;
        }
        if starts <= ends {
          return false, tr;
        }
        ends := ends + 1;
        SpineClose(stack, opens, m.levels, before, foot);
        foot, opens := foot + {Last(opens), Last(stack)}, Front(opens);
        stack := stack[..|stack| - 1];
        m, read := AfterClose(m), read + [Close];
      } else {
        // the end of the file
        if last != STATEMENT_END && last != END_BLOCK && last != START {
          return false, tr;
        }
        if starts != ends {
          return false, tr;
        }
        return true, tr;
      }
      last := kind;
    }
  }

  lemma ReadNothing(text: string)
    ensures IsReading(text, [], INITIAL, text)
  {
    hide Terminals;
    assert [] + Terminals(text).terms == Terminals(text).terms;
  }

  lemma ReachedAtEnd(text: string, tr: Trace, m: Machine, unread: string, before: seq<NginxConfigStatement>)
    requires IsReading(text, tr.read, m, unread) && Spine(tr.stack, tr.opens, m.levels, before, tr.foot)
    ensures tr.stack != [] && (IsAtEnd(text, tr.read) ==> Reached(text, tr, tr.stack[0], before))
  {
    hide IsAtEnd;
  }
}
