// NginxConfig::ToString and NginxConfigStatement::ToString on values, and the proof that
// printing and parsing undo each other.
module ConfigPrinter {
  import opened Basics
  import opened ConfigSyntax
  import opened ConfigLexer
  import opened ConfigMachine

  // Two spaces a level; nothing at depth zero or below.
  function Indent(depth: int): string
    decreases if depth > 0 then depth else 0
  {
    if depth <= 0 then "" else Indent(depth - 1) + "  "
  }

  // The words of a statement, a single space between neighbours.
  function JoinWords(ws: seq<string>): string {
    if ws == [] then ""
    else if |ws| == 1 then ws[0]
    else ws[0] + " " + JoinWords(ws[1..])
  }

  function PrintTail(block: Child, depth: int): string
    decreases block
  {
    match block
    case NoBlock => ";"
    case Block(b) => " {\n" + Print(b, depth + 1) + Indent(depth) + "}"
  }

  function PrintStmt(s: Stmt, depth: int): string
    decreases s
  {
    Indent(depth) + JoinWords(s.words) + PrintTail(s.block, depth) + "\n"
  }

  function Print(ss: seq<Stmt>, depth: int): string
    decreases ss
  {
    if ss == [] then "" else PrintStmt(ss[0], depth) + Print(ss[1..], depth)
  }

  // The indentation is two spaces a level.
  lemma {:induction false} IndentIsSpaces(depth: int)
    ensures |Indent(depth)| == if depth > 0 then 2 * depth else 0
    ensures forall i :: 0 <= i < |Indent(depth)| ==> Indent(depth)[i] == ' '
    decreases if depth > 0 then depth else 0
  {
    if depth > 0 {
      IndentIsSpaces(depth - 1);
    }
  }

  // A statement of two words, character by character: without a block, and with one.
  lemma PrintedPair(a: string, b: string, ss: seq<Stmt>, depth: int)
    ensures Print([Stmt([a, b], NoBlock)], depth) == Indent(depth) + (a + " " + b + ";\n")
    ensures Print([Stmt([a, b], Block(ss))], depth) ==
              Indent(depth) + (a + " " + b + " {\n" + Print(ss, depth + 1) + Indent(depth) + "}\n")
  {
    hide Indent;
    assert [a, b][1..] == [b];
    assert JoinWords([a, b]) == a + " " + b;
    var line, block := Stmt([a, b], NoBlock), Stmt([a, b], Block(ss));
    assert [line][1..] == [] && [block][1..] == [];
    assert PrintStmt(line, depth) == Indent(depth) + (a + " " + b + ";\n");
    assert PrintStmt(block, depth) == Indent(depth) + (a + " " + b + " {\n" + Print(ss, depth + 1) + Indent(depth) + "}\n");
    assert Print([line], depth) == PrintStmt(line, depth) + "" && Print([block], depth) == PrintStmt(block, depth) + "";
  }

  // The words of a statement, one more in front.
  lemma PrintedWords(w: string, ws: seq<string>)
    requires ws != []
    ensures JoinWords([w] + ws) == w + " " + JoinWords(ws)
    ensures JoinWords([w]) == w
  {
    assert ([w] + ws)[1..] == ws;
  }

  // ---------------------------------------------------------------------------
  // Reading back what was printed

  // Every word can stand in a configuration text.
  predicate Spellable(ts: seq<Terminal>) {
    forall t :: t in ts && t.Word? ==> IsWord(t.text)
  }

  function Then(ts: seq<Terminal>, more: Stream): Stream {
    Stream(ts + more.terms, more.clean)
  }

  lemma LexEnd()
    ensures Terminals("") == Stream([], true)
  {
  }

  lemma LexBlank(c: char, s: string)
    requires IsBlank(c)
    ensures Terminals([c] + s) == Terminals(s)
  {
  }

  lemma LexPunct(c: char, t: Terminal, s: string)
    requires (c == '{' && t == Open) || (c == '}' && t == Close) || (c == ';' && t == Semi)
    ensures Terminals([c] + s) == Then([t], Terminals(s))
  {
  }

  lemma LexWord(w: string, s: string)
    requires IsWord(w) && s != "" && EndsBare(s[0])
    ensures Terminals(w + s) == Then([Word(w)], Terminals(s))
  {
    hide NextToken;
    var l := Lexed(NORMAL, w, s);
    assert SkipBlanks(w + s) == w + s;
    NextTokenIsTheToken(w + s, l);
  }

  lemma {:induction false} LexIndent(depth: int, s: string)
    ensures Terminals(Indent(depth) + s) == Terminals(s)
    decreases if depth > 0 then depth else 0
  {
    hide Terminals;
    if depth <= 0 {
      assert "" + s == s;
    } else {
      assert Indent(depth) + s == Indent(depth - 1) + ([' '] + ([' '] + s));
      LexIndent(depth - 1, [' '] + ([' '] + s));
      LexBlank(' ', [' '] + s);
      LexBlank(' ', s);
    }
  }

  lemma WordsCons(ws: seq<string>)
    requires ws != []
    ensures Words(ws) == [Word(ws[0])] + Words(ws[1..])
    ensures Spellable(Words(ws)) ==> IsWord(ws[0]) && Spellable(Words(ws[1..]))
  {
  }

  lemma {:induction false} LexWords(ws: seq<string>, s: string)
    requires Spellable(Words(ws)) && s != "" && EndsBare(s[0])
    ensures Terminals(JoinWords(ws) + s) == Then(Words(ws), Terminals(s))
    decreases |ws|
  {
    hide Terminals, IsWord, Words, Spellable;
    if ws == [] {
      assert "" + s == s;
      assert Words(ws) == [];
    } else {
      WordsCons(ws);
      if |ws| == 1 {
        LexWord(ws[0], s);
        assert Words(ws[1..]) == [];
      } else {
        var more := JoinWords(ws[1..]) + s;
        assert JoinWords(ws) + s == ws[0] + ([' '] + more);
        LexWord(ws[0], [' '] + more);
        LexBlank(' ', more);
        LexWords(ws[1..], s);
      }
    }
  }

  lemma {:induction false} LexTail(block: Child, depth: int, s: string)
    requires Spellable(Tail(block))
    ensures Terminals(PrintTail(block, depth) + s) == Then(Tail(block), Terminals(s))
    ensures PrintTail(block, depth) != "" && EndsBare(PrintTail(block, depth)[0])
    decreases block
  {
    hide Terminals, IsWord, Print, Yield;
    match block
    case NoBlock => LexPunct(';', Semi, s);
    case Block(b) =>
      var s1 := ['}'] + s;
      var s2 := Indent(depth) + s1;
      var s3 := Print(b, depth + 1) + s2;
      LexPunct('}', Close, s);
      LexIndent(depth, s1);
      LexStmts(b, depth + 1, s2);
      LexBlank('\n', s3);
      LexPunct('{', Open, ['\n'] + s3);
      LexBlank(' ', ['{'] + (['\n'] + s3));
      assert PrintTail(block, depth) + s == [' '] + (['{'] + (['\n'] + s3));
      assert Tail(block) == [Open] + (Yield(b) + [Close]);
  }

  lemma {:induction false} LexStmt(st: Stmt, depth: int, s: string)
    requires Spellable(YieldStmt(st))
    ensures Terminals(PrintStmt(st, depth) + s) == Then(YieldStmt(st), Terminals(s))
    decreases st
  {
    hide Terminals, IsWord, PrintTail, Tail, JoinWords;
    var s1 := ['\n'] + s;
    var s2 := PrintTail(st.block, depth) + s1;
    var s3 := JoinWords(st.words) + s2;
    LexBlank('\n', s);
    LexTail(st.block, depth, s1);
    LexWords(st.words, s2);
    LexIndent(depth, s3);
    assert PrintStmt(st, depth) + s == Indent(depth) + s3;
  }

  lemma {:induction false} LexStmts(ss: seq<Stmt>, depth: int, s: string)
    requires Spellable(Yield(ss))
    ensures Terminals(Print(ss, depth) + s) == Then(Yield(ss), Terminals(s))
    decreases ss
  {
    hide Terminals, IsWord, PrintStmt, YieldStmt;
    if ss == [] {
      assert "" + s == s;
    } else {
      var more := Print(ss[1..], depth) + s;
      LexStmts(ss[1..], depth, s);
      LexStmt(ss[0], depth, more);
      assert Print(ss, depth) + s == PrintStmt(ss[0], depth) + more;
    }
  }

  // ---------------------------------------------------------------------------
  // The main results about printing

  // Printing at any depth and parsing again gives back the tree.
  lemma PrintThenParse(tree: seq<Stmt>, depth: int)
    requires WellFormed(tree) && Spellable(Yield(tree))
    ensures ParseText(Print(tree, depth)) == Some(tree)
  {
    hide ParseText, Print, Yield, WellFormed;
    LexStmts(tree, depth, "");
    assert Print(tree, depth) + "" == Print(tree, depth);
    LexEnd();
    ParseIsTheGrammar(Print(tree, depth), tree);
  }

  // The trees that parsing can produce are exactly the well-formed, spellable ones.
  lemma ParseImage(tree: seq<Stmt>)
    ensures (exists s :: ParseText(s) == Some(tree)) <==> WellFormed(tree) && Spellable(Yield(tree))
  {
    hide ParseText, Yield, WellFormed, Print;
    if s :| ParseText(s) == Some(tree) {
      ParsedIsSpellable(s, tree);
    }
    if WellFormed(tree) && Spellable(Yield(tree)) {
      PrintThenParse(tree, 0);
    }
  }

  lemma ParsedIsSpellable(s: string, tree: seq<Stmt>)
    requires ParseText(s) == Some(tree)
    ensures WellFormed(tree) && Spellable(Yield(tree))
  {
    hide ParseText, Terminals, IsWord, WellFormed, Yield;
    ParseIsTheGrammar(s, tree);
    forall t | t in Yield(tree) && t.Word? ensures IsWord(t.text) {
      TerminalsAreWords(s, t);
    }
  }

  // Parse, then print: a rejected text has no normal form.
  function Normalise(s: string): Option<string> {
    match ParseText(s)
    case None => None
    case Some(tree) => Some(Print(tree, 0))
  }

  // A normal form is accepted, is its own normal form, and is shared by exactly the
  // accepted texts that have the same tree.
  lemma NormaliseIsCanonical(s: string, s': string)
    requires Normalise(s).Some?
    ensures ParseText(Normalise(s).value) == ParseText(s)
    ensures Normalise(Normalise(s).value) == Normalise(s)
    ensures Normalise(s) == Normalise(s') <==> ParseText(s) == ParseText(s')
  {
    hide ParseText, Print, Yield, WellFormed;
    ParsedIsSpellable(s, ParseText(s).value);
    PrintThenParse(ParseText(s).value, 0);
    if Normalise(s') == Normalise(s) {
      ParsedIsSpellable(s', ParseText(s').value);
      PrintThenParse(ParseText(s').value, 0);
    }
  }
}
