// The configuration language: its terminals, its statement trees, and the grammar
//
//     config := stmt*        stmt := WORD+ (';' | '{' stmt+ '}')
//
// A derivation of the grammar is a well-formed tree; the sentence it derives is its Yield.
module ConfigSyntax {

  // The token kinds of config_parser.h.
  datatype TokenType = START | NORMAL | START_BLOCK | END_BLOCK | COMMENT | STATEMENT_END | EOF | ERROR

  // The terminals of the grammar: tokens that are neither comments nor end marks.
  datatype Terminal = Word(text: string) | Open | Close | Semi

  // The value of an NginxConfigStatement; a config is a sequence of these.
  datatype Stmt = Stmt(words: seq<string>, block: Child)

  // A statement's child block, if it has one.
  datatype Child = NoBlock | Block(stmts: seq<Stmt>)

  predicate WellFormedStmt(s: Stmt) {
    && s.words != []
    && (s.block.Block? ==> s.block.stmts != [] && WellFormed(s.block.stmts))
  }

  predicate WellFormed(ss: seq<Stmt>) {
    forall s :: s in ss ==> WellFormedStmt(s)
  }

  function Words(ws: seq<string>): (ts: seq<Terminal>)
    ensures |ts| == |ws| && forall i :: 0 <= i < |ws| ==> ts[i] == Word(ws[i])
  {
    seq(|ws|, i requires 0 <= i < |ws| => Word(ws[i]))
  }

  // What follows the words of a statement.
  function Tail(block: Child): seq<Terminal> {
    match block
    case NoBlock => [Semi]
    case Block(b) => [Open] + Yield(b) + [Close]
  }

  function YieldStmt(s: Stmt): seq<Terminal> {
    Words(s.words) + Tail(s.block)
  }

  function Yield(ss: seq<Stmt>): seq<Terminal> {
    if ss == [] then [] else YieldStmt(ss[0]) + Yield(ss[1..])
  }

  lemma {:induction false} YieldAppend(a: seq<Stmt>, b: seq<Stmt>)
    ensures Yield(a + b) == Yield(a) + Yield(b)
  {
    hide YieldStmt;
    if a == [] {
      assert a + b == b;
    } else {
      YieldAppend(a[1..], b);
      assert (a + b)[1..] == a[1..] + b;
    }
  }

  lemma YieldOne(s: Stmt)
    ensures Yield([s]) == YieldStmt(s)
  {
  }

  lemma WellFormedAppend(a: seq<Stmt>, s: Stmt)
    requires WellFormed(a) && WellFormedStmt(s)
    ensures WellFormed(a + [s])
  {
  }
}
