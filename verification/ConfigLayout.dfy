// Blank space and comments: exactly when they can be put in where ParseToken starts reading
// without changing what Parse accepts or builds, and what becomes of a last word without an end.
module ConfigLayout {
  import opened Basics
  import opened ConfigSyntax
  import opened ConfigLexer
  import opened ConfigMachine
  import opened ConfigPrinter

  // A call of ParseToken, made while reading `s`, begins with `rest` unread.
  predicate CallStarts(s: string, rest: string)
    decreases |s|
  {
    || rest == s
    || (!IsFinal(NextToken(s).kind) && CallStarts(NextToken(s).rest, rest))
  }

  datatype Piece = Blank(c: char) | Remark(text: string, newline: char)

  predicate IsPiece(p: Piece) {
    match p
    case Blank(c) => IsBlank(c)
    case Remark(text, newline) => IsCommentText(text) && (newline == '\n' || newline == '\r')
  }

  predicate IsFiller(ps: seq<Piece>) {
    forall p :: p in ps ==> IsPiece(p)
  }

  function PieceText(p: Piece): string {
    match p
    case Blank(c) => [c]
    case Remark(text, newline) => text + [newline]
  }

  function FillerText(ps: seq<Piece>): string {
    if ps == [] then "" else PieceText(ps[0]) + FillerText(ps[1..])
  }

  // The pieces are the four blanks, and comments with their line ends.
  lemma PiecesAre(c: char, v: string, e: char)
    ensures c in {' ', '\t', '\n', '\r'} ==> IsPiece(Blank(c)) && PieceText(Blank(c)) == [c]
    ensures '\n' !in v && '\r' !in v && e in {'\n', '\r'} ==>
              IsPiece(Remark("#" + v, e)) && PieceText(Remark("#" + v, e)) == "#" + v + [e]
  {
  }

  // Calls begin at the front of the text, and where a call that was not the last one stopped.
  lemma {:induction false} CallsFollow(s: string, rest: string)
    requires CallStarts(s, rest)
    ensures CallStarts(s, s)
    ensures !IsFinal(NextToken(rest).kind) ==> CallStarts(s, NextToken(rest).rest)
    decreases |s|
  {
    if !IsFinal(NextToken(rest).kind) {
      assert CallStarts(NextToken(rest).rest, NextToken(rest).rest);
      if rest != s {
        CallsFollow(NextToken(s).rest, rest);
      }
    }
  }

  lemma {:induction false} FillerIsNothing(ps: seq<Piece>, s: string)
    requires IsFiller(ps)
    ensures Terminals(FillerText(ps) + s) == Terminals(s)
  {
    hide NextToken;
    if ps == [] {
      assert "" + s == s;
    } else {
      var more := FillerText(ps[1..]) + s;
      FillerIsNothing(ps[1..], s);
      assert IsPiece(ps[0]);
      assert FillerText(ps) + s == PieceText(ps[0]) + more;
      match ps[0]
      case Blank(c) => LexBlank(c, more);
      case Remark(text, newline) =>
        var t := text + [newline] + more;
        assert SkipBlanks(t) == t;
        NextTokenIsTheToken(t, Lexed(COMMENT, text, more));
    }
  }

  function Blanks(s: string): (b: string)
    ensures s == b + SkipBlanks(s)
    ensures forall c :: c in b ==> IsBlank(c)
  {
    if s != "" && IsBlank(s[0]) then [s[0]] + Blanks(s[1..]) else ""
  }

  lemma {:induction false} SkipsBlanks(b: string, t: string)
    requires forall c :: c in b ==> IsBlank(c)
    requires t != "" ==> !IsBlank(t[0])
    ensures SkipBlanks(b + t) == t
  {
    if b == "" {
      assert b + t == t;
    } else {
      SkipsBlanks(b[1..], t);
      assert (b + t)[1..] == b[1..] + t;
    }
  }

  // The token is a bare word, which has to be ended by what comes after it.
  predicate IsBare(l: Lexed) { l.kind == NORMAL && IsBareWord(l.value) }

  predicate CanEndBare(r: string) { r != "" && EndsBare(r[0]) }

  // A token depends on nothing beyond itself, except that a bare word must still be ended.
  lemma TokenAtIsLocal(l: Lexed, t: string, r: string)
    requires TokenAt(l, t) && !IsFinal(l.kind) && (IsBare(l) ==> CanEndBare(r))
    ensures |l.rest| < |t| && t[|t| - |l.rest|..] == l.rest
    ensures IsBare(l) ==> CanEndBare(l.rest)
    ensures TokenAt(l.(rest := r), t[..|t| - |l.rest|] + r)
  {
    BareIsNotQuoted(l.value);
  }

  lemma BareIsNotQuoted(w: string)
    ensures !(IsBareWord(w) && IsQuotedWord(w))
  {
  }

  lemma TokenIsLocal(s: string, r: string)
    requires var l := NextToken(s); !IsFinal(l.kind) && (IsBare(l) ==> CanEndBare(r))
    ensures var l := NextToken(s);
            && |l.rest| <= |s| && s[|s| - |l.rest|..] == l.rest
            && (IsBare(l) ==> CanEndBare(l.rest))
            && NextToken(s[..|s| - |l.rest|] + r) == l.(rest := r)
  {
    hide NextToken, TokenAt, IsBlank, IsFinal, SkipBlanks, IsBare, CanEndBare;
    var l := NextToken(s);
    var b, t := Blanks(s), SkipBlanks(s);
    NextTokenIsTheToken(s, l);
    TokenAtIsLocal(l, t, r);
    var n := |t| - |l.rest|;
    CutInside(b, t, n, r);
    SkipsBlanks(b, t[..n] + r);
    NextTokenIsTheToken(b + (t[..n] + r), l.(rest := r));
  }

  lemma CutInside(b: string, t: string, n: nat, r: string)
    requires n <= |t|
    ensures (b + t)[..|b| + n] + r == b + (t[..n] + r)
    ensures (b + t)[|b| + n..] == t[n..]
  {
  }

  // The input as it stands can always be put back after a token.
  lemma TokenIsSuffix(s: string)
    requires !IsFinal(NextToken(s).kind)
    ensures var l := NextToken(s);
            && |l.rest| < |s| && s[|s| - |l.rest|..] == l.rest
            && (IsBare(l) ==> CanEndBare(l.rest))
  {
    hide NextToken, TokenAt, IsBare, CanEndBare;
    var l := NextToken(s);
    NextTokenIsTheToken(s, l);
    BareEndsHere(l, SkipBlanks(s));
    TokenIsLocal(s, l.rest);
  }

  lemma BareEndsHere(l: Lexed, t: string)
    requires TokenAt(l, t)
    ensures IsBare(l) ==> CanEndBare(l.rest)
  {
    BareIsNotQuoted(l.value);
  }

  lemma {:induction false} CallStartsAtSuffix(s: string, rest: string)
    requires CallStarts(s, rest)
    ensures |rest| <= |s| && s[|s| - |rest|..] == rest
    decreases |s|
  {
    hide NextToken, IsBare, CanEndBare;
    if rest != s {
      TokenIsSuffix(s);
      CallStartsAtSuffix(NextToken(s).rest, rest);
    }
  }

  // `s` with `w` put in where `rest` begins.
  function Insert(s: string, rest: string, w: string): string
    requires |rest| <= |s|
  {
    s[..|s| - |rest|] + w + rest
  }

  // Putting text in before `rest` leaves everything before the token boundary `mid` alone.
  lemma InsertBeyond(s: string, mid: string, rest: string, w: string)
    requires |rest| <= |mid| <= |s| && s[|s| - |mid|..] == mid
    ensures Insert(s, rest, w) == s[..|s| - |mid|] + Insert(mid, rest, w)
  {
  }

  // The call that begins with `rest` unread follows a bare word.
  predicate AfterBare(s: string, rest: string)
    decreases |s|
  {
    var l := NextToken(s);
    && rest != s && !IsFinal(l.kind)
    && if l.rest == rest then IsBare(l) else AfterBare(l.rest, rest)
  }

  lemma CancelLeft(ts: seq<Terminal>, a: Stream, b: Stream)
    ensures Stream(ts + a.terms, a.clean) == Stream(ts + b.terms, b.clean) <==> a == b
  {
    if ts + a.terms == ts + b.terms {
      assert a.terms == (ts + a.terms)[|ts|..] && b.terms == (ts + b.terms)[|ts|..];
    }
  }

  lemma TerminalsTurn(s: string)
    requires !IsFinal(NextToken(s).kind)
    ensures var l := NextToken(s);
            Terminals(s) == Stream(TerminalsOf(l) + Terminals(l.rest).terms, Terminals(l.rest).clean)
  {
    hide NextToken;
  }

  // A step back over one token: filling in further on tells exactly as much.
  lemma OneTokenBack(s: string, rest: string, w: string)
    requires CallStarts(s, rest) && rest != s
    requires var l := NextToken(s); |rest| <= |l.rest| && (IsBare(l) ==> CanEndBare(Insert(l.rest, rest, w)))
    ensures var l := NextToken(s);
            |rest| <= |s| && (Terminals(Insert(s, rest, w)) == Terminals(s) <==>
                              Terminals(Insert(l.rest, rest, w)) == Terminals(l.rest))
  {
    hide NextToken, IsBare, CanEndBare, Terminals;
    var l := NextToken(s);
    var r := Insert(l.rest, rest, w);
    TokenIsSuffix(s);
    TokenIsLocal(s, r);
    InsertBeyond(s, l.rest, rest, w);
    TerminalsTurn(s);
    TerminalsTurn(Insert(s, rest, w));
    CancelLeft(TerminalsOf(l), Terminals(r), Terminals(l.rest));
  }

  // How far a bare word runs on into `u`.
  function RunsOn(u: string): (n: nat)
    ensures n <= |u|
    ensures forall i :: 0 <= i < n ==> !EndsBare(u[i])
    ensures n < |u| ==> EndsBare(u[n])
  {
    if u == "" || EndsBare(u[0]) then 0 else 1 + RunsOn(u[1..])
  }

  // A bare word that is not ended takes in what was put after it...
  lemma BareRunsOn(s: string, w: string) returns (longer: string, r: string)
    requires var l := NextToken(s); IsBare(l) && w != "" && !EndsBare(w[0])
    ensures var l := NextToken(s);
            |l.rest| <= |s| && NextToken(Insert(s, l.rest, w)) == Lexed(NORMAL, longer, r) && |longer| > |l.value|
  {
    hide NextToken, IsBlank, SkipBlanks, EndsBare, TokenAt, IsBareWord;
    var l := NextToken(s);
    var b, t := Blanks(s), SkipBlanks(s);
    NextTokenIsTheToken(s, l);
    TokenIsSuffix(s);
    BareFront(l, t);
    var u := w + l.rest;
    var n := RunsOn(u);
    assert u[0] == w[0] && u[|w|] == l.rest[0];
    longer, r := l.value + u[..n], u[n..];
    LongerWord(l, u, n);
    InsertAfter(b, l.value, l.rest, w);
    SkipsBlanks(b, l.value + u);
    NextTokenIsTheToken(b + (l.value + u), Lexed(NORMAL, longer, r));
  }

  lemma InsertAfter(b: string, v: string, rest: string, w: string)
    ensures Insert(b + (v + rest), rest, w) == b + (v + (w + rest))
  {
  }

  // ...so that the text now begins with another token.
  lemma BareChanges(s: string, w: string)
    requires var l := NextToken(s); IsBare(l) && w != "" && !EndsBare(w[0])
    ensures |NextToken(s).rest| <= |s| && Terminals(Insert(s, NextToken(s).rest, w)) != Terminals(s)
  {
    hide NextToken, Terminals, EndsBare, Insert, IsBareWord;
    var l := NextToken(s);
    var longer, r := BareRunsOn(s, w);
    TerminalsTurn(s);
    TerminalsTurn(Insert(s, l.rest, w));
    assert Terminals(s).terms[0] == Word(l.value);
    assert Terminals(Insert(s, l.rest, w)).terms[0] == Word(longer);
  }

  lemma BareFront(l: Lexed, t: string)
    requires TokenAt(l, t) && IsBare(l)
    ensures t == l.value + l.rest && l.value != "" && !IsBlank(l.value[0])
  {
  }

  lemma LongerWord(l: Lexed, u: string, n: nat)
    requires IsBare(l) && n < |u| && EndsBare(u[n]) && forall i :: 0 <= i < n ==> !EndsBare(u[i])
    ensures TokenAt(Lexed(NORMAL, l.value + u[..n], u[n..]), l.value + u)
  {
    hide EndsBare;
    assert l.value + u == l.value + u[..n] + u[n..];
  }

  lemma FillerIsText(ps: seq<Piece>)
    requires IsFiller(ps) && ps != []
    ensures FillerText(ps) != ""
  {
    assert IsPiece(ps[0]);
  }

  // Blanks and comments put in at a read position leave the tokens as they were exactly when
  // no bare word precedes or the filling starts with a character that ends one.
  lemma {:induction false} FillerIsNothingIff(s: string, rest: string, ps: seq<Piece>)
    requires CallStarts(s, rest) && IsFiller(ps) && ps != []
    ensures |rest| <= |s| && FillerText(ps) != ""
    ensures Terminals(Insert(s, rest, FillerText(ps))) == Terminals(s) <==>
              !AfterBare(s, rest) || EndsBare(FillerText(ps)[0])
    decreases |s|
  {
    hide NextToken, IsPiece, EndsBare, FillerText, IsBare, CanEndBare, Terminals, AfterBare;
    var w := FillerText(ps);
    FillerIsText(ps);
    CallStartsAtSuffix(s, rest);
    if rest == s {
      assert Insert(s, rest, w) == w + s;
      FillerIsNothing(ps, s);
      AtStart(s);
    } else {
      var l := NextToken(s);
      AfterBareTurn(s, rest);
      if l.rest == rest && AfterBare(s, rest) && !EndsBare(w[0]) {
        BareChanges(s, w);
      } else {
        FillerIsNothingIff(l.rest, rest, ps);
        FillerFollows(s, rest, w);
        OneTokenBack(s, rest, w);
      }
    }
  }

  lemma AtStart(s: string)
    ensures !AfterBare(s, s)
  {
  }

  lemma AfterBareTurn(s: string, rest: string)
    requires CallStarts(s, rest) && rest != s
    ensures var l := NextToken(s);
            && CallStarts(l.rest, rest)
            && (AfterBare(s, rest) <==> if l.rest == rest then IsBare(l) else AfterBare(l.rest, rest))
            && !AfterBare(rest, rest)
  {
    hide NextToken, IsBare;
  }

  lemma FillerFollows(s: string, rest: string, w: string)
    requires CallStarts(s, rest) && rest != s && w != ""
    requires NextToken(s).rest != rest || !AfterBare(s, rest) || EndsBare(w[0])
    ensures var l := NextToken(s);
            |rest| <= |l.rest| && (IsBare(l) ==> CanEndBare(Insert(l.rest, rest, w)))
  {
    hide NextToken, EndsBare, IsBare, AfterBare, CallStarts, IsFinal;
    var l := NextToken(s);
    AfterBareTurn(s, rest);
    CallIsNotFinal(s, rest);
    TokenIsSuffix(s);
    CallStartsAtSuffix(l.rest, rest);
    assert l.rest[0..] == l.rest;
    if l.rest == rest {
      assert Insert(l.rest, rest, w) == w + rest;
    } else {
      assert Insert(l.rest, rest, w)[0] == l.rest[0];
    }
  }

  lemma CallIsNotFinal(s: string, rest: string)
    requires CallStarts(s, rest) && rest != s
    ensures !IsFinal(NextToken(s).kind)
  {
    hide NextToken;
  }

  // The layout theorem. In an accepted text, filling in at a read position changes neither the
  // verdict nor the tree exactly under that condition; in a rejected text it can only be
  // relied on under it.
  lemma LayoutIsMeaninglessIff(s: string, rest: string, ps: seq<Piece>)
    requires CallStarts(s, rest) && IsFiller(ps) && ps != []
    ensures |rest| <= |s| && FillerText(ps) != ""
    ensures !AfterBare(s, rest) || EndsBare(FillerText(ps)[0]) ==>
              ParseText(Insert(s, rest, FillerText(ps))) == ParseText(s)
    ensures ParseText(s).Some? ==>
              (ParseText(Insert(s, rest, FillerText(ps))) == ParseText(s) <==>
               !AfterBare(s, rest) || EndsBare(FillerText(ps)[0]))
  {
    hide Terminals, CallStarts, AfterBare, IsFiller, FillerText, EndsBare, Run;
    FillerIsNothingIff(s, rest, ps);
    if ParseText(s).Some? {
      ParseIsTheGrammar(s, ParseText(s).value);
      ParseIsTheGrammar(Insert(s, rest, FillerText(ps)), ParseText(s).value);
    }
  }

  lemma OneStatementText(w: string)
    requires IsWord(w)
    ensures ParseText(w + ";") == Some([Stmt([w], NoBlock)])
    ensures CallStarts(w + ";", ";")
  {
    hide NextToken;
    LexWord(w, ";");
    LexPunct(';', Semi, "");
    LexEnd();
    assert [';'] + "" == ";";
    var tree := [Stmt([w], NoBlock)];
    YieldOne(tree[0]);
    assert Words([w]) == [Word(w)];
    ParseIsTheGrammar(w + ";", tree);
    assert SkipBlanks(w + ";") == w + ";";
    NextTokenIsTheToken(w + ";", Lexed(NORMAL, w, ";"));
  }

  // What goes wrong after a bare word, seen on any one of them: a carriage return becomes part
  // of the word.
  lemma CarriageReturnIsNotLayout(w: string)
    requires IsBareWord(w)
    ensures CallStarts(w + ";", ";") && IsFiller([Blank('\r')])
    ensures ParseText(w + ";") == Some([Stmt([w], NoBlock)])
    ensures ParseText(Insert(w + ";", ";", FillerText([Blank('\r')]))) == Some([Stmt([w + "\r"], NoBlock)])
  {
    hide ParseText, CallStarts, StartsBare;
    OneStatementText(w);
    OneStatementText(w + "\r");
    assert FillerText([Blank('\r')]) == "\r" by { assert [Blank('\r')][1..] == []; }
    assert Insert(w + ";", ";", "\r") == w + "\r" + ";";
  }

  // ---------------------------------------------------------------------------
  // The end of the file

  // The token on which the whole reading of `s` ends.
  function FinalToken(s: string): Lexed
    decreases |s|
  {
    var l := NextToken(s);
    if IsFinal(l.kind) then l else FinalToken(l.rest)
  }

  // A newline at the end of the file brings out the word that the end of the file swallowed,
  // and nothing else.
  lemma {:induction false} NewlineAtEnd(s: string)
    requires Terminals(s).clean
    ensures var w := FinalToken(s).value;
            Terminals(s + "\n") == Stream(Terminals(s).terms + (if IsBareWord(w) then [Word(w)] else []), true)
    decreases |s|
  {
    hide NextToken, IsBareWord, IsBare, CanEndBare;
    var l := NextToken(s);
    if IsFinal(l.kind) {
      EndAndNewline(s);
    } else {
      TokenIsSuffix(s);
      NewlineAtEnd(l.rest);
      EndsEither(l.rest);
      TokenIsLocal(s, l.rest + "\n");
      assert s + "\n" == s[..|s| - |l.rest|] + (l.rest + "\n");
      var w := FinalToken(s).value;
      var more := if IsBareWord(w) then [Word(w)] else [];
      assert TerminalsOf(l) + (Terminals(l.rest).terms + more) == TerminalsOf(l) + Terminals(l.rest).terms + more;
    }
  }

  lemma EndsEither(r: string)
    ensures CanEndBare(r) ==> CanEndBare(r + "\n")
  {
  }

  lemma EndAndNewline(s: string)
    requires NextToken(s).kind == EOF
    ensures var w := NextToken(s).value;
            Terminals(s + "\n") == Stream(if IsBareWord(w) then [Word(w)] else [], true)
  {
    hide NextToken;
    var l := NextToken(s);
    var b, t := Blanks(s), SkipBlanks(s);
    NextTokenIsTheToken(s, l);
    assert s + "\n" == b + (t + "\n");
    LexBlank('\n', "");
    LexEnd();
    if t == "" {
      AllBlanks(b + "\n");
      assert s + "\n" == b + "\n";
    } else if IsBareWord(t) {
      assert ['\n'] + "" == "\n";
      SkipsBlanks(b, t + "\n");
      NextTokenIsTheToken(b + (t + "\n"), Lexed(NORMAL, t, "\n"));
    } else {
      SkipsBlanks(b, t + "\n");
      NextTokenIsTheToken(b + (t + "\n"), Lexed(COMMENT, t, ""));
    }
  }

  lemma {:induction false} AllBlanks(b: string)
    requires forall c :: c in b ==> IsBlank(c)
    ensures Terminals(b) == Stream([], true)
  {
    hide IsBlank, NextToken;
    LexEnd();
    if b != "" {
      AllBlanks(b[1..]);
      LexBlank(b[0], b[1..]);
      assert b == [b[0]] + b[1..];
    }
  }

  // An accepted text loses its last word exactly when it ends in a bare word: then the same
  // text with a newline after it is rejected, because the word has no end. Otherwise the
  // newline makes no difference.
  lemma LastWordIsLostIff(s: string)
    requires ParseText(s).Some?
    ensures var w := FinalToken(s).value;
            && Terminals(s + "\n").terms == Terminals(s).terms + (if IsBareWord(w) then [Word(w)] else [])
            && (IsBareWord(w) <==> ParseText(s + "\n") != ParseText(s))
            && (IsBareWord(w) <==> ParseText(s + "\n").None?)
  {
    hide Terminals, FinalToken, IsBareWord, Run;
    var w, ts := FinalToken(s).value, Terminals(s).terms;
    NewlineAtEnd(s);
    if IsBareWord(w) {
      RunAppend(INITIAL, ts, [Word(w)]);
      RunOne(Run(INITIAL, ts).value, Word(w));
    } else {
      assert ts + [] == ts;
    }
  }

  // Any accepted tree can be followed by a word that goes unnoticed: "a; b" reads as "a;".
  lemma TrailingWordIsDropped(tree: seq<Stmt>, depth: int, w: string)
    requires WellFormed(tree) && Spellable(Yield(tree)) && IsBareWord(w)
    ensures ParseText(Print(tree, depth) + w) == Some(tree)
  {
    hide Print, Yield, WellFormed, NextToken, Run;
    LexStmts(tree, depth, w);
    assert SkipBlanks(w) == w;
    NextTokenIsTheToken(w, Lexed(EOF, w, ""));
    assert Terminals(w) == Stream([], true);
    assert Yield(tree) + [] == Yield(tree);
    ParseIsTheGrammar(Print(tree, depth) + w, tree);
  }
}
