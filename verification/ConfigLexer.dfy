// NginxConfigParser::ParseToken: the character-level tokenizer.
module ConfigLexer {
  import opened ConfigSyntax

  datatype LexState = InitialWhitespace | SingleQuote | DoubleQuote | InComment | InNormal

  // One call of ParseToken: the token's kind and text, and the input left to read.
  datatype Lexed = Lexed(kind: TokenType, value: string, rest: string)

  predicate IsBlank(c: char) { c == ' ' || c == '\t' || c == '\n' || c == '\r' }

  // The characters that end a bare token. '\r' is not one of them.
  predicate EndsBare(c: char) {
    c == ' ' || c == '\t' || c == '\n' || c == ';' || c == '{' || c == '}'
  }

  predicate StartsBare(c: char) {
    !IsBlank(c) && c != '{' && c != '}' && c != '#' && c != '"' && c != '\'' && c != ';'
  }

  // The tokenizer as a function of its state, the text gathered so far and the unread input.
  function Scan(state: LexState, value: string, s: string): (l: Lexed)
    ensures |l.rest| <= |s| && l.kind != START
    ensures state == InitialWhitespace && l.kind != EOF && l.kind != ERROR ==> |l.rest| < |s|
    decreases |s|, if state == InNormal then 0 else 1
  {
    if s == "" then
      Lexed(if state == SingleQuote || state == DoubleQuote then ERROR else EOF, value, "")
    else
      var c, t := s[0], s[1..];
      match state
      case InitialWhitespace =>
        if c == '{' then Lexed(START_BLOCK, [c], t)
        else if c == '}' then Lexed(END_BLOCK, [c], t)
        else if c == '#' then Scan(InComment, [c], t)
        else if c == '"' then Scan(DoubleQuote, [c], t)
        else if c == '\'' then Scan(SingleQuote, [c], t)
        else if c == ';' then Lexed(STATEMENT_END, [c], t)
        else if IsBlank(c) then Scan(InitialWhitespace, value, t)
        else Scan(InNormal, value + [c], t)
      case SingleQuote =>
        if c == '\'' then Lexed(NORMAL, value + [c], t) else Scan(SingleQuote, value + [c], t)
      case DoubleQuote =>
        if c == '"' then Lexed(NORMAL, value + [c], t) else Scan(DoubleQuote, value + [c], t)
      case InComment =>
        if c == '\n' || c == '\r' then Lexed(COMMENT, value, t) else Scan(InComment, value + [c], t)
      case InNormal =>
        if EndsBare(c) then Lexed(NORMAL, value, s) else Scan(InNormal, value + [c], t)
  }

  function NextToken(s: string): (l: Lexed)
    ensures |l.rest| <= |s| && l.kind != START
    ensures l.kind != EOF && l.kind != ERROR ==> |l.rest| < |s|
  {
    Scan(InitialWhitespace, "", s)
  }

  // ---------------------------------------------------------------------------
  // What a token is, without the state machine

  function SkipBlanks(s: string): (t: string)
    ensures t != "" ==> !IsBlank(t[0])
  {
    if s != "" && IsBlank(s[0]) then SkipBlanks(s[1..]) else s
  }

  predicate IsBareWord(w: string) {
    w != "" && StartsBare(w[0]) && forall i :: 1 <= i < |w| ==> !EndsBare(w[i])
  }

  // A quoted word keeps its quotes and has none of the same kind inside.
  predicate IsQuotedWord(w: string) {
    && |w| >= 2
    && (w[0] == '"' || w[0] == '\'')
    && w[|w| - 1] == w[0]
    && w[0] !in w[1..|w| - 1]
  }

  predicate IsWord(w: string) { IsBareWord(w) || IsQuotedWord(w) }

  predicate IsOpenQuote(w: string) {
    w != "" && (w[0] == '"' || w[0] == '\'') && w[0] !in w[1..]
  }

  predicate IsCommentText(w: string) {
    w != "" && w[0] == '#' && '\n' !in w && '\r' !in w
  }

  // `l` is the token at the front of `t`, which does not start with a blank.
  predicate TokenAt(l: Lexed, t: string) {
    match l.kind
    case START_BLOCK => l.value == "{" && t == "{" + l.rest
    case END_BLOCK => l.value == "}" && t == "}" + l.rest
    case STATEMENT_END => l.value == ";" && t == ";" + l.rest
    case NORMAL =>
      && t == l.value + l.rest
      && (IsQuotedWord(l.value) || (IsBareWord(l.value) && l.rest != "" && EndsBare(l.rest[0])))
    case COMMENT =>
      && IsCommentText(l.value)
      && (t == l.value + "\n" + l.rest || t == l.value + "\r" + l.rest)
    case EOF =>
      && l.rest == ""
      && l.value == t
      && (t == "" || IsBareWord(t) || IsCommentText(t))
    case ERROR => l.rest == "" && l.value == t && IsOpenQuote(t)
    case START => false
  }

  lemma {:induction false} ScanQuoted(state: LexState, q: char, v: string, s: string)
    requires (state == SingleQuote && q == '\'') || (state == DoubleQuote && q == '"')
    requires v != "" && v[0] == q && q !in v[1..]
    ensures TokenAt(Scan(state, v, s), v + s)
    decreases |s|
  {
    if s == "" {
      assert v + s == v;
    } else {
      assert v + [s[0]] + s[1..] == v + s;
      if s[0] == q {
        assert (v + [q])[1..|v|] == v[1..];
      } else {
        ScanQuoted(state, q, v + [s[0]], s[1..]);
      }
    }
  }

  lemma {:induction false} ScanComment(v: string, s: string)
    requires IsCommentText(v)
    ensures TokenAt(Scan(InComment, v, s), v + s)
    decreases |s|
  {
    if s == "" {
      assert v + s == v;
    } else {
      assert v + [s[0]] + s[1..] == v + s;
      if s[0] != '\n' && s[0] != '\r' {
        ScanComment(v + [s[0]], s[1..]);
      }
    }
  }

  lemma {:induction false} ScanBare(v: string, s: string)
    requires IsBareWord(v)
    ensures TokenAt(Scan(InNormal, v, s), v + s)
    decreases |s|
  {
    if s == "" {
      assert v + s == v;
    } else if !EndsBare(s[0]) {
      assert v + [s[0]] + s[1..] == v + s;
      ScanBare(v + [s[0]], s[1..]);
    }
  }

  lemma {:induction false} ScanMeetsTokenAt(s: string)
    ensures TokenAt(NextToken(s), SkipBlanks(s))
    decreases |s|
  {
    if s == "" {
    } else {
      var c, t := s[0], s[1..];
      assert s == [c] + t;
      if c == '#' { ScanComment([c], t); }
      else if c == '"' { ScanQuoted(DoubleQuote, c, [c], t); }
      else if c == '\'' { ScanQuoted(SingleQuote, c, [c], t); }
      else if IsBlank(c) { ScanMeetsTokenAt(t); }
      else if StartsBare(c) {
        assert "" + [c] == [c];
        ScanBare([c], t);
      }
    }
  }

  lemma TokenAtPrefix(l: Lexed, t: string)
    requires TokenAt(l, t)
    ensures |l.value| <= |t| && l.value == t[..|l.value|]
    ensures forall i :: 0 <= i < |l.value| ==> t[i] == l.value[i]
  {
  }

  // The closing quote of a quoted word lies inside any longer text that starts with the word.
  lemma QuoteInside(v: string, w: string)
    requires IsQuotedWord(v) && |v| <= |w| && v == w[..|v|]
    ensures w[0] in w[1..]
    ensures |v| < |w| ==> w[0] in w[1..|w| - 1]
  {
  }

  // The characters that end an unquoted token beginning with `first`.
  predicate IsStop(first: char, c: char) {
    if first == '#' then c == '\n' || c == '\r'
    else StartsBare(first) ==> EndsBare(c)
  }

  lemma TokenStops(l: Lexed, t: string)
    requires TokenAt(l, t)
    ensures |l.value| < |t| && !IsQuotedWord(l.value) ==> IsStop(t[0], t[|l.value|])
  {
  }

  lemma TokenGoesOn(l: Lexed, t: string, n: nat)
    requires TokenAt(l, t)
    ensures 0 < n < |l.value| && !IsQuotedWord(l.value) && !IsOpenQuote(l.value) ==> !IsStop(t[0], t[n])
  {
  }

  // The place where token `a` stops is not a place where `b` could go on.
  lemma TokenAtNoShorter(a: Lexed, b: Lexed, t: string)
    requires TokenAt(a, t) && TokenAt(b, t)
    ensures |a.value| >= |b.value|
  {
    TokenAtPrefix(a, t);
    TokenAtPrefix(b, t);
    if IsQuotedWord(a.value) && |a.value| <= |b.value| {
      QuoteInside(a.value, b.value);
    }
    TokenStops(a, t);
    TokenGoesOn(b, t, |a.value|);
  }

  // Two different readings of the same text are impossible.
  lemma TokenAtUnique(a: Lexed, b: Lexed, t: string)
    requires TokenAt(a, t) && TokenAt(b, t)
    ensures a == b
  {
    TokenAtPrefix(a, t);
    TokenAtPrefix(b, t);
    TokenAtNoShorter(a, b, t);
    TokenAtNoShorter(b, a, t);
    var w := a.value;
    assert w == b.value;
    if IsQuotedWord(w) {
      QuoteInside(w, w);
    }
    assert a.kind == b.kind;
    if a.kind == COMMENT {
      assert a.rest == t[|w| + 1..] && b.rest == t[|w| + 1..];
    } else {
      assert a.rest == t[|w|..] && b.rest == t[|w|..];
    }
  }

  // ParseToken's result is the one and only token at the front of the input.
  lemma NextTokenIsTheToken(s: string, l: Lexed)
    ensures TokenAt(l, SkipBlanks(s)) <==> l == NextToken(s)
  {
    hide NextToken;
    ScanMeetsTokenAt(s);
    if TokenAt(l, SkipBlanks(s)) {
      TokenAtUnique(l, NextToken(s), SkipBlanks(s));
    }
  }

  // ---------------------------------------------------------------------------
  // The tokens, character by character

  // A word in no need of quotes.
  predicate IsPlainWord(w: string) {
    w != "" && forall i :: 0 <= i < |w| ==> w[i] !in {' ', '\t', '\n', '\r', ';', '{', '}', '"', '\'', '#'}
  }

  // A space, a tab, a newline or punctuation ends a bare word and is left to read; any other
  // character, a carriage return or a '#' included, joins the word.
  lemma WordEndsOrGoesOn(w: string, c: char, s: string)
    requires IsPlainWord(w)
    ensures if c in {' ', '\t', '\n', ';', '{', '}'} then NextToken(w + [c] + s) == Lexed(NORMAL, w, [c] + s)
            else w + [c] <= NextToken(w + [c] + s).value
  {
    hide NextToken;
    var t := w + [c] + s;
    assert SkipBlanks(t) == t;
    var l := NextToken(t);
    NextTokenIsTheToken(t, l);
    if c in {' ', '\t', '\n', ';', '{', '}'} {
      assert t == w + ([c] + s);
      NextTokenIsTheToken(t, Lexed(NORMAL, w, [c] + s));
    } else {
      TokenAtPrefix(l, t);
      TokenStops(l, t);
      assert t[..|w| + 1] == w + [c];
    }
  }

  // A plain word at the very end of the file is no token; its text is handed back with the end.
  lemma WordAtTheEnd(w: string)
    requires IsPlainWord(w)
    ensures NextToken(w) == Lexed(EOF, w, "")
  {
    hide NextToken;
    assert SkipBlanks(w) == w;
    NextTokenIsTheToken(w, Lexed(EOF, w, ""));
  }

  // Blanks are skipped, and braces and semicolons are tokens by themselves.
  lemma BlanksAndPunctuation(c: char, s: string)
    ensures c in {' ', '\t', '\n', '\r'} ==> NextToken([c] + s) == NextToken(s)
    ensures NextToken("{" + s) == Lexed(START_BLOCK, "{", s)
    ensures NextToken("}" + s) == Lexed(END_BLOCK, "}", s)
    ensures NextToken(";" + s) == Lexed(STATEMENT_END, ";", s)
    ensures NextToken("") == Lexed(EOF, "", "")
  {
  }

  // Either quote runs to the next one of its kind, whatever lies between; an unclosed one is
  // an error.
  lemma QuotesAreKept(q: char, v: string, s: string)
    requires q in {'"', '\''} && q !in v
    ensures NextToken([q] + v + [q] + s) == Lexed(NORMAL, [q] + v + [q], s)
    ensures NextToken([q] + v) == Lexed(ERROR, [q] + v, "")
  {
    hide NextToken;
    var w, t := [q] + v + [q], [q] + v + [q] + s;
    assert w[1..|w| - 1] == v;
    assert SkipBlanks(t) == t && t == w + s;
    NextTokenIsTheToken(t, Lexed(NORMAL, w, s));
    var u := [q] + v;
    assert u[1..] == v;
    assert SkipBlanks(u) == u;
    NextTokenIsTheToken(u, Lexed(ERROR, u, ""));
  }

  // A comment runs to the end of its line, which it takes with it, or to the end of the file.
  lemma CommentsRunToTheLineEnd(v: string, e: char, s: string)
    requires '\n' !in v && '\r' !in v && e in {'\n', '\r'}
    ensures NextToken("#" + v + [e] + s) == Lexed(COMMENT, "#" + v, s)
    ensures NextToken("#" + v) == Lexed(EOF, "#" + v, "")
  {
    hide NextToken;
    var w, t := "#" + v, "#" + v + [e] + s;
    assert SkipBlanks(t) == t && SkipBlanks(w) == w;
    assert t == w + "\n" + s || t == w + "\r" + s;
    NextTokenIsTheToken(t, Lexed(COMMENT, w, s));
    NextTokenIsTheToken(w, Lexed(EOF, w, ""));
  }

  // ---------------------------------------------------------------------------
  // The whole comment-free token stream of a text

  // `clean` is false when the stream ends in an unclosed quote.
  datatype Stream = Stream(terms: seq<Terminal>, clean: bool)

  predicate IsFinal(kind: TokenType) { kind == EOF || kind == ERROR }

  // The terminal a token stands for; a comment stands for none.
  function TerminalsOf(l: Lexed): seq<Terminal> {
    match l.kind
    case NORMAL => [Word(l.value)]
    case START_BLOCK => [Open]
    case END_BLOCK => [Close]
    case STATEMENT_END => [Semi]
    case _ => []
  }

  function Terminals(s: string): Stream
    decreases |s|
  {
    var l := NextToken(s);
    if IsFinal(l.kind) then Stream([], l.kind == EOF)
    else
      var more := Terminals(l.rest);
      Stream(TerminalsOf(l) + more.terms, more.clean)
  }

  // The tokenizer only ever hands out words: bare, or quoted with the quotes kept.
  lemma {:induction false} TerminalsAreWords(s: string, t: Terminal)
    requires t in Terminals(s).terms
    ensures t.Word? ==> IsWord(t.text)
    decreases |s|
  {
    var l := NextToken(s);
    NextTokenIsTheToken(s, l);
    if t !in TerminalsOf(l) {
      TerminalsAreWords(l.rest, t);
    }
  }
}
