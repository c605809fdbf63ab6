// parse_request_line and validate_http_version. The request text is a C string, so it holds
// no NUL character.
module HttpRequest {
  import opened Text
  import opened HttpHeaders

  datatype Request = Request(verb: string, path: string, version: string, headers: Headers, body: string, valid: bool)

  const INVALID := Request("", "", "HTTP/1.1", map[], "", false)

  // ---------------------------------------------------------------------------
  // HTTP-Version of section 3.1 of RFC 2616

  predicate IsVersionOf(v: string, major: string, minor: string) {
    && major != "" && AllDigits(major)
    && minor != "" && AllDigits(minor)
    && v == "HTTP/" + major + "." + minor
  }

  ghost predicate IsVersion(v: string) {
    exists major, minor :: IsVersionOf(v, major, minor)
  }

  function Dots(s: string): nat {
    if s == "" then 0 else Dots(s[..|s| - 1]) + if s[|s| - 1] == '.' then 1 else 0
  }

  predicate DigitsAndDots(s: string) {
    forall i :: 0 <= i < |s| ==> s[i] == '.' || IsDigit(s[i])
  }

  lemma {:induction false} NoDots(s: string)
    ensures Dots(s) == 0 <==> '.' !in s
  {
    if s != "" {
      NoDots(s[..|s| - 1]);
      assert s == s[..|s| - 1] + [s[|s| - 1]];
    }
  }

  lemma {:induction false} DotsAdd(a: string, b: string)
    ensures Dots(a + b) == Dots(a) + Dots(b)
  {
    if b == "" {
      assert a + b == a;
    } else {
      DotsAdd(a, b[..|b| - 1]);
      assert (a + b)[..|a + b| - 1] == a + b[..|b| - 1];
    }
  }

  // A number text with exactly one dot, neither at its start nor at its end.
  predicate IsNumberPair(u: string) {
    u != "" && IsDigit(u[0]) && u[|u| - 1] != '.' && DigitsAndDots(u) && Dots(u) == 1
  }

  lemma NumberPairSplits(u: string) returns (a: string, b: string)
    requires IsNumberPair(u)
    ensures u == a + "." + b && a != "" && b != "" && AllDigits(a) && AllDigits(b)
  {
    var k := Until('.', u);
    NoDots(u);
    UntilSplits('.', u);
    a, b := k.before, k.after;
    NoDots(a);
    DotsAdd(a + ".", b);
    DotsAdd(a, ".");
    assert Dots(".") == 1 by { assert "."[..0] == ""; }
    NoDots(b);
    assert forall i :: 0 <= i < |a| ==> a[i] == u[i];
    assert forall i :: 0 <= i < |b| ==> b[i] == u[|a| + 1 + i];
  }

  lemma NumberPairJoins(a: string, b: string)
    requires a != "" && b != "" && AllDigits(a) && AllDigits(b)
    ensures IsNumberPair(a + "." + b)
  {
    DotsAdd(a + ".", b);
    DotsAdd(a, ".");
    assert Dots(".") == 1 by { assert "."[..0] == ""; }
    NoDots(a);
    NoDots(b);
  }

  lemma VersionIsNumberPair(v: string)
    ensures IsVersion(v) <==> |v| >= 5 && v[..5] == "HTTP/" && IsNumberPair(v[5..])
  {
    if major, minor :| IsVersionOf(v, major, minor) {
      NumberPairJoins(major, minor);
      assert v[5..] == major + "." + minor;
    }
    if |v| >= 5 && v[..5] == "HTTP/" && IsNumberPair(v[5..]) {
      var a, b := NumberPairSplits(v[5..]);
      assert v == v[..5] + v[5..];
      assert IsVersionOf(v, a, b);
    }
  }

  lemma DotsSnoc(s: string, c: char)
    ensures Dots(s + [c]) == Dots(s) + if c == '.' then 1 else 0
  {
    assert (s + [c])[..|s|] == s;
  }

  // validate_http_version. Reading one past the end of a std::string yields NUL.
  method ValidateHttpVersion(v: string) returns (ok: bool)
    ensures ok <==> IsVersion(v)
  {
    hide Dots;
    VersionIsNumberPair(v);
    if |v| < 5 { return false; }
    var sixth := if |v| > 5 then v[5] else '\0';
    if !IsDigit(sixth) || v[|v| - 1] == '.' || v[..5] != "HTTP/" {
      return false;
    }
    var count := 0;
    assert v[5..5] == "";
    NoDots("");
    for i := 5 to |v|
      invariant count == Dots(v[5..i]) && DigitsAndDots(v[5..i])
    {
      assert v[5..i + 1] == v[5..i] + [v[i]];
      DotsSnoc(v[5..i], v[i]);
      if v[i] == '.' {
        count := count + 1;
      } else if !IsDigit(v[i]) {
        assert v[5..][i - 5] == v[i];
        return false;
      }
    }
    assert v[5..|v|] == v[5..];
    return count == 1;
  }

  lemma VersionIsPlain(v: string)
    requires IsVersion(v)
    ensures CrlfFree(v) && ' ' !in v && v != ""
  {
    var major, minor :| IsVersionOf(v, major, minor);
  }

  // ---------------------------------------------------------------------------
  // Request-Line of section 5.1 of RFC 2616

  predicate IsVerb(m: string) { m == "GET" || m == "POST" }

  // `s` is M SP P SP V CRLF followed by `rest`.
  ghost predicate IsRequest(s: string, m: string, p: string, v: string, rest: string) {
    && IsVerb(m)
    && p != "" && ' ' !in p
    && IsVersion(v)
    && s == m + " " + p + " " + v + CRLF + rest
  }

  ghost function ParseRequest(s: string): Request {
    var m := Until(' ', s);
    if m.found && !IsVerb(m.before) then INVALID
    else
      var p := Until(' ', m.after);
      if p.before == "" then INVALID
      else
        var v := UntilCrlf(p.after);
        if !v.found || !IsVersion(v.before) then INVALID
        else
          var (headers, body) := ReadHeaders(v.after, map[]);
          Request(m.before, p.before, v.before, headers, body, true)
  }

  // The method and path loops.
  method ReadWord(s: string) returns (word: string, rest: string, found: bool)
    ensures Until(' ', s) == Cut(word, rest, found)
  {
    word, rest := "", s;
    while |rest| > 0
      invariant Until(' ', s) == Until(' ', rest).(before := word + Until(' ', rest).before)
    {
      if rest[0] == ' ' {
        return word, rest[1..], true;
      }
      assert word + [rest[0]] + Until(' ', rest[1..]).before == word + ([rest[0]] + Until(' ', rest[1..]).before);
      word, rest := word + [rest[0]], rest[1..];
    }
    return word, rest, false;
  }

  // The version loop.
  method ReadVersion(s: string) returns (version: string, rest: string, found: bool)
    ensures UntilCrlf(s) == Cut(version, rest, found)
  {
    version, rest := "", s;
    while |rest| > 1
      invariant UntilCrlf(s) == UntilCrlf(rest).(before := version + UntilCrlf(rest).before)
    {
      if rest[0] == '\r' && rest[1] == '\n' {
        return version, rest[2..], true;
      }
      assert version + [rest[0]] + UntilCrlf(rest[1..]).before == version + ([rest[0]] + UntilCrlf(rest[1..]).before);
      version, rest := version + [rest[0]], rest[1..];
    }
    return version, rest, false;
  }

  method ParseRequestLine(s: string) returns (req: Request)
    ensures req == ParseRequest(s)
  {
    hide IsVersion, Until, UntilCrlf, ReadHeaders;
    var verb, rest, found := ReadWord(s);
    if found && verb != "GET" && verb != "POST" {
      return INVALID;
    }
    var path;
    path, rest, found := ReadWord(rest);
    if path == "" {
      return INVALID;
    }
    var version;
    version, rest, found := ReadVersion(rest);
    if !found {
      return INVALID;
    }
    var ok := ValidateHttpVersion(version);
    if !ok {
      return INVALID;
    }
    var headers, body := ReadHeaderBlock(rest);
    return Request(verb, path, version, headers, body, true);
  }

  // A request in the right form is read as what it is, so the form is unique.
  lemma RequestIsRead(s: string, m: string, p: string, v: string, rest: string)
    requires IsRequest(s, m, p, v, rest)
    ensures var (headers, body) := ReadHeaders(rest, map[]);
            ParseRequest(s) == Request(m, p, v, headers, body, true)
  {
    hide IsVersion, Until, UntilCrlf, ReadHeaders;
    var s3 := v + CRLF + rest;
    var s2 := p + [' '] + s3;
    assert s == m + [' '] + s2;
    UntilFinds(' ', m, s2);
    UntilFinds(' ', p, s3);
    VersionIsPlain(v);
    UntilCrlfFinds(v, rest);
  }

  lemma ValidRequestHasForm(s: string) returns (rest: string)
    requires ParseRequest(s).valid
    ensures var r := ParseRequest(s); IsRequest(s, r.verb, r.path, r.version, rest)
  {
    hide IsVersion, Until, UntilCrlf, ReadHeaders;
    var m := Until(' ', s);
    UntilSplits(' ', s);
    var p := Until(' ', m.after);
    UntilSplits(' ', m.after);
    UntilSplits(' ', "");
    var v := UntilCrlf(p.after);
    UntilCrlfSplits(p.after);
    UntilCrlfSplits("");
    rest := v.after;
    assert s == m.before + [' '] + (p.before + [' '] + (v.before + CRLF + rest));
  }

  predicate IsDecimal(s: string) { s != "" && forall i :: 0 <= i < |s| ==> '0' <= s[i] <= '9' }

  // A request line as it is typed.
  function Typed(verb: string, path: string, major: string, minor: string, rest: string): string {
    verb + " " + path + " HTTP/" + major + "." + minor + "\r\n" + rest
  }

  lemma TypedIsRequest(verb: string, path: string, major: string, minor: string, rest: string)
    requires verb in {"GET", "POST"} && path != "" && ' ' !in path && IsDecimal(major) && IsDecimal(minor)
    ensures IsRequest(Typed(verb, path, major, minor, rest), verb, path, "HTTP/" + major + "." + minor, rest)
  {
    var v := "HTTP/" + major + "." + minor;
    assert IsVersionOf(v, major, minor);
    assert Typed(verb, path, major, minor, rest) == verb + " " + path + " " + v + CRLF + rest;
  }

  // Either verb, any path without a space, any version of that form: the request is valid and
  // its fields are those.
  lemma TypedIsRead(verb: string, path: string, major: string, minor: string, rest: string)
    requires verb in {"GET", "POST"} && path != "" && ' ' !in path && IsDecimal(major) && IsDecimal(minor)
    ensures var r := ParseRequest(Typed(verb, path, major, minor, rest));
            && r.valid && r.verb == verb && r.path == path && r.version == "HTTP/" + major + "." + minor
            && (r.headers, r.body) == ReadHeaders(rest, map[])
  {
    hide ParseRequest, IsRequest, ReadHeaders;
    TypedIsRequest(verb, path, major, minor, rest);
    RequestIsRead(Typed(verb, path, major, minor, rest), verb, path, "HTTP/" + major + "." + minor, rest);
  }

  // parse_request_line reports a valid request exactly when the text starts with such a line,
  // and any other outcome is the one invalid request.
  lemma RequestIsValidIff(s: string)
    ensures ParseRequest(s).valid <==>
              exists verb, path, major, minor, rest ::
                && verb in {"GET", "POST"} && path != "" && ' ' !in path && IsDecimal(major) && IsDecimal(minor)
                && s == Typed(verb, path, major, minor, rest)
    ensures !ParseRequest(s).valid <==>
              ParseRequest(s) == Request("", "", "HTTP/1.1", map[], "", false)
  {
    hide Until, UntilCrlf, ReadHeaders;
    if ParseRequest(s).valid {
      var rest := ValidRequestHasForm(s);
      var r := ParseRequest(s);
      var major, minor :| IsVersionOf(r.version, major, minor);
      assert IsDecimal(major) && IsDecimal(minor);
      assert s == Typed(r.verb, r.path, major, minor, rest);
    }
    if verb, path, major, minor, rest :|
        && verb in {"GET", "POST"} && path != "" && ' ' !in path && IsDecimal(major) && IsDecimal(minor)
        && s == Typed(verb, path, major, minor, rest) {
      TypedIsRead(verb, path, major, minor, rest);
    }
  }

  // There is one way to split a request.
  lemma RequestFormIsUnique(s: string, m: string, p: string, v: string, rest: string,
                            m': string, p': string, v': string, rest': string)
    requires IsRequest(s, m, p, v, rest) && IsRequest(s, m', p', v', rest')
    ensures m == m' && p == p' && v == v' && rest == rest'
  {
    hide ParseRequest, ReadHeaders, IsVersion, IsVerb;
    RequestIsRead(s, m, p, v, rest);
    RequestIsRead(s, m', p', v', rest');
    var front := m + " " + p + " " + v + CRLF;
    assert s == front + rest && s == front + rest';
    assert rest == s[|front|..] && rest' == s[|front|..];
  }

  // Only an invalid request is counted under the empty path.
  lemma EmptyPathMeansInvalid(s: string)
    ensures ParseRequest(s).path == "" <==> !ParseRequest(s).valid
  {
  }
}
