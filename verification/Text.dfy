// Strings as the server's code handles them: cutting, trimming, decimal numbers.
module Text {

  const CRLF := "\r\n"

  // What a reading loop leaves: the text before the mark, the text after it, and whether
  // the mark was there at all.
  datatype Cut = Cut(before: string, after: string, found: bool)

  // Read up to the first `c` and step over it.
  function Until(c: char, s: string): Cut {
    if s == "" then Cut("", "", false)
    else if s[0] == c then Cut("", s[1..], true)
    else var k := Until(c, s[1..]); k.(before := [s[0]] + k.before)
  }

  lemma {:induction false} UntilFinds(c: char, b: string, a: string)
    requires c !in b
    ensures Until(c, b + [c] + a) == Cut(b, a, true)
  {
    if b == "" {
      assert b + [c] + a == [c] + a;
    } else {
      UntilFinds(c, b[1..], a);
      assert (b + [c] + a)[1..] == b[1..] + [c] + a;
    }
  }

  lemma {:induction false} UntilSplits(c: char, s: string)
    ensures var k := Until(c, s);
            && c !in k.before
            && (k.found <==> c in s)
            && if k.found then s == k.before + [c] + k.after else k == Cut(s, "", false)
  {
    if s != "" && s[0] != c {
      UntilSplits(c, s[1..]);
    }
  }

  // Read up to the first CRLF and step over it. Without one the loop stops short of the last
  // character.
  function UntilCrlf(s: string): (k: Cut)
    ensures |k.before| + |k.after| + (if k.found then 2 else 0) == |s|
  {
    if |s| <= 1 then Cut("", s, false)
    else if s[0] == '\r' && s[1] == '\n' then Cut("", s[2..], true)
    else var k := UntilCrlf(s[1..]); k.(before := [s[0]] + k.before)
  }

  predicate CrlfFree(s: string) {
    forall i :: 0 <= i < |s| - 1 ==> !(s[i] == '\r' && s[i + 1] == '\n')
  }

  lemma {:induction false} UntilCrlfFinds(b: string, a: string)
    requires CrlfFree(b)
    ensures UntilCrlf(b + CRLF + a) == Cut(b, a, true)
  {
    var s := b + CRLF + a;
    if b == "" {
      assert s == CRLF + a;
    } else {
      assert s[0] == b[0] && (|b| > 1 ==> s[1] == b[1]);
      assert forall i :: 0 <= i < |b[1..]| ==> b[1..][i] == b[i + 1];
      UntilCrlfFinds(b[1..], a);
      assert s[1..] == b[1..] + CRLF + a;
    }
  }

  lemma CrlfFreeCons(s: string)
    requires s != ""
    ensures CrlfFree(s) <==> CrlfFree(s[1..]) && !(|s| > 1 && s[0] == '\r' && s[1] == '\n')
  {
    var t := s[1..];
    if CrlfFree(t) && !(|s| > 1 && s[0] == '\r' && s[1] == '\n') {
      forall i | 0 <= i < |s| - 1 ensures !(s[i] == '\r' && s[i + 1] == '\n') {
        if i > 0 {
          assert s[i] == t[i - 1] && s[i + 1] == t[i];
        }
      }
    }
    if CrlfFree(s) {
      forall i | 0 <= i < |t| - 1 ensures !(t[i] == '\r' && t[i + 1] == '\n') {
        assert t[i] == s[i + 1] && t[i + 1] == s[i + 2];
      }
    }
  }

  lemma {:induction false} UntilCrlfJoins(s: string)
    ensures var k := UntilCrlf(s);
            && (k.found ==> s == k.before + CRLF + k.after)
            && (!k.found ==> s == k.before + k.after && |k.after| == if s == "" then 0 else 1)
  {
    if |s| > 1 && !(s[0] == '\r' && s[1] == '\n') {
      var k := UntilCrlf(s[1..]);
      UntilCrlfJoins(s[1..]);
      assert s == [s[0]] + s[1..];
      ConsJoin([s[0]], k.before, CRLF, k.after);
    }
  }

  lemma ConsJoin(a: string, b: string, c: string, d: string)
    ensures a + (b + c + d) == a + b + c + d && a + (b + d) == a + b + d
  {
  }

  lemma {:induction false} UntilCrlfSplits(s: string)
    ensures var k := UntilCrlf(s);
            && CrlfFree(k.before)
            && (!k.found <==> CrlfFree(s))
            && (k.found ==> s == k.before + CRLF + k.after)
            && (!k.found ==> s == k.before + k.after && |k.after| == if s == "" then 0 else 1)
  {
    hide CrlfFree;
    UntilCrlfJoins(s);
    if |s| <= 1 {
      ShortIsCrlfFree(s);
      ShortIsCrlfFree("");
    } else {
      CrlfFreeCons(s);
      if s[0] == '\r' && s[1] == '\n' {
        ShortIsCrlfFree("");
      } else {
        var k := UntilCrlf(s[1..]);
        UntilCrlfSplits(s[1..]);
        var b := [s[0]] + k.before;
        assert b[1..] == k.before;
        assert |b| > 1 ==> b[1] == s[1];
        CrlfFreeCons(b);
      }
    }
  }

  lemma ShortIsCrlfFree(s: string)
    requires |s| <= 1
    ensures CrlfFree(s)
  {
  }

  // ---------------------------------------------------------------------------
  // std::string::find

  // The first place where `w` stands in `s`; -1 when there is none.
  function Find(s: string, w: string): int {
    if w <= s then 0
    else if s == "" then -1
    else
      var r := Find(s[1..], w);
      if r < 0 then -1 else r + 1
  }

  lemma {:induction false} FindIsFirst(s: string, w: string)
    ensures var r := Find(s, w);
            && -1 <= r <= |s|
            && (r >= 0 ==> w <= s[r..])
            && forall i :: 0 <= i <= |s| && (r < 0 || i < r) ==> !(w <= s[i..])
  {
    assert s[0..] == s;
    if !(w <= s) && s != "" {
      FindIsFirst(s[1..], w);
      var r := Find(s[1..], w);
      assert r >= 0 ==> s[1..][r..] == s[r + 1..];
      forall i | 0 < i <= |s| && (r < 0 || i < r + 1) ensures !(w <= s[i..]) {
        assert s[i..] == s[1..][i - 1..];
      }
    }
  }

  // To be found at the very start is to be a prefix.
  lemma FindAtStart(s: string, w: string)
    ensures Find(s, w) == 0 <==> w <= s
  {
    if !(w <= s) && s != "" {
      FindIsFirst(s[1..], w);
    }
  }

  // The text after the first `w`.
  function After(s: string, w: string): string
    requires Find(s, w) >= 0
  {
    FindIsFirst(s, w);
    s[Find(s, w) + |w|..]
  }

  // A mark whose first character is not in the text before it.
  lemma {:induction false} AfterFinds(front: string, w: string, rest: string)
    requires w != "" && w[0] !in front
    ensures Find(front + w + rest, w) == |front| && After(front + w + rest, w) == rest
  {
    hide Find;
    var s := front + w + rest;
    FindIsFirst(s, w);
    assert s[|front|..] == w + rest;
    assert forall i :: 0 <= i < |front| ==> s[i..][0] == front[i];
  }

  // ---------------------------------------------------------------------------
  // boost::trim

  predicate IsSpace(c: char) {
    c == ' ' || c == '\t' || c == '\n' || c == '\r' || c as int == 11 || c as int == 12
  }

  function TrimLeft(s: string): string {
    if s != "" && IsSpace(s[0]) then TrimLeft(s[1..]) else s
  }

  function TrimRight(s: string): string {
    if s != "" && IsSpace(s[|s| - 1]) then TrimRight(s[..|s| - 1]) else s
  }

  function Trim(s: string): string { TrimRight(TrimLeft(s)) }

  // Nothing left to trim.
  predicate IsTrimmed(s: string) {
    s != "" ==> !IsSpace(s[0]) && !IsSpace(s[|s| - 1])
  }

  lemma TrimLeading(s: string)
    requires IsTrimmed(s)
    ensures Trim(" " + s) == s
  {
    assert (" " + s)[1..] == s;
    assert TrimLeft(" " + s) == TrimLeft(s);
  }

  // Trimming takes spaces, tabs, line ends, vertical tabs and form feeds off both ends, and
  // nothing else, until neither end has any.
  lemma TrimIsExact(s: string) returns (l: string, r: string)
    ensures s == l + Trim(s) + r
    ensures forall i :: 0 <= i < |l| ==> l[i] in {' ', '\t', '\n', '\r', 11 as char, 12 as char}
    ensures forall i :: 0 <= i < |r| ==> r[i] in {' ', '\t', '\n', '\r', 11 as char, 12 as char}
    ensures var t := Trim(s);
            t != "" ==> && t[0] !in {' ', '\t', '\n', '\r', 11 as char, 12 as char}
                        && t[|t| - 1] !in {' ', '\t', '\n', '\r', 11 as char, 12 as char}
  {
    l := TrimLeftSplits(s);
    r := TrimRightSplits(TrimLeft(s));
  }

  lemma {:induction false} TrimLeftSplits(s: string) returns (l: string)
    ensures s == l + TrimLeft(s) && forall i :: 0 <= i < |l| ==> IsSpace(l[i])
    ensures TrimLeft(s) != "" ==> !IsSpace(TrimLeft(s)[0])
  {
    l := "";
    if s != "" && IsSpace(s[0]) {
      l := TrimLeftSplits(s[1..]);
      l := [s[0]] + l;
    }
  }

  lemma {:induction false} TrimRightSplits(s: string) returns (r: string)
    ensures s == TrimRight(s) + r && forall i :: 0 <= i < |r| ==> IsSpace(r[i])
    ensures TrimRight(s) != "" ==> !IsSpace(TrimRight(s)[|TrimRight(s)| - 1]) && TrimRight(s)[0] == s[0]
  {
    r := "";
    if s != "" && IsSpace(s[|s| - 1]) {
      r := TrimRightSplits(s[..|s| - 1]);
      r := r + [s[|s| - 1]];
    }
  }

  // ---------------------------------------------------------------------------
  // std::to_string

  predicate IsDigit(c: char) { '0' <= c <= '9' }

  predicate AllDigits(s: string) { forall i :: 0 <= i < |s| ==> IsDigit(s[i]) }

  function Digit(n: nat): (c: char)
    requires n < 10
    ensures IsDigit(c)
  {
    ('0' as int + n) as char
  }

  function Dec(n: nat): (s: string)
    ensures s != "" && AllDigits(s)
  {
    if n < 10 then [Digit(n)] else Dec(n / 10) + [Digit(n % 10)]
  }

  // The number a string of digits stands for.
  function DecValue(s: string): nat
    requires AllDigits(s)
  {
    if s == "" then 0
    else
      var front := s[..|s| - 1];
      assert forall i :: 0 <= i < |front| ==> front[i] == s[i];
      10 * DecValue(front) + (s[|s| - 1] as int - '0' as int)
  }

  lemma {:induction false} DecRoundTrip(n: nat)
    ensures DecValue(Dec(n)) == n
  {
    var s := Dec(n);
    if n < 10 {
      assert s[..|s| - 1] == "";
    } else {
      DecRoundTrip(n / 10);
      assert s[..|s| - 1] == Dec(n / 10);
    }
  }

  // A number is written in decimal digits, the last one for its remainder by ten, with no zero
  // in front of another digit.
  lemma {:induction false} DecIsDecimal(n: nat)
    ensures var s := Dec(n);
            && s != "" && (forall i :: 0 <= i < |s| ==> '0' <= s[i] <= '9')
            && s[|s| - 1] as int - '0' as int == n % 10
            && (if n < 10 then |s| == 1 else s[..|s| - 1] == Dec(n / 10) && s[0] != '0')
  {
    if n >= 10 {
      DecIsDecimal(n / 10);
    }
  }

  lemma DecInjective(m: nat, n: nat)
    requires Dec(m) == Dec(n)
    ensures m == n
  {
    DecRoundTrip(m);
    DecRoundTrip(n);
  }

  lemma DigitsArePlain(s: string)
    requires AllDigits(s)
    ensures CrlfFree(s) && IsTrimmed(s)
  {
  }
}
