// reply::construct_http_response, and what a reader of the connection gets back out of it.
module HttpReply {
  import opened Basics
  import opened Text
  import opened HttpHeaders
  import opened HttpRequest

  datatype Reply = Reply(version: string, code: int, content: string, headers: Headers)

  function CodeToMessage(code: int): string {
    if code == 200 then "OK"
    else if code == 400 then "Bad Request"
    else if code == 404 then "Not Found"
    else "CODE NOT CONFIGURED"
  }

  function IntText(n: int): string { if n < 0 then "-" + Dec(-n) else Dec(n) }

  function StatusLine(r: Reply): string {
    r.version + " " + IntText(r.code) + " " + CodeToMessage(r.code)
  }

  function HeaderLine(h: Headers, k: string): string
    requires k in h
  {
    k + ": " + h[k]
  }

  function HeaderLines(order: seq<string>, h: Headers): (lines: seq<string>)
    requires forall k :: k in order ==> k in h
    ensures |lines| == |order| && forall i :: 0 <= i < |order| ==> lines[i] == HeaderLine(h, order[i])
  {
    seq(|order|, i requires 0 <= i < |order| => HeaderLine(h, order[i]))
  }

  // The bytes of a reply whose header map is walked in the given order.
  ghost function Construct(r: Reply, order: seq<string>): string
    requires Walks(order, r.headers)
  {
    StatusLine(r) + CRLF + Lines(HeaderLines(order, r.headers)) + CRLF + r.content
  }

  method ConstructHttpResponse(r: Reply, order: seq<string>) returns (s: string)
    requires Walks(order, r.headers)
    ensures s == Construct(r, order)
  {
    hide HeaderLine, IntText, CodeToMessage;
    s := r.version + " ";
    s := s + IntText(r.code) + " ";
    s := s + CodeToMessage(r.code) + "\r\n";
    ghost var start := s;
    ghost var lines := HeaderLines(order, r.headers);
    assert start == StatusLine(r) + CRLF;
    assert Lines(lines[..0]) == "";
    for i := 0 to |order|
      invariant s == start + Lines(lines[..i])
    {
      var line := HeaderLine(r.headers, order[i]);
      LinesSnoc(lines[..i], lines[i]);
      assert lines[..i + 1] == lines[..i] + [lines[i]];
      s := s + (line + "\r\n");
    }
    assert lines[..|order|] == lines;
    s := s + ("\r\n" + r.content);
  }

  lemma {:induction false} LinesSnoc(lines: seq<string>, line: string)
    ensures Lines(lines + [line]) == Lines(lines) + (line + CRLF)
  {
    if lines == [] {
      assert lines + [line] == [line] && [line][1..] == [];
      assert Lines([line]) == line + CRLF + Lines([]);
    } else {
      LinesSnoc(lines[1..], line);
      assert (lines + [line])[1..] == lines[1..] + [line];
    }
  }

  // ---------------------------------------------------------------------------
  // Headers survive being written and read

  // Names and values that the header format can carry.
  ghost predicate IsCarried(h: Headers) {
    forall k :: k in h ==> IsName(k) && IsValue(h[k])
  }

  predicate IsName(k: string) { ':' !in k && CrlfFree(k) }

  predicate IsValue(v: string) { IsTrimmed(v) && CrlfFree(v) }

  lemma JoinCrlfFree(a: string, b: string)
    requires CrlfFree(a) && CrlfFree(b)
    requires a != "" && b != "" ==> !(a[|a| - 1] == '\r' && b[0] == '\n')
    ensures CrlfFree(a + b)
  {
  }

  lemma HeaderLineIsRead(h: Headers, k: string, g: Headers)
    requires k in h && IsName(k) && IsValue(h[k])
    ensures AddHeader(g, HeaderLine(h, k)) == g[k := h[k]]
    ensures HeaderLine(h, k) != "" && CrlfFree(HeaderLine(h, k))
  {
    hide Trim;
    var v := h[k];
    assert HeaderLine(h, k) == k + [':'] + (" " + v);
    UntilFinds(':', k, " " + v);
    TrimLeading(v);
    JoinCrlfFree(k, ": ");
    JoinCrlfFree(k + ": ", v);
  }

  // The part of `h` whose keys are in `order`.
  ghost function Part(order: seq<string>, h: Headers): Headers {
    map k | k in h && k in order :: h[k]
  }

  lemma PartNone(h: Headers)
    ensures Part([], h) == map[] && AreLines([])
  {
  }

  lemma PartCons(order: seq<string>, h: Headers, g: Headers)
    requires order != [] && order[0] in h
    ensures g[order[0] := h[order[0]]] + Part(order[1..], h) == g + Part(order, h)
  {
    assert order == [order[0]] + order[1..];
  }

  lemma HeaderLinesCons(order: seq<string>, h: Headers)
    requires order != [] && forall k :: k in order ==> k in h
    ensures forall k :: k in order[1..] ==> k in h
    ensures HeaderLines(order, h) == [HeaderLine(h, order[0])] + HeaderLines(order[1..], h)
  {
    hide HeaderLine;
  }

  lemma {:induction false} FoldGivesHeaders(order: seq<string>, h: Headers, g: Headers)
    requires IsCarried(h) && forall k :: k in order ==> k in h
    ensures FoldHeaders(HeaderLines(order, h), g) == g + Part(order, h)
    ensures AreLines(HeaderLines(order, h))
    decreases |order|
  {
    hide AddHeader, HeaderLine, CrlfFree, IsName, IsValue, Part, AreLines;
    if order == [] {
      PartNone(h);
      assert HeaderLines(order, h) == [];
    } else {
      var k := order[0];
      HeaderLineIsRead(h, k, g);
      HeaderLinesCons(order, h);
      FoldGivesHeaders(order[1..], h, g[k := h[k]]);
      LinesCons(HeaderLine(h, k), HeaderLines(order[1..], h));
      PartCons(order, h, g);
    }
  }

  // Whatever the walking order, the header loop of parse_request_line reads a written header
  // block back as the same map, with the content as the body.
  lemma HeadersRoundTrip(h: Headers, order: seq<string>, content: string)
    requires Walks(order, h) && IsCarried(h)
    ensures ReadHeaders(Lines(HeaderLines(order, h)) + CRLF + content, map[]) == (h, content)
  {
    hide ReadHeaders, FoldHeaders, IsName, IsValue, Lines;
    FoldGivesHeaders(order, h, map[]);
    ClosedBlockIsExact(HeaderLines(order, h), content, map[]);
    assert map[] + Part(order, h) == h;
  }

  // ---------------------------------------------------------------------------
  // Framing: the reader of section 4.4 of RFC 2616

  // A status line says the version and the code: cut at its first two spaces, it gives them
  // back, and the rest is the message.
  lemma StatusLineIsRead(r: Reply)
    requires ' ' !in r.version
    ensures var v := Until(' ', StatusLine(r));
            var c := Until(' ', v.after);
            v.before == r.version && c.before == IntText(r.code) && c.after == CodeToMessage(r.code)
  {
    hide Until, CodeToMessage;
    var code, message := IntText(r.code), CodeToMessage(r.code);
    assert StatusLine(r) == r.version + [' '] + (code + [' '] + message);
    UntilFinds(' ', r.version, code + [' '] + message);
    assert ' ' !in code by {
      if r.code < 0 {
        assert code == "-" + Dec(-r.code);
      }
    }
    UntilFinds(' ', code, message);
  }

  datatype Message = Message(status: string, headers: Headers, content: string)

  // Read one reply off the front of a connection: the status line, the header block up to the
  // first empty line, and as many characters as Content-Length says.
  function ReadReply(s: string): (r: Option<(Message, string)>)
    ensures r.Some? ==> |r.value.1| < |s|
  {
    var k := UntilCrlf(s);
    if !k.found then None
    else
      var b := BlockOf(k.after);
      if b.Open? then None
      else
        var h := FoldHeaders(b.lines, map[]);
        if "Content-Length" !in h || !AllDigits(h["Content-Length"]) then None
        else
          var n := DecValue(h["Content-Length"]);
          if n > |b.body| then None else Some((Message(k.before, h, b.body[..n]), b.body[n..]))
  }

  // Read replies until nothing is left.
  function ReadReplies(s: string): Option<seq<Message>>
    decreases |s|
  {
    if s == "" then Some([])
    else
      var r := ReadReply(s);
      if r.None? then None
      else
        var more := ReadReplies(r.value.1);
        if more.None? then None else Some([r.value.0] + more.value)
  }

  // A reply that says its own length.
  ghost predicate IsFramed(r: Reply) {
    && CrlfFree(StatusLine(r))
    && IsCarried(r.headers)
    && "Content-Length" in r.headers && r.headers["Content-Length"] == Dec(|r.content|)
  }

  function MessageOf(r: Reply): Message { Message(StatusLine(r), r.headers, r.content) }

  lemma ReplyIsRead(r: Reply, order: seq<string>, more: string)
    requires Walks(order, r.headers) && IsFramed(r)
    ensures ReadReply(Construct(r, order) + more) == Some((MessageOf(r), more))
  {
    hide StatusLine, Lines, FoldHeaders, BlockOf, UntilCrlf, IsName, IsValue, Dec, DecValue, CrlfFree, AllDigits;
    var h := r.headers;
    var lines := HeaderLines(order, h);
    var body := r.content + more;
    var block := Lines(lines) + CRLF + body;
    assert Construct(r, order) + more == StatusLine(r) + CRLF + block;
    UntilCrlfFinds(StatusLine(r), block);
    FoldGivesHeaders(order, h, map[]);
    assert map[] + Part(order, h) == h;
    BlockIsUnique(Closed(lines, body), block);
    DecRoundTrip(|r.content|);
    assert body[..|r.content|] == r.content && body[|r.content|..] == more;
  }

  lemma ConstructIsText(r: Reply, order: seq<string>)
    requires Walks(order, r.headers)
    ensures Construct(r, order) != ""
  {
    assert |Construct(r, order)| >= |CRLF|;
  }

  // The bytes of a connection: the replies back to back, each in some header order.
  ghost function Stream(rs: seq<Reply>, orders: seq<seq<string>>): string
    requires |rs| == |orders| && forall i :: 0 <= i < |rs| ==> Walks(orders[i], rs[i].headers)
  {
    if rs == [] then "" else Construct(rs[0], orders[0]) + Stream(rs[1..], orders[1..])
  }

  function MessagesOf(rs: seq<Reply>): seq<Message> {
    if rs == [] then [] else [MessageOf(rs[0])] + MessagesOf(rs[1..])
  }

  // Framed replies written back to back are taken apart again, one by one, with nothing left.
  lemma {:induction false} StreamIsRead(rs: seq<Reply>, orders: seq<seq<string>>)
    requires |rs| == |orders| && forall i :: 0 <= i < |rs| ==> Walks(orders[i], rs[i].headers)
    requires forall i :: 0 <= i < |rs| ==> IsFramed(rs[i])
    ensures ReadReplies(Stream(rs, orders)) == Some(MessagesOf(rs))
  {
    hide Construct, ReadReply, IsFramed, Walks, MessageOf;
    if rs == [] {
    } else {
      ReplyIsRead(rs[0], orders[0], Stream(rs[1..], orders[1..]));
      ConstructIsText(rs[0], orders[0]);
      StreamIsRead(rs[1..], orders[1..]);
    }
  }

  // ---------------------------------------------------------------------------
  // Every reply of the server is framed

  // Every handler ends the same way: two headers, the length being that of the content.
  function HandlerReply(version: string, code: int, mime: string, content: string): Reply {
    Reply(version, code, content, map["Content-Type" := mime, "Content-Length" := Dec(|content|)])
  }

  // The content types that appear in the handlers can all be carried by a header.
  lemma MimeTypesAreValues(mime: string)
    ensures mime in {"text/plain", "text/html", "image/jpeg", "image/png", "application/zip"} ==> IsValue(mime)
  {
  }

  // What a handler decides; make_400_request answers an invalid request.
  datatype Outcome = Outcome(code: int, mime: string, content: string)

  const BAD_REQUEST := Outcome(400, "text/plain", "400 Bad Request")

  // The reply of handle_read to the text of one request.
  ghost function Respond(text: string, outcome: Outcome): Reply {
    var req := ParseRequest(text);
    var o := if req.valid then outcome else BAD_REQUEST;
    HandlerReply(req.version, o.code, o.mime, o.content)
  }

  lemma StatusLineIsPlain(r: Reply)
    requires CrlfFree(r.version)
    ensures CrlfFree(StatusLine(r))
  {
    hide IntText;
    var code, message := IntText(r.code), CodeToMessage(r.code);
    assert CrlfFree(code) by { IntTextIsPlain(r.code); }
    JoinCrlfFree(r.version, " ");
    IntTextIsPlain(r.code);
    JoinCrlfFree(r.version + " ", code);
    JoinCrlfFree(r.version + " " + code, " ");
    JoinCrlfFree(r.version + " " + code + " ", message);
  }

  lemma IntTextIsPlain(n: int)
    ensures CrlfFree(IntText(n)) && IntText(n) != "" && IntText(n)[0] != '\n'
  {
    if n < 0 {
      DigitsArePlain(Dec(-n));
      JoinCrlfFree("-", Dec(-n));
    } else {
      DigitsArePlain(Dec(n));
    }
  }

  lemma HandlerReplyIsFramed(version: string, code: int, mime: string, content: string)
    requires CrlfFree(version) && IsValue(mime)
    ensures IsFramed(HandlerReply(version, code, mime, content))
  {
    hide Dec, StatusLine;
    var r := HandlerReply(version, code, mime, content);
    StatusLineIsPlain(r);
    DigitsArePlain(Dec(|content|));
    assert IsName("Content-Type") && IsName("Content-Length");
  }

  lemma RespondIsFramed(text: string, outcome: Outcome)
    requires IsValue(outcome.mime)
    ensures IsFramed(Respond(text, outcome))
  {
    hide HandlerReply, ParseRequest, IsVersion, IsFramed;
    MimeTypesAreValues(BAD_REQUEST.mime);
    var req := ParseRequest(text);
    RequestIsValidIff(text);
    if req.valid {
      var rest := ValidRequestHasForm(text);
      VersionIsPlain(req.version);
    }
    var o := if req.valid then outcome else BAD_REQUEST;
    HandlerReplyIsFramed(req.version, o.code, o.mime, o.content);
  }

  ghost function Responses(texts: seq<string>, outcomes: seq<Outcome>): seq<Reply>
    requires |texts| == |outcomes|
  {
    seq(|texts|, i requires 0 <= i < |texts| => Respond(texts[i], outcomes[i]))
  }

  // The first line of a reply, by its code: the three codes that have a message...
  lemma KnownStatusLines(r: Reply)
    ensures r.code == 200 ==> StatusLine(r) == r.version + " 200 OK"
    ensures r.code == 400 ==> StatusLine(r) == r.version + " 400 Bad Request"
    ensures r.code == 404 ==> StatusLine(r) == r.version + " 404 Not Found"
  {
    hide Dec;
    ThreeDigits();
    assert StatusLine(r) == r.version + (" " + IntText(r.code) + " " + CodeToMessage(r.code));
    assert " " + "200" + " " + "OK" == " 200 OK";
    assert " " + "400" + " " + "Bad Request" == " 400 Bad Request";
    assert " " + "404" + " " + "Not Found" == " 404 Not Found";
  }

  // ...and all others.
  lemma OtherStatusLines(r: Reply)
    requires r.code !in {200, 400, 404}
    ensures StatusLine(r) ==
              r.version + (if r.code >= 0 then " " + Dec(r.code) else " -" + Dec(-r.code)) + " CODE NOT CONFIGURED"
  {
    hide Dec;
    if r.code < 0 {
      assert " -" == " " + "-";
    }
  }

  lemma ThreeDigits()
    ensures Dec(200) == "200" && Dec(400) == "400" && Dec(404) == "404" && Dec(15) == "15"
  {
    assert Dec(20) == "20" && Dec(40) == "40";
  }

  // Every byte of the answer to a text that is no request, for either order of its two headers.
  lemma InvalidRequestIsAnswered(text: string, outcome: Outcome, order: seq<string>)
    requires !ParseRequest(text).valid && Walks(order, Respond(text, outcome).headers)
    ensures var mime, length := "Content-Type: text/plain\r\n", "Content-Length: 15\r\n";
            var block := if order == ["Content-Type", "Content-Length"] then mime + length else length + mime;
            Construct(Respond(text, outcome), order) ==
              "HTTP/1.1 400 Bad Request\r\n" + block + "\r\n" + "400 Bad Request"
  {
    hide ParseRequest, StatusLine, Lines, HeaderLine, HeaderLines, Dec, Respond;
    InvalidReply(text, outcome);
    var r := Respond(text, outcome);
    KnownStatusLines(r);
    TwoInOrder(order, "Content-Type", "Content-Length");
    TwoHeaders(r.headers, order);
    BadRequestLine();
  }

  lemma BadRequestLine()
    ensures "HTTP/1.1" + " 400 Bad Request" + CRLF == "HTTP/1.1 400 Bad Request\r\n"
  {
  }

  lemma InvalidReply(text: string, outcome: Outcome)
    requires !ParseRequest(text).valid
    ensures Respond(text, outcome) ==
              Reply("HTTP/1.1", 400, "400 Bad Request", map["Content-Type" := "text/plain", "Content-Length" := "15"])
  {
    hide ParseRequest, Dec;
    RequestIsValidIff(text);
    ThreeDigits();
  }

  lemma TwoHeaders(h: Headers, order: seq<string>)
    requires h == map["Content-Type" := "text/plain", "Content-Length" := "15"]
    requires order == ["Content-Type", "Content-Length"] || order == ["Content-Length", "Content-Type"]
    ensures var mime, length := "Content-Type: text/plain\r\n", "Content-Length: 15\r\n";
            Lines(HeaderLines(order, h)) ==
              if order == ["Content-Type", "Content-Length"] then mime + length else length + mime
  {
    hide Lines;
    var mime, length := "Content-Type: text/plain", "Content-Length: 15";
    assert HeaderLine(h, "Content-Type") == mime && HeaderLine(h, "Content-Length") == length;
    assert mime + CRLF == "Content-Type: text/plain\r\n" && length + CRLF == "Content-Length: 15\r\n";
    var lines := HeaderLines(order, h);
    if order == ["Content-Type", "Content-Length"] {
      assert lines == [mime, length];
    } else {
      assert lines == [length, mime];
    }
    TwoLines(lines[0], lines[1]);
  }

  lemma TwoInOrder(order: seq<string>, a: string, b: string)
    requires a != b && a in order && b in order && forall k :: k in order ==> k == a || k == b
    requires forall i, j :: 0 <= i < j < |order| ==> order[i] != order[j]
    ensures order == [a, b] || order == [b, a]
  {
    var three := if |order| > 2 then [order[0], order[1], order[2]] else [];
    var i :| 0 <= i < |order| && order[i] == a;
    var j :| 0 <= j < |order| && order[j] == b;
    forall k | 0 <= k < |order| ensures order[k] == a || order[k] == b {
      assert order[k] in order;
    }
  }

  lemma TwoLines(a: string, b: string)
    ensures Lines([a, b]) == a + CRLF + (b + CRLF)
  {
    assert [a, b][1..] == [b] && [b][1..] == [];
    assert Lines([b]) == b + CRLF + Lines([]);
    assert Lines([a, b]) == a + CRLF + Lines([b]);
    assert b + CRLF + "" == b + CRLF;
  }

  // Whatever requests arrive on a connection and whatever the handlers answer, the bytes
  // written can be split back into exactly the replies.
  lemma ConnectionIsFramed(texts: seq<string>, outcomes: seq<Outcome>, orders: seq<seq<string>>)
    requires |texts| == |outcomes| == |orders|
    requires forall i :: 0 <= i < |outcomes| ==> IsValue(outcomes[i].mime)
    requires forall i :: 0 <= i < |texts| ==> Walks(orders[i], Respond(texts[i], outcomes[i]).headers)
    ensures var rs := Responses(texts, outcomes);
            ReadReplies(Stream(rs, orders)) == Some(MessagesOf(rs))
  {
    hide Respond, IsFramed, Walks, Stream, ReadReplies, MessagesOf;
    var rs := Responses(texts, outcomes);
    forall i | 0 <= i < |rs| ensures IsFramed(rs[i]) {
      RespondIsFramed(texts[i], outcomes[i]);
    }
    StreamIsRead(rs, orders);
  }

  // So no two different conversations, of whatever lengths, put the same bytes on the wire.
  lemma SplitIsUnique(rs: seq<Reply>, orders: seq<seq<string>>, rs': seq<Reply>, orders': seq<seq<string>>)
    requires |rs| == |orders| && |rs'| == |orders'|
    requires forall i :: 0 <= i < |rs| ==> Walks(orders[i], rs[i].headers) && IsFramed(rs[i])
    requires forall i :: 0 <= i < |rs'| ==> Walks(orders'[i], rs'[i].headers) && IsFramed(rs'[i])
    requires Stream(rs, orders) == Stream(rs', orders')
    ensures MessagesOf(rs) == MessagesOf(rs')
  {
    hide IsFramed, Walks, Stream, ReadReplies, MessagesOf;
    StreamIsRead(rs, orders);
    StreamIsRead(rs', orders');
  }
}
