// From the parsed configuration to the handler of a request: config_params, the routing loop
// of handle_read, and the location checks of the handlers it leads to.
module Routing {
  import opened Basics
  import opened ConfigSyntax
  import opened HandlerPaths
  import opened HttpHeaders
  import opened HttpRequest
  import opened Text

  // ---------------------------------------------------------------------------
  // The order in which std::map walks its keys

  predicate Less(a: string, b: string) {
    if b == "" then false
    else if a == "" then true
    else if a[0] != b[0] then a[0] < b[0]
    else Less(a[1..], b[1..])
  }

  lemma {:induction false} LessIsTotal(a: string, b: string)
    ensures a == b || Less(a, b) || Less(b, a)
    ensures !(Less(a, b) && Less(b, a))
  {
    if a != "" && b != "" && a[0] == b[0] {
      LessIsTotal(a[1..], b[1..]);
      assert a == [a[0]] + a[1..] && b == [b[0]] + b[1..];
    }
  }

  lemma {:induction false} LessIsTransitive(a: string, b: string, c: string)
    requires Less(a, b) && Less(b, c)
    ensures Less(a, c)
  {
    if a != "" && a[0] == b[0] && b[0] == c[0] {
      LessIsTransitive(a[1..], b[1..], c[1..]);
    }
  }

  lemma {:induction false} PrefixIsLess(a: string, b: string)
    requires a < b
    ensures Less(a, b)
  {
    if a != "" {
      assert b[0] == a[0];
      PrefixIsLess(a[1..], b[1..]);
    }
  }

  ghost predicate IsSorted(keys: seq<string>) {
    forall i, j :: 0 <= i < j < |keys| ==> Less(keys[i], keys[j])
  }

  ghost predicate IsMapOrder(keys: seq<string>, s: set<string>) {
    IsSorted(keys) && forall k :: k in keys <==> k in s
  }

  lemma SortedCons(a: string, keys: seq<string>)
    requires IsSorted(keys) && forall x :: x in keys ==> Less(a, x)
    ensures IsSorted([a] + keys)
  {
    hide Less;
  }

  lemma {:induction false} InsertKey(keys: seq<string>, k: string) returns (keys': seq<string>)
    requires IsSorted(keys) && k !in keys
    ensures IsSorted(keys') && forall x :: x in keys' <==> x in keys || x == k
    decreases |keys|
  {
    hide Less;
    if keys == [] {
      keys' := [k];
    } else {
      var a, rest := keys[0], keys[1..];
      assert keys == [a] + rest;
      LessIsTotal(a, k);
      if Less(a, k) {
        var rest' := InsertKey(rest, k);
        SortedCons(a, rest');
        keys' := [a] + rest';
      } else {
        forall x | x in keys ensures Less(k, x) {
          if x != a {
            LessIsTransitive(k, a, x);
          }
        }
        SortedCons(k, keys);
        keys' := [k] + keys;
      }
    }
  }

  // Every set of keys has a walking order.
  lemma {:induction false} MapOrderExists(s: set<string>) returns (keys: seq<string>)
    ensures IsMapOrder(keys, s)
    decreases |s|
  {
    hide Less;
    if s == {} {
      keys := [];
    } else {
      var k :| k in s;
      var rest := MapOrderExists(s - {k});
      keys := InsertKey(rest, k);
    }
  }

  // ---------------------------------------------------------------------------
  // The routing loop

  // The request is for the location itself or for something below it.
  predicate Matches(path: string, location: string) {
    path == location || location + "/" <= path
  }

  // That is: the path goes on after the location with nothing, or with a slash.
  lemma MatchesIff(path: string, location: string)
    ensures Matches(path, location) <==> exists rest :: path == location + rest && (rest == "" || rest[0] == '/')
  {
    if Matches(path, location) {
      var rest := path[|location|..];
      assert path == location + rest;
    }
    if rest :| path == location + rest && (rest == "" || rest[0] == '/') {
      if rest == "" {
        assert path == location;
      } else {
        assert path == location + "/" + rest[1..];
      }
    }
  }

  // Walk the table in key order and take the first match: the shortest location that the path
  // goes on after with nothing or with a slash, and none exactly when there is no such one.
  method Route(keys: seq<string>, ghost s: set<string>, path: string) returns (r: Option<string>)
    requires IsMapOrder(keys, s)
    ensures r.None? <==> forall k :: k in s ==> !Matches(path, k)
    ensures r.Some? ==> IsShortestMatch(s, path, r.value)
    ensures r.Some? <==> exists k, rest :: k in s && path == k + rest && (rest == "" || rest[0] == '/')
    ensures r.Some? ==> r.value in s && exists rest :: path == r.value + rest && (rest == "" || rest[0] == '/')
    ensures r.Some? ==>
              forall k, rest :: k in s && path == k + rest && (rest == "" || rest[0] == '/') && k != r.value ==>
                |r.value| < |k|
  {
    hide Less, Find, Matches;
    forall k ensures Matches(path, k) <==> exists rest :: path == k + rest && (rest == "" || rest[0] == '/') {
      MatchesIff(path, k);
    }
    for i := 0 to |keys|
      invariant forall j :: 0 <= j < i ==> !Matches(path, keys[j])
    {
      FindAtStart(path, keys[i] + "/");
      assert Matches(path, keys[i]) <==> path == keys[i] || keys[i] + "/" <= path by { MatchesMeans(path, keys[i]); }
      if path == keys[i] || Find(path, keys[i] + "/") == 0 {
        FirstIsShortest(keys, s, path, i);
        return Some(keys[i]);
      }
    }
    return None;
  }

  lemma MatchesMeans(path: string, location: string)
    ensures Matches(path, location) <==> path == location || location + "/" <= path
  {
  }

  // A configured location that lies below no other one gets the request for exactly itself.
  lemma LocationGetsItself(s: set<string>, k: string)
    requires k in s && forall upper :: upper in s ==> !(upper + "/" <= k)
    ensures IsShortestMatch(s, k, k)
  {
  }

  // The one match that no other match is as short as.
  ghost predicate IsShortestMatch(s: set<string>, path: string, location: string) {
    && location in s && Matches(path, location)
    && forall k :: k in s && Matches(path, k) && k != location ==> |location| < |k|
  }

  lemma MatchesArePrefixes(path: string, a: string, b: string)
    requires Matches(path, a) && Matches(path, b)
    ensures |a| < |b| ==> a < b
    ensures |a| == |b| ==> a == b
  {
    assert a <= path && b <= path;
  }

  lemma FirstIsShortest(keys: seq<string>, s: set<string>, path: string, i: nat)
    requires IsMapOrder(keys, s) && i < |keys| && Matches(path, keys[i])
    requires forall j :: 0 <= j < i ==> !Matches(path, keys[j])
    ensures IsShortestMatch(s, path, keys[i])
  {
    hide Less, Matches;
    forall k | k in s && Matches(path, k) && k != keys[i] ensures |keys[i]| < |k| {
      var j :| 0 <= j < |keys| && keys[j] == k;
      MatchesArePrefixes(path, keys[i], k);
      MatchesArePrefixes(path, k, keys[i]);
      if |k| < |keys[i]| {
        PrefixIsLess(k, keys[i]);
        LessIsTotal(k, keys[i]);
      }
    }
  }

  // A valid request that the routing loop gives to the location.
  ghost predicate Reaches(text: string, s: set<string>, location: string) {
    ParseRequest(text).valid && IsShortestMatch(s, ParseRequest(text).path, location)
  }

  // A location can be reached by some request exactly when it is configured, holds no space,
  // and does not lie below another configured location.
  lemma LocationIsReachedIff(s: set<string>, k: string)
    ensures (exists text :: Reaches(text, s, k)) <==>
              k in s && ' ' !in k && !exists upper :: upper in s && upper + "/" <= k
  {
    hide ParseRequest, IsRequest, IsVersion;
    if text :| Reaches(text, s, k) {
      var path := ParseRequest(text).path;
      ValidPathHasNoSpace(text);
      assert k <= path;
      forall upper | upper in s ensures !(upper + "/" <= k) {
        assert upper + "/" <= k ==> Matches(path, upper);
      }
    }
    if k in s && ' ' !in k && !exists upper :: upper in s && upper + "/" <= k {
      var path := if k == "" then "/" else k;
      GetIsRead(path);
      forall upper | upper in s && Matches(path, upper) && upper != k ensures |k| < |upper| {
        assert upper <= path;
      }
      assert Reaches("GET" + " " + path + " " + "HTTP/1.1" + CRLF + "", s, k);
    }
  }

  lemma ValidPathHasNoSpace(text: string)
    requires ParseRequest(text).valid
    ensures ' ' !in ParseRequest(text).path
  {
    hide ParseRequest, IsVersion;
    var rest := ValidRequestHasForm(text);
  }

  lemma GetIsRead(path: string)
    requires path != "" && ' ' !in path
    ensures var r := ParseRequest("GET" + " " + path + " " + "HTTP/1.1" + CRLF + ""); r.valid && r.path == path
  {
    hide ParseRequest, ReadHeaders;
    assert IsVersionOf("HTTP/1.1", "1", "1");
    RequestIsRead("GET" + " " + path + " " + "HTTP/1.1" + CRLF + "", "GET", path, "HTTP/1.1", "");
  }

  // ---------------------------------------------------------------------------
  // config_params

  function ServerRoot(ss: seq<Stmt>): (root: string)
    ensures root != "" && root[|root| - 1] == '/'
  {
    var root := KeyValue(ss, "root");
    if root == "" || root == "." then "./" else if root == "/" then root else root + "/"
  }

  // Assignment to the `short` field, and the conversion to the unsigned port of an endpoint.
  function Narrow(n: int): (r: int)
    ensures -0x8000 <= r < 0x8000 && (r - n) % 0x10000 == 0
  {
    (n + 0x8000) % 0x10000 - 0x8000
  }

  function EndpointPort(port: int): int { port % 0x10000 }

  // What server::server does with the port: an acceptor on port 0 gets one the system picks.
  datatype Listening = Refused | AnyPort | OnPort(port: int)

  function ListensOn(ss: seq<Stmt>): Listening {
    var port := Narrow(Port(ss));
    if port == -1 then Refused
    else if EndpointPort(port) == 0 then AnyPort
    else OnPort(EndpointPort(port))
  }

  // The server listens on the port written in its configuration exactly when that lies
  // between 1 and 65534; 65535 itself reads as "no port".
  lemma ListensOnConfiguredPort(ss: seq<Stmt>, n: nat)
    requires Port(ss) == n
    ensures ListensOn(ss) == OnPort(n) <==> 0 < n < 65535
    ensures ListensOn(ss) == Refused <==> n % 65536 == 65535
    ensures ListensOn(ss) == AnyPort <==> n % 65536 == 0
  {
  }

  lemma HighestPortIsRefused()
    ensures Port([Stmt(["port", "65535"], NoBlock)]) == 65535
    ensures ListensOn([Stmt(["port", "65535"], NoBlock)]) == Refused
  {
    var s := "65535";
    assert s[..4] == "6553" && "6553"[..3] == "655" && "655"[..2] == "65" && "65"[..1] == "6" && "6"[..0] == "";
    assert DecValue("655") == 655 by {
      assert DecValue("65") == 65 by { assert DecValue("6") == 6; }
    }
    assert DecValue("6553") == 6553;
    assert DecValue(s) == 65535;
  }

  // ---------------------------------------------------------------------------
  // The handlers that check their location

  predicate StartsWith(path: string, location: string) { location <= path }

  class StaticHandler {
    var handlerRoot: string
    var location: string

    constructor (config: seq<Stmt>, serverRoot: string)
      ensures location == KeyValue(config, "location")
      ensures handlerRoot == HandlerRoot(config, serverRoot)
    {
      var configRoot := KeyValue(config, "root");
      if |configRoot| == 0 {
        handlerRoot := serverRoot;
      } else if configRoot[0] == '/' {
        handlerRoot := configRoot;
      } else {
        handlerRoot := serverRoot + configRoot;
      }
      location := KeyValue(config, "location");
    }

    // The first half of HandleRequest: the double check and the file to look for.
    method Target(path: string) returns (passed: bool, file: string)
      ensures passed <==> exists rest :: path == location + rest
      ensures forall rest :: path == location + rest ==> file == handlerRoot + rest
      ensures !passed ==> file == handlerRoot
    {
      hide Find;
      FindAtStart(path, location);
      var rest := "";
      passed := true;
      var found := Find(path, location);
      if found == -1 || found != 0 {
        passed := false;
      } else {
        assert path == location + path[|location|..];
        rest := path[|location|..];
      }
      file := handlerRoot + rest;
    }
  }

  function HandlerRoot(config: seq<Stmt>, serverRoot: string): string {
    var root := KeyValue(config, "root");
    if root == "" then serverRoot else if root[0] == '/' then root else serverRoot + root
  }

  // proxy_handler::getRequestURI. substr past the end would throw.
  function RequestUri(config: seq<Stmt>, path: string): string
    requires |KeyValue(config, "location")| <= |path|
  {
    path[|KeyValue(config, "location")|..]
  }

  // What holds of every request that some handler of the configuration gets: the handler's
  // own location starts the path, so the static and meme mismatch branches are dead and the
  // proxy's substring is in range; what is left is empty or starts with a slash.
  lemma RoutedRequestFitsHandler(ss: seq<Stmt>, path: string, location: string)
    requires IsShortestMatch(PathsOf(ss).Keys, path, location)
    ensures var own := KeyValue(PathsOf(ss)[location].config, "location");
            && own == location != ""
            && StartsWith(path, own)
            && |own| <= |path|
            && path == own + path[|own|..]
            && RequestUri(PathsOf(ss)[location].config, path) == path[|own|..]
            && (path[|own|..] == "" || path[|own|..][0] == '/')
  {
    hide PathsOf, KeyValue;
    PathsAreKeyedByLocation(ss);
    assert location in PathsOf(ss);
    if path != location {
      assert location + "/" <= path;
    }
  }

  // The file by the values of the configuration: a handler root that starts with a slash is
  // taken as it is, any other lies below the server root, which is the working directory when
  // none is given, and ends in exactly one added slash otherwise.
  lemma FileRoot(ss: seq<Stmt>, config: seq<Stmt>)
    ensures var own, root := KeyValue(config, "root"), KeyValue(ss, "root");
            var file := HandlerRoot(config, ServerRoot(ss));
            && ("/" <= own ==> file == own)
            && (!("/" <= own) && root in {"", "."} ==> file == "./" + own)
            && (!("/" <= own) && root == "/" ==> file == "/" + own)
            && (!("/" <= own) && root !in {"", ".", "/"} ==> file == root + "/" + own)
  {
    hide KeyValue;
  }

  // Route a request and hand it to a static handler: the double check always passes, and
  // the file is the handler's root followed by what comes after the location.
  method ServeStatic(ss: seq<Stmt>, keys: seq<string>, path: string) returns (file: Option<string>)
    requires IsMapOrder(keys, PathsOf(ss).Keys)
    ensures file.None? <==> forall k :: k in PathsOf(ss) ==> !Matches(path, k)
    ensures file.Some? ==>
              exists k :: IsShortestMatch(PathsOf(ss).Keys, path, k)
                          && path == k + path[|k|..]
                          && file.value == HandlerRoot(PathsOf(ss)[k].config, ServerRoot(ss)) + path[|k|..]
  {
    hide PathsOf, IsMapOrder, HandlerRoot, ServerRoot, Matches;
    var paths := PathsOf(ss);
    var r := Route(keys, paths.Keys, path);
    if r.None? {
      return None;
    }
    RoutedRequestFitsHandler(ss, path, r.value);
    var handler := new StaticHandler(paths[r.value].config, ServerRoot(ss));
    var passed, target := handler.Target(path);
    assert path == r.value + path[|r.value|..];
    assert passed;
    return Some(target);
  }
}
