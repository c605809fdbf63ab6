// The queries on a configuration tree: get_key_value, get_port and get_handler_paths, on values.
module HandlerPaths {
  import opened ConfigSyntax
  import opened Text

  // The second word of the first two-word statement without a block whose first word is `key`.
  function KeyValue(ss: seq<Stmt>, key: string): string {
    if ss == [] then ""
    else if IsPair(ss[0], key) then ss[0].words[1]
    else KeyValue(ss[1..], key)
  }

  predicate IsPair(s: Stmt, key: string) {
    |s.words| == 2 && s.words[0] == key && s.block == NoBlock
  }

  // The value of a key is that of the first statement that sets it...
  lemma {:induction false} KeyValueIsFirst(ss: seq<Stmt>, key: string, i: nat)
    requires i < |ss| && |ss[i].words| == 2 && ss[i].words[0] == key && ss[i].block == NoBlock
    requires forall j :: 0 <= j < i ==> !(|ss[j].words| == 2 && ss[j].words[0] == key && ss[j].block == NoBlock)
    ensures KeyValue(ss, key) == ss[i].words[1]
    decreases i
  {
    if i > 0 {
      assert forall j :: 0 <= j < i ==> ss[1..][j] == ss[j + 1];
      KeyValueIsFirst(ss[1..], key, i - 1);
    }
  }

  // ...and empty when none does.
  lemma {:induction false} KeyValueIsNone(ss: seq<Stmt>, key: string)
    requires forall i :: 0 <= i < |ss| ==> !(|ss[i].words| == 2 && ss[i].words[0] == key && ss[i].block == NoBlock)
    ensures KeyValue(ss, key) == ""
  {
    if ss != [] {
      KeyValueIsNone(ss[1..], key);
    }
  }

  // get_port: the first two-word statement `port N`, -1 when there is none or N is no number.
  function Port(ss: seq<Stmt>): int {
    if ss == [] then -1
    else if |ss[0].words| == 2 && ss[0].words[0] == "port" then
      if ss[0].words[1] == "" || !AllDigits(ss[0].words[1]) then -1 else DecValue(ss[0].words[1])
    else Port(ss[1..])
  }

  // The port is that of the first two-word `port` statement, with or without a block, even when
  // that is no number...
  lemma {:induction false} PortIsFirst(ss: seq<Stmt>, i: nat)
    requires i < |ss| && |ss[i].words| == 2 && ss[i].words[0] == "port"
    requires forall j :: 0 <= j < i ==> !(|ss[j].words| == 2 && ss[j].words[0] == "port")
    ensures forall n: nat :: ss[i].words[1] == Dec(n) ==> Port(ss) == n
    ensures (exists c :: c in ss[i].words[1] && !('0' <= c <= '9')) || ss[i].words[1] == "" ==> Port(ss) == -1
    decreases i
  {
    hide Dec, DecValue;
    if i > 0 {
      assert forall j :: 0 <= j < i ==> ss[1..][j] == ss[j + 1];
      PortIsFirst(ss[1..], i - 1);
    } else {
      forall n: nat | ss[0].words[1] == Dec(n) ensures Port(ss) == n {
        DecRoundTrip(n);
      }
    }
  }

  // ...and -1 when there is none.
  lemma {:induction false} PortIsNone(ss: seq<Stmt>)
    requires forall i :: 0 <= i < |ss| ==> !(|ss[i].words| == 2 && ss[i].words[0] == "port")
    ensures Port(ss) == -1
  {
    if ss != [] {
      PortIsNone(ss[1..]);
    }
  }

  // What the table holds for a location: the handler's type and its block.
  datatype Entry = Entry(kind: string, config: seq<Stmt>)
  type PathMap = map<string, Entry>

  predicate IsHandler(s: Stmt) {
    |s.words| == 2 && s.words[0] == "handler" && s.block.Block?
  }

  // get_handler_paths looks the handler's *type* up in the map of locations, and drops the
  // handler when it finds it.
  function Register(m: PathMap, kind: string, block: seq<Stmt>): PathMap {
    var path := KeyValue(block, "location");
    if path == "" then m
    else if kind !in m then m[path := Entry(kind, block)]
    else m
  }

  function FlattenStmt(s: Stmt, m: PathMap): PathMap
    decreases s
  {
    if IsHandler(s) then Register(m, s.words[1], s.block.stmts)
    else if s.block.Block? then Flatten(s.block.stmts, m)
    else m
  }

  function Flatten(ss: seq<Stmt>, m: PathMap): PathMap
    decreases ss
  {
    if ss == [] then m else Flatten(ss[1..], FlattenStmt(ss[0], m))
  }

  // ---------------------------------------------------------------------------
  // Every entry sits under its own location

  ghost predicate KeyedByLocation(m: PathMap) {
    forall p :: p in m ==> p != "" && p == KeyValue(m[p].config, "location")
  }

  lemma {:induction false} FlattenStmtKeepsKeys(s: Stmt, m: PathMap)
    requires KeyedByLocation(m)
    ensures KeyedByLocation(FlattenStmt(s, m))
    decreases s
  {
    hide KeyValue;
    if !IsHandler(s) && s.block.Block? {
      FlattenKeepsKeys(s.block.stmts, m);
    }
  }

  lemma {:induction false} FlattenKeepsKeys(ss: seq<Stmt>, m: PathMap)
    requires KeyedByLocation(m)
    ensures KeyedByLocation(Flatten(ss, m))
    decreases ss
  {
    hide KeyValue, FlattenStmt;
    if ss == [] {
    } else {
      FlattenStmtKeepsKeys(ss[0], m);
      FlattenKeepsKeys(ss[1..], FlattenStmt(ss[0], m));
    }
  }

  // The routing table of a configuration.
  function PathsOf(ss: seq<Stmt>): PathMap { Flatten(ss, map[]) }

  // In the table of any configuration at all, a handler's key is the location its own
  // constructor will read, and is not empty.
  lemma PathsAreKeyedByLocation(ss: seq<Stmt>)
    ensures KeyedByLocation(PathsOf(ss))
  {
    FlattenKeepsKeys(ss, map[]);
  }

  // ---------------------------------------------------------------------------
  // Which handlers the recursion finds

  // A handler block with a location, as written in the configuration.
  datatype Site = Site(kind: string, location: string, config: seq<Stmt>)

  // The handler blocks that are not nested in another handler block, in reading order.
  function SitesOf(s: Stmt): seq<Site>
    decreases s
  {
    if IsHandler(s) then
      var path := KeyValue(s.block.stmts, "location");
      if path == "" then [] else [Site(s.words[1], path, s.block.stmts)]
    else if s.block.Block? then Sites(s.block.stmts)
    else []
  }

  function Sites(ss: seq<Stmt>): seq<Site>
    decreases ss
  {
    if ss == [] then [] else SitesOf(ss[0]) + Sites(ss[1..])
  }

  // The sites of one statement: a two-word `handler` block counts by its location, if it has
  // one, and is not looked into; any other block is looked into, however it is called.
  lemma SitesOfOne(words: seq<string>, b: seq<Stmt>)
    ensures |words| == 2 && words[0] == "handler" && KeyValue(b, "location") != "" ==>
              Sites([Stmt(words, Block(b))]) == [Site(words[1], KeyValue(b, "location"), b)]
    ensures |words| == 2 && words[0] == "handler" && KeyValue(b, "location") == "" ==>
              Sites([Stmt(words, Block(b))]) == []
    ensures !(|words| == 2 && words[0] == "handler") ==> Sites([Stmt(words, Block(b))]) == Sites(b)
    ensures Sites([Stmt(words, NoBlock)]) == []
  {
    hide KeyValue;
    assert forall s: Stmt :: [s][1..] == [];
    assert Sites([]) == [];
  }

  // What the code does with the sites one after the other.
  function RegisterAll(sites: seq<Site>, m: PathMap): PathMap {
    if sites == [] then m
    else
      var s := sites[0];
      RegisterAll(sites[1..], if s.kind !in m then m[s.location := Entry(s.kind, s.config)] else m)
  }

  lemma {:induction false} RegisterAppend(a: seq<Site>, b: seq<Site>, m: PathMap)
    ensures RegisterAll(a + b, m) == RegisterAll(b, RegisterAll(a, m))
    decreases |a|
  {
    if a == [] {
      assert a + b == b;
    } else {
      var s := a[0];
      RegisterAppend(a[1..], b, if s.kind !in m then m[s.location := Entry(s.kind, s.config)] else m);
      assert (a + b)[1..] == a[1..] + b;
    }
  }

  lemma {:induction false} FlattenStmtRegisters(s: Stmt, m: PathMap)
    ensures FlattenStmt(s, m) == RegisterAll(SitesOf(s), m)
    decreases s
  {
    hide KeyValue;
    if IsHandler(s) {
      assert forall x: Site :: [x][1..] == [];
    } else if s.block.Block? {
      FlattenRegisters(s.block.stmts, m);
    }
  }

  lemma {:induction false} FlattenRegisters(ss: seq<Stmt>, m: PathMap)
    ensures Flatten(ss, m) == RegisterAll(Sites(ss), m)
    decreases ss
  {
    hide KeyValue, FlattenStmt, SitesOf, RegisterAll;
    if ss == [] {
      RegisterNone(m);
    } else {
      FlattenStmtRegisters(ss[0], m);
      FlattenRegisters(ss[1..], FlattenStmt(ss[0], m));
      RegisterAppend(SitesOf(ss[0]), Sites(ss[1..]), m);
    }
  }

  lemma RegisterNone(m: PathMap)
    ensures RegisterAll([], m) == m
  {
  }

  // The table a reader of the configuration would expect: every site's location, the last
  // site of a location winning.
  function LastWins(sites: seq<Site>): PathMap {
    if sites == [] then map[]
    else
      var s := sites[|sites| - 1];
      LastWins(sites[..|sites| - 1])[s.location := Entry(s.kind, s.config)]
  }

  // The site at `i` is the last one for its location.
  predicate IsLastAt(sites: seq<Site>, i: nat, p: string) {
    && i < |sites|
    && sites[i].location == p
    && forall j :: i < j < |sites| ==> sites[j].location != p
  }

  lemma {:induction false} LastWinsIsLastWins(sites: seq<Site>, p: string)
    ensures p in LastWins(sites) <==> exists i :: 0 <= i < |sites| && sites[i].location == p
    ensures p in LastWins(sites) ==>
              exists i: nat :: IsLastAt(sites, i, p) && LastWins(sites)[p] == Entry(sites[i].kind, sites[i].config)
  {
    if sites == [] {
    } else {
      var n := |sites| - 1;
      var front := sites[..n];
      assert sites == front + [sites[n]];
      LastWinsIsLastWins(front, p);
      if sites[n].location == p {
        assert IsLastAt(sites, n, p);
      } else if p in LastWins(front) {
        var i: nat :| IsLastAt(front, i, p) && LastWins(front)[p] == Entry(front[i].kind, front[i].config);
        assert IsLastAt(sites, i, p);
      }
    }
  }

  // A handler's type is the location of an earlier handler.
  predicate Clash(sites: seq<Site>, i: nat, j: nat) {
    i < j < |sites| && sites[j].kind == sites[i].location
  }

  ghost predicate NoClash(sites: seq<Site>) {
    forall i: nat, j: nat :: !Clash(sites, i, j)
  }

  lemma {:induction false} NoClashRegisters(sites: seq<Site>)
    requires NoClash(sites)
    ensures RegisterAll(sites, map[]) == LastWins(sites)
  {
    if sites == [] {
    } else {
      var n := |sites| - 1;
      var front, s := sites[..n], sites[n];
      assert forall i: nat, j: nat :: Clash(front, i, j) ==> Clash(sites, i, j);
      NoClashRegisters(front);
      assert sites == front + [s];
      RegisterAppend(front, [s], map[]);
      assert [s][1..] == [];
      LastWinsIsLastWins(front, s.kind);
      forall i: nat | i < n ensures front[i].location != s.kind {
        assert !Clash(sites, i, n);
      }
    }
  }

  lemma {:induction false} FirstClash(sites: seq<Site>) returns (i: nat, j: nat)
    requires !NoClash(sites)
    ensures Clash(sites, i, j) && NoClash(sites[..j])
    decreases |sites|
  {
    var n := |sites| - 1;
    i, j :| Clash(sites, i, j);
    var front := sites[..n];
    if !NoClash(front) {
      i, j := FirstClash(front);
      assert front[..j] == sites[..j];
    } else {
      if j < n {
        assert Clash(front, i, j);
        assert false;
      }
    }
  }

  // The guard that drops the site at `j` is true when its turn comes.
  predicate DropsAt(sites: seq<Site>, j: nat) {
    j < |sites| && sites[j].kind in RegisterAll(sites[..j], map[])
  }

  // For any configuration, no handler is ever dropped exactly when no handler's type is
  // spelled like the location of an earlier one.
  lemma DropsOnlyOnClash(ss: seq<Stmt>)
    ensures (forall j: nat :: !DropsAt(Sites(ss), j)) <==> NoClash(Sites(ss))
  {
    hide Sites, RegisterAll;
    var sites := Sites(ss);
    if NoClash(sites) {
      forall j: nat | j < |sites| ensures !DropsAt(sites, j) {
        var front := sites[..j];
        forall i: nat, k: nat ensures !Clash(front, i, k) {
          assert !Clash(sites, i, k);
        }
        NoClashRegisters(front);
        LastWinsIsLastWins(front, sites[j].kind);
        forall i: nat | i < j ensures front[i].location != sites[j].kind {
          assert !Clash(sites, i, j);
        }
      }
    } else {
      var i, j := FirstClash(sites);
      NoClashRegisters(sites[..j]);
      LastWinsIsLastWins(sites[..j], sites[j].kind);
      assert sites[..j][i] == sites[i];
      assert DropsAt(sites, j);
    }
  }

  // Flattening finds exactly the handler blocks not nested in another one, the last one
  // winning a location, as long as no handler's type is spelled like an earlier location.
  lemma FlattenFindsTheSites(ss: seq<Stmt>)
    requires NoClash(Sites(ss))
    ensures PathsOf(ss) == LastWins(Sites(ss))
  {
    hide Sites, Flatten, RegisterAll, LastWins, NoClash;
    FlattenRegisters(ss, map[]);
    NoClashRegisters(Sites(ss));
  }

  // The site at `i` is the last one for its location that is not dropped.
  predicate IsLastKeptAt(sites: seq<Site>, i: nat, p: string) {
    && i < |sites|
    && sites[i].location == p && !DropsAt(sites, i)
    && forall j :: i < j < |sites| && sites[j].location == p ==> DropsAt(sites, j)
  }

  lemma RegisterSnoc(sites: seq<Site>)
    requires sites != []
    ensures var n := |sites| - 1;
            var front, s := RegisterAll(sites[..n], map[]), sites[n];
            RegisterAll(sites, map[]) == if DropsAt(sites, n) then front else front[s.location := Entry(s.kind, s.config)]
  {
    var n := |sites| - 1;
    assert sites == sites[..n] + [sites[n]];
    RegisterAppend(sites[..n], [sites[n]], map[]);
    assert [sites[n]][1..] == [];
  }

  lemma DropsAtFront(sites: seq<Site>, n: nat, j: nat)
    requires j < n <= |sites|
    ensures DropsAt(sites[..n], j) <==> DropsAt(sites, j)
  {
    assert sites[..n][..j] == sites[..j];
  }

  // The table that comes out: under each location the last site that was not dropped.
  lemma {:induction false} LastKeptWins(sites: seq<Site>, p: string)
    ensures p in RegisterAll(sites, map[]) <==> exists i: nat :: IsLastKeptAt(sites, i, p)
    ensures forall i: nat :: IsLastKeptAt(sites, i, p) ==>
              p in RegisterAll(sites, map[]) && RegisterAll(sites, map[])[p] == Entry(sites[i].kind, sites[i].config)
  {
    hide RegisterAll, DropsAt;
    if sites == [] {
      RegisterNone(map[]);
    } else {
      var n := |sites| - 1;
      var front := sites[..n];
      RegisterSnoc(sites);
      LastKeptWins(front, p);
      forall j: nat | j < n ensures DropsAt(front, j) <==> DropsAt(sites, j) {
        DropsAtFront(sites, n, j);
      }
      if sites[n].location == p && !DropsAt(sites, n) {
        assert IsLastKeptAt(sites, n, p);
      } else {
        assert forall i: nat :: IsLastKeptAt(front, i, p) <==> IsLastKeptAt(sites, i, p);
      }
    }
  }

  // For any configuration, flattening gives the table a reader would expect exactly when the
  // last site of every location is like the last one of that location that is not dropped.
  lemma FlattenFindsTheSitesIff(ss: seq<Stmt>)
    ensures var sites := Sites(ss);
            PathsOf(ss) == LastWins(sites) <==>
              forall i: nat, p :: IsLastAt(sites, i, p) ==>
                exists k: nat :: IsLastKeptAt(sites, k, p) && sites[k] == sites[i]
  {
    hide Sites, Flatten, RegisterAll, LastWins, DropsAt;
    var sites := Sites(ss);
    FlattenRegisters(ss, map[]);
    if PathsOf(ss) == LastWins(sites) {
      forall i: nat, p | IsLastAt(sites, i, p)
        ensures exists k: nat :: IsLastKeptAt(sites, k, p) && sites[k] == sites[i]
      {
        LastWinsIsLastWins(sites, p);
        LastKeptWins(sites, p);
      }
    }
    if forall i: nat, p :: IsLastAt(sites, i, p) ==>
         exists k: nat :: IsLastKeptAt(sites, k, p) && sites[k] == sites[i] {
      forall p ensures (p in PathsOf(ss) <==> p in LastWins(sites))
                       && (p in PathsOf(ss) ==> PathsOf(ss)[p] == LastWins(sites)[p])
      {
        LastWinsIsLastWins(sites, p);
        LastKeptWins(sites, p);
      }
    }
  }

  lemma SecondIsDropped(sites: seq<Site>)
    requires |sites| > 1 && sites[1].kind == sites[0].location
    ensures DropsAt(sites, 1)
  {
    var front := sites[..1];
    assert front[..0] == [] && front[1..] == [];
    assert RegisterAll(front, map[]) == map[front[0].location := Entry(front[0].kind, front[0].config)];
  }

  // When locations are distinct, that is exactly when no type is an earlier location.
  lemma DistinctSitesAreFoundIff(ss: seq<Stmt>)
    requires var sites := Sites(ss); forall i, j :: 0 <= i < j < |sites| ==> sites[i].location != sites[j].location
    ensures PathsOf(ss) == LastWins(Sites(ss)) <==> NoClash(Sites(ss))
  {
    hide Sites, PathsOf, LastWins, DropsAt, NoClash;
    var sites := Sites(ss);
    FlattenFindsTheSitesIff(ss);
    DropsOnlyOnClash(ss);
    if PathsOf(ss) == LastWins(sites) {
      forall j: nat | j < |sites| ensures !DropsAt(sites, j) {
        assert IsLastAt(sites, j, sites[j].location);
      }
      assert forall j: nat :: DropsAt(sites, j) ==> j < |sites| by { DropsInside(sites); }
    } else if NoClash(sites) {
      FlattenFindsTheSites(ss);
    }
  }

  lemma DropsInside(sites: seq<Site>)
    ensures forall j: nat :: DropsAt(sites, j) ==> j < |sites|
  {
  }

  // A configuration that loses a handler: the type of the second is the location of the first.
  lemma AHandlerCanBeLost()
    ensures var a := [Stmt(["location", "/a"], NoBlock)];
            var b := [Stmt(["location", "/b"], NoBlock)];
            var ss := [Stmt(["handler", "echo"], Block(a)), Stmt(["handler", "/a"], Block(b))];
            "/b" !in PathsOf(ss) && "/b" in LastWins(Sites(ss))
  {
    hide Flatten, LastWins, RegisterAll;
    var a := [Stmt(["location", "/a"], NoBlock)];
    var b := [Stmt(["location", "/b"], NoBlock)];
    var s, t := Stmt(["handler", "echo"], Block(a)), Stmt(["handler", "/a"], Block(b));
    var ss := [s, t];
    assert KeyValue(a, "location") == "/a" && KeyValue(b, "location") == "/b";
    assert ss[1..] == [t] && [t][1..] == [];
    var sites := Sites(ss);
    assert SitesOf(s) == [Site("echo", "/a", a)] && SitesOf(t) == [Site("/a", "/b", b)];
    assert Sites([t]) == SitesOf(t) + Sites([]);
    assert sites == [Site("echo", "/a", a), Site("/a", "/b", b)];
    FlattenRegisters(ss, map[]);
    SecondIsDropped(sites);
    LastKeptWins(sites, "/b");
    LastWinsIsLastWins(sites, "/b");
    assert sites[1].location == "/b";
  }
}
