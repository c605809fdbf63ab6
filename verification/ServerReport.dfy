// status_handler::HandleRequest: the report on the counters, and what its reader can rely on.
module ServerReport {
  import opened Basics
  import opened Text
  import opened ServerState
  import opened ServerCounters
  import opened ServerMemes
  import opened ServerRuns
  import HttpReply

  function UrlLine(path: string, n: int): string {
    "Number of requests received for " + path + ": " + HttpReply.IntText(n) + "\n"
  }

  function UrlLines(keys: seq<string>, urls: map<string, int>): string {
    if keys == [] then ""
    else
      var k := keys[|keys| - 1];
      UrlLines(keys[..|keys| - 1], urls) + UrlLine(k, Get(urls, k))
  }

  function CodeLine(code: int, n: int): string {
    "Number of " + HttpReply.IntText(code) + " responses sent: " + HttpReply.IntText(n) + "\n"
  }

  function CodeLines(keys: seq<int>, codes: map<int, int>): string {
    if keys == [] then ""
    else
      var k := keys[|keys| - 1];
      CodeLines(keys[..|keys| - 1], codes) + CodeLine(k, Get(codes, k))
  }

  function HandlerLine(kind: string, path: string): string {
    "A " + kind + " request handler exists for the path: " + path + "\n"
  }

  function HandlerLines(keys: seq<string>, kinds: map<string, string>): string
    requires forall k :: k in keys ==> k in kinds
  {
    if keys == [] then ""
    else
      var k := keys[|keys| - 1];
      HandlerLines(keys[..|keys| - 1], kinds) + HandlerLine(kinds[k], k)
  }

  // What a line says, digit by digit.
  lemma LinesSay(name: string, kind: string, code: nat, n: nat)
    ensures exists digits :: IsNumber(digits) && DecValue(digits) == n
              && UrlLine(name, n) == "Number of requests received for " + name + ": " + digits + "\n"
    ensures exists number, digits ::
              && IsNumber(number) && DecValue(number) == code && IsNumber(digits) && DecValue(digits) == n
              && CodeLine(code, n) == "Number of " + number + " responses sent: " + digits + "\n"
    ensures HandlerLine(kind, name) == "A " + kind + " request handler exists for the path: " + name + "\n"
  {
    hide Dec, DecValue;
    DecRoundTrip(n);
    DecRoundTrip(code);
    assert IsNumber(Dec(n)) && IsNumber(Dec(code));
  }

  method AddUp(keys: seq<string>, urls: map<string, int>) returns (total: int)
    requires Walks(keys, urls)
    ensures total == Total(keys, urls)
  {
    total := 0;
    for i := 0 to |keys|
      invariant total == Total(keys[..i], urls)
    {
      assert keys[..i + 1][..i] == keys[..i];
      total := total + urls[keys[i]];
    }
    assert keys[..|keys|] == keys;
  }

  method AddUrlLines(content: string, keys: seq<string>, urls: map<string, int>) returns (r: string)
    requires Walks(keys, urls)
    ensures r == content + UrlLines(keys, urls)
  {
    hide UrlLine;
    r := content;
    for i := 0 to |keys|
      invariant r == content + UrlLines(keys[..i], urls)
    {
      assert keys[..i + 1][..i] == keys[..i];
      var line := UrlLine(keys[i], urls[keys[i]]);
      assert UrlLines(keys[..i + 1], urls) == UrlLines(keys[..i], urls) + line;
      r := r + line;
    }
    assert keys[..|keys|] == keys;
  }

  method AddCodeLines(content: string, keys: seq<int>, codes: map<int, int>) returns (r: string)
    requires Walks(keys, codes)
    ensures r == content + CodeLines(keys, codes)
  {
    hide CodeLine;
    r := content;
    for i := 0 to |keys|
      invariant r == content + CodeLines(keys[..i], codes)
    {
      assert keys[..i + 1][..i] == keys[..i];
      var line := CodeLine(keys[i], codes[keys[i]]);
      assert CodeLines(keys[..i + 1], codes) == CodeLines(keys[..i], codes) + line;
      r := r + line;
    }
    assert keys[..|keys|] == keys;
  }

  method AddHandlerLines(content: string, keys: seq<string>, kinds: map<string, string>) returns (r: string)
    requires Walks(keys, kinds)
    ensures r == content + HandlerLines(keys, kinds)
  {
    hide HandlerLine;
    r := content;
    for i := 0 to |keys|
      invariant r == content + HandlerLines(keys[..i], kinds)
    {
      assert keys[..i + 1][..i] == keys[..i];
      var line := HandlerLine(kinds[keys[i]], keys[i]);
      assert HandlerLines(keys[..i + 1], kinds) == HandlerLines(keys[..i], kinds) + line;
      r := r + line;
    }
    assert keys[..|keys|] == keys;
  }

  // The whole report; `kinds` is the routing table with each location's handler type.
  method StatusReport(urls: map<string, int>, urlKeys: seq<string>, codes: map<int, int>, codeKeys: seq<int>,
                      kinds: map<string, string>, paths: seq<string>)
    returns (total: int, content: string)
    requires Walks(urlKeys, urls) && Walks(codeKeys, codes) && Walks(paths, kinds)
    ensures total == Total(urlKeys, urls)
    ensures content == "Total Number of Requests Received: " + HttpReply.IntText(total) + "\n\n"
                       + UrlLines(urlKeys, urls) + "\n" + CodeLines(codeKeys, codes) + "\n"
                       + HandlerLines(paths, kinds)
  {
    hide HttpReply.IntText, Total, UrlLines, CodeLines, HandlerLines;
    total := AddUp(urlKeys, urls);
    content := "Total Number of Requests Received: " + HttpReply.IntText(total) + "\n\n";
    content := AddUrlLines(content, urlKeys, urls);
    content := content + "\n";
    content := AddCodeLines(content, codeKeys, codes);
    content := content + "\n";
    content := AddHandlerLines(content, paths, kinds);
  }

  // A report made from a snapshot at any moment of any run: its total is the sum of its
  // per-path lines and the number of requests counted, none of which is the one being served;
  // the per-code lines add up to the same unless the snapshot fell between the two updates
  // of some other thread.
  lemma ReportIsConsistent(queues: seq<seq<Job>>, schedule: seq<nat>, t: nat, urlKeys: seq<string>, codeKeys: seq<int>)
    requires var s := Exec(Initial(queues), schedule);
             && t < |s.threads| && s.threads[t].pc.Handling?
             && Walks(urlKeys, s.urls) && Walks(codeKeys, s.codes)
    ensures var s := Exec(Initial(queues), schedule);
            var total := Total(urlKeys, s.urls);
            && total == |s.counted|
            && (total == Total(codeKeys, s.codes) <==> !SomeoneBetween(s))
            && (SomeoneBetween(s) ==> total == Total(codeKeys, s.codes) + 1)
            && Get(s.urls, "") == InvalidCount(s.counted)
            && multiset(s.counted) + Pending(s.threads) == Pending(Initial(queues).threads)
            && s.threads[t].pc.job in Pending(s.threads)
  {
    hide Exec, Pending, PendingOf, Total, IdsInv, InvalidCount, SomeoneBetween, LocksInv, CountersInv;
    var s := Exec(Initial(queues), schedule);
    EveryRunKeepsInv(queues, schedule);
    TotalsAgree(s, urlKeys, codeKeys);
    EmptyPathCountsInvalid(s);
    ExecConserves(Initial(queues), schedule);
    assert Initial(queues).counted == [];
    assert multiset{} + Pending(Initial(queues).threads) == Pending(Initial(queues).threads);
    HandHas(s.threads[t]);
    PendingHas(s.threads, s.threads[t].pc.job);
  }

  // ---------------------------------------------------------------------------
  // The handler reads the counters without the lock

  // What a pass over a counter map adds up: the key and the map are those of each read.
  function ReadSum<K>(maps: seq<map<K, int>>, keys: seq<K>): int
    requires |maps| == |keys|
  {
    if keys == [] then 0
    else ReadSum(maps[..|keys| - 1], keys[..|keys| - 1]) + Get(maps[|keys| - 1], keys[|keys| - 1])
  }

  ghost predicate IsDistinct<K(!new)>(keys: seq<K>) {
    forall i, j :: 0 <= i < j < |keys| ==> keys[i] != keys[j]
  }

  lemma {:induction false} ReadSumBounds<K(!new)>(maps: seq<map<K, int>>, keys: seq<K>, logs: seq<seq<K>>,
                                                  first: seq<K>, last: seq<K>)
    requires |maps| == |keys| == |logs|
    requires forall i :: 0 <= i < |keys| ==> IsTally(maps[i], logs[i])
    requires forall i :: 0 <= i < |keys| ==> multiset(first) <= multiset(logs[i]) <= multiset(last)
    ensures Mentions(keys, first) <= ReadSum(maps, keys) <= Mentions(keys, last)
    decreases |keys|
  {
    if keys != [] {
      var n := |keys| - 1;
      ReadSumBounds(maps[..n], keys[..n], logs[..n], first, last);
      assert IsTally(maps[n], logs[n]);
      assert Get(maps[n], keys[n]) == multiset(logs[n])[keys[n]];
    }
  }

  lemma {:induction false} MentionsAtMost<K(!new)>(keys: seq<K>, log: seq<K>)
    requires IsDistinct(keys)
    ensures Mentions(keys, log) <= |log|
    decreases |log|
  {
    if log == [] {
      MentionsNone(keys);
    } else {
      var front, x := log[..|log| - 1], log[|log| - 1];
      assert log == front + [x];
      MentionsAtMost(keys, front);
      MentionsSnoc(keys, front, x);
    }
  }

  // A pass that visits every key of the log it began with adds up to no less than that log and
  // no more than the log it ended with.
  lemma PassBounds<K(!new)>(maps: seq<map<K, int>>, keys: seq<K>, logs: seq<seq<K>>, first: seq<K>, last: seq<K>)
    requires |maps| == |keys| == |logs| && IsDistinct(keys)
    requires forall i :: 0 <= i < |keys| ==> IsTally(maps[i], logs[i])
    requires forall i :: 0 <= i < |keys| ==> multiset(first) <= multiset(logs[i]) <= multiset(last)
    requires forall x :: x in first ==> x in keys
    ensures |first| <= ReadSum(maps, keys) <= |last|
  {
    hide IsTally, Mentions, ReadSum;
    ReadSumBounds(maps, keys, logs, first, last);
    MentionsAll(keys, first);
    MentionsAtMost(keys, last);
  }

  // The states in which a pass reads: before each read the other threads have some turns.
  ghost function ReadStates(s: State, turns: seq<seq<nat>>): (states: seq<State>)
    ensures |states| == |turns|
    decreases |turns|
  {
    if turns == [] then []
    else
      var next := Exec(s, turns[0]);
      [next] + ReadStates(next, turns[1..])
  }

  ghost function PassEnd(s: State, turns: seq<seq<nat>>): State
    decreases |turns|
  {
    if turns == [] then s else PassEnd(Exec(s, turns[0]), turns[1..])
  }

  // Nothing counted is ever taken back.
  ghost predicate Grows(s: State, s': State) {
    s.counted <= s'.counted && s.codesCounted <= s'.codesCounted
  }

  lemma StepGrows(s: State, t: nat)
    requires t < |s.threads| && !Blocked(s, s.threads[t])
    ensures Grows(s, Step(s, t))
  {
    hide Step, NextPC, PathOf;
    StepCounters(s, t);
  }

  lemma {:induction false} ExecGrows(s: State, schedule: seq<nat>)
    ensures Grows(s, Exec(s, schedule))
    decreases |schedule|
  {
    hide Step, Blocked;
    if schedule != [] {
      var t := schedule[0];
      if t < |s.threads| && !Blocked(s, s.threads[t]) {
        StepGrows(s, t);
        ExecGrows(Step(s, t), schedule[1..]);
      } else {
        ExecGrows(s, schedule[1..]);
      }
    }
  }

  lemma {:induction false} PassGrows(s: State, turns: seq<seq<nat>>)
    requires Inv(s)
    ensures Inv(PassEnd(s, turns)) && Grows(s, PassEnd(s, turns))
    ensures forall i :: 0 <= i < |turns| ==>
              var r := ReadStates(s, turns)[i]; Inv(r) && Grows(s, r) && Grows(r, PassEnd(s, turns))
    decreases |turns|
  {
    hide Exec, Inv;
    if turns != [] {
      var next := Exec(s, turns[0]);
      ExecKeepsInv(s, turns[0]);
      ExecGrows(s, turns[0]);
      PassGrows(next, turns[1..]);
    }
  }

  // A pass over the url counter, which visits, once each, at least the keys there at its start.
  ghost predicate IsUrlPass(s: State, turns: seq<seq<nat>>, keys: seq<string>) {
    |turns| == |keys| && IsDistinct(keys) && forall k :: k in s.urls ==> k in keys
  }

  ghost predicate IsCodePass(s: State, turns: seq<seq<nat>>, keys: seq<int>) {
    |turns| == |keys| && IsDistinct(keys) && forall k :: k in s.codes ==> k in keys
  }

  // A pass over exactly the keys there at its start, in any order, with others at work or not.
  lemma WalksArePasses(s: State, turns: seq<seq<nat>>, urlKeys: seq<string>, codeKeys: seq<int>)
    ensures Walks(urlKeys, s.urls) && |turns| == |urlKeys| ==> IsUrlPass(s, turns, urlKeys)
    ensures Walks(codeKeys, s.codes) && |turns| == |codeKeys| ==> IsCodePass(s, turns, codeKeys)
  {
  }

  ghost function UrlSum(s: State, turns: seq<seq<nat>>, keys: seq<string>): int
    requires |turns| == |keys|
  {
    var states := ReadStates(s, turns);
    ReadSum(seq(|keys|, i requires 0 <= i < |keys| => states[i].urls), keys)
  }

  ghost function CodeSum(s: State, turns: seq<seq<nat>>, keys: seq<int>): int
    requires |turns| == |keys|
  {
    var states := ReadStates(s, turns);
    ReadSum(seq(|keys|, i requires 0 <= i < |keys| => states[i].codes), keys)
  }

  lemma PrefixCounts<T>(a: seq<T>, b: seq<T>)
    requires a <= b
    ensures multiset(a) <= multiset(b)
  {
    assert b == a + b[|a|..];
  }

  lemma UrlPassBounds(s: State, turns: seq<seq<nat>>, keys: seq<string>)
    requires Inv(s) && IsUrlPass(s, turns, keys)
    ensures |s.counted| <= UrlSum(s, turns, keys) <= |PassEnd(s, turns).counted|
  {
    hide PassEnd, ReadStates, LocksInv, IdsInv, LoadsInv, GapInv, PathOf, IsTally, ReadSum;
    var states, end := ReadStates(s, turns), PassEnd(s, turns);
    PassGrows(s, turns);
    var maps := seq(|keys|, i requires 0 <= i < |keys| => states[i].urls);
    var logs := seq(|keys|, i requires 0 <= i < |keys| => Paths(states[i].counted));
    forall i | 0 <= i < |keys|
      ensures IsTally(maps[i], logs[i]) && multiset(Paths(s.counted)) <= multiset(logs[i]) <= multiset(Paths(end.counted))
    {
      PrefixCounts(Paths(s.counted), logs[i]);
      PrefixCounts(logs[i], Paths(end.counted));
    }
    TalliedKeys(s.urls, Paths(s.counted));
    PassBounds(maps, keys, logs, Paths(s.counted), Paths(end.counted));
  }

  lemma CodePassBounds(s: State, turns: seq<seq<nat>>, keys: seq<int>)
    requires Inv(s) && IsCodePass(s, turns, keys)
    ensures |s.codesCounted| <= CodeSum(s, turns, keys) <= |PassEnd(s, turns).codesCounted|
  {
    hide PassEnd, ReadStates, LocksInv, IdsInv, LoadsInv, GapInv, IsTally, Paths, ReadSum;
    var states, end := ReadStates(s, turns), PassEnd(s, turns);
    PassGrows(s, turns);
    var maps := seq(|keys|, i requires 0 <= i < |keys| => states[i].codes);
    var logs := seq(|keys|, i requires 0 <= i < |keys| => states[i].codesCounted);
    forall i | 0 <= i < |keys|
      ensures IsTally(maps[i], logs[i]) && multiset(s.codesCounted) <= multiset(logs[i]) <= multiset(end.codesCounted)
    {
      PrefixCounts(s.codesCounted, logs[i]);
      PrefixCounts(logs[i], end.codesCounted);
    }
    assert IsTally(s.codes, s.codesCounted);
    TalliedKeys(s.codes, s.codesCounted);
    assert forall x :: x in s.codesCounted ==> x in keys;
    PassBounds(maps, keys, logs, s.codesCounted, end.codesCounted);
  }

  // The report as it is made: three passes, with other threads at work between any two reads
  // and new keys turning up behind the reader. Still the total of the first pass is never more
  // than the sum of the per-path lines of the second, which is at most one more than the sum of
  // the per-code lines of the third; the first and the last are bounded by what was counted at
  // the start and at the end; and all agree when nothing was counted meanwhile and nobody was
  // between its updates when the third pass began.
  lemma TornReportIsOrdered(queues: seq<seq<Job>>, before: seq<nat>,
                            turns1: seq<seq<nat>>, keys1: seq<string>, turns2: seq<seq<nat>>, keys2: seq<string>,
                            turns3: seq<seq<nat>>, codeKeys: seq<int>)
    requires var s0 := Exec(Initial(queues), before);
             var s1 := PassEnd(s0, turns1);
             var s2 := PassEnd(s1, turns2);
             IsUrlPass(s0, turns1, keys1) && IsUrlPass(s1, turns2, keys2) && IsCodePass(s2, turns3, codeKeys)
    ensures var s0 := Exec(Initial(queues), before);
            var s1 := PassEnd(s0, turns1);
            var s2 := PassEnd(s1, turns2);
            var s3 := PassEnd(s2, turns3);
            var total, lines := UrlSum(s0, turns1, keys1), UrlSum(s1, turns2, keys2);
            var codes := CodeSum(s2, turns3, codeKeys);
            && |s0.counted| <= total <= lines <= codes + 1
            && codes <= |s3.counted|
            && (|s3.counted| == |s0.counted| && !SomeoneBetween(s2) ==> total == lines == codes)
  {
    hide Exec, Initial, PassEnd, UrlSum, CodeSum, LocksInv, IdsInv, CountsInv, LoadsInv, SomeoneBetween;
    var s0 := Exec(Initial(queues), before);
    EveryRunKeepsInv(queues, before);
    UrlPassBounds(s0, turns1, keys1);
    PassGrows(s0, turns1);
    var s1 := PassEnd(s0, turns1);
    UrlPassBounds(s1, turns2, keys2);
    PassGrows(s1, turns2);
    var s2 := PassEnd(s1, turns2);
    CodePassBounds(s2, turns3, codeKeys);
    PassGrows(s2, turns3);
  }
}
