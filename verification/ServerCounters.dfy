// The url and code counters: exact in every interleaving.
module ServerCounters {
  import opened Basics
  import opened Text
  import opened HttpRequest
  import opened ServerState

  ghost function Paths(jobs: seq<Job>): (ps: seq<string>)
    ensures |ps| == |jobs| && forall i :: 0 <= i < |jobs| ==> ps[i] == PathOf(jobs[i])
  {
    seq(|jobs|, i requires 0 <= i < |jobs| => PathOf(jobs[i]))
  }

  // Between the two updates of handle_read: counted by url, not yet by code.
  predicate IsBetween(pc: PC) { pc.CodeInit? || pc.CodeLoad? || pc.CodeStore? }

  ghost predicate SomeoneBetween(s: State) {
    exists t: nat :: t < |s.threads| && IsBetween(s.threads[t].pc)
  }

  // Every key's count is the number of its occurrences in the log.
  ghost predicate IsTally<K(!new)>(m: map<K, int>, log: seq<K>) {
    forall k :: Get(m, k) == multiset(log)[k]
  }

  lemma TallySnoc<K(!new)>(m: map<K, int>, log: seq<K>, k: K)
    requires IsTally(m, log)
    ensures IsTally(m[k := Get(m, k) + 1], log + [k])
  {
  }

  lemma TallyInit<K(!new)>(m: map<K, int>, log: seq<K>, k: K)
    requires IsTally(m, log) && k !in m
    ensures IsTally(m[k := 0], log)
  {
    forall j ensures Get(m[k := 0], j) == multiset(log)[j] {
      assert Get(m, j) == multiset(log)[j];
    }
  }

  ghost predicate CountsInv(s: State) {
    IsTally(s.urls, Paths(s.counted)) && IsTally(s.codes, s.codesCounted)
  }

  // A value loaded from a counter is still the counter's value when it is stored back.
  ghost predicate LoadsInv(s: State) {
    forall t: nat :: t < |s.threads| ==> LoadIsFresh(s, s.threads[t].pc)
  }

  ghost predicate LoadIsFresh(s: State, pc: PC) {
    && (pc.UrlStore? ==> pc.n == Get(s.urls, PathOf(pc.job)))
    && (pc.CodeStore? ==> pc.n == Get(s.codes, pc.code))
  }

  ghost predicate GapInv(s: State) {
    |s.counted| == |s.codesCounted| + if SomeoneBetween(s) then 1 else 0
  }

  ghost predicate CountersInv(s: State) {
    CountsInv(s) && LoadsInv(s) && GapInv(s)
  }

  // ---------------------------------------------------------------------------
  // Every step keeps the counters exact

  lemma StepCounters(s: State, t: nat)
    requires t < |s.threads| && !Blocked(s, s.threads[t])
    ensures var s', n := Step(s, t), NextCounters(s, s.threads[t].pc);
            s'.urls == n.urls && s'.codes == n.codes && s'.counted == n.counted && s'.codesCounted == n.codesCounted
  {
    hide NextPC, NextHeld, NextAnswered, NextMtx, NextIdLock, NextQueue, NextCounters, NextMemes, Blocked;
    var pc := s.threads[t].pc;
    MemesKeepCounters(NextCounters(s, pc), pc);
  }

  // Nothing done to the table touches a counter.
  lemma MemesKeepCounters(s: State, pc: PC)
    ensures var n := NextMemes(s, pc);
            n.urls == s.urls && n.codes == s.codes && n.counted == s.counted && n.codesCounted == s.codesCounted
  {
    hide Dec, QueryTable, QueryDeleted, QueryWrites, InsertFails, IsModelled, SqlRow;
  }

  lemma PathsSnoc(jobs: seq<Job>, j: Job)
    ensures Paths(jobs + [j]) == Paths(jobs) + [PathOf(j)]
  {
    hide PathOf;
  }

  lemma NextKeepsCounts(s: State, pc: PC)
    requires CountsInv(s) && LoadIsFresh(s, pc)
    ensures CountsInv(NextCounters(s, pc))
  {
    hide PathOf, Paths, IsTally;
    match pc
    case UrlInit(j, _) =>
      if PathOf(j) !in s.urls { TallyInit(s.urls, Paths(s.counted), PathOf(j)); }
    case UrlStore(j, _, n) =>
      PathsSnoc(s.counted, j);
      TallySnoc(s.urls, Paths(s.counted), PathOf(j));
    case CodeInit(c) =>
      if c !in s.codes { TallyInit(s.codes, s.codesCounted, c); }
    case CodeStore(c, n) =>
      TallySnoc(s.codes, s.codesCounted, c);
    case _ =>
  }

  // Only a holder of mtx changes a counter, so nobody else's load can go stale.
  lemma StepKeepsLoads(s: State, t: nat, u: nat)
    requires LocksInv(s) && LoadsInv(s)
    requires t < |s.threads| && u < |s.threads| && !Blocked(s, s.threads[t])
    ensures LoadIsFresh(Step(s, t), Step(s, t).threads[u].pc)
  {
    hide PathOf, IsValid, Dec, QueryCode, InsertCode, QueryTable, QueryDeleted, LocksInv;
    StepLocks(s, t);
    StepCounters(s, t);
    LocksExclude(s, t, u);
    assert LoadIsFresh(s, s.threads[u].pc);
  }

  lemma PcGap(s: State, t: nat)
    requires t < |s.threads| && !Blocked(s, s.threads[t])
    ensures var pc, pc', n := s.threads[t].pc, NextPC(s, t), NextCounters(s, s.threads[t].pc);
            && |n.counted| - |s.counted| == (if pc.UrlStore? then 1 else 0)
            && |n.codesCounted| - |s.codesCounted| == (if pc.CodeStore? then 1 else 0)
            && (IsBetween(pc') <==> pc.UrlStore? || (IsBetween(pc) && !pc.CodeStore?))
            && (pc.UrlStore? || IsBetween(pc) ==> HoldsMtx(pc))
            && (pc.UrlStore? ==> !IsBetween(pc)) && (pc.CodeStore? ==> IsBetween(pc))
  {
    hide PathOf, IsValid, Dec, QueryCode, InsertCode, Get;
  }

  lemma BetweenHolds(pc: PC)
    requires IsBetween(pc)
    ensures HoldsMtx(pc)
  {
  }

  lemma StepKeepsGap(s: State, t: nat)
    requires LocksInv(s) && GapInv(s)
    requires t < |s.threads| && !Blocked(s, s.threads[t])
    ensures GapInv(Step(s, t))
  {
    hide Step, NextPC, NextCounters, LocksInv, IsBetween, HoldsMtx, HoldsId, Blocked;
    var s', pc, pc' := Step(s, t), s.threads[t].pc, NextPC(s, t);
    StepLocks(s, t);
    StepCounters(s, t);
    PcGap(s, t);
    assert s'.threads[t].pc == pc';
    assert forall u: nat :: u < |s.threads| && u != t ==> s'.threads[u] == s.threads[u];
    if HoldsMtx(pc) {
      BetweenIsUnique(s, t);
      assert SomeoneBetween(s') <==> IsBetween(pc');
    } else {
      assert !IsBetween(pc) && !IsBetween(pc');
      SameBetween(s, s', t);
    }
  }

  lemma SameBetween(s: State, s': State, t: nat)
    requires |s.threads| == |s'.threads| && t < |s.threads|
    requires !IsBetween(s.threads[t].pc) && !IsBetween(s'.threads[t].pc)
    requires forall u: nat :: u < |s.threads| && u != t ==> s'.threads[u] == s.threads[u]
    ensures SomeoneBetween(s) <==> SomeoneBetween(s')
  {
    hide IsBetween;
    if SomeoneBetween(s) {
      var u: nat :| u < |s.threads| && IsBetween(s.threads[u].pc);
      assert IsBetween(s'.threads[u].pc);
    }
    if SomeoneBetween(s') {
      var u: nat :| u < |s'.threads| && IsBetween(s'.threads[u].pc);
      assert IsBetween(s.threads[u].pc);
    }
  }

  // A holder of mtx is the only thread that can be between the updates.
  lemma BetweenIsUnique(s: State, t: nat)
    requires LocksInv(s) && t < |s.threads| && HoldsMtx(s.threads[t].pc)
    ensures SomeoneBetween(s) <==> IsBetween(s.threads[t].pc)
    ensures forall u: nat :: u < |s.threads| && u != t ==> !IsBetween(s.threads[u].pc)
  {
    hide LocksInv, IsBetween, HoldsMtx, HoldsId;
    forall u: nat | u < |s.threads| && IsBetween(s.threads[u].pc) ensures u == t {
      BetweenHolds(s.threads[u].pc);
      LocksExclude(s, t, u);
    }
  }

  lemma StepKeepsCounters(s: State, t: nat)
    requires LocksInv(s) && CountersInv(s)
    requires t < |s.threads| && !Blocked(s, s.threads[t])
    ensures CountersInv(Step(s, t))
  {
    hide Step, NextPC, NextCounters, LocksInv, GapInv, LoadIsFresh, Blocked;
    var s' := Step(s, t);
    StepCounters(s, t);
    NextKeepsCounts(s, s.threads[t].pc);
    StepKeepsGap(s, t);
    forall u: nat | u < |s'.threads| ensures LoadIsFresh(s', s'.threads[u].pc) {
      StepLocks(s, t);
      StepKeepsLoads(s, t, u);
    }
  }

  // ---------------------------------------------------------------------------
  // What the counters add up to

  // The total of the counts under `keys`, as the status handler adds them up.
  function Total<K>(keys: seq<K>, m: map<K, int>): int {
    if keys == [] then 0 else Total(keys[..|keys| - 1], m) + Get(m, keys[|keys| - 1])
  }

  // How often `log` mentions the keys.
  function Mentions<K(==)>(keys: seq<K>, log: seq<K>): nat {
    if keys == [] then 0 else Mentions(keys[..|keys| - 1], log) + multiset(log)[keys[|keys| - 1]]
  }

  lemma {:induction false} MentionsNone<K>(keys: seq<K>)
    ensures Mentions(keys, []) == 0
  {
    if keys != [] {
      MentionsNone(keys[..|keys| - 1]);
    }
  }

  lemma {:induction false} MentionsSnoc<K>(keys: seq<K>, log: seq<K>, x: K)
    requires forall i, j :: 0 <= i < j < |keys| ==> keys[i] != keys[j]
    ensures Mentions(keys, log + [x]) == Mentions(keys, log) + if x in keys then 1 else 0
  {
    if keys != [] {
      var front, k := keys[..|keys| - 1], keys[|keys| - 1];
      assert keys == front + [k];
      MentionsSnoc(front, log, x);
    }
  }

  lemma {:induction false} MentionsAll<K>(keys: seq<K>, log: seq<K>)
    requires forall i, j :: 0 <= i < j < |keys| ==> keys[i] != keys[j]
    requires forall x :: x in log ==> x in keys
    ensures Mentions(keys, log) == |log|
    decreases |log|
  {
    if log == [] {
      MentionsNone(keys);
    } else {
      var front, x := log[..|log| - 1], log[|log| - 1];
      assert log == front + [x];
      MentionsAll(keys, front);
      MentionsSnoc(keys, front, x);
    }
  }

  lemma {:induction false} TotalIsMentions<K(!new)>(keys: seq<K>, m: map<K, int>, log: seq<K>)
    requires IsTally(m, log)
    ensures Total(keys, m) == Mentions(keys, log)
  {
    if keys != [] {
      TotalIsMentions(keys[..|keys| - 1], m, log);
    }
  }

  lemma TotalIsLength<K(!new)>(keys: seq<K>, m: map<K, int>, log: seq<K>)
    requires Walks(keys, m) && IsTally(m, log)
    ensures Total(keys, m) == |log|
  {
    hide Total, Mentions;
    TotalIsMentions(keys, m, log);
    TalliedKeys(m, log);
    MentionsAll(keys, log);
  }

  lemma TalliedKeys<K(!new)>(m: map<K, int>, log: seq<K>)
    requires IsTally(m, log)
    ensures forall x :: x in log ==> x in m
  {
    forall x | x in log ensures x in m {
      assert multiset(log)[x] > 0;
      assert Get(m, x) > 0;
    }
  }

  // The url counts add up to the requests counted; so do the code counts, except that they
  // are one short exactly while some thread is between the two updates. When mtx is free,
  // nobody is.
  lemma TotalsAgree(s: State, urlKeys: seq<string>, codeKeys: seq<int>)
    requires LocksInv(s) && CountersInv(s)
    requires Walks(urlKeys, s.urls) && Walks(codeKeys, s.codes)
    ensures Total(urlKeys, s.urls) == |s.counted|
    ensures Total(codeKeys, s.codes) == |s.codesCounted|
    ensures Total(urlKeys, s.urls) - Total(codeKeys, s.codes) == if SomeoneBetween(s) then 1 else 0
    ensures s.mtx.None? ==> Total(urlKeys, s.urls) == Total(codeKeys, s.codes)
  {
    hide Total, Paths, LoadsInv, IsTally;
    TotalIsLength(urlKeys, s.urls, Paths(s.counted));
    TotalIsLength(codeKeys, s.codes, s.codesCounted);
    PathsLength(s.counted);
    if SomeoneBetween(s) {
      var t: nat :| t < |s.threads| && IsBetween(s.threads[t].pc);
      BetweenHolds(s.threads[t].pc);
      LockHolders(s, t);
    }
  }

  lemma PathsLength(jobs: seq<Job>)
    ensures |Paths(jobs)| == |jobs|
  {
  }

  // ---------------------------------------------------------------------------
  // Invalid requests

  ghost function InvalidCount(jobs: seq<Job>): nat {
    if jobs == [] then 0
    else InvalidCount(jobs[..|jobs| - 1]) + if IsValid(jobs[|jobs| - 1]) then 0 else 1
  }

  lemma {:induction false} EmptyPathsAreInvalid(jobs: seq<Job>)
    ensures multiset(Paths(jobs))[""] == InvalidCount(jobs)
  {
    hide ParseRequest, Paths;
    if jobs == [] {
      PathsLength(jobs);
    } else {
      var front, j := jobs[..|jobs| - 1], jobs[|jobs| - 1];
      assert jobs == front + [j];
      EmptyPathsAreInvalid(front);
      PathsSnoc(front, j);
      EmptyPathMeansInvalid(j.text);
    }
  }

  // The count under the empty path is the number of invalid requests counted.
  lemma EmptyPathCountsInvalid(s: State)
    requires CountersInv(s)
    ensures Get(s.urls, "") == InvalidCount(s.counted)
  {
    hide Paths, InvalidCount, LoadsInv, GapInv;
    EmptyPathsAreInvalid(s.counted);
  }
}
