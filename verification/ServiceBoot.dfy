/**
 Dependency-ordered service start: passes over the table until every service is settled or a pass
 makes no progress. The result does not depend on the order of the passes.
 */
module ServiceBoot {

  datatype Entry = Entry(name: string, after: string, used: bool, up: bool, supervisor: int)

  datatype Status = Waiting | Up | Dropped

  type Table = seq<Entry>

  function Now(e: Entry): Status {
    if !e.used then Dropped else if e.up then Up else Waiting
  }

  /** What the supervisor calls for each entry return. */
  datatype Kernel = Kernel(create: nat -> int, add: nat -> int, start: nat -> int)

  predicate Starts(k: Kernel, i: nat) {
    k.create(i) >= 0 && k.add(i) >= 0 && k.start(i) > 0
  }

  // ---- Looking up a name ----

  /** The first used entry of that name from `i` on, or -1. */
  function Find(t: Table, name: string, i: nat): (r: int)
    requires i <= |t|
    ensures -1 <= r < |t|
    ensures r >= 0 ==> i <= r && t[r].used && t[r].name == name
    ensures forall j :: i <= j < (if r >= 0 then r else |t|) ==> !(t[j].used && t[j].name == name)
    decreases |t| - i
  {
    if i == |t| then -1 else if t[i].used && t[i].name == name then i else Find(t, name, i + 1)
  }

  /** Nothing holds entry `i` back: no dependency, an unknown one, or one that is up. */
  predicate Ready(t: Table, i: nat)
    requires i < |t|
  {
    t[i].after == "" || var d := Find(t, t[i].after, 0); d < 0 || t[d].up
  }

  /** What becomes of entry `i` once it is ready. */
  function Settled(t: Table, k: Kernel, i: nat): Entry
    requires i < |t|
  {
    if t[i].after != "" && Find(t, t[i].after, 0) < 0 then t[i].(used := false)
    else if Starts(k, i) then t[i].(up := true, supervisor := k.create(i))
    else t[i].(used := false)
  }

  // ---- Waiting entries are counted ----

  function Pending(t: Table): nat {
    if t == [] then 0 else (if Now(t[0]) == Waiting then 1 else 0) + Pending(t[1..])
  }

  lemma {:induction false} PendingLess(t: Table, i: nat, e: Entry)
    requires i < |t| && Now(t[i]) == Waiting && Now(e) != Waiting
    ensures Pending(t[i := e]) == Pending(t) - 1
    decreases |t|
  {
    if i > 0 {
      PendingLess(t[1..], i - 1, e);
      assert t[i := e][1..] == t[1..][i - 1 := e];
    } else {
      assert t[i := e][1..] == t[1..];
    }
  }

  lemma {:induction false} PendingAll(t: Table)
    ensures Pending(t) <= |t|
    ensures Pending(t) == |t| <==> forall i :: 0 <= i < |t| ==> Now(t[i]) == Waiting
    ensures Pending(t) == 0 <==> forall i :: 0 <= i < |t| ==> Now(t[i]) != Waiting
    decreases |t|
  {
    if t != [] {
      PendingAll(t[1..]);
      assert forall i :: 0 < i < |t| ==> t[i] == t[1..][i - 1];
      assert forall i :: 0 <= i < |t| - 1 ==> t[1..][i] == t[i + 1];
    }
  }

  // ---- One entry is settled ----

  /** Entry `i` was waiting and ready and is settled now; nothing else changed. */
  ghost predicate Step(t: Table, t': Table, k: Kernel, i: nat) {
    i < |t| && Now(t[i]) == Waiting && Ready(t, i) && t' == t[i := Settled(t, k, i)]
  }

  lemma StepPending(t: Table, t': Table, k: Kernel, i: nat)
    requires Step(t, t', k, i)
    ensures Pending(t') == Pending(t) - 1 && Now(t'[i]) != Waiting
  {
    PendingLess(t, i, Settled(t, k, i));
  }

  /** Names and dependencies never change. */
  ghost predicate SameNames(t: Table, t': Table) {
    |t| == |t'| && forall i :: 0 <= i < |t| ==> t[i].name == t'[i].name && t[i].after == t'[i].after
  }

  // ---- Start order ----

  ghost predicate Before(t: Table, log: seq<nat>, k: nat, name: string) {
    exists m :: 0 <= m < k && m < |log| && log[m] < |t| && t[log[m]].name == name
  }

  ghost predicate OnlyUp(t: Table, log: seq<nat>) {
    forall k :: 0 <= k < |log| ==> log[k] < |t| && Now(t[log[k]]) == Up
  }

  ghost predicate AllUp(t: Table, log: seq<nat>) {
    forall i :: 0 <= i < |t| && Now(t[i]) == Up ==> i in log
  }

  ghost predicate Once(log: seq<nat>) {
    forall k, m :: 0 <= k < m < |log| ==> log[k] != log[m]
  }

  ghost predicate AfterAt(t: Table, log: seq<nat>, k: nat)
    requires k < |log|
  {
    log[k] < |t| && (t[log[k]].after == "" || Before(t, log, k, t[log[k]].after))
  }

  /** `log` is the order of the starts: each up entry once, its dependency earlier. */
  ghost predicate Ordered(t: Table, log: seq<nat>) {
    OnlyUp(t, log) && AllUp(t, log) && Once(log) && forall k :: 0 <= k < |log| ==> AfterAt(t, log, k)
  }

  lemma BeforeKept(t: Table, t': Table, log: seq<nat>, log': seq<nat>, k: nat, name: string)
    requires Before(t, log, k, name) && SameNames(t, t') && log <= log'
    ensures Before(t', log', k, name)
  {
    var m :| 0 <= m < k && m < |log| && log[m] < |t| && t[log[m]].name == name;
    assert log'[m] == log[m];
  }

  lemma StepNames(t: Table, t': Table, k: Kernel, i: nat)
    requires Step(t, t', k, i)
    ensures SameNames(t, t') && (forall j :: 0 <= j < |t| && j != i ==> t'[j] == t[j])
    ensures Now(t'[i]) == Up ==> t[i].after == "" || var d := Find(t, t[i].after, 0); d >= 0 && Now(t[d]) == Up
  {
  }

  /** The dependency of the entry started last is in the log. */
  lemma LastBefore(t: Table, t': Table, log: seq<nat>, i: nat)
    requires Ordered(t, log) && SameNames(t, t') && i < |t| && t[i].after != ""
    requires var d := Find(t, t[i].after, 0); d >= 0 && Now(t[d]) == Up
    ensures Before(t', log + [i], |log|, t'[i].after)
  {
    var d, r := Find(t, t[i].after, 0), log + [i];
    var n :| 0 <= n < |log| && log[n] == d;
    assert r[n] == d && t'[r[n]].name == t'[i].after;
  }

  lemma StepBefore(t: Table, t': Table, k: Kernel, i: nat, log: seq<nat>, log': seq<nat>, m: nat)
    requires Step(t, t', k, i) && Ordered(t, log) && log' == (if Now(t'[i]) == Up then log + [i] else log) && m < |log'|
    ensures AfterAt(t', log', m)
  {
    StepNames(t, t', k, i);
    assert m < |log| ==> AfterAt(t, log, m) && log'[m] == log[m];
    hide Step, Now, Before, Ordered;
    if m < |log| {
      if t[log[m]].after != "" {
        BeforeKept(t, t', log, log', m, t[log[m]].after);
      }
    } else if t[i].after != "" {
      LastBefore(t, t', log, i);
    }
  }

  lemma MoreUp(t: Table, t': Table, i: nat, log: seq<nat>)
    requires OnlyUp(t, log) && AllUp(t, log) && Once(log) && |t'| == |t| && i < |t| && Now(t[i]) == Waiting && Now(t'[i]) == Up
    requires forall j :: 0 <= j < |t| && j != i ==> t'[j] == t[j]
    ensures OnlyUp(t', log + [i]) && AllUp(t', log + [i]) && Once(log + [i])
  {
    var r := log + [i];
    assert r[|log|] == i;
    assert forall m :: 0 <= m < |log| ==> r[m] == log[m] && log[m] != i;
    forall j | 0 <= j < |t'| && Now(t'[j]) == Up ensures j in r {
      assert j != i ==> j in log;
    }
  }

  lemma SameUp(t: Table, t': Table, i: nat, log: seq<nat>)
    requires OnlyUp(t, log) && AllUp(t, log) && |t'| == |t| && i < |t| && Now(t[i]) == Waiting && Now(t'[i]) != Up
    requires forall j :: 0 <= j < |t| && j != i ==> t'[j] == t[j]
    ensures OnlyUp(t', log) && AllUp(t', log)
  {
  }

  lemma StepOrdered(t: Table, t': Table, k: Kernel, i: nat, log: seq<nat>)
    requires Step(t, t', k, i) && Ordered(t, log)
    ensures Ordered(t', if Now(t'[i]) == Up then log + [i] else log)
  {
    StepNames(t, t', k, i);
    var log' := if Now(t'[i]) == Up then log + [i] else log;
    hide AfterAt, OnlyUp, AllUp, Once, Now;
    forall m | 0 <= m < |log'| ensures AfterAt(t', log', m) {
      StepBefore(t, t', k, i, log, log', m);
    }
    if Now(t'[i]) == Up {
      MoreUp(t, t', i, log);
    } else {
      SameUp(t, t', i, log);
    }
  }

  // ---- Entries that can never be ready ----

  /** Every entry of the set depends on an entry of the set: chains of dependencies never leave it. */
  ghost predicate Closed(t: Table, s: set<nat>) {
    forall i :: i in s ==> i < |t| && t[i].after != "" && Find(t, t[i].after, 0) in s
  }

  ghost predicate AllWaiting(t: Table, s: set<nat>) {
    forall i :: i in s ==> i < |t| && Now(t[i]) == Waiting
  }

  /** The first entry of a name stays the one that is found as long as it is used. */
  lemma FindKept(t0: Table, t: Table, name: string)
    requires SameNames(t0, t) && (forall i :: 0 <= i < |t0| ==> t0[i].used)
    requires var d := Find(t0, name, 0); d >= 0 && t[d].used
    ensures Find(t, name, 0) == Find(t0, name, 0)
  {
    var d, r := Find(t0, name, 0), Find(t, name, 0);
    assert t[d].name == name;
  }

  lemma StepWaiting(t0: Table, t: Table, t': Table, k: Kernel, i: nat, s: set<nat>)
    requires (forall j :: 0 <= j < |t0| ==> t0[j].used) && SameNames(t0, t)
    requires Closed(t0, s) && AllWaiting(t, s) && Step(t, t', k, i)
    ensures AllWaiting(t', s)
  {
    if i in s {
      var d := Find(t0, t0[i].after, 0);
      assert d in s && Now(t[d]) == Waiting;
      FindKept(t0, t, t[i].after);
    }
  }

  // ---- What the result must be, from the configuration alone ----

  /** The fate of entry `i`, following at most `n` dependencies. */
  function Fate(t0: Table, k: Kernel, i: nat, n: nat): Status
    requires i < |t0|
    decreases n, 0
  {
    var own := if Starts(k, i) then Up else Dropped;
    if n == 0 then Waiting
    else if t0[i].after == "" then own
    else
      var dep := Choice(t0, k, t0[i].after, 0, n - 1);
      if dep == Up then own else dep
  }

  /** The fate of a dependency: that of the first entry of the name, from `j` on, that is not dropped. */
  function Choice(t0: Table, k: Kernel, name: string, j: nat, n: nat): Status
    requires j <= |t0|
    decreases n, |t0| - j + 1
  {
    if j == |t0| then Dropped
    else if t0[j].name == name && Fate(t0, k, j, n) != Dropped then Fate(t0, k, j, n)
    else Choice(t0, k, name, j + 1, n)
  }

  lemma {:induction false} FateGrows(t0: Table, k: Kernel, i: nat, n: nat)
    requires i < |t0| && Fate(t0, k, i, n) != Waiting
    ensures Fate(t0, k, i, n + 1) == Fate(t0, k, i, n)
    decreases n, 0
  {
    if t0[i].after != "" {
      ChoiceGrows(t0, k, t0[i].after, 0, n - 1);
    }
  }

  lemma {:induction false} ChoiceGrows(t0: Table, k: Kernel, name: string, j: nat, n: nat)
    requires j <= |t0| && Choice(t0, k, name, j, n) != Waiting
    ensures Choice(t0, k, name, j, n + 1) == Choice(t0, k, name, j, n)
    decreases n, |t0| - j + 1
  {
    if j < |t0| {
      if t0[j].name == name {
        FateGrows(t0, k, j, n);
      }
      if t0[j].name != name || Fate(t0, k, j, n) == Dropped {
        ChoiceGrows(t0, k, name, j + 1, n);
      }
    }
  }

  /** Every settled entry met its fate within `n` dependencies. */
  ghost predicate Fated(t0: Table, t: Table, k: Kernel, n: nat)
    requires |t| == |t0|
  {
    forall i :: 0 <= i < |t| && Now(t[i]) != Waiting ==> Fate(t0, k, i, n) == Now(t[i])
  }

  /** What is found in the table now agrees with the choice, unless the entry found still waits. */
  lemma {:induction false} ChoiceFound(t0: Table, t: Table, k: Kernel, name: string, j: nat, n: nat)
    requires SameNames(t0, t) && Fated(t0, t, k, n) && j <= |t|
    ensures var d := Find(t, name, j);
      if d < 0 then Choice(t0, k, name, j, n) == Dropped
      else Now(t[d]) == Up ==> Choice(t0, k, name, j, n) == Up
    decreases |t| - j
  {
    hide Fate;
    if j < |t| && !(t[j].used && t[j].name == name) {
      ChoiceFound(t0, t, k, name, j + 1, n);
    }
  }

  lemma StepFate(t0: Table, t: Table, t': Table, k: Kernel, i: nat, n: nat)
    requires SameNames(t0, t) && Step(t, t', k, i) && Fated(t0, t, k, n)
    ensures Fate(t0, k, i, n + 1) == Now(t'[i])
  {
    hide Find, Choice, Fated;
    if t[i].after != "" {
      ChoiceFound(t0, t, k, t[i].after, 0, n);
      FindUsed(t, t[i].after);
    }
  }

  lemma FindUsed(t: Table, name: string)
    ensures var d := Find(t, name, 0); d >= 0 ==> t[d].used
  {
  }

  lemma StepFated(t0: Table, t: Table, t': Table, k: Kernel, i: nat, n: nat)
    requires SameNames(t0, t) && Step(t, t', k, i) && Fated(t0, t, k, n)
    ensures Fated(t0, t', k, n + 1)
  {
    StepFate(t0, t, t', k, i, n);
    StepNames(t, t', k, i);
    hide Fate, Step;
    forall j | 0 <= j < |t'| && Now(t'[j]) != Waiting ensures Fate(t0, k, j, n + 1) == Now(t'[j]) {
      if j != i {
        FateGrows(t0, k, j, n);
      }
    }
  }

  // ---- When no entry is ready any more ----

  /** Entry `i` depends on an entry that waits itself. */
  predicate Blocked(t: Table, i: nat)
    requires i < |t|
  {
    t[i].after != "" && var d := Find(t, t[i].after, 0); d >= 0 && Now(t[d]) == Waiting
  }

  ghost predicate Stuck(t: Table) {
    forall i :: 0 <= i < |t| && Now(t[i]) == Waiting ==> Blocked(t, i)
  }

  lemma {:induction false} FateStays(t0: Table, k: Kernel, i: nat, n: nat, m: nat)
    requires i < |t0| && n <= m && Fate(t0, k, i, n) != Waiting
    ensures Fate(t0, k, i, m) == Fate(t0, k, i, n)
    decreases m - n
  {
    if n < m {
      FateGrows(t0, k, i, n);
      FateStays(t0, k, i, n + 1, m);
    }
  }

  /** An entry that waits at the end waits at every depth. */
  lemma {:induction false} StuckFate(t0: Table, t: Table, k: Kernel, i: nat, n: nat, m: nat)
    requires SameNames(t0, t) && Stuck(t) && Fated(t0, t, k, m) && i < |t| && Now(t[i]) == Waiting
    ensures Fate(t0, k, i, n) == Waiting
    decreases n, 0
  {
    if n > 0 {
      assert Blocked(t, i);
      StuckChoice(t0, t, k, t[i].after, 0, n - 1, m);
    }
  }

  lemma {:induction false} StuckChoice(t0: Table, t: Table, k: Kernel, name: string, j: nat, n: nat, m: nat)
    requires SameNames(t0, t) && Stuck(t) && Fated(t0, t, k, m) && j <= |t|
    requires var d := Find(t, name, j); d >= 0 && Now(t[d]) == Waiting
    ensures Choice(t0, k, name, j, n) == Waiting
    decreases n, |t| - j + 1
  {
    if t[j].used && t[j].name == name {
      StuckFate(t0, t, k, j, n, m);
    } else {
      StuckChoice(t0, t, k, name, j + 1, n, m);
      if t[j].name == name {
        NeverOther(t0, t, k, j, n, m);
      }
    }
  }

  /** At no depth does an entry have another fate than the one it met. */
  lemma NeverOther(t0: Table, t: Table, k: Kernel, j: nat, n: nat, m: nat)
    requires |t| == |t0| && Fated(t0, t, k, m) && j < |t| && Now(t[j]) != Waiting
    ensures Fate(t0, k, j, n) == Waiting || Fate(t0, k, j, n) == Now(t[j])
  {
    if Fate(t0, k, j, n) != Waiting {
      if n <= m {
        FateStays(t0, k, j, n, m);
      } else {
        FateStays(t0, k, j, m, n);
      }
    }
  }

  /** The outcome of every entry follows from the configuration and the kernel's answers alone. */
  lemma Decided(t0: Table, t: Table, k: Kernel, n: nat, i: nat)
    requires SameNames(t0, t) && Stuck(t) && Fated(t0, t, k, n) && n <= |t0| && i < |t0|
    ensures Now(t[i]) == Fate(t0, k, i, |t0|)
  {
    if Now(t[i]) == Waiting {
      StuckFate(t0, t, k, i, |t0|, n);
    } else {
      FateStays(t0, k, i, n, |t0|);
    }
  }

  // ---- Chains of waiting entries run into a cycle ----

  /** The first `n` entries of the chain of dependencies from `i`. */
  function Chain(t: Table, i: nat, n: nat): (c: seq<nat>)
    requires i < |t|
    ensures |c| <= n
    decreases n
  {
    if n == 0 then []
    else if t[i].after == "" || Find(t, t[i].after, 0) < 0 then [i]
    else [i] + Chain(t, Find(t, t[i].after, 0), n - 1)
  }

  lemma {:induction false} ChainWaits(t: Table, i: nat, n: nat)
    requires Stuck(t) && i < |t| && Now(t[i]) == Waiting
    ensures |Chain(t, i, n)| == n && forall j :: 0 <= j < n ==> Chain(t, i, n)[j] < |t| && Now(t[Chain(t, i, n)[j]]) == Waiting
    decreases n
  {
    if n > 0 {
      ChainWaits(t, Find(t, t[i].after, 0), n - 1);
    }
  }

  /** More values than places: some place is taken twice. */
  lemma {:induction false} Pigeonhole(c: seq<nat>, n: nat)
    requires |c| > n && forall j :: 0 <= j < |c| ==> c[j] < n
    ensures exists a, b :: 0 <= a < b < |c| && c[a] == c[b]
    decreases n
  {
    var last := |c| - 1;
    assert c[last] < n;
    if a :| 0 <= a < last && c[a] == c[last] {
    } else {
      var x := c[last];
      var r := seq(last, j requires 0 <= j < last => if c[j] == n - 1 then x else c[j]);
      assert forall j :: 0 <= j < |r| ==> r[j] < n - 1 by {
        forall j | 0 <= j < |r| ensures r[j] < n - 1 {
          assert c[j] < n && c[j] != x && x < n;
        }
      }
      Pigeonhole(r, n - 1);
      var a, b :| 0 <= a < b < |r| && r[a] == r[b];
      assert c[a] == c[b];
    }
  }

  /** Following dependencies from an entry still waiting comes back to an entry met before. */
  lemma RunsIntoCycle(t: Table, i: nat)
    requires Stuck(t) && i < |t| && Now(t[i]) == Waiting
    ensures var c := Chain(t, i, |t| + 1);
      && |c| == |t| + 1 && (forall j :: 0 <= j < |c| ==> c[j] < |t| && Now(t[c[j]]) == Waiting)
      && exists a, b :: 0 <= a < b < |c| && c[a] == c[b]
  {
    ChainWaits(t, i, |t| + 1);
    Pigeonhole(Chain(t, i, |t| + 1), |t|);
  }

  // ---- The passes ----

  /** Every entry registered and none started. */
  ghost predicate Fresh(t: Table) {
    forall i :: 0 <= i < |t| ==> t[i].used && !t[i].up
  }

  /** An entry is up only if each of the three calls succeeded for it, and carries the supervisor's number. */
  ghost predicate RightlyUp(t: Table, k: Kernel, i: nat)
    requires i < |t|
  {
    t[i].used && t[i].up ==> k.create(i) >= 0 && k.add(i) >= 0 && k.start(i) > 0 && t[i].supervisor == k.create(i)
  }

  /** An entry is dropped only if one of the calls failed for it, or no entry of its dependency's name is left. */
  ghost predicate RightlyDropped(t: Table, k: Kernel, i: nat)
    requires i < |t|
  {
    !t[i].used ==>
      || k.create(i) < 0 || k.add(i) < 0 || k.start(i) <= 0
      || (t[i].after != "" && forall j :: 0 <= j < |t| ==> !(t[j].used && t[j].name == t[i].after))
  }

  ghost predicate Answered(t: Table, k: Kernel) {
    forall i: nat :: i < |t| ==> RightlyUp(t, k, i) && RightlyDropped(t, k, i)
  }

  lemma StepAnswered(t: Table, t': Table, k: Kernel, i: nat)
    requires Answered(t, k) && Step(t, t', k, i)
    ensures Answered(t', k)
  {
    forall j: nat | j < |t'| ensures RightlyUp(t', k, j) && RightlyDropped(t', k, j) {
      assert RightlyUp(t, k, j) && RightlyDropped(t, k, j);
      if j == i && !t'[i].used && Starts(k, i) {
        assert Find(t, t[i].after, 0) < 0;
      }
    }
  }

  /** What holds between any two entries of any pass. */
  ghost predicate Sound(t0: Table, t: Table, k: Kernel, log: seq<nat>, started: nat) {
    && Fresh(t0) && SameNames(t0, t) && Ordered(t, log)
    && started + Pending(t) == |t|
    && (forall s :: Closed(t0, s) ==> AllWaiting(t, s))
    && Fated(t0, t, k, started) && Answered(t, k)
  }

  lemma AllDone(t: Table, started: nat)
    requires started + Pending(t) == |t|
    ensures started == |t| ==> Stuck(t)
  {
    PendingAll(t);
  }

  lemma SoundFresh(t: Table, k: Kernel)
    requires Fresh(t)
    ensures Sound(t, t, k, [], 0)
  {
    PendingAll(t);
    forall s | Closed(t, s) ensures AllWaiting(t, s) {
    }
  }

  lemma SameNamesTrans(a: Table, b: Table, c: Table)
    requires SameNames(a, b) && SameNames(b, c)
    ensures SameNames(a, c)
  {
  }

  lemma StepAllWaiting(t0: Table, t: Table, t': Table, k: Kernel, i: nat)
    requires (forall j :: 0 <= j < |t0| ==> t0[j].used) && SameNames(t0, t) && Step(t, t', k, i)
    requires forall s :: Closed(t0, s) ==> AllWaiting(t, s)
    ensures forall s :: Closed(t0, s) ==> AllWaiting(t', s)
  {
    hide Step, Closed, AllWaiting, SameNames;
    forall s | Closed(t0, s) ensures AllWaiting(t', s) {
      StepWaiting(t0, t, t', k, i, s);
    }
  }

  lemma FreshUsed(t: Table)
    requires Fresh(t)
    ensures forall i :: 0 <= i < |t| ==> t[i].used
  {
  }

  lemma SoundStep(t0: Table, t: Table, t': Table, k: Kernel, log: seq<nat>, started: nat, i: nat)
    requires Sound(t0, t, k, log, started) && Step(t, t', k, i)
    ensures Sound(t0, t', k, if Now(t'[i]) == Up then log + [i] else log, started + 1)
  {
    StepNames(t, t', k, i);
    StepPending(t, t', k, i);
    SameNamesTrans(t0, t, t');
    FreshUsed(t0);
    hide Step, Ordered, Fated, Pending, Closed, AllWaiting, Fresh, Now, SameNames, Answered;
    StepAnswered(t, t', k, i);
    StepOrdered(t, t', k, i, log);
    StepAllWaiting(t0, t, t', k, i);
    StepFated(t0, t, t', k, i, started);
  }

  class Services {
    var table: Table
    ghost var log: seq<nat>

    constructor (t: Table)
      ensures table == t && log == []
    {
      table, log := t, [];
    }

    method FindService(name: string) returns (r: int)
      ensures r == Find(table, name, 0)
    {
      ghost var all := Find(table, name, 0);
      for i := 0 to |table|
        invariant all == Find(table, name, i)
      {
        if table[i].used && table[i].name == name {
          return i;
        }
      }
      return -1;
    }

    /** Starts one service through its supervisor; -1 if any of the calls fails. */
    method StartOne(k: Kernel, i: nat) returns (sid: int)
      requires i < |table|
      modifies this`table
      ensures sid >= 0 <==> k.create(i) >= 0 && k.add(i) >= 0 && k.start(i) > 0
      ensures sid < 0 ==> table == old(table)
      ensures sid >= 0 ==> sid == k.create(i) && table == old(table)[i := old(table)[i].(up := true, supervisor := sid)]
    {
      sid := k.create(i);
      if sid < 0 {
        return -1;
      }
      if k.add(i) < 0 {
        return -1;
      }
      if k.start(i) <= 0 {
        return -1;
      }
      table := table[i := table[i].(supervisor := sid)];
      table := table[i := table[i].(up := true)];
    }

    /** One entry of a pass: settled if it is ready, otherwise left for the next pass. */
    method Visit(k: Kernel, i: nat) returns (progress: bool)
      requires i < |table|
      modifies this`table
      ensures progress <==> Now(old(table)[i]) == Waiting && Ready(old(table), i)
      ensures if progress then Step(old(table), table, k, i) else table == old(table)
    {
      if !table[i].used || table[i].up {
        return false;
      }
      if table[i].after != "" {
        var dep := FindService(table[i].after);
        if dep < 0 {
          table := table[i := table[i].(used := false)];
          return true;
        }
        if !table[dep].up {
          return false;
        }
      }
      var sid := StartOne(k, i);
      if sid < 0 {
        table := table[i := table[i].(used := false)];
      }
      return true;
    }

    /** One pass; without progress the table is as before and every waiting entry is blocked. */
    method RunPass(k: Kernel, started: nat, ghost t0: Table) returns (now: nat)
      requires Sound(t0, table, k, log, started)
      modifies this
      ensures Sound(t0, table, k, log, now) && now >= started
      ensures now == started ==> Stuck(table)
    {
      hide Sound, Step, Find;
      now := started;
      ghost var was := table;
      for i := 0 to |table|
        invariant |table| == |was| && Sound(t0, table, k, log, now) && now >= started
        invariant now == started ==> table == was && forall j :: 0 <= j < i && Now(was[j]) == Waiting ==> !Ready(was, j)
      {
        ghost var t := table;
        var progress := Visit(k, i);
        if progress {
          SoundStep(t0, t, table, k, log, now, i);
          StepNames(t, table, k, i);
          log := if Now(table[i]) == Up then log + [i] else log;
          now := now + 1;
        }
      }
    }

    /**
     Starts every service whose dependencies come up. What is left waiting depends on what is left
     waiting, whatever fails to start.
     */
    method Boot(k: Kernel) returns (started: nat)
      requires Fresh(table)
      modifies this
      ensures SameNames(old(table), table) && started + Pending(table) == |table|
      ensures Ordered(table, log) && Stuck(table)
      ensures forall i: nat :: i < |table| ==> RightlyUp(table, k, i) && RightlyDropped(table, k, i)
      ensures forall s :: Closed(old(table), s) ==> AllWaiting(table, s)
      ensures forall i: nat :: i < |table| ==> Now(table[i]) == Fate(old(table), k, i, |table|)
    {
      ghost var t0 := table;
      hide Closed, AllWaiting, Fated, Ordered, Fate, Stuck, RightlyUp, RightlyDropped;
      SoundFresh(t0, k);
      log := [];
      started := 0;
      var last := -1;
      while started < |table|
        invariant Sound(t0, table, k, log, started) && last <= started
        invariant started == last ==> Stuck(table)
        decreases |table| - started, last < started
      {
        if started == last {
          break;
        }
        last := started;
        started := RunPass(k, started, t0);
        assert started <= |table|;
      }
      AllDone(table, started);
      forall i: nat | i < |table| ensures Now(table[i]) == Fate(t0, k, i, |table|) {
        Decided(t0, table, k, started, i);
      }
    }
  }
}
