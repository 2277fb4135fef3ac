/**
 The futex mutex as an interleaving protocol over any number of threads. Every transition is one
 atomic action on the shared lock word: compare-and-swap, exchange, decrement, store, or a futex
 call, which compares and sleeps (or wakes) atomically. Wake-ups may be spurious.
 */
module Mutex {

  /**
   Where a thread stands: not using the mutex; about to exchange 2 into the word; about to call
   futex_wait; asleep in it; holding the lock; past its decrement and about to store 0; about to
   call futex_wake.
   */
  datatype Pc = Idle | Exchanging | Waiting | Asleep | Holding | Storing | Waking

  datatype State = State(word: nat, pc: seq<Pc>)

  datatype Step =
    | Lock(i: nat)
    | TryLock(i: nat)
    | Exchange(i: nat)
    | Wait(i: nat)
    | Spurious(i: nat)
    | Decrement(i: nat)
    | Store(i: nat)
    | Wake(i: nat, j: nat)
    | WakeNone(i: nat)

  predicate Enabled(s: State, a: Step) {
    && a.i < |s.pc|
    && match a
       case Lock(i) => s.pc[i].Idle?
       case TryLock(i) => s.pc[i].Idle?
       case Exchange(i) => s.pc[i].Exchanging?
       case Wait(i) => s.pc[i].Waiting?
       case Spurious(i) => s.pc[i].Asleep?
       case Decrement(i) => s.pc[i].Holding?
       case Store(i) => s.pc[i].Storing?
       case Wake(i, j) => s.pc[i].Waking? && j < |s.pc| && s.pc[j].Asleep?
       case WakeNone(i) => s.pc[i].Waking? && forall j :: 0 <= j < |s.pc| ==> !s.pc[j].Asleep?
  }

  function Do(s: State, a: Step): (s': State)
    requires Enabled(s, a)
    ensures |s'.pc| == |s.pc|
  {
    match a
    case Lock(i) =>
      // compare-and-swap 0 -> 1; a word that is already 2 is not exchanged before waiting
      if s.word == 0 then State(1, s.pc[i := Holding])
      else State(s.word, s.pc[i := if s.word == 2 then Waiting else Exchanging])
    case TryLock(i) => if s.word == 0 then State(1, s.pc[i := Holding]) else s
    case Exchange(i) => State(2, s.pc[i := if s.word == 0 then Holding else Waiting])
    case Wait(i) => State(s.word, s.pc[i := if s.word == 2 then Asleep else Exchanging])
    case Spurious(i) => State(s.word, s.pc[i := Exchanging])
    case Decrement(i) => State(if s.word == 0 then 0xFFFF_FFFF else s.word - 1, s.pc[i := if s.word == 1 then Idle else Storing])
    case Store(i) => State(0, s.pc[i := Waking])
    case Wake(i, j) => State(s.word, s.pc[i := Idle][j := Exchanging])
    case WakeNone(i) => State(s.word, s.pc[i := Idle])
  }

  function Start(n: nat): State {
    State(0, seq(n, _ => Idle))
  }

  ghost predicate CanRun(s: State, run: seq<Step>)
    decreases |run|
  {
    run == [] || (Enabled(s, run[0]) && CanRun(Do(s, run[0]), run[1..]))
  }

  ghost function End(s: State, run: seq<Step>): (s': State)
    requires CanRun(s, run)
    ensures |s'.pc| == |s.pc|
    decreases |run|
  {
    if run == [] then s else End(Do(s, run[0]), run[1..])
  }

  // ---- What every step keeps ----

  /** The thread holds the lock or has not yet made its final store. */
  predicate Owner(p: Pc) {
    p.Holding? || p.Storing?
  }

  predicate Is(s: State, i: nat, p: Pc) {
    i < |s.pc| && s.pc[i] == p
  }

  ghost predicate Some(s: State, p: Pc) {
    exists i: nat :: Is(s, i, p)
  }

  /** At most one owner, and the word is 0 exactly when there is none. */
  ghost predicate Exclusive(s: State) {
    && s.word <= 2
    && (forall i, j :: 0 <= i < j < |s.pc| ==> !(Owner(s.pc[i]) && Owner(s.pc[j])))
    && (s.word == 0 <==> forall i :: 0 <= i < |s.pc| ==> !Owner(s.pc[i]))
  }

  /** Someone will see the sleepers: a holder that must notice the 2, a waker under way, or a thread about to write 2. */
  ghost predicate Attended(s: State) {
    || (s.word == 2 && Some(s, Holding))
    || Some(s, Storing) || Some(s, Waking) || Some(s, Exchanging)
  }

  ghost predicate Inv(s: State) {
    Exclusive(s) && (Some(s, Asleep) ==> Attended(s))
  }

  lemma StepExclusive(s: State, a: Step)
    requires Exclusive(s) && Enabled(s, a)
    ensures Exclusive(Do(s, a))
  {
    var s' := Do(s, a);
    assert s.word != 0 ==> exists i :: 0 <= i < |s.pc| && Owner(s.pc[i]);
    assert s'.word == 0 || Owner(s'.pc[a.i]) || exists i :: 0 <= i < |s'.pc| && i != a.i && Owner(s'.pc[i]) && s'.pc[i] == s.pc[i];
  }

  lemma StepAttended(s: State, a: Step)
    requires Inv(s) && Enabled(s, a) && Some(Do(s, a), Asleep)
    ensures Attended(Do(s, a))
  {
    var s' := Do(s, a);
    assert Is(s', a.i, s'.pc[a.i]);
    match a
    case Wait(i) =>
      // it fell asleep: the word is 2, so an owner exists
      if s.word == 2 {
        var k :| 0 <= k < |s.pc| && Owner(s.pc[k]);
        assert Is(s', k, s.pc[k]);
      }
    case Exchange(i) =>
      if s.word != 0 {
        var k :| 0 <= k < |s.pc| && Owner(s.pc[k]);
        assert Is(s', k, s.pc[k]);
      }
    case Wake(i, j) =>
      assert Is(s', j, Exchanging);
    case _ =>
      StillAsleep(s, a);
      OtherAttended(s, a);
  }

  lemma StillAsleep(s: State, a: Step)
    requires Enabled(s, a) && !a.Wait? && Some(Do(s, a), Asleep)
    ensures Some(s, Asleep)
  {
    var k: nat :| Is(Do(s, a), k, Asleep);
    assert Is(s, k, Asleep);
  }

  /** The steps of a thread that does not join or leave the queue of waiters. */
  lemma OtherAttended(s: State, a: Step)
    requires Inv(s) && Attended(s) && Enabled(s, a) && !a.Wait? && !a.Exchange? && !a.Wake?
    requires Some(Do(s, a), Asleep) && Some(s, Asleep)
    ensures Attended(Do(s, a))
  {
    var s' := Do(s, a);
    assert Is(s', a.i, s'.pc[a.i]);
    if !a.Spurious? && !a.Store? && !(a.Decrement? && s.word == 2) {
      assert !a.WakeNone? by {
        var k: nat :| Is(s, k, Asleep);
      }
      var p := if Some(s, Storing) then Storing else if Some(s, Waking) then Waking
               else if Some(s, Exchanging) then Exchanging else Holding;
      var k: nat :| Is(s, k, p);
      assert Is(s', k, p) || (a.Decrement? && p == Holding);
    }
  }

  lemma StepInv(s: State, a: Step)
    requires Inv(s) && Enabled(s, a)
    ensures Inv(Do(s, a))
  {
    StepExclusive(s, a);
    if Some(Do(s, a), Asleep) {
      StepAttended(s, a);
    }
  }

  lemma {:induction false} RunInv(s: State, run: seq<Step>)
    requires Inv(s) && CanRun(s, run)
    ensures Inv(End(s, run))
    decreases |run|
  {
    if run != [] {
      StepInv(s, run[0]);
      RunInv(Do(s, run[0]), run[1..]);
    }
  }

  // ---- Over every run of any number of threads ----

  lemma Reaches(n: nat, run: seq<Step>)
    requires CanRun(Start(n), run)
    ensures Inv(End(Start(n), run))
  {
    assert forall i :: 0 <= i < n ==> Start(n).pc[i] == Idle;
    RunInv(Start(n), run);
  }

  /** The lock word is 0 exactly when no thread is an owner, and two threads never are. */
  lemma MutualExclusion(n: nat, run: seq<Step>, i: nat, j: nat)
    requires CanRun(Start(n), run) && i < n && j < n
    ensures var s := End(Start(n), run);
      && (Owner(s.pc[i]) && Owner(s.pc[j]) ==> i == j)
      && (s.word == 0 <==> forall k :: 0 <= k < n ==> !Owner(s.pc[k]))
  {
    Reaches(n, run);
  }

  /** Whenever a thread sleeps, some thread is bound to notice. */
  lemma NoLostWakeup(n: nat, run: seq<Step>, i: nat)
    requires CanRun(Start(n), run) && i < n && End(Start(n), run).pc[i] == Asleep
    ensures Attended(End(Start(n), run))
  {
    Reaches(n, run);
    assert Is(End(Start(n), run), i, Asleep);
  }

  /** When every thread is idle or asleep, none is asleep and the lock is free. */
  lemma QuietMeansFree(n: nat, run: seq<Step>)
    requires CanRun(Start(n), run)
    requires forall i :: 0 <= i < n ==> End(Start(n), run).pc[i] in {Idle, Asleep}
    ensures End(Start(n), run) == Start(n)
  {
    Reaches(n, run);
    var s := End(Start(n), run);
    assert !Attended(s);
    forall i | 0 <= i < n ensures s.pc[i] == Idle {
      assert Is(s, i, s.pc[i]);
    }
    assert s.pc == Start(n).pc;
  }

  // ---- A sleeper can always be reached ----

  /** The run moves only threads other than `v`, wakes nobody spuriously, and `v` is awake after it. */
  ghost predicate Frees(s: State, v: nat, run: seq<Step>) {
    && CanRun(s, run) && v < |s.pc| && End(s, run).pc[v] == Exchanging
    && (forall k :: 0 <= k < |run| ==> run[k].i != v && !run[k].Spurious?)
  }

  lemma Prepend(s: State, v: nat, a: Step, run: seq<Step>)
    requires Enabled(s, a) && a.i != v && !a.Spurious? && Frees(Do(s, a), v, run)
    ensures Frees(s, v, [a] + run)
  {
    assert ([a] + run)[1..] == run;
  }

  lemma FreeFromWaking(s: State, v: nat, k: nat) returns (run: seq<Step>)
    requires Is(s, v, Asleep) && Is(s, k, Waking)
    ensures Frees(s, v, run) && |run| == 1
  {
    run := [Wake(k, v)];
    assert run[1..] == [];
  }

  lemma FreeFromStoring(s: State, v: nat, k: nat) returns (run: seq<Step>)
    requires Is(s, v, Asleep) && Is(s, k, Storing)
    ensures Frees(s, v, run) && |run| == 2
  {
    run := FreeFromWaking(Do(s, Store(k)), v, k);
    Prepend(s, v, Store(k), run);
    run := [Store(k)] + run;
  }

  lemma FreeFromHolding(s: State, v: nat, k: nat) returns (run: seq<Step>)
    requires Is(s, v, Asleep) && Is(s, k, Holding) && s.word == 2
    ensures Frees(s, v, run) && |run| == 3
  {
    run := FreeFromStoring(Do(s, Decrement(k)), v, k);
    Prepend(s, v, Decrement(k), run);
    run := [Decrement(k)] + run;
  }

  lemma FreeFromExchanging(s: State, v: nat, k: nat) returns (run: seq<Step>)
    requires Exclusive(s) && Is(s, v, Asleep) && Is(s, k, Exchanging)
    ensures Frees(s, v, run) && |run| <= 4
  {
    var s' := Do(s, Exchange(k));
    var o: nat := k;
    if s.word != 0 {
      o :| 0 <= o < |s.pc| && Owner(s.pc[o]);
    }
    if Is(s', o, Holding) {
      run := FreeFromHolding(s', v, o);
    } else {
      run := FreeFromStoring(s', v, o);
    }
    Prepend(s, v, Exchange(k), run);
    run := [Exchange(k)] + run;
  }

  /** In every reachable state any sleeper can be woken by at most four steps of the other threads. */
  lemma SleeperCanWake(n: nat, run: seq<Step>, v: nat) returns (more: seq<Step>)
    requires CanRun(Start(n), run) && v < n && End(Start(n), run).pc[v] == Asleep
    ensures Frees(End(Start(n), run), v, more) && |more| <= 4
  {
    NoLostWakeup(n, run, v);
    Reaches(n, run);
    var s := End(Start(n), run);
    var k: nat;
    if Some(s, Waking) {
      k :| Is(s, k, Waking);
      more := FreeFromWaking(s, v, k);
    } else if Some(s, Storing) {
      k :| Is(s, k, Storing);
      more := FreeFromStoring(s, v, k);
    } else if Some(s, Exchanging) {
      k :| Is(s, k, Exchanging);
      more := FreeFromExchanging(s, v, k);
    } else {
      k :| Is(s, k, Holding);
      more := FreeFromHolding(s, v, k);
    }
  }

  // ---- What the calls do ----

  lemma OneStep(s: State, a: Step)
    requires Enabled(s, a)
    ensures CanRun(s, [a]) && End(s, [a]) == Do(s, a)
  {
    assert [a][1..] == [];
  }

  lemma TwoSteps(s: State, a: Step, b: Step)
    requires Enabled(s, a) && Enabled(Do(s, a), b)
    ensures CanRun(s, [a, b]) && End(s, [a, b]) == Do(Do(s, a), b)
  {
    assert [a, b][1..] == [b];
    OneStep(Do(s, a), b);
  }

  /** On a free lock both calls make the thread its owner, and an unlock straight after restores the state. */
  lemma Uncontended(s: State, i: nat, a: Step)
    requires Is(s, i, Idle) && s.word == 0 && a in {Lock(i), TryLock(i)}
    ensures var s' := Do(s, a); Owner(s'.pc[i]) && s'.word == 1 && forall j :: 0 <= j < |s.pc| && j != i ==> s'.pc[j] == s.pc[j]
    ensures CanRun(s, [a, Decrement(i)]) && End(s, [a, Decrement(i)]) == s
  {
    TwoSteps(s, a, Decrement(i));
    assert Do(Do(s, a), Decrement(i)).pc == s.pc;
  }

  /** On a taken lock `umutex_trylock` changes nothing, and `umutex_lock` leaves the word alone and waits its turn. */
  lemma Contended(s: State, i: nat)
    requires Is(s, i, Idle) && s.word != 0
    ensures Do(s, TryLock(i)) == s
    ensures var s' := Do(s, Lock(i)); s'.word == s.word && !Owner(s'.pc[i]) && s'.pc[i] != Idle
  {
  }

  /** A thread sleeps exactly when the word is still 2 as it calls the kernel, and it acts on the word before it owns the lock. */
  lemma WaitSleeps(s: State, i: nat)
    requires Is(s, i, Waiting)
    ensures Do(s, Wait(i)).word == s.word
    ensures Is(Do(s, Wait(i)), i, Asleep) <==> s.word == 2
    ensures Is(Do(s, Wait(i)), i, Exchanging) <==> s.word != 2
  {
  }

  /** A wake-up moves one sleeper, and only the waker beside it; the word stays. */
  lemma WakesOne(s: State, i: nat, j: nat)
    requires Is(s, i, Waking) && Is(s, j, Asleep)
    ensures var s' := Do(s, Wake(i, j));
      s'.word == s.word && Is(s', i, Idle) && Is(s', j, Exchanging) && forall k: nat :: k < |s.pc| && k != i && k != j ==> s'.pc[k] == s.pc[k]
  {
  }

  // ---- Every thread that asks can get the lock ----

  lemma {:induction false} RunConcat(s: State, a: seq<Step>, b: seq<Step>)
    requires CanRun(s, a) && CanRun(End(s, a), b)
    ensures CanRun(s, a + b) && End(s, a + b) == End(End(s, a), b)
    decreases |a|
  {
    if a == [] {
      assert a + b == b;
    } else {
      assert (a + b)[0] == a[0] && (a + b)[1..] == a[1..] + b;
      RunConcat(Do(s, a[0]), a[1..], b);
    }
  }

  /** The run wakes nobody spuriously and leaves `v` in `umutex_lock` as it was, with the lock free. */
  ghost predicate Releases(s: State, v: nat, run: seq<Step>) {
    && CanRun(s, run) && v < |s.pc| && End(s, run).pc[v] == s.pc[v] && End(s, run).word == 0
    && |run| <= 2 && forall k :: 0 <= k < |run| ==> !run[k].Spurious?
  }

  /** An owner gives the lock up in one or two steps of its own. */
  lemma OwnerReleases(s: State, v: nat) returns (run: seq<Step>)
    requires Exclusive(s) && v < |s.pc| && !Owner(s.pc[v])
    ensures Releases(s, v, run)
  {
    run := [];
    if s.word != 0 {
      var k: nat :| k < |s.pc| && Owner(s.pc[k]);
      if s.pc[k].Holding? && s.word == 2 {
        TwoSteps(s, Decrement(k), Store(k));
        run := [Decrement(k), Store(k)];
      } else {
        var a := if s.pc[k].Holding? then Decrement(k) else Store(k);
        OneStep(s, a);
        run := [a];
      }
    }
  }

  /** The run brings `v` to hold the lock without a spurious wake-up. */
  ghost predicate Acquires(s: State, v: nat, run: seq<Step>) {
    && CanRun(s, run) && v < |s.pc| && End(s, run).pc[v] == Holding
    && forall k :: 0 <= k < |run| ==> !run[k].Spurious?
  }

  lemma ThenAcquires(s: State, v: nat, a: seq<Step>, b: seq<Step>)
    requires CanRun(s, a) && (forall k :: 0 <= k < |a| ==> !a[k].Spurious?) && Acquires(End(s, a), v, b)
    ensures Acquires(s, v, a + b)
  {
    RunConcat(s, a, b);
  }

  /** Once the lock is free a thread that is awake takes it. */
  lemma TakeFree(s: State, v: nat) returns (run: seq<Step>)
    requires v < |s.pc| && s.pc[v] in {Idle, Exchanging, Waiting} && s.word == 0
    ensures Acquires(s, v, run) && |run| <= (if s.pc[v].Waiting? then 2 else 1)
  {
    if s.pc[v].Waiting? {
      TwoSteps(s, Wait(v), Exchange(v));
      run := [Wait(v), Exchange(v)];
    } else {
      var a := if s.pc[v].Idle? then Lock(v) else Exchange(v);
      OneStep(s, a);
      run := [a];
    }
  }

  lemma TakeAwake(s: State, v: nat) returns (run: seq<Step>)
    requires Exclusive(s) && v < |s.pc| && s.pc[v] in {Idle, Exchanging, Waiting}
    ensures Acquires(s, v, run) && |run| <= (if s.pc[v].Waiting? then 4 else 3)
  {
    var a := OwnerReleases(s, v);
    var b := TakeFree(End(s, a), v);
    ThenAcquires(s, v, a, b);
    run := a + b;
  }

  /**
   In every reachable state any thread that is about to lock, or anywhere inside `umutex_lock`, can
   be brought to hold the lock in at most seven steps without a spurious wake-up.
   */
  lemma CanAcquire(n: nat, run: seq<Step>, v: nat) returns (more: seq<Step>)
    requires CanRun(Start(n), run) && v < n && End(Start(n), run).pc[v] in {Idle, Exchanging, Waiting, Asleep}
    ensures Acquires(End(Start(n), run), v, more) && |more| <= 7
  {
    Reaches(n, run);
    var s := End(Start(n), run);
    if s.pc[v].Asleep? {
      var a := SleeperCanWake(n, run, v);
      RunInv(s, a);
      var b := TakeAwake(End(s, a), v);
      ThenAcquires(s, v, a, b);
      more := a + b;
    } else {
      more := TakeAwake(s, v);
    }
  }
}
