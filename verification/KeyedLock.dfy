/** Ordered multi-key locking (internal/keyedlock).  `LockMap` is the map of per-key mutexes and
    the acquisition order that `LockAll` computes; the rest of the module is the protocol of any
    number of threads, each making any list of `LockAll` calls one after the other. */
module KeyedLock {
  import opened Basics
  import opened KeyOrder

  /** A mutex is known by the number it was issued under. */
  class LockMap {
    var locks: map<Key, nat>
    var issued: nat

    ghost predicate Valid()
      reads this
    {
      && (forall k :: k in locks ==> locks[k] < issued)
      && (forall k, l :: k in locks && l in locks && k != l ==> locks[k] != locks[l])
    }

    constructor ()
      ensures Valid() && locks == map[]
    {
      locks, issued := map[], 0;
    }

    /** Stable: the mutex of a key never changes, and no two keys ever share one. */
    method Get(key: Key) returns (mutex: nat)
      requires Valid()
      modifies this
      ensures Valid()
      ensures key in locks && mutex == locks[key]
      ensures locks.Keys == old(locks.Keys) + {key}
      ensures forall k :: k in old(locks) ==> locks[k] == old(locks[k])
    {
      if key !in locks {
        locks := locks[key := issued];
        issued := issued + 1;
      }
      mutex := locks[key];
    }

    /** The mutexes `LockAll` write-locks, in the order in which it locks them: one per distinct
        requested key, in ascending key order. */
    method LockAll(keys: seq<Key>) returns (taken: seq<nat>)
      requires Valid()
      modifies this
      ensures Valid()
      ensures forall k :: k in old(locks) ==> k in locks && locks[k] == old(locks[k])
      ensures |taken| == |SortedDistinct(keys)|
      ensures forall i :: 0 <= i < |taken| ==>
                SortedDistinct(keys)[i] in locks && taken[i] == locks[SortedDistinct(keys)[i]]
      ensures forall i, j :: 0 <= i < j < |taken| ==> taken[i] != taken[j]
    {
      var sorted := SortedDistinct(keys);
      taken := [];
      while |taken| < |sorted|
        invariant Valid()
        invariant |taken| <= |sorted|
        invariant forall k :: k in old(locks) ==> k in locks && locks[k] == old(locks[k])
        invariant forall i :: 0 <= i < |taken| ==> sorted[i] in locks && taken[i] == locks[sorted[i]]
      {
        var l := Get(sorted[|taken|]);
        taken := taken + [l];
      }
      forall i, j | 0 <= i < j < |taken| ensures taken[i] != taken[j] {
        LessTrichotomy(sorted[i], sorted[i]);
        assert sorted[i] != sorted[j];
      }
    }
  }

  /** Where a thread is inside its current `LockAll`: `Locking(n)` has taken the first `n` keys of
      its plan (all of them: the caller is working), `Releasing(n)` still holds the first `n`. */
  datatype Phase = Idle | Locking(n: nat) | Releasing(n: nat)

  datatype Thread = Thread(calls: seq<seq<Key>>, plan: seq<Key>, phase: Phase)
  {
    function Held(): nat {
      match phase
      case Idle => 0
      case Locking(n) => n
      case Releasing(n) => n
    }

    predicate Finished() {
      phase.Idle? && calls == []
    }

    predicate Waiting() {
      phase.Locking? && phase.n < |plan|
    }

    ghost predicate WellFormed() {
      Ascending(plan) && Held() <= |plan|
    }

    ghost function HeldKeys(): set<Key>
      requires WellFormed()
    {
      Elements(plan[..Held()])
    }

    /** How many steps the thread still has to take. */
    ghost function Work(): nat
      requires WellFormed()
    {
      CallWork(calls) +
      match phase
      case Idle => 0
      case Locking(n) => (|plan| - n) + |plan| + 2
      case Releasing(n) => n + 1
    }
  }

  /** `locked` is the set of keys whose mutex is locked.  A mutex does not know its owner. */
  datatype State = State(threads: seq<Thread>, locked: set<Key>)

  ghost function CallWork(calls: seq<seq<Key>>): nat {
    if calls == [] then 0 else 2 * |SortedDistinct(calls[0])| + 3 + CallWork(calls[1..])
  }

  /** A thread can move unless it has finished or the next key of its plan is held by someone. */
  predicate CanStep(s: State, i: nat) {
    && i < |s.threads|
    && !s.threads[i].Finished()
    && (s.threads[i].Waiting() ==> s.threads[i].plan[s.threads[i].phase.n] !in s.locked)
  }

  /** One move of thread `i`: enter a call, take the next key in order, finish the work done under
      the locks, give back the last key still held, or return. */
  function Step(s: State, i: nat): State
    requires CanStep(s, i)
  {
    var t := s.threads[i];
    match t.phase
    case Idle =>
      State(s.threads[i := Thread(t.calls[1..], SortedDistinct(t.calls[0]), Locking(0))], s.locked)
    case Locking(n) =>
      if n < |t.plan| then
        State(s.threads[i := t.(phase := Locking(n + 1))], s.locked + {t.plan[n]})
      else
        State(s.threads[i := t.(phase := Releasing(|t.plan|))], s.locked)
    case Releasing(n) =>
      if 0 < n <= |t.plan| then
        State(s.threads[i := t.(phase := Releasing(n - 1))], s.locked - {t.plan[n - 1]})
      else
        State(s.threads[i := Thread(t.calls, [], Idle)], s.locked)
  }

  ghost predicate Holds(s: State, i: nat, k: Key) {
    i < |s.threads| && s.threads[i].WellFormed() && k in s.threads[i].HeldKeys()
  }

  /** The locked mutexes are exactly those the threads have taken, each taken by one thread. */
  ghost predicate Inv(s: State) {
    && (forall i :: 0 <= i < |s.threads| ==> s.threads[i].WellFormed())
    && (forall i: nat, k :: Holds(s, i, k) ==> k in s.locked)
    && (forall k :: k in s.locked ==> exists i: nat :: Holds(s, i, k))
    && (forall i: nat, j: nat, k :: Holds(s, i, k) && Holds(s, j, k) ==> i == j)
  }

  /** A move of thread `i` that turns its keys and the locked mutexes from `s` to `s'`. */
  ghost predicate Moves(s: State, s': State, i: nat, add: set<Key>, drop: set<Key>) {
    && i < |s.threads| == |s'.threads|
    && (forall j :: 0 <= j < |s.threads| && j != i ==> s'.threads[j] == s.threads[j])
    && s.threads[i].WellFormed() && s'.threads[i].WellFormed()
    && add !! s.locked && drop <= s.threads[i].HeldKeys()
    && s'.threads[i].HeldKeys() == s.threads[i].HeldKeys() + add - drop
    && s'.locked == s.locked + add - drop
  }

  /** A move takes one free key, gives one held key back, or changes neither. */
  lemma StepOnKeys(s: State, i: nat) returns (add: set<Key>, drop: set<Key>)
    requires Inv(s) && CanStep(s, i)
    ensures Moves(s, Step(s, i), i, add, drop)
  {
    add, drop := {}, {};
    var t, t' := s.threads[i], Step(s, i).threads[i];
    match t.phase {
      case Idle =>
        assert t.plan[..0] == [] && t'.plan[..0] == [];
      case Locking(n) =>
        if n < |t.plan| {
          assert t.plan[..n + 1] == t.plan[..n] + [t.plan[n]];
          add := {t.plan[n]};
        }
      case Releasing(n) =>
        if n > 0 {
          assert t.plan[..n] == t.plan[..n - 1] + [t.plan[n - 1]];
          forall x | 0 <= x < n - 1 ensures t.plan[x] != t.plan[n - 1] {
            LessTrichotomy(t.plan[x], t.plan[x]);
          }
          assert t.plan[n - 1] in t.HeldKeys();
          drop := {t.plan[n - 1]};
        } else {
          assert t.plan[..0] == [] && t'.plan[..0] == [];
        }
    }
  }

  lemma MoveKeepsInv(s: State, s': State, i: nat, add: set<Key>, drop: set<Key>)
    requires Inv(s) && Moves(s, s', i, add, drop)
    ensures Inv(s')
  {
    forall j: nat, k | Holds(s', j, k)
      ensures Holds(s, j, k) || (j == i && k in add)
      ensures k in s'.locked
    {
      assert j != i ==> Holds(s, j, k);
      assert Holds(s, j, k) && j != i ==> k !in drop by { assert k in drop ==> Holds(s, i, k); }
    }
    forall k | k in s'.locked ensures exists j: nat :: Holds(s', j, k) {
      if k in s.locked {
        var j: nat :| Holds(s, j, k);
        assert Holds(s', j, k);
      } else {
        assert Holds(s', i, k);
      }
    }
    forall j: nat, l: nat, k | Holds(s', j, k) && Holds(s', l, k) ensures j == l {
      assert k in add ==> !Holds(s, j, k) && !Holds(s, l, k);
    }
  }

  lemma StepKeepsInv(s: State, i: nat)
    requires Inv(s) && CanStep(s, i)
    ensures Inv(Step(s, i))
  {
    var add, drop := StepOnKeys(s, i);
    MoveKeepsInv(s, Step(s, i), i, add, drop);
  }

  /** The key a waiting thread waits for. */
  function Wanted(t: Thread): Key
    requires t.Waiting()
  {
    t.plan[t.phase.n]
  }

  ghost predicate WaitsBelow(s: State, x: nat, k: Key) {
    x < |s.threads| && s.threads[x].Waiting() && Less(Wanted(s.threads[x]), k)
  }

  function Indices(n: nat): (r: set<nat>)
    ensures forall x: nat :: x in r <==> x < n
    ensures |r| == n
  {
    if n == 0 then {} else Indices(n - 1) + {n - 1}
  }

  /** From a blocked thread, walk to the owner of the key it waits for.  The owner either can move
      or waits for a strictly greater key, so the walk never meets a thread twice. */
  lemma {:induction false} WalkToEnabled(s: State, i: nat, seen: set<nat>) returns (j: nat)
    requires Inv(s) && i < |s.threads| && !s.threads[i].Finished()
    requires seen <= Indices(|s.threads|)
    requires s.threads[i].Waiting() ==> forall x :: x in seen ==> WaitsBelow(s, x, Wanted(s.threads[i]))
    ensures CanStep(s, j)
    decreases |Indices(|s.threads|) - seen|
  {
    if CanStep(s, i) { return i; }
    var o := OwnerAbove(s, i);
    LessTrichotomy(Wanted(s.threads[i]), Wanted(s.threads[i]));
    assert i !in seen;
    var all := Indices(|s.threads|);
    SmallerSet(all - (seen + {i}), all - seen, i);
    if s.threads[o].Waiting() { AllBelow(s, i, o, seen); }
    j := WalkToEnabled(s, o, seen + {i});
  }

  /** The owner of the key a blocked thread waits for is not finished, and waits, if at all, for a
      greater key. */
  lemma OwnerAbove(s: State, i: nat) returns (o: nat)
    requires Inv(s) && i < |s.threads| && !s.threads[i].Finished() && !CanStep(s, i)
    ensures s.threads[i].Waiting() && o < |s.threads| && !s.threads[o].Finished()
    ensures s.threads[o].Waiting() ==> Less(Wanted(s.threads[i]), Wanted(s.threads[o]))
  {
    var k := Wanted(s.threads[i]);
    o :| Holds(s, o, k);
    var u := s.threads[o];
    var x :| 0 <= x < u.Held() && u.plan[x] == k;
  }

  lemma AllBelow(s: State, i: nat, o: nat, seen: set<nat>)
    requires i < |s.threads| && o < |s.threads| && s.threads[i].Waiting() && s.threads[o].Waiting()
    requires Less(Wanted(s.threads[i]), Wanted(s.threads[o]))
    requires forall x :: x in seen ==> WaitsBelow(s, x, Wanted(s.threads[i]))
    ensures forall y :: y in seen + {i} ==> WaitsBelow(s, y, Wanted(s.threads[o]))
  {
    forall y | y in seen + {i} ensures WaitsBelow(s, y, Wanted(s.threads[o])) {
      if y != i { LessTransitive(Wanted(s.threads[y]), Wanted(s.threads[i]), Wanted(s.threads[o])); }
    }
  }

  lemma SmallerSet<T>(a: set<T>, b: set<T>, x: T)
    requires a <= b - {x} && x in b
    ensures |a| < |b|
  {
    SubsetSize(a, b - {x});
  }

  ghost function TotalWork(ts: seq<Thread>): nat
    requires forall i :: 0 <= i < |ts| ==> ts[i].WellFormed()
  {
    if ts == [] then 0 else ts[0].Work() + TotalWork(ts[1..])
  }

  lemma {:induction false} TotalWorkUpdate(ts: seq<Thread>, i: nat, t: Thread)
    requires i < |ts| && t.WellFormed()
    requires forall j :: 0 <= j < |ts| ==> ts[j].WellFormed()
    ensures TotalWork(ts[i := t]) == TotalWork(ts) - ts[i].Work() + t.Work()
  {
    if i == 0 {
      assert ts[i := t][1..] == ts[1..];
    } else {
      TotalWorkUpdate(ts[1..], i - 1, t);
      assert ts[i := t][1..] == ts[1..][i - 1 := t];
    }
  }

  /** Every move uses up exactly one unit of the work left. */
  lemma StepUsesWork(s: State, i: nat)
    requires Inv(s) && CanStep(s, i)
    ensures Inv(Step(s, i))
    ensures TotalWork(Step(s, i).threads) == TotalWork(s.threads) - 1
  {
    StepKeepsInv(s, i);
    TotalWorkUpdate(s.threads, i, Step(s, i).threads[i]);
    assert s.threads[i].Work() == Step(s, i).threads[i].Work() + 1;
  }

  /** A schedule names the thread that moves at each step. */
  ghost predicate IsRun(s: State, schedule: seq<nat>)
    decreases |schedule|
  {
    schedule == [] || (CanStep(s, schedule[0]) && IsRun(Step(s, schedule[0]), schedule[1..]))
  }

  ghost function Exec(s: State, schedule: seq<nat>): State
    requires IsRun(s, schedule)
    decreases |schedule|
  {
    if schedule == [] then s else Exec(Step(s, schedule[0]), schedule[1..])
  }

  /** Every thread holds nothing and is about to make its calls. */
  function Start(programs: seq<seq<seq<Key>>>): State {
    State(seq(|programs|, i requires 0 <= i < |programs| => Thread(programs[i], [], Idle)), {})
  }

  lemma {:induction false} RunKeepsInv(s: State, schedule: seq<nat>)
    requires Inv(s) && IsRun(s, schedule)
    ensures Inv(Exec(s, schedule))
    ensures TotalWork(s.threads) == |schedule| + TotalWork(Exec(s, schedule).threads)
    decreases |schedule|
  {
    if schedule != [] {
      StepUsesWork(s, schedule[0]);
      RunKeepsInv(Step(s, schedule[0]), schedule[1..]);
    }
  }

  ghost predicate AllFinished(s: State) {
    forall i :: 0 <= i < |s.threads| ==> s.threads[i].Finished()
  }

  /** The promise of `LockAll`: whatever the threads, their calls and the schedule,
      no key is ever held twice; while some thread is unfinished some thread can move; every run
      is at most as long as the work the programs contain; and a run that cannot go on has
      finished every call and left every key free. */
  lemma LockAllNeverDeadlocks(programs: seq<seq<seq<Key>>>, schedule: seq<nat>)
    requires IsRun(Start(programs), schedule)
    ensures var s := Exec(Start(programs), schedule);
            && (forall i: nat, j: nat, k :: Holds(s, i, k) && Holds(s, j, k) ==> i == j)
            && (!AllFinished(s) ==> exists i: nat :: CanStep(s, i))
            && Inv(Start(programs)) && |schedule| <= TotalWork(Start(programs).threads)
            && ((forall i: nat :: !CanStep(s, i)) ==> AllFinished(s) && s.locked == {})
  {
    var s0 := Start(programs);
    assert Inv(s0);
    RunKeepsInv(s0, schedule);
    var s := Exec(s0, schedule);
    if !AllFinished(s) {
      var i: nat :| i < |s.threads| && !s.threads[i].Finished();
      var j := WalkToEnabled(s, i, {});
    } else {
      assert forall i: nat, k :: !Holds(s, i, k);
    }
  }
}
