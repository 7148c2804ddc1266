/**
 * The server lock of src/desktop_filter.cpp: a 32-bit counter that any number of threads
 * increment, or decrement by a compare-exchange loop that never goes below zero.
 */
module ServerLock {
  import opened Basics

  const WIDTH: int := 0x1_0000_0000
  const HALF: int := 0x8000_0000

  /** Two's complement of a 32-bit `LONG`. */
  function Wrap(n: int): int {
    (n + HALF) % WIDTH - HALF
  }

  datatype Event = Locked | Observed(thread: nat) | Unlocked(thread: nat) | Unexpected(thread: nat, count: int)

  /** An event with the counter and the successful locks and unlocks right after it. */
  datatype Entry = Entry(event: Event, locks: int, held: int)

  /**
   * `counts` holds the local `count` of every thread inside the unlock loop; `held` is locks minus
   * unlocks that succeeded.
   */
  datatype System = System(locks: int, held: int, counts: map<nat, int>, log: seq<Entry>)

  datatype Label =
    | Lock
    | Load(thread: nat)
    | Exchange(thread: nat, spurious: bool)   // one round of the loop; a weak exchange may fail for no reason
    | GiveUp(thread: nat)                     // the loop ends with a count that is not positive

  const START := System(0, 0, map[], [])

  predicate Enabled(s: System, l: Label) {
    match l
    case Lock => true
    case Load(t) => t !in s.counts
    case Exchange(t, _) => t in s.counts && s.counts[t] > 0
    case GiveUp(t) => t in s.counts && s.counts[t] <= 0
  }

  function Logged(s: System, e: Event): System {
    s.(log := s.log + [Entry(e, s.locks, s.held)])
  }

  function Step(s: System, l: Label): System
    requires Enabled(s, l)
  {
    match l
    case Lock => Logged(s.(locks := Wrap(s.locks + 1), held := s.held + 1), Locked)
    case Load(t) => Logged(s.(counts := s.counts[t := s.locks]), Observed(t))
    case Exchange(t, spurious) =>
      if !spurious && s.locks == s.counts[t] then
        Logged(s.(locks := s.locks - 1, held := s.held - 1, counts := s.counts - {t}), Unlocked(t))
      else Logged(s.(counts := s.counts[t := s.locks]), Observed(t))
    case GiveUp(t) => Logged(s.(counts := s.counts - {t}), Unexpected(t, s.counts[t]))
  }

  function Execute(labels: seq<Label>): Option<System> {
    if labels == [] then Some(START) else
    var before := Execute(labels[..|labels| - 1]);
    var l := labels[|labels| - 1];
    if before.Some? && Enabled(before.value, l) then Some(Step(before.value, l)) else None
  }

  /** Successful locks, or unlocks, in a history. */
  function Count(log: seq<Entry>, locking: bool): nat {
    if log == [] then 0 else
    var e := log[|log| - 1].event;
    Count(log[..|log| - 1], locking) + if (if locking then e.Locked? else e.Unlocked?) then 1 else 0
  }

  /** The thread read this value from the counter before position `k`. */
  ghost predicate Saw(log: seq<Entry>, k: nat, thread: nat, value: int) {
    exists i :: 0 <= i < k && i < |log| && log[i].event == Observed(thread) && log[i].locks == value
  }

  ghost predicate Inv(s: System) {
    && s.held >= 0 && s.locks == Wrap(s.held)
    && (forall i | 0 <= i < |s.log| :: s.log[i].held >= 0 && s.log[i].locks == Wrap(s.log[i].held))
    && (forall t | t in s.counts :: Saw(s.log, |s.log|, t, s.counts[t]))
    && (forall k | 0 <= k < |s.log| && s.log[k].event.Unexpected? ::
          s.log[k].event.count <= 0 && Saw(s.log, k, s.log[k].event.thread, s.log[k].event.count))
  }

  lemma WrapNext(n: int)
    ensures Wrap(Wrap(n) + 1) == Wrap(n + 1)
    ensures Wrap(n) > 0 ==> Wrap(n - 1) == Wrap(n) - 1
  {
    var m := (n + HALF) / WIDTH;
    assert n + HALF == m * WIDTH + (n + HALF) % WIDTH;
  }

  lemma SawStays(log: seq<Entry>, e: Entry, k: nat, thread: nat, value: int)
    requires Saw(log, k, thread, value)
    ensures forall n: nat | k <= n :: Saw(log + [e], n, thread, value)
  {
    var i :| 0 <= i < k && i < |log| && log[i].event == Observed(thread) && log[i].locks == value;
    assert (log + [e])[i] == log[i];
  }

  lemma StepKeepsInv(s: System, l: Label)
    requires Inv(s) && Enabled(s, l)
    ensures Inv(Step(s, l))
  {
    var s' := Step(s, l);
    var e := s'.log[|s.log|];
    assert s'.log == s.log + [e];
    WrapNext(s.held);
    forall t | t in s'.counts ensures Saw(s'.log, |s'.log|, t, s'.counts[t]) {
      if t in s.counts && s'.counts[t] == s.counts[t] { SawStays(s.log, e, |s.log|, t, s.counts[t]); }
      else { assert s'.log[|s.log|].event == Observed(t); }
    }
    forall k | 0 <= k < |s'.log| && s'.log[k].event.Unexpected?
      ensures s'.log[k].event.count <= 0 && Saw(s'.log, k, s'.log[k].event.thread, s'.log[k].event.count)
    {
      SawStays(s.log, e, k, s'.log[k].event.thread, s'.log[k].event.count);
    }
  }

  lemma {:induction false} RunKeepsInv(labels: seq<Label>, s: System)
    requires Execute(labels) == Some(s)
    ensures Inv(s) && s.held == Count(s.log, true) - Count(s.log, false)
  {
    if labels == [] {
    } else {
      var before := Execute(labels[..|labels| - 1]).value;
      RunKeepsInv(labels[..|labels| - 1], before);
      StepKeepsInv(before, labels[|labels| - 1]);
      assert s.log[..|s.log| - 1] == before.log;
    }
  }

  /**
   * In every interleaving the counter is the successful locks minus the successful unlocks,
   * as a 32-bit number, and that difference is never negative. The counter itself is
   * negative exactly while the difference does not fit; the two are equal exactly below 2^31.
   */
  lemma LocksConserved(labels: seq<Label>, s: System)
    requires Execute(labels) == Some(s)
    ensures var held := Count(s.log, true) - Count(s.log, false);
            && held >= 0 && s.locks == Wrap(held)
            && (s.locks >= 0 <==> held % WIDTH < HALF)
            && (s.locks == held <==> held < HALF)
  {
    RunKeepsInv(labels, s);
    WrapFits(s.held);
  }

  lemma WrapFits(n: nat)
    ensures Wrap(n) >= 0 <==> n % WIDTH < HALF
    ensures Wrap(n) == n <==> n < HALF
  {
    var m := (n + HALF) / WIDTH;
    assert n + HALF == m * WIDTH + (n + HALF) % WIDTH;
  }

  /**
   * An unlock reports an error only for a count that it read and that was not positive. That
   * count was zero exactly if the locks held at the reading, modulo 2^32, were below 2^31, and
   * then they were a multiple of 2^32: none at all, unless the counter had overflowed.
   */
  lemma ErrorsWereObserved(labels: seq<Label>, s: System, k: nat) returns (i: nat)
    requires Execute(labels) == Some(s) && k < |s.log| && s.log[k].event.Unexpected?
    ensures i < k && s.log[i].event == Observed(s.log[k].event.thread) && s.log[i].locks == s.log[k].event.count <= 0
    ensures s.log[k].event.count == 0 <==> s.log[i].held % WIDTH < HALF
    ensures s.log[k].event.count == 0 ==> s.log[i].held % WIDTH == 0
  {
    RunKeepsInv(labels, s);
    var t, v := s.log[k].event.thread, s.log[k].event.count;
    assert Saw(s.log, k, t, v);
    i :| 0 <= i < k && s.log[i].event == Observed(t) && s.log[i].locks == v;
    WrapSign(s.log[i].held);
  }

  lemma WrapSign(n: int)
    requires Wrap(n) <= 0
    ensures Wrap(n) == 0 <==> n % WIDTH < HALF
    ensures Wrap(n) == 0 ==> n % WIDTH == 0
  {
    var m := (n + HALF) / WIDTH;
    assert n + HALF == m * WIDTH + (n + HALF) % WIDTH;
  }

  /**
   * One round of the unlock loop succeeds exactly if the counter is still what the thread read and
   * nothing spurious happens.
   */
  lemma ExchangeDecides(s: System, t: nat, spurious: bool)
    requires t in s.counts && s.counts[t] > 0
    ensures var s' := Step(s, Exchange(t, spurious));
            if s.locks == s.counts[t] && !spurious
            then s'.log[|s.log|].event == Unlocked(t) && s'.locks == s.locks - 1 && t !in s'.counts
            else s'.log[|s.log|].event == Observed(t) && s'.locks == s.locks && s'.counts[t] == s.locks
  {
  }

  /** From any state below the largest count, locking and then unlocking without interference restores the counter. */
  lemma LockThenUnlock(labels: seq<Label>, s: System, t: nat)
    requires Execute(labels) == Some(s) && 0 <= s.locks < HALF - 1 && t !in s.counts
    ensures var end := Execute(labels + [Lock] + [Load(t)] + [Exchange(t, false)]);
            && end.Some? && end.value.locks == s.locks && t !in end.value.counts
            && |end.value.log| == |s.log| + 3 && end.value.log[|s.log| + 2].event == Unlocked(t)
  {
    assert Wrap(s.locks + 1) == s.locks + 1;
    ExecuteAppend(labels, Lock);
    ExecuteAppend(labels + [Lock], Load(t));
    ExecuteAppend(labels + [Lock] + [Load(t)], Exchange(t, false));
  }

  function Repeat(n: nat): seq<Label> {
    seq(n, _ => Lock)
  }

  lemma {:induction false} OnlyLocks(n: nat)
    ensures Execute(Repeat(n)).Some? && Execute(Repeat(n)).value.held == n && Execute(Repeat(n)).value.counts == map[]
  {
    if n == 0 {
    } else {
      OnlyLocks(n - 1);
      assert Repeat(n)[..n - 1] == Repeat(n - 1);
    }
  }

  lemma ExecuteAppend(labels: seq<Label>, l: Label)
    requires Execute(labels).Some? && Enabled(Execute(labels).value, l)
    ensures Execute(labels + [l]) == Some(Step(Execute(labels).value, l))
  {
    assert (labels + [l])[..|labels|] == labels;
  }

  /** An unlock can fail while 2^31 locks are held: it observes the most negative count. */
  lemma UnlockFailsWhileHeld(t: nat)
    ensures var end := Execute(Repeat(HALF) + [Load(t)] + [GiveUp(t)]);
            && end.Some? && end.value.log != []
            && end.value.log[|end.value.log| - 1] == Entry(Unexpected(t, -HALF), -HALF, HALF)
  {
    OnlyLocks(HALF);
    var s := Execute(Repeat(HALF)).value;
    RunKeepsInv(Repeat(HALF), s);
    assert s.locks == Wrap(HALF) == -HALF;
    ExecuteAppend(Repeat(HALF), Load(t));
    ExecuteAppend(Repeat(HALF) + [Load(t)], GiveUp(t));
  }

  /** The counter can be driven below zero: by 2^31 locks without an unlock. */
  lemma CounterOverflows()
    ensures Execute(Repeat(HALF)).Some? && Execute(Repeat(HALF)).value.locks < 0
  {
    OnlyLocks(HALF);
    RunKeepsInv(Repeat(HALF), Execute(Repeat(HALF)).value);
    WrapFits(HALF);
  }
}
