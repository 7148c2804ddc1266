/**
 * The sign-in credential of src/provider.cpp: what each mutex-protected section does to
 * the guarded fields, first as functions of those fields, then as the object whose
 * methods perform them.
 */
module Credential {
  import opened Basics
  import opened Wide

  /** Milliseconds for which a completed proof stays usable. */
  const READY_LIFETIME: nat := 30000

  /** `generation_`, `working_`, `readyPassword_`, `readyAt_`, whether `providerEvents_` is set, `references_`. */
  datatype Fields = Fields(generation: nat, working: bool, ready: Option<Bytes>, readyAt: nat, events: bool,
                           references: nat)

  /** How far `begin` gets before it takes a new generation. */
  datatype Preparation = PinFails | MarshalFails | Prepared

  datatype BeginResult = Busy | Unexpected | NotPinned | NotMarshaled | NoThread(bumped: nat) | Started(attempt: nat)

  datatype CompletionResult = Superseded | OutOfMemory | Produced

  function Initial(events: bool): Fields {
    Fields(0, false, None, 0, events, 1)
  }

  /** The difference of two `GetTickCount64` readings in unsigned 64-bit arithmetic. */
  function Elapsed(now: nat, since: nat): int {
    if since <= now then now - since else now + 0x1_0000_0000_0000_0000 - since
  }

  /** It is the true difference modulo 2^64, so a clock that runs backwards makes everything look expired. */
  lemma ElapsedIsUnsigned(now: nat, since: nat)
    requires now < 0x1_0000_0000_0000_0000 && since < 0x1_0000_0000_0000_0000
    ensures Elapsed(now, since) == (now - since) % 0x1_0000_0000_0000_0000
  {
  }

  predicate Expired(f: Fields, now: nat) {
    Elapsed(now, f.readyAt) > READY_LIFETIME
  }

  /** `begin` up to its AddRef: the new attempt, unless it is refused before. */
  function EnterSection(f: Fields, preparation: Preparation): (Fields, BeginResult) {
    if f.working then (f, Busy) else
    var cleared := f.(ready := None);
    if !f.events then (cleared, Unexpected)
    else if preparation.PinFails? then (cleared, NotPinned)
    else if preparation.MarshalFails? then (cleared, NotMarshaled)
    else
      var attempt := f.generation + 1;
      (cleared.(generation := attempt, working := true, references := f.references + 1), Started(attempt))
  }

  /** The whole of `begin`; without a thread it gives its reference back. */
  function BeginSection(f: Fields, preparation: Preparation, threadRuns: bool): (Fields, BeginResult) {
    var (entered, result) := EnterSection(f, preparation);
    if result.Started? && !threadRuns
    then (entered.(working := false, references := f.references), NoThread(result.attempt))
    else (entered, result)
  }

  /** The worker's own validation of what `unlockAccount` returned, or of its failure. */
  function Checked(unlocked: Option<Bytes>): (r: Option<Bytes>)
    ensures r.Some? ==> WellFormedPassword(r.value)
  {
    if unlocked.Some? && WellFormedPassword(unlocked.value) then unlocked else None
  }

  function FinishSection(f: Fields, attempt: nat, password: Option<Bytes>, now: nat): Fields {
    var idle := f.(working := false);
    if attempt == f.generation && password.Some? then idle.(ready := password, readyAt := now) else idle
  }

  function ReadySection(f: Fields, now: nat): (Fields, bool) {
    var kept := if f.ready.Some? && Expired(f, now) then f.(ready := None) else f;
    (kept, kept.ready.Some?)
  }

  function DeselectSection(f: Fields): Fields {
    f.(generation := f.generation + 1, ready := None)
  }

  function TakeSection(f: Fields, now: nat): (Fields, Option<Bytes>) {
    (f.(ready := None), if f.ready.Some? && !Expired(f, now) then f.ready else None)
  }

  function CompletionSection(f: Fields, attempt: nat, hasBuffer: bool): CompletionResult {
    if f.generation != attempt then Superseded else if !hasBuffer then OutOfMemory else Produced
  }

  class Credential {
    var generation: nat
    var working: bool
    var ready: Option<Bytes>
    var readyAt: nat
    var events: bool
    var references: nat

    ghost function View(): Fields
      reads this
    {
      Fields(generation, working, ready, readyAt, events, references)
    }

    constructor (hasEvents: bool)
      ensures View() == Initial(hasEvents)
      ensures generation == 0 && !working && ready.None? && events == hasEvents && references == 1
    {
      generation, working, ready, readyAt, events, references := 0, false, None, 0, hasEvents, 1;
    }

    method AddRef() returns (count: nat)
      modifies this
      ensures View() == old(View()).(references := count) && count == old(references) + 1
    {
      references := references + 1;
      count := references;
    }

    /** `Release`; the object is deleted exactly when the count it returns is zero. */
    method Release() returns (count: nat)
      requires references > 0
      modifies this
      ensures View() == old(View()).(references := count) && count == old(references) - 1
    {
      references := references - 1;
      count := references;
    }

    method SetProviderEvents(present: bool)
      modifies this
      ensures View() == old(View()).(events := present)
    {
      events := present;
    }

    /** `begin`, under one lock; the thread object itself belongs to the caller of this section. */
    method Begin(preparation: Preparation, threadRuns: bool) returns (result: BeginResult)
      modifies this
      ensures (View(), result) == BeginSection(old(View()), preparation, threadRuns)
      ensures readyAt == old(readyAt) && events == old(events)
      ensures result.Busy? <==> old(working)
      ensures result.Unexpected? <==> !old(working) && !old(events)
      ensures result.NotPinned? <==> !old(working) && old(events) && preparation.PinFails?
      ensures result.NotMarshaled? <==> !old(working) && old(events) && preparation.MarshalFails?
      ensures result.NoThread? <==> !old(working) && old(events) && preparation.Prepared? && !threadRuns
      ensures if result.Busy? then ready == old(ready) else ready.None?
      ensures generation == old(generation) + if result.Started? || result.NoThread? then 1 else 0
      ensures result.Started? ==> result.attempt == generation && references == old(references) + 1
      ensures result.NoThread? ==> result.bumped == generation
      ensures !result.Started? ==> references == old(references)
      ensures working <==> result.Busy? || result.Started?
    {
      if working { return Busy; }
      ready := None;
      if !events { return Unexpected; }
      if preparation.PinFails? { return NotPinned; }
      if preparation.MarshalFails? { return NotMarshaled; }
      generation := generation + 1;
      var attempt := generation;
      working := true;
      references := references + 1;
      if !threadRuns {
        working := false;
        references := references - 1;
        return NoThread(attempt);
      }
      result := Started(attempt);
    }

    /** The worker's last critical section. */
    method Finish(attempt: nat, unlocked: Option<Bytes>, now: nat)
      modifies this
      ensures View() == FinishSection(old(View()), attempt, Checked(unlocked), now)
      ensures !working && generation == old(generation) && events == old(events) && references == old(references)
      ensures if attempt == generation && unlocked.Some? && WellFormedPassword(unlocked.value)
              then ready == unlocked && readyAt == now
              else ready == old(ready) && readyAt == old(readyAt)
    {
      var password := Checked(unlocked);
      working := false;
      if attempt == generation && password.Some? {
        ready := password;
        readyAt := now;
      }
    }

    method Ready(now: nat) returns (available: bool)
      modifies this
      ensures (View(), available) == ReadySection(old(View()), now)
      ensures View() == old(View()).(ready := ready)
      ensures old(readyAt) <= now ==> (available <==> old(ready.Some?) && now - old(readyAt) <= 30000)
      ensures ready == if available then old(ready) else None
    {
      if ready.Some? && Elapsed(now, readyAt) > READY_LIFETIME { ready := None; }
      available := ready.Some?;
    }

    method SetDeselected()
      modifies this
      ensures View() == DeselectSection(old(View()))
      ensures View() == old(View()).(generation := old(generation) + 1, ready := None)
    {
      generation := generation + 1;
      ready := None;
    }

    /** The first critical section of `GetSerialization`. */
    method Take(now: nat) returns (attempt: nat, password: Option<Bytes>)
      modifies this
      ensures attempt == old(generation)
      ensures (View(), password) == TakeSection(old(View()), now)
      ensures View() == old(View()).(ready := None)
      ensures old(readyAt) <= now ==>
                password == if old(ready.Some?) && now - old(readyAt) <= 30000 then old(ready) else None
    {
      attempt := generation;
      password := None;
      if ready.Some? && Elapsed(now, readyAt) <= READY_LIFETIME { password := ready; }
      ready := None;
    }

    /** The second critical section of `GetSerialization`; it changes none of the guarded fields. */
    method Complete(attempt: nat, hasBuffer: bool) returns (result: CompletionResult)
      ensures result == CompletionSection(View(), attempt, hasBuffer)
      ensures result.Produced? <==> generation == attempt && hasBuffer
      ensures result.Superseded? <==> generation != attempt
    {
      if generation != attempt { return Superseded; }
      if !hasBuffer { return OutOfMemory; }
      result := Produced;
    }
  }
}
