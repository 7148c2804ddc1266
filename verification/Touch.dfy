/**
 * `touchAnyKey` of src/core.cpp: find an enrolled key before the deadline, then demand one
 * fresh signed touch. The clock, the devices and their answers are arbitrary.
 */
module Touch {
  import opened Basics
  import opened Wire
  import opened Profile

  const YUBICO: nat := 0x1050
  const MAX_TIMEOUT: nat := 45000

  datatype Device = Device(vendor: nat, path: nat)

  /** An assertion request. `challenge` numbers the random challenges in the order they are drawn. */
  datatype Request = Request(device: nat, challenge: nat, allowed: seq<Bytes>, presence: bool, salt: Option<Bytes32>)

  datatype Response = Response(count: nat, flags: bv8, id: Bytes, secret: Bytes)

  datatype Answer = NoCredentials | Refused | Answered(response: Response)

  datatype Call =
    | Clock(at: nat)
    | Slept(milliseconds: int)
    | Listed(devices: seq<Device>)
    | Opened(path: nat, usable: bool)     // and whether it speaks FIDO2
    | TimeoutSet(milliseconds: int, at: nat)
    | Asked(request: Request, answer: Answer)
    | Verified(request: Request, response: Response, publicKey: Bytes64)
    | Failure                             // any other library call that returned an error

  datatype Proof = Proof(index: nat, secret: Bytes)

  /**
   * The authenticator library and the tick count. Every outcome is the environment's choice; `log`
   * records the calls.
   */
  class Hardware {
    var now: nat
    var draws: nat
    var open: Option<nat>
    var log: seq<Call>

    /** Every challenge used so far was drawn so far. */
    ghost predicate Valid()
      reads this
    {
      forall i | 0 <= i < |log| && log[i].Asked? :: log[i].request.challenge < draws
    }

    method Ticks() returns (t: nat)
      requires Valid()
      modifies this`now, this`log
      ensures Valid() && old(now) <= t == now && log == old(log) + [Clock(t)]
    {
      var passed :| passed >= 0;
      now := now + passed;
      t := now;
      log := log + [Clock(t)];
    }

    /** The clock advances across a sleep; how far is not known. */
    method Sleep(milliseconds: nat)
      requires Valid() && milliseconds > 0
      modifies this`now, this`log
      ensures Valid() && old(now) < now && log == old(log) + [Slept(milliseconds)]
    {
      var passed :| passed >= 0;
      now := now + 1 + passed;
      log := log + [Slept(milliseconds)];
    }

    method Manifest() returns (devices: Option<seq<Device>>)
      requires Valid()
      modifies this`log
      ensures Valid() && log == old(log) + [if devices.Some? then Listed(devices.value) else Failure]
      ensures devices.Some? ==> |devices.value| <= 64
    {
      devices := *;
      if !devices.Some? || |devices.value| > 64 { devices := None; }
      log := log + [if devices.Some? then Listed(devices.value) else Failure];
    }

    method SetTimeout(milliseconds: int, at: nat) returns (ok: bool)
      requires Valid()
      modifies this`log
      ensures Valid()
      ensures log == old(log) + if ok then [TimeoutSet(milliseconds, at)] else [TimeoutSet(milliseconds, at), Failure]
    {
      ok := *;
      log := log + if ok then [TimeoutSet(milliseconds, at)] else [TimeoutSet(milliseconds, at), Failure];
    }

    /** Opens a device and asks whether it speaks FIDO2. */
    method Open(path: nat) returns (usable: bool)
      requires Valid()
      modifies this`open, this`log
      ensures Valid() && open == Some(path) && log == old(log) + [Opened(path, usable)]
    {
      open := Some(path);
      usable := *;
      log := log + [Opened(path, usable)];
    }

    method Close()
      requires Valid()
      modifies this`open
      ensures Valid() && open.None?
    {
      open := None;
    }

    method Draw() returns (challenge: nat)
      requires Valid()
      modifies this`draws
      ensures Valid() && challenge == old(draws) < draws
    {
      challenge := draws;
      draws := draws + 1;
    }

    method Ask(request: Request) returns (answer: Answer)
      requires Valid() && request.challenge < draws && open == Some(request.device)
      modifies this`log
      ensures Valid() && log == old(log) + [Asked(request, answer)]
    {
      answer := *;
      log := log + [Asked(request, answer)];
    }

    /** Verification of the signature over the request's challenge. */
    method Verify(request: Request, response: Response, publicKey: Bytes64) returns (ok: bool)
      requires Valid()
      modifies this`log
      ensures Valid() && log == old(log) + [if ok then Verified(request, response, publicKey) else Failure]
    {
      ok := *;
      log := log + [if ok then Verified(request, response, publicKey) else Failure];
    }
  }

  /** User presence signed, user verification not: bits 0 and 2 of the flags byte. */
  predicate TouchOnly(flags: bv8) {
    flags & 1 == 1 && flags & 4 == 0
  }

  lemma FlagTest(flags: bv8)
    ensures flags & 5 == 1 <==> TouchOnly(flags)
  {
  }

  /**
   * An answer that ends the call: to a discovery, an error or not one credential; to a touch,
   * anything but a full proof.
   */
  predicate Unacceptable(request: Request, answer: Answer) {
    if request.presence then
      answer.Answered? ==>
        var response := answer.response;
        || response.count != 1 || !TouchOnly(response.flags)
        || request.allowed != [response.id] || |response.secret| != 32
    else answer.Refused? || (answer.Answered? && answer.response.count != 1)
  }

  predicate Bad(call: Call) {
    call.Failure? || (call.Asked? && Unacceptable(call.request, call.answer))
  }

  /** Something went wrong that ends the call with an exception. */
  ghost predicate Trouble(log: seq<Call>, from: nat) {
    exists i :: from <= i < |log| && Bad(log[i])
  }

  lemma TroubleNow(log: seq<Call>, from: nat)
    requires from < |log| && Bad(log[|log| - 1])
    ensures Trouble(log, from)
  {
  }

  /** A secret was released: some assertion answered with 32 bytes and its signature verified. */
  ghost predicate Released(log: seq<Call>, from: nat) {
    exists i :: from <= i < |log| && log[i].Verified? && |log[i].response.secret| == 32
  }

  /** No signature has been accepted yet. */
  ghost predicate NothingVerified(log: seq<Call>, from: nat) {
    forall i | from <= i < |log| :: !log[i].Verified?
  }

  /** Every timeout set from position `from` on is positive, at most 45 seconds, and ends by the deadline. */
  ghost predicate Bounded(log: seq<Call>, from: nat, deadline: nat) {
    forall i | from <= i < |log| && log[i].TimeoutSet? ::
      0 < log[i].milliseconds <= 45000 && log[i].at + log[i].milliseconds <= deadline
  }

  /** Requests that do not ask for a touch carry no salt, so they can return no secret. */
  ghost predicate DiscoveryOnly(log: seq<Call>, from: nat) {
    forall i | from <= i < |log| && log[i].Asked? :: !log[i].request.presence && log[i].request.salt.None?
  }

  /**
   * A call of the search: it asks for no touch and no secret, waits at most a second for a device
   * and not beyond the deadline, and sleeps at most a quarter of a second.
   */
  predicate Harmless(call: Call, deadline: nat) {
    match call
    case Verified(_, _, _) => false
    case Asked(request, _) => !request.presence && request.salt.None?
    case TimeoutSet(ms, at) => 0 < ms <= 1000 && at + ms <= deadline
    case Slept(ms) => 0 < ms <= 250
    case _ => true
  }

  ghost predicate Searching(log: seq<Call>, from: nat, deadline: nat) {
    forall i | from <= i < |log| :: Harmless(log[i], deadline)
  }

  lemma SearchIsHarmless(log: seq<Call>, from: nat, deadline: nat)
    requires Searching(log, from, deadline)
    ensures Bounded(log, from, deadline) && DiscoveryOnly(log, from) && NothingVerified(log, from)
  {
  }

  /** The clock was read at or after the deadline. */
  ghost predicate TimedOut(log: seq<Call>, from: nat, deadline: nat) {
    exists i :: from <= i < |log| && log[i].Clock? && log[i].at >= deadline
  }

  lemma TimedOutNow(log: seq<Call>, from: nat, deadline: nat)
    requires from < |log| && log[|log| - 1].Clock? && log[|log| - 1].at >= deadline
    ensures TimedOut(log, from, deadline)
  {
  }

  lemma TimedOutStays(log: seq<Call>, log': seq<Call>, from: nat, from': nat, deadline: nat)
    requires TimedOut(log, from, deadline) && log <= log' && from' <= from
    ensures TimedOut(log', from', deadline)
  {
    var i :| from <= i < |log| && log[i].Clock? && log[i].at >= deadline;
    assert log'[i] == log[i];
  }

  /** A call that rules a device out: it cannot be used, or it knows none of the enrolled credentials. */
  predicate RulesOut(call: Call, profiles: seq<KeyProfile>, path: nat) {
    || call == Opened(path, false)
    || (call.Asked? && call.request.device == path && !call.request.presence &&
        (call.answer.NoCredentials? ||
         (call.answer.Answered? &&
          forall k | 0 <= k < |profiles| :: call.answer.response.id != profiles[k].credential)))
  }

  ghost predicate Dismissed(log: seq<Call>, from: nat, to: nat, profiles: seq<KeyProfile>, path: nat) {
    exists i :: from <= i < to && i < |log| && RulesOut(log[i], profiles, path)
  }

  /** Every listed Yubico device, of the first `n`, was ruled out between `from` and `to`. */
  ghost predicate AllDismissed(log: seq<Call>, from: nat, to: nat, profiles: seq<KeyProfile>, devices: seq<Device>,
                               n: nat) {
    forall j | 0 <= j < n && j < |devices| && devices[j].vendor == 0x1050 ::
      Dismissed(log, from, to, profiles, devices[j].path)
  }

  /** The devices listed at `i` were all ruled out before position `k`. */
  ghost predicate ScanDone(log: seq<Call>, i: nat, k: nat, profiles: seq<KeyProfile>)
    requires i < |log| && log[i].Listed?
  {
    AllDismissed(log, i, k, profiles, log[i].devices, |log[i].devices|)
  }

  /** Each scan ruled out all its Yubico devices before the next began. */
  ghost predicate Thorough(log: seq<Call>, from: nat, profiles: seq<KeyProfile>) {
    forall i, k | from <= i < k < |log| && log[i].Listed? && log[k].Listed? :: ScanDone(log, i, k, profiles)
  }

  /** So did the last one. */
  ghost predicate LastDone(log: seq<Call>, from: nat, profiles: seq<KeyProfile>) {
    forall i | from <= i < |log| && log[i].Listed? :: ScanDone(log, i, |log|, profiles)
  }

  lemma AllDismissedStays(log: seq<Call>, log': seq<Call>, from: nat, from': nat, to: nat, to': nat,
                          profiles: seq<KeyProfile>, devices: seq<Device>, n: nat)
    requires AllDismissed(log, from, to, profiles, devices, n) && log <= log' && from' <= from && to <= to'
    ensures AllDismissed(log', from', to', profiles, devices, n)
  {
    forall j | 0 <= j < n && j < |devices| && devices[j].vendor == 0x1050
      ensures Dismissed(log', from', to', profiles, devices[j].path)
    {
      assert Dismissed(log, from, to, profiles, devices[j].path);
      var i :| from <= i < to && i < |log| && RulesOut(log[i], profiles, devices[j].path);
      assert log'[i] == log[i];
    }
  }

  /** Calls without an enumeration change nothing about the scans before them. */
  lemma QuietCalls(log: seq<Call>, log': seq<Call>, from: nat, profiles: seq<KeyProfile>)
    requires log <= log' && forall i | |log| <= i < |log'| :: !log'[i].Listed?
    ensures Thorough(log, from, profiles) ==> Thorough(log', from, profiles)
    ensures LastDone(log, from, profiles) ==> LastDone(log', from, profiles)
  {
    if Thorough(log, from, profiles) {
      forall i, k | from <= i < k < |log'| && log'[i].Listed? && log'[k].Listed?
        ensures ScanDone(log', i, k, profiles)
      {
        assert log'[i] == log[i] && log'[k] == log[k] && ScanDone(log, i, k, profiles);
        AllDismissedStays(log, log', i, i, k, k, profiles, log[i].devices, |log[i].devices|);
      }
    }
    if LastDone(log, from, profiles) {
      forall i | from <= i < |log'| && log'[i].Listed? ensures ScanDone(log', i, |log'|, profiles) {
        assert log'[i] == log[i] && ScanDone(log, i, |log|, profiles);
        AllDismissedStays(log, log', i, i, |log|, |log'|, profiles, log[i].devices, |log[i].devices|);
      }
    }
  }

  /** A new scan starts at the end of `log`. */
  lemma NextScan(log: seq<Call>, log': seq<Call>, from: nat, profiles: seq<KeyProfile>)
    requires Thorough(log, from, profiles) && LastDone(log, from, profiles) && log < log' && log'[|log|].Listed?
    requires forall i | |log| < i < |log'| :: !log'[i].Listed?
    ensures Thorough(log', from, profiles)
    ensures ScanDone(log', |log|, |log'|, profiles) ==> LastDone(log', from, profiles)
  {
    forall i, k | from <= i < k < |log'| && log'[i].Listed? && log'[k].Listed? ensures ScanDone(log', i, k, profiles) {
      assert log'[i] == log[i];
      if k < |log| {
        assert log'[k] == log[k] && ScanDone(log, i, k, profiles);
        AllDismissedStays(log, log', i, i, k, k, profiles, log[i].devices, |log[i].devices|);
      } else {
        assert ScanDone(log, i, |log|, profiles);
        AllDismissedStays(log, log', i, i, |log|, k, profiles, log[i].devices, |log[i].devices|);
      }
    }
    if ScanDone(log', |log|, |log'|, profiles) {
      forall i | from <= i < |log'| && log'[i].Listed? ensures ScanDone(log', i, |log'|, profiles) {
        if i < |log| {
          assert log'[i] == log[i] && ScanDone(log, i, |log|, profiles);
          AllDismissedStays(log, log', i, i, |log|, |log'|, profiles, log[i].devices, |log[i].devices|);
        }
      }
    }
  }

  /** The device that is open answered a discovery with the credential of profile `k`. */
  ghost predicate Found(log: seq<Call>, from: nat, profiles: seq<KeyProfile>, k: nat, device: nat) {
    exists i :: from <= i < |log| && log[i].Asked? && log[i].request.device == device &&
                log[i].answer.Answered? && k < |profiles| && log[i].answer.response.id == profiles[k].credential
  }

  lemma FoundStays(log: seq<Call>, log': seq<Call>, from: nat, from': nat, profiles: seq<KeyProfile>, k: nat,
                   device: nat)
    requires Found(log, from, profiles, k, device) && log <= log' && from' <= from
    ensures Found(log', from', profiles, k, device)
  {
    var i :| from <= i < |log| && log[i].Asked? && log[i].request.device == device &&
      log[i].answer.Answered? && k < |profiles| && log[i].answer.response.id == profiles[k].credential;
    assert log'[i] == log[i];
  }

  function Credentials(profiles: seq<KeyProfile>): seq<Bytes> {
    seq(|profiles|, i requires 0 <= i < |profiles| => profiles[i].credential)
  }

  /** The loop over the enrolled credentials for the one a device reported. */
  method IndexOf(profiles: seq<KeyProfile>, id: Bytes) returns (k: nat)
    ensures k <= |profiles|
    ensures k < |profiles| ==> profiles[k].credential == id
    ensures forall j | 0 <= j < k :: profiles[j].credential != id
  {
    for i := 0 to |profiles|
      invariant forall j | 0 <= j < i :: profiles[j].credential != id
    {
      var same := Equal(id, profiles[i].credential);
      if same { return i; }
    }
    k := |profiles|;
  }

  datatype Probe = Throws | Skips | TimesOut | Selects(index: nat)

  /** One device of the scan: only Yubico's are asked, and one stays open only if it is selected. */
  method ProbeDevice(hw: Hardware, profiles: seq<KeyProfile>, device: Device, ghost from: nat, start: nat,
                     deadline: nat)
    returns (r: Probe)
    requires hw.Valid() && hw.open.None? && from <= |hw.log| && start <= hw.now && deadline <= start + MAX_TIMEOUT
    requires Searching(hw.log, from, deadline)
    modifies hw
    ensures hw.Valid() && old(hw.log) <= hw.log && old(hw.now) <= hw.now && Searching(hw.log, from, deadline)
    ensures forall i | |old(hw.log)| <= i < |hw.log| :: !hw.log[i].Listed?
    ensures Steady(hw.log, |old(hw.log)|, deadline)
    ensures device.vendor != 0x1050 ==> r.Skips? && hw.log == old(hw.log)
    ensures r.Skips? ==>
              && hw.open.None?
              && (device.vendor == 0x1050 ==> Dismissed(hw.log, |old(hw.log)|, |hw.log|, profiles, device.path))
    ensures r.TimesOut? ==> hw.open.None? && hw.now >= deadline && TimedOut(hw.log, |old(hw.log)|, deadline)
    ensures r.Throws? ==> Trouble(hw.log, |old(hw.log)|)
    ensures r.Selects? ==>
              && r.index < |profiles| && hw.open == Some(device.path)
              && Found(hw.log, |old(hw.log)|, profiles, r.index, device.path)
  {
    if device.vendor != YUBICO { return Skips; }
    var t := hw.Ticks();
    if t >= deadline {
      TimedOutNow(hw.log, |old(hw.log)|, deadline);
      return TimesOut;
    }
    r := AskDevice(hw, profiles, device.path, from, t, deadline);
    DiscoveryCounts(hw.log, |old(hw.log)|, profiles, device.path, r);
  }

  /** Opens a device for at most a second, and asks it if it can be used. */
  method AskDevice(hw: Hardware, profiles: seq<KeyProfile>, path: nat, ghost from: nat, t: nat, deadline: nat)
    returns (r: Probe)
    requires hw.Valid() && hw.open.None? && from <= |hw.log| && t < deadline && Searching(hw.log, from, deadline)
    modifies hw`log, hw`draws, hw`open
    ensures hw.Valid() && old(hw.log) < hw.log && Searching(hw.log, from, deadline)
    ensures hw.log[|old(hw.log)|].TimeoutSet?
    ensures forall i | |old(hw.log)| <= i < |hw.log| ::
              !hw.log[i].Listed? && !hw.log[i].Clock? && !hw.log[i].Slept?
    ensures !r.TimesOut? && Shows(hw.log, profiles, path, r)
    ensures r.Skips? ==> hw.open.None?
    ensures r.Selects? ==> hw.open == Some(path)
  {
    var ok := hw.SetTimeout(Min(1000, deadline - t), t);
    if !ok { return Throws; }
    ok := hw.Open(path);
    if !ok {
      hw.Close();
      return Skips;
    }
    r := Discover(hw, profiles, path, from, deadline);
  }

  /** What the last call of a probe shows. */
  ghost predicate Shows(log: seq<Call>, profiles: seq<KeyProfile>, path: nat, r: Probe) {
    log != [] &&
    var last := log[|log| - 1];
    && (r.Skips? ==> RulesOut(last, profiles, path))
    && (r.Throws? ==> Bad(last))
    && (r.Selects? ==>
          && last.Asked? && last.request.device == path && last.answer.Answered? && r.index < |profiles|
          && last.answer.response.id == profiles[r.index].credential)
  }

  lemma DiscoveryCounts(log: seq<Call>, from: nat, profiles: seq<KeyProfile>, path: nat, r: Probe)
    requires from < |log| && Shows(log, profiles, path, r)
    ensures r.Skips? ==> Dismissed(log, from, |log|, profiles, path)
    ensures r.Throws? ==> Trouble(log, from)
    ensures r.Selects? ==> Found(log, from, profiles, r.index, path)
  {
  }

  /** Asks the open device for any enrolled credential, without a touch and without a salt; its answer decides. */
  method Discover(hw: Hardware, profiles: seq<KeyProfile>, path: nat, ghost from: nat, ghost deadline: nat)
    returns (r: Probe)
    requires hw.Valid() && hw.open == Some(path) && from <= |hw.log| && Searching(hw.log, from, deadline)
    modifies hw`log, hw`draws, hw`open
    ensures hw.Valid() && |hw.log| == |old(hw.log)| + 1 && old(hw.log) <= hw.log && Searching(hw.log, from, deadline)
    ensures var last := hw.log[|old(hw.log)|];
            && last.Asked? && last.request.allowed == Credentials(profiles) && last.request.device == path
            && !last.request.presence && last.request.salt.None?
    ensures !r.TimesOut? && Shows(hw.log, profiles, path, r)
    ensures hw.open == if r.Skips? then None else Some(path)
  {
    var challenge := hw.Draw();
    var request := Request(path, challenge, Credentials(profiles), false, None);
    var answer := hw.Ask(request);
    if answer.NoCredentials? {
      hw.Close();
      return Skips;
    }
    if answer.Refused? || answer.response.count != 1 { return Throws; }
    var k := IndexOf(profiles, answer.response.id);
    if k < |profiles| { return Selects(k); }
    hw.Close();
    r := Skips;
  }

  /**
   * One enumeration of the devices. `None` is an exception; `|profiles|` means that no key was
   * found, and then every listed Yubico device was ruled out or the deadline passed.
   */
  method Scan(hw: Hardware, profiles: seq<KeyProfile>, ghost from: nat, start: nat, deadline: nat)
    returns (r: Option<nat>)
    requires hw.Valid() && hw.open.None? && from <= |hw.log| && start <= hw.now && deadline <= start + MAX_TIMEOUT
    requires Searching(hw.log, from, deadline)
    modifies hw
    ensures hw.Valid() && old(hw.log) < hw.log && old(hw.now) <= hw.now && Searching(hw.log, from, deadline)
    ensures forall i | |old(hw.log)| < i < |hw.log| :: !hw.log[i].Listed?
    ensures Steady(hw.log, |old(hw.log)|, deadline)
    ensures hw.log[|old(hw.log)|].Listed? || hw.log[|old(hw.log)|].Failure?
    ensures r.None? ==> Trouble(hw.log, |old(hw.log)|)
    ensures r.Some? ==> r.value <= |profiles| && hw.log[|old(hw.log)|].Listed?
    ensures r == Some(|profiles|) ==>
              && hw.open.None?
              && (ScanDone(hw.log, |old(hw.log)|, |hw.log|, profiles) ||
                  (hw.now >= deadline && TimedOut(hw.log, |old(hw.log)|, deadline)))
    ensures r.Some? && r.value < |profiles| ==>
              hw.open.Some? && Found(hw.log, |old(hw.log)|, profiles, r.value, hw.open.value)
  {
    ghost var n := |hw.log|;
    var devices := hw.Manifest();
    if devices.None? {
      TroubleNow(hw.log, n);
      return None;
    }
    for i := 0 to |devices.value|
      invariant hw.Valid() && hw.open.None? && old(hw.log) < hw.log && old(hw.now) <= hw.now
      invariant Searching(hw.log, from, deadline) && hw.log[n] == Listed(devices.value)
      invariant forall k | n < k < |hw.log| :: !hw.log[k].Listed?
      invariant Steady(hw.log, n, deadline)
      invariant AllDismissed(hw.log, n, |hw.log|, profiles, devices.value, i)
    {
      ghost var before := hw.log;
      var probe := ProbeDevice(hw, profiles, devices.value[i], from, start, deadline);
      SteadyOn(before, hw.log, n, deadline);
      AllDismissedStays(before, hw.log, n, n, |before|, |hw.log|, profiles, devices.value, i);
      match probe {
        case Throws =>
          TroubleStays(hw.log, |before|, n);
          return None;
        case Skips =>
          if devices.value[i].vendor == 0x1050 {
            DismissedStays(hw.log, |before|, n, profiles, devices.value[i].path);
          }
        case TimesOut =>
          TimedOutStays(hw.log, hw.log, |before|, n, deadline);
          return Some(|profiles|);
        case Selects(k) =>
          FoundStays(hw.log, hw.log, |before|, n, profiles, k, hw.open.value);
          return Some(k);
      }
    }
    r := Some(|profiles|);
  }

  lemma TroubleStays(log: seq<Call>, from: nat, from': nat)
    requires Trouble(log, from) && from' <= from
    ensures Trouble(log, from')
  {
  }

  lemma DismissedStays(log: seq<Call>, from: nat, from': nat, profiles: seq<KeyProfile>, path: nat)
    requires Dismissed(log, from, |log|, profiles, path) && from' <= from
    ensures Dismissed(log, from', |log|, profiles, path)
  {
  }

  /** Within a scan there is no sleep, and a look at the clock before the deadline leads to a device. */
  ghost predicate Steady(log: seq<Call>, from: nat, deadline: nat) {
    forall i | from <= i < |log| :: SteadyAt(log, i, deadline)
  }

  predicate SteadyAt(log: seq<Call>, i: nat, deadline: nat)
    requires i < |log|
  {
    && !log[i].Slept?
    && (log[i].Clock? && log[i].at < deadline ==> i + 1 < |log| && log[i + 1].TimeoutSet?)
  }

  lemma SteadyOn(before: seq<Call>, log: seq<Call>, n: nat, deadline: nat)
    requires before <= log && Steady(before, n, deadline) && Steady(log, |before|, deadline)
    ensures Steady(log, n, deadline)
  {
    forall i | n <= i < |before| ensures SteadyAt(log, i, deadline) {
      assert SteadyAt(before, i, deadline);
    }
  }

  /**
   * The search does not idle: before the deadline a look at the clock is never followed by just
   * another one, a sleep ends with a look at the clock, and if there is still time that leads to a
   * new enumeration.
   */
  ghost predicate Driven(log: seq<Call>, from: nat, deadline: nat) {
    forall i | from <= i < |log| - 1 :: Leads(log, from, i, deadline)
  }

  predicate Leads(log: seq<Call>, from: nat, i: nat, deadline: nat)
    requires from <= i < |log| - 1
  {
    && (log[i].Slept? ==> log[i + 1].Clock?)
    && (log[i].Clock? && log[i].at < deadline ==>
          && !log[i + 1].Clock?
          && (from < i && log[i - 1].Slept? ==> log[i + 1].Listed? || log[i + 1].Failure?))
  }

  lemma PauseDrives(scanned: seq<Call>, log: seq<Call>, from: nat, deadline: nat, finished: nat, t: nat, ms: int)
    requires from < |scanned| && Steady(scanned, from, deadline)
    requires log == scanned + if finished < deadline then [Clock(finished), Slept(ms), Clock(t)]
                              else [Clock(finished), Clock(t)]
    ensures Driven(log, from, deadline)
  {
    forall i | from <= i < |log| - 1 ensures Leads(log, from, i, deadline) {
      if i < |scanned| {
        assert SteadyAt(scanned, i, deadline);
        if from < i { assert SteadyAt(scanned, i - 1, deadline); }
      } else if i == |scanned| {
        assert SteadyAt(scanned, i - 1, deadline);
      }
    }
  }

  lemma DrivenOn(before: seq<Call>, log: seq<Call>, n: nat, deadline: nat)
    requires n < |before| < |log| && before < log && before[|before| - 1].Clock?
    requires Driven(before, n, deadline) && Driven(log, |before|, deadline)
    requires log[|before|].Listed? || log[|before|].Failure?
    ensures Driven(log, n, deadline)
  {
    forall i | n <= i < |log| - 1 ensures Leads(log, n, i, deadline) {
      if i < |before| - 1 {
        assert Leads(before, n, i, deadline);
      } else if i >= |before| {
        assert Leads(log, |before|, i, deadline);
      }
    }
  }

  /** How the search begins: with a look at the clock and, if there is time, an enumeration. */
  ghost predicate Begins(log: seq<Call>, n: nat, deadline: nat) {
    && n < |log| && log[n].Clock?
    && (log[n].at < deadline ==> n + 1 < |log| && (log[n + 1].Listed? || log[n + 1].Failure?))
  }

  /** One round of the search: a scan, a pause if it found nothing in time, and the clock again. */
  method ScanAndPause(hw: Hardware, profiles: seq<KeyProfile>, ghost from: nat, start: nat, deadline: nat)
    returns (r: Option<nat>, t: nat)
    requires hw.Valid() && hw.open.None? && from <= |hw.log| && start <= hw.now && deadline <= start + MAX_TIMEOUT
    requires Searching(hw.log, from, deadline)
    requires Thorough(hw.log, from, profiles) && LastDone(hw.log, from, profiles)
    modifies hw
    ensures hw.Valid() && old(hw.log) < hw.log && old(hw.now) <= hw.now && Searching(hw.log, from, deadline)
    ensures hw.log[|old(hw.log)|].Listed? || hw.log[|old(hw.log)|].Failure?
    ensures r.None? ==> Trouble(hw.log, from)
    ensures r.Some? ==>
              && r.value <= |profiles| && Thorough(hw.log, from, profiles)
              && |hw.log| > |old(hw.log)| + 1 && hw.log[|hw.log| - 1] == Clock(t) && t <= hw.now
    ensures r == Some(|profiles|) ==>
              && hw.open.None? && Driven(hw.log, |old(hw.log)|, deadline)
              && (t < deadline ==> old(hw.now) < t && LastDone(hw.log, from, profiles))
    ensures r.Some? && r.value < |profiles| ==>
              hw.open.Some? && Found(hw.log, from, profiles, r.value, hw.open.value)
  {
    t := 0;
    r := Scan(hw, profiles, from, start, deadline);
    if r.None? {
      TroubleStays(hw.log, |old(hw.log)|, from);
      return;
    }
    ghost var done := hw.log;
    NextScan(old(hw.log), done, from, profiles);
    t := Pause(hw, r.value == |profiles|, |old(hw.log)|, deadline);
    QuietCalls(done, hw.log, from, profiles);
    if r.value < |profiles| { FoundStays(done, hw.log, |old(hw.log)|, from, profiles, r.value, hw.open.value); }
  }

  /** After a scan: the clock, at most a quarter of a second of sleep if nothing was found in time, the clock again. */
  method Pause(hw: Hardware, idle: bool, ghost from: nat, deadline: nat) returns (t: nat)
    requires hw.Valid() && from < |hw.log| && Steady(hw.log, from, deadline)
    modifies hw`log, hw`now
    ensures hw.Valid() && old(hw.log) < hw.log && old(hw.now) <= t <= hw.now && hw.log[|hw.log| - 1] == Clock(t)
    ensures forall i | |old(hw.log)| <= i < |hw.log| :: !hw.log[i].Listed? && Harmless(hw.log[i], deadline)
    ensures idle && t < deadline ==> old(hw.now) < t
    ensures idle ==> Driven(hw.log, from, deadline)
  {
    ghost var scanned := hw.log;
    var finished := hw.Ticks();
    if idle && finished < deadline {
      hw.Sleep(Min(250, deadline - finished));
    }
    t := hw.Ticks();
    if idle {
      assert hw.log == scanned + if finished < deadline
                                 then [Clock(finished), Slept(Min(250, deadline - finished)), Clock(t)]
                                 else [Clock(finished), Clock(t)];
      PauseDrives(scanned, hw.log, from, deadline, finished, t, Min(250, deadline - finished));
    }
  }

  /**
   * The search: scan until a key is found or the deadline passes, pausing between scans. `None`
   * is an exception; `|profiles|` means that no key was found by the deadline.
   */
  method Select(hw: Hardware, profiles: seq<KeyProfile>, ghost from: nat, start: nat, deadline: nat)
    returns (r: Option<nat>)
    requires hw.Valid() && hw.open.None? && from <= |hw.log| && start <= hw.now && deadline <= start + MAX_TIMEOUT
    requires Searching(hw.log, from, deadline) && forall i | from <= i < |hw.log| :: !hw.log[i].Listed?
    modifies hw
    ensures hw.Valid() && old(hw.log) <= hw.log && old(hw.now) <= hw.now && Searching(hw.log, from, deadline)
    ensures Begins(hw.log, |old(hw.log)|, deadline)
    ensures r.None? ==> Trouble(hw.log, from)
    ensures r.Some? ==> r.value <= |profiles| && Thorough(hw.log, from, profiles)
    ensures r == Some(|profiles|) ==>
              && hw.open.None? && hw.now >= deadline && TimedOut(hw.log, from, deadline)
              && Driven(hw.log, |old(hw.log)|, deadline)
    ensures r.Some? && r.value < |profiles| ==>
              hw.open.Some? && Found(hw.log, from, profiles, r.value, hw.open.value)
  {
    var selected: nat := |profiles|;
    ghost var n := |hw.log|;
    var t: nat := hw.Ticks();
    while selected == |profiles| && t < deadline
      invariant hw.Valid() && old(hw.log) < hw.log && old(hw.now) <= hw.now && t <= hw.now && selected <= |profiles|
      invariant Searching(hw.log, from, deadline) && Thorough(hw.log, from, profiles)
      invariant hw.log[|hw.log| - 1] == Clock(t) && hw.log[n].Clock?
      invariant if |hw.log| == n + 1 then selected == |profiles| else Begins(hw.log, n, deadline)
      invariant selected == |profiles| ==>
                  && hw.open.None? && Driven(hw.log, n, deadline)
                  && (t < deadline ==> LastDone(hw.log, from, profiles))
      invariant selected < |profiles| ==> hw.open.Some? && Found(hw.log, from, profiles, selected, hw.open.value)
      decreases selected == |profiles|, deadline - t
    {
      ghost var before := hw.log;
      var scanned;
      scanned, t := ScanAndPause(hw, profiles, from, start, deadline);
      if scanned.None? { return None; }
      selected := scanned.value;
      if selected == |profiles| { DrivenOn(before, hw.log, n, deadline); }
    }
    if selected == |profiles| { TimedOutNow(hw.log, from, deadline); }
    r := Some(selected);
  }

  /** What a returned proof rests on: the last two calls are the answered touch and its verification. */
  ghost predicate Justified(log: seq<Call>, from: nat, profiles: seq<KeyProfile>, proof: Proof) {
    && from + 2 <= |log| && proof.index < |profiles|
    && var k := |log| - 2;
    && var profile := profiles[proof.index];
    && log[k].Asked? && log[k].answer.Answered?
    && var request := log[k].request;
    && var response := log[k].answer.response;
    && request.presence && request.salt == Some(profile.salt) && request.allowed == [profile.credential]
    && (forall i | 0 <= i < k && log[i].Asked? :: log[i].request.challenge < request.challenge)
    && response.count == 1 && TouchOnly(response.flags) && response.id == profile.credential
    && log[k + 1] == Verified(request, response, profile.publicKey)
    && proof.secret == response.secret && |proof.secret| == 32
    && Found(log[..k], from, profiles, proof.index, request.device)
    && DiscoveryOnly(log[..k], from)
  }

  /** The request for a touch that `profile` answers with its secret. */
  function TouchRequest(device: nat, challenge: nat, profile: KeyProfile): Request {
    Request(device, challenge, [profile.credential], true, Some(profile.salt))
  }

  /** The single request that can release a secret, to the key that is open, within the time left. */
  method AskTouch(hw: Hardware, profile: KeyProfile, ghost from: nat, start: nat, deadline: nat)
    returns (asked: Option<Request>, answer: Answer, ghost asking: seq<Call>)
    requires hw.Valid() && hw.open.Some? && from <= |hw.log| && start <= hw.now && deadline <= start + MAX_TIMEOUT
    requires Bounded(hw.log, from, deadline)
    modifies hw`log, hw`now, hw`draws
    ensures hw.Valid() && old(hw.now) <= hw.now && Bounded(hw.log, from, deadline)
    ensures asked.None? ==>
              && old(hw.log) <= hw.log && NothingVerified(hw.log, |old(hw.log)|)
              && (forall i | |old(hw.log)| <= i < |hw.log| :: !hw.log[i].Listed?)
              && (TimedOut(hw.log, |old(hw.log)|, deadline) || Trouble(hw.log, |old(hw.log)|))
    ensures asked.Some? ==>
              && asked.value == TouchRequest(hw.open.value, asked.value.challenge, profile)
              && |asking| == |old(hw.log)| + 2 && old(hw.log) <= asking
              && asking[|old(hw.log)|].Clock? && asking[|old(hw.log)| + 1].TimeoutSet?
              && hw.log == asking + [Asked(asked.value, answer)]
              && forall i | 0 <= i < |asking| && asking[i].Asked? ::
                   asking[i].request.challenge < asked.value.challenge
  {
    asked, answer, asking := None, Refused, hw.log;
    var t := hw.Ticks();
    if t >= deadline {
      TimedOutNow(hw.log, |old(hw.log)|, deadline);
      return;
    }
    var ok := hw.SetTimeout(deadline - t, t);
    if !ok {
      TroubleNow(hw.log, |old(hw.log)|);
      return;
    }
    var challenge := hw.Draw();
    var request := TouchRequest(hw.open.value, challenge, profile);
    asking := hw.log;
    answer := hw.Ask(request);
    asked := Some(request);
  }

  /** The checks on the answer to a touch, before its signature. */
  method CheckAnswer(profile: KeyProfile, answer: Answer) returns (ok: bool)
    ensures ok <==>
              && answer.Answered? && answer.response.count == 1
              && TouchOnly(answer.response.flags) && answer.response.id == profile.credential
  {
    if !answer.Answered? { return false; }
    FlagTest(answer.response.flags);
    if answer.response.count != 1 || answer.response.flags & 5 != 1 { return false; }
    ok := Equal(answer.response.id, profile.credential);
  }

  /** The touch of the key that is open, and the checks on its answer. */
  method TouchSelected(hw: Hardware, profiles: seq<KeyProfile>, index: nat, ghost from: nat, start: nat, deadline: nat)
    returns (r: Option<Proof>)
    requires hw.Valid() && hw.open.Some? && from <= |hw.log| && start <= hw.now && deadline <= start + MAX_TIMEOUT
    requires index < |profiles| && Found(hw.log, from, profiles, index, hw.open.value)
    requires Bounded(hw.log, from, deadline) && DiscoveryOnly(hw.log, from) && NothingVerified(hw.log, from)
    modifies hw
    ensures hw.Valid() && old(hw.log) <= hw.log && old(hw.now) <= hw.now && Bounded(hw.log, from, deadline)
    ensures r.Some? <==> Released(hw.log, |old(hw.log)|)
    ensures r.Some? ==> r.value.index == index && Justified(hw.log, from, profiles, r.value)
    ensures r.None? ==> TimedOut(hw.log, |old(hw.log)|, deadline) || Trouble(hw.log, |old(hw.log)|)
    ensures forall i | |old(hw.log)| <= i < |hw.log| :: !hw.log[i].Listed?
  {
    var profile := profiles[index];
    var asked, answer, asking := AskTouch(hw, profile, from, start, deadline);
    if asked.None? { return None; }
    FoundStays(old(hw.log), asking, from, from, profiles, index, hw.open.value);
    var ok := CheckAnswer(profile, answer);
    if !ok {
      TroubleNow(hw.log, |old(hw.log)|);
      return None;
    }
    r := VerifyTouch(hw, profiles, index, from, asked.value, answer.response, asking);
    OneVerification(hw.log, |old(hw.log)|);
  }

  lemma OneVerification(log: seq<Call>, from: nat)
    requires |log| == from + 4 && !log[from].Verified? && !log[from + 1].Verified? && !log[from + 2].Verified?
    ensures Released(log, from) <==> log[from + 3].Verified? && |log[from + 3].response.secret| == 32
    ensures Bad(log[from + 2]) || Bad(log[from + 3]) ==> Trouble(log, from)
  {
  }

  /** The signature over the answer to `request`, and the length of the secret that came with it. */
  method VerifyTouch(hw: Hardware, profiles: seq<KeyProfile>, index: nat, ghost from: nat, request: Request,
                     response: Response, ghost asking: seq<Call>)
    returns (r: Option<Proof>)
    requires hw.Valid() && from <= |asking| && index < |profiles|
    requires hw.log == asking + [Asked(request, Answered(response))]
    requires request == TouchRequest(request.device, request.challenge, profiles[index])
    requires forall i | 0 <= i < |asking| && asking[i].Asked? :: asking[i].request.challenge < request.challenge
    requires response.count == 1 && TouchOnly(response.flags) && response.id == profiles[index].credential
    requires Found(asking, from, profiles, index, request.device) && DiscoveryOnly(asking, from)
    modifies hw`log
    ensures hw.Valid() && old(hw.log) <= hw.log && |hw.log| == |asking| + 2
    ensures hw.log[|asking| + 1].Failure? || hw.log[|asking| + 1].Verified?
    ensures r.Some? <==> hw.log[|asking| + 1].Verified? && |hw.log[|asking| + 1].response.secret| == 32
    ensures r.Some? ==> r.value.index == index && Justified(hw.log, from, profiles, r.value)
    ensures r.None? ==> Bad(hw.log[|asking|]) || Bad(hw.log[|asking| + 1])
  {
    var ok := hw.Verify(request, response, profiles[index].publicKey);
    if !ok || |response.secret| != 32 { return None; }
    assert hw.log ==
        asking + [Asked(request, Answered(response)), Verified(request, response, profiles[index].publicKey)];
    TouchJustifies(asking, from, profiles, index, request, response);
    r := Some(Proof(index, response.secret));
  }

  lemma TouchJustifies(asking: seq<Call>, from: nat, profiles: seq<KeyProfile>, index: nat, request: Request,
                       response: Response)
    requires from <= |asking| && index < |profiles|
    requires request.presence && request.salt == Some(profiles[index].salt) &&
               request.allowed == [profiles[index].credential]
    requires forall i | 0 <= i < |asking| && asking[i].Asked? :: asking[i].request.challenge < request.challenge
    requires response.count == 1 && TouchOnly(response.flags) && response.id == profiles[index].credential
    requires |response.secret| == 32
    requires Found(asking, from, profiles, index, request.device) && DiscoveryOnly(asking, from)
    ensures var asked := Asked(request, Answered(response));
            var verified := Verified(request, response, profiles[index].publicKey);
            Justified(asking + [asked, verified], from, profiles, Proof(index, response.secret))
  {
    var log := asking + [Asked(request, Answered(response)), Verified(request, response, profiles[index].publicKey)];
    assert log[..|log| - 2] == asking;
  }

  lemma NothingLater(log: seq<Call>, from: nat, from': nat, deadline: nat)
    requires (TimedOut(log, from, deadline) || Trouble(log, from)) && from' <= from
    ensures TimedOut(log, from', deadline) || Trouble(log, from')
  {
    if TimedOut(log, from, deadline) { TimedOutStays(log, log, from, from', deadline); }
    else { TroubleStays(log, from, from'); }
  }

  /** Arguments that `touchAnyKey` does not refuse. */
  predicate Acceptable(profiles: seq<KeyProfile>, timeout: int) {
    && 0 < timeout <= MAX_TIMEOUT && 0 < |profiles| <= 8
    && forall i | 0 <= i < |profiles| :: 16 <= |profiles[i].credential| <= 2048
  }

  /**
   * The whole call. A proof comes only from a fresh, verified, touch-only assertion of the
   * enrolled key it names. There is none only for bad arguments, if a call failed or was
   * answered wrongly, or if the clock passed the deadline although every enumeration but the
   * last was worked through: each Yubico device it listed was asked and ruled out. Every
   * timeout ends by the deadline; the device is closed on every exit.
   */
  method TouchAnyKey(hw: Hardware, profiles: seq<KeyProfile>, timeout: int)
    returns (r: Option<Proof>, ghost deadline: nat)
    requires hw.Valid() && hw.open.None?
    modifies hw
    ensures hw.Valid() && hw.open.None? && old(hw.log) <= hw.log
    ensures (hw.log == old(hw.log) <==> !Acceptable(profiles, timeout)) && (hw.log == old(hw.log) ==> r.None?)
    ensures Acceptable(profiles, timeout) <==>
              && 1 <= timeout <= 45000 && 1 <= |profiles| <= 8
              && forall i | 0 <= i < |profiles| :: 16 <= |profiles[i].credential| <= 2048
    ensures 0 < timeout ==> old(hw.now) + timeout <= deadline <= hw.now + timeout
    ensures Bounded(hw.log, |old(hw.log)|, deadline)
    ensures r.Some? <==> Released(hw.log, |old(hw.log)|)
    ensures r.Some? ==> Justified(hw.log, |old(hw.log)|, profiles, r.value)
    ensures Acceptable(profiles, timeout) ==> Begins(hw.log, |old(hw.log)| + 1, deadline)
    ensures r.None? && Acceptable(profiles, timeout) ==>
              || Trouble(hw.log, |old(hw.log)|)
              || (TimedOut(hw.log, |old(hw.log)|, deadline) && Thorough(hw.log, |old(hw.log)|, profiles))
  {
    ghost var from := |hw.log|;
    r, deadline := None, if timeout > 0 then hw.now + timeout else hw.now;
    if timeout <= 0 || timeout > MAX_TIMEOUT || profiles == [] || |profiles| > 8 { return; }
    for i := 0 to |profiles|
      invariant forall j | 0 <= j < i :: 16 <= |profiles[j].credential| <= 2048
    {
      if |profiles[i].credential| < 16 || |profiles[i].credential| > 2048 { return; }
    }
    var start := hw.Ticks();
    var limit := start + timeout;
    deadline := limit;
    var selected := Select(hw, profiles, from, start, limit);
    if selected.Some? && selected.value < |profiles| {
      ghost var found := hw.log;
      SearchIsHarmless(found, from, limit);
      r := TouchSelected(hw, profiles, selected.value, from, start, limit);
      QuietCalls(found, hw.log, from, profiles);
      if r.None? { NothingLater(hw.log, |found|, from, limit); }
    }
    hw.Close();
  }
}
