/** The credential provider of src/provider.cpp: the list of credentials it builds, polls and tears down. */
module Provider {
  import opened Basics
  import opened Credential

  datatype Scenario = Invalid | Logon | UnlockWorkstation | ChangePassword | CredUi | Plap

  /** What `GetCredentialCount` looks for: an unexpired proof. */
  predicate Fresh(f: Fields, now: nat) {
    f.ready.Some? && !Expired(f, now)
  }

  /** What comes of one user: no valid profile, a profile, or no memory left to read the SID. */
  datatype User = Unavailable | Available | Exhausted

  datatype Status = Pointer | Failure | Success

  /** The number of users, of the first `n`, whose profile loads. */
  function Loaded(users: seq<User>, n: nat): nat
    requires n <= |users|
  {
    if n == 0 then 0 else Loaded(users, n - 1) + if users[n - 1].Available? then 1 else 0
  }

  /** The users the loop gets through: all of them, or those before memory runs out. */
  function Reached(users: seq<User>): (n: nat)
    ensures n <= |users| && (forall i | 0 <= i < n :: !users[i].Exhausted?) && (n < |users| ==> users[n].Exhausted?)
  {
    if users == [] || users[0].Exhausted? then 0 else 1 + Reached(users[1..])
  }

  /** The positions, of the first `n`, of users whose profile loads. */
  ghost function AvailableAt(users: seq<User>, n: nat): set<nat>
    requires n <= |users|
  {
    set i: nat | i < n && users[i].Available?
  }

  lemma {:induction false} LoadedCounts(users: seq<User>, n: nat)
    requires n <= |users|
    ensures Loaded(users, n) == |AvailableAt(users, n)|
  {
    if n == 0 {
    } else {
      LoadedCounts(users, n - 1);
      var before := AvailableAt(users, n - 1);
      assert AvailableAt(users, n) == if users[n - 1].Available? then before + {n - 1} else before;
    }
  }

  /** How many credentials a first enumeration lists. */
  function Listed(users: Option<seq<User>>): (n: nat)
    ensures users.None? || |users.value| > 256 ==> n == 0
    ensures users.Some? && |users.value| <= 256 ==> n == |AvailableAt(users.value, Reached(users.value))|
  {
    if users.None? || |users.value| > 256 then 0 else
    LoadedCounts(users.value, Reached(users.value));
    Loaded(users.value, Reached(users.value))
  }

  /** Whether a first enumeration runs out of memory. */
  predicate Throws(users: Option<seq<User>>) {
    users.Some? && |users.value| <= 256 && Exhausted in users.value
  }

  class Provider {
    var credentials: seq<Credential>
    var hasEvents: bool
    var hasUsers: bool
    var enumerated: bool
    var supported: bool

    ghost predicate Valid()
      reads this
    {
      && (forall i, j | 0 <= i < j < |credentials| :: credentials[i] != credentials[j])
      && (!enumerated ==> credentials == [])
    }

    constructor ()
      ensures Valid() && credentials == [] && !hasEvents && !hasUsers && !supported
    {
      credentials, hasEvents, hasUsers, enumerated, supported := [], false, false, false, false;
    }

    /** The loop that every teardown starts with: each listed credential is deselected once. */
    method DeselectAll()
      requires Valid()
      modifies credentials
      ensures forall c | c in credentials :: c.View() == DeselectSection(old(c.View()))
    {
      for i := 0 to |credentials|
        invariant forall k | 0 <= k < i :: credentials[k].View() == DeselectSection(old(credentials[k].View()))
        invariant forall k | i <= k < |credentials| :: credentials[k].View() == old(credentials[k].View())
      {
        credentials[i].SetDeselected();
      }
    }

    method SetUsageScenario(scenario: Scenario, remote: bool) returns (accepted: bool)
      requires Valid()
      modifies this, credentials
      ensures Valid() && credentials == [] && hasEvents == old(hasEvents) && hasUsers == old(hasUsers)
      ensures accepted == supported == ((scenario.Logon? || scenario.UnlockWorkstation?) && !remote)
      ensures forall c | c in old(credentials) :: c.View() == DeselectSection(old(c.View()))
    {
      DeselectAll();
      credentials, enumerated := [], false;
      supported := (scenario.Logon? || scenario.UnlockWorkstation?) && !remote;
      accepted := supported;
    }

    method Advise(present: bool) returns (accepted: bool)
      requires Valid()
      modifies this, credentials
      ensures Valid() && credentials == old(credentials) && enumerated == old(enumerated)
      ensures hasUsers == old(hasUsers) && supported == old(supported)
      ensures accepted == present && hasEvents == (old(hasEvents) || present)
      ensures forall c | c in credentials ::
                c.View() == if present then old(c.View()).(events := true) else old(c.View())
    {
      if !present { return false; }
      hasEvents := true;
      for i := 0 to |credentials|
        invariant credentials == old(credentials)
        invariant forall k | 0 <= k < i :: credentials[k].View() == old(credentials[k].View()).(events := true)
        invariant forall k | i <= k < |credentials| :: credentials[k].View() == old(credentials[k].View())
        invariant Valid() && hasEvents && enumerated == old(enumerated) && hasUsers == old(hasUsers) &&
                    supported == old(supported)
        modifies credentials
      {
        credentials[i].SetProviderEvents(true);
      }
      accepted := true;
    }

    method UnAdvise()
      requires Valid()
      modifies this, credentials
      ensures Valid() && credentials == [] && !hasEvents && hasUsers == old(hasUsers) && supported == old(supported)
      ensures forall c | c in old(credentials) :: c.View() == DeselectSection(old(c.View()))
    {
      DeselectAll();
      credentials, hasEvents, enumerated := [], false, false;
    }

    /** A null array is refused and changes nothing; any other tears the list down. */
    method SetUserArray(present: bool) returns (accepted: bool)
      requires Valid()
      modifies this, credentials
      ensures Valid() && accepted == present && hasEvents == old(hasEvents) && supported == old(supported)
      ensures hasUsers == (old(hasUsers) || present)
      ensures credentials == if present then [] else old(credentials)
      ensures forall c | c in old(credentials) ::
                c.View() == if present then DeselectSection(old(c.View())) else old(c.View())
    {
      if !present { return false; }
      DeselectAll();
      credentials, hasUsers, enumerated := [], true, false;
      accepted := true;
    }

    /**
     * `enumerate`, once per configuration. `users` is what the user array answers: nothing if it
     * cannot be counted. Running out of memory ends it with an exception, after which the
     * credentials listed so far stay and are not enumerated again.
     */
    method Enumerate(users: Option<seq<User>>) returns (ok: bool)
      requires Valid()
      modifies this
      ensures Valid() && hasEvents == old(hasEvents) && hasUsers == old(hasUsers) && supported == old(supported)
      ensures credentials == old(credentials) ||
              (old(credentials) == [] && fresh(credentials) &&
               forall c | c in credentials :: c.View() == Initial(hasEvents))
      ensures if old(enumerated) || !supported || !hasUsers
              then ok && credentials == old(credentials) && enumerated == old(enumerated)
              else enumerated && |credentials| == Listed(users) &&
                   (ok <==> users.None? || |users.value| > 256 ||
                            forall i | 0 <= i < |users.value| :: !users.value[i].Exhausted?)
    {
      if enumerated || !supported || !hasUsers { return true; }
      enumerated := true;
      if users.None? || |users.value| > 256 { return true; }
      for i := 0 to |users.value|
        invariant Valid() && enumerated && fresh(credentials) && |credentials| == Loaded(users.value, i) &&
                    i <= Reached(users.value)
        invariant hasEvents == old(hasEvents) && hasUsers == old(hasUsers) && supported == old(supported)
        invariant forall c | c in credentials :: c.View() == Initial(hasEvents)
      {
        if users.value[i].Exhausted? { return false; }
        if users.value[i].Available? {
          var credential := new Credential(hasEvents);
          credentials := credentials + [credential];
        }
      }
      ok := true;
    }

    /** The scan for the first credential whose proof is ready; `clock` gives each reading of the tick count. */
    method Poll(clock: nat -> nat) returns (found: Option<nat>)
      requires Valid()
      modifies credentials
      ensures found.Some? ==>
                found.value < |credentials| && Fresh(old(credentials[found.value].View()), clock(found.value))
      ensures var scanned := if found.Some? then found.value else |credentials|;
              forall k | 0 <= k < scanned :: !Fresh(old(credentials[k].View()), clock(k)) &&
                credentials[k].View() == old(credentials[k].View()).(ready := None)
      ensures found.Some? ==>
                forall k | found.value <= k < |credentials| :: credentials[k].View() == old(credentials[k].View())
    {
      for i := 0 to |credentials|
        invariant forall k | 0 <= k < i :: !Fresh(old(credentials[k].View()), clock(k)) &&
                    credentials[k].View() == old(credentials[k].View()).(ready := None)
        invariant forall k | i <= k < |credentials| :: credentials[k].View() == old(credentials[k].View())
      {
        var available := credentials[i].Ready(clock(i));
        if available { return Some(i); }
      }
      found := None;
    }

    /**
     * Without somewhere to write the answer nothing happens; if enumeration throws, the answer is
     * empty. Otherwise automatic submission is offered exactly when some already listed credential
     * holds a fresh proof, and then for the first such; credentials just enumerated hold none.
     */
    method GetCredentialCount(pointers: bool, users: Option<seq<User>>, clock: nat -> nat)
      returns (status: Status, count: nat, selected: Option<nat>, automatic: bool)
      requires Valid()
      modifies this, credentials
      ensures Valid() && hasEvents == old(hasEvents) && hasUsers == old(hasUsers) && supported == old(supported)
      ensures enumerated == (old(enumerated) || (pointers && supported && hasUsers))
      ensures status.Pointer? <==> !pointers
      ensures status.Failure? <==> pointers && !old(enumerated) && supported && hasUsers && Throws(users)
      ensures !status.Success? ==> count == 0 && selected.None? && !automatic
      ensures status.Pointer? ==>
                credentials == old(credentials) && forall c | c in credentials :: c.View() == old(c.View())
      ensures credentials == old(credentials) ||
                (old(credentials) == [] && fresh(credentials) && |credentials| == Listed(users))
      ensures forall k | 0 <= k < |old(credentials)| ::
                var was, now := old(credentials[k].View()), old(credentials)[k].View();
                now == was || (now == was.(ready := None) && !Fresh(was, clock(k)))
      ensures status.Success? ==>
                && count == |credentials|
                && (automatic <==>
                      exists i :: 0 <= i < |old(credentials)| && Fresh(old(credentials[i].View()), clock(i)))
                && (!automatic ==> selected == if count == 1 then Some(0) else None)
      ensures automatic ==> credentials == old(credentials) && selected.Some? && selected.value < count &&
                            Fresh(old(credentials[selected.value].View()), clock(selected.value)) &&
                            forall k | 0 <= k < selected.value :: !Fresh(old(credentials[k].View()), clock(k))
    {
      count, selected, automatic := 0, None, false;
      if !pointers { return Pointer, 0, None, false; }
      var ok := Enumerate(users);
      if !ok { return Failure, 0, None, false; }
      status, count := Success, |credentials|;
      selected := if count == 1 then Some(0) else None;
      ghost var listed := credentials;
      var found := Poll(clock);
      automatic := found.Some?;
      if automatic { selected := found; }
      assert credentials == listed;
    }
  }
}
