/**
 * The two provider filters: the desktop policy of src/desktop_filter_policy.h and the gated
 * lab policy of src/filter_lab.h that it grew out of. Both decide in place, over an array of
 * Windows `BOOL`s parallel to an array of provider identifiers.
 */
module FilterPolicy {
  import opened Basics

  datatype Guid = Guid(value: nat)

  const SOVEREIGN := Guid(0x8c19c6d8_49be_4d76_9da8_fc6a09229b74)

  /** The explicitly identified convenience providers, and their names. */
  const CONVENIENCE: seq<Guid> := [
    Guid(0xd6886603_9d2f_4eb2_b667_1971041fa96b),
    Guid(0x60b78e88_ead8_445c_9cfd_0b87f74ea6cd),
    Guid(0x8af662bf_65a0_4d0a_a540_a338a999d36f),
    Guid(0xbec09223_b018_416d_a0ac_523971b639f5),
    Guid(0x2135f72a_90b5_4ed3_a7f1_8bb705ac276a),
    Guid(0xcb82ea12_9f71_446d_89e1_8d0924e1256e)]

  const NAMES: seq<string> := ["Windows Hello PIN", "Password", "Face", "Fingerprint", "Picture password", "Legacy PIN"]

  datatype Scenario = Logon | UnlockWorkstation | OtherScenario

  /** `desktop::Mode` is a DWORD read from the registry, so other values occur. */
  datatype Mode = Off | Observe | RequireKey | OtherMode

  datatype LabMode = Disabled | Diagnostic | SimulateRestriction

  datatype Preconditions = Preconditions(recoveryVerified: bool, accountScopeVerified: bool, inventoryReviewed: bool)

  datatype Decision = Decision(known: nat, excluded: nat, other: nat, applicable: bool)

  const LIMIT: nat := 256

  predicate Known(id: Guid) {
    id in CONVENIENCE
  }

  /** `convenienceName`: the name of the first entry with this identifier. */
  method ConvenienceName(id: Guid) returns (name: Option<string>)
    ensures name.Some? <==> Known(id)
    ensures name.Some? ==> exists j | 0 <= j < |CONVENIENCE| :: CONVENIENCE[j] == id && NAMES[j] == name.value
    ensures name.Some? ==> id != SOVEREIGN
  {
    for j := 0 to |CONVENIENCE|
      invariant forall k | 0 <= k < j :: CONVENIENCE[k] != id
    {
      if CONVENIENCE[j] == id {
        SovereignIsUnknown();
        return Some(NAMES[j]);
      }
    }
    return None;
  }

  lemma SovereignIsUnknown()
    ensures !Known(SOVEREIGN)
  {
  }

  // ---- Specification on values ----

  predicate Interactive(scenario: Scenario, flags: nat) {
    flags == 0 && scenario != OtherScenario
  }

  /** When the desktop policy decides at all. */
  predicate Applies(mode: Mode, scenario: Scenario, flags: nat, count: nat) {
    (mode == Observe || mode == RequireKey) && Interactive(scenario, flags) && count <= LIMIT
  }

  /** When the lab policy is armed. */
  predicate Armed(mode: LabMode, pre: Preconditions, scenario: Scenario, flags: nat) {
    && mode == SimulateRestriction && Interactive(scenario, flags)
    && pre.recoveryVerified && pre.accountScopeVerified && pre.inventoryReviewed
  }

  /** Sovereign is listed, and no earlier filter excluded it. */
  predicate Available(ids: seq<Guid>, allow: seq<int>)
    requires |ids| == |allow|
  {
    exists i | 0 <= i < |ids| :: ids[i] == SOVEREIGN && allow[i] != 0
  }

  /** Some convenience provider is still allowed. */
  predicate Open(ids: seq<Guid>, allow: seq<int>)
    requires |ids| == |allow|
  {
    exists i | 0 <= i < |ids| :: Known(ids[i]) && allow[i] != 0
  }

  /** Every convenience provider is excluded, and no other entry is touched. */
  function Restricted(ids: seq<Guid>, allow: seq<int>): (r: seq<int>)
    requires |ids| == |allow|
    ensures |r| == |allow|
  {
    seq(|allow|, i requires 0 <= i < |allow| => if Known(ids[i]) then 0 else allow[i])
  }

  function Desktop(mode: Mode, scenario: Scenario, flags: nat, ids: seq<Guid>, allow: seq<int>): (r: seq<int>)
    requires |ids| == |allow|
    ensures |r| == |allow|
  {
    if Applies(mode, scenario, flags, |ids|) && mode == RequireKey then Restricted(ids, allow) else allow
  }

  function Lab(mode: LabMode, pre: Preconditions, scenario: Scenario, flags: nat,
               ids: seq<Guid>, allow: seq<int>): (r: seq<int>)
    requires |ids| == |allow|
    ensures |r| == |allow|
  {
    if Armed(mode, pre, scenario, flags) && Available(ids, allow) then Restricted(ids, allow) else allow
  }

  /** What some other filter does that excludes a fixed set of positions. */
  function Excluding(positions: set<nat>, allow: seq<int>): (r: seq<int>)
    ensures |r| == |allow|
  {
    seq(|allow|, i requires 0 <= i < |allow| => if i in positions then 0 else allow[i])
  }

  ghost function KnownAt(ids: seq<Guid>, n: nat): set<nat>
    requires n <= |ids|
  {
    set i: nat | i < n && Known(ids[i])
  }

  ghost function ExcludedAt(ids: seq<Guid>, allow: seq<int>, n: nat): set<nat>
    requires n <= |ids| && n <= |allow|
  {
    set i: nat | i < n && Known(ids[i]) && allow[i] == 0
  }

  ghost function SovereignAt(ids: seq<Guid>, n: nat): set<nat>
    requires n <= |ids|
  {
    set i: nat | i < n && ids[i] == SOVEREIGN
  }

  ghost function OtherAt(ids: seq<Guid>, n: nat): set<nat>
    requires n <= |ids|
  {
    set i: nat | i < n && !Known(ids[i]) && ids[i] != SOVEREIGN
  }

  /** The decision about the first `n` entries, by counting positions. */
  ghost function Tally(ids: seq<Guid>, allow: seq<int>, n: nat): Decision
    requires n <= |ids| && n <= |allow|
  {
    Decision(|KnownAt(ids, n)|, |ExcludedAt(ids, allow, n)|, |OtherAt(ids, n)|, true)
  }

  // ---- The two loops ----

  /** `apply`. The caller's arrays hold at least `count` entries, where it passes them at all. */
  method Apply(mode: Mode, scenario: Scenario, flags: nat,
               providers: array?<Guid>, allow: array?<int>, count: nat) returns (result: Decision)
    requires providers != null ==> count <= providers.Length
    requires allow != null ==> count <= allow.Length
    modifies allow
    ensures result.applicable <==>
              && providers != null && allow != null && (mode == Observe || mode == RequireKey)
              && flags == 0 && (scenario == Logon || scenario == UnlockWorkstation) && count <= 256
    ensures providers != null && allow != null ==>
              allow[..count] == Desktop(mode, scenario, flags, providers[..count], old(allow[..count]))
    ensures allow != null ==> allow[count..] == old(allow[count..])
    ensures allow != null && providers == null ==> allow[..] == old(allow[..])
    ensures result == if result.applicable then Tally(providers[..], allow[..], count) else Decision(0, 0, 0, false)
  {
    result := Decision(0, 0, 0, false);
    if (mode != Observe && mode != RequireKey) || flags != 0 || providers == null || allow == null || count > LIMIT
       || (scenario != Logon && scenario != UnlockWorkstation) {
      return;
    }
    result := Decide(mode, providers, allow, count);
    assert allow[..count] == Desktop(mode, scenario, flags, providers[..count], old(allow[..count]));
  }

  /** The loop of `apply`. */
  method Decide(mode: Mode, providers: array<Guid>, allow: array<int>, count: nat) returns (result: Decision)
    requires count <= providers.Length && count <= allow.Length
    modifies allow
    ensures forall k | 0 <= k < count ::
              allow[k] == if mode == RequireKey && Known(providers[k]) then 0 else old(allow[k])
    ensures forall k | count <= k < allow.Length :: allow[k] == old(allow[k])
    ensures result == Tally(providers[..], allow[..], count)
  {
    result := Decision(0, 0, 0, true);
    var i := 0;
    while i < count
      invariant 0 <= i <= count
      invariant forall k | 0 <= k < i ::
                  allow[k] == if mode == RequireKey && Known(providers[k]) then 0 else old(allow[k])
      invariant forall k | i <= k < allow.Length :: allow[k] == old(allow[k])
      invariant result == Tally(providers[..], allow[..], i)
    {
      ghost var earlier := allow[..];
      var name := ConvenienceName(providers[i]);
      if name.Some? {
        result := result.(known := result.known + 1);
        if mode == RequireKey { allow[i] := 0; }
        if allow[i] == 0 { result := result.(excluded := result.excluded + 1); }
      } else if providers[i] != SOVEREIGN {
        result := result.(other := result.other + 1);
      }
      TallyGrows(providers[..], earlier, allow[..], i);
      i := i + 1;
    }
  }

  /** A count grows by the entry just looked at. */
  lemma Grows(before: set<nat>, after: set<nat>, i: nat, hit: bool)
    requires forall k :: k in before ==> k < i
    requires forall k :: k in after <==> k in before || (hit && k == i)
    ensures |after| == |before| + if hit then 1 else 0
  {
    assert after == if hit then before + {i} else before;
  }

  lemma KnownGrows(ids: seq<Guid>, i: nat)
    requires i < |ids|
    ensures |KnownAt(ids, i + 1)| == |KnownAt(ids, i)| + if Known(ids[i]) then 1 else 0
  {
    Grows(KnownAt(ids, i), KnownAt(ids, i + 1), i, Known(ids[i]));
  }

  /** What becomes of later entries changes no earlier count. */
  lemma ExcludedGrows(ids: seq<Guid>, earlier: seq<int>, allow: seq<int>, i: nat)
    requires i < |ids| && i < |allow| == |earlier|
    requires forall k | 0 <= k < i :: allow[k] == earlier[k]
    ensures |ExcludedAt(ids, allow, i + 1)|
         == |ExcludedAt(ids, earlier, i)| + if Known(ids[i]) && allow[i] == 0 then 1 else 0
  {
    Grows(ExcludedAt(ids, earlier, i), ExcludedAt(ids, allow, i + 1), i, Known(ids[i]) && allow[i] == 0);
  }

  lemma TallyGrows(ids: seq<Guid>, earlier: seq<int>, allow: seq<int>, i: nat)
    requires i < |ids| && i < |allow| == |earlier|
    requires forall k | 0 <= k < i :: allow[k] == earlier[k]
    ensures var known, sovereign := Known(ids[i]), ids[i] == SOVEREIGN;
            var d, d' := Tally(ids, earlier, i), Tally(ids, allow, i + 1);
            && d'.known == d.known + (if known then 1 else 0)
            && d'.excluded == d.excluded + (if known && allow[i] == 0 then 1 else 0)
            && d'.other == d.other + (if !known && !sovereign then 1 else 0)
  {
    KnownGrows(ids, i);
    ExcludedGrows(ids, earlier, allow, i);
    OtherGrows(ids, i);
  }

  lemma SovereignGrows(ids: seq<Guid>, i: nat)
    requires i < |ids|
    ensures |SovereignAt(ids, i + 1)| == |SovereignAt(ids, i)| + if ids[i] == SOVEREIGN then 1 else 0
  {
    Grows(SovereignAt(ids, i), SovereignAt(ids, i + 1), i, ids[i] == SOVEREIGN);
  }

  lemma OtherGrows(ids: seq<Guid>, i: nat)
    requires i < |ids|
    ensures |OtherAt(ids, i + 1)| == |OtherAt(ids, i)| + if !Known(ids[i]) && ids[i] != SOVEREIGN then 1 else 0
  {
    Grows(OtherAt(ids, i), OtherAt(ids, i + 1), i, !Known(ids[i]) && ids[i] != SOVEREIGN);
  }

  /** `ProviderFilter::Filter`: look for Sovereign first, then restrict. */
  method Filter(mode: LabMode, pre: Preconditions, scenario: Scenario, flags: nat,
                providers: array?<Guid>, allow: array?<int>, count: nat)
    requires providers != null ==> count <= providers.Length
    requires allow != null ==> count <= allow.Length
    modifies allow
    ensures providers != null && allow != null ==>
              allow[..count] == Lab(mode, pre, scenario, flags, providers[..count], old(allow[..count]))
    ensures allow != null ==> allow[count..] == old(allow[count..])
    ensures allow != null && providers == null ==> allow[..] == old(allow[..])
  {
    if mode != SimulateRestriction || flags != 0 || !pre.recoveryVerified || !pre.accountScopeVerified
       || !pre.inventoryReviewed || providers == null || allow == null
       || (scenario != Logon && scenario != UnlockWorkstation) {
      return;
    }
    ghost var ids := providers[..count];
    ghost var before := allow[..count];
    var available := false;
    for i := 0 to count
      invariant available <==> exists k | 0 <= k < i :: ids[k] == SOVEREIGN && before[k] != 0
    {
      if providers[i] == SOVEREIGN && allow[i] != 0 { available := true; }
    }
    if !available { return; }
    assert Available(ids, before);
    for i := 0 to count
      invariant forall k | 0 <= k < i :: allow[k] == if Known(ids[k]) then 0 else before[k]
      invariant forall k | i <= k < allow.Length :: allow[k] == old(allow[k])
    {
      var name := ConvenienceName(providers[i]);
      if name.Some? { allow[i] := 0; }
    }
    assert allow[..count] == Restricted(ids, before);
  }

  // ---- What the policies promise ----

  /** Known, other and Sovereign entries partition the array; excluded entries are among the known. */
  lemma {:induction false} CountsPartition(ids: seq<Guid>, allow: seq<int>, n: nat)
    requires n <= |ids| == |allow|
    ensures |KnownAt(ids, n)| + |OtherAt(ids, n)| + |SovereignAt(ids, n)| == n
    ensures |ExcludedAt(ids, allow, n)| <= |KnownAt(ids, n)|
  {
    if n == 0 {
    } else {
      CountsPartition(ids, allow, n - 1);
      KnownGrows(ids, n - 1);
      ExcludedGrows(ids, allow, allow, n - 1);
      OtherGrows(ids, n - 1);
      SovereignGrows(ids, n - 1);
      SovereignIsUnknown();
    }
  }

  /** Once the key is required every known entry counts as excluded; merely observing changes nothing. */
  lemma RequiredExcludesAllKnown(mode: Mode, scenario: Scenario, flags: nat, ids: seq<Guid>, allow: seq<int>)
    requires |ids| == |allow| && Applies(mode, scenario, flags, |ids|)
    ensures var after := Desktop(mode, scenario, flags, ids, allow);
            if mode == RequireKey then ExcludedAt(ids, after, |ids|) == KnownAt(ids, |ids|) && !Open(ids, after)
            else after == allow
  {
  }

  /** At sign-in and at unlock alike, with the key required no known entry within the limit stays open. */
  lemma SignInAndUnlockAreRestricted(scenario: Scenario, ids: seq<Guid>, allow: seq<int>, i: nat)
    requires |ids| == |allow| <= 256 && (scenario == Logon || scenario == UnlockWorkstation) && i < |ids|
    ensures var after := Desktop(RequireKey, scenario, 0, ids, allow);
            after[i] == if ids[i] in CONVENIENCE then 0 else allow[i]
  {
  }

  /** In any other case the desktop policy leaves the array alone. */
  lemma OtherwiseUntouched(mode: Mode, scenario: Scenario, flags: nat, ids: seq<Guid>, allow: seq<int>)
    requires |ids| == |allow|
    requires mode != RequireKey || scenario == OtherScenario || flags != 0 || |ids| > 256
    ensures Desktop(mode, scenario, flags, ids, allow) == allow
  {
  }

  /** The lab policy restricts exactly when it is armed in full and Sovereign is listed and allowed. */
  lemma LabDecides(mode: LabMode, pre: Preconditions, scenario: Scenario, flags: nat, ids: seq<Guid>, allow: seq<int>)
    requires |ids| == |allow|
    ensures var armed := mode == SimulateRestriction && flags == 0 && pre == Preconditions(true, true, true) &&
                         (scenario == Logon || scenario == UnlockWorkstation) &&
                         exists i | 0 <= i < |ids| :: ids[i] == SOVEREIGN && allow[i] != 0;
            var after := Lab(mode, pre, scenario, flags, ids, allow);
            forall i | 0 <= i < |ids| :: after[i] == if armed && ids[i] in CONVENIENCE then 0 else allow[i]
  {
  }

  /** The desktop policy never allows what an earlier filter excluded, and takes away only known identifiers. */
  lemma OnlyClearsKnown(mode: Mode, scenario: Scenario, flags: nat, ids: seq<Guid>, allow: seq<int>, i: nat)
    requires |ids| == |allow| && i < |ids|
    ensures var after := Desktop(mode, scenario, flags, ids, allow);
            && (after[i] == allow[i] || (after[i] == 0 && Known(ids[i])))
            && (ids[i] == SOVEREIGN ==> after[i] == allow[i])
  {
    SovereignIsUnknown();
  }

  lemma DesktopIdempotent(mode: Mode, scenario: Scenario, flags: nat, ids: seq<Guid>, allow: seq<int>)
    requires |ids| == |allow|
    ensures var once := Desktop(mode, scenario, flags, ids, allow);
            Desktop(mode, scenario, flags, ids, once) == once
  {
  }

  /** It makes no difference whether another filter excludes its positions before or after. */
  lemma DesktopCommutes(mode: Mode, scenario: Scenario, flags: nat, ids: seq<Guid>, allow: seq<int>, others: set<nat>)
    requires |ids| == |allow|
    ensures Desktop(mode, scenario, flags, ids, Excluding(others, allow))
         == Excluding(others, Desktop(mode, scenario, flags, ids, allow))
  {
  }

  /** The lab policy looks at the array it is given, and yet the two policies commute. */
  lemma PoliciesCommute(mode: Mode, labMode: LabMode, pre: Preconditions, scenario: Scenario, flags: nat,
                        ids: seq<Guid>, allow: seq<int>)
    requires |ids| == |allow|
    ensures Desktop(mode, scenario, flags, ids, Lab(labMode, pre, scenario, flags, ids, allow))
         == Lab(labMode, pre, scenario, flags, ids, Desktop(mode, scenario, flags, ids, allow))
  {
    var r := Restricted(ids, allow);
    AvailableAfter(ids, allow);
    assert Restricted(ids, r) == r;
  }

  lemma AvailableAfter(ids: seq<Guid>, allow: seq<int>)
    requires |ids| == |allow|
    ensures Available(ids, Restricted(ids, allow)) <==> Available(ids, allow)
  {
    SovereignIsUnknown();
    var r := Restricted(ids, allow);
    assert forall i | 0 <= i < |ids| :: ids[i] == SOVEREIGN ==> r[i] == allow[i];
  }

  /** `a` allows no entry that `b` does not. */
  predicate AllowsNoMore(a: seq<int>, b: seq<int>)
    requires |a| == |b|
  {
    forall i | 0 <= i < |a| && a[i] != 0 :: b[i] != 0
  }

  lemma RestrictionBites(ids: seq<Guid>, allow: seq<int>)
    requires |ids| == |allow|
    ensures AllowsNoMore(Restricted(ids, allow), allow)
    ensures Restricted(ids, allow) == allow <==> !Open(ids, allow)
    ensures AllowsNoMore(allow, Restricted(ids, allow)) <==> !Open(ids, allow)
  {
    var r := Restricted(ids, allow);
    if Open(ids, allow) {
      var i :| 0 <= i < |ids| && Known(ids[i]) && allow[i] != 0;
      assert r[i] == 0;
    } else {
      forall i | 0 <= i < |ids| ensures r[i] == allow[i] { }
    }
  }

  /**
   * The desktop policy against the lab policy, in every mode and on arrays of every size. With
   * nothing left to restrict they agree. Otherwise they decide alike exactly when both restrict
   * or neither does, and the desktop policy allows no more exactly when it restricts itself or
   * the lab policy does not.
   */
  lemma DesktopRefinesLab(mode: Mode, labMode: LabMode, pre: Preconditions, scenario: Scenario, flags: nat,
                          ids: seq<Guid>, allow: seq<int>)
    requires |ids| == |allow|
    ensures var desktop := Desktop(mode, scenario, flags, ids, allow);
            var lab := Lab(labMode, pre, scenario, flags, ids, allow);
            var bites := mode == RequireKey && Interactive(scenario, flags) && |ids| <= LIMIT;
            var gated := Armed(labMode, pre, scenario, flags) && Available(ids, allow);
            && (desktop == lab <==> (bites <==> gated) || !Open(ids, allow))
            && (AllowsNoMore(desktop, lab) <==> bites || !gated || !Open(ids, allow))
  {
    RestrictionBites(ids, allow);
  }

  /**
   * With Sovereign present and allowed, the mode that only observes leaves the password open that
   * the lab policy closes.
   */
  lemma ObservingLeavesOpen(pre: Preconditions)
    requires pre.recoveryVerified && pre.accountScopeVerified && pre.inventoryReviewed
    ensures var ids := [SOVEREIGN, CONVENIENCE[1]];
            && Desktop(Observe, Logon, 0, ids, [1, 1]) == [1, 1]
            && Lab(SimulateRestriction, pre, Logon, 0, ids, [1, 1]) == [1, 0]
  {
    var ids := [SOVEREIGN, CONVENIENCE[1]];
    assert ids[0] == SOVEREIGN && [1, 1][0] != 0;
    assert Known(ids[1]);
    SovereignIsUnknown();
    assert Restricted(ids, [1, 1]) == [1, 0];
  }

  /** One entry over the limit and the desktop policy leaves the password open that the lab policy closes. */
  lemma OversizeArrayIsLeftOpen(pre: Preconditions)
    requires pre.recoveryVerified && pre.accountScopeVerified && pre.inventoryReviewed
    ensures var ids := [SOVEREIGN, CONVENIENCE[1]] + seq(255, _ => SOVEREIGN);
            var allow := seq(257, _ => 1);
            && |ids| == |allow| == 257
            && Desktop(RequireKey, Logon, 0, ids, allow)[1] == 1
            && Lab(SimulateRestriction, pre, Logon, 0, ids, allow)[1] == 0
  {
    var ids := [SOVEREIGN, CONVENIENCE[1]] + seq(255, _ => SOVEREIGN);
    var allow := seq(257, _ => 1);
    assert ids[0] == SOVEREIGN && allow[0] != 0;
    assert Known(ids[1]);
  }
}
