/**
 * The recovery screen of src/recovery_screen.cpp: which helper runs it starts, over every
 * sequence of window messages, confirmations and helper exits.
 */
module RecoveryScreen {
  import opened Basics

  /** One run of the recovery tool for a Windows directory and a credential file. */
  datatype Helper = Helper(windows: string, key: string, restoration: bool)

  /** What `start` finds: the drive of the selected installation, the credential file, whether a thread starts. */
  datatype Inputs = Inputs(drive: Option<string>, key: Option<string>, threadStarts: bool)

  /** `busy`, `verifiedWindows` and `verifiedKey`. */
  datatype Screen = Screen(busy: bool, verifiedWindows: string, verifiedKey: string)

  /** The listed installations are the drives' "Windows" directories. */
  function Root(drive: string): string {
    drive + "Windows"
  }

  datatype Started = Ignored | Refused | Launch(helper: Helper) | AskFirst(helper: Helper)

  /** `start`, up to the confirmation that a restoration asks for. */
  function Start(s: Screen, restoration: bool, i: Inputs): (Screen, Started) {
    if s.busy then (s, Ignored)
    else if i.drive.None? || i.key.None? then (s, Refused)
    else
      var h := Helper(Root(i.drive.value), i.key.value, restoration);
      if restoration && (h.windows != s.verifiedWindows || h.key != s.verifiedKey) then (s, Refused)
      else if restoration then (s.(busy := true), AskFirst(h))
      else if i.threadStarts then (s.(busy := true), Launch(h))
      else (s, Refused)
  }

  function Finished(s: Screen, h: Helper, success: bool): Screen {
    if success && !h.restoration then Screen(false, h.windows, h.key) else s.(busy := false, verifiedWindows := "")
  }

  /** The message handlers as they update the globals. */
  class Window {
    var busy: bool
    var verifiedWindows: string
    var verifiedKey: string

    ghost function View(): Screen
      reads this
    {
      Screen(busy, verifiedWindows, verifiedKey)
    }

    constructor ()
      ensures View() == Screen(false, "", "")
    {
      busy, verifiedWindows, verifiedKey := false, "", "";
    }

    method SelectionChanged()
      modifies this
      ensures View() == old(View()).(verifiedWindows := "")
    {
      verifiedWindows := "";
    }

    method StartHelper(restoration: bool, i: Inputs) returns (r: Started)
      modifies this
      ensures (View(), r) == Start(old(View()), restoration, i)
      ensures verifiedWindows == old(verifiedWindows) && verifiedKey == old(verifiedKey)
      ensures r.Ignored? <==> old(busy)
      ensures busy <==> r.Ignored? || r.Launch? || r.AskFirst?
      ensures r.Launch? <==> !old(busy) && !restoration && i.drive.Some? && i.key.Some? && i.threadStarts
      ensures r.AskFirst? <==>
                && !old(busy) && restoration && i.drive.Some? && i.key.Some?
                && i.drive.value + "Windows" == verifiedWindows && i.key.value == verifiedKey
      ensures r.Launch? || r.AskFirst? ==>
                r.helper == Helper(i.drive.value + "Windows", i.key.value, restoration)
    {
      if busy { return Ignored; }
      busy := true;
      if i.drive.None? || i.key.None? {
        busy := false;
        return Refused;
      }
      var h := Helper(Root(i.drive.value), i.key.value, restoration);
      if restoration {
        if h.windows != verifiedWindows || h.key != verifiedKey {
          busy := false;
          return Refused;
        }
        return AskFirst(h);
      }
      if !i.threadStarts {
        busy := false;
        return Refused;
      }
      r := Launch(h);
    }

    /** The answer to the confirmation, and whether the thread then starts. */
    method Answer(yes: bool, threadStarts: bool) returns (launched: bool)
      modifies this
      ensures launched == (yes && threadStarts) &&
                View() == if launched then old(View()) else old(View()).(busy := false)
    {
      launched := yes && threadStarts;
      if !launched { busy := false; }
    }

    method HelperFinished(h: Helper, success: bool)
      modifies this
      ensures View() == Finished(old(View()), h, success)
      ensures !busy
      ensures if success && !h.restoration then verifiedWindows == h.windows && verifiedKey == h.key
              else verifiedWindows == ""
    {
      busy := false;
      if success && !h.restoration {
        verifiedWindows, verifiedKey := h.windows, h.key;
      } else {
        verifiedWindows := "";
      }
    }
  }

  // ----- Runs

  datatype Event = Launched(helper: Helper) | Completed(helper: Helper, success: bool)

  /**
   * `confirming` is the restoration whose confirmation box is open; `running` are the helpers not
   * yet reported back.
   */
  datatype System = System(screen: Screen, confirming: Option<Helper>, running: seq<Helper>, log: seq<Event>)

  datatype Message =
    | SelectionChange
    | CheckClick(inputs: Inputs)
    | RestoreClick(inputs: Inputs)
    | Answer(yes: bool, threadStarts: bool)
    | Exit(index: nat, success: bool)
    | ReportLost(index: nat)            // the worker could not post its result

  const START := System(Screen(false, "", ""), None, [], [])

  predicate Enabled(s: System, m: Message) {
    match m
    case Answer(_, _) => s.confirming.Some?
    case Exit(index, _) => index < |s.running|
    case ReportLost(index) => index < |s.running|
    case _ => true
  }

  function Without(running: seq<Helper>, index: nat): seq<Helper>
    requires index < |running|
  {
    running[..index] + running[index + 1..]
  }

  function Began(s: System, started: (Screen, Started)): System {
    var s' := s.(screen := started.0);
    match started.1
    case Launch(h) => s'.(running := s.running + [h], log := s.log + [Launched(h)])
    case AskFirst(h) => s'.(confirming := Some(h))
    case _ => s'
  }

  function Step(s: System, m: Message): System
    requires Enabled(s, m)
  {
    match m
    case SelectionChange => s.(screen := s.screen.(verifiedWindows := ""))
    case CheckClick(i) => Began(s, Start(s.screen.(verifiedWindows := ""), false, i))
    case RestoreClick(i) => Began(s, Start(s.screen, true, i))
    case Answer(yes, threadStarts) =>
      var h := s.confirming.value;
      if yes && threadStarts then s.(confirming := None, running := s.running + [h], log := s.log + [Launched(h)])
      else s.(confirming := None, screen := s.screen.(busy := false))
    case Exit(index, success) =>
      var h := s.running[index];
      s.(screen := Finished(s.screen, h, success), running := Without(s.running, index),
          log := s.log + [Completed(h, success)])
    case ReportLost(index) => s.(running := Without(s.running, index))
  }

  function Execute(messages: seq<Message>): Option<System> {
    if messages == [] then Some(START) else
    var before := Execute(messages[..|messages| - 1]);
    var m := messages[|messages| - 1];
    if before.Some? && Enabled(before.value, m) then Some(Step(before.value, m)) else None
  }

  // ----- The invariant

  /** The last helper that reported back before position `k` was a successful check of this pair. */
  ghost predicate CheckedLast(log: seq<Event>, k: nat, windows: string, key: string) {
    exists j :: 0 <= j < k <= |log| && log[j] == Completed(Helper(windows, key, false), true) &&
                forall i | j < i < k :: !log[i].Completed?
  }

  /** Some helper reported back in between. */
  ghost predicate ReportedBetween(log: seq<Event>, i: int, k: int) {
    exists c :: i < c < k && c < |log| && 0 <= c && log[c].Completed?
  }

  ghost predicate Quiet(s: System) {
    forall k | 0 <= k < |s.log| && s.log[k].Launched? :: ReportedBetween(s.log, k, |s.log|)
  }

  ghost predicate Inv(s: System) {
    && |s.running| + (if s.confirming.Some? then 1 else 0) <= 1
    && (s.running != [] || s.confirming.Some? ==> s.screen.busy)
    && (!s.screen.busy || s.confirming.Some? ==> Quiet(s))
    && (s.screen.verifiedWindows != "" ==> CheckedLast(s.log, |s.log|, s.screen.verifiedWindows, s.screen.verifiedKey))
    && (s.confirming.Some? ==>
          s.confirming.value.restoration &&
              CheckedLast(s.log, |s.log|, s.confirming.value.windows, s.confirming.value.key))
  }

  ghost predicate LogInv(log: seq<Event>) {
    && (forall k | 0 <= k < |log| && log[k].Launched? && log[k].helper.restoration ::
          CheckedLast(log, k, log[k].helper.windows, log[k].helper.key))
    && (forall i, k | 0 <= i < k < |log| && log[i].Launched? && log[k].Launched? :: ReportedBetween(log, i, k))
  }

  lemma CheckedStays(log: seq<Event>, e: Event, k: nat, windows: string, key: string)
    requires k <= |log| && CheckedLast(log, k, windows, key)
    ensures CheckedLast(log + [e], k, windows, key)
    ensures k == |log| && !e.Completed? ==> CheckedLast(log + [e], k + 1, windows, key)
  {
    var j :| 0 <= j < k <= |log| && log[j] == Completed(Helper(windows, key, false), true) &&
      forall i | j < i < k :: !log[i].Completed?;
    assert (log + [e])[j] == log[j];
  }

  lemma ReportedStays(log: seq<Event>, e: Event, i: int, k: int)
    requires ReportedBetween(log, i, k)
    ensures ReportedBetween(log + [e], i, k) && ReportedBetween(log + [e], i, k + 1)
  {
    var c :| i < c < k && c < |log| && 0 <= c && log[c].Completed?;
    assert (log + [e])[c] == log[c];
  }

  lemma LaunchKeepsLog(s: System, h: Helper)
    requires LogInv(s.log) && Quiet(s) && (h.restoration ==> CheckedLast(s.log, |s.log|, h.windows, h.key))
    ensures LogInv(s.log + [Launched(h)])
  {
    var log := s.log + [Launched(h)];
    forall k | 0 <= k < |log| && log[k].Launched? && log[k].helper.restoration
      ensures CheckedLast(log, k, log[k].helper.windows, log[k].helper.key)
    {
      CheckedStays(s.log, Launched(h), k, log[k].helper.windows, log[k].helper.key);
    }
    forall i, k | 0 <= i < k < |log| && log[i].Launched? && log[k].Launched? ensures ReportedBetween(log, i, k) {
      ReportedStays(s.log, Launched(h), i, k);
    }
  }

  lemma ReportKeepsLog(log: seq<Event>, h: Helper, success: bool)
    requires LogInv(log)
    ensures LogInv(log + [Completed(h, success)])
  {
    var log', e := log + [Completed(h, success)], Completed(h, success);
    forall k | 0 <= k < |log'| && log'[k].Launched? && log'[k].helper.restoration
      ensures CheckedLast(log', k, log'[k].helper.windows, log'[k].helper.key)
    {
      CheckedStays(log, e, k, log'[k].helper.windows, log'[k].helper.key);
    }
    forall i, k | 0 <= i < k < |log'| && log'[i].Launched? && log'[k].Launched? ensures ReportedBetween(log', i, k) {
      ReportedStays(log, e, i, k);
    }
  }

  lemma LaunchKeepsInv(s: System, h: Helper, screen: Screen)
    requires Inv(s) && LogInv(s.log) && Quiet(s) && s.running == [] &&
               (h.restoration ==> CheckedLast(s.log, |s.log|, h.windows, h.key))
    requires screen.busy && (screen.verifiedWindows == "" || screen == s.screen)
    ensures var s' := System(screen, None, [h], s.log + [Launched(h)]); Inv(s') && LogInv(s'.log)
  {
    LaunchKeepsLog(s, h);
    if screen.verifiedWindows != "" {
      CheckedStays(s.log, Launched(h), |s.log|, screen.verifiedWindows, screen.verifiedKey);
    }
  }

  lemma ExitKeepsInv(s: System, index: nat, success: bool)
    requires Inv(s) && LogInv(s.log) && index < |s.running|
    ensures var s' := Step(s, Exit(index, success)); Inv(s') && LogInv(s'.log)
  {
    var s' := Step(s, Exit(index, success));
    var h, n := s.running[index], |s.log|;
    ReportKeepsLog(s.log, h, success);
    assert s'.log[n] == Completed(h, success);
    forall k | 0 <= k < |s'.log| && s'.log[k].Launched? ensures ReportedBetween(s'.log, k, |s'.log|) {
      assert k < n < n + 1;
    }
    if success && !h.restoration { assert h == Helper(h.windows, h.key, false); }
  }

  lemma CheckKeepsInv(s: System, i: Inputs)
    requires Inv(s) && LogInv(s.log)
    ensures var s' := Step(s, CheckClick(i)); Inv(s') && LogInv(s'.log)
  {
    var started := Start(s.screen.(verifiedWindows := ""), false, i);
    if started.1.Launch? { LaunchKeepsInv(s, started.1.helper, started.0); }
  }

  lemma AnswerKeepsInv(s: System, yes: bool, threadStarts: bool)
    requires Inv(s) && LogInv(s.log) && s.confirming.Some?
    ensures var s' := Step(s, Answer(yes, threadStarts)); Inv(s') && LogInv(s'.log)
  {
    if yes && threadStarts { LaunchKeepsInv(s, s.confirming.value, s.screen); }
  }

  lemma StepKeepsInv(s: System, m: Message)
    requires Inv(s) && LogInv(s.log) && Enabled(s, m)
    ensures Inv(Step(s, m)) && LogInv(Step(s, m).log)
  {
    match m
    case CheckClick(i) => CheckKeepsInv(s, i);
    case Answer(yes, threadStarts) => AnswerKeepsInv(s, yes, threadStarts);
    case Exit(index, success) => ExitKeepsInv(s, index, success);
    case _ =>
  }

  lemma {:induction false} RunKeepsInv(messages: seq<Message>, s: System)
    requires Execute(messages) == Some(s)
    ensures Inv(s) && LogInv(s.log)
  {
    if messages == [] {
    } else {
      var before := Execute(messages[..|messages| - 1]).value;
      RunKeepsInv(messages[..|messages| - 1], before);
      StepKeepsInv(before, messages[|messages| - 1]);
    }
  }

  // ----- What every message sequence guarantees

  lemma OneHelperAtATime(messages: seq<Message>, s: System)
    requires Execute(messages) == Some(s)
    ensures |s.running| <= 1 && (s.running != [] ==> s.screen.busy && s.confirming.None?)
  {
    RunKeepsInv(messages, s);
  }

  /** A restoration of a pair starts only if the last helper that reported back was a successful check of that pair. */
  lemma RestorationWasChecked(messages: seq<Message>, s: System, k: nat) returns (j: nat)
    requires Execute(messages) == Some(s) && k < |s.log| && s.log[k].Launched? && s.log[k].helper.restoration
    ensures j < k && s.log[j] == Completed(s.log[k].helper.(restoration := false), true)
    ensures forall i | j < i < k :: !s.log[i].Completed?
  {
    RunKeepsInv(messages, s);
    var h := s.log[k].helper;
    assert CheckedLast(s.log, k, h.windows, h.key);
    j :| 0 <= j < k && s.log[j] == Completed(Helper(h.windows, h.key, false), true) &&
      forall i | j < i < k :: !s.log[i].Completed?;
  }

  /** Between two launches of restorations lies a successful check, so no check is used twice. */
  lemma ChecksAreNotReused(messages: seq<Message>, s: System, i: nat, k: nat) returns (j: nat)
    requires Execute(messages) == Some(s) && i < k < |s.log|
    requires s.log[i].Launched? && s.log[k].Launched? && s.log[k].helper.restoration
    ensures i < j < k && s.log[j] == Completed(s.log[k].helper.(restoration := false), true)
  {
    j := RestorationWasChecked(messages, s, k);
    RunKeepsInv(messages, s);
    assert ReportedBetween(s.log, i, k);
  }

  lemma RootInjective(drive: string, drive': string)
    requires Root(drive) == Root(drive')
    ensures drive == drive'
  {
    assert drive == Root(drive)[..|Root(drive)| - 7];
    assert drive' == Root(drive')[..|Root(drive')| - 7];
  }

  lemma ExecuteAppend(messages: seq<Message>, m: Message)
    requires Execute(messages).Some? && Enabled(Execute(messages).value, m)
    ensures Execute(messages + [m]) == Some(Step(Execute(messages).value, m))
  {
    assert (messages + [m])[..|messages|] == messages;
  }

  /**
   * Whatever came before, if the screen is free: after a check that could start, the question
   * to restore is asked exactly if the check succeeded and the same pair is selected.
   */
  lemma RestoreAfterCheck(messages: seq<Message>, s: System, checked: Inputs, success: bool, i: Inputs)
    requires Execute(messages) == Some(s) && !s.screen.busy
    requires checked.drive.Some? && checked.key.Some? && checked.threadStarts
    ensures var end := Execute(messages + [CheckClick(checked)] + [Exit(0, success)] + [RestoreClick(i)]);
            && end.Some?
            && (end.value.confirming.Some? <==> success && i.drive == checked.drive && i.key == checked.key)
  {
    RunKeepsInv(messages, s);
    var first := messages + [CheckClick(checked)];
    ExecuteAppend(messages, CheckClick(checked));
    ExecuteAppend(first, Exit(0, success));
    ExecuteAppend(first + [Exit(0, success)], RestoreClick(i));
    if i.drive.Some? && Root(i.drive.value) == Root(checked.drive.value) {
      RootInjective(i.drive.value, checked.drive.value);
    }
    assert |Root(checked.drive.value)| >= 7;
  }

  /** Another selection and every click on the check forget what was checked, even while the screen is busy. */
  lemma ClicksForget(s: System, i: Inputs)
    ensures Step(s, SelectionChange).screen == s.screen.(verifiedWindows := "")
    ensures Step(s, CheckClick(i)).screen.verifiedWindows == ""
    ensures s.screen.busy ==> Step(s, CheckClick(i)).running == s.running && Step(s, RestoreClick(i)) == s
  {
  }

  // ----- When the screen is free

  /** The reports that were lost in a run. */
  function Lost(messages: seq<Message>): nat {
    if messages == [] then 0 else
    Lost(messages[..|messages| - 1]) + if messages[|messages| - 1].ReportLost? then 1 else 0
  }

  /** Whatever a helper reports, and in whatever state, the screen is free afterwards. */
  lemma ReportFrees(s: System, index: nat, success: bool)
    requires index < |s.running|
    ensures !Step(s, Exit(index, success)).screen.busy
  {
  }

  lemma BusyStep(s: System, m: Message, lost: nat)
    requires Inv(s) && Enabled(s, m) && lost <= 1
    requires s.screen.busy <==> s.running != [] || s.confirming.Some? || lost > 0
    requires lost > 0 ==> s.running == [] && s.confirming.None?
    ensures var s', lost' := Step(s, m), lost + if m.ReportLost? then 1 else 0;
            && lost' <= 1
            && (s'.screen.busy <==> s'.running != [] || s'.confirming.Some? || lost' > 0)
            && (lost' > 0 ==> s'.running == [] && s'.confirming.None?)
  {
  }

  /**
   * Over every message sequence the screen is busy exactly while a helper runs, a question is
   * open, or a report was lost; one lost report blocks it for good, so there is never a second.
   */
  lemma {:induction false} BusyExactly(messages: seq<Message>, s: System)
    requires Execute(messages) == Some(s)
    ensures s.screen.busy <==> s.running != [] || s.confirming.Some? || Lost(messages) > 0
    ensures Lost(messages) <= 1 && (Lost(messages) > 0 ==> s.running == [] && s.confirming.None?)
  {
    if messages == [] {
    } else {
      var before := Execute(messages[..|messages| - 1]).value;
      BusyExactly(messages[..|messages| - 1], before);
      RunKeepsInv(messages[..|messages| - 1], before);
      BusyStep(before, messages[|messages| - 1], Lost(messages[..|messages| - 1]));
    }
  }
}
