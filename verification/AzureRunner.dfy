/** The reboot-resilient job runner (`/opt/tfl/run-job.sh`) as a crash-recovery protocol.

    The disk keeps the done marker and the installed interpreter; everything else is
    lost when a reboot restarts the enabled systemd service from the top of the script.
    A run is the list of events that happened, oldest first, so the properties below
    speak of events and of what is on disk, not of the script's internal state. */
module AzureRunner {
  import opened Text
  import Runs

  const BOOTSTRAP_TRIES := 3
  const DRIVER_POLLS := 80

  /** Where the script is. */
  datatype PC =
    | Start
    | Bootstrap(tries: nat)
    | Tooling
    | DriverWait(polls: nat)
    | SetupBlock
    | Launch
    | Working
    | Returned
    | SelfDelete
    | Exited

  datatype State = State(pc: PC, marker: bool, python: bool, gone: bool)

  datatype Event =
    | TestMarker(found: bool)
    | FindPython
    | InstallPython(works: bool)
    | ToolingDone
    | DriverPoll(ready: bool)
    | SetupReturns
    | SetupExits
    | WorkStarts
    | WorkReturns
    | Touch(written: bool)
    | AskDelete(metadata: bool, sent: bool)
    | Reboot
    | VmGone

  type Trace = seq<Event>

  /** Does the script do `e` at `pc`? */
  predicate Does(pc: PC, e: Event) {
    match e
    case TestMarker(_) => pc.Start?
    case FindPython => pc.Bootstrap?
    case InstallPython(_) => pc.Bootstrap?
    case ToolingDone => pc.Tooling?
    case DriverPoll(_) => pc.DriverWait?
    case SetupReturns => pc.SetupBlock?
    case SetupExits => pc.SetupBlock?
    case WorkStarts => pc.Launch?
    case WorkReturns => pc.Working?
    case Touch(_) => pc.Returned?
    case AskDelete(_, _) => pc.SelfDelete?
    case Reboot => true
    case VmGone => true
  }

  /** What the script tests. Deleting needs the interpreter (it decodes the token) and an
      answer from the metadata service. */
  predicate ComesOut(s: State, e: Event) {
    match e
    case TestMarker(found) => found == s.marker
    case FindPython => s.python
    case InstallPython(_) => !s.python
    case AskDelete(metadata, sent) => sent == (s.python && metadata)
    case _ => true
  }

  /** May `e` happen in `s`? The outcomes of the environment's own calls are free;
      what the script tests is not. */
  predicate Enabled(s: State, e: Event) {
    !s.gone && Does(s.pc, e) && ComesOut(s, e)
  }

  /** `gpu` is whether the job asked for accelerators. */
  function Apply(gpu: bool, s: State, e: Event): State {
    match e
    case TestMarker(found) => s.(pc := if found then SelfDelete else Bootstrap(0))
    case FindPython => s.(pc := Tooling)
    case InstallPython(works) =>
      var tries := if s.pc.Bootstrap? then s.pc.tries + 1 else 0;
      s.(pc := if tries < BOOTSTRAP_TRIES then Bootstrap(tries) else Tooling, python := works)
    case ToolingDone => s.(pc := if gpu then DriverWait(0) else SetupBlock)
    case DriverPoll(ready) =>
      var polls := if s.pc.DriverWait? then s.pc.polls + 1 else 0;
      s.(pc := if ready || polls >= DRIVER_POLLS then SetupBlock else DriverWait(polls))
    case SetupReturns => s.(pc := Launch)
    case SetupExits => s.(pc := Exited)
    case WorkStarts => s.(pc := Working)
    case WorkReturns => s.(pc := Returned)
    case Touch(written) => s.(pc := SelfDelete, marker := s.marker || written)
    case AskDelete(_, _) => s.(pc := Exited)
    case Reboot => s.(pc := Start)
    case VmGone => s.(gone := true)
  }

  function Next(gpu: bool): (State, Event) -> Option<State> {
    (s, e) => if Enabled(s, e) then Some(Apply(gpu, s, e)) else None
  }

  /** The state after `tr`, starting from the first boot of a VM whose image may
      already carry the interpreter; `None` when `tr` is not a run. */
  function Exec(gpu: bool, image: bool, tr: Trace): Option<State> {
    Runs.After(Next(gpu), State(Start, false, image, false), tr)
  }

  predicate IsRun(gpu: bool, image: bool, tr: Trace) {
    Exec(gpu, image, tr).Some?
  }

  // ------------------------------------------------------------------
  // What a reader sees in a trace
  // ------------------------------------------------------------------

  /** The events of the current boot. */
  function ThisBoot(tr: Trace): Trace {
    if tr == [] || tr[|tr| - 1] == Reboot then []
    else ThisBoot(tr[..|tr| - 1]) + [tr[|tr| - 1]]
  }

  /** The events up to the moment the marker reached the disk. */
  function BeforeMarker(tr: Trace): Trace {
    if Touch(true) !in tr then tr else BeforeMarker(tr[..|tr| - 1])
  }

  function Starts(tr: Trace): nat { multiset(tr)[WorkStarts] }

  function Reboots(tr: Trace): nat { multiset(tr)[Reboot] }

  lemma Peel(tr: Trace)
    requires tr != []
    ensures tr == tr[..|tr| - 1] + [tr[|tr| - 1]]
    ensures multiset(tr) == multiset(tr[..|tr| - 1]) + multiset{tr[|tr| - 1]}
  {
    assert tr == tr[..|tr| - 1] + [tr[|tr| - 1]];
  }

  lemma PrefixRuns(gpu: bool, image: bool, tr: Trace, i: nat)
    requires IsRun(gpu, image, tr) && i < |tr|
    ensures IsRun(gpu, image, tr[..i]) && Enabled(Exec(gpu, image, tr[..i]).value, tr[i])
  {
    Runs.PrefixRuns(Next(gpu), State(Start, false, image, false), tr, i);
  }

  lemma {:induction false} ThisBootIsPast(tr: Trace, e: Event)
    requires e in ThisBoot(tr)
    ensures e in tr
  {
    if e != tr[|tr| - 1] {
      ThisBootIsPast(tr[..|tr| - 1], e);
    }
  }

  // ------------------------------------------------------------------
  // Inductive invariants
  // ------------------------------------------------------------------

  predicate BeforeWork(pc: PC) {
    pc.Start? || pc.Bootstrap? || pc.Tooling? || pc.DriverWait? || pc.SetupBlock? || pc.Launch?
  }

  /** What the marker says about the past. */
  predicate MarkerHistory(s: State, tr: Trace) {
    && (s.marker <==> Touch(true) in tr)
    && (s.marker ==> WorkReturns in tr)
    && (s.marker ==> s.pc.Start? || s.pc.SelfDelete? || s.pc.Exited?)
    && (s.pc.Returned? ==> WorkReturns in tr)
  }

  /** What the script's position says about the current boot. */
  predicate BootHistory(s: State, boot: Trace) {
    && (s.pc.Returned? ==> WorkReturns in boot)
    && (s.pc.SelfDelete? && !s.marker ==> WorkReturns in boot && Touch(false) in boot)
    && (Touch(false) in boot ==> !s.marker && (s.pc.SelfDelete? || s.pc.Exited?))
  }

  lemma {:induction false} MarkerHistoryHolds(gpu: bool, image: bool, tr: Trace)
    requires IsRun(gpu, image, tr)
    ensures MarkerHistory(Exec(gpu, image, tr).value, tr)
  {
    if tr != [] {
      var init, last := tr[..|tr| - 1], tr[|tr| - 1];
      MarkerHistoryHolds(gpu, image, init);
      MarkerStep(gpu, Exec(gpu, image, init).value, init, last);
      assert tr == init + [last];
    }
  }

  lemma MarkerStep(gpu: bool, s: State, tr: Trace, e: Event)
    requires MarkerHistory(s, tr) && Enabled(s, e)
    ensures MarkerHistory(Apply(gpu, s, e), tr + [e])
  {
    assert forall x :: x in tr + [e] <==> x in tr || x == e;
  }

  lemma {:induction false} BootHistoryHolds(gpu: bool, image: bool, tr: Trace)
    requires IsRun(gpu, image, tr)
    ensures BootHistory(Exec(gpu, image, tr).value, ThisBoot(tr))
  {
    if tr != [] {
      var init, last := tr[..|tr| - 1], tr[|tr| - 1];
      BootHistoryHolds(gpu, image, init);
      MarkerHistoryHolds(gpu, image, init);
      if last != Reboot {
      }
    }
  }

  /** One start for each boot at most, and none while the marker is on disk. */
  lemma {:induction false} StartsHold(gpu: bool, image: bool, tr: Trace)
    requires IsRun(gpu, image, tr)
    ensures Starts(tr) <= Reboots(BeforeMarker(tr)) +
              (if BeforeWork(Exec(gpu, image, tr).value.pc) && Touch(true) !in tr then 0 else 1)
  {
    if tr != [] {
      var init, last := tr[..|tr| - 1], tr[|tr| - 1];
      StartsHold(gpu, image, init);
      MarkerHistoryHolds(gpu, image, init);
      StartsStep(gpu, Exec(gpu, image, init).value, init, last);
      assert tr == init + [last];
    }
  }

  lemma StartsStep(gpu: bool, s: State, tr: Trace, e: Event)
    requires MarkerHistory(s, tr) && Enabled(s, e)
    requires Starts(tr) <= Reboots(BeforeMarker(tr)) + (if BeforeWork(s.pc) && Touch(true) !in tr then 0 else 1)
    ensures Starts(tr + [e]) <= Reboots(BeforeMarker(tr + [e])) +
              (if BeforeWork(Apply(gpu, s, e).pc) && Touch(true) !in tr + [e] then 0 else 1)
  {
    Peel(tr + [e]);
    assert (tr + [e])[..|tr|] == tr;
  }

  function FailedPolls(boot: Trace): nat { multiset(boot)[DriverPoll(false)] }

  predicate DriverSettled(boot: Trace) {
    DriverPoll(true) in boot || FailedPolls(boot) == DRIVER_POLLS
  }

  predicate DriverHistory(pc: PC, boot: Trace) {
    && (pc.SetupBlock? || pc.Launch? ==> DriverSettled(boot))
    && (pc.DriverWait? ==> pc.polls < DRIVER_POLLS && FailedPolls(boot) == pc.polls)
    && (pc.Start? || pc.Bootstrap? || pc.Tooling? ==> FailedPolls(boot) == 0)
  }

  lemma DriverStep(s: State, boot: Trace, e: Event)
    requires DriverHistory(s.pc, boot) && Enabled(s, e) && e != Reboot
    ensures DriverHistory(Apply(true, s, e).pc, boot + [e])
  {
    assert multiset(boot + [e]) == multiset(boot) + multiset{e};
    assert DriverPoll(true) in boot ==> DriverPoll(true) in boot + [e];
    assert (boot + [e])[|boot|] == e;
  }

  lemma {:induction false} DriverHolds(image: bool, tr: Trace)
    requires IsRun(true, image, tr)
    ensures DriverHistory(Exec(true, image, tr).value.pc, ThisBoot(tr))
  {
    if tr != [] {
      var init, last := tr[..|tr| - 1], tr[|tr| - 1];
      DriverHolds(image, init);
      if last != Reboot {
        DriverStep(Exec(true, image, init).value, ThisBoot(init), last);
      }
    }
  }

  // ------------------------------------------------------------------
  // The script, over events only
  // ------------------------------------------------------------------

  /** The interpreter is on the image or some boot installed it. */
  predicate PythonThere(image: bool, tr: Trace) { image || InstallPython(true) in tr }

  function Installs(boot: Trace): nat { multiset(boot)[InstallPython(true)] + multiset(boot)[InstallPython(false)] }

  function Polls(boot: Trace): nat { multiset(boot)[DriverPoll(true)] + multiset(boot)[DriverPoll(false)] }

  /** What the script does next, judged by what this boot has done so far. */
  predicate Follows(gpu: bool, boot: Trace, e: Event) {
    if boot == [] then e.TestMarker?
    else
      match boot[|boot| - 1]
      case TestMarker(found) => if found then e.AskDelete? else e.FindPython? || e.InstallPython?
      case FindPython => e.ToolingDone?
      case InstallPython(_) => if Installs(boot) < 3 then e.FindPython? || e.InstallPython? else e.ToolingDone?
      case ToolingDone => if gpu then e.DriverPoll? else e.SetupReturns? || e.SetupExits?
      case DriverPoll(ready) => if ready || Polls(boot) == 80 then e.SetupReturns? || e.SetupExits? else e.DriverPoll?
      case SetupReturns => e.WorkStarts?
      case WorkStarts => e.WorkReturns?
      case WorkReturns => e.Touch?
      case Touch(_) => e.AskDelete?
      case _ => false
  }

  /** What the script's own tests come to, judged by everything that has happened. */
  predicate Tests(image: bool, tr: Trace, e: Event) {
    match e
    case TestMarker(found) => found <==> Touch(true) in tr
    case FindPython => PythonThere(image, tr)
    case InstallPython(_) => !PythonThere(image, tr)
    case AskDelete(metadata, sent) => sent <==> metadata && PythonThere(image, tr)
    case _ => true
  }

  /** Where the script is, told by the events of this boot. */
  predicate Located(gpu: bool, pc: PC, boot: Trace) {
    if pc.Start? then boot == []
    else
      boot != [] &&
      var last := boot[|boot| - 1];
      match pc
      case Start => false
      case Bootstrap(tries) =>
        tries < 3 && Installs(boot) == tries && Polls(boot) == 0 && (last == TestMarker(false) || last.InstallPython?)
      case Tooling => Polls(boot) == 0 && (last.FindPython? || (last.InstallPython? && Installs(boot) >= 3))
      case DriverWait(polls) =>
        polls < 80 && Polls(boot) == polls && ((last.ToolingDone? && gpu) || last == DriverPoll(false))
      case SetupBlock => (last.ToolingDone? && !gpu) || (last.DriverPoll? && (last.ready || Polls(boot) == 80))
      case Launch => last.SetupReturns?
      case Working => last.WorkStarts?
      case Returned => last.WorkReturns?
      case SelfDelete => last.Touch? || last == TestMarker(true)
      case Exited => last.SetupExits? || last.AskDelete?
  }

  /** Disk and VM, told by everything that has happened. */
  predicate Recorded(image: bool, s: State, tr: Trace) {
    && (s.marker <==> Touch(true) in tr)
    && (s.python <==> PythonThere(image, tr))
    && (s.gone <==> VmGone in tr)
  }

  lemma LocatedStep(gpu: bool, s: State, boot: Trace, e: Event)
    requires Located(gpu, s.pc, boot) && Enabled(s, e) && e != Reboot && e != VmGone
    ensures Located(gpu, Apply(gpu, s, e).pc, boot + [e])
  {
    assert multiset(boot + [e]) == multiset(boot) + multiset{e};
    assert (boot + [e])[|boot|] == e;
    if s.pc.Start? { assert boot == []; }
  }

  lemma RecordedStep(gpu: bool, image: bool, s: State, tr: Trace, e: Event)
    requires Recorded(image, s, tr) && Enabled(s, e)
    ensures Recorded(image, Apply(gpu, s, e), tr + [e])
  {
    assert forall x :: x in tr + [e] <==> x in tr || x == e;
  }

  lemma {:induction false} TraceTells(gpu: bool, image: bool, tr: Trace)
    requires IsRun(gpu, image, tr)
    ensures var s := Exec(gpu, image, tr).value;
            Recorded(image, s, tr) && (!s.gone ==> Located(gpu, s.pc, ThisBoot(tr)))
  {
    if tr != [] {
      var init, last := tr[..|tr| - 1], tr[|tr| - 1];
      TraceTells(gpu, image, init);
      var s := Exec(gpu, image, init).value;
      RecordedStep(gpu, image, s, init, last);
      assert tr == init + [last];
      if last != Reboot && last != VmGone {
        LocatedStep(gpu, s, ThisBoot(init), last);
      }
    }
  }

  lemma FollowsTells(gpu: bool, pc: PC, boot: Trace, e: Event)
    requires Located(gpu, pc, boot) && e != Reboot && e != VmGone
    ensures Does(pc, e) <==> Follows(gpu, boot, e)
  {}

  lemma TestsTell(image: bool, s: State, tr: Trace, e: Event)
    requires Recorded(image, s, tr)
    ensures ComesOut(s, e) <==> Tests(image, tr, e)
  {}

  /** The runs are exactly those of the script: an event can come next if and only if the VM is
      still there and it is a reboot, the end of the VM, or what the script's text does after
      what this boot has done, with tests that come out as everything before says. */
  lemma ScriptExactly(gpu: bool, image: bool, tr: Trace, e: Event)
    requires IsRun(gpu, image, tr)
    ensures IsRun(gpu, image, tr + [e]) <==>
              VmGone !in tr &&
              (e == Reboot || e == VmGone || (Follows(gpu, ThisBoot(tr), e) && Tests(image, tr, e)))
  {
    TraceTells(gpu, image, tr);
    var s := Exec(gpu, image, tr).value;
    TestsTell(image, s, tr, e);
    if !s.gone && e != Reboot && e != VmGone { FollowsTells(gpu, s.pc, ThisBoot(tr), e); }
    Runs.Extend(Next(gpu), State(Start, false, image, false), tr, e);
  }

  /** The delete request goes out exactly with an answer from the metadata service and an
      interpreter that the image had or some boot installed. */
  lemma DeleteSentExactly(gpu: bool, image: bool, tr: Trace, i: nat)
    requires IsRun(gpu, image, tr) && i < |tr| && tr[i].AskDelete?
    ensures tr[i].sent <==> tr[i].metadata && PythonThere(image, tr[..i])
  {
    PrefixRuns(gpu, image, tr, i);
    TraceTells(gpu, image, tr[..i]);
  }

  // ------------------------------------------------------------------
  // Safety, over every run with reboots anywhere
  // ------------------------------------------------------------------

  /** No delete is requested, and no marker written, before the workload has returned:
      a reboot in mid-flight never turns into a deletion. */
  lemma DeleteOnlyAfterWork(gpu: bool, image: bool, tr: Trace, i: nat)
    requires IsRun(gpu, image, tr) && i < |tr|
    ensures tr[i].AskDelete? ==> WorkReturns in tr[..i]
    ensures tr[i].Touch? ==> WorkReturns in ThisBoot(tr[..i])
  {
    PrefixRuns(gpu, image, tr, i);
    MarkerHistoryHolds(gpu, image, tr[..i]);
    BootHistoryHolds(gpu, image, tr[..i]);
    if WorkReturns in ThisBoot(tr[..i]) {
      ThisBootIsPast(tr[..i], WorkReturns);
    }
  }

  /** A delete goes out with the marker on disk, unless this very boot failed to write it:
      the script does not look at the exit status of `touch`. */
  lemma DeleteOnlyWhenMarked(gpu: bool, image: bool, tr: Trace, i: nat)
    requires IsRun(gpu, image, tr) && i < |tr| && tr[i].AskDelete?
    ensures Touch(true) in tr[..i] <==> Touch(false) !in ThisBoot(tr[..i])
  {
    PrefixRuns(gpu, image, tr, i);
    MarkerHistoryHolds(gpu, image, tr[..i]);
    BootHistoryHolds(gpu, image, tr[..i]);
  }

  /** Once the marker is on disk no later boot starts the workload. */
  lemma MarkedNeverRestarts(gpu: bool, image: bool, tr: Trace, i: nat, j: nat)
    requires IsRun(gpu, image, tr) && i < j < |tr|
    requires tr[i] == Touch(true)
    ensures tr[j] != WorkStarts && !tr[j].Touch?
  {
    PrefixRuns(gpu, image, tr, j);
    MarkerHistoryHolds(gpu, image, tr[..j]);
    assert tr[..j][i] == Touch(true);
  }

  /** The workload starts at most once for each boot up to the marker, and never after it. */
  lemma StartsBounded(gpu: bool, image: bool, tr: Trace)
    requires IsRun(gpu, image, tr)
    ensures Starts(tr) <= Reboots(BeforeMarker(tr)) + 1
  {
    StartsHold(gpu, image, tr);
  }

  /** A GPU workload starts only after this boot saw the driver or polled the full count. */
  lemma StartsAfterDriver(image: bool, tr: Trace, i: nat)
    requires IsRun(true, image, tr) && i < |tr| && tr[i] == WorkStarts
    ensures DriverSettled(ThisBoot(tr[..i]))
  {
    PrefixRuns(true, image, tr, i);
    DriverHolds(image, tr[..i]);
  }

  lemma Extend(gpu: bool, image: bool, tr: Trace, e: Event)
    requires IsRun(gpu, image, tr) && Enabled(Exec(gpu, image, tr).value, e)
    ensures Exec(gpu, image, tr + [e]) == Some(Apply(gpu, Exec(gpu, image, tr).value, e))
  {
    Runs.Extend(Next(gpu), State(Start, false, image, false), tr, e);
  }

  /** The shortest boot of a CPU job, up to the start of the workload. */
  const CPU_BOOT: Trace := [TestMarker(false), FindPython, ToolingDone, SetupReturns, WorkStarts]

  /** A boot that ends with a delete request but without the marker, and a reboot. */
  const FAILED_TOUCH: Trace := [WorkReturns, Touch(false), AskDelete(true, true), Reboot]

  lemma BootRuns(tr: Trace)
    requires IsRun(false, true, tr)
    requires Exec(false, true, tr).value == State(Start, false, true, false)
    ensures Exec(false, true, tr + CPU_BOOT) == Some(State(Working, false, true, false))
  {
    var t1 := tr + [TestMarker(false)];
    var t2, t3 := t1 + [FindPython], t1 + [FindPython] + [ToolingDone];
    Extend(false, true, tr, TestMarker(false));
    Extend(false, true, t1, FindPython);
    Extend(false, true, t2, ToolingDone);
    Extend(false, true, t3, SetupReturns);
    Extend(false, true, t3 + [SetupReturns], WorkStarts);
    assert tr + CPU_BOOT == t3 + [SetupReturns] + [WorkStarts];
  }

  lemma FailedTouchRuns(tr: Trace)
    requires Exec(false, true, tr) == Some(State(Working, false, true, false))
    ensures Exec(false, true, tr + FAILED_TOUCH)
         == Some(State(Start, false, true, false))
  {
    var t1 := tr + [WorkReturns];
    var t2 := t1 + [Touch(false)];
    var t3 := t2 + [AskDelete(true, true)];
    Extend(false, true, tr, WorkReturns);
    Extend(false, true, t1, Touch(false));
    Extend(false, true, t2, AskDelete(true, true));
    Extend(false, true, t3, Reboot);
    assert t3 + [Reboot] == tr + FAILED_TOUCH;
  }

  /** A failed `touch` is enough to run the job a second time after a delete request. */
  lemma UnwrittenMarkerReruns()
    ensures var tr := CPU_BOOT + FAILED_TOUCH + CPU_BOOT;
            IsRun(false, true, tr) && Starts(tr) == 2
  {
    BootRuns([]);
    assert [] + CPU_BOOT == CPU_BOOT;
    FailedTouchRuns(CPU_BOOT);
    BootRuns(CPU_BOOT + FAILED_TOUCH);
    StartsAppend(CPU_BOOT, FAILED_TOUCH);
    StartsAppend(CPU_BOOT + FAILED_TOUCH, CPU_BOOT);
    StartsCounted();
  }

  lemma StartsCounted()
    ensures Starts(CPU_BOOT) == 1 && Starts(FAILED_TOUCH) == 0
  {}

  lemma StartsAppend(a: Trace, b: Trace)
    ensures Starts(a + b) == Starts(a) + Starts(b)
  {}

  // ------------------------------------------------------------------
  // Liveness
  // ------------------------------------------------------------------

  /** Steps the script can still take in this boot. */
  function StepsLeft(pc: PC): nat {
    match pc
    case Exited => 0
    case SelfDelete => 1
    case Returned => 2
    case Working => 3
    case Launch => 4
    case SetupBlock => 5
    case DriverWait(polls) => if polls < DRIVER_POLLS then 5 + DRIVER_POLLS - polls else 6
    case Tooling => 6 + DRIVER_POLLS
    case Bootstrap(tries) =>
      if tries < BOOTSTRAP_TRIES then 7 + DRIVER_POLLS + BOOTSTRAP_TRIES - tries else 8 + DRIVER_POLLS
    case Start => 8 + DRIVER_POLLS + BOOTSTRAP_TRIES
  }

  const BOOT_STEPS: nat := StepsLeft(Start)

  /** Every step of the script uses up one of the boot's steps; only a reboot refills them. */
  lemma StepDecreases(gpu: bool, s: State, e: Event)
    requires Enabled(s, e) && e != Reboot && e != VmGone
    ensures StepsLeft(Apply(gpu, s, e).pc) < StepsLeft(s.pc) <= BOOT_STEPS
  {}

  /** With finitely many reboots a run is finite. */
  lemma {:induction false} RunLength(gpu: bool, image: bool, tr: Trace)
    requires IsRun(gpu, image, tr)
    ensures var s := Exec(gpu, image, tr).value;
            |tr| + StepsLeft(s.pc) <= (Reboots(tr) + 1) * (BOOT_STEPS + 1) + (if s.gone then 1 else 0) - 1
  {
    if tr != [] {
      var init, last := tr[..|tr| - 1], tr[|tr| - 1];
      RunLength(gpu, image, init);
      Peel(tr);
      var s := Exec(gpu, image, init).value;
      if last == Reboot {
        assert (Reboots(init) + 2) * (BOOT_STEPS + 1) == (Reboots(init) + 1) * (BOOT_STEPS + 1) + BOOT_STEPS + 1;
      } else if last != VmGone {
        StepDecreases(gpu, s, last);
      }
    }
  }

  /** The run goes on with nothing but a reboot or the end of the VM. */
  ghost predicate Quiet(gpu: bool, image: bool, tr: Trace) {
    forall e :: IsRun(gpu, image, tr + [e]) ==> e == Reboot || e == VmGone
  }

  /** What the script can always do next, short of its end. */
  function NextEvent(gpu: bool, image: bool, tr: Trace): Event {
    var boot := ThisBoot(tr);
    if boot == [] then TestMarker(Touch(true) in tr)
    else
      var tooling := if PythonThere(image, tr) then FindPython else InstallPython(true);
      match boot[|boot| - 1]
      case TestMarker(found) => if found then AskDelete(true, PythonThere(image, tr)) else tooling
      case FindPython => ToolingDone
      case InstallPython(_) => if Installs(boot) < 3 then tooling else ToolingDone
      case ToolingDone => if gpu then DriverPoll(true) else SetupReturns
      case DriverPoll(ready) => if ready || Polls(boot) == 80 then SetupReturns else DriverPoll(true)
      case SetupReturns => WorkStarts
      case WorkStarts => WorkReturns
      case WorkReturns => Touch(true)
      case _ => AskDelete(true, PythonThere(image, tr))
  }

  lemma {:induction false} ThisBootShape(tr: Trace)
    ensures Reboot !in ThisBoot(tr)
    ensures ThisBoot(tr) != [] ==> tr != [] && ThisBoot(tr)[|ThisBoot(tr)| - 1] == tr[|tr| - 1]
  {
    if tr != [] { ThisBootShape(tr[..|tr| - 1]); }
  }

  predicate AtEnd(boot: Trace) {
    boot != [] &&
    var last := boot[|boot| - 1]; last.AskDelete? || last.SetupExits? || last.VmGone? || last.Reboot?
  }

  lemma ScriptGoesOn(gpu: bool, image: bool, tr: Trace)
    requires !AtEnd(ThisBoot(tr))
    ensures var e := NextEvent(gpu, image, tr);
            Follows(gpu, ThisBoot(tr), e) && Tests(image, tr, e) && e != Reboot && e != VmGone
  {}

  /** A run that cannot go on without another reboot has called the self-delete routine in
      its last boot, unless the user's setup block ended the script; the request itself went
      out exactly when the interpreter was on the image or had been installed, and the metadata
      service answered. */
  lemma QuietMeansDeleteAsked(gpu: bool, image: bool, tr: Trace)
    requires IsRun(gpu, image, tr) && Quiet(gpu, image, tr) && VmGone !in tr
    requires SetupExits !in ThisBoot(tr)
    ensures exists metadata :: metadata in [false, true] &&
              AskDelete(metadata, metadata && PythonThere(image, tr)) in ThisBoot(tr)
  {
    if !AtEnd(ThisBoot(tr)) {
      ScriptGoesOn(gpu, image, tr);
      ScriptExactly(gpu, image, tr, NextEvent(gpu, image, tr));
    }
    var last := EndsWithDelete(gpu, image, tr);
    assert last.metadata in [false, true];
  }

  lemma EndsWithDelete(gpu: bool, image: bool, tr: Trace) returns (last: Event)
    requires IsRun(gpu, image, tr) && AtEnd(ThisBoot(tr)) && VmGone !in tr && SetupExits !in ThisBoot(tr)
    ensures last in ThisBoot(tr) && last.AskDelete?
    ensures last == AskDelete(last.metadata, last.metadata && PythonThere(image, tr))
  {
    ThisBootShape(tr);
    var i := |tr| - 1;
    last := tr[i];
    assert last in ThisBoot(tr) && tr == tr[..i] + [last];
    DeleteSentExactly(gpu, image, tr, i);
  }
}
