/** The shared base environment of the local provider: any number of processes run
    `ensure_base_venv_and_requirements` at once, serialised by a file lock that the
    operating system drops when its holder dies. A run is the list of what happened, in
    any interleaving; reads of the state file, installs, metrics, writes and unlinks may
    fail and processes may be killed anywhere. */
module BaseSetup {
  import opened Text
  import Runs

  /** The state file: absent, not JSON because it was cut short, or saying "ready". */
  datatype StateFile = Missing | Garbled | Ready

  /** `env` and `config`: the environment and the config snapshot were fully produced. */
  datatype Disk = Disk(env: bool, config: bool, state: StateFile)

  datatype PC =
    | Waiting
    | Reading
    | CleanEnv
    | CleanConfig
    | CleanState
    | Installing
    | Metrics
    | Writing
    | Leaving(ok: bool)
    | Finished(ok: bool)
    | Dead

  datatype Proc = Proc(force: bool, pc: PC)

  datatype State = State(procs: seq<Proc>, holder: Option<nat>, disk: Disk)

  /** What a step did. The flags are the environment's: whether a removal removed,
      whether a failing or killed step spoiled what it was working on.

      `Misread` is a read that fails where that makes a difference: an unforced caller gets
      nothing from a file that says "ready". `Kill` also stands for an exception that the
      code does not catch, so a step that takes effect and still raises is that step and then
      a kill. */
  datatype Action =
    | Lock
    | Read
    | Misread
    | RemoveEnv(gone: bool)
    | UnlinkConfig(gone: bool)
    | UnlinkState(gone: bool)
    | Install(ok: bool, spoils: bool)
    | Collect(ok: bool, spoils: bool)
    | WriteState(ok: bool, spoils: bool)
    | Unlock
    | Kill(at: PC, spoils: bool)

  datatype Event = Event(p: nat, a: Action)

  type Trace = seq<Event>

  predicate Installed(d: Disk) { d.env && d.config }

  /** "ready" is not a lie. */
  predicate Honest(d: Disk) { d.state.Ready? ==> Installed(d) }

  predicate Inside(pc: PC) {
    !pc.Waiting? && !pc.Finished? && !pc.Dead?
  }

  predicate Enabled(s: State, e: Event) {
    && e.p < |s.procs|
    && var pc := s.procs[e.p].pc;
       match e.a
       case Lock => pc.Waiting? && s.holder == None
       case Read => pc.Reading?
       case Misread => pc.Reading? && !s.procs[e.p].force && s.disk.state.Ready?
       case RemoveEnv(_) => pc.CleanEnv?
       case UnlinkConfig(_) => pc.CleanConfig?
       case UnlinkState(_) => pc.CleanState?
       case Install(_, _) => pc.Installing?
       case Collect(_, _) => pc.Metrics?
       case WriteState(_, _) => pc.Writing?
       case Unlock => pc.Leaving?
       case Kill(at, _) => pc == at && !pc.Finished? && !pc.Dead?
  }

  function NextPC(proc: Proc, d: Disk, a: Action): PC {
    match a
    case Lock => Reading
    case Read =>
      if !proc.force && d.state.Ready? then Leaving(true)
      else if proc.force then CleanEnv else Installing
    case Misread => Installing
    case RemoveEnv(_) => CleanConfig
    case UnlinkConfig(_) => CleanState
    case UnlinkState(_) => Installing
    case Install(ok, _) => if ok then Metrics else Leaving(false)
    case Collect(ok, _) => if ok then Writing else Leaving(false)
    case WriteState(ok, _) => Leaving(ok)
    case Unlock => Finished(proc.pc == Leaving(true))
    case Kill(_, _) => Dead
  }

  /** What a step, finished or interrupted, does to the disk. */
  function NextDisk(d: Disk, a: Action): Disk {
    match a
    case RemoveEnv(gone) => d.(env := d.env && !gone)
    case UnlinkConfig(gone) => d.(config := d.config && !gone)
    case UnlinkState(gone) => if gone then d.(state := Missing) else d
    case Install(ok, spoils) => d.(env := ok || (d.env && !spoils))
    case Collect(ok, spoils) => d.(config := ok || (d.config && !spoils))
    case WriteState(ok, spoils) => d.(state := if ok then Ready else if spoils then Garbled else d.state)
    case Kill(at, spoils) =>
      if !spoils then d
      else if at.CleanEnv? || at.Installing? then d.(env := false)
      else if at.Metrics? then d.(config := false)
      else if at.Writing? then d.(state := Garbled)
      else d
    case _ => d
  }

  function Apply(s: State, e: Event): State
    requires e.p < |s.procs|
  {
    var proc := s.procs[e.p];
    var pc := NextPC(proc, s.disk, e.a);
    State(
      s.procs[e.p := proc.(pc := pc)],
      if e.a.Lock? then Some(e.p) else if s.holder == Some(e.p) && !Inside(pc) then None else s.holder,
      NextDisk(s.disk, e.a))
  }

  /** One caller for each flag, none of them started. */
  function Init(forces: seq<bool>, disk: Disk): State {
    State(seq(|forces|, i requires 0 <= i < |forces| => Proc(forces[i], Waiting)), None, disk)
  }

  function Next(s: State, e: Event): Option<State> {
    if Enabled(s, e) then Some(Apply(s, e)) else None
  }

  function Exec(forces: seq<bool>, disk: Disk, tr: Trace): Option<State> {
    Runs.After(Next, Init(forces, disk), tr)
  }

  predicate IsRun(forces: seq<bool>, disk: Disk, tr: Trace) {
    Exec(forces, disk, tr).Some?
  }

  // ------------------------------------------------------------------
  // Mutual exclusion
  // ------------------------------------------------------------------

  predicate Exclusive(s: State) {
    && (s.holder.Some? ==> s.holder.value < |s.procs|)
    && forall q :: 0 <= q < |s.procs| ==> (Inside(s.procs[q].pc) <==> s.holder == Some(q))
  }

  /** At most one process is inside, it is the lock's holder, and the flags never change. */
  lemma {:induction false} OneInside(forces: seq<bool>, disk: Disk, tr: Trace)
    requires IsRun(forces, disk, tr)
    ensures var s := Exec(forces, disk, tr).value;
            && Exclusive(s)
            && |s.procs| == |forces|
            && forall q :: 0 <= q < |forces| ==> s.procs[q].force == forces[q]
  {
    if tr != [] {
      OneInside(forces, disk, tr[..|tr| - 1]);
    }
  }

  // ------------------------------------------------------------------
  // "ready" means installed
  // ------------------------------------------------------------------

  /** The three ways to install over a standing "ready": the state file survives the unlink
      of a forced refresh, a refresh dies between starting to remove the environment and
      unlinking the state file, or an unforced caller fails to read a file that says "ready". */
  predicate Exposing(a: Action) {
    || a == UnlinkState(false)
    || a.Misread?
    || (a.Kill? && (a.at.CleanEnv? || a.at.CleanConfig? || a.at.CleanState?))
  }

  /** An exposure that no completed setup or removal of the state file has undone since. */
  predicate Exposed(tr: Trace) {
    tr != [] && StillExposed(tr[|tr| - 1].a, Exposed(tr[..|tr| - 1]))
  }

  /** What is true of the disk while a process stands at `pc` with the lock. */
  predicate DiskAt(pc: PC, d: Disk, exposed: bool) {
    match pc
    case Reading => Honest(d) || exposed
    case CleanEnv => Honest(d) || exposed
    case CleanConfig => true
    case CleanState => true
    case Installing => !d.state.Ready? || exposed
    case Metrics => (!d.state.Ready? || exposed) && d.env
    case Writing => (!d.state.Ready? || exposed) && Installed(d)
    case Leaving(ok) => (Honest(d) || exposed) && (ok ==> d.state.Ready?)
    case _ => true
  }

  predicate DiskInv(s: State, exposed: bool) {
    && (s.holder == None ==> Honest(s.disk) || exposed)
    && (s.holder.Some? && s.holder.value < |s.procs| ==> DiskAt(s.procs[s.holder.value].pc, s.disk, exposed))
  }

  function StillExposed(a: Action, exposed: bool): bool {
    if Exposing(a) then true
    else if a == UnlinkState(true) || (a.WriteState? && a.ok) then false
    else exposed
  }

  lemma DiskInvStep(s: State, e: Event, exposed: bool)
    requires Exclusive(s) && Enabled(s, e) && DiskInv(s, exposed)
    ensures DiskInv(Apply(s, e), StillExposed(e.a, exposed))
  {
    var t := Apply(s, e);
    if s.holder == None {
      assert e.a.Lock? || e.a.Kill?;
    } else if s.holder == Some(e.p) {
      assert Inside(s.procs[e.p].pc);
      if t.holder == Some(e.p) {
      }
    } else {
      assert t.procs[s.holder.value] == s.procs[s.holder.value];
    }
  }

  lemma {:induction false} DiskInvHolds(forces: seq<bool>, disk: Disk, tr: Trace)
    requires IsRun(forces, disk, tr) && Honest(disk)
    ensures DiskInv(Exec(forces, disk, tr).value, Exposed(tr))
  {
    if tr != [] {
      var init, last := tr[..|tr| - 1], tr[|tr| - 1];
      DiskInvHolds(forces, disk, init);
      OneInside(forces, disk, init);
      DiskInvStep(Exec(forces, disk, init).value, last, Exposed(init));
    }
  }

  // ------------------------------------------------------------------
  // Exactly when "ready" means installed
  // ------------------------------------------------------------------

  predicate HurtsEnv(a: Action) {
    || a == RemoveEnv(true)
    || a == Install(false, true)
    || (a.Kill? && a.spoils && (a.at.CleanEnv? || a.at.Installing?))
  }

  predicate HealsEnv(a: Action) { a.Install? && a.ok }

  predicate HurtsConfig(a: Action) {
    || a == UnlinkConfig(true)
    || a == Collect(false, true)
    || (a.Kill? && a.spoils && a.at.Metrics?)
  }

  predicate HealsConfig(a: Action) { a.Collect? && a.ok }

  predicate DropsState(a: Action) {
    || a == UnlinkState(true)
    || a == WriteState(false, true)
    || (a.Kill? && a.spoils && a.at.Writing?)
  }

  predicate Never(tr: Trace, p: Action -> bool) {
    forall i :: 0 <= i < |tr| ==> !p(tr[i].a)
  }

  /** Something of the first kind happened and nothing of the second kind after it. */
  predicate Stands(tr: Trace, p: Action -> bool, undo: Action -> bool) {
    exists i :: 0 <= i < |tr| && p(tr[i].a) && forall j :: i < j < |tr| ==> !undo(tr[j].a)
  }

  /** A setup completed, or the file said "ready" at the start, and nothing dropped it since. */
  predicate Marked(disk: Disk, tr: Trace) {
    Stands(tr, IsSetup, DropsState) || (disk.state.Ready? && Never(tr, DropsState))
  }

  /** The environment or the config was spoiled or removed and not produced again. */
  predicate Broken(tr: Trace) {
    Stands(tr, HurtsEnv, HealsEnv) || Stands(tr, HurtsConfig, HealsConfig)
  }

  lemma StandsStep(tr: Trace, e: Event, p: Action -> bool, undo: Action -> bool)
    ensures Stands(tr + [e], p, undo) <==> p(e.a) || (Stands(tr, p, undo) && !undo(e.a))
  {
    var t := tr + [e];
    assert t[|tr|] == e && forall i :: 0 <= i < |tr| ==> t[i] == tr[i];
    if Stands(tr, p, undo) && !undo(e.a) {
      var i :| 0 <= i < |tr| && p(tr[i].a) && forall j :: i < j < |tr| ==> !undo(tr[j].a);
      assert p(t[i].a) && forall j :: i < j < |t| ==> !undo(t[j].a);
    }
    if p(e.a) {
      assert p(t[|tr|].a);
    }
    if i :| 0 <= i < |tr| && p(t[i].a) && forall j :: i < j < |t| ==> !undo(t[j].a) {
      assert forall j :: i < j < |tr| ==> !undo(tr[j].a);
    }
  }

  lemma NeverStep(tr: Trace, e: Event, p: Action -> bool)
    ensures Never(tr + [e], p) <==> Never(tr, p) && !p(e.a)
  {
    var t := tr + [e];
    assert t[|tr|] == e && forall i :: 0 <= i < |tr| ==> t[i] == tr[i];
  }

  /** A part of the disk that is there: not hurt since it was last produced, and there at the
      start or produced since. */
  predicate There(start: bool, tr: Trace, hurts: Action -> bool, heals: Action -> bool) {
    !Stands(tr, hurts, heals) && (start || !Never(tr, heals))
  }

  lemma ThereStep(start: bool, tr: Trace, e: Event, hurts: Action -> bool, heals: Action -> bool)
    requires !(hurts(e.a) && heals(e.a))
    ensures There(start, tr + [e], hurts, heals) <==>
              if heals(e.a) then true else if hurts(e.a) then false else There(start, tr, hurts, heals)
  {
    StandsStep(tr, e, hurts, heals);
    NeverStep(tr, e, heals);
  }

  lemma MarkedStep(disk: Disk, tr: Trace, e: Event)
    ensures Marked(disk, tr + [e]) <==>
              if IsSetup(e.a) then true else if DropsState(e.a) then false else Marked(disk, tr)
  {
    StandsStep(tr, e, IsSetup, DropsState);
    NeverStep(tr, e, DropsState);
  }

  lemma DiskStep(d: Disk, a: Action)
    ensures var d' := NextDisk(d, a);
            && d'.env == (if HealsEnv(a) then true else if HurtsEnv(a) then false else d.env)
            && d'.config == (if HealsConfig(a) then true else if HurtsConfig(a) then false else d.config)
            && d'.state.Ready? == (if IsSetup(a) then true else if DropsState(a) then false else d.state.Ready?)
  {}

  /** Each part of the disk is what its last event made it. */
  predicate DiskFollows(disk: Disk, tr: Trace, d: Disk) {
    && d.state.Ready? == Marked(disk, tr)
    && d.env == There(disk.env, tr, HurtsEnv, HealsEnv)
    && d.config == There(disk.config, tr, HurtsConfig, HealsConfig)
  }

  lemma FollowStep(disk: Disk, tr: Trace, d: Disk, e: Event)
    requires DiskFollows(disk, tr, d)
    ensures DiskFollows(disk, tr + [e], NextDisk(d, e.a))
  {
    DiskStep(d, e.a);
    MarkedStep(disk, tr, e);
    ThereStep(disk.env, tr, e, HurtsEnv, HealsEnv);
    ThereStep(disk.config, tr, e, HurtsConfig, HealsConfig);
  }

  lemma {:induction false} DiskFollowsRun(forces: seq<bool>, disk: Disk, tr: Trace)
    requires IsRun(forces, disk, tr)
    ensures DiskFollows(disk, tr, Exec(forces, disk, tr).value.disk)
  {
    if tr != [] {
      var init, last := tr[..|tr| - 1], tr[|tr| - 1];
      DiskFollowsRun(forces, disk, init);
      FollowStep(disk, init, Exec(forces, disk, init).value.disk, last);
      assert tr == init + [last];
    }
  }

  /** What a process between the install and the end of a setup has behind it. */
  predicate PathOk(tr: Trace, s: State) {
    && (forall q :: 0 <= q < |s.procs| ==>
          && (s.procs[q].pc.Metrics? || s.procs[q].pc.Writing? ==> !Never(tr, HealsEnv))
          && (s.procs[q].pc.Writing? ==> !Never(tr, HealsConfig)))
    && (!Never(tr, IsSetup) ==> !Never(tr, HealsEnv) && !Never(tr, HealsConfig))
  }

  lemma PathStep(tr: Trace, s: State, e: Event)
    requires PathOk(tr, s) && Enabled(s, e)
    ensures PathOk(tr + [e], Apply(s, e))
  {
    NeverStep(tr, e, HealsEnv);
    NeverStep(tr, e, HealsConfig);
    NeverStep(tr, e, IsSetup);
  }

  lemma {:induction false} PathHolds(forces: seq<bool>, disk: Disk, tr: Trace)
    requires IsRun(forces, disk, tr)
    ensures PathOk(tr, Exec(forces, disk, tr).value)
  {
    if tr != [] {
      var init, last := tr[..|tr| - 1], tr[|tr| - 1];
      PathHolds(forces, disk, init);
      PathStep(init, Exec(forces, disk, init).value, last);
      assert tr == init + [last];
    }
  }

  /** For any callers, any interleaving and any honest disk to start from, at every moment:
      "ready" means installed, except exactly when the mark stands while the environment or
      the config is broken. */
  lemma HonestExactly(forces: seq<bool>, disk: Disk, tr: Trace)
    requires IsRun(forces, disk, tr) && Honest(disk)
    ensures Honest(Exec(forces, disk, tr).value.disk) <==> !(Marked(disk, tr) && Broken(tr))
  {
    DiskFollowsRun(forces, disk, tr);
    PathHolds(forces, disk, tr);
    if Stands(tr, IsSetup, DropsState) {
      assert !Never(tr, IsSetup);
    }
  }

  /** Whenever the lock is free, a mark that stands over something broken has a cause: the
      state file survived its unlink, a process died in the cleanup, or a read of the "ready"
      file failed, and no setup has completed since. */
  lemma ReadyMeansInstalled(forces: seq<bool>, disk: Disk, tr: Trace)
    requires IsRun(forces, disk, tr) && Honest(disk)
    ensures var s := Exec(forces, disk, tr).value;
            && (Honest(s.disk) <==> !(Marked(disk, tr) && Broken(tr)))
            && (s.holder == None && Marked(disk, tr) && Broken(tr) ==> Exposed(tr))
  {
    HonestExactly(forces, disk, tr);
    DiskInvHolds(forces, disk, tr);
  }

  /** So without such an event, in particular if nobody forces a refresh and no read of a
      "ready" file fails, a free lock and a standing mark mean that nothing is broken. */
  lemma NothingExposedNothingBroken(forces: seq<bool>, disk: Disk, tr: Trace)
    requires IsRun(forces, disk, tr) && Honest(disk)
    requires (forall e :: e in tr ==> !Exposing(e.a)) || (true !in forces && Misreads(tr) == 0)
    requires Exec(forces, disk, tr).value.holder == None
    ensures Marked(disk, tr) ==> !Broken(tr)
  {
    ReadyMeansInstalled(forces, disk, tr);
    NoExposure(forces, disk, tr);
  }

  /** Without an exposing event there is no exposure; in particular if nobody forces a refresh
      and no read of a "ready" file fails. */
  lemma {:induction false} NoExposure(forces: seq<bool>, disk: Disk, tr: Trace)
    requires IsRun(forces, disk, tr)
    requires (forall e :: e in tr ==> !Exposing(e.a)) || (true !in forces && Misreads(tr) == 0)
    ensures !Exposed(tr)
  {
    if tr != [] {
      var init, last := tr[..|tr| - 1], tr[|tr| - 1];
      assert forall e :: e in init ==> e in tr;
      NoExposure(forces, disk, init);
      if true !in forces {
        UnforcedPositions(forces, disk, init);
        OneInside(forces, disk, init);
        var s := Exec(forces, disk, init).value;
        assert Enabled(s, last);
        var pc := s.procs[last.p].pc;
        assert !pc.CleanEnv? && !pc.CleanConfig? && !pc.CleanState?;
      }
    }
  }

  /** Without forced refreshes nobody ever cleans up. */
  lemma {:induction false} UnforcedPositions(forces: seq<bool>, disk: Disk, tr: Trace)
    requires IsRun(forces, disk, tr) && true !in forces
    ensures var s := Exec(forces, disk, tr).value;
            forall q :: 0 <= q < |s.procs| ==>
              var pc := s.procs[q].pc; !pc.CleanEnv? && !pc.CleanConfig? && !pc.CleanState?
  {
    OneInside(forces, disk, tr);
    if tr != [] {
      UnforcedPositions(forces, disk, tr[..|tr| - 1]);
      OneInside(forces, disk, tr[..|tr| - 1]);
    }
  }

  // ------------------------------------------------------------------
  // The callers, over events only
  // ------------------------------------------------------------------

  /** The last thing a caller did. */
  function LastBy(tr: Trace, p: nat): Option<Action> {
    if tr == [] then None
    else if tr[|tr| - 1].p == p then Some(tr[|tr| - 1].a)
    else LastBy(tr[..|tr| - 1], p)
  }

  /** Neither waiting for its turn at the disk any more nor done with it. */
  predicate HasLock(last: Option<Action>) {
    last.Some? && !last.value.Unlock? && !last.value.Kill?
  }

  predicate KilledAt(a: Action, pc: PC) { a.Kill? && a.at == pc }

  /** What a caller does after `last`, judged by its flag and by whether the mark stands. */
  predicate MayFollow(force: bool, last: Option<Action>, marked: bool, a: Action) {
    match last
    case None => a.Lock? || KilledAt(a, Waiting)
    case Some(Lock) => a.Read? || (a.Misread? && !force && marked) || KilledAt(a, Reading)
    case Some(Read) =>
      if force then a.RemoveEnv? || KilledAt(a, CleanEnv)
      else if marked then a.Unlock? || KilledAt(a, Leaving(true))
      else a.Install? || KilledAt(a, Installing)
    case Some(Misread) => a.Install? || KilledAt(a, Installing)
    case Some(RemoveEnv(_)) => a.UnlinkConfig? || KilledAt(a, CleanConfig)
    case Some(UnlinkConfig(_)) => a.UnlinkState? || KilledAt(a, CleanState)
    case Some(UnlinkState(_)) => a.Install? || KilledAt(a, Installing)
    case Some(Install(ok, _)) =>
      if ok then a.Collect? || KilledAt(a, Metrics) else a.Unlock? || KilledAt(a, Leaving(false))
    case Some(Collect(ok, _)) =>
      if ok then a.WriteState? || KilledAt(a, Writing) else a.Unlock? || KilledAt(a, Leaving(false))
    case Some(WriteState(ok, _)) => a.Unlock? || KilledAt(a, Leaving(ok))
    case Some(Unlock) => false
    case Some(Kill(_, _)) => false
  }

  /** Where a caller stands, told by the last thing it did. */
  predicate StandsAt(proc: Proc, last: Option<Action>, marked: bool) {
    match last
    case None => proc.pc.Waiting?
    case Some(Lock) => proc.pc.Reading?
    case Some(Read) =>
      if proc.force then proc.pc.CleanEnv? else if marked then proc.pc == Leaving(true) else proc.pc.Installing?
    case Some(Misread) => proc.pc.Installing?
    case Some(RemoveEnv(_)) => proc.pc.CleanConfig?
    case Some(UnlinkConfig(_)) => proc.pc.CleanState?
    case Some(UnlinkState(_)) => proc.pc.Installing?
    case Some(Install(ok, _)) => if ok then proc.pc.Metrics? else proc.pc == Leaving(false)
    case Some(Collect(ok, _)) => if ok then proc.pc.Writing? else proc.pc == Leaving(false)
    case Some(WriteState(ok, _)) => proc.pc == Leaving(ok)
    case Some(Unlock) => proc.pc.Finished?
    case Some(Kill(_, _)) => proc.pc.Dead?
  }

  lemma StandsAtStep(proc: Proc, d: Disk, last: Option<Action>, a: Action)
    requires StandsAt(proc, last, d.state.Ready?)
    requires Enabled(State([proc], if Inside(proc.pc) then Some(0) else None, d), Event(0, a))
    ensures StandsAt(proc.(pc := NextPC(proc, d, a)), Some(a), NextDisk(d, a).state.Ready?)
  {}

  lemma {:induction false} CallersTell(forces: seq<bool>, disk: Disk, tr: Trace)
    requires IsRun(forces, disk, tr)
    ensures var s := Exec(forces, disk, tr).value;
            |s.procs| == |forces| && forall q :: 0 <= q < |forces| ==>
              s.procs[q].force == forces[q] && StandsAt(s.procs[q], LastBy(tr, q), s.disk.state.Ready?)
  {
    OneInside(forces, disk, tr);
    if tr != [] {
      var init, last := tr[..|tr| - 1], tr[|tr| - 1];
      CallersTell(forces, disk, init);
      OneInside(forces, disk, init);
      var s := Exec(forces, disk, init).value;
      forall q | 0 <= q < |forces|
        ensures StandsAt(Apply(s, last).procs[q], LastBy(tr, q), Apply(s, last).disk.state.Ready?)
      {
        if q == last.p {
          StandsAtStep(s.procs[q], s.disk, LastBy(init, q), last.a);
        } else {
          OthersStand(s, last, q, LastBy(init, q));
        }
      }
    }
  }

  /** A step of one caller moves no other, and changes the disk under none that looks at it. */
  lemma OthersStand(s: State, e: Event, q: nat, last: Option<Action>)
    requires Exclusive(s) && Enabled(s, e) && q < |s.procs| && q != e.p
    requires StandsAt(s.procs[q], last, s.disk.state.Ready?)
    ensures StandsAt(Apply(s, e).procs[q], last, Apply(s, e).disk.state.Ready?)
  {
    if Inside(s.procs[q].pc) {
      assert !Inside(s.procs[e.p].pc);
    }
  }

  lemma MayFollowTells(proc: Proc, d: Disk, last: Option<Action>, a: Action, free: bool)
    requires StandsAt(proc, last, d.state.Ready?)
    ensures Enabled(State([proc], if free then None else Some(0), d), Event(0, a)) <==>
              MayFollow(proc.force, last, d.state.Ready?, a) && (a.Lock? ==> free)
  {}

  /** The runs are exactly those of the callers' code under the lock: a step can come next if
      and only if it is what its caller does after the last thing it did, and the lock is
      taken only while nobody has it. */
  lemma StepsExactly(forces: seq<bool>, disk: Disk, tr: Trace, e: Event)
    requires IsRun(forces, disk, tr)
    ensures IsRun(forces, disk, tr + [e]) <==>
              && e.p < |forces|
              && MayFollow(forces[e.p], LastBy(tr, e.p), Marked(disk, tr), e.a)
              && (e.a.Lock? ==> LockFree(tr, |forces|))
  {
    CallersTell(forces, disk, tr);
    OneInside(forces, disk, tr);
    DiskFollowsRun(forces, disk, tr);
    var s := Exec(forces, disk, tr).value;
    Runs.Extend(Next, Init(forces, disk), tr, e);
    LockTells(s, tr);
    if e.p < |forces| { EnabledTells(s, e, LastBy(tr, e.p)); }
  }

  lemma EnabledTells(s: State, e: Event, last: Option<Action>)
    requires e.p < |s.procs| && StandsAt(s.procs[e.p], last, s.disk.state.Ready?)
    ensures Enabled(s, e) <==>
              MayFollow(s.procs[e.p].force, last, s.disk.state.Ready?, e.a) && (e.a.Lock? ==> s.holder == None)
  {
    MayFollowTells(s.procs[e.p], s.disk, last, e.a, s.holder == None);
  }

  predicate LockFree(tr: Trace, n: nat) {
    forall q: nat :: q < n ==> !HasLock(LastBy(tr, q))
  }

  lemma LockTells(s: State, tr: Trace)
    requires Exclusive(s)
    requires forall q: nat :: q < |s.procs| ==> StandsAt(s.procs[q], LastBy(tr, q), s.disk.state.Ready?)
    ensures s.holder == None <==> LockFree(tr, |s.procs|)
  {
    forall q: nat | q < |s.procs| ensures HasLock(LastBy(tr, q)) <==> Inside(s.procs[q].pc) {}
    if s.holder.Some? {
      var h := s.holder.value;
      assert h < |s.procs| && Inside(s.procs[h].pc);
      assert HasLock(LastBy(tr, h));
    }
  }

  /** The caller found "ready" and did not force a refresh, or completed a setup. */
  predicate Earned(forces: seq<bool>, disk: Disk, tr: Trace, p: nat) {
    || (p < |forces| && !forces[p] && exists k :: 0 <= k < |tr| && tr[k] == Event(p, Read) && Marked(disk, tr[..k]))
    || (exists k :: 0 <= k < |tr| && tr[k].p == p && IsSetup(tr[k].a))
  }

  lemma EarnedStep(forces: seq<bool>, disk: Disk, tr: Trace, e: Event, p: nat)
    ensures Earned(forces, disk, tr + [e], p) <==>
              || Earned(forces, disk, tr, p)
              || (e.p == p && IsSetup(e.a))
              || (e == Event(p, Read) && p < |forces| && !forces[p] && Marked(disk, tr))
  {
    var t := tr + [e];
    assert t[|tr|] == e && t[..|tr|] == tr;
    assert forall k :: 0 <= k < |tr| ==> t[k] == tr[k] && t[..k] == tr[..k];
  }

  /** Does the answer a caller is about to get, or got, match? */
  predicate Answered(pc: PC, earned: bool) {
    match pc
    case Leaving(ok) => ok == earned
    case Finished(ok) => ok == earned
    case Dead => true
    case _ => !earned
  }

  lemma AnsweredStep(proc: Proc, d: Disk, a: Action, earned: bool)
    requires Answered(proc.pc, earned)
    requires Enabled(State([proc], if Inside(proc.pc) then Some(0) else None, d), Event(0, a))
    ensures Answered(NextPC(proc, d, a), earned || IsSetup(a) || (a.Read? && !proc.force && d.state.Ready?))
  {}

  lemma {:induction false} AnswersHold(forces: seq<bool>, disk: Disk, tr: Trace)
    requires IsRun(forces, disk, tr)
    ensures var s := Exec(forces, disk, tr).value;
            |s.procs| == |forces| &&
            forall q :: 0 <= q < |forces| ==> Answered(s.procs[q].pc, Earned(forces, disk, tr, q))
  {
    OneInside(forces, disk, tr);
    if tr != [] {
      var init, last := tr[..|tr| - 1], tr[|tr| - 1];
      AnswersHold(forces, disk, init);
      OneInside(forces, disk, init);
      DiskFollowsRun(forces, disk, init);
      var s := Exec(forces, disk, init).value;
      assert tr == init + [last];
      forall q | 0 <= q < |forces| ensures Answered(Apply(s, last).procs[q].pc, Earned(forces, disk, tr, q)) {
        EarnedStep(forces, disk, init, last, q);
        if q == last.p {
          AnsweredStep(s.procs[q], s.disk, last.a, Earned(forces, disk, init, q));
        }
      }
    }
  }

  /** A caller that got through gets the environment back if it earned it, and an exception
      otherwise: exactly if it found "ready" unforced or completed a setup itself. */
  lemma AnswerExactly(forces: seq<bool>, disk: Disk, tr: Trace, p: nat)
    requires IsRun(forces, disk, tr) && p < |forces|
    ensures var s := Exec(forces, disk, tr).value;
            && p < |s.procs|
            && (s.procs[p].pc.Finished? <==> LastBy(tr, p) == Some(Unlock))
            && (s.procs[p].pc == Finished(true) <==> LastBy(tr, p) == Some(Unlock) && Earned(forces, disk, tr, p))
  {
    CallersTell(forces, disk, tr);
    AnswersHold(forces, disk, tr);
  }

  /** When a caller returns with success the file says "ready" and, unless an exposure is
      pending, everything is installed. */
  lemma SuccessMeansInstalled(forces: seq<bool>, disk: Disk, tr: Trace, i: nat)
    requires IsRun(forces, disk, tr) && Honest(disk) && i < |tr| && tr[i].a.Unlock?
    requires Earned(forces, disk, tr[..i], tr[i].p)
    ensures var r := Exec(forces, disk, tr[..i]);
            r.Some? && r.value.disk.state.Ready? && (Installed(r.value.disk) || Exposed(tr[..i]))
  {
    PrefixStep(forces, disk, tr, i);
    AnswersHold(forces, disk, tr[..i]);
    DiskInvHolds(forces, disk, tr[..i]);
    OneInside(forces, disk, tr[..i]);
    var s := Exec(forces, disk, tr[..i]).value;
    assert s.procs[tr[i].p].pc == Leaving(true);
    assert Inside(s.procs[tr[i].p].pc);
  }

  // ------------------------------------------------------------------
  // How many installs
  // ------------------------------------------------------------------

  function Installs(tr: Trace): nat {
    if tr == [] then 0
    else Installs(tr[..|tr| - 1]) + (if tr[|tr| - 1].a.Install? && tr[|tr| - 1].a.ok then 1 else 0)
  }

  predicate IsSetup(a: Action) { a.WriteState? && a.ok }

  function Setups(tr: Trace): nat {
    if tr == [] then 0 else Setups(tr[..|tr| - 1]) + (if IsSetup(tr[|tr| - 1].a) then 1 else 0)
  }

  /** Attempts that failed or died after their install had succeeded. */
  predicate IsWasted(a: Action) {
    || (a.Collect? && !a.ok)
    || (a.WriteState? && !a.ok)
    || (a.Kill? && (a.at.Metrics? || a.at.Writing?))
  }

  function Wasted(tr: Trace): nat {
    if tr == [] then 0 else Wasted(tr[..|tr| - 1]) + (if IsWasted(tr[|tr| - 1].a) then 1 else 0)
  }

  function InFlight(s: State): nat {
    if s.holder.Some? && s.holder.value < |s.procs| &&
       (s.procs[s.holder.value].pc.Metrics? || s.procs[s.holder.value].pc.Writing?)
    then 1 else 0
  }

  /** Conservation: a successful install ends in a completed setup or is wasted. */
  lemma {:induction false} InstallsAccounted(forces: seq<bool>, disk: Disk, tr: Trace)
    requires IsRun(forces, disk, tr)
    ensures Installs(tr) == Setups(tr) + Wasted(tr) + InFlight(Exec(forces, disk, tr).value)
  {
    if tr != [] {
      InstallsAccounted(forces, disk, tr[..|tr| - 1]);
      OneInside(forces, disk, tr[..|tr| - 1]);
      InFlightStep(Exec(forces, disk, tr[..|tr| - 1]).value, tr[|tr| - 1]);
    }
  }

  lemma InFlightStep(s: State, e: Event)
    requires Exclusive(s) && Enabled(s, e)
    ensures (if e.a.Install? && e.a.ok then 1 else 0) + InFlight(s) ==
              (if IsSetup(e.a) then 1 else 0) + (if IsWasted(e.a) then 1 else 0) + InFlight(Apply(s, e))
  {}

  /** Failed reads of a file that says "ready". */
  function Misreads(tr: Trace): nat {
    if tr == [] then 0 else Misreads(tr[..|tr| - 1]) + (if tr[|tr| - 1].a.Misread? then 1 else 0)
  }

  predicate Setting(pc: PC) { pc.Installing? || pc.Metrics? || pc.Writing? }

  /** A setup under way over a standing mark. */
  function Overwriting(s: State): nat {
    if s.disk.state.Ready? && s.holder.Some? && s.holder.value < |s.procs| && Setting(s.procs[s.holder.value].pc)
    then 1 else 0
  }

  function Unmarked(d: Disk): nat { if d.state.Ready? then 0 else 1 }

  /** Without forced refreshes every setup uses up an unmarked state or a failed read. */
  lemma {:induction false} UnforcedBudget(forces: seq<bool>, disk: Disk, tr: Trace)
    requires IsRun(forces, disk, tr) && true !in forces
    ensures var s := Exec(forces, disk, tr).value;
            Setups(tr) + Unmarked(s.disk) + Overwriting(s) <= Unmarked(disk) + Misreads(tr)
  {
    if tr != [] {
      var init, last := tr[..|tr| - 1], tr[|tr| - 1];
      UnforcedBudget(forces, disk, init);
      OneInside(forces, disk, init);
      UnforcedPositions(forces, disk, init);
    }
  }

  /** If no read of a "ready" file failed either, the file says "ready" exactly if it did at
      the start or the one setup completed, and then nobody is setting up. */
  lemma {:induction false} UnforcedInv(forces: seq<bool>, disk: Disk, tr: Trace)
    requires IsRun(forces, disk, tr) && true !in forces && Misreads(tr) == 0
    ensures var s := Exec(forces, disk, tr).value;
            && Setups(tr) <= Unmarked(disk)
            && (s.disk.state.Ready? <==> disk.state.Ready? || Setups(tr) == 1)
            && (s.disk.state.Ready? ==> NobodySets(s))
  {
    if tr != [] {
      UnforcedInv(forces, disk, tr[..|tr| - 1]);
      OneInside(forces, disk, tr[..|tr| - 1]);
      UnforcedPositions(forces, disk, tr[..|tr| - 1]);
    }
  }

  predicate NobodySets(s: State) {
    forall q :: 0 <= q < |s.procs| ==> !Setting(s.procs[q].pc)
  }

  /** Without forced refreshes at most one setup completes, and one more for each failed read
      of a "ready" file; installs exceed the setups only by wasted attempts. */
  lemma UnforcedSetups(forces: seq<bool>, disk: Disk, tr: Trace)
    requires IsRun(forces, disk, tr) && true !in forces
    ensures Setups(tr) <= Unmarked(disk) + Misreads(tr)
    ensures Exec(forces, disk, tr).value.holder == None ==>
              Installs(tr) <= Unmarked(disk) + Misreads(tr) + Wasted(tr)
  {
    UnforcedBudget(forces, disk, tr);
    InstallsAccounted(forces, disk, tr);
  }

  predicate NoMisread(tr: Trace, i: nat, j: nat)
    requires i <= j <= |tr|
  {
    forall k :: i <= k < j ==> !tr[k].a.Misread?
  }

  /** From a completed setup on the mark stands and nobody sets up, until a read fails. */
  lemma {:induction false} MarkStays(forces: seq<bool>, disk: Disk, tr: Trace, i: nat, j: nat)
    requires IsRun(forces, disk, tr) && true !in forces
    requires i < j <= |tr| && IsSetup(tr[i].a) && NoMisread(tr, i, j)
    ensures IsRun(forces, disk, tr[..j])
    ensures var s := Exec(forces, disk, tr[..j]).value; s.disk.state.Ready? && NobodySets(s)
  {
    PrefixStep(forces, disk, tr, j - 1);
    OneInside(forces, disk, tr[..j - 1]);
    UnforcedPositions(forces, disk, tr[..j - 1]);
    var s := Exec(forces, disk, tr[..j - 1]).value;
    if j > i + 1 {
      MarkStays(forces, disk, tr, i, j - 1);
      ReuseStep(s, tr[j - 1]);
    } else {
      SetupStep(s, tr[i]);
    }
  }

  lemma SetupStep(s: State, e: Event)
    requires Exclusive(s) && Enabled(s, e) && IsSetup(e.a)
    ensures Apply(s, e).disk.state.Ready? && NobodySets(Apply(s, e))
  {
    var t := Apply(s, e);
    forall q | 0 <= q < |t.procs| ensures !Setting(t.procs[q].pc) {
      assert Inside(s.procs[e.p].pc);
      if q != e.p { assert !Inside(s.procs[q].pc); }
    }
  }

  lemma ReuseStep(s: State, e: Event)
    requires Enabled(s, e) && s.disk.state.Ready? && NobodySets(s) && !s.procs[e.p].force && !e.a.Misread?
    requires var pc := s.procs[e.p].pc; !pc.CleanEnv? && !pc.CleanConfig? && !pc.CleanState?
    ensures Apply(s, e).disk.state.Ready? && NobodySets(Apply(s, e))
    ensures !e.a.Install? && (e.a.Read? ==> Apply(s, e).procs[e.p].pc == Leaving(true))
  {
    assert !Setting(s.procs[e.p].pc);
  }

  /** After a completed setup an unforced caller installs only if some read of the "ready" file
      has failed since; until then every caller's read makes it return. */
  lemma LaterCallersReuse(forces: seq<bool>, disk: Disk, tr: Trace, i: nat, j: nat)
    requires IsRun(forces, disk, tr) && true !in forces
    requires i < j < |tr| && IsSetup(tr[i].a)
    ensures tr[j].a.Install? ==> exists k :: i < k < j && tr[k].a.Misread?
    ensures tr[j].a.Read? && NoMisread(tr, i, j) ==>
              Exec(forces, disk, tr[..j + 1]).Some? &&
              Exec(forces, disk, tr[..j + 1]).value.procs[tr[j].p].pc == Leaving(true)
  {
    if NoMisread(tr, i, j) {
      PrefixStep(forces, disk, tr, j);
      MarkStays(forces, disk, tr, i, j);
      OneInside(forces, disk, tr[..j]);
      UnforcedPositions(forces, disk, tr[..j]);
      if !tr[j].a.Misread? { ReuseStep(Exec(forces, disk, tr[..j]).value, tr[j]); }
    } else {
      var k :| i <= k < j && tr[k].a.Misread?;
      assert k != i;
    }
  }

  lemma PrefixStep(forces: seq<bool>, disk: Disk, tr: Trace, j: nat)
    requires IsRun(forces, disk, tr) && j < |tr|
    ensures IsRun(forces, disk, tr[..j]) && Enabled(Exec(forces, disk, tr[..j]).value, tr[j])
    ensures Exec(forces, disk, tr[..j + 1]) == Some(Apply(Exec(forces, disk, tr[..j]).value, tr[j]))
  {
    Runs.PrefixRuns(Next, Init(forces, disk), tr, j);
    Runs.Extend(Next, Init(forces, disk), tr[..j], tr[j]);
    assert tr[..j + 1] == tr[..j] + [tr[j]];
  }

  // ------------------------------------------------------------------
  // How it goes wrong
  // ------------------------------------------------------------------

  lemma Extend(forces: seq<bool>, disk: Disk, tr: Trace, s: State, e: Event)
    requires Exec(forces, disk, tr) == Some(s) && Enabled(s, e)
    ensures Exec(forces, disk, tr + [e]) == Some(Apply(s, e))
  {
    Runs.Extend(Next, Init(forces, disk), tr, e);
  }

  /** One caller's events. */
  function By(p: nat, actions: seq<Action>): (tr: Trace)
    ensures |tr| == |actions| && forall i :: 0 <= i < |tr| ==> tr[i] == Event(p, actions[i])
  {
    seq(|actions|, i requires 0 <= i < |actions| => Event(p, actions[i]))
  }

  const WORKING: Disk := Disk(true, true, Ready)

  /** After these actions the one caller of a working installation is at `pc` with disk `d`. */
  predicate Solo(force: bool, actions: seq<Action>, pc: PC, d: Disk) {
    Exec([force], WORKING, By(0, actions)) ==
      Some(State([Proc(force, pc)], if Inside(pc) then Some(0) else None, d))
  }

  lemma SoloStart(force: bool)
    ensures Solo(force, [], Waiting, WORKING)
  {
    assert By(0, []) == [];
    assert Init([force], WORKING).procs == [Proc(force, Waiting)];
  }

  lemma SoloStep(force: bool, actions: seq<Action>, pc: PC, d: Disk, a: Action)
    requires Solo(force, actions, pc, d)
    requires Enabled(State([Proc(force, pc)], if Inside(pc) then Some(0) else None, d), Event(0, a))
    ensures Solo(force, actions + [a], NextPC(Proc(force, pc), d, a), NextDisk(d, a))
  {
    var s := Exec([force], WORKING, By(0, actions)).value;
    Extend([force], WORKING, By(0, actions), s, Event(0, a));
    assert By(0, actions + [a]) == By(0, actions) + [Event(0, a)];
    assert s.procs[0 := Proc(force, NextPC(Proc(force, pc), d, a))] == [Proc(force, NextPC(Proc(force, pc), d, a))];
  }

  lemma RefreshOpens()
    ensures Solo(true, [Lock, Read, RemoveEnv(true)], CleanConfig, Disk(false, true, Ready))
  {
    SoloStart(true);
    SoloStep(true, [], Waiting, WORKING, Lock);
    SoloStep(true, [] + [Lock], Reading, WORKING, Read);
    SoloStep(true, [] + [Lock] + [Read], CleanEnv, WORKING, RemoveEnv(true));
    assert [] + [Lock] + [Read] + [RemoveEnv(true)] == [Lock, Read, RemoveEnv(true)];
  }

  /** A state file that survives its unlink outlives a failing install. */
  lemma SurvivingStateExposes()
    ensures var start := [Lock, Read, RemoveEnv(true)];
            var r := Exec([true], WORKING,
                          By(0, start + [UnlinkConfig(true)] + [UnlinkState(false)] +
                                [Install(false, false)] + [Unlock]));
            r.Some? && r.value.holder == None && !Honest(r.value.disk)
  {
    RefreshOpens();
    var a := [Lock, Read, RemoveEnv(true)] + [UnlinkConfig(true)];
    SoloStep(true, [Lock, Read, RemoveEnv(true)], CleanConfig, Disk(false, true, Ready), UnlinkConfig(true));
    SoloStep(true, a, CleanState, Disk(false, false, Ready), UnlinkState(false));
    SoloStep(true, a + [UnlinkState(false)], Installing, Disk(false, false, Ready), Install(false, false));
    SoloStep(true, a + [UnlinkState(false)] + [Install(false, false)], Leaving(false), Disk(false, false, Ready),
             Unlock);
  }

  /** A kill between removing the environment and unlinking the state file is enough, too. */
  lemma KillExposes()
    ensures var r := Exec([true], WORKING, By(0, [Lock, Read, RemoveEnv(true)] + [Kill(CleanConfig, false)]));
            r.Some? && r.value.holder == None && !Honest(r.value.disk)
  {
    RefreshOpens();
    SoloStep(true, [Lock, Read, RemoveEnv(true)], CleanConfig, Disk(false, true, Ready), Kill(CleanConfig, false));
  }

  /** A failed read of the "ready" file: the install it leads to fails and spoils. */
  lemma MisreadExposes()
    ensures var r := Exec([false], WORKING, By(0, [Lock, Misread] + [Install(false, true)] + [Unlock]));
            r.Some? && r.value.holder == None && !Honest(r.value.disk)
  {
    MisreadOpens();
    SoloStep(false, [Lock, Misread], Installing, WORKING, Install(false, true));
    SoloStep(false, [Lock, Misread] + [Install(false, true)], Leaving(false), Disk(false, true, Ready), Unlock);
  }

  lemma MisreadOpens()
    ensures Solo(false, [Lock, Misread], Installing, WORKING)
  {
    SoloStart(false);
    SoloStep(false, [], Waiting, WORKING, Lock);
    SoloStep(false, [] + [Lock], Reading, WORKING, Misread);
    assert [] + [Lock] + [Misread] == [Lock, Misread];
  }

  /** Or a second setup completes over a standing one: the bound of one for each failed read
      is met. */
  lemma MisreadSetsUpAgain()
    ensures var tr := By(0, [Lock, Misread] + [Install(true, true)] + [Collect(true, true)] + [WriteState(true, true)]);
            IsRun([false], WORKING, tr) && Setups(tr) == 1 == Unmarked(WORKING) + Misreads(tr)
  {
    MisreadOpens();
    var a := [Lock, Misread] + [Install(true, true)];
    SoloStep(false, [Lock, Misread], Installing, WORKING, Install(true, true));
    SoloStep(false, a, Metrics, WORKING, Collect(true, true));
    SoloStep(false, a + [Collect(true, true)], Writing, WORKING, WriteState(true, true));
    var tr := By(0, a + [Collect(true, true)] + [WriteState(true, true)]);
    SetupCounted(tr, 4);
    UnforcedSetups([false], WORKING, tr);
    OneMisread(tr, 1);
  }

  lemma {:induction false} SetupCounted(tr: Trace, i: nat)
    requires i < |tr| && IsSetup(tr[i].a)
    ensures Setups(tr) >= 1
  {
    if i < |tr| - 1 {
      SetupCounted(tr[..|tr| - 1], i);
    }
  }

  lemma {:induction false} OneMisread(tr: Trace, k: nat)
    requires forall i :: 0 <= i < |tr| && tr[i].a.Misread? ==> i == k
    ensures Misreads(tr) <= if k < |tr| then 1 else 0
  {
    if tr != [] {
      OneMisread(tr[..|tr| - 1], k);
    }
  }

  const EMPTY: Disk := Disk(false, false, Missing)

  lemma InstallsAppend(a: Trace, e: Event)
    ensures Installs(a + [e]) == Installs(a) + (if e.a.Install? && e.a.ok then 1 else 0)
  {
    assert (a + [e])[..|a|] == a;
  }

  /** A caller who finds no "ready" installs. */
  lemma CallerInstalls(forces: seq<bool>, disk: Disk, tr: Trace, s: State, p: nat)
    requires Exec(forces, disk, tr) == Some(s) && s.holder == None && !s.disk.state.Ready?
    requires p < |s.procs| && s.procs[p] == Proc(false, Waiting)
    ensures var t := By(p, [Lock, Read, Install(true, true)]);
            && Exec(forces, disk, tr + t) ==
               Some(State(s.procs[p := Proc(false, Metrics)], Some(p), s.disk.(env := true)))
            && Installs(tr + t) == Installs(tr) + 1
  {
    var e0, e1, e2 := Event(p, Lock), Event(p, Read), Event(p, Install(true, true));
    InstallSteps(s, p);
    Extend(forces, disk, tr, s, e0);
    Extend(forces, disk, tr + [e0], Apply(s, e0), e1);
    Extend(forces, disk, tr + [e0] + [e1], Apply(Apply(s, e0), e1), e2);
    InstallsAppend(tr, e0);
    InstallsAppend(tr + [e0], e1);
    InstallsAppend(tr + [e0] + [e1], e2);
    assert tr + By(p, [Lock, Read, Install(true, true)]) == tr + [e0] + [e1] + [e2];
  }

  lemma InstallSteps(s: State, p: nat)
    requires s.holder == None && !s.disk.state.Ready? && p < |s.procs| && s.procs[p] == Proc(false, Waiting)
    ensures Enabled(s, Event(p, Lock))
    ensures Enabled(Apply(s, Event(p, Lock)), Event(p, Read))
    ensures var s2 := Apply(Apply(s, Event(p, Lock)), Event(p, Read));
            Enabled(s2, Event(p, Install(true, true))) &&
            Apply(s2, Event(p, Install(true, true))) ==
            State(s.procs[p := Proc(false, Metrics)], Some(p), s.disk.(env := true))
  {}

  /** The metrics step of a caller fails and it lets go of the lock. */
  lemma MetricsFail(forces: seq<bool>, disk: Disk, tr: Trace, s: State, p: nat)
    requires Exec(forces, disk, tr) == Some(s) && p < |s.procs| && s.procs[p] == Proc(false, Metrics)
    requires s.holder == Some(p)
    ensures var t := By(p, [Collect(false, true), Unlock]);
            && Exec(forces, disk, tr + t) ==
               Some(State(s.procs[p := Proc(false, Finished(false))], None, s.disk.(config := false)))
            && Installs(tr + t) == Installs(tr)
  {
    var e0, e1 := Event(p, Collect(false, true)), Event(p, Unlock);
    Extend(forces, disk, tr, s, e0);
    Extend(forces, disk, tr + [e0], Apply(s, e0), e1);
    InstallsAppend(tr, e0);
    InstallsAppend(tr + [e0], e1);
    assert tr + By(p, [Collect(false, true), Unlock]) == tr + [e0] + [e1];
    assert Apply(Apply(s, e0), e1).procs == s.procs[p := Proc(false, Finished(false))];
  }

  /** Two installs can both succeed without any forced refresh: the first caller's metrics
      step fails, so the second caller finds no "ready" and installs again. */
  lemma TwoInstallsCanSucceed()
    ensures var tr := By(0, [Lock, Read, Install(true, true)]) + By(0, [Collect(false, true), Unlock]) +
                      By(1, [Lock, Read, Install(true, true)]);
            IsRun([false, false], EMPTY, tr) && Installs(tr) == 2
  {
    var f := [false, false];
    var a := By(0, [Lock, Read, Install(true, true)]);
    var s0 := Init(f, EMPTY);
    CallerInstalls(f, EMPTY, [], s0, 0);
    assert [] + a == a;
    var s1 := State(s0.procs[0 := Proc(false, Metrics)], Some(0), EMPTY.(env := true));
    MetricsFail(f, EMPTY, a, s1, 0);
    var s2 := State(s1.procs[0 := Proc(false, Finished(false))], None, Disk(true, false, Missing));
    CallerInstalls(f, EMPTY, a + By(0, [Collect(false, true), Unlock]), s2, 1);
  }
}
