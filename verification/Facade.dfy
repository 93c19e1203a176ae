/**
 The session facade between threads: commands behind a coroutine mutex, `configurePassphrase`,
 `createInterp` and `disconnect` behind the object's monitor, and the closed flag. Each
 thread runs its own program, one statement at a time, and blocks only where the code does.
 */
module Facade {
  import opened Bytes

  type Thread = nat
  type Handle = nat

  datatype Family = Trezor | KeepKey | NoPin

  /** Where a thread stands in the method it called. */
  datatype Pc =
    | CfgStart(handle: Option<Handle>, device: bool)    // about to enter the monitor
    | CfgEntered(handle: Option<Handle>, device: bool)  // about to try the mutex
    | CfgLocked(handle: Option<Handle>, device: bool)   // about to check
    | CfgChecked(handle: Option<Handle>, device: bool)  // about to clear the old handle
    | CfgCleared(handle: Option<Handle>, device: bool)  // about to assign the fields
    | CfgUnlocking
    | CfgLeaving
    | CmdStart(account: bool)                           // about to wait for the mutex
    | CmdLocked(account: bool)                          // about to check that the session is open
    | CmdOpen(account: bool)                            // about to enter the monitor
    | CmdEntered(account: bool)                         // about to check again, inside
    | CmdAllowed(account: bool)                         // about to build the interpreter
    | CmdLeaving(made: bool)
    | CmdDriving                                        // the interpreter lives
    | CmdUnlocking
    | DisStart                                          // about to enter the monitor
    | DisEntered                                        // about to set the flag
    | DisClearing                                       // about to clear the passphrase
    | DisLeaving
    | Over

  /**
   What an interpreter was built with, for what kind of command, and in what state the session
   and the passphrase handle were at that moment; `choices` are those accepted before.
   */
  datatype Creation = Creation(passphrase: Option<Handle>, device: bool, account: bool, configured: bool, closed: bool,
                               cleared: bool, choices: seq<Choice>)

  /** One reconfiguration: a host handle, if any, and whether entry is on the device. */
  datatype Choice = Choice(handle: Option<Handle>, device: bool)

  datatype State = State(
    family: Family,
    mutex: Option<Thread>,
    monitor: Option<Thread>,
    closed: bool,
    passphrase: Option<Handle>,
    device: bool,
    configured: bool,
    cleared: set<Handle>,
    owned: set<Handle>,
    created: seq<Creation>,
    choices: seq<Choice>,
    pcs: map<Thread, Pc>)

  function NewSession(family: Family): State {
    State(family, None, None, false, None, false, false, {}, {}, [], [], map[])
  }

  predicate HasMutex(pc: Pc) {
    pc.CfgLocked? || pc.CfgChecked? || pc.CfgCleared? || pc.CfgUnlocking?
    || pc.CmdLocked? || pc.CmdOpen? || pc.CmdEntered? || pc.CmdAllowed? || pc.CmdLeaving? || pc.CmdDriving?
    || pc.CmdUnlocking?
  }

  predicate HasMonitor(pc: Pc) {
    pc.CfgEntered? || pc.CfgLocked? || pc.CfgChecked? || pc.CfgCleared? || pc.CfgUnlocking? || pc.CfgLeaving?
    || pc.CmdEntered? || pc.CmdAllowed? || pc.CmdLeaving?
    || pc.DisEntered? || pc.DisClearing? || pc.DisLeaving?
  }

  predicate WaitsForMonitor(pc: Pc) {
    pc.CfgStart? || pc.CmdOpen? || pc.DisStart?
  }

  /** A thread can go on unless it waits for a mutex or monitor that somebody has. */
  predicate Enabled(s: State, t: Thread) {
    t in s.pcs && !s.pcs[t].Over?
    && (WaitsForMonitor(s.pcs[t]) ==> s.monitor == None)
    && (s.pcs[t].CmdStart? ==> s.mutex == None)
  }

  /** The options `configurePassphrase` lets through. */
  predicate Acceptable(s: State, handle: Option<Handle>, device: bool) {
    !s.closed && !s.family.NoPin? && !(s.family.KeepKey? && device) && !(device && handle.Some?)
    && (handle.Some? ==> handle.value !in s.cleared)
  }

  predicate AccountAllowed(s: State, account: bool) {
    s.family.NoPin? || s.configured || !account
  }

  function Move(s: State, t: Thread, pc: Pc): State {
    s.(pcs := s.pcs[t := pc])
  }

  function Cleared(s: State): set<Handle> {
    if s.passphrase.Some? then s.cleared + {s.passphrase.value} else s.cleared
  }

  predicate InConfigure(pc: Pc) {
    pc.CfgStart? || pc.CfgEntered? || pc.CfgLocked? || pc.CfgChecked? || pc.CfgCleared? || pc.CfgUnlocking?
    || pc.CfgLeaving?
  }

  predicate InRun(pc: Pc) {
    pc.CmdStart? || pc.CmdLocked? || pc.CmdDriving? || pc.CmdUnlocking?
  }

  predicate InCreate(pc: Pc) {
    pc.CmdOpen? || pc.CmdEntered? || pc.CmdAllowed? || pc.CmdLeaving?
  }

  predicate InDisconnect(pc: Pc) {
    pc.DisStart? || pc.DisEntered? || pc.DisClearing? || pc.DisLeaving?
  }

  /** One statement of `configurePassphrase`. */
  function ConfigureNext(s: State, t: Thread): State
    requires Enabled(s, t) && InConfigure(s.pcs[t])
  {
    match s.pcs[t]
    case CfgStart(h, d) => Move(s, t, CfgEntered(h, d)).(monitor := Some(t))
    case CfgEntered(h, d) =>
      if s.mutex == None then Move(s, t, CfgLocked(h, d)).(mutex := Some(t)) else Move(s, t, CfgLeaving)
    case CfgLocked(h, d) => Move(s, t, if Acceptable(s, h, d) then CfgChecked(h, d) else CfgUnlocking)
    case CfgChecked(h, d) =>
      Move(s, t, CfgCleared(h, d)).(cleared := if s.passphrase != h then Cleared(s) else s.cleared)
    case CfgCleared(h, d) =>
      Move(s, t, CfgUnlocking).(passphrase := h, device := d, configured := true, choices := s.choices + [Choice(h, d)],
                                owned := if h.Some? then s.owned + {h.value} else s.owned)
    case CfgUnlocking => Move(s, t, CfgLeaving).(mutex := None)
    case CfgLeaving => Move(s, t, Over).(monitor := None)
  }

  /** One statement of `run` outside the monitor; `works` is false on cancellation or failure. */
  function RunNext(s: State, t: Thread, works: bool): State
    requires Enabled(s, t) && InRun(s.pcs[t])
  {
    match s.pcs[t]
    case CmdStart(a) => Move(s, t, CmdLocked(a)).(mutex := Some(t))
    case CmdLocked(a) => Move(s, t, if works && !s.closed then CmdOpen(a) else CmdUnlocking)
    case CmdDriving => Move(s, t, if works then CmdDriving else CmdUnlocking)
    case CmdUnlocking => Move(s, t, Over).(mutex := None)
  }

  /** One statement of `createInterp`, which runs inside the monitor; the constructor may fail. */
  function CreateNext(s: State, t: Thread, works: bool): State
    requires Enabled(s, t) && InCreate(s.pcs[t])
  {
    match s.pcs[t]
    case CmdOpen(a) => Move(s, t, CmdEntered(a)).(monitor := Some(t))
    case CmdEntered(a) => Move(s, t, if !s.closed && AccountAllowed(s, a) then CmdAllowed(a) else CmdLeaving(false))
    case CmdAllowed(a) =>
      var c := Creation(s.passphrase, s.device, a, s.configured, s.closed,
                        s.passphrase.Some? && s.passphrase.value in s.cleared, s.choices);
      Move(s, t, CmdLeaving(works)).(created := if works then s.created + [c] else s.created)
    case CmdLeaving(made) => Move(s, t, if made then CmdDriving else CmdUnlocking).(monitor := None)
  }

  /** One statement of `disconnect`. */
  function DisconnectNext(s: State, t: Thread): State
    requires Enabled(s, t) && InDisconnect(s.pcs[t])
  {
    match s.pcs[t]
    case DisStart => Move(s, t, DisEntered).(monitor := Some(t))
    case DisEntered => if s.closed then Move(s, t, DisLeaving) else Move(s, t, DisClearing).(closed := true)
    case DisClearing => Move(s, t, DisLeaving).(cleared := Cleared(s), passphrase := None)
    case DisLeaving => Move(s, t, Over).(monitor := None)
  }

  function Next(s: State, t: Thread, works: bool): State
    requires Enabled(s, t)
  {
    if InConfigure(s.pcs[t]) then ConfigureNext(s, t)
    else if InDisconnect(s.pcs[t]) then DisconnectNext(s, t)
    else if InRun(s.pcs[t]) then RunNext(s, t, works)
    else CreateNext(s, t, works)
  }

  /** A new call arrives, a thread takes a step, or a command is cancelled while it waits for the mutex. */
  datatype Event = Call(thread: Thread, first: Pc) | Step(thread: Thread, works: bool) | Cancel(thread: Thread)

  predicate Possible(s: State, e: Event) {
    match e
    case Call(t, pc) => t !in s.pcs && (pc.CfgStart? || pc.CmdStart? || pc.DisStart?)
    case Step(t, _) => Enabled(s, t)
    case Cancel(t) => t in s.pcs && s.pcs[t].CmdStart?
  }

  function Apply(s: State, e: Event): State
    requires Possible(s, e)
  {
    match e
    case Call(t, pc) => Move(s, t, pc)
    case Step(t, works) => Next(s, t, works)
    case Cancel(t) => Move(s, t, Over)
  }

  predicate CanRun(s: State, es: seq<Event>)
    decreases |es|
  {
    es == [] || (Possible(s, es[0]) && CanRun(Apply(s, es[0]), es[1..]))
  }

  function Run(s: State, es: seq<Event>): State
    requires CanRun(s, es)
    decreases |es|
  {
    if es == [] then s else Run(Apply(s, es[0]), es[1..])
  }

  // --------------------------------------------------------------- invariants

  /** Mutex and monitor belong to exactly the threads whose program says so. */
  predicate Ownership(s: State) {
    (forall t :: t in s.pcs ==> (HasMutex(s.pcs[t]) <==> s.mutex == Some(t)))
    && (forall t :: t in s.pcs ==> (HasMonitor(s.pcs[t]) <==> s.monitor == Some(t)))
    && (s.mutex.Some? ==> s.mutex.value in s.pcs)
    && (s.monitor.Some? ==> s.monitor.value in s.pcs)
  }

  /** The choice in force: the last one, or at first no handle and entry on the host. */
  function Latest(choices: seq<Choice>): Choice {
    if choices == [] then Choice(None, false) else choices[|choices| - 1]
  }

  predicate Options(s: State) {
    (!s.closed ==> Choice(s.passphrase, s.device) == Latest(s.choices))
    && (s.passphrase.Some? ==> !s.device)
    && (s.family.KeepKey? ==> !s.device)
    && (s.family.NoPin? ==> s.passphrase == None && !s.device && !s.configured)
  }

  /** What the monitor lets a thread rely on between its check and its act. */
  predicate Local(s: State, pc: Pc) {
    (pc.CfgChecked? || pc.CfgCleared? ==> Acceptable(s, pc.handle, pc.device))
    && (pc.CfgCleared? && s.passphrase.Some? && s.passphrase != pc.handle ==> s.passphrase.value in s.cleared)
    && (pc.CmdAllowed? ==> !s.closed && AccountAllowed(s, pc.account))
    && (pc.DisClearing? ==> s.closed)
  }

  predicate Locals(s: State) {
    forall t :: t in s.pcs ==> Local(s, s.pcs[t])
  }

  /** The monitor's owner is in the middle of changing the passphrase. */
  predicate Changing(s: State) {
    s.monitor.Some? && s.monitor.value in s.pcs
    && (s.pcs[s.monitor.value].CfgCleared? || s.pcs[s.monitor.value].DisClearing?)
  }

  /** The current handle is alive, every earlier one has been cleared, a closed session has none. */
  predicate HandlesBut(s: State, changing: bool) {
    (s.passphrase.Some? ==> s.passphrase.value in s.owned)
    && (forall h :: h in s.owned && s.passphrase != Some(h) ==> h in s.cleared)
    && (!changing ==>
          (s.passphrase.Some? ==> s.passphrase.value !in s.cleared) && (s.closed ==> s.passphrase == None))
  }

  predicate Handles(s: State) {
    HandlesBut(s, Changing(s))
  }

  /**
   Interpreters are built on an open session, with one way of entry, from a live handle, and
   for account commands only once a mode was chosen where there are modes; and always with
   the choice accepted last.
   */
  predicate GoodCreations(s: State) {
    forall k :: 0 <= k < |s.created| ==>
      var c := s.created[k];
      !c.closed && !c.cleared && !(c.passphrase.Some? && c.device) && !(s.family.KeepKey? && c.device)
      && (c.account ==> c.configured || s.family.NoPin?)
      && c.choices <= s.choices && Choice(c.passphrase, c.device) == Latest(c.choices)
  }

  predicate Inv(s: State) {
    Ownership(s) && Options(s) && Locals(s) && Handles(s) && GoodCreations(s)
  }

  /** The session's data, all but who has the mutex and where the threads stand. */
  predicate SameData(s: State, n: State) {
    n.closed == s.closed && n.passphrase == s.passphrase && n.device == s.device && n.configured == s.configured
    && n.cleared == s.cleared && n.owned == s.owned && n.created == s.created && n.choices == s.choices
  }

  /** Who has a lock after one thread moved from `before` to `after`. */
  function Owner(lock: Option<Thread>, t: Thread, had: bool, has: bool): Option<Thread> {
    if has then Some(t) else if had then None else lock
  }

  /** What a step of `t` may touch: its own place, locks it takes or gives back, and, inside the monitor, data. */
  predicate Framed(s: State, t: Thread, n: State) {
    n.family == s.family && t in n.pcs && n.pcs == s.pcs[t := n.pcs[t]] &&
    var before, after := if t in s.pcs then s.pcs[t] else Over, n.pcs[t];
    n.mutex == Owner(s.mutex, t, HasMutex(before), HasMutex(after))
    && (HasMutex(after) && !HasMutex(before) ==> s.mutex == None)
    && n.monitor == Owner(s.monitor, t, HasMonitor(before), HasMonitor(after))
    && (HasMonitor(after) && !HasMonitor(before) ==> s.monitor == None)
    && (!HasMonitor(before) ==> SameData(s, n))
  }

  /** The thread's place agrees with who has mutex and monitor. */
  predicate Placed(s: State, t: Thread) {
    t in s.pcs && (HasMutex(s.pcs[t]) <==> s.mutex == Some(t)) && (HasMonitor(s.pcs[t]) <==> s.monitor == Some(t))
  }

  lemma ConfigureIsFramed(s: State, t: Thread)
    requires Enabled(s, t) && Placed(s, t) && InConfigure(s.pcs[t])
    ensures Framed(s, t, ConfigureNext(s, t))
  {
  }

  lemma ConfigureIsLocal(s: State, t: Thread)
    requires Enabled(s, t) && InConfigure(s.pcs[t]) && Local(s, s.pcs[t])
    ensures t in ConfigureNext(s, t).pcs && Local(ConfigureNext(s, t), ConfigureNext(s, t).pcs[t])
  {
  }

  lemma RunIsFramed(s: State, t: Thread, works: bool)
    requires Enabled(s, t) && Placed(s, t) && InRun(s.pcs[t])
    ensures Framed(s, t, RunNext(s, t, works))
    ensures Local(RunNext(s, t, works), RunNext(s, t, works).pcs[t])
  {
  }

  lemma CreateIsFramed(s: State, t: Thread, works: bool)
    requires Enabled(s, t) && Placed(s, t) && InCreate(s.pcs[t])
    ensures Framed(s, t, CreateNext(s, t, works))
    ensures Local(CreateNext(s, t, works), CreateNext(s, t, works).pcs[t])
  {
  }

  lemma DisconnectIsFramed(s: State, t: Thread)
    requires Enabled(s, t) && Placed(s, t) && InDisconnect(s.pcs[t])
    ensures Framed(s, t, DisconnectNext(s, t))
    ensures Local(DisconnectNext(s, t), DisconnectNext(s, t).pcs[t])
  {
  }

  lemma StepsAreFramed(s: State, e: Event)
    requires Possible(s, e) && (e.Step? ==> Placed(s, e.thread))
    ensures Framed(s, e.thread, Apply(s, e))
    ensures (e.Step? ==> Local(s, s.pcs[e.thread])) ==> Local(Apply(s, e), Apply(s, e).pcs[e.thread])
  {
    var t := e.thread;
    if e.Step? {
      if InConfigure(s.pcs[t]) {
        ConfigureIsFramed(s, t);
        if Local(s, s.pcs[t]) {
          ConfigureIsLocal(s, t);
        }
      } else if InDisconnect(s.pcs[t]) {
        DisconnectIsFramed(s, t);
      } else if InRun(s.pcs[t]) {
        RunIsFramed(s, t, e.works);
      } else {
        CreateIsFramed(s, t, e.works);
      }
    }
  }

  lemma OwnershipAfter(s: State, t: Thread, n: State)
    requires Ownership(s) && Framed(s, t, n)
    ensures Ownership(n)
  {
  }

  /** The options are written only where `configurePassphrase` assigns them and where `disconnect` clears them. */
  lemma OptionsWritten(s: State, e: Event)
    requires Possible(s, e)
    requires e.Call? || !(s.pcs[e.thread].CfgCleared? || s.pcs[e.thread].DisClearing?)
    ensures var n := Apply(s, e);
            n.family == s.family && n.passphrase == s.passphrase && n.device == s.device
            && n.configured == s.configured && n.owned == s.owned && n.choices == s.choices
            && (!n.closed ==> !s.closed)
    ensures e.Call? || !s.pcs[e.thread].CfgChecked? ==> Apply(s, e).cleared == s.cleared
  {
    if e.Step? && InRun(s.pcs[e.thread]) {
      RunWritesNothing(s, e.thread, e.works);
    } else if e.Step? && InCreate(s.pcs[e.thread]) {
      CreateWrites(s, e.thread, e.works);
    } else if e.Step? && InConfigure(s.pcs[e.thread]) {
      ConfigureWrites(s, e.thread);
    } else if e.Step? {
      DisconnectWrites(s, e.thread);
    }
  }

  lemma DisconnectWrites(s: State, t: Thread)
    requires Enabled(s, t) && InDisconnect(s.pcs[t])
    ensures var n := DisconnectNext(s, t); n.family == s.family && n.created == s.created && n.choices == s.choices
    ensures !s.pcs[t].DisClearing? ==> SameData(s, DisconnectNext(s, t).(closed := s.closed))
  {
  }

  lemma ConfigureWrites(s: State, t: Thread)
    requires Enabled(s, t) && InConfigure(s.pcs[t])
    ensures var n := ConfigureNext(s, t);
            n.family == s.family && n.closed == s.closed && n.created == s.created && s.choices <= n.choices
    ensures !s.pcs[t].CfgCleared? ==> SameData(s, ConfigureNext(s, t).(cleared := s.cleared))
    ensures !s.pcs[t].CfgChecked? ==> ConfigureNext(s, t).cleared == s.cleared
  {
  }

  lemma RunWritesNothing(s: State, t: Thread, works: bool)
    requires Enabled(s, t) && InRun(s.pcs[t])
    ensures SameData(s, RunNext(s, t, works)) && RunNext(s, t, works).family == s.family
  {
  }

  lemma CreateWrites(s: State, t: Thread, works: bool)
    requires Enabled(s, t) && InCreate(s.pcs[t])
    ensures var n := CreateNext(s, t, works); SameData(s, n.(created := s.created)) && n.family == s.family
    ensures !s.pcs[t].CmdAllowed? ==> CreateNext(s, t, works).created == s.created
  {
  }

  lemma OptionsAfter(s: State, e: Event)
    requires Options(s) && Possible(s, e)
    requires e.Step? ==> Local(s, s.pcs[e.thread])
    ensures Options(Apply(s, e))
  {
    if e.Call? || !(s.pcs[e.thread].CfgCleared? || s.pcs[e.thread].DisClearing?) {
      OptionsWritten(s, e);
    }
  }

  /** Only the owner of the monitor writes what the others rely on. */
  lemma OthersKeepTheirLocals(s: State, t: Thread, n: State)
    requires Ownership(s) && Locals(s) && Framed(s, t, n) && Local(n, n.pcs[t])
    ensures Locals(n)
  {
    forall u | u in n.pcs && u != t ensures Local(n, n.pcs[u]) {
      assert Local(s, s.pcs[u]);
      if HasMonitor(s.pcs[u]) {
        assert t in s.pcs ==> !HasMonitor(s.pcs[t]);
      }
    }
  }

  /** Inside the monitor a step keeps the handles in order, or begins or ends changing them. */
  lemma OwnHandlesAfter(s: State, e: Event)
    requires Possible(s, e) && e.Step? && HasMonitor(s.pcs[e.thread]) && Local(s, s.pcs[e.thread])
    requires HandlesBut(s, s.pcs[e.thread].CfgCleared? || s.pcs[e.thread].DisClearing?)
    ensures var n := Apply(s, e); HandlesBut(n, n.pcs[e.thread].CfgCleared? || n.pcs[e.thread].DisClearing?)
  {
    if InCreate(s.pcs[e.thread]) {
      CreateWrites(s, e.thread, e.works);
    }
  }

  lemma HandlesAfter(s: State, e: Event, n: State)
    requires Inv(s) && Possible(s, e) && n == Apply(s, e) && Framed(s, e.thread, n) && Ownership(n)
    ensures Handles(n)
  {
    var t := e.thread;
    if t in s.pcs && HasMonitor(s.pcs[t]) {
      assert s.monitor == Some(t);
      OwnHandlesAfter(s, e);
    } else {
      assert SameData(s, n) && (s.monitor.Some? ==> n.monitor == s.monitor && s.monitor != Some(t));
    }
  }

  lemma CreationsAfter(s: State, e: Event)
    requires Options(s) && Handles(s) && GoodCreations(s) && Possible(s, e)
    requires e.Step? ==> Local(s, s.pcs[e.thread])
    requires e.Step? && s.pcs[e.thread].CmdAllowed? ==> !Changing(s)
    ensures GoodCreations(Apply(s, e))
  {
    if e.Step? && s.pcs[e.thread].CmdAllowed? {
      BuildingIsGood(s, e.thread, e.works);
    } else {
      CreatedWritten(s, e);
    }
  }

  /** Only the step that builds an interpreter adds to what was built. */
  lemma CreatedWritten(s: State, e: Event)
    requires Possible(s, e) && !(e.Step? && s.pcs[e.thread].CmdAllowed?)
    ensures Apply(s, e).created == s.created && Apply(s, e).family == s.family && s.choices <= Apply(s, e).choices
  {
    if e.Step? && InRun(s.pcs[e.thread]) {
      RunWritesNothing(s, e.thread, e.works);
    } else if e.Step? && InCreate(s.pcs[e.thread]) {
      CreateWrites(s, e.thread, e.works);
    } else if e.Step? && InConfigure(s.pcs[e.thread]) {
      ConfigureWrites(s, e.thread);
    }
  }

  lemma BuildingIsGood(s: State, t: Thread, works: bool)
    requires Options(s) && Handles(s) && GoodCreations(s) && Enabled(s, t)
    requires s.pcs[t].CmdAllowed? && Local(s, s.pcs[t]) && !Changing(s)
    ensures GoodCreations(CreateNext(s, t, works))
  {
  }

  lemma StepKeepsInv(s: State, e: Event)
    requires Inv(s) && Possible(s, e)
    ensures Inv(Apply(s, e)) && Apply(s, e).family == s.family
  {
    var n := Apply(s, e);
    StepsAreFramed(s, e);
    OwnershipAfter(s, e.thread, n);
    OptionsAfter(s, e);
    OthersKeepTheirLocals(s, e.thread, n);
    HandlesAfter(s, e, n);
    if e.Step? && s.pcs[e.thread].CmdAllowed? {
      assert s.monitor == Some(e.thread);
    }
    CreationsAfter(s, e);
  }

  /** What every step keeps, every run keeps. */
  lemma {:induction false} Induct(inv: State -> bool, s: State, es: seq<Event>)
    requires forall r, e :: inv(r) && Possible(r, e) ==> inv(Apply(r, e))
    requires inv(s) && CanRun(s, es)
    ensures inv(Run(s, es))
    decreases |es|
  {
    if es != [] {
      Induct(inv, Apply(s, es[0]), es[1..]);
    }
  }

  lemma EveryRunIsSafe(s: State, es: seq<Event>)
    requires Inv(s) && CanRun(s, es)
    ensures Inv(Run(s, es)) && Run(s, es).family == s.family
  {
    var inv := (r: State) => Inv(r) && r.family == s.family;
    forall r, e | inv(r) && Possible(r, e) ensures inv(Apply(r, e)) {
      StepKeepsInv(r, e);
    }
    Induct(inv, s, es);
  }

  // ------------------------------------------------------------- the promises

  /**
   Over every interleaving of commands, reconfigurations and disconnects: commands never
   overlap; no interpreter is built on a closed session, from a cleared handle or with two
   ways of passphrase entry, and none for KeepKey with entry on the device; every handle the
   session ever owned is cleared unless it is the current one.
   */
  lemma SessionIsSafe(family: Family, es: seq<Event>)
    requires CanRun(NewSession(family), es)
    ensures var s := Run(NewSession(family), es);
            GoodCreations(s) && Options(s) && s.family == family
            && (forall t, u :: t in s.pcs && u in s.pcs && s.pcs[t].CmdDriving? && s.pcs[u].CmdDriving? ==> t == u)
            && (forall h :: h in s.owned && s.passphrase != Some(h) ==> h in s.cleared)
            && (s.closed && s.monitor == None ==> s.passphrase == None)
  {
    EveryRunIsSafe(NewSession(family), es);
  }

  /** Nothing locks up: while a call is unfinished, some thread can take a step. */
  lemma NoDeadlock(family: Family, es: seq<Event>, t: Thread) returns (u: Thread)
    requires CanRun(NewSession(family), es)
    requires var s := Run(NewSession(family), es); t in s.pcs && !s.pcs[t].Over?
    ensures Enabled(Run(NewSession(family), es), u)
  {
    EveryRunIsSafe(NewSession(family), es);
    var s := Run(NewSession(family), es);
    u := if s.monitor.Some? then s.monitor.value else if s.mutex.Some? then s.mutex.value else t;
  }

  /** After the flag is set, no run builds another interpreter or changes the options again. */
  lemma DisconnectIsFinal(s: State, es: seq<Event>)
    requires Inv(s) && CanRun(s, es) && s.closed
    ensures var r := Run(s, es);
            r.closed && r.created == s.created && r.device == s.device && r.configured == s.configured
            && (r.passphrase == s.passphrase || r.passphrase == None)
  {
    var inv := (r: State) => Inv(r) && Frozen(s, r);
    forall r, e | inv(r) && Possible(r, e) ensures inv(Apply(r, e)) {
      StepKeepsInv(r, e);
      ClosedIsFrozen(r, e);
    }
    Induct(inv, s, es);
  }

  predicate Frozen(s: State, r: State) {
    r.closed && r.created == s.created && r.device == s.device && r.configured == s.configured
    && (r.passphrase == s.passphrase || r.passphrase == None)
  }

  lemma ClosedIsFrozen(s: State, e: Event)
    requires s.closed && Possible(s, e) && (e.Step? ==> Local(s, s.pcs[e.thread]))
    ensures Frozen(s, Apply(s, e))
  {
  }

  predicate SameOptions(s: State, n: State) {
    n.passphrase == s.passphrase && n.device == s.device && n.configured == s.configured && n.cleared == s.cleared
  }

  /** Options change only by a reconfiguration that was let through, or by a disconnect. */
  lemma RejectedChangesNothing(s: State, e: Event)
    requires Inv(s) && Possible(s, e)
    ensures SameOptions(s, Apply(s, e))
         || (e.Step? && s.monitor == Some(e.thread)
             && var pc := s.pcs[e.thread];
                pc.DisClearing? || ((pc.CfgChecked? || pc.CfgCleared?) && Acceptable(s, pc.handle, pc.device)))
  {
    if e.Call? || !(s.pcs[e.thread].CfgCleared? || s.pcs[e.thread].DisClearing?) {
      OptionsWritten(s, e);
    }
    assert e.Step? ==> Local(s, s.pcs[e.thread]);
  }

  // ------------------------------------------------------- what the calls achieve

  /** The checks of `configurePassphrase`, in its own order, under which it goes through. */
  predicate Checks(s: State, handle: Option<Handle>, device: bool) {
    !s.closed
    && (s.family == Trezor || s.family == KeepKey)
    && !(s.family == KeepKey && device)
    && !(device && handle != None)
    && !(handle.Some? && handle.value in s.cleared)
  }

  /** The session's data, all that a reconfiguration may not touch. */
  predicate SameSession(s: State, n: State) {
    n.family == s.family && n.closed == s.closed && n.created == s.created
  }

  predicate SameChoice(s: State, n: State) {
    n.passphrase == s.passphrase && n.device == s.device && n.configured == s.configured && n.choices == s.choices
    && n.owned == s.owned
  }

  /** The choice is in force, recorded, and an older handle is cleared. */
  predicate TookChoice(s: State, n: State, handle: Option<Handle>, device: bool) {
    n.passphrase == handle && n.device == device && n.configured
    && n.choices == s.choices + [Choice(handle, device)]
    && n.cleared == (if s.passphrase.Some? && s.passphrase != handle then s.cleared + {s.passphrase.value} else s.cleared)
  }

  /** How far the reconfiguration has come since it got the mutex in state `s`. */
  predicate Underway(s: State, n: State, t: Thread, handle: Option<Handle>, device: bool) {
    t in n.pcs && SameSession(s, n) && n.monitor == Some(t) &&
    match n.pcs[t]
    case CfgLocked(h, d) => h == handle && d == device && SameData(s, n)
    case CfgChecked(h, d) => h == handle && d == device && SameData(s, n) && Checks(s, handle, device)
    case CfgCleared(h, d) =>
      h == handle && d == device && SameChoice(s, n) && Checks(s, handle, device)
      && n.cleared == (if s.passphrase.Some? && s.passphrase != handle then s.cleared + {s.passphrase.value} else s.cleared)
    case CfgUnlocking => if Checks(s, handle, device) then TookChoice(s, n, handle, device) else SameData(s, n)
    case CfgLeaving => if Checks(s, handle, device) then TookChoice(s, n, handle, device) else SameData(s, n)
    case _ => false
  }

  lemma OwnStepUnderway(s: State, n: State, t: Thread, handle: Option<Handle>, device: bool)
    requires Underway(s, n, t, handle, device) && Enabled(n, t) && !n.pcs[t].CfgLeaving?
    ensures Underway(s, ConfigureNext(n, t), t, handle, device)
  {
  }

  lemma OthersStepUnderway(s: State, n: State, e: Event, t: Thread, handle: Option<Handle>, device: bool)
    requires Inv(n) && Underway(s, n, t, handle, device) && Possible(n, e) && e.thread != t
    ensures Underway(s, Apply(n, e), t, handle, device)
  {
    StepsAreFramed(n, e);
    assert e.thread in n.pcs ==> !HasMonitor(n.pcs[e.thread]);
    SameStaysUnderway(s, n, Apply(n, e), t, handle, device);
  }

  lemma SameStaysUnderway(s: State, n: State, m: State, t: Thread, handle: Option<Handle>, device: bool)
    requires Underway(s, n, t, handle, device) && SameData(n, m) && m.family == n.family && m.monitor == n.monitor
    requires t in m.pcs && m.pcs[t] == n.pcs[t]
    ensures Underway(s, m, t, handle, device)
  {
  }

  /**
   A reconfiguration that has the mutex, whatever the other threads do meanwhile: when it is
   about to leave the monitor, its choice is in force and an older handle cleared exactly if
   the checks held, and otherwise nothing has changed.
   */
  lemma {:induction false} ReconfigurationDoes(s: State, n: State, t: Thread, handle: Option<Handle>, device: bool,
                                               es: seq<Event>)
    requires Inv(n) && Underway(s, n, t, handle, device) && CanRun(n, es)
    requires forall k :: 0 <= k < |es| ==> (es[k].thread == t ==> es[k].Step?)
    requires t in Run(n, es).pcs && !Run(n, es).pcs[t].Over?
    ensures Underway(s, Run(n, es), t, handle, device)
    decreases |es|
  {
    if es != [] {
      var e := es[0];
      StepKeepsInv(n, e);
      assert forall k :: 0 <= k < |es| - 1 ==> es[1..][k] == es[k + 1];
      if e.thread != t {
        OthersStepUnderway(s, n, e, t, handle, device);
        ReconfigurationDoes(s, Apply(n, e), t, handle, device, es[1..]);
      } else if n.pcs[t].CfgLeaving? {
        OverStays(Apply(n, e), es[1..], t);
      } else {
        OwnStepUnderway(s, n, t, handle, device);
        ReconfigurationDoes(s, Apply(n, e), t, handle, device, es[1..]);
      }
    }
  }

  lemma {:induction false} OverStays(n: State, es: seq<Event>, t: Thread)
    requires Inv(n) && CanRun(n, es) && t in n.pcs && n.pcs[t].Over?
    ensures t in Run(n, es).pcs && Run(n, es).pcs[t].Over?
    decreases |es|
  {
    if es != [] {
      StepKeepsInv(n, es[0]);
      StepsAreFramed(n, es[0]);
      OverStays(Apply(n, es[0]), es[1..], t);
    }
  }

  /** `tryLock` in the monitor: the reconfiguration goes on if and only if no command has the mutex. */
  lemma TryLockIff(s: State, t: Thread, handle: Option<Handle>, device: bool)
    requires Inv(s) && t in s.pcs && s.pcs[t] == CfgEntered(handle, device)
    ensures var n := Apply(s, Step(t, true));
            if s.mutex == None then Underway(s, n, t, handle, device) && n.pcs[t].CfgLocked?
            else n.pcs[t] == CfgLeaving && SameData(s, n)
  {
    assert HasMonitor(s.pcs[t]);
  }

  /** The events can happen in this order and lead to this state. */
  predicate Reaches(s: State, es: seq<Event>, n: State) {
    CanRun(s, es) && Run(s, es) == n
  }

  /** A thread takes so many steps in a row, and nothing fails. */
  function Steps(t: Thread, count: nat): seq<Event> {
    if count == 0 then [] else [Step(t, true)] + Steps(t, count - 1)
  }

  lemma Before(s: State, e: Event, es: seq<Event>, n: State)
    requires Possible(s, e) && Reaches(Apply(s, e), es, n)
    ensures Reaches(s, [e] + es, n)
  {
    assert ([e] + es)[0] == e && ([e] + es)[1..] == es;
  }

  lemma ConfigureFirst(s: State, t: Thread, count: nat, n: State)
    requires Enabled(s, t) && InConfigure(s.pcs[t]) && Reaches(ConfigureNext(s, t), Steps(t, count), n)
    ensures Reaches(s, Steps(t, count + 1), n)
  {
    Before(s, Step(t, true), Steps(t, count), n);
  }

  lemma CreateFirst(s: State, t: Thread, count: nat, n: State)
    requires Enabled(s, t) && InCreate(s.pcs[t]) && Reaches(CreateNext(s, t, true), Steps(t, count), n)
    ensures Reaches(s, Steps(t, count + 1), n)
  {
    Before(s, Step(t, true), Steps(t, count), n);
  }

  lemma RunFirst(s: State, t: Thread, count: nat, n: State)
    requires Enabled(s, t) && InRun(s.pcs[t]) && Reaches(RunNext(s, t, true), Steps(t, count), n)
    ensures Reaches(s, Steps(t, count + 1), n)
  {
    Before(s, Step(t, true), Steps(t, count), n);
  }

  lemma DisconnectFirst(s: State, t: Thread, count: nat, n: State)
    requires Enabled(s, t) && InDisconnect(s.pcs[t]) && Reaches(DisconnectNext(s, t), Steps(t, count), n)
    ensures Reaches(s, Steps(t, count + 1), n)
  {
    Before(s, Step(t, true), Steps(t, count), n);
  }

  /** No thread is in the monitor or has the mutex, and `t` is new. */
  predicate Idle(s: State, t: Thread) {
    s.monitor == None && s.mutex == None && t !in s.pcs
  }

  function Ahead(pc: Pc): nat {
    if pc.CfgLocked? then 4 else if pc.CfgChecked? then 3 else if pc.CfgCleared? then 2 else if pc.CfgUnlocking? then 1 else 0
  }

  /** A reconfiguration that is underway finishes in its own steps. */
  lemma {:induction false} FinishesReconfiguration(s: State, m: State, t: Thread, handle: Option<Handle>, device: bool)
    returns (count: nat, n: State)
    requires Underway(s, m, t, handle, device) && m.mutex == if m.pcs[t].CfgLeaving? then None else Some(t)
    ensures Reaches(m, Steps(t, count), n) && SameSession(s, n)
    ensures n.monitor == None && n.mutex == None && t in n.pcs && n.pcs[t] == Over
    ensures if Checks(s, handle, device) then TookChoice(s, n, handle, device) else SameData(s, n)
    decreases Ahead(m.pcs[t])
  {
    if m.pcs[t].CfgLeaving? {
      count, n := 1, ConfigureNext(m, t);
      ConfigureFirst(m, t, 0, n);
    } else {
      OwnStepUnderway(s, m, t, handle, device);
      OwnStepAdvances(m, t);
      count, n := FinishesReconfiguration(s, ConfigureNext(m, t), t, handle, device);
      ConfigureFirst(m, t, count, n);
      count := count + 1;
    }
  }

  lemma OwnStepAdvances(m: State, t: Thread)
    requires Enabled(m, t) && Ahead(m.pcs[t]) > 0 && m.mutex == Some(t)
    ensures var n := ConfigureNext(m, t);
            t in n.pcs && Ahead(n.pcs[t]) < Ahead(m.pcs[t]) && n.mutex == if n.pcs[t].CfgLeaving? then None else Some(t)
  {
  }

  /** On an idle session a reconfiguration runs through: it takes its choice exactly if the checks hold. */
  lemma IdleReconfiguration(s: State, t: Thread, handle: Option<Handle>, device: bool) returns (count: nat, n: State)
    requires Idle(s, t)
    ensures Reaches(s, [Call(t, CfgStart(handle, device))] + Steps(t, count), n) && SameSession(s, n)
    ensures n.monitor == None && n.mutex == None && t in n.pcs && n.pcs[t] == Over
    ensures if Checks(s, handle, device) then TookChoice(s, n, handle, device) else SameData(s, n)
  {
    var a := Move(s, t, CfgStart(handle, device));
    var b := ConfigureNext(a, t);
    var c := ConfigureNext(b, t);
    count, n := FinishesReconfiguration(s, c, t, handle, device);
    ConfigureFirst(b, t, count, n);
    ConfigureFirst(a, t, count + 1, n);
    count := count + 2;
    Before(s, Call(t, CfgStart(handle, device)), Steps(t, count), n);
  }

  /** The command's interpreter was just built with the options in force, and nothing else was. */
  predicate Built(s: State, n: State) {
    |n.created| == |s.created| + 1 && n.created[..|s.created|] == s.created
    && n.created[|s.created|].passphrase == s.passphrase && n.created[|s.created|].device == s.device
  }

  lemma OpenCommand(s: State, t: Thread, account: bool) returns (count: nat, n: State)
    requires s.monitor == None && !s.closed && t in s.pcs && s.pcs[t] == CmdOpen(account)
    ensures Reaches(s, Steps(t, count), n) && t in n.pcs && n.monitor == None
    ensures if account ==> s.configured || s.family == NoPin then n.pcs[t] == CmdDriving && Built(s, n)
            else n.pcs[t] == CmdUnlocking && n.created == s.created
  {
    var d := CreateNext(s, t, true);
    var e := CreateNext(d, t, true);
    var f := CreateNext(e, t, true);
    if AccountAllowed(s, account) {
      count, n := 4, CreateNext(f, t, true);
      CreateFirst(f, t, 0, n);
      CreateFirst(e, t, 1, n);
    } else {
      count, n := 3, f;
      CreateFirst(e, t, 0, n);
    }
    CreateFirst(d, t, count - 2, n);
    CreateFirst(s, t, count - 1, n);
  }

  /**
   On an idle session a command gets as far as driving an interpreter that was just built with
   the options in force, exactly if the session is open and, for an account command where there
   are modes, one was chosen.
   */
  lemma IdleCommand(s: State, t: Thread, account: bool) returns (count: nat, n: State)
    requires Idle(s, t)
    ensures Reaches(s, [Call(t, CmdStart(account))] + Steps(t, count), n) && t in n.pcs && n.monitor == None
    ensures if !s.closed && (account ==> s.configured || s.family == NoPin) then n.pcs[t] == CmdDriving && Built(s, n)
            else n.pcs[t] == CmdUnlocking && n.created == s.created
  {
    var a := Move(s, t, CmdStart(account));
    var b := RunNext(a, t, true);
    var c := RunNext(b, t, true);
    if s.closed {
      count, n := 0, c;
    } else {
      count, n := OpenCommand(c, t, account);
    }
    RunFirst(b, t, count, n);
    RunFirst(a, t, count + 1, n);
    count := count + 2;
    Before(s, Call(t, CmdStart(account)), Steps(t, count), n);
  }

  /** While no thread is in the monitor, a disconnect runs through: the session is closed, its handle cleared. */
  lemma FreeDisconnect(s: State, t: Thread) returns (count: nat, n: State)
    requires s.monitor == None && t !in s.pcs
    ensures Reaches(s, [Call(t, DisStart)] + Steps(t, count), n) && n.monitor == None && n.mutex == s.mutex
    ensures n.closed && n.created == s.created
    ensures if s.closed then SameData(s, n)
            else n.passphrase == None && (s.passphrase.Some? ==> s.passphrase.value in n.cleared) && s.cleared <= n.cleared
  {
    var a := Move(s, t, DisStart);
    var b := DisconnectNext(a, t);
    var c := DisconnectNext(b, t);
    if s.closed {
      count, n := 3, DisconnectNext(c, t);
    } else {
      var d := DisconnectNext(c, t);
      count, n := 4, DisconnectNext(d, t);
      DisconnectFirst(d, t, 0, n);
    }
    DisconnectFirst(c, t, count - 3, n);
    DisconnectFirst(b, t, count - 2, n);
    DisconnectFirst(a, t, count - 1, n);
    Before(s, Call(t, DisStart), Steps(t, count), n);
  }
}
