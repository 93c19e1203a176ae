/**
 One interpreter runs one command: start, any number of exchanges, end. The device protocol
 behind it is any machine at all: every call says what that machine answers if it is reached.
 */
module Interpreter {
  import opened Bytes
  import opened PsbtGate
  import T = TrezorV1

  datatype Kind = Ledger | Coldcard | BitBox | Jade | Trezor | KeepKey | Specter

  datatype HwiError = Device | UserRefused | AuthRefused | AlreadyUnlocked | InvalidInput | BadState | Internal

  datatype CoreError =
    | AuthenticationRefused
    | UserCancelled
    | DeviceAlreadyUnlocked
    | MissingCommandInfo
    | InvalidCommand
    | DeviceError
    | UnexpectedResult
    | Rpc
    | Serialization
    | UnsupportedDisplayAddress
    | Encryption
    | Request
    | NoErrorOrResult

  function MapError(e: CoreError): HwiError {
    match e
    case AuthenticationRefused => AuthRefused
    case UserCancelled => UserRefused
    case DeviceAlreadyUnlocked => AlreadyUnlocked
    case MissingCommandInfo => InvalidInput
    case InvalidCommand => InvalidInput
    case _ => Device
  }

  datatype CoreAnswer<+A> = Answered(value: A) | CoreFailed(error: CoreError)

  datatype Response =
    | TaskDone
    | DeviceAction(success: bool)
    | Info
    | Fingerprint(data: bytes)
    | Xpub(data: bytes)
    | Address(data: bytes)
    | Signature(data: bytes)
    | SignedPsbt(psbt: Psbt)
    | Registration(data: bytes)
    | EncryptionKey(key: bytes)
    | Other

  datatype Expect =
    | Any
    | ExpectInfo
    | ExpectFingerprint
    | ExpectXpub
    | ExpectAddress
    | ExpectSignature
    | ExpectSignedPsbt
    | ExpectRegistration
    | ExpectDeviceAction

  predicate Matches(e: Expect, r: Response) {
    match e
    case Any => true
    case ExpectInfo => r.Info?
    case ExpectFingerprint => r.Fingerprint?
    case ExpectXpub => r.Xpub?
    case ExpectAddress => r.Address?
    case ExpectSignature => r.Signature?
    case ExpectSignedPsbt => r.SignedPsbt?
    case ExpectRegistration => r.Registration?
    case ExpectDeviceAction => r.DeviceAction?
  }

  /** A validated command: what it expects, the PSBT it asks to sign, a Ledger policy id. */
  datatype Plan = Plan(expected: Expect, asked: Option<Psbt>, policyId: Option<bytes>)

  /** What `Session.start` keeps: nothing unless the command is to sign a PSBT. */
  function Captured(plan: Plan): Prior {
    if plan.asked.Some? then PriorOf(plan.asked.value) else NO_PRIOR
  }

  const NO_PRIOR := Prior([], None)

  datatype Planned = Accepts(plan: Plan) | Rejects(error: HwiError)

  datatype Session = Session(started: bool, finished: bool, plan: Plan, prior: Prior)

  const BLANK := Session(false, false, Plan(Any, None, None), NO_PRIOR)

  /** What reaches the device protocol. */
  datatype CoreCall = CoreStart(plan: Plan) | CoreExchange(reply: bytes) | CoreEnd

  /** The state behind the interpreter's mutex, and what has reached the core so far. */
  datatype Machine = Machine(kind: Kind, session: Option<Session>, calls: seq<CoreCall>)

  function NewMachine(kind: Kind): Machine {
    Machine(kind, Some(BLANK), [])
  }

  /** A call with all that is not decided by the interpreter: validation, core, key install. */
  datatype Call =
    | Start(planned: Planned, first: CoreAnswer<bytes>)
    | Exchange(reply: bytes, next: CoreAnswer<Option<bytes>>)
    | End(last: CoreAnswer<Response>, installs: bool)

  datatype Result = Send(payload: bytes) | Done | Returns(response: Response) | Fails(error: HwiError)

  /** A runtime failure retires the session; misuse and failed validation leave it alone. */
  function AfterFailure(s: Session, e: HwiError): Option<Session> {
    if s.started && e != BadState then None else Some(s)
  }

  function StartStep(m: Machine, planned: Planned, first: CoreAnswer<bytes>): (Machine, Result) {
    if m.session.None? || m.session.value.started then (m, Fails(BadState))
    else match planned
      case Rejects(e) => (m.(session := AfterFailure(m.session.value, e)), Fails(e))
      case Accepts(plan) =>
        var s := Session(true, m.session.value.finished, plan, Captured(plan));
        var n := m.(session := Some(s), calls := m.calls + [CoreStart(plan)]);
        match first
        case Answered(payload) => (n, Send(payload))
        case CoreFailed(e) => (n.(session := AfterFailure(s, MapError(e))), Fails(MapError(e)))
  }

  /** Replies the interpreter refuses before the core sees them. */
  predicate Unusable(kind: Kind, policyId: Option<bytes>, reply: bytes) {
    ((kind == Trezor || kind == KeepKey) && !T.ExactFrame(reply))
    || (policyId.Some? && |reply| >= 2 && reply[|reply| - 2..] == [0x90, 0x00]
        && (|reply| != 66 || reply[..32] != policyId.value))
  }

  function ExchangeStep(m: Machine, reply: bytes, next: CoreAnswer<Option<bytes>>): (Machine, Result) {
    if m.session.None? || !m.session.value.started || m.session.value.finished then (m, Fails(BadState))
    else
      var s := m.session.value;
      if Unusable(m.kind, s.plan.policyId, reply) then (m.(session := AfterFailure(s, Device)), Fails(Device))
      else
        var n := m.(calls := m.calls + [CoreExchange(reply)]);
        match next
        case CoreFailed(e) => (n.(session := AfterFailure(s, MapError(e))), Fails(MapError(e)))
        case Answered(Some(payload)) => (n, Send(payload))
        case Answered(None) => (n.(session := Some(s.(finished := true))), Done)
  }

  /** What `end` makes of the last answer of the core. */
  function Conclude(kind: Kind, s: Session, last: CoreAnswer<Response>, installs: bool): Result {
    match last
    case CoreFailed(e) => Fails(MapError(e))
    case Answered(r) =>
      if kind == Coldcard && r.EncryptionKey? then (if installs then Returns(TaskDone) else Fails(Device))
      else if !Matches(s.plan.expected, r) then Fails(MapError(NoErrorOrResult))
      else if r.SignedPsbt? && !PsbtPasses(s.prior, r.psbt) then Fails(Device)
      else Returns(r)
  }

  predicate PsbtPasses(prior: Prior, psbt: Psbt) {
    prior.wtxid == Some(psbt.wtxid) && |psbt.inputs| == |prior.inputs|
    && InputsVerdict(prior.inputs, psbt.inputs) == Accepted
  }

  /** `end` consumes the session, whatever it reports. */
  function EndStep(m: Machine, last: CoreAnswer<Response>, installs: bool): (Machine, Result) {
    if m.session.None? then (m, Fails(BadState))
    else
      var s := m.session.value;
      if !s.finished then (m.(session := None), Fails(BadState))
      else (m.(session := None, calls := m.calls + [CoreEnd]), Conclude(m.kind, s, last, installs))
  }

  function Step(m: Machine, c: Call): (Machine, Result) {
    match c
    case Start(planned, first) => StartStep(m, planned, first)
    case Exchange(reply, next) => ExchangeStep(m, reply, next)
    case End(last, installs) => EndStep(m, last, installs)
  }

  // ---------------------------------------------------------------- the object

  /** A cell with a lease flag; `key` is the link key of a Coldcard engine. */
  class Leased {
    var leased: bool
    var key: Option<bytes>

    constructor ()
      ensures !leased && key == None
    {
      leased := false;
      key := None;
    }

    method Acquire() returns (ok: bool)
      modifies this`leased
      ensures ok <==> !old(leased)
      ensures leased
    {
      ok := !leased;
      leased := true;
    }

    method Release()
      modifies this`leased
      ensures !leased
    {
      leased := false;
    }

    /** `with`: reads the contents under a lease of its own, or not at all. */
    method Export() returns (contents: Option<Option<bytes>>)
      modifies this`leased
      ensures leased == old(leased) && key == old(key)
      ensures contents == if old(leased) then None else Some(key)
    {
      var ok := Acquire();
      if !ok {
        return None;
      }
      contents := Some(key);
      Release();
    }
  }

  class Interp {
    const kind: Kind
    const handle: Leased?
    var session: Option<Session>
    var calls: seq<CoreCall>

    function State(): Machine
      reads this
    {
      Machine(kind, session, calls)
    }

    /** The lease is out exactly as long as the session lives. */
    predicate Valid()
      reads this, handle
    {
      handle != null ==> (session.Some? ==> handle.leased)
    }

    /** `handle` is null for the interpreters that own their state; else its lease was just taken. */
    constructor (kind: Kind, handle: Leased?)
      requires handle != null ==> handle.leased
      ensures this.kind == kind && this.handle == handle && State() == NewMachine(kind) && Valid()
    {
      this.kind := kind;
      this.handle := handle;
      session := Some(BLANK);
      calls := [];
    }

    method DropSession()
      requires Valid() && session.Some?
      modifies this`session, handle
      ensures session == None && (handle != null ==> !handle.leased && handle.key == old(handle.key))
    {
      session := None;
      if handle != null {
        handle.Release();
      }
    }

    /** What `with_session` does when its body fails. */
    method Failed(error: HwiError)
      requires Valid() && session.Some?
      modifies this`session, handle
      ensures Valid() && session == AfterFailure(old(session).value, error)
      ensures handle != null ==> (handle.leased <==> session.Some?) && handle.key == old(handle.key)
    {
      if session.value.started && error != BadState {
        DropSession();
      }
    }

    method StartCommand(planned: Planned, first: CoreAnswer<bytes>) returns (r: Result)
      requires Valid()
      modifies this, handle
      ensures Valid() && (State(), r) == StartStep(old(State()), planned, first)
      ensures handle != null && old(session).Some? ==> (handle.leased <==> session.Some?)
      ensures handle != null && old(session).None? ==> handle.leased == old(handle.leased)
      ensures handle != null ==> handle.key == old(handle.key)
    {
      if session.None? {
        return Fails(BadState);
      }
      if session.value.started {
        Failed(BadState);
        return Fails(BadState);
      }
      if planned.Rejects? {
        Failed(planned.error);
        return Fails(planned.error);
      }
      session := Some(Session(true, session.value.finished, planned.plan, Captured(planned.plan)));
      calls := calls + [CoreStart(planned.plan)];
      if first.CoreFailed? {
        Failed(MapError(first.error));
        return Fails(MapError(first.error));
      }
      r := Send(first.value);
    }

    method ExchangeReply(reply: bytes, next: CoreAnswer<Option<bytes>>) returns (r: Result)
      requires Valid()
      modifies this, handle
      ensures Valid() && (State(), r) == ExchangeStep(old(State()), reply, next)
      ensures handle != null && old(session).Some? ==> (handle.leased <==> session.Some?)
      ensures handle != null && old(session).None? ==> handle.leased == old(handle.leased)
      ensures handle != null ==> handle.key == old(handle.key)
    {
      if session.None? {
        return Fails(BadState);
      }
      if !session.value.started || session.value.finished {
        Failed(BadState);
        return Fails(BadState);
      }
      if Unusable(kind, session.value.plan.policyId, reply) {
        Failed(Device);
        return Fails(Device);
      }
      calls := calls + [CoreExchange(reply)];
      match next {
        case CoreFailed(e) =>
          Failed(MapError(e));
          r := Fails(MapError(e));
        case Answered(Some(payload)) =>
          r := Send(payload);
        case Answered(None) =>
          session := Some(session.value.(finished := true));
          r := Done;
      }
    }

    /** The session is gone on every path, and with it the lease; a key goes in before that. */
    method Finish(last: CoreAnswer<Response>, installs: bool) returns (r: Result)
      requires Valid()
      modifies this, handle
      ensures Valid() && (State(), r) == EndStep(old(State()), last, installs)
      ensures handle != null && old(session).Some? ==> !handle.leased
      ensures handle != null && old(session).None? ==> handle.leased == old(handle.leased)
      ensures handle != null ==>
                handle.key == if old(session).Some? && old(session).value.finished && kind == Coldcard
                                 && last.Answered? && last.value.EncryptionKey? && installs
                              then Some(last.value.key) else old(handle.key)
    {
      if session.None? {
        return Fails(BadState);
      }
      var s := session.value;
      session := None;
      if !s.finished {
        ReleaseLease();
        return Fails(BadState);
      }
      calls := calls + [CoreEnd];
      if kind == Coldcard && last.Answered? && last.value.EncryptionKey? {
        if !installs {
          ReleaseLease();
          return Fails(Device);
        }
        if handle != null {
          handle.key := Some(last.value.key);
        }
        ReleaseLease();
        return Returns(TaskDone);
      }
      ReleaseLease();
      if last.CoreFailed? {
        return Fails(MapError(last.error));
      }
      if !Matches(s.plan.expected, last.value) {
        return Fails(MapError(NoErrorOrResult));
      }
      if last.value.SignedPsbt? {
        var v := CheckReturned(s.prior, last.value.psbt);
        if v != Accepted {
          return Fails(Device);
        }
      }
      r := Returns(last.value);
    }

    method ReleaseLease()
      modifies handle
      ensures handle != null ==> !handle.leased && handle.key == old(handle.key)
    {
      if handle != null {
        handle.Release();
      }
    }
  }

  /** The constructors that borrow a handle: refused while its lease is out. */
  method NewLeased(kind: Kind, handle: Leased) returns (i: Interp?)
    modifies handle`leased
    ensures i == null <==> old(handle.leased)
    ensures handle.leased
    ensures i != null ==> fresh(i) && i.Valid() && i.handle == handle && i.State() == NewMachine(kind)
  {
    var ok := handle.Acquire();
    if !ok {
      return null;
    }
    i := new Interp(kind, handle);
  }

  // ------------------------------------------------------------- the promises

  /** The machine behind any sequence of calls, and the results of the calls. */
  function Run(m: Machine, cs: seq<Call>): Machine
    decreases |cs|
  {
    if cs == [] then m else Run(Step(m, cs[0]).0, cs[1..])
  }

  function Results(m: Machine, cs: seq<Call>): (rs: seq<Result>)
    ensures |rs| == |cs|
    decreases |cs|
  {
    if cs == [] then [] else [Step(m, cs[0]).1] + Results(Step(m, cs[0]).0, cs[1..])
  }

  /** A start first and only there, an end last and only there, exchanges in between. */
  predicate Orderly(calls: seq<CoreCall>) {
    forall k :: 0 <= k < |calls| ==>
      (calls[k].CoreStart? <==> k == 0) && (calls[k].CoreEnd? ==> k == |calls| - 1)
  }

  predicate Inv(m: Machine) {
    Orderly(m.calls)
    && (m.session.Some? ==>
          var s := m.session.value;
          (forall k :: 0 <= k < |m.calls| ==> !m.calls[k].CoreEnd?)
          && (s.started <==> m.calls != [])
          && (s.finished ==> s.started)
          && (s.started ==> m.calls[0] == CoreStart(s.plan) && s.prior == Captured(s.plan)))
  }

  /** No core error is reported as misuse, so no runtime failure leaves a session behind. */
  lemma RuntimeFailuresRetire(m: Machine, c: Call)
    requires m.session.Some? && Step(m, c).1.Fails?
    ensures var (n, r) := Step(m, c);
            if c.End? then n.session == None
            else if r.error == BadState then n == m
            else if m.session.value.started || n.calls != m.calls then n.session == None
            else n == m
  {
  }

  lemma StepKeepsInv(m: Machine, c: Call)
    requires Inv(m)
    ensures Inv(Step(m, c).0)
    ensures m.calls <= Step(m, c).0.calls
  {
  }

  /** Over every sequence of calls and every device: what reaches the core is in order. */
  lemma {:induction false} CoreSeesOneCommand(m: Machine, cs: seq<Call>)
    requires Inv(m)
    ensures Inv(Run(m, cs)) && m.calls <= Run(m, cs).calls
    decreases |cs|
  {
    if cs != [] {
      StepKeepsInv(m, cs[0]);
      CoreSeesOneCommand(Step(m, cs[0]).0, cs[1..]);
    }
  }

  /** An interpreter without a session answers every further call with BadState, and touches nothing. */
  lemma {:induction false} RetiredStaysRetired(m: Machine, cs: seq<Call>)
    requires m.session == None
    ensures Run(m, cs) == m
    ensures forall k :: 0 <= k < |cs| ==> Results(m, cs)[k] == Fails(BadState)
    decreases |cs|
  {
    if cs != [] {
      RetiredStaysRetired(m, cs[1..]);
    }
  }

  /** A response comes only from an `end` behind an exchange that said the machine was done. */
  lemma {:induction false} ResponsesFollowDone(m: Machine, cs: seq<Call>, k: nat)
    requires k < |cs| && Results(m, cs)[k].Returns?
    ensures (m.session.Some? && m.session.value.finished)
         || exists j :: 0 <= j < k && Results(m, cs)[j] == Done
    decreases |cs|
  {
    var n := Step(m, cs[0]).0;
    if k > 0 {
      ResponsesFollowDone(n, cs[1..], k - 1);
      if exists j :: 0 <= j < k - 1 && Results(n, cs[1..])[j] == Done {
        var j :| 0 <= j < k - 1 && Results(n, cs[1..])[j] == Done;
        assert Results(m, cs)[j + 1] == Done;
      } else {
        assert Results(m, cs)[0] == Done || (m.session.Some? && m.session.value.finished);
      }
    }
  }

  /**
   The response returned is one the started command expects, except that a Coldcard key is
   installed and answered by TaskDone whatever the command was.
   */
  lemma ResponseIsExpected(m: Machine, last: CoreAnswer<Response>, installs: bool)
    requires Inv(m) && EndStep(m, last, installs).1.Returns?
    ensures last.Answered? && m.calls != [] && m.calls[0].CoreStart?
    ensures var r := EndStep(m, last, installs).1.response;
            if m.kind == Coldcard && last.value.EncryptionKey? then r == TaskDone
            else r == last.value && Matches(m.calls[0].plan.expected, r)
  {
  }

  /**
   Whatever calls were made and whatever the device answered: a signed PSBT comes back only
   from a command that asked to sign one, and the gate accepts it for the PSBT asked for.
   */
  lemma SignedPsbtIsAccepted(kind: Kind, cs: seq<Call>, last: CoreAnswer<Response>, installs: bool)
    requires var r := EndStep(Run(NewMachine(kind), cs), last, installs).1; r.Returns? && r.response.SignedPsbt?
    ensures var m := Run(NewMachine(kind), cs);
            m.calls != [] && m.calls[0].CoreStart? && m.calls[0].plan.asked.Some?
            && SessionAccepts(m.calls[0].plan.asked.value, EndStep(m, last, installs).1.response.psbt)
  {
    CoreSeesOneCommand(NewMachine(kind), cs);
    var m := Run(NewMachine(kind), cs);
    if m.calls[0].plan.asked.Some? {
      CopiesDecide(m.calls[0].plan.asked.value, EndStep(m, last, installs).1.response.psbt);
    }
  }

  /** One whole signing command: its interpreter, the calls up to `end`, and `end` itself. */
  datatype Signing = Signing(kind: Kind, calls: seq<Call>, last: CoreAnswer<Response>, installs: bool)

  /** The command was started with `asked` and returned `got`. */
  predicate Signed(s: Signing, asked: Psbt, got: Psbt) {
    var m := Run(NewMachine(s.kind), s.calls);
    m.calls != [] && m.calls[0].CoreStart? && m.calls[0].plan.asked == Some(asked)
    && EndStep(m, s.last, s.installs).1 == Returns(SignedPsbt(got))
  }

  /** Signing commands, each asked to sign what the one before returned, lose no signature. */
  lemma SigningKeepsSignatures(ps: seq<Psbt>, ss: seq<Signing>, i: nat, j: nat, n: nat, slot: Slot, sig: AnySig)
    requires |ps| == |ss| + 1 && i <= j < |ps| && n < |ps[i].inputs|
    requires forall k :: 0 <= k < |ss| ==> Signed(ss[k], ps[k], ps[k + 1])
    ensures ps[j].wtxid == ps[i].wtxid && n < |ps[j].inputs|
    ensures Holds(ps[i].inputs[n], slot, sig) ==> Holds(ps[j].inputs[n], slot, sig)
    ensures ps[i].inputs[n].finalScriptSig.Some? ==> ps[j].inputs[n].finalScriptSig == ps[i].inputs[n].finalScriptSig
    ensures ps[i].inputs[n].finalWitness.Some? ==> ps[j].inputs[n].finalWitness == ps[i].inputs[n].finalWitness
  {
    forall k | 0 <= k < |ps| - 1 ensures SessionAccepts(ps[k], ps[k + 1]) {
      assert Signed(ss[k], ps[k], ps[k + 1]);
      SignedPsbtIsAccepted(ss[k].kind, ss[k].calls, ss[k].last, ss[k].installs);
    }
    TransactionIsFixed(ps, i, j);
    FinalsAreFixed(ps, i, j, n);
    if Holds(ps[i].inputs[n], slot, sig) {
      NoSignatureIsLost(ps, i, j, n, slot, sig);
    }
  }

  /**
   Over every run that reaches its end: a Coldcard that ends it with a link key gets the
   command reported as done although a key is not what the command expects; with any other
   family the same answer is a failure.
   */
  lemma KeyAnswersAnything(kind: Kind, cs: seq<Call>, key: bytes)
    requires var m := Run(NewMachine(kind), cs); m.session.Some? && m.session.value.finished
    ensures var m := Run(NewMachine(kind), cs);
            m.calls != [] && m.calls[0].CoreStart?
            && (m.calls[0].plan.expected != Any ==>
                  !Matches(m.calls[0].plan.expected, EncryptionKey(key))
                  && EndStep(m, Answered(EncryptionKey(key)), true).1
                  == if kind == Coldcard then Returns(TaskDone) else Fails(Device))
  {
    CoreSeesOneCommand(NewMachine(kind), cs);
    KindStays(NewMachine(kind), cs);
  }

  lemma {:induction false} KindStays(m: Machine, cs: seq<Call>)
    ensures Run(m, cs).kind == m.kind
    decreases |cs|
  {
    if cs != [] {
      KindStays(Step(m, cs[0]).0, cs[1..]);
    }
  }

  // ---------------------------------------------- who says what, call by call

  /** The call reached the device protocol. */
  predicate Reached(m: Machine, c: Call) {
    Step(m, c).0.calls != m.calls
  }

  /** The payloads the caller was given, in order. */
  function Payloads(rs: seq<Result>): seq<bytes> {
    if rs == [] then [] else (if rs[0].Send? then [rs[0].payload] else []) + Payloads(rs[1..])
  }

  /** The payload the core gives in a call, if the call reaches it. */
  function Given(c: Call): seq<bytes> {
    match c
    case Start(_, Answered(payload)) => [payload]
    case Exchange(_, Answered(Some(payload))) => [payload]
    case _ => []
  }

  /** The payloads the core gave, in order. */
  function CorePayloads(m: Machine, cs: seq<Call>): seq<bytes>
    decreases |cs|
  {
    if cs == [] then [] else (if Reached(m, cs[0]) then Given(cs[0]) else []) + CorePayloads(Step(m, cs[0]).0, cs[1..])
  }

  /** The replies of the exchange calls that reached the core, in order. */
  function RepliesGiven(m: Machine, cs: seq<Call>): seq<bytes>
    decreases |cs|
  {
    if cs == [] then []
    else Handed(m, cs[0]) + RepliesGiven(Step(m, cs[0]).0, cs[1..])
  }

  /** The replies the core saw. */
  function RepliesSeen(calls: seq<CoreCall>): seq<bytes> {
    if calls == [] then []
    else
      var c := calls[|calls| - 1];
      RepliesSeen(calls[..|calls| - 1]) + if c.CoreExchange? then [c.reply] else []
  }

  lemma RepliesSeenGrow(calls: seq<CoreCall>, c: CoreCall)
    ensures RepliesSeen(calls + [c]) == RepliesSeen(calls) + if c.CoreExchange? then [c.reply] else []
  {
    assert (calls + [c])[..|calls|] == calls;
  }

  lemma CallGivesBack(m: Machine, c: Call)
    ensures Payloads([Step(m, c).1]) == if Reached(m, c) then Given(c) else []
  {
    PayloadsOfOne(Step(m, c).1);
  }

  lemma PayloadsOfOne(r: Result)
    ensures Payloads([r]) == if r.Send? then [r.payload] else []
  {
    assert [r][1..] == [];
  }

  lemma CallHandsOver(m: Machine, c: Call)
    ensures var n := Step(m, c).0;
            n.calls == m.calls
            || (|n.calls| == |m.calls| + 1 && n.calls[..|m.calls|] == m.calls
                && (if c.Exchange? then n.calls[|m.calls|] == CoreExchange(c.reply) else !n.calls[|m.calls|].CoreExchange?))
  {
  }

  lemma CallIsSeen(m: Machine, c: Call)
    ensures RepliesSeen(Step(m, c).0.calls) == RepliesSeen(m.calls) + Handed(m, c)
  {
    var n := Step(m, c).0;
    CallHandsOver(m, c);
    if n.calls != m.calls {
      assert n.calls == m.calls + [n.calls[|m.calls|]];
      RepliesSeenGrow(m.calls, n.calls[|m.calls|]);
    }
  }

  lemma {:induction false} PayloadsAreGiven(m: Machine, cs: seq<Call>)
    ensures Payloads(Results(m, cs)) == CorePayloads(m, cs)
    decreases |cs|
  {
    if cs != [] {
      CallGivesBack(m, cs[0]);
      PayloadsOfOne(Step(m, cs[0]).1);
      PayloadsAreGiven(Step(m, cs[0]).0, cs[1..]);
      assert Results(m, cs)[1..] == Results(Step(m, cs[0]).0, cs[1..]);
    }
  }

  /** The reply a call hands to the core. */
  function Handed(m: Machine, c: Call): seq<bytes> {
    if Reached(m, c) && c.Exchange? then [c.reply] else []
  }

  lemma {:induction false} RepliesAreSeen(m: Machine, cs: seq<Call>)
    ensures RepliesSeen(Run(m, cs).calls) == RepliesSeen(m.calls) + RepliesGiven(m, cs)
    decreases |cs|
  {
    if cs != [] {
      CallIsSeen(m, cs[0]);
      RepliesAreSeen(Step(m, cs[0]).0, cs[1..]);
      Associate(RepliesSeen(m.calls), Handed(m, cs[0]), RepliesGiven(Step(m, cs[0]).0, cs[1..]));
    }
  }

  /**
   Over every run: the payloads the caller is given are exactly those the core gave, in order,
   and the replies the core saw are exactly those of the exchange calls that reached it.
   */
  lemma PayloadsAreTheCores(kind: Kind, cs: seq<Call>)
    ensures Payloads(Results(NewMachine(kind), cs)) == CorePayloads(NewMachine(kind), cs)
    ensures RepliesSeen(Run(NewMachine(kind), cs).calls) == RepliesGiven(NewMachine(kind), cs)
  {
    PayloadsAreGiven(NewMachine(kind), cs);
    RepliesAreSeen(NewMachine(kind), cs);
  }

  /** A reply that is no Trezor frame: too short, not marked, or of another length than it says. */
  predicate NoFrame(reply: bytes) {
    |reply| < 8 || reply[0] != 0x23 || reply[1] != 0x23
    || (((reply[4] as int) * 0x100 + reply[5]) * 0x100 + reply[6]) * 0x100 + reply[7] != |reply| - 8
  }

  /** A success that does not answer the registration of this policy: not 66 bytes, or for another id. */
  predicate WrongRegistration(reply: bytes, id: bytes) {
    |reply| >= 2 && reply[|reply| - 2] == 0x90 && reply[|reply| - 1] == 0x00 && !(|reply| == 66 && reply[..32] == id)
  }

  /** Which calls reach the core, from the state the interpreter is in. */
  lemma ReachedIff(m: Machine, c: Call)
    ensures Reached(m, c)
       <==> m.session.Some? &&
            var s := m.session.value;
            match c
            case Start(planned, _) => !s.started && planned.Accepts?
            case Exchange(reply, _) =>
              s.started && !s.finished && !(m.kind in {Trezor, KeepKey} && NoFrame(reply))
              && !(s.plan.policyId.Some? && WrongRegistration(reply, s.plan.policyId.value))
            case End(_, _) => s.finished
  {
    if c.Exchange? && |c.reply| >= 8 {
      assert c.reply[..2] == [c.reply[0], c.reply[1]];
    }
    if c.Exchange? && |c.reply| >= 2 {
      assert c.reply[|c.reply| - 2..] == [c.reply[|c.reply| - 2], c.reply[|c.reply| - 1]];
    }
  }

  /** What a start or an exchange that reaches the core reports: the core's payload, the end, or its error. */
  lemma ReachedReports(m: Machine, c: Call)
    requires Reached(m, c) && !c.End?
    ensures match c
            case Start(_, Answered(payload)) => Step(m, c).1 == Send(payload)
            case Start(_, CoreFailed(e)) => Step(m, c).1 == Fails(MapError(e))
            case Exchange(_, Answered(Some(payload))) => Step(m, c).1 == Send(payload)
            case Exchange(_, Answered(None)) => Step(m, c).1 == Done
            case Exchange(_, CoreFailed(e)) => Step(m, c).1 == Fails(MapError(e))
  {
  }

  /** What a call that does not reach the core reports: misuse, the failed validation, or an unusable reply. */
  lemma UnreachedReports(m: Machine, c: Call)
    requires !Reached(m, c)
    ensures Step(m, c).1.Fails?
    ensures var e := Step(m, c).1.error;
            if m.session.None? then e == BadState
            else match c
              case Start(planned, _) => e == if m.session.value.started then BadState else planned.error
              case Exchange(_, _) => e == if m.session.value.started && !m.session.value.finished then Device else BadState
              case End(_, _) => e == BadState
  {
  }

  /** What an end that reaches the core and returns no response reports: the core's error, or a device failure. */
  lemma EndReports(m: Machine, last: CoreAnswer<Response>, installs: bool)
    requires Reached(m, End(last, installs)) && EndStep(m, last, installs).1.Fails?
    ensures EndStep(m, last, installs).1.error == if last.CoreFailed? then MapError(last.error) else Device
    ensures EndStep(m, last, installs).0.session == None
  {
  }

  /** How the core's errors are reported. */
  lemma ErrorsReported(e: CoreError)
    ensures MapError(e) == AuthRefused <==> e == AuthenticationRefused
    ensures MapError(e) == UserRefused <==> e == UserCancelled
    ensures MapError(e) == AlreadyUnlocked <==> e == DeviceAlreadyUnlocked
    ensures MapError(e) == InvalidInput <==> e == MissingCommandInfo || e == InvalidCommand
    ensures MapError(e) == Device
       <==> e in {DeviceError, UnexpectedResult, Rpc, Serialization, UnsupportedDisplayAddress, Encryption, Request,
                  NoErrorOrResult}
  {
  }

  /** The one expectation that asks for a response, if any does. */
  function AskedBy(r: Response): Option<Expect> {
    match r
    case Info => Some(ExpectInfo)
    case Fingerprint(_) => Some(ExpectFingerprint)
    case Xpub(_) => Some(ExpectXpub)
    case Address(_) => Some(ExpectAddress)
    case Signature(_) => Some(ExpectSignature)
    case SignedPsbt(_) => Some(ExpectSignedPsbt)
    case Registration(_) => Some(ExpectRegistration)
    case DeviceAction(_) => Some(ExpectDeviceAction)
    case TaskDone => None
    case EncryptionKey(_) => None
    case Other => None
  }

  lemma MatchesIff(e: Expect, r: Response)
    ensures Matches(e, r) <==> e == Any || AskedBy(r) == Some(e)
  {
  }

  /** The command was started, and the core has nothing more to send. */
  predicate Ready(m: Machine) {
    m.session.Some? && m.session.value.finished && m.calls != [] && m.calls[0].CoreStart?
  }

  /** The response is what the command expects, and a signed PSBT is faithful to the one it asked to sign. */
  predicate Suits(plan: Plan, r: Response) {
    (plan.expected == Any || AskedBy(r) == Some(plan.expected))
    && (r.SignedPsbt? ==> plan.asked.Some? && SessionAccepts(plan.asked.value, r.psbt))
  }

  /** A call that succeeds leaves a started session, finished exactly if it said there is nothing more to send. */
  lemma SuccessStates(m: Machine, c: Call)
    requires Step(m, c).1.Send? || Step(m, c).1.Done?
    ensures var (n, r) := Step(m, c);
            n.session.Some? && m.session.Some? &&
            var plan := if c.Start? then c.planned.plan else m.session.value.plan;
            var prior := if c.Start? then Captured(plan) else m.session.value.prior;
            n.session.value == Session(true, r.Done? || (c.Start? && m.session.value.finished), plan, prior)
  {
  }

  /**
   When `end` returns a response, over every run: the command is finished, and the core answered
   with it; it is what the started command expects, and a signed PSBT is faithful to the one
   the command asked to sign. The other way is the Coldcard key.
   */
  lemma ReturnsIff(kind: Kind, cs: seq<Call>, last: CoreAnswer<Response>, installs: bool, r: Response)
    ensures EndStep(Run(NewMachine(kind), cs), last, installs).1 == Returns(r)
       <==> last.Answered? && Ready(Run(NewMachine(kind), cs))
            && if kind == Coldcard && last.value.EncryptionKey? then installs && r == TaskDone
               else r == last.value && Suits(Run(NewMachine(kind), cs).calls[0].plan, r)
  {
    var m := Run(NewMachine(kind), cs);
    CoreSeesOneCommand(NewMachine(kind), cs);
    KindStays(NewMachine(kind), cs);
    if m.session.Some? && m.session.value.finished && last.Answered? {
      MatchesIff(m.session.value.plan.expected, last.value);
      if last.value.SignedPsbt? {
        GateDecides(m.session.value.plan, last.value.psbt);
      }
    }
  }

  lemma GateDecides(plan: Plan, psbt: Psbt)
    ensures PsbtPasses(Captured(plan), psbt) <==> plan.asked.Some? && SessionAccepts(plan.asked.value, psbt)
  {
    if plan.asked.Some? && plan.asked.value.wtxid == psbt.wtxid && |plan.asked.value.inputs| == |psbt.inputs| {
      CopiesDecide(plan.asked.value, psbt);
    }
  }
}
