/**
 The loop that drives one command: ask the interpreter for a payload, carry it to its
 recipient, feed the reply back, until the interpreter has nothing more to send.
 */
module Driving {
  import opened Bytes

  datatype Recipient = Device(encrypted: bool) | PinServer(url: string) | Host
  datatype Transmit = Transmit(recipient: Recipient, payload: bytes)

  /** What one call to `exchange` gave. */
  datatype Advance = Send(transmit: Transmit) | Quiet | Threw

  /** What the loop did and saw, in order. */
  datatype Event =
    | Asked(transmit: Transmit)                 // the interpreter wants this carried
    | LinkCall(payload: bytes, encrypted: bool)
    | HttpCall(url: string, payload: bytes)
    | Replied(reply: bytes)
    | Fed(reply: bytes)                         // the reply goes into `exchange`
    | Learned(code: string)                     // a pairing code becomes known inside `exchange`
    | Emptied                                   // `exchange` gave nothing more to send
    | Surfaced(code: string)                    // a pairing code reaches the caller
    | Ended                                     // `end` gave the response
    | Closed                                    // the interpreter is destroyed

  /** The events so far; the latest is outermost. */
  datatype Log = Start | Then(earlier: Log, event: Event)

  /**
   What the surroundings do in one turn of the loop. The three flags are the checks for
   cancellation; `reply` is nothing when the transport fails; `learned` is the pairing code the
   core puts into its slot while it exchanges; `sink` is false when the caller's handler throws.
   */
  datatype Turn = Turn(ready: bool, reply: Option<bytes>, received: bool, learned: Option<string>, next: Advance,
                       exchanged: bool, sink: bool)

  /** What the host was configured with. */
  datatype Setup = Setup(bridge: bool, pairing: bool)

  /** The one call that carries `t`, if the host can carry it at all. */
  function Carrying(t: Transmit, setup: Setup): Option<Event> {
    match t.recipient
    case Device(encrypted) => Some(LinkCall(t.payload, encrypted))
    case PinServer(url) => if setup.bridge then Some(HttpCall(url, t.payload)) else None
    case Host => None
  }

  /** The code slot once the core has exchanged; a poll empties it. */
  function Slot(u: Turn, slot: Option<string>): Option<string> {
    if u.learned.Some? then u.learned else slot
  }

  /** The turn reaches the point where the loop looks at what comes next. */
  predicate Passes(u: Turn, t: Transmit, slot: Option<string>, setup: Setup) {
    u.ready && Carrying(t, setup).Some? && u.reply.Some? && u.received && !u.next.Threw? && u.exchanged
    && (setup.pairing && Slot(u, slot).Some? ==> u.sink)
  }

  /** The log and the code slot after one turn. */
  function AfterTurn(log: Log, u: Turn, t: Transmit, slot: Option<string>, setup: Setup): (Log, Option<string>) {
    if !u.ready || Carrying(t, setup) == None then (log, slot)
    else
      var called := Then(log, Carrying(t, setup).value);
      if u.reply == None then (called, slot)
      else
        var replied := Then(called, Replied(u.reply.value));
        if !u.received then (replied, slot) else AfterExchange(Then(replied, Fed(u.reply.value)), u, slot, setup)
  }

  function AfterExchange(log: Log, u: Turn, slot: Option<string>, setup: Setup): (Log, Option<string>) {
    var known := if u.learned.Some? then Then(log, Learned(u.learned.value)) else log;
    if u.next.Threw? then (known, Slot(u, slot))
    else
      var told := Then(known, if u.next.Send? then Asked(u.next.transmit) else Emptied);
      if u.exchanged && setup.pairing && Slot(u, slot).Some? then (Then(told, Surfaced(Slot(u, slot).value)), None)
      else (told, Slot(u, slot))
  }

  datatype Outcome = Outcome(log: Log, ok: bool)

  /** Everything from the moment `t` is due, and whether a response comes out. */
  function Onward(log: Log, us: seq<Turn>, t: Transmit, slot: Option<string>, ends: bool, setup: Setup): Outcome
    decreases us
  {
    if us == [] then Outcome(log, false)
    else
      var (now, left) := AfterTurn(log, us[0], t, slot, setup);
      if !Passes(us[0], t, slot, setup) then Outcome(now, false)
      else if us[0].next.Send? then Onward(now, us[1..], us[0].next.transmit, left, ends, setup)
      else Outcome(if ends then Then(now, Ended) else now, ends)
  }

  /**
   A whole command: `first` is what `start` gave, `slot` the pairing code the core has at that
   point. The interpreter is destroyed on every path.
   */
  function Command(first: Option<Transmit>, us: seq<Turn>, slot: Option<string>, ends: bool, setup: Setup): Outcome {
    if first == None then Outcome(Then(Start, Closed), false)
    else
      var o := Onward(Then(Start, Asked(first.value)), us, first.value, slot, ends, setup);
      Outcome(Then(o.log, Closed), o.ok)
  }

  method RunCommand(first: Option<Transmit>, us: seq<Turn>, slot: Option<string>, ends: bool, setup: Setup)
    returns (log: Log, ok: bool)
    ensures Outcome(log, ok) == Command(first, us, slot, ends, setup)
  {
    log, ok := Start, false;
    if first.Some? {
      var transmit, code, running, k := first.value, slot, true, 0;
      log := Then(log, Asked(transmit));
      while running && k < |us|
        invariant 0 <= k <= |us| && (running ==> !ok)
        invariant Onward(Then(Start, Asked(first.value)), us, first.value, slot, ends, setup)
               == if running then Onward(log, us[k..], transmit, code, ends, setup) else Outcome(log, ok)
        decreases |us| - k
      {
        assert us[k..][0] == us[k] && us[k..][1..] == us[k + 1..];
        var passed: bool;
        log, code, passed := TakeTurn(log, us[k], transmit, code, setup);
        running := passed && us[k].next.Send?;
        if running {
          transmit := us[k].next.transmit;
        } else if passed && ends {
          log, ok := Then(log, Ended), true;
        }
        k := k + 1;
      }
    }
    log := Then(log, Closed);
  }

  /** The body of the loop, up to the point where it looks at what comes next. */
  method TakeTurn(before: Log, u: Turn, transmit: Transmit, slot: Option<string>, setup: Setup)
    returns (log: Log, left: Option<string>, passed: bool)
    ensures (log, left) == AfterTurn(before, u, transmit, slot, setup) && passed == Passes(u, transmit, slot, setup)
  {
    log, left, passed := before, slot, false;
    if !u.ready || Carrying(transmit, setup) == None {
      return;
    }
    log := Then(log, Carrying(transmit, setup).value);
    if u.reply == None {
      return;
    }
    log := Then(log, Replied(u.reply.value));
    if !u.received {
      return;
    }
    log := Then(log, Fed(u.reply.value));
    if u.learned.Some? {
      log, left := Then(log, Learned(u.learned.value)), u.learned;
    }
    if u.next.Threw? {
      return;
    }
    log := Then(log, if u.next.Send? then Asked(u.next.transmit) else Emptied);
    if !u.exchanged {
      return;
    }
    passed := true;
    if setup.pairing && left.Some? {
      log, left, passed := Then(log, Surfaced(left.value)), None, u.sink;
    }
  }

  // --------------------------------------------------------- what a trace promises

  /** Where an observer of the events stands; `slot` is the code the core holds, `owed` that it must be surfaced now. */
  datatype Stage =
    | Before(slot: Option<string>)                               // nothing has happened
    | Due(t: Transmit, slot: Option<string>, owed: bool)         // `t` is to be carried
    | Waiting(slot: Option<string>)                              // for the recipient's reply
    | Holding(reply: bytes, slot: Option<string>)                // to be fed into `exchange`
    | Handed(slot: Option<string>)                               // `exchange` has not answered yet
    | Told(slot: Option<string>)                                 // nor has it, but a code is known
    | NothingLeft(slot: Option<string>, owed: bool)
    | Answered
    | Gone
    | Broken

  /**
   The order the driving loop must respect: each call carries the payload that is due, each
   reply is fed back before anything else, and a code the core holds when it answers is
   surfaced before the next call or the end, if the host has a place for it. The interpreter
   may be destroyed at any point, once.
   */
  function Observe(q: Stage, e: Event, setup: Setup): Stage {
    if e.Closed? then (if q.Gone? || q.Broken? then Broken else Gone)
    else match q
      case Before(slot) => if e.Asked? then Due(e.transmit, slot, false) else Broken
      case Due(t, slot, owed) =>
        if owed then (if slot.Some? && e == Surfaced(slot.value) then Due(t, None, false) else Broken)
        else if Some(e) == Carrying(t, setup) then Waiting(slot) else Broken
      case Waiting(slot) => if e.Replied? then Holding(e.reply, slot) else Broken
      case Holding(reply, slot) => if e == Fed(reply) then Handed(slot) else Broken
      case Handed(slot) => if e.Learned? then Told(Some(e.code)) else Heard(slot, e, setup)
      case Told(slot) => Heard(slot, e, setup)
      case NothingLeft(slot, owed) =>
        if owed then (if slot.Some? && e == Surfaced(slot.value) then NothingLeft(None, false) else Broken)
        else if e.Ended? then Answered else Broken
      case _ => Broken
  }

  /** `exchange` answers. */
  function Heard(slot: Option<string>, e: Event, setup: Setup): Stage {
    if e.Asked? then Due(e.transmit, slot, setup.pairing && slot.Some?)
    else if e.Emptied? then NothingLeft(slot, setup.pairing && slot.Some?)
    else Broken
  }

  /** The stage after a whole log that begins with the core holding `slot`. */
  function Observed(log: Log, slot: Option<string>, setup: Setup): Stage {
    match log
    case Start => Before(slot)
    case Then(earlier, e) => Observe(Observed(earlier, slot, setup), e, setup)
  }

  function Calls(log: Log): seq<Event> {
    match log
    case Start => []
    case Then(earlier, e) => Calls(earlier) + if e.LinkCall? || e.HttpCall? then [e] else []
  }

  function Replies(log: Log): seq<bytes> {
    match log
    case Start => []
    case Then(earlier, e) => Replies(earlier) + if e.Replied? then [e.reply] else []
  }

  function Feeds(log: Log): seq<bytes> {
    match log
    case Start => []
    case Then(earlier, e) => Feeds(earlier) + if e.Fed? then [e.reply] else []
  }

  /** The codes that became known, and those the caller was given. */
  function Codes(log: Log): seq<string> {
    match log
    case Start => []
    case Then(earlier, e) => Codes(earlier) + if e.Learned? then [e.code] else []
  }

  function CodesSurfaced(log: Log): seq<string> {
    match log
    case Start => []
    case Then(earlier, e) => CodesSurfaced(earlier) + if e.Surfaced? then [e.code] else []
  }

  /** The payloads the interpreter asked for, and the calls that carry them; the host's have none. */
  function Wants(log: Log): seq<Transmit> {
    match log
    case Start => []
    case Then(earlier, e) => Wants(earlier) + if e.Asked? then [e.transmit] else []
  }

  function CallsWanted(log: Log, setup: Setup): seq<Event> {
    match log
    case Start => []
    case Then(earlier, e) => CallsWanted(earlier, setup) + if e.Asked? then CallFor(e.transmit, setup) else []
  }

  function CallFor(t: Transmit, setup: Setup): seq<Event> {
    match Carrying(t, setup)
    case Some(call) => [call]
    case None => []
  }

  /** What is still owed at a stage: the call for a payload that is due, a reply not yet fed. */
  function OwedCall(q: Stage, setup: Setup): seq<Event> {
    if q.Due? then CallFor(q.t, setup) else []
  }

  function OwedFeed(q: Stage): seq<bytes> {
    if q.Holding? then [q.reply] else []
  }

  /** What the code slot holds behind a log that began with `slot`. */
  function InSlot(log: Log, slot: Option<string>): Option<string> {
    match log
    case Start => slot
    case Then(earlier, Learned(code)) => Some(code)
    case Then(earlier, Surfaced(_)) => None
    case Then(earlier, _) => InSlot(earlier, slot)
  }

  function AsSeq(slot: Option<string>): seq<string> {
    if slot.Some? then [slot.value] else []
  }

  /** The codes the slot held in turn; one that is learned over another replaces it. */
  function Held(log: Log, slot: Option<string>): seq<string> {
    match log
    case Start => AsSeq(slot)
    case Then(earlier, Learned(code)) =>
      var before := Held(earlier, slot);
      (if InSlot(earlier, slot).Some? && before != [] then before[..|before| - 1] else before) + [code]
    case Then(earlier, _) => Held(earlier, slot)
  }

  /** The stage knows the slot. */
  predicate SlotIs(q: Stage, code: Option<string>) {
    match q
    case Due(_, slot, owed) => slot == code
    case NothingLeft(slot, _) => slot == code
    case Before(slot) => slot == code
    case Waiting(slot) => slot == code
    case Holding(_, slot) => slot == code
    case Handed(slot) => slot == code
    case Told(slot) => slot == code
    case _ => true
  }

  predicate Orderly(q: Stage) {
    !q.Broken? && !q.Gone?
  }

  /**
   Nothing is dropped, repeated or reordered while the order is respected: the calls made are
   those for the payloads asked for, less the one still owed, and likewise for the replies fed.
   */
  lemma {:induction false} Balance(log: Log, slot: Option<string>, setup: Setup)
    requires Orderly(Observed(log, slot, setup))
    ensures var q := Observed(log, slot, setup);
            CallsWanted(log, setup) == Calls(log) + OwedCall(q, setup)
            && Replies(log) == Feeds(log) + OwedFeed(q)
            && |Wants(log)| == |Replies(log)| + if q.Due? || q.Waiting? then 1 else 0
  {
    if log.Then? {
      Balance(log.earlier, slot, setup);
    }
  }

  /** Likewise for pairing codes: those held in turn are those surfaced and the one still held. */
  lemma {:induction false} CodesBalance(log: Log, slot: Option<string>, setup: Setup)
    requires Orderly(Observed(log, slot, setup))
    ensures SlotIs(Observed(log, slot, setup), InSlot(log, slot))
    ensures Held(log, slot) == CodesSurfaced(log) + AsSeq(InSlot(log, slot))
  {
    if log.Then? {
      CodesBalance(log.earlier, slot, setup);
    }
  }

  // ------------------------------------------------------------ the driving loop

  lemma TurnIsOrderly(log: Log, u: Turn, t: Transmit, now: Option<string>, slot: Option<string>, setup: Setup)
    requires Observed(log, slot, setup) == Due(t, now, false)
    ensures var (n, left) := AfterTurn(log, u, t, now, setup);
            var q := Observed(n, slot, setup);
            Orderly(q) && !q.Answered?
            && (Passes(u, t, now, setup) ==>
                  q == if u.next.Send? then Due(u.next.transmit, left, false) else NothingLeft(left, false))
  {
    if u.ready && Carrying(t, setup).Some? && u.reply.Some? {
      var replied := Then(Then(log, Carrying(t, setup).value), Replied(u.reply.value));
      assert Observed(replied, slot, setup) == Holding(u.reply.value, now);
      if u.received {
        var fed := Then(replied, Fed(u.reply.value));
        assert Observed(fed, slot, setup) == Handed(now);
        ExchangeIsOrderly(fed, u, now, slot, setup);
      }
    }
  }

  lemma ExchangeIsOrderly(fed: Log, u: Turn, now: Option<string>, slot: Option<string>, setup: Setup)
    requires Observed(fed, slot, setup) == Handed(now)
    ensures var (n, left) := AfterExchange(fed, u, now, setup);
            var q := Observed(n, slot, setup);
            Orderly(q) && !q.Answered?
            && (!u.next.Threw? && u.exchanged ==>
                  q == if u.next.Send? then Due(u.next.transmit, left, false) else NothingLeft(left, false))
  {
    var known := if u.learned.Some? then Then(fed, Learned(u.learned.value)) else fed;
    assert Observed(known, slot, setup) == if u.learned.Some? then Told(u.learned) else Handed(now);
  }

  lemma {:induction false} OnwardIsOrderly(log: Log, us: seq<Turn>, t: Transmit, now: Option<string>, ends: bool,
                                           slot: Option<string>, setup: Setup)
    requires Observed(log, slot, setup) == Due(t, now, false)
    ensures var o := Onward(log, us, t, now, ends, setup);
            Orderly(Observed(o.log, slot, setup)) && (o.ok <==> Observed(o.log, slot, setup).Answered?)
    decreases us
  {
    if us != [] {
      TurnIsOrderly(log, us[0], t, now, slot, setup);
      if Passes(us[0], t, now, setup) && us[0].next.Send? {
        var (n, left) := AfterTurn(log, us[0], t, now, setup);
        OnwardIsOrderly(n, us[1..], us[0].next.transmit, left, ends, slot, setup);
      }
    }
  }

  /**
   Whatever the interpreter, the transports, the caller's handler and cancellation do: the
   events of a command come in the order above, the interpreter is destroyed exactly once and
   last, and a response means that every payload asked for was carried to its recipient, in
   order, and every reply was fed back.
   */
  lemma CommandIsFaithful(first: Option<Transmit>, us: seq<Turn>, slot: Option<string>, ends: bool, setup: Setup)
    ensures var o := Command(first, us, slot, ends, setup);
            Observed(o.log, slot, setup) == Gone
            && Calls(o.log) <= CallsWanted(o.log, setup)
            && |CallsWanted(o.log, setup)| <= |Calls(o.log)| + 1
            && Feeds(o.log) <= Replies(o.log) && |Replies(o.log)| <= |Feeds(o.log)| + 1
            && (o.ok ==> Calls(o.log) == CallsWanted(o.log, setup) && Feeds(o.log) == Replies(o.log)
                         && |Wants(o.log)| == |Feeds(o.log)|)
  {
    if first.Some? {
      var asked := Then(Start, Asked(first.value));
      OnwardIsOrderly(asked, us, first.value, slot, ends, slot, setup);
      Balance(Onward(asked, us, first.value, slot, ends, setup).log, slot, setup);
    }
  }

  /**
   Whatever the slot held when the command began: the codes it held in turn are those the
   caller was given, in order, and the one it still holds. None is left if pairing is
   configured and a response comes out. That each is given before the next payload goes out
   is part of the order above.
   */
  lemma EveryCodeIsSurfaced(first: Option<Transmit>, us: seq<Turn>, slot: Option<string>, ends: bool, setup: Setup)
    ensures var o := Command(first, us, slot, ends, setup);
            Held(o.log, slot) == CodesSurfaced(o.log) + AsSeq(InSlot(o.log, slot))
            && (o.ok && setup.pairing ==> InSlot(o.log, slot) == None)
  {
    if first.Some? {
      var asked := Then(Start, Asked(first.value));
      OnwardIsOrderly(asked, us, first.value, slot, ends, slot, setup);
      var o := Onward(asked, us, first.value, slot, ends, setup);
      CodesBalance(o.log, slot, setup);
      SlotIsLeft(asked, us, first.value, slot, ends, slot, setup);
      Unmoved(o.log, Closed, slot);
    } else {
      Unmoved(Start, Closed, slot);
    }
  }

  /** The loop's own slot is the one the log tells. */
  lemma {:induction false} SlotIsLeft(log: Log, us: seq<Turn>, t: Transmit, now: Option<string>, ends: bool,
                                      slot: Option<string>, setup: Setup)
    requires InSlot(log, slot) == now
    ensures var o := Onward(log, us, t, now, ends, setup);
            o.ok && setup.pairing ==> InSlot(o.log, slot) == None
    decreases us
  {
    if us != [] {
      var (n, left) := AfterTurn(log, us[0], t, now, setup);
      TurnLeaves(log, us[0], t, now, slot, setup);
      if Passes(us[0], t, now, setup) && us[0].next.Send? {
        SlotIsLeft(n, us[1..], us[0].next.transmit, left, ends, slot, setup);
      }
    }
  }

  lemma TurnLeaves(log: Log, u: Turn, t: Transmit, now: Option<string>, slot: Option<string>, setup: Setup)
    requires InSlot(log, slot) == now
    ensures var (n, left) := AfterTurn(log, u, t, now, setup);
            InSlot(n, slot) == left && (Passes(u, t, now, setup) && setup.pairing ==> left == None)
  {
    if u.ready && Carrying(t, setup).Some? {
      var call := Carrying(t, setup).value;
      Unmoved(log, call, slot);
      if u.reply.Some? {
        Unmoved(Then(log, call), Replied(u.reply.value), slot);
        if u.received {
          CarryingMovesNoCode(log, call, u.reply.value, slot);
          ExchangeLeaves(Then(Then(Then(log, call), Replied(u.reply.value)), Fed(u.reply.value)), u, now, slot, setup);
        }
      }
    }
  }

  /** The log behind what an exchange learns and answers. */
  function AnswerLog(fed: Log, u: Turn): Log
    requires !u.next.Threw?
  {
    Then(if u.learned.Some? then Then(fed, Learned(u.learned.value)) else fed,
         if u.next.Send? then Asked(u.next.transmit) else Emptied)
  }

  lemma AnswerMoves(fed: Log, u: Turn, now: Option<string>, slot: Option<string>)
    requires InSlot(fed, slot) == now && !u.next.Threw?
    ensures var told := AnswerLog(fed, u);
            InSlot(told, slot) == Slot(u, now) && Codes(told) == Codes(fed) + AsSeq(u.learned)
            && Held(told, slot) == WithCode(Held(fed, slot), now.Some?, u.learned)
  {
    var known := if u.learned.Some? then Then(fed, Learned(u.learned.value)) else fed;
    assert Codes(known) == Codes(fed) + AsSeq(u.learned);
    Unmoved(known, if u.next.Send? then Asked(u.next.transmit) else Emptied, slot);
  }

  lemma ExchangeLeaves(fed: Log, u: Turn, now: Option<string>, slot: Option<string>, setup: Setup)
    requires InSlot(fed, slot) == now
    ensures var (n, left) := AfterExchange(fed, u, now, setup);
            InSlot(n, slot) == left && (!u.next.Threw? && u.exchanged && setup.pairing ==> left == None)
  {
    if !u.next.Threw? {
      AnswerMoves(fed, u, now, slot);
    }
  }

  /** From an empty slot on, exactly the codes that become known are held. */
  lemma {:induction false} HeldFromEmpty(log: Log, us: seq<Turn>, t: Transmit, ends: bool, slot: Option<string>, setup: Setup)
    requires setup.pairing && InSlot(log, slot) == None && Onward(log, us, t, None, ends, setup).ok
    ensures var o := Onward(log, us, t, None, ends, setup);
            |Held(o.log, slot)| - |Codes(o.log)| == |Held(log, slot)| - |Codes(log)|
            && (Held(log, slot) == Codes(log) ==> Held(o.log, slot) == Codes(o.log))
    decreases us
  {
    var (n, left) := AfterTurn(log, us[0], t, None, setup);
    TurnLeaves(log, us[0], t, None, slot, setup);
    TurnHolds(log, us[0], t, None, slot, setup);
    if us[0].next.Send? {
      HeldFromEmpty(n, us[1..], us[0].next.transmit, ends, slot, setup);
    }
  }

  lemma Unmoved(log: Log, e: Event, slot: Option<string>)
    requires !e.Learned? && !e.Surfaced?
    ensures InSlot(Then(log, e), slot) == InSlot(log, slot) && Held(Then(log, e), slot) == Held(log, slot)
    ensures Codes(Then(log, e)) == Codes(log) && CodesSurfaced(Then(log, e)) == CodesSurfaced(log)
  {
  }

  /** Carrying a payload and feeding its reply back moves no code. */
  lemma CarryingMovesNoCode(log: Log, call: Event, reply: bytes, slot: Option<string>)
    requires call.LinkCall? || call.HttpCall?
    ensures var fed := Then(Then(Then(log, call), Replied(reply)), Fed(reply));
            InSlot(fed, slot) == InSlot(log, slot) && Held(fed, slot) == Held(log, slot)
            && Codes(fed) == Codes(log) && CodesSurfaced(fed) == CodesSurfaced(log)
  {
    Unmoved(log, call, slot);
    Unmoved(Then(log, call), Replied(reply), slot);
    Unmoved(Then(Then(log, call), Replied(reply)), Fed(reply), slot);
  }

  /** The codes held once another one is learned. */
  function WithCode(held: seq<string>, full: bool, learned: Option<string>): seq<string> {
    if learned == None then held
    else (if full && held != [] then held[..|held| - 1] else held) + [learned.value]
  }

  /** A turn that passes adds the code it learns to those held, in place of one that is still there. */
  lemma TurnHolds(log: Log, u: Turn, t: Transmit, now: Option<string>, slot: Option<string>, setup: Setup)
    requires InSlot(log, slot) == now && Passes(u, t, now, setup)
    ensures var n := AfterTurn(log, u, t, now, setup).0;
            Codes(n) == Codes(log) + AsSeq(u.learned) && Held(n, slot) == WithCode(Held(log, slot), now.Some?, u.learned)
  {
    var call := Carrying(t, setup).value;
    CarryingMovesNoCode(log, call, u.reply.value, slot);
    ExchangeHolds(Then(Then(Then(log, call), Replied(u.reply.value)), Fed(u.reply.value)), u, now, slot, setup);
  }

  lemma ExchangeHolds(fed: Log, u: Turn, now: Option<string>, slot: Option<string>, setup: Setup)
    requires InSlot(fed, slot) == now && !u.next.Threw?
    ensures var n := AfterExchange(fed, u, now, setup).0;
            Codes(n) == Codes(fed) + AsSeq(u.learned) && Held(n, slot) == WithCode(Held(fed, slot), now.Some?, u.learned)
  {
    AnswerMoves(fed, u, now, slot);
  }

  /**
   A command that gives a response surfaces exactly the codes that became known during it if
   and only if the slot was empty when it began or its first exchange put a new code there.
   */
  lemma LearnedCodesIff(first: Option<Transmit>, us: seq<Turn>, slot: Option<string>, ends: bool, setup: Setup)
    requires setup.pairing && Command(first, us, slot, ends, setup).ok
    ensures us != []
    ensures var o := Command(first, us, slot, ends, setup);
            CodesSurfaced(o.log) == Codes(o.log) <==> slot == None || us[0].learned.Some?
  {
    var asked, t, u := Then(Start, Asked(first.value)), first.value, us[0];
    var (n, left) := AfterTurn(asked, u, t, slot, setup);
    EveryCodeIsSurfaced(first, us, slot, ends, setup);
    TurnLeaves(asked, u, t, slot, slot, setup);
    FirstTurnHolds(asked, u, t, slot, setup);
    if u.next.Send? {
      HeldFromEmpty(n, us[1..], u.next.transmit, ends, slot, setup);
    }
  }

  lemma FirstTurnHolds(asked: Log, u: Turn, t: Transmit, slot: Option<string>, setup: Setup)
    requires asked == Then(Start, Asked(t)) && Passes(u, t, slot, setup)
    ensures var n := AfterTurn(asked, u, t, slot, setup).0;
            Codes(n) == AsSeq(u.learned) && Held(n, slot) == if u.learned.Some? then [u.learned.value] else AsSeq(slot)
  {
    Unmoved(Start, Asked(t), slot);
    TurnHolds(asked, u, t, slot, slot, setup);
  }

  /** Cancelled between the exchange and the poll, a command leaves the code in the slot it shares with the next one. */
  lemma CancelledCodeStays(t: Transmit, u: Turn, slot: Option<string>, ends: bool, setup: Setup, rest: seq<Turn>)
    requires u.ready && Carrying(t, setup).Some? && u.reply.Some? && u.received && u.learned.Some? && !u.exchanged
    ensures var o := Command(Some(t), [u] + rest, slot, ends, setup);
            !o.ok && InSlot(o.log, slot) == u.learned && CodesSurfaced(o.log) == []
  {
    var asked := Then(Start, Asked(t));
    Unmoved(Start, Asked(t), slot);
    CarryingMovesNoCode(asked, Carrying(t, setup).value, u.reply.value, slot);
    TurnLeaves(asked, u, t, slot, slot, setup);
    assert ([u] + rest)[0] == u;
    CancelledTurnIsSilent(asked, u, t, slot, setup);
  }

  lemma CancelledTurnIsSilent(log: Log, u: Turn, t: Transmit, slot: Option<string>, setup: Setup)
    requires u.ready && Carrying(t, setup).Some? && u.reply.Some? && u.received && u.learned.Some? && !u.exchanged
    ensures CodesSurfaced(AfterTurn(log, u, t, slot, setup).0) == CodesSurfaced(log)
  {
    CarryingMovesNoCode(log, Carrying(t, setup).value, u.reply.value, slot);
    var fed := Then(Then(Then(log, Carrying(t, setup).value), Replied(u.reply.value)), Fed(u.reply.value));
    assert CodesSurfaced(Then(fed, Learned(u.learned.value))) == CodesSurfaced(fed);
  }

  /** The next command then hands its caller a code of the command before, although none became known. */
  lemma OldCodeIsSurfaced(payload: bytes, reply: bytes, stale: string)
    ensures var t, u := Transmit(Device(false), payload), Turn(true, Some(reply), true, None, Quiet, true, true);
            var o := Command(Some(t), [u], Some(stale), true, Setup(false, true));
            o.ok && CodesSurfaced(o.log) == [stale] && Codes(o.log) == []
  {
    var t, u := Transmit(Device(false), payload), Turn(true, Some(reply), true, None, Quiet, true, true);
    EveryCodeIsSurfaced(Some(t), [u], Some(stale), true, Setup(false, true));
    FirstTurnHolds(Then(Start, Asked(t)), u, t, Some(stale), Setup(false, true));
  }

  // ------------------------------------------------------- who gets what, and when

  /** The call takes the payload to its recipient: to the device with its flag, or to the PIN server if there is a bridge. */
  predicate Serves(call: Event, t: Transmit, bridge: bool) {
    match t.recipient
    case Device(encrypted) => call == LinkCall(t.payload, encrypted)
    case PinServer(url) => bridge && call == HttpCall(url, t.payload)
    case Host => false
  }

  /** The host can take the payload anywhere. */
  predicate Servable(t: Transmit, bridge: bool) {
    t.recipient.Device? || (t.recipient.PinServer? && bridge)
  }

  /** Call by call, the payloads went to their recipients. */
  predicate Served(calls: seq<Event>, wants: seq<Transmit>, bridge: bool) {
    |calls| <= |wants| && forall k :: 0 <= k < |calls| ==> Serves(calls[k], wants[k], bridge)
  }

  lemma OneCallMore(calls: seq<Event>, wants: seq<Transmit>, call: Event, bridge: bool)
    requires Served(calls, wants, bridge) && |calls| < |wants| && Serves(call, wants[|calls|], bridge)
    ensures Served(calls + [call], wants, bridge)
  {
  }

  lemma OneWantMore(calls: seq<Event>, wants: seq<Transmit>, t: Transmit, bridge: bool)
    requires Served(calls, wants, bridge)
    ensures Served(calls, wants + [t], bridge)
  {
  }

  /** Where a log stands: all payloads served, but for the one that is due. */
  predicate InStep(log: Log, q: Stage, bridge: bool) {
    var calls, wants := Calls(log), Wants(log);
    Served(calls, wants, bridge)
    && if q.Due? then |wants| == |calls| + 1 && wants[|calls|] == q.t else |wants| == |calls|
  }

  lemma {:induction false} CallsServe(log: Log, slot: Option<string>, setup: Setup)
    requires Orderly(Observed(log, slot, setup))
    ensures InStep(log, Observed(log, slot, setup), setup.bridge)
    decreases log
  {
    if log.Then? {
      CallsServe(log.earlier, slot, setup);
      EventKeepsStep(log.earlier, log.event, Observed(log.earlier, slot, setup), setup);
    }
  }

  lemma EventKeepsStep(log: Log, e: Event, q: Stage, setup: Setup)
    requires InStep(log, q, setup.bridge) && Orderly(q) && Orderly(Observe(q, e, setup))
    ensures InStep(Then(log, e), Observe(q, e, setup), setup.bridge)
  {
    if e.Asked? {
      OneWantMore(Calls(log), Wants(log), e.transmit, setup.bridge);
    } else if e.LinkCall? || e.HttpCall? {
      OneCallMore(Calls(log), Wants(log), e, setup.bridge);
    }
  }

  /**
   In every command, call number k takes payload number k to its recipient, and nothing else
   is called. At most the last payload asked for is not carried: never the host's, and never
   one for the PIN server without a bridge. None is missing when a response comes out.
   */
  lemma EachPayloadGoesToItsRecipient(first: Option<Transmit>, us: seq<Turn>, slot: Option<string>, ends: bool, setup: Setup)
    ensures var o := Command(first, us, slot, ends, setup);
            |Calls(o.log)| <= |Wants(o.log)| <= |Calls(o.log)| + 1
            && (forall k :: 0 <= k < |Calls(o.log)| ==> Serves(Calls(o.log)[k], Wants(o.log)[k], setup.bridge))
            && (o.ok ==> |Calls(o.log)| == |Wants(o.log)|)
  {
    if first.Some? {
      var asked := Then(Start, Asked(first.value));
      OnwardIsOrderly(asked, us, first.value, slot, ends, slot, setup);
      CallsServe(Onward(asked, us, first.value, slot, ends, setup).log, slot, setup);
    }
  }

  /** A payload that can go nowhere is the last one asked for, makes no call, and no response comes out. */
  lemma UnservableEndsTheCommand(first: Option<Transmit>, us: seq<Turn>, slot: Option<string>, ends: bool, setup: Setup,
                                 k: nat)
    requires var o := Command(first, us, slot, ends, setup);
             k < |Wants(o.log)| && !Servable(Wants(o.log)[k], setup.bridge)
    ensures var o := Command(first, us, slot, ends, setup);
            !o.ok && k == |Wants(o.log)| - 1 == |Calls(o.log)|
  {
    EachPayloadGoesToItsRecipient(first, us, slot, ends, setup);
  }

  /** The payload that is due in turn `k`. */
  function DueIn(first: Transmit, us: seq<Turn>, k: nat): Transmit
    requires k <= |us| && forall j :: 0 <= j < k ==> us[j].next.Send?
  {
    if k == 0 then first else us[k - 1].next.transmit
  }

  /** Turn `u` goes well with `t` due, `left` being true if a code of an earlier command may still be in the slot. */
  predicate GoesWell(u: Turn, t: Transmit, left: bool, setup: Setup) {
    u.ready && Servable(t, setup.bridge) && u.reply.Some? && u.received && !u.next.Threw? && u.exchanged
    && (setup.pairing && (u.learned.Some? || left) ==> u.sink)
  }

  /** The turns up to `n` go well, all but the last of them give another payload, and the last gives none. */
  predicate GoesThrough(first: Transmit, us: seq<Turn>, left: bool, setup: Setup, n: nat) {
    n < |us| && (forall k :: 0 <= k < n ==> us[k].next.Send?) && us[n].next.Quiet?
    && forall k :: 0 <= k <= n ==> GoesWell(us[k], DueIn(first, us, k), left && k == 0, setup)
  }

  /** A response comes out exactly if the command starts, its turns go well to the last, and the end gives one. */
  lemma ResponseIff(first: Option<Transmit>, us: seq<Turn>, slot: Option<string>, ends: bool, setup: Setup)
    ensures Command(first, us, slot, ends, setup).ok
       <==> first.Some? && ends && exists n: nat :: GoesThrough(first.value, us, slot.Some?, setup, n)
  {
    if first.Some? {
      OnwardIff(Then(Start, Asked(first.value)), us, first.value, slot, ends, setup);
    }
  }

  lemma {:induction false} OnwardIff(log: Log, us: seq<Turn>, t: Transmit, slot: Option<string>, ends: bool, setup: Setup)
    ensures Onward(log, us, t, slot, ends, setup).ok
       <==> ends && exists n: nat :: GoesThrough(t, us, slot.Some?, setup, n)
    decreases us
  {
    if us != [] {
      var (now, left) := AfterTurn(log, us[0], t, slot, setup);
      PassesIff(log, us[0], t, slot, setup);
      if us[0].next.Send? {
        OnwardIff(now, us[1..], us[0].next.transmit, left, ends, setup);
        forall n: nat | Passes(us[0], t, slot, setup)
          ensures GoesThrough(t, us, slot.Some?, setup, n + 1)
             <==> GoesThrough(us[0].next.transmit, us[1..], left.Some?, setup, n)
        {
          LaterTurns(us, t, slot, left, setup, n);
        }
        if exists n: nat :: GoesThrough(t, us, slot.Some?, setup, n) {
          var n: nat :| GoesThrough(t, us, slot.Some?, setup, n);
          assert GoesWell(us[0], DueIn(t, us, 0), slot.Some?, setup);
          if n > 0 {
            assert GoesThrough(t, us, slot.Some?, setup, n - 1 + 1);
            assert GoesThrough(us[0].next.transmit, us[1..], left.Some?, setup, n - 1);
          }
        }
      } else if us[0].next.Quiet? {
        assert GoesThrough(t, us, slot.Some?, setup, 0) <==> Passes(us[0], t, slot, setup);
        forall n: nat | GoesThrough(t, us, slot.Some?, setup, n) ensures n == 0 {
        }
      } else {
        forall n: nat ensures !GoesThrough(t, us, slot.Some?, setup, n) {
        }
      }
    }
  }

  lemma PassesIff(log: Log, u: Turn, t: Transmit, slot: Option<string>, setup: Setup)
    ensures Passes(u, t, slot, setup) <==> GoesWell(u, t, slot.Some?, setup)
    ensures Passes(u, t, slot, setup) ==>
              AfterTurn(log, u, t, slot, setup).1.Some? == (!setup.pairing && (u.learned.Some? || slot.Some?))
  {
  }

  lemma LaterTurns(us: seq<Turn>, t: Transmit, slot: Option<string>, left: Option<string>, setup: Setup, n: nat)
    requires us != [] && us[0].next.Send? && GoesWell(us[0], t, slot.Some?, setup)
    requires left.Some? == (!setup.pairing && (us[0].learned.Some? || slot.Some?))
    ensures GoesThrough(t, us, slot.Some?, setup, n + 1)
       <==> GoesThrough(us[0].next.transmit, us[1..], left.Some?, setup, n)
  {
    var next, rest := us[0].next.transmit, us[1..];
    if n < |rest| && forall k :: 0 <= k < n ==> rest[k].next.Send? {
      assert forall k :: 0 <= k <= n ==> us[k + 1] == rest[k];
      forall k | 0 <= k <= n ensures (forall j :: 0 <= j < k + 1 ==> us[j].next.Send?) && DueIn(t, us, k + 1) == DueIn(next, rest, k) {
        assert forall j :: 1 <= j < k + 1 ==> us[j] == rest[j - 1];
      }
    }
    if GoesThrough(t, us, slot.Some?, setup, n + 1) {
      forall k | 0 <= k < n ensures rest[k].next.Send? {
        assert us[k + 1] == rest[k];
      }
      forall k | 0 <= k <= n ensures GoesWell(rest[k], DueIn(next, rest, k), left.Some? && k == 0, setup) {
        assert GoesWell(us[k + 1], DueIn(t, us, k + 1), false, setup);
      }
    }
    if GoesThrough(next, rest, left.Some?, setup, n) {
      forall k | 0 <= k < n + 1 ensures us[k].next.Send? {
        assert k > 0 ==> us[k] == rest[k - 1];
      }
      forall k | 0 <= k <= n + 1 ensures GoesWell(us[k], DueIn(t, us, k), slot.Some? && k == 0, setup) {
        if k > 0 {
          assert GoesWell(rest[k - 1], DueIn(next, rest, k - 1), left.Some? && k == 1, setup);
        }
      }
    }
  }
}
