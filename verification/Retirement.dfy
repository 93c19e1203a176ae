/**
 Any number of concurrent calls on one Trezor or Specter link. A call poisons the link with
 one compare-and-set before its first suspension and revives it only as its very last act,
 when its program is through; at every suspension point before that it may fail, be cancelled
 or run into the deadline.
 */
module Retirement {
  import opened Bytes
  import HidChannels
  import JadeLink
  import SpecterLink
  import TrezorV1

  type Call = nat

  /** A request: whether it is admitted, how many writes it takes, and which reads make its whole reply. */
  datatype Program = Program(valid: bool, writes: nat, whole: seq<bytes> -> bool)

  /** Every call with its request. */
  type Requests = Call -> Program

  /** `Inside` is past the compare-and-set; `Refused` calls never touch the channel, `Dead` ones left it half-way. */
  datatype Phase = Fresh | Refused | Inside(written: nat, got: seq<bytes>) | Dead | Done(got: seq<bytes>)

  datatype Op = Wrote | Got(data: bytes) | Failed

  /** `log` lists the channel operations with the calls that made them. */
  datatype Link = Link(ready: bool, phases: map<Call, Phase>, log: seq<(Call, Op)>)

  datatype Step =
    | Arrive(call: Call)               // a new call of `exchange`
    | Reject(call: Call)               // an invalid request
    | CompareAndSet(call: Call)
    | Write(call: Call)                // a write that succeeds
    | Read(call: Call, data: bytes)    // a read that succeeds
    | FailedOp(call: Call)             // a write or read that does not
    | Abort(call: Call)                // cancellation, deadline, unusable bytes
    | Revive(call: Call)               // `ready.set(true)` and return

  /** The call's program is at its end: all written, and what was read is a whole reply. */
  predicate Through(p: Program, f: Phase) {
    f.Inside? && f.written == p.writes && p.whole(f.got)
  }

  predicate Enabled(q: Requests, l: Link, s: Step) {
    if s.Arrive? then s.call !in l.phases
    else
      s.call in l.phases &&
      var p, f := q(s.call), l.phases[s.call];
      match s
      case Reject(_) => f.Fresh? && !p.valid
      case CompareAndSet(_) => f.Fresh? && p.valid
      case Write(_) => f.Inside? && f.written < p.writes
      case Read(_, _) => f.Inside? && f.written == p.writes && !p.whole(f.got)
      case FailedOp(_) => f.Inside? && !Through(p, f)
      case Abort(_) => f.Inside?
      case Revive(_) => Through(p, f)
  }

  function Move(l: Link, c: Call, f: Phase): Link {
    l.(phases := l.phases[c := f])
  }

  function Apply(q: Requests, l: Link, s: Step): (r: Link)
    requires Enabled(q, l, s)
  {
    match s
    case Arrive(c) => Move(l, c, Fresh)
    case Reject(c) => Move(l, c, Refused)
    case CompareAndSet(c) => if l.ready then Move(l, c, Inside(0, [])).(ready := false) else Move(l, c, Refused)
    case Write(c) => Move(l, c, Inside(l.phases[c].written + 1, l.phases[c].got)).(log := l.log + [(c, Wrote)])
    case Read(c, data) =>
      Move(l, c, Inside(l.phases[c].written, l.phases[c].got + [data])).(log := l.log + [(c, Got(data))])
    case FailedOp(c) => Move(l, c, Dead).(log := l.log + [(c, Failed)])
    case Abort(c) => Move(l, c, Dead)
    case Revive(c) => Move(l, c, Done(l.phases[c].got)).(ready := true)
  }

  const NEW_LINK := Link(true, map[], [])

  /** `steps` is an interleaving that can happen. */
  predicate CanRun(q: Requests, l: Link, steps: seq<Step>)
    decreases |steps|
  {
    steps == [] || (Enabled(q, l, steps[0]) && CanRun(q, Apply(q, l, steps[0]), steps[1..]))
  }

  function Run(q: Requests, l: Link, steps: seq<Step>): Link
    requires CanRun(q, l, steps)
    decreases |steps|
  {
    if steps == [] then l else Run(q, Apply(q, l, steps[0]), steps[1..])
  }

  // --------------------------------------------------------------- invariants

  predicate AtMostOneInside(l: Link) {
    forall c, d :: c in l.phases && d in l.phases && l.phases[c].Inside? && l.phases[d].Inside? ==> c == d
  }

  /** The link is ready exactly when nobody is inside and nobody ever died there. */
  predicate ReadyMeansClean(l: Link) {
    l.ready <==> forall c :: c in l.phases ==> !l.phases[c].Inside? && !l.phases[c].Dead?
  }

  /** Somebody died inside, so nobody is inside now. */
  predicate DeathIsFinal(l: Link) {
    (exists c :: c in l.phases && l.phases[c].Dead?) ==>
      forall c :: c in l.phases ==> !l.phases[c].Inside?
  }

  /** Every call on the log was admitted; only the last one may still be inside or dead. */
  predicate LogIsAdmitted(l: Link) {
    (forall k :: 0 <= k < |l.log| ==> l.log[k].0 in l.phases)
    && (forall k :: 0 <= k < |l.log| ==>
          l.phases[l.log[k].0].Done?
          || ((l.phases[l.log[k].0].Inside? || l.phases[l.log[k].0].Dead?) && l.log[k].0 == l.log[|l.log| - 1].0))
  }

  /** The operations of one exchange are not interleaved with those of another. */
  predicate NotInterleaved(log: seq<(Call, Op)>) {
    forall i, j, k :: 0 <= i < j < k < |log| && log[i].0 == log[k].0 ==> log[j].0 == log[i].0
  }

  predicate Order(l: Link) {
    AtMostOneInside(l) && ReadyMeansClean(l) && DeathIsFinal(l) && LogIsAdmitted(l) && NotInterleaved(l.log)
  }

  lemma ReadyAfter(q: Requests, l: Link, s: Step)
    requires Order(l) && Enabled(q, l, s)
    ensures ReadyMeansClean(Apply(q, l, s))
  {
    var r := Apply(q, l, s);
    if !r.ready {
      var d := s.call;
      if !l.ready {
        d :| d in l.phases && (l.phases[d].Inside? || l.phases[d].Dead?);
      }
      assert d in r.phases && (r.phases[d].Inside? || r.phases[d].Dead?);
    } else if s.Revive? {
      assert l.phases[s.call].Inside?;
    }
  }

  lemma PhasesAfter(q: Requests, l: Link, s: Step)
    requires AtMostOneInside(l) && ReadyMeansClean(l) && DeathIsFinal(l) && Enabled(q, l, s)
    ensures AtMostOneInside(Apply(q, l, s)) && DeathIsFinal(Apply(q, l, s))
  {
  }

  lemma LogAfter(q: Requests, l: Link, s: Step)
    requires Order(l) && Enabled(q, l, s)
    ensures LogIsAdmitted(Apply(q, l, s)) && NotInterleaved(Apply(q, l, s).log)
  {
    if s.Write? || s.Read? || s.FailedOp? {
      LogGrows(l, s.call, Apply(q, l, s).log[|l.log|].1);
    }
  }

  lemma OrderAfter(q: Requests, l: Link, s: Step)
    requires Order(l) && Enabled(q, l, s)
    ensures Order(Apply(q, l, s))
  {
    ReadyAfter(q, l, s);
    PhasesAfter(q, l, s);
    LogAfter(q, l, s);
  }

  /** Whoever may operate on the channel continues its own block of the log or opens a new one. */
  lemma LogGrows(l: Link, c: Call, op: Op)
    requires Order(l) && c in l.phases && l.phases[c].Inside?
    ensures NotInterleaved(l.log + [(c, op)])
    ensures forall k :: 0 <= k < |l.log| ==> l.phases[l.log[k].0].Done? || l.log[k].0 == c
  {
  }

  /** The operations of one call. */
  function OpsOf(log: seq<(Call, Op)>, c: Call): seq<Op> {
    if log == [] then []
    else OpsOf(log[..|log| - 1], c) + if log[|log| - 1].0 == c then [log[|log| - 1].1] else []
  }

  lemma OpsGrow(log: seq<(Call, Op)>, c: Call, op: Op, d: Call)
    ensures OpsOf(log + [(c, op)], d) == OpsOf(log, d) + if d == c then [op] else []
  {
    assert (log + [(c, op)])[..|log|] == log;
  }

  /** What a call that has made `written` writes and these reads did on the channel. */
  function Script(written: nat, got: seq<bytes>): seq<Op> {
    if got != [] then Script(written, got[..|got| - 1]) + [Got(got[|got| - 1])]
    else if written > 0 then Script(written - 1, []) + [Wrote]
    else []
  }

  lemma ScriptGrows(written: nat, got: seq<bytes>, data: bytes)
    ensures Script(written, got + [data]) == Script(written, got) + [Got(data)]
  {
    assert (got + [data])[..|got|] == got;
  }

  /** These reads are a whole reply, and were not one before the last of them. */
  predicate JustWhole(p: Program, got: seq<bytes>) {
    p.whole(got) && NotYet(p, got)
  }

  predicate NotYet(p: Program, got: seq<bytes>) {
    forall k :: 0 <= k < |got| ==> !p.whole(got[..k])
  }

  /** What is on the log for a call is what its program has done so far. */
  predicate Followed(p: Program, f: Phase, ops: seq<Op>) {
    match f
    case Fresh => ops == []
    case Refused => ops == []
    case Inside(written, got) =>
      p.valid && ops == Script(written, got) && written <= p.writes && (got != [] ==> written == p.writes) && NotYet(p, got)
    case Dead => true
    case Done(got) => p.valid && ops == Script(p.writes, got) && JustWhole(p, got)
  }

  predicate FollowedBy(q: Requests, l: Link, c: Call) {
    if c in l.phases then Followed(q(c), l.phases[c], OpsOf(l.log, c)) else OpsOf(l.log, c) == []
  }

  ghost predicate AllFollowed(q: Requests, l: Link) {
    forall c :: FollowedBy(q, l, c)
  }

  lemma FollowedAfter(q: Requests, l: Link, s: Step)
    requires AllFollowed(q, l) && Enabled(q, l, s)
    ensures AllFollowed(q, Apply(q, l, s))
  {
    forall c ensures FollowedBy(q, Apply(q, l, s), c) {
      assert FollowedBy(q, l, c);
      if c == s.call {
        OwnStepFollows(q, l, s);
      } else {
        OthersStepFollows(q, l, s, c);
      }
    }
  }

  lemma OthersStepFollows(q: Requests, l: Link, s: Step, c: Call)
    requires FollowedBy(q, l, c) && Enabled(q, l, s) && c != s.call
    ensures FollowedBy(q, Apply(q, l, s), c)
  {
    var r := Apply(q, l, s);
    if r.log != l.log {
      OpsGrow(l.log, s.call, r.log[|l.log|].1, c);
    }
  }

  lemma OwnStepFollows(q: Requests, l: Link, s: Step)
    requires FollowedBy(q, l, s.call) && Enabled(q, l, s)
    ensures FollowedBy(q, Apply(q, l, s), s.call)
  {
    if s.Write? {
      OpsGrow(l.log, s.call, Wrote, s.call);
    } else if s.Read? {
      OpsGrow(l.log, s.call, Got(s.data), s.call);
      ReadFollows(q(s.call), l.phases[s.call], OpsOf(l.log, s.call), s.data);
    }
  }

  lemma ReadFollows(p: Program, f: Phase, ops: seq<Op>, data: bytes)
    requires f.Inside? && Followed(p, f, ops) && f.written == p.writes && !p.whole(f.got)
    ensures Followed(p, Inside(f.written, f.got + [data]), ops + [Got(data)])
  {
    ScriptGrows(f.written, f.got, data);
    var got := f.got + [data];
    forall k | 0 <= k < |got| ensures !p.whole(got[..k]) {
      assert got[..k] == f.got[..k];
      assert k == |f.got| ==> got[..k] == f.got;
    }
  }

  ghost predicate Inv(q: Requests, l: Link) {
    Order(l) && AllFollowed(q, l)
  }

  /** Over every interleaving of any number of calls. */
  lemma {:induction false} EveryRunIsSafe(q: Requests, l: Link, steps: seq<Step>)
    requires Inv(q, l) && CanRun(q, l, steps)
    ensures Inv(q, Run(q, l, steps))
    decreases |steps|
  {
    if steps != [] {
      OrderAfter(q, l, steps[0]);
      FollowedAfter(q, l, steps[0]);
      EveryRunIsSafe(q, Apply(q, l, steps[0]), steps[1..]);
    }
  }

  // ------------------------------------------------------------- the promises

  /** The call is on the log with exactly its writes and one whole reply. */
  predicate Completed(p: Program, f: Phase, ops: seq<Op>) {
    p.valid && f.Done? && JustWhole(p, f.got) && ops == Script(p.writes, f.got)
  }

  /**
   From a new link: never two exchanges inside the channel, never two interleaved on it, and
   whenever the link is ready the channel has seen nothing but whole exchanges, each of them
   all the writes of a request followed by exactly its reply.
   */
  lemma LinkIsSafe(q: Requests, steps: seq<Step>)
    requires CanRun(q, NEW_LINK, steps)
    ensures var l := Run(q, NEW_LINK, steps);
            AtMostOneInside(l) && NotInterleaved(l.log)
            && (l.ready ==> forall k :: 0 <= k < |l.log| ==>
                  var c := l.log[k].0;
                  c in l.phases && Completed(q(c), l.phases[c], OpsOf(l.log, c)))
  {
    EveryRunIsSafe(q, NEW_LINK, steps);
    var l := Run(q, NEW_LINK, steps);
    if l.ready {
      forall k | 0 <= k < |l.log| ensures var c := l.log[k].0; c in l.phases && Completed(q(c), l.phases[c], OpsOf(l.log, c)) {
        assert FollowedBy(q, l, l.log[k].0);
      }
    }
  }

  /** Once an admitted exchange has failed, no run ever reaches the channel again. */
  lemma {:induction false} FailureRetires(q: Requests, l: Link, steps: seq<Step>, dead: Call)
    requires Inv(q, l) && CanRun(q, l, steps) && dead in l.phases && l.phases[dead].Dead?
    ensures var r := Run(q, l, steps); r.log == l.log && !r.ready && dead in r.phases && r.phases[dead].Dead?
    decreases |steps|
  {
    if steps != [] {
      var n := Apply(q, l, steps[0]);
      OrderAfter(q, l, steps[0]);
      FollowedAfter(q, l, steps[0]);
      assert n.log == l.log && n.phases[dead].Dead?;
      FailureRetires(q, n, steps[1..], dead);
    }
  }

  /** The same steps without those of one call. */
  function Without(steps: seq<Step>, c: Call): seq<Step> {
    if steps == [] then []
    else (if steps[0].call == c then [] else [steps[0]]) + Without(steps[1..], c)
  }

  /** The same link as if one call, which is not inside, had never come. */
  predicate SameBut(l: Link, r: Link, c: Call) {
    r.ready == l.ready && r.log == l.log && r.phases == l.phases - {c}
    && (c in l.phases ==> l.phases[c].Fresh? || l.phases[c].Refused?)
  }

  lemma OwnStepIsInvisible(q: Requests, l: Link, r: Link, s: Step)
    requires SameBut(l, r, s.call) && Enabled(q, l, s) && !q(s.call).valid
    ensures SameBut(Apply(q, l, s), r, s.call)
  {
    assert s.Arrive? || s.Reject?;
  }

  lemma OthersStepStays(q: Requests, l: Link, r: Link, s: Step, c: Call)
    requires SameBut(l, r, c) && Enabled(q, l, s) && s.call != c
    ensures Enabled(q, r, s) && SameBut(Apply(q, l, s), Apply(q, r, s), c)
  {
    assert s.call in l.phases ==> s.call in r.phases && r.phases[s.call] == l.phases[s.call];
  }

  /** An invalid request, whenever it comes and is rejected, leaves no trace for any other call. */
  lemma {:induction false} InvalidRequestsAreInvisible(q: Requests, l: Link, r: Link, steps: seq<Step>, c: Call)
    requires SameBut(l, r, c) && CanRun(q, l, steps) && !q(c).valid
    ensures CanRun(q, r, Without(steps, c))
    ensures SameBut(Run(q, l, steps), Run(q, r, Without(steps, c)), c)
    decreases |steps|
  {
    if steps != [] {
      var s := steps[0];
      if s.call == c {
        OwnStepIsInvisible(q, l, r, s);
        assert Without(steps, c) == Without(steps[1..], c);
        InvalidRequestsAreInvisible(q, Apply(q, l, s), r, steps[1..], c);
      } else {
        OthersStepStays(q, l, r, s, c);
        assert Without(steps, c) == [s] + Without(steps[1..], c);
        InvalidRequestsAreInvisible(q, Apply(q, l, s), Apply(q, r, s), steps[1..], c);
      }
    }
  }

  /** A call on a link is admitted exactly if its request is valid and the link is ready, and then it has poisoned it. */
  lemma AdmittedIff(q: Requests, l: Link, c: Call)
    requires c in l.phases && l.phases[c].Fresh?
    ensures Enabled(q, l, CompareAndSet(c)) <==> q(c).valid
    ensures q(c).valid ==>
              var r := Apply(q, l, CompareAndSet(c));
              if l.ready then r.phases[c] == Inside(0, []) && !r.ready else r.phases[c] == Refused && !r.ready
  {
  }

  /** The steps of an exchange that goes well from where it stands: what is left to write, these reads, and the revival. */
  function Rest(c: Call, writes: nat, got: seq<bytes>): seq<Step> {
    if writes > 0 then [Write(c)] + Rest(c, writes - 1, got)
    else if got != [] then [Read(c, got[0])] + Rest(c, 0, got[1..])
    else [Revive(c)]
  }

  /** An admitted exchange whose reads make a whole reply with the last of them succeeds, and the link is ready again. */
  lemma {:induction false} GoesWell(q: Requests, l: Link, c: Call, got: seq<bytes>)
    requires c in l.phases && l.phases[c].Inside? && l.phases[c].written <= q(c).writes
    requires l.phases[c].written < q(c).writes ==> l.phases[c].got == []
    requires JustWhole(q(c), l.phases[c].got + got)
    ensures var steps := Rest(c, q(c).writes - l.phases[c].written, got);
            CanRun(q, l, steps) && Run(q, l, steps).ready
            && c in Run(q, l, steps).phases && Run(q, l, steps).phases[c] == Done(l.phases[c].got + got)
    decreases q(c).writes - l.phases[c].written, |got|
  {
    var f := l.phases[c];
    var steps := Rest(c, q(c).writes - f.written, got);
    if f.written < q(c).writes {
      assert steps[1..] == Rest(c, q(c).writes - f.written - 1, got);
      GoesWell(q, Apply(q, l, Write(c)), c, got);
    } else if got != [] {
      assert steps[1..] == Rest(c, 0, got[1..]);
      assert f.got + got == (f.got + [got[0]]) + got[1..];
      assert (f.got + got)[..|f.got|] == f.got;
      GoesWell(q, Apply(q, l, Read(c, got[0])), c, got[1..]);
    } else {
      assert f.got + [] == f.got;
      assert steps[1..] == [];
    }
  }

  // -------------------------------------------------------------- the two links

  /** A Trezor request: as many writes as it has packets, and reads until the reply has its announced length. */
  function TrezorProgram(payload: bytes): Program {
    Program(TrezorV1.ValidRequest(payload), TrezorV1.PacketCount(|payload|),
            got => TrezorV1.ReplyOf(HidChannels.AsReports(got)).Frame?)
  }

  /** A Specter request: one write, and reads until the parser has a payload. */
  function SpecterProgram<P>(core: SpecterLink.Parser<P>): Program {
    Program(true, 1, got => SpecterLink.Reply(core, core.start, JadeLink.AsReads(got, []), 0).Frame?)
  }

  /** A Trezor reply that is just whole is one frame in exactly the packets it fills. */
  lemma TrezorReadsOneReply(payload: bytes, got: seq<bytes>)
    requires JustWhole(TrezorProgram(payload), got)
    ensures var o := TrezorV1.ReplyOf(HidChannels.AsReports(got));
            o.Frame? && o.taken == |got| && TrezorV1.ExactFrame(o.answer) && |got| == TrezorV1.PacketCount(|o.answer|)
  {
    var rs := HidChannels.AsReports(got);
    var o := TrezorV1.ReplyOf(rs);
    TrezorV1.ReplyIsExact(rs);
    TrezorV1.ReplyEndsThere(rs);
    assert rs[..o.taken] == HidChannels.AsReports(got[..o.taken]);
  }

  /** A Specter reply that is just whole is what the parser makes of all its reads. */
  lemma SpecterReadsOneReply<P(!new)>(core: SpecterLink.Parser<P>, got: seq<bytes>)
    requires JustWhole(SpecterProgram(core), got)
    ensures var o := SpecterLink.Reply(core, core.start, JadeLink.AsReads(got, []), 0); o.Frame? && o.taken == |got|
  {
    var rs := JadeLink.AsReads(got, []);
    var o := SpecterLink.Reply(core, core.start, rs, 0);
    SpecterLink.ReplyEndsThere(core, core.start, rs, 0);
    AsReadsTake(got, o.taken);
  }

  lemma {:induction false} AsReadsTake(got: seq<bytes>, k: nat)
    requires k <= |got|
    ensures JadeLink.AsReads(got, [])[..k] == JadeLink.AsReads(got[..k], [])
  {
    if k > 0 {
      AsReadsTake(got[1..], k - 1);
      assert got[..k][1..] == got[1..][..k - 1];
      assert JadeLink.AsReads(got, [])[..k]
          == [JadeLink.Data(got[0])] + JadeLink.AsReads(got[1..], [])[..k - 1];
    }
  }

  function TrezorRequests(payloads: map<Call, bytes>): Requests {
    c => if c in payloads then TrezorProgram(payloads[c]) else TrezorProgram([])
  }

  /** So a Trezor link that is ready has consumed one exact frame for each request it wrote. */
  lemma TrezorLinkIsSafe(payloads: map<Call, bytes>, steps: seq<Step>, k: nat)
    requires CanRun(TrezorRequests(payloads), NEW_LINK, steps)
    requires var l := Run(TrezorRequests(payloads), NEW_LINK, steps); l.ready && k < |l.log|
    ensures var l := Run(TrezorRequests(payloads), NEW_LINK, steps);
            var c := l.log[k].0;
            c in payloads && TrezorV1.ValidRequest(payloads[c]) && c in l.phases && l.phases[c].Done?
            && OpsOf(l.log, c) == Script(TrezorV1.PacketCount(|payloads[c]|), l.phases[c].got)
            && var o := TrezorV1.ReplyOf(HidChannels.AsReports(l.phases[c].got));
               o.Frame? && TrezorV1.ExactFrame(o.answer) && o.taken == |l.phases[c].got|
  {
    LinkIsSafe(TrezorRequests(payloads), steps);
    var l := Run(TrezorRequests(payloads), NEW_LINK, steps);
    var c := l.log[k].0;
    assert Completed(TrezorRequests(payloads)(c), l.phases[c], OpsOf(l.log, c));
    TrezorReadsOneReply(payloads[c], l.phases[c].got);
  }

  /** Likewise a Specter link: one request written, and exactly the reads its parser needs, for each call. */
  lemma SpecterLinkIsSafe<P(!new)>(core: SpecterLink.Parser<P>, steps: seq<Step>, k: nat)
    requires CanRun((c: Call) => SpecterProgram(core), NEW_LINK, steps)
    requires var l := Run((c: Call) => SpecterProgram(core), NEW_LINK, steps); l.ready && k < |l.log|
    ensures var l := Run((c: Call) => SpecterProgram(core), NEW_LINK, steps);
            var c := l.log[k].0;
            c in l.phases && l.phases[c].Done? && OpsOf(l.log, c) == Script(1, l.phases[c].got)
            && var o := SpecterLink.Reply(core, core.start, JadeLink.AsReads(l.phases[c].got, []), 0);
               o.Frame? && o.taken == |l.phases[c].got|
  {
    var q: Requests := (c: Call) => SpecterProgram(core);
    LinkIsSafe(q, steps);
    var l := Run(q, NEW_LINK, steps);
    var c := l.log[k].0;
    assert Completed(q(c), l.phases[c], OpsOf(l.log, c));
    SpecterReadsOneReply(core, l.phases[c].got);
  }
}
