/**
 Specter-DIY over a serial port. The core's incremental response parser is unknown here: it
 is any state with any total transition, and what is proved holds for all of them.
 */
module SpecterLink {
  import opened Bytes
  import JadeLink
  import TrezorV1

  type Read = JadeLink.Read

  const CHUNK := 0x4000
  const ACK := [0x41, 0x43, 0x4b, 0x0d, 0x0a]
  const CRLF := [0x0d, 0x0a]

  datatype Parsed<P> = More(next: P) | Payload(payload: bytes) | Bad

  /** The core's parser: where it starts, and what further bytes make of a state. */
  datatype Parser<!P> = Parser(start: P, push: (P, bytes) -> Parsed<P>)

  datatype Pushed = NeedMore | Whole(frame: bytes) | Refused | Retired

  /** One reply: completion or an error drops the parser for good. */
  class SpecterFrameDecoder<P> {
    const core: Parser<P>
    var slot: Option<P>

    constructor (core: Parser<P>)
      ensures this.core == core && slot == Some(core.start)
    {
      this.core := core;
      slot := Some(core.start);
    }

    method Push(data: bytes) returns (r: Pushed)
      modifies this
      ensures slot.Some? <==> r.NeedMore?
      ensures r.Retired? <==> old(slot) == None
      ensures old(slot).Some? ==>
                match core.push(old(slot).value, data)
                case More(next) => r == NeedMore && slot == Some(next)
                case Payload(payload) => r == Whole(ACK + payload + CRLF)
                case Bad => r == Refused
    {
      if slot == None {
        return Retired;
      }
      match core.push(slot.value, data) {
        case More(next) =>
          slot := Some(next);
          r := NeedMore;
        case Payload(payload) =>
          slot := None;
          r := Whole(ACK + payload + CRLF);
        case Bad =>
          slot := None;
          r := Refused;
      }
    }
  }

  datatype Outcome =
    | Frame(frame: bytes, taken: nat)
    | Disconnected
    | Cancelled
    | TimedOut
    | StreamFailed
    | Oversized
    | BadReply

  /** The answer to the reads `rs`, parsed from state `p`, if nothing intervenes. */
  function Reply<P>(core: Parser<P>, p: P, rs: seq<Read>, n: nat): (o: Outcome)
    ensures o.Frame? ==> o.taken > n
    decreases rs
  {
    if rs == [] || rs[0].Throws? then StreamFailed
    else if |rs[0].chunk| > CHUNK then Oversized
    else if rs[0].chunk == [] then Disconnected
    else
      match core.push(p, rs[0].chunk)
      case More(next) => Reply(core, next, rs[1..], n + 1)
      case Payload(payload) => Frame(ACK + payload + CRLF, n + 1)
      case Bad => BadReply
  }

  /**
   When an exchange succeeds: the request can be written, the stream has a whole reply, and at
   every suspension point and at the end the coroutine is active and the deadline holds.
   */
  predicate Succeeds<P>(core: Parser<P>, writable: bool, coming: seq<Read>, lives: nat, holds: nat) {
    writable && var o := Reply(core, core.start, coming, 0);
    o.Frame? && lives >= o.taken + 2 && holds >= o.taken + 2
  }

  class SpecterSerialLink<P> {
    const stream: JadeLink.SerialStream
    const core: Parser<P>
    var ready: bool

    constructor (stream: JadeLink.SerialStream, core: Parser<P>)
      ensures this.stream == stream && this.core == core && ready
    {
      this.stream := stream;
      this.core := core;
      ready := true;
    }

    /**
     `job` says how long the calling coroutine stays active, `clock` how long the confirmation
     deadline holds. An admitted exchange succeeds exactly when it can, and then leaves the link ready.
     */
    method Exchange(payload: bytes, job: TrezorV1.Job, clock: TrezorV1.Job) returns (o: Outcome)
      requires job != clock
      modifies stream, this`ready, job, clock
      ensures !old(ready) ==>
                o == Disconnected && !ready && stream.written == old(stream.written)
                && stream.coming == old(stream.coming)
      ensures old(ready) ==>
                (ready <==> o.Frame?) && stream.written == old(stream.written) + [payload]
                && (o.Frame? <==> Succeeds(core, stream.writable, old(stream.coming), old(job.lives), old(clock.lives)))
      ensures old(ready) && !o.Cancelled? && !o.TimedOut? ==>
                o == if stream.writable then Reply(core, core.start, old(stream.coming), 0) else StreamFailed
      ensures o.Frame? ==>
                o == Reply(core, core.start, old(stream.coming), 0) && o.taken <= |old(stream.coming)|
                && stream.coming == old(stream.coming)[o.taken..]
    {
      if !ready {
        return Disconnected;
      }
      ready := false;
      var sent := stream.WriteAll(payload);
      if !sent {
        return StreamFailed;
      }
      o := ReadFrame(job, clock);
      if o.Frame? {
        var active := job.IsActive();
        if !active {
          return Cancelled;
        }
        var timely := clock.IsActive();
        if !timely {
          return TimedOut;
        }
        ready := true;
      }
    }

    /** The part under the deadline, after the request is written. */
    method ReadFrame(job: TrezorV1.Job, clock: TrezorV1.Job) returns (o: Outcome)
      requires job != clock
      modifies stream`coming, job, clock
      ensures var r := Reply(core, core.start, old(stream.coming), 0);
              (o == r || o.Cancelled? || o.TimedOut?)
              && (o.Frame? <==> r.Frame? && old(job.lives) > r.taken && old(clock.lives) > r.taken)
      ensures o.Frame? ==>
                o.taken <= |old(stream.coming)| && stream.coming == old(stream.coming)[o.taken..]
                && job.lives == old(job.lives) - o.taken - 1 && clock.lives == old(clock.lives) - o.taken - 1
    {
      var decoder := new SpecterFrameDecoder(core);
      ghost var all := stream.coming;
      var n := 0;
      var live, timely := Lives(job, clock);
      if !live {
        return if timely then Cancelled else TimedOut;
      }
      while true
        invariant fresh(decoder) && decoder.core == core && decoder.slot.Some?
        invariant job.lives == old(job.lives) - n - 1 && clock.lives == old(clock.lives) - n - 1
        invariant n <= |all| && stream.coming == all[n..]
        invariant Reply(core, core.start, all, 0) == Reply(core, decoder.slot.value, all[n..], n)
        decreases |all| - n
      {
        var r := stream.ReadChunk();
        if r.Throws? {
          return StreamFailed;
        }
        n := n + 1;
        live, timely := Lives(job, clock);
        if !live {
          return if timely then Cancelled else TimedOut;
        }
        if |r.chunk| > CHUNK {
          return Oversized;
        }
        if r.chunk == [] {
          return Disconnected;
        }
        var pushed := decoder.Push(r.chunk);
        if pushed.Whole? {
          return Frame(pushed.frame, n);
        } else if !pushed.NeedMore? {
          return BadReply;
        }
      }
    }

    /** A suspension point: the deadline may fire there, and cancellation is checked behind it. */
    method Lives(job: TrezorV1.Job, clock: TrezorV1.Job) returns (live: bool, timely: bool)
      requires job != clock
      modifies job, clock
      ensures live <==> old(job.lives) > 0 && old(clock.lives) > 0
      ensures live ==> job.lives == old(job.lives) - 1 && clock.lives == old(clock.lives) - 1
      ensures timely <==> old(clock.lives) > 0
    {
      timely := clock.IsActive();
      var active := job.IsActive();
      live := timely && active;
    }
  }

  // ------------------------------------------------------------- the promises

  /** Pushing bytes in two parts is pushing them at once, as long as the first part needs more. */
  ghost predicate Incremental<P(!new)>(core: Parser<P>) {
    forall p, a, b :: core.push(p, a).More? ==> core.push(p, a + b) == core.push(core.push(p, a).next, b)
  }

  /** `all` is one reply, and no shorter part of it is. */
  predicate Completes<P(!new)>(core: Parser<P>, p: P, all: bytes) {
    core.push(p, all).Payload? && forall k: nat :: k < |all| ==> core.push(p, all[..k]).More?
  }

  lemma AfterPart<P(!new)>(core: Parser<P>, p: P, part: bytes, rest: bytes)
    requires Incremental(core) && Completes(core, p, part + rest) && rest != []
    ensures core.push(p, part).More? && Completes(core, core.push(p, part).next, rest)
    ensures core.push(core.push(p, part).next, rest) == core.push(p, part + rest)
  {
    assert (part + rest)[..|part|] == part;
    var next := core.push(p, part).next;
    forall k: nat | k < |rest| ensures core.push(next, rest[..k]).More? {
      assert (part + rest)[..|part| + k] == part + rest[..k];
    }
  }

  predicate Fit(chunks: seq<bytes>) {
    forall k :: 0 <= k < |chunks| ==> 0 < |chunks[k]| <= CHUNK
  }

  /** The reads behind a whole reply play no part in it. */
  lemma {:induction false} ReplyEndsThere<P>(core: Parser<P>, p: P, rs: seq<Read>, n: nat)
    requires Reply(core, p, rs, n).Frame?
    ensures var t := Reply(core, p, rs, n).taken - n; 0 <= t <= |rs| && Reply(core, p, rs[..t], n).Frame?
    decreases rs
  {
    if core.push(p, rs[0].chunk).More? {
      var next := core.push(p, rs[0].chunk).next;
      var t := Reply(core, p, rs, n).taken - n;
      ReplyEndsThere(core, next, rs[1..], n + 1);
      assert rs[..t][1..] == rs[1..][..t - 1];
    }
  }

  lemma ReplyStep<P>(core: Parser<P>, p: P, c: bytes, tail: seq<bytes>, more: seq<Read>, n: nat)
    requires 0 < |c| <= CHUNK
    ensures Reply(core, p, JadeLink.AsReads([c] + tail, more), n)
         == match core.push(p, c)
            case More(next) => Reply(core, next, JadeLink.AsReads(tail, more), n + 1)
            case Payload(payload) => Frame(ACK + payload + CRLF, n + 1)
            case Bad => BadReply
  {
    assert ([c] + tail)[1..] == tail;
    var input := JadeLink.AsReads([c] + tail, more);
    assert input[0] == JadeLink.Data(c) && input[1..] == JadeLink.AsReads(tail, more);
  }

  /**
   With an incremental parser, cutting a reply into reads in any way gives the same frame, and
   the exchange stops with the read that completes it.
   */
  lemma {:induction false} ChunkingDoesNotMatter<P(!new)>(core: Parser<P>, p: P, chunks: seq<bytes>, more: seq<Read>, n: nat)
    requires Incremental(core) && chunks != [] && Fit(chunks) && Completes(core, p, JadeLink.Flatten(chunks))
    ensures Reply(core, p, JadeLink.AsReads(chunks, more), n)
         == Frame(ACK + core.push(p, JadeLink.Flatten(chunks)).payload + CRLF, n + |chunks|)
    decreases chunks
  {
    var c, tail := chunks[0], chunks[1..];
    ReplyStep(core, p, c, tail, more, n);
    assert [c] + tail == chunks;
    if tail == [] {
      assert JadeLink.Flatten(chunks) == c;
    } else {
      assert JadeLink.Flatten(tail) == tail[0] + JadeLink.Flatten(tail[1..]);
      AfterPart(core, p, c, JadeLink.Flatten(tail));
      ChunkingDoesNotMatter(core, core.push(p, c).next, tail, more, n + 1);
    }
  }

  // ------------------------------------------------ what any device can achieve

  /** The parser's state after `k` reads of 1 to 16384 bytes each that it wants more of. */
  function StateAfter<P>(core: Parser<P>, rs: seq<Read>, k: nat): Option<P>
    requires k <= |rs|
  {
    if k == 0 then Some(core.start)
    else
      match StateAfter(core, rs, k - 1)
      case None => None
      case Some(p) =>
        if rs[k - 1].Data? && 0 < |rs[k - 1].chunk| <= 16384 && core.push(p, rs[k - 1].chunk).More? then
          Some(core.push(p, rs[k - 1].chunk).next)
        else None
  }

  predicate Going<P>(core: Parser<P>, rs: seq<Read>, k: nat) {
    k <= |rs| && StateAfter(core, rs, k).Some?
  }

  /** What happens at read `k`, when the loop gets there. */
  predicate EndsWith<P>(core: Parser<P>, rs: seq<Read>, k: nat, o: Outcome)
    requires Going(core, rs, k)
  {
    if k == |rs| || rs[k].Throws? then o == StreamFailed
    else if |rs[k].chunk| > 16384 then o == Oversized
    else if rs[k].chunk == [] then o == Disconnected
    else
      match core.push(StateAfter(core, rs, k).value, rs[k].chunk)
      case More(_) => false
      case Payload(payload) => o == Frame([0x41, 0x43, 0x4b, 0x0d, 0x0a] + payload + [0x0d, 0x0a], k + 1)
      case Bad => o == BadReply
  }

  lemma {:induction false} ReplyAfter<P>(core: Parser<P>, rs: seq<Read>, k: nat)
    requires Going(core, rs, k)
    ensures Reply(core, core.start, rs, 0) == Reply(core, StateAfter(core, rs, k).value, rs[k..], k)
    decreases k
  {
    if k == 0 {
      assert rs[0..] == rs;
    } else {
      assert Going(core, rs, k - 1);
      ReplyAfter(core, rs, k - 1);
      assert rs[k - 1..][0] == rs[k - 1] && rs[k - 1..][1..] == rs[k..];
    }
  }

  lemma EndIsRight<P>(core: Parser<P>, rs: seq<Read>, k: nat)
    requires Going(core, rs, k) && !Going(core, rs, k + 1)
    ensures EndsWith(core, rs, k, Reply(core, core.start, rs, 0))
  {
    ReplyAfter(core, rs, k);
    if k < |rs| {
      assert rs[k..][0] == rs[k];
    }
  }

  /** The loop stops somewhere. */
  lemma {:induction false} Ends<P>(core: Parser<P>, rs: seq<Read>, k: nat) returns (e: nat)
    requires Going(core, rs, k)
    ensures Going(core, rs, e) && !Going(core, rs, e + 1)
    decreases |rs| - k
  {
    e := k;
    if Going(core, rs, k + 1) {
      e := Ends(core, rs, k + 1);
    }
  }

  /** For every parser and every sequence of reads: what comes of it, and exactly when. */
  lemma OutcomeIff<P>(core: Parser<P>, rs: seq<Read>, o: Outcome)
    ensures Reply(core, core.start, rs, 0) == o
       <==> exists k: nat :: Going(core, rs, k) && !Going(core, rs, k + 1) && EndsWith(core, rs, k, o)
  {
    var e := Ends(core, rs, 0);
    EndIsRight(core, rs, e);
    forall k: nat | Going(core, rs, k) && !Going(core, rs, k + 1) && EndsWith(core, rs, k, o)
      ensures Reply(core, core.start, rs, 0) == o
    {
      EndIsRight(core, rs, k);
    }
  }
}
