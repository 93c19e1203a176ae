/**
 Trezor and KeepKey V1 packets: 64 bytes, prefix 0x3f, 63 bytes of a frame each. A frame is
 `##`, a 16-bit type, a 32-bit body length and the body. A link that has failed once inside
 the channel never enters it again.
 */
module TrezorV1 {
  import opened Bytes
  import opened HidChannels

  const PREFIX: u8 := 0x3f
  const MAGIC: u8 := 0x23
  const MAX_BODY := 65536

  function Be32(b: bytes, at: nat): (n: nat)
    requires at + 4 <= |b|
  {
    (((b[at] as int) * 0x100 + b[at + 1]) * 0x100 + b[at + 2]) * 0x100 + b[at + 3]
  }

  /** What the link accepts as a request. */
  predicate ValidRequest(f: bytes) {
    |f| >= 8 && f[0] == MAGIC && f[1] == MAGIC && Be32(f, 4) <= MAX_BODY && Be32(f, 4) == |f| - 8
  }

  /** What the interpreter accepts as a reply, before the core sees it. */
  predicate ExactFrame(reply: bytes) {
    |reply| >= 8 && reply[..2] == [0x23, 0x23] && Be32(reply, 4) + 8 == |reply|
  }

  function PacketCount(n: nat): nat {
    (n + 62) / 63
  }

  function PacketOf(frame: bytes, i: nat): (p: bytes)
    requires 63 * i < |frame|
    ensures |p| == REPORT && p[0] == PREFIX
    ensures forall k :: 1 <= k < REPORT ==> p[k] == if 63 * i + k - 1 < |frame| then frame[63 * i + k - 1] else 0
  {
    [PREFIX] + seq(63, j requires 0 <= j < 63 => if 63 * i + j < |frame| then frame[63 * i + j] else 0)
  }

  function Packets(frame: bytes, n: nat): (ps: seq<bytes>)
    requires n <= PacketCount(|frame|)
    ensures |ps| == n
    ensures forall i :: 0 <= i < n ==> ps[i] == PacketOf(frame, i)
  {
    seq(n, i requires 0 <= i < n => PacketOf(frame, i))
  }

  // ------------------------------------------------------------------ replies

  datatype Outcome =
    | Frame(answer: bytes, taken: nat)
    | InvalidRequest
    | Disconnected
    | IncompleteWrite
    | ChannelFailed
    | InvalidPacket
    | InvalidResponse
    | TooLong
    | Cancelled

  predicate ValidPacket(p: bytes) {
    |p| == REPORT && p[0] == PREFIX
  }

  /** Packets are read until `total` bytes of a reply are there. */
  function Fill(rs: seq<Received>, answer: bytes, total: nat, taken: nat): (o: Outcome)
    requires |answer| <= total
    ensures o.Frame? ==> |o.answer| == total && answer <= o.answer
    ensures o.Frame? ==> if |answer| == total then o.taken == taken else o.taken > taken
    decreases rs
  {
    if |answer| == total then Frame(answer, taken)
    else if rs == [] || rs[0].ReadThrows? then ChannelFailed
    else if !ValidPacket(rs[0].data) then InvalidPacket
    else
      var take := Min(63, total - |answer|);
      Fill(rs[1..], answer + rs[0].data[1..1 + take], total, taken + 1)
  }

  /** A whole reply: its first packet says how long it is. */
  function ReplyOf(rs: seq<Received>): (o: Outcome)
    ensures o.Frame? ==> o.taken >= 1
  {
    if rs == [] || rs[0].ReadThrows? then ChannelFailed
    else if !ValidPacket(rs[0].data) then InvalidPacket
    else
      var first := rs[0].data;
      if first[1] != MAGIC || first[2] != MAGIC then InvalidResponse
      else if Be32(first, 5) > MAX_BODY then TooLong
      else
        var total := 8 + Be32(first, 5);
        Fill(rs[1..], first[1..1 + Min(63, total)], total, 1)
  }

  /** The calling coroutine: `lives` more checks find it active. */
  class Job {
    var lives: nat

    constructor (lives: nat)
      ensures this.lives == lives
    {
      this.lives := lives;
    }

    method IsActive() returns (active: bool)
      modifies this
      ensures active <==> old(lives) > 0
      ensures lives == if active then old(lives) - 1 else 0
    {
      active := lives > 0;
      if active {
        lives := lives - 1;
      }
    }
  }

  /** The channel takes each of `n` packets as exactly 64 bytes. */
  predicate TakesAll(taking: seq<Written>, n: nat) {
    forall i :: 0 <= i < n ==> Next(taking, i, WriteThrows) == Took(REPORT)
  }

  /**
   When an exchange succeeds: every packet is taken, the channel has a whole reply, and the
   calling coroutine is active at the start, behind every packet, and at the end.
   */
  predicate Succeeds(payload: bytes, taking: seq<Written>, coming: seq<Received>, lives: nat) {
    TakesAll(taking, PacketCount(|payload|)) && ReplyOf(coming).Frame?
    && lives >= PacketCount(|payload|) + ReplyOf(coming).taken + 2
  }

  class TrezorV1Link {
    const channel: HidChannel
    var ready: bool

    constructor (channel: HidChannel)
      ensures this.channel == channel && ready
    {
      this.channel := channel;
      ready := true;
    }

    /** Refusals touch nothing; an admitted exchange succeeds iff it can, and then leaves the link ready. */
    method Exchange(payload: bytes, job: Job) returns (o: Outcome)
      modifies channel, this`ready, job
      ensures !ValidRequest(payload) ==>
                o == if |payload| >= 8 && payload[..2] == [MAGIC, MAGIC] && Be32(payload, 4) > MAX_BODY then TooLong
                     else InvalidRequest
      ensures ValidRequest(payload) && !old(ready) ==> o == Disconnected
      ensures !ValidRequest(payload) || !old(ready) ==>
                ready == old(ready) && channel.sent == old(channel.sent)
                && channel.taking == old(channel.taking) && channel.coming == old(channel.coming)
      ensures ValidRequest(payload) && old(ready) ==>
                (ready <==> o.Frame?)
                && (o.Frame? <==> Succeeds(payload, old(channel.taking), old(channel.coming), old(job.lives)))
                && exists n :: 0 <= n <= PacketCount(|payload|) && channel.sent == old(channel.sent) + Packets(payload, n)
      ensures ValidRequest(payload) && old(ready) && o != Cancelled ==>
                if TakesAll(old(channel.taking), PacketCount(|payload|)) then o == ReplyOf(old(channel.coming))
                else (o == IncompleteWrite || o == ChannelFailed) && channel.coming == old(channel.coming)
      ensures o.Frame? ==>
                ValidRequest(payload) && old(ready) && ExactFrame(o.answer)
                && o == ReplyOf(old(channel.coming))
                && channel.sent == old(channel.sent) + Packets(payload, PacketCount(|payload|))
                && channel.coming == Rest(old(channel.coming), o.taken)
    {
      if |payload| < 8 || payload[0] != MAGIC || payload[1] != MAGIC {
        return InvalidRequest;
      }
      if Be32(payload, 4) > MAX_BODY {
        return TooLong;
      }
      if Be32(payload, 4) != |payload| - 8 {
        return InvalidRequest;
      }
      if !ready {
        return Disconnected;
      }
      ready := false;
      var active := job.IsActive();
      if !active {
        assert channel.sent == old(channel.sent) + Packets(payload, 0);
        return Cancelled;
      }
      o := WritePackets(payload, job);
      if o.Frame? {
        o := ReadReply(job);
        if o.Frame? {
          active := job.IsActive();
          if active {
            ready := true;
            ReplyIsExact(old(channel.coming));
          } else {
            o := Cancelled;
          }
        }
      }
    }

    /** `Frame` stands for "all written" here. */
    method WritePackets(payload: bytes, job: Job) returns (o: Outcome)
      requires ValidRequest(payload)
      modifies channel`sent, channel`taking, job
      ensures o.Frame? ==> channel.sent == old(channel.sent) + Packets(payload, PacketCount(|payload|))
      ensures !o.Frame? ==> o == IncompleteWrite || o == ChannelFailed || o == Cancelled
      ensures var n := PacketCount(|payload|);
              (o.Frame? <==> TakesAll(old(channel.taking), n) && old(job.lives) >= n)
              && (o == IncompleteWrite || o == ChannelFailed ==> !TakesAll(old(channel.taking), n))
              && (o.Frame? ==> job.lives == old(job.lives) - n)
      ensures exists n :: 0 <= n <= PacketCount(|payload|) && channel.sent == old(channel.sent) + Packets(payload, n)
    {
      var report := new u8[REPORT](_ => 0);
      var offset := 0;
      ghost var i, taking := 0, channel.taking;
      assert Packets(payload, 0) == [];
      while offset < |payload|
        invariant offset == Min(63 * i, |payload|) && i <= PacketCount(|payload|)
        invariant channel.sent == old(channel.sent) + Packets(payload, i)
        invariant channel.taking == Rest(taking, i) && TakesAll(taking, i) && job.lives == old(job.lives) - i
        decreases |payload| - offset
      {
        var take := Min(63, |payload| - offset);
        forall k | 0 <= k < REPORT {
          report[k] := if k == 0 then PREFIX else if k < 1 + take then payload[offset + k - 1] else 0;
        }
        assert report[..] == PacketOf(payload, i);
        assert Packets(payload, i) + [PacketOf(payload, i)] == Packets(payload, i + 1);
        RestRest(taking, i, WriteThrows);
        var w := channel.Send(report);
        i := i + 1;
        if w.WriteThrows? {
          return ChannelFailed;
        }
        if w.count != REPORT {
          return IncompleteWrite;
        }
        offset := offset + take;
        var active := job.IsActive();
        if !active {
          return Cancelled;
        }
      }
      o := Frame([], 0);
    }

    method ReadReply(job: Job) returns (o: Outcome)
      modifies channel`coming, job
      ensures o == ReplyOf(old(channel.coming)) || o == Cancelled
      ensures o.Frame? ==> channel.coming == Rest(old(channel.coming), o.taken)
      ensures var r := ReplyOf(old(channel.coming));
              (o.Frame? <==> r.Frame? && old(job.lives) >= r.taken)
              && (o.Frame? ==> job.lives == old(job.lives) - r.taken)
    {
      ghost var coming := channel.coming;
      var status, first := ReadPacket(job);
      if !status.Frame? {
        return status;
      }
      if first[1] != MAGIC || first[2] != MAGIC {
        return InvalidResponse;
      }
      if Be32(first, 5) > MAX_BODY {
        return TooLong;
      }
      var total := 8 + Be32(first, 5);
      var answer := first[1..1 + Min(63, total)];
      var taken := 1;
      while |answer| < total
        invariant 1 <= taken <= |coming| && channel.coming == coming[taken..] && |answer| <= total
        invariant ReplyOf(coming) == Fill(coming[taken..], answer, total, taken)
        invariant job.lives == old(job.lives) - taken
        decreases total - |answer|
      {
        var next, packet := ReadPacket(job);
        if !next.Frame? {
          return next;
        }
        var take := Min(63, total - |answer|);
        answer := answer + packet[1..1 + take];
        taken := taken + 1;
      }
      o := Frame(answer, taken);
    }

    /** `Frame` stands for a packet that is there and valid. */
    method ReadPacket(job: Job) returns (status: Outcome, packet: bytes)
      modifies channel`coming, job
      ensures status == Cancelled
           || status == if old(channel.coming) == [] || old(channel.coming)[0].ReadThrows? then ChannelFailed
                        else if !ValidPacket(old(channel.coming)[0].data) then InvalidPacket else Frame([], 0)
      ensures status == Cancelled ==> old(job.lives) == 0
      ensures status.Frame? ==> old(job.lives) > 0 && job.lives == old(job.lives) - 1
      ensures status.Frame? ==>
                packet == old(channel.coming)[0].data && channel.coming == old(channel.coming)[1..]
    {
      packet := [];
      var r := channel.Receive();
      if r.ReadThrows? {
        return ChannelFailed, [];
      }
      var active := job.IsActive();
      if !active {
        return Cancelled, [];
      }
      packet := r.data;
      if |packet| != REPORT || packet[0] != PREFIX {
        return InvalidPacket, [];
      }
      status := Frame([], 0);
    }
  }

  // ------------------------------------------------------------- the promises

  /** Whatever the device sends, a reply the link returns passes the interpreter's frame check. */
  lemma ReplyIsExact(rs: seq<Received>)
    requires ReplyOf(rs).Frame?
    ensures ExactFrame(ReplyOf(rs).answer) && |ReplyOf(rs).answer| <= MAX_BODY + 8
    ensures ReplyOf(rs).taken == PacketCount(|ReplyOf(rs).answer|)
  {
    var first := rs[0].data;
    var total := 8 + Be32(first, 5);
    var head := first[1..1 + Min(63, total)];
    FillCounts(rs[1..], head, total, 1);
    var a := ReplyOf(rs).answer;
    assert head <= a;
    assert forall k :: 0 <= k < 8 ==> a[k] == head[k] == first[1 + k];
    assert a[..2] == [a[0], a[1]];
  }

  lemma {:induction false} FillCounts(rs: seq<Received>, answer: bytes, total: nat, taken: nat)
    requires |answer| == Min(63 * taken, total) && taken > 0 && 63 * (taken - 1) < total
    requires Fill(rs, answer, total, taken).Frame?
    ensures Fill(rs, answer, total, taken).taken == PacketCount(total)
    decreases rs
  {
    if |answer| < total {
      var take := Min(63, total - |answer|);
      FillCounts(rs[1..], answer + rs[0].data[1..1 + take], total, taken + 1);
    }
  }

  /** The packets behind a whole reply play no part in it. */
  lemma ReplyEndsThere(rs: seq<Received>)
    requires ReplyOf(rs).Frame?
    ensures ReplyOf(rs).taken <= |rs| && ReplyOf(rs[..ReplyOf(rs).taken]).Frame?
  {
    var total := 8 + Be32(rs[0].data, 5);
    var t := ReplyOf(rs).taken;
    FillEndsThere(rs[1..], rs[0].data[1..1 + Min(63, total)], total, 1);
    assert rs[..t][1..] == rs[1..][..t - 1];
  }

  lemma {:induction false} FillEndsThere(rs: seq<Received>, answer: bytes, total: nat, taken: nat)
    requires |answer| <= total && Fill(rs, answer, total, taken).Frame?
    ensures var t := Fill(rs, answer, total, taken).taken - taken;
            0 <= t <= |rs| && Fill(rs[..t], answer, total, taken).Frame?
    decreases rs
  {
    if |answer| < total {
      var take := Min(63, total - |answer|);
      var t := Fill(rs, answer, total, taken).taken - taken;
      FillEndsThere(rs[1..], answer + rs[0].data[1..1 + take], total, taken + 1);
      assert rs[..t][1..] == rs[1..][..t - 1];
    }
  }

  /** A frame sent as packets is read back whole from exactly those packets. */
  lemma RoundTrip(frame: bytes, more: seq<Received>)
    requires ValidRequest(frame)
    ensures ReplyOf(AsReports(Packets(frame, PacketCount(|frame|))) + more) == Frame(frame, PacketCount(|frame|))
  {
    var rs := AsReports(Packets(frame, PacketCount(|frame|))) + more;
    var first := rs[0].data;
    assert first == PacketOf(frame, 0);
    assert forall k :: 0 <= k < 8 ==> first[1 + k] == frame[k];
    assert first[1..1 + Min(63, |frame|)] == frame[..Min(63, |frame|)];
    RoundTripFrom(frame, rs, 1);
  }

  lemma {:induction false} RoundTripFrom(frame: bytes, rs: seq<Received>, i: nat)
    requires 0 < i <= PacketCount(|frame|) <= |rs|
    requires forall j: nat :: j < PacketCount(|frame|) ==> rs[j] == Report(PacketOf(frame, j))
    ensures Fill(rs[i..], frame[..Min(63 * i, |frame|)], |frame|, i) == Frame(frame, PacketCount(|frame|))
    decreases PacketCount(|frame|) - i
  {
    if 63 * i < |frame| {
      var take := Min(63, |frame| - 63 * i);
      assert rs[i..][0] == rs[i] && rs[i..][1..] == rs[i + 1..];
      var p := rs[i].data;
      assert p[1..1 + take] == frame[63 * i..63 * i + take];
      assert frame[..63 * i] + frame[63 * i..63 * i + take] == frame[..63 * i + take];
      RoundTripFrom(frame, rs, i + 1);
    } else {
      assert frame[..|frame|] == frame;
    }
  }

  // ------------------------------------------------ what any device can achieve

  /** 64 bytes behind the prefix 0x3f. */
  predicate Good(r: Received) {
    r.Report? && |r.data| == 64 && r.data[0] == 0x3f
  }

  predicate FirstGood(rs: seq<Received>, k: nat) {
    k <= |rs| && forall i :: 0 <= i < k ==> Good(rs[i])
  }

  /** The first packet opens a frame of an allowed length. */
  predicate Opens(rs: seq<Received>) {
    FirstGood(rs, 1) && rs[0].data[1] == 0x23 && rs[0].data[2] == 0x23 && Be32(rs[0].data, 5) <= 65536
  }

  function Total(rs: seq<Received>): nat
    requires FirstGood(rs, 1)
  {
    8 + Be32(rs[0].data, 5)
  }

  /** What the first `k` packets carry behind their prefixes. */
  function Joined(rs: seq<Received>, k: nat): (b: bytes)
    requires FirstGood(rs, k)
    ensures |b| == 63 * k
  {
    if k == 0 then [] else Joined(rs, k - 1) + rs[k - 1].data[1..]
  }

  /** The first `k` packets are good, open a frame and do not fill it. */
  predicate Going(rs: seq<Received>, k: nat) {
    FirstGood(rs, k) && (k > 0 ==> Opens(rs) && 63 * k < Total(rs))
  }

  /** What happens at packet `k`, when the reader gets there. */
  predicate EndsWith(rs: seq<Received>, k: nat, o: Outcome)
    requires Going(rs, k)
  {
    if k == |rs| || rs[k].ReadThrows? then o == ChannelFailed
    else if !Good(rs[k]) then o == InvalidPacket
    else if k == 0 && (rs[0].data[1] != 0x23 || rs[0].data[2] != 0x23) then o == InvalidResponse
    else if k == 0 && Be32(rs[0].data, 5) > 65536 then o == TooLong
    else FirstGood(rs, k + 1) && 63 * (k + 1) >= Total(rs) && o == Frame(Joined(rs, k + 1)[..Total(rs)], k + 1)
  }

  lemma FrameOpened(rs: seq<Received>)
    requires Opens(rs)
    ensures ReplyOf(rs) == Fill(rs[1..], rs[0].data[1..1 + Min(63, Total(rs))], Total(rs), 1)
  {
  }

  /** What the first packet carries, cut to the frame. */
  lemma FirstBody(rs: seq<Received>, n: nat)
    requires FirstGood(rs, 1) && n <= 63
    ensures rs[0].data[1..1 + n] == Joined(rs, 1)[..n]
    ensures n == 63 ==> rs[0].data[1..1 + n] == Joined(rs, 1)
  {
  }

  lemma FirstPacket(rs: seq<Received>)
    requires Opens(rs)
    ensures 63 >= Total(rs) ==> ReplyOf(rs) == Frame(Joined(rs, 1)[..Total(rs)], 1)
    ensures 63 < Total(rs) ==> ReplyOf(rs) == Fill(rs[1..], Joined(rs, 1), Total(rs), 1)
  {
    FrameOpened(rs);
    FirstBody(rs, Min(63, Total(rs)));
  }

  lemma NextPacket(rs: seq<Received>, k: nat)
    requires k > 0 && Going(rs, k) && FirstGood(rs, k + 1)
    ensures Fill(rs[k..], Joined(rs, k), Total(rs), k)
         == if 63 * (k + 1) >= Total(rs) then Frame(Joined(rs, k + 1)[..Total(rs)], k + 1)
            else Fill(rs[k + 1..], Joined(rs, k + 1), Total(rs), k + 1)
  {
    var body, take := rs[k].data[1..], Min(63, Total(rs) - 63 * k);
    assert rs[k..][0] == rs[k] && rs[k..][1..] == rs[k + 1..];
    assert rs[k].data[1..1 + take] == body[..take];
    CutJoin(Joined(rs, k), body, Total(rs));
  }

  /** Where the reader stands after `k` packets. */
  lemma {:induction false} ReplyAfter(rs: seq<Received>, k: nat)
    requires k > 0 && Going(rs, k)
    ensures ReplyOf(rs) == Fill(rs[k..], Joined(rs, k), Total(rs), k)
    decreases k
  {
    if k == 1 {
      FirstPacket(rs);
    } else {
      assert Going(rs, k - 1);
      ReplyAfter(rs, k - 1);
      NextPacket(rs, k - 1);
    }
  }

  lemma EndIsRight(rs: seq<Received>, k: nat)
    requires Going(rs, k) && !Going(rs, k + 1)
    ensures EndsWith(rs, k, ReplyOf(rs))
  {
    if k == 0 {
      if Opens(rs) {
        FirstPacket(rs);
      }
    } else {
      ReplyAfter(rs, k);
      if k < |rs| {
        assert rs[k..][0] == rs[k];
        if Good(rs[k]) {
          NextPacket(rs, k);
        }
      }
    }
  }

  /** The reader stops somewhere. */
  lemma {:induction false} Stops(rs: seq<Received>, k: nat) returns (e: nat)
    requires Going(rs, k)
    ensures Going(rs, e) && !Going(rs, e + 1)
    decreases |rs| - k
  {
    e := k;
    if Going(rs, k + 1) {
      e := Stops(rs, k + 1);
    }
  }

  /**
   For every sequence of packets: what comes of it, and exactly when. A reply comes at the
   packet that fills the announced frame, if all up to it are good and the first opens one;
   it is what they carry, joined and cut to that length.
   */
  lemma OutcomeIff(rs: seq<Received>, o: Outcome)
    ensures ReplyOf(rs) == o <==> exists k: nat :: Going(rs, k) && !Going(rs, k + 1) && EndsWith(rs, k, o)
  {
    var e := Stops(rs, 0);
    EndIsRight(rs, e);
    forall k: nat | Going(rs, k) && !Going(rs, k + 1) && EndsWith(rs, k, o) ensures ReplyOf(rs) == o {
      EndIsRight(rs, k);
    }
  }
}
