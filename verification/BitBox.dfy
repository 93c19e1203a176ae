/**
 BitBox02 over HID: messages in U2F frames (FIDO U2F HID Protocol, section 2.4) and, on top
 of them, a request that is polled until the device is ready.
 */
module BitBox {
  import opened Bytes
  import opened HidChannels

  // ------------------------------------------------------------------- frames

  const FIRMWARE_CMD: u8 := 0xc1
  const MAX_MSG := 7550  // 57 + 127 * 59

  function FrameCount(n: nat): (count: nat)
    ensures count >= 1 && n <= 57 + 59 * (count - 1)
    ensures count > 1 ==> n > 57 + 59 * (count - 2)
  {
    if n <= 57 then 1 else 1 + (n - 57 + 58) / 59
  }

  function CidByte(k: nat): u8 {
    if k % 2 == 0 then 0xff else 0x00
  }

  /** Where byte `k` of a message stands among the frames, and which byte stands at `p`. */
  function PlaceOf(k: nat): (p: nat) {
    if k < 57 then 7 + k else 64 * (1 + (k - 57) / 59) + 5 + (k - 57) % 59
  }

  function ByteAt(msg: bytes, p: nat): u8 {
    var frame, r := p / 64, p % 64;
    if r < 4 then CidByte(r)
    else if frame == 0 then
      if r == 4 then FIRMWARE_CMD
      else if r == 5 then |msg| / 0x100 % 0x100
      else if r == 6 then |msg| % 0x100
      else if r - 7 < |msg| then msg[r - 7] else 0
    else if r == 4 then (frame - 1) % 0x100
    else
      var k := 57 + 59 * (frame - 1) + r - 5;
      if k < |msg| then msg[k] else 0
  }

  function Encoded(msg: bytes): (e: bytes)
    ensures |e| == 64 * FrameCount(|msg|)
    ensures forall p :: 0 <= p < |e| ==> e[p] == ByteAt(msg, p)
  {
    seq(64 * FrameCount(|msg|), p requires 0 <= p < 64 * FrameCount(|msg|) => ByteAt(msg, p))
  }

  lemma PlaceIsRight(msg: bytes, k: nat)
    requires k < |msg|
    ensures PlaceOf(k) < 64 * FrameCount(|msg|) && ByteAt(msg, PlaceOf(k)) == msg[k]
    ensures PlaceOf(k) / 64 == (if k < 57 then 0 else 1 + (k - 57) / 59) && PlaceOf(k) % 64 >= 5
  {
    if k < 57 {
      FramePosition(0, 7 + k);
    } else {
      var f, r := (k - 57) / 59, (k - 57) % 59;
      FramePosition(1 + f, 64 * (1 + f) + 5 + r);
      CountsItsFrames(|msg|, f);
    }
  }

  lemma CountsItsFrames(n: nat, f: nat)
    requires 57 + 59 * f < n
    ensures f + 2 <= FrameCount(n)
  {
  }

  /** Frame `f` of an allowed message carries the sequence byte `f - 1`, which stays below 127. */
  lemma FewFrames(msg: bytes, f: nat)
    requires |msg| <= MAX_MSG && 1 <= f < FrameCount(|msg|)
    ensures FrameCount(|msg|) <= 128
    ensures Encoded(msg)[64 * f + 4] == f - 1 < 127
  {
    FramePosition(f, 64 * f + 4);
  }

  method Encode(msg: bytes) returns (out: array?<u8>)
    ensures out == null <==> |msg| > 7550
    ensures out != null ==> fresh(out) && out[..] == Encoded(msg)
  {
    if |msg| > MAX_MSG {
      return null;
    }
    var n := FrameCount(|msg|) * 64;
    var a := new u8[n](_ => 0);
    var first := PutFirstFrame(a, msg);
    var offset, frame, number := first, 1, 0;
    while offset < |msg|
      invariant frame == number + 1 && offset == Min(57 + 59 * number, |msg|)
      invariant offset < |msg| ==> 64 * frame + 64 <= n
      invariant offset == |msg| ==> n <= 64 * frame
      invariant forall p :: 0 <= p < 64 * frame && p < n ==> a[p] == ByteAt(msg, p)
      invariant forall p :: 64 * frame <= p < n ==> a[p] == 0
    {
      var take := PutFrame(a, msg, frame, number, offset);
      offset := offset + take;
      number := number + 1;
      frame := frame + 1;
    }
    out := a;
  }

  method PutFirstFrame(a: array<u8>, msg: bytes) returns (first: nat)
    requires a.Length >= 64 && forall p :: 0 <= p < a.Length ==> a[p] == 0
    modifies a
    ensures first == Min(57, |msg|)
    ensures forall p :: 0 <= p < 64 ==> a[p] == ByteAt(msg, p)
    ensures forall p :: 64 <= p < a.Length ==> a[p] == 0
  {
    PutCid(a, 0);
    a[4], a[5], a[6] := FIRMWARE_CMD, |msg| / 0x100 % 0x100, |msg| % 0x100;
    first := Min(57, |msg|);
    forall k | 7 <= k < 7 + first {
      a[k] := msg[k - 7];
    }
  }

  method PutCid(a: array<u8>, at: nat)
    requires at + 4 <= a.Length
    modifies a
    ensures forall p :: at <= p < at + 4 ==> a[p] == CidByte(p - at)
    ensures forall p :: 0 <= p < at || at + 4 <= p < a.Length ==> a[p] == old(a[p])
  {
    a[at], a[at + 1], a[at + 2], a[at + 3] := 0xff, 0x00, 0xff, 0x00;
  }

  method PutFrame(a: array<u8>, msg: bytes, frame: nat, number: nat, offset: nat) returns (take: nat)
    requires frame == number + 1 && 64 * frame + 64 <= a.Length
    requires offset == 57 + 59 * number < |msg|
    requires forall p :: 64 * frame <= p < a.Length ==> a[p] == 0
    modifies a
    ensures take == Min(59, |msg| - offset)
    ensures forall p :: 64 * frame <= p < 64 * frame + 64 ==> a[p] == ByteAt(msg, p)
    ensures forall p :: 0 <= p < 64 * frame || 64 * frame + 64 <= p < a.Length ==> a[p] == old(a[p])
  {
    var base := frame * 64;
    PutCid(a, base);
    a[base + 4] := number % 0x100;
    take := Min(59, |msg| - offset);
    forall p | base + 5 <= p < base + 5 + take {
      a[p] := msg[offset + p - base - 5];
    }
    forall p | base <= p < base + 64 ensures a[p] == ByteAt(msg, p) {
      FramePosition(frame, p);
    }
  }

  lemma FramePosition(frame: nat, p: nat)
    requires 64 * frame <= p < 64 * frame + 64
    ensures p / 64 == frame && p % 64 == p - 64 * frame
  {
  }

  datatype Decoded = Whole(msg: bytes) | More | WrongChannel | WrongCommand

  /** The message `buf` holds, or that more frames are needed. */
  function DecodedOf(buf: bytes): Decoded {
    if |buf| < 7 then More
    else if !(buf[0] == 0xff && buf[1] == 0x00 && buf[2] == 0xff && buf[3] == 0x00) then WrongChannel
    else if buf[4] != FIRMWARE_CMD then WrongCommand
    else
      var n := Be16(buf, 5);
      if |buf| < FrameCount(n) * 64 then More
      else Whole(seq(n, k requires 0 <= k < n => PlaceInside(n, k); buf[PlaceOf(k)]))
  }

  lemma PlaceInside(n: nat, k: nat)
    requires k < n
    ensures PlaceOf(k) < 64 * FrameCount(n)
  {
  }

  /** Never reads past the buffer, whatever length the device declares. */
  method Decode(buf: array<u8>) returns (d: Decoded)
    ensures d == DecodedOf(buf[..])
  {
    if buf.Length < 7 {
      return More;
    }
    if !(buf[0] == 0xff && buf[1] == 0x00 && buf[2] == 0xff && buf[3] == 0x00) {
      return WrongChannel;
    }
    if buf[4] != FIRMWARE_CMD {
      return WrongCommand;
    }
    var n := Be16(buf[..], 5);
    if buf.Length < FrameCount(n) * 64 {
      return More;
    }
    var out := new u8[n](_ => 0);
    var take := Min(57, n);
    forall k | 0 <= k < take {
      out[k] := buf[7 + k];
    }
    var written, from := take, 7 + take;
    ghost var frame := 1;
    while written < n
      invariant take <= written <= n && frame >= 1
      invariant written < n ==> from == 64 * frame && written == 57 + 59 * (frame - 1)
      invariant forall k :: 0 <= k < written ==> IsPlaced(out[k], k, buf[..])
    {
      take := Min(59, n - written);
      GetFrame(out, written, take, buf, from, frame);
      written, from, frame := written + take, from + 5 + take, frame + 1;
    }
    assert out[..] == DecodedOf(buf[..]).msg;
    d := Whole(out[..]);
  }

  /** `x` is byte `k` of the message in `buf`. */
  predicate IsPlaced(x: u8, k: nat, buf: bytes) {
    PlaceOf(k) < |buf| && x == buf[PlaceOf(k)]
  }

  method GetFrame(out: array<u8>, written: nat, take: nat, buf: array<u8>, from: nat, ghost frame: nat)
    requires out != buf && written + take <= out.Length && buf.Length >= 64 * FrameCount(out.Length)
    requires frame >= 1 && from == 64 * frame && written == 57 + 59 * (frame - 1) && take <= 59
    requires forall k :: 0 <= k < written ==> IsPlaced(out[k], k, buf[..])
    modifies out
    ensures forall k :: 0 <= k < written + take ==> IsPlaced(out[k], k, buf[..])
  {
    forall k | written <= k < written + take ensures from + 5 + k - written == PlaceOf(k) < buf.Length {
      PlaceInside(out.Length, k);
      ContinuationPlace(frame, k);
    }
    forall k | written <= k < written + take {
      out[k] := buf[from + 5 + k - written];
    }
  }

  lemma ContinuationPlace(frame: nat, k: nat)
    requires frame >= 1 && 57 + 59 * (frame - 1) <= k < 57 + 59 * frame
    ensures PlaceOf(k) == 64 * frame + 5 + k - (57 + 59 * (frame - 1))
  {
  }

  lemma HeadIsRead(msg: bytes, buf: bytes)
    requires |msg| <= MAX_MSG && |buf| >= 7
    requires forall p :: 0 <= p < 7 ==> buf[p] == ByteAt(msg, p)
    ensures buf[0] == 0xff && buf[1] == 0x00 && buf[2] == 0xff && buf[3] == 0x00
    ensures buf[4] == FIRMWARE_CMD && Be16(buf, 5) == |msg|
  {
  }

  lemma BodyIsRead(msg: bytes, buf: bytes, k: nat)
    requires Encoded(msg) <= buf && k < |msg|
    ensures PlaceOf(k) < |buf| && buf[PlaceOf(k)] == msg[k]
  {
    PlaceIsRight(msg, k);
    assert buf[PlaceOf(k)] == Encoded(msg)[PlaceOf(k)];
  }

  /** Encoding is inverted, with any bytes behind it; every proper prefix asks for more. */
  lemma RoundTrip(msg: bytes, junk: bytes, n: nat)
    requires |msg| <= MAX_MSG && n <= |Encoded(msg) + junk|
    ensures DecodedOf((Encoded(msg) + junk)[..n]) == if n < |Encoded(msg)| then More else Whole(msg)
  {
    var buf := (Encoded(msg) + junk)[..n];
    if n >= 7 {
      HeadIsRead(msg, buf);
      if n >= |Encoded(msg)| {
        forall k | 0 <= k < |msg| ensures PlaceOf(k) < |buf| && buf[PlaceOf(k)] == msg[k] {
          BodyIsRead(msg, buf, k);
        }
        assert DecodedOf(buf).msg == msg;
      }
    }
  }

  /** Every byte of an encoded message: channel, command and length, sequence, then the message, then zeros. */
  lemma EncodedIsExact(msg: bytes, f: nat, r: nat)
    requires |msg| <= MAX_MSG && f < FrameCount(|msg|) && r < 64
    ensures var b := Encoded(msg)[64 * f + r]; var at := if f == 0 then r - 7 else 57 + 59 * (f - 1) + r - 5;
            if r < 4 then b == [0xff, 0x00, 0xff, 0x00][r]
            else if r == 4 then b == if f == 0 then 0xc1 else f - 1
            else if f == 0 && r < 7 then b == [|msg| / 0x100, |msg| % 0x100][r - 5]
            else b == if at < |msg| then msg[at] else 0
  {
    FramePosition(f, 64 * f + r);
  }

  /** For every buffer: what it is taken for, and exactly when. */
  lemma DecodedIff(buf: bytes)
    ensures DecodedOf(buf) == WrongChannel <==> |buf| >= 7 && buf[..4] != [0xff, 0x00, 0xff, 0x00]
    ensures DecodedOf(buf) == WrongCommand <==> |buf| >= 7 && buf[..4] == [0xff, 0x00, 0xff, 0x00] && buf[4] != 0xc1
    ensures DecodedOf(buf) == More
       <==> |buf| < 7 || (buf[..5] == [0xff, 0x00, 0xff, 0x00, 0xc1] && |buf| < 64 * FrameCount(Be16(buf, 5)))
    ensures DecodedOf(buf).Whole? ==> |DecodedOf(buf).msg| == Be16(buf, 5)
  {
    if |buf| >= 7 {
      assert buf[..4] == [buf[0], buf[1], buf[2], buf[3]];
      assert buf[..5] == [buf[0], buf[1], buf[2], buf[3], buf[4]];
    }
  }

  // ------------------------------------------------------------------ queries

  datatype Collected = Reply(msg: bytes, taken: nat) | ChannelFailed | ShortReport | BadFrame

  /** Reports are appended until the buffer decodes. */
  function Collect(rs: seq<Received>, buffer: bytes, taken: nat): (c: Collected)
    ensures c.Reply? ==> taken < c.taken <= taken + |rs|
    decreases rs
  {
    if rs == [] || rs[0].ReadThrows? then ChannelFailed
    else if |rs[0].data| != REPORT then ShortReport
    else
      var now := buffer + rs[0].data;
      match DecodedOf(now)
      case Whole(msg) => Reply(msg, taken + 1)
      case More => Collect(rs[1..], now, taken + 1)
      case WrongChannel => BadFrame
      case WrongCommand => BadFrame
  }

  /** A message cut into the reports it travels in. */
  function FramesOf(msg: bytes): (fs: seq<bytes>)
    ensures |fs| == FrameCount(|msg|)
    ensures forall i :: 0 <= i < |fs| ==> fs[i] == Encoded(msg)[64 * i..64 * i + 64]
  {
    seq(FrameCount(|msg|), i requires 0 <= i < FrameCount(|msg|) => Encoded(msg)[64 * i..64 * i + 64])
  }

  /** The frames of a message are collected to the message, and not one report more is read. */
  lemma CollectsMessage(msg: bytes, more: seq<Received>)
    requires |msg| <= MAX_MSG
    ensures Collect(AsReports(FramesOf(msg)) + more, [], 0) == Reply(msg, FrameCount(|msg|))
  {
    var rs := AsReports(FramesOf(msg)) + more;
    assert rs[0..] == rs && Encoded(msg)[..0] == [];
    CollectsFrom(msg, rs, 0);
  }

  lemma {:induction false} CollectsFrom(msg: bytes, rs: seq<Received>, i: nat)
    requires |msg| <= MAX_MSG && i < FrameCount(|msg|) <= |rs|
    requires forall j :: 0 <= j < FrameCount(|msg|) ==> rs[j] == Report(Encoded(msg)[64 * j..64 * j + 64])
    ensures Collect(rs[i..], Encoded(msg)[..64 * i], i) == Reply(msg, FrameCount(|msg|))
    decreases FrameCount(|msg|) - i
  {
    var e, data, rest := Encoded(msg), rs[i].data, rs[i + 1..];
    assert rs[i..] == [Report(data)] + rest;
    assert e[..64 * i] + data == e[..64 * (i + 1)] && e + [] == e;
    RoundTrip(msg, [], 64 * (i + 1));
    if i + 1 < FrameCount(|msg|) {
      OneMore(rs[i..], data, rest, e[..64 * i], i);
      CollectsFrom(msg, rs, i + 1);
    } else {
      LastReport(rs[i..], data, rest, e[..64 * i], i, msg);
    }
  }

  lemma LastReport(rs: seq<Received>, data: bytes, rest: seq<Received>, buffer: bytes, taken: nat, msg: bytes)
    requires rs == [Report(data)] + rest && |data| == 64 && DecodedOf(buffer + data) == Whole(msg)
    ensures Collect(rs, buffer, taken) == Reply(msg, taken + 1)
  {
  }

  /** The first `k` reports are whole, and the bytes so far do not hold a message yet. */
  predicate Going(rs: seq<Received>, k: nat) {
    FirstWhole(rs, k) && forall j :: 1 <= j <= k ==> DecodedOf(Joined(rs, j)) == More
  }

  predicate FirstWhole(rs: seq<Received>, k: nat) {
    k <= |rs| && forall i :: 0 <= i < k ==> rs[i].Report? && |rs[i].data| == 64
  }

  function Joined(rs: seq<Received>, k: nat): bytes
    requires FirstWhole(rs, k)
  {
    if k == 0 then [] else Joined(rs, k - 1) + rs[k - 1].data
  }

  /** What happens at report `k`, when the reader gets there. */
  predicate EndsWith(rs: seq<Received>, k: nat, c: Collected)
    requires Going(rs, k)
  {
    if k == |rs| || rs[k].ReadThrows? then c == ChannelFailed
    else if |rs[k].data| != 64 then c == ShortReport
    else match DecodedOf(Joined(rs, k + 1))
      case Whole(msg) => c == Reply(msg, k + 1)
      case More => false
      case _ => c == BadFrame
  }

  lemma {:induction false} CollectAfter(rs: seq<Received>, k: nat)
    requires Going(rs, k)
    ensures Collect(rs, [], 0) == Collect(rs[k..], Joined(rs, k), k)
    decreases k
  {
    if k == 0 {
      assert rs[0..] == rs;
    } else {
      GoingBefore(rs, k);
      CollectAfter(rs, k - 1);
      OneMore(rs[k - 1..], rs[k - 1].data, rs[k..], Joined(rs, k - 1), k - 1);
    }
  }

  lemma GoingBefore(rs: seq<Received>, k: nat)
    requires k > 0 && Going(rs, k)
    ensures Going(rs, k - 1) && DecodedOf(Joined(rs, k - 1) + rs[k - 1].data) == More
    ensures rs[k - 1..] == [Report(rs[k - 1].data)] + rs[k..]
  {
    assert DecodedOf(Joined(rs, k)) == More;
  }

  lemma OneMore(rs: seq<Received>, data: bytes, rest: seq<Received>, buffer: bytes, taken: nat)
    requires rs == [Report(data)] + rest && |data| == 64 && DecodedOf(buffer + data) == More
    ensures Collect(rs, buffer, taken) == Collect(rest, buffer + data, taken + 1)
  {
    CollectMore(rs, buffer, taken);
    assert rs[1..] == rest;
  }

  lemma CollectMore(rs: seq<Received>, buffer: bytes, taken: nat)
    requires rs != [] && rs[0].Report? && |rs[0].data| == 64 && DecodedOf(buffer + rs[0].data) == More
    ensures Collect(rs, buffer, taken) == Collect(rs[1..], buffer + rs[0].data, taken + 1)
  {
  }

  lemma EndIsRight(rs: seq<Received>, k: nat)
    requires Going(rs, k) && !Going(rs, k + 1)
    ensures EndsWith(rs, k, Collect(rs, [], 0))
  {
    CollectAfter(rs, k);
    if k < |rs| {
      assert rs[k..][0] == rs[k];
    }
  }

  lemma {:induction false} Stops(rs: seq<Received>, k: nat) returns (e: nat)
    requires Going(rs, k)
    ensures Going(rs, e) && !Going(rs, e + 1)
    decreases |rs| - k
  {
    e := k;
    if Going(rs, k + 1) {
      e := Stops(rs, k + 1);
    }
  }

  /** For every sequence of reports: what a query makes of it, and exactly when. */
  lemma CollectIff(rs: seq<Received>, c: Collected)
    ensures Collect(rs, [], 0) == c <==> exists k: nat :: Going(rs, k) && !Going(rs, k + 1) && EndsWith(rs, k, c)
  {
    var e := Stops(rs, 0);
    EndIsRight(rs, e);
    forall k: nat | Going(rs, k) && !Going(rs, k + 1) && EndsWith(rs, k, c) ensures Collect(rs, [], 0) == c {
      EndIsRight(rs, k);
    }
  }

  // ---------------------------------------------------------------- the polling

  datatype Outcome = Ack(payload: bytes) | TooLong | NotSent | Unreadable(why: Collected) | Busy | Nack | Unexpected

  /** What happened, and every report the host wrote on the way. */
  datatype Run = Run(outcome: Outcome, sent: seq<bytes>)

  datatype Queried = Told(msg: bytes, taken: nat) | GivenUp(why: Outcome)

  /** What one query makes of the channel's answers, and what it writes. */
  function QueryOf(rs: seq<Received>, taking: seq<Written>, request: bytes): (q: Queried)
    ensures q.Told? ==> 0 < q.taken <= |rs|
  {
    if |request| > MAX_MSG then GivenUp(TooLong)
    else if FirstRefused(taking, 0, FrameCount(|request|)) < FrameCount(|request|) then GivenUp(NotSent)
    else
      var c := Collect(rs, [], 0);
      if c.Reply? then Told(c.msg, c.taken) else GivenUp(Unreadable(c))
  }

  function QueryWrites(taking: seq<Written>, request: bytes): seq<bytes> {
    if |request| > MAX_MSG then []
    else FramesOf(request)[..Min(FirstRefused(taking, 0, FrameCount(|request|)) + 1, FrameCount(|request|))]
  }

  /** A query, and retries for as long as the device is not ready; `sent` was written before. */
  function Poll(rs: seq<Received>, taking: seq<Written>, request: bytes, sent: seq<bytes>): (r: Run)
    decreases rs
  {
    var now := sent + QueryWrites(taking, request);
    match QueryOf(rs, taking, request)
    case GivenUp(why) => Run(why, now)
    case Told(msg, taken) =>
      if msg == [] || msg[0] > 3 then Run(Unexpected, now)
      else if msg[0] == 0 then Run(Ack(msg[1..]), now)
      else if msg[0] == 2 then Run(Busy, now)
      else if msg[0] == 3 then Run(Nack, now)
      else Poll(rs[taken..], Rest(taking, FrameCount(|request|)), [0x01], now)
  }

  class BitBoxHidLink {
    const channel: HidChannel

    constructor (channel: HidChannel)
      ensures this.channel == channel
    {
      this.channel := channel;
    }

    method Exchange(payload: bytes) returns (o: Outcome)
      modifies channel
      ensures Run(o, channel.sent)
           == Poll(old(channel.coming), old(channel.taking), [0x00] + payload, old(channel.sent))
    {
      var request := [0x00] + payload;
      ghost var goal := Poll(channel.coming, channel.taking, request, channel.sent);
      while true
        invariant goal == Poll(channel.coming, channel.taking, request, channel.sent)
        decreases |channel.coming|
      {
        var q := Query(request);
        if q.GivenUp? {
          return q.why;
        }
        var response := q.msg;
        if response == [] || response[0] > 3 {
          return Unexpected;
        } else if response[0] == 0 {
          return Ack(response[1..]);
        } else if response[0] == 2 {
          return Busy;
        } else if response[0] == 3 {
          return Nack;
        }
        request := [0x01];
      }
    }

    method Query(msg: bytes) returns (q: Queried)
      modifies channel
      ensures q == QueryOf(old(channel.coming), old(channel.taking), msg)
      ensures channel.sent == old(channel.sent) + QueryWrites(old(channel.taking), msg)
      ensures q.Told? ==>
                channel.coming == old(channel.coming)[q.taken..]
                && channel.taking == Rest(old(channel.taking), FrameCount(|msg|))
    {
      if |msg| > MAX_MSG {
        return GivenUp(TooLong);
      }
      var sent := SendFrames(msg);
      if !sent {
        return GivenUp(NotSent);
      }
      var c := ReadReply();
      q := if c.Reply? then Told(c.msg, c.taken) else GivenUp(Unreadable(c));
    }

    method SendFrames(msg: bytes) returns (ok: bool)
      requires |msg| <= MAX_MSG
      modifies channel`sent, channel`taking
      ensures var fs := FramesOf(msg); var j := FirstRefused(old(channel.taking), 0, |fs|);
              channel.sent == old(channel.sent) + fs[..Min(j + 1, |fs|)]
              && (ok <==> j == |fs|) && (ok ==> channel.taking == Rest(old(channel.taking), |fs|))
    {
      var encoded := Encode(msg);
      ghost var taking, fs := channel.taking, FramesOf(msg);
      var offset := 0;
      ghost var i := 0;
      while offset < encoded.Length
        invariant offset == 64 * i && i <= |fs|
        invariant encoded[..] == Encoded(msg)
        invariant channel.taking == Rest(taking, i)
        invariant channel.sent == old(channel.sent) + fs[..i]
        invariant FirstRefused(taking, 0, |fs|) == FirstRefused(taking, i, |fs|)
        decreases encoded.Length - offset
      {
        var frame := new u8[64](k requires 0 <= k < 64 && offset + 64 <= encoded.Length reads encoded => encoded[offset + k]);
        assert frame[..] == Encoded(msg)[64 * i..64 * i + 64] == fs[i];
        assert fs[..i] + [fs[i]] == fs[..i + 1];
        RestRest(taking, i, WriteThrows);
        var w := channel.Send(frame);
        if !w.Took? || WrapInt(w.count) < 64 {
          return false;
        }
        offset := offset + 64;
        i := i + 1;
      }
      ok := true;
    }

    method ReadReply() returns (c: Collected)
      modifies channel`coming
      ensures c == Collect(old(channel.coming), [], 0)
      ensures c.Reply? ==> channel.coming == old(channel.coming)[c.taken..]
    {
      ghost var coming := channel.coming;
      var buffer: bytes := [];
      var taken := 0;
      while true
        invariant taken <= |coming| && channel.coming == coming[taken..]
        invariant Collect(coming, [], 0) == Collect(coming[taken..], buffer, taken)
        decreases |channel.coming|
      {
        var r := channel.Receive();
        if r.ReadThrows? {
          return ChannelFailed;
        }
        if |r.data| != REPORT {
          return ShortReport;
        }
        buffer := buffer + r.data;
        taken := taken + 1;
        var whole := new u8[|buffer|](k requires 0 <= k < |buffer| => buffer[k]);
        assert whole[..] == buffer;
        var d := Decode(whole);
        if d.Whole? {
          return Reply(d.msg, taken);
        }
        if !d.More? {
          return BadFrame;
        }
      }
    }
  }

  /** What a device sends that answers "not ready" with each of `waits` and then the last message. */
  function Conversation(waits: seq<bytes>, last: bytes): seq<Received> {
    if waits == [] then AsReports(FramesOf(last))
    else AsReports(FramesOf(waits[0])) + Conversation(waits[1..], last)
  }

  /** The frames of the request, then as many one-byte retries as there were waits. */
  function Requests(request: bytes, waits: nat): seq<bytes>
    decreases waits
  {
    if waits == 0 then FramesOf(request) else FramesOf(request) + Requests([0x01], waits - 1)
  }

  /** What a reply other than "not ready" means: its first byte is the status. */
  predicate Means(reply: bytes, o: Outcome) {
    if reply == [] then o == Unexpected
    else if reply[0] == 0x00 then o == Ack(reply[1..])
    else if reply[0] == 0x02 then o == Busy
    else if reply[0] == 0x03 then o == Nack
    else reply[0] != 0x01 && o == Unexpected
  }

  /**
   A device that is not ready k times is asked k + 1 times, and what it says then decides:
   acknowledged, busy, refused, or not understood.
   */
  lemma {:induction false} PolledUntilReady(request: bytes, waits: seq<bytes>, last: bytes, more: seq<Received>,
                                            taking: seq<Written>, sent: seq<bytes>, o: Outcome)
    requires |request| <= MAX_MSG && |last| <= MAX_MSG && Means(last, o)
    requires AllWaits(waits) && |Requests(request, |waits|)| <= |taking| && AllWhole(taking)
    ensures Poll(Conversation(waits, last) + more, taking, request, sent) == Run(o, sent + Requests(request, |waits|))
    decreases |waits|
  {
    if waits == [] {
      PollsLast(request, last, more, taking, sent, o);
    } else {
      FirstWait(request, waits, last, more, sent);
      LaterPolls(waits, taking, FrameCount(|request|));
      PolledUntilReady([0x01], waits[1..], last, more, Rest(taking, FrameCount(|request|)), sent + FramesOf(request), o);
      WaitedOnce(request, waits, last, more, taking, sent, o);
    }
  }

  lemma WaitedOnce(request: bytes, waits: seq<bytes>, last: bytes, more: seq<Received>, taking: seq<Written>,
                   sent: seq<bytes>, o: Outcome)
    requires |request| <= MAX_MSG && waits != [] && AllWaits(waits)
    requires FrameCount(|request|) <= |taking| && AllWhole(taking)
    requires Poll(Conversation(waits[1..], last) + more, Rest(taking, FrameCount(|request|)), [0x01],
                  sent + FramesOf(request))
          == Run(o, (sent + FramesOf(request)) + Requests([0x01], |waits| - 1))
    ensures Poll(Conversation(waits, last) + more, taking, request, sent) == Run(o, sent + Requests(request, |waits|))
  {
    FirstWait(request, waits, last, more, sent);
    PollsAgain(request, waits[0], Conversation(waits[1..], last) + more, taking, sent);
  }

  lemma FirstWait(request: bytes, waits: seq<bytes>, last: bytes, more: seq<Received>, sent: seq<bytes>)
    requires waits != []
    ensures Conversation(waits, last) + more == AsReports(FramesOf(waits[0])) + (Conversation(waits[1..], last) + more)
    ensures sent + Requests(request, |waits|) == (sent + FramesOf(request)) + Requests([0x01], |waits| - 1)
    ensures |Requests(request, |waits|)| == FrameCount(|request|) + |Requests([0x01], |waits| - 1)|
  {
    Associate(AsReports(FramesOf(waits[0])), Conversation(waits[1..], last), more);
    Associate(sent, FramesOf(request), Requests([0x01], |waits| - 1));
  }

  predicate AllWaits(waits: seq<bytes>) {
    forall i :: 0 <= i < |waits| ==> 0 < |waits[i]| <= MAX_MSG && waits[i][0] == 0x01
  }

  lemma LaterPolls(waits: seq<bytes>, taking: seq<Written>, n: nat)
    requires waits != [] && AllWaits(waits) && AllWhole(taking) && n <= |taking|
    ensures AllWaits(waits[1..]) && AllWhole(Rest(taking, n)) && |Rest(taking, n)| == |taking| - n
  {
  }

  predicate AllWhole(taking: seq<Written>) {
    forall i :: 0 <= i < |taking| ==> TakesWhole(taking[i])
  }

  lemma PollsLast(request: bytes, last: bytes, more: seq<Received>, taking: seq<Written>, sent: seq<bytes>, o: Outcome)
    requires |request| <= MAX_MSG && |last| <= MAX_MSG && Means(last, o)
    requires FrameCount(|request|) <= |taking| && AllWhole(taking)
    ensures Poll(AsReports(FramesOf(last)) + more, taking, request, sent) == Run(o, sent + FramesOf(request))
  {
    CollectsMessage(last, more);
    assert QueryWrites(taking, request) == FramesOf(request);
  }

  /** One answer "not ready" leads to one retry, with the device's next answer ahead. */
  lemma PollsAgain(request: bytes, wait: bytes, rest: seq<Received>, taking: seq<Written>, sent: seq<bytes>)
    requires |request| <= MAX_MSG && 0 < |wait| <= MAX_MSG && wait[0] == 0x01
    requires FrameCount(|request|) <= |taking| && AllWhole(taking)
    ensures Poll(AsReports(FramesOf(wait)) + rest, taking, request, sent)
         == Poll(rest, Rest(taking, FrameCount(|request|)), [0x01], sent + FramesOf(request))
  {
    var now := AsReports(FramesOf(wait));
    CollectsMessage(wait, rest);
    assert (now + rest)[|now|..] == rest;
    assert QueryWrites(taking, request) == FramesOf(request);
  }
}
