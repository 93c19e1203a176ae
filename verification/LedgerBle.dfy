/**
 Ledger APDUs over BLE: frames of tag 5, a 16-bit sequence number and, in the first frame, a
 16-bit total length. The frame size is asked for once and remembered.
 */
module LedgerBle {
  import opened Bytes
  import opened HidChannels

  const TAG_APDU: u8 := 0x05
  const TAG_MTU: u8 := 0x08
  const MIN_MTU := 20
  const MTU_ATTEMPTS := 8

  /** One notification, or the exception the channel throws instead. */
  datatype Note = Notified(frame: bytes) | ReadThrows

  datatype Outcome =
    | Answer(apdu: bytes, taken: nat)
    | ChannelFailed
    | NoMtuAnswer
    | TooLong
    | OutOfOrder
    | MissingLength

  // ------------------------------------------------------------------ frames

  function FrameHeader(total: nat, i: nat): (h: bytes)
    ensures |h| == if i == 0 then 5 else 3
    ensures h[0] == TAG_APDU && Be16(h, 1) == i % 0x1_0000
    ensures i == 0 ==> Be16(h, 3) == total % 0x1_0000
  {
    [TAG_APDU] + Low16(i) + if i == 0 then Low16(total) else []
  }

  function TakeOf(payload: bytes, size: nat, offset: nat, i: nat): (take: nat)
    requires size >= MIN_MTU && offset <= |payload|
    ensures offset + take <= |payload|
    ensures offset < |payload| ==> take > 0
  {
    Min(size - |FrameHeader(|payload|, i)|, |payload| - offset)
  }

  function FrameOf(payload: bytes, size: nat, offset: nat, i: nat): (f: bytes)
    requires size >= MIN_MTU && offset <= |payload|
    ensures |f| <= size
    ensures |f| == |FrameHeader(|payload|, i)| + TakeOf(payload, size, offset, i)
  {
    FrameHeader(|payload|, i) + payload[offset..offset + TakeOf(payload, size, offset, i)]
  }

  /** Frame `i` and the ones behind it; an empty APDU still has a first frame. */
  function Frames(payload: bytes, size: nat, offset: nat, i: nat): (fs: seq<bytes>)
    requires size >= MIN_MTU && offset <= |payload|
    ensures |fs| <= |payload| - offset + if i == 0 then 1 else 0
    decreases |payload| - offset, i == 0
  {
    if offset == |payload| && i != 0 then []
    else
      var next := offset + TakeOf(payload, size, offset, i);
      [FrameOf(payload, size, offset, i)] + Frames(payload, size, next, i + 1)
  }

  // ------------------------------------------------------------------ replies

  predicate IsApdu(n: Note) {
    n.Notified? && |n.frame| >= 3 && n.frame[0] == TAG_APDU
  }

  /** The read loop: `taken` notifications consumed, `answer` of `expected` bytes there. */
  function Decode(ns: seq<Note>, answer: bytes, expected: nat, want: nat, taken: nat): Outcome
    requires if want == 0 then answer == [] else |answer| < expected
    decreases ns
  {
    if ns == [] || ns[0].ReadThrows? then ChannelFailed
    else if !IsApdu(ns[0]) then Decode(ns[1..], answer, expected, want, taken + 1)
    else
      var frame := ns[0].frame;
      if Be16(frame, 1) != want then OutOfOrder
      else if want == 0 && |frame| < 5 then MissingLength
      else
        var total := if want == 0 then Be16(frame, 3) else expected;
        var from := if want == 0 then 5 else 3;
        var grown := answer + frame[from..from + Min(|frame| - from, total - |answer|)];
        if |grown| >= total then Answer(grown, taken + 1)
        else Decode(ns[1..], grown, total, want + 1, taken + 1)
  }

  datatype Mtu = Known(size: nat, taken: nat) | Unanswered(taken: nat) | Broken

  /** The reads that wait for the size answer. */
  function Infer(ns: seq<Note>, attempts: nat, taken: nat): (m: Mtu)
    ensures m.Known? ==> m.size < 0x100 && taken < m.taken <= taken + |ns|
    ensures m.Unanswered? ==> m.taken <= taken + |ns|
    decreases attempts
  {
    if attempts == 0 then Unanswered(taken)
    else if ns == [] || ns[0].ReadThrows? then Broken
    else
      var frame := ns[0].frame;
      if frame != [] && frame[0] == TAG_MTU then Known(if |frame| > 5 then frame[5] else MIN_MTU, taken + 1)
      else Infer(ns[1..], attempts - 1, taken + 1)
  }

  /** The tighter of the device's and the platform's bound, but never below 20. */
  function FrameSizeOf(answered: nat, mtu: nat): (size: nat)
    ensures size >= 20 && (size == 20 || size == answered || size == mtu)
    ensures size > 20 ==> size <= answered && size <= mtu
  {
    var tighter := Min(answered, mtu);
    if tighter < MIN_MTU then MIN_MTU else tighter
  }

  /** What asking for the frame size comes to: the question may throw, and then at most eight answers are read. */
  function Asked(taking: seq<bool>, ns: seq<Note>, mtu: nat): (m: Mtu) {
    if !Next(taking, 0, false) then Broken
    else
      var i := Infer(ns, MTU_ATTEMPTS, 0);
      if i.Known? then i.(size := FrameSizeOf(i.size, mtu)) else i
  }

  // ------------------------------------------------------------------ the link

  /** A characteristic pair; it takes as many writes as it has `true` left to say. */
  class BleChannel {
    var written: seq<bytes>
    var taking: seq<bool>
    var coming: seq<Note>
    const mtu: nat

    constructor (taking: seq<bool>, coming: seq<Note>, mtu: nat)
      ensures written == [] && this.taking == taking && this.coming == coming && this.mtu == mtu
    {
      written := [];
      this.taking := taking;
      this.coming := coming;
      this.mtu := mtu;
    }

    method Write(data: bytes) returns (ok: bool)
      modifies this`written, this`taking
      ensures written == old(written) + [data]
      ensures ok == Next(old(taking), 0, false) && taking == Rest(old(taking), 1)
    {
      written := written + [data];
      ok := Next(taking, 0, false);
      taking := Rest(taking, 1);
    }

    method Read() returns (n: Note)
      modifies this`coming
      ensures n == Next(old(coming), 0, Note.ReadThrows) && coming == Rest(old(coming), 1)
    {
      n := Next(coming, 0, Note.ReadThrows);
      coming := Rest(coming, 1);
    }
  }

  /** The first of `n` writes that throws; `n` if none does. */
  function FirstThrown(taking: seq<bool>, k: nat, n: nat): (j: nat)
    requires k <= n
    ensures k <= j <= n
    ensures forall i :: k <= i < j ==> Next(taking, i, false)
    ensures j < n ==> !Next(taking, j, false)
    decreases n - k
  {
    if k == n || !Next(taking, k, false) then k else FirstThrown(taking, k + 1, n)
  }

  class LedgerBleLink {
    const channel: BleChannel
    var frameSize: Option<nat>

    predicate Valid()
      reads this`frameSize
    {
      frameSize.Some? ==> MIN_MTU <= frameSize.value < 0x100
    }

    constructor (channel: BleChannel)
      ensures this.channel == channel && frameSize == None && Valid()
    {
      this.channel := channel;
      frameSize := None;
    }

    method Exchange(payload: bytes) returns (o: Outcome)
      requires Valid()
      modifies channel, this`frameSize
      ensures Valid()
      ensures old(frameSize).Some? ==> frameSize == old(frameSize)
      ensures old(frameSize).None? ==>
                var m := Asked(old(channel.taking), old(channel.coming), channel.mtu);
                (frameSize == if m.Known? then Some(m.size) else None)
                && (!m.Known? ==> o == if m.Broken? then ChannelFailed else NoMtuAnswer)
      ensures frameSize.None? || |payload| > 0xffff ==>
                (frameSize.Some? ==> o == TooLong)
                && channel.written == old(channel.written)
                                      + if old(frameSize).None? then [[TAG_MTU, 0, 0, 0, 0]] else []
      ensures old(frameSize).Some? && |payload| <= 0xffff ==>
                var fs := Frames(payload, old(frameSize).value, 0, 0);
                var j := FirstThrown(old(channel.taking), 0, |fs|);
                channel.written == old(channel.written) + fs[..Min(j + 1, |fs|)]
                && o == if j < |fs| then ChannelFailed else Decode(old(channel.coming), [], 0, 0, 0)
      ensures old(frameSize).None? && frameSize.Some? && |payload| <= 0xffff ==>
                var m := Infer(old(channel.coming), MTU_ATTEMPTS, 0);
                m.Known? && frameSize == Some(FrameSizeOf(m.size, channel.mtu)) &&
                var fs := Frames(payload, frameSize.value, 0, 0);
                var j := FirstThrown(Rest(old(channel.taking), 1), 0, |fs|);
                channel.written == old(channel.written) + [[TAG_MTU, 0, 0, 0, 0]] + fs[..Min(j + 1, |fs|)]
                && o == if j < |fs| then ChannelFailed else Decode(Rest(old(channel.coming), m.taken), [], 0, 0, 0)
    {
      var size := FrameSize();
      if !size.Known? {
        return if size.Broken? then ChannelFailed else NoMtuAnswer;
      }
      if |payload| > 0xffff {
        return TooLong;
      }
      var sent := WriteFrames(payload, size.size);
      if !sent {
        return ChannelFailed;
      }
      o := ReadAnswer();
    }

    /** Asks for the frame size on the first call only. */
    method FrameSize() returns (m: Mtu)
      requires Valid()
      modifies channel, this`frameSize
      ensures Valid()
      ensures m.Known? <==> frameSize.Some?
      ensures m.Known? ==> frameSize == Some(m.size)
      ensures old(frameSize).Some? ==>
                frameSize == old(frameSize) && channel.written == old(channel.written)
                && channel.taking == old(channel.taking) && channel.coming == old(channel.coming)
      ensures old(frameSize).None? ==>
                channel.written == old(channel.written) + [[TAG_MTU, 0, 0, 0, 0]]
                && m == Asked(old(channel.taking), old(channel.coming), channel.mtu)
      ensures old(frameSize).None? && m.Known? ==>
                channel.taking == Rest(old(channel.taking), 1)
                && channel.coming == Rest(old(channel.coming), m.taken)
    {
      if frameSize.Some? {
        return Known(frameSize.value, 0);
      }
      var ok := channel.Write([TAG_MTU, 0, 0, 0, 0]);
      if !ok {
        return Broken;
      }
      m := InferMtu();
      if m.Known? {
        m := m.(size := FrameSizeOf(m.size, channel.mtu));
        frameSize := Some(m.size);
      }
    }

    method InferMtu() returns (m: Mtu)
      modifies channel`coming
      ensures m == Infer(old(channel.coming), MTU_ATTEMPTS, 0)
      ensures m.Known? ==> channel.coming == Rest(old(channel.coming), m.taken)
    {
      ghost var coming := channel.coming;
      var attempt := 0;
      while attempt < MTU_ATTEMPTS
        invariant attempt <= MTU_ATTEMPTS && attempt <= |coming| && channel.coming == coming[attempt..]
        invariant Infer(coming, MTU_ATTEMPTS, 0) == Infer(coming[attempt..], MTU_ATTEMPTS - attempt, attempt)
      {
        var n := channel.Read();
        if n.ReadThrows? {
          return Broken;
        }
        if n.frame != [] && n.frame[0] == TAG_MTU {
          return Known(if |n.frame| > 5 then n.frame[5] else MIN_MTU, attempt + 1);
        }
        attempt := attempt + 1;
      }
      m := Unanswered(attempt);
    }

    method WriteFrames(payload: bytes, size: nat) returns (ok: bool)
      requires size >= MIN_MTU && |payload| <= 0xffff
      modifies channel`written, channel`taking
      ensures var fs := Frames(payload, size, 0, 0); var j := FirstThrown(old(channel.taking), 0, |fs|);
              channel.written == old(channel.written) + fs[..Min(j + 1, |fs|)] && (ok <==> j == |fs|)
    {
      ghost var taking, was, fs := channel.taking, channel.written, Frames(payload, size, 0, 0);
      var i, offset := 0, 0;
      while offset < |payload| || i == 0
        invariant i <= |fs| && offset <= |payload|
        invariant fs[i..] == Frames(payload, size, offset, i)
        invariant channel.taking == Rest(taking, i)
        invariant channel.written == was + fs[..i]
        invariant FirstThrown(taking, 0, |fs|) == FirstThrown(taking, i, |fs|)
        decreases |payload| - offset, i == 0
      {
        var take, frame := MakeFrame(payload, size, offset, i);
        RestRest(taking, i, false);
        OneFrameMore(fs, i, frame, Frames(payload, size, offset + take, i + 1), was);
        ok := channel.Write(frame);
        if !ok {
          return;
        }
        offset := offset + take;
        i := i + 1;
      }
      ok := true;
    }

    method MakeFrame(payload: bytes, size: nat, offset: nat, i: nat) returns (take: nat, frame: bytes)
      requires size >= MIN_MTU && offset <= |payload| <= 0xffff
      ensures take == TakeOf(payload, size, offset, i) && frame == FrameOf(payload, size, offset, i)
    {
      var header := if i == 0 then 5 else 3;
      take := Min(size - header, |payload| - offset);
      frame := [TAG_APDU, i / 0x100 % 0x100, i % 0x100]
             + (if i == 0 then [|payload| / 0x100 % 0x100, |payload| % 0x100] else [])
             + payload[offset..offset + take];
    }

    method ReadAnswer() returns (o: Outcome)
      modifies channel`coming
      ensures o == Decode(old(channel.coming), [], 0, 0, 0)
    {
      ghost var coming := channel.coming;
      var answer: bytes := [];
      var expected, want, taken := 0, 0, 0;
      while true
        invariant 0 <= expected && 0 <= want && taken <= |coming| && channel.coming == coming[taken..]
        invariant if want == 0 then answer == [] else |answer| < expected
        invariant Decode(coming, [], 0, 0, 0) == Decode(coming[taken..], answer, expected, want, taken)
        decreases |channel.coming|
      {
        var n := channel.Read();
        if n.ReadThrows? {
          return ChannelFailed;
        }
        taken := taken + 1;
        var frame := n.frame;
        if |frame| < 3 || frame[0] != TAG_APDU {
          continue;
        }
        var index := Be16(frame, 1);
        if index != want {
          return OutOfOrder;
        }
        var from := 3;
        if index == 0 {
          if |frame| < 5 {
            return MissingLength;
          }
          expected := Be16(frame, 3);
          from := 5;
        }
        answer := answer + frame[from..from + Min(|frame| - from, expected - |answer|)];
        if |answer| >= expected {
          return Answer(answer, taken);
        }
        want := want + 1;
      }
    }
  }

  lemma OneFrameMore(fs: seq<bytes>, i: nat, frame: bytes, rest: seq<bytes>, was: seq<bytes>)
    requires i <= |fs| && fs[i..] == [frame] + rest
    ensures i < |fs| && fs[i + 1..] == rest && was + fs[..i] + [frame] == was + fs[..i + 1]
  {
  }

  // ------------------------------------------------------------- the promises

  /** The notifications that are APDU traffic. */
  function Apdus(ns: seq<Note>): seq<bytes> {
    if ns == [] then []
    else (if ns[0].Notified? && Tagged(ns[0].frame) then [ns[0].frame] else []) + Apdus(ns[1..])
  }

  /** At least tag and number, and the tag is 5. */
  predicate Tagged(frame: bytes) {
    3 <= |frame| && frame[0] == 0x05
  }

  predicate NeverThrows(ns: seq<Note>) {
    forall i :: 0 <= i < |ns| ==> ns[i].Notified?
  }

  /** How many notifications it takes to see `m` APDU frames. */
  function Through(ns: seq<Note>, m: nat): (k: nat)
    ensures m > 0 && ns != [] ==> k > 0
    ensures k <= |ns|
  {
    if m == 0 || ns == [] then 0 else 1 + Through(ns[1..], if IsApdu(ns[0]) then m - 1 else m)
  }

  lemma {:induction false} ThroughIs(ns: seq<Note>, m: nat)
    requires 0 < m <= |Apdus(ns)|
    ensures var k := Through(ns, m); 0 < k <= |ns| && IsApdu(ns[k - 1]) && Apdus(ns[..k]) == Apdus(ns)[..m]
    decreases ns
  {
    var k, n := Through(ns, m), if IsApdu(ns[0]) then m - 1 else m;
    ApdusTake(ns, k);
    if n > 0 {
      ThroughIs(ns[1..], n);
    }
  }

  /**
   Frames of an APDU among any other notifications read back as the APDU, and the reading
   stops right behind the last frame.
   */
  lemma RoundTrip(payload: bytes, size: nat, ns: seq<Note>, more: seq<bytes>) returns (k: nat)
    requires size >= MIN_MTU && |payload| <= 0xffff
    requires Apdus(ns) == Frames(payload, size, 0, 0) + more
    requires NeverThrows(ns[..Through(ns, |Frames(payload, size, 0, 0)|)])
    ensures 0 < k <= |ns| && Decode(ns, [], 0, 0, 0) == Answer(payload, k)
    ensures Apdus(ns[..k]) == Frames(payload, size, 0, 0) && IsApdu(ns[k - 1])
  {
    var m := |Frames(payload, size, 0, 0)|;
    k := Through(ns, m);
    ReadableIs(ns, m);
    RoundTripFrom(payload, size, 0, 0, ns, more, 0);
    ThroughIs(ns, m);
  }

  lemma {:induction false} RoundTripFrom(payload: bytes, size: nat, offset: nat, i: nat, ns: seq<Note>,
                                         more: seq<bytes>, taken: nat)
    requires size >= MIN_MTU && |payload| <= 0xffff
    requires if i == 0 then offset == 0 else i <= offset < |payload|
    requires Apdus(ns) == Frames(payload, size, offset, i) + more
    requires Readable(ns, |Frames(payload, size, offset, i)|)
    ensures Decode(ns, payload[..offset], if i == 0 then 0 else |payload|, i, taken)
         == Answer(payload, taken + Through(ns, |Frames(payload, size, offset, i)|))
    decreases |ns|
  {
    var next := offset + TakeOf(payload, size, offset, i);
    var frame, rest := FrameOf(payload, size, offset, i), Frames(payload, size, next, i + 1);
    assert ([frame] + rest) + more == [frame] + (rest + more);
    ApdusHead(ns, frame, rest + more);
    if !IsApdu(ns[0]) {
      RoundTripFrom(payload, size, offset, i, ns[1..], more, taken + 1);
    } else {
      FrameStep(payload, size, offset, i, ns, taken);
      if next < |payload| {
        RoundTripFrom(payload, size, next, i + 1, ns[1..], more, taken + 1);
      }
    }
  }

  /** No read fails before `m` APDU frames have been seen. */
  predicate Readable(ns: seq<Note>, m: nat) {
    m == 0 || (ns != [] && ns[0].Notified? && Readable(ns[1..], if IsApdu(ns[0]) then m - 1 else m))
  }

  lemma {:induction false} ReadableIs(ns: seq<Note>, m: nat)
    requires m <= |Apdus(ns)| && NeverThrows(ns[..Through(ns, m)])
    ensures Readable(ns, m)
    decreases ns
  {
    if m > 0 {
      var k := Through(ns, m);
      assert ns[..k][0] == ns[0] && ns[..k][1..] == ns[1..][..k - 1];
      assert forall i :: 0 <= i < k - 1 ==> ns[..k][1..][i] == ns[..k][i + 1];
      ReadableIs(ns[1..], if IsApdu(ns[0]) then m - 1 else m);
    }
  }

  /** One frame takes the reader from the bytes before it to those with it. */
  lemma FrameStep(payload: bytes, size: nat, offset: nat, i: nat, ns: seq<Note>, taken: nat)
    requires size >= MIN_MTU && |payload| <= 0xffff && ns != [] && IsApdu(ns[0])
    requires if i == 0 then offset == 0 else i <= offset < |payload|
    requires ns[0].frame == FrameOf(payload, size, offset, i)
    ensures Decode(ns, payload[..offset], if i == 0 then 0 else |payload|, i, taken)
         == var next := offset + TakeOf(payload, size, offset, i);
            if next == |payload| then Answer(payload, taken + 1)
            else Decode(ns[1..], payload[..next], |payload|, i + 1, taken + 1)
  {
    var next := offset + TakeOf(payload, size, offset, i);
    FrameReads(payload, size, offset, i);
    DecodeFrame(ns, payload[..offset], if i == 0 then 0 else |payload|, i, taken, |payload|, payload[..next]);
    assert next == |payload| ==> payload[..next] == payload;
  }

  lemma ApdusHead(ns: seq<Note>, frame: bytes, tail: seq<bytes>)
    requires Apdus(ns) == [frame] + tail
    ensures ns != []
    ensures if IsApdu(ns[0]) then ns[0].frame == frame && Apdus(ns[1..]) == tail
            else Apdus(ns[1..]) == [frame] + tail
  {
    if IsApdu(ns[0]) {
      SameHeadSameTail(ns[0].frame, Apdus(ns[1..]), frame, tail);
    }
  }

  lemma SameHeadSameTail(x: bytes, s: seq<bytes>, y: bytes, t: seq<bytes>)
    requires [x] + s == [y] + t
    ensures x == y && s == t
  {
    assert ([x] + s)[0] == x && ([x] + s)[1..] == s;
    assert ([y] + t)[0] == y && ([y] + t)[1..] == t;
  }

  lemma ApdusTake(ns: seq<Note>, k: nat)
    requires 0 < k <= |ns|
    ensures var rest := Apdus(ns[1..][..k - 1]);
            Apdus(ns[..k]) == if IsApdu(ns[0]) then [ns[0].frame] + rest else rest
  {
    assert ns[..k][1..] == ns[1..][..k - 1];
  }

  lemma DecodeFrame(ns: seq<Note>, answer: bytes, expected: nat, want: nat, taken: nat, total: nat, grown: bytes)
    requires if want == 0 then answer == [] else |answer| < expected
    requires ns != [] && IsApdu(ns[0]) && Be16(ns[0].frame, 1) == want
    requires |ns[0].frame| >= if want == 0 then 5 else 3
    requires total == if want == 0 then Be16(ns[0].frame, 3) else expected
    requires var f, from := ns[0].frame, if want == 0 then 5 else 3;
             grown == answer + f[from..from + Min(|f| - from, total - |answer|)]
    ensures Decode(ns, answer, expected, want, taken)
         == if |grown| >= total then Answer(grown, taken + 1) else Decode(ns[1..], grown, total, want + 1, taken + 1)
  {
  }

  /** What one frame shows the reader. */
  lemma FrameReads(payload: bytes, size: nat, offset: nat, i: nat)
    requires size >= MIN_MTU && |payload| <= 0xffff
    requires if i == 0 then offset == 0 else i <= offset < |payload|
    ensures var f := FrameOf(payload, size, offset, i); var from := if i == 0 then 5 else 3;
            |f| >= from && f[0] == TAG_APDU && Be16(f, 1) == i && (i == 0 ==> Be16(f, 3) == |payload|)
            && payload[..offset] + f[from..from + Min(|f| - from, |payload| - offset)]
               == payload[..offset + TakeOf(payload, size, offset, i)]
  {
    var f, h := FrameOf(payload, size, offset, i), FrameHeader(|payload|, i);
    assert f[..|h|] == h;
    assert f[0] == h[0] && f[1] == h[1] && f[2] == h[2];
    if i == 0 {
      assert f[3] == h[3] && f[4] == h[4];
    }
    assert f[|h|..] == payload[offset..offset + TakeOf(payload, size, offset, i)];
  }

  // ------------------------------------------------ what any device can achieve

  /** Frames numbered 0, 1, 2 and so on, the first with its length field. */
  predicate InOrder(fs: seq<bytes>) {
    (forall k :: 0 <= k < |fs| ==> Tagged(fs[k]) && Be16(fs[k], 1) == k)
    && (fs != [] ==> |fs[0]| >= 5)
  }

  /** What the frames carry behind their headers. */
  function Bodies(fs: seq<bytes>): bytes
    requires InOrder(fs)
  {
    if fs == [] then []
    else Bodies(fs[..|fs| - 1]) + fs[|fs| - 1][if |fs| == 1 then 5 else 3..]
  }

  /** The length the first frame announces. */
  function Total(fs: seq<bytes>): nat
    requires InOrder(fs)
  {
    if fs == [] then 0 else Be16(fs[0], 3)
  }

  predicate Enough(fs: seq<bytes>)
    requires InOrder(fs)
  {
    fs != [] && |Bodies(fs)| >= Total(fs)
  }

  /** The first `k` notifications were read, their frames are in order, and more is needed. */
  predicate Going(ns: seq<Note>, k: nat) {
    k <= |ns| && NeverThrows(ns[..k]) && InOrder(Apdus(ns[..k])) && !Enough(Apdus(ns[..k]))
  }

  /** What happens at notification `k`, when the reader gets there. */
  predicate EndsWith(ns: seq<Note>, k: nat, o: Outcome)
    requires k <= |ns|
  {
    var fs := Apdus(ns[..k]);
    if k == |ns| || ns[k].ReadThrows? then o == ChannelFailed
    else
      var f := ns[k].frame;
      Tagged(f) &&
      if Be16(f, 1) != |fs| then o == OutOfOrder
      else if fs == [] && |f| < 5 then o == MissingLength
      else InOrder(fs + [f]) && Enough(fs + [f]) && o == Answer(Bodies(fs + [f])[..Total(fs + [f])], k + 1)
  }

  lemma {:induction false} ApdusGrow(ns: seq<Note>, k: nat)
    requires k < |ns|
    ensures ns[k].Notified? && Tagged(ns[k].frame) ==> Apdus(ns[..k + 1]) == Apdus(ns[..k]) + [ns[k].frame]
    ensures !(ns[k].Notified? && Tagged(ns[k].frame)) ==> Apdus(ns[..k + 1]) == Apdus(ns[..k])
    decreases k
  {
    if k > 0 {
      ApdusGrow(ns[1..], k - 1);
      assert ns[..k + 1][1..] == ns[1..][..k] && ns[..k][1..] == ns[1..][..k - 1];
    }
  }

  lemma OneBodyMore(fs: seq<bytes>, f: bytes)
    requires InOrder(fs + [f])
    ensures InOrder(fs) && |f| >= (if fs == [] then 5 else 3)
            && Bodies(fs + [f]) == Bodies(fs) + f[if fs == [] then 5 else 3..]
    ensures fs != [] ==> Total(fs + [f]) == Total(fs)
    ensures Enough(fs) ==> Enough(fs + [f])
  {
    var all := fs + [f];
    assert all[..|all| - 1] == fs && all[|all| - 1] == f && (fs == [] ==> all[0] == f);
    assert forall k :: 0 <= k < |fs| ==> fs[k] == all[k];
  }

  /** One notification more, and the reader is still going. */
  lemma GoingBefore(ns: seq<Note>, k: nat)
    requires Going(ns, k + 1)
    ensures Going(ns, k) && ns[k].Notified?
    ensures Tagged(ns[k].frame) ==> InOrder(Apdus(ns[..k]) + [ns[k].frame]) && !Enough(Apdus(ns[..k]) + [ns[k].frame])
  {
    ApdusGrow(ns, k);
    assert ns[..k + 1][k] == ns[k];
    assert forall i :: 0 <= i < k ==> ns[..k][i] == ns[..k + 1][i];
    if Tagged(ns[k].frame) {
      OneBodyMore(Apdus(ns[..k]), ns[k].frame);
    }
  }

  /** Where the reader stands after `k` notifications. */
  lemma {:induction false} DecodeAfter(ns: seq<Note>, k: nat)
    requires Going(ns, k)
    ensures var fs := Apdus(ns[..k]);
            Decode(ns, [], 0, 0, 0) == Decode(ns[k..], Bodies(fs), Total(fs), |fs|, k)
    decreases k
  {
    if k == 0 {
      assert ns[0..] == ns;
    } else {
      GoingBefore(ns, k - 1);
      DecodeAfter(ns, k - 1);
      OneNoteMore(ns, k - 1);
    }
  }

  lemma OneNoteMore(ns: seq<Note>, k: nat)
    requires Going(ns, k + 1)
    ensures Going(ns, k)
    ensures var fs, all := Apdus(ns[..k]), Apdus(ns[..k + 1]);
            Decode(ns[k..], Bodies(fs), Total(fs), |fs|, k) == Decode(ns[k + 1..], Bodies(all), Total(all), |all|, k + 1)
  {
    GoingBefore(ns, k);
    ApdusGrow(ns, k);
    assert ns[k..][0] == ns[k] && ns[k..][1..] == ns[k + 1..];
    if Tagged(ns[k].frame) {
      TakesBody(ns[k..], Apdus(ns[..k]), ns[k].frame, k);
    }
  }

  /** A frame in order goes in whole, or up to the announced length. */
  lemma TakesBody(ns: seq<Note>, fs: seq<bytes>, f: bytes, taken: nat)
    requires ns != [] && ns[0] == Notified(f) && InOrder(fs) && !Enough(fs) && InOrder(fs + [f])
    ensures Decode(ns, Bodies(fs), Total(fs), |fs|, taken)
         == if Enough(fs + [f]) then Answer(Bodies(fs + [f])[..Total(fs + [f])], taken + 1)
            else Decode(ns[1..], Bodies(fs + [f]), Total(fs + [f]), |fs| + 1, taken + 1)
  {
    var total, from := Total(fs + [f]), if fs == [] then 5 else 3;
    assert (fs + [f])[|fs|] == f && (fs + [f])[0] == if fs == [] then f else fs[0];
    OneBodyMore(fs, f);
    var part := f[from..from + Min(|f| - from, total - |Bodies(fs)|)];
    CutJoin(Bodies(fs), f[from..], total);
    assert part == f[from..][..|part|];
    DecodeFrame(ns, Bodies(fs), Total(fs), |fs|, taken, total, Bodies(fs) + part);
  }

  /** Notification `k` ends the reading. */
  predicate Final(ns: seq<Note>, k: nat)
    requires Going(ns, k)
  {
    k == |ns| || ns[k].ReadThrows?
    || (Tagged(ns[k].frame) &&
        var fs, f := Apdus(ns[..k]), ns[k].frame;
        Be16(f, 1) != |fs| || (fs == [] && |f| < 5) || (InOrder(fs + [f]) && Enough(fs + [f])))
  }

  lemma GoesOn(ns: seq<Note>, k: nat)
    requires Going(ns, k) && !Final(ns, k)
    ensures Going(ns, k + 1)
  {
    ApdusGrow(ns, k);
    assert ns[..k + 1] == ns[..k] + [ns[k]];
    if Tagged(ns[k].frame) {
      InOrderGrows(Apdus(ns[..k]), ns[k].frame);
    }
  }

  lemma InOrderGrows(fs: seq<bytes>, f: bytes)
    requires InOrder(fs) && Tagged(f) && Be16(f, 1) == |fs| && (fs == [] ==> |f| >= 5)
    ensures InOrder(fs + [f])
  {
  }

  /** The reader stops somewhere. */
  lemma {:induction false} Stops(ns: seq<Note>, k: nat) returns (e: nat)
    requires Going(ns, k)
    ensures Going(ns, e) && Final(ns, e)
    decreases |ns| - k
  {
    e := k;
    if !Final(ns, k) {
      GoesOn(ns, k);
      e := Stops(ns, k + 1);
    }
  }

  lemma EndIsRight(ns: seq<Note>, k: nat)
    requires Going(ns, k) && Final(ns, k)
    ensures EndsWith(ns, k, Decode(ns, [], 0, 0, 0))
  {
    DecodeAfter(ns, k);
    if k < |ns| {
      assert ns[k..][0] == ns[k];
      if ns[k].Notified? {
        var fs, f := Apdus(ns[..k]), ns[k].frame;
        if Be16(f, 1) == |fs| && (fs != [] || |f| >= 5) {
          TakesBody(ns[k..], fs, f, k);
        }
      }
    }
  }

  /**
   For every sequence of notifications: what comes of it, and exactly when. An answer comes at
   the frame that completes the announced length, if the frames up to it are numbered 0, 1, 2
   and so on; it is their bodies joined and cut to that length.
   */
  lemma OutcomeIff(ns: seq<Note>, o: Outcome)
    ensures Decode(ns, [], 0, 0, 0) == o <==> exists k: nat :: Going(ns, k) && EndsWith(ns, k, o)
  {
    var e := Stops(ns, 0);
    EndIsRight(ns, e);
    forall k: nat | Going(ns, k) && EndsWith(ns, k, o) ensures Decode(ns, [], 0, 0, 0) == o {
      EndIsRight(ns, k);
    }
  }

  /** What happens at notification `k` while waiting for the frame size, if none before it has tag 8. */
  predicate InferEnds(ns: seq<Note>, k: nat, m: Mtu) {
    NoMtuYet(ns, k) &&
    if k == 8 then m == Unanswered(8)
    else if k == |ns| || ns[k].ReadThrows? then m == Broken
    else AnswersMtu(ns[k].frame) && m == Known(if |ns[k].frame| > 5 then ns[k].frame[5] else 20, k + 1)
  }

  predicate NoMtuYet(ns: seq<Note>, k: nat) {
    k <= 8 && k <= |ns| && forall i :: 0 <= i < k ==> ns[i].Notified? && !AnswersMtu(ns[i].frame)
  }

  /** The frame size comes from the first of eight notifications with tag 8: its sixth byte, or 20 if it has none. */
  lemma InferIff(ns: seq<Note>, m: Mtu)
    ensures Infer(ns, 8, 0) == m <==> exists k: nat :: InferEnds(ns, k, m)
  {
    var e := InferStops(ns, 0);
    InferFrom(ns, e);
    assert InferEnds(ns, e, Infer(ns, 8, 0));
    forall k: nat | InferEnds(ns, k, m) ensures Infer(ns, 8, 0) == m {
      InferFrom(ns, k);
    }
  }

  predicate AnswersMtu(frame: bytes) {
    frame != [] && frame[0] == 0x08
  }

  lemma {:induction false} InferFrom(ns: seq<Note>, k: nat)
    requires NoMtuYet(ns, k)
    ensures Infer(ns, 8, 0) == Infer(ns[k..], 8 - k, k)
    decreases k
  {
    if k == 0 {
      assert ns[0..] == ns;
    } else {
      InferFrom(ns, k - 1);
      assert ns[k - 1..][0] == ns[k - 1] && ns[k - 1..][1..] == ns[k..];
    }
  }

  lemma {:induction false} InferStops(ns: seq<Note>, k: nat) returns (e: nat)
    requires NoMtuYet(ns, k)
    ensures NoMtuYet(ns, e)
    ensures e == 8 || e == |ns| || ns[e].ReadThrows? || AnswersMtu(ns[e].frame)
    decreases 8 - k
  {
    e := k;
    if k < 8 && k < |ns| && ns[k].Notified? && !AnswersMtu(ns[k].frame) {
      e := InferStops(ns, k + 1);
    }
  }

  /** Every frame but the last is as long as the frame size allows. */
  lemma {:induction false} FramesAreFull(payload: bytes, size: nat, offset: nat, i: nat, k: nat)
    requires size >= MIN_MTU && offset <= |payload| && k + 1 < |Frames(payload, size, offset, i)|
    ensures |Frames(payload, size, offset, i)[k]| == size
    decreases k
  {
    var next := offset + TakeOf(payload, size, offset, i);
    if k > 0 {
      FramesAreFull(payload, size, next, i + 1, k - 1);
    }
  }

  /** Every frame is APDU traffic and fits the frame size. */
  lemma {:induction false} FramesFit(payload: bytes, size: nat, offset: nat, i: nat, k: nat)
    requires size >= MIN_MTU && offset <= |payload| && k < |Frames(payload, size, offset, i)|
    ensures var f := Frames(payload, size, offset, i)[k]; IsApdu(Notified(f)) && |f| <= size
    decreases k
  {
    if k == 0 {
      FrameFits(payload, size, offset, i);
    } else {
      FramesFit(payload, size, offset + TakeOf(payload, size, offset, i), i + 1, k - 1);
    }
  }

  lemma FrameFits(payload: bytes, size: nat, offset: nat, i: nat)
    requires size >= MIN_MTU && offset <= |payload|
    ensures var f := FrameOf(payload, size, offset, i); IsApdu(Notified(f)) && |f| <= size
  {
  }

  /** The sequence number of an APDU that is allowed never wraps. */
  lemma {:induction false} SequenceNeverWraps(payload: bytes, size: nat)
    requires size >= MIN_MTU && |payload| <= 0xffff
    ensures |Frames(payload, size, 0, 0)| <= 1 + |payload| / 15 < 0x1_0000
  {
    FewFrames(payload, size, TakeOf(payload, size, 0, 0), 1);
  }

  lemma {:induction false} FewFrames(payload: bytes, size: nat, offset: nat, i: nat)
    requires size >= MIN_MTU && offset <= |payload| && i > 0
    ensures 17 * |Frames(payload, size, offset, i)| <= |payload| - offset + 16
    decreases |payload| - offset
  {
    if offset < |payload| {
      FewFrames(payload, size, offset + TakeOf(payload, size, offset, i), i + 1);
    }
  }
}
