/**
 Ledger APDUs over 64-byte HID reports: channel 0x0101, tag 5, a 16-bit sequence index and,
 in the first report, a 16-bit total length. A report carries 59 framed bytes.
 */
module LedgerHid {
  import opened Bytes
  import opened HidChannels

  /** The payload behind the low 16 bits of its length: the sender checks no bound. */
  function Framed(payload: bytes): (f: bytes)
    ensures |f| == |payload| + 2
  {
    Low16(|payload|) + payload
  }

  function Header(i: nat): (h: bytes)
    ensures |h| == 5
  {
    [0x01, 0x01, 0x05] + Low16(i)
  }

  function ReportCount(n: nat): nat {
    (n + 58) / 59
  }

  /**
   Byte `j` behind the header of report `i`. Past the end of the framed bytes it is what the
   report before left in the scratch buffer, and zero in the first one.
   */
  function ByteOf(framed: bytes, i: nat, j: nat): u8 {
    if 59 * i + j < |framed| then framed[59 * i + j]
    else if i == 0 then 0
    else ByteOf(framed, i - 1, j)
  }

  function ReportOf(framed: bytes, i: nat): (r: bytes)
    ensures |r| == REPORT
    ensures r[..5] == Header(i)
    ensures forall k :: 5 <= k < REPORT ==> r[k] == ByteOf(framed, i, k - 5)
  {
    Header(i) + seq(59, j requires 0 <= j < 59 => ByteOf(framed, i, j))
  }

  /** The scratch buffer as report `i - 1` left it; before the first report it is blank. */
  predicate LeftBehind(r: bytes, framed: bytes, i: nat) {
    |r| == REPORT && r[0] == 0x01 && r[1] == 0x01 && r[2] == 0x05
    && forall k :: 5 <= k < REPORT ==> r[k] == if i == 0 then 0 else ByteOf(framed, i - 1, k - 5)
  }

  lemma IsReport(r: bytes, framed: bytes, i: nat)
    requires |r| == REPORT && r[0] == 0x01 && r[1] == 0x01 && r[2] == 0x05
    requires r[3] == i / 0x100 % 0x100 && r[4] == i % 0x100
    requires forall k :: 5 <= k < REPORT ==> r[k] == ByteOf(framed, i, k - 5)
    ensures r == ReportOf(framed, i)
  {
    assert r[..5] == Header(i);
  }

  function Reports(framed: bytes, n: nat): (rs: seq<bytes>)
    ensures |rs| == n
    ensures forall i :: 0 <= i < n ==> rs[i] == ReportOf(framed, i)
  {
    seq(n, i requires 0 <= i < n => ReportOf(framed, i))
  }

  lemma OneReportMore(was: seq<bytes>, framed: bytes, i: nat)
    ensures (was + Reports(framed, i)) + [ReportOf(framed, i)] == was + Reports(framed, i + 1)
  {
    assert Reports(framed, i) + [ReportOf(framed, i)] == Reports(framed, i + 1);
  }

  /** Only the last report can hold a stale byte, and it is the one 59 bytes before the end. */
  lemma StaleTail(framed: bytes, i: nat, j: nat)
    requires 59 * i < |framed| <= 59 * i + j && j < 59
    ensures ByteOf(framed, i, j) == if i == 0 then 0 else framed[59 * (i - 1) + j]
  {
  }

  datatype Outcome =
    | Answer(apdu: bytes, taken: nat)
    | NotSent
    | ChannelFailed(taken: nat)
    | ReportTooLong(taken: nat)
    | IncompleteHeader(taken: nat)
    | InvalidChannel(taken: nat)
    | InvalidTag(taken: nat)
    | InvalidSequence(taken: nat)

  /** The read loop from report `want` on, with `buffer` as the last report left it. */
  function Decode(rs: seq<Received>, buffer: bytes, answer: bytes, want: nat, expected: nat): (o: Outcome)
    requires |buffer| == REPORT
    requires if want == 0 then answer == [] else |answer| < expected
    decreases rs
  {
    if rs == [] || rs[0].ReadThrows? then ChannelFailed(want + 1)
    else
      var read := rs[0].data;
      if |read| > REPORT then ReportTooLong(want + 1)
      else if (want == 0 && |read| < 7) || |read| < 5 then IncompleteHeader(want + 1)
      else
        var b := read + buffer[|read|..];
        if Be16(b, 0) != 0x0101 then InvalidChannel(want + 1)
        else if b[2] != 0x05 then InvalidTag(want + 1)
        else if Be16(b, 3) != want then InvalidSequence(want + 1)
        else
          var total := if want == 0 then Be16(b, 5) else expected;
          var pos := if want == 0 then 7 else 5;
          var grown := answer + b[pos..pos + Min(REPORT - pos, total - |answer|)];
          if |grown| >= total then Answer(grown, want + 1)
          else Decode(rs[1..], b, grown, want + 1, total)
  }

  class LedgerHidLink {
    const channel: HidChannel

    constructor (channel: HidChannel)
      ensures this.channel == channel
    {
      this.channel := channel;
    }

    method Exchange(payload: bytes) returns (o: Outcome)
      requires |payload| <= INT_MAX - 2
      modifies channel
      ensures var f := Framed(payload); var n := ReportCount(|f|);
              var j := FirstRefused(old(channel.taking), 0, n);
              channel.sent == old(channel.sent) + Reports(f, Min(j + 1, n))
              && (j < n ==> o == NotSent && channel.coming == old(channel.coming))
              && (j == n ==> o == Decode(old(channel.coming), Zeros(REPORT), [], 0, 0))
    {
      var sent := WriteReports(payload);
      if !sent {
        return NotSent;
      }
      o := ReadReports();
    }

    /** One scratch buffer for all reports; a short last chunk overwrites only its front. */
    method WriteReports(payload: bytes) returns (ok: bool)
      requires |payload| <= INT_MAX - 2
      modifies channel`sent, channel`taking
      ensures var f := Framed(payload); var n := ReportCount(|f|);
              var j := FirstRefused(old(channel.taking), 0, n);
              channel.sent == old(channel.sent) + Reports(f, Min(j + 1, n)) && (ok <==> j == n)
    {
      var framed := Framed(payload);
      var report := new u8[REPORT](_ => 0);
      report[0], report[1], report[2] := 0x01, 0x01, 0x05;
      var offset, i := 0, 0;
      ghost var taking, was, n := channel.taking, channel.sent, ReportCount(|framed|);
      while offset < |framed|
        invariant offset == Min(59 * i, |framed|) && i <= n
        invariant LeftBehind(report[..], framed, i)
        invariant channel.taking == Rest(taking, i)
        invariant channel.sent == was + Reports(framed, i)
        invariant FirstRefused(taking, 0, n) == FirstRefused(taking, i, n)
        decreases |framed| - offset
      {
        var take, whole := WriteOne(report, framed, i, offset);
        OneReportMore(was, framed, i);
        RestRest(taking, i, WriteThrows);
        if !whole {
          return false;
        }
        offset := offset + take;
        i := i + 1;
      }
      ok := true;
    }

    method WriteOne(report: array<u8>, framed: bytes, i: nat, offset: nat) returns (take: nat, whole: bool)
      requires report.Length == REPORT && LeftBehind(report[..], framed, i)
      requires offset == 59 * i < |framed|
      modifies report, channel`sent, channel`taking
      ensures take == Min(59, |framed| - offset) && LeftBehind(report[..], framed, i + 1)
      ensures channel.sent == old(channel.sent) + [ReportOf(framed, i)]
      ensures (whole <==> TakesWhole(Next(old(channel.taking), 0, WriteThrows))) && channel.taking == Rest(old(channel.taking), 1)
    {
      take := FillReport(report, framed, i, offset);
      var r := channel.Send(report);
      whole := r.Took? && WrapInt(r.count) >= REPORT;
    }

    method FillReport(report: array<u8>, framed: bytes, i: nat, offset: nat) returns (take: nat)
      requires report.Length == REPORT && LeftBehind(report[..], framed, i)
      requires offset == 59 * i < |framed|
      modifies report
      ensures take == Min(59, |framed| - offset)
      ensures report[..] == ReportOf(framed, i) && LeftBehind(report[..], framed, i + 1)
    {
      take := Min(REPORT - 5, |framed| - offset);
      report[3] := i / 0x100 % 0x100;
      report[4] := i % 0x100;
      forall k | 5 <= k < 5 + take {
        report[k] := framed[offset + k - 5];
      }
      IsReport(report[..], framed, i);
    }

    method ReadReports() returns (o: Outcome)
      modifies channel`coming
      ensures o == Decode(old(channel.coming), Zeros(REPORT), [], 0, 0)
    {
      var buffer := new u8[REPORT](_ => 0);
      var answer: bytes := [];
      var want, expected := 0, 0;
      ghost var coming := channel.coming;
      assert buffer[..] == Zeros(REPORT);
      while true
        invariant 0 <= expected && want <= |coming| && channel.coming == coming[want..]
        invariant if want == 0 then answer == [] else |answer| < expected
        invariant Decode(coming, Zeros(REPORT), [], 0, 0)
               == Decode(coming[want..], buffer[..], answer, want, expected)
        decreases |channel.coming|
      {
        ghost var before := buffer[..];
        var r := channel.Receive();
        if r.ReadThrows? {
          return ChannelFailed(want + 1);
        }
        var read := r.data;
        if |read| > REPORT {
          return ReportTooLong(want + 1);
        }
        if (want == 0 && |read| < 7) || |read| < 5 {
          return IncompleteHeader(want + 1);
        }
        CopyInto(read, buffer);
        var b := buffer[..];
        if Be16(b, 0) != 0x0101 {
          return InvalidChannel(want + 1);
        }
        if b[2] != 0x05 {
          return InvalidTag(want + 1);
        }
        if Be16(b, 3) != want {
          return InvalidSequence(want + 1);
        }
        ghost var was := expected;
        var pos := 5;
        if want == 0 {
          expected := Be16(b, 5);
          pos := 7;
        }
        ghost var earlier := answer;
        answer := answer + b[pos..pos + Min(REPORT - pos, expected - |answer|)];
        DecodeStep(coming[want..], before, b, earlier, want, was, expected, answer);
        if |answer| >= expected {
          return Answer(answer, want + 1);
        }
        want := want + 1;
      }
    }
  }

  /** A short report leaves the tail of the buffer as it was. */
  method CopyInto(read: bytes, buffer: array<u8>)
    requires |read| <= buffer.Length
    modifies buffer
    ensures buffer[..] == read + old(buffer[..])[|read|..]
  {
    forall k | 0 <= k < |read| {
      buffer[k] := read[k];
    }
  }

  // ------------------------------------------------------------- the promises

  /**
   A report that carries chunk `i` of the first `size` framed bytes: header and chunk are
   there, whatever pads it, and it may be cut behind the chunk.
   */
  predicate Carries(data: bytes, framed: bytes, size: nat, i: nat)
    requires size <= |framed|
  {
    (if i == 0 then 7 else 5) <= |data| <= REPORT
    && data[..5] == Header(i)
    && 5 + Min(59, size - 59 * i) <= |data|
    && forall k :: 5 <= k < 5 + Min(59, size - 59 * i) ==> data[k] == framed[59 * i + k - 5]
  }

  /** The bytes of the payload the length field can announce. */
  function Announced(payload: bytes): (size: nat)
    ensures size <= |payload|
  {
    |payload| % 0x1_0000
  }

  ghost predicate CarryAll(rs: seq<Received>, payload: bytes) {
    var size := Announced(payload) + 2;
    ReportCount(size) <= |rs|
    && forall i :: 0 <= i < ReportCount(size) ==> rs[i].Report? && Carries(rs[i].data, Framed(payload), size, i)
  }

  /** Reports that carry a framed payload read back as the part of it its length announces. */
  lemma ReadsBack(payload: bytes, rs: seq<Received>, buffer: bytes)
    requires |buffer| == REPORT && CarryAll(rs, payload)
    ensures Decode(rs, buffer, [], 0, 0)
         == Answer(payload[..Announced(payload)], ReportCount(Announced(payload) + 2))
  {
    assert rs[0..] == rs;
    ReadsBackFrom(payload, rs, buffer, 0);
  }

  function Before(payload: bytes, want: nat): bytes
    requires want > 0 ==> 59 * want - 2 <= |payload|
  {
    if want == 0 then [] else payload[..59 * want - 2]
  }

  lemma {:induction false} ReadsBackFrom(payload: bytes, rs: seq<Received>, buffer: bytes, want: nat)
    requires |buffer| == REPORT && CarryAll(rs, payload) && want < ReportCount(Announced(payload) + 2)
    ensures 59 * want < Announced(payload) + 2
    ensures Decode(rs[want..], buffer, Before(payload, want), want, if want == 0 then 0 else Announced(payload))
         == Answer(payload[..Announced(payload)], ReportCount(Announced(payload) + 2))
    decreases |rs| - want
  {
    var data, rest := rs[want].data, rs[want + 1..];
    assert rs[want..] == [Report(data)] + rest;
    StepReads(payload, data, rest, buffer, want);
    IsLast(want, Announced(payload) + 2);
    if want + 1 < ReportCount(Announced(payload) + 2) {
      ReadsBackFrom(payload, rs, data + buffer[|data|..], want + 1);
    }
  }

  /** Reading report `want` ends with the whole answer or extends it by that report's share. */
  lemma StepReads(payload: bytes, data: bytes, rest: seq<Received>, buffer: bytes, want: nat)
    requires |buffer| == REPORT && want < ReportCount(Announced(payload) + 2)
    requires Carries(data, Framed(payload), Announced(payload) + 2, want)
    ensures 59 * want < Announced(payload) + 2
    ensures want + 1 < ReportCount(Announced(payload) + 2) ==> 59 * want + 57 < Announced(payload)
    ensures Decode([Report(data)] + rest, buffer, Before(payload, want), want,
                   if want == 0 then 0 else Announced(payload))
         == if want + 1 == ReportCount(Announced(payload) + 2) then Answer(payload[..Announced(payload)], want + 1)
            else Decode(rest, data + buffer[|data|..], Before(payload, want + 1), want + 1, Announced(payload))
  {
    var size, b := Announced(payload), data + buffer[|data|..];
    IsLast(want, size + 2);
    ChunkReads(payload, data, b, want);
    DecodeStep([Report(data)] + rest, buffer, b, Before(payload, want), want, if want == 0 then 0 else size, size,
               payload[..Min(59 * want + 57, size)]);
    assert ([Report(data)] + rest)[1..] == rest;
  }

  lemma DecodeStep(rs: seq<Received>, buffer: bytes, b: bytes, answer: bytes, want: nat, expected: nat, total: nat,
                   grown: bytes)
    requires |buffer| == REPORT && (if want == 0 then answer == [] else |answer| < expected)
    requires rs != [] && rs[0].Report? && (if want == 0 then 7 else 5) <= |rs[0].data| <= REPORT
    requires b == rs[0].data + buffer[|rs[0].data|..]
    requires Be16(b, 0) == 0x0101 && b[2] == 0x05 && Be16(b, 3) == want
    requires total == if want == 0 then Be16(b, 5) else expected
    requires var pos := if want == 0 then 7 else 5; grown == answer + b[pos..pos + Min(REPORT - pos, total - |answer|)]
    ensures Decode(rs, buffer, answer, want, expected)
         == if |grown| >= total then Answer(grown, want + 1) else Decode(rs[1..], b, grown, want + 1, total)
  {
  }

  lemma IsLast(want: nat, n: nat)
    requires want < ReportCount(n)
    ensures 59 * want < n && (ReportCount(n) == want + 1 <==> n <= 59 * want + 59)
  {
  }

  /** One report: its header passes, and it adds its chunk to the answer. */
  lemma ChunkReads(payload: bytes, data: bytes, b: bytes, want: nat)
    requires want < ReportCount(Announced(payload) + 2)
    requires Carries(data, Framed(payload), Announced(payload) + 2, want)
    requires |b| == REPORT && b[..|data|] == data
    ensures Be16(b, 0) == 0x0101 && b[2] == 0x05 && Be16(b, 3) == want
    ensures want == 0 ==> Be16(b, 5) == Announced(payload)
    ensures var pos := if want == 0 then 7 else 5;
            var count := Min(REPORT - pos, Announced(payload) - |Before(payload, want)|);
            Before(payload, want) + b[pos..pos + count] == payload[..Min(59 * want + 57, Announced(payload))]
  {
    var size, f, answer := Announced(payload), Framed(payload), Before(payload, want);
    HeaderReads(data, b, want);
    var pos := if want == 0 then 7 else 5;
    if want == 0 {
      assert data[5] == f[0] && data[6] == f[1];
      assert Be16(b, 5) == Be16(Low16(|payload|), 0);
    }
    var count := Min(REPORT - pos, size - |answer|);
    forall k | pos <= k < pos + count ensures b[k] == payload[|answer| + k - pos] {
      assert data[k] == f[59 * want + k - 5];
    }
    assert b[pos..pos + count] == payload[|answer|..|answer| + count];
  }

  lemma HeaderReads(data: bytes, b: bytes, i: nat)
    requires 5 <= |data| <= REPORT == |b| && b[..|data|] == data && data[..5] == Header(i) && i < 0x1_0000
    ensures Be16(b, 0) == 0x0101 && b[2] == 0x05 && Be16(b, 3) == i
  {
    assert b[..5] == Header(i);
    assert b[0] == Header(i)[0] && b[1] == Header(i)[1] && b[2] == Header(i)[2];
    assert b[3] == Header(i)[3] && b[4] == Header(i)[4];
  }

  /** The reports this link writes read back as the payload iff the payload fits the length field. */
  lemma RoundTripIff(payload: bytes, more: seq<Received>)
    ensures var f := Framed(payload);
            var o := Decode(AsReports(Reports(f, ReportCount(|f|))) + more, Zeros(REPORT), [], 0, 0);
            o.Answer? && (o.apdu == payload <==> |payload| < 0x1_0000)
  {
    OwnReportsReadBack(payload, AsReports(Reports(Framed(payload), ReportCount(|Framed(payload)|))) + more);
  }

  lemma OwnReportsReadBack(payload: bytes, rs: seq<Received>)
    requires AsReports(Reports(Framed(payload), ReportCount(|Framed(payload)|))) <= rs
    ensures var o := Decode(rs, Zeros(REPORT), [], 0, 0); o.Answer? && (o.apdu == payload <==> |payload| < 0x1_0000)
  {
    OwnReportsCarry(payload, rs);
    ReadsBack(payload, rs, Zeros(REPORT));
    OnlyAllIsAll(payload, Announced(payload));
  }

  lemma OnlyAllIsAll(payload: bytes, n: nat)
    requires n <= |payload|
    ensures payload[..n] == payload <==> n == |payload|
  {
  }

  lemma OwnReportsCarry(payload: bytes, rs: seq<Received>)
    requires AsReports(Reports(Framed(payload), ReportCount(|Framed(payload)|))) <= rs
    ensures CarryAll(rs, payload)
  {
    var f, size := Framed(payload), Announced(payload) + 2;
    CountIsMonotone(size, |f|);
    forall i | 0 <= i < ReportCount(size) ensures rs[i].Report? && Carries(rs[i].data, f, size, i) {
      assert rs[i] == Report(ReportOf(f, i));
      OwnReportCarries(f, size, i);
    }
  }

  lemma OwnReportCarries(f: bytes, size: nat, i: nat)
    requires 2 <= size <= |f| && 59 * i < size
    ensures Carries(ReportOf(f, i), f, size, i)
  {
  }

  lemma CountIsMonotone(m: nat, n: nat)
    requires m <= n
    ensures ReportCount(m) <= ReportCount(n)
  {
  }

  /** An answer always has the announced length and costs exactly the reports it fills. */
  lemma {:induction false} AnswerIsAsAnnounced(rs: seq<Received>, buffer: bytes, answer: bytes, want: nat, expected: nat)
    requires |buffer| == REPORT
    requires if want == 0 then answer == [] else |answer| < expected && |answer| == 59 * want - 2
    requires Decode(rs, buffer, answer, want, expected).Answer?
    ensures var o := Decode(rs, buffer, answer, want, expected);
            o.taken == ReportCount(|o.apdu| + 2) && answer <= o.apdu
            && |o.apdu| == if want == 0 then Be16(rs[0].data, 5) else expected
    decreases rs
  {
    var b, grown := OneMoreReport(rs, buffer, answer, want, expected);
    var total := if want == 0 then Be16(rs[0].data, 5) else expected;
    if |grown| < total {
      AnswerIsAsAnnounced(rs[1..], b, grown, want + 1, total);
    } else {
      LastCount(want, total);
    }
  }

  /** An answer means that the next report passed the checks on its header and added its share. */
  lemma OneMoreReport(rs: seq<Received>, buffer: bytes, answer: bytes, want: nat, expected: nat)
    returns (b: bytes, grown: bytes)
    requires |buffer| == REPORT && (if want == 0 then answer == [] else |answer| < expected && |answer| == 59 * want - 2)
    requires Decode(rs, buffer, answer, want, expected).Answer?
    ensures rs != [] && rs[0].Report? && (want == 0 ==> |rs[0].data| >= 7) && |b| == REPORT && answer <= grown
    ensures var total := if want == 0 then Be16(rs[0].data, 5) else expected;
            |grown| == Min(59 * want + 57, total)
            && Decode(rs, buffer, answer, want, expected)
            == if |grown| >= total then Answer(grown, want + 1) else Decode(rs[1..], b, grown, want + 1, total)
  {
    b := rs[0].data + buffer[|rs[0].data|..];
    var total := if want == 0 then Be16(b, 5) else expected;
    var pos := if want == 0 then 7 else 5;
    grown := answer + b[pos..pos + Min(REPORT - pos, total - |answer|)];
    HeaderPassed(rs, buffer, answer, want, expected);
    DecodeStep(rs, buffer, b, answer, want, expected, total, grown);
  }

  lemma LastCount(want: nat, total: nat)
    requires 59 * want - 2 < total + (if want == 0 then 1 else 0) <= 59 * want + 57 + (if want == 0 then 1 else 0)
    ensures ReportCount(total + 2) == want + 1
  {
  }

  /** An answer means that the first report passed the checks on its header. */
  lemma HeaderPassed(rs: seq<Received>, buffer: bytes, answer: bytes, want: nat, expected: nat)
    requires |buffer| == REPORT && (if want == 0 then answer == [] else |answer| < expected)
    requires Decode(rs, buffer, answer, want, expected).Answer?
    ensures rs != [] && rs[0].Report? && (if want == 0 then 7 else 5) <= |rs[0].data| <= REPORT
    ensures var b := rs[0].data + buffer[|rs[0].data|..]; Be16(b, 0) == 0x0101 && b[2] == 0x05 && Be16(b, 3) == want
  {
  }

  // ------------------------------------------------ what any device can achieve

  /** The report holds a whole header. */
  predicate Fits(r: Received, k: nat) {
    r.Report? && (if k == 0 then 7 else 5) <= |r.data| <= 64
  }

  /** Channel 0x0101, tag 5, sequence number `k`. */
  predicate Headed(data: bytes, k: nat) {
    |data| >= 5 && data[0] == 0x01 && data[1] == 0x01 && data[2] == 0x05 && Be16(data, 3) == k
  }

  predicate FirstFit(rs: seq<Received>, k: nat) {
    k <= |rs| && forall i :: 0 <= i < k ==> Fits(rs[i], i)
  }

  /** The scratch buffer after `k` reports: the last one over what those before it left. */
  function BufferAt(rs: seq<Received>, k: nat): (b: bytes)
    requires FirstFit(rs, k)
    ensures |b| == 64
  {
    if k == 0 then Zeros(64) else rs[k - 1].data + BufferAt(rs, k - 1)[|rs[k - 1].data|..]
  }

  /** Everything behind the headers of the first `k` reports. */
  function Joined(rs: seq<Received>, k: nat): (b: bytes)
    requires FirstFit(rs, k)
    ensures |b| == if k == 0 then 0 else 59 * k - 2
  {
    if k == 0 then [] else Joined(rs, k - 1) + BufferAt(rs, k)[if k == 1 then 7 else 5..]
  }

  function Total(rs: seq<Received>): nat
    requires FirstFit(rs, 1)
  {
    Be16(rs[0].data, 5)
  }

  /** The first `k` reports fit, come in sequence, and do not make up the announced length. */
  predicate Going(rs: seq<Received>, k: nat) {
    FirstFit(rs, k) && (forall i :: 0 <= i < k ==> Headed(rs[i].data, i)) && (k > 0 ==> 59 * k - 2 < Total(rs))
  }

  /** What happens at report `k`, when the reader gets there. */
  predicate EndsWith(rs: seq<Received>, k: nat, o: Outcome)
    requires Going(rs, k)
  {
    if k == |rs| || rs[k].ReadThrows? then o == ChannelFailed(k + 1)
    else
      var d := rs[k].data;
      if |d| > 64 then o == ReportTooLong(k + 1)
      else if |d| < (if k == 0 then 7 else 5) then o == IncompleteHeader(k + 1)
      else if d[0] != 0x01 || d[1] != 0x01 then o == InvalidChannel(k + 1)
      else if d[2] != 0x05 then o == InvalidTag(k + 1)
      else if Be16(d, 3) != k then o == InvalidSequence(k + 1)
      else FirstFit(rs, k + 1) && 59 * (k + 1) - 2 >= Total(rs) && o == Answer(Joined(rs, k + 1)[..Total(rs)], k + 1)
  }

  lemma OverlayHeads(data: bytes, buffer: bytes, k: nat)
    requires |buffer| == 64 && (if k == 0 then 7 else 5) <= |data| <= 64
    ensures var b := data + buffer[|data|..];
            |b| == 64 && b[0] == data[0] && b[1] == data[1] && b[2] == data[2] && Be16(b, 0) == Be16(data, 0)
            && Be16(b, 3) == Be16(data, 3) && (k == 0 ==> Be16(b, 5) == Be16(data, 5))
  {
  }

  /** One good report takes the reader on, or ends with the answer. */
  lemma GoodReport(rs: seq<Received>, k: nat)
    requires Going(rs, k) && FirstFit(rs, k + 1) && Headed(rs[k].data, k)
    ensures Decode(rs[k..], BufferAt(rs, k), Joined(rs, k), k, if k == 0 then 0 else Total(rs))
         == if 59 * (k + 1) - 2 >= Total(rs) then Answer(Joined(rs, k + 1)[..Total(rs)], k + 1)
            else Decode(rs[k + 1..], BufferAt(rs, k + 1), Joined(rs, k + 1), k + 1, Total(rs))
  {
    var b, pos, total := BufferAt(rs, k + 1), if k == 0 then 7 else 5, Total(rs);
    OverlayHeads(rs[k].data, BufferAt(rs, k), k);
    var part := b[pos..pos + Min(REPORT - pos, total - |Joined(rs, k)|)];
    assert part == b[pos..][..|part|];
    CutJoin(Joined(rs, k), b[pos..], total);
    assert rs[k..][0] == rs[k] && rs[k..][1..] == rs[k + 1..];
    DecodeStep(rs[k..], BufferAt(rs, k), b, Joined(rs, k), k, if k == 0 then 0 else total, total, Joined(rs, k) + part);
  }

  /** Where the reader stands after `k` reports. */
  lemma {:induction false} DecodeAfter(rs: seq<Received>, k: nat)
    requires Going(rs, k)
    ensures Decode(rs, Zeros(64), [], 0, 0)
         == Decode(rs[k..], BufferAt(rs, k), Joined(rs, k), k, if k == 0 then 0 else Total(rs))
    decreases k
  {
    if k == 0 {
      assert rs[0..] == rs;
    } else {
      assert Going(rs, k - 1);
      DecodeAfter(rs, k - 1);
      GoodReport(rs, k - 1);
    }
  }

  lemma EndIsRight(rs: seq<Received>, k: nat)
    requires Going(rs, k) && !Going(rs, k + 1)
    ensures EndsWith(rs, k, Decode(rs, Zeros(64), [], 0, 0))
  {
    DecodeAfter(rs, k);
    if k < |rs| {
      assert rs[k..][0] == rs[k];
      if rs[k].Report? && Fits(rs[k], k) {
        OverlayHeads(rs[k].data, BufferAt(rs, k), k);
        if Headed(rs[k].data, k) {
          GoodReport(rs, k);
        }
      }
    }
  }

  /** The reader stops somewhere. */
  lemma {:induction false} Stops(rs: seq<Received>, k: nat) returns (e: nat)
    requires Going(rs, k)
    ensures Going(rs, e) && !Going(rs, e + 1)
    decreases |rs| - k
  {
    e := k;
    if Going(rs, k + 1) {
      e := Stops(rs, k + 1);
    }
  }

  /**
   For every sequence of reports: what comes of it, and exactly when. An answer comes at the
   report that makes up the announced length, if all up to it fit and come in sequence; it is
   what lies behind their headers, joined and cut to that length.
   */
  lemma OutcomeIff(rs: seq<Received>, o: Outcome)
    ensures Decode(rs, Zeros(64), [], 0, 0) == o
       <==> exists k: nat :: Going(rs, k) && !Going(rs, k + 1) && EndsWith(rs, k, o)
  {
    var e := Stops(rs, 0);
    EndIsRight(rs, e);
    forall k: nat | Going(rs, k) && !Going(rs, k + 1) && EndsWith(rs, k, o) ensures Decode(rs, Zeros(64), [], 0, 0) == o {
      EndIsRight(rs, k);
    }
  }
}
