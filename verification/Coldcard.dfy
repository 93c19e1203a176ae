/**
 Coldcard over 64-byte HID reports: byte 0 holds the chunk length, 0x80 on the last chunk and
 0x40 there when the link is encrypted. A report carries 63 payload bytes.
 */
module Coldcard {
  import opened Bytes
  import opened HidChannels

  function ChunkCount(n: nat): nat {
    (n + 62) / 63
  }

  /** The chunk count as the code computes it: it wraps for the longest payloads, and then nothing is sent. */
  function Chunks(n: nat): (chunks: nat)
    requires n <= INT_MAX
    ensures chunks == Sendable(n)
  {
    var up := WrapInt(n + 62);
    if up < 0 then 0 else up / 63
  }

  function TakeOf(n: nat, i: nat): (take: nat)
    requires i < ChunkCount(n)
    ensures 1 <= take <= 63 && 63 * i + take <= n
  {
    Min(63, n - 63 * i)
  }

  /** Length and flags: 6 bits of length leave 0x40 and 0x80 free. */
  function FlagByte(take: nat, last: bool, encrypted: bool): (flag: u8)
    requires take <= 63
    ensures flag % 0x40 == take
    ensures flag >= 0x80 <==> last
    ensures flag / 0x40 % 2 == 1 <==> last && encrypted
  {
    take + if last then 0x80 + (if encrypted then 0x40 else 0x00) else 0x00
  }

  /** Byte `j` behind the flag of report `i`: the chunk, then what the report before left there. */
  function ByteOf(payload: bytes, i: nat, j: nat): u8 {
    if 63 * i + j < |payload| then payload[63 * i + j]
    else if i == 0 then 0
    else ByteOf(payload, i - 1, j)
  }

  /** A byte behind the last chunk is the one 63 bytes earlier, or zero if there is only one report. */
  lemma StaleTail(payload: bytes, i: nat, j: nat)
    requires 63 * i < |payload| <= 63 * i + j && j < 63
    ensures ByteOf(payload, i, j) == if i == 0 then 0 else payload[63 * (i - 1) + j]
  {
  }

  function ReportOf(payload: bytes, encrypted: bool, i: nat): (r: bytes)
    requires i < ChunkCount(|payload|)
    ensures |r| == REPORT
    ensures r[0] == FlagByte(TakeOf(|payload|, i), i == ChunkCount(|payload|) - 1, encrypted)
    ensures forall k :: 1 <= k < REPORT ==> r[k] == ByteOf(payload, i, k - 1)
  {
    [FlagByte(TakeOf(|payload|, i), i == ChunkCount(|payload|) - 1, encrypted)]
    + seq(63, j requires 0 <= j < 63 => ByteOf(payload, i, j))
  }

  function Reports(payload: bytes, encrypted: bool, n: nat): (rs: seq<bytes>)
    requires n <= ChunkCount(|payload|)
    ensures |rs| == n
    ensures forall i :: 0 <= i < n ==> rs[i] == ReportOf(payload, encrypted, i)
  {
    seq(n, i requires 0 <= i < n => ReportOf(payload, encrypted, i))
  }

  // ------------------------------------------------------------------ replies

  const FRAM: bytes := [0x66, 0x72, 0x61, 0x6d]

  datatype Outcome = Answer(data: bytes, taken: nat) | NotSent | ChannelFailed | ShortReport

  /** The read loop; a first report that spells `fram` ends the reply whatever its flag says. */
  function Decode(rs: seq<Received>, data: bytes, taken: nat): Outcome
    decreases rs
  {
    if rs == [] || rs[0].ReadThrows? then ChannelFailed
    else
      var report := rs[0].data;
      if |report| != REPORT then ShortReport
      else
        var grown := data + report[1..1 + report[0] % 0x40];
        if report[0] >= 0x80 || (taken == 0 && report[1..5] == FRAM) then Answer(grown, taken + 1)
        else Decode(rs[1..], grown, taken + 1)
  }

  class ColdcardHidLink {
    const channel: HidChannel

    constructor (channel: HidChannel)
      ensures this.channel == channel
    {
      this.channel := channel;
    }

    method Exchange(payload: bytes, encrypted: bool) returns (o: Outcome)
      requires |payload| <= INT_MAX
      modifies channel
      ensures var n := Chunks(|payload|); var j := FirstRefused(old(channel.taking), 0, n);
              channel.sent == old(channel.sent) + Reports(payload, encrypted, Min(j + 1, n))
              && (j < n ==> o == NotSent && channel.coming == old(channel.coming))
              && (j == n ==> o == Decode(old(channel.coming), [], 0))
    {
      var sent := WriteReports(payload, encrypted);
      if !sent {
        return NotSent;
      }
      o := ReadReports();
    }

    method WriteReports(payload: bytes, encrypted: bool) returns (ok: bool)
      requires |payload| <= INT_MAX
      modifies channel`sent, channel`taking
      ensures var n := Chunks(|payload|); var j := FirstRefused(old(channel.taking), 0, n);
              channel.sent == old(channel.sent) + Reports(payload, encrypted, Min(j + 1, n)) && (ok <==> j == n)
    {
      var report := new u8[REPORT](_ => 0);
      var chunks := Chunks(|payload|);
      ghost var taking := channel.taking;
      for i := 0 to chunks
        invariant LeftBehind(report[..], payload, i)
        invariant channel.taking == Rest(taking, i)
        invariant channel.sent == old(channel.sent) + Reports(payload, encrypted, i)
        invariant FirstRefused(taking, 0, chunks) == FirstRefused(taking, i, chunks)
      {
        FillReport(report, payload, encrypted, i);
        assert Reports(payload, encrypted, i) + [ReportOf(payload, encrypted, i)]
            == Reports(payload, encrypted, i + 1);
        RestRest(taking, i, WriteThrows);
        var r := channel.Send(report);
        if !r.Took? || WrapInt(r.count) < REPORT {
          return false;
        }
      }
      ok := true;
    }

    method FillReport(report: array<u8>, payload: bytes, encrypted: bool, i: nat)
      requires i < ChunkCount(|payload|) && report.Length == REPORT && LeftBehind(report[..], payload, i)
      modifies report
      ensures report[..] == ReportOf(payload, encrypted, i) && LeftBehind(report[..], payload, i + 1)
    {
      var offset := i * 63;
      var take := Min(63, |payload| - offset);
      var last := i == ChunkCount(|payload|) - 1;
      report[0] := FlagByte(take, last, encrypted);
      forall k | 1 <= k < 1 + take {
        report[k] := payload[offset + k - 1];
      }
      assert forall k :: 1 <= k < REPORT ==> report[k] == ByteOf(payload, i, k - 1);
    }

    method ReadReports() returns (o: Outcome)
      modifies channel`coming
      ensures o == Decode(old(channel.coming), [], 0)
    {
      ghost var coming := channel.coming;
      var data: bytes := [];
      var first := true;
      var taken := 0;
      while true
        invariant taken <= |coming| && channel.coming == coming[taken..] && (first <==> taken == 0)
        invariant Decode(coming, [], 0) == Decode(coming[taken..], data, taken)
        decreases |channel.coming|
      {
        var r := channel.Receive();
        if r.ReadThrows? {
          return ChannelFailed;
        }
        var report := r.data;
        if |report| != REPORT {
          return ShortReport;
        }
        var flag := report[0];
        var fram := first && report[1..5] == FRAM;
        data := data + report[1..1 + flag % 0x40];
        first := false;
        taken := taken + 1;
        if flag >= 0x80 || fram {
          return Answer(data, taken);
        }
      }
    }
  }

  /** The scratch buffer as report `i - 1` left it. */
  predicate LeftBehind(r: bytes, payload: bytes, i: nat) {
    |r| == REPORT && forall k :: 1 <= k < REPORT ==> r[k] == if i == 0 then 0 else ByteOf(payload, i - 1, k - 1)
  }

  // ------------------------------------------------------------- the promises

  predicate IsReport(r: Received) {
    r.Report? && |r.data| == REPORT
  }

  /** The bytes a report announces, of any length from 0 to 63; what lies behind them is padding. */
  function Chunk(r: Received): bytes
    requires IsReport(r)
  {
    r.data[1..1 + r.data[0] % 0x40]
  }

  predicate Flagged(r: Received)
    requires IsReport(r)
  {
    r.data[0] >= 0x80
  }

  predicate SpellsFram(r: Received)
    requires IsReport(r)
  {
    r.data[1..5] == [0x66, 0x72, 0x61, 0x6d]
  }

  function Joined(rs: seq<Received>): bytes
    requires forall i :: 0 <= i < |rs| ==> IsReport(rs[i])
  {
    if rs == [] then [] else Chunk(rs[0]) + Joined(rs[1..])
  }

  /** The first `k` reports are whole and the last of them is the first to carry the flag. */
  predicate EndsAt(rs: seq<Received>, k: nat) {
    0 < k <= |rs| && (forall i :: 0 <= i < k ==> IsReport(rs[i]))
    && forall i :: 0 <= i < k ==> (Flagged(rs[i]) <==> i == k - 1)
  }

  /** The reports the reader takes for a reply: it stops at the flag, or at a first report that spells `fram`. */
  predicate StopsAt(rs: seq<Received>, k: nat) {
    (k == 1 && rs != [] && IsReport(rs[0]) && SpellsFram(rs[0]))
    || (EndsAt(rs, k) && !SpellsFram(rs[0]))
  }

  /** An answer is the chunks of exactly the reports up to where the reader stops. */
  lemma {:induction false} AnswerIff(rs: seq<Received>, data: bytes, taken: nat)
    ensures Decode(rs, [], 0) == Answer(data, taken) <==> StopsAt(rs, taken) && data == Joined(rs[..taken])
  {
    if rs != [] && IsReport(rs[0]) {
      var first := Chunk(rs[0]);
      assert [] + first == first;
      JoinedFirst(rs, taken);
      if !Flagged(rs[0]) && !SpellsFram(rs[0]) {
        AnswerIffFrom(rs[1..], first, 1, data, taken);
        EndsLater(rs, taken);
      }
    }
  }

  /** Behind the first report only the flag counts. */
  lemma {:induction false} AnswerIffFrom(rs: seq<Received>, got: bytes, n: nat, data: bytes, taken: nat)
    requires n > 0
    ensures Decode(rs, got, n) == Answer(data, taken)
       <==> taken > n && EndsAt(rs, taken - n) && data == got + Joined(rs[..taken - n])
    decreases rs
  {
    if rs != [] && IsReport(rs[0]) {
      var k := taken - n;
      if k > 0 {
        JoinedFirst(rs, k);
      }
      if !Flagged(rs[0]) {
        AnswerIffFrom(rs[1..], got + Chunk(rs[0]), n + 1, data, taken);
        if k > 0 {
          EndsLater(rs, k);
        }
        if k > 1 && EndsAt(rs[1..], k - 1) {
          assert (got + Chunk(rs[0])) + Joined(rs[1..][..k - 1]) == got + (Chunk(rs[0]) + Joined(rs[1..][..k - 1]));
        }
      }
    }
  }

  lemma JoinedFirst(rs: seq<Received>, k: nat)
    requires rs != [] && IsReport(rs[0])
    ensures 0 < k <= |rs| && (forall i :: 0 <= i < k ==> IsReport(rs[i])) ==>
              Joined(rs[..k]) == Chunk(rs[0]) + Joined(rs[1..][..k - 1])
    ensures k == 1 ==> Joined(rs[..k]) == Chunk(rs[0])
  {
    if 0 < k <= |rs| {
      assert rs[..k][1..] == rs[1..][..k - 1];
    }
  }

  lemma EndsLater(rs: seq<Received>, k: nat)
    requires rs != [] && IsReport(rs[0]) && !Flagged(rs[0])
    ensures EndsAt(rs, k) <==> k > 1 && EndsAt(rs[1..], k - 1)
  {
    if k > 1 && EndsAt(rs[1..], k - 1) {
      assert forall i :: 1 <= i < k ==> rs[i] == rs[1..][i - 1];
    }
    if EndsAt(rs, k) {
      assert forall i :: 0 <= i < k - 1 ==> rs[1..][i] == rs[i + 1];
    }
  }

  /** The first `k` reports were read and none of them ended the reply. */
  predicate Unfinished(rs: seq<Received>, k: nat) {
    k <= |rs| && (forall i :: 0 <= i < k ==> IsReport(rs[i]) && !Flagged(rs[i])) && (k > 0 ==> !SpellsFram(rs[0]))
  }

  lemma {:induction false} DecodeAfter(rs: seq<Received>, k: nat) returns (data: bytes)
    requires Unfinished(rs, k)
    ensures Decode(rs, [], 0) == Decode(rs[k..], data, k)
    decreases k
  {
    if k == 0 {
      data := [];
      assert rs[0..] == rs;
    } else {
      data := DecodeAfter(rs, k - 1);
      assert rs[k - 1..][0] == rs[k - 1] && rs[k - 1..][1..] == rs[k..];
      data := data + Chunk(rs[k - 1]);
    }
  }

  lemma {:induction false} Stops(rs: seq<Received>, k: nat) returns (e: nat)
    requires Unfinished(rs, k)
    ensures Unfinished(rs, e) && !Unfinished(rs, e + 1)
    decreases |rs| - k
  {
    e := k;
    if Unfinished(rs, k + 1) {
      e := Stops(rs, k + 1);
    }
  }

  lemma WhatEnds(rs: seq<Received>, k: nat)
    requires Unfinished(rs, k) && !Unfinished(rs, k + 1)
    ensures Decode(rs, [], 0) == ChannelFailed <==> k == |rs| || rs[k].ReadThrows?
    ensures Decode(rs, [], 0) == ShortReport <==> k < |rs| && rs[k].Report? && |rs[k].data| != 64
  {
    var data := DecodeAfter(rs, k);
    if k < |rs| {
      assert rs[k..][0] == rs[k];
    }
  }

  /** A reply fails at the first read behind unfinished ones that throws or is not of 64 bytes, and for that reason. */
  lemma FailureIff(rs: seq<Received>)
    ensures Decode(rs, [], 0) == ChannelFailed <==> exists k: nat :: Unfinished(rs, k) && (k == |rs| || rs[k].ReadThrows?)
    ensures Decode(rs, [], 0) == ShortReport
       <==> exists k: nat :: Unfinished(rs, k) && k < |rs| && rs[k].Report? && |rs[k].data| != 64
  {
    var e := Stops(rs, 0);
    WhatEnds(rs, e);
    forall k: nat | Unfinished(rs, k) && (k == |rs| || !IsReport(rs[k])) ensures k == e {
      StopIsUnique(rs, k, e);
    }
  }

  lemma StopIsUnique(rs: seq<Received>, k: nat, e: nat)
    requires Unfinished(rs, k) && (k == |rs| || !IsReport(rs[k]))
    requires Unfinished(rs, e) && !Unfinished(rs, e + 1)
    ensures k == e
  {
  }

  /** Any device reply that ends with the flag: all its chunks, or the first if bytes 1 to 4 spell `fram`. */
  lemma ReplyIs(rs: seq<Received>, k: nat)
    requires EndsAt(rs, k)
    ensures Decode(rs, [], 0) == if SpellsFram(rs[0]) then Answer(Chunk(rs[0]), 1) else Answer(Joined(rs[..k]), k)
  {
    var taken := if SpellsFram(rs[0]) then 1 else k;
    JoinedFirst(rs, taken);
    AnswerIff(rs, Joined(rs[..taken]), taken);
  }

  /** The reply the mitigation is for: one report that spells `fram` is answered with or without the flag. */
  lemma FramNeedsNoFlag(first: Received, more: seq<Received>)
    requires IsReport(first) && SpellsFram(first)
    ensures Decode([first] + more, [], 0) == Answer(Chunk(first), 1)
  {
    JoinedFirst([first] + more, 1);
    AnswerIff([first] + more, Chunk(first), 1);
  }

  /** A flagged reply comes back whole iff its first report does not spell `fram` or nothing follows that report. */
  lemma WholeIff(rs: seq<Received>, k: nat)
    requires EndsAt(rs, k)
    ensures Decode(rs, [], 0).Answer?
    ensures Decode(rs, [], 0).data == Joined(rs[..k]) <==> !SpellsFram(rs[0]) || Joined(rs[1..k]) == []
  {
    ReplyIs(rs, k);
    JoinedFirst(rs, k);
    assert rs[1..][..k - 1] == rs[1..k];
  }

  /** What a receiver that follows the flags makes of the reports this link writes. */
  function HostSaid(reports: seq<bytes>): Option<(bytes, bool)>
  {
    if reports == [] || |reports[0]| != REPORT then None
    else
      var r := reports[0];
      var chunk := r[1..1 + r[0] % 0x40];
      if r[0] >= 0x80 then Some((chunk, r[0] / 0x40 % 2 == 1))
      else match HostSaid(reports[1..])
        case None => None
        case Some((rest, encrypted)) => Some((chunk + rest, encrypted))
  }

  /** The chunk count where it does not wrap, else none. */
  function Sendable(n: nat): nat {
    if n <= INT_MAX - 62 then ChunkCount(n) else 0
  }

  /** The written reports spell out payload and encryption flag; an empty or a huge payload writes none. */
  lemma HostIsHeard(payload: bytes, encrypted: bool)
    requires |payload| <= INT_MAX
    ensures HostSaid(Reports(payload, encrypted, Sendable(|payload|)))
         == if payload == [] || |payload| > INT_MAX - 62 then None else Some((payload, encrypted))
  {
    var n := Sendable(|payload|);
    assert Reports(payload, encrypted, n)[0..] == Reports(payload, encrypted, n);
    if n > 0 {
      HostIsHeardFrom(payload, encrypted, 0);
      assert payload[0..] == payload;
    }
  }

  lemma {:induction false} HostIsHeardFrom(payload: bytes, encrypted: bool, i: nat)
    requires i < ChunkCount(|payload|)
    ensures HostSaid(Reports(payload, encrypted, ChunkCount(|payload|))[i..]) == Some((payload[63 * i..], encrypted))
    decreases ChunkCount(|payload|) - i
  {
    var n := ChunkCount(|payload|);
    var rs := Reports(payload, encrypted, n);
    var r, take := rs[i], TakeOf(|payload|, i);
    assert rs[i..][0] == r && rs[i..][1..] == rs[i + 1..];
    assert r[1..1 + take] == payload[63 * i..63 * i + take] by {
      assert forall k :: 1 <= k < 1 + take ==> r[k] == payload[63 * i + k - 1];
    }
    if i < n - 1 {
      HostIsHeardFrom(payload, encrypted, i + 1);
      assert payload[63 * i..] == payload[63 * i..63 * i + take] + payload[63 * (i + 1)..];
    } else {
      assert payload[63 * i..] == payload[63 * i..63 * i + take];
    }
  }
}
