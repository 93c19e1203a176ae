/** The 64-byte packet channel the HID links write to and read from. */
module HidChannels {
  import opened Bytes

  const REPORT := 64

  type u32 = x: int | 0 <= x < 0x1_0000_0000

  /** How a channel answers a write: the number of bytes it took, or an exception. */
  datatype Written = Took(count: u32) | WriteThrows

  /** How it answers a read: the bytes of one report, or an exception. */
  datatype Received = Report(data: bytes) | ReadThrows

  /**
   A channel knows its answers in advance, so a statement about every channel is one about
   every device. It throws when it has no answers left.
   */
  class HidChannel {
    var sent: seq<bytes>
    var taking: seq<Written>
    var coming: seq<Received>

    constructor (taking: seq<Written>, coming: seq<Received>)
      ensures sent == [] && this.taking == taking && this.coming == coming
    {
      sent := [];
      this.taking := taking;
      this.coming := coming;
    }

    method Send(report: array<u8>) returns (r: Written)
      modifies this`sent, this`taking
      ensures sent == old(sent) + [report[..]]
      ensures r == Next(old(taking), 0, WriteThrows) && taking == Rest(old(taking), 1)
    {
      sent := sent + [report[..]];
      r := Next(taking, 0, WriteThrows);
      taking := Rest(taking, 1);
    }

    method Receive() returns (r: Received)
      modifies this`coming
      ensures r == Next(old(coming), 0, ReadThrows) && coming == Rest(old(coming), 1)
    {
      r := Next(coming, 0, ReadThrows);
      coming := Rest(coming, 1);
    }
  }

  /** Reports as a channel delivers them. */
  function AsReports(ps: seq<bytes>): (rs: seq<Received>)
    ensures |rs| == |ps|
    ensures forall i :: 0 <= i < |ps| ==> rs[i] == Report(ps[i])
  {
    seq(|ps|, i requires 0 <= i < |ps| => Report(ps[i]))
  }

  function Next<T>(s: seq<T>, n: nat, default: T): T {
    if n < |s| then s[n] else default
  }

  function Rest<T>(s: seq<T>, n: nat): (r: seq<T>)
    ensures n <= |s| ==> |r| == |s| - n
  {
    if n <= |s| then s[n..] else []
  }

  lemma RestRest<T>(s: seq<T>, n: nat, default: T)
    ensures Rest(Rest(s, n), 1) == Rest(s, n + 1)
    ensures Next(Rest(s, n), 0, default) == Next(s, n, default)
  {
  }

  /** The unsigned count is compared as an `Int`, so one of 2^31 or more reads as too small. */
  predicate TakesWhole(w: Written) {
    w.Took? && WrapInt(w.count) >= REPORT
  }

  /** A report counts as sent exactly if 64 bytes or more were taken, in a count an `Int` can hold. */
  lemma SentIff(w: Written)
    ensures TakesWhole(w) <==> w.Took? && 64 <= w.count < 0x8000_0000
  {
  }

  /** The first of `n` writes, from the `k`-th on, that is not taken whole; `n` if all are. */
  function FirstRefused(taking: seq<Written>, k: nat, n: nat): (j: nat)
    requires k <= n
    ensures k <= j <= n
    ensures forall i :: k <= i < j ==> TakesWhole(Next(taking, i, WriteThrows))
    ensures j < n ==> !TakesWhole(Next(taking, j, WriteThrows))
    decreases n - k
  {
    if k == n || !TakesWhole(Next(taking, k, WriteThrows)) then k else FirstRefused(taking, k + 1, n)
  }

  function Be16(b: bytes, at: nat): (n: nat)
    requires at + 2 <= |b|
    ensures n < 0x1_0000
  {
    (b[at] as int) * 0x100 + b[at + 1]
  }

  /** The low sixteen bits of a number, big-endian. */
  function Low16(n: nat): (b: bytes)
    ensures |b| == 2 && Be16(b, 0) == n % 0x1_0000
  {
    var high, low := n / 0x100 % 0x100, n % 0x100;
    assert high * 0x100 + low == n % 0x1_0000;
    [high, low]
  }
}
