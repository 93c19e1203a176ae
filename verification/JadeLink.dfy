/**
 Jade over a byte stream: write the payload, then read until the bytes so far start with
 one complete CBOR value, and return all of them.
 */
module JadeLink {
  import opened Bytes
  import opened CborGrammar
  import opened CborScanner
  import opened CborTheorems
  import opened CborLimits

  const CHUNK := 1024

  /** One read as the stream will answer it: bytes (none means end of stream) or an exception. */
  datatype Read = Data(chunk: bytes) | Throws

  /** `taken` counts the reads consumed. `Crashed` is a JVM error: array index or memory. */
  datatype Outcome =
    | Message(message: bytes, taken: nat)
    | Oversized(taken: nat)
    | EndOfStream(taken: nat)
    | MalformedCbor(taken: nat)
    | StreamFailed(taken: nat)
    | Crashed(taken: nat)

  /** What the read loop does with the reads `rs`, having consumed `n` reads and `got` bytes. */
  function Gather(rs: seq<Read>, got: bytes, n: nat): (o: Outcome)
    ensures n <= o.taken <= n + |rs| + 1
    decreases rs
  {
    if rs == [] || rs[0].Throws? then StreamFailed(n + 1)
    else
      var chunk := rs[0].chunk;
      if |chunk| > CHUNK then Oversized(n + 1)
      else if chunk == [] then EndOfStream(n + 1)
      else if |got| + |chunk| > INT_MAX then Crashed(n + 1)
      else
        match ScanValue(Jvm, got + chunk, 0)
        case Complete(_) => Message(got + chunk, n + 1)
        case Malformed => MalformedCbor(n + 1)
        case Fault => Crashed(n + 1)
        case Incomplete => Gather(rs[1..], got + chunk, n + 1)
  }

  /** A serial port: what was written, and the answers it has left; it throws when out of them. */
  class SerialStream {
    var written: seq<bytes>
    var coming: seq<Read>
    const writable: bool

    constructor (coming: seq<Read>, writable: bool)
      ensures written == [] && this.coming == coming && this.writable == writable
    {
      written := [];
      this.coming := coming;
      this.writable := writable;
    }

    method WriteAll(data: bytes) returns (ok: bool)
      modifies this`written
      ensures ok == writable && written == old(written) + [data]
    {
      written := written + [data];
      ok := writable;
    }

    method ReadChunk() returns (r: Read)
      modifies this`coming
      ensures if old(coming) == [] then r == Throws && coming == []
              else r == old(coming)[0] && coming == old(coming)[1..]
    {
      if coming == [] {
        return Throws;
      }
      r := coming[0];
      coming := coming[1..];
    }
  }

  class JadeSerialLink {
    const stream: SerialStream

    constructor (stream: SerialStream)
      ensures this.stream == stream
    {
      this.stream := stream;
    }

    method Exchange(payload: bytes) returns (o: Outcome)
      modifies stream
      ensures stream.written == old(stream.written) + [payload]
      ensures o == if stream.writable then Gather(old(stream.coming), [], 0) else StreamFailed(0)
      ensures stream.coming == old(stream.coming)[Min(o.taken, |old(stream.coming)|)..]
    {
      var sent := stream.WriteAll(payload);
      if !sent {
        return StreamFailed(0);
      }
      var buffer: bytes := [];
      var n := 0;
      ghost var all := stream.coming;
      while true
        invariant n <= |all| && stream.coming == all[n..]
        invariant Gather(all, [], 0) == Gather(all[n..], buffer, n)
        invariant stream.written == old(stream.written) + [payload]
        decreases |stream.coming|
      {
        var r := stream.ReadChunk();
        if r.Throws? {
          return StreamFailed(n + 1);
        }
        var chunk := r.chunk;
        if |chunk| > CHUNK {
          return Oversized(n + 1);
        }
        if chunk == [] {
          return EndOfStream(n + 1);
        }
        if |buffer| + |chunk| > INT_MAX {
          return Crashed(n + 1);
        }
        buffer := buffer + chunk;
        var message := ToArray(buffer);
        var scan := IsComplete(message);
        if scan.Complete? {
          return Message(buffer, n + 1);
        } else if scan.Malformed? {
          return MalformedCbor(n + 1);
        } else if scan.Fault? {
          return Crashed(n + 1);
        }
        n := n + 1;
      }
    }
  }

  method ToArray(b: bytes) returns (a: array<u8>)
    ensures fresh(a) && a[..] == b
  {
    a := new u8[|b|](i requires 0 <= i < |b| => b[i]);
  }

  // ------------------------------------------------------------- the promises

  function Flatten(chunks: seq<bytes>): bytes {
    if chunks == [] then [] else chunks[0] + Flatten(chunks[1..])
  }

  function AsReads(chunks: seq<bytes>, more: seq<Read>): (rs: seq<Read>)
    ensures |rs| == |chunks| + |more|
  {
    if chunks == [] then more else [Data(chunks[0])] + AsReads(chunks[1..], more)
  }

  /** How many chunks it takes to have `size` bytes. */
  function Needed(chunks: seq<bytes>, size: int): (j: nat)
    ensures j <= |chunks|
  {
    if size <= 0 || chunks == [] then 0 else 1 + Needed(chunks[1..], size - |chunks[0]|)
  }

  lemma {:induction false} NeededIsLeast(chunks: seq<bytes>, size: int)
    requires 0 < size <= |Flatten(chunks)|
    ensures var j := Needed(chunks, size);
            j >= 1 && |Flatten(chunks[..j - 1])| < size <= |Flatten(chunks[..j])|
    ensures Flatten(chunks[..Needed(chunks, size)]) <= Flatten(chunks)
    decreases chunks
  {
    var j := Needed(chunks, size);
    FlattenTake(chunks, j);
    FlattenTake(chunks, j - 1);
    FlattenTake(chunks[1..], 0);
    if size > |chunks[0]| {
      NeededIsLeast(chunks[1..], size - |chunks[0]|);
    }
  }

  /** However the device splits a stream that starts with an item, the same item comes back. */
  lemma ChunkingDoesNotMatter(item: Item, chunks: seq<bytes>, more: seq<Read>)
    requires WellFormed(item) && Encode(item) <= Flatten(chunks)
    requires Fit(chunks)
    requires |Encode(item)| <= SAFE_INDEX - (CHUNK - 1)
    ensures var o := Gather(AsReads(chunks, more), [], 0);
            o.Message? && 1 <= o.taken <= |chunks|
            && o.message == Flatten(chunks[..o.taken])
            && Encode(item) <= o.message
            && |Flatten(chunks[..o.taken - 1])| < |Encode(item)|
            && |o.message| < |Encode(item)| + CHUNK
  {
    IsDetermined(item, Flatten(chunks));
    GatherWhole(Encode(item), chunks, more);
    TakenIsNeeded(Encode(item), chunks);
  }

  lemma GatherWhole(e: bytes, chunks: seq<bytes>, more: seq<Read>)
    requires e != [] && e <= Flatten(chunks) && Determined(e, Flatten(chunks))
    requires Fit(chunks) && |e| <= SAFE_INDEX - (CHUNK - 1)
    ensures var j := Needed(chunks, |e|); Gather(AsReads(chunks, more), [], 0) == Message(Flatten(chunks[..j]), j)
  {
    NothingBefore(Flatten(chunks));
    NothingBefore(Flatten(chunks[..Needed(chunks, |e|)]));
    var j := Needed(chunks, |e|);
    GatherItemAs(e, Flatten(chunks), [], chunks, more, 0, Flatten(chunks[..j]), j);
  }

  lemma NothingBefore(b: bytes)
    ensures [] + b == b
  {
  }

  lemma GatherItemAs(e: bytes, all: bytes, got: bytes, chunks: seq<bytes>, more: seq<Read>, n: nat,
                     message: bytes, taken: nat)
    requires all == got + Flatten(chunks) && |got| < |e| <= |all|
    requires Determined(e, all) && Fit(chunks) && |e| <= SAFE_INDEX - (CHUNK - 1)
    requires taken == n + Needed(chunks, |e| - |got|)
    requires message == got + Flatten(chunks[..Needed(chunks, |e| - |got|)])
    ensures Gather(AsReads(chunks, more), got, n) == Message(message, taken)
  {
    GatherItem(e, all, got, chunks, more, n);
  }

  lemma TakenIsNeeded(e: bytes, chunks: seq<bytes>)
    requires e != [] && e <= Flatten(chunks) && Fit(chunks)
    ensures var j := Needed(chunks, |e|);
            1 <= j <= |chunks| && e <= Flatten(chunks[..j]) && |Flatten(chunks[..j - 1])| < |e|
            && |Flatten(chunks[..j])| < |e| + CHUNK
  {
    NeededIsLeast(chunks, |e|);
    FlattenLast(chunks, Needed(chunks, |e|));
  }

  lemma IsDetermined(item: Item, all: bytes)
    requires WellFormed(item) && Encode(item) <= all
    ensures Determined(Encode(item), all)
  {
    var e := Encode(item);
    assert all == e + all[|e|..];
    forall k: nat | k <= |all| ensures ScanValue(Exact, all[..k], 0) == if k < |e| then Incomplete else Complete(|e|) {
      ItemOrPrefix(item, all[|e|..], k);
    }
  }

  /** Of every prefix of `all` the scanner says whether it holds the whole item `e`. */
  predicate Determined(e: bytes, all: bytes) {
    forall k: nat {:trigger all[..k]} :: k <= |all| ==>
      ScanValue(Exact, all[..k], 0) == if k < |e| then Incomplete else Complete(|e|)
  }

  predicate Fit(chunks: seq<bytes>) {
    forall k :: 0 <= k < |chunks| ==> 0 < |chunks[k]| <= CHUNK
  }

  lemma PartIs(e: bytes, all: bytes, now: bytes, rest: bytes)
    requires Determined(e, all) && all == now + rest && |now| <= SAFE_INDEX
    ensures ScanValue(Jvm, now, 0) == if |now| < |e| then Incomplete else Complete(|e|)
  {
    assert all[..|now|] == now;
    WrapAround(now, 0);
  }

  lemma {:induction false} GatherItem(e: bytes, all: bytes, got: bytes, chunks: seq<bytes>, more: seq<Read>, n: nat)
    requires all == got + Flatten(chunks) && |got| < |e| <= |all|
    requires Determined(e, all) && Fit(chunks) && |e| <= SAFE_INDEX - (CHUNK - 1)
    ensures var j := Needed(chunks, |e| - |got|);
            Gather(AsReads(chunks, more), got, n) == Message(got + Flatten(chunks[..j]), n + j)
    decreases chunks
  {
    var now := got + chunks[0];
    Regroup(got, chunks, |e| - |got|);
    AsReadsStep(chunks, more);
    GatherStep(got, chunks[0], AsReads(chunks, more), n);
    PartIs(e, all, now, Flatten(chunks[1..]));
    if |now| < |e| {
      GatherItem(e, all, now, chunks[1..], more, n + 1);
    }
  }

  /** The first chunk goes over to the bytes that are there. */
  lemma Regroup(got: bytes, chunks: seq<bytes>, size: int)
    requires size > 0 && chunks != []
    ensures got + Flatten(chunks) == (got + chunks[0]) + Flatten(chunks[1..])
    ensures var j := Needed(chunks[1..], size - |chunks[0]|);
            Needed(chunks, size) == 1 + j
            && got + Flatten(chunks[..1 + j]) == (got + chunks[0]) + Flatten(chunks[1..][..j])
            && (j == 0 ==> got + Flatten(chunks[..1]) == got + chunks[0])
  {
    NeededStep(chunks, size);
  }

  lemma NeededStep(chunks: seq<bytes>, size: int)
    requires size > 0 && chunks != []
    ensures Needed(chunks, size) == 1 + Needed(chunks[1..], size - |chunks[0]|)
    ensures Flatten(chunks[..Needed(chunks, size)])
         == chunks[0] + Flatten(chunks[1..][..Needed(chunks[1..], size - |chunks[0]|)])
  {
    FlattenTake(chunks, Needed(chunks, size));
  }

  lemma {:induction false} FlattenLast(chunks: seq<bytes>, j: nat)
    requires 1 <= j <= |chunks|
    ensures |Flatten(chunks[..j])| == |Flatten(chunks[..j - 1])| + |chunks[j - 1]|
    decreases chunks
  {
    FlattenTake(chunks, j);
    FlattenTake(chunks, j - 1);
    FlattenTake(chunks[1..], 0);
    if j > 1 {
      FlattenLast(chunks[1..], j - 1);
    }
  }

  lemma GatherStep(got: bytes, c: bytes, rs: seq<Read>, n: nat)
    requires rs != [] && rs[0] == Data(c) && 0 < |c| <= CHUNK && |got + c| <= INT_MAX
    ensures Gather(rs, got, n)
         == match ScanValue(Jvm, got + c, 0)
            case Complete(_) => Message(got + c, n + 1)
            case Incomplete => Gather(rs[1..], got + c, n + 1)
            case Malformed => MalformedCbor(n + 1)
            case Fault => Crashed(n + 1)
  {
  }

  lemma AsReadsStep(chunks: seq<bytes>, more: seq<Read>)
    requires chunks != []
    ensures var rs := AsReads(chunks, more);
            rs != [] && rs[0] == Data(chunks[0]) && rs[1..] == AsReads(chunks[1..], more)
  {
  }

  lemma FlattenTake(chunks: seq<bytes>, k: nat)
    requires k <= |chunks|
    ensures k == 0 ==> Flatten(chunks[..k]) == []
    ensures k > 0 ==> Flatten(chunks[..k]) == chunks[0] + Flatten(chunks[1..][..k - 1])
  {
    if k > 0 {
      assert chunks[..k][1..] == chunks[1..][..k - 1];
    }
  }

  ghost predicate StartsWithItem(b: bytes) {
    exists i :: WellFormed(i) && Encode(i) <= b
  }

  lemma CompleteStartsWithItem(b: bytes)
    requires ScanValue(Exact, b, 0).Complete?
    ensures StartsWithItem(b)
  {
    var i := ParseValue(Exact, b, 0);
    assert Encode(i) <= b;
  }

  /** The read that completed the message was needed: without its bytes the code asks for more. */
  predicate LastWasNeeded(o: Outcome, rs: seq<Read>, n: nat)
    requires o.Message?
  {
    n < o.taken <= n + |rs| && rs[o.taken - n - 1].Data?
    && var last := rs[o.taken - n - 1].chunk;
       |last| <= |o.message| && ScanValue(Jvm, o.message[..|o.message| - |last|], 0).Incomplete?
  }

  /** What a buffer the code calls complete can be: it starts with an item, or is huge and hopeless. */
  lemma CompleteMeans(b: bytes)
    requires |b| <= INT_MAX && ScanValue(Jvm, b, 0).Complete?
    ensures StartsWithItem(b) || (|b| > SAFE_LENGTH && !Viable(b))
  {
    WrapAround(b, 0);
    if ScanValue(Exact, b, 0).Complete? {
      CompleteStartsWithItem(b);
    } else {
      AnswersAreSafe(b);
    }
  }

  /**
   Whatever the device sends, at any length: a returned message ends as soon as it can and
   starts with a well-formed item, unless it is longer than 2^30 + 4 bytes and no item at all.
   */
  lemma {:induction false} GatherIsSound(rs: seq<Read>, got: bytes, n: nat)
    requires ScanValue(Jvm, got, 0).Incomplete?
    ensures var o := Gather(rs, got, n);
            o.Message? ==>
              LastWasNeeded(o, rs, n) && |o.message| <= INT_MAX
              && (StartsWithItem(o.message) || (|o.message| > SAFE_LENGTH && !Viable(o.message)))
    decreases rs
  {
    var o := Gather(rs, got, n);
    if o.Message? {
      var chunk := rs[0].chunk;
      var now := got + chunk;
      GatherStep(got, chunk, rs, n);
      if ScanValue(Jvm, now, 0).Complete? {
        CompleteMeans(now);
        assert now[..|now| - |chunk|] == got;
      } else {
        GatherIsSound(rs[1..], now, n + 1);
      }
    }
  }

  /** A stream that arrives byte by byte. */
  function Bytewise(b: bytes): seq<Read> {
    if b == [] then [] else [Data([b[0]])] + Bytewise(b[1..])
  }

  lemma {:induction false} BytewiseGathers(b: bytes, k: nat)
    requires k < |b| <= INT_MAX && ScanValue(Jvm, b, 0).Complete?
    requires forall j: nat {:trigger b[..j]} :: j < |b| ==> ScanValue(Jvm, b[..j], 0).Incomplete?
    ensures Gather(Bytewise(b[k..]), b[..k], k) == Message(b, |b|)
    decreases |b| - k
  {
    assert b[..k] + [b[k]] == b[..k + 1] && b[k..][1..] == b[k + 1..];
    GatherStep(b[..k], [b[k]], Bytewise(b[k..]), k);
    if k + 1 < |b| {
      BytewiseGathers(b, k + 1);
    } else {
      assert b[..k + 1] == b;
    }
  }

  /** Every message of at most `n` bytes starts with an item, whatever the device sends, iff `n` is a safe length. */
  lemma MessagesAreItemsIff(n: nat)
    requires n <= INT_MAX
    ensures (forall rs | Gather(rs, [], 0).Message? && |Gather(rs, [], 0).message| <= n
               :: StartsWithItem(Gather(rs, [], 0).message))
       <==> n <= SAFE_LENGTH
  {
    if n <= SAFE_LENGTH {
      forall rs | Gather(rs, [], 0).Message? && |Gather(rs, [], 0).message| <= n
        ensures StartsWithItem(Gather(rs, [], 0).message)
      {
        GatherIsSound(rs, [], 0);
      }
    } else {
      var b := OverflowingMap(SAFE_LENGTH + 1);
      OverflowIsReal(SAFE_LENGTH + 1);
      forall j: nat | j < |b| ensures ScanValue(Jvm, b[..j], 0).Incomplete? {
        OverflowComesLast(j);
      }
      BytewiseGathers(b, 0);
      assert b[0..] == b && b[..0] == [];
      assert Gather(Bytewise(b), [], 0).message == b;
      AnswersAreSafe(b);
    }
  }

  /** "Malformed" is reported only for a stream that starts no item, whatever its length and whatever is still to come. */
  lemma {:induction false} MalformedIsHopeless(chunks: seq<bytes>, more: seq<Read>, got: bytes, n: nat)
    requires Fit(chunks)
    requires var o := Gather(AsReads(chunks, more), got, n); o.MalformedCbor? && o.taken <= n + |chunks|
    ensures !Viable(got + Flatten(chunks))
    decreases chunks
  {
    if chunks != [] {
      var now, rest := got + chunks[0], Flatten(chunks[1..]);
      assert got + Flatten(chunks) == now + rest;
      AsReadsStep(chunks, more);
      GatherStep(got, chunks[0], AsReads(chunks, more), n);
      if ScanValue(Jvm, now, 0).Malformed? {
        WrapAround(now, 0);
        AnswersSurviveAppending(now, rest);
        AnswersAreSafe(now + rest);
      } else {
        MalformedIsHopeless(chunks[1..], more, now, n + 1);
      }
    }
  }

  // ------------------------------------------------ what any device can achieve

  /** The first `k` reads gave between 1 and 1024 bytes each. */
  predicate FirstData(rs: seq<Read>, k: nat) {
    k <= |rs| && forall i :: 0 <= i < k ==> rs[i].Data? && 0 < |rs[i].chunk| <= 1024
  }

  function Joined(rs: seq<Read>, k: nat): bytes
    requires FirstData(rs, k)
  {
    if k == 0 then [] else Joined(rs, k - 1) + rs[k - 1].chunk
  }

  /** The first `k` reads went well, and after each of them more bytes were needed. */
  predicate Going(rs: seq<Read>, k: nat) {
    FirstData(rs, k)
    && forall j :: 1 <= j <= k ==> |Joined(rs, j)| <= INT_MAX && ScanValue(Jvm, Joined(rs, j), 0).Incomplete?
  }

  /** What happens at read `k`, when the loop gets there. */
  predicate EndsWith(rs: seq<Read>, k: nat, o: Outcome)
    requires Going(rs, k)
  {
    if k == |rs| || rs[k].Throws? then o == StreamFailed(k + 1)
    else if |rs[k].chunk| > 1024 then o == Oversized(k + 1)
    else if rs[k].chunk == [] then o == EndOfStream(k + 1)
    else
      var b := Joined(rs, k + 1);
      if |b| > INT_MAX then o == Crashed(k + 1)
      else match ScanValue(Jvm, b, 0)
        case Complete(_) => o == Message(b, k + 1)
        case Malformed => o == MalformedCbor(k + 1)
        case Fault => o == Crashed(k + 1)
        case Incomplete => false
  }

  /** Where the loop stands after `k` reads. */
  lemma {:induction false} GatherAfter(rs: seq<Read>, k: nat)
    requires Going(rs, k)
    ensures Gather(rs, [], 0) == Gather(rs[k..], Joined(rs, k), k)
    decreases k
  {
    if k == 0 {
      assert rs[0..] == rs;
    } else {
      GoingBefore(rs, k);
      GatherAfter(rs, k - 1);
      OneMore(rs[k - 1..], rs[k - 1].chunk, rs[k..], Joined(rs, k - 1), k - 1);
    }
  }

  lemma GoingBefore(rs: seq<Read>, k: nat)
    requires k > 0 && Going(rs, k)
    ensures Going(rs, k - 1) && rs[k - 1].Data? && 0 < |rs[k - 1].chunk| <= 1024
    ensures var b := Joined(rs, k - 1) + rs[k - 1].chunk; |b| <= INT_MAX && ScanValue(Jvm, b, 0).Incomplete?
    ensures rs[k - 1..] == [Data(rs[k - 1].chunk)] + rs[k..]
  {
    assert |Joined(rs, k)| <= INT_MAX && ScanValue(Jvm, Joined(rs, k), 0).Incomplete?;
  }

  lemma OneMore(rs: seq<Read>, chunk: bytes, rest: seq<Read>, got: bytes, n: nat)
    requires rs == [Data(chunk)] + rest && 0 < |chunk| <= 1024
    requires |got + chunk| <= INT_MAX && ScanValue(Jvm, got + chunk, 0).Incomplete?
    ensures Gather(rs, got, n) == Gather(rest, got + chunk, n + 1)
  {
    assert rs[1..] == rest;
    GatherStep(got, chunk, rs, n);
  }

  lemma EndIsRight(rs: seq<Read>, k: nat)
    requires Going(rs, k) && !Going(rs, k + 1)
    ensures EndsWith(rs, k, Gather(rs, [], 0))
  {
    GatherAfter(rs, k);
    if k < |rs| {
      assert rs[k..][0] == rs[k];
      if FirstData(rs, k + 1) {
        LastRead(rs, k);
      }
    }
  }

  lemma LastRead(rs: seq<Read>, k: nat)
    requires Going(rs, k) && !Going(rs, k + 1) && FirstData(rs, k + 1)
    ensures EndsWith(rs, k, Gather(rs[k..], Joined(rs, k), k))
  {
    assert rs[k..][0] == rs[k];
    var b := Joined(rs, k + 1);
    if |b| <= INT_MAX {
      assert !ScanValue(Jvm, b, 0).Incomplete?;
      GatherStep(Joined(rs, k), rs[k].chunk, rs[k..], k);
    }
  }

  /** The loop stops somewhere. */
  lemma {:induction false} Stops(rs: seq<Read>, k: nat) returns (e: nat)
    requires Going(rs, k)
    ensures Going(rs, e) && !Going(rs, e + 1)
    decreases |rs| - k
  {
    e := k;
    if Going(rs, k + 1) {
      e := Stops(rs, k + 1);
    }
  }

  /** For every sequence of reads: what comes of it, and exactly when. */
  lemma OutcomeIff(rs: seq<Read>, o: Outcome)
    ensures Gather(rs, [], 0) == o <==> exists k: nat :: Going(rs, k) && !Going(rs, k + 1) && EndsWith(rs, k, o)
  {
    var e := Stops(rs, 0);
    EndIsRight(rs, e);
    forall k: nat | Going(rs, k) && !Going(rs, k + 1) && EndsWith(rs, k, o) ensures Gather(rs, [], 0) == o {
      EndIsRight(rs, k);
    }
  }
}
