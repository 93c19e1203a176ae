/**
 What the scanner answers, said in terms of the grammar: it finds exactly the well-formed
 items, it calls every proper prefix of one incomplete, its answers survive appending and
 cutting, and 32-bit arithmetic spoils none of this up to a length that is exactly known.
 */
module CborTheorems {
  import opened Bytes
  import opened CborGrammar
  import opened CborScanner

  // ------------------------------------------------------------ completeness

  lemma InitialByte(major: nat, info: nat)
    requires major < 8 && info < 32
    ensures (major * 32 + info) / 32 == major && (major * 32 + info) % 32 == info
  {
  }

  lemma HeadIsRead(m: Rules, major: nat, a: Arg, b: bytes, at: nat)
    requires m != Jvm && major < 8 && ValidArg(a) && At(b, at, EncodeHead(major, a))
    ensures at < |b| && ReadHead(m, b, at) == Sized(major, Value(a), at + |EncodeHead(major, a)|)
  {
    var first: u8 := major * 32 + Info(a);
    InitialByte(major, Info(a));
    AtParts(b, at, [first], Follow(a));
    AtFirst(b, at, [first]);
  }

  lemma HeadThenBody(m: Rules, major: nat, a: Arg, body: bytes, b: bytes, at: nat)
    requires m != Jvm && major < 8 && ValidArg(a) && At(b, at, EncodeHead(major, a) + body)
    ensures at < |b| && ReadHead(m, b, at) == Sized(major, Value(a), at + |EncodeHead(major, a)|)
    ensures At(b, at + |EncodeHead(major, a)|, body)
  {
    AtParts(b, at, EncodeHead(major, a), body);
    HeadIsRead(m, major, a, b, at);
  }

  /** What a complete head makes of the bytes behind it. */
  lemma SizedStep(m: Rules, b: bytes, at: nat, major: nat, arg: nat, pos: nat)
    requires m != Jvm && at < |b| && ReadHead(m, b, at) == Sized(major, arg, pos)
    ensures major in {0, 1, 7} ==> ScanValue(m, b, at) == Complete(pos)
    ensures major == 6 ==> ScanValue(m, b, at) == ScanValue(m, b, pos)
    ensures major in {2, 3} && arg <= |b| - pos ==> ScanValue(m, b, at) == Complete(pos + arg)
    ensures major == 4 && arg <= |b| - pos ==> ScanValue(m, b, at) == ScanItems(m, b, pos, arg)
    ensures major == 5 && arg <= |b| - pos ==> ScanValue(m, b, at) == ScanItems(m, b, pos, 2 * arg)
  {
  }

  /** Every well-formed item is found, whatever comes before and after it. */
  lemma {:induction false} ScanAccepts(m: Rules, i: Item, b: bytes, at: nat)
    requires m != Jvm && WellFormed(i) && At(b, at, Encode(i))
    ensures ScanValue(m, b, at) == Complete(at + |Encode(i)|)
    decreases i, 2
  {
    match i {
      case Atom(major, arg) => HeadIsRead(m, major, arg, b, at);
      case Str(_, _, _) => ScanAcceptsStr(m, i, b, at);
      case Chunked(_, _) => ScanAcceptsChunked(m, i, b, at);
      case Array(_, _) => ScanAcceptsContainer(m, i, b, at);
      case Map(_, _) => ScanAcceptsContainer(m, i, b, at);
      case OpenArray(_) => ScanAcceptsIndefinite(m, i, b, at);
      case OpenMap(_) => ScanAcceptsIndefinite(m, i, b, at);
      case Tag(_, _) => ScanAcceptsTag(m, i, b, at);
    }
  }

  lemma ScanAcceptsStr(m: Rules, i: Item, b: bytes, at: nat)
    requires m != Jvm && i.Str? && WellFormed(i) && At(b, at, Encode(i))
    ensures ScanValue(m, b, at) == Complete(at + |Encode(i)|)
  {
    HeadThenBody(m, i.major, i.arg, i.body, b, at);
    SizedStep(m, b, at, i.major, Value(i.arg), at + |EncodeHead(i.major, i.arg)|);
  }

  lemma {:induction false} ScanAcceptsTag(m: Rules, i: Item, b: bytes, at: nat)
    requires m != Jvm && i.Tag? && WellFormed(i) && At(b, at, Encode(i))
    ensures ScanValue(m, b, at) == Complete(at + |Encode(i)|)
    decreases i, 1
  {
    HeadThenBody(m, 6, i.arg, Encode(i.item), b, at);
    var pos := at + |EncodeHead(6, i.arg)|;
    ScanAccepts(m, i.item, b, pos);
    SizedStep(m, b, at, 6, Value(i.arg), pos);
  }

  lemma {:induction false} ScanAcceptsContainer(m: Rules, i: Item, b: bytes, at: nat)
    requires m != Jvm && (i.Array? || i.Map?) && WellFormed(i) && At(b, at, Encode(i))
    ensures ScanValue(m, b, at) == Complete(at + |Encode(i)|)
    decreases i, 1
  {
    var major := if i.Array? then 4 else 5;
    HeadThenBody(m, major, i.arg, EncodeAll(i.items), b, at);
    ScanAcceptsBody(m, major, i.arg, i.items, b, at);
  }

  lemma {:induction false} ScanAcceptsBody(m: Rules, major: nat, a: Arg, l: Items, b: bytes, at: nat)
    requires m != Jvm && major in {4, 5} && ValidArg(a) && AllWellFormed(l) && at < |b|
    requires Len(l) == if major == 4 then Value(a) else 2 * Value(a)
    requires ReadHead(m, b, at) == Sized(major, Value(a), at + |EncodeHead(major, a)|)
    requires At(b, at + |EncodeHead(major, a)|, EncodeAll(l))
    ensures ScanValue(m, b, at) == Complete(at + |EncodeHead(major, a)| + |EncodeAll(l)|)
    decreases l, 2
  {
    var pos := at + |EncodeHead(major, a)|;
    ScanAcceptsAll(m, l, b, pos);
    SizedStep(m, b, at, major, Value(a), pos);
  }

  lemma {:induction false} ScanAcceptsChunked(m: Rules, i: Item, b: bytes, at: nat)
    requires m != Jvm && i.Chunked? && WellFormed(i) && At(b, at, Encode(i))
    ensures ScanValue(m, b, at) == Complete(at + |Encode(i)|)
    decreases i, 1
  {
    ChunksAreWellFormed(i.chunks, i.major);
    Enclosed(b, at, i.major * 32 + 31, EncodeAll(i.chunks));
    ScanAcceptsChunks(m, i.chunks, i.major, b, at + 1);
    IndefiniteStep(m, b, at, i.major);
  }

  lemma {:induction false} ScanAcceptsIndefinite(m: Rules, i: Item, b: bytes, at: nat)
    requires m != Jvm && (i.OpenArray? || i.OpenMap?) && WellFormed(i) && At(b, at, Encode(i))
    ensures ScanValue(m, b, at) == Complete(at + |Encode(i)|)
    decreases i, 1
  {
    var major := if i.OpenArray? then 4 else 5;
    Enclosed(b, at, major * 32 + 31, EncodeAll(i.items));
    ScanAcceptsOpen(m, i.items, b, at + 1);
    IndefiniteStep(m, b, at, major);
  }

  lemma Enclosed(b: bytes, at: nat, first: u8, e: bytes)
    requires At(b, at, [first] + (e + [0xff]))
    ensures b[at] == first && At(b, at + 1, e) && at + 1 + |e| < |b| && b[at + 1 + |e|] == 0xff
  {
    AtFirst(b, at, [first] + (e + [0xff]));
    AtParts(b, at, [first], e + [0xff]);
    AtParts(b, at + 1, e, [0xff]);
    AtFirst(b, at + 1 + |e|, [0xff]);
  }

  lemma IndefiniteStep(m: Rules, b: bytes, at: nat, major: nat)
    requires at < |b| && b[at] == major * 32 + 31 && 2 <= major <= 5
    ensures ScanValue(m, b, at)
         == if major <= 3 then ScanChunks(m, b, at + 1, major) else ScanItems(m, b, at + 1, -1)
  {
  }

  lemma {:induction false} HeadIsFound(m: Rules, l: Items, b: bytes, at: nat) returns (mid: nat)
    requires m != Jvm && l.Cons? && AllWellFormed(l) && At(b, at, EncodeAll(l))
    ensures at < mid && at + |EncodeAll(l)| == mid + |EncodeAll(l.tail)| && At(b, mid, EncodeAll(l.tail))
    ensures at < |b| && b[at] != BREAK && ScanValue(m, b, at) == Complete(mid)
    decreases l, 0
  {
    mid := HeadThenTail(l, b, at);
    ScanAccepts(m, l.head, b, at);
  }

  lemma {:induction false} ScanAcceptsAll(m: Rules, l: Items, b: bytes, at: nat)
    requires m != Jvm && AllWellFormed(l) && At(b, at, EncodeAll(l))
    ensures ScanItems(m, b, at, Len(l)) == Complete(at + |EncodeAll(l)|)
    decreases l, 1
  {
    if l.Cons? {
      var mid := HeadIsFound(m, l, b, at);
      ScanAcceptsAll(m, l.tail, b, mid);
      ItemsStep(m, b, at, Len(l));
    }
  }

  lemma {:induction false} ScanAcceptsOpen(m: Rules, l: Items, b: bytes, at: nat)
    requires m != Jvm && AllWellFormed(l) && At(b, at, EncodeAll(l))
    requires at + |EncodeAll(l)| < |b| && b[at + |EncodeAll(l)|] == 0xff
    ensures ScanItems(m, b, at, -1) == Complete(at + |EncodeAll(l)| + 1)
    decreases l, 1
  {
    if l.Cons? {
      var mid := HeadIsFound(m, l, b, at);
      ScanAcceptsOpen(m, l.tail, b, mid);
      ItemsStep(m, b, at, -1);
    }
  }

  lemma {:induction false} ScanAcceptsChunks(m: Rules, l: Items, major: nat, b: bytes, at: nat)
    requires m != Jvm && AllChunks(l, major) && AllWellFormed(l) && At(b, at, EncodeAll(l))
    requires at + |EncodeAll(l)| < |b| && b[at + |EncodeAll(l)|] == 0xff
    ensures ScanChunks(m, b, at, major) == Complete(at + |EncodeAll(l)| + 1)
    decreases l, 0
  {
    if l.Cons? {
      var mid := HeadThenTail(l, b, at);
      StrFirstByte(l.head);
      ScanAcceptsStr(m, l.head, b, at);
      ScanAcceptsChunks(m, l.tail, major, b, mid);
      ChunksStep(m, b, at, major);
    }
  }

  /** The head of a list of items lies in front of its tail, and does not start with a break. */
  lemma HeadThenTail(l: Items, b: bytes, at: nat) returns (mid: nat)
    requires l.Cons? && AllWellFormed(l) && At(b, at, EncodeAll(l))
    ensures mid == at + |Encode(l.head)| && at + |EncodeAll(l)| == mid + |EncodeAll(l.tail)|
    ensures At(b, at, Encode(l.head)) && At(b, mid, EncodeAll(l.tail))
    ensures at < |b| && b[at] == Encode(l.head)[0] != BREAK
  {
    mid := at + |Encode(l.head)|;
    AtParts(b, at, Encode(l.head), EncodeAll(l.tail));
    AtFirst(b, at, Encode(l.head));
  }

  lemma StrFirstByte(i: Item)
    requires WellFormed(i) && i.Str?
    ensures Encode(i)[0] / 32 == i.major && Encode(i)[0] % 32 < 28
  {
  }

  lemma ItemsStep(m: Rules, b: bytes, pos: nat, count: int)
    requires pos < |b| && count != 0 && !(count < 0 && b[pos] == BREAK) && ScanValue(m, b, pos).Complete?
    ensures ScanItems(m, b, pos, count)
         == ScanItems(m, b, ScanValue(m, b, pos).end, if count < 0 then count else count - 1)
  {
  }

  lemma ChunksStep(m: Rules, b: bytes, pos: nat, major: int)
    requires pos < |b| && b[pos] != BREAK && b[pos] / 32 == major && b[pos] % 32 != 31
    requires ScanValue(m, b, pos).Complete?
    ensures ScanChunks(m, b, pos, major) == ScanChunks(m, b, ScanValue(m, b, pos).end, major)
  {
  }

  // --------------------------------------------------------------- soundness

  /** The argument a complete head spells. */
  function ArgAt(b: bytes, at: nat): Arg
    requires at < |b|
  {
    if b[at] % 32 < 24 then Direct(b[at] % 32)
    else
      var past := at + 1 + Width(b[at] % 32);
      if past <= |b| then Wide(b[at + 1..past]) else Direct(0)
  }

  lemma HeadWasWritten(m: Rules, b: bytes, at: nat)
    requires m != Jvm && at < |b| && ReadHead(m, b, at).Sized?
    ensures var h := ReadHead(m, b, at); var a := ArgAt(b, at);
            ValidArg(a) && Value(a) == h.arg && EncodeHead(h.major, a) == b[at..h.next]
  {
    var h := ReadHead(m, b, at);
    assert b[at..h.next] == [b[at]] + b[at + 1..h.next];
  }

  /** What the scanner calls a value is one item of the relaxed grammar, and here it is. */
  lemma {:induction false} ParseValue(m: Rules, b: bytes, at: nat) returns (i: Item)
    requires m != Jvm && at <= |b| && ScanValue(m, b, at).Complete?
    ensures WellFormed(i) && Encode(i) == b[at..ScanValue(m, b, at).end]
    decreases |b| - at, 1
  {
    if ReadHead(m, b, at).Open? && ReadHead(m, b, at).major <= 3 {
      i := ParseOpenString(m, b, at);
    } else if ReadHead(m, b, at).Open? {
      i := ParseOpenItems(m, b, at);
    } else {
      i := ParseDefinite(m, b, at);
    }
  }

  lemma {:induction false} ParseOpenItems(m: Rules, b: bytes, at: nat) returns (i: Item)
    requires m != Jvm && at < |b| && ScanValue(m, b, at).Complete? && ReadHead(m, b, at).Open?
    requires ReadHead(m, b, at).major > 3
    ensures WellFormed(i) && Encode(i) == b[at..ScanValue(m, b, at).end]
    decreases |b| - at, 0
  {
    IndefiniteStep(m, b, at, ReadHead(m, b, at).major);
    var l := ParseItems(m, b, at + 1, -1);
    i := OpenBytes(b, at, ScanItems(m, b, at + 1, -1).end, l);
  }

  lemma {:induction false} ParseOpenString(m: Rules, b: bytes, at: nat) returns (i: Item)
    requires m != Jvm && at < |b| && ScanValue(m, b, at).Complete? && ReadHead(m, b, at).Open?
    requires ReadHead(m, b, at).major <= 3
    ensures WellFormed(i) && Encode(i) == b[at..ScanValue(m, b, at).end]
    decreases |b| - at, 0
  {
    var major := ReadHead(m, b, at).major;
    IndefiniteStep(m, b, at, major);
    var l := ParseChunks(m, b, at + 1, major);
    i := OpenBytes(b, at, ScanChunks(m, b, at + 1, major).end, l);
  }

  /** An indefinite head, then `l`, then a break. */
  lemma OpenBytes(b: bytes, at: nat, end: nat, l: Items) returns (i: Item)
    requires at < end <= |b| && b[at] in {0x5f, 0x7f, 0x9f, 0xbf} && AllWellFormed(l)
    requires b[at] < 0x80 ==> AllChunks(l, b[at] / 32)
    requires b[at + 1..end] == EncodeAll(l) + [0xff]
    ensures WellFormed(i) && Encode(i) == b[at..end]
  {
    assert b[at..end] == [b[at]] + b[at + 1..end];
    i := if b[at] < 0x80 then Chunked(b[at] / 32, l) else if b[at] == 0x9f then OpenArray(l) else OpenMap(l);
  }

  lemma {:induction false} ParseDefinite(m: Rules, b: bytes, at: nat) returns (i: Item)
    requires m != Jvm && at < |b| && ScanValue(m, b, at).Complete? && ReadHead(m, b, at).Sized?
    ensures WellFormed(i) && Encode(i) == b[at..ScanValue(m, b, at).end]
    decreases |b| - at, 0
  {
    var end := ScanValue(m, b, at).end;
    var h := ReadHead(m, b, at);
    HeadWasWritten(m, b, at);
    var a := ArgAt(b, at);
    assert b[at..end] == b[at..h.next] + b[h.next..end];
    if h.major == 0 || h.major == 1 || h.major == 7 {
      i := Atom(h.major, a);
    } else if h.major == 6 {
      var inner := ParseValue(m, b, h.next);
      i := Tag(a, inner);
    } else if h.major <= 3 {
      i := Str(h.major, a, b[h.next..end]);
    } else {
      var l := ParseItems(m, b, h.next, if h.major == 4 then h.arg else 2 * h.arg);
      i := if h.major == 4 then Array(a, l) else Map(a, l);
    }
  }

  lemma {:induction false} ParseItems(m: Rules, b: bytes, pos: nat, count: int) returns (l: Items)
    requires m != Jvm && pos <= |b| && ScanItems(m, b, pos, count).Complete?
    ensures AllWellFormed(l)
    ensures count >= 0 ==> Len(l) == count
    ensures b[pos..ScanItems(m, b, pos, count).end] == EncodeAll(l) + if count < 0 then [0xff] else []
    decreases |b| - pos, 2
  {
    if count == 0 || (count < 0 && b[pos] == BREAK) {
      l := Nil;
    } else {
      ItemsStep(m, b, pos, count);
      var mid := ScanValue(m, b, pos).end;
      var next := if count < 0 then count else count - 1;
      var head := ParseValue(m, b, pos);
      var tail := ParseItems(m, b, mid, next);
      l := Cons(head, tail);
      Glue(b, pos, mid, ScanItems(m, b, mid, next).end, Encode(head), EncodeAll(tail),
           if count < 0 then [0xff] else []);
    }
  }

  lemma {:induction false} ParseChunks(m: Rules, b: bytes, pos: nat, major: int) returns (l: Items)
    requires m != Jvm && pos <= |b| && major in {2, 3} && ScanChunks(m, b, pos, major).Complete?
    ensures AllChunks(l, major) && AllWellFormed(l)
    ensures b[pos..ScanChunks(m, b, pos, major).end] == EncodeAll(l) + [0xff]
    decreases |b| - pos, 2
  {
    if b[pos] == BREAK {
      l := Nil;
    } else {
      ChunksStep(m, b, pos, major);
      var mid := ScanValue(m, b, pos).end;
      var head := ParseValue(m, b, pos);
      assert b[pos..mid][0] == b[pos];
      FirstByteTells(head, major);
      var tail := ParseChunks(m, b, mid, major);
      l := Cons(head, tail);
      Glue(b, pos, mid, ScanChunks(m, b, mid, major).end, Encode(head), EncodeAll(tail), [0xff]);
    }
  }

  lemma Glue(b: bytes, pos: nat, mid: nat, end: nat, x: bytes, y: bytes, z: bytes)
    requires pos <= mid <= end <= |b| && b[pos..mid] == x && b[mid..end] == y + z
    ensures b[pos..end] == (x + y) + z
  {
    assert b[pos..end] == b[pos..mid] + b[mid..end];
  }

  lemma FirstByteTells(i: Item, major: nat)
    requires WellFormed(i) && major in {2, 3}
    requires Encode(i)[0] / 32 == major && Encode(i)[0] % 32 != 31
    ensures i.Str? && i.major == major
  {
  }

  /** The scanner recognises the relaxed grammar, no more and no less. */
  lemma ScannerRecognisesGrammar(b: bytes, p: nat)
    ensures ScanValue(Exact, b, 0) == Complete(p)
       <==> p <= |b| && exists i :: WellFormed(i) && Encode(i) == b[..p]
  {
    if ScanValue(Exact, b, 0) == Complete(p) {
      var i := ParseValue(Exact, b, 0);
      assert Encode(i) == b[..p];
    }
    if p <= |b| && exists i :: WellFormed(i) && Encode(i) == b[..p] {
      var i :| WellFormed(i) && Encode(i) == b[..p];
      ScanAccepts(Exact, i, b, 0);
    }
  }

  // ------------------------------------------------------ cutting and growing

  lemma HeadOfPrefix(m: Rules, b: bytes, n: nat, at: nat)
    requires m != Jvm && at < n <= |b|
    ensures var s := ReadHead(m, b[..n], at); var r := ReadHead(m, b, at);
            s == r || (s.Short? && r.Sized? && r.next > n) || (s.Short? && r.Short?)
  {
    var past := at + 1 + Width(b[at] % 32);
    if past <= n {
      assert b[..n][at + 1..past] == b[at + 1..past];
    }
  }

  /**
   Cutting a buffer to its first `n` bytes can only turn an answer into "incomplete", and
   does not even do that to a value that ends within them.
   */
  lemma {:induction false} CutValue(m: Rules, b: bytes, n: nat, at: nat)
    requires m != Jvm && at <= n <= |b|
    ensures var r := ScanValue(m, b, at); var s := ScanValue(m, b[..n], at);
            (s == r || s.Incomplete?) && (r.Complete? && r.end <= n ==> s == r)
    decreases |b| - at, 0
  {
    if at < n {
      HeadOfPrefix(m, b, n, at);
      var s := ReadHead(m, b[..n], at);
      if s.Open? {
        if s.major == 2 || s.major == 3 {
          CutChunks(m, b, n, s.next, s.major);
        } else {
          CutItems(m, b, n, s.next, -1);
        }
      } else if s.Sized? {
        if s.major == 6 {
          CutValue(m, b, n, s.next);
        } else if s.major == 4 {
          CutItems(m, b, n, s.next, s.arg);
        } else if s.major == 5 {
          CutItems(m, b, n, s.next, 2 * s.arg);
        }
      }
    }
  }

  lemma {:induction false} CutItems(m: Rules, b: bytes, n: nat, pos: nat, count: int)
    requires m != Jvm && pos <= n <= |b|
    ensures var r := ScanItems(m, b, pos, count); var s := ScanItems(m, b[..n], pos, count);
            (s == r || s.Incomplete?) && (r.Complete? && r.end <= n ==> s == r)
    decreases |b| - pos, 1
  {
    if count != 0 && pos < n && !(count < 0 && b[pos] == BREAK) {
      CutValue(m, b, n, pos);
      var s := ScanValue(m, b[..n], pos);
      if s.Complete? {
        CutItems(m, b, n, s.end, if count < 0 then count else count - 1);
      }
    }
  }

  lemma {:induction false} CutChunks(m: Rules, b: bytes, n: nat, pos: nat, major: int)
    requires m != Jvm && pos <= n <= |b|
    ensures var r := ScanChunks(m, b, pos, major); var s := ScanChunks(m, b[..n], pos, major);
            (s == r || s.Incomplete?) && (r.Complete? && r.end <= n ==> s == r)
    decreases |b| - pos, 1
  {
    if pos < n && b[pos] != BREAK && b[pos] / 32 == major && b[pos] % 32 != 31 {
      CutValue(m, b, n, pos);
      var s := ScanValue(m, b[..n], pos);
      if s.Complete? {
        CutChunks(m, b, n, s.end, major);
      }
    }
  }

  /** Appending bytes never changes an answer other than "incomplete". */
  lemma AnswersSurviveAppending(b: bytes, x: bytes)
    ensures !ScanValue(Exact, b, 0).Incomplete? ==> ScanValue(Exact, b + x, 0) == ScanValue(Exact, b, 0)
  {
    assert (b + x)[..|b|] == b;
    CutValue(Exact, b + x, |b|, 0);
  }

  /** A value is still found when the buffer is cut right behind it, and not a byte earlier. */
  lemma ValueIsTight(b: bytes, n: nat)
    requires n <= |b| && ScanValue(Exact, b, 0).Complete?
    ensures ScanValue(Exact, b[..n], 0)
         == if n < ScanValue(Exact, b, 0).end then Incomplete else ScanValue(Exact, b, 0)
  {
    CutValue(Exact, b, n, 0);
  }

  /** A well-formed item scans to its length before any bytes; a proper prefix is incomplete. */
  lemma ItemOrPrefix(i: Item, rest: bytes, n: nat)
    requires WellFormed(i) && n <= |Encode(i) + rest|
    ensures ScanValue(Exact, (Encode(i) + rest)[..n], 0)
         == if n < |Encode(i)| then Incomplete else Complete(|Encode(i)|)
  {
    var b := Encode(i) + rest;
    assert b[..|Encode(i)|] == Encode(i);
    ScanAccepts(Exact, i, b, 0);
    ValueIsTight(b, n);
  }

  // ------------------------------------------------------------- one reading

  ghost predicate Stops(b: bytes, at: nat, l: Items)
    requires AllWellFormed(l)
  {
    at + |EncodeAll(l)| < |b| && b[at + |EncodeAll(l)|] == BREAK
  }

  /** No bytes are the start of two different items. */
  lemma {:induction false} Unambiguous(i: Item, j: Item, b: bytes, at: nat)
    requires WellFormed(i) && WellFormed(j) && At(b, at, Encode(i)) && At(b, at, Encode(j))
    ensures i == j
    decreases i, 1
  {
    AtFirst(b, at, Encode(i));
    AtFirst(b, at, Encode(j));
    if IsIndefinite(i) || IsIndefinite(j) {
      FirstByteIndefinite(i);
      FirstByteIndefinite(j);
      UnambiguousIndefinite(i, j, b, at);
    } else {
      var x, y := HeadArg(i), HeadArg(j);
      SameHead(i, j, b, at);
      if i.Str? {
        AtParts(b, at, EncodeHead(i.major, x), i.body);
        AtParts(b, at, EncodeHead(i.major, x), j.body);
      } else if i.Array? || i.Map? {
        UnambiguousContainer(i, j, b, at);
      } else if i.Tag? {
        AtParts(b, at, EncodeHead(6, x), Encode(i.item));
        AtParts(b, at, EncodeHead(6, x), Encode(j.item));
        Unambiguous(i.item, j.item, b, at + |EncodeHead(6, x)|);
      }
    }
  }

  predicate IsIndefinite(i: Item) {
    i.Chunked? || i.OpenArray? || i.OpenMap?
  }

  function IndefiniteMajor(i: Item): nat
    requires IsIndefinite(i)
  {
    if i.Chunked? then i.major else if i.OpenArray? then 4 else 5
  }

  lemma FirstByteIndefinite(i: Item)
    requires WellFormed(i)
    ensures IsIndefinite(i) <==> Encode(i)[0] % 32 == 31
    ensures IsIndefinite(i) ==> Encode(i)[0] / 32 == IndefiniteMajor(i)
  {
    if !IsIndefinite(i) {
      InitialByte(HeadMajor(i), Info(HeadArg(i)));
    }
  }

  function HeadMajor(i: Item): (major: nat)
    requires WellFormed(i) && !IsIndefinite(i)
    ensures major < 8
  {
    match i
    case Atom(major, _) => major
    case Str(major, _, _) => major
    case Array(_, _) => 4
    case Map(_, _) => 5
    case Tag(_, _) => 6
  }

  function HeadArg(i: Item): (a: Arg)
    requires WellFormed(i) && !IsIndefinite(i)
    ensures ValidArg(a)
    ensures EncodeHead(HeadMajor(i), a) <= Encode(i)
  {
    i.arg
  }

  lemma SameHead(i: Item, j: Item, b: bytes, at: nat)
    requires WellFormed(i) && WellFormed(j) && !IsIndefinite(i) && !IsIndefinite(j)
    requires At(b, at, Encode(i)) && At(b, at, Encode(j))
    ensures HeadMajor(i) == HeadMajor(j) && HeadArg(i) == HeadArg(j)
  {
    var h, k := EncodeHead(HeadMajor(i), HeadArg(i)), EncodeHead(HeadMajor(j), HeadArg(j));
    AtParts(b, at, h, Encode(i)[|h|..]);
    AtParts(b, at, k, Encode(j)[|k|..]);
    HeadsAgree(HeadMajor(i), HeadArg(i), HeadMajor(j), HeadArg(j), b, at);
  }

  lemma HeadsAgree(major: nat, x: Arg, minor: nat, y: Arg, b: bytes, at: nat)
    requires major < 8 && minor < 8 && ValidArg(x) && ValidArg(y)
    requires At(b, at, EncodeHead(major, x)) && At(b, at, EncodeHead(minor, y))
    ensures major == minor && x == y
  {
    InitialByte(major, Info(x));
    InitialByte(minor, Info(y));
    AtFirst(b, at, EncodeHead(major, x));
    AtFirst(b, at, EncodeHead(minor, y));
    AtParts(b, at, [EncodeHead(major, x)[0]], Follow(x));
    AtParts(b, at, [EncodeHead(minor, y)[0]], Follow(y));
  }

  lemma {:induction false} UnambiguousContainer(i: Item, j: Item, b: bytes, at: nat)
    requires WellFormed(i) && WellFormed(j) && (i.Array? || i.Map?)
    requires i.Array? <==> j.Array?
    requires i.Map? <==> j.Map?
    requires i.arg == j.arg && At(b, at, Encode(i)) && At(b, at, Encode(j))
    ensures i == j
    decreases i, 0
  {
    var h := EncodeHead(if i.Array? then 4 else 5, i.arg);
    AtParts(b, at, h, EncodeAll(i.items));
    AtParts(b, at, h, EncodeAll(j.items));
    UnambiguousAll(i.items, j.items, b, at + |h|);
  }

  function Inner(i: Item): (l: Items)
    requires WellFormed(i) && IsIndefinite(i)
    ensures AllWellFormed(l) && l < i
  {
    if i.Chunked? then
      ChunksAreWellFormed(i.chunks, i.major);
      i.chunks
    else i.items
  }

  /** Behind the first byte of an indefinite item come its items and a break. */
  lemma InnerBytes(i: Item, b: bytes, at: nat)
    requires WellFormed(i) && IsIndefinite(i) && At(b, at, Encode(i))
    ensures At(b, at + 1, EncodeAll(Inner(i))) && Stops(b, at + 1, Inner(i))
  {
    Enclosed(b, at, IndefiniteMajor(i) * 32 + 31, EncodeAll(Inner(i)));
  }

  lemma SameInside(i: Item, j: Item)
    requires WellFormed(i) && WellFormed(j) && IsIndefinite(i) && IsIndefinite(j)
    requires IndefiniteMajor(i) == IndefiniteMajor(j) && Inner(i) == Inner(j)
    ensures i == j
  {
  }

  lemma {:induction false} UnambiguousIndefinite(i: Item, j: Item, b: bytes, at: nat)
    requires WellFormed(i) && WellFormed(j) && IsIndefinite(i) && IsIndefinite(j)
    requires IndefiniteMajor(i) == IndefiniteMajor(j) && At(b, at, Encode(i)) && At(b, at, Encode(j))
    ensures i == j
    decreases i, 0
  {
    InnerBytes(i, b, at);
    InnerBytes(j, b, at);
    UnambiguousAll(Inner(i), Inner(j), b, at + 1);
    SameInside(i, j);
  }

  /** Two lists at the same place are both empty or both not: no item starts with a break. */
  lemma BothOrNeither(l: Items, k: Items, b: bytes, at: nat)
    requires AllWellFormed(l) && AllWellFormed(k) && At(b, at, EncodeAll(l)) && At(b, at, EncodeAll(k))
    requires Len(l) == Len(k) || (Stops(b, at, l) && Stops(b, at, k))
    ensures l.Cons? <==> k.Cons?
  {
    if l.Cons? {
      var mid := HeadThenTail(l, b, at);
    }
    if k.Cons? {
      var mid := HeadThenTail(k, b, at);
    }
  }

  lemma {:induction false} SameHeads(l: Items, k: Items, b: bytes, at: nat)
    requires l.Cons? && k.Cons? && AllWellFormed(l) && AllWellFormed(k)
    requires At(b, at, EncodeAll(l)) && At(b, at, EncodeAll(k))
    ensures l.head == k.head
    decreases l, 0
  {
    var mid := HeadThenTail(l, b, at);
    var other := HeadThenTail(k, b, at);
    Unambiguous(l.head, k.head, b, at);
  }

  /** What a list shows behind its first item. */
  lemma TailIsThere(l: Items, b: bytes, at: nat) returns (mid: nat)
    requires l.Cons? && AllWellFormed(l) && At(b, at, EncodeAll(l))
    ensures mid == at + |Encode(l.head)| && At(b, mid, EncodeAll(l.tail)) && (Stops(b, at, l) ==> Stops(b, mid, l.tail))
  {
    mid := HeadThenTail(l, b, at);
  }

  lemma {:induction false} UnambiguousAll(l: Items, k: Items, b: bytes, at: nat)
    requires AllWellFormed(l) && AllWellFormed(k) && At(b, at, EncodeAll(l)) && At(b, at, EncodeAll(k))
    requires Len(l) == Len(k) || (Stops(b, at, l) && Stops(b, at, k))
    ensures l == k
    decreases l, 1
  {
    BothOrNeither(l, k, b, at);
    if l.Cons? {
      SameHeads(l, k, b, at);
      var mid := TailIsThere(l, b, at);
      var other := TailIsThere(k, b, at);
      UnambiguousAll(l.tail, k.tail, b, mid);
    }
  }

  /**
   Exactly the relaxation separates the scanner from RFC 8949: an item outside the strict
   grammar is accepted all the same, and its bytes start no item of the strict grammar.
   */
  lemma ScannerIsLooser(i: Item, rest: bytes)
    requires WellFormed(i) && !Strict(i)
    ensures ScanValue(Exact, Encode(i) + rest, 0) == Complete(|Encode(i)|)
    ensures forall j :: WellFormed(j) && Strict(j) ==> !(Encode(j) <= Encode(i) + rest)
  {
    var b := Encode(i) + rest;
    assert b[..|Encode(i)|] == Encode(i);
    ScanAccepts(Exact, i, b, 0);
    forall j | WellFormed(j) && Strict(j) ensures !(Encode(j) <= b) {
      if Encode(j) <= b {
        Unambiguous(i, j, b, 0);
      }
    }
  }

  /** A break behind the key of a pair makes an item of the relaxed grammar only. */
  lemma BreakMidPair(key: Item)
    requires WellFormed(key)
    ensures var odd := OpenMap(Cons(key, Nil));
            WellFormed(odd) && !Strict(odd) && Encode(odd) == [0xbf] + Encode(key) + [0xff]
  {
    var l := Cons(key, Nil);
    assert EncodeAll(l) == Encode(key) + [] == Encode(key);
    assert Len(l) == 1;
  }

  /** So does a simple value below 32 written in two bytes. */
  lemma TwoByteSimpleValue(small: Item)
    requires small.Atom? && small.major == 7 && small.arg.Wide?
    requires |small.arg.follow| == 1 && small.arg.follow[0] < 32
    ensures WellFormed(small) && !Strict(small) && Encode(small) == [0xf8] + small.arg.follow
  {
    var follow := small.arg.follow;
    BeSnoc([], follow[0]);
    assert [] + [follow[0]] == follow;
  }
}
