/**
 Where the scanner's answers stop being the grammar's: the buffer length from which a
 wrapped `pairs * 2` changes one, and the buffers a container guard leaves "incomplete"
 although nothing can complete them.
 */
module CborLimits {
  import opened Bytes
  import opened CborGrammar
  import opened CborScanner
  import opened CborTheorems

  // ------------------------------------------------------- 32-bit arithmetic

  /** The longest buffer on which no item count of the scanner can overflow. */
  const SAFE_LENGTH := 0x4000_0004

  /** The longest buffer on which no index can. */
  const SAFE_INDEX := 0x7fff_fff7

  /** How the wrapped answer `j` may differ from the exact one `e` on a buffer of `n` bytes. */
  predicate Deviates(j: Scan, e: Scan, n: nat) {
    (n > SAFE_LENGTH && e.Malformed?) || (n > SAFE_INDEX && j.Fault?)
  }

  /** Wrap-around does no more harm than to accept malformed bytes, or to run off the end of a huge array. */
  lemma {:induction false} WrapAround(b: bytes, at: nat)
    requires at <= |b| <= INT_MAX
    ensures var j := ScanValue(Jvm, b, at); var e := ScanValue(Exact, b, at); j == e || Deviates(j, e, |b|)
    decreases |b| - at, 1
  {
    if at < |b| && ReadHead(Jvm, b, at) == ReadHead(Exact, b, at) {
      var h := ReadHead(Exact, b, at);
      if h.Open? {
        if h.major == 2 || h.major == 3 {
          WrapAroundChunks(b, h.next, h.major);
        } else {
          WrapAroundItems(b, h.next, -1, -1);
        }
      } else if h.Sized? {
        WrapAroundSized(b, at);
      }
    }
  }

  lemma {:induction false} WrapAroundSized(b: bytes, at: nat)
    requires at < |b| <= INT_MAX && ReadHead(Exact, b, at).Sized? && ReadHead(Jvm, b, at) == ReadHead(Exact, b, at)
    ensures var j := ScanValue(Jvm, b, at); var e := ScanValue(Exact, b, at); j == e || Deviates(j, e, |b|)
    decreases |b| - at, 0
  {
    var h := ReadHead(Exact, b, at);
    if h.major == 6 {
      WrapAround(b, h.next);
    } else if h.major == 4 {
      WrapAroundItems(b, h.next, h.arg, h.arg);
    } else if h.major == 5 && h.arg <= |b| - h.next {
      LargeCountsHaveWideHeads(b, at);
      WrapAroundItems(b, h.next, Doubled(Jvm, h.arg), 2 * h.arg);
    }
  }

  /** `j` counts items as the code does, `e` without wrapping; when they differ, `e` is out of reach. */
  lemma {:induction false} WrapAroundItems(b: bytes, pos: nat, j: int, e: int)
    requires pos <= |b| <= INT_MAX && (j == e || (|b| > SAFE_LENGTH && j < 0 && e > |b| - pos))
    ensures var r := ScanItems(Jvm, b, pos, j); var s := ScanItems(Exact, b, pos, e); r == s || Deviates(r, s, |b|)
    decreases |b| - pos, 2
  {
    if j != 0 && pos < |b| && !(e < 0 && b[pos] == BREAK) {
      WrapAround(b, pos);
      var r := ScanValue(Exact, b, pos);
      if b[pos] == BREAK {
        assert r.Malformed?;
      } else if r.Complete? && ScanValue(Jvm, b, pos) == r {
        WrapAroundItems(b, r.end, if j < 0 then j else j - 1, if e < 0 then e else e - 1);
      }
    }
  }

  lemma {:induction false} WrapAroundChunks(b: bytes, pos: nat, major: int)
    requires pos <= |b| <= INT_MAX
    ensures var r := ScanChunks(Jvm, b, pos, major); var s := ScanChunks(Exact, b, pos, major);
            r == s || Deviates(r, s, |b|)
    decreases |b| - pos, 2
  {
    if pos < |b| && b[pos] != BREAK && b[pos] / 32 == major && b[pos] % 32 != 31 {
      WrapAround(b, pos);
      var r := ScanValue(Exact, b, pos);
      if r.Complete? && ScanValue(Jvm, b, pos) == r {
        WrapAroundChunks(b, r.end, major);
      }
    }
  }

  lemma WrapIsHarmless(b: bytes, at: nat)
    requires at <= |b| <= SAFE_LENGTH
    ensures ScanValue(Jvm, b, at) == ScanValue(Exact, b, at)
  {
    WrapAround(b, at);
  }

  /** A count of 2^30 or more needs a head of at least five bytes. */
  lemma LargeCountsHaveWideHeads(b: bytes, at: nat)
    requires at < |b| && ReadHead(Exact, b, at).Sized?
    ensures var h := ReadHead(Exact, b, at); h.arg >= 0x1_0000 ==> h.next >= at + 5
  {
    var h := ReadHead(Exact, b, at);
    if b[at] % 32 >= 24 {
      BeGrows(b[at + 1..h.next]);
      assert Scale(1) == 0x100 && Scale(2) == 0x1_0000;
    }
  }

  /** A map header of 2^30 pairs, then break bytes: the wrapped count reads as "until a break". */
  function OverflowingMap(n: nat): (b: bytes)
    requires n >= 5
    ensures |b| == n
  {
    [0xba, 0x40, 0, 0, 0] + seq(n - 5, _ => 0xff)
  }

  lemma OverflowHead(n: nat)
    requires n >= 5
    ensures OverflowingMap(n)[0] == 0xba && OverflowingMap(n)[1..5] == [0x40, 0, 0, 0]
  {
    var b := OverflowingMap(n);
    assert b[..5] == [0xba, 0x40, 0, 0, 0];
    SliceOfPrefix(b, 5, 1, 5);
    assert [0xba, 0x40, 0, 0, 0][1..5] == [0x40, 0, 0, 0];
  }

  lemma OverflowIsReal(n: nat)
    requires SAFE_LENGTH < n <= INT_MAX
    ensures ScanValue(Jvm, OverflowingMap(n), 0) == Complete(6)
    ensures ScanValue(Exact, OverflowingMap(n), 0) == Malformed
  {
    var b := OverflowingMap(n);
    assert b[5] == 0xff;
    OverflowHead(n);
    BeOfFour(0x40, 0, 0, 0);
    assert ReadHead(Jvm, b, 0) == Sized(5, 0x4000_0000, 5);
    assert ReadHead(Exact, b, 0) == Sized(5, 0x4000_0000, 5);
    assert Doubled(Jvm, 0x4000_0000) == -0x8000_0000;
    assert ReadHead(Exact, b, 5) == Open(7, 6);
    assert ScanValue(Exact, b, 5) == Malformed;
  }

  /** Every proper prefix of the shortest such map still asks for more. */
  lemma OverflowComesLast(k: nat)
    requires k <= SAFE_LENGTH
    ensures ScanValue(Jvm, OverflowingMap(SAFE_LENGTH + 1)[..k], 0) == Incomplete
  {
    var b := OverflowingMap(SAFE_LENGTH + 1)[..k];
    if k >= 5 {
      OverflowHead(SAFE_LENGTH + 1);
      SliceOfPrefix(OverflowingMap(SAFE_LENGTH + 1), k, 1, 5);
      BeOfFour(0x40, 0, 0, 0);
      assert ReadHead(Jvm, b, 0) == Sized(5, 0x4000_0000, 5);
    } else if k > 0 {
      assert b[0] == 0xba;
      assert ReadHead(Jvm, b, 0) == Short;
    }
  }

  lemma BeOfFour(w: u8, x: u8, y: u8, z: u8)
    ensures Be([w, x, y, z]) == ((w * 0x100 + x) * 0x100 + y) * 0x100 + z
  {
    BeSnoc([w, x, y], z);
    BeSnoc([w, x], y);
    BeSnoc([w], x);
    BeSnoc([], w);
    assert [w, x, y] + [z] == [w, x, y, z] && [w, x] + [y] == [w, x, y];
    assert [w] + [x] == [w, x] && [] + [w] == [w];
  }

  /** The code scans every buffer of a given length exactly iff that length is safe. */
  lemma SafeLengthIsExact(n: nat)
    requires n <= INT_MAX
    ensures (forall b: bytes | |b| == n :: ScanValue(Jvm, b, 0) == ScanValue(Exact, b, 0))
       <==> n <= SAFE_LENGTH
  {
    if n <= SAFE_LENGTH {
      forall b: bytes | |b| == n ensures ScanValue(Jvm, b, 0) == ScanValue(Exact, b, 0) {
        WrapIsHarmless(b, 0);
      }
    } else {
      OverflowIsReal(n);
    }
  }

  // ------------------------------------------------ what "incomplete" promises

  /** Some well-formed item starts with these bytes or ends within them. */
  ghost predicate Viable(b: bytes) {
    exists i :: WellFormed(i) && (b <= Encode(i) || Encode(i) <= b)
  }

  const ZERO := Atom(0, Direct(0))

  function ZeroItems(n: nat): (l: Items)
    ensures Len(l) == n && AllWellFormed(l)
  {
    if n == 0 then Nil else Cons(ZERO, ZeroItems(n - 1))
  }

  /** A buffer the unguarded scanner calls incomplete really is the start of some item. */
  lemma {:induction false} GrowValue(b: bytes, at: nat) returns (i: Item)
    requires at <= |b| && ScanValue(Eager, b, at).Incomplete?
    ensures WellFormed(i) && b[at..] <= Encode(i)
    decreases |b| - at, 1
  {
    if at == |b| {
      i := ZERO;
    } else if ReadHead(Eager, b, at).Open? && ReadHead(Eager, b, at).major <= 3 {
      i := GrowOpenString(b, at);
    } else if ReadHead(Eager, b, at).Open? {
      i := GrowOpenItems(b, at);
    } else if ReadHead(Eager, b, at).Short? {
      i := GrowShort(b, at);
    } else {
      i := GrowSized(b, at);
    }
  }

  /** A cut-off head is filled up with zero bytes. */
  lemma GrowShort(b: bytes, at: nat) returns (i: Item)
    requires at < |b| && ReadHead(Eager, b, at).Short?
    ensures WellFormed(i) && b[at..] <= Encode(i)
  {
    var a := FillArgument(b, at);
    i := SomeItem(b[at] / 32, a);
    HeadFirst(i, b[at] / 32, a);
  }

  lemma FillArgument(b: bytes, at: nat) returns (a: Arg)
    requires at < |b| && ReadHead(Eager, b, at).Short?
    ensures ValidArg(a) && b[at..] <= EncodeHead(b[at] / 32, a)
  {
    var have := b[at + 1..];
    a := Wide(have + Zeros(Width(b[at] % 32) - |have|));
    assert Info(a) == b[at] % 32;
    assert b[at..] == [b[at]] + have;
  }

  predicate HasHead(i: Item, major: nat, a: Arg) {
    match i
    case Atom(m, x) => m == major && x == a
    case Str(m, x, _) => m == major && x == a
    case Array(x, _) => major == 4 && x == a
    case Map(x, _) => major == 5 && x == a
    case Tag(x, _) => major == 6 && x == a
    case _ => false
  }

  lemma SomeItem(major: nat, a: Arg) returns (i: Item)
    requires major < 8 && ValidArg(a)
    ensures WellFormed(i) && HasHead(i, major, a)
  {
    i := if major in {0, 1, 7} then Atom(major, a)
         else if major <= 3 then Str(major, a, Zeros(Value(a)))
         else if major == 4 then Array(a, ZeroItems(Value(a)))
         else if major == 5 then Map(a, ZeroItems(2 * Value(a)))
         else Tag(a, ZERO);
  }

  lemma HeadFirst(i: Item, major: nat, a: Arg)
    requires major < 8 && ValidArg(a) && WellFormed(i) && HasHead(i, major, a)
    ensures EncodeHead(major, a) <= Encode(i)
  {
  }

  lemma {:induction false} GrowSized(b: bytes, at: nat) returns (i: Item)
    requires at < |b| && ScanValue(Eager, b, at).Incomplete? && ReadHead(Eager, b, at).Sized?
    ensures WellFormed(i) && b[at..] <= Encode(i)
    decreases |b| - at, 0
  {
    var h := ReadHead(Eager, b, at);
    HeadWasWritten(Eager, b, at);
    var a := ArgAt(b, at);
    assert b[at..] == EncodeHead(h.major, a) + b[h.next..];
    if h.major == 6 {
      var inner := GrowValue(b, h.next);
      i := Tag(a, inner);
    } else if h.major <= 3 {
      i := Str(h.major, a, b[h.next..] + Zeros(h.arg - |b[h.next..]|));
    } else {
      var l := GrowItems(b, h.next, if h.major == 4 then h.arg else 2 * h.arg);
      i := if h.major == 4 then Array(a, l) else Map(a, l);
    }
  }

  lemma {:induction false} GrowOpenItems(b: bytes, at: nat) returns (i: Item)
    requires at < |b| && ScanValue(Eager, b, at).Incomplete? && ReadHead(Eager, b, at).Open?
    requires ReadHead(Eager, b, at).major > 3
    ensures WellFormed(i) && b[at..] <= Encode(i)
    decreases |b| - at, 0
  {
    IndefiniteStep(Eager, b, at, ReadHead(Eager, b, at).major);
    var l := GrowItems(b, at + 1, -1);
    i := OpenPrefix(b, at, l);
  }

  lemma {:induction false} GrowOpenString(b: bytes, at: nat) returns (i: Item)
    requires at < |b| && ScanValue(Eager, b, at).Incomplete? && ReadHead(Eager, b, at).Open?
    requires ReadHead(Eager, b, at).major <= 3
    ensures WellFormed(i) && b[at..] <= Encode(i)
    decreases |b| - at, 0
  {
    IndefiniteStep(Eager, b, at, ReadHead(Eager, b, at).major);
    var l := GrowChunks(b, at + 1, ReadHead(Eager, b, at).major);
    i := OpenPrefix(b, at, l);
  }

  lemma OpenPrefix(b: bytes, at: nat, l: Items) returns (i: Item)
    requires at < |b| && b[at] in {0x5f, 0x7f, 0x9f, 0xbf} && AllWellFormed(l)
    requires b[at] < 0x80 ==> AllChunks(l, b[at] / 32)
    requires b[at + 1..] <= EncodeAll(l)
    ensures WellFormed(i) && b[at..] <= Encode(i)
  {
    var c := [b[at]] + (EncodeAll(l) + [0xff]);
    assert c[1..] == EncodeAll(l) + [0xff] && c[1..|c|] == c[1..] && c[0..|c|] == c;
    i := OpenBytes(c, 0, |c|, l);
    Behind(b, at, EncodeAll(l));
  }

  lemma Behind(b: bytes, at: nat, e: bytes)
    requires at < |b| && b[at + 1..] <= e
    ensures b[at..] <= [b[at]] + (e + [0xff])
  {
    assert b[at..] == [b[at]] + b[at + 1..];
  }

  lemma {:induction false} GrowItems(b: bytes, pos: nat, count: int) returns (l: Items)
    requires pos <= |b| && ScanItems(Eager, b, pos, count).Incomplete?
    ensures AllWellFormed(l) && (count >= 0 ==> Len(l) == count) && b[pos..] <= EncodeAll(l)
    decreases |b| - pos, 2
  {
    if pos == |b| {
      l := ZeroItems(if count < 0 then 0 else count);
    } else {
      var r := ScanValue(Eager, b, pos);
      if r.Complete? {
        ItemsStep(Eager, b, pos, count);
        var head := ParseValue(Eager, b, pos);
        var tail := GrowItems(b, r.end, if count < 0 then count else count - 1);
        l := Prepend(b, pos, r.end, head, tail);
      } else {
        var head := GrowValue(b, pos);
        l := Cons(head, ZeroItems(if count < 0 then 0 else count - 1));
      }
    }
  }

  lemma Prepend(b: bytes, pos: nat, mid: nat, head: Item, tail: Items) returns (l: Items)
    requires pos <= mid <= |b| && WellFormed(head) && AllWellFormed(tail)
    requires Encode(head) == b[pos..mid] && b[mid..] <= EncodeAll(tail)
    ensures l == Cons(head, tail) && AllWellFormed(l) && b[pos..] <= EncodeAll(l)
  {
    l := Cons(head, tail);
    assert b[pos..] == b[pos..mid] + b[mid..];
  }

  lemma {:induction false} GrowChunks(b: bytes, pos: nat, major: int) returns (l: Items)
    requires pos <= |b| && major in {2, 3} && ScanChunks(Eager, b, pos, major).Incomplete?
    ensures AllChunks(l, major) && AllWellFormed(l) && b[pos..] <= EncodeAll(l)
    decreases |b| - pos, 2
  {
    if pos == |b| {
      l := Nil;
    } else {
      var r := ScanValue(Eager, b, pos);
      if r.Complete? {
        ChunksStep(Eager, b, pos, major);
        var head := ParseValue(Eager, b, pos);
        assert b[pos..r.end][0] == b[pos];
        FirstByteTells(head, major);
        var tail := GrowChunks(b, r.end, major);
        l := Prepend(b, pos, r.end, head, tail);
      } else {
        var head := GrowValue(b, pos);
        assert Encode(head)[0] == b[pos..][0] == b[pos];
        FirstByteTells(head, major);
        l := Cons(head, Nil);
      }
    }
  }

  /** Without the container guard, "malformed" means exactly that no bytes can help. */
  lemma EagerDecidesViability(b: bytes)
    ensures Viable(b) <==> !ScanValue(Eager, b, 0).Malformed?
  {
    var r := ScanValue(Eager, b, 0);
    assert b[0..] == b;
    if r.Complete? {
      var i := ParseValue(Eager, b, 0);
      assert Encode(i) <= b;
    } else if r.Incomplete? {
      var i := GrowValue(b, 0);
    }
    forall i | WellFormed(i) && (b <= Encode(i) || Encode(i) <= b) ensures !r.Malformed? {
      ViableIsNotMalformed(b, i);
    }
  }

  lemma ViableIsNotMalformed(b: bytes, i: Item)
    requires WellFormed(i) && (b <= Encode(i) || Encode(i) <= b)
    ensures !ScanValue(Eager, b, 0).Malformed?
  {
    var e := Encode(i);
    ScanAccepts(Eager, i, e, 0);
    if b <= e {
      assert e[..|b|] == b;
      CutValue(Eager, e, |b|, 0);
    } else {
      assert b[..|e|] == e;
      ScanAccepts(Eager, i, b, 0);
    }
  }

  /** The scan meets an array or map that announces more items than there are bytes left. */
  predicate Overcommitted(b: bytes, at: nat)
    requires at <= |b|
    decreases |b| - at, 0
  {
    at < |b| &&
    var h := ReadHead(Exact, b, at);
    if h.Open? then
      (h.major == 4 || h.major == 5) && OvercommittedItems(b, h.next, -1)
    else if h.Sized? then
      if h.major == 6 then Overcommitted(b, h.next)
      else if h.major == 4 || h.major == 5 then
        h.arg > |b| - h.next
        || OvercommittedItems(b, h.next, if h.major == 4 then h.arg else 2 * h.arg)
      else false
    else false
  }

  predicate OvercommittedItems(b: bytes, pos: nat, count: int)
    requires pos <= |b|
    decreases |b| - pos, 1
  {
    if count == 0 || pos == |b| || (count < 0 && b[pos] == BREAK) then false
    else
      var r := ScanValue(Exact, b, pos);
      if r.Complete? then OvercommittedItems(b, r.end, if count < 0 then count else count - 1)
      else Overcommitted(b, pos)
  }

  /** At an overcommitted container the code stops; elsewhere the guard changes nothing. */
  lemma {:induction false} GuardValue(b: bytes, at: nat)
    requires at <= |b|
    ensures var r := ScanValue(Exact, b, at); var e := ScanValue(Eager, b, at);
            if Overcommitted(b, at) then r.Incomplete? && !e.Complete? else r == e
    decreases |b| - at, 0
  {
    if at < |b| {
      var h := ReadHead(Exact, b, at);
      assert ReadHead(Eager, b, at) == h;
      if h.Open? {
        if h.major == 2 || h.major == 3 {
          GuardChunks(b, h.next, h.major);
        } else {
          GuardItems(b, h.next, -1);
        }
      } else if h.Sized? {
        if h.major == 6 {
          GuardValue(b, h.next);
        } else if h.major == 4 {
          GuardItems(b, h.next, h.arg);
        } else if h.major == 5 {
          GuardItems(b, h.next, 2 * h.arg);
        }
      }
    }
  }

  lemma {:induction false} GuardItems(b: bytes, pos: nat, count: int)
    requires pos <= |b|
    ensures var r := ScanItems(Exact, b, pos, count); var e := ScanItems(Eager, b, pos, count);
            if OvercommittedItems(b, pos, count) then r.Incomplete? && !e.Complete? else r == e
    decreases |b| - pos, 1
  {
    if count != 0 && pos < |b| && !(count < 0 && b[pos] == BREAK) {
      GuardValue(b, pos);
      var s := ScanValue(Exact, b, pos);
      if s.Complete? {
        CompleteIsNotOvercommitted(b, pos);
        GuardItems(b, s.end, if count < 0 then count else count - 1);
      }
    }
  }

  lemma CompleteIsNotOvercommitted(b: bytes, at: nat)
    requires at <= |b| && ScanValue(Exact, b, at).Complete?
    requires Overcommitted(b, at) ==> ScanValue(Exact, b, at).Incomplete?
    ensures !Overcommitted(b, at)
  {
  }

  lemma {:induction false} GuardChunks(b: bytes, pos: nat, major: int)
    requires pos <= |b| && major in {2, 3}
    ensures ScanChunks(Exact, b, pos, major) == ScanChunks(Eager, b, pos, major)
    decreases |b| - pos, 1
  {
    if pos < |b| && b[pos] != BREAK && b[pos] / 32 == major && b[pos] % 32 != 31 {
      assert ScanValue(Exact, b, pos) == ScanValue(Eager, b, pos);
      var s := ScanValue(Exact, b, pos);
      if s.Complete? {
        GuardChunks(b, s.end, major);
      }
    }
  }

  /** "Malformed" is never premature, and "incomplete" never hides a finished item. */
  lemma AnswersAreSafe(b: bytes)
    ensures ScanValue(Exact, b, 0).Malformed? ==> !Viable(b)
    ensures Viable(b) ==> ScanValue(Exact, b, 0) == ScanValue(Eager, b, 0)
  {
    EagerDecidesViability(b);
    GuardValue(b, 0);
    if Viable(b) && Overcommitted(b, 0) {
      assert ScanValue(Eager, b, 0).Incomplete?;
    }
  }

  /**
   The scanner says "malformed" exactly for the hopeless buffers in which no container on the
   way announces more items than bytes remain; for the other hopeless ones it asks for more.
   */
  lemma MalformedAtOnceIff(b: bytes)
    ensures ScanValue(Exact, b, 0).Malformed? <==> !Viable(b) && !Overcommitted(b, 0)
  {
    EagerDecidesViability(b);
    GuardValue(b, 0);
  }

  /** An array of two items whose first byte is already reserved: incomplete, yet hopeless. */
  lemma GuardHidesAMalformedItem()
    ensures ScanValue(Exact, [0x82, 0x1c], 0) == Incomplete && !Viable([0x82, 0x1c])
  {
    var b: bytes := [0x82, 0x1c];
    assert ReadHead(Exact, b, 0) == Sized(4, 2, 1);
    assert ReadHead(Eager, b, 0) == Sized(4, 2, 1);
    assert ReadHead(Eager, b, 1) == Reserved;
    assert ScanValue(Eager, b, 1) == Malformed;
    assert ScanItems(Eager, b, 1, 2) == Malformed;
    EagerDecidesViability(b);
  }
}
