/**
 The completeness scanner behind Jade's stream framing: a walk over CBOR headers that
 answers where the first value of a buffer ends, that more bytes are needed, or that no
 further byte can help.

 `ScanValue`, `ScanItems` and `ScanChunks` are the scanner as functions; `EndOfValue`,
 `EndOfItems` and `EndOfChunks` are its loops over an array, with 32-bit and 64-bit
 wrap-around, proved equal to the functions under the `Jvm` rules.
 */
module CborScanner {
  import opened Bytes

  const BREAK: u8 := 0xff

  /** `Fault` is the array-index exception a wrapped `Int` bound check lets through. */
  datatype Scan = Complete(end: nat) | Incomplete | Malformed | Fault

  /**
   Which scanner. `Jvm` is the code as it runs, with wrapping `Int` arithmetic; `Exact` is
   the same code on unbounded integers; `Eager` also drops the guard that answers
   "incomplete" before looking at the items of an array or map.
   */
  datatype Rules = Jvm | Exact | Eager

  datatype Head =
    | Sized(major: int, arg: nat, next: nat)
    | Open(major: int, next: nat)
    | Short
    | Reserved
    | OutOfBounds

  /** The initial byte at `at` and the one, two, four or eight argument bytes behind it. */
  function ReadHead(m: Rules, b: bytes, at: nat): (h: Head)
    requires at < |b|
    ensures h.Sized? ==> at < h.next <= |b| && 0 <= h.major < 8
    ensures h.Open? ==> h.next == at + 1
    ensures h.OutOfBounds? ==> m == Jvm
  {
    var major := b[at] / 32;
    var info := b[at] % 32;
    if info < 24 then Sized(major, info, at + 1)
    else if info <= 27 then
      var past := at + 1 + Width(info);
      if (if m == Jvm then WrapInt(past) else past) > |b| then Short
      else if past > |b| then OutOfBounds
      else Sized(major, Be(b[at + 1..past]), past)
    else if info == 31 then Open(major, at + 1)
    else Reserved
  }

  function Width(info: int): (w: nat) {
    if info == 24 then 1 else if info == 25 then 2 else if info == 26 then 4 else 8
  }

  /** The number of items a map header of `pairs` pairs announces. */
  function Doubled(m: Rules, pairs: nat): int {
    if m == Jvm then WrapInt(2 * pairs) else 2 * pairs
  }

  function ScanValue(m: Rules, b: bytes, at: nat): (r: Scan)
    requires at <= |b|
    ensures r.Complete? ==> at < r.end <= |b|
    ensures r.Fault? ==> m == Jvm
    decreases |b| - at, 0
  {
    if at >= |b| then Incomplete
    else match ReadHead(m, b, at)
      case Short => Incomplete
      case Reserved => Malformed
      case OutOfBounds => Fault
      case Open(major, pos) =>
        if major == 2 || major == 3 then ScanChunks(m, b, pos, major)
        else if major == 4 || major == 5 then ScanItems(m, b, pos, -1)
        else Malformed
      case Sized(major, arg, pos) =>
        if major == 0 || major == 1 || major == 7 then Complete(pos)
        else if major == 6 then ScanValue(m, b, pos)
        else if arg > |b| - pos && (m != Eager || major <= 3) then Incomplete
        else if major <= 3 then Complete(pos + arg)
        else if major == 4 then ScanItems(m, b, pos, arg)
        else ScanItems(m, b, pos, Doubled(m, arg))
  }

  /** `count` values, or, when `count` is negative, values up to a break byte. */
  function ScanItems(m: Rules, b: bytes, pos: nat, count: int): (r: Scan)
    requires pos <= |b|
    ensures r.Complete? ==> pos <= r.end <= |b|
    ensures r.Complete? ==> if count >= 0 then count <= r.end - pos else pos < r.end
    ensures r.Fault? ==> m == Jvm
    decreases |b| - pos, 1
  {
    if count == 0 then Complete(pos)
    else if pos >= |b| then Incomplete
    else if count < 0 && b[pos] == BREAK then Complete(pos + 1)
    else
      var r := ScanValue(m, b, pos);
      if !r.Complete? then r
      else ScanItems(m, b, r.end, if count < 0 then count else count - 1)
  }

  /** Definite-length strings of one major type up to a break byte. */
  function ScanChunks(m: Rules, b: bytes, pos: nat, major: int): (r: Scan)
    requires pos <= |b|
    ensures r.Complete? ==> pos < r.end <= |b|
    ensures r.Fault? ==> m == Jvm
    decreases |b| - pos, 1
  {
    if pos >= |b| then Incomplete
    else if b[pos] == BREAK then Complete(pos + 1)
    else if b[pos] / 32 != major || b[pos] % 32 == 31 then Malformed
    else
      var r := ScanValue(m, b, pos);
      if !r.Complete? then r else ScanChunks(m, b, r.end, major)
  }

  // ---------------------------------------------------------------- the loops

  /** A length beyond the signed range reads back negative, and the guard still sees it. */
  lemma SignedGuardIsUnsigned(value: nat, room: int)
    requires value < 0x1_0000_0000_0000_0000 && 0 <= room <= INT_MAX
    ensures (WrapLong(value) < 0 || WrapLong(value) > room) <==> value > room
    ensures value <= room ==> WrapLong(value) == value
  {
  }

  lemma ShiftIn(read: int, n: nat, x: u8)
    requires read == WrapLong(n)
    ensures WrapLong(read * 0x100 + x) == WrapLong(n * 0x100 + x)
  {
    var k := 0x1_0000_0000_0000_0000;
    var q := (n - read) / k;
    assert n == read + k * (n / k) || n == read + k * (n / k + 1);
    assert exists j :: n == read + k * j by {
      if n == read + k * (n / k) {} else { assert n == read + k * (n / k + 1); }
    }
    var j :| n == read + k * j;
    assert n * 0x100 + x == (read * 0x100 + x) + k * (j * 0x100);
    ModAdd(read * 0x100 + x, j * 0x100);
  }

  lemma ModAdd(a: int, j: int)
    ensures (a + 0x1_0000_0000_0000_0000 * j) % 0x1_0000_0000_0000_0000 == a % 0x1_0000_0000_0000_0000
  {
  }

  lemma SliceOfPrefix(b: bytes, end: nat, i: nat, j: nat)
    requires i <= j <= end <= |b|
    ensures b[..end][i..j] == b[i..j]
  {
  }

  /** Whether `buf` starts with one complete value; the two error outcomes are kept apart. */
  method IsComplete(buf: array<u8>) returns (r: Scan)
    requires buf.Length <= INT_MAX
    ensures r == ScanValue(Jvm, buf[..], 0)
  {
    assert buf[..buf.Length] == buf[..];
    r := EndOfValue(buf, 0, buf.Length);
  }

  /** The argument bytes shifted into a `Long` one at a time. */
  method ReadArgument(buf: array<u8>, pos: int, width: int) returns (read: int)
    requires 0 <= pos <= pos + width <= buf.Length && width in {1, 2, 4, 8}
    ensures read == WrapLong(Be(buf[pos..pos + width]))
    ensures Be(buf[pos..pos + width]) < 0x1_0000_0000_0000_0000
  {
    read := 0;
    for i := 0 to width
      invariant read == WrapLong(Be(buf[pos..pos + i]))
    {
      ShiftIn(read, Be(buf[pos..pos + i]), buf[pos + i]);
      assert buf[pos..pos + i + 1][..i] == buf[pos..pos + i];
      read := WrapLong(read * 0x100 + buf[pos + i]);
    }
    BeBound(buf[pos..pos + width]);
  }

  method EndOfValue(buf: array<u8>, at: int, end: int) returns (r: Scan)
    requires 0 <= at <= end <= buf.Length <= INT_MAX
    ensures r == ScanValue(Jvm, buf[..end], at)
    decreases end - at, 0
  {
    if at >= end {
      return Incomplete;
    }
    ghost var b := buf[..end];
    var initial := buf[at];
    var major := initial / 32;
    var info := initial % 32;
    var pos := at + 1;
    var value: int;
    ghost var arg: nat := info;

    if info < 24 {
      value := info;
    } else if info <= 27 {
      var width := Width(info);
      if WrapInt(pos + width) > end {
        return Incomplete;
      }
      if pos + width > end {
        return Fault;
      }
      value := ReadArgument(buf, pos, width);
      SliceOfPrefix(buf[..], end, pos, pos + width);
      arg := Be(b[pos..pos + width]);
      pos := pos + width;
    } else if info == 31 {
      if major == 2 || major == 3 {
        r := EndOfChunks(buf, pos, end, major);
      } else if major == 4 || major == 5 {
        r := EndOfItems(buf, pos, end, -1);
      } else {
        r := Malformed;
      }
      return;
    } else {
      return Malformed;
    }

    assert ReadHead(Jvm, b, at) == Sized(major, arg, pos);
    r := EndOfSized(buf, at, pos, end, major, value, arg);
  }

  /** The closing `when`: `value` is a length only for the length-carrying major types. */
  method EndOfSized(buf: array<u8>, ghost at: int, pos: int, end: int, major: int, value: int, ghost arg: nat)
    returns (r: Scan)
    requires 0 <= at < pos <= end <= buf.Length <= INT_MAX
    requires ReadHead(Jvm, buf[..end], at) == Sized(major, arg, pos)
    requires arg < 0x1_0000_0000_0000_0000 && value == WrapLong(arg)
    ensures r == ScanValue(Jvm, buf[..end], at)
    decreases end - pos, 2
  {
    SignedGuardIsUnsigned(arg, end - pos);
    var cut := value < 0 || value > end - pos;
    if major == 0 || major == 1 || major == 7 {
      r := Complete(pos);
    } else if major == 2 || major == 3 {
      r := if cut then Incomplete else Complete(pos + value);
    } else if major == 4 {
      if cut {
        return Incomplete;
      }
      r := EndOfItems(buf, pos, end, value);
    } else if major == 5 {
      if cut {
        return Incomplete;
      }
      r := EndOfItems(buf, pos, end, WrapInt(value * 2));
    } else {
      r := EndOfValue(buf, pos, end);
    }
  }

  method EndOfChunks(buf: array<u8>, from: int, end: int, major: int) returns (r: Scan)
    requires 0 <= from <= end <= buf.Length <= INT_MAX
    ensures r == ScanChunks(Jvm, buf[..end], from, major)
    decreases end - from, 1
  {
    var pos := from;
    while true
      invariant from <= pos <= end
      invariant ScanChunks(Jvm, buf[..end], from, major) == ScanChunks(Jvm, buf[..end], pos, major)
      decreases end - pos
    {
      if pos >= end {
        return Incomplete;
      }
      var initial := buf[pos];
      if initial == BREAK {
        return Complete(pos + 1);
      }
      if initial / 32 != major {
        return Malformed;
      }
      if initial % 32 == 31 {
        return Malformed;
      }
      var next := EndOfValue(buf, pos, end);
      if !next.Complete? {
        return next;
      }
      pos := next.end;
    }
  }

  /** What decrementing `left` does: it counts down, or wraps without reaching zero. */
  lemma LeftCounts(count: int, done: nat)
    requires -0x8000_0000 <= count <= INT_MAX
    requires done <= INT_MAX && (count >= 0 ==> done <= count)
    ensures count >= 0 ==> WrapInt(count - done) == count - done
    ensures count < 0 ==> WrapInt(count - done) != 0
    ensures WrapInt(WrapInt(count - done) - 1) == WrapInt(count - (done + 1))
  {
  }

  /** `left` wraps below zero when `count` is negative, and never reaches zero on the way. */
  method EndOfItems(buf: array<u8>, from: int, end: int, count: int) returns (r: Scan)
    requires 0 <= from <= end <= buf.Length <= INT_MAX
    requires -0x8000_0000 <= count <= INT_MAX
    ensures r == ScanItems(Jvm, buf[..end], from, count)
    decreases end - from, 1
  {
    var pos := from;
    var left := count;
    ghost var done := 0;
    while left != 0
      invariant 0 <= done <= pos - from && pos <= end
      invariant count >= 0 ==> done <= count
      invariant left == WrapInt(count - done)
      invariant ScanItems(Jvm, buf[..end], from, count)
             == ScanItems(Jvm, buf[..end], pos, if count < 0 then count else count - done)
      decreases end - pos
    {
      LeftCounts(count, done);
      if pos >= end {
        return Incomplete;
      }
      if count < 0 && buf[pos] == BREAK {
        return Complete(pos + 1);
      }
      var next := EndOfValue(buf, pos, end);
      if !next.Complete? {
        return next;
      }
      pos := next.end;
      left := WrapInt(left - 1);
      done := done + 1;
    }
    LeftCounts(count, done);
    r := Complete(pos);
  }
}
