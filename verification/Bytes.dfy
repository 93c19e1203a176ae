/** Bytes, big-endian numbers and the fixed-width integers of the JVM. */
module Bytes {
  type u8 = x: int | 0 <= x < 0x100
  type bytes = seq<u8>

  const INT_MAX := 0x7fff_ffff

  datatype Option<+T> = None | Some(value: T)

  function Min(a: int, b: int): int {
    if a <= b then a else b
  }

  /** The unsigned big-endian number a byte string spells. */
  function Be(s: bytes): nat {
    if s == [] then 0 else Be(s[..|s| - 1]) * 0x100 + s[|s| - 1]
  }

  lemma BeSnoc(s: bytes, x: u8)
    ensures Be(s + [x]) == Be(s) * 0x100 + x
  {
    assert (s + [x])[..|s|] == s;
  }

  lemma Associate<T>(a: seq<T>, b: seq<T>, c: seq<T>)
    ensures (a + b) + c == a + (b + c)
  {
  }

  /** Joining and cutting at `n` is cutting the second part at what is left. */
  lemma CutJoin(a: bytes, b: bytes, n: nat)
    requires |a| <= n
    ensures a + b[..Min(|b|, n - |a|)] == (a + b)[..Min(|a + b|, n)]
    ensures (a + b)[..|a + b|] == a + b
  {
  }

  /** Two's-complement wrap-around of a 32-bit `Int`. */
  function WrapInt(x: int): int {
    var m := x % 0x1_0000_0000;
    if m < 0x8000_0000 then m else m - 0x1_0000_0000
  }

  /** Two's-complement wrap-around of a 64-bit `Long`. */
  function WrapLong(x: int): int {
    var m := x % 0x1_0000_0000_0000_0000;
    if m < 0x8000_0000_0000_0000 then m else m - 0x1_0000_0000_0000_0000
  }

  /** `n` zero bytes. */
  function Zeros(n: nat): (z: bytes)
    ensures |z| == n
    ensures forall k :: 0 <= k < n ==> z[k] == 0
  {
    seq(n, _ => 0)
  }

  /** `e` occurs in `b` at index `at`. */
  predicate At(b: bytes, at: nat, e: bytes) {
    at + |e| <= |b| && b[at..at + |e|] == e
  }

  lemma AtParts(b: bytes, at: nat, x: bytes, y: bytes)
    requires At(b, at, x + y)
    ensures At(b, at, x) && At(b, at + |x|, y)
  {
    assert (x + y)[..|x|] == x && (x + y)[|x|..] == y;
    assert b[at..at + |x|] == b[at..at + |x + y|][..|x|];
    assert b[at + |x|..at + |x + y|] == b[at..at + |x + y|][|x|..];
  }

  lemma AtFirst(b: bytes, at: nat, e: bytes)
    requires At(b, at, e) && e != []
    ensures at < |b| && b[at] == e[0]
  {
    assert b[at..at + |e|][0] == b[at];
  }

  /** Eight bytes or fewer fit an unsigned 64-bit number. */
  lemma {:induction false} BeBound(s: bytes)
    requires |s| <= 8
    ensures Be(s) < Scale(|s|) <= 0x1_0000_0000_0000_0000
  {
    BeGrows(s);
    assert Scale(2) == 0x1_0000;
    assert Scale(4) == 0x1_0000_0000;
    assert Scale(6) == 0x1_0000_0000_0000;
    assert Scale(8) == 0x1_0000_0000_0000_0000;
  }

  function Scale(n: nat): nat {
    if n == 0 then 1 else Scale(n - 1) * 0x100
  }

  lemma {:induction false} BeGrows(s: bytes)
    ensures Be(s) < Scale(|s|)
  {
    if s != [] {
      BeGrows(s[..|s| - 1]);
    }
  }
}
