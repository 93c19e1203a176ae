/**
 CBOR data items as RFC 8949 section 3 writes them, independent of the scanner. An item
 keeps the head width it is written with, so every item has exactly one encoding here and
 every legal encoding of section 3 is some item.
 */
module CborGrammar {
  import opened Bytes

  /** The argument of a head: in the initial byte, or in the 1, 2, 4 or 8 bytes behind it. */
  datatype Arg = Direct(n: nat) | Wide(follow: bytes)

  datatype Items = Nil | Cons(head: Item, tail: Items)

  datatype Item =
    | Atom(major: nat, arg: Arg)                // integers, simple values, floats
    | Str(major: nat, arg: Arg, body: bytes)    // byte and text strings
    | Chunked(major: nat, chunks: Items)        // indefinite-length strings
    | Array(arg: Arg, items: Items)
    | Map(arg: Arg, items: Items)               // keys and values in turn
    | OpenArray(items: Items)
    | OpenMap(items: Items)
    | Tag(arg: Arg, item: Item)

  predicate ValidArg(a: Arg) {
    match a
    case Direct(n) => n < 24
    case Wide(follow) => |follow| in {1, 2, 4, 8}
  }

  function Value(a: Arg): nat {
    match a
    case Direct(n) => n
    case Wide(follow) => Be(follow)
  }

  function Info(a: Arg): (info: nat)
    requires ValidArg(a)
    ensures info < 28
  {
    match a
    case Direct(n) => n
    case Wide(follow) =>
      if |follow| == 1 then 24 else if |follow| == 2 then 25 else if |follow| == 4 then 26 else 27
  }

  function Follow(a: Arg): bytes {
    match a
    case Direct(_) => []
    case Wide(follow) => follow
  }

  function Len(l: Items): nat {
    match l
    case Nil => 0
    case Cons(_, tail) => 1 + Len(tail)
  }

  /**
   The relaxed grammar: RFC 8949 section 3, except that an indefinite-length map may hold
   any number of items (section 3.2.3 wants an even one) and that a simple value below 32
   may be written in two bytes (section 3.3 forbids it).
   */
  predicate WellFormed(i: Item) {
    match i
    case Atom(major, arg) => major in {0, 1, 7} && ValidArg(arg)
    case Str(major, arg, body) => major in {2, 3} && ValidArg(arg) && |body| == Value(arg)
    case Chunked(major, chunks) => major in {2, 3} && AllChunks(chunks, major)
    case Array(arg, items) => ValidArg(arg) && Len(items) == Value(arg) && AllWellFormed(items)
    case Map(arg, items) => ValidArg(arg) && Len(items) == 2 * Value(arg) && AllWellFormed(items)
    case OpenArray(items) => AllWellFormed(items)
    case OpenMap(items) => AllWellFormed(items)
    case Tag(arg, item) => ValidArg(arg) && WellFormed(item)
  }

  predicate AllWellFormed(l: Items) {
    match l
    case Nil => true
    case Cons(head, tail) => WellFormed(head) && AllWellFormed(tail)
  }

  predicate AllChunks(l: Items, major: nat) {
    match l
    case Nil => true
    case Cons(head, tail) =>
      head.Str? && head.major == major && WellFormed(head) && AllChunks(tail, major)
  }

  /** RFC 8949 section 3 without the two relaxations, at every depth. */
  predicate Strict(i: Item) {
    match i
    case Atom(major, arg) =>
      major == 7 && arg.Wide? && |arg.follow| == 1 ==> Value(arg) >= 32
    case Str(_, _, _) => true
    case Chunked(_, _) => true
    case Array(_, items) => AllStrict(items)
    case Map(_, items) => AllStrict(items)
    case OpenArray(items) => AllStrict(items)
    case OpenMap(items) => Len(items) % 2 == 0 && AllStrict(items)
    case Tag(_, item) => Strict(item)
  }

  predicate AllStrict(l: Items) {
    match l
    case Nil => true
    case Cons(head, tail) => Strict(head) && AllStrict(tail)
  }

  function EncodeHead(major: nat, a: Arg): (e: bytes)
    requires major < 8 && ValidArg(a)
    ensures |e| == 1 + |Follow(a)|
  {
    [major * 32 + Info(a)] + Follow(a)
  }

  function Encode(i: Item): (e: bytes)
    requires WellFormed(i)
    ensures |e| >= 1 && e[0] != 0xff
  {
    match i
    case Atom(major, arg) => EncodeHead(major, arg)
    case Str(major, arg, body) => EncodeHead(major, arg) + body
    case Chunked(major, chunks) =>
      ChunksAreWellFormed(chunks, major);
      [major * 32 + 31] + (EncodeAll(chunks) + [0xff])
    case Array(arg, items) => EncodeHead(4, arg) + EncodeAll(items)
    case Map(arg, items) => EncodeHead(5, arg) + EncodeAll(items)
    case OpenArray(items) => [0x9f] + (EncodeAll(items) + [0xff])
    case OpenMap(items) => [0xbf] + (EncodeAll(items) + [0xff])
    case Tag(arg, item) => EncodeHead(6, arg) + Encode(item)
  }

  /** No item is shorter than a byte: the count that makes the scanner's guard safe. */
  function EncodeAll(l: Items): (e: bytes)
    requires AllWellFormed(l)
    ensures |e| >= Len(l)
  {
    match l
    case Nil => []
    case Cons(head, tail) => Encode(head) + EncodeAll(tail)
  }

  lemma ChunksAreWellFormed(l: Items, major: nat)
    requires AllChunks(l, major)
    ensures AllWellFormed(l)
  {
  }
}
