/** The byte buffer of evpp: an array with a read index, a write index and some room kept free
    in front, refining a plain byte sequence. */
module Buffers {
  import opened Bytes

  const CHEAP_PREPEND_SIZE := 8
  const INITIAL_SIZE := 1024
  const EXTRA_SIZE := 65536

  // ---------- integers in network order ----------

  /** The `n` bytes of an unsigned number, most significant first. */
  function BigEndian(x: nat, n: nat): (s: bytes)
    ensures |s| == n
  {
    if n == 0 then [] else BigEndian(x / 256, n - 1) + [x % 256]
  }

  function FromBigEndian(s: bytes): nat {
    if s == [] then 0 else FromBigEndian(s[..|s| - 1]) * 256 + s[|s| - 1]
  }

  function Pow256(n: nat): (p: nat)
    ensures p > 0
  {
    if n == 0 then 1 else 256 * Pow256(n - 1)
  }

  lemma {:induction false} FromToBigEndian(x: nat, n: nat)
    requires x < Pow256(n)
    ensures FromBigEndian(BigEndian(x, n)) == x
  {
    if n > 0 {
      FromToBigEndian(x / 256, n - 1);
      assert BigEndian(x, n)[..n - 1] == BigEndian(x / 256, n - 1);
    }
  }

  lemma {:induction false} ToFromBigEndian(s: bytes)
    ensures FromBigEndian(s) < Pow256(|s|)
    ensures BigEndian(FromBigEndian(s), |s|) == s
    decreases |s|
  {
    if s != [] {
      var m, b := FromBigEndian(s[..|s| - 1]), s[|s| - 1];
      ToFromBigEndian(s[..|s| - 1]);
      assert (m * 256 + b) / 256 == m && (m * 256 + b) % 256 == b;
      assert s == s[..|s| - 1] + [b];
    }
  }

  /** A signed number of `n` bytes as the unsigned one with the same bits, and back. */
  function Unsigned(x: int, n: nat): (u: nat)
    requires -(Pow256(n) as int) <= 2 * x < Pow256(n)
    ensures u < Pow256(n)
  {
    if x < 0 then x + Pow256(n) else x
  }

  function Signed(u: nat, n: nat): (x: int)
    requires u < Pow256(n)
    ensures -(Pow256(n) as int) <= 2 * x < Pow256(n)
  {
    if 2 * u < Pow256(n) then u else u - Pow256(n)
  }

  /** The bytes that an integer of `n` bytes is appended as. */
  function IntBytes(x: int, n: nat): (s: bytes)
    requires -(Pow256(n) as int) <= 2 * x < Pow256(n)
    ensures |s| == n
  {
    BigEndian(Unsigned(x, n), n)
  }

  function BytesInt(s: bytes): (x: int)
    ensures -(Pow256(|s|) as int) <= 2 * x < Pow256(|s|)
  {
    ToFromBigEndian(s);
    Signed(FromBigEndian(s), |s|)
  }

  /** Every signed number of `n` bytes survives being written and read, and so does every
      string of `n` bytes. */
  lemma IntRoundTrip(x: int, n: nat)
    requires -(Pow256(n) as int) <= 2 * x < Pow256(n)
    ensures BytesInt(IntBytes(x, n)) == x
  {
    FromToBigEndian(Unsigned(x, n), n);
  }

  lemma BytesRoundTrip(s: bytes)
    requires s != []
    ensures IntBytes(BytesInt(s), |s|) == s
  {
    ToFromBigEndian(s);
    EvenPower(|s|);
  }

  lemma {:induction false} EvenPower(n: nat)
    requires n > 0
    ensures Pow256(n) % 2 == 0
  {
  }

  // ---------- the byte swap macro ----------

  /** evppbswap_64. */
  function Swap64(x: bv64): bv64 {
    ((x & 0xff00000000000000) >> 56)
    | ((x & 0x00ff000000000000) >> 40)
    | ((x & 0x0000ff0000000000) >> 24)
    | ((x & 0x000000ff00000000) >> 8)
    | ((x & 0x00000000ff000000) << 8)
    | ((x & 0x0000000000ff0000) << 24)
    | ((x & 0x000000000000ff00) << 40)
    | ((x & 0x00000000000000ff) << 56)
  }

  /** Byte `k` of a word, counted from the least significant. */
  function ByteOf(x: bv64, k: nat): bv8
    requires k < 8
  {
    match k
    case 0 => (x & 0xff) as bv8
    case 1 => ((x >> 8) & 0xff) as bv8
    case 2 => ((x >> 16) & 0xff) as bv8
    case 3 => ((x >> 24) & 0xff) as bv8
    case 4 => ((x >> 32) & 0xff) as bv8
    case 5 => ((x >> 40) & 0xff) as bv8
    case 6 => ((x >> 48) & 0xff) as bv8
    case _ => ((x >> 56) & 0xff) as bv8
  }

  /** The macro reverses the bytes. */
  lemma SwapReverses(x: bv64, k: nat)
    requires k < 8
    ensures ByteOf(Swap64(x), k) == ByteOf(x, 7 - k)
  {
    hide Swap64, ByteOf;
    SwapLow(x);
    SwapHigh(x);
  }

  lemma SwapLow(x: bv64)
    ensures ByteOf(Swap64(x), 0) == ByteOf(x, 7) && ByteOf(Swap64(x), 1) == ByteOf(x, 6)
    ensures ByteOf(Swap64(x), 2) == ByteOf(x, 5) && ByteOf(Swap64(x), 3) == ByteOf(x, 4)
  {
  }

  lemma SwapHigh(x: bv64)
    ensures ByteOf(Swap64(x), 4) == ByteOf(x, 3) && ByteOf(Swap64(x), 5) == ByteOf(x, 2)
    ensures ByteOf(Swap64(x), 6) == ByteOf(x, 1) && ByteOf(Swap64(x), 7) == ByteOf(x, 0)
  {
  }

  function Octet(b: bv8): byte {
    b as int
  }

  /** A word in the memory of a little-endian machine. */
  function Memory(x: bv64): (s: bytes)
    ensures |s| == 8
  {
    [Octet(ByteOf(x, 0)), Octet(ByteOf(x, 1)), Octet(ByteOf(x, 2)), Octet(ByteOf(x, 3)),
     Octet(ByteOf(x, 4)), Octet(ByteOf(x, 5)), Octet(ByteOf(x, 6)), Octet(ByteOf(x, 7))]
  }

  function Backwards(s: bytes): (r: bytes)
    requires |s| == 8
    ensures |r| == 8
  {
    [s[7], s[6], s[5], s[4], s[3], s[2], s[1], s[0]]
  }

  function Pair8(a: bv8, b: bv8): bv16 {
    ((a as bv16) << 8) | (b as bv16)
  }

  function Pair16(a: bv16, b: bv16): bv32 {
    ((a as bv32) << 16) | (b as bv32)
  }

  function Pair32(a: bv32, b: bv32): bv64 {
    ((a as bv64) << 32) | (b as bv64)
  }

  function Number16(x: bv16): nat {
    x as nat
  }

  function Number32(x: bv32): nat {
    x as nat
  }

  function Number64(x: bv64): nat {
    x as nat
  }

  lemma Number8And8(a: bv8, b: bv8)
    ensures Number16(Pair8(a, b)) == TwoDigits(Octet(a), Octet(b))
  {
  }

  lemma Number16And16(a: bv16, b: bv16)
    ensures Number32(Pair16(a, b)) == 65536 * Number16(a) + Number16(b)
  {
  }

  lemma Number32And32(a: bv32, b: bv32)
    ensures Number64(Pair32(a, b)) == U32 * Number32(a) + Number32(b)
  {
  }

  lemma WordPairs(x: bv64)
    ensures x == Pair32(Pair16(Pair8(ByteOf(x, 7), ByteOf(x, 6)), Pair8(ByteOf(x, 5), ByteOf(x, 4))),
                        Pair16(Pair8(ByteOf(x, 3), ByteOf(x, 2)), Pair8(ByteOf(x, 1), ByteOf(x, 0))))
  {
  }

  lemma PrefixDigit(s: bytes, k: nat)
    requires 0 < k <= |s|
    ensures FromBigEndian(s[..k]) == FromBigEndian(s[..k - 1]) * 256 + s[k - 1]
  {
    assert s[..k][..k - 1] == s[..k - 1];
  }

  /** Eight digits to base 256. */
  lemma EightDigits(s: bytes)
    requires |s| == 8
    ensures FromBigEndian(s) == U32 * (65536 * TwoDigits(s[0], s[1]) + TwoDigits(s[2], s[3]))
                              + 65536 * TwoDigits(s[4], s[5]) + TwoDigits(s[6], s[7])
  {
    assert FromBigEndian(s[..0]) == 0;
    hide FromBigEndian;
    assert s[..8] == s;
    PrefixDigit(s, 8);
    PrefixDigit(s, 7);
    PrefixDigit(s, 6);
    PrefixDigit(s, 5);
    PrefixDigit(s, 4);
    PrefixDigit(s, 3);
    PrefixDigit(s, 2);
    PrefixDigit(s, 1);
  }

  function TwoDigits(a: byte, b: byte): nat {
    256 * (a as int) + b
  }

  /** The bytes of a word are the digits to base 256 of the unsigned number it stands for. */
  lemma WordDigits(x: bv64)
    ensures FromBigEndian(Backwards(Memory(x))) == Number64(x)
  {
    hide ByteOf, Octet, Pair8, Pair16, Pair32, Number16, Number32, Number64, FromBigEndian, TwoDigits;
    WordPairs(x);
    EightDigits(Backwards(Memory(x)));
    var hg, fe := Pair8(ByteOf(x, 7), ByteOf(x, 6)), Pair8(ByteOf(x, 5), ByteOf(x, 4));
    var dc, ba := Pair8(ByteOf(x, 3), ByteOf(x, 2)), Pair8(ByteOf(x, 1), ByteOf(x, 0));
    Number8And8(ByteOf(x, 7), ByteOf(x, 6));
    Number8And8(ByteOf(x, 5), ByteOf(x, 4));
    Number8And8(ByteOf(x, 3), ByteOf(x, 2));
    Number8And8(ByteOf(x, 1), ByteOf(x, 0));
    Number16And16(hg, fe);
    Number16And16(dc, ba);
    Number32And32(Pair16(hg, fe), Pair16(dc, ba));
  }

  lemma SwappedMemory(x: bv64)
    ensures Memory(Swap64(x)) == Backwards(Memory(x))
  {
    hide Swap64, ByteOf, Octet;
    SwapReverses(x, 0);
    SwapReverses(x, 1);
    SwapReverses(x, 2);
    SwapReverses(x, 3);
    SwapReverses(x, 4);
    SwapReverses(x, 5);
    SwapReverses(x, 6);
    SwapReverses(x, 7);
  }

  /** In little-endian memory a swapped word is the number of the word in network order. */
  lemma SwapIsNetworkOrder(x: bv64)
    ensures Memory(Swap64(x)) == BigEndian(x as nat, 8)
  {
    hide Swap64, ByteOf, Octet, Memory, BigEndian, FromBigEndian, Number64;
    SwappedMemory(x);
    WordDigits(x);
    NumberIs(x);
    ToFromBigEndian(Backwards(Memory(x)));
  }

  function Join(a: bv8, b: bv8, c: bv8, d: bv8, e: bv8, f: bv8, g: bv8, h: bv8): bv64 {
    (a as bv64) | ((b as bv64) << 8) | ((c as bv64) << 16) | ((d as bv64) << 24)
    | ((e as bv64) << 32) | ((f as bv64) << 40) | ((g as bv64) << 48) | ((h as bv64) << 56)
  }

  lemma JoinLow(a: bv8, b: bv8, c: bv8, d: bv8, e: bv8, f: bv8, g: bv8, h: bv8)
    ensures ByteOf(Join(a, b, c, d, e, f, g, h), 0) == a
    ensures ByteOf(Join(a, b, c, d, e, f, g, h), 1) == b
    ensures ByteOf(Join(a, b, c, d, e, f, g, h), 2) == c
    ensures ByteOf(Join(a, b, c, d, e, f, g, h), 3) == d
  {
  }

  lemma JoinHigh(a: bv8, b: bv8, c: bv8, d: bv8, e: bv8, f: bv8, g: bv8, h: bv8)
    ensures ByteOf(Join(a, b, c, d, e, f, g, h), 4) == e
    ensures ByteOf(Join(a, b, c, d, e, f, g, h), 5) == f
    ensures ByteOf(Join(a, b, c, d, e, f, g, h), 6) == g
    ensures ByteOf(Join(a, b, c, d, e, f, g, h), 7) == h
  {
  }

  /** The bits of a byte, four and four. */
  function Bits8(b: byte): bv8 {
    Nibbles(Bits4(b / 16), Bits4(b % 16))
  }

  function Bits4(b: nat): bv4
    requires b < 16
  {
    b as bv4
  }

  function Nibbles(a: bv4, b: bv4): bv8 {
    ((a as bv8) << 4) | (b as bv8)
  }

  lemma OctetNibbles(a: bv4, b: bv4)
    ensures Octet(Nibbles(a, b)) == 16 * (a as int) + b as int
  {
  }

  lemma BitsBack(b: nat)
    requires b < 16
    ensures Bits4(b) as int == b
  {
  }

  /** The word that eight bytes of memory hold. */
  function WordAt(s: bytes): bv64
    requires |s| == 8
  {
    Join(Bits8(s[0]), Bits8(s[1]), Bits8(s[2]), Bits8(s[3]), Bits8(s[4]), Bits8(s[5]), Bits8(s[6]), Bits8(s[7]))
  }

  lemma OctetBits(b: byte)
    ensures Octet(Bits8(b)) == b
  {
    hide Octet, Nibbles, Bits4;
    OctetNibbles(Bits4(b / 16), Bits4(b % 16));
    BitsBack(b / 16);
    BitsBack(b % 16);
  }

  lemma MemoryWord(s: bytes)
    requires |s| == 8
    ensures Memory(WordAt(s)) == s
  {
    hide Join, ByteOf, Octet, Bits8;
    JoinLow(Bits8(s[0]), Bits8(s[1]), Bits8(s[2]), Bits8(s[3]), Bits8(s[4]), Bits8(s[5]), Bits8(s[6]), Bits8(s[7]));
    JoinHigh(Bits8(s[0]), Bits8(s[1]), Bits8(s[2]), Bits8(s[3]), Bits8(s[4]), Bits8(s[5]), Bits8(s[6]), Bits8(s[7]));
    forall i | 0 <= i < 8 ensures Octet(Bits8(s[i])) == s[i] {
      OctetBits(s[i]);
    }
  }

  /** The machine word of a signed number, and the signed number of a word. */
  function WordOf(x: int): (w: bv64)
    requires -(Pow256(8) as int) <= 2 * x < Pow256(8)
  {
    WordAt(Backwards(IntBytes(x, 8)))
  }

  function ValueOf(w: bv64): (x: int) {
    BytesInt(Backwards(Memory(w)))
  }

  /** The word of a number has its two's complement. */
  lemma WordNumber(x: int)
    requires -(Pow256(8) as int) <= 2 * x < Pow256(8)
    ensures WordOf(x) as nat == Unsigned(x, 8)
  {
    hide Memory, WordAt, BigEndian, FromBigEndian, Number64, Pow256;
    WordDigits(WordOf(x));
    MemoryWord(Backwards(IntBytes(x, 8)));
    assert Backwards(Backwards(IntBytes(x, 8))) == IntBytes(x, 8);
    FromToBigEndian(Unsigned(x, 8), 8);
    NumberIs(WordOf(x));
  }

  lemma NumberIs(x: bv64)
    ensures Number64(x) == x as nat
  {
  }

  /** Swapping before storing and after loading is network order on both ways. */
  lemma StoreSwapped(x: int)
    requires -(Pow256(8) as int) <= 2 * x < Pow256(8)
    ensures Memory(Swap64(WordOf(x))) == IntBytes(x, 8) && ValueOf(WordOf(x)) == x
  {
    hide Swap64, Memory, WordAt, IntBytes, BytesInt;
    SwappedMemory(WordOf(x));
    MemoryWord(Backwards(IntBytes(x, 8)));
    assert Backwards(Backwards(IntBytes(x, 8))) == IntBytes(x, 8);
    IntRoundTrip(x, 8);
  }

  lemma LoadSwapped(s: bytes)
    requires |s| == 8
    ensures ValueOf(Swap64(WordAt(s))) == BytesInt(s)
  {
    hide Swap64, Memory, WordAt, BytesInt;
    SwappedMemory(WordAt(s));
    MemoryWord(s);
    assert Backwards(Backwards(s)) == s;
  }

  // ---------- the buffer ----------

  /** What clients do to a buffer, and what it means for a plain byte sequence. */
  datatype Op =
    | Append(d: bytes)
    | Push(d: bytes)
    | Arrive(d: bytes)
    | Drop(n: nat)
    | Cut(n: nat)
    | Unwrite(n: nat)
    | Room(n: nat)
    | Fit(n: nat)
    | Take(n: nat)

  function Abstractly(c: bytes, op: Op): bytes {
    match op
    case Append(d) => c + d
    case Push(d) => d + c
    case Arrive(d) => c + d
    case Drop(n) => c[Min(n, |c|)..]
    case Cut(n) => c[..Min(n, |c|)]
    case Unwrite(n) => c[..|c| - Min(n, |c|)]
    case Room(_) => c
    case Fit(_) => c
    case Take(n) => c[Min(n, |c|)..]
  }

  function AbstractlyAll(c: bytes, ops: seq<Op>): bytes
    decreases |ops|
  {
    if ops == [] then c else AbstractlyAll(Abstractly(c, ops[0]), ops[1..])
  }

  /** The operations of `ops` that were not refused. */
  function Kept(ops: seq<Op>, done: seq<bool>): seq<Op>
    requires |done| == |ops|
  {
    if ops == [] then []
    else Kept(ops[..|ops| - 1], done[..|ops| - 1]) + if done[|ops| - 1] then [ops[|ops| - 1]] else []
  }

  lemma {:induction false} AbstractlySnoc(c: bytes, ops: seq<Op>, op: Op)
    ensures AbstractlyAll(c, ops + [op]) == Abstractly(AbstractlyAll(c, ops), op)
    decreases |ops|
  {
    hide Abstractly;
    if ops == [] {
      assert [op][1..] == [];
    } else {
      assert (ops + [op])[1..] == ops[1..] + [op];
      AbstractlySnoc(Abstractly(c, ops[0]), ops[1..], op);
    }
  }

  class Buffer {
    var store: array<byte>
    var readIndex: nat
    var writeIndex: nat
    var reserved: nat

    ghost predicate Valid()
      reads this
    {
      reserved <= store.Length && readIndex <= writeIndex <= store.Length
    }

    /** The unread bytes. */
    ghost function Contents(): bytes
      requires Valid()
      reads this, store
    {
      store[readIndex..writeIndex]
    }

    constructor (initialSize: nat, reservedPrependSize: nat)
      ensures Valid() && fresh(store) && Contents() == []
      ensures WritableBytes() == initialSize && PrependableBytes() == reserved == reservedPrependSize
    {
      store := new byte[reservedPrependSize + initialSize];
      readIndex, writeIndex, reserved := reservedPrependSize, reservedPrependSize, reservedPrependSize;
    }

    function Length(): nat
      requires Valid()
      reads this
    {
      writeIndex - readIndex
    }

    function WritableBytes(): nat
      requires Valid()
      reads this
    {
      store.Length - writeIndex
    }

    function PrependableBytes(): nat
      reads this
    {
      readIndex
    }

    method Truncate(n: nat)
      requires Valid()
      modifies this`readIndex, this`writeIndex
      ensures Valid() && Contents() == old(Contents())[..Min(n, |old(Contents())|)]
    {
      if n == 0 {
        readIndex := reserved;
        writeIndex := reserved;
      } else if writeIndex > readIndex + n {
        writeIndex := readIndex + n;
      }
    }

    method Reset()
      requires Valid()
      modifies this`readIndex, this`writeIndex
      ensures Valid() && Contents() == [] && PrependableBytes() == reserved
    {
      readIndex := reserved;
      writeIndex := reserved;
    }

    /** Skip, and Retrieve, which is the same. */
    method Skip(len: nat)
      requires Valid()
      modifies this`readIndex, this`writeIndex
      ensures Valid() && Contents() == old(Contents())[Min(len, |old(Contents())|)..]
    {
      if len < Length() {
        readIndex := readIndex + len;
      } else {
        Reset();
      }
    }

    /** The branch of grow that copies the contents to a bigger array. */
    method Enlarge(n: nat)
      requires Valid() && n >= reserved + Length()
      modifies this
      ensures Valid() && Contents() == old(Contents()) && reserved == old(reserved)
      ensures fresh(store) && store.Length == n && PrependableBytes() == reserved
      ensures writeIndex == reserved + old(Length())
    {
      var m := Length();
      var d := new byte[n];
      forall i | 0 <= i < m {
        d[reserved + i] := store[readIndex + i];
      }
      assert forall i :: 0 <= i < m ==> d[reserved..reserved + m][i] == Contents()[i];
      assert d[reserved..reserved + m] == Contents();
      writeIndex := m + reserved;
      readIndex := reserved;
      store := d;
    }

    /** The branch that moves the contents to the front. */
    method MoveToFront()
      requires Valid() && reserved < readIndex
      modifies this`readIndex, this`writeIndex, store
      ensures Valid() && Contents() == old(Contents()) && PrependableBytes() == reserved
      ensures writeIndex == reserved + old(Length())
    {
      var readable := Length();
      ghost var was := Contents();
      forall i | 0 <= i < readable {
        store[reserved + i] := store[readIndex + i];
      }
      assert forall i :: 0 <= i < readable ==> store[reserved..reserved + readable][i] == was[i];
      assert store[reserved..reserved + readable] == was;
      readIndex := reserved;
      writeIndex := readIndex + readable;
    }

    /** Makes room for `len` more bytes, moving the contents to the front or to a bigger array.
        The assertions of the moving branch hold for both callers of the source, and Reserve
        never takes it. */
    method Grow(len: nat)
      requires Valid() && (WritableBytes() < len || store.Length < len)
      modifies this, store
      ensures Valid() && Contents() == old(Contents()) && reserved == old(reserved)
      ensures store == old(store) || fresh(store)
      ensures WritableBytes() >= len && PrependableBytes() == reserved
      ensures old(store.Length) < len ==> store.Length == 2 * old(store.Length) + len
    {
      if WritableBytes() + PrependableBytes() < len + reserved {
        Enlarge(2 * store.Length + len);
      } else {
        assert reserved < readIndex;
        MoveToFront();
        assert WritableBytes() >= len;
      }
    }

    /** Room for `len` bytes in all. */
    method Reserve(len: nat)
      requires Valid()
      modifies this, store
      ensures Valid() && Contents() == old(Contents()) && reserved == old(reserved)
      ensures store == old(store) || fresh(store)
      ensures store.Length >= len + reserved
      ensures old(store.Length >= len + reserved) ==> store == old(store) && readIndex == old(readIndex)
    {
      if store.Length >= len + reserved {
        return;
      }
      Grow(len + reserved);
    }

    method EnsureWritableBytes(len: nat)
      requires Valid()
      modifies this, store
      ensures Valid() && Contents() == old(Contents()) && reserved == old(reserved)
      ensures store == old(store) || fresh(store)
      ensures WritableBytes() >= len
      ensures PrependableBytes() == old(PrependableBytes()) || PrependableBytes() == reserved
      ensures old(WritableBytes()) >= len ==>
                store == old(store) && store[..] == old(store[..])
                && readIndex == old(readIndex) && writeIndex == old(writeIndex)
    {
      if WritableBytes() < len {
        Grow(len);
      }
    }

    /** The copy of Write, once the room is there: the array stays and nothing is moved. */
    method WriteInPlace(d: bytes)
      requires Valid() && |d| <= WritableBytes()
      modifies this`writeIndex, store
      ensures Valid() && Contents() == old(Contents()) + d
      ensures writeIndex == old(writeIndex) + |d|
      ensures store[..old(writeIndex)] == old(store[..writeIndex])
    {
      ghost var was := Contents();
      forall i | 0 <= i < |d| {
        store[writeIndex + i] := d[i];
      }
      assert store[..writeIndex] == old(store[..writeIndex]);
      assert store[readIndex..writeIndex] == was;
      assert store[writeIndex..writeIndex + |d|] == d;
      writeIndex := writeIndex + |d|;
      assert store[readIndex..writeIndex] == was + d;
    }

    /** Write, and the Append methods, which call it. Where the room suffices, nothing in front of
        the new bytes changes. */
    method Write(d: bytes)
      requires Valid()
      modifies this, store
      ensures Valid() && Contents() == old(Contents()) + d && reserved == old(reserved)
      ensures store == old(store) || fresh(store)
      ensures old(WritableBytes()) >= |d| ==>
                store == old(store) && readIndex == old(readIndex)
                && store[..old(writeIndex)] == old(store[..writeIndex])
    {
      EnsureWritableBytes(|d|);
      WriteInPlace(d);
    }

    method Prepend(d: bytes)
      requires Valid() && |d| <= PrependableBytes()
      modifies this`readIndex, store
      ensures Valid() && Contents() == d + old(Contents())
      ensures PrependableBytes() == old(PrependableBytes()) - |d|
      ensures store[readIndex..readIndex + |d|] == d
    {
      ghost var was := Contents();
      readIndex := readIndex - |d|;
      forall i | 0 <= i < |d| {
        store[readIndex + i] := d[i];
      }
      assert store[readIndex..readIndex + |d|] == d;
      assert store[readIndex + |d|..writeIndex] == was;
      assert Contents() == store[readIndex..readIndex + |d|] + store[readIndex + |d|..writeIndex];
    }

    method UnwriteBytes(n: nat)
      requires Valid() && n <= Length()
      modifies this`writeIndex
      ensures Valid() && Contents() == old(Contents())[..|old(Contents())| - n]
    {
      writeIndex := writeIndex - n;
    }

    /** Takes over bytes that were put behind the contents through WriteBegin. */
    method WriteBytes(n: nat)
      requires Valid() && n <= WritableBytes()
      modifies this`writeIndex
      ensures Valid() && Contents() == old(Contents()) + old(store[writeIndex..writeIndex + n])
    {
      writeIndex := writeIndex + n;
    }

    method NextAll() returns (r: bytes)
      requires Valid()
      modifies this`readIndex, this`writeIndex
      ensures Valid() && r == old(Contents()) && Contents() == [] && PrependableBytes() == reserved
    {
      r := store[readIndex..writeIndex];
      Reset();
    }

    method Next(len: nat) returns (r: bytes)
      requires Valid()
      modifies this`readIndex, this`writeIndex
      ensures Valid() && r + Contents() == old(Contents()) && |r| == Min(len, |old(Contents())|)
      ensures if len < |old(Contents())| then readIndex == old(readIndex) + len && writeIndex == old(writeIndex)
              else PrependableBytes() == reserved
    {
      if len < Length() {
        r := store[readIndex..readIndex + len];
        readIndex := readIndex + len;
      } else {
        r := NextAll();
      }
    }

    method ReadByte() returns (b: byte)
      requires Valid() && Length() >= 1
      modifies this`readIndex
      ensures Valid() && [b] + Contents() == old(Contents()) && store[readIndex - 1] == b
      ensures readIndex == old(readIndex) + 1
    {
      b := store[readIndex];
      readIndex := readIndex + 1;
    }

    /** Moves the read index back over the `n` bytes before it. */
    method UnreadBytes(n: nat)
      requires Valid() && n < PrependableBytes()
      modifies this`readIndex
      ensures Valid() && Contents() == old(store[readIndex - n..readIndex]) + old(Contents())
    {
      readIndex := readIndex - n;
    }

    /** A byte that was just read can be put back. */
    method ReadUnread() returns (b: byte)
      requires Valid() && Length() >= 1 && PrependableBytes() >= 1
      modifies this`readIndex
      ensures Valid() && Contents() == old(Contents()) && b == Contents()[0]
    {
      b := ReadByte();
      UnreadBytes(1);
    }

    /** Reading `len` bytes and putting back what was read; `ok` is the assertion of UnreadBytes,
        without which nothing is put back. The contents are restored if and only if the read left
        something, or the bytes that lie in the reserved room happen to be the contents: a read
        that empties the buffer moves the read index back to the reserved room. */
    method NextThenUnread(len: nat) returns (ok: bool)
      requires Valid()
      modifies this`readIndex, this`writeIndex
      ensures Valid() && store[..] == old(store[..])
      ensures ok == if len < |old(Contents())| then old(readIndex) > 0 else |old(Contents())| < reserved
      ensures var n := |old(Contents())|;
              if !ok then Contents() == old(Contents())[Min(len, n)..]
              else Contents() == old(Contents()) <==>
                     len < n || old(store[..])[reserved - n..reserved] == old(Contents())
    {
      var emptied := len >= Length();
      var r := Next(len);
      assert emptied ==> readIndex == writeIndex == reserved;
      ok := |r| < PrependableBytes();
      if ok {
        UnreadBytes(|r|);
      }
    }

    // ---------- integers ----------

    /** AppendInt64: the word is swapped and its memory appended. */
    method AppendInt64(x: int)
      requires Valid() && -(Pow256(8) as int) <= 2 * x < Pow256(8)
      modifies this, store
      ensures Valid() && Contents() == old(Contents()) + IntBytes(x, 8) && reserved == old(reserved)
      ensures store == old(store) || fresh(store)
    {
      hide Swap64, Memory, WordOf, IntBytes;
      var be := Swap64(WordOf(x));
      StoreSwapped(x);
      Write(Memory(be));
    }

    method PrependInt64(x: int)
      requires Valid() && -(Pow256(8) as int) <= 2 * x < Pow256(8) && 8 <= PrependableBytes()
      modifies this`readIndex, store
      ensures Valid() && Contents() == IntBytes(x, 8) + old(Contents())
    {
      hide Swap64, Memory, WordOf, IntBytes;
      var be := Swap64(WordOf(x));
      StoreSwapped(x);
      Prepend(Memory(be));
    }

    /** PeekInt64: eight bytes are loaded as a word and swapped. */
    method PeekInt64() returns (x: int)
      requires Valid() && 8 <= Length()
      ensures x == BytesInt(Contents()[..8])
    {
      hide Swap64, ValueOf, WordAt, BytesInt;
      var s := store[readIndex..readIndex + 8];
      assert s == Contents()[..8];
      LoadSwapped(s);
      x := ValueOf(Swap64(WordAt(s)));
    }

    method ReadInt64() returns (x: int)
      requires Valid() && 8 <= Length()
      modifies this`readIndex, this`writeIndex
      ensures Valid() && x == BytesInt(old(Contents())[..8]) && Contents() == old(Contents())[8..]
    {
      hide BytesInt, Pow256;
      x := PeekInt64();
      Skip(8);
    }

    /** AppendInt32, AppendInt16 and AppendInt8, with `n` the size of the type; htonl and htons
        put a number in network order. */
    method AppendInt(x: int, n: nat)
      requires Valid() && -(Pow256(n) as int) <= 2 * x < Pow256(n)
      modifies this, store
      ensures Valid() && Contents() == old(Contents()) + IntBytes(x, n) && reserved == old(reserved)
      ensures store == old(store) || fresh(store)
    {
      hide IntBytes, Pow256;
      Write(IntBytes(x, n));
    }

    method PrependInt(x: int, n: nat)
      requires Valid() && -(Pow256(n) as int) <= 2 * x < Pow256(n) && n <= PrependableBytes()
      modifies this`readIndex, store
      ensures Valid() && Contents() == IntBytes(x, n) + old(Contents())
    {
      hide IntBytes, Pow256;
      Prepend(IntBytes(x, n));
    }

    method PeekInt(n: nat) returns (x: int)
      requires Valid() && n <= Length()
      ensures x == BytesInt(Contents()[..n])
    {
      hide BytesInt, Pow256;
      x := BytesInt(store[readIndex..readIndex + n]);
      assert store[readIndex..readIndex + n] == Contents()[..n];
    }

    method ReadInt(n: nat) returns (x: int)
      requires Valid() && n <= Length()
      modifies this`readIndex, this`writeIndex
      ensures Valid() && x == BytesInt(old(Contents())[..n]) && Contents() == old(Contents())[n..]
    {
      assert Min(n, |Contents()|) == n;
      hide BytesInt, Pow256, Min, Valid;
      x := PeekInt(n);
      Skip(n);
    }

    /** Puts a NUL behind the contents without counting it. */
    method ToText()
      requires Valid()
      modifies this, store
      ensures Valid() && Contents() == old(Contents()) && reserved == old(reserved)
      ensures store == old(store) || fresh(store)
      ensures writeIndex < store.Length && store[writeIndex] == NUL
    {
      ghost var was := Contents();
      Write([NUL]);
      assert Contents()[|was|] == NUL;
      UnwriteBytes(1);
      assert store[writeIndex] == NUL;
    }

    // ---------- whole buffers ----------

    method Swap(rhs: Buffer)
      requires Valid() && rhs.Valid()
      modifies this, rhs
      ensures Valid() && rhs.Valid()
      ensures Contents() == old(rhs.Contents()) && rhs.Contents() == old(Contents())
      ensures store == old(rhs.store) && rhs.store == old(store)
      ensures reserved == old(rhs.reserved) && rhs.reserved == old(reserved)
      ensures readIndex == old(rhs.readIndex) && rhs.readIndex == old(readIndex)
      ensures writeIndex == old(rhs.writeIndex) && rhs.writeIndex == old(writeIndex)
    {
      store, rhs.store := rhs.store, store;
      readIndex, rhs.readIndex := rhs.readIndex, readIndex;
      writeIndex, rhs.writeIndex := rhs.writeIndex, writeIndex;
      reserved, rhs.reserved := rhs.reserved, reserved;
    }

    /** A new array with room for `reserve` more bytes; the room in front becomes the default. */
    method Shrink(reserve: nat)
      requires Valid()
      modifies this
      ensures Valid() && Contents() == old(Contents()) && fresh(store)
      ensures WritableBytes() == reserve && reserved == PrependableBytes() == 8
    {
      var other := new Buffer(Length() + reserve, CHEAP_PREPEND_SIZE);
      other.WriteInPlace(store[readIndex..writeIndex]);
      Swap(other);
    }

    // ---------- the two-segment read ----------

    /** What one readv can deliver: the room behind the contents, and the extra segment when
        that room is small. */
    function ReadLimit(): (n: nat)
      requires Valid()
      ensures n >= 65536 && n >= WritableBytes() && n < WritableBytes() + 65537
      reads this
    {
      if WritableBytes() < EXTRA_SIZE then WritableBytes() + EXTRA_SIZE else WritableBytes()
    }

    /** ReadFromFD; `arrived` is what the kernel delivers, or None for an error. */
    method ReadFromFD(arrived: Option<bytes>) returns (n: int)
      requires Valid() && (arrived.Some? ==> |arrived.value| <= ReadLimit())
      modifies this, store
      ensures Valid() && reserved == old(reserved) && (store == old(store) || fresh(store))
      ensures arrived.None? ==> n == -1 && Contents() == old(Contents())
      ensures arrived.Some? ==> n == |arrived.value| && Contents() == old(Contents()) + arrived.value
    {
      if arrived.None? {
        return -1;
      }
      var d := arrived.value;
      var writable := WritableBytes();
      var first := Min(|d|, writable);
      n := |d|;
      WriteInPlace(d[..first]);
      if |d| > writable {
        Write(d[first..]);
      }
      assert d[..first] + (if |d| > writable then d[first..] else []) == d;
    }

    // ---------- any sequence of operations ----------

    /** The assertions and limits that some operations depend on. */
    predicate Allows(op: Op)
      requires Valid()
      reads this
    {
      match op
      case Push(d) => |d| <= PrependableBytes()
      case Unwrite(n) => n <= Length()
      case Arrive(d) => |d| <= ReadLimit()
      case _ => true
    }

    /** One operation of a client, or nothing where an assertion forbids it. */
    method Perform(op: Op) returns (done: bool)
      requires Valid()
      modifies this, store
      ensures Valid() && done == old(Allows(op))
      ensures Contents() == if done then Abstractly(old(Contents()), op) else old(Contents())
      ensures store == old(store) || fresh(store)
    {
      done := Allows(op);
      if done {
        match op
        case Append(d) => Write(d);
        case Push(d) => Prepend(d);
        case Arrive(d) => var n := ReadFromFD(Some(d));
        case Drop(n) => Skip(n);
        case Cut(n) => Truncate(n);
        case Unwrite(n) => UnwriteBytes(n);
        case Room(n) => Reserve(n);
        case Fit(n) => Shrink(n);
        case Take(n) => var r := Next(n); assert Contents() == old(Contents())[|r|..];
      }
    }

    /** Any sequence of operations: the contents are what the performed ones make of a plain byte
        sequence, and only prepends, unwrites and arrivals can be refused. */
    method PerformAll(ops: seq<Op>) returns (done: seq<bool>)
      requires Valid()
      modifies this, store
      ensures Valid() && |done| == |ops|
      ensures Contents() == AbstractlyAll(old(Contents()), Kept(ops, done))
      ensures forall i :: 0 <= i < |ops| && !done[i] ==> ops[i].Push? || ops[i].Unwrite? || ops[i].Arrive?
      ensures store == old(store) || fresh(store)
    {
      hide Abstractly, AbstractlyAll, Kept, RefusedRightly, Valid;
      done := [];
      NothingDone(Contents(), ops);
      while |done| < |ops|
        invariant |done| <= |ops| && Valid() && (store == old(store) || fresh(store))
        invariant Contents() == AbstractlyAll(old(Contents()), Kept(ops[..|done|], done))
        invariant RefusedRightly(ops, done)
      {
        var did := Perform(ops[|done|]);
        KeptContents(old(Contents()), ops, done, did);
        done := done + [did];
      }
      assert ops[..|ops|] == ops;
      RefusedAre(ops, done);
    }
  }

  /** Only an operation that an assertion or a limit guards was refused. */
  predicate RefusedRightly(ops: seq<Op>, done: seq<bool>)
    requires |done| <= |ops|
  {
    forall i :: 0 <= i < |done| && !done[i] ==> ops[i].Push? || ops[i].Unwrite? || ops[i].Arrive?
  }

  lemma RefusedAre(ops: seq<Op>, done: seq<bool>)
    requires |done| == |ops| && RefusedRightly(ops, done)
    ensures forall i :: 0 <= i < |ops| && !done[i] ==> ops[i].Push? || ops[i].Unwrite? || ops[i].Arrive?
  {
  }

  lemma NothingDone(c: bytes, ops: seq<Op>)
    ensures AbstractlyAll(c, Kept(ops[..0], [])) == c && RefusedRightly(ops, [])
  {
  }

  lemma KeptSnoc(ops: seq<Op>, done: seq<bool>, did: bool)
    requires |done| < |ops|
    ensures var i := |done|;
            Kept(ops[..i + 1], done + [did]) == Kept(ops[..i], done) + if did then [ops[i]] else []
  {
    var i := |done|;
    assert ops[..i + 1][..i] == ops[..i] && (done + [did])[..i] == done;
  }

  /** What one more operation makes of the contents. */
  lemma KeptContents(c: bytes, ops: seq<Op>, done: seq<bool>, did: bool)
    requires |done| < |ops|
    ensures var i := |done|;
            var before := AbstractlyAll(c, Kept(ops[..i], done));
            AbstractlyAll(c, Kept(ops[..i + 1], done + [did])) == if did then Abstractly(before, ops[i]) else before
    ensures RefusedRightly(ops, done) && (did || ops[|done|].Push? || ops[|done|].Unwrite? || ops[|done|].Arrive?) ==>
              RefusedRightly(ops, done + [did])
  {
    hide Abstractly, AbstractlyAll, Kept;
    var i := |done|;
    KeptSnoc(ops, done, did);
    AbstractlySnoc(c, Kept(ops[..i], done), ops[i]);
    assert Kept(ops[..i], done) + [] == Kept(ops[..i], done);
  }

  /** A case in which putting back goes wrong: a one is written and read, and a zero comes back. */
  method PutBackOther() returns (before: bytes, after: bytes)
    ensures before == [1] && after == [0]
  {
    var b := new Buffer(INITIAL_SIZE, CHEAP_PREPEND_SIZE);
    b.Prepend([0]);
    assert b.store[7] == 0 by { assert b.store[7..8] == [0]; }
    var r := b.Next(1);
    b.Write([1]);
    assert b.store[7] == 0 by { assert b.store[..8][7] == 0; }
    before := b.store[b.readIndex..b.writeIndex];
    r := b.Next(1);
    b.UnreadBytes(1);
    after := b.store[b.readIndex..b.writeIndex];
  }
}
