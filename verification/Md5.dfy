/** MD5 as a stream: the context absorbs a message in any pieces and finishes with the padding of
    RFC 1321. The compression function of section 3.4 is a parameter. */
module Md5 {
  import opened Bytes

  /** The four words of the digest state. */
  datatype Words = Words(a: u32, b: u32, c: u32, d: u32)

  const INITIAL: Words := Words(0x67452301, 0xefcdab89, 0x98badcfe, 0x10325476)

  /** MD5Transform. */
  type Compress = (Words, bytes) -> Words

  // ---------- words and bytes ----------

  function AllBytes(ws: seq<u32>): (s: bytes)
    ensures |s| == 4 * |ws|
  {
    if ws == [] then [] else WordBytes(ws[0]) + AllBytes(ws[1..])
  }

  function AllWords(s: bytes): (ws: seq<u32>)
    requires |s| % 4 == 0
    ensures 4 * |ws| == |s|
    decreases |s|
  {
    if s == [] then [] else [BytesWord(s[..4])] + AllWords(s[4..])
  }

  /** Decode undoes Encode. */
  lemma {:induction false} DecodeEncode(ws: seq<u32>)
    ensures AllWords(AllBytes(ws)) == ws
    decreases |ws|
  {
    if ws != [] {
      var s := AllBytes(ws);
      assert s[..4] == WordBytes(ws[0]) && s[4..] == AllBytes(ws[1..]);
      WordRoundTrip(ws[0]);
      DecodeEncode(ws[1..]);
    }
  }

  method Encode(ws: seq<u32>) returns (output: bytes)
    ensures output == AllBytes(ws)
  {
    output := [];
    var i := 0;
    assert ws[0..] == ws;
    while i < |ws|
      invariant i <= |ws| && output + AllBytes(ws[i..]) == AllBytes(ws)
    {
      var x := ws[i];
      var four := [x % 256, x / 0x100 % 256, x / 0x1_0000 % 256, x / 0x100_0000 % 256];
      assert four == WordBytes(x);
      hide WordBytes;
      assert ws[i..][1..] == ws[i + 1..];
      output := output + four;
      i := i + 1;
    }
  }

  method DecodeWord(s: bytes, j: nat) returns (x: u32)
    requires j + 4 <= |s|
    ensures x == BytesWord(s[j..j + 4])
  {
    x := s[j] as int + s[j + 1] as int * 0x100 + s[j + 2] as int * 0x1_0000 + s[j + 3] as int * 0x100_0000;
  }

  method Decode(s: bytes) returns (ws: seq<u32>)
    requires |s| % 4 == 0
    ensures ws == AllWords(s)
  {
    ws := [];
    var j := 0;
    assert s[0..] == s;
    while j < |s|
      invariant j <= |s| && j % 4 == 0 && ws + AllWords(s[j..]) == AllWords(s)
    {
      hide BytesWord, AllWords;
      var x := DecodeWord(s, j);
      AllWordsFrom(s, j);
      ws := ws + [x];
      j := j + 4;
    }
  }

  lemma AllWordsFrom(s: bytes, j: nat)
    requires |s| % 4 == 0 && j % 4 == 0 && j < |s|
    ensures j + 4 <= |s| && AllWords(s[j..]) == [BytesWord(s[j..j + 4])] + AllWords(s[j + 4..])
  {
    hide BytesWord;
    assert s[j..][..4] == s[j..j + 4] && s[j..][4..] == s[j + 4..];
  }

  // ---------- blocks ----------

  /** The state after the whole 64-byte blocks of a message. */
  function Fold(f: Compress, s: Words, m: bytes): Words
    decreases |m|
  {
    if |m| < 64 then s else Fold(f, f(s, m[..64]), m[64..])
  }

  /** Whole blocks first, the rest afterwards. */
  lemma {:induction false} FoldConcat(f: Compress, s: Words, a: bytes, b: bytes)
    requires |a| % 64 == 0
    ensures Fold(f, s, a + b) == Fold(f, Fold(f, s, a), b)
    decreases |a|
  {
    if a == [] {
      assert a + b == b;
    } else {
      assert (a + b)[..64] == a[..64] && (a + b)[64..] == a[64..] + b;
      FoldConcat(f, f(s, a[..64]), a[64..], b);
    }
  }

  lemma FoldBlock(f: Compress, s: Words, a: bytes, block: bytes)
    requires |a| % 64 == 0 && |block| == 64
    ensures Fold(f, s, a + block) == f(Fold(f, s, a), block)
  {
    FoldConcat(f, s, a, block);
    assert block[..64] == block && block[64..] == [];
  }

  /** A part of a block changes nothing yet. */
  lemma FoldPart(f: Compress, s: Words, a: bytes, part: bytes)
    requires |a| % 64 == 0 && |part| < 64
    ensures Fold(f, s, a + part) == Fold(f, s, a)
  {
    FoldConcat(f, s, a, part);
  }

  /** The whole blocks of a message, and what comes after them. */
  function Head(m: bytes): (h: bytes)
    ensures |h| % 64 == 0
    ensures |h| + |m| % 64 == |m|
  {
    m[..|m| - |m| % 64]
  }

  function Tail(m: bytes): (t: bytes)
    ensures |t| == |m| % 64 < 64
    ensures Head(m) + t == m
  {
    m[|m| - |m| % 64..]
  }

  // ---------- padding, sections 3.1 and 3.2 ----------

  function Zeros(n: nat): (z: bytes)
    ensures |z| == n && forall i :: 0 <= i < n ==> z[i] == 0
  {
    seq(n, _ => 0)
  }

  /** From 1 to 64 bytes, so that 8 more complete a block. */
  function PadLen(n: nat): (k: nat)
    ensures 1 <= k <= 64 && (n + k) % 64 == 56
  {
    if n % 64 < 56 then 56 - n % 64 else 120 - n % 64
  }

  function Padding(n: nat): (p: bytes)
    requires n > 0
    ensures |p| == n
  {
    [0x80] + Zeros(n - 1)
  }

  /** The length in bits, modulo 2^64, low word first. */
  function LengthBytes(n: nat): (s: bytes)
    ensures |s| == 8
  {
    var bits := 8 * n % U64;
    AllBytes([bits % U32, bits / U32])
  }

  function Padded(m: bytes): bytes {
    m + Padding(PadLen(|m|)) + LengthBytes(|m|)
  }

  lemma PadFits(n: nat)
    ensures (n + PadLen(n) + 8) % 64 == 0
  {
  }

  lemma LowDigits(x: nat, q: nat, r: nat)
    requires x == q * U64 + r && r < U64
    ensures r % U32 % 256 == x % 256 && r % U32 / 0x100 % 256 == x / 0x100 % 256
    ensures r % U32 / 0x1_0000 % 256 == x / 0x1_0000 % 256
    ensures r % U32 / 0x100_0000 % 256 == x / 0x100_0000 % 256
  {
    WordDigits(x, q * U32 + r / U32, r % U32);
  }

  lemma HighDigits(x: nat, q: nat, r: nat)
    requires x == q * U64 + r && r < U64
    ensures r / U32 % 256 == x / U32 % 256 && r / U32 / 0x100 % 256 == x / 0x100_0000_0000 % 256
    ensures r / U32 / 0x1_0000 % 256 == x / 0x1_0000_0000_0000 % 256
    ensures r / U32 / 0x100_0000 % 256 == x / 0x100_0000_0000_0000 % 256
  {
    assert x / U32 == q * U32 + r / U32;
    WordDigits(x / U32, q, r / U32);
    Quotients(x);
  }

  lemma Quotients(x: nat)
    ensures x / U32 / 0x100 == x / 0x100_0000_0000
    ensures x / U32 / 0x1_0000 == x / 0x1_0000_0000_0000
    ensures x / U32 / 0x100_0000 == x / 0x100_0000_0000_0000
  {
  }

  /** The bytes of the last 32 bits of a number. */
  lemma WordDigits(x: nat, q: nat, r: nat)
    requires x == q * U32 + r && r < U32
    ensures r % 256 == x % 256 && r / 0x100 % 256 == x / 0x100 % 256
    ensures r / 0x1_0000 % 256 == x / 0x1_0000 % 256 && r / 0x100_0000 % 256 == x / 0x100_0000 % 256
  {
    WordDigit0(x, q, r);
    WordDigit1(x, q, r);
    WordDigit2(x, q, r);
    WordDigit3(x, q, r);
  }

  lemma WordDigit0(x: nat, q: nat, r: nat)
    requires x == q * U32 + r && r < U32
    ensures r % 256 == x % 256
  {
    assert x == 256 * (q * 0x100_0000) + r;
  }

  lemma WordDigit1(x: nat, q: nat, r: nat)
    requires x == q * U32 + r && r < U32
    ensures r / 0x100 % 256 == x / 0x100 % 256
  {
    assert x / 0x100 == q * 0x100_0000 + r / 0x100;
  }

  lemma WordDigit2(x: nat, q: nat, r: nat)
    requires x == q * U32 + r && r < U32
    ensures r / 0x1_0000 % 256 == x / 0x1_0000 % 256
  {
    assert x / 0x1_0000 == q * 0x1_0000 + r / 0x1_0000;
  }

  lemma WordDigit3(x: nat, q: nat, r: nat)
    requires x == q * U32 + r && r < U32
    ensures r / 0x100_0000 % 256 == x / 0x100_0000 % 256
  {
    assert x / 0x100_0000 == q * 0x100 + r / 0x100_0000;
  }

  lemma LengthBytesAre(n: nat)
    ensures var x := 8 * n;
            LengthBytes(n) == [x % 256, x / 0x100 % 256, x / 0x1_0000 % 256, x / 0x100_0000 % 256,
                               x / 0x1_0000_0000 % 256, x / 0x100_0000_0000 % 256,
                               x / 0x1_0000_0000_0000 % 256, x / 0x100_0000_0000_0000 % 256]
  {
    var x := 8 * n;
    var q, r := x / U64, x % U64;
    LowDigits(x, q, r);
    HighDigits(x, q, r);
    assert AllBytes([r % U32, r / U32]) == WordBytes(r % U32) + WordBytes(r / U32) by {
      assert [r % U32, r / U32][1..] == [r / U32];
      assert AllBytes([r / U32]) == WordBytes(r / U32);
    }
  }

  /** The padded message is whole blocks: the message, a one bit, zero bits up to 448 modulo 512,
      and its length in bits, lowest byte first. */
  lemma PaddedWhole(m: bytes)
    ensures |Padded(m)| % 64 == 0 && |m| + 9 <= |Padded(m)| <= |m| + 72
    ensures m <= Padded(m) && Padded(m)[|m|] == 0x80
    ensures forall i :: |m| < i < |Padded(m)| - 8 ==> Padded(m)[i] == 0
    ensures var x := 8 * |m|;
            Padded(m)[|Padded(m)| - 8..] ==
              [x % 256, x / 0x100 % 256, x / 0x1_0000 % 256, x / 0x100_0000 % 256,
               x / 0x1_0000_0000 % 256, x / 0x100_0000_0000 % 256,
               x / 0x1_0000_0000_0000 % 256, x / 0x100_0000_0000_0000 % 256]
  {
    hide PadLen, LengthBytes;
    PadFits(|m|);
    LengthBytesAre(|m|);
  }

  /** The digest of a message as the standard defines it. */
  function Digest(f: Compress, m: bytes): bytes {
    var w := Fold(f, INITIAL, Padded(m));
    AllBytes([w.a, w.b, w.c, w.d])
  }

  /** The blocks of a padded message and the states between them: the chain starts with the words of
      section 3.3, every state is the compression of the one before with the next block, and the
      digest is the last one, word by word, lowest byte first. */
  lemma DigestChain(f: Compress, m: bytes) returns (states: seq<Words>)
    ensures 64 * (|states| - 1) == |Padded(m)| && |states| > 1
    ensures states[0] == Words(0x6745_2301, 0xefcd_ab89, 0x98ba_dcfe, 0x1032_5476)
    ensures forall i :: 0 <= i < |states| - 1 ==> states[i + 1] == f(states[i], Padded(m)[64 * i..64 * i + 64])
    ensures var w := states[|states| - 1];
            Digest(f, m) == WordBytes(w.a) + WordBytes(w.b) + WordBytes(w.c) + WordBytes(w.d)
  {
    hide Padded, WordBytes;
    PaddedWhole(m);
    states := FoldChain(f, INITIAL, Padded(m));
    FourWords(states[|states| - 1]);
  }

  lemma BytesFrom(ws: seq<u32>, i: nat)
    requires i <= |ws|
    ensures AllBytes(ws[i..]) == if i == |ws| then [] else WordBytes(ws[i]) + AllBytes(ws[i + 1..])
    ensures ws[0..] == ws
  {
    hide WordBytes;
    if i < |ws| {
      assert ws[i..][1..] == ws[i + 1..];
    }
  }

  lemma FourWords(w: Words)
    ensures AllBytes([w.a, w.b, w.c, w.d]) == WordBytes(w.a) + WordBytes(w.b) + WordBytes(w.c) + WordBytes(w.d)
  {
    hide WordBytes, AllBytes;
    BytesFrom([w.a, w.b, w.c, w.d], 0);
    BytesFrom([w.a, w.b, w.c, w.d], 1);
    BytesFrom([w.a, w.b, w.c, w.d], 2);
    BytesFrom([w.a, w.b, w.c, w.d], 3);
    BytesFrom([w.a, w.b, w.c, w.d], 4);
  }

  lemma {:induction false} FoldChain(f: Compress, s: Words, m: bytes) returns (states: seq<Words>)
    requires |m| % 64 == 0
    ensures 64 * (|states| - 1) == |m| && states[0] == s && states[|states| - 1] == Fold(f, s, m)
    ensures forall i :: 0 <= i < |states| - 1 ==> states[i + 1] == f(states[i], m[64 * i..64 * i + 64])
    decreases |m|
  {
    if m == [] {
      states := [s];
    } else {
      var rest := FoldChain(f, f(s, m[..64]), m[64..]);
      states := [s] + rest;
      forall i | 0 <= i < |states| - 1 ensures states[i + 1] == f(states[i], m[64 * i..64 * i + 64]) {
        if i > 0 {
          ShiftBlock(m, i);
          assert rest[i] == f(rest[i - 1], m[64..][64 * (i - 1)..64 * (i - 1) + 64]);
        }
      }
    }
  }

  lemma ShiftBlock(m: bytes, i: nat)
    requires i > 0 && 64 * i + 64 <= |m|
    ensures m[64..][64 * (i - 1)..64 * (i - 1) + 64] == m[64 * i..64 * i + 64]
  {
  }

  /** With a compression that changes nothing, every digest is the bytes that section 3.3 lists. */
  lemma DigestStart(f: Compress, m: bytes)
    requires forall w, b :: f(w, b) == w
    ensures Digest(f, m) == [0x01, 0x23, 0x45, 0x67, 0x89, 0xab, 0xcd, 0xef,
                             0xfe, 0xdc, 0xba, 0x98, 0x76, 0x54, 0x32, 0x10]
  {
    hide Digest, Padded, WordBytes;
    var states := DigestChain(f, m);
    Unchanged(states);
    StartBytes();
  }

  lemma StartBytes()
    ensures WordBytes(0x6745_2301) == [0x01, 0x23, 0x45, 0x67] && WordBytes(0xefcd_ab89) == [0x89, 0xab, 0xcd, 0xef]
    ensures WordBytes(0x98ba_dcfe) == [0xfe, 0xdc, 0xba, 0x98] && WordBytes(0x1032_5476) == [0x76, 0x54, 0x32, 0x10]
  {
  }

  lemma {:induction false} Unchanged(states: seq<Words>)
    requires states != [] && forall i :: 0 <= i < |states| - 1 ==> states[i + 1] == states[i]
    ensures states[|states| - 1] == states[0]
    decreases |states|
  {
    if |states| > 1 {
      Unchanged(states[1..]);
    }
  }

  // ---------- the loop guard ----------

  /** `i + 63 < inputLen` in 32-bit arithmetic. */
  predicate MoreBlocks(i: u32, len: u32) {
    (i + 63) % U32 < len
  }

  /** Where the loop is after `n` turns. */
  function Turn(idx: nat, n: nat): u32
    requires idx < 64
  {
    (64 - idx + 64 * n) % U32
  }

  /** The loop over whole blocks ends if and only if the bytes waiting in the buffer and the new
      ones together are fewer than 2^32; otherwise the guard wraps around and holds for ever. */
  lemma LoopEndsIff(idx: nat, len: u32)
    requires idx < 64 && len >= 64 - idx
    ensures (exists n: nat :: !MoreBlocks(Turn(idx, n), len)) <==> idx + len < U32
  {
    if idx + len < U32 {
      var n: nat := (len + idx) / 64 - 1;
      assert Turn(idx, n) == 64 - idx + 64 * n;
      assert !MoreBlocks(Turn(idx, n), len);
    } else {
      forall n: nat
        ensures MoreBlocks(Turn(idx, n), len)
      {
        NeverEnds(idx, len, n);
      }
    }
  }

  lemma NeverEnds(idx: nat, len: u32, n: nat)
    requires idx < 64 && idx + len >= U32
    ensures MoreBlocks(Turn(idx, n), len)
  {
    var k := n % 0x400_0000;
    assert 64 * n == U32 * (n / 0x400_0000) + 64 * k;
    assert Turn(idx, n) == (64 - idx + 64 * k) % U32;
    assert 0 <= 64 - idx + 64 * k <= U32;
  }

  /** One byte in the buffer and an update of 2^32 - 1 bytes is such a case. */
  lemma LongUpdateNeverEnds(n: nat)
    ensures MoreBlocks(Turn(1, n), 0xFFFF_FFFF)
  {
    NeverEnds(1, 0xFFFF_FFFF, n);
  }

  // ---------- the counter ----------

  /** Two 32-bit words that hold 8 * n modulo 2^64. */
  predicate Counts(low: u32, high: u32, n: nat) {
    low + U32 * high == 8 * n % U64
  }

  function Shifted(len: u32): u32 {
    8 * len % U32
  }

  /** The low word after adding, the carry out of it, and the high word. */
  function LowSum(low: u32, len: u32): u32 {
    (low + Shifted(len)) % U32
  }

  function Carry(low: u32, len: u32): nat {
    if LowSum(low, len) < Shifted(len) then 1 else 0
  }

  function HighSum(low: u32, high: u32, len: u32): u32 {
    ((high + Carry(low, len)) % U32 + len / 0x2000_0000) % U32
  }

  /** The comparison finds exactly the carry. */
  lemma CarryIs(low: u32, len: u32)
    ensures low + Shifted(len) == LowSum(low, len) + U32 * Carry(low, len)
    ensures 8 * len == Shifted(len) + U32 * (len / 0x2000_0000)
  {
  }

  lemma HighIs(low: u32, high: u32, len: u32) returns (q: nat)
    ensures high + Carry(low, len) + len / 0x2000_0000 == HighSum(low, high, len) + U32 * q
  {
    hide Carry;
    q := (high + Carry(low, len)) / U32 + ((high + Carry(low, len)) % U32 + len / 0x2000_0000) / U32;
  }

  /** The carry test and the shifts add 8 * len. */
  lemma CountAdds(low: u32, high: u32, n: nat, len: u32)
    requires Counts(low, high, n)
    ensures Counts(LowSum(low, len), HighSum(low, high, len), n + len)
  {
    hide LowSum, HighSum, Carry, Shifted;
    CarryIs(low, len);
    var q := HighIs(low, high, len);
    var v := LowSum(low, len) + U32 * HighSum(low, high, len);
    var r := 8 * n / U64;
    assert 8 * (n + len) == v + U64 * (q + r);
    Remainder(v, q + r);
  }

  lemma Remainder(v: nat, k: nat)
    requires v < U64
    ensures (v + U64 * k) % U64 == v
  {
  }

  /** The number of bytes modulo 64 can be read off the low word. */
  lemma IndexIs(low: u32, high: u32, n: nat)
    requires Counts(low, high, n)
    ensures low / 8 % 64 == n % 64
  {
    var r := 8 * n / U64;
    assert 8 * n == low + U32 * (high + U32 * r);
    LowEighth(low, high + U32 * r, n);
    LowIndex(low / 8, high + U32 * r, n);
  }

  lemma LowEighth(low: u32, k: nat, n: nat)
    requires 8 * n == low + U32 * k
    ensures n == low / 8 + 0x2000_0000 * k
  {
  }

  lemma LowIndex(e: nat, k: nat, n: nat)
    requires n == e + 0x2000_0000 * k
    ensures e % 64 == n % 64
  {
    assert n == e + 64 * (0x80_0000 * k);
    ModAdds(e, 0x80_0000 * k);
  }

  lemma ModAdds(e: nat, k: nat)
    ensures (e + 64 * k) % 64 == e % 64
  {
  }

  // ---------- the context ----------

  class Context {
    const compress: Compress
    var state: Words
    var count0: u32
    var count1: u32
    const buffer: array<byte>

    /** The context has absorbed the message `m`, no more and no less. */
    ghost predicate Absorbed(m: bytes)
      reads this, buffer
    {
      && buffer.Length == 64
      && Counts(count0, count1, |m|)
      && state == Fold(compress, INITIAL, m)
      && buffer[..|m| % 64] == Tail(m)
    }

    /** MD5Init. */
    constructor (f: Compress)
      ensures compress == f && fresh(buffer) && Absorbed([])
    {
      compress := f;
      state, count0, count1 := INITIAL, 0, 0;
      buffer := new byte[64];
    }

    method Count(len: u32)
      modifies `count0, `count1
      ensures count0 == LowSum(old(count0), len) && count1 == HighSum(old(count0), old(count1), len)
    {
      var shifted := Shifted(len);
      count0 := (count0 + shifted) % U32;
      if count0 < shifted {
        count1 := (count1 + 1) % U32;
      }
      count1 := (count1 + len / 0x2000_0000) % U32;
    }

    method Copy(idx: nat, input: bytes)
      requires buffer.Length == 64 && idx + |input| <= 64
      modifies buffer
      ensures buffer[..idx] == old(buffer[..idx]) && buffer[idx..idx + |input|] == input
    {
      forall k | 0 <= k < |input| {
        buffer[idx + k] := input[k];
      }
    }

    /** MD5Update. Either the input is absorbed, or the guard of the loop over whole blocks holds
        at every turn; then the model stops where the loop would not. */
    method Update(ghost m: bytes, input: bytes) returns (ends: bool)
      requires Absorbed(m) && |input| < U32
      modifies this, buffer
      ensures ends == (|m| % 64 + |input| < U32)
      ensures ends ==> Absorbed(m + input)
      ensures !ends ==> forall n: nat :: MoreBlocks(Turn(|m| % 64, n), |input|)
    {
      hide Fold, Counts, LowSum, HighSum, Tail, Head, Turn, MoreBlocks;
      IndexIs(count0, count1, |m|);
      var idx := count0 / 8 % 64;
      ends := idx + |input| < U32;
      if ends {
        Absorb(m, idx, input);
      } else {
        forall n: nat ensures MoreBlocks(Turn(|m| % 64, n), |input|) {
          NeverEnds(|m| % 64, |input|, n);
        }
      }
    }

    /** The update of an input for which the loop ends. */
    method Absorb(ghost m: bytes, index: nat, input: bytes)
      requires Absorbed(m) && |input| < U32 && index == |m| % 64 && index + |input| < U32
      modifies this, buffer
      ensures Absorbed(m + input)
    {
      hide Fold, Counts, LowSum, HighSum, Tail, Head;
      CountAdds(count0, count1, |m|, |input|);
      var idx := index;
      Count(|input|);
      var partLen := 64 - idx;
      var i := 0;
      if |input| >= partLen {
        i := Blocks(m, idx, input);
        idx := 0;
        Copy(idx, input[i..]);
        TailAfter(compress, m, input, i);
      } else {
        Copy(idx, input);
        TailGrows(m, input);
        FoldGrows(compress, m, input);
        assert buffer[..idx + |input|] == buffer[..idx] + buffer[idx..idx + |input|];
      }
    }

    /** Completes the block in the buffer, then takes whole blocks from the input. */
    method Blocks(ghost m: bytes, idx: nat, input: bytes) returns (i: nat)
      requires buffer.Length == 64 && state == Fold(compress, INITIAL, m)
      requires idx == |m| % 64 && buffer[..idx] == Tail(m)
      requires 64 - idx <= |input| < U32 - idx
      modifies `state, buffer
      ensures i <= |input| < i + 64 && (|m| + i) % 64 == 0
      ensures state == Fold(compress, INITIAL, m + input[..i])
    {
      hide Fold, Tail, Head;
      i := 64 - idx;
      Copy(idx, input[..i]);
      assert buffer[..] == buffer[..idx] + buffer[idx..idx + i];
      BlockCompletes(compress, m, input[..i]);
      Aligned(|m|, i);
      state := compress(state, buffer[..]);
      i := MoreOfThem(m, idx, input);
    }

    /** The loop over the blocks that lie wholly in the input. */
    method MoreOfThem(ghost m: bytes, idx: nat, input: bytes) returns (i: nat)
      requires idx == |m| % 64 && 64 - idx <= |input| < U32 - idx
      requires state == Fold(compress, INITIAL, m + input[..64 - idx])
      modifies `state
      ensures i <= |input| < i + 64 && (|m| + i) % 64 == 0
      ensures state == Fold(compress, INITIAL, m + input[..i])
    {
      hide Fold, Tail, Head;
      i := 64 - idx;
      ghost var turns := 1;
      ghost var before := |m| / 64;
      while MoreBlocks(i, |input|)
        modifies `state
        invariant i <= |input| && idx + i == 64 * turns
        invariant state == Fold(compress, INITIAL, m + input[..i])
        decreases |input| - i
      {
        GuardExact(idx, i, |input|, turns);
        Multiple(|m|, i, before + turns);
        NextBlock(compress, m, input, i);
        state := compress(state, input[i..i + 64]);
        i := i + 64;
        turns := turns + 1;
      }
      GuardExact(idx, i, |input|, turns);
      Multiple(|m|, i, before + turns);
    }

    /** MD5Final: the digest of all that was absorbed, as the standard defines it. */
    method Final(ghost m: bytes) returns (digest: bytes)
      requires Absorbed(m)
      modifies this, buffer
      ensures digest == Digest(compress, m)
      ensures state == Words(0, 0, 0, 0) && count0 == count1 == 0 && buffer[..] == Zeros(64)
    {
      hide Fold, Counts, Tail, Head;
      LowHigh(count0, count1, |m|);
      var length := Encode([count0, count1]);
      IndexIs(count0, count1, |m|);
      var idx := count0 / 8 % 64;
      var padLen := if idx < 56 then 56 - idx else 120 - idx;
      assert padLen == PadLen(|m|);
      var padded := Update(m, Padding(padLen));
      var counted := Update(m + Padding(padLen), length);
      digest := Encode([state.a, state.b, state.c, state.d]);
      Zeroize();
    }

    /** Wipes the context. */
    method Zeroize()
      requires buffer.Length == 64
      modifies this, buffer
      ensures state == Words(0, 0, 0, 0) && count0 == count1 == 0 && buffer[..] == Zeros(64)
    {
      state, count0, count1 := Words(0, 0, 0, 0), 0, 0;
      forall i | 0 <= i < 64 {
        buffer[i] := 0;
      }
    }
  }

  lemma LowHigh(low: u32, high: u32, n: nat)
    requires Counts(low, high, n)
    ensures LengthBytes(n) == AllBytes([low, high])
  {
    var bits := 8 * n % U64;
    assert bits % U32 == low && bits / U32 == high;
  }

  /** The bytes that waited and the first new ones make a block. */
  lemma BlockCompletes(f: Compress, m: bytes, first: bytes)
    requires |m| % 64 + |first| == 64
    ensures f(Fold(f, INITIAL, m), Tail(m) + first) == Fold(f, INITIAL, m + first)
  {
    hide Fold, Head, Tail;
    HeadTail(m);
    CompletesAfter(f, Head(m), Tail(m), first);
    assert m + first == Head(m) + Tail(m) + first;
  }

  lemma HeadTail(m: bytes)
    ensures m == Head(m) + Tail(m) && |Head(m)| % 64 == 0 && |Tail(m)| == |m| % 64
  {
  }

  predicate WholeBlocks(h: bytes) {
    |h| % 64 == 0
  }

  lemma FoldBoth(f: Compress, h: bytes, t: bytes, block: bytes)
    requires WholeBlocks(h) && |t| < 64 && |block| == 64
    ensures Fold(f, INITIAL, h + t) == Fold(f, INITIAL, h)
    ensures Fold(f, INITIAL, h + block) == f(Fold(f, INITIAL, h), block)
  {
    hide Fold;
    FoldPart(f, INITIAL, h, t);
    FoldBlock(f, INITIAL, h, block);
  }

  lemma CompletesAfter(f: Compress, h: bytes, t: bytes, first: bytes)
    requires WholeBlocks(h) && |t| < 64 && |t| + |first| == 64
    ensures f(Fold(f, INITIAL, h + t), t + first) == Fold(f, INITIAL, h + t + first)
  {
    hide Fold, WholeBlocks;
    FoldBoth(f, h, t, t + first);
    assert h + t + first == h + (t + first);
  }

  lemma Aligned(n: nat, k: nat)
    requires n % 64 + k == 64
    ensures (n + k) % 64 == 0
  {
  }

  lemma NextBlock(f: Compress, m: bytes, input: bytes, i: nat)
    requires i + 64 <= |input| && (|m| + i) % 64 == 0
    ensures f(Fold(f, INITIAL, m + input[..i]), input[i..i + 64]) == Fold(f, INITIAL, m + input[..i + 64])
  {
    hide Fold;
    FoldBlock(f, INITIAL, m + input[..i], input[i..i + 64]);
    assert m + input[..i + 64] == m + input[..i] + input[i..i + 64];
  }

  /** A message is cut in one way only into whole blocks and less than a block. */
  lemma CutUnique(a: bytes, b: bytes)
    requires |a| % 64 == 0 && |b| < 64
    ensures |a + b| % 64 == |b| && Tail(a + b) == b
  {
    assert |a + b| == |a| + |b|;
  }

  lemma TailAfter(f: Compress, m: bytes, input: bytes, i: nat)
    requires i <= |input| < i + 64 && (|m| + i) % 64 == 0
    ensures |m + input| % 64 == |input| - i && Tail(m + input) == input[i..]
    ensures Fold(f, INITIAL, m + input) == Fold(f, INITIAL, m + input[..i])
  {
    hide Fold, Head, Tail;
    CutUnique(m + input[..i], input[i..]);
    FoldPart(f, INITIAL, m + input[..i], input[i..]);
    assert m + input == m + input[..i] + input[i..];
  }

  lemma TailGrows(m: bytes, input: bytes)
    requires |m| % 64 + |input| < 64
    ensures |m + input| % 64 == |m| % 64 + |input| && Tail(m + input) == Tail(m) + input
  {
    hide Head, Tail;
    assert m + input == Head(m) + (Tail(m) + input);
    CutUnique(Head(m), Tail(m) + input);
  }

  lemma FoldGrows(f: Compress, m: bytes, input: bytes)
    requires |m| % 64 + |input| < 64
    ensures Fold(f, INITIAL, m + input) == Fold(f, INITIAL, m)
  {
    hide Fold, Head, Tail;
    FoldPart(f, INITIAL, Head(m), Tail(m));
    FoldPart(f, INITIAL, Head(m), Tail(m) + input);
    assert m + input == Head(m) + (Tail(m) + input);
  }

  /** Below 2^32 bytes in all, the 32-bit guard says what it means. */
  lemma GuardExact(idx: nat, i: nat, len: nat, turns: nat)
    requires idx < 64 && i <= len && idx + len < U32 && idx + i == 64 * turns
    ensures MoreBlocks(i, len) <==> i + 63 < len
  {
    assert turns < 0x400_0000;
  }

  lemma Multiple(n: nat, i: nat, k: nat)
    requires n + i == 64 * k
    ensures (n + i) % 64 == 0
  {
  }

  /** md5_signature: one update on a fresh context, so every key length of 32 bits is fine. */
  method Signature(f: Compress, key: bytes) returns (result: bytes)
    requires |key| < U32
    ensures result == Digest(f, key)
  {
    var ctx := new Context(f);
    var ends := ctx.Update([], key);
    assert [] + key == key;
    result := ctx.Final(key);
  }

  lemma ConcatNone(pieces: seq<bytes>)
    ensures Concat(pieces[|pieces|..]) == []
  {
  }

  lemma ConcatFrom(pieces: seq<bytes>, i: nat)
    requires i < |pieces|
    ensures Concat(pieces[i..]) == pieces[i] + Concat(pieces[i + 1..])
  {
    assert pieces[i..][1..] == pieces[i + 1..];
  }

  /** Every update of a stream of pieces ends, `n` bytes being absorbed already. */
  predicate AllEnd(n: nat, pieces: seq<bytes>)
    decreases |pieces|
  {
    pieces == [] || (n % 64 + |pieces[0]| < U32 && AllEnd(n + |pieces[0]|, pieces[1..]))
  }

  lemma EndFrom(n: nat, pieces: seq<bytes>, i: nat)
    requires i < |pieces|
    ensures AllEnd(n, pieces[i..]) <==> n % 64 + |pieces[i]| < U32 && AllEnd(n + |pieces[i]|, pieces[i + 1..])
  {
    assert pieces[i..][1..] == pieces[i + 1..];
  }

  lemma EndNone(n: nat, pieces: seq<bytes>)
    ensures AllEnd(n, pieces[|pieces|..])
  {
  }

  /** A message that arrives in pieces: if and only if every update ends there is a digest, and it
      is that of the concatenation. */
  method Stream(f: Compress, pieces: seq<bytes>) returns (result: Option<bytes>)
    requires forall i :: 0 <= i < |pieces| ==> |pieces[i]| < U32
    ensures result == if AllEnd(0, pieces) then Some(Digest(f, Concat(pieces))) else None
  {
    hide Fold, Digest, Counts, Tail, Head, Concat, AllEnd, Turn, MoreBlocks;
    ConcatNone(pieces);
    var ctx := new Context(f);
    ghost var m: bytes := [];
    var i := 0;
    assert pieces[0..] == pieces;
    while i < |pieces|
      invariant i <= |pieces| && ctx.compress == f && fresh(ctx) && fresh(ctx.buffer) && ctx.Absorbed(m)
      invariant m + Concat(pieces[i..]) == Concat(pieces) && AllEnd(|m|, pieces[i..]) == AllEnd(0, pieces)
    {
      ConcatFrom(pieces, i);
      EndFrom(|m|, pieces, i);
      assert m + (pieces[i] + Concat(pieces[i + 1..])) == m + pieces[i] + Concat(pieces[i + 1..]);
      var ends := ctx.Update(m, pieces[i]);
      if !ends {
        return None;
      }
      m := m + pieces[i];
      i := i + 1;
    }
    assert m + [] == m;
    EndNone(|m|, pieces);
    var digest := ctx.Final(m);
    result := Some(digest);
  }
}
