/** Bytes, byte strings and the few character codes the parsers branch on. */
module Bytes {
  type byte = b: int | 0 <= b < 256

  type bytes = seq<byte>

  datatype Option<+T> = None | Some(value: T)

  const U32: int := 0x1_0000_0000
  const U64: int := 0x1_0000_0000_0000_0000

  type u32 = x: int | 0 <= x < 0x1_0000_0000
  type u64 = x: int | 0 <= x < 0x1_0000_0000_0000_0000

  function Min(a: nat, b: nat): nat {
    if a < b then a else b
  }

  function Concat(pieces: seq<bytes>): bytes {
    if pieces == [] then [] else pieces[0] + Concat(pieces[1..])
  }

  /** A 32-bit word in memory, lowest byte first. */
  function WordBytes(x: u32): (s: bytes)
    ensures |s| == 4
  {
    [x % 256, x / 0x100 % 256, x / 0x1_0000 % 256, x / 0x100_0000 % 256]
  }

  function BytesWord(s: bytes): u32
    requires |s| == 4
  {
    s[0] as int + s[1] as int * 0x100 + s[2] as int * 0x1_0000 + s[3] as int * 0x100_0000
  }

  lemma WordRoundTrip(x: u32)
    ensures BytesWord(WordBytes(x)) == x
  {
    var h := x / 0x100;
    assert x == x % 256 + 0x100 * h;
    var k := h / 0x100;
    assert h == h % 256 + 0x100 * k && x / 0x1_0000 == k;
    var l := k / 0x100;
    assert k == k % 256 + 0x100 * l && x / 0x100_0000 == l && l < 256;
  }

  const NUL: byte := 0
  const TAB: byte := 9
  const LF: byte := 10
  const CR: byte := 13
  const SPACE: byte := 32
  const QUOTE: byte := 34
  const PLUS: byte := 43
  const COMMA: byte := 44
  const MINUS: byte := 45
  const DOT: byte := 46
  const DIGIT0: byte := 48
  const DIGIT9: byte := 57
  const COLON: byte := 58
  const UPPER_E: byte := 69
  const LBRACKET: byte := 91
  const BACKSLASH: byte := 92
  const RBRACKET: byte := 93
  const LOWER_E: byte := 101
  const LOWER_F: byte := 102
  const LOWER_N: byte := 110
  const LOWER_T: byte := 116
  const LOWER_U: byte := 117
  const LBRACE: byte := 123
  const RBRACE: byte := 125

  /** What a NUL-terminated stream shows at position `p`: the byte there, or the terminator. */
  function Peek(t: bytes, p: nat): byte {
    if p < |t| then t[p] else NUL
  }

  predicate IsDigit(b: byte) {
    DIGIT0 <= b <= DIGIT9
  }

  predicate IsSpace(b: byte) {
    b == SPACE || b == LF || b == CR || b == TAB
  }

  /** The bytes that the readers take for white space and for digits. */
  lemma ByteClasses(b: byte)
    ensures IsSpace(b) <==> b in {' ' as int, '\t' as int, '\n' as int, '\r' as int}
    ensures IsDigit(b) <==> '0' as int <= b <= '9' as int
  {
  }

  /** The first position at or after `p` that does not hold white space. */
  function SkipSpace(t: bytes, p: nat): (q: nat)
    requires p <= |t|
    ensures p <= q <= |t|
    ensures !IsSpace(Peek(t, q))
    ensures forall i :: p <= i < q ==> IsSpace(t[i])
    decreases |t| - p
  {
    if IsSpace(Peek(t, p)) then SkipSpace(t, p + 1) else p
  }

  lemma {:induction false} SkipSpaceUnique(t: bytes, p: nat, q: nat)
    requires p <= q <= |t|
    requires !IsSpace(Peek(t, q))
    requires forall i :: p <= i < q ==> IsSpace(t[i])
    ensures SkipSpace(t, p) == q
    decreases q - p
  {
    if p < q {
      assert IsSpace(t[p]);
      SkipSpaceUnique(t, p + 1, q);
    }
  }

  lemma SkipSpaceIdem(t: bytes, p: nat)
    requires p <= |t|
    ensures SkipSpace(t, SkipSpace(t, p)) == SkipSpace(t, p)
  {
  }
}
