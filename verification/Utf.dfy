/** UTF-8 and UTF-16 as rapidjson's encodings.h reads and writes them.
    Shifts and ors of disjoint bit fields are written as multiplication and addition. */
module Utf {
  import opened Bytes

  type u16 = x: int | 0 <= x < 0x1_0000

  /** Unicode scalar values: code points that are not surrogates. */
  predicate IsScalar(c: int) {
    0 <= c <= 0xD7FF || 0xE000 <= c <= 0x10FFFF
  }

  type scalar = c: int | IsScalar(c)

  // ---------- UTF-8 ----------

  function Encode8(c: nat): (s: bytes)
    requires c <= 0x10FFFF
    ensures 1 <= |s| <= 4
  {
    if c <= 0x7F then [c]
    else if c <= 0x7FF then [0xC0 + c / 64, 0x80 + c % 64]
    else if c <= 0xFFFF then [0xE0 + c / 4096, 0x80 + c / 64 % 64, 0x80 + c % 64]
    else [0xF0 + c / 262144, 0x80 + c / 4096 % 64, 0x80 + c / 64 % 64, 0x80 + c % 64]
  }

  /** The class of a byte: a lead kind, or one of the three continuation ranges as a single bit. */
  function GetRange(b: byte): bv8 {
    if b <= 0x7F then 0
    else if b <= 0x8F then 0x10
    else if b <= 0x9F then 0x40
    else if b <= 0xBF then 0x20
    else if b <= 0xC1 then 8
    else if b <= 0xDF then 2
    else if b == 0xE0 then 10
    else if b <= 0xEC then 3
    else if b == 0xED then 4
    else if b <= 0xEF then 3
    else if b == 0xF0 then 11
    else if b <= 0xF3 then 6
    else if b == 0xF4 then 5
    else 8
  }

  /** Progress of a decoder: still acceptable, bits so far, next position. */
  datatype Dec = Dec(ok: bool, code: nat, next: nat)

  /** Takes one continuation byte and checks its class against `mask`. */
  function Follow(t: bytes, d: Dec, mask: bv8): (r: Dec) {
    var b := Peek(t, d.next);
    Dec(d.ok && (GetRange(b) & mask) != 0, d.code * 64 + b % 64, d.next + 1)
  }

  function Decode8(t: bytes, p: nat): (r: Dec) {
    var b := Peek(t, p);
    if b < 0x80 then Dec(true, b, p + 1)
    else
      match GetRange(b)
      case 2 => Follow(t, Dec(true, b % 64, p + 1), 0x70)
      case 3 => Follow(t, Follow(t, Dec(true, b % 32, p + 1), 0x70), 0x70)
      case 4 => Follow(t, Follow(t, Dec(true, b % 16, p + 1), 0x50), 0x70)
      case 5 => Follow(t, Follow(t, Follow(t, Dec(true, b % 8, p + 1), 0x10), 0x70), 0x70)
      case 6 => Follow(t, Follow(t, Follow(t, Dec(true, b % 4, p + 1), 0x70), 0x70), 0x70)
      case 10 => Follow(t, Follow(t, Dec(true, 0, p + 1), 0x20), 0x70)
      case 11 => Follow(t, Follow(t, Follow(t, Dec(true, 0, p + 1), 0x60), 0x70), 0x70)
      case _ => Dec(false, 0, p + 1)
  }

  /** Progress of the validator: still acceptable, bytes copied, next position. */
  datatype Val = Val(ok: bool, out: bytes, next: nat)

  function Copy(t: bytes, v: Val, mask: bv8): Val {
    var b := Peek(t, v.next);
    Val(v.ok && (GetRange(b) & mask) != 0, v.out + [b], v.next + 1)
  }

  function Validate8(t: bytes, p: nat): (r: Val) {
    var b := Peek(t, p);
    var v := Val(true, [b], p + 1);
    if b < 0x80 then v
    else
      match GetRange(b)
      case 2 => Copy(t, v, 0x70)
      case 3 => Copy(t, Copy(t, v, 0x70), 0x70)
      case 4 => Copy(t, Copy(t, v, 0x50), 0x70)
      case 5 => Copy(t, Copy(t, Copy(t, v, 0x10), 0x70), 0x70)
      case 6 => Copy(t, Copy(t, Copy(t, v, 0x70), 0x70), 0x70)
      case 10 => Copy(t, Copy(t, v, 0x20), 0x70)
      case 11 => Copy(t, Copy(t, Copy(t, v, 0x60), 0x70), 0x70)
      case _ => Val(false, v.out, v.next)
  }

  // ---------- RFC 3629, section 4 ----------

  predicate Utf8Tail(b: byte) {
    0x80 <= b <= 0xBF
  }

  /** The ABNF production UTF8-char of RFC 3629, section 4. */
  predicate Utf8Char(s: bytes) {
    || (|s| == 1 && s[0] <= 0x7F)
    || (|s| == 2 && 0xC2 <= s[0] <= 0xDF && Utf8Tail(s[1]))
    || (|s| == 3 && Utf8Tail(s[2]) &&
        (|| (s[0] == 0xE0 && 0xA0 <= s[1] <= 0xBF)
         || (0xE1 <= s[0] <= 0xEC && Utf8Tail(s[1]))
         || (s[0] == 0xED && 0x80 <= s[1] <= 0x9F)
         || (0xEE <= s[0] <= 0xEF && Utf8Tail(s[1]))))
    || (|s| == 4 && Utf8Tail(s[2]) && Utf8Tail(s[3]) &&
        (|| (s[0] == 0xF0 && 0x90 <= s[1] <= 0xBF)
         || (0xF1 <= s[0] <= 0xF3 && Utf8Tail(s[1]))
         || (s[0] == 0xF4 && 0x80 <= s[1] <= 0x8F)))
  }

  lemma MaskBits(b: byte)
    ensures (GetRange(b) & 0x70) != 0 <==> Utf8Tail(b)
    ensures (GetRange(b) & 0x50) != 0 <==> 0x80 <= b <= 0x9F
    ensures (GetRange(b) & 0x10) != 0 <==> 0x80 <= b <= 0x8F
    ensures (GetRange(b) & 0x20) != 0 <==> 0xA0 <= b <= 0xBF
    ensures (GetRange(b) & 0x60) != 0 <==> 0x90 <= b <= 0xBF
  {
  }

  /** How many bytes the lead byte announces; 0 for a byte that cannot lead. */
  function LeadLength(b: byte): nat {
    if b <= 0x7F then 1
    else if 0xC2 <= b <= 0xDF then 2
    else if 0xE0 <= b <= 0xEF then 3
    else if 0xF0 <= b <= 0xF4 then 4
    else 0
  }

  /** The second bytes that RFC 3629 allows after a lead byte. */
  predicate SecondOk(lead: byte, b: byte) {
    if lead == 0xE0 then 0xA0 <= b <= 0xBF
    else if lead == 0xED then 0x80 <= b <= 0x9F
    else if lead == 0xF0 then 0x90 <= b <= 0xBF
    else if lead == 0xF4 then 0x80 <= b <= 0x8F
    else Utf8Tail(b)
  }

  lemma Decode8Three(t: bytes, p: nat)
    requires LeadLength(Peek(t, p)) == 3
    ensures Decode8(t, p).next == p + 3
    ensures Decode8(t, p).ok <==> SecondOk(Peek(t, p), Peek(t, p + 1)) && Utf8Tail(Peek(t, p + 2))
  {
    MaskBits(Peek(t, p + 1));
    MaskBits(Peek(t, p + 2));
  }

  lemma Decode8Four(t: bytes, p: nat)
    requires LeadLength(Peek(t, p)) == 4
    ensures Decode8(t, p).next == p + 4
    ensures Decode8(t, p).ok <==>
            SecondOk(Peek(t, p), Peek(t, p + 1)) && Utf8Tail(Peek(t, p + 2)) && Utf8Tail(Peek(t, p + 3))
  {
    MaskBits(Peek(t, p + 1));
    MaskBits(Peek(t, p + 2));
    MaskBits(Peek(t, p + 3));
  }

  lemma Decode8Lead(t: bytes, p: nat)
    ensures var n := LeadLength(Peek(t, p));
            && (n == 0 ==> !Decode8(t, p).ok)
            && (n > 0 ==> Decode8(t, p).next == p + n)
            && (n == 1 ==> Decode8(t, p).ok)
            && (n == 2 ==> (Decode8(t, p).ok <==> Utf8Tail(Peek(t, p + 1))))
  {
    MaskBits(Peek(t, p + 1));
    if LeadLength(Peek(t, p)) == 3 {
      Decode8Three(t, p);
    } else if LeadLength(Peek(t, p)) == 4 {
      Decode8Four(t, p);
    }
  }

  /** RFC 3629 by lead byte. */
  lemma Utf8CharByLead(s: bytes)
    requires |s| > 0
    ensures Utf8Char(s) <==>
            && |s| == LeadLength(s[0])
            && (|s| >= 2 ==> SecondOk(s[0], s[1]))
            && (|s| >= 3 ==> Utf8Tail(s[2]))
            && (|s| == 4 ==> Utf8Tail(s[3]))
  {
  }

  lemma Decode8Accepts(t: bytes, p: nat)
    requires p < |t|
    ensures var n := LeadLength(t[p]);
            Decode8(t, p).ok <==> n > 0 && p + n <= |t| && Utf8Char(t[p..p + n])
  {
    hide Decode8, Utf8Char;
    var n := LeadLength(t[p]);
    Decode8Lead(t, p);
    if n == 3 {
      Decode8Three(t, p);
    } else if n == 4 {
      Decode8Four(t, p);
    }
    if n > 0 && p + n <= |t| {
      var s := t[p..p + n];
      assert s[0] == t[p];
      assert n >= 2 ==> s[1] == t[p + 1];
      assert n >= 3 ==> s[2] == t[p + 2];
      assert n >= 4 ==> s[3] == t[p + 3];
      Utf8CharByLead(s);
    }
  }

  /** Decode accepts exactly the sequences of RFC 3629, and consumes exactly the sequence. */
  lemma Decode8Exact(t: bytes, p: nat)
    requires p < |t|
    ensures Decode8(t, p).ok ==> p < Decode8(t, p).next <= |t| && Utf8Char(t[p..Decode8(t, p).next])
    ensures forall q :: p < q <= |t| && Utf8Char(t[p..q]) ==> Decode8(t, p).ok && Decode8(t, p).next == q
  {
    hide Decode8, Utf8Char;
    Decode8Accepts(t, p);
    Decode8Lead(t, p);
    forall q | p < q <= |t| && Utf8Char(t[p..q])
      ensures Decode8(t, p).ok && Decode8(t, p).next == q
    {
      Utf8CharByLead(t[p..q]);
      assert t[p..q][0] == t[p];
    }
  }

  /** The validator has kept pace with the decoder: same verdict, same position, bytes copied. */
  predicate InStep(t: bytes, p: nat, v: Val, d: Dec) {
    && v.ok == d.ok
    && v.next == d.next
    && p <= v.next
    && |v.out| == v.next - p
    && forall i :: 0 <= i < |v.out| ==> v.out[i] == Peek(t, p + i)
  }

  lemma CopyFollow(t: bytes, p: nat, v: Val, d: Dec, mask: bv8)
    requires InStep(t, p, v, d)
    ensures InStep(t, p, Copy(t, v, mask), Follow(t, d, mask))
  {
  }

  lemma CopyFollow2(t: bytes, p: nat, v: Val, d: Dec, m1: bv8, m2: bv8)
    requires InStep(t, p, v, d)
    ensures InStep(t, p, Copy(t, Copy(t, v, m1), m2), Follow(t, Follow(t, d, m1), m2))
  {
    CopyFollow(t, p, v, d, m1);
    CopyFollow(t, p, Copy(t, v, m1), Follow(t, d, m1), m2);
  }

  lemma CopyFollow3(t: bytes, p: nat, v: Val, d: Dec, m1: bv8)
    requires InStep(t, p, v, d)
    ensures InStep(t, p, Copy(t, Copy(t, Copy(t, v, m1), 0x70), 0x70),
                         Follow(t, Follow(t, Follow(t, d, m1), 0x70), 0x70))
  {
    CopyFollow(t, p, v, d, m1);
    CopyFollow2(t, p, Copy(t, v, m1), Follow(t, d, m1), 0x70, 0x70);
  }

  lemma ValidateInStep(t: bytes, p: nat)
    ensures InStep(t, p, Validate8(t, p), Decode8(t, p))
  {
    var b := Peek(t, p);
    var v := Val(true, [b], p + 1);
    if b >= 0x80 {
      match GetRange(b)
      case 2 => CopyFollow(t, p, v, Dec(true, b % 64, p + 1), 0x70);
      case 3 => CopyFollow2(t, p, v, Dec(true, b % 32, p + 1), 0x70, 0x70);
      case 4 => CopyFollow2(t, p, v, Dec(true, b % 16, p + 1), 0x50, 0x70);
      case 5 => CopyFollow3(t, p, v, Dec(true, b % 8, p + 1), 0x10);
      case 6 => CopyFollow3(t, p, v, Dec(true, b % 4, p + 1), 0x70);
      case 10 => CopyFollow2(t, p, v, Dec(true, 0, p + 1), 0x20, 0x70);
      case 11 => CopyFollow3(t, p, v, Dec(true, 0, p + 1), 0x60);
      case _ =>
    }
  }

  /** Validate accepts what Decode accepts, consumes as much, and copies the bytes unchanged. */
  lemma Validate8Agrees(t: bytes, p: nat)
    ensures Validate8(t, p).ok == Decode8(t, p).ok
    ensures Validate8(t, p).next == Decode8(t, p).next
    ensures Decode8(t, p).ok && p < |t| ==>
              Validate8(t, p).next <= |t| && Validate8(t, p).out == t[p..Validate8(t, p).next]
  {
    ValidateInStep(t, p);
    if p < |t| {
      Decode8Exact(t, p);
    }
  }

  // ---------- Encode and Decode undo each other ----------

  /** The bits of a UTF8-char, base 64, most significant digit first. */
  function Scalar8(s: bytes): (c: nat)
    requires Utf8Char(s)
  {
    var a: int := s[0];
    if |s| == 1 then a
    else if |s| == 2 then Digits(a - 0xC0, s[1])
    else if |s| == 3 then Digits(Digits(a - 0xE0, s[1]), s[2])
    else Digits(Digits(Digits(a - 0xF0, s[1]), s[2]), s[3])
  }

  function Digits(high: nat, low: byte): nat
    requires Utf8Tail(low)
  {
    high * 64 + (low as int - 0x80)
  }

  lemma DigitsInverse(high: nat, low: byte)
    requires Utf8Tail(low)
    ensures Digits(high, low) / 64 == high
    ensures 0x80 + Digits(high, low) % 64 == low
  {
  }

  lemma Div4096(c: nat)
    ensures c / 4096 == c / 64 / 64
    ensures c / 262144 == c / 4096 / 64
  {
  }

  lemma FollowTail(t: bytes, d: Dec, mask: bv8)
    requires Utf8Tail(Peek(t, d.next))
    ensures Follow(t, d, mask).code == Digits(d.code, Peek(t, d.next))
  {
  }

  lemma Decode8Code(t: bytes, p: nat, q: nat)
    requires p < q <= |t|
    requires Utf8Char(t[p..q])
    ensures Decode8(t, p).code == Scalar8(t[p..q])
  {
    var s := t[p..q];
    assert s[0] == t[p];
    if |s| == 2 {
      assert s[1] == t[p + 1];
    } else if |s| == 3 {
      Decode8Code3(t, p);
    } else if |s| == 4 {
      Decode8Code4(t, p);
    }
  }

  lemma Decode8Code3(t: bytes, p: nat)
    requires p + 3 <= |t|
    requires Utf8Char(t[p..p + 3])
    ensures Decode8(t, p).code == Scalar8(t[p..p + 3])
  {
    var s := t[p..p + 3];
    assert s[0] == t[p] && s[1] == t[p + 1] && s[2] == t[p + 2];
    var d := Dec(true, (s[0] as int) - 0xE0, p + 1);
    hide Decode8;
    var mask := Decode8Follow3(t, p);
    Follow2Code(t, d, mask);
  }

  lemma Decode8Follow3(t: bytes, p: nat) returns (mask: bv8)
    requires LeadLength(Peek(t, p)) == 3
    ensures Decode8(t, p) == Follow(t, Follow(t, Dec(true, Peek(t, p) as int - 0xE0, p + 1), mask), 0x70)
  {
    hide Follow;
    mask := if Peek(t, p) == 0xE0 then 0x20 else if Peek(t, p) == 0xED then 0x50 else 0x70;
  }

  lemma Decode8Follow4(t: bytes, p: nat) returns (mask: bv8)
    requires LeadLength(Peek(t, p)) == 4
    ensures Decode8(t, p)
         == Follow(t, Follow(t, Follow(t, Dec(true, Peek(t, p) as int - 0xF0, p + 1), mask), 0x70), 0x70)
  {
    hide Follow;
    mask := if Peek(t, p) == 0xF0 then 0x60 else if Peek(t, p) == 0xF4 then 0x10 else 0x70;
  }

  lemma Follow2Code(t: bytes, d: Dec, mask: bv8)
    requires Utf8Tail(Peek(t, d.next)) && Utf8Tail(Peek(t, d.next + 1))
    ensures Follow(t, Follow(t, d, mask), 0x70).code
         == Digits(Digits(d.code, Peek(t, d.next)), Peek(t, d.next + 1))
  {
    FollowTail(t, d, mask);
    FollowTail(t, Follow(t, d, mask), 0x70);
  }

  lemma Follow3Code(t: bytes, d: Dec, mask: bv8)
    requires Utf8Tail(Peek(t, d.next)) && Utf8Tail(Peek(t, d.next + 1)) && Utf8Tail(Peek(t, d.next + 2))
    ensures Follow(t, Follow(t, Follow(t, d, mask), 0x70), 0x70).code
         == Digits(Digits(Digits(d.code, Peek(t, d.next)), Peek(t, d.next + 1)), Peek(t, d.next + 2))
  {
    FollowTail(t, d, mask);
    FollowTail(t, Follow(t, d, mask), 0x70);
    FollowTail(t, Follow(t, Follow(t, d, mask), 0x70), 0x70);
  }

  lemma Decode8Code4(t: bytes, p: nat)
    requires p + 4 <= |t|
    requires Utf8Char(t[p..p + 4])
    ensures Decode8(t, p).code == Scalar8(t[p..p + 4])
  {
    var s := t[p..p + 4];
    assert s[0] == t[p] && s[1] == t[p + 1] && s[2] == t[p + 2] && s[3] == t[p + 3];
    var d := Dec(true, (s[0] as int) - 0xF0, p + 1);
    hide Decode8;
    var mask := Decode8Follow4(t, p);
    Follow3Code(t, d, mask);
  }

  lemma EncodeScalar(s: bytes)
    requires Utf8Char(s)
    ensures IsScalar(Scalar8(s))
    ensures Encode8(Scalar8(s)) == s
  {
    var a: int := s[0];
    if |s| == 2 {
      DigitsInverse(a - 0xC0, s[1]);
    } else if |s| == 3 {
      EncodeScalar3(s);
    } else if |s| == 4 {
      EncodeScalar4(s);
    }
  }

  lemma EncodeScalar3(s: bytes)
    requires Utf8Char(s) && |s| == 3
    ensures IsScalar(Scalar8(s))
    ensures Encode8(Scalar8(s)) == s
  {
    var a: int := s[0];
    var d1 := Digits(a - 0xE0, s[1]);
    var c := Digits(d1, s[2]);
    assert c == Scalar8(s);
    DigitsInverse(a - 0xE0, s[1]);
    DigitsInverse(d1, s[2]);
    Div4096(c);
    assert 0x800 <= c <= 0xFFFF;
    assert Encode8(c) == [0xE0 + c / 4096, 0x80 + c / 64 % 64, 0x80 + c % 64];
  }

  lemma EncodeScalar4(s: bytes)
    requires Utf8Char(s) && |s| == 4
    ensures IsScalar(Scalar8(s))
    ensures Encode8(Scalar8(s)) == s
  {
    var a: int := s[0];
    var d1 := Digits(a - 0xF0, s[1]);
    var d2 := Digits(d1, s[2]);
    var c := Digits(d2, s[3]);
    assert c == Scalar8(s);
    DigitsInverse(a - 0xF0, s[1]);
    DigitsInverse(d1, s[2]);
    DigitsInverse(d2, s[3]);
    Div4096(c);
    assert 16 <= d1 <= 0x10F;
    assert 0x10000 <= c <= 0x10FFFF;
    assert Encode8(c) == [0xF0 + c / 262144, 0x80 + c / 4096 % 64, 0x80 + c / 64 % 64, 0x80 + c % 64];
  }

  lemma ScalarEncode(c: nat)
    requires IsScalar(c)
    ensures Utf8Char(Encode8(c))
    ensures Scalar8(Encode8(c)) == c
  {
    if 0x800 <= c <= 0xFFFF {
      ScalarEncode3(c);
    } else if c > 0xFFFF {
      ScalarEncode4(c);
    }
  }

  lemma ScalarEncode3(c: nat)
    requires IsScalar(c) && 0x800 <= c <= 0xFFFF
    ensures Utf8Char(Encode8(c))
    ensures Scalar8(Encode8(c)) == c
  {
    Div4096(c);
  }

  lemma ScalarEncode4(c: nat)
    requires IsScalar(c) && c > 0xFFFF
    ensures Utf8Char(Encode8(c))
    ensures Scalar8(Encode8(c)) == c
  {
    Div4096(c);
  }

  /** What is left of a unit without the bits in front. */
  function Low(x: nat, size: nat): nat
    requires size > 0
  {
    x % size
  }

  lemma TwoBits(c: nat)
    requires 0x80 <= c < 0x800
    ensures var s := Encode8(c);
            |s| == 2 && s[0] / 32 == 6 && s[1] / 64 == 2 && c == Low(s[0], 32) * 64 + Low(s[1], 64)
  {
  }

  lemma ThreeBits(c: nat)
    requires 0x800 <= c < 0x1_0000
    ensures var s := Encode8(c);
            && |s| == 3 && s[0] / 16 == 14 && s[1] / 64 == 2 && s[2] / 64 == 2
            && c == (Low(s[0], 16) * 64 + Low(s[1], 64)) * 64 + Low(s[2], 64)
  {
    Div4096(c);
    var a, b := c / 4096, c / 64 % 64;
    assert (0xE0 + a) / 16 == 14 && Low(0xE0 + a, 16) == a;
    assert (0x80 + b) / 64 == 2 && Low(0x80 + b, 64) == b;
  }

  lemma FourBits(c: nat)
    requires 0x1_0000 <= c <= 0x10FFFF
    ensures var s := Encode8(c);
            && |s| == 4 && s[0] / 8 == 30 && s[1] / 64 == 2 && s[2] / 64 == 2 && s[3] / 64 == 2
            && c == ((Low(s[0], 8) * 64 + Low(s[1], 64)) * 64 + Low(s[2], 64)) * 64 + Low(s[3], 64)
  {
    var h, m, l := c / 262144, c / 4096 % 64, c / 64 % 64;
    assert h <= 4 && c / 4096 == h * 64 + m;
    assert c / 64 == (h * 64 + m) * 64 + l;
    assert (0xF0 + h) / 8 == 30 && Low(0xF0 + h, 8) == h;
    assert (0x80 + m) / 64 == 2 && Low(0x80 + m, 64) == m;
    assert (0x80 + l) / 64 == 2 && Low(0x80 + l, 64) == l;
  }

  /** The bits of section 3 of RFC 3629: a prefix that says how many bytes there are, and the bits of
      the scalar value, six in every byte after the first. */
  lemma Encode8Bits(c: nat)
    requires c <= 0x10FFFF
    ensures var s := Encode8(c);
            && (c < 0x80 ==> s == [c])
            && (0x80 <= c < 0x800 ==> |s| == 2 && s[0] / 32 == 6 && c == Low(s[0], 32) * 64 + Low(s[1], 64))
            && (0x800 <= c < 0x1_0000 ==>
                  |s| == 3 && s[0] / 16 == 14 && c == (Low(s[0], 16) * 64 + Low(s[1], 64)) * 64 + Low(s[2], 64))
            && (0x1_0000 <= c ==>
                  && |s| == 4 && s[0] / 8 == 30
                  && c == ((Low(s[0], 8) * 64 + Low(s[1], 64)) * 64 + Low(s[2], 64)) * 64 + Low(s[3], 64))
            && forall i :: 1 <= i < |s| ==> s[i] / 64 == 2
  {
    if c < 0x80 {
      return;
    }
    hide Encode8, Low;
    if c < 0x800 {
      TwoBits(c);
    } else if c < 0x1_0000 {
      ThreeBits(c);
    } else {
      FourBits(c);
    }
  }

  lemma Decode8Encode8(c: nat, pre: bytes, post: bytes)
    requires IsScalar(c)
    ensures var t := pre + Encode8(c) + post;
            Decode8(t, |pre|) == Dec(true, c, |pre| + |Encode8(c)|)
  {
    var e := Encode8(c);
    var t := pre + e + post;
    var q := |pre| + |e|;
    assert t[|pre|..q] == e;
    ScalarEncode(c);
    Decode8Exact(t, |pre|);
    Decode8Code(t, |pre|, q);
  }

  lemma Encode8Decode8(t: bytes, p: nat)
    requires p < |t|
    requires Decode8(t, p).ok
    ensures IsScalar(Decode8(t, p).code)
    ensures p < Decode8(t, p).next <= |t|
    ensures Encode8(Decode8(t, p).code) == t[p..Decode8(t, p).next]
  {
    Decode8Exact(t, p);
    var q := Decode8(t, p).next;
    Decode8Code(t, p, q);
    EncodeScalar(t[p..q]);
  }

  // ---------- UTF-16 ----------

  function Encode16(c: nat): (s: seq<u16>)
    requires IsScalar(c)
    ensures 1 <= |s| <= 2
  {
    if c <= 0xFFFF then [c]
    else [(c - 0x10000) / 1024 + 0xD800, (c - 0x10000) % 1024 + 0xDC00]
  }

  function Peek16(t: seq<u16>, p: nat): u16 {
    if p < |t| then t[p] else 0
  }

  function Decode16(t: seq<u16>, p: nat): (r: Dec) {
    var u := Peek16(t, p);
    if u < 0xD800 || u > 0xDFFF then Dec(true, u, p + 1)
    else if u <= 0xDBFF then
      var w := Peek16(t, p + 1);
      Dec(0xDC00 <= w <= 0xDFFF, u % 1024 * 1024 + w % 1024 + 0x10000, p + 2)
    else Dec(false, 0, p + 1)
  }

  /** The bits of section 2.1 of RFC 2781: 110110 and ten bits, 110111 and the ten lower bits, of
      what the scalar value has beyond 0xFFFF. */
  lemma Encode16Bits(c: nat)
    requires IsScalar(c)
    ensures var s := Encode16(c);
            if c < 0x1_0000 then s == [c]
            else
              && |s| == 2 && s[0] / 1024 == 54 && s[1] / 1024 == 55
              && c == 0x1_0000 + Low(s[0], 1024) * 1024 + Low(s[1], 1024)
  {
  }

  /** Decode takes a unit that is no surrogate for itself, and a pair for that value. */
  lemma Decode16Bits(t: seq<u16>, p: nat)
    requires p < |t|
    ensures var r := Decode16(t, p);
            && (t[p] / 2048 != 27 ==> r == Dec(true, t[p], p + 1))
            && (t[p] / 1024 == 54 && p + 1 < |t| && t[p + 1] / 1024 == 55 ==>
                  r == Dec(true, 0x1_0000 + Low(t[p], 1024) * 1024 + Low(t[p + 1], 1024), p + 2))
            && (r.ok ==> t[p] / 2048 != 27 || (t[p] / 1024 == 54 && p + 1 < |t| && t[p + 1] / 1024 == 55))
  {
  }

  lemma Decode16Encode16(c: nat, pre: seq<u16>, post: seq<u16>)
    requires IsScalar(c)
    ensures var t := pre + Encode16(c) + post;
            Decode16(t, |pre|) == Dec(true, c, |pre| + |Encode16(c)|)
  {
    var e := Encode16(c);
    var t := pre + e + post;
    assert t[|pre|] == e[0];
    assert |e| > 1 ==> Peek16(t, |pre| + 1) == e[1];
  }

  lemma Encode16Decode16(t: seq<u16>, p: nat)
    requires p < |t|
    requires Decode16(t, p).ok
    ensures IsScalar(Decode16(t, p).code)
    ensures p < Decode16(t, p).next <= |t|
    ensures Encode16(Decode16(t, p).code) == t[p..Decode16(t, p).next]
  {
  }

  // ---------- Transcoding whole texts ----------

  /** Transcode one code point after another until the text ends or one is malformed. */
  function To16(t: bytes): (r: Option<seq<u16>>)
    decreases |t|
  {
    if t == [] then Some([])
    else
      var d := Decode8(t, 0);
      if !d.ok then None
      else
        Encode8Decode8(t, 0);
        match To16(t[d.next..])
        case None => None
        case Some(rest) => Some(Encode16(d.code) + rest)
  }

  function To8(t: seq<u16>): (r: Option<bytes>)
    decreases |t|
  {
    if t == [] then Some([])
    else
      var d := Decode16(t, 0);
      if !d.ok then None
      else
        Encode16Decode16(t, 0);
        match To8(t[d.next..])
        case None => None
        case Some(rest) => Some(Encode8(d.code) + rest)
  }

  function PutInFront<T>(s: seq<T>, r: Option<seq<T>>): Option<seq<T>> {
    if r.None? then None else Some(s + r.value)
  }

  lemma To16Cons(c: nat, rest: bytes)
    requires IsScalar(c)
    ensures To16(Encode8(c) + rest) == PutInFront(Encode16(c), To16(rest))
  {
    hide Decode8, Decode16, Encode8, Encode16;
    var e := Encode8(c);
    Decode8Encode8(c, [], rest);
    assert [] + e + rest == e + rest;
    assert (e + rest)[|e|..] == rest;
  }

  lemma To8Cons(c: nat, rest: seq<u16>)
    requires IsScalar(c)
    ensures To8(Encode16(c) + rest) == PutInFront(Encode8(c), To8(rest))
  {
    hide Decode8, Decode16, Encode8, Encode16;
    var e := Encode16(c);
    Decode16Encode16(c, [], rest);
    assert [] + e + rest == e + rest;
    assert (e + rest)[|e|..] == rest;
  }

  /** UTF-8 to UTF-16 and back is the identity on every text the first step accepts. */
  lemma {:induction false} To8To16(t: bytes)
    requires To16(t).Some?
    ensures To8(To16(t).value) == Some(t)
    decreases |t|
  {
    hide Decode8, Decode16, Encode8, Encode16;
    if t != [] {
      var d := Decode8(t, 0);
      Encode8Decode8(t, 0);
      To8To16(t[d.next..]);
      To8Cons(d.code, To16(t[d.next..]).value);
      assert t == t[0..d.next] + t[d.next..];
    }
  }

  /** UTF-16 to UTF-8 and back is the identity on every text the first step accepts. */
  lemma {:induction false} To16To8(t: seq<u16>)
    requires To8(t).Some?
    ensures To16(To8(t).value) == Some(t)
    decreases |t|
  {
    hide Decode8, Decode16, Encode8, Encode16;
    if t != [] {
      var d := Decode16(t, 0);
      Encode16Decode16(t, 0);
      To16To8(t[d.next..]);
      To16Cons(d.code, To8(t[d.next..]).value);
      assert t == t[0..d.next] + t[d.next..];
    }
  }

  /** The UTF-8 text of a sequence of scalar values. */
  function Text8(cs: seq<scalar>): bytes {
    if cs == [] then [] else Encode8(cs[0]) + Text8(cs[1..])
  }

  /** The texts accepted are exactly the UTF-8 texts of scalar value sequences. */
  lemma {:induction false} To16AcceptsText8(cs: seq<scalar>)
    ensures To16(Text8(cs)).Some?
  {
    if cs != [] {
      To16AcceptsText8(cs[1..]);
      To16Cons(cs[0], Text8(cs[1..]));
    }
  }

  lemma {:induction false} To16AcceptsOnlyText8(t: bytes) returns (cs: seq<scalar>)
    requires To16(t).Some?
    ensures t == Text8(cs)
    decreases |t|
  {
    hide Decode8, Encode8;
    if t == [] {
      cs := [];
    } else {
      var d := Decode8(t, 0);
      Encode8Decode8(t, 0);
      var rest := To16AcceptsOnlyText8(t[d.next..]);
      cs := [d.code] + rest;
      assert t == t[0..d.next] + t[d.next..];
      assert cs[1..] == rest;
    }
  }
}
