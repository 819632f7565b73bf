/** ParseString of the JSON reader and WriteString of the writer, for UTF-8 on both sides. */
module JsonString {
  import opened Bytes
  import opened JsonEvents
  import opened Utf

  // ---------- reading ----------

  /** The byte that a one-letter escape stands for; NUL when the letter is not an escape. */
  function Unescape(e: byte): byte {
    if e == QUOTE || e == 47 || e == BACKSLASH then e
    else if e == 98 then 8
    else if e == LOWER_F then 12
    else if e == LOWER_N then LF
    else if e == 114 then CR
    else if e == LOWER_T then TAB
    else NUL
  }

  function HexValue(b: byte): (r: Option<nat>)
    ensures r.Some? ==> r.value <= 15
  {
    if IsDigit(b) then Some(b - DIGIT0)
    else if 65 <= b <= 70 then Some(b - 65 + 10)
    else if 97 <= b <= 102 then Some(b - 97 + 10)
    else None
  }

  /** Four characters in the place of hexadecimal digits. */
  datatype Quad = Quad(a: byte, b: byte, c: byte, d: byte)

  function QuadAt(t: bytes, p: nat): Quad {
    Quad(Peek(t, p), Peek(t, p + 1), Peek(t, p + 2), Peek(t, p + 3))
  }

  /** ParseHex4. */
  function Hex4(q: Quad): (r: Option<nat>)
    ensures r.Some? ==> r.value <= 0xFFFF
  {
    var a, b, c, d := HexValue(q.a), HexValue(q.b), HexValue(q.c), HexValue(q.d);
    if a.Some? && b.Some? && c.Some? && d.Some? then Some(a.value * 4096 + b.value * 256 + c.value * 16 + d.value)
    else None
  }

  // ---------- hexadecimal digits ----------

  const LOWER_DIGITS: string := "0123456789abcdef"
  const UPPER_DIGITS: string := "0123456789ABCDEF"

  /** The last place of a byte in a list of characters. */
  function PlaceOf(b: byte, digits: string): (r: Option<nat>)
    ensures r.Some? ==> r.value < |digits| && digits[r.value] as int == b
    ensures r.None? ==> forall i :: 0 <= i < |digits| ==> digits[i] as int != b
  {
    if digits == [] then None
    else if digits[|digits| - 1] as int == b then Some(|digits| - 1)
    else PlaceOf(b, digits[..|digits| - 1])
  }

  /** The number that a hexadecimal digit stands for, in either case. */
  function DigitValue(b: byte): (r: Option<nat>) {
    if PlaceOf(b, LOWER_DIGITS).Some? then PlaceOf(b, LOWER_DIGITS) else PlaceOf(b, UPPER_DIGITS)
  }

  /** The number that four of them stand for to base 16. */
  function HexNumber(q: Quad): (r: Option<nat>) {
    var a, b, c, d := DigitValue(q.a), DigitValue(q.b), DigitValue(q.c), DigitValue(q.d);
    if a.Some? && b.Some? && c.Some? && d.Some? then Some(((a.value * 16 + b.value) * 16 + c.value) * 16 + d.value)
    else None
  }

  /** The reader takes a byte for the n-th digit if and only if it is the n-th of the list, in
      either case. */
  lemma HexValueIff(b: byte, n: nat)
    ensures HexValue(b) == Some(n) <==>
              n < 16 && (b == LOWER_DIGITS[n] as int || b == UPPER_DIGITS[n] as int)
  {
  }

  lemma DigitValueAgrees(b: byte)
    ensures DigitValue(b) == HexValue(b)
  {
    hide HexValue, PlaceOf;
    var l, u := PlaceOf(b, LOWER_DIGITS), PlaceOf(b, UPPER_DIGITS);
    if l.Some? {
      HexValueIff(b, l.value);
    } else if u.Some? {
      HexValueIff(b, u.value);
    } else if HexValue(b).Some? {
      HexValueIff(b, HexValue(b).value);
    }
  }

  lemma HexAgrees(q: Quad)
    ensures Hex4(q) == HexNumber(q)
  {
    hide HexValue, DigitValue;
    DigitValueAgrees(q.a);
    DigitValueAgrees(q.b);
    DigitValueAgrees(q.c);
    DigitValueAgrees(q.d);
  }

  lemma HexAll()
    ensures forall q :: Hex4(q) == HexNumber(q)
  {
    hide Hex4, HexNumber;
    forall q ensures Hex4(q) == HexNumber(q) {
      HexAgrees(q);
    }
  }

  /** The n-th digit in either case. */
  function DigitByte(n: nat, upper: bool): byte
    requires n < 16
  {
    if upper then UPPER_DIGITS[n] as int else LOWER_DIGITS[n] as int
  }

  /** Four digits, in any mixture of cases, are read as their number to base 16. */
  lemma FourDigits(a: nat, b: nat, c: nat, d: nat, ua: bool, ub: bool, uc: bool, ud: bool)
    requires a < 16 && b < 16 && c < 16 && d < 16
    ensures Hex4(Quad(DigitByte(a, ua), DigitByte(b, ub), DigitByte(c, uc), DigitByte(d, ud)))
         == Some(a * 4096 + b * 256 + c * 16 + d)
  {
    assert forall n, u :: 0 <= n < 16 ==> HexValue(DigitByte(n, u)) == Some(n) by {
      forall n, u | 0 <= n < 16 ensures HexValue(DigitByte(n, u)) == Some(n) {
        HexValueIff(DigitByte(n, u), n);
      }
    }
    hide HexValue, DigitByte;
  }

  /** What one character of a string, escaped or not, contributes. */
  datatype Piece =
    | BadPiece(code: ErrorCode)
    | Piece(out: bytes, next: nat)

  /** A `\u` escape; `p` is just after the letter u. */
  function UnicodePiece(t: bytes, p: nat): (r: Piece)
    ensures r.Piece? ==> p < r.next <= |t|
  {
    var h := Hex4(QuadAt(t, p));
    if h.None? then BadPiece(StringUnicodeEscapeInvalidHex)
    else if 0xD800 <= h.value <= 0xDBFF then
      if Peek(t, p + 4) != BACKSLASH || Peek(t, p + 5) != LOWER_U then BadPiece(StringUnicodeSurrogateInvalid)
      else
        var g := Hex4(QuadAt(t, p + 6));
        if g.None? then BadPiece(StringUnicodeEscapeInvalidHex)
        else if g.value < 0xDC00 || g.value > 0xDFFF then BadPiece(StringUnicodeSurrogateInvalid)
        else Piece(Encode8((h.value - 0xD800) * 1024 + (g.value - 0xDC00) + 0x10000), p + 10)
    else Piece(Encode8(h.value), p + 4)
  }

  /** One turn of the loop in ParseStringToStream, away from the closing quote. */
  function NextPiece(t: bytes, p: nat): (r: Piece)
    requires Peek(t, p) != QUOTE
    ensures r.Piece? ==> p < r.next <= |t|
  {
    var b := Peek(t, p);
    if b == BACKSLASH then
      var e := Peek(t, p + 1);
      if Unescape(e) != NUL then Piece([Unescape(e)], p + 2)
      else if e == LOWER_U then UnicodePiece(t, p + 2)
      else BadPiece(StringEscapeInvalid)
    else if b == NUL then BadPiece(StringMissQuotationMark)
    else if b < 0x20 then BadPiece(StringEscapeInvalid)
    else Piece([b], p + 1)
  }

  datatype StrScan =
    | BadStr(code: ErrorCode)
    | StrScan(str: bytes, next: nat)

  /** The rest of a string, up to and including the closing quote. */
  function ScanString(t: bytes, p: nat): (r: StrScan)
    requires p <= |t|
    ensures r.StrScan? ==> p < r.next <= |t|
    decreases |t| - p
  {
    if Peek(t, p) == QUOTE then StrScan([], p + 1)
    else
      match NextPiece(t, p)
      case BadPiece(code) => BadStr(code)
      case Piece(out, q) =>
        match ScanString(t, q)
        case BadStr(code) => BadStr(code)
        case StrScan(rest, n) => StrScan(out + rest, n)
  }

  // ---------- the stack stream ----------

  /** StackStream::length_ once the bytes of a string and their terminator are on the stack. It
      has 32 bits and wraps. */
  function PutLength(s: bytes): u32 {
    (|s| + 1) % U32
  }

  /** The handler is given bytes of the string. Where the length wraps to zero it is given a
      pointer to the top of the stack and 2^32 - 1 bytes of whatever memory lies there. */
  predicate Told(s: bytes) {
    PutLength(s) != 0
  }

  /** What the handler is given: `length_ - 1` bytes from where popping `length_` bytes leaves the
      top of the stack. */
  function Handed(s: bytes): bytes
    requires Told(s)
  {
    s[|s| + 1 - PutLength(s)..]
  }

  /** The same for any string: nothing of one of which no byte is handed over. */
  function HandedOver(s: bytes): bytes {
    if Told(s) then Handed(s) else []
  }

  /** What stays on the stack. */
  function Litter(s: bytes): bytes {
    (s + [NUL])[..|s| + 1 - PutLength(s)]
  }

  /** A string is handed over whole, and a string leaves nothing, if and only if it has fewer than
      2^32 - 1 bytes; the handler is given no byte of the string if and only if one more than its
      length is a multiple of 2^32. Otherwise it is given the end of the string, as much as the
      32-bit length says, and the beginning stays. */
  lemma HandedWhole(s: bytes)
    ensures HandedOver(s) == s <==> |s| < U32 - 1
    ensures Litter(s) == [] <==> |s| < U32 - 1
    ensures Told(s) <==> (|s| + 1) % U32 != 0
    ensures Told(s) ==> Litter(s) + HandedOver(s) == s && |HandedOver(s)| == (|s| + 1) % U32 - 1
  {
    if |s| < U32 - 1 {
      assert PutLength(s) == |s| + 1;
    } else if Told(s) {
      assert |Handed(s)| < |s|;
    }
  }

  /** Of 2^32 bytes the handler sees none, and all of them stay on the stack. */
  lemma LongStringLost(s: bytes)
    requires |s| == U32
    ensures Told(s) && HandedOver(s) == [] && Litter(s) == s
  {
    assert PutLength(s) == 1;
    assert (s + [NUL])[..U32] == s;
  }

  /** A string never decodes to more bytes than its text has. */
  lemma PieceShort(t: bytes, p: nat)
    requires Peek(t, p) != QUOTE && NextPiece(t, p).Piece?
    ensures |NextPiece(t, p).out| <= NextPiece(t, p).next - p
  {
  }

  lemma {:induction false} ScanShort(t: bytes, p: nat)
    requires p <= |t| && ScanString(t, p).StrScan?
    ensures |ScanString(t, p).str| < ScanString(t, p).next - p
    decreases |t| - p
  {
    hide NextPiece;
    if Peek(t, p) != QUOTE {
      PieceShort(t, p);
      ScanShort(t, NextPiece(t, p).next);
    }
  }

  // ---------- writing ----------

  function HexDigit(n: nat): (b: byte)
    requires n <= 15
  {
    if n <= 9 then 48 + n else 65 + n - 10
  }

  /** What WriteString puts for one byte. */
  function EscapeByte(b: byte): (s: bytes)
    ensures 1 <= |s|
  {
    if b == QUOTE || b == BACKSLASH then [BACKSLASH, b]
    else if b == 8 then [BACKSLASH, 98]
    else if b == TAB then [BACKSLASH, LOWER_T]
    else if b == LF then [BACKSLASH, LOWER_N]
    else if b == 12 then [BACKSLASH, LOWER_F]
    else if b == CR then [BACKSLASH, 114]
    else if b < 0x20 then [BACKSLASH, LOWER_U, DIGIT0, DIGIT0, HexDigit(b / 16), HexDigit(b % 16)]
    else [b]
  }

  function EscapeAll(s: bytes): bytes {
    if s == [] then [] else EscapeByte(s[0]) + EscapeAll(s[1..])
  }

  /** The string token of the writer. */
  function QuoteString(s: bytes): (r: bytes) {
    [QUOTE] + EscapeAll(s) + [QUOTE]
  }

  // ---------- reading undoes writing ----------

  lemma EscapedByteReads(b: byte, pre: bytes, post: bytes)
    ensures var t := pre + EscapeByte(b) + post;
            && Peek(t, |pre|) != QUOTE
            && NextPiece(t, |pre|) == Piece([b], |pre| + |EscapeByte(b)|)
  {
    var e := EscapeByte(b);
    var t := pre + e + post;
    assert forall i :: 0 <= i < |e| ==> Peek(t, |pre| + i) == e[i];
    assert t[|pre|] == e[0];
    if |e| == 6 {
      assert Peek(t, |pre| + 1) == e[1] && Peek(t, |pre| + 2) == e[2] && Peek(t, |pre| + 3) == e[3];
      assert Peek(t, |pre| + 4) == e[4] && Peek(t, |pre| + 5) == e[5];
      assert Hex4(QuadAt(t, |pre| + 2)) == Some(b);
    } else if |e| == 2 {
      assert Peek(t, |pre| + 1) == e[1];
    }
  }

  /** A piece in front of a scanned remainder. */
  lemma ScanCons(e: bytes, out: bytes, rest: bytes, str: bytes, pre: bytes, post: bytes)
    requires var t := pre + e + (rest + [QUOTE] + post);
             Peek(t, |pre|) != QUOTE && NextPiece(t, |pre|) == Piece(out, |pre| + |e|)
    requires ScanString((pre + e) + rest + [QUOTE] + post, |pre + e|) == StrScan(str, |pre + e| + |rest| + 1)
    ensures ScanString(pre + (e + rest) + [QUOTE] + post, |pre|) == StrScan(out + str, |pre| + |e + rest| + 1)
  {
    hide NextPiece;
    assert pre + (e + rest) + [QUOTE] + post == pre + e + (rest + [QUOTE] + post);
    assert pre + (e + rest) + [QUOTE] + post == (pre + e) + rest + [QUOTE] + post;
  }

  /** Whatever surrounds it, the written form of any byte string, NUL included, reads back. */
  lemma {:induction false} StringRoundTrip(s: bytes, pre: bytes, post: bytes)
    ensures ScanString(pre + EscapeAll(s) + [QUOTE] + post, |pre|)
         == StrScan(s, |pre| + |EscapeAll(s)| + 1)
    decreases |s|
  {
    var t := pre + EscapeAll(s) + [QUOTE] + post;
    if s == [] {
      assert t[|pre|] == QUOTE;
    } else {
      var e, rest := EscapeByte(s[0]), EscapeAll(s[1..]);
      EscapedByteReads(s[0], pre, rest + [QUOTE] + post);
      StringRoundTrip(s[1..], pre + e, post);
      ScanCons(e, [s[0]], rest, s[1..], pre, post);
      assert s == [s[0]] + s[1..];
    }
  }

  // ---------- RFC 4627, section 2.5 ----------

  /** One character of a JSON string as the grammar spells it: a byte, a letter behind a
      backslash, or four hexadecimal digits behind a backslash and the letter u. */
  datatype Char =
    | Plain(b: byte)
    | Letter(e: byte)
    | Hex(h: Quad)

  /** The letters that stand behind a backslash, and what they denote. */
  const ESCAPES: map<byte, byte> :=
    map[34 := 34, 92 := 92, 47 := 47, 98 := 8, 102 := 12, 110 := 10, 114 := 13, 116 := 9]

  /** The reader knows exactly these. */
  lemma EscapesAgree(e: byte)
    ensures e in ESCAPES <==> Unescape(e) != NUL
    ensures e in ESCAPES ==> Unescape(e) == ESCAPES[e]
  {
  }

  /** The writer puts a letter behind a backslash for a quote, a backslash and the five control
      characters that have one, upper-case digits for the others, and every other byte as it is. */
  lemma EscapeByteIs(b: byte)
    ensures forall e :: e in ESCAPES && e != 47 && ESCAPES[e] == b ==> EscapeByte(b) == [92, e]
    ensures b >= 0x20 && b != 34 && b != 92 ==> EscapeByte(b) == [b]
    ensures b < 0x20 && b !in {8, 9, 10, 12, 13} ==>
              EscapeByte(b) == [92, 117, 48, 48, UPPER_DIGITS[b / 16] as int, UPPER_DIGITS[b % 16] as int]
  {
    if b < 0x20 {
      HexDigitIs(b / 16);
      HexDigitIs(b % 16);
    }
  }

  lemma HexDigitIs(n: nat)
    requires n < 16
    ensures HexDigit(n) == UPPER_DIGITS[n] as int
  {
  }

  predicate CharOk(c: Char) {
    match c
    case Plain(b) => b >= 0x20 && b != QUOTE && b != BACKSLASH
    case Letter(e) => e in ESCAPES
    case Hex(h) => HexNumber(h).Some?
  }

  function CharText(c: Char): bytes {
    match c
    case Plain(b) => [b]
    case Letter(e) => [BACKSLASH, e]
    case Hex(h) => [BACKSLASH, LOWER_U, h.a, h.b, h.c, h.d]
  }

  predicate IsHigh(c: Char) {
    c.Hex? && HexNumber(c.h).Some? && 0xD800 <= HexNumber(c.h).value <= 0xDBFF
  }

  predicate IsLow(c: Char) {
    c.Hex? && HexNumber(c.h).Some? && 0xDC00 <= HexNumber(c.h).value <= 0xDFFF
  }

  predicate CharsOk(cs: seq<Char>) {
    forall c :: c in cs ==> CharOk(c)
  }

  /** Every escaped high surrogate is directly followed by an escaped low one. */
  predicate Paired(cs: seq<Char>) {
    forall i :: 0 <= i < |cs| && IsHigh(cs[i]) ==> i + 1 < |cs| && IsLow(cs[i + 1])
  }

  function CharsText(cs: seq<Char>): bytes {
    if cs == [] then [] else CharText(cs[0]) + CharsText(cs[1..])
  }

  /** The bytes a character denotes that is not half of a pair. */
  function CharBytes(c: Char): bytes
    requires CharOk(c)
  {
    match c
    case Plain(b) => [b]
    case Letter(e) => [ESCAPES[e]]
    case Hex(h) => Encode8(HexNumber(h).value)
  }

  function PairBytes(c: Char, d: Char): bytes
    requires IsHigh(c) && IsLow(d)
  {
    Encode8((HexNumber(c.h).value - 0xD800) * 1024 + (HexNumber(d.h).value - 0xDC00) + 0x10000)
  }

  /** The pair is the UTF-16 form of the scalar value whose UTF-8 form is put. */
  lemma PairIsUtf16(c: Char, d: Char) returns (x: nat)
    requires IsHigh(c) && IsLow(d)
    ensures IsScalar(x) && PairBytes(c, d) == Encode8(x)
    ensures Encode16(x) == [HexNumber(c.h).value, HexNumber(d.h).value]
  {
    hide HexNumber;
    x := (HexNumber(c.h).value - 0xD800) * 1024 + (HexNumber(d.h).value - 0xDC00) + 0x10000;
  }

  /** The bytes a string denotes. */
  function CharsBytes(cs: seq<Char>): bytes
    requires CharsOk(cs) && Paired(cs)
    decreases |cs|
  {
    if cs == [] then []
    else if IsHigh(cs[0]) then PairedTail(cs); PairBytes(cs[0], cs[1]) + CharsBytes(cs[2..])
    else PairedTail(cs); CharBytes(cs[0]) + CharsBytes(cs[1..])
  }

  /** A string that the reader accepts and hands over. */
  predicate StrOk(cs: seq<Char>) {
    CharsOk(cs) && Paired(cs) && Told(CharsBytes(cs))
  }

  function StrBytes(cs: seq<Char>): bytes
    requires StrOk(cs)
  {
    CharsBytes(cs)
  }

  lemma PairedTail(cs: seq<Char>)
    requires cs != []
    ensures IsHigh(cs[0]) ==>
              (Paired(cs) <==> |cs| >= 2 && IsLow(cs[1]) && Paired(cs[2..]))
    ensures !IsHigh(cs[0]) ==> (Paired(cs) <==> Paired(cs[1..]))
  {
    hide HexNumber, ESCAPES;
    if Paired(cs) {
      assert forall k :: 1 <= k <= |cs| ==> Paired(cs[k..]);
    } else if IsHigh(cs[0]) && |cs| >= 2 && IsLow(cs[1]) {
      var i :| 0 <= i < |cs| && IsHigh(cs[i]) && !(i + 1 < |cs| && IsLow(cs[i + 1]));
      assert i >= 2 && cs[2..][i - 2] == cs[i];
      assert i + 1 < |cs| ==> cs[2..][i - 1] == cs[i + 1];
    } else if !IsHigh(cs[0]) {
      var i :| 0 <= i < |cs| && IsHigh(cs[i]) && !(i + 1 < |cs| && IsLow(cs[i + 1]));
      assert i >= 1 && cs[1..][i - 1] == cs[i];
      assert i + 1 < |cs| ==> cs[1..][i] == cs[i + 1];
    }
  }

  lemma QuadOf(t: bytes, p: nat, e: bytes, i: nat)
    requires p + |e| <= |t| && t[p..p + |e|] == e && i + 4 <= |e|
    ensures QuadAt(t, p + i) == Quad(e[i], e[i + 1], e[i + 2], e[i + 3])
  {
    assert t[p + i] == e[i] && t[p + i + 1] == e[i + 1];
    assert t[p + i + 2] == e[i + 2] && t[p + i + 3] == e[i + 3];
  }

  /** A character that starts no pair reads as the bytes it denotes. */
  lemma CharReads(c: Char, t: bytes, p: nat)
    requires CharOk(c) && !IsHigh(c)
    requires p + |CharText(c)| <= |t| && t[p..p + |CharText(c)|] == CharText(c)
    ensures Peek(t, p) != QUOTE
    ensures NextPiece(t, p) == Piece(CharBytes(c), p + |CharText(c)|)
  {
    hide Encode8, Hex4, HexNumber, Unescape, ESCAPES;
    HexAll();
    var e := CharText(c);
    assert t[p] == e[0];
    match c
    case Plain(b) =>
    case Letter(l) =>
      assert t[p + 1] == e[1];
      EscapesAgree(l);
    case Hex(h) =>
      assert t[p + 1] == e[1];
      NoEscapeU();
      QuadOf(t, p, e, 2);
  }

  lemma NoEscapeU()
    ensures Unescape(LOWER_U) == NUL
  {
  }

  lemma PairReads(c: Char, d: Char, t: bytes, p: nat)
    requires IsHigh(c) && IsLow(d)
    requires p + 12 <= |t| && t[p..p + 12] == CharText(c) + CharText(d)
    ensures Peek(t, p) != QUOTE
    ensures NextPiece(t, p) == Piece(PairBytes(c, d), p + 12)
  {
    hide Encode8, Hex4, HexNumber;
    HexAll();
    NoEscapeU();
    hide Unescape;
    var e := CharText(c) + CharText(d);
    assert t[p] == e[0] && t[p + 1] == e[1];
    QuadOf(t, p, e, 2);
    assert t[p + 6] == e[6] && t[p + 7] == e[7];
    QuadOf(t, p, e, 8);
  }

  /** Where a low surrogate has to stand: the text of another character, or the closing quote. */
  predicate NoLowAt(t: bytes, p: nat) {
    || Peek(t, p) != BACKSLASH
    || Peek(t, p + 1) != LOWER_U
    || (var g := Hex4(QuadAt(t, p + 2)); g.Some? && !(0xDC00 <= g.value <= 0xDFFF))
  }

  lemma LoneReads(c: Char, t: bytes, p: nat)
    requires IsHigh(c) && NoLowAt(t, p + 6)
    requires p + 6 <= |t| && t[p..p + 6] == CharText(c)
    ensures Peek(t, p) != QUOTE && NextPiece(t, p) == BadPiece(StringUnicodeSurrogateInvalid)
  {
    hide Encode8, Hex4, HexNumber;
    HexAll();
    NoEscapeU();
    hide Unescape;
    var e := CharText(c);
    assert t[p] == e[0] && t[p + 1] == e[1];
    QuadOf(t, p, e, 2);
  }

  /** After a high surrogate that nothing or another character follows. */
  lemma NoLowFollows(cs: seq<Char>, t: bytes, p: nat)
    requires CharsOk(cs) && (cs == [] || !IsLow(cs[0]))
    requires p <= |t| && Peek(t, p + |CharsText(cs)|) == QUOTE
    requires p + |CharsText(cs)| <= |t| && t[p..p + |CharsText(cs)|] == CharsText(cs)
    ensures NoLowAt(t, p)
  {
    hide CharText, NoLowAt, IsLow, CharOk;
    if cs == [] {
      assert NoLowAt(t, p) by { QuoteIsNoLow(t, p); }
    } else {
      var e := CharText(cs[0]);
      assert cs[0] in cs;
      assert t[p..p + |e|] == t[p..p + |CharsText(cs)|][..|e|] == e;
      CharIsNoLow(cs[0], t, p);
    }
  }

  lemma QuoteIsNoLow(t: bytes, p: nat)
    requires Peek(t, p) == QUOTE
    ensures NoLowAt(t, p)
  {
  }

  lemma CharIsNoLow(c: Char, t: bytes, p: nat)
    requires CharOk(c) && !IsLow(c)
    requires p + |CharText(c)| <= |t| && t[p..p + |CharText(c)|] == CharText(c)
    ensures NoLowAt(t, p)
  {
    hide Hex4, HexNumber, ESCAPES;
    HexAll();
    var e := CharText(c);
    assert t[p] == e[0];
    match c
    case Plain(b) =>
    case Letter(l) =>
      assert t[p + 1] == e[1];
      EscapesAgree(l);
    case Hex(h) =>
      QuadOf(t, p, e, 2);
  }

  lemma PairedNone()
    ensures Paired([]) && CharsBytes([]) == []
  {
  }

  lemma LoneFails(cs: seq<Char>, pre: bytes, post: bytes)
    requires cs != [] && CharsOk(cs) && IsHigh(cs[0]) && (|cs| == 1 || !IsLow(cs[1]))
    ensures ScanString(pre + CharsText(cs) + [QUOTE] + post, |pre|) == BadStr(StringUnicodeSurrogateInvalid)
  {
    hide NextPiece, Hex4, HexNumber, ESCAPES, IsLow, NoLowAt;
    var e, rest := CharText(cs[0]), CharsText(cs[1..]);
    assert |e| == 6;
    hide CharText, CharsText, IsHigh;
    var t := pre + (e + rest) + [QUOTE] + post;
    PlacedIn(pre, e, rest, post);
    NoLowFollows(cs[1..], t, |pre| + 6);
    LoneReads(cs[0], t, |pre|);
    CharsTextCons(cs);
  }

  lemma PlacedIn(pre: bytes, e: bytes, rest: bytes, post: bytes)
    ensures var t := pre + (e + rest) + [QUOTE] + post;
            var p := |pre| + |e|;
            t[|pre|..p] == e && t[p..p + |rest|] == rest && t[p + |rest|] == QUOTE
  {
  }

  lemma CharsTextCons(cs: seq<Char>)
    requires cs != []
    ensures CharsText(cs) == CharText(cs[0]) + CharsText(cs[1..])
  {
  }

  lemma Prefixes(cs: seq<Char>, t: bytes, p: nat, k: nat)
    requires p + |CharsText(cs)| <= |t| && t[p..p + |CharsText(cs)|] == CharsText(cs)
    requires k <= |cs|
    ensures var n := |CharsText(cs[..k])|;
            && n + |CharsText(cs[k..])| == |CharsText(cs)| && t[p..p + n] == CharsText(cs[..k])
            && t[p + n..p + |CharsText(cs)|] == CharsText(cs[k..])
  {
    hide CharsText;
    assert cs == cs[..k] + cs[k..];
    CharsTextConcat(cs[..k], cs[k..]);
    var n := |CharsText(cs[..k])|;
    assert t[p..p + n] == t[p..p + |CharsText(cs)|][..n];
    assert t[p + n..p + |CharsText(cs)|] == t[p..p + |CharsText(cs)|][n..];
  }

  /** The first character, or the first two, read as their bytes. */
  lemma FirstReads(cs: seq<Char>, t: bytes, p: nat) returns (k: nat, out: bytes)
    requires cs != [] && CharsOk(cs) && Paired(cs)
    requires p + |CharsText(cs)| <= |t| && t[p..p + |CharsText(cs)|] == CharsText(cs)
    ensures 1 <= k <= |cs| && Paired(cs[k..]) && CharsBytes(cs) == out + CharsBytes(cs[k..])
    ensures Peek(t, p) != QUOTE && NextPiece(t, p) == Piece(out, p + |CharsText(cs[..k])|)
  {
    hide CharOk, CharText, CharsText, NextPiece, CharBytes, PairBytes, Paired, IsHigh, IsLow;
    PairedTail(cs);
    if IsHigh(cs[0]) {
      k, out := 2, PairBytes(cs[0], cs[1]);
      Prefixes(cs, t, p, 2);
      assert cs[..2] == [cs[0], cs[1]];
      TwoText(cs[0], cs[1]);
      SixEach(cs[0], cs[1]);
      PairReads(cs[0], cs[1], t, p);
    } else {
      k, out := 1, CharBytes(cs[0]);
      Prefixes(cs, t, p, 1);
      assert cs[..1] == [cs[0]];
      OneText(cs[0]);
      CharReads(cs[0], t, p);
    }
  }

  /** Characters in front of a text, surrogates paired: what the scan of the text gives, with
      their bytes in front. */
  lemma {:induction false} ScanPrefix(cs: seq<Char>, t: bytes, p: nat)
    requires CharsOk(cs) && Paired(cs)
    requires p + |CharsText(cs)| <= |t| && t[p..p + |CharsText(cs)|] == CharsText(cs)
    ensures var r := ScanString(t, p + |CharsText(cs)|);
            ScanString(t, p) == if r.BadStr? then r else StrScan(CharsBytes(cs) + r.str, r.next)
    decreases |cs|
  {
    hide CharOk, CharsText, NextPiece, CharsBytes, Paired;
    if cs == [] {
      NoText();
      PairedNone();
    } else {
      var k, out := FirstReads(cs, t, p);
      Prefixes(cs, t, p, k);
      ScanPrefix(cs[k..], t, p + |CharsText(cs[..k])|);
    }
  }

  lemma SixEach(c: Char, d: Char)
    requires IsHigh(c) && IsLow(d)
    ensures |CharText(c)| == 6 && |CharText(d)| == 6
  {
  }

  lemma FirstLone(cs: seq<Char>) returns (i: nat)
    requires !Paired(cs)
    ensures i < |cs| && Paired(cs[..i]) && IsHigh(cs[i]) && (i + 1 < |cs| ==> !IsLow(cs[i + 1]))
  {
    hide IsHigh, IsLow;
    i := 0;
    while !(IsHigh(cs[i]) && (i + 1 < |cs| ==> !IsLow(cs[i + 1])))
      invariant i < |cs|
      invariant forall j :: 0 <= j < i && IsHigh(cs[j]) ==> IsLow(cs[j + 1])
      decreases |cs| - i
    {
      assert i + 1 < |cs|;
      i := i + 1;
    }
    assert !IsLow(cs[i]) by { HighNotLow(cs[i]); }
  }

  lemma HighNotLow(c: Char)
    ensures !(IsHigh(c) && IsLow(c))
  {
  }

  /** A string of the grammar is accepted if and only if every escaped high surrogate is directly
      followed by an escaped low one, and then read as the bytes it denotes. */
  lemma StringComplete(cs: seq<Char>, pre: bytes, post: bytes)
    requires CharsOk(cs)
    ensures ScanString(pre + CharsText(cs) + [QUOTE] + post, |pre|) ==
              if Paired(cs) then StrScan(CharsBytes(cs), |pre| + |CharsText(cs)| + 1)
              else BadStr(StringUnicodeSurrogateInvalid)
  {
    hide CharsText, CharsBytes, Paired, CharOk, IsHigh, IsLow, NextPiece;
    var t := pre + CharsText(cs) + [QUOTE] + post;
    var p := |pre|;
    assert t[p..p + |CharsText(cs)|] == CharsText(cs);
    if Paired(cs) {
      ScanPrefix(cs, t, p);
      assert t[p + |CharsText(cs)|] == QUOTE;
    } else {
      var i := FirstLone(cs);
      Prefixes(cs, t, p, i);
      ScanPrefix(cs[..i], t, p);
      var q := p + |CharsText(cs[..i])|;
      LoneFails(cs[i..], t[..q], post);
      assert t == t[..q] + CharsText(cs[i..]) + [QUOTE] + post;
    }
  }

  const D800: Char := Hex(Quad(68, 56, 48, 48))

  lemma IsD800()
    ensures HexNumber(D800.h) == Some(0xD800)
  {
    hide Hex4, HexNumber;
    HexAgrees(D800.h);
    FourDigits(13, 8, 0, 0, true, true, true, true);
  }

  /** The grammar has a string that is rejected: one escaped high surrogate and nothing else. */
  lemma LoneSurrogateRejected()
    ensures var cs := [D800];
            && CharsOk(cs) && CharsText(cs) == [BACKSLASH, LOWER_U, 68, 56, 48, 48]
            && ScanString(CharsText(cs) + [QUOTE], 0) == BadStr(StringUnicodeSurrogateInvalid)
  {
    hide ScanString, HexNumber;
    IsD800();
    var cs := [D800];
    OneText(D800);
    LoneFails(cs, [], []);
    assert [] + CharsText(cs) + [QUOTE] + [] == CharsText(cs) + [QUOTE];
  }

  /** The characters of the next piece: one, or the two of a pair. */
  lemma PieceIsChars(t: bytes, p: nat) returns (cs: seq<Char>)
    requires Peek(t, p) != QUOTE && NextPiece(t, p).Piece?
    ensures t[p..NextPiece(t, p).next] == CharsText(cs)
    ensures || (|cs| == 1 && CharOk(cs[0]) && !IsHigh(cs[0]) && NextPiece(t, p).out == CharBytes(cs[0]))
            || (|cs| == 2 && CharOk(cs[0]) && CharOk(cs[1]) && IsHigh(cs[0]) && IsLow(cs[1])
                && NextPiece(t, p).out == PairBytes(cs[0], cs[1]))
  {
    hide UnicodePiece, Hex4, HexNumber, Unescape, ESCAPES, Encode8, QuadAt, PairBytes, CharsText;
    EscapesAgree(Peek(t, p + 1));
    if t[p] != BACKSLASH {
      cs := [Plain(t[p])];
      OneText(cs[0]);
    } else if Unescape(Peek(t, p + 1)) != NUL {
      cs := [Letter(t[p + 1])];
      OneText(cs[0]);
    } else {
      cs := UnicodeIsChars(t, p + 2);
    }
  }

  lemma OneText(c: Char)
    ensures CharsText([c]) == CharText(c)
  {
    assert CharsText([]) == [];
    assert [c][1..] == [];
  }

  lemma TwoText(c: Char, d: Char)
    ensures CharsText([c, d]) == CharText(c) + CharText(d)
  {
    OneText(d);
    assert [c, d][1..] == [d];
  }

  lemma UnicodeIsChars(t: bytes, p: nat) returns (cs: seq<Char>)
    requires 2 <= p <= |t| && t[p - 2] == BACKSLASH && t[p - 1] == LOWER_U
    requires UnicodePiece(t, p).Piece?
    ensures t[p - 2..UnicodePiece(t, p).next] == CharsText(cs)
    ensures || (|cs| == 1 && CharOk(cs[0]) && !IsHigh(cs[0]) && UnicodePiece(t, p).out == CharBytes(cs[0]))
            || (|cs| == 2 && CharOk(cs[0]) && CharOk(cs[1]) && IsHigh(cs[0]) && IsLow(cs[1])
                && UnicodePiece(t, p).out == PairBytes(cs[0], cs[1]))
  {
    hide Encode8, Hex4, HexNumber, CharText, CharsText, QuadAt;
    HexAll();
    var h := QuadAt(t, p);
    HexText(t, p - 2);
    if 0xD800 <= Hex4(h).value <= 0xDBFF {
      HexText(t, p + 4);
      cs := [Hex(h), Hex(QuadAt(t, p + 6))];
      TwoText(cs[0], cs[1]);
      assert t[p - 2..p + 10] == t[p - 2..p + 4] + t[p + 4..p + 10];
    } else {
      cs := [Hex(h)];
      OneText(cs[0]);
    }
  }

  /** The text of an escape is the text of its character. */
  lemma HexText(t: bytes, p: nat)
    ensures p + 6 <= |t| && t[p] == BACKSLASH && t[p + 1] == LOWER_U ==>
              t[p..p + 6] == CharText(Hex(QuadAt(t, p + 2)))
  {
  }

  lemma {:induction false} CharsTextConcat(a: seq<Char>, b: seq<Char>)
    ensures CharsText(a + b) == CharsText(a) + CharsText(b)
    decreases |a|
  {
    hide CharText;
    if a == [] {
      assert [] + b == b;
    } else {
      assert (a + b)[1..] == a[1..] + b;
      CharsTextConcat(a[1..], b);
    }
  }

  /** Only strings of the grammar are accepted, with their surrogates paired. */
  lemma {:induction false} StringSound(t: bytes, p: nat) returns (cs: seq<Char>)
    requires p <= |t| && ScanString(t, p).StrScan?
    ensures CharsOk(cs) && Paired(cs)
    ensures t[p..ScanString(t, p).next] == CharsText(cs) + [QUOTE]
    ensures ScanString(t, p).str == CharsBytes(cs)
    decreases |t| - p
  {
    hide NextPiece, CharText, CharBytes, PairBytes, CharOk, Paired, CharsText, IsHigh, IsLow;
    if Peek(t, p) == QUOTE {
      cs := [];
      PairedNone();
      NoText();
    } else {
      var q := NextPiece(t, p).next;
      var some := PieceIsChars(t, p);
      var rest := StringSound(t, q);
      cs := some + rest;
      CharsTextConcat(some, rest);
      PairedTail(cs);
      assert cs[|some|..] == rest;
      var n := ScanString(t, q).next;
      assert t[p..n] == t[p..q] + t[q..n];
    }
  }

  lemma NoText()
    ensures CharsText([]) == []
  {
  }

  // ---------- what is wrong with a string ----------

  /** The ways in which a string goes wrong after characters of the grammar, and their codes: the
      text ends, a control character, an unknown letter behind a backslash, and no hexadecimal
      digits behind the letter u. */
  lemma StringFaults(cs: seq<Char>, t: bytes, p: nat)
    requires CharsOk(cs) && Paired(cs)
    requires p + |CharsText(cs)| <= |t| && t[p..p + |CharsText(cs)|] == CharsText(cs)
    ensures var q := p + |CharsText(cs)|;
            var r := ScanString(t, p);
            && (Peek(t, q) == 0 ==> r == BadStr(StringMissQuotationMark))
            && (0 < Peek(t, q) < 0x20 ==> r == BadStr(StringEscapeInvalid))
            && (Peek(t, q) == 92 && Peek(t, q + 1) !in ESCAPES && Peek(t, q + 1) != 117 ==>
                  r == BadStr(StringEscapeInvalid))
            && (Peek(t, q) == 92 && Peek(t, q + 1) == 117 && HexNumber(QuadAt(t, q + 2)).None? ==>
                  r == BadStr(StringUnicodeEscapeInvalidHex))
  {
    var q := p + |CharsText(cs)|;
    hide CharsText, CharsBytes, Paired, CharOk, HexNumber, Hex4, ESCAPES, Unescape;
    ScanPrefix(cs, t, p);
    HexAgrees(QuadAt(t, q + 2));
    EscapesAgree(Peek(t, q + 1));
    NoEscapeU();
  }
}
