/** GenericReader as it runs: a stream position, a parse result and a stack of bytes that its
    methods update, each proved to do what the reader functions say. */
module JsonReader {
  import opened Bytes
  import opened JsonEvents
  import opened JsonIterative
  import Doubles
  import JsonNumber
  import JsonStack
  import JsonString
  import Utf
  import R = JsonRecursive

  /** What a string scan adds to the bytes already put out. */
  function PutBefore(out: bytes, r: JsonString.StrScan): JsonString.StrScan {
    match r
    case BadStr(code) => r
    case StrScan(rest, n) => JsonString.StrScan(out + rest, n)
  }

  /** The value of the first `n` hexadecimal digits at `p`. */
  function HexFold(t: bytes, p: nat, n: nat): Option<nat> {
    if n == 0 then Some(0)
    else
      var v, d := HexFold(t, p, n - 1), JsonString.HexValue(Peek(t, p + n - 1));
      if v.Some? && d.Some? then Some(v.value * 16 + d.value) else None
  }

  lemma HexFoldIs4(t: bytes, p: nat)
    ensures HexFold(t, p, 4) == JsonString.Hex4(JsonString.QuadAt(t, p))
  {
    assert HexFold(t, p, 1) == JsonString.HexValue(Peek(t, p));
    assert HexFold(t, p, 2).Some? <==>
      JsonString.HexValue(Peek(t, p)).Some? && JsonString.HexValue(Peek(t, p + 1)).Some?;
    assert HexFold(t, p, 3).Some? <==> HexFold(t, p, 2).Some? && JsonString.HexValue(Peek(t, p + 2)).Some?;
  }

  lemma HexFoldBreaks(t: bytes, p: nat, i: nat)
    requires i < 4 && JsonString.HexValue(Peek(t, p + i)) == None
    ensures JsonString.Hex4(JsonString.QuadAt(t, p)) == None
  {
  }

  lemma PutNothing(r: JsonString.StrScan)
    ensures PutBefore([], r) == r
  {
    if r.StrScan? {
      assert [] + r.str == r.str;
    }
  }

  /** One character more of a string of which `out` is known. */
  lemma ScanStep(t: bytes, p: nat, out: bytes)
    requires p <= |t| && Peek(t, p) != QUOTE
    ensures match JsonString.NextPiece(t, p)
            case BadPiece(code) => PutBefore(out, JsonString.ScanString(t, p)) == JsonString.BadStr(code)
            case Piece(c, q) =>
              PutBefore(out, JsonString.ScanString(t, p)) == PutBefore(out + c, JsonString.ScanString(t, q))
  {
    hide JsonString.NextPiece;
    var m := JsonString.NextPiece(t, p);
    if m.Piece? {
      var r := JsonString.ScanString(t, m.next);
      if r.StrScan? {
        assert out + (m.out + r.str) == out + m.out + r.str;
      }
    }
  }

  lemma ScanStops(t: bytes, p: nat, out: bytes)
    requires p <= |t| && Peek(t, p) == QUOTE
    ensures p < |t| && PutBefore(out, JsonString.ScanString(t, p)) == JsonString.StrScan(out, p + 1)
  {
    assert out + [] == out;
  }

  lemma ValueIsToken(t: bytes, p: nat, h: Handler, log: seq<Event>)
    requires p < |t| && t[p] !in {LBRACE, LBRACKET}
    ensures R.ParseValue(t, p, h, log) == R.DeliverToken(h, log, R.ParseToken(t, p))
  {
    hide R.ParseToken;
  }

  lemma IncWraps(n: nat)
    ensures Inc(n % U32) == (n + 1) % U32
  {
  }

  class Reader {
    const text: bytes
    const handler: Handler
    var pos: nat
    var error: Option<ErrorCode>
    var stack: bytes
    var log: seq<Event>

    constructor (t: bytes, h: Handler)
      ensures text == t && handler == h && pos == 0 && error == None && stack == [] && log == []
    {
      text, handler := t, h;
      pos, error, stack, log := 0, None, [], [];
    }

    /** The reader is on the text and no error has been set. */
    ghost predicate Ready()
      reads this
    {
      pos <= |text| && error == None
    }

    /** The reader stands where an outcome says. */
    ghost predicate Is(o: Outcome)
      reads this
    {
      match o
      case Fail(code, l) => error == Some(code) && log == l
      case Done(q, l) => error == None && pos == q <= |text| && log == l
    }

    method SkipWhitespace()
      requires Ready()
      modifies `pos
      ensures Ready() && pos == SkipSpace(text, old(pos))
    {
      while IsSpace(Peek(text, pos))
        modifies `pos
        invariant pos <= |text| && SkipSpace(text, pos) == SkipSpace(text, old(pos))
        decreases |text| - pos
      {
        pos := pos + 1;
      }
    }

    /** Hands an event over; the handler's answer decides whether to go on. */
    method Call(e: Event)
      requires Ready()
      modifies `error, `log
      ensures pos <= |text| && Is(R.Deliver(handler, old(log), e, pos))
    {
      log := log + [e];
      if !handler(log) {
        error := Some(Termination);
      }
    }

    method ParseWord(word: bytes, e: Event)
      requires Ready() && |word| > 0 && Peek(text, pos) == word[0] && NUL !in word
      modifies `pos, `error, `log
      ensures Is(R.DeliverToken(handler, old(log), R.ParseWord(text, old(pos), word, e)))
    {
      ghost var start := pos;
      var i := 0;
      while i < |word| && Peek(text, pos) == word[i]
        modifies `pos
        invariant i <= |word| && pos == start + i <= |text|
        invariant text[start..pos] == word[..i]
      {
        assert text[start..pos + 1] == text[start..pos] + [text[pos]];
        i, pos := i + 1, pos + 1;
      }
      if i == |word| {
        Call(e);
      } else {
        assert start + |word| <= |text| ==> text[start..start + |word|][i] != word[i];
        error := Some(ValueInvalid);
      }
    }

    // ---------- strings ----------

    method ParseHex4() returns (codepoint: nat)
      requires Ready()
      modifies `pos, `error
      ensures var r := JsonString.Hex4(JsonString.QuadAt(text, old(pos)));
              match r
              case Some(v) => Ready() && codepoint == v && pos == old(pos) + 4
              case None => error == Some(StringUnicodeEscapeInvalidHex)
    {
      ghost var start := pos;
      var i;
      i, codepoint := 0, 0;
      while i < 4
        modifies `pos, `error
        invariant i <= 4 && pos == start + i <= |text| && error == None
        invariant HexFold(text, start, i) == Some(codepoint)
      {
        var c := Peek(text, pos);
        if DIGIT0 <= c <= DIGIT9 {
          codepoint := codepoint * 16 + c - DIGIT0;
        } else if 65 <= c <= 70 {
          codepoint := codepoint * 16 + c - (65 - 10);
        } else if 97 <= c <= 102 {
          codepoint := codepoint * 16 + c - (97 - 10);
        } else {
          error := Some(StringUnicodeEscapeInvalidHex);
          HexFoldBreaks(text, start, i);
          return;
        }
        pos, i := pos + 1, i + 1;
      }
      HexFoldIs4(text, start);
    }

    /** The branch for a `\u` escape, after the letter; `out` is what it puts. */
    method ParseUnicode() returns (out: bytes)
      requires Ready()
      modifies `pos, `error
      ensures match JsonString.UnicodePiece(text, old(pos))
              case BadPiece(code) => error == Some(code)
              case Piece(b, q) => error == None && out == b && pos == q <= |text|
    {
      out := [];
      var codepoint := ParseHex4();
      if error != None {
        return;
      }
      if 0xD800 <= codepoint <= 0xDBFF {
        if Peek(text, pos) != BACKSLASH || Peek(text, pos + 1) != LOWER_U {
          error := Some(StringUnicodeSurrogateInvalid);
          return;
        }
        pos := pos + 2;
        var second := ParseHex4();
        if error != None {
          return;
        }
        if second < 0xDC00 || second > 0xDFFF {
          error := Some(StringUnicodeSurrogateInvalid);
          return;
        }
        codepoint := (codepoint - 0xD800) * 1024 + (second - 0xDC00) + 0x10000;
      }
      out := Utf.Encode8(codepoint);
    }

    /** One character, escaped or not. */
    method ParseChar() returns (out: bytes)
      requires Ready() && Peek(text, pos) != QUOTE
      modifies `pos, `error
      ensures match JsonString.NextPiece(text, old(pos))
              case BadPiece(code) => error == Some(code)
              case Piece(b, q) => error == None && out == b && pos == q <= |text|
    {
      hide JsonString.UnicodePiece;
      out := [];
      var c := Peek(text, pos);
      if c == BACKSLASH {
        var e := Peek(text, pos + 1);
        if JsonString.Unescape(e) != NUL {
          out := [JsonString.Unescape(e)];
          pos := pos + 2;
        } else if e == LOWER_U {
          pos := pos + 2;
          out := ParseUnicode();
        } else {
          error := Some(StringEscapeInvalid);
        }
      } else if c == NUL {
        error := Some(StringMissQuotationMark);
      } else if c < 0x20 {
        error := Some(StringEscapeInvalid);
      } else {
        out := [c];
        pos := pos + 1;
      }
    }

    /** StackStream::Put for each byte: the bytes go on the stack and are counted in 32 bits. */
    method Put(c: bytes, length: u32, ghost n: nat) returns (count: u32)
      requires length == n % U32
      modifies `stack
      ensures stack == old(stack) + c && count == (n + |c|) % U32
    {
      hide Inc;
      count := length;
      var i := 0;
      while i < |c|
        modifies `stack
        invariant i <= |c| && stack == old(stack) + c[..i] && count == (n + i) % U32
      {
        stack := stack + [c[i]];
        IncWraps(n + i);
        count := Inc(count);
        i := i + 1;
      }
    }

    /** The characters of a string, up to its closing quote. */
    method PutChars() returns (length: u32, ghost out: bytes)
      requires Ready()
      modifies `pos, `error, `stack
      ensures var r := JsonString.ScanString(text, old(pos));
              match error
              case Some(code) => r == JsonString.BadStr(code)
              case None =>
                && pos < |text| && text[pos] == QUOTE && r == JsonString.StrScan(out, pos + 1)
                && stack == old(stack) + out && length == |out| % U32
    {
      hide JsonString.NextPiece, JsonString.ScanString, PutBefore;
      length, out := 0, [];
      PutNothing(JsonString.ScanString(text, pos));
      while Peek(text, pos) != QUOTE
        modifies `pos, `error, `stack
        invariant Ready() && stack == old(stack) + out && length == |out| % U32
        invariant JsonString.ScanString(text, old(pos)) == PutBefore(out, JsonString.ScanString(text, pos))
        decreases |text| - pos
      {
        ScanStep(text, pos, out);
        var c := ParseChar();
        if error != None {
          return;
        }
        length := Put(c, length, |out|);
        out := out + c;
      }
      ScanStops(text, pos, out);
    }

    /** Decodes a string onto the stack and puts a terminator. */
    method ParseStringToStream() returns (length: u32)
      requires Ready() && Peek(text, pos) == QUOTE
      modifies `pos, `error, `stack
      ensures match JsonString.ScanString(text, old(pos) + 1)
              case BadStr(code) => error == Some(code)
              case StrScan(s, q) =>
                error == None && pos == q <= |text| && stack == old(stack) + s + [NUL]
                && length == JsonString.PutLength(s)
    {
      hide JsonString.ScanString;
      pos := pos + 1;
      ghost var out;
      length, out := PutChars();
      if error == None {
        pos := pos + 1;
        length := Put([NUL], length, |out|);
      }
    }

    /** Pops `length` bytes and takes all of them but the terminator. */
    method PopString(length: u32, ghost base: bytes, ghost s: bytes) returns (str: bytes)
      requires stack == base + s + [NUL] && length == JsonString.PutLength(s) && length > 0
      modifies `stack
      ensures str == JsonString.HandedOver(s) && stack == base + JsonString.Litter(s)
    {
      var top := |stack| - length;
      assert stack == base + (s + [NUL]);
      str := stack[top..top + length - 1];
      stack := stack[..top];
    }

    method ParseString(isKey: bool)
      requires Ready() && Peek(text, pos) == QUOTE
      modifies `pos, `error, `stack, `log
      ensures Is(R.DeliverToken(handler, old(log), R.ParseString(text, old(pos), isKey)))
      ensures error == None ==> stack == old(stack) + JsonStack.Residue(text, old(pos))
    {
      hide JsonString.ScanString, JsonString.HandedOver, JsonString.Litter, JsonString.PutLength;
      var length := ParseStringToStream();
      if error == None && length == 0 {
        error := Some(Undetermined);
      } else if error == None {
        var str := PopString(length, old(stack), JsonString.ScanString(text, old(pos) + 1).str);
        Call(if isKey then Key(str) else String(str));
      }
    }

    // ---------- numbers ----------

    /** One of the four accumulating loops of the integer part. */
    method ScanInt(i0: nat, limit: nat, last: nat) returns (i: nat, full: bool)
      requires Ready()
      modifies `pos
      ensures var r := JsonNumber.ScanInt(text, old(pos), i0, limit, last);
              i == r.value && pos == r.next && full == r.full
    {
      i, full := i0, false;
      while JsonNumber.IsDigitAt(text, pos)
        modifies `pos
        invariant pos <= |text|
        invariant JsonNumber.ScanInt(text, pos, i, limit, last) == JsonNumber.ScanInt(text, old(pos), i0, limit, last)
        decreases |text| - pos
      {
        if i >= limit {
          if i != limit || Peek(text, pos) > DIGIT0 + last {
            full := true;
            return;
          }
        }
        i := i * 10 + (Peek(text, pos) - DIGIT0);
        pos := pos + 1;
      }
    }

    /** The loop for integers beyond 64 bits. */
    method ScanBig(d0: nat) returns (d: nat)
      requires Ready()
      modifies `pos, `error
      ensures match JsonNumber.ScanBig(text, old(pos), d0)
              case TooBig => error == Some(NumberTooBig)
              case BigScan(v, q) => error == None && d == v && pos == q
    {
      hide JsonNumber.DBL_MAX_10, Doubles.Append;
      d := d0;
      while JsonNumber.IsDigitAt(text, pos)
        modifies `pos, `error
        invariant Ready()
        invariant JsonNumber.ScanBig(text, pos, d) == JsonNumber.ScanBig(text, old(pos), d0)
        decreases |text| - pos
      {
        if d >= JsonNumber.DBL_MAX_10 {
          error := Some(NumberTooBig);
          return;
        }
        d := Doubles.Append(d, Peek(text, pos) - DIGIT0);
        pos := pos + 1;
      }
    }

    method ParseInt(minus: bool) returns (held: JsonNumber.Held, significandDigit: nat)
      requires Ready()
      modifies `pos, `error
      ensures match JsonNumber.ParseInt(text, old(pos), minus)
              case IntBad(code) => error == Some(code)
              case IntPart(v, q, n) => error == None && held == v && pos == q && significandDigit == n
    {
      hide JsonNumber.ScanInt, JsonNumber.ScanBig, Doubles.Round;
      held, significandDigit := JsonNumber.Small(0), 0;
      if Peek(text, pos) == DIGIT0 {
        pos := pos + 1;
      } else if JsonNumber.IsDigitAt(text, pos) {
        var first := pos + 1;
        var d := Peek(text, pos) - DIGIT0;
        pos := pos + 1;
        var i, full := ScanInt(d, JsonNumber.Limit32(minus), JsonNumber.Last(minus));
        held, significandDigit := JsonNumber.Small(i), pos - first;
        if full {
          i, full := ScanInt(i, JsonNumber.Limit64(minus), JsonNumber.Last(minus));
          held, significandDigit := JsonNumber.Wide(i), pos - first;
          if full {
            var big := ScanBig(Doubles.Round(i));
            held := JsonNumber.Big(big);
          }
        }
      } else {
        error := Some(ValueInvalid);
      }
    }

    /** The two loops over the digits of a fraction. */
    method ParseFrac(held: JsonNumber.Held, sig: nat) returns (d: nat, expFrac: int)
      requires Ready()
      modifies `pos
      ensures var r := JsonNumber.ParseFrac(text, old(pos), held, sig);
              d == r.d && pos == r.next && expFrac == r.expFrac
    {
      hide Doubles.Round;
      var significandDigit := sig;
      expFrac := 0;
      if held.Big? {
        d := held.d;
      } else {
        var first: nat := if held.Small? then held.i else held.i64;
        var i64: nat := first;
        while JsonNumber.IsDigitAt(text, pos) && i64 <= JsonNumber.FAST
          modifies `pos
          invariant pos <= |text|
          invariant JsonNumber.ScanFracFast(text, pos, i64, expFrac, significandDigit)
                 == JsonNumber.ScanFracFast(text, old(pos), first, 0, sig)
          decreases |text| - pos
        {
          i64 := i64 * 10 + (Peek(text, pos) - DIGIT0);
          pos, expFrac := pos + 1, expFrac - 1;
          if i64 != 0 {
            significandDigit := significandDigit + 1;
          }
        }
        d := Doubles.Round(i64);
      }
      d, expFrac := ScanFrac(d, expFrac, significandDigit);
    }

    method ScanFrac(d0: nat, e0: int, sig: nat) returns (d: nat, expFrac: int)
      requires Ready()
      modifies `pos
      ensures var r := JsonNumber.ScanFracSlow(text, old(pos), d0, e0, sig);
              d == r.d && pos == r.next && expFrac == r.expFrac
    {
      hide Doubles.Append;
      d, expFrac := d0, e0;
      var significandDigit := sig;
      while JsonNumber.IsDigitAt(text, pos)
        modifies `pos
        invariant pos <= |text|
        invariant JsonNumber.ScanFracSlow(text, pos, d, expFrac, significandDigit)
               == JsonNumber.ScanFracSlow(text, old(pos), d0, e0, sig)
        decreases |text| - pos
      {
        if significandDigit < 17 {
          d := Doubles.Append(d, Peek(text, pos) - DIGIT0);
          expFrac := expFrac - 1;
          if d > 0 {
            significandDigit := significandDigit + 1;
          }
        }
        pos := pos + 1;
      }
    }

    method SkipDigits()
      requires Ready()
      modifies `pos
      ensures pos == JsonNumber.DigitsEnd(text, old(pos))
    {
      while JsonNumber.IsDigitAt(text, pos)
        modifies `pos
        invariant pos <= |text| && JsonNumber.DigitsEnd(text, pos) == JsonNumber.DigitsEnd(text, old(pos))
        decreases |text| - pos
      {
        pos := pos + 1;
      }
    }

    /** The digits of a negative exponent: past a limit they are consumed but not counted. */
    method ScanExpMinus(e0: nat) returns (exp: nat)
      requires Ready()
      modifies `pos
      ensures var r := JsonNumber.ScanExpMinus(text, old(pos), e0);
              r.exp == -(exp as int) && pos == r.next
    {
      exp := e0;
      ghost var whole := JsonNumber.ScanExpMinus(text, pos, e0);
      ghost var capped := false;
      while JsonNumber.IsDigitAt(text, pos)
        modifies `pos
        invariant pos <= |text|
        invariant if capped then whole == JsonNumber.ExpScan(-(exp as int), pos) && !JsonNumber.IsDigitAt(text, pos)
                  else whole == JsonNumber.ScanExpMinus(text, pos, exp)
        decreases |text| - pos
      {
        exp := exp * 10 + (Peek(text, pos) - DIGIT0);
        pos := pos + 1;
        if exp >= JsonNumber.LIMIT_INT {
          SkipDigits();
          capped := true;
        }
      }
    }

    method ScanExpPlus(e0: nat, maxExp: int) returns (exp: nat)
      requires Ready()
      modifies `pos, `error
      ensures match JsonNumber.ScanExpPlus(text, old(pos), e0, maxExp)
              case ExpBad(code) => error == Some(code)
              case ExpScan(e, q) => error == None && exp == e && pos == q
    {
      exp := e0;
      while JsonNumber.IsDigitAt(text, pos)
        modifies `pos, `error
        invariant Ready()
        invariant JsonNumber.ScanExpPlus(text, pos, exp, maxExp) == JsonNumber.ScanExpPlus(text, old(pos), e0, maxExp)
        decreases |text| - pos
      {
        exp := exp * 10 + (Peek(text, pos) - DIGIT0);
        pos := pos + 1;
        if exp > JsonNumber.INT_MAX {
          error := Some(Undetermined);
          return;
        }
        if exp > maxExp {
          error := Some(NumberTooBig);
          return;
        }
      }
    }

    method ParseExp(expFrac: int) returns (exp: int)
      requires Ready()
      modifies `pos, `error
      ensures match JsonNumber.ParseExp(text, old(pos), expFrac)
              case ExpBad(code) => error == Some(code)
              case ExpScan(e, q) => error == None && exp == e && pos == q
    {
      hide JsonNumber.ScanExpMinus, JsonNumber.ScanExpPlus;
      var expMinus := false;
      exp := 0;
      if Peek(text, pos) == PLUS {
        pos := pos + 1;
      } else if Peek(text, pos) == MINUS {
        pos, expMinus := pos + 1, true;
      }
      if JsonNumber.IsDigitAt(text, pos) {
        var first := Peek(text, pos) - DIGIT0;
        pos := pos + 1;
        if expMinus {
          exp := ScanExpMinus(first);
          exp := -exp;
        } else if 308 - expFrac > JsonNumber.INT_MAX {
          error := Some(Undetermined);
        } else {
          exp := ScanExpPlus(first, 308 - expFrac);
        }
      } else {
        error := Some(NumberMissExponent);
      }
    }

    method ParseNumber()
      requires Ready()
      modifies `pos, `error, `log
      ensures Is(R.DeliverToken(handler, old(log), JsonNumber.ParseNumber(text, old(pos))))
    {
      hide JsonNumber.ParseInt, JsonNumber.ParseFrac, JsonNumber.ParseExp;
      var minus := false;
      if Peek(text, pos) == MINUS {
        minus, pos := true, pos + 1;
      }
      var held, sig := ParseInt(minus);
      if error != None {
        return;
      }
      if Peek(text, pos) == DOT {
        pos := pos + 1;
        if !JsonNumber.IsDigitAt(text, pos) {
          error := Some(NumberMissFraction);
          return;
        }
        var d, expFrac := ParseFrac(held, sig);
        FinishReal(minus, d, expFrac);
      } else if Peek(text, pos) == LOWER_E || Peek(text, pos) == UPPER_E {
        FinishReal(minus, JsonNumber.HeldDouble(held), 0);
      } else {
        match held
        case Small(i) => Call(if minus then Int(-(i as int)) else Uint(i));
        case Wide(i) => Call(if minus then Int64(-(i as int)) else Uint64(i));
        case Big(d) => Call(Double(minus, d, 0));
      }
    }

    /** The optional exponent and the event of a number known to be a double. */
    method FinishReal(minus: bool, d: nat, expFrac: int)
      requires Ready()
      modifies `pos, `error, `log
      ensures Is(R.DeliverToken(handler, old(log), JsonNumber.FinishReal(text, old(pos), minus, d, expFrac)))
    {
      hide JsonNumber.ParseExp;
      if expFrac < JsonNumber.INT_MIN {
        error := Some(Undetermined);
        return;
      }
      var exp := 0;
      if Peek(text, pos) == LOWER_E || Peek(text, pos) == UPPER_E {
        pos := pos + 1;
        exp := ParseExp(expFrac);
        if error != None {
          return;
        }
      }
      if exp + expFrac < JsonNumber.INT_MIN {
        error := Some(Undetermined);
        return;
      }
      Call(Double(minus, d, exp + expFrac));
    }

    // ---------- recursive descent ----------

    method ParseValue()
      requires Ready()
      modifies `pos, `error, `stack, `log
      ensures Is(R.ParseValue(text, old(pos), handler, old(log)))
      ensures old(pos) < |text| && text[old(pos)] !in {LBRACE, LBRACKET} && error == None ==>
                stack == old(stack) + JsonStack.Residue(text, old(pos))
      decreases |text| - pos, 1
    {
      hide JsonString.ScanString, JsonNumber.ParseNumber, R.ParseString, R.ParseWord, R.ParseObject, R.ParseArray;
      var b := Peek(text, pos);
      if b == LOWER_N {
        ParseWord(R.WORD_NULL, Null);
      } else if b == LOWER_T {
        ParseWord(R.WORD_TRUE, Bool(true));
      } else if b == LOWER_F {
        ParseWord(R.WORD_FALSE, Bool(false));
      } else if b == QUOTE {
        ParseString(false);
      } else if b == LBRACE {
        ParseObject();
      } else if b == LBRACKET {
        ParseArray();
      } else {
        ParseNumber();
      }
    }

    method ParseObject()
      requires Ready() && Peek(text, pos) == LBRACE
      modifies `pos, `error, `stack, `log
      ensures Is(R.ParseObject(text, old(pos), handler, old(log)))
      decreases |text| - pos, 0
    {
      hide R.ParseMembers, SkipSpace;
      pos := pos + 1;
      Call(StartObject);
      if error != None {
        return;
      }
      SkipWhitespace();
      if Peek(text, pos) == RBRACE {
        pos := pos + 1;
        Call(EndObject(0));
        return;
      }
      ParseMembers();
    }

    /** The loop of ParseObject. */
    method ParseMembers()
      requires Ready()
      modifies `pos, `error, `stack, `log
      ensures Is(R.ParseMembers(text, old(pos), handler, old(log), 0))
      decreases |text| - pos, 1
    {
      hide SkipSpace, R.ParseString, R.ParseMembers;
      ghost var whole := R.ParseMembers(text, pos, handler, log, 0);
      var memberCount: u32 := 0;
      var more := true;
      while more
        modifies `pos, `error, `stack, `log
        invariant more ==> Ready() && old(pos) <= pos && R.ParseMembers(text, pos, handler, log, memberCount) == whole
        invariant !more ==> Is(whole)
        decreases if more then 1 else 0, |text| - pos
      {
        more := ParseMember(memberCount);
        memberCount := Inc(memberCount);
      }
    }

    /** One turn of that loop. */
    method ParseMember(memberCount: u32) returns (more: bool)
      requires Ready()
      modifies `pos, `error, `stack, `log
      ensures var whole := R.ParseMembers(text, old(pos), handler, old(log), memberCount);
              if more then
                Ready() && old(pos) < pos && R.ParseMembers(text, pos, handler, log, Inc(memberCount)) == whole
              else Is(whole)
      decreases |text| - pos, 0
    {
      hide SkipSpace, R.ParseString, R.ParseValue;
      more := false;
      if Peek(text, pos) != QUOTE {
        error := Some(ObjectMissName);
        return;
      }
      ParseString(true);
      if error != None {
        return;
      }
      more := AfterKey(memberCount);
    }

    /** The colon, the value and what follows it. */
    method AfterKey(memberCount: u32) returns (more: bool)
      requires Ready()
      modifies `pos, `error, `stack, `log
      ensures var whole := R.AfterKey(text, old(pos), handler, old(log), memberCount);
              if more then
                Ready() && old(pos) < pos && R.ParseMembers(text, pos, handler, log, Inc(memberCount)) == whole
              else Is(whole)
      decreases |text| - pos, 0
    {
      hide SkipSpace, R.ParseMembers, R.ParseValue, Inc;
      more := false;
      SkipWhitespace();
      if Peek(text, pos) != COLON {
        error := Some(ObjectMissColon);
        return;
      }
      pos := pos + 1;
      SkipWhitespace();
      ParseValue();
      if error != None {
        return;
      }
      SkipWhitespace();
      if Peek(text, pos) == COMMA {
        pos := pos + 1;
        SkipWhitespace();
        more := true;
      } else if Peek(text, pos) == RBRACE {
        pos := pos + 1;
        Call(EndObject(Inc(memberCount)));
      } else {
        error := Some(ObjectMissCommaOrCurlyBracket);
      }
    }

    method ParseArray()
      requires Ready() && Peek(text, pos) == LBRACKET
      modifies `pos, `error, `stack, `log
      ensures Is(R.ParseArray(text, old(pos), handler, old(log)))
      decreases |text| - pos, 0
    {
      hide R.ParseElements, SkipSpace;
      pos := pos + 1;
      Call(StartArray);
      if error != None {
        return;
      }
      SkipWhitespace();
      if Peek(text, pos) == RBRACKET {
        pos := pos + 1;
        Call(EndArray(0));
        return;
      }
      ParseElements();
    }

    /** The loop of ParseArray. */
    method ParseElements()
      requires Ready()
      modifies `pos, `error, `stack, `log
      ensures Is(R.ParseElements(text, old(pos), handler, old(log), 0))
      decreases |text| - pos, 3
    {
      hide R.ParseElements;
      ghost var whole := R.ParseElements(text, pos, handler, log, 0);
      var elementCount: u32 := 0;
      var more := true;
      while more
        modifies `pos, `error, `stack, `log
        invariant more ==> Ready() && old(pos) <= pos && R.ParseElements(text, pos, handler, log, elementCount) == whole
        invariant !more ==> Is(whole)
        decreases if more then 1 else 0, |text| - pos
      {
        more := ParseElement(elementCount);
        elementCount := Inc(elementCount);
      }
    }

    /** One turn of that loop. */
    method ParseElement(elementCount: u32) returns (more: bool)
      requires Ready()
      modifies `pos, `error, `stack, `log
      ensures var whole := R.ParseElements(text, old(pos), handler, old(log), elementCount);
              if more then
                Ready() && old(pos) < pos && R.ParseElements(text, pos, handler, log, Inc(elementCount)) == whole
              else Is(whole)
      decreases |text| - pos, 2
    {
      hide SkipSpace, R.ParseValue;
      more := false;
      ParseValue();
      if error != None {
        return;
      }
      SkipWhitespace();
      if Peek(text, pos) == COMMA {
        pos := pos + 1;
        SkipWhitespace();
        more := true;
      } else if Peek(text, pos) == RBRACKET {
        pos := pos + 1;
        Call(EndArray(Inc(elementCount)));
      } else {
        error := Some(ArrayMissCommaOrSquareBracket);
      }
    }

    /** Parse; its ClearStackOnExit empties the stack whatever happened. */
    method Parse()
      requires pos == 0 && log == []
      modifies this
      ensures Is(R.Parse(text, handler)) && stack == []
    {
      ParseRoot();
      stack := [];
    }

    method ParseRoot()
      requires pos == 0 && log == []
      modifies this
      ensures Is(R.Parse(text, handler))
    {
      hide R.ParseValue, SkipSpace;
      error := None;
      SkipWhitespace();
      if Peek(text, pos) == NUL {
        error := Some(DocumentEmpty);
        return;
      }
      ParseValue();
      if error != None {
        return;
      }
      SkipWhitespace();
      if Peek(text, pos) != NUL {
        error := Some(DocumentRootNotSingular);
      }
    }

    // ---------- the table-driven loop ----------

    ghost function At(state: State): JsonStack.Spot
      reads this
    {
      JsonStack.Spot(state, pos, stack, log)
    }

    /** Whether the reader did what a turn of the loop says. An error whose code is still to be
        chosen leaves `error` alone. */
    ghost predicate Did(m: JsonStack.Turn, src: State, state: State)
      reads this
    {
      match m
      case Halted(code, l) =>
        state == ErrorState && log == l
        && (error == Some(code) || (error == None && code == HandleError(src)))
      case Turned(c) =>
        state == c.state != ErrorState && error == None && pos == c.pos && stack == c.stack && log == c.log
    }

    method TransitOpen(src: State, dst: State) returns (state: State)
      requires Ready() && pos < |text| && dst in {ObjectInitialState, ArrayInitialState}
      modifies `pos, `error, `stack, `log
      ensures var e := if dst == ObjectInitialState then StartObject else StartArray;
              var o := R.Deliver(handler, old(log), e, old(pos) + 1);
              Did(JsonStack.TurnTo(o, dst, old(stack) + JsonStack.FrameBytes(Frame(Back(src), 0))), src, state)
    {
      hide WordBytes, JsonStack.StateCode;
      var n := src;
      if src == ArrayInitialState || src == ElementDelimiterState {
        n := ElementState;
      } else if src == KeyValueDelimiterState {
        n := MemberValueState;
      }
      stack := stack + WordBytes(JsonStack.StateCode(n));
      stack := stack + WordBytes(0);
      assert stack == old(stack) + JsonStack.FrameBytes(Frame(Back(src), 0));
      Call(if dst == ObjectInitialState then StartObject else StartArray);
      if error != None {
        return ErrorState;
      }
      pos := pos + 1;
      return dst;
    }

    /** Stack::Pop of one word. */
    method PopWord() returns (w: u32)
      requires |stack| >= 4
      modifies `stack
      ensures w == JsonStack.WordBelow(old(stack), 0) && stack == old(stack)[..|old(stack)| - 4]
    {
      w := BytesWord(stack[|stack| - 4..]);
      assert stack[|stack| - 4..] == stack[|stack| - 4..|stack|];
      stack := stack[..|stack| - 4];
    }

    /** The count and the state of the top frame. */
    method PopFrame() returns (c: u32, n: u32)
      requires |stack| >= 8
      modifies `stack
      ensures c == JsonStack.WordBelow(old(stack), 0) && n == JsonStack.WordBelow(old(stack), 4)
      ensures stack == old(stack)[..|old(stack)| - 8]
    {
      hide BytesWord;
      c := PopWord();
      ghost var b := old(stack);
      assert stack[|stack| - 4..|stack|] == b[|b| - 8..|b| - 4];
      n := PopWord();
    }

    method TransitClose(src: State, isObject: bool) returns (state: State)
      requires Ready() && pos < |text|
      modifies `pos, `error, `stack, `log
      ensures var full := if isObject then MemberValueState else ElementState;
              Did(JsonStack.Close(handler, old(At(src)), full, isObject), src, state)
    {
      hide JsonStack.WordBelow, HandleError, Inc, JsonStack.STATES;
      state := ErrorState;
      if |stack| < 8 {
        error := Some(Undetermined);
        return;
      }
      var c, n := PopFrame();
      if src == (if isObject then MemberValueState else ElementState) {
        c := Inc(c);
      }
      Call(if isObject then EndObject(c) else EndArray(c));
      if error == None {
        state := Resume(n);
      }
    }

    /** Goes on in the state of a popped word. */
    method Resume(n: u32) returns (state: State)
      requires Ready()
      modifies `pos, `error
      ensures if n >= |JsonStack.STATES| then error == Some(Undetermined) && state == ErrorState
              else && error == None && pos == old(pos) + 1
                   && state == if JsonStack.STATES[n] == StartState then FinishState else JsonStack.STATES[n]
    {
      hide JsonStack.STATES;
      if n >= |JsonStack.STATES| {
        error := Some(Undetermined);
        return ErrorState;
      }
      pos := pos + 1;
      state := JsonStack.STATES[n];
      if state == StartState {
        state := FinishState;
      }
    }

    /** A value that is not a container. */
    method TransitValue(src: State, next: State) returns (state: State)
      requires Ready() && pos < |text| && text[pos] !in {LBRACE, LBRACKET} && next != ErrorState
      modifies `pos, `error, `stack, `log
      ensures var o := R.DeliverToken(handler, old(log), R.ParseToken(text, old(pos)));
              Did(JsonStack.TurnTo(o, next, old(stack) + JsonStack.Residue(text, old(pos))), src, state)
    {
      hide R.ParseToken, R.ParseValue, JsonStack.Residue, HandleError;
      ValueIsToken(text, pos, handler, log);
      ParseValue();
      if error != None {
        return ErrorState;
      }
      return next;
    }

    /** A comma counts up the word on top of the stack. */
    method TransitComma(src: State, dst: State) returns (state: State)
      requires Ready() && pos < |text| && dst != ErrorState
      modifies `pos, `error, `stack
      ensures Did(JsonStack.Count(old(At(src)), dst), src, state)
    {
      hide BytesWord, WordBytes, HandleError, Inc;
      if |stack| < 4 {
        error := Some(Undetermined);
        return ErrorState;
      }
      var n := |stack| - 4;
      assert stack[n..] == stack[n..|stack|];
      stack := stack[..n] + WordBytes(Inc(BytesWord(stack[n..])));
      pos := pos + 1;
      return dst;
    }

    method Transit(src: State, dst: State) returns (state: State)
      requires Ready() && pos < |text|
      requires dst == Predict(src, Tokenize(text[pos]))
      modifies `pos, `error, `stack, `log
      ensures Did(JsonStack.Turning(text, handler, old(At(src)), dst), src, state)
    {
      hide R.ParseToken, R.ParseString, JsonStack.Close, JsonStack.Count, JsonStack.FrameBytes, JsonStack.Residue;
      hide Predict, Tokenize, HandleError;
      JsonStack.PredictKey(src, text[pos]);
      JsonStack.PredictValue(src, text[pos]);
      PredictFrom(src, Tokenize(text[pos]));
      if dst == ErrorState {
        state := dst;
      } else if dst == ObjectInitialState || dst == ArrayInitialState {
        state := TransitOpen(src, dst);
      } else if dst == MemberKeyState {
        ParseString(true);
        state := if error != None then ErrorState else dst;
      } else if dst == KeyValueDelimiterState {
        pos := pos + 1;
        state := dst;
      } else if dst == MemberValueState || dst == ElementState {
        state := TransitValue(src, dst);
      } else if dst == MemberDelimiterState || dst == ElementDelimiterState {
        state := TransitComma(src, dst);
      } else if dst == ObjectFinishState || dst == ArrayFinishState {
        state := TransitClose(src, dst == ObjectFinishState);
      } else {
        state := TransitValue(src, FinishState);
      }
    }

    /** Parse with kParseIterativeFlag, on a stack that is empty before and after. */
    method IterativeParse()
      requires pos == 0 && log == [] && stack == []
      modifies this
      ensures Is(JsonStack.IterativeParse(text, handler)) && stack == []
    {
      RunTable();
      stack := [];
    }

    method RunTable()
      requires pos == 0 && log == [] && stack == []
      modifies this
      ensures Is(JsonStack.IterativeParse(text, handler))
    {
      hide SkipSpace, JsonStack.Turning;
      error := None;
      var state := StartState;
      ghost var whole := JsonStack.IterativeParse(text, handler);
      SkipWhitespace();
      SkipSpaceIdem(text, 0);
      while Peek(text, pos) != NUL
        modifies `pos, `error, `stack, `log
        invariant Ready() && SkipSpace(text, pos) == pos
        invariant JsonStack.RunFrom(text, handler, At(state)) == whole
        decreases |text| - pos
      {
        JsonStack.TurnAdvances(text, handler, At(state));
        var n := Predict(state, Tokenize(text[pos]));
        var d := Transit(state, n);
        if d == ErrorState {
          if error == None {
            error := Some(HandleError(state));
          }
          return;
        }
        state := d;
        ghost var here := At(state);
        SkipWhitespace();
        SkipSpaceIdem(text, here.pos);
      }
      if state != FinishState {
        error := Some(HandleError(state));
      }
    }
  }
}
