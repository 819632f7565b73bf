/** The handler interface shared by the two readers, the writers and the document:
    events, handlers and parse error codes. */
module JsonEvents {
  import opened Bytes

  /** `Double` carries what the reader hands to the final scaling: the sign, the double in which
      the digits were collected, and the power of ten. The scaling itself is outside the model. */
  datatype Event =
    | Null
    | Bool(b: bool)
    | Int(i: int)
    | Uint(u: int)
    | Int64(i64: int)
    | Uint64(u64: int)
    | Double(minus: bool, significand: nat, exponent: int)
    | String(str: bytes)
    | StartObject
    | Key(name: bytes)
    | EndObject(memberCount: u32)
    | StartArray
    | EndArray(elementCount: u32)

  predicate IsEnd(e: Event) {
    e.EndObject? || e.EndArray?
  }

  /** A handler sees the events delivered so far, the newest last, and says whether to go on. */
  type Handler = seq<Event> -> bool

  /** The handler that never stops the reader, such as a document. */
  function AcceptAll(): Handler {
    (log: seq<Event>) => true
  }

  datatype ErrorCode =
    | DocumentEmpty
    | DocumentRootNotSingular
    | ValueInvalid
    | ObjectMissName
    | ObjectMissColon
    | ObjectMissCommaOrCurlyBracket
    | ArrayMissCommaOrSquareBracket
    | StringUnicodeEscapeInvalidHex
    | StringUnicodeSurrogateInvalid
    | StringEscapeInvalid
    | StringMissQuotationMark
    | NumberTooBig
    | NumberMissFraction
    | NumberMissExponent
    | Termination
    | UnspecificSyntaxError
    | Undetermined  // not a code of the source: it leaves its memory or the range of an int here

  /** Result of reading one token: the event it stands for and the position after it. */
  datatype Token =
    | Bad(code: ErrorCode)
    | Good(event: Event, next: nat)

  /** Result of a reader: the events delivered, and either the position reached or why it stopped. */
  datatype Outcome =
    | Fail(code: ErrorCode, log: seq<Event>)
    | Done(next: nat, log: seq<Event>)

  /** SizeType arithmetic: member and element counts are 32-bit and wrap. */
  function Inc(c: u32): u32 {
    if c + 1 == U32 then 0 else c + 1
  }
}
