/**
 What the reader, the writer and the document agree on: SAX events, parse errors, parse flags,
 and the outcome of a parsing step.
 */
module JsonTypes {
  import opened Bytes

  /** SizeType is a 32-bit unsigned integer: counts wrap. */
  const SIZE_TYPE := 0x1_0000_0000

  function Increment(count: nat): nat {
    (count + 1) % SIZE_TYPE
  }

  /** Calls of the Handler concept. The text of a double stands for its value, which is not modelled. */
  datatype Event =
    | Null
    | Bool(b: bool)
    | Int(i: int)
    | Uint(u: int)
    | Int64(i64: int)
    | Uint64(u64: int)
    | Double(lexeme: Text)
    | RawNumber(lexeme: Text)
    | String(str: Text)
    | StartObject
    | Key(str: Text)
    | EndObject(memberCount: nat)
    | StartArray
    | EndArray(elementCount: nat)

  datatype ErrorCode =
    | DocumentEmpty
    | DocumentRootNotSingular
    | ValueInvalid
    | ObjectMissName
    | ObjectMissColon
    | ObjectMissCommaOrCurlyBracket
    | ArrayMissCommaOrSquareBracket
    | StringUnicodeEscapeInvalidHex
    | StringUnicodeSurrogateInvalid
    | StringEscapeInvalid
    | StringMissQuotationMark
    | StringInvalidEncoding
    | NumberTooBig
    | NumberMissFraction
    | NumberMissExponent
    | Termination
    | UnspecificSyntaxError

  /**
   The parse flags, and the two things outside the reader that decide what it does:
   the handler, which sees the events sent so far (the newest last) and answers whether parsing
   goes on, and whether the conversion of a literal to a double exceeds the largest finite double.
   */
  datatype Options = Options(
    comments: bool,
    trailingCommas: bool,
    stopWhenDone: bool,
    validateEncoding: bool,
    numbersAsStrings: bool,
    nanAndInf: bool,
    accepts: seq<Event> -> bool,
    doubleOverflows: Text -> bool)

  /** A parse error as `ParseResult` records it. */
  datatype Error = Error(code: ErrorCode, offset: nat)

  /** The outcome of a parsing step: a cursor and all events sent so far, or an error and all events sent so far. */
  datatype Outcome =
    | Ok(pos: nat, out: seq<Event>)
    | Err(error: Error, out: seq<Event>)

  function Fail(code: ErrorCode, offset: nat, out: seq<Event>): Outcome {
    Err(Error(code, offset), out)
  }

  /** Send `e`; the cursor is then at `next`, or a handler that declines makes a Termination error at `at`. */
  function Emit(o: Options, e: Event, out: seq<Event>, next: nat, at: nat): Outcome {
    if o.accepts(out + [e]) then Ok(next, out + [e]) else Fail(Termination, at, out + [e])
  }
}
