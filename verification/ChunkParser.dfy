/** The body states of the HTTP parser: chunked bodies (section 3.6.1 of RFC 2616), bodies of a given length
    and bodies up to the end of input, in strict mode, with callbacks that return 0. `Step` says what one byte
    does; the parser itself works on whole buffers and is tied to it in `ChunkExecute`. */
module ChunkParser {
  import opened Bytes
  import opened Options

  const CR: Byte := 13
  const LF: Byte := 10
  const SPACE: Byte := 32
  const SEMICOLON: Byte := 59
  const ULLONG_MAX: nat := 0xFFFF_FFFF_FFFF_FFFF
  const HTTP_MAX_HEADER_SIZE: nat := 80 * 1024

  /** `Finished` stands for the state right after a message, and `Beyond` for everything after it and for
      trailer fields, which are not part of this model. */
  datatype State =
    | ChunkSizeStart | ChunkSize | ChunkParameters | ChunkSizeAlmostDone
    | HeaderFieldStart | HeadersAlmostDone
    | ChunkData | ChunkDataAlmostDone | ChunkDataDone
    | BodyIdentity | BodyIdentityEof
    | Finished | Beyond
  {
    /** `PARSING_HEADER`. */
    predicate ParsingHeader() {
      this in {ChunkSizeStart, ChunkSize, ChunkParameters, ChunkSizeAlmostDone, HeaderFieldStart, HeadersAlmostDone}
    }
  }

  datatype Errno =
    | OK | HEADER_OVERFLOW | INVALID_CHUNK_SIZE | INVALID_CONTENT_LENGTH | STRICT | INVALID_HEADER_TOKEN
    | INVALID_EOF_STATE

  /** The parser, and what the callbacks were given: the bytes of all `on_body` calls, and the number of
      `on_message_complete` calls. */
  datatype Parser = Parser(state: State, contentLength: nat, nread: nat, error: Errno,
                           body: seq<Byte>, completes: nat)

  /** The table `unhex`. */
  function Unhex(ch: Byte): (v: int)
    ensures -1 <= v < 16
  {
    if 48 <= ch <= 57 then ch - 48
    else if 65 <= ch <= 70 then ch - 55
    else if 97 <= ch <= 102 then ch - 87
    else -1
  }

  /** One more digit of a length in the given base: computed in 64 bits, kept if the length so far passes the
      conservative test. */
  function Accumulate(base: nat, length: nat, digit: nat): Option<nat>
    requires base > 0
  {
    var t := (length * base + digit) % (ULLONG_MAX + 1);
    if (ULLONG_MAX - base) / base < length then None else Some(t)
  }

  /** The test lets nothing through that wraps or reaches the `ULLONG_MAX` that stands for "no length". */
  lemma AccumulateIsExact(base: nat, length: nat, digit: nat)
    requires base in {10, 16} && digit < base
    ensures Accumulate(base, length, digit).Some? <==> length * base <= ULLONG_MAX - base
    ensures Accumulate(base, length, digit).Some? ==>
              Accumulate(base, length, digit).value == length * base + digit < ULLONG_MAX
  {
    if base == 10 {
      assert length * base == length * 10;
    } else {
      assert length * base == length * 16;
    }
  }

  /** `TOKEN`: the characters a trailer field's name can start with. */
  predicate IsToken(ch: Byte) {
    || 48 <= ch <= 57 || 65 <= ch <= 90 || 97 <= ch <= 122
    || ch in {33, 35, 36, 37, 38, 39, 42, 43, 45, 46, 94, 95, 96, 124, 126}
  }

  function Fail(p: Parser, error: Errno): Parser { p.(error := error) }

  function Complete(p: Parser): Parser { p.(state := Finished, completes := p.completes + 1) }

  function Count(p: Parser): Parser {
    if p.nread + 1 > HTTP_MAX_HEADER_SIZE then Fail(p.(nread := p.nread + 1), HEADER_OVERFLOW)
    else p.(nread := p.nread + 1)
  }

  /** What one byte does. */
  function Step(p: Parser, ch: Byte): Parser {
    if p.error != OK then p
    else if !p.state.ParsingHeader() then Switch(p, ch)
    else if Count(p).error != OK then Count(p)
    else Switch(Count(p), ch)
  }

  function Switch(p: Parser, ch: Byte): Parser {
    match p.state
    case ChunkSizeStart =>
      if Unhex(ch) == -1 then Fail(p, INVALID_CHUNK_SIZE)
      else p.(contentLength := Unhex(ch), state := ChunkSize)
    case ChunkSize =>
      if ch == CR then p.(state := ChunkSizeAlmostDone)
      else if Unhex(ch) == -1 then
        if ch == SEMICOLON || ch == SPACE then p.(state := ChunkParameters) else Fail(p, INVALID_CHUNK_SIZE)
      else (
        match Accumulate(16, p.contentLength, Unhex(ch))
        case None => Fail(p, INVALID_CONTENT_LENGTH)
        case Some(t) => p.(contentLength := t)
      )
    case ChunkParameters =>
      if ch == CR then p.(state := ChunkSizeAlmostDone) else p
    case ChunkSizeAlmostDone =>
      if ch != LF then Fail(p, STRICT)
      else p.(nread := 0, state := if p.contentLength == 0 then HeaderFieldStart else ChunkData)
    case HeaderFieldStart =>
      if ch == CR then p.(state := HeadersAlmostDone)
      else if ch == LF then (
        var again := Count(p.(state := HeadersAlmostDone));
        if again.error != OK then again else Complete(again)
      )
      else if !IsToken(ch) then Fail(p, INVALID_HEADER_TOKEN)
      else p.(state := Beyond)
    case HeadersAlmostDone =>
      if ch != LF then Fail(p, STRICT) else Complete(p)
    case ChunkData =>
      if p.contentLength == 0 then p
      else p.(body := p.body + [ch], contentLength := p.contentLength - 1,
              state := if p.contentLength == 1 then ChunkDataAlmostDone else ChunkData)
    case ChunkDataAlmostDone =>
      if ch != CR then Fail(p, STRICT) else p.(state := ChunkDataDone)
    case ChunkDataDone =>
      if ch != LF then Fail(p, STRICT) else p.(nread := 0, state := ChunkSizeStart)
    case BodyIdentity =>
      if p.contentLength == 0 then p
      else (
        var q := p.(body := p.body + [ch], contentLength := p.contentLength - 1);
        if q.contentLength == 0 then Complete(q) else q
      )
    case BodyIdentityEof => p.(body := p.body + [ch])
    case Finished => p.(state := Beyond)
    case Beyond => p
  }

  /** What a stretch of input does, byte by byte. */
  function Run(p: Parser, data: seq<Byte>): Parser {
    if data == [] then p else Step(Run(p, data[..|data| - 1]), data[|data| - 1])
  }

  lemma RunNothing(p: Parser)
    ensures Run(p, []) == p
  {
  }

  lemma {:induction false} RunJoins(p: Parser, a: seq<Byte>, b: seq<Byte>)
    ensures Run(p, a + b) == Run(Run(p, a), b)
  {
    if b == [] {
      assert a + b == a;
    } else {
      var n := |b| - 1;
      RunJoins(p, a, b[..n]);
      assert (a + b)[..|a + b| - 1] == a + b[..n];
    }
  }

  lemma {:induction false} FailedStays(p: Parser, data: seq<Byte>)
    requires p.error != OK
    ensures Run(p, data) == p
  {
    if data != [] {
      FailedStays(p, data[..|data| - 1]);
    }
  }

  /** The buffers one after the other. */
  function Flatten(buffers: seq<seq<Byte>>): seq<Byte> {
    if buffers == [] then [] else Flatten(buffers[..|buffers| - 1]) + buffers[|buffers| - 1]
  }

  /** An empty buffer, which means the end of input: it completes a body that runs to the end, is taken behind a
      message (`Finished`) and is an error within one. */
  function InputEnds(p: Parser): Parser {
    if p.error != OK || p.state == Finished then p
    else if p.state == BodyIdentityEof then p.(completes := p.completes + 1)
    else p.(error := INVALID_EOF_STATE)
  }

  // ----- what every run keeps

  /** The conditions the source asserts on its states. */
  predicate Inv(p: Parser) {
    && (p.error in {OK, INVALID_EOF_STATE} ==> p.nread <= HTTP_MAX_HEADER_SIZE)
    && (p.contentLength == ULLONG_MAX ==> p.state in {ChunkSizeStart, BodyIdentityEof, Finished, Beyond})
    && p.contentLength <= ULLONG_MAX
    && (p.error == OK ==>
          && (p.state == ChunkSizeStart ==> p.nread == 0)
          && (p.state in {ChunkData, BodyIdentity} ==> p.contentLength != 0)
          && (p.state in {ChunkDataAlmostDone, ChunkDataDone, HeaderFieldStart, HeadersAlmostDone} ==>
                p.contentLength == 0))
  }

  /** How the body begins behind the header: `contentLength` is what the header says, and still the ULLONG_MAX set
      at the message's start if it says nothing, which for a chunked body it need not. */
  function HeadersDone(p: Parser, chunked: bool, needsEof: bool): Parser {
    var q := p.(nread := 0);
    if chunked then q.(state := ChunkSizeStart)
    else if q.contentLength == 0 then Complete(q)
    else if q.contentLength != ULLONG_MAX then q.(state := BodyIdentity)
    else if !needsEof then Complete(q)
    else q.(state := BodyIdentityEof)
  }

  /** Whatever the header says about the length, the body begins in a state the source's assertions hold in. */
  lemma BodyStarts(p: Parser, chunked: bool, needsEof: bool)
    requires p.error == OK && p.contentLength <= ULLONG_MAX
    ensures Inv(HeadersDone(p, chunked, needsEof))
    ensures chunked ==> HeadersDone(p, chunked, needsEof) == p.(state := ChunkSizeStart, nread := 0)
  {
  }

  lemma StepKeeps(p: Parser, ch: Byte)
    requires Inv(p)
    ensures Inv(Step(p, ch))
  {
    if p.state == ChunkSize && Unhex(ch) != -1 {
      AccumulateIsExact(16, p.contentLength, Unhex(ch));
    }
  }

  lemma {:induction false} RunKeeps(p: Parser, data: seq<Byte>)
    requires Inv(p)
    ensures Inv(Run(p, data))
  {
    if data != [] {
      RunKeeps(p, data[..|data| - 1]);
      StepKeeps(Run(p, data[..|data| - 1]), data[|data| - 1]);
    }
  }

  // ----- stretches of a body

  /** `k` bytes of chunk data, all at once. */
  lemma {:induction false} RunChunkData(p: Parser, data: seq<Byte>)
    requires p.error == OK && p.state == ChunkData && 0 < |data| <= p.contentLength
    ensures Run(p, data) == p.(body := p.body + data, contentLength := p.contentLength - |data|,
                               state := if p.contentLength == |data| then ChunkDataAlmostDone else ChunkData)
  {
    var n := |data| - 1;
    assert data == data[..n] + [data[n]];
    if n > 0 {
      RunChunkData(p, data[..n]);
      assert p.body + data[..n] + [data[n]] == p.body + data;
    } else {
      assert Run(p, data[..n]) == p;
      assert p.body + [data[0]] == p.body + data;
    }
  }

  /** Bytes of a body of known length: it is complete with its last byte, and not before. */
  lemma {:induction false} RunIdentity(p: Parser, data: seq<Byte>)
    requires p.error == OK && p.state == BodyIdentity && 0 < |data| <= p.contentLength
    ensures
      var q := p.(body := p.body + data, contentLength := p.contentLength - |data|);
      Run(p, data) == if p.contentLength == |data| then Complete(q) else q
  {
    var n := |data| - 1;
    assert data == data[..n] + [data[n]];
    if n > 0 {
      RunIdentity(p, data[..n]);
      assert p.body + data[..n] + [data[n]] == p.body + data;
    } else {
      assert Run(p, data[..n]) == p;
      assert p.body + [data[0]] == p.body + data;
    }
  }

  lemma {:induction false} RunToEof(p: Parser, data: seq<Byte>)
    requires p.error == OK && p.state == BodyIdentityEof
    ensures Run(p, data) == p.(body := p.body + data)
  {
    if data == [] {
      assert p.body + data == p.body;
    } else {
      var n := |data| - 1;
      RunToEof(p, data[..n]);
      assert p.body + data[..n] + [data[n]] == p.body + data;
    }
  }

  // ----- the length in a Content-Length header

  predicate IsDigit(ch: Byte) { 48 <= ch <= 57 }

  /** The header value's characters one by one: a digit first, then digits, with spaces passed over. */
  function ContentLength(field: seq<Byte>): Option<nat> {
    if field == [] then None
    else
      var n := |field| - 1;
      var ch := field[n];
      if n == 0 then (if IsDigit(ch) then Some(ch - 48) else None)
      else
        match ContentLength(field[..n])
        case None => None
        case Some(length) =>
          if ch == SPACE then Some(length) else if !IsDigit(ch) then None else Accumulate(10, length, ch - 48)
  }

  /** The number a field's digits write. */
  function Decimal(field: seq<Byte>): nat {
    if field == [] then 0
    else
      var n := |field| - 1;
      if IsDigit(field[n]) then Decimal(field[..n]) * 10 + (field[n] - 48) else Decimal(field[..n])
  }

  predicate DigitsAndSpaces(field: seq<Byte>) {
    forall i :: 0 <= i < |field| ==> IsDigit(field[i]) || field[i] == SPACE
  }

  /** A length is taken exactly when it is digits and spaces, a digit first, and at most 2^64 - 7; it is then
      the number written, with no wrap. */
  lemma {:induction false} ContentLengthIs(field: seq<Byte>)
    requires field != []
    ensures ContentLength(field).Some? <==>
              IsDigit(field[0]) && DigitsAndSpaces(field) && Decimal(field) <= ULLONG_MAX - 6
    ensures ContentLength(field).Some? ==> ContentLength(field).value == Decimal(field)
  {
    hide Accumulate, IsDigit;
    var n := |field| - 1;
    if n > 0 {
      ContentLengthIs(field[..n]);
      AllButLast(field);
      if IsDigit(field[n]) {
        DigitIs(field[n]);
        AccumulateIsExact(10, Decimal(field[..n]), field[n] - 48);
        OneMoreDigit(Decimal(field[..n]), field[n] - 48);
      }
    } else {
      assert Decimal(field[..0]) == 0;
      if IsDigit(field[0]) {
        DigitIs(field[0]);
      }
    }
  }

  lemma AllButLast(field: seq<Byte>)
    requires |field| > 1
    ensures field[..|field| - 1][0] == field[0]
    ensures DigitsAndSpaces(field) <==>
              && DigitsAndSpaces(field[..|field| - 1])
              && (IsDigit(field[|field| - 1]) || field[|field| - 1] == SPACE)
  {
    hide IsDigit;
    var n := |field| - 1;
    assert forall i :: 0 <= i < n ==> field[..n][i] == field[i];
  }

  lemma DigitIs(ch: Byte)
    requires IsDigit(ch)
    ensures 48 <= ch <= 57 && ch != SPACE
  {
  }

  /** The overflow test is exact to the digit. */
  lemma OneMoreDigit(length: nat, digit: nat)
    requires digit < 10
    ensures length * 10 <= ULLONG_MAX - 10 <==> length * 10 + digit <= ULLONG_MAX - 6
    ensures length * 10 + digit <= ULLONG_MAX - 6 ==> length <= ULLONG_MAX - 6
  {
  }
}
