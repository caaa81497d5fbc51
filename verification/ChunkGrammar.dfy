/** Which inputs are a chunked body (section 3.6.1 of RFC 2616, without trailer fields): the parser takes exactly those
    of the grammar, and hands over what they carry. */
module ChunkGrammar {
  import opened Bytes
  import opened ChunkParser
  import opened ChunkPrinter
  import opened SizeField

  /** The first line of a chunk: the size's digits, what they stand for, and extensions. */
  datatype Line = Line(field: seq<Byte>, digits: seq<nat>, ext: seq<Byte>)

  datatype Message = Last(line: Line, eol: seq<Byte>) | More(line: Line, data: seq<Byte>, next: Message)

  function LineText(line: Line): seq<Byte> {
    line.field + line.ext + [CR, LF]
  }

  /** Within the limits on a line's length and on a chunk's size. */
  ghost predicate LineOk(line: Line) {
    && line.field != [] && Spells(line.field, line.digits) && Extension(line.ext)
    && |line.field| + |line.ext| + 2 <= HTTP_MAX_HEADER_SIZE && Value(line.digits) <= ULLONG_MAX - 16
  }

  /** Chunks of the sizes announced, the last one empty; the parser takes a bare line feed at the very end. */
  ghost predicate Ok(m: Message) {
    LineOk(m.line) &&
    match m
    case Last(line, eol) => Value(line.digits) == 0 && eol in {[CR, LF], [LF]}
    case More(line, data, next) => Value(line.digits) == |data| > 0 && Ok(next)
  }

  function Text(m: Message): seq<Byte> {
    match m
    case Last(line, eol) => LineText(line) + eol
    case More(line, data, next) => LineText(line) + data + [CR, LF] + Text(next)
  }

  function Body(m: Message): seq<Byte> {
    match m
    case Last(_, _) => []
    case More(_, data, next) => data + Body(next)
  }

  /** The parser before the first byte of a chunk. */
  predicate Ready(p: Parser) {
    p.error == OK && p.state == ChunkSizeStart && p.nread == 0
  }

  /** The input is taken as the rest of one message. */
  predicate Ends(p: Parser, text: seq<Byte>) {
    Run(p, text).error == OK && Run(p, text).state == Finished
  }

  // ----- what is in the grammar is taken

  lemma {:induction false} Taken(p: Parser, m: Message)
    requires Ready(p) && Ok(m)
    ensures Ends(p, Text(m))
    ensures Run(p, Text(m)).body == p.body + Body(m) && Run(p, Text(m)).completes == p.completes + 1
    decreases m
  {
    hide Run, Step, LineOk, Ends;
    var line := LineText(m.line);
    LineTaken(p, m.line);
    if m.Last? {
      RunJoins(p, line, m.eol);
      EndTaken(Run(p, line), m.eol);
      assert p.body + [] == p.body;
    } else {
      var head := line + m.data + [CR, LF];
      ChunkTaken(p, m.line, m.data);
      RunJoins(p, head, Text(m.next));
      Taken(Run(p, head), m.next);
      EndsIs(Run(p, head), Text(m.next));
      assert p.body + (m.data + Body(m.next)) == p.body + m.data + Body(m.next);
    }
    EndsIs(p, Text(m));
  }

  lemma EndsIs(p: Parser, text: seq<Byte>)
    ensures Ends(p, text) <==> Run(p, text).error == OK && Run(p, text).state == Finished
  {
  }

  lemma LineTaken(p: Parser, line: Line)
    requires Ready(p) && LineOk(line)
    ensures Run(p, LineText(line)) ==
              p.(contentLength := Value(line.digits), nread := 0,
                 state := if Value(line.digits) == 0 then HeaderFieldStart else ChunkData)
  {
    hide Run;
    SizeField.SizeLine(p, line.field, line.digits, line.ext);
  }

  lemma ChunkTaken(p: Parser, line: Line, data: seq<Byte>)
    requires Ready(p) && LineOk(line) && Value(line.digits) == |data| > 0
    ensures Run(p, LineText(line) + data + [CR, LF]) == p.(body := p.body + data, contentLength := 0)
  {
    hide Run;
    ChunkIsTaken(p, line.field, line.digits, line.ext, data);
  }

  lemma EndTaken(p: Parser, eol: seq<Byte>)
    requires p.error == OK && p.state == HeaderFieldStart && p.nread == 0 && eol in {[CR, LF], [LF]}
    ensures Run(p, eol).error == OK && Run(p, eol).state == Finished
    ensures Run(p, eol).body == p.body && Run(p, eol).completes == p.completes + 1
  {
    if eol == [LF] {
      assert Run(p, eol) == Step(Run(p, eol[..0]), LF) && eol[..0] == [];
    } else {
      RunTwo(p, CR, LF);
    }
  }

  // ----- and nothing else is

  lemma RunFirst(p: Parser, text: seq<Byte>)
    requires text != []
    ensures Run(p, text) == Run(Step(p, text[0]), text[1..])
  {
    assert text == [text[0]] + text[1..];
    RunJoins(p, [text[0]], text[1..]);
    assert [text[0]][..0] == [] && Run(p, [text[0]]) == Step(Run(p, []), text[0]);
  }

  /** Of input that ends a message the first byte is taken, and the rest ends it. */
  lemma EndsOn(p: Parser, text: seq<Byte>)
    requires Ends(p, text) && p.error == OK && p.state != Finished
    ensures text != [] && Step(p, text[0]).error == OK && Ends(Step(p, text[0]), text[1..])
  {
    hide Step;
    if text != [] {
      RunFirst(p, text);
      if Step(p, text[0]).error != OK {
        FailedStays(Step(p, text[0]), text[1..]);
      }
    }
  }

  /** Behind a message nothing ends one. */
  lemma EndsThere(p: Parser, text: seq<Byte>)
    requires Ends(p, text) && p.error == OK && p.state in {Finished, Beyond}
    ensures p.state == Finished && text == []
  {
    if text != [] || p.state == Beyond {
      NothingAfter(p, text);
    }
  }

  lemma NoneYet(p: Parser, text: seq<Byte>)
    ensures Run(p, text[..0]) == p && text[0..] == text
  {
    RunNothing(p);
    assert text[..0] == [];
  }

  /** Digits, up to something else. */
  lemma {:induction false} TakeDigits(p: Parser, text: seq<Byte>) returns (digits: seq<nat>)
    requires Ends(p, text) && p.error == OK && p.state == ChunkSize && p.nread <= HTTP_MAX_HEADER_SIZE
    ensures |digits| < |text| && Spells(text[..|digits|], digits) && text[|digits|] in {CR, SEMICOLON, SPACE}
    ensures
      var q := Run(p, text[..|digits|]);
      && q.error == OK && q.state == ChunkSize && q.nread == p.nread + |digits| <= HTTP_MAX_HEADER_SIZE
      && Ends(q, text[|digits|..])
    decreases |text|
  {
    hide Ends, Run;
    EndsOn(p, text);
    var v := Unhex(text[0]);
    UnhexIsPlace(text[0]);
    if v == -1 {
      digits := [];
      NoneYet(p, text);
    } else {
      var more := TakeDigits(Step(p, text[0]), text[1..]);
      digits := [v] + more;
      RunFirst(p, text[..|digits|]);
      assert text[..|digits|][1..] == text[1..][..|more|] && text[1..][|more|..] == text[|digits|..];
    }
  }

  /** An extension, up to the carriage return. */
  lemma {:induction false} TakeExtension(p: Parser, text: seq<Byte>) returns (k: nat)
    requires Ends(p, text) && p.error == OK && p.state == ChunkParameters && p.nread <= HTTP_MAX_HEADER_SIZE
    ensures k < |text| && CR !in text[..k] && text[k] == CR
    ensures
      var q := Run(p, text[..k]);
      && q.error == OK && q.state == ChunkParameters && q.nread == p.nread + k <= HTTP_MAX_HEADER_SIZE
      && Ends(q, text[k..])
    decreases |text|
  {
    hide Ends, Run;
    EndsOn(p, text);
    if text[0] == CR {
      k := 0;
      NoneYet(p, text);
    } else {
      var n := TakeExtension(Step(p, text[0]), text[1..]);
      k := n + 1;
      RunFirst(p, text[..k]);
      assert text[..k][1..] == text[1..][..n] && text[1..][n..] == text[k..];
      assert text[..k] == [text[0]] + text[1..][..n];
    }
  }

  /** A whole line. */
  lemma TakeLine(p: Parser, text: seq<Byte>) returns (line: Line, rest: seq<Byte>)
    requires Ends(p, text) && Ready(p)
    ensures LineOk(line) && text == LineText(line) + rest && Ends(Run(p, LineText(line)), rest)
  {
    hide Ends, Run, Spells, Extension;
    var digits := TakeSize(p, text);
    var field, more := text[..|digits|], text[|digits|..];
    var q := Run(p, field);
    var ext := TakeEnd(q, more);
    line, rest := Line(field, digits, ext), more[|ext| + 2..];
    assert text == field + more && more == ext + [CR, LF] + rest;
    assert text == LineText(line) + rest;
    SizeFits(p, field, digits);
    RestEnds(p, LineText(line), rest);
  }

  lemma TakeSize(p: Parser, text: seq<Byte>) returns (digits: seq<nat>)
    requires Ends(p, text) && Ready(p)
    ensures 0 < |digits| < |text| && Spells(text[..|digits|], digits) && text[|digits|] in {CR, SEMICOLON, SPACE}
    ensures
      var q := Run(p, text[..|digits|]);
      && q.error == OK && q.state == ChunkSize && q.nread == |digits| <= HTTP_MAX_HEADER_SIZE
      && Ends(q, text[|digits|..])
  {
    hide Ends, Run;
    EndsOn(p, text);
    UnhexIsPlace(text[0]);
    var more := TakeDigits(Step(p, text[0]), text[1..]);
    digits := [Unhex(text[0])] + more;
    RunFirst(p, text[..|digits|]);
    assert text[..|digits|][1..] == text[1..][..|more|] && text[1..][|more|..] == text[|digits|..];
  }

  /** The rest of a line behind its size. */
  lemma TakeEnd(p: Parser, text: seq<Byte>) returns (ext: seq<Byte>)
    requires Ends(p, text) && p.error == OK && p.state == ChunkSize && p.nread <= HTTP_MAX_HEADER_SIZE
    requires text != [] && text[0] in {CR, SEMICOLON, SPACE}
    ensures Extension(ext) && |ext| + 2 <= |text| && text[..|ext| + 2] == ext + [CR, LF]
    ensures p.nread + |ext| + 2 <= HTTP_MAX_HEADER_SIZE
  {
    hide Ends, Run;
    EndsOn(p, text);
    var q, more := Step(p, text[0]), text[1..];
    if text[0] == CR {
      ext := [];
      EndsOn(q, more);
    } else {
      var k := TakeExtension(q, more);
      ext := [text[0]] + more[..k];
      EndsOn(Run(q, more[..k]), more[k..]);
      EndsOn(Step(Run(q, more[..k]), CR), more[k..][1..]);
      assert text[..|ext| + 2] == ext + [CR, LF];
    }
  }

  lemma SizeFits(p: Parser, field: seq<Byte>, digits: seq<nat>)
    requires Ready(p) && field != [] && Spells(field, digits) && |field| <= HTTP_MAX_HEADER_SIZE
    requires Run(p, field).error == OK
    ensures Value(digits) <= ULLONG_MAX - 16
  {
    hide Run, Spells, Value;
    SizeIsRead(p, field, digits);
  }

  lemma RestEnds(p: Parser, front: seq<Byte>, rest: seq<Byte>)
    requires Ends(p, front + rest)
    ensures Ends(Run(p, front), rest)
  {
    RunJoins(p, front, rest);
  }

  /** A chunk's data and the end of its line. */
  lemma TakeData(p: Parser, text: seq<Byte>)
    requires Ends(p, text) && p.error == OK && p.state == ChunkData && p.contentLength > 0
    ensures
      var n := p.contentLength;
      n + 2 <= |text| && text[n..n + 2] == [CR, LF]
  {
    hide Ends, Run;
    var n := p.contentLength;
    if |text| <= n {
      DataOnly(p, text);
    } else {
      assert text == text[..n] + text[n..];
      RestEnds(p, text[..n], text[n..]);
      RunChunkData(p, text[..n]);
      EndsOn(Run(p, text[..n]), text[n..]);
      EndsOn(Step(Run(p, text[..n]), CR), text[n..][1..]);
    }
  }

  lemma DataOnly(p: Parser, text: seq<Byte>)
    requires p.error == OK && p.state == ChunkData && |text| <= p.contentLength
    ensures !Ends(p, text)
  {
    if text == [] {
      RunNothing(p);
    } else {
      RunChunkData(p, text);
    }
  }

  /** The end of the message, after the last chunk. */
  lemma TakeEol(p: Parser, text: seq<Byte>)
    requires Ends(p, text) && p.error == OK && p.state == HeaderFieldStart && p.nread == 0
    ensures text in {[CR, LF], [LF]}
  {
    hide Ends, Run;
    EndsOn(p, text);
    var q, more := Step(p, text[0]), text[1..];
    if text[0] == CR {
      EndsOn(q, more);
      EndsThere(Step(q, more[0]), more[1..]);
      assert text == [CR, LF];
    } else {
      EndsThere(q, more);
      assert text == [LF];
    }
  }

  /** Input that is taken is a chunked body. */
  lemma {:induction false} OnlyMessages(p: Parser, text: seq<Byte>) returns (m: Message)
    requires Ends(p, text) && Ready(p)
    ensures Ok(m) && Text(m) == text
    decreases |text|
  {
    hide Ends, Run, LineOk, Value;
    var line, rest := TakeLine(p, text);
    LineTaken(p, line);
    var q, n := Run(p, LineText(line)), Value(line.digits);
    if n == 0 {
      TakeEol(q, rest);
      m := Last(line, rest);
    } else {
      TakeData(q, rest);
      var data, more := rest[..n], rest[n + 2..];
      var head := LineText(line) + data + [CR, LF];
      assert rest == data + [CR, LF] + more && text == head + more;
      ChunkTaken(p, line, data);
      RestEnds(p, head, more);
      var next := OnlyMessages(Run(p, head), more);
      m := More(line, data, next);
    }
  }

  /** From a chunk's start, input is taken as exactly one message if and only if the grammar has it. */
  lemma AcceptsExactly(p: Parser, text: seq<Byte>)
    requires Ready(p)
    ensures Ends(p, text) <==> exists m :: Ok(m) && Text(m) == text
  {
    hide Ends, Ok, Text;
    if Ends(p, text) {
      var m := OnlyMessages(p, text);
    } else if exists m :: Ok(m) && Text(m) == text {
      var m :| Ok(m) && Text(m) == text;
      Taken(p, m);
    }
  }

  /** However a text is read as a message, it carries the same body. */
  lemma OneMeaning(a: Message, b: Message)
    requires Ok(a) && Ok(b) && Text(a) == Text(b)
    ensures Body(a) == Body(b)
  {
    hide Ok, Run;
    var p := Parser(ChunkSizeStart, 0, 0, OK, [], 0);
    Taken(p, a);
    Taken(p, b);
    assert p.body + Body(a) == Body(a) && p.body + Body(b) == Body(b);
  }

  /** Which byte is refused for what, the size's digits apart. */
  lemma RefusedFor(p: Parser, ch: Byte)
    requires p.error == OK && p.nread < 81919
    ensures Step(p, ch).error == STRICT <==>
              || (p.state in {ChunkSizeAlmostDone, HeadersAlmostDone, ChunkDataDone} && ch != LF)
              || (p.state == ChunkDataAlmostDone && ch != CR)
    ensures Step(p, ch).error == INVALID_HEADER_TOKEN <==>
              p.state == HeaderFieldStart && ch != CR && ch != LF && !IsToken(ch)
    ensures Step(p, ch).error !in {INVALID_EOF_STATE, HEADER_OVERFLOW}
    ensures Step(p, ch).error in {INVALID_CHUNK_SIZE, INVALID_CONTENT_LENGTH} ==>
              p.state in {ChunkSizeStart, ChunkSize}
  {
    TokenIs(ch);
  }

  /** A byte that is refused delivers nothing and completes nothing, and one byte completes one message at most. */
  lemma RefusedDelivers(p: Parser, ch: Byte)
    requires p.error == OK
    ensures Step(p, ch).error != OK ==> Step(p, ch).body == p.body && Step(p, ch).completes == p.completes
    ensures Step(p, ch).completes ==
            p.completes + if Step(p, ch).error == OK && Step(p, ch).state == Finished then 1 else 0
  {
  }
}
