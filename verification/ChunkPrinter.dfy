/** The chunk printer, and that the parser undoes it. */
module ChunkPrinter {
  import opened Bytes
  import opened ChunkParser

  function HexDigit(v: nat): Byte
    requires v < 16
  {
    if v < 10 then 48 + v else 87 + v
  }

  /** `hexStr`: lower case, no leading zeros. */
  function HexStr(n: nat): (s: seq<Byte>)
    ensures s != []
  {
    if n < 16 then [HexDigit(n)] else HexStr(n / 16) + [HexDigit(n % 16)]
  }

  /** One chunk as it is sent. */
  function Chunk(data: seq<Byte>): seq<Byte> {
    HexStr(|data|) + [CR, LF] + data + [CR, LF]
  }

  /** The stream that `write` adds to: the bytes sent, the status, and whether the header went out. */
  class HttpByteStream {
    const header: int -> seq<Byte>
    var sent: seq<Byte>
    var status: int
    var wroteHeader: bool

    constructor (header: int -> seq<Byte>)
      ensures sent == [] && status == 200 && !wroteHeader && this.header == header
    {
      this.header, sent, status, wroteHeader := header, [], 200, false;
    }

    method WriteHeader()
      modifies this`sent, this`wroteHeader
      ensures wroteHeader && sent == old(sent) + header(status)
    {
      wroteHeader := true;
      sent := sent + header(status);
    }

    /** `write`: the header before the first chunk, then the buffer as a chunk. */
    method Write(buffer: seq<Byte>) returns (bytesWritten: nat)
      requires |buffer| <= 0xFFFF_FFFF
      modifies this`sent, this`wroteHeader
      ensures wroteHeader && bytesWritten == |buffer|
      ensures sent == old(sent) + (if old(wroteHeader) then [] else header(status)) + Chunk(buffer)
    {
      if !wroteHeader {
        WriteHeader();
      }
      ghost var before := sent;
      var buff := HexStr(|buffer|) + [CR, LF];
      sent := sent + buff;
      bytesWritten := 0;
      if |buffer| > 0 {
        sent := sent + buffer;
        bytesWritten := |buffer|;
      }
      buff := [CR, LF];
      sent := sent + buff;
      assert sent == before + Chunk(buffer);
    }

    method SetStatus(code: int)
      modifies this`status
      ensures status == code
    {
      status := code;
    }

    method Reset()
      modifies this`status, this`wroteHeader
      ensures status == 200 && !wroteHeader
    {
      wroteHeader := false;
      status := 200;
    }
  }

  /** What a list of writes sends after the header. */
  function Print(writes: seq<seq<Byte>>): seq<Byte> {
    if writes == [] then [] else Print(writes[..|writes| - 1]) + Chunk(writes[|writes| - 1])
  }

  // ----- sizes

  lemma HexDigitUnhex(v: nat)
    requires v < 16
    ensures Unhex(HexDigit(v)) == v
  {
  }

  lemma {:induction false} HexLength(n: nat, k: nat)
    requires n < Power16(k + 1)
    ensures |HexStr(n)| <= k + 1
  {
    if n >= 16 {
      HexLength(n / 16, k - 1);
    }
  }

  function Power16(k: nat): nat {
    if k == 0 then 1 else 16 * Power16(k - 1)
  }

  /** The largest chunk size the parser takes. */
  const MAX_SIZE: nat := ULLONG_MAX - 16

  lemma AtMost16Digits(n: nat)
    requires n <= MAX_SIZE
    ensures |HexStr(n)| <= 16
  {
    assert Power16(4) == 0x1_0000;
    assert Power16(8) == 0x1_0000_0000;
    assert Power16(12) == 0x1_0000_0000_0000;
    assert Power16(16) == ULLONG_MAX + 1;
    HexLength(n, 15);
  }

  lemma DigitStep(p: Parser, v: nat)
    requires p.error == OK && p.state == ChunkSize && p.nread < HTTP_MAX_HEADER_SIZE && v < 16
    ensures
      var n := p.contentLength * 16 + v;
      Step(p, HexDigit(v)) ==
        if n <= MAX_SIZE then p.(contentLength := n, nread := p.nread + 1)
        else p.(error := INVALID_CONTENT_LENGTH, nread := p.nread + 1)
  {
    HexDigitUnhex(v);
    AccumulateIsExact(16, p.contentLength, v);
  }

  /** From a chunk's start, the printed size is read back if and only if it passes the overflow test. */
  lemma {:induction false} SizeReadsBack(p: Parser, n: nat)
    requires p.error == OK && p.state == ChunkSizeStart && p.nread == 0
    ensures n <= MAX_SIZE ==>
              Run(p, HexStr(n)) == p.(state := ChunkSize, contentLength := n, nread := |HexStr(n)|)
    ensures n > MAX_SIZE ==> Run(p, HexStr(n)).error == INVALID_CONTENT_LENGTH
  {
    hide Step, Accumulate, HexDigit;
    var s, v := HexStr(n), n % 16;
    assert s == s[..|s| - 1] + [HexDigit(v)];
    if n < 16 {
      assert s[..0] == [];
      FirstDigit(p, v);
    } else {
      assert s[..|s| - 1] == HexStr(n / 16);
      SizeReadsBack(p, n / 16);
      var q := Run(p, HexStr(n / 16));
      if n / 16 <= MAX_SIZE {
        AtMost16Digits(n / 16);
        DigitStep(q, v);
      } else {
        StepFailed(q, HexDigit(v));
      }
    }
  }

  lemma FirstDigit(p: Parser, v: nat)
    requires p.error == OK && p.state == ChunkSizeStart && p.nread == 0 && v < 16
    ensures Step(p, HexDigit(v)) == p.(state := ChunkSize, contentLength := v, nread := 1)
  {
    HexDigitUnhex(v);
  }

  lemma StepFailed(p: Parser, ch: Byte)
    requires p.error != OK
    ensures Step(p, ch) == p
  {
  }

  // ----- chunks

  lemma RunTwo(p: Parser, a: Byte, b: Byte)
    ensures Run(p, [a, b]) == Step(Step(p, a), b)
  {
    assert [a, b][..1] == [a] && [a][..0] == [];
    assert Run(p, [a]) == Step(Run(p, []), a);
  }

  /** A size line is followed by the chunk's data, or after the last chunk by the trailer. */
  lemma RunSizeLine(p: Parser, n: nat)
    requires p.error == OK && p.state == ChunkSizeStart && p.nread == 0 && n <= MAX_SIZE
    ensures Run(p, HexStr(n) + [CR, LF]) ==
              p.(state := if n == 0 then HeaderFieldStart else ChunkData, contentLength := n, nread := 0)
  {
    hide Run, HexStr;
    SizeReadsBack(p, n);
    AtMost16Digits(n);
    RunJoins(p, HexStr(n), [CR, LF]);
    RunTwo(Run(p, HexStr(n)), CR, LF);
  }

  /** A printed chunk is delivered whole, and the next one can follow. */
  lemma RunChunk(p: Parser, data: seq<Byte>)
    requires p.error == OK && p.state == ChunkSizeStart && p.nread == 0 && 0 < |data| <= MAX_SIZE
    ensures Run(p, Chunk(data)) == p.(body := p.body + data, contentLength := 0)
  {
    hide Run, HexStr, Step;
    var line := HexStr(|data|) + [CR, LF];
    assert Chunk(data) == line + (data + [CR, LF]);
    RunJoins(p, line, data + [CR, LF]);
    RunSizeLine(p, |data|);
    var q := Run(p, line);
    RunJoins(q, data, [CR, LF]);
    RunChunkData(q, data);
    RunTwo(Run(q, data), CR, LF);
    ChunkEnds(Run(q, data));
  }

  lemma ChunkEnds(p: Parser)
    requires p.error == OK && p.state == ChunkDataAlmostDone
    ensures Step(Step(p, CR), LF) == p.(state := ChunkSizeStart, nread := 0)
  {
  }

  /** The empty chunk ends the message. */
  lemma RunLastChunk(p: Parser)
    requires p.error == OK && p.state == ChunkSizeStart && p.nread == 0
    ensures Run(p, Chunk([])) == Complete(p.(contentLength := 0, nread := 2))
  {
    hide Run, HexStr;
    var line := HexStr(0) + [CR, LF];
    assert Chunk([]) == line + [CR, LF];
    RunJoins(p, line, [CR, LF]);
    RunSizeLine(p, 0);
    RunTwo(Run(p, line), CR, LF);
  }

  lemma {:induction false} RunChunks(p: Parser, writes: seq<seq<Byte>>)
    requires p.error == OK && p.state == ChunkSizeStart && p.nread == 0
    requires forall i :: 0 <= i < |writes| ==> 0 < |writes[i]| <= MAX_SIZE
    ensures
      var q := Run(p, Print(writes));
      && q.contentLength == (if writes == [] then p.contentLength else 0)
      && q == p.(body := p.body + Flatten(writes), contentLength := q.contentLength)
  {
    hide Step, Chunk;
    if writes == [] {
      assert p.body + Flatten(writes) == p.body;
    } else {
      var n := |writes| - 1;
      RunChunks(p, writes[..n]);
      var q := Run(p, Print(writes[..n]));
      RunJoins(p, Print(writes[..n]), Chunk(writes[n]));
      RunChunk(q, writes[n]);
      assert p.body + Flatten(writes[..n]) + writes[n] == p.body + Flatten(writes);
    }
  }

  /** Non-empty writes and then an empty one, as printed: exactly the bytes written are delivered, with one end
      of message. */
  lemma PrintRuns(p: Parser, writes: seq<seq<Byte>>)
    requires p.error == OK && p.state == ChunkSizeStart && p.nread == 0
    requires forall i :: 0 <= i < |writes| ==> 0 < |writes[i]| <= MAX_SIZE
    ensures Run(p, Print(writes + [[]])) ==
              p.(state := Finished, contentLength := 0, nread := 2, body := p.body + Flatten(writes),
                 completes := p.completes + 1)
  {
    hide Step, Chunk, Run;
    var all := writes + [[]];
    assert all[..|writes|] == writes && all[|writes|] == [];
    RunJoins(p, Print(writes), Chunk([]));
    RunChunks(p, writes);
    RunLastChunk(Run(p, Print(writes)));
  }

  lemma {:induction false} NothingAfter(p: Parser, data: seq<Byte>)
    requires p.error == OK && p.state in {Finished, Beyond} && data != []
    ensures Run(p, data).state == Beyond
  {
    var n := |data| - 1;
    if n > 0 {
      NothingAfter(p, data[..n]);
      NeverFails(p, data[..n]);
    }
  }

  lemma {:induction false} NeverFails(p: Parser, data: seq<Byte>)
    requires p.error == OK && p.state in {Finished, Beyond}
    ensures Run(p, data).error == OK && Run(p, data).state in {Finished, Beyond}
  {
    if data != [] {
      NeverFails(p, data[..|data| - 1]);
    }
  }

  /** Input that ends a message just with its last byte does not end it sooner: cut short anywhere, it is
      neither an error nor a message, and an end of input there is an error. */
  lemma {:induction false} CutShort(p: Parser, data: seq<Byte>, n: nat)
    requires n < |data| && Run(p, data).state == Finished && Run(p, data).error == OK
    ensures
      var q := Run(p, data[..n]);
      && q.error == OK && q.state !in {Finished, Beyond} && q.completes == p.completes
      && InputEnds(q) == q.(error := INVALID_EOF_STATE)
  {
    hide Switch;
    var q := Run(p, data[..n]);
    assert data == data[..n] + data[n..];
    RunJoins(p, data[..n], data[n..]);
    if q.error == OK && q.state == BodyIdentityEof {
      RunToEof(q, data[n..]);
    } else if q.error != OK {
      FailedStays(q, data[n..]);
    } else if q.state in {Finished, Beyond} {
      NothingAfter(q, data[n..]);
    } else if n > 0 {
      CutShort(p, data, n - 1);
      assert data[..n][..n - 1] == data[..n - 1];
      CompletesAtEnd(Run(p, data[..n - 1]), data[n - 1]);
    }
  }

  lemma CompletesAtEnd(p: Parser, ch: Byte)
    requires p.error == OK
    ensures Step(p, ch).completes == p.completes || Step(p, ch).state == Finished
  {
  }

  /** A body up to the end of input: all of it, and the message is complete once, with the end. */
  lemma EofBody(p: Parser, data: seq<Byte>)
    requires p.error == OK && p.state == BodyIdentityEof
    ensures Run(p, data).completes == p.completes
    ensures InputEnds(Run(p, data)) == p.(body := p.body + data, completes := p.completes + 1)
  {
    RunToEof(p, data);
  }

  /** Behind a header without chunks: with a length, exactly that many bytes are the body, and the message is complete
      with the last of them; without one, all input up to its end, or, where the header rules a body out, nothing. */
  lemma BodyBehindHeader(p: Parser, needsEof: bool, data: seq<Byte>)
    requires p.error == OK && p.contentLength <= ULLONG_MAX
    ensures
      var q, n := HeadersDone(p, false, needsEof), p.contentLength;
      if n == ULLONG_MAX && needsEof then
        q.completes == p.completes && InputEnds(Run(q, data)).body == p.body + data
        && InputEnds(Run(q, data)).completes == p.completes + 1 && InputEnds(Run(q, data)).error == OK
      else if n == ULLONG_MAX then
        q.body == p.body && q.completes == p.completes + 1 && q.state == Finished
      else if n <= |data| then
        var r := Run(q, data[..n]);
        r.body == p.body + data[..n] && r.completes == p.completes + 1 && r.state == Finished && r.error == OK
      else
        var r := Run(q, data);
        r.completes == p.completes && InputEnds(r).error == INVALID_EOF_STATE
  {
    hide Run;
    var q, n := HeadersDone(p, false, needsEof), p.contentLength;
    if q.state == BodyIdentityEof {
      EofBody(q, data);
    } else if 0 < n < ULLONG_MAX && n <= |data| {
      RunIdentity(q, data[..n]);
    } else if n == 0 {
      RunNothing(q);
      assert data[..0] == [] && p.body + [] == p.body;
    } else if n < ULLONG_MAX {
      IdentityBody(q, data);
    }
  }

  /** A body of known length: however long the input, exactly that many bytes are the body, and the message is
      complete once, with the last of them. */
  lemma IdentityBody(p: Parser, data: seq<Byte>)
    requires p.error == OK && p.state == BodyIdentity && 0 < p.contentLength
    ensures |data| < p.contentLength ==>
              Run(p, data) == p.(body := p.body + data, contentLength := p.contentLength - |data|)
    ensures |data| >= p.contentLength ==>
              var n := p.contentLength;
              Run(p, data) == Run(Complete(p.(body := p.body + data[..n], contentLength := 0)), data[n..])
  {
    hide Step, Run;
    var n := p.contentLength;
    if data == [] {
      RunNothing(p);
      assert p.body + data == p.body;
    } else if |data| < n {
      RunIdentity(p, data);
    } else {
      assert data == data[..n] + data[n..];
      RunJoins(p, data[..n], data[n..]);
      RunIdentity(p, data[..n]);
    }
  }
}
