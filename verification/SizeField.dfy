/** Chunk sizes as a client may write them (section 3.6.1 of RFC 2616): hexadecimal digits of either case, with leading
    zeros, and extensions behind them. */
module SizeField {
  import opened Bytes
  import opened Options
  import opened ChunkParser
  import opened ChunkPrinter

  const LOWER: string := "0123456789abcdef"
  const UPPER: string := "0123456789ABCDEF"

  /** The character is the hexadecimal digit for `v`, in either case. */
  predicate Writes(ch: Byte, v: nat) {
    v < 16 && (ch == LOWER[v] as nat || ch == UPPER[v] as nat)
  }

  /** The characters are the digits, one for one. */
  ghost predicate Spells(field: seq<Byte>, digits: seq<nat>) {
    |field| == |digits| && forall i :: 0 <= i < |field| ==> Writes(field[i], digits[i])
  }

  /** The number the digits stand for. */
  function Value(digits: seq<nat>): nat {
    if digits == [] then 0 else Value(digits[..|digits| - 1]) * 16 + digits[|digits| - 1]
  }

  /** ... in base ten. */
  function Value10(digits: seq<nat>): nat {
    if digits == [] then 0 else Value10(digits[..|digits| - 1]) * 10 + digits[|digits| - 1]
  }

  /** The parser's table knows exactly the hexadecimal digits. */
  lemma UnhexIsPlace(ch: Byte)
    ensures forall v: nat :: Writes(ch, v) <==> Unhex(ch) == v
    ensures (exists v: nat :: Writes(ch, v)) <==> Unhex(ch) != -1
  {
    var v := if Unhex(ch) == -1 then 0 else Unhex(ch);
    assert Unhex(ch) != -1 ==> Writes(ch, v);
  }

  /** What the stream prints is lower case, without leading zeros, and the number itself. */
  lemma {:induction false} PrintedDigits(n: nat) returns (digits: seq<nat>)
    ensures |HexStr(n)| == |digits| && Value(digits) == n && (digits[0] == 0 ==> n == 0 && |digits| == 1)
    ensures forall i :: 0 <= i < |digits| ==> digits[i] < 16 && HexStr(n)[i] == LOWER[digits[i]] as nat
  {
    hide HexDigit;
    LowerDigit(n % 16);
    if n < 16 {
      digits := [n];
      assert digits[..0] == [];
    } else {
      var more := PrintedDigits(n / 16);
      digits := more + [n % 16];
      assert digits[..|more|] == more;
      assert HexStr(n) == HexStr(n / 16) + [HexDigit(n % 16)];
    }
  }

  lemma LowerDigit(v: nat)
    requires v < 16
    ensures HexDigit(v) == LOWER[v] as nat
  {
  }

  /** One more digit. */
  lemma DigitRead(p: Parser, ch: Byte, v: nat)
    requires p.error == OK && Writes(ch, v) && p.nread < HTTP_MAX_HEADER_SIZE
    ensures p.state == ChunkSizeStart ==>
              Step(p, ch) == p.(contentLength := v, state := ChunkSize, nread := p.nread + 1)
    ensures p.state == ChunkSize ==>
              var n := p.contentLength * 16 + v;
              Step(p, ch) == if n <= ULLONG_MAX - 16 then p.(contentLength := n, nread := p.nread + 1)
                             else p.(error := INVALID_CONTENT_LENGTH, nread := p.nread + 1)
  {
    UnhexIsPlace(ch);
    AccumulateIsExact(16, p.contentLength, v);
  }

  /** A size of any digits, leading zeros included, is read as the number they stand for if and only if that is at most
      2^64 - 17, and refused otherwise. */
  lemma {:induction false} SizeIsRead(p: Parser, field: seq<Byte>, digits: seq<nat>)
    requires p.error == OK && p.state == ChunkSizeStart && p.nread + |field| <= HTTP_MAX_HEADER_SIZE
    requires field != [] && Spells(field, digits)
    ensures Value(digits) <= ULLONG_MAX - 16 ==>
              Run(p, field) == p.(contentLength := Value(digits), state := ChunkSize, nread := p.nread + |field|)
    ensures Value(digits) > ULLONG_MAX - 16 ==> Run(p, field).error == INVALID_CONTENT_LENGTH
  {
    hide Step, Writes;
    var n := |field| - 1;
    var before, less := field[..n], digits[..n];
    if n == 0 {
      assert Value(less) == 0 && Run(p, before) == p;
      DigitRead(p, field[0], digits[0]);
      DigitSmall(field[0], digits[0]);
    } else {
      SizeIsRead(p, before, less);
      DigitSmall(field[n], digits[n]);
      var q := Run(p, before);
      if q.error == OK {
        DigitRead(q, field[n], digits[n]);
      } else {
        StepFailed(q, field[n]);
      }
    }
  }

  lemma DigitSmall(ch: Byte, v: nat)
    requires Writes(ch, v)
    ensures v < 16
  {
  }

  /** An extension: nothing, or something behind a semicolon or a space, up to the end of the line. */
  predicate Extension(ext: seq<Byte>) {
    (ext != [] ==> ext[0] == SEMICOLON || ext[0] == SPACE) && CR !in ext
  }

  lemma {:induction false} ExtensionSkipped(p: Parser, ext: seq<Byte>)
    requires p.error == OK && p.state == ChunkSize && p.nread + |ext| <= HTTP_MAX_HEADER_SIZE && Extension(ext)
    ensures Run(p, ext) == p.(state := if ext == [] then ChunkSize else ChunkParameters, nread := p.nread + |ext|)
  {
    if ext != [] {
      var n := |ext| - 1;
      ExtensionSkipped(p, ext[..n]);
      assert ext[n] in ext;
    }
  }

  /** The whole line: the size counts, the extension does not. Then comes the chunk's data, or the trailer. */
  lemma SizeLine(p: Parser, field: seq<Byte>, digits: seq<nat>, ext: seq<Byte>)
    requires p.error == OK && p.state == ChunkSizeStart && p.nread + |field| + |ext| + 2 <= HTTP_MAX_HEADER_SIZE
    requires field != [] && Spells(field, digits) && Value(digits) <= ULLONG_MAX - 16 && Extension(ext)
    ensures Run(p, field + ext + [CR, LF]) ==
              p.(contentLength := Value(digits), nread := 0,
                 state := if Value(digits) == 0 then HeaderFieldStart else ChunkData)
  {
    hide Run, Spells, Extension;
    SizeIsRead(p, field, digits);
    RunJoins(p, field, ext);
    ExtensionSkipped(Run(p, field), ext);
    RunJoins(p, field + ext, [CR, LF]);
    RunTwo(Run(p, field + ext), CR, LF);
  }

  /** However its size is written, a chunk is delivered whole, and the next one can follow. */
  lemma ChunkIsTaken(p: Parser, field: seq<Byte>, digits: seq<nat>, ext: seq<Byte>, data: seq<Byte>)
    requires p.error == OK && p.state == ChunkSizeStart && p.nread == 0
    requires |field| + |ext| + 2 <= HTTP_MAX_HEADER_SIZE && field != [] && Spells(field, digits) && Extension(ext)
    requires 0 < Value(digits) == |data| <= ULLONG_MAX - 16
    ensures Run(p, field + ext + [CR, LF] + data + [CR, LF]) == p.(body := p.body + data, contentLength := 0)
  {
    hide Run, Spells, Extension, Step;
    var line := field + ext + [CR, LF];
    SizeLine(p, field, digits, ext);
    RunJoins(p, line, data);
    RunChunkData(Run(p, line), data);
    RunJoins(p, line + data, [CR, LF]);
    RunTwo(Run(p, line + data), CR, LF);
    ChunkEnds(Run(p, line + data));
  }

  /** Anything else is refused where it stands. */
  lemma NoSize(p: Parser, ch: Byte)
    requires p.error == OK && p.nread < HTTP_MAX_HEADER_SIZE && !exists v: nat :: Writes(ch, v)
    ensures p.state == ChunkSizeStart ==> Step(p, ch).error == INVALID_CHUNK_SIZE
    ensures p.state == ChunkSize ==>
              (Step(p, ch).error == INVALID_CHUNK_SIZE <==> ch != CR && ch != SEMICOLON && ch != SPACE)
  {
    hide Writes, Unhex;
    UnhexIsPlace(ch);
  }

  /** A Content-Length of decimal digits, leading zeros included, is taken as the number they stand for, if and only if
      that is at most 2^64 - 7. */
  lemma {:induction false} LengthIsRead(field: seq<Byte>, digits: seq<nat>)
    requires field != [] && Spells(field, digits) && forall i :: 0 <= i < |digits| ==> digits[i] < 10
    ensures ContentLength(field) == if Value10(digits) <= ULLONG_MAX - 6 then Some(Value10(digits)) else None
  {
    DecimalSpelled(field, digits);
    ContentLengthIs(field);
  }

  lemma {:induction false} DecimalSpelled(field: seq<Byte>, digits: seq<nat>)
    requires Spells(field, digits) && forall i :: 0 <= i < |digits| ==> digits[i] < 10
    ensures Decimal(field) == Value10(digits) && forall i :: 0 <= i < |field| ==> IsDigit(field[i])
  {
    hide Writes, IsDigit;
    if field != [] {
      var n := |field| - 1;
      DecimalSpelled(field[..n], digits[..n]);
      PlaceOfDigit(field[n]);
      assert forall i :: 0 <= i < n ==> field[i] == field[..n][i];
    }
  }

  /** The decimal digits are the first ten. */
  lemma PlaceOfDigit(ch: Byte)
    ensures forall v: nat :: Writes(ch, v) && v < 10 ==> IsDigit(ch) && v == ch - 48
    ensures IsDigit(ch) ==> exists v: nat :: v < 10 && Writes(ch, v)
  {
    if IsDigit(ch) {
      assert Writes(ch, ch - 48);
    }
  }

  /** The header limit: the 81921st byte of a line, or of what stands between chunks, is one too many. */
  lemma HeaderLimit(p: Parser, ch: Byte)
    requires p.error == OK && p.state.ParsingHeader()
    ensures Step(p, ch).error == HEADER_OVERFLOW <==>
              p.nread >= 81920 || (p.nread == 81919 && p.state == HeaderFieldStart && ch == LF)
  {
  }

  /** A trailer field begins with a token character (section 2.2 of RFC 2616): visible ASCII, and no separator. */
  lemma TokenIs(ch: Byte)
    ensures IsToken(ch) <==> 32 < ch < 127 && ch as char !in "()<>@,;:\\\"/[]?={}"
  {
  }
}
