/** The parser on whole buffers: `http_parser_execute`'s loop over a buffer, which takes stretches of a body at
    once and hands them over when they end or the buffer does. */
module ChunkExecute {
  import opened Bytes
  import opened Options
  import opened ChunkParser

  class HttpParser {
    var state: State
    var contentLength: nat
    var nread: nat
    var error: Errno
    /** The bytes of all `on_body` calls so far, and the number of `on_message_complete` calls. */
    var body: seq<Byte>
    var completes: nat

    function Value(): Parser
      reads this
    {
      Parser(state, contentLength, nread, error, body, completes)
    }

    /** The parser if the bytes from `mark` to `p` had been handed over. */
    ghost function Seen(data: seq<Byte>, mark: Option<nat>, p: nat): Parser
      requires mark.Some? ==> mark.value <= p
      requires p <= |data|
      reads this
    {
      if mark.Some? then Value().(body := body + data[mark.value..p]) else Value()
    }

    constructor (state: State, contentLength: nat)
      ensures Value() == Parser(state, contentLength, 0, OK, [], 0)
    {
      this.state, this.contentLength := state, contentLength;
      nread, error, body, completes := 0, OK, [], 0;
    }

    /** Input ended: only a body up to the end of input is complete then. Behind a message it depends on what has
        begun there. */
    method ExecuteEmpty() returns (parsed: nat)
      modifies this
      ensures Value() == InputEnds(old(Value())) || (old(state) == Beyond && Value() == old(Value()))
      ensures parsed == if error == old(error) then 0 else 1
      ensures completes == old(completes) + if old(error) == OK && old(state) == BodyIdentityEof then 1 else 0
      ensures old(error) != OK || old(state) in {BodyIdentityEof, Finished} ==> parsed == 0
      ensures old(error) == OK && old(state) !in {BodyIdentityEof, Finished, Beyond} ==>
                parsed == 1 && error == INVALID_EOF_STATE
      ensures body == old(body) && contentLength == old(contentLength) && state == old(state)
    {
      if error != OK {
        return 0;
      }
      if state == BodyIdentityEof {
        completes := completes + 1;
        return 0;
      } else if state == Finished {
        return 0;
      } else if state == Beyond {
        // between messages nothing happens, in a header it is an error
        if * {
          return 0;
        }
      }
      error := INVALID_EOF_STATE;
      return 1;
    }

    /** `CALLBACK_DATA(body)`. */
    method HandOver(data: seq<Byte>, mark: Option<nat>, p: nat)
      requires (mark.Some? ==> mark.value <= p) && p <= |data|
      modifies this`body
      ensures Value() == old(Seen(data, mark, p))
    {
      if mark.Some? {
        body := body + data[mark.value..p];
      }
    }

    /** `COUNT_HEADER_SIZE(1)`. */
    method CountHeaderSize()
      requires error == OK
      modifies this`nread, this`error
      ensures Value() == Count(old(Value()))
    {
      nread := nread + 1;
      if nread > HTTP_MAX_HEADER_SIZE {
        error := HEADER_OVERFLOW;
      }
    }

    /** The states that take one byte and leave the body alone. */
    method TakeByte(ch: Byte)
      requires error == OK && Inv(Value())
      requires state !in {ChunkData, BodyIdentity, BodyIdentityEof}
      modifies this`state, this`contentLength, this`nread, this`error, this`completes
      ensures Value() == Step(old(Value()), ch)
    {
      if state.ParsingHeader() {
        CountHeaderSize();
        if error != OK {
          return;
        }
      }
      match state {
        case ChunkSizeStart =>
          assert nread == 1;
          var unhexVal := Unhex(ch);
          if unhexVal == -1 {
            error := INVALID_CHUNK_SIZE;
            return;
          }
          contentLength := unhexVal;
          state := ChunkSize;
        case ChunkSize =>
          if ch == CR {
            state := ChunkSizeAlmostDone;
            return;
          }
          var unhexVal := Unhex(ch);
          if unhexVal == -1 {
            if ch == SEMICOLON || ch == SPACE {
              state := ChunkParameters;
              return;
            }
            error := INVALID_CHUNK_SIZE;
            return;
          }
          var t := (contentLength * 16 + unhexVal) % (ULLONG_MAX + 1);
          if (ULLONG_MAX - 16) / 16 < contentLength {
            error := INVALID_CONTENT_LENGTH;
            return;
          }
          contentLength := t;
        case ChunkParameters =>
          if ch == CR {
            state := ChunkSizeAlmostDone;
          }
        case ChunkSizeAlmostDone =>
          if ch != LF {
            error := STRICT;
            return;
          }
          nread := 0;
          state := if contentLength == 0 then HeaderFieldStart else ChunkData;
        case HeaderFieldStart =>
          if ch == CR {
            state := HeadersAlmostDone;
          } else if ch == LF {
            // executed again in the next state, which counts the byte once more
            state := HeadersAlmostDone;
            CountHeaderSize();
            if error != OK {
              return;
            }
            state := Finished;
            completes := completes + 1;
          } else if !IsToken(ch) {
            error := INVALID_HEADER_TOKEN;
          } else {
            state := Beyond;
          }
        case HeadersAlmostDone =>
          if ch != LF {
            error := STRICT;
            return;
          }
          state := Finished;
          completes := completes + 1;
        case ChunkDataAlmostDone =>
          assert contentLength == 0;
          if ch != CR {
            error := STRICT;
            return;
          }
          state := ChunkDataDone;
        case ChunkDataDone =>
          if ch != LF {
            error := STRICT;
            return;
          }
          nread := 0;
          state := ChunkSizeStart;
        case Finished =>
          state := Beyond;
        case Beyond =>
      }
    }

    /** One byte outside a body: the bytes of a chunk in this buffer are handed over with the CR behind it. */
    method TakeOne(data: seq<Byte>, mark: Option<nat>, p: nat, ghost was: Parser)
      returns (next: nat, bodyMark: Option<nat>)
      requires p < |data| && (mark.Some? ==> mark.value < p && state == ChunkDataAlmostDone)
      requires error == OK && Inv(Value()) && state !in {ChunkData, BodyIdentity, BodyIdentityEof}
      requires Seen(data, mark, p) == Run(was, data[..p]) && body == HandedOver(was, data, p)
      modifies this
      ensures error == OK ==> next == p + 1 && bodyMark == None && Value() == Run(was, data[..p + 1])
      ensures next <= |data| && body == HandedOver(was, data, next)
      ensures error != OK ==>
                && next == p && body == old(body)
                && Value() == Run(was, data[..p + 1]).(body := body)
      ensures Inv(Value())
    {
      hide Run, Inv, Switch, HandedOver;
      var ch, before := data[p], state;
      ghost var r := Run(was, data[..p]);
      RunOne(was, data, p);
      StepKeeps(Value(), ch);
      StepIgnoresBody(r, ch, body);
      TakeByte(ch);
      InvIgnoresBody(Value(), r.body);
      if error != OK {
        return p, mark;
      }
      HandedByOne(was, data, p);
      ghost var after := Value();
      if before == ChunkDataAlmostDone {
        HandOver(data, mark, p);
      }
      InvIgnoresBody(after, body);
      return p + 1, None;
    }

    /** `s_chunk_data`: what this buffer has of the chunk. */
    method TakeChunkData(data: seq<Byte>, mark: Option<nat>, p: nat, ghost was: Parser)
      returns (next: nat, bodyMark: Option<nat>)
      requires p < |data| && (mark.Some? ==> mark.value < p)
      requires error == OK && Inv(Value()) && state == ChunkData
      requires Seen(data, mark, p) == Run(was, data[..p]) && body == HandedOver(was, data, p)
      modifies this`contentLength, this`state
      ensures p < next <= |data| && bodyMark.Some? && bodyMark.value < next
      ensures error == OK && state in {ChunkData, ChunkDataAlmostDone} && Inv(Value())
      ensures Seen(data, bodyMark, next) == Run(was, data[..next]) && body == HandedOver(was, data, next)
    {
      hide Run, Inv, HandedOver;
      TakenKeeps(Value(), |data| - p);
      assert contentLength != 0 && contentLength != ULLONG_MAX;
      var toRead := if contentLength <= |data| - p then contentLength else |data| - p;
      bodyMark := if mark.Some? then mark else Some(p);
      next := p + toRead;
      ghost var r := Run(was, data[..p]);
      RunMore(was, data, p, next);
      RunChunkData(r, data[p..next]);
      MarkGrows(data, mark, p, next, body);
      HandedByStretch(was, data, p, next);
      contentLength := contentLength - toRead;
      if contentLength == 0 {
        state := ChunkDataAlmostDone;
      }
    }

    /** `s_body_identity`, and at its end `s_message_done`, which sees the last byte again. */
    method TakeIdentity(data: seq<Byte>, mark: Option<nat>, p: nat, ghost was: Parser)
      returns (next: nat, bodyMark: Option<nat>)
      requires p < |data| && (mark.Some? ==> mark.value < p)
      requires error == OK && Inv(Value()) && state == BodyIdentity
      requires Seen(data, mark, p) == Run(was, data[..p]) && body == HandedOver(was, data, p)
      modifies this
      ensures p < next <= |data| && (bodyMark.Some? ==> bodyMark.value < next && state == BodyIdentity)
      ensures error == OK && Inv(Value())
      ensures Seen(data, bodyMark, next) == Run(was, data[..next]) && body == HandedOver(was, data, next)
    {
      hide Run, Inv, HandedOver;
      TakenKeeps(Value(), |data| - p);
      assert contentLength != 0 && contentLength != ULLONG_MAX;
      var toRead := if contentLength <= |data| - p then contentLength else |data| - p;
      bodyMark := if mark.Some? then mark else Some(p);
      next := p + toRead;
      ghost var r := Run(was, data[..p]);
      RunMore(was, data, p, next);
      RunIdentity(r, data[p..next]);
      MarkGrows(data, mark, p, next, body);
      HandedByStretch(was, data, p, next);
      contentLength := contentLength - toRead;
      if contentLength == 0 {
        HandOver(data, bodyMark, next);
        bodyMark := None;
        state := Finished;
        completes := completes + 1;
      }
    }

    /** `s_body_identity_eof`. */
    method TakeToEof(data: seq<Byte>, mark: Option<nat>, p: nat, ghost was: Parser)
      returns (next: nat, bodyMark: Option<nat>)
      requires p < |data| && (mark.Some? ==> mark.value < p)
      requires error == OK && state == BodyIdentityEof
      requires Seen(data, mark, p) == Run(was, data[..p]) && body == HandedOver(was, data, p)
      ensures next == |data| && bodyMark.Some? && bodyMark.value < next
      ensures Seen(data, bodyMark, next) == Run(was, data[..next]) && body == HandedOver(was, data, next)
    {
      hide Run, HandedOver;
      bodyMark := if mark.Some? then mark else Some(p);
      next := |data|;
      RunMore(was, data, p, next);
      RunToEof(Run(was, data[..p]), data[p..next]);
      MarkGrows(data, mark, p, next, body);
      HandedByStretch(was, data, p, next);
    }

    /** A buffer. Input that is accepted has exactly the effect of its bytes one by one; on an error, the same
        error is reported at the same byte, and of the body exactly the stretches that had ended were handed
        over. */
    method Execute(data: seq<Byte>) returns (parsed: nat)
      requires Inv(Value()) && data != []
      modifies this
      ensures error == Run(old(Value()), data).error
      ensures error == OK ==> parsed == |data| && Value() == Run(old(Value()), data)
      ensures error != OK && old(error) == OK ==>
                && parsed < |data|
                && Run(old(Value()), data[..parsed]).error == OK
                && Run(old(Value()), data[..parsed + 1]).error == error
                && Value().(body := []) == Run(old(Value()), data[..parsed + 1]).(body := [])
                && (exists k: nat :: OpenSince(old(Value()), data, parsed, k)
                                     && body == Run(old(Value()), data[..k]).body)
      ensures old(error) != OK ==> parsed == 0 && Value() == old(Value())
      ensures Inv(Value())
    {
      ghost var was := Value();
      if error != OK {
        FailedStays(was, data);
        return 0;
      }
      hide Run, Inv;
      assert data[..0] == [] && Run(was, []) == was by { RunNothing(was); }
      var bodyMark: Option<nat> := None;
      var p := 0;
      while p != |data|
        invariant p <= |data| && (bodyMark.Some? ==> bodyMark.value < p)
        invariant error == OK && Seen(data, bodyMark, p) == Run(was, data[..p])
        invariant body == HandedOver(was, data, p)
        invariant bodyMark.Some? ==> state in {ChunkData, ChunkDataAlmostDone, BodyIdentity, BodyIdentityEof}
        invariant Inv(Value())
        decreases |data| - p
      {
        if state == ChunkData {
          p, bodyMark := TakeChunkData(data, bodyMark, p, was);
        } else if state == BodyIdentity {
          p, bodyMark := TakeIdentity(data, bodyMark, p, was);
        } else if state == BodyIdentityEof {
          p, bodyMark := TakeToEof(data, bodyMark, p, was);
        } else {
          p, bodyMark := TakeOne(data, bodyMark, p, was);
          if error != OK {
            FailedAt(was, data, p);
            var k := HandedIs(was, data, p);
            return p;
          }
        }
      }
      assert data[..|data|] == data;
      HandOver(data, bodyMark, p);
      return |data|;
    }

    /** `parseBuffer`: whether the whole buffer was accepted. */
    method ParseBuffer(data: seq<Byte>) returns (res: bool)
      requires Inv(Value())
      modifies this
      ensures Inv(Value())
      ensures data != [] ==> error == Run(old(Value()), data).error
      ensures data != [] ==> (res <==> Run(old(Value()), data).error == OK)
      ensures res && data != [] ==> Value() == Run(old(Value()), data)
      ensures data == [] ==> Value() == InputEnds(old(Value())) || (old(state) == Beyond && Value() == old(Value()))
      ensures data == [] ==> (res <==> error == old(error))
    {
      var parsedSize: nat;
      if data == [] {
        parsedSize := ExecuteEmpty();
      } else {
        parsedSize := Execute(data);
      }
      res := parsedSize == |data|;
    }
  }

  /** What has been handed over after `n` bytes: the body without the stretch that is still open, if this buffer
      holds its start. */
  ghost function HandedOver(was: Parser, data: seq<Byte>, n: nat): seq<Byte>
    requires n <= |data|
  {
    if n == 0 then was.body
    else if InStretch(Run(was, data[..n])) then
      HandedOver(was, data, n - 1)
    else Run(was, data[..n]).body
  }

  /** After a byte of a stretch of body, or the line end expected behind a chunk's data. */
  predicate InStretch(p: Parser) {
    p.state in {ChunkData, ChunkDataAlmostDone, BodyIdentity, BodyIdentityEof}
  }

  /** After `n` bytes a stretch of body is open that began behind byte `k`, or with the buffer, or none is and `k` is
      `n`. */
  ghost predicate OpenSince(was: Parser, data: seq<Byte>, n: nat, k: nat) {
    && k <= n <= |data|
    && (forall i :: k < i <= n ==> InStretch(Run(was, data[..i])))
    && (k > 0 ==> !InStretch(Run(was, data[..k])))
  }

  lemma {:induction false} HandedIs(was: Parser, data: seq<Byte>, n: nat) returns (k: nat)
    requires n <= |data|
    ensures OpenSince(was, data, n, k) && HandedOver(was, data, n) == Run(was, data[..k]).body
  {
    hide Run;
    if n == 0 {
      RunNothing(was);
      assert data[..0] == [];
      k := 0;
    } else if InStretch(Run(was, data[..n])) {
      k := HandedIs(was, data, n - 1);
    } else {
      k := n;
    }
  }

  lemma HandedByOne(was: Parser, data: seq<Byte>, p: nat)
    requires p < |data|
    requires Run(was, data[..p]).state !in {ChunkData, BodyIdentity, BodyIdentityEof}
    requires Run(was, data[..p + 1]).error == OK
    ensures HandedOver(was, data, p + 1) == Run(was, data[..p + 1]).body
  {
    hide Run;
    RunOne(was, data, p);
    RunNothing(was);
    assert data[..0] == [];
  }

  /** Inside a stretch of a body nothing is handed over. */
  lemma {:induction false} HandedByStretch(was: Parser, data: seq<Byte>, p: nat, next: nat)
    requires p < next <= |data|
    requires
      var r := Run(was, data[..p]);
      && r.error == OK && r.state in {ChunkData, BodyIdentity, BodyIdentityEof}
      && (r.state != BodyIdentityEof ==> next - p <= r.contentLength)
    ensures
      var q := Run(was, data[..next]);
      HandedOver(was, data, next) == if q.state == Finished then q.body else HandedOver(was, data, p)
  {
    hide Run;
    var r := Run(was, data[..p]);
    RunMore(was, data, p, next);
    StretchState(r, data[p..next]);
    if next > p + 1 {
      HandedByStretch(was, data, p, next - 1);
      RunMore(was, data, p, next - 1);
      StretchState(r, data[p..next - 1]);
    }
  }

  lemma StretchState(r: Parser, data: seq<Byte>)
    requires r.error == OK && r.state in {ChunkData, BodyIdentity, BodyIdentityEof} && data != []
    requires r.state != BodyIdentityEof ==> |data| <= r.contentLength
    ensures Run(r, data).state ==
              if r.state == BodyIdentityEof || |data| < r.contentLength then r.state
              else if r.state == ChunkData then ChunkDataAlmostDone else Finished
  {
    hide Run;
    if r.state == ChunkData {
      RunChunkData(r, data);
    } else if r.state == BodyIdentity {
      RunIdentity(r, data);
    } else {
      RunToEof(r, data);
    }
  }

  lemma RunOne(was: Parser, data: seq<Byte>, p: nat)
    requires p < |data|
    ensures Run(was, data[..p + 1]) == Step(Run(was, data[..p]), data[p])
  {
    assert data[..p + 1][..p] == data[..p];
  }

  lemma RunMore(was: Parser, data: seq<Byte>, p: nat, next: nat)
    requires p <= next <= |data|
    ensures Run(was, data[..next]) == Run(Run(was, data[..p]), data[p..next])
  {
    assert data[..next] == data[..p] + data[p..next];
    RunJoins(was, data[..p], data[p..next]);
  }

  /** After an error nothing happens any more. */
  lemma FailedAt(was: Parser, data: seq<Byte>, p: nat)
    requires p < |data| && Run(was, data[..p + 1]).error != OK
    ensures Run(was, data) == Run(was, data[..p + 1])
  {
    assert data[..|data|] == data;
    RunMore(was, data, p + 1, |data|);
    FailedStays(Run(was, data[..p + 1]), data[p + 1..|data|]);
  }

  /** Outside a body, what was handed over does not matter. */
  lemma StepIgnoresBody(p: Parser, ch: Byte, body: seq<Byte>)
    requires p.state !in {ChunkData, BodyIdentity, BodyIdentityEof}
    ensures Step(p.(body := body), ch) == Step(p, ch).(body := body) && Step(p, ch).body == p.body
  {
    hide Switch;
    SwitchIgnoresBody(p, ch, body);
    SwitchIgnoresBody(Count(p), ch, body);
  }

  lemma SwitchIgnoresBody(p: Parser, ch: Byte, body: seq<Byte>)
    requires p.state !in {ChunkData, BodyIdentity, BodyIdentityEof}
    ensures Switch(p.(body := body), ch) == Switch(p, ch).(body := body) && Switch(p, ch).body == p.body
  {
    hide Unhex, Accumulate, IsToken;
  }

  lemma InvIgnoresBody(p: Parser, body: seq<Byte>)
    requires Inv(p)
    ensures Inv(p.(body := body))
  {
  }

  /** A marked stretch that goes on. */
  lemma MarkGrows(data: seq<Byte>, mark: Option<nat>, p: nat, next: nat, body: seq<Byte>)
    requires p <= next <= |data| && (mark.Some? ==> mark.value <= p)
    ensures
      var from := if mark.Some? then mark.value else p;
      body + data[from..next] == (if mark.Some? then body + data[mark.value..p] else body) + data[p..next]
  {
    var from := if mark.Some? then mark.value else p;
    assert data[from..next] == data[from..p] + data[p..next];
  }

  /** The source's assertions on a body of known size, and what taking up to `k` bytes of it keeps. */
  lemma TakenKeeps(v: Parser, k: nat)
    requires Inv(v) && v.error == OK && v.state in {ChunkData, BodyIdentity} && 0 < k
    ensures v.contentLength != 0 && v.contentLength != ULLONG_MAX
    ensures k < v.contentLength ==> Inv(v.(contentLength := v.contentLength - k))
    ensures v.state == ChunkData ==> Inv(v.(contentLength := 0, state := ChunkDataAlmostDone))
    ensures forall body :: v.state == BodyIdentity ==> Inv(Complete(v.(contentLength := 0, body := body)))
  {
  }
}
