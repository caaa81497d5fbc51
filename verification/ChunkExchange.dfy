/** Both ends of a chunked body: what the stream sends for a list of writes, and what the parser makes of it when
    it comes in as buffers of other sizes. */
module ChunkExchange {
  import opened Bytes
  import opened ChunkParser
  import opened ChunkPrinter
  import opened ChunkExecute

  /** One write after the other: the header goes out once, before the first chunk. */
  method SendAll(stream: HttpByteStream, writes: seq<seq<Byte>>)
    requires forall i :: 0 <= i < |writes| ==> |writes[i]| <= 0xFFFF_FFFF
    modifies stream`sent, stream`wroteHeader
    ensures stream.wroteHeader == (old(stream.wroteHeader) || writes != [])
    ensures stream.sent ==
              old(stream.sent)
              + (if old(stream.wroteHeader) || writes == [] then [] else stream.header(stream.status))
              + Print(writes)
  {
    hide Chunk;
    ghost var first := if stream.wroteHeader || writes == [] then [] else stream.header(stream.status);
    assert writes[..0] == [] && writes[..|writes|] == writes;
    assert stream.sent == stream.sent + [] + [];
    for i := 0 to |writes|
      invariant stream.wroteHeader == (old(stream.wroteHeader) || i > 0)
      invariant stream.sent == old(stream.sent) + (if i == 0 then [] else first) + Print(writes[..i])
    {
      var _ := stream.Write(writes[i]);
      assert writes[..i + 1][..i] == writes[..i];
    }
  }

  /** One buffer after the other, up to the first that is not accepted. An empty buffer would mean the end of
      input; as long as there is none, how the input is split makes no difference. */
  method ReceiveAll(parser: HttpParser, buffers: seq<seq<Byte>>) returns (res: bool)
    requires Inv(parser.Value()) && parser.error == OK
    requires forall i :: 0 <= i < |buffers| ==> buffers[i] != []
    modifies parser
    ensures Inv(parser.Value())
    ensures parser.error == Run(old(parser.Value()), Flatten(buffers)).error
    ensures res <==> parser.error == OK
    ensures res ==> parser.Value() == Run(old(parser.Value()), Flatten(buffers))
  {
    hide Run, Inv;
    ghost var was := parser.Value();
    RunNothing(was);
    assert buffers[..0] == [] && buffers[..|buffers|] == buffers;
    for i := 0 to |buffers|
      invariant Inv(parser.Value()) && parser.Value() == Run(was, Flatten(buffers[..i])) && parser.error == OK
    {
      var n := i + 1;
      assert buffers[..n][..i] == buffers[..i];
      RunJoins(was, Flatten(buffers[..i]), buffers[i]);
      res := parser.ParseBuffer(buffers[i]);
      if !res {
        FlattenSplits(buffers, n);
        RunJoins(was, Flatten(buffers[..n]), Flatten(buffers[n..]));
        FailedStays(Run(was, Flatten(buffers[..n])), Flatten(buffers[n..]));
        return;
      }
    }
    res := true;
  }

  lemma {:induction false} FlattenSplits(buffers: seq<seq<Byte>>, n: nat)
    requires n <= |buffers|
    ensures Flatten(buffers) == Flatten(buffers[..n]) + Flatten(buffers[n..])
  {
    var last := |buffers| - 1;
    if n == |buffers| {
      assert buffers[..n] == buffers && buffers[n..] == [];
    } else {
      FlattenSplits(buffers[..last], n);
      assert buffers[..last][..n] == buffers[..n] && buffers[..last][n..] == buffers[n..][..last - n];
    }
  }

  /** A body sent and received, behind a header and perhaps other messages. Whatever non-empty buffers its bytes
      come in, the parser takes them all and hands over exactly the bytes written and one end of message. The header
      sent gives no length, so at the first chunk the length is ULLONG_MAX; it may be anything. */
  method Exchange(stream: HttpByteStream, writes: seq<seq<Byte>>, parser: HttpParser, buffers: seq<seq<Byte>>)
    returns (res: bool)
    requires !stream.wroteHeader
    requires parser.error == OK && parser.state == ChunkSizeStart && Inv(parser.Value())
    requires forall i :: 0 <= i < |writes| ==> 0 < |writes[i]| <= 0xFFFF_FFFF
    requires forall i :: 0 <= i < |buffers| ==> buffers[i] != []
    requires Flatten(buffers) == Print(writes + [[]])
    modifies stream`sent, stream`wroteHeader, parser
    ensures stream.sent == old(stream.sent) + stream.header(stream.status) + Flatten(buffers)
    ensures res && parser.error == OK
    ensures parser.body == old(parser.body) + Flatten(writes)
    ensures parser.completes == old(parser.completes) + 1 && parser.state == Finished
  {
    hide Print, Run, Chunk;
    PrintRuns(parser.Value(), writes);
    SendAll(stream, writes + [[]]);
    res := ReceiveAll(parser, buffers);
  }
}
