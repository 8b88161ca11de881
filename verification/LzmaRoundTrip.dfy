// The loop of lzip_decode in main.c around the resumable decoder, and the round trip from
// data through any true parse of it to stream and back.

module LzmaRoundTrips {
  import opened Bytes
  import opened LzmaModel
  import opened LzmaStreams
  import opened LzmaProgress
  import opened LzmaEncoders
  import opened RangeDecoders
  import opened LzmaDecoders
  import opened LzmaShells

  /**
   * Decodes the stream at the start of a file, as the member's trailer lies behind it.  The
   * input comes in pieces of any size and the output space of each call is any size.  All
   * cuts give the same output and stop at the stream's last byte.
   */
  method LzipDecode(props: Props, dicBufSize: nat, file: seq<Byte>, outBufSize: nat,
                    ghost enc: seq<Symbol>, ghost stream: seq<Byte>)
    returns (ok: bool, output: seq<Byte>, inPos: nat)
    requires ValidProps(props) && MIN_DICTIONARY <= dicBufSize <= LARGEST_DICTIONARY && outBufSize >= 1
    requires Playable(START, enc) && IsStream(props, enc, stream) && InDictionary(enc, dicBufSize)
    requires stream < file
    ensures ok && output == Run(START, enc).hist && inPos == |stream|
  {
    hide LzmaShell.Valid, LzmaShell.Bytes, LzmaShell.Held, LzmaDecoder.Valid, Fault, IsStream, Playable, Run,
         NumProbs, InDictionary;
    var shell := new LzmaShell(props, dicBufSize);
    ok, output, inPos := true, [], 0;
    var inSize := 0;
    shell.Genuine(enc, stream);
    while true
      invariant shell.Valid() && shell.dec.props == props && shell.dec.dicBufSize == dicBufSize
      invariant fresh(shell) && fresh(shell.dec) && fresh(shell.dec.rc) && fresh(shell.dec.dic)
      invariant fresh(shell.dec.rc.probs) && fresh(shell.tempBuf)
      invariant inPos <= inSize <= |file| && shell.Bytes() == file[..inPos] && shell.dec.hist == output
      invariant shell.Follows(enc, stream)
      decreases |file| - inPos + |Run(START, enc).hist| - |output|
    {
      if inPos == inSize {
        inSize :| inPos < inSize <= |file|;
      }
      var room :| 1 <= room <= outBufSize;
      var dest := new Byte[room];
      var inProcessed, outProcessed, status;
      Cut(stream, file, inPos, inSize);
      GenuineNoFault(props, enc, stream, dicBufSize, file[..inSize]);
      ok, outProcessed, inProcessed, status := shell.DecodeToBuf(dest, file[inPos..inSize]);
      assert ok;
      Cut(stream, file, inPos, inPos + inProcessed);
      Part(file, inPos, inSize, inProcessed);
      shell.Genuine(enc, stream);
      inPos := inPos + inProcessed;
      output := output + dest[..outProcessed];
      if inProcessed == 0 && outProcessed == 0 {
        ok := status == FinishedWithMark;
        return;
      }
    }
  }

  lemma Part(file: seq<Byte>, i: nat, j: nat, n: nat)
    requires i + n <= j <= |file|
    ensures file[i..j][..n] == file[i..i + n]
  {
  }

  lemma Cut(stream: seq<Byte>, file: seq<Byte>, i: nat, j: nat)
    requires stream <= file && i <= j <= |file|
    ensures Agrees(stream, file[..j]) && file[..i] + file[i..j] == file[..j]
  {
    if |stream| <= j {
      assert stream == file[..j][..|stream|];
    } else {
      assert stream[..j] == file[..j];
    }
  }

  /**
   * LZMA round trip: data, coded by any true parse of it whose distances fit the decoder's
   * dictionary, and decoded again from a file with anything behind the stream, comes back.
   */
  method RoundTrip(props: Props, data: seq<Byte>, decisions: seq<Decision>, trailer: seq<Byte>,
                   dicBufSize: nat, outBufSize: nat)
    returns (stream: seq<Byte>, ok: bool, output: seq<Byte>, inPos: nat)
    requires ValidProps(props) && MIN_DICTIONARY <= dicBufSize <= LARGEST_DICTIONARY && outBufSize >= 1 && trailer != []
    requires TrueParse(data, START, decisions) && InDictionary(Symbols(data, START, decisions), dicBufSize)
    ensures ok && output == data && inPos == |stream|
  {
    hide IsStream, Playable, Run, NumProbs, InDictionary;
    var encoder := new LzmaEncoder(props);
    encoder.Encode(data, decisions);
    stream := encoder.rc.out;
    ok, output, inPos := LzipDecode(props, dicBufSize, stream + trailer, outBufSize, Symbols(data, START, decisions), stream);
  }
}
