/** LzmaDecode, and the encoder object followed by the decoder object on the bytes it wrote. */
module LzmaCodec {
  import opened Bits
  import opened Bytes
  import opened RangeSpec
  import opened RangeDecoder
  import opened LzmaContexts
  import opened LzmaPackets
  import opened LzmaRun
  import opened LzmaStream
  import opened LzmaLoop
  import opened LzmaRoundTrip
  import opened LzmaFeed
  import opened LzmaBuffer
  import opened LzmaEncoder
  import opened LzmaDecoder

  /** SZ_OK, SZ_ERROR_DATA and SZ_ERROR_INPUT_EOF */
  datatype SRes = Fine | DataError | InputEof

  /** What the decoder makes of src from a fresh start. */
  ghost function FreshCall(p: Props, dic: seq<Byte>, src: seq<Byte>, finishEnd: bool): Fed
    requires PropsOk(p)
  {
    FreshOk(p, dic, |dic|);
    Call(p, Fresh(p, dic), 0, src, |dic|, finishEnd)
  }

  /** LzmaDecode: the output buffer is the dictionary. */
  method LzmaDecode(p: Props, dest: array<Byte>, src: seq<Byte>, finishEnd: bool)
    returns (res: SRes, destLen: nat, srcLen: nat, status: Status)
    requires PropsOk(p)
    modifies dest
    ensures |src| < INIT_SIZE ==>
              res == InputEof && status == NotSpecified && destLen == srcLen == 0 && dest[..] == old(dest[..])
    ensures |src| >= INIT_SIZE ==>
              var r := FreshCall(p, old(dest[..]), src, finishEnd);
              && res == (if !r.ok then DataError else if r.status == NeedsMoreInput then InputEof else Fine)
              && status == r.status && dest[..] == r.f.st.dic && destLen == r.f.st.dicPos && srcLen == r.used
  {
    hide Call, MayCall, SameButProbs;
    destLen, srcLen, status := 0, 0, NotSpecified;
    if |src| < INIT_SIZE { return InputEof, destLen, srcLen, status; }
    var dec := new LzmaDec(p, dest);
    FreshOk(p, dest[..], dest.Length);
    var ok;
    ok, status, srcLen := dec.DecodeToDic(0, src, dest.Length, finishEnd);
    SameFields(dec.St(), FreshCall(p, old(dest[..]), src, finishEnd).f.st);
    destLen := dec.dicPos;
    res := if !ok then DataError else if status == NeedsMoreInput then InputEof else Fine;
  }

  /**
   * The whole way in one call: whatever legal parse the encoder is given and whatever room there is, the decoder
   * restores the data from the bytes written, with anything behind them, as far as there is room. With room for all of
   * them it consumes exactly the bytes written, unless it is left to the caller to read the end mark. Only an unmarked
   * stream may not be given more room than it has data.
   */
  method CompressThenExpand(p: Props, data: seq<Byte>, pkts: seq<Packet>, mark: bool, extra: seq<Byte>,
                            dest: array<Byte>, finishEnd: bool)
    returns (out: seq<Byte>, res: SRes, destLen: nat, srcLen: nat, status: Status)
    requires PropsOk(p) && p.dicSize <= 0x4000_0000 && Parses(p, CONTROL_INIT, [], pkts, data)
    requires mark || dest.Length <= |data|
    modifies dest
    ensures destLen == Least(dest.Length, |data|) && dest[..destLen] == data[..destLen]
    ensures Reported(res == Fine, status, dest.Length, |data|, mark, finishEnd)
    ensures AllRead(dest.Length, |data|, mark, finishEnd) ==> srcLen == |out|
    ensures out != [] && out[0] == 0
  {
    hide Call, MayCall, Parses, AfterAll, StreamSyms, Steps;
    var enc := new LzmaEnc(p, mark);
    enc.Encode(data, pkts);
    out := enc.rc.out;
    StreamLength(p, pkts, data, mark, out);
    FirstByte(p, pkts, data, mark, out);
    StreamRoundTrip(p, pkts, data, mark, out, extra, dest[..], dest.Length, finishEnd);
    res, destLen, srcLen, status := LzmaDecode(p, dest, out + extra, finishEnd);
  }

  /**
   * The whole way through a circular dictionary buffer: it need only be as large as the dictionary, whatever it held,
   * and wraps as often as the data are longer.
   */
  method CompressThenFill(p: Props, data: seq<Byte>, pkts: seq<Packet>, mark: bool, extra: seq<Byte>, dic: array<Byte>,
                          dest: array<Byte>, finishEnd: bool)
    returns (out: seq<Byte>, ok: bool, destLen: nat, srcLen: nat, status: Status)
    requires PropsOk(p) && p.dicSize <= 0x4000_0000 && Parses(p, CONTROL_INIT, [], pkts, data)
    requires p.dicSize <= dic.Length && dest != dic && (mark || dest.Length <= |data|)
    modifies dic, dest
    ensures destLen == Least(dest.Length, |data|) && dest[..destLen] == data[..destLen]
    ensures Reported(ok, status, dest.Length, |data|, mark, finishEnd)
    ensures AllRead(dest.Length, |data|, mark, finishEnd) ==> srcLen == |out|
  {
    hide ToBuf, MayFill, Parses, AfterAll, StreamSyms, Steps;
    var enc := new LzmaEnc(p, mark);
    enc.Encode(data, pkts);
    out := enc.rc.out;
    StreamToBuf(p, pkts, data, mark, out, extra, dic[..], dest.Length, finishEnd);
    var dec := new LzmaDec(p, dic);
    ghost var base;
    ok, status, destLen, srcLen, base := dec.DecodeToBuf(0, dest, out + extra, finishEnd);
  }

  lemma {:induction false} FirstByte(p: Props, pkts: seq<Packet>, data: seq<Byte>, mark: bool, out: seq<Byte>)
    requires Stream(p, pkts, data, mark, out)
    ensures out != [] && out[0] == 0
  {
    hide AfterAll, Steps, StreamSyms, Parses, Reads;
    FlushedIsReadable(out, [], Steps(map[], StreamSyms(p, CONTROL_INIT, [], pkts, mark)));
  }
}
