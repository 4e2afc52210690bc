/** Transfer engine: one logical read or write exchange over the bulk
    endpoints. The device is a pair of finite scripts: the outcome of each
    successive bulk IN transfer and of each successive bulk OUT transfer. A
    script that has run out stands for a device that no longer answers, which
    the host sees as a timeout. */
module Transfer {
  import opened Bytes
  import opened Errors
  import opened Consts
  import opened Codec

  /** The errors a bulk transfer itself can raise: a transfer error reported
      by the USB stack, or an elapsed timeout. */
  type TransportError = e: CamError | e.IsTransport() witness Timeout

  /** Outcome of one bulk IN transfer: the bytes received, or a transport
      failure. */
  datatype Reply = Data(bytes: Bytes) | Failed(error: TransportError)

  /** Outcome of one bulk OUT transfer. */
  datatype Ack = Accepted | Refused(error: TransportError)

  /** One transfer-level exchange; each draws one check value. */
  datatype Exchange =
    | ChunkedRead(cmd: seq<I8>)      // read_data
    | UncheckedRead(cmd: seq<I8>)    // read_data_unchecked
    | ChunkedWrite(cmd: seq<I8>)     // write_data
    | KeepaliveRead                  // send_keepalive

  /** One call of the retry layer: the command buffer and what it returned. */
  datatype Request = Request(cmd: seq<I8>, reply: Result<Bytes>)

  /** The session's view of the device: the remaining scripted outcomes and
      what has been done so far. */
  datatype Link = Link(
    ins: seq<Reply>,             // outcomes of the coming bulk IN transfers
    outs: seq<Ack>,              // outcomes of the coming bulk OUT transfers
    sent: seq<Bytes>,            // every bulk OUT payload, in order
    exchanges: seq<Exchange>,    // every transfer-level exchange, in order
    requests: seq<Request>)      // every retry-layer call, in order

  /** Session configuration: the source of check values (`rand_int`, the n-th
      exchange uses `rand(n)`) and the default try count. */
  datatype Env = Env(rand: nat -> I32, defaultTries: nat)

  /** A result together with the state of the link afterwards. */
  datatype Out<+T> = Out(result: Result<T>, link: Link)

  /** The check value the next exchange on `link` draws. */
  function NextCheck(env: Env, link: Link): I32
  {
    env.rand(|link.exchanges|)
  }

  /** `l` is a later state of `link`: no script grew back, and the logs were
      only appended to. */
  ghost predicate Follows(link: Link, l: Link)
  {
    && |l.ins| <= |link.ins| && |l.outs| <= |link.outs|
    && link.sent <= l.sent && link.exchanges <= l.exchanges && link.requests <= l.requests
  }

  lemma FollowsTrans(a: Link, b: Link, c: Link)
    requires Follows(a, b) && Follows(b, c)
    ensures Follows(a, c)
  {
  }

  /** One bulk OUT transfer of `data`. */
  function BulkOut(link: Link, data: Bytes): (o: Out<()>)
    ensures o.link.ins == link.ins && o.link.sent == link.sent + [data]
    ensures o.link.exchanges == link.exchanges && o.link.requests == link.requests
    ensures |o.link.outs| <= |link.outs|
    ensures o.result.Ok? ==> |link.outs| > 0 && link.outs[0].Accepted? && o.link.outs == link.outs[1..]
    ensures |link.outs| > 0 && link.outs[0].Accepted? ==> o.result.Ok?
    ensures o.result.Err? ==> o.result.error.IsTransport()
    ensures !o.result.Panic?
  {
    var l := link.(sent := link.sent + [data]);
    if |link.outs| == 0 then Out(Err(Timeout), l)
    else match link.outs[0]
      case Accepted => Out(Ok(()), l.(outs := link.outs[1..]))
      case Refused(e) => Out(Err(e), l.(outs := link.outs[1..]))
  }

  /** One bulk IN transfer. */
  function BulkIn(link: Link): (o: Out<Bytes>)
    ensures o.link.outs == link.outs && o.link.sent == link.sent
    ensures o.link.exchanges == link.exchanges && o.link.requests == link.requests
    ensures |o.link.ins| <= |link.ins|
    ensures o.result.Ok? ==> |link.ins| > 0 && link.ins[0] == Data(o.result.value) && o.link.ins == link.ins[1..]
    ensures |link.ins| > 0 && link.ins[0].Data? ==> o.result.Ok?
    ensures o.result.Err? ==> o.result.error.IsTransport()
    ensures !o.result.Panic?
  {
    if |link.ins| == 0 then Out(Err(Timeout), link)
    else match link.ins[0]
      case Data(b) => Out(Ok(b), link.(ins := link.ins[1..]))
      case Failed(e) => Out(Err(e), link.(ins := link.ins[1..]))
  }

  /** `read_data_unchecked`: one header, one bulk read, no trailer check. */
  function ReadDataUnchecked(env: Env, link: Link, cmd: seq<I8>): (o: Out<Bytes>)
    ensures Follows(link, o.link)
    ensures o.link.exchanges == link.exchanges + [UncheckedRead(cmd)]
    ensures o.link.requests == link.requests
    ensures o.result.Ok? ==> |o.link.ins| < |link.ins|
    ensures o.result.Err? ==> o.result.error.IsTransport()
    ensures !o.result.Panic?
  {
    var check := NextCheck(env, link);
    var l := link.(exchanges := link.exchanges + [UncheckedRead(cmd)]);
    var o := BulkOut(l, MakeCmdHeader(cmd, DEFAULT_MAX_RECV_SIZE, true, check));
    if !o.result.Ok? then Out(o.result.Cast(), o.link)
    else BulkIn(o.link)
  }

  /** The receive loop of `read_data`: append non-trailer chunks until a
      trailer arrives, keeping only the bytes before the trailer's last 13.
      A non-trailer chunk that would take the total past 65536 bytes is
      dropped and the loop ends with `Ok` of what was accumulated. */
  function ReadChunks(link: Link, checkInt: I32, acc: Bytes): (o: Out<Bytes>)
    ensures o.link.outs == link.outs && o.link.sent == link.sent
    ensures o.link.exchanges == link.exchanges && o.link.requests == link.requests
    ensures |o.link.ins| <= |link.ins|
    ensures o.result.Ok? ==> |o.link.ins| < |link.ins| && acc <= o.result.value
    ensures o.result.Err? ==> o.result.error.IsTransport()
    ensures !o.result.Panic?
    decreases |link.ins|
  {
    var i := BulkIn(link);
    if !i.result.Ok? then Out(i.result.Cast(), i.link)
    else
      var chunk := i.result.value;
      if IsMsgCsw(chunk, checkInt) then
        var tail := if |chunk| > CSW_SIZE then chunk[..|chunk| - CSW_SIZE] else [];
        Out(Ok(acc + tail), i.link)
      else if |chunk| + |acc| > DEFAULT_MAX_RECV_SIZE then
        Out(Ok(acc), i.link)
      else
        ReadChunks(i.link, checkInt, acc + chunk)
  }

  /** `read_data`: send the header (maximum size 65536, direction read), then
      run the receive loop with the same check value. */
  function ReadData(env: Env, link: Link, cmd: seq<I8>): (o: Out<Bytes>)
    ensures Follows(link, o.link)
    ensures o.link.exchanges == link.exchanges + [ChunkedRead(cmd)]
    ensures o.link.requests == link.requests
    ensures o.result.Ok? ==> |o.link.ins| < |link.ins|
    ensures o.result.Err? ==> o.result.error.IsTransport()
    ensures !o.result.Panic?
  {
    var check := NextCheck(env, link);
    var l := link.(exchanges := link.exchanges + [ChunkedRead(cmd)]);
    var o := BulkOut(l, MakeCmdHeader(cmd, DEFAULT_MAX_RECV_SIZE, true, check));
    if !o.result.Ok? then Out(o.result.Cast(), o.link)
    else ReadChunks(o.link, check, [])
  }

  /** The scripted replies delivering `chunks` in order. */
  function DataReplies(chunks: seq<Bytes>): (r: seq<Reply>)
    ensures |r| == |chunks| && forall i :: 0 <= i < |r| ==> r[i] == Data(chunks[i])
  {
    seq(|chunks|, i requires 0 <= i < |chunks| => Data(chunks[i]))
  }

  ghost predicate NoTrailers(chunks: seq<Bytes>, checkInt: I32)
  {
    forall i :: 0 <= i < |chunks| ==> !IsMsgCsw(chunks[i], checkInt)
  }

  /** The first reply of a script that starts with `chunks`, and the
      script after it. */
  lemma DataRepliesCons(chunks: seq<Bytes>, x: Reply, rest: seq<Reply>)
    requires |chunks| > 0
    ensures (DataReplies(chunks) + [x] + rest)[0] == Data(chunks[0])
    ensures (DataReplies(chunks) + [x] + rest)[1..] == DataReplies(chunks[1..]) + [x] + rest
  {
    assert (DataReplies(chunks) + [x] + rest)[1..] == DataReplies(chunks)[1..] + [x] + rest;
  }

  /** A non-trailer chunk that fits is appended and the loop goes on. */
  lemma ReadChunksSkip(link: Link, checkInt: I32, acc: Bytes, c: Bytes)
    requires |link.ins| > 0 && link.ins[0] == Data(c)
    requires !IsMsgCsw(c, checkInt) && |c| + |acc| <= DEFAULT_MAX_RECV_SIZE
    ensures ReadChunks(link, checkInt, acc) == ReadChunks(link.(ins := link.ins[1..]), checkInt, acc + c)
  {
  }

  /** A chunk list's concatenation behind `acc` is the first chunk's behind
      `acc`, then the rest's. */
  lemma AccConcat(acc: Bytes, chunks: seq<Bytes>)
    requires |chunks| > 0
    ensures acc + chunks[0] + Concat(chunks[1..]) == acc + Concat(chunks)
    ensures |acc + chunks[0]| + |Concat(chunks[1..])| == |acc| + |Concat(chunks)|
  {
    ConcatCons(chunks[0], chunks[1..]);
    assert chunks == [chunks[0]] + chunks[1..];
  }

  /** Reassembly: non-trailer chunks that fit, then a trailer, give their
      concatenation followed by the trailer chunk minus its last 13 bytes; the
      replies after the trailer are left unread. */
  lemma {:induction false} ReadChunksAssembles(link: Link, checkInt: I32, acc: Bytes,
                                               chunks: seq<Bytes>, trailer: Bytes, rest: seq<Reply>)
    requires link.ins == DataReplies(chunks) + [Data(trailer)] + rest
    requires NoTrailers(chunks, checkInt) && IsMsgCsw(trailer, checkInt)
    requires |acc| + |Concat(chunks)| <= DEFAULT_MAX_RECV_SIZE
    ensures ReadChunks(link, checkInt, acc)
         == Out(Ok(acc + Concat(chunks) + trailer[..|trailer| - CSW_SIZE]), link.(ins := rest))
    decreases |chunks|
  {
    if |chunks| == 0 {
      assert link.ins[0] == Data(trailer) && link.ins[1..] == rest;
      assert acc + Concat(chunks) == acc;
      if |trailer| == CSW_SIZE {
        assert trailer[..0] == [];
      }
    } else {
      DataRepliesCons(chunks, Data(trailer), rest);
      AccConcat(acc, chunks);
      assert !IsMsgCsw(chunks[0], checkInt);
      ReadChunksSkip(link, checkInt, acc, chunks[0]);
      ReadChunksAssembles(link.(ins := link.ins[1..]), checkInt, acc + chunks[0], chunks[1..], trailer, rest);
    }
  }

  /** Oversize guard: a non-trailer chunk that would take the total past 65536
      bytes ends the read with `Ok` of the earlier chunks only; the oversize
      chunk is consumed and lost, and the trailer is left unread. */
  lemma {:induction false} ReadChunksOversize(link: Link, checkInt: I32, acc: Bytes,
                                              chunks: seq<Bytes>, big: Bytes, rest: seq<Reply>)
    requires link.ins == DataReplies(chunks) + [Data(big)] + rest
    requires NoTrailers(chunks, checkInt) && !IsMsgCsw(big, checkInt)
    requires |acc| + |Concat(chunks)| <= DEFAULT_MAX_RECV_SIZE
    requires |acc| + |Concat(chunks)| + |big| > DEFAULT_MAX_RECV_SIZE
    ensures ReadChunks(link, checkInt, acc) == Out(Ok(acc + Concat(chunks)), link.(ins := rest))
    decreases |chunks|
  {
    if |chunks| == 0 {
      assert link.ins[0] == Data(big) && link.ins[1..] == rest;
      assert acc + Concat(chunks) == acc;
    } else {
      DataRepliesCons(chunks, Data(big), rest);
      AccConcat(acc, chunks);
      assert !IsMsgCsw(chunks[0], checkInt);
      ReadChunksSkip(link, checkInt, acc, chunks[0]);
      ReadChunksOversize(link.(ins := link.ins[1..]), checkInt, acc + chunks[0], chunks[1..], big, rest);
    }
  }

  /** Zero-length chunks are never trailers and never trip the size guard:
      the loop keeps reading for as long as the device keeps sending them, and
      ends only when the device stops answering. */
  lemma {:induction false} ReadChunksEmptyChunksSpin(link: Link, checkInt: I32, acc: Bytes)
    requires forall i :: 0 <= i < |link.ins| ==> link.ins[i] == Data([])
    requires |acc| <= DEFAULT_MAX_RECV_SIZE
    ensures ReadChunks(link, checkInt, acc) == Out(Err(Timeout), link.(ins := []))
    decreases |link.ins|
  {
    if |link.ins| > 0 {
      assert link.ins[0] == Data([]);
      var next := link.(ins := link.ins[1..]);
      assert acc + [] == acc;
      ReadChunksEmptyChunksSpin(next, checkInt, acc);
    }
  }

  /** `read_data` end to end: the header carries the drawn check value, and the
      result is the reassembled payload. */
  lemma ReadDataAssembles(env: Env, link: Link, cmd: seq<I8>, chunks: seq<Bytes>, trailer: Bytes, rest: seq<Reply>)
    requires |link.outs| > 0 && link.outs[0].Accepted?
    requires link.ins == DataReplies(chunks) + [Data(trailer)] + rest
    requires NoTrailers(chunks, NextCheck(env, link)) && IsMsgCsw(trailer, NextCheck(env, link))
    requires |Concat(chunks)| <= DEFAULT_MAX_RECV_SIZE
    ensures var o := ReadData(env, link, cmd);
            && o.result == Ok(Concat(chunks) + trailer[..|trailer| - CSW_SIZE])
            && o.link.sent == link.sent + [MakeCmdHeader(cmd, DEFAULT_MAX_RECV_SIZE, true, NextCheck(env, link))]
            && o.link.ins == rest && o.link.outs == link.outs[1..]
  {
    var check := NextCheck(env, link);
    var l := link.(exchanges := link.exchanges + [ChunkedRead(cmd)]);
    var b := BulkOut(l, MakeCmdHeader(cmd, DEFAULT_MAX_RECV_SIZE, true, check));
    ReadChunksAssembles(b.link, check, [], chunks, trailer, rest);
    assert [] + Concat(chunks) == Concat(chunks);
  }

  /** A read answered by a single chunk that carries the trailer yields that
      chunk minus its last 13 bytes, consuming one reply of each script. */
  lemma ReadDataSingle(env: Env, link: Link, cmd: seq<I8>, reply: Bytes)
    requires |link.outs| > 0 && link.outs[0].Accepted?
    requires |link.ins| > 0 && link.ins[0] == Data(reply)
    requires IsMsgCsw(reply, NextCheck(env, link))
    ensures var o := ReadData(env, link, cmd);
            && o.result == Ok(reply[..|reply| - CSW_SIZE])
            && o.link.ins == link.ins[1..] && o.link.outs == link.outs[1..]
            && o.link.exchanges == link.exchanges + [ChunkedRead(cmd)]
  {
    assert link.ins == DataReplies([]) + [Data(reply)] + link.ins[1..];
    ReadDataAssembles(env, link, cmd, [], reply, link.ins[1..]);
    assert Concat([]) + reply[..|reply| - CSW_SIZE] == reply[..|reply| - CSW_SIZE];
  }

  /** An unchecked read whose header is accepted returns the next reply as is. */
  lemma ReadDataUncheckedSingle(env: Env, link: Link, cmd: seq<I8>, reply: Bytes)
    requires |link.outs| > 0 && link.outs[0].Accepted?
    requires |link.ins| > 0 && link.ins[0] == Data(reply)
    ensures var o := ReadDataUnchecked(env, link, cmd);
            && o.result == Ok(reply)
            && o.link.ins == link.ins[1..] && o.link.outs == link.outs[1..]
  {
  }

  /** `data.chunks(n)`: consecutive nonempty slices of at most `n` bytes, all
      but the last exactly `n`, whose concatenation is `data`. */
  function Slices(data: Bytes, n: nat): (r: seq<Bytes>)
    requires n > 0
    ensures Concat(r) == data
    ensures forall i :: 0 <= i < |r| ==> 0 < |r[i]| <= n
    ensures forall i :: 0 <= i < |r| - 1 ==> |r[i]| == n
    decreases |data|
  {
    if |data| == 0 then []
    else if |data| <= n then
      assert Concat([data]) == Concat([data][..0]) + data;
      [data]
    else
      var rest := Slices(data[n..], n);
      ConcatCons(data[..n], rest);
      assert data[..n] + data[n..] == data;
      [data[..n]] + rest
  }

  /** One bulk OUT transfer per slice, stopping at the first failure. */
  function SendSlices(link: Link, slices: seq<Bytes>): (o: Out<()>)
    ensures o.link.ins == link.ins && o.link.exchanges == link.exchanges && o.link.requests == link.requests
    ensures link.sent <= o.link.sent && |o.link.outs| <= |link.outs|
    ensures o.result.Ok? ==> o.link.sent == link.sent + slices
    ensures o.result.Ok? ==> |link.outs| >= |slices| && o.link.outs == link.outs[|slices|..]
    ensures (|link.outs| >= |slices| && forall i :: 0 <= i < |slices| ==> link.outs[i].Accepted?)
            ==> o.result.Ok?
    ensures !o.result.Panic?
    decreases |slices|
  {
    if |slices| == 0 then Out(Ok(()), link)
    else
      var b := BulkOut(link, slices[0]);
      if !b.result.Ok? then b
      else
        var o := SendSlices(b.link, slices[1..]);
        assert slices == [slices[0]] + slices[1..];
        o
  }

  /** `write_data`: a header whose size field is the payload length (as `i32`)
      and whose direction byte is 0, the payload in 16384-byte slices, then one
      bulk read that must be the trailer for the same check value. */
  function WriteData(env: Env, link: Link, cmd: seq<I8>, data: Bytes): (o: Out<()>)
    ensures Follows(link, o.link)
    ensures o.link.exchanges == link.exchanges + [ChunkedWrite(cmd)]
    ensures o.link.requests == link.requests
    ensures o.result.Ok? ==>
              && o.link.sent == link.sent
                   + [MakeCmdHeader(cmd, WrapI32(|data|), false, NextCheck(env, link))]
                   + Slices(data, DEFAULT_CHUNK_SIZE)
              && |o.link.ins| < |link.ins|
    ensures !o.result.Panic?
  {
    var check := NextCheck(env, link);
    var l := link.(exchanges := link.exchanges + [ChunkedWrite(cmd)]);
    var header := MakeCmdHeader(cmd, WrapI32(|data|), false, check);
    var h := BulkOut(l, header);
    if !h.result.Ok? then h
    else
      var s := SendSlices(h.link, Slices(data, DEFAULT_CHUNK_SIZE));
      if !s.result.Ok? then s
      else
        var i := BulkIn(s.link);
        if !i.result.Ok? then Out(i.result.Cast(), i.link)
        else if IsMsgCsw(i.result.value, check) then Out(Ok(()), i.link)
        else Out(Err(Write), i.link)
  }

  /** `write_data`'s verdict: when every OUT transfer is accepted and the
      device answers, the write succeeds exactly when the answer is the
      trailer for the write's own check value, and fails with `Write`
      otherwise. The header announces the payload length and a write. */
  lemma WriteDataOutcome(env: Env, link: Link, cmd: seq<I8>, data: Bytes, reply: Bytes)
    requires var n := 1 + |Slices(data, DEFAULT_CHUNK_SIZE)|;
             |link.outs| >= n && forall i :: 0 <= i < n ==> link.outs[i].Accepted?
    requires |link.ins| > 0 && link.ins[0] == Data(reply)
    ensures var o := WriteData(env, link, cmd, data);
            o.result == (if IsMsgCsw(reply, NextCheck(env, link)) then Ok(()) else Err(Write))
    ensures var h := ParseCmdHeader(MakeCmdHeader(cmd, WrapI32(|data|), false, NextCheck(env, link)));
            && h.Some? && !h.value.isRead && h.value.checkInt == NextCheck(env, link)
            && h.value.maxRecvSize == WrapI32(|data|)
            && FromLeU32(MakeCmdHeader(cmd, WrapI32(|data|), false, NextCheck(env, link))[8..12])
               == |data| % 0x1_0000_0000
  {
    var check := NextCheck(env, link);
    var slices := Slices(data, DEFAULT_CHUNK_SIZE);
    var l := link.(exchanges := link.exchanges + [ChunkedWrite(cmd)]);
    var header := MakeCmdHeader(cmd, WrapI32(|data|), false, check);
    var h := BulkOut(l, header);
    assert h.link.outs == link.outs[1..];
    assert forall i :: 0 <= i < |slices| ==> h.link.outs[i] == link.outs[i + 1];
    var s := SendSlices(h.link, slices);
    assert s.link.ins == link.ins;
    ParseMakeCmdHeader(cmd, WrapI32(|data|), false, check);
  }
}
