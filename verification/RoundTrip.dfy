/** The whole codec: any schedule of compressor calls, then any schedule of decompressor calls. */
module RoundTrip {
  import opened Numbers
  import opened BitStrings
  import opened BlockFormat
  import opened StreamDecoding
  import opened BlockCompression
  import opened Compression
  import opened Decompression
  import D = DecoderMachine

  /** One call of BZ2_bzCompress: what is asked for, the input offered and the room for output. */
  datatype CompressCall = CompressCall(action: Action, inp: seq<byte>, availOut: nat)

  /** One call of BZ2_bzDecompress: how much of the data to offer, and the room for output. */
  datatype DecompressCall = DecompressCall(offer: nat, availOut: nat)

  /** A complete compressed stream decodes to all the input taken. */
  lemma CompleteDecodes(c: Compressor)
    requires c.Complete()
    ensures c.state_out_pos <= |c.w.zbits|
    ensures Decodes(c.Emitted(), c.Consumed())
  {
    hide Decode, StreamBits, BytesToBits;
    StreamRoundTrip(c.images, c.plains, c.blockSize100k, c.padding);
  }

  /** Any number of RUN calls, then one FINISH call with room for more than n bytes. */
  predicate RunsThenFinish(calls: seq<CompressCall>, n: nat) {
    && calls != [] && (forall k :: 0 <= k < |calls| - 1 ==> calls[k].action == RUN)
    && calls[|calls| - 1].action == FINISH && calls[|calls| - 1].availOut > n
  }

  /** Make the calls in turn until the stream ends. taken is the input accepted, data the output delivered. A FINISH
      call after RUN calls ends the stream unless its room is used up. */
  method Compress(blockSize100k: nat, workFactor: nat, calls: seq<CompressCall>) returns (finished: bool, taken: seq<byte>, data: seq<byte>)
    requires 1 <= blockSize100k <= 9 && workFactor <= 250
    ensures finished ==> Decodes(data, taken)
    ensures RunsThenFinish(calls, |data|) ==> finished
  {
    hide Compressor.Ready, Compressor.Complete, Compressor.Consumed, Compressor.Emitted, Decodes;
    var c := new Compressor(blockSize100k, workFactor);
    taken, data := [], [];
    for k := 0 to |calls|
      invariant c.Ready() && c.state_out_pos <= |c.w.zbits|
      invariant fresh(c) && fresh(c.input) && fresh(c.input.block) && fresh(c.w) && fresh(c.arr1) && fresh(c.arr2) && fresh(c.ftab)
      invariant c.Consumed() == taken && c.Emitted() == data
      invariant (forall j :: 0 <= j < k ==> calls[j].action == RUN) ==> c.mode == M_RUNNING
      invariant k > 0 && (forall j :: 0 <= j < k - 1 ==> calls[j].action == RUN) && calls[k - 1].action == FINISH ==> calls[k - 1].availOut <= |data|
    {
      var ret, used, out := c.BzCompress(calls[k].action, calls[k].inp, calls[k].availOut);
      taken, data := taken + calls[k].inp[..used], data + out;
      if ret == Compression.STREAM_END {
        CompleteDecodes(c);
        return true, taken, data;
      }
    }
    finished := false;
  }

  /** The call offers all of the data and room for more than n bytes. */
  predicate Ample(call: DecompressCall, data: seq<byte>, n: nat) {
    call.offer >= |data| && call.availOut > n
  }

  /** Make the calls in turn, each offering as much of the data not yet used as it says, until one does not
      return OK. What was delivered, by a failing call too, is a beginning of what the data decodes to. When the run has
      ended the verdict is that of the data, and as many bytes have been used as it takes to reach it. OK after a call
      with all of the data and room to spare means that the data is not complete. */
  method Decompress(small: bool, data: seq<byte>, calls: seq<DecompressCall>) returns (ret: D.ReturnCode, out: seq<byte>, used: nat)
    ensures used <= |data|
    ensures ret == D.OK && calls != [] && Ample(calls[|calls| - 1], data, |out|) ==> Decode(D.START, BytesToBits(data)).verdict == NeedInput
    ensures var all := Decode(D.START, BytesToBits(data));
      && out <= all.out
      && (ret == D.STREAM_END ==> out == all.out)
      && (ret != D.OK ==> all.verdict == End(ret) && used == |data| - |all.rest| / 8)
  {
    hide Decompressor.Valid, Decompressor.Future, Decode;
    var d := new Decompressor(small);
    ghost var all := Decode(D.START, BytesToBits(data));
    ret, out, used := D.OK, [], 0;
    assert data[0..] == data;
    PrependNothing(all);
    for k := 0 to |calls|
      invariant d.Valid() && fresh(d) && fresh(d.reader) && fresh(d.reader.dec) && fresh(d.reader.dec.Repr) && fresh(d.writer)
      invariant used <= |data| && all == Prepend(out, d.Future(data[used..])) && ret == D.OK
      invariant k > 0 && Ample(calls[k - 1], data, |out|) ==> used == |data| && d.Future([]) == Result([], NeedInput, [])
    {
      var part;
      ghost var future := d.Future(data[used..]);
      ret, part, used := OfferData(d, data, used, calls[k], future);
      if ret != D.OK {
        out := out + part;
        return;
      }
      PrependTwice(out, part, d.Future(data[used..]));
      out := out + part;
    }
    assert used == |data| ==> data[used..] == [];
  }

  /** One call on the data from used on. */
  method OfferData(d: Decompressor, data: seq<byte>, used: nat, call: DecompressCall, ghost future: Result)
    returns (ret: D.ReturnCode, part: seq<byte>, next: nat)
    requires d.Valid() && used <= |data| && future == d.Future(data[used..])
    modifies d.reader, d.reader.dec, d.reader.dec.Repr, d.writer
    ensures fresh(d.reader.dec.Repr - old(d.reader.dec.Repr)) && used <= next <= |data|
    ensures ret == D.OK ==> d.Valid() && future == Prepend(part, d.Future(data[next..]))
    ensures ret == D.OK && |part| < call.availOut ==> next == Min(used + call.offer, |data|) && d.Future([]) == Result([], NeedInput, [])
    ensures ret == D.STREAM_END ==> part == future.out
    ensures ret != D.OK ==> future.verdict == End(ret) && part <= future.out && |future.rest| / 8 == |data| - next
  {
    hide Decompressor.Valid, Decompressor.Future;
    var end := Min(used + call.offer, |data|);
    assert data[used..end] + data[end..] == data[used..];
    var n;
    ret, part, n := d.BzDecompress(data[used..end], call.availOut, data[end..]);
    assert data[used..end][n..] + data[end..] == data[used + n..];
    next := used + n;
    d.LeftOver(data[next..]);
  }

  /** Round trip: if the compressor has reported the end of the stream, no schedule of decompressor calls on its
      output meets an error, what is delivered is always the beginning of the input, and at the end of the stream
      it is the input. Whatever calls came before, one that offers all of the rest and ample room ends the stream. */
  method RoundTrip(blockSize100k: nat, workFactor: nat, calls: seq<CompressCall>, small: bool, decompressCalls: seq<DecompressCall>)
    returns (finished: bool, taken: seq<byte>, data: seq<byte>, ret: D.ReturnCode, out: seq<byte>)
    requires 1 <= blockSize100k <= 9 && workFactor <= 250
    ensures finished ==> ret == D.OK || ret == D.STREAM_END
    ensures finished && ret == D.OK ==> out <= taken
    ensures finished && ret == D.STREAM_END ==> out == taken
    ensures RunsThenFinish(calls, |data|) ==> finished
    ensures finished && decompressCalls != [] && Ample(decompressCalls[|decompressCalls| - 1], data, |taken|) ==> ret == D.STREAM_END
  {
    hide Decode;
    var used;
    finished, taken, data := Compress(blockSize100k, workFactor, calls);
    ret, out, used := Decompress(small, data, decompressCalls);
  }

  // ----- every legal schedule comes to an end -----

  /** Something the client wants done with some input. */
  datatype Request = Request(action: Action, inp: seq<byte>)

  function Inputs(requests: seq<Request>): seq<byte> {
    if requests == [] then [] else Inputs(requests[..|requests| - 1]) + requests[|requests| - 1].inp
  }

  lemma Regroup(a: seq<byte>, b: seq<byte>, k: nat)
    requires k <= |b|
    ensures a + b[..k] + b[k..] == a + b
  {
    assert b[..k] + b[k..] == b;
    assert a + b[..k] + b[k..] == a + (b[..k] + b[k..]);
  }

  /** Make one call after the other, each with what is left of the input and room for at least a byte, until the
      request is carried out. Every call but the last one delivers something. */
  method CarryOut(c: Compressor, request: Request, rooms: nat -> nat) returns (data: seq<byte>, calls: nat)
    requires c.Ready() && c.state_out_pos <= |c.w.zbits| && c.mode == M_RUNNING
    requires request.action != OTHER && forall k :: rooms(k) >= 1
    modifies c, c.input, c.input.block, c.w, c.arr1, c.arr2, c.ftab
    ensures c.Ready() && c.state_out_pos <= |c.w.zbits| && calls <= |data| + 1
    ensures c.Consumed() == old(c.Consumed()) + request.inp && c.Emitted() == old(c.Emitted()) + data
    ensures if request.action == FINISH then c.mode == M_IDLE && c.Complete() else c.mode == M_RUNNING
    ensures Added(old(c.images), c.images, c.blockSize100k, request.action != RUN)
  {
    hide Compressor.Consumed, Compressor.Emitted, Compressor.Complete, Compressor.Stage, Compressor.Ready, Added;
    NoneAdded(c.images, c.blockSize100k, request.action != RUN);
    NoneAdded(c.images, c.blockSize100k, false);
    ghost var consumed, emitted := c.Consumed(), c.Emitted();
    var left := request.inp;
    data, calls := [], 0;
    assert emitted + [] == emitted;
    if request == Request(RUN, []) {
      assert consumed + [] == consumed;
      return;
    }
    while true
      invariant c.Ready() && c.state_out_pos <= |c.w.zbits| && calls <= |data|
      invariant c.InOrder(request.action, |left|) && (request.action == RUN ==> left != [])
      invariant c.Consumed() + left == consumed + request.inp && c.Emitted() == emitted + data
      invariant Added(old(c.images), c.images, c.blockSize100k, c.AllIn())
      decreases |left|, c.Stage(), |c.w.zbits| - c.state_out_pos
    {
      ghost var before, closed, whole := c.Consumed(), c.images, c.AllIn();
      var ret, used, out := c.BzCompress(request.action, left, rooms(calls));
      AddedMore(old(c.images), closed, c.images, c.blockSize100k, whole, c.AllIn() || (request.action == FLUSH && ret == RUN_OK));
      Regroup(before, left, used);
      assert emitted + data + out == emitted + (data + out);
      data, left, calls := data + out, left[used..], calls + 1;
      if ret == Compression.STREAM_END || (ret == RUN_OK && left == []) {
        AddedWeaker(old(c.images), c.images, c.blockSize100k, c.AllIn() || (request.action == FLUSH && ret == RUN_OK), request.action != RUN);
        return;
      }
    }
  }

  /** How many blocks were closed before they were full. */
  function Short(images: seq<Image>, blockSize100k: nat): nat {
    if images == [] then 0
    else Short(images[..|images| - 1], blockSize100k) + if Full(images[|images| - 1], blockSize100k) then 0 else 1
  }

  function Flushes(requests: seq<Request>): nat {
    if requests == [] then 0
    else Flushes(requests[..|requests| - 1]) + if requests[|requests| - 1].action == FLUSH then 1 else 0
  }

  /** Of the blocks a request adds, the last one alone may be short. */
  lemma {:induction false} ShortAdded(was: seq<Image>, now: seq<Image>, blockSize100k: nat, lastShort: bool)
    requires Added(was, now, blockSize100k, lastShort)
    ensures Short(now, blockSize100k) <= Short(was, blockSize100k) + if lastShort then 1 else 0
    decreases |now|
  {
    if |now| > |was| {
      var front := now[..|now| - 1];
      assert Added(was, front, blockSize100k, false);
      ShortAdded(was, front, blockSize100k, false);
    } else {
      assert now == was;
    }
  }

  /** The data is the stream of these blocks and less than a byte of padding. */
  ghost predicate StreamOf(data: seq<byte>, images: seq<Image>, blockSize100k: nat, padding: Bits) {
    && (forall k :: 0 <= k < |images| ==> ValidImage(images[k], blockSize100k))
    && BytesToBits(data) == StreamBits(images, blockSize100k) + padding && |padding| < 8
  }

  /** Requests to run or flush in any order, then one to finish: the stream ends, after at most as many calls as there
      are requests and bytes of output, and stands for all the input. Every block is full but at most one for each
      request to flush, and the last one; and all blocks have refined tables. */
  method CompressAll(blockSize100k: nat, workFactor: nat, requests: seq<Request>, last: seq<byte>, rooms: nat -> nat)
    returns (data: seq<byte>, calls: nat, ghost images: seq<Image>, ghost padding: Bits)
    requires 1 <= blockSize100k <= 9 && workFactor <= 250
    requires (forall k :: 0 <= k < |requests| ==> requests[k].action == RUN || requests[k].action == FLUSH) && forall k :: rooms(k) >= 1
    ensures Decodes(data, Inputs(requests) + last) && calls <= |requests| + 1 + |data|
    ensures StreamOf(data, images, blockSize100k, padding) && Short(images, blockSize100k) <= Flushes(requests) + 1
    ensures Flushes(requests) == 0 ==> forall k :: 0 <= k < |images| - 1 ==> Full(images[k], blockSize100k)
    ensures forall k :: 0 <= k < |images| ==> WellCoded(images[k])
  {
    hide Compressor.Ready, Compressor.Complete, Compressor.Consumed, Compressor.Emitted, Decodes, Added, StreamOf, Full, WellCoded;
    var c := new Compressor(blockSize100k, workFactor);
    data, calls := [], 0;
    for k := 0 to |requests|
      invariant c.Ready() && c.state_out_pos <= |c.w.zbits| && c.mode == M_RUNNING
      invariant fresh(c) && fresh(c.input) && fresh(c.input.block) && fresh(c.w) && fresh(c.arr1) && fresh(c.arr2) && fresh(c.ftab)
      invariant c.Consumed() == Inputs(requests[..k]) && c.Emitted() == data && calls <= k + |data|
      invariant c.blockSize100k == blockSize100k && Short(c.images, blockSize100k) <= Flushes(requests[..k])
      invariant forall i :: 0 <= i < |c.images| ==> WellCoded(c.images[i])
    {
      ghost var closed := c.images;
      var start := calls;
      var part, n := CarryOut(c, requests[k], i => rooms(start + i));
      ShortAdded(closed, c.images, blockSize100k, requests[k].action != RUN);
      WellAdded(closed, c.images, blockSize100k, requests[k].action != RUN);
      assert requests[..k + 1][..k] == requests[..k];
      data, calls := data + part, calls + n;
    }
    assert requests[..|requests|] == requests;
    var start := calls;
    ghost var closed := c.images;
    var part, n := CarryOut(c, Request(FINISH, last), i => rooms(start + i));
    data, calls := data + part, calls + n;
    CompleteDecodes(c);
    images, padding := c.images, c.padding;
    CompleteStream(c);
    ShortAdded(closed, images, blockSize100k, true);
    WellAdded(closed, images, blockSize100k, true);
    if Short(closed, blockSize100k) == 0 {
      AllButLast(closed, images, blockSize100k);
    }
  }

  /** A complete stream x with anything behind it: under any schedule of calls there is no error, what is delivered is
      always a beginning of what x stands for, and at the end of the stream it is all of it, and exactly x has been
      used. */
  method DecompressFirst(small: bool, x: seq<byte>, tail: seq<byte>, calls: seq<DecompressCall>, ghost plain: seq<byte>)
    returns (ret: D.ReturnCode, out: seq<byte>, used: nat)
    requires Decodes(x, plain)
    ensures ret == D.OK || ret == D.STREAM_END
    ensures out <= plain
    ensures ret == D.STREAM_END ==> out == plain && used == |x|
  {
    hide Decode, Decodes;
    StreamThenTail(x, plain, tail);
    ret, out, used := Decompress(small, x + tail, calls);
  }

  lemma WellAdded(was: seq<Image>, now: seq<Image>, blockSize100k: nat, lastShort: bool)
    requires Added(was, now, blockSize100k, lastShort) && forall i :: 0 <= i < |was| ==> WellCoded(was[i])
    ensures forall i :: 0 <= i < |now| ==> WellCoded(now[i])
  {
    hide WellCoded;
    forall i | 0 <= i < |now| ensures WellCoded(now[i]) {
      if i < |was| {
        assert now[i] == was[i];
      }
    }
  }

  lemma CompleteStream(c: Compressor)
    requires c.Complete()
    ensures c.state_out_pos <= |c.w.zbits| && StreamOf(c.Emitted(), c.images, c.blockSize100k, c.padding)
  {
    hide ValidImage, StreamBits;
  }

  lemma {:induction false} NoneShort(images: seq<Image>, blockSize100k: nat)
    requires Short(images, blockSize100k) == 0
    ensures forall k :: 0 <= k < |images| ==> Full(images[k], blockSize100k)
  {
    if images != [] {
      NoneShort(images[..|images| - 1], blockSize100k);
    }
  }

  lemma AllButLast(was: seq<Image>, now: seq<Image>, blockSize100k: nat)
    requires Short(was, blockSize100k) == 0 && Added(was, now, blockSize100k, true)
    ensures forall k :: 0 <= k < |now| - 1 ==> Full(now[k], blockSize100k)
  {
    NoneShort(was, blockSize100k);
    forall k | 0 <= k < |now| - 1 ensures Full(now[k], blockSize100k) {
      if k < |was| {
        assert now[k] == was[k];
      }
    }
  }

  /** Calls with at least a byte of input, as long as there is any, and room for at least one: they deliver
      everything a complete stream stands for, each but the last uses or delivers something, and exactly the stream is
      used, whatever is behind it. */
  method DecompressAll(small: bool, x: seq<byte>, tail: seq<byte>, offers: nat -> nat, rooms: nat -> nat, ghost plain: seq<byte>)
    returns (out: seq<byte>, used: nat, calls: nat)
    requires Decodes(x, plain) && (forall k :: offers(k) >= 1) && forall k :: rooms(k) >= 1
    ensures out == plain && used == |x| && calls <= |x| + |tail| + |plain| + 1
  {
    hide Decompressor.Valid, Decompressor.Future, Decode, Decodes;
    var d := new Decompressor(small);
    var data := x + tail;
    ghost var all := Decode(D.START, BytesToBits(data));
    StreamThenTail(x, plain, tail);
    used := 0;
    out, calls := [], 0;
    assert data[0..] == data;
    PrependNothing(all);
    while true
      invariant d.Valid() && fresh(d) && fresh(d.reader) && fresh(d.reader.dec) && fresh(d.reader.dec.Repr) && fresh(d.writer)
      invariant used <= |data| && all == Prepend(out, d.Future(data[used..])) && calls <= used + |out|
      decreases |data| - used + |plain| - |out|
    {
      ghost var future := d.Future(data[used..]);
      var ret, part;
      ret, part, used := OfferData(d, data, used, DecompressCall(offers(calls), rooms(calls)), future);
      calls := calls + 1;
      if ret != D.OK {
        out := out + part;
        return;
      }
      assert used == |data| ==> data[used..] == [];
      PrependTwice(out, part, d.Future(data[used..]));
      out := out + part;
    }
  }

  /** The whole codec on every schedule the interface allows: whatever the requests, the rooms and the offers, both
      sides come to an end, the output is the input, and whatever is behind the stream is left over. */
  method RoundTripAll(blockSize100k: nat, workFactor: nat, requests: seq<Request>, last: seq<byte>, small: bool,
                      tail: seq<byte>, rooms: nat -> nat, offers: nat -> nat, outRooms: nat -> nat)
    returns (data: seq<byte>, out: seq<byte>, used: nat)
    requires 1 <= blockSize100k <= 9 && workFactor <= 250
    requires forall k :: 0 <= k < |requests| ==> requests[k].action == RUN || requests[k].action == FLUSH
    requires (forall k :: rooms(k) >= 1) && (forall k :: offers(k) >= 1) && forall k :: outRooms(k) >= 1
    ensures out == Inputs(requests) + last && used == |data|
  {
    hide Decodes;
    var calls;
    ghost var images, padding;
    data, calls, images, padding := CompressAll(blockSize100k, workFactor, requests, last, rooms);
    out, used, calls := DecompressAll(small, data, tail, offers, outRooms, Inputs(requests) + last);
  }
}
