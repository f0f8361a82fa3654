/** The compressor: BZ2_compressBlock, the input and output loops and the mode machine of BZ2_bzCompress. */
module Compression {
  import opened Limits
  import opened Numbers
  import opened BitStrings
  import opened Rotations
  import opened RunLength
  import opened MoveToFront
  import opened BlockFormat
  import opened BitWriting
  import opened BucketBits
  import opened BlockSorting
  import opened BlockCompression
  import opened RunFilling
  import opened StreamDecoding
  import opened Capacity
  import Crc

  datatype Mode = M_IDLE | M_RUNNING | M_FLUSHING | M_FINISHING

  datatype Phase = S_OUTPUT | S_INPUT

  datatype Action = RUN | FLUSH | FINISH | OTHER

  datatype Code = RUN_OK | FLUSH_OK | FINISH_OK | STREAM_END | PARAM_ERROR | SEQUENCE_ERROR

  /** The bits of all blocks so far, behind the stream header; nothing before the first block was closed. */
  ghost function PrefixBits(images: seq<Image>, blockSize100k: nat, started: bool): Bits
    requires forall k :: 0 <= k < |images| ==> ValidImage(images[k], blockSize100k)
  {
    if started then StreamHeaderBits(blockSize100k) + BlocksBits(images, blockSize100k) else []
  }

  /** The blocks closed so far carry the plain texts, and the bytes produced (those of earlier blocks, then zbits)
      and the bits that wait in the register spell them; once the trailer is written, they are the whole stream. */
  ghost predicate Produced(images: seq<Image>, plains: seq<seq<byte>>, blockSize100k: nat, combinedCRC: word, started: bool, done: bool,
                           bytes: seq<byte>, pending: Bits, padding: Bits) {
    && ValidStream(images, plains, blockSize100k) && combinedCRC == CombinedCrc(images)
    && (!started ==> images == [])
    && BytesToBits(bytes) + pending
       == PrefixBits(images, blockSize100k, started) + (if done then TrailerBits(combinedCRC) + padding else [])
    && (done ==> started && pending == [])
    && |padding| < 8
  }

  /** One more block with its plain text. */
  lemma BlockProduced(images: seq<Image>, plains: seq<seq<byte>>, bs: nat, combined: word, bytes: seq<byte>, pending: Bits, padding: Bits,
                      img: Image, plain: seq<byte>, bytes': seq<byte>, pending': Bits)
    requires Produced(images, plains, bs, combined, true, false, bytes, pending, padding)
    requires ValidImage(img, bs) && Carries(img, plain)
    requires BytesToBits(bytes') + pending' == BytesToBits(bytes) + pending + BlockBits(img, bs)
    ensures Produced(images + [img], plains + [plain], bs, Crc.Combine(combined, img.crc), true, false, bytes', pending', padding)
    ensures Flatten(plains + [plain]) == Flatten(plains) + plain
  {
    hide ValidImage, Carries, BlockBits, StreamHeaderBits, Crc.Combine;
    assert (images + [img])[..|images|] == images && (plains + [plain])[..|plains|] == plains;
    assert PrefixBits(images + [img], bs, true) == PrefixBits(images, bs, true) + BlockBits(img, bs);
  }

  /** The trailer ends the stream. */
  lemma StreamProduced(images: seq<Image>, plains: seq<seq<byte>>, bs: nat, combined: word, bytes: seq<byte>, pending: Bits, none: Bits,
                       bytes': seq<byte>, padding: Bits)
    requires Produced(images, plains, bs, combined, true, false, bytes, pending, none)
    requires BytesToBits(bytes') == BytesToBits(bytes) + pending + TrailerBits(combined) + padding && |padding| < 8
    ensures Produced(images, plains, bs, combined, true, true, bytes', [], padding)
  {
    hide ValidImage, Carries, TrailerBits, PrefixBits, CombinedCrc;
    assert PrefixBits(images, bs, true) + TrailerBits(combined) + padding == PrefixBits(images, bs, true) + (TrailerBits(combined) + padding);
  }

  /** A block that was closed because it was full. A byte may add a run of five places to a block with room for it. */
  predicate Full(img: Image, blockSize100k: nat) {
    100000 * blockSize100k - 19 <= |img.block| <= 100000 * blockSize100k - 15
  }

  /** Blocks have been added, all with refined tables, and all of them were full, or all but the last. */
  ghost predicate Added(was: seq<Image>, now: seq<Image>, blockSize100k: nat, lastShort: bool) {
    && was <= now
    && (forall k :: |was| <= k < |now| ==> WellCoded(now[k]))
    && forall k :: |was| <= k < |now| - (if lastShort then 1 else 0) ==> Full(now[k], blockSize100k)
  }

  lemma NoneAdded(images: seq<Image>, blockSize100k: nat, lastShort: bool)
    ensures Added(images, images, blockSize100k, lastShort)
  {
  }

  lemma AddedWeaker(was: seq<Image>, now: seq<Image>, blockSize100k: nat, short: bool, lastShort: bool)
    requires Added(was, now, blockSize100k, short) && (short ==> lastShort)
    ensures Added(was, now, blockSize100k, lastShort)
  {
  }

  /** Nothing is added any more once the last of the input is in. */
  lemma AddedMore(a: seq<Image>, b: seq<Image>, c: seq<Image>, blockSize100k: nat, short: bool, lastShort: bool)
    requires Added(a, b, blockSize100k, short) && Added(b, c, blockSize100k, lastShort) && (short ==> lastShort && c == b)
    ensures Added(a, c, blockSize100k, lastShort)
  {
    hide WellCoded;
    forall k | |a| <= k < |c| ensures WellCoded(c[k]) {
      if k < |b| {
        assert c[k] == b[k];
      }
    }
    forall k | |a| <= k < |c| - (if lastShort then 1 else 0) ensures Full(c[k], blockSize100k) {
      if k < |b| {
        assert c[k] == b[k];
      }
    }
  }

  /** What is appended to the bytes and bits of the writer is appended to the whole. */
  lemma AllWritten(before: seq<byte>, zbits: seq<byte>, pending: Bits)
    ensures BytesToBits(before + zbits) + pending == BytesToBits(before) + (BytesToBits(zbits) + pending)
  {
    BytesToBitsAppend(before, zbits);
  }

  lemma HeaderProduced(images: seq<Image>, plains: seq<seq<byte>>, bs: nat, combined: word, bytes: seq<byte>, pending: Bits, padding: Bits,
                       bytes': seq<byte>, pending': Bits)
    requires Produced(images, plains, bs, combined, false, false, bytes, pending, padding)
    requires BytesToBits(bytes') + pending' == BytesToBits(bytes) + pending + StreamHeaderBits(bs)
    ensures Produced(images, plains, bs, combined, true, false, bytes', pending', padding)
    ensures BytesToBits(bytes) == [] && pending == []
  {
    hide ValidImage, Carries, StreamHeaderBits;
    assert |BytesToBits(bytes) + pending| == 0;
    assert StreamHeaderBits(bs) + [] == StreamHeaderBits(bs);
  }

  lemma EmptyBlock(b: seq<byte>, runs: seq<ByteRun>, inUse: seq<bool>, crc: word)
    requires Filled(b, runs, inUse, crc)
    ensures b == [] <==> runs == []
    ensures b == [] ==> Expand(runs) == []
  {
    hide UsedFlags, Crc.UpdateAll;
    if runs != [] {
      EncodeFront(runs);
    }
  }

  /** The runs of a block carry its plain text. */
  lemma RunsCarried(img: Image, runs: seq<ByteRun>, inUse: seq<bool>, crc: word)
    requires Filled(img.block, runs, inUse, crc) && img.block != [] && img.crc == Crc.Finalise(crc)
    ensures Carries(img, Expand(runs))
  {
    hide Crc.UpdateAll, UnRle, Encode, Expand;
    UnRleInvertsEncode(runs, img.block[0]);
  }

  class Compressor {
    const blockSize100k: nat
    const workFactor: nat
    const input: RunBuffer
    const w: BitWriter
    const arr1: array<word>
    const arr2: array<word>
    const ftab: array<Word32>
    var mode: Mode
    var state: Phase
    var avail_in_expect: nat
    var state_out_pos: nat
    var combinedCRC: word
    var blockNo: nat
    ghost var images: seq<Image>
    ghost var plains: seq<seq<byte>>
    ghost var before: seq<byte>     // the bytes of earlier blocks, all delivered
    ghost var done: bool            // the trailer has been written
    ghost var padding: Bits

    /** Sizes of the work areas. */
    ghost predicate Sized() {
      && 1 <= blockSize100k <= 9
      && arr1.Length == 100000 * blockSize100k && arr2.Length == 100000 * blockSize100k + N_OVERSHOOT
      && input.block.Length == 100000 * blockSize100k + N_OVERSHOOT && ftab.Length == 65537
      && arr1 != arr2
    }

    function NblockMAX(): int {
      100000 * blockSize100k - 19
    }

    ghost predicate Started()
      reads `blockNo, `state
    {
      blockNo > 1 || state == S_OUTPUT
    }

    ghost predicate Produces()
      reads `images, `plains, `combinedCRC, `blockNo, `state, `done, `before, `padding, w
    {
      && Produced(images, plains, blockSize100k, combinedCRC, Started(), done, before + w.zbits, w.pending, padding)
      && (!done ==> w.Valid())
    }

    /** What holds while a block is filled. */
    ghost predicate Filling()
      reads `state_out_pos, `done, input, w
    {
      && w.zbits == [] && state_out_pos == 0 && !done
      && input.nblock <= NblockMAX() + 4 && (input.IsEmptyRL() ==> input.runs == [])
    }

    /** What holds between calls and between the steps of handle_compress. In particular, a stream that is neither
        being flushed nor finished and still has output to deliver has a pending run, so finishing it writes
        another block. */
    ghost predicate Valid()
      reads this, input, input.block, w
    {
      && Sized() && input.Valid() && blockNo >= 1 && Produces() && state_out_pos <= |w.zbits|
      && (state == S_INPUT ==> Filling())
      && (state == S_OUTPUT && input.IsEmptyRL() ==>
            mode != M_RUNNING && avail_in_expect == 0 && (mode == M_FLUSHING || done))
      && (done ==> state == S_OUTPUT && input.IsEmptyRL() && (mode == M_FINISHING || mode == M_IDLE))
      && (mode == M_IDLE ==> done && state_out_pos == |w.zbits|)
    }

    /** All input taken so far. */
    ghost function Consumed(): seq<byte>
      reads `plains, `state, input
    {
      Flatten(plains) + if state == S_INPUT then input.Taken() else PendingBytes(input.state_in_ch, input.state_in_len)
    }

    /** All output delivered so far. */
    ghost function Emitted(): seq<byte>
      reads `before, `state_out_pos, w
      requires state_out_pos <= |w.zbits|
    {
      before + w.zbits[..state_out_pos]
    }

    constructor (blockSize100k: nat, workFactor: nat)
      requires 1 <= blockSize100k <= 9 && workFactor <= 250
      ensures Ready() && state_out_pos <= |w.zbits|
      ensures mode == M_RUNNING && Consumed() == [] && Emitted() == [] && this.blockSize100k == blockSize100k && images == []
      ensures this.workFactor == if workFactor == 0 then 30 else workFactor
      ensures fresh(input) && fresh(input.block) && fresh(w) && fresh(arr1) && fresh(arr2) && fresh(ftab)
    {
      hide Compressor.Valid, Compressor.Produces, Compressor.Filling, Compressor.Consumed, Compressor.Emitted, Compressor.Started, RunBuffer.Valid, RunBuffer.Taken, BitWriter.Valid, BitWriter.Written, Crc.UpdateAll, AllBits;
      this.blockSize100k := blockSize100k;
      this.workFactor := if workFactor == 0 then 30 else workFactor;
      input := new RunBuffer(100000 * blockSize100k + N_OVERSHOOT);
      w := new BitWriter();
      arr1 := new word[100000 * blockSize100k];
      arr2 := new word[100000 * blockSize100k + N_OVERSHOOT];
      ftab := new Word32[65537](_ => AllBits(false));
      mode, state, avail_in_expect, state_out_pos, combinedCRC, blockNo := M_RUNNING, S_INPUT, 0, 0, 0, 1;
      images, plains, before, done, padding := [], [], [], false, [];
      new;
      FreshReady();
    }

    lemma FreshReady()
      requires Sized() && input.Valid() && input.runs == [] && input.nblock == 0 && input.IsEmptyRL() && w.zbits == [] && w.Valid() && w.pending == []
      requires mode == M_RUNNING && state == S_INPUT && state_out_pos == 0 && combinedCRC == 0 && blockNo == 1
      requires images == [] && plains == [] && before == [] && padding == [] && !done && input.Taken() == []
      ensures Ready() && Consumed() == [] && Emitted() == []
    {
      hide RunBuffer.Valid, BitWriter.Valid, RunBuffer.Taken, StreamHeaderBits, BlocksBits, TrailerBits;
    }

    /** Ready to close the block: nothing of it has been written yet. */
    ghost predicate Closing()
      reads this, input, input.block, w
    {
      && Sized() && input.Valid() && blockNo >= 1 && Produces()
      && state == S_INPUT && w.zbits == [] && state_out_pos == 0 && !done
      && input.nblock <= 100000 * blockSize100k - 10
    }

    /** BZ2_bsInitWrite and the stream header. */
    method BeginStream()
      requires Closing() && blockNo == 1
      modifies w
      ensures w.Valid() && |w.Written()| == 32
      ensures Produced(images, plains, blockSize100k, combinedCRC, true, false, before + w.zbits, w.pending, padding)
    {
      hide Produced, StreamHeaderBits, BytesToBits, BitWriter.Valid;
      ghost var z, p := w.zbits, w.pending;
      w.InitWrite();
      PutStreamHeader(w, blockSize100k);
      AllWritten(before, z, p);
      AllWritten(before, w.zbits, w.pending);
      NothingBefore(images, plains, blockSize100k, combinedCRC, before, z, p, padding);
      assert BytesToBits(before) + (BytesToBits(z) + [] + StreamHeaderBits(blockSize100k))
          == BytesToBits(before) + (BytesToBits(z) + []) + StreamHeaderBits(blockSize100k);
      HeaderProduced(images, plains, blockSize100k, combinedCRC, before + z, p, padding, before + w.zbits, w.pending);
      HeaderLength(blockSize100k);
    }

    lemma HeaderLength(bs: nat)
      ensures |StreamHeaderBits(bs)| == 32
    {
    }

    lemma Residue()
      requires w.Valid() && w.zbits == []
      ensures |w.Written()| <= 32
    {
    }

    /** The start of the bit stream is written in front of the first block only. */
    method BeginOutput()
      requires Closing()
      modifies this`state, w
      ensures state == S_OUTPUT && w.Valid() && |w.Written()| <= 64
      ensures Produced(images, plains, blockSize100k, combinedCRC, true, false, before + w.zbits, w.pending, padding)
    {
      hide Produced, BytesToBits, BitWriter.Valid, BitWriter.Written;
      if blockNo == 1 {
        BeginStream();
      } else {
        Residue();
      }
      state := S_OUTPUT;
    }

    lemma NothingBefore(images: seq<Image>, plains: seq<seq<byte>>, bs: nat, combined: word, before: seq<byte>, z: seq<byte>, p: Bits, padding: Bits)
      requires Produced(images, plains, bs, combined, false, false, before + z, p, padding)
      ensures p == []
    {
      assert |BytesToBits(before + z) + p| == 0;
    }

    /** Sort the block, write its image, and record what it stands for. */
    method WriteImage(origPtr: nat, crc: word)
      requires Sized() && input.Valid() && w.Valid() && 1 <= input.nblock <= 100000 * blockSize100k - 10
      requires crc == Crc.Finalise(input.blockCRC)
      requires SortedRotations(input.block[..input.nblock], arr1[..input.nblock]) && origPtr < input.nblock && arr1[origPtr] == 0
      requires Produced(images, plains, blockSize100k, combinedCRC, true, false, before + w.zbits, w.pending, padding)
      modifies this`combinedCRC, this`images, this`plains, w, arr1
      ensures w.Valid()
      ensures Produced(images, plains, blockSize100k, combinedCRC, true, false, before + w.zbits, w.pending, padding)
      ensures Flatten(plains) == old(Flatten(plains)) + Expand(input.runs)
      ensures |images| == |old(images)| + 1 && old(images) <= images && |images[|images| - 1].block| == input.nblock
      ensures WellCoded(images[|images| - 1])
      ensures |w.Written()| + 64 + 80 + 7 <= old(|w.Written()|) + 8 * (4 * (100000 * blockSize100k + N_OVERSHOOT) - input.nblock)
    {
      hide WellCoded, Produced, BlockBits, ValidImage, BytesToBits, Carries, SortedRotations, Crc.Combine, Crc.Finalise, Filled, BlockSyms, BitWriter.Valid, Flatten, Expand, UsedFlags;
      ghost var b, start, zs, ps := input.block[..input.nblock], w.Written(), w.zbits, w.pending;
      InputFlags(b, input.runs, input.inUse, input.blockCRC);
      ghost var img := EncodeBlock(w, arr1, input.block, input.nblock, origPtr, crc, input.inUse, blockSize100k);
      RunsCarried(img, input.runs, input.inUse, input.blockCRC);
      AllWritten(before, zs, ps);
      AllWritten(before, w.zbits, w.pending);
      assert BytesToBits(before) + (start + BlockBits(img, blockSize100k)) == BytesToBits(before) + start + BlockBits(img, blockSize100k);
      BlockProduced(images, plains, blockSize100k, combinedCRC, before + zs, ps, padding, img, Expand(input.runs), before + w.zbits, w.pending);
      BlockFits(img, blockSize100k);
      combinedCRC := Crc.Combine(combinedCRC, crc);
      images, plains := images + [img], plains + [Expand(input.runs)];
    }

    lemma InputFlags(b: seq<byte>, runs: seq<ByteRun>, inUse: seq<bool>, crc: word)
      requires Filled(b, runs, inUse, crc)
      ensures inUse == UsedFlags(b)
    {
    }

    /** The trailer, padded to a whole byte. */
    method WriteTrailer()
      requires w.Valid()
      requires Produced(images, plains, blockSize100k, combinedCRC, true, false, before + w.zbits, w.pending, padding)
      modifies this`padding, this`done, w
      ensures done && w.pending == []
      ensures Produced(images, plains, blockSize100k, combinedCRC, true, true, before + w.zbits, w.pending, padding)
      ensures 80 <= 8 * |w.zbits| <= old(|w.Written()|) + 87
    {
      hide Produced, BytesToBits, TrailerBits, BitWriter.Valid;
      ghost var start, zs, ps := w.Written(), w.zbits, w.pending;
      PutTrailer(w, combinedCRC);
      ghost var pad := w.Finish();
      AllWritten(before, zs, ps);
      AllWritten(before, w.zbits, []);
      assert BytesToBits(before) + (start + TrailerBits(combinedCRC) + pad) == BytesToBits(before) + start + TrailerBits(combinedCRC) + pad;
      assert BytesToBits(before + w.zbits) + [] == BytesToBits(before + w.zbits) && BytesToBits(w.zbits) + [] == BytesToBits(w.zbits);
      StreamProduced(images, plains, blockSize100k, combinedCRC, before + zs, ps, padding, before + w.zbits, pad);
      done, padding := true, pad;
      TrailerLength(combinedCRC);
    }

    lemma TrailerLength(crc: word)
      ensures |TrailerBits(crc)| == 80
    {
    }

    /** BZ2_compressBlock, and the change to the output state that always follows it. */
    method CompressBlock(isLast: bool)
      requires Closing()
      modifies this`state, this`combinedCRC, this`images, this`plains, this`padding, this`done, w, arr1, arr2, input.block, ftab
      ensures state == S_OUTPUT && Produces() && done == isLast && input.Valid()
      ensures Flatten(plains) == old(Flatten(plains)) + Expand(input.runs)
      ensures |w.zbits| <= 4 * (100000 * blockSize100k + N_OVERSHOOT) - input.nblock
      ensures done ==> w.zbits != []
      ensures input.nblock == 0 ==> images == old(images)
      ensures input.nblock > 0 ==>
        |images| == |old(images)| + 1 && old(images) <= images && |images[|images| - 1].block| == input.nblock
        && WellCoded(images[|images| - 1])
    {
      hide WellCoded, Produced, ValidImage, SortedRotations, Filled, BitWriter.Valid, Crc.Finalise, Expand;
      ghost var b := input.block[..input.nblock];
      EmptyBlock(b, input.runs, input.inUse, input.blockCRC);
      var origPtr, crc := 0, 0;
      if input.nblock > 0 {
        crc := Crc.Finalise(input.blockCRC);
        ghost var log;
        origPtr, log := BlockSort(arr1, arr2, input.block, ftab, input.nblock, workFactor);
      }
      BeginOutput();
      if input.nblock > 0 {
        WriteImage(origPtr, crc);
      } else {
        assert Flatten(plains) + [] == Flatten(plains);
      }
      if isLast {
        WriteTrailer();
      }
    }

    // ----- input and output loops -----

    /** prepare_new_block: everything produced for the last block has been delivered. */
    method PrepareNewBlock()
      requires Valid() && state == S_OUTPUT && state_out_pos == |w.zbits| && !done
      modifies this`state, this`state_out_pos, this`blockNo, this`before, input, w
      ensures Valid() && state == S_INPUT && input.nblock == 0 && input.runs == []
      ensures Consumed() == old(Consumed()) && Emitted() == old(Emitted())
      ensures input.IsEmptyRL() == old(input.IsEmptyRL())
    {
      hide Produced, Filled, BitWriter.Valid, PendingOk, PendingBytes, Flatten;
      before := before + w.zbits;
      assert before + [] == before && w.zbits[..|w.zbits|] == w.zbits;
      input.Clear();
      w.Restart();
      state_out_pos, blockNo, state := 0, blockNo + 1, S_INPUT;
      assert w.zbits[..0] == [];
      NothingTaken(PendingBytes(input.state_in_ch, input.state_in_len));
    }

    lemma NothingTaken(pending: seq<byte>)
      ensures Expand([]) + pending == pending
    {
    }

    /** While flushing or finishing, the input expected is the input there is. */
    ghost predicate Expected(avail_in: nat)
      reads this
    {
      mode == M_FLUSHING || mode == M_FINISHING ==> avail_in_expect == avail_in
    }

    /** copy_input_until_stop: fill the block until it is full or the input ends. */
    method CopyInputUntilStop(inp: seq<byte>, pos: nat) returns (next: nat, progress_in: bool)
      requires Valid() && state == S_INPUT && mode != M_IDLE && pos <= |inp| && Expected(|inp| - pos)
      modifies this`avail_in_expect, input, input.block
      ensures Valid() && pos <= next <= |inp| && Expected(|inp| - next)
      ensures Consumed() == old(Consumed()) + inp[pos..next] && (progress_in <==> next > pos)
      ensures input.nblock >= NblockMAX() || next == |inp|
      ensures next > pos ==> !input.IsEmptyRL()
      ensures next == pos ==> input.IsEmptyRL() == old(input.IsEmptyRL()) && input.nblock == old(input.nblock)
      ensures input.nblock >= NblockMAX() && old(input.nblock) < NblockMAX() ==> next > pos
    {
      hide Produced, Filled, PendingOk, PendingBytes, Flatten, RunBuffer.Taken, Produces;
      progress_in := false;
      next := pos;
      assert inp[pos..pos] == [];
      while input.nblock < NblockMAX() && next < |inp| && (mode == M_RUNNING || avail_in_expect > 0)
        invariant Valid() && pos <= next <= |inp| && Expected(|inp| - next)
        invariant Consumed() == old(Consumed()) + inp[pos..next] && (progress_in <==> next > pos)
        invariant next > pos ==> !input.IsEmptyRL()
        invariant next == pos ==> input.IsEmptyRL() == old(input.IsEmptyRL()) && input.nblock == old(input.nblock)
      {
        progress_in := true;
        ghost var taken := input.Taken();
        input.AddCharToBlock(inp[next]);
        assert Flatten(plains) + (taken + [inp[next]]) == Flatten(plains) + taken + [inp[next]];
        assert inp[pos..next + 1] == inp[pos..next] + [inp[next]];
        next := next + 1;
        if mode != M_RUNNING {
          avail_in_expect := avail_in_expect - 1;
        }
      }
    }

    /** copy_output_until_stop: deliver bytes until the space or the block's output ends. */
    method CopyOutputUntilStop(availOut: nat, out: seq<byte>) returns (out': seq<byte>, progress_out: bool)
      requires Valid() && |out| <= availOut
      modifies this`state_out_pos
      ensures Valid() && out <= out' && |out'| <= availOut && (progress_out <==> |out'| > |out|)
      ensures Emitted() == old(Emitted()) + out'[|out|..]
      ensures state_out_pos == |w.zbits| || |out'| == availOut
      ensures state_out_pos - old(state_out_pos) == |out'| - |out|
    {
      hide Produced, Filled, PendingOk, Produces;
      out' := out;
      progress_out := false;
      assert out[|out|..] == [];
      while |out'| < availOut && state_out_pos < |w.zbits|
        invariant Valid() && out <= out' && |out'| <= availOut && (progress_out <==> |out'| > |out|)
        invariant Emitted() == old(Emitted()) + out'[|out|..]
        invariant state_out_pos - old(state_out_pos) == |out'| - |out|
        decreases availOut - |out'|
      {
        progress_out := true;
        assert w.zbits[..state_out_pos + 1] == w.zbits[..state_out_pos] + [w.zbits[state_out_pos]];
        assert before + (w.zbits[..state_out_pos] + [w.zbits[state_out_pos]]) == Emitted() + [w.zbits[state_out_pos]];
        assert (out' + [w.zbits[state_out_pos]])[|out|..] == out'[|out|..] + [w.zbits[state_out_pos]];
        out' := out' + [w.zbits[state_out_pos]];
        state_out_pos := state_out_pos + 1;
      }
    }

    // ----- handle_compress -----

    /** The stream has not been delivered completely, or is idle. */
    ghost predicate Resting()
      reads `done, `state_out_pos, w
    {
      done ==> state_out_pos < |w.zbits|
    }

    /** How far the stream is from the end of what it has taken in: a block to be filled, a block to be delivered
        with a run that waits for the next one, or the last block. */
    ghost function Stage(): nat
      reads `state, input
    {
      if state == S_INPUT then 2 else if input.IsEmptyRL() then 0 else 1
    }

    /** All the input of a request to flush or finish is in its blocks. */
    ghost predicate AllIn()
      reads `mode, `avail_in_expect, input
    {
      mode != M_RUNNING && avail_in_expect == 0 && input.IsEmptyRL()
    }

    /** The bytes of the block that wait for room. */
    ghost function Waiting(): int
      reads `state_out_pos, w
    {
      |w.zbits| - state_out_pos
    }

    /** The output half of the loop: deliver; once the block is out, stop if that was all, else begin a new block. */
    method OutputHalf(availOut: nat, out: seq<byte>) returns (out': seq<byte>, progress_out: bool, stop: bool)
      requires Valid() && Resting() && state == S_OUTPUT && mode != M_IDLE && |out| <= availOut
      modifies this`state, this`state_out_pos, this`blockNo, this`before, input, w
      ensures Valid() && out <= out' && |out'| <= availOut && (progress_out <==> |out'| > |out|)
      ensures Consumed() == old(Consumed()) && Emitted() == old(Emitted()) + out'[|out|..]
      ensures stop ==>
        || (state == S_OUTPUT && state_out_pos < |w.zbits| && |out'| == availOut)
        || (mode == M_FINISHING && done && state == S_OUTPUT && state_out_pos == |w.zbits|)
        || (mode == M_FLUSHING && state == S_INPUT && avail_in_expect == 0 && input.IsEmptyRL())
      ensures Resting() || progress_out
      ensures stop && state == S_OUTPUT ==> Stage() == old(Stage()) && Waiting() + |out'| - |out| == old(Waiting())
      ensures input.IsEmptyRL() == old(input.IsEmptyRL())
      ensures !stop ==> state == S_INPUT && input.nblock == 0 && !old(input.IsEmptyRL()) && !input.IsEmptyRL()
    {
      hide Produced, Produces, Filled, PendingOk, PendingBytes, Flatten, Consumed, Filling;
      out', progress_out := CopyOutputUntilStop(availOut, out);
      if state_out_pos < |w.zbits| {
        return out', progress_out, true;
      }
      if mode == M_FINISHING && avail_in_expect == 0 && input.IsEmptyRL() {
        return out', progress_out, true;
      }
      PrepareNewBlock();
      stop := mode == M_FLUSHING && avail_in_expect == 0 && input.IsEmptyRL();
    }

    /** The last of the input is in: the pending run goes into the block, and the block is closed. */
    method CloseLast()
      requires Valid() && state == S_INPUT && (mode == M_FLUSHING || mode == M_FINISHING) && avail_in_expect == 0
      modifies this`state, this`combinedCRC, this`images, this`plains, this`padding, this`done, input, input.block, w, arr1, arr2, ftab
      ensures Valid() && Resting() && state == S_OUTPUT && input.IsEmptyRL()
      ensures Consumed() == old(Consumed()) && Emitted() == old(Emitted())
      ensures Added(old(images), images, blockSize100k, true) && (old(input.IsEmptyRL()) ==> images == old(images))
    {
      hide WellCoded, Produced, Produces, Filled, PendingOk, Flatten, Expand;
      NothingInBlock();
      ghost var emitted, taken, earlier := Emitted(), input.Taken(), Flatten(plains);
      input.FlushRL();
      CompressBlock(mode == M_FINISHING);
      assert earlier + taken + [] == earlier + taken;
      assert before + w.zbits[..0] == emitted;
    }

    /** The block is full: it is closed, and the pending run waits for the next one. */
    method CloseFull()
      requires Valid() && state == S_INPUT && mode != M_IDLE && input.nblock >= NblockMAX()
      modifies this`state, this`combinedCRC, this`images, this`plains, this`padding, this`done, w, arr1, arr2, input.block, ftab
      ensures Valid() && Resting() && state == S_OUTPUT
      ensures Consumed() == old(Consumed()) && Emitted() == old(Emitted())
      ensures Added(old(images), images, blockSize100k, false)
    {
      hide WellCoded, Produced, Produces, Filled, PendingOk, Flatten, Expand;
      NothingInBlock();
      ghost var emitted, taken, earlier := Emitted(), input.Taken(), Flatten(plains);
      CompressBlock(false);
      assert earlier + Expand(input.runs) + PendingBytes(input.state_in_ch, input.state_in_len) == earlier + taken;
      assert before + w.zbits[..0] == emitted;
    }

    /** The input half of the loop: take input; close the block if it is full or the last of the input is in. */
    method InputHalf(inp: seq<byte>, pos: nat) returns (next: nat, progress_in: bool, stop: bool)
      requires Valid() && state == S_INPUT && mode != M_IDLE && pos <= |inp| && Expected(|inp| - pos)
      modifies this, input, input.block, w, arr1, arr2, ftab
      ensures Valid() && mode == old(mode) && pos <= next <= |inp| && Expected(|inp| - next)
      ensures Consumed() == old(Consumed()) + inp[pos..next] && Emitted() == old(Emitted())
      ensures progress_in <==> next > pos
      ensures Resting()
      ensures stop ==> state == S_INPUT && next == |inp| && mode == M_RUNNING
      ensures !stop ==> state == S_OUTPUT && (input.IsEmptyRL() || next > pos || old(input.nblock) >= NblockMAX())
      ensures Added(old(images), images, blockSize100k, AllIn()) && (old(AllIn()) ==> AllIn() && images == old(images))
    {
      hide Produced, Produces, Filled, PendingOk, Flatten, Consumed, Emitted, RunBuffer.Valid;
      next, progress_in := CopyInputUntilStop(inp, pos);
      stop := false;
      if mode != M_RUNNING && avail_in_expect == 0 {
        CloseLast();
      } else if input.nblock >= NblockMAX() {
        CloseFull();
      } else {
        stop := next == |inp|;
      }
    }

    lemma NothingInBlock()
      requires Valid() && state == S_INPUT
      ensures input.IsEmptyRL() ==> input.nblock == 0
    {
      hide Produced, Produces, UsedFlags, Expand, Crc.UpdateAll;
      EmptyBlock(input.block[..input.nblock], input.runs, input.inUse, input.blockCRC);
    }

    lemma SeqGrows(s: seq<byte>, a: seq<byte>, b: seq<byte>)
      requires a <= b
      ensures s + a + b[|a|..] == s + b
    {
      assert s + a + b[|a|..] == s + (a + b[|a|..]);
    }

    lemma SliceGrows(s: seq<byte>, a: seq<byte>, i: nat, j: nat)
      requires i <= j <= |a|
      ensures s + a[..i] + a[i..j] == s + a[..j]
    {
      assert a[..i] + a[i..j] == a[..j];
      assert s + a[..i] + a[i..j] == s + (a[..i] + a[i..j]);
    }

    /** One turn of the loop: deliver, and if the block is out, take input. */
    method Turn(inp: seq<byte>, used: nat, availOut: nat, out: seq<byte>) returns (next: nat, out': seq<byte>, stop: bool)
      requires Valid() && Resting() && mode != M_IDLE && used <= |inp| && |out| <= availOut && Expected(|inp| - used)
      modifies this, input, input.block, w, arr1, arr2, ftab
      ensures Valid() && mode == old(mode) && used <= next <= |inp| && out <= out' && |out'| <= availOut && Expected(|inp| - next)
      ensures Consumed() == old(Consumed()) + inp[used..next] && Emitted() == old(Emitted()) + out'[|out|..]
      ensures Resting() || (stop && |out'| > |out|)
      ensures Added(old(images), images, blockSize100k, AllIn()) && (old(AllIn()) ==> AllIn() && images == old(images))
      ensures !stop ==> state == S_OUTPUT && (next > used || Stage() < old(Stage()))
      ensures stop ==>
        || (state == S_OUTPUT && state_out_pos < |w.zbits| && |out'| == availOut)
        || (state == S_INPUT && mode == M_RUNNING && next == |inp|)
        || (state == S_INPUT && mode == M_FLUSHING && avail_in_expect == 0 && input.IsEmptyRL())
        || (state == S_OUTPUT && mode == M_FINISHING && done && state_out_pos == |w.zbits|)
      ensures stop && state == S_OUTPUT ==> next == used && Stage() == old(Stage()) && Waiting() + |out'| - |out| == old(Waiting())
    {
      hide Valid, Consumed, Emitted, RunBuffer.IsEmptyRL, Waiting, Added;
      ValidMeans();
      next, out', stop := used, out, false;
      NoneAdded(images, blockSize100k, AllIn());
      assert inp[used..used] == [] && out[|out|..] == [];
      if state == S_OUTPUT {
        var progress;
        out', progress, stop := OutputHalf(availOut, out);
        ValidMeans();
        if stop {
          return;
        }
      }
      var progress;
      next, progress, stop := InputHalf(inp, used);
      ValidMeans();
    }

    /** handle_compress: take input and deliver output until neither is possible any more. */
    method HandleCompress(inp: seq<byte>, availOut: nat) returns (used: nat, out: seq<byte>, progress: bool)
      requires Valid() && Resting() && mode != M_IDLE && Expected(|inp|)
      modifies this, input, input.block, w, arr1, arr2, ftab
      ensures Resting() || progress
      ensures Valid() && mode == old(mode) && used <= |inp| && |out| <= availOut && Expected(|inp| - used)
      ensures Consumed() == old(Consumed()) + inp[..used] && Emitted() == old(Emitted()) + out
      ensures progress <==> used > 0 || out != []
      ensures
        || (state == S_OUTPUT && state_out_pos < |w.zbits| && |out| == availOut)
        || (state == S_INPUT && mode == M_RUNNING && used == |inp|)
        || (state == S_INPUT && mode == M_FLUSHING && avail_in_expect == 0 && input.IsEmptyRL())
        || (state == S_OUTPUT && mode == M_FINISHING && done && state_out_pos == |w.zbits|)
      ensures Added(old(images), images, blockSize100k, AllIn()) && (old(AllIn()) ==> AllIn() && images == old(images))
      ensures state == S_OUTPUT ==>
        used > 0 || Stage() < old(Stage()) || (Stage() == old(Stage()) && Waiting() + |out| == old(Waiting()))
    {
      hide Valid, Consumed, Emitted, RunBuffer.IsEmptyRL, Waiting, Added, AllIn, Stage, Expected;
      ValidMeans();
      used, out := 0, [];
      ghost var consumed, emitted := Consumed(), Emitted();
      NoneAdded(images, blockSize100k, AllIn());
      assert consumed + inp[..0] == consumed && emitted + [] == emitted;
      var stop := false;
      while !stop
        invariant Valid() && mode == old(mode) && used <= |inp| && |out| <= availOut && Expected(|inp| - used)
        invariant state_out_pos <= |w.zbits|
        invariant Consumed() == consumed + inp[..used] && Emitted() == emitted + out
        invariant Resting() || (stop && out != [])
        invariant Added(old(images), images, blockSize100k, AllIn()) && (old(AllIn()) ==> AllIn() && images == old(images))
        invariant !stop || state == S_OUTPUT ==>
          used > 0 || Stage() < old(Stage()) || (Stage() == old(Stage()) && Waiting() + |out| == old(Waiting()))
        invariant stop ==>
          || (state == S_OUTPUT && state_out_pos < |w.zbits| && |out| == availOut)
          || (state == S_INPUT && mode == M_RUNNING && used == |inp|)
          || (state == S_INPUT && mode == M_FLUSHING && avail_in_expect == 0 && input.IsEmptyRL())
          || (state == S_OUTPUT && mode == M_FINISHING && done && state_out_pos == |w.zbits|)
        decreases !stop, |inp| - used, Stage()
      {
        ghost var closed, whole := images, AllIn();
        var next, out';
        next, out', stop := Turn(inp, used, availOut, out);
        ValidMeans();
        AddedMore(old(images), closed, images, blockSize100k, whole, AllIn());
        SliceGrows(consumed, inp, used, next);
        SeqGrows(emitted, out, out');
        used, out := next, out';
      }
      progress := used > 0 || out != [];
    }

    /** The whole stream is delivered, and what it stands for is all the input. */
    ghost predicate Complete()
      reads `images, `plains, `state, `state_out_pos, `before, `padding, input, w
    {
      && (forall k :: 0 <= k < |images| ==> ValidImage(images[k], blockSize100k))
      && state_out_pos <= |w.zbits|
      && ValidStream(images, plains, blockSize100k) && Flatten(plains) == Consumed()
      && BytesToBits(Emitted()) == StreamBits(images, blockSize100k) + padding && |padding| < 8
    }

    lemma AllDelivered()
      requires Valid() && done && state_out_pos == |w.zbits|
      ensures Complete()
    {
      hide ValidImage, Carries, StreamHeaderBits, BlocksBits, TrailerBits, BytesToBits, CombinedCrc, Filled, PendingOk;
      assert w.zbits[..|w.zbits|] == w.zbits;
      assert PendingBytes(input.state_in_ch, input.state_in_len) == [];
      assert Flatten(plains) + [] == Flatten(plains);
      assert BytesToBits(Emitted()) + [] == BytesToBits(Emitted());
      var header, blocks := StreamHeaderBits(blockSize100k), BlocksBits(images, blockSize100k);
      assert header + blocks + (TrailerBits(combinedCRC) + padding) == header + blocks + TrailerBits(combinedCRC) + padding;
    }

    /** A call that is in order in the present mode. */
    predicate InOrder(action: Action, avail_in: nat)
      reads this
    {
      match mode
      case M_IDLE => false
      case M_RUNNING => action != OTHER
      case M_FLUSHING => action == FLUSH && avail_in_expect == avail_in
      case M_FINISHING => action == FINISH && avail_in_expect == avail_in
    }

    /** What holds between calls. */
    ghost predicate Ready()
      reads this, input, input.block, w
    {
      Valid() && (mode != M_IDLE ==> Resting())
    }

    /** A call while flushing. */
    method Flush(inp: seq<byte>, availOut: nat) returns (ret: Code, used: nat, out: seq<byte>)
      requires Valid() && Resting() && mode == M_FLUSHING && avail_in_expect == |inp|
      modifies this, input, input.block, w, arr1, arr2, ftab
      ensures Valid() && Resting() && used <= |inp| && |out| <= availOut
      ensures Consumed() == old(Consumed()) + inp[..used] && Emitted() == old(Emitted()) + out
      ensures ret == FLUSH_OK || ret == RUN_OK
      ensures Added(old(images), images, blockSize100k, AllIn() || ret == RUN_OK)
      ensures old(AllIn()) ==> (AllIn() || ret == RUN_OK) && images == old(images)
      ensures ret == FLUSH_OK ==> mode == M_FLUSHING && avail_in_expect == |inp| - used && |out| == availOut
      ensures ret == RUN_OK ==> mode == M_RUNNING && used == |inp| && state == S_INPUT && input.IsEmptyRL()
      ensures ret == FLUSH_OK ==> used > 0 || Stage() < old(Stage()) || (Stage() == old(Stage()) && Waiting() + |out| == old(Waiting()))
    {
      hide Produced, Produces, Filled, PendingOk, PendingBytes, Flatten, Consumed, Emitted, RunBuffer.Valid;
      var progress;
      used, out, progress := HandleCompress(inp, availOut);
      if avail_in_expect > 0 || !input.IsEmptyRL() || state_out_pos < |w.zbits| {
        return FLUSH_OK, used, out;
      }
      mode := M_RUNNING;
      return RUN_OK, used, out;
    }

    /** A call while finishing. */
    method Finish(inp: seq<byte>, availOut: nat) returns (ret: Code, used: nat, out: seq<byte>)
      requires Valid() && Resting() && mode == M_FINISHING && avail_in_expect == |inp|
      modifies this, input, input.block, w, arr1, arr2, ftab
      ensures Valid() && (mode != M_IDLE ==> Resting()) && used <= |inp| && |out| <= availOut
      ensures Consumed() == old(Consumed()) + inp[..used] && Emitted() == old(Emitted()) + out
      ensures ret == STREAM_END || ret == FINISH_OK || ret == SEQUENCE_ERROR
      ensures Added(old(images), images, blockSize100k, AllIn()) && (old(AllIn()) ==> AllIn() && images == old(images))
      ensures mode == if ret == STREAM_END then M_IDLE else M_FINISHING
      ensures ret == STREAM_END ==> mode == M_IDLE && Complete() && used == |inp|
      ensures ret == FINISH_OK ==> mode == M_FINISHING && avail_in_expect == |inp| - used && |out| == availOut
      ensures ret == SEQUENCE_ERROR <==> used == 0 && out == []
      ensures ret == SEQUENCE_ERROR ==> availOut == 0
      ensures ret == FINISH_OK ==> used > 0 || Stage() < old(Stage()) || (Stage() == old(Stage()) && Waiting() + |out| == old(Waiting()))
    {
      hide Produced, Produces, Filled, PendingOk, PendingBytes, Flatten, Consumed, Emitted, Complete, RunBuffer.Valid;
      var progress;
      used, out, progress := HandleCompress(inp, availOut);
      if !progress {
        return SEQUENCE_ERROR, used, out;
      }
      if avail_in_expect > 0 || !input.IsEmptyRL() || state_out_pos < |w.zbits| {
        return FINISH_OK, used, out;
      }
      AllDelivered();
      mode := M_IDLE;
      return STREAM_END, used, out;
    }

    /** A call while running. */
    method Run(inp: seq<byte>, availOut: nat) returns (ret: Code, used: nat, out: seq<byte>)
      requires Valid() && Resting() && mode == M_RUNNING
      modifies this, input, input.block, w, arr1, arr2, ftab
      ensures Valid() && Resting() && mode == M_RUNNING && used <= |inp| && |out| <= availOut
      ensures Consumed() == old(Consumed()) + inp[..used] && Emitted() == old(Emitted()) + out
      ensures ret == if used > 0 || out != [] then RUN_OK else PARAM_ERROR
      ensures Added(old(images), images, blockSize100k, false)
      ensures used == |inp| || |out| == availOut
      ensures used < |inp| ==> used > 0 || Stage() < old(Stage()) || (Stage() == old(Stage()) && Waiting() + |out| == old(Waiting()))
    {
      hide Produced, Produces, Filled, PendingOk, PendingBytes, Flatten, Consumed, Filling, Emitted, RunBuffer.Valid;
      var progress;
      used, out, progress := HandleCompress(inp, availOut);
      ret := if progress then RUN_OK else PARAM_ERROR;
    }

    /** From running to another mode: the input expected is the input there is. */
    method Enter(m: Mode, avail_in: nat)
      requires Valid() && Resting() && mode == M_RUNNING && (m == M_FLUSHING || m == M_FINISHING)
      modifies `mode, `avail_in_expect
      ensures Valid() && Resting() && mode == m && avail_in_expect == avail_in
      ensures Consumed() == old(Consumed()) && Emitted() == old(Emitted()) && Stage() == old(Stage()) && Waiting() == old(Waiting())
    {
      hide Produced, Filled, PendingOk, PendingBytes, Flatten, Filling, RunBuffer.Valid;
      avail_in_expect, mode := avail_in, m;
    }

    /** The cases of the switch for a stream that is being flushed or finished. */
    method Proceed(action: Action, inp: seq<byte>, availOut: nat) returns (ret: Code, used: nat, out: seq<byte>)
      requires Ready() && (mode == M_FLUSHING || mode == M_FINISHING)
      modifies this, input, input.block, w, arr1, arr2, ftab
      ensures Ready() && state_out_pos <= |w.zbits| && (mode == M_IDLE ==> ret == STREAM_END)
      ensures used <= |inp| && |out| <= availOut
      ensures Consumed() == old(Consumed()) + inp[..used] && Emitted() == old(Emitted()) + out
      ensures ret == STREAM_END ==> mode == M_IDLE && Complete() && used == |inp|
      ensures ret == FINISH_OK ==> mode == M_FINISHING && avail_in_expect == |inp| - used && |out| == availOut
      ensures ret == FLUSH_OK ==> mode == M_FLUSHING && avail_in_expect == |inp| - used && |out| == availOut
      ensures ret == RUN_OK ==> mode == M_RUNNING && action == FLUSH && used == |inp| && state == S_INPUT && input.IsEmptyRL()
      ensures ret == FINISH_OK || ret == FLUSH_OK ==>
        used > 0 || Stage() < old(Stage()) || (Stage() == old(Stage()) && Waiting() + |out| == old(Waiting()))
      ensures Added(old(images), images, blockSize100k, AllIn() || (action == FLUSH && ret == RUN_OK))
      ensures old(AllIn()) ==> (AllIn() || (action == FLUSH && ret == RUN_OK)) && images == old(images)
      ensures ret != PARAM_ERROR && (ret == SEQUENCE_ERROR ==> used == 0 && out == [])
      ensures if old(mode) == M_FLUSHING && action == FLUSH && old(avail_in_expect) == |inp| then ret == FLUSH_OK || ret == RUN_OK
        else if old(mode) == M_FINISHING && action == FINISH && old(avail_in_expect) == |inp| then
          ret == FINISH_OK || ret == STREAM_END || (ret == SEQUENCE_ERROR && availOut == 0)
        else mode == old(mode) && ret == SEQUENCE_ERROR
      ensures old(InOrder(action, |inp|)) && action == FINISH ==> (ret == SEQUENCE_ERROR <==> used == 0 && out == [])
    {
      hide Valid, Resting, Consumed, Emitted, Complete, Stage, Waiting, Added, Produced, RunBuffer.Valid, Filled, RunBuffer.IsEmptyRL, Sized;
      NoneAdded(images, blockSize100k, AllIn());
      assert Consumed() + inp[..0] == Consumed() && Emitted() + [] == Emitted() by {
        ValidMeans();
      }
      ValidMeans();
      used, out := 0, [];
      if mode == M_FLUSHING {
        if action != FLUSH || avail_in_expect != |inp| {
          return SEQUENCE_ERROR, 0, [];
        }
        ret, used, out := Flush(inp, availOut);
        ValidMeans();
        return;
      }
      if action != FINISH || avail_in_expect != |inp| {
        return SEQUENCE_ERROR, 0, [];
      }
      ret, used, out := Finish(inp, availOut);
      ValidMeans();
    }

    /** BZ2_bzCompress. Input is taken and output delivered in order, whatever slices the caller chooses; the end
        of the stream is reported only when the stream with its trailer has been delivered completely. */
    method BzCompress(action: Action, inp: seq<byte>, availOut: nat) returns (ret: Code, used: nat, out: seq<byte>)
      requires Ready()
      modifies this, input, input.block, w, arr1, arr2, ftab
      ensures Ready() && state_out_pos <= |w.zbits| && (mode == M_IDLE ==> ret == STREAM_END || old(mode) == M_IDLE)
      ensures used <= |inp| && |out| <= availOut
      ensures Consumed() == old(Consumed()) + inp[..used] && Emitted() == old(Emitted()) + out
      ensures ret == STREAM_END ==> mode == M_IDLE && Complete() && used == |inp|
      ensures ret == FINISH_OK ==> mode == M_FINISHING && avail_in_expect == |inp| - used && |out| == availOut
      ensures ret == FLUSH_OK ==> mode == M_FLUSHING && avail_in_expect == |inp| - used && |out| == availOut
      ensures ret == RUN_OK ==> mode == M_RUNNING && (used == |inp| || |out| == availOut)
      ensures ret == FINISH_OK || ret == FLUSH_OK || (ret == RUN_OK && used < |inp|) ==>
        used > 0 || Stage() < old(Stage()) || (Stage() == old(Stage()) && Waiting() + |out| == old(Waiting()))
      ensures action == RUN ==> mode == old(mode)
      ensures Added(old(images), images, blockSize100k, AllIn() || (action == FLUSH && ret == RUN_OK))
      ensures old(AllIn()) ==> (AllIn() || (action == FLUSH && ret == RUN_OK)) && images == old(images)
      ensures ret == RUN_OK && action == FLUSH ==> used == |inp| && state == S_INPUT && input.IsEmptyRL()
      ensures ret == PARAM_ERROR || ret == SEQUENCE_ERROR ==> used == 0 && out == []
      ensures old(InOrder(action, |inp|)) && availOut > 0 && action == FINISH ==> ret == FINISH_OK || ret == STREAM_END
      ensures old(InOrder(action, |inp|)) && action == FLUSH ==> ret == FLUSH_OK || ret == RUN_OK
      ensures old(InOrder(action, |inp|)) && action == RUN && availOut > 0 && inp != [] ==> ret == RUN_OK
      ensures !old(InOrder(action, |inp|)) ==> mode == old(mode) && ret == if mode == M_RUNNING then PARAM_ERROR else SEQUENCE_ERROR
      ensures old(InOrder(action, |inp|)) && action == RUN ==> ret == if used > 0 || out != [] then RUN_OK else PARAM_ERROR
      ensures old(InOrder(action, |inp|)) && action == FINISH ==> (ret == SEQUENCE_ERROR <==> used == 0 && out == [])
    {
      hide Valid, Resting, Consumed, Emitted, Complete, Stage, Waiting, Added, Produced, RunBuffer.Valid, Filled, RunBuffer.IsEmptyRL;
      NoneAdded(images, blockSize100k, AllIn());
      assert Consumed() + inp[..0] == Consumed() && Emitted() + [] == Emitted() by {
        ValidMeans();
      }
      ValidMeans();
      used, out := 0, [];
      if mode == M_IDLE {
        return SEQUENCE_ERROR, 0, [];
      }
      if mode == M_RUNNING {
        match action
        case RUN =>
          ret, used, out := Run(inp, availOut);
          ValidMeans();
          return;
        case FLUSH => Enter(M_FLUSHING, |inp|);
        case FINISH => Enter(M_FINISHING, |inp|);
        case OTHER => return PARAM_ERROR, 0, [];
      }
      ret, used, out := Proceed(action, inp, availOut);
    }

    lemma ValidMeans()
      requires Valid()
      ensures state_out_pos <= |w.zbits| && NblockMAX() > 0
    {
    }
  }
}
