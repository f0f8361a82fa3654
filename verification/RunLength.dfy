/** The first run-length layer: runs of 4 to 255 equal bytes become four bytes and a count. */
module RunLength {
  import opened Numbers

  datatype ByteRun = ByteRun(ch: byte, len: nat)

  predicate ValidRun(r: ByteRun) {
    1 <= r.len <= 255
  }

  function Repeat(ch: byte, len: nat): (s: seq<byte>)
    ensures |s| == len
    ensures forall k :: 0 <= k < len ==> s[k] == ch
  {
    seq<byte>(len, _ => ch)
  }

  /** What add_pair_to_block appends for one run. */
  function EncodeRun(r: ByteRun): (s: seq<byte>)
    requires ValidRun(r)
    ensures 1 <= |s| <= 5 && s[0] == r.ch
  {
    if r.len < 4 then Repeat(r.ch, r.len) else Repeat(r.ch, 4) + [(r.len - 4) as byte]
  }

  ghost predicate ValidRuns(rs: seq<ByteRun>) {
    && (forall k :: 0 <= k < |rs| ==> ValidRun(rs[k]))
    && (forall k :: 0 < k < |rs| ==> (rs[k - 1].ch != rs[k].ch || rs[k - 1].len == 255))
  }

  /** The block bytes of a list of runs. */
  function Encode(rs: seq<ByteRun>): seq<byte>
    requires forall k :: 0 <= k < |rs| ==> ValidRun(rs[k])
  {
    if rs == [] then [] else Encode(rs[..|rs| - 1]) + EncodeRun(rs[|rs| - 1])
  }

  /** The input bytes a list of runs stands for. */
  function Expand(rs: seq<ByteRun>): seq<byte> {
    if rs == [] then [] else Expand(rs[..|rs| - 1]) + Repeat(rs[|rs| - 1].ch, rs[|rs| - 1].len)
  }

  datatype Decoded = Decoded(out: seq<byte>, corrupt: bool)

  /** How many block bytes the run in front takes up. s holds the block bytes not yet looked at followed by
      one more byte, because the loop always fetches one byte ahead. */
  function Span(s: seq<byte>): (n: nat)
    requires |s| >= 2
    ensures 1 <= n <= |s|
  {
    if |s| == 2 || s[1] != s[0] then 1
    else if |s| == 3 || s[2] != s[0] then 2
    else if |s| == 4 || s[3] != s[0] then 3
    else 5
  }

  /** How many output bytes it stands for. */
  function SpanLength(s: seq<byte>): nat
    requires |s| >= 2
  {
    if Span(s) == 5 then s[4] as nat + 4 else Span(s)
  }

  /** The un-RLE loop: reading past the byte behind the block means corrupt data. */
  function UnRle(s: seq<byte>): Decoded {
    if |s| == 0 then Decoded([], true)
    else if |s| == 1 then Decoded([], false)
    else Emit(s[0], SpanLength(s), UnRle(s[Span(s)..]))
  }

  function Emit(ch: byte, len: nat, d: Decoded): Decoded {
    Decoded(Repeat(ch, len) + d.out, d.corrupt)
  }

  lemma {:induction false} EncodeFront(rs: seq<ByteRun>)
    requires rs != [] && forall k :: 0 <= k < |rs| ==> ValidRun(rs[k])
    ensures Encode(rs) == EncodeRun(rs[0]) + Encode(rs[1..])
    ensures Expand(rs) == Repeat(rs[0].ch, rs[0].len) + Expand(rs[1..])
    decreases |rs|
  {
    if |rs| > 1 {
      var front := rs[..|rs| - 1];
      EncodeFront(front);
      assert front[1..] == rs[1..][..|rs| - 2];
    } else {
      assert rs[..0] == [] && rs[1..] == [];
      assert Encode([]) == [] && Expand([]) == [];
    }
  }

  /** Decoding an encoded run list gives back the input, whatever byte follows the block. */
  lemma {:induction false} UnRleInvertsEncode(rs: seq<ByteRun>, x: byte)
    requires ValidRuns(rs)
    ensures UnRle(Encode(rs) + [x]) == Decoded(Expand(rs), false)
    decreases |rs|
  {
    if rs != [] {
      var r, rest := rs[0], rs[1..];
      EncodeFront(rs);
      UnRleInvertsEncode(rest, x);
      var tail := Encode(rest) + [x];
      if rest != [] {
        EncodeFront(rest);
      }
      assert Encode(rs) + [x] == EncodeRun(r) + tail;
      UnRleRun(r, tail);
    }
  }

  lemma UnRleRun(r: ByteRun, tail: seq<byte>)
    requires ValidRun(r) && tail != [] && (|tail| == 1 || tail[0] != r.ch || r.len >= 4)
    ensures UnRle(EncodeRun(r) + tail) == Emit(r.ch, r.len, UnRle(tail))
  {
    var s := EncodeRun(r) + tail;
    var n := |EncodeRun(r)|;
    assert s[n..] == tail && s[n] == tail[0];
    assert forall k :: 0 <= k < Min(n, 4) ==> s[k] == r.ch;
    assert Span(s) == n && SpanLength(s) == r.len by {
      hide UnRle;
    }
  }

}
