/** The block and stream checksums, as folds over bytes and over block checksums. */
module Crc {
  import opened Numbers

  const TOP := 0x1_0000_0000

  /** Exclusive or of the low n bits. */
  function Xor(n: nat, a: nat, b: nat): (x: nat)
    ensures x < Pow2(n)
  {
    if n == 0 then 0 else 2 * Xor(n - 1, a / 2, b / 2) + (a + b) % 2
  }

  function XorWord(a: word, b: word): word {
    Pow2Values();
    Xor(32, a, b)
  }

  /** One bit of division by the generator 0x04c11db7. */
  function Divide(r: word, steps: nat): word
    decreases steps
  {
    if steps == 0 then r
    else
      var shifted := 2 * r % TOP;
      Divide(if r >= 0x8000_0000 then XorWord(shifted, 0x04c1_1db7) else shifted, steps - 1)
  }

  function TableEntry(i: byte): word {
    Divide(i * 0x100_0000, 8)
  }

  function Update(crc: word, ch: byte): word {
    Pow2Values();
    XorWord(crc * 256 % TOP, TableEntry(Xor(8, crc / 0x100_0000, ch)))
  }

  function UpdateAll(crc: word, s: seq<byte>): word {
    if s == [] then crc else Update(UpdateAll(crc, s[..|s| - 1]), s[|s| - 1])
  }

  const INITIAL: word := 0xffff_ffff

  function Finalise(crc: word): word {
    0xffff_ffff - crc
  }

  /** The checksum stored in front of a block. */
  function OfBlock(s: seq<byte>): word {
    Finalise(UpdateAll(INITIAL, s))
  }

  /** Rotate left by one, then mix in the next block checksum. */
  function Combine(combined: word, block: word): word {
    XorWord(2 * combined % TOP + combined / 0x8000_0000, block)
  }

  lemma {:induction false} UpdateAllAppend(crc: word, a: seq<byte>, b: seq<byte>)
    ensures UpdateAll(crc, a + b) == UpdateAll(UpdateAll(crc, a), b)
    decreases |b|
  {
    if b == [] {
      assert a + b == a;
    } else {
      var c := a + b;
      assert c[..|c| - 1] == a + b[..|b| - 1];
      UpdateAllAppend(crc, a, b[..|b| - 1]);
    }
  }
}
