/** Fixed-width machine integers. Values are mathematical integers with explicit ranges;
    the places where the kernel's arithmetic wraps go through Add32 and Sub32. */
module Words {

  const WORD_LIMIT: int := 0x1_0000_0000
  const QUAD_LIMIT: int := 0x1_0000_0000_0000_0000

  type word = x: int | 0 <= x < 0x1_0000_0000
  type quad = x: int | 0 <= x < 0x1_0000_0000_0000_0000
  type byte = x: int | 0 <= x < 256

  function Add32(a: word, b: word): word {
    (a + b) % WORD_LIMIT
  }

  function Sub32(a: word, b: word): word {
    (a - b) % WORD_LIMIT
  }

  // ----- sequence numbers that wrap -----

  /** Unsigned differences of sequence numbers survive wrap-around. */
  lemma WrappedDifference(w: nat, r: nat)
    requires r <= w < r + WORD_LIMIT
    ensures Sub32(w % WORD_LIMIT, r % WORD_LIMIT) == w - r
  {
  }

  lemma WrappedSuccessor(n: nat)
    ensures Add32(n % WORD_LIMIT, 1) == (n + 1) % WORD_LIMIT
  {
  }

  /** Two sequence numbers less than 2^32 apart are equal exactly when their wrapped forms are. */
  lemma EmptyIffEqual(w: nat, r: nat)
    requires r <= w < r + WORD_LIMIT
    ensures w % WORD_LIMIT == r % WORD_LIMIT <==> w == r
  {
    if w != r {
      WrappedDifference(w, r);
    }
  }

  // ----- little-endian bytes of a word -----

  function Pack(b0: byte, b1: byte, b2: byte, b3: byte): word {
    b0 + 256 * b1 + 65536 * b2 + 16777216 * b3
  }

  function ByteOf(w: word, k: nat): byte
    requires k < 4
  {
    if k == 0 then w % 256
    else if k == 1 then (w / 256) % 256
    else if k == 2 then (w / 65536) % 256
    else w / 16777216
  }

  function PutByte(w: word, k: nat, v: byte): word
    requires k < 4
  {
    if k == 0 then Pack(v, ByteOf(w, 1), ByteOf(w, 2), ByteOf(w, 3))
    else if k == 1 then Pack(ByteOf(w, 0), v, ByteOf(w, 2), ByteOf(w, 3))
    else if k == 2 then Pack(ByteOf(w, 0), ByteOf(w, 1), v, ByteOf(w, 3))
    else Pack(ByteOf(w, 0), ByteOf(w, 1), ByteOf(w, 2), v)
  }

  lemma BytesOfPack(b0: byte, b1: byte, b2: byte, b3: byte)
    ensures ByteOf(Pack(b0, b1, b2, b3), 0) == b0
    ensures ByteOf(Pack(b0, b1, b2, b3), 1) == b1
    ensures ByteOf(Pack(b0, b1, b2, b3), 2) == b2
    ensures ByteOf(Pack(b0, b1, b2, b3), 3) == b3
  {
    var w := Pack(b0, b1, b2, b3);
    assert w / 256 == b1 + 256 * b2 + 65536 * b3;
    assert w / 65536 == b2 + 256 * b3;
  }

  /** A store to one byte of a word reads back there and leaves the other three alone. */
  lemma ByteOfPutByte(w: word, k: nat, v: byte, j: nat)
    requires k < 4 && j < 4
    ensures ByteOf(PutByte(w, k, v), j) == if j == k then v else ByteOf(w, j)
  {
    if k == 0 {
      BytesOfPack(v, ByteOf(w, 1), ByteOf(w, 2), ByteOf(w, 3));
    } else if k == 1 {
      BytesOfPack(ByteOf(w, 0), v, ByteOf(w, 2), ByteOf(w, 3));
    } else if k == 2 {
      BytesOfPack(ByteOf(w, 0), ByteOf(w, 1), v, ByteOf(w, 3));
    } else {
      BytesOfPack(ByteOf(w, 0), ByteOf(w, 1), ByteOf(w, 2), v);
    }
  }

  lemma BytesDetermineWord(w: word, x: word)
    requires ByteOf(w, 0) == ByteOf(x, 0) && ByteOf(w, 1) == ByteOf(x, 1)
    requires ByteOf(w, 2) == ByteOf(x, 2) && ByteOf(w, 3) == ByteOf(x, 3)
    ensures w == x
  {
    WordIsItsBytes(w);
    WordIsItsBytes(x);
  }

  lemma WordIsItsBytes(w: word)
    ensures w == Pack(ByteOf(w, 0), ByteOf(w, 1), ByteOf(w, 2), ByteOf(w, 3))
  {
    assert w == 256 * (w / 256) + w % 256;
    assert w / 65536 == (w / 256) / 256;
    assert w / 16777216 == (w / 65536) / 256;
  }
}
