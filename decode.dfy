/**
 * The stroke decoder: a shape row's `points` blob is read as 32-bit floats
 * (numpy frombuffer), each 4-byte word is byte-swapped, because the blob is
 * big-endian and the host is little-endian, and the floats are cut into
 * vertices of six channels (reshape(-1, 6)).
 */
module StrokeDecode {
  import opened Wrappers

  type byte = b: int | 0 <= b < 256

  /** The per-stroke decode failures numpy raises as ValueError. */
  datatype DecodeError =
    | MatrixNotThreeByThree   // reshape(3, 3) of a values list without 9 entries
    | BufferNotWordAligned    // frombuffer of a blob whose length is no multiple of 4
    | BufferNotWholeVertices  // reshape(-1, 6) of a float count that is no multiple of 6

  /** One 4-byte word of the blob, in storage order. */
  datatype Word = Word(b0: byte, b1: byte, b2: byte, b3: byte)

  /** One row of reshape(-1, 6): x, y and four channels rendering never reads. */
  datatype Vertex = Vertex(x: real, y: real, c2: real, c3: real, c4: real, c5: real)

  /** The number of channels per vertex. */
  const Channels: nat := 6

  /** The channels of a vertex, in storage order. */
  function ChannelsOf(v: Vertex): (cs: seq<real>)
    ensures |cs| == Channels && cs[0] == v.x && cs[1] == v.y
  {
    [v.x, v.y, v.c2, v.c3, v.c4, v.c5]
  }

  // ---------------------------------------------------------------------------
  // frombuffer: the blob as words

  /** The word stored at bytes i .. i + 4 of the blob. */
  function WordAt(buf: seq<byte>, i: nat): Word
    requires i + 4 <= |buf|
  {
    Word(buf[i], buf[i + 1], buf[i + 2], buf[i + 3])
  }

  /** The blob cut into whole 4-byte words; a trailing part word is dropped
      here, and DecodeFloats rejects a blob that has one. */
  function Words(buf: seq<byte>): seq<Word>
    decreases |buf|
  {
    if |buf| < 4 then [] else [WordAt(buf, 0)] + Words(buf[4..])
  }

  /** Cutting keeps as many whole words as fit. */
  lemma {:induction false} WordsLength(buf: seq<byte>)
    ensures 4 * |Words(buf)| <= |buf| < 4 * |Words(buf)| + 4
    decreases |buf|
  {
    if |buf| >= 4 {
      WordsLength(buf[4..]);
    }
  }

  /** Word i is the word at bytes 4i .. 4i + 4. */
  lemma {:induction false} WordsAt(buf: seq<byte>, i: nat)
    requires i < |Words(buf)|
    ensures 4 * i + 4 <= |buf|
    ensures Words(buf)[i] == WordAt(buf, 4 * i)
    decreases |buf|
  {
    if i > 0 {
      WordsAt(buf[4..], i - 1);
    }
  }

  // ---------------------------------------------------------------------------
  // byteswap

  /** Reverses the bytes of one word. */
  function SwapWord(w: Word): (r: Word)
    ensures r.b0 == w.b3 && r.b1 == w.b2 && r.b2 == w.b1 && r.b3 == w.b0
  {
    Word(w.b3, w.b2, w.b1, w.b0)
  }

  /** numpy byteswap on a float32 array: every word's bytes reversed. */
  function ByteSwap(words: seq<Word>): (swapped: seq<Word>)
    ensures |swapped| == |words|
    decreases |words|
  {
    if words == [] then [] else [SwapWord(words[0])] + ByteSwap(words[1..])
  }

  lemma {:induction false} ByteSwapAt(words: seq<Word>, i: nat)
    requires i < |words|
    ensures ByteSwap(words)[i] == SwapWord(words[i])
    decreases |words|
  {
    if i > 0 {
      ByteSwapAt(words[1..], i - 1);
    }
  }

  /** Swapping twice restores the words. */
  lemma ByteSwapInvolution(words: seq<Word>)
    ensures ByteSwap(ByteSwap(words)) == words
  {
    var once := ByteSwap(words);
    var twice := ByteSwap(once);
    forall i | 0 <= i < |words|
      ensures twice[i] == words[i]
    {
      ByteSwapAt(words, i);
      ByteSwapAt(once, i);
    }
  }

  /** The 32-bit pattern of a word on a little-endian host. */
  function NativeBits(w: Word): nat
  {
    w.b0 as int + 0x100 * w.b1 as int + 0x1_0000 * w.b2 as int + 0x100_0000 * w.b3 as int
  }

  /** The 32-bit pattern of a word stored most significant byte first. */
  function BigEndianBits(w: Word): nat
  {
    0x100_0000 * w.b0 as int + 0x1_0000 * w.b1 as int + 0x100 * w.b2 as int + w.b3 as int
  }

  /** The byte swap is exactly the correction from big-endian storage to the host's order. */
  lemma NativeBitsOfSwap(w: Word)
    ensures NativeBits(SwapWord(w)) == BigEndianBits(w)
    ensures NativeBits(w) < 0x1_0000_0000
  {
  }

  // ---------------------------------------------------------------------------
  // The floats and the vertices

  /** Each word read by the host as a float: `float32` is the host's reading
      of a 32-bit pattern as a number. */
  function ReadFloats(words: seq<Word>, float32: nat -> real): (d: seq<real>)
    ensures |d| == |words|
    decreases |words|
  {
    if words == [] then [] else [float32(NativeBits(words[0]))] + ReadFloats(words[1..], float32)
  }

  lemma {:induction false} ReadFloatsAt(words: seq<Word>, float32: nat -> real, i: nat)
    requires i < |words|
    ensures ReadFloats(words, float32)[i] == float32(NativeBits(words[i]))
    decreases |words|
  {
    if i > 0 {
      ReadFloatsAt(words[1..], float32, i - 1);
    }
  }

  /** frombuffer(blob, float32).byteswap(): the blob's floats as the host
      reads them after the swap. */
  function DecodeFloats(buf: seq<byte>, float32: nat -> real): (r: Result<seq<real>, DecodeError>)
    ensures r.Ok? <==> |buf| % 4 == 0
    ensures r.Ok? ==> 4 * |r.value| == |buf|
  {
    if |buf| % 4 != 0 then Err(BufferNotWordAligned)
    else
      WordsLength(buf);
      Ok(ReadFloats(ByteSwap(Words(buf)), float32))
  }

  /** The floats cut into whole vertices of six channels (reshape(-1, 6));
      DecodeVertices rejects a float count that is no multiple of six. */
  function Vertices(d: seq<real>): seq<Vertex>
    decreases |d|
  {
    if |d| < 6 then [] else [Vertex(d[0], d[1], d[2], d[3], d[4], d[5])] + Vertices(d[6..])
  }

  /** The vertices run back together (numpy ravel). */
  function Ravel(vs: seq<Vertex>): seq<real>
  {
    if vs == [] then [] else ChannelsOf(vs[0]) + Ravel(vs[1..])
  }

  lemma {:induction false} VerticesLength(d: seq<real>)
    ensures 6 * |Vertices(d)| <= |d| < 6 * |Vertices(d)| + 6
    decreases |d|
  {
    if |d| >= 6 {
      VerticesLength(d[6..]);
    }
  }

  /** Channel c of vertex k is float 6k + c. */
  lemma {:induction false} VerticesAt(d: seq<real>, k: nat, c: nat)
    requires k < |Vertices(d)| && c < Channels
    ensures 6 * k + 6 <= |d|
    ensures ChannelsOf(Vertices(d)[k])[c] == d[6 * k + c]
    decreases |d|
  {
    if k > 0 {
      VerticesAt(d[6..], k - 1, c);
    }
  }

  /** Running the vertices together gives back the floats they cover. */
  lemma {:induction false} RavelVertices(d: seq<real>)
    ensures 6 * |Vertices(d)| <= |d|
    ensures Ravel(Vertices(d)) == d[..6 * |Vertices(d)|]
    decreases |d|
  {
    VerticesLength(d);
    if |d| >= 6 {
      var rest := d[6..];
      RavelVertices(rest);
      var vs := Vertices(rest);
      var v := Vertex(d[0], d[1], d[2], d[3], d[4], d[5]);
      assert Vertices(d) == [v] + vs;
      assert ChannelsOf(v) == d[..6];
      assert Ravel(Vertices(d)) == d[..6] + rest[..6 * |vs|];
      assert d[..6 + 6 * |vs|] == d[..6] + rest[..6 * |vs|];
    }
  }

  /** render_pdf's decode of a points blob (frombuffer, byteswap, reshape): floats, swapped, cut into vertices. */
  function DecodeVertices(buf: seq<byte>, float32: nat -> real): Result<seq<Vertex>, DecodeError>
  {
    match DecodeFloats(buf, float32)
    case Err(e) => Err(e)
    case Ok(d) => if |d| % Channels != 0 then Err(BufferNotWholeVertices) else Ok(Vertices(d))
  }

  /** A word-aligned blob is whole vertices exactly when its float count is. */
  lemma WholeVertices(n: nat)
    requires n % 4 == 0
    ensures (n / 4) % 6 == 0 <==> n % 24 == 0
    ensures n % 24 == 0 ==> n / 4 == 6 * (n / 24)
  {
  }

  /** Decoding succeeds exactly for blobs of whole 24-byte vertices, and then
      gives one vertex per 24 bytes. */
  lemma DecodeVerticesShape(buf: seq<byte>, float32: nat -> real)
    ensures DecodeVertices(buf, float32).Ok? <==> |buf| % 24 == 0
    ensures DecodeVertices(buf, float32) == Err(BufferNotWordAligned) <==> |buf| % 4 != 0
    ensures DecodeVertices(buf, float32).Ok? ==> 24 * |DecodeVertices(buf, float32).value| == |buf|
  {
    if |buf| % 4 == 0 {
      var d := DecodeFloats(buf, float32).value;
      WholeVertices(|buf|);
      if |buf| % 24 == 0 {
        VerticesLength(d);
      }
    }
  }

  /** Channel c of vertex k is the big-endian float stored at bytes
      24k + 4c .. 24k + 4c + 4 of the blob. */
  lemma DecodeVertexChannel(buf: seq<byte>, float32: nat -> real, k: nat, c: nat)
    requires |buf| % 24 == 0
    requires 24 * k < |buf| && c < Channels
    ensures 24 * k + 4 * c + 4 <= |buf|
    ensures DecodeVertices(buf, float32).Ok?
    ensures k < |DecodeVertices(buf, float32).value|
    ensures ChannelsOf(DecodeVertices(buf, float32).value[k])[c] ==
      float32(BigEndianBits(WordAt(buf, 24 * k + 4 * c)))
  {
    DecodeVerticesShape(buf, float32);
    var d := DecodeFloats(buf, float32).value;
    var i := 6 * k + c;
    VerticesAt(d, k, c);
    WordsLength(buf);
    WordsAt(buf, i);
    ByteSwapAt(Words(buf), i);
    ReadFloatsAt(ByteSwap(Words(buf)), float32, i);
    NativeBitsOfSwap(WordAt(buf, 4 * i));
  }

  /** The x and y of vertex k are the big-endian floats at bytes 24k and 24k + 4. */
  lemma DecodeVertexXY(buf: seq<byte>, float32: nat -> real, k: nat)
    requires |buf| % 24 == 0 && 24 * k < |buf|
    ensures DecodeVertices(buf, float32).Ok?
    ensures k < |DecodeVertices(buf, float32).value|
    ensures var v := DecodeVertices(buf, float32).value[k];
      && v.x == float32(BigEndianBits(WordAt(buf, 24 * k)))
      && v.y == float32(BigEndianBits(WordAt(buf, 24 * k + 4)))
  {
    DecodeVertexChannel(buf, float32, k, 0);
    DecodeVertexChannel(buf, float32, k, 1);
  }

  /** Cutting into vertices loses no float: the vertices, run together, are
      the swapped floats of the blob. */
  lemma DecodeVerticesRavel(buf: seq<byte>, float32: nat -> real)
    requires DecodeVertices(buf, float32).Ok?
    ensures Ravel(DecodeVertices(buf, float32).value) == DecodeFloats(buf, float32).value
  {
    var d := DecodeFloats(buf, float32).value;
    VerticesLength(d);
    RavelVertices(d);
    assert d[..|d|] == d;
  }
}
