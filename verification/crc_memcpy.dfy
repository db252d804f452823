/**
  The portable checksummed copy of turbo/crc: `FallbackCrcMemcpyEngine::Compute`
  copies `length` bytes from `src` to `dst` while extending a CRC32C state over
  them, in blocks of 8192 bytes, and the non-accelerated engine selection that
  always hands out that engine.

  The CRC32C arithmetic itself (`ExtendCrc32c`) is not part of this model: the
  per-byte update is a parameter `step`, and every result below holds for every
  choice of it.
*/
module CrcMemcpy {
  import opened Common

  /** `crc32c_t`: an opaque 32-bit checksum state. */
  type Crc = u32

  /** Absorbs one byte into a checksum state. */
  type Step = (Crc, byte) -> Crc

  /** `kBlockSize`: the size of the chunks the fallback engine works in. */
  const BlockSize: nat := 8192

  /** `ExtendCrc32c(crc, data)`: the checksum state after absorbing `data`, byte by byte. */
  function Extend(step: Step, crc: Crc, data: seq<byte>): Crc
    decreases |data|
  {
    if |data| == 0 then crc else Extend(step, step(crc, data[0]), data[1..])
  }

  /** Extending over `a` and then over `b` is extending over `a + b`. */
  lemma {:induction false} ExtendConcat(step: Step, crc: Crc, a: seq<byte>, b: seq<byte>)
    ensures Extend(step, Extend(step, crc, a), b) == Extend(step, crc, a + b)
    decreases |a|
  {
    if |a| == 0 {
      assert a + b == b;
    } else {
      assert (a + b)[0] == a[0];
      assert (a + b)[1..] == a[1..] + b;
      ExtendConcat(step, step(crc, a[0]), a[1..], b);
    }
  }

  /** One `ExtendCrc32c` + `memcpy` pair of `Compute`: the byte range it covers. */
  datatype Chunk = Chunk(offset: nat, size: nat)

  /**
    The chunks `Compute` processes from `offset` on: full blocks while
    `offset + kBlockSize < length`, then one final chunk of what is left, if
    anything is.
  */
  function Chunks(offset: nat, length: nat): (cs: seq<Chunk>)
    ensures offset >= length <==> cs == []
    ensures offset < length ==> cs[0].offset == offset
    ensures offset < length ==> cs[|cs| - 1].offset + cs[|cs| - 1].size == length
    ensures offset < length ==> 1 <= cs[|cs| - 1].size <= BlockSize
    ensures forall i :: 0 <= i < |cs| - 1 ==> cs[i].size == BlockSize
    ensures forall i :: 0 <= i < |cs| - 1 ==> cs[i + 1].offset == cs[i].offset + cs[i].size
    ensures offset < length ==> |cs| == (length - offset + BlockSize - 1) / BlockSize
    decreases length - offset
  {
    if offset + BlockSize < length then
      [Chunk(offset, BlockSize)] + Chunks(offset + BlockSize, length)
    else if offset < length then
      [Chunk(offset, length - offset)]
    else
      []
  }

  /**
    An exact multiple of the block size is not finished by the main loop: its
    last full block is the final chunk.
  */
  lemma ExactMultipleEndsInFinalChunk(k: nat)
    requires k >= 1
    ensures |Chunks(0, k * BlockSize)| == k
    ensures Chunks(0, k * BlockSize)[k - 1] == Chunk((k - 1) * BlockSize, BlockSize)
  {
    var cs := Chunks(0, k * BlockSize);
    assert |cs| == k;
    forall i | 0 <= i < k
      ensures cs[i].offset == i * BlockSize
    {
      OffsetsAreMultiples(cs, i);
    }
  }

  /** Chunk `i` of a schedule starting at zero begins at `i * kBlockSize`. */
  lemma {:induction false} OffsetsAreMultiples(cs: seq<Chunk>, i: nat)
    requires |cs| > 0 && cs[0].offset == 0 && i < |cs|
    requires forall j :: 0 <= j < |cs| - 1 ==> cs[j].size == BlockSize
    requires forall j :: 0 <= j < |cs| - 1 ==> cs[j + 1].offset == cs[j].offset + cs[j].size
    ensures cs[i].offset == i * BlockSize
  {
    if i > 0 {
      OffsetsAreMultiples(cs, i - 1);
    }
  }

  /**
    The checksum `Compute` returns, as its loop computes it: each chunk is
    absorbed in turn and the state after one chunk seeds the next. It equals one
    extension over the whole range.
  */
  function FallbackCrc(step: Step, crc: Crc, src: seq<byte>, offset: nat, length: nat): (r: Crc)
    requires offset <= length <= |src|
    ensures r == Extend(step, crc, src[offset..length])
    decreases length - offset
  {
    if offset + BlockSize < length then
      var next := Extend(step, crc, src[offset..offset + BlockSize]);
      ExtendConcat(step, crc, src[offset..offset + BlockSize], src[offset + BlockSize..length]);
      assert src[offset..offset + BlockSize] + src[offset + BlockSize..length] == src[offset..length];
      FallbackCrc(step, next, src, offset + BlockSize, length)
    else if offset < length then
      Extend(step, crc, src[offset..length])
    else
      crc
  }

  /** Extending over a prefix and then over the range that follows it is extending over the longer prefix. */
  lemma ExtendPrefix(step: Step, crc: Crc, data: seq<byte>, offset: nat, end: nat)
    requires offset <= end <= |data|
    ensures Extend(step, Extend(step, crc, data[..offset]), data[offset..end]) == Extend(step, crc, data[..end])
  {
    ExtendConcat(step, crc, data[..offset], data[offset..end]);
    assert data[..offset] + data[offset..end] == data[..end];
  }

  /**
    One `ExtendCrc32c` + `memcpy` pair of `Compute`: absorbs `src[offset..offset + size)`
    into `crc` and copies those bytes to the same positions of `dst`, leaving
    every other byte of `dst` as it was.
  */
  method CopyChunk(step: Step, dst: array<byte>, src: array<byte>, offset: nat, size: nat, crc: Crc)
    returns (crc': Crc)
    requires dst != src
    requires offset + size <= src.Length && offset + size <= dst.Length
    modifies dst
    ensures crc' == Extend(step, crc, src[offset..offset + size])
    ensures forall i :: 0 <= i < dst.Length && !(offset <= i < offset + size) ==> dst[i] == old(dst[i])
    ensures forall i :: offset <= i < offset + size ==> dst[i] == src[i]
  {
    var chunk := src[offset..offset + size];
    crc' := Extend(step, crc, chunk);
    forall i | offset <= i < offset + size {
      dst[i] := src[i];
    }
    assert src[offset..offset + size] == chunk;
  }

  /**
    `FallbackCrcMemcpyEngine::Compute`: copies `src[0..length)` to `dst` and
    returns the checksum extended over those bytes. `dst != src` stands for the
    `__restrict` qualifiers: the two ranges are distinct objects.
  */
  method FallbackEngineCompute(step: Step, dst: array<byte>, src: array<byte>, length: nat, initialCrc: Crc)
    returns (crc: Crc)
    requires dst != src
    requires length <= src.Length && length <= dst.Length
    modifies dst
    ensures dst[..length] == src[..length]
    ensures dst[length..] == old(dst[length..])
    ensures src[..] == old(src[..])
    ensures crc == Extend(step, initialCrc, src[..length])
    ensures length == 0 ==> crc == initialCrc
  {
    ghost var data := src[..];
    ghost var before := dst[..];
    crc := initialCrc;
    var offset: nat := 0;
    while offset + BlockSize < length
      invariant offset <= length
      invariant offset == 0 || offset < length
      invariant offset % BlockSize == 0
      invariant src[..] == data
      invariant crc == Extend(step, initialCrc, data[..offset])
      invariant forall i :: 0 <= i < offset ==> dst[i] == data[i]
      invariant forall i :: length <= i < dst.Length ==> dst[i] == before[i]
      decreases length - offset
    {
      // Checksum the block first, then copy it.
      crc := CopyChunk(step, dst, src, offset, BlockSize, crc);
      ExtendPrefix(step, initialCrc, data, offset, offset + BlockSize);
      offset := offset + BlockSize;
    }
    // Only a final chunk of 1..kBlockSize bytes is left.
    assert length > 0 ==> 0 < length - offset <= BlockSize;
    if offset < length {
      crc := CopyChunk(step, dst, src, offset, length - offset, crc);
      ExtendPrefix(step, initialCrc, data, offset, length);
    }
    assert dst[..length] == src[..length] by {
      SameFront(dst[..], src[..], length);
    }
    assert dst[length..] == before[length..] by {
      SameBack(dst[..], before, length);
    }
  }

  /** The copy engines a build can hand out; without the x86-64 accelerated engine only the fallback exists. */
  datatype Engine = FallbackCrcMemcpyEngine

  /** `CrcMemcpy::ArchSpecificEngines`: the engine used for temporal and for non-temporal copies. */
  datatype ArchSpecificEngines = ArchSpecificEngines(temporal: Engine, nonTemporal: Engine)

  /** `CrcMemcpy::GetArchSpecificEngines` in a build without the accelerated engine. */
  function GetArchSpecificEngines(): ArchSpecificEngines
  {
    ArchSpecificEngines(FallbackCrcMemcpyEngine, FallbackCrcMemcpyEngine)
  }

  /** `CrcMemcpy::GetTestEngine`: the lane counts are ignored without the accelerated engine. */
  function GetTestEngine(vectorLanes: int, integerLanes: int): Engine
  {
    FallbackCrcMemcpyEngine
  }

  /** The checksum an engine's `Compute` returns for `src[0..|src|)`. */
  function EngineCrc(engine: Engine, step: Step, initialCrc: Crc, src: seq<byte>): (r: Crc)
    ensures r == Extend(step, initialCrc, src)
  {
    match engine
    case FallbackCrcMemcpyEngine =>
      assert src[0..|src|] == src;
      FallbackCrc(step, initialCrc, src, 0, |src|)
  }

  /**
    Every engine this build can hand out computes the same checksum, the one
    `ExtendCrc32c` computes directly over the same bytes.
  */
  lemma AllEnginesAgree(step: Step, initialCrc: Crc, src: seq<byte>, vectorLanes: int, integerLanes: int)
    ensures EngineCrc(GetArchSpecificEngines().temporal, step, initialCrc, src)
         == EngineCrc(GetArchSpecificEngines().nonTemporal, step, initialCrc, src)
    ensures EngineCrc(GetTestEngine(vectorLanes, integerLanes), step, initialCrc, src)
         == Extend(step, initialCrc, src)
  {
  }
}
