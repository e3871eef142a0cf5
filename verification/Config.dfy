/** `Config.setup`: what is defaulted, what is refused, and what every later stage may rely on. */
module Config {
  import opened Wrappers
  import opened Bytes
  import opened Masking
  import opened Frames

  const DEFAULT_MAX_STREAMS: int := 1024
  const DEFAULT_CHUNK_SIZE: int := 4096
  const DEFAULT_BUFFER_SIZE: int := 5120

  /** The options the model uses. */
  datatype Settings = Settings(
    enableStreams: bool, maxStreams: int, chunkSize: int, bufferSize: int,
    enableCompress: bool, privateMask: Option<seq<byte>>)

  function EffectiveStreams(c: Settings): (n: int)
  {
    if !c.enableStreams then 0 else if c.maxStreams == 0 then DEFAULT_MAX_STREAMS else c.maxStreams
  }

  /** The settings after a successful `setup`, None if it refuses them. */
  function SetupSpec(c: Settings): (r: Option<Settings>)
  {
    if EffectiveStreams(c) > MAX_STREAMS_IN_THEORY || !PrivateMaskOk(c.privateMask) then None
    else
      Some(c.(maxStreams := EffectiveStreams(c),
              chunkSize := if c.chunkSize < DEFAULT_CHUNK_SIZE then DEFAULT_CHUNK_SIZE else c.chunkSize,
              bufferSize := if c.bufferSize == 0 then DEFAULT_BUFFER_SIZE else c.bufferSize))
  }

  /**
   * In figures: streams are off unless enabled, and then at most 32768, 1024 if not said; chunks are of at least 4096
   * bytes, and a larger size is kept; a read buffer of any size but 0 is kept, and 0 means 5120. Nothing else is
   * touched. Refused are a larger limit, and a private mask that is empty or no multiple of four bytes long.
   */
  lemma {:induction false} SetupInFigures(c: Settings)
    ensures !c.enableStreams ==> EffectiveStreams(c) == 0
    ensures c.enableStreams ==> EffectiveStreams(c) == if c.maxStreams == 0 then 1024 else c.maxStreams
    ensures var r := SetupSpec(c);
            && (r.None? <==>
                  || (c.enableStreams && c.maxStreams > 32768)
                  || (c.privateMask.Some? && (|c.privateMask.value| == 0 || |c.privateMask.value| % 4 != 0)))
            && (r.Some? ==>
                  && r.value == c.(maxStreams := r.value.maxStreams, chunkSize := r.value.chunkSize,
                                   bufferSize := r.value.bufferSize)
                  && r.value.maxStreams == EffectiveStreams(c)
                  && (c.chunkSize >= 4096 ==> r.value.chunkSize == c.chunkSize)
                  && (c.chunkSize < 4096 ==> r.value.chunkSize == 4096)
                  && (c.bufferSize != 0 ==> r.value.bufferSize == c.bufferSize)
                  && (c.bufferSize == 0 ==> r.value.bufferSize == 5120))
  {
  }

  /** Setting up what `setup` has settled changes nothing. */
  lemma {:induction false} SetupIsIdempotent(c: Settings)
    requires SetupSpec(c).Some?
    ensures SetupSpec(SetupSpec(c).value) == SetupSpec(c)
  {
  }

  /** What connections are built on: a settled configuration. */
  predicate Settled(c: Settings)
  {
    SetupSpec(c) == Some(c)
  }

  lemma {:induction false} SettledFacts(c: Settings)
    requires Settled(c)
    ensures c.maxStreams <= MAX_STREAMS_IN_THEORY && PrivateMaskOk(c.privateMask) && c.chunkSize >= DEFAULT_CHUNK_SIZE
    ensures c.maxStreams > 0 ==> c.enableStreams
  {
  }

  /**
   * What `setup` does not check: whether a full chunk, with its stream head, fits the peer's read buffer. With the
   * same settings on both sides it does exactly in these cases; the defaults are one of them.
   */
  lemma {:induction false} ChunksFitTheBuffer(c: Settings, peer: Peer, streamable: bool)
    requires Settled(c) && peer.bufferSize == c.bufferSize
    ensures (if streamable then c.chunkSize + STREAM_BYTES else c.chunkSize) <= PeekLimit(peer)
       <==> c.bufferSize >= (if streamable then c.chunkSize + STREAM_BYTES else c.chunkSize)
  {
  }

  class Config {
    var enableStreams: bool
    var maxStreams: int
    var chunkSize: int
    var bufferSize: int
    var enableCompress: bool
    var privateMask: Option<seq<byte>>

    ghost function Value(): (c: Settings)
      reads this
    {
      Settings(enableStreams, maxStreams, chunkSize, bufferSize, enableCompress, privateMask)
    }

    constructor (c: Settings)
      ensures Value() == c
    {
      enableStreams, maxStreams, chunkSize, bufferSize := c.enableStreams, c.maxStreams, c.chunkSize, c.bufferSize;
      enableCompress, privateMask := c.enableCompress, c.privateMask;
    }

    /** A refused configuration keeps its chunk and buffer sizes, but its stream limit has been overwritten. */
    method Setup() returns (ok: bool)
      modifies this
      ensures ok <==> SetupSpec(old(Value())).Some?
      ensures ok ==> Value() == SetupSpec(old(Value())).value
      ensures !ok ==> Value() == old(Value()).(maxStreams := EffectiveStreams(old(Value())))
    {
      if !enableStreams {
        maxStreams := 0;
      }
      if enableStreams && maxStreams == 0 {
        maxStreams := DEFAULT_MAX_STREAMS;
      }
      if maxStreams > MAX_STREAMS_IN_THEORY {
        return false;
      }
      if privateMask.Some? && (|privateMask.value| == 0 || |privateMask.value| % 4 != 0) {
        return false;
      }
      if chunkSize < DEFAULT_CHUNK_SIZE {
        chunkSize := DEFAULT_CHUNK_SIZE;
      }
      if bufferSize == 0 {
        bufferSize := DEFAULT_BUFFER_SIZE;
      }
      ok := true;
    }
  }
}
