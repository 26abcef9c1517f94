/** SSLTranscript: the handshake messages as a buffer, as a running hash, or both. */
module HsTranscript {
  import opened Common

  class Transcript {
    /** The bytes kept so far, until the buffer is released. */
    var buffer: Option<seq<byte>>
    /** The bytes that have gone into the hash, once it has been set up. */
    var hash: Option<seq<byte>>

    /** Whatever is active holds |bytes|, and something is. */
    ghost predicate Holds(bytes: seq<byte>)
      reads this
    {
      && (buffer.Some? || hash.Some?)
      && (buffer.Some? ==> buffer.value == bytes)
      && (hash.Some? ==> hash.value == bytes)
    }

    constructor ()
      ensures buffer == Some([]) && hash == None
    {
      buffer, hash := Some([]), None;
    }

    /** SSLTranscript::Init. */
    method Init()
      modifies this
      ensures buffer == Some([]) && hash == None && Holds([])
    {
      buffer, hash := Some([]), None;
    }

    /** SSLTranscript::InitHash: what is in the buffer is hashed. */
    method InitHash()
      requires buffer.Some?
      modifies this`hash
      ensures hash == buffer
    {
      hash := buffer;
    }

    /** SSLTranscript::FreeBuffer. */
    method FreeBuffer()
      modifies this`buffer
      ensures buffer == None
    {
      buffer := None;
    }

    /** SSLTranscript::Update. */
    method Update(bytes: seq<byte>)
      modifies this
      ensures forall before :: old(Holds(before)) ==> Holds(before + bytes)
      ensures buffer.Some? == old(buffer.Some?) && hash.Some? == old(hash.Some?)
    {
      if buffer.Some? {
        buffer := Some(buffer.value + bytes);
      }
      if hash.Some? {
        hash := Some(hash.value + bytes);
      }
    }
  }
}
