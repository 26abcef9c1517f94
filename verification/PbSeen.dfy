/** The two 32-bit words in which pb_decode_noinit notes the required fields it met. */
module PbSeen {
  import opened Bits
  import opened PbWire

  const ALL_BITS: nat := 0xFFFF_FFFF

  ghost predicate Words(words: seq<nat>) {
    |words| == 2 && words[0] < TWO32 && words[1] < TWO32
  }

  /** Whether number |r| has been noted. */
  predicate Noted(words: seq<nat>, r: nat)
    requires |words| == 2 && r < 64
  {
    Bit(words[r / 32], r % 32)
  }

  /** fields_seen[r >> 5] |= 1 << (r & 31). */
  function Note(words: seq<nat>, r: nat): seq<nat>
    requires |words| == 2 && r < 64
  {
    words[r / 32 := Or(words[r / 32], Shl(1, r % 32))]
  }

  /** Noting a number adds it and loses none. */
  lemma NoteAdds(words: seq<nat>, r: nat, j: nat)
    requires Words(words) && r < 64 && j < 64
    ensures Words(Note(words, r)) && (Noted(Note(words, r), j) <==> Noted(words, j) || j == r)
  {
    assert Pow2(32) == TWO32 by { Pow2Values(); }
    OneFits(r % 32, 32);
    OrFits(words[r / 32], Shl(1, r % 32), 32);
    if j / 32 == r / 32 {
      OrBits(words[r / 32], Shl(1, r % 32), j % 32);
      OneBit(r % 32, j % 32);
    }
  }

  lemma NoneNoted(r: nat)
    requires r < 64
    ensures Words([0, 0]) && !Noted([0, 0], r)
  {
    ZeroBits(r % 32);
  }

  /** The test of a word against the mask of its |r| lowest bits: it holds exactly
      when those bits are set, provided no other ever was. */
  lemma MaskTest(word: nat, r: nat)
    requires word < TWO32 && r <= 32 && forall j | r <= j < 32 :: !Bit(word, j)
    ensures word == Shr(ALL_BITS, 32 - r) <==> forall j | 0 <= j < r :: Bit(word, j)
  {
    assert Pow2(32) == TWO32 && Ones(32) == ALL_BITS by { Pow2Values(); }
    ShrOnes(32, 32 - r);
    OnesFit(r, 32);
    if word == Ones(r) {
      forall j | 0 <= j < r ensures Bit(word, j) {
        OnesBits(r, j);
      }
    }
    if forall j | 0 <= j < r :: Bit(word, j) {
      forall j | 0 <= j < 32 ensures Bit(word, j) == Bit(Ones(r), j) {
        OnesBits(r, j);
      }
      SameBits(word, Ones(r), 32);
    }
  }
}
