/** The sliding replay window of dtls_record.cc: 64 bits below the largest number
    received stand for the set of all numbers received. */
module DtlsReplay {
  import opened Common
  import opened Bits

  const WINDOW: nat := 64
  const TWO64: nat := 0x1_0000_0000_0000_0000

  /** The number whose big-endian bytes are |bs|. */
  function BigEndian(bs: seq<byte>): nat {
    if bs == [] then 0 else 256 * BigEndian(bs[..|bs| - 1]) + bs[|bs| - 1]
  }

  lemma {:induction false} BigEndianFits(bs: seq<byte>)
    ensures BigEndian(bs) < Pow2(8 * |bs|)
  {
    if bs != [] {
      BigEndianFits(bs[..|bs| - 1]);
      Pow2Add(8 * (|bs| - 1), 8);
      assert Pow2(8) == 256;
    }
  }

  lemma Regroup(p: nat, a: nat)
    ensures 256 * p * a == 256 * (p * a)
  {
  }

  /** The leading bytes weigh the same whatever follows them. */
  lemma {:induction false} BigEndianSplits(a: seq<byte>, b: seq<byte>)
    ensures BigEndian(a + b) == Pow2(8 * |b|) * BigEndian(a) + BigEndian(b)
  {
    if b == [] {
      assert a + b == a;
    } else {
      var n := |b| - 1;
      BigEndianSplits(a, b[..n]);
      assert (a + b)[..|a + b| - 1] == a + b[..n];
      assert Pow2(8 * |b|) == 256 * Pow2(8 * n) by {
        Pow2Add(8 * n, 8);
        assert Pow2(8) == 256;
      }
      Regroup(Pow2(8 * n), BigEndian(a));
    }
  }

  /** to_u64_be. */
  method ToU64BE(bytes: seq<byte>) returns (ret: nat)
    requires |bytes| == 8
    ensures ret == BigEndian(bytes) < TWO64
  {
    ret := 0;
    var i := 0;
    while i < 8
      invariant i <= 8 && ret == BigEndian(bytes[..i])
    {
      assert bytes[..i + 1][..i] == bytes[..i];
      ret := 256 * ret + bytes[i];
      i := i + 1;
    }
    assert bytes[..8] == bytes;
    BigEndianFits(bytes);
    assert Pow2(64) == TWO64 by { Pow2Of64(); }
  }

  lemma Pow2Of64()
    ensures Pow2(64) == TWO64
  {
    assert Pow2(8) == 0x100;
    assert Pow2(16) == 0x1_0000 by { Pow2Add(8, 8); }
    assert Pow2(32) == 0x1_0000_0000 by { Pow2Add(16, 16); }
    Pow2Add(32, 32);
  }

  /** A number is too old if one that is 64 or more above it has been recorded. */
  ghost predicate TooOld(recorded: set<nat>, n: nat) {
    exists m :: m in recorded && n + WINDOW <= m
  }

  class ReplayWindow {
    var bitmap: nat
    var maxSeqNum: nat
    /** Every number recorded since the window was reset. */
    ghost var recorded: set<nat>

    ghost predicate Valid()
      reads this
    {
      && bitmap < TWO64 && maxSeqNum < TWO64
      && (forall n | n in recorded :: n <= maxSeqNum)
      && (if recorded == {} then maxSeqNum == 0 else maxSeqNum in recorded)
      && (forall idx | 0 <= idx < WINDOW && idx <= maxSeqNum :: Bit(bitmap, idx) == (maxSeqNum - idx in recorded))
    }

    constructor ()
      ensures Valid() && recorded == {}
    {
      bitmap, maxSeqNum, recorded := 0, 0, {};
      new;
      NothingRecorded();
    }

    /** The window of a new epoch. */
    method Reset()
      modifies this
      ensures Valid() && recorded == {}
    {
      bitmap, maxSeqNum, recorded := 0, 0, {};
      NothingRecorded();
    }

    lemma NothingRecorded()
      requires bitmap == 0
      ensures forall idx | 0 <= idx < WINDOW :: !Bit(bitmap, idx)
    {
      forall idx | 0 <= idx < WINDOW ensures !Bit(bitmap, idx) {
        ZeroBits(idx);
      }
    }

    lemma TooOldIsBelow(n: nat)
      requires Valid()
      ensures TooOld(recorded, n) <==> n + WINDOW <= maxSeqNum
    {
    }

    /** dtls1_bitmap_should_discard: exactly the numbers received before, and those
        too old for the window to tell. */
    method ShouldDiscard(seqNum: seq<byte>) returns (discard: bool)
      requires Valid() && |seqNum| == 8
      ensures discard <==> BigEndian(seqNum) in recorded || TooOld(recorded, BigEndian(seqNum))
    {
      var n := ToU64BE(seqNum);
      TooOldIsBelow(n);
      if n > maxSeqNum {
        return false;
      }
      var idx := maxSeqNum - n;
      OneBit(idx, idx);
      TestBit(bitmap, idx);
      discard := idx >= WINDOW || And(bitmap, Shl(1, idx)) != 0;
    }

    /** dtls1_bitmap_record. */
    method Record(seqNum: seq<byte>)
      requires Valid() && |seqNum| == 8
      modifies this
      ensures Valid() && recorded == old(recorded) + {BigEndian(seqNum)}
    {
      var n := ToU64BE(seqNum);
      if n > maxSeqNum {
        var shift := n - maxSeqNum;
        ghost var before := bitmap;
        if shift >= WINDOW {
          bitmap := 0;
        } else {
          bitmap := Low(Shl(bitmap, shift), 64);
        }
        Slides(before, bitmap, shift);
        maxSeqNum := n;
      }
      var idx := maxSeqNum - n;
      if idx < WINDOW {
        ghost var before := bitmap;
        bitmap := Or(bitmap, Shl(1, idx));
        Sets(before, idx);
      }
      recorded := recorded + {n};
    }
  }

  /** Sliding moves every bit up by |shift| and leaves the low ones clear. */
  lemma Slides(before: nat, after: nat, shift: nat)
    requires shift > 0 && after == if shift >= WINDOW then 0 else Low(Shl(before, shift), 64)
    ensures after < TWO64
    ensures forall idx | 0 <= idx < WINDOW :: Bit(after, idx) <==> idx >= shift && Bit(before, idx - shift)
  {
    Pow2Of64();
    forall idx | 0 <= idx < WINDOW ensures Bit(after, idx) <==> idx >= shift && Bit(before, idx - shift) {
      if shift >= WINDOW {
        ZeroBits(idx);
      } else {
        LowBits(Shl(before, shift), 64, idx);
        ShlBits(before, shift, idx);
      }
    }
  }

  lemma Sets(bitmap: nat, idx: nat)
    requires bitmap < TWO64 && idx < WINDOW
    ensures Or(bitmap, Shl(1, idx)) < TWO64
    ensures forall k | 0 <= k < WINDOW :: Bit(Or(bitmap, Shl(1, idx)), k) <==> Bit(bitmap, k) || k == idx
  {
    Pow2Of64();
    OneFits(idx, 64);
    OrFits(bitmap, Shl(1, idx), 64);
    forall k | 0 <= k < WINDOW ensures Bit(Or(bitmap, Shl(1, idx)), k) <==> Bit(bitmap, k) || k == idx {
      OrBits(bitmap, Shl(1, idx), k);
      OneBit(idx, k);
    }
  }
}
