/** Sealing DTLS records: dtls_seal_record, dtls1_set_write_state and the record
    counters of the two epochs that can be written to. */
module DtlsWrite {
  import opened Common
  import opened Bits
  import opened DtlsTypes
  import opened DtlsReplay
  import opened DtlsRead

  const SEQ_LIMIT: nat := 0x1_0000_0000_0000

  lemma {:induction false} AllZero(bs: seq<byte>)
    requires forall i | 0 <= i < |bs| :: bs[i] == 0
    ensures BigEndian(bs) == 0
  {
    if bs != [] {
      AllZero(bs[..|bs| - 1]);
    }
  }

  /** Incrementing byte |i| after the ones behind it have gone from 255 to 0. */
  lemma {:induction false} Carry(before: seq<byte>, after: seq<byte>, i: nat)
    requires i < |before| == |after|
    requires forall k | 0 <= k < i :: after[k] == before[k]
    requires before[i] < 255 && after[i] as int == before[i] as int + 1
    requires forall k | i < k < |before| :: before[k] == 255 && after[k] == 0
    ensures BigEndian(after) == BigEndian(before) + 1
    decreases |before|
  {
    var n := |before| - 1;
    if i == n {
      assert after[..n] == before[..n];
    } else {
      Carry(before[..n], after[..n], i);
    }
  }

  lemma {:induction false} AllOnes(bs: seq<byte>)
    requires forall k | 0 <= k < |bs| :: bs[k] == 255
    ensures BigEndian(bs) == Pow2(8 * |bs|) - 1
  {
    if bs != [] {
      AllOnes(bs[..|bs| - 1]);
      Pow2Add(8 * (|bs| - 1), 8);
      assert Pow2(8) == 256;
    }
  }

  lemma SixBytes()
    ensures Pow2(48) == SEQ_LIMIT
  {
    assert Pow2(8) == 0x100;
    assert Pow2(16) == 0x1_0000 by { Pow2Add(8, 8); }
    assert Pow2(32) == 0x1_0000_0000 by { Pow2Add(16, 16); }
    Pow2Add(32, 16);
  }

  lemma CountsUp(before: seq<byte>, after: seq<byte>, i: nat)
    requires i < |before| == |after| == 6
    requires forall k | 0 <= k < i :: after[k] == before[k]
    requires before[i] < 255 && after[i] as int == before[i] as int + 1
    requires forall k | i < k < 6 :: before[k] == 255 && after[k] == 0
    ensures BigEndian(after) == BigEndian(before) + 1 < SEQ_LIMIT
  {
    Carry(before, after, i);
    BigEndianFits(after);
    SixBytes();
  }

  lemma WrapsToZero(before: seq<byte>, after: seq<byte>)
    requires |before| == |after| == 6
    requires forall k | 0 <= k < 6 :: before[k] == 255 && after[k] == 0
    ensures BigEndian(before) + 1 == SEQ_LIMIT && BigEndian(after) == 0
  {
    AllOnes(before);
    AllZero(after);
    SixBytes();
  }

  /** ssl_record_sequence_update on the last six bytes: the number grows by one; from
      the largest it wraps to zero, and that is an error. */
  method SequenceUpdate(seqNum: array<byte>) returns (ok: bool)
    requires seqNum.Length == 8
    modifies seqNum
    ensures ok == (BigEndian(old(seqNum[2..])) + 1 < SEQ_LIMIT)
    ensures BigEndian(seqNum[2..]) == if ok then BigEndian(old(seqNum[2..])) + 1 else 0
  {
    ghost var before := seqNum[2..];
    var i := 7;
    while i >= 2
      invariant 1 <= i <= 7
      invariant forall k | 0 <= k <= i :: seqNum[k] == old(seqNum[k])
      invariant forall k | i < k < 8 :: old(seqNum[k]) == 255 && seqNum[k] == 0
    {
      if seqNum[i] < 255 {
        seqNum[i] := seqNum[i] as int + 1;
        CountsUp(before, seqNum[2..], i - 2);
        return true;
      }
      seqNum[i] := 0;
      i := i - 1;
    }
    WrapsToZero(before, seqNum[2..]);
    ok := false;
  }

  /** A record on the wire. */
  function RecordBytes(typ: byte, version: nat, sequence: seq<byte>, c: seq<byte>): seq<byte> {
    [typ] + U16(version) + sequence + U16(|c|) + c
  }

  lemma RecordReads(typ: byte, version: nat, sequence: seq<byte>, c: seq<byte>, tail: seq<byte>)
    requires version < 0x1_0000 && |sequence| == 8 && |c| <= MAX_ENCRYPTED
    ensures ParseRecord(RecordBytes(typ, version, sequence, c) + tail) == Some(Record(typ, version, sequence, c, tail))
  {
    var bs := RecordBytes(typ, version, sequence, c) + tail;
    U16Reads(version);
    U16Reads(|c|);
    assert bs[1] == U16(version)[0] && bs[2] == U16(version)[1];
    assert bs[11] == U16(|c|)[0] && bs[12] == U16(|c|)[1];
    assert bs[3..11] == sequence;
    assert bs[RECORD_HEADER..RECORD_HEADER + |c|] == c;
    assert bs[RECORD_HEADER + |c|..] == tail;
  }

  class RecordWriter {
    var wEpoch: nat
    var cipher: Cipher
    var lastCipher: Cipher
    const writeSequence: array<byte>
    const lastWriteSequence: array<byte>
    /** At which attempts to seal a record the cipher fails, for a reason of its own; the
        null cipher has none. */
    const fails: nat -> bool
    var attempts: nat

    /** Every pair of epoch and number a record was sealed under. */
    ghost var used: set<(nat, nat)>
    /** The epochs whose counter has wrapped. */
    ghost var wrapped: set<nat>
    /** The record protection of every epoch so far. */
    ghost var ciphers: seq<Cipher>

    ghost predicate Valid()
      reads this, writeSequence, lastWriteSequence
    {
      && writeSequence != lastWriteSequence
      && writeSequence.Length == 8 && lastWriteSequence.Length == 8
      && wEpoch < 0x1_0000 && cipher.version < 0x1_0000
      && (forall p | p in used :: p.0 <= wEpoch && p.1 < SEQ_LIMIT)
      && (forall e | e in wrapped :: e <= wEpoch)
      && |ciphers| == wEpoch + 1 && ciphers[wEpoch] == cipher
      && (wEpoch >= 1 ==> ciphers[wEpoch - 1] == lastCipher)
      && Counts(wEpoch, Next(false))
      && (wEpoch >= 1 ==> Counts(wEpoch - 1, Next(true)))
      && Next(false) <= attempts && (wEpoch >= 1 ==> Next(true) <= attempts)
      && (wrapped != {} ==> SEQ_LIMIT <= attempts)
    }

    /** What |wrapped| excuses does not happen before 2^48 attempts. */
    lemma WrapsLate()
      requires Valid() && attempts < SEQ_LIMIT
      ensures wrapped == {}
    {
    }

    /** The cipher fails at the next attempt. */
    predicate Fails(previous: bool)
      reads this
    {
      !CipherOf(previous).isNull && fails(attempts)
    }

    /** The number the next record of the current or the previous epoch will have. */
    ghost function Next(previous: bool): nat
      reads this, writeSequence, lastWriteSequence
      requires writeSequence.Length == 8 && lastWriteSequence.Length == 8
    {
      if previous then BigEndian(lastWriteSequence[2..]) else BigEndian(writeSequence[2..])
    }

    /** The numbers used in epoch |e| are those below |next|, or all if it wrapped. */
    ghost predicate Counts(e: nat, next: nat)
      reads this
    {
      next < SEQ_LIMIT && forall n | 0 <= n < SEQ_LIMIT :: (e, n) in used <==> n < next || e in wrapped
    }

    constructor (cipher: Cipher, fails: nat -> bool)
      requires cipher.version < 0x1_0000
      ensures Valid() && fresh(writeSequence) && fresh(lastWriteSequence)
      ensures wEpoch == 0 && used == {} && wrapped == {} && this.cipher == cipher
      ensures this.fails == fails && attempts == 0 && Next(false) == 0 && ciphers == [cipher]
    {
      this.fails, attempts := fails, 0;
      wEpoch, this.cipher, lastCipher, used, wrapped := 0, cipher, cipher, {}, {};
      ciphers := [cipher];
      writeSequence := new byte[8](_ => 0);
      lastWriteSequence := new byte[8](_ => 0);
      new;
      AllZero(writeSequence[2..]);
    }

    function EpochOf(previous: bool): int
      reads this
    {
      if previous then wEpoch - 1 else wEpoch
    }

    function CipherOf(previous: bool): Cipher
      reads this
    {
      if previous then lastCipher else cipher
    }

    /** dtls1_set_write_state: the current epoch becomes the previous one. */
    method SetWriteState(next: Cipher)
      requires Valid() && wEpoch + 1 < 0x1_0000 && next.version < 0x1_0000
      modifies this, writeSequence, lastWriteSequence
      ensures Valid() && wEpoch == old(wEpoch) + 1
      ensures cipher == next && lastCipher == old(cipher) && ciphers == old(ciphers) + [next]
      ensures used == old(used) && wrapped == old(wrapped) && attempts == old(attempts)
      ensures Next(false) == 0 && Next(true) == old(Next(false))
    {
      wEpoch := wEpoch + 1;
      forall i | 0 <= i < 8 {
        lastWriteSequence[i] := writeSequence[i];
      }
      forall i | 0 <= i < 8 {
        writeSequence[i] := 0;
      }
      AllZero(writeSequence[2..]);
      assert lastWriteSequence[2..] == old(writeSequence[2..]);
      lastCipher := cipher;
      cipher := next;
      ciphers := ciphers + [next];
    }

    /** The number of the next record, as it is written out. */
    function SequenceOf(previous: bool): seq<byte>
      reads this, writeSequence, lastWriteSequence
      requires writeSequence.Length == 8 && lastWriteSequence.Length == 8 && (previous ==> wEpoch >= 1)
    {
      U16(EpochOf(previous)) + if previous then lastWriteSequence[2..] else writeSequence[2..]
    }

    /** When a record of at most |maxOut| bytes can be sealed: the cipher does not fail, there
        is room for what it makes, and the number is not the last one. */
    ghost predicate Seals(typ: byte, input: seq<byte>, maxOut: nat, previous: bool)
      reads this, writeSequence, lastWriteSequence
      requires writeSequence.Length == 8 && lastWriteSequence.Length == 8 && (previous ==> wEpoch >= 1)
    {
      var c := CipherOf(previous).seal(typ, cipher.version, SequenceOf(previous), input);
      && !Fails(previous) && c.Some? && RECORD_HEADER + |c.value| <= maxOut && |c.value| < 0x1_0000
      && Next(previous) + 1 < SEQ_LIMIT
    }

    /** The next number of an epoch is used up. */
    method UseNumber(previous: bool) returns (ok: bool)
      requires Valid() && (previous ==> wEpoch >= 1) && Next(previous) < attempts
      modifies this`used, this`wrapped, writeSequence, lastWriteSequence
      ensures Valid() && used == old(used) + {(EpochOf(previous), old(Next(previous)))}
      ensures ok == (old(Next(previous)) + 1 < SEQ_LIMIT)
      ensures Next(previous) == if ok then old(Next(previous)) + 1 else 0
      ensures wrapped == if ok then old(wrapped) else old(wrapped) + {EpochOf(previous)}
      ensures (EpochOf(previous), old(Next(previous))) in old(used) <==> EpochOf(previous) in old(wrapped)
    {
      hide BigEndian;
      var epoch := EpochOf(previous);
      used := used + {(epoch, Next(previous))};
      ok := SequenceUpdate(if previous then lastWriteSequence else writeSequence);
      if !ok {
        wrapped := wrapped + {epoch};
      }
    }

    /** dtls_seal_record for at most |maxOut| bytes.  A number is used up when the
        cipher has sealed something under it, even if the record is not sent. */
    method SealRecord(typ: byte, input: seq<byte>, maxOut: nat, previous: bool) returns (out: Option<seq<byte>>)
      requires Valid() && (previous ==> wEpoch >= 1)
      modifies this, writeSequence, lastWriteSequence
      ensures Valid() && wEpoch == old(wEpoch) && cipher == old(cipher) && lastCipher == old(lastCipher)
      ensures ciphers == old(ciphers)
      ensures old(used) <= used <= old(used) + {(EpochOf(previous), old(Next(previous)))}
      ensures out.Some? == old(Seals(typ, input, maxOut, previous))
      ensures attempts == old(attempts) + if maxOut < RECORD_HEADER then 0 else 1
      ensures out.Some? ==>
                var c := CipherOf(previous).seal(typ, cipher.version, old(SequenceOf(previous)), input);
                && c.Some? && |c.value| < 0x1_0000 && |out.value| <= maxOut && out.value == RecordBytes(typ, cipher.version, old(SequenceOf(previous)), c.value)
                && (EpochOf(previous), old(Next(previous))) in used
                && Next(previous) == old(Next(previous)) + 1
      ensures Next(previous) <= old(Next(previous)) + 1
      ensures forall n | (EpochOf(previous), n) in old(used) :: n < old(Next(previous)) || EpochOf(previous) in old(wrapped)
      ensures wrapped == old(wrapped)
              || (wrapped == old(wrapped) + {EpochOf(previous)} && old(Next(previous)) + 1 == SEQ_LIMIT && out.None?)
    {
      hide BigEndian;
      if maxOut < RECORD_HEADER {
        return None;
      }
      var version := cipher.version;
      var seqBytes := SequenceOf(previous);
      var failed := Fails(previous);
      attempts := attempts + 1;
      var c := CipherOf(previous).seal(typ, version, seqBytes, input);
      if failed || c.None? || |c.value| > maxOut - RECORD_HEADER {
        return None;
      }
      var ok := UseNumber(previous);
      if !ok || |c.value| >= 0x1_0000 {
        return None;
      }
      out := Some(RecordBytes(typ, version, seqBytes, c.value));
    }
  }
}
