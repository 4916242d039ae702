/** The write-ahead log: what the writer appends, record by record and fragment by fragment. */
module LogFormat {
  import opened Words
  import opened Coding

  const BLOCK_SIZE := 32768
  const HEADER_SIZE := 7

  const FULL: Byte := 1
  const FIRST: Byte := 2
  const MIDDLE: Byte := 3
  const LAST: Byte := 4

  /** crc32c::Value, unconstrained. */
  type Crc = seq<Byte> -> Word32

  const MASK_DELTA: Word32 := 0xa282_ead8

  /** Rotate right by 15 bits and add a constant. */
  function MaskCrc(crc: Word32): Word32 {
    (crc / 0x8000 + crc % 0x8000 * 0x2_0000 + MASK_DELTA) % 0x1_0000_0000
  }

  function UnmaskCrc(masked: Word32): Word32 {
    var rot := (masked + 0x1_0000_0000 - MASK_DELTA) % 0x1_0000_0000;
    rot / 0x2_0000 + rot % 0x2_0000 * 0x8000
  }

  lemma UnmaskMask(crc: Word32)
    ensures UnmaskCrc(MaskCrc(crc)) == crc
  {
    var hi, lo := crc / 0x8000, crc % 0x8000;
    var rot := hi + lo * 0x2_0000;
    assert crc == lo + hi * 0x8000 && hi < 0x2_0000 && lo < 0x8000;
    Rotated(rot);
    assert (MaskCrc(crc) + 0x1_0000_0000 - MASK_DELTA) % 0x1_0000_0000 == rot;
    assert rot / 0x2_0000 == lo && rot % 0x2_0000 == hi;
  }

  /** Masking inverts unmasking, so a stored checksum is right exactly when it is the masked one. */
  lemma MaskUnmask(masked: Word32)
    ensures MaskCrc(UnmaskCrc(masked)) == masked
  {
    var rot := (masked + 0x1_0000_0000 - MASK_DELTA) % 0x1_0000_0000;
    var lo, hi := rot / 0x2_0000, rot % 0x2_0000;
    assert UnmaskCrc(masked) == lo + hi * 0x8000 && hi < 0x2_0000 && lo < 0x8000;
    assert UnmaskCrc(masked) / 0x8000 == hi && UnmaskCrc(masked) % 0x8000 == lo;
    assert (rot + MASK_DELTA) % 0x1_0000_0000 == masked;
  }

  /** Adding and subtracting the constant modulo 2^32. */
  lemma Rotated(rot: nat)
    requires rot < 0x1_0000_0000
    ensures ((rot + MASK_DELTA) % 0x1_0000_0000 + 0x1_0000_0000 - MASK_DELTA) % 0x1_0000_0000 == rot
  {
  }

  function TypeOf(begin: bool, end: bool): Byte {
    if begin && end then FULL else if begin then FIRST else if end then LAST else MIDDLE
  }

  /** EmitPhysicalRecord: checksum, length, type, payload. */
  function Physical(crc: Crc, t: Byte, payload: seq<Byte>): (r: seq<Byte>)
    requires |payload| < 0x1_0000
    ensures |r| == HEADER_SIZE + |payload|
  {
    Fixed32(MaskCrc(crc([t] + payload))) + [|payload| % 256, |payload| / 256, t] + payload
  }

  /** Zeros up to the block end when no header fits. */
  function Padding(off: nat): (r: seq<Byte>)
    requires off <= BLOCK_SIZE
    ensures |r| == if BLOCK_SIZE - off < HEADER_SIZE then BLOCK_SIZE - off else 0
  {
    if BLOCK_SIZE - off < HEADER_SIZE then seq(BLOCK_SIZE - off, _ => 0) else []
  }

  /** Where the next header goes. */
  function HeaderOffset(off: nat): (o: nat)
    requires off <= BLOCK_SIZE
    ensures o + HEADER_SIZE <= BLOCK_SIZE
  {
    if BLOCK_SIZE - off < HEADER_SIZE then 0 else off
  }

  function FragmentLength(off: nat, left: nat): (n: nat)
    requires off <= BLOCK_SIZE
    ensures n <= left && HeaderOffset(off) + HEADER_SIZE + n <= BLOCK_SIZE
    ensures n < left ==> HeaderOffset(off) + HEADER_SIZE + n == BLOCK_SIZE
  {
    var avail := BLOCK_SIZE - HeaderOffset(off) - HEADER_SIZE;
    if left < avail then left else avail
  }

  /** The first fragment of `data` at block offset `off`. */
  function Fragment(crc: Crc, off: nat, data: seq<Byte>, begin: bool): (r: seq<Byte>)
    requires off <= BLOCK_SIZE
    ensures |r| == |Padding(off)| + HEADER_SIZE + FragmentLength(off, |data|)
  {
    var n := FragmentLength(off, |data|);
    Padding(off) + Physical(crc, TypeOf(begin, n == |data|), data[..n])
  }

  /** All fragments of `data`. */
  function Record(crc: Crc, off: nat, data: seq<Byte>, begin: bool): seq<Byte>
    requires off <= BLOCK_SIZE
    decreases |data|, if off == BLOCK_SIZE - HEADER_SIZE then 1 else 0
  {
    var n := FragmentLength(off, |data|);
    if n == |data| then Fragment(crc, off, data, begin)
    else Fragment(crc, off, data, begin) + Record(crc, 0, data[n..], false)
  }

  lemma RecordUnfold(crc: Crc, d: seq<Byte>, off: nat, left: seq<Byte>, begin: bool)
    requires off <= BLOCK_SIZE
    ensures var n := FragmentLength(off, |left|);
            d + Record(crc, off, left, begin) ==
            if n == |left| then d + Fragment(crc, off, left, begin)
            else d + Fragment(crc, off, left, begin) + Record(crc, 0, left[n..], false)
  {
  }

  /** The block offset after a fragment written at absolute offset `at`. */
  lemma OffsetAfter(at: nat, left: nat)
    ensures var off := at % BLOCK_SIZE;
            (at + |Padding(off)| + HEADER_SIZE + FragmentLength(off, left)) % BLOCK_SIZE
            == (HeaderOffset(off) + HEADER_SIZE + FragmentLength(off, left)) % BLOCK_SIZE
  {
    var off, blocks := at % BLOCK_SIZE, at / BLOCK_SIZE;
    assert at == blocks * BLOCK_SIZE + off;
  }

  /** The log after the given records. */
  function Log(crc: Crc, records: seq<seq<Byte>>): seq<Byte> {
    if |records| == 0 then []
    else
      var before := Log(crc, records[..|records| - 1]);
      before + Record(crc, |before| % BLOCK_SIZE, records[|records| - 1], true)
  }

  lemma {:induction false} LogPrefix(crc: Crc, records: seq<seq<Byte>>, i: nat)
    requires i <= |records|
    ensures Log(crc, records[..i]) <= Log(crc, records)
  {
    if i == |records| {
      assert records[..i] == records;
    } else {
      var front := records[..|records| - 1];
      LogPrefix(crc, front, i);
      assert front[..i] == records[..i];
    }
  }

  lemma Appended(crc: Crc, records: seq<seq<Byte>>, r: seq<Byte>)
    ensures Log(crc, records + [r]) == Log(crc, records) + Record(crc, |Log(crc, records)| % BLOCK_SIZE, r, true)
  {
    assert (records + [r])[..|records|] == records;
  }

  class Writer {
    const crc: Crc
    var dest: seq<Byte>
    var blockOffset: nat
    ghost var records: seq<seq<Byte>>

    constructor (crc: Crc)
      ensures this.crc == crc && Valid() && records == []
    {
      this.crc, dest, blockOffset, records := crc, [], 0, [];
    }

    ghost predicate Aligned()
      reads this
    {
      blockOffset <= BLOCK_SIZE && blockOffset % BLOCK_SIZE == |dest| % BLOCK_SIZE
    }

    ghost predicate Valid()
      reads this
    {
      Aligned() && dest == Log(crc, records)
    }

    method AddRecord(slice: seq<Byte>)
      requires Valid()
      modifies this
      ensures Valid() && records == old(records) + [slice]
    {
      var left, begin := slice, true;
      ghost var goal := dest + Record(crc, |dest| % BLOCK_SIZE, slice, true);
      while true
        invariant Aligned() && records == old(records)
        invariant dest + Record(crc, |dest| % BLOCK_SIZE, left, begin) == goal
        decreases |left|, if |dest| % BLOCK_SIZE == BLOCK_SIZE - HEADER_SIZE then 1 else 0
      {
        RecordUnfold(crc, dest, |dest| % BLOCK_SIZE, left, begin);
        var n := EmitFragment(left, begin);
        if n == |left| {
          break;
        }
        left, begin := left[n..], false;
      }
      Appended(crc, old(records), slice);
      records := records + [slice];
    }

    /** One turn of the loop: pad to a new block if needed, then emit as much as fits. */
    method EmitFragment(left: seq<Byte>, begin: bool) returns (n: nat)
      requires Aligned()
      modifies this`dest, this`blockOffset
      ensures Aligned() && n == FragmentLength(old(|dest|) % BLOCK_SIZE, |left|)
      ensures dest == old(dest) + Fragment(crc, old(|dest|) % BLOCK_SIZE, left, begin)
      ensures n < |left| ==> |dest| % BLOCK_SIZE == 0
    {
      ghost var at := |dest|;
      SwitchBlock();
      var avail := BLOCK_SIZE - blockOffset - HEADER_SIZE;
      n := if |left| < avail then |left| else avail;
      EmitPhysicalRecord(TypeOf(begin, n == |left|), left[..n]);
      assert |dest| == at + |Padding(at % BLOCK_SIZE)| + HEADER_SIZE + n;
      hide Padding, Physical;
      OffsetAfter(at, |left|);
    }

    /** Fill the trailer of a block that has no room for a header. */
    method SwitchBlock()
      requires Aligned()
      modifies this`dest, this`blockOffset
      ensures dest == old(dest) + Padding(old(|dest|) % BLOCK_SIZE)
      ensures blockOffset == HeaderOffset(old(|dest|) % BLOCK_SIZE)
    {
      var leftover := BLOCK_SIZE - blockOffset;
      if leftover < HEADER_SIZE {
        if leftover > 0 {
          dest := dest + seq(leftover, _ => 0);
        }
        blockOffset := 0;
      }
    }

    method EmitPhysicalRecord(t: Byte, payload: seq<Byte>)
      requires |payload| < 0x1_0000
      modifies this`dest, this`blockOffset
      ensures dest == old(dest) + Physical(crc, t, payload) && blockOffset == old(blockOffset) + HEADER_SIZE + |payload|
    {
      var header := Fixed32(MaskCrc(crc([t] + payload))) + [|payload| % 256, |payload| / 256, t];
      dest := dest + header;
      dest := dest + payload;
      blockOffset := blockOffset + HEADER_SIZE + |payload|;
    }
  }
}
