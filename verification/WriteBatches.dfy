/** Write batches: a header with sequence and count, then one record per update. */
module WriteBatches {
  import opened Words
  import opened Coding
  import opened Wrappers

  type Bytes = seq<Byte>

  const HEADER := 12
  const TYPE_DELETION: Byte := 0
  const TYPE_VALUE: Byte := 1
  const COUNT_MODULUS := 0x1_0000_0000

  datatype Op = Put(key: Bytes, value: Bytes) | Delete(key: Bytes) {
    predicate Valid() { |key| < COUNT_MODULUS && (Put? ==> |value| < COUNT_MODULUS) }
  }

  predicate AllValid(ops: seq<Op>) { forall i :: 0 <= i < |ops| ==> ops[i].Valid() }

  function Prefixed(s: Bytes): Bytes { Varint(|s|) + s }

  function OpBytes(op: Op): (r: Bytes)
    ensures |r| > 0
  {
    if op.Put? then [TYPE_VALUE] + Prefixed(op.key) + Prefixed(op.value) else [TYPE_DELETION] + Prefixed(op.key)
  }

  function OpsBytes(ops: seq<Op>): Bytes {
    if |ops| == 0 then [] else OpBytes(ops[0]) + OpsBytes(ops[1..])
  }

  lemma {:induction false} OpsBytesConcat(a: seq<Op>, b: seq<Op>)
    ensures OpsBytes(a + b) == OpsBytes(a) + OpsBytes(b)
  {
    if |a| == 0 {
      assert a + b == b;
    } else {
      assert (a + b)[1..] == a[1..] + b;
      OpsBytesConcat(a[1..], b);
      assert OpBytes(a[0]) + (OpsBytes(a[1..]) + OpsBytes(b)) == OpBytes(a[0]) + OpsBytes(a[1..]) + OpsBytes(b);
    }
  }

  lemma OpsBytesSnoc(ops: seq<Op>, op: Op)
    ensures OpsBytes(ops + [op]) == OpsBytes(ops) + OpBytes(op)
  {
    OpsBytesConcat(ops, [op]);
    assert OpsBytes([op]) == OpBytes(op) + OpsBytes([]);
  }

  function GetLengthPrefixed(data: Bytes, p: nat): (r: Option<(Bytes, nat)>)
    requires p <= |data|
    ensures r.Some? ==> p < r.value.1 <= |data|
  {
    match GetVarint32(data, p, |data|)
    case None => None
    case Some((len, q)) => if q + len <= |data| then Some((data[q..q + len], q + len)) else None
  }

  lemma PrefixedAt(data: Bytes, p: nat, s: Bytes)
    requires At(data, p, Prefixed(s)) && |s| < COUNT_MODULUS
    ensures GetLengthPrefixed(data, p) == Some((s, p + |Prefixed(s)|))
  {
    AtConcat(data, p, Varint(|s|), s);
    GetVarint32At(data, p, |data|, |s|);
    AtSlice(data, p + |Varint(|s|)|, s);
  }

  /** One record: its update and the offset after it. */
  function ParseOp(data: Bytes, p: nat): (r: Option<(Op, nat)>)
    requires p < |data|
    ensures r.Some? ==> p < r.value.1 <= |data|
  {
    if data[p] != TYPE_VALUE && data[p] != TYPE_DELETION then None
    else
      match GetLengthPrefixed(data, p + 1)
      case None => None
      case Some((key, q)) =>
        if data[p] == TYPE_DELETION then Some((Delete(key), q))
        else
          match GetLengthPrefixed(data, q)
          case None => None
          case Some((value, q')) => Some((Put(key, value), q'))
  }

  lemma OpParts(data: Bytes, p: nat, op: Op)
    requires At(data, p, OpBytes(op))
    ensures p < |data| && data[p] == (if op.Put? then TYPE_VALUE else TYPE_DELETION)
    ensures At(data, p + 1, Prefixed(op.key))
    ensures op.Put? ==> At(data, p + 1 + |Prefixed(op.key)|, Prefixed(op.value))
    ensures |OpBytes(op)| == 1 + |Prefixed(op.key)| + if op.Put? then |Prefixed(op.value)| else 0
  {
    assert data[p] == OpBytes(op)[0];
    hide At, Prefixed;
    if op.Put? {
      AtConcat(data, p, [TYPE_VALUE] + Prefixed(op.key), Prefixed(op.value));
      AtConcat(data, p, [TYPE_VALUE], Prefixed(op.key));
    } else {
      AtConcat(data, p, [TYPE_DELETION], Prefixed(op.key));
    }
  }

  lemma ParseOpAt(data: Bytes, p: nat, op: Op)
    requires At(data, p, OpBytes(op)) && op.Valid()
    ensures p < |data| && ParseOp(data, p) == Some((op, p + |OpBytes(op)|))
  {
    hide At, Prefixed, OpBytes, GetLengthPrefixed;
    OpParts(data, p, op);
    PrefixedAt(data, p + 1, op.key);
    if op.Put? {
      PrefixedAt(data, p + 1 + |Prefixed(op.key)|, op.value);
    }
  }

  /** The updates handed to the handler, and whether the bytes ended cleanly. */
  datatype Parsed = Parsed(ops: seq<Op>, clean: bool)

  function Parse(data: Bytes, p: nat): Parsed
    requires p <= |data|
    decreases |data| - p
  {
    if p == |data| then Parsed([], true)
    else
      match ParseOp(data, p)
      case None => Parsed([], false)
      case Some((op, q)) => var rest := Parse(data, q); Parsed([op] + rest.ops, rest.clean)
  }

  lemma {:induction false} ParseAt(data: Bytes, p: nat, ops: seq<Op>)
    requires At(data, p, OpsBytes(ops)) && p + |OpsBytes(ops)| == |data| && AllValid(ops)
    ensures Parse(data, p) == Parsed(ops, true)
    decreases |ops|
  {
    hide At, ParseOp, OpBytes;
    if |ops| > 0 {
      AtConcat(data, p, OpBytes(ops[0]), OpsBytes(ops[1..]));
      ParseOpAt(data, p, ops[0]);
      ParseAt(data, p + |OpBytes(ops[0])|, ops[1..]);
    }
  }

  /** The count is a 32-bit number. */
  function Wrap(n: nat): Word32 { n % COUNT_MODULUS }

  /** Header and records. */
  function Frame(sequence: nat, count: nat, records: Bytes): (r: Bytes)
    ensures |r| == HEADER + |records|
  {
    Fixed(sequence, 8) + Fixed32(Wrap(count)) + records
  }

  lemma FrameParts(sequence: nat, count: nat, records: Bytes)
    requires sequence < 0x1_0000_0000_0000_0000
    ensures var rep := Frame(sequence, count, records);
            && ReadFixed(rep, 0, 8) == sequence && DecodeFixed32(rep, 8) == Wrap(count)
            && At(rep, HEADER, records) && rep[HEADER..] == records
  {
    var rep := Frame(sequence, count, records);
    var head := Fixed(sequence, 8) + Fixed32(Wrap(count));
    assert At(rep, 0, head + records);
    AtConcat(rep, 0, head, records);
    AtConcat(rep, 0, Fixed(sequence, 8), Fixed32(Wrap(count)));
    Pow256Eight();
    ReadFixedAt(rep, 0, sequence, 8);
    Fixed32At(rep, 8, Wrap(count));
  }

  /** SetCount, then append. */
  function Grown(rep: Bytes, count: nat, tail: Bytes): Bytes
    requires |rep| >= HEADER
  {
    rep[..8] + Fixed32(count) + rep[12..] + tail
  }

  lemma FrameGrows(sequence: nat, count: nat, records: Bytes, more: nat, tail: Bytes)
    ensures Grown(Frame(sequence, count, records), Wrap(Wrap(count) + Wrap(more)), tail) ==
              Frame(sequence, count + more, records + tail)
  {
    CountAdds(count, more);
    assert Frame(sequence, count, records)[..8] == Fixed(sequence, 8);
    assert Frame(sequence, count, records)[12..] == records;
  }

  function Rep(sequence: nat, ops: seq<Op>): (r: Bytes)
    ensures |r| == HEADER + |OpsBytes(ops)|
  {
    Frame(sequence, |ops|, OpsBytes(ops))
  }

  lemma Pow256Eight()
    ensures Pow256(8) == 0x1_0000_0000_0000_0000
  {
    assert Pow256(4) == 0x1_0000_0000;
  }

  /** WriteBatch::Iterate: every update in order, and corruption unless the bytes end cleanly with the right count. */
  method Iterate(rep: Bytes) returns (ops: seq<Op>, ok: bool)
    ensures |rep| < HEADER ==> ops == [] && !ok
    ensures |rep| >= HEADER ==>
              ops == Parse(rep, HEADER).ops && ok == (Parse(rep, HEADER).clean && |ops| == DecodeFixed32(rep, 8))
  {
    hide ParseOp, DecodeFixed32;
    ops := [];
    if |rep| < HEADER {
      return [], false;
    }
    var p, found: nat := HEADER, 0;
    while p < |rep|
      invariant HEADER <= p <= |rep| && found == |ops|
      invariant Parse(rep, HEADER) == var rest := Parse(rep, p); Parsed(ops + rest.ops, rest.clean)
    {
      found := found + 1;
      var r := ParseOp(rep, p);
      if r.None? {
        assert ops + [] == ops;
        return ops, false;
      }
      ghost var rest := Parse(rep, r.value.1);
      assert ops + ([r.value.0] + rest.ops) == (ops + [r.value.0]) + rest.ops;
      ops, p := ops + [r.value.0], r.value.1;
    }
    assert ops + [] == ops;
    ok := found == DecodeFixed32(rep, 8);
  }

  /** Reading a batch back gives exactly its updates; it is accepted exactly when the count did not wrap. */
  lemma RepRoundTrip(sequence: nat, ops: seq<Op>)
    requires sequence < 0x1_0000_0000_0000_0000 && AllValid(ops)
    ensures Parse(Rep(sequence, ops), HEADER) == Parsed(ops, true)
    ensures (|ops| == DecodeFixed32(Rep(sequence, ops), 8)) <==> |ops| < COUNT_MODULUS
  {
    hide At, Frame, ParseOp, OpBytes, DecodeFixed32;
    FrameParts(sequence, |ops|, OpsBytes(ops));
    ParseAt(Rep(sequence, ops), HEADER, ops);
  }

  lemma CountAdds(a: nat, b: nat)
    ensures Wrap(Wrap(a) + Wrap(b)) == Wrap(a + b) && Wrap(1) == 1
  {
    var q, r := a / COUNT_MODULUS, b / COUNT_MODULUS;
    assert a + b == (q + r) * COUNT_MODULUS + (a % COUNT_MODULUS + b % COUNT_MODULUS);
  }

  class WriteBatch {
    var rep: Bytes
    ghost var sequence: nat
    ghost var ops: seq<Op>

    constructor ()
      ensures Valid() && ops == [] && sequence == 0
    {
      new;
      Clear();
    }

    ghost predicate Valid()
      reads this
    {
      rep == Rep(sequence, ops) && AllValid(ops) && sequence < 0x1_0000_0000_0000_0000
    }

    method Clear()
      modifies this
      ensures Valid() && ops == [] && sequence == 0
    {
      rep, sequence, ops := seq(HEADER, _ => 0), 0, [];
      EmptyRep();
    }

    function Count(): nat
      reads this
      requires |rep| >= HEADER
    {
      DecodeFixed32(rep, 8)
    }

    /** Add one update: bump the count, append the record. */
    method Add(op: Op)
      requires Valid() && op.Valid()
      modifies this
      ensures Valid() && ops == old(ops) + [op] && sequence == old(sequence)
    {
      hide Frame, At, OpBytes, DecodeFixed32, Wrap, Grown;
      FrameParts(sequence, |ops|, OpsBytes(ops));
      CountAdds(|ops|, 1);
      OpsBytesSnoc(ops, op);
      FrameGrows(sequence, |ops|, OpsBytes(ops), 1, OpBytes(op));
      var count := Wrap(Count() + 1);
      rep := Grown(rep, count, OpBytes(op));
      ops := ops + [op];
    }

    method SetSequence(s: nat)
      requires Valid() && s < 0x1_0000_0000_0000_0000
      modifies this
      ensures Valid() && ops == old(ops) && sequence == s
    {
      assert Rep(s, ops) == Fixed(s, 8) + Rep(sequence, ops)[8..];
      rep := Fixed(s, 8) + rep[8..];
      sequence := s;
    }

    /** Append all updates of another batch. */
    method Append(src: WriteBatch)
      requires Valid() && src.Valid()
      modifies this
      ensures Valid() && ops == old(ops) + old(src.ops) && sequence == old(sequence)
    {
      hide Rep, DecodeFixed32, AllValid, Wrap, Grown;
      RepGrows(sequence, ops, src.sequence, src.ops);
      AppendedValid(ops, src.ops);
      ghost var more := src.ops;
      var count, tail := Wrap(Count() + src.Count()), src.rep[HEADER..];
      rep := Grown(rep, count, tail);
      ops := ops + more;
    }
  }

  lemma RepGrows(s1: nat, ops1: seq<Op>, s2: nat, ops2: seq<Op>)
    requires s1 < 0x1_0000_0000_0000_0000 && s2 < 0x1_0000_0000_0000_0000
    ensures var r1, r2 := Rep(s1, ops1), Rep(s2, ops2);
            Grown(r1, Wrap(DecodeFixed32(r1, 8) + DecodeFixed32(r2, 8)), r2[HEADER..]) == Rep(s1, ops1 + ops2)
  {
    hide Frame, DecodeFixed32, Wrap, Grown;
    OpsBytesConcat(ops1, ops2);
    FramesJoin(s1, |ops1|, OpsBytes(ops1), s2, |ops2|, OpsBytes(ops2));
  }

  lemma FramesJoin(s1: nat, n1: nat, b1: Bytes, s2: nat, n2: nat, b2: Bytes)
    requires s1 < 0x1_0000_0000_0000_0000 && s2 < 0x1_0000_0000_0000_0000
    ensures var f1, f2 := Frame(s1, n1, b1), Frame(s2, n2, b2);
            Grown(f1, Wrap(DecodeFixed32(f1, 8) + DecodeFixed32(f2, 8)), f2[HEADER..]) == Frame(s1, n1 + n2, b1 + b2)
  {
    hide Frame, At, DecodeFixed32, Wrap, Grown;
    FrameParts(s1, n1, b1);
    FrameParts(s2, n2, b2);
    FrameGrows(s1, n1, b1, n2, b2);
  }

  lemma AppendedValid(a: seq<Op>, b: seq<Op>)
    requires AllValid(a) && AllValid(b)
    ensures AllValid(a + b)
  {
  }

  lemma EmptyRep()
    ensures seq(HEADER, _ => 0) == Rep(0, [])
  {
    ZeroFixed(8);
    ZeroFixed(4);
    assert Rep(0, []) == Fixed(0, 8) + Fixed(0, 4) + [];
  }

  lemma {:induction false} ZeroFixed(n: nat)
    ensures Fixed(0, n) == seq(n, _ => 0)
  {
    if n > 0 {
      ZeroFixed(n - 1);
      assert seq(n, _ => 0) == [0] + seq(n - 1, _ => 0);
    }
  }

  /** What MemTableInserter adds: update number i gets sequence + i. */
  datatype MemEntry = MemEntry(sequence: nat, op: Op)

  function Entries(sequence: nat, ops: seq<Op>): (r: seq<MemEntry>)
    ensures |r| == |ops|
  {
    seq(|ops|, i requires 0 <= i < |ops| => MemEntry(sequence + i, ops[i]))
  }
}
