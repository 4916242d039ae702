/** Version edits: what a manifest record says, and its encoding. */
module VersionEdits {
  import Dbformat
  import opened Words
  import opened Coding
  import opened Wrappers
  import opened WriteBatches

  /** FileMetaData as stored: keys are encoded internal keys. */
  datatype Meta = Meta(number: nat, size: nat, smallest: Bytes, largest: Bytes) {
    predicate Valid() { number < WORD64 && size < WORD64 && KeyOk(smallest) && KeyOk(largest) }
  }

  const WORD64 := 0x1_0000_0000_0000_0000

  predicate KeyOk(k: Bytes) { 0 < |k| < COUNT_MODULUS }

  /** One tagged field of an encoded edit. */
  datatype Field =
    | Comparator(name: Bytes)
    | LogNumber(n: nat)
    | PrevLogNumber(n: nat)
    | NextFileNumber(n: nat)
    | LastSequence(n: nat)
    | CompactPointer(level: nat, key: Bytes)
    | DeletedFile(level: nat, number: nat)
    | NewFile(level: nat, file: Meta)
  {
    predicate Valid() {
      match this
      case Comparator(name) => |name| < COUNT_MODULUS
      case CompactPointer(level, key) => level < Dbformat.NUM_LEVELS && KeyOk(key)
      case DeletedFile(level, number) => level < Dbformat.NUM_LEVELS && number < WORD64
      case NewFile(level, file) => level < Dbformat.NUM_LEVELS && file.Valid()
      case _ => n < WORD64
    }

    function Tag(): nat {
      match this
      case Comparator(_) => 1
      case LogNumber(_) => 2
      case NextFileNumber(_) => 3
      case LastSequence(_) => 4
      case CompactPointer(_, _) => 5
      case DeletedFile(_, _) => 6
      case NewFile(_, _) => 7
      case PrevLogNumber(_) => 9
    }
  }

  function FileBytes(f: Meta): Bytes {
    Varint(f.number) + (Varint(f.size) + (Prefixed(f.smallest) + Prefixed(f.largest)))
  }

  function Body(f: Field): Bytes {
    match f
    case Comparator(name) => Prefixed(name)
    case CompactPointer(level, key) => Varint(level) + Prefixed(key)
    case DeletedFile(level, number) => Varint(level) + Varint(number)
    case NewFile(level, file) => Varint(level) + FileBytes(file)
    case _ => Varint(f.n)
  }

  function FieldBytes(f: Field): (r: Bytes)
    ensures |r| > 0
  {
    Varint(f.Tag()) + Body(f)
  }

  function FieldsBytes(fs: seq<Field>): Bytes {
    if |fs| == 0 then [] else FieldBytes(fs[0]) + FieldsBytes(fs[1..])
  }

  /** GetLevel. */
  function GetLevel(data: Bytes, p: nat): (r: Option<(nat, nat)>)
    requires p <= |data|
    ensures r.Some? ==> p < r.value.1 <= |data|
  {
    match GetVarint32(data, p, |data|)
    case Some((v, q)) => if v < Dbformat.NUM_LEVELS then Some((v, q)) else None
    case None => None
  }

  /** GetInternalKey: a key must not be empty. */
  function GetKey(data: Bytes, p: nat): (r: Option<(Bytes, nat)>)
    requires p <= |data|
    ensures r.Some? ==> p < r.value.1 <= |data|
  {
    match GetLengthPrefixed(data, p)
    case Some((k, q)) => if |k| > 0 then Some((k, q)) else None
    case None => None
  }

  function GetFile(data: Bytes, p: nat): (r: Option<(Meta, nat)>)
    requires p <= |data|
    ensures r.Some? ==> p < r.value.1 <= |data|
  {
    match GetVarint64(data, p, |data|)
    case None => None
    case Some((number, p1)) =>
      match GetVarint64(data, p1, |data|)
      case None => None
      case Some((size, p2)) =>
        match GetKey(data, p2)
        case None => None
        case Some((smallest, p3)) =>
          match GetKey(data, p3)
          case None => None
          case Some((largest, p4)) => Some((Meta(number, size, smallest, largest), p4))
  }

  function GetPointer(data: Bytes, p: nat): (r: Option<(Field, nat)>)
    requires p <= |data|
    ensures r.Some? ==> p < r.value.1 <= |data|
  {
    match GetLevel(data, p)
    case None => None
    case Some((level, q)) =>
      match GetKey(data, q) { case None => None case Some((key, q')) => Some((CompactPointer(level, key), q')) }
  }

  function GetDeleted(data: Bytes, p: nat): (r: Option<(Field, nat)>)
    requires p <= |data|
    ensures r.Some? ==> p < r.value.1 <= |data|
  {
    match GetLevel(data, p)
    case None => None
    case Some((level, q)) =>
      match GetVarint64(data, q, |data|)
      case None => None
      case Some((number, q')) => Some((DeletedFile(level, number), q'))
  }

  function GetNewFile(data: Bytes, p: nat): (r: Option<(Field, nat)>)
    requires p <= |data|
    ensures r.Some? ==> p < r.value.1 <= |data|
  {
    match GetLevel(data, p)
    case None => None
    case Some((level, q)) =>
      match GetFile(data, q) { case None => None case Some((file, q')) => Some((NewFile(level, file), q')) }
  }

  /** The field after tag `tag`. */
  function GetBody(data: Bytes, p: nat, tag: nat): (r: Option<(Field, nat)>)
    requires p <= |data|
    ensures r.Some? ==> p < r.value.1 <= |data|
  {
    if tag == 1 then
      match GetLengthPrefixed(data, p) { case None => None case Some((name, q)) => Some((Comparator(name), q)) }
    else if tag == 5 then GetPointer(data, p)
    else if tag == 6 then GetDeleted(data, p)
    else if tag == 7 then GetNewFile(data, p)
    else if tag == 2 || tag == 3 || tag == 4 || tag == 9 then
      match GetVarint64(data, p, |data|)
      case None => None
      case Some((n, q)) =>
        var f := if tag == 2 then LogNumber(n) else if tag == 3 then NextFileNumber(n)
          else if tag == 4 then LastSequence(n)
                 else PrevLogNumber(n);
        Some((f, q))
    else None
  }

  function GetField(data: Bytes, p: nat): (r: Option<(Field, nat)>)
    requires p <= |data|
    ensures r.Some? ==> p < r.value.1 <= |data|
  {
    match GetVarint32(data, p, |data|)
    case None => None
    case Some((tag, q)) => GetBody(data, q, tag)
  }

  /** A varint and whatever follows it. */
  lemma VarintThen(data: Bytes, p: nat, v: Word32, rest: Bytes)
    requires At(data, p, Varint(v) + rest)
    ensures p < p + |Varint(v)| <= |data| && |Varint(v) + rest| == |Varint(v)| + |rest|
    ensures GetVarint32(data, p, |data|) == Some((v, p + |Varint(v)|)) && At(data, p + |Varint(v)|, rest)
  {
    hide GetVarint32;
    AtConcat(data, p, Varint(v), rest);
    GetVarint32At(data, p, |data|, v);
  }

  lemma LevelThen(data: Bytes, p: nat, level: nat, rest: Bytes)
    requires At(data, p, Varint(level) + rest) && level < Dbformat.NUM_LEVELS
    ensures p < p + |Varint(level)| <= |data| && |Varint(level) + rest| == |Varint(level)| + |rest|
    ensures GetLevel(data, p) == Some((level, p + |Varint(level)|)) && At(data, p + |Varint(level)|, rest)
  {
    hide GetVarint32, At;
    VarintThen(data, p, level, rest);
  }

  lemma KeyAt(data: Bytes, p: nat, k: Bytes)
    requires At(data, p, Prefixed(k)) && KeyOk(k)
    ensures GetKey(data, p) == Some((k, p + |Prefixed(k)|))
  {
    PrefixedAt(data, p, k);
  }

  lemma FileAt(data: Bytes, p: nat, f: Meta)
    requires p <= |data| && f.Valid() && At(data, p, FileBytes(f))
    ensures GetFile(data, p) == Some((f, p + |FileBytes(f)|))
  {
    hide At, Prefixed, GetVarint64, GetKey, KeyOk;
    var keys := Prefixed(f.smallest) + Prefixed(f.largest);
    AtConcat(data, p, Varint(f.number), Varint(f.size) + keys);
    var p1 := p + |Varint(f.number)|;
    AtConcat(data, p1, Varint(f.size), keys);
    var p2 := p1 + |Varint(f.size)|;
    AtConcat(data, p2, Prefixed(f.smallest), Prefixed(f.largest));
    AtInside(data, p2, keys);
    NumberFits(data, p, f.number);
    NumberFits(data, p1, f.size);
    KeyAt(data, p2, f.smallest);
    KeyAt(data, p2 + |Prefixed(f.smallest)|, f.largest);
  }

  lemma AtInside(data: Bytes, p: nat, bytes: Bytes)
    requires At(data, p, bytes)
    ensures p + |bytes| <= |data|
  {
  }

  lemma BodyAt(data: Bytes, p: nat, f: Field)
    requires p <= |data| && At(data, p, Body(f)) && f.Valid()
    ensures GetBody(data, p, f.Tag()) == Some((f, p + |Body(f)|))
  {
    hide GetPointer, GetDeleted, GetNewFile, GetLengthPrefixed, GetVarint64, At, FileBytes, Prefixed, KeyOk, Meta.Valid;
    match f
    case Comparator(name) => NameAt(data, p, name);
    case CompactPointer(level, key) => PointerAt(data, p, level, key);
    case DeletedFile(level, number) => DeletedAt(data, p, level, number);
    case NewFile(level, file) => NewFileAt(data, p, level, file);
    case _ => NumberAt(data, p, f);
  }

  lemma NameAt(data: Bytes, p: nat, name: Bytes)
    requires p <= |data| && At(data, p, Prefixed(name)) && |name| < COUNT_MODULUS
    ensures GetBody(data, p, 1) == Some((Comparator(name), p + |Prefixed(name)|))
  {
    hide GetVarint64, GetPointer, GetDeleted, GetNewFile;
    PrefixedAt(data, p, name);
  }

  lemma NumberAt(data: Bytes, p: nat, f: Field)
    requires p <= |data| && (f.LogNumber? || f.PrevLogNumber? || f.NextFileNumber? || f.LastSequence?)
    requires At(data, p, Varint(f.n)) && f.Valid()
    ensures GetBody(data, p, f.Tag()) == Some((f, p + |Varint(f.n)|))
  {
    assert p + |Varint(f.n)| <= |data|;
    hide At, GetVarint64, GetPointer, GetDeleted, GetNewFile, GetLengthPrefixed;
    GetVarint64At(data, p, |data|, f.n);
  }

  lemma PointerAt(data: Bytes, p: nat, level: nat, key: Bytes)
    requires p <= |data| && At(data, p, Varint(level) + Prefixed(key)) && level < Dbformat.NUM_LEVELS && KeyOk(key)
    ensures GetPointer(data, p) == Some((CompactPointer(level, key), p + |Varint(level) + Prefixed(key)|))
  {
    hide At, Prefixed, GetKey, GetLevel;
    LevelThen(data, p, level, Prefixed(key));
    KeyAt(data, p + |Varint(level)|, key);
  }

  lemma NumberFits(data: Bytes, p: nat, n: nat)
    requires At(data, p, Varint(n)) && n < WORD64
    ensures p <= |data| && GetVarint64(data, p, |data|) == Some((n, p + |Varint(n)|))
  {
    hide GetVarint64;
    GetVarint64At(data, p, |data|, n);
  }

  lemma DeletedAt(data: Bytes, p: nat, level: nat, number: nat)
    requires p <= |data| && At(data, p, Varint(level) + Varint(number)) && level < Dbformat.NUM_LEVELS
    requires number < WORD64
    ensures GetDeleted(data, p) == Some((DeletedFile(level, number), p + |Varint(level) + Varint(number)|))
  {
    hide At, GetVarint64, GetLevel;
    LevelThen(data, p, level, Varint(number));
    NumberFits(data, p + |Varint(level)|, number);
  }

  lemma NewFileAt(data: Bytes, p: nat, level: nat, file: Meta)
    requires p <= |data| && At(data, p, Varint(level) + FileBytes(file)) && level < Dbformat.NUM_LEVELS && file.Valid()
    ensures GetNewFile(data, p) == Some((NewFile(level, file), p + |Varint(level) + FileBytes(file)|))
  {
    hide At, FileBytes, GetLevel, GetFile, Meta.Valid;
    LevelThen(data, p, level, FileBytes(file));
    FileAt(data, p + |Varint(level)|, file);
  }

  lemma FieldAt(data: Bytes, p: nat, f: Field)
    requires At(data, p, FieldBytes(f)) && f.Valid()
    ensures p < |data| && GetField(data, p) == Some((f, p + |FieldBytes(f)|))
  {
    hide At, Body, GetBody, GetVarint32, Field.Valid, Field.Tag;
    TagIsSmall(f);
    TaggedAt(data, p, f.Tag(), Body(f));
    BodyAt(data, p + |Varint(f.Tag())|, f);
  }

  lemma TagIsSmall(f: Field)
    ensures f.Tag() < 128
  {
  }

  lemma TaggedAt(data: Bytes, p: nat, tag: Word32, body: Bytes)
    requires At(data, p, Varint(tag) + body)
    ensures p < p + |Varint(tag)| <= |data| && |Varint(tag) + body| == |Varint(tag)| + |body|
    ensures At(data, p + |Varint(tag)|, body) && GetField(data, p) == GetBody(data, p + |Varint(tag)|, tag)
  {
    hide At, GetBody, GetVarint32;
    VarintThen(data, p, tag, body);
  }

  /** A version edit; `deleted` is a set kept in ascending order. */
  datatype Edit =
    Edit(comparator: Option<Bytes>, logNumber: Option<nat>, prevLogNumber: Option<nat>, nextFileNumber: Option<nat>,
         lastSequence: Option<nat>, compactPointers: seq<(nat, Bytes)>, deleted: seq<(nat, nat)>,
         newFiles: seq<(nat, Meta)>)

  const EMPTY := Edit(None, None, None, None, None, [], [], [])

  predicate PairLess(a: (nat, nat), b: (nat, nat)) { a.0 < b.0 || (a.0 == b.0 && a.1 < b.1) }

  predicate Ascending(s: seq<(nat, nat)>) {
    |s| < 2 || (PairLess(s[|s| - 2], s[|s| - 1]) && Ascending(s[..|s| - 1]))
  }

  /** std::set::insert. */
  function SetInsert(s: seq<(nat, nat)>, x: (nat, nat)): seq<(nat, nat)> {
    if |s| == 0 || PairLess(s[|s| - 1], x) then s + [x]
    else if s[|s| - 1] == x then s
    else SetInsert(s[..|s| - 1], x) + [s[|s| - 1]]
  }

  function Absorb(e: Edit, f: Field): Edit {
    match f
    case Comparator(name) => e.(comparator := Some(name))
    case LogNumber(n) => e.(logNumber := Some(n))
    case PrevLogNumber(n) => e.(prevLogNumber := Some(n))
    case NextFileNumber(n) => e.(nextFileNumber := Some(n))
    case LastSequence(n) => e.(lastSequence := Some(n))
    case CompactPointer(level, key) => e.(compactPointers := e.compactPointers + [(level, key)])
    case DeletedFile(level, number) => e.(deleted := SetInsert(e.deleted, (level, number)))
    case NewFile(level, file) => e.(newFiles := e.newFiles + [(level, file)])
  }

  function Decode(data: Bytes, p: nat, e: Edit): Option<Edit>
    requires p <= |data|
    decreases |data| - p
  {
    if p == |data| then Some(e)
    else
      match GetField(data, p)
      case None => None
      case Some((f, q)) => Decode(data, q, Absorb(e, f))
  }

  /** VersionEdit::DecodeFrom. */
  method DecodeFrom(data: Bytes) returns (r: Option<Edit>)
    ensures r == Decode(data, 0, EMPTY)
  {
    hide GetField, Absorb;
    var p: nat, e := 0, EMPTY;
    while p < |data|
      invariant p <= |data| && Decode(data, p, e) == Decode(data, 0, EMPTY)
    {
      var f := GetField(data, p);
      if f.None? {
        return None;
      }
      p, e := f.value.1, Absorb(e, f.value.0);
    }
    return Some(e);
  }

  function AbsorbAll(e: Edit, fs: seq<Field>): Edit
    decreases |fs|
  {
    if |fs| == 0 then e else AbsorbAll(Absorb(e, fs[0]), fs[1..])
  }

  ghost predicate AllFields(fs: seq<Field>) { forall i :: 0 <= i < |fs| ==> fs[i].Valid() }

  /** Decoding the encoding of any fields absorbs exactly these, in order. */
  lemma {:induction false} DecodeAt(data: Bytes, p: nat, fs: seq<Field>, e: Edit)
    requires At(data, p, FieldsBytes(fs)) && p + |FieldsBytes(fs)| == |data| && AllFields(fs)
    ensures Decode(data, p, e) == Some(AbsorbAll(e, fs))
    decreases |fs|
  {
    hide At, GetField, FieldBytes, Absorb, Field.Valid;
    if |fs| > 0 {
      AtConcat(data, p, FieldBytes(fs[0]), FieldsBytes(fs[1..]));
      FieldAt(data, p, fs[0]);
      DecodeAt(data, p + |FieldBytes(fs[0])|, fs[1..], Absorb(e, fs[0]));
    }
  }

  lemma {:induction false} AbsorbConcat(e: Edit, a: seq<Field>, b: seq<Field>)
    ensures AbsorbAll(e, a + b) == AbsorbAll(AbsorbAll(e, a), b)
    decreases |a|
  {
    hide Absorb;
    if |a| == 0 {
      assert a + b == b;
    } else {
      assert (a + b)[1..] == a[1..] + b;
      AbsorbConcat(Absorb(e, a[0]), a[1..], b);
    }
  }

  function Pointers(ps: seq<(nat, Bytes)>): seq<Field> {
    if |ps| == 0 then [] else Pointers(ps[..|ps| - 1]) + [CompactPointer(ps[|ps| - 1].0, ps[|ps| - 1].1)]
  }

  function Deletions(ds: seq<(nat, nat)>): seq<Field> {
    if |ds| == 0 then [] else Deletions(ds[..|ds| - 1]) + [DeletedFile(ds[|ds| - 1].0, ds[|ds| - 1].1)]
  }

  function Additions(ns: seq<(nat, Meta)>): seq<Field> {
    if |ns| == 0 then [] else Additions(ns[..|ns| - 1]) + [NewFile(ns[|ns| - 1].0, ns[|ns| - 1].1)]
  }

  /** The fields for a value that may be missing. */
  function Maybe<T>(o: Option<T>, make: T -> Field): seq<Field> { if o.Some? then [make(o.value)] else [] }

  function Scalars(e: Edit): seq<Field> {
    Maybe(e.comparator, x => Comparator(x)) + Maybe(e.logNumber, x => LogNumber(x))
    + Maybe(e.prevLogNumber, x => PrevLogNumber(x)) + Maybe(e.nextFileNumber, x => NextFileNumber(x))
    + Maybe(e.lastSequence, x => LastSequence(x))
  }

  lemma AbsorbMaybe<T>(e: Edit, fs: seq<Field>, o: Option<T>, make: T -> Field)
    ensures AbsorbAll(e, fs + Maybe(o, make)) == if o.Some? then Absorb(AbsorbAll(e, fs), make(o.value))
              else AbsorbAll(e, fs)
  {
    hide Absorb;
    if o.Some? {
      AbsorbOne(e, fs, make(o.value));
    } else {
      assert fs + [] == fs;
    }
  }

  lemma AbsorbScalars(e: Edit)
    ensures AbsorbAll(EMPTY, Scalars(e)) == e.(compactPointers := [], deleted := [], newFiles := [])
  {
    var f1 := Maybe(e.comparator, x => Comparator(x));
    var f2 := f1 + Maybe(e.logNumber, x => LogNumber(x));
    var f3 := f2 + Maybe(e.prevLogNumber, x => PrevLogNumber(x));
    var f4 := f3 + Maybe(e.nextFileNumber, x => NextFileNumber(x));
    hide Maybe;
    assert [] + f1 == f1;
    AbsorbMaybe(EMPTY, [], e.comparator, x => Comparator(x));
    AbsorbMaybe(EMPTY, f1, e.logNumber, x => LogNumber(x));
    AbsorbMaybe(EMPTY, f2, e.prevLogNumber, x => PrevLogNumber(x));
    AbsorbMaybe(EMPTY, f3, e.nextFileNumber, x => NextFileNumber(x));
    AbsorbMaybe(EMPTY, f4, e.lastSequence, x => LastSequence(x));
  }

  function Fields(e: Edit): seq<Field> {
    Scalars(e) + (Pointers(e.compactPointers) + (Deletions(e.deleted) + Additions(e.newFiles)))
  }

  lemma AbsorbOne(e: Edit, fs: seq<Field>, f: Field)
    ensures AbsorbAll(e, fs + [f]) == Absorb(AbsorbAll(e, fs), f)
  {
    AbsorbConcat(e, fs, [f]);
    assert AbsorbAll(AbsorbAll(e, fs), [f]) == AbsorbAll(Absorb(AbsorbAll(e, fs), f), []) by { assert [f][1..] == []; }
  }

  lemma {:induction false} AbsorbPointers(e: Edit, ps: seq<(nat, Bytes)>)
    ensures AbsorbAll(e, Pointers(ps)) == e.(compactPointers := e.compactPointers + ps)
  {
    if |ps| > 0 {
      var n := |ps| - 1;
      AbsorbPointers(e, ps[..n]);
      AbsorbOne(e, Pointers(ps[..n]), CompactPointer(ps[n].0, ps[n].1));
      assert e.compactPointers + ps[..n] + [ps[n]] == e.compactPointers + ps;
    }
  }

  /** The largest element of an ascending sequence is inserted at its end. */
  lemma LastInserted(ds: seq<(nat, nat)>)
    requires Ascending(ds) && |ds| > 0
    ensures var n := |ds| - 1; SetInsert(ds[..n], ds[n]) == ds
  {
    var n := |ds| - 1;
    assert ds[..n] + [ds[n]] == ds;
  }

  lemma {:induction false} AbsorbDeletions(e: Edit, ds: seq<(nat, nat)>)
    requires e.deleted == [] && Ascending(ds)
    ensures AbsorbAll(e, Deletions(ds)) == e.(deleted := ds)
  {
    if |ds| > 0 {
      var n := |ds| - 1;
      AbsorbDeletions(e, ds[..n]);
      AbsorbOne(e, Deletions(ds[..n]), DeletedFile(ds[n].0, ds[n].1));
      LastInserted(ds);
      hide SetInsert, Ascending;
    }
  }

  lemma {:induction false} AbsorbAdditions(e: Edit, ns: seq<(nat, Meta)>)
    ensures AbsorbAll(e, Additions(ns)) == e.(newFiles := e.newFiles + ns)
  {
    if |ns| > 0 {
      var n := |ns| - 1;
      AbsorbAdditions(e, ns[..n]);
      AbsorbOne(e, Additions(ns[..n]), NewFile(ns[n].0, ns[n].1));
      assert e.newFiles + ns[..n] + [ns[n]] == e.newFiles + ns;
    }
  }

  ghost predicate ValidEdit(e: Edit) { AllFields(Fields(e)) && Ascending(e.deleted) }

  function Encode(e: Edit): Bytes { FieldsBytes(Fields(e)) }

  lemma AbsorbFields(e: Edit)
    requires Ascending(e.deleted)
    ensures AbsorbAll(EMPTY, Fields(e)) == e
  {
    AbsorbScalars(e);
    assert [] + e.compactPointers == e.compactPointers && [] + e.newFiles == e.newFiles;
    var e1 := AbsorbAll(EMPTY, Scalars(e));
    var rest := Deletions(e.deleted) + Additions(e.newFiles);
    AbsorbConcat(EMPTY, Scalars(e), Pointers(e.compactPointers) + rest);
    AbsorbConcat(e1, Pointers(e.compactPointers), rest);
    AbsorbPointers(e1, e.compactPointers);
    var e2 := e1.(compactPointers := e.compactPointers);
    AbsorbConcat(e2, Deletions(e.deleted), Additions(e.newFiles));
    AbsorbDeletions(e2, e.deleted);
    AbsorbAdditions(e2.(deleted := e.deleted), e.newFiles);
  }

  /** Decoding an encoded edit gives the edit back. */
  lemma RoundTrip(e: Edit)
    requires ValidEdit(e)
    ensures Decode(Encode(e), 0, EMPTY) == Some(e)
  {
    AbsorbFields(e);
    DecodeAt(Encode(e), 0, Fields(e), EMPTY);
  }

  lemma {:induction false} FieldsBytesConcat(a: seq<Field>, b: seq<Field>)
    ensures FieldsBytes(a + b) == FieldsBytes(a) + FieldsBytes(b)
  {
    hide FieldBytes;
    if |a| == 0 {
      assert a + b == b;
    } else {
      assert (a + b)[1..] == a[1..] + b;
      FieldsBytesConcat(a[1..], b);
      assert FieldBytes(a[0]) + (FieldsBytes(a[1..]) + FieldsBytes(b)) ==
             FieldBytes(a[0]) + FieldsBytes(a[1..]) + FieldsBytes(b);
    }
  }

  /** Append the encoding of one field. */
  method PutField(dst: Bytes, f: Field, ghost fs: seq<Field>) returns (r: Bytes)
    requires dst == FieldsBytes(fs)
    ensures r == FieldsBytes(fs + [f])
  {
    FieldsBytesConcat(fs, [f]);
    assert FieldsBytes([f]) == FieldBytes(f) + FieldsBytes([]) by { assert [f][1..] == []; }
    r := dst + FieldBytes(f);
  }

  /** A field that may be missing. */
  method PutMaybe<T>(dst0: Bytes, o: Option<T>, make: T -> Field, ghost fs: seq<Field>) returns (dst: Bytes)
    requires dst0 == FieldsBytes(fs)
    ensures dst == FieldsBytes(fs + Maybe(o, make))
  {
    dst := dst0;
    assert fs + [] == fs;
    if o.Some? {
      dst := PutField(dst, make(o.value), fs);
    }
  }

  method PutScalars(e: Edit) returns (dst: Bytes)
    ensures dst == FieldsBytes(Scalars(e))
  {
    dst := PutMaybe([], e.comparator, x => Comparator(x), []);
    ghost var f1 := Maybe(e.comparator, x => Comparator(x));
    assert [] + f1 == f1;
    dst := PutMaybe(dst, e.logNumber, x => LogNumber(x), f1);
    ghost var f2 := f1 + Maybe(e.logNumber, x => LogNumber(x));
    hide Maybe;
    dst := PutMaybe(dst, e.prevLogNumber, x => PrevLogNumber(x), f2);
    ghost var f3 := f2 + Maybe(e.prevLogNumber, x => PrevLogNumber(x));
    dst := PutMaybe(dst, e.nextFileNumber, x => NextFileNumber(x), f3);
    ghost var f4 := f3 + Maybe(e.nextFileNumber, x => NextFileNumber(x));
    dst := PutMaybe(dst, e.lastSequence, x => LastSequence(x), f4);
  }

  method PutPointers(dst0: Bytes, xs: seq<(nat, Bytes)>, ghost fs: seq<Field>) returns (dst: Bytes)
    requires dst0 == FieldsBytes(fs)
    ensures dst == FieldsBytes(fs + Pointers(xs))
  {
    hide FieldBytes;
    dst := dst0;
    assert xs[..0] == [] && fs + [] == fs;
    for i := 0 to |xs|
      invariant dst == FieldsBytes(fs + Pointers(xs[..i]))
    {
      assert xs[..i + 1][..i] == xs[..i];
      assert fs + Pointers(xs[..i + 1]) == (fs + Pointers(xs[..i])) + [CompactPointer(xs[i].0, xs[i].1)];
      dst := PutField(dst, CompactPointer(xs[i].0, xs[i].1), fs + Pointers(xs[..i]));
    }
    assert xs[..|xs|] == xs;
  }

  method PutDeletions(dst0: Bytes, xs: seq<(nat, nat)>, ghost fs: seq<Field>) returns (dst: Bytes)
    requires dst0 == FieldsBytes(fs)
    ensures dst == FieldsBytes(fs + Deletions(xs))
  {
    hide FieldBytes;
    dst := dst0;
    assert xs[..0] == [] && fs + [] == fs;
    for i := 0 to |xs|
      invariant dst == FieldsBytes(fs + Deletions(xs[..i]))
    {
      assert xs[..i + 1][..i] == xs[..i];
      assert fs + Deletions(xs[..i + 1]) == (fs + Deletions(xs[..i])) + [DeletedFile(xs[i].0, xs[i].1)];
      dst := PutField(dst, DeletedFile(xs[i].0, xs[i].1), fs + Deletions(xs[..i]));
    }
    assert xs[..|xs|] == xs;
  }

  method PutAdditions(dst0: Bytes, xs: seq<(nat, Meta)>, ghost fs: seq<Field>) returns (dst: Bytes)
    requires dst0 == FieldsBytes(fs)
    ensures dst == FieldsBytes(fs + Additions(xs))
  {
    hide FieldBytes;
    dst := dst0;
    assert xs[..0] == [] && fs + [] == fs;
    for i := 0 to |xs|
      invariant dst == FieldsBytes(fs + Additions(xs[..i]))
    {
      assert xs[..i + 1][..i] == xs[..i];
      assert fs + Additions(xs[..i + 1]) == (fs + Additions(xs[..i])) + [NewFile(xs[i].0, xs[i].1)];
      dst := PutField(dst, NewFile(xs[i].0, xs[i].1), fs + Additions(xs[..i]));
    }
    assert xs[..|xs|] == xs;
  }

  /** VersionEdit::EncodeTo. */
  method EncodeTo(e: Edit) returns (dst: Bytes)
    ensures dst == Encode(e)
  {
    dst := PutScalars(e);
    ghost var a, b, c, d := Scalars(e), Pointers(e.compactPointers), Deletions(e.deleted), Additions(e.newFiles);
    dst := PutPointers(dst, e.compactPointers, a);
    dst := PutDeletions(dst, e.deleted, a + b);
    dst := PutAdditions(dst, e.newFiles, a + b + c);
    Assoc(a, b, c + d);
    Assoc(a + b, c, d);
  }

}
