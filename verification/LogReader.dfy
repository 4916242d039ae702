/** The log reader on a log cut at any byte: it returns exactly the records wholly contained. */
module LogReader {
  import opened Words
  import opened Coding
  import opened Wrappers
  import opened LogFormat

  datatype Kind = Eof | Bad | Fragment(t: Byte)

  lemma FragmentParts(crc: Crc, w: seq<Byte>, p: nat, off: nat, data: seq<Byte>, begin: bool)
    requires off <= BLOCK_SIZE && At(w, p, LogFormat.Fragment(crc, off, data, begin))
    ensures var n := FragmentLength(off, |data|);
            At(w, p + |Padding(off)|, Physical(crc, TypeOf(begin, n == |data|), data[..n]))
  {
    var n := FragmentLength(off, |data|);
    AtConcat(w, p, Padding(off), Physical(crc, TypeOf(begin, n == |data|), data[..n]));
  }

  /** What the header and payload bytes of a physical record are. */
  lemma PhysicalParts(crc: Crc, w: seq<Byte>, p: nat, t: Byte, payload: seq<Byte>)
    requires |payload| < 0x1_0000 && At(w, p, Physical(crc, t, payload))
    ensures w[p + 4] == |payload| % 256 && w[p + 5] == |payload| / 256 && w[p + 6] == t
    ensures DecodeFixed32(w, p) == MaskCrc(crc([t] + payload))
    ensures w[p + 6..p + 7 + |payload|] == [t] + payload && w[p + 7..p + 7 + |payload|] == payload
  {
    var sum, mid := Fixed32(MaskCrc(crc([t] + payload))), [|payload| % 256, |payload| / 256, t];
    AtConcat(w, p, sum + mid, payload);
    AtConcat(w, p, sum, mid);
    Fixed32At(w, p, MaskCrc(crc([t] + payload)));
    assert w[p + 4 + 0] == mid[0] && w[p + 4 + 1] == mid[1] && w[p + 4 + 2] == mid[2];
    AtSlice(w, p + 7, payload);
    assert w[p + 6..p + 7 + |payload|] == [w[p + 6]] + w[p + 7..p + 7 + |payload|];
  }

  /** A fixed-width number reads the same through a window onto the bytes. */
  lemma {:induction false} ReadFixedShift(window: seq<Byte>, w: seq<Byte>, p: nat, q: nat, n: nat)
    requires At(w, p, window) && q + n <= |window|
    ensures ReadFixed(window, q, n) == ReadFixed(w, p + q, n)
    decreases n
  {
    if n > 0 {
      assert w[p + q] == window[q];
      ReadFixedShift(window, w, p, q + 1, n - 1);
    }
  }

  lemma SameWord(window: seq<Byte>, w: seq<Byte>, p: nat)
    requires At(w, p, window) && |window| >= 4
    ensures DecodeFixed32(window, 0) == DecodeFixed32(w, p)
  {
    ReadFixedShift(window, w, p, 0, 4);
  }

  lemma WindowSlice(window: seq<Byte>, w: seq<Byte>, p: nat, a: nat, b: nat)
    requires At(w, p, window) && a <= b <= |window|
    ensures window[a..b] == w[p + a..p + b]
  {
  }

  /** The first fragment of a record, and the rest of the record after it. */
  lemma RecordSplit(crc: Crc, w: seq<Byte>, p: nat, off: nat, data: seq<Byte>, begin: bool)
    requires off <= BLOCK_SIZE && At(w, p, Record(crc, off, data, begin))
    ensures var n := FragmentLength(off, |data|);
            var fragment := LogFormat.Fragment(crc, off, data, begin);
            && At(w, p, fragment)
            && (n == |data| ==> |Record(crc, off, data, begin)| == |fragment|)
            && (n < |data| ==> (&& At(w, p + |fragment|, Record(crc, 0, data[n..], false))
                                && |Record(crc, off, data, begin)| == |fragment| + |Record(crc, 0, data[n..], false)|))
  {
    var n := FragmentLength(off, |data|);
    var fragment := LogFormat.Fragment(crc, off, data, begin);
    RecordUnfold(crc, [], off, data, begin);
    hide LogFormat.Fragment, FragmentLength;
    if n < |data| {
      AtConcat(w, p, fragment, Record(crc, 0, data[n..], false));
    }
  }

  /** A fragment that does not finish its record fills its block. */
  lemma NextAligned(p: nat, left: nat)
    ensures var off := p % BLOCK_SIZE;
            var n := FragmentLength(off, left);
            n < left ==> (p + |Padding(off)| + HEADER_SIZE + n) % BLOCK_SIZE == 0
  {
    OffsetAfter(p, left);
  }

  lemma PosInBlock(start: nat, pos: nat)
    requires start % BLOCK_SIZE == 0 && start <= pos <= start + BLOCK_SIZE
    ensures pos % BLOCK_SIZE == if pos == start + BLOCK_SIZE then 0 else pos - start
  {
  }

  // ---- what the bytes of any file say -------------------------------------------------------------

  /** Where the header of the next physical record would be. */
  function HeaderPos(pos: nat): nat { pos + |Padding(pos % BLOCK_SIZE)| }

  function BlockEnd(p: nat): nat { p - p % BLOCK_SIZE + BLOCK_SIZE }

  /** The length field of the header at `p`. */
  function LengthAt(file: seq<Byte>, p: nat): nat
    requires p + HEADER_SIZE <= |file|
  {
    (file[p + 4] as int) + 256 * (file[p + 5] as int)
  }

  predicate ChecksumOk(crc: Crc, file: seq<Byte>, p: nat)
    requires p + HEADER_SIZE <= |file| && p + HEADER_SIZE + LengthAt(file, p) <= |file|
  {
    UnmaskCrc(DecodeFixed32(file, p)) == crc(file[p + 6..p + 7 + LengthAt(file, p)])
  }

  /** What is found at a position of any file, where reading goes on, and how many corruptions are reported. */
  datatype Found = Found(kind: Kind, fragment: seq<Byte>, next: nat, reports: nat)

  ghost function FindAt(crc: Crc, file: seq<Byte>, pos: nat): (f: Found)
    requires pos <= |file|
    ensures f.next <= |file| && (f.kind == Eof || f.next > pos)
  {
    var p := HeaderPos(pos);
    if p + HEADER_SIZE > |file| then Found(Eof, [], |file|, 0)
    else
      var end := p + HEADER_SIZE + LengthAt(file, p);
      var limit := if BlockEnd(p) <= |file| then BlockEnd(p) else |file|;
      if end > limit then
        // Only the last block may end early.
        if |file| < BlockEnd(p) then Found(Eof, [], |file|, 0) else Found(Bad, [], limit, 1)
      else if file[p + 6] == 0 && LengthAt(file, p) == 0 then Found(Bad, [], limit, 0)
      else if !ChecksumOk(crc, file, p) then Found(Bad, [], limit, 1)
      else Found(Kind.Fragment(file[p + 6]), file[p + 7..end], end, 0)
  }

  /** The bytes at `p` are a physical record exactly when they give back its parts with the right checksum. */
  lemma PhysicalIff(crc: Crc, file: seq<Byte>, p: nat, t: Byte, payload: seq<Byte>)
    requires p + HEADER_SIZE <= |file| && |payload| < 0x1_0000
    ensures At(file, p, Physical(crc, t, payload)) <==>
              && LengthAt(file, p) == |payload| && p + HEADER_SIZE + |payload| <= |file|
              && file[p + 6] == t && file[p + 7..p + 7 + |payload|] == payload && ChecksumOk(crc, file, p)
  {
    hide MaskCrc, UnmaskCrc, DecodeFixed32;
    if At(file, p, Physical(crc, t, payload)) {
      PhysicalParts(crc, file, p, t, payload);
      UnmaskMask(crc([t] + payload));
    }
    if && LengthAt(file, p) == |payload| && p + HEADER_SIZE + |payload| <= |file|
       && file[p + 6] == t && file[p + 7..p + 7 + |payload|] == payload && ChecksumOk(crc, file, p)
    {
      PhysicalFrom(crc, file, p, t, payload);
    }
  }

  lemma PhysicalFrom(crc: Crc, file: seq<Byte>, p: nat, t: Byte, payload: seq<Byte>)
    requires p + HEADER_SIZE + |payload| <= |file| && |payload| < 0x1_0000 && LengthAt(file, p) == |payload|
    requires file[p + 6] == t && file[p + 7..p + 7 + |payload|] == payload && ChecksumOk(crc, file, p)
    ensures At(file, p, Physical(crc, t, payload))
  {
    hide MaskCrc, UnmaskCrc, DecodeFixed32, Fixed32;
    var sum, mid := Fixed32(MaskCrc(crc([t] + payload))), [|payload| % 256, |payload| / 256, t];
    assert file[p + 6..p + 7 + |payload|] == [t] + payload;
    assert |payload| % 256 == file[p + 4] as int && |payload| / 256 == file[p + 5] as int;
    assert At(file, p + 4, mid) && At(file, p + 7, payload);
    hide At, LengthAt;
    MaskUnmask(DecodeFixed32(file, p));
    Fixed32Back(file, p);
    AtConcat(file, p, sum + mid, payload);
    AtConcat(file, p, sum, mid);
  }

  /** Four bytes are the encoding of the number they decode to. */
  lemma Fixed32Back(data: seq<Byte>, p: nat)
    requires p + 4 <= |data|
    ensures At(data, p, Fixed32(DecodeFixed32(data, p)))
  {
    FixedBack(data, p, 4);
  }

  lemma {:induction false} FixedBack(data: seq<Byte>, p: nat, n: nat)
    requires p + n <= |data|
    ensures At(data, p, Fixed(ReadFixed(data, p, n), n))
    decreases n
  {
    if n > 0 {
      FixedBack(data, p + 1, n - 1);
      var v := ReadFixed(data, p, n);
      assert v % 256 == data[p] as int && v / 256 == ReadFixed(data, p + 1, n - 1);
      AtConcat(data, p, [data[p]], Fixed(v / 256, n - 1));
    }
  }

  /** A fragment is returned if and only if a physical record with the right checksum stands there inside its block. */
  lemma FragmentIff(crc: Crc, file: seq<Byte>, pos: nat, t: Byte, payload: seq<Byte>)
    requires pos <= |file| && |payload| < 0x1_0000 && (t != 0 || payload != [])
    ensures var f, p := FindAt(crc, file, pos), HeaderPos(pos);
            f.kind == Kind.Fragment(t) && f.fragment == payload <==>
              At(file, p, Physical(crc, t, payload)) && p + HEADER_SIZE + |payload| <= BlockEnd(p)
  {
    hide Physical, At, ChecksumOk;
    var p := HeaderPos(pos);
    if p + HEADER_SIZE <= |file| {
      PhysicalIff(crc, file, p, t, payload);
    } else {
      PhysicalInside(crc, file, p, t, payload);
    }
  }

  lemma PhysicalInside(crc: Crc, file: seq<Byte>, p: nat, t: Byte, payload: seq<Byte>)
    requires |payload| < 0x1_0000 && p + HEADER_SIZE > |file|
    ensures !At(file, p, Physical(crc, t, payload))
  {
  }

  /** A complete record with another checksum is bad, reported once, and costs the rest of its block. */
  lemma WrongChecksumIsReported(crc: Crc, file: seq<Byte>, pos: nat)
    requires pos <= |file| && HeaderPos(pos) + HEADER_SIZE <= |file|
    requires var p := HeaderPos(pos);
             var end := p + HEADER_SIZE + LengthAt(file, p);
             end <= |file| && end <= BlockEnd(p) && (file[p + 6] != 0 || LengthAt(file, p) != 0)
             && !ChecksumOk(crc, file, p)
    ensures var f := FindAt(crc, file, pos);
            f.kind == Bad && f.reports == 1
              && f.next == if BlockEnd(HeaderPos(pos)) <= |file| then BlockEnd(HeaderPos(pos)) else |file|
  {
  }

  lemma NothingFound(crc: Crc, file: seq<Byte>, pos: nat)
    requires pos <= |file| && HeaderPos(pos) + HEADER_SIZE > |file|
    ensures FindAt(crc, file, pos) == Found(Eof, [], |file|, 0)
  {
  }

  /** A trailer too short for a header is skipped. */
  lemma SameFind(crc: Crc, file: seq<Byte>, pos: nat)
    requires pos <= |file| && HeaderPos(pos) <= |file|
    ensures FindAt(crc, file, pos) == FindAt(crc, file, HeaderPos(pos))
  {
    HeaderPosTwice(pos);
    hide HeaderPos;
  }

  lemma HeaderPosTwice(pos: nat)
    ensures HeaderPos(HeaderPos(pos)) == HeaderPos(pos)
    ensures HeaderPos(pos) % BLOCK_SIZE == HeaderOffset(pos % BLOCK_SIZE)
  {
    var off, blocks := pos % BLOCK_SIZE, pos / BLOCK_SIZE;
    assert pos == blocks * BLOCK_SIZE + off;
    if BLOCK_SIZE - off < HEADER_SIZE { assert HeaderPos(pos) == (blocks + 1) * BLOCK_SIZE; }
  }

  /** On a prefix of a log with a fragment of `data` here: that fragment if it is there completely, or the end. */
  lemma FindInCut(crc: Crc, file: seq<Byte>, w: seq<Byte>, pos: nat, data: seq<Byte>, begin: bool)
    requires pos <= |file| && file <= w
    requires pos == |file| || At(w, pos, LogFormat.Fragment(crc, pos % BLOCK_SIZE, data, begin))
    ensures var n, f := FragmentLength(pos % BLOCK_SIZE, |data|), FindAt(crc, file, pos);
            var end := HeaderPos(pos) + HEADER_SIZE + n;
            f == if end > |file| then Found(Eof, [], |file|, 0)
                 else Found(Kind.Fragment(TypeOf(begin, n == |data|)), data[..n], end, 0)
  {
    var p, off := HeaderPos(pos), pos % BLOCK_SIZE;
    var n := FragmentLength(off, |data|);
    HeaderPosTwice(pos);
    if p + HEADER_SIZE <= |file| {
      FragmentParts(crc, w, pos, off, data, begin);
      hide LogFormat.Fragment, Padding, HeaderPos;
      PhysicalInCut(crc, file, w, p, TypeOf(begin, n == |data|), data[..n]);
      hide Physical, At, ChecksumOk, TypeOf;
    }
  }

  lemma PhysicalInCut(crc: Crc, file: seq<Byte>, w: seq<Byte>, p: nat, t: Byte, payload: seq<Byte>)
    requires file <= w && |payload| < 0x1_0000 && At(w, p, Physical(crc, t, payload)) && p + HEADER_SIZE <= |file|
    ensures LengthAt(file, p) == |payload| && file[p + 6] == t
    ensures p + HEADER_SIZE + |payload| <= |file| ==>
              ChecksumOk(crc, file, p) && file[p + 7..p + 7 + |payload|] == payload
  {
    PhysicalParts(crc, w, p, t, payload);
    if p + HEADER_SIZE + |payload| <= |file| {
      assert At(file, p, Physical(crc, t, payload));
      PhysicalIff(crc, file, p, t, payload);
    }
  }

  /** The rest of a record of the log `w` stands at `pos` and ends at `end`, or the file, a prefix, ends here. */
  ghost predicate RecordFrom(crc: Crc, file: seq<Byte>, w: seq<Byte>, pos: nat, rest: seq<Byte>, begin: bool,
                             end: nat) {
    || (pos == |file| && end > |file|)
    || (At(w, pos, Record(crc, pos % BLOCK_SIZE, rest, begin))
        && end == pos + |Record(crc, pos % BLOCK_SIZE, rest, begin)|)
  }

  /** The next fragment of the record, and what follows it. */
  lemma FragmentFrom(crc: Crc, file: seq<Byte>, w: seq<Byte>, pos: nat, rest: seq<Byte>, begin: bool, end: nat)
    requires pos <= |file| && file <= w && RecordFrom(crc, file, w, pos, rest, begin, end)
    ensures var n, f := FragmentLength(pos % BLOCK_SIZE, |rest|), FindAt(crc, file, pos);
            && f.reports == 0
            && if f.kind == Eof then end > |file|
               else
                 && f.kind == Kind.Fragment(TypeOf(begin, n == |rest|)) && f.fragment == rest[..n]
                 && if n == |rest| then f.next == end else RecordFrom(crc, file, w, f.next, rest[n..], false, end)
  {
    var off := pos % BLOCK_SIZE;
    var n := FragmentLength(off, |rest|);
    NextAligned(pos, |rest|);
    hide LogFormat.Fragment, FragmentLength, HeaderOffset, Padding, At, TypeOf, FindAt;
    if At(w, pos, Record(crc, off, rest, begin)) { RecordSplit(crc, w, pos, off, rest, begin); }
    FindInCut(crc, file, w, pos, rest, begin);
  }

  // ---- all of a file -------------------------------------------------------------------------------

  /** Everything found from a position to the end of the file. */
  ghost function Scan(crc: Crc, file: seq<Byte>, pos: nat): seq<Found>
    requires pos <= |file|
    decreases |file| - pos
  {
    var f := FindAt(crc, file, pos);
    if f.kind == Eof then [] else [f] + Scan(crc, file, f.next)
  }

  predicate Has(f: Found, t: Byte) { f.kind == Kind.Fragment(t) }

  function Together(fs: seq<Found>): seq<Byte> { if |fs| == 0 then [] else fs[0].fragment + Together(fs[1..]) }

  function Middles(fs: seq<Found>): (m: nat)
    ensures m <= |fs| && (m < |fs| ==> !Has(fs[m], MIDDLE)) && forall i :: 0 <= i < m ==> Has(fs[i], MIDDLE)
  {
    if |fs| > 0 && Has(fs[0], MIDDLE) then 1 + Middles(fs[1..]) else 0
  }

  /** A whole record: one full fragment, or a first one, any number of middle ones and a last one, with nothing in
      between. */
  ghost predicate IsRun(fs: seq<Found>) {
    || (|fs| == 1 && Has(fs[0], FULL))
    || (|fs| >= 2 && Has(fs[0], FIRST) && Has(fs[|fs| - 1], LAST)
        && forall i :: 0 < i < |fs| - 1 ==> Has(fs[i], MIDDLE))
  }

  /** The length of the run that starts here; 0 if none does. */
  function RunLength(fs: seq<Found>): (n: nat)
    ensures n <= |fs| && (n > 0 ==> IsRun(fs[..n]))
  {
    if |fs| == 0 then 0
    else if Has(fs[0], FULL) then 1
    else if Has(fs[0], FIRST) then
      var m := Middles(fs[1..]);
      if m + 1 < |fs| && Has(fs[m + 1], LAST) then m + 2 else 0
    else 0
  }

  lemma {:induction false} MiddlesIs(fs: seq<Found>, k: nat)
    requires k < |fs| && (forall i :: 0 <= i < k ==> Has(fs[i], MIDDLE)) && !Has(fs[k], MIDDLE)
    ensures Middles(fs) == k
  {
    if k > 0 { MiddlesIs(fs[1..], k - 1); }
  }

  /** No other number of fragments from here on is a run. */
  lemma RunLengthIs(fs: seq<Found>, n: nat)
    requires n <= |fs| && IsRun(fs[..n])
    ensures RunLength(fs) == n
  {
    assert fs[..n][0] == fs[0] && fs[..n][n - 1] == fs[n - 1];
    if n > 1 {
      forall i | 0 <= i < n - 2 ensures Has(fs[1..][i], MIDDLE) { assert fs[..n][i + 1] == fs[1..][i]; }
      MiddlesIs(fs[1..], n - 2);
    }
  }

  /** The records of a file: its runs, in order; fragments that belong to none are passed over. */
  function Assembled(fs: seq<Found>): seq<seq<Byte>> {
    if |fs| == 0 then []
    else if RunLength(fs) > 0 then [Together(fs[..RunLength(fs)])] + Assembled(fs[RunLength(fs)..])
    else Assembled(fs[1..])
  }

  lemma AssembledRun(fs: seq<Found>)
    requires RunLength(fs) > 0
    ensures Assembled(fs) == [Together(fs[..RunLength(fs)])] + Assembled(fs[RunLength(fs)..])
  {
    hide IsRun;
  }

  lemma AssembledSkip(fs: seq<Found>)
    requires |fs| > 0 && RunLength(fs) == 0
    ensures Assembled(fs) == Assembled(fs[1..])
  {
    hide IsRun;
  }

  /** How far a run that starts with a first fragment goes. */
  lemma RunFirst(f: Found, fs: seq<Found>)
    requires Has(f, FIRST)
    ensures var m := Middles(fs);
            RunLength([f] + fs) == if m < |fs| && Has(fs[m], LAST) then m + 2 else 0
  {
    var all, m := [f] + fs, Middles(fs);
    assert all[1..] == fs;
    hide IsRun;
    if m < |fs| { assert all[m + 1] == fs[m]; }
  }

  function Corruptions(fs: seq<Found>): nat { if |fs| == 0 then 0 else fs[0].reports + Corruptions(fs[1..]) }

  /** What is being put together after `f`, when `open` was before. */
  function After(open: Option<seq<Byte>>, f: Found): Option<seq<Byte>> {
    if Has(f, FIRST) then Some(f.fragment)
    else if Has(f, MIDDLE) && open.Some? then Some(open.value + f.fragment)
    else None
  }

  predicate Misfit(open: Option<seq<Byte>>, f: Found) {
    if Has(f, FULL) || Has(f, FIRST) then open.Some? && open.value != []
    else if Has(f, MIDDLE) || Has(f, LAST) then open.None?
    else f.kind == Bad ==> open.Some?
  }

  function Misfits(open: Option<seq<Byte>>, fs: seq<Found>): nat
    decreases |fs|
  {
    if |fs| == 0 then 0 else (if Misfit(open, fs[0]) then 1 else 0) + Misfits(After(open, fs[0]), fs[1..])
  }

  lemma MisfitsStep(open: Option<seq<Byte>>, f: Found, fs: seq<Found>)
    ensures Misfits(open, [f] + fs) == (if Misfit(open, f) then 1 else 0) + Misfits(After(open, f), fs)
  {
    assert ([f] + fs)[1..] == fs;
  }

  /** A record begins at `s` and is not ended before `i`. */
  predicate OpenFrom(fs: seq<Found>, s: nat, i: nat) {
    s < i <= |fs| && Has(fs[s], FIRST) && forall j :: s < j < i ==> Has(fs[j], MIDDLE)
  }

  ghost predicate OpenAt(fs: seq<Found>, i: nat) { exists s: nat :: OpenFrom(fs, s, i) }

  /** What was found at `i` cannot stand there: a record begins before the last one, of which something was read, has
      ended; one goes on that has not begun; one breaks off; or the type is unknown. */
  ghost predicate Misplaced(fs: seq<Found>, i: nat)
    requires i < |fs|
  {
    if Has(fs[i], FULL) || Has(fs[i], FIRST) then exists s: nat :: OpenFrom(fs, s, i) && Together(fs[s..i]) != []
    else if Has(fs[i], MIDDLE) || Has(fs[i], LAST) then !OpenAt(fs, i)
    else fs[i].kind == Bad ==> OpenAt(fs, i)
  }

  ghost function Misplacements(fs: seq<Found>, n: nat): nat
    requires n <= |fs|
  {
    if n == 0 then 0 else Misplacements(fs, n - 1) + if Misplaced(fs, n - 1) then 1 else 0
  }

  /** `open` is the record begun and not ended before `i`, as far as it was read. */
  ghost predicate OpenIs(fs: seq<Found>, i: nat, open: Option<seq<Byte>>) {
    && (open.Some? <==> OpenAt(fs, i))
    && forall s: nat :: OpenFrom(fs, s, i) ==> open == Some(Together(fs[s..i]))
  }

  lemma {:induction false} TogetherSnoc(fs: seq<Found>, f: Found)
    ensures Together(fs + [f]) == Together(fs) + f.fragment
  {
    if |fs| > 0 {
      assert (fs + [f])[1..] == fs[1..] + [f];
      TogetherSnoc(fs[1..], f);
    } else {
      assert fs + [f] == [f] && Together([f][1..]) == [];
    }
  }

  lemma OpenNext(fs: seq<Found>, i: nat, open: Option<seq<Byte>>)
    requires i < |fs| && OpenIs(fs, i, open)
    ensures OpenIs(fs, i + 1, After(open, fs[i]))
  {
    hide Together;
    var n := i + 1;
    forall s: nat | OpenFrom(fs, s, n)
      ensures After(open, fs[i]) == Some(Together(fs[s..n]))
    {
      assert fs[s..n] == fs[s..i] + [fs[i]];
      TogetherSnoc(fs[s..i], fs[i]);
      if s < i {
        assert OpenFrom(fs, s, i);
        assert Has(fs[i], MIDDLE);
      } else {
        NothingTogether(fs, i);
        assert [] + fs[i].fragment == fs[i].fragment;
      }
    }
    if After(open, fs[i]).Some? {
      if Has(fs[i], FIRST) {
        assert OpenFrom(fs, i, i + 1);
      } else {
        var s: nat :| OpenFrom(fs, s, i);
        assert OpenFrom(fs, s, i + 1);
      }
    }
  }

  lemma NothingTogether(fs: seq<Found>, i: nat)
    requires i <= |fs|
    ensures Together(fs[i..i]) == []
  {
  }

  lemma MisfitIs(fs: seq<Found>, i: nat, open: Option<seq<Byte>>)
    requires i < |fs| && OpenIs(fs, i, open)
    ensures Misfit(open, fs[i]) <==> Misplaced(fs, i)
  {
    hide Together;
    if open.Some? { var s: nat :| OpenFrom(fs, s, i); }
  }

  /** The reader's state tells exactly which fragments are misplaced. */
  lemma {:induction false} MisfitsAre(fs: seq<Found>, i: nat, open: Option<seq<Byte>>)
    requires i <= |fs| && OpenIs(fs, i, open)
    ensures Misplacements(fs, i) + Misfits(open, fs[i..]) == Misplacements(fs, |fs|)
    decreases |fs| - i
  {
    hide OpenIs, Misplaced, Misfit, After;
    if i < |fs| {
      OpenNext(fs, i, open);
      MisfitIs(fs, i, open);
      assert fs[i..][1..] == fs[i + 1..];
      MisfitsAre(fs, i + 1, After(open, fs[i]));
    }
  }

  lemma AllMisfits(fs: seq<Found>)
    ensures Misfits(None, fs) == Misplacements(fs, |fs|)
  {
    MisfitsAre(fs, 0, None);
    assert fs[0..] == fs;
  }

  function Opened(inFragmented: bool, scratch: seq<Byte>): Option<seq<Byte>> {
    if inFragmented then Some(scratch) else None
  }

  /** The reports still to come. */
  function Ahead(open: Option<seq<Byte>>, fs: seq<Found>): nat { Corruptions(fs) + Misfits(open, fs) }

  /** What is still to come when `scratch` has been collected. */
  ghost function Resume(inFragmented: bool, scratch: seq<Byte>, fs: seq<Found>): seq<seq<Byte>> {
    if !inFragmented then Assembled(fs)
    else
      var m := Middles(fs);
      if m < |fs| && Has(fs[m], LAST) then [scratch + Together(fs[..m + 1])] + Assembled(fs[m + 1..])
      else Assembled(fs[m..])
  }

  lemma {:induction false} SkipMiddles(fs: seq<Found>, m: nat)
    requires m <= Middles(fs)
    ensures Assembled(fs) == Assembled(fs[m..])
  {
    if m > 0 {
      SkipMiddles(fs[1..], m - 1);
      assert fs[1..][m - 1..] == fs[m..];
    } else {
      assert fs[0..] == fs;
    }
  }

  lemma JoinedFirst(f: Found, fs: seq<Found>)
    ensures Together([f] + fs) == f.fragment + Together(fs)
  {
    assert ([f] + fs)[1..] == fs;
  }

  /** A first fragment opens a record. */
  lemma ResumeFirst(f: Found, fs: seq<Found>)
    requires Has(f, FIRST)
    ensures Assembled([f] + fs) == Resume(true, f.fragment, fs)
  {
    hide Assembled, RunLength, Together, IsRun;
    var all, m := [f] + fs, Middles(fs);
    RunFirst(f, fs);
    if m < |fs| && Has(fs[m], LAST) {
      AssembledRun(all);
      assert all[..m + 2] == [f] + fs[..m + 1] && all[m + 2..] == fs[m + 1..];
      JoinedFirst(f, fs[..m + 1]);
    } else {
      AssembledSkip(all);
      assert all[1..] == fs;
      SkipMiddles(fs, m);
    }
  }

  lemma MiddleFirst(f: Found, fs: seq<Found>)
    requires Has(f, MIDDLE)
    ensures Middles([f] + fs) == Middles(fs) + 1 && RunLength([f] + fs) == 0
  {
    assert ([f] + fs)[1..] == fs;
    hide IsRun;
  }

  lemma ResumeMiddle(f: Found, fs: seq<Found>, scratch: seq<Byte>)
    requires Has(f, MIDDLE)
    ensures Resume(true, scratch, [f] + fs) == Resume(true, scratch + f.fragment, fs)
    ensures Assembled([f] + fs) == Assembled(fs)
  {
    hide RunLength, IsRun, Assembled, Together;
    var all, m := [f] + fs, Middles(fs);
    MiddleFirst(f, fs);
    AssembledSkip(all);
    assert all[1..] == fs && all[m + 1..] == fs[m..];
    if m < |fs| && Has(fs[m], LAST) {
      assert all[m + 1] == fs[m];
      assert all[..m + 2] == [f] + fs[..m + 1] && all[m + 2..] == fs[m + 1..];
      JoinedFirst(f, fs[..m + 1]);
      Assoc(scratch, f.fragment, Together(fs[..m + 1]));
    } else {
      assert m + 1 < |all| ==> all[m + 1] == fs[m];
    }
  }

  lemma ResumeLast(f: Found, fs: seq<Found>, scratch: seq<Byte>)
    requires Has(f, LAST)
    ensures Resume(true, scratch, [f] + fs) == [scratch + f.fragment] + Assembled(fs)
    ensures Assembled([f] + fs) == Assembled(fs)
  {
    var all := [f] + fs;
    assert all[1..] == fs && all[..1] == [f];
    JoinedFirst(f, []);
    assert [f] + [] == [f] && Together([]) == [] && f.fragment + [] == f.fragment;
    assert Middles(all) == 0;
  }

  lemma ResumeFull(f: Found, fs: seq<Found>)
    requires Has(f, FULL)
    ensures Assembled([f] + fs) == [f.fragment] + Assembled(fs)
  {
    var all := [f] + fs;
    assert all[1..] == fs && all[..1] == [f];
    JoinedFirst(f, []);
    assert [f] + [] == [f] && Together([]) == [] && f.fragment + [] == f.fragment;
  }

  /** Anything but a middle or last fragment ends what was collected. */
  lemma ResumeOther(f: Found, fs: seq<Found>, scratch: seq<Byte>)
    requires !Has(f, MIDDLE) && !Has(f, LAST)
    ensures Resume(true, scratch, [f] + fs) == Assembled([f] + fs)
    ensures !Has(f, FULL) && !Has(f, FIRST) ==> Assembled([f] + fs) == Assembled(fs)
  {
    var all := [f] + fs;
    assert all[1..] == fs && all[0..] == all;
    assert Middles(all) == 0;
  }

  lemma ResumeNothing(scratch: seq<Byte>, fs: seq<Found>)
    ensures Resume(false, scratch, fs) == Assembled(fs)
  {
  }

  lemma ResumeEnd(inFragmented: bool, scratch: seq<Byte>)
    ensures Resume(inFragmented, scratch, []) == [] && Ahead(Opened(inFragmented, scratch), []) == 0
  {
  }

  /** What each kind of fragment makes of what is still to come. */
  lemma ResumeStep(f: Found, fs: seq<Found>, inFragmented: bool, scratch: seq<Byte>)
    ensures var now := Resume(inFragmented, scratch, [f] + fs);
            if Has(f, FULL) then now == [f.fragment] + Assembled(fs)
            else if Has(f, FIRST) then now == Resume(true, f.fragment, fs)
            else if Has(f, MIDDLE) && inFragmented then now == Resume(true, scratch + f.fragment, fs)
            else if Has(f, LAST) && inFragmented then now == [scratch + f.fragment] + Assembled(fs)
            else forall s :: now == Resume(false, s, fs)
  {
    hide Assembled, Resume;
    forall s ensures Resume(false, s, fs) == Assembled(fs) { ResumeNothing(s, fs); }
    ResumeNothing(scratch, [f] + fs);
    if Has(f, FULL) {
      ResumeFull(f, fs);
      ResumeOther(f, fs, scratch);
    } else if Has(f, FIRST) {
      ResumeFirst(f, fs);
      ResumeOther(f, fs, scratch);
    } else if Has(f, MIDDLE) {
      ResumeMiddle(f, fs, scratch);
    } else if Has(f, LAST) {
      ResumeLast(f, fs, scratch);
    } else {
      ResumeOther(f, fs, scratch);
    }
  }

  lemma ScanStep(crc: Crc, file: seq<Byte>, pos: nat)
    requires pos <= |file|
    ensures var f, fs := FindAt(crc, file, pos), Scan(crc, file, pos);
            if f.kind == Eof then fs == [] && f.reports == 0 && f.next == |file| && Scan(crc, file, f.next) == []
            else
              && fs == [f] + Scan(crc, file, f.next)
              && Corruptions(fs) == f.reports + Corruptions(Scan(crc, file, f.next))
  {
    var f := FindAt(crc, file, pos);
    if f.kind != Eof { assert ([f] + Scan(crc, file, f.next))[1..] == Scan(crc, file, f.next); }
  }

  /** The fragments from `i` to `k` make up the record. */
  ghost predicate RunOf(fs: seq<Found>, i: nat, k: nat, record: seq<Byte>) {
    i <= k <= |fs| && IsRun(fs[i..k]) && Together(fs[i..k]) == record
  }

  lemma AssembledMember(fs: seq<Found>, record: seq<Byte>)
    requires record in Assembled(fs)
    ensures |fs| > 0
    ensures var n := RunLength(fs);
            if n > 0 then n <= |fs| && IsRun(fs[..n]) && (record == Together(fs[..n]) || record in Assembled(fs[n..]))
            else record in Assembled(fs[1..])
  {
    hide IsRun, Together, RunLength;
  }

  /** Every record of a file is a run of what was found in it. */
  lemma {:induction false} RecordsAreRuns(fs: seq<Found>, record: seq<Byte>)
    requires record in Assembled(fs)
    ensures exists i: nat, k: nat :: RunOf(fs, i, k, record)
  {
    hide IsRun, Together, Assembled, RunLength;
    AssembledMember(fs, record);
    var n := RunLength(fs);
    if n > 0 && Together(fs[..n]) == record {
      assert fs[0..n] == fs[..n];
      assert RunOf(fs, 0, n, record);
    } else {
      var s := if n > 0 then n else 1;
      RecordsAreRuns(fs[s..], record);
      var i: nat, k: nat :| RunOf(fs[s..], i, k, record);
      assert fs[s..][i..k] == fs[s + i..s + k];
      assert RunOf(fs, s + i, s + k, record);
    }
  }

  /** Every fragment found is a physical record with the right checksum, and they stand one after another. */
  lemma {:induction false} ScanIsPhysical(crc: Crc, file: seq<Byte>, pos: nat, i: nat)
    requires pos <= |file| && i < |Scan(crc, file, pos)|
    ensures var fs := Scan(crc, file, pos);
            var from := if i == 0 then pos else fs[i - 1].next;
            from <= |file| && fs[i] == FindAt(crc, file, from)
    decreases |file| - pos
  {
    var f := FindAt(crc, file, pos);
    if i > 0 {
      ScanIsPhysical(crc, file, f.next, i - 1);
      assert Scan(crc, file, pos) == [f] + Scan(crc, file, f.next);
    }
  }

  class Reader {
    const crc: Crc
    const file: seq<Byte>
    /** end_of_buffer_offset_: bytes read from the file so far. */
    var filePos: nat
    var buffer: seq<Byte>
    var eof: bool
    var reports: nat
    ghost var blockStart: nat

    constructor (crc: Crc, file: seq<Byte>)
      ensures this.crc == crc && this.file == file && Valid() && Pos() == 0 && reports == 0
    {
      this.crc, this.file := crc, file;
      filePos, buffer, eof, reports, blockStart := 0, [], false, 0, 0;
    }

    ghost predicate Valid()
      reads this
    {
      && |buffer| <= filePos <= |file| && At(file, filePos - |buffer|, buffer)
      && blockStart % BLOCK_SIZE == 0 && blockStart <= filePos - |buffer| && filePos <= blockStart + BLOCK_SIZE
      && (eof ==> filePos == |file| && filePos < blockStart + BLOCK_SIZE)
      && (!eof ==> filePos == blockStart + BLOCK_SIZE || (filePos == 0 && blockStart == 0))
    }

    /** Offset of the first unread byte. */
    ghost function Pos(): nat
      reads this
      requires Valid()
    {
      filePos - |buffer|
    }

    /** Read the next block when what is left cannot hold a header. */
    method Fill()
      requires Valid()
      modifies this`filePos, this`buffer, this`eof, this`blockStart
      ensures Valid() && (|buffer| < HEADER_SIZE ==> eof)
      ensures |buffer| >= HEADER_SIZE ==> Pos() == HeaderPos(old(Pos()))
      ensures |buffer| < HEADER_SIZE ==> HeaderPos(old(Pos())) + HEADER_SIZE > |file|
    {
      PosInBlock(blockStart, Pos());
      if |buffer| < HEADER_SIZE && !eof {
        blockStart := filePos;
        buffer := if |file| - filePos < BLOCK_SIZE then file[filePos..] else file[filePos..filePos + BLOCK_SIZE];
        filePos := filePos + |buffer|;
        if |buffer| < BLOCK_SIZE {
          eof := true;
        }
      }
    }

    /** ReadPhysicalRecord finds what the bytes of the file say. */
    method ReadPhysicalRecord() returns (kind: Kind, fragment: seq<Byte>)
      requires Valid()
      modifies this
      ensures Valid() && FoundBy(FindAt(crc, file, old(Pos())), kind, fragment, old(reports))
    {
      hide FindAt, HeaderPos;
      ghost var start := Pos();
      Fill();
      if |buffer| < HEADER_SIZE {
        NothingFound(crc, file, start);
        Drop();
        return Eof, [];
      }
      kind, fragment := ParseHeader();
      SameFind(crc, file, start);
    }

    /** The reader has found `f`: its result, its position, and the corruptions it has reported since. */
    ghost predicate FoundBy(f: Found, kind: Kind, fragment: seq<Byte>, before: nat)
      reads this
      requires Valid()
    {
      f == Found(kind, fragment, Pos(), f.reports) && reports == before + f.reports
    }

    /** buffer_.clear(). */
    method Drop()
      requires Valid()
      modifies this`buffer
      ensures Valid() && Pos() == filePos
    {
      buffer := [];
    }

    /** The header in the buffer is the one in the file, and the buffer ends with the block or the file. */
    lemma HeaderIsFile()
      requires Valid() && |buffer| >= HEADER_SIZE
      ensures HeaderPos(Pos()) == Pos() && Pos() + HEADER_SIZE <= |file|
      ensures filePos == if eof then |file| else BlockEnd(Pos())
      ensures eof <==> |file| < BlockEnd(Pos())
      ensures buffer[4] == file[Pos() + 4] && buffer[5] == file[Pos() + 5] && buffer[6] == file[Pos() + 6]
      ensures DecodeFixed32(buffer, 0) == DecodeFixed32(file, Pos())
    {
      hide DecodeFixed32;
      PosInBlock(blockStart, Pos());
      SameWord(buffer, file, Pos());
    }

    /** So are the type and payload. */
    lemma PayloadIsFile(n: nat)
      requires Valid() && 7 + n <= |buffer|
      ensures Pos() + 7 + n <= |file|
      ensures buffer[6..7 + n] == file[Pos() + 6..Pos() + 7 + n] && buffer[7..7 + n] == file[Pos() + 7..Pos() + 7 + n]
    {
      WindowSlice(buffer, file, Pos(), 6, 7 + n);
      WindowSlice(buffer, file, Pos(), 7, 7 + n);
    }

    method ParseHeader() returns (kind: Kind, fragment: seq<Byte>)
      requires Valid() && |buffer| >= HEADER_SIZE
      modifies this`buffer, this`reports
      ensures Valid() && FoundBy(FindAt(crc, file, old(Pos())), kind, fragment, old(reports))
    {
      hide DecodeFixed32, UnmaskCrc, HeaderPos, BlockEnd, At;
      HeaderIsFile();
      fragment := [];
      var a: nat, b: nat, kindByte := buffer[4], buffer[5], buffer[6];
      var length := a + 256 * b;
      if HEADER_SIZE + length > |buffer| {
        Drop();
        if !eof {
          reports := reports + 1;
          return Bad, [];
        }
        return Eof, [];
      }
      PayloadIsFile(length);
      if kindByte == 0 && length == 0 {
        Drop();
        return Bad, [];
      }
      if crc(buffer[6..7 + length]) != UnmaskCrc(DecodeFixed32(buffer, 0)) {
        Drop();
        reports := reports + 1;
        return Bad, [];
      }
      kind, fragment := Kind.Fragment(kindByte), buffer[7..7 + length];
      Consume(7 + length);
    }

    /** buffer_.remove_prefix(n). */
    method Consume(n: nat)
      requires Valid() && n <= |buffer|
      modifies this`buffer
      ensures Valid() && Pos() == old(Pos()) + n
    {
      buffer := buffer[n..];
    }

    /** The rest of the current record follows, or the file ends here. */
    ghost predicate Inside(w: seq<Byte>, rest: seq<Byte>, begin: bool, end: nat)
      reads this
    {
      Valid() && file <= w && RecordFrom(crc, file, w, Pos(), rest, begin, end)
    }

    method ReadFragment(ghost w: seq<Byte>, ghost rest: seq<Byte>, ghost begin: bool,
                        ghost end: nat) returns (kind: Kind, fragment: seq<Byte>)
      requires Valid()
      modifies this
      ensures Valid() && (kind == Eof || Pos() > old(Pos()))
      ensures FoundBy(FindAt(crc, file, old(Pos())), kind, fragment, old(reports))
      ensures old(Inside(w, rest, begin, end)) ==> reports == old(reports)
      ensures old(Inside(w, rest, begin, end)) ==>
                var n := FragmentLength(old(Pos()) % BLOCK_SIZE, |rest|);
                if kind == Eof then end > |file|
                else (&& kind == Kind.Fragment(TypeOf(begin, n == |rest|)) && fragment == rest[..n]
                      && if n == |rest| then Pos() == end else Inside(w, rest[n..], false, end))
    {
      hide RecordFrom, FindAt, TypeOf;
      if Inside(w, rest, begin, end) { FragmentFrom(crc, file, w, Pos(), rest, begin, end); }
      kind, fragment := ReadPhysicalRecord();
    }

    /** ReadRecord. On any file it returns the next run of fragments, or nothing when there is none left. On a log cut
        anywhere that is the next record if it was written completely, and nothing is reported. */
    method ReadRecord(ghost w: seq<Byte>, ghost record: seq<Byte>, ghost end: nat) returns (r: Option<seq<Byte>>)
      requires Valid()
      modifies this
      ensures Valid() && (r.Some? ==> Pos() > old(Pos()))
      ensures Returns(old(Pos()), old(reports), r)
      ensures old(Inside(w, record, true, end)) ==> reports == old(reports)
      ensures old(Inside(w, record, true, end)) ==>
                if end <= |file| then r == Some(record) && Pos() == end else r == None
    {
      hide Inside, Collected, FindAt, Resume, Scan, Assembled, Corruptions, Misfits;
      var scratch, inFragmented := [], false;
      CollectedNothing(record);
      ghost var good, rest, begin := Inside(w, record, true, end), record, true;
      ghost var all, total := Assembled(Scan(crc, file, Pos())), reports + Ahead(None, Scan(crc, file, Pos()));
      ResumeNothing([], Scan(crc, file, Pos()));
      while true
        invariant Valid() && Pos() >= old(Pos()) && (good ==> reports == old(reports))
        invariant good ==> Inside(w, rest, begin, end) && Collected(record, scratch, rest, inFragmented, begin)
        invariant all == Resume(inFragmented, scratch, Scan(crc, file, Pos()))
        invariant reports + Ahead(Opened(inFragmented, scratch), Scan(crc, file, Pos())) == total
        decreases |file| - Pos()
      {
        ghost var n := FragmentLength(Pos() % BLOCK_SIZE, |rest|);
        ghost var f := FindAt(crc, file, Pos());
        ScanStep(crc, file, Pos());
        var kind, fragment := ReadFragment(w, rest, begin, end);
        if kind == Eof {
          ResumeEnd(inFragmented, scratch);
          return None;
        }
        var done, errors;
        done, errors, inFragmented, scratch :=
          Assemble(kind, fragment, inFragmented, scratch, record, rest, begin, n, f, Scan(crc, file, f.next));
        reports := reports + errors;
        if done {
          return Some(scratch);
        }
        rest, begin := rest[n..], false;
      }
    }

    /** The first run from `pos` on, or that there is none; and the reports on the way. */
    ghost predicate Returns(pos: nat, before: nat, r: Option<seq<Byte>>)
      reads this
      requires Valid() && pos <= |file|
    {
      var fs := Scan(crc, file, pos);
      match r
      case Some(record) =>
        && Assembled(fs) == [record] + Assembled(Scan(crc, file, Pos()))
        && reports + Ahead(None, Scan(crc, file, Pos())) == before + Ahead(None, fs)
      case None => Assembled(fs) == [] && reports == before + Ahead(None, fs)
    }
  }

  /** `scratch` holds what was read of the record and `rest` is still to come. */
  ghost predicate Collected(record: seq<Byte>, scratch: seq<Byte>, rest: seq<Byte>, inFragmented: bool, begin: bool) {
    inFragmented == !begin && scratch + rest == record && (begin ==> scratch == [])
  }

  lemma CollectedNothing(record: seq<Byte>)
    ensures Collected(record, [], record, false, true)
  {
    assert [] + record == record;
  }

  /** The switch of ReadRecord. */
  method Assemble(kind: Kind, fragment: seq<Byte>, inFragmented0: bool, scratch0: seq<Byte>,
                  ghost record: seq<Byte>, ghost rest: seq<Byte>, ghost begin: bool, ghost n: nat, ghost f: Found,
                  ghost fs: seq<Found>)
    returns (done: bool, errors: nat, inFragmented: bool, scratch: seq<Byte>)
    requires kind != Eof && n <= |rest| && f.kind == kind && f.fragment == fragment
    ensures Resume(inFragmented0, scratch0, [f] + fs) ==
              if done then [scratch] + Assembled(fs) else Resume(inFragmented, scratch, fs)
    ensures Misfits(Opened(inFragmented0, scratch0), [f] + fs) ==
              errors + Misfits(if done then None else Opened(inFragmented, scratch), fs)
    ensures Collected(record, scratch0, rest, inFragmented0,
                      begin) && kind == Kind.Fragment(TypeOf(begin, n == |rest|)) && fragment == rest[..n] ==>
              (&& errors == 0 && done == (n == |rest|)
               && if done then scratch == record else Collected(record, scratch, rest[n..], inFragmented, false))
  {
    assert rest == rest[..n] + rest[n..];
    ResumeStep(f, fs, inFragmented0, scratch0);
    MisfitsStep(Opened(inFragmented0, scratch0), f, fs);
    hide Resume, Assembled, Misfits;
    done, errors, inFragmented, scratch := false, 0, inFragmented0, scratch0;
    match kind
    case Bad =>
      if inFragmented {
        errors, inFragmented, scratch := 1, false, [];
      }
    case Fragment(t) =>
      if t == FULL {
        if inFragmented && |scratch| > 0 { errors := 1; }
        done, scratch := true, fragment;
      } else if t == FIRST {
        if inFragmented && |scratch| > 0 { errors := 1; }
        scratch, inFragmented := fragment, true;
      } else if t == MIDDLE {
        if !inFragmented { errors := 1; } else { scratch := scratch + fragment; }
      } else if t == LAST {
        if !inFragmented {
          errors := 1;
        } else {
          done, scratch := true, scratch + fragment;
        }
      } else {
        errors, inFragmented, scratch := 1, false, [];
      }
  }

  /** The log of `records`, cut after `t` bytes. */
  ghost predicate CutLog(crc: Crc, records: seq<seq<Byte>>, file: seq<Byte>) {
    file <= Log(crc, records)
  }

  /** Record `i` was written completely. */
  ghost predicate Complete(crc: Crc, records: seq<seq<Byte>>, file: seq<Byte>, i: nat)
    requires i < |records|
  {
    |Log(crc, records[..i + 1])| <= |file|
  }

  /** How many of the first `n` records were written completely; once one is not, neither are the later ones. */
  ghost function CompleteCount(crc: Crc, records: seq<seq<Byte>>, file: seq<Byte>, n: nat): (m: nat)
    requires n <= |records|
    ensures m <= n
  {
    if n == 0 then 0 else if Complete(crc, records, file, n - 1) then n else CompleteCount(crc, records, file, n - 1)
  }

  lemma {:induction false} CompleteCountIs(crc: Crc, records: seq<seq<Byte>>, file: seq<Byte>, n: nat, m: nat)
    requires n <= |records| && forall i :: 0 <= i < |records| ==> (i < m <==> Complete(crc, records, file, i))
    ensures CompleteCount(crc, records, file, n) == if m < n then m else n
  {
    hide Complete;
    if n > 0 { CompleteCountIs(crc, records, file, n - 1, m); }
  }

  /** Where record `i` stands in the log. */
  lemma RecordAt(crc: Crc, records: seq<seq<Byte>>, i: nat)
    requires i < |records|
    ensures var p := |Log(crc, records[..i])|;
            var r := Record(crc, p % BLOCK_SIZE, records[i], true);
            At(Log(crc, records), p, r) && |Log(crc, records[..i + 1])| == p + |r|
  {
    var before := Log(crc, records[..i]);
    assert records[..i + 1] == records[..i] + [records[i]];
    Appended(crc, records[..i], records[i]);
    LogPrefix(crc, records, i + 1);
    PrefixAt(Log(crc, records), before, Record(crc, |before| % BLOCK_SIZE, records[i], true));
  }

  lemma PrefixAt(w: seq<Byte>, a: seq<Byte>, b: seq<Byte>)
    requires a + b <= w
    ensures At(w, |a|, b)
  {
    AtConcat(w, 0, a, b);
  }

  /** Once a record is incomplete, so are all later ones. */
  lemma IncompleteAfter(crc: Crc, records: seq<seq<Byte>>, file: seq<Byte>, i: nat, j: nat)
    requires i <= j < |records| && !Complete(crc, records, file, i)
    ensures !Complete(crc, records, file, j)
  {
    LogPrefix(crc, records[..j + 1], i + 1);
    assert records[..j + 1][..i + 1] == records[..i + 1];
  }

  /** The records read so far are a prefix of those written, all complete. */
  ghost predicate Read(crc: Crc, records: seq<seq<Byte>>, file: seq<Byte>, out: seq<seq<Byte>>) {
    && out <= records && |Log(crc, out)| <= |file|
    && forall i :: 0 <= i < |out| ==> Complete(crc, records, file, i)
  }

  /** Exactly the complete records were read. */
  ghost predicate ReadExactly(crc: Crc, records: seq<seq<Byte>>, file: seq<Byte>, out: seq<seq<Byte>>) {
    out <= records && forall i :: 0 <= i < |records| ==> (i < |out| <==> Complete(crc, records, file, i))
  }

  lemma Stop(crc: Crc, records: seq<seq<Byte>>, file: seq<Byte>, out: seq<seq<Byte>>)
    requires Read(crc, records, file, out) && (|out| < |records| ==> !Complete(crc, records, file, |out|))
    ensures ReadExactly(crc, records, file, out)
  {
    forall j | |out| <= j < |records| ensures !Complete(crc, records, file, j) {
      IncompleteAfter(crc, records, file, |out|, j);
    }
  }

  lemma More(crc: Crc, records: seq<seq<Byte>>, file: seq<Byte>, out: seq<seq<Byte>>)
    requires Read(crc, records, file, out) && |out| < |records| && Complete(crc, records, file, |out|)
    ensures Read(crc, records, file, out + [records[|out|]])
    ensures out + [records[|out|]] == records[..|out| + 1]
  {
    assert out + [records[|out|]] == records[..|out| + 1];
  }

  /** The record a reader that has returned `out` is about to read, and where that one ends. */
  ghost function NextRecord(records: seq<seq<Byte>>, out: seq<seq<Byte>>): seq<Byte> {
    if |out| < |records| then records[|out|] else []
  }

  ghost function NextEnd(crc: Crc, records: seq<seq<Byte>>, file: seq<Byte>, out: seq<seq<Byte>>): nat {
    if |out| < |records| then |Log(crc, records[..|out| + 1])| else |file| + 1
  }

  lemma AtNextRecord(reader: Reader, records: seq<seq<Byte>>, out: seq<seq<Byte>>)
    requires reader.Valid() && CutLog(reader.crc, records, reader.file)
    requires Read(reader.crc, records, reader.file, out) && reader.Pos() == |Log(reader.crc, out)|
    ensures reader.Inside(Log(reader.crc, records), NextRecord(records, out), true,
                          NextEnd(reader.crc, records, reader.file, out))
  {
    hide LogFormat.Fragment, FragmentLength, At, Complete;
    assert records[..|out|] == out;
    if |out| < |records| {
      RecordAt(reader.crc, records, |out|);
    } else {
      assert out == records;
    }
  }

  /** The loop of RecoverLogFile: every record of the file, in order. Any file gives exactly the runs of fragments found
      in it, with one report for each corruption and each misplaced fragment. A log cut at any byte gives exactly the
      records that were written completely, and no corruption is reported. */
  method ReadAll(crc: Crc, file: seq<Byte>, ghost records: seq<seq<Byte>>) returns (out: seq<seq<Byte>>, reports: nat)
    ensures out == Assembled(Scan(crc, file, 0)) && reports == Reports(Scan(crc, file, 0))
    ensures CutLog(crc, records, file) ==> reports == 0 && ReadExactly(crc, records, file, out)
  {
    hide Reader.Inside, Read, ReadExactly, CutLog, Assembled, Scan, Ahead, Reports;
    var reader := new Reader(crc, file);
    out := [];
    assert [] + Assembled(Scan(crc, file, 0)) == Assembled(Scan(crc, file, 0));
    ReportsAhead(Scan(crc, file, 0));
    ghost var good := CutLog(crc, records, file);
    if good { ReadNothing(crc, records, file); }
    while true
      invariant fresh(reader) && reader.crc == crc && reader.file == file && reader.Valid()
      invariant good ==> reader.reports == 0 && Read(crc, records, file, out) && reader.Pos() == |Log(crc, out)|
      invariant out + Assembled(Scan(crc, file, reader.Pos())) == Assembled(Scan(crc, file, 0))
      invariant reader.reports + Ahead(None, Scan(crc, file, reader.Pos())) == Reports(Scan(crc, file, 0))
      decreases |file| - reader.Pos()
    {
      if good { AtNextRecord(reader, records, out); }
      ghost var end := NextEnd(crc, records, file, out);
      var r := reader.ReadRecord(Log(crc, records), NextRecord(records, out), end);
      if r.None? {
        if good { Stop(crc, records, file, out); }
        reports := reader.reports;
        return;
      }
      if good { More(crc, records, file, out); }
      Assoc(out, [r.value], Assembled(Scan(crc, file, reader.Pos())));
      out := out + [r.value];
    }
  }

  /** The reports about a file. */
  ghost function Reports(fs: seq<Found>): nat { Corruptions(fs) + Misplacements(fs, |fs|) }

  lemma ReportsAhead(fs: seq<Found>)
    ensures Reports(fs) == Ahead(None, fs)
  {
    AllMisfits(fs);
  }

  lemma ReadNothing(crc: Crc, records: seq<seq<Byte>>, file: seq<Byte>)
    ensures Read(crc, records, file, []) && |Log(crc, [])| == 0
  {
  }
}
