/** Ribbon construction: banded Gaussian elimination over GF(2) and back substitution. */
module Ribbon {
  import opened Words

  const RIBBON_WIDTH := 64

  /** One equation: the coefficient bits, lowest at slot `start`, and the result bits. */
  datatype Row = Row(start: nat, coefficients: nat, result: nat)

  /** The xor of the slots selected by coefficients `c` placed at position `p`; slots past the end read 0. */
  function Eval(sol: seq<nat>, p: nat, c: nat): nat
    decreases c
  {
    if c == 0 then 0
    else Xor(if c % 2 == 1 && p < |sol| then sol[p] else 0, Eval(sol, p + 1, c / 2))
  }

  predicate Solves(sol: seq<nat>, row: Row) { Eval(sol, row.start, row.coefficients) == row.result }

  predicate SolvesRows(sol: seq<nat>, rows: seq<Row>) { forall i :: 0 <= i < |rows| ==> Solves(sol, rows[i]) }

  /** The GF(2) system of the rows has a solution over `slots` slots. */
  ghost predicate Consistent(rows: seq<Row>, slots: nat) {
    exists sol: seq<nat> :: |sol| == slots && SolvesRows(sol, rows)
  }

  /** A row fits the table and its result fits `bits` bits. */
  predicate RowFits(row: Row, slots: nat, bits: nat) {
    && row.start + RIBBON_WIDTH <= slots
    && 0 < row.coefficients < 0x1_0000_0000_0000_0000
    && row.result < Pow2(bits)
  }

  predicate PivotSolved(sol: seq<nat>, pivots: seq<nat>, results: seq<nat>, p: nat)
    requires p < |pivots| == |results|
  {
    pivots[p] != 0 ==> Eval(sol, p, pivots[p]) == results[p]
  }

  ghost predicate SolvesPivots(sol: seq<nat>, pivots: seq<nat>, results: seq<nat>)
    requires |pivots| == |results|
  {
    forall p :: 0 <= p < |pivots| ==> PivotSolved(sol, pivots, results, p)
  }

  /** Every stored pivot has its lowest bit at its own slot and ends inside the table. */
  predicate PivotsFit(pivots: seq<nat>, results: seq<nat>, slots: nat, bits: nat) {
    && |pivots| == |results| == slots
    && forall p :: 0 <= p < slots ==>
         pivots[p] < Pow2(slots - p) && results[p] < Pow2(bits) && (pivots[p] != 0 ==> pivots[p] % 2 == 1)
  }

  /** The pivots say exactly what the first `n` rows say. */
  ghost predicate Equivalent(rows: seq<Row>, n: nat, pivots: seq<nat>, results: seq<nat>, slots: nat)
    requires n <= |rows| && |pivots| == |results|
  {
    forall sol: seq<nat> :: |sol| == slots ==> (SolvesRows(sol, rows[..n]) <==> SolvesPivots(sol, pivots, results))
  }

  /** Given the pivots, the reduced equation says exactly what the row says. */
  ghost predicate Reduced(row: Row, p: nat, c: nat, r: nat, pivots: seq<nat>, results: seq<nat>, slots: nat)
    requires |pivots| == |results|
  {
    forall sol: seq<nat> :: |sol| == slots && SolvesPivots(sol, pivots, results) ==>
      (Solves(sol, row) <==> Eval(sol, p, c) == r)
  }

  lemma {:induction false} EvalXor(sol: seq<nat>, p: nat, a: nat, b: nat)
    ensures Eval(sol, p, Xor(a, b)) == Xor(Eval(sol, p, a), Eval(sol, p, b))
    decreases a + b
  {
    if a != 0 && b != 0 {
      EvalXor(sol, p + 1, a / 2, b / 2);
      XorHalf(a, b);
      var v := if p < |sol| then sol[p] else 0;
      var x := if a % 2 == 1 then v else 0;
      var y := if b % 2 == 1 then v else 0;
      EvalHead(sol, p, a);
      EvalHead(sol, p, b);
      EvalHead(sol, p, Xor(a, b));
      XorSelf(v);
      XorShuffle(x, Eval(sol, p + 1, a / 2), y, Eval(sol, p + 1, b / 2));
    } else {
      XorComm(Eval(sol, p, a), Eval(sol, p, b));
    }
  }

  lemma XorHalf(a: nat, b: nat)
    ensures Xor(a, b) / 2 == Xor(a / 2, b / 2)
    ensures Xor(a, b) % 2 == 1 <==> (a % 2 == 1) != (b % 2 == 1)
  {
  }

  lemma EvalHead(sol: seq<nat>, p: nat, c: nat)
    ensures Eval(sol, p, c) == Xor(if c % 2 == 1 && p < |sol| then sol[p] else 0, Eval(sol, p + 1, c / 2))
  {
  }

  lemma XorShuffle(a: nat, b: nat, c: nat, d: nat)
    ensures Xor(Xor(a, b), Xor(c, d)) == Xor(Xor(a, c), Xor(b, d))
  {
    XorAssoc(a, b, Xor(c, d));
    XorAssoc(b, c, d);
    XorComm(b, c);
    XorAssoc(c, b, d);
    XorAssoc(a, c, Xor(b, d));
  }

  /** Moving the window past trailing zeros changes nothing. */
  lemma {:induction false} EvalShift(sol: seq<nat>, p: nat, c: nat)
    requires c != 0
    ensures Eval(sol, p, c) == Eval(sol, p + Ctz(c), Shr(c, Ctz(c)))
    decreases c
  {
    if c % 2 == 0 { EvalShift(sol, p + 1, c / 2); }
  }

  /** A nonzero word below 2^n has its lowest bit below n, and shifting it out keeps it inside. */
  lemma {:induction false} CtzBound(c: nat, n: nat)
    requires 0 < c < Pow2(n)
    ensures Ctz(c) < n && Shr(c, Ctz(c)) < Pow2(n - Ctz(c)) && Shr(c, Ctz(c)) != 0
    ensures Ctz(c) == 0 <==> c % 2 == 1
  {
    ShrCtzOdd(c);
    if c % 2 == 0 { CtzBound(c / 2, n - 1); }
  }

  lemma ShiftReduced(row: Row, p: nat, c: nat, r: nat, pivots: seq<nat>, results: seq<nat>, slots: nat)
    requires |pivots| == |results| && c != 0 && Reduced(row, p, c, r, pivots, results, slots)
    ensures Reduced(row, p + Ctz(c), Shr(c, Ctz(c)), r, pivots, results, slots)
  {
    forall sol: seq<nat> | |sol| == slots && SolvesPivots(sol, pivots, results)
      ensures Solves(sol, row) <==> Eval(sol, p + Ctz(c), Shr(c, Ctz(c))) == r
    {
      EvalShift(sol, p, c);
    }
  }

  /** Xor-ing in the pivot of this slot keeps the equation's meaning. */
  lemma EliminateReduced(row: Row, p: nat, c: nat, r: nat, pivots: seq<nat>, results: seq<nat>, slots: nat)
    requires p < |pivots| == |results| && pivots[p] != 0 && Reduced(row, p, c, r, pivots, results, slots)
    ensures Reduced(row, p, Xor(c, pivots[p]), Xor(r, results[p]), pivots, results, slots)
  {
    forall sol: seq<nat> | |sol| == slots && SolvesPivots(sol, pivots, results)
      ensures Solves(sol, row) <==> Eval(sol, p, Xor(c, pivots[p])) == Xor(r, results[p])
    {
      assert PivotSolved(sol, pivots, results, p);
      EvalXor(sol, p, c, pivots[p]);
      XorCancel(r, results[p]);
      XorCancel(Eval(sol, p, c), results[p]);
    }
  }

  /** Storing the reduced row as a new pivot accounts for the row. */
  lemma StorePivot(rows: seq<Row>, n: nat, p: nat, c: nat, r: nat, pivots: seq<nat>, results: seq<nat>, slots: nat)
    requires n < |rows| && p < |pivots| == |results| && pivots[p] == 0 && c != 0
    requires Equivalent(rows, n, pivots, results, slots) && Reduced(rows[n], p, c, r, pivots, results, slots)
    ensures Equivalent(rows, n + 1, pivots[p := c], results[p := r], slots)
  {
    forall sol: seq<nat> | |sol| == slots
      ensures SolvesRows(sol, rows[..n + 1]) <==> SolvesPivots(sol, pivots[p := c], results[p := r])
    {
      RowsSnoc(sol, rows, n);
      PivotsUpdate(sol, pivots, results, p, c, r);
    }
  }

  lemma RowsSnoc(sol: seq<nat>, rows: seq<Row>, n: nat)
    requires n < |rows|
    ensures SolvesRows(sol, rows[..n + 1]) <==> SolvesRows(sol, rows[..n]) && Solves(sol, rows[n])
  {
    assert forall i :: 0 <= i < n ==> rows[..n + 1][i] == rows[..n][i];
    assert rows[..n + 1][n] == rows[n];
  }

  lemma PivotsUpdate(sol: seq<nat>, pivots: seq<nat>, results: seq<nat>, p: nat, c: nat, r: nat)
    requires p < |pivots| == |results| && pivots[p] == 0 && c != 0
    ensures SolvesPivots(sol, pivots[p := c], results[p := r]) <==>
              SolvesPivots(sol, pivots, results) && Eval(sol, p, c) == r
  {
    var pivots', results' := pivots[p := c], results[p := r];
    assert forall q :: 0 <= q < |pivots| && q != p ==>
           (PivotSolved(sol, pivots', results', q) <==> PivotSolved(sol, pivots, results, q));
    assert PivotSolved(sol, pivots, results, p);
    assert PivotSolved(sol, pivots', results', p) <==> Eval(sol, p, c) == r;
  }

  /** A row reduced to nothing is implied by the others when its result is 0, and contradicts them otherwise. */
  lemma EmptyReduced(rows: seq<Row>, n: nat, p: nat, r: nat, pivots: seq<nat>, results: seq<nat>, slots: nat)
    requires n < |rows| && |pivots| == |results|
    requires Equivalent(rows, n, pivots, results, slots) && Reduced(rows[n], p, 0, r, pivots, results, slots)
    ensures r == 0 ==> Equivalent(rows, n + 1, pivots, results, slots)
    ensures r != 0 ==> !Consistent(rows, slots)
  {
    forall sol: seq<nat> | |sol| == slots
      ensures SolvesRows(sol, rows[..n + 1]) <==> SolvesPivots(sol, pivots, results) && r == 0
    {
      RowsSnoc(sol, rows, n);
    }
    forall sol: seq<nat> | |sol| == slots && SolvesRows(sol, rows) ensures r == 0 {
      assert SolvesRows(sol, rows[..n + 1]);
    }
  }

  lemma PivotsFitUpdate(pivots: seq<nat>, results: seq<nat>, slots: nat, bits: nat, p: nat, c: nat, r: nat)
    requires PivotsFit(pivots, results, slots, bits) && p < slots
    requires c < Pow2(slots - p) && r < Pow2(bits) && c % 2 == 1
    ensures PivotsFit(pivots[p := c], results[p := r], slots, bits)
  {
  }

  /** The equation being reduced: placed inside the table and equivalent to row `n` given the pivots. */
  ghost predicate Pending(row: Row, p: nat, c: nat, r: nat, pivots: seq<nat>, results: seq<nat>, slots: nat,
                          bits: nat) {
    && |pivots| == |results| == slots && p <= slots && c < Pow2(slots - p) && r < Pow2(bits)
    && Reduced(row, p, c, r, pivots, results, slots)
  }

  lemma RowInside(row: Row, slots: nat, bits: nat)
    requires RowFits(row, slots, bits)
    ensures row.coefficients < Pow2(slots - row.start)
  {
    Pow2Values();
    Pow2Mono(RIBBON_WIDTH, slots - row.start);
  }

  lemma PendingStart(row: Row, pivots: seq<nat>, results: seq<nat>, slots: nat, bits: nat)
    requires RowFits(row, slots, bits) && |pivots| == |results| == slots
    ensures Pending(row, row.start, row.coefficients, row.result, pivots, results, slots, bits)
  {
    RowInside(row, slots, bits);
  }

  /** After skipping trailing zeros the row still ends inside the table: the source's out-of-range branch is dead. */
  lemma PendingShift(row: Row, p: nat, c: nat, r: nat, pivots: seq<nat>, results: seq<nat>, slots: nat, bits: nat)
    requires c != 0 && Pending(row, p, c, r, pivots, results, slots, bits)
    ensures p + Ctz(c) < slots && Shr(c, Ctz(c)) % 2 == 1 && (Ctz(c) == 0 <==> c % 2 == 1)
    ensures Pending(row, p + Ctz(c), Shr(c, Ctz(c)), r, pivots, results, slots, bits)
  {
    CtzBound(c, slots - p);
    ShrCtzOdd(c);
    ShiftReduced(row, p, c, r, pivots, results, slots);
  }

  lemma PendingXor(row: Row, p: nat, c: nat, r: nat, pivots: seq<nat>, results: seq<nat>, slots: nat, bits: nat)
    requires Pending(row, p, c, r, pivots, results, slots, bits) && PivotsFit(pivots, results, slots, bits)
    requires p < slots && c % 2 == 1 && pivots[p] != 0
    ensures Xor(c, pivots[p]) % 2 == 0
    ensures Pending(row, p, Xor(c, pivots[p]), Xor(r, results[p]), pivots, results, slots, bits)
  {
    hide Reduced;
    EliminateReduced(row, p, c, r, pivots, results, slots);
    XorBound(c, pivots[p], slots - p);
    XorBound(r, results[p], bits);
    XorHalf(c, pivots[p]);
  }

  /** The elimination of one row: stores a pivot, finds the row redundant, or finds a contradiction. */
  method InsertRow(rows: seq<Row>, n: nat, pivots: seq<nat>, results: seq<nat>, slots: nat, bits: nat)
    returns (ok: bool, pivots': seq<nat>, results': seq<nat>)
    requires n < |rows| && RowFits(rows[n], slots, bits)
    requires PivotsFit(pivots, results, slots, bits) && Equivalent(rows, n, pivots, results, slots)
    ensures ok ==> PivotsFit(pivots', results', slots, bits) && Equivalent(rows, n + 1, pivots', results', slots)
    ensures !ok ==> !Consistent(rows, slots)
  {
    pivots', results' := pivots, results;
    var coefficients: nat, result: nat, position: nat := rows[n].coefficients, rows[n].result, rows[n].start;
    PendingStart(rows[n], pivots, results, slots, bits);
    hide RowFits, Reduced, Equivalent, Consistent, PivotsFit, Xor;
    while coefficients != 0
      invariant Pending(rows[n], position, coefficients, result, pivots, results, slots, bits)
      decreases slots - position, coefficients % 2
    {
      PendingShift(rows[n], position, coefficients, result, pivots, results, slots, bits);
      var zeros := Ctz(coefficients);
      position, coefficients := position + zeros, Shr(coefficients, zeros);
      if pivots[position] == 0 {
        PivotsFitUpdate(pivots, results, slots, bits, position, coefficients, result);
        StorePivot(rows, n, position, coefficients, result, pivots, results, slots);
        return true, pivots[position := coefficients], results[position := result];
      }
      PendingXor(rows[n], position, coefficients, result, pivots, results, slots, bits);
      coefficients, result := Xor(coefficients, pivots[position]), Xor(result, results[position]);
    }
    EmptyReduced(rows, n, position, result, pivots, results, slots);
    return result == 0, pivots', results';
  }

  /** The elimination loop of TryBuildRibbon. */
  method Eliminate(rows: seq<Row>, slots: nat, bits: nat) returns (ok: bool, pivots: seq<nat>, results: seq<nat>)
    requires forall i :: 0 <= i < |rows| ==> RowFits(rows[i], slots, bits)
    ensures ok ==> PivotsFit(pivots, results, slots, bits) && Equivalent(rows, |rows|, pivots, results, slots)
    ensures !ok ==> !Consistent(rows, slots)
  {
    pivots, results := seq(slots, _ => 0), seq(slots, _ => 0);
    for i := 0 to |rows|
      invariant PivotsFit(pivots, results, slots, bits) && Equivalent(rows, i, pivots, results, slots)
    {
      ok, pivots, results := InsertRow(rows, i, pivots, results, slots, bits);
      if !ok { return; }
    }
    ok := true;
  }

  // ---- back substitution ---------------------------------------------------------------------

  ghost predicate SolvedFrom(sol: seq<nat>, pivots: seq<nat>, results: seq<nat>, from: nat)
    requires |pivots| == |results|
  {
    forall q :: from <= q < |pivots| ==> PivotSolved(sol, pivots, results, q)
  }

  /** Only slots at or above the window matter. */
  lemma {:induction false} EvalFrame(a: seq<nat>, b: seq<nat>, p: nat, c: nat)
    requires |a| == |b| && forall q :: p <= q < |a| ==> a[q] == b[q]
    ensures Eval(a, p, c) == Eval(b, p, c)
    decreases c
  {
    if c != 0 { EvalFrame(a, b, p + 1, c / 2); }
  }

  /** Giving slot `p` the value its pivot asks for solves that pivot and disturbs none above it. */
  lemma SlotSolved(sol: seq<nat>, pivots: seq<nat>, results: seq<nat>, slots: nat, bits: nat, p: nat)
    requires PivotsFit(pivots, results, slots, bits) && |sol| == slots && p < slots
    requires SolvedFrom(sol, pivots, results, p + 1)
    ensures pivots[p] == 0 ==> SolvedFrom(sol, pivots, results, p)
    ensures pivots[p] != 0 ==>
              SolvedFrom(sol[p := Xor(results[p], Eval(sol, p + 1, pivots[p] / 2))], pivots, results, p)
  {
    if pivots[p] == 0 {
      assert PivotSolved(sol, pivots, results, p);
    } else {
      var rest := Eval(sol, p + 1, pivots[p] / 2);
      var sol' := sol[p := Xor(results[p], rest)];
      forall q | p <= q < slots ensures PivotSolved(sol', pivots, results, q) {
        if q == p {
          EvalFrame(sol, sol', p + 1, pivots[p] / 2);
          XorCancel(results[p], rest);
        } else {
          assert PivotSolved(sol, pivots, results, q);
          EvalFrame(sol, sol', q, pivots[q]);
        }
      }
    }
  }

  /** A pivot system always has a solution, however many slots it has. */
  lemma {:induction false} PivotsSolvable(pivots: seq<nat>, results: seq<nat>, slots: nat, bits: nat,
                                          k: nat) returns (sol: seq<nat>)
    requires PivotsFit(pivots, results, slots, bits) && k <= slots
    ensures |sol| == slots && SolvedFrom(sol, pivots, results, slots - k)
  {
    if k == 0 {
      sol := seq(slots, _ => 0);
    } else {
      var p := slots - k;
      sol := PivotsSolvable(pivots, results, slots, bits, k - 1);
      SlotSolved(sol, pivots, results, slots, bits, p);
      if pivots[p] != 0 {
        sol := sol[p := Xor(results[p], Eval(sol, p + 1, pivots[p] / 2))];
      }
    }
  }

  /** static_cast<int> of a 32-bit count. */
  function ToInt32(w: Word32): int { if w < 0x8000_0000 then w else w - 0x1_0000_0000 }

  /** A sum or difference of two ints, wrapping around where it overflows. */
  function WrapInt(x: int): int {
    if x > 0x7fff_ffff then x - 0x1_0000_0000 else if x < -0x8000_0000 then x + 0x1_0000_0000 else x
  }

  lemma HalfBelow(w: nat, n: nat)
    requires w < Pow2(n) && n > 0
    ensures Shr(w, 1) == w / 2 < Pow2(n - 1)
  {
    assert Pow2(n) == 2 * Pow2(n - 1);
  }

  /** The loop's signed comparison: the unsigned one, except that 2^31 slots read as a negative count. */
  lemma GuardIs(q: nat, slots: Word32)
    requires q <= slots <= 0x8000_0000
    ensures WrapInt(q) < ToInt32(slots) <==> slots < 0x8000_0000 && q < slots
  {
  }

  /** The slots from `q` on that `remaining` selects are still to be taken into the value. */
  ghost predicate ToTake(sol: seq<nat>, q: nat, remaining: nat, value: nat, goal: nat, bits: nat) {
    q <= |sol| && remaining < Pow2(|sol| - q) && value < Pow2(bits) && Xor(value, Eval(sol, q, remaining)) == goal
  }

  /** Taking one slot into the value leaves the rest to take. */
  lemma OneTerm(sol: seq<nat>, q: nat, c: nat, value: nat, goal: nat, bits: nat)
    requires ToTake(sol, q, c, value, goal, bits) && q < |sol| && AllBelow(sol, bits)
    ensures ToTake(sol, q + 1, Shr(c, 1), if c % 2 == 1 then Xor(value, sol[q]) else value, goal, bits)
  {
    HalfBelow(c, |sol| - q);
    EvalHead(sol, q, c);
    if c % 2 == 1 {
      XorAssoc(value, sol[q], Eval(sol, q + 1, c / 2));
      XorBound(value, sol[q], bits);
    }
  }

  lemma NothingToTake(sol: seq<nat>, q: nat, c: nat, value: nat, goal: nat, bits: nat)
    requires ToTake(sol, q, c, value, goal, bits)
    ensures value < Pow2(bits) && (c == 0 || q == |sol| ==> value == goal)
  {
    assert Pow2(0) == 1;
  }

  lemma FirstToTake(sol: seq<nat>, p: nat, pivot: nat, result: nat, bits: nat)
    requires p < |sol| && pivot < Pow2(|sol| - p) && result < Pow2(bits)
    ensures ToTake(sol, p + 1, Shr(pivot, 1), result, Xor(result, Eval(sol, p + 1, pivot / 2)), bits)
  {
    HalfBelow(pivot, |sol| - p);
  }

  /** The inner loop: the value slot `p` must take, given the slots above it. At 2^31 slots the bound is the least int,
      so the loop does not run. */
  method SlotValue(pivots: seq<nat>, results: seq<nat>, sol: seq<nat>, slots: Word32, bits: nat,
                   p: nat) returns (value: nat)
    requires PivotsFit(pivots, results, slots, bits) && |sol| == slots <= 0x8000_0000 && p < slots && pivots[p] != 0
    requires AllBelow(sol, bits)
    ensures value == if slots < 0x8000_0000 then Xor(results[p], Eval(sol, p + 1, pivots[p] / 2)) else results[p]
    ensures value < Pow2(bits)
  {
    assert pivots[p] < Pow2(slots - p) && results[p] < Pow2(bits);
    hide WrapInt, ToInt32, PivotsFit, ToTake;
    value := results[p];
    var remaining: nat, relative: nat := Shr(pivots[p], 1), 1;
    ghost var goal := Xor(value, Eval(sol, p + 1, pivots[p] / 2));
    FirstToTake(sol, p, pivots[p], value, bits);
    GuardIs(p + 1, slots);
    while remaining != 0 && WrapInt(p + relative) < ToInt32(slots)
      invariant slots == 0x8000_0000 ==> value == results[p]
      invariant p + relative <= slots && ToTake(sol, p + relative, remaining, value, goal, bits)
      invariant WrapInt(p + relative) < ToInt32(slots) <==> slots < 0x8000_0000 && p + relative < slots
      decreases slots - p - relative
    {
      OneTerm(sol, p + relative, remaining, value, goal, bits);
      GuardIs(p + relative + 1, slots);
      if remaining % 2 == 1 {
        value := Xor(value, sol[p + relative]);
      }
      remaining, relative := Shr(remaining, 1), relative + 1;
    }
    NothingToTake(sol, p + relative, remaining, value, goal, bits);
  }

  /** What back substitution leaves at 2^31 slots: each pivot's own result. */
  function PivotResults(pivots: seq<nat>, results: seq<nat>): seq<nat>
    requires |pivots| == |results|
  {
    seq(|pivots|, i requires 0 <= i < |pivots| => if pivots[i] == 0 then 0 else results[i])
  }

  /** Slots without a pivot keep 0. */
  ghost predicate FreeAreZero(sol: seq<nat>, pivots: seq<nat>) {
    |sol| == |pivots| && forall p :: 0 <= p < |sol| && pivots[p] == 0 ==> sol[p] == 0
  }

  /** The back-substitution loop. Its counter is a signed int: it starts at the last slot below 2^31 slots, below zero
      above 2^31 slots, and overflows at 2^31 slots. There it wraps to the last slot. */
  method BackSubstitute(pivots: seq<nat>, results: seq<nat>, slots: Word32, bits: nat) returns (sol: seq<nat>)
    requires PivotsFit(pivots, results, slots, bits)
    ensures |sol| == slots && AllBelow(sol, bits)
    ensures slots < 0x8000_0000 ==> SolvesPivots(sol, pivots, results) && FreeAreZero(sol, pivots)
    ensures slots == 0x8000_0000 ==> sol == PivotResults(pivots, results)
    ensures slots > 0x8000_0000 ==> sol == seq(slots, _ => 0)
  {
    sol := seq(slots, _ => 0);
    var position := WrapInt(ToInt32(slots) - 1);
    while position >= 0
      invariant -1 <= position < slots || slots > 0x8000_0000
      invariant slots > 0x8000_0000 ==> position < 0 && sol == seq(slots, _ => 0)
      invariant |sol| == slots && AllBelow(sol, bits) && FreeAreZero(sol, pivots)
      invariant slots < 0x8000_0000 ==> SolvedFrom(sol, pivots, results, position + 1)
      invariant slots == 0x8000_0000 ==> OwnResultsFrom(sol, pivots, results, position + 1)
    {
      if slots < 0x8000_0000 { SlotSolved(sol, pivots, results, slots, bits, position); }
      if pivots[position] != 0 {
        var value := SlotValue(pivots, results, sol, slots, bits, position);
        MaskIsLow(value, bits);
        LowSmall(value, bits);
        sol := sol[position := Mask(value, bits)];
      }
      position := position - 1;
    }
  }

  /** From slot `from` on, the solution is the pivots' own results; before it, still zero. */
  ghost predicate OwnResultsFrom(sol: seq<nat>, pivots: seq<nat>, results: seq<nat>, from: nat) {
    && |sol| == |pivots| == |results|
    && (forall q :: from <= q < |sol| ==> sol[q] == if pivots[q] == 0 then 0 else results[q])
    && (forall q :: 0 <= q < from && q < |sol| ==> sol[q] == 0)
  }

  lemma {:induction false} EvalZeros(slots: nat, p: nat, c: nat)
    ensures Eval(seq(slots, _ => 0), p, c) == 0
    decreases c
  {
    if c != 0 { EvalZeros(slots, p + 1, c / 2); }
  }

  /** Elimination and back substitution: the linear-algebra core of TryBuildRibbon.

      It succeeds exactly on consistent systems. The solution then satisfies every row below 2^31 slots. Above 2^31
      slots the signed counter skips back substitution, and a row is satisfied exactly when its result is 0. At 2^31
      slots the counter overflows; wrapping around, a row is satisfied exactly when the results of the pivots it
      touches add up to its own. */
  method SolveRows(rows: seq<Row>, slots: Word32, bits: nat) returns (ok: bool, sol: seq<nat>)
    requires forall i :: 0 <= i < |rows| ==> RowFits(rows[i], slots, bits)
    ensures ok <==> Consistent(rows, slots)
    ensures ok ==> |sol| == slots && AllBelow(sol, bits)
    ensures ok ==> forall i :: 0 <= i < |rows| && slots < 0x8000_0000 ==> Solves(sol, rows[i])
    ensures ok ==>
              forall i :: 0 <= i < |rows| && slots > 0x8000_0000 ==> (Solves(sol, rows[i]) <==> rows[i].result == 0)
    ensures ok && slots > 0x8000_0000 ==> sol == seq(slots, _ => 0)
    ensures ok && slots < 0x8000_0000 ==> BackSolved(rows, slots, bits, sol)
    ensures ok && slots == 0x8000_0000 ==> OwnResults(rows, slots, bits, sol)
  {
    var pivots, results;
    ok, pivots, results := Eliminate(rows, slots, bits);
    sol := [];
    if ok {
      sol := BackSubstitute(pivots, results, slots, bits);
      ghost var any := PivotsSolvable(pivots, results, slots, bits, slots);
      assert rows[..|rows|] == rows;
      assert SolvesPivots(any, pivots, results);
      assert SolvesRows(any, rows);
      forall i | 0 <= i < |rows| && slots > 0x8000_0000 ensures Solves(sol, rows[i]) <==> rows[i].result == 0 {
        EvalZeros(slots, rows[i].start, rows[i].coefficients);
      }
    }
  }

  /** The solution satisfies pivots equivalent to the rows, with 0 in all slots that have no pivot. */
  ghost predicate BackSolved(rows: seq<Row>, slots: nat, bits: nat, sol: seq<nat>) {
    exists pivots, results ::
      PivotsFit(pivots, results, slots, bits) && Equivalent(rows, |rows|, pivots, results, slots)
        && SolvesPivots(sol, pivots, results) && FreeAreZero(sol, pivots)
  }

  /** The solution holds the pivots' own results, for pivots equivalent to the rows. */
  ghost predicate OwnResults(rows: seq<Row>, slots: nat, bits: nat, sol: seq<nat>) {
    exists pivots, results ::
      PivotsFit(pivots, results, slots, bits) && Equivalent(rows, |rows|, pivots, results, slots)
        && sol == PivotResults(pivots, results)
  }
}
