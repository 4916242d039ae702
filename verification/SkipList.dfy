/** The memtable's skip list: one writer inserts while any number of readers search without locks.

    Every atomic load and store is one step. `levels` names the set of keys linked at each level; the invariant says the
    links spell out exactly these sets, in order. */
module SkipList {
  import opened Wrappers

  const MAX_HEIGHT := 12

  datatype Loc = Head | Node(key: int) {
    predicate Before(k: int) { Head? || key < k }
  }

  /** `links` holds the links that have been set. */
  datatype List = List(links: map<(Loc, nat), Option<int>>, levels: seq<set<int>>, maxHeight: nat)

  predicate In(level: set<int>, x: Loc) { x.Head? || x.key in level }

  /** `r` is the first key of the level after `x`. */
  predicate IsNext(level: set<int>, x: Loc, r: Option<int>) {
    match r
    case None => forall k :: k in level ==> !x.Before(k)
    case Some(n) => n in level && x.Before(n) && forall k :: k in level && x.Before(k) ==> n <= k
  }

  ghost predicate Linked(links: map<(Loc, nat), Option<int>>, level: set<int>, i: nat) {
    forall x :: In(level, x) ==> (x, i) in links && IsNext(level, x, links[(x, i)])
  }

  /** Every level is a sorted list and a sublist of the one below. */
  ghost predicate WellLinked(l: List) {
    && |l.levels| == MAX_HEIGHT && 1 <= l.maxHeight <= MAX_HEIGHT
    && (forall i :: 0 <= i < MAX_HEIGHT ==> Linked(l.links, l.levels[i], i))
    && (forall i, j :: 0 <= i < j < MAX_HEIGHT ==> l.levels[j] <= l.levels[i])
    && (forall i :: l.maxHeight <= i < MAX_HEIGHT ==> l.levels[i] == {})
  }

  /** The keys met by following links. */
  ghost function Walk(links: map<(Loc, nat), Option<int>>, i: nat, x: Loc, steps: nat): seq<int>
    decreases steps
  {
    if steps == 0 || (x, i) !in links || links[(x, i)].None? then []
    else [links[(x, i)].value] + Walk(links, i, Node(links[(x, i)].value), steps - 1)
  }

  ghost function After(level: set<int>, x: Loc): set<int> { set k | k in level && x.Before(k) }

  /** Following the links of a level visits its keys, all of them ... */
  lemma {:induction false} WalkIsLevel(links: map<(Loc, nat), Option<int>>, level: set<int>, i: nat, x: Loc, steps: nat)
    requires Linked(links, level, i) && In(level, x) && steps >= |After(level, x)|
    ensures forall k :: k in Walk(links, i, x, steps) <==> k in After(level, x)
    decreases steps
  {
    var r := links[(x, i)];
    if r.Some? {
      var y := Node(r.value);
      assert After(level, x) == After(level, y) + {r.value};
      WalkIsLevel(links, level, i, y, steps - 1);
    } else {
      assert After(level, x) == {};
    }
  }

  /** ... in ascending order. */
  lemma {:induction false} WalkAscends(links: map<(Loc, nat), Option<int>>, level: set<int>, i: nat, x: Loc, steps: nat,
                                       a: nat, b: nat)
    requires Linked(links, level, i) && In(level, x) && a < b < |Walk(links, i, x, steps)|
    ensures x.Before(Walk(links, i, x, steps)[a]) && Walk(links, i, x, steps)[a] < Walk(links, i, x, steps)[b]
    decreases steps
  {
    var y := Node(links[(x, i)].value);
    if b == 1 {
      assert Walk(links, i, y, steps - 1)[0] == links[(y, i)].value;
    } else {
      WalkAscends(links, level, i, y, steps - 1, if a > 0 then a - 1 else 0, b - 1);
    }
  }

  /** What a search looks for. */
  datatype Goal = AtLeast(key: int) | LessThan(key: int) | Last {
    /** The search moves on to `next`. */
    predicate Passes(next: Option<int>) { next.Some? && (Last? || next.value < this.key) }

    predicate Behind(x: Loc) { x.Head? || Last? || x.key < this.key }
  }

  datatype Reader = Searching(goal: Goal, x: Loc, level: nat) | Done(goal: Goal, x: Loc, next: Option<int>)

  datatype Writer =
    | Idle
    | Finding(key: int, x: Loc, level: nat, prev: map<nat, Loc>)
    | Raising(key: int, prev: map<nat, Loc>)
    | Linking(key: int, height: nat, prev: map<nat, Loc>, i: nat, half: bool)

  datatype State = State(list: List, writer: Writer, readers: map<nat, Reader>)

  /** The last node of the level before `key`. */
  predicate IsPrevious(level: set<int>, p: Loc, key: int) {
    && In(level, p) && p.Before(key)
    && forall k :: k in level && k < key ==> !p.Before(k)
  }

  ghost predicate ReaderOk(l: List, r: Reader) {
    r.Searching? ==>
      r.level < MAX_HEIGHT && |l.levels| == MAX_HEIGHT && In(l.levels[r.level], r.x) && r.goal.Behind(r.x)
  }

  ghost predicate PrevsOk(l: List, key: int, prev: map<nat, Loc>, from: nat, to: nat)
    requires |l.levels| == MAX_HEIGHT && to <= MAX_HEIGHT
  {
    forall j :: from <= j < to ==> j in prev && IsPrevious(l.levels[j], prev[j], key) && key !in l.levels[j]
  }

  ghost predicate WriterOk(l: List, w: Writer)
    requires |l.levels| == MAX_HEIGHT && l.maxHeight <= MAX_HEIGHT
  {
    match w
    case Idle => true
    case Finding(key, x, level, prev) =>
      level < l.maxHeight && In(l.levels[level], x) && x.Before(key) && key !in l.levels[0]
        && PrevsOk(l, key, prev, level + 1, l.maxHeight)
    case Raising(key, prev) =>
      key !in l.levels[0] && PrevsOk(l, key, prev, 0, l.maxHeight)
    case Linking(key, height, prev, i, half) =>
      && 1 <= height <= l.maxHeight && i <= height && PrevsOk(l, key, prev, i, height)
      && (forall j :: 0 <= j < i ==> key in l.levels[j]) && (forall j :: i <= j < MAX_HEIGHT ==> key !in l.levels[j])
      && (half ==> i < height && (Node(key), i) in l.links && IsNext(l.levels[i], Node(key), l.links[(Node(key), i)]))
  }

  ghost predicate Inv(s: State) {
    && WellLinked(s.list) && WriterOk(s.list, s.writer)
    && forall id :: id in s.readers ==> ReaderOk(s.list, s.readers[id])
  }

  datatype Step =
    | StartRead(id: nat, goal: Goal)
    | Load(rid: nat)
    | StartInsert(key: int)
    | Find
    | Raise(height: nat)
    | SetOwnLink
    | Publish
    | Finish

  function Init(): State {
    State(List(map i: nat | i < MAX_HEIGHT :: (Head, i) := None, seq(MAX_HEIGHT, _ => {}), 1), Idle, map[])
  }

  lemma InitInv()
    ensures Inv(Init())
  {
    forall i | 0 <= i < MAX_HEIGHT ensures Linked(Init().list.links, {}, i) {
      assert (Head, i) in Init().list.links;
    }
  }

  /** One load of a search. Loading a link that was never set has no successor state. */
  function SearchStep(l: List, r: Reader): Option<Reader>
    requires r.Searching?
  {
    if (r.x, r.level) !in l.links then None
    else
      var next := l.links[(r.x, r.level)];
      if r.goal.Passes(next) then Some(Searching(r.goal, Node(next.value), r.level))
      else if r.level == 0 then Some(Done(r.goal, r.x, next))
      else Some(Searching(r.goal, r.x, r.level - 1))
  }

  function WithPrev(prev: map<nat, Loc>, level: nat, x: Loc): map<nat, Loc> { prev[level := x] }

  /** prev[i] for the levels the list did not have yet. */
  function FillHead(prev: map<nat, Loc>, from: nat, to: nat): map<nat, Loc> {
    map i: nat | i < MAX_HEIGHT && (i in prev || from <= i < to) :: if from <= i < to then Head else prev[i]
  }

  function SetLink(l: List, x: Loc, i: nat, r: Option<int>): List { l.(links := l.links[(x, i) := r]) }

  /** prev[i]->SetNext(i, x): from this store on the key belongs to level `i`. */
  function Published(l: List, key: int, p: Loc, i: nat): List
    requires i < |l.levels|
  {
    SetLink(l, p, i, Some(key)).(levels := l.levels[i := l.levels[i] + {key}])
  }

  ghost predicate Next(s: State, step: Step, t: State) {
    match step
    case StartRead(id, goal) =>
      1 <= s.list.maxHeight && t == s.(readers := s.readers[id := Searching(goal, Head, s.list.maxHeight - 1)])
    case Load(id) =>
      && id in s.readers && s.readers[id].Searching?
      && var r := SearchStep(s.list, s.readers[id]); r.Some? && t == s.(readers := s.readers[id := r.value])
    case StartInsert(key) =>
      && s.writer.Idle? && 1 <= s.list.maxHeight && |s.list.levels| > 0 && key !in s.list.levels[0]
      && t == s.(writer := Finding(key, Head, s.list.maxHeight - 1, map[]))
    case Find =>
      && s.writer.Finding? && (s.writer.x, s.writer.level) in s.list.links
      && var w := s.writer;
         var next := s.list.links[(w.x, w.level)];
         if next.Some? && next.value < w.key then t == s.(writer := w.(x := Node(next.value)))
         else if w.level > 0 then t == s.(writer := w.(level := w.level - 1, prev := WithPrev(w.prev, w.level, w.x)))
         else t == s.(writer := Raising(w.key, WithPrev(w.prev, 0, w.x)))
    case Raise(height) =>
      && s.writer.Raising? && 1 <= height <= MAX_HEIGHT
      && var w := s.writer;
         if height > s.list.maxHeight
         then t == s.(list := s.list.(maxHeight := height),
                      writer := Linking(w.key, height, FillHead(w.prev, s.list.maxHeight, height), 0, false))
         else t == s.(writer := Linking(w.key, height, w.prev, 0, false))
    case SetOwnLink =>
      && s.writer.Linking? && !s.writer.half && s.writer.i < s.writer.height && s.writer.i in s.writer.prev
      && var w := s.writer;
         && (w.prev[w.i], w.i) in s.list.links
         && t == s.(list := SetLink(s.list, Node(w.key), w.i, s.list.links[(w.prev[w.i], w.i)]),
                    writer := w.(half := true))
    case Publish =>
      && s.writer.Linking? && s.writer.half && s.writer.i in s.writer.prev && s.writer.i < |s.list.levels|
      && var w := s.writer;
         t == s.(list := Published(s.list, w.key, w.prev[w.i], w.i), writer := w.(i := w.i + 1, half := false))
    case Finish =>
      s.writer.Linking? && !s.writer.half && s.writer.i == s.writer.height && t == s.(writer := Idle)
  }

  /** A search never meets an unset link. */
  lemma LoadIsSet(s: State, id: nat)
    requires Inv(s) && id in s.readers && s.readers[id].Searching?
    ensures SearchStep(s.list, s.readers[id]).Some?
  {
    var r := s.readers[id];
    assert ReaderOk(s.list, r);
    assert Linked(s.list.links, s.list.levels[r.level], r.level);
  }

  lemma LoadKeeps(l: List, r: Reader)
    requires WellLinked(l) && ReaderOk(l, r) && r.Searching? && SearchStep(l, r).Some?
    ensures ReaderOk(l, SearchStep(l, r).value)
  {
    assert Linked(l.links, l.levels[r.level], r.level);
    assert r.level > 0 ==> l.levels[r.level] <= l.levels[r.level - 1];
  }

  /** The links and levels only ever gain keys; a search keeps its footing. */
  ghost predicate Grows(l: List, m: List) {
    |l.levels| == MAX_HEIGHT == |m.levels| && forall i :: 0 <= i < MAX_HEIGHT ==> l.levels[i] <= m.levels[i]
  }

  lemma ReadersKeep(l: List, m: List, r: Reader)
    requires Grows(l, m) && ReaderOk(l, r)
    ensures ReaderOk(m, r)
  {
  }

  lemma FindKeeps(s: State, t: State)
    requires Inv(s) && Next(s, Find, t)
    ensures WriterOk(t.list, t.writer)
  {
    var w, l := s.writer, s.list;
    assert Linked(l.links, l.levels[w.level], w.level);
    assert w.level > 0 ==> l.levels[w.level] <= l.levels[w.level - 1];
    assert l.levels[w.level] <= l.levels[0];
    var next := l.links[(w.x, w.level)];
    if !(next.Some? && next.value < w.key) {
      assert IsPrevious(l.levels[w.level], w.x, w.key);
    }
  }

  lemma RaiseKeeps(s: State, height: nat, t: State)
    requires Inv(s) && Next(s, Raise(height), t)
    ensures WellLinked(t.list) && WriterOk(t.list, t.writer)
  {
    var l := s.list;
    forall j | 0 <= j < MAX_HEIGHT ensures s.writer.key !in l.levels[j] {
      assert j > 0 ==> l.levels[j] <= l.levels[0];
    }
  }

  /** Writing the links of a node that is not yet in the level changes nothing a reader can reach. */
  lemma OwnLinkKeeps(s: State, t: State)
    requires Inv(s) && Next(s, SetOwnLink, t)
    ensures WellLinked(t.list) && WriterOk(t.list, t.writer)
  {
    var w, l := s.writer, s.list;
    var p := w.prev[w.i];
    assert IsPrevious(l.levels[w.i], p, w.key) && w.key !in l.levels[w.i];
    assert Linked(l.links, l.levels[w.i], w.i);
    forall i | 0 <= i < MAX_HEIGHT ensures Linked(t.list.links, t.list.levels[i], i) {
      assert Linked(l.links, l.levels[i], i);
    }
  }

  /** The links of level `i` after publishing. */
  lemma PublishLinks(l: List, key: int, p: Loc, i: nat)
    requires i < |l.levels| && Linked(l.links, l.levels[i], i) && IsPrevious(l.levels[i], p, key) && key !in l.levels[i]
    requires (Node(key), i) in l.links && IsNext(l.levels[i], Node(key), l.links[(Node(key), i)])
    ensures Linked(Published(l, key, p, i).links, l.levels[i] + {key}, i)
  {
    var level := l.levels[i] + {key};
    var m := Published(l, key, p, i);
    forall x | In(level, x) ensures (x, i) in m.links && IsNext(level, x, m.links[(x, i)]) {
      if x != p && x != Node(key) {
        assert In(l.levels[i], x) && IsNext(l.levels[i], x, l.links[(x, i)]);
        assert p.Node? && x.Before(p.key) ==> l.links[(x, i)].Some?;
      }
    }
  }

  lemma PublishKeeps(s: State, t: State)
    requires Inv(s) && Next(s, Publish, t)
    ensures WellLinked(t.list) && WriterOk(t.list, t.writer) && Grows(s.list, t.list)
  {
    var w, l := s.writer, s.list;
    PublishLinks(l, w.key, w.prev[w.i], w.i);
    forall i | 0 <= i < MAX_HEIGHT ensures Linked(t.list.links, t.list.levels[i], i) {
      assert Linked(l.links, l.levels[i], i);
    }
  }

  /** A store keeps the invariant if it keeps the list and the writer; searches keep their footing in a list that only
      grows. */
  lemma StoreKeepsInv(s: State, t: State)
    requires Inv(s) && WellLinked(t.list) && WriterOk(t.list, t.writer) && Grows(s.list, t.list)
    requires t.readers == s.readers
    ensures Inv(t)
  {
    hide WellLinked, WriterOk, Grows;
    forall id | id in t.readers ensures ReaderOk(t.list, t.readers[id]) {
      ReadersKeep(s.list, t.list, s.readers[id]);
    }
  }

  lemma StepKeepsInv(s: State, step: Step, t: State)
    requires Inv(s) && Next(s, step, t)
    ensures Inv(t) && Grows(s.list, t.list)
  {
    match step
    case StartRead(_, _) =>
    case Load(id) =>
      LoadKeeps(s.list, s.readers[id]);
    case StartInsert(_) =>
    case Find =>
      FindKeeps(s, t);
    case Raise(height) =>
      RaiseKeeps(s, height, t);
      StoreKeepsInv(s, t);
    case SetOwnLink =>
      OwnLinkKeeps(s, t);
      StoreKeepsInv(s, t);
    case Publish =>
      PublishKeeps(s, t);
      StoreKeepsInv(s, t);
    case Finish =>
  }

  /** What a finished search must have found in the level-0 list `level`. */
  predicate Answers(level: set<int>, goal: Goal, x: Loc, next: Option<int>) {
    match goal
    case AtLeast(key) =>
      match next { case None => forall k :: k in level ==> k < key
                   case Some(n) => n in level && n >= key && forall k :: k in level && k >= key ==> n <= k }
    case LessThan(key) => IsPrevious(level, x, key)
    case Last => In(level, x) && forall k :: k in level ==> !x.Before(k)
  }

  /** The last load of a search is where it takes effect: the answer is exact for the level-0 list of that moment. */
  lemma SearchLinearises(s: State, id: nat, t: State)
    requires Inv(s) && Next(s, Load(id), t) && t.readers[id].Done?
    ensures Answers(s.list.levels[0], t.readers[id].goal, t.readers[id].x, t.readers[id].next)
  {
    var r := s.readers[id];
    assert ReaderOk(s.list, r) && r.level == 0;
    assert Linked(s.list.links, s.list.levels[0], 0);
    assert IsNext(s.list.levels[0], r.x, s.list.links[(r.x, 0)]);
  }

  ghost predicate Run(states: seq<State>, steps: seq<Step>) {
    && |states| == |steps| + 1 && states[0] == Init()
    && forall i :: 0 <= i < |steps| ==> Next(states[i], steps[i], states[i + 1])
  }

  lemma {:induction false} RunKeepsInv(states: seq<State>, steps: seq<Step>, n: nat)
    requires Run(states, steps) && n < |states|
    ensures Inv(states[n])
  {
    hide Inv, Next;
    if n == 0 {
      InitInv();
    } else {
      RunKeepsInv(states, steps, n - 1);
      StepKeepsInv(states[n - 1], steps[n - 1], states[n]);
    }
  }

  lemma GrowsRefl(s: State)
    requires Inv(s)
    ensures Grows(s.list, s.list)
  {
  }

  lemma {:induction false} RunGrows(states: seq<State>, steps: seq<Step>, m: nat, n: nat)
    requires Run(states, steps) && m <= n < |states|
    ensures Grows(states[m].list, states[n].list)
    decreases n - m
  {
    hide Inv, Next;
    RunKeepsInv(states, steps, n);
    GrowsRefl(states[n]);
    if m < n {
      RunGrows(states, steps, m, n - 1);
      RunKeepsInv(states, steps, n - 1);
      StepKeepsInv(states[n - 1], steps[n - 1], states[n]);
    }
  }

  /** Over every run and interleaving: a search that ends in step `n` answers exactly for the keys linked at its last
      load, and these include every key linked at any earlier moment `m`, such as the start of the search. */
  lemma SearchesLinearise(states: seq<State>, steps: seq<Step>, m: nat, n: nat, id: nat)
    requires Run(states, steps) && m <= n < |steps| && steps[n] == Load(id) && states[n + 1].readers[id].Done?
    ensures |states[m].list.levels| == |states[n].list.levels| == MAX_HEIGHT
    ensures var r := states[n + 1].readers[id];
            Answers(states[n].list.levels[0], r.goal, r.x, r.next)
    ensures states[m].list.levels[0] <= states[n].list.levels[0]
  {
    RunKeepsInv(states, steps, n);
    RunGrows(states, steps, m, n);
    assert Next(states[n], steps[n], states[n + 1]);
    SearchLinearises(states[n], id, states[n + 1]);
  }

  /** Insert takes effect when it publishes the node at level 0, and at no other step. */
  lemma InsertTakesEffectOnce(s: State, step: Step, t: State)
    requires Inv(s) && Next(s, step, t)
    ensures t.list.levels[0] == if step == Publish && s.writer.i == 0 then s.list.levels[0] + {s.writer.key}
              else s.list.levels[0]
    ensures step == Finish ==> s.writer.key in t.list.levels[0]
  {
  }
}
