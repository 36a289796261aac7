/**
 * The skip list of the memtable.
 *
 * A node is known by its key, which the list holds once; the links of one level are a map from
 * nodes to nodes. A key is its place in the comparator's order.
 */
module SkipLists {
  const MAX_HEIGHT: nat := 12

  datatype Ref = Head | Node(key: real) | Null

  type Links = map<Ref, Ref>

  // ----- One level: links and the sorted list they form -----

  ghost predicate Sorted(ks: seq<real>) {
    forall i, j :: 0 <= i < j < |ks| ==> ks[i] < ks[j]
  }

  /** The node at position i; Null past the end. */
  function RefAt(ks: seq<real>, i: nat): Ref {
    if i < |ks| then Node(ks[i]) else Null
  }

  /** The node before position i; the head before the first. */
  function RefBefore(ks: seq<real>, i: nat): Ref
    requires i <= |ks|
  {
    if i == 0 then Head else Node(ks[i - 1])
  }

  /** The links lead from the head through exactly these keys, in order. */
  ghost predicate Forms(m: Links, ks: seq<real>) {
    && Sorted(ks)
    && forall i :: 0 <= i <= |ks| ==> RefBefore(ks, i) in m && m[RefBefore(ks, i)] == RefAt(ks, i)
  }

  /** The number of keys below a key. */
  function Rank(ks: seq<real>, key: real): (i: nat)
    ensures i <= |ks| && (forall j :: 0 <= j < i ==> ks[j] < key)
    ensures i < |ks| ==> key <= ks[i]
  {
    if ks != [] && ks[0] < key then
      var i := Rank(ks[1..], key);
      assert forall j :: 0 <= j < |ks| - 1 ==> ks[1..][j] == ks[j + 1];
      assert forall j :: 0 < j < i + 1 ==> ks[j] == ks[1..][j - 1];
      i + 1
    else 0
  }

  lemma RankIs(ks: seq<real>, key: real, i: nat)
    requires Sorted(ks) && i <= |ks| && (forall j :: 0 <= j < i ==> ks[j] < key) && (i < |ks| ==> key <= ks[i])
    ensures Rank(ks, key) == i
  {
  }

  function Inserted(ks: seq<real>, key: real): seq<real> {
    ks[..Rank(ks, key)] + [key] + ks[Rank(ks, key)..]
  }

  lemma InsertedMeans(ks: seq<real>, key: real)
    requires Sorted(ks) && key !in ks
    ensures Sorted(Inserted(ks, key)) && forall x :: x in Inserted(ks, key) <==> x == key || x in ks
  {
    var r := Rank(ks, key);
    var more := Inserted(ks, key);
    assert forall j :: r <= j < |ks| ==> ks[j] != key && key <= ks[r] <= ks[j];
    assert ks == ks[..r] + ks[r..];
    forall x | x in ks ensures x in more {
      if x in ks[..r] {} else { assert x in ks[r..]; }
    }
  }

  // ----- The levels together -----

  ghost predicate Subset(a: seq<real>, b: seq<real>) {
    forall x :: x in a ==> x in b
  }

  /** Every level is a sorted list, and a sub-list of the level below. */
  ghost predicate Layered(next: seq<Links>, lists: seq<seq<real>>) {
    && |next| == |lists| == MAX_HEIGHT
    && (forall l :: 0 <= l < MAX_HEIGHT ==> Forms(next[l], lists[l]))
    && (forall l :: 0 <= l < MAX_HEIGHT - 1 ==> Subset(lists[l + 1], lists[l]))
  }

  // ----- A search in progress -----

  /** x is where a search for the target may stand at a level: every key up to it is below. */
  ghost predicate Standing(ks: seq<real>, x: Ref, target: real) {
    x == Head || (x.Node? && x.key in ks && x.key < target)
  }

  lemma StandingAt(ks: seq<real>, x: Ref, target: real) returns (i: nat)
    requires Sorted(ks) && Standing(ks, x, target)
    ensures i <= |ks| && x == RefBefore(ks, i) && i <= Rank(ks, target)
  {
    if x == Head {
      i := 0;
    } else {
      var j :| 0 <= j < |ks| && ks[j] == x.key;
      i := j + 1;
      assert Rank(ks, target) < |ks| ==> target <= ks[Rank(ks, target)];
    }
  }

  predicate KeyIsAfterNode(target: real, n: Ref) {
    n.Node? && n.key < target
  }

  /** What a load of the next node tells a search. */
  lemma LoadNext(m: Links, ks: seq<real>, x: Ref, target: real)
    requires Forms(m, ks) && Standing(ks, x, target)
    ensures x in m
    ensures KeyIsAfterNode(target, m[x]) ==> Standing(ks, m[x], target)
    ensures !KeyIsAfterNode(target, m[x]) ==> x == RefBefore(ks, Rank(ks, target)) && m[x] == RefAt(ks, Rank(ks, target))
  {
    var i := StandingAt(ks, x, target);
    assert RefBefore(ks, i) in m && m[RefBefore(ks, i)] == RefAt(ks, i);
    if i < |ks| { assert ks[i] in ks; }
  }

  /** A search that goes down a level stands there too. */
  lemma GoDown(upper: seq<real>, lower: seq<real>, x: Ref, target: real)
    requires Standing(upper, x, target) && Subset(upper, lower)
    ensures Standing(lower, x, target)
  {
  }

  // ----- Linking one node at one level -----

  /** The new node's own link is set first; no reader can reach it yet. */
  lemma OwnLink(m: Links, ks: seq<real>, key: real)
    requires Forms(m, ks) && key !in ks
    ensures var prev := RefBefore(ks, Rank(ks, key));
            prev in m && Forms(m[Node(key) := m[prev]], ks)
  {
    var r := Rank(ks, key);
    assert RefBefore(ks, r) in m;
    forall i | 0 <= i <= |ks| ensures RefBefore(ks, i) != Node(key) {
      if i > 0 { assert ks[i - 1] in ks; }
    }
  }

  lemma BeforesDiffer(ks: seq<real>, i: nat, j: nat)
    requires Sorted(ks) && i < j <= |ks|
    ensures RefBefore(ks, i) != RefBefore(ks, j)
  {
  }

  lemma {:induction false} LinkedAt(m: Links, ks: seq<real>, key: real, i: nat)
    requires Forms(m, ks) && key !in ks && Node(key) in m && i <= |ks| + 1
    requires m[Node(key)] == RefAt(ks, Rank(ks, key))
    ensures var m', more := m[RefBefore(ks, Rank(ks, key)) := Node(key)], Inserted(ks, key);
            RefBefore(more, i) in m' && m'[RefBefore(more, i)] == RefAt(more, i)
  {
    hide Rank;
    var r, more := Rank(ks, key), Inserted(ks, key);
    if i < r {
      BeforesDiffer(ks, i, r);
      assert RefBefore(more, i) == RefBefore(ks, i) && RefAt(more, i) == RefAt(ks, i);
    } else if i == r {
      assert RefBefore(more, r) == RefBefore(ks, r);
    } else if i == r + 1 {
      if r > 0 { assert ks[r - 1] in ks; }
      assert RefBefore(more, i) == Node(key) && RefAt(more, i) == RefAt(ks, r);
    } else {
      BeforesDiffer(ks, r, i - 1);
      assert RefBefore(more, i) == RefBefore(ks, i - 1) && RefAt(more, i) == RefAt(ks, i - 1);
    }
  }

  /** Then one store to the predecessor puts it in the list. */
  lemma LinkIn(m: Links, ks: seq<real>, key: real)
    requires Forms(m, ks) && key !in ks && Node(key) in m
    requires m[Node(key)] == RefAt(ks, Rank(ks, key))
    ensures Forms(m[RefBefore(ks, Rank(ks, key)) := Node(key)], Inserted(ks, key))
  {
    InsertedMeans(ks, key);
    forall i | 0 <= i <= |Inserted(ks, key)|
      ensures var m', more := m[RefBefore(ks, Rank(ks, key)) := Node(key)], Inserted(ks, key);
              RefBefore(more, i) in m' && m'[RefBefore(more, i)] == RefAt(more, i)
    {
      LinkedAt(m, ks, key, i);
    }
  }

  // ----- One writer, any number of readers -----

  /** Insert between two stores: the level it is at, and whether the node's own link there is set. */
  datatype Writer = Idle | Linking(key: real, height: nat, prev: seq<Ref>, level: nat, own: bool)

  /** A search between two loads; at the end, what it found. */
  datatype Reader = Reading(target: real, x: Ref, level: nat) | Done(target: real, found: Ref)

  /** `lists` is the list that the links of each level form. */
  datatype State = State(
    next: seq<Links>,
    maxHeight: nat,
    lists: seq<seq<real>>,
    writer: Writer,
    readers: map<nat, Reader>
  )

  datatype Step =
    | StartInsert(key: real, height: nat, prev: seq<Ref>)
    | SetOwnNext
    | LinkPrev
    | StartRead(id: nat, target: real)
    | Load(id: nat)

  /** The predecessors that the writer's own search found, and the head above the old height. */
  ghost predicate Predecessors(lists: seq<seq<real>>, key: real, height: nat, prev: seq<Ref>, from: nat) {
    && |lists| == MAX_HEIGHT && |prev| == height <= MAX_HEIGHT
    && forall l :: from <= l < height ==> prev[l] == RefBefore(lists[l], Rank(lists[l], key))
  }

  ghost predicate Next(s: State, s': State, step: Step) {
    match step
    case StartInsert(key, height, prev) =>
      && s.writer.Idle? && 1 <= height <= MAX_HEIGHT && |s.lists| == MAX_HEIGHT
      && key !in s.lists[0] && Predecessors(s.lists, key, height, prev, 0)
      && s' == s.(writer := Linking(key, height, prev, 0, false),
                  maxHeight := if height > s.maxHeight then height else s.maxHeight)
    case SetOwnNext =>
      && s.writer.Linking? && !s.writer.own
      && var w := s.writer;
         && w.level < |w.prev| && w.level < |s.next| && w.prev[w.level] in s.next[w.level]
         && var m := s.next[w.level];
            s' == s.(next := s.next[w.level := m[Node(w.key) := m[w.prev[w.level]]]], writer := w.(own := true))
    case LinkPrev =>
      && s.writer.Linking? && s.writer.own
      && var w := s.writer;
         && w.level < |w.prev| && w.level < |s.next| && w.level < |s.lists|
         && var m := s.next[w.level];
            s' == s.(next := s.next[w.level := m[w.prev[w.level] := Node(w.key)]],
                     lists := s.lists[w.level := Inserted(s.lists[w.level], w.key)],
                     writer := if w.level + 1 < w.height then w.(level := w.level + 1, own := false) else Idle)
    case StartRead(id, target) =>
      s.maxHeight > 0 && s' == s.(readers := s.readers[id := Reading(target, Head, s.maxHeight - 1)])
    case Load(id) =>
      && id in s.readers && s.readers[id].Reading?
      && var r := s.readers[id];
         && r.level < |s.next| && r.x in s.next[r.level]
         && s' == s.(readers := s.readers[id := AfterLoad(r, s.next[r.level][r.x])])
  }

  /** One turn of the search loop, given the node it loaded. */
  function AfterLoad(r: Reader, next: Ref): Reader
    requires r.Reading?
  {
    if KeyIsAfterNode(r.target, next) then r.(x := next)
    else if r.level == 0 then Done(r.target, next)
    else r.(level := r.level - 1)
  }

  // ----- What every interleaving keeps -----

  ghost predicate WriterRight(s: State)
    requires Layered(s.next, s.lists)
  {
    s.writer.Linking? ==>
      var w := s.writer;
      && w.level < w.height <= s.maxHeight && Predecessors(s.lists, w.key, w.height, w.prev, w.level)
      && (forall l :: 0 <= l < MAX_HEIGHT ==> (w.key in s.lists[l] <==> l < w.level))
      && (w.own ==> Node(w.key) in s.next[w.level]
                    && s.next[w.level][Node(w.key)] == RefAt(s.lists[w.level], Rank(s.lists[w.level], w.key)))
  }

  ghost predicate ReadersRight(s: State)
    requires Layered(s.next, s.lists)
  {
    forall id :: id in s.readers && s.readers[id].Reading? ==>
      s.readers[id].level < MAX_HEIGHT && Standing(s.lists[s.readers[id].level], s.readers[id].x, s.readers[id].target)
  }

  ghost predicate Inv(s: State) {
    && Layered(s.next, s.lists) && 1 <= s.maxHeight <= MAX_HEIGHT
    && WriterRight(s) && ReadersRight(s)
  }

  ghost predicate Init(s: State) {
    && |s.next| == |s.lists| == MAX_HEIGHT && s.maxHeight == 1 && s.writer.Idle? && s.readers == map[]
    && (forall l :: 0 <= l < MAX_HEIGHT ==> s.lists[l] == [] && s.next[l] == map[Head := Null])
  }

  lemma InitInv(s: State)
    requires Init(s)
    ensures Inv(s)
  {
  }

  lemma StartInsertInv(s: State, s': State, key: real, height: nat, prev: seq<Ref>)
    requires Inv(s) && Next(s, s', StartInsert(key, height, prev))
    ensures Inv(s')
  {
    hide Forms, Standing, Rank;
    forall l | 0 <= l < MAX_HEIGHT ensures key !in s.lists[l] { InBottom(s.lists, s.next, l, key); }
  }

  /** What is in any level is in the bottom one. */
  lemma {:induction false} InBottom(lists: seq<seq<real>>, next: seq<Links>, l: nat, key: real)
    requires Layered(next, lists) && l < MAX_HEIGHT
    ensures key in lists[l] ==> key in lists[0]
  {
    hide Forms;
    if l > 0 {
      assert Subset(lists[l - 1 + 1], lists[l - 1]);
      InBottom(lists, next, l - 1, key);
    }
  }

  lemma SetOwnNextInv(s: State, s': State)
    requires Inv(s) && Next(s, s', SetOwnNext)
    ensures Inv(s')
  {
    hide Standing, Rank;
    var w := s.writer;
    var m, ks := s.next[w.level], s.lists[w.level];
    OwnLink(m, ks, w.key);
    LinkOf(m, ks, Rank(ks, w.key));
    hide Forms;
  }

  lemma LinkOf(m: Links, ks: seq<real>, i: nat)
    requires Forms(m, ks) && i <= |ks|
    ensures RefBefore(ks, i) in m && m[RefBefore(ks, i)] == RefAt(ks, i)
  {
  }

  lemma LinkPrevInv(s: State, s': State)
    requires Inv(s) && Next(s, s', LinkPrev)
    ensures Inv(s')
  {
    hide Rank, Inserted, Forms;
    var w := s.writer;
    var ks := s.lists[w.level];
    assert Forms(s.next[w.level], ks);
    assert Sorted(ks) by { FormsSorted(s.next[w.level], ks); }
    LinkIn(s.next[w.level], ks, w.key);
    InsertedMeans(ks, w.key);
    forall l | 0 <= l < MAX_HEIGHT - 1 ensures Subset(s'.lists[l + 1], s'.lists[l]) {
      assert Subset(s.lists[l + 1], s.lists[l]);
    }
    forall id | id in s'.readers && s'.readers[id].Reading?
      ensures Standing(s'.lists[s'.readers[id].level], s'.readers[id].x, s'.readers[id].target)
    {
      assert Standing(s.lists[s.readers[id].level], s.readers[id].x, s.readers[id].target);
    }
  }

  lemma FormsSorted(m: Links, ks: seq<real>)
    requires Forms(m, ks)
    ensures Sorted(ks)
  {
  }

  lemma LoadInv(s: State, s': State, id: nat)
    requires Inv(s) && Next(s, s', Load(id))
    ensures Inv(s')
  {
    hide Rank, Forms;
    var r := s.readers[id];
    assert Standing(s.lists[r.level], r.x, r.target) && Forms(s.next[r.level], s.lists[r.level]);
    LoadNext(s.next[r.level], s.lists[r.level], r.x, r.target);
    if r.level > 0 {
      assert Subset(s.lists[r.level - 1 + 1], s.lists[r.level - 1]);
      GoDown(s.lists[r.level], s.lists[r.level - 1], r.x, r.target);
    }
    hide Standing;
  }

  lemma StartReadInv(s: State, s': State, id: nat, target: real)
    requires Inv(s) && Next(s, s', StartRead(id, target))
    ensures Inv(s')
  {
    hide Rank, Forms;
  }

  lemma StepInv(s: State, s': State, step: Step)
    requires Inv(s) && Next(s, s', step)
    ensures Inv(s')
  {
    hide Inv, Next;
    match step
    case StartInsert(key, height, prev) => StartInsertInv(s, s', key, height, prev);
    case SetOwnNext => SetOwnNextInv(s, s');
    case LinkPrev => LinkPrevInv(s, s');
    case StartRead(id, target) => StartReadInv(s, s', id, target);
    case Load(id) => LoadInv(s, s', id);
  }

  // ----- Runs -----

  ghost predicate Run(states: seq<State>, steps: seq<Step>) {
    && |states| == |steps| + 1 && Init(states[0])
    && forall i :: 0 <= i < |steps| ==> Next(states[i], states[i + 1], steps[i])
  }

  /** After every store of every interleaving, each level is a sorted sub-list of the one below. */
  lemma {:induction false} RunInv(states: seq<State>, steps: seq<Step>, i: nat)
    requires Run(states, steps) && i < |states|
    ensures Inv(states[i])
  {
    hide Inv, Next, Init;
    if i == 0 {
      InitInv(states[0]);
    } else {
      RunInv(states, steps, i - 1);
      assert Next(states[i - 1], states[i - 1 + 1], steps[i - 1]);
      StepInv(states[i - 1], states[i], steps[i - 1]);
    }
  }

  /** The node with the least key at or above the target. */
  ghost predicate IsLeast(ks: seq<real>, target: real, n: Ref) {
    if n == Null then forall k :: k in ks ==> k < target
    else n.Node? && n.key in ks && target <= n.key && forall k :: k in ks && target <= k ==> n.key <= k
  }

  /** A search that ends has found the least key at or above its target among those in the list
      at its last load, whatever was inserted while it ran. */
  lemma SearchFindsLeast(states: seq<State>, steps: seq<Step>, i: nat, id: nat)
    requires Run(states, steps) && i < |steps| && steps[i] == Load(id)
    requires id in states[i + 1].readers && states[i + 1].readers[id].Done?
    ensures Inv(states[i]) && id in states[i].readers
    ensures states[i + 1].readers[id].target == states[i].readers[id].target
    ensures IsLeast(states[i].lists[0], states[i + 1].readers[id].target, states[i + 1].readers[id].found)
  {
    RunInv(states, steps, i);
    var s, s' := states[i], states[i + 1];
    assert Next(s, s', steps[i]);
    hide Run, Rank, Forms;
    var r := s.readers[id];
    assert Standing(s.lists[r.level], r.x, r.target) && Forms(s.next[r.level], s.lists[r.level]);
    LoadNext(s.next[r.level], s.lists[r.level], r.x, r.target);
    FormsSorted(s.next[r.level], s.lists[r.level]);
    RankIsLeast(s.lists[0], r.target);
  }

  lemma RankIsLeast(ks: seq<real>, target: real)
    requires Sorted(ks)
    ensures IsLeast(ks, target, RefAt(ks, Rank(ks, target)))
  {
    var r := Rank(ks, target);
    forall k | k in ks ensures if r < |ks| then target <= k ==> ks[r] <= k else k < target {
      var j :| 0 <= j < |ks| && ks[j] == k;
    }
  }

  /** Keys are only ever added, so a search sees every key that was there when it began. */
  lemma {:induction false} KeysStay(states: seq<State>, steps: seq<Step>, i: nat, j: nat, key: real)
    requires Run(states, steps) && i <= j < |states| && |states[i].lists| == MAX_HEIGHT && key in states[i].lists[0]
    ensures |states[j].lists| == MAX_HEIGHT && key in states[j].lists[0]
    decreases j - i
  {
    if i < j {
      KeysStay(states, steps, i, j - 1, key);
      RunInv(states, steps, j - 1);
      var s, s' := states[j - 1], states[j];
      assert Next(states[j - 1], states[j - 1 + 1], steps[j - 1]);
      hide Run;
      if steps[j - 1].LinkPrev? && s.writer.level == 0 {
        FormsSorted(s.next[0], s.lists[0]);
        InsertedMeans(s.lists[0], s.writer.key);
      }
    }
  }

  // ----- The list as one thread uses it -----

  class SkipList {
    var next: seq<Links>
    var maxHeight: nat
    ghost var lists: seq<seq<real>>

    ghost predicate Valid()
      reads this
    {
      && Layered(next, lists) && 1 <= maxHeight <= MAX_HEIGHT
      && forall l :: maxHeight <= l < MAX_HEIGHT ==> lists[l] == []
    }

    constructor ()
      ensures Valid() && lists[0] == []
    {
      next := seq(MAX_HEIGHT, l => map[Head := Null]);
      maxHeight := 1;
      lists := seq(MAX_HEIGHT, l => []);
    }

    /** The first node at or after the key, and the node before it at each level in use. */
    method FindGreaterOrEqual(key: real) returns (found: Ref, prev: seq<Ref>)
      requires Valid()
      ensures IsLeast(lists[0], key, found)
      ensures Predecessors(lists, key, maxHeight, prev, 0)
    {
      hide Rank, Forms;
      var x := Head;
      var level := maxHeight - 1;
      prev := seq(maxHeight, l => Head);
      while true
        invariant 0 <= level < maxHeight == |prev| && Standing(lists[level], x, key)
        invariant forall l :: level < l < maxHeight ==> prev[l] == RefBefore(lists[l], Rank(lists[l], key))
        decreases level, |lists[level]| - Passed(lists[level], x)
      {
        assert Forms(next[level], lists[level]);
        LoadNext(next[level], lists[level], x, key);
        var n := next[level][x];
        if KeyIsAfterNode(key, n) {
          Advances(next[level], lists[level], x, key);
          x := n;
        } else {
          prev := prev[level := x];
          if level == 0 {
            FormsSorted(next[0], lists[0]);
            RankIsLeast(lists[0], key);
            return n, prev;
          }
          assert Subset(lists[level - 1 + 1], lists[level - 1]);
          GoDown(lists[level], lists[level - 1], x, key);
          level := level - 1;
        }
      }
    }

    /** The last node before the key; the head if there is none. */
    method FindLessThan(key: real) returns (found: Ref)
      requires Valid()
      ensures found == RefBefore(lists[0], Rank(lists[0], key))
    {
      hide Rank, Forms;
      var x := Head;
      var level := maxHeight - 1;
      while true
        invariant 0 <= level < maxHeight && Standing(lists[level], x, key)
        decreases level, |lists[level]| - Passed(lists[level], x)
      {
        assert Forms(next[level], lists[level]);
        LoadNext(next[level], lists[level], x, key);
        var n := next[level][x];
        if n == Null || n.Head? || n.key >= key {
          if level == 0 {
            return x;
          }
          assert Subset(lists[level - 1 + 1], lists[level - 1]);
          GoDown(lists[level], lists[level - 1], x, key);
          level := level - 1;
        } else {
          Advances(next[level], lists[level], x, key);
          x := n;
        }
      }
    }

    /** The last node; the head if the list is empty. */
    method FindLast() returns (found: Ref)
      requires Valid()
      ensures found == RefBefore(lists[0], |lists[0]|)
    {
      hide Rank, Forms;
      ghost var top := AboveAll(lists[0]);
      forall l, k | 0 <= l < MAX_HEIGHT && k in lists[l] ensures k < top { InBottom(lists, next, l, k); }
      var x := Head;
      var level := maxHeight - 1;
      while true
        invariant 0 <= level < maxHeight && Standing(lists[level], x, top)
        decreases level, |lists[level]| - Passed(lists[level], x)
      {
        assert Forms(next[level], lists[level]);
        LoadNext(next[level], lists[level], x, top);
        var n := next[level][x];
        FormsSorted(next[level], lists[level]);
        RankOfTop(lists[level], top);
        if n == Null {
          if level == 0 {
            return x;
          }
          assert Subset(lists[level - 1 + 1], lists[level - 1]);
          GoDown(lists[level], lists[level - 1], x, top);
          level := level - 1;
        } else {
          Advances(next[level], lists[level], x, top);
          x := n;
        }
      }
    }

    method Contains(key: real) returns (r: bool)
      requires Valid()
      ensures r <==> key in lists[0]
    {
      var x, _ := FindGreaterOrEqual(key);
      r := x.Node? && x.key == key;
    }

    /** Link a new node in, from the bottom level up. */
    method Insert(key: real, height: nat)
      requires Valid() && key !in lists[0] && 1 <= height <= MAX_HEIGHT
      modifies this
      ensures Valid()
      ensures forall l :: 0 <= l < MAX_HEIGHT ==> lists[l] == if l < height then old(Inserted(lists[l], key)) else old(lists[l])
    {
      hide Rank, Forms, Inserted;
      var _, prev := FindGreaterOrEqual(key);
      forall l | 0 <= l < MAX_HEIGHT ensures key !in lists[l] { InBottom(lists, next, l, key); }
      ghost var before := lists;
      prev := ExtendToHeight(prev, height, key);
      if height > maxHeight {
        maxHeight := height;
      }
      for i := 0 to height
        invariant Layered(next, lists) && maxHeight == (if height > old(maxHeight) then height else old(maxHeight))
        invariant forall l :: 0 <= l < MAX_HEIGHT ==> lists[l] == if l < i then Inserted(before[l], key) else before[l]
        invariant forall l :: i <= l < MAX_HEIGHT ==> key !in lists[l]
        invariant forall l :: 0 <= l < i ==> key in lists[l]
        invariant Predecessors(lists, key, height, prev, i)
      {
        assert Forms(next[i], lists[i]);
        OwnLink(next[i], lists[i], key);
        LinkOf(next[i], lists[i], Rank(lists[i], key));
        next := next[i := next[i][Node(key) := next[i][prev[i]]]];
        LinkIn(next[i], lists[i], key);
        FormsSorted(next[i], lists[i]);
        InsertedMeans(lists[i], key);
        ghost var was := lists;
        next := next[i := next[i][prev[i] := Node(key)]];
        lists := lists[i := Inserted(lists[i], key)];
        forall l | 0 <= l < MAX_HEIGHT - 1 ensures Subset(lists[l + 1], lists[l]) {
          assert Subset(was[l + 1], was[l]);
        }
      }
    }

    /** The head is the predecessor at levels not yet in use. */
    method ExtendToHeight(prev: seq<Ref>, height: nat, ghost key: real) returns (r: seq<Ref>)
      requires Valid() && height <= MAX_HEIGHT && Predecessors(lists, key, maxHeight, prev, 0)
      ensures Predecessors(lists, key, height, r, 0)
    {
      r := prev;
      if height > maxHeight {
        for i := maxHeight to height
          invariant |r| == i && forall l :: 0 <= l < i ==> r[l] == RefBefore(lists[l], Rank(lists[l], key))
        {
          r := r + [Head];
        }
      } else {
        r := prev[..height];
      }
    }
  }

  ghost function AboveAll(ks: seq<real>): (t: real)
    ensures forall k :: k in ks ==> k < t
  {
    if ks == [] then 0.0
    else
      var t := AboveAll(ks[1..]);
      assert forall k :: k in ks ==> k == ks[0] || k in ks[1..];
      if ks[0] < t then t else ks[0] + 1.0
  }

  lemma RankOfTop(ks: seq<real>, top: real)
    requires Sorted(ks) && forall k :: k in ks ==> k < top
    ensures Rank(ks, top) == |ks|
  {
    assert forall j :: 0 <= j < |ks| ==> ks[j] in ks;
    RankIs(ks, top, |ks|);
  }

  /** How many keys a search has passed. */
  ghost function Passed(ks: seq<real>, x: Ref): nat {
    if x.Node? && exists i :: 0 <= i < |ks| && ks[i] == x.key then
      var i :| 0 <= i < |ks| && ks[i] == x.key;
      i + 1
    else 0
  }

  lemma Advances(m: Links, ks: seq<real>, x: Ref, target: real)
    requires Forms(m, ks) && Standing(ks, x, target) && x in m && KeyIsAfterNode(target, m[x])
    ensures Passed(ks, x) < Passed(ks, m[x]) <= |ks|
  {
    var i := StandingAt(ks, x, target);
    assert m[RefBefore(ks, i)] == RefAt(ks, i);
  }
}
