/** The call tree of the flame-graph converter and the per-thread stack that
    rebuilds it from intervals (`StackItem`, `EventItem` and `ThreadStack` in
    src/converters/flamegraph_converter.rs).

    The tree is an arena of stack items keyed by their label path: the handle
    of a node is the sequence of labels from the root down to it. The root's
    handle is `[]`, the parent of a node is its handle without the last label,
    and the children of `p` are the handles `p + [l]` present in the arena, so
    a node has at most one child per label. */
module FlamegraphTree {
  import opened Prelude

  type Path = seq<string>

  /** `StackItem` without its `parent` and `children` fields, which the key
      of the arena encodes. */
  datatype StackItem = StackItem(name: string, duration: nat, lastStart: nat, lastStop: nat)

  /** One accepted event: a labelled interval on one thread. */
  datatype EventItem = EventItem(name: string, threadId: nat, startTs: nat, stopTs: nat)

  type Tree = map<Path, StackItem>

  /** The interval is well formed: it fits in a `u64` and does not end before it starts. */
  predicate ValidItem(item: EventItem) {
    item.startTs <= item.stopTs <= U64_MAX
  }

  /** `stop_ts - start_ts`. */
  function Length(item: EventItem): nat
    requires ValidItem(item)
  {
    item.stopTs - item.startTs
  }

  function Parent(p: Path): (q: Path)
    requires p != []
    ensures q < p && |q| == |p| - 1
  {
    p[..|p| - 1]
  }

  /** The label a node at handle `p` carries: the root's is empty. */
  function LastLabel(p: Path): string {
    if p == [] then "" else p[|p| - 1]
  }

  /** `StackItem::new`: no duration yet, last range `[start, stop]`. */
  function NewItem(name: string, start: nat, stop: nat): (s: StackItem)
    ensures s.name == name && s.duration == 0
    ensures s.lastStart == start && s.lastStop == stop
  {
    StackItem(name, 0, start, stop)
  }

  /** `StackItem::new_root`: empty label and the range `[0, u64::MAX]`. */
  function NewRoot(): (s: StackItem)
    ensures s.name == "" && s.duration == 0
    ensures s.lastStart == 0 && s.lastStop == U64_MAX
  {
    NewItem("", 0, U64_MAX)
  }

  /** `StackItem::update_last_range`: adds the interval's length to the
      duration and makes the interval the item's last range. */
  function UpdateLastRange(s: StackItem, start: nat, stop: nat): (r: StackItem)
    requires start <= stop
    ensures r.name == s.name
    ensures r.duration == s.duration + (stop - start) && r.duration >= s.duration
    ensures r.lastStart == start && r.lastStop == stop
  {
    s.(duration := s.duration + (stop - start), lastStart := start, lastStop := stop)
  }

  /** The containment test of `ThreadStack::is_parent_of`. */
  predicate Encloses(s: StackItem, item: EventItem) {
    s.lastStart <= item.startTs && s.lastStop >= item.stopTs
  }

  /** Every prefix of a handle is a handle: each node's parent is in the tree. */
  ghost predicate PrefixClosed(t: Tree) {
    forall p, k :: p in t && 0 <= k <= |p| ==> p[..k] in t
  }

  /** Storing a node one level below an existing node keeps the tree prefix closed. */
  lemma AddChildKeepsPrefixClosed(t: Tree, parent: Path, name: string, s: StackItem)
    requires PrefixClosed(t) && parent in t
    ensures PrefixClosed(t[parent + [name] := s])
  {
    var child := parent + [name];
    forall p, k | p in t[child := s] && 0 <= k <= |p|
      ensures p[..k] in t[child := s]
    {
      if p == child {
        if k <= |parent| {
          assert p[..k] == parent[..k];
        } else {
          assert p[..k] == child;
        }
      }
    }
  }

  /** The invariant of every call tree: the root is `new_root()`, every prefix
      of a handle is a handle, each node carries the last label of its handle,
      and every last range is a `u64` range. */
  ghost predicate ValidTree(t: Tree) {
    && [] in t && t[[]] == NewRoot()
    && PrefixClosed(t)
    && (forall p :: p in t ==> t[p].name == LastLabel(p))
    && (forall p :: p in t ==> t[p].lastStart <= t[p].lastStop <= U64_MAX)
  }

  /** The duration recorded at a label path; 0 where the tree has no node. */
  function Weight(t: Tree, p: Path): nat {
    if p in t then t[p].duration else 0
  }

  /** A tree together with the cursor of `ThreadStack` (`current_item`). */
  datatype ThreadState = ThreadState(nodes: Tree, current: Path)

  ghost predicate ValidState(st: ThreadState) {
    ValidTree(st.nodes) && st.current in st.nodes
  }

  /** `ThreadStack::new`: a lone root, with the cursor on it. */
  function InitialState(): (st: ThreadState)
    ensures ValidState(st) && st.current == [] && st.nodes.Keys == {[]}
  {
    ThreadState(map[[] := NewRoot()], [])
  }

  /** The node the upward walk of `add_item` stops at: the nearest
      ancestor-or-self of `cur` whose last range contains the interval. The
      root contains every `u64` interval, so the walk never goes above it. */
  function Container(t: Tree, cur: Path, item: EventItem): (r: Path)
    requires ValidTree(t) && cur in t && ValidItem(item)
    ensures r <= cur && r in t && Encloses(t[r], item)
    ensures forall k :: |r| < k <= |cur| ==> !Encloses(t[cur[..k]], item)
    decreases |cur|
  {
    if Encloses(t[cur], item) then cur
    else
      assert cur != [];
      assert cur[..|cur| - 1] in t;
      var r := Container(t, Parent(cur), item);
      assert forall k :: |r| < k < |cur| ==> cur[..k] == Parent(cur)[..k];
      assert cur[..|cur|] == cur;
      r
  }

  /** What `add_item` does to the tree and the cursor: below the container,
      visit the child with the interval's label (creating it when there is
      none), add the interval's length to its duration and make the interval
      its last range; every other node is unchanged. */
  function Place(st: ThreadState, item: EventItem): (r: ThreadState)
    requires ValidState(st) && ValidItem(item)
    ensures ValidState(r)
  {
    var parent := Container(st.nodes, st.current, item);
    var child := parent + [item.name];
    var old_item := if child in st.nodes then st.nodes[child] else NewItem(item.name, item.startTs, item.stopTs);
    var nodes := st.nodes[child := UpdateLastRange(old_item, item.startTs, item.stopTs)];
    AddChildKeepsPrefixClosed(st.nodes, parent, item.name, nodes[child]);
    ThreadState(nodes, child)
  }

  /** The cursor ends on the child of the container that carries the
      interval's label; that node exists afterwards, its duration grew by the
      interval's length and its last range is the interval; no other node
      changes and no other node appears. */
  lemma PlaceFacts(st: ThreadState, item: EventItem)
    requires ValidState(st) && ValidItem(item)
    ensures var r := Place(st, item);
            && r.current == Container(st.nodes, st.current, item) + [item.name]
            && r.nodes.Keys == st.nodes.Keys + {r.current}
            && r.nodes[r.current].duration == Weight(st.nodes, r.current) + Length(item)
            && r.nodes[r.current].lastStart == item.startTs && r.nodes[r.current].lastStop == item.stopTs
            && (forall p :: p in st.nodes && p != r.current ==> r.nodes[p] == st.nodes[p])
  {
  }

  /** Only the placed node's weight changes, and it grows by the interval's length. */
  lemma PlaceWeight(st: ThreadState, item: EventItem, q: Path)
    requires ValidState(st) && ValidItem(item)
    ensures Weight(Place(st, item).nodes, q)
         == Weight(st.nodes, q) + (if q == Place(st, item).current then Length(item) else 0)
  {
  }

  /** A node is created exactly when the container has no child with the
      interval's label; an existing child is reused. */
  lemma PlaceCreatesOnlyMissingChild(st: ThreadState, item: EventItem)
    requires ValidState(st) && ValidItem(item)
    ensures var c := Container(st.nodes, st.current, item) + [item.name];
            && (c in st.nodes ==> Place(st, item).nodes.Keys == st.nodes.Keys)
            && (c !in st.nodes ==>
                  Place(st, item).nodes.Keys == st.nodes.Keys + {c} &&
                  Place(st, item).nodes[c].duration == Length(item))
  {
  }

  /** The last range of `inner` lies inside that of `outer`. */
  predicate Within(inner: StackItem, outer: StackItem) {
    outer.lastStart <= inner.lastStart && inner.lastStop <= outer.lastStop
  }

  /** Along the cursor's handle, every node's last range lies inside its
      parent's: the cursor path is a stack of nested intervals. */
  ghost predicate NestedChain(st: ThreadState)
    requires ValidState(st)
  {
    forall k :: 0 <= k < |st.current| ==> Within(st.nodes[st.current[..k + 1]], st.nodes[st.current[..k]])
  }

  lemma {:induction false} PlaceKeepsNestedChain(st: ThreadState, item: EventItem)
    requires ValidState(st) && ValidItem(item) && NestedChain(st)
    ensures NestedChain(Place(st, item))
  {
    var r := Place(st, item);
    var a := Container(st.nodes, st.current, item);
    PlaceFacts(st, item);
    assert a == st.current[..|a|];
    ChainExtend(st.nodes, r.nodes, st.current, a, item.name);
  }

  /** A nested chain along `cur`, cut back to its prefix `a` and extended by
      one node whose range lies inside `a`'s, is still nested. */
  lemma ChainExtend(before: Tree, after: Tree, cur: Path, a: Path, l: string)
    requires a <= cur
    requires forall k :: 0 <= k <= |cur| ==> cur[..k] in before
    requires forall k :: 0 <= k < |cur| ==> Within(before[cur[..k + 1]], before[cur[..k]])
    requires a in before && a + [l] in after && Within(after[a + [l]], before[a])
    requires forall p :: p in before && p != a + [l] ==> p in after && after[p] == before[p]
    ensures forall k :: 0 <= k <= |a + [l]| ==> (a + [l])[..k] in after
    ensures forall k :: 0 <= k < |a + [l]| ==> Within(after[(a + [l])[..k + 1]], after[(a + [l])[..k]])
  {
    var c := a + [l];
    forall k | 0 <= k <= |c|
      ensures c[..k] in after
    {
      if k <= |a| {
        assert c[..k] == cur[..k] && c[..k] != c;
      } else {
        assert c[..k] == c;
      }
    }
    forall k | 0 <= k < |c|
      ensures Within(after[c[..k + 1]], after[c[..k]])
    {
      assert c[..k] == cur[..k] && c[..k] != c;
      if k < |a| {
        assert c[..k + 1] == cur[..k + 1] && c[..k + 1] != c;
      } else {
        assert c[..k] == a && c[..k + 1] == c;
      }
    }
  }

  /** Feeding a thread's intervals, in order, to its stack. */
  function Run(st: ThreadState, items: seq<EventItem>): (r: ThreadState)
    requires ValidState(st) && forall i :: 0 <= i < |items| ==> ValidItem(items[i])
    ensures ValidState(r)
    decreases |items|
  {
    if items == [] then st else Run(Place(st, items[0]), items[1..])
  }

  /** The handle each interval of a run is placed at. */
  function Trace(st: ThreadState, items: seq<EventItem>): (r: seq<Path>)
    requires ValidState(st) && forall i :: 0 <= i < |items| ==> ValidItem(items[i])
    ensures |r| == |items|
    decreases |items|
  {
    if items == [] then [] else [Place(st, items[0]).current] + Trace(Place(st, items[0]), items[1..])
  }

  /** The total length of the intervals a run places at `q`. */
  function SumAt(items: seq<EventItem>, trace: seq<Path>, q: Path): nat
    requires |items| == |trace| && forall i :: 0 <= i < |items| ==> ValidItem(items[i])
  {
    if items == [] then 0
    else (if trace[0] == q then Length(items[0]) else 0) + SumAt(items[1..], trace[1..], q)
  }

  /** Duration accumulation: after a run, the duration at every label path is
      what it was plus the total length of the run's intervals placed there. */
  lemma {:induction false} RunAccumulates(st: ThreadState, items: seq<EventItem>, q: Path)
    requires ValidState(st) && forall i :: 0 <= i < |items| ==> ValidItem(items[i])
    ensures Weight(Run(st, items).nodes, q) == Weight(st.nodes, q) + SumAt(items, Trace(st, items), q)
    decreases |items|
  {
    if items != [] {
      var next := Place(st, items[0]);
      var rest := items[1..];
      assert forall i :: 0 <= i < |rest| ==> ValidItem(rest[i]) by {
        forall i | 0 <= i < |rest| ensures ValidItem(rest[i]) {
          assert rest[i] == items[i + 1];
        }
      }
      RunStep(st, items);
      RunAccumulates(next, rest, q);
      PlaceWeight(st, items[0], q);
      assert Weight(Run(st, items).nodes, q) == Weight(Run(next, rest).nodes, q);
    }
  }

  /** A run creates nodes exactly at the handles it places intervals at. */
  lemma {:induction false} RunCreates(st: ThreadState, items: seq<EventItem>, q: Path)
    requires ValidState(st) && forall i :: 0 <= i < |items| ==> ValidItem(items[i])
    ensures q in Run(st, items).nodes <==> q in st.nodes || q in Trace(st, items)
    decreases |items|
  {
    if items != [] {
      var next := Place(st, items[0]);
      var rest := items[1..];
      assert forall i :: 0 <= i < |rest| ==> ValidItem(rest[i]) by {
        forall i | 0 <= i < |rest| ensures ValidItem(rest[i]) {
          assert rest[i] == items[i + 1];
        }
      }
      RunStep(st, items);
      RunCreates(next, rest, q);
      assert q in Run(st, items).nodes <==> q in Run(next, rest).nodes;
      assert q in Trace(st, items) <==> q == next.current || q in Trace(next, items[1..]);
    }
  }

  /** One step of a run: place the first interval, then run the rest. */
  lemma RunStep(st: ThreadState, items: seq<EventItem>)
    requires ValidState(st) && forall i :: 0 <= i < |items| ==> ValidItem(items[i])
    requires items != []
    ensures var next := Place(st, items[0]);
            && Run(st, items) == Run(next, items[1..])
            && Trace(st, items) == [next.current] + Trace(next, items[1..])
            && Trace(st, items)[0] == next.current
            && Trace(st, items)[1..] == Trace(next, items[1..])
            && forall q :: SumAt(items, Trace(st, items), q)
                 == (if next.current == q then Length(items[0]) else 0) + SumAt(items[1..], Trace(next, items[1..]), q)
  {
  }

  /** From a fresh stack: the root's weight stays 0 and every other path's
      weight is the total length of the intervals placed there. */
  lemma FreshRunAccumulates(items: seq<EventItem>, q: Path)
    requires forall i :: 0 <= i < |items| ==> ValidItem(items[i])
    ensures Weight(Run(InitialState(), items).nodes, q) == SumAt(items, Trace(InitialState(), items), q)
  {
    RunAccumulates(InitialState(), items, q);
  }

  /** The cursor path stays nested through a whole run. */
  lemma {:induction false} RunKeepsNestedChain(st: ThreadState, items: seq<EventItem>)
    requires ValidState(st) && forall i :: 0 <= i < |items| ==> ValidItem(items[i])
    requires NestedChain(st)
    ensures NestedChain(Run(st, items))
    decreases |items|
  {
    if items != [] {
      PlaceKeepsNestedChain(st, items[0]);
      RunKeepsNestedChain(Place(st, items[0]), items[1..]);
    }
  }

  /** `ThreadStack`: the arena of one thread and its cursor. */
  class ThreadStack {
    var nodes: Tree
    var current: Path

    ghost predicate Valid()
      reads this
    {
      ValidState(State())
    }

    function State(): ThreadState
      reads this
    {
      ThreadState(nodes, current)
    }

    /** `ThreadStack::new`. */
    constructor ()
      ensures Valid() && State() == InitialState()
    {
      nodes := map[[] := NewRoot()];
      current := [];
    }

    /** `ThreadStack::is_parent_of`: the node's last range contains the
        interval; the root's always does. */
    predicate IsParentOf(p: Path, item: EventItem)
      reads this
      requires p in nodes
      ensures Valid() && p == [] && ValidItem(item) ==> IsParentOf(p, item)
    {
      Encloses(nodes[p], item)
    }

    /** `ThreadStack::add_item`: walk the cursor up to the nearest node whose
        last range contains the interval, then descend into (creating if
        needed) its child with the interval's label and record the interval
        there. */
    method AddItem(item: EventItem)
      requires Valid() && ValidItem(item)
      modifies this
      ensures State() == Place(old(State()), item) && Valid()
    {
      while !IsParentOf(current, item)
        invariant Valid() && nodes == old(nodes)
        invariant Container(nodes, current, item) == Container(nodes, old(current), item)
        decreases |current|
      {
        current := Parent(current);
      }
      var child := current + [item.name];
      if child !in nodes {
        nodes := nodes[child := NewItem(item.name, item.startTs, item.stopTs)];
      }
      nodes := nodes[child := UpdateLastRange(nodes[child], item.startTs, item.stopTs)];
      current := child;
    }
  }

  lemma RunTwo(st: ThreadState, x: EventItem, y: EventItem)
    requires ValidState(st) && ValidItem(x) && ValidItem(y)
    ensures Run(st, [x, y]) == Place(Place(st, x), y)
  {
    assert [x, y][1..] == [y];
    RunOne(Place(st, x), y);
  }

  lemma RunOne(st: ThreadState, y: EventItem)
    requires ValidState(st) && ValidItem(y)
    ensures Run(st, [y]) == Place(st, y)
  {
    assert [y][1..] == [];
  }

  /** Thread 1 reports A over [0, 100] and B over [10, 50]: B nests under A,
      A accumulates 100 and B 40. */
  lemma NestedScenario()
    ensures var st := Run(InitialState(), [EventItem("A", 1, 0, 100), EventItem("B", 1, 10, 50)]);
            && Weight(st.nodes, ["A"]) == 100
            && Weight(st.nodes, ["A", "B"]) == 40
            && st.nodes.Keys == {[], ["A"], ["A", "B"]}
  {
    var a := EventItem("A", 1, 0, 100);
    var b := EventItem("B", 1, 10, 50);
    var s0 := InitialState();
    RunTwo(s0, a, b);
    var s1 := Place(s0, a);
    assert s1.current == ["A"];
    assert s1.nodes.Keys == {[], ["A"]};
    assert Weight(s1.nodes, ["A"]) == 100;
    assert Encloses(s1.nodes[["A"]], b);
    assert Container(s1.nodes, ["A"], b) == ["A"];
    var s2 := Place(s1, b);
    assert s2.current == ["A", "B"];
    assert Weight(s2.nodes, ["A"]) == 100;
  }
}
