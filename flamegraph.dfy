/** The flame graph converter (`FlamegraphConverter`,
    src/converters/flamegraph_converter.rs): events with a timestamp, a
    duration, a thread id and a label become intervals; at the end the
    intervals are sorted by start, fed to one call tree per thread, the
    trees are merged and the merged tree is written as a page. */
module Flamegraph {
  import opened Prelude
  import opened Events
  import opened FlamegraphTree
  import opened FlamegraphMerge
  import opened FlamegraphRender
  import opened FlamegraphSort
  import opened FlamegraphForest
  import LabelMapping

  /** The decoder stores a `u64` field, so timestamp plus duration stays in
      64 bits; the converter adds them unchecked. */
  predicate NoOverflow(e: Event) {
    match (GetValueU64(e, "timestamp"), GetValueU64(e, "duration"))
    case (Some(ts), Some(d)) => ts + d <= U64_MAX
    case _ => true
  }

  /** The interval `process_event` records for an event, given the label the
      label getter found: none unless the event has a `u64` timestamp, a
      `u64` duration, a `u32` thread id and a label. */
  function ToEventItem(e: Event, name: Option<string>): (r: Option<EventItem>)
    requires NoOverflow(e)
    ensures r.Some? <==>
              && GetValueU64(e, "timestamp").Some? && GetValueU64(e, "duration").Some?
              && GetValueU32(e, "thread_id").Some? && name.Some?
    ensures r.Some? ==>
              && ValidItem(r.value)
              && r.value.name == name.value
              && r.value.threadId == GetValueU32(e, "thread_id").value
              && r.value.startTs == GetValueU64(e, "timestamp").value
              && Length(r.value) == GetValueU64(e, "duration").value
  {
    match (GetValueU64(e, "timestamp"), GetValueU64(e, "duration"), GetValueU32(e, "thread_id"), name)
    case (Some(ts), Some(d), Some(tid), Some(l)) => Some(EventItem(l, tid, ts, ts + d))
    case _ => None
  }

  /** The intervals `process_event` appends: the event's one, if it has one. */
  function Recorded(e: Event, name: Option<string>): (r: seq<EventItem>)
    requires NoOverflow(e)
    ensures |r| <= 1 && (r != [] <==> ToEventItem(e, name).Some?)
    ensures r != [] ==> r[0] == ToEventItem(e, name).value
  {
    match ToEventItem(e, name)
    case Some(item) => [item]
    case None => []
  }

  /** The trees of the threads in `threadOrder`, in that order. */
  function TreesOf(states: map<nat, ThreadState>, threadOrder: seq<nat>): (r: seq<Tree>)
    ensures |r| == |threadOrder|
  {
    if threadOrder == [] then []
    else [StackOf(states, threadOrder[0]).nodes] + TreesOf(states, threadOrder[1..])
  }

  /** The super root with every thread's tree merged into it, threads taken
      in `threadOrder` (the order in which the map of stacks yields them). */
  function Merged(states: map<nat, ThreadState>, threadOrder: seq<nat>): Tree {
    MergeAll(InitialState().nodes, TreesOf(states, threadOrder))
  }

  lemma {:induction false} MergeAllSnoc(sup: Tree, trees: seq<Tree>, t: Tree)
    ensures MergeAll(sup, trees + [t]) == MergeAt(MergeAll(sup, trees), t, [])
    decreases |trees|
  {
    if trees == [] {
      assert [] + [t] == [t];
      assert [t][1..] == [];
    } else {
      assert (trees + [t])[0] == trees[0];
      assert (trees + [t])[1..] == trees[1..] + [t];
      MergeAllSnoc(MergeAt(sup, trees[0], []), trees[1..], t);
    }
  }

  lemma {:induction false} TreesOfSnoc(states: map<nat, ThreadState>, threadOrder: seq<nat>, tid: nat)
    ensures TreesOf(states, threadOrder + [tid]) == TreesOf(states, threadOrder) + [StackOf(states, tid).nodes]
    decreases |threadOrder|
  {
    if threadOrder == [] {
      assert [] + [tid] == [tid];
      assert [tid][1..] == [];
    } else {
      assert (threadOrder + [tid])[0] == threadOrder[0];
      assert (threadOrder + [tid])[1..] == threadOrder[1..] + [tid];
      TreesOfSnoc(states, threadOrder[1..], tid);
    }
  }

  /** Merging one more thread's tree extends the fold by one step. */
  lemma MergedStep(stacks: map<nat, ThreadState>, threadOrder: seq<nat>, i: nat)
    requires AllStates(stacks) && i < |threadOrder| && threadOrder[i] in stacks
    requires ValidTree(Merged(stacks, threadOrder[..i]))
    ensures var next := MergeAt(Merged(stacks, threadOrder[..i]), stacks[threadOrder[i]].nodes, []);
            next == Merged(stacks, threadOrder[..i + 1]) && ValidTree(next)
  {
    var tid := threadOrder[i];
    assert threadOrder[..i + 1] == threadOrder[..i] + [tid];
    TreesOfSnoc(stacks, threadOrder[..i], tid);
    MergeAllSnoc(InitialState().nodes, TreesOf(stacks, threadOrder[..i]), stacks[tid].nodes);
    MergeAtValid(Merged(stacks, threadOrder[..i]), stacks[tid].nodes, []);
  }

  lemma {:induction false} MergeAllValid(sup: Tree, trees: seq<Tree>)
    requires ValidTree(sup) && forall i :: 0 <= i < |trees| ==> ValidTree(trees[i])
    ensures ValidTree(MergeAll(sup, trees))
    decreases |trees|
  {
    if trees != [] {
      MergeAtValid(sup, trees[0], []);
      MergeAllValid(MergeAt(sup, trees[0], []), trees[1..]);
    }
  }

  /** The trees the merge sees are the threads' own runs over their own
      intervals, sorted by start. */
  lemma {:induction false} FreshTrees(items: seq<EventItem>, threadOrder: seq<nat>)
    requires AllValid(items)
    ensures AllValid(SortByStart(items))
    ensures TreesOf(Forest(map[], SortByStart(items)), threadOrder) == ThreadTrees(items, threadOrder)
    decreases |threadOrder|
  {
    SortAllValid(items);
    if threadOrder != [] {
      var tid := threadOrder[0];
      ForestPerThread(map[], SortByStart(items), tid);
      SortOfThread(items, tid);
      FreshTrees(items, threadOrder[1..]);
    }
  }

  /** Each thread's tree built from nothing but its own intervals, sorted. */
  function ThreadTrees(items: seq<EventItem>, threadOrder: seq<nat>): (r: seq<Tree>)
    requires AllValid(items)
    ensures |r| == |threadOrder|
  {
    if threadOrder == [] then []
    else
      var own := OfThread(items, threadOrder[0]);
      OfThreadAllValid(items, threadOrder[0]);
      SortAllValid(own);
      [Run(InitialState(), SortByStart(own)).nodes] + ThreadTrees(items, threadOrder[1..])
  }

  /** The flame graph's durations: starting from no stacks, the merged tree
      holds at every label path other than the root the sum over the threads
      of the duration that thread's own tree, built from its own intervals
      sorted by start, holds there; and it has a node exactly where some
      thread's tree has one. */
  lemma FlamegraphSums(items: seq<EventItem>, threadOrder: seq<nat>, q: Path)
    requires AllValid(items) && q != []
    ensures AllValid(SortByStart(items))
    ensures Weight(Merged(Forest(map[], SortByStart(items)), threadOrder), q)
         == SumWeights(ThreadTrees(items, threadOrder), q)
    ensures q in Merged(Forest(map[], SortByStart(items)), threadOrder)
        <==> exists i :: 0 <= i < |threadOrder| && q in ThreadTrees(items, threadOrder)[i]
  {
    FreshTrees(items, threadOrder);
    MergeAllSums(InitialState().nodes, ThreadTrees(items, threadOrder), q);
  }

  // ---------------------------------------------------------------------
  // The converter object.

  /** `FlamegraphConverter`: the intervals collected so far, the stack of
      every thread seen (the map owns its stacks, so each is a value here,
      updated by `Place`, the function `ThreadStack.AddItem` is proved to
      compute), the page written so far and the label getter. */
  class FlamegraphConverter {
    var items: seq<EventItem>
    var stacks: map<nat, ThreadState>
    var output: string
    const labelGetter: LabelMapping.LabelGetter

    ghost predicate Valid()
      reads this
    {
      AllValid(items) && AllStates(stacks)
    }

    /** `FlamegraphConverter::new`: no intervals and no stacks yet. */
    constructor (labelGetter: LabelMapping.LabelGetter)
      ensures Valid() && items == [] && stacks == map[] && output == []
      ensures this.labelGetter == labelGetter
    {
      items := [];
      stacks := map[];
      output := [];
      this.labelGetter := labelGetter;
    }

    /** `process_event`: look the event's label up, then record the event's
        interval when it has a time, a duration, a thread and a label. */
    method ProcessEvent(e: Event)
      requires Valid() && NoOverflow(e)
      modifies this, labelGetter, labelGetter.labelMap
      ensures Valid() && stacks == old(stacks) && output == old(output)
      ensures labelGetter.mappingEventId == old(labelGetter.After(e)).0
      ensures labelGetter.labelMap.mapping == old(labelGetter.After(e)).3
      ensures items == old(items) + Recorded(e, old(labelGetter.After(e)).2)
    {
      ghost var answer := labelGetter.After(e);
      var _, name := labelGetter.GetLabel(e);
      assert name == answer.2;
      RecordEvent(e, name);
    }

    /** The part of `process_event` after the label lookup. */
    method RecordEvent(e: Event, name: Option<string>)
      requires Valid() && NoOverflow(e)
      modifies this
      ensures Valid() && stacks == old(stacks) && output == old(output)
      ensures items == old(items) + Recorded(e, name)
    {
      var timestamp := GetValueU64(e, "timestamp");
      var duration := GetValueU64(e, "duration");
      var threadId := GetValueU32(e, "thread_id");
      if timestamp.None? || duration.None? || name.None? || threadId.None? {
        return;
      }
      var item := EventItem(name.value, threadId.value, timestamp.value, timestamp.value + duration.value);
      assert Recorded(e, name) == [item];
      items := items + [item];
    }

    /** `merge_stacks`: merge the children of `stack`'s node at `p` into
        `sup`'s node at `p`. A child whose label `sup` already has adds its
        duration there and is merged recursively; any other child is
        attached with everything below it. The children are visited in the
        order the children map yields them, which is arbitrary; the result
        does not depend on it. */
    method MergeStacks(sup: Tree, stack: Tree, p: Path) returns (merged: Tree)
      requires PrefixClosed(sup) && PrefixClosed(stack) && p in sup
      ensures merged == MergeAt(sup, stack, p)
      decreases Below(stack, p), 1
    {
      merged := sup;
      MergeLabelsNone(sup, stack, p);
      var todo := ChildLabels(stack, p);
      ghost var all := todo;
      ghost var done: set<string> := {};
      while todo != {}
        invariant todo <= all && done == all - todo
        invariant merged == MergeLabels(sup, stack, p, done)
        decreases |todo|
      {
        var l :| l in todo;
        assert p + [l] in stack;
        merged := MergeChild(sup, stack, p, done, merged, l);
        done := done + {l};
        todo := todo - {l};
      }
      assert done == all;
      MergeLabelsAll(sup, stack, p);
    }

    /** One turn of the loop in `merge_stacks`, for the child labelled `l`. */
    method MergeChild(sup: Tree, stack: Tree, p: Path, ghost done: set<string>, merged: Tree, l: string)
      returns (r: Tree)
      requires PrefixClosed(sup) && PrefixClosed(stack) && p in sup
      requires l !in done && p + [l] in stack
      requires merged == MergeLabels(sup, stack, p, done)
      ensures r == MergeLabels(sup, stack, p, done + {l})
      decreases Below(stack, p), 0
    {
      var c := p + [l];
      if c in merged {
        MergeLabelsPrefixClosed(sup, stack, p, done);
        r := merged[c := merged[c].(duration := merged[c].duration + stack[c].duration)];
        DurationUpdateKeepsPaths(merged, c, merged[c].duration + stack[c].duration);
        MergeStepExisting(sup, stack, p, done, l, merged, r);
        BelowShrinks(stack, p, l);
        r := MergeStacks(r, stack, c);
      } else {
        MergeStepAttach(sup, stack, p, done, l);
        r := merged + Subtree(stack, c);
      }
    }

    /** `generate_flamegraph`: sort the intervals by start (stably), feed each
        to its thread's stack, created the first time the thread is seen,
        merge the threads' trees into a fresh root in the order the map of
        stacks yields them (`threadOrder`), and write the page with the
        children of every node in the order its children map yields them
        (`order`). `preamble` is the page's fixed header. */
    method GenerateFlamegraph(preamble: string) returns (threadOrder: seq<nat>, order: SiblingOrder)
      requires Valid()
      modifies this
      ensures Valid()
      ensures items == SortByStart(old(items))
      ensures stacks == Forest(old(stacks), items)
      ensures Enumerates(threadOrder, stacks.Keys)
      ensures ValidTree(Merged(stacks, threadOrder))
      ensures OrderFits(Merged(stacks, threadOrder), order)
      ensures output == old(output) + PageText(preamble, Merged(stacks, threadOrder), order)
    {
      SortAllValid(items);
      items := SortByStart(items);
      FeedStacks();
      var superRoot;
      threadOrder, superRoot := MergeThreads(stacks);
      order := SiblingOrderOf(superRoot);
      var writer := new FlameGraphWriter();
      writer.WriteFlamegraph(preamble, superRoot, order);
      var page := writer.written;
      assert page == PageText(preamble, superRoot, order);
      output := output + page;
    }

    /** The first loop of `generate_flamegraph`: every interval, in order,
        goes to its thread's stack, a fresh one the first time the thread is
        seen (`entry(..).or_insert_with(ThreadStack::new).add_item(..)`). */
    method FeedStacks()
      requires Valid()
      modifies this
      ensures Valid() && items == old(items) && output == old(output)
      ensures stacks == Forest(old(stacks), items)
    {
      var all := items;
      var start := stacks;
      var fed := start;
      var i := 0;
      while i < |all|
        invariant 0 <= i <= |all|
        invariant AllValid(all[..i]) && fed == Forest(start, all[..i])
        modifies {}
      {
        ForestPrefixStep(start, all, i);
        var item := all[i];
        StackOfValid(fed, item.threadId);
        fed := fed[item.threadId := Place(StackOf(fed, item.threadId), item)];
        i := i + 1;
      }
      assert all[..i] == all;
      stacks := fed;
    }

    /** The second loop of `generate_flamegraph`: every thread's tree merged
        into a fresh root, threads taken in the order the map yields them. */
    method MergeThreads(stacks: map<nat, ThreadState>) returns (threadOrder: seq<nat>, superRoot: Tree)
      requires AllStates(stacks)
      ensures Enumerates(threadOrder, stacks.Keys)
      ensures superRoot == Merged(stacks, threadOrder) && ValidTree(superRoot)
    {
      threadOrder := Enumerate(stacks.Keys);
      superRoot := InitialState().nodes;
      var i := 0;
      while i < |threadOrder|
        invariant 0 <= i <= |threadOrder|
        invariant superRoot == Merged(stacks, threadOrder[..i]) && ValidTree(superRoot)
      {
        var tid := threadOrder[i];
        MergedStep(stacks, threadOrder, i);
        superRoot := MergeStacks(superRoot, stacks[tid].nodes, []);
        i := i + 1;
      }
      assert threadOrder[..i] == threadOrder;
    }
  }
}
