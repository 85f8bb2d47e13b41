/** The per-thread stacks of `generate_flamegraph`
    (src/converters/flamegraph_converter.rs): every interval goes to the
    stack of its thread, a fresh one the first time the thread is seen. */
module FlamegraphForest {
  import opened Prelude
  import opened FlamegraphTree
  import opened FlamegraphSort

  /** The stack of `tid`, or a fresh one (`entry(..).or_insert_with(ThreadStack::new)`). */
  function StackOf(states: map<nat, ThreadState>, tid: nat): ThreadState {
    if tid in states then states[tid] else InitialState()
  }

  lemma StackOfOther(states: map<nat, ThreadState>, k: nat, st: ThreadState, tid: nat)
    requires k != tid
    ensures StackOf(states[k := st], tid) == StackOf(states, tid)
  {
  }

  ghost predicate AllStates(states: map<nat, ThreadState>) {
    forall tid :: tid in states ==> ValidState(states[tid])
  }

  lemma StackOfValid(states: map<nat, ThreadState>, tid: nat)
    requires AllStates(states)
    ensures ValidState(StackOf(states, tid))
  {
  }

  /** The threads that report intervals. */
  function ThreadsOf(items: seq<EventItem>): set<nat> {
    set i | 0 <= i < |items| :: items[i].threadId
  }

  /** The stacks after feeding `items`, in order, each to its thread's stack. */
  function Forest(states: map<nat, ThreadState>, items: seq<EventItem>): (r: map<nat, ThreadState>)
    requires AllStates(states) && AllValid(items)
    ensures AllStates(r)
    decreases |items|
  {
    if items == [] then states
    else
      var init := items[..|items| - 1];
      var x := items[|items| - 1];
      assert AllValid(init) by {
        assert forall i :: 0 <= i < |init| ==> init[i] == items[i];
      }
      var before := Forest(states, init);
      before[x.threadId := Place(StackOf(before, x.threadId), x)]
  }

  lemma ForestLast(states: map<nat, ThreadState>, items: seq<EventItem>)
    requires AllStates(states) && AllValid(items) && items != []
    ensures AllValid(items[..|items| - 1])
    ensures var x := items[|items| - 1];
            var before := Forest(states, items[..|items| - 1]);
            Forest(states, items) == before[x.threadId := Place(StackOf(before, x.threadId), x)]
  {
    assert forall i :: 0 <= i < |items| - 1 ==> items[..|items| - 1][i] == items[i];
  }

  /** A thread has a stack afterwards exactly when it had one before or
      reports an interval. */
  lemma {:induction false} ForestThreads(states: map<nat, ThreadState>, items: seq<EventItem>)
    requires AllStates(states) && AllValid(items)
    ensures Forest(states, items).Keys == states.Keys + ThreadsOf(items)
    decreases |items|
  {
    if items != [] {
      var init := items[..|items| - 1];
      var x := items[|items| - 1];
      ForestLast(states, items);
      ForestThreads(states, init);
      ThreadsOfSnoc(items);
      var before := Forest(states, init);
      UpdateKeys(before, x.threadId, Place(StackOf(before, x.threadId), x));
      assert Forest(states, items).Keys == before.Keys + {x.threadId};
    }
  }

  lemma ThreadsOfSnoc(items: seq<EventItem>)
    requires items != []
    ensures ThreadsOf(items) == ThreadsOf(items[..|items| - 1]) + {items[|items| - 1].threadId}
  {
    var init := items[..|items| - 1];
    assert forall i :: 0 <= i < |init| ==> init[i] == items[i];
  }

  lemma UpdateKeys(m: map<nat, ThreadState>, k: nat, v: ThreadState)
    ensures m[k := v].Keys == m.Keys + {k}
  {
  }

  /** Feeding the first `i + 1` intervals is feeding the first `i` and then
      interval `i`. */
  lemma ForestPrefixStep(states: map<nat, ThreadState>, items: seq<EventItem>, i: nat)
    requires AllStates(states) && AllValid(items) && i < |items|
    ensures AllValid(items[..i]) && AllValid(items[..i + 1])
    ensures var x := items[i];
            var before := Forest(states, items[..i]);
            Forest(states, items[..i + 1]) == before[x.threadId := Place(StackOf(before, x.threadId), x)]
  {
    var pre := items[..i + 1];
    AllValidPrefix(items, i + 1);
    AllValidPrefix(items, i);
    assert pre[..|pre| - 1] == items[..i];
  }

  lemma {:induction false} OfThreadAllValid(s: seq<EventItem>, tid: nat)
    requires AllValid(s)
    ensures AllValid(OfThread(s, tid))
    decreases |s|
  {
    if s != [] {
      assert AllValid(s[..|s| - 1]) by {
        assert forall i :: 0 <= i < |s| - 1 ==> s[..|s| - 1][i] == s[i];
      }
      OfThreadAllValid(s[..|s| - 1], tid);
      OfThreadLast(s, tid);
    }
  }

  /** Every thread's stack ends as if it alone had been fed its own intervals. */
  lemma {:induction false} ForestPerThread(states: map<nat, ThreadState>, items: seq<EventItem>, tid: nat)
    requires AllStates(states) && AllValid(items)
    ensures AllValid(OfThread(items, tid))
    ensures StackOf(Forest(states, items), tid) == Run(StackOf(states, tid), OfThread(items, tid))
    decreases |items|
  {
    OfThreadAllValid(items, tid);
    if items != [] {
      ForestLast(states, items);
      ForestPerThread(states, items[..|items| - 1], tid);
      ForestPerThreadStep(states, items, tid);
    }
  }

  lemma ForestPerThreadStep(states: map<nat, ThreadState>, items: seq<EventItem>, tid: nat)
    requires AllStates(states) && AllValid(items) && items != []
    requires AllValid(items[..|items| - 1]) && AllValid(OfThread(items[..|items| - 1], tid))
    requires StackOf(Forest(states, items[..|items| - 1]), tid)
          == Run(StackOf(states, tid), OfThread(items[..|items| - 1], tid))
    ensures AllValid(OfThread(items, tid))
    ensures StackOf(Forest(states, items), tid) == Run(StackOf(states, tid), OfThread(items, tid))
  {
    OfThreadAllValid(items, tid);
    ForestLast(states, items);
    OfThreadLast(items, tid);
    var init := items[..|items| - 1];
    var x := items[|items| - 1];
    var before := Forest(states, init);
    var g := OfThread(init, tid);
    if x.threadId == tid {
      assert OfThread(items, tid) == g + [x];
      RunSnoc(StackOf(states, tid), g, x);
    } else {
      assert OfThread(items, tid) == g + [];
      assert g + [] == g;
      StackOfOther(before, x.threadId, Place(StackOf(before, x.threadId), x), tid);
    }
  }

  /** Running one more interval at the end is placing it after the run. */
  lemma {:induction false} RunSnoc(st: ThreadState, items: seq<EventItem>, x: EventItem)
    requires ValidState(st) && AllValid(items) && ValidItem(x)
    ensures AllValid(items + [x])
    ensures Run(st, items + [x]) == Place(Run(st, items), x)
    decreases |items|
  {
    if items == [] {
      assert [] + [x] == [x];
      RunOne(st, x);
    } else {
      assert (items + [x])[0] == items[0];
      assert (items + [x])[1..] == items[1..] + [x];
      var next := Place(st, items[0]);
      assert AllValid(items[1..]) by {
        forall i | 0 <= i < |items| - 1 ensures ValidItem(items[1..][i]) {
          assert items[1..][i] == items[i + 1];
        }
      }
      RunStep(st, items + [x]);
      RunStep(st, items);
      RunSnoc(next, items[1..], x);
    }
  }
}
