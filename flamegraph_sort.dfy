/** The order in which `generate_flamegraph` feeds intervals to the stacks
    (src/converters/flamegraph_converter.rs): the standard library's
    `sort_by_key(|k| k.start_ts)`, a stable sort by start timestamp,
    modelled as an insertion sort, and the intervals of one thread. */
module FlamegraphSort {
  import opened Prelude
  import opened FlamegraphTree

  predicate AllValid(items: seq<EventItem>) {
    forall i :: 0 <= i < |items| ==> ValidItem(items[i])
  }

  lemma AllValidPrefix(items: seq<EventItem>, k: nat)
    requires AllValid(items) && k <= |items|
    ensures AllValid(items[..k])
  {
    assert forall i :: 0 <= i < k ==> items[..k][i] == items[i];
  }

  predicate SortedByStart(s: seq<EventItem>) {
    forall i, j :: 0 <= i < j < |s| ==> s[i].startTs <= s[j].startTs
  }

  /** No element of `s` starts after `b`. */
  predicate StartsBy(s: seq<EventItem>, b: nat) {
    forall i :: 0 <= i < |s| ==> s[i].startTs <= b
  }

  /** Insert `x` into `s` after every element that does not start later. */
  function Insert(s: seq<EventItem>, x: EventItem): (r: seq<EventItem>)
    ensures multiset(r) == multiset(s) + multiset{x}
  {
    if s == [] || s[|s| - 1].startTs <= x.startTs then s + [x]
    else
      var init := s[..|s| - 1];
      var last := s[|s| - 1];
      assert s == init + [last];
      Insert(init, x) + [last]
  }

  lemma {:induction false} InsertStartsBy(s: seq<EventItem>, x: EventItem, b: nat)
    requires StartsBy(s, b) && x.startTs <= b
    ensures StartsBy(Insert(s, x), b)
    decreases |s|
  {
    if !(s == [] || s[|s| - 1].startTs <= x.startTs) {
      InsertStartsBy(s[..|s| - 1], x, b);
    }
  }

  /** Inserting into a sorted sequence keeps it sorted. */
  lemma {:induction false} InsertSorted(s: seq<EventItem>, x: EventItem)
    requires SortedByStart(s)
    ensures SortedByStart(Insert(s, x))
    decreases |s|
  {
    if !(s == [] || s[|s| - 1].startTs <= x.startTs) {
      var init := s[..|s| - 1];
      var last := s[|s| - 1];
      InsertSorted(init, x);
      InsertStartsBy(init, x, last.startTs);
      var r := Insert(init, x);
      assert Insert(s, x) == r + [last];
    }
  }

  /** The order in which `generate_flamegraph` feeds the intervals to the
      stacks: sorted by start, intervals with equal starts in arrival order. */
  function SortByStart(s: seq<EventItem>): (r: seq<EventItem>)
    ensures multiset(r) == multiset(s)
  {
    if s == [] then []
    else
      assert s == s[..|s| - 1] + [s[|s| - 1]];
      Insert(SortByStart(s[..|s| - 1]), s[|s| - 1])
  }

  /** The sort's result is sorted by start (and, by its ensures, a permutation). */
  lemma {:induction false} SortSorted(s: seq<EventItem>)
    ensures SortedByStart(SortByStart(s))
    decreases |s|
  {
    if s != [] {
      SortSorted(s[..|s| - 1]);
      InsertSorted(SortByStart(s[..|s| - 1]), s[|s| - 1]);
    }
  }

  /** The intervals that start at `k`, in order. */
  function WithStart(s: seq<EventItem>, k: nat): (r: seq<EventItem>)
    ensures forall i :: 0 <= i < |r| ==> r[i].startTs == k
  {
    if s == [] then []
    else WithStart(s[..|s| - 1], k) + (if s[|s| - 1].startTs == k then [s[|s| - 1]] else [])
  }

  lemma WithStartSnoc(s: seq<EventItem>, y: EventItem, k: nat)
    ensures WithStart(s + [y], k) == WithStart(s, k) + (if y.startTs == k then [y] else [])
  {
    assert (s + [y])[..|s|] == s;
  }

  /** Inserting `x` puts it after every interval with the same start. */
  lemma {:induction false} InsertStable(s: seq<EventItem>, x: EventItem, k: nat)
    ensures WithStart(Insert(s, x), k) == WithStart(s, k) + (if x.startTs == k then [x] else [])
    decreases |s|
  {
    if s == [] || s[|s| - 1].startTs <= x.startTs {
      assert Insert(s, x) == s + [x];
      WithStartSnoc(s, x, k);
    } else {
      var init := s[..|s| - 1];
      var last := s[|s| - 1];
      var r := Insert(init, x);
      assert Insert(s, x) == r + [last];
      InsertStable(init, x, k);
      WithStartSnoc(r, last, k);
      assert WithStart(s, k) == WithStart(init, k) + (if last.startTs == k then [last] else []);
      if x.startTs == k {
        assert last.startTs != k;
      }
    }
  }

  /** `sort_by_key` is stable: the intervals that start at the same time
      keep their arrival order. */
  lemma {:induction false} SortStable(s: seq<EventItem>, k: nat)
    ensures WithStart(SortByStart(s), k) == WithStart(s, k)
    decreases |s|
  {
    if s != [] {
      SortStable(s[..|s| - 1], k);
      InsertStable(SortByStart(s[..|s| - 1]), s[|s| - 1], k);
    }
  }

  /** The intervals of one thread, in order. */
  function OfThread(s: seq<EventItem>, tid: nat): (r: seq<EventItem>)
    ensures forall i :: 0 <= i < |r| ==> r[i].threadId == tid
    ensures |r| <= |s|
  {
    if s == [] then []
    else OfThread(s[..|s| - 1], tid) + (if s[|s| - 1].threadId == tid then [s[|s| - 1]] else [])
  }

  lemma {:induction false} OfThreadStartsBy(s: seq<EventItem>, tid: nat, b: nat)
    requires StartsBy(s, b)
    ensures StartsBy(OfThread(s, tid), b)
    decreases |s|
  {
    if s != [] {
      OfThreadStartsBy(s[..|s| - 1], tid, b);
    }
  }

  lemma {:induction false} OfThreadAppend(s: seq<EventItem>, t: seq<EventItem>, tid: nat)
    ensures OfThread(s + t, tid) == OfThread(s, tid) + OfThread(t, tid)
    decreases |t|
  {
    if t == [] {
      assert s + t == s;
      assert OfThread(s, tid) + [] == OfThread(s, tid);
    } else {
      assert (s + t)[..|s + t| - 1] == s + t[..|t| - 1];
      assert (s + t)[|s + t| - 1] == t[|t| - 1];
      OfThreadAppend(s, t[..|t| - 1], tid);
    }
  }

  lemma OfThreadOne(x: EventItem, tid: nat)
    ensures OfThread([x], tid) == if x.threadId == tid then [x] else []
  {
    assert [x][..0] == [];
  }

  lemma {:induction false} InsertAtEnd(s: seq<EventItem>, x: EventItem)
    requires StartsBy(s, x.startTs)
    ensures Insert(s, x) == s + [x]
  {
  }

  /** Sorting commutes with taking one thread's intervals: each thread sees
      its own intervals sorted by start, equal starts in arrival order. */
  lemma {:induction false} InsertOfThread(s: seq<EventItem>, x: EventItem, tid: nat)
    requires SortedByStart(s)
    ensures OfThread(Insert(s, x), tid)
         == if x.threadId == tid then Insert(OfThread(s, tid), x) else OfThread(s, tid)
    decreases |s|
  {
    if s == [] || s[|s| - 1].startTs <= x.startTs {
      InsertOfThreadLast(s, x, tid);
    } else {
      InsertOfThread(s[..|s| - 1], x, tid);
      InsertOfThreadBefore(s, x, tid);
    }
  }

  /** The case where `x` goes last. */
  lemma InsertOfThreadLast(s: seq<EventItem>, x: EventItem, tid: nat)
    requires SortedByStart(s) && (s == [] || s[|s| - 1].startTs <= x.startTs)
    ensures OfThread(Insert(s, x), tid)
         == if x.threadId == tid then Insert(OfThread(s, tid), x) else OfThread(s, tid)
  {
    assert Insert(s, x) == s + [x];
    OfThreadAppend(s, [x], tid);
    OfThreadOne(x, tid);
    if x.threadId == tid {
      InsertOfThreadLastOwn(s, x, tid);
    } else {
      assert OfThread(s, tid) + [] == OfThread(s, tid);
    }
  }

  lemma InsertOfThreadLastOwn(s: seq<EventItem>, x: EventItem, tid: nat)
    requires SortedByStart(s) && (s == [] || s[|s| - 1].startTs <= x.startTs)
    ensures Insert(OfThread(s, tid), x) == OfThread(s, tid) + [x]
  {
    assert StartsBy(s, x.startTs);
    OfThreadStartsBy(s, tid, x.startTs);
    InsertAtEnd(OfThread(s, tid), x);
  }

  /** The case where `x` goes before the last element, given the claim for the rest. */
  lemma InsertOfThreadBefore(s: seq<EventItem>, x: EventItem, tid: nat)
    requires s != [] && x.startTs < s[|s| - 1].startTs
    requires OfThread(Insert(s[..|s| - 1], x), tid)
          == if x.threadId == tid then Insert(OfThread(s[..|s| - 1], tid), x) else OfThread(s[..|s| - 1], tid)
    ensures OfThread(Insert(s, x), tid)
         == if x.threadId == tid then Insert(OfThread(s, tid), x) else OfThread(s, tid)
  {
    var init := s[..|s| - 1];
    var last := s[|s| - 1];
    var h := Insert(init, x);
    var g := OfThread(init, tid);
    var L := if last.threadId == tid then [last] else [];
    InsertBefore(s, x);
    OfThreadOne(last, tid);
    OfThreadAppend(h, [last], tid);
    assert OfThread(Insert(s, x), tid) == OfThread(h, tid) + L;
    OfThreadLast(s, tid);
    assert OfThread(s, tid) == g + L;
    if x.threadId == tid && last.threadId == tid {
      var f := g + [last];
      assert f[|f| - 1] == last && f[..|f| - 1] == g;
      InsertBefore(f, x);
    } else if x.threadId == tid {
      assert g + L == g;
      assert Insert(g, x) + L == Insert(g, x);
    }
  }

  lemma InsertBefore(s: seq<EventItem>, x: EventItem)
    requires s != [] && x.startTs < s[|s| - 1].startTs
    ensures Insert(s, x) == Insert(s[..|s| - 1], x) + [s[|s| - 1]]
  {
  }

  lemma OfThreadLast(s: seq<EventItem>, tid: nat)
    requires s != []
    ensures OfThread(s, tid) == OfThread(s[..|s| - 1], tid) + (if s[|s| - 1].threadId == tid then [s[|s| - 1]] else [])
  {
  }

  /** A stable sort keeps every thread's intervals in the order a stable
      sort of that thread alone would give. */
  lemma {:induction false} SortOfThread(s: seq<EventItem>, tid: nat)
    ensures OfThread(SortByStart(s), tid) == SortByStart(OfThread(s, tid))
    decreases |s|
  {
    if s != [] {
      var init := s[..|s| - 1];
      var x := s[|s| - 1];
      SortOfThread(init, tid);
      SortSorted(init);
      InsertOfThread(SortByStart(init), x, tid);
      assert SortByStart(s) == Insert(SortByStart(init), x);
      var g := OfThread(init, tid);
      if x.threadId == tid {
        var f := g + [x];
        assert OfThread(s, tid) == f;
        assert f[|f| - 1] == x && f[..|f| - 1] == g;
        assert SortByStart(f) == Insert(SortByStart(g), x);
      } else {
        assert OfThread(s, tid) == g + [];
        assert g + [] == g;
      }
    }
  }


  lemma {:induction false} InsertAllValid(s: seq<EventItem>, x: EventItem)
    requires AllValid(s) && ValidItem(x)
    ensures AllValid(Insert(s, x))
    decreases |s|
  {
    if !(s == [] || s[|s| - 1].startTs <= x.startTs) {
      assert AllValid(s[..|s| - 1]) by {
        assert forall i :: 0 <= i < |s| - 1 ==> s[..|s| - 1][i] == s[i];
      }
      InsertAllValid(s[..|s| - 1], x);
      InsertBefore(s, x);
    }
  }

  lemma {:induction false} SortAllValid(s: seq<EventItem>)
    requires AllValid(s)
    ensures AllValid(SortByStart(s))
    decreases |s|
  {
    if s != [] {
      assert AllValid(s[..|s| - 1]) by {
        assert forall i :: 0 <= i < |s| - 1 ==> s[..|s| - 1][i] == s[i];
      }
      SortAllValid(s[..|s| - 1]);
      InsertAllValid(SortByStart(s[..|s| - 1]), s[|s| - 1]);
    }
  }
}
