/** The merge of per-thread call trees into one tree
    (`FlamegraphConverter::merge_stacks` and the loop over thread stacks in
    `generate_flamegraph`, src/converters/flamegraph_converter.rs). Two nodes
    of different trees are the same node exactly when their label paths are
    equal; merging adds the durations of equal paths and takes over the paths
    only one tree has. */
module FlamegraphMerge {
  import opened Prelude
  import opened FlamegraphTree

  /** The labels of the children of `p`. */
  function ChildLabels(t: Tree, p: Path): (ls: set<string>)
    ensures forall l :: l in ls <==> p + [l] in t
  {
    var ls := set q | q in t && |q| == |p| + 1 && q[..|p|] == p :: q[|p|];
    assert forall l :: p + [l] in t ==> (p + [l])[..|p|] == p && (p + [l])[|p|] == l;
    assert forall q :: q in t && |q| == |p| + 1 && q[..|p|] == p ==> q == p + [q[|p|]];
    ls
  }

  /** The handles strictly below `p`. */
  function Below(t: Tree, p: Path): set<Path> {
    set q | q in t && p < q
  }

  /** The node at `c` with everything below it: what attaching a child of
      another tree by reference makes visible. */
  function Subtree(t: Tree, c: Path): (r: Tree)
    ensures forall q :: q in r <==> q in t && c <= q
  {
    map q | q in t && c <= q :: t[q]
  }

  /** The item a path present in `stack` gets in the merge: `sup`'s with the
      two durations added when `sup` has the path, otherwise `stack`'s. */
  function Combine(sup: Tree, stack: Tree, q: Path): (s: StackItem)
    requires q in stack
    ensures s.duration == Weight(sup, q) + Weight(stack, q)
  {
    if q in sup then sup[q].(duration := sup[q].duration + stack[q].duration) else stack[q]
  }

  /** The subtree of `stack` at `p` merged into `sup`, stated path by path:
      a path strictly below `p` that both trees have keeps `sup`'s item with
      the two durations added; one only `stack` has gets `stack`'s item; every
      other path is `sup`'s. */
  function MergeAt(sup: Tree, stack: Tree, p: Path): (r: Tree)
    ensures r.Keys == sup.Keys + Below(stack, p)
    ensures forall q :: q in sup && !(p < q && q in stack) ==> r[q] == sup[q]
    ensures forall q :: Weight(r, q) == Weight(sup, q) + (if p < q then Weight(stack, q) else 0)
  {
    map q | q in sup.Keys + Below(stack, p) ::
      if q in Below(stack, p) then Combine(sup, stack, q) else sup[q]
  }

  /** The paths of `stack` strictly below the children of `p` whose label is in `done`. */
  function BelowLabels(stack: Tree, p: Path, done: set<string>): set<Path> {
    set q | q in stack && p < q && q[|p|] in done
  }

  /** The partial result while `merge_stacks` is iterating the children of
      `p`: the same as `MergeAt`, but only below the children with a label in
      `done`. */
  function MergeLabels(sup: Tree, stack: Tree, p: Path, done: set<string>): Tree {
    map q | q in sup.Keys + BelowLabels(stack, p, done) ::
      if q in BelowLabels(stack, p, done) then Combine(sup, stack, q) else sup[q]
  }

  lemma MergeLabelsNone(sup: Tree, stack: Tree, p: Path)
    ensures MergeLabels(sup, stack, p, {}) == sup
  {
  }

  lemma MergeLabelsAll(sup: Tree, stack: Tree, p: Path)
    requires PrefixClosed(stack)
    ensures MergeLabels(sup, stack, p, ChildLabels(stack, p)) == MergeAt(sup, stack, p)
  {
    var ls := ChildLabels(stack, p);
    forall q | q in stack && p < q
      ensures q[|p|] in ls
    {
      assert q[..|p| + 1] in stack;
      assert q[..|p| + 1] == p + [q[|p|]];
    }
    assert BelowLabels(stack, p, ls) == Below(stack, p);
  }

  /** `merge_stacks` keeps a tree prefix closed. */
  lemma MergeLabelsPrefixClosed(sup: Tree, stack: Tree, p: Path, done: set<string>)
    requires PrefixClosed(sup) && PrefixClosed(stack) && p in sup
    ensures PrefixClosed(MergeLabels(sup, stack, p, done)) && p in MergeLabels(sup, stack, p, done)
  {
    var r := MergeLabels(sup, stack, p, done);
    forall q, k | q in r && 0 <= k <= |q|
      ensures q[..k] in r
    {
      if q !in sup {
        assert q in stack && p < q && q[|p|] in done;
        if k <= |p| {
          assert q[..k] == p[..k];
        } else {
          assert p < q[..k] && q[..k][|p|] == q[|p|];
        }
      }
    }
  }

  /** The paths of `stack` below the child `p + [l]` are that child and the paths below it. */
  lemma BelowOneLabel(stack: Tree, p: Path, l: string)
    requires PrefixClosed(stack)
    ensures BelowLabels(stack, p, {l}) == (if p + [l] in stack then {p + [l]} else {}) + Below(stack, p + [l])
  {
    var c := p + [l];
    forall q | q in stack && p < q && q[|p|] == l
      ensures q == c || c < q
    {
      assert q[..|p| + 1] == c;
      if |q| == |c| {
        assert q == q[..|p| + 1];
      }
    }
    forall q | c < q
      ensures p < q && q[|p|] == l
    {
      assert q[..|c|] == c;
    }
  }

  /** The step of the loop in `merge_stacks` for a child the super tree
      already has: add the durations, then merge below it. */
  lemma {:induction false} MergeStepExisting(sup: Tree, stack: Tree, p: Path, done: set<string>, l: string,
                                             merged: Tree, m1: Tree)
    requires PrefixClosed(sup) && PrefixClosed(stack) && p in sup
    requires l !in done && p + [l] in stack
    requires merged == MergeLabels(sup, stack, p, done) && p + [l] in merged
    requires m1 == merged[p + [l] := merged[p + [l]].(duration := merged[p + [l]].duration + stack[p + [l]].duration)]
    ensures MergeAt(m1, stack, p + [l]) == MergeLabels(sup, stack, p, done + {l})
  {
    var c := p + [l];
    var m2 := MergeAt(m1, stack, c);
    var target := MergeLabels(sup, stack, p, done + {l});
    BelowOneLabel(stack, p, l);
    assert BelowLabels(stack, p, done + {l}) == BelowLabels(stack, p, done) + BelowLabels(stack, p, {l});
    assert c in sup;
    assert merged[c] == sup[c];
    assert m2.Keys == target.Keys;
    forall q | q in m2.Keys
      ensures m2[q] == target[q]
    {
      if q in Below(stack, c) {
        assert q in BelowLabels(stack, p, {l}) && q !in BelowLabels(stack, p, done);
        assert q in m1 ==> q in sup && m1[q] == sup[q];
      } else if q == c {
      } else {
        assert q !in BelowLabels(stack, p, {l});
      }
    }
  }

  /** Changing the duration of a node keeps the paths, so a prefix-closed
      tree stays prefix closed. */
  lemma DurationUpdateKeepsPaths(t: Tree, c: Path, d: nat)
    requires PrefixClosed(t) && c in t
    ensures var u := t[c := t[c].(duration := d)];
            u.Keys == t.Keys && PrefixClosed(u)
  {
    var u := t[c := t[c].(duration := d)];
    assert u.Keys == t.Keys;
  }

  /** A prefix-closed tree has every prefix of its paths. */
  lemma PrefixOfHandle(t: Tree, c: Path, q: Path)
    requires PrefixClosed(t) && c <= q
    ensures q in t ==> c in t
  {
    if q in t {
      assert q[..|c|] == c;
    }
  }

  /** A prefix-closed tree has nothing below a path it lacks. */
  lemma NothingBelowMissing(t: Tree, c: Path)
    requires PrefixClosed(t) && c !in t
    ensures forall q :: c <= q ==> q !in t
  {
    forall q | c <= q
      ensures q !in t
    {
      PrefixOfHandle(t, c, q);
    }
  }

  /** The step of the loop in `merge_stacks` for a child the super tree does
      not have: attach the child's whole subtree. */
  lemma {:induction false} MergeStepAttach(sup: Tree, stack: Tree, p: Path, done: set<string>, l: string)
    requires PrefixClosed(sup) && PrefixClosed(stack) && p in sup
    requires l !in done && p + [l] in stack
    requires p + [l] !in MergeLabels(sup, stack, p, done)
    ensures var c := p + [l];
            MergeLabels(sup, stack, p, done) + Subtree(stack, c) == MergeLabels(sup, stack, p, done + {l})
  {
    var c := p + [l];
    var merged := MergeLabels(sup, stack, p, done);
    var sub := Subtree(stack, c);
    var target := MergeLabels(sup, stack, p, done + {l});
    assert c !in sup;
    BelowOneLabel(stack, p, l);
    assert BelowLabels(stack, p, done + {l}) == BelowLabels(stack, p, done) + BelowLabels(stack, p, {l});
    NothingBelowMissing(sup, c);
    assert (merged + sub).Keys == target.Keys;
  }

  /** `MergeAt` keeps the call-tree invariant. */
  lemma MergeAtValid(sup: Tree, stack: Tree, p: Path)
    requires ValidTree(sup) && ValidTree(stack) && p in sup
    ensures ValidTree(MergeAt(sup, stack, p))
  {
    MergeLabelsAll(sup, stack, p);
    MergeLabelsPrefixClosed(sup, stack, p, ChildLabels(stack, p));
  }

  /** Folding every thread's tree into the super tree, in the given order. */
  function MergeAll(sup: Tree, trees: seq<Tree>): Tree
    decreases |trees|
  {
    if trees == [] then sup else MergeAll(MergeAt(sup, trees[0], []), trees[1..])
  }

  /** The sum over the trees of the weight at `q`. */
  function SumWeights(trees: seq<Tree>, q: Path): nat
    decreases |trees|
  {
    if trees == [] then 0 else Weight(trees[0], q) + SumWeights(trees[1..], q)
  }

  /** Merge additivity: below the root, the merged tree's duration at a label
      path is the super tree's plus the sum over threads of theirs, and the
      merged tree has a path exactly when one of the trees has it. */
  lemma {:induction false} MergeAllSums(sup: Tree, trees: seq<Tree>, q: Path)
    requires q != []
    ensures Weight(MergeAll(sup, trees), q) == Weight(sup, q) + SumWeights(trees, q)
    ensures q in MergeAll(sup, trees) <==> q in sup || exists i :: 0 <= i < |trees| && q in trees[i]
    decreases |trees|
  {
    if trees != [] {
      MergeAllSums(MergeAt(sup, trees[0], []), trees[1..], q);
      assert [] < q;
      if q in MergeAll(sup, trees) && q !in sup && q !in trees[0] {
        var i :| 0 <= i < |trees[1..]| && q in trees[1..][i];
        assert q in trees[i + 1];
      }
      if i :| 0 <= i < |trees| && q in trees[i] {
        if i > 0 {
          assert q in trees[1..][i - 1];
        }
      }
    }
  }

  lemma {:induction false} SumWeightsConcat(a: seq<Tree>, b: seq<Tree>, q: Path)
    ensures SumWeights(a + b, q) == SumWeights(a, q) + SumWeights(b, q)
    decreases |a|
  {
    if a == [] {
      assert a + b == b;
    } else {
      assert (a + b)[0] == a[0];
      assert (a + b)[1..] == a[1..] + b;
      SumWeightsConcat(a[1..], b, q);
    }
  }

  /** The sum does not depend on the order of the trees. */
  lemma {:induction false} SumWeightsPermutation(a: seq<Tree>, b: seq<Tree>, q: Path)
    requires multiset(a) == multiset(b)
    ensures SumWeights(a, q) == SumWeights(b, q)
    decreases |a|
  {
    if a != [] {
      assert a[0] in multiset(b);
      var j :| 0 <= j < |b| && b[j] == a[0];
      RemoveOne(a, b, j);
      SumWeightsPermutation(a[1..], b[..j] + b[j + 1..], q);
      SumWeightsSplit(b, j, q);
    }
  }

  /** Taking the first tree off `a` and its copy at `j` off `b` keeps the multisets equal. */
  lemma RemoveOne(a: seq<Tree>, b: seq<Tree>, j: nat)
    requires multiset(a) == multiset(b) && a != [] && j < |b| && b[j] == a[0]
    ensures multiset(a[1..]) == multiset(b[..j] + b[j + 1..])
  {
    var rest := b[..j] + b[j + 1..];
    assert a == [a[0]] + a[1..];
    assert b == b[..j] + [b[j]] + b[j + 1..];
    assert multiset(b) == multiset(b[..j]) + multiset{b[j]} + multiset(b[j + 1..]);
    assert multiset(a[1..]) == multiset(a) - multiset{a[0]};
  }

  /** The sum over `b` is the tree at `j` plus the sum over the others. */
  lemma SumWeightsSplit(b: seq<Tree>, j: nat, q: Path)
    requires j < |b|
    ensures SumWeights(b, q) == Weight(b[j], q) + SumWeights(b[..j] + b[j + 1..], q)
  {
    assert b == b[..j] + [b[j]] + b[j + 1..];
    SumWeightsConcat(b[..j] + [b[j]], b[j + 1..], q);
    SumWeightsConcat(b[..j], [b[j]], q);
    SumWeightsConcat(b[..j], b[j + 1..], q);
    assert SumWeights([b[j]], q) == Weight(b[j], q);
  }

  /** Merge commutativity: merging the same thread trees in any order gives
      the same label paths with the same durations. */
  lemma MergeOrderIndependent(sup: Tree, a: seq<Tree>, b: seq<Tree>, q: Path)
    requires multiset(a) == multiset(b) && q != []
    ensures q in MergeAll(sup, a) <==> q in MergeAll(sup, b)
    ensures Weight(MergeAll(sup, a), q) == Weight(MergeAll(sup, b), q)
  {
    MergeAllSums(sup, a, q);
    MergeAllSums(sup, b, q);
    SumWeightsPermutation(a, b, q);
    if i :| 0 <= i < |a| && q in a[i] {
      assert a[i] in multiset(b);
    }
    if i :| 0 <= i < |b| && q in b[i] {
      assert b[i] in multiset(a);
    }
  }

  /** A stack fed one interval has a single top-level node holding its length. */
  lemma SingleIntervalRun(item: EventItem)
    requires ValidItem(item)
    ensures Weight(Run(InitialState(), [item]).nodes, [item.name]) == Length(item)
  {
    RunOne(InitialState(), item);
    assert Place(InitialState(), item).current == [item.name];
  }

  /** Two threads each report one top-level interval "main", of 30 and of 70:
      the merged tree has "main" with 100. */
  lemma TwoThreadScenario()
    ensures var t1 := Run(InitialState(), [EventItem("main", 1, 0, 30)]).nodes;
            var t2 := Run(InitialState(), [EventItem("main", 2, 5, 75)]).nodes;
            Weight(MergeAll(InitialState().nodes, [t1, t2]), ["main"]) == 100
  {
    var t1 := Run(InitialState(), [EventItem("main", 1, 0, 30)]).nodes;
    var t2 := Run(InitialState(), [EventItem("main", 2, 5, 75)]).nodes;
    SingleIntervalRun(EventItem("main", 1, 0, 30));
    SingleIntervalRun(EventItem("main", 2, 5, 75));
    MergeAllSums(InitialState().nodes, [t1, t2], ["main"]);
    assert SumWeights([t1, t2], ["main"]) == Weight(t1, ["main"]) + SumWeights([t2], ["main"]);
    assert SumWeights([t2], ["main"]) == Weight(t2, ["main"]) + SumWeights([], ["main"]);
  }
}
