/** The text the flame graph page embeds (`HTMLFlameGraphWritter`,
    src/converters/flamegraph_converter.rs): every node of the merged tree
    except the root becomes a JavaScript object literal
    `{ name: "<label>", value: <duration>, children: [ ... ] }`, each child
    followed by a comma. The meaning of that text is a `Flame` value tree,
    and the lemmas below say which durations it shows. */
module FlamegraphRender {
  import opened Prelude
  import opened FlamegraphTree
  import opened FlamegraphMerge

  /** One object literal of the page: a label, a duration and the children. */
  datatype Flame = Flame(name: string, value: nat, children: seq<Flame>)

  /** The order in which the children map of each node yields its labels. A
      hash map's order is arbitrary, so it is a given of the model. */
  type SiblingOrder = map<Path, seq<string>>

  /** `order` lists, for every node, each child label exactly once. */
  ghost predicate OrderFits(t: Tree, order: SiblingOrder) {
    forall q :: q in t ==> q in order && ListsChildren(t, q, order[q])
  }

  /** `ls` names each child of `q` exactly once. */
  ghost predicate ListsChildren(t: Tree, q: Path, ls: seq<string>) {
    && (forall l :: l in ls <==> q + [l] in t)
    && (forall i, j :: 0 <= i < j < |ls| ==> ls[i] != ls[j])
  }

  lemma BelowShrinks(t: Tree, q: Path, l: string)
    requires q + [l] in t
    ensures Below(t, q + [l]) < Below(t, q)
  {
    assert q < q + [l];
    assert q + [l] in Below(t, q) && q + [l] !in Below(t, q + [l]);
  }

  /** The object literal written for the node at `q`. */
  function FlameOf(t: Tree, order: SiblingOrder, q: Path): Flame
    requires OrderFits(t, order) && q in t
    decreases Below(t, q), 1
  {
    Flame(t[q].name, t[q].duration, FlamesOf(t, order, q, order[q]))
  }

  /** The object literals written for the children of `q` named by `ls`, in order. */
  function FlamesOf(t: Tree, order: SiblingOrder, q: Path, ls: seq<string>): (fs: seq<Flame>)
    requires OrderFits(t, order) && q in t
    requires forall i :: 0 <= i < |ls| ==> q + [ls[i]] in t
    ensures |fs| == |ls|
    decreases Below(t, q), 0, |ls|
  {
    if ls == [] then []
    else
      var l := ls[|ls| - 1];
      BelowShrinks(t, q, l);
      FlamesOf(t, order, q, ls[..|ls| - 1]) + [FlameOf(t, order, q + [l])]
  }

  /** The text of one object literal. */
  function Serialize(f: Flame): string
    decreases f, 1
  {
    "{ name: \"" + f.name + "\", value: " + Decimal(f.value) + ", children: ["
      + SerializeAll(f.children) + "] }"
  }

  /** The text of a list of object literals: each one followed by a comma. */
  function SerializeAll(fs: seq<Flame>): string
    decreases fs, 0
  {
    if fs == [] then ""
    else SerializeAll(fs[..|fs| - 1]) + Serialize(fs[|fs| - 1]) + ","
  }

  /** What `write_stack_item` writes for the node at `q`: the root contributes
      only its children, every other node its own object literal. */
  function ItemText(t: Tree, order: SiblingOrder, q: Path): string
    requires OrderFits(t, order) && q in t
  {
    if q == [] then SerializeAll(FlamesOf(t, order, q, order[q]))
    else Serialize(FlameOf(t, order, q))
  }

  /** The opening of a node's object literal, up to its children. */
  function OpenText(s: StackItem): string {
    "{ name: \"" + s.name + "\", value: " + Decimal(s.duration) + ", children: ["
  }

  lemma ItemTextNonRoot(t: Tree, order: SiblingOrder, q: Path)
    requires OrderFits(t, order) && q in t && q != []
    ensures ItemText(t, order, q) == OpenText(t[q]) + SerializeAll(FlamesOf(t, order, q, order[q])) + "] }"
  {
  }

  /** Writing one more child extends the text by that child's literal and a comma. */
  lemma FlamesSnoc(t: Tree, order: SiblingOrder, q: Path, ls: seq<string>, i: nat)
    requires OrderFits(t, order) && q in t && i < |ls|
    requires forall j :: 0 <= j < |ls| ==> q + [ls[j]] in t
    ensures SerializeAll(FlamesOf(t, order, q, ls[..i + 1]))
         == SerializeAll(FlamesOf(t, order, q, ls[..i])) + ItemText(t, order, q + [ls[i]]) + ","
  {
    assert ls[..i + 1][..i] == ls[..i];
    var before := FlamesOf(t, order, q, ls[..i]);
    var fs := FlamesOf(t, order, q, ls[..i + 1]);
    assert fs == before + [FlameOf(t, order, q + [ls[i]])];
    assert fs[..|fs| - 1] == before;
  }

  /** The first literal of `fs` named `name`. */
  function Find(fs: seq<Flame>, name: string): (r: Option<Flame>)
    ensures r.Some? ==> r.value in fs && r.value.name == name
    ensures r.None? ==> forall i :: 0 <= i < |fs| ==> fs[i].name != name
  {
    if fs == [] then None
    else if fs[0].name == name then Some(fs[0])
    else Find(fs[1..], name)
  }

  /** The value shown at the label path `r` below the literals `fs`, if any:
      what a reader of the page finds by following `r` label by label. */
  function FlameAt(fs: seq<Flame>, r: Path): Option<nat>
    requires r != []
    decreases r
  {
    match Find(fs, r[0])
    case None => None
    case Some(f) => if |r| == 1 then Some(f.value) else FlameAt(f.children, r[1..])
  }

  lemma {:induction false} FindChild(t: Tree, order: SiblingOrder, q: Path, ls: seq<string>, l: string)
    requires ValidTree(t) && OrderFits(t, order) && q in t
    requires forall i :: 0 <= i < |ls| ==> q + [ls[i]] in t
    ensures Find(FlamesOf(t, order, q, ls), l) == if l in ls then Some(FlameOf(t, order, q + [l])) else None
    decreases |ls|
  {
    var fs := FlamesOf(t, order, q, ls);
    if ls != [] {
      var init := ls[..|ls| - 1];
      var last := ls[|ls| - 1];
      FindChild(t, order, q, init, l);
      FindAppend(FlamesOf(t, order, q, init), FlameOf(t, order, q + [last]), l);
      assert FlameOf(t, order, q + [last]).name == last;
      assert l in ls <==> l in init || l == last;
      if l in init {
        var k :| 0 <= k < |init| && init[k] == l;
        assert FlameOf(t, order, q + [init[k]]).name == l;
      }
    }
  }

  lemma {:induction false} FindAppend(fs: seq<Flame>, f: Flame, name: string)
    ensures Find(fs + [f], name) == match Find(fs, name)
                                    case Some(g) => Some(g)
                                    case None => if f.name == name then Some(f) else None
    decreases |fs|
  {
    if fs != [] {
      assert (fs + [f])[1..] == fs[1..] + [f];
      FindAppend(fs[1..], f, name);
    } else {
      assert (fs + [f])[1..] == [];
    }
  }

  /** The page shows every node of the tree below `q`, and only those, each
      with the duration the tree records, whatever order the children are
      written in. */
  lemma {:induction false} FlameContents(t: Tree, order: SiblingOrder, q: Path, r: Path)
    requires ValidTree(t) && OrderFits(t, order) && q in t && r != []
    ensures FlameAt(FlamesOf(t, order, q, order[q]), r) == if q + r in t then Some(t[q + r].duration) else None
    decreases |r|
  {
    var l := r[0];
    var c := q + [l];
    FindChild(t, order, q, order[q], l);
    assert q + r == c + r[1..];
    if c in t {
      if |r| > 1 {
        FlameContents(t, order, c, r[1..]);
      } else {
        assert q + r == c;
      }
    } else {
      assert (q + r)[..|q| + 1] == c;
    }
  }

  /** The rendered tree shows exactly the nodes of `t` other than the root,
      each with its duration. */
  lemma RenderShowsTree(t: Tree, order: SiblingOrder, r: Path)
    requires ValidTree(t) && OrderFits(t, order) && r != []
    ensures FlameAt(FlamesOf(t, order, [], order[[]]), r) == if r in t then Some(t[r].duration) else None
  {
    FlameContents(t, order, [], r);
    assert [] + r == r;
  }

  /** Two renderings of the same tree in different sibling orders show the same
      value at every label path. */
  lemma RenderOrderIndependent(t: Tree, o1: SiblingOrder, o2: SiblingOrder, r: Path)
    requires ValidTree(t) && OrderFits(t, o1) && OrderFits(t, o2) && r != []
    ensures FlameAt(FlamesOf(t, o1, [], o1[[]]), r) == FlameAt(FlamesOf(t, o2, [], o2[[]]), r)
  {
    RenderShowsTree(t, o1, r);
    RenderShowsTree(t, o2, r);
  }

  /** The labels of the children of `q`, in the order the node's children
      map yields them: each exactly once. */
  method ChildLabelList(t: Tree, q: Path) returns (ls: seq<string>)
    ensures ListsChildren(t, q, ls)
  {
    ls := Enumerate(ChildLabels(t, q));
  }

  /** The sibling order of every node of `t`, as the children maps yield them. */
  method SiblingOrderOf(t: Tree) returns (order: SiblingOrder)
    ensures OrderFits(t, order)
  {
    order := map[];
    var todo := t.Keys;
    while todo != {}
      invariant todo <= t.Keys
      invariant forall q :: q in t && q !in todo ==> q in order && ListsChildren(t, q, order[q])
      decreases |todo|
    {
      var q :| q in todo;
      var ls := ChildLabelList(t, q);
      order := order[q := ls];
      todo := todo - {q};
    }
  }

  /** The text after the page's style sheets and scripts, where the tree begins. */
  const DatumOpen: string := "d3.select(\"body\").datum({ children: ["

  /** `write_footer`: closes the tree and the page. */
  const Footer: string := "]}).call(flamegraph);\n         </script>\n    </body>\n</html>"

  /** The whole page: the preamble (style sheets and scripts), the tree
      and the footer. */
  function PageText(preamble: string, t: Tree, order: SiblingOrder): string
    requires [] in t && OrderFits(t, order)
  {
    preamble + DatumOpen + ItemText(t, order, []) + Footer
  }

  /** `HTMLFlameGraphWritter`: the output written so far. */
  class FlameGraphWriter {
    var written: string

    constructor ()
      ensures written == []
    {
      written := [];
    }

    /** `is_root`: only the root has no parent; every other node's parent is
        a node of the tree that lists it among its children. */
    predicate IsRoot(t: Tree, q: Path)
      requires PrefixClosed(t) && q in t
      ensures IsRoot(t, q) <==> q == []
      ensures !IsRoot(t, q) ==> Parent(q) in t && LastLabel(q) in ChildLabels(t, Parent(q))
    {
      if q == [] then true
      else
        assert q[..|q| - 1] in t;
        assert Parent(q) + [LastLabel(q)] == q;
        false
    }

    /** `write_stack_item`: appends the node's text, recursively. */
    method WriteStackItem(t: Tree, order: SiblingOrder, q: Path)
      requires PrefixClosed(t) && OrderFits(t, order) && q in t
      modifies this
      ensures written == old(written) + ItemText(t, order, q)
      decreases Below(t, q)
    {
      var root := IsRoot(t, q);
      if !root {
        written := written + OpenText(t[q]);
      }
      ghost var start := written;
      var ls := order[q];
      assert ListsChildren(t, q, ls);
      assert forall j :: 0 <= j < |ls| ==> q + [ls[j]] in t;
      var i := 0;
      while i < |ls|
        invariant 0 <= i <= |ls|
        invariant written == start + SerializeAll(FlamesOf(t, order, q, ls[..i]))
      {
        BelowShrinks(t, q, ls[i]);
        ghost var prev := SerializeAll(FlamesOf(t, order, q, ls[..i]));
        WriteStackItem(t, order, q + [ls[i]]);
        ghost var child := ItemText(t, order, q + [ls[i]]);
        written := written + ",";
        ConcatAssoc(start, prev, child);
        ConcatAssoc(start, prev + child, ",");
        FlamesSnoc(t, order, q, ls, i);
        i := i + 1;
      }
      assert ls[..i] == ls;
      ghost var body := SerializeAll(FlamesOf(t, order, q, ls));
      if !root {
        written := written + "] }";
        ItemTextNonRoot(t, order, q);
        ConcatAssoc(old(written), OpenText(t[q]), body);
        ConcatAssoc(old(written), OpenText(t[q]) + body, "] }");
      } else {
        assert ItemText(t, order, q) == body;
      }
    }

    /** `write_flamegraph`: the page's preamble (style sheets and scripts),
        the tree, and the footer. */
    method WriteFlamegraph(preamble: string, t: Tree, order: SiblingOrder)
      requires PrefixClosed(t) && [] in t && OrderFits(t, order)
      modifies this
      ensures written == old(written) + PageText(preamble, t, order)
    {
      written := written + (preamble + DatumOpen);
      WriteStackItem(t, order, []);
      written := written + Footer;
      ConcatAssoc(old(written), preamble + DatumOpen, ItemText(t, order, []));
      ConcatAssoc(old(written), preamble + DatumOpen + ItemText(t, order, []), Footer);
    }
  }
}
