/** The node structure of `BASparseArray` (BASparseArray.h and
    BASparseArrayPrivate.h), generic in the leaf storage `L` (a bit array or a
    sample array in the two specialisations).

    A node at level 0 is a leaf owning storage; a node at level `l > 0` has
    `scale` child slots, each empty until materialised. The leaves below a
    node of level `l` are numbered `0 .. scale^l - 1`, the top digit in radix
    `scale` naming the child and the rest passed down; storage index `i`
    belongs to leaf `i / leafSize` at offset `i % leafSize`. */
module SparseTrees {
  import opened Wrappers
  import opened Arith
  import opened SparseShape

  /** A child slot: not yet materialised, a leaf with its storage, or an
      interior node with its children. */
  datatype Node<L> = Absent | Leaf(storage: L) | Interior(children: seq<Node<L>>)

  /** Leaves only at level 0, and exactly `scale` child slots per interior
      node. */
  predicate WellFormed<L>(n: Node<L>, scale: nat, level: nat)
    decreases n
  {
    match n
    case Absent => true
    case Leaf(_) => level == 0
    case Interior(children) =>
      level >= 1 && |children| == scale
      && forall k | 0 <= k < |children| :: WellFormed(children[k], scale, level - 1)
  }

  /** A leaf number splits into the child slot and the number below it. */
  lemma LeafDigits(li: nat, scale: nat, level: nat)
    requires scale >= 1 && level >= 1
    ensures Pow(scale, level - 1) >= 1
    ensures li < Pow(scale, level) <==> li / Pow(scale, level - 1) < scale
    ensures li % Pow(scale, level - 1) < Pow(scale, level - 1)
    ensures li == li / Pow(scale, level - 1) * Pow(scale, level - 1) + li % Pow(scale, level - 1)
  {
    PowPositive(scale, level - 1);
    QuotientBelow(li, Pow(scale, level - 1), scale);
  }

  /** The storage of leaf `li` below `n`, when it has been materialised. */
  function LeafAt<L>(n: Node<L>, scale: nat, level: nat, li: nat): Option<L>
    requires scale >= 1
    decreases level
  {
    match n
    case Absent => None
    case Leaf(storage) => if level == 0 && li == 0 then Some(storage) else None
    case Interior(children) =>
      if level == 0 then None
      else
        PowPositive(scale, level - 1);
        var span := Pow(scale, level - 1);
        if li / span < |children| then LeafAt(children[li / span], scale, level - 1, li % span)
        else None
  }

  lemma LeafAtInterior<L>(children: seq<Node<L>>, scale: nat, level: nat, li: nat)
    requires scale >= 1 && level >= 1
    ensures Pow(scale, level - 1) >= 1
    ensures LeafAt(Interior(children), scale, level, li)
      == if li / Pow(scale, level - 1) < |children|
         then LeafAt(children[li / Pow(scale, level - 1)], scale, level - 1, li % Pow(scale, level - 1))
         else None
  {
    PowPositive(scale, level - 1);
  }

  /** Leaf numbers past the node's `scale^level` leaves hold nothing. */
  lemma {:induction false} LeafAtBeyond<L>(n: Node<L>, scale: nat, level: nat, li: nat)
    requires scale >= 1 && WellFormed(n, scale, level) && li >= Pow(scale, level)
    ensures LeafAt(n, scale, level, li) == None
  {
    if level >= 1 && n.Interior? {
      LeafDigits(li, scale, level);
    }
  }

  /** Installs `leaf` as leaf `li`, materialising the interior nodes on the
      way down (a new interior node has every slot empty). */
  function SetLeaf<L>(n: Node<L>, scale: nat, level: nat, li: nat, leaf: L): (r: Node<L>)
    requires scale >= 1 && WellFormed(n, scale, level) && li < Pow(scale, level)
    ensures WellFormed(r, scale, level)
    decreases level
  {
    if level == 0 then Leaf(leaf)
    else
      LeafDigits(li, scale, level);
      var span := Pow(scale, level - 1);
      var children := if n.Interior? then n.children else seq(scale, _ => Absent);
      var c := li / span;
      var children' := children[c := SetLeaf(children[c], scale, level - 1, li % span, leaf)];
      assert forall k | 0 <= k < scale :: WellFormed(children'[k], scale, level - 1);
      Interior(children')
  }

  /** After installing leaf `li`, leaf `li` is the installed storage and every
      other leaf is what it was. */
  lemma {:induction false} LeafAtSetLeaf<L>(n: Node<L>, scale: nat, level: nat, li: nat, leaf: L, lj: nat)
    requires scale >= 1 && WellFormed(n, scale, level) && li < Pow(scale, level)
    ensures LeafAt(SetLeaf(n, scale, level, li, leaf), scale, level, lj)
         == if lj == li then Some(leaf) else LeafAt(n, scale, level, lj)
    decreases level
  {
    var r := SetLeaf(n, scale, level, li, leaf);
    if lj >= Pow(scale, level) {
      LeafAtBeyond(r, scale, level, lj);
      LeafAtBeyond(n, scale, level, lj);
    } else if level >= 1 {
      LeafDigits(li, scale, level);
      LeafDigits(lj, scale, level);
      var span := Pow(scale, level - 1);
      var children := if n.Interior? then n.children else seq(scale, _ => Absent);
      var ci, cj := li / span, lj / span;
      if ci == cj {
        LeafAtSetLeaf(children[ci], scale, level - 1, li % span, leaf, lj % span);
      } else {
        assert r.children[cj] == children[cj];
      }
    }
  }

  // ---------------------------------------------------------------------------
  // Trees

  /** A `BASparseArray` node with its shape and level; the shape fields
      (`scale`, `leafSize`, `treeBase`, `treeSize`) derive from these. */
  datatype Tree<L> = Tree(shape: Shape, level: nat, root: Node<L>)

  predicate ValidTree<L>(t: Tree<L>) {
    ValidShape(t.shape) && WellFormed(t.root, Scale(t.shape), t.level)
  }

  /** The storage of leaf `li` of the tree, when materialised. */
  function TreeLeaf<L>(t: Tree<L>, li: nat): Option<L> {
    LeafAt(t.root, Scale(t.shape), t.level, li)
  }

  /** The tree with leaf `li` replaced by `leaf`. */
  function WithLeaf<L>(t: Tree<L>, li: nat, leaf: L): (r: Tree<L>)
    requires ValidTree(t) && li < LeafCount(t.shape, t.level)
    ensures ValidTree(r) && r.shape == t.shape && r.level == t.level
    ensures forall lj: nat :: TreeLeaf(r, lj) == if lj == li then Some(leaf) else TreeLeaf(t, lj)
  {
    var r := Tree(t.shape, t.level, SetLeaf(t.root, Scale(t.shape), t.level, li, leaf));
    assert forall lj: nat :: TreeLeaf(r, lj) == if lj == li then Some(leaf) else TreeLeaf(t, lj) by {
      forall lj: nat ensures TreeLeaf(r, lj) == if lj == li then Some(leaf) else TreeLeaf(t, lj) {
        LeafAtSetLeaf(t.root, Scale(t.shape), t.level, li, leaf, lj);
      }
    }
    r
  }

  /** `initWithBase:power:`: a level-1 root whose `scale` children are leaves,
      each owning `blank` storage. A shape outside one to three dimensions or
      with an empty leaf edge is rejected. */
  function InitialTree<L>(base: nat, power: nat, blank: L): (r: Result<Tree<L>>)
    ensures r.Success? <==> ValidShape(Shape(base, power))
    ensures r.Failure? ==> r.error == InvalidArgument
    ensures r.Success? ==> ValidTree(r.value) && r.value.shape == Shape(base, power) && r.value.level == 1
    ensures r.Success? ==> r.value.root.Interior? && |r.value.root.children| == Scale(r.value.shape)
    ensures r.Success? ==> forall li | 0 <= li < Scale(r.value.shape) :: TreeLeaf(r.value, li) == Some(blank)
  {
    var sh := Shape(base, power);
    if ValidShape(sh) then
      var t := Tree(sh, 1, Interior(seq(Scale(sh), _ => Leaf(blank))));
      assert Pow(Scale(sh), 0) == 1;
      Success(t)
    else Failure(InvalidArgument)
  }

  /** A blank tree holds `scale` leaves of `leafSize` cells: its size is
      `leafSize * scale`. */
  lemma InitialTreeSize<L>(base: nat, power: nat, blank: L)
    requires ValidShape(Shape(base, power))
    ensures TreeSize(Shape(base, power), InitialTree(base, power, blank).value.level)
         == LeafSize(Shape(base, power)) * Scale(Shape(base, power))
  {
    TreeSizeFactors(Shape(base, power), 1);
  }

  /** `initWithChild:position:`: a parent one level up holding `child` in slot
      `position`, its other slots empty. */
  function InitWithChild<L>(child: Tree<L>, position: nat): (r: Result<Tree<L>>)
    requires ValidTree(child)
    ensures r.Success? <==> position < Scale(child.shape)
    ensures r.Failure? ==> r.error == OutOfRange
    ensures r.Success? ==> ValidTree(r.value) && r.value.shape == child.shape && r.value.level == child.level + 1
    ensures r.Success? ==> r.value.root.Interior? && r.value.root.children[position] == child.root
    ensures r.Success? ==> forall k | 0 <= k < Scale(child.shape) && k != position :: r.value.root.children[k] == Absent
  {
    if position < Scale(child.shape) then
      var children := seq(Scale(child.shape), _ => Absent)[position := child.root];
      Success(Tree(child.shape, child.level + 1, Interior(children)))
    else Failure(OutOfRange)
  }

  /** The parent's leaves: the child's leaves, shifted to the block of
      `scale^level` leaf numbers that `position` selects, and nothing
      elsewhere. */
  lemma InitWithChildLeaves<L>(child: Tree<L>, position: nat)
    requires ValidTree(child) && position < Scale(child.shape)
    ensures forall lj: nat ::
      (TreeLeaf(InitWithChild(child, position).value, lj)
       == if lj / LeafCount(child.shape, child.level) == position
          then TreeLeaf(child, lj % LeafCount(child.shape, child.level)) else None)
  {
    var parent := InitWithChild(child, position).value;
    forall lj: nat
      ensures TreeLeaf(parent, lj)
        == if lj / LeafCount(child.shape, child.level) == position
           then TreeLeaf(child, lj % LeafCount(child.shape, child.level)) else None
    {
      ParentLeaf(child, position, parent, lj);
    }
  }

  lemma ParentLeaf<L>(child: Tree<L>, position: nat, parent: Tree<L>, lj: nat)
    requires ValidTree(child) && position < Scale(child.shape)
    requires parent == InitWithChild(child, position).value
    ensures TreeLeaf(parent, lj)
        == if lj / LeafCount(child.shape, child.level) == position
           then TreeLeaf(child, lj % LeafCount(child.shape, child.level)) else None
  {
    LeafAtOneChild(parent.root.children, Scale(child.shape), child.level, position, child.root, lj);
  }

  /** An interior node whose only occupied slot is `position`. */
  lemma LeafAtOneChild<L>(children: seq<Node<L>>, scale: nat, level: nat, position: nat, node: Node<L>, lj: nat)
    requires scale >= 1 && position < scale && |children| == scale && children[position] == node
    requires forall k | 0 <= k < scale && k != position :: children[k] == Absent
    ensures Pow(scale, level) >= 1
    ensures LeafAt(Interior(children), scale, level + 1, lj)
      == if lj / Pow(scale, level) == position then LeafAt(node, scale, level, lj % Pow(scale, level)) else None
  {
    LeafAtInterior(children, scale, level + 1, lj);
    var c := lj / Pow(scale, level);
    if c < scale && c != position {
      assert children[c] == Absent;
    }
  }

  /** `r` keeps every leaf of `t` under the same number, and its other leaf
      numbers are empty. */
  ghost predicate LeavesExtend<L>(r: Tree<L>, t: Tree<L>) {
    forall lj: nat :: TreeLeaf(r, lj) == (if lj < LeafCount(t.shape, t.level) then TreeLeaf(t, lj) else None)
  }

  lemma LeavesExtendRefl<L>(t: Tree<L>)
    requires ValidTree(t)
    ensures LeavesExtend(t, t)
  {
    forall lj: nat | lj >= LeafCount(t.shape, t.level)
      ensures TreeLeaf(t, lj) == None
    {
      LeafAtBeyond(t.root, Scale(t.shape), t.level, lj);
    }
  }

  lemma LeavesExtendTrans<L>(r: Tree<L>, s: Tree<L>, t: Tree<L>)
    requires LeavesExtend(r, s) && LeavesExtend(s, t)
    requires LeafCount(t.shape, t.level) <= LeafCount(s.shape, s.level)
    ensures LeavesExtend(r, t)
  {
    forall lj: nat
      ensures TreeLeaf(r, lj) == (if lj < LeafCount(t.shape, t.level) then TreeLeaf(t, lj) else None)
    {
      assert TreeLeaf(r, lj) == (if lj < LeafCount(s.shape, s.level) then TreeLeaf(s, lj) else None);
    }
  }

  /** Wrapping the root as child 0 keeps every leaf number. */
  lemma GrowExtends<L>(t: Tree<L>)
    requires ValidTree(t)
    ensures Scale(t.shape) >= 1
    ensures LeavesExtend(InitWithChild(t, 0).value, t)
  {
    var lc := LeafCount(t.shape, t.level);
    InitWithChildLeaves(t, 0);
    forall lj: nat
      ensures TreeLeaf(InitWithChild(t, 0).value, lj) == (if lj < lc then TreeLeaf(t, lj) else None)
    {
      QuotientBelow(lj, lc, 1);
      if lj < lc {
        DivModUnique(lj, lc, 0, lj);
      }
    }
  }

  /** `expandToFitSize:`: wraps the root as child 0 of a new root, level by
      level, until the tree size reaches `size`. Every leaf keeps its number
      (so every storage index its cell); the new leaf numbers are empty; and
      no more levels are added than needed. */
  function ExpandToFitSize<L>(t: Tree<L>, size: nat): (r: Tree<L>)
    requires ValidTree(t)
    ensures ValidTree(r) && r.shape == t.shape && r.level >= t.level
    ensures TreeSize(r.shape, r.level) >= size
    ensures r.level > t.level ==> TreeSize(r.shape, r.level - 1) < size
    ensures TreeSize(t.shape, t.level) >= size ==> r == t
    ensures LeafCount(t.shape, t.level) <= LeafCount(r.shape, r.level)
    ensures LeavesExtend(r, t)
    ensures t.level < TableSize && size <= TreeSize(t.shape, TableSize - 1) ==> r.level < TableSize
    decreases size - TreeSize(t.shape, t.level)
  {
    if TreeSize(t.shape, t.level) >= size then
      LeavesExtendRefl(t);
      t
    else
      var parent := InitWithChild(t, 0).value;
      TreeSizeGrows(t.shape, t.level);
      GrowExtends(t);
      LeafCountStep(t.shape, t.level);
      var r := ExpandToFitSize(parent, size);
      LeavesExtendTrans(r, parent, t);
      if r.level >= TableSize then
        TreeSizeMonotone(t.shape, TableSize - 1, r.level - 1);
        r
      else r
  }

  lemma LeafCountStep(sh: Shape, level: nat)
    ensures LeafCount(sh, level + 1) == Scale(sh) * LeafCount(sh, level)
    ensures LeafCount(sh, level) <= LeafCount(sh, level + 1)
  {
    MulAtLeast(LeafCount(sh, level), Scale(sh));
  }

  /** `childAtIndex:`: the subtree in slot `index`, one level down, whose
      leaves are the parent's leaves in that slot's block. A leaf has no
      slots. */
  function ChildAtIndex<L>(t: Tree<L>, index: nat): (r: Result<Tree<L>>)
    requires ValidTree(t)
    ensures r.Success? <==> t.level >= 1 && index < Scale(t.shape)
    ensures r.Failure? ==> r.error == OutOfRange
    ensures r.Success? ==> ValidTree(r.value) && r.value.shape == t.shape && r.value.level == t.level - 1
    ensures r.Success? ==> forall lj | 0 <= lj < LeafCount(t.shape, t.level - 1) ::
      TreeLeaf(r.value, lj) == TreeLeaf(t, index * LeafCount(t.shape, t.level - 1) + lj)
  {
    if t.level >= 1 && index < Scale(t.shape) then
      var child := if t.root.Interior? then t.root.children[index] else Absent;
      var c := Tree(t.shape, t.level - 1, child);
      assert forall lj | 0 <= lj < LeafCount(t.shape, t.level - 1) ::
        TreeLeaf(c, lj) == TreeLeaf(t, index * LeafCount(t.shape, t.level - 1) + lj) by {
        forall lj | 0 <= lj < LeafCount(t.shape, t.level - 1)
          ensures TreeLeaf(c, lj) == TreeLeaf(t, index * LeafCount(t.shape, t.level - 1) + lj)
        {
          LeafMajorSplit(index, LeafCount(t.shape, t.level - 1), lj);
        }
      }
      Success(c)
    else Failure(OutOfRange)
  }

  /** The result of `leafForStorageIndex:offset:`: the tree after any
      materialisation, the leaf's storage and the offset inside it. */
  datatype LeafLookup<L> = LeafLookup(tree: Tree<L>, leaf: L, offset: nat)

  /** A storage index lies inside the tree exactly when its leaf does. */
  lemma StorageIndexSplit(sh: Shape, level: nat, index: nat)
    requires ValidShape(sh)
    ensures index < TreeSize(sh, level) <==> LeafOf(sh, index) < LeafCount(sh, level)
  {
    var size, li, o := LeafSize(sh), LeafOf(sh, index), OffsetInLeaf(sh, index);
    TreeSizeFactors(sh, level);
    LeafMajorSplit(li, size, o);
    QuotientBelow(index, size, LeafCount(sh, level));
  }

  /** Leaf `li` created with `blank` storage if absent; no other leaf
      changes. */
  function Materialise<L>(t: Tree<L>, li: nat, blank: L): (r: Tree<L>)
    requires ValidTree(t) && li < LeafCount(t.shape, t.level)
    ensures ValidTree(r) && r.shape == t.shape && r.level == t.level
    ensures TreeLeaf(r, li) == Some(TreeLeaf(t, li).GetOr(blank))
    ensures forall lj: nat | lj != li :: TreeLeaf(r, lj) == TreeLeaf(t, lj)
  {
    WithLeaf(t, li, TreeLeaf(t, li).GetOr(blank))
  }

  /** `leafForStorageIndex:offset:`: the leaf owning storage index `index`,
      created with `blank` storage (with its interior nodes) if absent, and the
      offset of the index inside it. Only that leaf can change. An index past
      the tree is out of range; callers expand first. */
  function LeafForStorageIndex<L>(t: Tree<L>, index: nat, blank: L): (r: Result<LeafLookup<L>>)
    requires ValidTree(t)
    ensures r.Success? <==> index < TreeSize(t.shape, t.level)
    ensures r.Success? <==> LeafOf(t.shape, index) < LeafCount(t.shape, t.level)
    ensures r.Failure? ==> r.error == OutOfRange
    ensures r.Success? ==> r.value.tree == Materialise(t, LeafOf(t.shape, index), blank)
    ensures r.Success? ==> r.value.offset == OffsetInLeaf(t.shape, index)
    ensures r.Success? ==> r.value.leaf == TreeLeaf(t, LeafOf(t.shape, index)).GetOr(blank)
  {
    StorageIndexSplit(t.shape, t.level, index);
    if index < TreeSize(t.shape, t.level) then
      var li := LeafOf(t.shape, index);
      Success(LeafLookup(Materialise(t, li, blank), TreeLeaf(t, li).GetOr(blank), OffsetInLeaf(t.shape, index)))
    else Failure(OutOfRange)
  }
}
