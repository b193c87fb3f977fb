/** Positions in the tree and the tree invariants. A position is the path
    of slot indices from the root, which names one node the way a Java
    reference does in a tree where every node has a single parent. */
module TreePaths {
  import opened Organisms

  type Path = seq<SlotIndex>

  /** The node at path `p` below `n`, if every slot on the way is filled. */
  function At(n: Node, p: Path): Option<Node>
    decreases |p|
  {
    if p == [] then Some(n)
    else match Slot(n, p[0]) {
      case None => None
      case Some(c) => At(c, p[1..])
    }
  }

  /** `n` with the subtree at `p` replaced by `s`: the tree after the node
      at `p` has been updated in place. */
  function Replace(n: Node, p: Path, s: Node): Node
    requires At(n, p).Some?
    decreases |p|
  {
    if p == [] then s
    else WithSlot(n, p[0], Some(Replace(Slot(n, p[0]).value, p[1..], s)))
  }

  /** Sibling names are unique (case-sensitively). */
  predicate SiblingsDistinct(n: Node)
  {
    var cs := Children(n);
    forall i, j :: 0 <= i < j < |cs| ==> cs[i].name != cs[j].name
  }

  /** The invariants of one node: gap-free slots, plants are leaves, and
      distinct sibling names. */
  predicate LocallyValid(n: Node)
  {
    GapFree(n) && (n.isPlant ==> Children(n) == []) && SiblingsDistinct(n)
  }

  /** Every node of the tree is locally valid. */
  predicate WellFormed(n: Node)
    decreases n
  {
    LocallyValid(n)
    && (n.left.Some? ==> WellFormed(n.left.value))
    && (n.middle.Some? ==> WellFormed(n.middle.value))
    && (n.right.Some? ==> WellFormed(n.right.value))
  }

  /** A node is well formed when it is locally valid and all its prey are. */
  lemma WellFormedFromChildren(n: Node)
    requires LocallyValid(n)
    requires forall i :: 0 <= i < |Children(n)| ==> WellFormed(Children(n)[i])
    ensures WellFormed(n)
  {
    GapFreeSlots(n);
    if n.left.Some? { assert WellFormed(Children(n)[0]); }
    if n.middle.Some? { assert WellFormed(Children(n)[1]); }
    if n.right.Some? { assert WellFormed(Children(n)[2]); }
  }

  /** The prey of a well-formed node are well formed. */
  lemma ChildrenWellFormed(n: Node)
    requires WellFormed(n)
    ensures forall i :: 0 <= i < |Children(n)| ==> WellFormed(Children(n)[i])
  {
  }

  /** A node with no prey satisfies every invariant. */
  lemma LeafWellFormed(name: string, isPlant: bool, isHerbivore: bool, isCarnivore: bool)
    ensures WellFormed(Leaf(name, isPlant, isHerbivore, isCarnivore))
  {
  }

  /** Walking one more slot from a reachable node. */
  lemma {:induction false} AtExtend(n: Node, p: Path, i: SlotIndex)
    requires At(n, p).Some?
    ensures At(n, p + [i]) == Slot(At(n, p).value, i)
    decreases |p|
  {
    if p != [] {
      assert (p + [i])[0] == p[0];
      assert (p + [i])[1..] == p[1..] + [i];
      AtExtend(Slot(n, p[0]).value, p[1..], i);
    } else {
      assert [] + [i] == [i];
      assert [i][1..] == [];
    }
  }

  /** Walking a path in two steps. */
  lemma {:induction false} AtConcat(n: Node, p: Path, q: Path)
    requires At(n, p).Some?
    ensures At(n, p + q) == At(At(n, p).value, q)
    decreases |p|
  {
    if p == [] {
      assert p + q == q;
    } else {
      assert (p + q)[0] == p[0];
      assert (p + q)[1..] == p[1..] + q;
      AtConcat(Slot(n, p[0]).value, p[1..], q);
    }
  }

  /** Every node reachable in a well-formed tree is well formed. */
  lemma {:induction false} WellFormedAt(n: Node, p: Path)
    requires WellFormed(n) && At(n, p).Some?
    ensures WellFormed(At(n, p).value)
    decreases |p|
  {
    if p != [] {
      WellFormedAt(Slot(n, p[0]).value, p[1..]);
    }
  }

  /** After the replacement the replaced position holds `s`. */
  lemma {:induction false} ReplaceAt(n: Node, p: Path, s: Node)
    requires At(n, p).Some?
    ensures At(Replace(n, p, s), p) == Some(s)
    decreases |p|
  {
    if p != [] {
      ReplaceAt(Slot(n, p[0]).value, p[1..], s);
    }
  }

  /** Below the replaced position the tree is the new subtree. */
  lemma {:induction false} ReplaceBelow(n: Node, p: Path, s: Node, q: Path)
    requires At(n, p).Some?
    ensures At(Replace(n, p, s), p + q) == At(s, q)
  {
    ReplaceAt(n, p, s);
    AtConcat(Replace(n, p, s), p, q);
  }

  /** A position that is neither above nor below the replaced one still
      holds the same subtree: nothing outside the updated node changes. */
  lemma {:induction false} ReplaceElsewhere(n: Node, p: Path, s: Node, q: Path)
    requires At(n, p).Some?
    requires !(p <= q) && !(q <= p)
    ensures At(Replace(n, p, s), q) == At(n, q)
    decreases |p|
  {
    assert p != [] && q != [];
    if p[0] == q[0] {
      ReplaceElsewhere(Slot(n, p[0]).value, p[1..], s, q[1..]);
    }
  }

  /** On the way down to the replaced position every node stays the same
      organism and keeps the slots that are not on the way. */
  lemma {:induction false} ReplaceAbove(n: Node, p: Path, s: Node, q: Path)
    requires At(n, p).Some? && q < p
    ensures At(Replace(n, p, s), q).Some? && At(n, q).Some?
    ensures SameOrganism(At(Replace(n, p, s), q).value, At(n, q).value)
    ensures forall i: SlotIndex :: i != p[|q|] ==>
      Slot(At(Replace(n, p, s), q).value, i) == Slot(At(n, q).value, i)
    decreases |q|
  {
    if q != [] {
      assert p[0] == q[0];
      assert p[1..][..|q| - 1] == q[1..];
      ReplaceAbove(Slot(n, p[0]).value, p[1..], s, q[1..]);
    }
  }

  /** Replacing a node by the same organism keeps the root organism. */
  lemma ReplaceKeepsRoot(n: Node, p: Path, s: Node)
    requires At(n, p).Some? && SameOrganism(s, At(n, p).value)
    ensures SameOrganism(Replace(n, p, s), n)
  {
  }

  /** Replacing a node by a well-formed node with the same name and
      classification keeps the whole tree well formed. */
  lemma {:induction false} ReplaceWellFormed(n: Node, p: Path, s: Node)
    requires WellFormed(n) && At(n, p).Some?
    requires WellFormed(s) && SameOrganism(s, At(n, p).value)
    ensures WellFormed(Replace(n, p, s))
    decreases |p|
  {
    if p != [] {
      var c := Slot(n, p[0]).value;
      ReplaceWellFormed(c, p[1..], s);
      ReplaceKeepsRoot(c, p[1..], s);
      WithSlotWellFormed(n, p[0], Replace(c, p[1..], s));
    }
  }

  /** Putting a well-formed node with the same name into an occupied slot
      keeps a well-formed node well formed. */
  lemma WithSlotWellFormed(n: Node, i: SlotIndex, c: Node)
    requires WellFormed(n) && Slot(n, i).Some?
    requires WellFormed(c) && c.name == Slot(n, i).value.name
    ensures WellFormed(WithSlot(n, i, Some(c)))
  {
    WithSlotLocallyValid(n, i, c);
  }

  lemma WithSlotLocallyValid(n: Node, i: SlotIndex, c: Node)
    requires LocallyValid(n) && Slot(n, i).Some?
    requires c.name == Slot(n, i).value.name
    ensures LocallyValid(WithSlot(n, i, Some(c)))
  {
    var r := WithSlot(n, i, Some(c));
    ChildrenWithSlot(n, i, c);
    var cs, rs := Children(n), Children(r);
    assert forall k :: 0 <= k < |rs| ==> rs[k].name == cs[k].name;
  }

  /** Filling an occupied slot of a gap-free node replaces one prey. */
  lemma ChildrenWithSlot(n: Node, i: SlotIndex, c: Node)
    requires GapFree(n) && Slot(n, i).Some?
    ensures i < |Children(n)|
    ensures Children(WithSlot(n, i, Some(c))) == Children(n)[i := c]
  {
    var r := WithSlot(n, i, Some(c));
    ChildrenList(n);
    ChildrenList(r);
  }
}
