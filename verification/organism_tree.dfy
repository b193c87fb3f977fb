/** The food web tree: the apex predator at the root, a cursor that marks
    the node most operations act on, and the validated edits and queries
    relative to the cursor. */
module OrganismTrees {
  import opened Organisms
  import opened TreePaths
  import opened Traversals
  import opened Text

  const CursorNotFound := "Cursor not found in the tree."
  const NoPlantsFound := "No plants found supporting the cursor."

  /** Some direct prey of `c` is called `name` (case-sensitively): the
      duplicate check both add operations make first, tested slot by slot,
      is membership among the prey names. */
  function HasChildNamed(c: Node, name: string): (b: bool)
    ensures b <==> name in Names(Children(c))
  {
    var ns := Names(Children(c));
    if c.left.Some? && c.left.value.name == name then
      assert ns[0] == name;
      true
    else if c.middle.Some? && c.middle.value.name == name then
      assert ns[|Present(c.left)|] == name;
      true
    else if c.right.Some? && c.right.value.name == name then
      assert ns[|ns| - 1] == name;
      true
    else false
  }

  /** The left, middle, right test chain of `moveCursor` and `removeChild`
      picks the first matching prey in slot order, or none. */
  lemma SlotMatch(c: Node, name: string, ignoreCase: bool)
    requires GapFree(c)
    ensures var cs := Children(c);
            var k := FirstMatch(Names(cs), name, ignoreCase);
            if c.left.Some? && Matches(c.left.value.name, name, ignoreCase) then k == 0
            else if c.middle.Some? && Matches(c.middle.value.name, name, ignoreCase) then k == 1
            else if c.right.Some? && Matches(c.right.value.name, name, ignoreCase) then k == 2
            else k == |cs|
  {
    GapFreeSlots(c);
    var cs := Children(c);
    var ns := Names(cs);
    var k := FirstMatch(ns, name, ignoreCase);
    forall j | 0 <= j < |cs| ensures Slot(c, j).Some? && ns[j] == Slot(c, j).value.name {
    }
    if c.left.Some? && Matches(c.left.value.name, name, ignoreCase) {
      assert Matches(ns[0], name, ignoreCase);
    } else if c.middle.Some? && Matches(c.middle.value.name, name, ignoreCase) {
      assert Matches(ns[1], name, ignoreCase) && !Matches(ns[0], name, ignoreCase);
    } else if c.right.Some? && Matches(c.right.value.name, name, ignoreCase) {
      assert Matches(ns[2], name, ignoreCase);
      assert !Matches(ns[0], name, ignoreCase) && !Matches(ns[1], name, ignoreCase);
    } else {
      forall j | 0 <= j < |cs| ensures !Matches(ns[j], name, ignoreCase) {
      }
    }
  }

  /** The slots after removing the prey in slot `k`: later prey shift one
      slot to the left and `right` is cleared (the `setLeft`, `setMiddle`,
      `setRight` sequence of `removeChild`). */
  function Compact(n: Node, k: SlotIndex): (r: Node)
    ensures SameOrganism(r, n) && r.right.None?
    ensures forall i: SlotIndex :: i < k ==> Slot(r, i) == Slot(n, i)
    ensures forall i: SlotIndex :: k <= i < 2 ==> Slot(r, i) == Slot(n, i + 1)
  {
    if k == 0 then n.(left := n.middle).(middle := n.right).(right := None)
    else if k == 1 then n.(middle := n.right).(right := None)
    else n.(right := None)
  }

  /** On a gap-free node, compaction removes the `k`-th prey, keeps the
      others in order and leaves the node gap-free. */
  lemma CompactRemoves(n: Node, k: SlotIndex)
    requires GapFree(n) && k < |Children(n)|
    ensures GapFree(Compact(n, k)) && SameOrganism(Compact(n, k), n)
    ensures Children(Compact(n, k)) == Children(n)[..k] + Children(n)[k + 1..]
    ensures |Children(Compact(n, k))| == |Children(n)| - 1
  {
    var cs, rs := Children(n), Children(Compact(n, k));
    var m, r := Present(n.middle), Present(n.right);
    if k == 0 {
      assert rs == m + r;
      assert cs == [n.left.value] + (m + r);
      assert cs[..0] + cs[1..] == m + r;
    } else if k == 1 {
      assert rs == [n.left.value] + r;
      assert cs == [n.left.value] + [n.middle.value] + r;
      assert cs[..1] + cs[2..] == [n.left.value] + r;
    } else {
      assert rs == [n.left.value, n.middle.value];
      assert cs == [n.left.value, n.middle.value, n.right.value];
    }
  }

  /** Compaction keeps a well-formed node well formed. */
  lemma CompactWellFormed(n: Node, k: SlotIndex)
    requires WellFormed(n) && k < |Children(n)|
    ensures WellFormed(Compact(n, k))
  {
    CompactLocallyValid(n, k);
    ChildrenWellFormed(n);
    CompactRemoves(n, k);
    var cs, rs := Children(n), Children(Compact(n, k));
    forall i | 0 <= i < |rs| ensures WellFormed(rs[i]) {
      if i < k { assert rs[i] == cs[i]; } else { assert rs[i] == cs[i + 1]; }
    }
    WellFormedFromChildren(Compact(n, k));
  }

  lemma CompactLocallyValid(n: Node, k: SlotIndex)
    requires LocallyValid(n) && k < |Children(n)|
    ensures LocallyValid(Compact(n, k))
  {
    CompactRemoves(n, k);
    var cs, rs := Children(n), Children(Compact(n, k));
    forall i, j | 0 <= i < j < |rs| ensures rs[i].name != rs[j].name {
      var i', j' := if i < k then i else i + 1, if j < k then j else j + 1;
      assert rs[i] == cs[i'] && rs[j] == cs[j'];
    }
  }

  /** Adding a well-formed prey whose name no sibling has keeps a
      well-formed node well formed. */
  lemma AddPreyWellFormed(n: Node, prey: Node)
    requires WellFormed(n) && WellFormed(prey) && AddPrey(n, prey).Ok?
    requires prey.name !in Names(Children(n))
    ensures WellFormed(AddPrey(n, prey).value)
  {
    var r := AddPrey(n, prey).value;
    AddPreyLocallyValid(n, prey);
    AddPreyAppends(n, prey);
    ChildrenWellFormed(n);
    var cs, rs := Children(n), Children(r);
    forall i | 0 <= i < |rs| ensures WellFormed(rs[i]) {
      if i < |cs| { assert rs[i] == cs[i]; } else { assert rs[i] == prey; }
    }
    WellFormedFromChildren(r);
  }

  lemma AddPreyLocallyValid(n: Node, prey: Node)
    requires LocallyValid(n) && AddPrey(n, prey).Ok?
    requires prey.name !in Names(Children(n))
    ensures LocallyValid(AddPrey(n, prey).value)
  {
    var r := AddPrey(n, prey).value;
    AddPreyAppends(n, prey);
    AddPreyTouchesOneSlot(n, prey);
    var cs, rs := Children(n), Children(r);
    forall i, j | 0 <= i < j < |rs| ensures rs[i].name != rs[j].name {
      if j < |cs| {
        assert rs[i] == cs[i] && rs[j] == cs[j];
      } else {
        assert rs[j] == prey && rs[i] == cs[i];
        assert Names(cs)[i] == cs[i].name;
      }
    }
  }

  /** The text `listPrey` builds for an animal, from the right slot down. */
  function PreyLine(c: Node): (r: string)
    requires GapFree(c)
    ensures r == "" <==> c.left.None?
    ensures c.left.Some? ==> c.name + " -> " <= r
  {
    if c.right.Some? then
      c.name + " -> " + c.left.value.name + ", " + c.middle.value.name + ", " + c.right.value.name
    else if c.middle.Some? then c.name + " -> " + c.left.value.name + ", " + c.middle.value.name
    else if c.left.Some? then c.name + " -> " + c.left.value.name
    else ""
  }

  /** On a gap-free node the hand-built text is the name, an arrow and the
      prey names joined by commas, or empty text when there are no prey. */
  lemma PreyLineJoins(c: Node)
    requires GapFree(c)
    ensures PreyLine(c) ==
      if Children(c) == [] then "" else c.name + " -> " + Join(Names(Children(c)), ", ")
  {
    GapFreeSlots(c);
    if c.right.Some? {
      var a, b, d := c.left.value.name, c.middle.value.name, c.right.value.name;
      JoinThree(a, b, d, ", ");
      assert Names(Children(c)) == [a, b, d];
      assert c.name + " -> " + (a + ", " + b + ", " + d) == c.name + " -> " + a + ", " + b + ", " + d;
    } else if c.middle.Some? {
      var a, b := c.left.value.name, c.middle.value.name;
      JoinTwo(a, b, ", ");
      assert Names(Children(c)) == [a, b];
      assert c.name + " -> " + (a + ", " + b) == c.name + " -> " + a + ", " + b;
    } else if c.left.Some? {
      assert Names(Children(c)) == [c.left.value.name];
    }
  }

  /** The body of `listFoodChain` for a tree with root `root` whose cursor
      is at `target`: the search text without its leading `"->"`. */
  function FoodChainFrom(root: Node, target: Path): (r: string)
    ensures At(root, target).Some? ==> r == " " + Join(PathNames(root, target), "-> ")
  {
    FoodChainText(root, target);
    match SearchListFoodChain(Some(root), [], "", target)
    case Some(path) => path[2..]
    case None => CursorNotFound
  }

  /** The tree with its cursor. Nodes are values, so an edit at the cursor
      replaces the subtree there; the cursor is the position of its node. */
  class OrganismTree {
    var root: Node
    var cursor: Path

    /** The apex is an animal, the tree invariants hold and the cursor
        points at a node of the tree. */
    ghost predicate Valid()
      reads this
    {
      !root.isPlant && WellFormed(root) && At(root, cursor).Some?
    }

    /** The node the cursor points at. */
    function Cursor(): Node
      reads this
      requires Valid()
    {
      At(root, cursor).value
    }

    /** Root and cursor are the apex predator. */
    constructor (apex: Node)
      requires !apex.isPlant && WellFormed(apex)
      ensures Valid() && root == apex && cursor == [] && Cursor() == apex
    {
      root := apex;
      cursor := [];
    }

    /** The node at the cursor becomes `updated`, the same organism with
        other prey; this is the in-place update of the cursor's slots. */
    method SetCursorNode(updated: Node)
      requires Valid() && WellFormed(updated) && SameOrganism(updated, Cursor())
      modifies this
      ensures Valid() && cursor == old(cursor) && Cursor() == updated
      ensures root == Replace(old(root), cursor, updated)
    {
      ReplaceWellFormed(root, cursor, updated);
      ReplaceAt(root, cursor, updated);
      ReplaceKeepsRoot(root, cursor, updated);
      root := Replace(root, cursor, updated);
    }

    /** `cursorReset`: the cursor goes back to the root. */
    method CursorReset()
      requires Valid()
      modifies this
      ensures Valid() && root == old(root) && cursor == [] && Cursor() == root
    {
      cursor := [];
    }

    /** `moveCursor`: the cursor moves to the first direct prey, in slot
        order, whose name equals `name`; otherwise it stays. */
    method MoveCursor(name: string) returns (r: Outcome)
      requires Valid()
      modifies this
      ensures Valid() && root == old(root)
      ensures var cs := Children(old(Cursor()));
              var k := FirstMatch(Names(cs), name, false);
              if k < |cs| then r == Pass && cursor == old(cursor) + [k] && Cursor() == cs[k]
              else r == Fail(NotFound) && cursor == old(cursor)
    {
      var c := Cursor();
      WellFormedAt(root, cursor);
      SlotMatch(c, name, false);
      var k: SlotIndex;
      if c.left.Some? && c.left.value.name == name {
        k := 0;
      } else if c.middle.Some? && c.middle.value.name == name {
        k := 1;
      } else if c.right.Some? && c.right.value.name == name {
        k := 2;
      } else {
        return Fail(NotFound);
      }
      AtExtend(root, cursor, k);
      cursor := cursor + [k];
      r := Pass;
    }

    /** `isFull`: all three slots of the cursor are taken, so no prey that
        suits the cursor's diet can be added. */
    function IsFull(): (b: bool)
      reads this
      requires Valid()
      ensures b <==> |Children(Cursor())| == 3
      ensures b ==> !Cursor().isPlant
      ensures b ==> forall prey :: Eats(Cursor(), prey) ==> AddPrey(Cursor(), prey) == Err(PositionNotAvailable)
    {
      WellFormedAt(root, cursor);
      var c := Cursor();
      c.left.Some? && c.middle.Some? && c.right.Some?
    }

    /** The common part of `addAnimalChild` and `addPlantChild`: the
        duplicate check, then `addPrey` on the cursor. On success the new
        prey is appended to the cursor's prey and nothing else changes. */
    method AddChild(prey: Node) returns (r: Outcome)
      requires Valid() && WellFormed(prey)
      modifies this
      ensures Valid() && cursor == old(cursor)
      ensures var c := old(Cursor());
        if prey.name in Names(Children(c)) then r == Fail(DuplicateName) && root == old(root)
        else if c.isPlant then r == Fail(IsPlant) && root == old(root)
        else if !Eats(c, prey) then r == Fail(DietMismatch) && root == old(root)
        else if |Children(c)| == 3 then r == Fail(PositionNotAvailable) && root == old(root)
        else r == Pass && SameOrganism(Cursor(), c) && Children(Cursor()) == Children(c) + [prey]
             && root == Replace(old(root), cursor, Cursor())
    {
      var c := Cursor();
      WellFormedAt(root, cursor);
      if HasChildNamed(c, prey.name) {
        return Fail(DuplicateName);
      }
      match AddPrey(c, prey) {
        case Err(e) =>
          r := Fail(e);
        case Ok(updated) =>
          AddPreyAppends(c, prey);
          AddPreyTouchesOneSlot(c, prey);
          AddPreyWellFormed(c, prey);
          SetCursorNode(updated);
          r := Pass;
      }
    }

    /** `addAnimalChild`: a new animal leaf with the given diet. */
    method AddAnimalChild(name: string, isHerbivore: bool, isCarnivore: bool) returns (r: Outcome)
      requires Valid()
      modifies this
      ensures Valid() && cursor == old(cursor)
      ensures var c := old(Cursor());
        var prey := Leaf(name, false, isHerbivore, isCarnivore);
        if name in Names(Children(c)) then r == Fail(DuplicateName) && root == old(root)
        else if c.isPlant then r == Fail(IsPlant) && root == old(root)
        else if !c.isCarnivore then r == Fail(DietMismatch) && root == old(root)
        else if |Children(c)| == 3 then r == Fail(PositionNotAvailable) && root == old(root)
        else r == Pass && SameOrganism(Cursor(), c) && Children(Cursor()) == Children(c) + [prey]
             && root == Replace(old(root), cursor, Cursor())
    {
      LeafWellFormed(name, false, isHerbivore, isCarnivore);
      r := AddChild(Leaf(name, false, isHerbivore, isCarnivore));
    }

    /** `addPlantChild`: a new plant leaf, with both diet flags false. */
    method AddPlantChild(name: string) returns (r: Outcome)
      requires Valid()
      modifies this
      ensures Valid() && cursor == old(cursor)
      ensures var c := old(Cursor());
        var prey := Leaf(name, true, false, false);
        if name in Names(Children(c)) then r == Fail(DuplicateName) && root == old(root)
        else if c.isPlant then r == Fail(IsPlant) && root == old(root)
        else if !c.isHerbivore then r == Fail(DietMismatch) && root == old(root)
        else if |Children(c)| == 3 then r == Fail(PositionNotAvailable) && root == old(root)
        else r == Pass && SameOrganism(Cursor(), c) && Children(Cursor()) == Children(c) + [prey]
             && root == Replace(old(root), cursor, Cursor())
    {
      LeafWellFormed(name, true, false, false);
      r := AddChild(Leaf(name, true, false, false));
    }

    /** `removeChild`: the first direct prey, in slot order, whose name
        matches `name` ignoring case is removed and the later prey move up
        one slot; the cursor stays on the same node. */
    method RemoveChild(name: string) returns (r: Outcome)
      requires Valid()
      modifies this
      ensures Valid() && cursor == old(cursor)
      ensures var c := old(Cursor());
              var cs := Children(c);
              var k := FirstMatch(Names(cs), name, true);
              if k < |cs| then
                r == Pass && SameOrganism(Cursor(), c) && Children(Cursor()) == cs[..k] + cs[k + 1..]
                && root == Replace(old(root), cursor, Cursor())
              else r == Fail(NotFound) && root == old(root)
    {
      var c := Cursor();
      WellFormedAt(root, cursor);
      SlotMatch(c, name, true);
      var k: SlotIndex;
      if c.left.Some? && EqualsIgnoreCase(c.left.value.name, name) {
        k := 0;
      } else if c.middle.Some? && EqualsIgnoreCase(c.middle.value.name, name) {
        k := 1;
      } else if c.right.Some? && EqualsIgnoreCase(c.right.value.name, name) {
        k := 2;
      } else {
        return Fail(NotFound);
      }
      assert k == FirstMatch(Names(Children(c)), name, true);
      RemovePreyAt(k);
      r := Pass;
    }

    /** The prey in slot `k` of the cursor is removed and the later prey
        move up one slot. */
    method RemovePreyAt(k: SlotIndex)
      requires Valid() && k < |Children(Cursor())|
      modifies this
      ensures Valid() && cursor == old(cursor)
      ensures var c := old(Cursor());
              SameOrganism(Cursor(), c) && Children(Cursor()) == Children(c)[..k] + Children(c)[k + 1..]
              && root == Replace(old(root), cursor, Cursor())
    {
      var c := Cursor();
      WellFormedAt(root, cursor);
      CompactRemoves(c, k);
      CompactWellFormed(c, k);
      SetCursorNode(Compact(c, k));
    }

    /** `listPrey`: the cursor's name, an arrow and its prey's names in slot
        order separated by commas; empty text when it has no prey; an error
        on a plant. */
    function ListPrey(): (r: Result<string>)
      reads this
      requires Valid()
      ensures Cursor().isPlant <==> r == Err(IsPlant)
      ensures !Cursor().isPlant ==> r == Ok(
        if Children(Cursor()) == [] then ""
        else Cursor().name + " -> " + Join(Names(Children(Cursor())), ", "))
    {
      WellFormedAt(root, cursor);
      PreyLineJoins(Cursor());
      if Cursor().isPlant then Err(IsPlant) else Ok(PreyLine(Cursor()))
    }

    /** `listFoodChain`: a space, then the names from the root down to the
        cursor joined by `"-> "`; the not-found text is never produced. */
    function ListFoodChain(): (s: string)
      reads this
      requires Valid()
      ensures s == " " + Join(PathNames(root, cursor), "-> ")
      ensures s[0] == ' ' && s != CursorNotFound
    {
      FoodChainFrom(root, cursor)
    }

    /** `listAllPlants`: the names of the plants in the cursor's subtree,
        cursor included, in pre-order, joined by commas, or a fixed text
        when there are none. */
    function ListAllPlants(): (s: string)
      reads this
      requires Valid()
      ensures var plants := CollectPlants(Some(Cursor()), []);
              s == if plants == [] then NoPlantsFound else Join(plants, ",")
    {
      var plants := CollectPlants(Some(Cursor()), []);
      PrintPlantsHelperIsCollect(Some(Cursor()));
      PrefixedEmpty(plants, ",");
      var list := PrintPlantsHelper(Some(Cursor()), "");
      if list == [] then NoPlantsFound
      else
        PrefixedIsSepJoin(plants, ",");
        list[1..]
    }

    /** `printOrganismTree`: the lines printed for the cursor's subtree, one
        per node in pre-order, indented by depth. */
    function PrintOrganismTree(): (lines: seq<string>)
      reads this
      requires Valid()
      ensures lines == Lines("", Outline(Some(Cursor()), 0))
      ensures |lines| == |PreOrder(Some(Cursor()))|
    {
      WellFormedAt(root, cursor);
      RenderIsOutline("", 0, Cursor());
      assert "" + Tabs(0) == "";
      Render("", Cursor())
    }
  }

  /** The Java constructor: a plant cannot be the apex predator. */
  method NewOrganismTree(apex: Node) returns (r: Result<OrganismTree>)
    requires WellFormed(apex)
    ensures apex.isPlant ==> r == Err(IsPlant)
    ensures !apex.isPlant ==> r.Ok? && fresh(r.value) && r.value.Valid()
                              && r.value.root == apex && r.value.cursor == []
  {
    if apex.isPlant {
      return Err(IsPlant);
    }
    var t := new OrganismTree(apex);
    return Ok(t);
  }
}
