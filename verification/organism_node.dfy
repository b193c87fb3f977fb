/** The vertex of the food web: an organism with its classification and
    three ordered prey slots, and the one validated mutator `addPrey`. */
module Organisms {

  datatype Option<T> = None | Some(value: T)

  /** The exception kinds the tree raises, as values. `DuplicateName` and
      `NotFound` are the two uses of `IllegalArgumentException`. */
  datatype Error = IsPlant | DietMismatch | PositionNotAvailable | DuplicateName | NotFound

  datatype Result<T> = Ok(value: T) | Err(error: Error)

  /** Outcome of an operation that returns nothing but may throw. */
  datatype Outcome = Pass | Fail(error: Error)

  /** 0, 1, 2 stand for the slots `left`, `middle`, `right`. */
  type SlotIndex = i: int | 0 <= i < 3

  /** One organism. The fields are those of the Java class; the datatype
      constructor stores each argument unchanged, like the seven-argument
      Java constructor. */
  datatype Node = Node(
    name: string,
    isPlant: bool,
    isHerbivore: bool,
    isCarnivore: bool,
    left: Option<Node>,
    middle: Option<Node>,
    right: Option<Node>)

  /** A node with no prey, as the tree creates them. */
  function Leaf(name: string, isPlant: bool, isHerbivore: bool, isCarnivore: bool): (r: Node)
    ensures Children(r) == [] && GapFree(r)
    ensures r.name == name && r.isPlant == isPlant
    ensures r.isHerbivore == isHerbivore && r.isCarnivore == isCarnivore
  {
    Node(name, isPlant, isHerbivore, isCarnivore, None, None, None)
  }

  /** The slot with index `i` (the getters `getLeft`, `getMiddle`,
      `getRight`). What a slot holds is a strictly smaller value than the
      organism, so no organism is its own prey, directly or further down. */
  function Slot(n: Node, i: SlotIndex): (r: Option<Node>)
    ensures r.Some? ==> r.value < n
  {
    if i == 0 then n.left else if i == 1 then n.middle else n.right
  }

  /** `n` with slot `i` set to `c` (the setters `setLeft`, `setMiddle`,
      `setRight`). */
  function WithSlot(n: Node, i: SlotIndex, c: Option<Node>): (r: Node)
    ensures SameOrganism(r, n) && Slot(r, i) == c
    ensures forall j: SlotIndex :: j != i ==> Slot(r, j) == Slot(n, j)
  {
    if i == 0 then n.(left := c) else if i == 1 then n.(middle := c) else n.(right := c)
  }

  function Present(o: Option<Node>): seq<Node>
  {
    if o.Some? then [o.value] else []
  }

  /** The prey that are present, in slot order left, middle, right. */
  function Children(n: Node): seq<Node>
  {
    Present(n.left) + Present(n.middle) + Present(n.right)
  }

  function Names(cs: seq<Node>): seq<string>
  {
    seq(|cs|, i requires 0 <= i < |cs| => cs[i].name)
  }

  /** Name and classification agree: the same organism, whatever its prey. */
  predicate SameOrganism(a: Node, b: Node)
  {
    a.name == b.name && a.isPlant == b.isPlant
    && a.isHerbivore == b.isHerbivore && a.isCarnivore == b.isCarnivore
  }

  /** The occupied slots form a prefix of left, middle, right. */
  predicate GapFree(n: Node)
  {
    (n.middle.Some? ==> n.left.Some?) && (n.right.Some? ==> n.middle.Some?)
  }

  /** In a gap-free node slot `i` is occupied exactly when `i` is below the
      number of prey, and then holds the `i`-th prey. */
  lemma GapFreeSlots(n: Node)
    requires GapFree(n)
    ensures forall i: SlotIndex :: (Slot(n, i).Some? <==> i < |Children(n)|)
    ensures forall i: SlotIndex :: Slot(n, i).Some? ==> Children(n)[i] == Slot(n, i).value
  {
  }

  /** The prey of a gap-free node, by how many slots are occupied. */
  lemma ChildrenList(n: Node)
    requires GapFree(n)
    ensures Children(n) ==
      if n.left.None? then []
      else if n.middle.None? then [n.left.value]
      else if n.right.None? then [n.left.value, n.middle.value]
      else [n.left.value, n.middle.value, n.right.value]
  {
  }

  /** All three slots are occupied. */
  predicate Full(n: Node)
  {
    n.left.Some? && n.middle.Some? && n.right.Some?
  }

  /** The diet rule: plant prey needs a herbivore, animal prey a carnivore. */
  predicate Eats(predator: Node, prey: Node)
  {
    if prey.isPlant then predator.isHerbivore else predator.isCarnivore
  }

  /** Slot `k` is empty and every slot before it is occupied. */
  predicate FirstFree(n: Node, k: SlotIndex)
  {
    Slot(n, k).None? && (k > 0 ==> n.left.Some?) && (k > 1 ==> n.middle.Some?)
  }

  /** `addPrey`: a plant cannot be a predator, the diet must fit, and the
      prey goes into the first free slot; the checks come in that order. */
  function AddPrey(n: Node, prey: Node): (r: Result<Node>)
    ensures n.isPlant ==> r == Err(IsPlant)
    ensures !n.isPlant && !Eats(n, prey) ==> r == Err(DietMismatch)
    ensures !n.isPlant && Eats(n, prey) && Full(n) ==> r == Err(PositionNotAvailable)
    ensures r.Ok? <==> !n.isPlant && Eats(n, prey) && !Full(n)
    ensures r.Ok? ==> forall k: SlotIndex :: FirstFree(n, k) ==> r.value == WithSlot(n, k, Some(prey))
  {
    if n.isPlant then Err(IsPlant)
    else if (prey.isPlant && !n.isHerbivore) || (!prey.isPlant && !n.isCarnivore) then Err(DietMismatch)
    else if n.left.None? then Ok(n.(left := Some(prey)))
    else if n.middle.None? then Ok(n.(middle := Some(prey)))
    else if n.right.None? then Ok(n.(right := Some(prey)))
    else Err(PositionNotAvailable)
  }

  /** An omnivore accepts both kinds of prey; a herbivore only plants and a
      carnivore only animals. */
  lemma DietTable(n: Node, prey: Node)
    requires !n.isPlant && !Full(n)
    ensures n.isHerbivore && n.isCarnivore ==> AddPrey(n, prey).Ok?
    ensures n.isHerbivore && !n.isCarnivore ==> (AddPrey(n, prey).Ok? <==> prey.isPlant)
    ensures !n.isHerbivore && n.isCarnivore ==> (AddPrey(n, prey).Ok? <==> !prey.isPlant)
    ensures !n.isHerbivore && !n.isCarnivore ==> AddPrey(n, prey) == Err(DietMismatch)
  {
  }

  /** A successful `addPrey` changes exactly one slot, the first free one, to
      hold the prey; the name, the flags and the other slots stay. */
  lemma AddPreyTouchesOneSlot(n: Node, prey: Node)
    requires AddPrey(n, prey).Ok?
    ensures SameOrganism(AddPrey(n, prey).value, n)
    ensures forall i: SlotIndex ::
      Slot(AddPrey(n, prey).value, i) == (if FirstFree(n, i) then Some(prey) else Slot(n, i))
  {
    var r := AddPrey(n, prey).value;
    forall i: SlotIndex
      ensures Slot(r, i) == (if FirstFree(n, i) then Some(prey) else Slot(n, i))
    {
      var k: SlotIndex := if n.left.None? then 0 else if n.middle.None? then 1 else 2;
      assert FirstFree(n, k);
    }
  }

  /** On a gap-free node `addPrey` appends the prey to the list of prey and
      keeps the node gap-free. */
  lemma AddPreyAppends(n: Node, prey: Node)
    requires GapFree(n) && AddPrey(n, prey).Ok?
    ensures GapFree(AddPrey(n, prey).value)
    ensures Children(AddPrey(n, prey).value) == Children(n) + [prey]
    ensures |Children(AddPrey(n, prey).value)| == |Children(n)| + 1
  {
  }
}
