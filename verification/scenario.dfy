/** A client session on a small food web: a carnivorous lion with a zebra
    as prey, showing the error precedence of the add operations and the
    exact texts the queries produce. */
module Scenarios {
  import opened Organisms
  import opened TreePaths
  import opened Traversals
  import opened Text
  import opened OrganismTrees

  /** The food-chain text for a cursor on the zebra below the lion. */
  lemma LionZebraChain(root: Node)
    requires root.name == "Lion" && root.left.Some? && root.left.value.name == "Zebra"
    ensures " " + Join(PathNames(root, [0]), "-> ") == " Lion-> Zebra"
  {
    var names := PathNames(root, [0]);
    assert [0][..0] == [] && [0][..1] == [0];
    assert names == ["Lion", "Zebra"];
    JoinTwo("Lion", "Zebra", "-> ");
  }

  /** A lion, which eats only animals, with a zebra as its one prey; the
      refused additions leave the tree as it was. */
  method BuildLionAndZebra() returns (t: OrganismTree)
    ensures fresh(t) && t.Valid() && t.cursor == []
    ensures t.root.name == "Lion" && Children(t.root) == [Leaf("Zebra", false, true, false)]
  {
    var lion := Leaf("Lion", false, false, true);
    var zebra := Leaf("Zebra", false, true, false);
    LeafWellFormed("Lion", false, false, true);
    t := new OrganismTree(lion);

    var r := t.AddAnimalChild("Zebra", true, false);
    assert r == Pass;
    assert Children(t.Cursor()) == [zebra];
    assert Names([zebra]) == ["Zebra"];

    // A lion is no herbivore, so grass is refused.
    r := t.AddPlantChild("Grass");
    assert r == Fail(DietMismatch);

    // The duplicate check comes before every other check.
    r := t.AddAnimalChild("Zebra", true, false);
    assert r == Fail(DuplicateName);
  }

  method LionAndZebra()
  {
    var zebra := Leaf("Zebra", false, true, false);
    var t := BuildLionAndZebra();
    assert Names([zebra]) == ["Zebra"];

    var r := t.MoveCursor("Zebra");
    assert r == Pass && t.cursor == [0] && t.Cursor() == zebra;

    // An animal without prey lists as empty text.
    var prey := t.ListPrey();
    assert prey == Ok("");

    var chain := t.ListFoodChain();
    LionZebraChain(t.root);
    assert chain == " Lion-> Zebra";

    // Zebra has no prey, so the move fails and the cursor stays.
    r := t.MoveCursor("Grass");
    assert r == Fail(NotFound) && t.cursor == [0];

    t.CursorReset();
    assert t.Cursor().name == "Lion";
  }
}
