# FoodPyramid organism tree in Dafny

This project models the core of FoodPyramid: a food web held as a ternary
tree of organisms, with a cursor on the node that most operations act on.

- An organism (`OrganismNode`) has a name, three flags (plant, herbivore,
  carnivore) and three ordered prey slots: left, middle and right.
- The only validated way to add prey is `addPrey`. A plant cannot be a
  predator, the prey must suit the predator's diet, and the prey goes
  into the first free slot.
- The tree (`OrganismTree`) keeps the apex predator at its root and a
  cursor. It offers:
  - cursor moves: `cursorReset`, `moveCursor`;
  - edits at the cursor: `addAnimalChild`, `addPlantChild`, `removeChild`;
  - queries: `isFull`, `listPrey`, `listFoodChain`, `listAllPlants`,
    `printOrganismTree`.

Modules, one file each:

- `Text` (`text.dfy`): joining strings, the prefixed concatenation that the
  Java traversals build with `+=`, ASCII case folding for
  `equalsIgnoreCase`, and the first match in a list of names.
- `Organisms` (`organism_node.dfy`): the node as an immutable datatype,
  the error kinds as values, and `addPrey` as a function that returns the
  updated node or the error.
- `TreePaths` (`tree_paths.dfy`): positions in the tree as paths of slot
  indices, replacing the subtree at a path, and the tree invariants:
  - every node is gap-free, i.e. its occupied slots are a prefix of left,
    middle, right;
  - plants have no prey;
  - sibling names are distinct.
- `Traversals` (`traversals.dfy`): the three recursive helpers of the tree
  (`SearchListFoodChain`, `printPlantsHelper`, `printOrganismTreeHelper`).
  Each is connected by a lemma to an independent definition: the names on
  the root-to-cursor path, the plants in pre-order, and a pre-order
  outline with depths.
- `OrganismTrees` (`organism_tree.dfy`): the `OrganismTree` class with
  fields `root` and `cursor`, and its methods and query functions. The
  class invariant `Valid()` says three things: the root is an animal, the
  tree is well formed, and the cursor names a node of the tree. Every
  method preserves it.
- `Scenarios` (`scenario.dfy`): a verified client session that builds a
  lion and its zebra prey, and checks the texts and errors the operations
  produce.

Java references become values:

- The cursor is the path of slot indices from the root to its node. In a
  tree where no node is shared, this path identifies the node the way the
  Java reference does, so the identity test in `SearchListFoodChain` is
  modelled as path equality.
- An edit at the cursor replaces the subtree at that path (`Replace`).
  `TreePaths.ReplaceElsewhere` proves that no position outside the path to
  the edited node and outside the edited subtree changes.
  `TreePaths.ReplaceAbove` proves that each node on that path stays the
  same organism and keeps its other two slots.
- The datatype `Organisms.Node` models the fields of `OrganismNode`, its
  seven-argument constructor and its getters (`OrganismNode.java:32-166`).
  The functions `Slot` and `WithSlot` model the left, middle and right
  getters and setters, indexed 0, 1 and 2.

Behaviour worth knowing:

- `listPrey` on an animal without prey returns the empty text, not the
  animal's name (`OrganismTree.java:98-108`).
- `listFoodChain` drops only the first two characters of `"-> Root-> ..."`.
  The text therefore starts with a space and has no space before each
  arrow: `" Lion-> Zebra"` (`OrganismTree.java:126`).
- The tree constructor rejects only plants, so a herbivore can be the
  apex. Refusing a herbivore apex is left to the command-line front end.
- Duplicate detection and `moveCursor` compare names exactly.
  `removeChild` compares them ignoring case.

## Model

| member | source | states |
|---|---|---|
| Organisms.AddPrey | OrganismNode.java:184-198 | A plant predator gives IsPlant; otherwise a prey that does not suit the diet gives DietMismatch; otherwise a full node gives PositionNotAvailable. These checks come in that order. Success happens exactly when the predator is an animal, the diet fits and some slot is free, and then the prey is in the first free slot. |
| Organisms.DietTable | OrganismNode.java:186 | An omnivore accepts any prey. A pure herbivore accepts exactly plants, a pure carnivore exactly animals, and an animal with neither flag gets DietMismatch. |
| Organisms.AddPreyTouchesOneSlot | OrganismNode.java:188-196 | A successful addPrey keeps the name and flags and changes only the first free slot, which then holds the prey. |
| Organisms.AddPreyAppends | OrganismNode.java:188-196 | On a gap-free node, addPrey appends the prey to the prey list, adds one to the prey count, and keeps the node gap-free. |
| Organisms.GapFreeSlots | OrganismNode.java:188-196 | In a gap-free node, slot i is occupied exactly when i is below the prey count, and then it holds the i-th prey. |
| Organisms.ChildrenList | OrganismNode.java:188-196 | The prey of a gap-free node are, in slot order, the first zero, one, two or three slots. |
| TreePaths.ReplaceAt | OrganismNode.java:188-196 | After an edit at a position, that position holds the edited node. |
| TreePaths.ReplaceElsewhere | OrganismNode.java:188-196 | An edit at one node changes nothing at any position that is neither above nor below it. |
| TreePaths.ReplaceAbove | OrganismTree.java:305 | Every node strictly above the edited position stays reachable and keeps its organism, and every slot except the one on the way down is unchanged. |
| TreePaths.ReplaceBelow | OrganismNode.java:188-196 | Below the edited position, the tree is the edited subtree. |
| TreePaths.ReplaceKeepsRoot | OrganismTree.java:305 | Editing a node below the root, without changing that node's name or flags, keeps the root organism. |
| TreePaths.ReplaceWellFormed | OrganismTree.java:299-306 | Replacing a node by a well-formed node with the same name and flags keeps the whole tree well formed. |
| TreePaths.WellFormedAt | OrganismTree.java:71-82 | Every node the cursor can reach in a well-formed tree is itself well formed. |
| TreePaths.WithSlotWellFormed | OrganismNode.java:128-166 | Putting a well-formed node with the same name into an occupied slot keeps a well-formed node well formed. |
| TreePaths.ChildrenWithSlot | OrganismNode.java:128-166 | Setting an occupied slot of a gap-free node replaces exactly that prey in the prey list. |
| TreePaths.AtExtend | OrganismTree.java:73-78 | Stepping into slot i from a reachable node reaches that node's slot i. |
| Organisms.Leaf | OrganismTree.java:304 | A new node has the given name and flags, no prey, and is gap-free. |
| Organisms.Slot | OrganismNode.java:119-158 | The getters: any prey found in a slot is strictly smaller than its predator, so no node is its own prey. |
| Organisms.WithSlot | OrganismNode.java:128-166 | The setters: slot i then holds the given prey, the other two slots and the organism are unchanged. |
| TreePaths.LeafWellFormed | OrganismTree.java:304 | A newly created leaf satisfies every tree invariant. |
| Text.FirstMatch | OrganismTree.java:71-82 | The result is the index of the first name that matches in slot order, or the list length when no name matches. |
| Text.PrefixedIsSepJoin | OrganismTree.java:181-188 | For a non-empty list, removing the leading separator of the comma-prefixed concatenation gives the comma-joined list. |
| Text.JoinTwo | OrganismTree.java:103 | Joining two names puts the separator between them once. |
| Text.JoinThree | OrganismTree.java:101 | Joining three names puts the separator between each adjacent pair. |
| Text.EqualsIgnoreCase | OrganismTree.java:348 | True exactly when both names have the same length and agree character by character after ASCII lower-casing. |
| Traversals.PathNames | OrganismTree.java:144-169 | Gives one name per node on the path from the root to the cursor, root first. |
| Traversals.SearchListFoodChain | OrganismTree.java:144-169 | Any text it finds starts with the path text so far followed by "-> ". |
| Traversals.SearchMisses | OrganismTree.java:144-169 | When the target is not below the current position, the search returns null. |
| Traversals.SearchFinds | OrganismTree.java:144-169 | Searching left, middle, right for a reachable target returns the path text so far plus "-> name" for each node from the current one down to the target. |
| Traversals.FoodChainText | OrganismTree.java:121-130 | When the cursor is reachable from the root, the search finds it. Dropping the first two characters of its text leaves a space followed by the root-to-cursor names joined by "-> ". |
| Traversals.PlantNamesAppend | OrganismTree.java:200-214 | The plants of two node lists put together are the plants of each list, in order. |
| Traversals.PrintPlantsHelper | OrganismTree.java:200-214 | A null subtree gives the empty text. Otherwise the result starts with the accumulator passed in, and when that accumulator is empty, any non-empty result starts with ",". |
| Traversals.PrintPlantsHelperIsPreOrder | OrganismTree.java:200-214 | The helper, which restarts its accumulator at every call, returns ",name" for each plant of the subtree in pre-order. |
| Traversals.CollectPlantsIsPreOrder | OrganismTree.java:200-214 | Threading one accumulator through the traversal appends the pre-order plant names to it. |
| Traversals.PrintPlantsHelperIsCollect | OrganismTree.java:200-214 | The restarting helper and the accumulator-threading traversal give the same plants in the same order. |
| Traversals.Outline | OrganismTree.java:238-258 | The outline has one entry per node of the subtree. |
| Traversals.OutlineNodes | OrganismTree.java:238-258 | The nodes of the outline are the subtree's nodes in pre-order (left, middle, right). |
| Traversals.Render | OrganismTree.java:238-258 | The first line printed is the indent, the plant or animal marker and the node's name. A plant prints exactly one line. |
| Traversals.RenderIsOutline | OrganismTree.java:238-258 | For a well-formed subtree, the printed lines are one line per node in pre-order. Each line has the caller's indent, one tab per depth level, "-" for a plant or "\|- " for an animal, and the name. |
| Traversals.LinesAppend | OrganismTree.java:238-258 | Printing two outlines one after the other prints their lines in that order. |
| OrganismTrees.HasChildNamed | OrganismTree.java:300 | The slot-by-slot duplicate test holds exactly when the name is among the cursor's prey names. |
| OrganismTrees.SlotMatch | OrganismTree.java:71-82 | The left, middle, right test chain picks the index of the first matching prey in slot order, and none when no prey matches. |
| OrganismTrees.PreyLine | OrganismTree.java:98-108 | The text is empty exactly when the node has no prey. Otherwise it starts with the node's name followed by " -> ". |
| OrganismTrees.PreyLineJoins | OrganismTree.java:98-108 | On a gap-free node, the text built branch by branch is the name, " -> ", and the prey names joined by ", ". With no prey it is empty. |
| OrganismTrees.OrganismTree.SetCursorNode | OrganismTree.java:305 | Updating the cursor's node in place keeps the tree valid. The cursor stays on the updated node, and the tree is the old one with only that position replaced. |
| OrganismTrees.Compact | OrganismTree.java:348-357 | The setter sequence of each removeChild branch keeps the organism and the slots before k, moves each later slot one place left, and clears the right slot. |
| OrganismTrees.CompactRemoves | OrganismTree.java:347-360 | Shifting the later prey left and clearing the last slot removes exactly the k-th prey. The others keep their order, the count drops by one and the node stays gap-free. |
| OrganismTrees.CompactWellFormed | OrganismTree.java:347-360 | Removing a prey keeps a well-formed node well formed. |
| OrganismTrees.AddPreyWellFormed | OrganismTree.java:299-306 | Adding a leaf whose name no sibling has keeps a well-formed node well formed. |
| OrganismTrees.OrganismTree.constructor | OrganismTree.java:40-45 | Root and cursor are the apex. |
| OrganismTrees.NewOrganismTree | OrganismTree.java:40-45 | A plant apex gives IsPlant. Any other apex gives a fresh valid tree whose root is the apex and whose cursor is at the root. |
| OrganismTrees.OrganismTree.CursorReset | OrganismTree.java:55-57 | The cursor is at the root again and the tree is unchanged. |
| OrganismTrees.OrganismTree.MoveCursor | OrganismTree.java:71-82 | The cursor moves to the first direct prey (in slot order) whose name equals the argument exactly. Otherwise NotFound, and the cursor stays. The tree never changes. |
| OrganismTrees.OrganismTree.IsFull | OrganismTree.java:270-275 | True exactly when the cursor has three prey. A full cursor is an animal, and any prey that suits its diet is refused with PositionNotAvailable. |
| OrganismTrees.OrganismTree.AddChild | OrganismTree.java:299-306 | The checks run in this order: DuplicateName, IsPlant, DietMismatch, PositionNotAvailable. On any error the tree is unchanged. On success the cursor node keeps its organism, gains the prey at the end of its prey list, and nothing else in the tree changes. |
| OrganismTrees.OrganismTree.AddAnimalChild | OrganismTree.java:299-306 | The same contract for a new animal leaf; the diet check asks whether the cursor is a carnivore. |
| OrganismTrees.OrganismTree.AddPlantChild | OrganismTree.java:326-333 | The same contract for a new plant leaf with both diet flags false; the diet check asks whether the cursor is a herbivore. |
| OrganismTrees.OrganismTree.RemoveChild | OrganismTree.java:347-360 | Removes the first direct prey (in slot order) whose name matches ignoring case; the others keep their order and the rest of the tree is unchanged. Otherwise NotFound and nothing changes. |
| OrganismTrees.OrganismTree.RemovePreyAt | OrganismTree.java:348-357 | The prey in one slot of the cursor is removed and the later prey move up. The cursor keeps its organism and only its position in the tree is replaced. |
| OrganismTrees.OrganismTree.ListPrey | OrganismTree.java:96-109 | A plant cursor gives IsPlant. Otherwise the result is empty text when there are no prey, else the name, " -> ", and the prey names in slot order joined by ", ". |
| OrganismTrees.FoodChainFrom | OrganismTree.java:121-130 | For a cursor reachable from the root, the text is a space followed by the root-to-cursor names joined by "-> ". |
| OrganismTrees.OrganismTree.ListFoodChain | OrganismTree.java:121-130 | A space followed by the root-to-cursor names joined by "-> ". The not-found text is never returned. |
| OrganismTrees.OrganismTree.ListAllPlants | OrganismTree.java:181-188 | The plant names of the cursor's subtree, cursor included, in pre-order and joined by ",". If there are none, the fixed no-plants text. |
| OrganismTrees.OrganismTree.PrintOrganismTree | OrganismTree.java:225-228 | The printed lines are the outline of the cursor's subtree from depth zero with no indent, one line per node. |
| Scenarios.LionZebraChain | OrganismTree.java:121-130 | With the cursor on the zebra below the lion, the food chain text is " Lion-> Zebra". |

## Left out

- `FoodPyramid.java` is not part of this model. It holds the command-line menu, input parsing, diet prompts and error printing.
- The no-argument `OrganismNode` constructor is not modelled; every node is built with all its fields. The getters are the datatype's fields.
- The public setters of `OrganismNode` are modelled only where the tree calls them: in `removeChild`, through `Compact`. Arbitrary setter calls could create gaps, shared nodes or cycles, and they are not modelled.
- `setCursor` and `getCursor`: `getCursor` is `Cursor()`. `setCursor` accepts any node, possibly outside the tree, and is not modelled.
- Exception messages are not modelled; each exception is a value of `Error`. `IllegalArgumentException` becomes `DuplicateName` or `NotFound`, depending on the operation that raises it.
- `printOrganismTree` writes to standard output; the model returns the lines instead.
- Organisms.AddPrey: returns the updated node instead of assigning a slot field in place. Aliasing between nodes, possible only through the setters, is not captured.
- Text.EqualsIgnoreCase: folds only ASCII letters, not the full Unicode case mapping of Java's `equalsIgnoreCase`.
- OrganismTrees.NewOrganismTree: requires a well-formed apex. Java accepts any node, but its only caller passes a newly created node without prey.
- OrganismTrees.OrganismTree.constructor: requires an animal, well-formed apex. The plant check of the Java constructor is modelled by `NewOrganismTree`.
- Every tree method and query requires `Valid()`. Two failures are therefore excluded by the invariant rather than modelled: the null dereference in `listPrey` on a node with a gap in its slots, and the not-found branch of `listFoodChain`.
- Traversals.RenderIsOutline: stated for well-formed subtrees, where a plant has no prey. The early return for a plant is modelled in `Render`, but the outline does not describe a plant that has prey.
