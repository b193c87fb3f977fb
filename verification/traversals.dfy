/** The recursive traversals behind the tree's queries: the depth-first
    search for the cursor (`SearchListFoodChain`), the plant collection
    (`printPlantsHelper`) and the outline renderer
    (`printOrganismTreeHelper`), each with an independent reference
    definition and the lemma that connects the two. */
module Traversals {
  import opened Organisms
  import opened TreePaths
  import opened Text

  // ---------------------------------------------------------------------
  // Root-to-cursor path

  /** The names on the way from `n` down path `p`, both ends included. */
  function PathNames(n: Node, p: Path): (r: seq<string>)
    requires At(n, p).Some?
    ensures |r| == |p| + 1
    ensures forall i :: 0 <= i <= |p| ==> At(n, p[..i]).Some? && r[i] == At(n, p[..i]).value.name
    decreases |p|
  {
    if p == [] then [n.name]
    else
      var c := Slot(n, p[0]).value;
      var rest := PathNames(c, p[1..]);
      assert forall i :: 1 <= i <= |p| ==> p[..i][0] == p[0] && p[..i][1..] == p[1..][..i - 1];
      [n.name] + rest
  }

  /** `SearchListFoodChain`: depth-first search, left, middle, right, for
      the node at position `target`, starting at `cur`, which sits at
      position `here`. `path` is the text built so far; each visited node
      appends `"-> " + name`. Reference identity of the Java code is
      position equality here. */
  function SearchListFoodChain(cur: Option<Node>, here: Path, path: string, target: Path): (r: Option<string>)
    ensures r.Some? ==> path + "-> " <= r.value
    decreases cur
  {
    match cur
    case None => None
    case Some(n) =>
      if here == target then Some(path + "-> " + n.name)
      else
        var extended := path + "-> " + n.name;
        var l := SearchListFoodChain(n.left, here + [0], extended, target);
        if l.Some? then l
        else
          var m := SearchListFoodChain(n.middle, here + [1], extended, target);
          if m.Some? then m
          else SearchListFoodChain(n.right, here + [2], extended, target)
  }

  /** A subtree whose position is not on the way to the target never yields
      a path. */
  lemma {:induction false} SearchMisses(cur: Option<Node>, here: Path, path: string, target: Path)
    requires !(here <= target)
    ensures SearchListFoodChain(cur, here, path, target) == None
    decreases cur
  {
    if cur.Some? {
      var n := cur.value;
      var extended := path + "-> " + n.name;
      SearchMisses(n.left, here + [0], extended, target);
      SearchMisses(n.middle, here + [1], extended, target);
      SearchMisses(n.right, here + [2], extended, target);
    }
  }

  /** The search started at position `here` finds every node below it, and
      the text it returns is `path` followed by `"-> " + name` for each node
      on the way down. */
  lemma {:induction false} SearchFinds(n: Node, here: Path, path: string, q: Path)
    requires At(n, q).Some?
    ensures SearchListFoodChain(Some(n), here, path, here + q) == Some(path + Prefixed(PathNames(n, q), "-> "))
    decreases |q|
  {
    var target := here + q;
    if q == [] {
      assert target == here;
      assert PathNames(n, q) == [n.name];
      assert Prefixed([n.name], "-> ") == "-> " + n.name + Prefixed([], "-> ");
      assert path + Prefixed([n.name], "-> ") == path + "-> " + n.name;
    } else {
      var i := q[0];
      var c := Slot(n, i).value;
      var extended := path + "-> " + n.name;
      assert here != target;
      assert target[|here|] == i;
      forall j: SlotIndex | j < i ensures !(here + [j] <= target) {
        assert (here + [j])[|here|] == j;
      }
      if i > 0 { SearchMisses(n.left, here + [0], extended, target); }
      if i > 1 { SearchMisses(n.middle, here + [1], extended, target); }
      assert target == (here + [i]) + q[1..];
      SearchFinds(c, here + [i], extended, q[1..]);
      var rest := Prefixed(PathNames(c, q[1..]), "-> ");
      assert Slot(n, i) == Some(c);
      assert SearchListFoodChain(Slot(n, i), here + [i], extended, target) == Some(extended + rest);
      assert PathNames(n, q) == [n.name] + PathNames(c, q[1..]);
      assert Prefixed(PathNames(n, q), "-> ") == "-> " + n.name + rest;
      assert extended + rest == path + ("-> " + n.name + rest);
    }
  }

  /** What `listFoodChain` returns for a reachable cursor: the search from
      the root succeeds, and dropping its first two characters leaves a
      space followed by the root-to-cursor names joined by `"-> "`. */
  lemma FoodChainText(root: Node, cursor: Path)
    ensures At(root, cursor).Some? ==>
      SearchListFoodChain(Some(root), [], "", cursor).Some?
      && |SearchListFoodChain(Some(root), [], "", cursor).value| >= 2
      && SearchListFoodChain(Some(root), [], "", cursor).value[2..] == " " + Join(PathNames(root, cursor), "-> ")
  {
    if At(root, cursor).Some? {
      assert [] + cursor == cursor;
      SearchFinds(root, [], "", cursor);
      DropArrow(PathNames(root, cursor));
    }
  }

  /** The prefixed names without their first two characters. */
  lemma DropArrow(names: seq<string>)
    requires names != []
    ensures |"" + Prefixed(names, "-> ")| >= 2
    ensures ("" + Prefixed(names, "-> "))[2..] == " " + Join(names, "-> ")
  {
    var joined := Join(names, "-> ");
    PrefixedIsSepJoin(names, "-> ");
    var found := "" + Prefixed(names, "-> ");
    assert found == "-> " + joined;
    assert found[2..] == " " + joined;
  }

  // ---------------------------------------------------------------------
  // Plants of a subtree

  /** Every node of the subtree, in pre-order left, middle, right. */
  function PreOrder(cur: Option<Node>): seq<Node>
    decreases cur
  {
    match cur
    case None => []
    case Some(n) => [n] + PreOrder(n.left) + PreOrder(n.middle) + PreOrder(n.right)
  }

  /** The names of the plants among `ns`, in order. */
  function PlantNames(ns: seq<Node>): (r: seq<string>)
    ensures |r| <= |ns|
  {
    if ns == [] then []
    else (if ns[0].isPlant then [ns[0].name] else []) + PlantNames(ns[1..])
  }

  lemma {:induction false} PlantNamesAppend(a: seq<Node>, b: seq<Node>)
    ensures PlantNames(a + b) == PlantNames(a) + PlantNames(b)
  {
    if a != [] {
      assert (a + b)[1..] == a[1..] + b;
      PlantNamesAppend(a[1..], b);
    } else {
      assert a + b == b;
    }
  }

  /** `printPlantsHelper`: every recursive call starts from an empty text
      and the caller concatenates what the three calls return. */
  function PrintPlantsHelper(cur: Option<Node>, temp: string): (r: string)
    ensures cur.None? ==> r == ""
    ensures cur.Some? ==> temp <= r
    ensures temp == "" && r != "" ==> r[0] == ','
    decreases cur
  {
    match cur
    case None => ""
    case Some(n) =>
      var t := if n.isPlant then temp + "," + n.name else temp;
      t + PrintPlantsHelper(n.left, "") + PrintPlantsHelper(n.middle, "") + PrintPlantsHelper(n.right, "")
  }

  /** The standard collection: one accumulator threaded through a pre-order
      walk. */
  function CollectPlants(cur: Option<Node>, acc: seq<string>): seq<string>
    decreases cur
  {
    match cur
    case None => acc
    case Some(n) =>
      var a := if n.isPlant then acc + [n.name] else acc;
      CollectPlants(n.right, CollectPlants(n.middle, CollectPlants(n.left, a)))
  }

  /** The plant names of a subtree in pre-order: the root's own, then those
      of the left, middle and right subtrees. */
  lemma {:induction false} PlantNamesPreOrder(n: Node)
    ensures PlantNames(PreOrder(Some(n)))
      == (if n.isPlant then [n.name] else [])
         + PlantNames(PreOrder(n.left)) + PlantNames(PreOrder(n.middle)) + PlantNames(PreOrder(n.right))
  {
    var L, M, R := PreOrder(n.left), PreOrder(n.middle), PreOrder(n.right);
    assert PreOrder(Some(n)) == [n] + L + M + R;
    PlantNamesAppend([n] + L + M, R);
    PlantNamesAppend([n] + L, M);
    PlantNamesAppend([n], L);
    assert [n][1..] == [];
  }

  /** The threaded collection appends the plant names in pre-order. */
  lemma {:induction false} CollectPlantsIsPreOrder(cur: Option<Node>, acc: seq<string>)
    ensures CollectPlants(cur, acc) == acc + PlantNames(PreOrder(cur))
    decreases cur
  {
    if cur.Some? {
      var n := cur.value;
      var a := if n.isPlant then acc + [n.name] else acc;
      CollectPlantsIsPreOrder(n.left, a);
      var a1 := CollectPlants(n.left, a);
      CollectPlantsIsPreOrder(n.middle, a1);
      var a2 := CollectPlants(n.middle, a1);
      CollectPlantsIsPreOrder(n.right, a2);
      PlantNamesPreOrder(n);
      var own := if n.isPlant then [n.name] else [];
      var pl, pm, pr := PlantNames(PreOrder(n.left)), PlantNames(PreOrder(n.middle)), PlantNames(PreOrder(n.right));
      assert a == acc + own;
      AppendAssoc(acc, own, pl, pm, pr);
    }
  }

  lemma AppendAssoc<T>(a: seq<T>, b: seq<T>, c: seq<T>, d: seq<T>, e: seq<T>)
    ensures a + b + c + d + e == a + (b + c + d + e)
  {
  }

  /** The Java helper, with its restarted accumulators, yields `","` before
      each plant name, in pre-order. */
  lemma {:induction false} PrintPlantsHelperIsPreOrder(cur: Option<Node>)
    ensures PrintPlantsHelper(cur, "") == Prefixed(PlantNames(PreOrder(cur)), ",")
    decreases cur
  {
    if cur.Some? {
      var n := cur.value;
      var own := if n.isPlant then [n.name] else [];
      var pl, pm, pr := PlantNames(PreOrder(n.left)), PlantNames(PreOrder(n.middle)), PlantNames(PreOrder(n.right));
      PlantNamesPreOrder(n);
      PrefixedAppend(own + pl + pm, pr, ",");
      PrefixedAppend(own + pl, pm, ",");
      PrefixedAppend(own, pl, ",");
      PrintPlantsHelperIsPreOrder(n.left);
      PrintPlantsHelperIsPreOrder(n.middle);
      PrintPlantsHelperIsPreOrder(n.right);
      assert Prefixed(own, ",") == (if n.isPlant then "" + "," + n.name else "") by {
        if n.isPlant { assert Prefixed([n.name], ",") == "," + n.name + Prefixed([], ","); }
      }
    }
  }

  /** The text `listAllPlants` works on, as the threaded collection. */
  lemma PrintPlantsHelperIsCollect(cur: Option<Node>)
    ensures PrintPlantsHelper(cur, "") == Prefixed(CollectPlants(cur, []), ",")
  {
    PrintPlantsHelperIsPreOrder(cur);
    CollectPlantsIsPreOrder(cur, []);
    assert [] + PlantNames(PreOrder(cur)) == PlantNames(PreOrder(cur));
  }

  // ---------------------------------------------------------------------
  // Outline rendering

  /** `d` tab characters. */
  function Tabs(d: nat): string
  {
    if d == 0 then "" else Tabs(d - 1) + "\t"
  }

  /** The marker before a name: `"-"` for a plant, `"|- "` otherwise. */
  function Marker(n: Node): string
  {
    if n.isPlant then "-" else "|- "
  }

  /** `printOrganismTreeHelper`, returning the printed lines instead of
      printing them. */
  function Render(indent: string, n: Node): (r: seq<string>)
    ensures |r| >= 1 && r[0] == indent + Marker(n) + n.name
    ensures n.isPlant ==> |r| == 1
    decreases n
  {
    if n.isPlant then [indent + "-" + n.name]
    else
      [indent + "|- " + n.name]
      + (if n.left.Some? then Render(indent + "\t", n.left.value) else [])
      + (if n.middle.Some? then Render(indent + "\t", n.middle.value) else [])
      + (if n.right.Some? then Render(indent + "\t", n.right.value) else [])
  }

  /** Every node of the subtree with its depth below `cur`'s parent level
      `d`, in pre-order left, middle, right. */
  function Outline(cur: Option<Node>, d: nat): (r: seq<(nat, Node)>)
    ensures |r| == |PreOrder(cur)|
    decreases cur
  {
    match cur
    case None => []
    case Some(n) => [(d, n)] + Outline(n.left, d + 1) + Outline(n.middle, d + 1) + Outline(n.right, d + 1)
  }

  /** One line per outline entry: indentation, one tab per level, the
      marker and the name. */
  function Lines(indent: string, xs: seq<(nat, Node)>): (r: seq<string>)
    ensures |r| == |xs|
  {
    if xs == [] then []
    else [indent + Tabs(xs[0].0) + Marker(xs[0].1) + xs[0].1.name] + Lines(indent, xs[1..])
  }

  lemma {:induction false} LinesAppend(indent: string, a: seq<(nat, Node)>, b: seq<(nat, Node)>)
    ensures Lines(indent, a + b) == Lines(indent, a) + Lines(indent, b)
  {
    if a != [] {
      assert (a + b)[1..] == a[1..] + b;
      LinesAppend(indent, a[1..], b);
    } else {
      assert a + b == b;
    }
  }

  /** On a well-formed subtree the renderer prints every node once, in
      pre-order, indented by one tab per level below the starting node,
      plants with `"-"` and animals with `"|- "`. */
  lemma {:induction false} RenderIsOutline(indent: string, d: nat, n: Node)
    requires WellFormed(n)
    ensures Render(indent + Tabs(d), n) == Lines(indent, Outline(Some(n), d))
    decreases n
  {
    OutlineLines(indent, d, n);
    if n.isPlant {
      assert Children(n) == [];
      assert [indent + Tabs(d) + Marker(n) + n.name] + [] + [] + [] == [indent + Tabs(d) + Marker(n) + n.name];
    } else {
      RenderChild(indent, d, n.left);
      RenderChild(indent, d, n.middle);
      RenderChild(indent, d, n.right);
    }
  }

  /** One prey slot renders as the outline of the subtree in it. */
  lemma {:induction false} RenderChild(indent: string, d: nat, o: Option<Node>)
    requires o.Some? ==> WellFormed(o.value)
    ensures Lines(indent, Outline(o, d + 1))
      == if o.Some? then Render(indent + Tabs(d) + "\t", o.value) else []
    decreases o
  {
    if o.Some? {
      RenderIsOutline(indent, d + 1, o.value);
      assert indent + Tabs(d) + "\t" == indent + Tabs(d + 1);
    }
  }

  /** The lines of an outline: the node's own, then its three subtrees'. */
  lemma {:induction false} OutlineLines(indent: string, d: nat, n: Node)
    ensures Lines(indent, Outline(Some(n), d))
      == [indent + Tabs(d) + Marker(n) + n.name]
         + Lines(indent, Outline(n.left, d + 1)) + Lines(indent, Outline(n.middle, d + 1))
         + Lines(indent, Outline(n.right, d + 1))
  {
    var L, M, R := Outline(n.left, d + 1), Outline(n.middle, d + 1), Outline(n.right, d + 1);
    var P := [(d, n)];
    LinesAppend(indent, P + L + M, R);
    LinesAppend(indent, P + L, M);
    LinesAppend(indent, P, L);
    LinesCons(indent, (d, n), []);
    assert P + [] == P;
  }

  lemma LinesCons(indent: string, x: (nat, Node), xs: seq<(nat, Node)>)
    ensures Lines(indent, [x] + xs) == [indent + Tabs(x.0) + Marker(x.1) + x.1.name] + Lines(indent, xs)
  {
    assert ([x] + xs)[0] == x;
    assert ([x] + xs)[1..] == xs;
  }

  /** The outline visits exactly the pre-order nodes. */
  lemma {:induction false} OutlineNodes(cur: Option<Node>, d: nat)
    ensures forall k :: 0 <= k < |Outline(cur, d)| ==> Outline(cur, d)[k].1 == PreOrder(cur)[k]
    decreases cur
  {
    if cur.Some? {
      var n := cur.value;
      OutlineNodes(n.left, d + 1);
      OutlineNodes(n.middle, d + 1);
      OutlineNodes(n.right, d + 1);
    }
  }
}
