/**
 * The growth orchestration of tree.py: a Tree owns a root node, a palette,
 * a growth ceiling and a global age; each call of Grow grows the youngest
 * node and bends the lighter child of a node chosen by random_child.
 */
module Trees {
  import opened Wrappers
  import opened Constants
  import opened Nodes

  /** `grow_node.grow(...)` raises when youngest found no node (tree.py:56-57). */
  datatype GrowError = NoYoungestNode

  /** grow applied to the node at position p of root. */
  function GrowAt<P>(root: Node<P>, p: Path, tick: int, d: GrowDraw): (r: Node<P>)
    requires ValidPath(root, p)
    ensures ValidPath(r, p) && At(r, p) == Grow(At(root, p), tick, d)
    ensures Positions(root) <= Positions(r)
    ensures Count(r) == Count(root) + (if AddsChild(At(root, p), d) then 1 else 0)
    ensures forall q :: ValidPath(root, q) && !IsPrefix(p, q) ==>
      ValidPath(r, q) && SameFields(At(r, q), At(root, q))
    ensures InDomain(root) && ValidGrowDraw(d) ==> InDomain(r)
  {
    var g := Grow(At(root, p), tick, d);
    ReplaceFacts(root, p, g);
    Replace(root, p, g)
  }

  /** bend applied to the node at position p of root. */
  function BendAt<P>(root: Node<P>, p: Path, inc: int): (r: Node<P>)
    requires ValidPath(root, p)
    ensures ValidPath(r, p) && At(r, p) == Bend(At(root, p), inc)
    ensures Positions(r) == Positions(root) && Count(r) == Count(root)
    ensures forall q :: ValidPath(root, q) && !IsPrefix(p, q) ==>
      ValidPath(r, q) && SameFields(At(r, q), At(root, q))
    ensures -1 <= inc <= 1 && InDomain(root) ==> InDomain(r)
  {
    var b := Bend(At(root, p), inc);
    ReplaceFacts(root, p, b);
    Replace(root, p, b)
  }

  /**
   * The growth half of a tick (tree.py:56-57): grow the youngest node, or
   * fail as the source does when youngest found none.
   */
  function GrowYoungest<P>(root: Node<P>, tick: int, d: GrowDraw): (r: Result<Node<P>, GrowError>)
    ensures r.Err? <==> forall p :: ValidPath(root, p) ==> At(root, p).age >= SentinelAge
    ensures r.Ok? ==> Positions(root) <= Positions(r.value)
    ensures r.Ok? ==> Count(root) <= Count(r.value) <= Count(root) + 1
    ensures r.Ok? <==> Youngest(root).at.Some?
    ensures r.Ok? ==>
      var p := Youngest(root).at.value;
      ValidPath(r.value, p) && At(r.value, p) == Grow(At(root, p), tick, d)
    ensures r.Ok? && InDomain(root) && ValidGrowDraw(d) ==> InDomain(r.value)
  {
    YoungestNoneIff(root);
    match Youngest(root).at
    case None => Err(NoYoungestNode)
    case Some(p) => Ok(GrowAt(root, p, tick, d))
  }

  /** A result of random_child that the bend step can use: absent, or a node with two children. */
  predicate BendTargetOk<P>(root: Node<P>, pick: Option<Path>) {
    pick.Some? ==> ValidPath(root, pick.value) && HasTwoChildren(At(root, pick.value))
  }

  /**
   * The bend half of a tick (tree.py:59-64): the lighter child of the picked
   * node is bent by +1 when it is the left one, otherwise the right child is
   * bent by -1. Both children exist, so neither bend reaches an absent node.
   */
  function BendSelected<P>(root: Node<P>, pick: Option<Path>): (r: Node<P>)
    requires BendTargetOk(root, pick)
    ensures pick.None? ==> r == root
    ensures pick.Some? ==>
      && ValidPath(root, pick.value + [L]) && ValidPath(root, pick.value + [R])
      && At(root, pick.value + [L]) == At(root, pick.value).left
      && At(root, pick.value + [R]) == At(root, pick.value).right
    ensures pick.Some? && Count(At(root, pick.value).left) < Count(At(root, pick.value).right) ==>
      r == BendAt(root, pick.value + [L], 1)
    ensures pick.Some? && Count(At(root, pick.value).left) >= Count(At(root, pick.value).right) ==>
      r == BendAt(root, pick.value + [R], -1)
    ensures Positions(r) == Positions(root) && Count(r) == Count(root)
    ensures InDomain(root) ==> InDomain(r)
  {
    match pick
    case None => root
    case Some(p) =>
      var b := At(root, p);
      ChildPath(root, p, L);
      ChildPath(root, p, R);
      if Count(b.left) < Count(b.right) then BendAt(root, p + [L], 1) else BendAt(root, p + [R], -1)
  }

  /** Growing and bending give no node a palette other than the one the tree shares. */
  lemma GrowYoungestKeepsPalette<P>(root: Node<P>, tick: int, d: GrowDraw, c: P)
    requires AllPalette(root, c) && GrowYoungest(root, tick, d).Ok?
    ensures AllPalette(GrowYoungest(root, tick, d).value, c)
  {
    var p := Youngest(root).at.value;
    ReplaceKeepsPalette(root, p, Grow(At(root, p), tick, d), c);
  }

  lemma BendSelectedKeepsPalette<P>(root: Node<P>, pick: Option<Path>, c: P)
    requires AllPalette(root, c) && BendTargetOk(root, pick)
    ensures AllPalette(BendSelected(root, pick), c)
  {
    if pick.Some? {
      var p := pick.value;
      ChildPath(root, p, L);
      ChildPath(root, p, R);
      ReplaceKeepsPalette(root, p + [L], Bend(At(root, p + [L]), 1), c);
      ReplaceKeepsPalette(root, p + [R], Bend(At(root, p + [R]), -1), c);
    }
  }

  /** The as-written recolouring leaves the nodes and the tree on different palettes. */
  lemma ChangePaletteLeavesTreePaletteBehind<P>(root: Node<P>, old_: P, new_: P)
    requires root.Node? && old_ != new_
    ensures !AllPalette(ChangePalette(root, new_), old_)
  {
    assert ChangePalette(root, new_).palette == new_;
  }

  /** choose answers as random_child may: with one of its possible results, for every tree. */
  ghost predicate IsRandomChild<P(!new)>(choose: Node<P> -> Option<Path>) {
    forall t :: choose(t) in RandomChildOutcomes(t)
  }

  /** A procedural tree: its root branch, palette, growth ceiling and global age. */
  class Tree<P(!new)> {
    var palette: P
    var maxNodes: int
    var age: int
    var root: Node<P>

    /** The root exists, the ceiling holds and every node stays in the growth domain. */
    ghost predicate Valid()
      reads this
    {
      && root.Node?
      && Count(root) <= Max(maxNodes, 1)
      && InDomain(root)
      && age >= 0
    }

    /** Every node draws with the tree's own palette, as update_surfaces assumes. */
    ghost predicate SharesPalette()
      reads this
    {
      AllPalette(root, palette)
    }

    /** Tree.__init__: one root branch of age 0, start length and start angle. */
    constructor (palette: P, maxNodes: int)
      ensures Valid()
      ensures this.palette == palette && this.maxNodes == maxNodes && age == 0
      ensures root == NewNode(0, StartBranchLen, StartBranchAngle, palette)
      ensures Count(root) == 1
      ensures Youngest(root) == Found(0, Some([]))
      ensures SharesPalette()
    {
      this.palette := palette;
      this.maxNodes := maxNodes;
      this.age := 0;
      this.root := NewNode(0, StartBranchLen, StartBranchAngle, palette);
    }

    /**
     * Tree.grow: below the ceiling, advance the age, grow the youngest node
     * and bend where random_child (here `choose`) points. Ok(false) means the
     * ceiling was reached; Err is the exception raised when youngest finds no
     * node, after the age has already advanced.
     */
    method Grow(d: GrowDraw, choose: Node<P> -> Option<Path>) returns (res: Result<bool, GrowError>)
      requires Valid() && ValidGrowDraw(d) && IsRandomChild(choose)
      modifies this
      ensures Valid()
      ensures palette == old(palette) && maxNodes == old(maxNodes)
      ensures res == Ok(false) <==> old(Count(root)) >= maxNodes
      ensures res == Ok(false) ==> age == old(age) && root == old(root)
      ensures res != Ok(false) ==> age == old(age) + 1
      ensures res.Err? <==> old(Count(root)) < maxNodes && Youngest(old(root)).at.None?
      ensures res.Err? ==> root == old(root)
      ensures res == Ok(true) ==>
        && GrowYoungest(old(root), age, d).Ok?
        && var grown := GrowYoungest(old(root), age, d).value;
           root == BendSelected(grown, choose(grown))
      ensures old(Count(root)) <= Count(root) <= old(Count(root)) + 1
      ensures maxNodes <= 1 ==> res == Ok(false) && Count(root) == 1
      ensures old(SharesPalette()) ==> SharesPalette()
    {
      if Count(root) < maxNodes {
        age := age + 1;
        var grown := GrowYoungest(root, age, d);
        if grown.Err? {
          return Err(grown.error);
        }
        var pick := choose(grown.value);
        ghost var shared := AllPalette(root, palette);
        if shared {
          GrowYoungestKeepsPalette(root, age, d, palette);
          BendSelectedKeepsPalette(grown.value, pick, palette);
        }
        root := BendSelected(grown.value, pick);
        return Ok(true);
      }
      return Ok(false);
    }

    /**
     * Tree.change_color as tree.py writes it: every node is recoloured, but
     * the tree's own palette field, from which update_surfaces takes the
     * outline and shadow colours, keeps the old palette.
     */
    method ChangeColorAsWritten(newPalette: P)
      requires Valid()
      modifies this
      ensures Valid()
      ensures root == ChangePalette(old(root), newPalette)
      ensures palette == old(palette) && age == old(age) && maxNodes == old(maxNodes)
      ensures newPalette != old(palette) ==> !SharesPalette()
    {
      var recoloured := ChangePalette(root, newPalette);
      SameGeometryKeepsShape(recoloured, root);
      root := recoloured;
    }

    /**
     * Tree.change_color as intended: every node and the tree itself take the
     * new palette; geometry, age and ceiling do not change.
     */
    method ChangeColor(newPalette: P)
      requires Valid()
      modifies this
      ensures Valid() && SharesPalette()
      ensures root == ChangePalette(old(root), newPalette) && palette == newPalette
      ensures SameGeometry(root, old(root)) && Count(root) == old(Count(root))
      ensures age == old(age) && maxNodes == old(maxNodes)
    {
      var recoloured := ChangePalette(root, newPalette);
      SameGeometryKeepsShape(recoloured, root);
      root := recoloured;
      palette := newPalette;
    }
  }
}
