# Procedural tree growth, modelled in Dafny

This project models the branch-growth engine of a procedural 2D tree
generator. A tree is a strict binary tree of branch segments. Each segment has
an age, a length in pixels, an angle in degrees and a colour palette. Once per
tick, `Tree.grow` does three things while the tree is below its node ceiling:

- it advances the tree's global age;
- it grows the youngest segment: adds a left or right child, or thickens the
  segment in place;
- it bends the lighter child of a segment chosen by `random_child`.

Modules:

- `Constants` (constants.dfy): the growth constants of constants.py.
- `Nodes` (node.dfy): node.py's `Node` as a datatype `Nil | Node(age, length,
  angle, palette, left, right)`, with
  - the queries `count`, `youngest`, `random_child` and `copy`;
  - the updates `Node.__init__`, `add_left`, `add_right`, `grow`, `bend`,
    `change_color` and `change_palette`.
  A segment that the tree reaches by reference is named by its `Path` from the
  root (a sequence of `L`/`R` steps). Updating it is `Replace` at that path.
- `Trees` (tree.dfy): tree.py's `Tree` as a class with fields `palette`,
  `maxNodes`, `age` and `root`.
  - `Valid()` is the object invariant: the root exists, the node count is at
    most `max(maxNodes, 1)`, every length is at least 12 and every angle stays
    in [34, 146].
  - `SharesPalette()` says every node carries the tree's own palette.
- `Wrappers` (wrappers.dfy): `Option` and `Result`.

Randomness is an input.

- The three draws `grow` may consume are a `GrowDraw`. `ValidGrowDraw` states
  the ranges `random.randint` gives them: choice in 1..3, length in [12, 40],
  left angle in [100, 145], right angle in [35, 80].
- `random_child` is modelled by the set of results it can return
  (`RandomChildOutcomes`). `Tree.Grow` takes a chooser function that must
  answer, for every tree, with one element of that set.

Where the specification and the code disagree, the model follows the code:

- The specification breaks ties in `youngest` "by first-found in a left-biased
  traversal". The code (node.py:162-164) returns the minimal-age node visited
  LAST in pre-order: a child wins over its parent, and the right subtree wins
  over the left (`YoungestIsLastInPreorder`).
- The specification treats angles as floats. The code gives nodes integer
  angles, and `bend` is only ever called with +1 and -1.
- When every age is at least 10000, `youngest` returns no node and tree.py:57
  calls `grow` on `None`, which raises, after the age has already been
  advanced. `Tree.Grow` returns `Err(NoYoungestNode)` in that case. The age is
  then one higher and the nodes are unchanged.

## Model

| member | source | states |
|---|---|---|
| `Nodes.NewNode` | node.py:29-45 | a new node holds exactly the given age, length, angle and palette, has no children, and counts 1 |
| `Nodes.Count` | node.py:131-143 | count is 0 exactly for an absent subtree, and at least 1 for any node |
| `Nodes.CountIsPositions` | node.py:131-143 | count equals the number of distinct positions in the subtree |
| `Nodes.Youngest` | node.py:146-164 | the reported age never exceeds the sentinel 10000; a reported node lies in the subtree, has the reported age, and that age is below 10000; no node means age 10000 |
| `Nodes.YoungestIsMinimum` | node.py:156-164 | no node of the subtree is younger than the reported age, so the report is the minimum of 10000 and all ages |
| `Nodes.YoungestNoneIff` | node.py:156-164 | youngest returns no node if and only if every age in the subtree is at least 10000 |
| `Nodes.YoungestIsLastInPreorder` | node.py:162-164 | among the nodes of minimal age, youngest returns the one visited last in pre-order, so children win over their parent and the right subtree over the left |
| `Nodes.ChildLength` | node.py:54 | a new child's length is the draw minus the tick, floored at 12; for draws in [12, 40] and a non-negative tick it lies in [12, 40] |
| `Nodes.AddLeft` | node.py:47-56 | only the left slot changes; it holds a childless node of age 2 × tick, the floored length, the drawn angle and the parent's palette |
| `Nodes.AddRight` | node.py:58-67 | only the right slot changes; it holds a childless node of age 2 × tick, the floored length, the drawn angle and the parent's palette |
| `Nodes.Grow` | node.py:69-83 | choice 1 with an empty left slot adds exactly that leaf; choice 2 with an empty right slot adds the right one; otherwise length rises by 2 and age by 12 with the children kept. The count rises by exactly 1 or 0, no position disappears, the palette is kept, and valid draws keep every length at least 12 and every angle in [34, 146] |
| `Nodes.Bend` | node.py:85-99 | nothing changes when the angle is above 145 or below 35; otherwise the angle moves by the increment, the node and each existing direct child get 3 years younger, and lengths, palettes, grandchildren and positions are the same. A step of at most 1 keeps the angle in [34, 146] |
| `Nodes.BendTimesAngle` | node.py:92-94 | repeated bends by +1 (or -1) from a bendable angle raise it to at most 146 (or lower it to at least 34); from an unbendable angle they change nothing |
| `Nodes.BendSettles` | node.py:92-99 | after 112 bends in one direction the angle is outside [35, 145], and a further bend changes nothing (a fixed point) |
| `Nodes.ChangeColor` | node.py:101-110 | only the node's palette changes, to the new one |
| `Nodes.ChangePalette` | node.py:283-295 | every node of the result carries the new palette; shape, ages, lengths and angles are those of the input |
| `Nodes.ChangePaletteLastWins` | node.py:283-295 | recolouring with p and then with q equals recolouring with q alone |
| `Nodes.ChangePaletteSame` | node.py:283-295 | recolouring a tree with the palette it already carries everywhere returns the same tree |
| `Nodes.SameGeometryKeepsShape` | node.py:283-295 | two trees of the same geometry have the same positions, count and growth domain |
| `Nodes.Copy` | node.py:113-128 | the copy equals the original in shape and in age, length, angle and palette at every position |
| `Nodes.RandomChildOutcomes` | node.py:260-280 | the possible results are never empty; None is possible exactly when the node is absent or lacks a child, and is then the only result; a node with two children can return itself; every returned node lies in the subtree and has two children |
| `Nodes.RandomChildOutcomesExactly` | node.py:270-280 | random_child can return the node at p if and only if every node from the root down to p, both included, has two children |
| `Trees.GrowAt` | tree.py:56-57 | the node at the youngest position receives grow; no position disappears; the count rises by 1 exactly when a child is added; every node outside that subtree keeps its fields; the growth domain is kept |
| `Trees.GrowYoungest` | tree.py:55-57 | growth fails exactly when every age is at least 10000; otherwise the youngest node receives grow, the count rises by at most 1, no position disappears and the growth domain is kept |
| `Trees.BendAt` | tree.py:62-64 | the node at the path receives bend; positions and count are unchanged; nodes outside its subtree keep their fields |
| `Trees.BendSelected` | tree.py:59-64 | with no pick nothing changes; with a pick both children exist, and the left child is bent by +1 when it has fewer nodes than the right, otherwise the right child by -1; positions, count and growth domain are kept |
| `Trees.GrowYoungestKeepsPalette` | node.py:54-67 | growth gives new children their parent's palette, so a palette shared by all nodes stays shared |
| `Trees.BendSelectedKeepsPalette` | tree.py:59-64 | bending keeps a palette shared by all nodes |
| `Trees.ChangePaletteLeavesTreePaletteBehind` | tree.py:107-114 | after recolouring a tree to a different palette, its nodes no longer carry the old one |
| `Trees.Tree.constructor` | tree.py:28-45 | a new tree has age 0 and the given ceiling and palette, and a single root of age 0, length 30 and angle 90, so its count is 1 and youngest returns the root |
| `Trees.Tree.Grow` | tree.py:47-70 | returns Ok(false), changing nothing, exactly when the count is not below the ceiling; otherwise the age rises by exactly 1 and either growth fails as the source does, leaving the nodes unchanged, or the youngest node is grown and the chosen node's lighter child bent. The count rises by at most 1, the ceiling `count <= max(maxNodes, 1)` and the growth domain are kept, and with a ceiling of 1 or less grow always returns Ok(false) with the count staying 1 |
| `Trees.Tree.ChangeColorAsWritten` | tree.py:107-114 | the nodes take the new palette and keep their geometry, but the tree's own palette field is unchanged, so a different new palette breaks `SharesPalette` |
| `Trees.Tree.ChangeColor` | tree.py:107-114 | corrected: the nodes and the tree take the new palette, and the geometry, count, age and ceiling are kept |

## Findings

| source | as written | input that shows it | evidently intended | confidence | as-written member | corrected member |
|---|---|---|---|---|---|---|
| tree.py:107-114 | `change_color` recolours every node through `change_palette` but never assigns `self.palette` | a `Tree(A, 50)` followed by `change_color(B)` with B different from A: `update_surfaces` (tree.py:84, 87, 93) still takes `leaves_outline`, `shadow_color` and `trunk_outline` from A, while branches and leaves are drawn in B | the tree's palette becomes B as well, so every colour of the composite comes from B | not executed; medium | `Trees.Tree.ChangeColorAsWritten` | `Trees.Tree.ChangeColor` |

## Left out

- Rendering: `draw_parallel_lines`, `get_position`, `draw_branches` and `draw_leaves` (node.py:167-257). They are floating-point trigonometry and pygame drawing calls.
- The compositing pipeline: `Tree.update_surfaces`, `pixellate`, `pixellate_and_outline`, `outline`, `shadow` and `Tree.draw` (tree.py:72-194). Their pixel semantics live in pygame, which is not part of this model. `Tree.Grow` therefore does not model the `update_surfaces` call it makes on both paths.
- The leaf sprite every node owns (`Leaves`, regenerated by `change_color`). It is random sprite placement. Its missing-palette-key error (leaves.py:75-76) is not modelled, because the palette is an opaque type parameter.
- palette.py (JSON load and save), main.py, button.py and colorwheel.py: file I/O, the event loop and UI widgets.
- The random number generator. Its draws are inputs (`GrowDraw`) or a chooser constrained to the possible results of `random_child`.
- Object identity and in-place mutation. Nodes are values, so aliasing between node objects is not represented. Updating a node the tree reaches by reference is a replacement at its path.
- `Nodes.RandomChildOutcomes`: states which results are possible, not their probabilities. The source weights each subtree by calling `random_child` on it twice.
- `Nodes.Copy`: states that the copy equals the original. It cannot state that the copy shares no node object with it, because nodes are values here.
- `Nodes.ChangePalette`: the source recolours the node, then the right subtree, then the left. For values that order is unobservable.
- `Nodes.Bend`: the increment is an integer. The source's parameter is a float, but every call passes 1 or -1.
