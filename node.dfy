/**
 * The branch structure of node.py: a strict binary tree of branch segments,
 * its queries (count, youngest, random_child, copy) and the updates a node
 * undergoes (grow, add_left, add_right, bend, change_color, change_palette).
 *
 * A node object is a value here; `Nil` stands for Python's `None`. A node
 * that the tree reaches by reference is addressed by its Path from the root.
 */
module Nodes {
  import opened Wrappers
  import opened Constants

  /** Which child slot one step of a path descends into. */
  datatype Dir = L | R

  /** A position in a tree: the child slots taken from the root. */
  type Path = seq<Dir>

  /** A branch segment and its two optional children; P is the palette. */
  datatype Node<P> =
    | Nil
    | Node(age: int, length: int, angle: int, palette: P, left: Node<P>, right: Node<P>)

  /** The age youngest reports for an empty subtree (node.py:157). */
  const SentinelAge: int := 10000

  // ---------------------------------------------------------------------
  // Positions
  // ---------------------------------------------------------------------

  function Child<P>(n: Node<P>, d: Dir): Node<P>
    requires n.Node?
  {
    if d == L then n.left else n.right
  }

  /** p leads from n to an existing node. */
  predicate ValidPath<P>(n: Node<P>, p: Path)
    decreases p
  {
    n.Node? && (p == [] || ValidPath(Child(n, p[0]), p[1..]))
  }

  /** The subtree rooted at position p. */
  function At<P>(n: Node<P>, p: Path): (s: Node<P>)
    requires ValidPath(n, p)
    ensures s.Node?
    decreases p
  {
    if p == [] then n else At(Child(n, p[0]), p[1..])
  }

  /** n with the subtree at position p replaced by s. */
  function Replace<P>(n: Node<P>, p: Path, s: Node<P>): Node<P>
    requires ValidPath(n, p)
    decreases p
  {
    if p == [] then s
    else if p[0] == L then n.(left := Replace(n.left, p[1..], s))
    else n.(right := Replace(n.right, p[1..], s))
  }

  /** p is a prefix of q: q lies in the subtree at p. */
  predicate IsPrefix(p: Path, q: Path) {
    |p| <= |q| && q[..|p|] == p
  }

  /** The paths of s, each extended in front by d. */
  function Under(d: Dir, s: set<Path>): set<Path> {
    set p | p in s :: [d] + p
  }

  /** The set of all positions of n. */
  function Positions<P>(n: Node<P>): set<Path> {
    match n
    case Nil => {}
    case Node(_, _, _, _, l, r) => {[]} + Under(L, Positions(l)) + Under(R, Positions(r))
  }

  /** Two nodes agree on the fields a node carries for itself. */
  ghost predicate SameFields<P>(a: Node<P>, b: Node<P>)
    requires a.Node? && b.Node?
  {
    a.age == b.age && a.length == b.length && a.angle == b.angle && a.palette == b.palette
  }

  lemma StepIn<P>(n: Node<P>, d: Dir, q: Path)
    ensures ValidPath(n, [d] + q) <==> n.Node? && ValidPath(Child(n, d), q)
    ensures ValidPath(n, [d] + q) ==> At(n, [d] + q) == At(Child(n, d), q)
  {
    assert ([d] + q)[0] == d && ([d] + q)[1..] == q;
  }

  lemma {:induction false} ChildPath<P>(n: Node<P>, p: Path, d: Dir)
    requires ValidPath(n, p) && Child(At(n, p), d).Node?
    ensures ValidPath(n, p + [d]) && At(n, p + [d]) == Child(At(n, p), d)
    decreases p
  {
    if p == [] {
      assert [] + [d] == [d] + [];
      StepIn(n, d, []);
    } else {
      ChildPath(Child(n, p[0]), p[1..], d);
      assert p + [d] == [p[0]] + (p[1..] + [d]);
      StepIn(n, p[0], p[1..] + [d]);
    }
  }

  lemma UnderMember(d: Dir, s: set<Path>, p: Path)
    ensures p in Under(d, s) <==> p != [] && p[0] == d && p[1..] in s
  {
    if p != [] && p[0] == d && p[1..] in s {
      assert p == [d] + p[1..];
    }
    if p in Under(d, s) {
      var q :| q in s && p == [d] + q;
      assert p[1..] == q;
    }
  }

  lemma UnderSize(d: Dir, s: set<Path>)
    ensures |Under(d, s)| == |s|
    decreases |s|
  {
    if s != {} {
      var x :| x in s;
      var rest := s - {x};
      UnderSize(d, rest);
      forall p ensures p in Under(d, s) <==> p in Under(d, rest) + {[d] + x} {
        UnderMember(d, s, p);
        UnderMember(d, rest, p);
        if p == [d] + x { assert p[1..] == x; }
        if p != [] && p[0] == d && p[1..] == x { assert p == [d] + x; }
      }
      assert Under(d, s) == Under(d, rest) + {[d] + x};
      UnderMember(d, rest, [d] + x);
      assert ([d] + x)[1..] == x;
    }
  }

  lemma {:induction false} PositionsAreValidPaths<P>(n: Node<P>, p: Path)
    ensures p in Positions(n) <==> ValidPath(n, p)
    decreases p
  {
    if n.Node? && p != [] {
      var d := p[0];
      assert p == [d] + p[1..];
      StepIn(n, d, p[1..]);
      PositionsAreValidPaths(Child(n, d), p[1..]);
      UnderMember(L, Positions(n.left), p);
      UnderMember(R, Positions(n.right), p);
    }
  }

  // ---------------------------------------------------------------------
  // count (node.py:131-143)
  // ---------------------------------------------------------------------

  /** Number of nodes in the subtree, 0 for an absent one. */
  function Count<P>(n: Node<P>): (c: nat)
    ensures c == 0 <==> n.Nil?
  {
    if n.Nil? then 0 else 1 + Count(n.left) + Count(n.right)
  }

  /** count agrees with the number of positions of the subtree. */
  lemma {:induction false} CountIsPositions<P>(n: Node<P>)
    ensures Count(n) == |Positions(n)|
  {
    if n.Node? {
      CountIsPositions(n.left);
      CountIsPositions(n.right);
      var a, b := Under(L, Positions(n.left)), Under(R, Positions(n.right));
      UnderSize(L, Positions(n.left));
      UnderSize(R, Positions(n.right));
      forall p | p in a ensures p !in b && p != [] {
        UnderMember(L, Positions(n.left), p);
        UnderMember(R, Positions(n.right), p);
      }
      UnderMember(R, Positions(n.right), []);
      assert a * b == {};
      assert |a + b| == |a| + |b|;
      assert [] !in a + b;
      assert Positions(n) == {[]} + (a + b);
      assert |{[]} + (a + b)| == 1 + |a + b|;
    }
  }

  // ---------------------------------------------------------------------
  // Replacing a subtree
  // ---------------------------------------------------------------------

  lemma {:induction false} ReplaceAt<P>(n: Node<P>, p: Path, s: Node<P>)
    requires ValidPath(n, p) && s.Node?
    ensures ValidPath(Replace(n, p, s), p) && At(Replace(n, p, s), p) == s
    decreases p
  {
    if p != [] {
      ReplaceAt(Child(n, p[0]), p[1..], s);
    }
  }

  lemma {:induction false} ReplaceCount<P>(n: Node<P>, p: Path, s: Node<P>)
    requires ValidPath(n, p)
    ensures Count(Replace(n, p, s)) + Count(At(n, p)) == Count(n) + Count(s)
    decreases p
  {
    if p != [] {
      ReplaceCount(Child(n, p[0]), p[1..], s);
    }
  }

  lemma UnderMonotonic(d: Dir, a: set<Path>, b: set<Path>)
    requires a <= b
    ensures Under(d, a) <= Under(d, b)
  {
  }

  lemma {:induction false} ReplacePositions<P>(n: Node<P>, p: Path, s: Node<P>)
    requires ValidPath(n, p)
    ensures Positions(At(n, p)) <= Positions(s) ==> Positions(n) <= Positions(Replace(n, p, s))
    ensures Positions(At(n, p)) == Positions(s) ==> Positions(n) == Positions(Replace(n, p, s))
    decreases p
  {
    if p != [] {
      var c := Child(n, p[0]);
      ReplacePositions(c, p[1..], s);
      if Positions(At(n, p)) <= Positions(s) {
        UnderMonotonic(p[0], Positions(c), Positions(Replace(c, p[1..], s)));
      }
    }
  }

  /** Nothing outside the subtree at p changes its own fields or disappears. */
  lemma {:induction false} ReplaceElsewhere<P>(n: Node<P>, p: Path, s: Node<P>, q: Path)
    requires ValidPath(n, p) && ValidPath(n, q) && !IsPrefix(p, q)
    ensures ValidPath(Replace(n, p, s), q) && SameFields(At(Replace(n, p, s), q), At(n, q))
    decreases q
  {
    if q != [] {
      var d := q[0];
      assert q == [d] + q[1..];
      StepIn(n, d, q[1..]);
      StepIn(Replace(n, p, s), d, q[1..]);
      if d == p[0] {
        assert !IsPrefix(p[1..], q[1..]);
        ReplaceElsewhere(Child(n, d), p[1..], s, q[1..]);
      }
    }
  }

  // ---------------------------------------------------------------------
  // The domain every node of a grown tree stays in
  // ---------------------------------------------------------------------

  /** Angles a node can reach: the bend domain widened by one bend step. */
  predicate InAngleDomain(a: int) {
    MinAngleRight - 1 <= a <= MaxAngleLeft + 1
  }

  /** Every node has at least the minimum length and an angle in the domain. */
  predicate InDomain<P>(n: Node<P>) {
    n.Nil? || (n.length >= MinLength && InAngleDomain(n.angle) && InDomain(n.left) && InDomain(n.right))
  }

  lemma {:induction false} AtInDomain<P>(n: Node<P>, p: Path)
    requires ValidPath(n, p)
    ensures InDomain(n) ==> InDomain(At(n, p))
    decreases p
  {
    if p != [] {
      AtInDomain(Child(n, p[0]), p[1..]);
    }
  }

  lemma {:induction false} ReplaceInDomain<P>(n: Node<P>, p: Path, s: Node<P>)
    requires ValidPath(n, p)
    ensures InDomain(n) && InDomain(s) ==> InDomain(Replace(n, p, s))
    decreases p
  {
    if p != [] {
      ReplaceInDomain(Child(n, p[0]), p[1..], s);
    }
  }

  /** What replacing the subtree at p by a node s does to the whole tree. */
  lemma ReplaceFacts<P>(n: Node<P>, p: Path, s: Node<P>)
    requires ValidPath(n, p) && s.Node?
    ensures ValidPath(Replace(n, p, s), p) && At(Replace(n, p, s), p) == s
    ensures Count(Replace(n, p, s)) + Count(At(n, p)) == Count(n) + Count(s)
    ensures Positions(At(n, p)) <= Positions(s) ==> Positions(n) <= Positions(Replace(n, p, s))
    ensures Positions(At(n, p)) == Positions(s) ==> Positions(n) == Positions(Replace(n, p, s))
    ensures forall q :: ValidPath(n, q) && !IsPrefix(p, q) ==>
      ValidPath(Replace(n, p, s), q) && SameFields(At(Replace(n, p, s), q), At(n, q))
    ensures InDomain(n) ==> InDomain(At(n, p))
    ensures InDomain(n) && InDomain(s) ==> InDomain(Replace(n, p, s))
  {
    ReplaceAt(n, p, s);
    ReplaceCount(n, p, s);
    ReplacePositions(n, p, s);
    forall q | ValidPath(n, q) && !IsPrefix(p, q)
      ensures ValidPath(Replace(n, p, s), q) && SameFields(At(Replace(n, p, s), q), At(n, q))
    {
      ReplaceElsewhere(n, p, s, q);
    }
    AtInDomain(n, p);
    ReplaceInDomain(n, p, s);
  }

  // ---------------------------------------------------------------------
  // youngest (node.py:146-164)
  // ---------------------------------------------------------------------

  /** What youngest returns: the age found and the position of the node, if any. */
  datatype Found = Found(age: int, at: Option<Path>)

  function Lift(d: Dir, o: Option<Path>): Option<Path> {
    match o
    case None => None
    case Some(p) => Some([d] + p)
  }

  lemma LiftValid<P>(n: Node<P>, d: Dir, o: Option<Path>)
    requires n.Node? && (o.Some? ==> ValidPath(Child(n, d), o.value))
    ensures Lift(d, o).Some? <==> o.Some?
    ensures o.Some? ==> ValidPath(n, Lift(d, o).value) && At(n, Lift(d, o).value) == At(Child(n, d), o.value)
  {
    if o.Some? {
      StepIn(n, d, o.value);
    }
  }

  /**
   * The youngest node: a node wins only when strictly younger than both
   * subtrees' minima; otherwise the left minimum wins only when strictly
   * smaller than the right one.
   */
  function Youngest<P>(n: Node<P>): (r: Found)
    ensures r.age <= SentinelAge
    ensures r.at.None? ==> r.age == SentinelAge
    ensures r.at.Some? ==> r.age < SentinelAge && ValidPath(n, r.at.value) && At(n, r.at.value).age == r.age
  {
    match n
    case Nil => Found(SentinelAge, None)
    case Node(a, _, _, _, l, rt) =>
      var yl := Youngest(l);
      var yr := Youngest(rt);
      LiftValid(n, L, yl.at);
      LiftValid(n, R, yr.at);
      if a < yl.age && a < yr.age then Found(a, Some([]))
      else if yl.age < yr.age then Found(yl.age, Lift(L, yl.at))
      else Found(yr.age, Lift(R, yr.at))
  }

  /** No node of the subtree is younger than what youngest reports. */
  lemma {:induction false} YoungestIsMinimum<P>(n: Node<P>, p: Path)
    requires ValidPath(n, p)
    ensures Youngest(n).age <= At(n, p).age
    decreases p
  {
    if p != [] {
      assert p == [p[0]] + p[1..];
      StepIn(n, p[0], p[1..]);
      YoungestIsMinimum(Child(n, p[0]), p[1..]);
    }
  }

  /** youngest finds no node exactly when every age is at least the sentinel. */
  lemma YoungestNoneIff<P>(n: Node<P>)
    ensures Youngest(n).at.None? <==> forall p :: ValidPath(n, p) ==> At(n, p).age >= SentinelAge
  {
    if Youngest(n).at.None? {
      forall p | ValidPath(n, p) ensures At(n, p).age >= SentinelAge {
        YoungestIsMinimum(n, p);
      }
    } else {
      var q := Youngest(n).at.value;
      assert ValidPath(n, q) && At(n, q).age < SentinelAge;
    }
  }

  /** q comes strictly before p in a pre-order walk (node, then left, then right). */
  predicate PreorderBefore(q: Path, p: Path)
    decreases q
  {
    if q == [] then p != []
    else if p == [] then false
    else if q[0] == p[0] then PreorderBefore(q[1..], p[1..])
    else q[0] == L && p[0] == R
  }

  lemma {:induction false} PreorderBeforeIrreflexive(p: Path)
    ensures !PreorderBefore(p, p)
    decreases p
  {
    if p != [] {
      PreorderBeforeIrreflexive(p[1..]);
    }
  }

  lemma PreorderBeforeStep(d: Dir, q: Path, p: Path)
    ensures PreorderBefore([d] + q, [d] + p) <==> PreorderBefore(q, p)
  {
    assert ([d] + q)[1..] == q && ([d] + p)[1..] == p;
  }

  /**
   * Ties: of all nodes carrying the minimum age, youngest returns the one
   * visited last in pre-order, so children win over their parent and the
   * right subtree wins over the left.
   */
  lemma {:induction false} YoungestIsLastInPreorder<P>(n: Node<P>, q: Path)
    requires Youngest(n).at.Some? && ValidPath(n, q) && At(n, q).age == Youngest(n).age
    ensures q == Youngest(n).at.value || PreorderBefore(q, Youngest(n).at.value)
    decreases q
  {
    if q != [] {
      var d, q' := q[0], q[1..];
      assert q == [d] + q';
      StepIn(n, d, q');
      var yl, yr := Youngest(n.left), Youngest(n.right);
      YoungestIsMinimum(Child(n, d), q');
      if !(n.age < yl.age && n.age < yr.age) {
        if yl.age < yr.age {
          if d == L {
            YoungestIsLastInPreorder(n.left, q');
            PreorderBeforeStep(L, q', yl.at.value);
          }
        } else {
          if d == R {
            YoungestIsLastInPreorder(n.right, q');
            PreorderBeforeStep(R, q', yr.at.value);
          }
        }
      }
    }
  }

  // ---------------------------------------------------------------------
  // Node.__init__, add_left, add_right, grow (node.py:29-83)
  // ---------------------------------------------------------------------

  /** A new branch segment, without children. */
  function NewNode<P>(age: int, length: int, angle: int, palette: P): (r: Node<P>)
    ensures r.Node? && r.left.Nil? && r.right.Nil?
    ensures r.age == age && r.length == length && r.angle == angle && r.palette == palette
    ensures Count(r) == 1 && Positions(r) == {[]}
  {
    Node(age, length, angle, palette, Nil, Nil)
  }

  /** The length of a new child: the draw less the tree's age, never below MinLength. */
  function ChildLength(lengthDraw: int, tick: int): (len: int)
    ensures len >= MinLength
    ensures len == lengthDraw - tick || len == MinLength
    ensures len >= lengthDraw - tick
    ensures MinLength <= lengthDraw <= MaxLength && tick >= 0 ==> len <= MaxLength
  {
    Max(lengthDraw - tick, MinLength)
  }

  /** add_left: a new leaf of age 2*tick goes into the left slot. */
  function AddLeft<P>(n: Node<P>, tick: int, lengthDraw: int, angleDraw: int): (r: Node<P>)
    requires n.Node?
    ensures r.Node? && r.(left := n.left) == n
    ensures r.left.Node? && r.left.left.Nil? && r.left.right.Nil?
    ensures r.left.age == 2 * tick && r.left.length == ChildLength(lengthDraw, tick)
    ensures r.left.angle == angleDraw && r.left.palette == n.palette
  {
    n.(left := NewNode(age := tick * 2, length := ChildLength(lengthDraw, tick), angle := angleDraw, palette := n.palette))
  }

  /** add_right: a new leaf of age 2*tick goes into the right slot. */
  function AddRight<P>(n: Node<P>, tick: int, lengthDraw: int, angleDraw: int): (r: Node<P>)
    requires n.Node?
    ensures r.Node? && r.(right := n.right) == n
    ensures r.right.Node? && r.right.left.Nil? && r.right.right.Nil?
    ensures r.right.age == 2 * tick && r.right.length == ChildLength(lengthDraw, tick)
    ensures r.right.angle == angleDraw && r.right.palette == n.palette
  {
    n.(right := NewNode(age := tick * 2, length := ChildLength(lengthDraw, tick), angle := angleDraw, palette := n.palette))
  }

  /**
   * The random draws one call of grow may consume: the outcome number, and
   * the length and angle draws of add_left/add_right.
   */
  datatype GrowDraw = GrowDraw(choice: int, lengthDraw: int, angleDraw: int)

  /** The draws random.randint can produce at those calls. */
  predicate ValidGrowDraw(d: GrowDraw) {
    && 1 <= d.choice <= 3
    && MinLength <= d.lengthDraw <= MaxLength
    && (d.choice == 1 ==> MinAngleLeft <= d.angleDraw <= MaxAngleLeft)
    && (d.choice == 2 ==> MinAngleRight <= d.angleDraw <= MaxAngleRight)
  }

  /** grow adds a child: the drawn slot is empty. */
  predicate AddsChild<P>(n: Node<P>, d: GrowDraw)
    requires n.Node?
  {
    (d.choice == 1 && n.left.Nil?) || (d.choice == 2 && n.right.Nil?)
  }

  /** grow: add the drawn child if its slot is empty, otherwise thicken in place. */
  function Grow<P>(n: Node<P>, tick: int, d: GrowDraw): (r: Node<P>)
    requires n.Node?
    ensures r.Node? && r.palette == n.palette
    ensures d.choice == 1 && n.left.Nil? ==>
      && r.(left := Nil) == n && r.left.Node? && r.left.left.Nil? && r.left.right.Nil?
      && r.left.age == 2 * tick && r.left.length == ChildLength(d.lengthDraw, tick)
      && r.left.angle == d.angleDraw && r.left.palette == n.palette
    ensures d.choice == 2 && n.right.Nil? ==>
      && r.(right := Nil) == n && r.right.Node? && r.right.left.Nil? && r.right.right.Nil?
      && r.right.age == 2 * tick && r.right.length == ChildLength(d.lengthDraw, tick)
      && r.right.angle == d.angleDraw && r.right.palette == n.palette
    ensures !AddsChild(n, d) ==>
      r == n.(length := n.length + GrowLengthChange, age := n.age + GrowAgeChange)
    ensures Count(r) == Count(n) + (if AddsChild(n, d) then 1 else 0)
    ensures Positions(n) <= Positions(r)
    ensures InDomain(n) && ValidGrowDraw(d) ==> InDomain(r)
    ensures AllPalette(n, n.palette) ==> AllPalette(r, n.palette)
  {
    if d.choice == 1 && n.left.Nil? then
      UnderMonotonic(L, Positions(n.left), {[]});
      AddLeft(n, tick, d.lengthDraw, d.angleDraw)
    else if d.choice == 2 && n.right.Nil? then
      UnderMonotonic(R, Positions(n.right), {[]});
      AddRight(n, tick, d.lengthDraw, d.angleDraw)
    else
      n.(length := n.length + GrowLengthChange, age := n.age + GrowAgeChange)
  }

  // ---------------------------------------------------------------------
  // bend (node.py:85-99)
  // ---------------------------------------------------------------------

  /** c with its own age shifted by delta; an absent child stays absent. */
  function Aged<P>(c: Node<P>, delta: int): (r: Node<P>)
    ensures r.Nil? <==> c.Nil?
    ensures Count(r) == Count(c) && Positions(r) == Positions(c)
    ensures InDomain(r) == InDomain(c)
    ensures c.Node? ==> r.palette == c.palette && r.left == c.left && r.right == c.right
  {
    if c.Nil? then c else c.(age := c.age + delta)
  }

  lemma AgedPalette<P>(c: Node<P>, delta: int, x: P)
    ensures AllPalette(Aged(c, delta), x) == AllPalette(c, x)
  {
    if c.Node? {
      assert AllPalette(Aged(c, delta), x) == (c.palette == x && AllPalette(c.left, x) && AllPalette(c.right, x));
    }
  }

  /** The angles at which bend acts; outside them it does nothing. */
  predicate Bendable(angle: int) {
    MinAngleRight <= angle <= MaxAngleLeft
  }

  /**
   * bend: outside the bend domain nothing changes; inside it the angle moves
   * by inc and the node and its existing direct children grow younger.
   */
  function Bend<P>(n: Node<P>, inc: int): (r: Node<P>)
    requires n.Node?
    ensures r.Node? && Count(r) == Count(n) && Positions(r) == Positions(n)
    ensures !Bendable(n.angle) ==> r == n
    ensures Bendable(n.angle) ==>
      && r.angle == n.angle + inc && r.age == n.age + BendAgeChange
      && r.length == n.length && r.palette == n.palette
      && r.left.Nil? == n.left.Nil? && r.right.Nil? == n.right.Nil?
      && (n.left.Node? ==> r.left == n.left.(age := n.left.age + BendAgeChange))
      && (n.right.Node? ==> r.right == n.right.(age := n.right.age + BendAgeChange))
    ensures -1 <= inc <= 1 && InDomain(n) ==> InDomain(r)
    ensures AllPalette(n, n.palette) ==> AllPalette(r, n.palette)
  {
    if n.angle > MaxAngleLeft || n.angle < MinAngleRight then n
    else
      AgedPalette(n.left, BendAgeChange, n.palette);
      AgedPalette(n.right, BendAgeChange, n.palette);
      n.(angle := n.angle + inc, age := n.age + BendAgeChange,
         left := Aged(n.left, BendAgeChange), right := Aged(n.right, BendAgeChange))
  }

  /** k successive bends by the same increment. */
  function BendTimes<P>(n: Node<P>, inc: int, k: nat): (r: Node<P>)
    requires n.Node?
    ensures r.Node?
  {
    if k == 0 then n else Bend(BendTimes(n, inc, k - 1), inc)
  }

  /**
   * Where k bends by +1 or -1 leave a node: unchanged when it starts outside
   * the bend domain, otherwise with its angle clamped just outside that domain.
   */
  lemma {:induction false} BendTimesAngle<P>(n: Node<P>, inc: int, k: nat)
    requires n.Node? && InAngleDomain(n.angle) && (inc == 1 || inc == -1)
    ensures !Bendable(n.angle) ==> BendTimes(n, inc, k) == n
    ensures Bendable(n.angle) && inc == 1 ==> BendTimes(n, inc, k).angle == Min(n.angle + k, MaxAngleLeft + 1)
    ensures Bendable(n.angle) && inc == -1 ==> BendTimes(n, inc, k).angle == Max(n.angle - k, MinAngleRight - 1)
  {
    if k > 0 {
      BendTimesAngle(n, inc, k - 1);
      var m := BendTimes(n, inc, k - 1);
      assert BendTimes(n, inc, k) == Bend(m, inc);
    }
  }

  /** Bends needed, at most, to carry any angle of the domain out of the bend domain. */
  const BendLimit: nat := MaxAngleLeft - MinAngleRight + 2

  /** Repeated bending reaches a fixed point: after BendLimit bends, bend changes nothing. */
  lemma BendSettles<P>(n: Node<P>, inc: int)
    requires n.Node? && InAngleDomain(n.angle) && (inc == 1 || inc == -1)
    ensures !Bendable(BendTimes(n, inc, BendLimit).angle)
    ensures Bend(BendTimes(n, inc, BendLimit), inc) == BendTimes(n, inc, BendLimit)
  {
    BendTimesAngle(n, inc, BendLimit);
  }

  // ---------------------------------------------------------------------
  // change_color, change_palette (node.py:101-110, 283-295)
  // ---------------------------------------------------------------------

  /** change_color: only the node's palette changes. */
  function ChangeColor<P>(n: Node<P>, p: P): (r: Node<P>)
    requires n.Node?
    ensures r.Node? && r.palette == p && r.(palette := n.palette) == n
  {
    n.(palette := p)
  }

  /** The two trees have the same shape and the same age, length and angle everywhere. */
  predicate SameGeometry<P>(a: Node<P>, b: Node<P>) {
    if a.Nil? || b.Nil? then a.Nil? && b.Nil?
    else
      && a.age == b.age && a.length == b.length && a.angle == b.angle
      && SameGeometry(a.left, b.left) && SameGeometry(a.right, b.right)
  }

  /** Every node of n carries palette p. */
  ghost predicate AllPalette<P>(n: Node<P>, p: P) {
    n.Nil? || (n.palette == p && AllPalette(n.left, p) && AllPalette(n.right, p))
  }

  /** change_palette: recolour the node, then its right and its left subtree. */
  function ChangePalette<P>(n: Node<P>, p: P): (r: Node<P>)
    ensures SameGeometry(r, n) && AllPalette(r, p)
  {
    if n.Nil? then Nil
    else
      var c := ChangeColor(n, p);
      var right := ChangePalette(n.right, p);
      var left := ChangePalette(n.left, p);
      c.(right := right, left := left)
  }

  /** A subtree keeps a shared palette c when its subtree at p is replaced by one that has it. */
  lemma {:induction false} ReplaceKeepsPalette<P>(n: Node<P>, p: Path, s: Node<P>, c: P)
    requires ValidPath(n, p)
    ensures AllPalette(n, c) ==> AllPalette(At(n, p), c)
    ensures AllPalette(n, c) && AllPalette(s, c) ==> AllPalette(Replace(n, p, s), c)
    decreases p
  {
    if p != [] {
      ReplaceKeepsPalette(Child(n, p[0]), p[1..], s, c);
    }
  }

  /** Same geometry means the same positions, count and domain. */
  lemma {:induction false} SameGeometryKeepsShape<P>(a: Node<P>, b: Node<P>)
    requires SameGeometry(a, b)
    ensures Positions(a) == Positions(b) && Count(a) == Count(b) && InDomain(a) == InDomain(b)
  {
    if a.Node? {
      SameGeometryKeepsShape(a.left, b.left);
      SameGeometryKeepsShape(a.right, b.right);
    }
  }

  /** Recolouring twice is recolouring once with the last palette. */
  lemma {:induction false} ChangePaletteLastWins<P>(n: Node<P>, p: P, q: P)
    ensures ChangePalette(ChangePalette(n, p), q) == ChangePalette(n, q)
  {
    if n.Node? {
      ChangePaletteLastWins(n.left, p, q);
      ChangePaletteLastWins(n.right, p, q);
    }
  }

  /** Recolouring a tree that already carries palette p everywhere changes nothing. */
  lemma {:induction false} ChangePaletteSame<P>(n: Node<P>, p: P)
    requires AllPalette(n, p)
    ensures ChangePalette(n, p) == n
  {
    if n.Node? {
      ChangePaletteSame(n.left, p);
      ChangePaletteSame(n.right, p);
    }
  }

  // ---------------------------------------------------------------------
  // copy (node.py:113-128)
  // ---------------------------------------------------------------------

  /** copy: rebuild every node from its fields, then copy the children. */
  function Copy<P>(n: Node<P>): (r: Node<P>)
    ensures r == n
  {
    if n.Nil? then Nil
    else
      var made := NewNode(n.age, n.length, n.angle, n.palette);
      made.(left := Copy(n.left), right := Copy(n.right))
  }

  // ---------------------------------------------------------------------
  // random_child (node.py:260-280)
  // ---------------------------------------------------------------------

  predicate HasTwoChildren<P>(n: Node<P>) {
    n.Node? && n.left.Node? && n.right.Node?
  }

  /** The found paths of s, each extended in front by d; None results are filtered out. */
  function LiftAll(d: Dir, s: set<Option<Path>>): set<Option<Path>> {
    set o | o in s && o.Some? :: Some([d] + o.value)
  }

  lemma LiftAllMember(d: Dir, s: set<Option<Path>>, p: Path)
    ensures Some(p) in LiftAll(d, s) <==> p != [] && p[0] == d && Some(p[1..]) in s
  {
    if p != [] && p[0] == d && Some(p[1..]) in s {
      assert p == [d] + p[1..];
    }
    if Some(p) in LiftAll(d, s) {
      var o :| o in s && o.Some? && Some(p) == Some([d] + o.value);
      assert p[1..] == o.value;
    }
  }

  lemma LiftAllValid<P>(n: Node<P>, d: Dir, s: set<Option<Path>>)
    requires n.Node?
    requires forall o :: o in s && o.Some? ==> ValidPath(Child(n, d), o.value) && HasTwoChildren(At(Child(n, d), o.value))
    ensures forall o :: o in LiftAll(d, s) ==> o.Some? && ValidPath(n, o.value) && HasTwoChildren(At(n, o.value))
  {
    forall o | o in LiftAll(d, s)
      ensures o.Some? && ValidPath(n, o.value) && HasTwoChildren(At(n, o.value))
    {
      var o' :| o' in s && o'.Some? && o == Some([d] + o'.value);
      StepIn(n, d, o'.value);
    }
  }

  /**
   * Everything random_child can return. On a node with two children it picks
   * among the node itself and the non-None results of two calls on each
   * child, so every non-None result of a child call is possible.
   */
  function RandomChildOutcomes<P>(n: Node<P>): (s: set<Option<Path>>)
    ensures s != {}
    ensures None in s <==> !HasTwoChildren(n)
    ensures None in s ==> s == {None}
    ensures HasTwoChildren(n) ==> Some([]) in s
    ensures forall o :: o in s && o.Some? ==> ValidPath(n, o.value) && HasTwoChildren(At(n, o.value))
  {
    if !HasTwoChildren(n) then {None}
    else
      var sl := RandomChildOutcomes(n.left);
      var sr := RandomChildOutcomes(n.right);
      LiftAllValid(n, L, sl);
      LiftAllValid(n, R, sr);
      {Some([])} + LiftAll(L, sl) + LiftAll(R, sr)
  }

  /** Every node on the way from n down to position p (both included) has two children. */
  predicate FullAlong<P>(n: Node<P>, p: Path)
    decreases p
  {
    HasTwoChildren(n) && (p == [] || FullAlong(Child(n, p[0]), p[1..]))
  }

  /** random_child can return exactly the nodes all of whose ancestors, and they themselves, have two children. */
  lemma {:induction false} RandomChildOutcomesExactly<P>(n: Node<P>, p: Path)
    ensures Some(p) in RandomChildOutcomes(n) <==> FullAlong(n, p)
    decreases p
  {
    if HasTwoChildren(n) && p != [] {
      var d := p[0];
      RandomChildOutcomesExactly(Child(n, d), p[1..]);
      LiftAllMember(L, RandomChildOutcomes(n.left), p);
      LiftAllMember(R, RandomChildOutcomes(n.right), p);
    }
  }
}
