/**
 * The quadtree spatial index of src/quadtree.rs.
 *
 * `Tree` is a node as a value and `TreeInsert`, `TreeLen` and `TreeQuery`
 * say what `push`, `len` and `query` do to it; the class `QuadTree` is the
 * tree the program holds, whose `Push` updates its entries and children in
 * place and is proved against `TreeInsert`.
 */
module Quadtree {
  import opened Wrappers
  import opened Vectors

  /** An axis-aligned rectangle: its top-left corner and its size. */
  datatype Rect = Rect(left: real, top: real, width: real, height: real)

  /** A stored item: circle centre, circle radius and payload. */
  datatype Entry<T> = Entry(pos: Vec2, radius: real, payload: T)

  /** The four children of a node, in the order the source creates and visits them. */
  datatype Quad<X> = Quad(topLeft: X, topRight: X, bottomLeft: X, bottomRight: X)

  /** A node: boundary, capacity, the entries it holds directly, and no children or four. */
  datatype Tree<T> = Node(boundary: Rect, capacity: nat, points: seq<Entry<T>>, children: Option<Quad<Tree<T>>>)

  // ---------------------------------------------------------------------------
  // Geometry
  // ---------------------------------------------------------------------------

  /** Half-open containment: `[left, left + width) x [top, top + height)`. */
  predicate InsideBoundary(b: Rect, p: Vec2)
    ensures InsideBoundary(b, p) ==> 0.0 < b.width && 0.0 < b.height
  {
    b.left <= p.x < b.left + b.width && b.top <= p.y < b.top + b.height
  }

  function Min(a: real, b: real): real { if a <= b then a else b }

  function Max(a: real, b: real): real { if a >= b then a else b }

  /** Circle/rectangle test through the rectangle point closest to the centre; strict. */
  predicate CrIntersection(c: Vec2, r: real, rect: Rect)
    ensures CrIntersection(c, r, rect) ==> r != 0.0
  {
    SquareSign(r);
    var closestX := Max(rect.left, Min(c.x, rect.left + rect.width));
    var closestY := Max(rect.top, Min(c.y, rect.top + rect.height));
    var dx := c.x - closestX;
    var dy := c.y - closestY;
    SquareSign(dx);
    SquareSign(dy);
    dx * dx + dy * dy < r * r
  }

  /** Circle/circle test; inclusive, so touching circles intersect. */
  predicate CcIntersection(c1: Vec2, r1: real, c2: Vec2, r2: real)
    ensures c1 == c2 ==> CcIntersection(c1, r1, c2, r2)
  {
    SquareSign(r1 + r2);
    LengthSquared(Sub(c1, c2)) <= (r1 + r2) * (r1 + r2)
  }

  /** A square is never negative, and positive unless its root is zero. */
  lemma SquareSign(a: real)
    ensures 0.0 <= a * a
    ensures a != 0.0 <==> 0.0 < a * a
  {
    if a < 0.0 {
      assert a * a == (-a) * (-a);
    }
  }

  function TopLeft(b: Rect): Rect
  {
    Rect(b.left, b.top, b.width * 0.5, b.height * 0.5)
  }

  function TopRight(b: Rect): Rect
  {
    Rect(b.left + b.width * 0.5, b.top, b.width * 0.5, b.height * 0.5)
  }

  function BottomLeft(b: Rect): Rect
  {
    Rect(b.left, b.top + b.height * 0.5, b.width * 0.5, b.height * 0.5)
  }

  function BottomRight(b: Rect): Rect
  {
    Rect(b.left + b.width * 0.5, b.top + b.height * 0.5, b.width * 0.5, b.height * 0.5)
  }

  /** How many of the four quadrants of `b` contain `p`. */
  function QuadrantsContaining(b: Rect, p: Vec2): nat
  {
    (if InsideBoundary(TopLeft(b), p) then 1 else 0)
    + (if InsideBoundary(TopRight(b), p) then 1 else 0)
    + (if InsideBoundary(BottomLeft(b), p) then 1 else 0)
    + (if InsideBoundary(BottomRight(b), p) then 1 else 0)
  }

  /**
   * With exact arithmetic the four half-open quadrants partition their
   * parent: a point of the parent lies in exactly one of them, and a point
   * outside the parent lies in none.
   */
  lemma QuadrantsPartition(b: Rect, p: Vec2)
    ensures QuadrantsContaining(b, p) == if InsideBoundary(b, p) then 1 else 0
  {
    var hw, hh := b.width * 0.5, b.height * 0.5;
    var inX := b.left <= p.x < b.left + b.width;
    var inY := b.top <= p.y < b.top + b.height;
    var west := b.left <= p.x < b.left + hw;
    var east := b.left + hw <= p.x < b.left + hw + hw;
    var north := b.top <= p.y < b.top + hh;
    var south := b.top + hh <= p.y < b.top + hh + hh;
    assert hw + hw == b.width && hh + hh == b.height;
    assert inX <==> (west || east);
    assert !(west && east);
    assert inY <==> (north || south);
    assert !(north && south);
  }

  /** A point of a quadrant is a point of the parent. */
  lemma QuadrantInsideParent(b: Rect, p: Vec2)
    requires InsideBoundary(TopLeft(b), p) || InsideBoundary(TopRight(b), p)
          || InsideBoundary(BottomLeft(b), p) || InsideBoundary(BottomRight(b), p)
    ensures InsideBoundary(b, p)
  {
    QuadrantsPartition(b, p);
  }

  /** On one axis, clamping `c` into `[lo, hi]` gives the point of `[lo, hi)` nearest to `c`. */
  lemma ClampIsNearest(c: real, lo: real, hi: real, p: real)
    requires lo <= p < hi
    ensures var q := Max(lo, Min(c, hi)); (c - q) * (c - q) <= (c - p) * (c - p)
  {
    var q := Max(lo, Min(c, hi));
    if c < lo {
      assert q == lo;
      SquareMonotone(q - c, p - c);
    } else if c > hi {
      assert q == hi;
      SquareMonotone(c - q, c - p);
    } else {
      assert q == c;
    }
  }

  lemma SquareMonotone(a: real, b: real)
    requires 0.0 <= a <= b
    ensures a * a <= b * b
  {
    assert a * a <= a * b;
    assert a * b <= b * b;
  }

  /**
   * The prune never cuts off a node holding a centre strictly inside the
   * query circle: such a centre is at least as far from the query centre as
   * the rectangle's closest point.
   */
  lemma PruneKeepsInnerCentres(c: Vec2, r: real, rect: Rect, p: Vec2)
    requires InsideBoundary(rect, p)
    requires LengthSquared(Sub(p, c)) < r * r
    ensures CrIntersection(c, r, rect)
  {
    ClampIsNearest(c.x, rect.left, rect.left + rect.width, p.x);
    ClampIsNearest(c.y, rect.top, rect.top + rect.height, p.y);
    assert (c.x - p.x) * (c.x - p.x) == (p.x - c.x) * (p.x - c.x);
    assert (c.y - p.y) * (c.y - p.y) == (p.y - c.y) * (p.y - c.y);
  }

  /** A centre strictly inside the query circle makes the two circles intersect. */
  lemma InnerCentreIntersects(p: Vec2, pr: real, c: Vec2, r: real)
    requires 0.0 <= r && 0.0 <= pr
    requires LengthSquared(Sub(p, c)) < r * r
    ensures CcIntersection(p, pr, c, r)
  {
    assert pr * r >= 0.0;
    assert (pr + r) * (pr + r) == r * r + 2.0 * pr * r + pr * pr;
  }

  // ---------------------------------------------------------------------------
  // The tree as a value
  // ---------------------------------------------------------------------------

  /** `QuadTree::new`: no entries, no children. */
  function Leaf<T>(boundary: Rect, capacity: nat): Tree<T>
  {
    Node(boundary, capacity, [], None)
  }

  function Subdivide<T>(b: Rect, capacity: nat): Quad<Tree<T>>
  {
    Quad(Leaf(TopLeft(b), capacity), Leaf(TopRight(b), capacity),
         Leaf(BottomLeft(b), capacity), Leaf(BottomRight(b), capacity))
  }

  /** The children a full node forwards a point to: its own, or four new leaves. */
  function ChildrenForInsert<T>(t: Tree<T>): Quad<Tree<T>>
  {
    match t.children
    case Some(q) => q
    case None => Subdivide(t.boundary, t.capacity)
  }

  /** `kid` sits at quadrant `b` of a node with capacity `capacity`. */
  predicate Placed<T>(kid: Tree<T>, b: Rect, capacity: nat)
  {
    kid.boundary == b && kid.capacity == capacity
  }

  /**
   * What every node built by `new` and `push` satisfies: at most `capacity`
   * entries, each inside the node's boundary; children only once the node
   * is full; children on the four quadrants with the parent's capacity.
   */
  ghost predicate Invariant<T>(t: Tree<T>)
    decreases t
  {
    && |t.points| <= t.capacity
    && (forall i | 0 <= i < |t.points| :: InsideBoundary(t.boundary, t.points[i].pos))
    && match t.children
       case None => true
       case Some(q) =>
         && |t.points| == t.capacity
         && Placed(q.topLeft, TopLeft(t.boundary), t.capacity) && Invariant(q.topLeft)
         && Placed(q.topRight, TopRight(t.boundary), t.capacity) && Invariant(q.topRight)
         && Placed(q.bottomLeft, BottomLeft(t.boundary), t.capacity) && Invariant(q.bottomLeft)
         && Placed(q.bottomRight, BottomRight(t.boundary), t.capacity) && Invariant(q.bottomRight)
  }

  function Max4(a: nat, b: nat, c: nat, d: nat): nat
  {
    var ab := if a >= b then a else b;
    var cd := if c >= d then c else d;
    if ab >= cd then ab else cd
  }

  function Height<T>(t: Tree<T>): nat
  {
    match t.children
    case None => 0
    case Some(q) => 1 + Max4(Height(q.topLeft), Height(q.topRight), Height(q.bottomLeft), Height(q.bottomRight))
  }

  /**
   * Termination measure of `push`: a full leaf is about to grow four empty
   * leaves, which (with a positive capacity) take the point without recursing.
   */
  function Measure<T>(t: Tree<T>): nat
  {
    2 * Height(t) + if t.children.None? && |t.points| >= t.capacity then 1 else 0
  }

  /** A child `push` recurses into is well formed, correctly placed and smaller. */
  ghost predicate ReadyChild<T>(parent: Tree<T>, kid: Tree<T>, b: Rect)
  {
    Invariant(kid) && Placed(kid, b, parent.capacity) && Measure(kid) < Measure(parent)
  }

  lemma ChildrenReady<T>(t: Tree<T>)
    requires Invariant(t) && t.capacity > 0 && |t.points| >= t.capacity
    ensures var q := ChildrenForInsert(t);
      && ReadyChild(t, q.topLeft, TopLeft(t.boundary))
      && ReadyChild(t, q.topRight, TopRight(t.boundary))
      && ReadyChild(t, q.bottomLeft, BottomLeft(t.boundary))
      && ReadyChild(t, q.bottomRight, BottomRight(t.boundary))
  {
  }

  /**
   * `push`: a point outside the boundary is dropped; a node with room keeps
   * it; a full node grows four children if it has none and offers the point
   * to all four. Entries already held never move.
   */
  function TreeInsert<T>(t: Tree<T>, e: Entry<T>): (r: Tree<T>)
    requires Invariant(t) && t.capacity > 0
    ensures r.boundary == t.boundary && r.capacity == t.capacity
    decreases Measure(t)
  {
    if !InsideBoundary(t.boundary, e.pos) then t
    else if |t.points| < t.capacity then t.(points := t.points + [e])
    else
      ChildrenReady(t);
      var q := ChildrenForInsert(t);
      t.(children := Some(Quad(TreeInsert(q.topLeft, e), TreeInsert(q.topRight, e),
                               TreeInsert(q.bottomLeft, e), TreeInsert(q.bottomRight, e))))
  }

  /** `len`: own entries plus the children's. */
  function TreeLen<T>(t: Tree<T>): (n: nat)
    ensures |t.points| <= n
    ensures t.children.None? ==> n == |t.points|
  {
    |t.points| + match t.children
                 case None => 0
                 case Some(q) => TreeLen(q.topLeft) + TreeLen(q.topRight) + TreeLen(q.bottomLeft) + TreeLen(q.bottomRight)
  }

  /** Every entry of the subtree: own entries first, then the children in order. */
  function AllEntries<T>(t: Tree<T>): seq<Entry<T>>
  {
    t.points + match t.children
               case None => []
               case Some(q) => AllEntries(q.topLeft) + AllEntries(q.topRight) + AllEntries(q.bottomLeft) + AllEntries(q.bottomRight)
  }

  /** The payloads of the entries whose circle intersects the query circle, in order. */
  function Matching<T>(es: seq<Entry<T>>, c: Vec2, r: real): (found: seq<T>)
    ensures |found| <= |es|
  {
    if es == [] then []
    else (if CcIntersection(es[0].pos, es[0].radius, c, r) then [es[0].payload] else []) + Matching(es[1..], c, r)
  }

  /** `query`: prune by rectangle, filter own entries by circle, then the children in order. */
  function TreeQuery<T>(t: Tree<T>, c: Vec2, r: real): (found: seq<T>)
    ensures |found| <= TreeLen(t)
  {
    if !CrIntersection(c, r, t.boundary) then []
    else Matching(t.points, c, r) + match t.children
                                    case None => []
                                    case Some(q) => TreeQuery(q.topLeft, c, r) + TreeQuery(q.topRight, c, r)
                                                    + TreeQuery(q.bottomLeft, c, r) + TreeQuery(q.bottomRight, c, r)
  }

  /** Giving a full leaf four empty children on its quadrants keeps the invariant. */
  lemma SplitKeepsInvariant<T>(t: Tree<T>)
    requires Invariant(t) && t.children.None? && |t.points| == t.capacity
    ensures Invariant(t.(children := Some(Subdivide(t.boundary, t.capacity))))
  {
    var q: Quad<Tree<T>> := Subdivide(t.boundary, t.capacity);
    assert Invariant(q.topLeft) && Invariant(q.topRight) && Invariant(q.bottomLeft) && Invariant(q.bottomRight);
  }

  // ---------------------------------------------------------------------------
  // Properties of push
  // ---------------------------------------------------------------------------

  /** `len` counts exactly the stored entries. */
  lemma {:induction false} LenCountsEntries<T>(t: Tree<T>)
    ensures TreeLen(t) == |AllEntries(t)|
  {
    match t.children
    case None =>
    case Some(q) =>
      LenCountsEntries(q.topLeft);
      LenCountsEntries(q.topRight);
      LenCountsEntries(q.bottomLeft);
      LenCountsEntries(q.bottomRight);
  }

  /** The entries held below a node's four children. */
  ghost function QuadEntries<T>(q: Quad<Tree<T>>): multiset<Entry<T>>
  {
    multiset(AllEntries(q.topLeft)) + multiset(AllEntries(q.topRight))
    + multiset(AllEntries(q.bottomLeft)) + multiset(AllEntries(q.bottomRight))
  }

  lemma NodeEntries<T>(t: Tree<T>)
    ensures multiset(AllEntries(t))
         == multiset(t.points) + match t.children
                                 case None => multiset{}
                                 case Some(q) => QuadEntries(q)
  {
    match t.children
    case None =>
    case Some(q) =>
      assert AllEntries(t) == t.points + AllEntries(q.topLeft) + AllEntries(q.topRight)
                              + AllEntries(q.bottomLeft) + AllEntries(q.bottomRight);
  }

  /** Four bags of which exactly one gains `e` gain `e` in total. */
  lemma ExactlyOneGains<T>(a: multiset<T>, b: multiset<T>, c: multiset<T>, d: multiset<T>,
                           a': multiset<T>, b': multiset<T>, c': multiset<T>, d': multiset<T>,
                           e: T, ia: bool, ib: bool, ic: bool, id: bool)
    requires a' == a + if ia then multiset{e} else multiset{}
    requires b' == b + if ib then multiset{e} else multiset{}
    requires c' == c + if ic then multiset{e} else multiset{}
    requires d' == d + if id then multiset{e} else multiset{}
    requires (if ia then 1 else 0) + (if ib then 1 else 0) + (if ic then 1 else 0) + (if id then 1 else 0) == 1
    ensures a' + b' + c' + d' == a + b + c + d + multiset{e}
  {}

  /** The entries a node's children gain, given how each child's entries grow. */
  ghost predicate GainsIfInside<T>(kid: Tree<T>, e: Entry<T>)
    requires Invariant(kid) && kid.capacity > 0
  {
    multiset(AllEntries(TreeInsert(kid, e)))
      == multiset(AllEntries(kid)) + if InsideBoundary(kid.boundary, e.pos) then multiset{e} else multiset{}
  }

  /** Before a push descends, the node's entries are its own points and those of the children it will use. */
  lemma EntriesBeforeSplit<T>(t: Tree<T>)
    ensures multiset(AllEntries(t)) == multiset(t.points) + QuadEntries(ChildrenForInsert(t))
  {
    NodeEntries(t);
    if t.children.None? {
      assert QuadEntries(ChildrenForInsert(t)) == multiset{};
    }
  }

  /** At a full node whose children are ready, a push keeps the points and pushes into every child. */
  lemma SplitShape<T>(t: Tree<T>, e: Entry<T>)
    requires Invariant(t) && t.capacity > 0
    requires InsideBoundary(t.boundary, e.pos) && |t.points| >= t.capacity
    requires var q := ChildrenForInsert(t);
             && ReadyChild(t, q.topLeft, TopLeft(t.boundary)) && ReadyChild(t, q.topRight, TopRight(t.boundary))
             && ReadyChild(t, q.bottomLeft, BottomLeft(t.boundary)) && ReadyChild(t, q.bottomRight, BottomRight(t.boundary))
    ensures var q := ChildrenForInsert(t);
            TreeInsert(t, e) == t.(children := Some(Quad(TreeInsert(q.topLeft, e), TreeInsert(q.topRight, e),
                                                         TreeInsert(q.bottomLeft, e), TreeInsert(q.bottomRight, e))))
  {}

  /** A full node's children, after the push, hold one more copy of `e` between them. */
  lemma ChildrenGain<T>(t: Tree<T>, e: Entry<T>)
    requires Invariant(t) && t.capacity > 0
    requires InsideBoundary(t.boundary, e.pos) && |t.points| >= t.capacity
    requires var q := ChildrenForInsert(t);
             && ReadyChild(t, q.topLeft, TopLeft(t.boundary)) && ReadyChild(t, q.topRight, TopRight(t.boundary))
             && ReadyChild(t, q.bottomLeft, BottomLeft(t.boundary)) && ReadyChild(t, q.bottomRight, BottomRight(t.boundary))
             && GainsIfInside(q.topLeft, e) && GainsIfInside(q.topRight, e)
             && GainsIfInside(q.bottomLeft, e) && GainsIfInside(q.bottomRight, e)
    ensures TreeInsert(t, e).children.Some? && TreeInsert(t, e).points == t.points
    ensures QuadEntries(TreeInsert(t, e).children.value) == QuadEntries(ChildrenForInsert(t)) + multiset{e}
  {
    var q := ChildrenForInsert(t);
    var q' := Quad(TreeInsert(q.topLeft, e), TreeInsert(q.topRight, e),
                   TreeInsert(q.bottomLeft, e), TreeInsert(q.bottomRight, e));
    SplitShape(t, e);
    QuadrantsPartition(t.boundary, e.pos);
    ExactlyOneGains(multiset(AllEntries(q.topLeft)), multiset(AllEntries(q.topRight)),
                    multiset(AllEntries(q.bottomLeft)), multiset(AllEntries(q.bottomRight)),
                    multiset(AllEntries(q'.topLeft)), multiset(AllEntries(q'.topRight)),
                    multiset(AllEntries(q'.bottomLeft)), multiset(AllEntries(q'.bottomRight)),
                    e, InsideBoundary(TopLeft(t.boundary), e.pos), InsideBoundary(TopRight(t.boundary), e.pos),
                    InsideBoundary(BottomLeft(t.boundary), e.pos), InsideBoundary(BottomRight(t.boundary), e.pos));
  }

  /** Pushing a point adds exactly that entry when it is inside the boundary, and nothing otherwise. */
  lemma {:induction false} InsertAddsEntry<T>(t: Tree<T>, e: Entry<T>)
    requires Invariant(t) && t.capacity > 0
    ensures GainsIfInside(t, e)
    decreases Measure(t), 1
  {
    if InsideBoundary(t.boundary, e.pos) && |t.points| >= t.capacity {
      ChildrenReady(t);
      var q := ChildrenForInsert(t);
      ChildAddsEntry(t, q.topLeft, TopLeft(t.boundary), e);
      ChildAddsEntry(t, q.topRight, TopRight(t.boundary), e);
      ChildAddsEntry(t, q.bottomLeft, BottomLeft(t.boundary), e);
      ChildAddsEntry(t, q.bottomRight, BottomRight(t.boundary), e);
      ChildrenGain(t, e);
      SplitGains(t, e);
    } else if InsideBoundary(t.boundary, e.pos) {
      AppendAddsEntry(t, e);
    }
  }

  /** The entries of a full node after a push, from what its children gained. */
  lemma SplitGains<T>(t: Tree<T>, e: Entry<T>)
    requires Invariant(t) && t.capacity > 0
    requires InsideBoundary(t.boundary, e.pos) && |t.points| >= t.capacity
    requires TreeInsert(t, e).children.Some? && TreeInsert(t, e).points == t.points
    requires QuadEntries(TreeInsert(t, e).children.value) == QuadEntries(ChildrenForInsert(t)) + multiset{e}
    ensures multiset(AllEntries(TreeInsert(t, e))) == multiset(AllEntries(t)) + multiset{e}
  {
    NodeEntries(TreeInsert(t, e));
    EntriesBeforeSplit(t);
  }

  /** `InsertAddsEntry` at one child of a full node. */
  lemma {:induction false} ChildAddsEntry<T>(t: Tree<T>, kid: Tree<T>, b: Rect, e: Entry<T>)
    requires ReadyChild(t, kid, b) && kid.capacity > 0
    ensures GainsIfInside(kid, e)
    decreases Measure(t), 0
  {
    InsertAddsEntry(kid, e);
  }

  /** A push that finds room at this node appends the entry to its points. */
  lemma AppendAddsEntry<T>(t: Tree<T>, e: Entry<T>)
    requires Invariant(t) && t.capacity > 0
    requires InsideBoundary(t.boundary, e.pos) && |t.points| < t.capacity
    ensures multiset(AllEntries(TreeInsert(t, e))) == multiset(AllEntries(t)) + multiset{e}
  {
    NodeEntries(t);
    NodeEntries(TreeInsert(t, e));
    assert multiset(t.points + [e]) == multiset(t.points) + multiset{e};
  }

  /** `len()` grows by exactly one for an inside point and is unchanged otherwise. */
  lemma InsertLen<T>(t: Tree<T>, e: Entry<T>)
    requires Invariant(t) && t.capacity > 0
    ensures TreeLen(TreeInsert(t, e)) == TreeLen(t) + if InsideBoundary(t.boundary, e.pos) then 1 else 0
  {
    InsertAddsEntry(t, e);
    LenCountsEntries(t);
    LenCountsEntries(TreeInsert(t, e));
    assert |multiset(AllEntries(TreeInsert(t, e)))| == |AllEntries(TreeInsert(t, e))|;
    assert |multiset(AllEntries(t))| == |AllEntries(t)|;
  }

  /** `push` keeps every node within its capacity, its entries inside, and its children on the quadrants. */
  lemma {:induction false} InsertKeepsInvariant<T>(t: Tree<T>, e: Entry<T>)
    requires Invariant(t) && t.capacity > 0
    ensures Invariant(TreeInsert(t, e))
    decreases Measure(t)
  {
    if InsideBoundary(t.boundary, e.pos) && |t.points| >= t.capacity {
      ChildrenReady(t);
      var q := ChildrenForInsert(t);
      InsertKeepsInvariant(q.topLeft, e);
      InsertKeepsInvariant(q.topRight, e);
      InsertKeepsInvariant(q.bottomLeft, e);
      InsertKeepsInvariant(q.bottomRight, e);
    }
  }

  /**
   * `b` is `a` after some pushes: same boundary and capacity, `a`'s entries
   * still a prefix of `b`'s at every node, and `a`'s children still there.
   */
  ghost predicate Extends<T>(a: Tree<T>, b: Tree<T>)
    decreases a
  {
    && b.boundary == a.boundary && b.capacity == a.capacity
    && a.points <= b.points
    && match a.children
       case None => true
       case Some(qa) =>
         && b.children.Some?
         && Extends(qa.topLeft, b.children.value.topLeft)
         && Extends(qa.topRight, b.children.value.topRight)
         && Extends(qa.bottomLeft, b.children.value.bottomLeft)
         && Extends(qa.bottomRight, b.children.value.bottomRight)
  }

  lemma {:induction false} ExtendsReflexive<T>(t: Tree<T>)
    ensures Extends(t, t)
  {
    match t.children
    case None =>
    case Some(q) =>
      ExtendsReflexive(q.topLeft);
      ExtendsReflexive(q.topRight);
      ExtendsReflexive(q.bottomLeft);
      ExtendsReflexive(q.bottomRight);
  }

  /**
   * Entries already held never move: after a push every node keeps its
   * entries as a prefix, and existing children stay; a point outside the
   * boundary leaves the tree as it was. A node grows children
   * exactly when it is full, has none, and receives an inside point.
   */
  lemma {:induction false} InsertNeverMovesEntries<T>(t: Tree<T>, e: Entry<T>)
    requires Invariant(t) && t.capacity > 0
    ensures Extends(t, TreeInsert(t, e))
    ensures TreeInsert(t, e).points
         == if InsideBoundary(t.boundary, e.pos) && |t.points| < t.capacity then t.points + [e] else t.points
    ensures TreeInsert(t, e).children.Some?
        <==> t.children.Some? || (InsideBoundary(t.boundary, e.pos) && |t.points| == t.capacity)
    ensures !InsideBoundary(t.boundary, e.pos) ==> TreeInsert(t, e) == t
    decreases Measure(t)
  {
    if !InsideBoundary(t.boundary, e.pos) || |t.points| < t.capacity {
      ExtendsReflexive(t);
    } else {
      ChildrenReady(t);
      match t.children
      case None =>
      case Some(q) =>
        InsertNeverMovesEntries(q.topLeft, e);
        InsertNeverMovesEntries(q.topRight, e);
        InsertNeverMovesEntries(q.bottomLeft, e);
        InsertNeverMovesEntries(q.bottomRight, e);
    }
  }

  /**
   * Every entry of a subtree lies inside the subtree's boundary; applied at
   * every node, an entry lies inside the node holding it and every ancestor.
   */
  lemma {:induction false} EntriesInside<T>(t: Tree<T>)
    requires Invariant(t)
    ensures forall i | 0 <= i < |AllEntries(t)| :: InsideBoundary(t.boundary, AllEntries(t)[i].pos)
  {
    match t.children
    case None =>
    case Some(q) =>
      EntriesInside(q.topLeft);
      EntriesInside(q.topRight);
      EntriesInside(q.bottomLeft);
      EntriesInside(q.bottomRight);
      var all := AllEntries(t);
      forall i | 0 <= i < |all|
        ensures InsideBoundary(t.boundary, all[i].pos)
      {
        var tail := AllEntries(q.topLeft) + AllEntries(q.topRight) + AllEntries(q.bottomLeft) + AllEntries(q.bottomRight);
        assert all == t.points + tail;
        if i >= |t.points| {
          var e := tail[i - |t.points|];
          assert e == all[i];
          assert e in AllEntries(q.topLeft) || e in AllEntries(q.topRight)
              || e in AllEntries(q.bottomLeft) || e in AllEntries(q.bottomRight);
          QuadrantInsideParent(t.boundary, e.pos);
        }
      }
  }

  // ---------------------------------------------------------------------------
  // Properties of query
  // ---------------------------------------------------------------------------

  lemma {:induction false} MatchingSound<T>(es: seq<Entry<T>>, c: Vec2, r: real, x: T)
    requires x in Matching(es, c, r)
    ensures exists e :: e in es && e.payload == x && CcIntersection(e.pos, e.radius, c, r)
    decreases |es|
  {
    if !(CcIntersection(es[0].pos, es[0].radius, c, r) && es[0].payload == x) {
      MatchingSound(es[1..], c, r, x);
      var e :| e in es[1..] && e.payload == x && CcIntersection(e.pos, e.radius, c, r);
      assert e in es;
    }
  }

  lemma {:induction false} MatchingComplete<T>(es: seq<Entry<T>>, c: Vec2, r: real, e: Entry<T>)
    requires e in es && CcIntersection(e.pos, e.radius, c, r)
    ensures e.payload in Matching(es, c, r)
    decreases |es|
  {
    if es[0] != e {
      MatchingComplete(es[1..], c, r, e);
    }
  }

  /**
   * Soundness: every payload `query` returns belongs to a stored entry whose
   * circle intersects the query circle (inclusively).
   */
  lemma {:induction false} QuerySound<T>(t: Tree<T>, c: Vec2, r: real, x: T)
    requires x in TreeQuery(t, c, r)
    ensures exists e :: e in AllEntries(t) && e.payload == x && CcIntersection(e.pos, e.radius, c, r)
  {
    var own := Matching(t.points, c, r);
    if x in own {
      MatchingSound(t.points, c, r, x);
      var e :| e in t.points && e.payload == x && CcIntersection(e.pos, e.radius, c, r);
      assert e in AllEntries(t);
    } else {
      var q := t.children.value;
      var kid := if x in TreeQuery(q.topLeft, c, r) then q.topLeft
                 else if x in TreeQuery(q.topRight, c, r) then q.topRight
                 else if x in TreeQuery(q.bottomLeft, c, r) then q.bottomLeft
                 else q.bottomRight;
      QuerySound(kid, c, r, x);
      var e :| e in AllEntries(kid) && e.payload == x && CcIntersection(e.pos, e.radius, c, r);
      assert e in AllEntries(t);
    }
  }

  /** A node whose rectangle fails the prune contributes nothing, not even from its children. */
  lemma QueryPruned<T>(t: Tree<T>, c: Vec2, r: real)
    requires !CrIntersection(c, r, t.boundary)
    ensures TreeQuery(t, c, r) == []
  {
  }

  /**
   * Completeness for centres strictly inside the query circle: every node on
   * the way to such an entry passes the prune, so its payload is returned.
   */
  lemma {:induction false} QueryFindsInnerCentres<T>(t: Tree<T>, c: Vec2, r: real, e: Entry<T>)
    requires Invariant(t)
    requires e in AllEntries(t)
    requires 0.0 <= r && 0.0 <= e.radius
    requires LengthSquared(Sub(e.pos, c)) < r * r
    ensures e.payload in TreeQuery(t, c, r)
  {
    EntriesInside(t);
    var i :| 0 <= i < |AllEntries(t)| && AllEntries(t)[i] == e;
    PruneKeepsInnerCentres(c, r, t.boundary, e.pos);
    if e in t.points {
      InnerCentreIntersects(e.pos, e.radius, c, r);
      MatchingComplete(t.points, c, r, e);
    } else {
      var q := t.children.value;
      if e in AllEntries(q.topLeft) {
        QueryFindsInnerCentres(q.topLeft, c, r, e);
      } else if e in AllEntries(q.topRight) {
        QueryFindsInnerCentres(q.topRight, c, r, e);
      } else if e in AllEntries(q.bottomLeft) {
        QueryFindsInnerCentres(q.bottomLeft, c, r, e);
      } else {
        QueryFindsInnerCentres(q.bottomRight, c, r, e);
      }
    }
  }

  /** The tree the two pushes of `QueryMissesOverlappingEntry` build. */
  function MissExample(): Tree<int>
  {
    Node(Rect(0.0, 0.0, 100.0, 100.0), 1, [Entry(Vec2(10.0, 10.0), 1.0, 0)],
         Some(Quad(Leaf(Rect(0.0, 0.0, 50.0, 50.0), 1),
                   Leaf(Rect(50.0, 0.0, 50.0, 50.0), 1),
                   Leaf(Rect(0.0, 50.0, 50.0, 50.0), 1),
                   Node(Rect(50.0, 50.0, 50.0, 50.0), 1, [Entry(Vec2(60.0, 60.0), 80.0, 1)], None))))
  }

  lemma MissExampleBuilt()
    ensures TreeInsert(TreeInsert(Leaf(Rect(0.0, 0.0, 100.0, 100.0), 1), Entry(Vec2(10.0, 10.0), 1.0, 0)),
                       Entry(Vec2(60.0, 60.0), 80.0, 1))
         == MissExample()
  {
    var small := Entry(Vec2(10.0, 10.0), 1.0, 0);
    var wide := Entry(Vec2(60.0, 60.0), 80.0, 1);
    var b := Rect(0.0, 0.0, 100.0, 100.0);
    var t1 := TreeInsert(Leaf(b, 1), small);
    assert t1 == Node(b, 1, [small], None);
    var q: Quad<Tree<int>> := Subdivide(b, 1);
    assert ChildrenForInsert(t1) == q;
    assert TreeInsert(q.topLeft, wide) == q.topLeft;
    assert TreeInsert(q.topRight, wide) == q.topRight;
    assert TreeInsert(q.bottomLeft, wide) == q.bottomLeft;
    assert TreeInsert(q.bottomRight, wide) == MissExample().children.value.bottomRight;
  }

  /** A leaf answers a query with nothing. */
  lemma LeafQueryEmpty<T>(b: Rect, cap: nat, c: Vec2, r: real)
    ensures TreeQuery(Leaf<T>(b, cap), c, r) == []
  {}

  /** Filtering a single entry keeps it exactly when its circle meets the query circle. */
  lemma MatchingSingle<T>(e: Entry<T>, c: Vec2, r: real)
    ensures Matching([e], c, r) == if CcIntersection(e.pos, e.radius, c, r) then [e.payload] else []
  {
    assert [e][1..] == [];
  }

  lemma MissExampleGeometry()
    ensures CrIntersection(Vec2(10.0, 10.0), 5.0, Rect(0.0, 0.0, 100.0, 100.0))
    ensures !CrIntersection(Vec2(10.0, 10.0), 5.0, Rect(50.0, 50.0, 50.0, 50.0))
    ensures CcIntersection(Vec2(10.0, 10.0), 1.0, Vec2(10.0, 10.0), 5.0)
    ensures CcIntersection(Vec2(60.0, 60.0), 80.0, Vec2(10.0, 10.0), 5.0)
  {}

  lemma MissExampleWellFormed()
    ensures Invariant(MissExample())
    ensures Entry(Vec2(60.0, 60.0), 80.0, 1) in AllEntries(MissExample())
  {
    var t := MissExample();
    var q := t.children.value;
    assert Invariant(q.topLeft) && Invariant(q.bottomRight);
    assert AllEntries(t) == t.points + q.bottomRight.points;
  }

  /**
   * The prune ignores the stored radius, so an entry whose circle overlaps
   * the query circle is missed when its centre sits in a quadrant the query
   * circle does not reach. Here a wide entry pushed into the bottom-right
   * quadrant overlaps a small query circle near the top-left corner.
   */
  lemma QueryMissesOverlappingEntry()
    ensures var wide := Entry(Vec2(60.0, 60.0), 80.0, 1);
            && Invariant(MissExample())
            && wide in AllEntries(MissExample())
            && CcIntersection(wide.pos, wide.radius, Vec2(10.0, 10.0), 5.0)
            && TreeQuery(MissExample(), Vec2(10.0, 10.0), 5.0) == [0]
  {
    var c := Vec2(10.0, 10.0);
    MissExampleWellFormed();
    MissExampleGeometry();
    MatchingSingle(Entry(c, 1.0, 0), c, 5.0);
    LeafQueryEmpty<int>(Rect(0.0, 0.0, 50.0, 50.0), 1, c, 5.0);
    LeafQueryEmpty<int>(Rect(50.0, 0.0, 50.0, 50.0), 1, c, 5.0);
    LeafQueryEmpty<int>(Rect(0.0, 50.0, 50.0, 50.0), 1, c, 5.0);
  }

  // ---------------------------------------------------------------------------
  // The tree as a mutable object
  // ---------------------------------------------------------------------------

  /**
   * The source's `QuadTree<T>` as the program holds it: a root whose
   * `points` and `children` change in place. The children are owned
   * exclusively by their parent (no node is shared), so they are held as
   * values and a push into them is `TreeInsert` on those values.
   */
  class QuadTree<T> {
    const boundary: Rect
    const capacity: nat
    var points: seq<Entry<T>>
    var children: Option<Quad<Tree<T>>>

    /** The whole tree as a value. */
    function Model(): Tree<T>
      reads this
    {
      Node(boundary, capacity, points, children)
    }

    ghost predicate Valid()
      reads this
    {
      Invariant(Model())
    }

    /** `QuadTree::new`: an empty node with no children. */
    constructor (capacity: nat, boundary: Rect)
      ensures Valid()
      ensures Model() == Leaf(boundary, capacity)
    {
      this.capacity := capacity;
      this.boundary := boundary;
      points := [];
      children := None;
    }

    /**
     * `len` on the object: the class view of `TreeLen` over `Model()`, the
     * number of entries held by this node and its descendants.
     */
    function Len(): (n: nat)
      reads this
      ensures n == |AllEntries(Model())|
    {
      LenCountsEntries(Model());
      TreeLen(Model())
    }

    /**
     * `query` on the object: the class view of `TreeQuery`, read from the
     * root's own fields and the children it owns; same payloads, same order.
     */
    method Query(c: Vec2, r: real) returns (found: seq<T>)
      ensures found == TreeQuery(Model(), c, r)
    {
      found := [];
      if !CrIntersection(c, r, boundary) {
        return;
      }
      found := found + Matching(points, c, r);
      if children.Some? {
        var q := children.value;
        found := found + (TreeQuery(q.topLeft, c, r) + TreeQuery(q.topRight, c, r)
                          + TreeQuery(q.bottomLeft, c, r) + TreeQuery(q.bottomRight, c, r));
      }
    }

    /**
     * `push`, updating the root in place: append while there is room,
     * otherwise create the four children if there are none and push into
     * each of them in the order top-left, top-right, bottom-left,
     * bottom-right. The source recurses forever when `capacity` is 0 (with
     * exact arithmetic), hence the precondition.
     */
    method Push(e: Entry<T>)
      requires Valid() && capacity > 0
      modifies this
      ensures Valid()
      ensures Model() == TreeInsert(old(Model()), e)
    {
      if !InsideBoundary(boundary, e.pos) {
        return;
      }
      InsertKeepsInvariant(Model(), e);
      if |points| < capacity {
        points := points + [e];
        return;
      }
      ChildrenReady(Model());
      if children.None? {
        var hw := boundary.width * 0.5;
        var hh := boundary.height * 0.5;
        children := Some(Quad(Leaf(Rect(boundary.left, boundary.top, hw, hh), capacity),
                              Leaf(Rect(boundary.left + hw, boundary.top, hw, hh), capacity),
                              Leaf(Rect(boundary.left, boundary.top + hh, hw, hh), capacity),
                              Leaf(Rect(boundary.left + hw, boundary.top + hh, hw, hh), capacity)));
      }
      var q := children.value;
      children := Some(Quad(TreeInsert(q.topLeft, e), TreeInsert(q.topRight, e),
                            TreeInsert(q.bottomLeft, e), TreeInsert(q.bottomRight, e)));
    }
  }
}
