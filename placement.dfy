/** Placing a loaded model (src/main.js, centerAndGroundModel,
    restModelOnGround, wrapModelInCenteredPivot): translations of a node
    whose world-space vertices are its local vertices moved by its
    position. A box is the exact axis-aligned box of those vertices; for an
    unrotated mesh this is what Box3.setFromObject gives. */
module Placement {
  import opened Vectors

  /** Every point moved by d. */
  function Translate(ps: seq<Vec3>, d: Vec3): (qs: seq<Vec3>)
    ensures |qs| == |ps| && forall i {:trigger qs[i]} :: 0 <= i < |ps| ==> qs[i] == Add(ps[i], d)
  {
    seq(|ps|, i requires 0 <= i < |ps| => Add(ps[i], d))
  }

  /** The smallest coordinate along an axis: the box's min. */
  function MinCoord(ps: seq<Vec3>, a: Axis): (m: real)
    requires |ps| > 0
    ensures forall i :: 0 <= i < |ps| ==> m <= Coord(ps[i], a)
    ensures exists i :: 0 <= i < |ps| && Coord(ps[i], a) == m
  {
    if |ps| == 1 then Coord(ps[0], a)
    else
      var rest := MinCoord(ps[1..], a);
      assert forall i :: 1 <= i < |ps| ==> ps[i] == ps[1..][i - 1];
      if Coord(ps[0], a) <= rest then Coord(ps[0], a) else rest
  }

  /** The largest coordinate along an axis: the box's max. */
  function MaxCoord(ps: seq<Vec3>, a: Axis): (m: real)
    requires |ps| > 0
    ensures forall i :: 0 <= i < |ps| ==> Coord(ps[i], a) <= m
    ensures exists i :: 0 <= i < |ps| && Coord(ps[i], a) == m
  {
    if |ps| == 1 then Coord(ps[0], a)
    else
      var rest := MaxCoord(ps[1..], a);
      assert forall i :: 1 <= i < |ps| ==> ps[i] == ps[1..][i - 1];
      if Coord(ps[0], a) >= rest then Coord(ps[0], a) else rest
  }

  /** A lower bound that is attained is the minimum. */
  lemma MinUnique(ps: seq<Vec3>, a: Axis, m: real)
    requires |ps| > 0
    requires forall i :: 0 <= i < |ps| ==> m <= Coord(ps[i], a)
    requires exists i :: 0 <= i < |ps| && Coord(ps[i], a) == m
    ensures MinCoord(ps, a) == m
  {
    var i :| 0 <= i < |ps| && Coord(ps[i], a) == m;
    var j :| 0 <= j < |ps| && Coord(ps[j], a) == MinCoord(ps, a);
  }

  lemma MaxUnique(ps: seq<Vec3>, a: Axis, m: real)
    requires |ps| > 0
    requires forall i :: 0 <= i < |ps| ==> Coord(ps[i], a) <= m
    requires exists i :: 0 <= i < |ps| && Coord(ps[i], a) == m
    ensures MaxCoord(ps, a) == m
  {
    var i :| 0 <= i < |ps| && Coord(ps[i], a) == m;
    var j :| 0 <= j < |ps| && Coord(ps[j], a) == MaxCoord(ps, a);
  }

  /** Translating the points moves the box's minimum by the translation. */
  lemma {:induction false} TranslateMin(ps: seq<Vec3>, d: Vec3, a: Axis)
    requires |ps| > 0
    ensures MinCoord(Translate(ps, d), a) == MinCoord(ps, a) + Coord(d, a)
  {
    var qs := Translate(ps, d);
    var lo := MinCoord(ps, a);
    var i :| 0 <= i < |ps| && Coord(ps[i], a) == lo;
    forall k | 0 <= k < |qs|
      ensures lo + Coord(d, a) <= Coord(qs[k], a)
    {
      assert qs[k] == Add(ps[k], d);
    }
    assert qs[i] == Add(ps[i], d);
    MinUnique(qs, a, lo + Coord(d, a));
  }

  /** ... and its maximum. */
  lemma {:induction false} TranslateMax(ps: seq<Vec3>, d: Vec3, a: Axis)
    requires |ps| > 0
    ensures MaxCoord(Translate(ps, d), a) == MaxCoord(ps, a) + Coord(d, a)
  {
    var qs := Translate(ps, d);
    var hi := MaxCoord(ps, a);
    var i :| 0 <= i < |ps| && Coord(ps[i], a) == hi;
    forall k | 0 <= k < |qs|
      ensures Coord(qs[k], a) <= hi + Coord(d, a)
    {
      assert qs[k] == Add(ps[k], d);
    }
    assert qs[i] == Add(ps[i], d);
    MaxUnique(qs, a, hi + Coord(d, a));
  }

  /** ... and so its centre. */
  lemma TranslateCenter(ps: seq<Vec3>, d: Vec3, a: Axis)
    requires |ps| > 0
    ensures CenterCoord(Translate(ps, d), a) == CenterCoord(ps, a) + Coord(d, a)
  {
    TranslateMin(ps, d, a);
    TranslateMax(ps, d, a);
  }

  /** Translating twice is translating by the sum. */
  lemma TranslateTwice(ps: seq<Vec3>, d: Vec3, e: Vec3)
    ensures Translate(Translate(ps, d), e) == Translate(ps, Add(d, e))
  {
  }

  /** Box3.getCenter along an axis. */
  function CenterCoord(ps: seq<Vec3>, a: Axis): (c: real)
    requires |ps| > 0
    ensures MinCoord(ps, a) <= c <= MaxCoord(ps, a)
    ensures c - MinCoord(ps, a) == MaxCoord(ps, a) - c
  {
    (MinCoord(ps, a) + MaxCoord(ps, a)) / 2.0
  }

  /** Box3.getCenter. */
  function BoxCenter(ps: seq<Vec3>): Vec3
    requires |ps| > 0
  {
    Vec3(CenterCoord(ps, X), CenterCoord(ps, Y), CenterCoord(ps, Z))
  }

  /** A three.js object carrying the model's geometry: its position and the
      world-space offsets of its vertices from that position (rotation and
      any inner structure already applied). */
  class SceneNode {
    var position: Vec3
    var local: seq<Vec3>

    constructor (position: Vec3, local: seq<Vec3>)
      ensures this.position == position && this.local == local
    {
      this.position := position;
      this.local := local;
    }

    /** The world-space vertices. */
    function World(): (ws: seq<Vec3>)
      reads this
      ensures |ws| == |local|
    {
      Translate(local, position)
    }

    /** centerAndGroundModel: the position becomes minus the box's X and Z
        centres and minus its Y minimum (CenterAndGroundFrom). */
    method CenterAndGround()
      requires |local| > 0
      modifies this
      ensures local == old(local)
      ensures position == CenteredPosition(local, old(position))
    {
      var ws := World();
      position := Vec3(-CenterCoord(ws, X), -MinCoord(ws, Y), -CenterCoord(ws, Z));
    }

    /** restModelOnGround: the position drops by the box's Y minimum
        (RestOnGroundGrounds, RestOnGroundIdempotent). */
    method RestOnGround()
      requires |local| > 0
      modifies this
      ensures local == old(local)
      ensures position == GroundedPosition(local, old(position))
    {
      var ws := World();
      position := Vec3(position.x, position.y - MinCoord(ws, Y), position.z);
    }
  }

  /** The world after centerAndGroundModel on a node whose position was p:
      its position is the negated box centre and minimum of Translate(local, p). */
  function CenteredPosition(local: seq<Vec3>, p: Vec3): Vec3
    requires |local| > 0
  {
    var ws := Translate(local, p);
    Vec3(-CenterCoord(ws, X), -MinCoord(ws, Y), -CenterCoord(ws, Z))
  }

  /** On a node at the origin, centring and grounding puts the box's X and Z
      centres at 0 and its Y minimum at 0. */
  lemma {:induction false} CenterAndGroundAtOrigin(local: seq<Vec3>)
    requires |local| > 0
    ensures var ws := Translate(local, CenteredPosition(local, Zero));
            CenterCoord(ws, X) == 0.0 && MinCoord(ws, Y) == 0.0 && CenterCoord(ws, Z) == 0.0
  {
    CenterAndGroundFrom(local, Zero);
  }

  /** From any position, centring and grounding leaves the box minus the old
      position: centred and grounded only when the node was at the origin. */
  lemma {:induction false} CenterAndGroundFrom(local: seq<Vec3>, p: Vec3)
    requires |local| > 0
    ensures var ws := Translate(local, CenteredPosition(local, p));
            CenterCoord(ws, X) == -p.x && MinCoord(ws, Y) == -p.y && CenterCoord(ws, Z) == -p.z
  {
    var q := CenteredPosition(local, p);
    TranslateCenter(local, p, X);
    TranslateMin(local, p, Y);
    TranslateCenter(local, p, Z);
    TranslateCenter(local, q, X);
    TranslateMin(local, q, Y);
    TranslateCenter(local, q, Z);
  }

  /** The position restModelOnGround moves a node at p to. */
  function GroundedPosition(local: seq<Vec3>, p: Vec3): Vec3
    requires |local| > 0
  {
    Vec3(p.x, p.y - MinCoord(Translate(local, p), Y), p.z)
  }

  /** After resting on the ground the lowest vertex is at Y = 0, and every
      vertex keeps its X and Z. */
  lemma {:induction false} RestOnGroundGrounds(local: seq<Vec3>, p: Vec3)
    requires |local| > 0
    ensures MinCoord(Translate(local, GroundedPosition(local, p)), Y) == 0.0
    ensures forall i :: 0 <= i < |local| ==>
              Translate(local, GroundedPosition(local, p))[i].x == Translate(local, p)[i].x &&
              Translate(local, GroundedPosition(local, p))[i].z == Translate(local, p)[i].z
  {
    TranslateMin(local, p, Y);
    TranslateMin(local, GroundedPosition(local, p), Y);
  }

  /** Resting a grounded node again changes nothing. */
  lemma RestOnGroundIdempotent(local: seq<Vec3>, p: Vec3)
    requires |local| > 0
    ensures GroundedPosition(local, GroundedPosition(local, p)) == GroundedPosition(local, p)
  {
    RestOnGroundGrounds(local, p);
  }

  /** wrapModelInCenteredPivot: a new pivot at the root's box centre takes
      the root as its child, and the root moves back by that centre. The
      pivot's offsets are the root's vertices as seen from the pivot. */
  method WrapInCenteredPivot(root: SceneNode) returns (pivot: SceneNode)
    requires |root.local| > 0
    modifies root
    ensures fresh(pivot)
    ensures root.local == old(root.local)
    ensures root.position == Sub(old(root.position), BoxCenter(old(root.World())))
    ensures pivot.position == BoxCenter(old(root.World()))
    ensures pivot.local == root.World()
    ensures pivot.World() == old(root.World())
  {
    var c := BoxCenter(root.World());
    root.position := Sub(root.position, c);
    pivot := new SceneNode(c, root.World());
    WrapKeepsWorld(root.local, old(root.position), c);
  }

  /** Moving the child back by c and the pivot forward by c leaves every
      vertex in place. */
  lemma WrapKeepsWorld(local: seq<Vec3>, p: Vec3, c: Vec3)
    ensures Translate(Translate(local, Sub(p, c)), c) == Translate(local, p)
  {
    TranslateTwice(local, Sub(p, c), c);
    assert Add(Sub(p, c), c) == p;
  }

  /** loadFromFile's placement: centre and ground the root, then wrap it in
      a centred pivot; the pivot's world is the centred and grounded root. */
  method PlaceInPivot(root: SceneNode) returns (pivot: SceneNode)
    requires |root.local| > 0
    modifies root
    ensures fresh(pivot) && |pivot.local| > 0
    ensures pivot.World() == Translate(old(root.local), CenteredPosition(old(root.local), old(root.position)))
  {
    root.CenterAndGround();
    pivot := WrapInCenteredPivot(root);
  }
}
