/** Projected points. Distances are compared through their squares, which order the same way. */
module Plane {
  datatype Point = Point(x: real, y: real)

  function SqDist(p: Point, q: Point): (d: real)
    ensures d >= 0.0
  {
    (p.x - q.x) * (p.x - q.x) + (p.y - q.y) * (p.y - q.y)
  }

  /** Points level with each other are at the square of their difference. */
  lemma LevelDistance(p: Point, q: Point)
    ensures p.y == q.y ==> SqDist(p, q) == (p.x - q.x) * (p.x - q.x)
    ensures p.x == q.x ==> SqDist(p, q) == (p.y - q.y) * (p.y - q.y)
  {}

  /** The way round a right-angled corner: the squares of the two legs add up. */
  lemma CornerDistance(p: Point, q: Point)
    ensures var corner := Point(q.x, p.y); SqDist(p, q) == SqDist(p, corner) + SqDist(corner, q)
  {}

  lemma SquareOfSum(r: real, z: real)
    requires 0.0 <= r && z > 0.0
    ensures r * r < (r + z) * (r + z)
  {
    assert (r + z) * (r + z) == r * r + r * z + z * r + z * z;
    assert r * z >= 0.0 && z * r >= 0.0 && z * z > 0.0;
  }

  lemma SquareGrows(r: real, d: real)
    requires 0.0 <= r < d
    ensures r * r < d * d && r * r < (-d) * (-d)
  {
    SquareOfSum(r, d - r);
    assert (-d) * (-d) == d * d;
  }

  lemma SqDistSymmetric(p: Point, q: Point)
    ensures SqDist(p, q) == SqDist(q, p)
  {}

  /** A point is at least as far away as along either axis. */
  lemma SqDistOnAxes(p: Point, q: Point)
    ensures SqDist(p, q) >= (p.x - q.x) * (p.x - q.x)
    ensures SqDist(p, q) >= (p.y - q.y) * (p.y - q.y)
  {}

  lemma SqDistWithin(p: Point, q: Point, s: real)
    requires (p.x - q.x) * (p.x - q.x) <= s && (p.y - q.y) * (p.y - q.y) <= s
    ensures SqDist(p, q) <= s + s
  {}
}
