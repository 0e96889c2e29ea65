/**
 * Screen geometry of the shooter: the integer rectangles that give every
 * sprite its position and size, the attribute setters the game uses on
 * them, and the rectangle-overlap test behind every collision.
 */
module Geometry {

  /** A sprite rectangle: top-left corner (x, y) and size (w, h) in pixels;
      y grows downwards. The size comes from the sprite's image. */
  datatype Rect = Rect(x: int, y: int, w: nat, h: nat) {
    function Left(): int { x }
    function Right(): int { x + w }
    function Top(): int { y }
    function Bottom(): int { y + h }
    function CenterX(): int { x + w / 2 }
  }

  /** Assigning `centerx`: the rectangle moves horizontally, keeping its size,
      until its centre column is `cx`. */
  function WithCenterX(r: Rect, cx: int): (s: Rect)
    ensures s.CenterX() == cx
    ensures s.y == r.y && s.w == r.w && s.h == r.h
  {
    r.(x := cx - r.w / 2)
  }

  /** Assigning `bottom`: the rectangle moves vertically, keeping its size,
      until its bottom edge is `b`. */
  function WithBottom(r: Rect, b: int): (s: Rect)
    ensures s.Bottom() == b
    ensures s.x == r.x && s.w == r.w && s.h == r.h
  {
    r.(y := b - r.h)
  }

  /** Assigning `right`: the rectangle moves horizontally, keeping its size,
      until its right edge is `rt`. */
  function WithRight(r: Rect, rt: int): (s: Rect)
    ensures s.Right() == rt
    ensures s.y == r.y && s.w == r.w && s.h == r.h
  {
    r.(x := rt - r.w)
  }

  /** The collision test of the sprite library (`colliderect`): two non-empty
      rectangles collide when their interiors intersect; rectangles that only
      touch along an edge do not, and a rectangle of zero width or height
      collides with nothing. */
  predicate Overlaps(a: Rect, b: Rect) {
    a.w > 0 && a.h > 0 && b.w > 0 && b.h > 0 &&
    a.Left() < b.Right() && b.Left() < a.Right() &&
    a.Top() < b.Bottom() && b.Top() < a.Bottom()
  }
}
