/** The pin-hole camera of camera.rs: an origin and an image rectangle spanned
    from its lower-left corner by a horizontal and a vertical edge. */
module Cameras {
  import opened Vec3Math

  datatype Camera = Camera(origin: Vec3, lowerLeft: Vec3, horizontal: Vec3, vertical: Vec3)

  /** `Camera::new`: eye at the origin looking down -z at a 4 x 2 rectangle one unit away. */
  function New(): (c: Camera)
    ensures c.origin == Zero
    ensures c.lowerLeft == Vec3(-2.0, -1.0, -1.0)
    ensures c.horizontal == Vec3(4.0, 0.0, 0.0) && c.vertical == Vec3(0.0, 2.0, 0.0)
  {
    Camera(Vec3(0.0, 0.0, 0.0), Vec3(-2.0, -1.0, -1.0), Vec3(4.0, 0.0, 0.0), Vec3(0.0, 2.0, 0.0))
  }

  /** `get_origin`: a copy of the eye position. */
  function GetOrigin(c: Camera): (o: Vec3)
    ensures o == c.origin
  {
    Vec3(c.origin.x, c.origin.y, c.origin.z)
  }

  /** The point of the image rectangle at parameters (u, v). */
  function ImagePoint(c: Camera, u: real, v: real): Vec3 {
    Add(Add(c.lowerLeft, Scale(u, c.horizontal)), Scale(v, c.vertical))
  }

  /** `get_ray`: the ray from the eye through the image point (u, v). */
  function GetRay(c: Camera, u: real, v: real): (r: Ray)
    ensures r.origin == c.origin
    ensures PointAt(r, 1.0) == ImagePoint(c, u, v)
  {
    Ray(GetOrigin(c), Sub(ImagePoint(c, u, v), c.origin))
  }

  /** The default camera's direction is an affine function of (u, v): x follows
      u alone, y follows v alone, and z is fixed at -1. */
  lemma DefaultDirection(u: real, v: real)
    ensures GetRay(New(), u, v).dir == Vec3(4.0 * u - 2.0, 2.0 * v - 1.0, -1.0)
  {
  }

  /** The default camera maps the corners of the unit square to the corners of
      its image rectangle. */
  lemma DefaultCorners()
    ensures GetRay(New(), 0.0, 0.0).dir == Vec3(-2.0, -1.0, -1.0)
    ensures GetRay(New(), 1.0, 1.0).dir == Vec3(2.0, 1.0, -1.0)
    ensures GetRay(New(), 1.0, 0.0).dir == Vec3(2.0, -1.0, -1.0)
    ensures GetRay(New(), 0.0, 1.0).dir == Vec3(-2.0, 1.0, -1.0)
  {
    DefaultDirection(0.0, 0.0);
    DefaultDirection(1.0, 1.0);
    DefaultDirection(1.0, 0.0);
    DefaultDirection(0.0, 1.0);
  }

  /** The default camera's image parameters can be read back from the
      direction, so distinct (u, v) give distinct rays. */
  lemma DefaultRayDeterminesUV(u: real, v: real)
    ensures var d := GetRay(New(), u, v).dir;
      u == (d.x + 2.0) / 4.0 && v == (d.y + 1.0) / 2.0
  {
    DefaultDirection(u, v);
  }

  /** Parameters in the unit square aim the default camera inside its image rectangle. */
  lemma DefaultRayInViewport(u: real, v: real)
    requires 0.0 <= u <= 1.0 && 0.0 <= v <= 1.0
    ensures var d := GetRay(New(), u, v).dir;
      -2.0 <= d.x <= 2.0 && -1.0 <= d.y <= 1.0 && d.z == -1.0
  {
    DefaultDirection(u, v);
  }

  /** For any camera, moving u by du moves the image point by du horizontal
      edges: the map from (u, v) to directions is affine. */
  lemma DirectionIsAffine(c: Camera, u: real, v: real, du: real, dv: real)
    ensures GetRay(c, u + du, v + dv).dir
         == Add(GetRay(c, u, v).dir, Add(Scale(du, c.horizontal), Scale(dv, c.vertical)))
  {
  }
}
