/** The ray/object hit record (src/internal/entitiy/intersect.rs). */
module Intersects {
  import opened Vectors
  import opened Materials

  /** An f32 distance as the hit scan uses it: a finite value or the
      `INFINITY` sentinel. Distances are only ever compared. */
  datatype Distance = Finite(value: real) | Infinity

  /** f32 `<` restricted to finite values and +infinity. */
  predicate Less(a: Distance, b: Distance) {
    match (a, b)
    case (Finite(u), Finite(v)) => u < v
    case (Finite(_), Infinity) => true
    case (Infinity, _) => false
  }

  predicate LessEq(a: Distance, b: Distance) {
    !Less(b, a)
  }

  datatype Intersect = Intersect(
    point: Vec3,
    normal: Vec3,
    distance: Distance,
    isIntersecting: bool,
    material: Material)

  /** Intersect::new: a record of an actual hit. */
  function New(point: Vec3, normal: Vec3, distance: Distance, material: Material): (r: Intersect)
    ensures r.isIntersecting
    ensures r.point == point && r.normal == normal
    ensures r.distance == distance && r.material == material
  {
    Intersect(point, normal, distance, true, material)
  }

  /** Intersect::empty: the "no hit" sentinel. */
  function Empty(): (r: Intersect)
    ensures !r.isIntersecting && r.distance == Infinity
    ensures r.point == Zero && r.normal == Zero
    ensures r.material == Black()
  {
    Intersect(Zero, Zero, Infinity, false, Black())
  }
}
