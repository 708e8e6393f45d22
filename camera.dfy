/** The orbiting camera (src/internal/camera.rs): eye, look-at centre, up
    vector and a "changed since last render" flag. The trigonometry that turns
    the eye offset into angles and back, and the normalisation in `zoom`, are
    passed in as functions; the pitch clamp and the yaw remainder are modelled
    exactly on reals. */
module Cameras {
  import opened Vectors

  /** `std::f32::consts::PI`, to f32 precision. */
  const PI: real := 3.1415927
  const MIN_PITCH: real := -PI / 2.0 + 0.1
  const MAX_PITCH: real := PI / 2.0 - 0.1

  /** An eye offset in spherical form: its length, yaw about the y axis and pitch. */
  datatype Spherical = Spherical(radius: real, yaw: real, pitch: real)

  /** f32::clamp with `lo <= hi`: the point of [lo, hi] nearest to `v`. */
  function Clamp(v: real, lo: real, hi: real): (r: real)
    requires lo <= hi
    ensures lo <= r <= hi
    ensures lo <= v <= hi ==> r == v
  {
    if v < lo then lo else if v > hi then hi else v
  }

  /** No point of [lo, hi] is nearer to `v` than `Clamp(v, lo, hi)`. */
  lemma ClampIsNearest(v: real, lo: real, hi: real, z: real)
    requires lo <= hi && lo <= z <= hi
    ensures Abs(Clamp(v, lo, hi) - v) <= Abs(z - v)
  {
  }

  function Abs(v: real): real {
    if v < 0.0 then -v else v
  }

  /** The integer part of `q`, rounded toward zero. */
  function Trunc(q: real): (t: int)
    ensures Abs(q - t as real) < 1.0
    ensures q >= 0.0 ==> 0 <= t && t as real <= q
    ensures q <= 0.0 ==> t <= 0 && q <= t as real
  {
    if q >= 0.0 then q.Floor else -((-q).Floor)
  }

  /** Rust's `%` on floats: the remainder of `a` by `m` that keeps the sign of
      `a`. It differs from `a` by a whole number of `m`s and is smaller than `m`
      in size. */
  function FMod(a: real, m: real): (r: real)
    requires m > 0.0
    ensures -m < r < m
    ensures a >= 0.0 ==> r >= 0.0
    ensures a <= 0.0 ==> r <= 0.0
    ensures ((a - r) / m).Floor as real == (a - r) / m
  {
    var t := Trunc(a / m);
    RemainderBounds(a, m, a / m, t);
    RemainderSign(a, m, a / m, t);
    WholeMultiple(m, t);
    assert a - (a - t as real * m) == t as real * m;
    a - t as real * m
  }

  /** `a - t * m`, for `t` the quotient `a / m` rounded toward zero, is
      smaller than `m` in size and has the sign of `a`. */
  lemma RemainderBounds(a: real, m: real, q: real, t: int)
    requires m > 0.0 && q == a / m
    requires -1.0 < q - t as real < 1.0
    ensures -m < a - t as real * m < m
  {
    var f := q - t as real;
    assert a == q * m;
    assert a - t as real * m == m * f;
    ScaleBelowOne(m, f);
    assert -m < m * f && m * f < m;
  }

  lemma RemainderSign(a: real, m: real, q: real, t: int)
    requires m > 0.0 && q == a / m
    requires q >= 0.0 ==> 0.0 <= q - t as real
    requires q <= 0.0 ==> q - t as real <= 0.0
    ensures a >= 0.0 ==> a - t as real * m >= 0.0
    ensures a <= 0.0 ==> a - t as real * m <= 0.0
  {
    var f := q - t as real;
    assert a == q * m;
    assert a - t as real * m == m * f;
    QuotientSign(a, m);
    assert f >= 0.0 ==> m * f >= 0.0;
    assert f <= 0.0 ==> m * f <= 0.0;
  }

  lemma QuotientSign(a: real, m: real)
    requires m > 0.0
    ensures a >= 0.0 ==> a / m >= 0.0
    ensures a <= 0.0 ==> a / m <= 0.0
  {
  }

  lemma WholeMultiple(m: real, t: int)
    requires m > 0.0
    ensures (t as real * m) / m == t as real
  {
  }

  lemma ScaleBelowOne(m: real, f: real)
    requires m > 0.0 && -1.0 < f < 1.0
    ensures -m < m * f < m
  {
  }

  /** The angles `orbit` moves the eye to: yaw advanced by `deltaYaw` and
      reduced by `% (2 * PI)`, pitch advanced by `deltaPitch` and clamped to
      [-PI/2 + 0.1, PI/2 - 0.1]; the distance to the centre is kept. */
  function Orbited(s: Spherical, deltaYaw: real, deltaPitch: real): (t: Spherical)
    ensures t.radius == s.radius
    ensures MIN_PITCH <= t.pitch <= MAX_PITCH
    ensures MIN_PITCH <= s.pitch + deltaPitch <= MAX_PITCH ==> t.pitch == s.pitch + deltaPitch
    ensures -2.0 * PI < t.yaw < 2.0 * PI
  {
    Spherical(s.radius, FMod(s.yaw + deltaYaw, 2.0 * PI), Clamp(s.pitch + deltaPitch, MIN_PITCH, MAX_PITCH))
  }

  class Camera {
    var eye: Vec3
    var center: Vec3
    var up: Vec3
    var hasChanged: bool

    /** Camera::new: a new camera counts as changed, so the first frame renders. */
    constructor (eye: Vec3, center: Vec3, up: Vec3)
      ensures this.eye == eye && this.center == center && this.up == up
      ensures hasChanged
    {
      this.eye := eye;
      this.center := center;
      this.up := up;
      hasChanged := true;
    }

    /** orbit: moves the eye on the sphere around the centre. `angles` gives
        the radius, yaw (atan2 of z and x) and pitch (atan2 of -y and the xz
        length) of an offset; `offset` rebuilds an offset from them. Only the
        eye and the flag change. */
    method Orbit(deltaYaw: real, deltaPitch: real, angles: Vec3 -> Spherical, offset: Spherical -> Vec3)
      modifies this`eye, this`hasChanged
      ensures hasChanged
      ensures center == old(center) && up == old(up)
      ensures eye == Add(center, offset(Orbited(angles(Sub(old(eye), center)), deltaYaw, deltaPitch)))
      ensures exists s: Spherical :: eye == Add(center, offset(s)) && MIN_PITCH <= s.pitch <= MAX_PITCH
    {
      var current := angles(Sub(eye, center));
      var target := Orbited(current, deltaYaw, deltaPitch);
      var newEye := Add(center, offset(target));
      hasChanged := true;
      eye := newEye;
    }

    /** zoom: moves the eye by `delta` along the unit direction from the eye to
        the centre (`normalize` stands for Vec3::normalize). */
    method Zoom(delta: real, normalize: Vec3 -> Vec3)
      modifies this`eye, this`hasChanged
      ensures hasChanged
      ensures center == old(center) && up == old(up)
      ensures eye == Add(old(eye), Scale(normalize(Sub(center, old(eye))), delta))
    {
      var direction := normalize(Sub(center, eye));
      eye := Add(eye, Scale(direction, delta));
      hasChanged := true;
    }

    /** check_if_changed: reports whether the camera moved since the last call
        and clears the flag, so each change is reported exactly once. */
    method CheckIfChanged() returns (changed: bool)
      modifies this`hasChanged
      ensures changed == old(hasChanged)
      ensures !hasChanged
      ensures eye == old(eye) && center == old(center) && up == old(up)
    {
      if hasChanged {
        hasChanged := false;
        changed := true;
      } else {
        changed := false;
      }
    }
  }

  /** Two checks in a row: the second never reports a change. */
  method CheckTwice(cam: Camera) returns (first: bool, second: bool)
    modifies cam`hasChanged
    ensures first == old(cam.hasChanged) && !second && !cam.hasChanged
  {
    first := cam.CheckIfChanged();
    second := cam.CheckIfChanged();
  }

  /** Whatever the deltas, after any number of orbits the eye sits at a pitch
      inside the clamp range. */
  method OrbitRepeatedly(cam: Camera, deltas: seq<(real, real)>, angles: Vec3 -> Spherical, offset: Spherical -> Vec3)
    requires |deltas| > 0
    modifies cam`eye, cam`hasChanged
    ensures cam.hasChanged && cam.center == old(cam.center)
    ensures exists s: Spherical :: cam.eye == Add(cam.center, offset(s)) && MIN_PITCH <= s.pitch <= MAX_PITCH
  {
    for i := 0 to |deltas|
      invariant cam.center == old(cam.center)
      invariant i > 0 ==> cam.hasChanged
      invariant i > 0 ==> exists s: Spherical :: cam.eye == Add(cam.center, offset(s)) && MIN_PITCH <= s.pitch <= MAX_PITCH
    {
      cam.Orbit(deltas[i].0, deltas[i].1, angles, offset);
    }
  }
}
