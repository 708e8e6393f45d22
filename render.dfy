/** The ray caster and the pixel loop (src/internal/render.rs).

    `cast_ray` scans the objects left to right, keeping the nearest hit seen
    so far, and returns the diffuse colour of the winner; `render` walks the
    framebuffer row by row and draws the colour cast for each cell. The
    object test `Object::ray_intersect` is the parameter `rayIntersect`, and
    the per-pixel primary-ray direction (screen mapping, aspect correction and
    the camera's change of basis) is the parameter `direction`. */
module Render {
  import opened Vectors
  import opened Colors
  import opened Materials
  import opened Intersects
  import opened Framebuffers
  import opened Cameras
  import Grid

  /** The sky colour returned when nothing is hit: `Color::new(66, 135, 245)`. */
  const SKY: Color := Color(66, 135, 245)

  /** The accumulator `cast_ray` starts from: no hit, infinitely far, with the
      sky as its diffuse colour. */
  function Background(): (r: Intersect)
    ensures !r.isIntersecting && r.distance == Infinity && r.material.diffuse == SKY
  {
    Intersect(Zero, Zero, Infinity, false, Black().(diffuse := SKY))
  }

  /** The results of testing each object against one ray, in object order. */
  function Intersections<Obj>(objects: seq<Obj>, origin: Vec3, direction: Vec3,
                              rayIntersect: (Obj, Vec3, Vec3) -> Intersect): seq<Intersect>
  {
    seq(|objects|, k requires 0 <= k < |objects| => rayIntersect(objects[k], origin, direction))
  }

  /** One iteration of the scan: a result replaces the accumulator only if it
      is a hit and strictly nearer. */
  function Keep(acc: Intersect, i: Intersect): Intersect {
    if i.isIntersecting && Less(i.distance, acc.distance) then i else acc
  }

  /** The accumulator after scanning `hits` from left to right. */
  function Nearest(hits: seq<Intersect>): Intersect {
    if hits == [] then Background() else Keep(Nearest(hits[..|hits| - 1]), hits[|hits| - 1])
  }

  /** `hits[k]` is the hit the scan should pick: a hit no farther than any other
      hit, and strictly nearer than every hit before it (ties go to the
      earliest object). */
  ghost predicate IsEarliestNearest(hits: seq<Intersect>, k: int) {
    && 0 <= k < |hits|
    && hits[k].isIntersecting
    && (forall j :: 0 <= j < |hits| && hits[j].isIntersecting ==> LessEq(hits[k].distance, hits[j].distance))
    && (forall j :: 0 <= j < k && hits[j].isIntersecting ==> Less(hits[k].distance, hits[j].distance))
  }

  /** No result is a hit at a finite distance. */
  ghost predicate NoFiniteHit(hits: seq<Intersect>) {
    forall j :: 0 <= j < |hits| && hits[j].isIntersecting ==> hits[j].distance == Infinity
  }

  /** When no result is a hit at a finite distance, the scan returns the
      background: whatever their distances, results that are not hits are
      never kept. */
  lemma {:induction false} NearestWithoutHit(hits: seq<Intersect>)
    requires NoFiniteHit(hits)
    ensures Nearest(hits) == Background()
  {
    if hits != [] {
      var init := hits[..|hits| - 1];
      assert NoFiniteHit(init);
      NearestWithoutHit(init);
    }
  }

  lemma ExtendEarliestNearest(init: seq<Intersect>, last: Intersect, k: int)
    requires IsEarliestNearest(init, k)
    ensures last.isIntersecting && Less(last.distance, init[k].distance) ==>
      IsEarliestNearest(init + [last], |init|)
    ensures !(last.isIntersecting && Less(last.distance, init[k].distance)) ==>
      IsEarliestNearest(init + [last], k)
  {
  }

  lemma FirstFiniteHit(init: seq<Intersect>, last: Intersect)
    requires NoFiniteHit(init) && last.isIntersecting && last.distance.Finite?
    ensures IsEarliestNearest(init + [last], |init|)
  {
  }

  /** When some result is a hit at a finite distance, the scan returns the
      earliest nearest hit. */
  lemma {:induction false} NearestWithHit(hits: seq<Intersect>)
    requires !NoFiniteHit(hits)
    ensures exists k :: IsEarliestNearest(hits, k) && Nearest(hits) == hits[k]
    ensures Nearest(hits).isIntersecting && Nearest(hits).distance.Finite?
  {
    var init := hits[..|hits| - 1];
    var last := hits[|hits| - 1];
    assert hits == init + [last];
    if NoFiniteHit(init) {
      NearestWithoutHit(init);
      FirstFiniteHit(init, last);
    } else {
      NearestWithHit(init);
      var k :| IsEarliestNearest(init, k) && Nearest(init) == init[k];
      ExtendEarliestNearest(init, last, k);
    }
  }

  /** The accumulator's distance never grows as the scan goes on. */
  lemma {:induction false} NearestMonotone(hits: seq<Intersect>, i: nat, j: nat)
    requires i <= j <= |hits|
    ensures LessEq(Nearest(hits[..j]).distance, Nearest(hits[..i]).distance)
    decreases j - i
  {
    if i < j {
      NearestMonotone(hits, i, j - 1);
      assert hits[..j][..j - 1] == hits[..j - 1];
    }
  }

  /** The `Intersect::empty()` sentinel never changes the outcome of a scan,
      wherever it appears among the results. */
  lemma {:induction false} EmptyIsNeutral(before: seq<Intersect>, after: seq<Intersect>)
    ensures Nearest(before + [Empty()] + after) == Nearest(before + after)
  {
    if after == [] {
      assert (before + [Empty()])[..|before|] == before;
      assert before + [Empty()] + after == before + [Empty()];
      assert before + after == before;
    } else {
      var init := after[..|after| - 1];
      EmptyIsNeutral(before, init);
      assert (before + [Empty()] + after)[..|before| + |after|] == before + [Empty()] + init;
      assert (before + after)[..|before| + |after| - 1] == before + init;
    }
  }

  /** A hit built by `Intersect::new` that comes after `hits` wins exactly
      when it is strictly nearer than what the scan of `hits` kept; otherwise
      the scan's result is unchanged. */
  lemma AppendNewHit(hits: seq<Intersect>, point: Vec3, normal: Vec3, d: Distance, material: Material)
    ensures Less(d, Nearest(hits).distance) ==>
      Nearest(hits + [New(point, normal, d, material)]) == New(point, normal, d, material)
    ensures !Less(d, Nearest(hits).distance) ==>
      Nearest(hits + [New(point, normal, d, material)]) == Nearest(hits)
  {
    assert (hits + [New(point, normal, d, material)])[..|hits|] == hits;
  }

  /** The colour `cast_ray` returns for one ray. */
  function Shade<Obj>(origin: Vec3, direction: Vec3, objects: seq<Obj>,
                      rayIntersect: (Obj, Vec3, Vec3) -> Intersect): Color {
    Nearest(Intersections(objects, origin, direction, rayIntersect)).material.diffuse
  }

  /** cast_ray: the sky colour when no object is hit at a finite distance,
      otherwise the diffuse colour of the earliest nearest hit. */
  method CastRay<Obj>(origin: Vec3, direction: Vec3, objects: seq<Obj>,
                      rayIntersect: (Obj, Vec3, Vec3) -> Intersect) returns (c: Color)
    ensures c == Shade(origin, direction, objects, rayIntersect)
    ensures var hits := Intersections(objects, origin, direction, rayIntersect);
      && ((forall j :: 0 <= j < |hits| && hits[j].isIntersecting ==> hits[j].distance == Infinity) ==> c == SKY)
      && ((exists j :: 0 <= j < |hits| && hits[j].isIntersecting && hits[j].distance.Finite?) ==>
            exists k :: IsEarliestNearest(hits, k) && c == hits[k].material.diffuse)
  {
    ghost var hits := Intersections(objects, origin, direction, rayIntersect);
    var intersect := Background();
    for k := 0 to |objects|
      invariant intersect == Nearest(hits[..k])
    {
      var i := rayIntersect(objects[k], origin, direction);
      if i.isIntersecting && Less(i.distance, intersect.distance) {
        intersect := i;
      }
      assert hits[..k + 1][..k] == hits[..k];
    }
    assert hits[..|objects|] == hits;
    if NoFiniteHit(hits) {
      NearestWithoutHit(hits);
    } else {
      NearestWithHit(hits);
    }
    c := intersect.material.diffuse;
  }

  /** What one frame is rendered from: the eye, the scene, the object test and
      the primary-ray direction of each pixel. */
  datatype View<!Obj> = View(
    eye: Vec3,
    objects: seq<Obj>,
    rayIntersect: (Obj, Vec3, Vec3) -> Intersect,
    direction: (nat, nat) -> Vec3)

  /** The point `render` draws for cell (x, y). */
  function PixelDot<Obj>(view: View<Obj>, x: nat, y: nat): Dot {
    Dot(x, y, Shade(view.eye, view.direction(x, y), view.objects, view.rayIntersect))
  }

  /** The first `n` cells of row `y`, left to right. */
  function Row<Obj>(view: View<Obj>, y: nat, n: nat): seq<Dot> {
    seq(n, x requires 0 <= x < n => PixelDot(view, x, y))
  }

  /** The first `n` rows of a `width`-wide frame, top to bottom. */
  function Rows<Obj>(view: View<Obj>, width: nat, n: nat): seq<Dot> {
    if n == 0 then [] else Rows(view, width, n - 1) + Row(view, n - 1, width)
  }

  /** In the full frame, the point at index `k` is the cell of column
      `k % width`, row `k / width`. */
  lemma {:induction false} RowsAt<Obj>(view: View<Obj>, width: nat, n: nat, k: nat)
    requires k < width * n
    ensures |Rows(view, width, n)| == width * n
    ensures Rows(view, width, n)[k] == PixelDot(view, k % width, k / width)
  {
    RowsLength(view, width, n);
    Grid.IndexCell(k, width, n);
    var x, y := k % width, k / width;
    if y < n - 1 {
      Grid.IndexInBounds(x, y, width, n - 1);
      RowsAt(view, width, n - 1, k);
    } else {
      RowsLength(view, width, n - 1);
      assert k - width * (n - 1) == x;
      assert Rows(view, width, n)[k] == Row(view, n - 1, width)[x];
    }
  }

  lemma {:induction false} RowsLength<Obj>(view: View<Obj>, width: nat, n: nat)
    ensures |Rows(view, width, n)| == width * n
  {
    if n > 0 {
      RowsLength(view, width, n - 1);
    }
  }

  /** The frame covers every cell of the grid exactly once and nothing else:
      its `width * height` points are the cells in row-major order, so cell
      (x, y) is drawn at position `y * width + x` and nowhere else. */
  lemma FrameCoversEachCellOnce<Obj>(view: View<Obj>, width: nat, height: nat, x: nat, y: nat)
    requires x < width && y < height
    ensures |Rows(view, width, height)| == width * height
    ensures y * width + x < width * height
    ensures Rows(view, width, height)[y * width + x] == PixelDot(view, x, y)
    ensures forall k :: 0 <= k < width * height && At(Rows(view, width, height)[k], x, y) ==> k == y * width + x
  {
    var frame := Rows(view, width, height);
    RowsLength(view, width, height);
    Grid.IndexInBounds(x, y, width, height);
    Grid.IndexSplit(x, y, width);
    RowsAt(view, width, height, y * width + x);
    forall k | 0 <= k < width * height && At(frame[k], x, y)
      ensures k == y * width + x
    {
      RowsAt(view, width, height, k);
      Grid.IndexCell(k, width, height);
    }
  }

  /** Every point of the frame lies inside the grid. */
  lemma FrameStaysInside<Obj>(view: View<Obj>, width: nat, height: nat, k: nat)
    requires k < |Rows(view, width, height)|
    ensures 0 <= Rows(view, width, height)[k].x < width
    ensures 0 <= Rows(view, width, height)[k].y < height
  {
    RowsLength(view, width, height);
    RowsAt(view, width, height, k);
    Grid.IndexCell(k, width, height);
  }

  /** The colour of the last point of `frame`, or `otherwise` if it is empty. */
  function LastColor(frame: seq<Dot>, otherwise: Color): Color {
    if frame == [] then otherwise else frame[|frame| - 1].color
  }

  lemma NextRow<Obj>(view: View<Obj>, width: nat, y: nat, otherwise: Color)
    ensures Rows(view, width, y + 1) == Rows(view, width, y) + Row(view, y, width)
    ensures LastColor(Rows(view, width, y + 1), otherwise) ==
      if width == 0 then LastColor(Rows(view, width, y), otherwise) else PixelDot(view, width - 1, y).color
  {
    if width == 0 {
      assert Row(view, y, width) == [];
    }
  }

  /** One row of `render`: for each column x, left to right, sets the current
      colour to the colour cast through pixel (x, y) and draws the point. */
  method RenderRow<Obj>(fb: Framebuffer, view: View<Obj>, y: nat)
    modifies fb`drawn, fb`currentColor
    ensures fb.drawn == old(fb.drawn) + Row(view, y, fb.width)
    ensures fb.currentColor == if fb.width == 0 then old(fb.currentColor) else PixelDot(view, fb.width - 1, y).color
  {
    for x := 0 to fb.width
      invariant fb.drawn == old(fb.drawn) + Row(view, y, x)
      invariant fb.currentColor == if x == 0 then old(fb.currentColor) else PixelDot(view, x - 1, y).color
    {
      var color := CastRay(view.eye, view.direction(x, y), view.objects, view.rayIntersect);
      fb.SetCurrentColor(color);
      fb.DrawPoint(x, y);
      assert Row(view, y, x + 1) == Row(view, y, x) + [PixelDot(view, x, y)];
    }
  }

  /** render: draws every cell of the framebuffer, rows top to bottom and each
      row left to right, in the colour cast through that pixel from the eye. */
  method Render<Obj>(fb: Framebuffer, objects: seq<Obj>, camera: Camera,
                     rayIntersect: (Obj, Vec3, Vec3) -> Intersect, direction: (nat, nat) -> Vec3)
    modifies fb`drawn, fb`currentColor
    ensures var frame := Rows(View(camera.eye, objects, rayIntersect, direction), fb.width, fb.height);
      && fb.drawn == old(fb.drawn) + frame
      && fb.currentColor == LastColor(frame, old(fb.currentColor))
  {
    var view := View(camera.eye, objects, rayIntersect, direction);
    for y := 0 to fb.height
      invariant fb.drawn == old(fb.drawn) + Rows(view, fb.width, y)
      invariant fb.currentColor == LastColor(Rows(view, fb.width, y), old(fb.currentColor))
    {
      RenderRow(fb, view, y);
      NextRow(view, fb.width, y, old(fb.currentColor));
    }
  }
}
