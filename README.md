# CG-Minecraft ray tracer: the discrete core in Dafny

This project models the parts of the CG-Minecraft ray tracer that do not depend
on floating-point geometry:

- the nearest-hit scan in `cast_ray`;
- the row-major pixel loop in `render`;
- the camera's change flag, pitch clamp and yaw remainder;
- the texture's packed-colour table and its bounds-checked lookup;
- Bresenham line drawing;
- the `Intersect` and `Material` records, with their `empty()` and `black()` sentinels.

Geometry is not modelled. Three things stay abstract and become function
parameters:

- `Object::ray_intersect` is `rayIntersect: (Obj, Vec3, Vec3) -> Intersect`;
- the primary-ray direction of each pixel is `direction: (nat, nat) -> Vec3`;
- the camera's trigonometry (`atan2`, `sin`, `cos`, `sqrt`, `normalize`) becomes
  the parameters `angles`, `offset` and `normalize`.

Files, one module each:

| file | module | models |
|---|---|---|
| `vector.dfy` | `Vectors` | `Vec3` as three reals: add, subtract, scale |
| `color.dfy` | `Colors` | `Color` as three `bv8` channels, and `Color::from_hex` |
| `material.dfy` | `Materials` | `Material`, `Material::black` |
| `intersect.dfy` | `Intersects` | `Intersect`, `Intersect::new`, `Intersect::empty`; distances with a `+inf` sentinel |
| `camera.dfy` | `Cameras` | `Camera`: `new`, `orbit`, `zoom`, `check_if_changed` |
| `texture.dfy` | `Textures` | `Texture`: `new`, `black`, `load_color_array`, `get_color` |
| `framebuffer.dfy` | `Framebuffers` | the framebuffer as the sequence of points drawn into it |
| `line.dfy` | `Lines` | `Line::line` (Bresenham) |
| `render.dfy` | `Render` | `cast_ray`, `render` |
| `grid.dfy` | `Grid` | row-major index arithmetic shared by the texture and the renderer |

Some files the core uses are not part of this model. The model fills them in as follows:

- The colour type's file is not part of this model. `Color::from_hex` is modelled as splitting a 24-bit
  value into red, green and blue bytes, high byte first.
- The framebuffer's file is not part of this model. A framebuffer is its width, its height,
  its current colour and the list of `draw_point` calls made on it. Each call is recorded
  as a `Dot(x, y, colour)`.

Where the source files disagree with each other, or where the code's behaviour is easy to misread:

- `src/internal/render.rs` builds an `Intersect` with three fields and a `Material` with
  only `diffuse` (lines 12-18). Those do not match `intersect.rs` and `material.rs`.
  The model uses the full records. The scan's starting value is `Render.Background`:
  - zero point and normal;
  - distance `+inf`;
  - not a hit;
  - `Material::black()` with diffuse colour (66, 135, 245).
  Only the diffuse colour is observable.
- `render` takes three arguments in `render.rs`, while `src/lib.rs:142` passes six.
  The model follows `render.rs`.
- `orbit` computes `(current_yaw + delta_yaw) % (2.0 * PI)`. Rust's float `%` keeps
  the sign of the dividend, so the yaw lies in (-2π, 2π), not [0, 2π).
  `Cameras.FMod` models that remainder.
- `Material::black()` sets the refractive index to 0, not the 1 of vacuum, and the
  model keeps the 0.

## Model

| member | source | states |
|---|---|---|
| `Materials.Black` | src/internal/entitiy/material.rs:15-24 | black material: diffuse (0,0,0); specular, albedo pair, reflectivity and transparency all zero; refractive index 0 |
| `Intersects.New` | src/internal/entitiy/intersect.rs:16-24 | always a hit; point, normal, distance and material are stored as given |
| `Intersects.Empty` | src/internal/entitiy/intersect.rs:26-34 | not a hit, distance +inf, zero point and normal, material `Material::black()` |
| `Render.Background` | src/internal/render.rs:12-18 | the scan's starting accumulator: not a hit, distance +inf, diffuse colour (66,135,245) |
| `Render.NearestWithoutHit` | src/internal/render.rs:12-27 | if no result is a hit at a finite distance, the scan returns the background. Results that are not hits are never kept, whatever their distance |
| `Render.NearestWithHit` | src/internal/render.rs:20-27 | if some result is a hit at a finite distance, the scan returns a hit at a finite distance. Its distance is ≤ that of every hit, and < that of every earlier hit, so ties go to the first object |
| `Render.NearestMonotone` | src/internal/render.rs:20-25 | the accumulator's distance never increases as the scan proceeds |
| `Render.EmptyIsNeutral` | src/internal/entitiy/intersect.rs:26-34 | inserting `Intersect::empty()` anywhere among the results does not change the scan's outcome |
| `Render.AppendNewHit` | src/internal/render.rs:20-25 | a hit built by `Intersect::new` that comes after the others replaces the scan's result exactly when it is strictly nearer; otherwise the result is unchanged |
| `Render.CastRay` | src/internal/render.rs:11-28 | the loop's result equals the left-to-right scan. Sky colour when no object is hit at a finite distance; otherwise the diffuse colour of the earliest nearest hit |
| `Render.RowsAt` | src/internal/render.rs:35-36 | the frame's point at index k is the cell in column k % width, row k / width |
| `Render.FrameCoversEachCellOnce` | src/internal/render.rs:35-58 | a frame has width·height points; cell (x,y) is drawn at position y·width+x, with the colour cast through it, and at no other position |
| `Render.FrameStaysInside` | src/internal/render.rs:35-36 | every point drawn by `render` lies inside the framebuffer |
| `Render.RenderRow` | src/internal/render.rs:36-58 | one row appends the cells (0,y)…(width-1,y) in order, each in its cast colour. The current colour ends as the last cell's colour |
| `Render.Render` | src/internal/render.rs:30-60 | the frame (all rows, top to bottom) is appended to the framebuffer, and nothing else is drawn. The current colour ends as the last cell's colour |
| `Cameras.Camera.constructor` | src/internal/camera.rs:12-19 | a new camera stores eye, centre and up as given and has its changed flag set |
| `Cameras.Clamp` | src/internal/camera.rs:50 | the result lies in [lo, hi] and equals the input when the input is already in range |
| `Cameras.ClampIsNearest` | src/internal/camera.rs:50 | no point of [lo, hi] is nearer to the input than the clamped value |
| `Cameras.Trunc` | src/internal/camera.rs:49 | rounding toward zero: within 1 of the input, and never farther from zero than the input |
| `Cameras.FMod` | src/internal/camera.rs:49 | float `%`: the result lies strictly between -m and m, has the sign of the dividend, and differs from it by a whole multiple of m |
| `Cameras.Orbited` | src/internal/camera.rs:41-50 | orbit keeps the radius; the new pitch lies in [-π/2+0.1, π/2-0.1] for any delta, and is exact when in range; the new yaw lies in (-2π, 2π) |
| `Cameras.Camera.Orbit` | src/internal/camera.rs:37-59 | sets the changed flag; replaces only the eye, with centre plus the offset at the orbited angles, at a pitch inside the clamp range; centre and up unchanged |
| `Cameras.OrbitRepeatedly` | src/lib.rs:118-129 | after any non-empty series of orbits, whatever the deltas, the eye is still at a pitch inside the clamp range |
| `Cameras.Camera.Zoom` | src/internal/camera.rs:61-65 | sets the changed flag; moves the eye by delta along the normalised eye-to-centre direction; centre and up unchanged |
| `Cameras.Camera.CheckIfChanged` | src/internal/camera.rs:67-74 | returns the old flag and leaves it cleared; eye, centre and up unchanged |
| `Cameras.CheckTwice` | src/internal/camera.rs:67-74 | a change is reported at most once: a second call right after the first returns false |
| `Textures.Pack` | src/internal/entitiy/texture.rs:64 | the packed value r<<16 OR g<<8 OR b is below 0x1000000, and `from_hex` of it gives back the pixel's colour |
| `Textures.PackIsBase256` | src/internal/entitiy/texture.rs:64 | the packed value equals r·65536 + g·256 + b |
| `Textures.PackChannels` | src/internal/entitiy/texture.rs:64 | `(c>>16)&0xFF`, `(c>>8)&0xFF` and `c&0xFF` recover r, g and b |
| `Grid.IndexInBounds` | src/internal/entitiy/texture.rs:65 | for x < width and y < height, y·width + x < width·height, the table's length |
| `Grid.IndexSplit` | src/internal/entitiy/texture.rs:74 | the index y·width + x decodes back to column x and row y |
| `Textures.FillStep` | src/internal/entitiy/texture.rs:62-66 | writing pixel (x,y) at y·width+x extends the loaded region by that cell and keeps every cell loaded before it |
| `Textures.FillColumn` | src/internal/entitiy/texture.rs:61-67 | once every row of column x is loaded, all columns up to x are loaded |
| `Textures.Texture.LoadColorArray` | src/internal/entitiy/texture.rs:60-68 | afterwards each table cell holds `from_hex` of its packed pixel: cell y·width+x for pixel (x,y), and every index k ↔ pixel (k % width, k / width); the table's length is unchanged |
| `Textures.Texture.GetColor` | src/internal/entitiy/texture.rs:70-76 | magenta (0xFF00FF) whenever x ≥ width or y ≥ height; otherwise the cell y·width+x, which is always inside the table |
| `Textures.BlackImage` | src/internal/entitiy/texture.rs:82 | a 1×1 image whose pixel is black |
| `Textures.Texture.Black` | src/internal/entitiy/texture.rs:78-89 | width = height = 1, a fresh table of length 1, whose only cell is black after loading |
| `Textures.Texture.New` | src/internal/entitiy/texture.rs:34-58 | an image that failed to open or decode gives the black 1×1 texture. A decoded image gives its size and a fully loaded table: `get_color(x,y)` is its packed pixel |
| `Lines.ErrorTerm` | src/internal/line.rs:25-35 | with a x-steps and b y-steps, err = dx(1+b) − dy(1+a). An x-step fires only before x reaches x2, a y-step only before y reaches y2, and away from the end point at least one fires, so the loop terminates |
| `Lines.PartialLineBounds` | src/internal/line.rs:20-36 | after n points the line is at most n−1 steps from the start on each axis, and every step brings it nearer to the end point |
| `Lines.LineLength` | src/internal/line.rs:20-36 | any connected walk from start to end that only moves toward the end (which includes the line drawn) has between max(dx,dy)+1 and dx+dy+1 points; a walk from a point to itself is that single point |
| `Lines.Step` | src/internal/line.rs:25-35 | one pass of the loop body keeps the loop state: the major axis steps every time, the minor-axis deviation stays within half a cell, the error term stays equal to dx(1+b) − dy(1+a), and the position always advances |
| `Lines.ProgressIsNearest` | src/internal/line.rs:18-35 | in every loop state the current point is the Bresenham cell of its position: k steps along the major axis, the nearest cell to the ideal line on the minor axis, a half-way tie going toward the start |
| `Lines.BresenhamAt` | src/internal/line.rs:20-36 | point k of a Bresenham line is the Bresenham cell of position k |
| `Lines.BresenhamLength` | src/internal/line.rs:20-36 | a Bresenham line from start to end has exactly max(dx,dy)+1 points |
| `Lines.NearestCellUnique` | src/internal/line.rs:20-36 | between the end points, each position of the line has only one Bresenham cell |
| `Lines.BresenhamUnique` | src/internal/line.rs:9-37 | two sequences that both meet the contract of `line` are equal, so the contract fixes every point drawn |
| `Lines.ShallowLine` | src/internal/line.rs:20-36 | from (0,0) to (2,1) the line drawn is (0,0),(1,0),(2,1); the walk (0,0),(1,1),(2,1) is connected but is not the Bresenham line |
| `Lines.Line` | src/internal/line.rs:9-37 | appends a line in the current colour and changes nothing already drawn. The first point is the start and the last is the end; consecutive points move one king's step toward the end. Point k is the Bresenham cell of position k, and there are exactly max(dx,dy)+1 points, e.g. (0,0),(1,0),(2,1) from (0,0) to (2,1) |

## Left out

- Ray geometry (`sphere.rs`, `cube.rs`) is f32 arithmetic with `sqrt`, IEEE infinities and NaN. It stays the abstract `rayIntersect`.
- Distances are `Finite(real)` or `Infinity`. NaN and negative infinity are not modelled, and neither is f32 rounding.
- `Camera::change_basis` and the float trigonometry in `orbit` and `zoom` are left out. `orbit` and `zoom` take these operations as function parameters.
- `render`'s screen-space mapping, aspect correction and normalisation are float arithmetic. They are folded into the `direction` parameter.
- `Line::line` works on `isize`: `(x2 - x1).abs()`, `err * 2` and `x1 += sx` overflow for end points near the `isize` bounds, which the saturating f32-to-`isize` cast produces from huge or infinite floats. The model's integers are unbounded, so that overflow is not modelled.
- `Line::line` takes integer end points. The `as isize` truncation of the f32 end points and the `as usize` cast inside `draw_point` are left out: a negative coordinate is recorded as it is.
- The framebuffer's pixel buffer, its bounds handling and its packed pixel format belong to a file that is not part of this model. Drawing is recorded as a list of points.
- `Texture::new`'s file opening and decoding are left out. The decoder's result is the parameter `Option<Image>`, with `None` for an open or decode error. The `println!` error messages, the `Lazy`/`Arc` texture statics and the `Debug` impl are left out too.
- `Textures.Texture.LoadColorArray`: it requires the table length to be width·height, which both constructors establish. `usize` overflow of `y * width + x` is not modelled.
- `src/lib.rs` is left out apart from the orbit calls cited above. It holds the window, key polling, frame loop and day-angle update, which are I/O and float glue.
- `light.rs` holds only plain constructors, `object.rs` only a trait declaration, and `grid.rs` is entirely commented out.
- Concurrency (`Sync` bounds, `Arc` sharing) is not modelled. Everything here is sequential.
