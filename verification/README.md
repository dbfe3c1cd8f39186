# rust_tracer rendering core in Dafny

A model of the core of `rust_tracer`, a small Rust path tracer in the style of
"Ray Tracing in One Weekend". Its arithmetic is taken over Dafny's
mathematical `real` in place of `f64`. The model covers:

- the sphere intersection `Sphere::get_hit_time`;
- the scene list `RenderList`, its nearest-hit scan `try_get_hit_record`, and
  the material package built at a hit;
- the three materials (Lambertian, Metal, Dielectric), with the Schlick
  reflectance and the rejection sampler `random_in_unit_sphere`;
- the recursive integrator `color`;
- the pixel loop `render`, with averaging, gamma correction and the `as i32`
  quantisation;
- the pin-hole `Camera`;
- the append-only output buffer `RenderBufferI32`.

Modules follow the source files:

| module | file | source |
|---|---|---|
| `Vec3Math` | vec3.dfy | `rusty_math`, an external crate; only the operations the core calls are defined here |
| `Spheres` | spheres.dfy | `shapes::Sphere` in src/renderable.rs |
| `Materials` | materials.dfy | `materials`, `schlick`, `random_in_unit_sphere` in src/renderable.rs |
| `Scene` | scene.dfy | `RenderList`, `HitRecord`, `MaterialPackage` in src/renderable.rs |
| `Cameras` | camera.dfy | src/camera.rs |
| `RenderBuffers` | render_buffer.dfy | src/render_buffer.rs |
| `Renderer` | renderer.dfy | src/renderer.rs |
| `Wrappers` | wrappers.dfy | an `Option` type |

How the things the model cannot compute are handled:

- **Square root.** It is a parameter `sqrt: real -> real`. The only fact used
  about it is `Vec3Math.IsSqrt`: on a non-negative input it returns the
  non-negative root. `normalize` is defined from it.
- **`powf(5.0)`.** It is the exact fifth power.
- **`rand::thread_rng()`.** Its draws are inputs:
  - a material's draws for one bounce arrive as a `Materials.Bounce` (the
    unit-sphere sample and the reflect/refract roll);
  - the ray path of one camera sample is a function from depth to `Bounce`;
  - `render` reads the jitter and path of sample `s` of pixel (x, y) from
    `Job.draws(x, y, s)`;
  - `random_in_unit_sphere` is modelled on its own, over a finite sequence of
    uniform draws.
- **Trait objects and references.** A `&Material` becomes a value of the
  closed datatype `Materials.Material`. The `usize::MAX` "no hit" index
  becomes `Option`.

The background gradient follows the code. src/renderer.rs:80 computes
`t = 0.5 * unit.y + 1.0`, which ranges over [0.5, 1.5]. A white-to-blue blend
needs `0.5 * (unit.y + 1)`, which stays in [0, 1]. `Renderer.Background` uses
the coded formula.
`Renderer.ZenithOvershootsBlue` shows its effect: a ray pointing straight up
gets (0.25, 0.55, 1), a colour past the blue end of the white-to-blue blend.

## Model

| member | source | states |
|---|---|---|
| Spheres.GetHitTime | src/renderable.rs:130-152 | The result is `time_min` (the miss sentinel) or a time strictly inside (time_min, time_max). A non-positive discriminant, including the tangent case, is always a miss. A hit is the entry root or the exit root of the quadratic. |
| Spheres.HitTimeIsNearestSurface | src/renderable.rs:141-151 | A reported hit is a point on the sphere inside the interval, and no surface point lies between time_min and it. When the ray crosses the sphere, every surface point inside the open interval lies at or after the reported hit. So the hit is the smallest root in the interval. |
| Spheres.RootsOfCrossing | src/renderable.rs:141-146 | For a crossing ray, the points of the ray on the sphere are exactly the two roots the code computes, and the entry root is not after the exit root. |
| Spheres.SurfaceQuadratic | src/renderable.rs:131-134 | The code's a, b and c are the coefficients of squared distance to the centre minus squared radius, as a polynomial in the ray time. |
| Spheres.HitTimeShrink | src/renderable.rs:79 | Querying with a smaller upper bound m keeps the full-interval hit when it is before m, and otherwise reports a miss. |
| Spheres.StillRayNotCrossing | src/renderable.rs:132-139 | `a` is never negative. A ray with a = 0 has a zero direction and a zero discriminant, so it is a miss. |
| Spheres.CrossingHasDirection | src/renderable.rs:142 | When the discriminant is positive, the division by 2a is by a positive number. |
| Spheres.PointSphereNeverCrossed | src/renderable.rs:134-139 | A sphere of radius zero never has a positive discriminant, so it is never hit. |
| Scene.New | src/renderable.rs:51-56 | A new list is empty and its two arrays are parallel. |
| Scene.AddSphere | src/renderable.rs:59-67 | Appends exactly one sphere and one material at the ends, leaves every earlier entry unchanged, and keeps the arrays parallel. |
| Scene.AddAllInOrder | src/renderable.rs:59-67 | After successive `add_sphere` calls from an empty list, the i-th added pair sits at index i of both arrays. |
| Scene.ScanPrefix | src/renderable.rs:75-84 | After scanning the first n spheres, the winner has an index below n and a time inside (time_min, time_max), and its sphere is crossed. |
| Scene.ScanIsFirstArgmin | src/renderable.rs:75-84 | The shrinking-bound scan finds nothing exactly when no sphere is hit on the full interval. Otherwise it finds the minimum full-interval hit time, and the lowest index attaining it, because a later sphere replaces the winner only when strictly earlier. |
| Scene.NearestHit | src/renderable.rs:85-92 | On success the record holds the query ray, an index of the list and a time inside (time_min, time_max). |
| Scene.TryGetHitRecord | src/renderable.rs:69-93 | Returns false exactly when no sphere is hit, and then leaves the caller's record untouched. On success the record holds the input ray, the minimum hit time over all spheres and the lowest index attaining it. |
| Scene.GetMaterialPackage | src/renderable.rs:95-115 | The package carries the material at the hit index, the incoming ray, and the point of the ray at the hit time. The normal times the radius is the point minus the centre, that is `(point - center) / radius`, and it has unit length whenever the point lies on the sphere. |
| Scene.NearestHitIsOnSurface | src/renderable.rs:85-106 | A hit the scan reports is on a sphere of non-zero radius, by a ray of non-zero length. So the divisions by the radius and by the direction's length that follow are well defined. |
| Materials.RandomInUnitSphere | src/renderable.rs:24-36 | The accepted point is the first candidate `2 * (rx, ry, rz) - (1, 1, 1)` with squared length below 1, and all earlier candidates were rejected. For uniform draws in [0, 1) each coordinate is in [-1, 1). The result is None exactly when the draws run out with every candidate rejected. |
| Materials.Schlick | src/renderable.rs:237-241 | `schlick(1, n)` is r0. For a cosine in [0, 1] and a non-negative index the probability lies between r0 and 1. |
| Materials.SchlickBounds | src/renderable.rs:238-240 | r0 lies in [0, 1], and r0 + (1 - r0)(1 - cos)^5 lies in [r0, 1] for a cosine in [0, 1] and a non-negative index. |
| Materials.Orient | src/renderable.rs:263-271 | When `dir . normal > 0` the outward normal is `-normal`, ni_over_nt is `refraction_index` and the cosine times the direction's length is `refraction_index * (dir . normal)`. Otherwise the normal is kept, ni_over_nt is `1 / refraction_index` and the cosine times the length is `-(dir . normal)`. The outward normal faces against the ray, and the cosine is non-negative for a positive index and length. |
| Materials.ReflectNormalComponent | src/renderable.rs:220 | About a unit normal, reflection negates the direction's normal component. |
| Materials.RefractUnitRatio | src/renderable.rs:282-283 | With ratio 1 and root `-(d . n)`, the refraction formula returns the direction unchanged. |
| Materials.Apply | src/renderable.rs:197-300 | Lambertian always scatters, with attenuation = albedo and direction = normal + sample. Metal scatters exactly when the fuzzed reflection points along the normal, and then reports its albedo and that direction. Dielectric always scatters with attenuation (1, 1, 1). It reflects when the roll is below the reflect chance and refracts otherwise, and it reflects for every roll in [0, 1) when its discriminant is not positive. Every scattered ray starts at the hit point. |
| Materials.AttenuationInRange | src/renderable.rs:204-258 | A material whose albedo is a colour in [0, 1]^3 never reports an attenuation outside [0, 1]^3. |
| Materials.MirrorScattersIncomingRays | src/renderable.rs:218-229 | A metal with zero fuzziness and a unit normal scatters exactly the rays that arrive against the normal. |
| Materials.UnitIndexRefraction | src/renderable.rs:277-283 | With refraction index 1, whenever a refracted direction exists it is the unit incoming direction. |
| Materials.UnitIndexPassesThrough | src/renderable.rs:280-296 | A dielectric of index 1 that chooses refraction sends the ray on in its own unit direction. |
| Cameras.New | src/camera.rs:13-20 | The default camera has its eye at the origin, lower-left corner (-2, -1, -1), horizontal edge (4, 0, 0) and vertical edge (0, 2, 0). |
| Cameras.GetOrigin | src/camera.rs:22-24 | Returns a vector equal to the camera's eye position. |
| Cameras.GetRay | src/camera.rs:26-31 | The ray starts at the camera origin and reaches the image point `lower_left + u * horizontal + v * vertical` at time 1. |
| Cameras.DefaultDirection | src/camera.rs:13-31 | For the default camera the direction is (4u - 2, 2v - 1, -1): x follows u alone, y follows v alone, and z is always -1. |
| Cameras.DefaultCorners | src/camera.rs:13-31 | The default camera maps (0,0), (1,1), (1,0) and (0,1) to the four corners of its image rectangle, e.g. (-2,-1,-1) and (2,1,-1). |
| Cameras.DefaultRayDeterminesUV | src/camera.rs:26-31 | (u, v) can be read back from the default camera's direction, so the map from (u, v) to rays is injective. |
| Cameras.DefaultRayInViewport | src/camera.rs:26-31 | Parameters in the unit square aim the default camera inside its 4 x 2 image rectangle at z = -1. |
| Cameras.DirectionIsAffine | src/camera.rs:29 | For any camera, shifting (u, v) by (du, dv) shifts the direction by du horizontal edges plus dv vertical edges. |
| RenderBuffers.New | src/render_buffer.rs:11-18 | A new buffer records width and height and holds no channels. |
| RenderBuffers.PushPixel | src/render_buffer.rs:20-29 | Appends exactly three channels, in the order r, g, b, leaving the dimensions and all earlier entries unchanged. |
| RenderBuffers.PushPixelsGrowth | src/render_buffer.rs:20-29 | A run of pushes grows the buffer by three channels per pixel, keeping the dimensions and earlier content. |
| RenderBuffers.PushPixelsLayout | src/render_buffer.rs:26-28 | Behind the earlier content, pushed pixel i occupies entries 3i, 3i + 1 and 3i + 2. |
| RenderBuffers.FreshBufferRoundTrip | src/render_buffer.rs:11-29 | After k pushes into a new buffer the length is 3k, and reading back triple i gives the i-th pushed pixel. |
| RenderBuffers.PushPixelsAppend | src/render_buffer.rs:20-29 | Pushing two runs of pixels in turn is pushing their concatenation. |
| Renderer.Background | src/renderer.rs:77-82 | The escape colour is the white-to-blue blend with weight `0.5 * unit.y + 1.0`. Blue is always 1. Weight 0 gives white and weight 1 gives (0.5, 0.7, 1). |
| Renderer.BackgroundRange | src/renderer.rs:78-82 | Because the weight ranges over [0.5, 1.5], red stays in [0.25, 0.75], green in [0.55, 0.85] and blue at 1. So the background is a colour in [0, 1]^3. |
| Renderer.HorizonIsSkyBlue | src/renderer.rs:78-82 | A horizontal ray sees exactly (0.5, 0.7, 1). |
| Renderer.ZenithOvershootsBlue | src/renderer.rs:80-82 | A ray straight up sees (0.25, 0.55, 1), past the blue end of the blend. |
| Renderer.StepOf | src/renderer.rs:60-64 | A call escapes exactly when the scene query on (0.001, f64::MAX) finds nothing. It scatters only below depth 50. With albedos in range the attenuation is in [0, 1]^3. |
| Renderer.Color | src/renderer.rs:58-83 | The recursion terminates with measure 50 - depth. In a scene whose albedos are colours in [0, 1]^3, every colour returned is in [0, 1]^3. |
| Renderer.NestedCalls | src/renderer.rs:64-65 | One call from depth 0 makes at most 51 nested calls, itself included. A call at depth 50 or more makes no further calls. |
| Renderer.StepUsesOneBounce | src/renderer.rs:64 | A call at depth d draws only bounce d, and only when d < 50 (`apply` is not called past the bound). |
| Renderer.ColorUsesBoundedBounces | src/renderer.rs:58-75 | A call at depth d depends only on bounces d to 49 of its path. |
| Renderer.MissShowsBackground | src/renderer.rs:61-82 | A ray that no sphere hits in (0.001, f64::MAX) shows the background, with no recursion. |
| Renderer.EmptySceneIsSky | src/renderer.rs:58-83 | Every ray of an empty scene shows the background. |
| Renderer.DepthLimitIsBlack | src/renderer.rs:64-74 | At depth 50 or more, a ray that hits any sphere is black. |
| Renderer.HitShading | src/renderer.rs:60-74 | On a hit, the package is built from the record's ray (the query ray), time and index, with a non-zero radius and direction length. Below depth 50, when `apply` accepts it, the colour is the scattered ray's colour at depth + 1 times the attenuation, channel by channel. At depth 50 or more, or when `apply` refuses, the colour is black. |
| Renderer.Trace | src/renderer.rs:58-83 | A loop that follows the scattered rays and multiplies up the attenuations gives the same colour as the recursive `color` from depth 0. |
| Renderer.TruncI32 | src/renderer.rs:48-50 | `as i32` truncates toward zero: in range, the result is the floor of a non-negative input and the ceiling of a negative one. Out of range it saturates at the 32-bit bounds. |
| Renderer.Channel | src/renderer.rs:43-50 | A channel is never negative. An average in [0, 1] gives at most 255, a full average gives exactly 255, and a zero sum gives 0. A non-positive sample count gives 0, as the cast of NaN or of -0.0 does. |
| Renderer.ChannelBounds | src/renderer.rs:43-46 | The gamma-corrected average is non-negative. It is at most 1 for an average in [0, 1], exactly 1 at 1, and 0 at 0. |
| Renderer.PixelCoord | src/renderer.rs:34-38 | A jitter drawn from [0, 1) keeps the sample parameter inside its own cell [i/n, (i+1)/n), and so inside [0, 1). |
| Renderer.SampleColor | src/renderer.rs:37-41 | The colour of one jittered camera sample is in [0, 1]^3 when the albedos are. |
| Renderer.SumOfBounds | src/renderer.rs:32-42 | A sum of k colours from [0, 1]^3 has every channel in [0, k]. |
| Renderer.PixelInRange | src/renderer.rs:32-50 | With albedos in range, every channel `render` pushes is an integer in [0, 255]. |
| Renderer.RowsScanOrder | src/renderer.rs:30-31 | In the emitted pixel sequence, entry r * width + x is pixel (x, height - 1 - r). Rows go from the top row down, each left to right. |
| Renderer.FramePixel | src/renderer.rs:30-31 | A full frame has width * height pixels, and pixel (x, y) sits at entry (height - 1 - y) * width + x. |
| Renderer.FrameReadBack | src/renderer.rs:30-52 | Behind the buffer's earlier content, pixel (x, y) of a pushed frame reads back from triple (height - 1 - y) * width + x. |
| Renderer.FrameLayout | src/renderer.rs:30-52 | Pushing a full frame appends 3 * width * height channels and keeps the dimensions and earlier content. |
| Renderer.Render | src/renderer.rs:24-55 | Keeps the buffer's dimensions and earlier content, and grows it by exactly 3 * width * height channels. The new channels are a full frame of the pixels the samples give, in scan order. |
| Renderer.RenderedPixel | src/renderer.rs:24-55 | In a rendered buffer, pixel (x, y) reads back from triple (height - 1 - y) * width + x behind the earlier content. It equals the average of its samples, gamma-corrected and quantised. |
| Renderer.RenderFrame | src/renderer.rs:30-54 | The two nested loops push the frame's rows, top row first, and grow the buffer by 3 * width * height channels. |
| Renderer.RenderRows | src/renderer.rs:30-54 | After the outer loop, the rows from height - 1 down to 0 are pushed in that order. |
| Renderer.RenderRow | src/renderer.rs:30-53 | Round k of the outer loop pushes row height - 1 - k, completing the first k + 1 rows of the frame. |
| Renderer.PushRow | src/renderer.rs:31-53 | The inner loop pushes the pixels of one row from x = 0 to width - 1. |
| Renderer.ShadePixel | src/renderer.rs:32-52 | With albedos in [0, 1]^3 every channel pushed for a pixel is an integer in [0, 255], whatever the draws. |
| Renderer.SumSamples | src/renderer.rs:32-42 | The sample loop adds the `color` at depth 0 of the jittered camera rays of samples 0 to n - 1, and nothing when n <= 0. With albedos in [0, 1]^3 every channel of the sum lies in [0, n]. |

## Left out

- src/main.rs, a stand-alone image-file demo that does not use the renderer, is not part of this model.
- IEEE-754 behaviour: rounding, NaN, infinities and overflow of `f64`. All arithmetic is exact over `real`. `f64::MAX` is kept as the exact constant bound of the scene query.
- `sqrt`: a parameter assumed to be the non-negative root (`Vec3Math.IsSqrt`). It serves `normalize` (renderable.rs:218, 249 and renderer.rs:80), the sphere's discriminant root (renderable.rs:141), the dielectric's direction length (renderable.rs:261), the refraction root (renderable.rs:283) and the gamma step (renderer.rs:44-46); `length_squared` is the dot product of a vector with itself and needs no root. `normalize` of the zero vector (NaN in `f64`) returns the zero vector.
- Randomness: every draw is an input, as described above. Uniformity and other statistical properties are not stated.
- Materials.RandomInUnitSphere: the source loops until a candidate is accepted. The model reads a finite sequence of draws and returns None when it runs out.
- Materials.Apply: requires a dielectric's refraction index to be neither 0 nor -1, and its incoming ray to have non-zero length. These are the divisions by `refraction_index`, `1 + refraction_index` and the direction length, which give NaN or infinity in `f64`. Every ray `color` shades has non-zero length (`Scene.NearestHitIsOnSurface`).
- Renderer.Color: requires a scene whose dielectrics satisfy the same condition (`Scene.Shadeable`). The colour bound holds for scenes whose albedos are colours in [0, 1]^3.
- Scene.GetMaterialPackage: requires a non-zero radius at the hit index. Every index the scan reports has one (`Scene.NearestHitIsOnSurface`).
- Physical accuracy of refraction and of Schlick's approximation: only the formulas as written are modelled.
- `Vec::with_capacity` in `RenderBufferI32::new`: the reserved capacity is not observable and is not modelled.
- Integer widths: the sample count is an unbounded `int`, and the widths and heights are unbounded `nat`. The loop counters cannot overflow in the model. The `as i32` cast is modelled with its saturation. `RenderBufferI32::new` computes `width * height * 3` in `usize` for `Vec::with_capacity` (src/render_buffer.rs:12,16), which panics on overflow or on a failed allocation for huge dimensions; `RenderBuffers.New` never fails.
- Borrowing, lifetimes and trait-object dispatch: the model uses values and a closed `Material` datatype.
- `HitRecord::new` and `MaterialOutput::new`: all-zero records that the caller hands in to be overwritten. The model returns the records instead (`Scene.NearestHit` and `Materials.Apply` give an `Option`), so no blank record is needed; `Scene.TryGetHitRecord` takes any starting record and leaves it untouched on a miss.
