/**
 * The discrete skeleton of the ray-tracing shaders: the payload
 * constructors, the bounded bounce loop of the ray-generation shader and its
 * pixel update, the seed and index arithmetic, the sphere intersection's
 * root filtering and the triangle cutout test. Coordinates and colours are
 * reals; tracing a ray, scattering at a material, the camera and `sqrt` are
 * parameters of the model.
 */
module RaytracingShader {

  datatype Vec3 = Vec3(x: real, y: real, z: real)

  datatype Vec4 = Vec4(x: real, y: real, z: real, w: real)

  const Zero := Vec3(0.0, 0.0, 0.0)
  const One := Vec3(1.0, 1.0, 1.0)

  function Add(a: Vec3, b: Vec3): Vec3 { Vec3(a.x + b.x, a.y + b.y, a.z + b.z) }

  function Neg(a: Vec3): Vec3 { Vec3(-a.x, -a.y, -a.z) }

  function Scale(t: real, a: Vec3): Vec3 { Vec3(t * a.x, t * a.y, t * a.z) }

  /** Component-wise product (`color *= other`). */
  function Mul(a: Vec3, b: Vec3): Vec3 { Vec3(a.x * b.x, a.y * b.y, a.z * b.z) }

  function Dot(a: Vec3, b: Vec3): real { a.x * b.x + a.y * b.y + a.z * b.z }

  function LengthSquared(a: Vec3): real { Dot(a, a) }

  /** `color.extend(1.0)`. */
  function Extend(a: Vec3, w: real): Vec4 { Vec4(a.x, a.y, a.z, w) }

  function Add4(a: Vec4, b: Vec4): Vec4 { Vec4(a.x + b.x, a.y + b.y, a.z + b.z, a.w + b.w) }

  lemma DotNeg(a: Vec3, b: Vec3)
    ensures Dot(a, Neg(b)) == -Dot(a, b)
  {
  }

  // ---------------------------------------------------------------------
  // Payload

  datatype Ray = Ray(origin: Vec3, direction: Vec3)

  /**
   * What the hit and miss shaders hand back: `isMiss` and `frontFace` are
   * 0/1 flags; on a miss, `position` carries the sky colour.
   */
  datatype RayPayload = RayPayload(isMiss: nat, position: Vec3, normal: Vec3, material: nat, frontFace: nat)

  const DefaultPayload := RayPayload(0, Zero, Zero, 0, 0)

  function NewMiss(color: Vec3): RayPayload
  {
    DefaultPayload.(isMiss := 1, position := color)
  }

  function NewHit(position: Vec3, outwardNormal: Vec3, rayDirection: Vec3, material: nat): RayPayload
  {
    var frontFace := Dot(rayDirection, outwardNormal) < 0.0;
    RayPayload(0, position, if frontFace then outwardNormal else Neg(outwardNormal), material,
               if frontFace then 1 else 0)
  }

  /** A miss payload is seen as a miss by the bounce loop, which reads the colour back. */
  lemma NewMissRoundTrip(color: Vec3)
    ensures NewMiss(color).isMiss == 1 && NewMiss(color).position == color
    ensures NewMiss(color).normal == Zero && NewMiss(color).material == 0 && NewMiss(color).frontFace == 0
  {
  }

  /**
   * A hit payload is never a miss; it is front-facing exactly when the ray
   * enters against the outward normal, and its normal always faces the ray.
   */
  lemma NewHitOrientation(position: Vec3, outward: Vec3, direction: Vec3, material: nat)
    ensures var p := NewHit(position, outward, direction, material);
      p.isMiss == 0 && p.position == position && p.material == material
      && (p.frontFace == 1 <==> Dot(direction, outward) < 0.0)
      && (p.frontFace == 0 <==> Dot(direction, outward) >= 0.0)
      && (p.frontFace == 1 ==> p.normal == outward)
      && (p.frontFace == 0 ==> p.normal == Neg(outward))
      && Dot(direction, p.normal) <= 0.0
  {
    DotNeg(direction, outward);
  }

  // ---------------------------------------------------------------------
  // The bounce loop

  /** What a material's `scatter` produces: a success flag, the attenuation, the next ray, the new RNG state. */
  datatype ScatterResult<R> = ScatterResult(scattered: bool, color: Vec3, ray: Ray, rng: R)

  /** How a path ends. */
  datatype Ending = Missed | Absorbed | Exhausted

  /** The colour factors a path collects, and how it ends. */
  datatype Path = Path(factors: seq<Vec3>, ending: Ending)

  /** The maximum number of `trace_ray` calls per pixel. */
  const MaxBounces: nat := 50

  /**
   * The path of a ray with at most `fuel` traces left: a miss contributes the
   * sky colour and ends the path, a successful scatter contributes its
   * attenuation and continues with the scattered ray, a failed scatter ends
   * the path with nothing more.
   */
  function Walk<R>(trace: (Ray, RayPayload) -> RayPayload,
                   scatter: (Ray, RayPayload, R) -> ScatterResult<R>,
                   ray: Ray, rng: R, fuel: nat): Path
    decreases fuel
  {
    if fuel == 0 then Path([], Exhausted)
    else
      var p := trace(ray, DefaultPayload);
      if p.isMiss != 0 then Path([p.position], Missed)
      else
        var s := scatter(ray, p, rng);
        if s.scattered then
          var rest := Walk(trace, scatter, s.ray, s.rng, fuel - 1);
          Path([s.color] + rest.factors, rest.ending)
        else Path([], Absorbed)
  }

  /** The number of `trace_ray` calls a path made. */
  function Traces(p: Path): nat
  {
    if p.ending == Absorbed then |p.factors| + 1 else |p.factors|
  }

  /** `color` multiplied by each factor in turn. */
  function Accumulated(color: Vec3, factors: seq<Vec3>): Vec3
    decreases |factors|
  {
    if factors == [] then color else Accumulated(Mul(color, factors[0]), factors[1..])
  }

  /**
   * A path makes at least one and at most `fuel` traces; it is cut off only
   * after `fuel` successful scatters, and only a miss adds a factor without
   * a scatter.
   */
  lemma {:induction false} WalkBounds<R>(trace: (Ray, RayPayload) -> RayPayload,
                                         scatter: (Ray, RayPayload, R) -> ScatterResult<R>,
                                         ray: Ray, rng: R, fuel: nat)
    ensures var p := Walk(trace, scatter, ray, rng, fuel);
      Traces(p) <= fuel && (fuel > 0 ==> Traces(p) >= 1)
      && (p.ending == Exhausted ==> |p.factors| == fuel)
      && (p.ending == Missed ==> |p.factors| >= 1)
    decreases fuel
  {
    if fuel > 0 {
      var p := trace(ray, DefaultPayload);
      if p.isMiss == 0 {
        var s := scatter(ray, p, rng);
        if s.scattered {
          WalkBounds(trace, scatter, s.ray, s.rng, fuel - 1);
        }
      }
    }
  }

  /** If the first trace misses, the colour is the sky colour it carries. */
  lemma FirstMiss<R>(trace: (Ray, RayPayload) -> RayPayload,
                     scatter: (Ray, RayPayload, R) -> ScatterResult<R>,
                     ray: Ray, rng: R)
    requires trace(ray, DefaultPayload).isMiss != 0
    ensures Accumulated(One, Walk(trace, scatter, ray, rng, MaxBounces).factors)
         == Mul(One, trace(ray, DefaultPayload).position)
  {
    assert Walk(trace, scatter, ray, rng, MaxBounces).factors == [trace(ray, DefaultPayload).position];
  }

  /**
   * The loop of the ray-generation shader: up to 50 traces from `ray`,
   * each with a freshly reset payload; `color` starts white and is only
   * multiplied, by the sky colour on a miss or by each scatter's
   * attenuation.
   */
  method Bounce<R>(trace: (Ray, RayPayload) -> RayPayload,
                   scatter: (Ray, RayPayload, R) -> ScatterResult<R>,
                   ray0: Ray, rng0: R)
    returns (color: Vec3)
    ensures color == Accumulated(One, Walk(trace, scatter, ray0, rng0, MaxBounces).factors)
  {
    color := One;
    var ray := ray0;
    var rng := rng0;
    var k := 0;
    while k < MaxBounces
      invariant 0 <= k <= MaxBounces
      invariant Accumulated(color, Walk(trace, scatter, ray, rng, MaxBounces - k).factors)
             == Accumulated(One, Walk(trace, scatter, ray0, rng0, MaxBounces).factors)
    {
      var payload := trace(ray, DefaultPayload);
      WalkStep(trace, scatter, ray, rng, MaxBounces - k);
      if payload.isMiss != 0 {
        AccumulatedStep(color, payload.position, []);
        color := Mul(color, payload.position);
        break;
      }
      var s := scatter(ray, payload, rng);
      if !s.scattered {
        break;
      }
      AccumulatedStep(color, s.color, Walk(trace, scatter, s.ray, s.rng, MaxBounces - k - 1).factors);
      color := Mul(color, s.color);
      ray := s.ray;
      rng := s.rng;
      k := k + 1;
    }
  }

  /** Multiplying by a first factor, then by the rest. */
  lemma AccumulatedStep(color: Vec3, f: Vec3, rest: seq<Vec3>)
    ensures Accumulated(color, [f] + rest) == Accumulated(Mul(color, f), rest)
  {
    assert ([f] + rest)[1..] == rest;
  }

  /** One step of `Walk`, by the first trace's outcome. */
  lemma WalkStep<R>(trace: (Ray, RayPayload) -> RayPayload,
                    scatter: (Ray, RayPayload, R) -> ScatterResult<R>,
                    ray: Ray, rng: R, fuel: nat)
    ensures fuel == 0 ==> Walk(trace, scatter, ray, rng, fuel).factors == []
    ensures fuel > 0 && trace(ray, DefaultPayload).isMiss != 0 ==>
      Walk(trace, scatter, ray, rng, fuel).factors == [trace(ray, DefaultPayload).position]
    ensures fuel > 0 && trace(ray, DefaultPayload).isMiss == 0 ==>
      var s := scatter(ray, trace(ray, DefaultPayload), rng);
      Walk(trace, scatter, ray, rng, fuel).factors
        == if s.scattered then [s.color] + Walk(trace, scatter, s.ray, s.rng, fuel - 1).factors else []
  {
  }

  // ---------------------------------------------------------------------
  // Pixel and seed arithmetic

  datatype UVec2 = UVec2(x: nat, y: nat)

  /** The accumulated pixel of launch `id`: the image is stored upside down. */
  function PixelOf(id: UVec2, size: UVec2): (pos: UVec2)
    requires id.x < size.x && id.y < size.y
    ensures pos.x < size.x && pos.y < size.y
  {
    UVec2(id.x, size.y - 1 - id.y)
  }

  /** Distinct launches write distinct pixels, and flipping twice gives the launch back. */
  lemma PixelOfInjective(a: UVec2, b: UVec2, size: UVec2)
    requires a.x < size.x && a.y < size.y && b.x < size.x && b.y < size.y
    ensures PixelOf(a, size) == PixelOf(b, size) <==> a == b
    ensures PixelOf(PixelOf(a, size), size) == a
  {
  }

  /**
   * `image.write(pos, image.read(pos) + color.extend(1.0))`: the pixel gains
   * the sample's colour and one more sample count; no other pixel changes.
   */
  method Accumulate(image: array2<Vec4>, id: UVec2, size: UVec2, color: Vec3)
    requires image.Length0 >= size.x && image.Length1 >= size.y
    requires id.x < size.x && id.y < size.y
    modifies image
    ensures var pos := PixelOf(id, size);
      image[pos.x, pos.y] == Add4(old(image[pos.x, pos.y]), Extend(color, 1.0))
    ensures forall i, j :: (0 <= i < image.Length0 && 0 <= j < image.Length1
      && (i, j) != (PixelOf(id, size).x, PixelOf(id, size).y)) ==> image[i, j] == old(image[i, j])
  {
    var pos := PixelOf(id, size);
    var prev := image[pos.x, pos.y];
    image[pos.x, pos.y] := Add4(prev, Extend(color, 1.0));
  }

  /**
   * One launch of the ray-generation shader: the camera turns the launch's
   * seeded generator into the primary ray, the bounce loop computes the
   * sample's colour and the pixel accumulates it.
   */
  method RayGeneration<R>(image: array2<Vec4>, id: UVec2, size: UVec2, seeded: R,
                          camera: R -> (Ray, R),
                          trace: (Ray, RayPayload) -> RayPayload,
                          scatter: (Ray, RayPayload, R) -> ScatterResult<R>)
    requires image.Length0 >= size.x && image.Length1 >= size.y
    requires id.x < size.x && id.y < size.y
    modifies image
    ensures var pos := PixelOf(id, size);
      image[pos.x, pos.y] == Add4(old(image[pos.x, pos.y]),
        Extend(Accumulated(One, Walk(trace, scatter, camera(seeded).0, camera(seeded).1, MaxBounces).factors), 1.0))
    ensures forall i, j :: (0 <= i < image.Length0 && 0 <= j < image.Length1
      && (i, j) != (PixelOf(id, size).x, PixelOf(id, size).y)) ==> image[i, j] == old(image[i, j])
  {
    var (ray, rng) := camera(seeded);
    var color := Bounce(trace, scatter, ray, rng);
    Accumulate(image, id, size, color);
  }

  /** Bitwise XOR of two naturals, one bit at a time from the lowest. */
  function Xor(a: nat, b: nat): nat
    decreases a + b
  {
    if a == 0 && b == 0 then 0 else 2 * Xor(a / 2, b / 2) + (a % 2 + b % 2) % 2
  }

  lemma {:induction false} XorSelfInverse(a: nat, s: nat)
    ensures Xor(Xor(a, s), s) == a
    decreases a + s
  {
    if a != 0 || s != 0 {
      XorSelfInverse(a / 2, s / 2);
      var x := Xor(a, s);
      XorStep(a, s);
      if x != 0 || s != 0 {
        XorStep(x, s);
      }
    }
  }

  /** The lowest bit of a XOR, and the XOR of the remaining bits. */
  lemma XorStep(a: nat, s: nat)
    ensures Xor(a, s) / 2 == Xor(a / 2, s / 2)
    ensures Xor(a, s) % 2 == (a % 2 + s % 2) % 2
  {
  }

  /** `launch_id.y * launch_size.x + launch_id.x` in wrapping `u32` arithmetic. */
  function RowMajor(id: UVec2, size: UVec2): (i: nat)
    ensures i < 0x1_0000_0000
  {
    (id.y * size.x + id.x) % 0x1_0000_0000
  }

  /** The RNG seed of a launch: its row-major index XOR the push-constant seed. */
  function PixelSeed(id: UVec2, size: UVec2, seed: nat): nat
  {
    Xor(RowMajor(id, size), seed)
  }

  /** XOR with the push-constant seed is undone by XOR with it again. */
  lemma PixelSeedUnmask(id: UVec2, size: UVec2, seed: nat)
    ensures Xor(PixelSeed(id, size, seed), seed) == RowMajor(id, size)
  {
    XorSelfInverse(RowMajor(id, size), seed);
  }

  /** While the launch has at most 2^32 pixels, distinct launches get distinct seeds. */
  lemma PixelSeedInjective(a: UVec2, b: UVec2, size: UVec2, seed: nat)
    requires a.x < size.x && a.y < size.y && b.x < size.x && b.y < size.y
    requires size.x * size.y <= 0x1_0000_0000
    ensures PixelSeed(a, size, seed) == PixelSeed(b, size, seed) <==> a == b
  {
    if PixelSeed(a, size, seed) == PixelSeed(b, size, seed) {
      PixelSeedUnmask(a, size, seed);
      PixelSeedUnmask(b, size, seed);
      RowMajorInRange(a, size);
      RowMajorInRange(b, size);
      RowMajorInjective(a, b, size.x);
    }
  }

  /** Inside a launch of at most 2^32 pixels the row-major index does not wrap. */
  lemma RowMajorInRange(id: UVec2, size: UVec2)
    requires id.x < size.x && id.y < size.y
    requires size.x * size.y <= 0x1_0000_0000
    ensures RowMajor(id, size) == id.y * size.x + id.x
  {
    MulStep(id.y, size.y, size.x);
  }

  /** Row-major indices of distinct launches inside the launch width are distinct. */
  lemma RowMajorInjective(a: UVec2, b: UVec2, width: nat)
    requires a.x < width && b.x < width
    requires a.y * width + a.x == b.y * width + b.x
    ensures a == b
  {
    if a.y < b.y {
      MulStep(a.y, b.y, width);
    } else if b.y < a.y {
      MulStep(b.y, a.y, width);
    }
  }

  lemma MulStep(p: nat, q: nat, width: nat)
    requires p < q
    ensures p * width + width <= q * width
  {
    var d := q - p;
    assert q * width == p * width + d * width;
    assert d * width == width + (d - 1) * width;
  }

  // ---------------------------------------------------------------------
  // Triangle vertex indices

  /** The index-buffer slot of corner `corner` of primitive `primitive`. */
  function Slot(primitive: nat, corner: nat): (i: nat)
    requires corner < 3
  {
    3 * primitive + corner
  }

  /** A slot determines its primitive and corner, so triangles never share slots. */
  lemma SlotRoundTrip(primitive: nat, corner: nat)
    requires corner < 3
    ensures Slot(primitive, corner) / 3 == primitive && Slot(primitive, corner) % 3 == corner
  {
  }

  /** The three vertex indices of a triangle, read from slots `3p`, `3p + 1`, `3p + 2`. */
  function TriangleIndices(indices: seq<nat>, primitive: nat): (r: (nat, nat, nat))
    requires 3 * primitive + 2 < |indices|
  {
    (indices[3 * primitive + 0], indices[3 * primitive + 1], indices[3 * primitive + 2])
  }

  /**
   * With `3n` indices, every primitive below `n` reads its three corners
   * inside the buffer, at slots `3p`, `3p + 1` and `3p + 2`.
   */
  lemma TriangleInBounds(indices: seq<nat>, count: nat, primitive: nat)
    requires 3 * count <= |indices| && primitive < count
    ensures forall c :: 0 <= c < 3 ==> Slot(primitive, c) < |indices|
    ensures 3 * primitive + 2 < |indices|
    ensures TriangleIndices(indices, primitive)
         == (indices[Slot(primitive, 0)], indices[Slot(primitive, 1)], indices[Slot(primitive, 2)])
  {
  }

  // ---------------------------------------------------------------------
  // Sphere intersection

  /** The roots reported for the unit sphere at the object origin, in the order reported. */
  function SphereHits(origin: Vec3, direction: Vec3, tMin: real, tMax: real, sqrt: real -> real): (hits: seq<real>)
    ensures |hits| <= 2
    ensures forall k :: 0 <= k < |hits| ==> tMin <= hits[k] <= tMax
  {
    var a := LengthSquared(direction);
    var halfB := Dot(origin, direction);
    var c := LengthSquared(origin) - 1.0;
    var discriminant := halfB * halfB - a * c;
    if discriminant < 0.0 then []
    // a zero direction divides by zero: both roots are NaN and every comparison fails
    else if a == 0.0 then []
    else
      var sqrtd := sqrt(discriminant);
      var root0 := (-halfB - sqrtd) / a;
      var root1 := (-halfB + sqrtd) / a;
      (if tMin <= root0 <= tMax then [root0] else []) + (if tMin <= root1 <= tMax then [root1] else [])
  }

  function Discriminant(origin: Vec3, direction: Vec3): real
  {
    Dot(origin, direction) * Dot(origin, direction) - LengthSquared(direction) * (LengthSquared(origin) - 1.0)
  }

  /** No hit is reported when the ray's line misses the sphere. */
  lemma SphereMissesLine(origin: Vec3, direction: Vec3, tMin: real, tMax: real, sqrt: real -> real)
    requires Discriminant(origin, direction) < 0.0
    ensures SphereHits(origin, direction, tMin, tMax, sqrt) == []
  {
  }

  /** `root0`, the root taken with `- sqrtd`. */
  function Root0(origin: Vec3, direction: Vec3, sqrt: real -> real): real
    requires LengthSquared(direction) != 0.0
  {
    (-Dot(origin, direction) - sqrt(Discriminant(origin, direction))) / LengthSquared(direction)
  }

  /** `root1`, the root taken with `+ sqrtd`. */
  function Root1(origin: Vec3, direction: Vec3, sqrt: real -> real): real
    requires LengthSquared(direction) != 0.0
  {
    (-Dot(origin, direction) + sqrt(Discriminant(origin, direction))) / LengthSquared(direction)
  }

  lemma SphereHitsUnfold(origin: Vec3, direction: Vec3, tMin: real, tMax: real, sqrt: real -> real)
    requires Discriminant(origin, direction) >= 0.0 && LengthSquared(direction) != 0.0
    ensures SphereHits(origin, direction, tMin, tMax, sqrt)
         == (if tMin <= Root0(origin, direction, sqrt) <= tMax then [Root0(origin, direction, sqrt)] else [])
          + (if tMin <= Root1(origin, direction, sqrt) <= tMax then [Root1(origin, direction, sqrt)] else [])
  {
  }

  /**
   * When the line meets the sphere, exactly the roots inside `[tMin, tMax]`
   * are reported, `root0` first: an in-range `root0` is the first hit, and
   * two hits are `root0` then `root1`.
   */
  lemma SphereHitsReported(origin: Vec3, direction: Vec3, tMin: real, tMax: real, sqrt: real -> real)
    requires Discriminant(origin, direction) >= 0.0 && LengthSquared(direction) != 0.0
    ensures var hits := SphereHits(origin, direction, tMin, tMax, sqrt);
      forall t :: t in hits <==>
        (t == Root0(origin, direction, sqrt) || t == Root1(origin, direction, sqrt)) && tMin <= t <= tMax
    ensures var hits := SphereHits(origin, direction, tMin, tMax, sqrt);
      tMin <= Root0(origin, direction, sqrt) <= tMax ==> |hits| >= 1 && hits[0] == Root0(origin, direction, sqrt)
    ensures var hits := SphereHits(origin, direction, tMin, tMax, sqrt);
      |hits| == 2 ==> hits == [Root0(origin, direction, sqrt), Root1(origin, direction, sqrt)]
    ensures var hits := SphereHits(origin, direction, tMin, tMax, sqrt);
      |hits| == 2 <==> tMin <= Root0(origin, direction, sqrt) <= tMax && tMin <= Root1(origin, direction, sqrt) <= tMax
  {
    SphereHitsUnfold(origin, direction, tMin, tMax, sqrt);
  }

  /** A zero direction reports nothing: both roots divide by zero. */
  lemma SphereZeroDirection(origin: Vec3, direction: Vec3, tMin: real, tMax: real, sqrt: real -> real)
    requires LengthSquared(direction) == 0.0
    ensures SphereHits(origin, direction, tMin, tMax, sqrt) == []
  {
  }

  /** With a non-negative square root the nearer root comes first. */
  lemma SphereHitsOrdered(origin: Vec3, direction: Vec3, tMin: real, tMax: real, sqrt: real -> real)
    requires sqrt(Discriminant(origin, direction)) >= 0.0
    ensures var hits := SphereHits(origin, direction, tMin, tMax, sqrt);
      |hits| == 2 ==> hits[0] <= hits[1]
  {
    if Discriminant(origin, direction) >= 0.0 && LengthSquared(direction) != 0.0 {
      SphereHitsUnfold(origin, direction, tMin, tMax, sqrt);
      LengthSquaredNonNegative(direction);
      var s := sqrt(Discriminant(origin, direction));
      DivMono(-Dot(origin, direction) - s, -Dot(origin, direction) + s, LengthSquared(direction));
    }
  }

  lemma DivMono(p: real, q: real, a: real)
    requires p <= q && a > 0.0
    ensures p / a <= q / a
  {
  }

  /** The point a ray reaches at parameter `t`. */
  function At(origin: Vec3, direction: Vec3, t: real): Vec3
  {
    Add(origin, Scale(t, direction))
  }

  /** With an exact square root every reported root lies on the unit sphere. */
  lemma SphereHitsOnSphere(origin: Vec3, direction: Vec3, tMin: real, tMax: real, sqrt: real -> real, k: nat)
    requires sqrt(Discriminant(origin, direction)) * sqrt(Discriminant(origin, direction)) == Discriminant(origin, direction)
    requires k < |SphereHits(origin, direction, tMin, tMax, sqrt)|
    ensures LengthSquared(At(origin, direction, SphereHits(origin, direction, tMin, tMax, sqrt)[k])) == 1.0
  {
    SphereHitsAreRoots(origin, direction, tMin, tMax, sqrt, k);
    RootOnSphere(origin, direction, sqrt(Discriminant(origin, direction)),
                 SphereHits(origin, direction, tMin, tMax, sqrt)[k]);
  }

  /** A root of the ray's quadratic, taken with an exact square root, is a point on the unit sphere. */
  lemma RootOnSphere(origin: Vec3, direction: Vec3, s: real, t: real)
    requires s * s == Discriminant(origin, direction)
    requires LengthSquared(direction) != 0.0
    requires t == (-Dot(origin, direction) - s) / LengthSquared(direction)
          || t == (-Dot(origin, direction) + s) / LengthSquared(direction)
    ensures LengthSquared(At(origin, direction, t)) == 1.0
  {
    QuadraticRoot(LengthSquared(direction), Dot(origin, direction), LengthSquared(origin) - 1.0, s, t);
    ExpandAt(origin, direction, t);
  }

  /** Every reported hit is one of the two roots, which exist only for a non-zero direction. */
  lemma SphereHitsAreRoots(origin: Vec3, direction: Vec3, tMin: real, tMax: real, sqrt: real -> real, k: nat)
    requires k < |SphereHits(origin, direction, tMin, tMax, sqrt)|
    ensures LengthSquared(direction) != 0.0
    ensures var t := SphereHits(origin, direction, tMin, tMax, sqrt)[k];
      var s := sqrt(Discriminant(origin, direction));
      t == (-Dot(origin, direction) - s) / LengthSquared(direction)
      || t == (-Dot(origin, direction) + s) / LengthSquared(direction)
  {
  }

  /** `-halfB ± s` over `a` solves `a t² + 2 halfB t + c = 0` when `s² = halfB² - a c`. */
  lemma QuadraticRoot(a: real, halfB: real, c: real, s: real, t: real)
    requires a != 0.0 && s * s == halfB * halfB - a * c
    requires t == (-halfB - s) / a || t == (-halfB + s) / a
    ensures a * t * t + 2.0 * halfB * t + c == 0.0
  {
    var u := a * t;
    assert u == -halfB - s || u == -halfB + s;
    assert u * u + 2.0 * halfB * u + a * c == 0.0;
    assert a * (a * t * t + 2.0 * halfB * t + c) == u * u + 2.0 * halfB * u + a * c;
  }

  lemma ExpandAt(origin: Vec3, direction: Vec3, t: real)
    ensures LengthSquared(At(origin, direction, t))
         == LengthSquared(direction) * t * t + 2.0 * Dot(origin, direction) * t + LengthSquared(origin)
  {
  }

  // ---------------------------------------------------------------------
  // Triangle cutout

  /** The any-hit shader ignores a triangle hit whose object-space point lies close to the origin. */
  predicate IgnoresHit(origin: Vec3, direction: Vec3, t: real)
  {
    LengthSquared(At(origin, direction, t)) < 0.2
  }

  /** The ignored region is a ball about the object origin: shrinking an ignored point keeps it ignored. */
  lemma CutoutShrinks(origin: Vec3, direction: Vec3, t: real, lambda: real)
    requires IgnoresHit(origin, direction, t)
    requires 0.0 <= lambda <= 1.0
    ensures IgnoresHit(Scale(lambda, origin), Scale(lambda, direction), t)
  {
    AtScale(origin, direction, t, lambda);
    ShrinkLengthSquared(lambda, At(origin, direction, t));
  }

  /** Scaling by a factor in `[0, 1]` does not move a point away from the origin. */
  lemma ShrinkLengthSquared(lambda: real, p: Vec3)
    requires 0.0 <= lambda <= 1.0
    ensures LengthSquared(Scale(lambda, p)) <= LengthSquared(p)
  {
    ScaleLengthSquared(lambda, p);
    LengthSquaredNonNegative(p);
    Shrink(lambda, LengthSquared(p));
  }

  lemma LengthSquaredNonNegative(p: Vec3)
    ensures LengthSquared(p) >= 0.0
  {
  }

  /** A factor in `[0, 1]`, squared, does not enlarge a non-negative value. */
  lemma Shrink(lambda: real, x: real)
    requires 0.0 <= lambda <= 1.0 && x >= 0.0
    ensures (lambda * lambda) * x <= x
  {
    RealMulMono(lambda, 1.0, lambda);
    assert lambda * lambda <= lambda;
    RealMulMono(lambda * lambda, 1.0, x);
  }

  /** Scaling origin and direction scales every point of the ray. */
  lemma AtScale(origin: Vec3, direction: Vec3, t: real, lambda: real)
    ensures At(Scale(lambda, origin), Scale(lambda, direction), t) == Scale(lambda, At(origin, direction, t))
  {
    ScaleScale(t, lambda, direction);
    ScaleAdd(lambda, origin, Scale(t, direction));
  }

  lemma ScaleAdd(lambda: real, a: Vec3, b: Vec3)
    ensures Scale(lambda, Add(a, b)) == Add(Scale(lambda, a), Scale(lambda, b))
  {
  }

  lemma ScaleScale(t: real, lambda: real, a: Vec3)
    ensures Scale(t, Scale(lambda, a)) == Scale(lambda, Scale(t, a))
  {
  }

  lemma ScaleLengthSquared(lambda: real, p: Vec3)
    ensures LengthSquared(Scale(lambda, p)) == (lambda * lambda) * LengthSquared(p)
  {
    assert (lambda * p.x) * (lambda * p.x) == (lambda * lambda) * (p.x * p.x);
    assert (lambda * p.y) * (lambda * p.y) == (lambda * lambda) * (p.y * p.y);
    assert (lambda * p.z) * (lambda * p.z) == (lambda * lambda) * (p.z * p.z);
  }

  lemma RealMulMono(a: real, b: real, c: real)
    requires a <= b && c >= 0.0
    ensures a * c <= b * c
  {
    assert b * c - a * c == (b - a) * c;
  }
}
