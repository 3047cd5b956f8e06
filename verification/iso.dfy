/** The isometric projection between a Q16.16 world (x east, y north, z up)
    and integer screen pixels, and its inverse on the ground plane z = 0.
    `int` additions on screen coordinates wrap like the 32-bit `int` of the
    target. */
module Iso {
  import opened Bits
  import opened FixedPoint

  datatype World = World(x: Fixed, y: Fixed, z: Fixed)
  datatype Screen = Screen(x: I32, y: I32)
  datatype Camera = Camera(offsetX: I32, offsetY: I32)

  /** Camera offsets far enough from the 32-bit limits that adding any
      16-bit whole part to them cannot wrap. */
  predicate ModestOffsets(cam: Camera) {
    MinI32 + 0x8000 <= cam.offsetX <= MaxI32 - 0x8000 &&
    MinI32 + 0x8000 <= cam.offsetY <= MaxI32 - 0x8000
  }

  /** `world_to_screen`: (x - y, (x + y) / 2 - z) in whole pixels, shifted
      by the camera offset. Away from wrap-around, screen x is the whole
      part of x - y and screen y the whole part of (x + y) / 2 - z, the
      halving truncated toward zero, each shifted by the camera offset. */
  function WorldToScreen(w: World, cam: Camera): (s: Screen)
    ensures ModestOffsets(cam) && InI32(w.x as int - w.y as int) ==>
              (s.x - cam.offsetX) * 0x1_0000 <= w.x as int - w.y as int < (s.x - cam.offsetX) * 0x1_0000 + 0x1_0000
    ensures var h := TruncDiv(w.x as int + w.y as int, 2) - w.z as int;
            ModestOffsets(cam) && InI32(w.x as int + w.y as int) && InI32(h) ==>
              (s.y - cam.offsetY) * 0x1_0000 <= h < (s.y - cam.offsetY) * 0x1_0000 + 0x1_0000
  {
    DivTwo(Add(w.x, w.y));
    Shift(Unshifted(w), cam)
  }

  /** The whole parts of sx = x - y and sy = (x + y) / 2 - z. */
  function Unshifted(w: World): Screen
  {
    var sx := Sub(w.x, w.y);
    var sy := Sub(Div(Add(w.x, w.y), Two), w.z);
    Screen(ToInt(sx), ToInt(sy))
  }

  /** A screen position moved by the camera offset in `int` arithmetic. */
  function Shift(p: Screen, cam: Camera): Screen
  {
    Screen(Wrap32(p.x + cam.offsetX), Wrap32(p.y + cam.offsetY))
  }

  /** The ground point (h + b, b - h, 0), with the additions in Q16.16. */
  function GroundPoint(h: Fixed, b: Fixed): World
  {
    World(Add(h, b), Sub(b, h), Zero)
  }

  /** `screen_to_world` for the ground plane: a = x - offset_x and
      b = y - offset_y are taken as whole numbers, and the point is
      (a/2 + b, b - a/2, 0). */
  function ScreenToWorld(s: Screen, cam: Camera): (w: World)
    ensures w.z == Zero
  {
    var sx := FromInt(Wrap32(s.x - cam.offsetX));
    var sy := FromInt(Wrap32(s.y - cam.offsetY));
    GroundPoint(Div(sx, Two), sy)
  }

  /** For every screen point, with a and b the 16-bit whole parts that
      x - offset_x and y - offset_y keep in Q16.16, the back-projection's
      raws are a/2 + b and b - a/2 in units of 2^-16 (the halving exact),
      each stored as an `int32_t`. */
  lemma BackProjection(s: Screen, cam: Camera)
    ensures var w := ScreenToWorld(s, cam);
            var a, b := Wrap16(Wrap32(s.x - cam.offsetX)), Wrap16(Wrap32(s.y - cam.offsetY));
            w.x as int == Wrap32(a * 0x8000 + b * 0x1_0000) && w.y as int == Wrap32(b * 0x1_0000 - a * 0x8000)
  {
    HalfOfFromInt(Wrap32(s.x - cam.offsetX));
    FromIntWraps(Wrap32(s.y - cam.offsetY));
  }

  /** Half of a whole number in Q16.16 is exact. */
  lemma HalfOfFromInt(a: I32)
    ensures Div(FromInt(a), Two) as int == Wrap16(a) * 0x8000
  {
    FromIntWraps(a);
    DivTwo(FromInt(a));
    assert Wrap16(a) * 0x8000 * 2 == Wrap16(a) * 0x1_0000;
    TruncDivExact(Wrap16(a) * 0x8000, 2);
  }

  /** The ground point of half a and b, for small whole numbers a and b. */
  lemma GroundPointNear(a: I32, b: I32)
    requires -0x8000 <= a < 0x8000 && -0x4000 <= b < 0x4000
    ensures var w := GroundPoint(Div(FromInt(a), Two), FromInt(b));
            w.x as int == a * 0x8000 + b * 0x1_0000 && w.y as int == b * 0x1_0000 - a * 0x8000
  {
    HalfOfFromInt(a);
    ToIntFromInt(b);
  }

  /** Near the camera the back-projection is exactly (a/2 + b, b - a/2). */
  lemma ScreenToWorldGround(s: Screen, cam: Camera)
    requires -0x8000 <= Wrap32(s.x - cam.offsetX) < 0x8000
    requires -0x4000 <= Wrap32(s.y - cam.offsetY) < 0x4000
    ensures var w := ScreenToWorld(s, cam);
            var a, b := Wrap32(s.x - cam.offsetX), Wrap32(s.y - cam.offsetY);
            w.x as int == a * 0x8000 + b * 0x1_0000 && w.y as int == b * 0x1_0000 - a * 0x8000
  {
    var a, b := Wrap32(s.x - cam.offsetX), Wrap32(s.y - cam.offsetY);
    GroundPointNear(a, b);
    assert ScreenToWorld(s, cam) == GroundPoint(Div(FromInt(a), Two), FromInt(b));
  }

  /** For x = h + b and y = b - h in Q16.16, x - y is 2h and x + y is 2b,
      each wrapped to 32 bits. */
  lemma SumAndDifference(h: Fixed, b: Fixed)
    ensures var w := GroundPoint(h, b);
            Sub(w.x, w.y) as int == Wrap32(2 * h as int) && Add(w.x, w.y) as int == Wrap32(2 * b as int)
  {
    Wrap32SumDiff(h as int, b as int);
  }

  /** x - y of the ground point of half a is the 16-bit wrap of a. */
  lemma HalfDifference(a: I32, b: Fixed)
    ensures var w := GroundPoint(Div(FromInt(a), Two), b);
            Sub(w.x, w.y) as int == Wrap16(a) * 0x1_0000
  {
    SumAndDifference(Div(FromInt(a), Two), b);
    HalfOfFromInt(a);
  }

  /** Two `int32_t` sums with the same offset: when one comes from a small
      summand c and the other is v, they agree exactly when c is the offset
      taken back off v. */
  lemma OffsetRoundTrip(v: I32, off: I32, c: int)
    requires -0x8000 <= c < 0x8000
    ensures Wrap32(c + off) == v <==> c == Wrap32(v - off)
  {
    Wrap32Absorbs(v - off, off);
    assert v - off + off == v;
    Wrap32Separates(c + off, Wrap32(v - off) + off);
  }

  /** The screen x of a point whose x - y is the whole number c in Q16.16. */
  lemma ScreenXOfWhole(w: World, cam: Camera, c: int)
    requires -0x8000 <= c < 0x8000 && Sub(w.x, w.y) as int == c * 0x1_0000
    ensures WorldToScreen(w, cam).x == Wrap32(c + cam.offsetX)
  {
    MulDivCancel(c, 0x1_0000);
  }

  /** The horizontal round trip for the ground point of half of the whole
      number a = v - offset_x. */
  lemma GroundPointRoundTripX(a: I32, b: Fixed, v: I32, cam: Camera)
    requires a == Wrap32(v - cam.offsetX)
    ensures WorldToScreen(GroundPoint(Div(FromInt(a), Two), b), cam).x == v <==> -0x8000 <= a < 0x8000
  {
    HalfDifference(a, b);
    ScreenXRoundTrip(GroundPoint(Div(FromInt(a), Two), b), a, v, cam);
  }

  /** The horizontal round trip for any point whose x - y is the 16-bit
      wrap of the whole number a = v - offset_x. */
  lemma ScreenXRoundTrip(w: World, a: I32, v: I32, cam: Camera)
    requires a == Wrap32(v - cam.offsetX) && Sub(w.x, w.y) as int == Wrap16(a) * 0x1_0000
    ensures WorldToScreen(w, cam).x == v <==> -0x8000 <= a < 0x8000
  {
    ScreenXOfWhole(w, cam, Wrap16(a));
    OffsetRoundTrip(v, cam.offsetX, Wrap16(a));
  }

  /** Halving the 32-bit wrap of an even number gives a value within 2^30,
      and gives the halved number itself when the doubling did not wrap. */
  lemma HalfOfWrappedDouble(x: int)
    ensures var e := Wrap32(2 * x) as Fixed;
            -0x4000_0000 <= Div(e, Two) as int < 0x4000_0000
            && (InI32(2 * x) ==> Div(e, Two) as int == x)
  {
    Wrap32Even(2 * x);
    HalfOf(Wrap32(2 * x) as Fixed, x);
  }

  /** Halving an even value e that is 2x unless 2x wraps. */
  lemma HalfOf(e: Fixed, x: int)
    requires e as int % 2 == 0 && (InI32(2 * x) ==> e as int == 2 * x)
    ensures -0x4000_0000 <= Div(e, Two) as int < 0x4000_0000
    ensures InI32(2 * x) ==> Div(e, Two) as int == x
  {
    HalfOfEven(e);
  }

  /** The whole part of a value within 2^30 is in the 15-bit range. */
  lemma WholePartOfHalfRange(f: Fixed)
    requires -0x4000_0000 <= f as int < 0x4000_0000
    ensures -0x4000 <= ToInt(f) < 0x4000
  {
  }

  /** The whole part of half of 2b, with b a whole number in Q16.16 and
      the doubling wrapped to 32 bits. */
  function HalfDoubledWhole(b: I32): int
  {
    ToInt(Div(Wrap32(2 * FromInt(b) as int) as Fixed, Two))
  }

  /** Halving the wrapped double of a whole number b: the result stays within
      2^30, so its whole part is in the 15-bit range, and it is b itself when
      b is in that range. */
  lemma HalfOfDoubled(b: I32)
    ensures -0x4000 <= HalfDoubledWhole(b) < 0x4000
    ensures -0x4000 <= b < 0x4000 ==> HalfDoubledWhole(b) == b
  {
    HalfOfWrappedDouble(FromInt(b) as int);
    WholePartOfHalfRange(Div(Wrap32(2 * FromInt(b) as int) as Fixed, Two));
    if -0x4000 <= b < 0x4000 {
      ToIntFromInt(b);
    }
  }

  /** The screen y of a point on the ground plane is the whole part of
      half of x + y. */
  lemma ScreenYOfGround(w: World, cam: Camera)
    requires w.z == Zero
    ensures WorldToScreen(w, cam).y == Wrap32(ToInt(Div(Add(w.x, w.y), Two)) + cam.offsetY)
  {
    AddSubZero(Div(Add(w.x, w.y), Two));
  }

  /** The screen y of a ground point built on the whole number b is the
      whole part of half of 2b. */
  lemma GroundPointScreenY(h: Fixed, b: I32, cam: Camera)
    ensures WorldToScreen(GroundPoint(h, FromInt(b)), cam).y == Wrap32(HalfDoubledWhole(b) + cam.offsetY)
  {
    SumAndDifference(h, FromInt(b));
    ScreenYOfGround(GroundPoint(h, FromInt(b)), cam);
  }

  /** The vertical round trip for any ground point built on the whole
      number b = v - offset_y. */
  lemma GroundPointRoundTripY(h: Fixed, v: I32, cam: Camera)
    ensures var b := Wrap32(v - cam.offsetY);
            WorldToScreen(GroundPoint(h, FromInt(b)), cam).y == v <==> -0x4000 <= b < 0x4000
  {
    var b := Wrap32(v - cam.offsetY);
    GroundPointScreenY(h, b, cam);
    RoundTripThroughHalf(WorldToScreen(GroundPoint(h, FromInt(b)), cam).y, v, cam.offsetY, b);
  }

  /** A screen y obtained from the whole part of half of 2b comes back to v
      exactly when b, the offset taken back off v, is in the 15-bit range. */
  lemma RoundTripThroughHalf(p: I32, v: I32, off: I32, b: I32)
    requires b == Wrap32(v - off) && p == Wrap32(HalfDoubledWhole(b) + off)
    ensures p == v <==> -0x4000 <= b < 0x4000
  {
    HalfOfDoubled(b);
    OffsetRoundTrip(v, off, HalfDoubledWhole(b));
  }

  /** Projecting the back-projection of a screen point returns it exactly
      when the point lies within 2^15 pixels of the camera horizontally and
      2^14 vertically; beyond that the 16-bit whole part of Q16.16 (and, for
      y, the doubled value x + y) wraps. */
  lemma GroundRoundTrip(s: Screen, cam: Camera)
    ensures WorldToScreen(ScreenToWorld(s, cam), cam) == s
        <==> -0x8000 <= Wrap32(s.x - cam.offsetX) < 0x8000
             && -0x4000 <= Wrap32(s.y - cam.offsetY) < 0x4000
  {
    RoundTripX(s, cam);
    RoundTripY(s, cam);
    SameScreen(WorldToScreen(ScreenToWorld(s, cam), cam), s,
               -0x8000 <= Wrap32(s.x - cam.offsetX) < 0x8000, -0x4000 <= Wrap32(s.y - cam.offsetY) < 0x4000);
  }

  /** The horizontal half of GroundRoundTrip. */
  lemma RoundTripX(s: Screen, cam: Camera)
    ensures WorldToScreen(ScreenToWorld(s, cam), cam).x == s.x <==> -0x8000 <= Wrap32(s.x - cam.offsetX) < 0x8000
  {
    var a := Wrap32(s.x - cam.offsetX);
    assert ScreenToWorld(s, cam) == GroundPoint(Div(FromInt(a), Two), FromInt(Wrap32(s.y - cam.offsetY)));
    GroundPointRoundTripX(a, FromInt(Wrap32(s.y - cam.offsetY)), s.x, cam);
  }

  /** The vertical half of GroundRoundTrip. */
  lemma RoundTripY(s: Screen, cam: Camera)
    ensures WorldToScreen(ScreenToWorld(s, cam), cam).y == s.y <==> -0x4000 <= Wrap32(s.y - cam.offsetY) < 0x4000
  {
    var h := BackProjectionHeight(s, cam);
    GroundPointRoundTripY(h, s.y, cam);
  }

  /** The back-projection is a ground point built on the whole number
      b = y - offset_y, whatever its first coordinate. */
  lemma BackProjectionHeight(s: Screen, cam: Camera) returns (h: Fixed)
    ensures ScreenToWorld(s, cam) == GroundPoint(h, FromInt(Wrap32(s.y - cam.offsetY)))
  {
    h := Div(FromInt(Wrap32(s.x - cam.offsetX)), Two);
  }

  /** Two screen points are equal exactly when both coordinates are. */
  lemma SameScreen(p: Screen, s: Screen, sameX: bool, sameY: bool)
    requires (p.x == s.x <==> sameX) && (p.y == s.y <==> sameY)
    ensures p == s <==> sameX && sameY
  {
  }

  /** The round trip certainly holds within 8192 pixels of the camera. */
  lemma GroundRoundTripNearCamera(s: Screen, cam: Camera)
    requires -0x2000 < s.x - cam.offsetX < 0x2000
    requires -0x2000 < s.y - cam.offsetY < 0x2000
    ensures WorldToScreen(ScreenToWorld(s, cam), cam) == s
  {
    GroundRoundTrip(s, cam);
  }

  /** x - y of two small whole numbers is exact. */
  lemma WholeDifference(i: int, j: int)
    requires -0x2000 < i < 0x2000 && -0x2000 < j < 0x2000
    ensures Sub(FromInt(i), FromInt(j)) as int == (i - j) * 0x1_0000
    ensures ToInt(Sub(FromInt(i), FromInt(j))) == i - j
  {
    ToIntFromInt(i);
    ToIntFromInt(j);
    MulDivCancel(i - j, 0x1_0000);
  }

  /** Half of x + y of two small whole numbers is exact, and its whole part
      is the floor of (i + j) / 2. */
  lemma HalfSumOfWholes(i: int, j: int)
    requires -0x2000 < i < 0x2000 && -0x2000 < j < 0x2000
    ensures Div(Add(FromInt(i), FromInt(j)), Two) as int == (i + j) * 0x8000
    ensures ToInt(Div(Add(FromInt(i), FromInt(j)), Two)) == (i + j) / 2
  {
    AddFromInt(i, j);
    HalfOfFromInt(i + j);
    HalfFloor(i + j);
    WholePartOf(Div(FromInt(i + j), Two), (i + j) / 2);
  }

  /** n / 2 in units of 2^-16 has the floor of n / 2 as its whole part. */
  lemma HalfFloor(n: int)
    ensures (n / 2) * 0x1_0000 <= n * 0x8000 < (n / 2) * 0x1_0000 + 0x1_0000
  {
  }

  /** The projection of a whole-number ground point (i, j): screen
      (i - j, floor((i + j) / 2)) plus the camera offset. */
  lemma ProjectWholeGroundPoint(i: int, j: int, cam: Camera)
    requires -0x2000 < i < 0x2000 && -0x2000 < j < 0x2000
    ensures var s := WorldToScreen(World(FromInt(i), FromInt(j), Zero), cam);
            s == Screen(Wrap32(i - j + cam.offsetX), Wrap32((i + j) / 2 + cam.offsetY))
  {
    WholeDifference(i, j);
    HalfSumOfWholes(i, j);
    AddSubZero(Div(Add(FromInt(i), FromInt(j)), Two));
  }

  /** Taking the offset back off a small sum gives the summand. */
  lemma OffsetBack(c: int, off: I32)
    requires -0x8000 <= c < 0x8000
    ensures Wrap32(Wrap32(c + off) - off) == c
  {
    Wrap32Absorbs(c + off, -(off as int));
    assert c + off + -(off as int) == c;
  }

  /** Back-projecting a screen point that lies (a, b) pixels from the
      camera, with a and b small. */
  lemma BackProjectNear(s: Screen, cam: Camera, a: int, b: int)
    requires -0x8000 <= a < 0x8000 && -0x4000 <= b < 0x4000
    requires s == Screen(Wrap32(a + cam.offsetX), Wrap32(b + cam.offsetY))
    ensures var w := ScreenToWorld(s, cam);
            w.x as int == a * 0x8000 + b * 0x1_0000 && w.y as int == b * 0x1_0000 - a * 0x8000
  {
    OffsetBack(a, cam.offsetX);
    OffsetBack(b, cam.offsetY);
    ScreenToWorldGround(s, cam);
  }

  /** A whole-number ground point comes back within half a unit on each
      axis, and exactly when x + y is even. */
  lemma WholeGroundPointReturns(i: int, j: int, cam: Camera)
    requires -0x2000 < i < 0x2000 && -0x2000 < j < 0x2000
    ensures var w := World(FromInt(i), FromInt(j), Zero);
            var w' := ScreenToWorld(WorldToScreen(w, cam), cam);
            && w'.z == Zero
            && -0x8000 <= w'.x as int - w.x as int <= 0
            && -0x8000 <= w'.y as int - w.y as int <= 0
            && ((i + j) % 2 == 0 <==> w' == w)
  {
    var m := (i + j) / 2;
    ProjectWholeGroundPoint(i, j, cam);
    BackProjectNear(WorldToScreen(World(FromInt(i), FromInt(j), Zero), cam), cam, i - j, m);
    ToIntFromInt(i);
    ToIntFromInt(j);
  }

  /** Subtracting a height raised by one unit takes one unit more off,
      unless something wraps. */
  lemma SubRaised(h: Fixed, z: Fixed)
    requires z as int <= MaxI32 - 0x1_0000
    requires Sub(h, z) as int >= MinI32 + 0x1_0000
    ensures Sub(h, Add(z, One)) == (Sub(h, z) as int - 0x1_0000) as Fixed
  {
    assert Add(z, One) as int == z as int + 0x1_0000;
    Wrap32Absorbs(h as int - z as int, -0x1_0000);
    assert h as int - z as int + -0x1_0000 == h as int - (z as int + 0x1_0000);
  }

  /** Taking one unit off lowers the whole part by one. */
  lemma ToIntLessOne(f: Fixed)
    requires f as int >= MinI32 + 0x1_0000
    ensures ToInt((f as int - 0x1_0000) as Fixed) == ToInt(f) - 1
  {
  }

  /** Raising the height by one unit lowers the whole part of h - z by one. */
  lemma RaisedWhole(h: Fixed, z: Fixed)
    requires z as int <= MaxI32 - 0x1_0000
    requires Sub(h, z) as int >= MinI32 + 0x1_0000
    ensures ToInt(Sub(h, Add(z, One))) == ToInt(Sub(h, z)) - 1
  {
    SubRaised(h, z);
    ToIntLessOne(Sub(h, z));
  }

  /** One pixel less before the offset is one pixel less after it. */
  lemma StepDown(v: int, off: I32)
    ensures Wrap32(v - 1 + off) == Wrap32(Wrap32(v + off) - 1)
  {
    Wrap32Absorbs(v + off, -1);
    assert v + off + -1 == v - 1 + off;
  }

  /** Raising a point by one whole unit moves it one pixel up the screen
      and leaves its screen x alone, unless the y computation wraps. */
  lemma RaiseOneUnit(w: World, cam: Camera)
    requires w.z as int <= MaxI32 - 0x1_0000
    requires Sub(Div(Add(w.x, w.y), Two), w.z) as int >= MinI32 + 0x1_0000
    ensures var s := WorldToScreen(w, cam);
            var s' := WorldToScreen(w.(z := Add(w.z, One)), cam);
            s'.x == s.x && s'.y == Wrap32(s.y - 1)
  {
    var h := Div(Add(w.x, w.y), Two);
    RaisedWhole(h, w.z);
    StepDown(ToInt(Sub(h, w.z)), cam.offsetY);
  }

  /** Moving an offset by d moves the offset sum by d. */
  lemma ShiftedOffset(v: int, off: I32, d: int)
    ensures Wrap32(v + Wrap32(off + d)) == Wrap32(Wrap32(v + off) + d)
  {
    Wrap32Absorbs(off + d, v);
    Wrap32Absorbs(v + off, d);
    assert off + d + v == v + off + d;
    assert Wrap32(off + d) + v == v + Wrap32(off + d);
  }

  /** Moving the camera by (dx, dy) moves every projected point by exactly
      (dx, dy), modulo the 32-bit wrap of `int`. */
  lemma CameraTranslates(w: World, cam: Camera, dx: int, dy: int)
    ensures var s := WorldToScreen(w, cam);
            var cam' := Camera(Wrap32(cam.offsetX + dx), Wrap32(cam.offsetY + dy));
            WorldToScreen(w, cam') == Screen(Wrap32(s.x + dx), Wrap32(s.y + dy))
  {
    ShiftedScreen(Unshifted(w), cam, dx, dy);
  }

  /** CameraTranslates for any position before the offset. */
  lemma ShiftedScreen(p: Screen, cam: Camera, dx: int, dy: int)
    ensures var s := Shift(p, cam);
            Shift(p, Camera(Wrap32(cam.offsetX + dx), Wrap32(cam.offsetY + dy))) == Screen(Wrap32(s.x + dx), Wrap32(s.y + dy))
  {
    ShiftedOffset(p.x, cam.offsetX, dx);
    ShiftedOffset(p.y, cam.offsetY, dy);
  }
}
